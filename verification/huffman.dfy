/** Huffman codes over integer symbols: the tree, the greedy construction,
    codes read off tree paths, encoding, whole-string decoding and the
    decoding tree rebuilt from a code map. */
module Huffman {
  import opened Wrappers
  import opened Collections

  type Symbol = int

  /** A bit string: the source keeps bits as a text of '0' and '1' characters. */
  type Bits = seq<char>

  /** `Nil` is Python's `None`, both for an absent tree and for a missing child.
      A node with a symbol is a leaf for every traversal in the source;
      `freq` is the weight carried by the node. */
  datatype Tree = Nil | Node(symbol: Option<Symbol>, freq: int, left: Tree, right: Tree)

  datatype HuffmanError =
    | SymbolNotFound(symbol: Symbol)   // encode met a symbol without a code
    | InvalidBits                      // decode needed a child that is missing

  function Leaf(s: Symbol, f: int): Tree {
    Node(Some(s), f, Nil, Nil)
  }

  predicate IsBit(c: char) {
    c == '0' || c == '1'
  }

  predicate IsBinary(b: Bits) {
    forall i :: 0 <= i < |b| ==> IsBit(b[i])
  }

  predicate IsPrefix(a: Bits, b: Bits) {
    |a| <= |b| && b[..|a|] == a
  }

  /** No codeword is a prefix of another symbol's codeword (equal codewords included). */
  predicate PrefixFree(codes: map<Symbol, Bits>) {
    forall a, b :: a in codes && b in codes && a != b ==> !IsPrefix(codes[a], codes[b])
  }

  predicate BinaryCodes(codes: map<Symbol, Bits>) {
    forall s :: s in codes ==> IsBinary(codes[s])
  }

  /** The child a traversal enters on bit `b`: '0' goes left, anything else right. */
  function Child(t: Tree, b: char): Tree
    requires t.Node?
  {
    if b == '0' then t.left else t.right
  }

  /** Walking the binary string `c` down from `t` passes only nodes without a
      symbol and ends on a node holding `s`: `c` is where a walk that starts at
      `t` first meets `s`. */
  predicate Reaches(t: Tree, c: Bits, s: Symbol)
    decreases |c|
  {
    t.Node? &&
    if |c| == 0 then t.symbol == Some(s)
    else t.symbol.None? && IsBit(c[0]) && Reaches(Child(t, c[0]), c[1..], s)
  }

  /** Every codeword is non-empty and leads from the root `t` to its symbol. */
  predicate CodeWalks(t: Tree, codes: map<Symbol, Bits>) {
    && t.Node? && t.symbol.None?
    && forall s :: s in codes ==> |codes[s]| >= 1 && Reaches(t, codes[s], s)
  }

  // ---------------------------------------------------------------------
  // Tree construction: repeatedly merge the two lightest trees.

  /** A Huffman tree: leaves carry symbols, every other node has two children. */
  predicate Full(t: Tree) {
    t.Node? &&
    if t.symbol.Some? then t.left.Nil? && t.right.Nil?
    else Full(t.left) && Full(t.right)
  }

  /** The symbols stored in the tree, with multiplicity. */
  function Leaves(t: Tree): multiset<Symbol> {
    match t
    case Nil => multiset{}
    case Node(sym, _, l, r) =>
      (if sym.Some? then multiset{sym.value} else multiset{}) + Leaves(l) + Leaves(r)
  }

  function Weight(t: Tree): int {
    if t.Nil? then 0 else t.freq
  }

  predicate AllFull(fs: seq<Tree>) {
    forall i :: 0 <= i < |fs| ==> Full(fs[i])
  }

  function ForestWeight(fs: seq<Tree>): int {
    if |fs| == 0 then 0 else Weight(fs[0]) + ForestWeight(fs[1..])
  }

  function ForestLeaves(fs: seq<Tree>): multiset<Symbol> {
    if |fs| == 0 then multiset{} else Leaves(fs[0]) + ForestLeaves(fs[1..])
  }

  lemma ForestConcat(a: seq<Tree>, b: seq<Tree>)
    ensures ForestWeight(a + b) == ForestWeight(a) + ForestWeight(b)
    ensures ForestLeaves(a + b) == ForestLeaves(a) + ForestLeaves(b)
  {
    ForestWeightConcat(a, b);
    ForestLeavesConcat(a, b);
  }

  lemma {:induction false} ForestWeightConcat(a: seq<Tree>, b: seq<Tree>)
    ensures ForestWeight(a + b) == ForestWeight(a) + ForestWeight(b)
  {
    if |a| == 0 {
      assert a + b == b;
    } else {
      assert (a + b)[1..] == a[1..] + b;
      ForestWeightConcat(a[1..], b);
    }
  }

  lemma {:induction false} ForestLeavesConcat(a: seq<Tree>, b: seq<Tree>)
    ensures ForestLeaves(a + b) == ForestLeaves(a) + ForestLeaves(b)
  {
    if |a| == 0 {
      assert a + b == b;
    } else {
      assert (a + b)[1..] == a[1..] + b;
      ForestLeavesConcat(a[1..], b);
    }
  }

  /** The forest without its tree at index `i`. */
  function RemoveAt(fs: seq<Tree>, i: nat): (r: seq<Tree>)
    requires i < |fs|
    ensures |r| == |fs| - 1
    ensures AllFull(fs) ==> AllFull(r)
    ensures ForestWeight(r) + Weight(fs[i]) == ForestWeight(fs)
    ensures ForestLeaves(r) + Leaves(fs[i]) == ForestLeaves(fs)
  {
    RemoveAtSplits(fs, i);
    fs[..i] + fs[i+1..]
  }

  lemma RemoveAtSplits(fs: seq<Tree>, i: nat)
    requires i < |fs|
    ensures AllFull(fs) ==> AllFull(fs[..i] + fs[i+1..])
    ensures ForestWeight(fs[..i] + fs[i+1..]) + Weight(fs[i]) == ForestWeight(fs)
    ensures ForestLeaves(fs[..i] + fs[i+1..]) + Leaves(fs[i]) == ForestLeaves(fs)
  {
    var a, b := fs[..i], fs[i+1..];
    SplitAround(fs, i);
    RemoveAtWeight(a, fs[i], b);
    RemoveAtLeaves(a, fs[i], b);
    if AllFull(fs) {
      forall k | 0 <= k < |a + b| ensures Full((a + b)[k]) {
        if k < i {
          assert (a + b)[k] == fs[k];
        } else {
          assert (a + b)[k] == fs[k + 1];
        }
      }
    }
  }

  lemma RemoveAtWeight(a: seq<Tree>, t: Tree, b: seq<Tree>)
    ensures ForestWeight(a + b) + Weight(t) == ForestWeight((a + [t]) + b)
  {
    ForestWeightConcat(a + [t], b);
    ForestWeightConcat(a, [t]);
    ForestWeightConcat(a, b);
    Singleton(t);
  }

  lemma RemoveAtLeaves(a: seq<Tree>, t: Tree, b: seq<Tree>)
    ensures ForestLeaves(a + b) + Leaves(t) == ForestLeaves((a + [t]) + b)
  {
    ForestLeavesConcat(a + [t], b);
    ForestLeavesConcat(a, [t]);
    ForestLeavesConcat(a, b);
    Singleton(t);
  }

  lemma Singleton(t: Tree)
    ensures ForestWeight([t]) == Weight(t)
    ensures ForestLeaves([t]) == Leaves(t)
  {
    assert [t][1..] == [];
  }

  /** The first index of a lightest tree: what the heap pops next, with ties
      resolved towards the front of the forest. */
  function MinIndex(fs: seq<Tree>): (i: nat)
    requires |fs| > 0
    ensures i < |fs|
    ensures forall j :: 0 <= j < |fs| ==> Weight(fs[i]) <= Weight(fs[j])
  {
    if |fs| == 1 then 0
    else
      var k := MinIndex(fs[1..]) + 1;
      assert forall j :: 1 <= j < |fs| ==> fs[j] == fs[1..][j - 1];
      if Weight(fs[0]) <= Weight(fs[k]) then 0 else k
  }

  /** One round of the merge loop: pop the two lightest trees and push a node
      holding both, weighted by their sum. */
  function MergeTwoLightest(fs: seq<Tree>): (r: seq<Tree>)
    requires |fs| >= 2 && AllFull(fs)
    ensures |r| == |fs| - 1 && AllFull(r)
    ensures ForestWeight(r) == ForestWeight(fs)
    ensures ForestLeaves(r) == ForestLeaves(fs)
    ensures Full(r[|r| - 1]) && r[|r| - 1].symbol.None?
  {
    var i := MinIndex(fs);
    var low := fs[i];
    var rest := RemoveAt(fs, i);
    var j := MinIndex(rest);
    var next := rest[j];
    var rest2 := RemoveAt(rest, j);
    var merged := Node(None, low.freq + next.freq, low, next);
    PushFacts(rest2, merged);
    rest2 + [merged]
  }

  lemma PushFacts(fs: seq<Tree>, t: Tree)
    requires AllFull(fs) && Full(t)
    ensures AllFull(fs + [t])
    ensures ForestWeight(fs + [t]) == ForestWeight(fs) + Weight(t)
    ensures ForestLeaves(fs + [t]) == ForestLeaves(fs) + Leaves(t)
  {
    ForestConcat(fs, [t]);
    assert [t][1..] == [];
    assert forall k :: 0 <= k < |fs| ==> (fs + [t])[k] == fs[k];
  }

  /** The merge loop of `build_huffman_tree`: merge until one tree is left. */
  function MergeAll(fs: seq<Tree>): (t: Tree)
    requires |fs| > 0 && AllFull(fs)
    ensures Full(t)
    ensures Leaves(t) == ForestLeaves(fs)
    ensures t.freq == ForestWeight(fs)
    ensures |fs| >= 2 ==> t.symbol.None?
    decreases |fs|
  {
    if |fs| == 1 then
      assert fs[1..] == [];
      fs[0]
    else
      var r := MergeTwoLightest(fs);
      if |r| == 1 then
        assert r[1..] == [];
        r[0]
      else
        MergeAll(r)
  }

  /** One leaf per table entry, in the order `ks` lists the symbols. */
  function LeavesFor(ks: seq<Symbol>, f: map<Symbol, int>): (fs: seq<Tree>)
    requires forall i :: 0 <= i < |ks| ==> ks[i] in f
    ensures |fs| == |ks| && AllFull(fs)
    ensures ForestLeaves(fs) == multiset(ks)
    ensures ForestWeight(fs) == FrequencySum(ks, f)
  {
    if |ks| == 0 then []
    else
      var tail := LeavesFor(ks[1..], f);
      LeafCons(ks, f, tail);
      [Leaf(ks[0], f[ks[0]])] + tail
  }

  lemma LeafCons(ks: seq<Symbol>, f: map<Symbol, int>, tail: seq<Tree>)
    requires |ks| > 0 && forall i :: 0 <= i < |ks| ==> ks[i] in f
    requires |tail| == |ks| - 1 && AllFull(tail)
    requires ForestLeaves(tail) == multiset(ks[1..])
    requires ForestWeight(tail) == FrequencySum(ks[1..], f)
    ensures var fs := [Leaf(ks[0], f[ks[0]])] + tail;
      && AllFull(fs)
      && ForestLeaves(fs) == multiset(ks)
      && ForestWeight(fs) == FrequencySum(ks, f)
  {
    var leaf := Leaf(ks[0], f[ks[0]]);
    var fs := [leaf] + tail;
    assert ks == [ks[0]] + ks[1..];
    assert multiset(ks) == multiset{ks[0]} + multiset(ks[1..]);
    assert fs[1..] == tail;
    assert Leaves(leaf) == multiset{ks[0]};
    assert Full(leaf);
    forall i | 0 <= i < |fs| ensures Full(fs[i]) {
      if i > 0 {
        assert fs[i] == tail[i - 1];
      }
    }
  }

  function FrequencySum(ks: seq<Symbol>, f: map<Symbol, int>): int
    requires forall i :: 0 <= i < |ks| ==> ks[i] in f
  {
    if |ks| == 0 then 0 else f[ks[0]] + FrequencySum(ks[1..], f)
  }

  /** The sum of all frequencies in the table. */
  function TotalFrequency(f: map<Symbol, int>): int {
    FrequencySum(SetToSorted(f.Keys), f)
  }

  /** `build_huffman_tree`: `Nil` for an empty table, a single leaf for one
      symbol, otherwise the result of merging one leaf per symbol. The heap is
      seeded in ascending symbol order. */
  function BuildHuffmanTree(f: map<Symbol, int>): (t: Tree)
    ensures t.Nil? <==> |f| == 0
    ensures |f| >= 1 ==> Full(t) && Leaves(t) == multiset(f.Keys) && t.freq == TotalFrequency(f)
    ensures |f| == 1 ==> t.symbol.Some? && t.symbol.value in f && t == Leaf(t.symbol.value, f[t.symbol.value])
    ensures |f| >= 2 ==> t.symbol.None?
  {
    var ks := SetToSorted(f.Keys);
    DistinctMultiset(ks);
    if |f| == 0 then Nil
    else if |f| == 1 then
      SingleLeaf(ks, f);
      Leaf(ks[0], f[ks[0]])
    else
      MergeAll(LeavesFor(ks, f))
  }

  /** The tree of a one-symbol table is that symbol's leaf. */
  lemma SingleLeaf(ks: seq<Symbol>, f: map<Symbol, int>)
    requires |ks| == 1 && Elements(ks) == f.Keys && multiset(ks) == multiset(f.Keys)
    ensures ks[0] in f
    ensures var leaf := Leaf(ks[0], f[ks[0]]);
      Full(leaf) && Leaves(leaf) == multiset(f.Keys) && leaf.freq == FrequencySum(ks, f)
  {
    assert ks[0] in Elements(ks);
    assert ks == [ks[0]] && ks[1..] == [];
    assert multiset(ks) == multiset{ks[0]};
  }

  // ---------------------------------------------------------------------
  // Codes from tree paths.

  /** `generate_huffman_codes`: a depth-first walk appending '0' for a left
      step and '1' for a right step; a node with a symbol records the path so
      far and is not descended further. Later entries overwrite earlier ones,
      as in the shared dictionary of the source. */
  function GenerateCodes(t: Tree, prefix: Bits): map<Symbol, Bits>
    decreases t
  {
    match t
    case Nil => map[]
    case Node(sym, _, l, r) =>
      if sym.Some? then map[sym.value := prefix]
      else GenerateCodes(l, prefix + ['0']) + GenerateCodes(r, prefix + ['1'])
  }

  /** `generate`: the codes of the Huffman tree; a lone symbol gets "0". */
  function Generate(f: map<Symbol, int>): map<Symbol, Bits> {
    if |f| == 0 then map[]
    else GenerateCodes(BuildHuffmanTree(f), if |f| == 1 then "0" else "")
  }

  // ---------------------------------------------------------------------
  // Encoding.

  /** The concatenation of the codewords of `data`. */
  function Codewords(data: seq<Symbol>, codes: map<Symbol, Bits>): Bits
    requires forall i :: 0 <= i < |data| ==> data[i] in codes
  {
    if |data| == 0 then [] else codes[data[0]] + Codewords(data[1..], codes)
  }

  /** The per-symbol code lengths summed, 0 for an uncoded symbol. */
  function BitLength(data: seq<Symbol>, codes: map<Symbol, Bits>): nat {
    if |data| == 0 then 0
    else (if data[0] in codes then |codes[data[0]]| else 0) + BitLength(data[1..], codes)
  }

  function EncodeSymbols(data: seq<Symbol>, codes: map<Symbol, Bits>): (r: Result<Bits, HuffmanError>)
    ensures r.Ok? <==> forall i :: 0 <= i < |data| ==> data[i] in codes
    ensures r.Ok? ==> r.value == Codewords(data, codes) && |r.value| == BitLength(data, codes)
    ensures r.Err? ==> r.error.SymbolNotFound? && r.error.symbol in data && r.error.symbol !in codes
    ensures r.Err? ==> exists i :: 0 <= i < |data| && data[i] == r.error.symbol && FirstUncoded(data, codes, i)
  {
    if |data| == 0 then Ok([])
    else if data[0] !in codes then
      assert FirstUncoded(data, codes, 0);
      Err(SymbolNotFound(data[0]))
    else
      var rest := EncodeSymbols(data[1..], codes);
      assert forall i :: 1 <= i < |data| ==> data[i] == data[1..][i - 1];
      assert forall x :: x in data[1..] ==> x in data;
      match rest
      case Ok(bits) => Ok(codes[data[0]] + bits)
      case Err(e) =>
        var i :| 0 <= i < |data| - 1 && data[1..][i] == e.symbol && FirstUncoded(data[1..], codes, i);
        assert FirstUncoded(data, codes, i + 1);
        Err(e)
  }

  /** `data[i]` is the first symbol of `data` without a code. */
  predicate FirstUncoded(data: seq<Symbol>, codes: map<Symbol, Bits>, i: nat)
    requires i < |data|
  {
    data[i] !in codes && forall j :: 0 <= j < i ==> data[j] in codes
  }

  /** `encode`: the empty string for empty data or an empty code map,
      otherwise the concatenated codewords, or `SymbolNotFound` for the first
      symbol that has no code. */
  function Encode(data: seq<Symbol>, codes: map<Symbol, Bits>): (r: Result<Bits, HuffmanError>)
    ensures r.Err? <==> |codes| > 0 && exists i :: 0 <= i < |data| && data[i] !in codes
    ensures r.Err? ==> r.error.SymbolNotFound? && r.error.symbol in data && r.error.symbol !in codes
    ensures r.Err? ==> exists i :: 0 <= i < |data| && data[i] == r.error.symbol && FirstUncoded(data, codes, i)
    ensures r.Ok? ==> |r.value| == BitLength(data, codes)
    ensures r.Ok? && |codes| > 0 ==> r.value == Codewords(data, codes)
  {
    if |data| == 0 || |codes| == 0 then
      assert |codes| == 0 ==> codes == map[];
      assert |codes| == 0 ==> BitLength(data, codes) == 0 by {
        if |codes| == 0 { UncodedLength(data, codes); }
      }
      Ok([])
    else EncodeSymbols(data, codes)
  }

  lemma {:induction false} UncodedLength(data: seq<Symbol>, codes: map<Symbol, Bits>)
    requires codes == map[]
    ensures BitLength(data, codes) == 0
  {
    if |data| > 0 {
      UncodedLength(data[1..], codes);
    }
  }

  // ---------------------------------------------------------------------
  // Whole-string decoding.

  /** The decoding loop: from `cur`, step per bit ('0' left, anything else
      right); a missing child is an error; on reaching a node with a symbol,
      emit it and restart at `root`. Bits left over after the last symbol are
      dropped. */
  function DecodeWalk(root: Tree, cur: Tree, bits: Bits): (r: Result<seq<Symbol>, HuffmanError>)
    requires root.Node? && cur.Node?
    ensures r.Ok? ==> |r.value| <= |bits|
    decreases |bits|
  {
    if |bits| == 0 then Ok([])
    else
      var next := Child(cur, bits[0]);
      if next.Nil? then Err(InvalidBits)
      else if next.symbol.Some? then
        match DecodeWalk(root, root, bits[1..])
        case Ok(rest) => Ok([next.symbol.value] + rest)
        case Err(e) => Err(e)
      else DecodeWalk(root, next, bits[1..])
  }

  /** `decode`: nothing for empty bits or no tree; a root that holds a
      symbol (for a Huffman tree, exactly a lone leaf) repeats it once per
      bit, whatever its children; otherwise the decoding loop from the root. Every
      decoded symbol consumes at least one bit. */
  function Decode(bits: Bits, tree: Tree): (r: Result<seq<Symbol>, HuffmanError>)
    ensures |bits| == 0 || tree.Nil? ==> r == Ok([])
    ensures |bits| > 0 && tree.Node? && tree.symbol.Some? ==>
      r.Ok? && |r.value| == |bits| && forall i :: 0 <= i < |r.value| ==> r.value[i] == tree.symbol.value
    ensures r.Ok? ==> |r.value| <= |bits|
  {
    if |bits| == 0 || tree.Nil? then Ok([])
    else if tree.symbol.Some? then Ok(seq(|bits|, _ => tree.symbol.value))
    else DecodeWalk(tree, tree, bits)
  }

  // ---------------------------------------------------------------------
  // Decoding tree rebuilt from a code map.

  function EmptyNode(): Tree {
    Node(None, 0, Nil, Nil)
  }

  /** Walks `code` from `t`, creating empty nodes where a child is missing,
      and stores `s` at the node the walk ends on. */
  function Insert(t: Tree, code: Bits, s: Symbol): (r: Tree)
    ensures r.Node?
    decreases |code|
  {
    var n := if t.Nil? then EmptyNode() else t;
    if |code| == 0 then n.(symbol := Some(s))
    else if code[0] == '0' then n.(left := Insert(n.left, code[1..], s))
    else n.(right := Insert(n.right, code[1..], s))
  }

  function InsertAll(t: Tree, items: seq<(Symbol, Bits)>): Tree
    decreases |items|
  {
    if |items| == 0 then t else InsertAll(Insert(t, items[0].1, items[0].0), items[1..])
  }

  /** The entries of a code map, in ascending symbol order. */
  function Items(codes: map<Symbol, Bits>): (items: seq<(Symbol, Bits)>)
    ensures |items| == |codes|
  {
    EntriesFor(SetToSorted(codes.Keys), codes)
  }

  /** Each entry of `items` is an entry of the map, each key of the map has
      an entry, and no key has two. */
  predicate ListsEntries(items: seq<(Symbol, Bits)>, codes: map<Symbol, Bits>) {
    && (forall i :: 0 <= i < |items| ==> items[i].0 in codes && items[i].1 == codes[items[i].0])
    && (forall s :: s in codes ==> exists i :: 0 <= i < |items| && items[i].0 == s)
    && (forall i, j :: 0 <= i < j < |items| ==> items[i].0 != items[j].0)
  }

  lemma ItemsFacts(codes: map<Symbol, Bits>)
    ensures ListsEntries(Items(codes), codes)
  {
    EntriesCover(SetToSorted(codes.Keys), codes);
  }

  /** The entries for the sorted keys of a map hold each key once. */
  lemma EntriesCover(ks: seq<Symbol>, codes: map<Symbol, Bits>)
    requires Elements(ks) == codes.Keys && |ks| == |codes| && StrictlyIncreasing(ks)
    ensures ListsEntries(EntriesFor(ks, codes), codes)
  {
    var items := EntriesFor(ks, codes);
    forall i | 0 <= i < |items| ensures items[i].0 in codes && items[i].1 == codes[items[i].0] {
      assert ks[i] in Elements(ks);
    }
    forall s | s in codes ensures exists i :: 0 <= i < |items| && items[i].0 == s {
      assert s in Elements(ks);
      var i :| 0 <= i < |ks| && ks[i] == s;
      assert items[i].0 == s;
    }
  }

  function EntriesFor(ks: seq<Symbol>, codes: map<Symbol, Bits>): (items: seq<(Symbol, Bits)>)
    requires Elements(ks) <= codes.Keys
    ensures |items| == |ks|
    ensures forall i :: 0 <= i < |items| ==> items[i].0 == ks[i] && items[i].1 == codes[ks[i]]
  {
    if |ks| == 0 then []
    else
      assert ks[0] in Elements(ks);
      assert Elements(ks[1..]) <= Elements(ks);
      [(ks[0], codes[ks[0]])] + EntriesFor(ks[1..], codes)
  }

  /** `build_decoding_tree`: `Nil` for an empty map, otherwise every codeword
      inserted into an initially empty root. */
  function BuildDecodingTree(codes: map<Symbol, Bits>): Tree {
    if |codes| == 0 then Nil else InsertAll(EmptyNode(), Items(codes))
  }

  /** The node reached by walking `p` from `t` (`Nil` once a child is missing). */
  function NodeAt(t: Tree, p: Bits): Tree
    decreases |p|
  {
    if |p| == 0 then t
    else if t.Nil? then Nil
    else NodeAt(Child(t, p[0]), p[1..])
  }

  function SymbolAt(t: Tree, p: Bits): Option<Symbol> {
    var n := NodeAt(t, p);
    if n.Node? then n.symbol else None
  }

  // ---------------------------------------------------------------------
  // Per-symbol code lengths.

  /** For each symbol of `data` that has a code, its code length. */
  function LengthMap(data: seq<Symbol>, codes: map<Symbol, Bits>): (m: map<Symbol, nat>)
    ensures forall s :: s in m <==> s in data && s in codes
    ensures forall s :: s in m ==> s in codes && m[s] == |codes[s]|
  {
    if |data| == 0 then map[]
    else
      var init := data[..|data| - 1];
      var last := data[|data| - 1];
      assert data == init + [last];
      var m := LengthMap(init, codes);
      if last in codes then m[last := |codes[last]|] else m
  }

  /** The largest code length among the symbols of `data`, 0 when none is coded. */
  function MaxLength(data: seq<Symbol>, codes: map<Symbol, Bits>): (n: nat)
    ensures forall i :: 0 <= i < |data| && data[i] in codes ==> |codes[data[i]]| <= n
    ensures n == 0 || exists i :: 0 <= i < |data| && data[i] in codes && |codes[data[i]]| == n
  {
    if |data| == 0 then 0
    else
      var init := data[..|data| - 1];
      var last := data[|data| - 1];
      var m := MaxLength(init, codes);
      assert forall i :: 0 <= i < |init| ==> data[i] == init[i];
      if last in codes && |codes[last]| > m then |codes[last]| else m
  }

  lemma LengthWitness(data: seq<Symbol>, codes: map<Symbol, Bits>, m: map<Symbol, nat>, i: nat)
    requires m == LengthMap(data, codes)
    requires i < |data| && data[i] in codes
    ensures exists s :: s in m && m[s] == |codes[data[i]]|
  {
    var s := data[i];
    assert s in data;
    assert s in m && m[s] == |codes[s]|;
  }

  /** `get_bit_lengths`: the code length at every position (0 when uncoded),
      the length of every coded symbol that occurs, and the largest length;
      all empty or 0 when `data` or the code map is empty. */
  function GetBitLengths(data: seq<Symbol>, codes: map<Symbol, Bits>): (r: (seq<nat>, map<Symbol, nat>, nat))
    ensures |data| == 0 || |codes| == 0 ==> r == ([], map[], 0)
    ensures |data| > 0 && |codes| > 0 ==>
      && |r.0| == |data|
      && (forall i :: 0 <= i < |data| ==> r.0[i] == if data[i] in codes then |codes[data[i]]| else 0)
      && (forall s :: s in r.1 <==> s in data && s in codes)
      && (forall s :: s in r.1 ==> s in codes && r.1[s] == |codes[s]|)
      && (forall s :: s in r.1 ==> r.1[s] <= r.2)
      && (r.1 == map[] ==> r.2 == 0)
      && (r.1 != map[] ==> exists s :: s in r.1 && r.1[s] == r.2)
  {
    if |data| == 0 || |codes| == 0 then ([], map[], 0)
    else
      var m := LengthMap(data, codes);
      var n := MaxLength(data, codes);
      MaxOfLengthMap(data, codes);
      (seq(|data|, i requires 0 <= i < |data| => if data[i] in m then m[data[i]] else 0), m, n)
  }

  /** The largest code length bounds every entry of the length map and is
      one of its entries when the map is not empty. */
  lemma MaxOfLengthMap(data: seq<Symbol>, codes: map<Symbol, Bits>)
    ensures var m := LengthMap(data, codes); var n := MaxLength(data, codes);
      && (forall s :: s in m ==> m[s] <= n)
      && (m != map[] ==> exists s :: s in m && m[s] == n)
  {
    var m := LengthMap(data, codes);
    var n := MaxLength(data, codes);
    assert forall s :: s in m ==> m[s] <= n by {
      forall s | s in m ensures m[s] <= n {
        var i :| 0 <= i < |data| && data[i] == s;
      }
    }
    assert n != 0 ==> exists s :: s in m && m[s] == n by {
      if n != 0 {
        var i :| 0 <= i < |data| && data[i] in codes && |codes[data[i]]| == n;
        LengthWitness(data, codes, m, i);
      }
    }
    assert m != map[] && n == 0 ==> exists s :: s in m && m[s] == n by {
      if m != map[] && n == 0 {
        assert m.Keys != {};
        NonEmptyHasElement(m.Keys);
        var s :| s in m.Keys;
        assert m[s] == 0;
      }
    }
  }
}
