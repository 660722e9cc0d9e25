/** What the Huffman operations promise: codes read off a tree are binary
    and prefix-free, decoding undoes encoding (with the Huffman tree and with
    the decoding tree rebuilt from the codes), trailing bits are dropped, and
    the decoding tree gives back the code map it was built from. */
module HuffmanProperties {
  import opened Wrappers
  import opened Collections
  import opened Huffman

  // ---------------------------------------------------------------------
  // Walks.

  /** `xs` put in front of a successful decode; errors pass through. */
  function PrependAll(xs: seq<Symbol>, r: Result<seq<Symbol>, HuffmanError>): Result<seq<Symbol>, HuffmanError> {
    match r
    case Ok(v) => Ok(xs + v)
    case Err(e) => Err(e)
  }

  /** A walk only follows '0' and '1'. */
  lemma {:induction false} ReachesBinary(t: Tree, c: Bits, s: Symbol)
    requires Reaches(t, c, s)
    ensures IsBinary(c)
    decreases |c|
  {
    if |c| > 0 {
      ReachesBinary(Child(t, c[0]), c[1..], s);
      assert forall i :: 1 <= i < |c| ==> c[i] == c[1..][i - 1];
    }
  }

  /** A walk ends on a stored symbol. */
  lemma {:induction false} ReachesLeaf(t: Tree, c: Bits, s: Symbol)
    requires Reaches(t, c, s)
    ensures s in Leaves(t)
    decreases |c|
  {
    if |c| > 0 {
      ReachesLeaf(Child(t, c[0]), c[1..], s);
    }
  }

  /** Where a walk ends, `SymbolAt` finds its symbol. */
  lemma {:induction false} ReachesSymbolAt(t: Tree, c: Bits, s: Symbol)
    requires Reaches(t, c, s)
    ensures SymbolAt(t, c) == Some(s)
    decreases |c|
  {
    if |c| > 0 {
      ReachesSymbolAt(Child(t, c[0]), c[1..], s);
    }
  }

  /** If one walk's string is a prefix of another's, the two walks are the
      same: a walk never passes a node that holds a symbol. */
  lemma {:induction false} ReachesPrefix(t: Tree, c1: Bits, s1: Symbol, c2: Bits, s2: Symbol)
    requires Reaches(t, c1, s1) && Reaches(t, c2, s2)
    ensures IsPrefix(c1, c2) ==> c1 == c2 && s1 == s2
    decreases |c1|
  {
    if |c1| > 0 && |c2| > 0 && c1[0] == c2[0] {
      ReachesPrefix(Child(t, c1[0]), c1[1..], s1, c2[1..], s2);
      assert IsPrefix(c1, c2) ==> IsPrefix(c1[1..], c2[1..]);
      assert c1 == [c1[0]] + c1[1..] && c2 == [c2[0]] + c2[1..];
    }
  }

  /** Codewords that all lead through one tree to their symbols form a
      binary prefix-free code. */
  lemma TreeCodesPrefixFree(t: Tree, codes: map<Symbol, Bits>)
    requires forall s :: s in codes ==> Reaches(t, codes[s], s)
    ensures PrefixFree(codes) && BinaryCodes(codes)
  {
    forall a, b | a in codes && b in codes && a != b ensures !IsPrefix(codes[a], codes[b]) {
      ReachesPrefix(t, codes[a], a, codes[b], b);
    }
    forall s | s in codes ensures IsBinary(codes[s]) {
      ReachesBinary(t, codes[s], s);
    }
  }

  // ---------------------------------------------------------------------
  // Codes read off a tree.

  /** One step down: a walk from a child, behind the bit that enters it,
      is a walk from the parent. */
  lemma StepReaches(t: Tree, code: Bits, p: Bits, b: char, s: Symbol)
    requires t.Node? && t.symbol.None? && IsBit(b)
    requires |code| >= |p| + 1 && code[..|p| + 1] == p + [b]
    requires Reaches(Child(t, b), code[|p| + 1..], s)
    ensures |code| >= |p| && code[..|p|] == p && Reaches(t, code[|p|..], s)
  {
    assert code[..|p|] == code[..|p| + 1][..|p|];
    var c := code[|p|..];
    assert c[0] == code[|p|] == (p + [b])[|p|] == b;
    assert c[1..] == code[|p| + 1..];
  }

  /** Every code generated below `prefix` extends it, and the rest of the
      code is a walk from `t` to the code's symbol. */
  lemma {:induction false} GenerateSound(t: Tree, prefix: Bits)
    ensures forall s :: s in GenerateCodes(t, prefix) ==>
      var code := GenerateCodes(t, prefix)[s];
      |code| >= |prefix| && code[..|prefix|] == prefix && Reaches(t, code[|prefix|..], s)
    decreases t
  {
    match t
    case Nil =>
    case Node(sym, _, l, r) =>
      if sym.None? {
        var lc := GenerateCodes(l, prefix + ['0']);
        var rc := GenerateCodes(r, prefix + ['1']);
        GenerateSound(l, prefix + ['0']);
        GenerateSound(r, prefix + ['1']);
        forall s | s in GenerateCodes(t, prefix)
          ensures var code := GenerateCodes(t, prefix)[s];
            |code| >= |prefix| && code[..|prefix|] == prefix && Reaches(t, code[|prefix|..], s)
        {
          if s in rc {
            StepReaches(t, rc[s], prefix, '1', s);
          } else {
            StepReaches(t, lc[s], prefix, '0', s);
          }
        }
      } else {
        assert GenerateCodes(t, prefix)[sym.value][|prefix|..] == [];
      }
  }

  /** Every symbol some walk reaches gets a code. */
  lemma {:induction false} GenerateComplete(t: Tree, prefix: Bits, c: Bits, s: Symbol)
    requires Reaches(t, c, s)
    ensures s in GenerateCodes(t, prefix)
    decreases |c|
  {
    if |c| > 0 {
      GenerateComplete(Child(t, c[0]), prefix + [c[0]], c[1..], s);
    }
  }

  /** In a full tree every stored symbol is reached by some walk. */
  lemma {:induction false} FullReachable(t: Tree, s: Symbol)
    requires Full(t) && s in Leaves(t)
    ensures exists c :: Reaches(t, c, s)
    decreases t
  {
    if t.symbol.Some? {
      assert Leaves(t) == multiset{t.symbol.value};
      assert Reaches(t, [], s);
    } else {
      assert Leaves(t) == Leaves(t.left) + Leaves(t.right);
      var b := if s in Leaves(t.left) then '0' else '1';
      FullReachable(Child(t, b), s);
      var c :| Reaches(Child(t, b), c, s);
      ReachesStep(t, b, c, s);
    }
  }

  /** A walk from a child extends to a walk from a symbol-less parent. */
  lemma ReachesStep(t: Tree, b: char, c: Bits, s: Symbol)
    requires t.Node? && t.symbol.None? && IsBit(b) && Reaches(Child(t, b), c, s)
    ensures Reaches(t, [b] + c, s)
  {
    assert ([b] + c)[0] == b && ([b] + c)[1..] == c;
  }

  /** The codes of a full tree whose root holds no symbol: one non-empty
      walk per stored symbol. */
  lemma FullTreeCodes(t: Tree)
    requires Full(t) && t.symbol.None?
    ensures forall s :: s in GenerateCodes(t, []) <==> s in Leaves(t)
    ensures CodeWalks(t, GenerateCodes(t, []))
  {
    var codes := GenerateCodes(t, []);
    GenerateSound(t, []);
    forall s | s in codes ensures |codes[s]| >= 1 && Reaches(t, codes[s], s) && s in Leaves(t) {
      assert codes[s][0..] == codes[s];
      ReachesLeaf(t, codes[s], s);
    }
    forall s | s in Leaves(t) ensures s in codes {
      FullReachable(t, s);
      var c :| Reaches(t, c, s);
      GenerateComplete(t, [], c, s);
    }
  }

  /** `generate` gives every symbol of the table a non-empty binary code and
      no code is a prefix of another; the Huffman tree walks every code to
      its symbol when there are two symbols or more, and a lone symbol is
      coded "0". */
  lemma GenerateIsPrefixCode(f: map<Symbol, int>)
    ensures Generate(f).Keys == f.Keys
    ensures PrefixFree(Generate(f)) && BinaryCodes(Generate(f))
    ensures forall s :: s in Generate(f) ==> |Generate(f)[s]| >= 1
    ensures |f| >= 2 ==> CodeWalks(BuildHuffmanTree(f), Generate(f))
    ensures |f| == 1 ==> exists k :: f.Keys == {k} && Generate(f) == map[k := "0"]
  {
    if |f| >= 2 {
      ManySymbolCodes(f);
    } else if |f| == 1 {
      OneSymbolCode(f);
    }
  }

  lemma ManySymbolCodes(f: map<Symbol, int>)
    requires |f| >= 2
    ensures Generate(f).Keys == f.Keys
    ensures PrefixFree(Generate(f)) && BinaryCodes(Generate(f))
    ensures CodeWalks(BuildHuffmanTree(f), Generate(f))
  {
    var t := BuildHuffmanTree(f);
    assert Generate(f) == GenerateCodes(t, []);
    CodesOfTable(t, f);
  }

  lemma CodesOfTable(t: Tree, f: map<Symbol, int>)
    requires Full(t) && t.symbol.None? && Leaves(t) == multiset(f.Keys)
    ensures GenerateCodes(t, []).Keys == f.Keys
    ensures PrefixFree(GenerateCodes(t, [])) && BinaryCodes(GenerateCodes(t, []))
    ensures CodeWalks(t, GenerateCodes(t, []))
  {
    var codes := GenerateCodes(t, []);
    FullTreeCodes(t);
    forall s ensures s in codes <==> s in f {
      assert s in Leaves(t) <==> s in multiset(f.Keys);
    }
    TreeCodesPrefixFree(t, codes);
  }

  lemma OneSymbolCode(f: map<Symbol, int>)
    requires |f| == 1
    ensures exists k :: f.Keys == {k} && Generate(f) == map[k := "0"]
  {
    var t := BuildHuffmanTree(f);
    var k := t.symbol.value;
    assert |f.Keys - {k}| == 0;
    assert f.Keys == {k};
  }

  // ---------------------------------------------------------------------
  // Decoding undoes encoding.

  /** Decoding from `cur` across one codeword that leads to `s` emits `s`
      and carries on from the root. */
  lemma {:induction false} WalkCodeword(root: Tree, cur: Tree, c: Bits, s: Symbol, rest: Bits)
    requires root.Node? && cur.Node? && |c| >= 1 && Reaches(cur, c, s)
    ensures DecodeWalk(root, cur, c + rest) == PrependAll([s], DecodeWalk(root, root, rest))
    decreases |c|
  {
    var bits := c + rest;
    assert bits[0] == c[0] && bits[1..] == c[1..] + rest;
    if |c| == 1 {
      assert bits[1..] == rest;
    } else {
      WalkCodeword(root, Child(cur, c[0]), c[1..], s, rest);
    }
  }

  /** Decoding the codewords of `data`, followed by anything, emits `data`
      first. */
  lemma {:induction false} DecodeCodewords(root: Tree, codes: map<Symbol, Bits>, data: seq<Symbol>, rest: Bits)
    requires CodeWalks(root, codes)
    requires forall i :: 0 <= i < |data| ==> data[i] in codes
    ensures DecodeWalk(root, root, Codewords(data, codes) + rest) == PrependAll(data, DecodeWalk(root, root, rest))
  {
    if |data| == 0 {
      assert Codewords(data, codes) + rest == rest;
      PrependNothing(DecodeWalk(root, root, rest));
    } else {
      var tail := data[1..];
      assert forall i :: 0 <= i < |tail| ==> tail[i] == data[i + 1];
      DecodeCodewords(root, codes, tail, rest);
      var after := Codewords(tail, codes) + rest;
      assert Codewords(data, codes) + rest == codes[data[0]] + after;
      WalkCodeword(root, root, codes[data[0]], data[0], after);
      PrependTwice([data[0]], tail, DecodeWalk(root, root, rest));
      assert [data[0]] + tail == data;
    }
  }

  lemma PrependNothing(r: Result<seq<Symbol>, HuffmanError>)
    ensures PrependAll([], r) == r
  {
    if r.Ok? {
      assert [] + r.value == r.value;
    }
  }

  lemma PrependTwice(a: seq<Symbol>, b: seq<Symbol>, r: Result<seq<Symbol>, HuffmanError>)
    ensures PrependAll(a, PrependAll(b, r)) == PrependAll(a + b, r)
  {
    if r.Ok? {
      assert a + (b + r.value) == (a + b) + r.value;
    }
  }

  /** Non-empty codewords: at least one bit per symbol. */
  lemma {:induction false} CodewordsLength(data: seq<Symbol>, codes: map<Symbol, Bits>)
    requires forall i :: 0 <= i < |data| ==> data[i] in codes && |codes[data[i]]| >= 1
    ensures |Codewords(data, codes)| >= |data|
  {
    if |data| > 0 {
      assert forall i :: 0 <= i < |data[1..]| ==> data[1..][i] == data[i + 1];
      CodewordsLength(data[1..], codes);
    }
  }

  lemma CodeWalksLengths(tree: Tree, codes: map<Symbol, Bits>, data: seq<Symbol>)
    requires CodeWalks(tree, codes)
    requires forall i :: 0 <= i < |data| ==> data[i] in codes
    ensures forall i :: 0 <= i < |data| ==> data[i] in codes && |codes[data[i]]| >= 1
  {
    forall i | 0 <= i < |data| ensures |codes[data[i]]| >= 1 {
      assert data[i] in codes;
      assert Reaches(tree, codes[data[i]], data[i]);
    }
  }

  /** Round trip through any tree that walks every codeword to its symbol. */
  lemma RoundTrip(tree: Tree, codes: map<Symbol, Bits>, data: seq<Symbol>)
    requires CodeWalks(tree, codes)
    requires forall i :: 0 <= i < |data| ==> data[i] in codes
    ensures Encode(data, codes).Ok?
    ensures Decode(Encode(data, codes).value, tree) == Ok(data)
  {
    var bits := Codewords(data, codes);
    CodeWalksLengths(tree, codes, data);
    CodewordsLength(data, codes);
    DecodeCodewords(tree, codes, data, []);
    assert bits + [] == bits;
    assert data + [] == data;
    if |data| > 0 {
      assert data[0] in codes;
    }
  }

  /** Decoding stops quietly inside a codeword: a proper prefix of a walk
      decodes to nothing. */
  lemma {:induction false} WalkPartial(root: Tree, cur: Tree, c: Bits, s: Symbol, t: Bits)
    requires root.Node? && cur.Node? && Reaches(cur, c, s)
    requires |t| < |c| && c[..|t|] == t
    ensures DecodeWalk(root, cur, t) == Ok([])
    decreases |t|
  {
    if |t| > 0 {
      assert t[0] == c[0];
      assert c[1..][..|t| - 1] == t[1..];
      WalkPartial(root, Child(cur, c[0]), c[1..], s, t[1..]);
    }
  }

  /** Bits left after the last complete codeword are dropped without an
      error. */
  lemma DecodeDropsIncompleteTail(tree: Tree, codes: map<Symbol, Bits>, data: seq<Symbol>, s: Symbol, tail: Bits)
    requires CodeWalks(tree, codes)
    requires forall i :: 0 <= i < |data| ==> data[i] in codes
    requires s in codes && |tail| < |codes[s]| && codes[s][..|tail|] == tail
    ensures Decode(Codewords(data, codes) + tail, tree) == Ok(data)
  {
    var bits := Codewords(data, codes) + tail;
    CodeWalksLengths(tree, codes, data);
    CodewordsLength(data, codes);
    DecodeCodewords(tree, codes, data, tail);
    WalkPartial(tree, tree, codes[s], s, tail);
    assert data + [] == data;
    if |bits| == 0 {
      assert |data| == 0;
    }
  }

  /** Walking `c` from `t` passes only nodes without a symbol and its last
      bit asks for a child that is missing. */
  predicate DeadEnd(t: Tree, c: Bits)
    decreases |c|
  {
    t.Node? && |c| > 0 &&
    var next := Child(t, c[0]);
    if |c| == 1 then next.Nil? else next.Node? && next.symbol.None? && DeadEnd(next, c[1..])
  }

  /** The decoding loop raises at a dead end, whatever follows it. */
  lemma {:induction false} WalkDeadEnd(root: Tree, cur: Tree, c: Bits, rest: Bits)
    requires root.Node? && DeadEnd(cur, c)
    ensures DecodeWalk(root, cur, c + rest) == Err(InvalidBits)
    decreases |c|
  {
    assert (c + rest)[0] == c[0];
    if |c| > 1 {
      assert (c + rest)[1..] == c[1..] + rest;
      WalkDeadEnd(root, Child(cur, c[0]), c[1..], rest);
    }
  }

  /** After any whole codewords, bits that lead off the tree make `decode`
      raise. */
  lemma DecodeRaisesAtDeadEnd(tree: Tree, codes: map<Symbol, Bits>, data: seq<Symbol>, c: Bits, rest: Bits)
    requires CodeWalks(tree, codes)
    requires forall i :: 0 <= i < |data| ==> data[i] in codes
    requires DeadEnd(tree, c)
    ensures Decode(Codewords(data, codes) + c + rest, tree) == Err(InvalidBits)
  {
    DecodeCodewords(tree, codes, data, c + rest);
    WalkDeadEnd(tree, tree, c, rest);
    assert Codewords(data, codes) + c + rest == Codewords(data, codes) + (c + rest);
  }

  /** A code of one-bit words spends one bit per symbol. */
  lemma {:induction false} UnitLengths(data: seq<Symbol>, codes: map<Symbol, Bits>)
    requires forall i :: 0 <= i < |data| ==> data[i] in codes && |codes[data[i]]| == 1
    ensures BitLength(data, codes) == |data|
  {
    if |data| > 0 {
      assert forall i :: 0 <= i < |data[1..]| ==> data[1..][i] == data[i + 1];
      UnitLengths(data[1..], codes);
    }
  }

  /** Data whose every symbol is in the table is empty when the table is. */
  lemma NoDataOverEmptyTable(data: seq<Symbol>, f: map<Symbol, int>)
    requires forall i :: 0 <= i < |data| ==> data[i] in f
    ensures |f| == 0 ==> data == []
  {
    if |data| > 0 {
      assert data[0] in f;
    }
  }

  /** `decode(encode(data, generate(f)), build_huffman_tree(f)) == data` for
      data over the symbols of the table, including the one-symbol table
      whose code "0" decodes through the lone leaf. */
  lemma RoundTripHuffmanTree(f: map<Symbol, int>, data: seq<Symbol>)
    requires forall i :: 0 <= i < |data| ==> data[i] in f
    ensures Encode(data, Generate(f)).Ok?
    ensures Decode(Encode(data, Generate(f)).value, BuildHuffmanTree(f)) == Ok(data)
  {
    var codes := Generate(f);
    GenerateIsPrefixCode(f);
    if |f| >= 2 {
      RoundTrip(BuildHuffmanTree(f), codes, data);
    } else if |f| == 1 {
      var k :| f.Keys == {k} && codes == map[k := "0"];
      UnitLengths(data, codes);
      var t := BuildHuffmanTree(f);
      assert t.symbol == Some(k);
      var bits := Encode(data, codes).value;
      assert |bits| == |data|;
      if |data| > 0 {
        assert data == seq(|bits|, _ => k);
      }
    } else {
      NoDataOverEmptyTable(data, f);
    }
  }

  // ---------------------------------------------------------------------
  // The decoding tree rebuilt from a code map.

  /** Inserting `c` adds exactly the nodes on the path of `c` and stores `s`
      at its end; every other node keeps its symbol. */
  lemma {:induction false} InsertShape(t: Tree, c: Bits, s: Symbol, p: Bits)
    requires IsBinary(c) && IsBinary(p)
    ensures NodeAt(Insert(t, c, s), p).Node? <==> NodeAt(t, p).Node? || IsPrefix(p, c)
    ensures SymbolAt(Insert(t, c, s), p) == if p == c then Some(s) else SymbolAt(t, p)
    decreases |p|
  {
    var n := if t.Nil? then EmptyNode() else t;
    var r := Insert(t, c, s);
    if |p| > 0 {
      assert NodeAt(Nil, p[1..]) == Nil;
      assert NodeAt(t, p) == NodeAt(Child(n, p[0]), p[1..]);
      if |c| == 0 {
        assert Child(r, p[0]) == Child(n, p[0]);
      } else if c[0] == p[0] {
        assert Child(r, p[0]) == Insert(Child(n, p[0]), c[1..], s);
        assert IsBinary(c[1..]) && IsBinary(p[1..]) by {
          assert forall i :: 0 <= i < |c| - 1 ==> c[1..][i] == c[i + 1];
          assert forall i :: 0 <= i < |p| - 1 ==> p[1..][i] == p[i + 1];
        }
        InsertShape(Child(n, p[0]), c[1..], s, p[1..]);
        assert IsPrefix(p, c) <==> IsPrefix(p[1..], c[1..]) by {
          if |p| <= |c| {
            assert c[..|p|] == [c[0]] + c[1..][..|p| - 1];
            assert p == [p[0]] + p[1..];
          }
        }
        assert p == c <==> p[1..] == c[1..] by {
          assert p == [p[0]] + p[1..] && c == [c[0]] + c[1..];
        }
      } else {
        assert Child(r, p[0]) == Child(n, p[0]);
        assert c[0] != p[0] ==> !IsPrefix(p, c);
      }
    }
  }

  /** The symbol of the last entry whose code is `p`: later insertions
      overwrite earlier ones. */
  function LastCode(items: seq<(Symbol, Bits)>, p: Bits): (r: Option<Symbol>)
    ensures r.Some? ==> exists i :: 0 <= i < |items| && items[i] == (r.value, p)
    ensures r.None? ==> forall i :: 0 <= i < |items| ==> items[i].1 != p
    decreases |items|
  {
    if |items| == 0 then None
    else
      var later := LastCode(items[1..], p);
      assert forall i :: 1 <= i < |items| ==> items[i] == items[1..][i - 1];
      if later.Some? then later
      else if items[0].1 == p then Some(items[0].0)
      else None
  }

  /** Inserting all entries: a node exists exactly on the paths of the codes,
      and the symbol stored at a path is the last entry coded by it. */
  lemma {:induction false} InsertAllShape(t: Tree, items: seq<(Symbol, Bits)>, p: Bits)
    requires forall i :: 0 <= i < |items| ==> IsBinary(items[i].1)
    requires IsBinary(p)
    ensures NodeAt(InsertAll(t, items), p).Node? <==>
      NodeAt(t, p).Node? || exists i :: 0 <= i < |items| && IsPrefix(p, items[i].1)
    ensures SymbolAt(InsertAll(t, items), p) == if LastCode(items, p).Some? then LastCode(items, p) else SymbolAt(t, p)
    decreases |items|
  {
    if |items| > 0 {
      var t1 := Insert(t, items[0].1, items[0].0);
      var rest := items[1..];
      assert forall i :: 1 <= i < |items| ==> items[i] == rest[i - 1];
      InsertShape(t, items[0].1, items[0].0, p);
      InsertAllShape(t1, rest, p);
      assert (exists i :: 0 <= i < |items| && IsPrefix(p, items[i].1)) <==>
        IsPrefix(p, items[0].1) || exists i :: 0 <= i < |rest| && IsPrefix(p, rest[i].1)
      by {
        forall i | 0 <= i < |items| && IsPrefix(p, items[i].1)
          ensures IsPrefix(p, items[0].1) || exists j :: 0 <= j < |rest| && IsPrefix(p, rest[j].1)
        {
          if i > 0 {
            assert IsPrefix(p, rest[i - 1].1);
          }
        }
      }
    }
  }

  /** Distinct symbols have distinct codewords. */
  predicate Injective(codes: map<Symbol, Bits>) {
    forall a, b :: a in codes && b in codes && a != b ==> codes[a] != codes[b]
  }

  lemma PrefixFreeInjective(codes: map<Symbol, Bits>)
    requires PrefixFree(codes)
    ensures Injective(codes)
  {
    forall a, b | a in codes && b in codes && a != b ensures codes[a] != codes[b] {
      assert !IsPrefix(codes[a], codes[b]);
      assert IsPrefix(codes[b], codes[b]);
    }
  }

  /** Listed entries of a code map with distinct codewords: the last entry
      coded by `p` is the symbol whose codeword is `p`. */
  lemma EntriesLastCode(items: seq<(Symbol, Bits)>, codes: map<Symbol, Bits>, p: Bits, s: Symbol)
    requires ListsEntries(items, codes) && Injective(codes)
    ensures LastCode(items, p) == Some(s) <==> s in codes && codes[s] == p
  {
    var r := LastCode(items, p);
    if s in codes && codes[s] == p {
      var i :| 0 <= i < |items| && items[i].0 == s;
      assert items[i].1 == p;
    }
    if r.Some? {
      var i :| 0 <= i < |items| && items[i] == (r.value, p);
      assert r.value in codes && codes[r.value] == p;
    }
  }

  /** `p` prefixes a codeword of the listed entries exactly when it
      prefixes one of the map. */
  lemma EntriesPrefixes(items: seq<(Symbol, Bits)>, codes: map<Symbol, Bits>, p: Bits)
    requires ListsEntries(items, codes)
    ensures (exists i :: 0 <= i < |items| && IsPrefix(p, items[i].1)) <==> exists q :: q in codes && IsPrefix(p, codes[q])
  {
    forall q | q in codes && IsPrefix(p, codes[q]) ensures exists i :: 0 <= i < |items| && IsPrefix(p, items[i].1) {
      var i :| 0 <= i < |items| && items[i].0 == q;
      assert IsPrefix(p, items[i].1);
    }
    forall i | 0 <= i < |items| && IsPrefix(p, items[i].1) ensures exists q :: q in codes && IsPrefix(p, codes[q]) {
      assert items[i].0 in codes;
    }
  }

  lemma EntriesBinary(items: seq<(Symbol, Bits)>, codes: map<Symbol, Bits>)
    requires BinaryCodes(codes) && ListsEntries(items, codes)
    ensures forall i :: 0 <= i < |items| ==> IsBinary(items[i].1)
  {
    forall i | 0 <= i < |items| ensures IsBinary(items[i].1) {
      var s := items[i].0;
      assert s in codes && items[i].1 == codes[s];
      assert IsBinary(codes[s]);
    }
  }

  lemma EmptyNodeAt(p: Bits)
    ensures NodeAt(EmptyNode(), p).Node? <==> |p| == 0
    ensures SymbolAt(EmptyNode(), p) == None
  {
    if |p| > 0 {
      assert NodeAt(Nil, p[1..]) == Nil;
    }
  }

  /** `t` answers like the decoding tree of `codes`: its nodes are the
      prefixes of codewords and the symbol stored at a path is the symbol
      whose codeword it is. */
  ghost predicate DecodingTreeOf(t: Tree, codes: map<Symbol, Bits>) {
    && (forall p :: IsBinary(p) ==> (NodeAt(t, p).Node? <==> exists q :: q in codes && IsPrefix(p, codes[q])))
    && (forall p :: IsBinary(p) && SymbolAt(t, p).Some? ==>
          SymbolAt(t, p).value in codes && codes[SymbolAt(t, p).value] == p)
    && (forall s :: s in codes ==> SymbolAt(t, codes[s]) == Some(s))
  }

  /** `build_decoding_tree` inserts the listed entries into an empty root. */
  lemma BuiltByInserting(codes: map<Symbol, Bits>)
    requires |codes| > 0
    ensures BuildDecodingTree(codes) == InsertAll(EmptyNode(), Items(codes))
    ensures ListsEntries(Items(codes), codes)
  {
    ItemsFacts(codes);
  }

  /** Inserting the listed entries of a binary code map into an empty root:
      the nodes are exactly the prefixes of codewords. */
  lemma InsertedNodes(items: seq<(Symbol, Bits)>, codes: map<Symbol, Bits>, p: Bits)
    requires |codes| > 0 && BinaryCodes(codes) && IsBinary(p) && ListsEntries(items, codes)
    ensures NodeAt(InsertAll(EmptyNode(), items), p).Node? <==> exists q :: q in codes && IsPrefix(p, codes[q])
  {
    EntriesBinary(items, codes);
    assert NodeAt(EmptyNode(), p).Node? <==> |p| == 0 by {
      EmptyNodeAt(p);
    }
    InsertAllShape(EmptyNode(), items, p);
    EntriesPrefixes(items, codes, p);
    if |p| == 0 {
      NonEmptyHasElement(codes.Keys);
      var q :| q in codes.Keys;
      assert IsPrefix(p, codes[q]);
    }
  }

  /** Inserting the listed entries of a binary code map with distinct
      codewords into an empty root: the symbol stored at a path is the
      symbol whose codeword it is. */
  lemma InsertedSymbol(items: seq<(Symbol, Bits)>, codes: map<Symbol, Bits>, p: Bits, s: Symbol)
    requires BinaryCodes(codes) && Injective(codes) && IsBinary(p) && ListsEntries(items, codes)
    ensures SymbolAt(InsertAll(EmptyNode(), items), p) == Some(s) <==> s in codes && codes[s] == p
  {
    EntriesBinary(items, codes);
    InsertAllShape(EmptyNode(), items, p);
    EmptyNodeAt(p);
    EntriesLastCode(items, codes, p, s);
  }

  lemma InsertedDecodingTree(items: seq<(Symbol, Bits)>, codes: map<Symbol, Bits>)
    requires |codes| > 0 && BinaryCodes(codes) && PrefixFree(codes) && ListsEntries(items, codes)
    ensures DecodingTreeOf(InsertAll(EmptyNode(), items), codes)
  {
    PrefixFreeInjective(codes);
    forall p | IsBinary(p)
      ensures NodeAt(InsertAll(EmptyNode(), items), p).Node? <==> exists q :: q in codes && IsPrefix(p, codes[q])
    {
      InsertedNodes(items, codes, p);
    }
    var t := InsertAll(EmptyNode(), items);
    forall p | IsBinary(p) && SymbolAt(t, p).Some?
      ensures SymbolAt(t, p).value in codes && codes[SymbolAt(t, p).value] == p
    {
      InsertedSymbol(items, codes, p, SymbolAt(t, p).value);
    }
    forall s | s in codes ensures SymbolAt(t, codes[s]) == Some(s) {
      InsertedSymbol(items, codes, codes[s], s);
    }
  }

  /** `build_decoding_tree` on a binary code map: the nodes are exactly the
      prefixes of codewords. */
  lemma DecodingTreeNodes(codes: map<Symbol, Bits>, p: Bits)
    requires |codes| > 0 && BinaryCodes(codes) && IsBinary(p)
    ensures NodeAt(BuildDecodingTree(codes), p).Node? <==> exists q :: q in codes && IsPrefix(p, codes[q])
  {
    BuiltByInserting(codes);
    InsertedNodes(Items(codes), codes, p);
  }

  /** `build_decoding_tree` on a binary code map with distinct codewords:
      the symbol stored at a path is the symbol whose codeword it is. */
  lemma DecodingTreeSymbol(codes: map<Symbol, Bits>, p: Bits, s: Symbol)
    requires |codes| > 0 && BinaryCodes(codes) && Injective(codes) && IsBinary(p)
    ensures SymbolAt(BuildDecodingTree(codes), p) == Some(s) <==> s in codes && codes[s] == p
  {
    BuiltByInserting(codes);
    InsertedSymbol(Items(codes), codes, p, s);
  }

  /** The decoding tree of a binary prefix-free code map answers both
      queries as `DecodingTreeOf` says. */
  lemma BuiltDecodingTree(codes: map<Symbol, Bits>)
    requires |codes| > 0 && BinaryCodes(codes) && PrefixFree(codes)
    ensures DecodingTreeOf(BuildDecodingTree(codes), codes)
  {
    BuiltByInserting(codes);
    InsertedDecodingTree(Items(codes), codes);
  }

  /** A walk is a path whose proper prefixes all lead to symbol-less nodes
      and whose end holds the symbol. */
  lemma {:induction false} ReachesFromNodes(t: Tree, c: Bits, s: Symbol)
    requires IsBinary(c) && SymbolAt(t, c) == Some(s)
    requires forall k :: 0 <= k < |c| ==> NodeAt(t, c[..k]).Node? && NodeAt(t, c[..k]).symbol.None?
    ensures Reaches(t, c, s)
    decreases |c|
  {
    if |c| > 0 {
      assert c[..0] == [];
      var rest := c[1..];
      forall k | 0 <= k < |rest| ensures NodeAt(Child(t, c[0]), rest[..k]).Node? && NodeAt(Child(t, c[0]), rest[..k]).symbol.None? {
        assert c[..k + 1][1..] == rest[..k];
        assert NodeAt(t, c[..k + 1]) == NodeAt(Child(t, c[0]), rest[..k]);
      }
      assert IsBinary(rest) by {
        assert forall i :: 0 <= i < |rest| ==> rest[i] == c[i + 1];
      }
      ReachesFromNodes(Child(t, c[0]), rest, s);
    }
  }

  /** For a binary prefix-free code map without empty codewords, the
      decoding tree walks every codeword to its symbol. */
  lemma DecodingTreeWalks(codes: map<Symbol, Bits>)
    requires |codes| > 0 && BinaryCodes(codes) && PrefixFree(codes)
    requires forall s :: s in codes ==> |codes[s]| >= 1
    ensures CodeWalks(BuildDecodingTree(codes), codes)
  {
    BuiltDecodingTree(codes);
    TreeWalks(BuildDecodingTree(codes), codes);
  }

  /** A tree that answers like the decoding tree of a prefix-free code of
      non-empty codewords walks every codeword to its symbol. */
  lemma TreeWalks(t: Tree, codes: map<Symbol, Bits>)
    requires |codes| > 0 && BinaryCodes(codes) && PrefixFree(codes) && DecodingTreeOf(t, codes)
    requires forall s :: s in codes ==> |codes[s]| >= 1
    ensures CodeWalks(t, codes)
  {
    TreeRoot(t, codes);
    forall s | s in codes ensures Reaches(t, codes[s], s) {
      CodewordWalks(t, codes, s);
    }
  }

  /** The root is a node without a symbol. */
  lemma TreeRoot(t: Tree, codes: map<Symbol, Bits>)
    requires |codes| > 0 && BinaryCodes(codes) && PrefixFree(codes) && DecodingTreeOf(t, codes)
    requires forall s :: s in codes ==> |codes[s]| >= 1
    ensures t.Node? && t.symbol.None?
  {
    NonEmptyHasElement(codes.Keys);
    var s0 :| s0 in codes.Keys;
    assert IsPrefix([], codes[s0]);
    assert NodeAt(t, []).Node?;
    NoSymbolAtProperPrefix(t, codes, [], s0);
  }

  lemma CodewordWalks(t: Tree, codes: map<Symbol, Bits>, s: Symbol)
    requires BinaryCodes(codes) && PrefixFree(codes) && DecodingTreeOf(t, codes)
    requires s in codes
    ensures Reaches(t, codes[s], s)
  {
    var c := codes[s];
    assert SymbolAt(t, c) == Some(s);
    forall k | 0 <= k < |c| ensures NodeAt(t, c[..k]).Node? && NodeAt(t, c[..k]).symbol.None? {
      ProperPrefixNode(t, codes, s, k);
    }
    ReachesFromNodes(t, c, s);
  }

  lemma ProperPrefixNode(t: Tree, codes: map<Symbol, Bits>, s: Symbol, k: nat)
    requires BinaryCodes(codes) && PrefixFree(codes) && DecodingTreeOf(t, codes)
    requires s in codes && k < |codes[s]|
    ensures NodeAt(t, codes[s][..k]).Node?
    ensures NodeAt(t, codes[s][..k]).symbol.None?
  {
    var c := codes[s];
    assert IsPrefix(c[..k], c);
    assert IsBinary(c[..k]);
    assert NodeAt(t, c[..k]).Node?;
    NoSymbolAtProperPrefix(t, codes, c[..k], s);
  }

  /** A proper prefix of a codeword of a prefix-free map stores no symbol. */
  lemma NoSymbolAtProperPrefix(t: Tree, codes: map<Symbol, Bits>, q: Bits, s: Symbol)
    requires BinaryCodes(codes) && PrefixFree(codes) && DecodingTreeOf(t, codes) && IsBinary(q)
    requires s in codes && IsPrefix(q, codes[s]) && |q| < |codes[s]|
    ensures SymbolAt(t, q) == None
  {
    forall x | x in codes ensures codes[x] != q {
      ProperPrefixNotCode(codes, q, s, x);
    }
  }

  /** In a prefix-free map, a proper prefix of one codeword is no codeword. */
  lemma ProperPrefixNotCode(codes: map<Symbol, Bits>, q: Bits, s: Symbol, x: Symbol)
    requires PrefixFree(codes) && s in codes && IsPrefix(q, codes[s]) && |q| < |codes[s]|
    requires x in codes
    ensures codes[x] != q
  {
    if x != s {
      assert !IsPrefix(codes[x], codes[s]);
    }
  }

  /** Reading the codes back off the decoding tree gives the code map it was
      built from. */
  lemma RegenerateCodes(codes: map<Symbol, Bits>)
    requires |codes| > 0 && BinaryCodes(codes) && PrefixFree(codes)
    requires forall s :: s in codes ==> |codes[s]| >= 1
    ensures GenerateCodes(BuildDecodingTree(codes), []) == codes
  {
    BuiltDecodingTree(codes);
    TreeWalks(BuildDecodingTree(codes), codes);
    TreeRegenerates(BuildDecodingTree(codes), codes);
  }

  /** The codes read off a tree that walks every codeword and answers like
      the decoding tree are the code map. */
  lemma TreeRegenerates(t: Tree, codes: map<Symbol, Bits>)
    requires BinaryCodes(codes) && PrefixFree(codes) && DecodingTreeOf(t, codes) && CodeWalks(t, codes)
    ensures GenerateCodes(t, []) == codes
  {
    var g := GenerateCodes(t, []);
    forall s | s in g ensures s in codes && g[s] == codes[s] {
      RegeneratedEntry(t, codes, s);
    }
    forall s | s in codes ensures s in g {
      GenerateComplete(t, [], codes[s], s);
    }
    SameMap(g, codes);
  }

  lemma SameMap(g: map<Symbol, Bits>, codes: map<Symbol, Bits>)
    requires forall s :: s in g ==> s in codes && g[s] == codes[s]
    requires forall s :: s in codes ==> s in g
    ensures g == codes
  {
    forall s ensures s in g <==> s in codes {
      if s in g {
        assert s in codes;
      }
    }
    assert g.Keys == codes.Keys;
    forall s | s in g ensures g[s] == codes[s] {
    }
  }

  lemma RegeneratedEntry(t: Tree, codes: map<Symbol, Bits>, s: Symbol)
    requires DecodingTreeOf(t, codes)
    requires s in GenerateCodes(t, [])
    ensures s in codes && GenerateCodes(t, [])[s] == codes[s]
  {
    var c := GenerateCodes(t, [])[s];
    GenerateSound(t, []);
    assert c[0..] == c;
    ReachesBinary(t, c, s);
    ReachesSymbolAt(t, c, s);
  }

  /** Round trip through the decoding tree of any binary prefix-free code
      map without empty codewords. */
  lemma RoundTripDecodingTree(codes: map<Symbol, Bits>, data: seq<Symbol>)
    requires |codes| > 0 && BinaryCodes(codes) && PrefixFree(codes)
    requires forall s :: s in codes ==> |codes[s]| >= 1
    requires forall i :: 0 <= i < |data| ==> data[i] in codes
    ensures Encode(data, codes).Ok?
    ensures Decode(Encode(data, codes).value, BuildDecodingTree(codes)) == Ok(data)
  {
    DecodingTreeWalks(codes);
    RoundTrip(BuildDecodingTree(codes), codes, data);
  }

  /** `decode(encode(data, generate(f)), build_decoding_tree(generate(f))) == data`. */
  lemma RoundTripGeneratedDecodingTree(f: map<Symbol, int>, data: seq<Symbol>)
    requires forall i :: 0 <= i < |data| ==> data[i] in f
    ensures Encode(data, Generate(f)).Ok?
    ensures Decode(Encode(data, Generate(f)).value, BuildDecodingTree(Generate(f))) == Ok(data)
  {
    var codes := Generate(f);
    GenerateIsPrefixCode(f);
    if |f| > 0 {
      RoundTripDecodingTree(codes, data);
    } else {
      NoDataOverEmptyTable(data, f);
    }
  }

  /** The encoded length is the sum of the per-position lengths reported by
      `get_bit_lengths`. */
  lemma EncodedLengthIsSum(data: seq<Symbol>, codes: map<Symbol, Bits>)
    requires |codes| > 0
    requires forall i :: 0 <= i < |data| ==> data[i] in codes
    ensures Encode(data, codes).Ok?
    ensures |Encode(data, codes).value| == Sum(GetBitLengths(data, codes).0)
  {
    if |data| > 0 {
      BitLengthSum(data, codes, GetBitLengths(data, codes).0);
    }
  }

  lemma {:induction false} BitLengthSum(data: seq<Symbol>, codes: map<Symbol, Bits>, lens: seq<nat>)
    requires |lens| == |data|
    requires forall i :: 0 <= i < |data| ==> lens[i] == if data[i] in codes then |codes[data[i]]| else 0
    ensures BitLength(data, codes) == Sum(lens)
  {
    if |data| > 0 {
      assert forall i :: 0 <= i < |data| - 1 ==> data[1..][i] == data[i + 1] && lens[1..][i] == lens[i + 1];
      BitLengthSum(data[1..], codes, lens[1..]);
    }
  }
}
