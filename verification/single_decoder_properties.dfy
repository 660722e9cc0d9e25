/** What a single-step decode promises: a success names exactly the symbol
    whose codeword starts at the offset, a failure means no codeword starts
    there, and at every codeword boundary of an encoded string the decode
    finds the encoded symbol. */
module SingleDecoderProperties {
  import opened Wrappers
  import opened Collections
  import opened Huffman
  import opened HuffmanProperties
  import opened DecodingStatistics
  import opened SingleDecoder

  /** The loop succeeds only at the end of a walk from `cur`. */
  lemma {:induction false} WalkSound(cur: Tree, data: Bits, pos: nat, i: nat)
    requires cur.Node? && cur.symbol.None? && pos <= i <= |data|
    ensures var r := Walk(cur, data, pos, i);
      r.wasDecoded ==>
        (i - pos + 1 <= r.length && pos + r.length <= |data|
         && Reaches(cur, data[i..pos + r.length], r.symbol.value))
    decreases |data| - i
  {
    var r := Walk(cur, data, pos, i);
    if i < |data| && IsBit(data[i]) && Child(cur, data[i]).Node? {
      var next := Child(cur, data[i]);
      if next.symbol.Some? {
        assert data[i..pos + r.length] == [data[i]];
      } else {
        WalkSound(next, data, pos, i + 1);
        if r.wasDecoded {
          assert data[i..pos + r.length][1..] == data[i + 1..pos + r.length];
        }
      }
    }
  }

  /** Where a walk from `cur` starts at bit `i`, the loop follows it to its
      end and succeeds there. */
  lemma {:induction false} WalkComplete(cur: Tree, data: Bits, pos: nat, i: nat, c: Bits, s: Symbol)
    requires cur.Node? && cur.symbol.None? && pos <= i
    requires Reaches(cur, c, s) && i + |c| <= |data| && data[i..i + |c|] == c
    ensures Walk(cur, data, pos, i) == Success(s, i - pos + |c|)
    decreases |c|
  {
    assert |c| >= 1;
    assert data[i] == c[0];
    var next := Child(cur, c[0]);
    if |c| > 1 {
      assert data[i + 1..i + 1 + |c[1..]|] == c[1..];
      WalkComplete(next, data, pos, i + 1, c[1..], s);
    }
  }

  /** A successful decode has read a whole codeword: its bits walk from the
      root to the reported symbol. */
  lemma DecodeAtSound(tree: Tree, data: Bits, pos: nat)
    requires tree.Node? && tree.symbol.None?
    ensures var r := DecodeAt(tree, data, pos);
      r.wasDecoded ==>
        (1 <= r.length && pos + r.length <= |data|
         && Reaches(tree, data[pos..pos + r.length], r.symbol.value))
  {
    if pos < |data| {
      WalkSound(tree, data, pos, pos);
    }
  }

  /** If a codeword of the tree starts at `pos`, the decode finds it. */
  lemma DecodeAtComplete(tree: Tree, data: Bits, pos: nat, c: Bits, s: Symbol)
    requires tree.Node? && tree.symbol.None?
    requires Reaches(tree, c, s) && pos + |c| <= |data| && data[pos..pos + |c|] == c
    ensures DecodeAt(tree, data, pos) == Success(s, |c|)
  {
    WalkComplete(tree, data, pos, pos, c, s);
  }

  /** A decode fails exactly when no prefix of the bits from `pos` on is a
      codeword of the tree. */
  lemma DecodeAtFailsIff(tree: Tree, data: Bits, pos: nat)
    requires tree.Node? && tree.symbol.None? && pos < |data|
    ensures !DecodeAt(tree, data, pos).wasDecoded <==>
      forall c, s :: IsPrefix(c, data[pos..]) ==> !Reaches(tree, c, s)
  {
    SuccessHasCodeword(tree, data, pos);
    forall c, s | IsPrefix(c, data[pos..]) && Reaches(tree, c, s)
      ensures DecodeAt(tree, data, pos).wasDecoded
    {
      assert data[pos..][..|c|] == data[pos..pos + |c|];
      DecodeAtComplete(tree, data, pos, c, s);
    }
  }

  lemma SuccessHasCodeword(tree: Tree, data: Bits, pos: nat)
    requires tree.Node? && tree.symbol.None? && pos < |data|
    ensures DecodeAt(tree, data, pos).wasDecoded ==>
      exists c, s :: IsPrefix(c, data[pos..]) && Reaches(tree, c, s)
  {
    var r := DecodeAt(tree, data, pos);
    DecodeAtSound(tree, data, pos);
    if r.wasDecoded {
      var c := data[pos..pos + r.length];
      assert data[pos..][..r.length] == c;
      assert IsPrefix(c, data[pos..]) && Reaches(tree, c, r.symbol.value);
    }
  }

  // ---------------------------------------------------------------------
  // Why a decode fails.

  /** The loop keeps `cur` at the node reached by the binary bits read so
      far; a failure either read to the end of the data on existing nodes,
      or stopped on a bit that is not '0'/'1' or leads to a missing child. */
  lemma {:induction false} WalkFailure(root: Tree, cur: Tree, data: Bits, pos: nat, i: nat)
    requires cur.Node? && cur.symbol.None? && pos <= i <= |data|
    requires IsBinary(data[pos..i]) && NodeAt(root, data[pos..i]) == cur
    ensures var r := Walk(cur, data, pos, i);
      !r.wasDecoded ==> FailedAt(root, data, pos, r.length)
    decreases |data| - i
  {
    var r := Walk(cur, data, pos, i);
    if i == |data| {
      assert data[pos..pos + r.length] == data[pos..i];
    } else if IsBit(data[i]) && Child(cur, data[i]).Node? {
      var next := Child(cur, data[i]);
      if next.symbol.None? {
        StepNodeAt(root, data, pos, i);
        WalkFailure(root, next, data, pos, i + 1);
      }
    } else {
      var q := data[pos..i + 1];
      assert q[..|q| - 1] == data[pos..i];
      assert q[|q| - 1] == data[i];
      if IsBit(data[i]) {
        StepNodeAt(root, data, pos, i);
      }
    }
  }

  /** A failed decode of `length` bits from `pos`: all but the last bit were
      binary and led to a node, and either the data ended there on a node
      or the last bit was not '0'/'1' or led to a missing child. */
  predicate FailedAt(root: Tree, data: Bits, pos: nat, length: nat)
    requires pos + length <= |data|
  {
    var q := data[pos..pos + length];
    || (pos + length == |data| && IsBinary(q) && NodeAt(root, q).Node?)
    || (length >= 1 && IsBinary(q[..length - 1]) && NodeAt(root, q[..length - 1]).Node?
        && (!IsBit(q[length - 1]) || NodeAt(root, q).Nil?))
  }

  /** Reading one more binary bit moves one step down. */
  lemma StepNodeAt(root: Tree, data: Bits, pos: nat, i: nat)
    requires pos <= i < |data| && IsBit(data[i])
    requires IsBinary(data[pos..i]) && NodeAt(root, data[pos..i]).Node?
    ensures IsBinary(data[pos..i + 1])
    ensures NodeAt(root, data[pos..i + 1]) == Child(NodeAt(root, data[pos..i]), data[i])
  {
    assert data[pos..i + 1] == data[pos..i] + [data[i]];
    NodeAtSnoc(root, data[pos..i], data[i]);
  }

  lemma {:induction false} NodeAtSnoc(t: Tree, p: Bits, b: char)
    requires NodeAt(t, p).Node?
    ensures NodeAt(t, p + [b]) == Child(NodeAt(t, p), b)
    decreases |p|
  {
    if |p| == 0 {
      assert (p + [b])[1..] == [];
    } else {
      assert (p + [b])[0] == p[0] && (p + [b])[1..] == p[1..] + [b];
      NodeAtSnoc(Child(t, p[0]), p[1..], b);
    }
  }

  /** Why a decode from a root without a symbol fails. */
  lemma DecodeAtFailure(tree: Tree, data: Bits, pos: nat)
    requires tree.Node? && tree.symbol.None? && pos < |data|
    ensures var r := DecodeAt(tree, data, pos);
      !r.wasDecoded ==> pos + r.length <= |data| && FailedAt(tree, data, pos, r.length)
  {
    assert data[pos..pos] == [];
    WalkFailure(tree, tree, data, pos, pos);
  }

  // ---------------------------------------------------------------------
  // Decoding at codeword boundaries.

  lemma {:induction false} CodewordsConcat(a: seq<Symbol>, b: seq<Symbol>, codes: map<Symbol, Bits>)
    requires forall i :: 0 <= i < |a| ==> a[i] in codes
    requires forall i :: 0 <= i < |b| ==> b[i] in codes
    ensures Codewords(a + b, codes) == Codewords(a, codes) + Codewords(b, codes)
  {
    if |a| == 0 {
      assert a + b == b;
    } else {
      assert (a + b)[1..] == a[1..] + b;
      assert forall i :: 0 <= i < |a| - 1 ==> a[1..][i] == a[i + 1];
      CodewordsConcat(a[1..], b, codes);
    }
  }

  /** The bit offset at which the codeword of `data[i]` starts. */
  function Boundary(data: seq<Symbol>, codes: map<Symbol, Bits>, i: nat): nat
    requires i <= |data| && forall j :: 0 <= j < |data| ==> data[j] in codes
  {
    |Codewords(data[..i], codes)|
  }

  /** The encoded string splits at the boundary of `data[i]`: the codewords
      before it, its own codeword, and the codewords after it. */
  lemma SplitAtBoundary(data: seq<Symbol>, codes: map<Symbol, Bits>, i: nat)
    requires i < |data| && forall j :: 0 <= j < |data| ==> data[j] in codes
    ensures Codewords(data, codes) ==
      Codewords(data[..i], codes) + codes[data[i]] + Codewords(data[i + 1..], codes)
  {
    assert data == data[..i] + ([data[i]] + data[i + 1..]);
    CodewordsConcat(data[..i], [data[i]] + data[i + 1..], codes);
    assert ([data[i]] + data[i + 1..])[1..] == data[i + 1..];
  }

  /** Boundary correctness: at the start of the `i`-th codeword of
      `encode(data, codes)`, a decode with `build_decoding_tree(codes)`
      returns `data[i]` and the length of its codeword. */
  lemma DecodeAtBoundary(codes: map<Symbol, Bits>, data: seq<Symbol>, i: nat)
    requires |codes| > 0 && BinaryCodes(codes) && PrefixFree(codes)
    requires forall s :: s in codes ==> |codes[s]| >= 1
    requires i < |data| && forall j :: 0 <= j < |data| ==> data[j] in codes
    ensures Encode(data, codes).Ok?
    ensures DecodeAt(BuildDecodingTree(codes), Encode(data, codes).value, Boundary(data, codes, i))
      == Success(data[i], |codes[data[i]]|)
  {
    DecodingTreeWalks(codes);
    WalkingTreeAtBoundary(BuildDecodingTree(codes), codes, data, i);
  }

  /** The same for any tree that walks every codeword to its symbol. */
  lemma WalkingTreeAtBoundary(tree: Tree, codes: map<Symbol, Bits>, data: seq<Symbol>, i: nat)
    requires |codes| > 0 && CodeWalks(tree, codes)
    requires i < |data| && forall j :: 0 <= j < |data| ==> data[j] in codes
    ensures Encode(data, codes).Ok?
    ensures DecodeAt(tree, Encode(data, codes).value, Boundary(data, codes, i)) == Success(data[i], |codes[data[i]]|)
  {
    var before, c, after := Codewords(data[..i], codes), codes[data[i]], Codewords(data[i + 1..], codes);
    assert Reaches(tree, c, data[i]);
    assert Encode(data, codes).Ok? && Encode(data, codes).value == (before + c) + after by {
      SplitAtBoundary(data, codes, i);
    }
    DecodeBetween(tree, before, c, after, data[i]);
  }

  /** A codeword placed between any two bit strings decodes from where it
      starts. */
  lemma DecodeBetween(tree: Tree, before: Bits, c: Bits, after: Bits, s: Symbol)
    requires tree.Node? && tree.symbol.None? && Reaches(tree, c, s)
    ensures DecodeAt(tree, (before + c) + after, |before|) == Success(s, |c|)
  {
    SliceMiddle(before, c, after);
    DecodeAtComplete(tree, (before + c) + after, |before|, c, s);
  }

  // ---------------------------------------------------------------------
  // Counters over many calls.

  /** Calls `decode` at each offset in turn; the results in call order and
      the decoder afterwards. */
  function DecodeMany(d: Decoder, data: Bits, offsets: seq<nat>): (out: (seq<SingleResult>, Decoder))
    ensures |out.0| == |offsets|
    ensures forall k :: 0 <= k < |offsets| ==> out.0[k] == DecodeAt(d.tree, data, offsets[k])
    ensures out.1.tree == d.tree && out.1.singleSymbol == d.singleSymbol
    ensures Consistent(d) ==> Consistent(out.1)
    decreases |offsets|
  {
    if |offsets| == 0 then ([], d)
    else
      var (r, d1) := SingleDecoder.Decode(d, data, offsets[0]);
      var (rs, d2) := DecodeMany(d1, data, offsets[1..]);
      ([r] + rs, d2)
  }

  function Successes(rs: seq<SingleResult>): nat {
    if |rs| == 0 then 0 else (if rs[0].wasDecoded then 1 else 0) + Successes(rs[1..])
  }

  function Failures(rs: seq<SingleResult>): nat {
    if |rs| == 0 then 0 else (if rs[0].wasDecoded then 0 else 1) + Failures(rs[1..])
  }

  function BitsRead(rs: seq<SingleResult>): nat {
    if |rs| == 0 then 0 else rs[0].length + BitsRead(rs[1..])
  }

  /** The counters of a decoder record every call: one per call, the bits
      each call read, and how many calls succeeded and failed; when the
      decoder remembers the root's symbol (as every decoder built by
      `NewDecoder` does, exactly when the root holds one), each success is a
      one-bit single-symbol decode, and otherwise none is. */
  lemma {:induction false} CountersCountCalls(d: Decoder, data: Bits, offsets: seq<nat>)
    ensures var (rs, e) := DecodeMany(d, data, offsets);
      && e.stats.totalDecodes == d.stats.totalDecodes + |offsets|
      && e.stats.successfulDecodes == d.stats.successfulDecodes + Successes(rs)
      && e.stats.failedDecodes == d.stats.failedDecodes + Failures(rs)
      && e.stats.bitsProcessed == d.stats.bitsProcessed + BitsRead(rs)
    ensures d.singleSymbol == RootSymbol(d.tree) ==>
      var (rs, e) := DecodeMany(d, data, offsets);
      e.stats.singleSymbolDecodes == d.stats.singleSymbolDecodes + (if d.singleSymbol.Some? then Successes(rs) else 0)
    decreases |offsets|
  {
    if |offsets| > 0 {
      var (r, d1) := SingleDecoder.Decode(d, data, offsets[0]);
      CountersCountCalls(d1, data, offsets[1..]);
      var (rs, e) := DecodeMany(d1, data, offsets[1..]);
      assert ([r] + rs)[1..] == rs;
    }
  }

  /** What `statistics` and `get_statistics_summary` report for a decoder
      with fresh counters (just built, or just reset) after a series of
      calls: exactly the calls, successes, failures and bits read of those
      calls, with the rates of those counters. */
  lemma StatisticsReportCalls(d: Decoder, data: Bits, offsets: seq<nat>)
    requires d.stats.totalDecodes == 0 && d.stats.successfulDecodes == 0
    requires d.stats.failedDecodes == 0 && d.stats.bitsProcessed == 0
    ensures var out := DecodeMany(d, data, offsets);
      var s := Statistics(out.1);
      && s.totalDecodes == |offsets| && s.successfulDecodes == Successes(out.0)
      && s.failedDecodes == Failures(out.0) && s.bitsProcessed == BitsRead(out.0)
    ensures var out := DecodeMany(d, data, offsets);
      var m := StatisticsSummary(out.1);
      && m.totalDecodes == |offsets| && m.successfulDecodes == Successes(out.0)
      && m.failedDecodes == Failures(out.0) && m.bitsProcessed == BitsRead(out.0)
      && m.successRate == SuccessRate(Statistics(out.1))
      && m.averageBitsPerDecode == AverageBitsPerDecode(Statistics(out.1))
  {
    CountersCountCalls(d, data, offsets);
  }

  /** The fifth counter both reports carry: from zero, a decoder that
      remembers the root's symbol reports every success as a single-symbol
      decode, any other decoder none. */
  lemma SingleSymbolsReported(d: Decoder, data: Bits, offsets: seq<nat>)
    requires d.stats.singleSymbolDecodes == 0
    ensures d.singleSymbol == RootSymbol(d.tree) ==>
      var out := DecodeMany(d, data, offsets);
      var n := if d.singleSymbol.Some? then Successes(out.0) else 0;
      Statistics(out.1).singleSymbolDecodes == n && StatisticsSummary(out.1).singleSymbolDecodes == n
  {
    CountersCountCalls(d, data, offsets);
  }
}
