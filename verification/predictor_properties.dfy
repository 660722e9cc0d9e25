/** What the predictors promise across calls: a static predictor never
    changes, a dynamic predictor's context is the window of the last lengths
    fed, and a reconstructed zero-order predictor ranks every code length of
    the data exactly once by weight. */
module PredictorProperties {
  import opened Wrappers
  import opened Collections
  import opened Huffman
  import opened HuffmanProperties
  import opened Predictors

  /** Only the dynamic predictor has state that feeding changes, so every
      other predictor predicts the same after any decoding history. */
  lemma {:induction false} FeedKeepsStateless(p: Predictor, lengths: seq<nat>, n: nat)
    requires !p.Dynamic?
    ensures FeedAll(p, lengths) == p
    ensures ImplicitlyPredict(FeedAll(p, lengths), n) == ImplicitlyPredict(p, n)
    decreases |lengths|
  {
    if |lengths| > 0 {
      FeedKeepsStateless(Feed(p, lengths[0]), lengths[1..], n);
    }
  }

  /** `cardinality` is what a prediction is cut against: for the static
      and zero-order predictors it is the number of candidates, so
      `implicitly_predict(n)` returns all of them exactly when `n` reaches
      it; for the dynamic predictor it counts the contexts of the table,
      not the length of any prediction; the base predictor has 0 and no
      prediction. Feeding never changes it. */
  lemma CardinalityLimitsPrediction(p: Predictor, n: nat, lengths: seq<nat>)
    ensures p.Base? ==> Cardinality(p) == 0 && ImplicitlyPredict(p, n).Err?
    ensures p.Static? || p.ZeroOrder? ==> Cardinality(p) == |Candidates(p)|
    ensures p.Static? || p.ZeroOrder? ==>
      |ImplicitlyPredict(p, n).value| == Min(n, Cardinality(p)) &&
      (ImplicitlyPredict(p, n) == Ok(Candidates(p)) <==> n >= Cardinality(p))
    ensures p.Dynamic? ==> Cardinality(p) == |p.table.Keys|
    ensures Cardinality(FeedAll(p, lengths)) == Cardinality(p)
  {
    if p.Static? || p.ZeroOrder? {
      var c := Candidates(p);
      assert c[..|c|] == c;
    }
    CardinalityFed(p, lengths);
  }

  lemma {:induction false} CardinalityFed(p: Predictor, lengths: seq<nat>)
    ensures Cardinality(FeedAll(p, lengths)) == Cardinality(p)
    decreases |lengths|
  {
    if |lengths| > 0 {
      CardinalityFed(Feed(p, lengths[0]), lengths[1..]);
    }
  }

  /** Feeding slides the dynamic predictor's window: with a non-empty
      context of length k, after feeding `lengths` the context is the last k
      entries of the old context followed by `lengths`; table and backup are
      kept. */
  lemma {:induction false} DynamicWindow(p: Predictor, lengths: seq<nat>)
    requires p.Dynamic? && |p.context| >= 1
    ensures FeedAll(p, lengths).Dynamic?
    ensures FeedAll(p, lengths).table == p.table && FeedAll(p, lengths).backup == p.backup
    ensures FeedAll(p, lengths).context == (p.context + lengths)[|lengths|..]
    decreases |lengths|
  {
    if |lengths| == 0 {
      assert p.context + lengths == p.context;
    } else {
      var q := Feed(p, lengths[0]);
      assert q.context == (p.context + [lengths[0]])[1..];
      DynamicWindow(q, lengths[1..]);
      calc {
        (q.context + lengths[1..])[|lengths| - 1..];
        ((p.context + [lengths[0]])[1..] + lengths[1..])[|lengths| - 1..];
        { assert (p.context + [lengths[0]])[1..] + lengths[1..] == (p.context + lengths)[1..]; }
        (p.context + lengths)[1..][|lengths| - 1..];
        (p.context + lengths)[|lengths|..];
      }
    }
  }

  /** Once at least k lengths have been fed, the dynamic predictor predicts
      from the entry of exactly the last k lengths fed. */
  lemma DynamicPredictsFromRecent(p: Predictor, lengths: seq<nat>, n: nat)
    requires p.Dynamic? && |p.context| >= 1 && |lengths| >= |p.context|
    ensures FeedAll(p, lengths).Dynamic?
    ensures FeedAll(p, lengths).context == lengths[|lengths| - |p.context|..]
    ensures var ctx := lengths[|lengths| - |p.context|..];
      ImplicitlyPredict(FeedAll(p, lengths), n) ==
        Ok((if ctx in p.table then p.table[ctx] else p.backup)[..Min(n, |if ctx in p.table then p.table[ctx] else p.backup|)])
  {
    DynamicWindow(p, lengths);
    assert (p.context + lengths)[|lengths|..] == lengths[|lengths| - |p.context|..];
  }

  /** The symbols of `data` with code length `l` under `codes`. */
  function SymbolsWithLength(data: seq<Symbol>, codes: map<Symbol, Bits>, l: nat): set<Symbol> {
    set s | s in Elements(data) && s in codes && |codes[s]| == l
  }

  /** After `reconstruct(data)`: the length table has an entry for exactly
      the code lengths that occur in the Huffman code of `data`, counting the
      distinct symbols with that length. */
  lemma ZeroOrderLengths(data: seq<Symbol>)
    ensures var p := ZeroOrderFrom(data);
      var codes := Generate(Counts(data));
      && (forall l :: l in p.codes <==> exists i :: 0 <= i < |data| && data[i] in codes && |codes[data[i]]| == l)
      && (forall l :: l in p.codes ==> p.codes[l] == |SymbolsWithLength(data, codes, l)|)
  {
    var codes := Generate(Counts(data));
    GenerateIsPrefixCode(Counts(data));
    var b := GetBitLengths(data, codes);
    LengthMapOfData(data, codes);
    LengthTable(data, codes, b.1);
  }

  /** The length table of a length map that holds the code length of each
      symbol of `data`. */
  lemma LengthTable(data: seq<Symbol>, codes: map<Symbol, Bits>, m: map<Symbol, nat>)
    requires codes.Keys == Elements(data)
    requires forall s :: s in m <==> s in Elements(data)
    requires forall s :: s in m ==> m[s] == |codes[s]|
    ensures var counts := LengthCounts(m);
      && (forall l :: l in counts <==> exists i :: 0 <= i < |data| && data[i] in codes && |codes[data[i]]| == l)
      && (forall l :: l in counts ==> counts[l] == |SymbolsWithLength(data, codes, l)|)
  {
    var counts := LengthCounts(m);
    forall l ensures l in counts <==> exists i :: 0 <= i < |data| && data[i] in codes && |codes[data[i]]| == l {
      if l in counts {
        var s :| s in m && m[s] == l;
        var i :| 0 <= i < |data| && data[i] == s;
      }
      if exists i :: 0 <= i < |data| && data[i] in codes && |codes[data[i]]| == l {
        var i :| 0 <= i < |data| && data[i] in codes && |codes[data[i]]| == l;
        assert data[i] in m;
      }
    }
    forall l | l in counts ensures counts[l] == |SymbolsWithLength(data, codes, l)| {
      forall s ensures s in SymbolsOfLength(m, l) <==> s in SymbolsWithLength(data, codes, l) {
        if s in SymbolsWithLength(data, codes, l) {
          assert s in m;
        }
      }
      assert SymbolsOfLength(m, l) == SymbolsWithLength(data, codes, l);
    }
  }

  /** After `reconstruct(data)`: the ranking lists every code length of the
      table exactly once, with non-increasing weight `count(l) * 2^-l`, and
      the cardinality is the number of distinct lengths. */
  lemma ZeroOrderRanking(data: seq<Symbol>)
    ensures var p := ZeroOrderFrom(data);
      && NoDuplicates(p.ranking)
      && Elements(p.ranking) == p.codes.Keys
      && Cardinality(p) == |p.codes|
      && SortedByKeyDesc(p.ranking, l => LengthWeight(p.codes, l))
  {
    var codes := Generate(Counts(data));
    var b := GetBitLengths(data, codes);
    assert Elements(b.0) == LengthCounts(b.1).Keys by {
      GenerateIsPrefixCode(Counts(data));
      LengthMapOfData(data, codes);
      LengthsListed(data, codes, b.0, b.1);
    }
    RankingOfLengths(b.0, LengthCounts(b.1));
  }

  /** The distinct entries of the per-position lengths are the keys of the
      length table. */
  lemma LengthsListed(data: seq<Symbol>, codes: map<Symbol, Bits>, lengths: seq<nat>, m: map<Symbol, nat>)
    requires codes.Keys == Elements(data) && |lengths| == |data|
    requires forall i :: 0 <= i < |data| ==> lengths[i] == |codes[data[i]]|
    requires forall s :: s in m <==> s in Elements(data)
    requires forall s :: s in m ==> m[s] == |codes[s]|
    ensures Elements(lengths) == LengthCounts(m).Keys
  {
    var counts := LengthCounts(m);
    forall l ensures l in Elements(lengths) <==> l in counts {
      if l in Elements(lengths) {
        var i :| 0 <= i < |lengths| && lengths[i] == l;
        assert data[i] in m;
      }
      if l in counts {
        var s :| s in m && m[s] == l;
        var i :| 0 <= i < |data| && data[i] == s;
        assert lengths[i] == l;
      }
    }
  }

  /** Ranking the distinct entries of `lengths` by weight keeps each length
      of the table once. */
  lemma RankingOfLengths(lengths: seq<nat>, counts: map<nat, nat>)
    requires Elements(lengths) == counts.Keys
    ensures var r := SortByKeyDesc(Distinct(lengths), l => LengthWeight(counts, l));
      NoDuplicates(r) && Elements(r) == counts.Keys && |r| == |counts|
  {
    var order := Distinct(lengths);
    var r := SortByKeyDesc(order, l => LengthWeight(counts, l));
    PermutationNoDuplicates(order, r);
    PermutationElements(order, r);
    DistinctCardinality(r);
  }

  /** Every position of `data` is coded when the code map covers its
      symbols, so the length map holds exactly the symbols of `data`. */
  lemma LengthMapOfData(data: seq<Symbol>, codes: map<Symbol, Bits>)
    requires codes.Keys == Elements(data)
    ensures var b := GetBitLengths(data, codes);
      && |b.0| == |data|
      && (forall i :: 0 <= i < |data| ==> b.0[i] == |codes[data[i]]|)
      && (forall s :: s in b.1 <==> s in Elements(data))
      && (forall s :: s in b.1 ==> b.1[s] == |codes[s]|)
  {
    if |data| > 0 {
      assert data[0] in Elements(data);
    }
  }
}
