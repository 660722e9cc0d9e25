/** Speculative decoding: at each step, single-step decodes are tried at the
    current position and at the offsets a predictor guesses for the next
    codewords; the run of consecutive successes starting at the current
    position is committed at once.

    The speculation logic only sees the single-step decoder through the
    result it gives at each bit offset, so it is stated over an `Attempt`:
    the offset-to-result function of one decoding tree over one bit string. */
module SpeculativeDecoder {
  import opened Wrappers
  import opened Collections
  import opened Huffman
  import opened SingleDecoder
  import opened Predictors

  /** The result a single-step decode gives at each bit offset. */
  type Attempt = nat -> SingleResult

  /** What every single-step decoder guarantees over a bit string of length
      `end`: a success starts inside the string, consumes at least one bit
      and carries a symbol. */
  ghost predicate Decodes(attempt: Attempt, end: nat) {
    forall p: nat :: attempt(p).wasDecoded ==> p < end && attempt(p).length >= 1 && attempt(p).symbol.Some?
  }

  /** The attempts of the single-step decoders of `tree` over `data`. */
  function Attempts(tree: Tree, data: Bits): (a: Attempt)
    ensures forall p: nat :: a(p) == DecodeAt(tree, data, p)
    ensures Decodes(a, |data|)
  {
    (p: nat) => DecodeAt(tree, data, p)
  }

  /** `tree` is shared by the `width + 1` single-step decoders; `position`
      is the next bit to decode; `chainLimit` caps how many results one
      speculation commits (Python's optional int: `None`, and also 0, mean
      no cap; a negative cap drops that many results from the end). */
  datatype SpecDecoder = SpecDecoder(
    tree: Tree,
    width: nat,
    predictor: Predictor,
    position: nat,
    chainLimit: Option<int>)

  function NewSpeculativeDecoder(tree: Tree, width: nat, predictor: Predictor, chainLimit: Option<int>): (d: SpecDecoder)
    ensures d.position == 0
    ensures d.tree == tree && d.width == width && d.predictor == predictor && d.chainLimit == chainLimit
  {
    SpecDecoder(tree, width, predictor, 0, chainLimit)
  }

  /** `flush`: decoding starts again from the first bit; the predictor keeps
      what it has learnt. */
  function Flush(d: SpecDecoder): (e: SpecDecoder)
    ensures e.position == 0
    ensures e.tree == d.tree && e.width == d.width && e.predictor == d.predictor && e.chainLimit == d.chainLimit
  {
    d.(position := 0)
  }

  // ---------------------------------------------------------------------
  // The reference: plain sequential decoding.

  /** Decoding one codeword after the other from `pos` until a decode fails
      (or the bits run out): what a single-step decoder alone produces. */
  function Run(attempt: Attempt, end: nat, pos: nat): (rs: seq<SingleResult>)
    requires Decodes(attempt, end)
    ensures |rs| > 0 <==> attempt(pos).wasDecoded
    ensures |rs| > 0 ==> rs[0] == attempt(pos)
    decreases end - pos
  {
    var r := attempt(pos);
    if !r.wasDecoded then [] else [r] + Run(attempt, end, pos + r.length)
  }

  /** Every result of a run is a success with a symbol and at least one
      bit. */
  lemma {:induction false} RunSucceeds(attempt: Attempt, end: nat, pos: nat)
    requires Decodes(attempt, end)
    ensures forall i :: 0 <= i < |Run(attempt, end, pos)| ==> Succeeded(Run(attempt, end, pos)[i])
    decreases end - pos
  {
    var r := attempt(pos);
    if r.wasDecoded {
      var rest := Run(attempt, end, pos + r.length);
      RunSucceeds(attempt, end, pos + r.length);
      var rs := Run(attempt, end, pos);
      assert rs == [r] + rest;
      forall i | 0 <= i < |rs| ensures Succeeded(rs[i]) {
        if i > 0 {
          assert rs[i] == rest[i - 1];
        }
      }
    }
  }

  /** A success with a symbol that consumed at least one bit. */
  predicate Succeeded(r: SingleResult) {
    r.wasDecoded && r.symbol.Some? && r.length >= 1
  }

  /** Bits consumed by a sequence of results. */
  function TotalLength(rs: seq<SingleResult>): nat {
    if |rs| == 0 then 0 else rs[0].length + TotalLength(rs[1..])
  }

  /** The decoded symbols, skipping results without one. */
  function Symbols(rs: seq<SingleResult>): seq<Symbol> {
    if |rs| == 0 then []
    else (if rs[0].symbol.Some? then [rs[0].symbol.value] else []) + Symbols(rs[1..])
  }

  /** The lengths fed to the predictor: those of results with a symbol. */
  function FedLengths(rs: seq<SingleResult>): seq<nat> {
    if |rs| == 0 then []
    else (if rs[0].symbol.Some? then [rs[0].length] else []) + FedLengths(rs[1..])
  }

  /** Bits, symbols and fed lengths of a concatenation are those of its
      parts, concatenated. */
  lemma ConcatSums(a: seq<SingleResult>, b: seq<SingleResult>)
    ensures TotalLength(a + b) == TotalLength(a) + TotalLength(b)
    ensures Symbols(a + b) == Symbols(a) + Symbols(b)
    ensures FedLengths(a + b) == FedLengths(a) + FedLengths(b)
  {
    TotalLengthConcat(a, b);
    SymbolsConcat(a, b);
    FedLengthsConcat(a, b);
  }

  lemma {:induction false} TotalLengthConcat(a: seq<SingleResult>, b: seq<SingleResult>)
    ensures TotalLength(a + b) == TotalLength(a) + TotalLength(b)
  {
    if |a| == 0 {
      assert a + b == b;
    } else {
      assert (a + b)[1..] == a[1..] + b;
      TotalLengthConcat(a[1..], b);
    }
  }

  lemma {:induction false} SymbolsConcat(a: seq<SingleResult>, b: seq<SingleResult>)
    ensures Symbols(a + b) == Symbols(a) + Symbols(b)
  {
    if |a| == 0 {
      assert a + b == b;
    } else {
      assert (a + b)[1..] == a[1..] + b;
      SymbolsConcat(a[1..], b);
      var h := if a[0].symbol.Some? then [a[0].symbol.value] else [];
      assert h + (Symbols(a[1..]) + Symbols(b)) == (h + Symbols(a[1..])) + Symbols(b);
    }
  }

  lemma {:induction false} FedLengthsConcat(a: seq<SingleResult>, b: seq<SingleResult>)
    ensures FedLengths(a + b) == FedLengths(a) + FedLengths(b)
  {
    if |a| == 0 {
      assert a + b == b;
    } else {
      assert (a + b)[1..] == a[1..] + b;
      FedLengthsConcat(a[1..], b);
      var h := if a[0].symbol.Some? then [a[0].length] else [];
      assert h + (FedLengths(a[1..]) + FedLengths(b)) == (h + FedLengths(a[1..])) + FedLengths(b);
    }
  }

  /** Results that all carry a symbol give one symbol each. */
  lemma {:induction false} SymbolPerResult(rs: seq<SingleResult>)
    requires forall i :: 0 <= i < |rs| ==> rs[i].symbol.Some?
    ensures |Symbols(rs)| == |rs|
  {
    if |rs| > 0 {
      assert forall i :: 0 <= i < |rs| - 1 ==> rs[1..][i] == rs[i + 1];
      SymbolPerResult(rs[1..]);
    }
  }

  /** A run splits after any prefix of it: what follows the prefix is the
      run from the bit `next` where the prefix ends. */
  lemma {:induction false} RunSplits(attempt: Attempt, end: nat, pos: nat, prefix: seq<SingleResult>, next: nat)
    requires Decodes(attempt, end)
    requires Prefix(prefix, Run(attempt, end, pos))
    requires next == pos + TotalLength(prefix)
    ensures Run(attempt, end, pos) == prefix + Run(attempt, end, next)
    decreases |prefix|
  {
    if |prefix| == 0 {
      assert Run(attempt, end, pos) == prefix + Run(attempt, end, pos);
    } else {
      var r := attempt(pos);
      assert prefix[0] == r;
      var rest := Run(attempt, end, pos + r.length);
      assert Run(attempt, end, pos) == [r] + rest;
      assert Prefix(prefix[1..], rest);
      RunSplits(attempt, end, pos + r.length, prefix[1..], next);
      Regroup(Run(attempt, end, pos), [r], rest, prefix[1..], Run(attempt, end, next), prefix);
    }
  }

  // ---------------------------------------------------------------------
  // One speculation.

  /** The `results` dictionary: for each offset tried in order, the result
      of decoding there when the offset is in range and the decode
      succeeds; a repeated offset overwrites the earlier entry. */
  function Collect(attempt: Attempt, end: nat, pos: nat, offsets: seq<nat>): (m: map<nat, SingleResult>)
    ensures forall l :: l in m <==> l in Elements(offsets) && pos + l < end && attempt(pos + l).wasDecoded
    ensures forall l :: l in m ==> m[l] == attempt(pos + l)
    decreases |offsets|
  {
    if |offsets| == 0 then map[]
    else
      var init := offsets[..|offsets| - 1];
      var l := offsets[|offsets| - 1];
      assert Elements(offsets) == Elements(init) + {l};
      var prev := Collect(attempt, end, pos, init);
      if pos + l < end then
        var r := attempt(pos + l);
        if r.wasDecoded then prev[l := r] else prev
      else prev
  }

  /** Results are keyed by offsets within the remaining bits and each
      consumed at least one bit. */
  predicate Chainable(results: map<nat, SingleResult>, bound: nat) {
    forall l :: l in results ==> l < bound && results[l].length >= 1
  }

  /** The decoding chain: follows the results from offset `off`, each
      result's length leading to the next offset, while one is found. */
  function Chain(results: map<nat, SingleResult>, off: nat, bound: nat): seq<SingleResult>
    requires Chainable(results, bound)
    decreases bound - off
  {
    if off in results then [results[off]] + Chain(results, off + results[off].length, bound) else []
  }

  /** The offsets of `results` at or after `off`. */
  function OffsetsFrom(results: map<nat, SingleResult>, off: nat): set<nat> {
    set l | l in results && l >= off
  }

  /** The chain visits strictly increasing offsets, so it is no longer than
      the number of results. */
  lemma {:induction false} ChainLength(results: map<nat, SingleResult>, off: nat, bound: nat)
    requires Chainable(results, bound)
    ensures |Chain(results, off, bound)| <= |OffsetsFrom(results, off)|
    decreases bound - off
  {
    if off in results {
      var next := off + results[off].length;
      ChainLength(results, next, bound);
      assert OffsetsFrom(results, next) <= OffsetsFrom(results, off) - {off};
      SubsetCardinality(OffsetsFrom(results, next), OffsetsFrom(results, off) - {off});
    }
  }

  /** Speculation safety: when the results are those of decoding at
      `pos + offset`, the chain from `off` is a prefix of the sequential run
      from `pos + off`. */
  lemma {:induction false} ChainIsRun(attempt: Attempt, end: nat, pos: nat, results: map<nat, SingleResult>, off: nat)
    requires Decodes(attempt, end) && pos <= end
    requires Chainable(results, end - pos)
    requires forall l :: l in results ==> results[l] == attempt(pos + l) && results[l].wasDecoded
    ensures Prefix(Chain(results, off, end - pos), Run(attempt, end, pos + off))
    decreases end - pos - off
  {
    if off in results {
      var next := off + results[off].length;
      ChainIsRun(attempt, end, pos, results, next);
      assert Run(attempt, end, pos + off) == [attempt(pos + off)] + Run(attempt, end, pos + next);
    }
  }

  /** A Python slice `chain[:limit]` when the limit is truthy. */
  function Truncate(chain: seq<SingleResult>, limit: Option<int>): (r: seq<SingleResult>)
    ensures Prefix(r, chain)
    ensures limit.None? || limit.value == 0 ==> r == chain
    ensures limit.Some? && limit.value > 0 ==> |r| == Min(limit.value, |chain|)
    ensures limit.Some? && limit.value < 0 ==> |r| == (if |chain| + limit.value < 0 then 0 else |chain| + limit.value)
  {
    if limit.None? || limit.value == 0 then chain
    else if limit.value > 0 then chain[..Min(limit.value, |chain|)]
    else if |chain| + limit.value < 0 then []
    else chain[..|chain| + limit.value]
  }

  /** No negative cap: a non-empty chain is never cut down to nothing. */
  predicate KeepsFirst(limit: Option<int>) {
    limit.None? || limit.value >= 0
  }

  /** What one speculation returns: the committed results and whether the
      length decoded at the current position was among the predictions. */
  datatype Speculation = Speculation(chain: seq<SingleResult>, trulyGuessed: nat)

  /** `speculate(data, pos)`: nothing past the end of the data; otherwise
      the predictor's guesses for the next `width` lengths are tried, and a
      predictor that cannot predict makes the call fail. */
  function Speculate(d: SpecDecoder, data: Bits, pos: nat): (r: Result<Speculation, PredictorError>)
    ensures r.Err? <==> pos < |data| && d.predictor.Base?
    ensures pos >= |data| ==> r == Ok(Speculation([], 0))
    ensures r.Ok? ==> Prefix(r.value.chain, Run(Attempts(d.tree, data), |data|, pos))
    ensures r.Ok? ==> |r.value.chain| <= d.width + 1
    ensures r.Ok? && d.chainLimit.Some? && d.chainLimit.value > 0 ==> |r.value.chain| <= d.chainLimit.value
    ensures r.Ok? && KeepsFirst(d.chainLimit) ==> (|r.value.chain| > 0 <==> DecodeAt(d.tree, data, pos).wasDecoded)
    ensures r.Ok? && pos < |data| ==> var run := Run(Attempts(d.tree, data), |data|, pos);
      forall i :: 0 <= i < |r.value.chain| ==> TotalLength(run[..i]) in [0] + ImplicitlyPredict(d.predictor, d.width).value
    ensures r.Ok? && pos < |data| ==> var run := Run(Attempts(d.tree, data), |data|, pos);
      KeepsFirst(d.chainLimit) && |r.value.chain| < |run| && (d.chainLimit.None? || d.chainLimit.value == 0 || |r.value.chain| < d.chainLimit.value) ==>
        TotalLength(run[..|r.value.chain|]) !in ImplicitlyPredict(d.predictor, d.width).value
    ensures r.Ok? ==> r.value.trulyGuessed <= 1
    ensures r.Ok? && pos < |data| ==>
      (r.value.trulyGuessed == 1 <==>
        DecodeAt(d.tree, data, pos).wasDecoded && DecodeAt(d.tree, data, pos).length in ImplicitlyPredict(d.predictor, d.width).value)
  {
    SpeculateWith(d, Attempts(d.tree, data), |data|, pos)
  }

  /** `speculate` over the attempts of the decoders on a bit string of
      length `end`. */
  function SpeculateWith(d: SpecDecoder, attempt: Attempt, end: nat, pos: nat): (r: Result<Speculation, PredictorError>)
    requires Decodes(attempt, end)
    ensures r.Err? <==> pos < end && d.predictor.Base?
    ensures pos >= end ==> r == Ok(Speculation([], 0))
    ensures r.Ok? ==> Prefix(r.value.chain, Run(attempt, end, pos))
    ensures r.Ok? ==> |r.value.chain| <= d.width + 1
    ensures r.Ok? && d.chainLimit.Some? && d.chainLimit.value > 0 ==> |r.value.chain| <= d.chainLimit.value
    ensures r.Ok? && KeepsFirst(d.chainLimit) ==> (|r.value.chain| > 0 <==> attempt(pos).wasDecoded)
    ensures r.Ok? && pos < end ==> var run := Run(attempt, end, pos);
      forall i :: 0 <= i < |r.value.chain| ==> TotalLength(run[..i]) in [0] + ImplicitlyPredict(d.predictor, d.width).value
    ensures r.Ok? && pos < end ==> var run := Run(attempt, end, pos);
      KeepsFirst(d.chainLimit) && |r.value.chain| < |run| && (d.chainLimit.None? || d.chainLimit.value == 0 || |r.value.chain| < d.chainLimit.value) ==>
        TotalLength(run[..|r.value.chain|]) !in ImplicitlyPredict(d.predictor, d.width).value
    ensures r.Ok? ==> r.value.trulyGuessed <= 1
    ensures r.Ok? && pos < end ==>
      (r.value.trulyGuessed == 1 <==>
        attempt(pos).wasDecoded && attempt(pos).length in ImplicitlyPredict(d.predictor, d.width).value)
  {
    if pos >= end then Ok(Speculation([], 0))
    else
      var predicted := ImplicitlyPredict(d.predictor, d.width);
      if predicted.Err? then Err(predicted.error)
      else Ok(SpeculateAt(attempt, end, pos, predicted.value, d.chainLimit))
  }

  /** One speculation at an offset in range, given the predicted lengths:
      decodes at offset 0 and at each predicted length, chains the successes
      from offset 0, and caps the chain. The chain is a prefix of the
      sequential run, at most one result per offset tried, and (unless a
      negative cap removes it) non-empty exactly when offset 0 decodes.
      Each committed result starts at an offset that was tried, and unless
      the cap cut it, the chain ends at the end of the run or before a
      result whose start was not predicted. */
  function SpeculateAt(attempt: Attempt, end: nat, pos: nat, predicted: seq<nat>, limit: Option<int>): (s: Speculation)
    requires Decodes(attempt, end) && pos < end
    ensures Prefix(s.chain, Run(attempt, end, pos))
    ensures |s.chain| <= |predicted| + 1
    ensures limit.Some? && limit.value > 0 ==> |s.chain| <= limit.value
    ensures KeepsFirst(limit) ==> (|s.chain| > 0 <==> attempt(pos).wasDecoded)
    ensures var run := Run(attempt, end, pos);
      forall i :: 0 <= i < |s.chain| ==> TotalLength(run[..i]) in [0] + predicted
    ensures var run := Run(attempt, end, pos);
      KeepsFirst(limit) && |s.chain| < |run| && (limit.None? || limit.value == 0 || |s.chain| < limit.value) ==>
        TotalLength(run[..|s.chain|]) !in predicted
    ensures s.chain == Truncate(Follow(attempt, end, pos, Elements([0] + predicted), 0), limit)
    ensures s.trulyGuessed == 1 <==> attempt(pos).wasDecoded && attempt(pos).length in predicted
    ensures s.trulyGuessed <= 1
  {
    var results := Collect(attempt, end, pos, [0] + predicted);
    var chain := Linked(attempt, end, pos, predicted);
    LinkedFacts(attempt, end, pos, predicted);
    LinkedIsFollow(attempt, end, pos, predicted);
    LinkedTried(attempt, end, pos, predicted);
    LinkedStops(attempt, end, pos, predicted);
    var truly := if 0 in results && results[0].length in predicted then 1 else 0;
    var capped := Truncate(chain, limit);
    assert Prefix(capped, Run(attempt, end, pos)) by {
      assert chain[..|capped|] == capped;
    }
    Speculation(capped, truly)
  }

  /** The chain one speculation links from offset 0, before the cap. */
  function Linked(attempt: Attempt, end: nat, pos: nat, predicted: seq<nat>): seq<SingleResult>
    requires Decodes(attempt, end) && pos < end
  {
    var results := Collect(attempt, end, pos, [0] + predicted);
    SpeculationFacts(attempt, end, pos, [0] + predicted, results);
    if 0 in results then Chain(results, 0, end - pos) else []
  }

  /** The results of one speculation hold the decode at offset 0 exactly
      when it succeeds, and the linked chain is a prefix of the run, at most
      one result per offset tried, non-empty exactly when offset 0 decodes. */
  lemma LinkedFacts(attempt: Attempt, end: nat, pos: nat, predicted: seq<nat>)
    requires Decodes(attempt, end) && pos < end
    ensures var results := Collect(attempt, end, pos, [0] + predicted);
      && (0 in results <==> attempt(pos).wasDecoded)
      && (0 in results ==> results[0] == attempt(pos))
    ensures var chain := Linked(attempt, end, pos, predicted);
      && Prefix(chain, Run(attempt, end, pos)) && |chain| <= |predicted| + 1
      && (|chain| > 0 <==> attempt(pos).wasDecoded)
  {
    var offsets := [0] + predicted;
    SpeculationFacts(attempt, end, pos, offsets, Collect(attempt, end, pos, offsets));
    assert 0 in offsets;
  }

  /** The chain of one speculation: a prefix of the run, at most one result
      per offset tried, and non-empty exactly when offset 0 decodes. */
  lemma SpeculationFacts(attempt: Attempt, end: nat, pos: nat, offsets: seq<nat>, results: map<nat, SingleResult>)
    requires Decodes(attempt, end) && pos < end
    requires results == Collect(attempt, end, pos, offsets)
    ensures Chainable(results, end - pos)
    ensures var chain := if 0 in results then Chain(results, 0, end - pos) else [];
      && Prefix(chain, Run(attempt, end, pos))
      && |chain| <= |offsets|
      && (|chain| > 0 <==> 0 in results)
    ensures 0 in offsets ==> (0 in results <==> attempt(pos).wasDecoded)
    ensures 0 in results ==> results[0] == attempt(pos)
  {
    var bound := end - pos;
    forall l | l in results ensures l < bound && results[l].length >= 1 {
      assert attempt(pos + l).wasDecoded;
    }
    ChainIsRun(attempt, end, pos, results, 0);
    ChainLength(results, 0, bound);
    assert OffsetsFrom(results, 0) <= Elements(offsets);
    SubsetCardinality(OffsetsFrom(results, 0), Elements(offsets));
    ElementsCardinality(offsets);
    if 0 in offsets {
      assert 0 in Elements(offsets);
    }
  }

  /** Sequential decoding from `pos + off` that goes on only while the
      offset of the next decode, counted from `pos`, is in `tried`: what
      the chain of a speculation that tried the offsets `tried` commits. */
  function Follow(attempt: Attempt, end: nat, pos: nat, tried: set<nat>, off: nat): (rs: seq<SingleResult>)
    requires Decodes(attempt, end)
    decreases end - pos - off
  {
    var r := attempt(pos + off);
    if off in tried && r.wasDecoded then [r] + Follow(attempt, end, pos, tried, off + r.length) else []
  }

  /** The chain from `off` over the results of the tried offsets that
      decoded is the sequential run followed through the tried offsets. */
  lemma {:induction false} ChainIsFollow(attempt: Attempt, end: nat, pos: nat, tried: set<nat>,
                                          results: map<nat, SingleResult>, off: nat)
    requires Decodes(attempt, end) && pos <= end
    requires Chainable(results, end - pos)
    requires forall l :: l in results <==> l in tried && pos + l < end && attempt(pos + l).wasDecoded
    requires forall l :: l in results ==> results[l] == attempt(pos + l)
    ensures Chain(results, off, end - pos) == Follow(attempt, end, pos, tried, off)
    decreases end - pos - off
  {
    if off in results {
      ChainIsFollow(attempt, end, pos, tried, results, off + results[off].length);
    }
  }

  /** Where following stops: each result followed starts at a tried offset,
      and the first result of the run left out starts at an untried one. */
  lemma {:induction false} FollowStops(attempt: Attempt, end: nat, pos: nat, tried: set<nat>, off: nat)
    requires Decodes(attempt, end)
    ensures |Follow(attempt, end, pos, tried, off)| <= |Run(attempt, end, pos + off)|
    ensures var f := Follow(attempt, end, pos, tried, off); var run := Run(attempt, end, pos + off);
      && (forall i :: 0 <= i < |f| ==> off + TotalLength(run[..i]) in tried)
      && (|f| < |run| ==> off + TotalLength(run[..|f|]) !in tried)
    decreases end - pos - off
  {
    var run := Run(attempt, end, pos + off);
    assert run[..0] == [];
    var r := attempt(pos + off);
    if off in tried && r.wasDecoded {
      var next := off + r.length;
      FollowStops(attempt, end, pos, tried, next);
      var rest := Run(attempt, end, pos + next);
      assert run == [r] + rest;
      var tail := Follow(attempt, end, pos, tried, next);
      var f := Follow(attempt, end, pos, tried, off);
      assert f == [r] + tail;
      forall i | 0 < i < |f| ensures off + TotalLength(run[..i]) in tried {
        OffsetAfterFirst(run, r, rest, i - 1);
      }
      if |f| < |run| {
        OffsetAfterFirst(run, r, rest, |tail|);
      }
    }
  }

  /** Offsets in `[r] + rest` are `r`'s length plus offsets in `rest`. */
  lemma OffsetAfterFirst(run: seq<SingleResult>, r: SingleResult, rest: seq<SingleResult>, i: nat)
    requires run == [r] + rest && i <= |rest|
    ensures TotalLength(run[..i + 1]) == r.length + TotalLength(rest[..i])
  {
    assert run[..i + 1][1..] == rest[..i];
  }

  /** Every result of the collected map starts inside the remaining bits
      and consumed at least one. */
  lemma CollectChainable(attempt: Attempt, end: nat, pos: nat, offsets: seq<nat>)
    requires Decodes(attempt, end) && pos < end
    ensures Chainable(Collect(attempt, end, pos, offsets), end - pos)
  {
    var results := Collect(attempt, end, pos, offsets);
    forall l | l in results ensures l < end - pos && results[l].length >= 1 {
      assert attempt(pos + l).wasDecoded;
    }
  }

  /** The linked chain of one speculation is the run from `pos` followed
      through the offsets tried. */
  lemma LinkedIsFollow(attempt: Attempt, end: nat, pos: nat, predicted: seq<nat>)
    requires Decodes(attempt, end) && pos < end
    ensures Linked(attempt, end, pos, predicted) == Follow(attempt, end, pos, Elements([0] + predicted), 0)
  {
    var results := Collect(attempt, end, pos, [0] + predicted);
    CollectChainable(attempt, end, pos, [0] + predicted);
    ChainIsFollow(attempt, end, pos, Elements([0] + predicted), results, 0);
  }

  /** The linked chain of one speculation commits only results whose start
      was tried. */
  lemma LinkedTried(attempt: Attempt, end: nat, pos: nat, predicted: seq<nat>)
    requires Decodes(attempt, end) && pos < end
    ensures |Linked(attempt, end, pos, predicted)| <= |Run(attempt, end, pos)|
    ensures var run := Run(attempt, end, pos);
      forall i :: 0 <= i < |Linked(attempt, end, pos, predicted)| ==> TotalLength(run[..i]) in [0] + predicted
  {
    var tried := Elements([0] + predicted);
    LinkedIsFollow(attempt, end, pos, predicted);
    FollowStops(attempt, end, pos, tried, 0);
    assert forall l :: l in tried ==> l in [0] + predicted;
  }

  /** The linked chain of one speculation stops before a result of the run
      only when that result's start was not predicted. */
  lemma LinkedStops(attempt: Attempt, end: nat, pos: nat, predicted: seq<nat>)
    requires Decodes(attempt, end) && pos < end
    ensures |Linked(attempt, end, pos, predicted)| <= |Run(attempt, end, pos)|
    ensures var chain := Linked(attempt, end, pos, predicted); var run := Run(attempt, end, pos);
      |chain| < |run| ==> TotalLength(run[..|chain|]) !in predicted
  {
    var tried := Elements([0] + predicted);
    LinkedIsFollow(attempt, end, pos, predicted);
    FollowStops(attempt, end, pos, tried, 0);
    assert forall l :: l in predicted ==> l in tried;
  }

  // ---------------------------------------------------------------------
  // Decoding a whole bit string.

  /** What `decode` returns: the symbols, the successes and attempts, the
      number of results committed per iteration and whether each
      iteration's first length was predicted. */
  datatype Output = Output(
    symbols: seq<Symbol>,
    successes: nat,
    tries: nat,
    committed: seq<nat>,
    trulyPredicted: seq<nat>)

  /** `decode(data)`: speculates from the current position until the data is
      used up or a speculation commits nothing. The symbols are those of
      sequential decoding from the starting position, cut short only by a
      negative chain cap; the predictor has been fed each decoded length;
      every iteration tries `width + 1` decodes (the last, failed one
      included) and commits between 1 and `width + 1` results, exactly the
      results and flag its speculation returned. */
  method Decode(d: SpecDecoder, data: Bits) returns (r: Result<Output, PredictorError>, e: SpecDecoder)
    ensures r.Err? <==> d.position < |data| && d.predictor.Base?
    ensures r.Err? ==> e == d
    ensures e.tree == d.tree && e.width == d.width && e.chainLimit == d.chainLimit
    ensures r.Ok? ==> var run := Run(Attempts(d.tree, data), |data|, d.position);
      && |r.value.symbols| <= |run|
      && r.value.symbols == Symbols(run[..|r.value.symbols|])
      && e.position == d.position + TotalLength(run[..|r.value.symbols|])
      && e.predictor == FeedAll(d.predictor, FedLengths(run[..|r.value.symbols|]))
    ensures r.Ok? && KeepsFirst(d.chainLimit) ==>
      r.value.symbols == Symbols(Run(Attempts(d.tree, data), |data|, d.position))
    ensures r.Ok? ==> r.value.successes == |r.value.symbols| == Sum(r.value.committed)
    ensures r.Ok? ==> r.value.tries == (d.width + 1) * |r.value.committed| + (if e.position < |data| then d.width + 1 else 0)
    ensures r.Ok? ==> |r.value.trulyPredicted| == |r.value.committed|
    ensures r.Ok? ==> forall i :: 0 <= i < |r.value.committed| ==> 1 <= r.value.committed[i] <= d.width + 1
    ensures r.Ok? ==> forall i :: 0 <= i < |r.value.trulyPredicted| ==> r.value.trulyPredicted[i] <= 1
    ensures r.Ok? ==> forall i :: 0 <= i < |r.value.committed| ==>
      CommitsAfter(d, Attempts(d.tree, data), |data|, Run(Attempts(d.tree, data), |data|, d.position), Sum(r.value.committed[..i]), r.value.committed[i], r.value.trulyPredicted[i])
    ensures r.Ok? && d.position <= |data| ==> d.position <= e.position <= |data|
  {
    r, e := DecodeWith(d, Attempts(d.tree, data), |data|);
    if r.Ok? && d.position <= |data| {
      var run := Run(Attempts(d.tree, data), |data|, d.position);
      RunWithin(d.tree, data, d.position);
      TotalLengthPrefix(run, |r.value.symbols|);
    }
  }

  /** Sequential decoding from inside the data ends inside the data. */
  lemma {:induction false} RunWithin(tree: Tree, data: Bits, pos: nat)
    requires pos <= |data|
    ensures pos + TotalLength(Run(Attempts(tree, data), |data|, pos)) <= |data|
    decreases |data| - pos
  {
    var a := Attempts(tree, data);
    var r := a(pos);
    if r.wasDecoded {
      var next := pos + r.length;
      RunWithin(tree, data, next);
      var rs := Run(a, |data|, pos);
      assert rs == [r] + Run(a, |data|, next);
      assert rs[1..] == Run(a, |data|, next);
    }
  }

  /** An initial segment of results reads no more bits than the whole. */
  lemma TotalLengthPrefix(rs: seq<SingleResult>, k: nat)
    requires k <= |rs|
    ensures TotalLength(rs[..k]) <= TotalLength(rs)
  {
    assert rs == rs[..k] + rs[k..];
    TotalLengthConcat(rs[..k], rs[k..]);
  }

  /** `decode` over the attempts of the decoders on a bit string of length
      `end`. */
  method DecodeWith(d: SpecDecoder, attempt: Attempt, end: nat) returns (r: Result<Output, PredictorError>, e: SpecDecoder)
    requires Decodes(attempt, end)
    ensures r.Err? <==> d.position < end && d.predictor.Base?
    ensures r.Err? ==> e == d
    ensures e.tree == d.tree && e.width == d.width && e.chainLimit == d.chainLimit
    ensures r.Ok? ==> var run := Run(attempt, end, d.position);
      && |r.value.symbols| <= |run|
      && r.value.symbols == Symbols(run[..|r.value.symbols|])
      && e.position == d.position + TotalLength(run[..|r.value.symbols|])
      && e.predictor == FeedAll(d.predictor, FedLengths(run[..|r.value.symbols|]))
    ensures r.Ok? && KeepsFirst(d.chainLimit) ==>
      r.value.symbols == Symbols(Run(attempt, end, d.position))
    ensures r.Ok? ==> r.value.successes == |r.value.symbols| == Sum(r.value.committed)
    ensures r.Ok? ==> r.value.tries == (d.width + 1) * |r.value.committed| + (if e.position < end then d.width + 1 else 0)
    ensures r.Ok? ==> |r.value.trulyPredicted| == |r.value.committed|
    ensures r.Ok? ==> forall i :: 0 <= i < |r.value.committed| ==> 1 <= r.value.committed[i] <= d.width + 1
    ensures r.Ok? ==> forall i :: 0 <= i < |r.value.trulyPredicted| ==> r.value.trulyPredicted[i] <= 1
    ensures r.Ok? ==> forall i :: 0 <= i < |r.value.committed| ==>
      CommitsAfter(d, attempt, end, Run(attempt, end, d.position), Sum(r.value.committed[..i]), r.value.committed[i], r.value.trulyPredicted[i])
  {
    var out := Output([], 0, 0, [], []);
    e := d;
    ghost var done: seq<SingleResult> := [];
    assert Run(attempt, end, d.position) == done + Run(attempt, end, e.position);
    while e.position < end
      invariant Tracks(d, attempt, end, done, e, out)
      invariant forall i :: 0 <= i < |out.committed| ==>
        CommitsAfter(d, attempt, end, Run(attempt, end, d.position), Sum(out.committed[..i]), out.committed[i], out.trulyPredicted[i])
      decreases end - e.position
    {
      var spec := SpeculateWith(e, attempt, end, e.position);
      if spec.Err? {
        FeedAllKeepsKind(d.predictor, FedLengths(done));
        return Err(spec.error), d;
      }
      var chain := spec.value.chain;
      if |chain| == 0 {
        break;
      }
      StepTracks(d, attempt, end, done, e, out, chain, spec.value.trulyGuessed);
      StepSpeculated(d, attempt, end, done, e, out.committed, out.trulyPredicted, chain, spec.value.trulyGuessed);
      e := Advance(e, chain);
      out := Record(out, chain, spec.value.trulyGuessed, d.width);
      done := done + chain;
    }
    Finish(d, attempt, end, done, e, out);
    if e.position < end {
      // The iteration that committed nothing still tried its decodes.
      out := out.(tries := out.tries + d.width + 1);
    }
    r := Ok(out);
  }

  /** The state of `decode` after committing the results `done`: the
      decoder has moved past them and fed their lengths, and the counters
      describe them. */
  ghost predicate Tracks(d: SpecDecoder, attempt: Attempt, end: nat, done: seq<SingleResult>, e: SpecDecoder, out: Output)
    requires Decodes(attempt, end)
  {
    && e.tree == d.tree && e.width == d.width && e.chainLimit == d.chainLimit
    && Run(attempt, end, d.position) == done + Run(attempt, end, e.position)
    && e.position == d.position + TotalLength(done)
    && e.predictor == FeedAll(d.predictor, FedLengths(done))
    && out.symbols == Symbols(done) && |out.symbols| == |done|
    && (d.predictor.Base? ==> e == d && |out.committed| == 0)
    && out.successes == |out.symbols| == Sum(out.committed)
    && out.tries == (d.width + 1) * |out.committed|
    && |out.trulyPredicted| == |out.committed|
    && (forall i :: 0 <= i < |out.committed| ==> 1 <= out.committed[i] <= d.width + 1)
    && (forall i :: 0 <= i < |out.trulyPredicted| ==> out.trulyPredicted[i] <= 1)
  }

  /** The decoder `decode` speculates from once the first `k` results of
      `run`, the sequential run from `d`'s position, are committed. */
  function Resume(d: SpecDecoder, run: seq<SingleResult>, k: nat): (q: SpecDecoder)
    requires k <= |run|
  {
    d.(position := d.position + TotalLength(run[..k]), predictor := FeedAll(d.predictor, FedLengths(run[..k])))
  }

  /** The speculation `decode` makes once the first `k` results of `run`,
      the sequential run from `d`'s position, are committed returns the next
      `c` results of the run and the flag `t`. */
  predicate CommitsAfter(d: SpecDecoder, attempt: Attempt, end: nat, run: seq<SingleResult>, k: int, c: nat, t: nat)
    requires Decodes(attempt, end)
  {
    && 0 <= k && k + c <= |run|
    && var q := Resume(d, run, k);
       SpeculateWith(q, attempt, end, q.position) == Ok(Speculation(run[k..k + c], t))
  }

  /** One iteration of `decode` records the speculation it committed. */
  lemma StepSpeculated(d: SpecDecoder, attempt: Attempt, end: nat, done: seq<SingleResult>, e: SpecDecoder,
                       committed: seq<nat>, truly: seq<nat>, chain: seq<SingleResult>, t: nat)
    requires Decodes(attempt, end)
    requires Run(attempt, end, d.position) == done + Run(attempt, end, e.position)
    requires e == d.(position := d.position + TotalLength(done), predictor := FeedAll(d.predictor, FedLengths(done)))
    requires Sum(committed) == |done| && |truly| == |committed|
    requires forall i :: 0 <= i < |committed| ==> CommitsAfter(d, attempt, end, Run(attempt, end, d.position), Sum(committed[..i]), committed[i], truly[i])
    requires SpeculateWith(e, attempt, end, e.position) == Ok(Speculation(chain, t))
    ensures var c := committed + [|chain|]; var f := truly + [t];
      forall i :: 0 <= i < |c| ==> CommitsAfter(d, attempt, end, Run(attempt, end, d.position), Sum(c[..i]), c[i], f[i])
  {
    var c := committed + [|chain|];
    var f := truly + [t];
    NewSpeculated(d, attempt, end, done, e, chain, t);
    assert c[..|committed|] == committed;
    forall i | 0 <= i < |c| ensures CommitsAfter(d, attempt, end, Run(attempt, end, d.position), Sum(c[..i]), c[i], f[i]) {
      if i < |committed| {
        assert c[..i] == committed[..i];
      }
    }
  }

  /** The iteration just recorded committed what its speculation returned. */
  lemma NewSpeculated(d: SpecDecoder, attempt: Attempt, end: nat, done: seq<SingleResult>, e: SpecDecoder,
                      chain: seq<SingleResult>, t: nat)
    requires Decodes(attempt, end)
    requires Run(attempt, end, d.position) == done + Run(attempt, end, e.position)
    requires e == d.(position := d.position + TotalLength(done), predictor := FeedAll(d.predictor, FedLengths(done)))
    requires SpeculateWith(e, attempt, end, e.position) == Ok(Speculation(chain, t))
    ensures CommitsAfter(d, attempt, end, Run(attempt, end, d.position), |done|, |chain|, t)
  {
    ResumeAfter(d, Run(attempt, end, d.position), done, Run(attempt, end, e.position), e, chain);
  }

  /** Once `done` is committed, `decode` resumes from `e`, and a chain taken
      from the rest of the run is the next stretch of the run. */
  lemma ResumeAfter(d: SpecDecoder, run: seq<SingleResult>, done: seq<SingleResult>, rest: seq<SingleResult>,
                    e: SpecDecoder, chain: seq<SingleResult>)
    requires run == done + rest && Prefix(chain, rest)
    requires e == d.(position := d.position + TotalLength(done), predictor := FeedAll(d.predictor, FedLengths(done)))
    ensures |done| + |chain| <= |run|
    ensures Resume(d, run, |done|) == e
    ensures run[|done|..|done| + |chain|] == chain
  {
    assert run[..|done|] == done;
  }

  /** The decoder after committing `chain`: moved past its bits, with its
      lengths fed to the predictor. */
  function Advance(e: SpecDecoder, chain: seq<SingleResult>): (next: SpecDecoder) {
    e.(predictor := FeedAll(e.predictor, FedLengths(chain)), position := e.position + TotalLength(chain))
  }

  /** The counters after committing `chain` in an iteration that tried
      `width + 1` decodes. */
  function Record(out: Output, chain: seq<SingleResult>, truly: nat, width: nat): (next: Output) {
    Output(out.symbols + Symbols(chain), out.successes + |chain|, out.tries + width + 1,
           out.committed + [|chain|], out.trulyPredicted + [truly])
  }

  /** One iteration of `decode` keeps `Tracks`. */
  lemma StepTracks(d: SpecDecoder, attempt: Attempt, end: nat, done: seq<SingleResult>, e: SpecDecoder,
                   out: Output, chain: seq<SingleResult>, truly: nat)
    requires Decodes(attempt, end) && Tracks(d, attempt, end, done, e, out)
    requires !e.predictor.Base?
    requires Prefix(chain, Run(attempt, end, e.position)) && 1 <= |chain| <= d.width + 1 && truly <= 1
    ensures Tracks(d, attempt, end, done + chain, Advance(e, chain), Record(out, chain, truly, d.width))
    ensures Advance(e, chain).position > e.position
  {
    var e' := Advance(e, chain);
    var out' := Record(out, chain, truly, d.width);
    FeedAllKeepsKind(d.predictor, FedLengths(done));
    CommitStep(attempt, end, Run(attempt, end, d.position), done, e.position, chain, done + chain, e'.position);
    ConcatSums(done, chain);
    SymbolPerResult(chain);
    FeedAllConcat(d.predictor, FedLengths(done), FedLengths(chain));
    SumConcat(out.committed, [|chain|]);
    MultiplyStep(d.width + 1, |out.committed|);
  }

  /** When `decode` stops: the committed results are an initial segment of
      the run, the whole run unless a negative cap shortened a chain, and the
      last iteration's tries are counted when it stopped early. */
  lemma Finish(d: SpecDecoder, attempt: Attempt, end: nat, done: seq<SingleResult>, e: SpecDecoder, out: Output)
    requires Decodes(attempt, end) && Tracks(d, attempt, end, done, e, out)
    requires KeepsFirst(d.chainLimit) && e.position < end ==> !attempt(e.position).wasDecoded
    ensures var run := Run(attempt, end, d.position);
      && |out.symbols| <= |run|
      && out.symbols == Symbols(run[..|out.symbols|])
      && e.position == d.position + TotalLength(run[..|out.symbols|])
      && e.predictor == FeedAll(d.predictor, FedLengths(run[..|out.symbols|]))
    ensures KeepsFirst(d.chainLimit) ==> out.symbols == Symbols(Run(attempt, end, d.position))
  {
    var run := Run(attempt, end, d.position);
    assert run[..|done|] == done;
    if KeepsFirst(d.chainLimit) {
      assert Run(attempt, end, e.position) == [];
      assert run == done;
    }
  }

  /** One iteration of `decode`: committing a chain that is a prefix of
      the rest of the run extends the decoded prefix by it. */
  lemma CommitStep(attempt: Attempt, end: nat, run: seq<SingleResult>, done: seq<SingleResult>, pos: nat,
                    chain: seq<SingleResult>, done': seq<SingleResult>, next: nat)
    requires Decodes(attempt, end)
    requires run == done + Run(attempt, end, pos)
    requires Prefix(chain, Run(attempt, end, pos)) && |chain| > 0
    requires done' == done + chain && next == pos + TotalLength(chain)
    ensures run == done' + Run(attempt, end, next)
    ensures forall i :: 0 <= i < |chain| ==> chain[i].symbol.Some?
    ensures next > pos
  {
    RunSplits(attempt, end, pos, chain, next);
    Regroup(run, done, Run(attempt, end, pos), chain, Run(attempt, end, next), done');
    RunSucceeds(attempt, end, pos);
    assert chain[0] == Run(attempt, end, pos)[0];
    forall i | 0 <= i < |chain| ensures chain[i].symbol.Some? {
      assert chain[i] == Run(attempt, end, pos)[i];
    }
  }

  /** `x = a ++ b` with `b = c ++ rest` regroups as `(a ++ c) ++ rest`. */
  lemma Regroup<T>(x: seq<T>, a: seq<T>, b: seq<T>, c: seq<T>, rest: seq<T>, ac: seq<T>)
    requires x == a + b && b == c + rest && ac == a + c
    ensures x == ac + rest
  {
    assert a + (c + rest) == (a + c) + rest;
  }

  lemma MultiplyStep(a: nat, n: nat)
    ensures a * (n + 1) == a * n + a
  {
  }

  /** Feeding never turns a predictor into the base predictor. */
  lemma {:induction false} FeedAllKeepsKind(p: Predictor, lengths: seq<nat>)
    ensures FeedAll(p, lengths).Base? == p.Base?
    decreases |lengths|
  {
    if |lengths| > 0 {
      FeedAllKeepsKind(Feed(p, lengths[0]), lengths[1..]);
    }
  }

  /** Feeding two batches is feeding their concatenation. */
  lemma {:induction false} FeedAllConcat(p: Predictor, a: seq<nat>, b: seq<nat>)
    ensures FeedAll(p, a + b) == FeedAll(FeedAll(p, a), b)
    decreases |a|
  {
    if |a| == 0 {
      assert a + b == b;
    } else {
      assert (a + b)[1..] == a[1..] + b;
      FeedAllConcat(Feed(p, a[0]), a[1..], b);
    }
  }
}
