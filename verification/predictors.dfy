/** Length predictors: strategies that offer up to `n` candidate codeword
    lengths for the next speculative offsets. */
module Predictors {
  import opened Wrappers
  import opened Collections
  import opened Huffman

  /** A method the predictor does not implement was called. */
  datatype PredictorError = NotImplemented

  /** The four predictors:
      - `Base`: the abstract predictor, which predicts nothing itself;
      - `Static`: a fixed vector of lengths;
      - `Dynamic`: a table from the context (the last lengths decoded) to a
        ranked list of lengths, with a backup list for unseen contexts;
      - `ZeroOrder`: the lengths of a Huffman code rebuilt from data, ranked
        by `count(l) * 2^-l`; `codes` maps each length to the number of
        symbols that have it. */
  datatype Predictor =
    | Base
    | Static(vector: seq<nat>)
    | Dynamic(table: map<seq<nat>, seq<nat>>, context: seq<nat>, backup: seq<nat>)
    | ZeroOrder(codes: map<nat, nat>, ranking: seq<nat>)

  function Min(a: nat, b: nat): nat {
    if a <= b then a else b
  }

  /** The number of predictions the predictor can make: 0 for the base
      predictor, the vector length, the number of contexts in the table, or
      the number of ranked lengths. */
  function Cardinality(p: Predictor): (c: nat)
    ensures p.Base? ==> c == 0
    ensures p.Static? ==> c == |p.vector|
    ensures p.Dynamic? ==> c == |p.table|
    ensures p.ZeroOrder? ==> c == |p.ranking|
  {
    match p
    case Base => 0
    case Static(v) => |v|
    case Dynamic(t, _, _) => |t|
    case ZeroOrder(_, r) => |r|
  }

  /** `feed`: the dynamic predictor drops the oldest context entry and
      appends the decoded length; every other predictor ignores it. */
  function Feed(p: Predictor, current: nat): (q: Predictor)
    ensures !p.Dynamic? ==> q == p
    ensures p.Dynamic? ==> q.Dynamic? && q.table == p.table && q.backup == p.backup
    ensures p.Dynamic? ==> |q.context| == (if |p.context| == 0 then 1 else |p.context|)
    ensures p.Dynamic? ==> q.context[|q.context| - 1] == current
    ensures p.Dynamic? && |p.context| > 0 ==> q.context[..|q.context| - 1] == p.context[1..]
  {
    match p
    case Dynamic(t, ctx, b) =>
      var next := if |ctx| == 0 then [current] else ctx[1..] + [current];
      assert |ctx| > 0 ==> next[..|next| - 1] == ctx[1..];
      Dynamic(t, next, b)
    case _ => p
  }

  /** Feeds the lengths in order. */
  function FeedAll(p: Predictor, lengths: seq<nat>): Predictor
    decreases |lengths|
  {
    if |lengths| == 0 then p else FeedAll(Feed(p, lengths[0]), lengths[1..])
  }

  /** What the predictor ranks for the current state: the vector, the table
      entry of the current context (or the backup list), or the ranking. */
  function Candidates(p: Predictor): seq<nat>
    requires !p.Base?
  {
    match p
    case Static(v) => v
    case Dynamic(t, ctx, b) => if ctx in t then t[ctx] else b
    case ZeroOrder(_, r) => r
  }

  /** `implicitly_predict(n)`: the first `min(n, ...)` candidates, in order;
      the base predictor has no such method. */
  function ImplicitlyPredict(p: Predictor, n: nat): (r: Result<seq<nat>, PredictorError>)
    ensures r.Err? <==> p.Base?
    ensures r.Ok? ==> |r.value| == Min(n, |Candidates(p)|) && r.value <= Candidates(p)
    ensures r.Ok? ==> |r.value| <= n
  {
    if p.Base? then Err(NotImplemented)
    else
      var c := Candidates(p);
      Ok(c[..Min(n, |c|)])
  }

  /** `predict(previous, n)`: the dynamic predictor first feeds `previous`;
      the static and zero-order predictors ignore it; the base predictor
      raises. The predictor state after the call is returned with the
      prediction. */
  function Predict(p: Predictor, previous: nat, n: nat): (r: Result<(Predictor, seq<nat>), PredictorError>)
    ensures r.Err? <==> p.Base?
    ensures r.Ok? ==> r.value.0 == Feed(p, previous)
    ensures r.Ok? ==> Ok(r.value.1) == ImplicitlyPredict(r.value.0, n)
    ensures r.Ok? && !p.Dynamic? ==> r.value.0 == p && Ok(r.value.1) == ImplicitlyPredict(p, n)
  {
    match p
    case Base => Err(NotImplemented)
    case Dynamic(_, _, _) =>
      var q := Feed(p, previous);
      Ok((q, ImplicitlyPredict(q, n).value))
    case _ => Ok((p, ImplicitlyPredict(p, n).value))
  }

  /** A dynamic predictor: the backup list is kept sorted ascending. */
  function NewDynamic(table: map<seq<nat>, seq<nat>>, context: seq<nat>, backup: seq<nat>): (p: Predictor)
    ensures p.Dynamic? && p.table == table && p.context == context
    ensures multiset(p.backup) == multiset(backup) && NonDecreasing(p.backup)
  {
    var b := SortAscending(backup);
    forall i | 0 <= i < |b| ensures b[i] >= 0 {
      assert b[i] in multiset(backup);
    }
    Dynamic(table, context, b)
  }

  /** A zero-order predictor before reconstruction: nothing to rank. */
  function NewZeroOrder(): (p: Predictor)
    ensures p.ZeroOrder? && Cardinality(p) == 0
    ensures forall n: nat :: ImplicitlyPredict(p, n) == Ok([])
  {
    ZeroOrder(map[], [])
  }

  // ---------------------------------------------------------------------
  // Zero-order reconstruction.

  /** Occurrences of each symbol of `data` (Python's `Counter(data)`). */
  function Counts(data: seq<Symbol>): (f: map<Symbol, int>)
    ensures f.Keys == Elements(data)
    ensures forall s :: s in f ==> f[s] == multiset(data)[s]
  {
    map s | s in Elements(data) :: multiset(data)[s]
  }

  /** `2^l`, exactly. */
  function Pow2(l: nat): (r: nat)
    ensures r >= 1
  {
    if l == 0 then 1 else 2 * Pow2(l - 1)
  }

  /** The weight `count(l) * 2^-l` of a code length. */
  function LengthWeight(counts: map<nat, nat>, l: nat): real {
    (if l in counts then counts[l] else 0) as real / Pow2(l) as real
  }

  /** How many symbols of a length map have length `l`. */
  function SymbolsOfLength(lengths: map<Symbol, nat>, l: nat): set<Symbol> {
    set s | s in lengths && lengths[s] == l
  }

  /** `Counter(length_map.values())`: each code length with the number of
      symbols that have it. */
  function LengthCounts(lengths: map<Symbol, nat>): (c: map<nat, nat>)
    ensures forall l :: l in c <==> exists s :: s in lengths && lengths[s] == l
    ensures forall l :: l in c ==> c[l] == |SymbolsOfLength(lengths, l)|
  {
    var present := set s | s in lengths :: lengths[s];
    map l | l in present :: |SymbolsOfLength(lengths, l)|
  }

  /** `reconstruct(data)` on a zero-order predictor: the Huffman code of the
      symbol counts of `data`, the number of symbols per code length, and the
      distinct lengths sorted by weight, largest first (ties keep the order
      in which the lengths first occur in `data`). */
  function ZeroOrderFrom(data: seq<Symbol>): (p: Predictor)
    ensures p.ZeroOrder?
  {
    var codes := Generate(Counts(data));
    var bitLengths := GetBitLengths(data, codes);
    var counts := LengthCounts(bitLengths.1);
    var order := Distinct(bitLengths.0);
    ZeroOrder(counts, SortByKeyDesc(order, l => LengthWeight(counts, l)))
  }

  /** `reconstruct`: only the zero-order predictor implements it. */
  function Reconstruct(p: Predictor, data: seq<Symbol>): (r: Result<Predictor, PredictorError>)
    ensures r.Err? <==> !p.ZeroOrder?
    ensures r.Ok? ==> r.value == ZeroOrderFrom(data)
  {
    if p.ZeroOrder? then Ok(ZeroOrderFrom(data)) else Err(NotImplemented)
  }
}
