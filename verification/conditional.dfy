/** The conditional probabilistic scheme built from a k-gram model: each
    counted k-gram splits into a context (its first k - 1 symbols) and an
    outcome (its last symbol); the scheme gives the probability of each
    outcome given a context, the probability of each context, and the
    assignment table of candidate lengths per context that the dynamic
    predictor is built from. Probabilities are exact ratios of counts. */
module ConditionalScheme {
  import opened Wrappers
  import opened Collections
  import opened Counters
  import opened KGram

  type Gram = seq<nat>

  /** A dict from keys to probabilities, as an association list in
      insertion order. */
  type Distribution<K> = seq<(K, real)>

  /** `k_gram[:-1]`. */
  function Context(g: Gram): Gram {
    if |g| == 0 then [] else g[..|g| - 1]
  }

  /** `k_gram[-1]`. */
  function Outcome(g: Gram): nat
    requires |g| >= 1
  {
    g[|g| - 1]
  }

  /** A `defaultdict(float)` read: the value of `x`, 0 when absent. */
  function Value<K(==)>(d: Distribution<K>, x: K): real {
    if |d| == 0 then 0.0
    else if d[0].0 == x then d[0].1
    else Value(d[1..], x)
  }

  /** The sum of all values. */
  function SumValues<K>(d: Distribution<K>): real {
    if |d| == 0 then 0.0 else d[0].1 + SumValues(d[1..])
  }

  /** Each count divided by `total`, in the same key order. */
  function Normalize<K>(c: Counter<K>, total: nat): (d: Distribution<K>)
    requires total > 0
    ensures |d| == |c| && Keys(d) == Keys(c)
  {
    seq(|c|, i requires 0 <= i < |c| => (c[i].0, c[i].1 as real / total as real))
  }

  // ---------------------------------------------------------------------
  // The constructor's first loop.

  /** What the first loop accumulates: per context, the count of each
      outcome (`_map` before normalisation); the count of each context
      (`_context_count`), whose key order is also the key order of `_map`;
      and `total_contexts`. */
  datatype Tally = Tally(outcomes: map<Gram, Counter<nat>>, contexts: Counter<Gram>, total: nat)

  function Inner(t: Tally, c: Gram): Counter<nat> {
    if c in t.outcomes then t.outcomes[c] else []
  }

  /** Every k-gram has a last symbol. */
  predicate NonEmptyGrams(f: Counter<Gram>) {
    forall i :: 0 <= i < |f| ==> |f[i].0| >= 1
  }

  /** The first loop after the entries of `f`, in order. */
  function TallyOf(f: Counter<Gram>): Tally
    requires NonEmptyGrams(f)
    decreases |f|
  {
    if |f| == 0 then Tally(map[], [], 0)
    else
      TallyStep(TallyOf(f[..|f| - 1]), f[|f| - 1].0, f[|f| - 1].1)
  }

  /** One iteration: `_map[context][outcome] += count`,
      `_context_count[context] += count`, `total_contexts += count`. */
  function TallyStep(t: Tally, g: Gram, n: nat): Tally
    requires |g| >= 1
  {
    var c := Context(g);
    Tally(t.outcomes[c := Add(Inner(t, c), Outcome(g), n)], Add(t.contexts, c, n), t.total + n)
  }

  /** The total count of the k-grams that extend context `c`. */
  function ContextCount(f: Counter<Gram>, c: Gram): nat
    decreases |f|
  {
    if |f| == 0 then 0
    else ContextCount(f[..|f| - 1], c) + (if Context(f[|f| - 1].0) == c then f[|f| - 1].1 else 0)
  }

  /** The shape the first loop keeps: contexts keyed once with positive
      counts, `_map` keyed by exactly those contexts, each outcome counter
      keyed once with positive counts adding up to its context's count,
      and the total is the sum of the context counts. */
  ghost predicate TallyShape(t: Tally) {
    && WellCounted(t.contexts)
    && t.outcomes.Keys == Elements(Keys(t.contexts))
    && (forall c :: c in t.outcomes ==> WellCounted(t.outcomes[c]) && Total(t.outcomes[c]) == Count(t.contexts, c))
    && t.total == Total(t.contexts)
  }

  lemma {:induction false} TallyHasShape(f: Counter<Gram>)
    requires NonEmptyGrams(f) && forall i :: 0 <= i < |f| ==> f[i].1 >= 1
    ensures TallyShape(TallyOf(f))
    decreases |f|
  {
    if |f| > 0 {
      TallyHasShape(f[..|f| - 1]);
      TallyStepShape(TallyOf(f[..|f| - 1]), f[|f| - 1].0, f[|f| - 1].1);
    }
  }

  lemma TallyStepShape(t: Tally, g: Gram, n: nat)
    requires |g| >= 1 && TallyShape(t) && n >= 1
    ensures TallyShape(TallyStep(t, g, n))
  {
    var t' := TallyStep(t, g, n);
    TallyStepContexts(t, g, n);
    forall x | x in t'.outcomes ensures WellCounted(t'.outcomes[x]) && Total(t'.outcomes[x]) == Count(t'.contexts, x) {
      TallyStepInner(t, g, n, x);
    }
  }

  lemma TallyStepContexts(t: Tally, g: Gram, n: nat)
    requires |g| >= 1 && TallyShape(t) && n >= 1
    ensures var t' := TallyStep(t, g, n);
      && WellCounted(t'.contexts)
      && t'.outcomes.Keys == Elements(Keys(t'.contexts))
      && t'.total == Total(t'.contexts)
  {
    var c := Context(g);
    AddWellCounted(t.contexts, c, n);
    AddKeys(t.contexts, c, n);
    AddTotal(t.contexts, c, n);
  }

  lemma TallyStepInner(t: Tally, g: Gram, n: nat, x: Gram)
    requires |g| >= 1 && TallyShape(t) && n >= 1
    requires x in TallyStep(t, g, n).outcomes
    ensures WellCounted(TallyStep(t, g, n).outcomes[x])
    ensures Total(TallyStep(t, g, n).outcomes[x]) == Count(TallyStep(t, g, n).contexts, x)
  {
    var c := Context(g);
    AddCount(t.contexts, c, n, x);
    if x != c {
      assert TallyStep(t, g, n).outcomes[x] == t.outcomes[x];
    } else {
      var inner := Inner(t, c);
      assert WellCounted(inner) && Total(inner) == Count(t.contexts, c) by {
        if c !in t.outcomes {
          assert c !in Keys(t.contexts);
        }
      }
      AddWellCounted(inner, Outcome(g), n);
      AddTotal(inner, Outcome(g), n);
    }
  }

  /** The first loop counts, for each context and outcome, the count of
      the k-gram `context + [outcome]`, and for each context the total
      count of the k-grams extending it. */
  lemma {:induction false} TallyCounts(f: Counter<Gram>, c: Gram, o: nat)
    requires NonEmptyGrams(f) && NoDuplicates(Keys(f))
    ensures Count(Inner(TallyOf(f), c), o) == Count(f, c + [o])
    ensures Count(TallyOf(f).contexts, c) == ContextCount(f, c)
    decreases |f|
  {
    if |f| > 0 {
      var init := f[..|f| - 1];
      var e := f[|f| - 1];
      LastKeyIsNew(f);
      TallyCounts(init, c, o);
      TallyStepCounts(TallyOf(init), e.0, e.1, c, o);
      assert f == init + [e];
      CountSnoc(init, e, c + [o]);
    }
  }

  /** The last key of a counter keyed once is not among the earlier keys. */
  lemma LastKeyIsNew<K>(f: Counter<K>)
    requires |f| > 0 && NoDuplicates(Keys(f))
    ensures NoDuplicates(Keys(f[..|f| - 1]))
    ensures f[|f| - 1].0 !in Keys(f[..|f| - 1])
  {
    var init := f[..|f| - 1];
    assert Keys(init) == Keys(f)[..|f| - 1];
    forall i | 0 <= i < |init| ensures Keys(init)[i] != f[|f| - 1].0 {
      assert Keys(f)[i] != Keys(f)[|f| - 1];
    }
  }

  /** One iteration counts k-gram `g` under its context and outcome. */
  lemma TallyStepCounts(t: Tally, g: Gram, n: nat, c: Gram, o: nat)
    requires |g| >= 1
    ensures Count(Inner(TallyStep(t, g, n), c), o) == Count(Inner(t, c), o) + (if g == c + [o] then n else 0)
    ensures Count(TallyStep(t, g, n).contexts, c) == Count(t.contexts, c) + (if Context(g) == c then n else 0)
  {
    AddCount(Inner(t, Context(g)), Outcome(g), n, o);
    AddCount(t.contexts, Context(g), n, c);
    assert g == Context(g) + [Outcome(g)];
    if g == c + [o] {
      assert Context(g) == c && Outcome(g) == o;
    }
  }

  /** The total the first loop reaches is the sum of all k-gram counts. */
  lemma {:induction false} TallyTotal(f: Counter<Gram>)
    requires NonEmptyGrams(f)
    ensures TallyOf(f).total == Total(f)
    decreases |f|
  {
    if |f| > 0 {
      TallyTotal(f[..|f| - 1]);
      assert f == f[..|f| - 1] + [f[|f| - 1]];
      TotalSnoc(f[..|f| - 1], f[|f| - 1]);
    }
  }

  // ---------------------------------------------------------------------
  // The normalised scheme.

  datatype SchemeError =
    | UnknownContext  // `_map[context]` of a context never seen: KeyError
    | EmptyMaximum    // `max([])` when a context yields no outcome: ValueError

  /** `_model`, `_map` (per context, the probability of each outcome, in the
      order the outcomes were first counted) and `_context_probability` (in
      the order the contexts were first counted). */
  datatype Scheme = Scheme(model: Model, table: map<Gram, Distribution<nat>>, contextProbability: Distribution<Gram>)

  /** The constructor: tally the k-grams, then divide each outcome count by
      its context's count and each context count by the total. */
  function NewScheme(m: Model): (s: Scheme)
    requires ValidModel(m)
    ensures s.model == m
  {
    var f := m.frequencies;
    ModelGramsNonEmpty(m);
    var t := TallyOf(f);
    TallyHasShape(f);
    ContextCountsPositive(t);
    Scheme(m,
      map c | c in t.outcomes :: Normalize(t.outcomes[c], Count(t.contexts, c)),
      if |t.contexts| == 0 then [] else TotalPositive(t.contexts); Normalize(t.contexts, t.total))
  }

  lemma ModelGramsNonEmpty(m: Model)
    requires ValidModel(m)
    ensures NonEmptyGrams(m.frequencies) && forall i :: 0 <= i < |m.frequencies| ==> m.frequencies[i].1 >= 1
  {
  }

  lemma ContextCountsPositive(t: Tally)
    requires TallyShape(t)
    ensures forall c :: c in t.outcomes ==> Count(t.contexts, c) >= 1
  {
    forall c | c in t.outcomes ensures Count(t.contexts, c) >= 1 {
      CountPositive(t.contexts, c);
    }
  }

  /** `p(outcome, context)`: 0 for a context never seen. */
  function P(s: Scheme, o: nat, c: Gram): real {
    if c in s.table then Value(s.table[c], o) else 0.0
  }

  /** `p_context(context)`. */
  function PContext(s: Scheme, c: Gram): real {
    Value(s.contextProbability, c)
  }

  /** Normalising divides every count. */
  lemma {:induction false} ValueNormalize<K>(c: Counter<K>, d: nat, x: K)
    requires d > 0
    ensures Value(Normalize(c, d), x) == Count(c, x) as real / d as real
    decreases |c|
  {
    if |c| > 0 {
      assert Normalize(c, d)[1..] == Normalize(c[1..], d);
      ValueNormalize(c[1..], d, x);
    }
  }

  /** Normalising divides the total. */
  lemma {:induction false} SumNormalize<K>(c: Counter<K>, d: nat)
    requires d > 0
    ensures SumValues(Normalize(c, d)) == Total(c) as real / d as real
    decreases |c|
  {
    if |c| > 0 {
      assert Normalize(c, d)[1..] == Normalize(c[1..], d);
      SumNormalize(c[1..], d);
      DivideSum(c[0].1 as real, Total(c[1..]) as real, d as real);
    }
  }

  lemma DivideSum(a: real, b: real, d: real)
    requires d > 0.0
    ensures a / d + b / d == (a + b) / d
  {
  }

  /** Normalising by the total gives values adding up to 1. */
  lemma NormalizeByTotal<K>(c: Counter<K>)
    requires Total(c) > 0
    ensures SumValues(Normalize(c, Total(c))) == 1.0
  {
    SumNormalize(c, Total(c));
  }

  /** A context is in `_map` exactly when some counted k-gram extends it. */
  lemma SeenContexts(m: Model, c: Gram)
    requires ValidModel(m)
    ensures c in NewScheme(m).table <==> ContextCount(m.frequencies, c) > 0
  {
    var t := TallyOf(m.frequencies);
    TallyHasShape(m.frequencies);
    TallyCounts(m.frequencies, c, 0);
    CountPositive(t.contexts, c);
  }

  /** For a seen context `p(o, c)` is the count of `c + [o]` over the count
      of `c`; for an unseen context it is 0. */
  lemma PIsRatio(m: Model, o: nat, c: Gram)
    requires ValidModel(m)
    ensures var f := m.frequencies;
      P(NewScheme(m), o, c) ==
        if ContextCount(f, c) > 0 then Count(f, c + [o]) as real / ContextCount(f, c) as real else 0.0
  {
    var f := m.frequencies;
    var t := TallyOf(f);
    SeenContexts(m, c);
    TallyCounts(f, c, o);
    if c in t.outcomes {
      ValueNormalize(t.outcomes[c], Count(t.contexts, c), o);
    }
  }

  /** For a seen context the outcome probabilities add up to 1. */
  lemma PSumsToOne(m: Model, c: Gram)
    requires ValidModel(m) && c in NewScheme(m).table
    ensures SumValues(NewScheme(m).table[c]) == 1.0
  {
    var t := TallyOf(m.frequencies);
    TallyHasShape(m.frequencies);
    ContextCountsPositive(t);
    assert NewScheme(m).table[c] == Normalize(t.outcomes[c], Total(t.outcomes[c]));
    NormalizeByTotal(t.outcomes[c]);
  }

  /** `p_context(c)` is the count of `c` over the number of counted
      k-grams. */
  lemma PContextIsRatio(m: Model, c: Gram)
    requires ValidModel(m)
    ensures var f := m.frequencies;
      PContext(NewScheme(m), c) == if Total(f) > 0 then ContextCount(f, c) as real / Total(f) as real else 0.0
  {
    var f := m.frequencies;
    var t := TallyOf(f);
    TallyHasShape(f);
    TallyTotal(f);
    TallyCounts(f, c, 0);
    if |t.contexts| > 0 {
      TotalPositive(t.contexts);
      ValueNormalize(t.contexts, t.total, c);
    }
  }

  /** Once any k-gram is counted the context probabilities add up to 1, and
      they are listed for exactly the seen contexts. */
  lemma PContextSumsToOne(m: Model)
    requires ValidModel(m)
    ensures var s := NewScheme(m);
      && Elements(Keys(s.contextProbability)) == s.table.Keys
      && (|m.frequencies| > 0 ==> SumValues(s.contextProbability) == 1.0)
  {
    var f := m.frequencies;
    var t := TallyOf(f);
    TallyHasShape(f);
    TallyTotal(f);
    if |f| > 0 {
      TotalPositive(f);
      TotalPositive(t.contexts);
      NormalizeByTotal(t.contexts);
    }
  }

  /** With each key listed once, the value of a listed key is its entry. */
  lemma {:induction false} ValueAt<K>(d: Distribution<K>, i: nat)
    requires i < |d| && NoDuplicates(Keys(d))
    ensures Value(d, d[i].0) == d[i].1
    decreases i
  {
    if i > 0 {
      assert Keys(d)[0] != Keys(d)[i];
      assert Keys(d[1..]) == Keys(d)[1..];
      ValueAt(d[1..], i - 1);
    }
  }

  /** The outcomes listed for a seen context are listed once, and are
      exactly those counted after it. */
  lemma TableOutcomes(m: Model, c: Gram)
    requires ValidModel(m) && c in NewScheme(m).table
    ensures NoDuplicates(Keys(NewScheme(m).table[c]))
    ensures forall o :: o in Keys(NewScheme(m).table[c]) <==> Count(m.frequencies, c + [o]) > 0
  {
    var f := m.frequencies;
    var t := TallyOf(f);
    TallyHasShape(f);
    ContextCountsPositive(t);
    assert Keys(NewScheme(m).table[c]) == Keys(t.outcomes[c]);
    forall o ensures o in Keys(t.outcomes[c]) <==> Count(f, c + [o]) > 0 {
      TallyCounts(f, c, o);
      CountPositive(t.outcomes[c], o);
    }
  }

  // ---------------------------------------------------------------------
  // Ranking outcomes and the assignment table.

  /** The probability of an `(outcome, probability)` item, as a sort key. */
  function Probability(item: (nat, real)): real {
    item.1
  }

  /** `most_frequent_outcomes_on_context(n, context)`: the context's
      outcomes sorted by probability, largest first (ties in the order
      first counted), cut to `[:n]`. */
  function MostFrequentOutcomesOnContext(s: Scheme, n: int, c: Gram): (r: Result<Distribution<nat>, SchemeError>)
    ensures r.Err? <==> c !in s.table
    ensures r.Ok? ==> |r.value| <= |s.table[c]|
  {
    if c in s.table then Ok(Take(SortByKeyDesc(s.table[c], Probability), n)) else Err(UnknownContext)
  }

  /** The ranking on a seen context lists each outcome counted after it at
      most once, each with its probability `p(o, c)`, in non-increasing
      probability; it keeps `min(n, number of such outcomes)` items for
      `n >= 0`, and no outcome left out is more probable than one kept. */
  lemma OnContextRanked(m: Model, n: int, c: Gram)
    requires ValidModel(m) && c in NewScheme(m).table
    ensures var s := NewScheme(m);
      var r := MostFrequentOutcomesOnContext(s, n, c).value;
      && NoDuplicates(Keys(r))
      && (forall q :: q in r ==> q.1 == P(s, q.0, c) && Count(m.frequencies, c + [q.0]) > 0)
      && (forall i, j :: 0 <= i < j < |r| ==> r[i].1 >= r[j].1)
      && (n >= 0 ==> |r| == Min(n, |s.table[c]|))
      && (forall o, q :: Count(m.frequencies, c + [o]) > 0 && o !in Keys(r) && q in r ==> q.1 >= P(s, o, c))
  {
    var s := NewScheme(m);
    var d := s.table[c];
    var r := MostFrequentOutcomesOnContext(s, n, c).value;
    TableOutcomes(m, c);
    TopEntries(d, Probability, n);
    forall q | q in r ensures q.1 == P(s, q.0, c) && Count(m.frequencies, c + [q.0]) > 0 {
      var a :| 0 <= a < |d| && d[a] == q;
      ValueAt(d, a);
      assert Keys(d)[a] == q.0;
    }
    forall i, j | 0 <= i < j < |r| ensures r[i].1 >= r[j].1 {
      assert Probability(r[i]) >= Probability(r[j]);
    }
    forall o, q | Count(m.frequencies, c + [o]) > 0 && o !in Keys(r) && q in r ensures q.1 >= P(s, o, c) {
      var a :| 0 <= a < |d| && Keys(d)[a] == o;
      ValueAt(d, a);
      assert d[a] in d;
      assert Probability(q) >= Probability(d[a]);
    }
  }

  /** The padding loop of `build_assignment_table`: append each outcome not
      yet listed, stopping as soon as `n` are listed. */
  function Pad(vec: seq<nat>, outcomes: seq<nat>, n: int): seq<nat>
    decreases |outcomes|
  {
    if |outcomes| == 0 then vec
    else
      var v := if outcomes[0] in vec then vec else vec + [outcomes[0]];
      if |v| == n then v else Pad(v, outcomes[1..], n)
  }

  /** Padding a short list without repeats keeps it without repeats, keeps
      its elements, adds only offered outcomes, and stops at `n` or when
      the offered outcomes run out. */
  lemma {:induction false} PadFacts(vec: seq<nat>, outcomes: seq<nat>, n: int)
    requires NoDuplicates(vec) && |vec| < n
    ensures var r := Pad(vec, outcomes, n);
      && NoDuplicates(r)
      && Elements(vec) <= Elements(r) <= Elements(vec) + Elements(outcomes)
      && |r| == Min(n, |Elements(vec) + Elements(outcomes)|)
    decreases |outcomes|
  {
    if |outcomes| == 0 {
      DistinctCardinality(vec);
      assert Elements(vec) + Elements(outcomes) == Elements(vec);
    } else {
      var o := outcomes[0];
      var v := if o in vec then vec else vec + [o];
      PadStep(vec, outcomes);
      if |v| == n {
        DistinctCardinality(v);
        SubsetCardinality(Elements(v), Elements(vec) + Elements(outcomes));
      } else {
        PadFacts(v, outcomes[1..], n);
      }
    }
  }

  lemma PadStep(vec: seq<nat>, outcomes: seq<nat>)
    requires NoDuplicates(vec) && |outcomes| > 0
    ensures var o := outcomes[0];
      var v := if o in vec then vec else vec + [o];
      && NoDuplicates(v) && |v| <= |vec| + 1 && Elements(vec) <= Elements(v)
      && Elements(v) + Elements(outcomes[1..]) == Elements(vec) + Elements(outcomes)
  {
    var o := outcomes[0];
    var v := if o in vec then vec else vec + [o];
    assert Elements(v) == Elements(vec) + {o};
    assert Elements(outcomes) == {o} + Elements(outcomes[1..]);
  }

  /** `sorted(vec)` of lengths. */
  function SortLengths(xs: seq<nat>): (r: seq<nat>)
    ensures multiset(r) == multiset(xs) && NonDecreasing(r)
  {
    var r := SortAscending(xs);
    assert forall i :: 0 <= i < |r| ==> r[i] in multiset(xs);
    r
  }

  /** One context's entry: the keys of its top-`n` outcomes (failing when
      there are none, as `max` of an empty list does), padded from
      `outcomes` when fewer than `n`, then sorted. */
  function AssignmentEntry(s: Scheme, n: int, c: Gram, outcomes: seq<nat>): Result<seq<nat>, SchemeError>
    requires c in s.table
  {
    var mfo := MostFrequentOutcomesOnContext(s, n, c).value;
    if |mfo| == 0 then Err(EmptyMaximum)
    else
      var vec := Keys(mfo);
      Ok(SortLengths(if |vec| < n then Pad(vec, outcomes, n) else vec))
  }

  /** `build_assignment_table(n)`: one entry per seen context, padded from
      all outcomes of the model by decreasing frequency. */
  function BuildAssignmentTable(s: Scheme, n: int): (r: Result<map<Gram, seq<nat>>, SchemeError>)
  {
    var outcomes := MostFrequentOutcomes(s.model, NumberOfOutcomes(s.model));
    if EntriesDefined(s, n, outcomes) then
      Ok(map c | c in s.table :: AssignmentEntry(s, n, c, outcomes).value)
    else Err(EmptyMaximum)
  }

  /** No context's entry raises. */
  predicate EntriesDefined(s: Scheme, n: int, outcomes: seq<nat>) {
    forall c :: c in s.table ==> AssignmentEntry(s, n, c, outcomes).Ok?
  }

  /** All outcomes by decreasing frequency list the alphabet once each. */
  lemma AllOutcomes(m: Model)
    requires ValidModel(m)
    ensures var outcomes := MostFrequentOutcomes(m, NumberOfOutcomes(m));
      NoDuplicates(outcomes) && Elements(outcomes) == m.alphabet && |m.alphabet| == NumberOfOutcomes(m)
  {
    var c := m.outcomeFrequencies;
    var sorted := SortByKeyDesc(c, ItemCount);
    MostFrequentRanked(m, NumberOfOutcomes(m));
    assert Take(sorted, |c|) == sorted;
    KeysPermutationElements(c, sorted);
    DistinctCardinality(Keys(c));
  }

  /** A seen context has at least one outcome. */
  lemma SeenContextHasOutcome(m: Model, c: Gram)
    requires ValidModel(m) && c in NewScheme(m).table
    ensures |NewScheme(m).table[c]| >= 1
  {
    var t := TallyOf(m.frequencies);
    TallyHasShape(m.frequencies);
    ContextCountsPositive(t);
  }

  /** Every outcome counted after a context was fed, so is in the alphabet. */
  lemma OutcomeInAlphabet(m: Model, c: Gram, o: nat)
    requires ValidModel(m) && Count(m.frequencies, c + [o]) > 0
    ensures o in m.alphabet
  {
    var i :| 0 <= i < |m.frequencies| && Keys(m.frequencies)[i] == c + [o];
    assert o in m.frequencies[i].0;
  }

  /** The table has one entry per seen context. */
  lemma AssignmentTableKeys(s: Scheme, n: int)
    ensures BuildAssignmentTable(s, n).Ok? ==> BuildAssignmentTable(s, n).value.Keys == s.table.Keys
  {
    if BuildAssignmentTable(s, n).Ok? {
      var t := BuildAssignmentTable(s, n).value;
      forall c ensures c in t <==> c in s.table {
      }
    }
  }

  /** A seen context's entry fails exactly when its ranking keeps nothing:
      for `n == 0`, or for a negative `n` that cuts away every outcome. */
  lemma AssignmentEntryDefined(m: Model, n: int, c: Gram)
    requires ValidModel(m) && c in NewScheme(m).table
    ensures var s := NewScheme(m);
      AssignmentEntry(s, n, c, MostFrequentOutcomes(m, NumberOfOutcomes(m))).Ok? <==>
        n >= 1 || (n < 0 && |s.table[c]| > -n)
  {
    SeenContextHasOutcome(m, c);
  }

  /** `build_assignment_table(n)` succeeds for every `n >= 1`; for `n == 0`
      it fails as soon as any context was seen, and for a negative `n` as
      soon as it cuts away all outcomes of some context. */
  lemma AssignmentTableDefined(m: Model, n: int)
    requires ValidModel(m)
    ensures var s := NewScheme(m);
      var r := BuildAssignmentTable(s, n);
      && (n >= 1 ==> r.Ok?)
      && (n == 0 ==> (r.Ok? <==> |s.table| == 0))
      && (n < 0 ==> (r.Ok? <==> forall c :: c in s.table ==> |s.table[c]| > -n))
  {
    var s := NewScheme(m);
    forall c | c in s.table ensures |s.table[c]| >= 1 {
      SeenContextHasOutcome(m, c);
    }
    TableDefined(s, n);
  }

  /** The same for any scheme whose every context has an outcome. */
  lemma TableDefined(s: Scheme, n: int)
    requires forall c :: c in s.table ==> |s.table[c]| >= 1
    ensures var r := BuildAssignmentTable(s, n);
      && (n >= 1 ==> r.Ok?)
      && (n == 0 ==> (r.Ok? <==> |s.table| == 0))
      && (n < 0 ==> (r.Ok? <==> forall c :: c in s.table ==> |s.table[c]| > -n))
  {
    var outcomes := MostFrequentOutcomes(s.model, NumberOfOutcomes(s.model));
    assert BuildAssignmentTable(s, n).Ok? <==> EntriesDefined(s, n, outcomes);
    forall c | c in s.table
      ensures AssignmentEntry(s, n, c, outcomes).Ok? <==> n >= 1 || (n < 0 && |s.table[c]| > -n)
    {
      EntryDefined(s, n, c, outcomes);
    }
    if n == 0 && |s.table| > 0 {
      var c :| c in s.table.Keys;
    }
  }

  lemma EntryDefined(s: Scheme, n: int, c: Gram, outcomes: seq<nat>)
    requires c in s.table && |s.table[c]| >= 1
    ensures AssignmentEntry(s, n, c, outcomes).Ok? <==> n >= 1 || (n < 0 && |s.table[c]| > -n)
  {
  }

  /** For `n >= 1` each context's entry is strictly increasing, holds the
      context's top-`n` outcomes, lists only fed symbols, and has
      `min(n, number_of_outcomes)` of them. */
  lemma AssignmentEntryFacts(m: Model, n: int, c: Gram)
    requires ValidModel(m) && n >= 1 && c in NewScheme(m).table
    ensures var s := NewScheme(m);
      var r := AssignmentEntry(s, n, c, MostFrequentOutcomes(m, NumberOfOutcomes(m)));
      && r.Ok?
      && StrictlyIncreasing(r.value)
      && (forall q :: q in MostFrequentOutcomesOnContext(s, n, c).value ==> q.0 in r.value)
      && Elements(r.value) <= m.alphabet
      && |r.value| == Min(n, NumberOfOutcomes(m))
  {
    var s := NewScheme(m);
    SeenContextHasOutcome(m, c);
    TableOutcomes(m, c);
    AllOutcomes(m);
    forall o | o in Keys(s.table[c]) ensures o in m.alphabet {
      OutcomeInAlphabet(m, c, o);
    }
    EntryFacts(s, n, c, MostFrequentOutcomes(m, NumberOfOutcomes(m)), m.alphabet);
  }

  /** The same for any scheme and any padding list that holds each symbol
      of `alphabet` once, when the context's outcomes are listed once and
      lie in `alphabet`. */
  lemma EntryFacts(s: Scheme, n: int, c: Gram, outcomes: seq<nat>, alphabet: set<nat>)
    requires n >= 1 && c in s.table && |s.table[c]| >= 1
    requires NoDuplicates(Keys(s.table[c])) && Elements(Keys(s.table[c])) <= alphabet
    requires NoDuplicates(outcomes) && Elements(outcomes) == alphabet
    ensures var r := AssignmentEntry(s, n, c, outcomes);
      && r.Ok?
      && StrictlyIncreasing(r.value)
      && (forall q :: q in MostFrequentOutcomesOnContext(s, n, c).value ==> q.0 in r.value)
      && Elements(r.value) <= alphabet
      && |r.value| == Min(n, |alphabet|)
  {
    var mfo := MostFrequentOutcomesOnContext(s, n, c).value;
    var vec := Keys(mfo);
    TopEntries(s.table[c], Probability, n);
    assert Elements(vec) <= alphabet by {
      forall i | 0 <= i < |vec| ensures vec[i] in alphabet {
        assert mfo[i] in mfo;
        var a :| 0 <= a < |s.table[c]| && s.table[c][a] == mfo[i];
        assert Keys(s.table[c])[a] == vec[i];
      }
    }
    PaddedFacts(vec, outcomes, n, alphabet);
    forall q | q in mfo ensures q.0 in Elements(vec) {
      var i :| 0 <= i < |mfo| && mfo[i] == q;
      assert vec[i] == q.0;
    }
  }

  /** Padding then sorting a list of at most `n` distinct symbols of
      `alphabet` from a list of all of `alphabet` gives a strictly
      increasing list that keeps them, stays within `alphabet`, and has
      `min(n, |alphabet|)` symbols. */
  lemma PaddedFacts(vec: seq<nat>, outcomes: seq<nat>, n: int, alphabet: set<nat>)
    requires NoDuplicates(vec) && Elements(vec) <= alphabet && |vec| <= n
    requires NoDuplicates(outcomes) && Elements(outcomes) == alphabet
    ensures var e := SortLengths(if |vec| < n then Pad(vec, outcomes, n) else vec);
      && StrictlyIncreasing(e)
      && Elements(vec) <= Elements(e) <= alphabet
      && |e| == Min(n, |alphabet|)
  {
    var padded := if |vec| < n then Pad(vec, outcomes, n) else vec;
    if |vec| < n {
      PadFacts(vec, outcomes, n);
      assert Elements(vec) + Elements(outcomes) == alphabet;
    } else {
      DistinctCardinality(vec);
      SubsetCardinality(Elements(vec), alphabet);
    }
    var e := SortLengths(padded);
    PermutationNoDuplicates(padded, e);
    PermutationElements(padded, e);
    SortedDistinct(e);
  }

  /** The same, read from the table `build_assignment_table(n)` returns. */
  lemma AssignmentTableEntries(m: Model, n: int, c: Gram)
    requires ValidModel(m) && n >= 1 && c in NewScheme(m).table
    ensures var s := NewScheme(m);
      var r := BuildAssignmentTable(s, n);
      && r.Ok? && c in r.value
      && StrictlyIncreasing(r.value[c])
      && (forall q :: q in MostFrequentOutcomesOnContext(s, n, c).value ==> q.0 in r.value[c])
      && Elements(r.value[c]) <= m.alphabet
      && |r.value[c]| == Min(n, NumberOfOutcomes(m))
  {
    AssignmentTableDefined(m, n);
    AssignmentEntryFacts(m, n, c);
  }
}
