/** Sliding-window k-gram counting over a stream of symbols (the repository
    feeds it codeword lengths): the last k symbols form the context, each
    full window after the first is counted, and each symbol's occurrences
    are counted. */
module KGram {
  import opened Wrappers
  import opened Collections
  import opened Counters

  /** `feed` on a model with an empty context list: `pop(0)` fails. */
  datatype KGramError = EmptyWindow

  /** The model's state.
      - `window`: the symbols of the context list, which is `k - |window|`
        `None` entries followed by `window`;
      - `frequencies`: the count of each counted k-gram;
      - `outcomeFrequencies`: the count of each fed symbol. */
  datatype Model = Model(
    k: nat,
    frequencies: Counter<seq<nat>>,
    window: seq<nat>,
    isOk: bool,
    alphabet: set<nat>,
    outcomeFrequencies: Counter<nat>)

  /** A fresh model: k empty context entries and nothing counted. */
  function NewModel(k: nat): (m: Model)
    ensures m.k == k && m.window == [] && |ContextList(m)| == k
    ensures forall i :: 0 <= i < k ==> ContextList(m)[i].None?
    ensures m.frequencies == [] && m.outcomeFrequencies == [] && m.alphabet == {} && !m.isOk
  {
    Model(k, [], [], false, {}, [])
  }

  /** Python's `_context` list: `None` padding, then the symbols. */
  function ContextList(m: Model): (c: seq<Option<nat>>)
    requires |m.window| <= m.k
    ensures |c| == m.k
    ensures forall i :: 0 <= i < m.k - |m.window| ==> c[i].None?
    ensures forall i :: 0 <= i < |m.window| ==> c[m.k - |m.window| + i] == Some(m.window[i])
  {
    seq(m.k - |m.window|, _ => None) + seq(|m.window|, i requires 0 <= i < |m.window| => Some(m.window[i]))
  }

  /** `feed(symbol)`: the context drops its oldest entry and appends
      `symbol`; the symbol's count and the alphabet grow; once a previous
      feed has filled the context, the new window is counted, and the feed
      that first fills it only marks the model ready. */
  function Feed(m: Model, symbol: nat): (r: Result<Model, KGramError>)
    ensures r.Err? <==> m.k == 0
    ensures r.Ok? ==> r.value.k == m.k
  {
    if m.k == 0 then Err(EmptyWindow)
    else
      var window := if |m.window| < m.k then m.window + [symbol] else m.window[1..] + [symbol];
      var next := m.(window := window, alphabet := m.alphabet + {symbol},
                     outcomeFrequencies := Bump(m.outcomeFrequencies, symbol));
      if m.isOk then Ok(next.(frequencies := Bump(m.frequencies, window)))
      else Ok(next.(isOk := |window| == m.k))
  }

  /** `train(sample)`: `feed` on each symbol in turn, stopping at the first
      failure. */
  function Train(m: Model, sample: seq<nat>): (r: Result<Model, KGramError>)
    ensures r.Err? <==> m.k == 0 && |sample| > 0
    ensures r.Ok? ==> r.value.k == m.k
  {
    FeedEachKeepsSize(m, sample);
    FeedEach(Feed, m, sample)
  }

  /** Applies `feed` to each symbol in turn, stopping at the first failure. */
  function FeedEach(feed: (Model, nat) -> Result<Model, KGramError>, m: Model, sample: seq<nat>): Result<Model, KGramError>
    decreases |sample|
  {
    if |sample| == 0 then Ok(m)
    else
      match feed(m, sample[0])
      case Err(e) => Err(e)
      case Ok(next) => FeedEach(feed, next, sample[1..])
  }

  lemma {:induction false} FeedEachKeepsSize(m: Model, sample: seq<nat>)
    ensures FeedEach(Feed, m, sample).Err? <==> m.k == 0 && |sample| > 0
    ensures FeedEach(Feed, m, sample).Ok? ==> FeedEach(Feed, m, sample).value.k == m.k
    decreases |sample|
  {
    if |sample| > 0 && m.k > 0 {
      FeedEachKeepsSize(Feed(m, sample[0]).value, sample[1..]);
    }
  }

  /** `number_of_outcomes`: how many distinct symbols have been fed. */
  function NumberOfOutcomes(m: Model): nat {
    |m.outcomeFrequencies|
  }

  /** The count of an item, as the sort key of `most_frequent_outcomes`. */
  function ItemCount(item: (nat, nat)): real {
    item.1 as real
  }

  /** `most_frequent_outcomes(n)`: the fed symbols sorted by count, largest
      first (ties in the order first fed), cut to `[:n]`. */
  function MostFrequentOutcomes(m: Model, n: int): (r: seq<nat>)
    ensures |r| <= |m.outcomeFrequencies|
    ensures n >= 0 ==> |r| == Min(n, |m.outcomeFrequencies|)
  {
    Keys(Take(SortByKeyDesc(m.outcomeFrequencies, ItemCount), n))
  }

  function Min(a: int, b: int): int {
    if a <= b then a else b
  }

  // ---------------------------------------------------------------------
  // The reference: the state as a function of the symbols fed so far.

  /** The windows counted while feeding `h` to a fresh model: the last k
      symbols after each feed from the (k+1)-th on. */
  function Grams(h: seq<nat>, k: nat): (g: seq<seq<nat>>)
    ensures |g| == if |h| > k then |h| - k else 0
    decreases |h|
  {
    if |h| <= k then [] else Grams(h[..|h| - 1], k) + [h[|h| - k..]]
  }

  /** The state of a fresh model with window size `k` after feeding `h`,
      computed from `h` directly: the context holds the last k symbols, the
      model is ready once k symbols have been fed, the windows and symbols
      are counted in order of first appearance. */
  function Reference(k: nat, h: seq<nat>): (m: Model)
    ensures m.k == k && |m.window| <= k
  {
    Model(k, CountAll(Grams(h, k)), h[|h| - Min(k, |h|)..], |h| >= k, Elements(h), CountAll(h))
  }

  /** A fresh model is the reference state of the empty history. */
  lemma NewIsReference(k: nat)
    requires k >= 1
    ensures NewModel(k) == Reference(k, [])
  {
    assert Elements<nat>([]) == {};
  }

  /** Feeding one more symbol to the reference state of `h` gives the
      reference state of `h + [s]`. */
  lemma FeedFollowsReference(k: nat, h: seq<nat>, s: nat)
    requires k >= 1
    ensures Feed(Reference(k, h), s) == Ok(Reference(k, h + [s]))
  {
    var m := Reference(k, h);
    var r := Reference(k, h + [s]);
    var m' := Feed(m, s).value;
    assert m'.window == r.window by {
      WindowStep(h, k, s, m.window);
    }
    assert m'.alphabet == r.alphabet by {
      ElementsSnoc(h, s);
    }
    assert m'.outcomeFrequencies == r.outcomeFrequencies by {
      CountAllSnoc(h, s);
    }
    assert m'.frequencies == r.frequencies by {
      CountedWindows(m, k, h, s);
    }
  }

  lemma CountedWindows(m: Model, k: nat, h: seq<nat>, s: nat)
    requires k >= 1 && m.k == k && m.window == h[|h| - Min(k, |h|)..] && m.isOk == (|h| >= k)
    requires m.frequencies == CountAll(Grams(h, k))
    ensures Feed(m, s).Ok? && Feed(m, s).value.frequencies == CountAll(Grams(h + [s], k))
  {
    GramsSnoc(h, s, k);
    if |h| >= k {
      var w := (h + [s])[|h| + 1 - k..];
      assert m.window[1..] + [s] == w by {
        WindowStep(h, k, s, m.window);
      }
      CountAllSnoc(Grams(h, k), w);
    }
  }

  /** Feeding one more symbol counts the new window once the context is full. */
  lemma GramsSnoc(h: seq<nat>, s: nat, k: nat)
    ensures Grams(h + [s], k) == if |h| >= k then Grams(h, k) + [(h + [s])[|h| + 1 - k..]] else []
  {
    var h' := h + [s];
    assert h'[..|h'| - 1] == h;
  }

  lemma WindowStep(h: seq<nat>, k: nat, s: nat, window: seq<nat>)
    requires k >= 1 && window == h[|h| - Min(k, |h|)..]
    ensures (if |window| < k then window + [s] else window[1..] + [s]) == (h + [s])[|h| + 1 - Min(k, |h| + 1)..]
  {
  }

  lemma ElementsSnoc(h: seq<nat>, s: nat)
    ensures Elements(h + [s]) == Elements(h) + {s}
  {
  }

  /** Training the reference state of `h` on `sample` gives the reference
      state of `h + sample`. */
  lemma TrainFollowsReference(k: nat, h: seq<nat>, sample: seq<nat>)
    requires k >= 1
    ensures Train(Reference(k, h), sample) == Ok(Reference(k, h + sample))
  {
    var ref := h' => Reference(k, h');
    forall h': seq<nat>, s: nat ensures Feed(ref(h'), s) == Ok(ref(h' + [s])) {
      FeedFollowsReference(k, h', s);
    }
    TrainAlong(Feed, ref, h, sample);
  }

  /** Feeding each symbol follows any history-indexed family of states
      that each feed advances by one symbol. */
  lemma {:induction false} TrainAlong(feed: (Model, nat) -> Result<Model, KGramError>, ref: seq<nat> -> Model, h: seq<nat>, sample: seq<nat>)
    requires forall h': seq<nat>, s: nat :: feed(ref(h'), s) == Ok(ref(h' + [s]))
    ensures FeedEach(feed, ref(h), sample) == Ok(ref(h + sample))
    decreases |sample|
  {
    if |sample| == 0 {
      assert h + sample == h;
    } else {
      var h1 := h + [sample[0]];
      assert h1 + sample[1..] == h + sample;
      TrainAlong(feed, ref, h1, sample[1..]);
    }
  }

  /** Training a fresh model on `sample` gives the reference state of
      `sample`. */
  lemma TrainFresh(k: nat, sample: seq<nat>)
    requires k >= 1
    ensures Train(NewModel(k), sample) == Ok(Reference(k, sample))
  {
    NewIsReference(k);
    TrainFollowsReference(k, [], sample);
    assert [] + sample == sample;
  }

  // ---------------------------------------------------------------------
  // What a trained model holds.

  /** Each counted window is a run of k consecutive fed symbols: the i-th
      one ends with the (i + k + 1)-th symbol fed. */
  lemma {:induction false} GramWindows(h: seq<nat>, k: nat)
    ensures forall i :: 0 <= i < |Grams(h, k)| ==> Grams(h, k)[i] == h[i + 1..i + 1 + k]
    decreases |h|
  {
    if |h| > k {
      var init := h[..|h| - 1];
      GramWindows(init, k);
      forall i | 0 <= i < |Grams(h, k)| ensures Grams(h, k)[i] == h[i + 1..i + 1 + k] {
        if i < |Grams(init, k)| {
          assert init[i + 1..i + 1 + k] == h[i + 1..i + 1 + k];
        }
      }
    }
  }

  /** After `train(h)` on a fresh model: each symbol is counted as often as
      it occurs in `h`, the symbols are listed in order of first
      occurrence, and `number_of_outcomes` is the number of distinct
      symbols, which form the alphabet. */
  lemma TrainedOutcomes(k: nat, h: seq<nat>)
    requires k >= 1
    ensures Train(NewModel(k), h).Ok?
    ensures var m := Train(NewModel(k), h).value;
      && (forall x :: Count(m.outcomeFrequencies, x) == multiset(h)[x])
      && Keys(m.outcomeFrequencies) == Distinct(h)
      && NumberOfOutcomes(m) == |Elements(h)|
      && m.alphabet == Elements(h)
  {
    TrainFresh(k, h);
    forall x ensures Count(CountAll(h), x) == multiset(h)[x] {
      CountAllCounts(h, x);
    }
    CountAllKeys(h);
    CountAllSize(h);
  }

  /** After `train(h)` on a fresh model: the context holds the last k
      symbols, the model is ready once k symbols have been fed, the counted
      windows are those after each later feed, keyed in order of first
      count, and their counts add up to `max(0, |h| - k)`. */
  lemma TrainedGrams(k: nat, h: seq<nat>)
    requires k >= 1
    ensures Train(NewModel(k), h).Ok?
    ensures var m := Train(NewModel(k), h).value;
      && m.window == h[|h| - Min(k, |h|)..]
      && (m.isOk <==> |h| >= k)
      && Keys(m.frequencies) == Distinct(Grams(h, k))
      && (forall g :: Count(m.frequencies, g) == multiset(Grams(h, k))[g])
      && Total(m.frequencies) == (if |h| > k then |h| - k else 0)
  {
    TrainFresh(k, h);
    var g := Grams(h, k);
    forall x ensures Count(CountAll(g), x) == multiset(g)[x] {
      CountAllCounts(g, x);
    }
    CountAllKeys(g);
    CountAllWellCounted(g);
  }

  /** The feed that first fills the context is not counted: after exactly
      k symbols the model is ready but has counted nothing. */
  lemma FirstWindowNotCounted(k: nat, h: seq<nat>)
    requires k >= 1 && |h| == k
    ensures Train(NewModel(k), h).Ok?
    ensures Train(NewModel(k), h).value.isOk && Train(NewModel(k), h).value.frequencies == []
  {
    TrainFresh(k, h);
  }

  /** What every model built by `feed` satisfies: a positive window size,
      a context no longer than it, both counters keyed once with positive
      counts, the alphabet is the set of counted symbols, and every counted
      window is k symbols of the alphabet. */
  ghost predicate ValidModel(m: Model) {
    && m.k >= 1 && |m.window| <= m.k
    && WellCounted(m.outcomeFrequencies) && WellCounted(m.frequencies)
    && m.alphabet == Elements(Keys(m.outcomeFrequencies))
    && forall i :: 0 <= i < |m.frequencies| ==>
         |m.frequencies[i].0| == m.k && Elements(m.frequencies[i].0) <= m.alphabet
  }

  /** Every trained model is valid. */
  lemma TrainedValid(k: nat, h: seq<nat>)
    requires k >= 1
    ensures Train(NewModel(k), h).Ok? && ValidModel(Train(NewModel(k), h).value)
  {
    TrainFresh(k, h);
    ReferenceValid(k, h);
  }

  lemma ReferenceValid(k: nat, h: seq<nat>)
    requires k >= 1
    ensures ValidModel(Reference(k, h))
  {
    var m := Reference(k, h);
    var g := Grams(h, k);
    CountAllWellCounted(h);
    CountAllWellCounted(g);
    CountAllKeys(h);
    CountAllKeys(g);
    GramsInAlphabet(h, k);
    forall i | 0 <= i < |m.frequencies| ensures |m.frequencies[i].0| == k && Elements(m.frequencies[i].0) <= m.alphabet {
      assert Keys(m.frequencies)[i] in Elements(Distinct(g));
      var a :| 0 <= a < |g| && g[a] == m.frequencies[i].0;
    }
  }

  /** Every counted window is k symbols that were fed. */
  lemma GramsInAlphabet(h: seq<nat>, k: nat)
    ensures forall i :: 0 <= i < |Grams(h, k)| ==> |Grams(h, k)[i]| == k && Elements(Grams(h, k)[i]) <= Elements(h)
  {
    GramWindows(h, k);
    forall i, x | 0 <= i < |Grams(h, k)| && x in Grams(h, k)[i] ensures x in Elements(h) {
      var a :| 0 <= a < k && h[i + 1..i + 1 + k][a] == x;
      assert h[i + 1 + a] == x;
    }
  }

  /** `most_frequent_outcomes(n)` lists fed symbols, each once, in
      non-increasing count, and no symbol left out has a larger count than
      one listed. */
  lemma MostFrequentRanked(m: Model, n: int)
    requires WellCounted(m.outcomeFrequencies)
    ensures var r := MostFrequentOutcomes(m, n);
      var c := m.outcomeFrequencies;
      && NoDuplicates(r)
      && (forall x :: x in r ==> x in Keys(c))
      && (forall i, j :: 0 <= i < j < |r| ==> Count(c, r[i]) >= Count(c, r[j]))
      && (forall x, y :: x in Keys(c) && x !in r && y in r ==> Count(c, y) >= Count(c, x))
  {
    RankedByCount(m.outcomeFrequencies, n);
  }

  lemma RankedByCount(c: Counter<nat>, n: int)
    requires WellCounted(c)
    ensures var r := Keys(Take(SortByKeyDesc(c, ItemCount), n));
      && NoDuplicates(r)
      && (forall x :: x in r ==> x in Keys(c))
      && (forall i, j :: 0 <= i < j < |r| ==> Count(c, r[i]) >= Count(c, r[j]))
      && (forall x, y :: x in Keys(c) && x !in r && y in r ==> Count(c, y) >= Count(c, x))
  {
    var t := Take(SortByKeyDesc(c, ItemCount), n);
    var r := Keys(t);
    TopEntries(c, ItemCount, n);
    forall q | q in t ensures q.1 == Count(c, q.0) && q.0 in Keys(c) {
      var a :| 0 <= a < |c| && c[a] == q;
      CountAt(c, a);
    }
    forall i, j | 0 <= i < j < |r| ensures Count(c, r[i]) >= Count(c, r[j]) {
      assert t[i] in t && t[j] in t;
      assert ItemCount(t[i]) >= ItemCount(t[j]);
    }
    forall x, y | x in Keys(c) && x !in r && y in r ensures Count(c, y) >= Count(c, x) {
      var a :| 0 <= a < |c| && Keys(c)[a] == x;
      CountAt(c, a);
      var b :| 0 <= b < |t| && r[b] == y;
      assert t[b] in t;
      assert ItemCount(t[b]) >= ItemCount(c[a]);
    }
  }
}
