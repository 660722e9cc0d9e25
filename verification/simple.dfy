/** The simple probabilistic scheme: a list of outcomes (codeword lengths)
    with a parallel list of probabilities, ranked by probability. */
module SimpleScheme {
  import opened Wrappers
  import opened Collections
  import opened Counters

  datatype SimpleError =
    | IndexOutOfRange  // `probabilities[i]` past the end: IndexError
    | TooMany          // more outcomes asked for than there are: ValueError

  datatype Scheme = Scheme(outcomes: seq<int>, probabilities: seq<real>)

  /** `xs.index(x)`: the first position holding `x`. */
  function IndexOf(xs: seq<int>, x: int): (i: nat)
    requires x in xs
    ensures i < |xs| && xs[i] == x && x !in xs[..i]
  {
    if xs[0] == x then 0
    else
      var i := 1 + IndexOf(xs[1..], x);
      assert xs[..i] == [xs[0]] + xs[1..][..i - 1];
      i
  }

  /** `p(outcome)`: the probability at the first position of the outcome,
      0 for an outcome not listed. */
  function P(s: Scheme, o: int): (r: Result<real, SimpleError>)
    ensures o !in s.outcomes ==> r == Ok(0.0)
  {
    if o in s.outcomes then
      var i := IndexOf(s.outcomes, o);
      if i < |s.probabilities| then Ok(s.probabilities[i]) else Err(IndexOutOfRange)
    else Ok(0.0)
  }

  /** The probability of a listed outcome is the one paired with its first
      occurrence; it is undefined when that position has no probability. */
  lemma PAtFirstOccurrence(s: Scheme, i: nat)
    requires i < |s.outcomes| && s.outcomes[i] !in s.outcomes[..i]
    ensures P(s, s.outcomes[i]) == if i < |s.probabilities| then Ok(s.probabilities[i]) else Err(IndexOutOfRange)
  {
  }

  /** The `(outcome, p(outcome))` pairs in list order, or the error the
      first undefined probability raises. */
  function Scores(s: Scheme): (r: Result<seq<(int, real)>, SimpleError>)
    ensures r.Ok? ==> |r.value| == |s.outcomes|
  {
    if forall i :: 0 <= i < |s.outcomes| ==> P(s, s.outcomes[i]).Ok? then
      Ok(seq(|s.outcomes|, i requires 0 <= i < |s.outcomes| => (s.outcomes[i], P(s, s.outcomes[i]).value)))
    else Err(IndexOutOfRange)
  }

  /** Scoring succeeds exactly when every outcome's first position has a
      probability; in particular whenever there are as many probabilities
      as outcomes. */
  lemma ScoresDefined(s: Scheme)
    ensures Scores(s).Ok? <==> forall i :: 0 <= i < |s.outcomes| ==> IndexOf(s.outcomes, s.outcomes[i]) < |s.probabilities|
    ensures |s.probabilities| >= |s.outcomes| ==> Scores(s).Ok?
  {
  }

  function Score(item: (int, real)): real {
    item.1
  }

  /** `get_top(n)`: the outcomes sorted by probability, largest first (ties
      in list order), cut to `[:n]`; more than there are is an error. */
  function GetTop(s: Scheme, n: int): (r: Result<seq<int>, SimpleError>)
    ensures Scores(s).Err? ==> r == Err(IndexOutOfRange)
    ensures Scores(s).Ok? ==> (r == Err(TooMany) <==> n > |s.outcomes|)
  {
    match Scores(s)
    case Err(e) => Err(e)
    case Ok(items) =>
      var sorted := SortByKeyDesc(items, Score);
      if n > |sorted| then Err(TooMany) else Ok(Keys(Take(sorted, n)))
  }

  /** A successful `get_top(n)` lists `n` outcomes (for a negative `n`, all
      but the last `-n`), each one listed in the scheme, in non-increasing
      probability, and no outcome left out is more probable than one kept. */
  lemma GetTopRanked(s: Scheme, n: int)
    requires GetTop(s, n).Ok?
    ensures var r := GetTop(s, n).value;
      && (n >= 0 ==> |r| == n)
      && (n < 0 ==> |r| == if |s.outcomes| + n >= 0 then |s.outcomes| + n else 0)
      && (forall x :: x in r ==> x in s.outcomes && P(s, x).Ok?)
      && (forall i, j :: 0 <= i < j < |r| ==> P(s, r[i]).value >= P(s, r[j]).value)
      && (forall o, x :: o in s.outcomes && o !in r && x in r ==> P(s, x).value >= P(s, o).value)
  {
    var items := Scores(s).value;
    var r := GetTop(s, n).value;
    assert r == Keys(Take(SortByKeyDesc(items, Score), n));
    ScoresKeyed(s);
    RankedKeys(s, items, n);
    forall x | x in r ensures x in s.outcomes && P(s, x).Ok? {
      OutcomeScored(s, x);
    }
    forall i, j | 0 <= i < j < |r| ensures P(s, r[i]).value >= P(s, r[j]).value {
      OutcomeScored(s, r[i]);
      OutcomeScored(s, r[j]);
    }
    forall o, x | o in s.outcomes && o !in r && x in r ensures P(s, x).value >= P(s, o).value {
      OutcomeScored(s, o);
      OutcomeScored(s, x);
    }
  }

  lemma OutcomeScored(s: Scheme, x: int)
    requires Scores(s).Ok? && x in s.outcomes
    ensures P(s, x).Ok? && ScoreOf(s, x) == P(s, x).value
  {
    var i :| 0 <= i < |s.outcomes| && s.outcomes[i] == x;
  }

  /** The probability of an outcome, 0 where it is undefined. */
  function ScoreOf(s: Scheme, o: int): real {
    if P(s, o).Ok? then P(s, o).value else 0.0
  }

  lemma ScoresKeyed(s: Scheme)
    requires Scores(s).Ok?
    ensures Keys(Scores(s).value) == s.outcomes
    ensures forall q :: q in Scores(s).value ==> q.1 == ScoreOf(s, q.0) && P(s, q.0).Ok?
  {
    var items := Scores(s).value;
    assert Keys(items) == s.outcomes;
    forall q | q in items ensures q.1 == ScoreOf(s, q.0) && P(s, q.0).Ok? {
      var a :| 0 <= a < |items| && items[a] == q;
    }
  }

  /** Sorting `(key, value)` pairs whose values follow `v` and cutting to
      `[:n]` keeps keys of the list in non-increasing `v`, and no key left
      out has a larger `v` than one kept. */
  lemma RankedKeys(s: Scheme, items: seq<(int, real)>, n: int)
    requires forall q :: q in items ==> q.1 == ScoreOf(s, q.0)
    ensures var r := Keys(Take(SortByKeyDesc(items, Score), n));
      && (forall x :: x in r ==> x in Keys(items))
      && (forall i, j :: 0 <= i < j < |r| ==> ScoreOf(s, r[i]) >= ScoreOf(s, r[j]))
      && (forall o, x :: o in Keys(items) && o !in r && x in r ==> ScoreOf(s, x) >= ScoreOf(s, o))
  {
    var sorted := SortByKeyDesc(items, Score);
    var t := Take(sorted, n);
    var r := Keys(t);
    forall q | q in t ensures q in items && q.1 == ScoreOf(s, q.0) {
      assert q in multiset(sorted);
    }
    forall x | x in r ensures x in Keys(items) {
      var b :| 0 <= b < |t| && r[b] == x;
      assert t[b] in t;
      var a :| 0 <= a < |items| && items[a] == t[b];
      assert Keys(items)[a] == x;
    }
    forall i, j | 0 <= i < j < |r| ensures ScoreOf(s, r[i]) >= ScoreOf(s, r[j]) {
      assert t[i] in t && t[j] in t;
      assert Score(sorted[i]) >= Score(sorted[j]);
    }
    forall o, x | o in Keys(items) && o !in r && x in r ensures ScoreOf(s, x) >= ScoreOf(s, o) {
      var a :| 0 <= a < |items| && Keys(items)[a] == o;
      assert items[a] in multiset(sorted);
      var b :| 0 <= b < |t| && r[b] == x;
      assert t[b] in t;
      assert items[a] !in t;
      TopOfSorted(sorted, Score, |t|, items[a]);
      assert sorted[..|t|] == t;
    }
  }
}
