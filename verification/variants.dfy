/** Candidate length vectors from a list of codeword lengths: sums of j
    lengths drawn with repetition, the baseline (the n smallest sums at the
    first level that offers n), the sums reachable within r codewords, and
    the sorted w-element subsets of those sums. */
module Variants {
  import opened Wrappers
  import opened Collections

  /** The errors `_for_future` and `generate_v_set` raise. */
  datatype VariantsError =
    | CombDomain     // `math.comb(len(lengths) + r - 1, r)` with a negative argument: ValueError
    | NegativeWidth  // `combinations(variants, w)` with `w < 0`: ValueError

  /** `_get_j_set(j)`: 0 for no length, otherwise each length added to
      each sum of `j - 1` lengths. */
  function JSet(lengths: seq<nat>, j: nat): set<int>
    decreases j
  {
    if j == 0 then {0} else AddEach(JSet(lengths, j - 1), lengths)
  }

  /** Every length in `lengths` added to every member of `s`. */
  function AddEach(s: set<int>, lengths: seq<nat>): set<int>
    decreases |lengths|
  {
    if |lengths| == 0 then {} else Shift(s, lengths[0]) + AddEach(s, lengths[1..])
  }

  function Shift(s: set<int>, l: int): set<int> {
    set y | y in s :: l + y
  }

  /** `x` is some length added to some member of `s`. */
  lemma {:induction false} AddEachMember(s: set<int>, lengths: seq<nat>, x: int)
    ensures x in AddEach(s, lengths) <==> exists i :: 0 <= i < |lengths| && x - lengths[i] in s
    decreases |lengths|
  {
    if |lengths| > 0 {
      AddEachMember(s, lengths[1..], x);
      assert x in Shift(s, lengths[0]) <==> x - lengths[0] in s by {
        if x - lengths[0] in s {
          assert x == lengths[0] + (x - lengths[0]);
        }
      }
      if exists i :: 0 <= i < |lengths| && x - lengths[i] in s {
        var i :| 0 <= i < |lengths| && x - lengths[i] in s;
        if i > 0 {
          assert lengths[1..][i - 1] == lengths[i];
        }
      }
      if exists i :: 0 <= i < |lengths[1..]| && x - lengths[1..][i] in s {
        var i :| 0 <= i < |lengths[1..]| && x - lengths[1..][i] in s;
        assert lengths[i + 1] == lengths[1..][i];
      }
    }
  }

  /** A list of positions into `lengths`. */
  predicate Indices(lengths: seq<nat>, c: seq<nat>) {
    forall i :: 0 <= i < |c| ==> c[i] < |lengths|
  }

  /** The sum of the lengths at the positions `c`. */
  function Val(lengths: seq<nat>, c: seq<nat>): int
    requires Indices(lengths, c)
  {
    if |c| == 0 then 0 else lengths[c[0]] + Val(lengths, c[1..])
  }

  /** Every sum of `|c|` lengths is in the j-set. */
  lemma {:induction false} ValInJSet(lengths: seq<nat>, c: seq<nat>)
    requires Indices(lengths, c)
    ensures Val(lengths, c) in JSet(lengths, |c|)
    decreases |c|
  {
    if |c| > 0 {
      ValInJSet(lengths, c[1..]);
      AddEachMember(JSet(lengths, |c| - 1), lengths, Val(lengths, c));
      assert Val(lengths, c) - lengths[c[0]] in JSet(lengths, |c| - 1);
    }
  }

  /** Every member of the j-set is a sum of `j` lengths. */
  lemma {:induction false} JSetWitness(lengths: seq<nat>, j: nat, x: int)
    requires x in JSet(lengths, j)
    ensures exists c :: |c| == j && Indices(lengths, c) && Val(lengths, c) == x
    decreases j
  {
    if j == 0 {
      var c: seq<nat> := [];
      assert |c| == j && Indices(lengths, c) && Val(lengths, c) == x;
    } else {
      AddEachMember(JSet(lengths, j - 1), lengths, x);
      var i :| 0 <= i < |lengths| && x - lengths[i] in JSet(lengths, j - 1);
      JSetWitness(lengths, j - 1, x - lengths[i]);
      var d :| |d| == j - 1 && Indices(lengths, d) && Val(lengths, d) == x - lengths[i];
      var c := [i] + d;
      assert c[1..] == d;
      assert |c| == j && Indices(lengths, c) && Val(lengths, c) == x;
    }
  }

  /** The j-set is exactly the set of sums of `j` lengths, repetition
      allowed. */
  lemma JSetIsSums(lengths: seq<nat>, j: nat, x: int)
    ensures x in JSet(lengths, j) <==> exists c :: |c| == j && Indices(lengths, c) && Val(lengths, c) == x
  {
    if x in JSet(lengths, j) {
      JSetWitness(lengths, j, x);
    } else {
      forall c | |c| == j && Indices(lengths, c) ensures Val(lengths, c) != x {
        ValInJSet(lengths, c);
      }
    }
  }

  /** One length each: the 1-set is the set of lengths. */
  lemma JSetOne(lengths: seq<nat>)
    ensures JSet(lengths, 1) == Elements(lengths)
  {
    forall x ensures x in JSet(lengths, 1) <==> x in Elements(lengths) {
      AddEachMember({0}, lengths, x);
    }
  }

  /** The union of the j-sets for `1 <= k <= j`. */
  function UnionUpTo(lengths: seq<nat>, j: int): set<int>
    decreases if j <= 0 then 0 else j
  {
    if j <= 0 then {} else UnionUpTo(lengths, j - 1) + JSet(lengths, j)
  }

  /** The union up to `j` holds exactly the sums of between 1 and `j`
      lengths. */
  lemma {:induction false} UnionIsLevels(lengths: seq<nat>, j: int, x: int)
    ensures x in UnionUpTo(lengths, j) <==> exists k :: 1 <= k <= j && x in JSet(lengths, k)
    decreases if j <= 0 then 0 else j
  {
    if j > 0 {
      UnionIsLevels(lengths, j - 1, x);
      assert UnionUpTo(lengths, j) == UnionUpTo(lengths, j - 1) + JSet(lengths, j);
      var top: nat := j;
      if x in JSet(lengths, top) {
        assert exists k :: 1 <= k <= j && x in JSet(lengths, k) by {
          assert 1 <= top <= j && x in JSet(lengths, top);
        }
      } else {
        forall k | 1 <= k <= j && x in JSet(lengths, k) ensures k <= j - 1 {
        }
      }
    }
  }

  /** Some length is positive: then every level adds a new, larger sum. */
  predicate HasPositive(lengths: seq<nat>) {
    exists i :: 0 <= i < |lengths| && lengths[i] >= 1
  }

  /** `k` copies of `l` added up. */
  function Times(k: nat, l: int): int {
    if k == 0 then 0 else Times(k - 1, l) + l
  }

  /** The sums `l, 2l, ..., jl`. */
  function Multiples(k: nat, l: int): set<int> {
    if k == 0 then {} else Multiples(k - 1, l) + {Times(k, l)}
  }

  lemma {:induction false} TimesInJSet(lengths: seq<nat>, k: nat, l: nat)
    requires l in lengths
    ensures Times(k, l) in JSet(lengths, k)
    decreases k
  {
    if k > 0 {
      TimesInJSet(lengths, k - 1, l);
      AddEachMember(JSet(lengths, k - 1), lengths, Times(k, l));
      var i :| 0 <= i < |lengths| && lengths[i] == l;
    }
  }

  lemma {:induction false} MultiplesBelow(k: nat, l: nat)
    requires l >= 1
    ensures |Multiples(k, l)| == k
    ensures forall x :: x in Multiples(k, l) ==> x <= Times(k, l)
    decreases k
  {
    if k > 0 {
      MultiplesBelow(k - 1, l);
      assert Times(k, l) !in Multiples(k - 1, l);
    }
  }

  lemma {:induction false} MultiplesInUnion(lengths: seq<nat>, k: nat, l: nat)
    requires l in lengths
    ensures Multiples(k, l) <= UnionUpTo(lengths, k)
    decreases k
  {
    if k > 0 {
      MultiplesInUnion(lengths, k - 1, l);
      TimesInJSet(lengths, k, l);
    }
  }

  /** With a positive length the union up to `j` has at least `j` sums. */
  lemma UnionLarge(lengths: seq<nat>, j: int)
    requires HasPositive(lengths)
    ensures |UnionUpTo(lengths, j)| >= j
  {
    if j > 0 {
      var i :| 0 <= i < |lengths| && lengths[i] >= 1;
      MultiplesBelow(j, lengths[i]);
      MultiplesInUnion(lengths, j, lengths[i]);
      SubsetCardinality(Multiples(j, lengths[i]), UnionUpTo(lengths, j));
    }
  }

  /** `get_baseline_set(n, j)`: raise `j` until the union up to `j` has `n`
      sums, then its `n` smallest in order. The search stops when some
      length is positive, or at once when the union already suffices. */
  function BaselineSet(lengths: seq<nat>, n: int, j: int): seq<int>
    requires n <= |UnionUpTo(lengths, j)| || HasPositive(lengths)
    decreases n - j
  {
    var result := UnionUpTo(lengths, j);
    if |result| < n then
      UnionLarge(lengths, j);
      BaselineSet(lengths, n, j + 1)
    else Take(SetToSorted(result), n)
  }

  /** The first level from `j` on whose union has `n` sums. */
  ghost function Level(lengths: seq<nat>, n: int, j: int): (level: int)
    requires n <= |UnionUpTo(lengths, j)| || HasPositive(lengths)
    ensures level >= j && |UnionUpTo(lengths, level)| >= n
    ensures forall i :: j <= i < level ==> |UnionUpTo(lengths, i)| < n
    decreases n - j
  {
    if |UnionUpTo(lengths, j)| < n then
      UnionLarge(lengths, j);
      Level(lengths, n, j + 1)
    else j
  }

  /** The baseline is the `n` smallest sums of the first level that has
      `n`: strictly increasing, `n` of them (for `n >= 0`), and no sum of
      that level left out is smaller than one kept. */
  lemma {:induction false} BaselineIsSmallest(lengths: seq<nat>, n: int, j: int)
    requires n <= |UnionUpTo(lengths, j)| || HasPositive(lengths)
    ensures var r := BaselineSet(lengths, n, j);
      var u := UnionUpTo(lengths, Level(lengths, n, j));
      && StrictlyIncreasing(r)
      && (n >= 0 ==> |r| == n)
      && Elements(r) <= u
      && (forall x, y :: x in u && x !in r && y in r ==> y < x)
    decreases n - j
  {
    if |UnionUpTo(lengths, j)| < n {
      UnionLarge(lengths, j);
      BaselineIsSmallest(lengths, n, j + 1);
    } else {
      Smallest(UnionUpTo(lengths, j), n);
    }
  }

  /** The first `n` of a set in ascending order are its `n` smallest. */
  lemma Smallest(s: set<int>, n: int)
    requires n <= |s|
    ensures var r := Take(SetToSorted(s), n);
      && StrictlyIncreasing(r)
      && (n >= 0 ==> |r| == n)
      && Elements(r) <= s
      && (forall x, y :: x in s && x !in r && y in r ==> y < x)
  {
    var sorted := SetToSorted(s);
    var r := Take(sorted, n);
    forall x | x in s && x !in r ensures forall y :: y in r ==> y < x {
      assert x in Elements(sorted);
      PrefixBelow(sorted, |r|, x);
    }
  }

  /** With at least `n` distinct lengths the baseline from level 1 is the
      `n` smallest distinct lengths. */
  lemma BaselineFromLengths(lengths: seq<nat>, n: int)
    requires n <= |Elements(lengths)|
    ensures UnionUpTo(lengths, 1) == Elements(lengths)
    ensures var r := BaselineSet(lengths, n, 1);
      && StrictlyIncreasing(r)
      && (n >= 0 ==> |r| == n)
      && Elements(r) <= Elements(lengths)
      && (forall l, y :: l in lengths && l !in r && y in r ==> y < l)
  {
    JSetOne(lengths);
    assert UnionUpTo(lengths, 0) == {};
    Smallest(Elements(lengths), n);
  }

  // ---------------------------------------------------------------------
  // `_for_future(r)`: the running sums of every r-multiset of lengths.

  /** `[x] + c` for each `c`. */
  function Prepend<T>(x: T, cs: seq<seq<T>>): (r: seq<seq<T>>)
    ensures |r| == |cs| && forall i :: 0 <= i < |cs| ==> r[i] == [x] + cs[i]
  {
    seq(|cs|, i requires 0 <= i < |cs| => [x] + cs[i])
  }

  /** Every position of `c` lies in `[lo, n)`. */
  predicate Within(c: seq<nat>, lo: nat, n: nat) {
    forall i :: 0 <= i < |c| ==> lo <= c[i] < n
  }

  /** `combinations_with_replacement` over positions `lo .. n - 1`, drawing
      `r`: the non-decreasing position lists in lexicographic order. */
  function Cwr(n: nat, lo: nat, r: nat): seq<seq<nat>>
    decreases r, n - lo
  {
    if r == 0 then [[]]
    else if lo >= n then []
    else Prepend(lo, Cwr(n, lo, r - 1)) + Cwr(n, lo + 1, r)
  }

  /** Every list drawn has `r` positions in `[lo, n)`, in non-decreasing
      order. */
  lemma {:induction false} CwrSound(n: nat, lo: nat, r: nat, c: seq<nat>)
    requires c in Cwr(n, lo, r)
    ensures |c| == r && NonDecreasing(c) && Within(c, lo, n)
    decreases r, n - lo
  {
    if r > 0 && lo < n {
      var first := Prepend(lo, Cwr(n, lo, r - 1));
      CwrStep(n, lo, r, c);
      if c in first {
        PrependInverse(lo, Cwr(n, lo, r - 1), c);
        CwrSound(n, lo, r - 1, c[1..]);
        ConsLow(lo, c[1..], n);
        assert c == [lo] + c[1..];
      } else {
        CwrSound(n, lo + 1, r, c);
      }
    }
  }

  lemma ConsLow(lo: nat, d: seq<nat>, n: nat)
    requires lo < n && NonDecreasing(d) && Within(d, lo, n)
    ensures NonDecreasing([lo] + d) && Within([lo] + d, lo, n)
  {
    var c := [lo] + d;
    forall i, j | 0 <= i < j < |c| ensures c[i] <= c[j] {
      if i > 0 {
        assert c[i] == d[i - 1] && c[j] == d[j - 1];
      }
    }
  }

  /** Every non-decreasing list of `r` positions in `[lo, n)` is drawn. */
  lemma {:induction false} CwrComplete(n: nat, lo: nat, c: seq<nat>)
    requires NonDecreasing(c) && Within(c, lo, n)
    ensures c in Cwr(n, lo, |c|)
    decreases |c|, n - lo
  {
    if |c| > 0 {
      if c[0] == lo {
        TailOrdered(c, lo, n);
        CwrComplete(n, lo, c[1..]);
        CwrHead(n, lo, c);
      } else {
        RaiseLow(c, lo, n);
        CwrComplete(n, lo + 1, c);
        CwrStep(n, lo, |c|, c);
      }
    }
  }

  lemma TailOrdered(c: seq<nat>, lo: nat, n: nat)
    requires |c| > 0 && NonDecreasing(c) && Within(c, lo, n)
    ensures NonDecreasing(c[1..]) && Within(c[1..], c[0], n)
  {
    forall i | 0 <= i < |c| - 1 ensures c[0] <= c[1..][i] < n {
      assert c[1..][i] == c[i + 1];
    }
  }

  lemma RaiseLow(c: seq<nat>, lo: nat, n: nat)
    requires |c| > 0 && NonDecreasing(c) && Within(c, lo, n) && c[0] != lo
    ensures Within(c, lo + 1, n)
  {
  }

  /** One step of the recursion: lists starting at `lo`, then the rest. */
  lemma CwrStep(n: nat, lo: nat, r: nat, c: seq<nat>)
    requires r > 0 && lo < n
    ensures c in Cwr(n, lo, r) <==> c in Prepend(lo, Cwr(n, lo, r - 1)) || c in Cwr(n, lo + 1, r)
  {
  }

  /** A list starting at `lo` is drawn once its tail is. */
  lemma CwrHead(n: nat, lo: nat, c: seq<nat>)
    requires |c| > 0 && c[0] == lo < n && c[1..] in Cwr(n, lo, |c| - 1)
    ensures c in Cwr(n, lo, |c|)
  {
    var rest := Cwr(n, lo, |c| - 1);
    var i := IndexIn(c[1..], rest);
    PrependMember(lo, rest, i);
    assert [lo] + c[1..] == c;
    CwrStep(n, lo, |c|, c);
  }

  lemma PrependInverse<T>(x: T, cs: seq<seq<T>>, c: seq<T>)
    requires c in Prepend(x, cs)
    ensures |c| > 0 && c[0] == x && c[1..] in cs
  {
    var i :| 0 <= i < |cs| && Prepend(x, cs)[i] == c;
    assert c[1..] == cs[i];
  }

  lemma PrependMember<T>(x: T, cs: seq<seq<T>>, i: nat)
    requires i < |cs|
    ensures [x] + cs[i] in Prepend(x, cs)
  {
    assert Prepend(x, cs)[i] == [x] + cs[i];
  }

  /** A position of a member of a sequence. */
  function IndexIn<T(==)>(x: T, xs: seq<T>): (i: nat)
    requires x in xs
    ensures i < |xs| && xs[i] == x
  {
    if xs[0] == x then 0 else 1 + IndexIn(x, xs[1..])
  }

  /** `np.cumsum(c)` as a set: the sums of the lengths at each non-empty
      prefix of the positions. */
  function RunningSums(lengths: seq<nat>, c: seq<nat>): set<int>
    requires Indices(lengths, c)
    decreases |c|
  {
    if |c| == 0 then {} else RunningSums(lengths, c[..|c| - 1]) + {Val(lengths, c)}
  }

  lemma {:induction false} RunningSumsMember(lengths: seq<nat>, c: seq<nat>, x: int)
    requires Indices(lengths, c)
    ensures x in RunningSums(lengths, c) <==> exists k :: 1 <= k <= |c| && Val(lengths, c[..k]) == x
    decreases |c|
  {
    if |c| > 0 {
      var init := c[..|c| - 1];
      RunningSumsMember(lengths, init, x);
      assert forall k :: 1 <= k <= |init| ==> init[..k] == c[..k];
      assert c[..|c|] == c;
    }
  }

  /** The running sums of every list in `combos`, collected. */
  function SumsOver(lengths: seq<nat>, combos: seq<seq<nat>>): set<int>
    requires forall i :: 0 <= i < |combos| ==> Indices(lengths, combos[i])
    decreases |combos|
  {
    if |combos| == 0 then {}
    else SumsOver(lengths, combos[..|combos| - 1]) + RunningSums(lengths, combos[|combos| - 1])
  }

  lemma {:induction false} SumsOverMember(lengths: seq<nat>, combos: seq<seq<nat>>, x: int)
    requires forall i :: 0 <= i < |combos| ==> Indices(lengths, combos[i])
    ensures x in SumsOver(lengths, combos) <==> exists i :: 0 <= i < |combos| && x in RunningSums(lengths, combos[i])
    decreases |combos|
  {
    if |combos| > 0 {
      var init := combos[..|combos| - 1];
      SumsOverMember(lengths, init, x);
      assert forall i :: 0 <= i < |init| ==> init[i] == combos[i];
    }
  }

  /** The running sums of every list of `r` positions drawn with
      replacement: the loop of `_for_future(r)`. */
  function FutureSums(lengths: seq<nat>, r: nat): set<int> {
    var combos := Cwr(|lengths|, 0, r);
    assert forall i :: 0 <= i < |combos| ==> Indices(lengths, combos[i]) by {
      forall i | 0 <= i < |combos| ensures Indices(lengths, combos[i]) {
        CwrSound(|lengths|, 0, r, combos[i]);
      }
    }
    SumsOver(lengths, combos)
  }

  /** Inserts position `i` before the first larger-or-equal position. */
  function InsertIndex(i: nat, e: seq<nat>): (r: seq<nat>)
    ensures |r| == |e| + 1 && forall x :: x in r ==> x == i || x in e
  {
    if |e| == 0 || i <= e[0] then [i] + e else [e[0]] + InsertIndex(i, e[1..])
  }

  /** Inserting keeps a position list ordered and adds one length to its
      sum. */
  lemma {:induction false} InsertIndexFacts(lengths: seq<nat>, i: nat, e: seq<nat>)
    requires i < |lengths| && Indices(lengths, e) && NonDecreasing(e)
    ensures var r := InsertIndex(i, e);
      Indices(lengths, r) && NonDecreasing(r) && Val(lengths, r) == lengths[i] + Val(lengths, e)
    decreases |e|
  {
    if |e| > 0 && i > e[0] {
      InsertIndexFacts(lengths, i, e[1..]);
      var r := InsertIndex(i, e);
      assert r[1..] == InsertIndex(i, e[1..]);
      forall a | 0 < a < |r| ensures e[0] <= r[a] {
        assert r[a] in r[1..];
      }
    }
  }

  /** Insertion sort of a position list. */
  function SortIndices(d: seq<nat>): (e: seq<nat>)
    ensures |e| == |d|
  {
    if |d| == 0 then [] else InsertIndex(d[0], SortIndices(d[1..]))
  }

  /** Sorting positions keeps them positions and keeps their sum. */
  lemma {:induction false} SortIndicesFacts(lengths: seq<nat>, d: seq<nat>)
    requires Indices(lengths, d)
    ensures var e := SortIndices(d);
      Indices(lengths, e) && NonDecreasing(e) && Val(lengths, e) == Val(lengths, d)
    decreases |d|
  {
    if |d| > 0 {
      SortIndicesFacts(lengths, d[1..]);
      InsertIndexFacts(lengths, d[0], SortIndices(d[1..]));
    }
  }

  /** A sum of `k` lengths, `1 <= k <= r`, is a running sum of some drawn
      list of `r` positions: sort its positions and repeat the last. */
  lemma SumIsRunningSum(lengths: seq<nat>, r: nat, d: seq<nat>) returns (c: seq<nat>)
    requires 1 <= |d| <= r && Indices(lengths, d)
    ensures c in Cwr(|lengths|, 0, r) && Indices(lengths, c)
    ensures Val(lengths, d) in RunningSums(lengths, c)
  {
    var e := SortIndices(d);
    SortIndicesFacts(lengths, d);
    c := PadWithLast(e, r, |lengths|);
    CwrComplete(|lengths|, 0, c);
    RunningSumsMember(lengths, c, Val(lengths, d));
    assert Val(lengths, c[..|e|]) == Val(lengths, d);
  }

  /** Repeating the last position of an ordered position list up to `r`
      positions keeps it ordered and keeps it as a prefix. */
  lemma PadWithLast(e: seq<nat>, r: nat, n: nat) returns (c: seq<nat>)
    requires 1 <= |e| <= r && NonDecreasing(e) && Within(e, 0, n)
    ensures |c| == r && c[..|e|] == e && NonDecreasing(c) && Within(c, 0, n)
  {
    c := e + seq(r - |e|, _ => e[|e| - 1]);
    forall a | 0 <= a < |c| ensures e[0] <= c[a] <= e[|e| - 1] && c[a] < n {
    }
    assert c[..|e|] == e;
  }

  /** `_for_future(r)`: the progress total `math.comb(len(lengths) + r - 1, r)`
      is computed before the loop and raises for a negative argument. */
  function ForFuture(lengths: seq<nat>, r: int): Result<set<int>, VariantsError> {
    if r < 0 || |lengths| + r - 1 < 0 then Err(CombDomain) else Ok(FutureSums(lengths, r))
  }

  /** `_for_future(r)` raises exactly for a negative `r` or for no lengths
      with `r = 0`; otherwise it is exactly the set of sums of between 1 and
      `r` lengths, repetition allowed. */
  lemma ForFutureIsUnion(lengths: seq<nat>, r: int)
    ensures ForFuture(lengths, r) ==
      if r < 0 || (|lengths| == 0 && r == 0) then Err(CombDomain) else Ok(UnionUpTo(lengths, r))
  {
    if r >= 0 {
      FutureSumsIsUnion(lengths, r);
    }
  }

  /** The loop's sums are the sums of between 1 and `r` lengths. */
  lemma FutureSumsIsUnion(lengths: seq<nat>, r: nat)
    ensures FutureSums(lengths, r) == UnionUpTo(lengths, r)
  {
    var combos := Cwr(|lengths|, 0, r);
    forall i | 0 <= i < |combos| ensures Indices(lengths, combos[i]) {
      CwrSound(|lengths|, 0, r, combos[i]);
    }
    forall x ensures x in FutureSums(lengths, r) <==> x in UnionUpTo(lengths, r) {
      SumsOverMember(lengths, combos, x);
      UnionIsLevels(lengths, r, x);
      if x in FutureSums(lengths, r) {
        var i :| 0 <= i < |combos| && x in RunningSums(lengths, combos[i]);
        RunningSumsOf(lengths, r, combos[i], x);
      }
      if x in UnionUpTo(lengths, r) {
        var k :| 1 <= k <= r && x in JSet(lengths, k);
        JSetWitness(lengths, k, x);
        var d :| |d| == k && Indices(lengths, d) && Val(lengths, d) == x;
        var c := SumIsRunningSum(lengths, r, d);
        var i := IndexIn(c, combos);
      }
    }
  }

  /** A running sum of a drawn list of `r` positions is a sum of between 1
      and `r` lengths. */
  lemma RunningSumsOf(lengths: seq<nat>, r: nat, c: seq<nat>, x: int)
    requires c in Cwr(|lengths|, 0, r) && Indices(lengths, c) && x in RunningSums(lengths, c)
    ensures exists k :: 1 <= k <= r && x in JSet(lengths, k)
  {
    CwrSound(|lengths|, 0, r, c);
    RunningSumsMember(lengths, c, x);
    var k :| 1 <= k <= |c| && Val(lengths, c[..k]) == x;
    ValInJSet(lengths, c[..k]);
  }

  /** One length per list: `_for_future(1)` is the set of lengths. */
  lemma ForFutureOne(lengths: seq<nat>)
    ensures ForFuture(lengths, 1) == Ok(Elements(lengths))
  {
    ForFutureIsUnion(lengths, 1);
    JSetOne(lengths);
    assert UnionUpTo(lengths, 0) == {};
    assert UnionUpTo(lengths, 1) == Elements(lengths);
  }

  // ---------------------------------------------------------------------
  // `generate_v_set(r, w)`.

  /** `combinations(xs, w)`: the `w`-element sub-lists of `xs`, in order. */
  function Combinations(xs: seq<int>, w: nat): seq<seq<int>>
    decreases |xs|
  {
    if w == 0 then [[]]
    else if |xs| == 0 then []
    else Prepend(xs[0], Combinations(xs[1..], w - 1)) + Combinations(xs[1..], w)
  }

  /** `generate_v_set(r, w)`: each `w`-combination of the sums of
      `_for_future(r)`, sorted; the errors of `_for_future(r)` come first,
      then `combinations` refuses a negative `w`. The sums are taken in
      ascending order here; the set of sorted combinations does not depend
      on the order. */
  function GenerateVSet(lengths: seq<nat>, r: int, w: int): Result<set<seq<int>>, VariantsError> {
    match ForFuture(lengths, r)
    case Err(e) => Err(e)
    case Ok(sums) =>
      if w < 0 then Err(NegativeWidth)
      else Ok(VSetOf(SetToSorted(sums), w))
  }

  /** The sorted `w`-combinations of `variants`. */
  function VSetOf(variants: seq<int>, w: nat): set<seq<int>> {
    set c | c in Combinations(variants, w) :: SortAscending(c)
  }

  /** A combination of a strictly increasing list is a strictly increasing
      list of `w` of its elements. */
  lemma {:induction false} CombinationsSound(xs: seq<int>, w: nat, c: seq<int>)
    requires StrictlyIncreasing(xs) && c in Combinations(xs, w)
    ensures |c| == w && StrictlyIncreasing(c) && Elements(c) <= Elements(xs)
    decreases |xs|
  {
    if w > 0 && |xs| > 0 {
      var first := Prepend(xs[0], Combinations(xs[1..], w - 1));
      if c in first {
        var i :| 0 <= i < |first| && first[i] == c;
        var d := Combinations(xs[1..], w - 1)[i];
        CombinationsSound(xs[1..], w - 1, d);
        HeadCombination(xs, d);
        assert c == [xs[0]] + d;
      } else {
        CombinationsSound(xs[1..], w, c);
        assert Elements(xs[1..]) <= Elements(xs);
      }
    }
  }

  /** The head of a strictly increasing list before a list of its later
      elements. */
  lemma HeadCombination(xs: seq<int>, d: seq<int>)
    requires |xs| > 0 && StrictlyIncreasing(xs) && StrictlyIncreasing(d) && Elements(d) <= Elements(xs[1..])
    ensures StrictlyIncreasing([xs[0]] + d) && Elements([xs[0]] + d) <= Elements(xs)
  {
    forall a | 0 <= a < |d| ensures xs[0] < d[a] {
      assert d[a] in Elements(xs[1..]);
    }
    assert Elements([xs[0]] + d) == {xs[0]} + Elements(d);
  }

  /** Every strictly increasing list of elements of a strictly increasing
      list is one of its combinations. */
  lemma {:induction false} CombinationsComplete(xs: seq<int>, t: seq<int>)
    requires StrictlyIncreasing(xs) && StrictlyIncreasing(t) && Elements(t) <= Elements(xs)
    ensures t in Combinations(xs, |t|)
    decreases |xs|
  {
    if |t| > 0 {
      assert t[0] in Elements(xs);
      if t[0] == xs[0] {
        TakeHead(xs, t);
        CombinationsComplete(xs[1..], t[1..]);
        var rest := Combinations(xs[1..], |t| - 1);
        PrependMember(xs[0], rest, IndexIn(t[1..], rest));
        assert [xs[0]] + t[1..] == t;
      } else {
        SkipHead(xs, t);
        CombinationsComplete(xs[1..], t);
      }
      CombinationsStep(xs, |t|, t);
    }
  }

  /** One step of the recursion: combinations taking the head, then the
      ones skipping it. */
  lemma CombinationsStep(xs: seq<int>, w: nat, t: seq<int>)
    requires w > 0 && |xs| > 0
    ensures t in Combinations(xs, w) <==> t in Prepend(xs[0], Combinations(xs[1..], w - 1)) || t in Combinations(xs[1..], w)
  {
  }

  /** A sub-list that takes the head draws its tail from the tail. */
  lemma TakeHead(xs: seq<int>, t: seq<int>)
    requires StrictlyIncreasing(xs) && StrictlyIncreasing(t) && Elements(t) <= Elements(xs)
    requires |t| > 0 && |xs| > 0 && t[0] == xs[0]
    ensures StrictlyIncreasing(t[1..]) && Elements(t[1..]) <= Elements(xs[1..])
  {
    forall a | 1 <= a < |t| ensures t[a] in Elements(xs[1..]) {
      assert t[a] in Elements(xs);
    }
  }

  /** A sub-list that skips the head draws from the tail. */
  lemma SkipHead(xs: seq<int>, t: seq<int>)
    requires StrictlyIncreasing(xs) && StrictlyIncreasing(t) && Elements(t) <= Elements(xs)
    requires |t| > 0 && |xs| > 0 && t[0] != xs[0]
    ensures Elements(t) <= Elements(xs[1..])
  {
    assert t[0] in Elements(xs);
    forall a | 0 <= a < |t| ensures t[a] in Elements(xs[1..]) {
      assert t[a] in Elements(xs);
      assert t[0] <= t[a];
    }
  }

  /** Sorting a strictly increasing list leaves it as it is. */
  lemma SortedStays(c: seq<int>)
    requires StrictlyIncreasing(c)
    ensures SortAscending(c) == c
  {
    var s := SortAscending(c);
    PermutationNoDuplicates(c, s);
    PermutationElements(c, s);
    SortedDistinct(s);
    StrictlyIncreasingUnique(s, c);
  }

  /** `generate_v_set(r, w)` raises for a negative `r` or `w` and for no
      lengths with `r = 0`, the error of `_for_future` first; otherwise it
      is exactly the set of strictly increasing lists of `w` sums of between
      1 and `r` lengths. */
  lemma VSetIsSubsets(lengths: seq<nat>, r: int, w: int, t: seq<int>)
    ensures GenerateVSet(lengths, r, w).Err? <==> r < 0 || (|lengths| == 0 && r == 0) || w < 0
    ensures r < 0 || (|lengths| == 0 && r == 0) ==> GenerateVSet(lengths, r, w) == Err(CombDomain)
    ensures GenerateVSet(lengths, r, w).Ok? ==>
      (t in GenerateVSet(lengths, r, w).value <==>
        |t| == w && StrictlyIncreasing(t) && Elements(t) <= UnionUpTo(lengths, r))
  {
    ForFutureIsUnion(lengths, r);
    if r >= 0 && |lengths| + r > 0 && w >= 0 {
      VSetOfUnion(lengths, r, w, t);
    }
  }

  /** The sorted `w`-combinations of the sums within `r` lengths are
      exactly the strictly increasing `w`-lists of those sums. */
  lemma VSetOfUnion(lengths: seq<nat>, r: nat, w: nat, t: seq<int>)
    ensures t in VSetOf(SetToSorted(UnionUpTo(lengths, r)), w) <==>
      |t| == w && StrictlyIncreasing(t) && Elements(t) <= UnionUpTo(lengths, r)
  {
    var variants := SetToSorted(UnionUpTo(lengths, r));
    if t in VSetOf(variants, w) {
      var c :| c in Combinations(variants, w) && SortAscending(c) == t;
      CombinationsSound(variants, w, c);
      SortedStays(c);
    }
    if |t| == w && StrictlyIncreasing(t) && Elements(t) <= UnionUpTo(lengths, r) {
      CombinationsComplete(variants, t);
      SortedStays(t);
    }
  }
}
