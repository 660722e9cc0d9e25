/** Sequence, set and ordering helpers shared by the model: distinct-element
    lists, sums, sorting by a key, and turning a finite set of integers into
    its ascending sequence (Python's `sorted(set)`). */
module Collections {

  /** The elements of a sequence, as a set (Python's `set(xs)`). */
  function Elements<T>(xs: seq<T>): set<T> {
    set x | x in xs
  }

  /** `a` is an initial segment of `b`. */
  predicate Prefix<T(==)>(a: seq<T>, b: seq<T>) {
    |a| <= |b| && a == b[..|a|]
  }

  predicate NoDuplicates<T(==)>(xs: seq<T>) {
    forall i, j :: 0 <= i < j < |xs| ==> xs[i] != xs[j]
  }

  predicate StrictlyIncreasing(xs: seq<int>) {
    forall i, j :: 0 <= i < j < |xs| ==> xs[i] < xs[j]
  }

  predicate NonDecreasing(xs: seq<int>) {
    forall i, j :: 0 <= i < j < |xs| ==> xs[i] <= xs[j]
  }

  /** `xs` is ordered by `key`, largest key first (Python's `sorted(..., reverse=True)`). */
  predicate SortedByKeyDesc<T>(xs: seq<T>, key: T -> real) {
    forall i, j :: 0 <= i < j < |xs| ==> key(xs[i]) >= key(xs[j])
  }

  function Sum(xs: seq<int>): int {
    if |xs| == 0 then 0 else xs[0] + Sum(xs[1..])
  }

  /** A sequence is its part before `i`, its element at `i` and its part
      after `i`. */
  lemma SplitAround<T>(xs: seq<T>, i: nat)
    requires i < |xs|
    ensures xs == (xs[..i] + [xs[i]]) + xs[i + 1..]
  {
  }

  /** The middle part of a three-part concatenation, sliced back out. */
  lemma SliceMiddle<T>(a: seq<T>, b: seq<T>, c: seq<T>)
    ensures ((a + b) + c)[|a|..|a| + |b|] == b
  {
  }

  lemma {:induction false} SumConcat(a: seq<int>, b: seq<int>)
    ensures Sum(a + b) == Sum(a) + Sum(b)
  {
    if |a| == 0 {
      assert a + b == b;
    } else {
      assert (a + b)[1..] == a[1..] + b;
      SumConcat(a[1..], b);
    }
  }

  /** A non-empty set has an element. */
  lemma NonEmptyHasElement(s: set<int>)
    requires s != {}
    ensures exists x :: x in s
  {
    if forall x :: x !in s {
      assert false;
    }
  }

  /** The least element of a non-empty finite set of integers. */
  function MinOf(s: set<int>): (m: int)
    requires s != {}
    ensures m in s
    ensures forall y :: y in s ==> m <= y
  {
    MinExists(s);
    var m :| m in s && forall y :: y in s ==> m <= y;
    m
  }

  lemma MinExists(s: set<int>)
    requires s != {}
    ensures exists m :: m in s && forall y :: y in s ==> m <= y
    decreases |s|
  {
    NonEmptyHasElement(s);
    var x :| x in s;
    var rest := s - {x};
    if rest == {} {
      forall y | y in s ensures x <= y {
        assert y == x || y in rest;
      }
    } else {
      MinExists(rest);
      var m :| m in rest && forall y :: y in rest ==> m <= y;
      var least := if x < m then x else m;
      forall y | y in s ensures least <= y {
        assert y == x || y in rest;
      }
      assert least in s;
    }
  }

  /** The elements of `s` in ascending order: Python's `sorted(s)` on a set. */
  function SetToSorted(s: set<int>): (r: seq<int>)
    ensures |r| == |s|
    ensures Elements(r) == s
    ensures StrictlyIncreasing(r)
    decreases |s|
  {
    if s == {} then []
    else
      var m := MinOf(s);
      var rest := SetToSorted(s - {m});
      SortedCons(m, rest, s);
      [m] + rest
  }

  lemma SortedCons(m: int, rest: seq<int>, s: set<int>)
    requires m in s && forall y :: y in s ==> m <= y
    requires |rest| == |s - {m}| && Elements(rest) == s - {m} && StrictlyIncreasing(rest)
    ensures |[m] + rest| == |s| && Elements([m] + rest) == s && StrictlyIncreasing([m] + rest)
  {
    assert Elements([m] + rest) == {m} + Elements(rest);
    forall k | 0 <= k < |rest| ensures m < rest[k] {
      assert rest[k] in Elements(rest);
    }
  }

  /** A strictly increasing sequence is determined by its set of elements. */
  lemma {:induction false} StrictlyIncreasingUnique(a: seq<int>, b: seq<int>)
    requires StrictlyIncreasing(a) && StrictlyIncreasing(b)
    requires Elements(a) == Elements(b)
    ensures a == b
    decreases |a|
  {
    DistinctCardinality(a);
    DistinctCardinality(b);
    if |a| > 0 {
      assert b[0] in Elements(a);
      var j :| 0 <= j < |a| && a[j] == b[0];
      assert a[0] in Elements(b);
      var i :| 0 <= i < |b| && b[i] == a[0];
      assert a[0] <= a[j];
      assert b[0] <= b[i];
      forall x ensures x in Elements(a[1..]) <==> x in Elements(b[1..]) {
        if x in Elements(a[1..]) {
          var k :| 1 <= k < |a| && a[k] == x;
          assert x in Elements(b);
          var l :| 0 <= l < |b| && b[l] == x;
          assert l != 0;
        }
        if x in Elements(b[1..]) {
          var k :| 1 <= k < |b| && b[k] == x;
          assert x in Elements(a);
          var l :| 0 <= l < |a| && a[l] == x;
          assert l != 0;
        }
      }
      StrictlyIncreasingUnique(a[1..], b[1..]);
      assert a == [a[0]] + a[1..];
      assert b == [b[0]] + b[1..];
    }
  }

  /** A sequence without repeats has as many elements as its set. */
  lemma {:induction false} DistinctCardinality<T>(xs: seq<T>)
    requires NoDuplicates(xs)
    ensures |Elements(xs)| == |xs|
  {
    if |xs| > 0 {
      var last := xs[|xs| - 1];
      var init := xs[..|xs| - 1];
      DistinctCardinality(init);
      assert Elements(xs) == Elements(init) + {last};
      assert last !in Elements(init);
    }
  }

  /** Any sequence has at least as many positions as distinct elements. */
  lemma {:induction false} ElementsCardinality<T>(xs: seq<T>)
    ensures |Elements(xs)| <= |xs|
  {
    if |xs| > 0 {
      var init := xs[..|xs| - 1];
      ElementsCardinality(init);
      assert Elements(xs) == Elements(init) + {xs[|xs| - 1]};
    }
  }

  /** In a strictly increasing sequence every element of a prefix is below
      every element past it. */
  lemma PrefixBelow(xs: seq<int>, m: nat, x: int)
    requires StrictlyIncreasing(xs) && m <= |xs| && x in xs && x !in xs[..m]
    ensures forall y :: y in xs[..m] ==> y < x
  {
    var a :| 0 <= a < |xs| && xs[a] == x;
    assert a >= m by {
      assert forall i :: 0 <= i < m ==> xs[..m][i] == xs[i];
    }
    forall y | y in xs[..m] ensures y < x {
      var b :| 0 <= b < m && xs[..m][b] == y;
    }
  }

  /** A subset is no larger. */
  lemma SubsetCardinality<T>(a: set<T>, b: set<T>)
    requires a <= b
    ensures |a| <= |b|
  {
    assert b == a + (b - a);
  }

  /** A non-decreasing sequence without repeats is strictly increasing. */
  lemma SortedDistinct(xs: seq<int>)
    requires NonDecreasing(xs) && NoDuplicates(xs)
    ensures StrictlyIncreasing(xs)
  {
  }

  /** The distinct elements of `xs` in order of first occurrence
      (the key order of a Python dict filled from `xs`). */
  function Distinct<T(==)>(xs: seq<T>): (d: seq<T>)
    ensures NoDuplicates(d)
    ensures Elements(d) == Elements(xs)
  {
    if |xs| == 0 then []
    else
      var d := Distinct(xs[..|xs| - 1]);
      var last := xs[|xs| - 1];
      assert Elements(xs) == Elements(xs[..|xs| - 1]) + {last};
      if last in d then d else d + [last]
  }

  /** Inserts `x` after every element whose key is at least `key(x)`
      (so equal keys keep their arrival order, like Python's stable sort). */
  function InsertByKeyDesc<T>(x: T, s: seq<T>, key: T -> real): (r: seq<T>)
    requires SortedByKeyDesc(s, key)
    ensures multiset(r) == multiset(s) + multiset{x}
    ensures SortedByKeyDesc(r, key)
  {
    if |s| == 0 then [x]
    else if key(s[0]) >= key(x) then
      var rest := InsertByKeyDesc(x, s[1..], key);
      InsertStep(x, s, rest, key);
      [s[0]] + rest
    else
      [x] + s
  }

  lemma InsertStep<T>(x: T, s: seq<T>, rest: seq<T>, key: T -> real)
    requires |s| > 0 && key(s[0]) >= key(x)
    requires SortedByKeyDesc(s, key) && SortedByKeyDesc(rest, key)
    requires multiset(rest) == multiset(s[1..]) + multiset{x}
    ensures multiset([s[0]] + rest) == multiset(s) + multiset{x}
    ensures SortedByKeyDesc([s[0]] + rest, key)
  {
    assert s == [s[0]] + s[1..];
    forall k | 0 <= k < |rest| ensures key(s[0]) >= key(rest[k]) {
      assert rest[k] in multiset(rest);
      if rest[k] != x {
        assert rest[k] in multiset(s[1..]);
        var m :| 0 <= m < |s[1..]| && s[1..][m] == rest[k];
        assert s[m + 1] == rest[k];
      }
    }
    var r := [s[0]] + rest;
    forall i, j | 0 <= i < j < |r| ensures key(r[i]) >= key(r[j]) {
      if i > 0 {
        assert r[i] == rest[i - 1] && r[j] == rest[j - 1];
      } else {
        assert r[j] == rest[j - 1];
      }
    }
  }

  /** Stable sort, largest key first. */
  function SortByKeyDesc<T>(xs: seq<T>, key: T -> real): (r: seq<T>)
    ensures multiset(r) == multiset(xs)
    ensures |r| == |xs|
    ensures SortedByKeyDesc(r, key)
  {
    if |xs| == 0 then []
    else
      var init := xs[..|xs| - 1];
      var r := InsertByKeyDesc(xs[|xs| - 1], SortByKeyDesc(init, key), key);
      SnocMultiset(xs);
      assert |r| == |xs| by {
        assert |multiset(r)| == |multiset(xs)|;
      }
      r
  }

  /** The elements of `xs` whose key is `k`, in their order in `xs`. */
  function WithKey<T>(xs: seq<T>, key: T -> real, k: real): seq<T>
    decreases |xs|
  {
    if |xs| == 0 then [] else (if key(xs[0]) == k then [xs[0]] else []) + WithKey(xs[1..], key, k)
  }

  /** The sort is stable: the elements of any one key come out in the order
      they came in, as with Python's `sorted(..., reverse=True)`. */
  lemma {:induction false} SortByKeyDescStable<T>(xs: seq<T>, key: T -> real, k: real)
    ensures WithKey(SortByKeyDesc(xs, key), key, k) == WithKey(xs, key, k)
    decreases |xs|
  {
    if |xs| > 0 {
      var init := xs[..|xs| - 1];
      var last := xs[|xs| - 1];
      var sorted := SortByKeyDesc(init, key);
      assert SortByKeyDesc(xs, key) == InsertByKeyDesc(last, sorted, key);
      SortByKeyDescStable(init, key, k);
      InsertKeepsTies(last, sorted, key, k);
      SnocTies(xs, key, k);
    }
  }

  lemma SnocTies<T>(xs: seq<T>, key: T -> real, k: real)
    requires |xs| > 0
    ensures WithKey(xs, key, k) ==
      WithKey(xs[..|xs| - 1], key, k) + (if key(xs[|xs| - 1]) == k then [xs[|xs| - 1]] else [])
  {
    var last := xs[|xs| - 1];
    WithKeyConcat(xs[..|xs| - 1], [last], key, k);
    assert xs[..|xs| - 1] + [last] == xs;
    assert [last][1..] == [];
  }

  /** Inserting `x` into a sorted list puts it after the elements of equal
      key, so those keep their order and `x` comes last among them. */
  lemma {:induction false} InsertKeepsTies<T>(x: T, s: seq<T>, key: T -> real, k: real)
    requires SortedByKeyDesc(s, key)
    ensures WithKey(InsertByKeyDesc(x, s, key), key, k) ==
      WithKey(s, key, k) + (if key(x) == k then [x] else [])
    decreases |s|
  {
    if |s| == 0 {
      assert InsertByKeyDesc(x, s, key) == [x];
      assert [x][1..] == [];
    } else if key(s[0]) >= key(x) {
      var rest := InsertByKeyDesc(x, s[1..], key);
      assert InsertByKeyDesc(x, s, key) == [s[0]] + rest;
      SortedTail(s, key);
      InsertKeepsTies(x, s[1..], key, k);
      HeadTies(s, rest, key, k, if key(x) == k then [x] else []);
    } else {
      assert InsertByKeyDesc(x, s, key) == [x] + s;
      KeysBelow(s, key, key(x));
      assert ([x] + s)[1..] == s;
    }
  }

  lemma SortedTail<T>(s: seq<T>, key: T -> real)
    requires SortedByKeyDesc(s, key) && |s| > 0
    ensures SortedByKeyDesc(s[1..], key)
  {
    forall i, j | 0 <= i < j < |s| - 1 ensures key(s[1..][i]) >= key(s[1..][j]) {
      assert s[1..][i] == s[i + 1] && s[1..][j] == s[j + 1];
    }
  }

  lemma HeadTies<T>(s: seq<T>, rest: seq<T>, key: T -> real, k: real, tail: seq<T>)
    requires |s| > 0 && WithKey(rest, key, k) == WithKey(s[1..], key, k) + tail
    ensures WithKey([s[0]] + rest, key, k) == WithKey(s, key, k) + tail
  {
    assert ([s[0]] + rest)[1..] == rest;
  }

  /** A sorted list whose first key is below `k` has no element of key
      `k` or more. */
  lemma {:induction false} KeysBelow<T>(s: seq<T>, key: T -> real, k: real)
    requires SortedByKeyDesc(s, key) && |s| > 0 && key(s[0]) < k
    ensures WithKey(s, key, k) == []
    decreases |s|
  {
    if |s| > 1 {
      assert key(s[1]) <= key(s[0]);
      KeysBelow(s[1..], key, k);
    }
  }

  lemma {:induction false} WithKeyConcat<T>(a: seq<T>, b: seq<T>, key: T -> real, k: real)
    ensures WithKey(a + b, key, k) == WithKey(a, key, k) + WithKey(b, key, k)
    decreases |a|
  {
    if |a| > 0 {
      WithKeyConcat(a[1..], b, key, k);
      assert (a + b)[1..] == a[1..] + b;
    } else {
      assert a + b == b;
    }
  }

  lemma SnocMultiset<T>(xs: seq<T>)
    requires |xs| > 0
    ensures multiset(xs) == multiset(xs[..|xs| - 1]) + multiset{xs[|xs| - 1]}
  {
    assert xs == xs[..|xs| - 1] + [xs[|xs| - 1]];
  }

  function Negated(x: int): real {
    -(x as real)
  }

  /** Python's `sorted(xs)` on integers: a non-decreasing permutation of `xs`. */
  function SortAscending(xs: seq<int>): (r: seq<int>)
    ensures multiset(r) == multiset(xs)
    ensures |r| == |xs|
    ensures NonDecreasing(r)
  {
    var r := SortByKeyDesc(xs, Negated);
    assert forall i, j :: 0 <= i < j < |r| ==> Negated(r[i]) >= Negated(r[j]);
    r
  }

  /** A permutation keeps the set of elements. */
  lemma PermutationElements<T>(a: seq<T>, b: seq<T>)
    requires multiset(a) == multiset(b)
    ensures Elements(a) == Elements(b)
  {
    forall x ensures x in Elements(a) <==> x in Elements(b) {
      assert x in a <==> x in multiset(a);
      assert x in b <==> x in multiset(b);
    }
  }

  /** A permutation of a sequence without repeats has no repeats. */
  lemma PermutationNoDuplicates<T>(a: seq<T>, b: seq<T>)
    requires multiset(a) == multiset(b)
    requires NoDuplicates(a)
    ensures NoDuplicates(b)
  {
    forall i, j | 0 <= i < j < |b| ensures b[i] != b[j] {
      RepeatCounted(b, i, j);
      assert b[i] in multiset(a);
      MultiplicityOne(a, b[i]);
    }
  }

  /** An element found at two positions is counted at least twice. */
  lemma RepeatCounted<T>(b: seq<T>, i: nat, j: nat)
    requires i < j < |b|
    ensures b[i] == b[j] ==> multiset(b)[b[i]] >= 2
  {
    assert b == b[..i] + [b[i]] + b[i+1..j] + [b[j]] + b[j+1..];
    assert multiset(b) == multiset(b[..i]) + multiset{b[i]} + multiset(b[i+1..j]) + multiset{b[j]} + multiset(b[j+1..]);
  }

  /** An element of a repeat-free sequence occurs exactly once. */
  lemma {:induction false} MultiplicityOne<T>(a: seq<T>, x: T)
    requires NoDuplicates(a)
    requires x in a
    ensures multiset(a)[x] == 1
  {
    var i :| 0 <= i < |a| && a[i] == x;
    assert a == a[..i] + [x] + a[i+1..];
    assert x !in a[..i];
    assert x !in a[i+1..];
    assert multiset(a) == multiset(a[..i]) + multiset{x} + multiset(a[i+1..]);
  }

  /** A repeat-free sequence counts each of its elements once. */
  lemma {:induction false} DistinctMultiset<T>(xs: seq<T>)
    requires NoDuplicates(xs)
    ensures multiset(xs) == multiset(Elements(xs))
  {
    if |xs| > 0 {
      var last := xs[|xs| - 1];
      var init := xs[..|xs| - 1];
      DistinctMultiset(init);
      assert xs == init + [last];
      assert Elements(xs) == Elements(init) + {last};
      assert last !in Elements(init);
      assert multiset(Elements(xs)) == multiset(Elements(init)) + multiset{last};
    }
  }

  /** Python's `xs[:n]`: the first `n` elements, all of them when `n`
      exceeds the length, and for a negative `n` all but the last `-n`. */
  function Take<T>(xs: seq<T>, n: int): (r: seq<T>)
    ensures n >= 0 ==> |r| == (if n <= |xs| then n else |xs|)
    ensures n < 0 ==> |r| == (if |xs| + n >= 0 then |xs| + n else 0)
    ensures r == xs[..|r|]
  {
    if n >= 0 then xs[..if n <= |xs| then n else |xs|]
    else xs[..if |xs| + n >= 0 then |xs| + n else 0]
  }

  /** The first `n` elements of a list sorted by key, largest first, have
      keys at least that of any element left out. */
  lemma TopOfSorted<T>(r: seq<T>, key: T -> real, n: nat, s: T)
    requires SortedByKeyDesc(r, key) && n <= |r|
    requires s in r && s !in r[..n]
    ensures forall x :: x in r[..n] ==> key(x) >= key(s)
  {
    var j :| 0 <= j < |r| && r[j] == s;
    forall x | x in r[..n] ensures key(x) >= key(s) {
      var i :| 0 <= i < n && r[..n][i] == x;
      assert r[i] == x;
    }
  }
}
