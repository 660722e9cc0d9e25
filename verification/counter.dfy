/** A Python `defaultdict(int)` used as a counter: an association list of
    (key, count) pairs in the order the keys were first counted, which is
    the iteration order of a Python dict. */
module Counters {
  import opened Collections

  type Counter<K> = seq<(K, nat)>

  /** The keys in iteration order. */
  function Keys<K, V>(c: seq<(K, V)>): (ks: seq<K>)
    ensures |ks| == |c| && forall i :: 0 <= i < |c| ==> ks[i] == c[i].0
  {
    seq(|c|, i requires 0 <= i < |c| => c[i].0)
  }

  /** `counter[x]` of a `defaultdict(int)`: the count of `x`, 0 when absent. */
  function Count<K(==)>(c: Counter<K>, x: K): (n: nat)
    ensures n > 0 ==> x in Keys(c)
  {
    if |c| == 0 then 0
    else if c[0].0 == x then c[0].1
    else Count(c[1..], x)
  }

  /** `counter[x] += a`: the count of `x` is raised in place, or `x` is
      appended with count `a`. */
  function Add<K(==)>(c: Counter<K>, x: K, a: nat): (r: Counter<K>)
    ensures |r| == if x in Keys(c) then |c| else |c| + 1
  {
    if |c| == 0 then [(x, a)]
    else if c[0].0 == x then [(x, c[0].1 + a)] + c[1..]
    else [c[0]] + Add(c[1..], x, a)
  }

  /** `counter[x] += 1`. */
  function Bump<K(==)>(c: Counter<K>, x: K): Counter<K> {
    Add(c, x, 1)
  }

  /** The counter after counting each element of `xs` in turn. */
  function CountAll<K(==)>(xs: seq<K>): Counter<K>
    decreases |xs|
  {
    if |xs| == 0 then [] else Bump(CountAll(xs[..|xs| - 1]), xs[|xs| - 1])
  }

  /** The sum of all counts. */
  function Total<K>(c: Counter<K>): nat {
    if |c| == 0 then 0 else c[0].1 + Total(c[1..])
  }

  /** Every key is listed once and every count is at least one: what
      counting by `+= 1` (or by positive amounts) produces. */
  predicate WellCounted<K(==)>(c: Counter<K>) {
    NoDuplicates(Keys(c)) && forall i :: 0 <= i < |c| ==> c[i].1 >= 1
  }

  /** Adding raises the count of `x` by `a` and leaves every other count. */
  lemma {:induction false} AddCount<K>(c: Counter<K>, x: K, a: nat, y: K)
    ensures Count(Add(c, x, a), y) == Count(c, y) + (if y == x then a else 0)
    decreases |c|
  {
    if |c| > 0 && c[0].0 != x {
      AddCount(c[1..], x, a, y);
      assert ([c[0]] + Add(c[1..], x, a))[1..] == Add(c[1..], x, a);
    } else if |c| > 0 {
      assert ([(x, c[0].1 + a)] + c[1..])[1..] == c[1..];
    }
  }

  /** Adding keeps the key order and appends a new key at the end. */
  lemma {:induction false} AddKeys<K>(c: Counter<K>, x: K, a: nat)
    ensures Keys(Add(c, x, a)) == if x in Keys(c) then Keys(c) else Keys(c) + [x]
    decreases |c|
  {
    if |c| > 0 {
      assert c == [c[0]] + c[1..];
      KeysCons(c[0], c[1..]);
      if c[0].0 != x {
        AddKeys(c[1..], x, a);
        KeysCons(c[0], Add(c[1..], x, a));
      } else {
        KeysCons((x, c[0].1 + a), c[1..]);
      }
    }
  }

  lemma KeysCons<K, V>(e: (K, V), c: seq<(K, V)>)
    ensures Keys([e] + c) == [e.0] + Keys(c)
  {
  }

  /** Adding `a` adds `a` to the total. */
  lemma {:induction false} AddTotal<K>(c: Counter<K>, x: K, a: nat)
    ensures Total(Add(c, x, a)) == Total(c) + a
    decreases |c|
  {
    if |c| > 0 && c[0].0 != x {
      AddTotal(c[1..], x, a);
      assert ([c[0]] + Add(c[1..], x, a))[1..] == Add(c[1..], x, a);
    } else if |c| > 0 {
      assert ([(x, c[0].1 + a)] + c[1..])[1..] == c[1..];
    }
  }

  /** Adding a positive amount keeps a counter well counted. */
  lemma AddWellCounted<K>(c: Counter<K>, x: K, a: nat)
    requires WellCounted(c) && a >= 1
    ensures WellCounted(Add(c, x, a))
  {
    AddKeys(c, x, a);
    AddPositive(c, x, a);
  }

  lemma {:induction false} AddPositive<K>(c: Counter<K>, x: K, a: nat)
    requires a >= 1 && forall i :: 0 <= i < |c| ==> c[i].1 >= 1
    ensures forall i :: 0 <= i < |Add(c, x, a)| ==> Add(c, x, a)[i].1 >= 1
    decreases |c|
  {
    if |c| > 0 && c[0].0 != x {
      AddPositive(c[1..], x, a);
    }
  }

  /** With each key listed once, the count of a listed key is its entry. */
  lemma {:induction false} CountAt<K>(c: Counter<K>, i: nat)
    requires i < |c| && NoDuplicates(Keys(c))
    ensures Count(c, c[i].0) == c[i].1
    decreases i
  {
    if i > 0 {
      assert Keys(c)[0] != Keys(c)[i];
      assert Keys(c[1..]) == Keys(c)[1..];
      CountAt(c[1..], i - 1);
    }
  }

  /** Counting `xs` counts each value as often as it occurs. */
  lemma {:induction false} CountAllCounts<K>(xs: seq<K>, x: K)
    ensures Count(CountAll(xs), x) == multiset(xs)[x]
    decreases |xs|
  {
    if |xs| > 0 {
      CountAllCounts(xs[..|xs| - 1], x);
      AddCount(CountAll(xs[..|xs| - 1]), xs[|xs| - 1], 1, x);
      SnocMultiset(xs);
    }
  }

  /** The keys of the counter of `xs` are the distinct values of `xs` in
      order of first occurrence. */
  lemma {:induction false} CountAllKeys<K>(xs: seq<K>)
    ensures Keys(CountAll(xs)) == Distinct(xs)
    decreases |xs|
  {
    if |xs| > 0 {
      CountAllKeys(xs[..|xs| - 1]);
      AddKeys(CountAll(xs[..|xs| - 1]), xs[|xs| - 1], 1);
    }
  }

  /** Counting by ones lists each key once with a positive count, and the
      counts add up to the length. */
  lemma {:induction false} CountAllWellCounted<K>(xs: seq<K>)
    ensures WellCounted(CountAll(xs)) && Total(CountAll(xs)) == |xs|
    decreases |xs|
  {
    if |xs| > 0 {
      CountAllWellCounted(xs[..|xs| - 1]);
      AddWellCounted(CountAll(xs[..|xs| - 1]), xs[|xs| - 1], 1);
      AddTotal(CountAll(xs[..|xs| - 1]), xs[|xs| - 1], 1);
    }
  }

  /** The counter of `xs` has one entry per distinct value. */
  lemma CountAllSize<K>(xs: seq<K>)
    ensures |CountAll(xs)| == |Distinct(xs)| == |Elements(xs)|
  {
    CountAllKeys(xs);
    DistinctCardinality(Distinct(xs));
  }

  /** Counting one more element: the step `feed` takes. */
  lemma CountAllSnoc<K>(xs: seq<K>, x: K)
    ensures CountAll(xs + [x]) == Bump(CountAll(xs), x)
  {
    assert (xs + [x])[..|xs|] == xs;
  }

  /** Python's `sorted(d.items(), key=f, reverse=True)[:n]` on a dict's
      items: the entries kept are entries of the dict, still keyed once,
      largest key first, and no entry left out ranks above one kept. */
  lemma TopEntries<K, V>(items: seq<(K, V)>, f: ((K, V)) -> real, n: int)
    requires NoDuplicates(Keys(items))
    ensures var t := Take(SortByKeyDesc(items, f), n);
      && (forall p :: p in t ==> p in items)
      && NoDuplicates(Keys(t))
      && SortedByKeyDesc(t, f)
      && (forall p, q :: p in items && p.0 !in Keys(t) && q in t ==> f(q) >= f(p))
  {
    var sorted := SortByKeyDesc(items, f);
    KeysPermutation(items, sorted);
    TakeKeysDistinct(sorted, n);
    TopEntriesRank(items, sorted, f, n);
  }

  /** A prefix of a list keyed once is keyed once. */
  lemma TakeKeysDistinct<K, V>(xs: seq<(K, V)>, n: int)
    requires NoDuplicates(Keys(xs))
    ensures NoDuplicates(Keys(Take(xs, n)))
  {
    var t := Take(xs, n);
    forall i, j | 0 <= i < j < |t| ensures Keys(t)[i] != Keys(t)[j] {
      assert Keys(xs)[i] != Keys(xs)[j];
    }
  }

  lemma TopEntriesRank<K, V>(items: seq<(K, V)>, sorted: seq<(K, V)>, f: ((K, V)) -> real, n: int)
    requires multiset(sorted) == multiset(items) && SortedByKeyDesc(sorted, f)
    ensures var t := Take(sorted, n);
      && (forall p :: p in t ==> p in items)
      && SortedByKeyDesc(t, f)
      && (forall p, q :: p in items && p.0 !in Keys(t) && q in t ==> f(q) >= f(p))
  {
    var t := Take(sorted, n);
    forall p | p in t ensures p in items {
      assert p in multiset(sorted);
    }
    forall p | p in items && p.0 !in Keys(t) ensures forall q :: q in t ==> f(q) >= f(p) {
      assert p in multiset(sorted);
      assert p !in t by {
        assert forall i :: 0 <= i < |t| ==> Keys(t)[i] == t[i].0;
      }
      TopOfSorted(sorted, f, |t|, p);
    }
  }

  /** Reordering entries keeps each key listed once. */
  lemma KeysPermutation<K, V>(a: seq<(K, V)>, b: seq<(K, V)>)
    requires multiset(a) == multiset(b) && NoDuplicates(Keys(a))
    ensures NoDuplicates(Keys(b))
  {
    assert NoDuplicates(a) by {
      forall i, j | 0 <= i < j < |a| ensures a[i] != a[j] {
        assert Keys(a)[i] != Keys(a)[j];
      }
    }
    PermutationNoDuplicates(a, b);
    forall i, j | 0 <= i < j < |b| ensures Keys(b)[i] != Keys(b)[j] {
      assert b[i] in multiset(a) && b[j] in multiset(a);
      var p :| 0 <= p < |a| && a[p] == b[i];
      var q :| 0 <= q < |a| && a[q] == b[j];
      assert p != q;
      assert Keys(a)[p] != Keys(a)[q];
    }
  }

  /** Appending an entry with a new key counts it on top of the others. */
  lemma {:induction false} CountSnoc<K>(c: Counter<K>, e: (K, nat), x: K)
    requires e.0 !in Keys(c)
    ensures Count(c + [e], x) == Count(c, x) + (if x == e.0 then e.1 else 0)
    decreases |c|
  {
    if |c| > 0 {
      assert (c + [e])[1..] == c[1..] + [e];
      assert Keys(c[1..]) == Keys(c)[1..];
      CountSnoc(c[1..], e, x);
    }
  }

  /** The total of a counter with one more entry. */
  lemma {:induction false} TotalSnoc<K>(c: Counter<K>, e: (K, nat))
    ensures Total(c + [e]) == Total(c) + e.1
    decreases |c|
  {
    if |c| > 0 {
      assert (c + [e])[1..] == c[1..] + [e];
      TotalSnoc(c[1..], e);
    }
  }

  /** In a well-counted counter the counted keys are exactly the listed ones. */
  lemma CountPositive<K>(c: Counter<K>, x: K)
    requires WellCounted(c)
    ensures Count(c, x) > 0 <==> x in Keys(c)
  {
    if x in Keys(c) {
      var i :| 0 <= i < |c| && Keys(c)[i] == x;
      CountAt(c, i);
    }
  }

  /** A well-counted counter with an entry has a positive total. */
  lemma {:induction false} TotalPositive<K>(c: Counter<K>)
    requires WellCounted(c) && |c| > 0
    ensures Total(c) >= |c|
    decreases |c|
  {
    if |c| > 1 {
      assert Keys(c[1..]) == Keys(c)[1..];
      TotalPositive(c[1..]);
    }
  }

  /** Reordering entries keeps the set of keys. */
  lemma KeysPermutationElements<K, V>(a: seq<(K, V)>, b: seq<(K, V)>)
    requires multiset(a) == multiset(b)
    ensures Elements(Keys(a)) == Elements(Keys(b))
  {
    forall x | x in Elements(Keys(a)) ensures x in Elements(Keys(b)) {
      var i :| 0 <= i < |a| && Keys(a)[i] == x;
      assert a[i] in multiset(b);
      var j :| 0 <= j < |b| && b[j] == a[i];
      assert Keys(b)[j] == x;
    }
    forall x | x in Elements(Keys(b)) ensures x in Elements(Keys(a)) {
      var i :| 0 <= i < |b| && Keys(b)[i] == x;
      assert b[i] in multiset(a);
      var j :| 0 <= j < |a| && a[j] == b[i];
      assert Keys(a)[j] == x;
    }
  }
}
