/** Sequence helpers shared by the loader and the aggregations: optional and
    failing results, occurrence counts, duplicate removal that keeps the first
    occurrence (pandas' `unique` and `drop_duplicates`), and sums of counts. */
module Collections {

  datatype Option<+T> = None | Some(value: T)

  datatype Result<+T, +E> = Success(value: T) | Failure(error: E)

  /** One row of a frequency table: a group key and its number of rows. */
  datatype Counted<K> = Counted(key: K, count: nat)

  /** Number of occurrences of `x` in `s`. */
  function Count<T(==)>(s: seq<T>, x: T): (n: nat)
    ensures n <= |s|
    ensures n == 0 <==> x !in s
  {
    if s == [] then 0 else (if s[0] == x then 1 else 0) + Count(s[1..], x)
  }

  lemma {:induction false} CountAppend<T>(a: seq<T>, b: seq<T>, x: T)
    ensures Count(a + b, x) == Count(a, x) + Count(b, x)
  {
    if a == [] {
      assert a + b == b;
    } else {
      assert (a + b)[1..] == a[1..] + b;
      CountAppend(a[1..], b, x);
    }
  }

  /** `s` with every occurrence of `x` taken out, order kept. */
  function Remove<T(==)>(s: seq<T>, x: T): (r: seq<T>)
    ensures |r| == |s| - Count(s, x)
  {
    if s == [] then []
    else if s[0] == x then Remove(s[1..], x)
    else [s[0]] + Remove(s[1..], x)
  }

  /** `Remove` drops `x` and nothing else. */
  lemma {:induction false} RemoveSpec<T(!new)>(s: seq<T>, x: T)
    ensures forall y :: y in Remove(s, x) <==> y in s && y != x
    ensures forall y :: y != x ==> Count(Remove(s, x), y) == Count(s, y)
  {
    if s != [] {
      RemoveSpec(s[1..], x);
      assert s == [s[0]] + s[1..];
    }
  }

  /** The distinct elements of `s`, each at the place of its first occurrence. */
  function Distinct<T(==)>(s: seq<T>): (r: seq<T>)
    decreases |s|
  {
    if s == [] then [] else [s[0]] + Distinct(Remove(s[1..], s[0]))
  }

  ghost predicate NoDuplicates<T>(s: seq<T>) {
    forall i, j :: 0 <= i < j < |s| ==> s[i] != s[j]
  }

  lemma NoDuplicatesCons<T>(x: T, s: seq<T>)
    ensures NoDuplicates([x] + s) <==> x !in s && NoDuplicates(s)
  {
    var t := [x] + s;
    if x !in s && NoDuplicates(s) {
      forall i, j | 0 <= i < j < |t| ensures t[i] != t[j] {
        assert t[j] == s[j - 1];
        if i > 0 { assert t[i] == s[i - 1]; }
      }
    }
    if NoDuplicates(t) {
      forall i, j | 0 <= i < j < |s| ensures s[i] != s[j] {
        assert s[i] == t[i + 1] && s[j] == t[j + 1];
      }
      forall i | 0 <= i < |s| ensures s[i] != x {
        assert s[i] == t[i + 1] && t[0] == x;
      }
    }
  }

  /** `Distinct` keeps exactly the elements of `s`, each once. */
  lemma {:induction false} DistinctSpec<T(!new)>(s: seq<T>)
    ensures NoDuplicates(Distinct(s))
    ensures forall y :: y in Distinct(s) <==> y in s
    decreases |s|
  {
    if s != [] {
      var rest := Remove(s[1..], s[0]);
      RemoveSpec(s[1..], s[0]);
      DistinctSpec(rest);
      var d := Distinct(s);
      assert d == [s[0]] + Distinct(rest);
      forall y ensures y in d <==> y in s {
        assert y in d <==> y == s[0] || y in Distinct(rest);
        assert s == [s[0]] + s[1..];
      }
      forall i, j | 0 <= i < j < |d| ensures d[i] != d[j] {
        assert d[j] == Distinct(rest)[j - 1];
        if i > 0 {
          assert d[i] == Distinct(rest)[i - 1];
        } else {
          assert d[j] in Distinct(rest);
        }
      }
    }
  }

  /** A sequence without duplicates has as many elements as its set. */
  lemma {:induction false} NoDuplicatesCard<T(!new)>(s: seq<T>)
    requires NoDuplicates(s)
    ensures |set x | x in s| == |s|
  {
    if s != [] {
      var t := s[1..];
      assert NoDuplicates(t) by {
        forall i, j | 0 <= i < j < |t| ensures t[i] != t[j] {
          assert t[i] == s[i + 1] && t[j] == s[j + 1];
        }
      }
      NoDuplicatesCard(t);
      assert s[0] !in t by {
        forall k | 0 <= k < |t| ensures t[k] != s[0] {
          assert t[k] == s[k + 1];
        }
      }
      assert (set x | x in s) == (set x | x in t) + {s[0]} by {
        assert s == [s[0]] + t;
      }
    }
  }

  /** The number of distinct elements is the size of the set of elements. */
  lemma DistinctCard<T(!new)>(s: seq<T>)
    ensures |Distinct(s)| == |set x | x in s|
  {
    DistinctSpec(s);
    NoDuplicatesCard(Distinct(s));
    var a, b := set x | x in Distinct(s), set x | x in s;
    assert a <= b by {
      forall x | x in a ensures x in b { assert x in Distinct(s); }
    }
    assert b <= a by {
      forall x | x in b ensures x in a { assert x in s; }
    }
    assert a == b;
  }

  /** `xs` with each element's number of occurrences, in first-occurrence
      order. pandas' `groupby(...).size()` lists its keys in ascending
      order instead; where this grouping stands for one, the order is never
      observed, because the year counts are reindexed by the selection and
      the per-shelter counts are sorted by count afterwards. */
  function Group<T(==)>(xs: seq<T>): (r: seq<Counted<T>>)
    decreases |xs|
  {
    if xs == [] then []
    else [Counted(xs[0], Count(xs, xs[0]))] + Group(Remove(xs[1..], xs[0]))
  }

  /** Sum of the counts of a frequency table. */
  function SumCounts<K>(rows: seq<Counted<K>>): nat {
    if rows == [] then 0 else rows[0].count + SumCounts(rows[1..])
  }


  /** Outside the first value, counting in the rest of a grouping step is
      counting in the whole sequence. */
  lemma RemoveHeadCount<T(!new)>(xs: seq<T>, k: T)
    requires xs != [] && k != xs[0]
    ensures Count(Remove(xs[1..], xs[0]), k) == Count(xs, k)
  {
    RemoveSpec(xs[1..], xs[0]);
    assert xs == [xs[0]] + xs[1..];
    CountAppend([xs[0]], xs[1..], k);
  }

  /** A grouping has one row per distinct value, in first-occurrence
      order, each counting its value. */
  lemma {:induction false} GroupKeys<T(!new)>(xs: seq<T>)
    ensures |Group(xs)| == |Distinct(xs)|
    ensures forall i :: 0 <= i < |Group(xs)| ==>
      Group(xs)[i].key == Distinct(xs)[i] && Group(xs)[i].count == Count(xs, Group(xs)[i].key)
    decreases |xs|
  {
    if xs != [] {
      var x, rest := xs[0], Remove(xs[1..], xs[0]);
      GroupKeys(rest);
      DistinctSpec(rest);
      var g := Group(xs);
      assert g[1..] == Group(rest);
      forall i | 0 < i < |g| ensures g[i].key == Distinct(xs)[i] && g[i].count == Count(xs, g[i].key) {
        var k := Group(rest)[i - 1].key;
        assert k in Distinct(rest);
        RemoveSpec(xs[1..], x);
        RemoveHeadCount(xs, k);
      }
    }
  }

  /** The counts of a grouping add up to the number of values. */
  lemma {:induction false} GroupSum<T>(xs: seq<T>)
    ensures SumCounts(Group(xs)) == |xs|
    decreases |xs|
  {
    if xs != [] {
      var x, rest := xs[0], Remove(xs[1..], xs[0]);
      GroupSum(rest);
      assert xs == [x] + xs[1..];
      CountAppend([x], xs[1..], x);
    }
  }

  /** A grouping has one row per distinct value, keyed and counted
      correctly, and its counts add up to the number of values. */
  lemma GroupSpec<T(!new)>(xs: seq<T>)
    ensures |Group(xs)| == |Distinct(xs)|
    ensures forall i :: 0 <= i < |Group(xs)| ==>
      Group(xs)[i].key == Distinct(xs)[i] && Group(xs)[i].count == Count(xs, Group(xs)[i].key)
    ensures SumCounts(Group(xs)) == |xs|
  {
    GroupKeys(xs);
    GroupSum(xs);
  }

  /** Each row of a grouping counts its key, which occurs at least once. */
  lemma GroupRows<T(!new)>(xs: seq<T>)
    ensures forall row :: row in Group(xs) ==> row.count == Count(xs, row.key) >= 1
  {
    GroupSpec(xs);
    DistinctSpec(xs);
    forall row | row in Group(xs) ensures row.count == Count(xs, row.key) >= 1 {
      var k :| 0 <= k < |Group(xs)| && Group(xs)[k] == row;
      assert row.key in Distinct(xs);
    }
  }

  /** The count a frequency table holds for `k`, or `None` when no row has
      that key (pandas' NaN). */
  function Lookup<K(==)>(rows: seq<Counted<K>>, k: K): Option<nat> {
    if rows == [] then None
    else if rows[0].key == k then Some(rows[0].count)
    else Lookup(rows[1..], k)
  }

  /** Looking a value up in its grouping gives its number of occurrences,
      or nothing when it does not occur. */
  lemma {:induction false} LookupGroup<T(!new)>(xs: seq<T>, k: T)
    ensures Lookup(Group(xs), k) == if k in xs then Some(Count(xs, k)) else None
    decreases |xs|
  {
    if xs != [] && xs[0] != k {
      var rest := Remove(xs[1..], xs[0]);
      LookupGroup(rest, k);
      RemoveHeadCount(xs, k);
      assert Group(xs)[1..] == Group(rest);
      assert k in rest <==> k in xs by {
        RemoveSpec(xs[1..], xs[0]);
        assert xs == [xs[0]] + xs[1..];
      }
    }
  }

  /** Number of values of `s` that lie in `keys`. */
  function CountIn<T(==)>(s: seq<T>, keys: set<T>): (n: nat)
    ensures n <= |s|
  {
    if s == [] then 0 else (if s[0] in keys then 1 else 0) + CountIn(s[1..], keys)
  }

  /** Counting over a disjoint union of keys is counting over each part. */
  lemma {:induction false} CountInUnion<T>(s: seq<T>, a: set<T>, b: set<T>)
    requires a !! b
    ensures CountIn(s, a + b) == CountIn(s, a) + CountIn(s, b)
  {
    if s != [] {
      CountInUnion(s[1..], a, b);
    }
  }

  lemma {:induction false} CountInSingleton<T>(s: seq<T>, x: T)
    ensures CountIn(s, {x}) == Count(s, x)
  {
    if s != [] {
      CountInSingleton(s[1..], x);
    }
  }

  /** When every value lies in `keys`, all of them are counted. */
  lemma {:induction false} CountInAll<T(!new)>(s: seq<T>, keys: set<T>)
    requires forall x :: x in s ==> x in keys
    ensures CountIn(s, keys) == |s|
  {
    if s != [] {
      assert s[0] in s;
      assert forall x :: x in s[1..] ==> x in s;
      CountInAll(s[1..], keys);
    }
  }

  /** A value of a sequence without duplicates occurs once. */
  lemma {:induction false} CountNoDuplicates<T>(s: seq<T>, x: T)
    requires NoDuplicates(s) && x in s
    ensures Count(s, x) == 1
  {
    NoDuplicatesCons(s[0], s[1..]);
    assert s == [s[0]] + s[1..];
    if s[0] != x {
      CountNoDuplicates(s[1..], x);
    }
  }
}
