/** Orderings used by the report: frequency tables sorted by count,
    largest first (pandas `value_counts` and `sort_values(ascending=False)`),
    and group keys sorted ascending (pandas `groupby`, which sorts its keys). */
module Ordering {
  import opened Collections

  /** The keys of a frequency table, row by row. */
  function Keys<K>(rows: seq<Counted<K>>): (ks: seq<K>)
    ensures |ks| == |rows|
    ensures forall i :: 0 <= i < |rows| ==> ks[i] == rows[i].key
  {
    if rows == [] then [] else [rows[0].key] + Keys(rows[1..])
  }

  /** No key appears in two rows. */
  ghost predicate KeysDistinct<K>(rows: seq<Counted<K>>) {
    NoDuplicates(Keys(rows))
  }

  /** Counts never increase from one row to a later one. */
  ghost predicate NonIncreasing<K>(rows: seq<Counted<K>>) {
    forall i, j :: 0 <= i < j < |rows| ==> rows[i].count >= rows[j].count
  }

  /** Places `x` after every row whose count is at least its own. */
  function InsertByCount<K>(x: Counted<K>, rows: seq<Counted<K>>): seq<Counted<K>> {
    if rows == [] then [x]
    else if rows[0].count < x.count then [x] + rows
    else [rows[0]] + InsertByCount(x, rows[1..])
  }

  /** Sorts a frequency table by count, largest first. Which of two rows
      with equal counts comes first is not part of any contract. */
  function SortByCount<K>(rows: seq<Counted<K>>): seq<Counted<K>> {
    if rows == [] then [] else InsertByCount(rows[0], SortByCount(rows[1..]))
  }

  lemma {:induction false} InsertByCountPerm<K>(x: Counted<K>, rows: seq<Counted<K>>)
    ensures multiset(InsertByCount(x, rows)) == multiset(rows) + multiset{x}
    ensures SumCounts(InsertByCount(x, rows)) == x.count + SumCounts(rows)
  {
    if rows != [] && rows[0].count >= x.count {
      InsertByCountPerm(x, rows[1..]);
      assert rows == [rows[0]] + rows[1..];
    }
  }

  /** Inserting a row no larger than `b` into rows no larger than `b`
      gives rows no larger than `b`. */
  lemma {:induction false} InsertByCountBound<K>(x: Counted<K>, rows: seq<Counted<K>>, b: nat)
    requires x.count <= b && forall i :: 0 <= i < |rows| ==> rows[i].count <= b
    ensures forall i :: 0 <= i < |InsertByCount(x, rows)| ==> InsertByCount(x, rows)[i].count <= b
  {
    if rows != [] && rows[0].count >= x.count {
      InsertByCountBound(x, rows[1..], b);
      assert InsertByCount(x, rows) == [rows[0]] + InsertByCount(x, rows[1..]);
    }
  }

  lemma {:induction false} InsertByCountSorted<K>(x: Counted<K>, rows: seq<Counted<K>>)
    requires NonIncreasing(rows)
    ensures NonIncreasing(InsertByCount(x, rows))
  {
    if rows != [] && rows[0].count >= x.count {
      var tail := rows[1..];
      InsertByCountSorted(x, tail);
      InsertByCountBound(x, tail, rows[0].count);
      assert InsertByCount(x, rows) == [rows[0]] + InsertByCount(x, tail);
    }
  }

  lemma {:induction false} InsertByCountKeys<K>(x: Counted<K>, rows: seq<Counted<K>>)
    requires KeysDistinct(rows) && x.key !in Keys(rows)
    ensures KeysDistinct(InsertByCount(x, rows))
    ensures forall k :: k in Keys(InsertByCount(x, rows)) <==> k == x.key || k in Keys(rows)
  {
    var r := InsertByCount(x, rows);
    if rows == [] {
      assert Keys(r) == [x.key] + Keys(rows);
      NoDuplicatesCons(x.key, Keys(rows));
    } else if rows[0].count < x.count {
      assert Keys(r) == [x.key] + Keys(rows);
      NoDuplicatesCons(x.key, Keys(rows));
    } else {
      var tail := rows[1..];
      assert Keys(rows) == [rows[0].key] + Keys(tail);
      NoDuplicatesCons(rows[0].key, Keys(tail));
      InsertByCountKeys(x, tail);
      var t := InsertByCount(x, tail);
      assert Keys(r) == [rows[0].key] + Keys(t);
      NoDuplicatesCons(rows[0].key, Keys(t));
    }
  }

  /** Sorting by count gives a non-increasing permutation of the rows that
      keeps the total and the distinctness of the keys. */
  lemma {:induction false} SortByCountSpec<K>(rows: seq<Counted<K>>)
    ensures NonIncreasing(SortByCount(rows))
    ensures multiset(SortByCount(rows)) == multiset(rows)
    ensures SumCounts(SortByCount(rows)) == SumCounts(rows)
  {
    if rows != [] {
      var tail := rows[1..];
      SortByCountSpec(tail);
      var s := SortByCount(tail);
      InsertByCountPerm(rows[0], s);
      InsertByCountSorted(rows[0], s);
      assert rows == [rows[0]] + tail;
    }
  }

  lemma {:induction false} SortByCountKeys<K>(rows: seq<Counted<K>>)
    requires KeysDistinct(rows)
    ensures KeysDistinct(SortByCount(rows))
    ensures forall k :: k in Keys(SortByCount(rows)) <==> k in Keys(rows)
  {
    if rows != [] {
      var tail := rows[1..];
      assert Keys(rows) == [rows[0].key] + Keys(tail);
      NoDuplicatesCons(rows[0].key, Keys(tail));
      SortByCountKeys(tail);
      InsertByCountKeys(rows[0], SortByCount(tail));
    }
  }

  /** pandas `value_counts` (and `groupby(...).size()` followed by a sort on
      the size, largest first): one row per distinct value with its number of
      occurrences. */
  function ValueCounts<T(==)>(xs: seq<T>): seq<Counted<T>> {
    SortByCount(Group(xs))
  }

  /** Every row of a frequency table is a row of the grouping it sorts. */
  lemma ValueCountsRows<T(!new)>(xs: seq<T>)
    ensures forall i :: 0 <= i < |ValueCounts(xs)| ==>
      ValueCounts(xs)[i].count == Count(xs, ValueCounts(xs)[i].key) >= 1
  {
    var g, r := Group(xs), ValueCounts(xs);
    GroupRows(xs);
    SortByCountSpec(g);
    forall i | 0 <= i < |r| ensures r[i].count == Count(xs, r[i].key) >= 1 {
      assert r[i] in multiset(g);
    }
  }

  /** The frequency table of `xs`: one row per distinct value and no other,
      each counting that value's occurrences (so at least 1), the counts
      summing to |xs|, and the rows sorted by count, largest first. */
  lemma ValueCountsSpec<T(!new)>(xs: seq<T>)
    ensures NonIncreasing(ValueCounts(xs))
    ensures KeysDistinct(ValueCounts(xs))
    ensures forall k :: k in Keys(ValueCounts(xs)) <==> k in xs
    ensures forall i :: 0 <= i < |ValueCounts(xs)| ==>
      ValueCounts(xs)[i].count == Count(xs, ValueCounts(xs)[i].key) >= 1
    ensures SumCounts(ValueCounts(xs)) == |xs|
    ensures |ValueCounts(xs)| == |set x | x in xs|
  {
    var g, r := Group(xs), ValueCounts(xs);
    GroupSpec(xs);
    DistinctSpec(xs);
    DistinctCard(xs);
    SortByCountSpec(g);
    ValueCountsRows(xs);
    assert Keys(g) == Distinct(xs);
    SortByCountKeys(g);
    assert |r| == |g| by {
      assert |multiset(r)| == |multiset(g)|;
    }
  }

  /** The frequency table is a reordering of the first-occurrence
      grouping: no group is lost, added or changed by the sort. */
  lemma ValueCountsPermutation<T>(xs: seq<T>)
    ensures multiset(ValueCounts(xs)) == multiset(Group(xs))
  {
    SortByCountSpec(Group(xs));
  }

  /** `less` is a strict total order. */
  ghost predicate StrictTotalOrder<K(!new)>(less: (K, K) -> bool) {
    && (forall a :: !less(a, a))
    && (forall a, b, c :: less(a, b) && less(b, c) ==> less(a, c))
    && (forall a, b :: a != b ==> less(a, b) || less(b, a))
  }

  /** Every element is `less` than every later one. */
  ghost predicate StrictlySorted<K>(s: seq<K>, less: (K, K) -> bool) {
    forall i, j :: 0 <= i < j < |s| ==> less(s[i], s[j])
  }

  function InsertKey<K>(x: K, s: seq<K>, less: (K, K) -> bool): seq<K> {
    if s == [] then [x]
    else if less(x, s[0]) then [x] + s
    else [s[0]] + InsertKey(x, s[1..], less)
  }

  /** Sorts keys ascending under `less`. */
  function SortKeys<K>(s: seq<K>, less: (K, K) -> bool): seq<K> {
    if s == [] then [] else InsertKey(s[0], SortKeys(s[1..], less), less)
  }

  lemma {:induction false} InsertKeyPerm<K>(x: K, s: seq<K>, less: (K, K) -> bool)
    ensures multiset(InsertKey(x, s, less)) == multiset(s) + multiset{x}
  {
    if s == [] {
    } else if less(x, s[0]) {
      assert InsertKey(x, s, less) == [x] + s;
    } else {
      var t := InsertKey(x, s[1..], less);
      InsertKeyPerm(x, s[1..], less);
      assert InsertKey(x, s, less) == [s[0]] + t;
      assert s == [s[0]] + s[1..];
      assert multiset(s) == multiset{s[0]} + multiset(s[1..]);
    }
  }

  lemma SortedTail<K>(s: seq<K>, less: (K, K) -> bool)
    requires s != [] && StrictlySorted(s, less)
    ensures StrictlySorted(s[1..], less)
  {
    var tail := s[1..];
    forall i, j | 0 <= i < j < |tail| ensures less(tail[i], tail[j]) {
      assert tail[i] == s[i + 1] && tail[j] == s[j + 1];
    }
  }

  lemma {:induction false} InsertKeySpec<K(!new)>(x: K, s: seq<K>, less: (K, K) -> bool)
    requires StrictTotalOrder(less)
    requires StrictlySorted(s, less) && x !in s
    ensures StrictlySorted(InsertKey(x, s, less), less)
    ensures multiset(InsertKey(x, s, less)) == multiset(s) + multiset{x}
  {
    InsertKeyPerm(x, s, less);
    var r := InsertKey(x, s, less);
    if s == [] {
    } else if less(x, s[0]) {
      assert r[1..] == s;
      forall j | 0 < j < |r| ensures less(r[0], r[j]) {
        if j > 1 { assert less(s[0], s[j - 1]); }
      }
    } else {
      var tail := s[1..];
      SortedTail(s, less);
      assert x != s[0] && x !in tail;
      InsertKeySpec(x, tail, less);
      var t := InsertKey(x, tail, less);
      assert r == [s[0]] + t;
      assert less(s[0], x);
      forall j | 0 < j < |r| ensures less(r[0], r[j]) {
        assert r[j] in multiset(t);
        if r[j] != x {
          var k :| 0 <= k < |tail| && tail[k] == r[j];
          assert s[k + 1] == r[j];
        }
      }
    }
  }

  /** Sorting distinct keys lists the same keys in strictly ascending order. */
  lemma {:induction false} SortKeysSpec<K(!new)>(s: seq<K>, less: (K, K) -> bool)
    requires StrictTotalOrder(less)
    requires NoDuplicates(s)
    ensures StrictlySorted(SortKeys(s, less), less)
    ensures multiset(SortKeys(s, less)) == multiset(s)
  {
    if s != [] {
      var tail := s[1..];
      assert s == [s[0]] + tail;
      NoDuplicatesCons(s[0], tail);
      SortKeysSpec(tail, less);
      assert s[0] !in SortKeys(tail, less) by {
        assert s[0] !in multiset(tail);
      }
      InsertKeySpec(s[0], SortKeys(tail, less), less);
    }
  }

  /** The distinct values of `s`, sorted ascending: the index of a pandas
      `groupby` result. */
  function SortedDistinct<K(==)>(s: seq<K>, less: (K, K) -> bool): seq<K> {
    SortKeys(Distinct(s), less)
  }

  /** The group keys are exactly the values present, each once, ascending. */
  lemma SortedDistinctSpec<K(!new)>(s: seq<K>, less: (K, K) -> bool)
    requires StrictTotalOrder(less)
    ensures StrictlySorted(SortedDistinct(s, less), less)
    ensures forall k :: k in SortedDistinct(s, less) <==> k in s
  {
    DistinctSpec(s);
    SortKeysSpec(Distinct(s), less);
    forall k ensures k in SortedDistinct(s, less) <==> k in s {
      assert k in SortedDistinct(s, less) <==> k in multiset(Distinct(s));
    }
  }

  /** Python's ordering of strings: lexicographic by code point. */
  predicate StringLess(a: string, b: string) {
    if a == [] then b != []
    else if b == [] then false
    else if a[0] != b[0] then a[0] < b[0]
    else StringLess(a[1..], b[1..])
  }

  lemma {:induction false} StringLessIrreflexive(a: string)
    ensures !StringLess(a, a)
  {
    if a != [] { StringLessIrreflexive(a[1..]); }
  }

  lemma {:induction false} StringLessTransitive(a: string, b: string, c: string)
    requires StringLess(a, b) && StringLess(b, c)
    ensures StringLess(a, c)
  {
    if a != [] && b != [] && c != [] && a[0] == b[0] && b[0] == c[0] {
      StringLessTransitive(a[1..], b[1..], c[1..]);
    }
  }

  lemma {:induction false} StringLessTotal(a: string, b: string)
    requires a != b
    ensures StringLess(a, b) || StringLess(b, a)
  {
    if a != [] && b != [] && a[0] == b[0] {
      assert a == [a[0]] + a[1..] && b == [b[0]] + b[1..];
      StringLessTotal(a[1..], b[1..]);
    }
  }

  lemma StringLessIsStrictTotal()
    ensures StrictTotalOrder((a: string, b: string) => StringLess(a, b))
  {
    forall a: string ensures !StringLess(a, a) { StringLessIrreflexive(a); }
    forall a: string, b: string, c: string | StringLess(a, b) && StringLess(b, c)
      ensures StringLess(a, c)
    {
      StringLessTransitive(a, b, c);
    }
    forall a: string, b: string | a != b ensures StringLess(a, b) || StringLess(b, a) {
      StringLessTotal(a, b);
    }
  }

  lemma IntLessIsStrictTotal()
    ensures StrictTotalOrder((a: int, b: int) => a < b)
  {
  }
}
