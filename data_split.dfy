/**
  `train_test_split` (src/data_split.py:4-14): a chronological split of a
  table into a training and a test table, whole partitions at a time.

  The rows are grouped by their partition value (`partition_by`, `event_id`
  by default), each partition is dated by the largest order value of its
  rows (`order_by`, `status_as_of` by default, here already mapped to an
  integer such as `Calendar.DayNumber`), the partitions are sorted newest
  first, and the first `ceil(test_ratio * #partitions)` of them make up the
  test table. The ratio is the exact rational `p / q`.
 */
module DataSplit {
  import opened Seqs

  /** One row of `df.group_by(partition_by).agg(pl.col(order_by).max())`. */
  datatype Group<K> = Group(key: K, maxOrder: int)

  /** The pair `(train_data, test_data)`. */
  datatype Split<T> = Split(train: seq<T>, test: seq<T>)

  // ----- grouping (line 5) -----

  /** The largest value of `s`; 0 for an empty `s` (never asked for below). */
  function MaxOf(s: seq<int>): (m: int)
    ensures |s| > 0 ==> m in s
    ensures forall v :: v in s ==> v <= m
  {
    if |s| == 0 then 0
    else if |s| == 1 then s[0]
    else
      var rest := MaxOf(s[1..]);
      assert s == [s[0]] + s[1..];
      if s[0] >= rest then s[0] else rest
  }

  function KeyIs<T(!new), K(==)>(key: T -> K, k: K): T -> bool {
    (r: T) => key(r) == k
  }

  /** The distinct partition values of `df`. */
  function Partitions<T(!new), K(==,!new)>(df: seq<T>, key: T -> K): seq<K> {
    Dedup(Map(df, key))
  }

  /** `pl.col(order_by).max()` within partition `k`. */
  function MaxOrder<T(!new), K(==,!new)>(df: seq<T>, key: T -> K, order: T -> int, k: K): (m: int)
    ensures (exists r :: r in df && key(r) == k) ==>
      (exists r :: r in df && key(r) == k && order(r) == m) &&
      (forall r :: r in df && key(r) == k ==> order(r) <= m)
  {
    var rows := Filter(df, KeyIs(key, k));
    var orders := Map(rows, order);
    assert forall r :: r in rows ==> order(r) in orders by {
      forall r | r in rows ensures order(r) in orders {
        var i :| 0 <= i < |rows| && rows[i] == r;
        assert orders[i] == order(r);
      }
    }
    assert forall v :: v in orders ==> exists r :: r in rows && order(r) == v by {
      forall v | v in orders ensures exists r :: r in rows && order(r) == v {
        var i :| 0 <= i < |orders| && orders[i] == v;
        assert rows[i] in rows;
      }
    }
    MaxOf(orders)
  }

  function GroupOf<T(!new), K(==,!new)>(df: seq<T>, key: T -> K, order: T -> int): K -> Group<K> {
    (k: K) => Group(k, MaxOrder(df, key, order, k))
  }

  /** The grouped table, one row per partition. */
  function Groups<T(!new), K(==,!new)>(df: seq<T>, key: T -> K, order: T -> int): seq<Group<K>> {
    Map(Partitions(df, key), GroupOf(df, key, order))
  }

  // ----- sorting newest first (line 5) -----

  predicate SortedDescending<K>(gs: seq<Group<K>>) {
    forall i, j :: 0 <= i < j < |gs| ==> gs[i].maxOrder >= gs[j].maxOrder
  }

  /** Places `g` before the first group no newer than `g`. */
  function InsertDescending<K>(g: Group<K>, gs: seq<Group<K>>): seq<Group<K>>
    decreases |gs|
  {
    if gs == [] || g.maxOrder >= gs[0].maxOrder then [g] + gs
    else [gs[0]] + InsertDescending(g, gs[1..])
  }

  lemma {:induction false} InsertDescendingMultiset<K>(g: Group<K>, gs: seq<Group<K>>)
    ensures multiset(InsertDescending(g, gs)) == multiset(gs) + multiset{g}
    decreases |gs|
  {
    if gs != [] && g.maxOrder < gs[0].maxOrder {
      InsertDescendingMultiset(g, gs[1..]);
      assert gs == [gs[0]] + gs[1..];
    }
  }

  /** No group of `gs` is newer than `d`. */
  ghost predicate AllAtMost<K>(d: int, gs: seq<Group<K>>) {
    forall y :: y in gs ==> y.maxOrder <= d
  }

  lemma SortedDescendingTail<K>(gs: seq<Group<K>>)
    requires SortedDescending(gs) && gs != []
    ensures SortedDescending(gs[1..]) && AllAtMost(gs[0].maxOrder, gs[1..])
  {
    forall y | y in gs[1..] ensures y.maxOrder <= gs[0].maxOrder {
      var k :| 0 <= k < |gs[1..]| && gs[1..][k] == y;
      assert gs[k + 1] == y;
    }
  }

  lemma SortedDescendingCons<K>(y: Group<K>, gs: seq<Group<K>>)
    requires SortedDescending(gs) && AllAtMost(y.maxOrder, gs)
    ensures SortedDescending([y] + gs)
  {
    var r := [y] + gs;
    forall i, j | 0 <= i < j < |r| ensures r[i].maxOrder >= r[j].maxOrder {
      if i == 0 {
        assert r[j] in gs;
      } else {
        assert r[i] == gs[i - 1] && r[j] == gs[j - 1];
      }
    }
  }

  lemma {:induction false} InsertDescendingBounded<K>(d: int, g: Group<K>, gs: seq<Group<K>>)
    requires AllAtMost(d, gs) && g.maxOrder <= d
    ensures AllAtMost(d, InsertDescending(g, gs))
  {
    InsertDescendingMultiset(g, gs);
    forall y | y in InsertDescending(g, gs) ensures y.maxOrder <= d {
      assert y in multiset(gs) + multiset{g};
    }
  }

  lemma {:induction false} InsertDescendingSorted<K>(g: Group<K>, gs: seq<Group<K>>)
    requires SortedDescending(gs)
    ensures SortedDescending(InsertDescending(g, gs))
    decreases |gs|
  {
    if gs == [] {
    } else if g.maxOrder >= gs[0].maxOrder {
      SortedDescendingTail(gs);
      assert AllAtMost(g.maxOrder, gs);
      SortedDescendingCons(g, gs);
    } else {
      SortedDescendingTail(gs);
      InsertDescendingSorted(g, gs[1..]);
      InsertDescendingBounded(gs[0].maxOrder, g, gs[1..]);
      SortedDescendingCons(gs[0], InsertDescending(g, gs[1..]));
    }
  }

  /** `.sort(by=order_by, descending=True)` on the grouped table. */
  function SortDescending<K>(gs: seq<Group<K>>): seq<Group<K>>
    decreases |gs|
  {
    if gs == [] then [] else InsertDescending(gs[0], SortDescending(gs[1..]))
  }

  /** The sort reorders the groups and leaves them newest first. */
  lemma {:induction false} SortDescendingSpec<K>(gs: seq<Group<K>>)
    ensures multiset(SortDescending(gs)) == multiset(gs)
    ensures SortedDescending(SortDescending(gs))
    decreases |gs|
  {
    if gs != [] {
      var rest := SortDescending(gs[1..]);
      SortDescendingSpec(gs[1..]);
      InsertDescendingMultiset(gs[0], rest);
      InsertDescendingSorted(gs[0], rest);
      assert gs == [gs[0]] + gs[1..];
    }
  }

  // ----- the number of test partitions (line 6) -----

  /** `ceil(a / q)` for a positive `q`. */
  function CeilDiv(a: int, q: int): (c: int)
    requires q > 0
    ensures c * q >= a
    ensures (c - 1) * q < a
  {
    var b := -a;
    var d := b / q;
    assert b == d * q + b % q;
    -d
  }

  /** `int(np.ceil(test_ratio * n))` with `test_ratio == p / q`. */
  function TestCount(p: int, q: int, n: nat): int
    requires q > 0
  {
    CeilDiv(p * n, q)
  }

  /** How many rows polars `head(c)` keeps of `len`: all but the last `-c` when `c` is negative. */
  function HeadLength(len: nat, c: int): (h: nat)
    ensures h <= len
    ensures c >= 0 ==> h == if c < len then c else len
    ensures c < 0 ==> h == if len + c > 0 then len + c else 0
  {
    if c >= 0 then (if c < len then c else len)
    else if len + c > 0 then len + c else 0
  }

  function GroupKey<K>(): Group<K> -> K {
    (g: Group<K>) => g.key
  }

  /** `partitions.head(c).get_column(partition_by)` with `c` rounded up from the ratio (lines 6-7). */
  function TakeNewest<K(!new)>(sorted: seq<Group<K>>, p: int, q: int): seq<K>
    requires q > 0
  {
    Map(sorted[..HeadLength(|sorted|, TestCount(p, q, |sorted|))], GroupKey())
  }

  /** `test_partitions` (lines 5-7). */
  function TestPartitions<T(!new), K(==,!new)>(df: seq<T>, key: T -> K, order: T -> int, p: int, q: int): seq<K>
    requires q > 0
  {
    TakeNewest(SortDescending(Groups(df, key, order)), p, q)
  }

  // ----- the two filters (lines 9-11) -----

  function KeyIn<T(!new), K(==)>(key: T -> K, ks: seq<K>): T -> bool {
    (r: T) => key(r) in ks
  }

  function KeyNotIn<T(!new), K(==)>(key: T -> K, ks: seq<K>): T -> bool {
    (r: T) => key(r) !in ks
  }

  /** `(df.filter(~cond), df.filter(cond))` for `cond = pl.col(partition_by).is_in(tp)`. */
  function SplitOn<T(!new), K(==)>(df: seq<T>, key: T -> K, tp: seq<K>): Split<T> {
    Split(Filter(df, KeyNotIn(key, tp)), Filter(df, KeyIn(key, tp)))
  }

  /** `train_test_split(df, order_by, partition_by, test_ratio)` with `test_ratio == p / q`. */
  function TrainTestSplit<T(!new), K(==,!new)>(df: seq<T>, key: T -> K, order: T -> int, p: int, q: int): Split<T>
    requires q > 0
  {
    SplitOn(df, key, TestPartitions(df, key, order, p, q))
  }

  // ----- properties of the filters -----

  /**
    Every input row lands in exactly one of the two tables, by whether its
    partition is listed, so a partition is never split; together the tables
    hold the input rows with their multiplicities, each in input order; an
    empty input gives two empty tables.
   */
  lemma SplitOnIsPartition<T(!new), K(!new)>(df: seq<T>, key: T -> K, tp: seq<K>)
    ensures multiset(SplitOn(df, key, tp).train) + multiset(SplitOn(df, key, tp).test) == multiset(df)
    ensures IsSubsequence(SplitOn(df, key, tp).train, df)
    ensures IsSubsequence(SplitOn(df, key, tp).test, df)
    ensures forall x :: x in df ==>
      (x in SplitOn(df, key, tp).test <==> key(x) in tp) && (x in SplitOn(df, key, tp).train <==> key(x) !in tp)
    ensures forall x, y :: x in df && y in df && key(x) == key(y) ==>
      (x in SplitOn(df, key, tp).test <==> y in SplitOn(df, key, tp).test)
    ensures df == [] ==> SplitOn(df, key, tp) == Split([], [])
  {
    FilterSplit(df, KeyNotIn(key, tp), KeyIn(key, tp));
    FilterIsSubsequence(df, KeyNotIn(key, tp));
    FilterIsSubsequence(df, KeyIn(key, tp));
  }

  /** With no partition listed, everything is training data. */
  lemma SplitOnNothing<T(!new), K(!new)>(df: seq<T>, key: T -> K)
    ensures SplitOn(df, key, []) == Split(df, [])
  {
    FilterNone(df, KeyIn(key, []));
    FilterAll(df, KeyNotIn(key, []));
  }

  /** The listed partitions that occur in the input are exactly the partitions of the test rows. */
  lemma TestRowPartitions<T(!new), K(!new)>(df: seq<T>, key: T -> K, tp: seq<K>)
    ensures forall k :: (exists x :: x in SplitOn(df, key, tp).test && key(x) == k) <==>
      k in tp && exists x :: x in df && key(x) == k
  {
  }

  /**
    The split as a whole: a partition of the input, whole partitions at a
    time. A row is a test row exactly when its partition is chosen and a
    training row exactly when it is not, so no row value is on both sides.
   */
  lemma SplitIsPartition<T(!new), K(!new)>(df: seq<T>, key: T -> K, order: T -> int, p: int, q: int)
    requires q > 0
    ensures multiset(TrainTestSplit(df, key, order, p, q).train) +
      multiset(TrainTestSplit(df, key, order, p, q).test) == multiset(df)
    ensures IsSubsequence(TrainTestSplit(df, key, order, p, q).train, df)
    ensures IsSubsequence(TrainTestSplit(df, key, order, p, q).test, df)
    ensures forall x :: x in df ==>
      (x in TrainTestSplit(df, key, order, p, q).test <==> key(x) in TestPartitions(df, key, order, p, q)) &&
      (x in TrainTestSplit(df, key, order, p, q).train <==> key(x) !in TestPartitions(df, key, order, p, q))
    ensures forall x :: !(x in TrainTestSplit(df, key, order, p, q).train && x in TrainTestSplit(df, key, order, p, q).test)
    ensures forall x, y :: x in df && y in df && key(x) == key(y) ==>
      (x in TrainTestSplit(df, key, order, p, q).test <==> y in TrainTestSplit(df, key, order, p, q).test) &&
      (x in TrainTestSplit(df, key, order, p, q).train <==> y in TrainTestSplit(df, key, order, p, q).train)
    ensures df == [] ==> TrainTestSplit(df, key, order, p, q) == Split([], [])
  {
    SplitOnIsPartition(df, key, TestPartitions(df, key, order, p, q));
  }

  // ----- properties of the grouping and the choice of partitions -----

  /** Every group of the grouped table is the group of its own key, and the keys are the partitions. */
  lemma GroupsAreOwnGroups<T(!new), K(!new)>(df: seq<T>, key: T -> K, order: T -> int)
    ensures |Groups(df, key, order)| == |Partitions(df, key)|
    ensures forall g :: g in Groups(df, key, order) ==>
      g == Group(g.key, MaxOrder(df, key, order, g.key)) && g.key in Partitions(df, key)
    ensures forall k :: k in Partitions(df, key) ==> Group(k, MaxOrder(df, key, order, k)) in Groups(df, key, order)
    ensures NoDup(Groups(df, key, order))
  {
    var ps := Partitions(df, key);
    var gs := Groups(df, key, order);
    forall g | g in gs ensures g == Group(g.key, MaxOrder(df, key, order, g.key)) && g.key in ps {
      var i :| 0 <= i < |gs| && gs[i] == g;
      assert gs[i] == GroupOf(df, key, order)(ps[i]);
    }
    forall k | k in ps ensures Group(k, MaxOrder(df, key, order, k)) in gs {
      var i :| 0 <= i < |ps| && ps[i] == k;
      assert gs[i] == GroupOf(df, key, order)(ps[i]);
    }
    forall i, j | 0 <= i < j < |gs| ensures gs[i] != gs[j] {
      assert gs[i].key == ps[i] && gs[j].key == ps[j];
    }
  }

  /** A partition value occurs in the input exactly when it is one of the partitions. */
  lemma PartitionsAreKeys<T(!new), K(!new)>(df: seq<T>, key: T -> K)
    ensures forall k :: k in Partitions(df, key) <==> exists r :: r in df && key(r) == k
  {
    MapElements(df, key);
    assert forall k :: k in Partitions(df, key) <==> k in Elements(Map(df, key));
  }

  /** Groups that are each determined by their key have distinct keys when they are distinct. */
  lemma SortedKeysDistinct<K(!new)>(sorted: seq<Group<K>>, maxOf: K -> int)
    requires NoDup(sorted)
    requires forall g :: g in sorted ==> g.maxOrder == maxOf(g.key)
    ensures NoDup(Map(sorted, GroupKey()))
  {
    var ks := Map(sorted, GroupKey());
    forall i, j | 0 <= i < j < |ks| ensures ks[i] != ks[j] {
      assert sorted[i] in sorted && sorted[j] in sorted;
      assert sorted[i] != sorted[j];
    }
  }

  /**
    The sorted grouped table holds one group per partition, dated by the
    partition's largest order value, newest first, with distinct keys.
   */
  lemma SortedGroups<T(!new), K(!new)>(df: seq<T>, key: T -> K, order: T -> int)
    ensures |SortDescending(Groups(df, key, order))| == |Partitions(df, key)|
    ensures SortedDescending(SortDescending(Groups(df, key, order)))
    ensures forall g :: g in SortDescending(Groups(df, key, order)) ==>
      g.maxOrder == MaxOrder(df, key, order, g.key) && g.key in Partitions(df, key)
    ensures forall k :: k in Partitions(df, key) ==>
      Group(k, MaxOrder(df, key, order, k)) in SortDescending(Groups(df, key, order))
    ensures NoDup(Map(SortDescending(Groups(df, key, order)), GroupKey()))
  {
    var gs := Groups(df, key, order);
    var sorted := SortDescending(gs);
    GroupsAreOwnGroups(df, key, order);
    SortDescendingSpec(gs);
    assert |sorted| == |multiset(sorted)| == |multiset(gs)| == |gs|;
    NoDupPermutation(gs, sorted);
    forall g | g in sorted ensures g.maxOrder == MaxOrder(df, key, order, g.key) && g.key in Partitions(df, key) {
      assert g in multiset(gs);
    }
    forall k | k in Partitions(df, key) ensures Group(k, MaxOrder(df, key, order, k)) in sorted {
      assert Group(k, MaxOrder(df, key, order, k)) in multiset(sorted);
    }
    SortedKeysDistinct(sorted, (k: K) => MaxOrder(df, key, order, k));
  }

  /**
    Of groups with distinct keys, the chosen keys are distinct, there are
    `HeadLength(n, c)` of them for `c = ceil(p/q * n)`, and they are the
    keys of the leading groups.
   */
  lemma TakeNewestSpec<K(!new)>(sorted: seq<Group<K>>, p: int, q: int)
    requires q > 0
    requires NoDup(Map(sorted, GroupKey()))
    ensures |TakeNewest(sorted, p, q)| == HeadLength(|sorted|, TestCount(p, q, |sorted|))
    ensures NoDup(TakeNewest(sorted, p, q))
    ensures forall i :: 0 <= i < |sorted| ==>
      (sorted[i].key in TakeNewest(sorted, p, q) <==> i < HeadLength(|sorted|, TestCount(p, q, |sorted|)))
  {
    var h := HeadLength(|sorted|, TestCount(p, q, |sorted|));
    MapPrefix(sorted, GroupKey(), h);
    PrefixNoDup(Map(sorted, GroupKey()), h);
  }

  /** Of groups sorted newest first, every chosen group is dated no earlier than every other. */
  lemma TakeNewestIsNewest<K(!new)>(sorted: seq<Group<K>>, p: int, q: int, i: int, j: int)
    requires q > 0
    requires SortedDescending(sorted) && NoDup(Map(sorted, GroupKey()))
    requires 0 <= i < |sorted| && 0 <= j < |sorted|
    requires sorted[i].key in TakeNewest(sorted, p, q) && sorted[j].key !in TakeNewest(sorted, p, q)
    ensures sorted[i].maxOrder >= sorted[j].maxOrder
  {
    TakeNewestSpec(sorted, p, q);
  }

  /**
    The test partitions are distinct; there are `HeadLength(#partitions, c)`
    of them for `c = ceil(p/q * #partitions)`, that is `min(#partitions, c)`
    when `c >= 0`; and they are exactly the partitions of the test rows.
   */
  lemma TestPartitionCount<T(!new), K(!new)>(df: seq<T>, key: T -> K, order: T -> int, p: int, q: int)
    requires q > 0
    ensures NoDup(TestPartitions(df, key, order, p, q))
    ensures |TestPartitions(df, key, order, p, q)| ==
      HeadLength(|Partitions(df, key)|, TestCount(p, q, |Partitions(df, key)|))
    ensures TestCount(p, q, |Partitions(df, key)|) >= 0 ==>
      |TestPartitions(df, key, order, p, q)| ==
        if TestCount(p, q, |Partitions(df, key)|) < |Partitions(df, key)| then TestCount(p, q, |Partitions(df, key)|)
        else |Partitions(df, key)|
    ensures forall k :: k in TestPartitions(df, key, order, p, q) <==>
      exists x :: x in TrainTestSplit(df, key, order, p, q).test && key(x) == k
  {
    var sorted := SortDescending(Groups(df, key, order));
    SortedGroups(df, key, order);
    TakeNewestSpec(sorted, p, q);
    PartitionsAreKeys(df, key);
    var tp := TestPartitions(df, key, order, p, q);
    TestRowPartitions(df, key, tp);
    forall k | k in tp ensures k in Partitions(df, key) {
      var i :| 0 <= i < |tp| && tp[i] == k;
      assert sorted[i] in sorted;
    }
  }

  /** When the rounded-up count is 0 the test table is empty and the training table is the input. */
  lemma ZeroCountEmptyTest<T(!new), K(!new)>(df: seq<T>, key: T -> K, order: T -> int, p: int, q: int)
    requires q > 0
    requires TestCount(p, q, |Partitions(df, key)|) == 0
    ensures TrainTestSplit(df, key, order, p, q) == Split(df, [])
  {
    SortedGroups(df, key, order);
    SplitOnNothing(df, key);
  }

  /** The partition of a test row is a test partition and that of a training row is not; both are partitions. */
  lemma SideOfRow<T(!new), K(!new)>(df: seq<T>, key: T -> K, order: T -> int, p: int, q: int, x: T, y: T)
    requires q > 0
    requires x in TrainTestSplit(df, key, order, p, q).test
    requires y in TrainTestSplit(df, key, order, p, q).train
    ensures key(x) in TestPartitions(df, key, order, p, q) && key(y) !in TestPartitions(df, key, order, p, q)
    ensures key(x) in Partitions(df, key) && key(y) in Partitions(df, key)
  {
    PartitionsAreKeys(df, key);
  }

  /**
    The test partitions are the newest: every test row's partition is dated
    no earlier than every training row's partition.
   */
  lemma TestIsNewest<T(!new), K(!new)>(df: seq<T>, key: T -> K, order: T -> int, p: int, q: int, x: T, y: T)
    requires q > 0
    requires x in TrainTestSplit(df, key, order, p, q).test
    requires y in TrainTestSplit(df, key, order, p, q).train
    ensures MaxOrder(df, key, order, key(x)) >= MaxOrder(df, key, order, key(y))
  {
    var sorted := SortDescending(Groups(df, key, order));
    SideOfRow(df, key, order, p, q, x, y);
    SortedGroups(df, key, order);
    var gx := Group(key(x), MaxOrder(df, key, order, key(x)));
    var gy := Group(key(y), MaxOrder(df, key, order, key(y)));
    var i :| 0 <= i < |sorted| && sorted[i] == gx;
    var j :| 0 <= j < |sorted| && sorted[j] == gy;
    TakeNewestIsNewest(sorted, p, q, i, j);
  }

  /** Multiplying by a non-negative `d` keeps `a <= b`. */
  lemma MulMonotone(a: int, b: int, d: int)
    requires a <= b && d >= 0
    ensures a * d <= b * d
  {
  }

  /** Multiplying by a positive `d` keeps the order both ways. */
  lemma MulCancel(a: int, b: int, d: int)
    requires d > 0 && a * d <= b * d
    ensures a <= b
  {
    if a > b {
      MulMonotone(b + 1, a, d);
    }
  }

  /** The rounded-up quotient is the least `c` with `c * q >= a`. */
  lemma CeilDivIsLeast(a: int, q: int, c: int)
    requires q > 0 && c * q >= a
    ensures CeilDiv(a, q) <= c
  {
    var r := CeilDiv(a, q);
    if r - 1 >= c {
      MulMonotone(c, r - 1, q);
    }
  }

  /** A ratio `p1/q1` no larger than `p2/q2` gives a product no larger once both are rounded up. */
  lemma CrossMultiply(p1: int, q1: int, p2: int, q2: int, n: nat, c2: int)
    requires q1 > 0 && q2 > 0
    requires p1 * q2 <= p2 * q1
    requires c2 * q2 >= p2 * n
    ensures c2 * q1 >= p1 * n
  {
    MulMonotone(p2 * n, c2 * q2, q1);
    MulMonotone(p1 * q2, p2 * q1, n);
    assert (c2 * q2) * q1 == (c2 * q1) * q2;
    assert (p2 * n) * q1 == (p2 * q1) * n;
    assert (p1 * q2) * n == (p1 * n) * q2;
    MulCancel(p1 * n, c2 * q1, q2);
  }

  /** The rounded-up test count grows with the ratio, for a non-negative ratio. */
  lemma TestCountMonotone(p1: int, q1: int, p2: int, q2: int, n: nat)
    requires q1 > 0 && q2 > 0 && p1 >= 0
    requires p1 * q2 <= p2 * q1
    ensures 0 <= TestCount(p1, q1, n) <= TestCount(p2, q2, n)
  {
    var c1 := TestCount(p1, q1, n);
    var c2 := TestCount(p2, q2, n);
    CrossMultiply(p1, q1, p2, q2, n, c2);
    CeilDivIsLeast(p1 * n, q1, c2);
    MulMonotone(0, p1, n);
    if c1 < 0 {
      MulMonotone(c1, -1, q1);
    }
  }

  /**
    For non-negative ratios, raising the ratio never removes a partition
    from the test table: the smaller ratio's test partitions lead the larger
    one's, so there are no more of them and each of its test rows is still
    a test row.
   */
  lemma MoreRatioMoreTest<T(!new), K(!new)>(df: seq<T>, key: T -> K, order: T -> int, p1: int, q1: int, p2: int, q2: int)
    requires q1 > 0 && q2 > 0 && p1 >= 0
    requires p1 * q2 <= p2 * q1
    ensures |TestPartitions(df, key, order, p1, q1)| <= |TestPartitions(df, key, order, p2, q2)|
    ensures TestPartitions(df, key, order, p1, q1) <= TestPartitions(df, key, order, p2, q2)
    ensures forall x :: x in TrainTestSplit(df, key, order, p1, q1).test ==> x in TrainTestSplit(df, key, order, p2, q2).test
  {
    var sorted := SortDescending(Groups(df, key, order));
    var n := |sorted|;
    TestCountMonotone(p1, q1, p2, q2, n);
    var ks := Map(sorted, GroupKey());
    var h1 := HeadLength(n, TestCount(p1, q1, n));
    var h2 := HeadLength(n, TestCount(p2, q2, n));
    assert h1 <= h2;
    assert TakeNewest(sorted, p1, q1) == ks[..h1];
    assert TakeNewest(sorted, p2, q2) == ks[..h2];
  }

  /**
    A negative ratio is outside what the function is meant for, and `head`
    then keeps all but the last partitions: ten partitions at ratio -1/10
    put nine in the test table, while ratio 0 puts none.
   */
  lemma NegativeRatioTakesMost()
    ensures HeadLength(10, TestCount(-1, 10, 10)) == 9
    ensures HeadLength(10, TestCount(0, 10, 10)) == 0
  {
    assert TestCount(-1, 10, 10) == -1;
  }

  /** The default ratio 0.2 = 1/5 over ten partitions puts two partitions in the test table. */
  lemma DefaultRatioOnTenPartitions<T(!new), K(!new)>(df: seq<T>, key: T -> K, order: T -> int)
    requires |Partitions(df, key)| == 10
    ensures |TestPartitions(df, key, order, 1, 5)| == 2
  {
    TestPartitionCount(df, key, order, 1, 5);
    assert TestCount(1, 5, 10) == 2;
  }
}
