/**
 * `QueryLogReporter`: orders the completed records by the chosen sort key,
 * memoises the sorted list until the order changes, hands out the first
 * `n_entries` of them, and classifies elapsed times against a threshold.
 */
module Reporting {
  import opened Wrappers
  import opened Statistics
  import opened QueryLogParsing

  // ---------------------------------------------------------------------
  // Sorting by a key (`sort_by`)

  /** The elapsed time of a record; the reporter only ever holds finished records. */
  function ElapsedOf(s: Statistic): nat { s.elapsed.GetOr(0) }

  predicate SortedBy(r: seq<Statistic>, key: Statistic -> int) {
    forall i, j :: 0 <= i < j < |r| ==> key(r[i]) <= key(r[j])
  }

  /** Puts `x` into `r` in front of the first element whose key is not smaller. */
  function InsertBy(x: Statistic, r: seq<Statistic>, key: Statistic -> int): (res: seq<Statistic>)
    ensures |res| == |r| + 1
  {
    if r == [] then [x]
    else if key(x) <= key(r[0]) then [x] + r
    else [r[0]] + InsertBy(x, r[1..], key)
  }

  /** Inserting adds exactly the one record. */
  lemma {:induction false} InsertByPermutes(x: Statistic, r: seq<Statistic>, key: Statistic -> int)
    ensures multiset(InsertBy(x, r, key)) == multiset(r) + multiset{x}
  {
    if r != [] && key(x) > key(r[0]) {
      InsertByPermutes(x, r[1..], key);
      assert r == [r[0]] + r[1..];
    }
  }

  lemma {:induction false} InsertBySorted(x: Statistic, r: seq<Statistic>, key: Statistic -> int)
    requires SortedBy(r, key)
    ensures SortedBy(InsertBy(x, r, key), key)
  {
    if r != [] && key(x) > key(r[0]) {
      SortedTail(r, key);
      InsertBySorted(x, r[1..], key);
      InsertByBound(x, r[1..], key, key(r[0]));
      SortedCons(r[0], InsertBy(x, r[1..], key), key);
    }
  }

  predicate AtLeast(r: seq<Statistic>, key: Statistic -> int, bound: int) {
    forall j :: 0 <= j < |r| ==> bound <= key(r[j])
  }

  lemma SortedTail(r: seq<Statistic>, key: Statistic -> int)
    requires SortedBy(r, key) && r != []
    ensures SortedBy(r[1..], key) && AtLeast(r[1..], key, key(r[0]))
  {
    forall i, j | 0 <= i < j < |r[1..]| ensures key(r[1..][i]) <= key(r[1..][j]) {
      assert r[1..][i] == r[i + 1] && r[1..][j] == r[j + 1];
    }
    forall j | 0 <= j < |r[1..]| ensures key(r[0]) <= key(r[1..][j]) {
      assert r[1..][j] == r[j + 1];
    }
  }

  lemma {:induction false} InsertByBound(x: Statistic, r: seq<Statistic>, key: Statistic -> int, bound: int)
    requires AtLeast(r, key, bound) && bound <= key(x)
    ensures AtLeast(InsertBy(x, r, key), key, bound)
  {
    if r != [] && key(x) > key(r[0]) {
      assert AtLeast(r[1..], key, bound) by {
        forall j | 0 <= j < |r[1..]| ensures bound <= key(r[1..][j]) {
          assert r[1..][j] == r[j + 1];
        }
      }
      InsertByBound(x, r[1..], key, bound);
      var res := InsertBy(x, r, key);
      assert res == [r[0]] + InsertBy(x, r[1..], key);
    }
  }

  lemma SortedCons(a: Statistic, t: seq<Statistic>, key: Statistic -> int)
    requires SortedBy(t, key) && AtLeast(t, key, key(a))
    ensures SortedBy([a] + t, key)
  {
    var res := [a] + t;
    forall i, j | 0 <= i < j < |res| ensures key(res[i]) <= key(res[j]) {
      if i == 0 {
        assert res[j] == t[j - 1];
      } else {
        assert res[i] == t[i - 1] && res[j] == t[j - 1];
      }
    }
  }

  /** `sort_by(&key)`: an insertion sort; Ruby's own sort is not stable, so only the key order is promised. */
  function SortBy(s: seq<Statistic>, key: Statistic -> int): (r: seq<Statistic>)
    ensures |r| == |s|
  {
    if s == [] then [] else InsertBy(s[0], SortBy(s[1..], key), key)
  }

  /** Sorting returns a permutation of the records. */
  lemma {:induction false} SortByPermutes(s: seq<Statistic>, key: Statistic -> int)
    ensures multiset(SortBy(s, key)) == multiset(s)
  {
    if s != [] {
      SortByPermutes(s[1..], key);
      InsertByPermutes(s[0], SortBy(s[1..], key), key);
      assert s == [s[0]] + s[1..];
    }
  }

  lemma {:induction false} SortBySorted(s: seq<Statistic>, key: Statistic -> int)
    ensures SortedBy(SortBy(s, key), key)
  {
    if s != [] {
      SortBySorted(s[1..], key);
      InsertBySorted(s[0], SortBy(s[1..], key), key);
    }
  }

  // ---------------------------------------------------------------------
  // The sort keys (`sorter`)

  function Ascending(s: Statistic): int { ElapsedOf(s) }
  function Descending(s: Statistic): int { -(ElapsedOf(s) as int) }
  function Earliest(s: Statistic): int { s.startTime }
  function Latest(s: Statistic): int { -s.startTime }

  /**
   * `sorter` as written: "elapsed" and "-elapsed" both negate the elapsed time,
   * and "-start-time" negates a `Time`, which has no unary minus and raises
   * `NoMethodError` (None here).
   */
  function SortKeyAsWritten(order: string): (r: Option<Statistic -> int>)
    ensures r.None? <==> order == "-start-time"
    ensures order in {"elapsed", "-elapsed"} ==> forall s :: r.value(s) == -(ElapsedOf(s) as int)
    ensures order !in {"elapsed", "-elapsed", "-start-time"} ==> forall s :: r.value(s) == s.startTime
  {
    if order == "elapsed" || order == "-elapsed" then Some(Descending)
    else if order == "-start-time" then None
    else Some(Earliest)
  }

  /** `sorted_statistics` as written: `sort_by` calls the key on every record, so any record makes a raising key raise. */
  function SortedAsWritten(order: string, stats: seq<Statistic>): (r: Option<seq<Statistic>>)
    ensures r.None? <==> order == "-start-time" && stats != []
    ensures r.Some? ==> multiset(r.value) == multiset(stats)
    ensures r.Some? && order in {"elapsed", "-elapsed"} ==>
      forall i, j :: 0 <= i < j < |r.value| ==> ElapsedOf(r.value[i]) >= ElapsedOf(r.value[j])
    ensures r.Some? && order !in {"elapsed", "-elapsed", "-start-time"} ==>
      forall i, j :: 0 <= i < j < |r.value| ==> r.value[i].startTime <= r.value[j].startTime
  {
    match SortKeyAsWritten(order)
    case None => if stats == [] then Some([]) else None
    case Some(key) =>
      SortBySorted(stats, key);
      SortByPermutes(stats, key);
      Some(SortBy(stats, key))
  }

  /** As written, ordering by "-start-time" fails on any non-empty report. */
  lemma LatestFirstFailsAsWritten(stats: seq<Statistic>)
    requires stats != []
    ensures SortedAsWritten("-start-time", stats).None?
  {
  }

  /** As written, "elapsed" puts the slower of two requests first, exactly like "-elapsed". */
  lemma ElapsedDescendsAsWritten(fast: Statistic, slow: Statistic)
    requires fast.elapsed == Some(1) && slow.elapsed == Some(2)
    ensures SortedAsWritten("elapsed", [fast, slow]) == Some([slow, fast])
    ensures SortedAsWritten("elapsed", [fast, slow]) == SortedAsWritten("-elapsed", [fast, slow])
  {
    assert [fast, slow][1..] == [slow];
    assert SortBy([slow], Descending) == [slow];
    assert Descending(fast) == -1 && Descending(slow) == -2;
    assert InsertBy(fast, [slow], Descending) == [slow] + InsertBy(fast, [], Descending);
    assert SortBy([fast, slow], Descending) == InsertBy(fast, SortBy([slow], Descending), Descending);
    assert SortKeyAsWritten("elapsed") == Some(Descending);
    assert InsertBy(fast, [], Descending) == [fast];
    assert [slow] + [fast] == [slow, fast];
    assert SortedAsWritten("elapsed", [fast, slow]) == Some(SortBy([fast, slow], Descending));
  }

  /**
   * The sort key the reporter uses: "elapsed" shortest first, "-elapsed"
   * longest first, "-start-time" latest first, and any other order
   * (including "start-time") earliest first.
   */
  function SortKey(order: string): (key: Statistic -> int)
    ensures order == "elapsed" ==> forall a, b :: key(a) <= key(b) <==> ElapsedOf(a) <= ElapsedOf(b)
    ensures order == "-elapsed" ==> forall a, b :: key(a) <= key(b) <==> ElapsedOf(a) >= ElapsedOf(b)
    ensures order == "-start-time" ==> forall a, b :: key(a) <= key(b) <==> a.startTime >= b.startTime
    ensures order !in {"elapsed", "-elapsed", "-start-time"} ==>
      forall a, b :: key(a) <= key(b) <==> a.startTime <= b.startTime
  {
    if order == "elapsed" then Ascending
    else if order == "-elapsed" then Descending
    else if order == "-start-time" then Latest
    else Earliest
  }

  /** What each order means for the sorted list, and that it holds the same records. */
  lemma OrderMeaning(stats: seq<Statistic>, order: string)
    ensures var r := SortBy(stats, SortKey(order));
      && multiset(r) == multiset(stats)
      && (order == "elapsed" ==> forall i, j :: 0 <= i < j < |r| ==> ElapsedOf(r[i]) <= ElapsedOf(r[j]))
      && (order == "-elapsed" ==> forall i, j :: 0 <= i < j < |r| ==> ElapsedOf(r[i]) >= ElapsedOf(r[j]))
      && (order == "-start-time" ==> forall i, j :: 0 <= i < j < |r| ==> r[i].startTime >= r[j].startTime)
      && (order !in {"elapsed", "-elapsed", "-start-time"} ==>
            forall i, j :: 0 <= i < j < |r| ==> r[i].startTime <= r[j].startTime)
  {
    var key := SortKey(order);
    var r := SortBy(stats, key);
    SortBySorted(stats, key);
    SortByPermutes(stats, key);
    forall i, j | 0 <= i < j < |r| ensures key(r[i]) <= key(r[j]) {
    }
  }

  /** How many records `each` yields: none for a non-positive limit, otherwise at most the limit. */
  function Shown(nEntries: int, size: nat): (k: nat)
    ensures k <= size
  {
    if nEntries <= 0 then 0 else if nEntries < size then nEntries else size
  }

  /** The records `each` yields come first in the order: none of the records left out sorts before them. */
  lemma EachShowsTop(stats: seq<Statistic>, order: string, nEntries: int)
    ensures var r, k := SortBy(stats, SortKey(order)), Shown(nEntries, |stats|);
      && (nEntries <= 0 ==> k == 0)
      && (nEntries > 0 ==> k == if nEntries < |stats| then nEntries else |stats|)
      && multiset(r[..k]) <= multiset(stats)
      && forall i, j :: 0 <= i < k <= j < |r| ==> SortKey(order)(r[i]) <= SortKey(order)(r[j])
  {
    var r := SortBy(stats, SortKey(order));
    var k := Shown(nEntries, |stats|);
    SortBySorted(stats, SortKey(order));
    SortByPermutes(stats, SortKey(order));
    assert r == r[..k] + r[k..];
    assert multiset(r) == multiset(r[..k]) + multiset(r[k..]);
  }

  // ---------------------------------------------------------------------
  // The reporter

  class QueryLogReporter {
    const statistics: seq<Statistic>
    var order: string
    var nEntries: int
    /** The slow threshold, in nanoseconds. */
    var slowThreshold: int
    /** The memoised sorted list: None until asked for, and again after the order changes. */
    var sortedStatistics: Option<seq<Statistic>>

    predicate Valid()
      reads this
    {
      && AllFinished(statistics)
      && (sortedStatistics.Some? ==> sortedStatistics.value == SortBy(statistics, SortKey(order)))
    }

    constructor (statistics: seq<Statistic>)
      requires AllFinished(statistics)
      ensures Valid()
      ensures this.statistics == statistics && order == "-elapsed" && nEntries == 10
      ensures slowThreshold == 50_000_000 && sortedStatistics == None
    {
      this.statistics := statistics;
      order := "-elapsed";
      nEntries := 10;
      slowThreshold := 50_000_000;
      sortedStatistics := None;
    }

    /** `order=`: setting the order it already has keeps the memoised list, any other order drops it. */
    method SetOrder(newOrder: string)
      requires Valid()
      modifies this
      ensures Valid()
      ensures order == newOrder && nEntries == old(nEntries) && slowThreshold == old(slowThreshold)
      ensures old(order) == newOrder ==> sortedStatistics == old(sortedStatistics)
      ensures old(order) != newOrder ==> sortedStatistics == None
    {
      if order == newOrder {
        return;
      }
      order := newOrder;
      sortedStatistics := None;
    }

    /** `apply_options`: a missing option keeps the current value. */
    method ApplyOptions(newOrder: Option<string>, newNEntries: Option<int>, newSlowThreshold: Option<int>)
      requires Valid()
      modifies this
      ensures Valid()
      ensures order == newOrder.GetOr(old(order))
      ensures nEntries == newNEntries.GetOr(old(nEntries))
      ensures slowThreshold == newSlowThreshold.GetOr(old(slowThreshold))
      ensures order == old(order) ==> sortedStatistics == old(sortedStatistics)
    {
      SetOrder(newOrder.GetOr(order));
      nEntries := newNEntries.GetOr(nEntries);
      slowThreshold := newSlowThreshold.GetOr(slowThreshold);
    }

    /** `sorted_statistics`: the records sorted by the current order, computed once and then memoised. */
    method SortedStatistics() returns (r: seq<Statistic>)
      requires Valid()
      modifies this
      ensures Valid()
      ensures order == old(order) && nEntries == old(nEntries) && slowThreshold == old(slowThreshold)
      ensures sortedStatistics == Some(r)
      ensures r == SortBy(statistics, SortKey(order))
    {
      if sortedStatistics.None? {
        sortedStatistics := Some(SortBy(statistics, SortKey(order)));
      }
      r := sortedStatistics.value;
    }

    /** `each`: the sorted records, stopping once `n_entries` of them have been yielded. */
    method Each() returns (shown: seq<Statistic>)
      requires Valid()
      modifies this
      ensures Valid()
      ensures order == old(order) && nEntries == old(nEntries) && slowThreshold == old(slowThreshold)
      ensures shown == SortBy(statistics, SortKey(order))[..Shown(nEntries, |statistics|)]
    {
      var sorted := SortedStatistics();
      var limit := nEntries;
      shown := [];
      var i := 0;
      while i < |sorted|
        invariant 0 <= i <= |sorted|
        invariant i == 0 || i <= limit
        invariant shown == sorted[..i]
      {
        if i >= limit {
          break;
        }
        assert sorted[..i + 1] == sorted[..i] + [sorted[i]];
        shown := shown + [sorted[i]];
        i := i + 1;
      }
      assert i == Shown(limit, |sorted|);
    }

    /** `slow?`: an elapsed time at or above the threshold is slow. */
    predicate Slow(elapsed: int)
      reads this
    {
      elapsed >= slowThreshold
    }
  }

  /** The threshold itself is slow, anything below it is not, and anything slower than a slow time is slow. */
  lemma SlowIsUpwardClosed(reporter: QueryLogReporter, elapsed: int, longer: int)
    requires elapsed <= longer
    ensures reporter.Slow(reporter.slowThreshold)
    ensures elapsed < reporter.slowThreshold ==> !reporter.Slow(elapsed)
    ensures reporter.Slow(elapsed) ==> reporter.Slow(longer)
  {
  }
}
