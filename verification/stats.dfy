/**
 Run statistics (percentile and RunStatistics::compute in src/core/TestResult.cpp).
 Fractions are exact rationals, and sums are not limited to 64 bits.
 */
module Stats {
  import opened Classifier

  datatype Outcome = Outcome(name: string, status: Status, category: Category, duration: int)

  // ---- sorting -------------------------------------------------------------------------

  predicate Ascending(s: seq<int>) { forall i, j :: 0 <= i < j < |s| ==> s[i] <= s[j] }

  function Insert(s: seq<int>, x: int): seq<int> {
    if s == [] then [x]
    else if s[|s| - 1] <= x then s + [x]
    else Insert(s[..|s| - 1], x) + [s[|s| - 1]]
  }

  /** std::sort on integers. */
  function Sorted(s: seq<int>): seq<int> {
    if s == [] then [] else Insert(Sorted(s[..|s| - 1]), s[|s| - 1])
  }

  lemma SplitLast<T>(s: seq<T>)
    requires s != []
    ensures s == s[..|s| - 1] + [s[|s| - 1]] && multiset(s) == multiset(s[..|s| - 1]) + multiset{s[|s| - 1]}
  {
    assert s == s[..|s| - 1] + [s[|s| - 1]];
  }

  lemma {:induction false} InsertKeeps(s: seq<int>, x: int)
    ensures multiset(Insert(s, x)) == multiset(s) + multiset{x}
  {
    if s != [] && s[|s| - 1] > x {
      InsertKeeps(s[..|s| - 1], x);
      SplitLast(s);
    }
  }

  lemma {:induction false} InsertSorts(s: seq<int>, x: int)
    requires Ascending(s)
    ensures Ascending(Insert(s, x)) && multiset(Insert(s, x)) == multiset(s) + multiset{x}
  {
    InsertKeeps(s, x);
    if s != [] && s[|s| - 1] > x {
      var front, last := s[..|s| - 1], s[|s| - 1];
      InsertSorts(front, x);
      var t := Insert(front, x);
      forall i | 0 <= i < |t|
        ensures t[i] <= last
      {
        assert t[i] in multiset(t);
        assert t[i] in multiset(front) || t[i] == x;
      }
      assert Insert(s, x) == t + [last];
      hide Insert;
    }
  }

  lemma {:induction false} SortedSorts(s: seq<int>)
    ensures Ascending(Sorted(s)) && multiset(Sorted(s)) == multiset(s) && |Sorted(s)| == |s|
  {
    if s != [] {
      var front, last := s[..|s| - 1], s[|s| - 1];
      SortedSorts(front);
      assert s == front + [last];
      InsertSorts(Sorted(front), last);
      assert |multiset(Sorted(s))| == |multiset(s)|;
    }
  }

  // ---- percentiles ------------------------------------------------------------------------

  /** ceil(num / den * n). */
  function Rank(num: nat, den: nat, n: nat): nat
    requires den > 0
  {
    (num * n + den - 1) / den
  }

  function Percentile(sorted: seq<int>, num: nat, den: nat): int
    requires den > 0
  {
    if sorted == [] then 0
    else
      var rank := Rank(num, den, |sorted|);
      sorted[if rank == 0 then 0 else if rank - 1 < |sorted| - 1 then rank - 1 else |sorted| - 1]
  }

  /** How many values are at most `v`. */
  function CountUpTo(s: seq<int>, v: int): nat {
    if s == [] then 0 else CountUpTo(s[..|s| - 1], v) + if s[|s| - 1] <= v then 1 else 0
  }

  lemma {:induction false} CountSorted(s: seq<int>, v: int, k: nat)
    requires k <= |s| && (forall i :: 0 <= i < k ==> s[i] <= v) && forall i :: k <= i < |s| ==> s[i] > v
    ensures CountUpTo(s, v) == k
  {
    if s != [] {
      if k == |s| {
        CountSorted(s[..|s| - 1], v, k - 1);
      } else {
        CountSorted(s[..|s| - 1], v, k);
      }
    }
  }

  lemma {:induction false} CountRemoved(s: seq<int>, v: int, i: nat)
    requires i < |s|
    ensures CountUpTo(s, v) == CountUpTo(s[..i] + s[i + 1..], v) + if s[i] <= v then 1 else 0
  {
    var last := |s| - 1;
    if i == last {
      assert s[..i] + s[i + 1..] == s[..last];
    } else {
      var t := s[..i] + s[i + 1..];
      CountRemoved(s[..last], v, i);
      assert s[..last][..i] + s[..last][i + 1..] == t[..last - 1];
      assert t[last - 1] == s[last];
    }
  }

  lemma Cancel<T>(a: multiset<T>, b: multiset<T>, x: T)
    requires a + multiset{x} == b + multiset{x}
    ensures a == b
  {
    assert a == (a + multiset{x}) - multiset{x};
    assert b == (b + multiset{x}) - multiset{x};
  }

  lemma RemovedMultiset<T>(s: seq<T>, i: nat)
    requires i < |s|
    ensures multiset(s) == multiset(s[..i] + s[i + 1..]) + multiset{s[i]}
  {
    assert s == s[..i] + [s[i]] + s[i + 1..];
  }

  lemma Place<T>(s: seq<T>, x: T) returns (i: nat)
    requires x in multiset(s)
    ensures i < |s| && s[i] == x
  {
    i :| 0 <= i < |s| && s[i] == x;
  }

  lemma {:induction false} CountRearranged(s: seq<int>, t: seq<int>, v: int)
    requires multiset(s) == multiset(t)
    ensures CountUpTo(s, v) == CountUpTo(t, v)
    decreases |s|
  {
    if s == [] {
      assert |multiset(t)| == 0;
    } else {
      var front, last := s[..|s| - 1], s[|s| - 1];
      SplitLast(s);
      var i := Place(t, last);
      RemovedMultiset(t, i);
      Cancel(multiset(front), multiset(t[..i] + t[i + 1..]), last);
      CountRemoved(t, v, i);
      CountRearranged(front, t[..i] + t[i + 1..], v);
    }
  }

  lemma RankBounds(num: nat, den: nat, n: nat)
    requires 0 < num <= den && n > 0
    ensures 1 <= Rank(num, den, n) <= n
    ensures den * (Rank(num, den, n) - 1) < num * n <= den * Rank(num, den, n)
  {
    var t := num * n + den - 1;
    var q, r := t / den, t % den;
    assert t == den * q + r && 0 <= r < den;
    assert num * n >= 1 by {
      Times(1, num, 1, n);
    }
    assert num * n <= den * n by {
      Times(num, den, n, n);
    }
    Quotient(den, q, n);
  }

  lemma Times(a: nat, b: nat, c: nat, d: nat)
    requires a <= b && c <= d
    ensures a * c <= b * d
  {
    assert a * c <= b * c by {
      assert b * c == a * c + (b - a) * c;
    }
    assert b * c <= b * d by {
      assert b * d == b * c + b * (d - c);
    }
  }

  /** A product settles which factor is larger. */
  lemma Quotient(den: nat, q: nat, n: nat)
    requires den > 0
    ensures q > n ==> den * q >= den * n + den
    ensures q == 0 ==> den * q == 0
  {
    if q > n {
      Times(den, den, n + 1, q);
      assert den * (n + 1) == den * n + den;
    }
  }

  lemma RankIsIndex(num: nat, den: nat, n: nat)
    requires 0 < num <= den && n > 0
    ensures 1 <= Rank(num, den, n) <= n
  {
    hide Rank;
    RankBounds(num, den, n);
  }

  /**
   Nearest rank: the percentile is one of the durations, at least ceil(f * n) of
   them are no longer, and no shorter duration has that many.
   */
  lemma PercentileIsNearestRank(durations: seq<int>, num: nat, den: nat)
    requires durations != [] && 0 < num <= den
    ensures var p, rank := Percentile(Sorted(durations), num, den), Rank(num, den, |durations|);
      && p in durations && CountUpTo(durations, p) >= rank
      && forall w :: w in durations && w < p ==> CountUpTo(durations, w) < rank
  {
    var s, n := Sorted(durations), |durations|;
    SortedSorts(durations);
    hide Rank, Sorted;
    RankIsIndex(num, den, n);
    NearestRankAt(durations, s, Rank(num, den, n));
  }

  lemma NearestRankAt(durations: seq<int>, s: seq<int>, rank: nat)
    requires Ascending(s) && multiset(s) == multiset(durations) && 1 <= rank <= |s|
    ensures s[rank - 1] in durations && CountUpTo(durations, s[rank - 1]) >= rank
    ensures forall w :: w in durations && w < s[rank - 1] ==> CountUpTo(durations, w) < rank
  {
    hide CountUpTo;
    var p := s[rank - 1];
    assert p in multiset(s);
    CountAtLeast(s, rank - 1);
    CountRearranged(durations, s, p);
    forall w | w in durations && w < p
      ensures CountUpTo(durations, w) < rank
    {
      CountAtMost(s, rank - 1, w);
      CountRearranged(durations, s, w);
    }
  }

  lemma {:induction false} CountAtLeast(s: seq<int>, k: nat)
    requires Ascending(s) && k < |s|
    ensures CountUpTo(s, s[k]) >= k + 1
  {
    CountPrefix(s, s[k], k + 1);
  }

  lemma {:induction false} CountPrefix(s: seq<int>, v: int, k: nat)
    requires k <= |s| && forall i :: 0 <= i < k ==> s[i] <= v
    ensures CountUpTo(s, v) >= k
  {
    if k == |s| {
      if k > 0 {
        CountPrefix(s[..k - 1], v, k - 1);
      }
    } else {
      CountPrefix(s[..|s| - 1], v, k);
    }
  }

  lemma {:induction false} CountAtMost(s: seq<int>, k: nat, w: int)
    requires Ascending(s) && k < |s| && w < s[k]
    ensures CountUpTo(s, w) <= k
  {
    if |s| > k {
      CountSuffix(s, w, k);
    }
  }

  lemma {:induction false} CountSuffix(s: seq<int>, w: int, k: nat)
    requires k <= |s| && forall i :: k <= i < |s| ==> s[i] > w
    ensures CountUpTo(s, w) <= k
  {
    if s != [] {
      CountSuffix(s[..|s| - 1], w, if k == |s| then k - 1 else k);
    }
  }

  /** The sorted arrangement is unique. */
  lemma {:induction false} SortedUnique(s: seq<int>, t: seq<int>)
    requires Ascending(s) && Ascending(t) && multiset(s) == multiset(t)
    ensures s == t
  {
    assert |multiset(s)| == |s| && |multiset(t)| == |t|;
    if s != [] {
      var last := |s| - 1;
      assert s[last] in multiset(t) && t[last] in multiset(s);
      var i := Place(t, s[last]);
      var j := Place(s, t[last]);
      assert s[last] == t[last];
      SplitLast(s);
      SplitLast(t);
      Cancel(multiset(s[..last]), multiset(t[..last]), s[last]);
      SortedUnique(s[..last], t[..last]);
    }
  }

  // ---- the statistics ------------------------------------------------------------------------

  /** C++ division of integers: toward zero. */
  function TruncatingDiv(a: int, b: nat): int
    requires b > 0
  {
    if a >= 0 then a / b else -(-a / b)
  }

  function Durations(results: seq<Outcome>): (r: seq<int>)
    ensures |r| == |results| && forall i :: 0 <= i < |results| ==> r[i] == results[i].duration
  {
    seq(|results|, i requires 0 <= i < |results| => results[i].duration)
  }

  function Sum(s: seq<int>): int { if s == [] then 0 else Sum(s[..|s| - 1]) + s[|s| - 1] }

  function CountStatus(results: seq<Outcome>, status: Status): nat {
    if results == [] then 0
    else CountStatus(results[..|results| - 1], status) + if results[|results| - 1].status == status then 1 else 0
  }

  function CountCategory(results: seq<Outcome>, c: Category): nat {
    if results == [] then 0
    else CountCategory(results[..|results| - 1], c) + if results[|results| - 1].category == c then 1 else 0
  }

  /** The longest duration, but never below zero, and the first test that reached it. */
  function Longest(results: seq<Outcome>): (int, string) {
    if results == [] then (0, "")
    else
      var before, last := Longest(results[..|results| - 1]), results[|results| - 1];
      if last.duration > before.0 then (last.duration, last.name) else before
  }

  datatype Statistics = Statistics(
    total: int, passed: int, failed: int, skipped: int, errors: int, timeouts: int,
    categoryCounts: map<Category, int>, totalDuration: int, averageDuration: int,
    medianDuration: int, p95Duration: int, maxDuration: int, slowestTest: string)

  /** The counters agree with what is counted; categories without a failure are not in the map. */
  ghost predicate Describes(st: Statistics, results: seq<Outcome>) {
    && st.total == |results|
    && st.passed == CountStatus(results, Passed) && st.failed == CountStatus(results, Failed)
    && st.skipped == CountStatus(results, Skipped) && st.errors == CountStatus(results, Error)
    && st.timeouts == CountStatus(results, Timeout)
    && (forall c: Category :: c in st.categoryCounts <==> c != NoFailure && CountCategory(results, c) > 0)
    && (forall c :: c in st.categoryCounts ==> st.categoryCounts[c] == CountCategory(results, c))
    && st.totalDuration == Sum(Durations(results))
    && st.averageDuration == (if results == [] then 0 else TruncatingDiv(Sum(Durations(results)), |results|))
    && st.medianDuration == Percentile(Sorted(Durations(results)), 1, 2)
    && st.p95Duration == Percentile(Sorted(Durations(results)), 19, 20)
    && st.maxDuration == Longest(results).0 && st.slowestTest == Longest(results).1
  }

  lemma NextOutcome(results: seq<Outcome>, i: nat)
    requires i < |results|
    ensures var r, now, next := results[i], results[..i], results[..i + 1];
      && (forall s :: CountStatus(next, s) == CountStatus(now, s) + if r.status == s then 1 else 0)
      && (forall c :: CountCategory(next, c) == CountCategory(now, c) + if r.category == c then 1 else 0)
      && Durations(next) == Durations(now) + [r.duration] && Sum(Durations(next)) == Sum(Durations(now)) + r.duration
      && Longest(next) == if r.duration > Longest(now).0 then (r.duration, r.name) else Longest(now)
  {
    assert results[..i + 1][..i] == results[..i];
    assert Durations(results[..i + 1])[..i] == Durations(results[..i]);
  }

  method Compute(results: seq<Outcome>) returns (st: Statistics)
    ensures Describes(st, results)
  {
    hide CountStatus, CountCategory, Sum, Longest, Sorted, Percentile, TruncatingDiv;
    var passed, failed, skipped, errors, timeouts := 0, 0, 0, 0, 0;
    var counts: map<Category, int> := map[];
    var durations: seq<int>, sum, longest, slowest := [], 0, 0, "";
    NothingCounted();
    for i := 0 to |results|
      invariant passed == CountStatus(results[..i], Passed) && failed == CountStatus(results[..i], Failed)
      invariant skipped == CountStatus(results[..i], Skipped) && errors == CountStatus(results[..i], Error)
      invariant timeouts == CountStatus(results[..i], Timeout)
      invariant forall c: Category :: c in counts <==> c != NoFailure && CountCategory(results[..i], c) > 0
      invariant forall c :: c in counts ==> counts[c] == CountCategory(results[..i], c)
      invariant durations == Durations(results[..i]) && sum == Sum(Durations(results[..i]))
      invariant (longest, slowest) == Longest(results[..i])
    {
      NextOutcome(results, i);
      var result := results[i];
      match result.status {
        case Passed => passed := passed + 1;
        case Failed => failed := failed + 1;
        case Skipped => skipped := skipped + 1;
        case Error => errors := errors + 1;
        case Timeout => timeouts := timeouts + 1;
      }
      if result.category != NoFailure {
        counts := counts[result.category := 1 + if result.category in counts then counts[result.category] else 0];
      }
      durations := durations + [result.duration];
      sum := sum + result.duration;
      if result.duration > longest {
        longest, slowest := result.duration, result.name;
      }
    }
    assert results[..|results|] == results;
    var average, median, p95 := 0, 0, 0;
    if durations != [] {
      average := TruncatingDiv(sum, |durations|);
      durations := Sorted(durations);
      median := Percentile(durations, 1, 2);
      p95 := Percentile(durations, 19, 20);
    } else {
      NoPercentile();
    }
    st := Statistics(|results|, passed, failed, skipped, errors, timeouts, counts, sum, average, median, p95, longest,
      slowest);
  }

  lemma NothingCounted()
    ensures forall s :: CountStatus([], s) == 0
    ensures forall c :: CountCategory([], c) == 0
    ensures Longest([]) == (0, "") && Sum([]) == 0 && Durations([]) == []
  {
  }

  lemma NoPercentile()
    ensures Percentile(Sorted([]), 1, 2) == 0 && Percentile(Sorted([]), 19, 20) == 0
  {
  }

  // ---- what the numbers mean -------------------------------------------------------------------

  /** Every result is counted under exactly one status. */
  lemma {:induction false} StatusesAddUp(results: seq<Outcome>)
    ensures CountStatus(results, Passed) + CountStatus(results, Failed) + CountStatus(results, Skipped)
            + CountStatus(results, Error) + CountStatus(results, Timeout) == |results|
  {
    if results != [] {
      StatusesAddUp(results[..|results| - 1]);
    }
  }

  lemma {:induction false} LongestIsMaximum(results: seq<Outcome>)
    ensures var m := Longest(results).0;
      && m >= 0 && (forall i :: 0 <= i < |results| ==> results[i].duration <= m)
      && (m > 0 ==> exists i :: 0 <= i < |results| && results[i].duration == m && results[i].name == Longest(results).1)
  {
    if results != [] {
      var front := results[..|results| - 1];
      LongestIsMaximum(front);
      assert forall i :: 0 <= i < |front| ==> results[i] == front[i];
    }
  }

  lemma RankGrows(n: nat)
    requires n > 0
    ensures Rank(1, 2, n) <= Rank(19, 20, n)
  {
  }

  lemma PercentilesOrdered(d: seq<int>)
    requires d != []
    ensures var median, p95 := Percentile(Sorted(d), 1, 2), Percentile(Sorted(d), 19, 20);
      median in d && p95 in d && median <= p95
  {
    hide Sorted, Rank, Percentile;
    var s := Sorted(d);
    SortedSorts(d);
    RankGrows(|d|);
    PercentileAt(s, 1, 2);
    PercentileAt(s, 19, 20);
    InBoth(s, d, Rank(1, 2, |d|) - 1);
    InBoth(s, d, Rank(19, 20, |d|) - 1);
  }

  lemma PercentileAt(s: seq<int>, num: nat, den: nat)
    requires s != [] && 0 < num <= den
    ensures 1 <= Rank(num, den, |s|) <= |s| && Percentile(s, num, den) == s[Rank(num, den, |s|) - 1]
  {
    RankBounds(num, den, |s|);
    hide Rank;
  }

  lemma InBoth(s: seq<int>, d: seq<int>, i: nat)
    requires multiset(s) == multiset(d) && i < |s|
    ensures s[i] in d
  {
    assert s[i] in multiset(d);
  }

  /** Of durations that are not negative: median <= p95 <= longest. */
  lemma MedianBelowP95(st: Statistics, results: seq<Outcome>)
    requires Describes(st, results) && forall i :: 0 <= i < |results| ==> results[i].duration >= 0
    ensures st.passed + st.failed + st.skipped + st.errors + st.timeouts == st.total
    ensures 0 <= st.medianDuration <= st.p95Duration <= st.maxDuration
  {
    StatusesAddUp(results);
    LongestIsMaximum(results);
    if results == [] {
      NoPercentile();
    } else {
      hide Sorted, Percentile, CountStatus, CountCategory, Longest, Sum;
      PercentilesOrdered(Durations(results));
    }
  }

  // ---- the order of the results does not matter ---------------------------------------------------

  lemma LastOutcome(front: seq<Outcome>, r: Outcome, s: Status, c: Category)
    ensures CountStatus(front + [r], s) == CountStatus(front, s) + if r.status == s then 1 else 0
    ensures CountCategory(front + [r], c) == CountCategory(front, c) + if r.category == c then 1 else 0
    ensures Sum(Durations(front + [r])) == Sum(Durations(front)) + r.duration
  {
    var all := front + [r];
    assert all[..|front|] == front && all[..|front| + 1] == all;
    NextOutcome(all, |front|);
  }

  lemma {:induction false} StatusRemoved(results: seq<Outcome>, i: nat, s: Status, c: Category)
    requires i < |results|
    ensures var rest := results[..i] + results[i + 1..];
      && CountStatus(results, s) == CountStatus(rest, s) + (if results[i].status == s then 1 else 0)
      && CountCategory(results, c) == CountCategory(rest, c) + (if results[i].category == c then 1 else 0)
      && Sum(Durations(results)) == Sum(Durations(rest)) + results[i].duration
  {
    hide CountStatus, CountCategory, Sum, Durations;
    var last := |results| - 1;
    var front := results[..last];
    assert results == front + [results[last]];
    LastOutcome(front, results[last], s, c);
    if i == last {
      assert results[..i] + results[i + 1..] == front;
    } else {
      StatusRemoved(front, i, s, c);
      var shorter := front[..i] + front[i + 1..];
      LastOutcome(shorter, results[last], s, c);
      assert results[..i] + results[i + 1..] == shorter + [results[last]];
    }
  }

  /** Taking the last element of one arrangement out of another one. */
  lemma TakeOut<T>(a: seq<T>, b: seq<T>) returns (i: nat)
    requires multiset(a) == multiset(b) && a != []
    ensures i < |b| && b[i] == a[|a| - 1] && multiset(a[..|a| - 1]) == multiset(b[..i] + b[i + 1..])
  {
    SplitLast(a);
    i := Place(b, a[|a| - 1]);
    RemovedMultiset(b, i);
    Cancel(multiset(a[..|a| - 1]), multiset(b[..i] + b[i + 1..]), a[|a| - 1]);
  }

  lemma EmptyArrangement<T>(b: seq<T>)
    requires multiset(b) == multiset([])
    ensures b == []
  {
    assert |multiset(b)| == |b|;
  }

  lemma {:induction false} CountsRearranged(a: seq<Outcome>, b: seq<Outcome>, s: Status, c: Category)
    requires multiset(a) == multiset(b)
    ensures CountStatus(a, s) == CountStatus(b, s) && CountCategory(a, c) == CountCategory(b, c)
    ensures Sum(Durations(a)) == Sum(Durations(b))
    decreases |a|
  {
    hide CountStatus, CountCategory, Sum, Durations;
    if a == [] {
      EmptyArrangement(b);
    } else {
      var i := TakeOut(a, b);
      var front := a[..|a| - 1];
      assert a == front + [a[|a| - 1]];
      LastOutcome(front, a[|a| - 1], s, c);
      CountsRearranged(front, b[..i] + b[i + 1..], s, c);
      StatusRemoved(b, i, s, c);
    }
  }

  lemma {:induction false} DurationsRearranged(a: seq<Outcome>, b: seq<Outcome>)
    requires multiset(a) == multiset(b)
    ensures multiset(Durations(a)) == multiset(Durations(b))
    decreases |a|
  {
    if a == [] {
      EmptyArrangement(b);
    } else {
      var i := TakeOut(a, b);
      var rest := b[..i] + b[i + 1..];
      DurationsRearranged(a[..|a| - 1], rest);
      assert Durations(a) == Durations(a[..|a| - 1]) + [a[|a| - 1].duration];
      RemovedMultiset(Durations(b), i);
      assert Durations(b)[..i] + Durations(b)[i + 1..] == Durations(rest);
    }
  }

  lemma LongestRearranged(a: seq<Outcome>, b: seq<Outcome>)
    requires multiset(a) == multiset(b)
    ensures Longest(a).0 <= Longest(b).0
  {
    LongestIsMaximum(a);
    LongestIsMaximum(b);
    hide Longest;
    if Longest(a).0 > 0 {
      var i :| 0 <= i < |a| && a[i].duration == Longest(a).0 && a[i].name == Longest(a).1;
      assert a[i] in multiset(b);
      var j := Place(b, a[i]);
    }
  }

  /** Rearranging the results changes no field but the name of the slowest test. */
  lemma OrderIrrelevant(a: seq<Outcome>, b: seq<Outcome>, x: Statistics, y: Statistics)
    requires multiset(a) == multiset(b) && Describes(x, a) && Describes(y, b)
    ensures x.(slowestTest := y.slowestTest) == y
  {
    assert |multiset(a)| == |a| && |multiset(b)| == |b|;
    forall s, c
      ensures CountStatus(a, s) == CountStatus(b, s) && CountCategory(a, c) == CountCategory(b, c)
    {
      CountsRearranged(a, b, s, c);
    }
    CountsRearranged(a, b, Passed, NoFailure);
    DurationsRearranged(a, b);
    LongestRearranged(a, b);
    LongestRearranged(b, a);
    SortedSorts(Durations(a));
    SortedSorts(Durations(b));
    SortedUnique(Sorted(Durations(a)), Sorted(Durations(b)));
    hide CountStatus, CountCategory, Sum, Longest, Sorted, Percentile, TruncatingDiv, Durations;
    assert x.categoryCounts.Keys == y.categoryCounts.Keys;
    assert x.categoryCounts == y.categoryCounts;
  }

  lemma DivisionBounds(a: nat, b: nat)
    requires b > 0
    ensures (a / b) * b <= a < (a / b + 1) * b
  {
    assert a == (a / b) * b + a % b;
  }

  /** The average is the sum divided by the number of results, without its fraction, in either direction from zero. */
  lemma AverageIsTruncated(results: seq<Outcome>, st: Statistics)
    requires results != [] && Describes(st, results)
    ensures var q, n, sum := st.averageDuration, |results|, Sum(Durations(results));
      && (sum >= 0 ==> q >= 0 && q * n <= sum < (q + 1) * n)
      && (sum <= 0 ==> q <= 0 && (q - 1) * n < sum <= q * n)
  {
    hide Sum, Durations, CountStatus, CountCategory, Longest, Sorted, Percentile;
    assert st.averageDuration == TruncatingDiv(Sum(Durations(results)), |results|);
    hide *;
    TruncatedBounds(Sum(Durations(results)), |results|);
  }

  lemma TruncatedBounds(sum: int, n: nat)
    requires n > 0
    ensures var q := TruncatingDiv(sum, n);
      && (sum >= 0 ==> q >= 0 && q * n <= sum < (q + 1) * n)
      && (sum <= 0 ==> q <= 0 && (q - 1) * n < sum <= q * n)
  {
    var m: nat := if sum >= 0 then sum else -sum;
    var k := m / n;
    DivisionBounds(m, n);
    QuotientIs(sum, n, m, k);
    hide TruncatingDiv;
    Negated(k, n);
    if sum == 0 {
      NoQuotient(n);
    }
  }

  lemma NoQuotient(n: nat)
    requires n > 0
    ensures 0 / n == 0
  {
  }

  lemma QuotientIs(sum: int, n: nat, m: nat, k: int)
    requires n > 0 && m == (if sum >= 0 then sum else -sum) && k == m / n
    ensures k >= 0 && TruncatingDiv(sum, n) == if sum >= 0 then k else -k
  {
  }

  lemma Negated(q: int, n: nat)
    ensures -(q * n) == -q * n && -((q + 1) * n) == (-q - 1) * n
  {
  }
}
