/**
 The request counters of pkg/server/middleware/metrics.go.  Latencies are in nanoseconds.
 After any run the counters are tallies of what was recorded since the last reset.
 */
module Metrics {
  import opened Prelude

  datatype Sample = Sample(status: int, httpMethod: string, latency: int)

  const MAX_DURATION := 0x7FFF_FFFF_FFFF_FFFF

  predicate IsSuccess(s: Sample) {
    200 <= s.status < 400
  }

  /** Only called with latencies that are not negative, for which Go's division and this
      one agree. */
  function LatencyBucket(latency: int): string {
    var ms := latency / 1_000_000;
    if ms < 10 then "<10ms"
    else if ms < 50 then "10-50ms"
    else if ms < 100 then "50-100ms"
    else if ms < 500 then "100-500ms"
    else if ms < 1000 then "500ms-1s"
    else ">1s"
  }

  function Bump<K>(m: map<K, int>, k: K): map<K, int> {
    m[k := (if k in m then m[k] else 0) + 1]
  }

  /** How often each key occurs in the history. */
  function Tally<K>(h: seq<Sample>, key: Sample -> K): map<K, int> {
    if h == [] then map[] else Bump(Tally(h[..|h| - 1], key), key(h[|h| - 1]))
  }

  function Successes(h: seq<Sample>): nat {
    if h == [] then 0 else Successes(h[..|h| - 1]) + if IsSuccess(h[|h| - 1]) then 1 else 0
  }

  function TotalLatency(h: seq<Sample>): int {
    if h == [] then 0 else TotalLatency(h[..|h| - 1]) + h[|h| - 1].latency
  }

  function ByStatus(s: Sample): int { s.status }
  function ByMethod(s: Sample): string { s.httpMethod }
  function ByBucket(s: Sample): string { LatencyBucket(s.latency) }

  datatype Counters = Counters(
    total: int, success: int, failed: int, latency: int, min: int, max: int,
    statusCodes: map<int, int>, methods: map<string, int>, buckets: map<string, int>)

  const FRESH := Counters(0, 0, 0, 0, MAX_DURATION, 0, map[], map[], map[])

  function Recorded(c: Counters, s: Sample): Counters {
    Counters(c.total + 1,
             c.success + (if IsSuccess(s) then 1 else 0),
             c.failed + (if IsSuccess(s) then 0 else 1),
             c.latency + s.latency,
             if s.latency < c.min then s.latency else c.min,
             if s.latency > c.max then s.latency else c.max,
             Bump(c.statusCodes, s.status), Bump(c.methods, s.httpMethod),
             Bump(c.buckets, LatencyBucket(s.latency)))
  }

  datatype Snapshot = Snapshot(
    total: int, success: int, failed: int, avg: int, min: int, max: int,
    statusCodes: map<int, int>, methods: map<string, int>, buckets: map<string, int>)

  function SnapshotOf(c: Counters): Snapshot {
    Snapshot(c.total, c.success, c.failed,
             if c.total > 0 then c.latency / c.total else 0,
             if c.total > 0 then c.min else 0,
             if c.total > 0 then c.max else 0,
             c.statusCodes, c.methods, c.buckets)
  }

  class RequestMetrics {
    var totalRequests: int
    var successRequests: int
    var failedRequests: int
    var totalLatency: int
    var minLatency: int
    var maxLatency: int
    var statusCodeCounts: map<int, int>
    var methodCounts: map<string, int>
    var latencyBuckets: map<string, int>

    ghost function Abs(): Counters
      reads this
    {
      Counters(totalRequests, successRequests, failedRequests, totalLatency, minLatency, maxLatency,
               statusCodeCounts, methodCounts, latencyBuckets)
    }

    constructor ()
      ensures Abs() == FRESH
    {
      totalRequests, successRequests, failedRequests := 0, 0, 0;
      totalLatency, minLatency, maxLatency := 0, MAX_DURATION, 0;
      statusCodeCounts, methodCounts, latencyBuckets := map[], map[], map[];
    }

    method Record(status: int, httpMethod: string, latency: int)
      modifies this
      ensures Abs() == Recorded(old(Abs()), Sample(status, httpMethod, latency))
    {
      hide LatencyBucket, Bump;
      totalRequests := totalRequests + 1;
      if 200 <= status && status < 400 {
        successRequests := successRequests + 1;
      } else {
        failedRequests := failedRequests + 1;
      }
      statusCodeCounts := Bump(statusCodeCounts, status);
      methodCounts := Bump(methodCounts, httpMethod);
      totalLatency := totalLatency + latency;
      if latency < minLatency {
        minLatency := latency;
      }
      if latency > maxLatency {
        maxLatency := latency;
      }
      latencyBuckets := Bump(latencyBuckets, LatencyBucket(latency));
    }

    method Reset()
      modifies this
      ensures Abs() == FRESH
    {
      totalRequests, successRequests, failedRequests := 0, 0, 0;
      statusCodeCounts, methodCounts := map[], map[];
      totalLatency, minLatency, maxLatency := 0, MAX_DURATION, 0;
      latencyBuckets := map[];
    }

    method GetSnapshot() returns (r: Snapshot)
      ensures r == SnapshotOf(Abs())
    {
      r := Snapshot(totalRequests, successRequests, failedRequests, 0, 0, 0, map[], map[], map[]);
      if totalRequests > 0 {
        r := r.(avg := totalLatency / totalRequests, min := minLatency, max := maxLatency);
      }
      var codes := CopyOf(statusCodeCounts);
      var methods := CopyOf(methodCounts);
      var buckets := CopyOf(latencyBuckets);
      r := r.(statusCodes := codes, methods := methods, buckets := buckets);
    }
  }

  method CopyOf<K>(m: map<K, int>) returns (copy: map<K, int>)
    ensures copy == m
  {
    copy := map[];
    var todo := m.Keys;
    while todo != {}
      invariant todo <= m.Keys
      invariant copy == map k | k in m && k !in todo :: m[k]
      decreases todo
    {
      var k :| k in todo;
      copy := copy[k := m[k]];
      todo := todo - {k};
    }
  }

  ghost predicate Timed(h: seq<Sample>) {
    forall i :: 0 <= i < |h| ==> 0 <= h[i].latency <= MAX_DURATION
  }

  /** The two extremes start from the values a fresh counter holds. */
  function Least(h: seq<Sample>): int {
    if h == [] then MAX_DURATION else
      var l, last := Least(h[..|h| - 1]), h[|h| - 1].latency;
      if last < l then last else l
  }

  function Greatest(h: seq<Sample>): int {
    if h == [] then 0 else
      var g, last := Greatest(h[..|h| - 1]), h[|h| - 1].latency;
      if last > g then last else g
  }

  lemma OneMore(h: seq<Sample>, s: Sample)
    ensures var g := h + [s];
            Successes(g) == Successes(h) + (if IsSuccess(s) then 1 else 0) &&
            TotalLatency(g) == TotalLatency(h) + s.latency &&
            Least(g) == (if s.latency < Least(h) then s.latency else Least(h)) &&
            Greatest(g) == (if s.latency > Greatest(h) then s.latency else Greatest(h))
  {
    assert (h + [s])[..|h|] == h;
  }

  lemma TallyOneMore<K>(h: seq<Sample>, s: Sample, key: Sample -> K)
    ensures Tally(h + [s], key) == Bump(Tally(h, key), key(s))
  {
    assert (h + [s])[..|h|] == h;
  }

  function CountersOf(h: seq<Sample>): Counters {
    Counters(|h|, Successes(h), |h| - Successes(h), TotalLatency(h), Least(h), Greatest(h),
             Tally(h, ByStatus), Tally(h, ByMethod), Tally(h, ByBucket))
  }

  // ------------------------------------------------- runs

  datatype Event = Record(s: Sample) | Reset

  function After(c: Counters, es: seq<Event>): Counters
    decreases |es|
  {
    if es == [] then c
    else After(if es[0].Reset? then FRESH else Recorded(c, es[0].s), es[1..])
  }

  /** The samples since the last reset, given those before the run. */
  function Since(h: seq<Sample>, es: seq<Event>): seq<Sample>
    decreases |es|
  {
    if es == [] then h else Since(if es[0].Reset? then [] else h + [es[0].s], es[1..])
  }

  lemma RecordedCounts(h: seq<Sample>, s: Sample)
    ensures CountersOf(h + [s]) == Recorded(CountersOf(h), s)
  {
    OneMore(h, s);
    TallyOneMore(h, s, ByStatus);
    TallyOneMore(h, s, ByMethod);
    TallyOneMore(h, s, ByBucket);
    hide Tally, Successes, TotalLatency, Least, Greatest, LatencyBucket, Bump, Timed;
  }

  /** After any run the counters are what the samples since the last reset determine. */
  lemma {:induction false} RunCounts(h: seq<Sample>, es: seq<Event>)
    ensures After(CountersOf(h), es) == CountersOf(Since(h, es))
    decreases |es|
  {
    hide CountersOf, Recorded;
    if es != [] {
      if es[0].Reset? {
        NothingCounted();
        RunCounts([], es[1..]);
      } else {
        RecordedCounts(h, es[0].s);
        RunCounts(h + [es[0].s], es[1..]);
      }
    }
  }

  lemma NothingCounted()
    ensures CountersOf([]) == FRESH
  {
  }

  /** Of a history that is not empty they are its own least and greatest latency. */
  lemma {:induction false} LeastIsLeast(h: seq<Sample>)
    requires Timed(h)
    ensures forall i :: 0 <= i < |h| ==> Least(h) <= h[i].latency <= Greatest(h)
    ensures h != [] ==> exists i :: 0 <= i < |h| && h[i].latency == Least(h)
    ensures h != [] ==> exists i :: 0 <= i < |h| && h[i].latency == Greatest(h)
    decreases |h|
  {
    if h != [] {
      var n, rest := |h| - 1, h[..|h| - 1];
      LeastIsLeast(rest);
      assert h[n].latency <= MAX_DURATION;
      if Least(h) != h[n].latency {
        var i :| 0 <= i < |rest| && rest[i].latency == Least(rest);
        assert h[i].latency == Least(h);
      }
      if Greatest(h) != h[n].latency {
        var i :| 0 <= i < |rest| && rest[i].latency == Greatest(rest);
        assert h[i].latency == Greatest(h);
      }
      forall i | 0 <= i < |h| ensures Least(h) <= h[i].latency <= Greatest(h) {
        if i < n { assert h[i] == rest[i]; }
      }
    }
  }

  // ------------------------------------------------- conservation

  ghost function Sum<K(!new)>(m: map<K, int>): int
    decreases m.Keys
  {
    if m == map[] then 0 else var k :| k in m; m[k] + Sum(m - {k})
  }

  lemma {:induction false} SumWithout<K(!new)>(m: map<K, int>, k: K)
    requires k in m
    ensures Sum(m) == m[k] + Sum(m - {k})
    decreases m.Keys
  {
    var first :| first in m && Sum(m) == m[first] + Sum(m - {first});
    if first != k {
      SumWithout(m - {first}, k);
      SumWithout(m - {k}, first);
      assert m - {first} - {k} == m - {k} - {first};
    }
  }

  lemma SumBump<K(!new)>(m: map<K, int>, k: K)
    ensures Sum(Bump(m, k)) == Sum(m) + 1
  {
    SumWithout(Bump(m, k), k);
    if k in m {
      SumWithout(m, k);
      assert Bump(m, k) - {k} == m - {k};
    } else {
      assert Bump(m, k) - {k} == m;
    }
  }

  /** Whatever samples are counted by, the counts add up to the number of samples. */
  lemma {:induction false} TallyAddsUp<K(!new)>(h: seq<Sample>, key: Sample -> K)
    ensures Sum(Tally(h, key)) == |h|
    decreases |h|
  {
    if h != [] {
      TallyAddsUp(h[..|h| - 1], key);
      SumBump(Tally(h[..|h| - 1], key), key(h[|h| - 1]));
    }
  }

  function Occurrences<K(==)>(h: seq<Sample>, key: Sample -> K, k: K): nat {
    if h == [] then 0 else (if key(h[0]) == k then 1 else 0) + Occurrences(h[1..], key, k)
  }

  lemma {:induction false} OccurrencesAppend<K>(h: seq<Sample>, s: Sample, key: Sample -> K, k: K)
    ensures Occurrences(h + [s], key, k) == Occurrences(h, key, k) + if key(s) == k then 1 else 0
    decreases |h|
  {
    if h == [] {
      assert h + [s] == [s] && [s][1..] == [];
    } else {
      assert (h + [s])[1..] == h[1..] + [s];
      OccurrencesAppend(h[1..], s, key, k);
    }
  }

  /** Each count is the number of samples with that key; keys without samples are absent. */
  lemma {:induction false} TallyCounts<K>(h: seq<Sample>, key: Sample -> K, k: K)
    ensures (if k in Tally(h, key) then Tally(h, key)[k] else 0) == Occurrences(h, key, k)
    ensures k in Tally(h, key) <==> Occurrences(h, key, k) > 0
    decreases |h|
  {
    if h != [] {
      var rest, s := h[..|h| - 1], h[|h| - 1];
      assert h == rest + [s];
      TallyCounts(rest, key, k);
      OccurrencesAppend(rest, s, key, k);
    }
  }

  lemma {:induction false} LatencyBounds(h: seq<Sample>, min: int, max: int)
    requires forall i :: 0 <= i < |h| ==> min <= h[i].latency <= max
    ensures |h| * min <= TotalLatency(h) <= |h| * max
    decreases |h|
  {
    if h != [] {
      var rest := h[..|h| - 1];
      LatencyBounds(rest, min, max);
      OneMoreTimes(|rest|, min);
      OneMoreTimes(|rest|, max);
    }
  }

  lemma QuotientBetween(total: int, n: nat, min: int, max: int)
    requires n > 0 && n * min <= total <= n * max
    ensures min <= total / n <= max
  {
    var q := total / n;
    assert n * q <= total < n * (q + 1);
    TimesMonotone(n, q + 1, min);
    TimesMonotone(n, max + 1, q);
  }

  ghost predicate TimedRun(es: seq<Event>) {
    forall i :: 0 <= i < |es| && es[i].Record? ==> 0 <= es[i].s.latency <= 0x7FFF_FFFF_FFFF_FFFF
  }

  lemma {:induction false} SinceIsTimed(h: seq<Sample>, es: seq<Event>)
    requires Timed(h) && TimedRun(es)
    ensures Timed(Since(h, es))
    decreases |es|
  {
    if es != [] {
      assert TimedRun(es[1..]) by {
        forall i | 0 <= i < |es[1..]| && es[1..][i].Record?
          ensures 0 <= es[1..][i].s.latency <= MAX_DURATION { assert es[1..][i] == es[i + 1]; }
      }
      SinceIsTimed(if es[0].Reset? then [] else h + [es[0].s], es[1..]);
    }
  }

  /** After any run of records and resets the five ways of counting agree, and the average
      of a snapshot lies between its extremes. */
  lemma SnapshotsConserve(es: seq<Event>)
    requires TimedRun(es)
    ensures var r := SnapshotOf(After(FRESH, es));
            r.total == r.success + r.failed == Sum(r.statusCodes) &&
            r.total == Sum(r.methods) == Sum(r.buckets) && r.min <= r.avg <= r.max
  {
    var h := Since([], es);
    NothingCounted();
    RunCounts([], es);
    SinceIsTimed([], es);
    TallyAddsUp(h, ByStatus);
    TallyAddsUp(h, ByMethod);
    TallyAddsUp(h, ByBucket);
    if h != [] {
      LeastIsLeast(h);
      LatencyBounds(h, Least(h), Greatest(h));
      QuotientBetween(TotalLatency(h), |h|, Least(h), Greatest(h));
    }
  }

  // ------------------------------------------------- what a snapshot says

  /** How many samples have a property. */
  function NumberOf(h: seq<Sample>, p: Sample -> bool): nat {
    if h == [] then 0 else (if p(h[0]) then 1 else 0) + NumberOf(h[1..], p)
  }

  function StatusIn(from: int, to: int): Sample -> bool {
    (s: Sample) => from <= s.status < to
  }

  function LatencyIn(from: int, to: int): Sample -> bool {
    (s: Sample) => from <= s.latency < to
  }

  function HasMethod(httpMethod: string): Sample -> bool {
    (s: Sample) => s.httpMethod == httpMethod
  }

  lemma {:induction false} NumberAppend(h: seq<Sample>, s: Sample, p: Sample -> bool)
    ensures NumberOf(h + [s], p) == NumberOf(h, p) + if p(s) then 1 else 0
    decreases |h|
  {
    if h == [] {
      assert h + [s] == [s] && [s][1..] == [];
    } else {
      assert (h + [s])[1..] == h[1..] + [s];
      NumberAppend(h[1..], s, p);
    }
  }

  lemma {:induction false} SuccessesAreCounted(h: seq<Sample>)
    ensures Successes(h) == NumberOf(h, StatusIn(200, 400))
    decreases |h|
  {
    if h != [] {
      var rest := h[..|h| - 1];
      assert h == rest + [h[|h| - 1]];
      SuccessesAreCounted(rest);
      NumberAppend(rest, h[|h| - 1], StatusIn(200, 400));
    }
  }

  lemma {:induction false} OccurrencesAreCounted<K>(h: seq<Sample>, key: Sample -> K, k: K, p: Sample -> bool)
    requires forall i :: 0 <= i < |h| ==> (key(h[i]) == k <==> p(h[i]))
    ensures Occurrences(h, key, k) == NumberOf(h, p)
    decreases |h|
  {
    if h != [] {
      assert forall i :: 0 <= i < |h[1..]| ==> h[1..][i] == h[i + 1];
      OccurrencesAreCounted(h[1..], key, k, p);
    }
  }

  function CountAt<K>(m: map<K, int>, k: K): int {
    if k in m then m[k] else 0
  }

  /** The six classes of latency, in milliseconds rounded down. */
  lemma LatencyClasses(latency: int)
    requires 0 <= latency
    ensures LatencyBucket(latency) == "<10ms" <==> latency < 10_000_000
    ensures LatencyBucket(latency) == "10-50ms" <==> 10_000_000 <= latency < 50_000_000
    ensures LatencyBucket(latency) == "50-100ms" <==> 50_000_000 <= latency < 100_000_000
    ensures LatencyBucket(latency) == "100-500ms" <==> 100_000_000 <= latency < 500_000_000
    ensures LatencyBucket(latency) == "500ms-1s" <==> 500_000_000 <= latency < 1_000_000_000
    ensures LatencyBucket(latency) == ">1s" <==> 1_000_000_000 <= latency
  {
    LabelsDiffer();
  }

  lemma LabelsDiffer()
    ensures |"<10ms"| == 5 && |"10-50ms"| == 7 && |"50-100ms"| == 8 && |"100-500ms"| == 9 && |"500ms-1s"| == 8 &&
            |">1s"| == 3 && "50-100ms"[1] == '0' && "500ms-1s"[3] == 'm' && "50-100ms"[3] == '1'
  {
  }

  lemma BucketIsCounted(h: seq<Sample>, bucket: string, p: Sample -> bool)
    requires forall i :: 0 <= i < |h| ==> (LatencyBucket(h[i].latency) == bucket <==> p(h[i]))
    ensures CountAt(Tally(h, ByBucket), bucket) == NumberOf(h, p)
  {
    hide LatencyBucket, Tally;
    TallyCounts(h, ByBucket, bucket);
    OccurrencesAreCounted(h, ByBucket, bucket, p);
  }

  /** After any run a snapshot says, of the samples since the last reset, how many there were;
      how many had a status from 200 to 399, each status, each method, and each class of
      latency; and the average latency rounded down, with nothing but zeros when there were
      none. */
  lemma SnapshotSays(es: seq<Event>, status: int, httpMethod: string)
    requires TimedRun(es)
    ensures var r, h := SnapshotOf(After(FRESH, es)), Since([], es);
            r.total == |h| && r.success == NumberOf(h, StatusIn(200, 400)) &&
            r.failed == |h| - r.success &&
            CountAt(r.statusCodes, status) == NumberOf(h, StatusIn(status, status + 1)) &&
            CountAt(r.methods, httpMethod) == NumberOf(h, HasMethod(httpMethod)) &&
            if h == [] then r.avg == r.min == r.max == 0
            else r.avg * |h| <= TotalLatency(h) < (r.avg + 1) * |h| &&
                 (forall i :: 0 <= i < |h| ==> r.min <= h[i].latency <= r.max)
  {
    hide Recorded, LatencyBucket, Tally, After, Since;
    var h := Since([], es);
    NothingCounted();
    RunCounts([], es);
    SinceIsTimed([], es);
    SuccessesAreCounted(h);
    TallyCounts(h, ByStatus, status);
    OccurrencesAreCounted(h, ByStatus, status, StatusIn(status, status + 1));
    TallyCounts(h, ByMethod, httpMethod);
    OccurrencesAreCounted(h, ByMethod, httpMethod, HasMethod(httpMethod));
    if h != [] {
      LeastIsLeast(h);
      QuotientBounds(TotalLatency(h), |h|);
    }
  }

  lemma QuotientBounds(x: int, n: nat)
    requires n > 0
    ensures (x / n) * n <= x < (x / n + 1) * n
  {
    assert x == (x / n) * n + x % n;
    OneMoreTimes(if x / n >= 0 then x / n else 0, n);
    assert (x / n + 1) * n == (x / n) * n + n;
  }

  lemma LatenciesAreClassed(es: seq<Event>)
    requires TimedRun(es)
    ensures var buckets, h := SnapshotOf(After(FRESH, es)).buckets, Since([], es);
            CountAt(buckets, "<10ms") == NumberOf(h, LatencyIn(0, 10_000_000)) &&
            CountAt(buckets, "10-50ms") == NumberOf(h, LatencyIn(10_000_000, 50_000_000)) &&
            CountAt(buckets, "50-100ms") == NumberOf(h, LatencyIn(50_000_000, 100_000_000)) &&
            CountAt(buckets, "100-500ms") == NumberOf(h, LatencyIn(100_000_000, 500_000_000)) &&
            CountAt(buckets, "500ms-1s") == NumberOf(h, LatencyIn(500_000_000, 1_000_000_000)) &&
            CountAt(buckets, ">1s") == NumberOf(h, LatencyIn(1_000_000_000, 0x8000_0000_0000_0000))
  {
    hide Recorded, LatencyBucket, Tally, After, Since;
    var h := Since([], es);
    NothingCounted();
    RunCounts([], es);
    SinceIsTimed([], es);
    forall i | 0 <= i < |h|
      ensures LatencyBucket(h[i].latency) == "<10ms" <==> h[i].latency < 10_000_000
      ensures LatencyBucket(h[i].latency) == "10-50ms" <==> 10_000_000 <= h[i].latency < 50_000_000
      ensures LatencyBucket(h[i].latency) == "50-100ms" <==> 50_000_000 <= h[i].latency < 100_000_000
      ensures LatencyBucket(h[i].latency) == "100-500ms" <==> 100_000_000 <= h[i].latency < 500_000_000
      ensures LatencyBucket(h[i].latency) == "500ms-1s" <==> 500_000_000 <= h[i].latency < 1_000_000_000
      ensures LatencyBucket(h[i].latency) == ">1s" <==> 1_000_000_000 <= h[i].latency
    {
      LatencyClasses(h[i].latency);
    }
    BucketIsCounted(h, "<10ms", LatencyIn(0, 10_000_000));
    BucketIsCounted(h, "10-50ms", LatencyIn(10_000_000, 50_000_000));
    BucketIsCounted(h, "50-100ms", LatencyIn(50_000_000, 100_000_000));
    BucketIsCounted(h, "100-500ms", LatencyIn(100_000_000, 500_000_000));
    BucketIsCounted(h, "500ms-1s", LatencyIn(500_000_000, 1_000_000_000));
    BucketIsCounted(h, ">1s", LatencyIn(1_000_000_000, 0x8000_0000_0000_0000));
  }
}
