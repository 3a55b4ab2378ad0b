/**
 The two critical sections of a call to the per-key limiter of
 pkg/server/middleware/ratelimit.go kept apart: getLimiter obtains a bucket under the lock
 of the map, AllowN charges it under the lock of the bucket.  Other calls and the sweep may
 come in between.
 */
module LimiterSchedules {
  import opened TokenBuckets
  import opened IPRateLimiters

  /** The calls under way hold a reference to the bucket they obtained. */
  datatype Held = Held(key: string, id: nat)

  datatype Shared = Shared(rate: real, capacity: int, heap: seq<Bucket>, limiters: map<string, nat>,
                           held: map<nat, Held>)

  function Empty(rate: real, capacity: int): Shared {
    Shared(rate, capacity, [], map[], map[])
  }

  datatype Move =
    | Obtain(at: real, call: nat, key: string)
    | Charge(at: real, call: nat, n: int)
    | Drop(at: real)

  ghost predicate Valid(s: Shared) {
    (forall k :: k in s.limiters ==> s.limiters[k] < |s.heap|) &&
    (forall c :: c in s.held ==> s.held[c].id < |s.heap|)
  }

  predicate Enabled(s: Shared, m: Move) {
    match m
    case Obtain(_, call, _) => call !in s.held
    case Charge(_, call, _) => call in s.held
    case Drop(_) => true
  }

  function Next(s: Shared, m: Move): (r: Shared)
    requires Valid(s) && Enabled(s, m)
    ensures Valid(r)
  {
    match m
    case Obtain(at, call, key) =>
      if key in s.limiters then s.(held := s.held[call := Held(key, s.limiters[key])])
      else s.(heap := s.heap + [Full(s.rate, s.capacity, at)],
              limiters := s.limiters[key := |s.heap|],
              held := s.held[call := Held(key, |s.heap|)])
    case Charge(at, call, n) =>
      var id := s.held[call].id;
      s.(heap := s.heap[id := Step(s.heap[id], Request(at, n)).0], held := s.held - {call})
    case Drop(_) => s.(limiters := map k | k in s.limiters && !StoredFull(s, k) :: s.limiters[k])
  }

  predicate StoredFull(s: Shared, key: string)
    requires key in s.limiters && s.limiters[key] < |s.heap|
  {
    s.heap[s.limiters[key]].tokens >= s.capacity as real
  }

  ghost predicate IsRun(s: Shared, from: real, ms: seq<Move>)
    requires Valid(s)
    decreases |ms|
  {
    ms != [] ==> from <= ms[0].at && Enabled(s, ms[0]) && IsRun(Next(s, ms[0]), ms[0].at, ms[1..])
  }

  /** The requests charged by calls for one key, and the answers they get. */
  function Charged(s: Shared, from: real, ms: seq<Move>, key: string): seq<Request>
    requires Valid(s) && IsRun(s, from, ms)
    decreases |ms|
  {
    if ms == [] then [] else
      (if ms[0].Charge? && s.held[ms[0].call].key == key then [Request(ms[0].at, ms[0].n)] else []) +
      Charged(Next(s, ms[0]), ms[0].at, ms[1..], key)
  }

  function Given(s: Shared, from: real, ms: seq<Move>, key: string): seq<bool>
    requires Valid(s) && IsRun(s, from, ms)
    decreases |ms|
  {
    if ms == [] then [] else
      (if ms[0].Charge? && s.held[ms[0].call].key == key
       then [Step(s.heap[s.held[ms[0].call].id], Request(ms[0].at, ms[0].n)).1] else []) +
      Given(Next(s, ms[0]), ms[0].at, ms[1..], key)
  }

  // ------------------------------------------------- which sweeps do harm

  /** Some call for the key is between obtaining its bucket and charging it. */
  ghost predicate UnderWay(s: Shared, key: string) {
    exists c :: c in s.held && s.held[c].key == key
  }

  /** A sweep would drop a bucket from under a call. */
  ghost predicate Orphans(s: Shared, key: string)
    requires Valid(s)
  {
    key in s.limiters && StoredFull(s, key) && UnderWay(s, key)
  }

  /** No sweep of the run drops the key's bucket from under a call. */
  ghost predicate Spares(s: Shared, from: real, ms: seq<Move>, key: string)
    requires Valid(s) && IsRun(s, from, ms)
    decreases |ms|
  {
    ms != [] ==> (ms[0].Drop? ==> !Orphans(s, key)) && Spares(Next(s, ms[0]), ms[0].at, ms[1..], key)
  }

  /** The same bucket, or both full. */
  ghost predicate AsFullAs(b: Bucket, c: Bucket) {
    b.rate == c.rate && b.capacity == c.capacity &&
    (b == c || (b.tokens >= b.capacity as real && c.tokens >= c.capacity as real))
  }

  lemma AsFullAsStep(b: Bucket, c: Bucket, r: Request)
    requires 0.0 <= b.rate && AsFullAs(b, c) && b.lastUpdate <= r.at && c.lastUpdate <= r.at
    ensures Step(b, r) == Step(c, r)
  {
    hide Earned;
    if b != c {
      FullStaysFull(b, r.at);
      FullStaysFull(c, r.at);
    }
  }

  /** The key is served by one bucket, as full as b: all calls under way hold the one in the
      map, no other key shares it; and if there is none, nobody holds one and b is full. */
  ghost predicate Serves(s: Shared, key: string, b: Bucket, now: real)
    requires Valid(s)
  {
    b.rate == s.rate && b.capacity == s.capacity && b.lastUpdate <= now &&
    if key in s.limiters then
      var id := s.limiters[key];
      AsFullAs(s.heap[id], b) && s.heap[id].lastUpdate <= now &&
      (forall c :: c in s.held ==> (s.held[c].id == id <==> s.held[c].key == key)) &&
      (forall k :: k in s.limiters && k != key ==> s.limiters[k] != id)
    else b.tokens >= b.capacity as real && !UnderWay(s, key)
  }

  lemma ObtainServes(s: Shared, key: string, b: Bucket, now: real, m: Move)
    requires Valid(s) && Serves(s, key, b, now) && now <= m.at && m.Obtain? && Enabled(s, m)
    ensures Serves(Next(s, m), key, b, m.at)
  {
    var t := Next(s, m);
    hide Earned;
    if key !in s.limiters && m.key != key {
      forall c | c in t.held ensures t.held[c].key != key {
        if c != m.call { assert c in s.held; }
      }
    }
  }

  lemma ChargeServes(s: Shared, key: string, b: Bucket, now: real, m: Move)
    requires 0.0 <= s.rate && Valid(s) && Serves(s, key, b, now) && now <= m.at && m.Charge? && Enabled(s, m)
    ensures var r := Request(m.at, m.n);
            if s.held[m.call].key == key then
              Step(s.heap[s.held[m.call].id], r).1 == Step(b, r).1 && Serves(Next(s, m), key, Step(b, r).0, m.at)
            else Serves(Next(s, m), key, b, m.at)
  {
    hide Step;
    var h, r := s.held[m.call], Request(m.at, m.n);
    if h.key == key {
      assert key in s.limiters && h.id == s.limiters[key];
      AsFullAsStep(s.heap[h.id], b, r);
      StepFields(b, r);
    }
  }

  lemma DropServes(s: Shared, key: string, b: Bucket, now: real, m: Move)
    requires Valid(s) && Serves(s, key, b, now) && now <= m.at && m.Drop? && !Orphans(s, key)
    ensures Serves(Next(s, m), key, b, m.at)
  {
  }

  /** As long as no sweep drops a bucket from under a call, calls for a key are answered as by
      its one permanent bucket, in whatever way the critical sections interleave. */
  lemma {:induction false} ServedAsOne(s: Shared, from: real, ms: seq<Move>, key: string, b: Bucket)
    requires 0.0 <= s.rate && Valid(s) && Serves(s, key, b, from) && IsRun(s, from, ms) && Spares(s, from, ms, key)
    ensures Given(s, from, ms, key) == Answers(b, Charged(s, from, ms, key))
    decreases |ms|
  {
    if ms != [] {
      var m, t := ms[0], Next(s, ms[0]);
      if m.Charge? && s.held[m.call].key == key {
        var r := Request(m.at, m.n);
        ChargeServes(s, key, b, from, m);
        hide Step, Serves, Orphans;
        ServedAsOne(t, m.at, ms[1..], key, Step(b, r).0);
        AnswersCons(b, r, Charged(t, m.at, ms[1..], key));
      } else {
        match m {
          case Obtain(_, _, _) => ObtainServes(s, key, b, from, m);
          case Charge(_, _, _) => ChargeServes(s, key, b, from, m);
          case Drop(_) => DropServes(s, key, b, from, m);
        }
        hide Step, Serves, Orphans;
        ServedAsOne(t, m.at, ms[1..], key, b);
        assert Charged(s, from, ms, key) == Charged(t, m.at, ms[1..], key);
      }
    }
  }

  /** In particular from an empty limiter. */
  lemma PermanentWhenSpared(rate: real, capacity: int, from: real, ms: seq<Move>, key: string)
    requires 0.0 <= rate && IsRun(Empty(rate, capacity), from, ms)
    requires Spares(Empty(rate, capacity), from, ms, key)
    ensures Given(Empty(rate, capacity), from, ms, key)
         == Answers(Full(rate, capacity, from), Charged(Empty(rate, capacity), from, ms, key))
  {
    ServedAsOne(Empty(rate, capacity), from, ms, key, Full(rate, capacity, from));
  }

  // ------------------------------------------------- and no other condition will do

  /** However the run goes on, the calls for the key are answered as by b. */
  ghost predicate AnswersAs(s: Shared, now: real, key: string, b: Bucket)
    requires Valid(s)
  {
    forall ms :: IsRun(s, now, ms) && Spares(s, now, ms, key) ==>
      Given(s, now, ms, key) == Answers(b, Charged(s, now, ms, key))
  }

  /** A call that has lost its bucket spends all of it, and the next one gets a new one. */
  lemma OrphanOverspends(s: Shared, key: string, b: Bucket, now: real, call: nat)
    requires 0.0 <= s.rate && 1 <= s.capacity && Valid(s) && Serves(s, key, b, now)
    requires Orphans(s, key) && call in s.held && s.held[call].key == key
    ensures !AnswersAs(Next(s, Drop(now)), now, key, b)
  {
    var cap := s.capacity;
    var s0 := Next(s, Drop(now));
    var m1, m2, m3 := Charge(now, call, cap), Obtain(now, call, key), Charge(now, call, cap);
    var r := Request(now, cap);
    var s1 := Next(s0, m1);
    var s2 := Next(s1, m2);
    var s3 := Next(s2, m3);
    assert key !in s0.limiters && key !in s1.limiters;
    SpendsAll(s.heap[s.held[call].id], r);
    SpendsAll(Full(s.rate, cap, now), r);
    SpendsAll(b, r);
    hide Step, Serves;
    var empty: seq<Move> := [];
    assert [m3][1..] == empty && [m2, m3][1..] == [m3] && [m1, m2, m3][1..] == [m2, m3];
    assert IsRun(s2, now, [m3]) && IsRun(s1, now, [m2, m3]) && IsRun(s0, now, [m1, m2, m3]);
    assert Spares(s2, now, [m3], key) && Spares(s1, now, [m2, m3], key) && Spares(s0, now, [m1, m2, m3], key);
    assert Charged(s2, now, [m3], key) == [r] && Charged(s1, now, [m2, m3], key) == [r];
    assert Charged(s0, now, [m1, m2, m3], key) == [r, r] == [r] + [r];
    assert Given(s2, now, [m3], key) == [true] && Given(s1, now, [m2, m3], key) == [true];
    assert Given(s0, now, [m1, m2, m3], key) == [true, true];
    AnswersCons(b, r, [r]);
    AnswersCons(Step(b, r).0, r, []);
    assert [r] + [] == [r];
    assert Answers(b, [r, r])[1] == false;
  }

  /** A full bucket grants its capacity once and then nothing at the same instant. */
  lemma SpendsAll(b: Bucket, r: Request)
    requires 0.0 <= b.rate && 1 <= b.capacity == r.n && b.lastUpdate <= r.at && b.tokens >= b.capacity as real
    ensures Step(b, r).1 && !Step(Step(b, r).0, r).1
  {
    FullStaysFull(b, r.at);
    NothingEarned(b.rate);
    hide Earned;
  }

  /** Where a key is served by one bucket, a sweep leaves it so for all that may follow if and
      only if it does not drop the bucket from under a call. */
  lemma SweepIsHarmlessIff(s: Shared, key: string, b: Bucket, now: real)
    requires 0.0 <= s.rate && 1 <= s.capacity && Valid(s) && Serves(s, key, b, now)
    ensures AnswersAs(Next(s, Drop(now)), now, key, b) <==> !Orphans(s, key)
  {
    if Orphans(s, key) {
      var call :| call in s.held && s.held[call].key == key;
      OrphanOverspends(s, key, b, now, call);
    } else {
      DropServes(s, key, b, now, Drop(now));
      var t := Next(s, Drop(now));
      forall ms | IsRun(t, now, ms) && Spares(t, now, ms, key)
        ensures Given(t, now, ms, key) == Answers(b, Charged(t, now, ms, key))
      {
        ServedAsOne(t, now, ms, key, b);
      }
    }
  }
}
