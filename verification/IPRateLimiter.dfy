/**
 The per-key limiter of pkg/server/middleware/ratelimit.go: buckets are created on first
 use and dropped by a background sweep once they are stored full.
 */
module IPRateLimiters {
  import opened TokenBuckets

  datatype Limiter = Limiter(rate: real, capacity: int, buckets: map<string, Bucket>)

  datatype Event =
    | Call(at: real, key: string, n: int)
    | Sweep(at: real)

  function Obtain(l: Limiter, key: string, now: real): Bucket {
    if key in l.buckets then l.buckets[key] else Full(l.rate, l.capacity, now)
  }

  function CallStep(l: Limiter, key: string, r: Request): (Limiter, bool) {
    var (b, ok) := Step(Obtain(l, key, r.at), r);
    (l.(buckets := l.buckets[key := b]), ok)
  }

  function Swept(l: Limiter): Limiter {
    l.(buckets := map key | key in l.buckets &&
                            !(l.buckets[key].tokens >= l.buckets[key].capacity as real)
                      :: l.buckets[key])
  }

  class IPRateLimiter {
    var limiters: map<string, TokenBucket>
    const rate: real
    const capacity: int

    /** No two keys share a bucket, and all buckets have the limiter's settings. */
    ghost predicate Valid()
      reads this
    {
      (forall j, k :: j in limiters && k in limiters && j != k ==> limiters[j] != limiters[k]) &&
      (forall k :: k in limiters ==> limiters[k].rate == rate && limiters[k].capacity == capacity)
    }

    ghost function Abs(): Limiter
      reads this, limiters.Values
    {
      Limiter(rate, capacity, map k | k in limiters :: limiters[k].Abs())
    }

    constructor (rate: real, capacity: int)
      ensures Valid() && Abs() == Limiter(rate, capacity, map[])
    {
      this.rate := rate;
      this.capacity := capacity;
      this.limiters := map[];
    }

    method GetLimiter(ip: string, now: real) returns (b: TokenBucket)
      requires Valid()
      modifies this
      ensures Valid() && ip in limiters && limiters[ip] == b
      ensures ip in old(limiters) ==> limiters == old(limiters)
      ensures ip !in old(limiters) ==> fresh(b) && limiters == old(limiters)[ip := b]
      ensures b.Abs() == Obtain(old(Abs()), ip, now)
    {
      if ip in limiters {
        return limiters[ip];
      }
      b := new TokenBucket(rate, capacity, now);
      limiters := limiters[ip := b];
    }

    /** The bucket a call for this key charges, if it exists already. */
    ghost function BucketOf(key: string): set<object>
      reads this
    {
      if key in limiters then {limiters[key]} else {}
    }

    method AllowN(key: string, n: int, now: real) returns (ok: bool)
      requires Valid()
      modifies this, BucketOf(key)
      ensures Valid()
      ensures forall k :: k in limiters <==> k in old(limiters) || k == key
      ensures forall k :: k in old(limiters) ==> limiters[k] == old(limiters)[k]
      ensures key !in old(limiters) ==> fresh(limiters[key])
      ensures (Abs(), ok) == CallStep(old(Abs()), key, Request(now, n))
    {
      hide Step, Obtain;
      ghost var before := Abs();
      hide IPRateLimiter.Abs;
      AbsFields(before);
      var b := GetLimiter(key, now);
      ok := b.AllowN(n, now);
      AbsIs(before.(buckets := before.buckets[key := b.Abs()]));
    }

    lemma AbsIs(l: Limiter)
      requires l.rate == rate && l.capacity == capacity && l.buckets.Keys == limiters.Keys
      requires forall k :: k in limiters ==> l.buckets[k] == limiters[k].Abs()
      ensures Abs() == l
    {
    }

    lemma AbsFields(l: Limiter)
      requires l == Abs()
      ensures l.rate == rate && l.capacity == capacity && l.buckets.Keys == limiters.Keys
      ensures forall k :: k in limiters ==> l.buckets[k] == limiters[k].Abs()
    {
    }

    method Allow(key: string, now: real) returns (ok: bool)
      requires Valid()
      modifies this, BucketOf(key)
      ensures Valid()
      ensures (Abs(), ok) == CallStep(old(Abs()), key, Request(now, 1))
    {
      ok := AllowN(key, 1, now);
    }

    method Cleanup()
      requires Valid()
      modifies this
      ensures Valid() && limiters.Values <= old(limiters.Values)
      ensures Abs() == Swept(old(Abs()))
      ensures forall ip :: ip in limiters <==>
                ip in old(limiters) && old(limiters)[ip].tokens < old(limiters)[ip].capacity as real
      ensures forall ip :: ip in limiters ==> limiters[ip] == old(limiters)[ip]
    {
      ghost var all := Abs();
      hide IPRateLimiter.Abs;
      AbsFields(all);
      ghost var before := all.buckets;
      var todo := limiters.Keys;
      while todo != {}
        invariant todo <= old(limiters).Keys
        invariant limiters == map k | k in old(limiters) &&
          (k in todo || !(before[k].tokens >= before[k].capacity as real)) :: old(limiters)[k]
        decreases todo
      {
        var ip :| ip in todo;
        if limiters[ip].tokens >= limiters[ip].capacity as real {
          limiters := limiters - {ip};
        }
        todo := todo - {ip};
      }
      AbsIs(Swept(all));
    }
  }

  // ---------------------------------------------------------------- runs

  ghost predicate Chronological(from: real, es: seq<Event>)
    decreases |es|
  {
    es != [] ==> from <= es[0].at && Chronological(es[0].at, es[1..])
  }

  function EventStep(l: Limiter, e: Event): Limiter {
    match e
    case Call(at, key, n) => CallStep(l, key, Request(at, n)).0
    case Sweep(_) => Swept(l)
  }

  /** The answers the limiter gives to the calls that ask for `key`. */
  function AnswersFor(l: Limiter, es: seq<Event>, key: string): seq<bool>
    decreases |es|
  {
    if es == [] then [] else
      (if es[0].Call? && es[0].key == key
       then [CallStep(l, key, Request(es[0].at, es[0].n)).1] else []) +
      AnswersFor(EventStep(l, es[0]), es[1..], key)
  }

  /** The requests one key makes in a run. */
  function Calls(es: seq<Event>, key: string): seq<Request>
    decreases |es|
  {
    if es == [] then [] else
      (if es[0].Call? && es[0].key == key then [Request(es[0].at, es[0].n)] else []) +
      Calls(es[1..], key)
  }

  /** From `now` on the limiter answers for `key` as the permanent bucket `b` does: either
      it holds that bucket, or `b` has been full since its last update. */
  ghost predicate Tracks(l: Limiter, key: string, b: Bucket, now: real) {
    b.rate == l.rate && b.capacity == l.capacity && b.lastUpdate <= now &&
    if key in l.buckets then l.buckets[key] == b else b.tokens >= b.capacity as real
  }

  lemma FullStaysFull(b: Bucket, now: real)
    requires 0.0 <= b.rate && b.lastUpdate <= now && b.tokens >= b.capacity as real
    ensures Refilled(b, now) == Full(b.rate, b.capacity, now)
    ensures Refilled(Full(b.rate, b.capacity, now), now) == Full(b.rate, b.capacity, now)
  {
    hide Earned;
    EarnedNonNegative(b.rate, now - b.lastUpdate);
    NothingEarned(b.rate);
  }

  lemma TracksStep(l: Limiter, key: string, b: Bucket, e: Event)
    requires 0.0 <= l.rate && Tracks(l, key, b, e.at)
    ensures if e.Call? && e.key == key then
              var r := Request(e.at, e.n);
              Step(b, r).1 == CallStep(l, key, r).1 &&
              Tracks(EventStep(l, e), key, Step(b, r).0, e.at)
            else Tracks(EventStep(l, e), key, b, e.at)
  {
    hide Earned;
    if e.Call? && e.key == key && key !in l.buckets { FullStaysFull(b, e.at); }
  }

  lemma {:induction false} TracksRun(l: Limiter, key: string, b: Bucket, now: real, es: seq<Event>)
    requires 0.0 <= l.rate && Tracks(l, key, b, now) && Chronological(now, es)
    ensures AnswersFor(l, es, key) == Answers(b, Calls(es, key))
    decreases |es|
  {
    if es != [] {
      TracksStep(l, key, b, es[0]);
      hide Step, CallStep, Swept, Obtain;
      var rest := Calls(es[1..], key);
      if es[0].Call? && es[0].key == key {
        var r := Request(es[0].at, es[0].n);
        TracksRun(EventStep(l, es[0]), key, Step(b, r).0, es[0].at, es[1..]);
        AnswersCons(b, r, rest);
      } else {
        TracksRun(EventStep(l, es[0]), key, b, es[0].at, es[1..]);
        assert Calls(es, key) == rest;
      }
    }
  }

  /** Each key sees exactly one permanent bucket, full at the start, however calls of
      other keys and sweeps interleave -- for all runs if and only if the rate is not
      negative. */
  ghost predicate OnePermanentBucketPerKey(rate: real, capacity: int) {
    forall start: real, es: seq<Event>, key: string :: Chronological(start, es) ==>
      AnswersFor(Limiter(rate, capacity, map[]), es, key)
        == Answers(Full(rate, capacity, start), Calls(es, key))
  }

  lemma PermanentBuckets(rate: real, capacity: int)
    ensures OnePermanentBucketPerKey(rate, capacity) <==> 0.0 <= rate
  {
    if 0.0 <= rate {
      forall start: real, es: seq<Event>, key: string | Chronological(start, es)
        ensures AnswersFor(Limiter(rate, capacity, map[]), es, key)
             == Answers(Full(rate, capacity, start), Calls(es, key))
      {
        TracksRun(Limiter(rate, capacity, map[]), key, Full(rate, capacity, start), start, es);
      }
    } else {
      NegativeRateDiffers(rate, capacity);
    }
  }

  /** With a negative rate the permanent bucket drains while nobody calls; the bucket the
      limiter creates at the first call does not. */
  lemma NegativeRateDiffers(rate: real, capacity: int)
    requires rate < 0.0
    ensures !OnePermanentBucketPerKey(rate, capacity)
  {
    var l, es, r := Limiter(rate, capacity, map[]), [Call(1.0, "k", capacity)], Request(1.0, capacity);
    assert Chronological(0.0, es);
    assert es[1..] == [] && Calls(es, "k") == [r];
    assert Earned(rate, 1.0 - 0.0) == rate && Earned(rate, 1.0 - 1.0) == 0.0;
    hide Earned;
    assert AnswersFor(l, es, "k") == [true];
    assert Answers(Full(rate, capacity, 0.0), [r])[0] == false;
  }

  function AdmittedFor(l: Limiter, es: seq<Event>, key: string, s: real, t: real): real
    decreases |es|
  {
    if es == [] then 0.0 else
      (if es[0].Call? && es[0].key == key && s <= es[0].at <= t &&
          CallStep(l, key, Request(es[0].at, es[0].n)).1 then es[0].n as real else 0.0) +
      AdmittedFor(EventStep(l, es[0]), es[1..], key, s, t)
  }

  lemma {:induction false} AdmittedByPermanentBucket(l: Limiter, key: string, b: Bucket, now: real,
                                                     es: seq<Event>, s: real, t: real)
    requires 0.0 <= l.rate && Tracks(l, key, b, now) && Chronological(now, es)
    ensures AdmittedFor(l, es, key, s, t) == Admitted(b, Calls(es, key), s, t)
    ensures TokenBuckets.Chronological(b.lastUpdate, Calls(es, key))
    decreases |es|
  {
    if es != [] {
      TracksStep(l, key, b, es[0]);
      StepFields(b, Request(es[0].at, if es[0].Call? then es[0].n else 0));
      hide Step, CallStep, Swept, Obtain;
      var rest := Calls(es[1..], key);
      if es[0].Call? && es[0].key == key {
        var r := Request(es[0].at, es[0].n);
        AdmittedByPermanentBucket(EventStep(l, es[0]), key, Step(b, r).0, es[0].at, es[1..], s, t);
        assert ([r] + rest)[1..] == rest;
      } else {
        AdmittedByPermanentBucket(EventStep(l, es[0]), key, b, es[0].at, es[1..], s, t);
        assert Calls(es, key) == rest;
      }
    }
  }

  /** The bucket's bound holds for every key, sweeps or no sweeps. */
  lemma PerKeyIntervalBound(rate: real, capacity: int, es: seq<Event>, key: string,
                            start: real, s: real, t: real)
    requires 0.0 <= rate && 0 <= capacity && Chronological(start, es) && s <= t
    ensures AdmittedFor(Limiter(rate, capacity, map[]), es, key, s, t)
              <= capacity as real + (t - s) * rate
  {
    hide Admitted, AdmittedFor, Calls;
    var b := Full(rate, capacity, start);
    AdmittedByPermanentBucket(Limiter(rate, capacity, map[]), key, b, start, es, s, t);
    IntervalBound(b, Calls(es, key), s, t);
  }

  // ------------------------------------------------- which buckets are dropped

  /** A sweep drops the buckets stored full and changes no other. */
  lemma SweptIff(l: Limiter, key: string)
    ensures key in Swept(l).buckets <==>
            key in l.buckets && l.buckets[key].tokens < l.buckets[key].capacity as real
    ensures key in Swept(l).buckets ==> Swept(l).buckets[key] == l.buckets[key]
    ensures Swept(l).rate == l.rate && Swept(l).capacity == l.capacity
  {
  }

  function AfterRun(l: Limiter, es: seq<Event>): Limiter
    decreases |es|
  {
    if es == [] then l else AfterRun(EventStep(l, es[0]), es[1..])
  }

  ghost predicate NoCall(es: seq<Event>, key: string) {
    forall i :: 0 <= i < |es| && es[i].Call? ==> es[i].key != key
  }

  ghost predicate AnySweep(es: seq<Event>) {
    exists i :: 0 <= i < |es| && es[i].Sweep?
  }

  lemma {:induction false} UntouchedUnlessSwept(l: Limiter, es: seq<Event>, key: string)
    requires NoCall(es, key) && key in l.buckets
    ensures if l.buckets[key].tokens >= l.buckets[key].capacity as real && AnySweep(es)
            then key !in AfterRun(l, es).buckets
            else key in AfterRun(l, es).buckets && AfterRun(l, es).buckets[key] == l.buckets[key]
    decreases |es|
  {
    hide Step;
    if es != [] {
      assert forall i :: 0 <= i < |es[1..]| ==> es[1..][i] == es[i + 1];
      if es[0].Sweep? && l.buckets[key].tokens >= l.buckets[key].capacity as real {
        StaysAway(EventStep(l, es[0]), es[1..], key);
      } else {
        UntouchedUnlessSwept(EventStep(l, es[0]), es[1..], key);
        assert AnySweep(es) <==> es[0].Sweep? || AnySweep(es[1..]) by { AnySweepCons(es); }
      }
    }
  }

  lemma AnySweepCons(es: seq<Event>)
    requires es != []
    ensures AnySweep(es) <==> es[0].Sweep? || AnySweep(es[1..])
  {
    assert forall i :: 0 < i < |es| ==> es[i] == es[1..][i - 1];
  }

  lemma {:induction false} StaysAway(l: Limiter, es: seq<Event>, key: string)
    requires NoCall(es, key) && key !in l.buckets
    ensures key !in AfterRun(l, es).buckets
    decreases |es|
  {
    hide Step;
    if es != [] {
      assert forall i :: 0 <= i < |es[1..]| ==> es[1..][i] == es[i + 1];
      StaysAway(EventStep(l, es[0]), es[1..], key);
    }
  }

  /** Sweeps look at the tokens stored by the last call, not at what has been earned since: a
      key whose last call asked for something is dropped by later sweeps if and only if that
      call was rejected on a full bucket, which only a call beyond the capacity can be.  After
      any other call the key stays, however long it is idle. */
  lemma IdleKeyIsDroppedIff(l: Limiter, key: string, n: int, at: real, es: seq<Event>)
    requires 1 <= n && NoCall(es, key) && AnySweep(es)
    requires key in l.buckets ==> l.buckets[key].capacity == l.capacity && l.buckets[key].rate == l.rate
    ensures key !in AfterRun(CallStep(l, key, Request(at, n)).0, es).buckets
            <==> n > l.capacity &&
                 (key in l.buckets ==>
                    l.buckets[key].tokens + (at - l.buckets[key].lastUpdate) * l.rate >= l.capacity as real)
  {
    hide Step, AfterRun, Earned;
    var b := Obtain(l, key, at);
    var held := Min(l.capacity as real, b.tokens + (at - b.lastUpdate) * l.rate);
    GrantedIff(b, b.tokens, b.lastUpdate, n, at);
    if key !in l.buckets { assert (at - at) * l.rate == 0.0; }
    var next := CallStep(l, key, Request(at, n)).0;
    var stored := next.buckets[key].tokens;
    StoredFullIff(held, n, l.capacity, stored);
    UntouchedUnlessSwept(next, es, key);
  }

  lemma StoredFullIff(held: real, n: int, capacity: int, stored: real)
    requires 1 <= n && held <= capacity as real
    requires stored == if n as real <= held then held - n as real else held
    ensures stored >= capacity as real <==> n > capacity && held >= capacity as real
  {
  }

  /** The two critical sections of a call do not make one atomic step: a sweep between
      obtaining a full bucket and charging it orphans the bucket, and two full bursts pass
      at one instant.  So the laws above are about calls that run without such a gap. */
  method OrphanedBucketDoublesTheBurst(l: IPRateLimiter, key: string, now: real)
    returns (first: bool, second: bool)
    requires l.Valid() && 0.0 <= l.rate && 0 <= l.capacity
    requires key in l.limiters ==> l.limiters[key].lastUpdate <= now &&
                                   l.limiters[key].tokens >= l.capacity as real
    modifies l, l.BucketOf(key)
    ensures first && second
  {
    NothingEarned(l.rate);
    ghost var before := l.Abs();
    if key in l.limiters { FullStaysFull(before.buckets[key], now); }
    FullStaysFull(Full(l.rate, l.capacity, now), now);
    hide Earned;
    var b := l.GetLimiter(key, now);
    ghost var obtained := b.Abs();
    l.Cleanup();
    assert key !in l.Abs().buckets;
    first := b.AllowN(l.capacity, now);
    second := l.AllowN(key, l.capacity, now);
  }
}
