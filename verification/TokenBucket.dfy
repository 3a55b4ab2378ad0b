/**
 The token bucket of pkg/server/middleware/ratelimit.go.  Time and tokens are reals;
 every call carries the clock reading it takes under the lock.
 */
module TokenBuckets {
  import opened Prelude

  datatype Bucket = Bucket(rate: real, capacity: int, tokens: real, lastUpdate: real)

  datatype Request = Request(at: real, n: int)

  function Full(rate: real, capacity: int, now: real): Bucket {
    Bucket(rate, capacity, capacity as real, now)
  }

  /** What a bucket earns in `d` seconds.  Proofs hide the product and use the three
      laws below, which keeps the solver out of non-linear arithmetic. */
  function Earned(rate: real, d: real): real {
    d * rate
  }

  lemma EarnedIs(rate: real, d: real)
    ensures Earned(rate, d) == d * rate
  {
  }

  lemma EarnedNonNegative(rate: real, d: real)
    requires 0.0 <= rate && 0.0 <= d
    ensures 0.0 <= Earned(rate, d)
  {
  }

  lemma NothingEarned(rate: real)
    ensures Earned(rate, 0.0) == 0.0
  {
  }

  lemma EarnedMonotone(rate: real, d: real, e: real)
    requires 0.0 <= rate && d <= e
    ensures Earned(rate, d) <= Earned(rate, e)
  {
    EarnedNonNegative(rate, e - d);
  }

  lemma EarnedAdds(rate: real, x: real, y: real, z: real)
    ensures Earned(rate, z - x) == Earned(rate, y - x) + Earned(rate, z - y)
  {
  }

  /** The bucket once the tokens earned up to `now` are added and the surplus dropped. */
  function Refilled(b: Bucket, now: real): Bucket {
    var earned := b.tokens + Earned(b.rate, now - b.lastUpdate);
    b.(tokens := if earned > b.capacity as real then b.capacity as real else earned,
       lastUpdate := now)
  }

  function Step(b: Bucket, r: Request): (Bucket, bool) {
    var full := Refilled(b, r.at);
    if full.tokens >= r.n as real then (full.(tokens := full.tokens - r.n as real), true)
    else (full, false)
  }

  class TokenBucket {
    const rate: real
    const capacity: int
    var tokens: real
    var lastUpdate: real

    ghost function Abs(): Bucket
      reads this
    {
      Bucket(rate, capacity, tokens, lastUpdate)
    }

    constructor (rate: real, capacity: int, now: real)
      ensures Abs() == Full(rate, capacity, now)
      ensures this.rate == rate && this.capacity == capacity
      ensures tokens == capacity as real && lastUpdate == now
    {
      this.rate := rate;
      this.capacity := capacity;
      this.tokens := capacity as real;
      this.lastUpdate := now;
    }

    method Allow(now: real) returns (ok: bool)
      modifies this
      ensures (Abs(), ok) == Step(old(Abs()), Request(now, 1))
    {
      ok := AllowN(1, now);
    }

    method AllowN(n: int, now: real) returns (ok: bool)
      modifies this
      ensures (Abs(), ok) == Step(old(Abs()), Request(now, n))
    {
      var elapsed := now - lastUpdate;
      lastUpdate := now;

      tokens := tokens + elapsed * rate;
      if tokens > capacity as real {
        tokens := capacity as real;
      }

      assert Abs() == Refilled(old(Abs()), now);
      if tokens >= n as real {
        tokens := tokens - n as real;
        return true;
      }
      return false;
    }
  }

  // ---------------------------------------------------------------- one call

  function Min(x: real, y: real): real {
    if x <= y then x else y
  }

  /** With x tokens held at its last call, at time u, a call for n at time t is granted exactly
      if n fits into what it held and has earned since, up to the capacity; it is charged for
      what it grants and for nothing else. */
  lemma GrantedIff(b: Bucket, x: real, u: real, n: int, t: real)
    requires b.tokens == x && b.lastUpdate == u
    ensures var (next, granted) := Step(b, Request(t, n));
            var held := Min(b.capacity as real, x + (t - u) * b.rate);
            (granted <==> n as real <= held) &&
            next.tokens == (if granted then held - n as real else held) && next.lastUpdate == t &&
            next.rate == b.rate && next.capacity == b.capacity
  {
    EarnedIs(b.rate, t - u);
    hide Earned;
  }

  /** Two calls in a row, starting from a new bucket: what is left of the first burst is what
      the second can have, and what the time in between has earned at the given rate. */
  lemma NewBucketThenTwo(rate: real, capacity: int, u: real, n: int, t: real, m: int, v: real)
    requires 0.0 <= rate && 0 <= n <= capacity && u <= t <= v
    ensures Answers(Full(rate, capacity, u), [Request(t, n), Request(v, m)])
         == [true, m as real <= Min(capacity as real, (capacity - n) as real + (v - t) * rate)]
  {
    var b, one, two := Full(rate, capacity, u), Request(t, n), Request(v, m);
    EarnedNonNegative(rate, t - u);
    EarnedIs(rate, v - t);
    EarnedIs(rate, t - u);
    var e, f := (t - u) * rate, (v - t) * rate;
    GrantedIff(b, capacity as real, u, n, t);
    var next := Step(b, one).0;
    GrantedIff(next, next.tokens, t, m, v);
    hide Step, Earned, Refilled;
    TwoDecisions(capacity, n, m, e, f, next.tokens, Step(b, one).1, Step(next, two).1);
    hide Min;
    AnswersCons(b, one, [two]);
    AnswersCons(next, two, []);
    assert [one] + [two] == [one, two] && [two] + [] == [two];
  }

  lemma TwoDecisions(capacity: int, n: int, m: int, e: real, f: real, left: real, first: bool, second: bool)
    requires 0.0 <= e && n <= capacity
    requires var held := Min(capacity as real, capacity as real + e);
             (first <==> n as real <= held) && left == (if first then held - n as real else held)
    requires second <==> m as real <= Min(capacity as real, left + f)
    ensures first && left == (capacity - n) as real
    ensures second <==> m as real <= Min(capacity as real, (capacity - n) as real + f)
  {
  }

  // ---------------------------------------------------------------- runs

  ghost predicate Chronological(from: real, rs: seq<Request>)
    decreases |rs|
  {
    rs != [] ==> from <= rs[0].at && Chronological(rs[0].at, rs[1..])
  }

  function Answers(b: Bucket, rs: seq<Request>): (out: seq<bool>)
    ensures |out| == |rs|
    decreases |rs|
  {
    if rs == [] then [] else
      var (next, ok) := Step(b, rs[0]);
      [ok] + Answers(next, rs[1..])
  }

  function After(b: Bucket, rs: seq<Request>): Bucket
    decreases |rs|
  {
    if rs == [] then b else After(Step(b, rs[0]).0, rs[1..])
  }

  /** What the calls answered yes add up to, counting the calls made in [s, t]. */
  function Admitted(b: Bucket, rs: seq<Request>, s: real, t: real): real
    decreases |rs|
  {
    if rs == [] then 0.0 else
      var (next, ok) := Step(b, rs[0]);
      (if ok && s <= rs[0].at <= t then rs[0].n as real else 0.0) + Admitted(next, rs[1..], s, t)
  }

  /** A bucket holds no debt; a request for a negative amount may leave it over-full
      until the next refill, so no upper bound is part of this invariant. */
  ghost predicate Sound(b: Bucket) {
    0.0 <= b.rate && 0 <= b.capacity && 0.0 <= b.tokens
  }

  lemma RefilledSound(b: Bucket, now: real)
    requires Sound(b) && b.lastUpdate <= now
    ensures Sound(Refilled(b, now)) && Refilled(b, now).tokens <= b.capacity as real
    ensures Refilled(b, now).tokens <= b.tokens + Earned(b.rate, now - b.lastUpdate)
  {
    hide Earned;
    EarnedNonNegative(b.rate, now - b.lastUpdate);
  }

  /** Tokens stay within [0, capacity] through every run of non-negative requests. */
  lemma {:induction false} TokensStayInRange(b: Bucket, rs: seq<Request>)
    requires Sound(b) && b.tokens <= b.capacity as real
    requires Chronological(b.lastUpdate, rs)
    requires forall i :: 0 <= i < |rs| ==> 0 <= rs[i].n
    ensures 0.0 <= After(b, rs).tokens <= b.capacity as real
    decreases |rs|
  {
    hide Earned;
    if rs != [] {
      RefilledSound(b, rs[0].at);
      TokensStayInRange(Step(b, rs[0]).0, rs[1..]);
    }
  }

  /** One call spends what it admits out of what was held and earned. */
  lemma StepSpends(b: Bucket, r: Request)
    requires Sound(b) && b.lastUpdate <= r.at
    ensures var (next, ok) := Step(b, r);
            Sound(next) && next.rate == b.rate && next.capacity == b.capacity &&
            next.lastUpdate == r.at &&
            next.tokens + (if ok then r.n as real else 0.0)
              <= b.tokens + Earned(b.rate, r.at - b.lastUpdate) &&
            next.tokens + (if ok then r.n as real else 0.0) <= b.capacity as real
  {
    hide Earned;
    RefilledSound(b, r.at);
  }

  /** Capped refills compose: refilling in two goes is refilling once. */
  lemma RefillsCompose(b: Bucket, t: real, u: real)
    requires 0.0 <= b.rate && b.lastUpdate <= t <= u
    ensures Refilled(Refilled(b, t), u) == Refilled(b, u)
  {
    hide Earned;
    EarnedNonNegative(b.rate, u - t);
    EarnedAdds(b.rate, b.lastUpdate, t, u);
  }

  // ------------------------------------------------- the bound on every interval

  lemma {:induction false} NothingAfter(b: Bucket, rs: seq<Request>, s: real, t: real)
    requires Chronological(b.lastUpdate, rs) && t < b.lastUpdate
    ensures Admitted(b, rs, s, t) == 0.0
    decreases |rs|
  {
    if rs != [] {
      NothingAfter(Step(b, rs[0]).0, rs[1..], s, t);
    }
  }

  /** Inside the interval, what is admitted is paid for by the tokens held and earned. */
  lemma {:induction false} AdmittedIsPaidFor(b: Bucket, rs: seq<Request>, s: real, t: real)
    requires Sound(b) && Chronological(b.lastUpdate, rs) && s <= b.lastUpdate <= t
    ensures Admitted(b, rs, s, t) <= b.tokens + Earned(b.rate, t - b.lastUpdate)
    decreases |rs|
  {
    hide Earned;
    if rs == [] {
      EarnedNonNegative(b.rate, t - b.lastUpdate);
    } else {
      var a := rs[0].at;
      var next := Step(b, rs[0]).0;
      StepSpends(b, rs[0]);
      if a <= t {
        AdmittedIsPaidFor(next, rs[1..], s, t);
        EarnedAdds(b.rate, b.lastUpdate, a, t);
      } else {
        NothingAfter(next, rs[1..], s, t);
        EarnedNonNegative(b.rate, t - b.lastUpdate);
      }
    }
  }

  /** For every run and every closed interval, the total admitted is at most
      capacity + rate * length.  Amounts may even be negative. */
  lemma IntervalBound(b: Bucket, rs: seq<Request>, s: real, t: real)
    requires Sound(b) && b.tokens <= b.capacity as real
    requires Chronological(b.lastUpdate, rs) && s <= t
    ensures Admitted(b, rs, s, t) <= b.capacity as real + (t - s) * b.rate
  {
    IntervalBoundFrom(b, rs, s, t);
    EarnedIs(b.rate, t - s);
    hide Earned;
  }

  lemma {:induction false} IntervalBoundFrom(b: Bucket, rs: seq<Request>, s: real, t: real)
    requires Sound(b) && Chronological(b.lastUpdate, rs) && s <= t
    requires s <= b.lastUpdate ==> b.tokens <= b.capacity as real
    ensures Admitted(b, rs, s, t) <= b.capacity as real + Earned(b.rate, t - s)
    decreases |rs|
  {
    hide Earned;
    EarnedNonNegative(b.rate, t - s);
    if t < b.lastUpdate {
      NothingAfter(b, rs, s, t);
    } else if s <= b.lastUpdate {
      AdmittedIsPaidFor(b, rs, s, t);
      EarnedMonotone(b.rate, t - b.lastUpdate, t - s);
    } else if rs != [] {
      var a := rs[0].at;
      var next := Step(b, rs[0]).0;
      StepSpends(b, rs[0]);
      if a < s {
        IntervalBoundFrom(next, rs[1..], s, t);
      } else if a <= t {
        AdmittedIsPaidFor(next, rs[1..], s, t);
        EarnedMonotone(b.rate, t - a, t - s);
      } else {
        NothingAfter(next, rs[1..], s, t);
      }
    }
  }

  // ------------------------------------------------- rejected calls leave no trace

  /** The two buckets decide alike from now on: one merely refilled more often. */
  ghost predicate Alike(b: Bucket, c: Bucket) {
    b == c || (c.lastUpdate <= b.lastUpdate && b == Refilled(c, b.lastUpdate))
  }

  /** Dropping any rejected calls from a run changes the answer of no other call. */
  lemma {:induction false} RejectedCallsLeaveNoTrace(b: Bucket, rs: seq<Request>, keep: seq<bool>)
    requires 0.0 <= b.rate && Chronological(b.lastUpdate, rs) && |keep| == |rs|
    requires forall i :: 0 <= i < |rs| && !keep[i] ==> !Answers(b, rs)[i]
    ensures Answers(b, Sub(rs, keep)) == Sub(Answers(b, rs), keep)
    decreases |rs|
  {
    DropRejected(b, b, rs, keep);
  }

  lemma AnswersCons(b: Bucket, r: Request, rs: seq<Request>)
    ensures Answers(b, [r] + rs) == [Step(b, r).1] + Answers(Step(b, r).0, rs)
  {
    assert ([r] + rs)[1..] == rs;
  }

  lemma AlikeStep(b: Bucket, c: Bucket, r: Request)
    requires 0.0 <= b.rate && Alike(b, c) && b.lastUpdate <= r.at
    ensures Step(b, r) == Step(c, r)
    ensures !Step(b, r).1 ==> Alike(Step(b, r).0, c)
  {
    hide Earned;
    if b != c { RefillsCompose(c, b.lastUpdate, r.at); }
  }

  lemma {:induction false} DropRejected(b: Bucket, c: Bucket, rs: seq<Request>, keep: seq<bool>)
    requires 0.0 <= b.rate && Alike(b, c)
    requires Chronological(b.lastUpdate, rs) && |keep| == |rs|
    requires forall i :: 0 <= i < |rs| && !keep[i] ==> !Answers(b, rs)[i]
    ensures Answers(c, Sub(rs, keep)) == Sub(Answers(b, rs), keep)
    decreases |rs|
  {
    hide Earned, Refilled, Step, Alike;
    if rs != [] {
      var r, rest := rs[0], rs[1..];
      var next := Step(b, r).0;
      assert rs == [r] + rest;
      AnswersCons(b, r, rest);
      AlikeStep(b, c, r);
      StepFields(b, r);
      forall i | 0 <= i < |rest| && !keep[1..][i]
        ensures !Answers(next, rest)[i]
      {
        assert !keep[i + 1];
        assert Answers(b, rs)[i + 1] == Answers(next, rest)[i];
      }
      assert keep == [keep[0]] + keep[1..];
      SubCons(r, rest, keep[0], keep[1..]);
      SubCons(Step(b, r).1, Answers(next, rest), keep[0], keep[1..]);
      if keep[0] {
        AlikeRefl(next);
        DropRejected(next, next, rest, keep[1..]);
        AnswersCons(c, r, Sub(rest, keep[1..]));
      } else {
        assert !Answers(b, rs)[0];
        DropRejected(next, c, rest, keep[1..]);
      }
    }
  }

  lemma AlikeRefl(b: Bucket)
    ensures Alike(b, b)
  {
  }

  lemma StepFields(b: Bucket, r: Request)
    ensures var next := Step(b, r).0;
            next.rate == b.rate && next.capacity == b.capacity && next.lastUpdate == r.at
  {
  }

  // ------------------------------------------------- greedy admission is optimal

  /** The rival holds the same bucket under the same refill and cap, but may turn away
      a call it could afford.  It may not overdraw. */
  ghost predicate Feasible(b: Bucket, rs: seq<Request>, choices: seq<bool>)
    requires |rs| == |choices|
    decreases |rs|
  {
    rs != [] ==>
      var full := Refilled(b, rs[0].at);
      if choices[0] then
        full.tokens >= rs[0].n as real &&
        Feasible(full.(tokens := full.tokens - rs[0].n as real), rs[1..], choices[1..])
      else Feasible(full, rs[1..], choices[1..])
  }

  /** w is the only amount in the run that is positive and can be had at all. */
  ghost predicate OneSize(rs: seq<Request>, w: int, capacity: int) {
    1 <= w && forall i :: 0 <= i < |rs| ==> rs[i].n == w || rs[i].n <= 0 || rs[i].n > capacity
  }

  /** When all calls that count ask for the same amount, no feasible way of choosing admits
      more calls than the bucket itself does, in any prefix of any run. */
  lemma {:induction false} GreedyIsOptimal(b: Bucket, rs: seq<Request>, w: int,
                                           choices: seq<bool>, k: nat)
    requires Sound(b) && Chronological(b.lastUpdate, rs) && OneSize(rs, w, b.capacity)
    requires |choices| == |rs| && Feasible(b, rs, choices) && k <= |rs|
    ensures Count(choices[..k]) <= Count(Answers(b, rs)[..k])
    decreases |rs|
  {
    RivalNeverAhead(b, b, rs, w, choices, k, 0);
  }

  lemma CountPrefix(flags: seq<bool>, k: nat)
    requires 0 < k <= |flags|
    ensures Count(flags[..k]) == (if flags[0] then 1 else 0) + Count(flags[1..][..k - 1])
  {
    assert flags[..k][1..] == flags[1..][..k - 1];
  }

  /** The lead in admitted calls, priced at w each, covers the rival's richer bucket. */
  lemma {:induction false} RivalNeverAhead(b: Bucket, c: Bucket, rs: seq<Request>, w: int,
                                           choices: seq<bool>, k: nat, lead: nat)
    requires Sound(b) && c.rate == b.rate && c.capacity == b.capacity
    requires c.lastUpdate == b.lastUpdate && Chronological(b.lastUpdate, rs) && OneSize(rs, w, b.capacity)
    requires |choices| == |rs| && Feasible(c, rs, choices) && k <= |rs|
    requires b.tokens + (lead * w) as real >= c.tokens
    ensures Count(choices[..k]) <= Count(Answers(b, rs)[..k]) + lead
    decreases |rs|
  {
    hide Earned, Feasible;
    if k > 0 {
      var (next, ok) := Step(b, rs[0]);
      var rival := Choose(c, rs[0], choices[0]);
      RefilledSound(b, rs[0].at);
      CountPrefix(choices, k);
      CountPrefix(Answers(b, rs), k);
      FeasibleCons(c, rs, choices);
      var more := LeadKept(b, c, rs[0], w, choices[0], lead);
      assert forall i :: 0 <= i < |rs[1..]| ==> rs[1..][i] == rs[i + 1];
      hide Step, Refilled, Choose, Answers;
      RivalNeverAhead(next, rival, rs[1..], w, choices[1..], k - 1, more);
    }
  }

  function Choose(c: Bucket, r: Request, choice: bool): Bucket {
    var full := Refilled(c, r.at);
    if choice then full.(tokens := full.tokens - r.n as real) else full
  }

  lemma FeasibleCons(c: Bucket, rs: seq<Request>, choices: seq<bool>)
    requires |rs| == |choices| > 0
    ensures Feasible(c, rs, choices) <==>
            (choices[0] ==> Refilled(c, rs[0].at).tokens >= rs[0].n as real) &&
            Feasible(Choose(c, rs[0], choices[0]), rs[1..], choices[1..])
  {
  }

  lemma LeadKept(b: Bucket, c: Bucket, r: Request, w: int, choice: bool, lead: nat) returns (more: nat)
    requires Sound(b) && b.lastUpdate <= r.at && c.rate == b.rate && c.capacity == b.capacity
    requires c.lastUpdate == b.lastUpdate && 1 <= w && (r.n == w || r.n <= 0 || r.n > b.capacity)
    requires b.tokens + (lead * w) as real >= c.tokens
    requires choice ==> Refilled(c, r.at).tokens >= r.n as real
    ensures more == lead + (if Step(b, r).1 then 1 else 0) - (if choice then 1 else 0)
    ensures Step(b, r).0.tokens + (more * w) as real >= Choose(c, r, choice).tokens
  {
    var full, rival := Refilled(b, r.at), Refilled(c, r.at);
    RefilledSound(b, r.at);
    CappedRefill(c, r.at);
    assert 0 <= lead * w;
    RefillKeepsLead(b, c, r.at, (lead * w) as real);
    hide Refilled, Earned;
    var ok := full.tokens >= r.n as real;
    if !ok && choice {
      assert r.n == w;
      LeadIsPositive(lead, w);
    }
    more := lead + (if ok then 1 else 0) - (if choice then 1 else 0);
    assert (lead + 1) * w == lead * w + w && (lead - 1) * w == lead * w - w;
  }

  lemma CappedRefill(c: Bucket, now: real)
    ensures Refilled(c, now).tokens <= c.capacity as real
  {
  }

  lemma RefillKeepsLead(b: Bucket, c: Bucket, at: real, x: real)
    requires c.rate == b.rate && c.capacity == b.capacity && c.lastUpdate == b.lastUpdate
    requires 0.0 <= x && b.tokens + x >= c.tokens
    ensures Refilled(b, at).tokens + x >= Refilled(c, at).tokens
  {
    hide Earned;
  }

  lemma LeadIsPositive(lead: nat, w: int)
    requires lead * w > 0
    ensures lead > 0
  {
  }

  lemma MixedSteps(b: Bucket, one: Request, two: Request)
    requires b == Full(0.0, 2, 0.0) && one == Request(0.0, 1) && two == Request(0.0, 2)
    ensures Step(b.(tokens := 0.0), one) == (b.(tokens := 0.0), false)
    ensures Step(b, two) == (b.(tokens := 0.0), true)
  {
    hide Earned;
    NothingEarned(0.0);
    assert Refilled(b, 0.0) == b;
    assert Refilled(b.(tokens := 0.0), 0.0) == b.(tokens := 0.0);
    hide Refilled;
  }

  lemma MixedAnswers(b: Bucket, one: Request, two: Request)
    requires b == Full(0.0, 2, 0.0) && one == Request(0.0, 1) && two == Request(0.0, 2)
    ensures Answers(b, [two, one, one]) == [true, false, false]
  {
    hide Earned, Refilled, Step;
    var b0 := b.(tokens := 0.0);
    assert Step(b0, one) == (b0, false) && Step(b, two) == (b0, true) by { MixedSteps(b, one, two); }
    AnswersCons(b0, one, []);
    AnswersCons(b0, one, [one]);
    AnswersCons(b, two, [one, one]);
    assert [two, one, one] == [two] + [one, one] && [one, one] == [one] + [one] && [one] == [one] + [];
  }

  lemma MixedFeasible(b: Bucket, one: Request, two: Request)
    requires b == Full(0.0, 2, 0.0) && one == Request(0.0, 1) && two == Request(0.0, 2)
    ensures Feasible(b, [two, one, one], [false, true, true])
  {
    var b1 := b.(tokens := 1.0);
    assert Refilled(b, 0.0) == b && Refilled(b1, 0.0) == b1;
    assert [two, one, one][1..] == [one, one] && [one, one][1..] == [one];
    assert [false, true, true][1..] == [true, true] && [true, true][1..] == [true];
    assert Feasible(b1, [one], [true]);
    assert Feasible(b, [one, one], [true, true]);
  }

  /** With mixed amounts the law fails: taking the first call can cost two later ones. */
  lemma MixedAmountsAreNotOptimal()
    ensures var b := Full(0.0, 2, 0.0);
            var rs := [Request(0.0, 2), Request(0.0, 1), Request(0.0, 1)];
            var choices := [false, true, true];
            Sound(b) && Chronological(b.lastUpdate, rs) && Feasible(b, rs, choices) &&
            Count(choices) == 2 && Count(Answers(b, rs)) == 1
  {
    hide Earned, Refilled, Step, Feasible, Answers;
    var b := Full(0.0, 2, 0.0);
    MixedFeasible(b, Request(0.0, 1), Request(0.0, 2));
    MixedAnswers(b, Request(0.0, 1), Request(0.0, 2));
    assert [false, true, true][1..] == [true, true] && [true, true][1..] == [true];
    assert [true, false, false][1..] == [false, false] && [false, false][1..] == [false];
  }
}
