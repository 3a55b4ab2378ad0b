/**
 For which amounts the token bucket of pkg/server/middleware/ratelimit.go, which admits
 whatever it can afford, admits as many calls as can be admitted at all.
 */
module GreedyAdmission {
  import opened Prelude
  import opened TokenBuckets

  ghost predicate AmountsFrom(rs: seq<Request>, amounts: iset<int>) {
    forall i :: 0 <= i < |rs| ==> rs[i].n in amounts
  }

  /** A rival that starts with the same full bucket, under the same refill and cap, and that
      has admitted more of the first k calls. */
  ghost predicate Beaten(b: Bucket, rs: seq<Request>, choices: seq<bool>, k: nat) {
    Chronological(b.lastUpdate, rs) && |choices| == |rs| && k <= |rs| && Feasible(b, rs, choices) &&
    Count(choices[..k]) > Count(Answers(b, rs)[..k])
  }

  ghost predicate GreedyIsBest(rate: real, capacity: int, amounts: iset<int>) {
    forall now, rs, choices, k :: AmountsFrom(rs, amounts) ==> !Beaten(Full(rate, capacity, now), rs, choices, k)
  }

  /** Among the amounts a bucket of this capacity can ever grant, one at most is positive. */
  ghost predicate OneAmountCounts(capacity: int, amounts: iset<int>) {
    forall a, b :: a in amounts && b in amounts && 1 <= a <= capacity && 1 <= b <= capacity ==> a == b
  }

  function Repeated(at: real, n: int, count: nat): (rs: seq<Request>)
    ensures |rs| == count && forall i :: 0 <= i < count ==> rs[i] == Request(at, n)
  {
    seq(count, i => Request(at, n))
  }

  function Yeses(n: nat): (flags: seq<bool>)
    ensures |flags| == n
  {
    seq(n, i => true)
  }

  lemma {:induction false} CountYeses(n: nat)
    ensures Count(Yeses(n)) == n
    decreases n
  {
    if n > 0 {
      assert Yeses(n)[1..] == Yeses(n - 1);
      CountYeses(n - 1);
    }
  }

  // ------------------------------------------------- the rival's run

  /** `count` calls of a at time 0, and one more at time `later`. */
  function Small(a: int, count: nat, later: real): (rs: seq<Request>)
    ensures |rs| == count + 1
  {
    Repeated(0.0, a, count) + [Request(later, a)]
  }

  lemma RefilledAtOnce(c: Bucket)
    requires c.tokens <= c.capacity as real
    ensures Refilled(c, c.lastUpdate) == c
  {
    NothingEarned(c.rate);
  }

  /** A bucket with room for all but the last, which it can afford by the time it comes. */
  lemma {:induction false} AllSmallFit(c: Bucket, a: int, count: nat, rest: int, later: real)
    requires 1 <= a <= c.capacity && 0 <= rest < a && c.lastUpdate == 0.0
    requires c.tokens == (count * a + rest) as real <= c.capacity as real
    requires Earned(c.rate, later) == (a - rest) as real
    ensures Feasible(c, Small(a, count, later), Yeses(count + 1))
    decreases count
  {
    hide Earned;
    var rs, yes := Small(a, count, later), Yeses(count + 1);
    if count == 0 {
      assert rs == [Request(later, a)] && rs[1..] == [] && yes[1..] == [];
      assert Refilled(c, later).tokens == a as real;
    } else {
      assert rs[0] == Request(0.0, a);
      assert rs[1..] == Small(a, count - 1, later) && yes[1..] == Yeses(count);
      RefilledAtOnce(c);
      assert count * a == (count - 1) * a + a;
      assert 0 <= (count - 1) * a;
      AllSmallFit(Choose(c, rs[0], true), a, count - 1, rest, later);
      FeasibleCons(c, rs, yes);
    }
  }

  // ------------------------------------------------- the bucket's run

  /** When all calls ask for a, what is admitted is a for every yes. */
  lemma {:induction false} AdmittedOfOneSize(c: Bucket, rs: seq<Request>, a: int, s: real, t: real)
    requires forall i :: 0 <= i < |rs| ==> rs[i].n == a && s <= rs[i].at <= t
    ensures Admitted(c, rs, s, t) == (Count(Answers(c, rs)) * a) as real
    decreases |rs|
  {
    hide Step;
    if rs != [] {
      var (next, ok) := Step(c, rs[0]);
      assert forall i :: 0 <= i < |rs[1..]| ==> rs[1..][i] == rs[i + 1];
      AdmittedOfOneSize(next, rs[1..], a, s, t);
      var more := Count(Answers(next, rs[1..]));
      assert Answers(c, rs)[1..] == Answers(next, rs[1..]);
      assert (more + 1) * a == more * a + a;
    }
  }

  lemma FewerThan(x: int, y: int, a: int)
    requires 1 <= a && x * a < y * a
    ensures x < y
  {
    assert (y - x) * a == y * a - x * a;
  }

  lemma SmallIsChronological(a: int, count: nat, later: real)
    requires 0.0 <= later
    ensures Chronological(0.0, Small(a, count, later))
    decreases count
  {
    var rs := Small(a, count, later);
    if count == 0 {
      assert rs == [Request(later, a)] && rs[1..] == [];
    } else {
      assert rs[0] == Request(0.0, a) && rs[1..] == Small(a, count - 1, later);
      SmallIsChronological(a, count - 1, later);
    }
  }

  /** Having taken b first, the bucket has spent more than one a, so of the `count` + 1
      calls that can be paid for it misses one at least. */
  lemma GreedyTakesFewer(full: Bucket, a: int, b: int, count: nat, rest: int, later: real)
    requires 0.0 < full.rate && full == Full(full.rate, full.capacity, 0.0) && 1 <= a < b <= full.capacity
    requires full.capacity == count * a + rest && 0.0 <= later && Earned(full.rate, later) == (a - rest) as real
    ensures Count(Answers(full, [Request(0.0, b)] + Small(a, count, later))) <= count
  {
    hide Earned, Answers, Admitted;
    var big, small := Request(0.0, b), Small(a, count, later);
    var rs := [big] + small;
    SmallIsChronological(a, count, later);
    assert rs[0] == big && rs[1..] == small;
    RefilledAtOnce(full);
    var next := Step(full, big).0;
    assert Step(full, big).1;
    AdmittedIsPaidFor(full, rs, 0.0, later);
    assert Admitted(full, rs, 0.0, later) == b as real + Admitted(next, small, 0.0, later) by {
      AdmittedCons(full, rs, 0.0, later);
    }
    AdmittedOfOneSize(next, small, a, 0.0, later);
    var n := Count(Answers(next, small));
    assert b + n * a <= count * a + a;
    FewerThan(n, count, a);
    AnswersCons(full, big, small);
    assert ([true] + Answers(next, small))[1..] == Answers(next, small);
  }

  lemma AdmittedCons(b: Bucket, rs: seq<Request>, s: real, t: real)
    requires rs != []
    ensures Admitted(b, rs, s, t) ==
            (if Step(b, rs[0]).1 && s <= rs[0].at <= t then rs[0].n as real else 0.0)
            + Admitted(Step(b, rs[0]).0, rs[1..], s, t)
  {
  }

  // ------------------------------------------------- exactly when

  /** With two amounts that count, the bucket takes the larger first and is overtaken by the
      rival that leaves it for the smaller ones. */
  lemma TwoAmountsBeat(rate: real, capacity: int, a: int, b: int)
    returns (rs: seq<Request>, choices: seq<bool>)
    requires 0.0 < rate && 1 <= a < b <= capacity
    ensures Beaten(Full(rate, capacity, 0.0), rs, choices, |rs|)
    ensures forall i :: 0 <= i < |rs| ==> rs[i].n == a || rs[i].n == b
  {
    hide Answers, Feasible;
    var full, count, rest := Full(rate, capacity, 0.0), capacity / a, capacity % a;
    var later := (a - rest) as real / rate;
    assert Earned(rate, later) == (a - rest) as real;
    LaterIsLater(a - rest, rate);
    assert 0 <= count && count * a + rest == capacity;
    rs := [Request(0.0, b)] + Small(a, count, later);
    choices := [false] + Yeses(count + 1);
    GreedyTakesFewer(full, a, b, count, rest, later);
    SmallIsChronological(a, count, later);
    assert rs[1..] == Small(a, count, later) && choices[1..] == Yeses(count + 1);
    RefilledAtOnce(full);
    AllSmallFit(full, a, count, rest, later);
    FeasibleCons(full, rs, choices);
    CountYeses(count + 1);
    assert choices[..|rs|] == choices && Answers(full, rs)[..|rs|] == Answers(full, rs);
  }

  lemma LaterIsLater(x: int, rate: real)
    requires 0.0 < rate && 0 < x
    ensures 0.0 <= x as real / rate
  {
  }

  /** From a full bucket that refills, over all runs with amounts from a given set: no policy
      admits more calls, in any prefix, if and only if one positive amount at most counts. */
  lemma GreedyIsBestIff(rate: real, capacity: int, amounts: iset<int>)
    requires 0.0 < rate && 0 <= capacity
    ensures GreedyIsBest(rate, capacity, amounts) <==> OneAmountCounts(capacity, amounts)
  {
    if OneAmountCounts(capacity, amounts) {
      var w := if exists a :: a in amounts && 1 <= a <= capacity
        then var a :| a in amounts && 1 <= a <= capacity; a else 1;
      forall now, rs, choices, k | AmountsFrom(rs, amounts)
        ensures !Beaten(Full(rate, capacity, now), rs, choices, k)
      {
        var b := Full(rate, capacity, now);
        assert OneSize(rs, w, capacity);
        if Beaten(b, rs, choices, k) { GreedyIsOptimal(b, rs, w, choices, k); }
      }
    } else {
      var a, b :| a in amounts && b in amounts && 1 <= a <= capacity && 1 <= b <= capacity && a < b;
      var rs, choices := TwoAmountsBeat(rate, capacity, a, b);
      assert AmountsFrom(rs, amounts);
    }
  }
}
