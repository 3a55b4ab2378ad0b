/**
 The token bucket of pkg/server/middleware/ratelimit.go at rate 0, as a budget that is spent
 once: for which amounts admitting whatever is affordable still admits the most calls.
 */
module NoRefill {
  import opened Prelude
  import opened TokenBuckets
  import opened GreedyAdmission

  // ------------------------------------------------- spending a budget

  function Sum(xs: seq<int>): int {
    if xs == [] then 0 else xs[0] + Sum(xs[1..])
  }

  /** What is taken when all that is affordable is. */
  function Taken(left: int, xs: seq<int>): (flags: seq<bool>)
    ensures |flags| == |xs|
    decreases |xs|
  {
    if xs == [] then [] else [xs[0] <= left] + Taken(if xs[0] <= left then left - xs[0] else left, xs[1..])
  }

  ghost predicate Fits(left: int, xs: seq<int>, choices: seq<bool>)
    requires |xs| == |choices|
    decreases |xs|
  {
    xs != [] ==> (choices[0] ==> xs[0] <= left) &&
                 Fits(if choices[0] then left - xs[0] else left, xs[1..], choices[1..])
  }

  function Amounts(rs: seq<Request>): (xs: seq<int>)
    ensures |xs| == |rs| && forall i :: 0 <= i < |rs| ==> xs[i] == rs[i].n
  {
    seq(|rs|, i requires 0 <= i < |rs| => rs[i].n)
  }

  lemma AmountsTail(rs: seq<Request>)
    requires rs != []
    ensures Amounts(rs) == [rs[0].n] + Amounts(rs[1..]) && Amounts(rs)[1..] == Amounts(rs[1..])
  {
  }

  /** A bucket that does not refill. */
  ghost predicate Holds(b: Bucket, left: int) {
    b.rate == 0.0 && b.tokens == left as real && 0 <= left <= b.capacity
  }

  lemma NothingComesIn(b: Bucket, left: int, r: Request)
    requires Holds(b, left) && 0 <= r.n
    ensures Refilled(b, r.at).tokens == left as real
    ensures Step(b, r).1 == (r.n <= left)
    ensures Holds(Step(b, r).0, if r.n <= left then left - r.n else left)
    ensures r.n <= left ==> Holds(Choose(b, r, true), left - r.n)
    ensures Holds(Choose(b, r, false), left)
  {
    assert Earned(0.0, r.at - b.lastUpdate) == 0.0;
    hide Earned;
  }

  lemma {:induction false} AnswersAreTaken(b: Bucket, left: int, rs: seq<Request>)
    requires Holds(b, left) && forall i :: 0 <= i < |rs| ==> 0 <= rs[i].n
    ensures Answers(b, rs) == Taken(left, Amounts(rs))
    decreases |rs|
  {
    if rs != [] {
      NothingComesIn(b, left, rs[0]);
      hide Step, Holds;
      assert forall i :: 0 <= i < |rs[1..]| ==> rs[1..][i] == rs[i + 1];
      AnswersAreTaken(Step(b, rs[0]).0, if rs[0].n <= left then left - rs[0].n else left, rs[1..]);
      AmountsTail(rs);
    }
  }

  lemma {:induction false} FeasibleIsFits(b: Bucket, left: int, rs: seq<Request>, choices: seq<bool>)
    requires Holds(b, left) && |rs| == |choices| && forall i :: 0 <= i < |rs| ==> 0 <= rs[i].n
    ensures Feasible(b, rs, choices) <==> Fits(left, Amounts(rs), choices)
    decreases |rs|
  {
    if rs != [] {
      NothingComesIn(b, left, rs[0]);
      FeasibleCons(b, rs, choices);
      AmountsTail(rs);
      assert forall i :: 0 <= i < |rs[1..]| ==> rs[1..][i] == rs[i + 1];
      hide Step, Holds, Choose, Feasible, Refilled;
      if choices[0] ==> rs[0].n <= left {
        FeasibleIsFits(Choose(b, rs[0], choices[0]), if choices[0] then left - rs[0].n else left, rs[1..], choices[1..]);
      }
    }
  }

  // ------------------------------------------------- the packings

  ghost predicate From(xs: seq<int>, amounts: iset<int>) {
    forall x :: x in xs ==> x in amounts
  }

  /** What both take, what only the bucket takes, and what only the rival takes: both pack into
      the capacity, the rival's is more, and next to the bucket's packing there is no room for
      any of it. */
  ghost predicate Overtaken(capacity: int, amounts: iset<int>, both: seq<int>, own: seq<int>, rivals: seq<int>) {
    From(both, amounts) && From(own, amounts) && From(rivals, amounts) &&
    |rivals| > |own| && Sum(both) + Sum(own) <= capacity && Sum(both) + Sum(rivals) <= capacity &&
    forall x :: x in rivals ==> x > capacity - Sum(both) - Sum(own)
  }

  lemma {:induction false} Packings(left: int, other: int, xs: seq<int>, choices: seq<bool>)
    returns (both: seq<int>, own: seq<int>, rivals: seq<int>)
    requires |xs| == |choices| && Fits(other, xs, choices) && 0 <= left && 0 <= other
    requires forall x :: x in xs ==> 0 <= x
    ensures |both| + |own| == Count(Taken(left, xs)) && |both| + |rivals| == Count(choices)
    ensures Sum(both) + Sum(own) <= left && Sum(both) + Sum(rivals) <= other
    ensures forall x :: x in rivals ==> x > left - Sum(both) - Sum(own)
    ensures forall x :: x in both || x in own || x in rivals ==> x in xs
    ensures 0 <= Sum(both) + Sum(own)
    decreases |xs|
  {
    both, own, rivals := [], [], [];
    if xs != [] {
      var x, mine, theirs := xs[0], xs[0] <= left, choices[0];
      assert x in xs && forall y :: y in xs[1..] ==> y in xs;
      both, own, rivals := Packings(if mine then left - x else left, if theirs then other - x else other,
                                    xs[1..], choices[1..]);
      var b0, o0, r0 := both, own, rivals;
      if mine && theirs { both := [x] + b0; assert both[1..] == b0; }
      else if mine { own := [x] + o0; assert own[1..] == o0; }
      else if theirs { rivals := [x] + r0; assert rivals[1..] == r0; }
    }
  }

  lemma {:induction false} TakenPrefix(left: int, xs: seq<int>, k: nat)
    requires k <= |xs|
    ensures Taken(left, xs)[..k] == Taken(left, xs[..k])
    decreases k
  {
    if k > 0 {
      TakenPrefix(if xs[0] <= left then left - xs[0] else left, xs[1..], k - 1);
      assert xs[..k][1..] == xs[1..][..k - 1];
    }
  }

  lemma {:induction false} FitsPrefix(left: int, xs: seq<int>, choices: seq<bool>, k: nat)
    requires |xs| == |choices| && Fits(left, xs, choices) && k <= |xs|
    ensures Fits(left, xs[..k], choices[..k])
    decreases k
  {
    if k > 0 {
      FitsPrefix(if choices[0] then left - xs[0] else left, xs[1..], choices[1..], k - 1);
      assert xs[..k][1..] == xs[1..][..k - 1] && choices[..k][1..] == choices[1..][..k - 1];
    }
  }

  lemma BeatenMeansOvertaken(capacity: int, amounts: iset<int>, now: real, rs: seq<Request>, choices: seq<bool>, k: nat)
    returns (both: seq<int>, own: seq<int>, rivals: seq<int>)
    requires 0 <= capacity && AmountsFrom(rs, amounts) && forall x :: x in amounts ==> 0 <= x
    requires Beaten(Full(0.0, capacity, now), rs, choices, k)
    ensures Overtaken(capacity, amounts, both, own, rivals)
  {
    var b, xs := Full(0.0, capacity, now), Amounts(rs);
    AnswersAreTaken(b, capacity, rs);
    FeasibleIsFits(b, capacity, rs, choices);
    TakenPrefix(capacity, xs, k);
    FitsPrefix(capacity, xs, choices, k);
    assert forall i :: 0 <= i < |xs| ==> xs[i] in amounts;
    both, own, rivals := Packings(capacity, capacity, xs[..k], choices[..k]);
  }

  // ------------------------------------------------- and back

  function Calls(xs: seq<int>): (rs: seq<Request>)
    ensures |rs| == |xs| && forall i :: 0 <= i < |rs| ==> rs[i] == Request(0.0, xs[i])
  {
    seq(|xs|, i requires 0 <= i < |xs| => Request(0.0, xs[i]))
  }

  lemma {:induction false} CallsInOrder(rs: seq<Request>)
    requires forall i :: 0 <= i < |rs| ==> rs[i].at == 0.0
    ensures Chronological(0.0, rs)
    decreases |rs|
  {
    if rs != [] {
      assert forall i :: 0 <= i < |rs[1..]| ==> rs[1..][i] == rs[i + 1];
      CallsInOrder(rs[1..]);
    }
  }

  function Flags(n: nat, flag: bool): (flags: seq<bool>)
    ensures |flags| == n
  {
    seq(n, i => flag)
  }

  lemma {:induction false} AllTaken(left: int, xs: seq<int>, rest: seq<int>)
    requires Sum(xs) <= left && forall x :: x in xs ==> 0 <= x
    ensures Count(Taken(left, xs + rest)) == |xs| + Count(Taken(left - Sum(xs), rest))
    decreases |xs|
  {
    if xs == [] {
      assert xs + rest == rest;
    } else {
      assert xs[0] in xs && forall x :: x in xs[1..] ==> x in xs;
      assert (xs + rest)[1..] == xs[1..] + rest;
      SumNonNegative(xs[1..]);
      AllTaken(left - xs[0], xs[1..], rest);
      assert Taken(left, xs + rest)[1..] == Taken(left - xs[0], xs[1..] + rest);
    }
  }

  lemma {:induction false} NoneTaken(left: int, xs: seq<int>)
    requires forall x :: x in xs ==> x > left
    ensures Count(Taken(left, xs)) == 0
    decreases |xs|
  {
    if xs != [] {
      assert xs[0] in xs && forall x :: x in xs[1..] ==> x in xs;
      NoneTaken(left, xs[1..]);
      assert Taken(left, xs)[1..] == Taken(left, xs[1..]);
    }
  }

  lemma {:induction false} SumNonNegative(xs: seq<int>)
    requires forall x :: x in xs ==> 0 <= x
    ensures 0 <= Sum(xs)
    decreases |xs|
  {
    if xs != [] {
      assert xs[0] in xs && forall x :: x in xs[1..] ==> x in xs;
      SumNonNegative(xs[1..]);
    }
  }

  lemma {:induction false} FlagsFit(left: int, xs: seq<int>, flag: bool, rest: seq<int>, choices: seq<bool>)
    requires |rest| == |choices| && forall x :: x in xs ==> 0 <= x
    requires flag ==> Sum(xs) <= left
    requires Fits(if flag then left - Sum(xs) else left, rest, choices)
    ensures Fits(left, xs + rest, Flags(|xs|, flag) + choices)
    ensures Count(Flags(|xs|, flag) + choices) == (if flag then |xs| else 0) + Count(choices)
    decreases |xs|
  {
    var flags := Flags(|xs|, flag) + choices;
    if xs == [] {
      assert xs + rest == rest && flags == choices;
    } else {
      assert xs[0] in xs && forall x :: x in xs[1..] ==> x in xs;
      assert (xs + rest)[1..] == xs[1..] + rest && flags[1..] == Flags(|xs[1..]|, flag) + choices;
      SumNonNegative(xs[1..]);
      FlagsFit(if flag then left - xs[0] else left, xs[1..], flag, rest, choices);
    }
  }

  /** The bucket takes what it is offered first and is left with no room for the rest. */
  lemma OvertakenIsBeaten(capacity: int, amounts: iset<int>, both: seq<int>, own: seq<int>, rivals: seq<int>)
    returns (rs: seq<Request>, choices: seq<bool>)
    requires 0 <= capacity && Overtaken(capacity, amounts, both, own, rivals) && forall x :: x in amounts ==> 0 <= x
    ensures AmountsFrom(rs, amounts) && Beaten(Full(0.0, capacity, 0.0), rs, choices, |rs|)
  {
    hide Feasible, Answers, Taken, Fits, Sum, Count;
    var left := capacity - Sum(both) - Sum(own);
    var none: seq<int>, no: seq<bool> := [], [];
    var xs := both + (own + (rivals + none));
    rs := Calls(xs);
    assert Amounts(rs) == xs;
    choices := Flags(|both|, true) + (Flags(|own|, false) + (Flags(|rivals|, true) + no));
    SumNonNegative(own);
    AllTaken(capacity, both, own + (rivals + none));
    AllTaken(capacity - Sum(both), own, rivals + none);
    NoneTaken(left, rivals + none) by { assert rivals + none == rivals; }
    assert Fits(capacity - Sum(both) - Sum(rivals), none, no) by { NothingFits(capacity - Sum(both) - Sum(rivals)); }
    FlagsFit(capacity - Sum(both), rivals, true, none, no);
    FlagsFit(capacity - Sum(both), own, false, rivals + none, Flags(|rivals|, true) + no);
    FlagsFit(capacity, both, true, own + (rivals + none), Flags(|own|, false) + (Flags(|rivals|, true) + no));
    NothingFits(0);
    var b := Full(0.0, capacity, 0.0);
    assert forall i :: 0 <= i < |xs| ==> xs[i] in amounts;
    AnswersAreTaken(b, capacity, rs);
    FeasibleIsFits(b, capacity, rs, choices);
    CallsInOrder(rs);
    assert choices[..|rs|] == choices && Answers(b, rs)[..|rs|] == Answers(b, rs);
  }

  lemma NothingFits(left: int)
    ensures Fits(left, [], []) && Count([]) == 0
  {
  }

  // ------------------------------------------------- exactly when

  /** From a full bucket that never refills, over all runs with amounts from a given set: no
      policy admits more calls, in any prefix, if and only if no two packings of the capacity
      are such that the smaller leaves no room for any of what only the larger has. */
  lemma GreedyIsBestWithoutRefillIff(capacity: int, amounts: iset<int>)
    requires 0 <= capacity && forall x :: x in amounts ==> 0 <= x
    ensures GreedyIsBest(0.0, capacity, amounts)
            <==> !exists both, own, rivals :: Overtaken(capacity, amounts, both, own, rivals)
  {
    if both, own, rivals :| Overtaken(capacity, amounts, both, own, rivals) {
      var rs, choices := OvertakenIsBeaten(capacity, amounts, both, own, rivals);
    } else {
      forall now, rs, choices, k | AmountsFrom(rs, amounts)
        ensures !Beaten(Full(0.0, capacity, now), rs, choices, k)
      {
        if Beaten(Full(0.0, capacity, now), rs, choices, k) {
          var both, own, rivals := BeatenMeansOvertaken(capacity, amounts, now, rs, choices, k);
        }
      }
    }
  }

  // ------------------------------------------------- two amounts

  /** Taking b as often as j times first leaves room for fewer calls of a. */
  predicate TakesFewer(capacity: int, a: int, b: int, j: int)
    requires 1 <= a
  {
    1 <= j && j * b <= capacity && j + (capacity - j * b) / a < capacity / a
  }

  function Copies(x: int, n: nat): (xs: seq<int>)
    ensures |xs| == n && forall i :: 0 <= i < n ==> xs[i] == x
  {
    seq(n, i => x)
  }

  lemma {:induction false} SumCopies(x: int, n: nat)
    ensures Sum(Copies(x, n)) == n * x
    decreases n
  {
    if n > 0 {
      assert Copies(x, n)[1..] == Copies(x, n - 1);
      SumCopies(x, n - 1);
      assert n * x == (n - 1) * x + x;
    }
  }

  lemma {:induction false} SumAppend(xs: seq<int>, ys: seq<int>)
    ensures Sum(xs + ys) == Sum(xs) + Sum(ys)
    decreases |xs|
  {
    if xs == [] {
      assert xs + ys == ys;
    } else {
      assert (xs + ys)[1..] == xs[1..] + ys;
      SumAppend(xs[1..], ys);
    }
  }

  lemma {:induction false} SumOfTwo(xs: seq<int>, a: int, b: int) returns (n: nat, m: nat)
    requires forall x :: x in xs ==> x == a || x == b
    ensures Sum(xs) == n * a + m * b && |xs| == n + m
    decreases |xs|
  {
    n, m := 0, 0;
    if xs != [] {
      assert xs[0] in xs && forall x :: x in xs[1..] ==> x in xs;
      n, m := SumOfTwo(xs[1..], a, b);
      if xs[0] == a {
        assert (n + 1) * a == n * a + a;
        n := n + 1;
      } else {
        assert (m + 1) * b == m * b + b;
        m := m + 1;
      }
    }
  }

  lemma {:induction false} SumBetween(xs: seq<int>, lo: int, hi: int)
    requires forall x :: x in xs ==> lo <= x <= hi
    ensures |xs| * lo <= Sum(xs) <= |xs| * hi
    decreases |xs|
  {
    if xs != [] {
      assert xs[0] in xs && forall x :: x in xs[1..] ==> x in xs;
      SumBetween(xs[1..], lo, hi);
      var n := |xs[1..]|;
      OneMoreTimes(n, lo);
      OneMoreTimes(n, hi);
      assert |xs| == n + 1;
    }
  }

  lemma QuotientIs(x: int, a: int, q: int)
    requires 1 <= a && q * a <= x < q * a + a
    ensures x / a == q
  {
    DivModUnique(x, a, q, x - q * a);
  }

  lemma QuotientAtLeast(x: int, a: int, q: int)
    requires 1 <= a && q * a <= x
    ensures q <= x / a
  {
    var d := x / a - q;
    assert x == (x / a) * a + x % a;
    assert d * a == (x / a) * a - q * a;
    MultipleIsFar(d, a);
  }

  /** The rival gets ahead by taking an a that the bucket has no room for. */
  lemma RivalTakesSmall(capacity: int, a: int, b: int, both: seq<int>, own: seq<int>, rivals: seq<int>)
    requires 1 <= a < b && Overtaken(capacity, iset{a, b}, both, own, rivals)
    ensures a in rivals
  {
    if a !in rivals {
      assert rivals[0] in rivals && rivals[0] == b;
      SumBetween(rivals, b, b);
      SumBetween(own, a, b);
      assert |rivals| * b == (|rivals| - 1) * b + b;
      TimesMonotone(b, |own|, |rivals| - 1);
      assert false;
    }
  }

  lemma OvertakenTakesFewer(capacity: int, a: int, b: int, both: seq<int>, own: seq<int>, rivals: seq<int>)
    returns (j: int)
    requires 1 <= a < b && Overtaken(capacity, iset{a, b}, both, own, rivals)
    ensures TakesFewer(capacity, a, b, j)
  {
    RivalTakesSmall(capacity, a, b, both, own, rivals);
    var n: int, m: int := SumOfTwo(both + own, a, b);
    j := m;
    SumAppend(both, own);
    QuotientIs(capacity - j * b, a, n);
    SumAppend(both, rivals);
    SumBetween(both + rivals, a, b);
    QuotientAtLeast(capacity, a, |both| + |rivals|);
  }

  lemma TakesFewerOvertaken(capacity: int, a: int, b: int, j: int)
    requires 1 <= a < b <= capacity && TakesFewer(capacity, a, b, j)
    ensures exists both, own, rivals :: Overtaken(capacity, iset{a, b}, both, own, rivals)
  {
    var k, q := (capacity - j * b) / a, capacity / a;
    QuotientParts(capacity - j * b, a);
    QuotientParts(capacity, a);
    var own, rivals := Copies(b, j) + Copies(a, k), Copies(a, q);
    var both: seq<int> := [];
    SumAppend(Copies(b, j), Copies(a, k));
    SumCopies(b, j);
    SumCopies(a, k);
    SumCopies(a, q);
    hide TakesFewer, Sum;
    assert Sum(both) == 0 by { NothingSums(); }
    assert forall x :: x in own ==> x == a || x == b;
    assert forall x :: x in rivals ==> x == a;
    assert |own| == j + k && |rivals| == q;
    assert Overtaken(capacity, iset{a, b}, both, own, rivals);
  }

  lemma NothingSums()
    ensures Sum([]) == 0
  {
  }

  lemma QuotientParts(x: int, a: int)
    requires 0 <= x && 1 <= a
    ensures 0 <= x / a && (x / a) * a <= x < (x / a) * a + a
  {
    assert x == (x / a) * a + x % a;
  }

  /** With two amounts: if and only if there is no number of times the larger one can be taken
      first so that with what then fits of the smaller the bucket has taken fewer than fit of
      the smaller alone. */
  lemma TwoAmountsWithoutRefillIff(capacity: int, a: int, b: int)
    requires 1 <= a < b <= capacity
    ensures GreedyIsBest(0.0, capacity, iset{a, b}) <==> !exists j :: TakesFewer(capacity, a, b, j)
  {
    hide TakesFewer, Overtaken, GreedyIsBest;
    GreedyIsBestWithoutRefillIff(capacity, iset{a, b});
    if both, own, rivals :| Overtaken(capacity, iset{a, b}, both, own, rivals) {
      var j := OvertakenTakesFewer(capacity, a, b, both, own, rivals);
    } else if j :| TakesFewer(capacity, a, b, j) {
      TakesFewerOvertaken(capacity, a, b, j);
    }
  }
}
