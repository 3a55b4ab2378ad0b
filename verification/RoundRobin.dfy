/**
 The round-robin balancer of pkg/discovery/discovery.go.  Its index is a uint32 that wraps
 around; the instance picked is the index modulo the number of instances.
 */
module RoundRobin {
  import opened Prelude

  const WRAP := 0x1_0000_0000

  datatype Selected<T> = Nothing | Picked(service: T) | DivisionByZero

  function Next(index: nat): nat {
    (index + 1) % WRAP
  }

  class RoundRobinBalancer {
    var index: nat

    ghost predicate Valid()
      reads this
    {
      index < WRAP
    }

    constructor ()
      ensures Valid() && index == 0
    {
      index := 0;
    }

    /** The length is truncated to 32 bits as well. */
    method Select<T>(services: seq<T>) returns (r: Selected<T>)
      requires Valid()
      modifies this
      ensures Valid() && index == if |services| == 0 then old(index) else Next(old(index))
      ensures r == if |services| == 0 then Nothing
                   else if |services| % WRAP == 0 then DivisionByZero
                   else Picked(services[old(index) % (|services| % WRAP)])
    {
      if |services| == 0 {
        return Nothing;
      }
      var idx := index;
      index := (index + 1) % WRAP;
      if |services| % WRAP == 0 {
        return DivisionByZero;
      }
      var at := idx % (|services| % WRAP);
      return Picked(services[at]);
    }
  }

  /** How often instance i of m is picked in k calls in a row. */
  function Picks(index: nat, k: nat, m: nat, i: nat): nat
    requires m > 0
    decreases k
  {
    if k == 0 then 0 else (if index % m == i then 1 else 0) + Picks(Next(index), k - 1, m, i)
  }

  /** How many of the numbers below n leave the remainder i. */
  function Below(n: nat, m: nat, i: nat): nat
    requires i < m
  {
    (n + m - 1 - i) / m
  }

  lemma BelowStep(n: nat, m: nat, i: nat)
    requires i < m
    ensures Below(n + 1, m, i) == Below(n, m, i) + if n % m == i then 1 else 0
  {
    var q, r := n / m, n % m;
    assert n == q * m + r;
    if r < i {
      DivModUnique(n + m - 1 - i, m, q, r + m - 1 - i);
      DivModUnique(n + m - i, m, q, r + m - i);
    } else if r == i {
      DivModUnique(n + m - 1 - i, m, q, m - 1);
      assert n + m - i == (q + 1) * m + 0;
      DivModUnique(n + m - i, m, q + 1, 0);
    } else {
      assert n + m - 1 - i == (q + 1) * m + (r - 1 - i);
      DivModUnique(n + m - 1 - i, m, q + 1, r - 1 - i);
      assert n + m - i == (q + 1) * m + (r - i);
      DivModUnique(n + m - i, m, q + 1, r - i);
    }
  }

  lemma NextWithoutWrap(index: nat)
    requires index < WRAP
    ensures Next(index) == if index + 1 == WRAP then 0 else index + 1
  {
  }

  /** Without a wrap the picks are counted by the two ends of the stretch. */
  lemma {:induction false} PicksWithoutWrap(index: nat, k: nat, m: nat, i: nat)
    requires i < m && index + k <= WRAP
    ensures Picks(index, k, m, i) == Below(index + k, m, i) - Below(index, m, i)
    decreases k
  {
    hide Below;
    if k > 0 {
      BelowStep(index, m, i);
      if k > 1 {
        NextWithoutWrap(index);
        PicksWithoutWrap(index + 1, k - 1, m, i);
      }
    }
  }

  lemma DivGap(x: nat, k: nat, m: nat)
    requires m > 0
    ensures k / m <= (x + k) / m - x / m <= k / m + 1
  {
    var a, b := x / m, k / m;
    var r := x % m + k % m;
    assert x == a * m + x % m && k == b * m + k % m;
    assert x + k == (a + b) * m + r;
    if r < m {
      DivModUnique(x + k, m, a + b, r);
    } else {
      assert x + k == (a + b + 1) * m + (r - m);
      DivModUnique(x + k, m, a + b + 1, r - m);
    }
  }

  /** Between two ends every instance gets its share, or one more. */
  lemma FairBetween(a: nat, k: nat, m: nat, i: nat, j: nat)
    requires i < m && j < m
    ensures (Below(a + k, m, i) - Below(a, m, i)) - (Below(a + k, m, j) - Below(a, m, j)) <= 1
  {
    hide Below;
    Share(a, k, m, i);
    Share(a, k, m, j);
  }

  lemma Share(a: nat, k: nat, m: nat, i: nat)
    requires i < m
    ensures k / m <= Below(a + k, m, i) - Below(a, m, i) <= k / m + 1
  {
    DivGap(a + m - 1 - i, k, m);
    assert a + k + m - 1 - i == a + m - 1 - i + k;
  }

  /** The stretches between wraps that k calls touch. */
  function Stretches(index: nat, k: nat): nat
    requires index < WRAP
    decreases k
  {
    if index + k <= WRAP then 1 else 1 + Stretches(0, k - (WRAP - index))
  }

  lemma {:induction false} PicksSplit(index: nat, s: nat, k: nat, m: nat, i: nat)
    requires m > 0 && index + s == WRAP && s > 0
    ensures Picks(index, s + k, m, i) == Picks(index, s, m, i) + Picks(0, k, m, i)
    decreases s
  {
    if s == 1 {
      assert Next(index) == 0;
    } else {
      assert Next(index) == index + 1;
      PicksSplit(index + 1, s - 1, k, m, i);
    }
  }

  /** The picks of two instances differ by at most one for every stretch: by at most 1 while
      the index does not wrap, and by at most 2 across one wrap. */
  lemma {:induction false} FairPerStretch(index: nat, k: nat, m: nat, i: nat, j: nat)
    requires i < m && j < m && index < WRAP
    ensures Picks(index, k, m, i) - Picks(index, k, m, j) <= Stretches(index, k)
    decreases k
  {
    hide Below, Picks;
    if index + k <= WRAP {
      PicksWithoutWrap(index, k, m, i);
      PicksWithoutWrap(index, k, m, j);
      FairBetween(index, k, m, i, j);
    } else {
      var s := WRAP - index;
      PicksSplit(index, s, k - s, m, i);
      PicksSplit(index, s, k - s, m, j);
      PicksWithoutWrap(index, s, m, i);
      PicksWithoutWrap(index, s, m, j);
      FairBetween(index, s, m, i, j);
      FairPerStretch(0, k - s, m, i, j);
    }
  }

  // ------------------------------------------------- when wrapping does not matter

  lemma {:induction false} PicksWhenWrapDivides(index: nat, n: nat, k: nat, m: nat, i: nat)
    requires i < m && WRAP % m == 0 && index < WRAP && index % m == n % m
    ensures Picks(index, k, m, i) == Below(n + k, m, i) - Below(n, m, i)
    decreases k
  {
    hide Below;
    if k > 0 {
      BelowStep(n, m, i);
      SuccMod(index, n, m);
      NextWithoutWrap(index);
      hide Next;
      PicksWhenWrapDivides(Next(index), n + 1, k - 1, m, i);
    }
  }

  lemma SuccMod(a: nat, b: nat, m: nat)
    requires m > 0 && a % m == b % m
    ensures (a + 1) % m == (b + 1) % m
  {
    var r := a % m;
    assert a == a / m * m + r && b == b / m * m + r;
    if r + 1 < m {
      DivModUnique(a + 1, m, a / m, r + 1);
      DivModUnique(b + 1, m, b / m, r + 1);
    } else {
      assert a + 1 == (a / m + 1) * m + 0 && b + 1 == (b / m + 1) * m + 0;
      DivModUnique(a + 1, m, a / m + 1, 0);
      DivModUnique(b + 1, m, b / m + 1, 0);
    }
  }

  ghost predicate AlwaysFair(m: nat)
    requires m > 0
  {
    forall index: nat, k: nat, i: nat, j: nat :: index < WRAP && i < m && j < m ==>
      Picks(index, k, m, i) - Picks(index, k, m, j) <= 1
  }

  /** No two instances ever differ by more than one, wraps included, if and only if the
      number of instances divides 2^32. */
  lemma FairIffDivides(m: nat)
    requires 0 < m < WRAP
    ensures AlwaysFair(m) <==> WRAP % m == 0
  {
    if WRAP % m == 0 {
      forall index: nat, k: nat, i: nat, j: nat | index < WRAP && i < m && j < m
        ensures Picks(index, k, m, i) - Picks(index, k, m, j) <= 1
      {
        PicksWhenWrapDivides(index, index, k, m, i);
        PicksWhenWrapDivides(index, index, k, m, j);
        FairBetween(index, k, m, i, j);
      }
    } else {
      UnfairAcrossTheWrap(m);
    }
  }

  /** The last r calls before the wrap and the first r after it pick the same r instances. */
  lemma UnfairAcrossTheWrap(m: nat)
    requires 0 < m < WRAP && WRAP % m != 0
    ensures var r := WRAP % m;
            Picks(WRAP - r, 2 * r, m, 0) == 2 && Picks(WRAP - r, 2 * r, m, m - 1) == 0
  {
    hide Below, Picks;
    var q, r := WRAP / m, WRAP % m;
    assert WRAP == q * m + r;
    PicksSplit(WRAP - r, r, r, m, 0);
    PicksSplit(WRAP - r, r, r, m, m - 1);
    PicksWithoutWrap(WRAP - r, r, m, 0);
    PicksWithoutWrap(WRAP - r, r, m, m - 1);
    PicksWithoutWrap(0, r, m, 0);
    PicksWithoutWrap(0, r, m, m - 1);
    BelowNearMultiple(m, q, r);
    BelowNearMultiple(m, 0, r);
  }

  /** Past a multiple of m, instance 0 is picked at once and instance m - 1 not yet. */
  lemma BelowNearMultiple(m: nat, q: nat, r: nat)
    requires 0 < r < m
    ensures 0 <= q * m
    ensures Below(q * m + r, m, 0) == q + 1 && Below(q * m, m, 0) == q
    ensures Below(q * m + r, m, m - 1) == q && Below(q * m, m, m - 1) == q
  {
    NextMultiple(q, m);
    DivModUnique(q * m + r + m - 1, m, q + 1, r - 1);
    DivModUnique(q * m + m - 1, m, q, m - 1);
    DivModUnique(q * m + r, m, q, r);
    DivModUnique(q * m, m, q, 0);
  }

  lemma NextMultiple(q: nat, m: nat)
    ensures (q + 1) * m == q * m + m && 0 <= q * m
  {
  }
}
