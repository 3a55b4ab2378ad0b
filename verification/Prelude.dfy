/** Shared vocabulary: optional values, flagged lists, and small laws of products and quotients. */
module Prelude {

  datatype Option<+T> = None | Some(value: T)

  function Count(flags: seq<bool>): nat {
    if flags == [] then 0 else (if flags[0] then 1 else 0) + Count(flags[1..])
  }

  /** The elements of `xs` whose flag is set, in order. */
  function Sub<T>(xs: seq<T>, keep: seq<bool>): (r: seq<T>)
    requires |xs| == |keep|
  {
    if xs == [] then [] else (if keep[0] then [xs[0]] else []) + Sub(xs[1..], keep[1..])
  }

  lemma SubCons<T>(x: T, xs: seq<T>, k: bool, keep: seq<bool>)
    requires |xs| == |keep|
    ensures Sub([x] + xs, [k] + keep) == if k then [x] + Sub(xs, keep) else Sub(xs, keep)
  {
    assert ([x] + xs)[1..] == xs && ([k] + keep)[1..] == keep;
  }

  lemma DivModUnique(x: int, m: int, q: int, r: int)
    requires x == q * m + r && 0 <= r < m
    ensures x / m == q && x % m == r
  {
    var d := x / m - q;
    assert x == x / m * m + x % m;
    assert d * m == r - x % m;
    MultipleIsFar(d, m);
  }

  lemma MultipleIsFar(d: int, m: int)
    requires m > 0
    ensures (d >= 1 ==> d * m >= m) && (d <= -1 ==> d * m <= -m)
  {
  }

  lemma OneMoreTimes(n: nat, x: int)
    ensures (n + 1) * x == n * x + x
  {
  }

  lemma TimesMonotone(n: nat, x: int, y: int)
    ensures x <= y ==> n * x <= n * y
  {
  }
}
