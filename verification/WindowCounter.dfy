/**
 The per-key window counters: SlidingWindowLimiter of pkg/server/middleware/ratelimit.go
 and WindowSampler of pkg/log/sampler.go.  One specification covers both; they differ in
 whether the instant at which a window's length has passed still belongs to it.
 */
module WindowCounters {
  import opened Prelude

  datatype Window = Window(count: int, start: real)

  /** strict: the window still holds at start + len (WindowSampler); otherwise it has
      ended by then (SlidingWindowLimiter). */
  datatype Settings = Settings(limit: int, len: real, strict: bool)

  datatype Hit = Hit(at: real, n: int)

  predicate Over(c: Settings, w: Window, now: real) {
    if c.strict then now > w.start + c.len else now - w.start >= c.len
  }

  function Step(c: Settings, w: Option<Window>, h: Hit): (Window, bool) {
    if w.None? || Over(c, w.value, h.at) then (Window(h.n, h.at), h.n <= c.limit)
    else if w.value.count + h.n <= c.limit then (w.value.(count := w.value.count + h.n), true)
    else (w.value, false)
  }

  type Windows = map<string, Window>

  function Lookup(ws: Windows, key: string): Option<Window> {
    if key in ws then Some(ws[key]) else None
  }

  function KeyStep(c: Settings, ws: Windows, key: string, h: Hit): (Windows, bool) {
    var (w, ok) := Step(c, Lookup(ws, key), h);
    (ws[key := w], ok)
  }

  /** The limiter's sweep waits for two window lengths, the sampler's for one. */
  predicate Sweepable(c: Settings, w: Window, now: real) {
    if c.strict then Over(c, w, now) else now - w.start >= c.len * 2.0
  }

  function Swept(c: Settings, ws: Windows, now: real): Windows {
    map key | key in ws && !Sweepable(c, ws[key], now) :: ws[key]
  }

  class SlidingWindowLimiter {
    var windows: map<string, Window>
    const limit: int
    const windowLen: real

    ghost function Config(): Settings {
      Settings(limit, windowLen, false)
    }

    constructor (limit: int, windowLen: real)
      ensures windows == map[] && Config() == Settings(limit, windowLen, false)
    {
      this.limit := limit;
      this.windowLen := windowLen;
      windows := map[];
    }

    method AllowN(key: string, n: int, now: real) returns (ok: bool)
      modifies this
      ensures (windows, ok) == KeyStep(Config(), old(windows), key, Hit(now, n))
    {
      if key !in windows || now - windows[key].start >= windowLen {
        windows := windows[key := Window(n, now)];
        return n <= limit;
      }
      var w := windows[key];
      if w.count + n <= limit {
        windows := windows[key := w.(count := w.count + n)];
        return true;
      }
      assert windows == windows[key := w];
      return false;
    }

    method Allow(key: string, now: real) returns (ok: bool)
      modifies this
      ensures (windows, ok) == KeyStep(Config(), old(windows), key, Hit(now, 1))
    {
      ok := AllowN(key, 1, now);
    }

    method Cleanup(now: real)
      modifies this
      ensures windows == Swept(Config(), old(windows), now)
    {
      var todo := windows.Keys;
      while todo != {}
        invariant todo <= old(windows).Keys
        invariant windows == map key | key in old(windows) &&
          (key in todo || !Sweepable(Config(), old(windows)[key], now)) :: old(windows)[key]
        decreases todo
      {
        var key :| key in todo;
        if now - windows[key].start >= windowLen * 2.0 {
          windows := windows - {key};
        }
        todo := todo - {key};
      }
    }
  }

  datatype WindowCount = WindowCount(count: int, resetTime: real)

  class WindowSampler {
    const window: real
    const maxCount: int
    var counts: map<string, WindowCount>

    ghost function Config(): Settings {
      Settings(maxCount, window, true)
    }

    ghost function Abs(): Windows
      reads this
    {
      map key | key in counts :: Window(counts[key].count, counts[key].resetTime - window)
    }

    ghost predicate Valid() {
      1 <= maxCount
    }

    constructor (window: real, maxCount: int)
      ensures Valid() && Abs() == map[]
      ensures Config() == Settings(if maxCount <= 0 then 1 else maxCount, window, true)
    {
      this.window := window;
      this.maxCount := if maxCount <= 0 then 1 else maxCount;
      counts := map[];
    }

    /** `key` is the level and the message joined by the caller. */
    method Sample(key: string, now: real) returns (ok: bool)
      requires Valid()
      modifies this
      ensures Valid() && (Abs(), ok) == KeyStep(Config(), old(Abs()), key, Hit(now, 1))
    {
      ghost var after := KeyStep(Config(), Abs(), key, Hit(now, 1)).0;
      if key !in counts {
        counts := counts[key := WindowCount(1, now + window)];
        assert Abs() == after;
        return true;
      }
      var wc := counts[key];
      if now > wc.resetTime {
        counts := counts[key := WindowCount(1, now + window)];
        assert Abs() == after;
        return true;
      }
      if wc.count < maxCount {
        counts := counts[key := wc.(count := wc.count + 1)];
        assert Abs() == after;
        return true;
      }
      assert Abs() == after;
      return false;
    }

    method Cleanup(now: real)
      modifies this
      ensures Abs() == Swept(Config(), old(Abs()), now)
    {
      var todo := counts.Keys;
      while todo != {}
        invariant todo <= old(counts).Keys
        invariant counts == map key | key in old(counts) &&
          (key in todo || !(now > old(counts)[key].resetTime)) :: old(counts)[key]
        decreases todo
      {
        var key :| key in todo;
        if now > counts[key].resetTime {
          counts := counts - {key};
        }
        todo := todo - {key};
      }
    }
  }

  // ---------------------------------------------------------------- one hit

  /** The limiter: from `start + len` on a new window begins, with the hit counted in it
      whether it fits or not; before that a hit is granted if it fits what is left, and only
      then counted. */
  lemma LimiterDecides(limit: int, len: real, count: int, start: real, at: real, n: int)
    ensures Step(Settings(limit, len, false), Some(Window(count, start)), Hit(at, n)) ==
            if at >= start + len then (Window(n, at), n <= limit)
            else if count + n <= limit then (Window(count + n, start), true)
            else (Window(count, start), false)
  {
  }

  /** The sampler: a message still belongs to the window at `start + len`. */
  lemma SamplerDecides(maxCount: int, window: real, count: int, start: real, at: real)
    requires 1 <= maxCount
    ensures Step(Settings(maxCount, window, true), Some(Window(count, start)), Hit(at, 1)) ==
            if at > start + window then (Window(1, at), true)
            else if count < maxCount then (Window(count + 1, start), true)
            else (Window(count, start), false)
  {
  }

  /** A key that is not known gets a window that begins with the hit. */
  lemma FirstHit(c: Settings, h: Hit)
    ensures Step(c, None, h) == (Window(h.n, h.at), h.n <= c.limit)
  {
  }

  /** A hit touches the window of its key alone. */
  lemma OtherKeysUntouched(c: Settings, ws: Windows, key: string, h: Hit, other: string)
    ensures var (next, ok) := KeyStep(c, ws, key, h);
            (next[key], ok) == Step(c, Lookup(ws, key), h) && key in next &&
            (other != key ==> Lookup(next, other) == Lookup(ws, other))
    ensures Lookup(ws, key) == if key in ws then Some(ws[key]) else None
  {
  }

  /** A sweep drops windows of the limiter two lengths after they began, counts of the sampler
      once their window is over, and changes no other. */
  lemma SweptIff(c: Settings, ws: Windows, now: real, key: string)
    ensures key in Swept(c, ws, now) <==>
            key in ws && if c.strict then now <= ws[key].start + c.len else now < ws[key].start + c.len + c.len
    ensures key in Swept(c, ws, now) ==> Swept(c, ws, now)[key] == ws[key]
  {
  }

  // ---------------------------------------------------------------- runs of one key

  ghost predicate Chronological(from: real, hs: seq<Hit>)
    decreases |hs|
  {
    hs != [] ==> from <= hs[0].at && Chronological(hs[0].at, hs[1..])
  }

  function Answers(c: Settings, w: Option<Window>, hs: seq<Hit>): (out: seq<bool>)
    ensures |out| == |hs|
    decreases |hs|
  {
    if hs == [] then [] else
      var (next, ok) := Step(c, w, hs[0]);
      [ok] + Answers(c, Some(next), hs[1..])
  }

  /** What the admitted hits with a time in [a, b] add up to. */
  function Admitted(c: Settings, w: Option<Window>, hs: seq<Hit>, a: real, b: real): int
    decreases |hs|
  {
    if hs == [] then 0 else
      var (next, ok) := Step(c, w, hs[0]);
      (if ok && a <= hs[0].at <= b then hs[0].n else 0) + Admitted(c, Some(next), hs[1..], a, b)
  }

  ghost predicate NonNegative(hs: seq<Hit>) {
    forall i :: 0 <= i < |hs| ==> 0 <= hs[i].n
  }

  /** The length of k windows.  Proofs hide the product. */
  function Span(c: Settings, k: nat): real {
    k as real * c.len
  }

  lemma SpanOfNext(c: Settings, k: nat)
    ensures Span(c, k + 1) == Span(c, k) + c.len && Span(c, 0) == 0.0
  {
  }

  /** No window that starts after w's end can start k windows later and still start
      before b. */
  ghost predicate EndsWithin(c: Settings, start: real, k: nat, b: real) {
    if c.strict then b <= start + Span(c, k + 1) else b < start + Span(c, k + 1)
  }

  function Room(c: Settings, w: Window): int {
    if w.count < c.limit then c.limit - w.count else 0
  }

  lemma {:induction false} NothingAfter(c: Settings, w: Option<Window>, hs: seq<Hit>,
                                        now: real, a: real, b: real)
    requires b < now && Chronological(now, hs)
    ensures Admitted(c, w, hs, a, b) == 0
    decreases |hs|
  {
    if hs != [] {
      NothingAfter(c, Some(Step(c, w, hs[0]).0), hs[1..], hs[0].at, a, b);
    }
  }

  /** Up to b there is the room left in the current window, and k further windows. */
  lemma {:induction false} RoomAndLaterWindows(c: Settings, w: Window, hs: seq<Hit>, now: real,
                                               a: real, b: real, k: nat)
    requires 0 <= c.limit && NonNegative(hs) && Chronological(now, hs)
    requires EndsWithin(c, w.start, k, b)
    ensures Admitted(c, Some(w), hs, a, b) <= Room(c, w) + k * c.limit
    decreases |hs|
  {
    hide Span;
    if hs == [] {
      assert 0 <= k * c.limit;
    } else {
      var t := hs[0].at;
      var next := Step(c, Some(w), hs[0]).0;
      if b < t {
        NothingAfter(c, Some(w), hs, t, a, b);
        assert 0 <= k * c.limit;
      } else if Over(c, w, t) {
        SpanOfNext(c, k);
        SpanOfNext(c, 0);
        assert k > 0;
        RoomAndLaterWindows(c, next, hs[1..], t, a, b, k - 1);
        assert (k - 1) * c.limit + c.limit == k * c.limit;
      } else {
        RoomAndLaterWindows(c, next, hs[1..], t, a, b, k);
      }
    }
  }

  /** Window lengths for which time passing does end a window. */
  ghost predicate Sane(c: Settings) {
    0 <= c.limit && (if c.strict then 0.0 <= c.len else 0.0 < c.len)
  }

  ghost predicate Counted(w: Option<Window>) {
    w.Some? ==> 0 <= w.value.count
  }

  /** Over any closed interval no longer than j windows, at most j + 1 limits pass. */
  lemma {:induction false} WindowBound(c: Settings, w: Option<Window>, hs: seq<Hit>, now: real,
                                       a: real, b: real, j: nat)
    requires Sane(c) && Counted(w) && NonNegative(hs) && Chronological(now, hs)
    requires b - a <= Span(c, j)
    ensures Admitted(c, w, hs, a, b) <= (j + 1) * c.limit
    decreases |hs|
  {
    hide Span;
    assert (j + 1) * c.limit == j * c.limit + c.limit && 0 <= j * c.limit;
    if hs != [] {
      var t := hs[0].at;
      var next := Step(c, w, hs[0]).0;
      if t < a {
        WindowBound(c, Some(next), hs[1..], t, a, b, j);
      } else if b < t {
        NothingAfter(c, w, hs, t, a, b);
      } else {
        SpanOfNext(c, j);
        RoomAndLaterWindows(c, next, hs[1..], t, a, b, j);
      }
    }
  }

  function Asked(hs: seq<Hit>): int {
    if hs == [] then 0 else hs[0].n + Asked(hs[1..])
  }

  /** No later than one window length from `start`, and earlier for the limiter. */
  ghost predicate AllWithin(c: Settings, start: real, hs: seq<Hit>) {
    forall i :: 0 <= i < |hs| ==> if c.strict then hs[i].at <= start + c.len else hs[i].at < start + c.len
  }

  ghost predicate AllYes(answers: seq<bool>) {
    forall i :: 0 <= i < |answers| ==> answers[i]
  }

  lemma {:induction false} AskedNonNegative(hs: seq<Hit>)
    requires NonNegative(hs)
    ensures 0 <= Asked(hs)
    decreases |hs|
  {
    if hs != [] {
      assert forall i :: 0 <= i < |hs[1..]| ==> hs[1..][i] == hs[i + 1];
      AskedNonNegative(hs[1..]);
    }
  }

  /** Inside a window all hits pass that together fit into what is left of the limit. */
  lemma {:induction false} RoomIsGranted(c: Settings, w: Window, hs: seq<Hit>)
    requires NonNegative(hs) && AllWithin(c, w.start, hs) && w.count + Asked(hs) <= c.limit
    ensures AllYes(Answers(c, Some(w), hs))
    decreases |hs|
  {
    if hs != [] {
      assert forall i :: 0 <= i < |hs[1..]| ==> hs[1..][i] == hs[i + 1];
      AskedNonNegative(hs[1..]);
      assert !Over(c, Window(0, w.start), hs[0].at);
      RoomIsGranted(c, Step(c, Some(w), hs[0]).0, hs[1..]);
    }
  }

  /** A key that was never seen, or whose window is over, gets its full limit: everything
      asked for within one window length of the next hit passes if it fits the limit. */
  lemma FullLimitIsGranted(c: Settings, w: Option<Window>, hs: seq<Hit>)
    requires hs != []
    requires w.None? || (if c.strict then hs[0].at > w.value.start + c.len else hs[0].at >= w.value.start + c.len)
    requires NonNegative(hs) && AllWithin(c, hs[0].at, hs[1..]) && Asked(hs) <= c.limit
    ensures AllYes(Answers(c, w, hs))
  {
    assert forall i :: 0 <= i < |hs[1..]| ==> hs[1..][i] == hs[i + 1];
    AskedNonNegative(hs[1..]);
    RoomIsGranted(c, Window(hs[0].n, hs[0].at), hs[1..]);
  }

  /** The bound cannot be improved for the limiter: a full limit at each multiple of the
      window length passes, j + 1 times within j windows, both ends included. */
  function Bursts(c: Settings, k: nat, count: nat): seq<Hit>
    decreases count
  {
    if count == 0 then [] else [Hit(Span(c, k), c.limit)] + Bursts(c, k + 1, count - 1)
  }

  lemma {:induction false} BurstsAllPass(c: Settings, w: Option<Window>, k: nat, count: nat, b: real)
    requires Sane(c) && !c.strict
    requires w.Some? ==> w.value.start + c.len <= Span(c, k)
    requires count > 0 ==> Span(c, k + count - 1) <= b
    ensures Chronological(Span(c, k), Bursts(c, k, count))
    ensures 0.0 <= Span(c, k)
    ensures Admitted(c, w, Bursts(c, k, count), 0.0, b) == count * c.limit
    decreases count
  {
    SpanNonNegative(c, k);
    hide Span;
    if count > 0 {
      SpanOfNext(c, k);
      SpanMonotone(c, k, k + count - 1);
      var rest := Bursts(c, k + 1, count - 1);
      assert Bursts(c, k, count)[1..] == rest;
      BurstsAllPass(c, Some(Window(c.limit, Span(c, k))), k + 1, count - 1, b);
      if rest != [] { assert rest[0].at == Span(c, k + 1); }
      assert count * c.limit == (count - 1) * c.limit + c.limit;
    }
  }

  lemma SpanNonNegative(c: Settings, k: nat)
    requires 0.0 <= c.len
    ensures 0.0 <= Span(c, k)
  {
  }

  lemma {:induction false} SpanMonotone(c: Settings, j: nat, k: nat)
    requires 0.0 <= c.len && j <= k
    ensures Span(c, j) <= Span(c, k)
    decreases k - j
  {
    hide Span;
    if j < k {
      SpanOfNext(c, j);
      SpanMonotone(c, j + 1, k);
    }
  }

  lemma WindowBoundIsTight(c: Settings, j: nat)
    requires Sane(c) && !c.strict
    ensures Admitted(c, None, Bursts(c, 0, j + 1), 0.0, Span(c, j)) == (j + 1) * c.limit
    ensures Chronological(0.0, Bursts(c, 0, j + 1))
  {
    SpanOfNext(c, 0);
    BurstsAllPass(c, None, 0, j + 1, Span(c, j));
  }

  // ------------------------------------------------- intervals shorter than the window

  ghost predicate Positive(hs: seq<Hit>) {
    forall i :: 0 <= i < |hs| ==> 1 <= hs[i].n
  }

  /** No longer than j windows, and shorter for the limiter. */
  predicate Within(c: Settings, a: real, b: real, j: nat) {
    if c.strict then b - a <= Span(c, j) else b - a < Span(c, j)
  }

  /** A window that reaches into the interval from before has counted something outside it,
      so when every call asks for something one less than j + 1 limits pass. */
  lemma {:induction false} PositiveBound(c: Settings, w: Option<Window>, hs: seq<Hit>, now: real,
                                         a: real, b: real, j: nat)
    requires Sane(c) && 1 <= c.limit && Positive(hs) && Chronological(now, hs)
    requires w.Some? ==> 1 <= w.value.count
    requires 1 <= j && Within(c, a, b, j)
    ensures Admitted(c, w, hs, a, b) <= (j + 1) * c.limit - 1
    decreases |hs|
  {
    hide Span;
    assert (j + 1) * c.limit == j * c.limit + c.limit && 0 <= j * c.limit;
    if hs != [] {
      var t := hs[0].at;
      var next := Step(c, w, hs[0]).0;
      assert 1 <= hs[0].n && forall i :: 0 <= i < |hs[1..]| ==> hs[1..][i] == hs[i + 1];
      if t < a {
        PositiveBound(c, Some(next), hs[1..], t, a, b, j);
      } else if b < t {
        NothingAfter(c, w, hs, t, a, b);
      } else if w.None? || Over(c, w.value, t) {
        assert (j - 1) * c.limit + c.limit == j * c.limit;
        RoomAndLaterWindows(c, next, hs[1..], t, a, b, j - 1);
      } else {
        SpanOfNext(c, j);
        RoomAndLaterWindows(c, w.value, hs, now, a, b, j);
      }
    }
  }

  function Units(at: real, m: nat): (hs: seq<Hit>)
    ensures |hs| == m && forall i :: 0 <= i < m ==> hs[i] == Hit(at, 1)
  {
    seq(m, i => Hit(at, 1))
  }

  lemma {:induction false} UnitsPass(c: Settings, w: Window, at: real, m: nat, rest: seq<Hit>, a: real, b: real)
    requires !Over(c, w, at) && w.count + m <= c.limit && a <= at <= b
    ensures Admitted(c, Some(w), Units(at, m) + rest, a, b)
         == m + Admitted(c, Some(w.(count := w.count + m)), rest, a, b)
    decreases m
  {
    var hs := Units(at, m) + rest;
    if m == 0 {
      assert hs == rest && w.(count := w.count) == w;
    } else {
      assert hs[0] == Hit(at, 1) && hs[1..] == Units(at, m - 1) + rest;
      UnitsPass(c, w.(count := w.count + 1), at, m - 1, rest, a, b);
    }
  }

  lemma {:induction false} UnitsInOrder(from: real, at: real, m: nat, rest: seq<Hit>)
    requires from <= at && Chronological(at, rest)
    ensures Chronological(from, Units(at, m) + rest)
    decreases m
  {
    var hs := Units(at, m) + rest;
    if m == 0 {
      assert hs == rest;
      ChronologicalFrom(from, at, rest);
    } else {
      assert hs[0] == Hit(at, 1) && hs[1..] == Units(at, m - 1) + rest;
      UnitsInOrder(at, at, m - 1, rest);
    }
  }

  /** One call opens the window at 0; what is left of the limit is used at p, when it is
      about to end, and a new limit at q, when it has. */
  function AcrossTheEnd(c: Settings, p: real, q: real): seq<Hit>
    requires 1 <= c.limit
  {
    [Hit(0.0, 1)] + (Units(p, c.limit - 1) + Units(q, c.limit))
  }

  /** So that bound is reached, by calls of one each, in as little time as one likes. */
  lemma AlmostTwiceAtOnce(c: Settings, p: real, q: real)
    requires 1 <= c.limit && 0.0 < c.len && 0.0 < p
    requires if c.strict then p <= c.len < q else p < c.len <= q
    ensures Chronological(0.0, AcrossTheEnd(c, p, q)) && Positive(AcrossTheEnd(c, p, q))
    ensures Admitted(c, None, AcrossTheEnd(c, p, q), p, q) == 2 * c.limit - 1
  {
    var hs, first, second := AcrossTheEnd(c, p, q), Units(p, c.limit - 1), Units(q, c.limit);
    assert hs[0] == Hit(0.0, 1) && hs[1..] == first + second;
    assert second == second + [];
    UnitsInOrder(p, q, c.limit, []);
    UnitsInOrder(0.0, p, c.limit - 1, second);
    hide Over;
    UnitsPass(c, Window(1, 0.0), p, c.limit - 1, second, p, q);
    assert second[0] == Hit(q, 1) && second[1..] == Units(q, c.limit - 1) + [];
    assert Step(c, Some(Window(c.limit, 0.0)), second[0]) == (Window(1, q), true) by {
      assert Over(c, Window(c.limit, 0.0), q) by { OverIgnoresCount(c, q); }
    }
    assert !Over(c, Window(1, q), q) by { NotOverAtOnce(c, q); }
    UnitsPass(c, Window(1, q), q, c.limit - 1, [], p, q);
  }

  lemma OverIgnoresCount(c: Settings, q: real)
    requires Over(c, Window(1, 0.0), q)
    ensures Over(c, Window(c.limit, 0.0), q)
  {
  }

  lemma NotOverAtOnce(c: Settings, q: real)
    requires 0.0 < c.len
    ensures !Over(c, Window(1, q), q)
  {
  }

  /** The configured maximum holds over every interval shorter than the window, for a key
      all of whose calls ask for something. */
  ghost predicate LimitHolds(c: Settings) {
    forall from, hs, a, b :: Chronological(from, hs) && Positive(hs) && b - a < c.len ==>
      Admitted(c, None, hs, a, b) <= c.limit
  }

  /** The same for all calls, those for nothing included. */
  ghost predicate LimitHoldsForAll(c: Settings) {
    forall from, hs, a, b :: Chronological(from, hs) && NonNegative(hs) && b - a < c.len ==>
      Admitted(c, None, hs, a, b) <= c.limit
  }

  lemma {:induction false} NothingWithoutLimit(c: Settings, w: Option<Window>, hs: seq<Hit>, a: real, b: real)
    requires c.limit == 0 && NonNegative(hs) && Counted(w)
    ensures Admitted(c, w, hs, a, b) == 0
    decreases |hs|
  {
    if hs != [] {
      assert forall i :: 0 <= i < |hs[1..]| ==> hs[1..][i] == hs[i + 1];
      NothingWithoutLimit(c, Some(Step(c, w, hs[0]).0), hs[1..], a, b);
    }
  }

  /** When every call asks for something, the maximum holds if and only if it is at most one,
      for limiter and sampler. */
  lemma LimitHoldsIff(c: Settings)
    requires Sane(c) && 0.0 < c.len
    ensures LimitHolds(c) <==> c.limit <= 1
  {
    if c.limit <= 1 {
      forall from, hs, a, b | Chronological(from, hs) && Positive(hs) && b - a < c.len
        ensures Admitted(c, None, hs, a, b) <= c.limit
      {
        if c.limit == 0 {
          NothingWithoutLimit(c, None, hs, a, b);
        } else {
          assert Span(c, 1) == c.len;
          PositiveBound(c, None, hs, from, a, b, 1);
        }
      }
    } else {
      var p, q := if c.strict then c.len else c.len / 2.0, if c.strict then c.len * 1.5 else c.len;
      AlmostTwiceAtOnce(c, p, q);
    }
  }

  /** Calls for nothing make it worse: a window opened by one of them lets two limits pass
      around its end. */
  lemma EmptyCallsGiveTwice(c: Settings, p: real, q: real)
    requires 0 <= c.limit && 0.0 < p
    requires if c.strict then p <= c.len < q else p < c.len <= q
    ensures Admitted(c, None, [Hit(0.0, 0), Hit(p, c.limit), Hit(q, c.limit)], p, q) == 2 * c.limit
  {
    var hs := [Hit(0.0, 0), Hit(p, c.limit), Hit(q, c.limit)];
    assert hs[1..] == [Hit(p, c.limit), Hit(q, c.limit)] && hs[1..][1..] == [Hit(q, c.limit)];
    assert hs[1..][1..][1..] == [];
    var first, second := Window(0, 0.0), Window(c.limit, 0.0);
    assert Step(c, None, hs[0]) == (first, true);
    assert Step(c, Some(first), hs[1]) == (second, true);
    assert Step(c, Some(second), hs[2]) == (Window(c.limit, q), true);
    hide Step;
    assert Admitted(c, Some(second), hs[1..][1..], p, q) == c.limit;
    assert Admitted(c, Some(first), hs[1..], p, q) == c.limit + c.limit;
  }

  /** So over all calls the maximum holds if and only if nothing is ever let through. */
  lemma LimitHoldsForAllIff(c: Settings)
    requires Sane(c) && 0.0 < c.len
    ensures LimitHoldsForAll(c) <==> c.limit == 0
  {
    if c.limit == 0 {
      forall from, hs, a, b | Chronological(from, hs) && NonNegative(hs) && b - a < c.len
        ensures Admitted(c, None, hs, a, b) <= c.limit
      {
        NothingWithoutLimit(c, None, hs, a, b);
      }
    } else {
      var p, q := if c.strict then c.len else c.len / 2.0, if c.strict then c.len * 1.5 else c.len;
      var hs := [Hit(0.0, 0), Hit(p, c.limit), Hit(q, c.limit)];
      EmptyCallsGiveTwice(c, p, q);
      assert hs[1..] == [Hit(p, c.limit), Hit(q, c.limit)] && hs[1..][1..] == [Hit(q, c.limit)];
      assert hs[1..][1..][1..] == [];
      assert 0.0 <= p <= q && hs[1..][1..][0].at == q && hs[1..][0].at == p && hs[0].at == 0.0;
      assert Chronological(q, hs[1..][1..][1..]);
      assert Chronological(p, hs[1..][1..]);
      assert Chronological(0.0, hs[1..]);
      assert Chronological(0.0, hs) && NonNegative(hs);
      assert Admitted(c, None, hs, p, q) > c.limit;
    }
  }

  // ------------------------------------------------- rejected calls

  ghost predicate AmountsFrom(hs: seq<Hit>, amounts: iset<int>) {
    forall i :: 0 <= i < |hs| ==> hs[i].n in amounts
  }

  /** `keep` drops none but rejected calls. */
  ghost predicate DropsRejected(c: Settings, w: Option<Window>, hs: seq<Hit>, keep: seq<bool>) {
    |keep| == |hs| && forall i :: 0 <= i < |hs| && !keep[i] ==> !Answers(c, w, hs)[i]
  }

  /** Over all runs of a key with amounts from a given set, rejected calls leave no trace. */
  ghost predicate RejectedLeaveNoTrace(c: Settings, amounts: iset<int>) {
    forall from, hs, keep :: Chronological(from, hs) && AmountsFrom(hs, amounts) && DropsRejected(c, None, hs, keep) ==>
      Answers(c, None, Sub(hs, keep)) == Sub(Answers(c, None, hs), keep)
  }

  lemma AnswersCons(c: Settings, w: Option<Window>, h: Hit, hs: seq<Hit>)
    ensures Answers(c, w, [h] + hs) == [Step(c, w, h).1] + Answers(c, Some(Step(c, w, h).0), hs)
  {
    assert ([h] + hs)[1..] == hs;
  }

  lemma DropsTail(c: Settings, w: Option<Window>, hs: seq<Hit>, keep: seq<bool>)
    requires hs != [] && DropsRejected(c, w, hs, keep)
    ensures !keep[0] ==> !Step(c, w, hs[0]).1
    ensures DropsRejected(c, Some(Step(c, w, hs[0]).0), hs[1..], keep[1..])
  {
    var next := Some(Step(c, w, hs[0]).0);
    AnswersCons(c, w, hs[0], hs[1..]);
    assert hs == [hs[0]] + hs[1..];
    forall i | 0 <= i < |hs[1..]| && !keep[1..][i] ensures !Answers(c, next, hs[1..])[i] {
      assert !keep[i + 1] && Answers(c, w, hs)[i + 1] == Answers(c, next, hs[1..])[i];
    }
  }

  /** A call that could be granted by an empty window is rejected without a change. */
  lemma {:induction false} SmallRejectionsLeaveNoTrace(c: Settings, w: Option<Window>, hs: seq<Hit>, keep: seq<bool>)
    requires forall i :: 0 <= i < |hs| ==> hs[i].n <= c.limit
    requires DropsRejected(c, w, hs, keep)
    ensures Answers(c, w, Sub(hs, keep)) == Sub(Answers(c, w, hs), keep)
    decreases |hs|
  {
    if hs != [] {
      var (next, ok) := Step(c, w, hs[0]);
      var rest := Answers(c, Some(next), hs[1..]);
      DropsTail(c, w, hs, keep);
      assert forall i :: 0 <= i < |hs[1..]| ==> hs[1..][i] == hs[i + 1];
      SmallRejectionsLeaveNoTrace(c, Some(next), hs[1..], keep[1..]);
      SubCons(hs[0], hs[1..], keep[0], keep[1..]);
      SubCons(ok, rest, keep[0], keep[1..]);
      assert hs == [hs[0]] + hs[1..] && keep == [keep[0]] + keep[1..];
      assert !keep[0] ==> w == Some(next);
      hide Step, DropsRejected;
      var kept := Sub(hs[1..], keep[1..]);
      AnswersCons(c, w, hs[0], kept);
      assert Answers(c, w, hs) == [ok] + rest;
      hide Answers, Sub;
    }
  }

  /** Calls none of which can ever be granted are all rejected, dropped calls or not. */
  lemma {:induction false} LargeAreRejected(c: Settings, w: Option<Window>, hs: seq<Hit>)
    requires 0 <= c.limit && Counted(w) && forall i :: 0 <= i < |hs| ==> hs[i].n > c.limit
    ensures |Answers(c, w, hs)| == |hs| && forall i :: 0 <= i < |hs| ==> !Answers(c, w, hs)[i]
    decreases |hs|
  {
    if hs != [] {
      assert forall i :: 0 <= i < |hs[1..]| ==> hs[1..][i] == hs[i + 1];
      LargeAreRejected(c, Some(Step(c, w, hs[0]).0), hs[1..]);
    }
  }

  lemma {:induction false} SubOfAll<T>(xs: seq<T>, keep: seq<bool>)
    requires |xs| == |keep|
    ensures |Sub(xs, keep)| == Count(keep) && forall y :: y in Sub(xs, keep) ==> y in xs
    decreases |xs|
  {
    if xs != [] { SubOfAll(xs[1..], keep[1..]); }
  }

  /** A first call for more than the limit is rejected, but opens a window that it fills. */
  lemma LargeCallShutsOut(c: Settings, big: int, a: int)
    requires Sane(c) && a <= c.limit < big && 0 <= a
    ensures Answers(c, None, [Hit(0.0, big), Hit(0.0, a)]) == [false, false]
    ensures Answers(c, None, [Hit(0.0, a)]) == [true]
  {
    var first := Window(big, 0.0);
    AnswersCons(c, None, Hit(0.0, big), [Hit(0.0, a)]);
    AnswersCons(c, Some(first), Hit(0.0, a), []);
    AnswersCons(c, None, Hit(0.0, a), []);
    assert [Hit(0.0, a)] + [] == [Hit(0.0, a)];
    assert [Hit(0.0, big)] + [Hit(0.0, a)] == [Hit(0.0, big), Hit(0.0, a)];
  }

  /** Rejected calls leave no trace if and only if the amounts are all within the limit or all
      beyond it. */
  lemma RejectedLeaveNoTraceIff(c: Settings, amounts: iset<int>)
    requires Sane(c) && forall n :: n in amounts ==> 0 <= n
    ensures RejectedLeaveNoTrace(c, amounts)
            <==> (forall n :: n in amounts ==> n <= c.limit) || (forall n :: n in amounts ==> n > c.limit)
  {
    if forall n :: n in amounts ==> n <= c.limit {
      forall from, hs, keep | Chronological(from, hs) && AmountsFrom(hs, amounts) && DropsRejected(c, None, hs, keep)
        ensures Answers(c, None, Sub(hs, keep)) == Sub(Answers(c, None, hs), keep)
      {
        SmallRejectionsLeaveNoTrace(c, None, hs, keep);
      }
    } else if forall n :: n in amounts ==> n > c.limit {
      forall from, hs, keep | Chronological(from, hs) && AmountsFrom(hs, amounts) && DropsRejected(c, None, hs, keep)
        ensures Answers(c, None, Sub(hs, keep)) == Sub(Answers(c, None, hs), keep)
      {
        OnlyLarge(c, hs, keep);
      }
    } else {
      var big, a :| big in amounts && a in amounts && a <= c.limit < big;
      var hs, keep := [Hit(0.0, big), Hit(0.0, a)], [false, true];
      LargeCallShutsOut(c, big, a);
      assert hs[1..] == [Hit(0.0, a)] && hs[1..][1..] == [] && keep[1..] == [true] && keep[1..][1..] == [];
      assert Chronological(0.0, hs[1..]) && Chronological(0.0, hs) && AmountsFrom(hs, amounts);
      assert Sub(hs[1..], keep[1..]) == [Hit(0.0, a)] + Sub(hs[1..][1..], keep[1..][1..]);
      assert Sub(hs, keep) == [Hit(0.0, a)];
      assert DropsRejected(c, None, hs, keep);
      var no := [false, false];
      assert no[1..] == [false] && no[1..][1..] == [];
      assert Sub(no[1..], keep[1..]) == [false] + Sub(no[1..][1..], keep[1..][1..]);
      assert Sub(no, keep) == [false];
    }
  }

  lemma OnlyLarge(c: Settings, hs: seq<Hit>, keep: seq<bool>)
    requires 0 <= c.limit && |hs| == |keep| && forall i :: 0 <= i < |hs| ==> hs[i].n > c.limit
    ensures |Answers(c, None, hs)| == |hs|
    ensures Answers(c, None, Sub(hs, keep)) == Sub(Answers(c, None, hs), keep)
  {
    var some := Sub(hs, keep);
    LargeAreRejected(c, None, hs);
    SubOfAll(hs, keep);
    assert forall i :: 0 <= i < |some| ==> some[i] in hs;
    LargeAreRejected(c, None, some);
    var all := Answers(c, None, hs);
    SubOfAll(all, keep);
    assert forall i :: 0 <= i < |Sub(all, keep)| ==> Sub(all, keep)[i] in all;
  }

  // ---------------------------------------------------------------- runs of many keys

  datatype Event =
    | Call(at: real, key: string, n: int)
    | Sweep(at: real)

  ghost predicate InOrder(from: real, es: seq<Event>)
    decreases |es|
  {
    es != [] ==> from <= es[0].at && InOrder(es[0].at, es[1..])
  }

  function EventStep(c: Settings, ws: Windows, e: Event): Windows {
    match e
    case Call(at, key, n) => KeyStep(c, ws, key, Hit(at, n)).0
    case Sweep(at) => Swept(c, ws, at)
  }

  function AnswersFor(c: Settings, ws: Windows, es: seq<Event>, key: string): seq<bool>
    decreases |es|
  {
    if es == [] then [] else
      (if es[0].Call? && es[0].key == key
       then [KeyStep(c, ws, key, Hit(es[0].at, es[0].n)).1] else []) +
      AnswersFor(c, EventStep(c, ws, es[0]), es[1..], key)
  }

  function Hits(es: seq<Event>, key: string): seq<Hit>
    decreases |es|
  {
    if es == [] then [] else
      (if es[0].Call? && es[0].key == key then [Hit(es[0].at, es[0].n)] else []) +
      Hits(es[1..], key)
  }

  /** The stored window decides as w does; it may be missing once w is over. */
  ghost predicate Tracks(c: Settings, ws: Windows, key: string, w: Option<Window>, now: real) {
    (w.Some? ==> w.value.start <= now) &&
    if key in ws then w == Some(ws[key]) else w.None? || Over(c, w.value, now)
  }

  lemma TracksStep(c: Settings, ws: Windows, key: string, w: Option<Window>, now: real, e: Event)
    requires Tracks(c, ws, key, w, now) && now <= e.at
    ensures if e.Call? && e.key == key then
              var h := Hit(e.at, e.n);
              Step(c, w, h) == Step(c, Lookup(ws, key), h) &&
              Tracks(c, EventStep(c, ws, e), key, Some(Step(c, w, h).0), e.at)
            else Tracks(c, EventStep(c, ws, e), key, w, e.at)
  {
  }

  /** Calls of other keys and sweeps at any time change no answer a key gets: it has a
      window counter of its own that is never swept. */
  lemma {:induction false} SweepsAreUnobservable(c: Settings, ws: Windows, key: string,
                                                 w: Option<Window>, now: real, es: seq<Event>)
    requires Tracks(c, ws, key, w, now) && InOrder(now, es)
    ensures AnswersFor(c, ws, es, key) == Answers(c, w, Hits(es, key))
    ensures Chronological(now, Hits(es, key))
    decreases |es|
  {
    if es != [] {
      TracksStep(c, ws, key, w, now, es[0]);
      hide Step, Swept, Over;
      var rest := Hits(es[1..], key);
      if es[0].Call? && es[0].key == key {
        var h := Hit(es[0].at, es[0].n);
        SweepsAreUnobservable(c, EventStep(c, ws, es[0]), key, Some(Step(c, w, h).0), es[0].at, es[1..]);
        assert Hits(es, key) == [h] + rest && ([h] + rest)[1..] == rest;
      } else {
        SweepsAreUnobservable(c, EventStep(c, ws, es[0]), key, w, es[0].at, es[1..]);
        assert Hits(es, key) == rest;
        ChronologicalFrom(now, es[0].at, rest);
      }
    }
  }

  function AdmittedFor(c: Settings, ws: Windows, es: seq<Event>, key: string, a: real, b: real): int
    decreases |es|
  {
    if es == [] then 0 else
      (if es[0].Call? && es[0].key == key && a <= es[0].at <= b &&
          KeyStep(c, ws, key, Hit(es[0].at, es[0].n)).1 then es[0].n else 0) +
      AdmittedFor(c, EventStep(c, ws, es[0]), es[1..], key, a, b)
  }

  lemma {:induction false} AdmittedByOwnCounter(c: Settings, ws: Windows, key: string, w: Option<Window>,
                                                now: real, es: seq<Event>, a: real, b: real)
    requires Tracks(c, ws, key, w, now) && InOrder(now, es)
    ensures AdmittedFor(c, ws, es, key, a, b) == Admitted(c, w, Hits(es, key), a, b)
    decreases |es|
  {
    if es != [] {
      TracksStep(c, ws, key, w, now, es[0]);
      hide Step, Swept, Over;
      var rest := Hits(es[1..], key);
      if es[0].Call? && es[0].key == key {
        var h := Hit(es[0].at, es[0].n);
        AdmittedByOwnCounter(c, EventStep(c, ws, es[0]), key, Some(Step(c, w, h).0), es[0].at, es[1..], a, b);
        assert Hits(es, key) == [h] + rest && ([h] + rest)[1..] == rest;
      } else {
        AdmittedByOwnCounter(c, EventStep(c, ws, es[0]), key, w, es[0].at, es[1..], a, b);
        assert Hits(es, key) == rest;
      }
    }
  }

  lemma {:induction false} HitsNonNegative(es: seq<Event>, key: string)
    requires forall i :: 0 <= i < |es| && es[i].Call? ==> 0 <= es[i].n
    ensures NonNegative(Hits(es, key))
    decreases |es|
  {
    if es != [] {
      assert forall i :: 0 <= i < |es[1..]| ==> es[1..][i] == es[i + 1];
      HitsNonNegative(es[1..], key);
    }
  }

  /** The window bound for every key of a limiter that starts empty, whatever other keys do
      and whenever it is swept. */
  lemma PerKeyWindowBound(c: Settings, es: seq<Event>, key: string, from: real, a: real, b: real, j: nat)
    requires Sane(c) && InOrder(from, es) && b - a <= Span(c, j)
    requires forall i :: 0 <= i < |es| && es[i].Call? ==> 0 <= es[i].n
    ensures AdmittedFor(c, map[], es, key, a, b) <= (j + 1) * c.limit
  {
    hide Span;
    AdmittedByOwnCounter(c, map[], key, None, from, es, a, b);
    SweepsAreUnobservable(c, map[], key, None, from, es);
    HitsNonNegative(es, key);
    WindowBound(c, None, Hits(es, key), from, a, b, j);
  }

  lemma ChronologicalFrom(early: real, late: real, hs: seq<Hit>)
    requires early <= late && Chronological(late, hs)
    ensures Chronological(early, hs)
  {
  }
}
