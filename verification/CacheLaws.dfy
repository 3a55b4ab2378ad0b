/**
 What callers of the memory cache (pkg/cache/memory.go) and of the stack of caches
 (pkg/cache/multi.go) see, written out on the maps, their deadlines and the clock.
 */
module CacheLaws {
  import opened Prelude
  import opened MemoryCaches
  import opened MultiLevelCaches

  // ------------------------------------------------- the memory cache

  /** The key is there and its deadline, if it has one, has not passed. */
  predicate Alive(s: Store, key: string, now: int) {
    key in s && (s[key].deadline.None? || now <= s[key].deadline.value)
  }

  ghost predicate SameBut(s: Store, t: Store, keys: set<string>) {
    forall k :: k !in keys ==> (k in s <==> k in t) && (k in s ==> s[k] == t[k])
  }

  lemma GetMeans(s: Store, key: string, fits: Value -> bool, now: int)
    ensures Step(s, Op.Get(key, fits), now, 0) ==
            (s, if !Alive(s, key, now) then NotFound
                else if fits(s[key].value) then Found(s[key].value) else DecodeError)
    ensures Step(s, Op.GetRaw(key), now, 0) == (s, if Alive(s, key, now) then Found(s[key].value) else NotFound)
    ensures Step(s, Op.Exists(key), now, 0) == (s, if Alive(s, key, now) then Yes else No)
  {
  }

  lemma TtlIsTimeLeft(s: Store, key: string, now: int)
    ensures Step(s, Op.TTL(key), now, 0) ==
            (s, Duration(if !Alive(s, key, now) then -2
                         else if s[key].deadline.None? then -1
                         else s[key].deadline.value - now))
  {
  }

  /** A value that is set is there for as long as its ttl, forever without a positive one; one
      that cannot be encoded changes nothing. */
  lemma SetThenGet(s: Store, key: string, v: Value, ttl: int, now: int, later: int)
    requires now <= later
    ensures var (t, a) := Step(s, Op.Set(key, v, ttl), now, 0);
            if v.Unencodable? then t == s && a == EncodeError
            else a == Done && SameBut(s, t, {key}) &&
                 Step(t, Op.GetRaw(key), later, 0).1
                   == (if ttl <= 0 || later <= now + ttl then Found(v) else NotFound) &&
                 Step(t, Op.TTL(key), later, 0).1
                   == Duration(if ttl <= 0 then -1 else if later <= now + ttl then now + ttl - later else -2)
  {
  }

  /** SetNX does so only where nothing is alive. */
  lemma SetNXThenGet(s: Store, key: string, v: Value, ttl: int, now: int, later: int)
    requires now <= later
    ensures var (t, a) := Step(s, Op.SetNX(key, v, ttl), now, 0);
            if Alive(s, key, now) then t == s && a == No
            else if v.Unencodable? then t == s && a == EncodeError
            else a == Yes && t == Step(s, Op.Set(key, v, ttl), now, 0).0 && SameBut(s, t, {key}) &&
                 Step(t, Op.GetRaw(key), later, 0).1
                   == (if ttl <= 0 || later <= now + ttl then Found(v) else NotFound)
  {
  }

  lemma MSetThenGet(s: Store, items: map<string, Value>, ttl: int, early: seq<set<string>>, now: int, later: int)
    requires now <= later && forall k :: k in items ==> !items[k].Unencodable?
    ensures var (t, a) := Step(s, Op.MSet(items, ttl, early), now, 0);
            a == Done && SameBut(s, t, items.Keys) &&
            forall k :: k in items ==>
              Step(t, Op.GetRaw(k), later, 0).1
                == if ttl <= 0 || later <= now + ttl then Found(items[k]) else NotFound
  {
  }

  /** An MSet that fails has stored some of what can be encoded and touched nothing else. */
  lemma MSetFails(s: Store, items: map<string, Value>, ttl: int, early: seq<set<string>>, now: int, bad: string)
    requires bad in items && items[bad].Unencodable?
    ensures var (t, a) := Step(s, Op.MSet(items, ttl, early), now, 0);
            a == EncodeError && SameBut(s, t, items.Keys) &&
            forall k :: k in items ==>
              (k in t && t[k] == Item(items[k], if ttl > 0 then Some(now + ttl) else None) && !items[k].Unencodable?) ||
              ((k in s <==> k in t) && (k in s ==> s[k] == t[k]))
  {
  }

  lemma DeleteMeans(s: Store, key: string, keys: seq<string>, now: int)
    ensures var (t, a) := Step(s, Op.Delete(key), now, 0); a == Done && key !in t && SameBut(s, t, {key})
    ensures var (t, a) := Step(s, Op.MDelete(keys), now, 0);
            a == Done && (forall k :: k in keys ==> k !in t) && SameBut(s, t, set k | k in keys)
  {
  }

  /** What a counter stands at: an int64, or nothing. */
  function Count64(s: Store, key: string, now: int): int {
    if Alive(s, key, now) && s[key].value.Num? && -0x8000_0000_0000_0000 <= s[key].value.n < 0x8000_0000_0000_0000
    then s[key].value.n else 0
  }

  /** Counting adds to that, modulo 2^64; the sum is there from then on, without a deadline. */
  lemma CountingAddsUp(s: Store, key: string, delta: int, now: int, later: int)
    requires now <= later
    ensures var (t, a) := Step(s, Op.IncrBy(key, delta), now, 0);
            a.Total? && -0x8000_0000_0000_0000 <= a.n < 0x8000_0000_0000_0000 &&
            (a.n - (Count64(s, key, now) + delta)) % 0x1_0000_0000_0000_0000 == 0 &&
            SameBut(s, t, {key}) && Step(t, Op.GetRaw(key), later, 0).1 == Found(Num(a.n)) &&
            Step(t, Op.TTL(key), later, 0).1 == Duration(-1) && Count64(t, key, later) == a.n
  {
    Wrap64Range(Count64(s, key, now) + delta);
    hide Wrap64;
    var sum := Count64(s, key, now) + delta;
    assert Incremented(s, key, delta, now) == Wrap64(sum);
    NegatedMultiple(sum - Wrap64(sum), 0x1_0000_0000_0000_0000);
  }

  lemma NegatedMultiple(x: int, m: int)
    requires m > 0 && x % m == 0
    ensures (-x) % m == 0
  {
    assert x == (x / m) * m;
    assert -x == -(x / m) * m + 0;
    DivModUnique(-x, m, -(x / m), 0);
  }

  /** So n calls of Incr in a row count to n above where the counter stood. */
  lemma {:induction false} CountingRepeatedly(s: Store, key: string, now: int, n: nat)
    requires Count64(s, key, now) + n < 0x8000_0000_0000_0000
    ensures Count64(Counted(s, key, now, n), key, now) == Count64(s, key, now) + n
    decreases n
  {
    if n > 0 {
      CountingAddsUp(s, key, 1, now, now);
      var (t, a) := Step(s, Op.IncrBy(key, 1), now, 0);
      SmallSum(a.n, Count64(s, key, now) + 1);
      CountingRepeatedly(t, key, now, n - 1);
    }
  }

  function Counted(s: Store, key: string, now: int, n: nat): Store
    decreases n
  {
    if n == 0 then s else Counted(Step(s, Op.IncrBy(key, 1), now, 0).0, key, now, n - 1)
  }

  lemma SmallSum(x: int, y: int)
    requires -0x8000_0000_0000_0000 <= x < 0x8000_0000_0000_0000 && -0x8000_0000_0000_0000 <= y < 0x8000_0000_0000_0000
    requires (x - y) % 0x1_0000_0000_0000_0000 == 0
    ensures x == y
  {
  }

  /** Expire gives whatever is there a new deadline, dead or alive. */
  lemma ExpireMeans(s: Store, key: string, ttl: int, now: int, later: int)
    ensures var (t, a) := Step(s, Op.Expire(key, ttl), now, 0);
            a == Done && SameBut(s, t, {key}) &&
            if key in s then
              Step(t, Op.GetRaw(key), later, 0).1 == (if later <= now + ttl then Found(s[key].value) else NotFound)
            else t == s
  {
  }

  /** A pattern that does not end in a star matches itself and nothing else, stars at the
      beginning or in the middle included. */
  lemma LiteralPatterns(pattern: string, key: string)
    requires pattern == "" || pattern[|pattern| - 1] != '*'
    ensures Matches(pattern, key) <==> key == pattern
  {
  }

  lemma KeysMeans(s: Store, pattern: string, now: int)
    ensures var (t, a) := Step(s, Op.Keys(pattern), now, 0);
            t == s && a.Names? &&
            forall k :: k in a.names <==>
              Alive(s, k, now) &&
              if pattern != "" && pattern[|pattern| - 1] == '*' then pattern[..|pattern| - 1] <= k else k == pattern
  {
  }

  lemma MGetMeans(s: Store, keys: seq<string>, now: int)
    ensures var (t, a) := Step(s, Op.MGet(keys), now, 0);
            t == s && a.Values? &&
            (forall k :: k in a.found <==> k in keys && Alive(s, k, now)) &&
            forall k :: k in a.found ==> a.found[k] == s[k].value
  {
  }

  lemma SweepMeans(s: Store, level: nat, me: nat, now: int)
    ensures var t := Step(s, Op.Sweep(level), now, me).0;
            if level != me then t == s
            else (forall k :: k in t <==> Alive(s, k, now)) && forall k :: k in t ==> t[k] == s[k]
  {
  }

  /** Only what can be encoded is ever stored. */
  ghost predicate EncodedOnly(s: Store) {
    forall k :: k in s ==> !s[k].value.Unencodable?
  }

  lemma EncodedOnlyKept(s: Store, op: Op, now: int, me: nat)
    requires EncodedOnly(s)
    ensures EncodedOnly(Step(s, op, now, me).0)
  {
    hide Wrap64;
  }

  // ------------------------------------------------- the stack: reads

  /** The first level that answers for the key. */
  ghost predicate AnswersFirst(ls: Stack, key: string, fits: Value -> bool, now: int, i: nat) {
    i < |ls| && Alive(ls[i], key, now) && fits(ls[i][key].value) &&
    forall j :: 0 <= j < i ==> !(Alive(ls[j], key, now) && fits(ls[j][key].value))
  }

  /** Get answers from that level.  If the entry has a deadline ahead, all levels above hold
      the same value until the same deadline afterwards; otherwise nothing is copied.  No
      other key and no level from there on is touched. */
  lemma GetCopiesUp(ls: Stack, key: string, fits: Value -> bool, now: int, i: nat)
    requires AnswersFirst(ls, key, fits, now, i) && EncodedOnly(ls[i])
    ensures var (ms, a) := MultiStep(ls, Op.Get(key, fits), now);
            a == Found(ls[i][key].value) && |ms| == |ls| &&
            (forall j :: i <= j < |ls| ==> ms[j] == ls[j]) &&
            (forall j :: 0 <= j < i ==> SameBut(ls[j], ms[j], {key})) &&
            if ls[i][key].deadline.Some? && ls[i][key].deadline.value > now
            then forall j :: 0 <= j < i ==> key in ms[j] && ms[j][key] == Item(ls[i][key].value, ls[i][key].deadline)
            else ms == ls
  {
    FirstFitIs(ls, key, fits, now, i);
  }

  lemma FirstFitIs(ls: Stack, key: string, fits: Value -> bool, now: int, i: nat)
    requires AnswersFirst(ls, key, fits, now, i)
    ensures FirstFit(ls, key, fits, now) == i && Live(ls[i], key, now)
  {
    var found := FirstFit(ls, key, fits, now);
    assert forall j :: 0 <= j < |ls| ==> (Live(ls[j], key, now) <==> Alive(ls[j], key, now));
    if found < |ls| { assert Live(ls[found], key, now); }
  }

  /** No level answers: neither does the stack, and nothing changes. */
  lemma GetFindsNothing(ls: Stack, key: string, fits: Value -> bool, now: int)
    requires forall j :: 0 <= j < |ls| ==> !(Alive(ls[j], key, now) && fits(ls[j][key].value))
    ensures MultiStep(ls, Op.Get(key, fits), now) == (ls, NotFound)
  {
    assert forall j :: 0 <= j < |ls| ==> (Live(ls[j], key, now) <==> Alive(ls[j], key, now));
  }

  /** The next Get is answered by the first level, until the deadline. */
  lemma NextGetFromTheTop(ls: Stack, key: string, fits: Value -> bool, now: int, i: nat, later: int)
    requires AnswersFirst(ls, key, fits, now, i) && EncodedOnly(ls[i])
    requires ls[i][key].deadline.Some? && now < ls[i][key].deadline.value && now <= later <= ls[i][key].deadline.value
    ensures AnswersFirst(MultiStep(ls, Op.Get(key, fits), now).0, key, fits, later, 0)
  {
    GetCopiesUp(ls, key, fits, now, i);
  }

  /** So counting in the last level right after a Get that was answered by it goes unseen
      until the deadline. */
  lemma CountingUnderACopy(ls: Stack, key: string, fits: Value -> bool, delta: int, now: int, later: int)
    requires |ls| > 1 && AnswersFirst(ls, key, fits, now, |ls| - 1) && EncodedOnly(ls[|ls| - 1])
    requires var d := ls[|ls| - 1][key].deadline; d.Some? && now < d.value && now <= later <= d.value
    ensures var once := MultiStep(ls, Op.Get(key, fits), now).0;
            var counted := MultiStep(once, Op.IncrBy(key, delta), now).0;
            MultiStep(counted, Op.Get(key, fits), later).1 == Found(ls[|ls| - 1][key].value)
  {
    hide Wrap64;
    var n := |ls| - 1;
    GetCopiesUp(ls, key, fits, now, n);
    var once := MultiStep(ls, Op.Get(key, fits), now).0;
    var counted := MultiStep(once, Op.IncrBy(key, delta), now).0;
    assert counted[0] == once[0];
    assert AnswersFirst(counted, key, fits, later, 0);
    FirstFitIs(counted, key, fits, later, 0);
  }

  ghost predicate HoldsFirst(ls: Stack, key: string, now: int, i: nat) {
    i < |ls| && Alive(ls[i], key, now) && forall j :: 0 <= j < i ==> !Alive(ls[j], key, now)
  }

  lemma FirstLiveIs(ls: Stack, key: string, now: int)
    ensures var i := FirstLive(ls, key, now);
            if i < |ls| then HoldsFirst(ls, key, now, i) else forall j :: 0 <= j < |ls| ==> !Alive(ls[j], key, now)
  {
    assert forall j :: 0 <= j < |ls| ==> (Live(ls[j], key, now) <==> Alive(ls[j], key, now));
  }

  lemma HoldsFirstUnique(ls: Stack, key: string, now: int, i: nat, j: nat)
    requires HoldsFirst(ls, key, now, i) && HoldsFirst(ls, key, now, j)
    ensures i == j
  {
  }

  /** The other reads look at the first level that holds the key, and change nothing. */
  lemma ReadsLookFromTheTop(ls: Stack, key: string, now: int)
    ensures MultiStep(ls, Op.GetRaw(key), now).0 == ls && MultiStep(ls, Op.Exists(key), now).0 == ls
    ensures (exists j :: 0 <= j < |ls| && Alive(ls[j], key, now)) <==> MultiStep(ls, Op.Exists(key), now).1 == Yes
    ensures MultiStep(ls, Op.Exists(key), now).1 in {Yes, No}
    ensures forall i: nat :: HoldsFirst(ls, key, now, i) ==> MultiStep(ls, Op.GetRaw(key), now).1 == Found(ls[i][key].value)
    ensures (forall j :: 0 <= j < |ls| ==> !Alive(ls[j], key, now)) ==> MultiStep(ls, Op.GetRaw(key), now).1 == NotFound
  {
    FirstLiveIs(ls, key, now);
    forall i: nat | HoldsFirst(ls, key, now, i)
      ensures MultiStep(ls, Op.GetRaw(key), now).1 == Found(ls[i][key].value)
    {
      assert FirstLive(ls, key, now) < |ls|;
      HoldsFirstUnique(ls, key, now, i, FirstLive(ls, key, now));
    }
  }

  lemma BatchLooksFromTheTop(ls: Stack, keys: seq<string>, now: int)
    ensures var (ms, a) := MultiStep(ls, Op.MGet(keys), now);
            ms == ls && a.Values? &&
            (forall k :: k in a.found <==> k in keys && exists j :: 0 <= j < |ls| && Alive(ls[j], k, now)) &&
            forall k, i: nat :: k in a.found && HoldsFirst(ls, k, now, i) ==> a.found[k] == ls[i][k].value
  {
    var found := MultiStep(ls, Op.MGet(keys), now).1.found;
    forall k ensures k in found <==> k in keys && exists j :: 0 <= j < |ls| && Alive(ls[j], k, now) {
      FirstLiveIs(ls, k, now);
    }
    forall k, i: nat | k in found && HoldsFirst(ls, k, now, i) ensures found[k] == ls[i][k].value {
      FirstLiveIs(ls, k, now);
      HoldsFirstUnique(ls, k, now, i, FirstLive(ls, k, now));
    }
  }

  /** TTL and Keys ask the last level alone. */
  lemma LastLevelAnswers(ls: Stack, key: string, pattern: string, now: int)
    requires |ls| > 0
    ensures MultiStep(ls, Op.TTL(key), now) == (ls, Step(ls[|ls| - 1], Op.TTL(key), now, 0).1)
    ensures MultiStep(ls, Op.Keys(pattern), now) == (ls, Step(ls[|ls| - 1], Op.Keys(pattern), now, 0).1)
  {
  }

  /** Without levels there is nothing to find. */
  lemma NoLevels(key: string, pattern: string, fits: Value -> bool, delta: int, v: Value, ttl: int, now: int)
    ensures MultiStep([], Op.Get(key, fits), now).1 == NotFound && MultiStep([], Op.Exists(key), now).1 == No
    ensures MultiStep([], Op.TTL(key), now).1 == Duration(-2) && MultiStep([], Op.Keys(pattern), now).1 == Names({})
    ensures MultiStep([], Op.IncrBy(key, delta), now).1 == Total(0) && MultiStep([], Op.SetNX(key, v, ttl), now).1 == No
    ensures MultiStep([], Op.Set(key, v, ttl), now).1 == Done
  {
  }

  // ------------------------------------------------- the stack: writes

  /** Set, MSet, Delete, MDelete and Expire do to every level what they do to a cache. */
  lemma WritesReachEveryLevel(ls: Stack, op: Op, now: int, i: nat)
    requires op.Set? || op.MSet? || op.Delete? || op.MDelete? || op.Expire?
    requires i < |ls|
    ensures var (ms, a) := MultiStep(ls, op, now);
            |ms| == |ls| && (ms[i], a) == Step(ls[i], op, now, i)
  {
  }

  /** Counting is done in the last level alone. */
  lemma CountingIsInTheLast(ls: Stack, key: string, delta: int, now: int)
    requires |ls| > 0
    ensures var (ms, a) := MultiStep(ls, Op.IncrBy(key, delta), now);
            |ms| == |ls| && (forall j :: 0 <= j < |ls| - 1 ==> ms[j] == ls[j]) &&
            (ms[|ls| - 1], a) == Step(ls[|ls| - 1], Op.IncrBy(key, delta), now, 0)
  {
    hide Wrap64;
  }

  /** SetNX asks the last level; where that stores, all the others are set too. */
  lemma SetNXAsksTheLast(ls: Stack, key: string, v: Value, ttl: int, now: int)
    requires |ls| > 0
    ensures var (ms, a) := MultiStep(ls, Op.SetNX(key, v, ttl), now);
            |ms| == |ls| &&
            if Alive(ls[|ls| - 1], key, now) then ms == ls && a == No
            else if v.Unencodable? then ms == ls && a == EncodeError
            else a == Yes && forall j :: 0 <= j < |ls| ==> ms[j] == Step(ls[j], Op.Set(key, v, ttl), now, 0).0
  {
  }

  lemma SweepReachesItsLevel(ls: Stack, level: nat, now: int, i: nat)
    requires i < |ls|
    ensures MultiStep(ls, Op.Sweep(level), now).0[i] == Step(ls[i], Op.Sweep(level), now, i).0
  {
  }
}
