/**
 The stack of caches of pkg/cache/multi.go, every level being a memory cache.  Reads go
 down the levels and copy what they find upwards; writes go to all levels; counters live
 in the last one.  The last level is the authority the others must agree with.
 */
module MultiLevelCaches {
  import opened Prelude
  import opened MemoryCaches

  type Stack = seq<Store>

  /** The first level from `i` on that holds the key alive, or |ls|. */
  function FirstLive(ls: Stack, key: string, now: int, i: nat := 0): (found: nat)
    requires i <= |ls|
    ensures i <= found <= |ls|
    ensures found < |ls| ==> Live(ls[found], key, now)
    ensures forall j :: i <= j < found ==> !Live(ls[j], key, now)
    decreases |ls| - i
  {
    if i == |ls| || Live(ls[i], key, now) then i else FirstLive(ls, key, now, i + 1)
  }

  /** The first level from `i` on whose value also decodes into the caller's variable. */
  function FirstFit(ls: Stack, key: string, fits: Value -> bool, now: int, i: nat := 0): (found: nat)
    requires i <= |ls|
    ensures i <= found <= |ls|
    ensures found < |ls| ==> Live(ls[found], key, now) && fits(ls[found][key].value)
    ensures forall j :: i <= j < found ==> !(Live(ls[j], key, now) && fits(ls[j][key].value))
    decreases |ls| - i
  {
    if i == |ls| || (Live(ls[i], key, now) && fits(ls[i][key].value)) then i
    else FirstFit(ls, key, fits, now, i + 1)
  }

  /** Level i has the key; the levels above get a copy that lives as long. */
  function Backfilled(ls: Stack, i: nat, key: string, now: int): Stack
    requires i < |ls| && Live(ls[i], key, now)
  {
    var ttl := TtlOf(ls[i], key, now);
    if ttl > 0 then
      seq(|ls|, j requires 0 <= j < |ls| =>
        if j < i then Put(ls[j], key, ls[i][key].value, ttl, now) else ls[j])
    else ls
  }

  function MultiBatch(ls: Stack, keys: seq<string>, now: int): map<string, Value> {
    map key | key in keys && FirstLive(ls, key, now) < |ls|
            :: ls[FirstLive(ls, key, now)][key].value
  }

  function Everywhere(ls: Stack, op: Op, now: int): Stack {
    seq(|ls|, i requires 0 <= i < |ls| => Step(ls[i], op, now, i).0)
  }

  function MultiStep(ls: Stack, op: Op, now: int): (Stack, Answer) {
    var n := |ls|;
    match op
    case Get(key, fits) =>
      var i := FirstFit(ls, key, fits, now);
      if i == n then (ls, NotFound) else (Backfilled(ls, i, key, now), Found(ls[i][key].value))
    case GetRaw(key) =>
      var i := FirstLive(ls, key, now);
      (ls, if i == n then NotFound else Found(ls[i][key].value))
    case Exists(key) => (ls, if FirstLive(ls, key, now) == n then No else Yes)
    case MGet(keys) => (ls, Values(MultiBatch(ls, keys, now)))
    case TTL(key) => (ls, Duration(if n == 0 then -2 else TtlOf(ls[n - 1], key, now)))
    case Keys(pattern) => (ls, Names(if n == 0 then {} else KeysOf(ls[n - 1], pattern, now)))
    case Set(_, v, _) => (Everywhere(ls, op, now), if n > 0 && v.Unencodable? then EncodeError else Done)
    case MSet(items, _, _) => (Everywhere(ls, op, now), if n > 0 && !Encodable(items) then EncodeError else Done)
    case Delete(_) => (Everywhere(ls, op, now), Done)
    case MDelete(_) => (Everywhere(ls, op, now), Done)
    case Expire(_, _) => (Everywhere(ls, op, now), Done)
    case IncrBy(_, _) =>
      if n == 0 then (ls, Total(0)) else
        var (last, a) := Step(ls[n - 1], op, now, n - 1);
        (ls[n - 1 := last], a)
    case SetNX(key, v, ttl) =>
      if n == 0 then (ls, No) else
        var (last, a) := Step(ls[n - 1], op, now, n - 1);
        if a == Yes then (Everywhere(ls, Op.Set(key, v, ttl), now), a) else (ls, a)
    case Sweep(level) => (Everywhere(ls, op, now), Done)
  }

  /** What the levels above `i` contribute to a batched read. */
  function BatchAbove(ls: Stack, keys: seq<string>, now: int, i: nat): map<string, Value> {
    map key | key in keys && FirstLive(ls, key, now) < i && i <= |ls|
            :: ls[FirstLive(ls, key, now)][key].value
  }

  ghost predicate StillMissing(ls: Stack, keys: seq<string>, now: int, i: nat, remaining: seq<string>) {
    forall key :: key in remaining <==> key in keys && FirstLive(ls, key, now) >= i
  }

  lemma NothingRead(ls: Stack, keys: seq<string>, now: int)
    ensures StillMissing(ls, keys, now, 0, keys) && BatchAbove(ls, keys, now, 0) == map[]
    ensures BatchAbove(ls, keys, now, |ls|) == MultiBatch(ls, keys, now)
  {
  }

  lemma BatchKeys(s: Store, keys: seq<string>, now: int)
    ensures forall key :: key in Batch(s, keys, now) ==> key in keys
  {
  }

  lemma NothingMissing(ls: Stack, keys: seq<string>, now: int, i: nat, remaining: seq<string>)
    requires i <= |ls| && StillMissing(ls, keys, now, i, remaining) && |remaining| == 0
    ensures BatchAbove(ls, keys, now, i) == MultiBatch(ls, keys, now)
  {
    forall key | key in keys ensures FirstLive(ls, key, now) < i {
      assert key !in remaining;
    }
  }

  lemma NextLevel(ls: Stack, keys: seq<string>, now: int, i: nat,
                  remaining: seq<string>, notFound: seq<string>)
    requires i < |ls| && StillMissing(ls, keys, now, i, remaining)
    requires forall key :: key in notFound <==> key in remaining && key !in Batch(ls[i], remaining, now)
    ensures StillMissing(ls, keys, now, i + 1, notFound)
    ensures BatchAbove(ls, keys, now, i + 1)
              == BatchAbove(ls, keys, now, i) + Batch(ls[i], remaining, now)
  {
    forall key | key in keys
      ensures FirstLive(ls, key, now) == i <==> key in remaining && Live(ls[i], key, now)
    {
    }
  }

  class MultiLevelCache {
    const levels: seq<MemoryCache>

    /** The same cache is not listed twice. */
    ghost predicate Valid() {
      forall i, j :: 0 <= i < j < |levels| ==> levels[i] != levels[j]
    }

    ghost function Abs(): Stack
      reads levels
    {
      seq(|levels|, i requires 0 <= i < |levels| reads levels => levels[i].data)
    }

    constructor (levels: seq<MemoryCache>)
      requires forall i, j :: 0 <= i < j < |levels| ==> levels[i] != levels[j]
      ensures Valid() && this.levels == levels
    {
      this.levels := levels;
    }

    /** An error of a level, not found or not decoded, passes on to the next. */
    method Get(key: string, fits: Value -> bool, now: int) returns (r: Answer)
      requires Valid()
      modifies levels
      ensures (Abs(), r) == MultiStep(old(Abs()), Op.Get(key, fits), now)
    {
      ghost var ls := Abs();
      for i := 0 to |levels|
        invariant Abs() == ls && FirstFit(ls, key, fits, now) == FirstFit(ls, key, fits, now, i)
      {
        assert levels[i].data == ls[i];
        r := levels[i].Get(key, fits, now);
        if r.Found? {
          if i > 0 {
            var ttl := levels[i].TTL(key, now);
            if ttl > 0 {
              for j := 0 to i
                invariant forall l :: 0 <= l < j ==> levels[l].data == Put(ls[l], key, r.value, ttl, now)
                invariant forall l :: j <= l < |levels| ==> levels[l].data == ls[l]
              {
                var _ := levels[j].Set(key, r.value, ttl, now);
              }
            }
          }
          assert Abs() == Backfilled(ls, i, key, now);
          return;
        }
      }
      r := NotFound;
    }

    method GetRaw(key: string, now: int) returns (r: Answer)
      ensures (Abs(), r) == MultiStep(Abs(), Op.GetRaw(key), now)
    {
      ghost var ls := Abs();
      for i := 0 to |levels|
        invariant FirstLive(ls, key, now) == FirstLive(ls, key, now, i)
      {
        assert levels[i].data == ls[i];
        r := levels[i].GetRaw(key, now);
        if r.Found? {
          return;
        }
      }
      r := NotFound;
    }

    method Exists(key: string, now: int) returns (r: bool)
      ensures r == (FirstLive(Abs(), key, now) < |Abs()|)
    {
      ghost var ls := Abs();
      for i := 0 to |levels|
        invariant FirstLive(ls, key, now) == FirstLive(ls, key, now, i)
      {
        assert levels[i].data == ls[i];
        r := levels[i].Exists(key, now);
        if r {
          return;
        }
      }
      r := false;
    }

    /** Each level is asked only for the keys no level above it has. */
    method MGet(keys: seq<string>, now: int) returns (result: map<string, Value>)
      ensures result == MultiBatch(Abs(), keys, now)
    {
      hide FirstLive, StillMissing, BatchAbove, MultiBatch, Batch;
      ghost var ls := Abs();
      result := map[];
      var remaining := keys;
      NothingRead(ls, keys, now);
      for i := 0 to |levels|
        invariant StillMissing(ls, keys, now, i, remaining)
        invariant result == BatchAbove(ls, keys, now, i)
      {
        if |remaining| == 0 {
          NothingMissing(ls, keys, now, i, remaining);
          break;
        }
        assert levels[i].data == ls[i];
        var values := levels[i].MGet(remaining, now);
        var notFound := [];
        ghost var before := result;
        for k := 0 to |remaining|
          invariant forall key :: key in notFound <==> key in remaining[..k] && key !in values
          invariant result == before + map key | key in remaining[..k] && key in values :: values[key]
        {
          var key := remaining[k];
          assert remaining[..k + 1] == remaining[..k] + [key];
          if key in values {
            result := result[key := values[key]];
          } else {
            notFound := notFound + [key];
          }
        }
        assert remaining[..|remaining|] == remaining;
        BatchKeys(ls[i], remaining, now);
        assert result == before + values;
        NextLevel(ls, keys, now, i, remaining, notFound);
        remaining := notFound;
      }
    }

    method TTL(key: string, now: int) returns (r: int)
      ensures MultiStep(Abs(), Op.TTL(key), now) == (Abs(), Duration(r))
    {
      if |levels| > 0 {
        r := levels[|levels| - 1].TTL(key, now);
      } else {
        r := -2;
      }
    }

    method Keys(pattern: string, now: int) returns (r: set<string>)
      ensures MultiStep(Abs(), Op.Keys(pattern), now) == (Abs(), Names(r))
    {
      if |levels| > 0 {
        r := levels[|levels| - 1].Keys(pattern, now);
      } else {
        r := {};
      }
    }

    method Set(key: string, value: Value, ttl: int, now: int) returns (ok: bool)
      requires Valid()
      modifies levels
      ensures (Abs(), if ok then Done else EncodeError) == MultiStep(old(Abs()), Op.Set(key, value, ttl), now)
    {
      ghost var ls := Abs();
      ok := true;
      for i := 0 to |levels|
        invariant forall l :: 0 <= l < i ==> levels[l].data == Put(ls[l], key, value, ttl, now)
        invariant forall l :: i <= l < |levels| ==> levels[l].data == ls[l]
        invariant ok == (i == 0 || !value.Unencodable?)
      {
        var fine := levels[i].Set(key, value, ttl, now);
        if !fine {
          ok := false;
        }
      }
      assert Abs() == Everywhere(ls, Op.Set(key, value, ttl), now);
    }

    method MSet(items: map<string, Value>, ttl: int, now: int) returns (ok: bool, ghost early: seq<set<string>>)
      requires Valid()
      modifies levels
      ensures (Abs(), if ok then Done else EncodeError) == MultiStep(old(Abs()), Op.MSet(items, ttl, early), now)
    {
      ghost var ls := Abs();
      ok, early := true, [];
      for i := 0 to |levels|
        invariant |early| == i
        invariant forall l :: 0 <= l < i ==> levels[l].data == PutAll(ls[l], items, ttl, now, early[l])
        invariant forall l :: i <= l < |levels| ==> levels[l].data == ls[l]
        invariant ok == (i == 0 || Encodable(items))
      {
        var fine, e := levels[i].MSet(items, ttl, now);
        early := early + [e];
        if !fine {
          ok := false;
        }
      }
      assert Abs() == Everywhere(ls, Op.MSet(items, ttl, early), now);
    }

    method Delete(key: string, now: int)
      requires Valid()
      modifies levels
      ensures Abs() == MultiStep(old(Abs()), Op.Delete(key), now).0
    {
      ghost var ls := Abs();
      for i := 0 to |levels|
        invariant forall l :: 0 <= l < i ==> levels[l].data == Without(ls[l], [key])
        invariant forall l :: i <= l < |levels| ==> levels[l].data == ls[l]
      {
        levels[i].Delete(key);
      }
      assert Abs() == Everywhere(ls, Op.Delete(key), now);
    }

    method MDelete(keys: seq<string>, now: int)
      requires Valid()
      modifies levels
      ensures Abs() == MultiStep(old(Abs()), Op.MDelete(keys), now).0
    {
      ghost var ls := Abs();
      for i := 0 to |levels|
        invariant forall l :: 0 <= l < i ==> levels[l].data == Without(ls[l], keys)
        invariant forall l :: i <= l < |levels| ==> levels[l].data == ls[l]
      {
        levels[i].MDelete(keys);
      }
      assert Abs() == Everywhere(ls, Op.MDelete(keys), now);
    }

    method IncrBy(key: string, value: int, now: int) returns (r: int)
      requires Valid()
      modifies levels
      ensures (Abs(), Total(r)) == MultiStep(old(Abs()), Op.IncrBy(key, value), now)
    {
      ghost var ls := Abs();
      if |levels| > 0 {
        r := levels[|levels| - 1].IncrBy(key, value, now);
        assert Abs() == MultiStep(ls, Op.IncrBy(key, value), now).0;
      } else {
        r := 0;
      }
    }

    method SetNX(key: string, value: Value, ttl: int, now: int) returns (r: Answer)
      requires Valid()
      modifies levels
      ensures (Abs(), r) == MultiStep(old(Abs()), Op.SetNX(key, value, ttl), now)
    {
      ghost var ls := Abs();
      if |levels| == 0 {
        return No;
      }
      var last := |levels| - 1;
      r := levels[last].SetNX(key, value, ttl, now);
      assert (levels[last].data, r) == Step(ls[last], Op.SetNX(key, value, ttl), now, last);
      if r == Yes {
        for i := 0 to last
          invariant forall l :: 0 <= l < i ==> levels[l].data == Put(ls[l], key, value, ttl, now)
          invariant forall l :: i <= l < last ==> levels[l].data == ls[l]
          invariant levels[last].data == Put(ls[last], key, value, ttl, now)
        {
          var _ := levels[i].Set(key, value, ttl, now);
        }
        assert Abs() == Everywhere(ls, Op.Set(key, value, ttl), now);
      } else {
        assert Abs() == ls;
      }
    }

    method Expire(key: string, ttl: int, now: int)
      requires Valid()
      modifies levels
      ensures Abs() == MultiStep(old(Abs()), Op.Expire(key, ttl), now).0
    {
      ghost var ls := Abs();
      for i := 0 to |levels|
        invariant forall l :: 0 <= l < i ==> levels[l].data == Postponed(ls[l], key, ttl, now)
        invariant forall l :: i <= l < |levels| ==> levels[l].data == ls[l]
      {
        levels[i].Expire(key, ttl, now);
      }
      assert Abs() == Everywhere(ls, Op.Expire(key, ttl), now);
    }
  }

  // ------------------------------------------------- coherence

  predicate NoLater(d: Option<int>, e: Option<int>) {
    e.None? || (d.Some? && d.value <= e.value)
  }

  /** What one upper entry must satisfy against the last level: if alive, the last level
      still has the key; and wherever the last level has it, alive or not, the values agree
      and the upper entry ends no later. */
  predicate EntryCoherent(it: Item, last: Store, key: string, now: int) {
    (!Expired(it, now) ==> key in last) &&
    (key in last ==> it.value == last[key].value && NoLater(it.deadline, last[key].deadline))
  }

  ghost predicate Coherent(ls: Stack, now: int) {
    |ls| > 0 &&
    forall i, key :: 0 <= i < |ls| - 1 && key in ls[i] ==>
      EntryCoherent(ls[i][key], ls[|ls| - 1], key, now)
  }

  /** A live upper entry has the value of a live last-level entry and does not outlive it. */
  lemma CoherentMeansAgreement(ls: Stack, now: int, later: int, i: nat, key: string)
    requires Coherent(ls, now) && now <= later
    requires i < |ls| && Live(ls[i], key, later)
    ensures var last := ls[|ls| - 1];
            Live(last, key, later) && ls[i][key].value == last[key].value &&
            NoLater(ls[i][key].deadline, last[key].deadline)
  {
    if i < |ls| - 1 {
      assert EntryCoherent(ls[i][key], ls[|ls| - 1], key, now);
    }
  }

  lemma CoherentLater(ls: Stack, now: int, later: int)
    requires Coherent(ls, now) && now <= later
    ensures Coherent(ls, later)
  {
    forall i, key | 0 <= i < |ls| - 1 && key in ls[i]
      ensures EntryCoherent(ls[i][key], ls[|ls| - 1], key, later)
    {
      assert EntryCoherent(ls[i][key], ls[|ls| - 1], key, now);
    }
  }

  /** The three operations that can break coherence, and when they do not. */
  ghost predicate Guard(ls: Stack, op: Op, now: int)
    requires |ls| > 0
  {
    match op
    case IncrBy(key, delta) => IncrSafe(ls, key, delta, now)
    case Expire(key, ttl) => ExpireSafe(ls, key, ttl)
    case MSet(items, ttl, _) => MSetSafe(ls, items, ttl, now)
    case _ => true
  }

  /** No upper level holds the key, unless with the very number that is counted to. */
  ghost predicate IncrSafe(ls: Stack, key: string, delta: int, now: int)
    requires |ls| > 0
  {
    forall i :: 0 <= i < |ls| - 1 && key in ls[i] ==>
      ls[i][key].value == Num(Incremented(ls[|ls| - 1], key, delta, now))
  }

  /** The last level still holds the key, or no other level does. */
  ghost predicate ExpireSafe(ls: Stack, key: string, ttl: int)
    requires |ls| > 0
  {
    key in ls[|ls| - 1] || ttl < 0 || forall i :: 0 <= i < |ls| - 1 ==> key !in ls[i]
  }

  /** All is stored everywhere; or there is but one level; or storing what can be stored
      changes nothing that another level could notice: the last level has the value for as
      long already, and the copies above have it for no longer. */
  ghost predicate MSetSafe(ls: Stack, items: map<string, Value>, ttl: int, now: int)
    requires |ls| > 0
  {
    Encodable(items) || |ls| == 1 ||
    forall key :: key in items && !items[key].Unencodable? ==> PutSafe(ls, key, Item(items[key], Deadline(ttl, now)))
  }

  ghost predicate PutSafe(ls: Stack, key: string, it: Item)
    requires |ls| > 0
  {
    var n := |ls| - 1;
    key in ls[n] && ls[n][key].value == it.value && NoLater(it.deadline, ls[n][key].deadline) &&
    forall i :: 0 <= i < n && key in ls[i] ==> ls[i][key].value == it.value && NoLater(ls[i][key].deadline, it.deadline)
  }

  lemma EverywhereCoherent(ls: Stack, op: Op, now: int)
    requires Coherent(ls, now) && Guard(ls, op, now)
    requires op.Set? || op.MSet? || op.Delete? || op.MDelete? || op.Expire? || op.Sweep?
    ensures Coherent(Everywhere(ls, op, now), now)
  {
    var ms, n := Everywhere(ls, op, now), |ls| - 1;
    forall i, key | 0 <= i < n && key in ms[i]
      ensures EntryCoherent(ms[i][key], ms[n], key, now)
    {
      if key in ls[i] { assert EntryCoherent(ls[i][key], ls[n], key, now); }
      match op
      case Set(_, _, _) =>
      case MSet(_, _, _) =>
      case Delete(_) =>
      case MDelete(_) =>
      case Expire(_, _) =>
      case Sweep(_) =>
    }
  }

  lemma BackfillCoherent(ls: Stack, i: nat, key: string, now: int)
    requires Coherent(ls, now) && i < |ls| && Live(ls[i], key, now)
    ensures Coherent(Backfilled(ls, i, key, now), now)
  {
    var ms, n := Backfilled(ls, i, key, now), |ls| - 1;
    CoherentMeansAgreement(ls, now, now, i, key);
    forall j, k | 0 <= j < n && k in ms[j]
      ensures EntryCoherent(ms[j][k], ms[n], k, now)
    {
      if k in ls[j] { assert EntryCoherent(ls[j][k], ls[n], k, now); }
    }
  }

  /** Every operation, of any level's sweep and any passage of time, keeps the levels
      coherent under the guard. */
  lemma CoherencePreserved(ls: Stack, op: Op, before: int, now: int)
    requires Coherent(ls, before) && before <= now && Guard(ls, op, now)
    ensures Coherent(MultiStep(ls, op, now).0, now)
  {
    CoherentLater(ls, before, now);
    var n := |ls| - 1;
    match op
    case Get(key, fits) =>
      var i := FirstFit(ls, key, fits, now);
      if i <= n { BackfillCoherent(ls, i, key, now); }
    case SetNX(key, v, ttl) =>
      EverywhereCoherent(ls, Op.Set(key, v, ttl), now);
    case IncrBy(key, delta) =>
      IncrExact(ls, key, delta, now);
    case GetRaw(_) => case Exists(_) => case MGet(_) => case TTL(_) => case Keys(_) =>
    case Set(_, _, _) => EverywhereCoherent(ls, op, now);
    case MSet(_, _, _) => EverywhereCoherent(ls, op, now);
    case Delete(_) => EverywhereCoherent(ls, op, now);
    case MDelete(_) => EverywhereCoherent(ls, op, now);
    case Expire(_, _) => EverywhereCoherent(ls, op, now);
    case Sweep(_) => EverywhereCoherent(ls, op, now);
  }

  /** The guard on counting is exact. */
  lemma IncrExact(ls: Stack, key: string, delta: int, now: int)
    requires Coherent(ls, now)
    ensures Coherent(MultiStep(ls, Op.IncrBy(key, delta), now).0, now) <==> IncrSafe(ls, key, delta, now)
  {
    var ms, n := MultiStep(ls, Op.IncrBy(key, delta), now).0, |ls| - 1;
    if IncrSafe(ls, key, delta, now) {
      forall i, k | 0 <= i < n && k in ms[i]
        ensures EntryCoherent(ms[i][k], ms[n], k, now)
      {
        assert EntryCoherent(ls[i][k], ls[n], k, now);
      }
    } else {
      var i :| 0 <= i < n && key in ls[i] && ls[i][key].value != Num(Incremented(ls[n], key, delta, now));
      assert !EntryCoherent(ms[i][key], ms[n], key, now);
    }
  }

  /** What breaking it costs: while an upper level answers for the key, counting in the last
      level is not seen by Get. */
  lemma CountingBelowACopyIsNotSeen(ls: Stack, key: string, delta: int, fits: Value -> bool, now: int)
    requires |ls| > 0 && FirstFit(ls, key, fits, now) < |ls| - 1
    ensures var ms := MultiStep(ls, Op.IncrBy(key, delta), now).0;
            MultiStep(ms, Op.Get(key, fits), now).1 == MultiStep(ls, Op.Get(key, fits), now).1
  {
    var i := FirstFit(ls, key, fits, now);
    var ms := MultiStep(ls, Op.IncrBy(key, delta), now).0;
    assert forall j :: 0 <= j < i ==> !(Live(ms[j], key, now) && fits(ms[j][key].value));
    assert Live(ms[i], key, now);
    assert FirstFit(ms, key, fits, now) == i;
  }

  /** The guard on Expire is exact. */
  lemma ExpireExact(ls: Stack, key: string, ttl: int, now: int)
    requires Coherent(ls, now)
    ensures Coherent(MultiStep(ls, Op.Expire(key, ttl), now).0, now) <==> ExpireSafe(ls, key, ttl)
  {
    var ms, n := MultiStep(ls, Op.Expire(key, ttl), now).0, |ls| - 1;
    if ExpireSafe(ls, key, ttl) {
      EverywhereCoherent(ls, Op.Expire(key, ttl), now);
    } else {
      var i :| 0 <= i < n && key in ls[i];
      assert !EntryCoherent(ms[i][key], ms[n], key, now);
    }
  }

  /** An MSet that meets a value it cannot encode may stop at different points in different
      levels. */
  ghost predicate CoherentHoweverItStops(ls: Stack, items: map<string, Value>, ttl: int, now: int) {
    forall early :: Coherent(MultiStep(ls, Op.MSet(items, ttl, early), now).0, now)
  }

  lemma PartlyPut(s: Store, items: map<string, Value>, ttl: int, now: int, key: string, stored: bool)
    requires !Encodable(items) && key in items && !items[key].Unencodable?
    ensures var r := PutAll(s, items, ttl, now, if stored then {key} else {});
            if stored then key in r && r[key] == Item(items[key], Deadline(ttl, now))
            else r == s
  {
  }

  /** Only the level `at` gets as far as storing the key. */
  lemma StopsAt(ls: Stack, items: map<string, Value>, ttl: int, now: int, key: string, at: nat)
    returns (early: seq<set<string>>)
    requires !Encodable(items) && key in items && !items[key].Unencodable? && at < |ls|
    ensures var ms := MultiStep(ls, Op.MSet(items, ttl, early), now).0;
            |ms| == |ls| && key in ms[at] && ms[at][key] == Item(items[key], Deadline(ttl, now)) &&
            forall i :: 0 <= i < |ls| && i != at ==> ms[i] == ls[i]
  {
    hide Encodable, PutAll, Deadline;
    early := seq(|ls|, j => if j == at then {key} else {});
    forall i | 0 <= i < |ls|
      ensures Step(ls[i], Op.MSet(items, ttl, early), now, i).0
           == PutAll(ls[i], items, ttl, now, if i == at then {key} else {})
    {
    }
    forall i | 0 <= i < |ls| { PartlyPut(ls[i], items, ttl, now, key, i == at); }
  }

  lemma UnsafePut(ls: Stack, items: map<string, Value>, ttl: int, now: int, key: string) returns (early: seq<set<string>>)
    requires Coherent(ls, now) && |ls| > 1 && !Encodable(items)
    requires key in items && !items[key].Unencodable? && !PutSafe(ls, key, Item(items[key], Deadline(ttl, now)))
    ensures !Coherent(MultiStep(ls, Op.MSet(items, ttl, early), now).0, now)
  {
    hide MultiStep, Encodable;
    var n, it := |ls| - 1, Item(items[key], Deadline(ttl, now));
    if key in ls[n] && ls[n][key].value == it.value && NoLater(it.deadline, ls[n][key].deadline) {
      var i :| 0 <= i < n && key in ls[i] &&
               !(ls[i][key].value == it.value && NoLater(ls[i][key].deadline, it.deadline));
      early := StopsAt(ls, items, ttl, now, key, n);
      var ms := MultiStep(ls, Op.MSet(items, ttl, early), now).0;
      assert !EntryCoherent(ms[i][key], ms[n], key, now);
    } else {
      early := StopsAt(ls, items, ttl, now, key, 0);
      var ms := MultiStep(ls, Op.MSet(items, ttl, early), now).0;
      assert !EntryCoherent(ms[0][key], ms[n], key, now);
    }
  }

  /** The guard on MSet is exact: wherever the levels stop they stay coherent. */
  lemma MSetExact(ls: Stack, items: map<string, Value>, ttl: int, now: int)
    requires Coherent(ls, now)
    ensures CoherentHoweverItStops(ls, items, ttl, now) <==> MSetSafe(ls, items, ttl, now)
  {
    if MSetSafe(ls, items, ttl, now) {
      forall early ensures Coherent(MultiStep(ls, Op.MSet(items, ttl, early), now).0, now) {
        EverywhereCoherent(ls, Op.MSet(items, ttl, early), now);
      }
    } else {
      var key :| key in items && !items[key].Unencodable? && !PutSafe(ls, key, Item(items[key], Deadline(ttl, now)));
      var early := UnsafePut(ls, items, ttl, now, key);
    }
  }

  /** For instance: two empty levels of which only the upper one gets as far as "a". */
  lemma PartialMSetBreaksCoherence()
    ensures var ls: Stack := [map[], map[]];
            var op := Op.MSet(map["a" := Num(1), "b" := Unencodable], 0, [{"a"}, {}]);
            Coherent(ls, 0) && !Coherent(MultiStep(ls, op, 0).0, 0)
  {
    var ls: Stack := [map[], map[]];
    var items := map["a" := Num(1), "b" := Unencodable];
    var op := Op.MSet(items, 0, [{"a"}, {}]);
    var ms := MultiStep(ls, op, 0).0;
    assert items["b"].Unencodable?;
    assert "a" in ms[0] && "a" !in ms[1];
    assert !EntryCoherent(ms[0]["a"], ms[1], "a", 0);
  }

  // ------------------------------------------------- the stack answers as its last level

  lemma BatchAgrees(ls: Stack, keys: seq<string>, now: int)
    requires Coherent(ls, now)
    ensures MultiBatch(ls, keys, now) == Batch(ls[|ls| - 1], keys, now)
  {
    forall key | key in keys
      ensures FirstLive(ls, key, now) < |ls| <==> Live(ls[|ls| - 1], key, now)
      ensures FirstLive(ls, key, now) < |ls| ==>
                ls[FirstLive(ls, key, now)][key].value == ls[|ls| - 1][key].value
    {
      FirstLiveAgrees(ls, key, now);
    }
  }

  lemma FirstLiveAgrees(ls: Stack, key: string, now: int)
    requires Coherent(ls, now)
    ensures var i := FirstLive(ls, key, now);
            if i < |ls| then Live(ls[|ls| - 1], key, now) && ls[i][key].value == ls[|ls| - 1][key].value
            else !Live(ls[|ls| - 1], key, now)
  {
    var i := FirstLive(ls, key, now);
    if i < |ls| { CoherentMeansAgreement(ls, now, now, i, key); }
  }

  lemma FirstFitAgrees(ls: Stack, key: string, fits: Value -> bool, now: int)
    requires Coherent(ls, now)
    ensures var i, last := FirstFit(ls, key, fits, now), ls[|ls| - 1];
            if i < |ls| then Live(last, key, now) && ls[i][key].value == last[key].value && fits(last[key].value)
            else !(Live(last, key, now) && fits(last[key].value))
  {
    var i := FirstFit(ls, key, fits, now);
    if i < |ls| { CoherentMeansAgreement(ls, now, now, i, key); }
  }

  /** The stack does not tell a value that cannot be decoded from one that is not there. */
  function AsStack(a: Answer): Answer {
    if a.DecodeError? then NotFound else a
  }

  /** One operation on coherent levels answers, and changes the last level, exactly as the
      same operation on the last level alone, up to that. */
  lemma AnswersAsLastLevel(ls: Stack, op: Op, now: int)
    requires Coherent(ls, now)
    ensures var (ms, a) := MultiStep(ls, op, now);
            var (last, b) := Step(ls[|ls| - 1], op, now, |ls| - 1);
            |ms| == |ls| && ms[|ls| - 1] == last && a == AsStack(b)
  {
    match op
    case Get(key, fits) => FirstFitAgrees(ls, key, fits, now);
    case GetRaw(key) => FirstLiveAgrees(ls, key, now);
    case Exists(key) => FirstLiveAgrees(ls, key, now);
    case MGet(keys) => BatchAgrees(ls, keys, now);
    case _ =>
  }

  function MultiAnswers(ls: Stack, es: seq<Event>): seq<Answer>
    decreases |es|
  {
    if |es| == 0 then [] else
      var (next, a) := MultiStep(ls, es[0].op, es[0].at);
      (if es[0].op.Sweep? then [] else [a]) + MultiAnswers(next, es[1..])
  }

  function MultiAfter(ls: Stack, es: seq<Event>): (r: Stack)
    ensures |r| == |ls|
    decreases |es|
  {
    if |es| == 0 then ls else MultiAfter(MultiStep(ls, es[0].op, es[0].at).0, es[1..])
  }

  ghost predicate Guarded(ls: Stack, es: seq<Event>)
    requires |ls| > 0
    decreases |es|
  {
    |es| > 0 ==> Guard(ls, es[0].op, es[0].at) &&
                 Guarded(MultiStep(ls, es[0].op, es[0].at).0, es[1..])
  }

  function AllAsStack(answers: seq<Answer>): seq<Answer> {
    if |answers| == 0 then [] else [AsStack(answers[0])] + AllAsStack(answers[1..])
  }

  /** Over every guarded run the stack of levels is indistinguishable from its last level
      used on its own, up to that. */
  lemma {:induction false} RefinesLastLevel(ls: Stack, es: seq<Event>, from: int)
    requires |ls| > 0 && Coherent(ls, from) && Chronological(from, es) && Guarded(ls, es)
    ensures MultiAnswers(ls, es) == AllAsStack(Answers(ls[|ls| - 1], es, |ls| - 1))
    decreases |es|
  {
    if |es| > 0 {
      hide MultiStep, Step, Guard, Coherent;
      var op, now := es[0].op, es[0].at;
      CoherentLater(ls, from, now);
      CoherencePreserved(ls, op, from, now);
      AnswersAsLastLevel(ls, op, now);
      RefinesLastLevel(MultiStep(ls, op, now).0, es[1..], now);
      var (next, b) := Step(ls[|ls| - 1], op, now, |ls| - 1);
      var rest := Answers(next, es[1..], |ls| - 1);
      assert ([b] + rest)[1..] == rest && [] + rest == rest;
    }
  }

  function EndOf(es: seq<Event>, from: int): int {
    if |es| == 0 then from else es[|es| - 1].at
  }

  lemma {:induction false} CoherentThroughout(ls: Stack, es: seq<Event>, from: int)
    requires |ls| > 0 && Coherent(ls, from) && Chronological(from, es) && Guarded(ls, es)
    ensures Coherent(MultiAfter(ls, es), EndOf(es, from))
    decreases |es|
  {
    if |es| > 0 {
      hide MultiStep, Step, Guard, Coherent;
      var op, now := es[0].op, es[0].at;
      CoherencePreserved(ls, op, from, now);
      AnswersAsLastLevel(ls, op, now) by { CoherentLater(ls, from, now); }
      CoherentThroughout(MultiStep(ls, op, now).0, es[1..], now);
    }
  }

  /** Together with the law of the single cache: the stack refines the simple timed map. */
  lemma StackRefinesTimedMap(ls: Stack, es: seq<Event>, from: int)
    requires |ls| > 0 && Coherent(ls, from) && Chronological(from, es) && Guarded(ls, es)
    requires NeverRevives(ls[|ls| - 1], es, |ls| - 1)
    ensures MultiAnswers(ls, es) == AllAsStack(TimedAnswers(Purge(ls[|ls| - 1], from), es, |ls| - 1))
  {
    hide MultiStep, Step, Guard;
    RefinesLastLevel(ls, es, from);
    RefinesTimedMap(ls[|ls| - 1], es, from, |ls| - 1);
  }

  // ------------------------------------------------- counters

  /** Operations that may be applied to a counter: any but those that give it a deadline
      or write it to every level. */
  predicate FitForCounter(op: Op, key: string) {
    match op
    case Set(k, _, _) => k != key
    case SetNX(k, _, _) => k != key
    case Expire(k, _) => k != key
    case MSet(items, _, _) => key !in items
    case _ => true
  }

  /** Only the last level has the key, and for good. */
  ghost predicate CounterOnly(ls: Stack, key: string) {
    |ls| > 0 && (forall i :: 0 <= i < |ls| - 1 ==> key !in ls[i]) &&
    (key in ls[|ls| - 1] ==> ls[|ls| - 1][key].deadline.None?)
  }

  lemma CounterStep(ls: Stack, key: string, op: Op, now: int)
    requires CounterOnly(ls, key) && FitForCounter(op, key)
    ensures CounterOnly(MultiStep(ls, op, now).0, key)
    ensures op.IncrBy? && op.key == key ==> Guard(ls, op, now)
  {
    var ms := MultiStep(ls, op, now).0;
    match op
    case Get(k, fits) =>
      var i := FirstFit(ls, k, fits, now);
      if i < |ls| { assert forall j :: 0 <= j < |ls| ==> (key in ms[j] ==> key in ls[j] || (k == key && j < i)); }
    case _ =>
  }

  /** A key only counted, read and deleted is never copied to an upper level, in any run,
      whatever happens to other keys. */
  lemma {:induction false} CountersAreNeverBackfilled(ls: Stack, key: string, es: seq<Event>)
    requires CounterOnly(ls, key)
    requires forall i :: 0 <= i < |es| ==> FitForCounter(es[i].op, key)
    ensures CounterOnly(MultiAfter(ls, es), key)
    decreases |es|
  {
    if |es| > 0 {
      CounterStep(ls, key, es[0].op, es[0].at);
      hide MultiStep, CounterOnly, FitForCounter;
      assert forall i :: 0 <= i < |es[1..]| ==> es[1..][i] == es[i + 1];
      CountersAreNeverBackfilled(MultiStep(ls, es[0].op, es[0].at).0, key, es[1..]);
    }
  }
}
