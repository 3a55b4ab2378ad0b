/**
 The expiring map of pkg/cache/memory.go.  Time is in nanoseconds; each operation is one
 atomic step and takes one clock reading.  Values stand for their JSON encoding, which is
 taken to be lossless; a value that cannot be encoded is kept as a case of its own.
 */
module MemoryCaches {
  import opened Prelude

  datatype Value = Num(n: int) | Json(text: string) | Unencodable

  datatype Item = Item(value: Value, deadline: Option<int>)

  type Store = map<string, Item>

  predicate Expired(it: Item, now: int) {
    it.deadline.Some? && now > it.deadline.value
  }

  predicate Live(s: Store, key: string, now: int) {
    key in s && !Expired(s[key], now)
  }

  /** Set, MSet and SetNX give no deadline unless the ttl is positive. */
  function Deadline(ttl: int, now: int): Option<int> {
    if ttl > 0 then Some(now + ttl) else None
  }

  const TWO_63 := 0x8000_0000_0000_0000

  predicate IsInt64(n: int) {
    -TWO_63 <= n < TWO_63
  }

  function Wrap64(n: int): int {
    (n + TWO_63) % (2 * TWO_63) - TWO_63
  }

  /** What decoding into an int64 leaves in the zero-initialised counter. */
  function AsCounter(v: Value): int {
    if v.Num? && IsInt64(v.n) then v.n else 0
  }

  predicate Encodable(items: map<string, Value>) {
    forall k :: k in items ==> !items[k].Unencodable?
  }

  datatype Op =
    | Get(key: string, fits: Value -> bool)
    | GetRaw(key: string)
    | Exists(key: string)
    | MGet(keys: seq<string>)
    | TTL(key: string)
    | Keys(pattern: string)
    | Set(key: string, value: Value, ttl: int)
    | MSet(items: map<string, Value>, ttl: int, early: seq<set<string>>)
    | Delete(key: string)
    | MDelete(keys: seq<string>)
    | IncrBy(key: string, delta: int)
    | SetNX(key: string, value: Value, ttl: int)
    | Expire(key: string, ttl: int)
    | Sweep(level: nat)

  datatype Answer =
    | Found(value: Value)
    | NotFound
    | Yes
    | No
    | Values(found: map<string, Value>)
    | Names(names: set<string>)
    | Total(n: int)
    | Duration(ns: int)
    | Done
    | EncodeError
    | DecodeError

  // ------------------------------------------------- what each operation does

  function Lookup(s: Store, key: string, now: int): Answer {
    if Live(s, key, now) then Found(s[key].value) else NotFound
  }

  /** What decoding comes to: `fits` tells which values decode into the caller's variable. */
  function Decoded(a: Answer, fits: Value -> bool): Answer {
    if a.Found? && !fits(a.value) then DecodeError else a
  }

  function Batch(s: Store, keys: seq<string>, now: int): map<string, Value> {
    map key | key in keys && Live(s, key, now) :: s[key].value
  }

  function TtlOf(s: Store, key: string, now: int): int {
    if key !in s then -2
    else if s[key].deadline.None? then -1
    else if Expired(s[key], now) then -2
    else s[key].deadline.value - now
  }

  predicate Matches(pattern: string, key: string) {
    if pattern == "*" then true
    else if |pattern| > 0 && pattern[|pattern| - 1] == '*' then
      pattern[..|pattern| - 1] <= key
    else pattern == key
  }

  function KeysOf(s: Store, pattern: string, now: int): set<string> {
    set key | key in s && Live(s, key, now) && Matches(pattern, key)
  }

  function Put(s: Store, key: string, v: Value, ttl: int, now: int): Store {
    if v.Unencodable? then s else s[key := Item(v, Deadline(ttl, now))]
  }

  /** MSet stops at the first value it cannot encode.  The map is visited in no fixed
      order, so `early` -- any of the others -- has been stored by then. */
  function PutAll(s: Store, items: map<string, Value>, ttl: int, now: int, early: set<string>): Store {
    s + map key | key in items && !items[key].Unencodable? && (Encodable(items) || key in early)
          :: Item(items[key], Deadline(ttl, now))
  }

  function Without(s: Store, keys: seq<string>): Store {
    map key | key in s && key !in keys :: s[key]
  }

  function Incremented(s: Store, key: string, delta: int, now: int): int {
    Wrap64((if Live(s, key, now) then AsCounter(s[key].value) else 0) + delta)
  }

  /** Expire asks whether the key is present, not whether it is still alive. */
  function Postponed(s: Store, key: string, ttl: int, now: int): Store {
    if key in s then s[key := s[key].(deadline := Some(now + ttl))] else s
  }

  function Swept(s: Store, now: int): Store {
    map key | key in s && !Expired(s[key], now) :: s[key]
  }

  function EarlyAt(early: seq<set<string>>, me: nat): set<string> {
    if me < |early| then early[me] else {}
  }

  /** `me` is the level this store is in a stack of caches; 0 for a cache on its own. */
  function Step(s: Store, op: Op, now: int, me: nat): (Store, Answer) {
    match op
    case Get(key, fits) => (s, Decoded(Lookup(s, key, now), fits))
    case GetRaw(key) => (s, Lookup(s, key, now))
    case Exists(key) => (s, if Live(s, key, now) then Yes else No)
    case MGet(keys) => (s, Values(Batch(s, keys, now)))
    case TTL(key) => (s, Duration(TtlOf(s, key, now)))
    case Keys(pattern) => (s, Names(KeysOf(s, pattern, now)))
    case Set(key, v, ttl) => (Put(s, key, v, ttl, now), if v.Unencodable? then EncodeError else Done)
    case MSet(items, ttl, early) =>
      (PutAll(s, items, ttl, now, EarlyAt(early, me)), if Encodable(items) then Done else EncodeError)
    case Delete(key) => (Without(s, [key]), Done)
    case MDelete(keys) => (Without(s, keys), Done)
    case IncrBy(key, delta) =>
      var n := Incremented(s, key, delta, now);
      (s[key := Item(Num(n), None)], Total(n))
    case SetNX(key, v, ttl) =>
      if Live(s, key, now) then (s, No)
      else (Put(s, key, v, ttl, now), if v.Unencodable? then EncodeError else Yes)
    case Expire(key, ttl) => (Postponed(s, key, ttl, now), Done)
    case Sweep(level) => (if level == me then Swept(s, now) else s, Done)
  }

  // ------------------------------------------------- the cache itself

  class MemoryCache {
    var data: Store

    constructor ()
      ensures data == map[]
    {
      data := map[];
    }

    method Get(key: string, fits: Value -> bool, now: int) returns (r: Answer)
      ensures r == Decoded(Lookup(data, key, now), fits)
    {
      if key !in data || Expired(data[key], now) {
        return NotFound;
      }
      if !fits(data[key].value) {
        return DecodeError;
      }
      return Found(data[key].value);
    }

    /** As Get, but the stored encoding is not decoded. */
    method GetRaw(key: string, now: int) returns (r: Answer)
      ensures r == Step(data, Op.GetRaw(key), now, 0).1
    {
      if key !in data || Expired(data[key], now) {
        return NotFound;
      }
      return Found(data[key].value);
    }

    method Exists(key: string, now: int) returns (r: bool)
      ensures r == Live(data, key, now)
    {
      if key !in data || Expired(data[key], now) {
        return false;
      }
      return true;
    }

    method MGet(keys: seq<string>, now: int) returns (result: map<string, Value>)
      ensures result == Batch(data, keys, now)
    {
      result := map[];
      for i := 0 to |keys|
        invariant result == Batch(data, keys[..i], now)
      {
        var key := keys[i];
        assert keys[..i + 1] == keys[..i] + [key];
        if key in data && !Expired(data[key], now) {
          result := result[key := data[key].value];
        }
      }
      assert keys[..|keys|] == keys;
    }

    method TTL(key: string, now: int) returns (r: int)
      ensures r == TtlOf(data, key, now)
    {
      if key !in data {
        return -2;
      }
      if data[key].deadline.None? {
        return -1;
      }
      if Expired(data[key], now) {
        return -2;
      }
      return data[key].deadline.value - now;
    }

    method Keys(pattern: string, now: int) returns (result: set<string>)
      ensures result == KeysOf(data, pattern, now)
    {
      result := {};
      var todo := data.Keys;
      while todo != {}
        invariant todo <= data.Keys
        invariant result == set key | key in data && key !in todo &&
                                      Live(data, key, now) && Matches(pattern, key)
        decreases todo
      {
        var key :| key in todo;
        if !Expired(data[key], now) {
          if Matches(pattern, key) {
            result := result + {key};
          }
        }
        todo := todo - {key};
      }
    }

    method Set(key: string, value: Value, ttl: int, now: int) returns (ok: bool)
      modifies this
      ensures data == Put(old(data), key, value, ttl, now)
      ensures ok == !value.Unencodable?
    {
      if value.Unencodable? {
        return false;
      }
      var item := Item(value, None);
      if ttl > 0 {
        item := item.(deadline := Some(now + ttl));
      }
      data := data[key := item];
      return true;
    }

    method MSet(items: map<string, Value>, ttl: int, now: int) returns (ok: bool, ghost early: set<string>)
      modifies this
      ensures data == PutAll(old(data), items, ttl, now, early)
      ensures ok == Encodable(items)
    {
      early := {};
      var todo := items.Keys;
      while todo != {}
        invariant todo <= items.Keys && early == items.Keys - todo
        invariant forall key :: key in early ==> !items[key].Unencodable?
        invariant data == old(data) + map key | key in items && key in early
                                        :: Item(items[key], Deadline(ttl, now))
        decreases todo
      {
        var key :| key in todo;
        if items[key].Unencodable? {
          return false, early;
        }
        var item := Item(items[key], None);
        if ttl > 0 {
          item := item.(deadline := Some(now + ttl));
        }
        data := data[key := item];
        todo := todo - {key};
        early := early + {key};
      }
      return true, early;
    }

    method Delete(key: string)
      modifies this
      ensures data == Without(old(data), [key])
    {
      data := data - {key};
    }

    method MDelete(keys: seq<string>)
      modifies this
      ensures data == Without(old(data), keys)
    {
      for i := 0 to |keys|
        invariant data == Without(old(data), keys[..i])
      {
        assert keys[..i + 1] == keys[..i] + [keys[i]];
        data := data - {keys[i]};
      }
      assert keys[..|keys|] == keys;
    }

    method IncrBy(key: string, value: int, now: int) returns (current: int)
      modifies this
      ensures current == Incremented(old(data), key, value, now)
      ensures data == old(data)[key := Item(Num(current), None)]
    {
      current := 0;
      if key in data && !Expired(data[key], now) {
        current := AsCounter(data[key].value);
      }
      current := Wrap64(current + value);
      data := data[key := Item(Num(current), None)];
    }

    /** The int64 operand is negated with wrap-around. */
    method DecrBy(key: string, value: int, now: int) returns (current: int)
      modifies this
      ensures current == Incremented(old(data), key, Wrap64(-value), now)
      ensures data == old(data)[key := Item(Num(current), None)]
    {
      current := IncrBy(key, Wrap64(-value), now);
    }

    method SetNX(key: string, value: Value, ttl: int, now: int) returns (r: Answer)
      modifies this
      ensures (data, r) == Step(old(data), Op.SetNX(key, value, ttl), now, 0)
    {
      if key in data && !Expired(data[key], now) {
        return No;
      }
      if value.Unencodable? {
        return EncodeError;
      }
      var item := Item(value, None);
      if ttl > 0 {
        item := item.(deadline := Some(now + ttl));
      }
      data := data[key := item];
      return Yes;
    }

    method Expire(key: string, ttl: int, now: int)
      modifies this
      ensures data == Postponed(old(data), key, ttl, now)
    {
      if key in data {
        data := data[key := data[key].(deadline := Some(now + ttl))];
      }
    }

    method Cleanup(now: int)
      modifies this
      ensures data == Swept(old(data), now)
    {
      var todo := data.Keys;
      while todo != {}
        invariant todo <= old(data).Keys
        invariant data == map key | key in old(data) &&
          (key in todo || !Expired(old(data)[key], now)) :: old(data)[key]
        decreases todo
      {
        var key :| key in todo;
        if Expired(data[key], now) {
          data := data - {key};
        }
        todo := todo - {key};
      }
    }
  }

  // ------------------------------------------------- small laws

  /** TTL is -2 exactly when the key does not exist, -1 exactly when it never expires, and
      otherwise the time left, which is not negative. */
  lemma TtlMeaning(s: Store, key: string, now: int)
    ensures TtlOf(s, key, now) == -2 <==> !Live(s, key, now)
    ensures TtlOf(s, key, now) == -1 <==> Live(s, key, now) && s[key].deadline.None?
    ensures TtlOf(s, key, now) >= 0 <==> Live(s, key, now) && s[key].deadline.Some?
  {
  }

  /** Apart from a trailing star a pattern is matched literally. */
  lemma PrefixPatterns(prefix: string, key: string)
    ensures Matches(prefix + "*", key) <==> prefix <= key
  {
    assert (prefix + "*")[..|prefix|] == prefix;
  }

  lemma Wrap64Range(n: int)
    ensures IsInt64(Wrap64(n)) && (IsInt64(n) ==> Wrap64(n) == n)
    ensures (n - Wrap64(n)) % (2 * TWO_63) == 0
  {
  }

  // ------------------------------------------------- runs

  datatype Event = Event(at: int, op: Op)

  ghost predicate Chronological(from: int, es: seq<Event>)
    decreases |es|
  {
    |es| > 0 ==> from <= es[0].at && Chronological(es[0].at, es[1..])
  }

  /** What the callers see: the answers of all operations, sweeps not being asked for. */
  function Answers(s: Store, es: seq<Event>, me: nat): seq<Answer>
    decreases |es|
  {
    if |es| == 0 then [] else
      var (next, a) := Step(s, es[0].op, es[0].at, me);
      (if es[0].op.Sweep? then [] else [a]) + Answers(next, es[1..], me)
  }

  /** The one thing that tells an expired entry from no entry: Expire brings it back. */
  predicate Revives(s: Store, op: Op, now: int) {
    op.Expire? && 0 <= op.ttl && op.key in s && Expired(s[op.key], now)
  }

  ghost predicate NeverRevives(s: Store, es: seq<Event>, me: nat)
    decreases |es|
  {
    |es| > 0 ==> !Revives(s, es[0].op, es[0].at) &&
                 NeverRevives(Step(s, es[0].op, es[0].at, me).0, es[1..], me)
  }

  // ------------------------------------------------- the simple timed map

  /** A map that forgets an entry the moment it expires. */
  function Purge(s: Store, now: int): Store {
    map key | key in s && Live(s, key, now) :: s[key]
  }

  /** On such a map no operation needs to look at a deadline. */
  function TimedStep(v: Store, op: Op, now: int, me: nat): (Store, Answer) {
    var p := Purge(v, now);
    match op
    case Get(key, fits) => (p, Decoded(if key in p then Found(p[key].value) else NotFound, fits))
    case GetRaw(key) => (p, if key in p then Found(p[key].value) else NotFound)
    case Exists(key) => (p, if key in p then Yes else No)
    case MGet(keys) => (p, Values(map key | key in keys && key in p :: p[key].value))
    case TTL(key) =>
      (p, Duration(if key !in p then -2 else if p[key].deadline.None? then -1
                   else p[key].deadline.value - now))
    case Keys(pattern) => (p, Names(set key | key in p && Matches(pattern, key)))
    case Set(key, v, ttl) => (Put(p, key, v, ttl, now), if v.Unencodable? then EncodeError else Done)
    case MSet(items, ttl, early) =>
      (PutAll(p, items, ttl, now, EarlyAt(early, me)), if Encodable(items) then Done else EncodeError)
    case Delete(key) => (p - {key}, Done)
    case MDelete(keys) => (p - (set key | key in keys), Done)
    case IncrBy(key, delta) =>
      var n := Wrap64((if key in p then AsCounter(p[key].value) else 0) + delta);
      (p[key := Item(Num(n), None)], Total(n))
    case SetNX(key, v, ttl) =>
      if key in p then (p, No)
      else (Put(p, key, v, ttl, now), if v.Unencodable? then EncodeError else Yes)
    case Expire(key, ttl) =>
      (if key !in p then p
       else if ttl < 0 then p - {key}
       else p[key := p[key].(deadline := Some(now + ttl))], Done)
    case Sweep(_) => (p, Done)
  }

  function TimedAnswers(v: Store, es: seq<Event>, me: nat): seq<Answer>
    decreases |es|
  {
    if |es| == 0 then [] else
      var (next, a) := TimedStep(v, es[0].op, es[0].at, me);
      (if es[0].op.Sweep? then [] else [a]) + TimedAnswers(next, es[1..], me)
  }

  lemma PurgeAgain(s: Store, t: int, now: int)
    requires t <= now
    ensures Purge(Purge(s, t), now) == Purge(s, now)
  {
  }

  lemma StepRefinesTimedMap(s: Store, op: Op, now: int, me: nat)
    requires !Revives(s, op, now)
    ensures Step(s, op, now, me).1 == TimedStep(Purge(s, now), op, now, me).1
    ensures Purge(Step(s, op, now, me).0, now) == TimedStep(Purge(s, now), op, now, me).0
  {
    hide Step, TimedStep, Purge;
    if op.Get? || op.GetRaw? || op.Exists? || op.MGet? || op.TTL? || op.Keys? {
      ReadRefines(s, op, now, me);
    } else if op.Set? || op.MSet? || op.Delete? || op.MDelete? {
      WriteRefines(s, op, now, me);
    } else {
      UpdateRefines(s, op, now, me);
    }
  }

  ghost predicate StepRefines(s: Store, op: Op, now: int, me: nat) {
    Step(s, op, now, me).1 == TimedStep(Purge(s, now), op, now, me).1 &&
    Purge(Step(s, op, now, me).0, now) == TimedStep(Purge(s, now), op, now, me).0
  }

  lemma ReadRefines(s: Store, op: Op, now: int, me: nat)
    requires op.Get? || op.GetRaw? || op.Exists? || op.MGet? || op.TTL? || op.Keys?
    ensures StepRefines(s, op, now, me)
  {
    PurgeAgain(s, now, now);
  }

  lemma WriteRefines(s: Store, op: Op, now: int, me: nat)
    requires op.Set? || op.MSet? || op.Delete? || op.MDelete?
    ensures StepRefines(s, op, now, me)
  {
    PurgeAgain(s, now, now);
  }

  lemma UpdateRefines(s: Store, op: Op, now: int, me: nat)
    requires op.IncrBy? || op.SetNX? || op.Expire? || op.Sweep?
    requires !Revives(s, op, now)
    ensures StepRefines(s, op, now, me)
  {
    PurgeAgain(s, now, now);
    if op.IncrBy? {
      PurgePut(s, op.key, Item(Num(Incremented(s, op.key, op.delta, now)), None), now);
    } else if op.SetNX? && !op.value.Unencodable? {
      PurgePut(s, op.key, Item(op.value, Deadline(op.ttl, now)), now);
    } else if op.Expire? && op.key in s {
      PurgePut(s, op.key, s[op.key].(deadline := Some(now + op.ttl)), now);
    }
  }

  lemma PurgePut(s: Store, key: string, it: Item, now: int)
    ensures Purge(s[key := it], now) == if Expired(it, now) then Purge(s, now) - {key} else Purge(s, now)[key := it]
  {
  }

  /** Every operation of the cache answers as the timed map does. */
  lemma {:induction false} RefinesTimedMap(s: Store, es: seq<Event>, from: int, me: nat)
    requires Chronological(from, es) && NeverRevives(s, es, me)
    ensures Answers(s, es, me) == TimedAnswers(Purge(s, from), es, me)
    decreases |es|
  {
    if |es| > 0 {
      var op, now := es[0].op, es[0].at;
      PurgeAgain(s, from, now);
      StepRefinesTimedMap(s, op, now, me);
      TimedStepPurges(Purge(s, from), op, now, me);
      hide Step, TimedStep, Purge;
      RefinesTimedMap(Step(s, op, now, me).0, es[1..], now, me);
    }
  }

  lemma TimedStepPurges(v: Store, op: Op, now: int, me: nat)
    ensures TimedStep(v, op, now, me) == TimedStep(Purge(v, now), op, now, me)
  {
    PurgeAgain(v, now, now);
  }

  /** Expire keeps to the timed map exactly when it does not revive an expired entry. */
  lemma ExpireRefinesUnlessItRevives(s: Store, key: string, ttl: int, now: int)
    ensures Purge(Step(s, Op.Expire(key, ttl), now, 0).0, now)
              == TimedStep(Purge(s, now), Op.Expire(key, ttl), now, 0).0
            <==> !(key in s && Expired(s[key], now) && 0 <= ttl)
  {
    var op := Op.Expire(key, ttl);
    if key in s && Expired(s[key], now) && 0 <= ttl {
      assert key in Purge(Step(s, op, now, 0).0, now);
      assert key !in Purge(s, now);
      PurgeAgain(s, now, now);
    } else {
      StepRefinesTimedMap(s, op, now, 0);
    }
  }

  // ------------------------------------------------- sweeps are invisible

  function WithoutSweeps(es: seq<Event>): seq<Event>
    decreases |es|
  {
    if |es| == 0 then [] else
      (if es[0].op.Sweep? then [] else [es[0]]) + WithoutSweeps(es[1..])
  }

  /** c is s with some entries missing that have expired anyway. */
  ghost predicate Leaner(c: Store, s: Store, now: int) {
    forall key :: (key in c ==> key in s && c[key] == s[key]) &&
                  (key in s && key !in c ==> Expired(s[key], now))
  }

  lemma LeanerLive(c: Store, s: Store, from: int, now: int)
    requires Leaner(c, s, from) && from <= now
    ensures forall key :: Live(c, key, now) <==> Live(s, key, now)
    ensures forall key :: Live(c, key, now) ==> c[key] == s[key]
    ensures Leaner(c, s, now)
  {
  }

  lemma LeanerStep(c: Store, s: Store, from: int, op: Op, now: int, me: nat)
    requires Leaner(c, s, from) && from <= now && !Revives(s, op, now)
    ensures Leaner(Step(c, op, now, me).0, if op.Sweep? then s else Step(s, op, now, me).0, now)
    ensures Step(c, op, now, me).1 == Step(s, op, now, me).1
  {
    LeanerLive(c, s, from, now);
    hide Leaner;
    if op.MSet? {
      LeanerPutAll(c, s, now, op.items, op.ttl, EarlyAt(op.early, me));
      hide PutAll;
    } else if op.Get? || op.GetRaw? || op.Exists? || op.MGet? || op.TTL? || op.Keys? {
      LeanerReads(c, s, now, op, me);
    } else {
      LeanerWrites(c, s, now, op, me);
    }
  }

  lemma LeanerReads(c: Store, s: Store, now: int, op: Op, me: nat)
    requires Leaner(c, s, now)
    requires op.Get? || op.GetRaw? || op.Exists? || op.MGet? || op.TTL? || op.Keys?
    ensures Step(c, op, now, me).0 == c && Step(s, op, now, me).0 == s
    ensures Step(c, op, now, me).1 == Step(s, op, now, me).1
  {
    LeanerLive(c, s, now, now);
  }

  lemma LeanerWrites(c: Store, s: Store, now: int, op: Op, me: nat)
    requires Leaner(c, s, now) && !Revives(s, op, now)
    requires op.Set? || op.Delete? || op.MDelete? || op.IncrBy? || op.SetNX? || op.Expire? || op.Sweep?
    ensures Leaner(Step(c, op, now, me).0, if op.Sweep? then s else Step(s, op, now, me).0, now)
    ensures Step(c, op, now, me).1 == Step(s, op, now, me).1
  {
    LeanerLive(c, s, now, now);
  }

  lemma LeanerPutAll(c: Store, s: Store, now: int, items: map<string, Value>, ttl: int, early: set<string>)
    requires Leaner(c, s, now)
    ensures Leaner(PutAll(c, items, ttl, now, early), PutAll(s, items, ttl, now, early), now)
  {
  }

  /** Sweeps put anywhere into a run change no answer, provided the run without them never
      revives an expired entry. */
  lemma {:induction false} SweepsAreInvisible(c: Store, s: Store, from: int, es: seq<Event>, me: nat)
    requires Leaner(c, s, from) && Chronological(from, es)
    requires NeverRevives(s, WithoutSweeps(es), me)
    ensures Answers(c, es, me) == Answers(s, WithoutSweeps(es), me)
    decreases |es|
  {
    if |es| > 0 {
      var op, now := es[0].op, es[0].at;
      var rest := WithoutSweeps(es[1..]);
      if op.Sweep? {
        assert WithoutSweeps(es) == rest;
        LeanerStep(c, s, from, op, now, me);
        hide Step, Leaner;
        SweepsAreInvisible(Step(c, op, now, me).0, s, now, es[1..], me);
      } else {
        assert WithoutSweeps(es) == [es[0]] + rest && ([es[0]] + rest)[1..] == rest;
        LeanerStep(c, s, from, op, now, me);
        hide Step, Leaner;
        SweepsAreInvisible(Step(c, op, now, me).0, Step(s, op, now, me).0, now, es[1..], me);
      }
    }
  }

  /** The proviso is needed: swept or not, one and the same Expire then Exists differ. */
  lemma RevivalIsVisible(s: Store, key: string, ttl: int, now: int)
    requires Revives(s, Op.Expire(key, ttl), now)
    ensures var es := [Event(now, Op.Expire(key, ttl)), Event(now, Op.Exists(key))];
            Answers(s, es, 0) == [Done, Yes] && Answers(Swept(s, now), es, 0) == [Done, No]
  {
    AnswersOfTwo(s, Event(now, Op.Expire(key, ttl)), Event(now, Op.Exists(key)));
    AnswersOfTwo(Swept(s, now), Event(now, Op.Expire(key, ttl)), Event(now, Op.Exists(key)));
  }

  lemma AnswersOfTwo(s: Store, d: Event, e: Event)
    requires !d.op.Sweep? && !e.op.Sweep?
    ensures var (next, a) := Step(s, d.op, d.at, 0);
            Answers(s, [d, e], 0) == [a, Step(next, e.op, e.at, 0).1]
  {
    hide Step;
    assert [d, e][1..] == [e] && [e][1..] == [];
    assert Answers(Step(s, d.op, d.at, 0).0, [e], 0) == [Step(Step(s, d.op, d.at, 0).0, e.op, e.at, 0).1];
  }
}
