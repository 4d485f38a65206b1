/** The key-value store with times to live: a map that drops an entry only when somebody looks at it. */
module KvStore {
  import opened Words
  import opened Wrappers

  // ---- times and counters ----

  type i64 = n: int | -0x8000_0000_0000_0000 <= n < 0x8000_0000_0000_0000

  /** Wrap-around to int64. */
  function Signed64(n: int): i64 {
    ToSigned(n % TWO64, TWO64)
  }

  /** time.Duration(ttlMs) * time.Millisecond, in nanoseconds. */
  function Duration(ttlMs: u64): i64 {
    Signed64(Signed64(ttlMs) * 1_000_000)
  }

  /** A time to live is what it says exactly when it fits a Duration. */
  lemma DurationIsExact(ttlMs: u64)
    ensures Duration(ttlMs) == ttlMs * 1_000_000 <==> ttlMs * 1_000_000 < TWO64 / 2
  {
    if ttlMs * 1_000_000 < TWO64 / 2 {
      assert Signed64(ttlMs) == ttlMs;
    }
  }

  function Deadline(now: int, ttlMs: Option<u64>): Option<int> {
    match ttlMs
    case None => None
    case Some(ttl) => Some(now + Duration(ttl))
  }

  /** An int64 as eight little-endian bytes. */
  function Coded(n: i64): (s: seq<byte>)
    ensures |s| == 8
  {
    LE(n % TWO64, 8)
  }

  /** The counter in a value; a short value counts as 0. */
  function Counter(value: seq<byte>): i64 {
    if |value| >= 8 then Signed64(FromLE(value[..8])) else 0
  }

  /** A value with its counter replaced. */
  function Recoded(value: seq<byte>, n: i64): seq<byte> {
    Coded(n) + if |value| >= 8 then value[8..] else []
  }

  lemma CounterOfCoded(value: seq<byte>, n: i64)
    ensures Counter(Recoded(value, n)) == n && Counter(Coded(n)) == n
  {
    hide LE, FromLE;
    Pow256Values();
    FromLEOfLE(n % TWO64, 8);
    assert Recoded(value, n)[..8] == Coded(n);
    assert Coded(n)[..8] == Coded(n);
  }

  /** A counter is eight little-endian bytes in two's complement; a value too short for one counts as 0. */
  lemma CounterBytes(value: seq<byte>, n: i64, i: nat)
    requires i < 8
    ensures Coded(n)[i] == Digit(n, i)
    ensures if |value| < 8 then Counter(value) == 0 else value[i] == Digit(Counter(value), i)
  {
    hide LE, FromLE, Digit;
    Pow256Values();
    LEDigits(n, 8, i);
    if |value| >= 8 {
      var raw := FromLE(value[..8]);
      LEOfFromLE(value[..8]);
      SignedIsCongruent(raw);
      assert value[..8][i] == value[i];
      LEDigits(Signed64(raw), 8, i);
    }
  }

  /** Wrapping keeps a number modulo 2^64. */
  lemma SignedIsCongruent(n: int)
    ensures Signed64(n) % TWO64 == n % TWO64
    ensures (Signed64(n) - n) % TWO64 == 0
  {
    var q, r := n / TWO64, n % TWO64;
    assert n == q * TWO64 + r;
    if Signed64(n) == r {
      DivModUnique(Signed64(n) - n, TWO64, -q, 0);
    } else {
      DivModUnique(Signed64(n), TWO64, -1, r);
      DivModUnique(Signed64(n) - n, TWO64, -q - 1, 0);
    }
  }

  /** Whatever the time to live, its nanoseconds modulo 2^64, as an int64. */
  lemma DurationWraps(ttlMs: u64)
    ensures (Duration(ttlMs) - ttlMs * 1_000_000) % TWO64 == 0
  {
    SignedIsCongruent(ttlMs);
    SignedIsCongruent(Signed64(ttlMs) * 1_000_000);
    var a, b := Signed64(ttlMs) - ttlMs, Duration(ttlMs) - Signed64(ttlMs) * 1_000_000;
    DivModUnique(b + a * 1_000_000, TWO64, b / TWO64 + (a / TWO64) * 1_000_000, 0);
  }

  // ---- the store as a map ----

  /** `deadline` None never expires. */
  datatype Entry = Entry(value: seq<byte>, deadline: Option<int>)

  type Store = map<string, Entry>

  predicate Expired(e: Entry, now: int) {
    e.deadline.Some? && now > e.deadline.value
  }

  predicate Live(m: Store, key: string, now: int) {
    key in m && !Expired(m[key], now)
  }

  /** What remains after a look at key. */
  function Reaped(m: Store, key: string, now: int): Store {
    if key in m && Expired(m[key], now) then m - {key} else m
  }

  function Got(m: Store, key: string, now: int): Option<seq<byte>> {
    if Live(m, key, now) then Some(m[key].value) else None
  }

  function AfterSet(m: Store, key: string, value: seq<byte>, ttlMs: Option<u64>, now: int): Store {
    m[key := Entry(value, Deadline(now, ttlMs))]
  }

  function Incremented(m: Store, key: string, delta: i64, now: int): i64 {
    if Live(m, key, now) then Signed64(Counter(m[key].value) + delta) else delta
  }

  function AfterIncrement(m: Store, key: string, delta: i64, ttlMs: Option<u64>, now: int): Store {
    if Live(m, key, now) then
      m[key := Entry(Recoded(m[key].value, Incremented(m, key, delta, now)), m[key].deadline)]
    else m[key := Entry(Coded(delta), Deadline(now, ttlMs))]
  }

  lemma Rewritten(m: Store, m2: Store, key: string, e: Entry)
    requires m2 == m || (key in m2 && m2 == m[key := m2[key]])
    ensures m2[key := e] == m[key := e]
  {
  }

  lemma Overwritten(m: Store, key: string, e: Entry)
    ensures (m - {key})[key := e] == m[key := e]
  {
  }

  // ---- the store as an object ----

  class KvEntry {
    var value: array<byte>
    var expiresAt: Option<int>
    ghost const key: string

    constructor (ghost key: string, value: array<byte>, expiresAt: Option<int>)
      ensures this.key == key && this.value == value && this.expiresAt == expiresAt
    {
      this.key, this.value, this.expiresAt := key, value, expiresAt;
    }
  }

  /** A copy in a buffer of its own. */
  method Copy(a: array<byte>) returns (b: array<byte>)
    ensures fresh(b) && b[..] == a[..]
  {
    b := new byte[a.Length];
    for i := 0 to a.Length
      invariant b[..i] == a[..i]
    {
      b[i] := a[i];
    }
  }

  /** binary.LittleEndian.PutUint64 into the first eight bytes. */
  method PutCounter(a: array<byte>, n: i64)
    requires a.Length >= 8
    modifies a
    ensures a[..] == Coded(n) + old(a[8..])
  {
    var bytes := Coded(n);
    for i := 0 to 8
      invariant a[..i] == bytes[..i]
      invariant a[8..] == old(a[8..])
    {
      a[i] := bytes[i];
    }
    assert a[..] == a[..8] + a[8..];
  }

  method NewEntry(ghost key: string, value: array<byte>, ttlMs: Option<u64>, now: int) returns (e: KvEntry)
    ensures fresh(e) && e.key == key && e.value == value && e.expiresAt == Deadline(now, ttlMs)
  {
    e := new KvEntry(key, value, None);
    if ttlMs.Some? {
      e.expiresAt := Some(now + Duration(ttlMs.value));
    }
  }

  /** The mutex makes each method one step; `now` is the clock reading it takes. */
  class KVStore {
    var entries: map<string, KvEntry>
    ghost var Repr: set<object>
    ghost var Owner: map<array<byte>, string>
    ghost var Contents: Store

    /** The entry and its buffer belong to key alone, and are what Contents says. */
    ghost predicate Holds(key: string, e: KvEntry)
      reads this, e, e.value
    {
      && e.value in Repr
      && e.key == key && e.value in Owner && Owner[e.value] == key
      && key in Contents && Contents[key] == Entry(e.value[..], e.expiresAt)
    }

    ghost predicate Valid()
      reads this, Repr
    {
      && this in Repr
      && (forall k :: k in Contents ==> k in entries)
      && (forall k :: k in entries ==>
            entries[k] in Repr && entries[k].value in Repr && Holds(k, entries[k]))
    }

    constructor ()
      ensures Valid() && fresh(Repr) && Contents == map[]
    {
      entries := map[];
      Contents := map[];
      Repr, Owner := {this}, map[];
    }

    /** The bytes are the caller's own copy. */
    method Get(key: string, now: int) returns (out: array?<byte>)
      requires Valid()
      modifies this
      ensures Valid() && Repr == old(Repr) && Contents == Reaped(old(Contents), key, now)
      ensures out == null <==> Got(old(Contents), key, now).None?
      ensures out != null ==> fresh(out) && out !in Repr && Got(old(Contents), key, now) == Some(out[..])
    {
      if key !in entries {
        return null;
      }
      var e := entries[key];
      assert Holds(key, e);
      if e.expiresAt.Some? && now > e.expiresAt.value {
        Delete(key);
        return null;
      }
      out := Copy(e.value);
    }

    /** The store keeps a copy of its own. */
    method Set(key: string, value: array<byte>, ttlMs: Option<u64>, now: int)
      requires Valid()
      modifies this
      ensures Valid() && fresh(Repr - old(Repr)) && old(Repr) <= Repr
      ensures Contents == AfterSet(old(Contents), key, value[..], ttlMs, now)
    {
      var own := Copy(value);
      Install(key, own, ttlMs, now);
    }

    /** A new entry around a buffer the store does not have yet. */
    method Install(key: string, own: array<byte>, ttlMs: Option<u64>, now: int)
      requires Valid() && own !in Repr
      modifies this
      ensures Valid() && own in Repr && fresh(Repr - old(Repr) - {own}) && old(Repr) <= Repr
      ensures Contents == old(Contents)[key := Entry(own[..], Deadline(now, ttlMs))]
    {
      hide Deadline;
      var e := NewEntry(key, own, ttlMs, now);
      entries := entries[key := e];
      Repr := Repr + {e, own};
      Owner := Owner[own := key];
      Contents := Contents[key := Entry(own[..], e.expiresAt)];
      forall k | k in entries
        ensures Holds(k, entries[k])
      {
        assert k != key ==> old(Holds(k, entries[k]));
      }
    }

    method Delete(key: string)
      requires Valid()
      modifies this
      ensures Valid() && Repr == old(Repr) && Contents == old(Contents) - {key}
    {
      entries := entries - {key};
      Contents := Contents - {key};
    }

    method Increment(key: string, delta: i64, ttlMs: Option<u64>, now: int) returns (count: i64)
      requires Valid()
      modifies Repr
      ensures Valid() && fresh(Repr - old(Repr)) && old(Repr) <= Repr
      ensures count == Incremented(old(Contents), key, delta, now)
      ensures Contents == AfterIncrement(old(Contents), key, delta, ttlMs, now)
    {
      hide LE, FromLE, Signed64, Deadline, Recoded, Coded, Counter;
      var ok := Exists(key, now);
      if !ok {
        count := Create(key, delta, ttlMs, now);
        Overwritten(old(Contents), key, Entry(Coded(delta), Deadline(now, ttlMs)));
        return;
      }
      count := Recount(key, delta);
    }

    method Create(key: string, delta: i64, ttlMs: Option<u64>, now: int) returns (count: i64)
      requires Valid()
      modifies this
      ensures Valid() && fresh(Repr - old(Repr)) && old(Repr) <= Repr
      ensures count == delta && Contents == old(Contents)[key := Entry(Coded(delta), Deadline(now, ttlMs))]
    {
      hide Coded, Deadline;
      var buf := new byte[8];
      PutCounter(buf, delta);
      assert buf[..] == Coded(delta);
      Install(key, buf, ttlMs, now);
      return delta;
    }

    /** The rest of Increment: the first eight bytes of the entry's own buffer, or a new buffer when the
        value is too short to be a counter. */
    method Recount(key: string, delta: i64) returns (current: i64)
      requires Valid() && key in entries
      modifies Repr
      ensures Valid() && fresh(Repr - old(Repr)) && old(Repr) <= Repr
      ensures var was := old(Contents)[key];
              && current == Signed64(Counter(was.value) + delta)
              && Contents == old(Contents)[key := Entry(Recoded(was.value, current), was.deadline)]
    {
      hide LE, FromLE, Signed64, Coded;
      var e := entries[key];
      assert Holds(key, e);
      ghost var before := Contents;
      current := 0;
      if e.value.Length >= 8 {
        current := Signed64(FromLE(e.value[..8]));
      }
      current := Signed64(current + delta);
      ghost var was := Contents[key];
      if e.value.Length < 8 {
        Widen(key, e);
      }
      assert Contents[key].value[8..] == (if |was.value| >= 8 then was.value[8..] else []);
      assert Contents[key].deadline == was.deadline;
      ghost var widened := Contents;
      Write(key, e, current);
      Rewritten(before, widened, key, Entry(Recoded(was.value, current), was.deadline));
    }

    method Widen(key: string, e: KvEntry)
      requires Valid() && key in entries && e == entries[key]
      modifies this, e
      ensures Valid() && fresh(Repr - old(Repr)) && old(Repr) <= Repr
      ensures entries == old(entries) && e.value in Repr && e.value.Length == 8 && e in Repr
      ensures Contents == old(Contents)[key := Entry([0, 0, 0, 0, 0, 0, 0, 0], old(Contents)[key].deadline)]
    {
      assert Holds(key, e);
      var buf := new byte[8](_ => 0);
      e.value := buf;
      Repr := Repr + {buf};
      Owner := Owner[buf := key];
      assert buf[..] == [0, 0, 0, 0, 0, 0, 0, 0];
      Contents := Contents[key := Entry(buf[..], e.expiresAt)];
      forall k | k in entries
        ensures Holds(k, entries[k])
      {
        assert k != key ==> old(Holds(k, entries[k])) && entries[k] != e;
      }
    }

    method Write(key: string, e: KvEntry, current: i64)
      requires Valid() && key in entries && e == entries[key] && e.value.Length >= 8
      modifies this, e.value
      ensures Valid() && Repr == old(Repr)
      ensures var was := old(Contents)[key];
              Contents == old(Contents)[key := Entry(Coded(current) + was.value[8..], was.deadline)]
    {
      hide Coded;
      assert Holds(key, e);
      PutCounter(e.value, current);
      Contents := Contents[key := Entry(e.value[..], e.expiresAt)];
      forall k | k in entries
        ensures Holds(k, entries[k])
      {
        assert old(Holds(k, entries[k]));
      }
    }

    method Exists(key: string, now: int) returns (found: bool)
      requires Valid()
      modifies this
      ensures Valid() && Repr == old(Repr) && Contents == Reaped(old(Contents), key, now)
      ensures found == Live(old(Contents), key, now)
    {
      if key !in entries {
        return false;
      }
      var e := entries[key];
      assert Holds(key, e);
      if e.expiresAt.Some? && now > e.expiresAt.value {
        Delete(key);
        return false;
      }
      return true;
    }
  }

  // ---- lazy and eager expiry ----

  datatype Op =
    | DoGet(key: string)
    | DoSet(key: string, value: seq<byte>, ttlMs: Option<u64>)
    | DoDelete(key: string)
    | DoIncrement(key: string, delta: i64, ttlMs: Option<u64>)
    | DoExists(key: string)

  datatype Answer = Bytes(value: Option<seq<byte>>) | Count(count: i64) | Found(found: bool) | Nothing

  datatype Event = Event(op: Op, now: int)

  datatype Reply = Reply(answer: Answer, store: Store)

  function Lazy(m: Store, ev: Event): Reply {
    match ev.op
    case DoGet(key) => Reply(Bytes(Got(m, key, ev.now)), Reaped(m, key, ev.now))
    case DoSet(key, value, ttlMs) => Reply(Nothing, AfterSet(m, key, value, ttlMs, ev.now))
    case DoDelete(key) => Reply(Nothing, m - {key})
    case DoIncrement(key, delta, ttlMs) =>
      Reply(Count(Incremented(m, key, delta, ev.now)), AfterIncrement(m, key, delta, ttlMs, ev.now))
    case DoExists(key) => Reply(Found(Live(m, key, ev.now)), Reaped(m, key, ev.now))
  }

  /** The entries that have not expired. */
  function Purge(m: Store, now: int): Store {
    map k | k in m && !Expired(m[k], now) :: m[k]
  }

  /** The reference: a map that never looks at a deadline when it answers. */
  function Plain(m: Store, ev: Event): Reply {
    match ev.op
    case DoGet(key) => Reply(Bytes(if key in m then Some(m[key].value) else None), m)
    case DoSet(key, value, ttlMs) => Reply(Nothing, m[key := Entry(value, Deadline(ev.now, ttlMs))])
    case DoDelete(key) => Reply(Nothing, m - {key})
    case DoIncrement(key, delta, ttlMs) =>
      if key in m then
        var n := Signed64(Counter(m[key].value) + delta);
        Reply(Count(n), m[key := Entry(Recoded(m[key].value, n), m[key].deadline)])
      else Reply(Count(delta), m[key := Entry(Coded(delta), Deadline(ev.now, ttlMs))])
    case DoExists(key) => Reply(Found(key in m), m)
  }

  /** Eager expiry drops entries the moment they expire, before and after every operation. */
  function Eager(m: Store, ev: Event): Reply {
    var r := Plain(Purge(m, ev.now), ev);
    Reply(r.answer, Purge(r.store, ev.now))
  }

  lemma PurgeAgain(m: Store, t: int, now: int)
    requires t <= now
    ensures Purge(Purge(m, t), now) == Purge(m, now)
  {
  }

  lemma StepRefines(m: Store, t: int, ev: Event)
    requires t <= ev.now
    ensures Lazy(m, ev).answer == Eager(Purge(m, t), ev).answer
    ensures Purge(Lazy(m, ev).store, ev.now) == Eager(Purge(m, t), ev).store
  {
    hide Recoded, Coded, Counter, Signed64, Deadline;
    PurgeAgain(m, t, ev.now);
    var key := ev.op.key;
    var p := Purge(m, ev.now);
    assert key in p <==> Live(m, key, ev.now);
  }

  /** The clock does not go back, from t on. */
  predicate Forward(t: int, evs: seq<Event>)
    decreases |evs|
  {
    |evs| == 0 || (t <= evs[0].now && Forward(evs[0].now, evs[1..]))
  }

  function LazyAnswers(m: Store, evs: seq<Event>): seq<Answer>
    decreases |evs|
  {
    if |evs| == 0 then [] else [Lazy(m, evs[0]).answer] + LazyAnswers(Lazy(m, evs[0]).store, evs[1..])
  }

  function EagerAnswers(m: Store, evs: seq<Event>): seq<Answer>
    decreases |evs|
  {
    if |evs| == 0 then [] else [Eager(m, evs[0]).answer] + EagerAnswers(Eager(m, evs[0]).store, evs[1..])
  }

  /** Under a clock that does not go back, every sequence of operations answers the same. */
  lemma {:induction false} LazyRefinesEager(m: Store, t: int, evs: seq<Event>)
    requires Forward(t, evs)
    ensures LazyAnswers(m, evs) == EagerAnswers(Purge(m, t), evs)
    decreases |evs|
  {
    hide Lazy, Eager, Purge;
    if |evs| > 0 {
      StepRefines(m, t, evs[0]);
      LazyRefinesEager(Lazy(m, evs[0]).store, evs[0].now, evs[1..]);
    }
  }

  /** If it goes back, by however little, an entry that was out of date and that nobody looked at is still
      there. */
  lemma ClockMustNotGoBack(key: string, other: string, value: seq<byte>, t1: int, t2: int)
    requires key != other && t1 > t2
    ensures var evs := [Event(DoGet(other), t1), Event(DoGet(key), t2)];
            var m: Store := map[key := Entry(value, Some(t2))];
            LazyAnswers(m, evs) != EagerAnswers(Purge(m, t2), evs)
  {
    var first, second := Event(DoGet(other), t1), Event(DoGet(key), t2);
    var evs := [first, second];
    assert evs[1..] == [second];
    var m: Store := map[key := Entry(value, Some(t2))];
    assert LazyAnswers(m, evs) == [Lazy(m, first).answer] + LazyAnswers(Lazy(m, first).store, [second]);
    assert LazyAnswers(Lazy(m, first).store, [second])[0] == Bytes(Some(value));
    assert LazyAnswers(m, evs)[1] == Bytes(Some(value));
    var e := Eager(Purge(m, t2), first).store;
    assert key !in e;
    assert EagerAnswers(Purge(m, t2), evs) == [Eager(Purge(m, t2), first).answer] + EagerAnswers(e, [second]);
    assert EagerAnswers(e, [second])[0] == Bytes(None);
    assert EagerAnswers(Purge(m, t2), evs)[1] == Bytes(None);
  }

  /** A look at a key drops it from the store if it is past its deadline, and nothing else. */
  lemma LookDrops(m: Store, key: string, now: int, other: string)
    ensures var r := Reaped(m, key, now);
            && (other in r <==> other in m && !(other == key && m[key].deadline.Some? && now > m[key].deadline.value))
            && (other in r ==> r[other] == m[other])
            && (Got(m, key, now) == if key in r then Some(r[key].value) else None)
            && (Live(m, key, now) <==> key in r)
  {
  }

  /** What Set stored is there exactly until its deadline, the deadline included. */
  lemma SetThenGet(m: Store, key: string, value: seq<byte>, ttlMs: Option<u64>, now: int, later: int)
    requires ttlMs.Some? ==> ttlMs.value * 1_000_000 < TWO64 / 2
    ensures Got(AfterSet(m, key, value, ttlMs, now), key, later) == Some(value) <==>
              ttlMs.None? || later <= now + ttlMs.value * 1_000_000
  {
    if ttlMs.Some? {
      DurationIsExact(ttlMs.value);
    }
  }

  /** Increments keep the deadline of a live counter. */
  lemma IncrementKeepsDeadline(m: Store, key: string, delta: i64, ttlMs: Option<u64>, now: int)
    ensures var r := AfterIncrement(m, key, delta, ttlMs, now);
            && key in r
            && Counter(r[key].value) == Incremented(m, key, delta, now)
            && r[key].deadline == if Live(m, key, now) then m[key].deadline else Deadline(now, ttlMs)
  {
    hide Recoded, Coded, Counter, Deadline, Signed64;
    if Live(m, key, now) {
      CounterOfCoded(m[key].value, Incremented(m, key, delta, now));
    } else {
      CounterOfCoded([], delta);
    }
  }

  /** An increment adds modulo 2^64 to a live counter and starts at delta otherwise; it leaves the other keys and
      what follows the eight bytes alone. */
  lemma IncrementAdds(m: Store, key: string, delta: i64, ttlMs: Option<u64>, now: int)
    ensures var n, r := Incremented(m, key, delta, now), AfterIncrement(m, key, delta, ttlMs, now);
            && (Live(m, key, now) ==> (n - (Counter(m[key].value) + delta)) % TWO64 == 0)
            && (!Live(m, key, now) ==> n == delta)
            && r - {key} == m - {key} && key in r && |r[key].value| >= 8
            && r[key].value[8..] == if Live(m, key, now) && |m[key].value| >= 8 then m[key].value[8..] else []
  {
    hide Counter, Signed64, Coded, Deadline;
    if Live(m, key, now) {
      SignedIsCongruent(Counter(m[key].value) + delta);
    }
  }

  method Perform(kv: KVStore, ev: Event) returns (answer: Answer)
    requires kv.Valid()
    modifies kv.Repr
    ensures kv.Valid() && fresh(kv.Repr - old(kv.Repr))
    ensures Reply(answer, kv.Contents) == Lazy(old(kv.Contents), ev)
  {
    match ev.op
    case DoGet(key) => {
      var out := kv.Get(key, ev.now);
      answer := Bytes(if out == null then None else Some(out[..]));
    }
    case DoSet(key, value, ttlMs) => {
      var buf := new byte[|value|](i requires 0 <= i < |value| => value[i]);
      assert buf[..] == value;
      kv.Set(key, buf, ttlMs, ev.now);
      answer := Nothing;
    }
    case DoDelete(key) => {
      kv.Delete(key);
      answer := Nothing;
    }
    case DoIncrement(key, delta, ttlMs) => {
      var n := kv.Increment(key, delta, ttlMs, ev.now);
      answer := Count(n);
    }
    case DoExists(key) => {
      var found := kv.Exists(key, ev.now);
      answer := Found(found);
    }
  }

  /** The store itself, run over operations with a clock that does not go back, answers as eager expiry. */
  method RunStore(kv: KVStore, evs: seq<Event>, ghost t: int) returns (answers: seq<Answer>)
    requires kv.Valid() && Forward(t, evs)
    modifies kv.Repr
    ensures kv.Valid() && fresh(kv.Repr - old(kv.Repr))
    ensures answers == EagerAnswers(Purge(old(kv.Contents), t), evs)
    decreases |evs|
  {
    hide Lazy, Eager, Purge;
    LazyRefinesEager(kv.Contents, t, evs);
    if |evs| == 0 {
      return [];
    }
    StepRefines(kv.Contents, t, evs[0]);
    var first := Perform(kv, evs[0]);
    var rest := RunStore(kv, evs[1..], evs[0].now);
    answers := [first] + rest;
  }

  /** Neither the caller's buffer nor a returned one aliases the stored bytes: whatever is written to either,
      Get answers as if nothing had been. */
  method NoAliasing(kv: KVStore, key: string, value: array<byte>, ttlMs: Option<u64>, now: int, t1: int, t2: int,
                    junk1: int -> byte, junk2: int -> byte)
    returns (first: array?<byte>, second: array?<byte>)
    requires kv.Valid() && value !in kv.Repr
    modifies kv.Repr, value
    ensures var m := AfterSet(old(kv.Contents), key, old(value[..]), ttlMs, now);
            var got := Got(Reaped(m, key, t1), key, t2);
            (second == null <==> got.None?) && (second != null ==> got == Some(second[..]))
  {
    kv.Set(key, value, ttlMs, now);
    forall i | 0 <= i < value.Length {
      value[i] := junk1(i);
    }
    first := kv.Get(key, t1);
    if first != null {
      forall i | 0 <= i < first.Length {
        first[i] := junk2(i);
      }
    }
    second := kv.Get(key, t2);
  }
}
