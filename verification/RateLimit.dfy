/** The fixed-window rate limiter over the store's counters. */
module RateLimit {
  import opened Words
  import opened Wrappers
  import opened KvStore

  datatype Config = Config(limit: i64, windowSeconds: u64, status: nat)

  /** The window in nanoseconds fits the clock's durations. */
  predicate Fits(c: Config) {
    c.windowSeconds * 1_000_000_000 < TWO64 / 2
  }

  function Window(c: Config): nat {
    c.windowSeconds * 1_000_000_000
  }

  /** window_seconds * 1000 in u64. */
  function Ttl(c: Config): u64 {
    (c.windowSeconds * 1000) % TWO64
  }

  lemma DurationIsWindow(c: Config)
    requires Fits(c)
    ensures Duration(Ttl(c)) == Window(c)
  {
    DurationIsExact(Ttl(c));
  }

  function KvKey(resolved: string): string {
    "rl:" + resolved
  }

  lemma KvKeyIsInjective(a: string, b: string)
    ensures KvKey(a) == KvKey(b) ==> a == b
  {
    assert KvKey(a)[3..] == a && KvKey(b)[3..] == b;
  }

  datatype Req = Req(key: string, now: int)

  datatype Verdict = Verdict(admitted: bool, count: i64, store: Store)

  function Serve(c: Config, m: Store, r: Req): Verdict {
    var count := Incremented(m, KvKey(r.key), 1, r.now);
    Verdict(count <= c.limit, count, AfterIncrement(m, KvKey(r.key), 1, Some(Ttl(c)), r.now))
  }

  /** serve up to the call of the next handler; header values stand for their decimal text. */
  method ServeRequest(c: Config, kv: KVStore, r: Req, headers: map<string, int>)
    returns (rejected: Option<nat>, sent: map<string, int>)
    requires kv.Valid()
    modifies kv.Repr
    ensures kv.Valid() && fresh(kv.Repr - old(kv.Repr))
    ensures var v := Serve(c, old(kv.Contents), r);
            var before := if v.admitted then headers else headers["Retry-After" := c.windowSeconds];
            && kv.Contents == v.store
            && "rl:" + r.key in kv.Contents
            && kv.Contents - {"rl:" + r.key} == old(kv.Contents) - {"rl:" + r.key}
            && rejected == (if v.admitted then None else Some(c.status))
            && sent == before["X-RateLimit-Limit" := c.limit]
                             ["X-RateLimit-Remaining" := if v.admitted then Signed64(c.limit - v.count) else 0]
  {
    sent := headers;
    var ttlMs := Some(Ttl(c));
    var count := kv.Increment(KvKey(r.key), 1, ttlMs, r.now);
    if count > c.limit {
      sent := sent["Retry-After" := c.windowSeconds];
      sent := sent["X-RateLimit-Limit" := c.limit];
      sent := sent["X-RateLimit-Remaining" := 0];
      return Some(c.status), sent;
    }
    var remaining := Signed64(c.limit - count);
    sent := sent["X-RateLimit-Limit" := c.limit];
    sent := sent["X-RateLimit-Remaining" := remaining];
    rejected := None;
  }

  // ---- runs ----

  /** The store after a run of requests, of any keys, on a new store. */
  function StoreAfter(c: Config, reqs: seq<Req>): Store {
    if |reqs| == 0 then map[]
    else Serve(c, StoreAfter(c, reqs[..|reqs| - 1]), reqs[|reqs| - 1]).store
  }

  predicate Admitted(c: Config, reqs: seq<Req>, p: nat)
    requires p < |reqs|
  {
    Serve(c, StoreAfter(c, reqs[..p]), reqs[p]).admitted
  }

  /** The clock does not go back. */
  ghost predicate Ordered(reqs: seq<Req>) {
    forall p, q :: 0 <= p <= q < |reqs| ==> reqs[p].now <= reqs[q].now
  }

  /** When the requests of one key came. */
  function Times(reqs: seq<Req>, key: string): (ts: seq<int>)
    ensures |ts| <= |reqs|
  {
    if |reqs| == 0 then []
    else
      var n := |reqs| - 1;
      Times(reqs[..n], key) + if reqs[n].key == key then [reqs[n].now] else []
  }

  // ---- lifetimes, on times alone ----

  ghost predicate Sorted(ts: seq<int>) {
    forall i, j :: 0 <= i <= j < |ts| ==> ts[i] <= ts[j]
  }

  /** The request that opened the lifetime of request i: a new one opens after a window has passed since
      the last was opened. */
  function Opener(ts: seq<int>, w: nat, i: nat): (s: nat)
    requires i < |ts|
    ensures s <= i
  {
    if i == 0 then 0
    else
      var s := Opener(ts, w, i - 1);
      if ts[i] > ts[s] + w then i else s
  }

  /** Request i is among the first `limit` of its lifetime. */
  predicate Among(ts: seq<int>, w: nat, limit: int, i: nat)
    requires i < |ts|
  {
    i - Opener(ts, w, i) < limit
  }

  lemma {:induction false} OpenerOfPrefix(ts: seq<int>, n: nat, w: nat, i: nat)
    requires i < n <= |ts|
    ensures Opener(ts[..n], w, i) == Opener(ts, w, i)
  {
    if i > 0 {
      OpenerOfPrefix(ts, n, w, i - 1);
    }
  }

  /** Lifetimes follow one another, more than a window apart. */
  lemma {:induction false} OpenersApart(ts: seq<int>, w: nat, i: nat, j: nat)
    requires Sorted(ts) && i <= j < |ts|
    ensures Opener(ts, w, i) <= Opener(ts, w, j)
    ensures var s, t := Opener(ts, w, i), Opener(ts, w, j);
            s < t ==> i < t && ts[t] > ts[s] + w
    decreases j
  {
    if i < j {
      OpenersApart(ts, w, i, j - 1);
    }
  }

  // ---- the limiter follows the lifetimes ----

  ghost predicate Tracks(c: Config, m: Store, key: string, ts: seq<int>) {
    if |ts| == 0 then KvKey(key) !in m
    else
      var s := Opener(ts, Window(c), |ts| - 1);
      && KvKey(key) in m
      && m[KvKey(key)].deadline == Some(ts[s] + Window(c))
      && Counter(m[KvKey(key)].value) == |ts| - s
  }

  lemma CountIs(c: Config, m: Store, key: string, ts: seq<int>, now: int)
    requires Fits(c) && Tracks(c, m, key, ts) && |ts| < TWO64 / 2 - 1
    ensures var all := ts + [now];
            && Incremented(m, KvKey(key), 1, now) == |ts| + 1 - Opener(all, Window(c), |ts|)
            && Tracks(c, AfterIncrement(m, KvKey(key), 1, Some(Ttl(c)), now), key, all)
  {
    hide Counter, Coded, Recoded, Duration, Signed64, Ttl, KvKey, Opener, AfterIncrement, Window, Fits, Live,
         Incremented;
    DurationIsWindow(c);
    IncrementKeepsDeadline(m, KvKey(key), 1, Some(Ttl(c)), now);
    OpenerOfNext(ts, Window(c), now);
    CountGoesOn(c, m, key, ts, now);
  }

  /** A live counter has the count of the lifetime so far; a request within it counts one more. */
  lemma CountGoesOn(c: Config, m: Store, key: string, ts: seq<int>, now: int)
    requires Tracks(c, m, key, ts) && |ts| < TWO64 / 2 - 1
    ensures |ts| == 0 ==> !Live(m, KvKey(key), now) && Incremented(m, KvKey(key), 1, now) == 1
    ensures |ts| > 0 ==>
              var s := Opener(ts, Window(c), |ts| - 1);
              && (Live(m, KvKey(key), now) <==> now <= ts[s] + Window(c))
              && Incremented(m, KvKey(key), 1, now) == (if Live(m, KvKey(key), now) then |ts| - s + 1 else 1)
              && m[KvKey(key)].deadline == Some(ts[s] + Window(c))
  {
    hide Counter, Signed64, KvKey, Opener, Window;
    if |ts| > 0 {
      SmallSigned(|ts| - Opener(ts, Window(c), |ts| - 1) + 1);
    }
  }

  lemma OpenerOfNext(ts: seq<int>, w: nat, now: int)
    ensures var n := |ts|;
            && |ts + [now]| == n + 1
            && Opener(ts + [now], w, n) ==
                 (if n == 0 then 0
                  else var s := Opener(ts, w, n - 1); if now > ts[s] + w then n else s)
            && (ts + [now])[Opener(ts + [now], w, n)] ==
                 (if n == 0 then now
                  else var s := Opener(ts, w, n - 1); if now > ts[s] + w then now else ts[s])
  {
    if |ts| > 0 {
      assert (ts + [now])[..|ts|] == ts;
      OpenerOfPrefix(ts + [now], |ts|, w, |ts| - 1);
    }
  }

  lemma SmallSigned(n: int)
    requires 0 <= n < TWO64 / 2
    ensures Signed64(n) == n
  {
  }

  lemma OtherKeyTracks(c: Config, m: Store, key: string, other: string, now: int, ts: seq<int>)
    requires key != other && Tracks(c, m, key, ts)
    ensures Tracks(c, AfterIncrement(m, KvKey(other), 1, Some(Ttl(c)), now), key, ts)
  {
    hide Counter, Coded, Recoded, Duration, Signed64, Ttl, KvKey, Opener;
    KvKeyIsInjective(key, other);
  }

  lemma {:induction false} StoreTracks(c: Config, reqs: seq<Req>, key: string)
    requires Fits(c) && |reqs| < TWO64 / 2
    ensures Tracks(c, StoreAfter(c, reqs), key, Times(reqs, key))
    decreases |reqs|
  {
    hide Tracks, AfterIncrement;
    if |reqs| == 0 {
      TracksNothing(c, key);
    } else {
      var n := |reqs| - 1;
      StoreTracks(c, reqs[..n], key);
      var m, ts := StoreAfter(c, reqs[..n]), Times(reqs[..n], key);
      if reqs[n].key == key {
        CountIs(c, m, key, ts, reqs[n].now);
      } else {
        OtherKeyTracks(c, m, key, reqs[n].key, reqs[n].now, ts);
        assert Times(reqs, key) == ts;
      }
    }
  }

  lemma TracksNothing(c: Config, key: string)
    ensures Tracks(c, map[], key, [])
  {
  }

  /** Where request p stands among the requests of its key. */
  function Index(reqs: seq<Req>, p: nat): nat
    requires p < |reqs|
  {
    |Times(reqs[..p], reqs[p].key)|
  }

  lemma {:induction false} TimesAt(reqs: seq<Req>, p: nat, n: nat)
    requires p < n <= |reqs|
    ensures var ts, i := Times(reqs[..n], reqs[p].key), Index(reqs, p);
            i < |ts| && ts[i] == reqs[p].now && ts[..i] == Times(reqs[..p], reqs[p].key)
    decreases n
  {
    var key := reqs[p].key;
    assert reqs[..n][..n - 1] == reqs[..n - 1];
    if p < n - 1 {
      TimesAt(reqs, p, n - 1);
      var before, i := Times(reqs[..n - 1], key), Index(reqs, p);
      var ts := Times(reqs[..n], key);
      assert ts[..|before|] == before;
      assert ts[..i] == before[..i];
    }
  }

  /** The count served is the request's place in its lifetime, from 1 on: so the remaining requests that an
      admitted one is told are those its lifetime still admits. */
  lemma CountIsPlace(c: Config, reqs: seq<Req>, p: nat)
    requires Fits(c) && p < |reqs| < TWO64 / 2
    ensures var ts, i := Times(reqs, reqs[p].key), Index(reqs, p);
            var v := Serve(c, StoreAfter(c, reqs[..p]), reqs[p]);
            && i < |ts|
            && v.count == i - Opener(ts, Window(c), i) + 1
            && (v.admitted ==> Signed64(c.limit - v.count) == c.limit - v.count >= 0)
  {
    hide Tracks, AfterIncrement, Incremented, Times, Opener;
    var key, i := reqs[p].key, Index(reqs, p);
    var ts, before := Times(reqs, key), Times(reqs[..p], key);
    assert reqs[..|reqs|] == reqs;
    TimesAt(reqs, p, |reqs|);
    StoreTracks(c, reqs[..p], key);
    ShortTimes(reqs[..p], key);
    CountIs(c, StoreAfter(c, reqs[..p]), key, before, reqs[p].now);
    assert ts[..i + 1] == before + [reqs[p].now];
    OpenerOfPrefix(ts, i + 1, Window(c), i);
  }

  /** A request is rejected exactly when `limit` earlier requests of its key came in the lifetime of its
      counter; other keys do not matter. No clock is needed for that, only that no count overflows. */
  lemma AdmittedIffAmong(c: Config, reqs: seq<Req>, p: nat)
    requires Fits(c) && p < |reqs| < TWO64 / 2
    ensures var ts := Times(reqs, reqs[p].key);
            && Index(reqs, p) < |ts| && ts[Index(reqs, p)] == reqs[p].now
            && (Admitted(c, reqs, p) <==> Among(ts, Window(c), c.limit, Index(reqs, p)))
  {
    hide Times, Opener;
    assert reqs[..|reqs|] == reqs;
    TimesAt(reqs, p, |reqs|);
    CountIsPlace(c, reqs, p);
  }

  lemma ShortTimes(reqs: seq<Req>, key: string)
    ensures |Times(reqs, key)| <= |reqs|
  {
  }

  // ---- counting ----

  function Span(s: nat, n: nat): (r: set<nat>)
    ensures |r| == n && forall i :: i in r <==> s <= i < s + n
  {
    if n == 0 then {} else Span(s, n - 1) + {s + n - 1}
  }

  lemma {:induction false} Smaller(a: set<nat>, b: set<nat>)
    requires a <= b
    ensures |a| <= |b|
  {
    assert b == a + (b - a);
  }

  /** One lifetime admits at most `limit` requests. */
  lemma LifetimeAdmitsAtMostLimit(ts: seq<int>, w: nat, limit: nat, s: nat, a: set<nat>)
    requires forall i :: i in a ==> i < |ts| && Opener(ts, w, i) == s && Among(ts, w, limit, i)
    ensures |a| <= limit
  {
    Smaller(a, Span(s, limit));
  }

  /** One window meets at most two lifetimes. */
  lemma TwoLifetimes(ts: seq<int>, w: nat, from: int, i: nat, j: nat, k: nat)
    requires Sorted(ts) && i < |ts| && j < |ts| && k < |ts|
    requires from <= ts[i] && from <= ts[j] && ts[k] <= from + w
    ensures !(Opener(ts, w, i) < Opener(ts, w, j) < Opener(ts, w, k))
  {
    if Opener(ts, w, i) < Opener(ts, w, j) < Opener(ts, w, k) {
      Before(ts, w, i, j);
      Before(ts, w, j, k);
      OpenersApart(ts, w, i, j);
      OpenersApart(ts, w, j, k);
    }
  }

  lemma Before(ts: seq<int>, w: nat, i: nat, j: nat)
    requires Sorted(ts) && i < |ts| && j < |ts| && Opener(ts, w, i) < Opener(ts, w, j)
    ensures i < j
  {
    if j <= i {
      OpenersApart(ts, w, j, i);
    }
  }

  /** Requests within one window that are among the first of their lifetimes; when the window meets two
      lifetimes, the opener of the first lies before it. */
  lemma WindowHoldsFewerThanTwice(ts: seq<int>, w: nat, limit: nat, from: int, a: set<nat>)
    requires Sorted(ts) && limit > 0
    requires forall i :: i in a ==> i < |ts| && from <= ts[i] <= from + w && Among(ts, w, limit, i)
    ensures |a| <= 2 * limit - 1
  {
    hide Sorted, Opener;
    if i, j :| i in a && j in a && Opener(ts, w, i) < Opener(ts, w, j) {
      TwoLifetimesHoldFewer(ts, w, limit, from, a, i, j);
    } else if i :| i in a {
      LifetimeAdmitsAtMostLimit(ts, w, limit, Opener(ts, w, i), a);
    }
  }

  lemma TwoLifetimesHoldFewer(ts: seq<int>, w: nat, limit: nat, from: int, a: set<nat>, i: nat, j: nat)
    requires Sorted(ts) && limit > 0 && i in a && j in a
    requires forall k :: k in a ==> k < |ts| && from <= ts[k] <= from + w && Among(ts, w, limit, k)
    requires Opener(ts, w, i) < Opener(ts, w, j)
    ensures |a| <= 2 * limit - 1
  {
    hide Sorted, Opener;
    var s, t := Opener(ts, w, i), Opener(ts, w, j);
    forall k | k in a
      ensures Opener(ts, w, k) == s || Opener(ts, w, k) == t
    {
      TwoLifetimes(ts, w, from, i, j, k);
      TwoLifetimes(ts, w, from, i, k, j);
      TwoLifetimes(ts, w, from, k, i, j);
    }
    var b := set k | k in a && Opener(ts, w, k) == s;
    FirstOpenerIsOut(ts, w, from, i, j);
    Smaller(b, Span(s + 1, limit - 1));
    LifetimeAdmitsAtMostLimit(ts, w, limit, t, a - b);
    assert a == b + (a - b);
  }

  lemma FirstOpenerIsOut(ts: seq<int>, w: nat, from: int, i: nat, j: nat)
    requires Sorted(ts) && i < |ts| && j < |ts| && ts[j] <= from + w && Opener(ts, w, i) < Opener(ts, w, j)
    ensures ts[Opener(ts, w, i)] < from
  {
    Before(ts, w, i, j);
    OpenersApart(ts, w, i, j);
  }

  /** limit requests of one lifetime, all but the opener at its very end, and limit more just after it. */
  function Burst(w: nat, limit: nat): seq<int> {
    seq(2 * limit, i => if i == 0 then 0 else if i < limit then w else w + 1)
  }

  lemma {:induction false} BurstOpeners(w: nat, limit: nat, i: nat)
    requires i < 2 * limit
    ensures Opener(Burst(w, limit), w, i) == if i < limit then 0 else limit
  {
    if i > 0 {
      BurstOpeners(w, limit, i - 1);
    }
  }

  lemma BurstIsAmong(w: nat, limit: nat)
    requires w > 0 && limit > 0
    ensures Sorted(Burst(w, limit))
    ensures forall i: nat :: 1 <= i < 2 * limit ==>
              w <= Burst(w, limit)[i] <= w + w && Among(Burst(w, limit), w, limit, i)
  {
    forall i: nat | 1 <= i < 2 * limit
      ensures Among(Burst(w, limit), w, limit, i)
    {
      BurstOpeners(w, limit, i);
    }
  }

  // ---- the bound on runs ----

  lemma {:induction false} TimesSorted(reqs: seq<Req>, key: string)
    requires Ordered(reqs)
    ensures Sorted(Times(reqs, key))
    ensures |reqs| > 0 ==> forall i :: 0 <= i < |Times(reqs, key)| ==> Times(reqs, key)[i] <= reqs[|reqs| - 1].now
  {
    if |reqs| > 0 {
      TimesSorted(reqs[..|reqs| - 1], key);
    }
  }

  /** Different requests of a key have different places among them. */
  lemma IndexIsInjective(reqs: seq<Req>, p: nat, q: nat)
    requires p < q < |reqs| && reqs[p].key == reqs[q].key
    ensures Index(reqs, p) < Index(reqs, q)
  {
    TimesAt(reqs, p, q);
  }

  lemma {:induction false} AsManyIndexes(reqs: seq<Req>, key: string, a: set<nat>, b: set<nat>)
    requires forall p :: p in a ==> p < |reqs| && reqs[p].key == key && Index(reqs, p) in b
    ensures |a| <= |b|
    decreases |a|
  {
    hide Index;
    if p :| p in a {
      var a2, b2 := a - {p}, b - {Index(reqs, p)};
      forall q | q in a2
        ensures Index(reqs, q) in b2
      {
        if q < p {
          IndexIsInjective(reqs, q, p);
        } else {
          IndexIsInjective(reqs, p, q);
        }
      }
      AsManyIndexes(reqs, key, a2, b2);
    }
  }

  /** The positions where a request of the key is admitted within the closed window from `from`. */
  ghost function AdmittedWithin(c: Config, reqs: seq<Req>, key: string, from: int): set<nat> {
    set p: nat | p < |reqs| && reqs[p].key == key && from <= reqs[p].now <= from + Window(c) && Admitted(c, reqs, p)
  }

  /** Under a clock that does not go back, in any run over any keys, any closed interval of one window
      length admits fewer than twice the limit for each key. */
  lemma FewerThanTwiceTheLimit(c: Config, reqs: seq<Req>, key: string, from: int)
    requires Fits(c) && c.limit > 0 && Ordered(reqs) && |reqs| < TWO64 / 2
    ensures |AdmittedWithin(c, reqs, key, from)| <= 2 * c.limit - 1
  {
    hide Index, Among, Times, Admitted, Sorted, Ordered;
    var a, ts, w := AdmittedWithin(c, reqs, key, from), Times(reqs, key), Window(c);
    var b := set i: nat | i < |ts| && from <= ts[i] <= from + w && Among(ts, w, c.limit, i);
    forall p | p in a
      ensures Index(reqs, p) in b
    {
      AdmittedIffAmong(c, reqs, p);
    }
    AsManyIndexes(reqs, key, a, b);
    TimesSorted(reqs, key);
    WindowHoldsFewerThanTwice(ts, w, c.limit, from, b);
  }

  /** The positions where a request of the key is admitted in the lifetime opened by its request s. */
  ghost function AdmittedInLifetime(c: Config, reqs: seq<Req>, key: string, s: nat): set<nat> {
    set p: nat | p < |reqs| && reqs[p].key == key && Admitted(c, reqs, p)
                 && Index(reqs, p) < |Times(reqs, key)| && Opener(Times(reqs, key), Window(c), Index(reqs, p)) == s
  }

  /** Each lifetime of a key's counter admits at most the limit. */
  lemma AtMostTheLimit(c: Config, reqs: seq<Req>, key: string, s: nat)
    requires Fits(c) && c.limit >= 0 && |reqs| < TWO64 / 2
    ensures |AdmittedInLifetime(c, reqs, key, s)| <= c.limit
  {
    hide Index, Among, Times, Admitted, Opener;
    var a, ts, w := AdmittedInLifetime(c, reqs, key, s), Times(reqs, key), Window(c);
    var b := set i: nat | i < |ts| && Opener(ts, w, i) == s && Among(ts, w, c.limit, i);
    forall p | p in a
      ensures Index(reqs, p) in b
    {
      AdmittedIffAmong(c, reqs, p);
    }
    AsManyIndexes(reqs, key, a, b);
    LifetimeAdmitsAtMostLimit(ts, w, c.limit, s, b);
  }

  /** Requests of one key at these times. */
  function RequestsAt(key: string, ts: seq<int>): seq<Req> {
    seq(|ts|, i requires 0 <= i < |ts| => Req(key, ts[i]))
  }

  lemma {:induction false} TimesOfRequests(key: string, ts: seq<int>, n: nat)
    requires n <= |ts|
    ensures Times(RequestsAt(key, ts)[..n], key) == ts[..n]
  {
    if n > 0 {
      TimesOfRequests(key, ts, n - 1);
      assert RequestsAt(key, ts)[..n][..n - 1] == RequestsAt(key, ts)[..n - 1];
    }
  }

  /** The bound is reached: for every limit and window there is a run with exactly as many admissions within
      one window. */
  lemma BoundIsReached(c: Config, key: string)
    requires Fits(c) && c.windowSeconds > 0 && c.limit > 0 && 2 * c.limit < TWO64 / 2
    ensures var reqs := RequestsAt(key, Burst(Window(c), c.limit));
            && Ordered(reqs)
            && |AdmittedWithin(c, reqs, key, Window(c))| == 2 * c.limit - 1
  {
    hide Burst, Among, Times, Admitted, Opener, Index, Fits;
    var w := Window(c);
    BurstIsAmong(w, c.limit);
    BurstLength(w, c.limit);
    var ts := Burst(w, c.limit);
    var reqs := RequestsAt(key, ts);
    assert Ordered(reqs);
    FewerThanTwiceTheLimit(c, reqs, key, w);
    forall p | p in Span(1, 2 * c.limit - 1)
      ensures p in AdmittedWithin(c, reqs, key, w)
    {
      TimesOfRequests(key, ts, p);
      TimesOfRequests(key, ts, |ts|);
      assert ts[..|ts|] == ts && reqs[..|reqs|] == reqs;
      IndexIs(reqs, p, ts);
      AdmittedIffAmong(c, reqs, p);
    }
    Smaller(Span(1, 2 * c.limit - 1), AdmittedWithin(c, reqs, key, w));
  }

  lemma BurstLength(w: nat, limit: nat)
    ensures |Burst(w, limit)| == 2 * limit
  {
  }

  lemma IndexIs(reqs: seq<Req>, p: nat, ts: seq<int>)
    requires p < |reqs| && p <= |ts| && Times(reqs[..p], reqs[p].key) == ts[..p]
    ensures Index(reqs, p) == p
  {
  }
}
