/** The instance pool as atomic steps of any number of Get, Put and Close calls over a buffered channel
    of idle instances, a semaphore channel, an atomic counter and a closed flag. */
module Pool {
  import opened Wrappers

  /** An instance, numbered in the order the pool created them. */
  type Inst = nat

  /** Where a call stands: before the named operation of the source. */
  datatype Pc =
    | Done
    // Get
    | GetStart                // closed.Load
    | GetFast                 // first select
    | GetSelect               // blocking select
    | GetRecheck              // second look at idle, holding a slot
    | GetExtra(e: Inst)       // release of the slot that e does not need
    | GetCreate               // newEntry
    | GetCount(e: Inst)       // total.Add(1)
    | GetUndo                 // release of the slot after a failed creation
    // Put
    | PutStart(e: Inst)       // closed.Load
    | PutRetire(e: Inst)      // closeEntry on a closed pool
    | PutSend(e: Inst)        // select with the send
    | PutDiscard(e: Inst)     // closeEntry on a full channel
    | PutUncount              // total.Add(-1)
    | PutRelease              // release of the slot
    // Close
    | CloseStart              // closed.CompareAndSwap
    | CloseLock               // mu.Lock
    | CloseDrain              // select of the drain loop
    | CloseEntry(e: Inst)     // closeEntryFull
    | CloseUncount            // total.Add(-1)
    | CloseRelease            // release of the slot

  /** max == 0 is an unbounded pool. `held` are the instances callers got and have not put back, `dead`
      the instances closed so far, `retired` how many of those Put closed after Close. The last four are
      bookkeeping about the callers and the instances; the pool itself has the others. */
  datatype Pool = Pool(
    max: nat, cap: nat,
    idle: seq<Inst>, sem: nat, total: int, closed: bool, locked: bool,
    threads: seq<Pc>,
    held: set<Inst>, dead: set<Inst>, created: nat, retired: nat)

  /** What a step may choose: the branch of Get's blocking select, or whether a creation succeeds. */
  datatype Choice = TakeIdle | TakeSlot | Cancelled | Created | Failed

  datatype Event =
    | StartGet
    | StartPut(e: Inst)
    | StartClose
    | Run(t: nat, choice: Choice)

  function At(s: Pool, t: nat, pc: Pc): Pool
    requires t < |s.threads|
  {
    s.(threads := s.threads[t := pc])
  }

  /** Get returns e to its caller. */
  function Grant(s: Pool, t: nat, e: Inst): Pool
    requires t < |s.threads|
  {
    At(s, t, Done).(held := s.held + {e})
  }

  /** One atomic step; `None` when it cannot happen now (the call is blocked, or has returned). */
  function Step(s: Pool, ev: Event): Option<Pool> {
    match ev
    case StartGet => Some(s.(threads := s.threads + [GetStart]))
    case StartClose => Some(s.(threads := s.threads + [CloseStart]))
    case StartPut(e) =>
      if e in s.held then Some(s.(threads := s.threads + [PutStart(e)], held := s.held - {e})) else None
    case Run(t, c) =>
      if t >= |s.threads| then None
      else if IsGet(s.threads[t]) then StepGet(s, t, c)
      else if IsPut(s.threads[t]) then StepPut(s, t)
      else StepClose(s, t)
  }

  predicate IsGet(pc: Pc) {
    || pc.GetStart? || pc.GetFast? || pc.GetSelect? || pc.GetRecheck?
    || pc.GetExtra? || pc.GetCreate? || pc.GetCount? || pc.GetUndo?
  }

  predicate IsPut(pc: Pc) {
    pc.PutStart? || pc.PutRetire? || pc.PutSend? || pc.PutDiscard? || pc.PutUncount? || pc.PutRelease?
  }

  /** Get before it holds anything. */
  predicate Looks(pc: Pc) {
    pc.GetStart? || pc.GetFast? || pc.GetSelect? || pc.GetRecheck?
  }

  /** Close before it holds anything. */
  predicate Enters(pc: Pc) {
    pc.CloseStart? || pc.CloseLock? || pc.CloseDrain?
  }

  /** A call that releases a slot. */
  predicate Releases(pc: Pc) {
    pc.GetExtra? || pc.GetUndo? || pc.PutRelease? || pc.CloseRelease?
  }

  function StepGet(s: Pool, t: nat, c: Choice): Option<Pool>
    requires t < |s.threads| && IsGet(s.threads[t])
  {
    match s.threads[t]
    case GetStart => Some(At(s, t, if s.closed then Done else GetFast))
    case GetFast =>
      if |s.idle| > 0 then Some(Grant(s.(idle := s.idle[1..]), t, s.idle[0]))
      else Some(At(s, t, if s.max > 0 then GetSelect else GetCreate))
    case GetSelect =>
      (match c
       case TakeSlot => if s.sem < s.max then Some(At(s, t, GetRecheck).(sem := s.sem + 1)) else None
       case TakeIdle => if |s.idle| > 0 then Some(Grant(s.(idle := s.idle[1..]), t, s.idle[0])) else None
       case Cancelled => Some(At(s, t, Done))
       case _ => None)
    case GetRecheck =>
      if |s.idle| > 0 then Some(At(s, t, GetExtra(s.idle[0])).(idle := s.idle[1..]))
      else Some(At(s, t, GetCreate))
    case GetExtra(e) => if s.sem > 0 then Some(Grant(s, t, e).(sem := s.sem - 1)) else None
    case GetCreate =>
      (match c
       case Created => Some(At(s, t, GetCount(s.created)).(created := s.created + 1))
       case Failed => Some(At(s, t, if s.max > 0 then GetUndo else Done))
       case _ => None)
    case GetCount(e) => Some(Grant(s, t, e).(total := s.total + 1))
    case GetUndo => if s.sem > 0 then Some(At(s, t, Done).(sem := s.sem - 1)) else None
  }

  function StepPut(s: Pool, t: nat): Option<Pool>
    requires t < |s.threads| && IsPut(s.threads[t])
  {
    match s.threads[t]
    case PutStart(e) => Some(At(s, t, if s.closed then PutRetire(e) else PutSend(e)))
    case PutRetire(e) => Some(At(s, t, Done).(dead := s.dead + {e}, retired := s.retired + 1))
    case PutSend(e) =>
      if |s.idle| < s.cap then Some(At(s, t, Done).(idle := s.idle + [e])) else Some(At(s, t, PutDiscard(e)))
    case PutDiscard(e) => Some(At(s, t, PutUncount).(dead := s.dead + {e}))
    case PutUncount => Some(At(s, t, if s.max > 0 then PutRelease else Done).(total := s.total - 1))
    case PutRelease => if s.sem > 0 then Some(At(s, t, Done).(sem := s.sem - 1)) else None
  }

  function StepClose(s: Pool, t: nat): Option<Pool>
    requires t < |s.threads| && !IsGet(s.threads[t]) && !IsPut(s.threads[t])
  {
    match s.threads[t]
    case Done => None
    case CloseStart => Some(if s.closed then At(s, t, Done) else At(s, t, CloseLock).(closed := true))
    case CloseLock => if s.locked then None else Some(At(s, t, CloseDrain).(locked := true))
    case CloseDrain =>
      if |s.idle| > 0 then Some(At(s, t, CloseEntry(s.idle[0])).(idle := s.idle[1..]))
      else Some(At(s, t, Done).(locked := false))
    case CloseEntry(e) => Some(At(s, t, CloseUncount).(dead := s.dead + {e}))
    case CloseUncount => Some(At(s, t, if s.max > 0 then CloseRelease else CloseDrain).(total := s.total - 1))
    case CloseRelease => if s.sem > 0 then Some(At(s, t, CloseDrain).(sem := s.sem - 1)) else None
  }

  /** A run, step by step; `None` when some step cannot happen. */
  function Runs(s: Pool, evs: seq<Event>): Option<Pool>
    decreases |evs|
  {
    if |evs| == 0 then Some(s)
    else
      match Step(s, evs[0])
      case None => None
      case Some(s1) => Runs(s1, evs[1..])
  }

  // ---- NewPool ----

  function Upto(n: nat): seq<Inst> {
    if n == 0 then [] else Upto(n - 1) + [n - 1]
  }

  /** The pool NewPool returns: `min` idle instances, each with its slot. */
  function Fresh(min: nat, max: nat): Pool {
    var cap := if max > 0 then max else if 4 * min < 16 then 16 else 4 * min;
    Pool(max, cap, Upto(min), if max > 0 then min else 0, min, false, false, [], {}, {}, min, 0)
  }

  /** The instance count NewPool settles on. */
  function Minimum(cfgMin: int, max: nat): (min: nat)
    ensures min >= 1
    ensures max > 0 ==> min <= max
    ensures cfgMin <= 0 ==> min == 1
    ensures cfgMin > 0 ==> min == if max == 0 || cfgMin <= max then cfgMin else max
  {
    var min := if cfgMin <= 0 then 1 else cfgMin;
    if max > 0 && min > max then max else min
  }

  /** NewPool. `creates` says which creations succeed; a failed one closes what was created. */
  method NewPool(cfgMin: int, cfgMax: int, creates: nat -> bool) returns (p: Option<Pool>, closed: seq<Inst>)
    ensures var max := if cfgMax > 0 then cfgMax else 0;
            var min := Minimum(cfgMin, max);
            && (p.Some? <==> forall i :: 0 <= i < min ==> creates(i))
            && (p.Some? ==> p.value == Fresh(min, max) && closed == [])
            && (p.None? ==> exists n :: 0 <= n < min && !creates(n) && closed == Upto(n))
  {
    closed := [];
    var max := if cfgMax > 0 then cfgMax else 0;
    var min := Minimum(cfgMin, max);
    var bufSize := max;
    if bufSize <= 0 {
      bufSize := min * 4;
      if bufSize < 16 {
        bufSize := 16;
      }
    }
    var q := Pool(max, bufSize, [], 0, 0, false, false, [], {}, {}, 0, 0);
    for i := 0 to min
      invariant forall j :: 0 <= j < i ==> creates(j)
      invariant q == Pool(max, bufSize, Upto(i), if max > 0 then i else 0, i, false, false, [], {}, {}, i, 0)
    {
      if !creates(i) {
        closed := DrainAll(q.idle);
        return None, closed;
      }
      q := q.(idle := q.idle + [i], created := i + 1, total := q.total + 1);
      if max > 0 {
        q := q.(sem := q.sem + 1);
      }
    }
    p := Some(q);
  }

  /** drainClose with nobody else running: every idle instance is closed, in order. */
  method DrainAll(idle: seq<Inst>) returns (closed: seq<Inst>)
    ensures closed == idle
  {
    closed := [];
    var rest := idle;
    while |rest| > 0
      invariant closed + rest == idle
    {
      closed := closed + [rest[0]];
      rest := rest[1..];
    }
  }

  // ---- what each position accounts for ----

  /** The instance a call is carrying. */
  function Carries(pc: Pc): Option<Inst> {
    match pc
    case GetExtra(e) => Some(e)
    case GetCount(e) => Some(e)
    case PutStart(e) => Some(e)
    case PutRetire(e) => Some(e)
    case PutSend(e) => Some(e)
    case PutDiscard(e) => Some(e)
    case CloseEntry(e) => Some(e)
    case _ => None
  }

  function Carrying(pc: Pc): nat {
    if Carries(pc).Some? then 1 else 0
  }

  function CarriesThis(pc: Pc, e: Inst): nat {
    if Carries(pc) == Some(e) then 1 else 0
  }

  /** The slots a call holds beyond that of the instance it carries. */
  function Spare(pc: Pc): nat {
    match pc
    case GetRecheck | GetExtra(_) | GetCreate | GetUndo => 1
    case PutUncount | PutRelease | CloseUncount | CloseRelease => 1
    case _ => 0
  }

  /** How much of `total` a call accounts for. */
  function Counted(pc: Pc): nat {
    match pc
    case GetCount(_) => 0
    case PutUncount | CloseUncount => 1
    case _ => Carrying(pc)
  }

  /** The sum of a share over all calls. */
  function Sum(ts: seq<Pc>, w: Pc -> nat): nat {
    if |ts| == 0 then 0 else Sum(ts[..|ts| - 1], w) + w(ts[|ts| - 1])
  }

  function This(e: Inst): Pc -> nat {
    pc => CarriesThis(pc, e)
  }

  /** Replacing one call's position changes a sum by just that call's share. */
  lemma {:induction false} SumAt(ts: seq<Pc>, t: nat, pc: Pc, w: Pc -> nat)
    requires t < |ts|
    ensures Sum(ts[t := pc], w) == Sum(ts, w) - w(ts[t]) + w(pc)
    ensures w(ts[t]) <= Sum(ts, w)
  {
    var n := |ts| - 1;
    if t == n {
      assert ts[t := pc][..n] == ts[..n];
    } else {
      SumAt(ts[..n], t, pc, w);
      assert ts[t := pc][..n] == ts[..n][t := pc];
    }
  }

  lemma SumAppend(ts: seq<Pc>, pc: Pc, w: Pc -> nat)
    ensures Sum(ts + [pc], w) == Sum(ts, w) + w(pc)
  {
    assert (ts + [pc])[..|ts|] == ts;
  }

  /** How often e occurs in the idle channel. */
  function Occurs(idle: seq<Inst>, e: Inst): nat {
    if |idle| == 0 then 0 else (if idle[0] == e then 1 else 0) + Occurs(idle[1..], e)
  }

  lemma {:induction false} OccursAppend(idle: seq<Inst>, x: Inst, e: Inst)
    ensures Occurs(idle + [x], e) == Occurs(idle, e) + (if x == e then 1 else 0)
  {
    if |idle| == 0 {
      assert idle + [x] == [x];
    } else {
      OccursAppend(idle[1..], x, e);
      assert (idle + [x])[1..] == idle[1..] + [x];
    }
  }

  // ---- the invariant ----

  /** In how many places e is: idle, with a caller, carried by a call, closed. */
  function Places(s: Pool, e: Inst): nat {
    Occurs(s.idle, e) + (if e in s.held then 1 else 0) + Sum(s.threads, This(e)) + (if e in s.dead then 1 else 0)
  }

  /** How many instances are idle, with a caller, or carried by a call. */
  function Alive(s: Pool): nat {
    |s.idle| + |s.held| + Sum(s.threads, Carrying)
  }

  /** Every instance ever created is in exactly one place. */
  ghost predicate InOnePlace(s: Pool) {
    forall e: Inst :: Places(s, e) == if e < s.created then 1 else 0
  }

  /** Len counts the live instances that were announced, and the retired ones for ever. */
  ghost predicate TotalAdds(s: Pool) {
    s.total == |s.idle| + |s.held| + Sum(s.threads, Counted) + s.retired
  }

  /** A slot for every live instance, for every call holding one, and for ever for every retired one. */
  ghost predicate SlotsAdd(s: Pool) {
    s.max > 0 ==> s.cap == s.max && s.sem == Alive(s) + Sum(s.threads, Spare) + s.retired && s.sem <= s.max
  }

  /** Positions that the configuration or the closed flag rules out. */
  ghost predicate InPhase(s: Pool) {
    && |s.idle| <= s.cap && s.cap > 0
    && (!s.closed ==> s.retired == 0)
    && forall t :: 0 <= t < |s.threads| ==> Possible(s, s.threads[t])
  }

  predicate Possible(s: Pool, pc: Pc) {
    && (s.max > 0 ==> !Discards(pc))
    && (s.max == 0 ==>
          && !pc.GetSelect? && !pc.GetRecheck? && !pc.GetExtra? && !pc.GetUndo?
          && !pc.PutRelease? && !pc.CloseRelease?)
    && (!s.closed ==> !AfterClose(pc))
  }

  predicate Discards(pc: Pc) {
    pc.PutDiscard? || pc.PutUncount? || pc.PutRelease?
  }

  predicate AfterClose(pc: Pc) {
    pc.PutRetire? || pc.CloseLock? || pc.CloseDrain? || pc.CloseEntry? || pc.CloseUncount? || pc.CloseRelease?
  }

  ghost predicate Inv(s: Pool) {
    InOnePlace(s) && TotalAdds(s) && SlotsAdd(s) && InPhase(s)
  }

  // ---- every step keeps it ----

  lemma PlacesOf(s: Pool, e: Inst)
    requires InOnePlace(s)
    ensures Places(s, e) == if e < s.created then 1 else 0
  {
  }

  lemma TakeFirst(idle: seq<Inst>, e: Inst)
    ensures |idle| > 0 ==> Occurs(idle, e) == (if idle[0] == e then 1 else 0) + Occurs(idle[1..], e)
  {
  }

  /** The instance a call carries is with nobody else. */
  lemma CarriedAlone(s: Pool, t: nat)
    requires InOnePlace(s) && t < |s.threads|
    ensures Carries(s.threads[t]).Some? ==>
              var e := Carries(s.threads[t]).value;
              e !in s.held && e !in s.dead && Occurs(s.idle, e) == 0 && e < s.created
  {
    if Carries(s.threads[t]).Some? {
      var e := Carries(s.threads[t]).value;
      PlacesOf(s, e);
      SumAt(s.threads, t, Done, This(e));
    }
  }

  /** The first idle instance is with nobody else. */
  lemma IdleAlone(s: Pool)
    requires InOnePlace(s)
    ensures |s.idle| > 0 ==> s.idle[0] !in s.held && s.idle[0] !in s.dead
  {
    if |s.idle| > 0 {
      PlacesOf(s, s.idle[0]);
    }
  }

  lemma LookKeepsPlaces(s: Pool, t: nat, c: Choice, e: Inst)
    requires InOnePlace(s) && t < |s.threads| && Looks(s.threads[t]) && StepGet(s, t, c).Some?
    ensures var s2 := StepGet(s, t, c).value;
            Places(s2, e) == if e < s2.created then 1 else 0
  {
    hide Sum, Occurs, InOnePlace;
    PlacesOf(s, e);
    SumAt(s.threads, t, StepGet(s, t, c).value.threads[t], This(e));
    TakeFirst(s.idle, e);
    IdleAlone(s);
  }

  lemma GetKeepsPlaces(s: Pool, t: nat, c: Choice, e: Inst)
    requires InOnePlace(s) && t < |s.threads| && IsGet(s.threads[t]) && !Looks(s.threads[t]) && StepGet(s, t, c).Some?
    ensures var s2 := StepGet(s, t, c).value;
            Places(s2, e) == if e < s2.created then 1 else 0
  {
    hide Sum, Occurs, InOnePlace;
    PlacesOf(s, e);
    SumAt(s.threads, t, StepGet(s, t, c).value.threads[t], This(e));
    CarriedAlone(s, t);
  }

  lemma PutKeepsPlaces(s: Pool, t: nat, e: Inst)
    requires InOnePlace(s) && t < |s.threads| && IsPut(s.threads[t]) && StepPut(s, t).Some?
    ensures var s2 := StepPut(s, t).value;
            Places(s2, e) == if e < s2.created then 1 else 0
  {
    hide Sum, Occurs, InOnePlace;
    PlacesOf(s, e);
    SumAt(s.threads, t, StepPut(s, t).value.threads[t], This(e));
    CarriedAlone(s, t);
    if s.threads[t].PutSend? {
      OccursAppend(s.idle, s.threads[t].e, e);
    }
  }

  lemma EnterKeepsPlaces(s: Pool, t: nat, e: Inst)
    requires InOnePlace(s) && t < |s.threads| && Enters(s.threads[t]) && StepClose(s, t).Some?
    ensures var s2 := StepClose(s, t).value;
            Places(s2, e) == if e < s2.created then 1 else 0
  {
    hide Sum, Occurs, InOnePlace;
    PlacesOf(s, e);
    SumAt(s.threads, t, StepClose(s, t).value.threads[t], This(e));
    TakeFirst(s.idle, e);
    CarriedAlone(s, t);
  }

  lemma CloseKeepsPlaces(s: Pool, t: nat, e: Inst)
    requires InOnePlace(s) && t < |s.threads|
    requires !IsGet(s.threads[t]) && !IsPut(s.threads[t]) && !Enters(s.threads[t]) && StepClose(s, t).Some?
    ensures var s2 := StepClose(s, t).value;
            Places(s2, e) == if e < s2.created then 1 else 0
  {
    hide Sum, Occurs, InOnePlace;
    PlacesOf(s, e);
    SumAt(s.threads, t, StepClose(s, t).value.threads[t], This(e));
    CarriedAlone(s, t);
  }

  lemma StepKeepsPlaces(s: Pool, ev: Event)
    requires InOnePlace(s) && Step(s, ev).Some?
    ensures InOnePlace(Step(s, ev).value)
  {
    hide Sum, Occurs, StepGet, StepPut, StepClose;
    forall e: Inst
      ensures Places(Step(s, ev).value, e) == if e < Step(s, ev).value.created then 1 else 0
    {
      PlacesOf(s, e);
      match ev
      case StartGet => SumAppend(s.threads, GetStart, This(e));
      case StartClose => SumAppend(s.threads, CloseStart, This(e));
      case StartPut(x) => SumAppend(s.threads, PutStart(x), This(e));
      case Run(t, c) =>
        if IsGet(s.threads[t]) {
          if Looks(s.threads[t]) {
            LookKeepsPlaces(s, t, c, e);
          } else {
            GetKeepsPlaces(s, t, c, e);
          }
        } else if IsPut(s.threads[t]) {
          PutKeepsPlaces(s, t, e);
        } else if Enters(s.threads[t]) {
          EnterKeepsPlaces(s, t, e);
        } else {
          CloseKeepsPlaces(s, t, e);
        }
    }
  }

  lemma SumsMove(s: Pool, t: nat, pc: Pc)
    requires t < |s.threads|
    ensures Sum(s.threads[t := pc], Carrying) == Sum(s.threads, Carrying) - Carrying(s.threads[t]) + Carrying(pc)
    ensures Sum(s.threads[t := pc], Spare) == Sum(s.threads, Spare) - Spare(s.threads[t]) + Spare(pc)
    ensures Sum(s.threads[t := pc], Counted) == Sum(s.threads, Counted) - Counted(s.threads[t]) + Counted(pc)
    ensures Carrying(s.threads[t]) <= Sum(s.threads, Carrying) && Spare(s.threads[t]) <= Sum(s.threads, Spare)
  {
    SumAt(s.threads, t, pc, Carrying);
    SumAt(s.threads, t, pc, Spare);
    SumAt(s.threads, t, pc, Counted);
  }

  lemma PhaseOf(s: Pool, t: nat)
    requires InPhase(s) && t < |s.threads|
    ensures Possible(s, s.threads[t])
  {
  }

  /** Put on a bounded pool never finds the idle channel full. */
  lemma SendHasRoom(s: Pool, t: nat)
    requires Inv(s) && s.max > 0 && t < |s.threads| && s.threads[t].PutSend?
    ensures |s.idle| < s.cap
  {
    SumAt(s.threads, t, Done, Carrying);
  }

  /** What one call's move must do to the counter and to the slots, the sums aside. */
  predicate Balanced(s: Pool, s2: Pool, t: nat)
    requires t < |s.threads| == |s2.threads|
  {
    var before, after := s.threads[t], s2.threads[t];
    var instances := |s2.idle| - |s.idle| + |s2.held| - |s.held| + s2.retired - s.retired;
    && s2.threads == s.threads[t := after]
    && s2.max == s.max && s2.cap == s.cap
    && s2.total - s.total == instances + Counted(after) - Counted(before)
    && (s.max > 0 ==>
          && s2.sem - s.sem == instances + Carrying(after) + Spare(after) - Carrying(before) - Spare(before)
          && s2.sem <= s.max)
  }

  lemma BalancedKeepsBooks(s: Pool, s2: Pool, t: nat)
    requires TotalAdds(s) && SlotsAdd(s) && t < |s.threads| == |s2.threads| && Balanced(s, s2, t)
    ensures TotalAdds(s2) && SlotsAdd(s2)
  {
    hide Sum, Counted, Carrying, Spare;
    SumsMove(s, t, s2.threads[t]);
  }

  lemma SlotsFit(s: Pool)
    requires SlotsAdd(s)
    ensures s.max > 0 ==> s.sem <= s.max
  {
    hide Sum;
  }

  /** What a step needs to know of the state: the position is possible, the slots in use fit, and the
      instances at hand are with no caller. */
  predicate Ready(s: Pool, t: nat)
    requires t < |s.threads|
  {
    && Possible(s, s.threads[t])
    && (s.max > 0 ==> s.sem <= s.max)
    && (|s.idle| > 0 ==> s.idle[0] !in s.held)
    && (Carries(s.threads[t]).Some? ==> Carries(s.threads[t]).value !in s.held)
  }

  lemma InvIsReady(s: Pool, t: nat)
    requires Inv(s) && t < |s.threads|
    ensures Ready(s, t)
  {
    hide Sum, Occurs, Places, InOnePlace, TotalAdds;
    SlotsFit(s);
    PhaseOf(s, t);
    IdleAlone(s);
    CarriedAlone(s, t);
  }

  lemma FastIsBalanced(s: Pool, t: nat, c: Choice)
    requires t < |s.threads| && Ready(s, t)
    requires (s.threads[t].GetStart? || s.threads[t].GetFast?) && StepGet(s, t, c).Some?
    ensures Balanced(s, StepGet(s, t, c).value, t)
  {
  }

  lemma SelectIsBalanced(s: Pool, t: nat, c: Choice)
    requires t < |s.threads| && Ready(s, t)
    requires (s.threads[t].GetSelect? || s.threads[t].GetRecheck?) && StepGet(s, t, c).Some?
    ensures Balanced(s, StepGet(s, t, c).value, t)
  {
  }

  lemma CreateIsBalanced(s: Pool, t: nat, c: Choice)
    requires t < |s.threads| && Ready(s, t)
    requires (s.threads[t].GetCreate? || s.threads[t].GetCount?) && StepGet(s, t, c).Some?
    ensures Balanced(s, StepGet(s, t, c).value, t)
  {
  }

  lemma ReleaseIsBalanced(s: Pool, t: nat, c: Choice)
    requires t < |s.threads| && Ready(s, t)
    requires (s.threads[t].GetExtra? || s.threads[t].GetUndo?) && StepGet(s, t, c).Some?
    ensures Balanced(s, StepGet(s, t, c).value, t)
  {
  }

  lemma GetIsBalanced(s: Pool, t: nat, c: Choice)
    requires t < |s.threads| && Ready(s, t) && IsGet(s.threads[t]) && StepGet(s, t, c).Some?
    ensures Balanced(s, StepGet(s, t, c).value, t)
  {
    hide StepGet, Balanced, Ready;
    match s.threads[t]
    case GetStart | GetFast => FastIsBalanced(s, t, c);
    case GetSelect | GetRecheck => SelectIsBalanced(s, t, c);
    case GetCreate | GetCount(_) => CreateIsBalanced(s, t, c);
    case GetExtra(_) | GetUndo => ReleaseIsBalanced(s, t, c);
  }

  lemma PutIsBalanced(s: Pool, t: nat)
    requires t < |s.threads| && Ready(s, t) && IsPut(s.threads[t]) && StepPut(s, t).Some?
    ensures Balanced(s, StepPut(s, t).value, t)
  {
  }

  lemma EnterIsBalanced(s: Pool, t: nat)
    requires t < |s.threads| && Ready(s, t) && Enters(s.threads[t]) && StepClose(s, t).Some?
    ensures Balanced(s, StepClose(s, t).value, t)
  {
  }

  lemma CloseIsBalanced(s: Pool, t: nat)
    requires t < |s.threads| && Ready(s, t)
    requires !IsGet(s.threads[t]) && !IsPut(s.threads[t]) && !Enters(s.threads[t]) && StepClose(s, t).Some?
    ensures Balanced(s, StepClose(s, t).value, t)
  {
  }

  lemma GetKeepsPhase(s: Pool, t: nat, c: Choice)
    requires Inv(s) && t < |s.threads| && IsGet(s.threads[t]) && StepGet(s, t, c).Some?
    ensures InPhase(StepGet(s, t, c).value)
  {
    hide Sum, InOnePlace, TotalAdds;
  }

  lemma PutKeepsPhase(s: Pool, t: nat)
    requires Inv(s) && t < |s.threads| && IsPut(s.threads[t]) && StepPut(s, t).Some?
    ensures InPhase(StepPut(s, t).value)
  {
    if s.max > 0 && s.threads[t].PutSend? {
      SendHasRoom(s, t);
    }
    hide Sum, InOnePlace, TotalAdds;
  }

  lemma CloseKeepsPhase(s: Pool, t: nat)
    requires Inv(s) && t < |s.threads| && !IsGet(s.threads[t]) && !IsPut(s.threads[t]) && StepClose(s, t).Some?
    ensures InPhase(StepClose(s, t).value)
  {
    hide Sum, InOnePlace, TotalAdds;
  }

  lemma StepKeepsInv(s: Pool, ev: Event)
    requires Inv(s) && Step(s, ev).Some?
    ensures Inv(Step(s, ev).value)
  {
    hide Sum, StepGet, StepPut, StepClose, InOnePlace;
    StepKeepsPlaces(s, ev);
    match ev
    case StartGet => SumsAppend(s.threads, GetStart);
    case StartClose => SumsAppend(s.threads, CloseStart);
    case StartPut(x) => SumsAppend(s.threads, PutStart(x));
    case Run(t, c) =>
      InvIsReady(s, t);
      if IsGet(s.threads[t]) {
        GetIsBalanced(s, t, c);
        BalancedKeepsBooks(s, Step(s, ev).value, t);
        GetKeepsPhase(s, t, c);
      } else if IsPut(s.threads[t]) {
        PutIsBalanced(s, t);
        BalancedKeepsBooks(s, Step(s, ev).value, t);
        PutKeepsPhase(s, t);
      } else {
        if Enters(s.threads[t]) {
          EnterIsBalanced(s, t);
        } else {
          CloseIsBalanced(s, t);
        }
        BalancedKeepsBooks(s, Step(s, ev).value, t);
        CloseKeepsPhase(s, t);
      }
  }

  lemma SumsAppend(ts: seq<Pc>, pc: Pc)
    ensures Sum(ts + [pc], Carrying) == Sum(ts, Carrying) + Carrying(pc)
    ensures Sum(ts + [pc], Spare) == Sum(ts, Spare) + Spare(pc)
    ensures Sum(ts + [pc], Counted) == Sum(ts, Counted) + Counted(pc)
  {
    SumAppend(ts, pc, Carrying);
    SumAppend(ts, pc, Spare);
    SumAppend(ts, pc, Counted);
  }

  lemma {:induction false} UptoIsDistinct(n: nat, e: Inst)
    ensures Occurs(Upto(n), e) == (if e < n then 1 else 0) && |Upto(n)| == n
  {
    if n > 0 {
      UptoIsDistinct(n - 1, e);
      OccursAppend(Upto(n - 1), n - 1, e);
    }
  }

  lemma FreshInv(min: nat, max: nat)
    requires max > 0 ==> min <= max
    ensures Inv(Fresh(min, max))
  {
    forall e: Inst
      ensures Places(Fresh(min, max), e) == if e < min then 1 else 0
    {
      UptoIsDistinct(min, e);
    }
    UptoIsDistinct(min, 0);
  }

  /** In every reachable state, under any interleaving of Get, Put and Close. */
  lemma {:induction false} RunsKeepInv(s: Pool, evs: seq<Event>)
    requires Inv(s) && Runs(s, evs).Some?
    ensures Inv(Runs(s, evs).value)
    decreases |evs|
  {
    if |evs| > 0 {
      StepKeepsInv(s, evs[0]);
      RunsKeepInv(Step(s, evs[0]).value, evs[1..]);
    }
  }

  // ---- what follows, in every reachable state ----

  /** A state some run of a new pool reaches. */
  ghost predicate Reachable(s: Pool) {
    exists min: nat, max: nat, evs ::
      min >= 1 && (max > 0 ==> min <= max) && Runs(Fresh(min, max), evs) == Some(s)
  }

  lemma ReachableInv(s: Pool)
    requires Reachable(s)
    ensures Inv(s)
  {
    var min: nat, max: nat, evs :|
      min >= 1 && (max > 0 ==> min <= max) && Runs(Fresh(min, max), evs) == Some(s);
    FreshInv(min, max);
    RunsKeepInv(Fresh(min, max), evs);
  }

  /** Slots equal the idle, held and carried instances, plus the slots calls hold on top, plus one for ever
      for each instance Put retired after Close; so a bounded pool never has more than max alive. */
  lemma SlotsAccounted(s: Pool)
    requires Reachable(s) && s.max > 0
    ensures s.sem == |s.idle| + |s.held| + Sum(s.threads, Carrying) + Sum(s.threads, Spare) + s.retired
    ensures Alive(s) <= s.sem <= s.max
  {
    ReachableInv(s);
  }

  /** Releasing a slot never blocks. */
  lemma ReleaseNeverBlocks(s: Pool, t: nat, c: Choice)
    requires Reachable(s) && t < |s.threads| && Releases(s.threads[t])
    ensures Step(s, Run(t, c)).Some?
  {
    ReachableInv(s);
    PhaseOf(s, t);
    SumAt(s.threads, t, Done, Spare);
  }

  /** Put on a bounded pool before Close always parks its instance; it never discards one. */
  lemma PutParks(s: Pool, t: nat, c: Choice)
    requires Reachable(s) && s.max > 0 && t < |s.threads| && s.threads[t].PutSend?
    ensures Step(s, Run(t, c)) == Some(At(s, t, Done).(idle := s.idle + [s.threads[t].e]))
  {
    ReachableInv(s);
    SendHasRoom(s, t);
  }

  /** A Get waiting in its select that no channel operation can wake. */
  predicate Blocked(s: Pool, t: nat) {
    t < |s.threads| && s.threads[t].GetSelect? && Step(s, Run(t, TakeIdle)).None? && Step(s, Run(t, TakeSlot)).None?
  }

  /** Before Close a Get is blocked exactly when nothing is idle and every slot is taken, by an instance in
      use or by a call in the middle of its steps. */
  lemma BlockedMeansExhausted(s: Pool, t: nat)
    requires Reachable(s) && t < |s.threads| && s.threads[t].GetSelect? && !s.closed
    ensures Blocked(s, t) <==>
              s.idle == [] && |s.held| + Sum(s.threads, Carrying) + Sum(s.threads, Spare) == s.max
  {
    ReachableInv(s);
    PhaseOf(s, t);
  }

  /** The slots that stand for no instance and no creation under way. */
  function Transient(pc: Pc): nat {
    if pc.GetCreate? then 0 else Spare(pc)
  }

  function Creating(pc: Pc): nat {
    if pc.GetCreate? then 1 else 0
  }

  lemma {:induction false} SpareSplits(ts: seq<Pc>)
    ensures Sum(ts, Spare) == Sum(ts, Transient) + Sum(ts, Creating)
  {
    if |ts| > 0 {
      SpareSplits(ts[..|ts| - 1]);
    }
  }

  /** So a blocked Get sees in-use plus being-created equal to max if and only if no other call is between
      taking a slot and using or releasing it. */
  lemma BlockedAtMax(s: Pool, t: nat)
    requires Reachable(s) && Blocked(s, t) && !s.closed
    ensures |s.held| + Sum(s.threads, Carrying) + Sum(s.threads, Creating) == s.max <==> Sum(s.threads, Transient) == 0
  {
    BlockedMeansExhausted(s, t);
    SpareSplits(s.threads);
  }

  /** A step from a reachable state. */
  lemma Goes(s: Pool, ev: Event, s2: Pool)
    requires Reachable(s) && Step(s, ev) == Some(s2)
    ensures Reachable(s2)
  {
    hide Step, Fresh;
    var min: nat, max: nat, evs :|
      min >= 1 && (max > 0 ==> min <= max) && Runs(Fresh(min, max), evs) == Some(s);
    RunsAppend(Fresh(min, max), evs, ev);
  }

  lemma {:induction false} RunsAppend(s: Pool, evs: seq<Event>, ev: Event)
    requires Runs(s, evs).Some?
    ensures Runs(s, evs + [ev]) == Step(Runs(s, evs).value, ev)
    decreases |evs|
  {
    hide Step;
    if |evs| == 0 {
      assert evs + [ev] == [ev];
    } else {
      RunsAppend(Step(s, evs[0]).value, evs[1..], ev);
      assert (evs + [ev])[1..] == evs[1..] + [ev];
    }
  }

  /** A pool of two with one instance in use and nothing idle, and calls at these positions. */
  function InUse(threads: seq<Pc>, sem: nat): Pool {
    Pool(2, 2, [], sem, 1, false, false, threads, {0}, {}, 1, 0)
  }

  lemma InUseReachable()
    ensures Reachable(InUse([Done], 1))
  {
    hide Runs;
    var s := Fresh(1, 2);
    assert Upto(1) == [0];
    assert Reachable(s) by {
      NoSteps(s);
      assert Runs(Fresh(1, 2), []) == Some(s);
    }
    Opens(s, []);
    assert [] + [GetStart] == [GetStart];
    Looked(s.(threads := [GetStart]), 0, [GetFast]);
    assert [GetFast][0 := Done] == [Done];
    assert s.idle[1..] == [];
    assert {} + {0} == {0};
    Goes(s.(threads := [GetFast]), Run(0, Failed), InUse([Done], 1));
  }

  lemma Opens(s: Pool, threads: seq<Pc>)
    requires Reachable(s) && s.threads == threads
    ensures Reachable(s.(threads := threads + [GetStart]))
  {
    hide Reachable;
    Goes(s, StartGet, s.(threads := threads + [GetStart]));
  }

  /** A Get that finds nothing idle goes on; one that fails to create has a slot to release. */
  lemma Looked(s: Pool, t: nat, threads: seq<Pc>)
    requires Reachable(s) && t < |s.threads| && !s.closed && s.max > 0
    requires var pc := s.threads[t];
             && (pc.GetStart? || pc.GetCreate? || ((pc.GetFast? || pc.GetRecheck?) && s.idle == []))
             && threads == s.threads[t := if pc.GetStart? then GetFast else if pc.GetFast? then GetSelect
                                          else if pc.GetRecheck? then GetCreate else GetUndo]
    ensures Reachable(s.(threads := threads))
  {
    hide Reachable;
    Goes(s, Run(t, Failed), s.(threads := threads));
  }

  lemma NoSteps(s: Pool)
    ensures Runs(s, []) == Some(s)
  {
  }

  /** Such a call can be in the way: with max 2 and one instance in use, a Get is blocked while another
      Get is about to release the slot of a failed creation. */
  lemma BlockedBelowMax()
    ensures exists s, t ::
              Reachable(s) && Blocked(s, t) && !s.closed &&
              |s.held| + Sum(s.threads, Carrying) + Sum(s.threads, Creating) < s.max
  {
    hide Reachable;
    InUseReachable();
    Opens(InUse([Done], 1), [Done]);
    assert [Done] + [GetStart] == [Done, GetStart];
    Looked(InUse([Done, GetStart], 1), 1, [Done, GetFast]);
    Looked(InUse([Done, GetFast], 1), 1, [Done, GetSelect]);
    assert [Done, GetSelect][1 := GetRecheck] == [Done, GetRecheck];
    Goes(InUse([Done, GetSelect], 1), Run(1, TakeSlot), InUse([Done, GetRecheck], 2));
    Looked(InUse([Done, GetRecheck], 2), 1, [Done, GetCreate]);
    Looked(InUse([Done, GetCreate], 2), 1, [Done, GetUndo]);
    Opens(InUse([Done, GetUndo], 2), [Done, GetUndo]);
    assert [Done, GetUndo] + [GetStart] == [Done, GetUndo, GetStart];
    Looked(InUse([Done, GetUndo, GetStart], 2), 2, [Done, GetUndo, GetFast]);
    Looked(InUse([Done, GetUndo, GetFast], 2), 2, [Done, GetUndo, GetSelect]);
    var s := InUse([Done, GetUndo, GetSelect], 2);
    SumOfThree(Done, GetUndo, GetSelect, Carrying);
    SumOfThree(Done, GetUndo, GetSelect, Creating);
    assert Blocked(s, 2);
  }

  lemma SumOfThree(a: Pc, b: Pc, c: Pc, w: Pc -> nat)
    ensures Sum([a, b, c], w) == w(a) + w(b) + w(c)
  {
    SumAppend([], a, w);
    SumAppend([a], b, w);
    SumAppend([a, b], c, w);
    assert [] + [a] == [a];
    assert [a] + [b] == [a, b];
    assert [a, b] + [c] == [a, b, c];
  }

  /** In every reachable state an instance with a caller is with that caller alone: not idle, not carried
      by a call, not closed; and it stands in the idle channel at most once. */
  lemma HeldAlone(s: Pool, e: Inst)
    requires Reachable(s)
    ensures e in s.held ==>
              && e !in s.idle && e !in s.dead
              && forall t :: 0 <= t < |s.threads| ==> Carries(s.threads[t]) != Some(e)
    ensures forall i, j :: 0 <= i < j < |s.idle| && s.idle[i] == e ==> s.idle[j] != e
    ensures e in s.idle ==> e !in s.dead
  {
    hide Reachable, Sum;
    ReachableInv(s);
    PlacesOf(s, e);
    OccursCounts(s.idle, e);
    forall t | 0 <= t < |s.threads|
      ensures e in s.held ==> Carries(s.threads[t]) != Some(e)
    {
      CarriedAlone(s, t);
    }
  }

  lemma {:induction false} OccursCounts(idle: seq<Inst>, e: Inst)
    ensures Occurs(idle, e) == 0 <==> e !in idle
    ensures Occurs(idle, e) <= 1 ==> forall i, j :: 0 <= i < j < |idle| && idle[i] == e ==> idle[j] != e
  {
    if |idle| > 0 {
      OccursCounts(idle[1..], e);
      assert forall j :: 0 < j < |idle| ==> idle[j] == idle[1..][j - 1];
    }
  }

  /** The instance that Get returns to its caller with this step, if it returns one. */
  function Granted(s: Pool, ev: Event): Option<Inst> {
    if !ev.Run? || ev.t >= |s.threads| then None
    else
      match s.threads[ev.t]
      case GetFast => if |s.idle| > 0 then Some(s.idle[0]) else None
      case GetSelect => if ev.choice == TakeIdle && |s.idle| > 0 then Some(s.idle[0]) else None
      case GetExtra(e) => Some(e)
      case GetCount(e) => Some(e)
      case _ => None
  }

  /** Whatever Get returns was with no other caller and has not been closed, and the caller has it alone. No
      other step hands an instance out. */
  lemma GrantIsExclusive(s: Pool, ev: Event)
    requires Reachable(s) && Step(s, ev).Some?
    ensures var s2 := Step(s, ev).value;
            match Granted(s, ev)
            case None => s2.held <= s.held
            case Some(e) =>
              && e !in s.held && e !in s.dead
              && s2.held == s.held + {e} && s2.threads[ev.t] == Done
              && e !in s2.idle && e !in s2.dead
              && (forall t :: 0 <= t < |s2.threads| ==> Carries(s2.threads[t]) != Some(e))
  {
    hide Reachable, Inv;
    ReachableInv(s);
    GrantMoves(s, ev);
    if Granted(s, ev).Some? {
      hide Step, Granted;
      Goes(s, ev, Step(s, ev).value);
      HeldAlone(Step(s, ev).value, Granted(s, ev).value);
    }
  }

  lemma GrantMoves(s: Pool, ev: Event)
    requires Inv(s) && Step(s, ev).Some?
    ensures match Granted(s, ev)
            case None => Step(s, ev).value.held <= s.held
            case Some(e) =>
              && e !in s.held && e !in s.dead
              && Step(s, ev).value.held == s.held + {e} && Step(s, ev).value.threads[ev.t] == Done
  {
    hide InOnePlace, TotalAdds, SlotsAdd, Sum;
    if Granted(s, ev).Some? {
      IdleAlone(s);
      CarriedAlone(s, ev.t);
    }
  }

  /** The step that closes e, by any of the three ways. */
  predicate Closes(s: Pool, ev: Event, e: Inst) {
    && ev.Run? && ev.t < |s.threads|
    && (s.threads[ev.t] == PutRetire(e) || s.threads[ev.t] == PutDiscard(e) || s.threads[ev.t] == CloseEntry(e))
  }

  /** How often a run closes e. */
  function Closings(s: Pool, evs: seq<Event>, e: Inst): nat
    decreases |evs|
  {
    if |evs| == 0 || Step(s, evs[0]).None? then 0
    else (if Closes(s, evs[0], e) then 1 else 0) + Closings(Step(s, evs[0]).value, evs[1..], e)
  }

  lemma ClosesAlive(s: Pool, ev: Event, e: Inst)
    requires Inv(s)
    ensures Closes(s, ev, e) ==> e !in s.dead
  {
    hide Sum, Occurs, TotalAdds, SlotsAdd, InPhase;
    if ev.Run? && ev.t < |s.threads| {
      CarriedAlone(s, ev.t);
    }
  }

  lemma DeadAfter(s: Pool, ev: Event, e: Inst)
    requires Step(s, ev).Some?
    ensures e in Step(s, ev).value.dead <==> e in s.dead || Closes(s, ev, e)
  {
  }

  lemma {:induction false} ClosingsAreDead(s: Pool, evs: seq<Event>, e: Inst)
    requires Inv(s) && Runs(s, evs).Some?
    ensures Closings(s, evs, e) + (if e in s.dead then 1 else 0) == if e in Runs(s, evs).value.dead then 1 else 0
    decreases |evs|
  {
    hide Step;
    if |evs| > 0 {
      ClosesAlive(s, evs[0], e);
      DeadAfter(s, evs[0], e);
      StepKeepsInv(s, evs[0]);
      ClosingsAreDead(Step(s, evs[0]).value, evs[1..], e);
    }
  }

  /** In every run of a new pool, Close included, each instance is closed at most once. */
  lemma ClosedAtMostOnce(min: nat, max: nat, evs: seq<Event>, e: Inst)
    requires max > 0 ==> min <= max
    requires Runs(Fresh(min, max), evs).Some?
    ensures Closings(Fresh(min, max), evs, e) <= 1
  {
    FreshInv(min, max);
    ClosingsAreDead(Fresh(min, max), evs, e);
  }

  // ---- one call at a time ----

  function Then(s: Option<Pool>, ev: Event): Option<Pool> {
    if s.Some? then Step(s.value, ev) else None
  }

  /** A pool where the next call would be number |s.threads|, after it has returned. */
  function Called(s: Pool): Pool {
    s.(threads := s.threads + [Done])
  }

  lemma LastMoves(ts: seq<Pc>, a: Pc, b: Pc)
    ensures (ts + [a])[|ts|] == a && (ts + [a])[|ts| := b] == ts + [b] && |ts + [a]| == |ts| + 1
  {
  }

  /** Get on an open pool with something idle takes what has been idle longest. */
  lemma GetTakesIdle(s: Pool, c: Choice)
    requires !s.closed && |s.idle| > 0
    ensures var t := |s.threads|;
            Then(Then(Then(Some(s), StartGet), Run(t, c)), Run(t, c)) ==
              Some(Called(s).(idle := s.idle[1..], held := s.held + {s.idle[0]}))
  {
    LastMoves(s.threads, GetStart, GetFast);
    LastMoves(s.threads, GetFast, Done);
  }

  /** Get on an open pool with nothing idle but room for one more creates one, and takes a slot for it in a
      bounded pool. */
  lemma GetGrows(s: Pool, c: Choice)
    requires !s.closed && s.idle == [] && (s.max > 0 ==> s.sem < s.max)
    ensures var t := |s.threads|;
            var looked := Then(Then(Then(Some(s), StartGet), Run(t, c)), Run(t, c));
            var slotted := if s.max > 0 then Then(Then(looked, Run(t, TakeSlot)), Run(t, c)) else looked;
            Then(Then(slotted, Run(t, Created)), Run(t, c)) ==
              Some(Called(s).(held := s.held + {s.created}, created := s.created + 1, total := s.total + 1,
                              sem := if s.max > 0 then s.sem + 1 else s.sem))
  {
    LastMoves(s.threads, GetStart, GetFast);
    LastMoves(s.threads, GetFast, GetSelect);
    LastMoves(s.threads, GetFast, GetCreate);
    LastMoves(s.threads, GetSelect, GetRecheck);
    LastMoves(s.threads, GetRecheck, GetCreate);
    LastMoves(s.threads, GetCreate, GetCount(s.created));
    LastMoves(s.threads, GetCount(s.created), Done);
    var t := |s.threads|;
    var looked := Then(Then(Then(Some(s), StartGet), Run(t, c)), Run(t, c));
    assert looked == Some(s.(threads := s.threads + [if s.max > 0 then GetSelect else GetCreate]));
    if s.max > 0 {
      var slotted := Then(Then(looked, Run(t, TakeSlot)), Run(t, c));
      assert slotted == Some(s.(threads := s.threads + [GetCreate], sem := s.sem + 1));
    }
  }

  /** When the creation fails instead, the pool is as it was. */
  lemma GetFails(s: Pool, c: Choice)
    requires !s.closed && s.idle == [] && (s.max > 0 ==> s.sem < s.max)
    ensures var t := |s.threads|;
            var looked := Then(Then(Then(Some(s), StartGet), Run(t, c)), Run(t, c));
            var slotted := if s.max > 0 then Then(Then(looked, Run(t, TakeSlot)), Run(t, c)) else looked;
            var failed := Then(slotted, Run(t, Failed));
            (if s.max > 0 then Then(failed, Run(t, c)) else failed) == Some(Called(s))
  {
    LastMoves(s.threads, GetStart, GetFast);
    LastMoves(s.threads, GetFast, GetSelect);
    LastMoves(s.threads, GetFast, GetCreate);
    LastMoves(s.threads, GetSelect, GetRecheck);
    LastMoves(s.threads, GetRecheck, GetCreate);
    LastMoves(s.threads, GetCreate, GetUndo);
    LastMoves(s.threads, GetCreate, Done);
    LastMoves(s.threads, GetUndo, Done);
    var t := |s.threads|;
    var looked := Then(Then(Then(Some(s), StartGet), Run(t, c)), Run(t, c));
    assert looked == Some(s.(threads := s.threads + [if s.max > 0 then GetSelect else GetCreate]));
    if s.max > 0 {
      var slotted := Then(Then(looked, Run(t, TakeSlot)), Run(t, c));
      assert slotted == Some(s.(threads := s.threads + [GetCreate], sem := s.sem + 1));
    }
  }

  /** Get on a closed pool gets nothing and changes nothing; neither does one whose context ends while it waits;
      nor does a second Close do anything. */
  lemma RefusedCalls(s: Pool, c: Choice)
    ensures var t := |s.threads|;
            && (s.closed ==> Then(Then(Some(s), StartGet), Run(t, c)) == Some(Called(s)))
            && (s.closed ==> Then(Then(Some(s), StartClose), Run(t, c)) == Some(Called(s)))
            && Step(s.(threads := s.threads + [GetSelect]), Run(t, Cancelled)) == Some(Called(s))
  {
    LastMoves(s.threads, GetStart, Done);
    LastMoves(s.threads, CloseStart, Done);
    LastMoves(s.threads, GetSelect, Done);
  }

  /** Put on an open pool parks the instance behind the others while there is room; an unbounded pool whose
      channel is full closes it and counts it off. */
  lemma PutParksOrCloses(s: Pool, e: Inst, c: Choice)
    requires !s.closed && e in s.held
    ensures var t := |s.threads|;
            var sent := Then(Then(Then(Some(s), StartPut(e)), Run(t, c)), Run(t, c));
            if |s.idle| < s.cap then sent == Some(Called(s).(held := s.held - {e}, idle := s.idle + [e]))
            else if s.max == 0 then
              Then(Then(sent, Run(t, c)), Run(t, c)) ==
                Some(Called(s).(held := s.held - {e}, dead := s.dead + {e}, total := s.total - 1))
            else
              Then(Then(Then(sent, Run(t, c)), Run(t, c)), Run(t, c)) ==
                if s.sem == 0 then None
                else Some(Called(s).(held := s.held - {e}, dead := s.dead + {e}, total := s.total - 1,
                                     sem := s.sem - 1))
  {
    LastMoves(s.threads, PutStart(e), PutSend(e));
    LastMoves(s.threads, PutSend(e), Done);
    LastMoves(s.threads, PutSend(e), PutDiscard(e));
    LastMoves(s.threads, PutDiscard(e), PutUncount);
    LastMoves(s.threads, PutUncount, Done);
    LastMoves(s.threads, PutUncount, PutRelease);
    LastMoves(s.threads, PutRelease, Done);
    var t := |s.threads|;
    var sent := Then(Then(Then(Some(s), StartPut(e)), Run(t, c)), Run(t, c));
    if |s.idle| >= s.cap {
      assert sent == Some(s.(threads := s.threads + [PutDiscard(e)], held := s.held - {e}));
    }
  }

  /** Put on a closed pool closes the instance and gives back neither its count nor its slot. */
  lemma PutRetires(s: Pool, e: Inst, c: Choice)
    requires s.closed && e in s.held
    ensures var t := |s.threads|;
            Then(Then(Then(Some(s), StartPut(e)), Run(t, c)), Run(t, c)) ==
              Some(Called(s).(held := s.held - {e}, dead := s.dead + {e}, retired := s.retired + 1))
  {
    LastMoves(s.threads, PutStart(e), PutRetire(e));
    LastMoves(s.threads, PutRetire(e), Done);
  }

  /** n steps of one call. */
  function Steps(s: Pool, t: nat, n: nat): Option<Pool>
    decreases n
  {
    if n == 0 then Some(s)
    else
      match Step(s, Run(t, Failed))
      case None => None
      case Some(s2) => Steps(s2, t, n - 1)
  }

  lemma {:induction false} StepsAdd(s: Pool, t: nat, m: nat, n: nat)
    requires Steps(s, t, m).Some?
    ensures Steps(s, t, m + n) == Steps(Steps(s, t, m).value, t, n)
    decreases m
  {
    hide Step;
    if m > 0 {
      StepsAdd(Step(s, Run(t, Failed)).value, t, m - 1, n);
    }
  }

  function Elements(idle: seq<Inst>): set<Inst> {
    set e | e in idle
  }

  /** Close on an open pool, with nobody else at it: the flag and the lock first, then every idle instance is
      closed, counted off and its slot given back, and the lock is released. */
  lemma CloseCloses(s: Pool)
    requires !s.closed && !s.locked && (s.max > 0 ==> s.sem >= |s.idle|)
    ensures var t := |s.threads|;
            var n := 3 + (if s.max > 0 then 4 else 3) * |s.idle|;
            Steps(s.(threads := s.threads + [CloseStart]), t, n) ==
              Some(Called(s).(closed := true, idle := [], dead := s.dead + Elements(s.idle),
                              total := s.total - |s.idle|, sem := if s.max > 0 then s.sem - |s.idle| else s.sem))
  {
    var t := |s.threads|;
    LastMoves(s.threads, CloseStart, CloseLock);
    LastMoves(s.threads, CloseLock, CloseDrain);
    LastMoves(s.threads, CloseDrain, Done);
    var begun := s.(threads := s.threads + [CloseStart]);
    var draining := s.(threads := s.threads + [CloseDrain], closed := true, locked := true);
    assert Steps(begun, t, 2) == Some(draining) by {
      assert Step(begun, Run(t, Failed)) == Some(s.(threads := s.threads + [CloseLock], closed := true));
      assert Steps(begun, t, 2) == Steps(s.(threads := s.threads + [CloseLock], closed := true), t, 1);
    }
    StepsAdd(begun, t, 2, 1 + (if s.max > 0 then 4 else 3) * |s.idle|);
    Drains(draining, t);
  }

  lemma {:induction false} Drains(s: Pool, t: nat)
    requires t < |s.threads| && s.threads[t] == CloseDrain && (s.max > 0 ==> s.sem >= |s.idle|)
    ensures Steps(s, t, 1 + (if s.max > 0 then 4 else 3) * |s.idle|) ==
              Some(At(s, t, Done).(locked := false, idle := [], dead := s.dead + Elements(s.idle),
                                   total := s.total - |s.idle|,
                                   sem := if s.max > 0 then s.sem - |s.idle| else s.sem))
    decreases |s.idle|
  {
    hide Step;
    if |s.idle| == 0 {
      LastDrain(s, t);
      assert s.dead + Elements(s.idle) == s.dead;
    } else {
      var k := if s.max > 0 then 4 else 3;
      var s2 := s.(idle := s.idle[1..], dead := s.dead + {s.idle[0]}, total := s.total - 1,
                   sem := if s.max > 0 then s.sem - 1 else s.sem);
      DrainsOne(s, t);
      Drains(s2, t);
      StepsAdd(s, t, k, 1 + k * |s2.idle|);
      assert k + (1 + k * |s2.idle|) == 1 + k * |s.idle|;
      assert s.dead + Elements(s.idle) == s2.dead + Elements(s2.idle) by {
        assert forall e :: e in s.idle <==> e == s.idle[0] || e in s.idle[1..];
      }
    }
  }

  lemma LastDrain(s: Pool, t: nat)
    requires t < |s.threads| && s.threads[t] == CloseDrain && s.idle == []
    ensures Steps(s, t, 1) == Some(At(s, t, Done).(locked := false))
  {
    assert Step(s, Run(t, Failed)) == Some(At(s, t, Done).(locked := false));
  }

  lemma DrainsOne(s: Pool, t: nat)
    requires t < |s.threads| && s.threads[t] == CloseDrain && |s.idle| > 0 && (s.max > 0 ==> s.sem > 0)
    ensures Steps(s, t, if s.max > 0 then 4 else 3) ==
              Some(s.(idle := s.idle[1..], dead := s.dead + {s.idle[0]}, total := s.total - 1,
                      sem := if s.max > 0 then s.sem - 1 else s.sem))
  {
    var e := s.idle[0];
    var a := At(s, t, CloseEntry(e)).(idle := s.idle[1..]);
    var b := At(a, t, CloseUncount).(dead := s.dead + {e});
    var c := At(b, t, if s.max > 0 then CloseRelease else CloseDrain).(total := s.total - 1);
    assert Step(s, Run(t, Failed)) == Some(a) && Step(a, Run(t, Failed)) == Some(b);
    assert Step(b, Run(t, Failed)) == Some(c);
    assert s.threads[t := CloseEntry(e)][t := CloseUncount][t := CloseDrain] == s.threads;
    hide Step;
    assert Steps(s, t, 3) == Some(c) by {
      assert Steps(a, t, 2) == Steps(b, t, 1) == Some(c);
    }
    if s.max > 0 {
      LastRelease(c, t);
      StepsAdd(s, t, 3, 1);
      assert c.threads[t := CloseDrain] == s.threads;
    }
  }

  lemma LastRelease(s: Pool, t: nat)
    requires t < |s.threads| && s.threads[t] == CloseRelease && s.sem > 0
    ensures Steps(s, t, 1) == Some(At(s, t, CloseDrain).(sem := s.sem - 1))
  {
    assert Step(s, Run(t, Failed)) == Some(At(s, t, CloseDrain).(sem := s.sem - 1));
  }

  /** The pool NewPool returns holds the initial instances and no more; its channel has room for MaxInstances, or
      for 16 and for four times the initial ones when there is no bound. */
  lemma FreshHolds(min: nat, max: nat)
    ensures var s := Fresh(min, max);
            && |s.idle| == min && (forall i :: 0 <= i < min ==> s.idle[i] == i)
            && s.total == min && s.sem == (if max > 0 then min else 0) && s.max == max
            && (max > 0 ==> s.cap == max)
            && (max == 0 ==> s.cap >= 16 && s.cap >= 4 * min && (s.cap == 16 || s.cap == 4 * min))
            && !s.closed && !s.locked && s.threads == [] && s.held == {} && s.dead == {} && s.created == min
  {
    UptoIs(min);
  }

  lemma {:induction false} UptoIs(n: nat)
    ensures |Upto(n)| == n && forall i :: 0 <= i < n ==> Upto(n)[i] == i
  {
    if n > 0 {
      UptoIs(n - 1);
    }
  }

  /** Every call has returned. */
  predicate Quiet(s: Pool) {
    forall t :: 0 <= t < |s.threads| ==> s.threads[t] == Done
  }

  /** And every instance is back. */
  predicate Finished(s: Pool) {
    s.held == {} && Quiet(s)
  }

  lemma {:induction false} NothingCounted(ts: seq<Pc>, w: Pc -> nat)
    requires w(Done) == 0 && forall t :: 0 <= t < |ts| ==> ts[t] == Done
    ensures Sum(ts, w) == 0
  {
    if |ts| > 0 {
      NothingCounted(ts[..|ts| - 1], w);
    }
  }

  /** Whenever every call has returned, Len is idle plus in-use, as documented, if and only if no Put has retired
      an instance after Close; and so are the slots in use. Each one retired stays in both for ever. */
  lemma QuietLen(s: Pool)
    requires Reachable(s) && Quiet(s)
    ensures s.total == |s.idle| + |s.held| + s.retired
    ensures s.total == |s.idle| + |s.held| <==> s.retired == 0
    ensures s.max > 0 ==> s.sem == s.total && (s.sem == |s.idle| + |s.held| <==> s.retired == 0)
  {
    hide Reachable, Sum;
    ReachableInv(s);
    NothingCounted(s.threads, Counted);
    NothingCounted(s.threads, Carrying);
    NothingCounted(s.threads, Spare);
  }

  // ---- what Close leaves behind ----

  /** Nothing is idle, and no Put that read the flag before Close is about to send. */
  predicate Clear(s: Pool) {
    s.idle == [] && forall t :: 0 <= t < |s.threads| ==> !s.threads[t].PutSend?
  }

  lemma ClearStays(s: Pool, ev: Event)
    requires s.closed && Clear(s) && Step(s, ev).Some?
    ensures Step(s, ev).value.closed && Clear(Step(s, ev).value)
  {
  }

  lemma {:induction false} ClearForEver(s: Pool, evs: seq<Event>)
    requires s.closed && Clear(s) && Runs(s, evs).Some?
    ensures Clear(Runs(s, evs).value)
    decreases |evs|
  {
    hide Step, Clear;
    if |evs| > 0 {
      ClearStays(s, evs[0]);
      ClearForEver(Step(s, evs[0]).value, evs[1..]);
    }
  }

  /** When every instance is back and every call has returned, each instance is idle or closed. */
  lemma FinishedIsIdleOrClosed(s: Pool, e: Inst)
    requires Inv(s) && Finished(s)
    ensures e < s.created <==> e in s.idle || e in s.dead
    ensures !(e in s.idle && e in s.dead)
  {
    hide Sum;
    PlacesOf(s, e);
    NothingCounted(s.threads, This(e));
    OccursCounts(s.idle, e);
  }

  /** Everything the pool ever created has been closed. */
  ghost predicate AllClosed(s: Pool) {
    forall e: Inst :: e < s.created ==> e in s.dead
  }

  lemma FinishedAllClosed(s: Pool)
    requires Inv(s) && Finished(s)
    ensures AllClosed(s) <==> Clear(s)
  {
    hide Inv;
    forall e: Inst
      ensures e < s.created <==> e in s.idle || e in s.dead
      ensures !(e in s.idle && e in s.dead)
    {
      FinishedIsIdleOrClosed(s, e);
    }
    if |s.idle| > 0 {
      assert s.idle[0] in s.idle;
    }
  }

  /** Once a closed pool is clear, every instance has been closed by the time all are back and all calls
      have returned. */
  lemma ClearPoolClosesAll(s: Pool, evs: seq<Event>)
    requires Reachable(s) && s.closed && Clear(s)
    requires Runs(s, evs).Some? && Finished(Runs(s, evs).value)
    ensures AllClosed(Runs(s, evs).value)
  {
    hide Reachable, Inv, Clear, Finished, AllClosed;
    ReachableInv(s);
    RunsKeepInv(s, evs);
    ClearForEver(s, evs);
    FinishedAllClosed(Runs(s, evs).value);
  }

  /** Close is draining, or about to. */
  predicate Draining(pc: Pc) {
    pc.CloseLock? || pc.CloseDrain? || pc.CloseEntry? || pc.CloseUncount? || pc.CloseRelease?
  }

  /** Get has passed its look at the flag and may yet take an idle instance. */
  predicate MayTake(pc: Pc) {
    pc.GetFast? || pc.GetSelect? || pc.GetRecheck?
  }

  /** Close has returned, and no Get is left that passed its look at the flag before. */
  predicate Drained(s: Pool) {
    s.closed && forall t :: 0 <= t < |s.threads| ==> !Draining(s.threads[t]) && !MayTake(s.threads[t])
  }

  /** Nothing idle is taken, and the channel and the sends stay clear exactly if they were. */
  ghost predicate LeavesIdle(s: Pool, s2: Pool) {
    Drained(s2) && s2.cap == s.cap && s.idle <= s2.idle && (Clear(s2) <==> Clear(s))
  }

  /** One call moves on by a step that is no send. */
  lemma NoSendLeavesIdle(s: Pool, s2: Pool, t: nat)
    requires Drained(s) && t < |s.threads| == |s2.threads| && s2.threads == s.threads[t := s2.threads[t]]
    requires s2.idle == s.idle && s2.cap == s.cap && s2.closed
    requires !s.threads[t].PutSend? && !s2.threads[t].PutSend?
    requires !Draining(s2.threads[t]) && !MayTake(s2.threads[t])
    ensures LeavesIdle(s, s2)
  {
    forall u | 0 <= u < |s.threads| && s.threads[u].PutSend?
      ensures !Clear(s2)
    {
      assert s2.threads[u].PutSend?;
    }
  }

  lemma SendLeavesIdle(s: Pool, t: nat)
    requires Drained(s) && s.cap > 0 && t < |s.threads| && s.threads[t].PutSend?
    ensures StepPut(s, t).Some? && LeavesIdle(s, StepPut(s, t).value)
  {
    assert !Clear(s);
  }

  lemma StartLeavesIdle(s: Pool, s2: Pool, pc: Pc)
    requires Drained(s) && s2.threads == s.threads + [pc] && s2.idle == s.idle && s2.cap == s.cap && s2.closed
    requires !pc.PutSend? && !Draining(pc) && !MayTake(pc)
    ensures LeavesIdle(s, s2)
  {
    forall u | 0 <= u < |s.threads| && s.threads[u].PutSend?
      ensures !Clear(s2)
    {
      assert s2.threads[u].PutSend?;
    }
  }

  lemma DrainedStays(s: Pool, ev: Event)
    requires Drained(s) && s.cap > 0 && Step(s, ev).Some?
    ensures LeavesIdle(s, Step(s, ev).value)
  {
    hide LeavesIdle, Clear;
    var s2 := Step(s, ev).value;
    match ev
    case StartGet => StartLeavesIdle(s, s2, GetStart);
    case StartClose => StartLeavesIdle(s, s2, CloseStart);
    case StartPut(e) => StartLeavesIdle(s, s2, PutStart(e));
    case Run(t, c) =>
      if s.threads[t].PutSend? {
        SendLeavesIdle(s, t);
      } else {
        NoSendLeavesIdle(s, s2, t);
      }
  }

  lemma {:induction false} DrainedForEver(s: Pool, evs: seq<Event>)
    requires Drained(s) && s.cap > 0 && Runs(s, evs).Some?
    ensures var s2 := Runs(s, evs).value;
            s.idle <= s2.idle && (Clear(s2) <==> Clear(s))
    decreases |evs|
  {
    hide Step, Clear, Drained;
    if |evs| > 0 {
      DrainedStays(s, evs[0]);
      DrainedForEver(Step(s, evs[0]).value, evs[1..]);
    }
  }

  /** Once Close has returned and the Gets before it are past the idle channel, nothing takes an idle
      instance any more; and when all instances are back and all calls have returned, everything is closed
      if and only if nothing was idle and no Put was still about to send. */
  lemma AllClosedIffClear(s: Pool, evs: seq<Event>)
    requires Reachable(s) && Drained(s)
    requires Runs(s, evs).Some? && Finished(Runs(s, evs).value)
    ensures s.idle <= Runs(s, evs).value.idle
    ensures AllClosed(Runs(s, evs).value) <==> Clear(s)
  {
    hide Reachable, Clear, Drained, Finished, AllClosed, Places, Sum;
    ReachableInv(s);
    RunsKeepInv(s, evs);
    DrainedForEver(s, evs);
    FinishedAllClosed(Runs(s, evs).value);
  }

  /** A pool of two whose one instance is where the arguments say. */
  function Lone(threads: seq<Pc>, held: set<Inst>, idle: seq<Inst>, closed: bool, locked: bool): Pool {
    Pool(2, 2, idle, 1, 1, closed, locked, threads, held, {}, 1, 0)
  }

  lemma SendReachable()
    ensures Reachable(Lone([Done, PutSend(0)], {}, [], false, false))
  {
    hide Reachable;
    InUseReachable();
    assert [Done] + [PutStart(0)] == [Done, PutStart(0)] && {0} - {0} == {};
    Goes(InUse([Done], 1), StartPut(0), Lone([Done, PutStart(0)], {}, [], false, false));
    assert [Done, PutStart(0)][1 := PutSend(0)] == [Done, PutSend(0)];
    var s := Lone([Done, PutSend(0)], {}, [], false, false);
    Goes(Lone([Done, PutStart(0)], {}, [], false, false), Run(1, Failed), s);
  }

  lemma ClosedAroundSend()
    ensures Reachable(Lone([Done, PutSend(0), Done], {}, [], true, false))
  {
    hide Reachable;
    SendReachable();
    var put := [Done, PutSend(0)];
    assert put + [CloseStart] == [Done, PutSend(0), CloseStart];
    Goes(Lone(put, {}, [], false, false), StartClose, Lone(put + [CloseStart], {}, [], false, false));
    assert (put + [CloseStart])[2 := CloseLock] == put + [CloseLock];
    Moves(Lone(put + [CloseStart], {}, [], false, false), CloseLock, Lone(put + [CloseLock], {}, [], true, false));
    assert (put + [CloseLock])[2 := CloseDrain] == put + [CloseDrain];
    Moves(Lone(put + [CloseLock], {}, [], true, false), CloseDrain, Lone(put + [CloseDrain], {}, [], true, true));
    assert (put + [CloseDrain])[2 := Done] == [Done, PutSend(0), Done];
    Moves(Lone(put + [CloseDrain], {}, [], true, true), Done, Lone([Done, PutSend(0), Done], {}, [], true, false));
  }

  /** Such a Put happens: it reads the flag, Close drains an empty channel and returns, and then it parks
      its instance, which nobody closes. */
  lemma ParkedAfterClose()
    ensures exists s :: Reachable(s) && s.closed && Finished(s) && s.idle == [0] && 0 !in s.dead && !AllClosed(s)
  {
    hide Reachable;
    ClosedAroundSend();
    assert [Done, PutSend(0), Done][1 := Done] == [Done, Done, Done] && [] + [0] == [0];
    var s := Lone([Done, Done, Done], {}, [0], true, false);
    Goes(Lone([Done, PutSend(0), Done], {}, [], true, false), Run(1, Failed), s);
    assert 0 < s.created;
  }

  lemma ClosedWhileHeld()
    ensures Reachable(Lone([Done, Done], {0}, [], true, false))
  {
    hide Reachable;
    InUseReachable();
    assert [Done] + [CloseStart] == [Done, CloseStart];
    Goes(InUse([Done], 1), StartClose, Lone([Done, CloseStart], {0}, [], false, false));
    assert [Done, CloseStart][1 := CloseLock] == [Done, CloseLock];
    Goes(Lone([Done, CloseStart], {0}, [], false, false), Run(1, Failed),
         Lone([Done, CloseLock], {0}, [], true, false));
    assert [Done, CloseLock][1 := CloseDrain] == [Done, CloseDrain];
    Goes(Lone([Done, CloseLock], {0}, [], true, false), Run(1, Failed), Lone([Done, CloseDrain], {0}, [], true, true));
    assert [Done, CloseDrain][1 := Done] == [Done, Done];
    Goes(Lone([Done, CloseDrain], {0}, [], true, true), Run(1, Failed), Lone([Done, Done], {0}, [], true, false));
  }

  /** Such a state: the one instance is in use, Close runs, and the instance is Put. Nothing is idle or in
      use, and Len and the slots stay at 1. */
  lemma LenAfterClose()
    ensures exists s :: Reachable(s) && Quiet(s) && s.idle == [] && s.held == {} && s.total == 1 && s.sem == 1
  {
    hide Reachable;
    ClosedWhileHeld();
    assert [Done, Done] + [PutStart(0)] == [Done, Done, PutStart(0)] && {0} - {0} == {};
    Goes(Lone([Done, Done], {0}, [], true, false), StartPut(0), Lone([Done, Done, PutStart(0)], {}, [], true, false));
    assert [Done, Done, PutStart(0)][2 := PutRetire(0)] == [Done, Done, PutRetire(0)];
    Goes(Lone([Done, Done, PutStart(0)], {}, [], true, false), Run(2, Failed),
         Lone([Done, Done, PutRetire(0)], {}, [], true, false));
    assert [Done, Done, PutRetire(0)][2 := Done] == [Done, Done, Done] && {} + {0} == {0};
    var s := Lone([Done, Done, Done], {}, [], true, false).(dead := {0}, retired := 1);
    Goes(Lone([Done, Done, PutRetire(0)], {}, [], true, false), Run(2, Failed), s);
  }

  /** One step of Close as the third call, on an empty channel. */
  lemma Moves(s: Pool, pc: Pc, s2: Pool)
    requires Reachable(s) && |s.threads| == 3 && s.idle == [] && !s.locked == !s.threads[2].CloseDrain?
    requires match s.threads[2]
             case CloseStart => !s.closed && pc == CloseLock && s2 == At(s, 2, pc).(closed := true)
             case CloseLock => pc == CloseDrain && s2 == At(s, 2, pc).(locked := true)
             case CloseDrain => pc == Done && s2 == At(s, 2, pc).(locked := false)
             case _ => false
    ensures Reachable(s2)
  {
    hide Reachable;
    Goes(s, Run(2, Failed), s2);
  }
}
