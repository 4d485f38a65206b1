/** Who owns a guest-minted resource: the module's handle table, a host object, a host cleanup under way, or
    nobody any more; as steps of one module, with destructors that run guest code in turn. */
module Ownership {
  import opened Words
  import opened Wrappers
  import opened Resources

  datatype Slot = Slot(key: string, handle: u32)

  datatype Res = Res(key: string, rep: u32)

  /** A host object for a resource; `id` is bookkeeping. */
  datatype Owned = Owned(key: string, handle: u32, id: nat)

  /** What the guest is running on behalf of a resource: its cleanup method, or its destructor. */
  datatype Frame = Cleaning(key: string, rep: u32, id: nat) | Destructor(id: nat)

  datatype Place = InTable(slot: Slot) | WithHost(index: nat) | InCleanup(depth: nat) | Dropped

  /** `dtors` are the resource types whose destructor the guest exports. The last four fields are
      bookkeeping: each minted resource by number, where it is, which one a slot holds, and how often its
      destructor was called. */
  datatype State = State(
    tables: map<string, Table>, hosts: seq<Owned>, stack: seq<Frame>, open: bool, dtors: set<string>,
    minted: seq<Res>, place: seq<Place>, ids: map<Slot, nat>, runs: seq<nat>)

  datatype Event =
    | New(key: string, rep: u32)
    | Look(key: string, handle: u32)
    | Drop(key: string, handle: u32)
    | Lift(key: string, handle: u32)
    | Clean(i: nat, first: bool)
    | Return
    | Close

  function Start(dtors: set<string>): State {
    State(map[], [], [], true, dtors, [], [], map[], [])
  }

  predicate InSlot(s: State, slot: Slot) {
    slot.key in s.tables && slot.handle in s.tables[slot.key].entries
  }

  function IdOf(s: State, slot: Slot): nat {
    if slot in s.ids then s.ids[slot] else |s.place|
  }

  function Moved(places: seq<Place>, id: nat, p: Place): seq<Place> {
    if id < |places| then places[id := p] else places
  }

  function Counted(runs: seq<nat>, id: nat): seq<nat> {
    if id < |runs| then runs[id := runs[id] + 1] else runs
  }

  /** The handle leaves its table. */
  function Taken(s: State, slot: Slot): State
    requires InSlot(s, slot)
  {
    s.(tables := s.tables[slot.key := Removed(s.tables[slot.key], slot.handle)], ids := s.ids - {slot})
  }

  /** The resource is gone; its destructor is called if the guest exports one. */
  function Destroyed(s: State, key: string, id: nat): State {
    var s2 := s.(place := Moved(s.place, id, Dropped));
    if key in s.dtors then s2.(stack := s.stack + [Destructor(id)], runs := Counted(s.runs, id)) else s2
  }

  /** One step, or None when it cannot happen now: nothing runs in a closed module, and the host gets its
      turn (the module's mutex) only when the guest runs nothing on its behalf. */
  function Step(s: State, ev: Event): Option<State> {
    match ev
    case New(key, rep) => if s.open then Some(StepNew(s, key, rep)) else None
    case Look(key, handle) => if s.open then Some(s.(tables := s.tables[key := TableOf(s.tables, key)])) else None
    case Drop(key, handle) => if s.open then Some(StepDrop(s, Slot(key, handle))) else None
    case Lift(key, handle) => if s.open && s.stack == [] then Some(StepLift(s, Slot(key, handle))) else None
    case Clean(i, first) => if i < |s.hosts| && s.stack == [] then Some(StepClean(s, i, first)) else None
    case Return => if s.open && |s.stack| > 0 then Some(StepReturn(s)) else None
    case Close => if s.stack == [] then Some(s.(open := false)) else None
  }

  /** [resource-new] */
  function StepNew(s: State, key: string, rep: u32): State {
    var t := TableOf(s.tables, key);
    s.(tables := s.tables[key := Minted(t, rep)],
       minted := s.minted + [Res(key, rep)],
       place := s.place + [InTable(Slot(key, t.next))],
       ids := s.ids[Slot(key, t.next) := |s.minted|],
       runs := s.runs + [0])
  }

  /** [resource-drop]: out of the table first, then the destructor; an unknown handle is already dropped. */
  function StepDrop(s: State, slot: Slot): State {
    if !InSlot(s, slot) then s.(tables := s.tables[slot.key := TableOf(s.tables, slot.key)])
    else Destroyed(Taken(s, slot), slot.key, IdOf(s, slot))
  }

  /** provision and open: the returned handle is popped, and the host object holds the representation. */
  function StepLift(s: State, slot: Slot): State {
    if !InSlot(s, slot) then s.(tables := s.tables[slot.key := TableOf(s.tables, slot.key)])
    else
      var id := IdOf(s, slot);
      var rep := s.tables[slot.key].entries[slot.handle];
      Taken(s, slot).(hosts := s.hosts + [Owned(slot.key, rep, id)], place := Moved(s.place, id, WithHost(|s.hosts|)))
  }

  /** cleanup of an instance, with its cleanup method, and closeFile, without. */
  function StepClean(s: State, i: nat, first: bool): State
    requires i < |s.hosts|
  {
    var o := s.hosts[i];
    if o.handle == 0 then s
    else
      var s2 := s.(hosts := s.hosts[i := o.(handle := 0)]);
      if !s.open then s2.(place := Moved(s.place, o.id, Dropped))
      else if first then
        s2.(stack := s.stack + [Cleaning(o.key, o.handle, o.id)], place := Moved(s.place, o.id, InCleanup(|s.stack|)))
      else Destroyed(s2, o.key, o.id)
  }

  /** The innermost guest call returns or fails; after a cleanup method comes the destructor either way. */
  function StepReturn(s: State): State
    requires |s.stack| > 0
  {
    var d := |s.stack| - 1;
    var s2 := s.(stack := s.stack[..d]);
    match s.stack[d]
    case Destructor(_) => s2
    case Cleaning(key, _, id) => Destroyed(s2, key, id)
  }

  function Runs(s: State, evs: seq<Event>): Option<State>
    decreases |evs|
  {
    if |evs| == 0 then Some(s)
    else
      match Step(s, evs[0])
      case None => None
      case Some(s2) => Runs(s2, evs[1..])
  }

  // ---- the invariant ----

  /** The books have one line for each minted resource. */
  ghost predicate Lines(s: State) {
    |s.place| == |s.minted| && |s.runs| == |s.minted|
  }

  /** Handles count up from 1 as long as few enough are minted. */
  ghost predicate Numbered(s: State) {
    forall key :: key in s.tables ==>
      var t := s.tables[key];
      && (if t.next == 0 then |s.minted| >= TWO32 - 1 else t.next <= |s.minted| + 1)
      && forall h :: h in t.entries ==> 1 <= h && (t.next != 0 ==> h < t.next)
  }

  /** Every slot in use holds one resource, and that one says so. */
  ghost predicate Tabled(s: State) {
    && (forall slot :: slot in s.ids <==> InSlot(s, slot))
    && (forall slot :: slot in s.ids ==>
          && s.ids[slot] < |s.place| == |s.minted|
          && s.place[s.ids[slot]] == InTable(slot)
          && s.minted[s.ids[slot]] == Res(slot.key, s.tables[slot.key].entries[slot.handle]))
    && (forall id :: 0 <= id < |s.place| && s.place[id].InTable? ==>
          s.place[id].slot in s.ids && s.ids[s.place[id].slot] == id)
  }

  /** So does every host object that has not been cleaned up. */
  ghost predicate Hosted(s: State) {
    && (forall i :: 0 <= i < |s.hosts| ==> HostKnows(s, i))
    && (forall id :: 0 <= id < |s.place| == |s.minted| ==> HostKnown(s, id))
  }

  ghost predicate HostKnows(s: State, i: nat)
    requires i < |s.hosts|
  {
    s.hosts[i].handle != 0 ==> s.hosts[i].id < |s.place| && s.place[s.hosts[i].id] == WithHost(i)
  }

  ghost predicate HostKnown(s: State, id: nat)
    requires id < |s.place| == |s.minted|
  {
    s.place[id].WithHost? ==>
      var i := s.place[id].index;
      i < |s.hosts| && s.hosts[i] == Owned(s.minted[id].key, s.minted[id].rep, id)
  }

  /** And every cleanup under way. */
  ghost predicate Stacked(s: State) {
    && (forall d :: 0 <= d < |s.stack| ==> FrameKnows(s, d))
    && (forall id :: 0 <= id < |s.place| == |s.minted| ==> FrameKnown(s, id))
  }

  ghost predicate FrameKnows(s: State, d: nat)
    requires d < |s.stack|
  {
    s.stack[d].Cleaning? ==> s.stack[d].id < |s.place| && s.place[s.stack[d].id] == InCleanup(d)
  }

  ghost predicate FrameKnown(s: State, id: nat)
    requires id < |s.place| == |s.minted|
  {
    s.place[id].InCleanup? ==>
      var d := s.place[id].depth;
      d < |s.stack| && s.stack[d] == Cleaning(s.minted[id].key, s.minted[id].rep, id)
  }

  /** Only what is dropped has been destroyed, and once. */
  ghost predicate Ran(s: State) {
    forall id :: 0 <= id < |s.runs| == |s.place| ==> s.runs[id] <= if s.place[id].Dropped? then 1 else 0
  }

  ghost predicate Inv(s: State) {
    Lines(s) && Numbered(s) && Tabled(s) && Hosted(s) && Stacked(s) && Ran(s)
  }

  // ---- every step keeps it ----

  /** The next handle of a table is nonzero and not in use while fewer than 2^32 - 1 have been minted. */
  lemma NextIsFree(s: State, key: string)
    requires Inv(s) && |s.minted| < TWO32 - 1
    ensures var t := TableOf(s.tables, key);
            t.next != 0 && t.next !in t.entries && t.next <= |s.minted| + 1 && Slot(key, t.next) !in s.ids
  {
  }

  lemma NewKeepsNumbered(s: State, key: string, rep: u32)
    requires Inv(s) && |s.minted| < TWO32 - 1
    ensures Numbered(StepNew(s, key, rep)) && Lines(StepNew(s, key, rep))
  {
    hide Tabled, Hosted, Stacked, Ran;
  }

  lemma NewFillsSlot(s: State, key: string, rep: u32, slot: Slot)
    requires Inv(s)
    ensures var t := TableOf(s.tables, key);
            InSlot(StepNew(s, key, rep), slot) <==> InSlot(s, slot) || slot == Slot(key, t.next)
    ensures InSlot(s, slot) && slot != Slot(key, TableOf(s.tables, key).next) ==>
              StepNew(s, key, rep).tables[slot.key].entries[slot.handle] == s.tables[slot.key].entries[slot.handle]
  {
  }

  lemma NewKeepsTabled(s: State, key: string, rep: u32)
    requires Inv(s) && |s.minted| < TWO32 - 1
    ensures Tabled(StepNew(s, key, rep))
  {
    NextIsFree(s, key);
    var s2 := StepNew(s, key, rep);
    forall slot
      ensures InSlot(s2, slot) <==> InSlot(s, slot) || slot == Slot(key, TableOf(s.tables, key).next)
      ensures InSlot(s, slot) && slot != Slot(key, TableOf(s.tables, key).next) ==>
                s2.tables[slot.key].entries[slot.handle] == s.tables[slot.key].entries[slot.handle]
    {
      NewFillsSlot(s, key, rep, slot);
    }
    hide Numbered, Hosted, Stacked, Ran, InSlot;
  }

  /** Places change at most for id, which is with no host and in no cleanup before and after, and for new
      resources. */
  ghost predicate Elsewhere(s: State, s2: State, id: nat) {
    && |s.place| == |s.minted| <= |s2.minted| == |s2.place|
    && (forall k :: 0 <= k < |s.minted| ==> s2.minted[k] == s.minted[k])
    && (forall k :: 0 <= k < |s2.place| ==>
          if k < |s.place| && k != id then s2.place[k] == s.place[k]
          else !s2.place[k].WithHost? && !s2.place[k].InCleanup?)
    && (id < |s.place| ==> !s.place[id].WithHost? && !s.place[id].InCleanup?)
  }

  lemma HostsStand(s: State, s2: State, id: nat)
    requires Hosted(s) && Elsewhere(s, s2, id) && s2.hosts == s.hosts
    ensures Hosted(s2)
  {
    forall i | 0 <= i < |s2.hosts|
      ensures HostKnows(s2, i)
    {
      assert HostKnows(s, i);
    }
    forall k | 0 <= k < |s2.place|
      ensures HostKnown(s2, k)
    {
      assert k < |s.place| ==> HostKnown(s, k);
    }
  }

  lemma FramesStand(s: State, s2: State, id: nat)
    requires Stacked(s) && Elsewhere(s, s2, id)
    requires s.stack <= s2.stack && forall d :: |s.stack| <= d < |s2.stack| ==> s2.stack[d].Destructor?
    ensures Stacked(s2)
  {
    forall d | 0 <= d < |s2.stack|
      ensures FrameKnows(s2, d)
    {
      assert d < |s.stack| ==> FrameKnows(s, d);
    }
    forall k | 0 <= k < |s2.place|
      ensures FrameKnown(s2, k)
    {
      assert k < |s.place| ==> FrameKnown(s, k);
    }
  }

  lemma NewKeepsInv(s: State, key: string, rep: u32)
    requires Inv(s) && |s.minted| < TWO32 - 1
    ensures Inv(StepNew(s, key, rep))
  {
    NewKeepsNumbered(s, key, rep);
    NewKeepsTabled(s, key, rep);
    hide Numbered, Tabled, Hosted, Stacked;
    HostsStand(s, StepNew(s, key, rep), |s.place|);
    FramesStand(s, StepNew(s, key, rep), |s.place|);
  }

  lemma TouchKeepsInv(s: State, key: string)
    requires Inv(s)
    ensures Inv(s.(tables := s.tables[key := TableOf(s.tables, key)]))
  {
    hide Hosted, Stacked;
    HostsStand(s, s.(tables := s.tables[key := TableOf(s.tables, key)]), |s.place|);
    FramesStand(s, s.(tables := s.tables[key := TableOf(s.tables, key)]), |s.place|);
  }

  lemma TakenSlot(s: State, slot: Slot)
    requires Inv(s) && InSlot(s, slot)
    ensures var id := IdOf(s, slot);
            && id < |s.place| && s.place[id] == InTable(slot) && s.runs[id] == 0
            && s.minted[id] == Res(slot.key, s.tables[slot.key].entries[slot.handle])
            && forall other :: other in s.ids && other != slot ==> s.ids[other] != id
  {
  }

  /** A resource that is in none of the places any more, and has not been destroyed. */
  ghost predicate Loose(s: State, id: nat) {
    && Lines(s) && id < |s.place| && s.runs[id] == 0
    && Numbered(s) && Tabled(Aside(s, id)) && Hosted(Aside(s, id)) && Stacked(Aside(s, id)) && Ran(Aside(s, id))
  }

  function Aside(s: State, id: nat): State {
    s.(place := Moved(s.place, id, Dropped))
  }

  lemma TakenEmptiesSlot(s: State, slot: Slot, other: Slot)
    requires InSlot(s, slot)
    ensures InSlot(Taken(s, slot), other) <==> InSlot(s, other) && other != slot
    ensures InSlot(s, other) && other != slot ==>
              Taken(s, slot).tables[other.key].entries[other.handle] == s.tables[other.key].entries[other.handle]
  {
  }

  lemma TakenKeepsTabled(s: State, slot: Slot)
    requires Inv(s) && InSlot(s, slot)
    ensures Tabled(Aside(Taken(s, slot), IdOf(s, slot)))
  {
    TakenSlot(s, slot);
    var s2 := Taken(s, slot);
    forall other
      ensures InSlot(s2, other) <==> InSlot(s, other) && other != slot
      ensures InSlot(s, other) && other != slot ==>
                s2.tables[other.key].entries[other.handle] == s.tables[other.key].entries[other.handle]
    {
      TakenEmptiesSlot(s, slot, other);
    }
    var a := Aside(s2, IdOf(s, slot));
    forall other
      ensures InSlot(a, other) <==> InSlot(s2, other)
    {
    }
    hide Numbered, Hosted, Stacked, Ran, InSlot;
  }

  lemma TakenIsLoose(s: State, slot: Slot)
    requires Inv(s) && InSlot(s, slot)
    ensures Loose(Taken(s, slot), IdOf(s, slot))
  {
    TakenSlot(s, slot);
    TakenKeepsTabled(s, slot);
    hide Tabled, Hosted, Stacked;
    var id := IdOf(s, slot);
    HostsStand(s, Aside(Taken(s, slot), id), id);
    FramesStand(s, Aside(Taken(s, slot), id), id);
  }

  lemma DestroyedKeepsInv(s: State, key: string, id: nat)
    requires Loose(s, id)
    ensures Inv(Destroyed(s, key, id))
  {
    hide Hosted, Stacked;
    HostsStand(Aside(s, id), Destroyed(s, key, id), id);
    FramesStand(Aside(s, id), Destroyed(s, key, id), id);
  }

  /** Finding a loose resource a place touches no other resource's. */
  lemma LooseElsewhere(s: State, id: nat, s2: State)
    requires Loose(s, id) && s2.minted == s.minted && s2.runs == s.runs && s2.tables == s.tables && s2.ids == s.ids
    requires |s2.place| == |s.place| && s2.place == s.place[id := s2.place[id]] && !s2.place[id].InTable?
    requires s.hosts <= s2.hosts && s.stack <= s2.stack
    ensures Lines(s2) && Numbered(s2) && Tabled(s2) && Ran(s2)
    ensures forall i :: 0 <= i < |s.hosts| ==> HostKnows(s2, i)
    ensures forall k :: 0 <= k < |s.place| && k != id ==> HostKnown(s2, k) && FrameKnown(s2, k)
    ensures forall d :: 0 <= d < |s.stack| ==> FrameKnows(s2, d)
  {
    var a := Aside(s, id);
    forall i | 0 <= i < |s.hosts|
      ensures HostKnows(s2, i)
    {
      assert HostKnows(a, i);
    }
    forall d | 0 <= d < |s.stack|
      ensures FrameKnows(s2, d)
    {
      assert FrameKnows(a, d);
    }
    forall k | 0 <= k < |s.place| && k != id
      ensures HostKnown(s2, k) && FrameKnown(s2, k)
    {
      assert HostKnown(a, k) && FrameKnown(a, k);
    }
    LooseTabled(s, id, s2);
  }

  lemma LooseTabled(s: State, id: nat, s2: State)
    requires Loose(s, id) && s2.minted == s.minted && s2.runs == s.runs && s2.tables == s.tables && s2.ids == s.ids
    requires |s2.place| == |s.place| && s2.place == s.place[id := s2.place[id]] && !s2.place[id].InTable?
    ensures Tabled(s2) && Ran(s2)
  {
    hide Numbered, Hosted, Stacked;
    var a := Aside(s, id);
    assert forall k :: 0 <= k < |s.place| && k != id ==> s2.place[k] == a.place[k];
  }

  /** A loose resource may go to the host. */
  lemma HostTakesLoose(s: State, id: nat)
    requires Loose(s, id)
    ensures Inv(s.(hosts := s.hosts + [Owned(s.minted[id].key, s.minted[id].rep, id)],
                   place := Moved(s.place, id, WithHost(|s.hosts|))))
  {
    LooseElsewhere(s, id, s.(hosts := s.hosts + [Owned(s.minted[id].key, s.minted[id].rep, id)],
                             place := Moved(s.place, id, WithHost(|s.hosts|))));
    hide Numbered, Tabled, Ran;
  }

  lemma CleanupTakesLoose(s: State, id: nat)
    requires Loose(s, id)
    ensures Inv(s.(stack := s.stack + [Cleaning(s.minted[id].key, s.minted[id].rep, id)],
                   place := Moved(s.place, id, InCleanup(|s.stack|))))
  {
    LooseElsewhere(s, id, s.(stack := s.stack + [Cleaning(s.minted[id].key, s.minted[id].rep, id)],
                             place := Moved(s.place, id, InCleanup(|s.stack|))));
    hide Numbered, Tabled, Ran;
  }

  lemma ReleasedIsLoose(s: State, i: nat)
    requires Inv(s) && i < |s.hosts| && s.hosts[i].handle != 0
    ensures var id := s.hosts[i].id;
            && Loose(s.(hosts := s.hosts[i := s.hosts[i].(handle := 0)]), id)
            && s.hosts[i] == Owned(s.minted[id].key, s.minted[id].rep, id)
  {
    hide Stacked;
    var id := s.hosts[i].id;
    assert HostKnows(s, i) && HostKnown(s, id);
    var s2 := s.(hosts := s.hosts[i := s.hosts[i].(handle := 0)]);
    var a := Aside(s2, id);
    ReleasedHosts(s, i, a);
    ReleasedFrames(s, i, a);
    LooseBooks(s, id, a);
  }

  lemma ReleasedHosts(s: State, i: nat, a: State)
    requires Inv(s) && i < |s.hosts| && s.hosts[i].handle != 0
    requires var id := s.hosts[i].id;
             && id < |s.place| && s.place[id] == WithHost(i)
             && a == Aside(s.(hosts := s.hosts[i := s.hosts[i].(handle := 0)]), id)
    ensures Hosted(a)
  {
    hide Numbered, Tabled, Stacked, Ran;
    forall j | 0 <= j < |a.hosts|
      ensures HostKnows(a, j)
    {
      assert HostKnows(s, j);
    }
    forall k | 0 <= k < |a.place|
      ensures HostKnown(a, k)
    {
      assert HostKnown(s, k);
    }
  }

  lemma ReleasedFrames(s: State, i: nat, a: State)
    requires Inv(s) && i < |s.hosts| && s.hosts[i].handle != 0
    requires var id := s.hosts[i].id;
             && id < |s.place| && s.place[id] == WithHost(i)
             && a == Aside(s.(hosts := s.hosts[i := s.hosts[i].(handle := 0)]), id)
    ensures Stacked(a)
  {
    hide Numbered, Tabled, Hosted, Ran;
    forall d | 0 <= d < |a.stack|
      ensures FrameKnows(a, d)
    {
      assert FrameKnows(s, d);
    }
    forall k | 0 <= k < |a.place|
      ensures FrameKnown(a, k)
    {
      assert FrameKnown(s, k);
    }
  }

  /** Setting aside a resource that is in no table keeps the tables' books. */
  lemma LooseBooks(s: State, id: nat, a: State)
    requires Inv(s) && id < |s.place| && !s.place[id].InTable? && !s.place[id].Dropped?
    requires a.place == s.place[id := Dropped]
    requires a.tables == s.tables && a.ids == s.ids && a.minted == s.minted && a.runs == s.runs
    ensures Lines(a) && Numbered(a) && Tabled(a) && Ran(a) && a.runs[id] == 0
  {
    hide Hosted, Stacked;
  }

  /** The innermost call off the stack. */
  lemma ReturnedIsLoose(s: State)
    requires Inv(s) && |s.stack| > 0
    ensures var d := |s.stack| - 1;
            var s2 := s.(stack := s.stack[..d]);
            match s.stack[d]
            case Destructor(_) => Inv(s2)
            case Cleaning(_, _, id) => Loose(s2, id)
  {
    hide Numbered, Tabled, Hosted, Stacked, Ran;
    var d := |s.stack| - 1;
    var s2 := s.(stack := s.stack[..d]);
    match s.stack[d]
    case Destructor(_) => {
      PoppedFrames(s, s2);
      SameBooks(s, s2);
    }
    case Cleaning(_, _, id) => {
      CleaningKnown(s, d);
      PoppedFrames(s, Aside(s2, id));
      LooseBooks(s, id, Aside(s2, id));
      PoppedHosts(s, Aside(s2, id), id);
      SameBooks(s, s2);
    }
  }

  lemma CleaningKnown(s: State, d: nat)
    requires Inv(s) && d < |s.stack| && s.stack[d].Cleaning?
    ensures s.stack[d].id < |s.place| && s.place[s.stack[d].id] == InCleanup(d)
  {
    assert FrameKnows(s, d);
  }

  lemma SameBooks(s: State, s2: State)
    requires Inv(s) && s2 == s.(stack := s2.stack)
    ensures Lines(s2) && Numbered(s2) && Tabled(s2) && Hosted(s2) && Ran(s2)
  {
    hide Stacked;
    forall i | 0 <= i < |s2.hosts|
      ensures HostKnows(s2, i)
    {
      assert HostKnows(s, i);
    }
    forall k | 0 <= k < |s2.place|
      ensures HostKnown(s2, k)
    {
      assert HostKnown(s, k);
    }
  }

  lemma PoppedFrames(s: State, a: State)
    requires Inv(s) && |s.stack| > 0 && a.stack == s.stack[..|s.stack| - 1] && a.minted == s.minted
    requires match s.stack[|s.stack| - 1]
             case Destructor(_) => a.place == s.place
             case Cleaning(_, _, id) =>
               id < |s.place| && a.place == s.place[id := Dropped] && s.place[id] == InCleanup(|s.stack| - 1)
    ensures Stacked(a)
  {
    hide Numbered, Tabled, Hosted, Ran;
    forall d | 0 <= d < |a.stack|
      ensures FrameKnows(a, d)
    {
      assert FrameKnows(s, d);
    }
    forall k | 0 <= k < |a.place|
      ensures FrameKnown(a, k)
    {
      assert FrameKnown(s, k);
    }
  }

  lemma PoppedHosts(s: State, a: State, id: nat)
    requires Inv(s) && id < |s.place| && s.place[id].InCleanup?
    requires a.hosts == s.hosts && a.minted == s.minted && a.place == s.place[id := Dropped]
    ensures Hosted(a)
  {
    hide Numbered, Tabled, Stacked, Ran;
    forall i | 0 <= i < |a.hosts|
      ensures HostKnows(a, i)
    {
      assert HostKnows(s, i);
    }
    forall k | 0 <= k < |a.place|
      ensures HostKnown(a, k)
    {
      assert HostKnown(s, k);
    }
  }

  lemma CleanKeepsInv(s: State, i: nat, first: bool)
    requires Inv(s) && i < |s.hosts|
    ensures Inv(StepClean(s, i, first))
  {
    hide Numbered, Tabled, Hosted, Stacked, Ran;
    var o := s.hosts[i];
    if o.handle != 0 {
      ReleasedIsLoose(s, i);
      var s2 := s.(hosts := s.hosts[i := o.(handle := 0)]);
      if !s.open {
        DroppedKeepsInv(s2, o.id);
      } else if first {
        CleanupTakesLoose(s2, o.id);
      } else {
        DestroyedKeepsInv(s2, o.key, o.id);
      }
    }
  }

  lemma DroppedKeepsInv(s: State, id: nat)
    requires Loose(s, id)
    ensures Inv(s.(place := Moved(s.place, id, Dropped)))
  {
    hide Tabled, Hosted, Stacked, Ran;
  }

  lemma LiftKeepsInv(s: State, slot: Slot)
    requires Inv(s)
    ensures Inv(StepLift(s, slot))
  {
    hide Numbered, Tabled, Hosted, Stacked, Ran;
    if InSlot(s, slot) {
      TakenSlot(s, slot);
      TakenIsLoose(s, slot);
      HostTakesLoose(Taken(s, slot), IdOf(s, slot));
    } else {
      TouchKeepsInv(s, slot.key);
    }
  }

  lemma DropKeepsInv(s: State, slot: Slot)
    requires Inv(s)
    ensures Inv(StepDrop(s, slot))
  {
    hide Numbered, Tabled, Hosted, Stacked, Ran;
    if InSlot(s, slot) {
      TakenIsLoose(s, slot);
      DestroyedKeepsInv(Taken(s, slot), slot.key, IdOf(s, slot));
    } else {
      TouchKeepsInv(s, slot.key);
    }
  }

  lemma ReturnKeepsInv(s: State)
    requires Inv(s) && |s.stack| > 0
    ensures Inv(StepReturn(s))
  {
    hide Numbered, Tabled, Hosted, Stacked, Ran;
    ReturnedIsLoose(s);
    var d := |s.stack| - 1;
    match s.stack[d]
    case Destructor(_) =>
    case Cleaning(key, _, id) => DestroyedKeepsInv(s.(stack := s.stack[..d]), key, id);
  }

  lemma StepKeepsInv(s: State, ev: Event)
    requires Inv(s) && Step(s, ev).Some? && |Step(s, ev).value.minted| < TWO32
    ensures Inv(Step(s, ev).value)
  {
    hide Numbered, Tabled, Hosted, Stacked, Ran, StepClean, StepLift, StepDrop, StepReturn;
    MintedGrows(s, ev);
    match ev
    case New(key, rep) => NewKeepsInv(s, key, rep);
    case Look(key, _) => TouchKeepsInv(s, key);
    case Drop(key, handle) => DropKeepsInv(s, Slot(key, handle));
    case Lift(key, handle) => LiftKeepsInv(s, Slot(key, handle));
    case Clean(i, first) => CleanKeepsInv(s, i, first);
    case Return => ReturnKeepsInv(s);
    case Close => CloseKeepsInv(s);
  }

  lemma CloseKeepsInv(s: State)
    requires Inv(s)
    ensures Inv(s.(open := false))
  {
    hide Hosted, Stacked;
    HostsStand(s, s.(open := false), |s.place|);
    FramesStand(s, s.(open := false), |s.place|);
  }

  /** Nothing but a mint changes what has been minted, and that appends to it. */
  lemma MintedGrows(s: State, ev: Event)
    requires Step(s, ev).Some?
    ensures Step(s, ev).value.minted == if ev.New? then s.minted + [Res(ev.key, ev.rep)] else s.minted
  {
  }

  lemma {:induction false} RunsKeepInv(s: State, evs: seq<Event>)
    requires Inv(s)
    requires Runs(s, evs).Some? && |Runs(s, evs).value.minted| < TWO32
    ensures Inv(Runs(s, evs).value)
    decreases |evs|
  {
    hide Step, Inv;
    if |evs| > 0 {
      RunsMintMore(Step(s, evs[0]).value, evs[1..]);
      StepKeepsInv(s, evs[0]);
      RunsKeepInv(Step(s, evs[0]).value, evs[1..]);
    }
  }

  lemma {:induction false} RunsMintMore(s: State, evs: seq<Event>)
    requires Runs(s, evs).Some?
    ensures |s.minted| <= |Runs(s, evs).value.minted|
    decreases |evs|
  {
    hide Step;
    if |evs| > 0 {
      MintedGrows(s, evs[0]);
      RunsMintMore(Step(s, evs[0]).value, evs[1..]);
    }
  }

  // ---- what follows ----

  /** A state that some run reaches which mints fewer than 2^32 resources. */
  ghost predicate Reachable(s: State) {
    exists dtors, evs :: Runs(Start(dtors), evs) == Some(s) && |s.minted| < TWO32
  }

  lemma ReachableInv(s: State)
    requires Reachable(s)
    ensures Inv(s)
  {
    var dtors, evs :| Runs(Start(dtors), evs) == Some(s) && |s.minted| < TWO32;
    RunsKeepInv(Start(dtors), evs);
  }

  /** The handles under which the tables hold a resource, the host objects not yet cleaned up that have it,
      and the cleanups under way. */
  ghost predicate HeldByTable(s: State, id: nat, slot: Slot) {
    InSlot(s, slot) && IdOf(s, slot) == id
  }

  ghost predicate HeldByHost(s: State, id: nat, i: nat) {
    i < |s.hosts| && s.hosts[i].handle != 0 && s.hosts[i].id == id
  }

  ghost predicate HeldByCleanup(s: State, id: nat, d: nat) {
    d < |s.stack| && s.stack[d].Cleaning? && s.stack[d].id == id
  }

  /** In every reachable state each minted resource is in exactly one place: one handle of a table, one host
      object, one cleanup under way, or dropped; and whoever has it knows its representation. Only the host
      cannot tell one of representation 0 that it lifted from one it has cleaned up. */
  lemma InExactlyOnePlace(s: State, id: nat)
    requires Reachable(s) && id < |s.minted|
    ensures |s.place| == |s.minted|
    ensures forall slot :: HeldByTable(s, id, slot) <==> s.place[id] == InTable(slot)
    ensures forall i: nat :: HeldByHost(s, id, i) <==> s.place[id] == WithHost(i) && s.minted[id].rep != 0
    ensures forall d: nat :: HeldByCleanup(s, id, d) <==> s.place[id] == InCleanup(d)
    ensures forall slot :: HeldByTable(s, id, slot) ==>
              s.minted[id] == Res(slot.key, s.tables[slot.key].entries[slot.handle])
    ensures forall i: nat :: HeldByHost(s, id, i) ==> s.minted[id] == Res(s.hosts[i].key, s.hosts[i].handle)
    ensures forall d: nat :: HeldByCleanup(s, id, d) ==> s.minted[id] == Res(s.stack[d].key, s.stack[d].rep)
  {
    ReachableInv(s);
    hide Reachable, Numbered, Ran;
    assert HostKnown(s, id) && FrameKnown(s, id);
    forall i: nat
      ensures HeldByHost(s, id, i) ==> s.place[id] == WithHost(i) && s.minted[id].rep != 0
    {
      assert i < |s.hosts| ==> HostKnows(s, i);
    }
    forall d: nat
      ensures HeldByCleanup(s, id, d) ==> s.place[id] == InCleanup(d)
    {
      assert d < |s.stack| ==> FrameKnows(s, d);
    }
  }

  /** The destructor of a resource is called at most once, and only when nobody has it any more. */
  lemma DestroyedAtMostOnce(s: State, id: nat)
    requires Reachable(s) && id < |s.minted|
    ensures |s.runs| == |s.place| == |s.minted|
    ensures s.runs[id] <= 1 && (s.runs[id] == 1 ==> s.place[id].Dropped?)
  {
    ReachableInv(s);
  }

  // ---- what the builtins answer ----

  /** [resource-rep] answers r exactly when the handle's slot holds a resource that was minted for r. */
  lemma RepIsOfResource(s: State, slot: Slot, r: u32)
    requires Reachable(s)
    ensures |s.place| == |s.minted|
    ensures Rep(TableOf(s.tables, slot.key), slot.handle) == Some(r) <==>
              exists id :: 0 <= id < |s.minted| && s.place[id] == InTable(slot) && s.minted[id] == Res(slot.key, r)
  {
    ReachableInv(s);
    hide Reachable, Numbered, Ran, Hosted, Stacked;
    if InSlot(s, slot) {
      assert s.place[s.ids[slot]] == InTable(slot);
    }
  }

  /** [resource-new] puts the new resource under the next handle, which then stands for its representation. */
  lemma NewIsTabled(s: State, key: string, rep: u32)
    requires s.open && |s.place| == |s.minted|
    ensures var slot := Slot(key, TableOf(s.tables, key).next);
            var s2 := Step(s, New(key, rep)).value;
            && s2.minted == s.minted + [Res(key, rep)] && s2.place == s.place + [InTable(slot)]
            && Rep(TableOf(s2.tables, key), slot.handle) == Some(rep)
  {
  }

  /** Lifting hands the representation to a new host object and the handle is gone. */
  lemma LiftGivesRep(s: State, slot: Slot)
    requires Reachable(s) && Step(s, Lift(slot.key, slot.handle)).Some?
    ensures var s2 := Step(s, Lift(slot.key, slot.handle)).value;
            && Rep(TableOf(s2.tables, slot.key), slot.handle) == None
            && match Rep(TableOf(s.tables, slot.key), slot.handle)
               case None => s2.hosts == s.hosts && s2.place == s.place
               case Some(r) =>
                 && |s2.hosts| == |s.hosts| + 1 && s2.hosts[..|s.hosts|] == s.hosts
                 && var o := s2.hosts[|s.hosts|];
                    && o.handle == r && o.id < |s.minted| == |s2.place|
                    && s.minted[o.id] == Res(slot.key, r) && s2.place[o.id] == WithHost(|s.hosts|)
  {
    ReachableInv(s);
    hide Reachable, Numbered, Ran, Hosted, Stacked;
  }

  /** [resource-drop] of a live handle drops the resource and calls its destructor, if the guest exports one; of
      any other handle it does nothing. */
  lemma DropDestroys(s: State, slot: Slot)
    requires Reachable(s) && s.open
    ensures var s2 := Step(s, Drop(slot.key, slot.handle)).value;
            && Rep(TableOf(s2.tables, slot.key), slot.handle) == None
            && match Rep(TableOf(s.tables, slot.key), slot.handle)
               case None => s2.place == s.place && s2.runs == s.runs && s2.stack == s.stack
               case Some(r) =>
                 exists id ::
                   && 0 <= id < |s.minted| == |s2.place| == |s2.runs| && s.minted[id] == Res(slot.key, r)
                   && s2.place[id] == Dropped
                   && s2.runs[id] == (if slot.key in s.dtors then 1 else 0)
                   && s2.stack == if slot.key in s.dtors then s.stack + [Destructor(id)] else s.stack
  {
    ReachableInv(s);
    hide Reachable, Numbered, Hosted, Stacked;
    if InSlot(s, slot) {
      var id := s.ids[slot];
      assert s.minted[id] == Res(slot.key, Rep(TableOf(s.tables, slot.key), slot.handle).value);
      assert s.runs[id] == 0;
    }
  }

  /** Nothing runs in a closed module; the host gets its turn only when the guest runs nothing on its behalf, and
      cleaning up in a closed module drops the resource without a destructor. */
  lemma TurnsAre(s: State, ev: Event)
    ensures !s.open && (ev.New? || ev.Look? || ev.Drop? || ev.Lift? || ev.Return?) ==> Step(s, ev) == None
    ensures s.stack != [] && (ev.Lift? || ev.Clean? || ev.Close?) ==> Step(s, ev) == None
    ensures s.open && (ev.New? || ev.Look? || ev.Drop?) ==> Step(s, ev).Some?
    ensures !s.open && ev.Clean? && Step(s, ev).Some? ==>
              var s2, o := Step(s, ev).value, s.hosts[ev.i];
              && s2.runs == s.runs && s2.stack == s.stack && s2.hosts == s.hosts[ev.i := o.(handle := 0)]
              && (o.handle != 0 && o.id < |s.place| ==> s2.place == s.place[o.id := Dropped])
  {
  }

  // ---- the zero representation ----

  /** A resource that nothing holds and nothing has destroyed. */
  ghost predicate Lost(s: State, id: nat) {
    && Lines(s) && id < |s.minted|
    && !s.place[id].Dropped? && s.runs[id] == 0
    && (forall slot :: InSlot(s, slot) ==> slot in s.ids)
    && (forall slot :: slot in s.ids ==> s.ids[slot] != id)
    && (forall i :: 0 <= i < |s.hosts| ==> s.hosts[i].id == id ==> s.hosts[i].handle == 0)
    && (forall d :: 0 <= d < |s.stack| ==> s.stack[d].Cleaning? ==> s.stack[d].id != id)
  }

  lemma LostInNew(s: State, key: string, rep: u32, id: nat)
    requires Lost(s, id)
    ensures Lost(StepNew(s, key, rep), id)
  {
  }

  lemma LostInDrop(s: State, slot: Slot, id: nat)
    requires Lost(s, id)
    ensures Lost(StepDrop(s, slot), id)
  {
  }

  lemma LostInLift(s: State, slot: Slot, id: nat)
    requires Lost(s, id)
    ensures Lost(StepLift(s, slot), id)
  {
  }

  lemma LostInClean(s: State, i: nat, first: bool, id: nat)
    requires Lost(s, id) && i < |s.hosts|
    ensures Lost(StepClean(s, i, first), id)
  {
  }

  lemma LostInReturn(s: State, id: nat)
    requires Lost(s, id) && |s.stack| > 0
    ensures Lost(StepReturn(s), id)
  {
  }

  lemma LostInTouch(s: State, key: string, id: nat)
    requires Lost(s, id)
    ensures Lost(s.(tables := s.tables[key := TableOf(s.tables, key)]), id) && Lost(s.(open := false), id)
  {
  }

  lemma LostStaysLost(s: State, ev: Event, id: nat)
    requires Lost(s, id) && Step(s, ev).Some?
    ensures Lost(Step(s, ev).value, id)
  {
    hide Lost, StepNew, StepDrop, StepLift, StepClean, StepReturn;
    match ev
    case New(key, rep) => LostInNew(s, key, rep, id);
    case Look(key, _) => LostInTouch(s, key, id);
    case Drop(key, handle) => LostInDrop(s, Slot(key, handle), id);
    case Lift(key, handle) => LostInLift(s, Slot(key, handle), id);
    case Clean(i, first) => LostInClean(s, i, first, id);
    case Return => LostInReturn(s, id);
    case Close => LostInTouch(s, "", id);
  }

  lemma {:induction false} LostForEver(s: State, evs: seq<Event>, id: nat)
    requires Lost(s, id) && Runs(s, evs).Some?
    ensures Lost(Runs(s, evs).value, id)
    decreases |evs|
  {
    hide Step, Lost;
    if |evs| > 0 {
      LostStaysLost(s, evs[0], id);
      LostForEver(Step(s, evs[0]).value, evs[1..], id);
    }
  }

  /** A resource of representation 0 is lost once the host has it. */
  lemma LiftedZeroIsLost(s: State, id: nat)
    requires Inv(s) && id < |s.minted| && s.place[id].WithHost? && s.minted[id].rep == 0
    ensures Lost(s, id)
  {
    hide Numbered;
    assert HostKnown(s, id);
    forall i | 0 <= i < |s.hosts|
      ensures s.hosts[i].id == id ==> s.hosts[i].handle == 0
    {
      assert HostKnows(s, i);
    }
    forall d | 0 <= d < |s.stack|
      ensures s.stack[d].Cleaning? ==> s.stack[d].id != id
    {
      assert FrameKnows(s, d);
    }
  }

  /** From any state, a resource of representation 0 that the host lifts is never destroyed, whatever
      happens next: the representation is the host's mark for an object it has cleaned up. */
  lemma ZeroIsNeverDestroyed(s: State, slot: Slot, evs: seq<Event>)
    requires Inv(s) && InSlot(s, slot) && s.tables[slot.key].entries[slot.handle] == 0
    requires Runs(StepLift(s, slot), evs).Some?
    ensures var id, s9 := IdOf(s, slot), Runs(StepLift(s, slot), evs).value;
            id < |s9.place| == |s9.runs| && s9.runs[id] == 0 && !s9.place[id].Dropped?
  {
    hide Numbered, Tabled, Hosted, Stacked, Ran, Lost;
    TakenSlot(s, slot);
    LiftKeepsInv(s, slot);
    LiftedZeroIsLost(StepLift(s, slot), IdOf(s, slot));
    LostForEver(StepLift(s, slot), evs, IdOf(s, slot));
    LostMeans(Runs(StepLift(s, slot), evs).value, IdOf(s, slot));
  }

  lemma LostMeans(s: State, id: nat)
    requires Lost(s, id)
    ensures id < |s.place| == |s.runs| && s.runs[id] == 0 && !s.place[id].Dropped?
  {
  }

  // ---- cleaning up ----

  /** What is dropped stays dropped, and is not destroyed again. */
  lemma DroppedStays(s: State, ev: Event, id: nat)
    requires Inv(s) && Step(s, ev).Some? && id < |s.place| && s.place[id].Dropped?
    ensures var s2 := Step(s, ev).value;
            id < |s2.place| && |s2.runs| == |s2.place| && s2.place[id].Dropped? && s2.runs[id] == s.runs[id]
  {
    hide Numbered, Hosted, Stacked, Ran;
    match ev
    case Drop(key, handle) => {
      if InSlot(s, Slot(key, handle)) {
        TakenSlot(s, Slot(key, handle));
      }
    }
    case Lift(key, handle) => {
      if InSlot(s, Slot(key, handle)) {
        TakenSlot(s, Slot(key, handle));
      }
    }
    case Clean(i, first) => HostAt(s, i);
    case Return => FrameAt(s, |s.stack| - 1);
    case _ =>
  }

  lemma HostAt(s: State, i: nat)
    requires Inv(s) && i < |s.hosts|
    ensures s.hosts[i].handle != 0 ==> s.hosts[i].id < |s.place| && s.place[s.hosts[i].id] == WithHost(i)
  {
    assert HostKnows(s, i);
  }

  lemma FrameAt(s: State, d: nat)
    requires Inv(s) && d < |s.stack|
    ensures s.stack[d].Cleaning? ==> s.stack[d].id < |s.place| && s.place[s.stack[d].id] == InCleanup(d)
  {
    assert FrameKnows(s, d);
  }

  /** How often the destructor of a dropped resource of this type has been called. */
  function Calls(s: State, key: string): nat {
    if key in s.dtors then 1 else 0
  }

  /** The outermost call is the cleanup of id, or its destructor has had its turn. */
  ghost predicate CleaningOrGone(s: State, key: string, id: nat) {
    && id < |s.place| == |s.runs|
    && if s.place[id].Dropped? then s.runs[id] == Calls(s, key)
       else |s.stack| > 0 && s.stack[0].Cleaning? && s.stack[0].key == key && s.stack[0].id == id
  }

  lemma CleaningGoesOn(s: State, ev: Event, key: string, id: nat)
    requires Inv(s) && Step(s, ev).Some? && CleaningOrGone(s, key, id)
    ensures CleaningOrGone(Step(s, ev).value, key, id)
  {
    hide Numbered, Tabled, Hosted, Stacked;
    if s.place[id].Dropped? {
      DroppedStays(s, ev, id);
    } else {
      FrameAt(s, 0);
      match ev
      case Drop(key2, handle) => {
        if InSlot(s, Slot(key2, handle)) {
          TakenSlot(s, Slot(key2, handle));
        }
      }
      case Return => {
        FrameAt(s, |s.stack| - 1);
      }
      case _ =>
    }
  }

  lemma {:induction false} CleaningEnds(s: State, evs: seq<Event>, key: string, id: nat)
    requires Inv(s) && CleaningOrGone(s, key, id)
    requires Runs(s, evs).Some? && |Runs(s, evs).value.minted| < TWO32
    ensures CleaningOrGone(Runs(s, evs).value, key, id) && Runs(s, evs).value.dtors == s.dtors
    decreases |evs|
  {
    hide Step, Inv, CleaningOrGone;
    if |evs| > 0 {
      SameDtors(s, evs[0]);
      RunsMintMore(Step(s, evs[0]).value, evs[1..]);
      CleaningGoesOn(s, evs[0], key, id);
      StepKeepsInv(s, evs[0]);
      CleaningEnds(Step(s, evs[0]).value, evs[1..], key, id);
    }
  }

  lemma SameDtors(s: State, ev: Event)
    requires Step(s, ev).Some?
    ensures Step(s, ev).value.dtors == s.dtors
  {
  }

  lemma CleanStarts(s: State, i: nat, first: bool)
    requires Inv(s) && s.open && s.stack == [] && i < |s.hosts| && s.hosts[i].handle != 0
    ensures CleaningOrGone(StepClean(s, i, first), s.hosts[i].key, s.hosts[i].id)
  {
    HostAt(s, i);
  }

  /** Cleaning up a host object in an open module, with the guest's cleanup method first or without, drops
      its resource and calls the destructor the guest exports, once, by the time the guest is done, whatever
      guest code does in between, if and only if the representation is not 0. */
  lemma CleanDestroysIffNonzero(s: State, i: nat, first: bool, evs: seq<Event>)
    requires Inv(s) && s.open && s.stack == [] && i < |s.hosts|
    requires s.hosts[i].id < |s.minted| && s.place[s.hosts[i].id] == WithHost(i)
    requires Runs(StepClean(s, i, first), evs).Some?
    requires var s9 := Runs(StepClean(s, i, first), evs).value; |s9.minted| < TWO32 && s9.stack == []
    ensures var id, s9 := s.hosts[i].id, Runs(StepClean(s, i, first), evs).value;
            var rep := s.minted[id].rep;
            && id < |s9.place| == |s9.runs|
            && (s9.place[id].Dropped? <==> rep != 0)
            && s9.runs[id] == if rep != 0 && s.minted[id].key in s.dtors then 1 else 0
  {
    hide Numbered, Tabled, Hosted, Stacked, Ran, Lost, Step;
    var id, key := s.hosts[i].id, s.hosts[i].key;
    HostHas(s, i);
    if s.minted[id].rep == 0 {
      LiftedZeroIsLost(s, id);
      LostForEver(s, evs, id);
      LostMeans(Runs(s, evs).value, id);
    } else {
      CleanStarts(s, i, first);
      CleanKeepsInv(s, i, first);
      CleaningEnds(StepClean(s, i, first), evs, key, id);
    }
  }

  lemma HostHas(s: State, i: nat)
    requires Inv(s) && i < |s.hosts| && s.hosts[i].id < |s.minted| && s.place[s.hosts[i].id] == WithHost(i)
    ensures var id := s.hosts[i].id;
            s.hosts[i] == Owned(s.minted[id].key, s.minted[id].rep, id)
  {
    assert HostKnown(s, s.hosts[i].id);
  }
}
