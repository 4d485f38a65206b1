/** Handle tables: guest-minted handles and the representations they stand for. */
module Resources {
  import opened Words
  import opened Wrappers

  /** One table; `next` is the handle the next New returns. */
  datatype Table = Table(next: u32, entries: map<u32, u32>)

  function NewTable(): Table {
    Table(1, map[])
  }

  function Minted(t: Table, rep: u32): Table {
    Table(Add32(t.next, 1), t.entries[t.next := rep])
  }

  function Rep(t: Table, handle: u32): Option<u32> {
    if handle in t.entries then Some(t.entries[handle]) else None
  }

  function Removed(t: Table, handle: u32): Table {
    t.(entries := t.entries - {handle})
  }

  function TableOf(tables: map<string, Table>, key: string): Table {
    if key in tables then tables[key] else NewTable()
  }

  /** The entries map is made on first use. */
  class ResourceTable {
    var next: u32
    var entries: Option<map<u32, u32>>
    ghost const key: string

    ghost function Value(): Table
      reads this
    {
      if entries.None? then NewTable() else Table(next, entries.value)
    }

    constructor (ghost key: string)
      ensures Value() == NewTable() && this.key == key
    {
      next, entries := 0, None;
      this.key := key;
    }

    method New(rep: u32) returns (handle: u32)
      modifies this
      ensures handle == old(Value()).next && Value() == Minted(old(Value()), rep)
    {
      if entries.None? {
        entries := Some(map[]);
        next := 1;
      }
      handle := next;
      next := Add32(next, 1);
      entries := Some(entries.value[handle := rep]);
    }

    method GetRep(handle: u32) returns (rep: Option<u32>)
      ensures rep == Rep(Value(), handle)
    {
      if entries.None? || handle !in entries.value {
        return None;
      }
      return Some(entries.value[handle]);
    }

    method Remove(handle: u32) returns (rep: Option<u32>)
      modifies this
      ensures rep == Rep(old(Value()), handle) && Value() == Removed(old(Value()), handle)
    {
      if entries.None? || handle !in entries.value {
        return None;
      }
      rep := Some(entries.value[handle]);
      entries := Some(entries.value - {handle});
    }
  }

  /** The tables of one module, made on demand. */
  class ResourceTables {
    var tables: map<string, ResourceTable>
    ghost var Repr: set<object>

    ghost predicate Valid()
      reads this, Repr
    {
      && this in Repr
      && (forall k :: k in tables ==> tables[k] in Repr && tables[k].key == k)
    }

    ghost function Contents(): map<string, Table>
      requires Valid()
      reads this, Repr
    {
      map k | k in tables :: tables[k].Value()
    }

    constructor ()
      ensures Valid() && fresh(Repr) && Contents() == map[]
    {
      tables := map[];
      Repr := {this};
    }

    /** The same table for the same key every time. */
    method Find(key: string) returns (tab: ResourceTable)
      requires Valid()
      modifies this
      ensures Valid() && fresh(Repr - old(Repr)) && key in tables && tab == tables[key]
      ensures Contents() == old(Contents())[key := TableOf(old(Contents()), key)]
      ensures key in old(tables) ==> tab == old(tables[key])
    {
      if key !in tables {
        tab := new ResourceTable(key);
        tables := tables[key := tab];
        Repr := Repr + {tab};
      }
      tab := tables[key];
    }

    /** The [resource-new] builtin. */
    method ResourceNew(key: string, rep: u32) returns (handle: u32)
      requires Valid()
      modifies Repr
      ensures Valid() && fresh(Repr - old(Repr))
      ensures var t := TableOf(old(Contents()), key);
              handle == t.next && Contents() == old(Contents())[key := Minted(t, rep)]
    {
      hide Minted, TableOf;
      var tab := Find(key);
      ghost var before := Contents();
      assert tab.Value() == before[key];
      handle := tab.New(rep);
      assert forall k :: k in tables && k != key ==> tables[k] != tab && tables[k].Value() == before[k];
    }

    /** The [resource-rep] builtin; None is its error. */
    method ResourceRep(key: string, handle: u32) returns (rep: Option<u32>)
      requires Valid()
      modifies this
      ensures Valid() && fresh(Repr - old(Repr))
      ensures var t := TableOf(old(Contents()), key);
              rep == Rep(t, handle) && Contents() == old(Contents())[key := t]
    {
      var tab := Find(key);
      assert tab.Value() == Contents()[key];
      rep := tab.GetRep(handle);
    }

    /** What [resource-drop] and liftOwn do to the table before anything else runs: the handle is gone, and
        its representation is to be destroyed, or the host's. */
    method Take(key: string, handle: u32) returns (rep: Option<u32>)
      requires Valid()
      modifies Repr
      ensures Valid() && fresh(Repr - old(Repr))
      ensures var t := TableOf(old(Contents()), key);
              rep == Rep(t, handle) && Contents() == old(Contents())[key := Removed(t, handle)]
    {
      hide Removed, TableOf, Rep;
      var tab := Find(key);
      ghost var before := Contents();
      assert tab.Value() == before[key];
      rep := tab.Remove(handle);
      assert forall k :: k in tables && k != key ==> tables[k] != tab && tables[k].Value() == before[k];
    }
  }

  /** The host's Instance or File: a representation, 0 once it is cleaned up. */
  class HostObject {
    var handle: u32

    constructor (handle: u32)
      ensures this.handle == handle
    {
      this.handle := handle;
    }

    /** cleanup and closeFile up to the guest calls: the handle is zeroed first, and what it was is to be
        destroyed unless the module is closed. */
    method Release(moduleOpen: bool) returns (destroy: Option<u32>)
      modifies this
      ensures handle == 0
      ensures destroy == if old(handle) != 0 && moduleOpen then Some(old(handle)) else None
    {
      if handle == 0 {
        return None;
      }
      var h := handle;
      handle := 0;
      if !moduleOpen {
        return None;
      }
      return Some(h);
    }
  }

  // ---- handles ----

  /** A table after mints, one for each representation. */
  function AfterMints(reps: seq<u32>): Table {
    if |reps| == 0 then NewTable() else Minted(AfterMints(reps[..|reps| - 1]), reps[|reps| - 1])
  }

  /** The n-th handle is n modulo 2^32; so handles are nonzero as long as fewer than 2^32 are minted, and the
      2^32-th is 0. */
  lemma {:induction false} HandlesCount(reps: seq<u32>)
    ensures AfterMints(reps).next == (|reps| + 1) % TWO32
  {
    if |reps| > 0 {
      HandlesCount(reps[..|reps| - 1]);
    }
  }

  // ---- representations ----

  /** A handle stands for the representation it was minted for, and minting or removing one changes no other. */
  lemma RepsAreMinted(t: Table, rep: u32, handle: u32, other: u32)
    ensures Rep(NewTable(), other) == None
    ensures Rep(Minted(t, rep), other) == if other == t.next then Some(rep) else Rep(t, other)
    ensures Rep(Removed(t, handle), other) == if other == handle then None else Rep(t, other)
  {
  }

  /** After any mints, the n-th handle stands for the n-th representation, as long as handles do not repeat. */
  lemma {:induction false} NthHandleIsNth(reps: seq<u32>, n: nat)
    requires 0 < n <= |reps| < TWO32
    ensures Rep(AfterMints(reps), n) == Some(reps[n - 1])
  {
    var before := reps[..|reps| - 1];
    HandlesCount(before);
    RepsAreMinted(AfterMints(before), reps[|reps| - 1], 0, n);
    if n < |reps| {
      NthHandleIsNth(before, n);
    }
  }
}
