/** The guest's cabi_realloc: over-allocated buffers pinned for the life of the module, and the contract that
    Store and Lower rely on. */
module GuestAlloc {
  import opened Words
  import opened Wrappers
  import opened AbiTypes
  import opened AbiMemory

  datatype Buf = Buf(base: nat, len: nat)

  /** Linear memory, the pinned buffers in the order they were made, and the addresses the guest needs for
      anything else. */
  datatype Guest = Guest(mem: seq<byte>, pinned: seq<Buf>, kept: set<nat>)

  /** What `make` gives: the address of a buffer, and memory after a collection or growth. */
  datatype Made = Made(base: u32, mem: seq<byte>)

  /** The guest's Go runtime, as what it gives for a size; None when it is out of memory and panics. */
  type Runtime = (Guest, nat) -> Option<Made>

  ghost predicate InUse(g: Guest, a: nat) {
    a in g.kept || exists i :: 0 <= i < |g.pinned| && a in Area(g.pinned[i].base, g.pinned[i].len)
  }

  ghost predicate Sound(g: Guest) {
    && |g.mem| <= TWO32
    && (forall a: nat :: InUse(g, a) ==> a < |g.mem|)
    && (forall i, j :: 0 <= i < j < |g.pinned| ==>
          Area(g.pinned[i].base, g.pinned[i].len) !! Area(g.pinned[j].base, g.pinned[j].len))
  }

  /** A buffer is in bounds, not at address 0, apart from everything in use, and nothing in use changes. */
  ghost predicate GoodMake(g: Guest, n: nat, made: Made) {
    && |g.mem| <= |made.mem| <= TWO32
    && 0 < made.base && made.base + n <= |made.mem|
    && (forall a :: a in Area(made.base, n) ==> !InUse(g, a))
    && (forall a: nat :: InUse(g, a) && a < |g.mem| ==> made.mem[a] == g.mem[a])
  }

  ghost predicate GoodRuntime(rt: Runtime) {
    forall g, n: nat :: Sound(g) && rt(g, n).Some? ==> GoodMake(g, n, rt(g, n).value)
  }

  function Min(a: nat, b: nat): nat {
    if a < b then a else b
  }

  /** copy of len bytes within memory, of as many as are there. */
  function Copied(mem: seq<byte>, from: nat, to: nat, len: nat): (r: seq<byte>)
    ensures |r| == |mem|
  {
    if from + len <= |mem| && to + len <= |mem| then mem[..to] + mem[from..from + len] + mem[to + len..] else mem
  }

  datatype Call = Call(ptr: u32, oldSize: u32, align: u32, newSize: u32) {
    /** The alignment, 0 standing for 1. */
    function Al(): u32 {
      if align == 0 then 1 else align
    }
  }

  /** cabiRealloc: the guest afterwards, and the pointer; None when the runtime is out of memory, and when the
      copy would leave memory, which traps before a byte is written. */
  function Ran(rt: Runtime, g: Guest, c: Call): (Guest, Option<u32>) {
    if c.newSize == 0 then (g, Some(c.Al()))
    else
      var n := Add32(c.newSize, c.Al());
      match rt(g, n)
      case None => (g, None)
      case Some(made) =>
        var aligned := AlignUp(made.base, c.Al());
        var g1 := Guest(made.mem, g.pinned + [Buf(made.base, n)], g.kept);
        if c.ptr == 0 || c.oldSize == 0 then (g1, Some(aligned))
        else
          var len := Min(c.oldSize, c.newSize);
          if c.ptr + len > |made.mem| || aligned + len > |made.mem| then (g1, None)
          else (g1.(mem := Copied(made.mem, c.ptr, aligned, len)), Some(aligned))
  }

  /** A call that returns. */
  function Realloc(rt: Runtime, g: Guest, c: Call): Option<(Guest, u32)> {
    match Ran(rt, g, c)
    case (_, None) => None
    case (g2, Some(p)) => Some((g2, p))
  }

  /** copy, which reads everything before it writes. */
  method CopyWithin(memory: array<byte>, from: nat, to: nat, len: nat)
    requires from + len <= memory.Length && to + len <= memory.Length
    modifies memory
    ensures memory[..] == Copied(old(memory[..]), from, to, len)
  {
    var bytes := memory[from..from + len];
    ghost var mem := memory[..];
    forall i | 0 <= i < len {
      memory[to + i] := bytes[i];
    }
    assert memory[..to] == mem[..to] && memory[to..to + len] == bytes && memory[to + len..] == mem[to + len..];
    assert memory[..] == memory[..to] + memory[to..to + len] + memory[to + len..];
  }

  class GuestHeap {
    const runtime: Runtime
    var memory: array<byte>
    var pinned: seq<Buf>
    const kept: set<nat>

    constructor (runtime: Runtime, memory: array<byte>, kept: set<nat>)
      ensures this.runtime == runtime && this.memory == memory && State() == Guest(memory[..], [], kept)
    {
      this.runtime, this.memory, this.pinned, this.kept := runtime, memory, [], kept;
    }

    function State(): Guest
      reads this, memory
    {
      Guest(memory[..], pinned, kept)
    }

    method CabiRealloc(ptr: u32, oldSize: u32, align: u32, newSize: u32) returns (p: Option<u32>)
      modifies this
      ensures (State(), p) == Ran(runtime, old(State()), Call(ptr, oldSize, align, newSize))
    {
      var al := align;
      if al == 0 {
        al := 1;
      }
      if newSize == 0 {
        return Some(al);
      }
      var n := Add32(newSize, al);
      var made := runtime(State(), n);
      if made.None? {
        return None;
      }
      var mem := made.value.mem;
      memory := new byte[|mem|](i requires 0 <= i < |mem| => mem[i]);
      assert memory[..] == mem;
      pinned := pinned + [Buf(made.value.base, n)];
      var aligned := AlignUp(made.value.base, al);
      if ptr != 0 && oldSize > 0 {
        var len := Min(oldSize, newSize);
        if ptr + len > memory.Length || aligned + len > memory.Length {
          return None;
        }
        CopyWithin(memory, ptr, aligned, len);
      }
      p := Some(aligned);
    }
  }

  /** A call as callers may make it: a power-of-two alignment (0 stands for 1), a size that with the
      alignment fits u32, and an old block, if any, that is in use. */
  ghost predicate Allowed(g: Guest, c: Call) {
    && (exists k: nat :: Pow2(k) == c.Al())
    && c.newSize + c.Al() < TWO32
    && (c.ptr != 0 && c.oldSize > 0 ==> forall a :: a in Area(c.ptr, c.oldSize) ==> InUse(g, a))
  }

  lemma UsedIsThere(g: Guest, ptr: nat, size: nat)
    requires Sound(g) && size > 0 && forall a :: a in Area(ptr, size) ==> InUse(g, a)
    ensures ptr + size <= |g.mem|
  {
    assert ptr + size - 1 in Area(ptr, size);
  }

  /** The rounded address leaves room for the block in a buffer longer by the alignment. */
  lemma AlignedInside(g: Guest, made: Made, al: u32, size: u32)
    requires size > 0 && size + al < TWO32 && GoodMake(g, size + al, made) && exists k: nat :: Pow2(k) == al
    ensures Add32(size, al) == size + al
    ensures var p := AlignUp(made.base, al);
            p % al == 0 && made.base <= p && p + size < made.base + size + al
  {
    hide AlignUp, RoundUp, Pow2, InUse;
    var k: nat :| Pow2(k) == al;
    AlignUpIsRoundUp(made.base, k);
    RoundUpIsLeast(made.base, al);
  }

  // ---- one call ----

  /** A nonempty block: aligned, not null, inside the buffer just pinned and apart from everything in use
      before; and everything in use before is in use still, with the same bytes. */
  ghost predicate Served(g: Guest, c: Call, g2: Guest, p: u32) {
    && p % c.Al() == 0 && p > 0
    && |g2.pinned| == |g.pinned| + 1 && g.pinned <= g2.pinned && g2.kept == g.kept
    && Area(p, c.newSize) <= Area(Last(g2).base, Last(g2).len)
    && (forall a: nat :: a in Area(p, c.newSize) ==> !InUse(g, a) && InUse(g2, a))
    && (forall a: nat :: InUse(g, a) ==> InUse(g2, a) && a < |g.mem| <= |g2.mem| && g2.mem[a] == g.mem[a])
  }

  function Last(g: Guest): Buf {
    if |g.pinned| > 0 then g.pinned[|g.pinned| - 1] else Buf(0, 0)
  }

  lemma InUseAfter(g: Guest, mem: seq<byte>, b: Buf, a: nat)
    ensures InUse(Guest(mem, g.pinned + [b], g.kept), a) <==> InUse(g, a) || a in Area(b.base, b.len)
  {
    var pinned := g.pinned + [b];
    if i :| 0 <= i < |pinned| && a in Area(pinned[i].base, pinned[i].len) {
      assert i < |g.pinned| ==> pinned[i] == g.pinned[i];
    }
    if i :| 0 <= i < |g.pinned| && a in Area(g.pinned[i].base, g.pinned[i].len) {
      assert pinned[i] == g.pinned[i];
    }
    assert pinned[|g.pinned|] == b;
  }

  lemma NewBufferIsSound(g: Guest, mem: seq<byte>, made: Made, n: nat)
    requires Sound(g) && GoodMake(g, n, made) && |mem| == |made.mem|
    ensures Sound(Guest(mem, g.pinned + [Buf(made.base, n)], g.kept))
  {
    var b := Buf(made.base, n);
    var g2 := Guest(mem, g.pinned + [b], g.kept);
    forall a: nat | InUse(g2, a)
      ensures a < |mem|
    {
      InUseAfter(g, mem, b, a);
    }
    forall i, j | 0 <= i < j < |g2.pinned|
      ensures Area(g2.pinned[i].base, g2.pinned[i].len) !! Area(g2.pinned[j].base, g2.pinned[j].len)
    {
      if j == |g.pinned| {
        forall a | a in Area(g.pinned[i].base, g.pinned[i].len)
          ensures a !in Area(made.base, n)
        {
          assert InUse(g, a);
        }
      }
    }
  }

  /** What cabiRealloc promises for a call that asks for a nonempty block. */
  lemma ReallocServes(rt: Runtime, g: Guest, c: Call)
    requires GoodRuntime(rt) && Sound(g) && Allowed(g, c) && c.newSize > 0 && Realloc(rt, g, c).Some?
    ensures var (g2, p) := Realloc(rt, g, c).value;
            Sound(g2) && Served(g, c, g2, p)
  {
    hide AlignUp, Sound, InUse;
    var n := c.newSize + c.Al();
    AlignFits(c);
    var made := rt(g, n).value;
    var (g2, p) := Realloc(rt, g, c).value;
    AlignedInside(g, made, c.Al(), c.newSize);
    NewBufferIsSound(g, g2.mem, made, n);
    forall a: nat
      ensures InUse(g2, a) <==> InUse(g, a) || a in Area(made.base, n)
    {
      InUseAfter(g, g2.mem, Buf(made.base, n), a);
    }
    forall a: nat | InUse(g, a)
      ensures a < |g.mem| <= |g2.mem| && g2.mem[a] == g.mem[a]
    {
      UsedStays(g, c, made, a);
    }
  }

  lemma AlignFits(c: Call)
    requires c.newSize + c.Al() < TWO32
    ensures Add32(c.newSize, c.Al()) == c.newSize + c.Al()
  {
  }

  lemma UsedStays(g: Guest, c: Call, made: Made, a: nat)
    requires Sound(g) && c.newSize > 0 && c.newSize + c.Al() < TWO32 && GoodMake(g, c.newSize + c.Al(), made)
    requires (exists k: nat :: Pow2(k) == c.Al()) && InUse(g, a)
    ensures a < |g.mem| <= |made.mem| && made.mem[a] == g.mem[a]
    ensures var p := AlignUp(made.base, c.Al());
            Copied(made.mem, c.ptr, p, Min(c.oldSize, c.newSize))[a] == g.mem[a]
  {
    AlignedInside(g, made, c.Al(), c.newSize);
    hide AlignUp;
    assert a !in Area(made.base, c.newSize + c.Al());
  }

  /** A reallocated block keeps the old bytes, as many as both have. */
  lemma PrefixIsKept(rt: Runtime, g: Guest, c: Call)
    requires GoodRuntime(rt) && Sound(g) && Allowed(g, c) && c.newSize > 0 && Realloc(rt, g, c).Some?
    requires c.ptr != 0 && c.oldSize > 0
    ensures var (g2, p) := Realloc(rt, g, c).value;
            var len := Min(c.oldSize, c.newSize);
            p + len <= |g2.mem| && c.ptr + len <= |g.mem| && g2.mem[p..p + len] == g.mem[c.ptr..c.ptr + len]
  {
    hide AlignUp;
    AlignFits(c);
    var n := c.newSize + c.Al();
    var made := rt(g, n).value;
    AlignedInside(g, made, c.Al(), c.newSize);
    UsedIsThere(g, c.ptr, c.oldSize);
    var len := Min(c.oldSize, c.newSize);
    forall a: nat | c.ptr <= a < c.ptr + len
      ensures made.mem[a] == g.mem[a]
    {
      assert a in Area(c.ptr, c.oldSize);
    }
    assert made.mem[c.ptr..c.ptr + len] == g.mem[c.ptr..c.ptr + len];
  }

  /** A block lies inside the buffer made for it exactly when size and alignment together fit u32. */
  lemma BlockFitsIff(g: Guest, c: Call, made: Made)
    requires c.newSize > 0 && (exists k: nat :: Pow2(k) == c.Al()) && GoodMake(g, Add32(c.newSize, c.Al()), made)
    ensures Area(AlignUp(made.base, c.Al()), c.newSize) <= Area(made.base, Add32(c.newSize, c.Al())) <==>
              c.newSize + c.Al() < TWO32
  {
    var p, n := AlignUp(made.base, c.Al()), Add32(c.newSize, c.Al());
    if c.newSize + c.Al() < TWO32 {
      AlignFits(c);
      AlignedInside(g, made, c.Al(), c.newSize);
    } else {
      assert n < c.newSize;
      assert p in Area(p, c.newSize) && p + c.newSize - 1 in Area(p, c.newSize);
    }
  }

  // ---- any sequence of calls ----

  /** The state and the returned pointers after a sequence of calls; None when one runs out of memory. */
  function RunAll(rt: Runtime, g: Guest, calls: seq<Call>): Option<(Guest, seq<u32>)> {
    if |calls| == 0 then Some((g, []))
    else
      match RunAll(rt, g, calls[..|calls| - 1])
      case None => None
      case Some((g1, ps)) =>
        match Realloc(rt, g1, calls[|calls| - 1])
        case None => None
        case Some((g2, p)) => Some((g2, ps + [p]))
  }

  ghost predicate AllAllowed(rt: Runtime, g: Guest, calls: seq<Call>) {
    |calls| == 0 || (
      var before := calls[..|calls| - 1];
      && AllAllowed(rt, g, before)
      && (RunAll(rt, g, before).Some? ==> Allowed(RunAll(rt, g, before).value.0, calls[|calls| - 1])))
  }

  /** How many calls ask for a nonempty block. */
  function Blocks(calls: seq<Call>): nat {
    if |calls| == 0 then 0 else Blocks(calls[..|calls| - 1]) + if calls[|calls| - 1].newSize > 0 then 1 else 0
  }

  lemma {:induction false} BlocksBefore(calls: seq<Call>, i: nat)
    requires i < |calls| && calls[i].newSize > 0
    ensures Blocks(calls[..i]) < Blocks(calls)
  {
    var n := |calls| - 1;
    if i < n {
      BlocksBefore(calls[..n], i);
      assert calls[..n][..i] == calls[..i];
    }
  }

  lemma {:induction false} BlocksInOrder(calls: seq<Call>, i: nat, j: nat)
    requires i < j < |calls| && calls[i].newSize > 0
    ensures Blocks(calls[..i]) < Blocks(calls[..j])
  {
    BlocksBefore(calls[..j], i);
    assert calls[..j][..i] == calls[..i];
  }

  /** Block i is aligned and inside the buffer pinned for it. */
  ghost predicate Placed(first: nat, g: Guest, calls: seq<Call>, ps: seq<u32>, i: nat)
    requires i < |calls| == |ps|
  {
    calls[i].newSize > 0 ==>
      var k := first + Blocks(calls[..i]);
      && ps[i] % calls[i].Al() == 0
      && k < |g.pinned| && Area(ps[i], calls[i].newSize) <= Area(g.pinned[k].base, g.pinned[k].len)
  }

  lemma {:induction false} EveryBlockPlaced(rt: Runtime, g: Guest, calls: seq<Call>)
    requires GoodRuntime(rt) && Sound(g) && AllAllowed(rt, g, calls) && RunAll(rt, g, calls).Some?
    ensures var (g2, ps) := RunAll(rt, g, calls).value;
            && Sound(g2) && |ps| == |calls| && |g2.pinned| == |g.pinned| + Blocks(calls)
            && forall i :: 0 <= i < |calls| ==> Placed(|g.pinned|, g2, calls, ps, i)
    decreases |calls|
  {
    hide Sound, Allowed, InUse, GoodRuntime, Realloc, Placed;
    if |calls| > 0 {
      var n := |calls| - 1;
      EveryBlockPlaced(rt, g, calls[..n]);
      var (g1, qs) := RunAll(rt, g, calls[..n]).value;
      var (g2, p) := Realloc(rt, g1, calls[n]).value;
      LastPlaced(rt, g1, calls, qs, |g.pinned|);
      forall i | 0 <= i < n
        ensures Placed(|g.pinned|, g2, calls, qs + [p], i)
      {
        StaysPlaced(|g.pinned|, g1, g2, calls, qs, p, i);
      }
    }
  }

  lemma StaysPlaced(first: nat, g1: Guest, g2: Guest, calls: seq<Call>, qs: seq<u32>, p: u32, i: nat)
    requires |calls| == |qs| + 1 && i < |qs| && g1.pinned <= g2.pinned
    requires Placed(first, g1, calls[..|qs|], qs, i)
    ensures Placed(first, g2, calls, qs + [p], i)
  {
    assert calls[..|qs|][..i] == calls[..i];
  }

  lemma LastPlaced(rt: Runtime, g1: Guest, calls: seq<Call>, qs: seq<u32>, first: nat)
    requires |calls| == |qs| + 1 && |g1.pinned| == first + Blocks(calls[..|qs|])
    requires GoodRuntime(rt) && Sound(g1) && Allowed(g1, calls[|qs|]) && Realloc(rt, g1, calls[|qs|]).Some?
    ensures var (g2, p) := Realloc(rt, g1, calls[|qs|]).value;
            && Sound(g2) && g1.pinned <= g2.pinned && |g2.pinned| == first + Blocks(calls)
            && Placed(first, g2, calls, qs + [p], |qs|)
  {
    hide Sound, Allowed, InUse, GoodRuntime, Realloc;
    var c := calls[|qs|];
    if c.newSize > 0 {
      ReallocServes(rt, g1, c);
    } else {
      EmptyRequest(rt, g1, c);
    }
  }

  /** Over any sequence of allowed calls, every nonempty block is aligned and inside its own pinned buffer,
      and any two are disjoint. */
  lemma BlocksAreDisjoint(rt: Runtime, g: Guest, calls: seq<Call>, i: nat, j: nat)
    requires GoodRuntime(rt) && Sound(g) && AllAllowed(rt, g, calls) && RunAll(rt, g, calls).Some?
    requires i < j < |calls| && calls[i].newSize > 0 && calls[j].newSize > 0
    ensures var (g2, ps) := RunAll(rt, g, calls).value;
            && |ps| == |calls|
            && Placed(|g.pinned|, g2, calls, ps, i) && Placed(|g.pinned|, g2, calls, ps, j)
            && Area(ps[i], calls[i].newSize) !! Area(ps[j], calls[j].newSize)
  {
    hide Realloc, RunAll, AllAllowed, GoodRuntime, InUse;
    EveryBlockPlaced(rt, g, calls);
    BlocksInOrder(calls, i, j);
    var (g2, ps) := RunAll(rt, g, calls).value;
    var a, b := |g.pinned| + Blocks(calls[..i]), |g.pinned| + Blocks(calls[..j]);
    assert Placed(|g.pinned|, g2, calls, ps, i) && Placed(|g.pinned|, g2, calls, ps, j);
    assert Area(g2.pinned[a].base, g2.pinned[a].len) !! Area(g2.pinned[b].base, g2.pinned[b].len);
  }

  // ---- the contract the engine assumes ----

  /** cabi_realloc as the host calls it; what the host still relies on is in use for the guest. */
  function AllocFrom(rt: Runtime): Alloc {
    (h: Heap, size: nat, align: nat) =>
      match Realloc(rt, Guest(h.mem, [], h.live), Call(0, 0, align % TWO32, size % TWO32))
      case None => NoBlock(h.mem)
      case Some((g, p)) => Block(p, g.mem)
  }

  lemma EmptyRequest(rt: Runtime, g: Guest, c: Call)
    ensures c.newSize == 0 ==> Realloc(rt, g, c) == Some((g, c.Al()))
  {
  }

  /** A guest whose runtime keeps its promise answers every request whose size and alignment together fit
      u32 as the engine's allocator contract asks. */
  lemma RuntimeMeetsContract(rt: Runtime, h: Heap, size: nat, align: nat)
    requires GoodRuntime(rt) && GoodHeap(h) && IsAlign(align) && size + align < TWO32
    ensures GoodReply(h, size, align, AllocFrom(rt)(h, size, align))
  {
    var g := Guest(h.mem, [], h.live);
    var c := Call(0, 0, align, size);
    assert Pow2(0) == 1 && Pow2(1) == 2 && Pow2(2) == 4 && Pow2(3) == 8;
    assert Allowed(g, c);
    SmallMod(size, TWO32);
    SmallMod(align, TWO32);
    hide Pow2, AlignUp, Realloc;
    if size > 0 && Realloc(rt, g, c).Some? {
      ReallocServes(rt, g, c);
      forall a | a in h.live
        ensures InUse(g, a)
      {
      }
    } else {
      EmptyRequest(rt, g, c);
    }
  }

  /** A request whose size and alignment wrap around together is answered with a block that overlaps whatever
      is live away from the two ends of the address space. */
  lemma OverflowBreaksContract(rt: Runtime, h: Heap, size: u32, align: nat, a: nat)
    requires GoodHeap(h) && IsAlign(align) && size + align >= TWO32
    requires a in h.live && 8 <= a < TWO32 - 8
    requires AllocFrom(rt)(h, size, align).Block?
    ensures !GoodReply(h, size, align, AllocFrom(rt)(h, size, align))
  {
    hide Realloc;
    var r := AllocFrom(rt)(h, size, align);
    assert r.ptr + size <= TWO32 ==> a in Area(r.ptr, size);
  }

  /** So an answered request gets a block that meets the contract if and only if its size and alignment
      together fit u32. */
  lemma AnswerIsGoodIff(rt: Runtime, h: Heap, size: u32, align: nat, a: nat)
    requires GoodRuntime(rt) && GoodHeap(h) && IsAlign(align)
    requires a in h.live && 8 <= a < TWO32 - 8
    requires AllocFrom(rt)(h, size, align).Block?
    ensures GoodReply(h, size, align, AllocFrom(rt)(h, size, align)) <==> size + align < TWO32
  {
    hide AllocFrom, GoodReply, GoodRuntime;
    if size + align < TWO32 {
      RuntimeMeetsContract(rt, h, size, align);
    } else {
      OverflowBreaksContract(rt, h, size, align, a);
    }
  }

  /** A runtime that only ever grows memory and hands out the new part. */
  function Bump(): Runtime {
    (g: Guest, n: nat) =>
      var base := if |g.mem| == 0 then 1 else |g.mem|;
      if base < TWO32 && base + n <= TWO32 then Some(Made(base, g.mem + seq(base + n - |g.mem|, _ => 0))) else None
  }

  /** So the runtime's promise can be kept, */
  lemma BumpIsGood()
    ensures GoodRuntime(Bump())
  {
    forall g, n: nat | Sound(g) && Bump()(g, n).Some?
      ensures GoodMake(g, n, Bump()(g, n).value)
    {
    }
  }

  /** and the contract is broken all the same, by a request for 2^32 - 1 bytes. */
  lemma CodeIsNotGoodAlloc()
    ensures !GoodAlloc(AllocFrom(Bump()))
  {
    hide AllocFrom, Bump;
    var h := Heap(seq(9, _ => 0), {8}, 0, false);
    BumpServesOverflow(h);
    OverflowBreaksContract(Bump(), h, TWO32 - 1, 1, 8);
  }

  lemma BumpServesOverflow(h: Heap)
    requires |h.mem| == 9
    ensures AllocFrom(Bump())(h, TWO32 - 1, 1).Block?
  {
    hide AlignUp, Copied;
    SmallMod(TWO32 - 1, TWO32);
    SmallMod(1, TWO32);
    assert Add32(TWO32 - 1, 1) == 0;
  }

  /** The allocator with such requests refused, which the code does not do. */
  function Guarded(rt: Runtime): Alloc {
    (h: Heap, size: nat, align: nat) =>
      if size + align < TWO32 then AllocFrom(rt)(h, size, align) else NoBlock(h.mem)
  }

  lemma GuardedMeetsContract(rt: Runtime)
    requires GoodRuntime(rt)
    ensures GoodAlloc(Guarded(rt))
  {
    hide AllocFrom;
    forall h, size: nat, align: nat | GoodHeap(h) && size < TWO32 && IsAlign(align)
      ensures GoodReply(h, size, align, Guarded(rt)(h, size, align))
    {
      if size + align < TWO32 {
        RuntimeMeetsContract(rt, h, size, align);
      }
    }
  }
}
