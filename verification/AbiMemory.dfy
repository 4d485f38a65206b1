/** What Load reads and what Store leaves in linear memory, for any guest allocator. */
module AbiMemory {
  import opened Words
  import opened Wrappers
  import opened AbiTypes
  import opened AbiValues

  // ---- bytes ----

  /** The addresses of n bytes at p. */
  function Area(p: nat, n: nat): (s: set<nat>)
    ensures forall a :: a in s <==> p <= a < p + n
  {
    if n == 0 then {} else Area(p, n - 1) + {p + n - 1}
  }

  function ReadLE(m: seq<byte>, p: nat, w: nat): (r: Option<nat>)
    ensures r.Some? ==> r.value < Pow256(w)
  {
    if p + w <= |m| then Some(FromLE(m[p..p + w])) else None
  }

  function WriteBytes(m: seq<byte>, p: nat, b: seq<byte>): (r: Option<seq<byte>>)
    ensures r.Some? ==> |r.value| == |m|
  {
    if p + |b| <= |m| then Some(m[..p] + b + m[p + |b|..]) else None
  }

  function ReadString(m: seq<byte>, p: nat, n: nat): Option<seq<byte>> {
    if n == 0 then Some([]) else if p + n <= |m| then Some(m[p..p + n]) else None
  }

  /** The (pointer, length) pair of a string or a list. */
  function ReadHeader(m: seq<byte>, ptr: nat): (r: Option<(u32, u32)>)
  {
    Pow256Values();
    match (ReadLE(m, ptr, 4), ReadLE(m, Add32(ptr, 4), 4))
    case (Some(p), Some(n)) => Some((p, n))
    case _ => None
  }

  function ReadDisc(m: seq<byte>, ptr: nat, numCases: nat): (r: Option<u32>)
  {
    Pow256Values();
    match DiscSize(numCases)
    case 1 => (match ReadLE(m, ptr, 1) case Some(d) => Some(d) case None => None)
    case 2 => (match ReadLE(m, ptr, 2) case Some(d) => Some(d) case None => None)
    case _ => (match ReadLE(m, ptr, 4) case Some(d) => Some(d) case None => None)
  }

  function ElemAddr(e: Ty, p: nat, i: nat): u32 {
    Add32(p, Span(e, i))
  }

  function FieldAddr(fs: seq<Ty>, ptr: nat, i: nat): u32
    requires i < |fs|
  {
    Add32(ptr, Offset(fs, i))
  }

  function PayloadAddr(cs: seq<Case>, ptr: nat): u32 {
    Add32(ptr, PayloadOffset(cs))
  }

  // ---- Load ----

  /** The value of type t at ptr; `None` is any of the source's errors. */
  function LoadF(m: seq<byte>, t: Ty, ptr: nat): Option<Val>
    decreases t, 0
  {
    match t
    case PrimT(p) =>
      (match ReadLE(m, ptr, PrimSize(p))
       case Some(raw) => LiftPrim(p, raw)
       case None => None)
    case StringT =>
      (match ReadHeader(m, ptr)
       case Some((p, n)) => LoadString(m, p, n)
       case None => None)
    case EnumT(n) =>
      (match ReadDisc(m, ptr, n)
       case Some(d) => if d < n then Some(VU32(d)) else None
       case None => None)
    case ListT(e) =>
      (match ReadHeader(m, ptr)
       case Some((p, n)) => LoadList(m, e, p, n)
       case None => None)
    case RecordT(fs) => LoadRecord(m, fs, ptr)
    case VariantT(k, cs) => LoadVariant(m, k, cs, ptr)
  }

  function LoadRecord(m: seq<byte>, fs: seq<Ty>, ptr: nat): Option<Val>
    decreases fs, 1
  {
    if forall i | 0 <= i < |fs| :: LoadF(m, fs[i], FieldAddr(fs, ptr, i)).Some? then
      Some(VSlice(seq(|fs|, i requires 0 <= i < |fs| && LoadF(m, fs[i], FieldAddr(fs, ptr, i)).Some? =>
        LoadF(m, fs[i], FieldAddr(fs, ptr, i)).value)))
    else None
  }

  function LoadVariant(m: seq<byte>, k: VariantKind, cs: seq<Case>, ptr: nat): Option<Val>
    decreases cs, 1
  {
    match ReadDisc(m, ptr, |cs|)
    case None => None
    case Some(d) =>
      if d >= |cs| then None
      else
        match LoadCase(m, cs[d], PayloadAddr(cs, ptr))
        case Some(x) => Some(Wrap(k, d, x))
        case None => None
  }

  function LoadCase(m: seq<byte>, c: Case, ptr: nat): Option<Val>
    decreases c, 0
  {
    match c
    case NoPayload => Some(Nil)
    case Payload(t) => LoadF(m, t, ptr)
  }

  function LoadString(m: seq<byte>, p: nat, n: nat): Option<Val> {
    match ReadString(m, p, n)
    case Some(s) => Some(VString(s))
    case None => None
  }

  /** The n elements at p; list<u8> is a byte string. */
  function LoadList(m: seq<byte>, e: Ty, p: nat, n: nat): Option<Val>
    decreases e, 1
  {
    if e == PrimT(U8) then
      match ReadString(m, p, n)
      case Some(s) => Some(VBytes(s))
      case None => None
    else if forall i | 0 <= i < n :: LoadF(m, e, ElemAddr(e, p, i)).Some? then
      Some(VSlice(seq(n, i requires 0 <= i < n && LoadF(m, e, ElemAddr(e, p, i)).Some? =>
        LoadF(m, e, ElemAddr(e, p, i)).value)))
    else None
  }

  /** Everything Load reads for a value of type t at ptr lies in s: its own bytes and the blocks
      its headers point to. */
  ghost predicate Within(m: seq<byte>, t: Ty, ptr: nat, s: set<nat>)
    decreases t, 0
  {
    match t
    case PrimT(p) => Area(ptr, PrimSize(p)) <= s
    case StringT =>
      HeaderWithin(ptr, s) && (ReadHeader(m, ptr).Some? ==>
        var (p, n) := ReadHeader(m, ptr).value; Area(p, n) <= s)
    case EnumT(n) => Area(ptr, DiscSize(n)) <= s
    case ListT(e) =>
      HeaderWithin(ptr, s) && (ReadHeader(m, ptr).Some? ==>
        var (p, n) := ReadHeader(m, ptr).value; ListWithin(m, e, p, n, s))
    case RecordT(fs) => RecordWithin(m, fs, ptr, s)
    case VariantT(_, cs) => VariantWithin(m, cs, ptr, s)
  }

  ghost predicate RecordWithin(m: seq<byte>, fs: seq<Ty>, ptr: nat, s: set<nat>)
    decreases fs, 1
  {
    forall i :: 0 <= i < |fs| ==> Within(m, fs[i], FieldAddr(fs, ptr, i), s)
  }

  ghost predicate VariantWithin(m: seq<byte>, cs: seq<Case>, ptr: nat, s: set<nat>)
    decreases cs, 1
  {
    && Area(ptr, DiscSize(|cs|)) <= s
    && match ReadDisc(m, ptr, |cs|)
       case None => true
       case Some(d) => d < |cs| ==> CaseWithin(m, cs[d], PayloadAddr(cs, ptr), s)
  }

  ghost predicate HeaderWithin(ptr: nat, s: set<nat>) {
    Area(ptr, 4) <= s && Area(Add32(ptr, 4), 4) <= s
  }

  ghost predicate CaseWithin(m: seq<byte>, c: Case, ptr: nat, s: set<nat>)
    decreases c, 0
  {
    match c
    case NoPayload => true
    case Payload(t) => Within(m, t, ptr, s)
  }

  ghost predicate ListWithin(m: seq<byte>, e: Ty, p: nat, n: nat, s: set<nat>)
    decreases e, 1
  {
    if e == PrimT(U8) then Area(p, n) <= s
    else forall i :: 0 <= i < n ==> Within(m, e, ElemAddr(e, p, i), s)
  }

  // ---- the guest allocator ----

  /** Linear memory, the addresses somebody still relies on, how often the allocator ran, and whether it
      ever had no block to give. */
  datatype Heap = Heap(mem: seq<byte>, live: set<nat>, calls: nat, starved: bool)

  /** The allocator's answer; a guest call may change memory outside the live addresses, or grow it. */
  datatype Reply = NoBlock(mem: seq<byte>) | Block(ptr: u32, mem: seq<byte>)

  /** An allocator, as what it does when asked for (size, align). Every run of every stateful allocator
      is a run of such a function, since the heap records how many calls came before. */
  type Alloc = (Heap, nat, nat) -> Reply

  ghost predicate GoodHeap(h: Heap) {
    |h.mem| <= TWO32 && forall a :: a in h.live ==> a < |h.mem|
  }

  /** The contract: blocks are aligned, in bounds and disjoint from every live byte, and no live byte changes. */
  ghost predicate GoodReply(h: Heap, size: nat, align: nat, r: Reply)
    requires GoodHeap(h) && align > 0
  {
    && |h.mem| <= |r.mem| <= TWO32
    && (forall a :: a in h.live ==> r.mem[a] == h.mem[a])
    && (r.Block? ==>
          && r.ptr % align == 0
          && Area(r.ptr, size) !! h.live
          && (size > 0 ==> r.ptr + size <= |r.mem|))
  }

  ghost predicate GoodAlloc(alloc: Alloc) {
    forall h, size: nat, align: nat ::
      GoodHeap(h) && size < TWO32 && IsAlign(align) ==> GoodReply(h, size, align, alloc(h, size, align))
  }

  function AllocF(alloc: Alloc, h: Heap, size: nat, align: nat): (Heap, Option<u32>) {
    match alloc(h, size, align)
    case NoBlock(m) => (Heap(m, h.live, h.calls + 1, true), None)
    case Block(p, m) => (Heap(m, h.live + Area(p, size), h.calls + 1, h.starved), Some(p))
  }

  // ---- Store ----

  function PutBytes(h: Heap, p: nat, b: seq<byte>): (Heap, bool) {
    match WriteBytes(h.mem, p, b)
    case Some(m) => (h.(mem := m), true)
    case None => (h, false)
  }

  function PutHeader(h: Heap, ptr: nat, p: u32, n: u32): (Heap, bool) {
    var (h1, ok) := PutBytes(h, ptr, LE(p, 4));
    if ok then PutBytes(h1, Add32(ptr, 4), LE(n, 4)) else (h1, false)
  }

  /** Store: the heap afterwards, and whether the source returns no error. */
  function StoreF(alloc: Alloc, h: Heap, t: Ty, ptr: nat, v: Val): (Heap, bool)
    decreases t, 0
  {
    match t
    case PrimT(p) =>
      (match LowerPrim(p, v)
       case Some(raw) => PutBytes(h, ptr, LE(raw, PrimSize(p)))
       case None => (h, false))
    case StringT =>
      if !v.VString? then (h, false)
      else
        (match LowerString(alloc, h, v.text)
         case (h1, Some((p, n))) => PutHeader(h1, ptr, p, n)
         case (h1, None) => (h1, false))
    case EnumT(n) =>
      if v.VU32? && v.a32 < n then PutBytes(h, ptr, LE(v.a32, DiscSize(n))) else (h, false)
    case ListT(e) =>
      (match LowerList(alloc, h, e, v)
       case (h1, Some((p, n))) => PutHeader(h1, ptr, p, n)
       case (h1, None) => (h1, false))
    case RecordT(fs) =>
      if v.VSlice? && |v.elems| == |fs| then StoreFields(alloc, h, fs, ptr, v.elems, 0) else (h, false)
    case VariantT(k, cs) => StoreVariant(alloc, h, k, cs, ptr, v)
  }

  function StoreVariant(alloc: Alloc, h: Heap, k: VariantKind, cs: seq<Case>, ptr: nat, v: Val): (Heap, bool)
    decreases cs, 1
  {
    if (k != KindVariant ==> |cs| == 2) && Unwrap(k, |cs|, v).Some? then
      var (d, x) := Unwrap(k, |cs|, v).value;
      var (h1, ok) := PutBytes(h, ptr, LE(d, DiscSize(|cs|)));
      if ok then StoreCase(alloc, h1, cs[d], PayloadAddr(cs, ptr), x) else (h1, false)
    else (h, false)
  }

  function StoreCase(alloc: Alloc, h: Heap, c: Case, ptr: nat, v: Val): (Heap, bool)
    decreases c, 0
  {
    match c
    case NoPayload => (h, true)
    case Payload(t) => StoreF(alloc, h, t, ptr, v)
  }

  /** Fields i and after. */
  function StoreFields(alloc: Alloc, h: Heap, fs: seq<Ty>, ptr: nat, vs: seq<Val>, i: nat): (Heap, bool)
    requires i <= |fs| == |vs|
    decreases fs, 1, |fs| - i
  {
    if i == |fs| then (h, true)
    else
      var (h1, ok) := StoreF(alloc, h, fs[i], FieldAddr(fs, ptr, i), vs[i]);
      if ok then StoreFields(alloc, h1, fs, ptr, vs, i + 1) else (h1, false)
  }

  /** A string's body, unless it is empty. */
  function LowerString(alloc: Alloc, h: Heap, s: seq<byte>): (Heap, Option<(u32, u32)>) {
    if |s| >= TWO32 then (h, None)
    else if |s| == 0 then (h, Some((0, 0)))
    else LowerBytes(alloc, h, s)
  }

  /** A block of bytes; the requested size and the length are truncated to uint32. */
  function LowerBytes(alloc: Alloc, h: Heap, b: seq<byte>): (Heap, Option<(u32, u32)>) {
    match AllocF(alloc, h, |b| % TWO32, 1)
    case (h1, None) => (h1, None)
    case (h1, Some(p)) =>
      var (h2, ok) := PutBytes(h1, p, b);
      (h2, if ok then Some((p, |b| % TWO32)) else None)
  }

  function LowerList(alloc: Alloc, h: Heap, e: Ty, v: Val): (Heap, Option<(u32, u32)>)
    decreases e, 2
  {
    if e == PrimT(U8) then
      if !v.VBytes? then (h, None)
      else if |v.bytes| == 0 then (h, Some((0, 0)))
      else LowerBytes(alloc, h, v.bytes)
    else if !v.VSlice? then (h, None)
    else if |v.elems| == 0 then (h, Some((0, 0)))
    else
      match AllocF(alloc, h, Span(e, |v.elems|) % TWO32, Align(e))
      case (h1, None) => (h1, None)
      case (h1, Some(p)) =>
        var (h2, ok) := StoreElems(alloc, h1, e, p, v.elems, 0);
        (h2, if ok then Some((p, |v.elems| % TWO32)) else None)
  }

  /** Elements i and after. */
  function StoreElems(alloc: Alloc, h: Heap, e: Ty, p: nat, vs: seq<Val>, i: nat): (Heap, bool)
    requires i <= |vs|
    decreases e, 1, |vs| - i
  {
    if i == |vs| then (h, true)
    else
      var (h1, ok) := StoreF(alloc, h, e, ElemAddr(e, p, i), vs[i]);
      if ok then StoreElems(alloc, h1, e, p, vs, i + 1) else (h1, false)
  }
}
