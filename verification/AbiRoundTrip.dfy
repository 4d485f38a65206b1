/** Storing a value and loading it back, for every type, every value and every good allocator. */
module AbiRoundTrip {
  import opened Words
  import opened Wrappers
  import opened AbiTypes
  import opened AbiValues
  import opened AbiMemory

  // ---- Load depends only on the addresses it reads ----

  /** m2 has all of m1's bytes at s. */
  ghost predicate Agree(m1: seq<byte>, m2: seq<byte>, s: set<nat>) {
    |m1| <= |m2| && forall a :: a in s ==> a < |m1| && m1[a] == m2[a]
  }

  lemma SlicesAgree(m1: seq<byte>, m2: seq<byte>, s: set<nat>, p: nat, n: nat)
    requires Agree(m1, m2, s) && Area(p, n) <= s && n > 0
    ensures p + n <= |m1| && p + n <= |m2| && m1[p..p + n] == m2[p..p + n]
  {
    assert p + n - 1 in Area(p, n);
    forall a | p <= a < p + n
      ensures m1[a] == m2[a]
    {
      assert a in Area(p, n);
    }
  }

  lemma HeadersAgree(m1: seq<byte>, m2: seq<byte>, s: set<nat>, ptr: nat)
    requires Agree(m1, m2, s) && HeaderWithin(ptr, s)
    ensures ReadHeader(m1, ptr) == ReadHeader(m2, ptr)
  {
    SlicesAgree(m1, m2, s, ptr, 4);
    SlicesAgree(m1, m2, s, Add32(ptr, 4), 4);
  }

  lemma StringsAgree(m1: seq<byte>, m2: seq<byte>, s: set<nat>, p: nat, n: nat)
    requires Agree(m1, m2, s) && Area(p, n) <= s
    ensures ReadString(m1, p, n) == ReadString(m2, p, n)
  {
    if n > 0 {
      SlicesAgree(m1, m2, s, p, n);
    }
  }

  /** A record loads field by field. */
  lemma RecordIs(m: seq<byte>, fs: seq<Ty>, ptr: nat, vs: seq<Val>)
    requires |vs| == |fs|
    requires forall i :: 0 <= i < |fs| ==> LoadF(m, fs[i], FieldAddr(fs, ptr, i)) == Some(vs[i])
    ensures LoadRecord(m, fs, ptr) == Some(VSlice(vs))
  {
    assert LoadRecord(m, fs, ptr).value.elems == vs;
  }

  /** A list loads element by element. */
  lemma ListIs(m: seq<byte>, e: Ty, p: nat, vs: seq<Val>)
    requires e != PrimT(U8)
    requires forall i :: 0 <= i < |vs| ==> LoadF(m, e, ElemAddr(e, p, i)) == Some(vs[i])
    ensures LoadList(m, e, p, |vs|) == Some(VSlice(vs))
  {
    assert LoadList(m, e, p, |vs|).value.elems == vs;
  }

  /** One element that does not load fails the list. */
  lemma ListFails(m: seq<byte>, e: Ty, p: nat, n: nat, i: nat)
    requires e != PrimT(U8) && i < n && LoadF(m, e, ElemAddr(e, p, i)).None?
    ensures LoadList(m, e, p, n).None?
  {
  }

  lemma {:induction false} LoadIsLocal(m1: seq<byte>, m2: seq<byte>, t: Ty, ptr: nat, s: set<nat>)
    requires Agree(m1, m2, s) && Within(m1, t, ptr, s)
    ensures LoadF(m2, t, ptr) == LoadF(m1, t, ptr) && Within(m2, t, ptr, s)
    decreases t, 0
  {
    hide Agree, LoadList, ListWithin, LoadRecord, RecordWithin, LoadVariant, VariantWithin, ReadHeader, ReadDisc;
    match t
    case PrimT(p) => SlicesAgree(m1, m2, s, ptr, PrimSize(p));
    case StringT =>
      HeadersAgree(m1, m2, s, ptr);
      if ReadHeader(m1, ptr).Some? {
        var (p, n) := ReadHeader(m1, ptr).value;
        StringsAgree(m1, m2, s, p, n);
      }
    case EnumT(n) => DiscsAgree(m1, m2, s, ptr, n);
    case ListT(e) =>
      HeadersAgree(m1, m2, s, ptr);
      if ReadHeader(m1, ptr).Some? {
        var (p, n) := ReadHeader(m1, ptr).value;
        LoadListIsLocal(m1, m2, e, p, n, s);
      }
    case RecordT(fs) => LoadRecordIsLocal(m1, m2, fs, ptr, s);
    case VariantT(k, cs) => LoadVariantIsLocal(m1, m2, k, cs, ptr, s);
  }

  lemma {:induction false} LoadVariantIsLocal(m1: seq<byte>, m2: seq<byte>, k: VariantKind, cs: seq<Case>, ptr: nat,
                                              s: set<nat>)
    requires Agree(m1, m2, s) && VariantWithin(m1, cs, ptr, s)
    ensures LoadVariant(m2, k, cs, ptr) == LoadVariant(m1, k, cs, ptr) && VariantWithin(m2, cs, ptr, s)
    decreases cs, 1
  {
    SlicesAgree(m1, m2, s, ptr, DiscSize(|cs|));
    match ReadDisc(m1, ptr, |cs|)
    case None =>
    case Some(d) =>
      if d < |cs| {
        LoadCaseIsLocal(m1, m2, cs[d], PayloadAddr(cs, ptr), s);
      }
  }

  lemma {:induction false} LoadRecordIsLocal(m1: seq<byte>, m2: seq<byte>, fs: seq<Ty>, ptr: nat, s: set<nat>)
    requires Agree(m1, m2, s) && RecordWithin(m1, fs, ptr, s)
    ensures LoadRecord(m2, fs, ptr) == LoadRecord(m1, fs, ptr) && RecordWithin(m2, fs, ptr, s)
    decreases fs, 1
  {
    forall i | 0 <= i < |fs|
      ensures LoadF(m2, fs[i], FieldAddr(fs, ptr, i)) == LoadF(m1, fs[i], FieldAddr(fs, ptr, i))
      ensures Within(m2, fs[i], FieldAddr(fs, ptr, i), s)
    {
      LoadIsLocal(m1, m2, fs[i], FieldAddr(fs, ptr, i), s);
    }
    if LoadRecord(m1, fs, ptr).Some? {
      RecordIs(m2, fs, ptr, LoadRecord(m1, fs, ptr).value.elems);
    }
  }

  lemma {:induction false} LoadCaseIsLocal(m1: seq<byte>, m2: seq<byte>, c: Case, ptr: nat, s: set<nat>)
    requires Agree(m1, m2, s) && CaseWithin(m1, c, ptr, s)
    ensures LoadCase(m2, c, ptr) == LoadCase(m1, c, ptr) && CaseWithin(m2, c, ptr, s)
    decreases c, 0
  {
    match c
    case NoPayload =>
    case Payload(t) => LoadIsLocal(m1, m2, t, ptr, s);
  }

  lemma {:induction false} LoadListIsLocal(m1: seq<byte>, m2: seq<byte>, e: Ty, p: nat, n: nat, s: set<nat>)
    requires Agree(m1, m2, s) && ListWithin(m1, e, p, n, s)
    ensures LoadList(m2, e, p, n) == LoadList(m1, e, p, n) && ListWithin(m2, e, p, n, s)
    decreases e, 1
  {
    if e == PrimT(U8) {
      StringsAgree(m1, m2, s, p, n);
    } else {
      forall i | 0 <= i < n
        ensures LoadF(m2, e, ElemAddr(e, p, i)) == LoadF(m1, e, ElemAddr(e, p, i))
        ensures Within(m2, e, ElemAddr(e, p, i), s)
      {
        LoadIsLocal(m1, m2, e, ElemAddr(e, p, i), s);
      }
      if LoadList(m1, e, p, n).Some? {
        ListIs(m2, e, p, LoadList(m1, e, p, n).value.elems);
      }
    }
  }

  lemma {:induction false} WithinMore(m: seq<byte>, t: Ty, ptr: nat, s1: set<nat>, s2: set<nat>)
    requires Within(m, t, ptr, s1) && s1 <= s2
    ensures Within(m, t, ptr, s2)
    decreases t, 0
  {
    match t
    case PrimT(p) =>
    case StringT =>
    case EnumT(n) =>
    case ListT(e) =>
      if ReadHeader(m, ptr).Some? {
        var (p, n) := ReadHeader(m, ptr).value;
        ListWithinMore(m, e, p, n, s1, s2);
      }
    case RecordT(fs) =>
      forall i | 0 <= i < |fs|
        ensures Within(m, fs[i], FieldAddr(fs, ptr, i), s2)
      {
        WithinMore(m, fs[i], FieldAddr(fs, ptr, i), s1, s2);
      }
    case VariantT(k, cs) => VariantWithinMore(m, cs, ptr, s1, s2);
  }

  lemma {:induction false} VariantWithinMore(m: seq<byte>, cs: seq<Case>, ptr: nat, s1: set<nat>, s2: set<nat>)
    requires VariantWithin(m, cs, ptr, s1) && s1 <= s2
    ensures VariantWithin(m, cs, ptr, s2)
    decreases cs, 1
  {
    match ReadDisc(m, ptr, |cs|)
    case None =>
    case Some(d) =>
      if d < |cs| {
        CaseWithinMore(m, cs[d], PayloadAddr(cs, ptr), s1, s2);
      }
  }

  lemma {:induction false} CaseWithinMore(m: seq<byte>, c: Case, ptr: nat, s1: set<nat>, s2: set<nat>)
    requires CaseWithin(m, c, ptr, s1) && s1 <= s2
    ensures CaseWithin(m, c, ptr, s2)
    decreases c, 0
  {
    match c
    case NoPayload =>
    case Payload(t) => WithinMore(m, t, ptr, s1, s2);
  }

  lemma {:induction false} ListWithinMore(m: seq<byte>, e: Ty, p: nat, n: nat, s1: set<nat>, s2: set<nat>)
    requires ListWithin(m, e, p, n, s1) && s1 <= s2
    ensures ListWithin(m, e, p, n, s2)
    decreases e, 1
  {
    if e != PrimT(U8) {
      forall i | 0 <= i < n
        ensures Within(m, e, ElemAddr(e, p, i), s2)
      {
        WithinMore(m, e, ElemAddr(e, p, i), s1, s2);
      }
    }
  }

  // ---- what a step of storing keeps ----

  /** h2 keeps every live byte of h1 outside `area`, and every live address. */
  ghost predicate Kept(h1: Heap, h2: Heap, area: set<nat>) {
    && GoodHeap(h2)
    && h1.live <= h2.live
    && |h1.mem| <= |h2.mem|
    && forall a :: a in h1.live && a !in area ==> a < |h1.mem| && h2.mem[a] == h1.mem[a]
  }

  /** Between h1 and h2 the value v was stored at ptr: it is accepted, it loads back, and it occupies
      its own area and addresses that were not live before. */
  ghost predicate Stored(h1: Heap, h2: Heap, t: Ty, ptr: nat, v: Val) {
    && Accepts(t, v)
    && LoadF(h2.mem, t, ptr) == Some(Norm(t, v))
    && Within(h2.mem, t, ptr, Area(ptr, Size(t)) + (h2.live - h1.live))
  }

  /** A stored value survives whatever keeps it, and may be seen as stored by any longer run. */
  lemma StoredStays(h0: Heap, h1: Heap, h2: Heap, h3: Heap, t: Ty, ptr: nat, v: Val, area: set<nat>)
    requires h0.live <= h1.live && GoodHeap(h2) && h1.live <= h2.live
    requires Stored(h1, h2, t, ptr, v) && Kept(h2, h3, area)
    requires Area(ptr, Size(t)) <= h2.live && area !! Area(ptr, Size(t)) && area <= h1.live
    ensures Stored(h0, h3, t, ptr, v)
  {
    var s := Area(ptr, Size(t)) + (h2.live - h1.live);
    assert Agree(h2.mem, h3.mem, s);
    LoadIsLocal(h2.mem, h3.mem, t, ptr, s);
    WithinMore(h3.mem, t, ptr, s, Area(ptr, Size(t)) + (h3.live - h0.live));
  }

  lemma PutBytesWorks(h: Heap, p: nat, b: seq<byte>)
    requires GoodHeap(h) && Area(p, |b|) <= h.live && |b| > 0
    ensures var (h2, ok) := PutBytes(h, p, b);
            ok && h2.live == h.live && Kept(h, h2, Area(p, |b|)) &&
            p + |b| <= |h2.mem| && h2.mem[p..p + |b|] == b
  {
    assert p + |b| - 1 in Area(p, |b|);
    var (h2, ok) := PutBytes(h, p, b);
    assert h2.mem[p..p + |b|] == b;
  }

  lemma PutWordWorks(h: Heap, p: nat, n: nat, w: nat)
    requires GoodHeap(h) && Area(p, w) <= h.live && w > 0 && n < Pow256(w)
    ensures var (h2, ok) := PutBytes(h, p, LE(n, w));
            ok && h2.live == h.live && Kept(h, h2, Area(p, w)) && ReadLE(h2.mem, p, w) == Some(n)
  {
    PutBytesWorks(h, p, LE(n, w));
    FromLEOfLE(n, w);
  }

  lemma PutDiscWorks(h: Heap, p: nat, d: nat, numCases: nat)
    requires GoodHeap(h) && Area(p, DiscSize(numCases)) <= h.live && d < numCases <= TWO32
    ensures var (h2, ok) := PutBytes(h, p, LE(d, DiscSize(numCases)));
            ok && h2.live == h.live && Kept(h, h2, Area(p, DiscSize(numCases))) &&
            ReadDisc(h2.mem, p, numCases) == Some(d)
  {
    Pow256Values();
    PutWordWorks(h, p, d, DiscSize(numCases));
  }

  lemma PutHeaderWorks(h: Heap, ptr: u32, p: u32, n: u32)
    requires GoodHeap(h) && Area(ptr, 8) <= h.live
    ensures var (h2, ok) := PutHeader(h, ptr, p, n);
            ok && h2.live == h.live && Kept(h, h2, Area(ptr, 8)) &&
            ReadHeader(h2.mem, ptr) == Some((p, n)) && HeaderWithin(ptr, Area(ptr, 8))
  {
    Pow256Values();
    assert ptr + 7 in Area(ptr, 8);
    SmallMod(ptr + 4, TWO32);
    PutWordWorks(h, ptr, p, 4);
    var (h1, _) := PutBytes(h, ptr, LE(p, 4));
    PutWordWorks(h1, ptr + 4, n, 4);
    var (h2, _) := PutBytes(h1, ptr + 4, LE(n, 4));
    HeaderWritten(h, h1, h2, ptr, p, n);
  }

  lemma HeaderWritten(h: Heap, h1: Heap, h2: Heap, ptr: u32, p: u32, n: u32)
    requires GoodHeap(h) && Area(ptr, 8) <= h.live && ptr + 4 < TWO32
    requires Kept(h, h1, Area(ptr, 4)) && ReadLE(h1.mem, ptr, 4) == Some(p)
    requires Kept(h1, h2, Area(ptr + 4, 4)) && ReadLE(h2.mem, ptr + 4, 4) == Some(n)
    ensures Kept(h, h2, Area(ptr, 8)) && HeaderWithin(ptr, Area(ptr, 8))
    ensures ReadHeader(h2.mem, ptr) == Some((p, n))
  {
    SmallMod(ptr + 4, TWO32);
    assert Agree(h1.mem, h2.mem, Area(ptr, 4));
    SlicesAgree(h1.mem, h2.mem, Area(ptr, 4), ptr, 4);
  }

  lemma AllocWorks(alloc: Alloc, h: Heap, size: nat, align: nat)
    requires GoodAlloc(alloc) && GoodHeap(h) && size < TWO32 && IsAlign(align)
    ensures var (h1, r) := AllocF(alloc, h, size, align);
            && Kept(h, h1, {})
            && (r.None? ==> h1.starved)
            && (r.Some? ==> h1.live == h.live + Area(r.value, size) && Area(r.value, size) !! h.live
                            && r.value % align == 0)
  {
    assert GoodReply(h, size, align, alloc(h, size, align));
  }

  /** The bytes b, in a block that was not live in h. */
  ghost predicate BytesStored(h: Heap, h2: Heap, b: seq<byte>, p: nat, n: nat) {
    n == |b| && ReadString(h2.mem, p, n) == Some(b) && Area(p, n) <= h2.live - h.live
  }

  lemma LowerBytesWorks(alloc: Alloc, h: Heap, b: seq<byte>)
    requires GoodAlloc(alloc) && GoodHeap(h) && 0 < |b| < TWO32
    ensures var (h2, r) := LowerBytes(alloc, h, b);
            && Kept(h, h2, {})
            && (r.None? ==> h2.starved)
            && (r.Some? ==> BytesStored(h, h2, b, r.value.0, r.value.1))
  {
    SmallMod(|b|, TWO32);
    AllocWorks(alloc, h, |b|, 1);
    var (h1, r1) := AllocF(alloc, h, |b|, 1);
    if r1.Some? {
      PutBytesWorks(h1, r1.value, b);
      var (h2, _) := PutBytes(h1, r1.value, b);
      KeptNew(h, h1, h2, Area(r1.value, |b|));
    }
  }

  /** Writing only to addresses that were not live keeps everything. */
  lemma KeptNew(h: Heap, h1: Heap, h2: Heap, area: set<nat>)
    requires Kept(h, h1, {}) && Kept(h1, h2, area) && area !! h.live
    ensures Kept(h, h2, {})
  {
  }

  lemma KeptTrans(h: Heap, h1: Heap, h2: Heap, a1: set<nat>, a2: set<nat>, area: set<nat>)
    requires Kept(h, h1, a1) && Kept(h1, h2, a2) && a1 <= area && a2 <= area
    ensures Kept(h, h2, area)
  {
  }

  // ---- addresses inside a record and inside a list body ----

  /** No wrap-around: an area of live bytes ends inside 32 bits. */
  ghost predicate InSpace(ptr: nat, size: nat) {
    ptr < TWO32 && (size > 0 ==> ptr + size <= TWO32)
  }

  lemma LiveIsInSpace(h: Heap, ptr: nat, size: nat)
    requires GoodHeap(h) && ptr < TWO32 && Area(ptr, size) <= h.live
    ensures InSpace(ptr, size)
  {
    if size > 0 {
      assert ptr + size - 1 in Area(ptr, size);
    }
  }

  lemma SubArea(ptr: nat, size: nat, off: nat, n: nat)
    requires InSpace(ptr, size) && off + n <= size
    ensures Area(Add32(ptr, off), n) <= Area(ptr + off, n) <= Area(ptr, size)
    ensures InSpace(Add32(ptr, off), n)
  {
  }

  lemma ElemInBlock(e: Ty, p: nat, n: nat, i: nat)
    requires i < n && InSpace(p, Span(e, n))
    ensures Area(ElemAddr(e, p, i), Size(e)) <= Area(p + Span(e, i), Size(e)) <= Area(p, Span(e, n))
    ensures InSpace(ElemAddr(e, p, i), Size(e))
    ensures Stride(e) == Size(e) && Span(e, i + 1) == Span(e, i) + Size(e)
  {
    SizeIsAligned(e);
    TimesMonotone(i + 1, n, Stride(e));
    SubArea(p, Span(e, n), Span(e, i), Size(e));
  }

  // ---- the round trip ----

  /** The main theorem of storing. Whatever the allocator answers, Store changes no live byte outside
      the target; when it returns no error the value was acceptable and loads back; and it returns an
      error only for an unacceptable value or when the allocator runs out. */
  lemma {:induction false} StoreLoads(alloc: Alloc, h: Heap, t: Ty, ptr: nat, v: Val)
    requires GoodAlloc(alloc) && GoodHeap(h) && Built(t) && Sized(t, v)
    requires ptr < TWO32 && Area(ptr, Size(t)) <= h.live
    ensures var (h2, ok) := StoreF(alloc, h, t, ptr, v);
            && Kept(h, h2, Area(ptr, Size(t)))
            && (ok ==> Stored(h, h2, t, ptr, v))
            && (Accepts(t, v) ==> ok || h2.starved)
    decreases t, 0
  {
    hide Kept, Stored, Within, LoadF;
    match t
    case PrimT(p) => StorePrimLoads(alloc, h, p, ptr, v);
    case StringT => StoreStringLoads(alloc, h, ptr, v);
    case EnumT(n) => StoreEnumLoads(alloc, h, n, ptr, v);
    case ListT(e) =>
      LowerListLoads(alloc, h, e, v);
      var (h1, r) := LowerList(alloc, h, e, v);
      if r.Some? {
        HeaderAfterList(h, h1, e, ptr, v, r.value.0, r.value.1);
      } else {
        KeptTrans(h, h, h1, {}, {}, Area(ptr, 8)) by { NothingHappens(h, ptr, 8); }
      }
    case RecordT(fs) =>
      if v.VSlice? && |v.elems| == |fs| {
        StoreFieldsLoads(alloc, h, fs, ptr, v.elems, 0);
        var (h2, ok) := StoreFields(alloc, h, fs, ptr, v.elems, 0);
        NothingHappens(h, ptr, Size(t));
        KeptTrans(h, h, h2, {}, Area(ptr, Size(t)) - Area(ptr, 0), Area(ptr, Size(t)));
        if ok {
          LiveIsInSpace(h, ptr, Size(t));
          RecordStored(h, h2, fs, ptr, v.elems);
        }
      } else {
        NothingHappens(h, ptr, Size(t));
      }
    case VariantT(k, cs) =>
      if Unwrap(k, |cs|, v).Some? {
        StoreVariantLoads(alloc, h, k, cs, ptr, v);
      } else {
        NothingHappens(h, ptr, Size(t));
      }
  }

  lemma NothingHappens(h: Heap, ptr: nat, size: nat)
    requires GoodHeap(h)
    ensures Kept(h, h, {}) && Kept(h, h, Area(ptr, size))
  {
  }

  lemma StorePrimLoads(alloc: Alloc, h: Heap, p: Prim, ptr: u32, v: Val)
    requires GoodHeap(h) && Area(ptr, PrimSize(p)) <= h.live
    ensures var (h2, ok) := StoreF(alloc, h, PrimT(p), ptr, v);
            && Kept(h, h2, Area(ptr, PrimSize(p)))
            && (ok ==> Stored(h, h2, PrimT(p), ptr, v))
            && (Accepts(PrimT(p), v) ==> ok)
  {
    ScalarRoundTrip(p, v);
    if IsScalarOf(p, v) {
      PutWordWorks(h, ptr, LowerPrim(p, v).value, PrimSize(p));
    }
  }

  lemma StoreEnumLoads(alloc: Alloc, h: Heap, n: nat, ptr: u32, v: Val)
    requires GoodHeap(h) && 0 < n < TWO32 && Area(ptr, DiscSize(n)) <= h.live
    ensures var (h2, ok) := StoreF(alloc, h, EnumT(n), ptr, v);
            && Kept(h, h2, Area(ptr, DiscSize(n)))
            && (ok ==> Stored(h, h2, EnumT(n), ptr, v))
            && (Accepts(EnumT(n), v) ==> ok)
  {
    if v.VU32? && v.a32 < n {
      PutDiscWorks(h, ptr, v.a32, n);
    }
  }

  lemma StoreStringLoads(alloc: Alloc, h: Heap, ptr: u32, v: Val)
    requires GoodAlloc(alloc) && GoodHeap(h) && Area(ptr, 8) <= h.live
    ensures var (h2, ok) := StoreF(alloc, h, StringT, ptr, v);
            && Kept(h, h2, Area(ptr, 8))
            && (ok ==> Stored(h, h2, StringT, ptr, v))
            && (Accepts(StringT, v) ==> ok || h2.starved)
  {
    if v.VString? && |v.text| < TWO32 {
      LowerStringLoads(alloc, h, v.text);
      var (h1, r) := LowerString(alloc, h, v.text);
      if r.Some? {
        HeaderAfterString(h, h1, ptr, v, r.value.0, r.value.1);
      }
    }
  }

  /** A string's body, before its header is written. */
  ghost predicate StringStored(h1: Heap, h2: Heap, s: seq<byte>, p: nat, n: nat) {
    LoadString(h2.mem, p, n) == Some(VString(s)) && Area(p, n) <= h2.live - h1.live
  }

  lemma LowerStringLoads(alloc: Alloc, h: Heap, s: seq<byte>)
    requires GoodAlloc(alloc) && GoodHeap(h)
    ensures var (h2, r) := LowerString(alloc, h, s);
            && Kept(h, h2, {})
            && (r.Some? ==> |s| < TWO32 && StringStored(h, h2, s, r.value.0, r.value.1))
            && (|s| < TWO32 ==> r.Some? || h2.starved)
  {
    if 0 < |s| < TWO32 {
      LowerBytesWorks(alloc, h, s);
    }
  }

  lemma HeaderAfterString(h: Heap, h1: Heap, ptr: u32, v: Val, p: u32, n: u32)
    requires GoodHeap(h) && Kept(h, h1, {}) && Area(ptr, 8) <= h.live
    requires v.VString? && |v.text| < TWO32 && StringStored(h, h1, v.text, p, n)
    ensures var (h2, ok) := PutHeader(h1, ptr, p, n);
            ok && Kept(h, h2, Area(ptr, 8)) && Stored(h, h2, StringT, ptr, v)
  {
    hide PutHeader, LE;
    PutHeaderWorks(h1, ptr, p, n);
    var (h2, _) := PutHeader(h1, ptr, p, n);
    BodySurvivesHeader(h, h1, h2, ptr, p, n);
  }

  lemma BodySurvivesHeader(h: Heap, h1: Heap, h2: Heap, ptr: u32, p: nat, n: nat)
    requires Kept(h, h1, {}) && Area(ptr, 8) <= h.live && Area(p, n) <= h1.live - h.live
    requires Kept(h1, h2, Area(ptr, 8))
    ensures ReadString(h1.mem, p, n) == ReadString(h2.mem, p, n)
    ensures Kept(h, h2, Area(ptr, 8))
  {
    assert Agree(h1.mem, h2.mem, Area(p, n));
    StringsAgree(h1.mem, h2.mem, Area(p, n), p, n);
  }

  /** A list's body, before its header is written. */
  ghost predicate ListStored(h1: Heap, h2: Heap, e: Ty, v: Val, p: nat, n: nat) {
    && Accepts(ListT(e), v)
    && LoadList(h2.mem, e, p, n) == Some(Norm(ListT(e), v))
    && ListWithin(h2.mem, e, p, n, h2.live - h1.live)
  }

  lemma HeaderAfterList(h: Heap, h1: Heap, e: Ty, ptr: u32, v: Val, p: u32, n: u32)
    requires GoodHeap(h) && Kept(h, h1, {}) && ListStored(h, h1, e, v, p, n) && Area(ptr, 8) <= h.live
    ensures var (h2, ok) := PutHeader(h1, ptr, p, n);
            ok && Kept(h, h2, Area(ptr, 8)) && Stored(h, h2, ListT(e), ptr, v)
  {
    hide PutHeader;
    PutHeaderWorks(h1, ptr, p, n);
    var (h2, _) := PutHeader(h1, ptr, p, n);
    var s := h1.live - h.live;
    assert Agree(h1.mem, h2.mem, s);
    LoadListIsLocal(h1.mem, h2.mem, e, p, n, s);
    ListWithinMore(h2.mem, e, p, n, s, Area(ptr, 8) + s);
  }

  lemma EmptyListLoads(h: Heap, e: Ty)
    ensures e == PrimT(U8) ==> ListStored(h, h, e, VBytes([]), 0, 0)
    ensures e != PrimT(U8) ==> ListStored(h, h, e, VSlice([]), 0, 0)
  {
    if e != PrimT(U8) {
      ListIs(h.mem, e, 0, []);
      assert Norm(ListT(e), VSlice([])).elems == [];
    }
  }

  lemma {:induction false} LowerListLoads(alloc: Alloc, h: Heap, e: Ty, v: Val)
    requires GoodAlloc(alloc) && GoodHeap(h) && Built(e) && Sized(ListT(e), v)
    ensures var (h2, r) := LowerList(alloc, h, e, v);
            && Kept(h, h2, {})
            && (r.Some? ==> ListStored(h, h2, e, v, r.value.0, r.value.1))
            && (Accepts(ListT(e), v) ==> r.Some? || h2.starved)
    decreases e, 2
  {
    if e == PrimT(U8) {
      if v.VBytes? {
        EmptyListLoads(h, e);
        if |v.bytes| > 0 {
          LowerBytesWorks(alloc, h, v.bytes);
        }
      }
    } else if v.VSlice? {
      if |v.elems| > 0 {
        LowerElemsLoads(alloc, h, e, v);
      } else {
        EmptyListLoads(h, e);
        assert v.elems == [];
      }
    }
  }

  lemma {:induction false} LowerElemsLoads(alloc: Alloc, h: Heap, e: Ty, v: Val)
    requires GoodAlloc(alloc) && GoodHeap(h) && Built(e) && Sized(ListT(e), v)
    requires e != PrimT(U8) && v.VSlice? && |v.elems| > 0
    ensures var (h2, r) := LowerList(alloc, h, e, v);
            && Kept(h, h2, {})
            && (r.Some? ==> ListStored(h, h2, e, v, r.value.0, r.value.1))
            && (Accepts(ListT(e), v) ==> r.Some? || h2.starved)
    decreases e, 1, |v.elems| + 1
  {
    var size := Span(e, |v.elems|);
    SmallMod(size, TWO32);
    SmallMod(|v.elems|, TWO32);
    AllocWorks(alloc, h, size, Align(e));
    var (h1, r1) := AllocF(alloc, h, size, Align(e));
    if r1.Some? {
      var p := r1.value;
      StoreElemsLoads(alloc, h1, e, p, v.elems, 0);
      var (h2, ok) := StoreElems(alloc, h1, e, p, v.elems, 0);
      KeptNew(h, h1, h2, Area(p, size) - Area(p, 0));
      if ok {
        LiveIsInSpace(h1, p, size);
        ElemsStored(h, h1, h2, e, p, v);
      }
    }
  }

  lemma ElemsStored(h: Heap, h1: Heap, h2: Heap, e: Ty, p: u32, v: Val)
    requires e != PrimT(U8) && v.VSlice?
    requires Area(p, Span(e, |v.elems|)) <= h1.live - h.live && h.live <= h1.live <= h2.live
    requires InSpace(p, Span(e, |v.elems|))
    requires forall j :: 0 <= j < |v.elems| ==> Stored(h1, h2, e, ElemAddr(e, p, j), v.elems[j])
    ensures ListStored(h, h2, e, v, p, |v.elems|)
  {
    ListIs(h2.mem, e, p, Norm(ListT(e), v).elems);
    forall j | 0 <= j < |v.elems|
      ensures Within(h2.mem, e, ElemAddr(e, p, j), h2.live - h.live)
    {
      ElemInBlock(e, p, |v.elems|, j);
      var a := ElemAddr(e, p, j);
      WithinMore(h2.mem, e, a, Area(a, Size(e)) + (h2.live - h1.live), h2.live - h.live);
    }
  }

  /** What storing elements i and after, from h to h2, must achieve. */
  ghost predicate ElemsStep(alloc: Alloc, h: Heap, h2: Heap, ok: bool, e: Ty, p: u32, vs: seq<Val>, i: nat)
    requires i <= |vs|
  {
    && Kept(h, h2, Area(p, Span(e, |vs|)) - Area(p, Span(e, i)))
    && (ok ==> forall j :: i <= j < |vs| ==> Stored(h, h2, e, ElemAddr(e, p, j), vs[j]))
    && ((forall j :: i <= j < |vs| ==> Accepts(e, vs[j])) ==> ok || h2.starved)
  }

  lemma {:induction false} StoreElemsLoads(alloc: Alloc, h: Heap, e: Ty, p: u32, vs: seq<Val>, i: nat)
    requires GoodAlloc(alloc) && GoodHeap(h) && Built(e) && i <= |vs|
    requires Area(p, Span(e, |vs|)) <= h.live
    requires forall j :: 0 <= j < |vs| ==> Sized(e, vs[j])
    ensures var (h2, ok) := StoreElems(alloc, h, e, p, vs, i);
            ElemsStep(alloc, h, h2, ok, e, p, vs, i)
    decreases e, 1, |vs| - i
  {
    hide StoreF, Size, Align, Times;
    if i < |vs| {
      LiveIsInSpace(h, p, Span(e, |vs|));
      ElemInBlock(e, p, |vs|, i);
      var a := ElemAddr(e, p, i);
      StoreLoads(alloc, h, e, a, vs[i]);
      var (h1, ok1) := StoreF(alloc, h, e, a, vs[i]);
      ElemKept(h, h1, e, p, |vs|, i);
      if ok1 {
        StoreElemsLoads(alloc, h1, e, p, vs, i + 1);
        var (h2, ok2) := StoreElems(alloc, h1, e, p, vs, i + 1);
        ElemsAfter(alloc, h, h1, h2, ok2, e, p, vs, i);
      }
    }
  }

  lemma ElemKept(h: Heap, h1: Heap, e: Ty, p: u32, n: nat, i: nat)
    requires i < n && InSpace(p, Span(e, n)) && Kept(h, h1, Area(ElemAddr(e, p, i), Size(e)))
    ensures Kept(h, h1, Area(p, Span(e, n)) - Area(p, Span(e, i)))
  {
    ElemInBlock(e, p, n, i);
  }

  /** Element i was stored between h and h1, the later ones between h1 and h2. */
  lemma ElemsAfter(alloc: Alloc, h: Heap, h1: Heap, h2: Heap, ok: bool, e: Ty, p: u32, vs: seq<Val>, i: nat)
    requires i < |vs| && GoodHeap(h) && Area(p, Span(e, |vs|)) <= h.live
    requires Kept(h, h1, Area(p, Span(e, |vs|)) - Area(p, Span(e, i)))
    requires Stored(h, h1, e, ElemAddr(e, p, i), vs[i])
    requires ElemsStep(alloc, h1, h2, ok, e, p, vs, i + 1)
    ensures ElemsStep(alloc, h, h2, ok, e, p, vs, i)
  {
    var rest := Area(p, Span(e, |vs|)) - Area(p, Span(e, i + 1));
    LiveIsInSpace(h, p, Span(e, |vs|));
    ElemInBlock(e, p, |vs|, i);
    if ok {
      forall j | i <= j < |vs|
        ensures Stored(h, h2, e, ElemAddr(e, p, j), vs[j])
      {
        ElemInBlock(e, p, |vs|, j);
        if j == i {
          StoredStays(h, h, h1, h2, e, ElemAddr(e, p, j), vs[j], rest);
        } else {
          StoredStays(h, h1, h2, h2, e, ElemAddr(e, p, j), vs[j], {});
        }
      }
    }
    var area := Area(p, Span(e, |vs|)) - Area(p, Span(e, i));
    KeptTrans(h, h1, h2, area, rest, area);
  }

  /** What storing fields i and after, from h to h2, must achieve. */
  ghost predicate FieldsStep(alloc: Alloc, h: Heap, h2: Heap, ok: bool, fs: seq<Ty>, ptr: u32, vs: seq<Val>, i: nat)
    requires i <= |fs| == |vs|
  {
    && Kept(h, h2, Area(ptr, Size(RecordT(fs))) - Area(ptr, FieldsEnd(fs, i)))
    && (ok ==> forall j :: i <= j < |fs| ==> Stored(h, h2, fs[j], FieldAddr(fs, ptr, j), vs[j]))
    && ((forall j :: i <= j < |fs| ==> Accepts(fs[j], vs[j])) ==> ok || h2.starved)
  }

  lemma {:induction false} StoreFieldsLoads(alloc: Alloc, h: Heap, fs: seq<Ty>, ptr: u32, vs: seq<Val>, i: nat)
    requires GoodAlloc(alloc) && GoodHeap(h) && i <= |fs| == |vs|
    requires Area(ptr, Size(RecordT(fs))) <= h.live
    requires forall j :: 0 <= j < |fs| ==> Built(fs[j]) && Sized(fs[j], vs[j])
    ensures var (h2, ok) := StoreFields(alloc, h, fs, ptr, vs, i);
            FieldsStep(alloc, h, h2, ok, fs, ptr, vs, i)
    decreases fs, 1, |fs| - i
  {
    hide StoreF, Size, FieldsEnd;
    if i < |fs| {
      var a := FieldAddr(fs, ptr, i);
      FieldInside(h, fs, ptr, i);
      StoreLoads(alloc, h, fs[i], a, vs[i]);
      var (h1, ok1) := StoreF(alloc, h, fs[i], a, vs[i]);
      FieldKept(h, h1, fs, ptr, i);
      if ok1 {
        StoreFieldsLoads(alloc, h1, fs, ptr, vs, i + 1);
        var (h2, ok2) := StoreFields(alloc, h1, fs, ptr, vs, i + 1);
        FieldsAfter(alloc, h, h1, h2, ok2, fs, ptr, vs, i);
      }
    }
  }

  /** Field i's bytes: inside the record, after the fields before it and before the ones after. */
  lemma FieldInside(h: Heap, fs: seq<Ty>, ptr: u32, i: nat)
    requires i < |fs| && GoodHeap(h) && Area(ptr, Size(RecordT(fs))) <= h.live
    ensures var area := Area(FieldAddr(fs, ptr, i), Size(fs[i]));
            && area <= Area(ptr, Size(RecordT(fs))) - Area(ptr, FieldsEnd(fs, i))
            && area !! Area(ptr, Size(RecordT(fs))) - Area(ptr, FieldsEnd(fs, i + 1))
    ensures FieldsEnd(fs, i) <= FieldsEnd(fs, i + 1) <= Size(RecordT(fs))
    ensures InSpace(ptr, Size(RecordT(fs)))
  {
    var size := Size(RecordT(fs));
    LiveIsInSpace(h, ptr, size);
    FieldsLaidOut(fs, i, i);
    SubArea(ptr, size, Offset(fs, i), Size(fs[i]));
  }

  lemma FieldKept(h: Heap, h1: Heap, fs: seq<Ty>, ptr: u32, i: nat)
    requires i < |fs| && GoodHeap(h) && Area(ptr, Size(RecordT(fs))) <= h.live
    requires Kept(h, h1, Area(FieldAddr(fs, ptr, i), Size(fs[i])))
    ensures Kept(h, h1, Area(ptr, Size(RecordT(fs))) - Area(ptr, FieldsEnd(fs, i)))
    ensures Area(ptr, Size(RecordT(fs))) <= h1.live
  {
    FieldInside(h, fs, ptr, i);
  }

  /** Field i was stored between h and h1, the later ones between h1 and h2. */
  lemma FieldsAfter(alloc: Alloc, h: Heap, h1: Heap, h2: Heap, ok: bool, fs: seq<Ty>, ptr: u32, vs: seq<Val>, i: nat)
    requires i < |fs| == |vs| && GoodHeap(h) && Area(ptr, Size(RecordT(fs))) <= h.live
    requires Kept(h, h1, Area(ptr, Size(RecordT(fs))) - Area(ptr, FieldsEnd(fs, i)))
    requires Stored(h, h1, fs[i], FieldAddr(fs, ptr, i), vs[i])
    requires FieldsStep(alloc, h1, h2, ok, fs, ptr, vs, i + 1)
    ensures FieldsStep(alloc, h, h2, ok, fs, ptr, vs, i)
  {
    var area := Area(ptr, Size(RecordT(fs))) - Area(ptr, FieldsEnd(fs, i));
    var rest := Area(ptr, Size(RecordT(fs))) - Area(ptr, FieldsEnd(fs, i + 1));
    FieldInside(h, fs, ptr, i);
    if ok {
      forall j | i <= j < |fs|
        ensures Stored(h, h2, fs[j], FieldAddr(fs, ptr, j), vs[j])
      {
        FieldInside(h, fs, ptr, j);
        if j == i {
          StoredStays(h, h, h1, h2, fs[j], FieldAddr(fs, ptr, j), vs[j], rest);
        } else {
          StoredStays(h, h1, h2, h2, fs[j], FieldAddr(fs, ptr, j), vs[j], {});
        }
      }
    }
    KeptTrans(h, h1, h2, area, rest, area);
  }

  lemma RecordStored(h: Heap, h2: Heap, fs: seq<Ty>, ptr: u32, vs: seq<Val>)
    requires |vs| == |fs| && InSpace(ptr, Size(RecordT(fs)))
    requires forall j :: 0 <= j < |fs| ==> Stored(h, h2, fs[j], FieldAddr(fs, ptr, j), vs[j])
    ensures Stored(h, h2, RecordT(fs), ptr, VSlice(vs))
  {
    var size := Size(RecordT(fs));
    RecordIs(h2.mem, fs, ptr, Norm(RecordT(fs), VSlice(vs)).elems);
    forall j | 0 <= j < |fs|
      ensures Within(h2.mem, fs[j], FieldAddr(fs, ptr, j), Area(ptr, size) + (h2.live - h.live))
    {
      FieldsLaidOut(fs, j, j);
      SubArea(ptr, size, Offset(fs, j), Size(fs[j]));
      var a := FieldAddr(fs, ptr, j);
      WithinMore(h2.mem, fs[j], a, Area(a, Size(fs[j])) + (h2.live - h.live), Area(ptr, size) + (h2.live - h.live));
    }
  }

  /** A case's payload, stored between h1 and h2. */
  ghost predicate CaseStored(h1: Heap, h2: Heap, c: Case, ptr: nat, v: Val) {
    && CaseAccepts(c, v)
    && LoadCase(h2.mem, c, ptr) == Some(CaseNorm(c, v))
    && CaseWithin(h2.mem, c, ptr, Area(ptr, CaseSize(c)) + (h2.live - h1.live))
  }

  lemma {:induction false} StoreCaseLoads(alloc: Alloc, h: Heap, c: Case, ptr: nat, v: Val)
    requires GoodAlloc(alloc) && GoodHeap(h) && (c.Payload? ==> Built(c.ty)) && CaseSized(c, v)
    requires ptr < TWO32 && Area(ptr, CaseSize(c)) <= h.live
    ensures var (h2, ok) := StoreCase(alloc, h, c, ptr, v);
            && Kept(h, h2, Area(ptr, CaseSize(c)))
            && (ok ==> CaseStored(h, h2, c, ptr, v))
            && (CaseAccepts(c, v) ==> ok || h2.starved)
    decreases c, 0
  {
    match c
    case NoPayload =>
    case Payload(t) => StoreLoads(alloc, h, t, ptr, v);
  }

  lemma {:induction false} StoreVariantLoads(alloc: Alloc, h: Heap, k: VariantKind, cs: seq<Case>, ptr: u32, v: Val)
    requires GoodAlloc(alloc) && GoodHeap(h) && Built(VariantT(k, cs)) && Sized(VariantT(k, cs), v)
    requires Area(ptr, Size(VariantT(k, cs))) <= h.live
    requires Unwrap(k, |cs|, v).Some?
    ensures var t := VariantT(k, cs);
            var (h2, ok) := StoreVariant(alloc, h, k, cs, ptr, v);
            && Kept(h, h2, Area(ptr, Size(t)))
            && (ok ==> Stored(h, h2, t, ptr, v))
            && (Accepts(t, v) ==> ok || h2.starved)
    decreases cs, 1
  {
    var t := VariantT(k, cs);
    var (d, x) := Unwrap(k, |cs|, v).value;
    LiveIsInSpace(h, ptr, Size(t));
    PayloadFits(k, cs, d);
    SubArea(ptr, Size(t), 0, DiscSize(|cs|));
    SubArea(ptr, Size(t), PayloadOffset(cs), CaseSize(cs[d]));
    PutDiscWorks(h, ptr, d, |cs|);
    var (h1, _) := PutBytes(h, ptr, LE(d, DiscSize(|cs|)));
    StoreCaseLoads(alloc, h1, cs[d], PayloadAddr(cs, ptr), x);
    var (h2, ok) := StoreCase(alloc, h1, cs[d], PayloadAddr(cs, ptr), x);
    if ok {
      PayloadAfterDisc(h, h1, h2, k, cs, ptr, v, d, x);
    }
  }

  lemma PayloadAfterDisc(h: Heap, h1: Heap, h2: Heap, k: VariantKind, cs: seq<Case>, ptr: u32, v: Val, d: u32, x: Val)
    requires Built(VariantT(k, cs)) && GoodHeap(h) && Area(ptr, Size(VariantT(k, cs))) <= h.live
    requires Unwrap(k, |cs|, v) == Some((d, x)) && h1.live == h.live
    requires ReadDisc(h1.mem, ptr, |cs|) == Some(d)
    requires Kept(h1, h2, Area(PayloadAddr(cs, ptr), CaseSize(cs[d])))
    requires CaseStored(h1, h2, cs[d], PayloadAddr(cs, ptr), x)
    ensures Stored(h, h2, VariantT(k, cs), ptr, v)
  {
    var t := VariantT(k, cs);
    var a := PayloadAddr(cs, ptr);
    var s := Area(ptr, Size(t)) + (h2.live - h.live);
    DiscSurvives(h, h1, h2, k, cs, ptr, d);
    CaseWithinMore(h2.mem, cs[d], a, Area(a, CaseSize(cs[d])) + (h2.live - h1.live), s);
    VariantIs(h2.mem, k, cs, ptr, d, CaseNorm(cs[d], x), s);
  }

  lemma DiscSurvives(h: Heap, h1: Heap, h2: Heap, k: VariantKind, cs: seq<Case>, ptr: u32, d: u32)
    requires GoodHeap(h) && Area(ptr, Size(VariantT(k, cs))) <= h.live && h1.live == h.live
    requires d < |cs| && ReadDisc(h1.mem, ptr, |cs|) == Some(d)
    requires Kept(h1, h2, Area(PayloadAddr(cs, ptr), CaseSize(cs[d])))
    ensures ReadDisc(h2.mem, ptr, |cs|) == Some(d)
    ensures Area(ptr, DiscSize(|cs|)) <= Area(ptr, Size(VariantT(k, cs)))
    ensures Area(PayloadAddr(cs, ptr), CaseSize(cs[d])) <= Area(ptr, Size(VariantT(k, cs)))
  {
    VariantAreas(h, k, cs, ptr, d);
    DiscsAgree(h1.mem, h2.mem, Area(ptr, DiscSize(|cs|)), ptr, |cs|);
  }

  lemma VariantAreas(h: Heap, k: VariantKind, cs: seq<Case>, ptr: u32, d: u32)
    requires GoodHeap(h) && Area(ptr, Size(VariantT(k, cs))) <= h.live && d < |cs|
    ensures Area(ptr, DiscSize(|cs|)) <= Area(ptr, Size(VariantT(k, cs)))
    ensures Area(PayloadAddr(cs, ptr), CaseSize(cs[d])) <= Area(ptr, Size(VariantT(k, cs)))
    ensures Area(ptr, DiscSize(|cs|)) !! Area(PayloadAddr(cs, ptr), CaseSize(cs[d]))
  {
    var size := Size(VariantT(k, cs));
    LiveIsInSpace(h, ptr, size);
    PayloadFits(k, cs, d);
    SubArea(ptr, size, 0, DiscSize(|cs|));
    SubArea(ptr, size, PayloadOffset(cs), CaseSize(cs[d]));
  }

  lemma DiscsAgree(m1: seq<byte>, m2: seq<byte>, s: set<nat>, ptr: nat, numCases: nat)
    requires Agree(m1, m2, s) && Area(ptr, DiscSize(numCases)) <= s
    ensures ReadDisc(m1, ptr, numCases) == ReadDisc(m2, ptr, numCases)
  {
    SlicesAgree(m1, m2, s, ptr, DiscSize(numCases));
  }

  /** A variant loads as its discriminant and that case's payload. */
  lemma VariantIs(m: seq<byte>, k: VariantKind, cs: seq<Case>, ptr: nat, d: u32, x: Val, s: set<nat>)
    requires d < |cs| && ReadDisc(m, ptr, |cs|) == Some(d)
    requires LoadCase(m, cs[d], PayloadAddr(cs, ptr)) == Some(x)
    requires Area(ptr, DiscSize(|cs|)) <= s && CaseWithin(m, cs[d], PayloadAddr(cs, ptr), s)
    ensures LoadF(m, VariantT(k, cs), ptr) == Some(Wrap(k, d, x))
    ensures Within(m, VariantT(k, cs), ptr, s)
  {
  }
}
