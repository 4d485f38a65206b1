/** Consequences of the round trip: what Store then Load means for a caller. */
module AbiMeaning {
  import opened Words
  import opened Wrappers
  import opened AbiTypes
  import opened AbiValues
  import opened AbiMemory
  import opened AbiRoundTrip

  /** Store returns no error exactly when the value is acceptable and every allocation got its block; and
      then Load gives the value back exactly when it carries nothing under payload-less cases. */
  lemma StoreThenLoad(alloc: Alloc, h: Heap, t: Ty, ptr: nat, v: Val)
    requires GoodAlloc(alloc) && GoodHeap(h) && !h.starved && Built(t) && Sized(t, v)
    requires ptr < TWO32 && Area(ptr, Size(t)) <= h.live
    ensures var (h2, ok) := StoreF(alloc, h, t, ptr, v);
            && (ok <==> Accepts(t, v) && !h2.starved)
            && (ok ==> (LoadF(h2.mem, t, ptr) == Some(v) <==> HasType(t, v)))
  {
    hide StoreF;
    StoreLoads(alloc, h, t, ptr, v);
    StoreFed(alloc, h, t, ptr, v);
  }

  // ---- Store without an error asked for no block in vain ----

  lemma {:induction false} StoreFed(alloc: Alloc, h: Heap, t: Ty, ptr: nat, v: Val)
    ensures var (h2, ok) := StoreF(alloc, h, t, ptr, v);
            ok ==> h2.starved == h.starved
    decreases t, 0
  {
    hide LowerList, StoreFields, StoreVariant, LE;
    match t
    case PrimT(_) | StringT | EnumT(_) =>
    case ListT(e) => ListFed(alloc, h, e, v);
    case RecordT(fs) =>
      if v.VSlice? && |v.elems| == |fs| {
        FieldsFed(alloc, h, fs, ptr, v.elems, 0);
      }
    case VariantT(k, cs) => VariantFed(alloc, h, k, cs, ptr, v);
  }

  lemma {:induction false} VariantFed(alloc: Alloc, h: Heap, k: VariantKind, cs: seq<Case>, ptr: nat, v: Val)
    ensures var (h2, ok) := StoreVariant(alloc, h, k, cs, ptr, v);
            ok ==> h2.starved == h.starved
    decreases cs, 1
  {
    hide StoreCase, LE;
    if (k != KindVariant ==> |cs| == 2) && Unwrap(k, |cs|, v).Some? {
      var (d, x) := Unwrap(k, |cs|, v).value;
      var (h1, _) := PutBytes(h, ptr, LE(d, DiscSize(|cs|)));
      CaseFed(alloc, h1, cs[d], PayloadAddr(cs, ptr), x);
    }
  }

  lemma {:induction false} CaseFed(alloc: Alloc, h: Heap, c: Case, ptr: nat, v: Val)
    ensures var (h2, ok) := StoreCase(alloc, h, c, ptr, v);
            ok ==> h2.starved == h.starved
    decreases c, 0
  {
    hide StoreF;
    match c
    case NoPayload =>
    case Payload(t) => StoreFed(alloc, h, t, ptr, v);
  }

  lemma {:induction false} FieldsFed(alloc: Alloc, h: Heap, fs: seq<Ty>, ptr: nat, vs: seq<Val>, i: nat)
    requires i <= |fs| == |vs|
    ensures var (h2, ok) := StoreFields(alloc, h, fs, ptr, vs, i);
            ok ==> h2.starved == h.starved
    decreases fs, 1, |fs| - i
  {
    hide StoreF;
    if i < |fs| {
      var a := FieldAddr(fs, ptr, i);
      StoreFed(alloc, h, fs[i], a, vs[i]);
      FieldsFed(alloc, StoreF(alloc, h, fs[i], a, vs[i]).0, fs, ptr, vs, i + 1);
    }
  }

  lemma {:induction false} ListFed(alloc: Alloc, h: Heap, e: Ty, v: Val)
    ensures var (h2, r) := LowerList(alloc, h, e, v);
            r.Some? ==> h2.starved == h.starved
    decreases e, 2
  {
    hide StoreElems;
    if e != PrimT(U8) && v.VSlice? {
      var (h1, r1) := AllocF(alloc, h, Span(e, |v.elems|) % TWO32, Align(e));
      if r1.Some? {
        ElemsFed(alloc, h1, e, r1.value, v.elems, 0);
      }
    }
  }

  lemma {:induction false} ElemsFed(alloc: Alloc, h: Heap, e: Ty, p: nat, vs: seq<Val>, i: nat)
    requires i <= |vs|
    ensures var (h2, ok) := StoreElems(alloc, h, e, p, vs, i);
            ok ==> h2.starved == h.starved
    decreases e, 1, |vs| - i
  {
    hide StoreF;
    if i < |vs| {
      var a := ElemAddr(e, p, i);
      StoreFed(alloc, h, e, a, vs[i]);
      ElemsFed(alloc, StoreF(alloc, h, e, a, vs[i]).0, e, p, vs, i + 1);
    }
  }

  /** Two values stored one after the other at disjoint places both load back, and every other live
      byte is as it was. */
  lemma StoresAreIndependent(alloc: Alloc, h: Heap, t1: Ty, p1: nat, v1: Val, t2: Ty, p2: nat, v2: Val)
    requires GoodAlloc(alloc) && GoodHeap(h)
    requires Built(t1) && Sized(t1, v1) && p1 < TWO32 && Area(p1, Size(t1)) <= h.live
    requires Built(t2) && Sized(t2, v2) && p2 < TWO32 && Area(p2, Size(t2)) <= h.live
    requires Area(p1, Size(t1)) !! Area(p2, Size(t2))
    ensures var (h1, ok1) := StoreF(alloc, h, t1, p1, v1);
            var (h2, ok2) := StoreF(alloc, h1, t2, p2, v2);
            && (ok1 ==> LoadF(h2.mem, t1, p1) == Some(Norm(t1, v1)))
            && (ok2 ==> LoadF(h2.mem, t2, p2) == Some(Norm(t2, v2)))
            && Kept(h, h2, Area(p1, Size(t1)) + Area(p2, Size(t2)))
  {
    hide StoreF, Size, LoadF, Within, Accepts, Norm, Built, Sized;
    StoreLoads(alloc, h, t1, p1, v1);
    var (h1, ok1) := StoreF(alloc, h, t1, p1, v1);
    StoreLoads(alloc, h1, t2, p2, v2);
    var (h2, ok2) := StoreF(alloc, h1, t2, p2, v2);
    if ok1 {
      StoredStays(h, h, h1, h2, t1, p1, v1, Area(p2, Size(t2)));
    }
    KeptTrans(h, h1, h2, Area(p1, Size(t1)), Area(p2, Size(t2)), Area(p1, Size(t1)) + Area(p2, Size(t2)));
  }

  // ---- Load on arbitrary memory ----

  /** Whatever the memory holds, a loaded value has its type: discriminants are below the case count,
      chars are scalar values, lists and strings are shorter than 2^32. */
  lemma {:induction false} LoadedIsTyped(m: seq<byte>, t: Ty, ptr: nat)
    requires Built(t)
    ensures LoadF(m, t, ptr).Some? ==> HasType(t, LoadF(m, t, ptr).value)
    decreases t, 0
  {
    hide LoadList, LoadRecord, LoadVariant;
    match t
    case PrimT(p) =>
      if ReadLE(m, ptr, PrimSize(p)).Some? {
        LiftedScalarIsTyped(p, ReadLE(m, ptr, PrimSize(p)).value);
      }
    case StringT =>
    case EnumT(n) =>
    case ListT(e) =>
      if ReadHeader(m, ptr).Some? {
        var (p, n) := ReadHeader(m, ptr).value;
        LoadedListIsTyped(m, e, p, n);
      }
    case RecordT(fs) => LoadedRecordIsTyped(m, fs, ptr);
    case VariantT(k, cs) => LoadedVariantIsTyped(m, k, cs, ptr);
  }

  lemma {:induction false} LoadedRecordIsTyped(m: seq<byte>, fs: seq<Ty>, ptr: nat)
    requires Built(RecordT(fs))
    ensures LoadRecord(m, fs, ptr).Some? ==> HasType(RecordT(fs), LoadRecord(m, fs, ptr).value)
    decreases fs, 1
  {
    if LoadRecord(m, fs, ptr).Some? {
      var vs := LoadRecord(m, fs, ptr).value.elems;
      forall i | 0 <= i < |fs|
        ensures HasType(fs[i], vs[i])
      {
        LoadedIsTyped(m, fs[i], FieldAddr(fs, ptr, i));
      }
      assert Norm(RecordT(fs), VSlice(vs)).elems == vs;
    }
  }

  lemma {:induction false} LoadedVariantIsTyped(m: seq<byte>, k: VariantKind, cs: seq<Case>, ptr: nat)
    requires Built(VariantT(k, cs))
    ensures LoadVariant(m, k, cs, ptr).Some? ==> HasType(VariantT(k, cs), LoadVariant(m, k, cs, ptr).value)
    decreases cs, 1
  {
    hide ReadDisc, PayloadOffset, LoadCase;
    if ReadDisc(m, ptr, |cs|).Some? {
      var d := ReadDisc(m, ptr, |cs|).value;
      if d < |cs| {
        LoadedCaseIsTyped(m, cs[d], PayloadAddr(cs, ptr));
      }
    }
  }

  lemma {:induction false} LoadedCaseIsTyped(m: seq<byte>, c: Case, ptr: nat)
    requires c.Payload? ==> Built(c.ty)
    ensures LoadCase(m, c, ptr).Some? ==>
              && CaseAccepts(c, LoadCase(m, c, ptr).value)
              && CaseNorm(c, LoadCase(m, c, ptr).value) == LoadCase(m, c, ptr).value
    decreases c, 0
  {
    match c
    case NoPayload =>
    case Payload(t) => LoadedIsTyped(m, t, ptr);
  }

  lemma {:induction false} LoadedListIsTyped(m: seq<byte>, e: Ty, p: nat, n: nat)
    requires Built(e)
    ensures LoadList(m, e, p, n).Some? ==> HasType(ListT(e), LoadList(m, e, p, n).value)
    decreases e, 1
  {
    if e != PrimT(U8) && LoadList(m, e, p, n).Some? {
      var vs := LoadList(m, e, p, n).value.elems;
      forall i | 0 <= i < n
        ensures HasType(e, vs[i])
      {
        LoadedIsTyped(m, e, ElemAddr(e, p, i));
      }
      assert Norm(ListT(e), VSlice(vs)).elems == vs;
    }
  }

  /** Every list element type but the byte fits the room between the end of memory and 2^32. */
  predicate ElemsFit(t: Ty, room: int)
    decreases t
  {
    match t
    case PrimT(_) | StringT | EnumT(_) => true
    case ListT(e) => e == PrimT(U8) || (Size(e) <= room && ElemsFit(e, room))
    case RecordT(fs) => forall i :: 0 <= i < |fs| ==> ElemsFit(fs[i], room)
    case VariantT(_, cs) => forall i :: 0 <= i < |cs| && cs[i].Payload? ==> ElemsFit(cs[i].ty, room)
  }

  /** A type with bytes reads its first one. */
  lemma {:induction false} LoadReadsAtPtr(m: seq<byte>, t: Ty, ptr: nat)
    requires ptr < TWO32 && Size(t) > 0 && LoadF(m, t, ptr).Some?
    ensures ptr < |m|
    decreases t
  {
    hide Size, LoadRecord, LoadVariant, LoadList;
    match t
    case RecordT(fs) =>
      RecordEndsBeyond(fs);
      var i := FirstSized(fs, |fs|);
      FieldLoads(m, fs, ptr, i);
      LoadReadsAtPtr(m, fs[i], FieldAddr(fs, ptr, i));
    case VariantT(k, cs) => VariantReadsAtPtr(m, k, cs, ptr);
    case _ =>
  }

  lemma VariantReadsAtPtr(m: seq<byte>, k: VariantKind, cs: seq<Case>, ptr: nat)
    requires LoadVariant(m, k, cs, ptr).Some?
    ensures ptr < |m|
  {
  }

  lemma RecordEndsBeyond(fs: seq<Ty>)
    ensures Size(RecordT(fs)) > 0 ==> FieldsEnd(fs, |fs|) > 0
  {
    hide FieldsEnd, Align;
    NothingRoundsUp(Align(RecordT(fs)));
  }

  lemma NothingRoundsUp(a: nat)
    requires a > 0
    ensures RoundUp(0, a) == 0
  {
  }

  lemma FieldLoads(m: seq<byte>, fs: seq<Ty>, ptr: nat, i: nat)
    requires i < |fs| && LoadRecord(m, fs, ptr).Some?
    ensures LoadF(m, fs[i], FieldAddr(fs, ptr, i)).Some?
  {
  }

  /** The first field with bytes sits at offset 0. */
  lemma {:induction false} FirstSized(fs: seq<Ty>, n: nat) returns (i: nat)
    requires n <= |fs| && FieldsEnd(fs, n) > 0
    ensures i < n && Size(fs[i]) > 0 && Offset(fs, i) == 0
  {
    if FieldsEnd(fs, n - 1) > 0 {
      i := FirstSized(fs, n - 1);
    } else {
      i := n - 1;
      RoundUpIsLeast(0, Align(fs[i]));
    }
  }

  /** When an element fits above the memory, no element address wraps, so a loaded list is short enough to
      be stored again. */
  lemma {:induction false} ElemsBelowTop(m: seq<byte>, e: Ty, p: u32, n: nat, i: nat)
    requires |m| + Size(e) <= TWO32 && Size(e) > 0 && i < n
    requires forall j :: 0 <= j < n ==> LoadF(m, e, ElemAddr(e, p, j)).Some?
    ensures p + Span(e, i) < |m|
  {
    hide LoadF, Size, Align;
    SizeIsAligned(e);
    if i > 0 {
      ElemsBelowTop(m, e, p, n, i - 1);
    }
    assert LoadF(m, e, ElemAddr(e, p, i)).Some?;
    LoadReadsAtPtr(m, e, ElemAddr(e, p, i));
  }

  lemma {:induction false} LoadedIsSized(m: seq<byte>, t: Ty, ptr: nat)
    requires Built(t) && ElemsFit(t, TWO32 - |m|)
    ensures LoadF(m, t, ptr).Some? ==> Sized(t, LoadF(m, t, ptr).value)
    decreases t, 0
  {
    match t
    case PrimT(p) =>
    case StringT =>
    case EnumT(n) =>
    case ListT(e) =>
      if ReadHeader(m, ptr).Some? {
        var (p, n) := ReadHeader(m, ptr).value;
        LoadedListIsSized(m, e, p, n);
      }
    case RecordT(fs) =>
      if LoadF(m, t, ptr).Some? {
        forall i | 0 <= i < |fs|
          ensures Sized(fs[i], LoadF(m, t, ptr).value.elems[i])
        {
          LoadedIsSized(m, fs[i], FieldAddr(fs, ptr, i));
        }
      }
    case VariantT(k, cs) =>
      if ReadDisc(m, ptr, |cs|).Some? {
        var d := ReadDisc(m, ptr, |cs|).value;
        if d < |cs| {
          LoadedCaseIsSized(m, cs[d], PayloadAddr(cs, ptr));
        }
      }
  }

  lemma {:induction false} LoadedCaseIsSized(m: seq<byte>, c: Case, ptr: nat)
    requires c.Payload? ==> Built(c.ty) && ElemsFit(c.ty, TWO32 - |m|)
    ensures LoadCase(m, c, ptr).Some? ==> CaseSized(c, LoadCase(m, c, ptr).value)
    decreases c, 0
  {
    match c
    case NoPayload =>
    case Payload(t) => LoadedIsSized(m, t, ptr);
  }

  lemma {:induction false} LoadedListIsSized(m: seq<byte>, e: Ty, p: u32, n: u32)
    requires Built(e) && ElemsFit(ListT(e), TWO32 - |m|)
    ensures LoadList(m, e, p, n).Some? ==> Sized(ListT(e), LoadList(m, e, p, n).value)
    decreases e, 1
  {
    if e != PrimT(U8) && LoadList(m, e, p, n).Some? {
      forall i | 0 <= i < n
        ensures Sized(e, LoadList(m, e, p, n).value.elems[i])
      {
        LoadedIsSized(m, e, ElemAddr(e, p, i));
      }
      SizeIsAligned(e);
      if n > 0 && Size(e) > 0 {
        ElemsBelowTop(m, e, p, n, n - 1);
      } else if Size(e) == 0 {
        TimesIsProduct(n, 0);
      }
    }
  }

  lemma WordAddrIs(p: u32, i: nat)
    ensures ElemAddr(PrimT(U64), p, i) == (p + 8 * i) % TWO32
    ensures p % 8 == 0 ==> ElemAddr(PrimT(U64), p, i) + 8 <= TWO32
  {
    TimesIsProduct(i, 8);
    if p % 8 == 0 {
      var k := p / 8 + i;
      DivModUnique(8 * k, TWO32, k / 0x2000_0000, 8 * (k % 0x2000_0000));
    }
  }

  lemma WordInFullMemory(m: seq<byte>, p: u32, i: nat)
    requires |m| == TWO32 && p % 8 == 0
    ensures LoadF(m, PrimT(U64), ElemAddr(PrimT(U64), p, i)).Some?
  {
    hide FromLE;
    WordAddrIs(p, i);
  }

  /** Memory of all 4 GiB can hold a list that loads but has no size in 32 bits: its elements take up 2^32 bytes,
      which are 0 to the code. */
  lemma FullMemoryWraps(m: seq<byte>, ptr: nat, p: u32)
    requires |m| == TWO32 && p % 8 == 0 && ReadHeader(m, ptr) == Some((p, 0x2000_0000))
    ensures var v := LoadF(m, ListT(PrimT(U64)), ptr);
            && v.Some? && !Sized(ListT(PrimT(U64)), v.value)
            && v.value.VSlice? && Span(PrimT(U64), |v.value.elems|) % TWO32 == 0
  {
    var e, n := PrimT(U64), 0x2000_0000;
    forall i | 0 <= i < n
      ensures LoadF(m, e, ElemAddr(e, p, i)).Some?
    {
      WordInFullMemory(m, p, i);
    }
    TimesIsProduct(n, 8);
    assert Span(e, n) == TWO32;
  }

  /** Storing one word. */
  lemma WordStores(alloc: Alloc, h: Heap, a: nat, v: Val)
    requires v.VU64?
    ensures var (h2, ok) := StoreF(alloc, h, PrimT(U64), a, v);
            && (ok <==> a + 8 <= |h.mem|)
            && |h2.mem| == |h.mem| && h2.live == h.live && h2.starved == h.starved
  {
    hide LE;
  }

  /** The element loop succeeds exactly when each word from i on fits. */
  lemma {:induction false} WordsStore(alloc: Alloc, h: Heap, p: u32, vs: seq<Val>, i: nat)
    requires i <= |vs| && forall j :: 0 <= j < |vs| ==> vs[j].VU64?
    ensures var (h2, ok) := StoreElems(alloc, h, PrimT(U64), p, vs, i);
            && (ok <==> forall j :: i <= j < |vs| ==> ElemAddr(PrimT(U64), p, j) + 8 <= |h.mem|)
            && |h2.mem| == |h.mem| && h2.live == h.live && h2.starved == h.starved
    decreases |vs| - i
  {
    hide StoreF, ElemAddr;
    if i < |vs| {
      WordStores(alloc, h, ElemAddr(PrimT(U64), p, i), vs[i]);
      WordsStore(alloc, StoreF(alloc, h, PrimT(U64), ElemAddr(PrimT(U64), p, i), vs[i]).0, p, vs, i + 1);
    }
  }

  /** 2^29 words from an aligned address on reach the end of 4 GiB. */
  lemma WordsFillMemory(p: u32, size: nat)
    requires p % 8 == 0 && size <= TWO32
    ensures (forall j :: 0 <= j < 0x2000_0000 ==> ElemAddr(PrimT(U64), p, j) + 8 <= size) <==> size == TWO32
  {
    hide ElemAddr;
    forall j | 0 <= j < 0x2000_0000
      ensures ElemAddr(PrimT(U64), p, j) + 8 <= TWO32
    {
      WordAddrIs(p, j);
    }
    var last := (TWO32 - 8 - p) / 8;
    WordAddrIs(p, last);
    assert ElemAddr(PrimT(U64), p, last) == TWO32 - 8;
  }

  /** Storing such a list asks for a block of no bytes; when that is granted no element is in memory granted for
      it, and Store succeeds all the same if and only if memory is 4 GiB. */
  lemma FullListStores(alloc: Alloc, h: Heap, ptr: u32, v: Val)
    requires GoodAlloc(alloc) && GoodHeap(h) && !h.starved && ptr % 4 == 0
    requires v.VSlice? && |v.elems| == 0x2000_0000 && forall i :: 0 <= i < |v.elems| ==> v.elems[i].VU64?
    requires alloc(h, 0, 8).Block?
    ensures var (h2, ok) := StoreF(alloc, h, ListT(PrimT(U64)), ptr, v);
            && h2.live == h.live && !h2.starved
            && (ok <==> |alloc(h, 0, 8).mem| == TWO32)
  {
    hide StoreElems, LE, GoodAlloc, ElemAddr;
    TimesIsProduct(0x2000_0000, 8);
    assert Span(PrimT(U64), |v.elems|) == TWO32;
    AllocWorks(alloc, h, 0, 8);
    var (h1, r) := AllocF(alloc, h, 0, 8);
    WordsStore(alloc, h1, r.value, v.elems, 0);
    WordsFillMemory(r.value, |h1.mem|);
  }

  /** On arbitrary memory contents, whatever Load returns can be stored anywhere and loads unchanged, as long
      as its lists have a size: whenever each element type fits above the memory, or it can be seen from the
      lengths. */
  lemma LoadThenStoreThenLoad(alloc: Alloc, m: seq<byte>, p: nat, h: Heap, t: Ty, ptr: nat)
    requires Built(t) && LoadF(m, t, p).Some?
    requires ElemsFit(t, TWO32 - |m|) || Sized(t, LoadF(m, t, p).value)
    requires GoodAlloc(alloc) && GoodHeap(h) && !h.starved
    requires ptr < TWO32 && Area(ptr, Size(t)) <= h.live
    ensures var (h2, ok) := StoreF(alloc, h, t, ptr, LoadF(m, t, p).value);
            && (ok <==> !h2.starved)
            && (ok ==> LoadF(h2.mem, t, ptr) == LoadF(m, t, p))
  {
    hide StoreF, LoadF, ElemsFit, Size, Sized, Built, Accepts, Norm;
    LoadedIsTyped(m, t, p);
    if ElemsFit(t, TWO32 - |m|) {
      LoadedIsSized(m, t, p);
    }
    StoreThenLoad(alloc, h, t, ptr, LoadF(m, t, p).value);
  }
}
