/** The engine over the guest's own allocator, as the code has it: the round trips hold for every value whose
    strings and lists leave room for their alignment in 32 bits. */
module GuestEngine {
  import opened Words
  import opened Wrappers
  import opened AbiTypes
  import opened AbiValues
  import opened AbiMemory
  import opened AbiRoundTrip
  import opened AbiMeaning
  import opened AbiFlat
  import opened AbiCall
  import opened GuestAlloc

  /** Every string and list body in v leaves room for its alignment below 2^32 bytes. */
  predicate Roomy(t: Ty, v: Val)
    decreases t
  {
    match t
    case PrimT(_) | EnumT(_) => true
    case StringT => v.VString? ==> |v.text| + 1 < TWO32
    case ListT(e) =>
      if e == PrimT(U8) then v.VBytes? ==> |v.bytes| + 1 < TWO32
      else v.VSlice? ==>
        && Span(e, |v.elems|) + Align(e) < TWO32
        && forall i :: 0 <= i < |v.elems| ==> Roomy(e, v.elems[i])
    case RecordT(fs) =>
      v.VSlice? && |v.elems| == |fs| ==> forall i :: 0 <= i < |fs| ==> Roomy(fs[i], v.elems[i])
    case VariantT(k, cs) =>
      (k != KindVariant ==> |cs| == 2) && Unwrap(k, |cs|, v).Some? ==>
        var (d, x) := Unwrap(k, |cs|, v).value; CaseRoomy(cs[d], x)
  }

  predicate CaseRoomy(c: Case, v: Val)
    decreases c
  {
    match c
    case NoPayload => true
    case Payload(t) => Roomy(t, v)
  }

  /** The two allocators answer requests that do not wrap around alike. */
  ghost predicate Agrees(a1: Alloc, a2: Alloc) {
    forall h, size: nat, align: nat :: size + align < TWO32 ==> a1(h, size, align) == a2(h, size, align)
  }

  lemma GuardedAgrees(rt: Runtime)
    ensures Agrees(AllocFrom(rt), Guarded(rt))
  {
    hide AllocFrom;
  }

  lemma AllocAgrees(a1: Alloc, a2: Alloc, h: Heap, size: nat, align: nat)
    requires Agrees(a1, a2) && size + align < TWO32
    ensures AllocF(a1, h, size, align) == AllocF(a2, h, size, align)
  {
  }

  // ---- Store ----

  lemma {:induction false} StoreAgrees(a1: Alloc, a2: Alloc, h: Heap, t: Ty, ptr: nat, v: Val)
    requires Agrees(a1, a2) && Roomy(t, v)
    ensures StoreF(a1, h, t, ptr, v) == StoreF(a2, h, t, ptr, v)
    decreases t, 0
  {
    hide Agrees, LowerList, StoreFields, StoreVariant, LowerString, LE, PutHeader;
    match t
    case PrimT(_) | EnumT(_) =>
    case StringT => StringAgrees(a1, a2, h, v);
    case ListT(e) => ListAgrees(a1, a2, h, e, v);
    case RecordT(fs) =>
      if v.VSlice? && |v.elems| == |fs| {
        FieldsAgree(a1, a2, h, fs, ptr, v.elems, 0);
      }
    case VariantT(k, cs) => VariantAgrees(a1, a2, h, k, cs, ptr, v);
  }

  lemma StringAgrees(a1: Alloc, a2: Alloc, h: Heap, v: Val)
    requires Agrees(a1, a2) && Roomy(StringT, v)
    ensures v.VString? ==> LowerString(a1, h, v.text) == LowerString(a2, h, v.text)
  {
    hide Agrees;
    if v.VString? {
      SmallMod(|v.text|, TWO32);
      AllocAgrees(a1, a2, h, |v.text|, 1);
    }
  }

  lemma {:induction false} VariantAgrees(a1: Alloc, a2: Alloc, h: Heap, k: VariantKind, cs: seq<Case>, ptr: nat, v: Val)
    requires Agrees(a1, a2) && Roomy(VariantT(k, cs), v)
    ensures StoreVariant(a1, h, k, cs, ptr, v) == StoreVariant(a2, h, k, cs, ptr, v)
    decreases cs, 1
  {
    hide Agrees, StoreCase, LE;
    if (k != KindVariant ==> |cs| == 2) && Unwrap(k, |cs|, v).Some? {
      var (d, x) := Unwrap(k, |cs|, v).value;
      var (h1, _) := PutBytes(h, ptr, LE(d, DiscSize(|cs|)));
      CaseAgrees(a1, a2, h1, cs[d], PayloadAddr(cs, ptr), x);
    }
  }

  lemma {:induction false} CaseAgrees(a1: Alloc, a2: Alloc, h: Heap, c: Case, ptr: nat, v: Val)
    requires Agrees(a1, a2) && CaseRoomy(c, v)
    ensures StoreCase(a1, h, c, ptr, v) == StoreCase(a2, h, c, ptr, v)
    decreases c, 0
  {
    hide Agrees, StoreF;
    match c
    case NoPayload =>
    case Payload(t) => StoreAgrees(a1, a2, h, t, ptr, v);
  }

  lemma {:induction false} FieldsAgree(a1: Alloc, a2: Alloc, h: Heap, fs: seq<Ty>, ptr: nat, vs: seq<Val>, i: nat)
    requires Agrees(a1, a2) && i <= |fs| == |vs| && forall j :: 0 <= j < |fs| ==> Roomy(fs[j], vs[j])
    ensures StoreFields(a1, h, fs, ptr, vs, i) == StoreFields(a2, h, fs, ptr, vs, i)
    decreases fs, 1, |fs| - i
  {
    hide Agrees, StoreF;
    if i < |fs| {
      var a := FieldAddr(fs, ptr, i);
      StoreAgrees(a1, a2, h, fs[i], a, vs[i]);
      FieldsAgree(a1, a2, StoreF(a2, h, fs[i], a, vs[i]).0, fs, ptr, vs, i + 1);
    }
  }

  lemma {:induction false} ListAgrees(a1: Alloc, a2: Alloc, h: Heap, e: Ty, v: Val)
    requires Agrees(a1, a2) && Roomy(ListT(e), v)
    ensures LowerList(a1, h, e, v) == LowerList(a2, h, e, v)
    decreases e, 2
  {
    hide Agrees, StoreElems;
    if e == PrimT(U8) {
      if v.VBytes? {
        SmallMod(|v.bytes|, TWO32);
        AllocAgrees(a1, a2, h, |v.bytes|, 1);
      }
    } else if v.VSlice? {
      var size := Span(e, |v.elems|);
      SmallMod(size, TWO32);
      AllocAgrees(a1, a2, h, size, Align(e));
      var (h1, r1) := AllocF(a2, h, size, Align(e));
      if r1.Some? {
        ElemsAgree(a1, a2, h1, e, r1.value, v.elems, 0);
      }
    }
  }

  lemma {:induction false} ElemsAgree(a1: Alloc, a2: Alloc, h: Heap, e: Ty, p: nat, vs: seq<Val>, i: nat)
    requires Agrees(a1, a2) && i <= |vs| && forall j :: 0 <= j < |vs| ==> Roomy(e, vs[j])
    ensures StoreElems(a1, h, e, p, vs, i) == StoreElems(a2, h, e, p, vs, i)
    decreases e, 1, |vs| - i
  {
    hide Agrees, StoreF;
    if i < |vs| {
      var a := ElemAddr(e, p, i);
      StoreAgrees(a1, a2, h, e, a, vs[i]);
      ElemsAgree(a1, a2, StoreF(a2, h, e, a, vs[i]).0, e, p, vs, i + 1);
    }
  }

  // ---- lowering ----

  lemma {:induction false} LowerAgrees(a1: Alloc, a2: Alloc, h: Heap, t: Ty, v: Val)
    requires Agrees(a1, a2) && Roomy(t, v)
    ensures LowerF(a1, h, t, v) == LowerF(a2, h, t, v)
    decreases t, 0
  {
    hide Agrees, LowerList, LowerFields, LowerVariant, LowerString;
    match t
    case PrimT(_) | EnumT(_) =>
    case StringT => StringAgrees(a1, a2, h, v);
    case ListT(e) => ListAgrees(a1, a2, h, e, v);
    case RecordT(fs) =>
      if v.VSlice? && |v.elems| == |fs| {
        LowerFieldsAgree(a1, a2, h, fs, v.elems, 0);
      }
    case VariantT(k, cs) => LowerVariantAgrees(a1, a2, h, k, cs, v);
  }

  lemma {:induction false} LowerFieldsAgree(a1: Alloc, a2: Alloc, h: Heap, fs: seq<Ty>, vs: seq<Val>, i: nat)
    requires Agrees(a1, a2) && i <= |fs| == |vs| && forall j :: 0 <= j < |fs| ==> Roomy(fs[j], vs[j])
    ensures LowerFields(a1, h, fs, vs, i) == LowerFields(a2, h, fs, vs, i)
    decreases fs, 1, |fs| - i
  {
    hide Agrees, LowerF;
    if i < |fs| {
      LowerAgrees(a1, a2, h, fs[i], vs[i]);
      LowerFieldsAgree(a1, a2, LowerF(a2, h, fs[i], vs[i]).0, fs, vs, i + 1);
    }
  }

  lemma {:induction false} LowerVariantAgrees(a1: Alloc, a2: Alloc, h: Heap, k: VariantKind, cs: seq<Case>, v: Val)
    requires Agrees(a1, a2) && Roomy(VariantT(k, cs), v)
    ensures LowerVariant(a1, h, k, cs, v) == LowerVariant(a2, h, k, cs, v)
    decreases cs, 1
  {
    hide Agrees, LowerCase;
    if (k != KindVariant ==> |cs| == 2) && Unwrap(k, |cs|, v).Some? {
      var (d, x) := Unwrap(k, |cs|, v).value;
      LowerCaseAgrees(a1, a2, h, cs[d], x);
    }
  }

  lemma {:induction false} LowerCaseAgrees(a1: Alloc, a2: Alloc, h: Heap, c: Case, v: Val)
    requires Agrees(a1, a2) && CaseRoomy(c, v)
    ensures LowerCase(a1, h, c, v) == LowerCase(a2, h, c, v)
    decreases c, 0
  {
    hide Agrees, LowerF;
    match c
    case NoPayload =>
    case Payload(t) => LowerAgrees(a1, a2, h, t, v);
  }

  // ---- the round trips on the guest's allocator ----

  /** Store through cabi_realloc, then Load. */
  lemma StoreOnGuest(rt: Runtime, h: Heap, t: Ty, ptr: nat, v: Val)
    requires GoodRuntime(rt) && GoodHeap(h) && !h.starved && Built(t) && Sized(t, v) && Roomy(t, v)
    requires ptr < TWO32 && Area(ptr, Size(t)) <= h.live
    ensures var (h2, ok) := StoreF(AllocFrom(rt), h, t, ptr, v);
            && Kept(h, h2, Area(ptr, Size(t)))
            && (ok <==> Accepts(t, v) && !h2.starved)
            && (ok ==> (LoadF(h2.mem, t, ptr) == Some(v) <==> HasType(t, v)))
  {
    hide AllocFrom, Guarded, StoreF, GoodRuntime, Roomy, Agrees, Size;
    GuardedAgrees(rt);
    StoreAgrees(AllocFrom(rt), Guarded(rt), h, t, ptr, v);
    GuardedMeetsContract(rt);
    StoreLoads(Guarded(rt), h, t, ptr, v);
    StoreThenLoad(Guarded(rt), h, t, ptr, v);
  }

  /** Lower through cabi_realloc, then lift. */
  lemma LowerOnGuest(rt: Runtime, h: Heap, t: Ty, v: Val)
    requires GoodRuntime(rt) && GoodHeap(h) && Built(t) && Sized(t, v) && Roomy(t, v)
    ensures var (h2, r) := LowerF(AllocFrom(rt), h, t, v);
            && Kept(h, h2, {})
            && (r.Some? ==> Lowered(h, h2, t, v, r.value))
            && (Accepts(t, v) ==> r.Some? || h2.starved)
  {
    hide AllocFrom, Guarded, LowerF, GoodRuntime, Roomy, Agrees;
    GuardedAgrees(rt);
    LowerAgrees(AllocFrom(rt), Guarded(rt), h, t, v);
    GuardedMeetsContract(rt);
    LowerLifts(Guarded(rt), h, t, v);
  }

  // ---- whole calls ----

  /** Every argument leaves room for the alignments in it, and the record of spilled ones for its own. */
  predicate RoomyArgs(ft: FuncType, args: seq<Val>) {
    && Roomy(RecordT(ft.params), VSlice(args))
    && (ParamsSpilled(ft) ==> Size(RecordT(ft.params)) + Align(RecordT(ft.params)) < TWO32)
  }

  /** So does the result, and the return area of an indirect one. */
  predicate RoomyResult(ft: FuncType, v: Val) {
    ft.result.Some? ==>
      && Roomy(ft.result.value, v)
      && (ResultIndirect(ft) ==> Size(ft.result.value) + Align(ft.result.value) < TWO32)
  }

  lemma LowerArgsAgree(a1: Alloc, a2: Alloc, h: Heap, ft: FuncType, args: seq<Val>)
    requires Agrees(a1, a2) && RoomyArgs(ft, args)
    ensures LowerArgs(a1, h, ft, args) == LowerArgs(a2, h, ft, args)
  {
    hide Agrees, StoreF, LowerFields, Size, Align;
    if |args| == |ft.params| {
      if ParamsSpilled(ft) {
        var rec := RecordT(ft.params);
        AllocAgrees(a1, a2, h, Size(rec), Align(rec));
        var (h1, p) := AllocF(a2, h, Size(rec), Align(rec));
        if p.Some? {
          StoreAgrees(a1, a2, h1, rec, p.value, VSlice(args));
        }
      } else {
        LowerFieldsAgree(a1, a2, h, ft.params, args, 0);
      }
    }
  }

  lemma LowerResultAgrees(a1: Alloc, a2: Alloc, h: Heap, ft: FuncType, stack: seq<u64>, v: Val)
    requires Agrees(a1, a2) && RoomyResult(ft, v)
    requires |HostSig(ft).0| <= |stack| && |HostSig(ft).1| <= |stack|
    ensures LowerResult(a1, h, ft, stack, v) == LowerResult(a2, h, ft, stack, v)
  {
    hide Agrees, StoreF, LowerF, Roomy, Size, Align;
    if ResultIndirect(ft) {
      StoreAgrees(a1, a2, h, ft.result.value, stack[|HostSig(ft).0| - 1] % TWO32, v);
    } else if |FlatResults(ft)| > 0 {
      LowerAgrees(a1, a2, h, ft.result.value, v);
    }
  }

  /** A forwarding guest that is given arguments lifting to `got`, for which the implementation has v. */
  lemma ForwardAgrees(a1: Alloc, a2: Alloc, h: Heap, h1: Heap, ft: FuncType, impl: HostImpl, core: seq<u64>,
                      got: seq<Val>, v: Val)
    requires Agrees(a1, a2) && GoodAlloc(a2) && Delivers(h, h1, ft, core, got)
    requires impl(got) == Some(v) && RoomyResult(ft, v)
    ensures Forward(a1, h1, ft, impl, core) == Forward(a2, h1, ft, impl, core)
  {
    hide Agrees, GoodAlloc, LiftArgs, LowerResult, HostCall, Finish, Roomy, Size, Align;
    if ResultIndirect(ft) {
      IndirectForwardAgrees(a1, a2, h, h1, ft, impl, core, got, v);
    } else {
      var stack := if |core| == 0 then [0] else core;
      NothingHappens(h1, 0, 0);
      ReachesImpl(h, h1, h1, ft, core, stack, got);
      HostCallIs(a1, h1, ft, impl, stack, got);
      HostCallIs(a2, h1, ft, impl, stack, got);
      LowerResultAgrees(a1, a2, h1, ft, stack, v);
    }
  }

  lemma IndirectForwardAgrees(a1: Alloc, a2: Alloc, h: Heap, h1: Heap, ft: FuncType, impl: HostImpl, core: seq<u64>,
                              got: seq<Val>, v: Val)
    requires Agrees(a1, a2) && GoodAlloc(a2) && Delivers(h, h1, ft, core, got)
    requires impl(got) == Some(v) && RoomyResult(ft, v) && ResultIndirect(ft)
    ensures Forward(a1, h1, ft, impl, core) == Forward(a2, h1, ft, impl, core)
  {
    hide Agrees, GoodAlloc, LiftArgs, LowerResult, HostCall, Finish, Forward, Roomy, Size, Align;
    var t := ft.result.value;
    AllocAgrees(a1, a2, h1, Size(t), Align(t));
    AllocWorks(a2, h1, Size(t), Align(t));
    var (h2, ret) := AllocF(a2, h1, Size(t), Align(t));
    ForwardIs(a1, h1, ft, impl, core);
    ForwardIs(a2, h1, ft, impl, core);
    if ret.Some? {
      var stack := core + [ret.value];
      ReachesImpl(h, h1, h2, ft, core, stack, got);
      HostCallIs(a1, h2, ft, impl, stack, got);
      HostCallIs(a2, h2, ft, impl, stack, got);
      LowerResultAgrees(a1, a2, h2, ft, stack, v);
    }
  }

  /** A whole call through a forwarding guest. */
  lemma ForwardedAgrees(a1: Alloc, a2: Alloc, h: Heap, ft: FuncType, args: seq<Val>, impl: HostImpl, v: Val,
                        post: Option<PostReturn>)
    requires Agrees(a1, a2) && GoodAlloc(a2) && GoodHeap(h)
    requires BuiltParams(ft) && SizedArgs(ft, args) && AcceptsArgs(ft, args) && RoomyArgs(ft, args)
    requires impl(NormFrom(ft.params, args, 0)) == Some(v) && RoomyResult(ft, v)
    ensures CallExport(a1, h, ft, args, Forwarding(a1, ft, impl), post) ==
            CallExport(a2, h, ft, args, Forwarding(a2, ft, impl), post)
  {
    hide Agrees, GoodAlloc, LowerArgs, Forward, LiftResult, Roomy, RoomyArgs, RoomyResult, ArgsLowered, Delivers;
    LowerArgsAgree(a1, a2, h, ft, args);
    ArgsRoundTrip(a2, h, ft, args);
    var (h1, r) := LowerArgs(a2, h, ft, args);
    if r.Some? {
      ArgsDelivered(h, h1, ft, args, r.value);
      ForwardAgrees(a1, a2, h, h1, ft, impl, r.value, NormFrom(ft.params, args, 0), v);
    }
  }

  /** Arguments lowered through cabi_realloc lift on the host's side. */
  lemma ArgsOnGuest(rt: Runtime, h: Heap, ft: FuncType, args: seq<Val>)
    requires GoodRuntime(rt) && GoodHeap(h) && BuiltParams(ft) && SizedArgs(ft, args) && RoomyArgs(ft, args)
    ensures var (h2, r) := LowerArgs(AllocFrom(rt), h, ft, args);
            && Kept(h, h2, {})
            && (r.Some? ==> ArgsLowered(h, h2, ft, args, r.value))
            && (AcceptsArgs(ft, args) ==> r.Some? || h2.starved)
  {
    hide AllocFrom, Guarded, LowerArgs, GoodRuntime, RoomyArgs, Agrees, ArgsLowered;
    GuardedAgrees(rt);
    LowerArgsAgree(AllocFrom(rt), Guarded(rt), h, ft, args);
    GuardedMeetsContract(rt);
    ArgsRoundTrip(Guarded(rt), h, ft, args);
  }

  /** A result lowered through cabi_realloc lifts on the caller's side. */
  lemma ResultOnGuest(rt: Runtime, h: Heap, ft: FuncType, stack: seq<u64>, v: Val)
    requires GoodRuntime(rt) && GoodHeap(h) && ft.result.Some? && Built(ft.result.value) && Sized(ft.result.value, v)
    requires RoomyResult(ft, v) && |HostSig(ft).0| <= |stack| && |HostSig(ft).1| <= |stack|
    requires ResultIndirect(ft) ==> Area(stack[|HostSig(ft).0| - 1] % TWO32, Size(ft.result.value)) <= h.live
    ensures var (h2, r) := LowerResult(AllocFrom(rt), h, ft, stack, v);
            && (Accepts(ft.result.value, v) ==> r.Some? || h2.starved)
            && (r.Some? ==> |r.value| == |stack| && ResultReady(h2.mem, ft, r.value, v))
  {
    hide AllocFrom, Guarded, LowerResult, GoodRuntime, RoomyResult, Agrees, ResultReady;
    GuardedAgrees(rt);
    LowerResultAgrees(AllocFrom(rt), Guarded(rt), h, ft, stack, v);
    GuardedMeetsContract(rt);
    ResultRoundTrip(Guarded(rt), h, ft, stack, v);
  }

  /** A whole call, end to end, every block in it from cabi_realloc. */
  lemma ForwardedOnGuest(rt: Runtime, h: Heap, ft: FuncType, args: seq<Val>, impl: HostImpl, v: Val,
                         post: Option<PostReturn>)
    requires GoodRuntime(rt) && GoodHeap(h)
    requires BuiltParams(ft) && SizedArgs(ft, args) && AcceptsArgs(ft, args) && RoomyArgs(ft, args)
    requires impl(NormFrom(ft.params, args, 0)) == Some(v) && ResultFits(ft, v) && RoomyResult(ft, v)
    ensures var guest := Forwarding(AllocFrom(rt), ft, impl);
            var (h2, r) := CallExport(AllocFrom(rt), h, ft, args, guest, None);
            var out := CallExport(AllocFrom(rt), h, ft, args, guest, post).1;
            && (!h2.starved || r.Some? ==> r == CallerSees(ft, v))
            && (out.Some? ==> out == r)
            && (r.Some? && out.None? ==> post.Some? && ResultIndirect(ft) && exists w :: !post.value(h2, w).1)
  {
    hide AllocFrom, Guarded, CallExport, Forwarding, GoodRuntime, Agrees, RoomyArgs, RoomyResult, ResultFits;
    GuardedAgrees(rt);
    GuardedMeetsContract(rt);
    ForwardedAgrees(AllocFrom(rt), Guarded(rt), h, ft, args, impl, v, None);
    ForwardedAgrees(AllocFrom(rt), Guarded(rt), h, ft, args, impl, v, post);
    ForwardedCall(Guarded(rt), h, ft, args, impl, v, post);
  }
}
