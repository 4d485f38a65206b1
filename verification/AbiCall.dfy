/** The calling convention: flat or spilled parameters, direct or indirect results, on both sides. */
module AbiCall {
  import opened Words
  import opened Wrappers
  import opened AbiTypes
  import opened AbiValues
  import opened AbiMemory
  import opened AbiRoundTrip
  import opened AbiFlat

  const MAX_FLAT_PARAMS: nat := 16
  const MAX_FLAT_RESULTS: nat := 1

  datatype FuncType = FuncType(params: seq<Ty>, result: Option<Ty>)

  function FlatParams(ft: FuncType): seq<CoreType> {
    FieldsFlat(ft.params, |ft.params|)
  }

  function FlatResults(ft: FuncType): seq<CoreType> {
    match ft.result
    case None => []
    case Some(t) => Flat(t)
  }

  predicate ParamsSpilled(ft: FuncType) {
    |FlatParams(ft)| > MAX_FLAT_PARAMS
  }

  predicate ResultIndirect(ft: FuncType) {
    |FlatResults(ft)| > MAX_FLAT_RESULTS
  }

  /** The core parameters that carry the arguments, on either side. */
  function ArgSig(ft: FuncType): seq<CoreType> {
    if ParamsSpilled(ft) then [I32] else FlatParams(ft)
  }

  /** The signature of a guest export: an indirect result is a returned pointer. */
  function ExportSig(ft: FuncType): (seq<CoreType>, seq<CoreType>) {
    (ArgSig(ft), if ResultIndirect(ft) then [I32] else FlatResults(ft))
  }

  /** The signature of a host import: an indirect result is a trailing pointer parameter. */
  function HostSig(ft: FuncType): (seq<CoreType>, seq<CoreType>) {
    if ResultIndirect(ft) then (ArgSig(ft) + [I32], []) else (ArgSig(ft), FlatResults(ft))
  }

  // ---- arguments ----

  /** CallExport's core arguments. */
  function LowerArgs(alloc: Alloc, h: Heap, ft: FuncType, args: seq<Val>): (Heap, Option<seq<u64>>) {
    if |args| != |ft.params| then (h, None)
    else if ParamsSpilled(ft) then
      var rec := RecordT(ft.params);
      match AllocF(alloc, h, Size(rec), Align(rec))
      case (h1, None) => (h1, None)
      case (h1, Some(ptr)) =>
        var (h2, ok) := StoreF(alloc, h1, rec, ptr, VSlice(args));
        (h2, if ok then Some([ptr]) else None)
    else LowerFields(alloc, h, ft.params, args, 0)
  }

  /** The host function's arguments, from its core stack. */
  function LiftArgs(m: seq<byte>, ft: FuncType, stack: seq<u64>): Option<seq<Val>>
    requires |ArgSig(ft)| <= |stack|
  {
    if ParamsSpilled(ft) then
      match LoadF(m, RecordT(ft.params), stack[0] % TWO32)
      case Some(v) => (match v case VSlice(vs) => Some(vs) case _ => None)
      case None => None
    else
      match LiftFields(m, ft.params, stack[..|FlatParams(ft)|], 0, 0)
      case Some((vs, _)) => Some(vs)
      case None => None
  }

  ghost predicate BuiltParams(ft: FuncType) {
    Built(RecordT(ft.params))
  }

  ghost predicate AcceptsArgs(ft: FuncType, args: seq<Val>) {
    |args| == |ft.params| && forall i :: 0 <= i < |args| ==> Accepts(ft.params[i], args[i])
  }

  ghost predicate SizedArgs(ft: FuncType, args: seq<Val>) {
    |args| == |ft.params| ==> forall i :: 0 <= i < |args| ==> Sized(ft.params[i], args[i])
  }

  /** The core arguments match the signature, and a stack that starts with them lifts to the arguments,
      on either side of the parameter limit. */
  ghost predicate ArgsLowered(h1: Heap, h2: Heap, ft: FuncType, args: seq<Val>, core: seq<u64>) {
    && AcceptsArgs(ft, args)
    && Fits(core, ArgSig(ft))
    && forall m, stack :: Agree(h2.mem, m, h2.live - h1.live) && core <= stack ==>
         LiftArgs(m, ft, stack) == Some(NormFrom(ft.params, args, 0))
  }

  lemma ArgsRoundTrip(alloc: Alloc, h: Heap, ft: FuncType, args: seq<Val>)
    requires GoodAlloc(alloc) && GoodHeap(h) && BuiltParams(ft) && SizedArgs(ft, args)
    ensures var (h2, r) := LowerArgs(alloc, h, ft, args);
            && Kept(h, h2, {})
            && (r.Some? ==> ArgsLowered(h, h2, ft, args, r.value))
            && (AcceptsArgs(ft, args) ==> r.Some? || h2.starved)
  {
    if |args| == |ft.params| {
      if ParamsSpilled(ft) {
        SpilledRoundTrip(alloc, h, ft, args);
      } else {
        LowerFieldsLifts(alloc, h, ft.params, args, 0);
        var (h2, r) := LowerFields(alloc, h, ft.params, args, 0);
        if r.Some? {
          FlatArgsLift(h, h2, ft, args, r.value);
        }
      }
    }
  }

  lemma FlatArgsLift(h: Heap, h2: Heap, ft: FuncType, args: seq<Val>, core: seq<u64>)
    requires !ParamsSpilled(ft) && |args| == |ft.params| && GoodHeap(h2)
    requires FieldsLowered(h, h2, ft.params, args, 0, core)
    ensures ArgsLowered(h, h2, ft, args, core)
  {
    FlatFromAll(ft.params);
    var added := h2.live - h.live;
    forall m, stack | Agree(h2.mem, m, added) && core <= stack
      ensures LiftArgs(m, ft, stack) == Some(NormFrom(ft.params, args, 0))
    {
      assert stack[..|core|] == core;
      assert SameWords(core, 0, stack[..|core|], 0, |core|);
      LiftFieldsIsLocal(h2.mem, m, ft.params, core, 0, core, 0, 0, added, added);
    }
  }

  lemma SpilledRoundTrip(alloc: Alloc, h: Heap, ft: FuncType, args: seq<Val>)
    requires GoodAlloc(alloc) && GoodHeap(h) && BuiltParams(ft) && SizedArgs(ft, args)
    requires |args| == |ft.params| && ParamsSpilled(ft)
    ensures var (h2, r) := LowerArgs(alloc, h, ft, args);
            && Kept(h, h2, {})
            && (r.Some? ==> ArgsLowered(h, h2, ft, args, r.value))
            && (AcceptsArgs(ft, args) ==> r.Some? || h2.starved)
  {
    hide StoreF, Size, Align;
    var rec := RecordT(ft.params);
    SmallMod(Size(rec), TWO32) by { assert Built(rec); }
    AllocWorks(alloc, h, Size(rec), Align(rec));
    var (h1, p) := AllocF(alloc, h, Size(rec), Align(rec));
    if p.Some? {
      StoreLoads(alloc, h1, rec, p.value, VSlice(args));
      var (h2, ok) := StoreF(alloc, h1, rec, p.value, VSlice(args));
      KeptNew(h, h1, h2, Area(p.value, Size(rec)));
      if ok {
        SpilledArgsLift(h, h1, h2, ft, args, p.value);
      }
    }
  }

  lemma SpilledArgsLift(h: Heap, h1: Heap, h2: Heap, ft: FuncType, args: seq<Val>, ptr: u32)
    requires |args| == |ft.params| && ParamsSpilled(ft) && GoodHeap(h2)
    requires h.live <= h1.live <= h2.live && Area(ptr, Size(RecordT(ft.params))) <= h1.live - h.live
    requires Stored(h1, h2, RecordT(ft.params), ptr, VSlice(args))
    ensures ArgsLowered(h, h2, ft, args, [ptr])
  {
    hide Within, Size, LoadRecord;
    var rec := RecordT(ft.params);
    var added := h2.live - h.live;
    WithinMore(h2.mem, rec, ptr, Area(ptr, Size(rec)) + (h2.live - h1.live), added);
    assert Norm(rec, VSlice(args)).elems == NormFrom(ft.params, args, 0);
    var core: seq<u64> := [ptr];
    assert AcceptsArgs(ft, args);
    assert Fits(core, ArgSig(ft));
    forall m, stack | Agree(h2.mem, m, added) && core <= stack
      ensures LiftArgs(m, ft, stack) == Some(NormFrom(ft.params, args, 0))
    {
      assert stack[0] == core[0];
      LoadIsLocal(h2.mem, m, rec, ptr, added);
    }
  }

  // ---- results ----

  /** What the host glue does with a result: nothing, overwrite stack[0], or store at the return pointer. */
  function LowerResult(alloc: Alloc, h: Heap, ft: FuncType, stack: seq<u64>, v: Val): (Heap, Option<seq<u64>>)
    requires |HostSig(ft).0| <= |stack| && |HostSig(ft).1| <= |stack|
  {
    if |FlatResults(ft)| == 0 then (h, Some(stack))
    else if !ResultIndirect(ft) then
      match LowerF(alloc, h, ft.result.value, v)
      case (h1, None) => (h1, None)
      case (h1, Some(flat)) => (h1, if |flat| > 0 then Some(stack[0 := flat[0]]) else None)
    else
      var (h1, ok) := StoreF(alloc, h, ft.result.value, stack[|HostSig(ft).0| - 1] % TWO32, v);
      (h1, if ok then Some(stack) else None)
  }

  /** What CallExport makes of the core results of an export. */
  function LiftResult(m: seq<byte>, ft: FuncType, res: seq<u64>): Option<Val> {
    match ft.result
    case None => Some(Nil)
    case Some(t) =>
      if |res| != 1 then None
      else if ResultIndirect(ft) then LoadF(m, t, res[0] % TWO32)
      else
        match LiftF(m, t, res, 0)
        case Some((v, _)) => Some(v)
        case None => None
  }

  /** The return pointer is the last core parameter, right after the words the arguments use: whatever
      it is, the arguments lift the same. */
  lemma ReturnPointerIsLast(ft: FuncType, m: seq<byte>, stack: seq<u64>, w: u64)
    requires ResultIndirect(ft) && |stack| == |HostSig(ft).0|
    ensures HostSig(ft).0 == ExportSig(ft).0 + [I32] && HostSig(ft).1 == []
    ensures |HostSig(ft).0| - 1 == |ArgSig(ft)|
    ensures LiftArgs(m, ft, stack) == LiftArgs(m, ft, stack[|stack| - 1 := w])
  {
    var n := |ArgSig(ft)|;
    assert stack[..n] == stack[|stack| - 1 := w][..n];
    if ParamsSpilled(ft) {
      assert stack[0] == stack[..n][0];
    }
  }

  /** Where the caller of an export finds the result that the host glue lowered. */
  function ResultWords(ft: FuncType, stack: seq<u64>): seq<u64>
    requires |HostSig(ft).0| <= |stack| && |HostSig(ft).1| <= |stack|
  {
    if |FlatResults(ft)| == 0 then []
    else if ResultIndirect(ft) then [stack[|HostSig(ft).0| - 1] % TWO32]
    else [stack[0]]
  }

  /** What a result must look like to the caller once the host glue lowered it. */
  ghost predicate ResultReady(m: seq<byte>, ft: FuncType, stack: seq<u64>, v: Val)
    requires ft.result.Some?
  {
    && |HostSig(ft).0| <= |stack| && |HostSig(ft).1| <= |stack|
    && Fits(ResultWords(ft, stack), ExportSig(ft).1)
    && LiftResult(m, ft, ResultWords(ft, stack)) ==
       if |FlatResults(ft)| == 0 then None else Some(Norm(ft.result.value, v))
  }

  /** A lowered result lifts back on the other side, direct or through the return area; a result of
      zero flat width never does. */
  lemma ResultRoundTrip(alloc: Alloc, h: Heap, ft: FuncType, stack: seq<u64>, v: Val)
    requires GoodAlloc(alloc) && GoodHeap(h) && ft.result.Some? && Built(ft.result.value) && Sized(ft.result.value, v)
    requires |HostSig(ft).0| <= |stack| && |HostSig(ft).1| <= |stack|
    requires ResultIndirect(ft) ==> Area(stack[|HostSig(ft).0| - 1] % TWO32, Size(ft.result.value)) <= h.live
    ensures var (h2, r) := LowerResult(alloc, h, ft, stack, v);
            && (Accepts(ft.result.value, v) ==> r.Some? || h2.starved)
            && (r.Some? ==> |r.value| == |stack| && ResultReady(h2.mem, ft, r.value, v))
  {
    hide StoreF, LowerF, Flat, LoadF, LiftF, Size;
    if 0 < |FlatResults(ft)| && !ResultIndirect(ft) {
      DirectResult(alloc, h, ft, stack, v);
    } else if ResultIndirect(ft) {
      IndirectResult(alloc, h, ft, stack, v);
    }
  }

  lemma DirectResult(alloc: Alloc, h: Heap, ft: FuncType, stack: seq<u64>, v: Val)
    requires GoodAlloc(alloc) && GoodHeap(h) && ft.result.Some? && Built(ft.result.value) && Sized(ft.result.value, v)
    requires |HostSig(ft).0| <= |stack| && |HostSig(ft).1| <= |stack| && |FlatResults(ft)| == 1
    ensures var (h2, r) := LowerF(alloc, h, ft.result.value, v);
            && (Accepts(ft.result.value, v) ==> r.Some? || h2.starved)
            && (r.Some? ==> |r.value| == 1 && ResultReady(h2.mem, ft, stack[0 := r.value[0]], v))
  {
    hide LowerF, Flat, LiftF, Accepts, Built, Sized;
    LowerLifts(alloc, h, ft.result.value, v);
    var (h2, r) := LowerF(alloc, h, ft.result.value, v);
    if r.Some? {
      assert r.value == [r.value[0]];
    }
  }

  lemma IndirectResult(alloc: Alloc, h: Heap, ft: FuncType, stack: seq<u64>, v: Val)
    requires GoodAlloc(alloc) && GoodHeap(h) && ft.result.Some? && Built(ft.result.value) && Sized(ft.result.value, v)
    requires |HostSig(ft).0| <= |stack| && ResultIndirect(ft)
    requires Area(stack[|HostSig(ft).0| - 1] % TWO32, Size(ft.result.value)) <= h.live
    ensures var (h2, ok) := StoreF(alloc, h, ft.result.value, stack[|HostSig(ft).0| - 1] % TWO32, v);
            && (Accepts(ft.result.value, v) ==> ok || h2.starved)
            && (ok ==> ResultReady(h2.mem, ft, stack, v))
  {
    hide StoreF, Flat, LoadF, Size, Accepts, Built, Sized, Within;
    StoreLoads(alloc, h, ft.result.value, stack[|HostSig(ft).0| - 1] % TWO32, v);
  }

  // ---- a whole call ----

  /** What the guest's code does with its core arguments. */
  datatype GuestReply = Trap(heap: Heap) | Returns(heap: Heap, res: seq<u64>)

  type GuestCode = (Heap, seq<u64>) -> GuestReply

  /** The guest's cabi_post_ export, when there is one: it may trap. */
  type PostReturn = (Heap, u64) -> (Heap, bool)

  /** CallExport: lower, call, lift, and only then run post-return. */
  function CallExport(alloc: Alloc, h: Heap, ft: FuncType, args: seq<Val>, guest: GuestCode,
                      post: Option<PostReturn>): (Heap, Option<Val>) {
    match LowerArgs(alloc, h, ft, args)
    case (h1, None) => (h1, None)
    case (h1, Some(core)) =>
      match guest(h1, core)
      case Trap(h2) => (h2, None)
      case Returns(h2, res) =>
        match LiftResult(h2.mem, ft, res)
        case None => (h2, None)
        case Some(v) =>
          if ft.result.Some? && ResultIndirect(ft) && post.Some? then
            var (h3, ok) := post.value(h2, res[0]);
            (h3, if ok then Some(v) else None)
          else (h2, Some(v))
  }

  /** The host's implementation of an import; `None` traps the guest. */
  type HostImpl = seq<Val> -> Option<Val>

  /** The glue around a host implementation. */
  function HostCall(alloc: Alloc, h: Heap, ft: FuncType, impl: HostImpl, stack: seq<u64>): (Heap, Option<seq<u64>>)
    requires |HostSig(ft).0| <= |stack| && |HostSig(ft).1| <= |stack|
  {
    match LiftArgs(h.mem, ft, stack)
    case None => (h, None)
    case Some(args) =>
      match impl(args)
      case None => (h, None)
      case Some(v) => LowerResult(alloc, h, ft, stack, v)
  }

  /** A guest whose export only forwards to a host import of the same type, reserving the return area
      itself. The stack has room for the parameters and for a direct result. */
  function Forward(alloc: Alloc, h: Heap, ft: FuncType, impl: HostImpl, core: seq<u64>): GuestReply {
    if |core| != |ArgSig(ft)| then Trap(h)
    else if ResultIndirect(ft) then
      match AllocF(alloc, h, Size(ft.result.value), Align(ft.result.value))
      case (h1, None) => Trap(h1)
      case (h1, Some(ret)) => Finish(ft, HostCall(alloc, h1, ft, impl, core + [ret]))
    else Finish(ft, HostCall(alloc, h, ft, impl, if |core| == 0 then [0] else core))
  }

  function Finish(ft: FuncType, r: (Heap, Option<seq<u64>>)): GuestReply
    requires r.1.Some? ==> |HostSig(ft).0| <= |r.1.value| && |HostSig(ft).1| <= |r.1.value|
  {
    match r
    case (h, Some(stack)) => Returns(h, ResultWords(ft, stack))
    case (h, None) => Trap(h)
  }

  function Forwarding(alloc: Alloc, ft: FuncType, impl: HostImpl): GuestCode {
    (h: Heap, core: seq<u64>) => Forward(alloc, h, ft, impl, core)
  }

  /** What a caller gets for a result v: nothing comes back from a function without a result, and a result
      of zero flat width is an error. */
  function CallerSees(ft: FuncType, v: Val): Option<Val> {
    match ft.result
    case None => Some(Nil)
    case Some(t) => if |Flat(t)| == 0 then None else Some(Norm(t, v))
  }

  ghost predicate ResultFits(ft: FuncType, v: Val) {
    ft.result.Some? ==> Built(ft.result.value) && Accepts(ft.result.value, v) && Sized(ft.result.value, v)
  }

  /** End to end: arguments through CallExport, the guest, and the host glue reach the implementation,
      and its result comes back, whether or not parameters spill, the result is indirect, or there is one,
      unless an allocation failed. Post-return runs after that and cannot change the result, whatever it
      does to memory; it can only trap. */
  lemma ForwardedCall(alloc: Alloc, h: Heap, ft: FuncType, args: seq<Val>, impl: HostImpl, v: Val,
                      post: Option<PostReturn>)
    requires GoodAlloc(alloc) && GoodHeap(h)
    requires BuiltParams(ft) && SizedArgs(ft, args) && AcceptsArgs(ft, args)
    requires impl(NormFrom(ft.params, args, 0)) == Some(v) && ResultFits(ft, v)
    ensures var guest := Forwarding(alloc, ft, impl);
            var (h2, r) := CallExport(alloc, h, ft, args, guest, None);
            var out := CallExport(alloc, h, ft, args, guest, post).1;
            && (!h2.starved || r.Some? ==> r == CallerSees(ft, v))
            && (out.Some? ==> out == r)
            && (r.Some? && out.None? ==> post.Some? && ResultIndirect(ft) && exists w :: !post.value(h2, w).1)
  {
    hide LowerArgs, Flat, Forward, CallerSees, ResultFits, LiftResult;
    ArgsRoundTrip(alloc, h, ft, args);
    var (h1, r1) := LowerArgs(alloc, h, ft, args);
    if r1.Some? {
      ForwardedReply(alloc, h, h1, ft, args, impl, v, r1.value);
    }
  }

  lemma ForwardedReply(alloc: Alloc, h: Heap, h1: Heap, ft: FuncType, args: seq<Val>, impl: HostImpl, v: Val,
                       core: seq<u64>)
    requires GoodAlloc(alloc) && Kept(h, h1, {}) && ArgsLowered(h, h1, ft, args, core)
    requires impl(NormFrom(ft.params, args, 0)) == Some(v) && ResultFits(ft, v)
    ensures match Forward(alloc, h1, ft, impl, core)
            case Trap(heap) => heap.starved
            case Returns(heap, res) =>
              && LiftResult(heap.mem, ft, res) == CallerSees(ft, v)
              && (CallerSees(ft, v).Some? && ft.result.Some? ==> |res| == 1)
  {
    var got := NormFrom(ft.params, args, 0);
    hide Size, Align, Flat, LiftArgs, LowerResult, LiftResult, Accepts, Sized, GoodAlloc, ResultReady, HostCall,
         Finish, Forward;
    ArgsDelivered(h, h1, ft, args, core);
    if ft.result.None? {
      NoResultReply(alloc, h, h1, ft, impl, core, got, v);
    } else if ResultIndirect(ft) {
      IndirectReply(alloc, h, h1, ft, ft.result.value, impl, core, got, v);
    } else {
      DirectReply(alloc, h, h1, ft, ft.result.value, impl, core, got, v);
    }
    if Forward(alloc, h1, ft, impl, core).Returns? && ft.result.Some? {
      OneWordLifts(ft, Forward(alloc, h1, ft, impl, core));
    }
  }

  lemma OneWordLifts(ft: FuncType, g: GuestReply)
    requires g.Returns? && ft.result.Some?
    ensures LiftResult(g.heap.mem, ft, g.res).Some? ==> |g.res| == 1
  {
  }

  lemma NoResultReply(alloc: Alloc, h: Heap, h1: Heap, ft: FuncType, impl: HostImpl, core: seq<u64>, got: seq<Val>,
                      v: Val)
    requires ft.result.None? && impl(got) == Some(v) && Delivers(h, h1, ft, core, got)
    ensures var g := Forward(alloc, h1, ft, impl, core);
            g.Returns? && LiftResult(g.heap.mem, ft, g.res) == Some(Nil)
  {
    hide Size, Align, Flat, LiftArgs;
    var stack := if |core| == 0 then [0] else core;
    NothingHappens(h1, 0, 0);
    ReachesImpl(h, h1, h1, ft, core, stack, got);
  }

  /** The core arguments lift to `got` as long as the blocks lowered for them are as they were. */
  ghost predicate Delivers(h: Heap, h1: Heap, ft: FuncType, core: seq<u64>, got: seq<Val>) {
    && GoodHeap(h1) && |core| == |ArgSig(ft)|
    && forall m, stack :: Agree(h1.mem, m, h1.live - h.live) && core <= stack ==> LiftArgs(m, ft, stack) == Some(got)
  }

  lemma ArgsDelivered(h: Heap, h1: Heap, ft: FuncType, args: seq<Val>, core: seq<u64>)
    requires ArgsLowered(h, h1, ft, args, core) && Kept(h, h1, {})
    ensures Delivers(h, h1, ft, core, NormFrom(ft.params, args, 0))
  {
    hide LiftArgs;
  }

  lemma ReachesImpl(h: Heap, h1: Heap, h2: Heap, ft: FuncType, core: seq<u64>, stack: seq<u64>, got: seq<Val>)
    requires Delivers(h, h1, ft, core, got) && Kept(h1, h2, {}) && core <= stack
    ensures LiftArgs(h2.mem, ft, stack) == Some(got)
  {
    assert Agree(h1.mem, h2.mem, h1.live - h.live);
  }

  lemma DirectReply(alloc: Alloc, h: Heap, h1: Heap, ft: FuncType, t: Ty, impl: HostImpl, core: seq<u64>,
                    got: seq<Val>, v: Val)
    requires ft.result == Some(t) && Built(t) && !ResultIndirect(ft)
    requires impl(got) == Some(v) && Accepts(t, v) && Sized(t, v)
    requires GoodAlloc(alloc) && Delivers(h, h1, ft, core, got)
    ensures match Forward(alloc, h1, ft, impl, core)
            case Trap(heap) => heap.starved
            case Returns(heap, res) =>
              LiftResult(heap.mem, ft, res) == if |FlatResults(ft)| == 0 then None else Some(Norm(t, v))
  {
    hide Size, Align, Flat, LiftArgs, LowerResult, LiftResult, Accepts, Sized, GoodAlloc, ResultReady, HostCall,
         Finish, Norm;
    var stack := if |core| == 0 then [0] else core;
    NothingHappens(h1, 0, 0);
    ReachesImpl(h, h1, h1, ft, core, stack, got);
    HostCallIs(alloc, h1, ft, impl, stack, got);
    ResultRoundTrip(alloc, h1, ft, stack, v);
    ReplyReady(alloc, h1, ft, stack, v);
  }

  lemma IndirectReply(alloc: Alloc, h: Heap, h1: Heap, ft: FuncType, t: Ty, impl: HostImpl, core: seq<u64>,
                      got: seq<Val>, v: Val)
    requires ft.result == Some(t) && Built(t) && ResultIndirect(ft)
    requires impl(got) == Some(v) && Accepts(t, v) && Sized(t, v)
    requires GoodAlloc(alloc) && Delivers(h, h1, ft, core, got)
    ensures match Forward(alloc, h1, ft, impl, core)
            case Trap(heap) => heap.starved
            case Returns(heap, res) => LiftResult(heap.mem, ft, res) == Some(Norm(t, v))
  {
    hide Size, Align, Flat, LiftArgs, LowerResult, LiftResult, Accepts, Sized, GoodAlloc, ResultReady, Forward,
         HostCall, Finish, Norm;
    AllocWorks(alloc, h1, Size(t), Align(t)) by { assert Built(t); }
    var (h2, ret) := AllocF(alloc, h1, Size(t), Align(t));
    ForwardIs(alloc, h1, ft, impl, core);
    if ret.Some? {
      var stack := core + [ret.value];
      ReachesImpl(h, h1, h2, ft, core, stack, got);
      HostCallIs(alloc, h2, ft, impl, stack, got);
      ResultRoundTrip(alloc, h2, ft, stack, v);
      ReplyReady(alloc, h2, ft, stack, v);
    }
  }

  lemma ForwardIs(alloc: Alloc, h1: Heap, ft: FuncType, impl: HostImpl, core: seq<u64>)
    requires ft.result.Some? && ResultIndirect(ft) && |core| == |ArgSig(ft)|
    ensures var (h2, ret) := AllocF(alloc, h1, Size(ft.result.value), Align(ft.result.value));
            && |HostSig(ft).0| == |core| + 1 && |HostSig(ft).1| == 0
            && Forward(alloc, h1, ft, impl, core) ==
                 (if ret.None? then Trap(h2) else Finish(ft, HostCall(alloc, h2, ft, impl, core + [ret.value])))
            && (ret.Some? ==> (core + [ret.value])[|core|] == ret.value)
  {
    hide HostCall;
  }

  lemma HostCallIs(alloc: Alloc, h: Heap, ft: FuncType, impl: HostImpl, stack: seq<u64>, args: seq<Val>)
    requires |HostSig(ft).0| <= |stack| && |HostSig(ft).1| <= |stack|
    requires LiftArgs(h.mem, ft, stack) == Some(args) && impl(args).Some?
    ensures HostCall(alloc, h, ft, impl, stack) == LowerResult(alloc, h, ft, stack, impl(args).value)
  {
  }

  lemma ReplyReady(alloc: Alloc, h: Heap, ft: FuncType, stack: seq<u64>, v: Val)
    requires |HostSig(ft).0| <= |stack| && |HostSig(ft).1| <= |stack| && ft.result.Some?
    requires var (h2, r) := LowerResult(alloc, h, ft, stack, v);
             if r.Some? then |r.value| == |stack| && ResultReady(h2.mem, ft, r.value, v) else h2.starved
    ensures match Finish(ft, LowerResult(alloc, h, ft, stack, v))
            case Trap(heap) => heap.starved
            case Returns(heap, res) =>
              LiftResult(heap.mem, ft, res) ==
                if |FlatResults(ft)| == 0 then None else Some(Norm(ft.result.value, v))
  {
  }

  // ---- the limits, in numbers ----

  /** The slots of a function's parameters, side by side. */
  function ParamSlots(ft: FuncType): seq<CoreType> {
    Flat(RecordT(ft.params))
  }

  /** Up to 16 parameter slots are core parameters, more are one pointer. A result of one slot is a core result
      on both sides; one of more is a pointer the export returns and the import takes last. */
  lemma SignaturesAre(ft: FuncType)
    ensures var args := if |ParamSlots(ft)| <= 16 then ParamSlots(ft) else [I32];
            var result := if ft.result.Some? then Flat(ft.result.value) else [];
            if |result| <= 1 then ExportSig(ft) == HostSig(ft) == (args, result)
            else ExportSig(ft) == (args, [I32]) && HostSig(ft) == (args + [I32], [])
  {
    hide FieldsFlat;
  }

  /** So 16 parameters of one word each are passed as they are, and 17 behind a pointer. */
  lemma SixteenWords(n: nat)
    ensures var ft := FuncType(seq(n, _ => PrimT(U32)), None);
            ExportSig(ft).0 == HostSig(ft).0 == if n <= 16 then seq(n, _ => I32) else [I32]
  {
    var ft := FuncType(seq(n, _ => PrimT(U32)), None);
    SignaturesAre(ft);
    WordSlots(ft.params, n);
  }

  lemma {:induction false} WordSlots(fs: seq<Ty>, n: nat)
    requires n <= |fs| && forall i :: 0 <= i < |fs| ==> fs[i] == PrimT(U32)
    ensures FieldsFlat(fs, n) == seq(n, _ => I32)
    decreases n
  {
    if n > 0 {
      WordSlots(fs, n - 1);
    }
  }

  /** Arguments of up to 16 slots go as the words of a record of them, more as the address of one in memory. */
  lemma ArgsPassed(alloc: Alloc, h: Heap, ft: FuncType, args: seq<Val>)
    requires GoodAlloc(alloc) && GoodHeap(h) && BuiltParams(ft) && SizedArgs(ft, args)
    ensures |ParamSlots(ft)| <= 16 ==>
              LowerArgs(alloc, h, ft, args) == LowerF(alloc, h, RecordT(ft.params), VSlice(args))
    ensures var (h2, r) := LowerArgs(alloc, h, ft, args);
            && (r.Some? ==> |r.value| == if |ParamSlots(ft)| <= 16 then |ParamSlots(ft)| else 1)
            && (r.Some? && |ParamSlots(ft)| > 16 ==>
                  LoadF(h2.mem, RecordT(ft.params), r.value[0]) == Some(VSlice(NormFrom(ft.params, args, 0))))
  {
    hide Flat, FieldsFlat, LoadF, StoreF, LowerFields, Size, Align, Accepts, Sized, Built, GoodAlloc;
    SlotsAre(ft);
    ArgsRoundTrip(alloc, h, ft, args);
    var (h2, r) := LowerArgs(alloc, h, ft, args);
    if |ParamSlots(ft)| <= 16 {
      FlatIsRecord(alloc, h, ft, args);
    } else if r.Some? {
      assert LiftArgs(h2.mem, ft, r.value) == Some(NormFrom(ft.params, args, 0));
      LiftsSpilled(h2.mem, ft, r.value);
    }
  }

  lemma SlotsAre(ft: FuncType)
    ensures ParamSlots(ft) == FlatParams(ft)
  {
    hide FieldsFlat;
  }

  lemma FlatIsRecord(alloc: Alloc, h: Heap, ft: FuncType, args: seq<Val>)
    requires |ParamSlots(ft)| <= 16
    ensures LowerArgs(alloc, h, ft, args) == LowerF(alloc, h, RecordT(ft.params), VSlice(args))
  {
    hide LowerFields, FieldsFlat, StoreF;
  }

  lemma LiftsSpilled(m: seq<byte>, ft: FuncType, stack: seq<u64>)
    requires |ParamSlots(ft)| > 16 && |stack| == 1
    ensures LiftArgs(m, ft, stack).Some? ==>
              stack[0] < TWO32 ==> LoadF(m, RecordT(ft.params), stack[0]) == Some(VSlice(LiftArgs(m, ft, stack).value))
  {
    hide LoadF, FieldsFlat;
  }

  /** The host takes up to 16 slots from the front of its stack, and more from the record at the address there. */
  lemma ArgsTaken(m: seq<byte>, ft: FuncType, stack: seq<u64>)
    requires |ArgSig(ft)| <= |stack|
    ensures var n := |ParamSlots(ft)|;
            if n <= 16 then
              n <= |stack|
              && LiftArgs(m, ft, stack) ==
                   match LiftFields(m, ft.params, stack[..n], 0, 0) case Some((vs, _)) => Some(vs) case None => None
            else
              |stack| > 0
              && LiftArgs(m, ft, stack) ==
                   match LoadF(m, RecordT(ft.params), stack[0] % 0x1_0000_0000)
                   case Some(VSlice(vs)) => Some(vs)
                   case _ => None
  {
    hide LoadF, LiftFields, FieldsFlat;
  }

  /** A direct result takes the first place of the host's stack and leaves the rest; an indirect one is stored at
      the address right behind the arguments' words. */
  lemma ResultPlaced(alloc: Alloc, h: Heap, ft: FuncType, stack: seq<u64>, v: Val)
    requires |HostSig(ft).0| <= |stack| && |HostSig(ft).1| <= |stack| && ft.result.Some?
    ensures var t := ft.result.value;
            var at := if |ParamSlots(ft)| <= 16 then |ParamSlots(ft)| else 1;
            var (h2, r) := LowerResult(alloc, h, ft, stack, v);
            if |Flat(t)| == 0 then h2 == h && r == Some(stack)
            else if |Flat(t)| == 1 then
              var (h1, words) := LowerF(alloc, h, t, v);
              h2 == h1 && (r.Some? ==> words.Some? && |words.value| > 0 && r.value == stack[0 := words.value[0]])
            else
              at < |stack|
              && (h2, r.Some?) == StoreF(alloc, h, t, stack[at] % 0x1_0000_0000, v)
              && (r.Some? ==> r.value == stack)
  {
    hide StoreF, LowerF, Flat;
    SlotsAre(ft);
  }

  /** The caller takes nothing from a function without a result; otherwise exactly one word, which is the value's
      when it has one slot and the low 32 bits of its address when it has more. */
  lemma ResultTaken(m: seq<byte>, ft: FuncType, res: seq<u64>)
    ensures ft.result.None? ==> LiftResult(m, ft, res) == Some(Nil)
    ensures ft.result.Some? && |res| != 1 ==> LiftResult(m, ft, res) == None
    ensures ft.result.Some? && |res| == 1 ==>
              var t := ft.result.value;
              LiftResult(m, ft, res) ==
                if |Flat(t)| > 1 then LoadF(m, t, res[0] % 0x1_0000_0000)
                else match LiftF(m, t, res, 0) case Some((v, _)) => Some(v) case None => None
  {
    hide LoadF, LiftF, Flat;
  }

  /** A call fails without running the guest when its arguments cannot be lowered, and without a result when the
      guest traps or its result cannot be lifted; a host function traps when its arguments cannot be lifted or the
      implementation refuses, before it writes anything. */
  lemma CallsFail(alloc: Alloc, h: Heap, ft: FuncType, args: seq<Val>, guest: GuestCode, post: Option<PostReturn>,
                  impl: HostImpl, stack: seq<u64>)
    requires |HostSig(ft).0| <= |stack| && |HostSig(ft).1| <= |stack|
    ensures var (h1, core) := LowerArgs(alloc, h, ft, args);
            var out := CallExport(alloc, h, ft, args, guest, post);
            && (core.None? ==> out == (h1, None))
            && (core.Some? && guest(h1, core.value).Trap? ==> out == (guest(h1, core.value).heap, None))
            && (core.Some? && guest(h1, core.value).Returns?
                && LiftResult(guest(h1, core.value).heap.mem, ft, guest(h1, core.value).res).None? ==>
                  out == (guest(h1, core.value).heap, None))
    ensures var got := LiftArgs(h.mem, ft, stack);
            got.None? || impl(got.value).None? ==> HostCall(alloc, h, ft, impl, stack) == (h, None)
  {
    hide LowerArgs, LiftArgs, LiftResult, LowerResult;
  }

  /** Post-return runs once the result has been lifted, only after an indirect result, on the word the guest
      returned; it decides nothing but whether the call fails. */
  lemma PostReturnRuns(alloc: Alloc, h: Heap, ft: FuncType, args: seq<Val>, guest: GuestCode, post: PostReturn)
    ensures var (h2, r) := CallExport(alloc, h, ft, args, guest, None);
            var (h3, out) := CallExport(alloc, h, ft, args, guest, Some(post));
            if r.Some? && ft.result.Some? && |Flat(ft.result.value)| > 1 then
              var (h1, core) := LowerArgs(alloc, h, ft, args);
              && core.Some? && guest(h1, core.value).Returns? && guest(h1, core.value).heap == h2
              && |guest(h1, core.value).res| == 1
              && h3 == post(h2, guest(h1, core.value).res[0]).0
              && out == (if post(h2, guest(h1, core.value).res[0]).1 then r else None)
            else (h3, out) == (h2, r)
  {
    hide LowerArgs, LoadF, LiftF, Flat;
  }
}
