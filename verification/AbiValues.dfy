/** The host's dynamic values, which of them a type accepts, and the coding of scalars. */
module AbiValues {
  import opened Words
  import opened Wrappers
  import opened AbiTypes

  type u16 = n: int | 0 <= n < 0x1_0000
  type s8 = n: int | -0x80 <= n < 0x80
  type s16 = n: int | -0x8000 <= n < 0x8000
  type s32 = n: int | -0x8000_0000 <= n < 0x8000_0000
  type s64 = n: int | -0x8000_0000_0000_0000 <= n < 0x8000_0000_0000_0000

  /** A value of Go's `any`, by its dynamic type. A rune is an int32; floats are their bit patterns. */
  datatype Val =
    | Nil
    | VBool(b: bool)
    | VU8(a8: byte) | VU16(a16: u16) | VU32(a32: u32) | VU64(a64: u64)
    | VS8(i8: s8) | VS16(i16: s16) | VS32(i32: s32) | VS64(i64: s64)
    | VF32(bits32: u32) | VF64(bits64: u64)
    | VString(text: seq<byte>)
    | VBytes(bytes: seq<byte>)
    | VSlice(elems: seq<Val>)
    | VOpt(some: bool, val: Val)
    | VRes(isErr: bool, val: Val)
    | VVar(index: u32, val: Val)

  // ---- scalars ----

  predicate ValidScalar(v: int) {
    0 <= v <= 0x10FFFF && !(0xD800 <= v <= 0xDFFF)
  }

  /** The unsigned word a scalar lowers to; `None` when the value has another dynamic type. */
  function LowerPrim(p: Prim, v: Val): Option<u64> {
    match (p, v)
    case (Bool, VBool(b)) => Some(if b then 1 else 0)
    case (U8, VU8(x)) => Some(x)
    case (U16, VU16(x)) => Some(x)
    case (U32, VU32(x)) => Some(x)
    case (U64, VU64(x)) => Some(x)
    case (S8, VS8(x)) => Some(x % TWO8)
    case (S16, VS16(x)) => Some(x % TWO16)
    case (S32, VS32(x)) => Some(x % TWO32)
    case (S64, VS64(x)) => Some(x % TWO64)
    case (Float32, VF32(x)) => Some(x)
    case (Float64, VF64(x)) => Some(x)
    case (Char, VS32(x)) => if ValidScalar(x) then Some(x) else None
    case (Handle, VU32(x)) => Some(x)
    case _ => None
  }

  /** Reading a scalar back from a word, each kind first truncated to its own width. */
  function LiftPrim(p: Prim, raw: nat): Option<Val> {
    match p
    case Bool => Some(VBool(raw % TWO32 != 0))
    case U8 => Some(VU8(raw % TWO8))
    case U16 => Some(VU16(raw % TWO16))
    case U32 => Some(VU32(raw % TWO32))
    case U64 => Some(VU64(raw % TWO64))
    case S8 => Some(VS8(ToSigned(raw % TWO8, TWO8)))
    case S16 => Some(VS16(ToSigned(raw % TWO16, TWO16)))
    case S32 => Some(VS32(ToSigned(raw % TWO32, TWO32)))
    case S64 => Some(VS64(ToSigned(raw % TWO64, TWO64)))
    case Float32 => Some(VF32(raw % TWO32))
    case Float64 => Some(VF64(raw % TWO64))
    case Char => if ValidScalar(raw % TWO32) then Some(VS32(raw % TWO32)) else None
    case Handle => Some(VU32(raw % TWO32))
  }

  /** The dynamic type a scalar type asks for. */
  predicate IsScalarOf(p: Prim, v: Val) {
    match p
    case Bool => v.VBool?
    case U8 => v.VU8?
    case U16 => v.VU16?
    case U32 | Handle => v.VU32?
    case U64 => v.VU64?
    case S8 => v.VS8?
    case S16 => v.VS16?
    case S32 => v.VS32?
    case S64 => v.VS64?
    case Float32 => v.VF32?
    case Float64 => v.VF64?
    case Char => v.VS32? && ValidScalar(v.i32)
  }

  /** A scalar lowers exactly when it has its type; the word fits both its bytes and its core type,
      and lifting gives the scalar back. */
  lemma ScalarRoundTrip(p: Prim, v: Val)
    ensures LowerPrim(p, v).Some? <==> IsScalarOf(p, v)
    ensures IsScalarOf(p, v) ==>
              var raw := LowerPrim(p, v).value;
              && LiftPrim(p, raw) == Some(v)
              && raw < Pow256(PrimSize(p))
              && FitsCore(raw, PrimFlat(p))
  {
    Pow256Values();
  }

  lemma LiftedScalarIsTyped(p: Prim, raw: nat)
    ensures LiftPrim(p, raw).Some? ==> IsScalarOf(p, LiftPrim(p, raw).value)
    ensures LiftPrim(p, raw).None? <==> p == Char && !ValidScalar(raw % TWO32)
  {
  }

  /** A word that a slot of this core type can hold. */
  predicate FitsCore(w: nat, ct: CoreType) {
    match ct
    case I32 | F32 => w < TWO32
    case I64 | F64 => w < TWO64
  }

  lemma FitsWiderCore(w: nat, a: CoreType, b: CoreType)
    requires FitsCore(w, a) && Narrower(a, b)
    ensures FitsCore(w, b)
  {
  }

  // ---- variants ----

  /** The case and payload a variant value names. */
  function Unwrap(k: VariantKind, numCases: nat, v: Val): (r: Option<(u32, Val)>)
    requires k != KindVariant ==> numCases == 2
    ensures r.Some? ==> r.value.0 < numCases
  {
    match (k, v)
    case (KindOption, VOpt(some, x)) => if some then Some((1, x)) else Some((0, Nil))
    case (KindResult, VRes(isErr, x)) => Some((if isErr then 1 else 0, x))
    case (KindVariant, VVar(d, x)) => if d < numCases then Some((d, x)) else None
    case _ => None
  }

  function Wrap(k: VariantKind, d: u32, payload: Val): Val {
    match k
    case KindOption => if d == 0 then VOpt(false, Nil) else VOpt(true, payload)
    case KindResult => VRes(d == 1, payload)
    case KindVariant => VVar(d, payload)
  }

  // ---- typed values ----

  /** The values of type t, up to payloads under cases that have none. */
  predicate Accepts(t: Ty, v: Val)
    decreases t
  {
    match t
    case PrimT(p) => IsScalarOf(p, v)
    case StringT => v.VString? && |v.text| < TWO32
    case EnumT(n) => v.VU32? && v.a32 < n
    case ListT(e) =>
      if e == PrimT(U8) then v.VBytes?
      else v.VSlice? && forall i :: 0 <= i < |v.elems| ==> Accepts(e, v.elems[i])
    case RecordT(fs) =>
      v.VSlice? && |v.elems| == |fs| && forall i :: 0 <= i < |fs| ==> Accepts(fs[i], v.elems[i])
    case VariantT(k, cs) =>
      && (k != KindVariant ==> |cs| == 2)
      && Unwrap(k, |cs|, v).Some?
      && var (d, x) := Unwrap(k, |cs|, v).value; CaseAccepts(cs[d], x)
  }

  predicate CaseAccepts(c: Case, v: Val)
    decreases c
  {
    match c
    case NoPayload => true
    case Payload(t) => Accepts(t, v)
  }

  /** v with every payload under a payload-less case erased: what the wire carries. */
  function Norm(t: Ty, v: Val): Val
    decreases t
  {
    match t
    case PrimT(_) | StringT | EnumT(_) => v
    case ListT(e) =>
      if v.VSlice? then VSlice(seq(|v.elems|, i requires 0 <= i < |v.elems| => Norm(e, v.elems[i]))) else v
    case RecordT(fs) =>
      if v.VSlice? && |v.elems| == |fs|
      then VSlice(seq(|fs|, i requires 0 <= i < |fs| => Norm(fs[i], v.elems[i]))) else v
    case VariantT(k, cs) =>
      if (k != KindVariant ==> |cs| == 2) && Unwrap(k, |cs|, v).Some? then
        var (d, x) := Unwrap(k, |cs|, v).value;
        Wrap(k, d, CaseNorm(cs[d], x))
      else v
  }

  function CaseNorm(c: Case, v: Val): Val
    decreases c
  {
    match c
    case NoPayload => Nil
    case Payload(t) => Norm(t, v)
  }

  /** A value of type t carrying nothing under payload-less cases. */
  predicate HasType(t: Ty, v: Val) {
    Accepts(t, v) && Norm(t, v) == v
  }

  function Stride(e: Ty): nat {
    RoundUp(Size(e), Align(e))
  }

  /** The bytes of n list elements: the product of n and the stride. */
  function Span(e: Ty, n: nat): nat {
    Times(n, Stride(e))
  }

  /** Every list in v has a length and a body of fewer than 2^32 bytes. */
  predicate Sized(t: Ty, v: Val)
    decreases t
  {
    match t
    case PrimT(_) | StringT | EnumT(_) => true
    case ListT(e) =>
      if e == PrimT(U8) then v.VBytes? ==> |v.bytes| < TWO32
      else v.VSlice? ==>
        && |v.elems| < TWO32
        && Span(e, |v.elems|) < TWO32
        && forall i :: 0 <= i < |v.elems| ==> Sized(e, v.elems[i])
    case RecordT(fs) =>
      v.VSlice? && |v.elems| == |fs| ==> forall i :: 0 <= i < |fs| ==> Sized(fs[i], v.elems[i])
    case VariantT(k, cs) =>
      (k != KindVariant ==> |cs| == 2) && Unwrap(k, |cs|, v).Some? ==>
        var (d, x) := Unwrap(k, |cs|, v).value; CaseSized(cs[d], x)
  }

  predicate CaseSized(c: Case, v: Val)
    decreases c
  {
    match c
    case NoPayload => true
    case Payload(t) => Sized(t, v)
  }
}
