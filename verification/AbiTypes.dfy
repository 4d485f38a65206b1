/** Type descriptors of the Canonical ABI: size, alignment, field offsets and flat core types. */
module AbiTypes {
  import opened Words

  datatype CoreType = I32 | I64 | F32 | F64

  datatype Prim =
    | Bool | U8 | U16 | U32 | U64 | S8 | S16 | S32 | S64 | Float32 | Float64 | Char | Handle

  datatype VariantKind = KindVariant | KindOption | KindResult

  /** A descriptor. */
  datatype Ty =
    | PrimT(prim: Prim)
    | StringT
    | EnumT(numCases: nat)
    | ListT(elem: Ty)
    | RecordT(fields: seq<Ty>)
    | VariantT(kind: VariantKind, cases: seq<Case>)

  /** A variant's case; `NoPayload` is the source's nil case type. */
  datatype Case = NoPayload | Payload(ty: Ty)

  function PrimSize(p: Prim): nat {
    match p
    case Bool | U8 | S8 => 1
    case U16 | S16 => 2
    case U32 | S32 | Float32 | Char | Handle => 4
    case U64 | S64 | Float64 => 8
  }

  function PrimFlat(p: Prim): CoreType {
    match p
    case U64 | S64 => I64
    case Float32 => F32
    case Float64 => F64
    case _ => I32
  }

  function DiscSize(numCases: nat): nat {
    if numCases <= 0x100 then 1 else if numCases <= 0x1_0000 then 2 else 4
  }

  predicate IsAlign(a: int) {
    a == 1 || a == 2 || a == 4 || a == 8
  }

  // ---- the layout, as nested rules over unbounded integers ----

  function Size(t: Ty): nat
    decreases t, 0
  {
    match t
    case PrimT(p) => PrimSize(p)
    case StringT => 8
    case EnumT(n) => DiscSize(n)
    case ListT(_) => 8
    case RecordT(fs) => RoundUp(FieldsEnd(fs, |fs|), FieldsAlign(fs, |fs|))
    case VariantT(_, cs) => RoundUp(PayloadOffset(cs) + CasesSize(cs, |cs|), VariantAlign(cs))
  }

  function Align(t: Ty): (a: nat)
    ensures IsAlign(a)
    decreases t, 0
  {
    match t
    case PrimT(p) => PrimSize(p)
    case StringT => 4
    case EnumT(n) => DiscSize(n)
    case ListT(_) => 4
    case RecordT(fs) => FieldsAlign(fs, |fs|)
    case VariantT(_, cs) => VariantAlign(cs)
  }

  /** Where the first n fields end, each placed at its alignment after the one before. */
  function FieldsEnd(fs: seq<Ty>, n: nat): nat
    requires n <= |fs|
    decreases fs, 1, n
  {
    if n == 0 then 0
    else RoundUp(FieldsEnd(fs, n - 1), Align(fs[n - 1])) + Size(fs[n - 1])
  }

  function Offset(fs: seq<Ty>, i: nat): nat
    requires i < |fs|
  {
    RoundUp(FieldsEnd(fs, i), Align(fs[i]))
  }

  function FieldsAlign(fs: seq<Ty>, n: nat): (a: nat)
    requires n <= |fs|
    ensures IsAlign(a)
    decreases fs, 1, n
  {
    if n == 0 then 1 else Max(FieldsAlign(fs, n - 1), Align(fs[n - 1]))
  }

  // A case without payload takes no room and asks for no alignment.

  function CaseAlign(c: Case): (a: nat)
    ensures IsAlign(a)
    decreases c, 0
  {
    match c
    case NoPayload => 1
    case Payload(t) => Align(t)
  }

  function CaseSize(c: Case): nat
    decreases c, 0
  {
    match c
    case NoPayload => 0
    case Payload(t) => Size(t)
  }

  function CaseFlat(c: Case): seq<CoreType>
    decreases c, 0
  {
    match c
    case NoPayload => []
    case Payload(t) => Flat(t)
  }

  function CasesAlign(cs: seq<Case>, n: nat): (a: nat)
    requires n <= |cs|
    ensures IsAlign(a)
    decreases cs, 1, n
  {
    if n == 0 then 1 else Max(CasesAlign(cs, n - 1), CaseAlign(cs[n - 1]))
  }

  function CasesSize(cs: seq<Case>, n: nat): nat
    requires n <= |cs|
    decreases cs, 1, n
  {
    if n == 0 then 0 else Max(CasesSize(cs, n - 1), CaseSize(cs[n - 1]))
  }

  function VariantAlign(cs: seq<Case>): (a: nat)
    ensures IsAlign(a)
    decreases cs, 2
  {
    Max(DiscSize(|cs|), CasesAlign(cs, |cs|))
  }

  function PayloadOffset(cs: seq<Case>): nat
    decreases cs, 2
  {
    RoundUp(DiscSize(|cs|), CasesAlign(cs, |cs|))
  }

  // ---- flat core types ----

  function Join(a: CoreType, b: CoreType): CoreType {
    if a == b then a
    else if (a == I32 && b == F32) || (a == F32 && b == I32) then I32
    else I64
  }

  /** The joined slots after one more case. */
  function JoinInto(a: seq<CoreType>, b: seq<CoreType>): (r: seq<CoreType>)
    ensures |r| == Max(|a|, |b|)
    ensures forall j :: 0 <= j < |r| ==>
              r[j] == if j >= |b| then a[j] else if j >= |a| then b[j] else Join(a[j], b[j])
  {
    seq(Max(|a|, |b|), j requires 0 <= j < Max(|a|, |b|) =>
      if j >= |b| then a[j] else if j >= |a| then b[j] else Join(a[j], b[j]))
  }

  function Flat(t: Ty): seq<CoreType>
    decreases t, 0
  {
    match t
    case PrimT(p) => [PrimFlat(p)]
    case StringT => [I32, I32]
    case EnumT(_) => [I32]
    case ListT(_) => [I32, I32]
    case RecordT(fs) => FieldsFlat(fs, |fs|)
    case VariantT(_, cs) => [I32] + CasesFlat(cs, |cs|)
  }

  function FieldsFlat(fs: seq<Ty>, n: nat): seq<CoreType>
    requires n <= |fs|
    decreases fs, 1, n
  {
    if n == 0 then [] else FieldsFlat(fs, n - 1) + Flat(fs[n - 1])
  }

  function CasesFlat(cs: seq<Case>, n: nat): seq<CoreType>
    requires n <= |cs|
    decreases cs, 1, n
  {
    if n == 0 then [] else JoinInto(CasesFlat(cs, n - 1), CaseFlat(cs[n - 1]))
  }

  /** The types the constructors accept, with every computed size inside 32 bits. */
  predicate Built(t: Ty) {
    && Size(t) < TWO32
    && match t
       case PrimT(_) => true
       case StringT => true
       case EnumT(n) => 0 < n < TWO32
       case ListT(e) => Built(e)
       case RecordT(fs) => forall i :: 0 <= i < |fs| ==> Built(fs[i])
       case VariantT(k, cs) =>
         && 0 < |cs| < TWO32
         && (k == KindOption ==> |cs| == 2 && cs[0].NoPayload? && cs[1].Payload?)
         && (k == KindResult ==> |cs| == 2)
         && (forall i :: 0 <= i < |cs| && cs[i].Payload? ==> Built(cs[i].ty))
  }

  // ---- alignment arithmetic ----

  lemma AlignDivides(a: int, b: int, n: int)
    requires IsAlign(a) && IsAlign(b) && a <= b && n % b == 0
    ensures n % a == 0
  {
    var q := n / b;
    if a == 1 {
      DivModUnique(n, 1, n, 0);
    } else if a == 2 && b == 4 {
      DivModUnique(n, 2, 2 * q, 0);
    } else if a == 2 && b == 8 {
      DivModUnique(n, 2, 4 * q, 0);
    } else if a == 4 && b == 8 {
      DivModUnique(n, 4, 2 * q, 0);
    }
  }

  lemma AlignSum(a: int, m: int, n: int)
    requires IsAlign(a) && m % a == 0 && n % a == 0
    ensures (m + n) % a == 0
  {
    if a == 2 {
      DivModUnique(m + n, 2, m / 2 + n / 2, 0);
    } else if a == 4 {
      DivModUnique(m + n, 4, m / 4 + n / 4, 0);
    } else if a == 8 {
      DivModUnique(m + n, 8, m / 8 + n / 8, 0);
    } else {
      DivModUnique(m + n, 1, m + n, 0);
    }
  }

  lemma RoundUpAligned(n: nat, a: nat)
    requires IsAlign(a)
    ensures RoundUp(n, a) % a == 0
  {
    RoundUpIsLeast(n, a);
  }

  /** Every type's size is a multiple of its alignment, so list elements are packed at their size. */
  lemma SizeIsAligned(t: Ty)
    ensures Size(t) % Align(t) == 0
    ensures RoundUp(Size(t), Align(t)) == Size(t)
  {
    match t
    case PrimT(p) =>
    case StringT =>
    case EnumT(n) =>
    case ListT(_) =>
    case RecordT(fs) => RoundUpAligned(FieldsEnd(fs, |fs|), FieldsAlign(fs, |fs|));
    case VariantT(_, cs) => RoundUpAligned(PayloadOffset(cs) + CasesSize(cs, |cs|), VariantAlign(cs));
  }

  // ---- records ----

  lemma {:induction false} FieldsEndMonotone(fs: seq<Ty>, i: nat, j: nat)
    requires i <= j <= |fs|
    ensures FieldsEnd(fs, i) <= FieldsEnd(fs, j)
    ensures FieldsAlign(fs, i) <= FieldsAlign(fs, j)
    decreases j
  {
    if i < j {
      FieldsEndMonotone(fs, i, j - 1);
    }
  }

  lemma RecordHolds(fs: seq<Ty>, i: nat)
    requires i <= |fs|
    ensures FieldsEnd(fs, i) <= Size(RecordT(fs))
  {
    FieldsEndMonotone(fs, i, |fs|);
  }

  /** Fields lie in order, disjoint and inside the record, each at the least aligned offset not
      before the end of the previous one. */
  lemma FieldsLaidOut(fs: seq<Ty>, i: nat, j: nat)
    requires i < |fs|
    ensures Offset(fs, i) + Size(fs[i]) == FieldsEnd(fs, i + 1) <= Size(RecordT(fs))
    ensures i < j < |fs| ==> Offset(fs, i) + Size(fs[i]) <= Offset(fs, j)
    ensures FieldsEnd(fs, i) <= Offset(fs, i)
    ensures forall o: nat :: FieldsEnd(fs, i) <= o && o % Align(fs[i]) == 0 ==> Offset(fs, i) <= o
  {
    hide Align, Size, RoundUp, FieldsAlign;
    RecordHolds(fs, i + 1);
    if i < j < |fs| {
      FieldsEndMonotone(fs, i + 1, j);
    }
    RoundUpIsLeast(FieldsEnd(fs, i), Align(fs[i]));
  }

  /** At an aligned record pointer every field pointer is aligned. */
  lemma FieldsAligned(fs: seq<Ty>, i: nat, ptr: nat)
    requires i < |fs| && ptr % Align(RecordT(fs)) == 0
    ensures Offset(fs, i) % Align(fs[i]) == 0
    ensures (ptr + Offset(fs, i)) % Align(fs[i]) == 0
  {
    FieldsEndMonotone(fs, i + 1, |fs|);
    AlignDivides(Align(fs[i]), Align(RecordT(fs)), ptr);
    RoundUpAligned(FieldsEnd(fs, i), Align(fs[i]));
    AlignSum(Align(fs[i]), ptr, Offset(fs, i));
  }

  // ---- variants ----

  lemma {:induction false} CasesBound(cs: seq<Case>, i: nat, n: nat)
    requires i < n <= |cs|
    ensures CaseSize(cs[i]) <= CasesSize(cs, n)
    ensures CaseAlign(cs[i]) <= CasesAlign(cs, n)
    ensures |CaseFlat(cs[i])| <= |CasesFlat(cs, n)|
    decreases n
  {
    if i < n - 1 {
      CasesBound(cs, i, n - 1);
    }
  }

  /** The payload follows the discriminant and fits, in memory and in the joined slots. */
  lemma PayloadFits(k: VariantKind, cs: seq<Case>, i: nat)
    requires i < |cs|
    ensures DiscSize(|cs|) <= PayloadOffset(cs)
    ensures PayloadOffset(cs) + CaseSize(cs[i]) <= Size(VariantT(k, cs))
    ensures |CaseFlat(cs[i])| <= |CasesFlat(cs, |cs|)|
  {
    CasesBound(cs, i, |cs|);
  }

  /** At an aligned variant pointer the discriminant and every payload are aligned. */
  lemma PayloadAligned(k: VariantKind, cs: seq<Case>, i: nat, ptr: nat)
    requires i < |cs| && ptr % Align(VariantT(k, cs)) == 0
    ensures ptr % DiscSize(|cs|) == 0
    ensures (ptr + PayloadOffset(cs)) % CaseAlign(cs[i]) == 0
  {
    CasesBound(cs, i, |cs|);
    var a := CasesAlign(cs, |cs|);
    RoundUpAligned(DiscSize(|cs|), a);
    AlignDivides(a, VariantAlign(cs), ptr);
    AlignSum(a, ptr, PayloadOffset(cs));
    AlignDivides(CaseAlign(cs[i]), a, ptr + PayloadOffset(cs));
    AlignDivides(DiscSize(|cs|), VariantAlign(cs), ptr);
  }

  // ---- join is a least upper bound ----

  /** a's values fit a slot of type b. */
  predicate Narrower(a: CoreType, b: CoreType) {
    a == b || b == I64 || (a == F32 && b == I32)
  }

  lemma JoinIsSemilattice(a: CoreType, b: CoreType, c: CoreType)
    ensures Join(a, b) == Join(b, a) && Join(a, a) == a
    ensures Join(Join(a, b), c) == Join(a, Join(b, c))
    ensures Narrower(a, Join(a, b)) && Narrower(b, Join(a, b))
    ensures Narrower(a, c) && Narrower(b, c) <==> Narrower(Join(a, b), c)
    ensures Narrower(a, b) <==> Join(a, b) == b
  {
  }

  /** Case i has a flat value in slot j. */
  predicate Reaches(cs: seq<Case>, i: nat, j: nat)
    requires i < |cs|
  {
    j < |CaseFlat(cs[i])|
  }

  /** u is wide enough for every one of the first n cases that reach slot j. */
  predicate WideEnough(cs: seq<Case>, n: nat, j: nat, u: CoreType)
    requires n <= |cs|
  {
    forall i :: 0 <= i < n && Reaches(cs, i, j) ==> Narrower(CaseFlat(cs[i])[j], u)
  }

  /** Slot j is the least upper bound of the first n cases that reach it. */
  lemma {:induction false} CasesFlatIsLub(cs: seq<Case>, n: nat, j: nat)
    requires n <= |cs|
    ensures j < |CasesFlat(cs, n)| <==> exists i :: 0 <= i < n && Reaches(cs, i, j)
    ensures j < |CasesFlat(cs, n)| ==>
              forall u :: Narrower(CasesFlat(cs, n)[j], u) <==> WideEnough(cs, n, j, u)
    decreases n
  {
    if n > 0 {
      CasesFlatIsLub(cs, n - 1, j);
      var before, f := CasesFlat(cs, n - 1), CaseFlat(cs[n - 1]);
      if j < |f| {
        assert Reaches(cs, n - 1, j);
      }
      if j < |CasesFlat(cs, n)| {
        forall u
          ensures Narrower(CasesFlat(cs, n)[j], u) <==> WideEnough(cs, n, j, u)
        {
          assert WideEnough(cs, n, j, u) <==>
                 WideEnough(cs, n - 1, j, u) && (j < |f| ==> Narrower(f[j], u));
          if j >= |before| {
            assert forall i :: 0 <= i < n - 1 ==> !Reaches(cs, i, j);
          }
        }
      }
    }
  }

  /** The joined slots depend only on which cases there are, not on their order. */
  lemma CasesFlatIgnoresOrder(cs: seq<Case>, ds: seq<Case>)
    requires forall c :: c in cs <==> c in ds
    ensures CasesFlat(cs, |cs|) == CasesFlat(ds, |ds|)
  {
    var a, b := CasesFlat(cs, |cs|), CasesFlat(ds, |ds|);
    SlotBelow(cs, ds, |b|);
    SlotBelow(ds, cs, |a|);
    forall j | 0 <= j < |a|
      ensures a[j] == b[j]
    {
      SlotBelow(cs, ds, j);
      SlotBelow(ds, cs, j);
    }
  }

  lemma CaseBelow(cs: seq<Case>, ds: seq<Case>, i: nat, j: nat)
    requires i < |cs| && Reaches(cs, i, j) && cs[i] in ds
    ensures j < |CasesFlat(ds, |ds|)| && Narrower(CaseFlat(cs[i])[j], CasesFlat(ds, |ds|)[j])
  {
    hide CasesFlat, CaseFlat;
    CasesFlatIsLub(ds, |ds|, j);
    var i' :| 0 <= i' < |ds| && ds[i'] == cs[i];
    assert Reaches(ds, i', j);
    assert WideEnough(ds, |ds|, j, CasesFlat(ds, |ds|)[j]);
  }

  lemma SlotBelow(cs: seq<Case>, ds: seq<Case>, j: nat)
    requires forall c :: c in cs ==> c in ds
    ensures j < |CasesFlat(cs, |cs|)| ==> j < |CasesFlat(ds, |ds|)|
    ensures j < |CasesFlat(cs, |cs|)| ==> Narrower(CasesFlat(cs, |cs|)[j], CasesFlat(ds, |ds|)[j])
  {
    hide CasesFlat, CaseFlat;
    forall i | 0 <= i < |cs| && Reaches(cs, i, j)
      ensures j < |CasesFlat(ds, |ds|)| && Narrower(CaseFlat(cs[i])[j], CasesFlat(ds, |ds|)[j])
    {
      CaseBelow(cs, ds, i, j);
    }
    CasesFlatIsLub(cs, |cs|, j);
    if j < |CasesFlat(cs, |cs|)| {
      assert WideEnough(cs, |cs|, j, CasesFlat(ds, |ds|)[j]);
    }
  }
}
