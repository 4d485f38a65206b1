/** What each kind of type looks like in memory and in core words, in numbers: which byte or word says which
    case, where parts lie, and how wide everything is. */
module AbiStandard {
  import opened Words
  import opened Wrappers
  import opened AbiTypes
  import opened AbiValues
  import opened AbiMemory
  import opened AbiRoundTrip
  import opened AbiFlat
  import opened AbiFormat

  // ---- scalars ----

  /** The bytes of a scalar are the least of 1, 2, 4 and 8 that hold all its words. */
  lemma ScalarWidthIsLeast(p: Prim, w: nat)
    requires w == 1 || w == 2 || w == 4 || w == 8
    ensures PrimSize(p) <= w <==> forall v :: IsScalarOf(p, v) ==> LowerPrim(p, v).value < Pow256(w)
    ensures Size(PrimT(p)) == Align(PrimT(p)) == PrimSize(p)
  {
    Pow256Values();
    var big := match p
      case Bool => VBool(true)
      case U8 => VU8(0xFF)
      case U16 => VU16(0xFFFF)
      case U32 | Handle => VU32(0xFFFF_FFFF)
      case U64 => VU64(0xFFFF_FFFF_FFFF_FFFF)
      case S8 => VS8(-1)
      case S16 => VS16(-1)
      case S32 => VS32(-1)
      case S64 => VS64(-1)
      case Float32 => VF32(0xFFFF_FFFF)
      case Float64 => VF64(0xFFFF_FFFF_FFFF_FFFF)
      case Char => VS32(0x10FFFF);
    assert IsScalarOf(p, big);
    if PrimSize(p) <= w {
      forall v | IsScalarOf(p, v)
        ensures LowerPrim(p, v).value < Pow256(w)
      {
        ScalarRoundTrip(p, v);
      }
    }
  }

  /** Only floats travel in float slots, and only 8-byte scalars in 64-bit ones. */
  lemma ScalarSlot(p: Prim)
    ensures |Flat(PrimT(p))| == 1
    ensures var slot := Flat(PrimT(p))[0];
            && (slot == F32 <==> p == Float32) && (slot == F64 <==> p == Float64)
            && (slot == I64 || slot == F64 <==> Size(PrimT(p)) == 8)
  {
  }

  /** The words themselves: 0 and 1, the number, or for a negative one its two's complement. */
  lemma WordsAreNumbers(p: Prim, v: Val)
    requires IsScalarOf(p, v)
    ensures var w := LowerPrim(p, v).value;
            match v
            case VBool(b) => w == if b then 1 else 0
            case VU8(n) => w == n
            case VU16(n) => w == n
            case VU32(n) => w == n
            case VU64(n) => w == n
            case VS8(n) => w == if n < 0 then n + 0x100 else n
            case VS16(n) => w == if n < 0 then n + 0x1_0000 else n
            case VS32(n) => w == if n < 0 then n + 0x1_0000_0000 else n
            case VS64(n) => w == if n < 0 then n + 0x1_0000_0000_0000_0000 else n
            case VF32(bits) => w == bits
            case VF64(bits) => w == bits
            case _ => false
  {
    ScalarRoundTrip(p, v);
  }

  /** A char is a Unicode scalar value: no surrogate, and at most 0x10FFFF. */
  lemma CharIsScalarValue(n: s32, raw: u64)
    ensures LowerPrim(Char, VS32(n)).Some? <==> 0 <= n < 0xD800 || 0xE000 <= n < 0x11_0000
    ensures var w := raw % 0x1_0000_0000;
            LiftPrim(Char, raw) == if w < 0xD800 || 0xE000 <= w < 0x11_0000 then Some(VS32(w)) else None
  {
  }

  /** Lifting any word at all: a bool is whether its low 32 bits are not all 0, anything else the number of its
      type with the same low bytes. */
  lemma LiftedNumber(p: Prim, raw: u64)
    ensures LiftPrim(Bool, raw) == Some(VBool(raw % 0x1_0000_0000 != 0))
    ensures LiftPrim(p, raw).Some? && p != Bool ==>
              IsScalarOf(p, LiftPrim(p, raw).value)
              && (Number(LiftPrim(p, raw).value) - raw) % Pow256(PrimSize(p)) == 0
  {
    Pow256Values();
    LiftedScalarIsTyped(p, raw);
    var m := Pow256(PrimSize(p));
    var r := raw % m;
    assert raw == (raw / m) * m + r;
    if p != Bool && LiftPrim(p, raw).Some? {
      var n := Number(LiftPrim(p, raw).value);
      assert n == r || n == r - m;
      Congruent(raw, m, n);
    }
  }

  lemma Congruent(raw: nat, m: nat, n: int)
    requires m > 0 && (n == raw % m || n == raw % m - m)
    ensures (n - raw) % m == 0
  {
    var q := raw / m;
    assert raw == q * m + raw % m;
    if n == raw % m {
      assert -q * m == n - raw;
      DivModUnique(n - raw, m, -q, 0);
    } else {
      assert (-q - 1) * m == -q * m - m;
      DivModUnique(n - raw, m, -q - 1, 0);
    }
  }

  /** What Load makes of a scalar's bytes: only a bool may have come from others than Store writes. */
  lemma ScalarLoads(m: seq<byte>, p: Prim, ptr: nat)
    ensures LoadF(m, PrimT(Bool), ptr) == if ptr < |m| then Some(VBool(m[ptr] != 0)) else None
    ensures var r := LoadF(m, PrimT(p), ptr);
            && (r.Some? ==> ptr + PrimSize(p) <= |m| && IsScalarOf(p, r.value))
            && (r.None? ==> ptr + PrimSize(p) > |m| || p == Char)
            && (r.Some? && p != Bool ==>
                  forall i :: 0 <= i < PrimSize(p) ==> m[ptr + i] == Digit(Number(r.value), i))
  {
    hide LE, FromLE, Digit, Number, Pow256;
    OneByte(m, ptr);
    var w := PrimSize(p);
    if ptr + w <= |m| {
      var raw := FromLE(m[ptr..ptr + w]);
      LiftedScalarIsTyped(p, raw);
      if p != Bool && LiftPrim(p, raw).Some? {
        LiftsToDigits(p, m[ptr..ptr + w]);
      }
    }
  }

  lemma OneByte(m: seq<byte>, ptr: nat)
    ensures ReadLE(m, ptr, 1) == if ptr < |m| then Some(m[ptr] as nat) else None
  {
    if ptr < |m| {
      assert m[ptr..ptr + 1] == [m[ptr]];
    }
  }

  /** The bytes of a word are the digits of the scalar it lifts to. */
  lemma LiftsToDigits(p: Prim, s: seq<byte>)
    requires p != Bool && |s| == PrimSize(p) && LiftPrim(p, FromLE(s)).Some?
    ensures forall i :: 0 <= i < |s| ==> s[i] == Digit(Number(LiftPrim(p, FromLE(s)).value), i)
  {
    hide LE, FromLE, Digit, Number, LiftPrim;
    var raw := FromLE(s);
    var n := Number(LiftPrim(p, raw).value);
    Pow256Values();
    LiftedNumber(p, raw);
    LEOfFromLE(s);
    SameResidue(n, raw, Pow256(|s|));
    forall i | 0 <= i < |s|
      ensures s[i] == Digit(n, i)
    {
      LEDigits(n, |s|, i);
    }
  }

  lemma SameResidue(n: int, raw: nat, m: nat)
    requires m > 0 && raw < m && (n - raw) % m == 0
    ensures n % m == raw
  {
    var q := (n - raw) / m;
    assert n - raw == q * m;
    DivModUnique(n, m, q, raw);
  }

  // ---- the width of a discriminant ----

  /** The least of 1, 2 and 4 bytes that number the cases from 0 on. */
  lemma DiscIsLeast(n: nat)
    requires 0 < n <= 0x1_0000_0000
    ensures n <= 0x100 ==> DiscSize(n) == 1
    ensures 0x100 < n <= 0x1_0000 ==> DiscSize(n) == 2
    ensures 0x1_0000 < n ==> DiscSize(n) == 4
    ensures Size(EnumT(n)) == Align(EnumT(n)) == DiscSize(n) && Flat(EnumT(n)) == [I32]
    ensures forall w :: w == 1 || w == 2 || w == 4 ==> (n <= Pow256(w) <==> DiscSize(n) <= w)
  {
    Pow256Values();
  }

  /** The number in w little-endian bytes at ptr. */
  function Number32(m: seq<byte>, ptr: nat, w: nat): nat
    requires ptr + w <= |m| && (w == 1 || w == 2 || w == 4)
  {
    var low: nat := m[ptr];
    if w == 1 then low
    else if w == 2 then low + 0x100 * (m[ptr + 1] as int)
    else low + 0x100 * (m[ptr + 1] as int) + 0x1_0000 * (m[ptr + 2] as int) + 0x100_0000 * (m[ptr + 3] as int)
  }

  lemma ReadsNumber(m: seq<byte>, ptr: nat, w: nat)
    requires w == 1 || w == 2 || w == 4
    ensures ReadLE(m, ptr, w) == if ptr + w <= |m| then Some(Number32(m, ptr, w)) else None
  {
    if ptr + w <= |m| {
      var s := m[ptr..ptr + w];
      FromBytes(s);
      forall i | 0 <= i < w
        ensures s[i] == m[ptr + i]
      {
      }
    }
  }

  lemma FromBytes(s: seq<byte>)
    ensures |s| == 1 ==> FromLE(s) == s[0]
    ensures |s| == 2 ==> FromLE(s) == (s[0] as int) + 0x100 * (s[1] as int)
    ensures |s| == 4 ==>
              FromLE(s) == (s[0] as int) + 0x100 * (s[1] as int) + 0x1_0000 * (s[2] as int) + 0x100_0000 * (s[3] as int)
  {
    if |s| > 1 {
      var t := s[1..];
      assert FromLE(s) == s[0] + 256 * FromLE(t);
      if |s| == 4 {
        assert FromLE(t) == t[0] + 256 * FromLE(t[1..]);
        assert FromLE(t[1..]) == t[1] + 256 * FromLE(t[1..][1..]);
      }
    }
  }

  /** Reading a discriminant: one byte for up to 256 cases, two for up to 65536, four beyond. */
  lemma DiscIsRead(m: seq<byte>, ptr: nat, n: nat)
    ensures var w := if n <= 256 then 1 else if n <= 65536 then 2 else 4;
            ReadDisc(m, ptr, n) == if ptr + w <= |m| then Some(Number32(m, ptr, w)) else None
  {
    hide FromLE;
    ReadsNumber(m, ptr, 1);
    ReadsNumber(m, ptr, 2);
    ReadsNumber(m, ptr, 4);
  }

  /** An enum is its case number in those bytes, */
  lemma EnumLoads(m: seq<byte>, n: nat, ptr: nat)
    requires 0 < n < TWO32
    ensures var w := if n <= 256 then 1 else if n <= 65536 then 2 else 4;
            && (ptr + w <= |m| && Number32(m, ptr, w) < n ==>
                  LoadF(m, EnumT(n), ptr) == Some(VU32(Number32(m, ptr, w))))
            && (!(ptr + w <= |m| && Number32(m, ptr, w) < n) ==> LoadF(m, EnumT(n), ptr) == None)
  {
    DiscIsRead(m, ptr, n);
  }

  /** and Store writes those and no others. */
  lemma EnumStores(alloc: Alloc, h: Heap, n: nat, ptr: nat, d: u32)
    requires 0 < n < TWO32 && d < n
    ensures var w := if n <= 256 then 1 else if n <= 65536 then 2 else 4;
            var (h2, ok) := StoreF(alloc, h, EnumT(n), ptr, VU32(d));
            && (ok <==> ptr + w <= |h.mem|)
            && h2 == h.(mem := h2.mem) && |h2.mem| == |h.mem|
            && (ok ==> Number32(h2.mem, ptr, w) == d)
            && (forall a :: 0 <= a < |h.mem| && !(ptr <= a < ptr + w) ==> h2.mem[a] == h.mem[a])
  {
    hide LE, FromLE;
    Pow256Values();
    var w := DiscSize(n);
    var (h2, ok) := StoreF(alloc, h, EnumT(n), ptr, VU32(d));
    if ok {
      FromLEOfLE(d, w);
      assert h2.mem[ptr..ptr + w] == LE(d, w);
      ReadsNumber(h2.mem, ptr, w);
    }
  }

  // ---- which case is which ----

  /** An ok goes under case 0 and an error under case 1; none is case 0, some is case 1; a variant says its case.
      Payload-less cases take anything. */
  lemma CasesAccept(ok: Case, err: Case, t: Ty, cs: seq<Case>, v: Val)
    ensures Accepts(VariantT(KindResult, [ok, err]), v) <==> v.VRes? && CaseAccepts(if v.isErr then err else ok, v.val)
    ensures Accepts(VariantT(KindOption, [NoPayload, Payload(t)]), v) <==> v.VOpt? && (v.some ==> Accepts(t, v.val))
    ensures Accepts(VariantT(KindVariant, cs), v) <==> v.VVar? && v.index < |cs| && CaseAccepts(cs[v.index], v.val)
  {
  }

  /** Every string below 2^32 bytes is acceptable, every byte string as a list of u8, every enum case there is,
      and a list or a record exactly when its parts are. */
  lemma PlainAccepts(e: Ty, fs: seq<Ty>, n: nat, v: Val)
    ensures Accepts(StringT, v) <==> v.VString? && |v.text| < 0x1_0000_0000
    ensures Accepts(EnumT(n), v) <==> v.VU32? && v.a32 < n
    ensures Accepts(ListT(PrimT(U8)), v) <==> v.VBytes?
    ensures e != PrimT(U8) ==>
              (Accepts(ListT(e), v) <==> v.VSlice? && forall i :: 0 <= i < |v.elems| ==> Accepts(e, v.elems[i]))
    ensures Accepts(RecordT(fs), v) <==>
              v.VSlice? && |v.elems| == |fs| && forall i :: 0 <= i < |fs| ==> Accepts(fs[i], v.elems[i])
  {
  }

  /** The payload of case c, if it has one, behind the discriminant. */
  function PayloadAt(m: seq<byte>, cs: seq<Case>, c: Case, ptr: nat): Option<Val> {
    if c.Payload? then LoadF(m, c.ty, (ptr + PayloadOffset(cs)) % 0x1_0000_0000) else Some(Nil)
  }

  lemma PayloadIsAt(m: seq<byte>, cs: seq<Case>, c: Case, ptr: nat)
    ensures LoadCase(m, c, PayloadAddr(cs, ptr)) == PayloadAt(m, cs, c, ptr)
  {
  }

  lemma LoadVariantIs(m: seq<byte>, k: VariantKind, cs: seq<Case>, ptr: nat)
    ensures LoadF(m, VariantT(k, cs), ptr) ==
              match ReadDisc(m, ptr, |cs|)
              case None => None
              case Some(d) =>
                if d >= |cs| || PayloadAt(m, cs, cs[d], ptr).None? then None
                else Some(Wrap(k, d, PayloadAt(m, cs, cs[d], ptr).value))
  {
    hide LoadCase, ReadDisc, PayloadAddr;
    if ReadDisc(m, ptr, |cs|).Some? && ReadDisc(m, ptr, |cs|).value < |cs| {
      PayloadIsAt(m, cs, cs[ReadDisc(m, ptr, |cs|).value], ptr);
    }
  }

  /** Byte 0 loads as ok and byte 1 as error, and no other byte as a result. */
  lemma ResultLoads(m: seq<byte>, ok: Case, err: Case, ptr: nat)
    ensures var cs := [ok, err];
            var r := LoadF(m, VariantT(KindResult, cs), ptr);
            if ptr < |m| && m[ptr] == 0 && PayloadAt(m, cs, ok, ptr).Some? then
              r == Some(VRes(false, PayloadAt(m, cs, ok, ptr).value))
            else if ptr < |m| && m[ptr] == 1 && PayloadAt(m, cs, err, ptr).Some? then
              r == Some(VRes(true, PayloadAt(m, cs, err, ptr).value))
            else r == None
  {
    hide LoadF, ReadDisc, PayloadAt;
    DiscIsRead(m, ptr, 2);
    LoadVariantIs(m, KindResult, [ok, err], ptr);
  }

  /** Byte 0 loads as none and byte 1 as some. */
  lemma OptionLoads(m: seq<byte>, t: Ty, ptr: nat)
    ensures var cs := [NoPayload, Payload(t)];
            var r := LoadF(m, VariantT(KindOption, cs), ptr);
            if ptr < |m| && m[ptr] == 0 then r == Some(VOpt(false, Nil))
            else if ptr < |m| && m[ptr] == 1 && PayloadAt(m, cs, cs[1], ptr).Some? then
              r == Some(VOpt(true, PayloadAt(m, cs, cs[1], ptr).value))
            else r == None
  {
    hide LoadF, ReadDisc;
    DiscIsRead(m, ptr, 2);
    LoadVariantIs(m, KindOption, [NoPayload, Payload(t)], ptr);
  }

  /** A variant's number in one, two or four bytes loads as that case. */
  lemma VariantLoads(m: seq<byte>, cs: seq<Case>, ptr: nat)
    ensures var w := if |cs| <= 256 then 1 else if |cs| <= 65536 then 2 else 4;
            var r := LoadF(m, VariantT(KindVariant, cs), ptr);
            if ptr + w <= |m| && Number32(m, ptr, w) < |cs| then
              var d := Number32(m, ptr, w);
              r == (if PayloadAt(m, cs, cs[d], ptr).None? then None
                    else Some(VVar(d, PayloadAt(m, cs, cs[d], ptr).value)))
            else r == None
  {
    hide LoadF, ReadDisc, PayloadAt, Number32;
    DiscIsRead(m, ptr, |cs|);
    LoadVariantIs(m, KindVariant, cs, ptr);
  }

  /** What Store leaves at ptr says the case. */
  lemma CaseIsStored(alloc: Alloc, h: Heap, k: VariantKind, cs: seq<Case>, ptr: u32, v: Val)
    requires GoodAlloc(alloc) && GoodHeap(h) && Built(VariantT(k, cs)) && Sized(VariantT(k, cs), v)
    requires Area(ptr, Size(VariantT(k, cs))) <= h.live
    ensures var (h2, ok) := StoreF(alloc, h, VariantT(k, cs), ptr, v);
            var w := if |cs| <= 256 then 1 else if |cs| <= 65536 then 2 else 4;
            ok ==>
              && ptr + w <= |h2.mem|
              && match v
                 case VRes(isErr, _) => h2.mem[ptr] == if isErr then 1 else 0
                 case VOpt(some, _) => h2.mem[ptr] == if some then 1 else 0
                 case VVar(d, _) => Number32(h2.mem, ptr, w) == d
                 case _ => false
  {
    hide StoreF, LoadF, Size, Accepts, Norm, PayloadAt, Kept, Within, Sized, GoodAlloc, ReadDisc;
    var t := VariantT(k, cs);
    StoreLoads(alloc, h, t, ptr, v);
    var (h2, ok) := StoreF(alloc, h, t, ptr, v);
    if ok {
      assert Accepts(t, v) && LoadF(h2.mem, t, ptr) == Some(Norm(t, v));
      DiscIsRead(h2.mem, ptr, |cs|);
      LoadVariantIs(h2.mem, k, cs, ptr);
      NormNames(k, cs, v);
    }
  }

  /** Erasing unwritten payloads keeps the case. */
  lemma NormNames(k: VariantKind, cs: seq<Case>, v: Val)
    requires Accepts(VariantT(k, cs), v)
    ensures match v
            case VRes(isErr, _) => k == KindResult && Norm(VariantT(k, cs), v).VRes?
                                   && Norm(VariantT(k, cs), v).isErr == isErr
            case VOpt(some, _) => k == KindOption && Norm(VariantT(k, cs), v).VOpt?
                                  && Norm(VariantT(k, cs), v).some == some
            case VVar(d, _) => k == KindVariant && Norm(VariantT(k, cs), v).VVar?
                               && Norm(VariantT(k, cs), v).index == d
            case _ => false
  {
  }

  // ---- and in core words ----

  /** A scalar and an enum lower to one word, when the value is one of the type, without the allocator; a string
      to the words of its header. */
  lemma PlainLowers(alloc: Alloc, h: Heap, p: Prim, n: nat, v: Val)
    ensures LowerF(alloc, h, PrimT(p), v) == (h, if IsScalarOf(p, v) then Some([LowerPrim(p, v).value]) else None)
    ensures LowerF(alloc, h, EnumT(n), v) == (h, if v.VU32? && v.a32 < n then Some([v.a32]) else None)
    ensures v.VString? ==>
              var (h2, r) := LowerString(alloc, h, v.text);
              LowerF(alloc, h, StringT, v) == (h2, if r.Some? then Some([r.value.0, r.value.1]) else None)
    ensures !v.VString? ==> LowerF(alloc, h, StringT, v) == (h, None)
  {
    ScalarRoundTrip(p, v);
  }

  /** The words of case c's payload. */
  function PayloadWords(alloc: Alloc, h: Heap, c: Case, x: Val): (Heap, Option<seq<u64>>) {
    if c.Payload? then LowerF(alloc, h, c.ty, x) else (h, Some([]))
  }

  /** The words are the case's number, the payload's words, and zeros up to the flat width. */
  ghost predicate SaysThen(words: seq<u64>, n: nat, d: nat, payload: seq<u64>) {
    |words| == n > 0 && words[0] == d
    && forall j :: 1 <= j < n ==> words[j] == if j - 1 < |payload| then payload[j - 1] else 0
  }

  /** What lowering a value under case number d gives. */
  ghost predicate LowersTo(alloc: Alloc, h: Heap, t: Ty, v: Val, d: nat, c: Case, x: Val) {
    var (h1, payload) := PayloadWords(alloc, h, c, x);
    var (h2, r) := LowerF(alloc, h, t, v);
    h2 == h1 && r.Some? == payload.Some? && (r.Some? ==> SaysThen(r.value, |Flat(t)|, d, payload.value))
  }

  lemma LowerVariantIs(alloc: Alloc, h: Heap, k: VariantKind, cs: seq<Case>, v: Val)
    requires k != KindVariant ==> |cs| == 2
    ensures Unwrap(k, |cs|, v).Some? ==>
              var (d, x) := Unwrap(k, |cs|, v).value;
              LowersTo(alloc, h, VariantT(k, cs), v, d, cs[d], x)
  {
    hide CasesFlat, LowerCase;
    if Unwrap(k, |cs|, v).Some? {
      var (d, x) := Unwrap(k, |cs|, v).value;
      WordsAreOf(alloc, h, cs[d], x);
      var (h1, payload) := LowerCase(alloc, h, cs[d], x);
      assert LowerF(alloc, h, VariantT(k, cs), v) == LowerVariant(alloc, h, k, cs, v);
      assert PayloadWords(alloc, h, cs[d], x) == (h1, payload);
      if payload.Some? {
        var n := |CasesFlat(cs, |cs|)|;
        var words := [d] + Padded(payload.value, n);
        assert forall j :: 1 <= j < |words| ==> words[j] == Padded(payload.value, n)[j - 1];
        assert SaysThen(words, 1 + n, d, payload.value);
        assert LowerVariant(alloc, h, k, cs, v).1 == Some(words);
      }
    }
  }

  lemma WordsAreOf(alloc: Alloc, h: Heap, c: Case, x: Val)
    ensures LowerCase(alloc, h, c, x) == PayloadWords(alloc, h, c, x)
  {
  }

  /** An ok is number 0 and an error number 1, */
  lemma ResultLowers(alloc: Alloc, h: Heap, ok: Case, err: Case, x: Val)
    ensures LowersTo(alloc, h, VariantT(KindResult, [ok, err]), VRes(false, x), 0, ok, x)
    ensures LowersTo(alloc, h, VariantT(KindResult, [ok, err]), VRes(true, x), 1, err, x)
  {
    hide LowersTo;
    LowerVariantIs(alloc, h, KindResult, [ok, err], VRes(false, x));
    LowerVariantIs(alloc, h, KindResult, [ok, err], VRes(true, x));
  }

  /** none is 0 and some 1, */
  lemma OptionLowers(alloc: Alloc, h: Heap, t: Ty, x: Val)
    ensures LowersTo(alloc, h, VariantT(KindOption, [NoPayload, Payload(t)]), VOpt(false, x), 0, NoPayload, Nil)
    ensures LowersTo(alloc, h, VariantT(KindOption, [NoPayload, Payload(t)]), VOpt(true, x), 1, Payload(t), x)
  {
    hide LowersTo;
    LowerVariantIs(alloc, h, KindOption, [NoPayload, Payload(t)], VOpt(false, x));
    LowerVariantIs(alloc, h, KindOption, [NoPayload, Payload(t)], VOpt(true, x));
  }

  /** and a variant's case is what it says. */
  lemma VariantLowers(alloc: Alloc, h: Heap, cs: seq<Case>, d: u32, x: Val)
    requires d < |cs|
    ensures LowersTo(alloc, h, VariantT(KindVariant, cs), VVar(d, x), d, cs[d], x)
  {
    hide LowersTo;
    LowerVariantIs(alloc, h, KindVariant, cs, VVar(d, x));
  }

  /** The payload of case c from the words behind the discriminant; those the case does not use are skipped. */
  function PayloadOf(m: seq<byte>, c: Case, s: seq<u64>): Option<Val> {
    if c.NoPayload? then Some(Nil)
    else match LiftF(m, c.ty, s, 0) case Some((x, _)) => Some(x) case None => None
  }

  /** A scalar lifts from one word; a string, a list of u8 and an enum from the low 32 bits of theirs. */
  lemma PlainLifts(m: seq<byte>, p: Prim, n: nat, s: seq<u64>, pos: nat)
    ensures LiftF(m, PrimT(p), s, pos) ==
              if pos < |s| && LiftPrim(p, s[pos]).Some? then Some((LiftPrim(p, s[pos]).value, pos + 1)) else None
    ensures LiftF(m, EnumT(n), s, pos) ==
              if pos < |s| && s[pos] % 0x1_0000_0000 < n then Some((VU32(s[pos] % 0x1_0000_0000), pos + 1)) else None
    ensures var text, bytes := LiftF(m, StringT, s, pos), LiftF(m, ListT(PrimT(U8)), s, pos);
            if pos + 2 > |s| then text == None && bytes == None
            else
              var a, len := s[pos] % 0x1_0000_0000, s[pos + 1] % 0x1_0000_0000;
              if len == 0 then text == Some((VString([]), pos + 2)) && bytes == Some((VBytes([]), pos + 2))
              else if a + len <= |m| then
                text == Some((VString(m[a..a + len]), pos + 2)) && bytes == Some((VBytes(m[a..a + len]), pos + 2))
              else text == None && bytes == None
  {
  }

  lemma LiftVariantIs(m: seq<byte>, k: VariantKind, cs: seq<Case>, s: seq<u64>, pos: nat)
    ensures var n := |Flat(VariantT(k, cs))|;
            var r := LiftF(m, VariantT(k, cs), s, pos);
            if pos + n > |s| || s[pos] % 0x1_0000_0000 >= |cs| then r == None
            else
              var d, rest := s[pos] % 0x1_0000_0000, s[pos + 1..pos + n];
              r == (if PayloadOf(m, cs[d], rest).None? then None
                    else Some((Wrap(k, d, PayloadOf(m, cs[d], rest).value), pos + n)))
  {
    hide LiftCase, CasesFlat;
    if pos + |Flat(VariantT(k, cs))| <= |s| && s[pos] % TWO32 < |cs| {
      CaseIsOf(m, cs[s[pos] % TWO32], s[pos + 1..pos + |Flat(VariantT(k, cs))|]);
    }
  }

  lemma CaseIsOf(m: seq<byte>, c: Case, s: seq<u64>)
    ensures LiftCase(m, c, s) == PayloadOf(m, c, s)
  {
  }

  /** The low 32 bits 0 lift as ok and 1 as error, and nothing else as a result; as many words are taken as the
      type has slots. */
  lemma ResultLifts(m: seq<byte>, ok: Case, err: Case, s: seq<u64>, pos: nat)
    ensures var t := VariantT(KindResult, [ok, err]);
            var n := |Flat(t)|;
            var r := LiftF(m, t, s, pos);
            if pos + n > |s| then r == None
            else
              var d, rest := s[pos] % 0x1_0000_0000, s[pos + 1..pos + n];
              if d == 0 && PayloadOf(m, ok, rest).Some? then
                r == Some((VRes(false, PayloadOf(m, ok, rest).value), pos + n))
              else if d == 1 && PayloadOf(m, err, rest).Some? then
                r == Some((VRes(true, PayloadOf(m, err, rest).value), pos + n))
              else r == None
  {
    hide LiftF, Flat, PayloadOf;
    LiftVariantIs(m, KindResult, [ok, err], s, pos);
  }

  lemma OptionLifts(m: seq<byte>, t: Ty, s: seq<u64>, pos: nat)
    ensures var o := VariantT(KindOption, [NoPayload, Payload(t)]);
            var n := |Flat(o)|;
            var r := LiftF(m, o, s, pos);
            if pos + n > |s| then r == None
            else
              var d, rest := s[pos] % 0x1_0000_0000, s[pos + 1..pos + n];
              if d == 0 then r == Some((VOpt(false, Nil), pos + n))
              else if d == 1 && PayloadOf(m, Payload(t), rest).Some? then
                r == Some((VOpt(true, PayloadOf(m, Payload(t), rest).value), pos + n))
              else r == None
  {
    hide LiftF, Flat;
    LiftVariantIs(m, KindOption, [NoPayload, Payload(t)], s, pos);
  }

  lemma VariantLifts(m: seq<byte>, cs: seq<Case>, s: seq<u64>, pos: nat)
    ensures var t := VariantT(KindVariant, cs);
            var n := |Flat(t)|;
            var r := LiftF(m, t, s, pos);
            if pos + n > |s| || s[pos] % 0x1_0000_0000 >= |cs| then r == None
            else
              var d, rest := s[pos] % 0x1_0000_0000, s[pos + 1..pos + n];
              r == (if PayloadOf(m, cs[d], rest).None? then None
                    else Some((VVar(d, PayloadOf(m, cs[d], rest).value), pos + n)))
  {
    hide LiftF, Flat, PayloadOf;
    LiftVariantIs(m, KindVariant, cs, s, pos);
  }

  // ---- where parts lie ----

  /** x is the least multiple of a from `from` on. */
  ghost predicate LeastMultiple(x: nat, from: nat, a: nat)
    requires a > 0
  {
    x % a == 0 && from <= x && forall m: nat :: from <= m && m % a == 0 ==> x <= m
  }

  /** The first field is at 0, each later one at the least aligned offset after the one before; the record ends
      at the least multiple of its alignment, which is the greatest of its fields' and at least 1. */
  lemma RecordIsLaidOut(fs: seq<Ty>, a: int)
    ensures forall i :: 0 <= i < |fs| ==>
              LeastMultiple(Offset(fs, i), if i == 0 then 0 else Offset(fs, i - 1) + Size(fs[i - 1]), Align(fs[i]))
    ensures var end := if |fs| == 0 then 0 else Offset(fs, |fs| - 1) + Size(fs[|fs| - 1]);
            LeastMultiple(Size(RecordT(fs)), end, Align(RecordT(fs)))
    ensures IsAlign(a) ==>
              (Align(RecordT(fs)) <= a <==> forall i :: 0 <= i < |fs| ==> Align(fs[i]) <= a)
  {
    hide Size, Align, Offset, FieldsAlign, FieldsEnd, LeastMultiple;
    forall i | 0 <= i < |fs|
      ensures LeastMultiple(Offset(fs, i), if i == 0 then 0 else Offset(fs, i - 1) + Size(fs[i - 1]), Align(fs[i]))
    {
      FieldIsPlaced(fs, i);
      EndIs(fs, i);
    }
    RecordEnds(fs);
    EndIs(fs, |fs|);
    if IsAlign(a) {
      FieldsAlignIsGreatest(fs, |fs|, a);
    }
  }

  lemma FieldIsPlaced(fs: seq<Ty>, i: nat)
    requires i < |fs|
    ensures LeastMultiple(Offset(fs, i), FieldsEnd(fs, i), Align(fs[i]))
  {
    hide RoundUp, FieldsEnd, Align;
    RoundUpIsLeast(FieldsEnd(fs, i), Align(fs[i]));
  }

  lemma EndIs(fs: seq<Ty>, i: nat)
    requires i <= |fs|
    ensures FieldsEnd(fs, i) == if i == 0 then 0 else Offset(fs, i - 1) + Size(fs[i - 1])
  {
    hide RoundUp, Align, Size;
  }

  lemma RecordEnds(fs: seq<Ty>)
    ensures LeastMultiple(Size(RecordT(fs)), FieldsEnd(fs, |fs|), Align(RecordT(fs)))
    ensures Align(RecordT(fs)) == FieldsAlign(fs, |fs|)
  {
    hide RoundUp, FieldsAlign, FieldsEnd;
    RoundUpIsLeast(FieldsEnd(fs, |fs|), FieldsAlign(fs, |fs|));
  }

  lemma {:induction false} FieldsAlignIsGreatest(fs: seq<Ty>, n: nat, a: int)
    requires n <= |fs| && IsAlign(a)
    ensures FieldsAlign(fs, n) <= a <==> forall i :: 0 <= i < n ==> Align(fs[i]) <= a
    decreases n
  {
    if n > 0 {
      FieldsAlignIsGreatest(fs, n - 1, a);
    }
  }

  /** The payload of a variant is at the least offset after the discriminant that every payload's alignment
      allows; the variant ends at the least multiple of its alignment that holds the longest payload. */
  lemma VariantIsLaidOut(k: VariantKind, cs: seq<Case>, a: int, n: nat)
    ensures var w := if |cs| <= 256 then 1 else if |cs| <= 65536 then 2 else 4;
            && LeastMultiple(PayloadOffset(cs), w, CasesAlign(cs, |cs|))
            && (IsAlign(a) ==>
                  (CasesAlign(cs, |cs|) <= a <==>
                     forall i :: 0 <= i < |cs| && cs[i].Payload? ==> Align(cs[i].ty) <= a))
            && Align(VariantT(k, cs)) == (if w < CasesAlign(cs, |cs|) then CasesAlign(cs, |cs|) else w)
    ensures Size(VariantT(k, cs)) % Align(VariantT(k, cs)) == 0
    ensures n % Align(VariantT(k, cs)) == 0 ==>
              (Size(VariantT(k, cs)) <= n <==>
                 PayloadOffset(cs) <= n
                 && forall i :: 0 <= i < |cs| && cs[i].Payload? ==> PayloadOffset(cs) + Size(cs[i].ty) <= n)
  {
    hide RoundUp, CasesAlign, CasesSize;
    RoundUpIsLeast(DiscSize(|cs|), CasesAlign(cs, |cs|));
    RoundUpIsLeast(PayloadOffset(cs) + CasesSize(cs, |cs|), VariantAlign(cs));
    if IsAlign(a) {
      CasesAlignIsGreatest(cs, |cs|, a);
    }
    CasesSizeIsGreatest(cs, |cs|, if n < PayloadOffset(cs) then 0 else n - PayloadOffset(cs));
    assert CasesSize(cs, |cs|) >= 0;
  }

  lemma {:induction false} CasesAlignIsGreatest(cs: seq<Case>, n: nat, a: int)
    requires n <= |cs| && IsAlign(a)
    ensures CasesAlign(cs, n) <= a <==> forall i :: 0 <= i < n && cs[i].Payload? ==> Align(cs[i].ty) <= a
    decreases n
  {
    if n > 0 {
      CasesAlignIsGreatest(cs, n - 1, a);
    }
  }

  lemma {:induction false} CasesSizeIsGreatest(cs: seq<Case>, n: nat, b: nat)
    requires n <= |cs|
    ensures CasesSize(cs, n) <= b <==> forall i :: 0 <= i < n && cs[i].Payload? ==> Size(cs[i].ty) <= b
    decreases n
  {
    if n > 0 {
      CasesSizeIsGreatest(cs, n - 1, b);
    }
  }

  /** A string or a list is an address and a length, eight bytes and two words; a list's elements follow one
      another at the element size, a record's fields and a variant's payload lie at their offsets, all modulo
      2^32. */
  lemma Addresses(e: Ty, fs: seq<Ty>, cs: seq<Case>, ptr: u32, i: nat)
    ensures Size(StringT) == Size(ListT(e)) == 8 && Align(StringT) == Align(ListT(e)) == 4
    ensures Flat(StringT) == Flat(ListT(e)) == [I32, I32]
    ensures ElemAddr(e, ptr, i) == (ptr + i * Size(e)) % 0x1_0000_0000
    ensures i < |fs| ==> FieldAddr(fs, ptr, i) == (ptr + Offset(fs, i)) % 0x1_0000_0000
    ensures PayloadAddr(cs, ptr) == (ptr + PayloadOffset(cs)) % 0x1_0000_0000
  {
    SizeIsAligned(e);
    TimesIsProduct(i, Size(e));
  }

  /** The slots of two records side by side, and of a record of one field. */
  lemma {:induction false} RecordSlots(fs: seq<Ty>, gs: seq<Ty>, t: Ty)
    ensures Flat(RecordT(fs + gs)) == Flat(RecordT(fs)) + Flat(RecordT(gs))
    ensures Flat(RecordT([t])) == Flat(t) && Flat(RecordT([])) == []
    decreases |gs|
  {
    FieldsFlatOfTwo(fs, gs, |gs|);
    assert (fs + gs)[..|fs + gs|] == fs + gs;
    assert FieldsFlat([t], 1) == FieldsFlat([t], 0) + Flat(t);
  }

  lemma {:induction false} FieldsFlatOfTwo(fs: seq<Ty>, gs: seq<Ty>, n: nat)
    requires n <= |gs|
    ensures FieldsFlat(fs + gs, |fs| + n) == FieldsFlat(fs, |fs|) + FieldsFlat(gs, n)
    decreases n
  {
    hide Flat;
    if n == 0 {
      FieldsFlatOfFirst(fs, gs, |fs|);
    } else {
      FieldsFlatOfTwo(fs, gs, n - 1);
      assert (fs + gs)[|fs| + n - 1] == gs[n - 1];
    }
  }

  lemma {:induction false} FieldsFlatOfFirst(fs: seq<Ty>, gs: seq<Ty>, n: nat)
    requires n <= |fs|
    ensures FieldsFlat(fs + gs, n) == FieldsFlat(fs, n)
    decreases n
  {
    hide Flat;
    if n > 0 {
      FieldsFlatOfFirst(fs, gs, n - 1);
    }
  }

  /** join, pair by pair. */
  lemma JoinTable(a: CoreType, b: CoreType)
    ensures Join(a, a) == a
    ensures Join(I32, F32) == Join(F32, I32) == I32
    ensures a != b && (a == I64 || a == F64 || b == I64 || b == F64) ==> Join(a, b) == I64
  {
  }

  // Some descriptors of the plugin interface, with the numbers its tools give.

  lemma KeyInfoLayout()
    ensures var keyInfo := RecordT([StringT, PrimT(S64), PrimT(S64), PrimT(Bool)]);
            Size(keyInfo) == 32 && Align(keyInfo) == 8 && Flat(keyInfo) == [I32, I32, I64, I64, I32]
  {
    hide FieldsEnd, FieldsAlign, FieldsFlat;
    var fs := [StringT, PrimT(S64), PrimT(S64), PrimT(Bool)];
    OneMore(fs, 0);
    assert FieldsEnd(fs, 1) == 8 && FieldsAlign(fs, 1) == 4 && FieldsFlat(fs, 1) == [I32, I32];
    OneMore(fs, 1);
    assert FieldsEnd(fs, 2) == 16 && FieldsAlign(fs, 2) == 8 && FieldsFlat(fs, 2) == [I32, I32, I64];
    OneMore(fs, 2);
    assert FieldsEnd(fs, 3) == 24 && FieldsAlign(fs, 3) == 8 && FieldsFlat(fs, 3) == [I32, I32, I64, I64];
    OneMore(fs, 3);
    assert FieldsEnd(fs, 4) == 25 && FieldsAlign(fs, 4) == 8;
  }

  /** A record's layout, field by field. */
  lemma OneMore(fs: seq<Ty>, i: nat)
    requires i < |fs|
    ensures FieldsEnd(fs, 0) == 0 && FieldsAlign(fs, 0) == 1 && FieldsFlat(fs, 0) == []
    ensures FieldsEnd(fs, i + 1) == RoundUp(FieldsEnd(fs, i), Align(fs[i])) + Size(fs[i])
    ensures FieldsAlign(fs, i + 1) == Max(FieldsAlign(fs, i), Align(fs[i]))
    ensures FieldsFlat(fs, i + 1) == FieldsFlat(fs, i) + Flat(fs[i])
  {
    hide RoundUp, Size, Align, Flat;
  }

  lemma ResultLayout()
    ensures var result := VariantT(KindResult, [Payload(PrimT(U64)), Payload(StringT)]);
            Size(result) == 16 && Align(result) == 8 && Flat(result) == [I32, I64, I32]
  {
  }

  lemma StatusLayout()
    ensures var status := VariantT(KindOption, [NoPayload, Payload(PrimT(U16))]);
            Size(status) == 4 && Align(status) == 2 && Flat(status) == [I32, I32]
  {
  }

  lemma PluginErrorLayout()
    ensures var pluginError := RecordT([StringT, VariantT(KindOption, [NoPayload, Payload(PrimT(U16))])]);
            Size(pluginError) == 12 && Align(pluginError) == 4 && Flat(pluginError) == [I32, I32, I32, I32]
  {
    hide FieldsEnd, FieldsAlign, FieldsFlat, CasesSize, CasesAlign, CasesFlat;
    var fs := [StringT, VariantT(KindOption, [NoPayload, Payload(PrimT(U16))])];
    StatusLayout();
    OneMore(fs, 0);
    OneMore(fs, 1);
    assert FieldsEnd(fs, 2) == 12 && FieldsAlign(fs, 2) == 4;
  }

  // ---- strings, lists and records in memory ----

  /** The two words of a header, the second 4 bytes after the first modulo 2^32. */
  function HeaderAt(m: seq<byte>, ptr: nat): Option<(u32, u32)> {
    var next := (ptr + 4) % 0x1_0000_0000;
    if ptr + 4 <= |m| && next + 4 <= |m| then Some((Number32(m, ptr, 4), Number32(m, next, 4))) else None
  }

  lemma HeaderIsRead(m: seq<byte>, ptr: nat)
    ensures ReadHeader(m, ptr) == HeaderAt(m, ptr)
  {
    hide FromLE, Number32;
    Pow256Values();
    ReadsNumber(m, ptr, 4);
    ReadsNumber(m, (ptr + 4) % TWO32, 4);
  }

  /** A string, and a list of u8, is the bytes its header gives; an empty one has no bytes to be in range. */
  lemma BytesLoad(m: seq<byte>, ptr: nat)
    ensures var s, b := LoadF(m, StringT, ptr), LoadF(m, ListT(PrimT(U8)), ptr);
            match HeaderAt(m, ptr)
            case None => s == None && b == None
            case Some((p, n)) =>
              if n == 0 then s == Some(VString([])) && b == Some(VBytes([]))
              else if p + n <= |m| then s == Some(VString(m[p..p + n])) && b == Some(VBytes(m[p..p + n]))
              else s == None && b == None
  {
    hide ReadHeader, HeaderAt;
    HeaderIsRead(m, ptr);
  }

  /** Any other list is the values at its element addresses, as many as the header says. */
  lemma ListLoads(m: seq<byte>, e: Ty, ptr: nat, vs: seq<Val>)
    requires e != PrimT(U8)
    ensures var r := LoadF(m, ListT(e), ptr);
            && (r.Some? ==> r.value.VSlice?)
            && (r == Some(VSlice(vs)) <==>
                  match HeaderAt(m, ptr)
                  case None => false
                  case Some((p, n)) =>
                    |vs| == n && forall i :: 0 <= i < n ==>
                      LoadF(m, e, (p + i * Size(e)) % 0x1_0000_0000) == Some(vs[i]))
  {
    hide ReadHeader, HeaderAt, ElemAddr, Size;
    HeaderIsRead(m, ptr);
    if ReadHeader(m, ptr).Some? {
      var (p, n) := ReadHeader(m, ptr).value;
      forall i: nat
        ensures ElemAddr(e, p, i) == (p + i * Size(e)) % 0x1_0000_0000
      {
        Addresses(e, [], [], p, i);
      }
      ListIsOf(m, e, p, n, vs);
    }
  }

  lemma ListIsOf(m: seq<byte>, e: Ty, p: u32, n: u32, vs: seq<Val>)
    requires e != PrimT(U8)
    ensures var r := LoadList(m, e, p, n);
            && (r.Some? ==> r.value.VSlice?)
            && (r == Some(VSlice(vs)) <==>
                  |vs| == n && forall i :: 0 <= i < n ==> LoadF(m, e, ElemAddr(e, p, i)) == Some(vs[i]))
  {
    hide LoadF, ElemAddr;
    if |vs| == n && forall i :: 0 <= i < n ==> LoadF(m, e, ElemAddr(e, p, i)) == Some(vs[i]) {
      ListIs(m, e, p, vs);
    }
  }

  /** A record is the values at its field offsets. */
  lemma RecordLoads(m: seq<byte>, fs: seq<Ty>, ptr: u32, vs: seq<Val>)
    ensures var r := LoadF(m, RecordT(fs), ptr);
            && (r.Some? ==> r.value.VSlice?)
            && (r == Some(VSlice(vs)) <==>
                  |vs| == |fs| && forall i :: 0 <= i < |fs| ==>
                    LoadF(m, fs[i], (ptr + Offset(fs, i)) % 0x1_0000_0000) == Some(vs[i]))
  {
    hide Offset;
    if |vs| == |fs| && forall i :: 0 <= i < |fs| ==> LoadF(m, fs[i], FieldAddr(fs, ptr, i)) == Some(vs[i]) {
      RecordIs(m, fs, ptr, vs);
    }
  }

  // ---- what is asked of the allocator ----

  /** A nonempty string or list of u8 asks for its bytes at any address, once, and its header is that block; an empty
      one asks for nothing. */
  lemma StringAsks(alloc: Alloc, h: Heap, s: seq<byte>)
    requires 0 < |s| < TWO32
    ensures var (h2, r) := LowerString(alloc, h, s);
            match alloc(h, |s|, 1)
            case NoBlock(m) => r.None? && h2.starved
            case Block(p, m) => h2.calls == h.calls + 1 && (r.Some? ==> r == Some((p, |s|)))
    ensures LowerList(alloc, h, PrimT(U8), VBytes(s)) == LowerString(alloc, h, s)
    ensures LowerString(alloc, h, []) == LowerList(alloc, h, PrimT(U8), VBytes([])) == (h, Some((0, 0)))
  {
    SmallMod(|s|, TWO32);
  }

  /** A nonempty list asks for one block of all its elements at the element's alignment before anything that
      the elements ask for. */
  lemma ListAsks(alloc: Alloc, h: Heap, e: Ty, vs: seq<Val>)
    requires e != PrimT(U8) && 0 < |vs| < TWO32 && |vs| * Size(e) < TWO32
    ensures var (h2, r) := LowerList(alloc, h, e, VSlice(vs));
            match alloc(h, |vs| * Size(e), Align(e))
            case NoBlock(m) => r.None? && h2.starved
            case Block(p, m) => r.Some? ==> r == Some((p, |vs|))
    ensures LowerList(alloc, h, e, VSlice([])) == (h, Some((0, 0)))
  {
    hide Size, Align, StoreElems;
    SizeIsAligned(e);
    TimesIsProduct(|vs|, Size(e));
    SmallMod(|vs| * Size(e), TWO32);
    SmallMod(|vs|, TWO32);
  }
}
