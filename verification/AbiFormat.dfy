/** The bytes and words themselves: little-endian two's complement, as the standard writes it. */
module AbiFormat {
  import opened Words
  import opened Wrappers
  import opened AbiTypes
  import opened AbiValues
  import opened AbiMemory
  import opened AbiRoundTrip

  /** The number a scalar stands for; floats stand for their bits. */
  function Number(v: Val): int {
    match v
    case VBool(b) => if b then 1 else 0
    case VU8(n) => n
    case VU16(n) => n
    case VU32(n) => n
    case VU64(n) => n
    case VS8(n) => n
    case VS16(n) => n
    case VS32(n) => n
    case VS64(n) => n
    case VF32(n) => n
    case VF64(n) => n
    case _ => 0
  }

  /** A scalar's word is its number modulo the width of its type: negative s8 and s16 are not
      sign-extended. */
  lemma WordOfScalar(p: Prim, v: Val)
    requires IsScalarOf(p, v)
    ensures LowerPrim(p, v) == Some(Number(v) % Pow256(PrimSize(p)))
  {
    Pow256Values();
  }

  /** The word the standard lowers a scalar to: its number in the two's complement of the whole core value,
      sign-extended when it is negative. */
  function StandardWord(p: Prim, v: Val): u64 {
    Pow256Values();
    Number(v) % if PrimFlat(p) == I32 || PrimFlat(p) == F32 then Pow256(4) else Pow256(8)
  }

  /** The code's word is the standard's unless the value is a negative s8 or s16; and the standard's word,
      which a guest that follows it sends, lifts to the same value. */
  lemma WordIsStandard(p: Prim, v: Val)
    requires IsScalarOf(p, v)
    ensures LowerPrim(p, v) == Some(StandardWord(p, v)) <==> Number(v) >= 0 || (p != S8 && p != S16)
    ensures LiftPrim(p, StandardWord(p, v)) == Some(v)
  {
    hide LowerPrim, LiftPrim, Number;
    WordOfScalar(p, v);
    SameWord(p, v);
    ScalarRoundTrip(p, v);
    if p == S8 || p == S16 {
      ExtendedLifts(p, v);
    }
  }

  lemma SameWord(p: Prim, v: Val)
    requires IsScalarOf(p, v)
    ensures Number(v) % Pow256(PrimSize(p)) == StandardWord(p, v) <==> Number(v) >= 0 || (p != S8 && p != S16)
  {
    Pow256Values();
  }

  lemma ExtendedLifts(p: Prim, v: Val)
    requires IsScalarOf(p, v) && (p == S8 || p == S16)
    ensures LiftPrim(p, StandardWord(p, v)) == Some(v)
  {
    hide Pow256, ToSigned;
    var n := Number(v);
    if p == S8 {
      Narrowed(n, TWO8, 0x100_0000);
    } else {
      Narrowed(n, TWO16, 0x1_0000);
    }
    StandardIs(p, v);
  }

  lemma StandardIs(p: Prim, v: Val)
    ensures p == S8 || p == S16 ==> StandardWord(p, v) == Number(v) % TWO32
  {
    Pow256Values();
  }

  /** The low part of a wider two's complement is the narrower one. */
  lemma Narrowed(n: int, modulus: nat, c: nat)
    requires modulus > 0 && modulus % 2 == 0 && c > 0 && -(modulus / 2) <= n < modulus / 2
    ensures ToSigned((n % (modulus * c)) % modulus, modulus) == n
  {
    var q, r := n / (modulus * c), n % (modulus * c);
    var s, u := r / modulus, r % modulus;
    assert n == q * (modulus * c) + r && r == s * modulus + u;
    assert q * (modulus * c) == (q * c) * modulus;
    assert n == (q * c + s) * modulus + u;
    DivModUnique(n, modulus, q * c + s, u);
    if n < 0 {
      DivModUnique(n, modulus, -1, n + modulus);
    } else {
      SmallMod(n, modulus);
    }
  }

  /** The s8 -1 lowers to 0xFF, where the standard has 0xFFFF_FFFF. */
  lemma MinusOneIsNotExtended()
    ensures LowerPrim(S8, VS8(-1)) == Some(0xFF) && StandardWord(S8, VS8(-1)) == 0xFFFF_FFFF
    ensures LiftPrim(S8, 0xFF) == LiftPrim(S8, 0xFFFF_FFFF) == Some(VS8(-1))
  {
  }

  /** The bytes Store writes for a scalar are the digits of its number, least significant first. */
  lemma BytesOfScalar(alloc: Alloc, h: Heap, p: Prim, ptr: nat, v: Val, i: nat)
    requires GoodHeap(h) && IsScalarOf(p, v) && Area(ptr, PrimSize(p)) <= h.live && i < PrimSize(p)
    ensures var h2 := StoreF(alloc, h, PrimT(p), ptr, v).0;
            ptr + i < |h2.mem| && h2.mem[ptr + i] == Digit(Number(v), i)
  {
    hide Number, LowerPrim, LE;
    WordOfScalar(p, v);
    LEDigits(Number(v), PrimSize(p), i);
    PutBytesWorks(h, ptr, LE(Number(v) % Pow256(PrimSize(p)), PrimSize(p)));
    var h2 := StoreF(alloc, h, PrimT(p), ptr, v).0;
    assert h2.mem[ptr..ptr + PrimSize(p)][i] == h2.mem[ptr + i];
  }

  /** A string or list header is the address, then the length, four digits each. */
  lemma BytesOfHeader(h: Heap, ptr: u32, p: u32, n: u32, i: nat)
    requires GoodHeap(h) && Area(ptr, 8) <= h.live && i < 4
    ensures var h2 := PutHeader(h, ptr, p, n).0;
            && ptr + 8 <= |h2.mem|
            && h2.mem[ptr + i] == Digit(p, i) && h2.mem[ptr + 4 + i] == Digit(n, i)
  {
    hide LE, FromLE, PutHeader, Digit;
    PutHeaderWorks(h, ptr, p, n);
    var m := PutHeader(h, ptr, p, n).0.mem;
    assert ptr + 7 in Area(ptr, 8);
    SmallMod(ptr + 4, TWO32);
    WordAt(m, ptr, p, i);
    WordAt(m, ptr + 4, n, i);
  }

  lemma WordAt(m: seq<byte>, ptr: nat, n: u32, i: nat)
    requires i < 4 && ReadLE(m, ptr, 4) == Some(n)
    ensures ptr + 4 <= |m| && m[ptr + i] == Digit(n, i)
  {
    hide LE, FromLE, Digit;
    Pow256Values();
    LEOfFromLE(m[ptr..ptr + 4]);
    SmallMod(n, TWO32);
    LEDigits(n, 4, i);
    assert m[ptr..ptr + 4][i] == m[ptr + i];
  }

  /** So is a discriminant, in one, two or four digits. */
  lemma BytesOfDisc(h: Heap, ptr: nat, d: nat, numCases: nat, i: nat)
    requires GoodHeap(h) && d < numCases <= TWO32 && i < DiscSize(numCases)
    requires Area(ptr, DiscSize(numCases)) <= h.live
    ensures var h2 := PutBytes(h, ptr, LE(d, DiscSize(numCases))).0;
            ptr + i < |h2.mem| && h2.mem[ptr + i] == Digit(d, i)
  {
    hide LE, Digit;
    var w := DiscSize(numCases);
    Pow256Values();
    SmallMod(d, Pow256(w));
    LEDigits(d, w, i);
    PutBytesWorks(h, ptr, LE(d, w));
    var h2 := PutBytes(h, ptr, LE(d, w)).0;
    assert h2.mem[ptr..ptr + w][i] == h2.mem[ptr + i];
  }
}
