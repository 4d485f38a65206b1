/** The constructors that compute record and variant descriptors, in uint32 arithmetic, and the laws of
    the layout they compute. */
module AbiLayout {
  import opened Words
  import opened AbiTypes

  lemma AlignUpAt(n: nat, a: nat)
    requires IsAlign(a) && n + a <= TWO32
    ensures AlignUp(n, a) == RoundUp(n, a)
  {
    assert Pow2(0) == 1 && Pow2(1) == 2 && Pow2(2) == 4 && Pow2(3) == 8;
    AlignUpIsRoundUp(n, if a == 1 then 0 else if a == 2 then 1 else if a == 4 then 2 else 3);
  }

  /** Past the last multiple of a below 2^32, alignUp wraps around to 0. */
  lemma AlignUpAtTop(n: u32, a: nat)
    requires IsAlign(a) && n + a > TWO32
    ensures AlignUp(n, a) == 0 && RoundUp(n, a) == TWO32
  {
    var x := n + a - 1 - TWO32;
    assert (n + a - 1) % TWO32 == x;
    assert Pow2(0) == 1 && Pow2(1) == 2 && Pow2(2) == 4 && Pow2(3) == 8;
    AndNotMask(x, if a == 1 then 0 else if a == 2 then 1 else if a == 4 then 2 else 3);
    SmallMod(x, a);
    TopMultiple(n, a);
  }

  lemma TopMultiple(n: u32, a: nat)
    requires IsAlign(a) && n + a > TWO32
    ensures RoundUp(n, a) == TWO32
  {
    var q := TWO32 / a - 1;
    DivModUnique(n, a, q, n - q * a);
  }

  /** alignUp computes the rounding modulo 2^32, for every n. */
  lemma AlignUpWraps(n: nat, a: nat)
    requires IsAlign(a)
    ensures AlignUp(n % TWO32, a) == RoundUp(n, a) % TWO32
  {
    hide AlignUp;
    var q, y := n / TWO32, n % TWO32;
    RoundUpShifts(q, y, a);
    if y + a <= TWO32 {
      AlignUpAt(y, a);
      if RoundUp(y, a) < TWO32 {
        DivModUnique(RoundUp(n, a), TWO32, q, RoundUp(y, a));
      }
    } else {
      AlignUpAtTop(y, a);
      DivModUnique(RoundUp(n, a), TWO32, q + 1, 0);
    }
  }

  lemma RoundUpShifts(q: nat, y: nat, a: nat)
    requires IsAlign(a)
    ensures RoundUp(q * TWO32 + y, a) == q * TWO32 + RoundUp(y, a)
  {
    var k := TWO32 / a;
    assert k * a == TWO32;
    assert q * TWO32 == (q * k) * a;
    var d, r := y / a, y % a;
    DivModUnique(q * TWO32 + y, a, q * k + d, r);
  }

  lemma OneMoreField(fs: seq<Ty>, i: nat)
    requires i < |fs|
    ensures FieldsAlign(fs, i + 1) == Max(FieldsAlign(fs, i), Align(fs[i]))
    ensures FieldsFlat(fs, i + 1) == FieldsFlat(fs, i) + Flat(fs[i])
    ensures FieldsEnd(fs, 0) == 0 && FieldsAlign(fs, 0) == 1 && FieldsFlat(fs, 0) == []
  {
    hide Align, Flat;
  }

  /** One round of the record loop. */
  lemma PlaceField(fs: seq<Ty>, i: nat, off: u32)
    requires i < |fs| && off == FieldsEnd(fs, i) % TWO32
    ensures AlignUp(off, Align(fs[i])) == Offset(fs, i) % TWO32
    ensures (AlignUp(off, Align(fs[i])) + Size(fs[i])) % TWO32 == FieldsEnd(fs, i + 1) % TWO32
  {
    hide AlignUp, RoundUp, Size, Align;
    AlignUpWraps(FieldsEnd(fs, i), Align(fs[i]));
    AddWraps(Offset(fs, i), Size(fs[i]));
  }

  lemma AddWraps(n: nat, m: nat)
    ensures (n % TWO32 + m) % TWO32 == (n + m) % TWO32
  {
  }

  /** A record or tuple descriptor. */
  class RecordType {
    const fields: seq<Ty>
    var offsets: seq<u32>
    var size: u32
    var align: u32
    var flat: seq<CoreType>

    /** The layout of the type rules, modulo 2^32. */
    constructor (fields: seq<Ty>)
      ensures this.fields == fields && flat == Flat(RecordT(fields)) && align == Align(RecordT(fields))
      ensures size == Size(RecordT(fields)) % TWO32
      ensures |offsets| == |fields|
      ensures forall i :: 0 <= i < |fields| ==> offsets[i] == Offset(fields, i) % TWO32
    {
      this.fields := fields;
      offsets, size, align, flat := [], 0, 1, [];
      new;
      var off: u32 := 0;
      var n := |fields|;
      for i := 0 to n
        invariant align == FieldsAlign(fields, i) && flat == FieldsFlat(fields, i)
        invariant |offsets| == i && off == FieldsEnd(fields, i) % TWO32
        invariant forall j :: 0 <= j < i ==> offsets[j] == Offset(fields, j) % TWO32
      {
        hide AlignUp, RoundUp, Size, Align, Flat, FieldsEnd, FieldsAlign, FieldsFlat, Offset;
        OneMoreField(fields, i);
        var f := fields[i];
        if Align(f) > align {
          align := Align(f);
        }
        PlaceField(fields, i, off);
        off := AlignUp(off, Align(f));
        offsets := offsets + [off];
        off := (off + Size(f)) % TWO32;
        flat := flat + Flat(f);
      }
      AlignUpWraps(FieldsEnd(fields, n), align);
      size := AlignUp(off, align);
    }
  }

  /** A variant, option or result descriptor. */
  class VariantType {
    const kind: VariantKind
    const cases: seq<Case>
    var size: u32
    var align: u32
    var payload: u32
    var flat: seq<CoreType>

    constructor (kind: VariantKind, cases: seq<Case>)
      requires |cases| < TWO32
      ensures this.kind == kind && this.cases == cases
      ensures flat == Flat(VariantT(kind, cases)) && align == Align(VariantT(kind, cases))
      ensures payload == PayloadOffset(cases)
      ensures Size(VariantT(kind, cases)) < TWO32 ==> size == Size(VariantT(kind, cases))
    {
      hide AlignUp, RoundUp, CasesFlat;
      this.kind, this.cases := kind, cases;
      var ds: u32 := DiscSize(|cases|);
      size, align, payload, flat := 0, ds, 0, [];
      new;
      var maxPayloadAlign := MaxPayloadAlign(cases);
      if maxPayloadAlign > align {
        align := maxPayloadAlign;
      }
      AlignUpAt(ds, maxPayloadAlign);
      payload := AlignUp(ds, maxPayloadAlign);
      var maxPayloadEnd := MaxPayloadEnd(cases, payload);
      CloseVariant(cases, maxPayloadEnd);
      size := AlignUp(maxPayloadEnd, align);
      var joined := JoinCases(cases);
      flat := [I32] + joined;
    }
  }

  /** A size below 2^32 leaves room for its alignment, so the end of the payload can be rounded up to it. */
  lemma CloseVariant(cs: seq<Case>, end: u32)
    requires var e := PayloadOffset(cs) + CasesSize(cs, |cs|); e < TWO32 ==> end == e
    ensures var s := RoundUp(PayloadOffset(cs) + CasesSize(cs, |cs|), VariantAlign(cs));
            s < TWO32 ==> AlignUp(end, VariantAlign(cs)) == s
  {
    var e, a := PayloadOffset(cs) + CasesSize(cs, |cs|), VariantAlign(cs);
    if RoundUp(e, a) < TWO32 {
      AlignUpWraps(e, a);
      SmallMod(e, TWO32);
      SmallMod(RoundUp(e, a), TWO32);
    }
  }

  /** newVariant's first loop over the cases. */
  method MaxPayloadAlign(cases: seq<Case>) returns (maxPayloadAlign: u32)
    ensures maxPayloadAlign == CasesAlign(cases, |cases|)
  {
    maxPayloadAlign := 1;
    for i := 0 to |cases|
      invariant maxPayloadAlign == CasesAlign(cases, i)
    {
      if cases[i].Payload? {
        var a := Align(cases[i].ty);
        if a > maxPayloadAlign {
          maxPayloadAlign := a;
        }
      }
    }
  }

  /** newVariant's second loop: the end of the longest payload, at least the payload offset. */
  method MaxPayloadEnd(cases: seq<Case>, payload: u32) returns (maxPayloadEnd: u32)
    ensures payload + CasesSize(cases, |cases|) < TWO32 ==> maxPayloadEnd == payload + CasesSize(cases, |cases|)
  {
    hide Size;
    maxPayloadEnd := 0;
    for i := 0 to |cases|
      invariant payload + CasesSize(cases, i) < TWO32 ==>
                  Max(payload, maxPayloadEnd) == payload + CasesSize(cases, i)
    {
      if cases[i].Payload? {
        var end: u32 := (payload + Size(cases[i].ty)) % TWO32;
        if end > maxPayloadEnd {
          maxPayloadEnd := end;
        }
      }
    }
    if maxPayloadEnd < payload {
      maxPayloadEnd := payload;
    }
  }

  /** newVariant's joining loop: each slot widened in place by every case that reaches it. */
  method JoinCases(cases: seq<Case>) returns (joined: seq<CoreType>)
    ensures joined == CasesFlat(cases, |cases|)
  {
    joined := [];
    for i := 0 to |cases|
      invariant joined == CasesFlat(cases, i)
    {
      if cases[i].Payload? {
        var f := Flat(cases[i].ty);
        var before := joined;
        for j := 0 to |f|
          invariant |joined| == Max(|before|, j)
          invariant joined == JoinInto(before, f[..j])
        {
          if j < |joined| {
            joined := joined[j := Join(joined[j], f[j])];
          } else {
            joined := joined + [f[j]];
          }
        }
        assert f[..|f|] == f;
      } else {
        assert JoinInto(joined, []) == joined;
      }
    }
  }
}
