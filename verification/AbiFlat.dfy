/** Lowering values to core wasm words and lifting them back. */
module AbiFlat {
  import opened Words
  import opened Wrappers
  import opened AbiTypes
  import opened AbiValues
  import opened AbiMemory
  import opened AbiRoundTrip

  // ---- lifting: a reader over a stack, at a position ----

  /** The value of type t at position pos, and the position after it; `None` is any error. */
  function LiftF(m: seq<byte>, t: Ty, s: seq<u64>, pos: nat): Option<(Val, nat)>
    decreases t, 0
  {
    match t
    case PrimT(p) =>
      if pos >= |s| then None
      else
        (match LiftPrim(p, s[pos])
         case Some(v) => Some((v, pos + 1))
         case None => None)
    case StringT =>
      if pos + 2 > |s| then None
      else
        (match LoadString(m, s[pos] % TWO32, s[pos + 1] % TWO32)
         case Some(v) => Some((v, pos + 2))
         case None => None)
    case EnumT(n) =>
      if pos >= |s| || s[pos] % TWO32 >= n then None else Some((VU32(s[pos] % TWO32), pos + 1))
    case ListT(e) =>
      if pos + 2 > |s| then None
      else
        (match LoadList(m, e, s[pos] % TWO32, s[pos + 1] % TWO32)
         case Some(v) => Some((v, pos + 2))
         case None => None)
    case RecordT(fs) =>
      (match LiftFields(m, fs, s, pos, 0)
       case Some((vs, p)) => Some((VSlice(vs), p))
       case None => None)
    case VariantT(k, cs) => LiftVariant(m, k, cs, s, pos)
  }

  /** Fields i and after. */
  function LiftFields(m: seq<byte>, fs: seq<Ty>, s: seq<u64>, pos: nat, i: nat): (r: Option<(seq<Val>, nat)>)
    requires i <= |fs|
    ensures r.Some? ==> |r.value.0| == |fs| - i
    decreases fs, 1, |fs| - i
  {
    if i == |fs| then Some(([], pos))
    else
      match LiftF(m, fs[i], s, pos)
      case None => None
      case Some((v, p)) =>
        match LiftFields(m, fs, s, p, i + 1)
        case None => None
        case Some((vs, q)) => Some(([v] + vs, q))
  }

  /** The whole window of joined slots is consumed; the case re-reads its own words from it. */
  function LiftVariant(m: seq<byte>, k: VariantKind, cs: seq<Case>, s: seq<u64>, pos: nat): Option<(Val, nat)>
    decreases cs, 1
  {
    var joined := |CasesFlat(cs, |cs|)|;
    if pos + 1 + joined > |s| || s[pos] % TWO32 >= |cs| then None
    else
      var d := s[pos] % TWO32;
      match LiftCase(m, cs[d], s[pos + 1..pos + 1 + joined])
      case None => None
      case Some(x) => Some((Wrap(k, d, x), pos + 1 + joined))
  }

  function LiftCase(m: seq<byte>, c: Case, window: seq<u64>): Option<Val>
    decreases c, 0
  {
    match c
    case NoPayload => Some(Nil)
    case Payload(t) =>
      match LiftF(m, t, window, 0)
      case Some((v, _)) => Some(v)
      case None => None
  }

  // ---- lowering ----

  function LowerF(alloc: Alloc, h: Heap, t: Ty, v: Val): (Heap, Option<seq<u64>>)
    decreases t, 0
  {
    match t
    case PrimT(p) =>
      (match LowerPrim(p, v)
       case Some(raw) => (h, Some([raw]))
       case None => (h, None))
    case StringT =>
      if !v.VString? then (h, None)
      else
        (match LowerString(alloc, h, v.text)
         case (h1, Some((p, n))) => (h1, Some([p, n]))
         case (h1, None) => (h1, None))
    case EnumT(n) => (h, if v.VU32? && v.a32 < n then Some([v.a32]) else None)
    case ListT(e) =>
      (match LowerList(alloc, h, e, v)
       case (h1, Some((p, n))) => (h1, Some([p, n]))
       case (h1, None) => (h1, None))
    case RecordT(fs) =>
      if v.VSlice? && |v.elems| == |fs| then LowerFields(alloc, h, fs, v.elems, 0) else (h, None)
    case VariantT(k, cs) => LowerVariant(alloc, h, k, cs, v)
  }

  /** The words of fields i and after. */
  function LowerFields(alloc: Alloc, h: Heap, fs: seq<Ty>, vs: seq<Val>, i: nat): (Heap, Option<seq<u64>>)
    requires i <= |fs| == |vs|
    decreases fs, 1, |fs| - i
  {
    if i == |fs| then (h, Some([]))
    else
      match LowerF(alloc, h, fs[i], vs[i])
      case (h1, None) => (h1, None)
      case (h1, Some(flat)) =>
        match LowerFields(alloc, h1, fs, vs, i + 1)
        case (h2, None) => (h2, None)
        case (h2, Some(rest)) => (h2, Some(flat + rest))
  }

  /** The discriminant, then the payload's words copied over zeroed slots. */
  function LowerVariant(alloc: Alloc, h: Heap, k: VariantKind, cs: seq<Case>, v: Val): (Heap, Option<seq<u64>>)
    decreases cs, 1
  {
    if (k != KindVariant ==> |cs| == 2) && Unwrap(k, |cs|, v).Some? then
      var (d, x) := Unwrap(k, |cs|, v).value;
      match LowerCase(alloc, h, cs[d], x)
      case (h1, None) => (h1, None)
      case (h1, Some(flat)) => (h1, Some([d] + Padded(flat, |CasesFlat(cs, |cs|)|)))
    else (h, None)
  }

  function LowerCase(alloc: Alloc, h: Heap, c: Case, v: Val): (Heap, Option<seq<u64>>)
    decreases c, 0
  {
    match c
    case NoPayload => (h, Some([]))
    case Payload(t) => LowerF(alloc, h, t, v)
  }

  /** copy(dst, flat) into n zeroed words. */
  function Padded(flat: seq<u64>, n: nat): (r: seq<u64>)
    ensures |r| == n
    ensures forall j :: 0 <= j < n ==> r[j] == if j < |flat| then flat[j] else 0
  {
    seq(n, j requires 0 <= j < n => if j < |flat| then flat[j] else 0)
  }

  // ---- lifting depends on its window of the stack and on the blocks it points to ----

  /** The words at pos point into s. */
  ghost predicate FlatWithin(m: seq<byte>, t: Ty, st: seq<u64>, pos: nat, s: set<nat>)
    requires pos + |Flat(t)| <= |st|
    decreases t, 0
  {
    match t
    case PrimT(_) | EnumT(_) => true
    case StringT => Area(st[pos] % TWO32, st[pos + 1] % TWO32) <= s
    case ListT(e) => ListWithin(m, e, st[pos] % TWO32, st[pos + 1] % TWO32, s)
    case RecordT(fs) => FlatFromAll(fs); FieldsFlatWithin(m, fs, st, pos, 0, s)
    case VariantT(_, cs) => VariantFlatWithin(m, cs, st, pos, s)
  }

  ghost predicate FieldsFlatWithin(m: seq<byte>, fs: seq<Ty>, st: seq<u64>, pos: nat, i: nat, s: set<nat>)
    requires i <= |fs| && pos + |FlatFrom(fs, i)| <= |st|
    decreases fs, 1, |fs| - i
  {
    i == |fs| || (FlatWithin(m, fs[i], st, pos, s) && FieldsFlatWithin(m, fs, st, pos + |Flat(fs[i])|, i + 1, s))
  }

  ghost predicate VariantFlatWithin(m: seq<byte>, cs: seq<Case>, st: seq<u64>, pos: nat, s: set<nat>)
    requires pos + 1 + |CasesFlat(cs, |cs|)| <= |st|
    decreases cs, 1
  {
    var d := st[pos] % TWO32;
    d < |cs| ==> CaseFlatWithin(m, cs[d], st[pos + 1..pos + 1 + |CasesFlat(cs, |cs|)|], s)
  }

  ghost predicate CaseFlatWithin(m: seq<byte>, c: Case, window: seq<u64>, s: set<nat>)
    decreases c, 0
  {
    c.Payload? && |Flat(c.ty)| <= |window| ==> FlatWithin(m, c.ty, window, 0, s)
  }

  /** The core types of fields i and after. */
  function FlatFrom(fs: seq<Ty>, i: nat): seq<CoreType>
    requires i <= |fs|
    decreases |fs| - i
  {
    if i == |fs| then [] else Flat(fs[i]) + FlatFrom(fs, i + 1)
  }

  lemma {:induction false} FlatFromFieldsFlat(fs: seq<Ty>, i: nat)
    requires i <= |fs|
    ensures FieldsFlat(fs, i) + FlatFrom(fs, i) == FieldsFlat(fs, |fs|)
    decreases |fs| - i
  {
    if i < |fs| {
      FlatFromFieldsFlat(fs, i + 1);
    }
  }

  lemma FlatFromAll(fs: seq<Ty>)
    ensures FlatFrom(fs, 0) == FieldsFlat(fs, |fs|)
  {
    FlatFromFieldsFlat(fs, 0);
    assert FieldsFlat(fs, 0) + FlatFrom(fs, 0) == FlatFrom(fs, 0);
  }

  // ---- lifting reads exactly its own words, and only the blocks they point to ----

  /** The n words at p1 and at p2 are the same. */
  ghost predicate SameWords(s1: seq<u64>, p1: nat, s2: seq<u64>, p2: nat, n: nat) {
    p1 + n <= |s1| && p2 + n <= |s2| && s1[p1..p1 + n] == s2[p2..p2 + n]
  }

  lemma SameWordsPart(s1: seq<u64>, p1: nat, s2: seq<u64>, p2: nat, n: nat, off: nat, k: nat)
    requires SameWords(s1, p1, s2, p2, n) && off + k <= n
    ensures SameWords(s1, p1 + off, s2, p2 + off, k)
    ensures p1 + n <= |s1| && p2 + n <= |s2|
    ensures k > 0 ==> s1[p1 + off] == s2[p2 + off]
  {
    SliceOfSlice(s1, p1, n, off, k);
    SliceOfSlice(s2, p2, n, off, k);
  }

  lemma SliceOfSlice(s: seq<u64>, p: nat, n: nat, off: nat, k: nat)
    requires p + n <= |s| && off + k <= n
    ensures s[p + off..p + off + k] == s[p..p + n][off..off + k]
    ensures k > 0 ==> s[p + off] == s[p..p + n][off..off + k][0]
  {
    var a, b := s[p + off..p + off + k], s[p..p + n][off..off + k];
    assert |a| == |b|;
    forall j | 0 <= j < k
      ensures a[j] == b[j]
    {
      assert a[j] == s[p + off + j] == s[p..p + n][off + j];
    }
  }

  /** Both lifts fail, or both give the same value and move on by n words. */
  ghost predicate SameLift<T>(r1: Option<(T, nat)>, p1: nat, r2: Option<(T, nat)>, p2: nat, n: nat) {
    match (r1, r2)
    case (None, None) => true
    case (Some((v1, q1)), Some((v2, q2))) => v1 == v2 && q1 == p1 + n && q2 == p2 + n
    case _ => false
  }

  /** Equal words, and equal memory where they point, lift to equal values; each consumes exactly the
      flat width of its type. */
  lemma {:induction false} LiftIsLocal(m1: seq<byte>, m2: seq<byte>, t: Ty, s1: seq<u64>, p1: nat, s2: seq<u64>,
                                       p2: nat, b1: set<nat>, b2: set<nat>)
    requires Agree(m1, m2, b1) && b1 <= b2
    requires SameWords(s1, p1, s2, p2, |Flat(t)|) && FlatWithin(m1, t, s1, p1, b1)
    ensures SameLift(LiftF(m1, t, s1, p1), p1, LiftF(m2, t, s2, p2), p2, |Flat(t)|)
    ensures FlatWithin(m2, t, s2, p2, b2)
    decreases t, 0
  {
    hide Agree, SameWords, LoadList, ListWithin, ReadString;
    match t
    case PrimT(p) => SameWordsPart(s1, p1, s2, p2, 1, 0, 1);
    case EnumT(n) => SameWordsPart(s1, p1, s2, p2, 1, 0, 1);
    case StringT =>
      SameWordsPart(s1, p1, s2, p2, 2, 0, 2);
      SameWordsPart(s1, p1, s2, p2, 2, 1, 1);
      StringsAgree(m1, m2, b1, s1[p1] % TWO32, s1[p1 + 1] % TWO32);
    case ListT(e) =>
      SameWordsPart(s1, p1, s2, p2, 2, 0, 2);
      SameWordsPart(s1, p1, s2, p2, 2, 1, 1);
      var (p, n) := (s1[p1] % TWO32, s1[p1 + 1] % TWO32);
      LoadListIsLocal(m1, m2, e, p, n, b1);
      ListWithinMore(m2, e, p, n, b1, b2);
    case RecordT(fs) =>
      FlatFromAll(fs);
      LiftFieldsIsLocal(m1, m2, fs, s1, p1, s2, p2, 0, b1, b2);
    case VariantT(k, cs) => LiftVariantIsLocal(m1, m2, k, cs, s1, p1, s2, p2, b1, b2);
  }

  lemma {:induction false} LiftFieldsIsLocal(m1: seq<byte>, m2: seq<byte>, fs: seq<Ty>, s1: seq<u64>, p1: nat,
                                             s2: seq<u64>, p2: nat, i: nat, b1: set<nat>, b2: set<nat>)
    requires i <= |fs| && Agree(m1, m2, b1) && b1 <= b2
    requires SameWords(s1, p1, s2, p2, |FlatFrom(fs, i)|) && FieldsFlatWithin(m1, fs, s1, p1, i, b1)
    ensures SameLift(LiftFields(m1, fs, s1, p1, i), p1, LiftFields(m2, fs, s2, p2, i), p2, |FlatFrom(fs, i)|)
    ensures FieldsFlatWithin(m2, fs, s2, p2, i, b2)
    decreases fs, 1, |fs| - i
  {
    hide Flat, LiftF, FlatWithin, Agree;
    if i < |fs| {
      var n, w := |FlatFrom(fs, i)|, |Flat(fs[i])|;
      SameWordsPart(s1, p1, s2, p2, n, 0, w);
      SameWordsPart(s1, p1, s2, p2, n, w, n - w);
      LiftIsLocal(m1, m2, fs[i], s1, p1, s2, p2, b1, b2);
      LiftFieldsIsLocal(m1, m2, fs, s1, p1 + w, s2, p2 + w, i + 1, b1, b2);
    }
  }

  lemma {:induction false} LiftVariantIsLocal(m1: seq<byte>, m2: seq<byte>, k: VariantKind, cs: seq<Case>,
                                              s1: seq<u64>, p1: nat, s2: seq<u64>, p2: nat, b1: set<nat>, b2: set<nat>)
    requires Agree(m1, m2, b1) && b1 <= b2
    requires SameWords(s1, p1, s2, p2, 1 + |CasesFlat(cs, |cs|)|) && VariantFlatWithin(m1, cs, s1, p1, b1)
    ensures SameLift(LiftVariant(m1, k, cs, s1, p1), p1, LiftVariant(m2, k, cs, s2, p2), p2, 1 + |CasesFlat(cs, |cs|)|)
    ensures VariantFlatWithin(m2, cs, s2, p2, b2)
    decreases cs, 1
  {
    hide CasesFlat, LiftCase, CaseFlatWithin, Agree;
    var n := |CasesFlat(cs, |cs|)|;
    SameWordsPart(s1, p1, s2, p2, 1 + n, 0, 1);
    SameWordsPart(s1, p1, s2, p2, 1 + n, 1, n);
    var d := s1[p1] % TWO32;
    if d < |cs| {
      CasesBound(cs, d, |cs|);
      LiftCaseIsLocal(m1, m2, cs[d], s1[p1 + 1..p1 + 1 + n], b1, b2);
    }
  }

  lemma {:induction false} LiftCaseIsLocal(m1: seq<byte>, m2: seq<byte>, c: Case, w: seq<u64>, b1: set<nat>,
                                           b2: set<nat>)
    requires Agree(m1, m2, b1) && b1 <= b2
    requires |CaseFlat(c)| <= |w| && CaseFlatWithin(m1, c, w, b1)
    ensures LiftCase(m1, c, w) == LiftCase(m2, c, w) && CaseFlatWithin(m2, c, w, b2)
    decreases c, 0
  {
    match c
    case NoPayload =>
    case Payload(t) => LiftIsLocal(m1, m2, t, w, 0, w, 0, b1, b2);
  }

  // ---- the round trip ----

  /** Every word fits its slot. */
  predicate Fits(flat: seq<u64>, cts: seq<CoreType>) {
    |flat| == |cts| && forall j :: 0 <= j < |flat| ==> FitsCore(flat[j], cts[j])
  }

  /** Between h1 and h2 the value v was lowered to exactly these words: one for each slot of its type,
      each fitting its slot, pointing only to new blocks, and lifting to v. */
  ghost predicate Lowered(h1: Heap, h2: Heap, t: Ty, v: Val, flat: seq<u64>) {
    && Accepts(t, v)
    && Fits(flat, Flat(t))
    && LiftF(h2.mem, t, flat, 0) == Some((Norm(t, v), |flat|))
    && FlatWithin(h2.mem, t, flat, 0, h2.live - h1.live)
  }

  ghost predicate FieldsLowered(h1: Heap, h2: Heap, fs: seq<Ty>, vs: seq<Val>, i: nat, flat: seq<u64>)
    requires i <= |fs| == |vs|
  {
    && (forall j :: i <= j < |fs| ==> Accepts(fs[j], vs[j]))
    && Fits(flat, FlatFrom(fs, i))
    && LiftFields(h2.mem, fs, flat, 0, i) == Some((NormFrom(fs, vs, i), |flat|))
    && FieldsFlatWithin(h2.mem, fs, flat, 0, i, h2.live - h1.live)
  }

  function NormFrom(fs: seq<Ty>, vs: seq<Val>, i: nat): (r: seq<Val>)
    requires i <= |fs| == |vs|
    ensures |r| == |fs| - i
    ensures forall j :: 0 <= j < |r| ==> r[j] == Norm(fs[i + j], vs[i + j])
    decreases |fs| - i
  {
    if i == |fs| then [] else [Norm(fs[i], vs[i])] + NormFrom(fs, vs, i + 1)
  }

  lemma {:induction false} LowerLifts(alloc: Alloc, h: Heap, t: Ty, v: Val)
    requires GoodAlloc(alloc) && GoodHeap(h) && Built(t) && Sized(t, v)
    ensures var (h2, r) := LowerF(alloc, h, t, v);
            && Kept(h, h2, {})
            && (r.Some? ==> Lowered(h, h2, t, v, r.value))
            && (Accepts(t, v) ==> r.Some? || h2.starved)
    decreases t, 0
  {
    match t
    case PrimT(p) => ScalarRoundTrip(p, v);
    case EnumT(n) =>
    case StringT => LowerStringLifts(alloc, h, v);
    case ListT(e) => LowerListLifts(alloc, h, e, v);
    case RecordT(fs) =>
      if v.VSlice? && |v.elems| == |fs| {
        LowerFieldsLifts(alloc, h, fs, v.elems, 0);
        var (h2, r) := LowerFields(alloc, h, fs, v.elems, 0);
        if r.Some? {
          RecordLowered(h, h2, fs, v.elems, r.value);
        }
      }
    case VariantT(k, cs) => LowerVariantLifts(alloc, h, k, cs, v);
  }

  lemma LowerStringLifts(alloc: Alloc, h: Heap, v: Val)
    requires GoodAlloc(alloc) && GoodHeap(h)
    ensures var (h2, r) := LowerF(alloc, h, StringT, v);
            && Kept(h, h2, {})
            && (r.Some? ==> Lowered(h, h2, StringT, v, r.value))
            && (Accepts(StringT, v) ==> r.Some? || h2.starved)
  {
    hide LowerString;
    if v.VString? {
      LowerStringLoads(alloc, h, v.text);
    }
  }

  lemma LowerListLifts(alloc: Alloc, h: Heap, e: Ty, v: Val)
    requires GoodAlloc(alloc) && GoodHeap(h) && Built(e) && Sized(ListT(e), v)
    ensures var (h2, r) := LowerF(alloc, h, ListT(e), v);
            && Kept(h, h2, {})
            && (r.Some? ==> Lowered(h, h2, ListT(e), v, r.value))
            && (Accepts(ListT(e), v) ==> r.Some? || h2.starved)
  {
    hide LowerList, Accepts, Norm, LoadList, ListWithin;
    LowerListLoads(alloc, h, e, v);
  }

  lemma RecordLowered(h: Heap, h2: Heap, fs: seq<Ty>, vs: seq<Val>, flat: seq<u64>)
    requires |vs| == |fs| && FieldsLowered(h, h2, fs, vs, 0, flat)
    ensures Lowered(h, h2, RecordT(fs), VSlice(vs), flat)
  {
    FlatFromAll(fs);
    assert Norm(RecordT(fs), VSlice(vs)).elems == NormFrom(fs, vs, 0);
  }

  lemma {:induction false} LowerFieldsLifts(alloc: Alloc, h: Heap, fs: seq<Ty>, vs: seq<Val>, i: nat)
    requires GoodAlloc(alloc) && GoodHeap(h) && i <= |fs| == |vs|
    requires forall j :: 0 <= j < |fs| ==> Built(fs[j]) && Sized(fs[j], vs[j])
    ensures var (h2, r) := LowerFields(alloc, h, fs, vs, i);
            && Kept(h, h2, {})
            && (r.Some? ==> FieldsLowered(h, h2, fs, vs, i, r.value))
            && ((forall j :: i <= j < |fs| ==> Accepts(fs[j], vs[j])) ==> r.Some? || h2.starved)
    decreases fs, 1, |fs| - i
  {
    hide LowerF, Flat;
    if i < |fs| {
      LowerLifts(alloc, h, fs[i], vs[i]);
      var (h1, r1) := LowerF(alloc, h, fs[i], vs[i]);
      if r1.Some? {
        LowerFieldsLifts(alloc, h1, fs, vs, i + 1);
        var (h2, r2) := LowerFields(alloc, h1, fs, vs, i + 1);
        if r2.Some? {
          FieldThenRest(h, h1, h2, fs, vs, i, r1.value, r2.value);
        }
      }
    }
  }

  lemma FieldThenRest(h: Heap, h1: Heap, h2: Heap, fs: seq<Ty>, vs: seq<Val>, i: nat, flat: seq<u64>, rest: seq<u64>)
    requires i < |fs| == |vs| && Kept(h, h1, {}) && Kept(h1, h2, {})
    requires Lowered(h, h1, fs[i], vs[i], flat) && FieldsLowered(h1, h2, fs, vs, i + 1, rest)
    ensures FieldsLowered(h, h2, fs, vs, i, flat + rest)
  {
    hide LiftF, Flat, FlatWithin;
    var all, added := flat + rest, h2.live - h.live;
    assert SameWords(flat, 0, all, 0, |flat|);
    LiftIsLocal(h1.mem, h2.mem, fs[i], flat, 0, all, 0, h1.live - h.live, added);
    assert SameWords(rest, 0, all, |flat|, |rest|);
    LiftFieldsIsLocal(h2.mem, h2.mem, fs, rest, 0, all, |flat|, i + 1, h2.live - h1.live, added);
  }

  lemma {:induction false} LowerVariantLifts(alloc: Alloc, h: Heap, k: VariantKind, cs: seq<Case>, v: Val)
    requires GoodAlloc(alloc) && GoodHeap(h) && Built(VariantT(k, cs)) && Sized(VariantT(k, cs), v)
    ensures var (h2, r) := LowerVariant(alloc, h, k, cs, v);
            && Kept(h, h2, {})
            && (r.Some? ==> Lowered(h, h2, VariantT(k, cs), v, r.value))
            && (Accepts(VariantT(k, cs), v) ==> r.Some? || h2.starved)
    decreases cs, 1
  {
    hide LowerCase;
    if Unwrap(k, |cs|, v).Some? {
      var (d, x) := Unwrap(k, |cs|, v).value;
      LowerCaseLifts(alloc, h, cs[d], x);
      var (h2, r) := LowerCase(alloc, h, cs[d], x);
      if r.Some? {
        PayloadInWindow(h, h2, k, cs, v, d, x, r.value);
      }
    }
  }

  ghost predicate CaseLowered(h1: Heap, h2: Heap, c: Case, v: Val, flat: seq<u64>) {
    match c
    case NoPayload => flat == []
    case Payload(t) => Lowered(h1, h2, t, v, flat)
  }

  lemma {:induction false} LowerCaseLifts(alloc: Alloc, h: Heap, c: Case, v: Val)
    requires GoodAlloc(alloc) && GoodHeap(h) && (c.Payload? ==> Built(c.ty)) && CaseSized(c, v)
    ensures var (h2, r) := LowerCase(alloc, h, c, v);
            && Kept(h, h2, {})
            && (r.Some? ==> CaseLowered(h, h2, c, v, r.value))
            && (CaseAccepts(c, v) ==> r.Some? || h2.starved)
    decreases c, 0
  {
    match c
    case NoPayload =>
    case Payload(t) => LowerLifts(alloc, h, t, v);
  }

  lemma PayloadInWindow(h: Heap, h2: Heap, k: VariantKind, cs: seq<Case>, v: Val, d: u32, x: Val, flat: seq<u64>)
    requires Built(VariantT(k, cs)) && Unwrap(k, |cs|, v) == Some((d, x)) && GoodHeap(h2)
    requires CaseLowered(h, h2, cs[d], x, flat)
    ensures Lowered(h, h2, VariantT(k, cs), v, [d] + Padded(flat, |CasesFlat(cs, |cs|)|))
  {
    var window, added := Padded(flat, |CasesFlat(cs, |cs|)|), h2.live - h.live;
    CasesBound(cs, d, |cs|);
    if cs[d].Payload? {
      assert window[..|flat|] == flat;
      assert SameWords(flat, 0, window, 0, |flat|);
      LiftIsLocal(h2.mem, h2.mem, cs[d].ty, flat, 0, window, 0, added, added);
    }
    WindowFits(cs, d, flat);
    VariantLowered(h, h2, k, cs, v, d, x, window);
  }

  /** The joined slots are wide enough for every case's words. */
  lemma WindowFits(cs: seq<Case>, d: nat, flat: seq<u64>)
    requires d < |cs| && Fits(flat, CaseFlat(cs[d]))
    ensures Fits(Padded(flat, |CasesFlat(cs, |cs|)|), CasesFlat(cs, |cs|))
  {
    var cts := CasesFlat(cs, |cs|);
    forall j | 0 <= j < |cts|
      ensures FitsCore(Padded(flat, |cts|)[j], cts[j])
    {
      if j < |flat| {
        CasesFlatIsLub(cs, |cs|, j);
        assert Reaches(cs, d, j) && WideEnough(cs, |cs|, j, cts[j]);
        FitsWiderCore(flat[j], CaseFlat(cs[d])[j], cts[j]);
      }
    }
  }

  lemma VariantLowered(h: Heap, h2: Heap, k: VariantKind, cs: seq<Case>, v: Val, d: u32, x: Val, window: seq<u64>)
    requires Built(VariantT(k, cs)) && Unwrap(k, |cs|, v) == Some((d, x))
    requires CaseAccepts(cs[d], x) && Fits(window, CasesFlat(cs, |cs|))
    requires LiftCase(h2.mem, cs[d], window) == Some(CaseNorm(cs[d], x))
    requires CaseFlatWithin(h2.mem, cs[d], window, h2.live - h.live)
    ensures Lowered(h, h2, VariantT(k, cs), v, [d] + window)
  {
    hide CasesFlat, LiftCase, CaseNorm, CaseAccepts, CaseFlatWithin;
    var all := [d] + window;
    assert all[1..1 + |window|] == window;
    assert all[0] == d;
    assert LiftVariant(h2.mem, k, cs, all, 0) == Some((Wrap(k, d, CaseNorm(cs[d], x)), 1 + |window|));
    assert VariantFlatWithin(h2.mem, cs, all, 0, h2.live - h.live);
    assert Fits(all, [I32] + CasesFlat(cs, |cs|));
  }
}
