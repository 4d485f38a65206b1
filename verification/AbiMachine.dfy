/** The engine as it runs: guest memory written in place, element loops, a flat reader that advances. */
module AbiMachine {
  import opened Words
  import opened Wrappers
  import opened AbiTypes
  import opened AbiValues
  import opened AbiMemory
  import opened AbiRoundTrip
  import opened AbiFlat
  import opened AbiCall

  /** flatReader. */
  class FlatReader {
    const stack: seq<u64>
    var pos: nat

    constructor (stack: seq<u64>)
      ensures this.stack == stack && pos == 0
    {
      this.stack, pos := stack, 0;
    }

    method Next() returns (r: Option<u64>)
      modifies this
      ensures old(pos) < |stack| ==> r == Some(stack[old(pos)]) && pos == old(pos) + 1
      ensures old(pos) >= |stack| ==> r == None && pos == old(pos)
    {
      if pos >= |stack| {
        return None;
      }
      r := Some(stack[pos]);
      pos := pos + 1;
    }
  }

  /** A guest module instance: its linear memory and its exported allocator. */
  class Guest {
    var buf: array<byte>
    var live: set<nat>
    var calls: nat
    var starved: bool
    const alloc: Alloc

    function State(): Heap
      reads this, buf
    {
      Heap(buf[..], live, calls, starved)
    }

    // ---- memory access ----

    method Write(p: nat, b: seq<byte>) returns (ok: bool)
      modifies buf
      ensures (State(), ok) == PutBytes(old(State()), p, b)
    {
      if p + |b| > buf.Length {
        return false;
      }
      ghost var was := buf[..];
      for i := 0 to |b|
        invariant buf[..] == was[..p] + b[..i] + was[p + i..]
      {
        buf[p + i] := b[i];
      }
      assert b[..|b|] == b;
      ok := true;
    }

    method WriteHeader(ptr: nat, p: u32, n: u32) returns (ok: bool)
      modifies buf
      ensures (State(), ok) == PutHeader(old(State()), ptr, p, n)
    {
      ok := Write(ptr, LE(p, 4));
      if ok {
        ok := Write(Add32(ptr, 4), LE(n, 4));
      }
    }

    /** A call of the guest's cabi_realloc; memory may be replaced by a grown one. */
    method Realloc(size: nat, align: nat) returns (p: Option<u32>)
      modifies this
      ensures (State(), p) == AllocF(alloc, old(State()), size, align)
      ensures fresh(buf)
    {
      var reply := alloc(State(), size, align);
      match reply
      case NoBlock(m) =>
        Replace(m);
        starved := true;
        p := None;
      case Block(ptr, m) =>
        Replace(m);
        live := live + Area(ptr, size);
        p := Some(ptr);
    }

    method Replace(m: seq<byte>)
      modifies this
      ensures buf[..] == m && fresh(buf) && live == old(live) && calls == old(calls) + 1 && starved == old(starved)
    {
      buf := new byte[|m|](i requires 0 <= i < |m| => m[i]);
      calls := calls + 1;
    }

    // ---- Load ----

    method Load(t: Ty, ptr: nat) returns (r: Option<Val>)
      ensures r == LoadF(buf[..], t, ptr)
      decreases t, 0
    {
      match t
      case RecordT(fs) => r := LoadRecordAt(fs, ptr);
      case VariantT(k, cs) => r := LoadVariantAt(k, cs, ptr);
      case ListT(e) =>
        match ReadHeader(buf[..], ptr) {
          case None => r := None;
          case Some((p, n)) => r := LoadListElems(e, p, n);
        }
      case StringT => r := LoadF(buf[..], t, ptr);
      case EnumT(_) => r := LoadF(buf[..], t, ptr);
      case PrimT(_) => r := LoadF(buf[..], t, ptr);
    }

    method LoadVariantAt(k: VariantKind, cs: seq<Case>, ptr: nat) returns (r: Option<Val>)
      ensures r == LoadVariant(buf[..], k, cs, ptr)
      decreases cs, 1
    {
      var disc := ReadDisc(buf[..], ptr, |cs|);
      if disc.None? || disc.value >= |cs| {
        return None;
      }
      var payload := LoadPayload(cs[disc.value], PayloadAddr(cs, ptr));
      r := if payload.Some? then Some(Wrap(k, disc.value, payload.value)) else None;
    }

    method LoadPayload(c: Case, ptr: nat) returns (r: Option<Val>)
      ensures r == LoadCase(buf[..], c, ptr)
      decreases c, 0
    {
      match c
      case NoPayload => r := Some(Nil);
      case Payload(t) => r := Load(t, ptr);
    }

    method LoadRecordAt(fs: seq<Ty>, ptr: nat) returns (r: Option<Val>)
      ensures r == LoadRecord(buf[..], fs, ptr)
      decreases fs, 1
    {
      var fields: seq<Val> := [];
      for i := 0 to |fs|
        invariant |fields| == i
        invariant forall j :: 0 <= j < i ==> LoadF(buf[..], fs[j], FieldAddr(fs, ptr, j)) == Some(fields[j])
      {
        var v := Load(fs[i], FieldAddr(fs, ptr, i));
        if v.None? {
          return None;
        }
        fields := fields + [v.value];
      }
      RecordIs(buf[..], fs, ptr, fields);
      r := Some(VSlice(fields));
    }

    method LoadListElems(e: Ty, p: nat, n: nat) returns (r: Option<Val>)
      ensures r == LoadList(buf[..], e, p, n)
      decreases e, 1
    {
      hide LoadF, LoadList, ElemAddr;
      if e == PrimT(U8) {
        return LoadList(buf[..], e, p, n);
      }
      ghost var m := buf[..];
      var out: seq<Val> := [];
      for i := 0 to n
        invariant |out| == i && buf[..] == m
        invariant forall j :: 0 <= j < i ==> LoadF(m, e, ElemAddr(e, p, j)) == Some(out[j])
      {
        var v := Load(e, ElemAddr(e, p, i));
        if v.None? {
          ListFails(m, e, p, n, i);
          return None;
        }
        out := out + [v.value];
      }
      ListIs(m, e, p, out);
      r := Some(VSlice(out));
    }

    // ---- Store ----

    method Store(t: Ty, ptr: nat, v: Val) returns (ok: bool)
      modifies this, buf
      ensures (State(), ok) == StoreF(alloc, old(State()), t, ptr, v)
      ensures buf == old(buf) || fresh(buf)
      decreases t, 0
    {
      match t
      case PrimT(p) =>
        var raw := LowerPrim(p, v);
        if raw.None? {
          return false;
        }
        ok := Write(ptr, LE(raw.value, PrimSize(p)));
      case StringT =>
        if !v.VString? {
          return false;
        }
        var header := LowerStringBody(v.text);
        if header.None? {
          return false;
        }
        ok := WriteHeader(ptr, header.value.0, header.value.1);
      case EnumT(n) =>
        if !(v.VU32? && v.a32 < n) {
          return false;
        }
        ok := Write(ptr, LE(v.a32, DiscSize(n)));
      case ListT(e) =>
        var header := LowerListBody(e, v);
        if header.None? {
          return false;
        }
        ok := WriteHeader(ptr, header.value.0, header.value.1);
      case RecordT(fs) =>
        if !v.VSlice? || |v.elems| != |fs| {
          return false;
        }
        ok := StoreRecord(fs, ptr, v.elems);
      case VariantT(k, cs) => ok := StoreVariantAt(k, cs, ptr, v);
    }

    method StoreVariantAt(k: VariantKind, cs: seq<Case>, ptr: nat, v: Val) returns (ok: bool)
      modifies this, buf
      ensures (State(), ok) == StoreVariant(alloc, old(State()), k, cs, ptr, v)
      ensures buf == old(buf) || fresh(buf)
      decreases cs, 1
    {
      if (k != KindVariant && |cs| != 2) || Unwrap(k, |cs|, v).None? {
        return false;
      }
      var (d, payload) := Unwrap(k, |cs|, v).value;
      ok := Write(ptr, LE(d, DiscSize(|cs|)));
      if ok {
        ok := StorePayload(cs[d], PayloadAddr(cs, ptr), payload);
      }
    }

    method StorePayload(c: Case, ptr: nat, v: Val) returns (ok: bool)
      modifies this, buf
      ensures (State(), ok) == StoreCase(alloc, old(State()), c, ptr, v)
      ensures buf == old(buf) || fresh(buf)
      decreases c, 0
    {
      match c
      case NoPayload => ok := true;
      case Payload(t) => ok := Store(t, ptr, v);
    }

    method StoreRecord(fs: seq<Ty>, ptr: nat, vs: seq<Val>) returns (ok: bool)
      requires |vs| == |fs|
      modifies this, buf
      ensures (State(), ok) == StoreFields(alloc, old(State()), fs, ptr, vs, 0)
      ensures buf == old(buf) || fresh(buf)
      decreases fs, 1
    {
      for i := 0 to |fs|
        invariant buf == old(buf) || fresh(buf)
        invariant StoreFields(alloc, old(State()), fs, ptr, vs, 0) == StoreFields(alloc, State(), fs, ptr, vs, i)
      {
        ok := Store(fs[i], FieldAddr(fs, ptr, i), vs[i]);
        if !ok {
          return;
        }
      }
      ok := true;
    }

    method LowerStringBody(s: seq<byte>) returns (r: Option<(u32, u32)>)
      modifies this, buf
      ensures (State(), r) == LowerString(alloc, old(State()), s)
      ensures buf == old(buf) || fresh(buf)
    {
      if |s| >= TWO32 {
        return None;
      }
      if |s| == 0 {
        return Some((0, 0));
      }
      r := LowerBody(s);
    }

    method LowerBody(b: seq<byte>) returns (r: Option<(u32, u32)>)
      modifies this, buf
      ensures (State(), r) == LowerBytes(alloc, old(State()), b)
      ensures buf == old(buf) || fresh(buf)
    {
      var p := Realloc(|b| % TWO32, 1);
      if p.None? {
        return None;
      }
      var ok := Write(p.value, b);
      r := if ok then Some((p.value, |b| % TWO32)) else None;
    }

    method LowerListBody(e: Ty, v: Val) returns (r: Option<(u32, u32)>)
      modifies this, buf
      ensures (State(), r) == LowerList(alloc, old(State()), e, v)
      ensures buf == old(buf) || fresh(buf)
      decreases e, 2
    {
      if e == PrimT(U8) {
        if !v.VBytes? {
          return None;
        }
        if |v.bytes| == 0 {
          return Some((0, 0));
        }
        r := LowerBody(v.bytes);
      } else {
        if !v.VSlice? {
          return None;
        }
        if |v.elems| == 0 {
          return Some((0, 0));
        }
        var p := Realloc(Span(e, |v.elems|) % TWO32, Align(e));
        if p.None? {
          return None;
        }
        var ok := StoreListElems(e, p.value, v.elems);
        r := if ok then Some((p.value, |v.elems| % TWO32)) else None;
      }
    }

    method StoreListElems(e: Ty, p: nat, vs: seq<Val>) returns (ok: bool)
      modifies this, buf
      ensures (State(), ok) == StoreElems(alloc, old(State()), e, p, vs, 0)
      ensures buf == old(buf) || fresh(buf)
      decreases e, 1
    {
      for i := 0 to |vs|
        invariant buf == old(buf) || fresh(buf)
        invariant StoreElems(alloc, old(State()), e, p, vs, 0) == StoreElems(alloc, State(), e, p, vs, i)
      {
        ok := Store(e, ElemAddr(e, p, i), vs[i]);
        if !ok {
          return;
        }
      }
      ok := true;
    }

    // ---- lifting ----

    /** What a lift through a reader must do: give the value and move the reader on, or fail. */
    ghost predicate LiftedFrom<T>(want: Option<(T, nat)>, got: Option<T>, pos: nat) {
      match want
      case None => got == None
      case Some((v, p)) => got == Some(v) && pos == p
    }

    /** A lift of the remaining fields, with the values already read put in front. */
    ghost function After(vs: seq<Val>, r: Option<(seq<Val>, nat)>): Option<(seq<Val>, nat)> {
      match r
      case None => None
      case Some((rest, p)) => Some((vs + rest, p))
    }

    lemma NothingBefore(r: Option<(seq<Val>, nat)>)
      ensures After([], r) == r
    {
      assert r.Some? ==> [] + r.value.0 == r.value.0;
    }

    lemma OneMore(vs: seq<Val>, v: Val, r: Option<(seq<Val>, nat)>)
      ensures After(vs + [v], r) == After(vs, After([v], r))
    {
      assert r.Some? ==> (vs + [v]) + r.value.0 == vs + ([v] + r.value.0);
    }

    method LiftFlatOne(t: Ty, r: FlatReader) returns (v: Option<Val>)
      modifies r
      ensures LiftedFrom(LiftF(buf[..], t, r.stack, old(r.pos)), v, r.pos)
      decreases t, 0
    {
      match t
      case PrimT(p) =>
        var raw := r.Next();
        if raw.None? {
          return None;
        }
        v := LiftPrim(p, raw.value);
      case StringT =>
        var p := r.Next();
        if p.None? {
          return None;
        }
        var n := r.Next();
        if n.None? {
          return None;
        }
        v := LoadString(buf[..], p.value % TWO32, n.value % TWO32);
      case EnumT(n) =>
        var raw := r.Next();
        if raw.None? || raw.value % TWO32 >= n {
          return None;
        }
        v := Some(VU32(raw.value % TWO32));
      case ListT(e) =>
        var p := r.Next();
        if p.None? {
          return None;
        }
        var n := r.Next();
        if n.None? {
          return None;
        }
        v := LoadListElems(e, p.value % TWO32, n.value % TWO32);
      case RecordT(fs) =>
        var vs := LiftFlat(fs, r);
        v := if vs.Some? then Some(VSlice(vs.value)) else None;
      case VariantT(k, cs) => v := LiftFlatVariant(k, cs, r);
    }

    /** LiftFlat's loop, and the record case's. */
    method LiftFlat(ts: seq<Ty>, r: FlatReader) returns (out: Option<seq<Val>>)
      modifies r
      ensures LiftedFrom(LiftFields(buf[..], ts, r.stack, old(r.pos), 0), out, r.pos)
      decreases ts, 1
    {
      var vs: seq<Val> := [];
      NothingBefore(LiftFields(buf[..], ts, r.stack, r.pos, 0));
      for i := 0 to |ts|
        invariant |vs| == i
        invariant LiftFields(buf[..], ts, r.stack, old(r.pos), 0) ==
                  After(vs, LiftFields(buf[..], ts, r.stack, r.pos, i))
      {
        ghost var before := vs;
        var v := LiftFlatOne(ts[i], r);
        if v.None? {
          return None;
        }
        vs := vs + [v.value];
        OneMore(before, v.value, LiftFields(buf[..], ts, r.stack, r.pos, i + 1));
      }
      assert vs + [] == vs;
      out := Some(vs);
    }

    method LiftFlatVariant(k: VariantKind, cs: seq<Case>, r: FlatReader) returns (v: Option<Val>)
      modifies r
      ensures LiftedFrom(LiftVariant(buf[..], k, cs, r.stack, old(r.pos)), v, r.pos)
      decreases cs, 1
    {
      var raw := r.Next();
      if raw.None? || raw.value % TWO32 >= |cs| {
        return None;
      }
      var d := raw.value % TWO32;
      var joined := |CasesFlat(cs, |cs|)|;
      var window: seq<u64> := [];
      var start := r.pos;
      for i := 0 to joined
        invariant r.pos == start + i <= |r.stack| && window == r.stack[start..r.pos]
      {
        var w := r.Next();
        if w.None? {
          return None;
        }
        window := window + [w.value];
      }
      var payload := LiftPayload(cs[d], window);
      v := if payload.Some? then Some(Wrap(k, d, payload.value)) else None;
    }

    method LiftPayload(c: Case, window: seq<u64>) returns (v: Option<Val>)
      ensures v == LiftCase(buf[..], c, window)
      decreases c, 0
    {
      match c
      case NoPayload => v := Some(Nil);
      case Payload(t) =>
        var sub := new FlatReader(window);
        v := LiftFlatOne(t, sub);
    }

    // ---- lowering ----

    method LowerFlatOne(t: Ty, v: Val) returns (out: Option<seq<u64>>)
      modifies this, buf
      ensures (State(), out) == LowerF(alloc, old(State()), t, v)
      ensures buf == old(buf) || fresh(buf)
      decreases t, 0
    {
      match t
      case PrimT(p) =>
        var raw := LowerPrim(p, v);
        out := if raw.Some? then Some([raw.value]) else None;
      case StringT =>
        if !v.VString? {
          return None;
        }
        var header := LowerStringBody(v.text);
        out := if header.Some? then Some([header.value.0, header.value.1]) else None;
      case EnumT(n) => out := if v.VU32? && v.a32 < n then Some([v.a32]) else None;
      case ListT(e) =>
        var header := LowerListBody(e, v);
        out := if header.Some? then Some([header.value.0, header.value.1]) else None;
      case RecordT(fs) =>
        if !v.VSlice? || |v.elems| != |fs| {
          return None;
        }
        out := LowerFlat(fs, v.elems);
      case VariantT(k, cs) => out := LowerFlatVariant(k, cs, v);
    }

    /** LowerFlat's loop, and the record case's. */
    method LowerFlat(ts: seq<Ty>, vs: seq<Val>) returns (out: Option<seq<u64>>)
      requires |ts| == |vs|
      modifies this, buf
      ensures (State(), out) == LowerFields(alloc, old(State()), ts, vs, 0)
      ensures buf == old(buf) || fresh(buf)
      decreases ts, 1
    {
      var words: seq<u64> := [];
      NoWordsBefore(LowerFields(alloc, State(), ts, vs, 0));
      for i := 0 to |ts|
        invariant buf == old(buf) || fresh(buf)
        invariant LowerFields(alloc, old(State()), ts, vs, 0) ==
                  WordsAfter(words, LowerFields(alloc, State(), ts, vs, i))
      {
        ghost var before := words;
        var flat := LowerFlatOne(ts[i], vs[i]);
        if flat.None? {
          return None;
        }
        words := words + flat.value;
        MoreWords(before, flat.value, LowerFields(alloc, State(), ts, vs, i + 1));
      }
      assert words + [] == words;
      out := Some(words);
    }

    /** A lowering of the remaining fields, with the words already produced put in front. */
    ghost function WordsAfter(words: seq<u64>, r: (Heap, Option<seq<u64>>)): (Heap, Option<seq<u64>>) {
      match r
      case (h, None) => (h, None)
      case (h, Some(rest)) => (h, Some(words + rest))
    }

    lemma NoWordsBefore(r: (Heap, Option<seq<u64>>))
      ensures WordsAfter([], r) == r
    {
      assert r.1.Some? ==> [] + r.1.value == r.1.value;
    }

    lemma MoreWords(words: seq<u64>, flat: seq<u64>, r: (Heap, Option<seq<u64>>))
      ensures WordsAfter(words + flat, r) == WordsAfter(words, WordsAfter(flat, r))
    {
      assert r.1.Some? ==> (words + flat) + r.1.value == words + (flat + r.1.value);
    }

    method LowerFlatVariant(k: VariantKind, cs: seq<Case>, v: Val) returns (out: Option<seq<u64>>)
      modifies this, buf
      ensures (State(), out) == LowerVariant(alloc, old(State()), k, cs, v)
      ensures buf == old(buf) || fresh(buf)
      decreases cs, 1
    {
      if (k != KindVariant && |cs| != 2) || Unwrap(k, |cs|, v).None? {
        return None;
      }
      var (d, payload) := Unwrap(k, |cs|, v).value;
      var joined := |CasesFlat(cs, |cs|)|;
      var flat := LowerPayload(cs[d], payload);
      out := if flat.Some? then Some([d] + Padded(flat.value, joined)) else None;
    }

    method LowerPayload(c: Case, v: Val) returns (out: Option<seq<u64>>)
      modifies this, buf
      ensures (State(), out) == LowerCase(alloc, old(State()), c, v)
      ensures buf == old(buf) || fresh(buf)
      decreases c, 0
    {
      match c
      case NoPayload => out := Some([]);
      case Payload(t) => out := LowerFlatOne(t, v);
    }

    // ---- calls ----

    /** Another party ran in this instance and left it in state h. */
    method Become(h: Heap)
      modifies this
      ensures State() == h && fresh(buf)
    {
      buf := new byte[|h.mem|](i requires 0 <= i < |h.mem| => h.mem[i]);
      live, calls, starved := h.live, h.calls, h.starved;
    }

    method LowerArguments(ft: FuncType, args: seq<Val>) returns (core: Option<seq<u64>>)
      modifies this, buf
      ensures (State(), core) == LowerArgs(alloc, old(State()), ft, args)
      ensures buf == old(buf) || fresh(buf)
    {
      if |args| != |ft.params| {
        return None;
      }
      if ParamsSpilled(ft) {
        var rec := RecordT(ft.params);
        var ptr := Realloc(Size(rec), Align(rec));
        if ptr.None? {
          return None;
        }
        var ok := Store(rec, ptr.value, VSlice(args));
        core := if ok then Some([ptr.value]) else None;
      } else {
        core := LowerFlat(ft.params, args);
      }
    }

    method LiftCoreResult(ft: FuncType, res: seq<u64>) returns (r: Option<Val>)
      ensures r == LiftResult(buf[..], ft, res)
    {
      if ft.result.None? {
        return Some(Nil);
      }
      if |res| != 1 {
        return None;
      }
      if ResultIndirect(ft) {
        r := Load(ft.result.value, res[0] % TWO32);
      } else {
        var reader := new FlatReader(res);
        var vals := LiftFlat([ft.result.value], reader);
        SingleLift(buf[..], ft.result.value, res);
        r := if vals.Some? then Some(vals.value[0]) else None;
      }
    }

    method CallExport(ft: FuncType, args: seq<Val>, code: GuestCode, post: Option<PostReturn>) returns (r: Option<Val>)
      modifies this, buf
      ensures (State(), r) == AbiCall.CallExport(alloc, old(State()), ft, args, code, post)
    {
      var core := LowerArguments(ft, args);
      if core.None? {
        return None;
      }
      var reply := code(State(), core.value);
      Become(reply.heap);
      if reply.Trap? {
        return None;
      }
      r := LiftCoreResult(ft, reply.res);
      if r.Some? && ft.result.Some? && ResultIndirect(ft) && post.Some? {
        var (h, ok) := post.value(State(), reply.res[0]);
        Become(h);
        if !ok {
          r := None;
        }
      }
    }

    /** NewHostFunc's closure; false is a trap. A direct result overwrites stack[0]. */
    method HostFunc(ft: FuncType, impl: HostImpl, stack: array<u64>) returns (ok: bool)
      requires |HostSig(ft).0| <= stack.Length && |HostSig(ft).1| <= stack.Length && stack as object != buf
      modifies this, buf, stack
      ensures var (h, r) := HostCall(alloc, old(State()), ft, impl, old(stack[..]));
              State() == h && ok == r.Some? && (ok ==> stack[..] == r.value)
    {
      var args := LiftArguments(ft, stack[..]);
      if args.None? {
        return false;
      }
      var result := impl(args.value);
      if result.None? {
        return false;
      }
      ok := true;
      if |FlatResults(ft)| == 0 {
      } else if |FlatResults(ft)| <= MAX_FLAT_RESULTS {
        SingleLower(alloc, State(), ft.result.value, result.value);
        var flat := LowerFlat([ft.result.value], [result.value]);
        if flat.None? || |flat.value| == 0 {
          return false;
        }
        stack[0] := flat.value[0];
      } else {
        ok := Store(ft.result.value, stack[|HostSig(ft).0| - 1] % TWO32, result.value);
      }
    }

    method LiftArguments(ft: FuncType, stack: seq<u64>) returns (args: Option<seq<Val>>)
      requires |ArgSig(ft)| <= |stack|
      ensures args == LiftArgs(buf[..], ft, stack)
    {
      if ParamsSpilled(ft) {
        var v := Load(RecordT(ft.params), stack[0] % TWO32);
        args := if v.Some? && v.value.VSlice? then Some(v.value.elems) else None;
      } else {
        var reader := new FlatReader(stack[..|FlatParams(ft)|]);
        args := LiftFlat(ft.params, reader);
      }
    }

    static lemma SingleLift(m: seq<byte>, t: Ty, s: seq<u64>)
      ensures LiftFields(m, [t], s, 0, 0) ==
              match LiftF(m, t, s, 0)
              case None => None
              case Some((v, p)) => Some(([v], p))
    {
      hide LiftF;
      match LiftF(m, t, s, 0)
      case None =>
      case Some((v, p)) =>
        assert LiftFields(m, [t], s, p, 1) == Some(([], p));
        assert [v] + [] == [v];
    }

    static lemma SingleLower(alloc: Alloc, h: Heap, t: Ty, v: Val)
      ensures LowerFields(alloc, h, [t], [v], 0) == LowerF(alloc, h, t, v)
    {
      hide LowerF;
      match LowerF(alloc, h, t, v)
      case (h1, None) =>
      case (h1, Some(flat)) =>
        assert LowerFields(alloc, h1, [t], [v], 1) == (h1, Some([]));
        assert flat + [] == flat;
    }
  }
}
