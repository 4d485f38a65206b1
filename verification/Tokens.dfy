/** What the operations of the Caddyfile token dispenser do, in its Go and its Rust form, to a cursor over
    tokens and a nesting level; conditions with effects of their own are spelled out. */
module Tokens {
  import opened Words

  datatype Token = Token(file: string, line: nat, text: string, quoted: bool)

  /** The two ports. Go adds line numbers and nesting levels as 64-bit integers, taken as unbounded here;
      Rust adds u32 lines and i32 levels, which wrap around. */
  datatype Port = Go | Rust

  type i32 = n: int | -0x8000_0000 <= n < 0x8000_0000

  /** The number of line breaks in a text. */
  function Breaks(text: string): nat {
    if |text| == 0 then 0 else (if text[0] == '\n' then 1 else 0) + Breaks(text[1..])
  }

  /** The line a token ends on. */
  function LastLine(p: Port, t: Token): nat {
    if p.Go? then t.line + Breaks(t.text) else Add32(t.line, Breaks(t.text) % TWO32)
  }

  predicate OnNewLine(p: Port, t1: Token, t2: Token) {
    t1.file != t2.file || LastLine(p, t1) < t2.line
  }

  /** A nesting level moved by one. */
  function Level(p: Port, n: int): int {
    if p.Go? then n else ToSigned(n % TWO32, TWO32)
  }

  // ---- what the operations do ----

  datatype Pos = Pos(cursor: int, nesting: int)

  datatype Moved = Moved(ok: bool, at: Pos)

  /** The texts an operation took, and whether it is content. */
  datatype Taken = Taken(ok: bool, texts: seq<string>, at: Pos)

  /** Where the operations keep the cursor: before the tokens or on one of them; with no token at all,
      nextOnSameLine still steps to 0. */
  predicate InRange(ts: seq<Token>, s: Pos) {
    -1 <= s.cursor && (s.cursor < |ts| || s.cursor == 0)
  }

  predicate Loaded(ts: seq<Token>, s: Pos) {
    0 <= s.cursor < |ts|
  }

  function Val(ts: seq<Token>, s: Pos): string {
    if Loaded(ts, s) then ts[s.cursor].text else ""
  }

  predicate Quoted(ts: seq<Token>, s: Pos) {
    Loaded(ts, s) && ts[s.cursor].quoted
  }

  predicate IsOpen(ts: seq<Token>, s: Pos) {
    Val(ts, s) == "{" && !Quoted(ts, s)
  }

  predicate IsClose(ts: seq<Token>, s: Pos) {
    Val(ts, s) == "}" && !Quoted(ts, s)
  }

  function Forth(s: Pos): Pos {
    s.(cursor := s.cursor + 1)
  }

  function Back(s: Pos): Pos {
    s.(cursor := s.cursor - 1)
  }

  function Next(ts: seq<Token>, s: Pos): Moved {
    if s.cursor < |ts| - 1 then Moved(true, Forth(s)) else Moved(false, s)
  }

  function Prev(s: Pos): Moved {
    if s.cursor > -1 then Moved(s.cursor - 1 > -1, Back(s)) else Moved(false, s)
  }

  /** nextOnSameLine for `newLine` false, NextLine for `newLine` true. */
  function NextIf(p: Port, ts: seq<Token>, s: Pos, newLine: bool): Moved
    requires InRange(ts, s)
  {
    if s.cursor < 0 then Moved(true, Forth(s))
    else if s.cursor >= |ts| - 1 then Moved(false, s)
    else if OnNewLine(p, ts[s.cursor], ts[s.cursor + 1]) == newLine then Moved(true, Forth(s))
    else Moved(false, s)
  }

  function NextArg(p: Port, ts: seq<Token>, s: Pos): Moved
    requires InRange(ts, s)
  {
    var n := NextIf(p, ts, s, false);
    if !n.ok then n
    else if IsOpen(ts, n.at) then Moved(false, Back(n.at))
    else n
  }

  /** The brace tests of NextBlock inside a block: a closing brace counts when nothing follows on its
      line; otherwise the cursor has moved on, and an opening brace there counts in the same way. */
  function Braces(p: Port, ts: seq<Token>, s: Pos): Pos
    requires InRange(ts, s)
  {
    var c := if IsClose(ts, s) then NextIf(p, ts, s, false) else Moved(true, s);
    if !c.ok then c.at.(nesting := Level(p, c.at.nesting - 1))
    else
      var o := if IsOpen(ts, c.at) then NextIf(p, ts, c.at, false) else Moved(true, c.at);
      if !o.ok then o.at.(nesting := Level(p, o.at.nesting + 1)) else o.at
  }

  function NextBlock(p: Port, ts: seq<Token>, s: Pos, initial: int): Moved
    requires InRange(ts, s)
  {
    if s.nesting > initial then
      var n := Next(ts, s);
      if !n.ok then n
      else
        var b := Braces(p, ts, n.at);
        Moved(b.nesting > initial, b)
    else
      var n := NextIf(p, ts, s, false);
      if !n.ok then n
      else if !IsOpen(ts, n.at) then Moved(false, Back(n.at))
      else
        var b := Next(ts, n.at).at;
        if IsClose(ts, b) then Moved(false, b)
        else Moved(true, b.(nesting := Level(p, b.nesting + 1)))
  }

  /** Any more arguments. */
  function Remaining(p: Port, ts: seq<Token>, s: Pos): (r: Taken)
    requires InRange(ts, s)
    ensures r.ok && InRange(ts, r.at)
    ensures r.at == s.(cursor := s.cursor + |r.texts|)
    decreases |ts| - s.cursor
  {
    var n := NextArg(p, ts, s);
    if !n.ok then Taken(true, [], n.at)
    else
      var r := Remaining(p, ts, n.at);
      Taken(true, [Val(ts, n.at)] + r.texts, r.at)
  }

  /** Arguments for n targets. */
  function Args(p: Port, ts: seq<Token>, s: Pos, n: nat): (r: Taken)
    requires InRange(ts, s)
    ensures InRange(ts, r.at) && r.at == s.(cursor := s.cursor + |r.texts|)
    ensures |r.texts| <= n && (r.ok <==> |r.texts| == n)
    decreases n
  {
    if n == 0 then Taken(true, [], s)
    else
      var m := NextArg(p, ts, s);
      if !m.ok then Taken(false, [], m.at)
      else
        var r := Args(p, ts, m.at, n - 1);
        Taken(r.ok, [Val(ts, m.at)] + r.texts, r.at)
  }

  lemma ArgsUnfold(p: Port, ts: seq<Token>, s: Pos, n: nat)
    requires InRange(ts, s)
    ensures n == 0 ==> Args(p, ts, s, n) == Taken(true, [], s)
    ensures n > 0 ==>
              var m := NextArg(p, ts, s);
              Args(p, ts, s, n) ==
                if !m.ok then Taken(false, [], m.at)
                else var r := Args(p, ts, m.at, n - 1); Taken(r.ok, [Val(ts, m.at)] + r.texts, r.at)
  {
  }

  function AllArgs(p: Port, ts: seq<Token>, s: Pos, n: nat): Taken
    requires InRange(ts, s)
  {
    var r := Args(p, ts, s, n);
    if !r.ok then r
    else
      var m := NextArg(p, ts, r.at);
      Taken(!m.ok, r.texts, if m.ok then Prev(m.at).at else m.at)
  }

  // ---- lockstep ----

  datatype Op =
    | DoNext | DoPrev | DoNextArg | DoNextLine | DoNextBlock(initial: i32)
    | DoRemainingArgs | DoCountRemainingArgs | DoArgs(n: nat) | DoAllArgs(n: nat) | DoReset

  datatype Answer = Answer(ok: bool, texts: seq<string>, count: nat)

  datatype Reply = Reply(answer: Answer, at: Pos)

  function OfMoved(m: Moved): Reply {
    Reply(Answer(m.ok, [], 0), m.at)
  }

  function OfTaken(r: Taken): Reply {
    Reply(Answer(r.ok, r.texts, 0), r.at)
  }

  /** One operation: its answer and where it leaves the dispenser. */
  function Performed(p: Port, ts: seq<Token>, s: Pos, op: Op): (r: Reply)
    requires InRange(ts, s)
    ensures InRange(ts, r.at)
  {
    match op
    case DoNext => OfMoved(Next(ts, s))
    case DoPrev => OfMoved(Prev(s))
    case DoNextArg => OfMoved(NextArg(p, ts, s))
    case DoNextLine => OfMoved(NextIf(p, ts, s, true))
    case DoNextBlock(initial) => OfMoved(NextBlock(p, ts, s, initial))
    case DoRemainingArgs => OfTaken(Remaining(p, ts, s))
    case DoCountRemainingArgs => Reply(Answer(true, [], |Remaining(p, ts, s).texts|), s)
    case DoArgs(n) => OfTaken(Args(p, ts, s, n))
    case DoAllArgs(n) => OfTaken(AllArgs(p, ts, s, n))
    case DoReset => Reply(Answer(true, [], 0), Pos(-1, 0))
  }

  /** No line number overflows u32 by the line breaks of its token. */
  ghost predicate LinesFit(ts: seq<Token>) {
    forall i :: 0 <= i < |ts| ==> ts[i].line + Breaks(ts[i].text) < TWO32
  }

  /** The ports agree on a new line exactly when the line number fits, or wraps to no earlier a line. */
  lemma PortsAgreeOnLine(t1: Token, t2: Token)
    requires t1.line < TWO32 && t2.line < TWO32
    ensures OnNewLine(Go, t1, t2) == OnNewLine(Rust, t1, t2) <==>
              t1.file != t2.file || t1.line + Breaks(t1.text) < TWO32 || LastLine(Rust, t1) >= t2.line
  {
    var sum := t1.line + Breaks(t1.text);
    if sum < TWO32 {
      assert LastLine(Rust, t1) == sum;
    }
  }

  lemma PortsAgreeOnNext(ts: seq<Token>, s: Pos, newLine: bool)
    requires LinesFit(ts) && InRange(ts, s)
    ensures NextIf(Go, ts, s, newLine) == NextIf(Rust, ts, s, newLine)
  {
    if 0 <= s.cursor < |ts| - 1 {
      PortsAgreeOnLine(ts[s.cursor], ts[s.cursor + 1]);
    }
  }

  lemma {:induction false} PortsAgreeOnRemaining(ts: seq<Token>, s: Pos)
    requires LinesFit(ts) && InRange(ts, s)
    ensures Remaining(Go, ts, s) == Remaining(Rust, ts, s)
    decreases |ts| - s.cursor
  {
    PortsAgreeOnNext(ts, s, false);
    var n := NextArg(Go, ts, s);
    if n.ok {
      PortsAgreeOnRemaining(ts, n.at);
    }
  }

  lemma {:induction false} PortsAgreeOnArgs(ts: seq<Token>, s: Pos, n: nat)
    requires LinesFit(ts) && InRange(ts, s)
    ensures Args(Go, ts, s, n) == Args(Rust, ts, s, n)
    ensures AllArgs(Go, ts, s, n) == AllArgs(Rust, ts, s, n)
    decreases n
  {
    PortsAgreeOnNext(ts, s, false);
    var m := NextArg(Go, ts, s);
    if n > 0 && m.ok {
      PortsAgreeOnArgs(ts, m.at, n - 1);
    }
    PortsAgreeOnNext(ts, Args(Go, ts, s, n).at, false);
  }

  lemma LevelFits(n: int)
    requires -0x8000_0000 <= n < 0x8000_0000
    ensures Level(Rust, n) == n
  {
    if n < 0 {
      assert n % TWO32 == n + TWO32;
    }
  }

  lemma PortsAgreeOnBlock(ts: seq<Token>, s: Pos, initial: i32)
    requires LinesFit(ts) && InRange(ts, s) && -0x8000_0000 <= s.nesting < 0x7fff_ffff
    ensures NextBlock(Go, ts, s, initial) == NextBlock(Rust, ts, s, initial)
    ensures -0x8000_0000 <= NextBlock(Go, ts, s, initial).at.nesting <= s.nesting + 1
  {
    hide OnNewLine;
    PortsAgreeOnNext(ts, s, false);
    var n := Next(ts, s).at;
    PortsAgreeOnNext(ts, n, false);
    if IsClose(ts, n) {
      PortsAgreeOnNext(ts, NextIf(Go, ts, n, false).at, false);
    }
    LevelFits(s.nesting + 1);
    if s.nesting > initial {
      LevelFits(s.nesting - 1);
    }
  }

  lemma PortsAgree(ts: seq<Token>, s: Pos, op: Op)
    requires LinesFit(ts) && InRange(ts, s) && -0x8000_0000 <= s.nesting < 0x7fff_ffff
    ensures Performed(Go, ts, s, op) == Performed(Rust, ts, s, op)
    ensures -0x8000_0000 <= Performed(Go, ts, s, op).at.nesting <= Max(s.nesting + 1, 0)
  {
    hide NextBlock, OnNewLine, LinesFit, Breaks;
    PortsAgreeOnNext(ts, s, false);
    PortsAgreeOnNext(ts, s, true);
    match op
    case DoNextBlock(initial) => PortsAgreeOnBlock(ts, s, initial);
    case DoRemainingArgs => PortsAgreeOnRemaining(ts, s);
    case DoCountRemainingArgs => PortsAgreeOnRemaining(ts, s);
    case DoArgs(n) => PortsAgreeOnArgs(ts, s, n);
    case DoAllArgs(n) => PortsAgreeOnArgs(ts, s, n);
    case _ =>
  }

  /** The answers of a sequence of operations, and where it ends. */
  function AllPerformed(p: Port, ts: seq<Token>, s: Pos, ops: seq<Op>): (seq<Answer>, Pos)
    requires InRange(ts, s)
    decreases |ops|
  {
    if |ops| == 0 then ([], s)
    else
      var r := Performed(p, ts, s, ops[0]);
      var (answers, at) := AllPerformed(p, ts, r.at, ops[1..]);
      ([r.answer] + answers, at)
  }

  /** On every token list whose lines fit and every sequence of operations short of 2^31, from any level
      that leaves room for them, the ports give the same answers and end in the same place. */
  lemma {:induction false} Lockstep(ts: seq<Token>, s: Pos, ops: seq<Op>)
    requires LinesFit(ts) && InRange(ts, s)
    requires |ops| < 0x8000_0000 && -0x8000_0000 <= s.nesting < 0x8000_0000 - |ops|
    ensures AllPerformed(Go, ts, s, ops) == AllPerformed(Rust, ts, s, ops)
    decreases |ops|
  {
    hide Performed, LinesFit;
    if |ops| > 0 {
      PortsAgree(ts, s, ops[0]);
      Lockstep(ts, Performed(Go, ts, s, ops[0]).at, ops[1..]);
    }
  }

  // ---- progress and arguments ----

  /** A NextBlock that returns true has moved the cursor on, by no more than to the last token, so every
      loop over it ends. */
  lemma NextBlockAdvances(p: Port, ts: seq<Token>, s: Pos, initial: int)
    requires InRange(ts, s)
    ensures var n := NextBlock(p, ts, s, initial);
            && InRange(ts, n.at)
            && (n.ok ==> s.cursor < n.at.cursor)
            && (p.Go? && n.ok && s.nesting >= initial ==> n.at.nesting > initial)
            && (!n.ok && s.nesting > initial && n.at.nesting > initial ==> s.cursor >= |ts| - 1)
  {
  }

  /** t is an argument after its neighbour: on the same line and no opening brace. */
  predicate Argument(p: Port, t1: Token, t: Token) {
    !OnNewLine(p, t1, t) && !(t.text == "{" && !t.quoted)
  }

  lemma NextArgIsArgument(p: Port, ts: seq<Token>, s: Pos)
    requires Loaded(ts, s)
    ensures NextArg(p, ts, s) ==
              if s.cursor + 1 < |ts| && Argument(p, ts[s.cursor], ts[s.cursor + 1])
              then Moved(true, Forth(s)) else Moved(false, s)
  {
  }

  lemma RemainingUnfolds(p: Port, ts: seq<Token>, s: Pos)
    requires InRange(ts, s)
    ensures var n := NextArg(p, ts, s);
            Remaining(p, ts, s) ==
              if !n.ok then Taken(true, [], n.at)
              else var r := Remaining(p, ts, n.at); Taken(true, [Val(ts, n.at)] + r.texts, r.at)
  {
  }

  /** From a loaded token, the remaining arguments are the longest run of tokens that are arguments. */
  lemma {:induction false} RemainingIsLongestRun(p: Port, ts: seq<Token>, s: Pos)
    requires Loaded(ts, s)
    ensures var r := Remaining(p, ts, s);
            var e := r.at.cursor;
            && e < |ts|
            && (forall k :: s.cursor < k <= e ==>
                  Argument(p, ts[k - 1], ts[k]) && r.texts[k - s.cursor - 1] == ts[k].text)
            && (e + 1 < |ts| ==> !Argument(p, ts[e], ts[e + 1]))
    decreases |ts| - s.cursor
  {
    hide NextArg, Argument, Remaining;
    NextArgIsArgument(p, ts, s);
    RemainingUnfolds(p, ts, s);
    var n := NextArg(p, ts, s);
    if n.ok {
      RemainingIsLongestRun(p, ts, n.at);
      var rest := Remaining(p, ts, n.at);
      forall k | s.cursor + 1 < k <= rest.at.cursor
        ensures Remaining(p, ts, s).texts[k - s.cursor - 1] == ts[k].text
      {
        assert rest.texts[k - s.cursor - 2] == ts[k].text;
      }
    }
  }

  /** Args takes the first arguments there are, as many as there are targets, and succeeds exactly when there are
      enough. */
  lemma {:induction false} ArgsAreFirst(p: Port, ts: seq<Token>, s: Pos, n: nat)
    requires InRange(ts, s)
    ensures var r, all := Args(p, ts, s, n), Remaining(p, ts, s).texts;
            && (r.ok <==> n <= |all|)
            && r.texts == all[..if n < |all| then n else |all|]
    decreases n
  {
    hide NextArg, Args, Remaining;
    ArgsUnfold(p, ts, s, n);
    RemainingUnfolds(p, ts, s);
    var m := NextArg(p, ts, s);
    NextArgInRange(p, ts, s);
    if n > 0 && m.ok {
      ArgsAreFirst(p, ts, m.at, n - 1);
    }
  }

  lemma NextArgInRange(p: Port, ts: seq<Token>, s: Pos)
    requires InRange(ts, s)
    ensures var m := NextArg(p, ts, s);
            InRange(ts, m.at) && m.at == s.(cursor := s.cursor + if m.ok then 1 else 0)
  {
  }

  /** AllArgs succeeds exactly when there are as many arguments as targets; either way it takes the first ones,
      and no more than there are targets. */
  lemma AllArgsIsExact(p: Port, ts: seq<Token>, s: Pos, n: nat)
    requires InRange(ts, s)
    ensures var r, all := AllArgs(p, ts, s, n), Remaining(p, ts, s).texts;
            var k := if n < |all| then n else |all|;
            && (r.ok <==> |all| == n)
            && r.texts == all[..k]
            && r.at == s.(cursor := s.cursor + k)
  {
    hide NextArg, Args, Remaining;
    ArgsAreFirst(p, ts, s, n);
    var r := Args(p, ts, s, n);
    NextArgInRange(p, ts, r.at);
    if r.ok {
      MoreArgsLeft(p, ts, s, n);
    }
  }

  /** After n arguments were taken there is another one exactly when there were more than n. */
  lemma {:induction false} MoreArgsLeft(p: Port, ts: seq<Token>, s: Pos, n: nat)
    requires InRange(ts, s) && Args(p, ts, s, n).ok
    ensures NextArg(p, ts, Args(p, ts, s, n).at).ok <==> n < |Remaining(p, ts, s).texts|
    decreases n
  {
    hide NextArg, Args, Remaining;
    ArgsUnfold(p, ts, s, n);
    RemainingUnfolds(p, ts, s);
    NextArgInRange(p, ts, s);
    if n > 0 {
      MoreArgsLeft(p, ts, NextArg(p, ts, s).at, n - 1);
    }
  }

  // ---- the steps, in terms of the tokens ----

  /** The places of line breaks in a text. */
  function BreaksIn(text: string): set<nat> {
    set i: nat | i < |text| && text[i] == '\n'
  }

  lemma {:induction false} BreaksAreCounted(text: string)
    ensures Breaks(text) == |BreaksIn(text)|
  {
    if |text| > 0 {
      BreaksAreCounted(text[1..]);
      var rest := BreaksIn(text[1..]);
      var shifted := set i: nat | i in rest :: i + 1;
      ShiftKeepsCount(rest, shifted);
      assert BreaksIn(text) == (if text[0] == '\n' then {0} else {}) + shifted by {
        forall i: nat
          ensures i in shifted <==> i > 0 && i < |text| && text[i] == '\n'
        {
          if 0 < i < |text| && text[i] == '\n' {
            assert i - 1 in rest;
          }
        }
      }
    }
  }

  lemma {:induction false} ShiftKeepsCount(a: set<nat>, b: set<nat>)
    requires forall i: nat :: i in b <==> i > 0 && i - 1 in a
    ensures |a| == |b|
    decreases |a|
  {
    if x :| x in a {
      ShiftKeepsCount(a - {x}, b - {x + 1});
    }
  }

  /** A token starts a new line exactly when it is in another file or on a later line than the one before it
      ends on; the Rust port adds the line breaks modulo 2^32. */
  lemma NewLineIs(t1: Token, t2: Token)
    ensures OnNewLine(Go, t1, t2) <==> t1.file != t2.file || t1.line + |BreaksIn(t1.text)| < t2.line
    ensures OnNewLine(Rust, t1, t2) <==>
              t1.file != t2.file || (t1.line + |BreaksIn(t1.text)|) % 0x1_0000_0000 < t2.line
  {
    BreaksAreCounted(t1.text);
    var n := Breaks(t1.text);
    assert n == (n / TWO32) * TWO32 + n % TWO32;
    var sum := t1.line + n % TWO32;
    assert t1.line + n == (n / TWO32 + sum / TWO32) * TWO32 + sum % TWO32;
    DivModUnique(t1.line + n, TWO32, n / TWO32 + sum / TWO32, sum % TWO32);
  }

  /** Next and Prev step while there is a token that way, Prev also to just before the first; NextLine steps onto
      the first token of a new line only. */
  lemma StepsAre(p: Port, ts: seq<Token>, s: Pos)
    requires InRange(ts, s)
    ensures Next(ts, s) == if s.cursor + 1 < |ts| then Moved(true, Pos(s.cursor + 1, s.nesting)) else Moved(false, s)
    ensures Prev(s) == if s.cursor >= 0 then Moved(s.cursor >= 1, Pos(s.cursor - 1, s.nesting)) else Moved(false, s)
    ensures s.cursor >= 0 ==>
              NextIf(p, ts, s, true) ==
                if s.cursor + 1 < |ts| && OnNewLine(p, ts[s.cursor], ts[s.cursor + 1])
                then Moved(true, Pos(s.cursor + 1, s.nesting)) else Moved(false, s)
    ensures s.cursor == -1 ==> NextIf(p, ts, s, true) == Moved(true, Pos(0, s.nesting))
  {
  }

  /** Nesting levels count in the integers in Go and wrap around at int32 in Rust. */
  lemma LevelIs(n: int)
    ensures Level(Go, n) == n
    ensures -0x8000_0000 <= Level(Rust, n) < 0x8000_0000 && (Level(Rust, n) - n) % 0x1_0000_0000 == 0
  {
    var q := n / TWO32;
    assert n == q * TWO32 + n % TWO32;
    if Level(Rust, n) == n % TWO32 {
      DivModUnique(Level(Rust, n) - n, TWO32, -q, 0);
    } else {
      DivModUnique(Level(Rust, n) - n, TWO32, -q - 1, 0);
    }
  }

  predicate OpenBrace(t: Token) {
    t.text == "{" && !t.quoted
  }

  predicate CloseBrace(t: Token) {
    t.text == "}" && !t.quoted
  }

  /** Nothing follows token i on its line. */
  predicate LastOnLine(p: Port, ts: seq<Token>, i: nat)
    requires i < |ts|
  {
    i + 1 >= |ts| || OnNewLine(p, ts[i], ts[i + 1])
  }

  /** Where NextBlock ends up inside a block, by the next token: a brace counts only when it is the last on its
      line, and the look at what follows a brace moves the cursor there. */
  function InsideBlock(p: Port, ts: seq<Token>, i: nat, nesting: int): Pos
    requires i < |ts|
  {
    if CloseBrace(ts[i]) && LastOnLine(p, ts, i) then Pos(i, Level(p, nesting - 1))
    else
      var j := if CloseBrace(ts[i]) then i + 1 else i;
      if !OpenBrace(ts[j]) then Pos(j, nesting)
      else if LastOnLine(p, ts, j) then Pos(j, Level(p, nesting + 1))
      else Pos(j + 1, nesting)
  }

  lemma NextBlockInside(p: Port, ts: seq<Token>, s: Pos, initial: int)
    requires InRange(ts, s) && s.nesting > initial
    ensures NextBlock(p, ts, s, initial) ==
              if s.cursor + 1 >= |ts| then Moved(false, s)
              else
                var at := InsideBlock(p, ts, s.cursor + 1, s.nesting);
                Moved(at.nesting > initial, at)
  {
    hide OnNewLine, Level;
  }

  /** Outside, a block starts with an opening brace on the line of the current token; one closed right away is
      stepped over to its closing brace. */
  lemma NextBlockOutside(p: Port, ts: seq<Token>, s: Pos, initial: int)
    requires Loaded(ts, s) && s.nesting <= initial
    ensures var i := s.cursor + 1;
            NextBlock(p, ts, s, initial) ==
              if LastOnLine(p, ts, s.cursor) || !OpenBrace(ts[i]) then Moved(false, s)
              else if i + 1 >= |ts| then Moved(true, Pos(i, Level(p, s.nesting + 1)))
              else if CloseBrace(ts[i + 1]) then Moved(false, Pos(i + 1, s.nesting))
              else Moved(true, Pos(i + 1, Level(p, s.nesting + 1)))
  {
    hide OnNewLine, Level;
  }
}
