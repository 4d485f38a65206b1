/** Trees of Caddyfile directives: printing one to tokens and walking the tokens with Next, RemainingArgs
    and nested loops over NextBlock(Nesting()) recovers it. */
module Directives {
  import opened Words
  import opened Tokens
  import Dispenser

  datatype Word = Word(text: string, quoted: bool)

  /** A directive after `skip` blank or comment lines; `braces` when a block is written, even an empty one. */
  datatype Dir = Dir(skip: nat, name: Word, args: seq<Word>, braces: bool, block: seq<Dir>)

  /** What a reader sees of a directive; a missing and an empty block look alike. */
  datatype Node = Node(name: string, args: seq<string>, children: seq<Node>)

  /** Brace texts are quoted where a bare brace would be one: names, and an opening one as an argument. */
  ghost predicate WellQuoted(d: Dir)
    decreases d
  {
    && (d.name.text == "{" || d.name.text == "}" ==> d.name.quoted)
    && (forall i :: 0 <= i < |d.args| ==> d.args[i].text == "{" ==> d.args[i].quoted)
    && (!d.braces ==> d.block == [])
    && AllQuoted(d.block)
  }

  ghost predicate AllQuoted(ds: seq<Dir>)
    decreases ds
  {
    |ds| == 0 || (WellQuoted(ds[0]) && AllQuoted(ds[1..]))
  }

  function Texts(ws: seq<Word>): (r: seq<string>)
    ensures |r| == |ws|
  {
    if |ws| == 0 then [] else [ws[0].text] + Texts(ws[1..])
  }

  function Seen(d: Dir): Node
    decreases d
  {
    Node(d.name.text, Texts(d.args), AllSeen(d.block))
  }

  function AllSeen(ds: seq<Dir>): seq<Node>
    decreases ds
  {
    if |ds| == 0 then [] else [Seen(ds[0])] + AllSeen(ds[1..])
  }

  // ---- printing ----

  /** Tokens, and a line: the one a directive ends on, or the first free one after a list. */
  datatype Printed = Printed(tokens: seq<Token>, line: nat)

  /** Words on one line; a word with line breaks moves the rest down. */
  function PrintWords(file: string, line: nat, ws: seq<Word>): (r: Printed)
    ensures |r.tokens| == |ws|
    decreases |ws|
  {
    if |ws| == 0 then Printed([], line)
    else
      var rest := PrintWords(file, line + Breaks(ws[0].text), ws[1..]);
      Printed([Token(file, line, ws[0].text, ws[0].quoted)] + rest.tokens, rest.line)
  }

  function Print(file: string, line: nat, d: Dir): (r: Printed)
    ensures |r.tokens| > 0
    decreases d
  {
    var head := PrintWords(file, line + d.skip, [d.name] + d.args);
    if !d.braces then head
    else
      var body := PrintAll(file, head.line + 1, d.block);
      var open, close := Token(file, head.line, "{", false), Token(file, body.line, "}", false);
      Printed(head.tokens + [open] + body.tokens + [close], body.line)
  }

  function PrintAll(file: string, line: nat, ds: seq<Dir>): Printed
    decreases ds
  {
    if |ds| == 0 then Printed([], line)
    else
      var first := Print(file, line, ds[0]);
      var rest := PrintAll(file, first.line + 1, ds[1..]);
      Printed(first.tokens + rest.tokens, rest.line)
  }

  // ---- walking ----

  datatype Walked = Walked(node: Node, at: Pos)

  datatype AllWalked = AllWalked(nodes: seq<Node>, at: Pos)

  /** Reads the directive whose name is the current token. */
  function Walk(p: Port, ts: seq<Token>, s: Pos): (r: Walked)
    requires InRange(ts, s)
    ensures InRange(ts, r.at) && s.cursor <= r.at.cursor
    decreases |ts| - s.cursor, 1
  {
    var a := Remaining(p, ts, s);
    var b := WalkBlock(p, ts, a.at, a.at.nesting);
    Walked(Node(Val(ts, s), a.texts, b.nodes), b.at)
  }

  function WalkBlock(p: Port, ts: seq<Token>, s: Pos, initial: int): (r: AllWalked)
    requires InRange(ts, s)
    ensures InRange(ts, r.at) && s.cursor <= r.at.cursor
    decreases |ts| - s.cursor, 0
  {
    var n := NextBlock(p, ts, s, initial);
    if !n.ok then AllWalked([], n.at)
    else
      var w := Walk(p, ts, n.at);
      var rest := WalkBlock(p, ts, w.at, initial);
      AllWalked([w.node] + rest.nodes, rest.at)
  }

  /** Reads every directive. */
  function WalkAll(p: Port, ts: seq<Token>, s: Pos): (r: AllWalked)
    requires InRange(ts, s)
    decreases |ts| - s.cursor
  {
    var n := Next(ts, s);
    if !n.ok then AllWalked([], n.at)
    else
      var w := Walk(p, ts, n.at);
      var rest := WalkAll(p, ts, w.at);
      AllWalked([w.node] + rest.nodes, rest.at)
  }

  /** The walk as plugin code writes it, over the Go dispenser. */
  method ReadDirective(d: Dispenser.GoDispenser) returns (node: Node)
    requires d.Valid()
    modifies d
    ensures d.Valid() && Walked(node, d.Here()) == Walk(Go, d.tokens, old(d.Here()))
    decreases |d.tokens| - d.cursor
  {
    hide Remaining, NextBlock, Breaks;
    var name := d.Text();
    var args := d.RemainingArgs();
    var children: seq<Node> := [];
    var nesting := d.nesting;
    ghost var start := d.Here();
    while true
      invariant d.Valid() && old(d.cursor) <= d.cursor
      invariant var rest := WalkBlock(Go, d.tokens, d.Here(), nesting);
                WalkBlock(Go, d.tokens, start, nesting) == AllWalked(children + rest.nodes, rest.at)
      decreases |d.tokens| - d.cursor
    {
      NextBlockAdvances(Go, d.tokens, d.Here(), nesting);
      var more := d.NextBlock(nesting);
      if !more {
        break;
      }
      var child := ReadDirective(d);
      children := children + [child];
    }
    node := Node(name, args, children);
  }

  method ReadAll(d: Dispenser.GoDispenser) returns (nodes: seq<Node>)
    requires d.Valid()
    modifies d
    ensures d.Valid() && AllWalked(nodes, d.Here()) == WalkAll(Go, d.tokens, old(d.Here()))
  {
    nodes := [];
    while true
      invariant d.Valid()
      invariant var rest := WalkAll(Go, d.tokens, d.Here());
                WalkAll(Go, d.tokens, old(d.Here())) == AllWalked(nodes + rest.nodes, rest.at)
      decreases |d.tokens| - d.cursor
    {
      var more := d.Next();
      if !more {
        break;
      }
      var node := ReadDirective(d);
      nodes := nodes + [node];
    }
  }

  // ---- the round trip ----

  /** Go needs nothing; in Rust lines must fit u32, and levels the tokens can still open must fit i32. */
  ghost predicate Fits(p: Port, ts: seq<Token>, s: Pos) {
    p.Rust? ==> LinesFit(ts) && -0x8000_0000 <= s.nesting && s.nesting + |ts| - s.cursor < 0x8000_0000
  }

  /** The tokens stand in ts from index i on. */
  ghost predicate Stands(ts: seq<Token>, i: nat, tokens: seq<Token>) {
    i + |tokens| <= |ts| && ts[i..i + |tokens|] == tokens
  }

  /** At index i the input is over, or another file or a line after `line` starts. */
  ghost predicate Over(ts: seq<Token>, i: nat, file: string, line: nat) {
    i >= |ts| || ts[i].file != file || ts[i].line > line
  }

  lemma StandsSplit(ts: seq<Token>, i: nat, a: seq<Token>, b: seq<Token>)
    requires Stands(ts, i, a + b)
    ensures Stands(ts, i, a) && Stands(ts, i + |a|, b)
  {
    assert ts[i..i + |a|] == (a + b)[..|a|] == a;
    assert ts[i + |a|..i + |a| + |b|] == (a + b)[|a|..] == b;
  }

  lemma StandsAt(ts: seq<Token>, i: nat, a: seq<Token>, k: nat)
    requires Stands(ts, i, a) && k < |a|
    ensures i + k < |ts| && ts[i + k] == a[k]
  {
    assert ts[i..i + |a|][k] == ts[i + k];
  }

  lemma LastLineFits(p: Port, ts: seq<Token>, s: Pos, i: nat)
    requires Fits(p, ts, s) && i < |ts|
    ensures LastLine(p, ts[i]) == ts[i].line + Breaks(ts[i].text)
  {
  }

  lemma StepsOn(p: Port, ts: seq<Token>, s: Pos)
    requires Loaded(ts, s) && s.cursor + 1 < |ts|
    requires ts[s.cursor + 1].file == ts[s.cursor].file && LastLine(p, ts[s.cursor]) == ts[s.cursor + 1].line
    ensures NextIf(p, ts, s, false) == Moved(true, Forth(s))
  {
  }

  lemma StaysAt(p: Port, ts: seq<Token>, s: Pos)
    requires Loaded(ts, s) && Over(ts, s.cursor + 1, ts[s.cursor].file, LastLine(p, ts[s.cursor]))
    ensures NextIf(p, ts, s, false) == Moved(false, s)
  {
  }

  lemma ArgTaken(p: Port, ts: seq<Token>, s: Pos)
    requires Loaded(ts, s) && s.cursor + 1 < |ts| && NextIf(p, ts, s, false).ok && !IsOpen(ts, Forth(s))
    ensures var rest := Remaining(p, ts, Forth(s));
            Remaining(p, ts, s) == Taken(true, [ts[s.cursor + 1].text] + rest.texts, rest.at)
  {
  }

  lemma NoArgLeft(p: Port, ts: seq<Token>, s: Pos)
    requires Loaded(ts, s) && (NextIf(p, ts, s, false).ok ==> IsOpen(ts, Forth(s)))
    ensures Remaining(p, ts, s) == Taken(true, [], s)
  {
  }

  lemma WordsFrom(file: string, line: nat, w: Word, ws: seq<Word>)
    ensures var rest := PrintWords(file, line + Breaks(w.text), ws);
            PrintWords(file, line, [w] + ws) == Printed([Token(file, line, w.text, w.quoted)] + rest.tokens, rest.line)
  {
    assert ([w] + ws)[1..] == ws;
  }

  /** After a printed word the rest of its words are the remaining arguments. */
  lemma {:induction false} RemainingPrinted(p: Port, ts: seq<Token>, s: Pos, file: string, line: nat, w: Word,
                                            args: seq<Word>)
    requires Loaded(ts, s) && Fits(p, ts, s)
    requires Stands(ts, s.cursor, PrintWords(file, line, [w] + args).tokens)
    requires forall i :: 0 <= i < |args| ==> args[i].text == "{" ==> args[i].quoted
    requires var i, last := s.cursor + 1 + |args|, PrintWords(file, line, [w] + args).line;
             Over(ts, i, file, last) || ts[i] == Token(file, last, "{", false)
    ensures Remaining(p, ts, s) == Taken(true, Texts(args), s.(cursor := s.cursor + |args|))
    ensures s.cursor + |args| < |ts|
    ensures LastLine(p, ts[s.cursor + |args|]) == PrintWords(file, line, [w] + args).line
    ensures ts[s.cursor + |args|].file == file
    decreases |args|
  {
    hide Breaks, NextIf, NextArg, OnNewLine, Fits, LastLine, PrintWords, Stands, Remaining;
    var c := s.cursor;
    var below := line + Breaks(w.text);
    WordsFrom(file, line, w, args);
    var rest := PrintWords(file, below, args);
    StandsSplit(ts, c, [Token(file, line, w.text, w.quoted)], rest.tokens);
    StandsAt(ts, c, [Token(file, line, w.text, w.quoted)], 0);
    LastLineFits(p, ts, s, c);
    if |args| == 0 {
      NoWords(file, below, args);
      if c + 1 < |ts| && ts[c + 1] == Token(file, below, "{", false) {
        StepsOn(p, ts, s);
      } else {
        StaysAt(p, ts, s);
      }
      NoArgLeft(p, ts, s);
    } else {
      assert [args[0]] + args[1..] == args;
      WordsFrom(file, below, args[0], args[1..]);
      StandsAt(ts, c + 1, rest.tokens, 0);
      StepsOn(p, ts, s);
      ArgTaken(p, ts, s);
      FitsOn(p, ts, s, Forth(s));
      RemainingPrinted(p, ts, Forth(s), file, below, args[0], args[1..]);
    }
  }

  lemma NoWords(file: string, line: nat, ws: seq<Word>)
    requires |ws| == 0
    ensures PrintWords(file, line, ws) == Printed([], line)
  {
  }

  /** Room stays when the cursor moves on at least as far as the level rises. */
  lemma FitsOn(p: Port, ts: seq<Token>, s: Pos, s2: Pos)
    requires Fits(p, ts, s) && s.nesting <= s2.nesting && s2.nesting - s.nesting <= s2.cursor - s.cursor
    ensures Fits(p, ts, s2) && (p.Rust? ==> s.nesting >= -0x8000_0000)
  {
  }

  /** The first token of a printed directive is its name, after the lines skipped. */
  lemma PrintedName(file: string, line: nat, d: Dir)
    ensures Print(file, line, d).tokens[0] == Token(file, line + d.skip, d.name.text, d.name.quoted)
  {
  }

  /** What follows a printed directive in its list is on a later line. */
  lemma ListGoesOn(ts: seq<Token>, i: nat, file: string, line: nat, ds: seq<Dir>)
    requires var body := PrintAll(file, line + 1, ds);
             Stands(ts, i, body.tokens + [Token(file, body.line, "}", false)])
    ensures Over(ts, i, file, line)
  {
    var body := PrintAll(file, line + 1, ds);
    StandsAt(ts, i, body.tokens + [Token(file, body.line, "}", false)], 0);
    if |ds| > 0 {
      PrintedName(file, line + 1, ds[0]);
    }
  }

  lemma EntersBlock(p: Port, ts: seq<Token>, s: Pos)
    requires Loaded(ts, s) && Fits(p, ts, s) && s.cursor + 2 < |ts|
    requires NextIf(p, ts, s, false).ok && IsOpen(ts, Forth(s))
    ensures NextBlock(p, ts, s, s.nesting) ==
              if IsClose(ts, Forth(Forth(s))) then Moved(false, Forth(Forth(s)))
              else Moved(true, Pos(s.cursor + 2, s.nesting + 1))
  {
    if p.Rust? {
      LevelFits(s.nesting + 1);
    }
  }

  lemma StaysInBlock(p: Port, ts: seq<Token>, s: Pos, initial: int)
    requires Loaded(ts, s) && s.cursor + 1 < |ts| && s.nesting > initial
    requires !IsOpen(ts, Forth(s)) && !IsClose(ts, Forth(s))
    ensures NextBlock(p, ts, s, initial) == Moved(true, Forth(s))
  {
  }

  lemma LeavesBlock(p: Port, ts: seq<Token>, s: Pos, initial: int, file: string, line: nat)
    requires Loaded(ts, s) && Fits(p, ts, s) && s.cursor + 1 < |ts| && s.nesting == initial + 1
    requires p.Rust? ==> initial >= -0x8000_0000
    requires ts[s.cursor + 1] == Token(file, line, "}", false) && Over(ts, s.cursor + 2, file, line)
    ensures NextBlock(p, ts, s, initial) == Moved(false, Pos(s.cursor + 1, initial))
  {
    LastLineFits(p, ts, s, s.cursor + 1);
    NoBreaks("}");
    StaysAt(p, ts, Forth(s));
    if p.Rust? {
      LevelFits(initial);
    }
  }

  lemma NoBreaks(brace: string)
    requires brace == "{" || brace == "}"
    ensures Breaks(brace) == 0
  {
    assert Breaks(brace[1..]) == 0;
  }

  lemma BlockOver(p: Port, ts: seq<Token>, s: Pos, initial: int)
    requires InRange(ts, s) && !NextBlock(p, ts, s, initial).ok
    ensures WalkBlock(p, ts, s, initial) == AllWalked([], NextBlock(p, ts, s, initial).at)
  {
  }

  lemma BlockGoesOn(p: Port, ts: seq<Token>, s: Pos, initial: int)
    requires InRange(ts, s) && NextBlock(p, ts, s, initial).ok
    ensures var w := Walk(p, ts, NextBlock(p, ts, s, initial).at);
            var rest := WalkBlock(p, ts, w.at, initial);
            WalkBlock(p, ts, s, initial) == AllWalked([w.node] + rest.nodes, rest.at)
  {
  }

  /** Walking one printed directive recovers it, keeps the nesting and ends on its last token. */
  lemma {:induction false} WalkPrinted(p: Port, ts: seq<Token>, s: Pos, file: string, line: nat, d: Dir)
    requires Loaded(ts, s) && Fits(p, ts, s) && WellQuoted(d)
    requires Stands(ts, s.cursor, Print(file, line, d).tokens)
    requires Over(ts, s.cursor + |Print(file, line, d).tokens|, file, Print(file, line, d).line)
    ensures Walk(p, ts, s) == Walked(Seen(d), s.(cursor := s.cursor + |Print(file, line, d).tokens| - 1))
    decreases d, 1
  {
    hide Breaks, NextIf, OnNewLine, Fits, LastLine, PrintWords, PrintAll, Stands, Remaining, WalkBlock, AllSeen, Texts,
         AllQuoted;
    var head := PrintWords(file, line + d.skip, [d.name] + d.args);
    var c, n := s.cursor, |d.args|;
    var s1 := s.(cursor := c + n);
    if d.braces {
      var body := PrintAll(file, head.line + 1, d.block);
      var tail := [Token(file, head.line, "{", false)] + body.tokens + [Token(file, body.line, "}", false)];
      assert Print(file, line, d).tokens == head.tokens + tail;
      StandsSplit(ts, c, head.tokens, tail);
      StandsAt(ts, c + n + 1, tail, 0);
      RemainingPrinted(p, ts, s, file, line + d.skip, d.name, d.args);
      StandsAt(ts, c, Print(file, line, d).tokens, 0);
      PrintedName(file, line, d);
      FitsOn(p, ts, s, s1);
      BlockPrinted(p, ts, s1, file, head.line, d.block);
    } else {
      RemainingPrinted(p, ts, s, file, line + d.skip, d.name, d.args);
      StandsAt(ts, c, Print(file, line, d).tokens, 0);
      PrintedName(file, line, d);
      StaysAt(p, ts, s1);
      assert !NextBlock(p, ts, s1, s1.nesting).ok;
      BlockOver(p, ts, s1, s1.nesting);
      NothingSeen(d.block);
    }
  }

  lemma NothingSeen(ds: seq<Dir>)
    requires ds == []
    ensures AllSeen(ds) == []
  {
  }

  /** From the last word of a directive, a printed block. */
  lemma {:induction false} BlockPrinted(p: Port, ts: seq<Token>, s: Pos, file: string, line: nat, ds: seq<Dir>)
    requires Loaded(ts, s) && Fits(p, ts, s) && AllQuoted(ds)
    requires ts[s.cursor].file == file && LastLine(p, ts[s.cursor]) == line
    requires var body := PrintAll(file, line + 1, ds);
             && Stands(ts, s.cursor + 1,
                       [Token(file, line, "{", false)] + body.tokens + [Token(file, body.line, "}", false)])
             && Over(ts, s.cursor + 3 + |body.tokens|, file, body.line)
    ensures WalkBlock(p, ts, s, s.nesting) ==
              AllWalked(AllSeen(ds), s.(cursor := s.cursor + 2 + |PrintAll(file, line + 1, ds).tokens|))
    decreases ds, 1
  {
    hide Breaks, NextIf, OnNewLine, Fits, LastLine, PrintWords, Print, Stands, Remaining, WalkBlock, Walk, Seen,
         NextBlock, WellQuoted;
    var c := s.cursor;
    var body := PrintAll(file, line + 1, ds);
    var open, close := Token(file, line, "{", false), Token(file, body.line, "}", false);
    assert [open] + body.tokens + [close] == [open] + (body.tokens + [close]);
    StandsSplit(ts, c + 1, [open], body.tokens + [close]);
    StandsAt(ts, c + 1, [open], 0);
    StandsAt(ts, c + 2, body.tokens + [close], 0);
    StepsOn(p, ts, s);
    EntersBlock(p, ts, s);
    var s2 := Pos(c + 2, s.nesting + 1);
    if |ds| == 0 {
      BlockOver(p, ts, s, s.nesting);
    } else {
      PrintedName(file, line + 1, ds[0]);
      NameIsNoBrace(ds[0]);
      BlockGoesOn(p, ts, s, s.nesting);
      FitsOn(p, ts, s, s2);
      FirstPrinted(p, ts, s2, s.nesting, file, line + 1, ds);
    }
  }

  lemma NameIsNoBrace(d: Dir)
    requires WellQuoted(d)
    ensures !((d.name.text == "{" || d.name.text == "}") && !d.name.quoted)
  {
  }

  /** Standing on the first name of a non-empty printed list inside a block. */
  lemma {:induction false} FirstPrinted(p: Port, ts: seq<Token>, s: Pos, initial: int, file: string, line: nat,
                                        ds: seq<Dir>)
    requires Loaded(ts, s) && Fits(p, ts, s) && |ds| > 0 && AllQuoted(ds)
    requires s.nesting == initial + 1 && (p.Rust? ==> initial >= -0x8000_0000)
    requires var body := PrintAll(file, line, ds);
             && Stands(ts, s.cursor, body.tokens + [Token(file, body.line, "}", false)])
             && Over(ts, s.cursor + 1 + |body.tokens|, file, body.line)
    ensures var w := Walk(p, ts, s);
            && w.node == Seen(ds[0])
            && WalkBlock(p, ts, w.at, initial) ==
               AllWalked(AllSeen(ds[1..]), Pos(s.cursor + |PrintAll(file, line, ds).tokens|, initial))
    decreases ds, 0
  {
    hide Breaks, NextIf, OnNewLine, Fits, LastLine, PrintWords, Print, Stands, Remaining, WalkBlock, Walk, Seen,
         AllSeen, NextBlock, WellQuoted;
    var body, first := PrintAll(file, line, ds), Print(file, line, ds[0]);
    var rest := PrintAll(file, first.line + 1, ds[1..]);
    var close := Token(file, body.line, "}", false);
    assert body.tokens + [close] == first.tokens + (rest.tokens + [close]);
    StandsSplit(ts, s.cursor, first.tokens, rest.tokens + [close]);
    ListGoesOn(ts, s.cursor + |first.tokens|, file, first.line, ds[1..]);
    WalkPrinted(p, ts, s, file, line, ds[0]);
    var s3 := s.(cursor := s.cursor + |first.tokens| - 1);
    FitsOn(p, ts, s, s3);
    InsidePrinted(p, ts, s3, initial, file, first.line + 1, ds[1..]);
  }

  /** Inside a block, before the rest of a printed list and the closing brace. */
  lemma {:induction false} InsidePrinted(p: Port, ts: seq<Token>, s: Pos, initial: int, file: string, line: nat,
                                         ds: seq<Dir>)
    requires Loaded(ts, s) && Fits(p, ts, s) && AllQuoted(ds)
    requires s.nesting == initial + 1 && (p.Rust? ==> initial >= -0x8000_0000)
    requires var body := PrintAll(file, line, ds);
             && Stands(ts, s.cursor + 1, body.tokens + [Token(file, body.line, "}", false)])
             && Over(ts, s.cursor + 2 + |body.tokens|, file, body.line)
    ensures WalkBlock(p, ts, s, initial) ==
              AllWalked(AllSeen(ds), Pos(s.cursor + 1 + |PrintAll(file, line, ds).tokens|, initial))
    decreases ds, 1
  {
    hide Breaks, NextIf, OnNewLine, Fits, LastLine, PrintWords, Print, Stands, Remaining, WalkBlock, Walk, Seen,
         NextBlock, WellQuoted;
    var body := PrintAll(file, line, ds);
    var close := Token(file, body.line, "}", false);
    StandsAt(ts, s.cursor + 1, body.tokens + [close], 0);
    if |ds| == 0 {
      LeavesBlock(p, ts, s, initial, file, body.line);
      BlockOver(p, ts, s, initial);
    } else {
      PrintedName(file, line, ds[0]);
      NameIsNoBrace(ds[0]);
      StaysInBlock(p, ts, s, initial);
      BlockGoesOn(p, ts, s, initial);
      FitsOn(p, ts, s, Forth(s));
      FirstPrinted(p, ts, Forth(s), initial, file, line, ds);
    }
  }

  lemma WalkAllUnfolds(p: Port, ts: seq<Token>, s: Pos)
    requires InRange(ts, s)
    ensures s.cursor >= |ts| - 1 ==> WalkAll(p, ts, s) == AllWalked([], s)
    ensures s.cursor < |ts| - 1 ==>
              var w := Walk(p, ts, Forth(s));
              var rest := WalkAll(p, ts, w.at);
              WalkAll(p, ts, s) == AllWalked([w.node] + rest.nodes, rest.at)
  {
    hide Walk;
  }

  lemma ListUnfolds(file: string, line: nat, ds: seq<Dir>)
    ensures |ds| == 0 ==> PrintAll(file, line, ds).tokens == [] && AllSeen(ds) == []
    ensures |ds| > 0 ==>
              var first := Print(file, line, ds[0]);
              && PrintAll(file, line, ds).tokens == first.tokens + PrintAll(file, first.line + 1, ds[1..]).tokens
              && AllSeen(ds) == [Seen(ds[0])] + AllSeen(ds[1..])
              && (AllQuoted(ds) ==> WellQuoted(ds[0]) && AllQuoted(ds[1..]))
  {
    hide Print, Seen, WellQuoted;
  }

  /** Before a printed list that ends the input. */
  lemma {:induction false} AllPrinted(p: Port, ts: seq<Token>, s: Pos, file: string, line: nat, ds: seq<Dir>)
    requires InRange(ts, s) && Fits(p, ts, s) && AllQuoted(ds)
    requires var tokens := PrintAll(file, line, ds).tokens;
             Stands(ts, s.cursor + 1, tokens) && s.cursor + 1 + |tokens| == |ts|
    ensures WalkAll(p, ts, s) == AllWalked(AllSeen(ds), s.(cursor := |ts| - 1))
    decreases ds
  {
    hide Breaks, NextIf, OnNewLine, Fits, LastLine, PrintWords, Print, Remaining, Walk, WalkAll, Seen, NextBlock,
         WellQuoted, LinesFit, Stands, Over, PrintAll, AllSeen, AllQuoted;
    ListUnfolds(file, line, ds);
    WalkAllUnfolds(p, ts, s);
    if |ds| > 0 {
      var first := Print(file, line, ds[0]);
      var rest := PrintAll(file, first.line + 1, ds[1..]);
      StandsSplit(ts, s.cursor + 1, first.tokens, rest.tokens);
      LaterOver(ts, s.cursor + 1 + |first.tokens|, file, first.line, ds[1..]);
      FitsOn(p, ts, s, Forth(s));
      WalkPrinted(p, ts, Forth(s), file, line, ds[0]);
      var s2 := s.(cursor := s.cursor + |first.tokens|);
      FitsOn(p, ts, s, s2);
      AllPrinted(p, ts, s2, file, first.line + 1, ds[1..]);
    }
  }

  lemma LaterOver(ts: seq<Token>, i: nat, file: string, line: nat, ds: seq<Dir>)
    requires var tokens := PrintAll(file, line + 1, ds).tokens; Stands(ts, i, tokens) && i + |tokens| == |ts|
    ensures Over(ts, i, file, line)
  {
    if |ds| > 0 {
      PrintedName(file, line + 1, ds[0]);
      StandsAt(ts, i, PrintAll(file, line + 1, ds).tokens, 0);
    }
  }

  /** Printing any well-quoted list of directives and walking the tokens from the start recovers it, with
      the nesting where it started and the cursor on the last token. */
  lemma PrintedFileIsRecovered(p: Port, file: string, line: nat, ds: seq<Dir>)
    requires AllQuoted(ds)
    requires var ts := PrintAll(file, line, ds).tokens; p.Rust? ==> LinesFit(ts) && |ts| < 0x7fff_ffff
    ensures var ts := PrintAll(file, line, ds).tokens;
            WalkAll(p, ts, Pos(-1, 0)) == AllWalked(AllSeen(ds), Pos(|ts| - 1, 0))
  {
    hide PrintAll, WalkAll, AllSeen, AllQuoted;
    var ts := PrintAll(file, line, ds).tokens;
    assert ts[0..0 + |ts|] == ts;
    AllPrinted(p, ts, Pos(-1, 0), file, line, ds);
  }

  /** The same with the walk as plugin code runs it. */
  method ReadPrinted(file: string, line: nat, ds: seq<Dir>) returns (nodes: seq<Node>)
    requires AllQuoted(ds)
    ensures nodes == AllSeen(ds)
  {
    PrintedFileIsRecovered(Go, file, line, ds);
    var d := new Dispenser.GoDispenser(PrintAll(file, line, ds).tokens);
    nodes := ReadAll(d);
  }
}
