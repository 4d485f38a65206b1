/** The two dispensers as objects, operation by operation what Tokens says of their port. */
module Dispenser {
  import opened Tokens
  import opened Words

  // ---- the Go port ----

  class GoDispenser {
    const tokens: seq<Token>
    var cursor: int
    var nesting: int

    ghost predicate Valid()
      reads this
    {
      InRange(tokens, Here())
    }

    ghost function Here(): Pos
      reads this
    {
      Pos(cursor, nesting)
    }

    constructor (ts: seq<Token>)
      ensures Valid() && tokens == ts && Here() == Pos(-1, 0)
    {
      tokens, cursor, nesting := ts, -1, 0;
    }

    function Text(): (text: string)
      reads this
      ensures text == Val(tokens, Here())
    {
      if cursor < 0 || cursor >= |tokens| then "" else tokens[cursor].text
    }

    predicate IsQuoted()
      reads this
      ensures IsQuoted() == Quoted(tokens, Here())
    {
      if cursor < 0 || cursor >= |tokens| then false else tokens[cursor].quoted
    }

    predicate OpensBlock()
      reads this
      ensures OpensBlock() == IsOpen(tokens, Here())
    {
      Text() == "{" && !IsQuoted()
    }

    predicate ClosesBlock()
      reads this
      ensures ClosesBlock() == IsClose(tokens, Here())
    {
      Text() == "}" && !IsQuoted()
    }

    method Next() returns (ok: bool)
      requires Valid()
      modifies this
      ensures Valid() && Moved(ok, Here()) == Tokens.Next(tokens, old(Here()))
    {
      if cursor < |tokens| - 1 {
        cursor := cursor + 1;
        return true;
      }
      return false;
    }

    method Prev() returns (ok: bool)
      requires Valid()
      modifies this
      ensures Valid() && Moved(ok, Here()) == Tokens.Prev(old(Here()))
    {
      if cursor > -1 {
        cursor := cursor - 1;
        return cursor > -1;
      }
      return false;
    }

    method NextOnSameLine() returns (ok: bool)
      requires Valid()
      modifies this
      ensures Valid() && Moved(ok, Here()) == NextIf(Go, tokens, old(Here()), false)
    {
      if cursor < 0 {
        cursor := cursor + 1;
        return true;
      }
      if cursor >= |tokens| - 1 {
        return false;
      }
      var curr := tokens[cursor];
      var next := tokens[cursor + 1];
      if !OnNewLine(Go, curr, next) {
        cursor := cursor + 1;
        return true;
      }
      return false;
    }

    method NextLine() returns (ok: bool)
      requires Valid()
      modifies this
      ensures Valid() && Moved(ok, Here()) == NextIf(Go, tokens, old(Here()), true)
    {
      if cursor < 0 {
        cursor := cursor + 1;
        return true;
      }
      if cursor >= |tokens| - 1 {
        return false;
      }
      var curr := tokens[cursor];
      var next := tokens[cursor + 1];
      if OnNewLine(Go, curr, next) {
        cursor := cursor + 1;
        return true;
      }
      return false;
    }

    method NextArg() returns (ok: bool)
      requires Valid()
      modifies this
      ensures Valid() && Moved(ok, Here()) == Tokens.NextArg(Go, tokens, old(Here()))
    {
      var same := NextOnSameLine();
      if !same {
        return false;
      }
      if OpensBlock() {
        cursor := cursor - 1;
        return false;
      }
      return true;
    }

    method NextBlock(initial: int) returns (ok: bool)
      requires Valid()
      modifies this
      ensures Valid() && Moved(ok, Here()) == Tokens.NextBlock(Go, tokens, old(Here()), initial)
    {
      if nesting > initial {
        var loaded := Next();
        if !loaded {
          return false;
        }
        var same := true;
        if ClosesBlock() {
          same := NextOnSameLine();
        }
        if !same {
          nesting := nesting - 1;
        } else {
          if OpensBlock() {
            same := NextOnSameLine();
          }
          if !same {
            nesting := nesting + 1;
          }
        }
        return nesting > initial;
      }
      var same := NextOnSameLine();
      if !same {
        return false;
      }
      if !OpensBlock() {
        cursor := cursor - 1;
        return false;
      }
      var loaded := Next();
      if ClosesBlock() {
        return false;
      }
      nesting := nesting + 1;
      return true;
    }

    method RemainingArgs() returns (args: seq<string>)
      requires Valid()
      modifies this
      ensures Valid() && Taken(true, args, Here()) == Remaining(Go, tokens, old(Here()))
    {
      args := [];
      while true
        invariant Valid()
        invariant var rest := Remaining(Go, tokens, Here());
                  Remaining(Go, tokens, old(Here())) == Taken(true, args + rest.texts, rest.at)
        decreases |tokens| - cursor
      {
        var more := NextArg();
        if !more {
          break;
        }
        args := args + [Text()];
      }
    }

    /** Counts by stepping over the arguments, then steps back as often. */
    method CountRemainingArgs() returns (count: nat)
      requires Valid()
      modifies this
      ensures Valid() && Here() == old(Here())
      ensures count == |Remaining(Go, tokens, Here()).texts|
    {
      count := 0;
      while true
        invariant Valid() && Here() == old(Here()).(cursor := old(cursor) + count)
        invariant |Remaining(Go, tokens, old(Here())).texts| == count + |Remaining(Go, tokens, Here()).texts|
        decreases |tokens| - cursor
      {
        var more := NextArg();
        if !more {
          break;
        }
        count := count + 1;
      }
      for i := 0 to count
        invariant Valid() && Here() == old(Here()).(cursor := old(cursor) + count - i)
      {
        var loaded := Prev();
      }
    }

    method Args(n: nat) returns (ok: bool, texts: seq<string>)
      requires Valid()
      modifies this
      ensures Valid() && Taken(ok, texts, Here()) == Tokens.Args(Go, tokens, old(Here()), n)
    {
      hide Tokens.NextArg, Tokens.Args;
      texts := [];
      for i := 0 to n
        invariant Valid() && |texts| == i
        invariant var rest := Tokens.Args(Go, tokens, Here(), n - i);
                  Tokens.Args(Go, tokens, old(Here()), n) == Taken(rest.ok, texts + rest.texts, rest.at)
      {
        ArgsUnfold(Go, tokens, Here(), n - i);
        var more := NextArg();
        if !more {
          return false, texts;
        }
        texts := texts + [Text()];
      }
      ArgsUnfold(Go, tokens, Here(), 0);
      ok := true;
    }

    method AllArgs(n: nat) returns (ok: bool, texts: seq<string>)
      requires Valid()
      modifies this
      ensures Valid() && Taken(ok, texts, Here()) == Tokens.AllArgs(Go, tokens, old(Here()), n)
    {
      ok, texts := Args(n);
      if !ok {
        return;
      }
      var more := NextArg();
      if more {
        var loaded := Prev();
        ok := false;
      }
    }

    method Reset()
      modifies this
      ensures Valid() && Here() == Pos(-1, 0)
    {
      cursor := -1;
      nesting := 0;
    }

    method Do(op: Op) returns (answer: Answer)
      requires Valid()
      modifies this
      ensures Valid() && Reply(answer, Here()) == Performed(Go, tokens, old(Here()), op)
    {
      answer := Answer(true, [], 0);
      match op
      case DoNext => { var ok := Next(); answer := Answer(ok, [], 0); }
      case DoPrev => { var ok := Prev(); answer := Answer(ok, [], 0); }
      case DoNextArg => { var ok := NextArg(); answer := Answer(ok, [], 0); }
      case DoNextLine => { var ok := NextLine(); answer := Answer(ok, [], 0); }
      case DoNextBlock(initial) => { var ok := NextBlock(initial); answer := Answer(ok, [], 0); }
      case DoRemainingArgs => { var texts := RemainingArgs(); answer := Answer(true, texts, 0); }
      case DoCountRemainingArgs => { var n := CountRemainingArgs(); answer := Answer(true, [], n); }
      case DoArgs(n) => { var ok, texts := Args(n); answer := Answer(ok, texts, 0); }
      case DoAllArgs(n) => { var ok, texts := AllArgs(n); answer := Answer(ok, texts, 0); }
      case DoReset => { Reset(); }
    }
  }

  // ---- the Rust port ----

  class RustDispenser {
    const tokens: seq<Token>
    var cursor: int
    var nesting: int

    ghost predicate Valid()
      reads this
    {
      InRange(tokens, Here())
    }

    ghost function Here(): Pos
      reads this
    {
      Pos(cursor, nesting)
    }

    constructor (ts: seq<Token>)
      ensures Valid() && tokens == ts && Here() == Pos(-1, 0)
    {
      tokens, cursor, nesting := ts, -1, 0;
    }

    function Text(): (text: string)
      reads this
      ensures text == Val(tokens, Here())
    {
      if cursor < 0 || cursor >= |tokens| then "" else tokens[cursor].text
    }

    predicate IsQuoted()
      reads this
      ensures IsQuoted() == Quoted(tokens, Here())
    {
      if cursor < 0 || cursor >= |tokens| then false else tokens[cursor].quoted
    }

    predicate OpensBlock()
      reads this
      ensures OpensBlock() == IsOpen(tokens, Here())
    {
      Text() == "{" && !IsQuoted()
    }

    predicate ClosesBlock()
      reads this
      ensures ClosesBlock() == IsClose(tokens, Here())
    {
      Text() == "}" && !IsQuoted()
    }

    method Next() returns (ok: bool)
      requires Valid()
      modifies this
      ensures Valid() && Moved(ok, Here()) == Tokens.Next(tokens, old(Here()))
    {
      if cursor < |tokens| - 1 {
        cursor := cursor + 1;
        return true;
      }
      return false;
    }

    method Prev() returns (ok: bool)
      requires Valid()
      modifies this
      ensures Valid() && Moved(ok, Here()) == Tokens.Prev(old(Here()))
    {
      if cursor > -1 {
        cursor := cursor - 1;
        return cursor > -1;
      }
      return false;
    }

    method NextOnSameLine() returns (ok: bool)
      requires Valid()
      modifies this
      ensures Valid() && Moved(ok, Here()) == NextIf(Rust, tokens, old(Here()), false)
    {
      if cursor < 0 {
        cursor := cursor + 1;
        return true;
      }
      if cursor >= |tokens| - 1 {
        return false;
      }
      if !OnNewLine(Rust, tokens[cursor], tokens[cursor + 1]) {
        cursor := cursor + 1;
        return true;
      }
      return false;
    }

    method NextLine() returns (ok: bool)
      requires Valid()
      modifies this
      ensures Valid() && Moved(ok, Here()) == NextIf(Rust, tokens, old(Here()), true)
    {
      if cursor < 0 {
        cursor := cursor + 1;
        return true;
      }
      if cursor >= |tokens| - 1 {
        return false;
      }
      if OnNewLine(Rust, tokens[cursor], tokens[cursor + 1]) {
        cursor := cursor + 1;
        return true;
      }
      return false;
    }

    method NextArg() returns (ok: bool)
      requires Valid()
      modifies this
      ensures Valid() && Moved(ok, Here()) == Tokens.NextArg(Rust, tokens, old(Here()))
    {
      var same := NextOnSameLine();
      if !same {
        return false;
      }
      if OpensBlock() {
        cursor := cursor - 1;
        return false;
      }
      return true;
    }

    method NextBlock(initial: i32) returns (ok: bool)
      requires Valid()
      modifies this
      ensures Valid() && Moved(ok, Here()) == Tokens.NextBlock(Rust, tokens, old(Here()), initial)
    {
      if nesting > initial {
        var loaded := Next();
        if !loaded {
          return false;
        }
        var same := true;
        if ClosesBlock() {
          same := NextOnSameLine();
        }
        if !same {
          nesting := Level(Rust, nesting - 1);
        } else {
          if OpensBlock() {
            same := NextOnSameLine();
          }
          if !same {
            nesting := Level(Rust, nesting + 1);
          }
        }
        return nesting > initial;
      }
      var same := NextOnSameLine();
      if !same {
        return false;
      }
      if !OpensBlock() {
        cursor := cursor - 1;
        return false;
      }
      var loaded := Next();
      if ClosesBlock() {
        return false;
      }
      nesting := Level(Rust, nesting + 1);
      return true;
    }

    method RemainingArgs() returns (args: seq<string>)
      requires Valid()
      modifies this
      ensures Valid() && Taken(true, args, Here()) == Remaining(Rust, tokens, old(Here()))
    {
      args := [];
      while true
        invariant Valid()
        invariant var rest := Remaining(Rust, tokens, Here());
                  Remaining(Rust, tokens, old(Here())) == Taken(true, args + rest.texts, rest.at)
        decreases |tokens| - cursor
      {
        var more := NextArg();
        if !more {
          break;
        }
        args := args + [Text()];
      }
    }

    /** Counts by stepping over the arguments, then puts the saved cursor back. */
    method CountRemainingArgs() returns (count: nat)
      requires Valid()
      modifies this
      ensures Valid() && Here() == old(Here())
      ensures count == |Remaining(Rust, tokens, Here()).texts|
    {
      var savedCursor := cursor;
      count := 0;
      while true
        invariant Valid() && nesting == old(nesting)
        invariant |Remaining(Rust, tokens, old(Here())).texts| == count + |Remaining(Rust, tokens, Here()).texts|
        decreases |tokens| - cursor
      {
        var more := NextArg();
        if !more {
          break;
        }
        count := count + 1;
      }
      cursor := savedCursor;
    }

    method Args(n: nat) returns (ok: bool, texts: seq<string>)
      requires Valid()
      modifies this
      ensures Valid() && Taken(ok, texts, Here()) == Tokens.Args(Rust, tokens, old(Here()), n)
    {
      hide Tokens.NextArg, Tokens.Args;
      texts := [];
      for i := 0 to n
        invariant Valid() && |texts| == i
        invariant var rest := Tokens.Args(Rust, tokens, Here(), n - i);
                  Tokens.Args(Rust, tokens, old(Here()), n) == Taken(rest.ok, texts + rest.texts, rest.at)
      {
        ArgsUnfold(Rust, tokens, Here(), n - i);
        var more := NextArg();
        if !more {
          return false, texts;
        }
        texts := texts + [Text()];
      }
      ArgsUnfold(Rust, tokens, Here(), 0);
      ok := true;
    }

    method AllArgs(n: nat) returns (ok: bool, texts: seq<string>)
      requires Valid()
      modifies this
      ensures Valid() && Taken(ok, texts, Here()) == Tokens.AllArgs(Rust, tokens, old(Here()), n)
    {
      ok, texts := Args(n);
      if !ok {
        return;
      }
      var more := NextArg();
      if more {
        var loaded := Prev();
        ok := false;
      }
    }

    method Reset()
      modifies this
      ensures Valid() && Here() == Pos(-1, 0)
    {
      cursor := -1;
      nesting := 0;
    }

    method Do(op: Op) returns (answer: Answer)
      requires Valid()
      modifies this
      ensures Valid() && Reply(answer, Here()) == Performed(Rust, tokens, old(Here()), op)
    {
      answer := Answer(true, [], 0);
      match op
      case DoNext => { var ok := Next(); answer := Answer(ok, [], 0); }
      case DoPrev => { var ok := Prev(); answer := Answer(ok, [], 0); }
      case DoNextArg => { var ok := NextArg(); answer := Answer(ok, [], 0); }
      case DoNextLine => { var ok := NextLine(); answer := Answer(ok, [], 0); }
      case DoNextBlock(initial) => { var ok := NextBlock(initial); answer := Answer(ok, [], 0); }
      case DoRemainingArgs => { var texts := RemainingArgs(); answer := Answer(true, texts, 0); }
      case DoCountRemainingArgs => { var n := CountRemainingArgs(); answer := Answer(true, [], n); }
      case DoArgs(n) => { var ok, texts := Args(n); answer := Answer(ok, texts, 0); }
      case DoAllArgs(n) => { var ok, texts := AllArgs(n); answer := Answer(ok, texts, 0); }
      case DoReset => { Reset(); }
    }
  }

  lemma OneMore(ts: seq<Token>, s: Pos, ops: seq<Op>, i: nat)
    requires i < |ops| && InRange(ts, s)
    ensures var r := Performed(Go, ts, s, ops[i]);
            AllPerformed(Go, ts, s, ops[i..]).0 == [r.answer] + AllPerformed(Go, ts, r.at, ops[i + 1..]).0
  {
    assert ops[i..][1..] == ops[i + 1..];
  }

  lemma Finished(ts: seq<Token>, s: Pos, ops: seq<Op>)
    requires InRange(ts, s)
    ensures AllPerformed(Go, ts, s, ops[|ops|..]).0 == []
  {
  }

  /** Both dispensers over the same tokens, run side by side. */
  method RunBoth(ts: seq<Token>, ops: seq<Op>) returns (go: seq<Answer>, rust: seq<Answer>)
    requires LinesFit(ts) && |ops| < 0x8000_0000
    ensures go == rust && |go| == |ops|
    ensures go == AllPerformed(Go, ts, Pos(-1, 0), ops).0
  {
    hide Performed, AllPerformed, LinesFit;
    var g := new GoDispenser(ts);
    var r := new RustDispenser(ts);
    go, rust := [], [];
    assert ops[0..] == ops;
    for i := 0 to |ops|
      invariant g.tokens == ts && r.tokens == ts && g.Valid() && r.Valid()
      invariant g.Here() == r.Here() && -0x8000_0000 <= g.nesting <= i
      invariant go == rust && |go| == i
      invariant AllPerformed(Go, ts, Pos(-1, 0), ops).0 == go + AllPerformed(Go, ts, g.Here(), ops[i..]).0
    {
      PortsAgree(ts, g.Here(), ops[i]);
      OneMore(ts, g.Here(), ops, i);
      var a := g.Do(ops[i]);
      var b := r.Do(ops[i]);
      go, rust := go + [a], rust + [b];
    }
    Finished(ts, g.Here(), ops);
  }
}
