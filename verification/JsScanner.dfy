/** jsStrayBackslash of fix_quality_gate.go: one flag and one counter per open interpolation stand in
    for the stack of nested code and template contexts of ECMA-262 section 12.9.6. */
module JsScanner {
  import opened Text

  // ----- the reference lexer: an explicit stack, one construct at a time

  datatype Frame = Brace | Interpolation | Template

  datatype Mode = Plain | LineComment | BlockComment | Quoted(quote: char)

  datatype Outcome =
    | Stray(at: nat)     // a backslash in code position
    | Clean              // end of file
    | Declined           // a construct that cannot be tokenized exactly

  predicate InTemplate(stack: seq<Frame>) { stack != [] && stack[|stack| - 1] == Template }

  function Pop(stack: seq<Frame>): seq<Frame>
    requires stack != []
  {
    stack[..|stack| - 1]
  }

  /** What the rest of the file from `i` comes to.  `stack` holds the open contexts, innermost last. */
  function Lexed(s: string, i: nat, mode: Mode, stack: seq<Frame>): Outcome
    requires i <= |s|
    decreases |s| - i
  {
    if i == |s| then
      if (mode == Plain && !InTemplate(stack)) || mode == LineComment then Clean else Declined
    else
      var c := s[i];
      var next := if i + 1 < |s| then Some(s[i + 1]) else None;
      match mode
      case LineComment =>
        if c == '\n' then Lexed(s, i + 1, Plain, stack) else Lexed(s, i + 1, mode, stack)
      case BlockComment =>
        if c == '*' && next == Some('/') then Lexed(s, i + 2, Plain, stack) else Lexed(s, i + 1, mode, stack)
      case Quoted(quote) =>
        if c == '\n' then Declined
        else if c == '\\' then (if next.None? then Declined else Lexed(s, i + 2, mode, stack))
        else Lexed(s, i + 1, if c == quote then Plain else mode, stack)
      case Plain =>
        if InTemplate(stack) then
          if c == '\\' then (if next.None? then Declined else Lexed(s, i + 2, mode, stack))
          else if c == '`' then Lexed(s, i + 1, mode, Pop(stack))
          else if c == '$' && next == Some('{') then Lexed(s, i + 2, mode, stack + [Interpolation])
          else Lexed(s, i + 1, mode, stack)
        else if c == '/' then
          if next == Some('/') then Lexed(s, i + 2, LineComment, stack)
          else if next == Some('*') then Lexed(s, i + 2, BlockComment, stack)
          else Declined
        else if c == '\'' || c == '"' then Lexed(s, i + 1, Quoted(c), stack)
        else if c == '`' then Lexed(s, i + 1, mode, stack + [Template])
        else if c == '{' then Lexed(s, i + 1, mode, stack + [Brace])
        else if c == '}' then Lexed(s, i + 1, mode, if stack == [] then [] else Pop(stack))
        else if c == '\\' then Stray(i)
        else Lexed(s, i + 1, mode, stack)
  }

  /** What a report means: a backslash, and nothing before it is reported. */
  lemma {:induction false} StrayIsABackslash(s: string, i: nat, mode: Mode, stack: seq<Frame>)
    requires i <= |s| && Lexed(s, i, mode, stack).Stray?
    ensures i <= Lexed(s, i, mode, stack).at < |s| && s[Lexed(s, i, mode, stack).at] == '\\'
    decreases |s| - i
  {
    var c := s[i];
    if mode == BlockComment && c == '*' && i + 1 < |s| && s[i + 1] == '/' {
      StrayIsABackslash(s, i + 2, Plain, stack);
    } else if mode == BlockComment {
      StrayIsABackslash(s, i + 1, mode, stack);
    } else if mode == LineComment {
      StrayIsABackslash(s, i + 1, if c == '\n' then Plain else mode, stack);
    } else if mode.Quoted? {
      if c == '\\' {
        StrayIsABackslash(s, i + 2, mode, stack);
      } else {
        StrayIsABackslash(s, i + 1, if c == mode.quote then Plain else mode, stack);
      }
    } else if InTemplate(stack) {
      if c == '\\' {
        StrayIsABackslash(s, i + 2, mode, stack);
      } else if c == '`' {
        StrayIsABackslash(s, i + 1, mode, Pop(stack));
      } else if c == '$' && i + 1 < |s| && s[i + 1] == '{' {
        StrayIsABackslash(s, i + 2, mode, stack + [Interpolation]);
      } else {
        StrayIsABackslash(s, i + 1, mode, stack);
      }
    } else if c == '/' {
      StrayIsABackslash(s, i + 2, if s[i + 1] == '/' then LineComment else BlockComment, stack);
    } else if c == '\'' || c == '"' {
      StrayIsABackslash(s, i + 1, Quoted(c), stack);
    } else if c == '`' {
      StrayIsABackslash(s, i + 1, mode, stack + [Template]);
    } else if c == '{' {
      StrayIsABackslash(s, i + 1, mode, stack + [Brace]);
    } else if c == '}' {
      StrayIsABackslash(s, i + 1, mode, if stack == [] then [] else Pop(stack));
    } else if c != '\\' {
      StrayIsABackslash(s, i + 1, mode, stack);
    }
  }

  // ----- the encoding

  /** An interpolation sits on a template, and nothing else does. */
  predicate WellNested(stack: seq<Frame>)
    decreases |stack|
  {
    stack != [] ==>
      var below := Pop(stack);
      WellNested(below) && (stack[|stack| - 1] == Interpolation <==> InTemplate(below))
  }

  /** One counter per interpolation: the braces opened since.  Braces outside every interpolation
      are not counted at all. */
  function Counters(stack: seq<Frame>): seq<nat> {
    if stack == [] then []
    else
      var below := Counters(Pop(stack));
      match stack[|stack| - 1]
      case Interpolation => below + [0]
      case Brace => if below == [] then [] else below[|below| - 1 := below[|below| - 1] + 1]
      case Template => below
  }

  ghost predicate Encodes(stack: seq<Frame>, inTemplate: bool, counters: seq<nat>) {
    WellNested(stack) && inTemplate == InTemplate(stack) && counters == Counters(stack)
  }

  lemma PushEncodes(stack: seq<Frame>, inTemplate: bool, counters: seq<nat>, f: Frame)
    requires Encodes(stack, inTemplate, counters)
    requires f == Interpolation <==> inTemplate
    ensures Encodes(stack + [f], f == Template, Counters(stack + [f]))
    ensures Counters(stack + [f]) ==
            match f
            case Interpolation => counters + [0]
            case Brace => if counters == [] then [] else counters[|counters| - 1 := counters[|counters| - 1] + 1]
            case Template => counters
  {
    assert Pop(stack + [f]) == stack;
  }

  /** The backtick that ends a template. */
  lemma PopTemplateEncodes(stack: seq<Frame>, counters: seq<nat>)
    requires Encodes(stack, true, counters)
    ensures Encodes(Pop(stack), false, counters)
  {
  }

  /** The `}` that ends a block or an interpolation: the last counter tells which. */
  lemma PopBraceEncodes(stack: seq<Frame>, counters: seq<nat>)
    requires Encodes(stack, false, counters)
    ensures var below := if stack == [] then [] else Pop(stack);
            if counters == [] then Encodes(below, false, [])
            else if counters[|counters| - 1] == 0 then Encodes(below, true, counters[..|counters| - 1])
            else Encodes(below, false, counters[|counters| - 1 := counters[|counters| - 1] - 1])
  {
    if stack != [] {
      var below := Pop(stack);
      var cs := Counters(below);
      if stack[|stack| - 1] == Interpolation {
        assert (cs + [0])[..|cs|] == cs;
      } else {
        if cs != [] {
          assert counters[|cs| - 1 := cs[|cs| - 1]] == cs;
        }
      }
    }
  }

  // ----- positions

  datatype Position = Position(line: nat, col: nat)

  function Advance(p: Position, c: char): Position {
    if c == '\n' then Position(p.line + 1, 1) else Position(p.line, p.col + 1)
  }

  /** The position of offset `i`, kept up byte by byte. */
  function PositionAt(s: string, i: nat): Position
    requires i <= |s|
  {
    if i == 0 then Position(1, 1) else Advance(PositionAt(s, i - 1), s[i - 1])
  }

  /** Kept up that way it is true: line feeds before `i`, and bytes since the last of them. */
  lemma {:induction false} PositionIsTrue(s: string, i: nat)
    requires i <= |s|
    ensures var p := PositionAt(s, i);
            && p.line == 1 + Newlines(s[..i])
            && 1 <= p.col <= i + 1
            && (forall k :: i - p.col < k < i ==> s[k] != '\n')
            && (p.col == i + 1 || s[i - p.col] == '\n')
  {
    if i > 0 {
      PositionIsTrue(s, i - 1);
      NewlinesSlice(s, i - 1, i);
      assert s[i - 1..i] == [s[i - 1]] && [s[i - 1]][1..] == "";
    }
  }

  // ----- the scanner

  /** The scan has read `s[..i]`, stands at `p`, and the rest decides the answer. */
  ghost predicate Reached(s: string, i: nat, p: Position, mode: Mode, stack: seq<Frame>) {
    i <= |s| && p == PositionAt(s, i) && Lexed(s, 0, Plain, []) == Lexed(s, i, mode, stack)
  }

  predicate LostSync(s: string) { Lexed(s, 0, Plain, []).Declined? }

  method SkipLineComment(s: string, from: nat, p: Position, ghost stack: seq<Frame>) returns (i: nat, q: Position)
    requires Reached(s, from, p, LineComment, stack) && !InTemplate(stack)
    ensures from <= i && Reached(s, i, q, Plain, stack)
  {
    i, q := from, p;
    while i < |s| && s[i] != '\n'
      invariant from <= i && Reached(s, i, q, LineComment, stack)
    {
      q := Advance(q, s[i]);
      i := i + 1;
    }
  }

  method SkipBlockComment(s: string, from: nat, p: Position, ghost stack: seq<Frame>) returns (ok: bool, i: nat,
    q: Position)
    requires Reached(s, from, p, BlockComment, stack)
    ensures ok ==> from <= i && Reached(s, i, q, Plain, stack)
    ensures !ok ==> LostSync(s)
  {
    i, q := from, p;
    while true
      invariant from <= i && Reached(s, i, q, BlockComment, stack)
      decreases |s| - i
    {
      if i + 1 >= |s| {
        assert i < |s| ==> Lexed(s, i + 1, BlockComment, stack).Declined?;
        return false, i, q;
      }
      if s[i] == '*' && s[i + 1] == '/' {
        q := Advance(Advance(q, s[i]), s[i + 1]);
        i := i + 2;
        return true, i, q;
      }
      q := Advance(q, s[i]);
      i := i + 1;
    }
  }

  method SkipQuoted(s: string, from: nat, p: Position, quote: char, ghost stack: seq<Frame>) returns (ok: bool,
    i: nat, q: Position)
    requires quote == '\'' || quote == '"'
    requires Reached(s, from, p, Quoted(quote), stack)
    ensures ok ==> from <= i && Reached(s, i, q, Plain, stack)
    ensures !ok ==> LostSync(s)
  {
    i, q := from, p;
    while true
      invariant from <= i && Reached(s, i, q, Quoted(quote), stack)
      decreases |s| - i
    {
      if i >= |s| || s[i] == '\n' {
        return false, i, q;
      }
      if s[i] == '\\' {
        if i + 1 >= |s| {
          return false, i, q;
        }
        q := Advance(Advance(q, s[i]), s[i + 1]);
        i := i + 2;
        continue;
      }
      var closing := s[i] == quote;
      q := Advance(q, s[i]);
      i := i + 1;
      if closing {
        return true, i, q;
      }
    }
  }

  /** One round in template text. */
  method TemplateRound(s: string, i: nat, p: Position, ghost stack: seq<Frame>, counters: seq<nat>)
    returns (ok: bool, i': nat, p': Position, inTemplate: bool, counters': seq<nat>, ghost stack': seq<Frame>)
    requires i < |s| && Reached(s, i, p, Plain, stack) && Encodes(stack, true, counters)
    ensures ok ==> i < i' && Reached(s, i', p', Plain, stack') && Encodes(stack', inTemplate, counters')
    ensures !ok ==> LostSync(s)
  {
    FlagIsTop(stack, true, counters);
    hide Encodes, Counters, WellNested;
    var c := s[i];
    assert PositionAt(s, i + 1) == Advance(p, c);
    ok, i', p', inTemplate, counters', stack' := true, i + 1, Advance(p, c), true, counters, stack;
    if c == '\\' {
      if i + 1 >= |s| {
        ok := false;
        return;
      }
      i', p' := i + 2, Advance(p', s[i + 1]);
    } else if c == '`' {
      PopTemplateEncodes(stack, counters);
      inTemplate, stack' := false, Pop(stack);
    } else if c == '$' && i + 1 < |s| && s[i + 1] == '{' {
      PushEncodes(stack, true, counters, Interpolation);
      i', p' := i + 2, Advance(p', s[i + 1]);
      inTemplate, counters', stack' := false, counters + [0], stack + [Interpolation];
    }
  }

  /** One round in code that does not start a comment or a string, and is no backslash. */
  method CodeRound(s: string, i: nat, p: Position, ghost stack: seq<Frame>, counters: seq<nat>)
    returns (p': Position, inTemplate: bool, counters': seq<nat>, ghost stack': seq<Frame>)
    requires i < |s| && Reached(s, i, p, Plain, stack) && Encodes(stack, false, counters)
    requires s[i] != '/' && s[i] != '\'' && s[i] != '"' && s[i] != '\\'
    ensures p' == PositionAt(s, i + 1)
    ensures Reached(s, i + 1, p', Plain, stack') && Encodes(stack', inTemplate, counters')
  {
    var c := s[i];
    p', inTemplate, counters', stack' := Advance(p, c), false, counters, stack;
    if c == '`' {
      PushEncodes(stack, false, counters, Template);
      inTemplate, stack' := true, stack + [Template];
    } else if c == '{' {
      PushEncodes(stack, false, counters, Brace);
      stack' := stack + [Brace];
      if |counters| > 0 {
        counters' := counters[|counters| - 1 := counters[|counters| - 1] + 1];
      }
    } else if c == '}' {
      PopBraceEncodes(stack, counters);
      stack' := if stack == [] then [] else Pop(stack);
      var top := |counters| - 1;
      if top >= 0 {
        if counters[top] == 0 {
          counters', inTemplate := counters[..top], true;
        } else {
          counters' := counters[top := counters[top] - 1];
        }
      }
    }
  }

  /** The comments, and the slash that could be a regex, a division or a JSX tag. */
  method SlashRound(s: string, i: nat, p: Position, ghost stack: seq<Frame>) returns (ok: bool, i': nat, p': Position)
    requires i < |s| && s[i] == '/' && Reached(s, i, p, Plain, stack) && !InTemplate(stack)
    ensures ok ==> i < i' && Reached(s, i', p', Plain, stack)
    ensures !ok ==> LostSync(s)
  {
    if i + 1 >= |s| || (s[i + 1] != '/' && s[i + 1] != '*') {
      return false, i, p;
    }
    var q := Advance(Advance(p, s[i]), s[i + 1]);
    if s[i + 1] == '/' {
      ok := true;
      i', p' := SkipLineComment(s, i + 2, q, stack);
    } else {
      ok, i', p' := SkipBlockComment(s, i + 2, q, stack);
    }
  }

  /** The first backslash in code position, as the reference lexer finds it, with its position. */
  method JsStrayBackslash(s: string) returns (line: nat, col: nat, found: bool)
    ensures var r := Lexed(s, 0, Plain, []);
            && (found <==> r.Stray?)
            && (found ==> r.at <= |s| && Position(line, col) == PositionAt(s, r.at))
            && (!found ==> line == 0 && col == 0)
  {
    hide Lexed, Encodes, WellNested, Counters;
    EncodesNothing();
    var p, counters, inTemplate := Position(1, 1), [], false;
    ghost var stack: seq<Frame> := [];
    var i: nat := 0;
    while i < |s|
      invariant Reached(s, i, p, Plain, stack) && Encodes(stack, inTemplate, counters)
      decreases |s| - i
    {
      var ok := true;
      FlagIsTop(stack, inTemplate, counters);
      if inTemplate {
        ok, i, p, inTemplate, counters, stack := TemplateRound(s, i, p, stack, counters);
      } else if s[i] == '/' {
        ok, i, p := SlashRound(s, i, p, stack);
      } else if s[i] == '\'' || s[i] == '"' {
        StringOpens(s, i, stack);
        ok, i, p := SkipQuoted(s, i + 1, Advance(p, s[i]), s[i], stack);
      } else if s[i] == '\\' {
        BackslashStrays(s, i, stack);
        return p.line, p.col, true;
      } else {
        p, inTemplate, counters, stack := CodeRound(s, i, p, stack, counters);
        i := i + 1;
      }
      if !ok {
        return 0, 0, false;
      }
    }
    NothingStrays(s, stack);
    return 0, 0, false;
  }

  lemma EncodesNothing()
    ensures Encodes([], false, [])
  {
  }

  lemma FlagIsTop(stack: seq<Frame>, inTemplate: bool, counters: seq<nat>)
    requires Encodes(stack, inTemplate, counters)
    ensures inTemplate == InTemplate(stack)
  {
  }

  lemma StringOpens(s: string, i: nat, stack: seq<Frame>)
    requires i < |s| && (s[i] == '\'' || s[i] == '"') && !InTemplate(stack)
    ensures Lexed(s, i, Plain, stack) == Lexed(s, i + 1, Quoted(s[i]), stack)
  {
  }

  lemma BackslashStrays(s: string, i: nat, stack: seq<Frame>)
    requires i < |s| && s[i] == '\\' && !InTemplate(stack)
    ensures Lexed(s, i, Plain, stack) == Stray(i)
  {
  }

  lemma NothingStrays(s: string, stack: seq<Frame>)
    ensures !Lexed(s, |s|, Plain, stack).Stray?
  {
  }
}
