/** The two loops themselves.  They run independently, on different texts; each is proved to compute
    its function of the token stream. */
module EscapeScan {
  import opened Text
  import opened Literals
  import opened EscapeLexer
  import opened EscapeGate
  import opened EscapeLaws

  predicate AllCode(ts: seq<Token>) { forall k :: 0 <= k < |ts| ==> ts[k].Code? }

  lemma {:induction false} BlankLex(lang: Language, s: string)
    requires IsBlank(s)
    ensures AllCode(Lex(lang, s))
    decreases |s|
  {
    if s != "" {
      assert IsSpace(s[0]);
      assert NextToken(lang, s) == Code(s[0]);
      BlankLex(lang, s[1..]);
    }
  }

  lemma {:induction false} CodeAccepted(lang: Language, ts: seq<Token>, line: nat)
    requires AllCode(ts)
    ensures FirstIllegal(lang, ts, line).Accepted?
  {
    if ts != [] {
      CodeAccepted(lang, ts[1..], line + Newlines(ts[0].Text()));
    }
  }

  lemma {:induction false} CodeUnrepaired(lang: Language, ts: seq<Token>, line: nat)
    requires AllCode(ts)
    ensures RepairsOf(lang, ts, line) == []
  {
    if ts != [] {
      CodeUnrepaired(lang, ts[1..], line + Newlines(ts[0].Text()));
    }
  }

  lemma RepairsOfStep(lang: Language, t: Token, ts: seq<Token>, line: nat)
    ensures RepairsOf(lang, [t] + ts, line) == TokenRepairs(lang, t, line) + RepairsOf(lang, ts, line + Newlines(t.Text()))
  {
    hide TokenRepairs, Newlines, Token.Text;
    assert ([t] + ts)[1..] == ts;
  }

  lemma FirstIllegalNone(lang: Language)
    ensures FirstIllegalUnit(lang, []).None?
  {
  }

  /** Where a literal's scan stands: `pos` is past the units `done`, and `total` is what the whole
      body scans to. */
  ghost predicate BodyProgress(s: string, quote: char, total: (seq<Unit>, bool), done: seq<Unit>, start: nat,
    pos: nat) {
    && start <= pos <= |s|
    && var left := ScanBody(quote, s[pos..]);
       && total == (done + left.0, left.1)
       && pos == start + |UnitsText(done)|
  }

  lemma BodyStart(s: string, quote: char, start: nat)
    requires start <= |s|
    ensures BodyProgress(s, quote, ScanBody(quote, s[start..]), [], start, start)
  {
    hide ScanBody;
    var total := ScanBody(quote, s[start..]);
    assert [] + total.0 == total.0;
  }

  /** One more unit read. */
  lemma BodyStep(s: string, quote: char, total: (seq<Unit>, bool), done: seq<Unit>, start: nat, pos: nat, u: Unit)
    requires BodyProgress(s, quote, total, done, start, pos)
    requires pos + |UnitText(u)| <= |s|
    requires ScanBody(quote, s[pos..]) ==
             var rest := ScanBody(quote, s[pos + |UnitText(u)|..]); ([u] + rest.0, rest.1)
    ensures BodyProgress(s, quote, total, done + [u], start, pos + |UnitText(u)|)
  {
    hide ScanBody, UnitText;
    var left := ScanBody(quote, s[pos + |UnitText(u)|..]);
    assert done + ([u] + left.0) == (done + [u]) + left.0;
    UnitsTextConcat(done, [u]);
    assert UnitsText([u]) == UnitText(u);
  }

  lemma BodyStepRaw(s: string, quote: char, total: (seq<Unit>, bool), done: seq<Unit>, start: nat, pos: nat)
    requires IsQuote(quote) && BodyProgress(s, quote, total, done, start, pos)
    requires pos < |s| && s[pos] != '\n' && s[pos] != '\\' && s[pos] != quote
    ensures BodyProgress(s, quote, total, done + [Raw(s[pos])], start, pos + 1)
  {
    hide BodyProgress, UnitsText, WellFormed;
    assert s[pos..][1..] == s[pos + 1..];
    BodyStep(s, quote, total, done, start, pos, Raw(s[pos]));
  }

  /** A backslash the scan cannot use: nothing after it, or the end of the line. */
  predicate DeadBackslash(s: string, pos: nat) {
    pos < |s| && s[pos] == '\\' && (pos + 1 >= |s| || s[pos + 1] == '\n' || s[pos + 1] == '\r')
  }

  lemma BodyStepEscape(s: string, quote: char, total: (seq<Unit>, bool), done: seq<Unit>, start: nat, pos: nat)
    requires IsQuote(quote) && BodyProgress(s, quote, total, done, start, pos)
    requires pos + 1 < |s| && s[pos] == '\\' && !DeadBackslash(s, pos)
    ensures BodyProgress(s, quote, total, done + [Escape(s[pos + 1])], start, pos + 2)
  {
    hide BodyProgress, UnitsText, WellFormed;
    assert s[pos..][2..] == s[pos + 2..];
    assert s[pos..][1] == s[pos + 1];
    BodyStep(s, quote, total, done, start, pos, Escape(s[pos + 1]));
  }

  lemma BodyUnclosed(s: string, quote: char, total: (seq<Unit>, bool), done: seq<Unit>, start: nat, pos: nat)
    requires IsQuote(quote) && BodyProgress(s, quote, total, done, start, pos)
    requires pos == |s| || s[pos] == '\n' || DeadBackslash(s, pos)
    ensures total == (done, false)
  {
    assert ScanBody(quote, s[pos..]) == ([], false);
    assert done + [] == done;
  }

  lemma BodyClosed(s: string, quote: char, total: (seq<Unit>, bool), done: seq<Unit>, start: nat, pos: nat)
    requires IsQuote(quote) && BodyProgress(s, quote, total, done, start, pos)
    requires pos < |s| && s[pos] == quote
    ensures total == (done, true) && pos == start + |UnitsText(done)|
  {
    assert ScanBody(quote, s[pos..]) == ([], true);
    assert done + [] == done;
  }

  lemma {:induction false} FirstIllegalUnitConcat(lang: Language, a: seq<Unit>, b: seq<Unit>)
    ensures FirstIllegalUnit(lang, a + b) ==
            if FirstIllegalUnit(lang, a).Some? then FirstIllegalUnit(lang, a) else FirstIllegalUnit(lang, b)
  {
    if a == [] {
      assert a + b == b;
    } else {
      assert (a + b)[1..] == a[1..] + b;
      FirstIllegalUnitConcat(lang, a[1..], b);
    }
  }

  lemma FirstIllegalOfTotal(lang: Language, s: string, quote: char, total: (seq<Unit>, bool), done: seq<Unit>,
    start: nat, pos: nat)
    requires BodyProgress(s, quote, total, done, start, pos) && FirstIllegalUnit(lang, done).Some?
    ensures FirstIllegalUnit(lang, total.0) == FirstIllegalUnit(lang, done)
  {
    hide FirstIllegalUnit, ScanBody;
    FirstIllegalUnitConcat(lang, done, ScanBody(quote, s[pos..]).0);
  }

  lemma FirstIllegalSnoc(lang: Language, done: seq<Unit>, u: Unit)
    requires FirstIllegalUnit(lang, done).None?
    ensures FirstIllegalUnit(lang, done + [u]) == if IllegalUnit(lang, u) then Some(u.c) else None
  {
    FirstIllegalUnitConcat(lang, done, [u]);
  }

  datatype LiteralScan = Closed(end: nat) | Declined | Bad(escape: char)

  /** What the gate makes of a literal whose body scans to `total`. */
  function LiteralVerdict(lang: Language, total: (seq<Unit>, bool), start: nat): LiteralScan {
    match FirstIllegalUnit(lang, total.0)
    case Some(c) => Bad(c)
    case None => if total.1 then Closed(start + |UnitsText(total.0)| + 1) else Declined
  }

  /** The gate's inner loop: it reports a bad escape before it knows whether the literal closes. */
  method GateLiteral(lang: Language, s: string, at: nat) returns (r: LiteralScan)
    requires at < |s| && IsQuote(s[at])
    ensures r == LiteralVerdict(lang, ScanBody(s[at], s[at + 1..]), at + 1)
  {
    hide BodyProgress, ScanBody, UnitsText, FirstIllegalUnit;
    var quote, i, n := s[at], at + 1, |s|;
    ghost var total := ScanBody(quote, s[at + 1..]);
    ghost var done: seq<Unit> := [];
    BodyStart(s, quote, at + 1);
    FirstIllegalNone(lang);
    while i < n
      invariant at + 1 <= i <= n
      invariant BodyProgress(s, quote, total, done, at + 1, i)
      invariant FirstIllegalUnit(lang, done).None?
    {
      if s[i] == '\n' {
        BodyUnclosed(s, quote, total, done, at + 1, i);
        return Declined;
      }
      if s[i] == '\\' {
        if i + 1 >= n || s[i + 1] == '\n' || s[i + 1] == '\r' {
          BodyUnclosed(s, quote, total, done, at + 1, i);
          return Declined;
        }
        var esc := s[i + 1];
        BodyStepEscape(s, quote, total, done, at + 1, i);
        FirstIllegalSnoc(lang, done, Escape(esc));
        done := done + [Escape(esc)];
        if !IsEscapeLead(lang, esc) {
          FirstIllegalOfTotal(lang, s, quote, total, done, at + 1, i + 2);
          return Bad(esc);
        }
        i := i + 2;
        continue;
      }
      if s[i] == quote {
        BodyClosed(s, quote, total, done, at + 1, i);
        return Closed(i + 1);
      }
      BodyStepRaw(s, quote, total, done, at + 1, i);
      FirstIllegalSnoc(lang, done, Raw(s[i]));
      done := done + [Raw(s[i])];
      i := i + 1;
    }
    BodyUnclosed(s, quote, total, done, at + 1, i);
    return Declined;
  }

  lemma LexUnfold(lang: Language, s: string, i: nat)
    requires i < |s|
    ensures var t := NextToken(lang, s[i..]);
            && i + |t.Text()| <= |s| && s[i..i + |t.Text()|] == t.Text()
            && Lex(lang, s[i..]) == [t] + Lex(lang, s[i + |t.Text()|..])
  {
    var t := NextToken(lang, s[i..]);
    assert s[i..][|t.Text()|..] == s[i + |t.Text()|..];
    assert s[i..i + |t.Text()|] == s[i..][..|t.Text()|];
  }

  /** What one token is to the two loops: its bytes, its line feeds, its units. */
  predicate TokenIs(t: Token, length: nat, lines: nat, body: seq<Unit>, lost: bool) {
    && t.LostSync() == lost && t.Body() == body
    && (!lost ==> |t.Text()| == length && Newlines(t.Text()) == lines)
  }

  lemma LineCommentAt(s: string, i: nat)
    requires i + 1 < |s| && s[i] == '/' && s[i + 1] == '/'
    ensures var t, j := OrdinaryToken(s[i..]), Index(s[i..], "\n");
            && j != 0 && TokenIs(t, if j < 0 then 0 else j, 0, [], j < 0)
            && (j >= 0 ==> i + j <= |s| && t == Copied(s[i..i + j]))
  {
    var r := s[i..];
    assert StartsWith(r, '/', '/');
    if LineCommentLen(r).Some? {
      var j := LineCommentLen(r).value;
      assert r[..j] == s[i..i + j];
      NoNewlines(r[..j]);
    }
  }

  lemma BlockCommentAt(s: string, i: nat)
    requires i + 1 < |s| && s[i] == '/' && s[i + 1] == '*'
    ensures var t, j := OrdinaryToken(s[i..]), Index(s[i + 2..], "*/");
            if j < 0 then TokenIs(t, 0, 0, [], true)
            else
              && i + 2 + j + 2 <= |s| && t == Copied(s[i..i + 2 + j + 2])
              && TokenIs(t, j + 4, Newlines(s[i..i + 2 + j + 2]), [], false)
  {
    hide Newlines, Index;
    var r := s[i..];
    assert r[1] == s[i + 1] && r[2..] == s[i + 2..];
    if BlockCommentLen(r).Some? {
      assert r[..BlockCommentLen(r).value] == s[i..i + BlockCommentLen(r).value];
    }
  }

  lemma LiteralAt(s: string, i: nat)
    requires i < |s| && IsQuote(s[i])
    ensures var t, (us, closed) := OrdinaryToken(s[i..]), ScanBody(s[i], s[i + 1..]);
            && TokenIs(t, |UnitsText(us)| + 2, 0, us, !closed)
            && (closed ==> t == Literal(s[i], us))
  {
    hide Newlines, UnitsText, ScanBody;
    var r := s[i..];
    assert r[1..] == s[i + 1..];
    assert OrdinaryToken(r) == QuotedToken(r);
    var t := QuotedToken(r);
    if t.Literal? {
      OneLine(t.quote, t.body);
    }
  }

  lemma CodeAt(s: string, i: nat)
    requires i < |s| && !IsQuote(s[i])
    requires s[i] == '/' && i + 1 < |s| ==> s[i + 1] != '/' && s[i + 1] != '*'
    ensures OrdinaryToken(s[i..]) == Code(s[i])
    ensures TokenIs(Code(s[i]), 1, if s[i] == '\n' then 1 else 0, [], false)
  {
    assert [s[i]][1..] == "";
    assert i + 1 < |s| ==> s[i..][1] == s[i + 1];
  }

  lemma OrdinaryAt(lang: Language, s: string, i: nat)
    requires i < |s| && (lang.CSharp? ==> UnmodelledLen(s[i..]).None?)
    ensures NextToken(lang, s[i..]) == OrdinaryToken(s[i..])
  {
    hide UnmodelledLen, OrdinaryToken;
  }

  lemma UnmodelledAt(s: string, i: nat, end: nat)
    requires i < |s| && UnmodelledLen(s[i..]) == Some(end - i) && i <= end
    ensures end <= |s| && NextToken(CSharp, s[i..]) == Copied(s[i..end])
    ensures TokenIs(Copied(s[i..end]), end - i, Newlines(s[i..end]), [], false)
  {
    hide UnmodelledLen, Newlines;
    assert s[i..][..end - i] == s[i..end];
  }

  lemma OneLine(quote: char, us: seq<Unit>)
    requires IsQuote(quote) && WellFormed(us, quote)
    ensures Newlines(Literal(quote, us).Text()) == 0
  {
    WellFormedNoNewline(us, quote);
    assert Newlines([quote]) == 0 by {
      assert [quote][1..] == "";
    }
    hide Newlines, UnitsText;
    NewlinesConcat([quote], UnitsText(us));
    NewlinesConcat([quote] + UnitsText(us), [quote]);
  }

  ghost predicate GateProgress(lang: Language, s: string, i: nat, line: nat) {
    i <= |s| && Gate(lang, s) == FirstIllegal(lang, Lex(lang, s[i..]), line)
  }

  lemma GateStep(lang: Language, s: string, i: nat, line: nat)
    requires i < |s| && GateProgress(lang, s, i, line)
    ensures var t := NextToken(lang, s[i..]);
            match FirstIllegalUnit(lang, t.Body())
            case Some(c) => Gate(lang, s) == Rejected(c, line)
            case None =>
              && (t.LostSync() ==> Gate(lang, s) == Accepted)
              && i + |t.Text()| <= |s|
              && GateProgress(lang, s, i + |t.Text()|, line + Newlines(t.Text()))
  {
    hide FirstIllegalUnit, Newlines, Token.Text, Token.Body, NextToken;
    LexUnfold(lang, s, i);
    var t := NextToken(lang, s[i..]);
    FirstIllegalStep(lang, t, Lex(lang, s[i + |t.Text()|..]), line);
    if t.LostSync() {
      assert s[i + |t.Text()|..] == "";
    }
  }

  /** illegalEscapeReason: the first escape the compiler would reject, or acceptance when there is
      none or the scan loses its place first. */
  method IllegalEscapeReason(lang: Option<Language>, s: string) returns (v: Verdict)
    ensures v == if lang.Some? then Gate(lang.value, s) else Accepted
  {
    if IsBlank(s) {
      if lang.Some? {
        BlankLex(lang.value, s);
        CodeAccepted(lang.value, Lex(lang.value, s), 1);
      }
      return Accepted;
    }
    if lang.None? {
      return Accepted;
    }
    v := GateScan(lang.value, s);
  }

  // one lemma for each branch of the gate's loop

  /** A token with nothing wrong in it moves the scan past it. */
  lemma GatePasses(lang: Language, s: string, i: nat, line: nat, length: nat, lines: nat, body: seq<Unit>)
    requires i < |s| && GateProgress(lang, s, i, line)
    requires TokenIs(NextToken(lang, s[i..]), length, lines, body, false) && FirstIllegalUnit(lang, body).None?
    ensures GateProgress(lang, s, i + length, line + lines)
  {
    hide FirstIllegalUnit, Newlines, Token.Text, Token.Body, NextToken, GateProgress;
    GateStep(lang, s, i, line);
  }

  lemma GateLost(lang: Language, s: string, i: nat, line: nat, body: seq<Unit>)
    requires i < |s| && GateProgress(lang, s, i, line)
    requires TokenIs(NextToken(lang, s[i..]), 0, 0, body, true) && FirstIllegalUnit(lang, body).None?
    ensures Gate(lang, s) == Accepted
  {
    hide FirstIllegalUnit, Newlines, Token.Text, Token.Body, NextToken, GateProgress;
    GateStep(lang, s, i, line);
  }

  predicate OrdinaryHere(lang: Language, s: string, i: nat) {
    i < |s| && (lang.CSharp? ==> UnmodelledLen(s[i..]).None?)
  }

  lemma GateUnmodelled(s: string, i: nat, line: nat, end: nat)
    requires i < |s| && GateProgress(CSharp, s, i, line)
    requires UnmodelledLen(s[i..]) == Some(end - i) && i <= end
    ensures end <= |s| && GateProgress(CSharp, s, end, line + Newlines(s[i..end]))
  {
    hide GateProgress, NextToken, TokenIs, Newlines, UnmodelledLen;
    FirstIllegalNone(CSharp);
    UnmodelledAt(s, i, end);
    GatePasses(CSharp, s, i, line, end - i, Newlines(s[i..end]), []);
  }

  lemma GateLineComment(lang: Language, s: string, i: nat, line: nat)
    requires OrdinaryHere(lang, s, i) && GateProgress(lang, s, i, line)
    requires i + 1 < |s| && s[i] == '/' && s[i + 1] == '/'
    ensures var j := Index(s[i..], "\n");
            if j < 0 then Gate(lang, s) == Accepted else 0 < j && i + j <= |s| && GateProgress(lang, s, i + j, line)
  {
    hide GateProgress, NextToken, TokenIs, OrdinaryToken, Gate, Index, OccursAt, UnmodelledLen;
    FirstIllegalNone(lang);
    OrdinaryAt(lang, s, i);
    LineCommentAt(s, i);
    var j := Index(s[i..], "\n");
    if j < 0 {
      GateLost(lang, s, i, line, []);
    } else {
      GatePasses(lang, s, i, line, j, 0, []);
    }
  }

  lemma GateBlockComment(lang: Language, s: string, i: nat, line: nat)
    requires OrdinaryHere(lang, s, i) && GateProgress(lang, s, i, line)
    requires i + 1 < |s| && s[i] == '/' && s[i + 1] == '*'
    ensures var j := Index(s[i + 2..], "*/");
            if j < 0 then Gate(lang, s) == Accepted
            else i + 2 + j + 2 <= |s| && GateProgress(lang, s, i + 2 + j + 2, line + Newlines(s[i..i + 2 + j + 2]))
  {
    hide GateProgress, NextToken, TokenIs, OrdinaryToken, Gate, Newlines, Index, OccursAt, UnmodelledLen;
    FirstIllegalNone(lang);
    OrdinaryAt(lang, s, i);
    BlockCommentAt(s, i);
    var j := Index(s[i + 2..], "*/");
    if j < 0 {
      GateLost(lang, s, i, line, []);
    } else {
      GatePasses(lang, s, i, line, j + 4, Newlines(s[i..i + 2 + j + 2]), []);
    }
  }

  lemma GateQuoted(lang: Language, s: string, i: nat, line: nat)
    requires OrdinaryHere(lang, s, i) && GateProgress(lang, s, i, line) && IsQuote(s[i])
    ensures match LiteralVerdict(lang, ScanBody(s[i], s[i + 1..]), i + 1)
            case Bad(c) => Gate(lang, s) == Rejected(c, line)
            case Declined => Gate(lang, s) == Accepted
            case Closed(end) => i < end <= |s| && GateProgress(lang, s, end, line)
  {
    hide NextToken, OrdinaryToken, Gate, ScanBody, UnitsText, Newlines, Token.Text, Token.Body, FirstIllegalUnit;
    OrdinaryAt(lang, s, i);
    LiteralAt(s, i);
    GateStep(lang, s, i, line);
  }

  lemma GateCode(lang: Language, s: string, i: nat, line: nat)
    requires OrdinaryHere(lang, s, i) && GateProgress(lang, s, i, line) && !IsQuote(s[i])
    requires s[i] == '/' && i + 1 < |s| ==> s[i + 1] != '/' && s[i + 1] != '*'
    ensures GateProgress(lang, s, i + 1, line + if s[i] == '\n' then 1 else 0)
  {
    hide GateProgress, NextToken, TokenIs, OrdinaryToken;
    FirstIllegalNone(lang);
    OrdinaryAt(lang, s, i);
    CodeAt(s, i);
    GatePasses(lang, s, i, line, 1, if s[i] == '\n' then 1 else 0, []);
  }

  /** One round of the gate's loop: an answer, or the place and line of the next round. */
  method GateRound(lang: Language, s: string, i: nat, line: nat)
    returns (answer: Option<Verdict>, i': nat, line': nat)
    requires i < |s| && GateProgress(lang, s, i, line)
    ensures answer.Some? ==> answer.value == Gate(lang, s)
    ensures answer.None? ==> i < i' <= |s| && GateProgress(lang, s, i', line')
  {
    hide Gate, GateProgress, ScanBody, LiteralVerdict, Newlines, Index, UnmodelledLen;
    var n := |s|;
    if lang.CSharp? {
      var end, ok := CSharpUnmodelledLiteralEnd(s, i);
      if ok {
        GateUnmodelled(s, i, line, end);
        return None, end, line + Newlines(s[i..end]);
      }
    }
    var c := s[i];
    if c == '\n' {
      GateCode(lang, s, i, line);
      return None, i + 1, line + 1;
    } else if c == '/' && i + 1 < n && s[i + 1] == '/' {
      GateLineComment(lang, s, i, line);
      var j := Index(s[i..], "\n");
      if j < 0 {
        return Some(Accepted), i, line;
      }
      return None, i + j, line;
    } else if c == '/' && i + 1 < n && s[i + 1] == '*' {
      GateBlockComment(lang, s, i, line);
      var j := Index(s[i + 2..], "*/");
      if j < 0 {
        return Some(Accepted), i, line;
      }
      return None, i + 2 + j + 2, line + Newlines(s[i..i + 2 + j + 2]);
    } else if c == '"' || c == '\'' {
      GateQuoted(lang, s, i, line);
      var r := GateLiteral(lang, s, i);
      match r {
        case Bad(esc) => return Some(Rejected(esc, line)), i, line;
        case Declined => return Some(Accepted), i, line;
        case Closed(end) => return None, end, line;
      }
    }
    GateCode(lang, s, i, line);
    return None, i + 1, line;
  }

  method GateScan(lang: Language, s: string) returns (v: Verdict)
    ensures v == Gate(lang, s)
  {
    var i: nat := 0;
    var line: nat := 1;
    GateStart(lang, s);
    while i < |s|
      invariant i <= |s| && GateProgress(lang, s, i, line)
      decreases |s| - i
    {
      var answer;
      answer, i, line := GateRound(lang, s, i, line);
      if answer.Some? {
        return answer.value;
      }
    }
    GateDone(lang, s, line);
    return Accepted;
  }

  lemma GateStart(lang: Language, s: string)
    ensures GateProgress(lang, s, 0, 1)
  {
    assert s[0..] == s;
  }

  lemma GateDone(lang: Language, s: string, line: nat)
    requires GateProgress(lang, s, |s|, line)
    ensures Gate(lang, s) == Accepted
  {
    assert s[|s|..] == "";
  }

  lemma {:induction false} BodyRepairsConcat(lang: Language, a: seq<Unit>, b: seq<Unit>, line: nat)
    ensures BodyRepairs(lang, a + b, line) == BodyRepairs(lang, a, line) + BodyRepairs(lang, b, line)
  {
    hide BodyRepairs, IllegalUnit;
    if a == [] {
      NoBodyRepairs(lang, line);
      assert a + b == b;
    } else {
      assert (a + b)[0] == a[0] && (a + b)[1..] == a[1..] + b;
      BodyRepairsStep(lang, a, line);
      BodyRepairsStep(lang, a + b, line);
      BodyRepairsConcat(lang, a[1..], b, line);
    }
  }

  lemma NoBodyRepairs(lang: Language, line: nat)
    ensures BodyRepairs(lang, [], line) == []
  {
  }

  lemma BodyRepairsStep(lang: Language, us: seq<Unit>, line: nat)
    requires us != []
    ensures BodyRepairs(lang, us, line) == UnitRepairs(lang, us[0], line) + BodyRepairs(lang, us[1..], line)
  {
    hide IllegalUnit;
  }

  lemma {:induction false} RepairBodyConcat(lang: Language, a: seq<Unit>, b: seq<Unit>)
    ensures RepairBody(lang, a + b) == RepairBody(lang, a) + RepairBody(lang, b)
  {
    hide RepairUnit;
    if a == [] {
      assert a + b == b;
    } else {
      assert (a + b)[1..] == a[1..] + b;
      RepairBodyConcat(lang, a[1..], b);
    }
  }

  /** What the repair's inner loop has written of a literal opened by `quote`, and reported. */
  function Written(lang: Language, quote: char, done: seq<Unit>): string {
    UnitsText(if quote == '"' then RepairBody(lang, done) else done)
  }

  function Reported(lang: Language, quote: char, done: seq<Unit>, line: nat): seq<EscapeRepair> {
    if quote == '"' then BodyRepairs(lang, done, line) else []
  }

  lemma WrittenStep(lang: Language, quote: char, done: seq<Unit>, u: Unit, line: nat)
    ensures Written(lang, quote, done + [u]) ==
            Written(lang, quote, done) + if quote == '"' && IllegalUnit(lang, u) then ['\\', '\\', u.c] else UnitText(u)
    ensures Reported(lang, quote, done + [u], line) ==
            Reported(lang, quote, done, line) +
            if quote == '"' && IllegalUnit(lang, u) then [EscapeRepair(line, ['\\', u.c])] else []
  {
    UnitWritten(lang, u, line);
    hide BodyRepairs, RepairBody, RepairUnit, UnitsText, UnitText, IllegalUnit;
    BodyRepairsConcat(lang, done, [u], line);
    RepairBodyConcat(lang, done, [u]);
    UnitsTextConcat(RepairBody(lang, done), RepairUnit(lang, u));
    UnitsTextConcat(done, [u]);
  }

  lemma UnitWritten(lang: Language, u: Unit, line: nat)
    ensures RepairBody(lang, [u]) == RepairUnit(lang, u) && UnitsText([u]) == UnitText(u)
    ensures UnitsText(RepairUnit(lang, u)) == if IllegalUnit(lang, u) then ['\\', '\\', u.c] else UnitText(u)
    ensures BodyRepairs(lang, [u], line) == if IllegalUnit(lang, u) then [EscapeRepair(line, ['\\', u.c])] else []
  {
    hide IsEscapeLead;
    assert [u][1..] == [];
    var r := RepairUnit(lang, u);
    if IllegalUnit(lang, u) {
      assert r[1..] == [Raw(u.c)] && r[1..][1..] == [];
    }
  }

  /** The repair's inner loop: the literal rewritten, and the reports it adds. */
  method RepairLiteral(lang: Language, s: string, at: nat, line: nat)
    returns (closed: bool, end: nat, lit: string, found: seq<EscapeRepair>)
    requires at < |s| && IsQuote(s[at])
    ensures var (body, whole) := ScanBody(s[at], s[at + 1..]);
            && closed == whole
            && (closed ==>
                 && end == at + |UnitsText(body)| + 2
                 && lit == [s[at]] + Written(lang, s[at], body) + [s[at]]
                 && found == Reported(lang, s[at], body, line))
  {
    hide BodyProgress, ScanBody, UnitsText, Written, Reported;
    var quote, i, n := s[at], at + 1, |s|;
    closed, end, lit, found := false, 0, [quote], [];
    ghost var total := ScanBody(quote, s[at + 1..]);
    ghost var done: seq<Unit> := [];
    BodyStart(s, quote, at + 1);
    WrittenNothing(lang, quote, line);
    while i < n
      invariant at + 1 <= i <= n && !closed
      invariant BodyProgress(s, quote, total, done, at + 1, i)
      invariant lit == [quote] + Written(lang, quote, done)
      invariant found == Reported(lang, quote, done, line)
    {
      if s[i] == '\n' {
        BodyUnclosed(s, quote, total, done, at + 1, i);
        return;
      }
      if s[i] == '\\' {
        if i + 1 >= n || s[i + 1] == '\n' || s[i + 1] == '\r' {
          BodyUnclosed(s, quote, total, done, at + 1, i);
          return;
        }
        var esc := s[i + 1];
        BodyStepEscape(s, quote, total, done, at + 1, i);
        WrittenStep(lang, quote, done, Escape(esc), line);
        WrittenGrows([quote], Written(lang, quote, done), ['\\', '\\', esc], ['\\', esc]);
        done := done + [Escape(esc)];
        i := i + 2;
        if !IsEscapeLead(lang, esc) && quote == '"' {
          found := found + [EscapeRepair(line, ['\\', esc])];
          lit := lit + ['\\', '\\', esc];
          continue;
        }
        lit := lit + ['\\', esc];
        continue;
      }
      if s[i] == quote {
        BodyClosed(s, quote, total, done, at + 1, i);
        return true, i + 1, lit + [quote], found;
      }
      BodyStepRaw(s, quote, total, done, at + 1, i);
      WrittenStep(lang, quote, done, Raw(s[i]), line);
      WrittenGrows([quote], Written(lang, quote, done), [s[i]], [s[i]]);
      lit := lit + [s[i]];
      done := done + [Raw(s[i])];
      i := i + 1;
    }
    BodyUnclosed(s, quote, total, done, at + 1, i);
  }

  lemma WrittenNothing(lang: Language, quote: char, line: nat)
    ensures [quote] + Written(lang, quote, []) == [quote] && Reported(lang, quote, [], line) == []
  {
  }

  lemma WrittenGrows(a: string, b: string, c: string, d: string)
    ensures a + (b + c) == a + b + c && a + (b + d) == a + b + d
  {
  }

  /** Where the repair's outer loop stands: `b` and `repairs` are what the tokens before `i` give. */
  ghost predicate RepairProgress(lang: Language, s: string, i: nat, line: nat, b: string, repairs: seq<EscapeRepair>) {
    && i <= |s|
    && var left := Lex(lang, s[i..]);
       && (Complete(Lex(lang, s)) <==> Complete(left))
       && RepairedText(lang, s) == b + TextOf(RepairTokens(lang, left))
       && RepairsOf(lang, Lex(lang, s), 1) == repairs + RepairsOf(lang, left, line)
  }

  lemma RepairTokensStep(lang: Language, t: Token, ts: seq<Token>)
    ensures TextOf(RepairTokens(lang, [t] + ts)) == RepairToken(lang, t).Text() + TextOf(RepairTokens(lang, ts))
  {
    hide Token.Text, RepairToken;
    assert ([t] + ts)[1..] == ts;
    RepairTokensCons(lang, [t] + ts);
    assert ([RepairToken(lang, t)] + RepairTokens(lang, ts))[1..] == RepairTokens(lang, ts);
  }

  lemma CompleteStep(t: Token, ts: seq<Token>)
    ensures Complete([t] + ts) <==> !t.LostSync() && Complete(ts)
  {
    hide Token.LostSync;
    var all := [t] + ts;
    if Complete(all) {
      assert !all[0].LostSync();
      forall k | 0 <= k < |ts| ensures !ts[k].LostSync() {
        assert !all[k + 1].LostSync();
      }
    }
  }

  lemma RepairStep(lang: Language, s: string, i: nat, line: nat, b: string, repairs: seq<EscapeRepair>)
    requires i < |s| && RepairProgress(lang, s, i, line, b, repairs)
    ensures var t := NextToken(lang, s[i..]);
            && (t.LostSync() ==> !Complete(Lex(lang, s)))
            && (!t.LostSync() ==>
                 RepairProgress(lang, s, i + |t.Text()|, line + Newlines(t.Text()),
                   b + RepairToken(lang, t).Text(), repairs + TokenRepairs(lang, t, line)))
  {
    hide Lex, NextToken, RepairToken, TokenRepairs, RepairTokens;
    hide RepairsOf, TextOf, Newlines, Token.Text, Token.LostSync, Complete;
    var t := NextToken(lang, s[i..]);
    var rest := Lex(lang, s[i + |t.Text()|..]);
    LexUnfold(lang, s, i);
    RepairTokensStep(lang, t, rest);
    CompleteStep(t, rest);
    RepairsOfStep(lang, t, rest, line);
    assert b + (RepairToken(lang, t).Text() + TextOf(RepairTokens(lang, rest)))
        == (b + RepairToken(lang, t).Text()) + TextOf(RepairTokens(lang, rest));
    var line' := line + Newlines(t.Text());
    assert repairs + (TokenRepairs(lang, t, line) + RepairsOf(lang, rest, line'))
        == (repairs + TokenRepairs(lang, t, line)) + RepairsOf(lang, rest, line');
  }

  // one lemma for each branch of the repair's loop

  /** A token the repair copies. */
  lemma RepairCopies(lang: Language, s: string, i: nat, line: nat, b: string, repairs: seq<EscapeRepair>, t: Token,
    length: nat, lines: nat)
    requires i < |s| && RepairProgress(lang, s, i, line, b, repairs)
    requires t == NextToken(lang, s[i..]) && (t.Copied? || t.Code?) && TokenIs(t, length, lines, [], false)
    ensures RepairProgress(lang, s, i + length, line + lines, b + t.Text(), repairs)
  {
    hide RepairProgress, NextToken, Newlines, Token.Text;
    RepairStep(lang, s, i, line, b, repairs);
    assert repairs + [] == repairs;
  }

  lemma CopiedText(text: string)
    ensures Copied(text).Text() == text
  {
  }

  lemma RepairUnmodelled(s: string, i: nat, line: nat, b: string, repairs: seq<EscapeRepair>, end: nat)
    requires i < |s| && RepairProgress(CSharp, s, i, line, b, repairs)
    requires UnmodelledLen(s[i..]) == Some(end - i) && i <= end
    ensures end <= |s| && RepairProgress(CSharp, s, end, line + Newlines(s[i..end]), b + s[i..end], repairs)
  {
    hide RepairProgress, NextToken, Newlines, UnmodelledLen, TokenIs;
    UnmodelledAt(s, i, end);
    RepairCopies(CSharp, s, i, line, b, repairs, Copied(s[i..end]), end - i, Newlines(s[i..end]));
  }

  lemma RepairLineComment(lang: Language, s: string, i: nat, line: nat, b: string, repairs: seq<EscapeRepair>)
    requires OrdinaryHere(lang, s, i) && RepairProgress(lang, s, i, line, b, repairs)
    requires i + 1 < |s| && s[i] == '/' && s[i + 1] == '/'
    ensures var j := Index(s[i..], "\n");
            if j < 0 then !Complete(Lex(lang, s))
            else 0 < j && i + j <= |s| && RepairProgress(lang, s, i + j, line, b + s[i..i + j], repairs)
  {
    hide RepairProgress, NextToken, OrdinaryToken, Complete, Newlines, Token.Text, Index, OccursAt, UnmodelledLen;
    OrdinaryAt(lang, s, i);
    LineCommentAt(s, i);
    var j := Index(s[i..], "\n");
    if j < 0 {
      RepairStep(lang, s, i, line, b, repairs);
    } else {
      CopiedText(s[i..i + j]);
      RepairCopies(lang, s, i, line, b, repairs, Copied(s[i..i + j]), j, 0);
    }
  }

  lemma RepairBlockComment(lang: Language, s: string, i: nat, line: nat, b: string, repairs: seq<EscapeRepair>)
    requires OrdinaryHere(lang, s, i) && RepairProgress(lang, s, i, line, b, repairs)
    requires i + 1 < |s| && s[i] == '/' && s[i + 1] == '*'
    ensures var j := Index(s[i + 2..], "*/");
            if j < 0 then !Complete(Lex(lang, s))
            else
              var end := i + 2 + j + 2;
              end <= |s| && RepairProgress(lang, s, end, line + Newlines(s[i..end]), b + s[i..end], repairs)
  {
    hide RepairProgress, NextToken, OrdinaryToken, Complete, Newlines, Token.Text, Index, OccursAt, UnmodelledLen;
    OrdinaryAt(lang, s, i);
    BlockCommentAt(s, i);
    var j := Index(s[i + 2..], "*/");
    if j < 0 {
      RepairStep(lang, s, i, line, b, repairs);
    } else {
      var end := i + 2 + j + 2;
      CopiedText(s[i..end]);
      RepairCopies(lang, s, i, line, b, repairs, Copied(s[i..end]), j + 4, Newlines(s[i..end]));
    }
  }

  lemma RepairQuoted(lang: Language, s: string, i: nat, line: nat, b: string, repairs: seq<EscapeRepair>)
    requires OrdinaryHere(lang, s, i) && RepairProgress(lang, s, i, line, b, repairs) && IsQuote(s[i])
    ensures var (body, closed) := ScanBody(s[i], s[i + 1..]);
            if !closed then !Complete(Lex(lang, s))
            else
              var end := i + |UnitsText(body)| + 2;
              && end <= |s|
              && RepairProgress(lang, s, end, line,
                   b + ([s[i]] + Written(lang, s[i], body) + [s[i]]), repairs + Reported(lang, s[i], body, line))
  {
    hide NextToken, OrdinaryToken, Complete, Newlines, ScanBody, UnitsText;
    hide RepairProgress, Token.Text, RepairToken, TokenRepairs, Written, Reported;
    OrdinaryAt(lang, s, i);
    LiteralAt(s, i);
    RepairStep(lang, s, i, line, b, repairs);
    var (body, closed) := ScanBody(s[i], s[i + 1..]);
    if closed {
      LiteralWritten(lang, s[i], body, line);
    }
  }

  lemma LiteralWritten(lang: Language, quote: char, body: seq<Unit>, line: nat)
    ensures RepairToken(lang, Literal(quote, body)).Text() == [quote] + Written(lang, quote, body) + [quote]
    ensures TokenRepairs(lang, Literal(quote, body), line) == Reported(lang, quote, body, line)
  {
  }

  lemma RepairCode(lang: Language, s: string, i: nat, line: nat, b: string, repairs: seq<EscapeRepair>)
    requires OrdinaryHere(lang, s, i) && RepairProgress(lang, s, i, line, b, repairs) && !IsQuote(s[i])
    requires s[i] == '/' && i + 1 < |s| ==> s[i + 1] != '/' && s[i + 1] != '*'
    ensures RepairProgress(lang, s, i + 1, line + if s[i] == '\n' then 1 else 0, b + [s[i]], repairs)
  {
    hide RepairProgress, NextToken, OrdinaryToken, TokenIs;
    OrdinaryAt(lang, s, i);
    CodeAt(s, i);
    RepairCopies(lang, s, i, line, b, repairs, Code(s[i]), 1, if s[i] == '\n' then 1 else 0);
  }

  /** One round of the repair's loop; not ok when the scan has lost its place. */
  method RepairRound(lang: Language, s: string, i: nat, line: nat, b: string, repairs: seq<EscapeRepair>)
    returns (ok: bool, i': nat, line': nat, b': string, repairs': seq<EscapeRepair>)
    requires i < |s| && RepairProgress(lang, s, i, line, b, repairs)
    ensures !ok ==> !Complete(Lex(lang, s))
    ensures ok ==> i < i' <= |s| && RepairProgress(lang, s, i', line', b', repairs')
  {
    hide Complete, Lex, RepairProgress, ScanBody, Written, Reported, Newlines, Index, UnmodelledLen, UnitsText;
    var n := |s|;
    if lang.CSharp? {
      var end, raw := CSharpUnmodelledLiteralEnd(s, i);
      if raw {
        RepairUnmodelled(s, i, line, b, repairs, end);
        return true, end, line + Newlines(s[i..end]), b + s[i..end], repairs;
      }
    }
    var c := s[i];
    if c == '\n' {
      RepairCode(lang, s, i, line, b, repairs);
      return true, i + 1, line + 1, b + [c], repairs;
    } else if c == '/' && i + 1 < n && s[i + 1] == '/' {
      RepairLineComment(lang, s, i, line, b, repairs);
      var j := Index(s[i..], "\n");
      if j < 0 {
        return false, i, line, b, repairs;
      }
      return true, i + j, line, b + s[i..i + j], repairs;
    } else if c == '/' && i + 1 < n && s[i + 1] == '*' {
      RepairBlockComment(lang, s, i, line, b, repairs);
      var j := Index(s[i + 2..], "*/");
      if j < 0 {
        return false, i, line, b, repairs;
      }
      var end := i + 2 + j + 2;
      return true, end, line + Newlines(s[i..end]), b + s[i..end], repairs;
    } else if c == '"' || c == '\'' {
      RepairQuoted(lang, s, i, line, b, repairs);
      var closed, end, lit, found := RepairLiteral(lang, s, i, line);
      if !closed {
        return false, i, line, b, repairs;
      }
      return true, end, line, b + lit, repairs + found;
    }
    RepairCode(lang, s, i, line, b, repairs);
    return true, i + 1, line, b + [c], repairs;
  }

  lemma RepairStart(lang: Language, s: string)
    ensures RepairProgress(lang, s, 0, 1, "", [])
  {
    hide Lex, RepairTokens, TextOf, RepairsOf;
    assert s[0..] == s;
  }

  lemma RepairDone(lang: Language, s: string, line: nat, b: string, repairs: seq<EscapeRepair>)
    requires RepairProgress(lang, s, |s|, line, b, repairs)
    ensures Complete(Lex(lang, s)) && RepairedText(lang, s) == b && RepairsOf(lang, Lex(lang, s), 1) == repairs
  {
    assert s[|s|..] == "" && Lex(lang, "") == [];
    assert b + "" == b && repairs + [] == repairs;
  }

  /** RepairIllegalEscapes: double every backslash the compiler would reject inside a string. */
  method RepairIllegalEscapes(lang: Option<Language>, content: string) returns (out: string, repairs: seq<EscapeRepair>)
    ensures (out, repairs) == if lang.Some? then Repair(lang.value, content) else (content, [])
  {
    if IsBlank(content) {
      if lang.Some? {
        BlankLex(lang.value, content);
        CodeUnrepaired(lang.value, Lex(lang.value, content), 1);
      }
      return content, [];
    }
    if lang.None? {
      return content, [];
    }
    out, repairs := RepairScan(lang.value, content);
  }

  method RepairScan(lang: Language, s: string) returns (out: string, repairs: seq<EscapeRepair>)
    ensures (out, repairs) == Repair(lang, s)
  {
    hide Lex, Complete, RepairsOf, RepairedText, RepairProgress;
    var b: string := "";
    repairs := [];
    var i: nat := 0;
    var line: nat := 1;
    RepairStart(lang, s);
    while i < |s|
      invariant i <= |s| && RepairProgress(lang, s, i, line, b, repairs)
      decreases |s| - i
    {
      var ok;
      ok, i, line, b, repairs := RepairRound(lang, s, i, line, b, repairs);
      if !ok {
        return s, [];
      }
    }
    RepairDone(lang, s, line, b, repairs);
    if |repairs| == 0 {
      return s, [];
    }
    return b, repairs;
  }

  // ----- where the documented promise stops

  const REFUSED: string := "\"\\d\"'\\d'"

  lemma RefusedTokens()
    ensures Lex(Java, REFUSED) == [Literal('"', [Escape('d')]), Literal('\'', [Escape('d')])]
  {
    var t1, t2 := Literal('"', [Escape('d')]), Literal('\'', [Escape('d')]);
    var q := t2.Text() + "";
    RefusedText(t1, t2);
    NothingLexed(Java);
    JavaNext('"', q);
    JavaNext('\'', "");
    hide Lex, Token.Text, NextToken;
    LexCons(Java, t2, "");
    LexCons(Java, t1, q);
    assert [t2] + [] == [t2] && [t1] + [t2] == [t1, t2];
  }

  lemma JavaNext(quote: char, rest: string)
    requires IsQuote(quote)
    ensures var t := Literal(quote, [Escape('d')]);
            t.Text() + rest != "" && NextToken(Java, t.Text() + rest) == t
  {
    LiteralStable(quote, [Escape('d')], rest);
    hide OrdinaryToken, Token.Text;
  }

  lemma RefusedText(t1: Token, t2: Token)
    requires t1 == Literal('"', [Escape('d')]) && t2 == Literal('\'', [Escape('d')])
    ensures REFUSED == t1.Text() + (t2.Text() + "") && t2.Text() + "" != ""
  {
    assert UnitsText([Escape('d')]) == ['\\', 'd'];
    hide UnitsText;
  }

  lemma RefusedVerdict(t1: Token, t2: Token)
    requires t1 == Literal('"', [Escape('d')]) && t2 == Literal('\'', [Escape('d')])
    ensures FirstIllegal(Java, OnlyCharLiterals([t1] + [t2]), 1) == Rejected('d', 1)
  {
    OneLine('"', [Escape('d')]);
    assert ([t1] + [t2])[1..] == [t2] && [t2][1..] == [];
    assert OnlyCharLiterals([t2]) == [t2] + OnlyCharLiterals([]);
    hide Newlines, UnitsText;
    FirstIllegalNone(Java);
    FirstIllegalStep(Java, CharOnly(t1), [t2], 1);
    FirstIllegalStep(Java, t2, [], 1);
    assert FirstIllegalUnit(Java, [Escape('d')]) == Some('d');
  }

  lemma RefusedRepairs(t1: Token, t2: Token)
    requires t1 == Literal('"', [Escape('d')]) && t2 == Literal('\'', [Escape('d')])
    ensures RepairsOf(Java, [t1] + [t2], 1) == [EscapeRepair(1, "\\d")]
  {
    hide Newlines;
    RepairsOfStep(Java, t1, [t2], 1);
    RepairsOfStep(Java, t2, [], 1 + Newlines(t1.Text()));
    assert [t2] + [] == [t2];
    assert BodyRepairs(Java, [Escape('d')], 1) == [EscapeRepair(1, "\\d")];
  }

  /** Char literals are left alone, so a file can be repaired and still be refused: `"\d"'\d'`. */
  lemma RepairedFileStillRefused()
    ensures Repair(Java, REFUSED).1 == [EscapeRepair(1, "\\d")]
    ensures Gate(Java, Repair(Java, REFUSED).0) == Rejected('d', 1)
  {
    var t1, t2 := Literal('"', [Escape('d')]), Literal('\'', [Escape('d')]);
    RefusedTokens();
    assert [t1, t2] == [t1] + [t2];
    assert Complete([t1] + [t2]);
    RefusedVerdict(t1, t2);
    RefusedRepairs(t1, t2);
    hide RepairsOf, FirstIllegal, OnlyCharLiterals, Lex, Complete;
    GateOnRepairedFile(Java, REFUSED);
  }

  // ----- and a file with a verbatim literal

  const VERBATIM: string := "@\"\\d\""
  const MIXED: string := VERBATIM + ";" + "\"\\d\""

  lemma VerbatimLength(rest: string)
    ensures UnmodelledLen(VERBATIM + (";" + rest)) == Some(5)
  {
    var s := VERBATIM + (";" + rest);
    assert s[0] == '@' && s[1] == '"' && s[2] == '\\' && s[3] == 'd' && s[4] == '"' && s[5] == ';';
    assert s[1..][0] == '"' && s[1..][1] == '\\';
    var q := s[1..][1..];
    assert q[0] == '\\' && q[1..][0] == 'd' && q[1..][1..][0] == '"' && q[1..][1..][1] == ';';
    assert QuoteRun(s[1..][1..]) == 0;
    assert QuotedCloseLen(q[1..][1..], true) == 1;
    assert QuotedCloseLen(q[1..], true) == 2;
    assert QuotedCloseLen(q, true) == 3;
  }

  lemma LexCons(lang: Language, t: Token, rest: string)
    requires t.Text() + rest != "" && NextToken(lang, t.Text() + rest) == t
    ensures Lex(lang, t.Text() + rest) == [t] + Lex(lang, rest)
  {
    hide NextToken, Token.Text;
    assert (t.Text() + rest)[|t.Text()|..] == rest;
  }

  lemma SampleText(t: Token)
    requires t == Literal('"', [Escape('d')])
    ensures t.Text() == "\"\\d\""
  {
    assert UnitsText([Escape('d')]) == ['\\', 'd'];
  }

  lemma QuotedNext(t: Token)
    requires t == Literal('"', [Escape('d')])
    ensures t.Text() + "" != "" && NextToken(CSharp, t.Text() + "") == t
  {
    SampleText(t);
    LiteralStable('"', [Escape('d')], "");
    var q := t.Text() + "";
    assert q[0] == '"' && q[1] == '\\';
    assert UnmodelledLen(q).None?;
  }

  lemma SemicolonNext(rest: string)
    ensures Code(';').Text() + rest != "" && NextToken(CSharp, Code(';').Text() + rest) == Code(';')
  {
    var s := Code(';').Text() + rest;
    assert s[0] == ';';
    assert UnmodelledLen(s).None?;
  }

  lemma VerbatimNext(rest: string)
    ensures var s := Copied(VERBATIM).Text() + (Code(';').Text() + rest); s != "" && NextToken(CSharp, s) == Copied(VERBATIM)
  {
    VerbatimLength(rest);
    hide UnmodelledLen;
    assert (VERBATIM + (";" + rest))[..5] == VERBATIM;
  }

  lemma MixedTokens()
    ensures Lex(CSharp, MIXED) == [Copied(VERBATIM)] + ([Code(';')] + [Literal('"', [Escape('d')])])
  {
    var t := Literal('"', [Escape('d')]);
    var q := t.Text() + "";
    QuotedNext(t);
    SemicolonNext(q);
    VerbatimNext(q);
    MixedText(t);
    NothingLexed(CSharp);
    hide NextToken, Lex, Token.Text;
    LexCons(CSharp, t, "");
    LexCons(CSharp, Code(';'), q);
    LexCons(CSharp, Copied(VERBATIM), Code(';').Text() + q);
    assert [t] + [] == [t];
  }

  lemma NothingLexed(lang: Language)
    ensures Lex(lang, "") == []
  {
  }

  lemma MixedText(t: Token)
    requires t == Literal('"', [Escape('d')])
    ensures MIXED == Copied(VERBATIM).Text() + (Code(';').Text() + (t.Text() + ""))
  {
    SampleText(t);
    hide UnitsText;
  }

  /** A C# file with a verbatim literal is not returned unchanged: `@"\d";"\d"` is repaired. */
  lemma VerbatimFileIsRepaired()
    ensures Copied(VERBATIM) in Lex(CSharp, MIXED) && Repair(CSharp, MIXED).0 != MIXED
  {
    hide Lex, HasIllegalString, Complete, Repair;
    MixedTokens();
    var ts := [Copied(VERBATIM)] + ([Code(';')] + [Literal('"', [Escape('d')])]);
    assert ts[0] == Copied(VERBATIM);
    MixedIsIllegal(ts);
    ChangedIff(CSharp, MIXED);
  }

  lemma MixedIsIllegal(ts: seq<Token>)
    requires ts == [Copied(VERBATIM)] + ([Code(';')] + [Literal('"', [Escape('d')])])
    ensures HasIllegalString(CSharp, ts) && Complete(ts)
  {
    assert ts[2] == Literal('"', [Escape('d')]);
    assert IllegalUnit(CSharp, ts[2].body[0]);
  }
}
