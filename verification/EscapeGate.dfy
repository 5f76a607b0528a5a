/** The illegal-escape gate and the repair meant to satisfy it (fix_quality_gate.go), as functions of
    the token stream, and what holds between the two. */
module EscapeGate {
  import opened Text
  import opened Literals
  import opened EscapeLexer

  // ----- the gate

  datatype Verdict = Accepted | Rejected(escape: char, line: nat)

  predicate IllegalUnit(lang: Language, u: Unit) { u.Escape? && !IsEscapeLead(lang, u.c) }

  function FirstIllegalUnit(lang: Language, us: seq<Unit>): Option<char> {
    if us == [] then None
    else if IllegalUnit(lang, us[0]) then Some(us[0].c)
    else FirstIllegalUnit(lang, us[1..])
  }

  /** The first illegal escape of any literal, closed or not, with its line. */
  function FirstIllegal(lang: Language, ts: seq<Token>, line: nat): Verdict {
    if ts == [] then Accepted
    else match FirstIllegalUnit(lang, ts[0].Body())
      case Some(c) => Rejected(c, line)
      case None => FirstIllegal(lang, ts[1..], line + Newlines(ts[0].Text()))
  }

  function Gate(lang: Language, s: string): Verdict {
    FirstIllegal(lang, Lex(lang, s), 1)
  }

  // ----- the repair

  datatype EscapeRepair = EscapeRepair(line: nat, escape: string)

  function RepairUnit(lang: Language, u: Unit): seq<Unit> {
    if IllegalUnit(lang, u) then [Escape('\\'), Raw(u.c)] else [u]
  }

  function RepairBody(lang: Language, us: seq<Unit>): seq<Unit> {
    if us == [] then [] else RepairUnit(lang, us[0]) + RepairBody(lang, us[1..])
  }

  predicate Repairable(t: Token) { t.Literal? && t.quote == '"' }

  function RepairToken(lang: Language, t: Token): Token {
    if Repairable(t) then Literal(t.quote, RepairBody(lang, t.body)) else t
  }

  function RepairTokens(lang: Language, ts: seq<Token>): (rs: seq<Token>)
    ensures |rs| == |ts|
    ensures forall k :: 0 <= k < |ts| ==> rs[k] == RepairToken(lang, ts[k])
  {
    seq(|ts|, k requires 0 <= k < |ts| => RepairToken(lang, ts[k]))
  }

  function BodyRepairs(lang: Language, us: seq<Unit>, line: nat): seq<EscapeRepair> {
    if us == [] then []
    else (if IllegalUnit(lang, us[0]) then [EscapeRepair(line, ['\\', us[0].c])] else [])
         + BodyRepairs(lang, us[1..], line)
  }

  function TokenRepairs(lang: Language, t: Token, line: nat): seq<EscapeRepair> {
    if Repairable(t) then BodyRepairs(lang, t.body, line) else []
  }

  function RepairsOf(lang: Language, ts: seq<Token>, line: nat): seq<EscapeRepair> {
    if ts == [] then []
    else TokenRepairs(lang, ts[0], line) + RepairsOf(lang, ts[1..], line + Newlines(ts[0].Text()))
  }

  function RepairedText(lang: Language, s: string): string {
    TextOf(RepairTokens(lang, Lex(lang, s)))
  }

  /** All or nothing: a file the scan loses its place in is returned as it came. */
  function Repair(lang: Language, s: string): (string, seq<EscapeRepair>) {
    var ts := Lex(lang, s);
    var repairs := RepairsOf(lang, ts, 1);
    if Complete(ts) && repairs != [] then (RepairedText(lang, s), repairs) else (s, [])
  }

  // ----- the repaired text lexes to the repaired tokens

  lemma RepairTokensCons(lang: Language, ts: seq<Token>)
    requires ts != []
    ensures RepairTokens(lang, ts) == [RepairToken(lang, ts[0])] + RepairTokens(lang, ts[1..])
  {
  }

  lemma {:induction false} RepairBodyWellFormed(lang: Language, us: seq<Unit>)
    requires WellFormed(us, '"')
    ensures WellFormed(RepairBody(lang, us), '"')
  {
    if us != [] {
      RepairBodyWellFormed(lang, us[1..]);
    }
  }

  /** One byte of lookahead sees no difference between a file and its repair. */
  lemma RepairedHead(lang: Language, s: string)
    requires Complete(Lex(lang, s))
    ensures SameHead(s, RepairedText(lang, s))
  {
    if s != "" {
      RepairTokensCons(lang, Lex(lang, s));
    }
  }

  /** Two bytes of lookahead see none either when the first is no quote. */
  lemma RepairedSecond(lang: Language, s: string)
    requires Complete(Lex(lang, s)) && s != "" && !IsQuote(s[0])
    ensures var r := RepairedText(lang, s);
            r != "" && r[0] == s[0] && SameHead(s[1..], r[1..])
  {
    var ts := Lex(lang, s);
    var t := NextToken(lang, s);
    var rest := s[|t.Text()|..];
    RepairTokensCons(lang, ts);
    assert ts[0] == t && ts[1..] == Lex(lang, rest);
    assert RepairToken(lang, t) == t;
    RepairedHead(lang, rest);
    var r := TextOf(RepairTokens(lang, ts));
    assert r == t.Text() + TextOf(RepairTokens(lang, ts[1..]));
    assert s == t.Text() + rest;
  }

  /** A prefix that leads to no quote in `s` leads to none in a text that looks alike so far. */
  lemma PrefixStaysBare(s: string, r: string)
    requires s != "" && r != "" && s[0] == r[0] && IsPrefixByte(s[0])
    requires SameHead(s[1..], r[1..])
    requires |s| > 1 && IsPrefixByte(s[1]) ==> SameHead(s[2..], r[2..])
    requires StringLiteralLen(s, true).None?
    ensures StringLiteralLen(r, true).None?
  {
    assert |s| > 1 ==> s[1..][0] == s[1];
    assert |r| > 1 ==> r[1..][0] == r[1];
    assert |s| > 2 ==> s[2..][0] == s[2];
    assert |r| > 2 ==> r[2..][0] == r[2];
    assert PrefixLen(r) == PrefixLen(s);
  }

  /** A repaired literal does not start with three quotes unless it did before. */
  lemma LiteralStaysModelled(lang: Language, us: seq<Unit>, rest: string, r': string)
    requires WellFormed(us, '"') && SameHead(rest, r')
    requires UnmodelledLen(Literal('"', us).Text() + rest).None?
    ensures UnmodelledLen(Literal('"', RepairBody(lang, us)).Text() + r').None?
  {
    var s := Literal('"', us).Text() + rest;
    var r := Literal('"', RepairBody(lang, us)).Text() + r';
    if us == [] {
      assert s == "\"\"" + rest && r == "\"\"" + r';
      assert |s| > 2 ==> s[2] == rest[0];
    } else {
      RepairBodyWellFormed(lang, us);
      var b := RepairBody(lang, us);
      assert r[1] == UnitText(b[0])[0];
    }
  }

  /** One step of the lexer, on the file and on its repair; `r'` is the repair of what remains. */
  lemma LexStep(lang: Language, s: string) returns (r': string)
    requires s != "" && Complete(Lex(lang, s))
    ensures var t := NextToken(lang, s);
            var rest := s[|t.Text()|..];
            && s == t.Text() + rest
            && Complete(Lex(lang, rest)) && !t.LostSync()
            && r' == RepairedText(lang, rest)
            && RepairTokens(lang, Lex(lang, s)) == [RepairToken(lang, t)] + RepairTokens(lang, Lex(lang, rest))
            && RepairedText(lang, s) == RepairToken(lang, t).Text() + r'
            && SameHead(rest, r')
  {
    var ts := Lex(lang, s);
    var t := NextToken(lang, s);
    var rest := s[|t.Text()|..];
    RepairTokensCons(lang, ts);
    assert ts[0] == t && ts[1..] == Lex(lang, rest);
    r' := TextOf(RepairTokens(lang, ts[1..]));
    RepairedHead(lang, rest);
  }

  lemma CodeStep(s: string)
    requires s != "" && Complete(Lex(CSharp, s))
    requires NextToken(CSharp, s) == Code(s[0])
    ensures Complete(Lex(CSharp, s[1..]))
    ensures RepairedText(CSharp, s) == [s[0]] + RepairedText(CSharp, s[1..])
  {
    var r' := LexStep(CSharp, s);
    assert |Code(s[0]).Text()| == 1;
  }

  lemma BarePrefixIsCode(s: string)
    requires s != "" && IsPrefixByte(s[0]) && StringLiteralLen(s, true).None?
    ensures NextToken(CSharp, s) == Code(s[0])
  {
    assert UnmodelledLen(s).None?;
    assert OrdinaryToken(s) == Code(s[0]);
  }

  /** As far as a literal's prefix can reach, a file and its repair look the same. */
  lemma PrefixLookahead(s: string, r: string, r': string)
    requires s != "" && Complete(Lex(CSharp, s[1..]))
    requires r' == RepairedText(CSharp, s[1..]) && r == [s[0]] + r'
    ensures SameHead(s[1..], r[1..])
    ensures |s| > 1 && IsPrefixByte(s[1]) ==> SameHead(s[2..], r[2..])
  {
    assert r[1..] == r';
    RepairedHead(CSharp, s[1..]);
    if |s| > 1 && IsPrefixByte(s[1]) {
      assert s[1..][0] == s[1];
      RepairedSecond(CSharp, s[1..]);
      assert s[2..] == s[1..][1..] && r[2..] == r'[1..];
    }
  }

  lemma PrefixAfterRepair(s: string)
    requires s != "" && Complete(Lex(CSharp, s))
    requires IsPrefixByte(s[0]) && StringLiteralLen(s, true).None?
    ensures var r := RepairedText(CSharp, s);
            r != "" && r[0] == s[0] && StringLiteralLen(r, true).None?
  {
    BarePrefixIsCode(s);
    CodeStep(s);
    PrefixLookahead(s, RepairedText(CSharp, s), RepairedText(CSharp, s[1..]));
    PrefixStaysBare(s, RepairedText(CSharp, s));
  }

  lemma PlainHeadStaysPlain(s: string)
    requires s != "" && Complete(Lex(CSharp, s)) && s[0] != '"'
    ensures var r := RepairedText(CSharp, s);
            && r != "" && r[0] == s[0]
            && (s[0] == '$' ==> (StartsWith(r, '$', '@') <==> StartsWith(s, '$', '@')))
  {
    RepairedHead(CSharp, s);
    if s[0] == '$' {
      RepairedSecond(CSharp, s);
      var r := RepairedText(CSharp, s);
      assert |s| > 1 ==> s[1] == s[1..][0];
      assert |r| > 1 ==> r[1] == r[1..][0];
    }
  }

  /** Doubling backslashes further on never makes or unmakes an unmodelled C# literal here. */
  lemma UnmodelledAfterRepair(s: string)
    requires s != "" && Complete(Lex(CSharp, s)) && UnmodelledLen(s).None?
    ensures var r := RepairedText(CSharp, s);
            r != "" && UnmodelledLen(r).None?
  {
    var t := NextToken(CSharp, s);
    if s[0] == '"' {
      var r' := LexStep(CSharp, s);
      assert t == Literal('"', t.body);
      LiteralStaysModelled(CSharp, t.body, s[|t.Text()|..], r');
    } else if s[0] == '@' || StartsWith(s, '$', '@') {
      PrefixAfterRepair(s);
      PlainHeadStaysPlain(s);
    } else {
      PlainHeadStaysPlain(s);
    }
  }

  lemma LiteralStable(quote: char, us: seq<Unit>, r': string)
    requires IsQuote(quote) && WellFormed(us, quote)
    ensures var r := Literal(quote, us).Text() + r';
            r != "" && OrdinaryToken(r) == Literal(quote, us)
  {
    var r := Literal(quote, us).Text() + r';
    hide UnitsText, WellFormed, ScanBody;
    assert r[0] == quote && r[1..] == UnitsText(us) + [quote] + r';
    ScanBodyRoundTrip(quote, us, r');
    assert ScanBody(r[0], r[1..]) == (us, true);
  }

  /** The token at the head of a file is read from the repaired file as its own repair. */
  lemma NextTokenAfterRepair(lang: Language, s: string)
    requires s != "" && Complete(Lex(lang, s))
    ensures var r := RepairedText(lang, s);
            r != "" && NextToken(lang, r) == RepairToken(lang, NextToken(lang, s))
  {
    var r := RepairedText(lang, s);
    var t := NextToken(lang, s);
    var r' := LexStep(lang, s);
    var rest := s[|t.Text()|..];
    if lang.CSharp? && UnmodelledLen(s).Some? {
      UnmodelledStable(s, r');
    } else {
      if lang.CSharp? {
        UnmodelledAfterRepair(s);
      }
      OrdinaryTokenAfterRepair(lang, s, rest, r');
    }
  }

  lemma UnmodelledStable(s: string, tail: string)
    requires s != "" && UnmodelledLen(s).Some? && SameHead(s[UnmodelledLen(s).value..], tail)
    ensures var r := s[..UnmodelledLen(s).value] + tail;
            r != "" && UnmodelledLen(r) == UnmodelledLen(s) && r[..UnmodelledLen(s).value] == s[..UnmodelledLen(s).value]
  {
    var n := UnmodelledLen(s).value;
    var r := s[..n] + tail;
    StringLiteralStable(s, true, tail);
    assert r[..n] == s[..n];
    if s[0] == '"' {
      assert n >= 3;
    } else if s[0] == '$' {
      assert n >= 2;
    }
  }

  lemma OrdinaryTokenAfterRepair(lang: Language, s: string, rest: string, r': string)
    requires s != "" && !OrdinaryToken(s).LostSync() && s == OrdinaryToken(s).Text() + rest
    requires SameHead(rest, r')
    ensures var r := RepairToken(lang, OrdinaryToken(s)).Text() + r';
            r != "" && OrdinaryToken(r) == RepairToken(lang, OrdinaryToken(s))
  {
    var t := OrdinaryToken(s);
    var r := RepairToken(lang, t).Text() + r';
    if StartsWith(s, '/', '/') {
      var j := LineCommentLen(s).value;
      assert r[..j + 1] == s[..j] + [r'[0]] == s[..j] + [rest[0]] == s[..j + 1];
      LineCommentStable(s, r);
    } else if StartsWith(s, '/', '*') {
      assert s[..BlockCommentLen(s).value] == t.Text();
      BlockCommentStable(s, r);
    } else if IsQuote(s[0]) {
      if s[0] == '"' {
        RepairBodyWellFormed(lang, t.body);
      }
      LiteralStable(s[0], RepairToken(lang, t).body, r');
    } else {
      assert r == [s[0]] + r';
    }
  }

  /** The gate's scan of the repaired text stays in step with the repair's scan of the original. */
  lemma {:induction false} LexAfterRepair(lang: Language, s: string)
    requires Complete(Lex(lang, s))
    ensures Lex(lang, RepairedText(lang, s)) == RepairTokens(lang, Lex(lang, s))
    decreases |s|
  {
    if s != "" {
      var t := NextToken(lang, s);
      var r := RepairedText(lang, s);
      var r' := LexStep(lang, s);
      NextTokenAfterRepair(lang, s);
      LexAfterRepair(lang, s[|t.Text()|..]);
      assert r[|RepairToken(lang, t).Text()|..] == r';
    }
  }
}
