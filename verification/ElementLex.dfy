/** What the escape gate and the escape repair make of a file, told from its elements: which literals
    are judged and repaired, which are copied, and with what answer. */
module ElementLex {
  import opened Text
  import opened Literals
  import opened EscapeLexer
  import opened EscapeGate
  import opened SourceElements
  import EscapeLaws
  import EscapeScan
  import CSharpStripper

  /** Java has no verbatim strings, and its text blocks are not told apart. */
  predicate InLanguage(lang: Language, e: Element) {
    !e.Backtick? && (lang.Java? ==> !e.Verbatim? && !e.RawStr?)
  }

  predicate Source(lang: Language, es: seq<Element>, tail: string) {
    Separated(es, tail) && forall k :: 0 <= k < |es| ==> InLanguage(lang, es[k])
  }

  function Dollars(dollar: bool): seq<Token> { if dollar then [Code('$')] else [] }

  /** The tokens an element is read as. */
  function TokensOf(e: Element): seq<Token> {
    match e
    case Byte(c) => [Code(c)]
    case Line(text) => [Copied("//" + text), Code('\n')]
    case Quoted(dollar, body) => Dollars(dollar) + [Literal('"', body)]
    case Char(body) => [Literal('\'', body)]
    case RawStr(dollar, n, text) => Dollars(dollar) + [Copied(Quotes(n) + text + Quotes(n))]
    case _ => [Copied(ElementText(e))]
  }

  function AllTokens(es: seq<Element>): seq<Token> {
    if es == [] then [] else TokensOf(es[0]) + AllTokens(es[1..])
  }

  // ----- one element at the head of any text

  lemma OneToken(lang: Language, t: Token, text: string, rest: string)
    requires text != "" && t.Text() == text && NextToken(lang, text + rest) == t
    ensures Lex(lang, text + rest) == [t] + Lex(lang, rest)
  {
    hide NextToken, Lex, Token.Text;
    EscapeScan.LexCons(lang, t, rest);
  }

  lemma ByteNext(lang: Language, c: char, rest: string)
    requires !IsQuote(c) && OnlyAByte(c, rest)
    ensures NextToken(lang, [c] + rest) == Code(c)
  {
    var s := [c] + rest;
    assert |s| > 1 ==> s[1] == rest[0];
    if IsPrefixByte(c) {
      NoPrefixedLiteral(c, rest);
    }
    hide StringLiteralLen;
    assert UnmodelledLen(s).None?;
    hide UnmodelledLen;
  }

  /** A dollar sign before an opening quote is code. */
  lemma DollarNext(lang: Language, q: string)
    requires StartsWithByte(q, '"')
    ensures NextToken(lang, "$" + q) == Code('$')
  {
    var s := "$" + q;
    assert s[0] == '$' && s[1] == '"';
    assert UnmodelledLen(s).None?;
    hide UnmodelledLen;
  }

  lemma DollarReads(lang: Language, dollar: bool, q: string)
    requires StartsWithByte(q, '"')
    ensures Lex(lang, Dollar(dollar) + q) == Dollars(dollar) + Lex(lang, q)
  {
    hide Lex, NextToken;
    if dollar {
      DollarNext(lang, q);
      OneToken(lang, Code('$'), "$", q);
    } else {
      assert "" + q == q && [] + Lex(lang, q) == Lex(lang, q);
    }
  }

  lemma LineNext(lang: Language, text: string, rest: string)
    requires '\n' !in text
    ensures NextToken(lang, "//" + text + ("\n" + rest)) == Copied("//" + text)
  {
    var s := "//" + text + ("\n" + rest);
    assert s == "//" + text + "\n" + rest;
    LineReads(text, rest);
    hide LineCommentLen;
    assert s[0] == '/' && UnmodelledLen(s).None?;
    hide UnmodelledLen;
    assert s[..2 + |text|] == "//" + text;
  }

  lemma LineLexes(lang: Language, text: string, rest: string)
    requires '\n' !in text
    ensures Lex(lang, "//" + text + "\n" + rest) == [Copied("//" + text), Code('\n')] + Lex(lang, rest)
  {
    hide Lex, NextToken;
    LineNext(lang, text, rest);
    ByteNext(lang, '\n', rest);
    OneToken(lang, Code('\n'), "\n", rest);
    OneToken(lang, Copied("//" + text), "//" + text, "\n" + rest);
    assert "//" + text + "\n" + rest == "//" + text + ("\n" + rest);
    assert [Copied("//" + text)] + ([Code('\n')] + Lex(lang, rest)) == [Copied("//" + text), Code('\n')] + Lex(lang, rest);
  }

  lemma CommentNext(lang: Language, text: string, rest: string)
    requires Separate(text, "*/")
    ensures var t := "/*" + text + "*/";
            NextToken(lang, t + rest) == Copied(t)
  {
    var t := "/*" + text + "*/";
    var s := t + rest;
    CommentReads(text, rest);
    hide BlockCommentLen, Separate;
    assert s[0] == '/' && UnmodelledLen(s).None?;
    hide UnmodelledLen;
    assert s[..|t|] == t;
  }

  /** A string or a char literal whose body is well formed is one token, whatever follows, unless the
      text starts with three quotes. */
  lemma LiteralNext(lang: Language, quote: char, body: seq<Unit>, rest: string)
    requires IsQuote(quote) && WellFormed(body, quote)
    requires quote == '"' && body == [] ==> !StartsWithByte(rest, '"')
    ensures NextToken(lang, Between(quote, body) + rest) == Literal(quote, body)
  {
    var s := Between(quote, body) + rest;
    LiteralStable(quote, body, rest);
    assert Literal(quote, body).Text() == Between(quote, body);
    if quote == '"' {
      ShortRunOf(body, rest);
      ThreeIsARun(s);
    }
    hide OrdinaryToken, UnitsText, WellFormed, Between;
    assert s[0] == quote;
    assert UnmodelledLen(s).None?;
  }

  /** A verbatim literal is copied as it is, whatever follows it but a quote. */
  lemma VerbatimIsCopied(prefix: string, text: string, rest: string)
    requires prefix == "@" || prefix == "$@" || prefix == "@$"
    requires !StartsWithByte(rest, '"')
    ensures var t := prefix + "\"" + Doubled(text) + "\"";
            NextToken(CSharp, t + rest) == Copied(t)
  {
    var t := prefix + "\"" + Doubled(text) + "\"";
    var s := t + rest;
    VerbatimLength(prefix, text, rest);
    hide StringLiteralLen, Doubled;
    assert s[0] == prefix[0] && (|prefix| == 2 ==> s[1] == prefix[1]);
    CopiedWhole(t, rest);
  }

  /** A literal of one of the unmodelled forms is copied up to where the literal scan ends it. */
  lemma CopiedWhole(t: string, rest: string)
    requires t != "" && StringLiteralLen(t + rest, true) == Some(|t|)
    requires t[0] == '@' || StartsWith(t + rest, '$', '@') || StartsRaw(t + rest)
    ensures NextToken(CSharp, t + rest) == Copied(t)
  {
    var s := t + rest;
    assert s[0] == t[0];
    hide StringLiteralLen, StartsRaw, StartsWith;
    assert UnmodelledLen(s) == Some(|t|);
    hide UnmodelledLen;
    assert s[..|t|] == t;
  }

  /** So is a raw literal: three quotes or more, a text without that many in a row that neither starts
      nor ends with one, and the quotes again. */
  lemma RawIsCopied(n: nat, text: string, rest: string)
    requires RawText(n, text) && !StartsWithByte(rest, '"')
    ensures var t := Quotes(n) + text + Quotes(n);
            NextToken(CSharp, t + rest) == Copied(t)
  {
    var t := Quotes(n) + text + Quotes(n);
    var s := t + rest;
    RawLength(false, n, text, rest);
    assert Dollar(false) + Quotes(n) + text + Quotes(n) == t;
    hide StringLiteralLen, RawText;
    assert s[0] == '"' && s[1] == '"' && s[2] == '"';
    hide Quotes;
    CopiedWhole(t, rest);
  }

  /** A literal with a dollar sign before it or not. */
  lemma DollarThen(lang: Language, dollar: bool, t: Token, text: string, rest: string)
    requires StartsWithByte(text, '"') && t.Text() == text && NextToken(lang, text + rest) == t
    ensures Lex(lang, Dollar(dollar) + text + rest) == Dollars(dollar) + [t] + Lex(lang, rest)
  {
    hide Lex, NextToken, Token.Text, Dollar, Dollars;
    OneToken(lang, t, text, rest);
    DollarReads(lang, dollar, text + rest);
    Assoc(Dollar(dollar), text, rest);
    Assoc(Dollars(dollar), [t], Lex(lang, rest));
  }

  lemma QuotedLexes(lang: Language, dollar: bool, body: seq<Unit>, rest: string)
    requires WellFormed(body, '"') && (body == [] ==> !StartsWithByte(rest, '"'))
    ensures Lex(lang, Dollar(dollar) + Between('"', body) + rest) == Dollars(dollar) + [Literal('"', body)] + Lex(lang, rest)
  {
    hide Lex, NextToken, WellFormed, UnitsText, Dollar, Dollars;
    LiteralNext(lang, '"', body, rest);
    DollarThen(lang, dollar, Literal('"', body), Between('"', body), rest);
  }

  lemma CharLexes(lang: Language, body: seq<Unit>, rest: string)
    requires WellFormed(body, '\'')
    ensures Lex(lang, Between('\'', body) + rest) == [Literal('\'', body)] + Lex(lang, rest)
  {
    hide Lex, NextToken, WellFormed, UnitsText;
    LiteralNext(lang, '\'', body, rest);
    OneToken(lang, Literal('\'', body), Between('\'', body), rest);
  }

  lemma RawLexes(dollar: bool, n: nat, text: string, rest: string)
    requires RawText(n, text) && !StartsWithByte(rest, '"')
    ensures Lex(CSharp, Dollar(dollar) + Quotes(n) + text + Quotes(n) + rest) ==
            Dollars(dollar) + [Copied(Quotes(n) + text + Quotes(n))] + Lex(CSharp, rest)
  {
    var t := Quotes(n) + text + Quotes(n);
    assert t[0] == '"';
    RawIsCopied(n, text, rest);
    hide Lex, NextToken, RawText, Quotes, Dollar, Dollars;
    DollarThen(CSharp, dollar, Copied(t), t, rest);
    DollarRaw(dollar, Quotes(n), text);
  }

  lemma ElementLexes(lang: Language, e: Element, rest: string)
    requires IsElement(e) && EndsBefore(e, rest) && InLanguage(lang, e)
    ensures Lex(lang, ElementText(e) + rest) == TokensOf(e) + Lex(lang, rest)
  {
    hide Lex, NextToken, WellFormed, Doubled, Quotes, RawText, Separate, Between, OnlyAByte;
    match e
    case Byte(c) =>
      ByteNext(lang, c, rest);
      OneToken(lang, Code(c), [c], rest);
    case Line(text) => LineLexes(lang, text, rest);
    case Comment(text) =>
      CommentNext(lang, text, rest);
      OneToken(lang, Copied(ElementText(e)), ElementText(e), rest);
    case Quoted(dollar, body) => QuotedLexes(lang, dollar, body, rest);
    case Char(body) => CharLexes(lang, body, rest);
    case Verbatim(prefix, text) =>
      VerbatimIsCopied(prefix, text, rest);
      OneToken(lang, Copied(ElementText(e)), ElementText(e), rest);
    case RawStr(dollar, n, text) => RawLexes(dollar, n, text, rest);
  }

  // ----- whole files

  lemma SourceTail(lang: Language, es: seq<Element>, tail: string)
    requires Source(lang, es, tail) && es != []
    ensures Source(lang, es[1..], tail) && IsElement(es[0]) && EndsBefore(es[0], Written(es[1..]) + tail) && InLanguage(lang, es[0])
  {
  }

  /** A file is read as the tokens of its elements, and then what follows them is. */
  lemma {:induction false} FileLexes(lang: Language, es: seq<Element>, tail: string)
    requires Source(lang, es, tail)
    ensures Lex(lang, Written(es) + tail) == AllTokens(es) + Lex(lang, tail)
  {
    hide Source, Lex, ElementText, TokensOf, IsElement, EndsBefore;
    if es == [] {
      assert Written(es) + tail == tail && AllTokens(es) + Lex(lang, tail) == Lex(lang, tail);
    } else {
      SourceTail(lang, es, tail);
      FileLexes(lang, es[1..], tail);
      ElementLexes(lang, es[0], Written(es[1..]) + tail);
      WrittenCons(es, tail);
      Assoc(TokensOf(es[0]), AllTokens(es[1..]), Lex(lang, tail));
    }
  }

  lemma WholeFileLexes(lang: Language, es: seq<Element>)
    requires Source(lang, es, "")
    ensures Lex(lang, Written(es)) == AllTokens(es)
  {
    hide Lex, Source, AllTokens;
    FileLexes(lang, es, "");
    NoMore(Written(es));
    EscapeScan.NothingLexed(lang);
    assert AllTokens(es) + [] == AllTokens(es);
  }

  // ----- the gate

  /** What may follow a backslash. */
  function Leads(lang: Language): string {
    match lang
    case Java => "bstnfr\"'\\01234567u"
    case CSharp => "'\"\\0abfnrtvuUx"
  }

  predicate Bad(lang: Language, u: Unit) { u.Escape? && u.c !in Leads(lang) }

  lemma BadIsIllegal(lang: Language, u: Unit)
    ensures Bad(lang, u) <==> IllegalUnit(lang, u)
  {
    var c := u.c;
    var java, cs := Leads(Java), Leads(CSharp);
    assert java[0] == 'b' && java[1] == 's' && java[2] == 't' && java[3] == 'n' && java[4] == 'f' && java[5] == 'r'
        && java[6] == '"' && java[7] == '\'' && java[8] == '\\' && java[9] == '0' && java[10] == '1' && java[11] == '2'
        && java[12] == '3' && java[13] == '4' && java[14] == '5' && java[15] == '6' && java[16] == '7' && java[17] == 'u';
    assert cs[0] == '\'' && cs[1] == '"' && cs[2] == '\\' && cs[3] == '0' && cs[4] == 'a' && cs[5] == 'b' && cs[6] == 'f'
        && cs[7] == 'n' && cs[8] == 'r' && cs[9] == 't' && cs[10] == 'v' && cs[11] == 'u' && cs[12] == 'U' && cs[13] == 'x';
  }

  function BodyOf(e: Element): seq<Unit> { if e.Quoted? || e.Char? then e.body else [] }

  predicate LegalBody(lang: Language, us: seq<Unit>) { forall j :: 0 <= j < |us| ==> !Bad(lang, us[j]) }

  /** `c` is the first bad escape of the body. */
  predicate BadFirst(lang: Language, us: seq<Unit>, c: char) {
    exists j :: 0 <= j < |us| && us[j] == Escape(c) && Bad(lang, us[j]) && LegalBody(lang, us[..j])
  }

  lemma {:induction false} FirstIllegalIs(lang: Language, us: seq<Unit>)
    ensures var f := FirstIllegalUnit(lang, us);
            (f.None? <==> LegalBody(lang, us)) && (f.Some? ==> BadFirst(lang, us, f.value))
  {
    if us != [] {
      BadIsIllegal(lang, us[0]);
      hide Bad, IllegalUnit;
      FirstIllegalIs(lang, us[1..]);
      var f := FirstIllegalUnit(lang, us[1..]);
      if Bad(lang, us[0]) {
        assert LegalBody(lang, us[..0]);
      } else if f.Some? {
        var j :| 0 <= j < |us[1..]| && us[1..][j] == Escape(f.value) && Bad(lang, us[1..][j]) && LegalBody(lang, us[1..][..j]);
        LegalOneMore(lang, us, j + 1);
        assert us[j + 1] == us[1..][j];
      } else {
        assert us == [us[0]] + us[1..];
      }
    }
  }

  lemma LegalOneMore(lang: Language, us: seq<Unit>, j: nat)
    requires 0 < j <= |us| && !Bad(lang, us[0]) && LegalBody(lang, us[1..][..j - 1])
    ensures LegalBody(lang, us[..j])
  {
    hide Bad;
    forall k | 0 <= k < j ensures !Bad(lang, us[..j][k]) {
      assert k > 0 ==> us[..j][k] == us[1..][..j - 1][k - 1];
    }
  }

  lemma ElementJudged(lang: Language, e: Element, ts: seq<Token>, line: nat)
    requires IsElement(e)
    ensures FirstIllegal(lang, TokensOf(e) + ts, line) ==
            match FirstIllegalUnit(lang, BodyOf(e))
            case Some(c) => Rejected(c, line)
            case None => FirstIllegal(lang, ts, line + Newlines(ElementText(e)))
  {
    hide FirstIllegal, FirstIllegalUnit, Newlines, UnitsText, Quotes, Doubled, WellFormed, Dollar, Dollars, RawText, Separate;
    EscapeScan.FirstIllegalNone(lang);
    match e
    case Line(text) => LineJudged(lang, text, ts, line);
    case Quoted(dollar, body) => DollarJudged(lang, dollar, Literal('"', body), ts, line);
    case RawStr(dollar, n, text) =>
      DollarJudged(lang, dollar, Copied(Quotes(n) + text + Quotes(n)), ts, line);
      DollarRaw(dollar, Quotes(n), text);
    case Byte(c) => OneJudged(lang, Code(c), ts, line);
    case Char(body) => OneJudged(lang, Literal('\'', body), ts, line);
    case _ => OneJudged(lang, Copied(ElementText(e)), ts, line);
  }

  lemma OneJudged(lang: Language, t: Token, ts: seq<Token>, line: nat)
    ensures FirstIllegal(lang, [t] + ts, line) ==
            match FirstIllegalUnit(lang, t.Body())
            case Some(c) => Rejected(c, line)
            case None => FirstIllegal(lang, ts, line + Newlines(t.Text()))
  {
    hide FirstIllegalUnit, Newlines, Token.Text, Token.Body;
    assert ([t] + ts)[1..] == ts;
  }

  lemma NoBodyJudged(lang: Language, c: char, ts: seq<Token>, line: nat)
    ensures FirstIllegal(lang, [Code(c)] + ts, line) == FirstIllegal(lang, ts, line + if c == '\n' then 1 else 0)
  {
    OneJudged(lang, Code(c), ts, line);
    hide FirstIllegal;
    assert [c][1..] == "";
  }

  lemma DollarJudged(lang: Language, dollar: bool, t: Token, ts: seq<Token>, line: nat)
    ensures FirstIllegal(lang, Dollars(dollar) + [t] + ts, line) ==
            match FirstIllegalUnit(lang, t.Body())
            case Some(c) => Rejected(c, line)
            case None => FirstIllegal(lang, ts, line + Newlines(Dollar(dollar) + t.Text()))
  {
    assert Newlines("$") == 0 by { assert "$"[1..] == ""; }
    hide FirstIllegal, FirstIllegalUnit, Newlines, Token.Text, Token.Body;
    OneJudged(lang, t, ts, line);
    NewlinesConcat(Dollar(dollar), t.Text());
    if dollar {
      NoBodyJudged(lang, '$', [t] + ts, line);
      assert [Code('$')] + [t] + ts == [Code('$')] + ([t] + ts);
    } else {
      assert [] + [t] + ts == [t] + ts;
      assert "" + t.Text() == t.Text();
    }
  }

  lemma LineJudged(lang: Language, text: string, ts: seq<Token>, line: nat)
    requires '\n' !in text
    ensures FirstIllegal(lang, [Copied("//" + text), Code('\n')] + ts, line) ==
            FirstIllegal(lang, ts, line + Newlines("//" + text + "\n"))
  {
    assert Newlines("\n") == 1 by { assert "\n"[1..] == ""; }
    hide FirstIllegal, Newlines;
    NoNewlines("//" + text);
    NewlinesConcat("//" + text, "\n");
    EscapeScan.FirstIllegalNone(lang);
    OneJudged(lang, Copied("//" + text), [Code('\n')] + ts, line);
    NoBodyJudged(lang, '\n', ts, line);
    assert [Copied("//" + text), Code('\n')] + ts == [Copied("//" + text)] + ([Code('\n')] + ts);
  }

  predicate Legal(lang: Language, es: seq<Element>) {
    forall k :: 0 <= k < |es| ==> LegalBody(lang, BodyOf(es[k]))
  }

  /** Element `k` is the first with a bad escape, and `c` is its first. */
  predicate FirstBad(lang: Language, es: seq<Element>, k: nat, c: char) {
    k < |es| && BadFirst(lang, BodyOf(es[k]), c) && Legal(lang, es[..k])
  }

  function LinesBefore(es: seq<Element>, k: nat): nat
    requires k <= |es|
  {
    Newlines(Written(es[..k]))
  }

  /** The answer is the first bad escape of the elements with its line, and `next` if they have none. */
  ghost predicate Judged(lang: Language, es: seq<Element>, v: Verdict, line: nat, next: Verdict) {
    if Legal(lang, es) then v == next
    else v.Rejected? && exists k: nat :: FirstBad(lang, es, k, v.escape) && v.line == line + LinesBefore(es, k)
  }

  lemma {:induction false} FileJudged(lang: Language, es: seq<Element>, tail: string, ts: seq<Token>, line: nat)
    requires Separated(es, tail)
    ensures Judged(lang, es, FirstIllegal(lang, AllTokens(es) + ts, line), line,
              FirstIllegal(lang, ts, line + Newlines(Written(es))))
  {
    hide IsElement, EndsBefore, FirstIllegalUnit, TokensOf, ElementText, Newlines, LegalBody, BadFirst, BodyOf, FirstIllegal;
    if es == [] {
      assert AllTokens(es) + ts == ts && Newlines(Written(es)) == 0 by { CSharpStripper.NewlinesOfNothing(); }
    } else {
      var e, rest := es[0], AllTokens(es[1..]) + ts;
      var line' := line + Newlines(ElementText(e));
      FileJudged(lang, es[1..], tail, ts, line');
      ElementJudged(lang, e, rest, line);
      FirstIllegalIs(lang, BodyOf(e));
      Assoc(TokensOf(e), AllTokens(es[1..]), ts);
      NewlinesConcat(ElementText(e), Written(es[1..]));
      hide AllTokens, Written, Judged, Legal;
      var next := FirstIllegal(lang, ts, line + Newlines(Written(es)));
      if FirstIllegalUnit(lang, BodyOf(e)).Some? {
        JudgedHere(lang, es, FirstIllegalUnit(lang, BodyOf(e)).value, line, next);
      } else {
        JudgedLater(lang, es, FirstIllegal(lang, rest, line'), line, next);
      }
    }
  }

  lemma JudgedHere(lang: Language, es: seq<Element>, c: char, line: nat, next: Verdict)
    requires es != [] && BadFirst(lang, BodyOf(es[0]), c) && !LegalBody(lang, BodyOf(es[0]))
    ensures Judged(lang, es, Rejected(c, line), line, next)
  {
    hide BadFirst, LegalBody, BodyOf;
    assert es[..0] == [] && Written([]) == "" && Newlines("") == 0;
    assert FirstBad(lang, es, 0, c);
  }

  lemma JudgedLater(lang: Language, es: seq<Element>, v: Verdict, line: nat, next: Verdict)
    requires es != [] && LegalBody(lang, BodyOf(es[0]))
    requires Judged(lang, es[1..], v, line + Newlines(ElementText(es[0])), next)
    ensures Judged(lang, es, v, line, next)
  {
    hide BadFirst, LegalBody, BodyOf, ElementText, Newlines, Written, LinesBefore;
    var line' := line + Newlines(ElementText(es[0]));
    assert es == [es[0]] + es[1..];
    if !Legal(lang, es[1..]) {
      var k: nat :| FirstBad(lang, es[1..], k, v.escape) && v.line == line' + LinesBefore(es[1..], k);
      FirstBadLater(lang, es, k, v.escape);
      assert FirstBad(lang, es, k + 1, v.escape);
    }
  }

  lemma FirstBadLater(lang: Language, es: seq<Element>, k: nat, c: char)
    requires es != [] && LegalBody(lang, BodyOf(es[0])) && FirstBad(lang, es[1..], k, c)
    ensures FirstBad(lang, es, k + 1, c)
    ensures LinesBefore(es, k + 1) == Newlines(ElementText(es[0])) + LinesBefore(es[1..], k)
  {
    hide BadFirst, LegalBody, BodyOf, ElementText, Newlines;
    assert es[..k + 1] == [es[0]] + es[1..][..k];
    assert es[..k + 1][1..] == es[1..][..k];
    NewlinesConcat(ElementText(es[0]), Written(es[1..][..k]));
    hide Written, LinesBefore;
    var front := es[..k + 1];
    forall i | 0 <= i < |front| ensures LegalBody(lang, BodyOf(front[i])) {
      assert i > 0 ==> front[i] == es[1..][..k][i - 1];
    }
  }

  /** The gate accepts a file exactly when every escape in its ordinary and char literals may follow a
      backslash; what it reports is the first that may not, with the line it stands on.  Verbatim and
      raw literals and comments are not judged. */
  lemma GateReads(lang: Language, es: seq<Element>)
    requires Source(lang, es, "")
    ensures Judged(lang, es, Gate(lang, Written(es)), 1, Accepted)
  {
    hide Judged, FirstIllegal, Lex, AllTokens;
    WholeFileLexes(lang, es);
    FileJudged(lang, es, "", [], 1);
    assert AllTokens(es) + [] == AllTokens(es);
    NothingIllegal(lang, 1 + Newlines(Written(es)));
  }

  lemma NothingIllegal(lang: Language, line: nat)
    ensures FirstIllegal(lang, [], line) == Accepted
  {
  }

  // ----- where the scan loses its place

  /** What cannot stand in a literal: the end of input or of the line, or a backslash before it. */
  predicate DeadEnd(rest: string) {
    || rest == "" || rest[0] == '\n'
    || (rest[0] == '\\' && (|rest| == 1 || rest[1] == '\n' || rest[1] == '\r'))
  }

  lemma {:induction false} OpenBody(quote: char, body: seq<Unit>, rest: string)
    requires IsQuote(quote) && WellFormed(body, quote) && DeadEnd(rest)
    ensures ScanBody(quote, UnitsText(body) + rest) == (body, false)
  {
    if body == [] {
      assert UnitsText(body) + rest == rest;
    } else {
      WellFormedTail(body, quote);
      hide WellFormed, UnitsText, ScanBody, UnitText, DeadEnd;
      OpenBody(quote, body[1..], rest);
      ScanUnit(quote, body[0], UnitsText(body[1..]) + rest);
      Assoc(UnitText(body[0]), UnitsText(body[1..]), rest);
      assert body == [body[0]] + body[1..];
    }
  }

  lemma NoRawOpens(quote: char, body: seq<Unit>, rest: string)
    requires IsQuote(quote) && WellFormed(body, quote) && DeadEnd(rest)
    ensures UnmodelledLen([quote] + UnitsText(body) + rest).None?
  {
    var s := [quote] + UnitsText(body) + rest;
    assert s[0] == quote;
    if body == [] {
      assert s == [quote] + rest;
      assert rest != "" ==> s[1] == rest[0];
    } else {
      WellFormedTail(body, quote);
      assert s[1] == UnitText(body[0])[0];
    }
  }

  /** A literal that is still open there is the last token, with what was read of it. */
  lemma OpenLiteralLexes(lang: Language, quote: char, body: seq<Unit>, rest: string)
    requires IsQuote(quote) && WellFormed(body, quote) && DeadEnd(rest)
    ensures Lex(lang, [quote] + UnitsText(body) + rest) == [Unclosed(quote, body, rest)]
  {
    var s := [quote] + UnitsText(body) + rest;
    OpenBody(quote, body, rest);
    NoRawOpens(quote, body, rest);
    hide UnmodelledLen, ScanBody, DeadEnd, WellFormed, UnitsText, Lex;
    OpenShape(quote, UnitsText(body), rest);
    assert NextToken(lang, s) == Unclosed(quote, body, rest);
    LastToken(lang, s);
  }

  lemma OpenShape(quote: char, body: string, rest: string)
    ensures var s := [quote] + body + rest;
            s[0] == quote && s[1..] == body + rest && s[1 + |body|..] == rest
  {
  }

  lemma LastToken(lang: Language, s: string)
    requires s != "" && NextToken(lang, s).Text() == s
    ensures Lex(lang, s) == [NextToken(lang, s)]
  {
    hide NextToken, Token.Text;
    assert s[|s|..] == "";
    EscapeScan.NothingLexed(lang);
  }

  lemma OpenCommentLexes(lang: Language, s: string)
    requires OpenComment(s)
    ensures Lex(lang, s) == [Unlexed(s)]
  {
    OpenCommentLen(s);
    assert s[0] == '/' && UnmodelledLen(s).None?;
    hide UnmodelledLen, LineCommentLen, BlockCommentLen;
    assert NextToken(lang, s) == Unlexed(s);
    LastToken(lang, s);
  }

  /** A file that ends so is never changed by the repair. */
  lemma OpenFileUntouched(lang: Language, es: seq<Element>, tail: string)
    requires Source(lang, es, tail) && |Lex(lang, tail)| == 1 && Lex(lang, tail)[0].LostSync()
    ensures Repair(lang, Written(es) + tail) == (Written(es) + tail, [])
  {
    hide Lex, Source, RepairsOf, AllTokens;
    FileLexes(lang, es, tail);
    assert Lex(lang, Written(es) + tail)[|AllTokens(es)|] == Lex(lang, tail)[0];
  }

  /** The gate still judges what was read of an open literal, after everything before it. */
  lemma GateReadsOpen(lang: Language, es: seq<Element>, quote: char, body: seq<Unit>, rest: string)
    requires IsQuote(quote) && WellFormed(body, quote) && DeadEnd(rest)
    requires Source(lang, es, [quote] + UnitsText(body) + rest)
    ensures var v := Gate(lang, Written(es) + ([quote] + UnitsText(body) + rest));
            Legal(lang, es) ==>
              && (v.Accepted? <==> LegalBody(lang, body))
              && (v.Rejected? ==> BadFirst(lang, body, v.escape) && v.line == 1 + Newlines(Written(es)))
    ensures !Legal(lang, es) ==> Judged(lang, es, Gate(lang, Written(es) + ([quote] + UnitsText(body) + rest)), 1, Accepted)
  {
    var tail := [quote] + UnitsText(body) + rest;
    var ts := [Unclosed(quote, body, rest)];
    hide FirstIllegal, Lex, AllTokens, Legal, LegalBody, BadFirst, WellFormed, DeadEnd, UnitsText, Newlines, Written, FirstIllegalUnit;
    OpenLiteralLexes(lang, quote, body, rest);
    FileLexes(lang, es, tail);
    FileJudged(lang, es, tail, ts, 1);
    var line := 1 + Newlines(Written(es));
    assert ts == [Unclosed(quote, body, rest)] + [];
    OneJudged(lang, Unclosed(quote, body, rest), [], line);
    NothingIllegal(lang, line + Newlines(ts[0].Text()));
    FirstIllegalIs(lang, body);
  }

  // ----- the repair

  /** Each bad escape of a body becomes a backslash of its own and the byte after it. */
  function Mended(lang: Language, us: seq<Unit>): seq<Unit> {
    if us == [] then []
    else (if Bad(lang, us[0]) then [Escape('\\'), Raw(us[0].c)] else [us[0]]) + Mended(lang, us[1..])
  }

  function MendedElement(lang: Language, e: Element): Element {
    if e.Quoted? then Quoted(e.dollar, Mended(lang, e.body)) else e
  }

  function MendedAll(lang: Language, es: seq<Element>): (r: seq<Element>)
    ensures |r| == |es| && forall k :: 0 <= k < |es| ==> r[k] == MendedElement(lang, es[k])
  {
    if es == [] then [] else [MendedElement(lang, es[0])] + MendedAll(lang, es[1..])
  }

  lemma {:induction false} MendedIs(lang: Language, us: seq<Unit>)
    ensures Mended(lang, us) == RepairBody(lang, us)
  {
    if us != [] {
      BadIsIllegal(lang, us[0]);
      MendedIs(lang, us[1..]);
    }
  }

  lemma {:induction false} RepairTokensConcat(lang: Language, a: seq<Token>, b: seq<Token>)
    ensures RepairTokens(lang, a + b) == RepairTokens(lang, a) + RepairTokens(lang, b)
  {
  }

  lemma TextOfOne(t: Token)
    ensures TextOf([t]) == t.Text()
  {
    hide Token.Text;
    assert [t][1..] == [];
  }

  lemma ElementRepaired(lang: Language, e: Element)
    ensures TextOf(RepairTokens(lang, TokensOf(e))) == ElementText(MendedElement(lang, e))
  {
    hide UnitsText, Mended, RepairBody, Quotes, Doubled, RepairTokens, TextOf, Dollar, Dollars;
    match e
    case Line(text) => LineRepaired(lang, text);
    case Quoted(dollar, body) =>
      MendedIs(lang, body);
      DollarRepaired(lang, dollar, Literal('"', body));
    case RawStr(dollar, n, text) =>
      DollarRepaired(lang, dollar, Copied(Quotes(n) + text + Quotes(n)));
      DollarRaw(dollar, Quotes(n), text);
    case Byte(c) => OneRepaired(lang, Code(c));
    case Char(body) => OneRepaired(lang, Literal('\'', body));
    case _ => OneRepaired(lang, Copied(ElementText(e)));
  }

  lemma OneRepaired(lang: Language, t: Token)
    ensures TextOf(RepairTokens(lang, [t])) == RepairToken(lang, t).Text()
  {
    hide RepairToken, Token.Text;
    TextOfOne(RepairToken(lang, t));
    assert RepairTokens(lang, [t]) == [RepairToken(lang, t)];
  }

  lemma DollarRepaired(lang: Language, dollar: bool, t: Token)
    ensures TextOf(RepairTokens(lang, Dollars(dollar) + [t])) == Dollar(dollar) + RepairToken(lang, t).Text()
  {
    OneRepaired(lang, t);
    OneRepaired(lang, Code('$'));
    assert RepairToken(lang, Code('$')).Text() == "$";
    hide RepairToken, Token.Text, TextOf, RepairTokens;
    if dollar {
      RepairTokensConcat(lang, [Code('$')], [t]);
      TextOfConcat(RepairTokens(lang, [Code('$')]), RepairTokens(lang, [t]));
    } else {
      assert [] + [t] == [t];
      assert "" + RepairToken(lang, t).Text() == RepairToken(lang, t).Text();
    }
  }

  lemma LineRepaired(lang: Language, text: string)
    ensures TextOf(RepairTokens(lang, [Copied("//" + text), Code('\n')])) == "//" + text + "\n"
  {
    OneRepaired(lang, Copied("//" + text));
    OneRepaired(lang, Code('\n'));
    hide TextOf, RepairTokens;
    RepairTokensConcat(lang, [Copied("//" + text)], [Code('\n')]);
    TextOfConcat(RepairTokens(lang, [Copied("//" + text)]), RepairTokens(lang, [Code('\n')]));
    assert [Copied("//" + text), Code('\n')] == [Copied("//" + text)] + [Code('\n')];
  }

  lemma {:induction false} FileRepaired(lang: Language, es: seq<Element>)
    ensures TextOf(RepairTokens(lang, AllTokens(es))) == Written(MendedAll(lang, es))
  {
    hide RepairTokens, TextOf, TokensOf, ElementText, MendedElement;
    if es == [] {
      assert RepairTokens(lang, []) == [] by { NoneRepaired(lang); }
      NothingWritten();
    } else {
      FileRepaired(lang, es[1..]);
      ElementRepaired(lang, es[0]);
      RepairTokensConcat(lang, TokensOf(es[0]), AllTokens(es[1..]));
      TextOfConcat(RepairTokens(lang, TokensOf(es[0])), RepairTokens(lang, AllTokens(es[1..])));
    }
  }

  lemma NoneRepaired(lang: Language)
    ensures RepairTokens(lang, []) == []
  {
  }

  lemma NothingWritten()
    ensures TextOf([]) == "" && Written([]) == ""
  {
  }

  lemma {:induction false} NothingLost(es: seq<Element>)
    ensures Complete(AllTokens(es))
  {
    if es != [] {
      hide ElementText;
      NothingLost(es[1..]);
      assert forall k :: 0 <= k < |TokensOf(es[0])| ==> !TokensOf(es[0])[k].LostSync();
    }
  }

  lemma {:induction false} LegalUnchanged(lang: Language, us: seq<Unit>)
    requires FirstIllegalUnit(lang, us).None?
    ensures RepairBody(lang, us) == us
  {
    if us != [] {
      LegalUnchanged(lang, us[1..]);
      assert us == [us[0]] + us[1..];
    }
  }

  /** With nothing to repair the repaired text is the text. */
  lemma {:induction false} NoRepairsNoChange(lang: Language, ts: seq<Token>, line: nat)
    requires RepairsOf(lang, ts, line) == []
    ensures TextOf(RepairTokens(lang, ts)) == TextOf(ts)
  {
    hide Newlines, UnitsText, RepairBody, BodyRepairs, FirstIllegalUnit, RepairTokens;
    if ts != [] {
      var t := ts[0];
      NoRepairsNoChange(lang, ts[1..], line + Newlines(t.Text()));
      RepairTokensCons(lang, ts);
      if Repairable(t) {
        EscapeLaws.LegalBodyNoRepairs(lang, t.body, line);
        LegalUnchanged(lang, t.body);
      }
      hide Token.Text, RepairToken, TokenRepairs;
      assert RepairToken(lang, t) == t;
    } else {
      NoneRepaired(lang);
    }
  }

  /** The repaired file, element by element: bad escapes of ordinary strings are mended, and no byte of a
      char literal, a verbatim or raw literal, a comment or the code is touched. */
  lemma RepairReads(lang: Language, es: seq<Element>)
    requires Source(lang, es, "")
    ensures Repair(lang, Written(es)).0 == Written(MendedAll(lang, es))
  {
    hide Lex, RepairsOf, AllTokens, Written, MendedAll, TextOf, RepairTokens, Source, Complete;
    WholeFileLexes(lang, es);
    NothingLost(es);
    FileRepaired(lang, es);
    if RepairsOf(lang, AllTokens(es), 1) == [] {
      NoRepairsNoChange(lang, AllTokens(es), 1);
    }
  }

  lemma {:induction false} MendedConcat(lang: Language, a: seq<Element>, b: seq<Element>)
    ensures MendedAll(lang, a + b) == MendedAll(lang, a) + MendedAll(lang, b)
  {
    hide MendedElement;
    if a == [] {
      assert a + b == b;
    } else {
      assert (a + b)[1..] == a[1..] + b;
      MendedConcat(lang, a[1..], b);
    }
  }

  /** In particular a verbatim or raw literal comes out as it went in, wherever it stands. */
  lemma CopiedLiteralUntouched(a: seq<Element>, e: Element, b: seq<Element>)
    requires Source(CSharp, a + [e] + b, "") && (e.Verbatim? || e.RawStr?)
    ensures Repair(CSharp, Written(a + [e] + b)).0 ==
            Written(MendedAll(CSharp, a)) + ElementText(e) + Written(MendedAll(CSharp, b))
  {
    hide Repair, ElementText, Written, Source;
    RepairReads(CSharp, a + [e] + b);
    MendedConcat(CSharp, a + [e], b);
    MendedConcat(CSharp, a, [e]);
    assert MendedAll(CSharp, [e]) == [e];
    WrittenConcat(MendedAll(CSharp, a) + [e], MendedAll(CSharp, b));
    WrittenConcat(MendedAll(CSharp, a), [e]);
    OneWritten(e);
  }

  lemma OneWritten(e: Element)
    ensures Written([e]) == ElementText(e)
  {
    hide ElementText;
    assert [e][1..] == [];
  }
}
