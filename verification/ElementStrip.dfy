/** What the two strippers make of a file, told from its elements, and where the literals end that they
    read in their own way. */
module ElementStrip {
  import opened Text
  import opened Literals
  import opened EscapeLexer
  import opened SourceElements
  import opened Stripper
  import CSharpStripper

  // ----- where a literal ends in any text

  /** A byte that ends the literal, with an even run of backslashes before it. */
  predicate EndsIt(s: string, k: nat, quote: char, atLine: bool) {
    k < |s| && (s[k] == quote || (atLine && s[k] == '\n')) && RunBefore(s, k, '\\') % 2 == 0
  }

  /** The first such byte is the last one of `s[..n]`, or there is none and `n` is the end of input. */
  predicate EndsFirst(s: string, n: nat, quote: char, atLine: bool) {
    || (0 < n <= |s| && EndsIt(s, n - 1, quote, atLine) && forall k :: 0 <= k < n - 1 ==> !EndsIt(s, k, quote, atLine))
    || (n == |s| && forall k :: 0 <= k < |s| ==> !EndsIt(s, k, quote, atLine))
  }

  lemma EndShifts(s: string, d: nat, k: nat, quote: char, atLine: bool)
    requires d <= |s| && RunBefore(s, d, '\\') % 2 == 0
    ensures EndsIt(s, d + k, quote, atLine) <==> EndsIt(s[d..], k, quote, atLine)
  {
    hide RunBefore;
    if d + k < |s| {
      RunBeforeShifts(s, d, k, '\\');
      assert s[d..][k] == s[d + k];
    }
  }

  lemma EndsFurtherOn(s: string, d: nat, n: nat, quote: char, atLine: bool)
    requires d <= |s| && RunBefore(s, d, '\\') % 2 == 0
    requires EndsFirst(s[d..], n, quote, atLine) && forall k :: 0 <= k < d ==> !EndsIt(s, k, quote, atLine)
    ensures EndsFirst(s, d + n, quote, atLine)
  {
    hide EndsIt, RunBefore;
    forall k: nat | d <= k < |s| ensures EndsIt(s, k, quote, atLine) <==> EndsIt(s[d..], k - d, quote, atLine) {
      EndShifts(s, d, k - d, quote, atLine);
    }
  }

  /** The bytes a scan steps over at once: an escape, or one byte that ends nothing. */
  predicate OneStep(s: string, d: nat, quote: char, atLine: bool) {
    && d <= |s|
    && ((d == 2 && s[0] == '\\') || (d == 1 && s[0] != '\\' && s[0] != quote && !(atLine && s[0] == '\n')))
  }

  lemma StepEndsNothing(s: string, d: nat, quote: char, atLine: bool)
    requires OneStep(s, d, quote, atLine) && quote != '\\'
    ensures RunBefore(s, d, '\\') % 2 == 0 && forall k :: 0 <= k < d ==> !EndsIt(s, k, quote, atLine)
  {
    assert RunBefore(s, 0, '\\') == 0;
    assert RunBefore(s, 1, '\\') == if s[0] == '\\' then 1 else 0;
  }

  lemma OneByteLeft(s: string, quote: char, atLine: bool)
    requires |s| == 1 && s[0] == '\\' && quote != '\\'
    ensures EndsFirst(s, 1, quote, atLine)
  {
  }

  lemma EndsAtOnce(s: string, quote: char, atLine: bool)
    requires s != "" && (s[0] == quote || (atLine && s[0] == '\n'))
    ensures EndsFirst(s, 1, quote, atLine)
  {
    assert RunBefore(s, 0, '\\') == 0;
  }

  /** To the stripper of Java and C# text a char literal ends at the first apostrophe no backslash takes. */
  lemma {:induction false} CharEndsFirst(s: string)
    ensures EndsFirst(s, CharCloseLen(s), '\'', false)
    decreases |s|
  {
    if s != "" {
      var d := if s[0] == '\\' then 2 else 1;
      if s[0] == '\'' {
        EndsAtOnce(s, '\'', false);
      } else if d > |s| {
        OneByteLeft(s, '\'', false);
      } else {
        StepEndsNothing(s, d, '\'', false);
        CharEndsFirst(s[d..]);
        hide EndsFirst, EndsIt, RunBefore;
        EndsFurtherOn(s, d, CharCloseLen(s[d..]), '\'', false);
      }
    }
  }

  /** To the C# stripper an ordinary literal ends at the first quote or line feed no backslash takes. */
  lemma {:induction false} LooseEndsFirst(quote: char, s: string)
    requires quote != '\\'
    ensures EndsFirst(s, CSharpStripper.LooseCloseLen(quote, s), quote, true)
    decreases |s|
  {
    if s != "" {
      var d := if s[0] == '\\' then 2 else 1;
      if s[0] == quote || s[0] == '\n' {
        EndsAtOnce(s, quote, true);
      } else if d > |s| {
        OneByteLeft(s, quote, true);
      } else {
        StepEndsNothing(s, d, quote, true);
        LooseEndsFirst(quote, s[d..]);
        hide EndsFirst, EndsIt, RunBefore;
        EndsFurtherOn(s, d, CSharpStripper.LooseCloseLen(quote, s[d..]), quote, true);
      }
    }
  }

  /** A Go raw string ends at the first backtick. */
  lemma {:induction false} BacktickEndsFirst(s: string)
    ensures BacktickCloseLen(s) == if Index(s, "`") < 0 then |s| else Index(s, "`") + 1
  {
    if s != "" {
      BacktickEndsFirst(s[1..]);
      assert OccursAt(s, "`", 0) <==> s[0] == '`' by {
        assert s[0..1] == [s[0]];
      }
      hide OccursAt;
    }
  }

  // ----- what is left of an element

  predicate InDialect(d: Dialect, e: Element) {
    match e
    case Byte(c) => d.Go? ==> c != '`'
    case Quoted(dollar, _) => dollar ==> d.JavaOrCSharp?
    case Char(_) => d.JavaOrCSharp?
    case Verbatim(_, _) => d.JavaOrCSharp?
    case RawStr(_, _, _) => d.JavaOrCSharp?
    case Backtick(_) => d.Go?
    case _ => true
  }

  function Left(e: Element): string {
    match e
    case Byte(c) => [c]
    case Line(_) => "\n"
    case Comment(_) => ""
    case _ => "_"
  }

  function AllLeft(es: seq<Element>): string {
    if es == [] then "" else Left(es[0]) + AllLeft(es[1..])
  }

  lemma Headed(d: Dialect, text: string, rest: string, p: Piece)
    requires text != "" && Head(d, text + rest) == p && !p.Cut? && p.Length() == |text|
    ensures Strip(d, text + rest) == p.Emit() + Strip(d, rest)
  {
    hide Head, Piece.Emit, Piece.Length;
    assert (text + rest)[|text|..] == rest;
  }

  lemma ByteHead(d: Dialect, c: char, rest: string)
    requires !IsQuote(c) && OnlyAByte(c, rest) && (d.Go? ==> c != '`')
    ensures Head(d, [c] + rest) == Kept(c)
  {
    var s := [c] + rest;
    assert |s| > 1 ==> s[1] == rest[0];
    if IsPrefixByte(c) {
      NoPrefixedLiteral(c, rest);
    }
    hide StringLiteralLen;
  }

  lemma LineHead(d: Dialect, text: string, rest: string)
    requires '\n' !in text
    ensures Head(d, "//" + text + "\n" + rest) == LineGone(2 + |text| + 1)
  {
    LineReads(text, rest);
    hide LineCommentLen, StringLiteralLen;
  }

  lemma CommentHeads(d: Dialect, text: string, rest: string)
    requires Separate(text, "*/")
    ensures Head(d, "/*" + text + "*/" + rest) == BlockGone(2 + |text| + 2)
  {
    CommentReads(text, rest);
    hide BlockCommentLen, StringLiteralLen, Separate;
  }

  lemma StringHead(d: Dialect, text: string, rest: string)
    requires text != "" && (text[0] == '"' || (d.JavaOrCSharp? && IsPrefixByte(text[0])))
    requires StringLiteralLen(text + rest, d.JavaOrCSharp?) == Some(|text|)
    ensures Head(d, text + rest) == Stripper.Hole(|text|)
  {
    hide StringLiteralLen;
    assert (text + rest)[0] == text[0];
  }

  lemma {:induction false} CharReads(body: seq<Unit>, rest: string)
    requires WellFormed(body, '\'')
    ensures CharCloseLen(UnitsText(body) + "'" + rest) == |UnitsText(body)| + 1
  {
    var s := UnitsText(body) + "'" + rest;
    if body == [] {
      assert s[0] == '\'';
    } else {
      WellFormedTail(body, '\'');
      hide UnitsText, WellFormed;
      var t := UnitsText(body[1..]) + "'" + rest;
      assert s == UnitText(body[0]) + t;
      assert s[|UnitText(body[0])|..] == t;
      CharReads(body[1..], rest);
    }
  }

  lemma CharHead(body: seq<Unit>, rest: string)
    requires WellFormed(body, '\'')
    ensures Head(JavaOrCSharp, Between('\'', body) + rest) == Stripper.Hole(|Between('\'', body)|)
  {
    CharReads(body, rest);
    hide CharCloseLen, WellFormed, UnitsText, StringLiteralLen;
    var s := Between('\'', body) + rest;
    assert s[0] == '\'' && s[1..] == UnitsText(body) + "'" + rest;
  }

  lemma BacktickHead(text: string, rest: string)
    requires '`' !in text
    ensures Head(Go, "`" + text + "`" + rest) == Stripper.Hole(1 + |text| + 1)
  {
    var s := "`" + text + "`" + rest;
    assert s[0] == '`' && s[1..] == text + "`" + rest;
    BacktickStarts(text, rest);
    BacktickEndsFirst(text + "`" + rest);
    hide BacktickCloseLen, Index, StringLiteralLen;
  }

  lemma ElementStrips(d: Dialect, e: Element, rest: string)
    requires IsElement(e) && EndsBefore(e, rest) && InDialect(d, e)
    ensures Strip(d, ElementText(e) + rest) == Left(e) + Strip(d, rest)
  {
    hide Strip, Head, StringLiteralLen, WellFormed, UnitsText, Doubled, Quotes, Separate, OnlyAByte;
    var t := ElementText(e);
    match e
    case Byte(c) =>
      ByteHead(d, c, rest);
      Headed(d, t, rest, Kept(c));
    case Line(text) =>
      LineHead(d, text, rest);
      Headed(d, t, rest, LineGone(|t|));
    case Comment(text) =>
      CommentHeads(d, text, rest);
      Headed(d, t, rest, BlockGone(|t|));
    case Quoted(dollar, body) =>
      QuotedLength(dollar, body, rest, d.JavaOrCSharp?);
      StringStrips(d, t, rest);
    case Char(body) =>
      CharHead(body, rest);
      Headed(d, t, rest, Stripper.Hole(|t|));
    case Verbatim(prefix, text) =>
      VerbatimLength(prefix, text, rest);
      StringStrips(d, t, rest);
    case RawStr(dollar, n, text) =>
      RawLength(dollar, n, text, rest);
      assert t[0] == if dollar then '$' else Quotes(n)[0];
      StringStrips(d, t, rest);
    case Backtick(text) =>
      BacktickHead(text, rest);
      Headed(d, t, rest, Stripper.Hole(|t|));
  }

  lemma StringStrips(d: Dialect, text: string, rest: string)
    requires text != "" && (text[0] == '"' || (d.JavaOrCSharp? && IsPrefixByte(text[0])))
    requires StringLiteralLen(text + rest, d.JavaOrCSharp?) == Some(|text|)
    ensures Strip(d, text + rest) == "_" + Strip(d, rest)
  {
    hide Strip, Head, StringLiteralLen;
    StringHead(d, text, rest);
    Headed(d, text, rest, Stripper.Hole(|text|));
  }

  /** Code stays as it is, a line comment leaves its line feed, a block comment nothing, and every
      literal one underscore. */
  lemma {:induction false} FileStrips(d: Dialect, es: seq<Element>, tail: string)
    requires Separated(es, tail) && forall k :: 0 <= k < |es| ==> InDialect(d, es[k])
    ensures Strip(d, Written(es) + tail) == AllLeft(es) + Strip(d, tail)
  {
    hide ElementText, IsElement, EndsBefore, InDialect, Left, Head;
    if es == [] {
      assert "" + tail == tail && "" + Strip(d, tail) == Strip(d, tail);
    } else {
      hide Strip;
      ElementStrips(d, es[0], Written(es[1..]) + tail);
      FileStrips(d, es[1..], tail);
      WrittenCons(es, tail);
      Assoc(Left(es[0]), AllLeft(es[1..]), Strip(d, tail));
    }
  }

  /** A comment with no end takes the rest of the file with it. */
  lemma OpenCommentGoes(d: Dialect, s: string)
    requires OpenComment(s)
    ensures Strip(d, s) == "" && CSharpStripper.StripCSharp(s) == ""
  {
    OpenCommentLen(s);
    hide LineCommentLen, BlockCommentLen;
    assert CommentHead(s).Cut?;
    hide CommentHead;
    assert CSharpStripper.PartHead(s) == CSharpStripper.Dropped(s);
    CSharpStripper.DroppedIsLast(s);
  }

  /** So does a raw string with no end, in the C# stripper; the other one leaves an underscore for it. */
  lemma OpenRawGoes(n: nat, text: string)
    requires n >= 3 && text != "" && text[0] != '"' && Separate(text, Quotes(n))
    ensures CSharpStripper.StripCSharp(Quotes(n) + text) == "" && Strip(JavaOrCSharp, Quotes(n) + text) == "_"
  {
    var s := Quotes(n) + text;
    NoneFound(text, Quotes(n));
    RunOfQuotes(n, text);
    RawStarts(n, text);
    hide *;
    OpenRawDropped(n, text);
    OpenRawHole(n, text);
  }

  lemma OpenRawDropped(n: nat, text: string)
    requires n >= 3 && Index(text, Quotes(n)) < 0 && QuoteRun(Quotes(n) + text) == n && StartsRaw(Quotes(n) + text)
    ensures CSharpStripper.StripCSharp(Quotes(n) + text) == ""
  {
    var s := Quotes(n) + text;
    hide CSharpStripper.PartHead, QuoteRun, Index, Quotes, StartsRaw, CSharpStripper.StripCSharp;
    assert s[n..] == text;
    CSharpStripper.RawHeadIs(s);
    CSharpStripper.DroppedIsLast(s);
  }

  lemma OpenRawHole(n: nat, text: string)
    requires n >= 3 && Index(text, Quotes(n)) < 0 && QuoteRun(Quotes(n) + text) == n && StartsRaw(Quotes(n) + text)
    ensures Strip(JavaOrCSharp, Quotes(n) + text) == "_"
  {
    OpenRawLen(n, text);
    StartsAt(Quotes(n) + text);
    hide *;
    AloneStrips(Quotes(n) + text);
  }

  /** A string literal that takes the rest of the file. */
  lemma AloneStrips(s: string)
    requires StartsWithByte(s, '"') && UnprefixedLen(s, false, true) == |s|
    ensures Strip(JavaOrCSharp, s) == "_"
  {
    AfterPrefix("", s, true);
    hide UnprefixedLen, StringLiteralLen, Strip;
    NoMore(s);
    assert "" + s == s;
    StringStrips(JavaOrCSharp, s, "");
    NothingLeft(JavaOrCSharp);
  }

  lemma StartsAt(s: string)
    requires StartsRaw(s)
    ensures StartsWithByte(s, '"')
  {
  }

  lemma NothingLeft(d: Dialect)
    ensures Strip(d, "") == ""
  {
  }

  lemma OpenRawLen(n: nat, text: string)
    requires n >= 3 && Index(text, Quotes(n)) < 0 && QuoteRun(Quotes(n) + text) == n && StartsRaw(Quotes(n) + text)
    ensures UnprefixedLen(Quotes(n) + text, false, true) == n + |text|
  {
    var s := Quotes(n) + text;
    RawClosesAtFirstRun(text, n);
    hide QuoteRun, Index, Quotes, RawCloseLen;
    assert s[n..] == text;
  }

  // ----- and what the C# stripper leaves, line feeds kept

  function LeftInCSharp(e: Element): string {
    match e
    case Byte(c) => [c]
    case Line(_) => "\n"
    case Comment(text) => CSharpStripper.LineFeeds(Newlines(text))
    case Quoted(dollar, _) => Dollar(dollar) + "_"
    case Char(_) => "_"
    case Verbatim(_, text) => "_" + CSharpStripper.LineFeeds(Newlines(text))
    case RawStr(dollar, _, text) => Dollar(dollar) + "_" + CSharpStripper.LineFeeds(Newlines(text))
    case Backtick(_) => ""
  }

  function AllLeftInCSharp(es: seq<Element>): string {
    if es == [] then "" else LeftInCSharp(es[0]) + AllLeftInCSharp(es[1..])
  }

  lemma Parted(text: string, rest: string, p: CSharpStripper.Part)
    requires text != "" && CSharpStripper.PartHead(text + rest) == p && p.Text() == text
    ensures CSharpStripper.StripCSharp(text + rest) == p.Emit() + CSharpStripper.StripCSharp(rest)
  {
    hide CSharpStripper.PartHead;
    CSharpStripper.PartsUnfold(text + rest);
    assert (text + rest)[|text|..] == rest;
    hide CSharpStripper.Part.Emit, CSharpStripper.Part.Text, CSharpStripper.Parts, CSharpStripper.EmitOf;
  }

  lemma BytePart(c: char, rest: string)
    requires !IsQuote(c) && OnlyAByte(c, rest)
    ensures CSharpStripper.PartHead([c] + rest) == CSharpStripper.Code(c)
  {
    var s := [c] + rest;
    assert |s| > 1 ==> s[1] == rest[0];
    assert |s| > 2 ==> s[2] == rest[1];
    hide CSharpStripper.CommentLen, CSharpStripper.RawLen;
    assert !OpensComment(s) && !StartsRaw(s) && CSharpStripper.VerbatimStart(s) == 0;
    hide CSharpStripper.VerbatimStart;
  }

  lemma DollarPart(q: string)
    requires StartsWithByte(q, '"')
    ensures CSharpStripper.PartHead("$" + q) == CSharpStripper.Code('$')
  {
    var s := "$" + q;
    assert s[0] == '$' && s[1] == '"';
    assert !OpensComment(s) && !StartsRaw(s) && CSharpStripper.VerbatimStart(s) == 0;
    hide CSharpStripper.VerbatimStart, CSharpStripper.CommentLen, CSharpStripper.RawLen;
  }

  /** A literal with a dollar sign before it or not. */
  lemma DollarParted(dollar: bool, text: string, rest: string, p: CSharpStripper.Part)
    requires StartsWithByte(text, '"') && CSharpStripper.PartHead(text + rest) == p && p.Text() == text
    ensures CSharpStripper.StripCSharp(Dollar(dollar) + text + rest) ==
            Dollar(dollar) + p.Emit() + CSharpStripper.StripCSharp(rest)
  {
    assert StartsWithByte(text + rest, '"') && text != "";
    hide *;
    Parted(text, rest, p);
    DollarStrips(dollar, text + rest);
    Assoc(Dollar(dollar), text, rest);
    Assoc(Dollar(dollar), p.Emit(), CSharpStripper.StripCSharp(rest));
  }

  lemma DollarStrips(dollar: bool, q: string)
    requires StartsWithByte(q, '"')
    ensures CSharpStripper.StripCSharp(Dollar(dollar) + q) == Dollar(dollar) + CSharpStripper.StripCSharp(q)
  {
    hide CSharpStripper.PartHead, CSharpStripper.StripCSharp;
    if dollar {
      DollarPart(q);
      Parted("$", q, CSharpStripper.Code('$'));
    } else {
      assert "" + q == q && "" + CSharpStripper.StripCSharp(q) == CSharpStripper.StripCSharp(q);
    }
  }

  lemma LinePart(text: string, rest: string)
    requires '\n' !in text
    ensures var t := "//" + text + "\n";
            CSharpStripper.PartHead(t + rest) == CSharpStripper.Comment(t)
  {
    var t := "//" + text + "\n";
    LineHead(Other, text, rest);
    LineReads(text, rest);
    CommentPart(t, rest);
  }

  lemma CommentPart(t: string, rest: string)
    requires t != "" && OpensComment(t + rest) && !CommentHead(t + rest).Cut? && CommentHead(t + rest).Length() == |t|
    ensures CSharpStripper.PartHead(t + rest) == CSharpStripper.Comment(t)
  {
    hide CommentHead;
    assert (t + rest)[..|t|] == t;
  }

  lemma BlockPart(text: string, rest: string)
    requires Separate(text, "*/")
    ensures var t := "/*" + text + "*/";
            CSharpStripper.PartHead(t + rest) == CSharpStripper.Comment(t)
  {
    var t := "/*" + text + "*/";
    CommentReads(text, rest);
    CommentPart(t, rest);
  }

  lemma {:induction false} LooseReads(quote: char, body: seq<Unit>, rest: string)
    requires IsQuote(quote) && WellFormed(body, quote)
    ensures CSharpStripper.LooseCloseLen(quote, UnitsText(body) + [quote] + rest) == |UnitsText(body)| + 1
  {
    var s := UnitsText(body) + [quote] + rest;
    if body == [] {
      assert s[0] == quote;
    } else {
      WellFormedTail(body, quote);
      hide UnitsText, WellFormed;
      var t := UnitsText(body[1..]) + [quote] + rest;
      assert s == UnitText(body[0]) + t;
      assert s[|UnitText(body[0])|..] == t;
      LooseReads(quote, body[1..], rest);
    }
  }

  lemma OrdinaryPart(quote: char, body: seq<Unit>, rest: string)
    requires IsQuote(quote) && WellFormed(body, quote) && (quote == '"' && body == [] ==> !StartsWithByte(rest, '"'))
    ensures CSharpStripper.PartHead(Between(quote, body) + rest) == CSharpStripper.Ordinary(Between(quote, body))
  {
    var t := Between(quote, body);
    var s := t + rest;
    LooseReads(quote, body, rest);
    if quote == '"' {
      ShortRunOf(body, rest);
      ThreeIsARun(s);
    }
    hide CSharpStripper.LooseCloseLen, QuoteRun, UnitsText, WellFormed;
    assert s[0] == quote && s[1..] == UnitsText(body) + [quote] + rest;
    assert !OpensComment(s) && !StartsRaw(s) && CSharpStripper.VerbatimStart(s) == 0;
    CSharpStripper.PartHeadIs(s);
    hide CSharpStripper.PartHead;
    assert s[..|t|] == t;
  }

  lemma VerbatimStarts(prefix: string, q: string)
    requires prefix == "@" || prefix == "$@" || prefix == "@$"
    requires StartsWithByte(q, '"')
    ensures var s := prefix + q;
            CSharpStripper.VerbatimStart(s) == |prefix| + 1 && !OpensComment(s) && !StartsRaw(s)
  {
    var s := prefix + q;
    assert s[0] == prefix[0] && (|prefix| == 2 ==> s[1] == prefix[1]) && s[|prefix|] == '"';
  }

  lemma VerbatimPart(prefix: string, text: string, rest: string)
    requires prefix == "@" || prefix == "$@" || prefix == "@$"
    requires !StartsWithByte(rest, '"')
    ensures var t := prefix + "\"" + Doubled(text) + "\"";
            CSharpStripper.PartHead(t + rest) == CSharpStripper.Block(t)
  {
    var d := Doubled(text);
    VerbatimReads(text, rest);
    VerbatimStarts(prefix, "\"" + (d + "\"" + rest));
    hide QuotedCloseLen, Doubled, CSharpStripper.VerbatimStart, OpensComment, StartsRaw;
    VerbatimShape(prefix, d, rest);
    CSharpStripper.PartHeadIs(prefix + "\"" + d + "\"" + rest);
    hide CSharpStripper.PartHead;
  }

  lemma VerbatimShape(prefix: string, d: string, rest: string)
    ensures var s := prefix + "\"" + d + "\"" + rest;
            && s == prefix + ("\"" + (d + "\"" + rest))
            && s[|prefix| + 1..] == d + "\"" + rest
            && s[..|prefix| + 1 + (|d| + 1)] == prefix + "\"" + d + "\""
  {
    Prefixed(prefix + "\"", d + "\"", rest);
    Assoc(prefix + "\"", d, "\"");
    Assoc(prefix + "\"", d + "\"", rest);
    Assoc(prefix, "\"", d + "\"" + rest);
  }

  lemma Prefixed(a: string, b: string, rest: string)
    ensures (a + b + rest)[|a|..] == b + rest && (a + b + rest)[..|a| + |b|] == a + b
  {
  }

  lemma RawPart(n: nat, text: string, rest: string)
    requires RawText(n, text) && !StartsWithByte(rest, '"')
    ensures var t := Quotes(n) + text + Quotes(n);
            CSharpStripper.PartHead(t + rest) == CSharpStripper.Block(t)
  {
    var b := text + Quotes(n);
    var s := Quotes(n) + b + rest;
    RawStarts(n, b + rest);
    RawReads(n, text, rest);
    RawCloses(n, text, rest);
    assert s == Quotes(n) + (b + rest);
    CSharpStripper.RawHeadIs(s);
    hide CSharpStripper.PartHead, QuoteRun, Index, Quotes, RawText, StartsRaw;
    Prefixed(Quotes(n), b, rest);
    assert Quotes(n) + text + Quotes(n) == Quotes(n) + b;
  }

  lemma RawStarts(n: nat, rest: string)
    requires n >= 3
    ensures StartsRaw(Quotes(n) + rest)
  {
    assert Quotes(n)[0] == '"' && Quotes(n)[1] == '"' && Quotes(n)[2] == '"';
    hide Quotes;
  }

  // ----- the line feeds of an element are those of its text

  lemma NoLineFeeds(s: string, t: string, u: string)
    requires '\n' !in s && '\n' !in u
    ensures Newlines(s + t + u) == Newlines(t)
  {
    hide Newlines;
    NewlinesConcat(s + t, u);
    NewlinesConcat(s, t);
    NoNewlines(s);
    NoNewlines(u);
  }

  lemma {:induction false} DoubledNewlines(text: string)
    ensures Newlines(Doubled(text)) == Newlines(text)
  {
    if text != "" {
      DoubledNewlines(text[1..]);
      var a := if text[0] == '"' then "\"\"" else [text[0]];
      NewlinesConcat(a, Doubled(text[1..]));
      assert a[1..] == if text[0] == '"' then "\"" else "";
    }
  }

  lemma CommentLeaves(text: string)
    ensures CSharpStripper.Comment("/*" + text + "*/").Emit() == CSharpStripper.LineFeeds(Newlines(text))
  {
    NoLineFeeds("/*", text, "*/");
  }

  lemma LineLeaves(text: string)
    requires '\n' !in text
    ensures CSharpStripper.Comment("//" + text + "\n").Emit() == "\n"
  {
    var t := "//" + text;
    NoNewlines(t);
    NewlinesConcat(t, "\n");
    assert Newlines("\n") == 1 by { assert "\n"[1..] == ""; }
    hide Newlines;
    assert CSharpStripper.LineFeeds(0) == "";
    assert CSharpStripper.LineFeeds(1) == "\n" + CSharpStripper.LineFeeds(0);
  }

  lemma VerbatimLeaves(prefix: string, text: string)
    requires prefix == "@" || prefix == "$@" || prefix == "@$"
    ensures CSharpStripper.Block(prefix + "\"" + Doubled(text) + "\"").Emit() == "_" + CSharpStripper.LineFeeds(Newlines(text))
  {
    NoLineFeeds(prefix + "\"", Doubled(text), "\"");
    DoubledNewlines(text);
  }

  lemma RawLeaves(n: nat, text: string)
    ensures CSharpStripper.Block(Quotes(n) + text + Quotes(n)).Emit() == "_" + CSharpStripper.LineFeeds(Newlines(text))
  {
    assert forall k :: 0 <= k < n ==> Quotes(n)[k] == '"';
    NoLineFeeds(Quotes(n), text, Quotes(n));
  }

  lemma ElementStripsInCSharp(e: Element, rest: string)
    requires IsElement(e) && EndsBefore(e, rest) && !e.Backtick?
    ensures CSharpStripper.StripCSharp(ElementText(e) + rest) == LeftInCSharp(e) + CSharpStripper.StripCSharp(rest)
  {
    hide CSharpStripper.StripCSharp, CSharpStripper.PartHead, CSharpStripper.LineFeeds, Newlines;
    hide WellFormed, Doubled, Quotes, Separate, OnlyAByte, Dollar, RawText, UnitsText;
    var t := ElementText(e);
    match e
    case Byte(c) =>
      BytePart(c, rest);
      Parted(t, rest, CSharpStripper.Code(c));
    case Line(text) =>
      LinePart(text, rest);
      Parted(t, rest, CSharpStripper.Comment(t));
      LineLeaves(text);
    case Comment(text) =>
      BlockPart(text, rest);
      Parted(t, rest, CSharpStripper.Comment(t));
      CommentLeaves(text);
    case Quoted(dollar, body) =>
      OrdinaryPart('"', body, rest);
      DollarParted(dollar, Between('"', body), rest, CSharpStripper.Ordinary(Between('"', body)));
    case Char(body) =>
      OrdinaryPart('\'', body, rest);
      Parted(t, rest, CSharpStripper.Ordinary(t));
    case Verbatim(prefix, text) =>
      VerbatimPart(prefix, text, rest);
      Parted(t, rest, CSharpStripper.Block(t));
      VerbatimLeaves(prefix, text);
    case RawStr(dollar, n, text) => RawStrips(dollar, n, text, rest);
  }

  lemma RawStrips(dollar: bool, n: nat, text: string, rest: string)
    requires RawText(n, text) && !StartsWithByte(rest, '"')
    ensures CSharpStripper.StripCSharp(Dollar(dollar) + Quotes(n) + text + Quotes(n) + rest) ==
            Dollar(dollar) + "_" + CSharpStripper.LineFeeds(Newlines(text)) + CSharpStripper.StripCSharp(rest)
  {
    var t := Quotes(n) + text + Quotes(n);
    assert t[0] == '"';
    hide CSharpStripper.StripCSharp, CSharpStripper.PartHead, CSharpStripper.LineFeeds, Newlines, Dollar, RawText, Quotes;
    RawPart(n, text, rest);
    DollarParted(dollar, t, rest, CSharpStripper.Block(t));
    RawLeaves(n, text);
    hide CSharpStripper.Part.Emit, CSharpStripper.Part.Text;
    DollarRaw(dollar, Quotes(n), text);
    Assoc(Dollar(dollar), "_", CSharpStripper.LineFeeds(Newlines(text)));
  }

  /** Code stays, an ordinary literal becomes an underscore, and comments and the literals that run over
      several lines leave their line feeds. */
  lemma {:induction false} FileStripsInCSharp(es: seq<Element>, tail: string)
    requires Separated(es, tail) && forall k :: 0 <= k < |es| ==> !es[k].Backtick?
    ensures CSharpStripper.StripCSharp(Written(es) + tail) == AllLeftInCSharp(es) + CSharpStripper.StripCSharp(tail)
  {
    hide ElementText, IsElement, EndsBefore, LeftInCSharp, CSharpStripper.StripCSharp;
    if es == [] {
      assert "" + tail == tail && "" + CSharpStripper.StripCSharp(tail) == CSharpStripper.StripCSharp(tail);
    } else {
      ElementStripsInCSharp(es[0], Written(es[1..]) + tail);
      FileStripsInCSharp(es[1..], tail);
      WrittenCons(es, tail);
      Assoc(LeftInCSharp(es[0]), AllLeftInCSharp(es[1..]), CSharpStripper.StripCSharp(tail));
    }
  }
}
