/** A source file as it is written: code, comments and the literal forms the scanners of this project
    tell apart, and how far each of them is read when more text follows. */
module SourceElements {
  import opened Text
  import opened Literals
  import opened EscapeLexer

  datatype Element =
    | Byte(c: char)
    | Line(text: string)                          // a line comment with its line feed
    | Comment(text: string)                       // a block comment, without its delimiters
    | Quoted(dollar: bool, body: seq<Unit>)       // `"…"` or `$"…"`
    | Char(body: seq<Unit>)                       // `'…'`
    | Verbatim(prefix: string, text: string)      // `@"…"`, `$@"…"` or `@$"…"`, quotes doubled inside
    | RawStr(dollar: bool, n: nat, text: string)  // between `n` quotes
    | Backtick(text: string)                      // Go's raw string

  // ----- how they are written

  function Dollar(dollar: bool): string { if dollar then "$" else "" }

  /** A verbatim string's text as it is written: each quote twice. */
  function Doubled(text: string): string {
    if text == "" then "" else (if text[0] == '"' then "\"\"" else [text[0]]) + Doubled(text[1..])
  }

  function Between(quote: char, body: seq<Unit>): string { [quote] + UnitsText(body) + [quote] }

  function ElementText(e: Element): string {
    match e
    case Byte(c) => [c]
    case Line(text) => "//" + text + "\n"
    case Comment(text) => "/*" + text + "*/"
    case Quoted(dollar, body) => Dollar(dollar) + Between('"', body)
    case Char(body) => Between('\'', body)
    case Verbatim(prefix, text) => prefix + "\"" + Doubled(text) + "\""
    case RawStr(dollar, n, text) => Dollar(dollar) + Quotes(n) + text + Quotes(n)
    case Backtick(text) => "`" + text + "`"
  }

  function Written(es: seq<Element>): string {
    if es == [] then "" else ElementText(es[0]) + Written(es[1..])
  }

  // ----- which of them there are, and what may follow them

  predicate StartsWithByte(s: string, c: char) { s != "" && s[0] == c }

  predicate Separate(text: string, sub: string) { forall k :: 0 <= k < |text| ==> !OccursAt(text, sub, k) }

  lemma NoneFound(text: string, sub: string)
    requires sub != "" && Separate(text, sub)
    ensures Index(text, sub) < 0
  {
    forall k: nat ensures !OccursAt(text, sub, k) {
      assert k < |text| ==> !OccursAt(text, sub, k);
    }
  }

  /** A comment with no end. */
  predicate OpenComment(s: string) {
    (StartsWith(s, '/', '/') && '\n' !in s) || (StartsWith(s, '/', '*') && Separate(s[2..], "*/"))
  }

  lemma OpenCommentLen(s: string)
    requires OpenComment(s)
    ensures StartsWith(s, '/', '/') ==> LineCommentLen(s).None?
    ensures StartsWith(s, '/', '*') ==> BlockCommentLen(s).None?
  {
    hide Index, OccursAt;
    if StartsWith(s, '/', '*') {
      NoneFound(s[2..], "*/");
    }
  }

  /** A raw string's text neither starts nor ends with a quote and holds no `n` of them in a row. */
  predicate RawText(n: nat, text: string) {
    n >= 3 && text != "" && text[0] != '"' && text[|text| - 1] != '"' && Separate(text, Quotes(n))
  }

  predicate IsElement(e: Element) {
    match e
    case Byte(c) => !IsQuote(c)
    case Line(text) => '\n' !in text
    case Comment(text) => Separate(text, "*/")
    case Quoted(_, body) => WellFormed(body, '"')
    case Char(body) => WellFormed(body, '\'')
    case Verbatim(prefix, _) => prefix == "@" || prefix == "$@" || prefix == "@$"
    case RawStr(_, n, text) => RawText(n, text)
    case Backtick(text) => '`' !in text
  }

  /** No comment and no prefixed literal starts at a byte of code. */
  predicate OnlyAByte(c: char, rest: string) {
    && (c == '/' ==> !StartsWithByte(rest, '/') && !StartsWithByte(rest, '*'))
    && (c == '$' ==> !StartsWithByte(rest, '"') && !StartsWith(rest, '@', '"'))
    && (c == '@' ==> !StartsWithByte(rest, '"') && !StartsWith(rest, '$', '"'))
  }

  /** What follows does not change where the element ends. */
  predicate EndsBefore(e: Element, rest: string) {
    match e
    case Byte(c) => OnlyAByte(c, rest)
    case Quoted(_, body) => body == [] ==> !StartsWithByte(rest, '"')
    case Verbatim(_, _) => !StartsWithByte(rest, '"')
    case RawStr(_, _, _) => !StartsWithByte(rest, '"')
    case _ => true
  }

  /** Elements each of which ends where it does, though the next one and then `tail` follow. */
  predicate Separated(es: seq<Element>, tail: string) {
    es != [] ==> IsElement(es[0]) && EndsBefore(es[0], Written(es[1..]) + tail) && Separated(es[1..], tail)
  }

  lemma WrittenCons(es: seq<Element>, tail: string)
    requires es != []
    ensures Written(es) + tail == ElementText(es[0]) + (Written(es[1..]) + tail)
  {
    hide ElementText;
  }

  lemma NoMore(s: string)
    ensures s + "" == s
  {
  }

  lemma {:induction false} WrittenConcat(a: seq<Element>, b: seq<Element>)
    ensures Written(a + b) == Written(a) + Written(b)
  {
    hide ElementText;
    if a == [] {
      assert a + b == b;
    } else {
      assert (a + b)[1..] == a[1..] + b;
      WrittenConcat(a[1..], b);
    }
  }

  // ----- how far the literal scans read

  lemma NoPrefixedLiteral(c: char, rest: string)
    requires OnlyAByte(c, rest) && IsPrefixByte(c)
    ensures StringLiteralLen([c] + rest, true).None?
  {
    var s := [c] + rest;
    assert |s| > 1 ==> s[1] == rest[0];
    assert |s| > 2 ==> s[2] == rest[1];
  }

  lemma ThreeIsARun(s: string)
    ensures QuoteRun(s) < 3 ==> !StartsRaw(s)
  {
    if StartsRaw(s) {
      assert s[1..][0] == '"' && s[1..][1..][0] == '"';
    }
  }

  lemma Assoc<T>(a: seq<T>, b: seq<T>, c: seq<T>)
    ensures a + b + c == a + (b + c)
  {
  }

  lemma DollarRaw(dollar: bool, q: string, text: string)
    ensures Dollar(dollar) + q + text + q == Dollar(dollar) + (q + text + q)
  {
    hide Dollar;
  }

  lemma Rest(a: string, b: string, c: string)
    ensures (a + b + c)[|a|..] == b + c && (a + (b + c))[|a|..] == b + c && a + b + c == a + (b + c)
  {
  }

  lemma WellFormedTail(body: seq<Unit>, quote: char)
    requires WellFormed(body, quote) && body != []
    ensures WellFormedUnit(body[0], quote) && WellFormed(body[1..], quote)
    ensures UnitsText(body) == UnitText(body[0]) + UnitsText(body[1..])
  {
  }

  lemma {:induction false} QuotedReads(body: seq<Unit>, rest: string)
    requires WellFormed(body, '"')
    ensures QuotedCloseLen(UnitsText(body) + "\"" + rest, false) == |UnitsText(body)| + 1
  {
    var s := UnitsText(body) + "\"" + rest;
    if body == [] {
      assert s[0] == '"';
    } else {
      WellFormedTail(body, '"');
      hide UnitsText, WellFormed;
      var t := UnitsText(body[1..]) + "\"" + rest;
      assert s == UnitText(body[0]) + t;
      assert s[|UnitText(body[0])|..] == t;
      QuotedReads(body[1..], rest);
    }
  }

  lemma DoubledStep(text: string)
    requires text != ""
    ensures Doubled(text) == (if text[0] == '"' then "\"\"" else [text[0]]) + Doubled(text[1..])
  {
  }

  lemma {:induction false} VerbatimReads(text: string, rest: string)
    requires !StartsWithByte(rest, '"')
    ensures QuotedCloseLen(Doubled(text) + "\"" + rest, true) == |Doubled(text)| + 1
  {
    var s := Doubled(text) + "\"" + rest;
    if text == "" {
      assert s[0] == '"' && s[1..] == rest;
    } else {
      DoubledStep(text);
      hide Doubled;
      var t := Doubled(text[1..]) + "\"" + rest;
      var n := if text[0] == '"' then 2 else 1;
      assert s[n..] == t;
      VerbatimReads(text[1..], rest);
    }
  }

  /** The first `n` quotes in a row after a raw string's text are the closing ones. */
  lemma RawCloses(n: nat, text: string, rest: string)
    requires RawText(n, text)
    ensures Index(text + Quotes(n) + rest, Quotes(n)) == |text|
  {
    var s := text + Quotes(n) + rest;
    assert OccursAt(s, Quotes(n), |text|);
    forall k: nat | k < |text| ensures !OccursAt(s, Quotes(n), k) {
      NotYet(n, text, Quotes(n) + rest, k);
      assert s == text + (Quotes(n) + rest);
    }
    hide OccursAt, Quotes;
  }

  lemma NotYet(n: nat, text: string, rest: string, k: nat)
    requires RawText(n, text) && k < |text|
    ensures !OccursAt(text + rest, Quotes(n), k)
  {
    var s := text + rest;
    var i := |text| - 1;
    if k + n <= |text| {
      assert text[k..k + n] == s[k..k + n];
      assert !OccursAt(text, Quotes(n), k);
    } else if k + n <= |s| {
      assert s[k..k + n][i - k] == s[i] != '"';
      assert Quotes(n)[i - k] == '"';
    }
  }

  lemma {:induction false} RunOfQuotes(n: nat, rest: string)
    requires !StartsWithByte(rest, '"')
    ensures QuoteRun(Quotes(n) + rest) == n
  {
    if n == 0 {
      assert Quotes(n) + rest == rest;
    } else {
      assert (Quotes(n) + rest)[1..] == Quotes(n - 1) + rest;
      RunOfQuotes(n - 1, rest);
    }
  }

  lemma RawReads(n: nat, text: string, rest: string)
    requires RawText(n, text) && !StartsWithByte(rest, '"')
    ensures RawCloseLen(text + Quotes(n) + rest, n) == |text| + n
    ensures QuoteRun(Quotes(n) + (text + Quotes(n) + rest)) == n
  {
    hide RawCloseLen, QuoteRun, Quotes, Index, Separate;
    var s := text + Quotes(n) + rest;
    RawCloses(n, text, rest);
    RawClosesAtFirstRun(s, n);
    Rest(text, Quotes(n), rest);
    RunOfQuotes(n, rest);
    assert s[0] == text[0];
    RunOfQuotes(n, s);
  }

  lemma BacktickStarts(text: string, rest: string)
    requires '`' !in text
    ensures Index(text + "`" + rest, "`") == |text|
  {
    var s := text + "`" + rest;
    assert OccursAt(s, "`", |text|);
    forall j: nat | j < |text| ensures !OccursAt(s, "`", j) {
      assert s[j..j + 1][0] == text[j];
    }
  }

  /** The quote a prefix leads to, and what is read from there. */
  lemma AfterPrefix(prefix: string, q: string, javaOrCS: bool)
    requires prefix == "" || (javaOrCS && (prefix == "$" || prefix == "@" || prefix == "$@" || prefix == "@$"))
    requires StartsWithByte(q, '"')
    ensures StringLiteralLen(prefix + q, javaOrCS) ==
            Some(|prefix| + UnprefixedLen(q, prefix != "" && prefix != "$", javaOrCS))
  {
    hide UnprefixedLen;
    PrefixIs(prefix, q);
    hide PrefixLen, IsVerbatim;
    assert (prefix + q)[|prefix|..] == q;
    assert prefix == "" ==> prefix + q == q && IsVerbatim(q, 0) == false by { NoPrefix(q); }
  }

  lemma NoPrefix(q: string)
    ensures !IsVerbatim(q, 0)
  {
  }

  /** The literal forms with an `@`, quotes doubled. */
  lemma VerbatimLength(prefix: string, text: string, rest: string)
    requires prefix == "@" || prefix == "$@" || prefix == "@$"
    requires !StartsWithByte(rest, '"')
    ensures var t := prefix + "\"" + Doubled(text) + "\"";
            StringLiteralLen(t + rest, true) == Some(|t|)
  {
    hide QuotedCloseLen, Doubled, StringLiteralLen;
    var q := "\"" + (Doubled(text) + "\"" + rest);
    assert prefix + "\"" + Doubled(text) + "\"" + rest == prefix + q;
    assert q[1..] == Doubled(text) + "\"" + rest;
    VerbatimReads(text, rest);
    AfterPrefix(prefix, q, true);
  }

  lemma PrefixIs(prefix: string, q: string)
    requires prefix == "" || prefix == "$" || prefix == "@" || prefix == "$@" || prefix == "@$"
    requires StartsWithByte(q, '"')
    ensures PrefixLen(prefix + q) == |prefix|
    ensures IsVerbatim(prefix + q, |prefix|) <==> prefix != "" && prefix != "$"
  {
    var s := prefix + q;
    assert |prefix| == 1 ==> s[1] == q[0];
  }

  /** The literal forms with more than two quotes. */
  lemma RawLength(dollar: bool, n: nat, text: string, rest: string)
    requires RawText(n, text) && !StartsWithByte(rest, '"')
    ensures var t := Dollar(dollar) + Quotes(n) + text + Quotes(n);
            StringLiteralLen(t + rest, true) == Some(|t|)
  {
    hide RawCloseLen, QuoteRun, QuotedCloseLen, Separate, StringLiteralLen;
    var tail := text + Quotes(n) + rest;
    var q := Quotes(n) + tail;
    assert q[0] == '"';
    RawReads(n, text, rest);
    hide Quotes, RawText;
    assert q[n..] == tail;
    AfterPrefix(Dollar(dollar), q, true);
    assert Dollar(dollar) + Quotes(n) + text + Quotes(n) + rest == Dollar(dollar) + q;
  }

  /** An ordinary string. */
  lemma QuotedLength(dollar: bool, body: seq<Unit>, rest: string, javaOrCS: bool)
    requires WellFormed(body, '"') && (dollar ==> javaOrCS) && (body == [] ==> !StartsWithByte(rest, '"'))
    ensures StringLiteralLen(Dollar(dollar) + Between('"', body) + rest, javaOrCS) ==
            Some(|Dollar(dollar) + Between('"', body)|)
  {
    hide QuotedCloseLen, QuoteRun, UnitsText, WellFormed, StringLiteralLen;
    var q := Between('"', body) + rest;
    assert q[1..] == UnitsText(body) + "\"" + rest;
    QuotedReads(body, rest);
    ShortRunOf(body, rest);
    AfterPrefix(Dollar(dollar), q, javaOrCS);
    assert Dollar(dollar) + Between('"', body) + rest == Dollar(dollar) + q;
  }

  lemma ShortRunOf(body: seq<Unit>, rest: string)
    requires WellFormed(body, '"') && (body == [] ==> !StartsWithByte(rest, '"'))
    ensures QuoteRun(Between('"', body) + rest) < 3
  {
    var q := Between('"', body) + rest;
    if body == [] {
      assert q == "\"\"" + rest;
      assert |q| > 2 ==> q[2] == rest[0];
    } else {
      assert WellFormedUnit(body[0], '"');
      assert q[1] == UnitText(body[0])[0] != '"';
    }
  }

  lemma LineReads(text: string, rest: string)
    requires '\n' !in text
    ensures var s := "//" + text + "\n" + rest;
            StartsWith(s, '/', '/') && LineCommentLen(s) == Some(2 + |text|)
  {
    var s := "//" + text + "\n" + rest;
    var t := "//" + text;
    assert OccursAt(s, "\n", |t|);
    forall k: nat | k < |t| ensures !OccursAt(s, "\n", k) {
      assert s[k] == t[k] && s[k..k + 1][0] == s[k];
    }
    assert Index(s, "\n") == |t|;
  }

  lemma CommentReads(text: string, rest: string)
    requires Separate(text, "*/")
    ensures var s := "/*" + text + "*/" + rest;
            StartsWith(s, '/', '*') && BlockCommentLen(s) == Some(2 + |text| + 2)
  {
    var s := "/*" + text + "*/" + rest;
    var t := text + "*/" + rest;
    assert s[2..] == t;
    assert OccursAt(t, "*/", |text|);
    forall k: nat | k < |text| ensures !OccursAt(t, "*/", k) {
      OpenStill(text, rest, k);
    }
    assert Index(t, "*/") == |text|;
  }

  lemma OpenStill(text: string, rest: string, k: nat)
    requires Separate(text, "*/") && k < |text|
    ensures !OccursAt(text + "*/" + rest, "*/", k)
  {
    var t := text + "*/" + rest;
    assert !OccursAt(text, "*/", k);
    if k + 2 <= |text| {
      assert text[k..k + 2] == t[k..k + 2];
    } else {
      assert t[k..k + 2][1] == t[k + 1] == '*';
    }
  }
}
