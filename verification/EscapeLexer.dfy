/** What the escape gate and the escape repair both see of a source file: a lossless token stream.
    Both loops of fix_quality_gate.go are proved against it in EscapeGate.dfy. */
module EscapeLexer {
  import opened Text
  import opened Literals

  datatype Language = Java | CSharp

  /** What may follow a backslash: JLS section 3.10.7, octal digits included, and ECMA-334
      sections 6.4.5.5 and 6.4.5.6. */
  predicate IsEscapeLead(lang: Language, c: char) {
    match lang
    case Java =>
      || c == 'b' || c == 's' || c == 't' || c == 'n' || c == 'f' || c == 'r'
      || c == '"' || c == '\'' || c == '\\' || c == 'u' || '0' <= c <= '7'
    case CSharp =>
      || c == '\'' || c == '"' || c == '\\' || c == '0' || c == 'a' || c == 'b' || c == 'f'
      || c == 'n' || c == 'r' || c == 't' || c == 'v' || c == 'u' || c == 'U' || c == 'x'
  }

  /** One position inside an ordinary literal. */
  datatype Unit = Raw(c: char) | Escape(c: char)

  datatype Token =
    | Code(c: char)
    | Copied(text: string)                          // a comment, or a literal that is not modelled
    | Literal(quote: char, body: seq<Unit>)         // closed on its own line
    | Unclosed(quote: char, body: seq<Unit>, rest: string)  // the scan lost its place here
    | Unlexed(rest: string)                         // a comment with no end
  {
    predicate LostSync() { Unclosed? || Unlexed? }

    function Text(): string {
      match this
      case Code(c) => [c]
      case Copied(text) => text
      case Literal(quote, body) => [quote] + UnitsText(body) + [quote]
      case Unclosed(quote, body, rest) => [quote] + UnitsText(body) + rest
      case Unlexed(rest) => rest
    }

    function Body(): seq<Unit> { if Literal? || Unclosed? then body else [] }
  }

  function UnitText(u: Unit): string { if u.Raw? then [u.c] else ['\\', u.c] }

  function UnitsText(us: seq<Unit>): string {
    if us == [] then "" else UnitText(us[0]) + UnitsText(us[1..])
  }

  function TextOf(ts: seq<Token>): string {
    if ts == [] then "" else ts[0].Text() + TextOf(ts[1..])
  }

  lemma {:induction false} TextOfConcat(a: seq<Token>, b: seq<Token>)
    ensures TextOf(a + b) == TextOf(a) + TextOf(b)
  {
    if a == [] {
      assert a + b == b;
    } else {
      assert (a + b)[1..] == a[1..] + b;
      TextOfConcat(a[1..], b);
    }
  }

  lemma {:induction false} UnitsTextConcat(a: seq<Unit>, b: seq<Unit>)
    ensures UnitsText(a + b) == UnitsText(a) + UnitsText(b)
  {
    if a == [] {
      assert a + b == b;
    } else {
      assert (a + b)[1..] == a[1..] + b;
      UnitsTextConcat(a[1..], b);
    }
  }

  /** What can stand inside a literal opened by `quote`. */
  predicate WellFormedUnit(u: Unit, quote: char) {
    if u.Raw? then u.c != quote && u.c != '\\' && u.c != '\n' else u.c != '\n' && u.c != '\r'
  }

  predicate WellFormed(us: seq<Unit>, quote: char) {
    forall k :: 0 <= k < |us| ==> WellFormedUnit(us[k], quote)
  }

  lemma UnitRead(quote: char, s: string, u: Unit, us: seq<Unit>, closed: bool)
    requires UnitText(u) <= s && UnitsText(us) + (if closed then [quote] else "") <= s[|UnitText(u)|..]
    ensures UnitsText([u] + us) + (if closed then [quote] else "") <= s
    ensures WellFormedUnit(u, quote) && WellFormed(us, quote) ==> WellFormed([u] + us, quote)
  {
    assert ([u] + us)[1..] == us;
    hide WellFormedUnit, UnitText, UnitsText;
    assert UnitsText([u] + us) == UnitText(u) + UnitsText(us) by { UnitsCons(u, us); }
    assert s == UnitText(u) + s[|UnitText(u)|..];
  }

  lemma UnitsCons(u: Unit, us: seq<Unit>)
    ensures UnitsText([u] + us) == UnitText(u) + UnitsText(us)
  {
    assert ([u] + us)[1..] == us;
  }

  /** The units after an opening quote, and whether the literal closes before a line feed, a
      backslash with nothing usable after it, or the end of input. */
  function ScanBody(quote: char, s: string): (r: (seq<Unit>, bool))
    ensures UnitsText(r.0) + (if r.1 then [quote] else "") <= s
    ensures quote != '\\' ==> WellFormed(r.0, quote)
    decreases |s|
  {
    if s == "" || s[0] == '\n' then ([], false)
    else if s[0] == '\\' then
      if |s| < 2 || s[1] == '\n' || s[1] == '\r' then ([], false)
      else
        var (us, closed) := ScanBody(quote, s[2..]);
        UnitRead(quote, s, Escape(s[1]), us, closed);
        ([Escape(s[1])] + us, closed)
    else if s[0] == quote then ([], true)
    else
      var (us, closed) := ScanBody(quote, s[1..]);
      UnitRead(quote, s, Raw(s[0]), us, closed);
      ([Raw(s[0])] + us, closed)
  }

  predicate IsQuote(c: char) { c == '"' || c == '\'' }

  lemma QuotedText(s: string, body: string, closed: bool)
    requires s != "" && body + (if closed then [s[0]] else "") <= s[1..]
    ensures closed ==> [s[0]] + body + [s[0]] <= s
    ensures [s[0]] + body + s[1 + |body|..] == s
  {
    assert s == [s[0]] + s[1..];
  }

  function QuotedToken(s: string): (t: Token)
    requires s != "" && IsQuote(s[0])
    ensures t.Text() != "" && t.Text() <= s
    ensures t.Literal? || (t.Unclosed? && t.Text() == s)
    ensures SoundToken(t)
  {
    var (us, closed) := ScanBody(s[0], s[1..]);
    QuotedText(s, UnitsText(us), closed);
    if closed then Literal(s[0], us) else Unclosed(s[0], us, s[1 + |UnitsText(us)|..])
  }

  /** The token `s` starts with, when it starts with no unmodelled C# literal. */
  function OrdinaryToken(s: string): (t: Token)
    requires s != ""
    ensures t.Text() != "" && t.Text() <= s
    ensures t.LostSync() ==> t.Text() == s
    ensures SoundToken(t)
    ensures t.Code? ==> !IsQuote(t.c)
  {
    if StartsWith(s, '/', '/') then
      (match LineCommentLen(s) case Some(n) => Copied(s[..n]) case None => Unlexed(s))
    else if StartsWith(s, '/', '*') then
      (match BlockCommentLen(s) case Some(n) => Copied(s[..n]) case None => Unlexed(s))
    else if IsQuote(s[0]) then QuotedToken(s)
    else Code(s[0])
  }

  /** The token `s` starts with. */
  function NextToken(lang: Language, s: string): (t: Token)
    requires s != ""
    ensures t.Text() != "" && t.Text() <= s
    ensures t.LostSync() ==> t.Text() == s
    ensures SoundToken(t)
    ensures t.Code? ==> !IsQuote(t.c)
  {
    if lang.CSharp? && UnmodelledLen(s).Some? then Copied(s[..UnmodelledLen(s).value]) else OrdinaryToken(s)
  }

  predicate SoundToken(t: Token) {
    t.Literal? || t.Unclosed? ==> IsQuote(t.quote) && WellFormed(t.body, t.quote)
  }

  predicate Sound(ts: seq<Token>) { forall k :: 0 <= k < |ts| ==> SoundToken(ts[k]) }

  /** The whole file.  Nothing is lost: the texts of the tokens add up to the source. */
  function Lex(lang: Language, s: string): (ts: seq<Token>)
    ensures TextOf(ts) == s
    ensures Sound(ts)
    decreases |s|
  {
    if s == "" then []
    else
      var t := NextToken(lang, s);
      var ts := Lex(lang, s[|t.Text()|..]);
      assert ([t] + ts)[1..] == ts;
      [t] + ts
  }

  /** The scan stayed in sync up to the end of the file. */
  predicate Complete(ts: seq<Token>) {
    forall k :: 0 <= k < |ts| ==> !ts[k].LostSync()
  }

  /** Reading back the text of a well-formed body gives the body: a literal's units are not guessed. */
  lemma {:induction false} ScanBodyRoundTrip(quote: char, us: seq<Unit>, tail: string)
    requires IsQuote(quote) && WellFormed(us, quote)
    ensures ScanBody(quote, UnitsText(us) + [quote] + tail) == (us, true)
  {
    hide ScanBody, UnitText;
    var s := UnitsText(us) + [quote] + tail;
    if us == [] {
      ClosesAtOnce(quote, s);
    } else {
      assert WellFormedUnit(us[0], quote);
      var rest := UnitsText(us[1..]) + [quote] + tail;
      assert s == UnitText(us[0]) + rest;
      ScanBodyRoundTrip(quote, us[1..], tail);
      ScanUnit(quote, us[0], rest);
      assert us == [us[0]] + us[1..];
    }
  }

  lemma ClosesAtOnce(quote: char, s: string)
    requires IsQuote(quote) && s != "" && s[0] == quote
    ensures ScanBody(quote, s) == ([], true)
  {
  }

  lemma ScanUnit(quote: char, u: Unit, rest: string)
    requires IsQuote(quote) && WellFormedUnit(u, quote)
    ensures ScanBody(quote, UnitText(u) + rest) == var r := ScanBody(quote, rest); ([u] + r.0, r.1)
  {
    var s := UnitText(u) + rest;
    assert s[|UnitText(u)|..] == rest;
  }
}
