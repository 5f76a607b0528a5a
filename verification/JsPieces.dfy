/** Where the constructs of a JS or TS file end, told from the text: every file is printed from nested
    pieces and an ending, and the lexer of JsScanner.dfy, which never sees them, answers by the ending. */
module JsPieces {
  import opened Text
  import opened EscapeLexer
  import opened JsScanner
  import Literals

  /** Something that is complete, as it is written. */
  datatype Piece =
    | Byte(c: char)
    | Line(text: string)                        // `//`, the text and a line feed
    | Comment(text: string)                     // the text between the delimiters
    | Str(quote: char, body: seq<Unit>)
    | Tmpl(parts: seq<Part>)
    | Block(code: seq<Piece>)                   // what stands between two braces

  /** What stands in a template: text, or code between `${` and `}`. */
  datatype Part = Chunk(u: Unit) | Hole(code: seq<Piece>)

  /** Something open at this point of the file: a block, or an interpolation and its template. */
  datatype Opened = InBlock(before: seq<Piece>) | InHole(before: seq<Piece>, parts: seq<Part>)

  /** What stops the scan. */
  datatype Ending =
    | Eof
    | OpenLine(text: string)
    | OpenComment(text: string)
    | OpenStr(quote: char, body: seq<Unit>, rest: string)
    | OpenTmpl(parts: seq<Part>, rest: string)
    | LoneSlash(rest: string)                   // a regex, a division or a JSX tag
    | CodeBackslash(rest: string)

  // ----- how they are written

  function PieceText(p: Piece): (t: string)
    ensures t != ""
    decreases p
  {
    match p
    case Byte(c) => [c]
    case Line(text) => "//" + text + "\n"
    case Comment(text) => "/*" + text + "*/"
    case Str(quote, body) => [quote] + UnitsText(body) + [quote]
    case Tmpl(parts) => "`" + PartsText(parts) + "`"
    case Block(code) => "{" + Printed(code) + "}"
  }

  function Printed(js: seq<Piece>): string
    decreases js
  {
    if js == [] then "" else PieceText(js[0]) + Printed(js[1..])
  }

  function PartText(p: Part): (t: string)
    ensures t != ""
    ensures t[0] == '{' ==> p == Chunk(Raw('{'))
    decreases p
  {
    match p
    case Chunk(u) => UnitText(u)
    case Hole(code) => "${" + Printed(code) + "}"
  }

  function PartsText(ps: seq<Part>): string
    decreases ps
  {
    if ps == [] then "" else PartText(ps[0]) + PartsText(ps[1..])
  }

  function OpenedText(os: seq<Opened>): string {
    if os == [] then ""
    else
      var o := os[|os| - 1];
      OpenedText(os[..|os| - 1]) + Printed(o.before) + match o case InBlock(_) => "{" case InHole(_, parts) => "`" + PartsText(parts) + "${"
  }

  function EndText(e: Ending): string {
    match e
    case Eof => ""
    case OpenLine(text) => "//" + text
    case OpenComment(text) => "/*" + text
    case OpenStr(quote, body, rest) => [quote] + UnitsText(body) + rest
    case OpenTmpl(parts, rest) => "`" + PartsText(parts) + rest
    case LoneSlash(rest) => "/" + rest
    case CodeBackslash(rest) => "\\" + rest
  }

  // ----- which of them there are

  /** A byte of code that is nothing else; outside every block a `}` is one. */
  predicate IsByte(c: char, top: bool) {
    c != '/' && c != '\'' && c != '"' && c != '`' && c != '{' && c != '\\' && (c == '}' ==> top)
  }

  /** A backslash takes whatever follows, a line feed too. */
  predicate InStr(quote: char, body: seq<Unit>) {
    forall k :: 0 <= k < |body| && body[k].Raw? ==> body[k].c != quote && body[k].c != '\\' && body[k].c != '\n'
  }

  predicate NoClose(text: string) { forall k :: 0 <= k < |text| ==> !OccursAt(text, "*/", k) }

  predicate LegalPiece(p: Piece, top: bool)
    decreases p
  {
    match p
    case Byte(c) => IsByte(c, top)
    case Line(text) => '\n' !in text
    case Comment(text) => NoClose(text)
    case Str(quote, body) => IsQuote(quote) && InStr(quote, body)
    case Tmpl(parts) => LegalParts(parts)
    case Block(code) => Legal(code, false)
  }

  predicate Legal(js: seq<Piece>, top: bool)
    decreases js
  {
    js != [] ==> LegalPiece(js[0], top) && Legal(js[1..], top)
  }

  predicate LegalPart(p: Part)
    decreases p
  {
    match p
    case Chunk(u) => u.Raw? ==> u.c != '`' && u.c != '\\'
    case Hole(code) => Legal(code, false)
  }

  /** A dollar sign and a brace in the text would be an interpolation. */
  predicate Glues(p: Part, q: Part) { p == Chunk(Raw('$')) && q == Chunk(Raw('{')) }

  predicate LegalParts(ps: seq<Part>)
    decreases ps
  {
    ps != [] ==> LegalPart(ps[0]) && LegalParts(ps[1..]) && (|ps| > 1 ==> !Glues(ps[0], ps[1]))
  }

  predicate LegalOpened(os: seq<Opened>) {
    os != [] ==>
      var below := os[..|os| - 1];
      var o := os[|os| - 1];
      LegalOpened(below) && Legal(o.before, below == []) && (o.InHole? ==> LegalParts(o.parts))
  }

  predicate LegalEnding(e: Ending) {
    match e
    case Eof => true
    case OpenLine(text) => '\n' !in text
    case OpenComment(text) => NoClose(text)
    case OpenStr(quote, body, rest) => IsQuote(quote) && InStr(quote, body) && (rest == "" || rest == "\\" || rest[0] == '\n')
    case OpenTmpl(parts, rest) => LegalParts(parts) && (rest == "" || rest == "\\")
    case LoneSlash(rest) => rest == "" || (rest[0] != '/' && rest[0] != '*')
    case CodeBackslash(_) => true
  }

  /** Open blocks and interpolations, a piece of code in the innermost of them, and what stops the scan. */
  ghost predicate Reads(s: string, os: seq<Opened>, js: seq<Piece>, e: Ending) {
    && LegalOpened(os) && Legal(js, os == []) && LegalEnding(e)
    && s == OpenedText(os) + Printed(js) + EndText(e)
  }

  // ----- the lexer on a piece

  lemma Halves(s: string, a: string, b: string, i: nat)
    requires OccursAt(s, a + b, i)
    ensures OccursAt(s, a, i) && OccursAt(s, b, i + |a|)
  {
    assert s[i..i + |a|] == (a + b)[..|a|] == a;
    assert s[i + |a|..i + |a| + |b|] == (a + b)[|a|..] == b;
  }

  lemma Joined(s: string, a: string, b: string, i: nat)
    requires OccursAt(s, a, i) && OccursAt(s, b, i + |a|)
    ensures OccursAt(s, a + b, i)
  {
    assert s[i..i + |a + b|] == s[i..i + |a|] + s[i + |a|..i + |a| + |b|];
  }

  lemma ByteAt(s: string, c: char, i: nat)
    requires OccursAt(s, [c], i)
    ensures i < |s| && s[i] == c
  {
    assert s[i..i + 1][0] == s[i];
  }

  lemma {:induction false} LineReads(s: string, text: string, i: nat, stack: seq<Frame>)
    requires OccursAt(s, text, i) && '\n' !in text
    ensures Lexed(s, i, LineComment, stack) == Lexed(s, i + |text|, LineComment, stack)
    decreases |text|
  {
    if text != "" {
      assert text == [text[0]] + text[1..];
      Halves(s, [text[0]], text[1..], i);
      ByteAt(s, text[0], i);
      LineReads(s, text[1..], i + 1, stack);
    }
  }

  lemma {:induction false} CommentReads(s: string, text: string, i: nat, stack: seq<Frame>)
    requires OccursAt(s, text, i) && NoClose(text)
    requires i + |text| < |s| ==> text == "" || text[|text| - 1] != '*' || s[i + |text|] != '/'
    ensures Lexed(s, i, BlockComment, stack) == Lexed(s, i + |text|, BlockComment, stack)
    decreases |text|
  {
    if text != "" {
      assert text == [text[0]] + text[1..];
      Halves(s, [text[0]], text[1..], i);
      ByteAt(s, text[0], i);
      forall k | 0 <= k < |text| - 1 ensures !OccursAt(text[1..], "*/", k) {
        OccursInTail(text, "*/", k);
        assert !OccursAt(text, "*/", k + 1);
      }
      CommentReads(s, text[1..], i + 1, stack);
      if |text| > 1 && text[0] == '*' {
        assert !OccursAt(text, "*/", 0);
        assert text[0..2] == [text[0], text[1]];
        assert s[i + 1] == s[i..i + |text|][1];
      }
    }
  }

  lemma {:induction false} StrReads(s: string, quote: char, body: seq<Unit>, i: nat, stack: seq<Frame>)
    requires IsQuote(quote) && InStr(quote, body) && OccursAt(s, UnitsText(body), i)
    ensures Lexed(s, i, Quoted(quote), stack) == Lexed(s, i + |UnitsText(body)|, Quoted(quote), stack)
    decreases |body|
  {
    hide Lexed;
    if body != [] {
      Halves(s, UnitText(body[0]), UnitsText(body[1..]), i);
      StrUnitReads(s, quote, body[0], i, stack);
      StrReads(s, quote, body[1..], i + |UnitText(body[0])|, stack);
    }
  }

  lemma StrUnitReads(s: string, quote: char, u: Unit, i: nat, stack: seq<Frame>)
    requires IsQuote(quote) && InStr(quote, [u]) && OccursAt(s, UnitText(u), i)
    ensures Lexed(s, i, Quoted(quote), stack) == Lexed(s, i + |UnitText(u)|, Quoted(quote), stack)
  {
    assert [u][0] == u;
    assert s[i] == s[i..i + |UnitText(u)|][0];
  }

  lemma {:induction false} CodeReads(s: string, js: seq<Piece>, i: nat, stack: seq<Frame>)
    requires Legal(js, stack == []) && !InTemplate(stack) && OccursAt(s, Printed(js), i)
    ensures Lexed(s, i, Plain, stack) == Lexed(s, i + |Printed(js)|, Plain, stack)
    decreases js, 0
  {
    hide Lexed, PieceText, LegalPiece, OccursAt, InTemplate;
    if js != [] {
      Halves(s, PieceText(js[0]), Printed(js[1..]), i);
      PieceReads(s, js[0], i, stack);
      CodeReads(s, js[1..], i + |PieceText(js[0])|, stack);
    }
  }

  lemma {:induction false} PieceReads(s: string, p: Piece, i: nat, stack: seq<Frame>)
    requires LegalPiece(p, stack == []) && !InTemplate(stack) && OccursAt(s, PieceText(p), i)
    ensures Lexed(s, i, Plain, stack) == Lexed(s, i + |PieceText(p)|, Plain, stack)
    decreases p
  {
    hide Lexed, OccursAt, Printed, PartsText, UnitsText, InTemplate, Legal, LegalParts, InStr, NoClose;
    match p
    case Byte(c) =>
      ByteAt(s, c, i);
      ByteStep(s, i, stack);
    case Line(text) => LinePieceReads(s, text, i, stack);
    case Comment(text) => CommentPieceReads(s, text, i, stack);
    case Str(quote, body) => StrPieceReads(s, quote, body, i, stack);
    case Tmpl(parts) => TmplReads(s, parts, i, stack);
    case Block(code) => BlockReads(s, code, i, stack);
  }

  lemma LinePieceReads(s: string, text: string, i: nat, stack: seq<Frame>)
    requires '\n' !in text && !InTemplate(stack) && OccursAt(s, "//" + text + "\n", i)
    ensures Lexed(s, i, Plain, stack) == Lexed(s, i + 2 + |text| + 1, Plain, stack)
  {
    hide Lexed, OccursAt, InTemplate;
    Halves(s, "//" + text, "\n", i);
    Halves(s, "//", text, i);
    LineStep(s, i, stack);
    LineReads(s, text, i + 2, stack);
    ByteAt(s, '\n', i + 2 + |text|);
    LineEndStep(s, i + 2 + |text|, stack);
  }

  lemma CommentPieceReads(s: string, text: string, i: nat, stack: seq<Frame>)
    requires NoClose(text) && !InTemplate(stack) && OccursAt(s, "/*" + text + "*/", i)
    ensures Lexed(s, i, Plain, stack) == Lexed(s, i + 2 + |text| + 2, Plain, stack)
  {
    hide Lexed, OccursAt, InTemplate, NoClose;
    Halves(s, "/*" + text, "*/", i);
    Halves(s, "/*", text, i);
    CommentStep(s, i, stack);
    CommentEnds(s, text, i + 2, stack);
  }

  lemma StrPieceReads(s: string, quote: char, body: seq<Unit>, i: nat, stack: seq<Frame>)
    requires IsQuote(quote) && InStr(quote, body) && !InTemplate(stack)
    requires OccursAt(s, [quote] + UnitsText(body) + [quote], i)
    ensures Lexed(s, i, Plain, stack) == Lexed(s, i + 1 + |UnitsText(body)| + 1, Plain, stack)
  {
    hide Lexed, OccursAt, InTemplate, InStr, UnitsText;
    Halves(s, [quote] + UnitsText(body), [quote], i);
    Halves(s, [quote], UnitsText(body), i);
    ByteAt(s, quote, i);
    StringOpens(s, i, stack);
    StrReads(s, quote, body, i + 1, stack);
    ByteAt(s, quote, i + 1 + |UnitsText(body)|);
    StrEndStep(s, quote, i + 1 + |UnitsText(body)|, stack);
  }

  lemma {:induction false} TmplReads(s: string, parts: seq<Part>, i: nat, stack: seq<Frame>)
    requires LegalParts(parts) && !InTemplate(stack) && OccursAt(s, "`" + PartsText(parts) + "`", i)
    ensures Lexed(s, i, Plain, stack) == Lexed(s, i + 1 + |PartsText(parts)| + 1, Plain, stack)
    decreases parts, 1
  {
    hide Lexed, OccursAt, InTemplate, PartsText, LegalParts;
    Halves(s, "`" + PartsText(parts), "`", i);
    Halves(s, "`", PartsText(parts), i);
    ByteAt(s, '`', i);
    var e := i + 1 + |PartsText(parts)|;
    ByteAt(s, '`', e);
    OpenStep(s, i, stack);
    TmplTop(stack);
    PartsRead(s, parts, i + 1, stack + [Template]);
    TmplEndStep(s, e, stack);
  }

  lemma {:induction false} BlockReads(s: string, code: seq<Piece>, i: nat, stack: seq<Frame>)
    requires Legal(code, false) && !InTemplate(stack) && OccursAt(s, "{" + Printed(code) + "}", i)
    ensures Lexed(s, i, Plain, stack) == Lexed(s, i + 1 + |Printed(code)| + 1, Plain, stack)
    decreases code, 1
  {
    hide Lexed, OccursAt, InTemplate, Printed, Legal;
    Halves(s, "{" + Printed(code), "}", i);
    Halves(s, "{", Printed(code), i);
    ByteAt(s, '{', i);
    var e := i + 1 + |Printed(code)|;
    ByteAt(s, '}', e);
    OpenStep(s, i, stack);
    BlockTop(stack);
    CodeReads(s, code, i + 1, stack + [Brace]);
    CloseStep(s, e, stack, Brace);
  }

  lemma {:induction false} PartsRead(s: string, ps: seq<Part>, i: nat, stack: seq<Frame>)
    requires LegalParts(ps) && InTemplate(stack) && OccursAt(s, PartsText(ps), i)
    requires i + |PartsText(ps)| < |s| ==> s[i + |PartsText(ps)|] != '{'
    ensures Lexed(s, i, Plain, stack) == Lexed(s, i + |PartsText(ps)|, Plain, stack)
    decreases ps, 0
  {
    hide Lexed, PartText, LegalPart, OccursAt, InTemplate;
    if ps != [] {
      Halves(s, PartText(ps[0]), PartsText(ps[1..]), i);
      var j := i + |PartText(ps[0])|;
      NotGlued(s, ps[1..], j);
      PartReads(s, ps[0], i, stack);
      PartsRead(s, ps[1..], j, stack);
    }
  }

  /** The byte at `j` opens nothing with a dollar sign before it. */
  lemma NotGlued(s: string, ps: seq<Part>, j: nat)
    requires OccursAt(s, PartsText(ps), j)
    requires j + |PartsText(ps)| < |s| ==> s[j + |PartsText(ps)|] != '{'
    ensures j < |s| && s[j] == '{' ==> ps != [] && ps[0] == Chunk(Raw('{'))
  {
    hide PartText;
    if ps != [] {
      assert s[j] == s[j..j + |PartsText(ps)|][0];
    }
  }

  lemma {:induction false} PartReads(s: string, p: Part, i: nat, stack: seq<Frame>)
    requires LegalPart(p) && InTemplate(stack) && OccursAt(s, PartText(p), i)
    requires p == Chunk(Raw('$')) && i + |PartText(p)| < |s| ==> s[i + |PartText(p)|] != '{'
    ensures Lexed(s, i, Plain, stack) == Lexed(s, i + |PartText(p)|, Plain, stack)
    decreases p
  {
    hide Lexed, OccursAt, InTemplate, Printed, Legal;
    match p
    case Chunk(u) => ChunkReads(s, u, i, stack);
    case Hole(code) => HoleReads(s, code, i, stack);
  }

  lemma {:induction false} HoleReads(s: string, code: seq<Piece>, i: nat, stack: seq<Frame>)
    requires Legal(code, false) && InTemplate(stack) && OccursAt(s, "${" + Printed(code) + "}", i)
    ensures Lexed(s, i, Plain, stack) == Lexed(s, i + 2 + |Printed(code)| + 1, Plain, stack)
    decreases code, 1
  {
    hide Lexed, OccursAt, InTemplate, Printed, Legal;
    Halves(s, "${" + Printed(code), "}", i);
    Halves(s, "${", Printed(code), i);
    HoleStep(s, i, stack);
    var e := i + 2 + |Printed(code)|;
    ByteAt(s, '}', e);
    HoleTop(stack);
    CodeReads(s, code, i + 2, stack + [Interpolation]);
    CloseStep(s, e, stack, Interpolation);
  }

  // ----- single steps of the lexer

  lemma ByteStep(s: string, i: nat, stack: seq<Frame>)
    requires i < |s| && IsByte(s[i], stack == []) && !InTemplate(stack)
    ensures Lexed(s, i, Plain, stack) == Lexed(s, i + 1, Plain, stack)
  {
  }

  lemma LineStep(s: string, i: nat, stack: seq<Frame>)
    requires !InTemplate(stack) && OccursAt(s, "//", i)
    ensures Lexed(s, i, Plain, stack) == Lexed(s, i + 2, LineComment, stack)
  {
    assert s[i] == s[i..i + 2][0] && s[i + 1] == s[i..i + 2][1];
  }

  lemma CommentStep(s: string, i: nat, stack: seq<Frame>)
    requires !InTemplate(stack) && OccursAt(s, "/*", i)
    ensures Lexed(s, i, Plain, stack) == Lexed(s, i + 2, BlockComment, stack)
  {
    assert s[i] == s[i..i + 2][0] && s[i + 1] == s[i..i + 2][1];
  }

  lemma LineEndStep(s: string, i: nat, stack: seq<Frame>)
    requires i < |s| && s[i] == '\n'
    ensures Lexed(s, i, LineComment, stack) == Lexed(s, i + 1, Plain, stack)
  {
  }

  lemma CommentEnds(s: string, text: string, i: nat, stack: seq<Frame>)
    requires NoClose(text) && OccursAt(s, text, i) && OccursAt(s, "*/", i + |text|)
    ensures Lexed(s, i, BlockComment, stack) == Lexed(s, i + |text| + 2, Plain, stack)
  {
    var e := i + |text|;
    assert s[e] == s[e..e + 2][0] && s[e + 1] == s[e..e + 2][1];
    hide OccursAt, NoClose;
    CommentReads(s, text, i, stack);
  }

  lemma StrEndStep(s: string, quote: char, i: nat, stack: seq<Frame>)
    requires IsQuote(quote) && i < |s| && s[i] == quote
    ensures Lexed(s, i, Quoted(quote), stack) == Lexed(s, i + 1, Plain, stack)
  {
  }

  lemma OpenStep(s: string, i: nat, stack: seq<Frame>)
    requires i < |s| && (s[i] == '`' || s[i] == '{') && !InTemplate(stack)
    ensures Lexed(s, i, Plain, stack) ==
            Lexed(s, i + 1, Plain, stack + [if s[i] == '`' then Template else Brace])
  {
  }

  lemma TmplTop(stack: seq<Frame>)
    ensures InTemplate(stack + [Template])
  {
  }

  lemma BlockTop(stack: seq<Frame>)
    ensures !InTemplate(stack + [Brace]) && stack + [Brace] != []
  {
  }

  lemma HoleTop(stack: seq<Frame>)
    ensures !InTemplate(stack + [Interpolation]) && stack + [Interpolation] != []
  {
  }

  lemma TmplEndStep(s: string, i: nat, stack: seq<Frame>)
    requires i < |s| && s[i] == '`'
    ensures Lexed(s, i, Plain, stack + [Template]) == Lexed(s, i + 1, Plain, stack)
  {
    assert Pop(stack + [Template]) == stack;
  }

  /** The `}` of a block or of an interpolation. */
  lemma CloseStep(s: string, i: nat, stack: seq<Frame>, f: Frame)
    requires i < |s| && s[i] == '}' && f != Template
    ensures Lexed(s, i, Plain, stack + [f]) == Lexed(s, i + 1, Plain, stack)
  {
    assert Pop(stack + [f]) == stack;
  }

  lemma HoleStep(s: string, i: nat, stack: seq<Frame>)
    requires OccursAt(s, "${", i) && InTemplate(stack)
    ensures Lexed(s, i, Plain, stack) == Lexed(s, i + 2, Plain, stack + [Interpolation])
  {
    assert s[i] == s[i..i + 2][0] && s[i + 1] == s[i..i + 2][1];
  }

  lemma ChunkReads(s: string, u: Unit, i: nat, stack: seq<Frame>)
    requires (u.Raw? ==> u.c != '`' && u.c != '\\') && InTemplate(stack) && OccursAt(s, UnitText(u), i)
    requires u == Raw('$') && i + 1 < |s| ==> s[i + 1] != '{'
    ensures Lexed(s, i, Plain, stack) == Lexed(s, i + |UnitText(u)|, Plain, stack)
  {
    assert s[i] == s[i..i + |UnitText(u)|][0];
  }

  // ----- what is open

  function Frames(os: seq<Opened>): seq<Frame> {
    if os == [] then []
    else Frames(os[..|os| - 1]) + if os[|os| - 1].InBlock? then [Brace] else [Template, Interpolation]
  }

  lemma {:induction false} OpenedReads(s: string, os: seq<Opened>)
    requires LegalOpened(os) && OccursAt(s, OpenedText(os), 0)
    ensures !InTemplate(Frames(os)) && (Frames(os) == [] <==> os == [])
    ensures Lexed(s, 0, Plain, []) == Lexed(s, |OpenedText(os)|, Plain, Frames(os))
    decreases |os|
  {
    hide Lexed, OccursAt, Printed, PartsText, Legal, LegalParts;
    if os != [] {
      var below, o := os[..|os| - 1], os[|os| - 1];
      var a, b, stack := OpenedText(below), Printed(o.before), Frames(below);
      if o.InBlock? {
        Halves(s, a + b, "{", 0);
      } else {
        Halves(s, a + b, "`" + PartsText(o.parts) + "${", 0);
      }
      Halves(s, a, b, 0);
      OpenedReads(s, below);
      CodeReads(s, o.before, |a|, stack);
      var i := |a| + |b|;
      if o.InBlock? {
        ByteAt(s, '{', i);
        OpenStep(s, i, stack);
        BlockTop(stack);
      } else {
        HoleOpens(s, o.parts, i, stack);
      }
    }
  }

  lemma HoleOpens(s: string, parts: seq<Part>, i: nat, stack: seq<Frame>)
    requires LegalParts(parts) && !InTemplate(stack) && OccursAt(s, "`" + PartsText(parts) + "${", i)
    ensures var e := i + 1 + |PartsText(parts)| + 2;
            && e <= |s| && !InTemplate(stack + [Template, Interpolation])
            && Lexed(s, i, Plain, stack) == Lexed(s, e, Plain, stack + [Template, Interpolation])
  {
    hide Lexed, PartsText, LegalParts;
    Halves(s, "`" + PartsText(parts), "${", i);
    Halves(s, "`", PartsText(parts), i);
    ByteAt(s, '`', i);
    OpenStep(s, i, stack);
    var e := i + 1 + |PartsText(parts)|;
    assert s[e] == s[e..e + 2][0];
    PartsRead(s, parts, i + 1, stack + [Template]);
    HoleStep(s, e, stack + [Template]);
    assert stack + [Template] + [Interpolation] == stack + [Template, Interpolation];
  }

  // ----- what stops the scan

  function Answer(e: Ending, at: nat): Outcome {
    match e
    case Eof => Clean
    case OpenLine(_) => Clean
    case CodeBackslash(_) => Stray(at)
    case _ => Declined
  }

  lemma EndingReads(s: string, e: Ending, i: nat, stack: seq<Frame>)
    requires LegalEnding(e) && !InTemplate(stack) && i + |EndText(e)| == |s| && OccursAt(s, EndText(e), i)
    ensures Lexed(s, i, Plain, stack) == Answer(e, i)
  {
    hide Lexed, OccursAt, UnitsText, PartsText, InStr, LegalParts, NoClose, InTemplate;
    match e
    case Eof => NothingLeft(s, stack);
    case OpenLine(text) =>
      Halves(s, "//", text, i);
      LineStep(s, i, stack);
      LineReads(s, text, i + 2, stack);
      NothingLeft(s, stack);
    case OpenComment(text) =>
      Halves(s, "/*", text, i);
      CommentStep(s, i, stack);
      CommentReads(s, text, i + 2, stack);
      NothingLeft(s, stack);
    case OpenStr(quote, body, rest) => OpenStrReads(s, quote, body, rest, i, stack);
    case OpenTmpl(parts, rest) => OpenTmplReads(s, parts, rest, i, stack);
    case LoneSlash(rest) => LoneSlashReads(s, rest, i, stack);
    case CodeBackslash(rest) =>
      Halves(s, "\\", rest, i);
      ByteAt(s, '\\', i);
      BackslashStrays(s, i, stack);
  }

  lemma NothingLeft(s: string, stack: seq<Frame>)
    ensures Lexed(s, |s|, LineComment, stack) == Clean && Lexed(s, |s|, BlockComment, stack) == Declined
    ensures !InTemplate(stack) ==> Lexed(s, |s|, Plain, stack) == Clean
  {
  }

  lemma LoneSlashReads(s: string, rest: string, i: nat, stack: seq<Frame>)
    requires (rest == "" || (rest[0] != '/' && rest[0] != '*')) && !InTemplate(stack)
    requires OccursAt(s, "/" + rest, i) && i + 1 + |rest| == |s|
    ensures Lexed(s, i, Plain, stack) == Declined
  {
    Halves(s, "/", rest, i);
    ByteAt(s, '/', i);
    assert rest != "" ==> s[i + 1] == s[i + 1..i + 1 + |rest|][0];
  }

  lemma NoStrEnd(s: string, i: nat, quote: char, stack: seq<Frame>)
    requires i <= |s| && (i == |s| || s[i] == '\n' || (s[i] == '\\' && i + 1 == |s|))
    ensures Lexed(s, i, Quoted(quote), stack) == Declined
  {
  }

  lemma NoTmplEnd(s: string, i: nat, stack: seq<Frame>)
    requires i <= |s| && (i == |s| || (s[i] == '\\' && i + 1 == |s|)) && InTemplate(stack)
    ensures Lexed(s, i, Plain, stack) == Declined
  {
  }

  lemma OpenStrReads(s: string, quote: char, body: seq<Unit>, rest: string, i: nat, stack: seq<Frame>)
    requires IsQuote(quote) && InStr(quote, body) && (rest == "" || rest == "\\" || rest[0] == '\n') && !InTemplate(stack)
    requires OccursAt(s, [quote] + UnitsText(body) + rest, i) && i + 1 + |UnitsText(body)| + |rest| == |s|
    ensures Lexed(s, i, Plain, stack) == Declined
  {
    Halves(s, [quote] + UnitsText(body), rest, i);
    Halves(s, [quote], UnitsText(body), i);
    ByteAt(s, quote, i);
    var e := i + 1 + |UnitsText(body)|;
    assert rest != "" ==> s[e] == s[e..e + |rest|][0];
    hide OccursAt, UnitsText, InStr, Lexed;
    NoStrEnd(s, e, quote, stack);
    StringOpens(s, i, stack);
    StrReads(s, quote, body, i + 1, stack);
  }

  lemma OpenTmplReads(s: string, parts: seq<Part>, rest: string, i: nat, stack: seq<Frame>)
    requires LegalParts(parts) && (rest == "" || rest == "\\") && !InTemplate(stack)
    requires OccursAt(s, "`" + PartsText(parts) + rest, i) && i + 1 + |PartsText(parts)| + |rest| == |s|
    ensures Lexed(s, i, Plain, stack) == Declined
  {
    Halves(s, "`" + PartsText(parts), rest, i);
    Halves(s, "`", PartsText(parts), i);
    ByteAt(s, '`', i);
    var e := i + 1 + |PartsText(parts)|;
    assert rest != "" ==> s[e] == s[e..e + |rest|][0];
    TmplTop(stack);
    hide OccursAt, PartsText, LegalParts, Lexed, InTemplate;
    NoTmplEnd(s, e, stack + [Template]);
    OpenStep(s, i, stack);
    PartsRead(s, parts, i + 1, stack + [Template]);
  }

  /** The lexer's answer is the ending's: a backslash where a piece of code could start is reported at
      its offset, the end of the file after complete pieces or in a line comment gives none, and
      anything else left open, or a slash that opens no comment, makes it decline. */
  lemma AnswerOfText(s: string, os: seq<Opened>, js: seq<Piece>, e: Ending)
    requires Reads(s, os, js, e)
    ensures Lexed(s, 0, Plain, []) == Answer(e, |OpenedText(os)| + |Printed(js)|)
  {
    hide Lexed, OpenedText, Printed, EndText, Legal, LegalOpened, LegalEnding, OccursAt;
    WholeText(s);
    Halves(s, OpenedText(os) + Printed(js), EndText(e), 0);
    Halves(s, OpenedText(os), Printed(js), 0);
    OpenedReads(s, os);
    CodeReads(s, js, |OpenedText(os)|, Frames(os));
    EndingReads(s, e, |OpenedText(os)| + |Printed(js)|, Frames(os));
  }

  lemma WholeText(s: string)
    ensures OccursAt(s, s, 0)
  {
  }

  // ----- every file reads in some way

  lemma {:induction false} PrintedSnoc(js: seq<Piece>, p: Piece)
    ensures Printed(js + [p]) == Printed(js) + PieceText(p)
  {
    hide PieceText;
    if js == [] {
      assert [] + [p] == [p];
      assert Printed([p]) == PieceText(p) + Printed([p][1..]);
    } else {
      PrintedSnoc(js[1..], p);
      assert (js + [p])[1..] == js[1..] + [p];
    }
  }

  lemma {:induction false} LegalSnoc(js: seq<Piece>, p: Piece, top: bool)
    requires Legal(js, top) && LegalPiece(p, top)
    ensures Legal(js + [p], top)
  {
    hide LegalPiece;
    if js != [] {
      LegalSnoc(js[1..], p, top);
      assert (js + [p])[1..] == js[1..] + [p];
    }
  }

  lemma {:induction false} PartsSnoc(ps: seq<Part>, p: Part)
    ensures PartsText(ps + [p]) == PartsText(ps) + PartText(p)
  {
    hide PartText;
    if ps == [] {
      assert [] + [p] == [p];
      assert PartsText([p]) == PartText(p) + PartsText([p][1..]);
    } else {
      PartsSnoc(ps[1..], p);
      assert (ps + [p])[1..] == ps[1..] + [p];
    }
  }

  lemma {:induction false} LegalPartsSnoc(ps: seq<Part>, p: Part)
    requires LegalParts(ps) && LegalPart(p) && (ps != [] ==> !Glues(ps[|ps| - 1], p))
    ensures LegalParts(ps + [p])
  {
    hide LegalPart;
    if ps != [] {
      LegalPartsSnoc(ps[1..], p);
      assert (ps + [p])[1..] == ps[1..] + [p];
    }
  }

  lemma OpenedSnoc(os: seq<Opened>, o: Opened)
    requires LegalOpened(os) && Legal(o.before, os == []) && (o.InHole? ==> LegalParts(o.parts))
    ensures LegalOpened(os + [o])
    ensures OpenedText(os + [o]) ==
            OpenedText(os) + Printed(o.before) + match o case InBlock(_) => "{" case InHole(_, parts) => "`" + PartsText(parts) + "${"
  {
    assert (os + [o])[..|os|] == os;
  }

  /** The scan has read `s[..i]` and stands in code. */
  ghost predicate CodeUpTo(s: string, i: nat, os: seq<Opened>, js: seq<Piece>) {
    i <= |s| && LegalOpened(os) && Legal(js, os == []) && s[..i] == OpenedText(os) + Printed(js)
  }

  /** The scan has read `s[..i]` and stands in a template that holds `parts` so far. */
  ghost predicate TmplUpTo(s: string, i: nat, os: seq<Opened>, js: seq<Piece>, parts: seq<Part>) {
    && i <= |s| && LegalOpened(os) && Legal(js, os == []) && LegalParts(parts)
    && s[..i] == OpenedText(os) + Printed(js) + "`" + PartsText(parts)
    && (parts != [] && parts[|parts| - 1] == Chunk(Raw('$')) ==> i == |s| || s[i] != '{')
  }

  lemma Further(s: string, i: nat, t: string)
    requires OccursAt(s, t, i)
    ensures s[..i + |t|] == s[..i] + t
  {
    assert s[..i + |t|] == s[..i] + s[i..i + |t|];
  }

  lemma PieceRead(s: string, i: nat, os: seq<Opened>, js: seq<Piece>, p: Piece)
    requires CodeUpTo(s, i, os, js) && LegalPiece(p, os == []) && OccursAt(s, PieceText(p), i)
    ensures CodeUpTo(s, i + |PieceText(p)|, os, js + [p])
  {
    hide PieceText, LegalPiece, Legal, Printed, LegalOpened, OpenedText;
    Further(s, i, PieceText(p));
    PrintedSnoc(js, p);
    LegalSnoc(js, p, os == []);
    assert OpenedText(os) + (Printed(js) + PieceText(p)) == OpenedText(os) + Printed(js) + PieceText(p);
  }

  lemma PartRead(s: string, i: nat, os: seq<Opened>, js: seq<Piece>, parts: seq<Part>, p: Part)
    requires TmplUpTo(s, i, os, js, parts) && LegalPart(p) && OccursAt(s, PartText(p), i)
    requires p == Chunk(Raw('$')) && i + 1 < |s| ==> s[i + 1] != '{'
    ensures TmplUpTo(s, i + |PartText(p)|, os, js, parts + [p])
  {
    hide LegalPart, Legal, Printed, LegalOpened, OpenedText, LegalParts, PartsText, OccursAt;
    Further(s, i, PartText(p));
    PartsSnoc(parts, p);
    GlueRead(s, i, p);
    LegalPartsSnoc(parts, p);
    var a := OpenedText(os) + Printed(js) + "`";
    assert a + (PartsText(parts) + PartText(p)) == a + PartsText(parts) + PartText(p);
  }

  lemma GlueRead(s: string, i: nat, p: Part)
    requires OccursAt(s, PartText(p), i)
    ensures i + |PartText(p)| <= |s| && i < |s| && (p == Chunk(Raw('{')) ==> s[i] == '{')
    ensures p == Chunk(Raw('$')) ==> |PartText(p)| == 1
  {
    assert s[i..i + |PartText(p)|][0] == s[i];
  }

  lemma BlockOpened(s: string, i: nat, os: seq<Opened>, js: seq<Piece>)
    requires CodeUpTo(s, i, os, js) && i < |s| && s[i] == '{'
    ensures CodeUpTo(s, i + 1, os + [InBlock(js)], [])
  {
    hide LegalOpened, OpenedText;
    OpenedSnoc(os, InBlock(js));
    assert s[..i + 1] == s[..i] + "{";
  }

  lemma HoleOpened(s: string, i: nat, os: seq<Opened>, js: seq<Piece>, parts: seq<Part>)
    requires TmplUpTo(s, i, os, js, parts) && OccursAt(s, "${", i)
    ensures CodeUpTo(s, i + 2, os + [InHole(js, parts)], [])
  {
    hide LegalOpened, OpenedText, LegalParts, PartsText;
    OpenedSnoc(os, InHole(js, parts));
    Further(s, i, "${");
    var a := OpenedText(os) + Printed(js);
    assert a + "`" + PartsText(parts) + "${" == a + ("`" + PartsText(parts) + "${");
  }

  lemma TmplOpened(s: string, i: nat, os: seq<Opened>, js: seq<Piece>)
    requires CodeUpTo(s, i, os, js) && i < |s| && s[i] == '`'
    ensures TmplUpTo(s, i + 1, os, js, [])
  {
    assert s[..i + 1] == s[..i] + "`";
  }

  lemma TmplClosed(s: string, i: nat, os: seq<Opened>, js: seq<Piece>, parts: seq<Part>)
    requires TmplUpTo(s, i, os, js, parts) && i < |s| && s[i] == '`'
    ensures CodeUpTo(s, i + 1, os, js + [Tmpl(parts)])
  {
    hide LegalOpened, OpenedText, LegalParts, PartsText, Legal, Printed;
    assert s[..i + 1] == s[..i] + "`";
    PrintedSnoc(js, Tmpl(parts));
    LegalSnoc(js, Tmpl(parts), os == []);
    var a, b := OpenedText(os), Printed(js);
    assert a + b + "`" + PartsText(parts) + "`" == a + (b + ("`" + PartsText(parts) + "`"));
  }

  lemma LastOpened(os: seq<Opened>) returns (below: seq<Opened>, o: Opened)
    requires os != []
    ensures |below| < |os| && below == os[..|os| - 1] && o == os[|os| - 1]
    ensures LegalOpened(os) ==> LegalOpened(below) && Legal(o.before, below == []) && (o.InHole? ==> LegalParts(o.parts))
    ensures OpenedText(os) ==
            OpenedText(below) + Printed(o.before) + match o case InBlock(_) => "{" case InHole(_, parts) => "`" + PartsText(parts) + "${"
  {
    below, o := os[..|os| - 1], os[|os| - 1];
  }

  lemma BlockClosed(s: string, i: nat, os: seq<Opened>, js: seq<Piece>) returns (below: seq<Opened>, before: seq<Piece>)
    requires CodeUpTo(s, i, os, js) && i < |s| && s[i] == '}' && os != [] && os[|os| - 1].InBlock?
    ensures CodeUpTo(s, i + 1, below, before + [Block(js)])
  {
    hide LegalOpened, OpenedText, Legal, Printed;
    var o;
    below, o := LastOpened(os);
    before := o.before;
    assert s[..i + 1] == s[..i] + "}";
    PrintedSnoc(before, Block(js));
    LegalSnoc(before, Block(js), below == []);
    var a, b := OpenedText(below), Printed(before);
    assert a + b + "{" + Printed(js) + "}" == a + (b + ("{" + Printed(js) + "}"));
  }

  lemma HoleClosed(s: string, i: nat, os: seq<Opened>, js: seq<Piece>) returns (below: seq<Opened>, o: Opened)
    requires CodeUpTo(s, i, os, js) && i < |s| && s[i] == '}' && os != [] && os[|os| - 1].InHole?
    ensures o.InHole? && TmplUpTo(s, i + 1, below, o.before, o.parts + [Hole(js)])
  {
    hide LegalOpened, OpenedText, Legal, Printed, LegalParts, PartsText;
    below, o := LastOpened(os);
    assert s[..i + 1] == s[..i] + "}";
    PartsSnoc(o.parts, Hole(js));
    LegalPartsSnoc(o.parts, Hole(js));
    var a, b := OpenedText(below) + Printed(o.before), PartsText(o.parts);
    assert a + ("`" + b + "${") + Printed(js) + "}" == a + "`" + (b + ("${" + Printed(js) + "}"));
  }

  /** The units of a string literal, up to what ends it. */
  lemma {:induction false} StrBody(s: string, i: nat, quote: char) returns (body: seq<Unit>, k: nat)
    requires i <= |s| && IsQuote(quote)
    ensures InStr(quote, body) && OccursAt(s, UnitsText(body), i) && k == i + |UnitsText(body)|
    ensures k == |s| || s[k] == quote || s[k] == '\n' || (s[k] == '\\' && k + 1 == |s|)
    decreases |s| - i
  {
    if i == |s| || s[i] == quote || s[i] == '\n' || (s[i] == '\\' && i + 1 == |s|) {
      return [], i;
    }
    var u := if s[i] == '\\' then Escape(s[i + 1]) else Raw(s[i]);
    var n := |UnitText(u)|;
    assert UnitText(u) == s[i..i + n];
    var us;
    us, k := StrBody(s, i + n, quote);
    StrCons(quote, u, us);
    hide UnitsText, InStr;
    Joined(s, UnitText(u), UnitsText(us), i);
    body := [u] + us;
  }

  lemma StrCons(quote: char, u: Unit, us: seq<Unit>)
    requires InStr(quote, us) && (u.Raw? ==> u.c != quote && u.c != '\\' && u.c != '\n')
    ensures InStr(quote, [u] + us) && UnitsText([u] + us) == UnitText(u) + UnitsText(us)
  {
    UnitsCons(u, us);
    hide UnitsText;
  }

  /** A construct other than a bracket or a template: a piece, or what stops the scan. */
  datatype Found = Whole(piece: Piece) | Stop(ending: Ending)

  ghost predicate FoundAt(s: string, i: nat, top: bool, f: Found) {
    match f
    case Whole(p) => LegalPiece(p, top) && OccursAt(s, PieceText(p), i)
    case Stop(e) => LegalEnding(e) && i <= |s| && s[i..] == EndText(e)
  }

  lemma FindStr(s: string, i: nat, top: bool) returns (f: Found)
    requires i < |s| && IsQuote(s[i])
    ensures FoundAt(s, i, top, f)
  {
    hide UnitsText, InStr;
    var body, k := StrBody(s, i + 1, s[i]);
    if k < |s| && s[k] == s[i] {
      f := Whole(Str(s[i], body));
      assert s[i..k + 1] == [s[i]] + s[i + 1..k] + [s[k]];
    } else {
      f := Stop(OpenStr(s[i], body, s[k..]));
      assert s[i..] == [s[i]] + s[i + 1..k] + s[k..];
      assert k < |s| && s[k] == '\\' ==> s[k..] == "\\";
    }
  }

  lemma FindLine(s: string, i: nat, top: bool) returns (f: Found)
    requires OccursAt(s, "//", i)
    ensures FoundAt(s, i, top, f)
  {
    hide Index;
    var rest := s[i + 2..];
    var j := Index(rest, "\n");
    IndexByte(rest, '\n');
    assert s[i..] == s[i..i + 2] + rest;
    if j < 0 {
      f := Stop(OpenLine(rest));
    } else {
      f := Whole(Line(rest[..j]));
      assert s[i..i + 2 + j + 1] == s[i..i + 2] + rest[..j] + [rest[j]];
    }
  }

  lemma FindComment(s: string, i: nat, top: bool) returns (f: Found)
    requires OccursAt(s, "/*", i)
    ensures FoundAt(s, i, top, f)
  {
    hide Index;
    var rest := s[i + 2..];
    var j := Index(rest, "*/");
    assert s[i..] == s[i..i + 2] + rest;
    if j < 0 {
      f := Stop(OpenComment(rest));
    } else {
      var text := rest[..j];
      NoCloseBefore(rest, j);
      assert OccursAt(s, text, i + 2);
      Literals.OccursShift(s, "*/", i + 2, j);
      hide OccursAt, NoClose;
      Joined(s, "/*", text, i);
      Joined(s, "/*" + text, "*/", i);
      f := Whole(Comment(text));
    }
  }

  lemma NoCloseBefore(rest: string, j: nat)
    requires j <= |rest| && forall k: nat :: k < j ==> !OccursAt(rest, "*/", k)
    ensures NoClose(rest[..j])
  {
    var text := rest[..j];
    forall k | 0 <= k < |text| ensures !OccursAt(text, "*/", k) {
      assert !OccursAt(rest, "*/", k);
      assert k + 2 <= j ==> text[k..k + 2] == rest[k..k + 2];
    }
  }

  lemma Find(s: string, i: nat, top: bool) returns (f: Found)
    requires i <= |s| && (i < |s| ==> s[i] != '`' && s[i] != '{' && (s[i] == '}' ==> top))
    ensures FoundAt(s, i, top, f)
  {
    if i == |s| {
      return Stop(Eof);
    }
    if s[i] == '\\' {
      assert s[i..] == "\\" + s[i + 1..];
      return Stop(CodeBackslash(s[i + 1..]));
    }
    if IsQuote(s[i]) {
      f := FindStr(s, i, top);
    } else if s[i] == '/' {
      f := FindSlash(s, i, top);
    } else {
      f := Whole(Byte(s[i]));
    }
  }

  lemma FindSlash(s: string, i: nat, top: bool) returns (f: Found)
    requires i < |s| && s[i] == '/'
    ensures FoundAt(s, i, top, f)
  {
    if i + 1 < |s| && s[i + 1] == '/' {
      assert s[i..i + 2] == "//";
      f := FindLine(s, i, top);
    } else if i + 1 < |s| && s[i + 1] == '*' {
      assert s[i..i + 2] == "/*";
      f := FindComment(s, i, top);
    } else {
      assert s[i..] == "/" + s[i + 1..];
      f := Stop(LoneSlash(s[i + 1..]));
    }
  }

  lemma {:induction false} CodeParses(s: string, i: nat, os: seq<Opened>, js: seq<Piece>)
    returns (os': seq<Opened>, js': seq<Piece>, e: Ending)
    requires CodeUpTo(s, i, os, js)
    ensures Reads(s, os', js', e)
    decreases |s| - i
  {
    hide CodeUpTo, TmplUpTo, Reads, FoundAt;
    assert i <= |s| by { Bounded(s, i, os, js); }
    if i < |s| && s[i] == '`' {
      TmplOpened(s, i, os, js);
      os', js', e := TmplParses(s, i + 1, os, js, []);
    } else if i < |s| && s[i] == '{' {
      BlockOpened(s, i, os, js);
      os', js', e := CodeParses(s, i + 1, os + [InBlock(js)], []);
    } else if i < |s| && s[i] == '}' && os != [] {
      if os[|os| - 1].InBlock? {
        var below, before := BlockClosed(s, i, os, js);
        os', js', e := CodeParses(s, i + 1, below, before + [Block(js)]);
      } else {
        var below, o := HoleClosed(s, i, os, js);
        os', js', e := TmplParses(s, i + 1, below, o.before, o.parts + [Hole(js)]);
      }
    } else {
      var f := Find(s, i, os == []);
      match f
      case Whole(p) =>
        FoundPiece(s, i, os, js, p);
        os', js', e := CodeParses(s, i + |PieceText(p)|, os, js + [p]);
      case Stop(ending) =>
        FoundStop(s, i, os, js, ending);
        os', js', e := os, js, ending;
    }
  }

  lemma Bounded(s: string, i: nat, os: seq<Opened>, js: seq<Piece>)
    requires CodeUpTo(s, i, os, js)
    ensures i <= |s|
  {
  }

  lemma FoundPiece(s: string, i: nat, os: seq<Opened>, js: seq<Piece>, p: Piece)
    requires CodeUpTo(s, i, os, js) && FoundAt(s, i, os == [], Whole(p))
    ensures CodeUpTo(s, i + |PieceText(p)|, os, js + [p]) && i + |PieceText(p)| <= |s|
  {
    hide PieceText, LegalPiece, CodeUpTo;
    PieceRead(s, i, os, js, p);
  }

  lemma FoundStop(s: string, i: nat, os: seq<Opened>, js: seq<Piece>, e: Ending)
    requires CodeUpTo(s, i, os, js) && FoundAt(s, i, os == [], Stop(e))
    ensures Reads(s, os, js, e)
  {
    hide EndText, LegalEnding, Legal, LegalOpened, OpenedText, Printed;
    assert s == s[..i] + s[i..];
  }

  lemma {:induction false} TmplParses(s: string, i: nat, os: seq<Opened>, js: seq<Piece>, parts: seq<Part>)
    returns (os': seq<Opened>, js': seq<Piece>, e: Ending)
    requires TmplUpTo(s, i, os, js, parts)
    ensures Reads(s, os', js', e)
    decreases |s| - i
  {
    hide CodeUpTo, Reads;
    assert i <= |s|;
    hide TmplUpTo;
    if i < |s| && s[i] == '`' {
      TmplClosed(s, i, os, js, parts);
      os', js', e := CodeParses(s, i + 1, os, js + [Tmpl(parts)]);
    } else if i + 1 < |s| && s[i] == '$' && s[i + 1] == '{' {
      assert s[i..i + 2] == "${";
      HoleOpened(s, i, os, js, parts);
      os', js', e := CodeParses(s, i + 2, os + [InHole(js, parts)], []);
    } else if i == |s| || (s[i] == '\\' && i + 1 == |s|) {
      os', js', e := os, js, OpenTmpl(parts, s[i..]);
      TmplStops(s, i, os, js, parts);
    } else {
      var p := Chunk(if s[i] == '\\' then Escape(s[i + 1]) else Raw(s[i]));
      ChunkRead(s, i, os, js, parts, p);
      os', js', e := TmplParses(s, i + |PartText(p)|, os, js, parts + [p]);
    }
  }

  lemma TmplStops(s: string, i: nat, os: seq<Opened>, js: seq<Piece>, parts: seq<Part>)
    requires TmplUpTo(s, i, os, js, parts) && (i == |s| || (s[i] == '\\' && i + 1 == |s|))
    ensures Reads(s, os, js, OpenTmpl(parts, s[i..]))
  {
    hide Legal, LegalOpened, OpenedText, Printed, LegalParts, PartsText;
    assert s == s[..i] + s[i..];
    assert i < |s| ==> s[i..] == "\\";
    var a := OpenedText(os) + Printed(js);
    assert a + "`" + PartsText(parts) + s[i..] == a + ("`" + PartsText(parts) + s[i..]);
  }

  lemma ChunkRead(s: string, i: nat, os: seq<Opened>, js: seq<Piece>, parts: seq<Part>, p: Part)
    requires TmplUpTo(s, i, os, js, parts) && i < |s| && s[i] != '`'
    requires s[i] == '\\' ==> i + 1 < |s|
    requires !(i + 1 < |s| && s[i] == '$' && s[i + 1] == '{')
    requires p == Chunk(if s[i] == '\\' then Escape(s[i + 1]) else Raw(s[i]))
    ensures i + |PartText(p)| <= |s| && TmplUpTo(s, i + |PartText(p)|, os, js, parts + [p])
  {
    hide TmplUpTo;
    assert PartText(p) == s[i..i + |PartText(p)|];
    PartRead(s, i, os, js, parts, p);
  }

  /** Every file is open blocks and interpolations, pieces, and an ending. */
  lemma EveryFileReads(s: string) returns (os: seq<Opened>, js: seq<Piece>, e: Ending)
    ensures Reads(s, os, js, e)
  {
    os, js, e := CodeParses(s, 0, [], []);
  }

  /** So a backslash is reported exactly where the text before it is complete pieces, in blocks and
      interpolations that may be open: never inside a string, a template's text or a comment. */
  lemma StrayIff(s: string, k: nat)
    ensures Lexed(s, 0, Plain, []) == Stray(k) <==>
            k < |s| && s[k] == '\\' && exists os, js :: CodeUpTo(s, k, os, js)
  {
    hide Lexed, CodeUpTo, Reads;
    if k < |s| && s[k] == '\\' {
      if os, js :| CodeUpTo(s, k, os, js) {
        BackslashAfter(s, k, os, js);
      }
    }
    if Lexed(s, 0, Plain, []) == Stray(k) {
      var os, js, e := EveryFileReads(s);
      AnswerOfText(s, os, js, e);
      StopsInCode(s, k, os, js, e);
    }
  }

  lemma BackslashAfter(s: string, k: nat, os: seq<Opened>, js: seq<Piece>)
    requires k < |s| && s[k] == '\\' && CodeUpTo(s, k, os, js)
    ensures Lexed(s, 0, Plain, []) == Stray(k)
  {
    var e := CodeBackslash(s[k + 1..]);
    hide OpenedText, Printed, Legal, LegalOpened, Lexed;
    assert s[k..] == "\\" + s[k + 1..];
    FoundStop(s, k, os, js, e);
    AnswerOfText(s, os, js, e);
    assert |s[..k]| == k == |OpenedText(os)| + |Printed(js)|;
  }

  lemma StopsInCode(s: string, k: nat, os: seq<Opened>, js: seq<Piece>, e: Ending)
    requires Reads(s, os, js, e) && Answer(e, |OpenedText(os)| + |Printed(js)|) == Stray(k)
    ensures k < |s| && s[k] == '\\' && CodeUpTo(s, k, os, js)
  {
    hide OpenedText, Printed, Legal, LegalOpened;
    assert s[..k] == OpenedText(os) + Printed(js);
  }
}
