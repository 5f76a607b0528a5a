/** stripStringsAndComments of fix_quality_gate.go: comments go, each literal becomes one `_`. */
module Stripper {
  import opened Text
  import opened Literals

  datatype Dialect = JavaOrCSharp | Go | Other

  /** `s` is what follows the quote of a char literal; the length up to and including its closing
      quote, or all of `s`. */
  function CharCloseLen(s: string): (n: nat)
    ensures n <= |s|
  {
    if s == "" then 0
    else if s[0] == '\\' && |s| > 1 then 2 + CharCloseLen(s[2..])
    else if s[0] == '\'' then 1
    else 1 + CharCloseLen(s[1..])
  }

  /** `s` is what follows a Go backtick. */
  function BacktickCloseLen(s: string): (n: nat)
    ensures n <= |s|
  {
    if s == "" then 0 else if s[0] == '`' then 1 else 1 + BacktickCloseLen(s[1..])
  }

  /** What the text starts with. */
  datatype Piece =
    | Kept(c: char)
    | LineGone(length: nat)     // a line comment with its line feed, which stays
    | BlockGone(length: nat)    // a block comment
    | Hole(length: nat)         // a literal
    | Cut                       // a comment with no end: the rest of the file goes
  {
    function Length(): nat { if Kept? then 1 else if Cut? then 0 else length }

    function Emit(): string { match this case Kept(c) => [c] case LineGone(_) => "\n" case Hole(_) => "_" case _ => "" }
  }

  predicate OpensString(d: Dialect, c: char) { c == '"' || (d.JavaOrCSharp? && IsPrefixByte(c)) }

  predicate OpensComment(s: string) { StartsWith(s, '/', '/') || StartsWith(s, '/', '*') }

  function CommentHead(s: string): (p: Piece)
    requires OpensComment(s)
    ensures p.Cut? || ((p.LineGone? || p.BlockGone?) && 0 < p.length <= |s|)
  {
    if StartsWith(s, '/', '/') then
      match LineCommentLen(s) case Some(n) => LineGone(n + 1) case None => Cut
    else
      match BlockCommentLen(s) case Some(n) => BlockGone(n) case None => Cut
  }

  function Head(d: Dialect, s: string): (p: Piece)
    requires s != ""
    ensures p.Cut? || 0 < p.Length() <= |s|
    ensures p.Kept? ==> p.c == s[0]
  {
    if OpensComment(s) then CommentHead(s)
    else if OpensString(d, s[0]) && StringLiteralLen(s, d.JavaOrCSharp?).Some? then Hole(StringLiteralLen(s, d.JavaOrCSharp?).value)
    else if s[0] == '\'' && d.JavaOrCSharp? then Hole(1 + CharCloseLen(s[1..]))
    else if s[0] == '`' && d.Go? then Hole(1 + BacktickCloseLen(s[1..]))
    else Kept(s[0])
  }

  function Strip(d: Dialect, s: string): string
    decreases |s|
  {
    if s == "" || Head(d, s).Cut? then ""
    else Head(d, s).Emit() + Strip(d, s[Head(d, s).Length()..])
  }

  // ----- idempotence

  predicate OpensLiteral(d: Dialect, c: char) {
    c == '"' || (c == '\'' && d.JavaOrCSharp?) || (c == '`' && d.Go?)
  }

  predicate SlashPair(a: char, b: char) { a == '/' && (b == '/' || b == '*') }

  /** Nothing in `t` would start a literal or a comment. */
  predicate Bare(d: Dialect, t: string) {
    && (forall k :: 0 <= k < |t| ==> !OpensLiteral(d, t[k]))
    && (forall k {:trigger t[k]} :: 0 <= k < |t| - 1 ==> !SlashPair(t[k], t[k + 1]))
  }

  lemma BareCons(d: Dialect, c: char, t: string)
    requires Bare(d, t) && !OpensLiteral(d, c) && (t != "" ==> !SlashPair(c, t[0]))
    ensures Bare(d, [c] + t)
  {
  }

  /** After a byte that is kept, what comes out next is not what would complete a comment opener. */
  lemma NothingGlued(d: Dialect, s: string)
    requires s != "" && Head(d, s).Kept?
    ensures Strip(d, s[1..]) != "" ==> !SlashPair(s[0], Strip(d, s[1..])[0])
  {
    var rest := s[1..];
    if s[0] == '/' && rest != "" {
      assert rest[0] == s[1];
      assert !OpensComment(rest);
    }
  }

  /** Removing a comment or a literal never glues its neighbours into a new one. */
  lemma {:induction false} StripIsBare(d: Dialect, s: string)
    ensures Bare(d, Strip(d, s))
    decreases |s|
  {
    if s != "" && !Head(d, s).Cut? {
      var p := Head(d, s);
      var rest := Strip(d, s[p.Length()..]);
      StripIsBare(d, s[p.Length()..]);
      match p
      case Kept(c) =>
        NothingGlued(d, s);
        BareCons(d, c, rest);
      case LineGone(_) => BareCons(d, '\n', rest);
      case Hole(_) => BareCons(d, '_', rest);
      case BlockGone(_) => assert "" + rest == rest;
    }
  }

  lemma NoQuoteNoLiteral(s: string, javaOrCS: bool)
    requires forall k :: 0 <= k < |s| ==> s[k] != '"'
    ensures StringLiteralLen(s, javaOrCS).None?
  {
  }

  lemma {:induction false} BareIsFixed(d: Dialect, t: string)
    requires Bare(d, t)
    ensures Strip(d, t) == t
  {
    if t != "" {
      assert !OpensLiteral(d, t[0]);
      assert |t| > 1 ==> !SlashPair(t[0], t[1]);
      forall k | 0 <= k < |t| ensures t[k] != '"' {
        assert !OpensLiteral(d, t[k]);
      }
      NoQuoteNoLiteral(t, d.JavaOrCSharp?);
      assert Head(d, t) == Kept(t[0]);
      forall k | 0 <= k < |t| - 1 ensures !OpensLiteral(d, t[1..][k]) && (k < |t| - 2 ==> !SlashPair(t[1..][k], t[1..][k + 1])) {
        assert !OpensLiteral(d, t[k + 1]);
      }
      BareIsFixed(d, t[1..]);
      assert t == [t[0]] + t[1..];
    }
  }

  /** Stripping is a projection: what it returns, it returns unchanged. */
  lemma StripIsIdempotent(d: Dialect, s: string)
    ensures Bare(d, Strip(d, s)) && Strip(d, Strip(d, s)) == Strip(d, s)
  {
    StripIsBare(d, s);
    BareIsFixed(d, Strip(d, s));
  }

  /** And what it leaves alone is exactly the text with no comment and no literal in it. */
  lemma StripFixesExactlyBare(d: Dialect, s: string)
    ensures Strip(d, s) == s <==> Bare(d, s)
  {
    StripIsBare(d, s);
    if Bare(d, s) {
      BareIsFixed(d, s);
    }
  }

  // ----- the loop

  ghost predicate StripProgress(d: Dialect, s: string, i: nat, b: string) {
    i <= |s| && Strip(d, s) == b + Strip(d, s[i..])
  }

  lemma StripStep(d: Dialect, s: string, i: nat, b: string, p: Piece)
    requires i < |s| && StripProgress(d, s, i, b) && p == Head(d, s[i..])
    ensures p.Cut? ==> Strip(d, s) == b
    ensures !p.Cut? ==> i < i + p.Length() <= |s| && StripProgress(d, s, i + p.Length(), b + p.Emit())
  {
    hide Head, Piece.Emit;
    if p.Cut? {
      assert b + "" == b;
    } else {
      assert s[i..][p.Length()..] == s[i + p.Length()..];
      var rest := Strip(d, s[i + p.Length()..]);
      assert b + (p.Emit() + rest) == (b + p.Emit()) + rest;
    }
  }

  method CharEnd(s: string, from: nat) returns (i: nat)
    requires from <= |s|
    ensures i == from + CharCloseLen(s[from..])
  {
    i := from;
    while i < |s|
      invariant from <= i <= |s|
      invariant from + CharCloseLen(s[from..]) == i + CharCloseLen(s[i..])
    {
      assert s[i..][1..] == s[i + 1..];
      assert i + 1 < |s| ==> s[i..][2..] == s[i + 2..];
      if s[i] == '\\' && i + 1 < |s| {
        i := i + 2;
        continue;
      }
      if s[i] == '\'' {
        i := i + 1;
        return;
      }
      i := i + 1;
    }
  }

  method BacktickEnd(s: string, from: nat) returns (i: nat)
    requires from <= |s|
    ensures i == from + BacktickCloseLen(s[from..])
  {
    i := from;
    while i < |s| && s[i] != '`'
      invariant from <= i <= |s|
      invariant from + BacktickCloseLen(s[from..]) == i + BacktickCloseLen(s[i..])
    {
      assert s[i..][1..] == s[i + 1..];
      i := i + 1;
    }
    if i < |s| {
      i := i + 1;
    }
  }

  /** One round of the loop: what starts at `i`. */
  method PieceAt(d: Dialect, s: string, i: nat) returns (p: Piece)
    requires i < |s|
    ensures p == Head(d, s[i..])
  {
    hide Strip, StringLiteralLen, CharCloseLen, BacktickCloseLen;
    var c := s[i];
    assert i + 1 < |s| ==> s[i..][1] == s[i + 1];
    assert s[i..][1..] == s[i + 1..];
    if c == '/' && i + 1 < |s| && (s[i + 1] == '/' || s[i + 1] == '*') {
      p := CommentAt(s, i);
      return;
    }
    if OpensString(d, c) {
      var end, ok := StringLiteralEnd(s, i, d.JavaOrCSharp?);
      if ok {
        return Hole(end - i);
      }
    }
    if c == '\'' && d.JavaOrCSharp? {
      var end := CharEnd(s, i + 1);
      return Hole(end - i);
    }
    if c == '`' && d.Go? {
      var end := BacktickEnd(s, i + 1);
      return Hole(end - i);
    }
    return Kept(c);
  }

  method CommentAt(s: string, i: nat) returns (p: Piece)
    requires i < |s| && OpensComment(s[i..])
    ensures p == CommentHead(s[i..])
  {
    assert s[i..][1] == s[i + 1] && s[i..][2..] == s[i + 2..];
    if s[i + 1] == '/' {
      var j := Index(s[i..], "\n");
      return if j < 0 then Cut else LineGone(j + 1);
    }
    var j := Index(s[i + 2..], "*/");
    return if j < 0 then Cut else BlockGone(2 + j + 2);
  }

  method StripStringsAndComments(d: Dialect, s: string) returns (b: string)
    ensures b == Strip(d, s)
  {
    hide Strip, Head, Piece.Emit;
    b := "";
    var i: nat := 0;
    assert s[0..] == s && b + Strip(d, s) == Strip(d, s);
    while i < |s|
      invariant StripProgress(d, s, i, b)
      decreases |s| - i
    {
      var p := PieceAt(d, s, i);
      StripStep(d, s, i, b, p);
      if p.Cut? {
        return b;
      }
      b := b + p.Emit();
      i := i + p.Length();
    }
    StripDone(d, s, b);
  }

  lemma StripDone(d: Dialect, s: string, b: string)
    requires StripProgress(d, s, |s|, b)
    ensures Strip(d, s) == b
  {
    assert s[|s|..] == "" && b + "" == b;
  }
}
