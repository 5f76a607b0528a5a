/** StripCSharpCommentsAndStrings of csharpsrc.go: the stripper whose callers report line numbers. */
module CSharpStripper {
  import opened Text
  import opened Literals
  import opened Stripper

  /** The source cut into what the stripper treats as one thing.  Nothing is lost. */
  datatype Part =
    | Code(c: char)
    | Comment(text: string)      // with its line feed when it is a line comment
    | Block(text: string)        // a raw or verbatim string: its line feeds are kept
    | Ordinary(text: string)     // an ordinary string or char literal: nothing of it is kept
    | Dropped(text: string)      // a comment or raw string with no end, and the rest of the file
  {
    function Text(): string { if Code? then [c] else text }

    function Emit(): string {
      match this
      case Code(c) => [c]
      case Comment(text) => LineFeeds(Newlines(text))
      case Block(text) => "_" + LineFeeds(Newlines(text))
      case Ordinary(_) => "_"
      case Dropped(_) => ""
    }

    /** The line feeds that are lost with it. */
    function Swallowed(): nat { if Ordinary? then Newlines(text) else 0 }
  }

  function LineFeeds(n: nat): string { if n == 0 then "" else "\n" + LineFeeds(n - 1) }

  lemma {:induction false} LineFeedsCount(n: nat)
    ensures Newlines(LineFeeds(n)) == n && |LineFeeds(n)| == n
    ensures forall k :: 0 <= k < n ==> LineFeeds(n)[k] == '\n'
  {
    if n > 0 {
      assert LineFeeds(n)[1..] == LineFeeds(n - 1);
      LineFeedsCount(n - 1);
    }
  }

  /** The length of a verbatim string's prefix and opening quote, or 0. */
  function VerbatimStart(s: string): (n: nat)
    ensures n <= |s|
  {
    if StartsWith(s, '@', '"') then 2
    else if |s| >= 3 && (StartsWith(s, '$', '@') || StartsWith(s, '@', '$')) && s[2] == '"' then 3
    else 0
  }

  /** `s` is what follows a quote: up to and including the closing quote or a line feed, or all of
      `s`.  A backslash takes the next byte with it, a line feed too. */
  function LooseCloseLen(quote: char, s: string): (n: nat)
    ensures n <= |s|
  {
    if s == "" then 0
    else if s[0] == '\\' then (if |s| > 1 then 2 + LooseCloseLen(quote, s[2..]) else 1)
    else if s[0] == quote || s[0] == '\n' then 1
    else 1 + LooseCloseLen(quote, s[1..])
  }

  function RawLen(s: string): (r: Option<nat>)
    requires StartsRaw(s)
    ensures r.Some? ==> 0 < r.value <= |s|
  {
    var open := QuoteRun(s);
    var j := Index(s[open..], Quotes(open));
    if j < 0 then None else Some(open + j + open)
  }

  function CommentLen(s: string): (r: Option<nat>)
    requires OpensComment(s)
    ensures r.Some? ==> 0 < r.value <= |s|
  {
    match CommentHead(s)
    case Cut => None
    case p => Some(p.Length())
  }

  function PartHead(s: string): (p: Part)
    requires s != ""
    ensures p.Text() != "" && p.Text() <= s
    ensures p.Dropped? ==> p.text == s
    ensures p.Code? ==> !IsStringQuote(p.c)
  {
    if OpensComment(s) then
      match CommentLen(s) case Some(n) => Comment(s[..n]) case None => Dropped(s)
    else if StartsRaw(s) then
      match RawLen(s) case Some(n) => Block(s[..n]) case None => Dropped(s)
    else if VerbatimStart(s) > 0 then
      var start := VerbatimStart(s);
      Block(s[..start + QuotedCloseLen(s[start..], true)])
    else if IsStringQuote(s[0]) then Ordinary(s[..1 + LooseCloseLen(s[0], s[1..])])
    else Code(s[0])
  }

  predicate IsStringQuote(c: char) { c == '"' || c == '\'' }

  function Parts(s: string): (ps: seq<Part>)
    decreases |s|
  {
    if s == "" then [] else [PartHead(s)] + Parts(s[|PartHead(s).Text()|..])
  }

  function TextOf(ps: seq<Part>): string {
    if ps == [] then "" else ps[0].Text() + TextOf(ps[1..])
  }

  function EmitOf(ps: seq<Part>): string {
    if ps == [] then "" else ps[0].Emit() + EmitOf(ps[1..])
  }

  function SwallowedBy(ps: seq<Part>): nat {
    if ps == [] then 0 else ps[0].Swallowed() + SwallowedBy(ps[1..])
  }

  function StripCSharp(s: string): string { EmitOf(Parts(s)) }

  lemma PartsUnfold(s: string)
    requires s != ""
    ensures var p := PartHead(s);
            var rest := s[|p.Text()|..];
            && s == p.Text() + rest
            && Parts(s) == [p] + Parts(rest) && Parts(s)[1..] == Parts(rest)
            && EmitOf(Parts(s)) == p.Emit() + EmitOf(Parts(rest))
            && TextOf(Parts(s)) == p.Text() + TextOf(Parts(rest))
  {
    hide PartHead, Part.Text, Part.Emit;
    var p := PartHead(s);
    var rest := s[|p.Text()|..];
    assert ([p] + Parts(rest))[1..] == Parts(rest);
  }

  /** The parts are the source. */
  lemma {:induction false} PartsLoseNothing(s: string)
    ensures TextOf(Parts(s)) == s
    decreases |s|
  {
    hide PartHead, Part.Text, TextOf, Parts;
    if s != "" {
      PartsUnfold(s);
      PartsLoseNothing(s[|PartHead(s).Text()|..]);
    } else {
      NoParts();
    }
  }

  lemma NoParts()
    ensures Parts("") == [] && TextOf([]) == "" && EmitOf([]) == ""
  {
  }

  // ----- lines

  lemma PartLines(p: Part)
    requires !p.Dropped?
    ensures Newlines(p.Emit()) + p.Swallowed() == Newlines(p.Text())
  {
    assert "_"[1..] == "";
    if p.Comment? || p.Block? {
      LineFeedsCount(Newlines(p.text));
      NewlinesConcat("_", LineFeeds(Newlines(p.text)));
    }
  }

  lemma {:induction false} PartsLines(ps: seq<Part>)
    requires forall k :: 0 <= k < |ps| ==> !ps[k].Dropped?
    ensures Newlines(EmitOf(ps)) + SwallowedBy(ps) == Newlines(TextOf(ps))
  {
    hide Newlines, Part.Emit, Part.Text, Part.Swallowed;
    if ps != [] {
      PartLines(ps[0]);
      PartsLines(ps[1..]);
      NewlinesConcat(ps[0].Emit(), EmitOf(ps[1..]));
      NewlinesConcat(ps[0].Text(), TextOf(ps[1..]));
    } else {
      NewlinesOfNothing();
    }
  }

  lemma NewlinesOfNothing()
    ensures Newlines("") == 0
  {
  }

  lemma {:induction false} OfConcat(a: seq<Part>, b: seq<Part>)
    ensures TextOf(a + b) == TextOf(a) + TextOf(b)
    ensures EmitOf(a + b) == EmitOf(a) + EmitOf(b)
  {
    hide Part.Emit, Part.Text;
    if a == [] {
      assert a + b == b;
    } else {
      assert (a + b)[1..] == a[1..] + b;
      OfConcat(a[1..], b);
    }
  }

  lemma OfOne(p: Part)
    ensures TextOf([p]) == p.Text() && EmitOf([p]) == p.Emit()
  {
    hide Part.Emit, Part.Text;
    assert [p][1..] == [];
  }

  lemma CutAt<T>(ps: seq<T>, k: nat)
    requires k < |ps|
    ensures ps == ps[..k] + ([ps[k]] + ps[k + 1..])
  {
  }

  lemma SplitAt(ps: seq<Part>, k: nat)
    requires k < |ps|
    ensures TextOf(ps) == TextOf(ps[..k]) + (ps[k].Text() + TextOf(ps[k + 1..]))
    ensures EmitOf(ps) == EmitOf(ps[..k]) + (ps[k].Emit() + EmitOf(ps[k + 1..]))
  {
    hide Part.Emit, Part.Text, TextOf, EmitOf;
    CutAt(ps, k);
    OfConcat(ps[..k], [ps[k]] + ps[k + 1..]);
    OfConcat([ps[k]], ps[k + 1..]);
    OfOne(ps[k]);
  }

  lemma {:induction false} OnlyLastDropped(s: string, k: nat)
    requires k + 1 < |Parts(s)|
    ensures !Parts(s)[k].Dropped?
    decreases |s|
  {
    var n := |PartHead(s).Text()|;
    if k > 0 {
      OnlyLastDropped(s[n..], k - 1);
    }
  }

  /** Where the `k`th part starts in the source and in the stripped text. */
  function SourceAt(s: string, k: nat): nat
    requires k <= |Parts(s)|
  {
    |TextOf(Parts(s)[..k])|
  }

  function StrippedAt(s: string, k: nat): nat
    requires k <= |Parts(s)|
  {
    |EmitOf(Parts(s)[..k])|
  }

  function LineOf(s: string, i: nat): nat
    requires i <= |s|
  {
    1 + Newlines(s[..i])
  }

  /** Every code byte survives, and its line in the stripped text is its line in the source less the
      line feeds ordinary literals before it have swallowed.  So all lines are kept exactly as long
      as no ordinary literal has swallowed one. */
  lemma CodeKeepsItsLine(s: string, k: nat)
    requires k < |Parts(s)| && Parts(s)[k].Code?
    ensures var (i, o) := (SourceAt(s, k), StrippedAt(s, k));
            && i < |s| && s[i] == Parts(s)[k].c
            && o < |StripCSharp(s)| && StripCSharp(s)[o] == Parts(s)[k].c
            && LineOf(StripCSharp(s), o) + SwallowedBy(Parts(s)[..k]) == LineOf(s, i)
  {
    var ps := Parts(s);
    var before := ps[..k];
    forall j | 0 <= j < k ensures !before[j].Dropped? {
      OnlyLastDropped(s, j);
    }
    hide Newlines, Parts, TextOf, EmitOf, SwallowedBy;
    PartsLoseNothing(s);
    SplitAt(ps, k);
    PartsLines(before);
    var t, e := TextOf(before), EmitOf(before);
    assert s[..|t|] == t && StripCSharp(s)[..|e|] == e;
  }

  lemma {:induction false} NothingSwallowed(ps: seq<Part>)
    ensures SwallowedBy(ps) == 0 <==> forall k :: 0 <= k < |ps| ==> ps[k].Swallowed() == 0
  {
    hide Part.Swallowed;
    if ps != [] {
      NothingSwallowed(ps[1..]);
      forall k | 0 < k < |ps| ensures ps[k] == ps[1..][k - 1] {
      }
    }
  }

  /** A line report on the stripped text is right for a code byte if and only if no ordinary literal
      before that byte has a line feed in it. */
  lemma LineKeptIff(s: string, k: nat)
    requires k < |Parts(s)| && Parts(s)[k].Code?
    ensures StrippedAt(s, k) <= |StripCSharp(s)| && SourceAt(s, k) <= |s|
    ensures LineOf(StripCSharp(s), StrippedAt(s, k)) == LineOf(s, SourceAt(s, k)) <==>
            forall j :: 0 <= j < k ==> Parts(s)[j].Swallowed() == 0
  {
    hide Parts, Newlines, LineOf, SourceAt, StrippedAt, StripCSharp, SwallowedBy, Part.Swallowed;
    CodeKeepsItsLine(s, k);
    var before := Parts(s)[..k];
    NothingSwallowed(before);
    assert forall j :: 0 <= j < k ==> before[j] == Parts(s)[j];
  }

  lemma ApostropheHead(s: string)
    requires |s| == 3 && s[0] == '\'' && s[1] == '\n'
    ensures PartHead(s) == Ordinary(s[..2])
  {
    assert s[1..][0] == '\n';
    assert LooseCloseLen(s[0], s[1..]) == 1;
  }

  lemma ApostropheParts(s: string)
    requires |s| == 3 && s[0] == '\'' && s[1] == '\n' && s[2] == 'x'
    ensures Parts(s) == [Ordinary(s[..2])] + [Code('x')]
  {
    hide PartHead, Parts, TextOf, EmitOf, Part.Emit;
    ApostropheHead(s);
    PartsUnfold(s);
    NoParts();
    LoneByte(s[2..]);
    PartsUnfold(s[2..]);
  }

  lemma LoneByte(s: string)
    requires |s| == 1 && s[0] == 'x'
    ensures PartHead(s) == Code('x') && s[1..] == ""
  {
  }

  lemma ApostropheSwallows(s: string)
    requires |s| == 3 && s[0] == '\'' && s[1] == '\n' && s[2] == 'x'
    ensures Parts(s)[..1] == [Ordinary(s[..2])] && SwallowedBy([Ordinary(s[..2])]) == 1
  {
    ApostropheParts(s);
    hide Parts;
    OneByte('\'');
    OneByte('\n');
    NewlinesConcat([s[0]], [s[1]]);
    hide Newlines;
    assert s[..2] == [s[0]] + [s[1]];
    assert [Ordinary(s[..2])][1..] == [];
  }

  /** An apostrophe that opens no char literal (`#region Don't`) takes its line feed with it, and the
      next line is reported one too low: in "'\n" followed by `x` the `x` moves up a line. */
  lemma ApostropheShiftsLines(s: string)
    requires |s| == 3 && s[0] == '\'' && s[1] == '\n' && s[2] == 'x'
    ensures |Parts(s)| == 2 && Parts(s)[1] == Code('x')
    ensures StrippedAt(s, 1) <= |StripCSharp(s)| && SourceAt(s, 1) <= |s|
    ensures LineOf(StripCSharp(s), StrippedAt(s, 1)) + 1 == LineOf(s, SourceAt(s, 1))
  {
    hide Parts, SourceAt, StrippedAt, LineOf, StripCSharp, SwallowedBy;
    ApostropheParts(s);
    ApostropheSwallows(s);
    CodeKeepsItsLine(s, 1);
  }

  lemma OneByte(c: char)
    ensures Newlines([c]) == if c == '\n' then 1 else 0
  {
    assert [c][1..] == "";
  }

  /** Code bytes keep their order. */
  lemma {:induction false} PartsInOrder(s: string, j: nat, k: nat)
    requires j < k < |Parts(s)| && Parts(s)[j].Code?
    ensures SourceAt(s, j) < SourceAt(s, k) && StrippedAt(s, j) < StrippedAt(s, k)
  {
    hide Parts;
    var ps := Parts(s);
    SplitAt(ps[..k], j);
    assert ps[..k][..j] == ps[..j];
  }

  // ----- idempotence

  predicate BareCSharp(t: string) {
    && (forall k :: 0 <= k < |t| ==> !IsStringQuote(t[k]))
    && (forall k {:trigger t[k]} :: 0 <= k < |t| - 1 ==> !SlashPair(t[k], t[k + 1]))
  }

  lemma BareCSharpConcat(a: string, b: string)
    requires BareCSharp(a) && BareCSharp(b)
    requires a != "" && b != "" ==> !SlashPair(a[|a| - 1], b[0])
    ensures BareCSharp(a + b)
  {
    var t := a + b;
    forall k | 0 <= k < |t| - 1 ensures !SlashPair(t[k], t[k + 1]) {
      if k + 1 < |a| {
        assert !SlashPair(a[k], a[k + 1]);
      } else if k >= |a| {
        assert !SlashPair(b[k - |a|], b[k - |a| + 1]);
      }
    }
  }

  lemma EmitIsBare(p: Part)
    requires p.Code? ==> !IsStringQuote(p.c)
    ensures BareCSharp(p.Emit())
    ensures !p.Code? && p.Emit() != "" ==> p.Emit()[|p.Emit()| - 1] == '_' || p.Emit()[|p.Emit()| - 1] == '\n'
    ensures !p.Code? && p.Emit() != "" ==> p.Emit()[0] == '_' || p.Emit()[0] == '\n'
  {
    if p.Comment? || p.Block? {
      LineFeedsCount(Newlines(p.text));
    }
  }

  lemma {:induction false} StripCSharpIsBare(s: string)
    ensures BareCSharp(StripCSharp(s))
    decreases |s|
  {
    if s != "" {
      var p := PartHead(s);
      var rest := s[|p.Text()|..];
      StripCSharpIsBare(rest);
      EmitIsBare(p);
      NothingGluedCSharp(s);
      PartsUnfold(s);
      BareCSharpConcat(p.Emit(), StripCSharp(rest));
    }
  }

  lemma NothingGluedCSharp(s: string)
    requires s != ""
    ensures var p := PartHead(s);
            var out := StripCSharp(s[|p.Text()|..]);
            p.Emit() != "" && out != "" ==> !SlashPair(p.Emit()[|p.Emit()| - 1], out[0])
  {
    var p := PartHead(s);
    var rest := s[|p.Text()|..];
    EmitIsBare(p);
    if p.Code? && p.c == '/' && rest != "" {
      assert rest == s[1..] && rest[0] == s[1];
      var q := PartHead(rest);
      EmitIsBare(q);
      assert q.Code? ==> q.c == rest[0];
      assert !OpensComment(rest);
      assert q.Emit() != "" || q.Dropped?;
      PartsUnfold(rest);
    }
  }

  lemma {:induction false} BareCSharpIsFixed(t: string)
    requires BareCSharp(t)
    ensures StripCSharp(t) == t
  {
    if t != "" {
      assert !IsStringQuote(t[0]);
      assert |t| > 1 ==> !IsStringQuote(t[1]) && !SlashPair(t[0], t[1]);
      assert |t| > 2 ==> !IsStringQuote(t[2]);
      assert PartHead(t) == Code(t[0]);
      forall k | 0 <= k < |t| - 1 ensures !IsStringQuote(t[1..][k]) && (k < |t| - 2 ==> !SlashPair(t[1..][k], t[1..][k + 1])) {
        assert !IsStringQuote(t[k + 1]);
      }
      BareCSharpIsFixed(t[1..]);
      PartsUnfold(t);
      assert t == [t[0]] + t[1..];
    }
  }

  lemma StripCSharpIsIdempotent(s: string)
    ensures StripCSharp(StripCSharp(s)) == StripCSharp(s)
    ensures StripCSharp(s) == s <==> BareCSharp(s)
  {
    StripCSharpIsBare(s);
    BareCSharpIsFixed(StripCSharp(s));
    if BareCSharp(s) {
      BareCSharpIsFixed(s);
    }
  }

  // ----- the loop

  ghost predicate StripProgress(s: string, i: nat, b: string) {
    i <= |s| && StripCSharp(s) == b + StripCSharp(s[i..])
  }

  lemma StripStep(s: string, i: nat, b: string, p: Part)
    requires i < |s| && StripProgress(s, i, b) && p == PartHead(s[i..])
    ensures i + |p.Text()| <= |s| && StripProgress(s, i + |p.Text()|, b + p.Emit())
    ensures p.Dropped? ==> StripCSharp(s) == b
  {
    hide PartHead, Part.Emit, Part.Text, Parts, EmitOf;
    PartsUnfold(s[i..]);
    assert s[i..][|p.Text()|..] == s[i + |p.Text()|..];
    var rest := StripCSharp(s[i + |p.Text()|..]);
    assert b + (p.Emit() + rest) == (b + p.Emit()) + rest;
    if p.Dropped? {
      DroppedIsLast(s[i..]);
      assert b + "" == b;
    }
  }

  lemma DroppedIsLast(s: string)
    requires s != "" && PartHead(s).Dropped?
    ensures StripCSharp(s) == ""
  {
    PartsUnfold(s);
    assert s[|s|..] == "";
  }

  method LooseEnd(s: string, i: nat) returns (j: nat)
    requires i < |s|
    ensures j == i + 1 + LooseCloseLen(s[i], s[i + 1..])
  {
    var quote := s[i];
    j := i + 1;
    while j < |s|
      invariant i < j <= |s|
      invariant i + 1 + LooseCloseLen(quote, s[i + 1..]) == j + LooseCloseLen(quote, s[j..])
    {
      assert s[j..][1..] == s[j + 1..];
      assert j + 1 < |s| ==> s[j..][2..] == s[j + 2..];
      if s[j] == '\\' {
        if j + 1 >= |s| {
          return |s|;
        }
        j := j + 2;
        continue;
      }
      if s[j] == quote || s[j] == '\n' {
        j := j + 1;
        return;
      }
      j := j + 1;
    }
  }

  method CommentPart(s: string, i: nat) returns (p: Part)
    requires i < |s| && OpensComment(s[i..])
    ensures p == PartHead(s[i..])
  {
    var head := CommentAt(s, i);
    p := if head.Cut? then Dropped(s[i..]) else Comment(s[i..][..head.Length()]);
  }

  method RawPart(s: string, i: nat) returns (p: Part)
    requires i < |s| && StartsRaw(s[i..])
    ensures p == PartHead(s[i..])
  {
    hide QuoteRun, Quotes, Index, OccursAt;
    RawHeadIs(s[i..]);
    hide PartHead;
    var open := QuoteRunAt(s, i);
    assert s[i..][open..] == s[i + open..];
    var j := Index(s[i + open..], Quotes(open));
    return if j < 0 then Dropped(s[i..]) else Block(s[i..][..open + j + open]);
  }

  lemma RawHeadIs(s: string)
    requires StartsRaw(s)
    ensures var open := QuoteRun(s);
            var j := Index(s[open..], Quotes(open));
            && (j >= 0 ==> open + j + open <= |s|)
            && PartHead(s) == if j < 0 then Dropped(s) else Block(s[..open + j + open])
  {
    hide QuoteRun, Quotes, Index, OccursAt, QuotedCloseLen, LooseCloseLen, CommentLen, VerbatimStart;
    assert !OpensComment(s);
    assert RawLen(s).Some? ==> RawLen(s).value <= |s|;
  }

  /** What starts at `i`: one round of the loop. */
  method PartAt(s: string, i: nat) returns (p: Part)
    requires i < |s|
    ensures p == PartHead(s[i..])
  {
    hide CommentLen, RawLen, PartHead;
    var c := s[i];
    assert s[i..][0] == c && (i + 1 < |s| ==> s[i..][1] == s[i + 1]);
    if c == '/' && i + 1 < |s| && (s[i + 1] == '/' || s[i + 1] == '*') {
      p := CommentPart(s, i);
      return;
    }
    if StartsRaw(s[i..]) {
      p := RawPart(s, i);
      return;
    }
    p := OtherPart(s, i);
  }

  /** A verbatim string, an ordinary literal, or a byte of code. */
  method OtherPart(s: string, i: nat) returns (p: Part)
    requires i < |s| && !OpensComment(s[i..]) && !StartsRaw(s[i..])
    ensures p == PartHead(s[i..])
  {
    hide QuotedCloseLen, LooseCloseLen, PartHead, VerbatimStart, StartsRaw, OpensComment;
    PartHeadIs(s[i..]);
    var c := s[i];
    var start := VerbatimStart(s[i..]);
    if start > 0 {
      assert s[i..][start..] == s[i + start..];
      var j := QuotedEnd(s, i + start, true);
      return Block(s[i..][..j - i]);
    }
    if c == '"' || c == '\'' {
      assert s[i..][1..] == s[i + 1..];
      var j := LooseEnd(s, i);
      return Ordinary(s[i..][..j - i]);
    }
    return Code(c);
  }

  lemma PartHeadIs(s: string)
    requires s != "" && !OpensComment(s) && !StartsRaw(s)
    ensures var n := VerbatimStart(s);
            PartHead(s) == if n > 0 then Block(s[..n + QuotedCloseLen(s[n..], true)])
                           else if IsStringQuote(s[0]) then Ordinary(s[..1 + LooseCloseLen(s[0], s[1..])])
                           else Code(s[0])
  {
    hide QuotedCloseLen, LooseCloseLen, VerbatimStart;
  }

  method StripCSharpCommentsAndStrings(src: string) returns (b: string)
    ensures b == StripCSharp(src)
  {
    hide StripCSharp, PartHead, Part.Emit, Part.Text;
    b := "";
    var i: nat := 0;
    assert src[0..] == src && b + StripCSharp(src) == StripCSharp(src);
    while i < |src|
      invariant StripProgress(src, i, b)
      decreases |src| - i
    {
      var p := PartAt(src, i);
      StripStep(src, i, b, p);
      if p.Dropped? {
        return b;
      }
      b := b + p.Emit();
      i := i + |p.Text()|;
    }
    StripDone(src, b);
  }

  lemma StripDone(s: string, b: string)
    requires StripProgress(s, |s|, b)
    ensures StripCSharp(s) == b
  {
    NoParts();
    assert s[|s|..] == "" && b + "" == b;
  }
}
