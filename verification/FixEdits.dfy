/** Targeted search/replace edits: ApplyFixEdits and applyWhitespaceTolerant of fix_edits.go. */
module FixEdits {
  import opened Text
  import opened GoStrings
  import Literals

  datatype FixEdit = FixEdit(find: string, replace: string)

  datatype Refusal =
    | EmptyAnchor
    | AnchorNotFound
    | ConflictingReplacements(occurrences: nat)
    | WrongNumberOfEdits(occurrences: nat, edits: nat)

  datatype Outcome = Outcome(edit: FixEdit, refusal: Option<Refusal>) {
    predicate Applied() { refusal.None? }
  }

  // ----- the whitespace-tolerant fallback

  function ToLF(s: string): string { ReplaceAll(s, "\r\n", "\n") }

  function Lines(s: string): (ls: seq<string>)
    ensures ls != []
  {
    Split(ToLF(s), "\n")
  }

  function TrimLines(ls: seq<string>): (ts: seq<string>)
    ensures |ts| == |ls|
    ensures forall k :: 0 <= k < |ls| ==> ts[k] == Trim(ls[k])
  {
    seq(|ls|, k requires 0 <= k < |ls| => Trim(ls[k]))
  }

  /** The anchor, each line trimmed. */
  function Normalized(find: string): string { Join(TrimLines(Lines(find)), "\n") }

  function AnchorLines(find: string): (ls: seq<string>)
    ensures ls != []
  {
    Split(Normalized(find), "\n")
  }

  /** The window of `content` at line `i` is the anchor, line by line, up to surrounding space. */
  predicate WindowMatches(content: seq<string>, anchor: seq<string>, i: nat) {
    i + |anchor| <= |content| && forall j :: 0 <= j < |anchor| ==> Trim(content[i + j]) == anchor[j]
  }

  ghost predicate UniqueWindow(content: seq<string>, anchor: seq<string>, i: nat) {
    WindowMatches(content, anchor, i) && forall k: nat :: WindowMatches(content, anchor, k) ==> k == i
  }

  /** The leading spaces and tabs of a line. */
  function Indent(line: string): (r: string)
    ensures r <= line
  {
    if line != "" && (line[0] == ' ' || line[0] == '\t') then [line[0]] + Indent(line[1..]) else ""
  }

  function Reindented(indent: string, line: string): string {
    if IsBlank(line) then "" else indent + Trim(line)
  }

  function ReindentAll(indent: string, ls: seq<string>): (rs: seq<string>)
    ensures |rs| == |ls|
    ensures forall k :: 0 <= k < |ls| ==> rs[k] == Reindented(indent, ls[k])
  {
    seq(|ls|, k requires 0 <= k < |ls| => Reindented(indent, ls[k]))
  }

  /** The lines with the window at `at` replaced. */
  function Spliced(content: seq<string>, anchor: seq<string>, replace: string, at: nat): (r: seq<string>)
    requires at + |anchor| <= |content| && anchor != []
    ensures |r| == |content| - |anchor| + |Lines(replace)| && r != []
  {
    content[..at] + ReindentAll(Indent(content[at]), Lines(replace)) + content[at + |anchor|..]
  }

  /** The one window that matches, if there is exactly one. */
  ghost function TheWindow(content: seq<string>, anchor: seq<string>): (r: Option<nat>)
    ensures r.Some? ==> UniqueWindow(content, anchor, r.value)
    ensures r.None? ==> forall k: nat :: !UniqueWindow(content, anchor, k)
  {
    if exists i: nat :: UniqueWindow(content, anchor, i) then
      var i: nat :| UniqueWindow(content, anchor, i);
      Some(i)
    else None
  }

  lemma WindowIsOne(content: seq<string>, anchor: seq<string>, i: nat)
    requires UniqueWindow(content, anchor, i)
    ensures TheWindow(content, anchor) == Some(i) && i + |anchor| <= |content|
  {
  }

  /** The content with the one matching window replaced; None when the fallback declines. */
  ghost function Fallback(content: string, find: string, replace: string): (r: Option<string>) {
    var lines, anchor := Lines(content), AnchorLines(find);
    var w := TheWindow(lines, anchor);
    if IsBlank(Normalized(find)) || w.None? then None
    else Some(Join(Spliced(lines, anchor, replace, w.value), "\n"))
  }

  /** The window scan: where the only matching window is. */
  method FindWindow(content: seq<string>, anchor: seq<string>) returns (at: int)
    requires anchor != []
    ensures at >= 0 ==> UniqueWindow(content, anchor, at)
    ensures at < 0 ==> forall k: nat :: !UniqueWindow(content, anchor, k)
  {
    hide WindowMatches;
    at := -1;
    var i := 0;
    while i + |anchor| <= |content|
      invariant 0 <= i
      invariant -1 <= at < i
      invariant at >= 0 ==> WindowMatches(content, anchor, at)
      invariant forall k: nat :: k < i && WindowMatches(content, anchor, k) ==> k == at
    {
      var ok := WindowAt(content, anchor, i);
      if !ok {
        i := i + 1;
        continue;
      }
      if at >= 0 {
        assert WindowMatches(content, anchor, at) && WindowMatches(content, anchor, i) && at != i;
        return -1;
      }
      at := i;
      i := i + 1;
    }
    forall k: nat | WindowMatches(content, anchor, k) ensures k < i {
      WindowFits(content, anchor, k);
    }
  }

  method WindowAt(content: seq<string>, anchor: seq<string>, i: nat) returns (ok: bool)
    requires i + |anchor| <= |content|
    ensures ok == WindowMatches(content, anchor, i)
  {
    hide Trim;
    ok := true;
    var j := 0;
    while j < |anchor|
      invariant 0 <= j <= |anchor|
      invariant forall k :: 0 <= k < j ==> Trim(content[i + k]) == anchor[k]
    {
      if Trim(content[i + j]) != anchor[j] {
        return false;
      }
      j := j + 1;
    }
  }

  method ReindentLines(indent: string, ls: seq<string>) returns (repl: seq<string>)
    ensures repl == ReindentAll(indent, ls)
  {
    repl := [];
    var k := 0;
    while k < |ls|
      invariant 0 <= k <= |ls| && |repl| == k
      invariant forall j :: 0 <= j < k ==> repl[j] == Reindented(indent, ls[j])
    {
      if IsBlank(ls[k]) {
        repl := repl + [""];
        k := k + 1;
        continue;
      }
      repl := repl + [indent + Trim(ls[k])];
      k := k + 1;
    }
  }

  method ApplyWhitespaceTolerant(content: string, find: string, replace: string) returns (out: string, ok: bool)
    ensures ok == Fallback(content, find, replace).Some?
    ensures out == if ok then Fallback(content, find, replace).value else content
  {
    hide UniqueWindow, Trim, Join, Split, Lines, Normalized;
    var target := Normalized(find);
    if IsBlank(target) {
      return content, false;
    }
    var contentLines := Lines(content);
    var findLines := Split(target, "\n");
    var matchAt := FindWindow(contentLines, findLines);
    if matchAt < 0 {
      return content, false;
    }
    WindowIsOne(contentLines, findLines, matchAt);
    var repl := ReindentLines(Indent(contentLines[matchAt]), Lines(replace));
    var lines := contentLines[..matchAt] + repl + contentLines[matchAt + |findLines|..];
    return Join(lines, "\n"), true;
  }

  lemma WindowFits(content: seq<string>, anchor: seq<string>, i: nat)
    requires WindowMatches(content, anchor, i)
    ensures i + |anchor| <= |content|
  {
  }

  // ----- what the fallback leaves alone

  lemma {:induction false} TrimLeftFree(s: string, c: char)
    requires FreeOf(s, c)
    ensures FreeOf(TrimLeft(s), c)
  {
    if s != "" && IsSpace(s[0]) {
      TrimLeftFree(s[1..], c);
    }
  }

  lemma {:induction false} TrimFree(s: string, c: char)
    requires FreeOf(s, c)
    ensures FreeOf(Trim(s), c)
  {
    TrimLeftFree(s, c);
    var t := TrimLeft(s);
    hide TrimRight, TrimLeft;
    assert TrimRight(t) <= t;
  }

  lemma LinesAreFree(s: string)
    ensures AllFreeOf(Lines(s), '\n')
  {
    SplitIsFree(ToLF(s), '\n');
  }

  /** The anchor's lines are its own lines, trimmed: joining and splitting again changes nothing. */
  lemma AnchorIsTrimmedLines(find: string)
    ensures AnchorLines(find) == TrimLines(Lines(find))
  {
    var ls := Lines(find);
    LinesAreFree(find);
    forall k | 0 <= k < |ls| ensures FreeOf(TrimLines(ls)[k], '\n') {
      TrimFree(ls[k], '\n');
    }
    SplitOfJoin(TrimLines(ls), '\n');
  }

  lemma ReindentedFree(indent: string, line: string)
    requires FreeOf(indent, '\n') && FreeOf(line, '\n')
    ensures FreeOf(Reindented(indent, line), '\n')
  {
    TrimFree(line, '\n');
    hide Trim;
    forall k | 0 <= k < |indent + Trim(line)| ensures (indent + Trim(line))[k] != '\n' {
      assert k < |indent| ==> (indent + Trim(line))[k] == indent[k];
      assert k >= |indent| ==> (indent + Trim(line))[k] == Trim(line)[k - |indent|];
    }
  }

  lemma SplicedIsFree(content: seq<string>, anchor: seq<string>, replace: string, at: nat)
    requires at + |anchor| <= |content| && anchor != [] && AllFreeOf(content, '\n')
    ensures AllFreeOf(Spliced(content, anchor, replace, at), '\n')
  {
    assert FreeOf(content[at], '\n');
    ReindentAllFree(Indent(content[at]), replace);
    hide FreeOf, Lines, Indent, ReindentAll;
    ThreeFree(content[..at], ReindentAll(Indent(content[at]), Lines(replace)), content[at + |anchor|..], '\n');
  }

  lemma ReindentAllFree(indent: string, replace: string)
    requires FreeOf(indent, '\n')
    ensures AllFreeOf(ReindentAll(indent, Lines(replace)), '\n')
  {
    LinesAreFree(replace);
    hide FreeOf, Lines, Reindented;
    var ls := Lines(replace);
    forall k | 0 <= k < |ls| ensures FreeOf(ReindentAll(indent, ls)[k], '\n') {
      ReindentedFree(indent, ls[k]);
    }
  }

  lemma ThreeFree(a: seq<string>, b: seq<string>, c: seq<string>, x: char)
    requires AllFreeOf(a, x) && AllFreeOf(b, x) && AllFreeOf(c, x)
    ensures AllFreeOf(a + b + c, x)
  {
    hide FreeOf;
  }

  /** A window matches when each of its lines and the anchor's line are the same once trimmed. */
  lemma WindowIs(content: seq<string>, find: string, i: nat)
    ensures WindowMatches(content, AnchorLines(find), i) <==>
            && i + |Lines(find)| <= |content|
            && forall j :: 0 <= j < |Lines(find)| ==> Trim(content[i + j]) == Trim(Lines(find)[j])
  {
    AnchorIsTrimmedLines(find);
    hide Trim, Lines, AnchorLines;
    if i + |Lines(find)| <= |content| {
      forall j | 0 <= j < |Lines(find)| ensures AnchorLines(find)[j] == Trim(Lines(find)[j]) {
      }
    }
  }

  // ----- lines, whatever they end with

  /** Lines as they stand in a file: each ends with a line feed, a carriage return before it or not, and
      the last does not end. */
  datatype Ended = Ended(line: string, crlf: bool)

  function Terminator(e: Ended): string { if e.crlf then "\r\n" else "\n" }

  function FileText(es: seq<Ended>, last: string): string {
    if es == [] then last else es[0].line + Terminator(es[0]) + FileText(es[1..], last)
  }

  function LinesOf(es: seq<Ended>, last: string): seq<string> {
    if es == [] then [last] else [es[0].line] + LinesOf(es[1..], last)
  }

  /** A carriage return at the end of a line belongs to the terminator. */
  predicate IsLine(e: Ended) {
    FreeOf(e.line, '\n') && (!e.crlf && e.line != "" ==> e.line[|e.line| - 1] != '\r')
  }

  predicate AreLines(es: seq<Ended>, last: string) {
    FreeOf(last, '\n') && forall k :: 0 <= k < |es| ==> IsLine(es[k])
  }

  /** The first `\r\n` of a text that starts with a line. */
  lemma FirstReturn(e: Ended, rest: string)
    requires IsLine(e)
    ensures var s := e.line + Terminator(e) + rest;
            var n := |e.line| + |Terminator(e)|;
            Index(s, "\r\n") == if e.crlf then |e.line| else if Index(rest, "\r\n") < 0 then -1 else n + Index(rest, "\r\n")
  {
    var s := e.line + Terminator(e) + rest;
    var n := |e.line| + |Terminator(e)|;
    assert s[n..] == rest;
    forall k: nat | k < (if e.crlf then |e.line| else n) ensures !OccursAt(s, "\r\n", k) {
      NoReturnInLine(e, rest, k);
    }
    if e.crlf {
      assert OccursAt(s, "\r\n", |e.line|);
      FoundFirst(s, "\r\n", |e.line|);
    } else {
      hide OccursAt;
      Literals.IndexSkip(s, "\r\n", n);
    }
  }

  lemma NoReturnInLine(e: Ended, rest: string, k: nat)
    requires IsLine(e) && k < if e.crlf then |e.line| else |e.line| + 1
    ensures !OccursAt(e.line + Terminator(e) + rest, "\r\n", k)
  {
    var s := e.line + Terminator(e) + rest;
    if k + 2 <= |s| {
      assert s[k..k + 2][0] == s[k] && s[k..k + 2][1] == s[k + 1];
      if k + 1 < |e.line| {
        assert s[k + 1] == e.line[k + 1];
      } else if k + 1 == |e.line| {
        assert s[k + 1] == Terminator(e)[0] && s[k] == e.line[k];
      } else {
        assert s[k] == '\n';
      }
    }
  }

  lemma FoundFirst(s: string, sub: string, k: nat)
    requires OccursAt(s, sub, k) && forall j: nat :: j < k ==> !OccursAt(s, sub, j)
    ensures Index(s, sub) == k
  {
    hide OccursAt;
  }

  lemma {:induction false} ReturnsGo(es: seq<Ended>, last: string)
    requires AreLines(es, last)
    ensures ToLF(FileText(es, last)) == Join(LinesOf(es, last), "\n") && AllFreeOf(LinesOf(es, last), '\n')
  {
    if es == [] {
      LastLine(last);
    } else {
      var e, rest := es[0], FileText(es[1..], last);
      assert IsLine(e);
      ReturnsGo(es[1..], last);
      FirstReturn(e, rest);
      hide Index, FreeOf;
      OneReturnGoes(e, rest);
      JoinCons(e.line, LinesOf(es[1..], last), "\n");
    }
  }

  lemma LastLine(last: string)
    requires FreeOf(last, '\n')
    ensures ToLF(last) == last
  {
    forall k: nat ensures !OccursAt(last, "\r\n", k) {
      if k + 2 <= |last| {
        assert last[k..k + 2][1] == last[k + 1] != '\n';
      }
    }
  }

  lemma OneReturnGoes(e: Ended, rest: string)
    requires IsLine(e)
    ensures ToLF(e.line + Terminator(e) + rest) == e.line + "\n" + ToLF(rest)
  {
    var s := e.line + Terminator(e) + rest;
    FirstReturn(e, rest);
    hide Index, IsLine;
    var n := |e.line| + |Terminator(e)|;
    assert s[n..] == rest;
    if e.crlf {
      SplitUnfold(s, "\r\n");
      JoinCons(e.line, Split(rest, "\r\n"), "\n");
    } else {
      LineKept(e.line + "\n", rest);
    }
  }

  lemma LineKept(a: string, rest: string)
    requires Index(a + rest, "\r\n") == if Index(rest, "\r\n") < 0 then -1 else |a| + Index(rest, "\r\n")
    ensures ToLF(a + rest) == a + ToLF(rest)
  {
    hide Index;
    var s := a + rest;
    var i := Index(rest, "\r\n");
    if i >= 0 {
      var tail := Split(rest[i + 2..], "\r\n");
      SplitUnfold(s, "\r\n");
      SplitUnfold(rest, "\r\n");
      hide Split, Join;
      assert s[|a| + i + 2..] == rest[i + 2..] && s[..|a| + i] == a + rest[..i];
      JoinCons(a + rest[..i], tail, "\n");
      JoinCons(rest[..i], tail, "\n");
      assert a + rest[..i] + "\n" + Join(tail, "\n") == a + (rest[..i] + "\n" + Join(tail, "\n"));
    }
  }

  /** Both kinds of line ending are one to the fallback: the lines of a file are its lines without their
      terminators. */
  lemma LinesAre(es: seq<Ended>, last: string)
    requires AreLines(es, last)
    ensures Lines(FileText(es, last)) == LinesOf(es, last)
  {
    ReturnsGo(es, last);
    hide ToLF, FileText, AreLines;
    SplitOfJoin(LinesOf(es, last), '\n');
  }

  /** The fallback succeeds exactly when the trimmed anchor is not blank and one window of lines,
      overlapping windows counted, matches it line by line under trimming. */
  lemma FallbackSucceedsIff(content: string, find: string, replace: string)
    ensures Fallback(content, find, replace).Some? <==>
            !IsBlank(Normalized(find)) && exists at: nat :: UniqueWindow(Lines(content), TrimLines(Lines(find)), at)
  {
    AnchorIsTrimmedLines(find);
    var lines, anchor := Lines(content), AnchorLines(find);
    hide UniqueWindow, Lines, Normalized, IsBlank, Spliced, Join;
    if Fallback(content, find, replace).Some? {
      WindowIsOne(lines, anchor, TheWindow(lines, anchor).value);
      assert UniqueWindow(lines, TrimLines(Lines(find)), TheWindow(lines, anchor).value);
    }
  }

  /** On success the file's lines are the old ones with just the window's lines exchanged, so the line
      count moves by the replacement's lines less the anchor's. */
  lemma FallbackChangesOneWindow(content: string, find: string, replace: string, at: nat)
    ensures var (lines, anchor, repl) := (Lines(content), TrimLines(Lines(find)), Lines(replace));
            var out := Fallback(content, find, replace);
            out.Some? && UniqueWindow(lines, anchor, at) ==>
              && at + |anchor| <= |lines|
              && Split(out.value, "\n") == lines[..at] + ReindentAll(Indent(lines[at]), repl) + lines[at + |anchor|..]
              && |Split(out.value, "\n")| == |lines| + |repl| - |anchor|
  {
    AnchorIsTrimmedLines(find);
    var lines, anchor := Lines(content), AnchorLines(find);
    LinesAreFree(content);
    hide UniqueWindow, Lines, Normalized, IsBlank, Split, Join, AllFreeOf, Indent, ReindentAll;
    if Fallback(content, find, replace).Some? && UniqueWindow(lines, anchor, at) {
      WindowIsOne(lines, anchor, at);
      SplicedIsFree(lines, anchor, replace, at);
      SplitOfJoin(Spliced(lines, anchor, replace, at), '\n');
    }
  }

  /** `indent` is all the spaces and tabs a line starts with. */
  predicate LeadingSpace(line: string, indent: string) {
    && indent <= line
    && (forall k :: 0 <= k < |indent| ==> indent[k] == ' ' || indent[k] == '\t')
    && (|indent| < |line| ==> line[|indent|] != ' ' && line[|indent|] != '\t')
  }

  lemma {:induction false} IndentIs(line: string)
    ensures LeadingSpace(line, Indent(line))
  {
    if line != "" && (line[0] == ' ' || line[0] == '\t') {
      IndentIs(line[1..]);
      assert line == [line[0]] + line[1..];
    }
  }

  /** In the window's place stand the replacement's lines, a blank one empty and any other trimmed and
      put behind the spaces and tabs the window's first line started with. */
  lemma WindowKeepsIndent(content: string, find: string, replace: string, at: nat, j: nat)
    requires Fallback(content, find, replace).Some? && UniqueWindow(Lines(content), TrimLines(Lines(find)), at)
    requires j < |Lines(replace)|
    ensures var after, line := Split(Fallback(content, find, replace).value, "\n"), Lines(replace)[j];
            && at < |Lines(content)| && at + j < |after|
            && (IsBlank(line) ==> after[at + j] == "")
            && (!IsBlank(line) ==> exists indent :: LeadingSpace(Lines(content)[at], indent) && after[at + j] == indent + Trim(line))
  {
    hide Fallback, UniqueWindow, Lines, IsBlank, Trim, Split, Indent, LeadingSpace;
    FallbackChangesOneWindow(content, find, replace, at);
    var lines, repl := Lines(content), Lines(replace);
    IndentIs(lines[at]);
    var after := Split(Fallback(content, find, replace).value, "\n");
    assert after[at + j] == ReindentAll(Indent(lines[at]), repl)[j];
  }

  // ----- applying the edits

  function Multiplicity(edits: seq<FixEdit>, e: FixEdit): nat { multiset(edits)[e] }

  /** The replacements sent for one anchor. */
  function Replacements(edits: seq<FixEdit>, find: string): set<string> {
    set e | e in edits && e.find == find :: e.replace
  }

  datatype Progress = Progress(content: string, applied: set<FixEdit>, outcomes: seq<Outcome>)

  function Accept(p: Progress, e: FixEdit, content: string): Progress {
    Progress(content, p.applied + {e}, p.outcomes + [Outcome(e, None)])
  }

  function Refuse(p: Progress, e: FixEdit, why: Refusal): Progress {
    p.(outcomes := p.outcomes + [Outcome(e, Some(why))])
  }

  /** One edit, judged against the content as it now is and against the whole set of edits. */
  ghost function Judge(edits: seq<FixEdit>, p: Progress, e: FixEdit): (q: Progress)
    ensures |q.outcomes| == |p.outcomes| + 1 && q.outcomes[..|p.outcomes|] == p.outcomes && q.outcomes[|p.outcomes|].edit == e
  {
    if e in p.applied then p.(outcomes := p.outcomes + [Outcome(e, None)])
    else if IsBlank(e.find) then Refuse(p, e, EmptyAnchor)
    else if Index(p.content, e.find) < 0 then
      match Fallback(p.content, e.find, e.replace)
      case Some(c) => Accept(p, e, c)
      case None => Refuse(p, e, AnchorNotFound)
    else if Count(p.content, e.find) > 1 then
      var n := Count(p.content, e.find);
      if |Replacements(edits, e.find)| > 1 then Refuse(p, e, ConflictingReplacements(n))
      else if Multiplicity(edits, e) == n then Accept(p, e, ReplaceAll(p.content, e.find, e.replace))
      else Refuse(p, e, WrongNumberOfEdits(n, Multiplicity(edits, e)))
    else Accept(p, e, ReplaceFirst(p.content, e.find, e.replace))
  }

  ghost function After(edits: seq<FixEdit>, content: string, k: nat): Progress
    requires k <= |edits|
  {
    if k == 0 then Progress(content, {}, []) else Judge(edits, After(edits, content, k - 1), edits[k - 1])
  }

  // ----- no occurrence is ever picked arbitrarily

  /** Why an edit may change `before` into `after`. */
  ghost predicate Justified(edits: seq<FixEdit>, e: FixEdit, before: string, after: string) {
    || IsOnlyOne(e, before, after)
    || IsEveryOne(edits, e, before, after)
    || IsOnlyWindow(e, before, after)
  }

  /** The anchor counts once, and that occurrence is replaced. */
  ghost predicate IsOnlyOne(e: FixEdit, before: string, after: string) {
    && !IsBlank(e.find) && Count(before, e.find) == 1
    && exists k: nat :: OccursAt(before, e.find, k) && after == before[..k] + e.replace + before[k + |e.find|..]
  }

  /** As many identical edits were sent as the anchor counts, no edit asks for anything else, and
      every one of those occurrences is replaced: the text between them stays. */
  ghost predicate IsEveryOne(edits: seq<FixEdit>, e: FixEdit, before: string, after: string) {
    && !IsBlank(e.find) && Multiplicity(edits, e) == Count(before, e.find) > 1
    && (forall e' :: e' in edits && e'.find == e.find ==> e' == e)
    && exists parts :: |parts| == Count(before, e.find) + 1 && before == Join(parts, e.find) && after == Join(parts, e.replace)
  }

  /** The anchor does not occur, and one window of lines matches it up to surrounding space. */
  ghost predicate IsOnlyWindow(e: FixEdit, before: string, after: string) {
    && Index(before, e.find) < 0
    && exists at: nat :: UniqueWindow(Lines(before), AnchorLines(e.find), at)
                      && at + |AnchorLines(e.find)| <= |Lines(before)|
                      && after == Join(Spliced(Lines(before), AnchorLines(e.find), e.replace, at), "\n")
  }

  lemma CountIsPositive(s: string, f: string)
    requires f != ""
    ensures Index(s, f) >= 0 <==> Count(s, f) >= 1
  {
  }

  lemma TwoMembers(rs: set<string>, a: string, b: string)
    requires a in rs && b in rs && a != b
    ensures |rs| >= 2
  {
    assert rs == {a, b} + (rs - {a, b});
    assert |rs| == 2 + |rs - {a, b}|;
  }

  lemma OneReplacement(edits: seq<FixEdit>, e: FixEdit)
    requires e in edits && |Replacements(edits, e.find)| <= 1
    ensures forall e' :: e' in edits && e'.find == e.find ==> e' == e
  {
    forall e' | e' in edits && e'.find == e.find ensures e'.replace == e.replace {
      if e'.replace != e.replace {
        TwoMembers(Replacements(edits, e.find), e.replace, e'.replace);
      }
    }
  }

  lemma OnlyOneJustified(e: FixEdit, before: string)
    requires !IsBlank(e.find) && Count(before, e.find) == 1
    ensures IsOnlyOne(e, before, ReplaceFirst(before, e.find, e.replace))
  {
    CountIsPositive(before, e.find);
    hide IsBlank, Count;
    var k: nat := Index(before, e.find);
    assert OccursAt(before, e.find, k);
  }

  lemma EveryOneJustified(edits: seq<FixEdit>, e: FixEdit, before: string)
    requires !IsBlank(e.find) && e in edits && |Replacements(edits, e.find)| <= 1
    requires Multiplicity(edits, e) == Count(before, e.find) > 1
    ensures IsEveryOne(edits, e, before, ReplaceAll(before, e.find, e.replace))
  {
    var parts := PartsOf(before, e.find, e.replace);
    OneReplacement(edits, e);
    hide IsBlank, Replacements, Multiplicity, ReplaceAll, Count, Join;
    assert |parts| == Count(before, e.find) + 1 && before == Join(parts, e.find);
  }

  lemma PartsOf(s: string, find: string, replace: string) returns (parts: seq<string>)
    requires find != ""
    ensures |parts| == Count(s, find) + 1 && s == Join(parts, find) && ReplaceAll(s, find, replace) == Join(parts, replace)
  {
    JoinOfSplit(s, find);
    parts := Split(s, find);
  }

  lemma OnlyWindowJustified(e: FixEdit, before: string)
    requires Index(before, e.find) < 0 && Fallback(before, e.find, e.replace).Some?
    ensures IsOnlyWindow(e, before, Fallback(before, e.find, e.replace).value)
  {
    hide UniqueWindow, Lines, Join, Index;
    var w := TheWindow(Lines(before), AnchorLines(e.find));
    WindowIsOne(Lines(before), AnchorLines(e.find), w.value);
  }

  /** Every edit either changes nothing or changes the content for one of the three reasons; a
      refused edit and a later copy of an applied one change nothing. */
  lemma JudgeIsJustified(edits: seq<FixEdit>, p: Progress, e: FixEdit)
    requires e in edits
    ensures var q := Judge(edits, p, e);
            && |q.outcomes| == |p.outcomes| + 1 && q.outcomes[..|p.outcomes|] == p.outcomes
            && q.outcomes[|p.outcomes|].edit == e
            && (q.content == p.content || Justified(edits, e, p.content, q.content))
            && (!q.outcomes[|p.outcomes|].Applied() || e in p.applied ==> q.content == p.content && q.applied == p.applied)
            && (q.outcomes[|p.outcomes|].Applied() && e !in p.applied ==>
                  Justified(edits, e, p.content, q.content) && q.applied == p.applied + {e})
  {
    hide Justified, IsOnlyOne, IsEveryOne, IsOnlyWindow, IsBlank, Count;
    hide Fallback, Replacements, Multiplicity, ReplaceAll, ReplaceFirst, Index;
    if e !in p.applied && !IsBlank(e.find) {
      JustifiedByCase(edits, p, e);
    }
  }

  lemma JustifiedByCase(edits: seq<FixEdit>, p: Progress, e: FixEdit)
    requires e in edits && !IsBlank(e.find)
    ensures Index(p.content, e.find) < 0 && Fallback(p.content, e.find, e.replace).Some? ==>
              Justified(edits, e, p.content, Fallback(p.content, e.find, e.replace).value)
    ensures Index(p.content, e.find) >= 0 && Count(p.content, e.find) <= 1 ==>
              Justified(edits, e, p.content, ReplaceFirst(p.content, e.find, e.replace))
    ensures Count(p.content, e.find) > 1 && |Replacements(edits, e.find)| <= 1 && Multiplicity(edits, e) == Count(p.content, e.find) ==>
              Justified(edits, e, p.content, ReplaceAll(p.content, e.find, e.replace))
  {
    CountIsPositive(p.content, e.find);
    hide IsOnlyOne, IsEveryOne, IsOnlyWindow, IsBlank, Count;
    hide Fallback, Replacements, Multiplicity, ReplaceAll, ReplaceFirst, Index;
    if Index(p.content, e.find) < 0 {
      if Fallback(p.content, e.find, e.replace).Some? {
        OnlyWindowJustified(e, p.content);
      }
    } else if Count(p.content, e.find) == 1 {
      OnlyOneJustified(e, p.content);
    } else if |Replacements(edits, e.find)| <= 1 && Multiplicity(edits, e) == Count(p.content, e.find) {
      EveryOneJustified(edits, e, p.content);
    }
  }

  ghost predicate Recorded(edits: seq<FixEdit>, p: Progress, k: nat)
    requires k <= |edits|
  {
    && |p.outcomes| == k
    && (forall j :: 0 <= j < k ==> p.outcomes[j].edit == edits[j])
    && (forall e :: e in p.applied <==> exists j :: 0 <= j < k && edits[j] == e && p.outcomes[j].Applied())
  }

  lemma RecordedStep(edits: seq<FixEdit>, p: Progress, q: Progress, k: nat)
    requires k < |edits| && Recorded(edits, p, k)
    requires |q.outcomes| == k + 1 && q.outcomes[..k] == p.outcomes && q.outcomes[k].edit == edits[k]
    requires q.applied == if q.outcomes[k].Applied() then p.applied + {edits[k]} else p.applied
    ensures Recorded(edits, q, k + 1)
  {
    assert forall j :: 0 <= j < k ==> q.outcomes[j] == p.outcomes[j];
    forall e | e in q.applied ensures exists j :: 0 <= j < k + 1 && edits[j] == e && q.outcomes[j].Applied() {
      if e in p.applied {
        var j :| 0 <= j < k && edits[j] == e && p.outcomes[j].Applied();
        assert q.outcomes[j].Applied();
      } else {
        assert edits[k] == e && q.outcomes[k].Applied();
      }
    }
    forall j | 0 <= j < k + 1 && q.outcomes[j].Applied() ensures edits[j] in q.applied {
      assert j < k ==> p.outcomes[j].Applied();
    }
  }

  /** What holds after the first `k` edits: one outcome each, in order; the applied edits are those
      with an applied outcome. */
  lemma {:induction false} OutcomesMatchEdits(edits: seq<FixEdit>, content: string, k: nat)
    requires k <= |edits|
    ensures Recorded(edits, After(edits, content, k), k)
  {
    hide Judge, Justified, Recorded;
    if k > 0 {
      OutcomesMatchEdits(edits, content, k - 1);
      var p := After(edits, content, k - 1);
      JudgeIsJustified(edits, p, edits[k - 1]);
      RecordedLength(edits, p, k - 1);
      RecordedStep(edits, p, Judge(edits, p, edits[k - 1]), k - 1);
    } else {
      NothingRecorded(edits, content);
    }
  }

  lemma RecordedLength(edits: seq<FixEdit>, p: Progress, k: nat)
    requires k <= |edits| && Recorded(edits, p, k)
    ensures |p.outcomes| == k
    ensures forall j :: 0 <= j < k && p.outcomes[j].Applied() ==> edits[j] in p.applied
  {
  }

  lemma NothingRecorded(edits: seq<FixEdit>, content: string)
    ensures Recorded(edits, Progress(content, {}, []), 0)
  {
  }

  /** Once an edit is applied, every later copy of it is reported applied and changes nothing. */
  lemma CopiesAreSatisfied(edits: seq<FixEdit>, content: string, i: nat, k: nat)
    requires i < k < |edits| && edits[i] == edits[k]
    requires i < |After(edits, content, k).outcomes| && After(edits, content, k).outcomes[i].Applied()
    ensures After(edits, content, k + 1).content == After(edits, content, k).content
    ensures After(edits, content, k + 1).outcomes == After(edits, content, k).outcomes + [Outcome(edits[k], None)]
  {
    OutcomesMatchEdits(edits, content, k);
    RecordedLength(edits, After(edits, content, k), k);
    hide Fallback, Replacements, Multiplicity, ReplaceAll, ReplaceFirst, Index, Count, IsBlank;
  }

  /** If every edit is refused the content is byte for byte what it was. */
  lemma {:induction false} AllRefusedChangesNothing(edits: seq<FixEdit>, content: string, k: nat)
    requires k <= |edits|
    requires forall j :: 0 <= j < |After(edits, content, k).outcomes| ==> !After(edits, content, k).outcomes[j].Applied()
    ensures After(edits, content, k).content == content
  {
    hide Judge, Justified, Recorded;
    if k > 0 {
      var p, e := After(edits, content, k - 1), edits[k - 1];
      var q := Judge(edits, p, e);
      JudgeIsJustified(edits, p, e);
      assert q == After(edits, content, k);
      forall j | 0 <= j < |p.outcomes| ensures !p.outcomes[j].Applied() {
        assert q.outcomes[j] == p.outcomes[j];
      }
      AllRefusedChangesNothing(edits, content, k - 1);
    }
  }

  /** When the anchor cannot overlap itself, "counts once" is "occurs once": nothing was picked. */
  lemma OnlyOneIsSole(e: FixEdit, before: string, after: string)
    requires IsOnlyOne(e, before, after) && Unbordered(e.find)
    ensures SoleOccurrence(before, e.find)
  {
    CountOneMeansSole(before, e.find);
  }

  /** And "all of them" is all there are: as many edits were sent as the anchor has occurrences. */
  lemma EveryOneIsAll(edits: seq<FixEdit>, e: FixEdit, before: string, after: string)
    requires IsEveryOne(edits, e, before, after) && Unbordered(e.find)
    ensures AllAreCounted(before, e.find) && |Sites(before, e.find, 0)| == Multiplicity(edits, e)
  {
    UnborderedAllCounted(before, e.find);
    SitesAreCounted(before, e.find, 0);
    hide Count, Sites, AllAreCounted, Unbordered;
  }

  /** What a refusal says is so. */
  ghost predicate TrueRefusal(edits: seq<FixEdit>, content: string, e: FixEdit, why: Refusal) {
    match why
    case EmptyAnchor => IsBlank(e.find)
    case AnchorNotFound =>
      && !IsBlank(e.find) && (forall k: nat :: !OccursAt(content, e.find, k))
      && (IsBlank(Normalized(e.find)) || forall at: nat :: !UniqueWindow(Lines(content), AnchorLines(e.find), at))
    case ConflictingReplacements(n) =>
      && !IsBlank(e.find) && Count(content, e.find) == n > 1
      && exists x, y :: x in edits && y in edits && x.find == e.find == y.find && x.replace != y.replace
    case WrongNumberOfEdits(n, m) =>
      !IsBlank(e.find) && Count(content, e.find) == n > 1 && Multiplicity(edits, e) == m != n
  }

  lemma TwoReplacements(edits: seq<FixEdit>, find: string)
    requires |Replacements(edits, find)| > 1
    ensures exists x, y :: x in edits && y in edits && x.find == find == y.find && x.replace != y.replace
  {
    var rs := Replacements(edits, find);
    var a :| a in rs;
    assert |rs - {a}| == |rs| - 1;
    var b :| b in rs - {a};
    var x :| x in edits && x.find == find && x.replace == a;
    var y :| y in edits && y.find == find && y.replace == b;
  }

  /** An edit is refused only for a reason that holds, so one that could be applied is. */
  lemma RefusalIsTrue(edits: seq<FixEdit>, p: Progress, e: FixEdit)
    requires !Judge(edits, p, e).outcomes[|p.outcomes|].Applied()
    ensures TrueRefusal(edits, p.content, e, Judge(edits, p, e).outcomes[|p.outcomes|].refusal.value)
  {
    hide Multiplicity, Count, UniqueWindow, Replacements, Lines, Normalized, IsBlank, OccursAt;
    var why := Judge(edits, p, e).outcomes[|p.outcomes|].refusal.value;
    if why.ConflictingReplacements? {
      TwoReplacements(edits, e.find);
    }
  }

  // ----- the loops

  method CountIdentical(edits: seq<FixEdit>) returns (identical: map<FixEdit, nat>)
    ensures forall e :: e in edits ==> e in identical && identical[e] == Multiplicity(edits, e)
  {
    identical := map[];
    var i := 0;
    while i < |edits|
      invariant 0 <= i <= |edits|
      invariant forall e :: e in identical <==> e in edits[..i]
      invariant forall e :: e in identical ==> identical[e] == multiset(edits[..i])[e]
    {
      var e := edits[i];
      assert edits[..i + 1] == edits[..i] + [e];
      identical := identical[e := (if e in identical then identical[e] else 0) + 1];
      i := i + 1;
    }
    assert edits[..i] == edits;
  }

  method CollectReplacements(edits: seq<FixEdit>) returns (replacesForFind: map<string, set<string>>)
    ensures forall f :: f in replacesForFind ==> replacesForFind[f] == Replacements(edits, f)
    ensures forall e :: e in edits && !IsBlank(e.find) ==> e.find in replacesForFind
  {
    replacesForFind := map[];
    var i := 0;
    while i < |edits|
      invariant 0 <= i <= |edits|
      invariant forall f :: f in replacesForFind ==> !IsBlank(f) && replacesForFind[f] == Replacements(edits[..i], f)
      invariant forall e :: e in edits[..i] && !IsBlank(e.find) ==> e.find in replacesForFind
    {
      hide IsBlank, Replacements;
      var e := edits[i];
      ReplacementsGrow(edits, i);
      if IsBlank(e.find) {
        i := i + 1;
        continue;
      }
      var rs := if e.find in replacesForFind then replacesForFind[e.find] else {};
      ReplacementsNone(edits[..i], e.find);
      replacesForFind := replacesForFind[e.find := rs + {e.replace}];
      i := i + 1;
    }
    assert edits[..i] == edits;
  }

  lemma ReplacementsNone(edits: seq<FixEdit>, f: string)
    ensures (forall e :: e in edits ==> e.find != f) ==> Replacements(edits, f) == {}
  {
  }

  lemma ReplacementsGrow(edits: seq<FixEdit>, i: nat)
    requires i < |edits|
    ensures edits[..i + 1] == edits[..i] + [edits[i]]
    ensures forall f :: Replacements(edits[..i + 1], f) ==
              Replacements(edits[..i], f) + if f == edits[i].find then {edits[i].replace} else {}
  {
    assert edits[..i + 1] == edits[..i] + [edits[i]];
  }

  lemma NotEmpty(s: string)
    requires !IsBlank(s)
    ensures s != ""
  {
  }

  /** One edit of the loop. */
  method JudgeEdit(ghost edits: seq<FixEdit>, identical: map<FixEdit, nat>, replacesForFind: map<string, set<string>>,
    content: string, groupApplied: set<FixEdit>, e: FixEdit)
    returns (content': string, groupApplied': set<FixEdit>, outcome: Outcome)
    requires e in identical && identical[e] == Multiplicity(edits, e)
    requires !IsBlank(e.find) ==> e.find in replacesForFind && replacesForFind[e.find] == Replacements(edits, e.find)
    ensures forall outcomes :: Judge(edits, Progress(content, groupApplied, outcomes), e) ==
                               Progress(content', groupApplied', outcomes + [outcome])
  {
    hide IsBlank, Count, Fallback, Replacements, Multiplicity, ReplaceAll, ReplaceFirst, Index;
    var find := e.find;
    if e in groupApplied {
      return content, groupApplied, Outcome(e, None);
    }
    if IsBlank(find) {
      return content, groupApplied, Outcome(e, Some(EmptyAnchor));
    }
    if Index(content, find) < 0 {
      var relaxed, ok := ApplyWhitespaceTolerant(content, find, e.replace);
      if ok {
        return relaxed, groupApplied + {e}, Outcome(e, None);
      }
      return content, groupApplied, Outcome(e, Some(AnchorNotFound));
    }
    NotEmpty(find);
    var occurrences := Count(content, find);
    if occurrences > 1 {
      if |replacesForFind[find]| > 1 {
        return content, groupApplied, Outcome(e, Some(ConflictingReplacements(occurrences)));
      }
      if identical[e] == occurrences {
        return ReplaceAll(content, find, e.replace), groupApplied + {e}, Outcome(e, None);
      }
      return content, groupApplied, Outcome(e, Some(WrongNumberOfEdits(occurrences, identical[e])));
    }
    return ReplaceFirst(content, find, e.replace), groupApplied + {e}, Outcome(e, None);
  }

  method ApplyFixEdits(content: string, edits: seq<FixEdit>) returns (result: string, outcomes: seq<Outcome>)
    ensures result == After(edits, content, |edits|).content && outcomes == After(edits, content, |edits|).outcomes
  {
    hide Judge, IsBlank, Replacements, Multiplicity;
    var identical := CountIdentical(edits);
    var replacesForFind := CollectReplacements(edits);
    var groupApplied: set<FixEdit> := {};
    result, outcomes := content, [];
    var i := 0;
    while i < |edits|
      invariant 0 <= i <= |edits|
      invariant Progress(result, groupApplied, outcomes) == After(edits, content, i)
    {
      var outcome;
      assert edits[i] in edits;
      result, groupApplied, outcome := JudgeEdit(edits, identical, replacesForFind, result, groupApplied, edits[i]);
      outcomes := outcomes + [outcome];
      i := i + 1;
    }
  }
}
