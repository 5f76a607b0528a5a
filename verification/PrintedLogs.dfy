/** Logs as compilers print them, read with the source's own pattern: what FileDiagnostics makes of them,
    and which orders it tells apart. */
module PrintedLogs {
  import opened Text
  import opened Words
  import opened LogPattern
  import opened FileDiagnostics
  import opened LogOrder
  import Stalls

  /** A diagnostic as printed: its location comes first, no other is in it, and it ends its line. */
  predicate Framed(d: Block) {
    && Printed(d) && Find(d.text).Some?
    && var m := Find(d.text).value; m.at == 0 && m.path == d.path && Find(d.text[m.end..]).None?
  }

  predicate AllFramed(ds: seq<Block>) { forall k :: 0 <= k < |ds| ==> Framed(ds[k]) }

  /** No location in the texts between the diagnostics, nor in the one after them. */
  predicate QuietAround(seps: seq<string>) {
    forall k :: 0 <= k < |seps| ==> if k < |seps| - 1 then Quiet(seps[k]) else Find(seps[k]).None?
  }

  function LogText(ds: seq<Block>, seps: seq<string>): string
    requires |seps| == |ds|
  {
    if ds == [] then "" else ds[0].text + (seps[0] + LogText(ds[1..], seps[1..]))
  }

  // ----- reading them

  lemma QuietShifts(q: string, t: string)
    requires Quiet(q)
    ensures Find(q + t) == Shifted(Find(t), |q|)
  {
    hide Find;
    FindInFront(q, t);
  }

  lemma QuietPrefix(q: string, t: string)
    requires Quiet(q)
    ensures Owned(q + t) == Owned(t)
  {
    hide *;
    QuietShifts(q, t);
    ShiftedOwned(q, t);
  }

  lemma ShiftedOwned(q: string, t: string)
    requires Find(q + t) == Shifted(Find(t), |q|)
    ensures Owned(q + t) == Owned(t)
  {
    hide Find, Owned;
    if Find(t).Some? {
      var m := Find(t).value;
      OwnedBehind(q, t, m, Match(m.at + |q|, m.end + |q|, m.path));
    } else {
      NothingOwned(t);
      NothingOwned(q + t);
    }
  }

  lemma OwnedBehind(q: string, t: string, m: Match, n: Match)
    requires n == Match(m.at + |q|, m.end + |q|, m.path) && Find(t) == Some(m) && Find(q + t) == Some(n)
    ensures Owned(q + t) == Owned(t)
  {
    hide Find, Owned;
    var rest, stop := t[m.end..], Stop(t, m);
    SliceBehind(q, t, m.end, |t|);
    SliceBehind(q, t, m.at, stop);
    OwnedUpTo(t, m, rest, stop);
    OwnedUpTo(q + t, n, rest, stop + |q|);
  }

  lemma SliceBehind(q: string, t: string, a: nat, b: nat)
    requires a <= b <= |t|
    ensures (q + t)[a + |q|..b + |q|] == t[a..b] && (q + t)[a + |q|..] == t[a..]
  {
  }

  lemma QuietConcat(a: string, b: string)
    requires Quiet(a) && Closed(b) && Find(b).None?
    ensures Quiet(a + b)
  {
    FindInFront(a, b);
    hide Find, IsSpace;
    assert b != "" ==> (a + b)[|a + b| - 1] == b[|b| - 1];
    assert b == "" ==> a + b == a;
  }

  /** What is left of a diagnostic behind its location. */
  lemma RestIsQuiet(d: Block)
    requires Framed(d)
    ensures Quiet(d.text[Find(d.text).value.end..])
  {
    hide Find, IsBlank;
    var e := Find(d.text).value.end;
    assert e < |d.text| ==> d.text[e..][|d.text| - e - 1] == d.text[|d.text| - 1];
  }

  /** A diagnostic before another, or before the end of the log, owns what stands between. */
  lemma HeadRead(d: Block, sep: string, t: string)
    requires Framed(d) && (t == "" ==> Find(sep).None?)
    requires t != "" ==> Quiet(sep) && Find(t).Some? && Find(t).value.at == 0
    ensures Owned(d.text + (sep + t)) == [Followed(d, sep)] + (if t == "" then [] else Owned(t))
  {
    var m, rest := Find(d.text).value, d.text[Find(d.text).value.end..];
    FramedFinds(d, sep + t, m);
    RestFinds(rest, sep, t);
    hide *;
    HeadBlock(d, sep, t, m, (rest + sep) + t);
  }

  lemma HeadBlock(d: Block, sep: string, t: string, m: Match, rest: string)
    requires m.at == 0 && m.path == d.path && m.end <= |d.text| && rest == (d.text[m.end..] + sep) + t
    requires Find(d.text + (sep + t)) == Some(m)
    requires match Find(rest) case None => t == "" case Some(n) => n.at == |d.text[m.end..]| + |sep|
    ensures Owned(d.text + (sep + t)) == [Followed(d, sep)] + Owned(rest)
  {
    hide Find, Owned;
    BehindLocation(d.text, sep, t, m.end);
    OwnedUpTo(d.text + (sep + t), m, rest, |d.text| + |sep|);
  }

  lemma FramedFinds(d: Block, after: string, m: Match)
    requires Framed(d) && Find(d.text) == Some(m)
    ensures Find(d.text + after) == Some(m) && m.at == 0 && m.path == d.path && Quiet(d.text[m.end..])
  {
    RestIsQuiet(d);
    hide Find, Quiet, IsBlank;
    FindInFront(d.text, after);
  }

  lemma RestFinds(rest: string, sep: string, t: string)
    requires Quiet(rest) && (t == "" ==> Find(sep).None?)
    requires t != "" ==> Quiet(sep) && Find(t).Some? && Find(t).value.at == 0
    ensures t == "" ==> Find((rest + sep) + t).None? && Owned((rest + sep) + t) == []
    ensures t != "" ==> Find((rest + sep) + t).Some? && Find((rest + sep) + t).value.at == |rest| + |sep|
    ensures t != "" ==> Owned((rest + sep) + t) == Owned(t)
  {
    hide *;
    if t == "" {
      EndRead(rest, sep);
      assert (rest + sep) + t == rest + sep;
    } else {
      QuietBoth(rest, sep, t);
    }
  }

  lemma BehindLocation(text: string, sep: string, t: string, e: nat)
    requires e <= |text|
    ensures (text + (sep + t))[e..] == (text[e..] + sep) + t
    ensures (text + (sep + t))[0..|text| + |sep|] == text + sep
  {
  }

  lemma OwnedUpTo(s: string, m: Match, rest: string, stop: nat)
    requires Find(s) == Some(m) && rest == s[m.end..] && m.end <= stop <= |s|
    requires stop == match Find(rest) case None => |s| case Some(n) => m.end + n.at
    ensures Owned(s) == [Block(m.path, s[m.at..stop])] + Owned(rest)
  {
    hide Owned, Find;
    OwnedStep(s, m);
  }

  lemma EndRead(rest: string, sep: string)
    requires Quiet(rest) && Find(sep).None?
    ensures Find(rest + sep).None? && Owned(rest + sep) == []
  {
    FindInFront(rest, sep);
    hide Find;
    NothingOwned(rest + sep);
  }

  lemma QuietBoth(rest: string, sep: string, t: string)
    requires Quiet(rest) && Quiet(sep) && Find(t).Some? && Find(t).value.at == 0
    ensures Find((rest + sep) + t).Some? && Find((rest + sep) + t).value.at == |rest| + |sep|
    ensures Owned((rest + sep) + t) == Owned(t)
  {
    QuietConcat(rest, sep);
    QuietPrefix(rest + sep, t);
    FindInFront(rest + sep, t);
    hide Find, Owned;
  }

  lemma LogStarts(ds: seq<Block>, seps: seq<string>)
    requires |seps| == |ds| && AllFramed(ds) && ds != []
    ensures LogText(ds, seps) != "" && Find(LogText(ds, seps)).Some? && Find(LogText(ds, seps)).value.at == 0
  {
    FindInFront(ds[0].text, seps[0] + LogText(ds[1..], seps[1..]));
    hide Find;
    assert Framed(ds[0]);
  }

  /** A printed log is read as it was printed: one block for each diagnostic, with what follows it. */
  lemma {:induction false} LogReads(ds: seq<Block>, seps: seq<string>)
    requires |seps| == |ds| && AllFramed(ds) && QuietAround(seps)
    ensures Owned(LogText(ds, seps)) == Interleaved(ds, seps)
  {
    hide Find, Owned, Framed, Quiet;
    if ds == [] {
      NothingPrinted();
    } else {
      var t := LogText(ds[1..], seps[1..]);
      assert Framed(ds[0]);
      assert ds[1..] == [] ==> t == "";
      if ds[1..] != [] {
        LogStarts(ds[1..], seps[1..]);
        assert |seps| > 1;
        assert forall k :: 0 <= k < |seps| - 1 ==> seps[1..][k] == seps[k + 1];
        LogReads(ds[1..], seps[1..]);
      }
      HeadRead(ds[0], seps[0], t);
      assert Interleaved(ds, seps) == [Followed(ds[0], seps[0])] + Interleaved(ds[1..], seps[1..]);
    }
  }

  lemma NothingPrinted()
    ensures Owned("") == []
  {
  }

  lemma LogReadsAfter(pre: string, ds: seq<Block>, seps: seq<string>)
    requires Quiet(pre) && |seps| == |ds| && AllFramed(ds) && QuietAround(seps)
    ensures Owned(pre + LogText(ds, seps)) == Interleaved(ds, seps)
  {
    QuietPrefix(pre, LogText(ds, seps));
    LogReads(ds, seps);
  }

  // ----- which orders are told apart

  ghost predicate SomeCollision(bs: seq<Block>, cs: seq<Block>, norm: string -> string, digest: string -> string) {
    exists p :: p != "" && Collides(bs, cs, norm, digest, p)
  }

  /** Same bags, same result; other bags, another result unless the digest takes one text for another. */
  lemma BagsDecide(a: map<string, string>, b: map<string, string>, bs: seq<Block>, cs: seq<Block>,
    norm: string -> string, digest: string -> string)
    requires IsResult(a, bs, norm, digest) && IsResult(b, cs, norm, digest)
    ensures Attributed(bs, norm) == Attributed(cs, norm) ==> a == b
    ensures Attributed(bs, norm) != Attributed(cs, norm) ==> a != b || SomeCollision(bs, cs, norm, digest)
  {
    ResultIsTheBags(a, b, bs, cs, norm, digest);
    SameBucketsIff(bs, cs, norm);
    hide IsResult, Attributed, Collides;
    if a == b && !SameBuckets(bs, cs, norm) {
      var p :| p != "" && multiset(Bucket(bs, norm, p)) != multiset(Bucket(cs, norm, p));
      assert !SameBag(bs, cs, norm, p);
    }
  }

  lemma FramedArePrinted(ds: seq<Block>)
    requires AllFramed(ds)
    ensures AllPrinted(ds)
  {
    hide Find, Printed;
    forall k | 0 <= k < |ds| ensures Printed(ds[k]) {
      assert Framed(ds[k]);
    }
  }

  lemma PermutedFramed(ds: seq<Block>, es: seq<Block>)
    requires AllFramed(ds) && multiset(es) == multiset(ds)
    ensures AllFramed(es) && |es| == |ds|
  {
    hide Framed;
    assert |multiset(es)| == |multiset(ds)|;
    forall k | 0 <= k < |es| ensures Framed(es[k]) {
      assert es[k] in multiset(ds);
      var j :| 0 <= j < |ds| && ds[j] == es[k];
    }
  }

  /** Two diagnostics printed in each other's place, with any texts between: the results agree when the
      same words follow in both places or the two are the same, and otherwise differ unless the digest
      takes one text for another. */
  lemma SwappedLog(pre: string, ds: seq<Block>, seps: seq<string>, i: nat, j: nat, norm: string -> string,
    digest: string -> string, a: map<string, string>, b: map<string, string>)
    requires Quiet(pre) && |seps| == |ds| && AllFramed(ds) && QuietAround(seps) && i < j < |ds|
    requires IsResult(a, Owned(pre + LogText(ds, seps)), norm, digest)
    requires IsResult(b, Owned(pre + LogText(Swapped(ds, i, j), seps)), norm, digest)
    ensures var alike := Collapse(seps[i]) == Collapse(seps[j]) || Piece(ds[i], norm) == Piece(ds[j], norm);
            && (alike ==> a == b)
            && (!alike ==> a != b || SomeCollision(Interleaved(Swapped(ds, i, j), seps), Interleaved(ds, seps), norm, digest))
  {
    var es := Swapped(ds, i, j);
    SwappedPermutes(ds, i, j);
    hide Swapped, Owned, Find, Quiet;
    PermutedFramed(ds, es);
    LogReadsAfter(pre, ds, seps);
    LogReadsAfter(pre, es, seps);
    FramedArePrinted(ds);
    hide *;
    SwapShowsIff(ds, seps, i, j, norm);
    BagsDecide(b, a, Interleaved(es, seps), Interleaved(ds, seps), norm, digest);
  }

  /** The same diagnostics in two orders, the same text before each location and any text at the end:
      the results agree when that text has the words of the lead or the same diagnostic is last, and
      otherwise differ unless the digest takes one text for another. */
  lemma ReorderedLog(pre: string, ds: seq<Block>, es: seq<Block>, lead: string, tail: string, norm: string -> string,
    digest: string -> string, a: map<string, string>, b: map<string, string>)
    requires Quiet(pre) && Quiet(lead) && Find(tail).None?
    requires AllFramed(ds) && ds != [] && es != [] && multiset(es) == multiset(ds)
    requires IsResult(a, Owned(pre + LogText(ds, LedBy(lead, |ds|, tail))), norm, digest)
    requires IsResult(b, Owned(pre + LogText(es, LedBy(lead, |es|, tail))), norm, digest)
    ensures var alike := Collapse(lead) == Collapse(tail) || Piece(Last(ds), norm) == Piece(Last(es), norm);
            && (alike ==> a == b)
            && (!alike && a == b ==>
                  SomeCollision(Interleaved(ds, LedBy(lead, |ds|, tail)), Interleaved(es, LedBy(lead, |es|, tail)), norm, digest))
  {
    hide Owned, Find, Quiet, Framed;
    PermutedFramed(ds, es);
    assert QuietAround(LedBy(lead, |ds|, tail)) && QuietAround(LedBy(lead, |es|, tail));
    LogReadsAfter(pre, ds, LedBy(lead, |ds|, tail));
    LogReadsAfter(pre, es, LedBy(lead, |es|, tail));
    FramedArePrinted(ds);
    FramedArePrinted(es);
    hide *;
    OrderShowsIff(ds, es, lead, tail, norm);
    BagsDecide(a, b, Interleaved(ds, LedBy(lead, |ds|, tail)), Interleaved(es, LedBy(lead, |es|, tail)), norm, digest);
  }

  /** So a file whose diagnostics only changed places is still reported as stalled. */
  lemma ReorderedIsStalled(pre: string, ds: seq<Block>, es: seq<Block>, lead: string, tail: string,
    norm: string -> string, digest: string -> string, a: map<string, string>, b: map<string, string>, p: string)
    requires Quiet(pre) && Quiet(lead) && Find(tail).None?
    requires AllFramed(ds) && ds != [] && es != [] && multiset(es) == multiset(ds)
    requires IsResult(a, Owned(pre + LogText(ds, LedBy(lead, |ds|, tail))), norm, digest)
    requires IsResult(b, Owned(pre + LogText(es, LedBy(lead, |es|, tail))), norm, digest)
    requires Collapse(lead) == Collapse(tail) || Piece(Last(ds), norm) == Piece(Last(es), norm)
    requires Stalls.KnownIn(a.Keys, norm, p) && Stalls.OneReading(a.Keys, norm, p)
    ensures Stalls.MustStall(a, b, norm, p)
  {
    hide *;
    ReorderedLog(pre, ds, es, lead, tail, norm, digest, a, b);
    Stalls.OneReadingIsCertain(a, norm, p);
  }

  // ----- such logs

  predicate IsOpener(c: char) { c == ':' || c == '(' }

  /** A location needs its opening byte right behind a path byte. */
  lemma NoOpenerNoLocation(s: string)
    requires forall k :: 0 <= k < |s| && IsOpener(s[k]) ==> k == 0 || !IsPathByte(s[k - 1])
    ensures Find(s).None?
  {
    hide Find, MatchesAt, IsPathByte;
    if Find(s).Some? {
      FoundMatches(s);
      var m := Find(s).value;
      OpenerInMatch(s, m.at, |m.path|, m.end - m.at - |m.path|);
    }
  }

  lemma OpenerInMatch(s: string, i: nat, k: nat, n: nat)
    requires MatchesAt(s, i, k, n)
    ensures 0 < k && i + k < |s| && IsOpener(s[i + k]) && IsPathByte(s[i + k - 1])
  {
    hide SourcePath;
    PathBytes(s[i..i + k]);
    assert s[i + k..][0] == s[i + k] && s[i + k - 1] == s[i..i + k][k - 1];
  }

  /** A path, a location and a quiet text are a diagnostic. */
  lemma FramedDiagnostic(p: string, l: string, rest: string)
    requires SourcePath(p) && LocationAt(l, |l|) && Quiet(rest) && rest != ""
    ensures Framed(Block(p, p + l + rest))
  {
    FoundAtHead(p, l, rest);
    StartsVisibly(p, l + rest);
    hide Find, LocationAt, SourcePath, IsBlank;
    var s := p + l + rest;
    assert s == p + (l + rest) && s[|p| + |l|..] == rest;
    assert s[|s| - 1] == rest[|rest| - 1];
  }

  lemma FoundAtHead(p: string, l: string, rest: string)
    requires SourcePath(p) && LocationAt(l, |l|)
    ensures Find(p + l + rest) == Some(Match(0, |p| + |l|, p))
  {
    hide HeadMatch, MatchesAt, LocationAt, SourcePath, IsBlank;
    PathThenLocation(p, l, rest);
    HeadIs(p + l + rest, |p|, |l|);
    StartsVisibly(p, l + rest);
    assert p + l + rest == p + (l + rest);
    assert (p + l + rest)[..|p|] == p;
  }

  lemma StartsVisibly(p: string, rest: string)
    requires SourcePath(p)
    ensures !IsBlank(p + rest) && p + rest != ""
  {
    PathBytes(p);
    assert !IsSpace((p + rest)[0]);
  }

  lemma PathThenLocation(p: string, l: string, rest: string)
    requires SourcePath(p) && LocationAt(l, |l|)
    ensures MatchesAt(p + l + rest, 0, |p|, |l|)
  {
    hide SourcePath;
    var s := p + l + rest;
    assert s[0..0 + |p|] == p && s[0 + |p|..] == l + rest;
    LocationGoesOn(l, rest);
  }

  lemma LocationGoesOn(l: string, rest: string)
    requires LocationAt(l, |l|)
    ensures LocationAt(l + rest, |l|)
  {
  }

  /** Two Maven errors and the line that ends the log, printed in both orders: the results differ,
      unless the digest takes one text for another. */
  lemma SwappedMavenLines(norm: string -> string, digest: string -> string, a: map<string, string>,
    b: map<string, string>)
    requires norm("A.java") != norm("B.java") && norm("A.java") != ""
    requires IsResult(a, Owned("[ERROR] " + LogText(MavenLines(), MavenEnds())), norm, digest)
    requires IsResult(b, Owned("[ERROR] " + LogText(Swapped(MavenLines(), 0, 1), MavenEnds())), norm, digest)
    ensures a != b ||
            SomeCollision(Interleaved(Swapped(MavenLines(), 0, 1), MavenEnds()), Interleaved(MavenLines(), MavenEnds()), norm, digest)
  {
    MavenIsFramed();
    MavenEndsDiffer();
    assert MavenLines()[0].path == "A.java" && MavenLines()[1].path == "B.java";
    OtherFiles(MavenLines()[0], MavenLines()[1], norm);
    hide *;
    SwappedLog("[ERROR] ", MavenLines(), MavenEnds(), 0, 1, norm, digest, a, b);
  }

  function MavenLines(): (ds: seq<Block>)
    ensures |ds| == 2
  {
    [Block("A.java", "A.java" + ":[1," + "2] x\n"), Block("B.java", "B.java" + ":[3," + "4] y\n")]
  }

  function MavenEnds(): (seps: seq<string>)
    ensures |seps| == 2
  {
    ["[ERROR] ", "[ERROR] " + "BUILD FAILURE"]
  }

  lemma OtherFiles(d: Block, e: Block, norm: string -> string)
    requires norm(d.path) != norm(e.path) && norm(d.path) != ""
    ensures Piece(d, norm) != Piece(e, norm)
  {
    hide Collapse;
    assert (norm(d.path), Collapse(d.text)) in Piece(d, norm);
  }

  lemma QuietIs(s: string)
    requires Closed(s) && forall k :: 0 <= k < |s| && IsOpener(s[k]) ==> k == 0 || !IsPathByte(s[k - 1])
    ensures Quiet(s)
  {
    NoOpenerNoLocation(s);
  }

  lemma MavenIsFramed()
    ensures Quiet("[ERROR] ") && AllFramed(MavenLines()) && QuietAround(MavenEnds())
  {
    hide Find, SourcePath, LocationAt;
    QuietIs("[ERROR] ");
    QuietIs("2] x\n");
    QuietIs("4] y\n");
    JavaPaths();
    JavaLocations();
    FramedDiagnostic("A.java", ":[1,", "2] x\n");
    FramedDiagnostic("B.java", ":[3,", "4] y\n");
    NoOpenerNoLocation("[ERROR] " + "BUILD FAILURE");
  }

  lemma JavaPaths()
    ensures SourcePath("A.java") && SourcePath("B.java")
  {
    assert HasExtension("A.java", ".java") && HasExtension("B.java", ".java");
  }

  lemma JavaLocations()
    ensures LocationAt(":[1,", 4) && LocationAt(":[3,", 4)
  {
    assert LineNumberAt(":[1,", 2, 4) && LineNumberAt(":[3,", 2, 4);
  }

  lemma MavenEndsDiffer()
    ensures Collapse(MavenEnds()[0]) != Collapse(MavenEnds()[1])
  {
    assert !IsBlank("[ERROR] ") by { assert "[ERROR] "[0] == '['; }
    assert !IsBlank("BUILD FAILURE") by { assert "BUILD FAILURE"[0] == 'B'; }
    hide Collapse;
    CollapseConcat("[ERROR] ", "BUILD FAILURE");
  }

  /** Two MSBuild errors, nothing before their locations and a summary after them: the results differ in
      the same way. */
  lemma SwappedMSBuildLines(norm: string -> string, digest: string -> string, a: map<string, string>,
    b: map<string, string>)
    requires norm("A.cs") != norm("B.cs") && norm("A.cs") != ""
    requires IsResult(a, Owned("" + LogText(MSBuildLines(), MSBuildEnds())), norm, digest)
    requires IsResult(b, Owned("" + LogText(Swapped(MSBuildLines(), 0, 1), MSBuildEnds())), norm, digest)
    ensures a != b ||
            SomeCollision(Interleaved(Swapped(MSBuildLines(), 0, 1), MSBuildEnds()), Interleaved(MSBuildLines(), MSBuildEnds()), norm, digest)
  {
    MSBuildIsFramed();
    MSBuildEndsDiffer();
    assert MSBuildLines()[0].path == "A.cs" && MSBuildLines()[1].path == "B.cs";
    OtherFiles(MSBuildLines()[0], MSBuildLines()[1], norm);
    hide *;
    SwappedLog("", MSBuildLines(), MSBuildEnds(), 0, 1, norm, digest, a, b);
  }

  function MSBuildLines(): (ds: seq<Block>)
    ensures |ds| == 2
  {
    [Block("A.cs", "A.cs" + "(7," + "11): x\n"), Block("B.cs", "B.cs" + "(8," + "17): y\n")]
  }

  function MSBuildEnds(): (seps: seq<string>)
    ensures |seps| == 2
  {
    ["", "Build FAILED.\n"]
  }

  lemma MSBuildIsFramed()
    ensures Quiet("") && AllFramed(MSBuildLines()) && QuietAround(MSBuildEnds())
  {
    hide Find, SourcePath, LocationAt;
    QuietIs("");
    QuietIs("11): x\n");
    QuietIs("17): y\n");
    CSharpPaths();
    CSharpLocations();
    FramedDiagnostic("A.cs", "(7,", "11): x\n");
    FramedDiagnostic("B.cs", "(8,", "17): y\n");
    NoOpenerNoLocation("Build FAILED.\n");
  }

  lemma CSharpPaths()
    ensures SourcePath("A.cs") && SourcePath("B.cs")
  {
    assert HasExtension("A.cs", ".cs") && HasExtension("B.cs", ".cs");
  }

  lemma CSharpLocations()
    ensures LocationAt("(7,", 3) && LocationAt("(8,", 3)
  {
    assert LineNumberAt("(7,", 1, 3) && LineNumberAt("(8,", 1, 3);
  }

  lemma MSBuildEndsDiffer()
    ensures Collapse(MSBuildEnds()[0]) != Collapse(MSBuildEnds()[1])
  {
    assert !IsBlank("Build FAILED.\n") by { assert "Build FAILED.\n"[0] == 'B'; }
    NothingCollapses("");
    NothingCollapses("Build FAILED.\n");
  }
}
