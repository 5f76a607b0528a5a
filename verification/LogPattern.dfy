/** primaryDiagnosticRE of fix_primary_progress.go: a source path, a line number behind `:`, `:[` or
    `(`, and a comma or colon.  The search for it, and that it finds the leftmost match. */
module LogPattern {
  import opened Text

  /** A match in a text: where it starts and ends, and the path it captured. */
  datatype Match = Match(at: nat, end: nat, path: string)

  // ----- the expression

  predicate IsDigit(c: char) { '0' <= c <= '9' }

  /** `[\w./\\@-]` */
  predicate IsPathByte(c: char) {
    || 'a' <= c <= 'z' || 'A' <= c <= 'Z' || IsDigit(c) || c == '_'
    || c == '.' || c == '/' || c == '\\' || c == '@' || c == '-'
  }

  predicate HasExtension(p: string, ext: string) { |p| > |ext| && HasSuffix(p, ext) }

  /** `[\w./\\@-]+\.(?:java|kt|cs|ts|tsx|js|jsx|go)` */
  predicate SourcePath(p: string) {
    && (forall k :: 0 <= k < |p| ==> IsPathByte(p[k]))
    && (|| HasExtension(p, ".java") || HasExtension(p, ".kt") || HasExtension(p, ".cs") || HasExtension(p, ".ts")
        || HasExtension(p, ".tsx") || HasExtension(p, ".js") || HasExtension(p, ".jsx") || HasExtension(p, ".go"))
  }

  /** The bytes of a path by their ASCII codes: `-`, `.`, `/`, digits, `@`, letters, backslash and `_`. */
  lemma PathByteCodes(c: char)
    ensures var n := c as int;
            IsPathByte(c) <==> 45 <= n <= 57 || 64 <= n <= 90 || n == 92 || n == 95 || 97 <= n <= 122
  {
  }

  const EXTENSIONS: seq<string> := [".java", ".kt", ".cs", ".ts", ".tsx", ".js", ".jsx", ".go"]

  /** A source path is a stem and one of eight extensions. */
  lemma SourcePathIff(p: string)
    ensures SourcePath(p) <==>
            && (forall k :: 0 <= k < |p| ==> IsPathByte(p[k]))
            && exists stem, i :: 0 <= i < |EXTENSIONS| && stem != "" && p == stem + EXTENSIONS[i]
  {
    hide IsPathByte, HasExtension;
    forall ext ensures HasExtension(p, ext) <==> exists stem :: stem != "" && p == stem + ext {
      ExtensionIff(p, ext);
    }
    assert EXTENSIONS[0] == ".java" && EXTENSIONS[1] == ".kt" && EXTENSIONS[2] == ".cs" && EXTENSIONS[3] == ".ts"
        && EXTENSIONS[4] == ".tsx" && EXTENSIONS[5] == ".js" && EXTENSIONS[6] == ".jsx" && EXTENSIONS[7] == ".go";
    if i :| 0 <= i < |EXTENSIONS| && HasExtension(p, EXTENSIONS[i]) {
      var stem :| stem != "" && p == stem + EXTENSIONS[i];
    }
    if stem, i :| 0 <= i < |EXTENSIONS| && stem != "" && p == stem + EXTENSIONS[i] {
      assert HasExtension(p, EXTENSIONS[i]);
    }
  }

  lemma ExtensionIff(p: string, ext: string)
    ensures HasExtension(p, ext) <==> exists stem :: stem != "" && p == stem + ext
  {
    if HasExtension(p, ext) {
      assert p == p[..|p| - |ext|] + ext;
    }
    if stem :| stem != "" && p == stem + ext {
      assert p[|p| - |ext|..] == ext;
    }
  }

  /** `(\d+)[,:]` between `o` and `n`. */
  predicate LineNumberAt(s: string, o: nat, n: nat) {
    && o + 2 <= n <= |s|
    && (forall k :: o <= k < n - 1 ==> IsDigit(s[k]))
    && (s[n - 1] == ',' || s[n - 1] == ':')
  }

  /** `(?::\[?|\()(\d+)[,:]`, as the first `n` bytes of `s`. */
  predicate LocationAt(s: string, n: nat) {
    || (s != "" && (s[0] == ':' || s[0] == '(') && LineNumberAt(s, 1, n))
    || (StartsWith(s, ':', '[') && LineNumberAt(s, 2, n))
  }

  /** The expression matches at `i`: `k` bytes of path, then `n` bytes of location. */
  predicate MatchesAt(s: string, i: nat, k: nat, n: nat) {
    i + k <= |s| && SourcePath(s[i..i + k]) && LocationAt(s[i + k..], n)
  }

  // ----- the search

  function RunLen(s: string): (n: nat)
    ensures n <= |s|
  {
    if s == "" || !IsPathByte(s[0]) then 0 else 1 + RunLen(s[1..])
  }

  function DigitsLen(s: string): (n: nat)
    ensures n <= |s|
  {
    if s == "" || !IsDigit(s[0]) then 0 else 1 + DigitsLen(s[1..])
  }

  function OpenerLen(s: string): (o: nat)
    ensures o <= |s|
  {
    if StartsWith(s, ':', '[') then 2 else if s != "" && (s[0] == ':' || s[0] == '(') then 1 else 0
  }

  /** The length of the location `s` starts with, or 0. */
  function LocationLen(s: string): (n: nat)
    ensures n <= |s|
  {
    var o := OpenerLen(s);
    var d := DigitsLen(s[o..]);
    if o > 0 && d > 0 && o + d < |s| && (s[o + d] == ',' || s[o + d] == ':') then o + d + 1 else 0
  }

  /** The match at the head of `s`, of the whole run of path bytes there. */
  function HeadMatch(s: string): (r: Option<Match>)
    ensures r.Some? ==> r.value.at == 0 < r.value.end <= |s| && !IsBlank(s)
  {
    var k := RunLen(s);
    var n := LocationLen(s[k..]);
    if SourcePath(s[..k]) && n > 0 then
      PathBytes(s[..k]);
      assert s[0] == s[..k][0] && !IsSpace(s[0]);
      Some(Match(0, k + n, s[..k]))
    else None
  }

  /** How far to the next place a leftmost match can start. */
  function Skip(s: string): (k: nat)
    requires s != ""
    ensures 0 < k <= |s|
  {
    if IsPathByte(s[0]) then RunLen(s) else 1
  }

  function Shifted(r: Option<Match>, d: nat): (t: Option<Match>) {
    match r case None => None case Some(m) => Some(Match(m.at + d, m.end + d, m.path))
  }

  /** Go's FindStringSubmatchIndex for the expression: a path can only end where its run of path bytes
      does, so the search goes from run to run. */
  function Find(s: string): (r: Option<Match>)
    ensures r.Some? ==> r.value.at < r.value.end <= |s| && !IsBlank(s)
    decreases |s|
  {
    if s == "" then None
    else if HeadMatch(s).Some? then HeadMatch(s)
    else
      StillNotBlank(s, Skip(s));
      Shifted(Find(s[Skip(s)..]), Skip(s))
  }

  lemma StillNotBlank(s: string, k: nat)
    requires k <= |s|
    ensures !IsBlank(s[k..]) ==> !IsBlank(s)
  {
    if !IsBlank(s[k..]) {
      var i :| 0 <= i < |s[k..]| && !IsSpace(s[k..][i]);
      assert s[k + i] == s[k..][i];
    }
  }

  lemma PathBytes(p: string)
    requires SourcePath(p)
    ensures p != "" && forall k :: 0 <= k < |p| ==> IsPathByte(p[k])
  {
  }

  // ----- the search is the expression

  predicate RunEnds(s: string, n: nat) {
    n <= |s| && (forall k :: 0 <= k < n ==> IsPathByte(s[k])) && (n < |s| ==> !IsPathByte(s[n]))
  }

  lemma {:induction false} RunIs(s: string, n: nat)
    ensures RunEnds(s, n) <==> n == RunLen(s)
  {
    hide IsPathByte;
    if s != "" {
      if n > 0 {
        RunIs(s[1..], n - 1);
        assert RunEnds(s, n) <==> IsPathByte(s[0]) && RunEnds(s[1..], n - 1) by {
          assert forall k :: 0 < k < |s| ==> s[k] == s[1..][k - 1];
        }
      }
    }
  }

  predicate DigitsEnd(s: string, n: nat) {
    n <= |s| && (forall k :: 0 <= k < n ==> IsDigit(s[k])) && (n < |s| ==> !IsDigit(s[n]))
  }

  lemma {:induction false} DigitsAre(s: string, n: nat)
    ensures DigitsEnd(s, n) <==> n == DigitsLen(s)
  {
    hide IsDigit;
    if s != "" {
      if n > 0 {
        DigitsAre(s[1..], n - 1);
        assert DigitsEnd(s, n) <==> IsDigit(s[0]) && DigitsEnd(s[1..], n - 1) by {
          assert forall k :: 0 < k < |s| ==> s[k] == s[1..][k - 1];
        }
      }
    }
  }

  lemma LineNumberIs(s: string, o: nat, n: nat)
    requires o <= |s|
    ensures LineNumberAt(s, o, n) <==>
              var d := DigitsLen(s[o..]);
              d > 0 && o + d < |s| && (s[o + d] == ',' || s[o + d] == ':') && n == o + d + 1
  {
    var t := s[o..];
    DigitsAre(t, DigitsLen(t));
    if LineNumberAt(s, o, n) {
      assert forall k :: o <= k < |s| ==> t[k - o] == s[k];
      DigitsAre(t, n - 1 - o);
    }
    assert forall k :: 0 <= k < |t| ==> s[o + k] == t[k];
  }

  /** The location is found exactly. */
  lemma LocationIs(s: string, n: nat)
    ensures LocationAt(s, n) <==> n > 0 && n == LocationLen(s)
  {
    hide LineNumberAt;
    if |s| >= 1 {
      LineNumberIs(s, 1, n);
    }
    if StartsWith(s, ':', '[') {
      LineNumberIs(s, 2, n);
      assert s[1..][0] == '[';
    }
  }

  lemma LocationStart(s: string, n: nat)
    requires LocationAt(s, n)
    ensures s != "" && !IsPathByte(s[0])
  {
  }

  /** At a given place there is at most one match: the whole run, and the location behind it. */
  lemma HeadIs(s: string, k: nat, n: nat)
    ensures MatchesAt(s, 0, k, n) ==> HeadMatch(s) == Some(Match(0, k + n, s[..k]))
    ensures HeadMatch(s).Some? ==>
              var m := HeadMatch(s).value; |m.path| <= m.end && MatchesAt(s, 0, |m.path|, m.end - |m.path|)
  {
    var r := RunLen(s);
    LocationIs(s[r..], LocationLen(s[r..]));
    assert s[0..0 + r] == s[..r] && s[0 + r..] == s[r..];
    if MatchesAt(s, 0, k, n) {
      MatchIsRun(s, k, n);
      LocationIs(s[k..], n);
    }
  }

  lemma MatchIsRun(s: string, k: nat, n: nat)
    requires MatchesAt(s, 0, k, n)
    ensures k == RunLen(s) && s[0..k] == s[..k] && s[0 + k..] == s[k..]
  {
    hide LocationAt, SourcePath;
    PathBytes(s[0..k]);
    LocationStart(s[0 + k..], n);
    assert forall j :: 0 <= j < k ==> s[0..k][j] == s[j];
    assert s[0 + k..][0] == s[k];
    RunIs(s, k);
  }

  lemma MatchShifts(s: string, d: nat, i: nat, k: nat, n: nat)
    requires d <= |s|
    ensures MatchesAt(s, d + i, k, n) <==> MatchesAt(s[d..], i, k, n)
  {
    hide SourcePath, LocationAt;
    if d + i + k <= |s| {
      assert s[d..][i..i + k] == s[d + i..d + i + k];
      assert s[d..][i + k..] == s[d + i + k..];
    }
  }

  lemma LongerPath(p: string, i: nat)
    requires i < |p| && SourcePath(p[i..]) && forall k :: 0 <= k < i ==> IsPathByte(p[k])
    ensures SourcePath(p)
  {
    var q := p[i..];
    forall k | 0 <= k < |p| ensures IsPathByte(p[k]) {
      assert k >= i ==> p[k] == q[k - i];
    }
    hide IsPathByte, HasExtension;
    forall x ensures HasExtension(q, x) ==> HasExtension(p, x) {
      LongerExtension(p, i, x);
    }
  }

  lemma LongerExtension(p: string, i: nat, x: string)
    requires i < |p|
    ensures HasExtension(p[i..], x) ==> HasExtension(p, x)
  {
    var q := p[i..];
    if |q| > |x| {
      assert q[|q| - |x|..] == p[|p| - |x|..];
    }
  }

  lemma RunInRun(s: string, i: nat)
    requires i < RunLen(s)
    ensures RunLen(s[i..]) == RunLen(s) - i && forall k :: 0 <= k < i ==> IsPathByte(s[k])
  {
    var r := RunLen(s);
    RunIs(s, r);
    assert forall k :: 0 <= k < |s| - i ==> s[i..][k] == s[i + k];
    RunIs(s[i..], r - i);
  }

  /** A match inside a run is a match of the whole run: no later start in it can be the leftmost. */
  lemma InRunMatches(s: string, i: nat, k: nat, n: nat)
    requires i < RunLen(s) && MatchesAt(s, i, k, n)
    ensures MatchesAt(s, 0, RunLen(s), n)
  {
    hide SourcePath, LocationAt, RunLen, IsPathByte;
    var r := RunLen(s);
    MatchShifts(s, i, 0, k, n);
    MatchIsRun(s[i..], k, n);
    RunInRun(s, i);
    assert s[i..i + k] == s[..r][i..];
    LongerPath(s[..r], i);
    assert s[0..0 + r] == s[..r] && i + k == r;
  }

  lemma NotEmptyMatch(s: string, i: nat, k: nat, n: nat)
    requires MatchesAt(s, i, k, n)
    ensures i < |s| && IsPathByte(s[i])
  {
    hide LocationAt;
    PathBytes(s[i..i + k]);
    assert s[i] == s[i..i + k][0];
  }

  /** The search finds the leftmost match, and the only one there; it finds one if there is one. */
  lemma {:induction false} FindIsLeftmost(s: string, i: nat, k: nat, n: nat)
    requires MatchesAt(s, i, k, n)
    ensures Find(s).Some? && Find(s).value.at <= i
    ensures Find(s).value.at == i ==> Find(s).value == Match(i, i + k + n, s[i..i + k])
    decreases |s|
  {
    hide MatchesAt, RunLen, HeadMatch, IsPathByte, IsBlank, Skip, Find;
    NotEmptyMatch(s, i, k, n);
    SkipIsTheRun(s);
    FindStep(s);
    if i == 0 {
      HeadIs(s, k, n);
      assert s[0..0 + k] == s[..k];
    } else if i < Skip(s) {
      InRunMatches(s, i, k, n);
      HeadIs(s, RunLen(s), n);
    } else {
      var d := Skip(s);
      MatchShifts(s, d, i - d, k, n);
      FindIsLeftmost(s[d..], i - d, k, n);
      SliceOfDrop(s, d, i - d, k);
    }
  }

  lemma FindStep(s: string)
    requires s != ""
    ensures Find(s) == if HeadMatch(s).Some? then HeadMatch(s) else Shifted(Find(s[Skip(s)..]), Skip(s))
  {
    hide HeadMatch, Skip, IsBlank;
  }

  lemma SkipIsTheRun(s: string)
    requires s != ""
    ensures Skip(s) == if RunLen(s) == 0 then 1 else RunLen(s)
  {
  }

  lemma SliceOfDrop(s: string, d: nat, i: nat, k: nat)
    requires d <= |s|
    ensures d + i + k <= |s| ==> s[d..][i..i + k] == s[d + i..d + i + k]
  {
  }

  /** What it finds is a match. */
  lemma {:induction false} FoundMatches(s: string)
    requires Find(s).Some?
    ensures var m := Find(s).value;
            m.at + |m.path| <= m.end && MatchesAt(s, m.at, |m.path|, m.end - m.at - |m.path|)
    decreases |s|
  {
    hide MatchesAt, HeadMatch, IsPathByte, IsBlank;
    HeadIs(s, 0, 0);
    if HeadMatch(s).None? {
      var d := Skip(s);
      FoundMatches(s[d..]);
      var m := Find(s[d..]).value;
      MatchShifts(s, d, m.at, |m.path|, m.end - m.at - |m.path|);
    }
  }

  // ----- texts with no location in them

  lemma RunStops(a: string, b: string)
    requires Closed(a) && a != ""
    ensures RunLen(a + b) == RunLen(a) < |a|
  {
    assert !IsPathByte(a[|a| - 1]);
    RunIs(a, RunLen(a));
    RunIs(a + b, RunLen(a));
  }

  lemma DigitsStop(a: string, b: string)
    requires Closed(a) && a != ""
    ensures DigitsLen(a + b) == DigitsLen(a) < |a|
  {
    assert !IsDigit(a[|a| - 1]);
    DigitsAre(a, DigitsLen(a));
    DigitsAre(a + b, DigitsLen(a));
  }

  lemma LocationStops(a: string, b: string)
    requires Closed(a) && a != ""
    ensures LocationLen(a + b) == LocationLen(a)
  {
    var o := OpenerLen(a);
    assert o < |a|;
    assert OpenerLen(a + b) == o;
    assert (a + b)[o..] == a[o..] + b;
    hide IsDigit;
    DigitsStop(a[o..], b);
  }

  lemma HeadStops(a: string, b: string)
    requires Closed(a) && a != ""
    ensures HeadMatch(a + b) == HeadMatch(a) && Skip(a + b) == Skip(a)
  {
    hide SourcePath, IsPathByte, LocationLen;
    RunStops(a, b);
    var k := RunLen(a);
    assert (a + b)[..k] == a[..k] && (a + b)[k..] == a[k..] + b;
    LocationStops(a[k..], b);
  }

  /** A closed text is searched on its own: what follows is searched only when nothing is found. */
  lemma {:induction false} FindInFront(a: string, b: string)
    requires Closed(a)
    ensures Find(a + b) == if Find(a).Some? then Find(a) else Shifted(Find(b), |a|)
    decreases |a|
  {
    hide HeadMatch, Skip, IsSpace, IsBlank;
    if a == "" {
      assert a + b == b;
    } else {
      HeadStops(a, b);
      var d := Skip(a);
      assert (a + b)[d..] == a[d..] + b;
      FindInFront(a[d..], b);
    }
  }

  /** Closed off by white space: no match can begin before the end and go on after it. */
  predicate Closed(s: string) { s == "" || IsSpace(s[|s| - 1]) }

  /** `s` holds no location, and none can begin in it. */
  predicate Quiet(s: string) { Closed(s) && Find(s).None? }
}
