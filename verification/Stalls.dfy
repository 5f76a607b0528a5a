/** stalledFiles of fix_file_progress.go: the files a round wrote whose diagnostics did not change. */
module Stalls {
  import opened Text
  import opened Sorting
  import opened FileDiagnostics

  predicate SameFile(norm: string -> string, diagPath: string, repoRel: string) {
    var a, b := norm(diagPath), norm(repoRel);
    a != "" && b != "" && (a == b || HasSuffix(a, "/" + b) || HasSuffix(b, "/" + a))
  }

  /** Two paths name one file when they are the same, or one is the other behind some directories: a
      suffix counts only after a slash. */
  lemma SameFileIff(norm: string -> string, diagPath: string, repoRel: string)
    ensures var a, b := norm(diagPath), norm(repoRel);
            SameFile(norm, diagPath, repoRel) <==>
            a != "" && b != "" && (a == b || (exists dirs :: a == dirs + "/" + b) || exists dirs :: b == dirs + "/" + a)
  {
    var a, b := norm(diagPath), norm(repoRel);
    SuffixIff(a, "/" + b);
    SuffixIff(b, "/" + a);
    Behind(a, b);
    Behind(b, a);
    hide HasSuffix;
  }

  lemma SuffixIff(s: string, suffix: string)
    ensures HasSuffix(s, suffix) <==> exists x :: s == x + suffix
  {
    if HasSuffix(s, suffix) {
      assert s == s[..|s| - |suffix|] + suffix;
    }
    if x :| s == x + suffix {
      assert s[|s| - |suffix|..] == suffix;
    }
  }

  lemma Behind(s: string, b: string)
    ensures (exists x :: s == x + ("/" + b)) <==> exists x :: s == x + "/" + b
  {
    forall x ensures x + ("/" + b) == x + "/" + b {
    }
  }

  /** What lookupDiagnostic may answer: the entry under the path itself, else that of any path naming
      the same file (a Go map is ranged over in no fixed order). */
  predicate MayAnswer(diags: map<string, string>, norm: string -> string, p: string, v: string) {
    if norm(p) in diags then v == diags[norm(p)]
    else exists k :: k in diags && SameFile(norm, k, p) && diags[k] == v
  }

  predicate Known(diags: map<string, string>, norm: string -> string, p: string) {
    norm(p) in diags || exists k :: k in diags && SameFile(norm, k, p)
  }

  method LookupDiagnostic(diags: map<string, string>, norm: string -> string, p: string) returns (v: string, ok: bool)
    ensures ok <==> Known(diags, norm, p)
    ensures ok ==> MayAnswer(diags, norm, p, v)
  {
    if norm(p) in diags {
      return diags[norm(p)], true;
    }
    var left := diags.Keys;
    while left != {}
      invariant left <= diags.Keys
      invariant forall k :: k in diags && k !in left ==> !SameFile(norm, k, p)
      decreases left
    {
      var k :| k in left;
      if SameFile(norm, k, p) {
        return diags[k], true;
      }
      left := left - {k};
    }
    return "", false;
  }

  /** `p` can be reported: some pair of answers agrees. */
  ghost predicate MayStall(before: map<string, string>, after: map<string, string>, norm: string -> string, p: string) {
    exists v :: MayAnswer(before, norm, p, v) && MayAnswer(after, norm, p, v)
  }

  /** `p` must be reported: every pair of answers agrees. */
  ghost predicate MustStall(before: map<string, string>, after: map<string, string>, norm: string -> string,
    p: string) {
    && Known(before, norm, p) && Known(after, norm, p)
    && forall v, w :: MayAnswer(before, norm, p, v) && MayAnswer(after, norm, p, w) ==> v == w
  }

  method StalledFiles(before: map<string, string>, after: map<string, string>, norm: string -> string,
    written: seq<string>)
    returns (out: seq<string>)
    ensures Sorted(out) && multiset(out) <= multiset(written)
    ensures forall p :: MustStall(before, after, norm, p) ==> multiset(out)[p] == multiset(written)[p]
    ensures forall p :: p in multiset(out) ==> MayStall(before, after, norm, p)
  {
    var kept: seq<string> := [];
    if before == map[] || after == map[] || written == [] {
      NothingKnown(norm);
      return [];
    }
    hide Sort, Sorted, AtMost;
    var i := 0;
    while i < |written|
      invariant 0 <= i <= |written|
      invariant Kept(before, after, norm, multiset(kept), multiset(written[..i]))
    {
      hide Kept, MayStall, MustStall;
      assert written[..i + 1] == written[..i] + [written[i]];
      var stalled := IsStalled(before, after, norm, written[i]);
      KeptStep(before, after, norm, multiset(kept), multiset(written[..i]), written[i], stalled);
      if stalled {
        kept := kept + [written[i]];
      }
      i := i + 1;
    }
    assert written[..i] == written;
    SortSorts(kept);
    out := Sort(kept);
  }

  /** Of the files `seen`, those that must be kept are, and those that are may be. */
  ghost predicate Kept(before: map<string, string>, after: map<string, string>, norm: string -> string,
    kept: multiset<string>, seen: multiset<string>) {
    && kept <= seen
    && (forall p :: MustStall(before, after, norm, p) ==> kept[p] == seen[p])
    && forall p :: p in kept ==> MayStall(before, after, norm, p)
  }

  lemma KeptStep(before: map<string, string>, after: map<string, string>, norm: string -> string,
    kept: multiset<string>, seen: multiset<string>, p: string, stalled: bool)
    requires Kept(before, after, norm, kept, seen)
    requires stalled ==> MayStall(before, after, norm, p)
    requires MustStall(before, after, norm, p) ==> stalled
    ensures Kept(before, after, norm, if stalled then kept + multiset{p} else kept, seen + multiset{p})
  {
    hide MayStall, MustStall;
  }

  method IsStalled(before: map<string, string>, after: map<string, string>, norm: string -> string, p: string)
    returns (stalled: bool)
    ensures stalled ==> MayStall(before, after, norm, p)
    ensures MustStall(before, after, norm, p) ==> stalled
  {
    hide MayAnswer, Known;
    var prev, hadPrev := LookupDiagnostic(before, norm, p);
    var now, hasNow := LookupDiagnostic(after, norm, p);
    stalled := hadPrev && hasNow && prev == now;
  }

  lemma NothingKnown(norm: string -> string)
    ensures forall p :: !Known(map[], norm, p)
  {
  }

  // ----- when the answer does not depend on the order of the map

  predicate KnownIn(keys: set<string>, norm: string -> string, p: string) {
    norm(p) in keys || exists k :: k in keys && SameFile(norm, k, p)
  }

  /** `p` is a key itself, or no two keys name its file. */
  predicate OneReading(keys: set<string>, norm: string -> string, p: string) {
    norm(p) in keys || forall j, k :: j in keys && k in keys && SameFile(norm, j, p) && SameFile(norm, k, p) ==> j == k
  }

  lemma OneReadingIsCertain(diags: map<string, string>, norm: string -> string, p: string)
    requires KnownIn(diags.Keys, norm, p) && OneReading(diags.Keys, norm, p)
    ensures MustStall(diags, diags, norm, p)
  {
    hide SameFile;
  }

  /** Two keys with different entries name the file of `p`, and neither is `p`. */
  lemma TwoReadings(diags: map<string, string>, norm: string -> string, p: string, j: string, k: string)
    requires norm(p) !in diags && j in diags && k in diags && SameFile(norm, j, p) && SameFile(norm, k, p)
    requires diags[j] != diags[k]
    ensures MayStall(diags, diags, norm, p) && !MustStall(diags, diags, norm, p)
  {
    hide SameFile;
    assert MayAnswer(diags, norm, p, diags[j]) && MayAnswer(diags, norm, p, diags[k]);
  }

  /** With nothing changed since the round before, a written file is certain to be reported, whatever
      the fingerprints, if and only if its path is a key or names the file of exactly one key. */
  lemma UnchangedIsStalledIff(keys: set<string>, norm: string -> string, p: string)
    ensures (forall diags: map<string, string> :: diags.Keys == keys ==> MustStall(diags, diags, norm, p))
       <==> KnownIn(keys, norm, p) && OneReading(keys, norm, p)
  {
    hide SameFile, MayStall, MustStall;
    if KnownIn(keys, norm, p) && OneReading(keys, norm, p) {
      forall diags: map<string, string> | diags.Keys == keys ensures MustStall(diags, diags, norm, p) {
        OneReadingIsCertain(diags, norm, p);
      }
    } else if !KnownIn(keys, norm, p) {
      var diags := map k | k in keys :: "";
      assert diags.Keys == keys;
      NotKnown(diags, norm, p);
    } else {
      var j, k :| j in keys && k in keys && SameFile(norm, j, p) && SameFile(norm, k, p) && j != k;
      var diags := map x | x in keys :: if x == j then "1" else "2";
      assert diags.Keys == keys;
      TwoReadings(diags, norm, p, j, k);
    }
  }

  lemma NotKnown(diags: map<string, string>, norm: string -> string, p: string)
    requires !KnownIn(diags.Keys, norm, p)
    ensures !MustStall(diags, diags, norm, p)
  {
  }

  /** From log to report: when each file has the same bag of blocks as the round before and the path of
      `p` reads one way, `p` is certain to be reported if it was written. */
  lemma SameBagsStall(a: map<string, string>, b: map<string, string>, bs: seq<Block>, cs: seq<Block>,
    norm: string -> string, digest: string -> string, p: string)
    requires IsResult(a, bs, norm, digest) && IsResult(b, cs, norm, digest) && SameBuckets(bs, cs, norm)
    requires KnownIn(Paths(bs, norm), norm, p) && OneReading(Paths(bs, norm), norm, p)
    ensures MustStall(a, b, norm, p)
  {
    ResultIsTheBags(a, b, bs, cs, norm, digest);
    assert a.Keys == Paths(bs, norm);
    hide IsResult, SameBuckets, SameFile;
    OneReadingIsCertain(a, norm, p);
  }

  /** Two modules with a source of one name: rewritten to no effect, `src/A.java` may be reported and
      may not, as the map is ranged over. */
  lemma TwoModulesHideAStall(norm: string -> string)
    requires norm("workspace/src/A.java") == "workspace/src/A.java"
    requires norm("A.java") == "A.java" && norm("src/A.java") == "src/A.java"
    ensures var diags := map["workspace/src/A.java" := "1", "A.java" := "2"];
            MayStall(diags, diags, norm, "src/A.java") && !MustStall(diags, diags, norm, "src/A.java")
  {
    var j, k, p := "workspace/src/A.java", "A.java", "src/A.java";
    assert j[|j| - |"/" + p|..] == "/" + p;
    assert p[|p| - |"/" + k|..] == "/" + k;
    assert |j| != |k| && |j| != |p| && |k| != |p|;
    TwoReadings(map[j := "1", k := "2"], norm, p, j, k);
  }
}
