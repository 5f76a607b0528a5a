/** Go's strings.Split, Join, Count and Replace, for a separator that is not empty. */
module GoStrings {
  import opened Text

  function Join(parts: seq<string>, sep: string): string
    requires parts != []
  {
    if |parts| == 1 then parts[0] else parts[0] + sep + Join(parts[1..], sep)
  }

  function Split(s: string, sep: string): (parts: seq<string>)
    requires sep != ""
    ensures parts != []
    decreases |s|
  {
    var i := Index(s, sep);
    if i < 0 then [s] else [s[..i]] + Split(s[i + |sep|..], sep)
  }

  /** Non-overlapping occurrences, counted from the left. */
  function Count(s: string, sub: string): nat
    requires sub != ""
  {
    |Split(s, sub)| - 1
  }

  function ReplaceAll(s: string, old_: string, new_: string): string
    requires old_ != ""
  {
    Join(Split(s, old_), new_)
  }

  /** The leftmost occurrence only. */
  function ReplaceFirst(s: string, old_: string, new_: string): string {
    var i := Index(s, old_);
    if i < 0 then s else s[..i] + new_ + s[i + |old_|..]
  }

  lemma JoinCons(p: string, parts: seq<string>, sep: string)
    requires parts != []
    ensures Join([p] + parts, sep) == p + sep + Join(parts, sep)
  {
    assert ([p] + parts)[1..] == parts;
  }

  /** Splitting loses nothing. */
  lemma {:induction false} JoinOfSplit(s: string, sep: string)
    requires sep != ""
    ensures Join(Split(s, sep), sep) == s
    decreases |s|
  {
    var i := Index(s, sep);
    if i >= 0 {
      JoinOfSplit(s[i + |sep|..], sep);
      JoinCons(s[..i], Split(s[i + |sep|..], sep), sep);
      assert s[i..i + |sep|] == sep;
      assert s == s[..i] + s[i..i + |sep|] + s[i + |sep|..];
    }
  }

  predicate FreeOf(s: string, c: char) { forall k :: 0 <= k < |s| ==> s[k] != c }

  predicate AllFreeOf(parts: seq<string>, c: char) { forall k :: 0 <= k < |parts| ==> FreeOf(parts[k], c) }

  lemma IndexOfJoin(p: string, c: char, rest: string)
    requires FreeOf(p, c)
    ensures Index(p + [c] + rest, [c]) == |p|
  {
    var s := p + [c] + rest;
    assert OccursAt(s, [c], |p|);
    forall k: nat | k < |p| ensures !OccursAt(s, [c], k) {
      assert s[k] == p[k];
      assert s[k..k + 1] == [p[k]];
    }
  }

  lemma IndexOfFree(p: string, c: char)
    requires FreeOf(p, c)
    ensures Index(p, [c]) < 0
  {
    if Index(p, [c]) >= 0 {
      IndexByte(p, c);
    }
  }

  /** Joining lines and splitting them again gives the lines. */
  lemma {:induction false} SplitOfJoin(parts: seq<string>, c: char)
    requires parts != [] && AllFreeOf(parts, c)
    ensures Split(Join(parts, [c]), [c]) == parts
  {
    var s := Join(parts, [c]);
    assert FreeOf(parts[0], c);
    if |parts| == 1 {
      IndexOfFree(s, c);
    } else {
      var rest := Join(parts[1..], [c]);
      IndexOfJoin(parts[0], c, rest);
      assert s[..|parts[0]|] == parts[0] && s[|parts[0]| + 1..] == rest;
      SplitOfJoin(parts[1..], c);
      assert parts == [parts[0]] + parts[1..];
    }
  }

  lemma {:induction false} SplitIsFree(s: string, c: char)
    ensures AllFreeOf(Split(s, [c]), c)
    decreases |s|
  {
    var i := Index(s, [c]);
    IndexByte(s, c);
    if i >= 0 {
      SplitIsFree(s[i + 1..], c);
      forall k | 0 <= k < i ensures s[..i][k] != c {
        assert s[..i][k] in s[..i];
      }
    } else {
      forall k | 0 <= k < |s| ensures s[k] != c {
        assert s[k] in s;
      }
    }
  }

  // ----- occurrences that overlap

  /** A proper prefix of `f` that is also a suffix: the only way `f` can overlap itself. */
  predicate Border(f: string, b: nat) { 0 < b < |f| && f[..b] == f[|f| - b..] }

  predicate Unbordered(f: string) { forall b: nat :: b < |f| ==> !Border(f, b) }

  lemma OverlapIsBorder(s: string, f: string, i: nat, k: nat)
    requires OccursAt(s, f, i) && OccursAt(s, f, k) && i < k < i + |f|
    ensures Border(f, i + |f| - k)
  {
    var b := i + |f| - k;
    assert f[..b] == s[k..k + |f|][..b] == s[k..k + b];
    assert f[|f| - b..] == s[i..i + |f|][|f| - b..] == s[k..k + b];
  }

  lemma NoOverlap(s: string, f: string, i: nat, k: nat)
    requires Unbordered(f) && OccursAt(s, f, i) && OccursAt(s, f, k) && i < k
    ensures i + |f| <= k
  {
    if k < i + |f| {
      OverlapIsBorder(s, f, i, k);
    }
  }

  /** Where the occurrences that Count counts start. */
  function Sites(s: string, f: string, base: nat): seq<nat>
    requires f != ""
    decreases |s|
  {
    var i := Index(s, f);
    if i < 0 then []
    else
      var d := i + |f|;
      [base + i] + Sites(s[d..], f, base + d)
  }

  lemma SitesUnfold(s: string, f: string, base: nat)
    requires f != "" && Index(s, f) >= 0
    ensures var d := Index(s, f) + |f|;
            d <= |s| && Sites(s, f, base) == [base + Index(s, f)] + Sites(s[d..], f, base + d)
  {
    hide Index, OccursAt;
    IndexFound(s, f, Index(s, f));
  }

  lemma IndexFound(s: string, f: string, k: nat)
    requires OccursAt(s, f, k)
    ensures 0 <= Index(s, f) <= k && Index(s, f) + |f| <= |s| && OccursAt(s, f, Index(s, f))
  {
  }

  lemma {:induction false} SitesAreCounted(s: string, f: string, base: nat)
    requires f != ""
    ensures |Sites(s, f, base)| == Count(s, f)
    decreases |s|
  {
    hide Index, OccursAt;
    var i := Index(s, f);
    if i >= 0 {
      SitesUnfold(s, f, base);
      hide Sites;
      var d := i + |f|;
      var rest := s[d..];
      SitesAreCounted(rest, f, base + d);
      assert Split(s, f) == [s[..i]] + Split(rest, f);
    }
  }

  lemma OccursFurtherOn(s: string, f: string, k: nat, d: nat)
    requires OccursAt(s, f, k) && d <= k
    ensures OccursAt(s[d..], f, k - d)
  {
    assert s[d..][k - d..k - d + |f|] == s[k..k + |f|];
  }

  /** With an anchor that cannot overlap itself, every occurrence is counted. */
  lemma {:induction false} EveryOccurrenceCounted(s: string, f: string, base: nat, k: nat)
    requires f != "" && Unbordered(f) && OccursAt(s, f, k)
    ensures base + k in Sites(s, f, base)
    decreases |s|
  {
    hide Index, OccursAt, Unbordered, Sites;
    IndexFound(s, f, k);
    var i := Index(s, f);
    SitesUnfold(s, f, base);
    if k > i {
      NoOverlap(s, f, i, k);
      var d := i + |f|;
      OccursFurtherOn(s, f, k, d);
      EveryOccurrenceCounted(s[d..], f, base + d, k - d);
      assert base + k == (base + d) + (k - d);
    }
  }

  ghost predicate SoleOccurrence(s: string, f: string) {
    exists k: nat :: OccursAt(s, f, k) && forall j: nat :: OccursAt(s, f, j) ==> j == k
  }

  lemma CountOneMeansSole(s: string, f: string)
    requires f != "" && Unbordered(f) && Count(s, f) == 1
    ensures SoleOccurrence(s, f)
  {
    SitesAreCounted(s, f, 0);
    var i := Index(s, f);
    assert i >= 0 && OccursAt(s, f, i);
    forall j: nat | OccursAt(s, f, j) ensures j == i {
      EveryOccurrenceCounted(s, f, 0, j);
      assert Sites(s, f, 0) == [0 + i] + Sites(s[i + |f|..], f, 0 + (i + |f|));
    }
  }

  lemma ShortHasNone(s: string, f: string)
    requires |s| < |f|
    ensures Index(s, f) < 0
  {
  }

  /** An anchor that overlaps itself can occur twice and count once. */
  lemma BorderedCountsOnce(f: string, b: nat)
    requires Border(f, b)
    ensures Count(f + f[b..], f) == 1 && !SoleOccurrence(f + f[b..], f)
  {
    var s := f + f[b..];
    assert OccursAt(s, f, 0);
    assert Index(s, f) == 0;
    assert s[|f|..] == f[b..];
    ShortHasNone(f[b..], f);
    assert Split(s, f) == [s[..0]] + Split(s[|f|..], f);
    assert s[|f| - b..|s|] == f[|f| - b..] + f[b..] == f[..b] + f[b..] == f;
    assert OccursAt(s, f, |f| - b);
  }

  /** Whenever `f` counts once it occurs once, whatever the content. */
  ghost predicate CountOfOneIsTrue(f: string)
    requires f != ""
  {
    forall s :: Count(s, f) == 1 ==> SoleOccurrence(s, f)
  }

  /** That is so for exactly the anchors that cannot overlap themselves. */
  lemma CountIsTrueIffUnbordered(f: string)
    requires f != ""
    ensures CountOfOneIsTrue(f) <==> Unbordered(f)
  {
    hide Count, SoleOccurrence, Border;
    if Unbordered(f) {
      forall s | Count(s, f) == 1 ensures SoleOccurrence(s, f) {
        CountOneMeansSole(s, f);
      }
    } else {
      var b: nat :| b < |f| && Border(f, b);
      BorderIsProper(f, b);
      BorderedCountsOnce(f, b);
    }
  }

  lemma BorderIsProper(f: string, b: nat)
    requires Border(f, b)
    ensures 0 < b < |f|
  {
  }

  // ----- when all occurrences are asked for

  /** Every place `f` occurs at is one of those that are counted. */
  ghost predicate AllAreCounted(s: string, f: string)
    requires f != ""
  {
    forall k: nat :: OccursAt(s, f, k) ==> k in Sites(s, f, 0)
  }

  /** `f` twice over, and then itself overlapped. */
  lemma BorderedCountsTwice(f: string, b: nat)
    requires Border(f, b)
    ensures Count(f + (f + f[b..]), f) == 2 && !AllAreCounted(f + (f + f[b..]), f)
  {
    BorderIsProper(f, b);
    LastOverlap(f, b);
    NoneInShort(f[b..], f, 0 + |f| + |f|);
    hide Index, OccursAt, Border, Sites, Split, Count;
    OneMore(f, f + f[b..], 0);
    OneMore(f, f[b..], 0 + |f|);
    assert 2 * |f| - b !in [0] + ([0 + |f|] + []);
  }

  lemma NoneInShort(s: string, f: string, base: nat)
    requires |s| < |f|
    ensures Count(s, f) == 0 && Sites(s, f, base) == []
  {
    ShortHasNone(s, f);
  }

  lemma OneMore(f: string, t: string, base: nat)
    requires f != ""
    ensures Count(f + t, f) == 1 + Count(t, f)
    ensures Sites(f + t, f, base) == [base] + Sites(t, f, base + |f|)
  {
    var s := f + t;
    FoundAtOnce(f, t);
    hide OccursAt, Index, Split;
    SitesUnfold(s, f, base);
    SplitUnfold(s, f);
  }

  lemma FoundAtOnce(f: string, t: string)
    ensures Index(f + t, f) == 0 && (f + t)[|f|..] == t
  {
    assert (f + t)[0..|f|] == f;
    IndexFound(f + t, f, 0);
  }

  lemma SplitUnfold(s: string, f: string)
    requires f != "" && Index(s, f) >= 0
    ensures Split(s, f) == [s[..Index(s, f)]] + Split(s[Index(s, f) + |f|..], f)
  {
  }

  lemma LastOverlap(f: string, b: nat)
    requires Border(f, b)
    ensures OccursAt(f + (f + f[b..]), f, 2 * |f| - b)
  {
    var s := f + (f + f[b..]);
    assert s[2 * |f| - b..] == f[|f| - b..] + f[b..] == f[..b] + f[b..] == f;
  }

  /** Replacing all counted occurrences replaces all there are, in every content that counts more than
      one, for exactly the anchors that cannot overlap themselves. */
  lemma AllAreCountedIffUnbordered(f: string)
    requires f != ""
    ensures (forall s :: Count(s, f) > 1 ==> AllAreCounted(s, f)) <==> Unbordered(f)
  {
    hide Count, Sites, Border, AllAreCounted;
    if Unbordered(f) {
      forall s ensures AllAreCounted(s, f) {
        UnborderedAllCounted(s, f);
      }
    } else {
      var b: nat :| b < |f| && Border(f, b);
      BorderedCountsTwice(f, b);
    }
  }

  lemma UnborderedAllCounted(s: string, f: string)
    requires f != "" && Unbordered(f)
    ensures AllAreCounted(s, f)
  {
    hide OccursAt, Sites, Unbordered;
    forall k: nat | OccursAt(s, f, k) ensures k in Sites(s, f, 0) {
      EveryOccurrenceCounted(s, f, 0, k);
    }
  }
}
