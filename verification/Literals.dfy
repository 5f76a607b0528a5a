/** The string-literal forms of Java and C# and where each one ends:
    `stringLiteralEnd` and `csharpUnmodelledLiteralEnd` of fix_quality_gate.go. */
module Literals {
  import opened Text

  /** The length of the run of double quotes `s` starts with. */
  function QuoteRun(s: string): (n: nat)
    ensures n <= |s|
    ensures forall k :: 0 <= k < n ==> s[k] == '"'
    ensures n < |s| ==> s[n] != '"'
  {
    if s != "" && s[0] == '"' then 1 + QuoteRun(s[1..]) else 0
  }

  /** `s` is what follows the opening run of a raw string; the length up to and including the first
      run of at least `quotes` quotes, or all of `s` when there is none. */
  function RawCloseLen(s: string, quotes: nat): (n: nat)
    requires quotes > 0
    ensures n <= |s|
    decreases |s|
  {
    if s == "" then 0
    else if s[0] != '"' then 1 + RawCloseLen(s[1..], quotes)
    else
      var run := QuoteRun(s);
      if run >= quotes then run else run + RawCloseLen(s[run..], quotes)
  }

  /** `s` is what follows an opening quote; the length up to and including the closing quote, or
      all of `s`.  In a verbatim string `""` is an escaped quote and `\` an ordinary byte. */
  function QuotedCloseLen(s: string, verbatim: bool): (n: nat)
    ensures n <= |s|
    decreases |s|
  {
    if s == "" then 0
    else if !verbatim && s[0] == '\\' && |s| > 1 then 2 + QuotedCloseLen(s[2..], verbatim)
    else if s[0] == '"' then
      if verbatim && |s| > 1 && s[1] == '"' then 2 + QuotedCloseLen(s[2..], verbatim) else 1
    else 1 + QuotedCloseLen(s[1..], verbatim)
  }

  predicate IsPrefixByte(c: char) { c == '@' || c == '$' }

  /** At most one `@` and one `$`, in either order. */
  function PrefixLen(s: string): (n: nat)
    ensures n <= |s|
  {
    if s == "" || !IsPrefixByte(s[0]) then 0
    else if |s| > 1 && IsPrefixByte(s[1]) && s[1] != s[0] then 2
    else 1
  }

  /** Whether a prefix of length `p` holds an `@`. */
  predicate IsVerbatim(s: string, p: nat)
    requires p <= |s|
  {
    (p > 0 && s[0] == '@') || (p > 1 && s[1] == '@')
  }

  /** The literal whose opening quote is `s[0]`. */
  function UnprefixedLen(s: string, verbatim: bool, javaOrCS: bool): (n: nat)
    requires s != "" && s[0] == '"'
    ensures 0 < n <= |s|
  {
    var run := QuoteRun(s);
    if run >= 3 && !verbatim && javaOrCS then run + RawCloseLen(s[run..], run)
    else 1 + QuotedCloseLen(s[1..], verbatim)
  }

  /** The length of the string literal `s` starts with, if it starts with one. */
  function StringLiteralLen(s: string, javaOrCS: bool): (r: Option<nat>)
    ensures r.Some? ==> 0 < r.value <= |s|
  {
    var p := if javaOrCS then PrefixLen(s) else 0;
    if p == |s| || s[p] != '"' then None
    else Some(p + UnprefixedLen(s[p..], IsVerbatim(s, p), javaOrCS))
  }

  predicate StartsRaw(s: string) { |s| >= 3 && s[0] == '"' && s[1] == '"' && s[2] == '"' }

  /** The C# literal forms in which a backslash is just a backslash. */
  function UnmodelledLen(s: string): (r: Option<nat>)
    requires s != ""
    ensures r.Some? ==> 0 < r.value <= |s|
  {
    if s[0] == '@' || StartsWith(s, '$', '@') || StartsRaw(s) then StringLiteralLen(s, true) else None
  }

  // ----- one byte of lookahead decides: a literal's end does not depend on what lies further on

  lemma {:induction false} QuoteRunStable(s: string, tail: string)
    requires SameHead(s[QuoteRun(s)..], tail)
    ensures QuoteRun(s[..QuoteRun(s)] + tail) == QuoteRun(s)
  {
    var n := QuoteRun(s);
    if n == 0 {
      assert s[..n] + tail == tail && s[n..] == s;
    } else {
      DropCut(s, n, 1, tail);
      QuoteRunStable(s[1..], tail);
    }
  }

  /** The raw scan, one run or one other byte at a time. */
  lemma RawCloseStep(s: string, quotes: nat)
    requires quotes > 0
    ensures s == "" ==> RawCloseLen(s, quotes) == 0
    ensures s != "" && s[0] != '"' ==> QuoteRun(s) == 0 && RawCloseLen(s, quotes) == 1 + RawCloseLen(s[1..], quotes)
    ensures s != "" && s[0] == '"' ==>
              var run := QuoteRun(s);
              0 < run && RawCloseLen(s, quotes) == if run >= quotes then run else run + RawCloseLen(s[run..], quotes)
  {
  }

  lemma {:induction false} RawCloseStable(s: string, quotes: nat, tail: string)
    requires quotes > 0
    requires SameHead(s[RawCloseLen(s, quotes)..], tail)
    ensures RawCloseLen(s[..RawCloseLen(s, quotes)] + tail, quotes) == RawCloseLen(s, quotes)
    decreases |s|
  {
    hide RawCloseLen, QuoteRun;
    var n := RawCloseLen(s, quotes);
    var t := s[..n] + tail;
    RawCloseStep(s, quotes);
    RawCloseStep(t, quotes);
    if s == "" {
      assert t == "";
    } else if s[0] != '"' {
      DropCut(s, n, 1, tail);
      RawCloseStable(s[1..], quotes, tail);
    } else {
      var run := QuoteRun(s);
      QuoteRunKept(s, n, tail);
      if run < quotes {
        DropCut(s, n, run, tail);
        RawCloseStable(s[run..], quotes, tail);
      }
    }
  }

  /** A run of quotes that ends before the cut, or at it, is the same run after it. */
  lemma QuoteRunKept(s: string, n: nat, tail: string)
    requires QuoteRun(s) <= n <= |s| && SameHead(s[n..], tail)
    ensures QuoteRun(s[..n] + tail) == QuoteRun(s)
  {
    hide QuoteRun;
    Recut(s, QuoteRun(s), n, tail);
    QuoteRunStable(s, s[QuoteRun(s)..n] + tail);
  }

  lemma Recut(s: string, a: nat, n: nat, tail: string)
    requires a <= n <= |s| && SameHead(s[n..], tail)
    ensures s[..n] + tail == s[..a] + (s[a..n] + tail)
    ensures SameHead(s[a..], s[a..n] + tail)
  {
    assert s[a..] == s[a..n] + s[n..];
  }

  lemma {:induction false} QuotedCloseStable(s: string, verbatim: bool, tail: string)
    requires SameHead(s[QuotedCloseLen(s, verbatim)..], tail)
    ensures QuotedCloseLen(s[..QuotedCloseLen(s, verbatim)] + tail, verbatim) == QuotedCloseLen(s, verbatim)
    decreases |s|
  {
    var n := QuotedCloseLen(s, verbatim);
    if s == "" {
      assert s[..n] + tail == "";
    } else if !verbatim && s[0] == '\\' && |s| > 1 {
      QuotedCloseSkip(s, verbatim, 2, tail);
    } else if s[0] != '"' {
      QuotedCloseSkip(s, verbatim, 1, tail);
    } else if verbatim && |s| > 1 && s[1] == '"' {
      QuotedCloseSkip(s, verbatim, 2, tail);
    } else {
      DropCut(s, n, 1, tail);
    }
  }

  lemma {:induction false} QuotedCloseSkip(s: string, verbatim: bool, k: nat, tail: string)
    requires 0 < k <= QuotedCloseLen(s, verbatim)
    requires QuotedCloseLen(s, verbatim) == k + QuotedCloseLen(s[k..], verbatim)
    requires k == 2 <==> (!verbatim && s[0] == '\\' && |s| > 1) || (verbatim && s[0] == '"' && |s| > 1 && s[1] == '"')
    requires k == 1 ==> s[0] != '"'
    requires k <= 2
    requires SameHead(s[QuotedCloseLen(s, verbatim)..], tail)
    ensures QuotedCloseLen(s[..QuotedCloseLen(s, verbatim)] + tail, verbatim) == QuotedCloseLen(s, verbatim)
    decreases |s|, 0
  {
    var n := QuotedCloseLen(s, verbatim);
    DropCut(s, n, k, tail);
    QuotedCloseStable(s[k..], verbatim, tail);
  }

  /** An ordinary literal is not turned into a raw one by what follows it. */
  lemma ShortRunStable(q: string, tail: string)
    requires q != "" && q[0] == '"' && QuoteRun(q) < 3
    requires SameHead(q[1 + QuotedCloseLen(q[1..], false)..], tail)
    ensures QuoteRun(q[..1 + QuotedCloseLen(q[1..], false)] + tail) < 3
  {
    var m := 1 + QuotedCloseLen(q[1..], false);
    var u := q[..m] + tail;
    assert |u| >= 3 ==> u[0] == q[0] && u[1] == q[1];
  }

  lemma RawStable(q: string, tail: string)
    requires q != "" && q[0] == '"' && QuoteRun(q) >= 3
    requires SameHead(q[UnprefixedLen(q, false, true)..], tail)
    ensures var u := q[..UnprefixedLen(q, false, true)] + tail;
            u[0] == '"' && UnprefixedLen(u, false, true) == UnprefixedLen(q, false, true)
  {
    var run, m := QuoteRun(q), UnprefixedLen(q, false, true);
    DropCut(q, m, run, tail);
    QuoteRunKept(q, m, tail);
    RawCloseStable(q[run..], run, tail);
  }

  lemma UnprefixedStable(q: string, verbatim: bool, javaOrCS: bool, tail: string)
    requires q != "" && q[0] == '"'
    requires SameHead(q[UnprefixedLen(q, verbatim, javaOrCS)..], tail)
    ensures var u := q[..UnprefixedLen(q, verbatim, javaOrCS)] + tail;
            u[0] == '"' && UnprefixedLen(u, verbatim, javaOrCS) == UnprefixedLen(q, verbatim, javaOrCS)
  {
    if QuoteRun(q) >= 3 && !verbatim && javaOrCS {
      RawStable(q, tail);
    } else {
      var m := UnprefixedLen(q, verbatim, javaOrCS);
      DropCut(q, m, 1, tail);
      QuotedCloseStable(q[1..], verbatim, tail);
      if !verbatim && javaOrCS {
        ShortRunStable(q, tail);
      }
    }
  }

  lemma PrefixKept(s: string, n: nat, tail: string)
    requires PrefixLen(s) < n <= |s| && s[PrefixLen(s)] == '"'
    ensures var t := s[..n] + tail;
            && PrefixLen(t) == PrefixLen(s)
            && forall p :: 0 <= p <= PrefixLen(s) ==> IsVerbatim(t, p) == IsVerbatim(s, p)
  {
    var t := s[..n] + tail;
    assert t[0] == s[0];
    assert n > 1 ==> t[1] == s[1];
    assert n > 2 ==> t[2] == s[2];
  }

  /** A string literal ends where it ends whatever comes after the byte that follows it. */
  lemma StringLiteralStable(s: string, javaOrCS: bool, tail: string)
    requires StringLiteralLen(s, javaOrCS).Some?
    requires SameHead(s[StringLiteralLen(s, javaOrCS).value..], tail)
    ensures StringLiteralLen(s[..StringLiteralLen(s, javaOrCS).value] + tail, javaOrCS) == StringLiteralLen(s, javaOrCS)
  {
    hide UnprefixedLen, PrefixLen;
    var n := StringLiteralLen(s, javaOrCS).value;
    var p := if javaOrCS then PrefixLen(s) else 0;
    DropCut(s, n, p, tail);
    if javaOrCS {
      PrefixKept(s, n, tail);
    }
    UnprefixedStable(s[p..], IsVerbatim(s, p), javaOrCS, tail);
  }

  // ----- an independent reading of the raw form

  function Quotes(n: nat): (q: string)
    ensures |q| == n && forall k :: 0 <= k < n ==> q[k] == '"'
  {
    if n == 0 then "" else "\"" + Quotes(n - 1)
  }

  lemma {:induction false} QuoteRunIsLongest(s: string, m: nat)
    ensures OccursAt(s, Quotes(m), 0) <==> m <= QuoteRun(s)
  {
    if m <= QuoteRun(s) {
      assert s[..m] == Quotes(m);
    }
  }

  /** A window starting inside a short run, or on a byte that is no quote, meets that run's end. */
  lemma NoRunWithin(s: string, quotes: nat, i: nat)
    requires QuoteRun(s) < quotes && i <= QuoteRun(s)
    ensures !OccursAt(s, Quotes(quotes), i)
  {
    var run := QuoteRun(s);
    if i + quotes <= |s| {
      assert s[i..i + quotes][run - i] == s[run];
      assert Quotes(quotes)[run - i] == '"';
    }
  }

  /** A raw string closes at the leftmost place holding `quotes` quotes in a row, taking the whole
      run found there; with no such place it takes everything. */
  lemma {:induction false} RawClosesAtFirstRun(s: string, quotes: nat)
    requires quotes > 0
    ensures var r := Index(s, Quotes(quotes));
            RawCloseLen(s, quotes) == if r < 0 then |s| else r + QuoteRun(s[r..])
    decreases |s|
  {
    hide RawCloseLen, QuoteRun, Quotes, Index, OccursAt;
    RawCloseStep(s, quotes);
    if s == "" {
      NoQuotesInNothing(quotes);
    } else if QuoteRun(s) >= quotes {
      RunAtOnce(s, quotes);
      assert s[0..] == s;
    } else {
      var k := if QuoteRun(s) == 0 then 1 else QuoteRun(s);
      RawClosesAtFirstRun(s[k..], quotes);
      RunFurtherOn(s, quotes, k);
    }
  }

  lemma NoQuotesInNothing(quotes: nat)
    requires quotes > 0
    ensures Index("", Quotes(quotes)) < 0
  {
  }

  lemma RunAtOnce(s: string, quotes: nat)
    requires QuoteRun(s) >= quotes
    ensures Index(s, Quotes(quotes)) == 0
  {
    QuoteRunIsLongest(s, quotes);
    hide QuoteRun, Quotes, OccursAt;
  }

  lemma RunFurtherOn(s: string, quotes: nat, k: nat)
    requires QuoteRun(s) < quotes && k <= |s| && k <= QuoteRun(s) + 1
    requires k > QuoteRun(s) ==> QuoteRun(s) == 0
    ensures var r := Index(s[k..], Quotes(quotes));
            && Index(s, Quotes(quotes)) == (if r < 0 then -1 else k + r)
            && (r >= 0 ==> r <= |s| - k && s[k..][r..] == s[k + r..])
  {
    hide QuoteRun, Quotes, Index, OccursAt;
    forall i: nat | i < k ensures !OccursAt(s, Quotes(quotes), i) {
      NoRunWithin(s, quotes, i);
    }
    IndexSkip(s, Quotes(quotes), k);
    IndexInside(s[k..], Quotes(quotes));
  }

  lemma IndexInside(s: string, sub: string)
    ensures Index(s, sub) <= |s|
  {
  }

  lemma IndexSkip(s: string, sub: string, k: nat)
    requires k <= |s|
    requires forall i: nat | i < k :: !OccursAt(s, sub, i)
    ensures Index(s, sub) == if Index(s[k..], sub) < 0 then -1 else k + Index(s[k..], sub)
  {
    hide Index, OccursAt;
    var a, b := Index(s, sub), Index(s[k..], sub);
    if a >= 0 {
      OccursShift(s, sub, k, a - k);
    }
    if b >= 0 {
      OccursShift(s, sub, k, b);
      forall i: nat | k <= i < k + b ensures !OccursAt(s, sub, i) {
        OccursShift(s, sub, k, i - k);
      }
    }
  }

  lemma OccursShift(s: string, sub: string, k: nat, i: nat)
    requires k <= |s|
    ensures OccursAt(s, sub, k + i) <==> OccursAt(s[k..], sub, i)
  {
    if k + i + |sub| <= |s| {
      assert s[k + i..k + i + |sub|] == s[k..][i..i + |sub|];
    }
  }

  // ----- an independent reading of the other forms

  /** How many `c` stand in a row directly before `k`. */
  function RunBefore(s: string, k: nat, c: char): (n: nat)
    requires k <= |s|
    ensures n <= k
  {
    if k > 0 && s[k - 1] == c then 1 + RunBefore(s, k - 1, c) else 0
  }

  /** A quote no backslash takes; in a verbatim string, the last quote of an odd run. */
  predicate ClosingQuote(s: string, k: nat, verbatim: bool) {
    && k < |s| && s[k] == '"'
    && if verbatim then (k + 1 == |s| || s[k + 1] != '"') && RunBefore(s, k, '"') % 2 == 0
       else RunBefore(s, k, '\\') % 2 == 0
  }

  lemma {:induction false} RunBeforeShifts(s: string, d: nat, k: nat, c: char)
    requires d + k <= |s|
    ensures RunBefore(s, d + k, c) == RunBefore(s[d..], k, c) + if RunBefore(s[d..], k, c) == k then RunBefore(s, d, c) else 0
  {
    if k > 0 {
      RunBeforeShifts(s, d, k - 1, c);
      assert s[d..][k - 1] == s[d + k - 1];
    }
  }

  lemma ClosingShifts(s: string, d: nat, k: nat, verbatim: bool)
    requires d <= |s| && RunBefore(s, d, if verbatim then '"' else '\\') % 2 == 0
    ensures ClosingQuote(s, d + k, verbatim) <==> ClosingQuote(s[d..], k, verbatim)
  {
    hide RunBefore;
    if d + k < |s| {
      RunBeforeShifts(s, d, k, if verbatim then '"' else '\\');
      assert s[d..][k] == s[d + k];
      assert d + k + 1 < |s| ==> s[d..][k + 1] == s[d + k + 1];
    }
  }

  /** The first closing quote ends at `n`, or there is none and `n` is the end of input. */
  predicate ClosesAt(s: string, n: nat, verbatim: bool) {
    || (0 < n <= |s| && ClosingQuote(s, n - 1, verbatim) && forall k :: 0 <= k < n - 1 ==> !ClosingQuote(s, k, verbatim))
    || (n == |s| && forall k :: 0 <= k < |s| ==> !ClosingQuote(s, k, verbatim))
  }

  lemma ClosesFurtherOn(s: string, d: nat, n: nat, verbatim: bool)
    requires d <= |s| && RunBefore(s, d, if verbatim then '"' else '\\') % 2 == 0
    requires ClosesAt(s[d..], n, verbatim) && forall k :: 0 <= k < d ==> !ClosingQuote(s, k, verbatim)
    ensures ClosesAt(s, d + n, verbatim)
  {
    hide ClosingQuote, RunBefore;
    forall k: nat | d <= k < |s| ensures ClosingQuote(s, k, verbatim) <==> ClosingQuote(s[d..], k - d, verbatim) {
      ClosingShifts(s, d, k - d, verbatim);
    }
  }

  /** An ordinary string closes at the first quote that no backslash takes, a verbatim one with the
      first odd run of quotes; with none it takes everything. */
  lemma {:induction false} QuotedClosesAtFirst(s: string, verbatim: bool)
    ensures ClosesAt(s, QuotedCloseLen(s, verbatim), verbatim)
    decreases |s|
  {
    var n := QuotedCloseLen(s, verbatim);
    if s != "" {
      var d := if (!verbatim && s[0] == '\\' && |s| > 1) || (verbatim && s[0] == '"' && |s| > 1 && s[1] == '"') then 2 else 1;
      if d == 1 && s[0] == '"' {
        assert ClosingQuote(s, 0, verbatim);
      } else if d == 1 && s[0] == '\\' && !verbatim {
        assert !ClosingQuote(s, 0, verbatim);
      } else {
        ShortRun(s, d, verbatim);
        QuotedClosesAtFirst(s[d..], verbatim);
        hide ClosesAt, ClosingQuote, RunBefore;
        ClosesFurtherOn(s, d, QuotedCloseLen(s[d..], verbatim), verbatim);
      }
    }
  }

  lemma ShortRun(s: string, d: nat, verbatim: bool)
    requires d <= |s|
    requires (d == 1 && s[0] != '"' && (verbatim || s[0] != '\\'))
          || (d == 2 && if verbatim then s[0] == s[1] == '"' else s[0] == '\\')
    ensures RunBefore(s, d, if verbatim then '"' else '\\') % 2 == 0
    ensures forall k :: 0 <= k < d ==> !ClosingQuote(s, k, verbatim)
  {
    var c := if verbatim then '"' else '\\';
    assert RunBefore(s, 0, c) == 0;
    assert RunBefore(s, 1, c) == if s[0] == c then 1 else 0;
  }

  // ----- the loops of the scanners

  /** The loop over the prefix: `j` is just past it, `verbatim` tells whether it holds an `@`. */
  method PrefixEnd(s: string, i: nat) returns (j: nat, verbatim: bool)
    requires i <= |s|
    ensures j == i + PrefixLen(s[i..]) && verbatim == IsVerbatim(s[i..], j - i)
  {
    var n := |s|;
    j, verbatim := i, false;
    var seenAt, seenDollar := false, false;
    while j < n && IsPrefixByte(s[j])
      invariant i <= j <= n && j <= i + 2
      invariant j > i ==> IsPrefixByte(s[i]) && seenAt == (s[i] == '@' || (j == i + 2 && s[i + 1] == '@'))
      invariant j > i ==> seenDollar == (s[i] == '$' || (j == i + 2 && s[i + 1] == '$'))
      invariant j == i + 2 ==> IsPrefixByte(s[i + 1]) && s[i] != s[i + 1]
      invariant j == i ==> !seenAt && !seenDollar
      invariant verbatim == seenAt
    {
      if s[j] == '@' {
        if seenAt {
          break;
        }
        seenAt, verbatim := true, true;
      } else {
        if seenDollar {
          break;
        }
        seenDollar := true;
      }
      j := j + 1;
    }
  }

  method QuoteRunAt(s: string, j: nat) returns (quotes: nat)
    requires j <= |s|
    ensures quotes == QuoteRun(s[j..])
  {
    var n := |s|;
    quotes := 0;
    while j + quotes < n && s[j + quotes] == '"'
      invariant j + quotes <= n
      invariant forall k :: 0 <= k < quotes ==> s[j..][k] == '"'
    {
      quotes := quotes + 1;
    }
    assert j + quotes < n ==> s[j..][quotes] == s[j + quotes];
  }

  /** The index just past the string literal at `s[i]`, or not ok when none starts there. */
  method StringLiteralEnd(s: string, i: nat, javaOrCS: bool) returns (end: nat, ok: bool)
    requires i <= |s|
    ensures ok <==> StringLiteralLen(s[i..], javaOrCS).Some?
    ensures ok ==> end == i + StringLiteralLen(s[i..], javaOrCS).value
  {
    var n := |s|;
    var j, verbatim := i, false;
    if javaOrCS {
      j, verbatim := PrefixEnd(s, i);
    }
    if j >= n || s[j] != '"' {
      return 0, false;
    }
    assert s[i..][j - i..] == s[j..];
    end := UnprefixedEnd(s, j, verbatim, javaOrCS);
    ok := true;
  }

  /** The literal whose opening quote is `s[j]`. */
  method UnprefixedEnd(s: string, j: nat, verbatim: bool, javaOrCS: bool) returns (end: nat)
    requires j < |s| && s[j] == '"'
    ensures end == j + UnprefixedLen(s[j..], verbatim, javaOrCS)
  {
    ghost var q := s[j..];
    var quotes := QuoteRunAt(s, j);
    if quotes >= 3 && !verbatim && javaOrCS {
      assert q[quotes..] == s[j + quotes..];
      end := RawEnd(s, j + quotes, quotes);
    } else {
      assert q[1..] == s[j + 1..];
      end := QuotedEnd(s, j + 1, verbatim);
    }
  }

  /** The raw-string arm of the scan: skip runs of quotes shorter than the opening one. */
  method RawEnd(s: string, from: nat, quotes: nat) returns (end: nat)
    requires from <= |s| && quotes > 0
    ensures end == from + RawCloseLen(s[from..], quotes)
  {
    hide RawCloseLen, QuoteRun;
    var n, k := |s|, from;
    while k < n
      invariant from <= k <= n
      invariant from + RawCloseLen(s[from..], quotes) == k + RawCloseLen(s[k..], quotes)
    {
      RawCloseAt(s, k, quotes);
      if s[k] != '"' {
        k := k + 1;
        continue;
      }
      var run := QuoteRunAt(s, k);
      if run >= quotes {
        return k + run;
      }
      k := k + run;
    }
    RawCloseStep(s[n..], quotes);
    return n;
  }

  lemma RawCloseAt(s: string, k: nat, quotes: nat)
    requires k < |s| && quotes > 0
    ensures s[k] != '"' ==> RawCloseLen(s[k..], quotes) == 1 + RawCloseLen(s[k + 1..], quotes)
    ensures s[k] == '"' ==>
              var run := QuoteRun(s[k..]);
              && 0 < run && k + run <= |s|
              && RawCloseLen(s[k..], quotes) == if run >= quotes then run else run + RawCloseLen(s[k + run..], quotes)
  {
    hide RawCloseLen, QuoteRun;
    RawCloseStep(s[k..], quotes);
    assert s[k..][1..] == s[k + 1..];
    assert s[k..][QuoteRun(s[k..])..] == s[k + QuoteRun(s[k..])..];
  }

  /** The verbatim and ordinary arms of the scan. */
  method QuotedEnd(s: string, from: nat, verbatim: bool) returns (end: nat)
    requires from <= |s|
    ensures end == from + QuotedCloseLen(s[from..], verbatim)
  {
    var n, k := |s|, from;
    while k < n
      invariant from <= k <= n
      invariant from + QuotedCloseLen(s[from..], verbatim) == k + QuotedCloseLen(s[k..], verbatim)
    {
      assert s[k..][1..] == s[k + 1..];
      assert k + 1 < n ==> s[k..][2..] == s[k + 2..] && s[k..][1] == s[k + 1];
      if !verbatim && s[k] == '\\' && k + 1 < n {
        k := k + 2;
      } else if s[k] == '"' {
        if verbatim && k + 1 < n && s[k + 1] == '"' {
          k := k + 2;
          continue;
        }
        return k + 1;
      } else {
        k := k + 1;
      }
    }
    return n;
  }

  /** The index just past a C# literal whose backslashes mean nothing, if `s[i]` starts one. */
  method CSharpUnmodelledLiteralEnd(s: string, i: nat) returns (end: nat, ok: bool)
    requires i < |s|
    ensures ok <==> UnmodelledLen(s[i..]).Some?
    ensures ok ==> end == i + UnmodelledLen(s[i..]).value
  {
    if s[i] == '@' {
    } else if s[i] == '$' && i + 1 < |s| && s[i + 1] == '@' {
    } else if StartsRaw(s[i..]) {
    } else {
      return 0, false;
    }
    end, ok := StringLiteralEnd(s, i, true);
  }
}
