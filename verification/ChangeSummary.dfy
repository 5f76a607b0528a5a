/** summarizeAppliedChange of fix_attempt_memory.go before its cap: two counting loops that share and
    update their counters, and the multiset difference they come to. */
module ChangeSummary {
  import opened Text
  import opened GoStrings

  function TrimmedLines(s: string): (ls: seq<string>)
    ensures |ls| == |Split(s, "\n")|
    ensures forall k :: 0 <= k < |ls| ==> ls[k] == Trim(Split(s, "\n")[k])
  {
    seq(|Split(s, "\n")|, k requires 0 <= k < |Split(s, "\n")| => Trim(Split(s, "\n")[k]))
  }

  /** The lines that count: trimmed, and not blank. */
  function Significant(ls: seq<string>): multiset<string> { multiset(ls)["" := 0] }

  method CountLines(ls: seq<string>) returns (counts: map<string, nat>)
    ensures forall x :: At(counts, x) == multiset(ls)[x]
  {
    counts := map[];
    var i := 0;
    while i < |ls|
      invariant 0 <= i <= |ls|
      invariant forall x :: At(counts, x) == multiset(ls[..i])[x]
    {
      assert ls[..i + 1] == ls[..i] + [ls[i]];
      counts := counts[ls[i] := At(counts, ls[i]) + 1];
      i := i + 1;
    }
    assert ls[..i] == ls;
  }

  /** Reading a Go map of counters: a missing key counts zero. */
  function At(counts: map<string, nat>, x: string): nat { if x in counts then counts[x] else 0 }

  function Shortfall(have: nat, want: nat, x: string): nat {
    if x != "" && have < want then want - have else 0
  }

  /** How the loop stands on one line text: `taken` of it taken, `left` still to come. */
  predicate OnTrack(have: nat, want: nat, raised: nat, taken: nat, left: nat, x: string) {
    && raised == have + taken && taken <= Shortfall(have, want, x)
    && (x != "" ==> want <= raised + left)
  }

  ghost predicate AllOnTrack(have: map<string, nat>, want: map<string, nat>, raised: map<string, nat>,
    taken: multiset<string>, left: multiset<string>) {
    forall x :: OnTrack(At(have, x), At(want, x), At(raised, x), taken[x], left[x], x)
  }

  lemma LineSkipped(have: map<string, nat>, want: map<string, nat>, raised: map<string, nat>,
    taken: multiset<string>, left: multiset<string>, t: string)
    requires AllOnTrack(have, want, raised, taken, multiset{t} + left)
    requires t == "" || At(raised, t) >= At(want, t)
    ensures AllOnTrack(have, want, raised, taken, left)
  {
    forall x ensures OnTrack(At(have, x), At(want, x), At(raised, x), taken[x], left[x], x) {
      assert OnTrack(At(have, x), At(want, x), At(raised, x), taken[x], (multiset{t} + left)[x], x);
    }
  }

  lemma LineTaken(have: map<string, nat>, want: map<string, nat>, raised: map<string, nat>, taken: multiset<string>,
    left: multiset<string>, t: string)
    requires AllOnTrack(have, want, raised, taken, multiset{t} + left)
    requires t != "" && At(raised, t) < At(want, t)
    ensures AllOnTrack(have, want, raised[t := At(raised, t) + 1], taken + multiset{t}, left)
  {
    var raised' := raised[t := At(raised, t) + 1];
    forall x ensures OnTrack(At(have, x), At(want, x), At(raised', x), (taken + multiset{t})[x], left[x], x) {
      assert OnTrack(At(have, x), At(want, x), At(raised, x), taken[x], (multiset{t} + left)[x], x);
    }
  }

  lemma AllTaken(have: map<string, nat>, want: map<string, nat>, raised: map<string, nat>, taken: multiset<string>)
    requires AllOnTrack(have, want, raised, taken, multiset{})
    ensures forall x :: taken[x] == Shortfall(At(have, x), At(want, x), x) && At(raised, x) == At(have, x) + taken[x]
  {
    forall x ensures taken[x] == Shortfall(At(have, x), At(want, x), x) && At(raised, x) == At(have, x) + taken[x] {
      assert OnTrack(At(have, x), At(want, x), At(raised, x), taken[x], 0, x);
    }
  }

  lemma NothingTaken(ls: seq<string>, have: map<string, nat>, want: map<string, nat>)
    requires forall x :: x != "" ==> At(want, x) <= At(have, x) + multiset(ls)[x]
    ensures AllOnTrack(have, want, have, multiset{}, multiset(ls))
  {
  }

  /** One of the two loops: each line of `ls` whose counter in `have` is behind the one in `want` is
      taken, and its counter raised. */
  method TakeShortfall(ls: seq<string>, have: map<string, nat>, want: map<string, nat>) returns (taken: seq<string>,
    raised: map<string, nat>)
    requires forall x :: x != "" ==> At(want, x) <= At(have, x) + multiset(ls)[x]
    ensures forall x :: multiset(taken)[x] == Shortfall(At(have, x), At(want, x), x)
    ensures forall x :: At(raised, x) == At(have, x) + multiset(taken)[x]
  {
    taken, raised := [], have;
    var i := 0;
    assert ls[0..] == ls;
    NothingTaken(ls, have, want);
    while i < |ls|
      invariant 0 <= i <= |ls|
      invariant AllOnTrack(have, want, raised, multiset(taken), multiset(ls[i..]))
    {
      hide AllOnTrack, At;
      assert ls[i..] == [ls[i]] + ls[i + 1..];
      taken, raised := TakeLine(ls[i], have, want, taken, raised, multiset(ls[i + 1..]));
      i := i + 1;
    }
    assert ls[i..] == [];
    AllTaken(have, want, raised, multiset(taken));
  }

  /** One line of the loop. */
  method TakeLine(t: string, ghost have: map<string, nat>, want: map<string, nat>, taken: seq<string>,
    raised: map<string, nat>, ghost left: multiset<string>)
    returns (taken': seq<string>, raised': map<string, nat>)
    requires AllOnTrack(have, want, raised, multiset(taken), multiset{t} + left)
    ensures AllOnTrack(have, want, raised', multiset(taken'), left)
  {
    hide AllOnTrack, At;
    taken', raised' := taken, raised;
    if t == "" || At(raised, t) >= At(want, t) {
      LineSkipped(have, want, raised, multiset(taken), left, t);
      return;
    }
    LineTaken(have, want, raised, multiset(taken), left, t);
    assert multiset(taken + [t]) == multiset(taken) + multiset{t};
    return taken + [t], raised[t := At(raised, t) + 1];
  }

  datatype Summary = NewFile | NoNetChange | Changed(removed: seq<string>, added: seq<string>)

  /** What the summary must be: the multiset difference of the significant lines, both ways. */
  ghost predicate IsDifference(before: string, after: string, removed: seq<string>, added: seq<string>) {
    var b, a := Significant(TrimmedLines(before)), Significant(TrimmedLines(after));
    multiset(removed) == b - a && multiset(added) == a - b
  }

  method SummarizeAppliedChange(before: string, after: string) returns (r: Summary)
    ensures r == NewFile <==> IsBlank(before)
    ensures r == NoNetChange <==> !IsBlank(before) && Significant(TrimmedLines(before)) == Significant(TrimmedLines(after))
    ensures r.Changed? ==> IsDifference(before, after, r.removed, r.added)
  {
    if IsBlank(before) {
      return NewFile;
    }
    var removed, added := Differences(TrimmedLines(before), TrimmedLines(after));
    if |removed + added| == 0 {
      return NoNetChange;
    }
    return Changed(removed, added);
  }

  /** The two loops, one after the other, on the shared counters. */
  method Differences(beforeLines: seq<string>, afterLines: seq<string>) returns (removed: seq<string>,
    added: seq<string>)
    ensures var b, a := Significant(beforeLines), Significant(afterLines);
            && multiset(removed) == b - a && multiset(added) == a - b
            && (|removed + added| == 0 <==> b == a)
  {
    hide At, Significant;
    var beforeSet := CountLines(beforeLines);
    var afterSet := CountLines(afterLines);
    added, beforeSet := TakeShortfall(afterLines, beforeSet, afterSet);
    removed, afterSet := TakeShortfall(beforeLines, afterSet, beforeSet);
    DifferenceFromCounts(beforeLines, afterLines, removed, added);
  }

  /** The second loop runs on counters the first has raised, and still takes just what is missing. */
  lemma DifferenceFromCounts(beforeLines: seq<string>, afterLines: seq<string>, removed: seq<string>,
    added: seq<string>)
    requires forall x :: multiset(added)[x] == Shortfall(multiset(beforeLines)[x], multiset(afterLines)[x], x)
    requires forall x :: multiset(removed)[x] == Shortfall(multiset(afterLines)[x], multiset(beforeLines)[x] + multiset(added)[x], x)
    ensures var b, a := Significant(beforeLines), Significant(afterLines);
            && multiset(removed) == b - a && multiset(added) == a - b
            && (|removed + added| == 0 <==> b == a)
  {
    var b, a := Significant(beforeLines), Significant(afterLines);
    assert forall x :: multiset(added)[x] == (a - b)[x];
    assert forall x :: multiset(removed)[x] == (b - a)[x];
    assert |multiset(removed)| == |removed| && |multiset(added)| == |added|;
    if removed == [] && added == [] {
      assert forall x :: (a - b)[x] == 0 && (b - a)[x] == 0;
      assert forall x :: a[x] == b[x];
    }
  }

  /** What an exact difference is good for: taking the removed lines out and putting the added ones
      in turns the one file's lines into the other's, and no line is both. */
  lemma DifferenceIsExact(before: string, after: string, removed: seq<string>, added: seq<string>)
    requires IsDifference(before, after, removed, added)
    ensures var b, a := Significant(TrimmedLines(before)), Significant(TrimmedLines(after));
            && multiset(removed) <= b
            && b - multiset(removed) + multiset(added) == a
            && multiset(removed) !! multiset(added)
            && "" !in multiset(removed) + multiset(added)
  {
    hide TrimmedLines;
    var b, a := Significant(TrimmedLines(before)), Significant(TrimmedLines(after));
    assert forall x :: (b - multiset(removed) + multiset(added))[x] == a[x];
  }
}
