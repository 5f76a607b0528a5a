/** What a run of ReconcileDuplicateTestArtifacts leaves on disk and reports, group by group, told by
    the file system it started from and by what failed: no variable of its loops appears. */
module ReconcileOutcome {
  import opened Text
  import opened Reconcile

  predicate CanRead(w: World, original: Files, p: string) { p in original && p !in w.unreadable }

  /** `p` can be read, and its text can be merged into `text`. */
  predicate Takes(w: World, original: Files, canonical: string, text: string, p: string) {
    CanRead(w, original, p) && w.merge(text, original[p], canonical, p).Some?
  }

  /** The canonical text with what could be taken of the first `k` redundant members merged in. */
  function TextAfter(w: World, original: Files, g: Group, k: nat): string
    requires k <= |g.redundant| && g.canonical in original
  {
    if k == 0 then original[g.canonical]
    else
      var text, p := TextAfter(w, original, g, k - 1), g.redundant[k - 1];
      if Takes(w, original, g.canonical, text, p) then w.merge(text, original[p], g.canonical, p).value else text
  }

  predicate Taken(w: World, original: Files, g: Group, k: nat)
    requires k < |g.redundant| && g.canonical in original
  {
    Takes(w, original, g.canonical, TextAfter(w, original, g, k), g.redundant[k])
  }

  predicate Kept(original: Files, files: Files, p: string) {
    (p in files <==> p in original) && (p in files && p in original ==> files[p] == original[p])
  }

  predicate SkippedFor(skipped: map<string, Reason>, p: string, why: Reason) { p in skipped && skipped[p] == why }

  /** One redundant member: gone and reported merged, or kept and reported with the true reason. */
  predicate MemberOutcome(w: World, original: Files, g: Group, k: nat, files: Files, merged: seq<string>,
    skipped: map<string, Reason>)
    requires k < |g.redundant| && g.canonical in original
  {
    var p := g.redundant[k];
    if !CanRead(w, original, p) then Kept(original, files, p) && p !in merged && SkippedFor(skipped, p, Unreadable)
    else if !Taken(w, original, g, k) then Kept(original, files, p) && p !in merged && SkippedFor(skipped, p, MergeRefused)
    else if p in w.unremovable then Kept(original, files, p) && p !in merged && SkippedFor(skipped, p, NotRemoved)
    else p !in files && p in merged && p !in skipped
  }

  /** The canonical file: untouched when nothing was taken, else it holds all that was taken, unless
      the write failed, which is reported. */
  ghost predicate CanonicalOutcome(w: World, original: Files, g: Group, files: Files, skipped: map<string, Reason>)
    requires g.canonical in original
  {
    var c := g.canonical;
    if forall k :: 0 <= k < |g.redundant| ==> !Taken(w, original, g, k) then Kept(original, files, c) && c !in skipped
    else if c in w.badWrites then c in files && files[c] == w.badWrites[c] && SkippedFor(skipped, c, CanonicalNotWritten)
    else c in files && files[c] == TextAfter(w, original, g, |g.redundant|) && c !in skipped
  }

  /** A group that is left alone, all its redundant members reported for the same reason. */
  ghost predicate LeftAlone(original: Files, g: Group, files: Files, m: Result, why: Reason) {
    && (forall p :: p in Members(g) ==> Kept(original, files, p))
    && m.merged == [] && (forall p :: p in m.skipped <==> p in g.redundant)
    && forall p :: p in m.skipped ==> m.skipped[p] == why
  }

  ghost predicate Outcome(w: World, original: Files, g: Group, files: Files, m: Result) {
    if g.redundant == [] || exists p :: p in g.redundant && p !in g.generated then LeftAlone(original, g, files, m, NotAuthored)
    else if !CanRead(w, original, g.canonical) then LeftAlone(original, g, files, m, CanonicalUnreadable)
    else
      && (forall k :: 0 <= k < |g.redundant| ==> MemberOutcome(w, original, g, k, files, m.merged, m.skipped))
      && (forall p :: p in m.merged ==> p in g.redundant)
      && CanonicalOutcome(w, original, g, files, m.skipped)
  }

  // ----- one group

  /** The members of a group are as they were when its turn comes. */
  ghost predicate Fresh(original: Files, g: Group, files: Files) {
    forall p :: p in Members(g) ==> Kept(original, files, p)
  }

  /** How the loop over the members stands after `n` of them. */
  ghost predicate MembersDone(w: World, original: Files, g: Group, n: nat, t: Work)
    requires n <= |g.redundant| && g.canonical in original
  {
    && t.text == TextAfter(w, original, g, n)
    && (t.mergedAny <==> exists k :: 0 <= k < n && Taken(w, original, g, k))
    && (forall k :: 0 <= k < n ==> MemberOutcome(w, original, g, k, t.files, t.merged, t.skipped))
    && (forall k :: n <= k < |g.redundant| ==> Kept(original, t.files, g.redundant[k]))
    && Kept(original, t.files, g.canonical)
    && (forall p :: p in t.merged || p in t.skipped ==> p in g.redundant[..n])
  }

  lemma {:induction false} MembersOutcome(w: World, original: Files, g: Group, s: State, n: nat)
    requires Distinct(g) && g.canonical in original && Fresh(original, g, s.files) && n <= |g.redundant|
    ensures MembersDone(w, original, g, n, MergeMembers(w, g.canonical, StartWork(s, original[g.canonical]), g.redundant[..n]))
  {
    var start := StartWork(s, original[g.canonical]);
    if n == 0 {
      assert g.redundant[..0] == [];
      assert forall k :: 0 <= k < |g.redundant| ==> g.redundant[k] in Members(g);
    } else {
      MembersOutcome(w, original, g, s, n - 1);
      assert g.redundant[..n][..n - 1] == g.redundant[..n - 1];
      var t := MergeMembers(w, g.canonical, start, g.redundant[..n - 1]);
      hide MembersDone, Fresh, MergeMember, Distinct;
      NextMember(w, original, g, n - 1, t);
    }
  }

  lemma NextMember(w: World, original: Files, g: Group, n: nat, t: Work)
    requires Distinct(g) && n < |g.redundant| && g.canonical in original && MembersDone(w, original, g, n, t)
    ensures MembersDone(w, original, g, n + 1, MergeMember(w, g.canonical, t, g.redundant[n]))
  {
    var p := g.redundant[n];
    var u := MergeMember(w, g.canonical, t, p);
    MemberAlone(w, original, g, n, t);
    assert g.redundant[..n + 1] == g.redundant[..n] + [p];
    assert p !in g.redundant[..n] && p != g.canonical;
    hide MergeMember, Taken, TextAfter, MemberOutcome;
    forall k | 0 <= k < n ensures MemberOutcome(w, original, g, k, u.files, u.merged, u.skipped) {
      assert MemberOutcome(w, original, g, k, t.files, t.merged, t.skipped);
      assert g.redundant[k] != p;
      SameReport(w, original, g, k, t, u);
    }
    forall k | n + 1 <= k < |g.redundant| ensures Kept(original, u.files, g.redundant[k]) {
      assert g.redundant[k] != p;
    }
  }

  lemma SameReport(w: World, original: Files, g: Group, k: nat, t: Work, u: Work)
    requires k < |g.redundant| && g.canonical in original
    requires MemberOutcome(w, original, g, k, t.files, t.merged, t.skipped)
    requires var q := g.redundant[k];
             && (q in u.files <==> q in t.files) && (q in t.files && q in u.files ==> u.files[q] == t.files[q])
             && (q in u.merged <==> q in t.merged)
             && (q in u.skipped <==> q in t.skipped) && (q in t.skipped && q in u.skipped ==> u.skipped[q] == t.skipped[q])
    ensures MemberOutcome(w, original, g, k, u.files, u.merged, u.skipped)
  {
    hide Taken, TextAfter;
  }

  /** What the loop makes of one member, and that it touches no other. */
  lemma MemberAlone(w: World, original: Files, g: Group, n: nat, t: Work)
    requires n < |g.redundant| && g.canonical in original && MembersDone(w, original, g, n, t)
    requires g.redundant[n] !in g.redundant[..n]
    ensures var p := g.redundant[n];
            var u := MergeMember(w, g.canonical, t, p);
            && u.text == TextAfter(w, original, g, n + 1)
            && (u.mergedAny <==> t.mergedAny || Taken(w, original, g, n))
            && MemberOutcome(w, original, g, n, u.files, u.merged, u.skipped)
            && (forall q :: q != p ==> (q in u.files <==> q in t.files) && (q in t.files && q in u.files ==> u.files[q] == t.files[q]))
            && (forall q :: q != p ==> (q in u.merged <==> q in t.merged))
            && (forall q :: q != p ==> (q in u.skipped <==> q in t.skipped) && (q in t.skipped && q in u.skipped ==> u.skipped[q] == t.skipped[q]))
  {
    var p := g.redundant[n];
    assert Kept(original, t.files, p);
    assert p !in t.merged && p !in t.skipped;
    assert Read(w, t.files, p) == if CanRead(w, original, p) then Some(original[p]) else None;
  }

  lemma GroupOutcome(w: World, original: Files, s: State, g: Group)
    requires Distinct(g) && Fresh(original, g, s.files)
    ensures var t := ReconcileGroup(w, s, g);
            |t.results| == |s.results| + 1 && t.results[..|s.results|] == s.results
            && Outcome(w, original, g, t.files, t.results[|s.results|])
  {
    assert g.canonical in Members(g);
    assert Kept(original, s.files, g.canonical);
    AuthoredIs(g);
    if Reconcilable(g) && CanRead(w, original, g.canonical) {
      MembersOutcome(w, original, g, s, |g.redundant|);
      assert g.redundant[..|g.redundant|] == g.redundant;
      hide Fresh, MembersDone, MergeMembers, Distinct, Reconcilable, Outcome;
      var t := MergeMembers(w, g.canonical, StartWork(s, original[g.canonical]), g.redundant);
      FinishOutcome(w, original, s, g, t);
    }
  }

  lemma AuthoredIs(g: Group)
    ensures Reconcilable(g) <==> !(g.redundant == [] || exists p :: p in g.redundant && p !in g.generated)
  {
  }

  lemma FinishOutcome(w: World, original: Files, s: State, g: Group, t: Work)
    requires Distinct(g) && Reconcilable(g) && CanRead(w, original, g.canonical)
    requires MembersDone(w, original, g, |g.redundant|, t)
    ensures var u := Finish(w, s, g, original[g.canonical], t);
            |u.results| == |s.results| + 1 && u.results[..|s.results|] == s.results
            && Outcome(w, original, g, u.files, u.results[|s.results|])
  {
    AuthoredIs(g);
    hide Reconcilable, Taken, TextAfter;
    var u := Finish(w, s, g, original[g.canonical], t);
    var m := u.results[|s.results|];
    assert g.canonical !in t.skipped;
    forall k | 0 <= k < |g.redundant| ensures MemberOutcome(w, original, g, k, u.files, m.merged, m.skipped) {
      assert MemberOutcome(w, original, g, k, t.files, t.merged, t.skipped);
      assert g.redundant[k] != g.canonical;
    }
  }

  // ----- the whole run

  /** Groups done have their outcome, and the members of the others are as they were. */
  ghost predicate RunDone(w: World, original: Files, groups: seq<Group>, k: nat, s: State)
    requires k <= |groups|
  {
    && |s.results| == k
    && (forall i :: 0 <= i < k ==> Outcome(w, original, groups[i], s.files, s.results[i]))
    && forall i :: k <= i < |groups| ==> Fresh(original, groups[i], s.files)
  }

  /** A group touches none of the files of another. */
  lemma OutcomeStands(w: World, original: Files, g: Group, before: Files, after: Files, m: Result)
    requires forall p :: p in Members(g) ==> Kept(before, after, p)
    ensures Outcome(w, original, g, before, m) ==> Outcome(w, original, g, after, m)
    ensures Fresh(original, g, before) ==> Fresh(original, g, after)
  {
    assert g.canonical in Members(g) && forall k :: 0 <= k < |g.redundant| ==> g.redundant[k] in Members(g);
    hide Members, Taken, TextAfter, MemberOutcome, CanonicalOutcome;
    if CanRead(w, original, g.canonical) {
      forall k | 0 <= k < |g.redundant|
        ensures MemberOutcome(w, original, g, k, before, m.merged, m.skipped) ==>
                  MemberOutcome(w, original, g, k, after, m.merged, m.skipped)
      {
        MemberStands(w, original, g, k, before, after, m);
      }
      CanonicalStands(w, original, g, before, after, m);
    }
  }

  lemma MemberStands(w: World, original: Files, g: Group, k: nat, before: Files, after: Files, m: Result)
    requires k < |g.redundant| && g.canonical in original && Kept(before, after, g.redundant[k])
    ensures MemberOutcome(w, original, g, k, before, m.merged, m.skipped) ==>
              MemberOutcome(w, original, g, k, after, m.merged, m.skipped)
  {
    hide Taken, TextAfter;
  }

  lemma CanonicalStands(w: World, original: Files, g: Group, before: Files, after: Files, m: Result)
    requires g.canonical in original && Kept(before, after, g.canonical)
    ensures CanonicalOutcome(w, original, g, before, m.skipped) ==> CanonicalOutcome(w, original, g, after, m.skipped)
  {
    hide Taken, TextAfter;
  }

  lemma {:induction false} OnlyItsMembers(w: World, canonical: string, s: Work, ps: seq<string>, q: string)
    requires q !in ps
    ensures Kept(s.files, MergeMembers(w, canonical, s, ps).files, q)
  {
    if ps != [] {
      OnlyItsMembers(w, canonical, s, ps[..|ps| - 1], q);
    }
  }

  lemma GroupTouchesItsOwn(w: World, s: State, g: Group, q: string)
    requires q !in Members(g)
    ensures Kept(s.files, ReconcileGroup(w, s, g).files, q)
  {
    if Reconcilable(g) && Read(w, s.files, g.canonical).Some? {
      OnlyItsMembers(w, g.canonical, StartWork(s, Read(w, s.files, g.canonical).value), g.redundant, q);
      hide MergeMembers, Reconcilable;
    }
  }

  lemma {:induction false} RunIsDone(w: World, original: Files, groups: seq<Group>, k: nat)
    requires WellGrouped(groups) && k <= |groups|
    ensures RunDone(w, original, groups, k, Reconciled(w, original, groups, k))
  {
    NothingDone(w, original, groups);
    hide ReconcileGroup, Outcome, Fresh, RunDone, WellGrouped;
    if k > 0 {
      RunIsDone(w, original, groups, k - 1);
      var s := Reconciled(w, original, groups, k - 1);
      GroupDone(w, original, groups, k - 1, s);
    }
  }

  lemma NothingDone(w: World, original: Files, groups: seq<Group>)
    ensures RunDone(w, original, groups, 0, State(original, [], []))
  {
  }

  lemma GroupDone(w: World, original: Files, groups: seq<Group>, k: nat, s: State)
    requires WellGrouped(groups) && k < |groups| && RunDone(w, original, groups, k, s)
    ensures RunDone(w, original, groups, k + 1, ReconcileGroup(w, s, groups[k]))
  {
    var g, t := groups[k], ReconcileGroup(w, s, groups[k]);
    assert Distinct(g);
    GroupOutcome(w, original, s, g);
    hide ReconcileGroup, Outcome, Fresh, Distinct, Members;
    forall i | 0 <= i < |groups| && i != k
      ensures forall m :: Outcome(w, original, groups[i], s.files, m) ==> Outcome(w, original, groups[i], t.files, m)
      ensures Fresh(original, groups[i], s.files) ==> Fresh(original, groups[i], t.files)
    {
      forall p | p in Members(groups[i]) ensures Kept(s.files, t.files, p) {
        assert if i < k then Members(groups[i]) !! Members(groups[k]) else Members(groups[k]) !! Members(groups[i]);
        GroupTouchesItsOwn(w, s, g, p);
      }
      forall m ensures Outcome(w, original, groups[i], s.files, m) ==> Outcome(w, original, groups[i], t.files, m) {
        OutcomeStands(w, original, groups[i], s.files, t.files, m);
      }
      OutcomeStands(w, original, groups[i], s.files, t.files, Result(g, [], map[]));
    }
    assert forall i :: 0 <= i < k ==> t.results[i] == s.results[i];
  }

  /** At the end each group's files and report are as its outcome says, whatever failed anywhere: what
      was taken from a removed member is in the canonical file, or its failed write is reported. */
  lemma EveryGroupOutcome(w: World, original: Files, groups: seq<Group>, i: nat)
    requires WellGrouped(groups) && i < |groups|
    ensures var s := Reconciled(w, original, groups, |groups|);
            |s.results| == |groups| && Outcome(w, original, groups[i], s.files, s.results[i])
  {
    RunIsDone(w, original, groups, |groups|);
  }
}
