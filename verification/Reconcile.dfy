/** ReconcileDuplicateTestArtifacts of duplicate_artifacts.go as a transaction on the file system:
    reads, removes and writes may each fail, and backups must undo whatever was done. */
module Reconcile {
  import opened Text

  type Files = map<string, string>

  datatype Group = Group(canonical: string, redundant: seq<string>, generated: seq<string>)

  /** The world outside: which operations fail, what a failed write leaves behind, and the merge. */
  datatype World = World(
    unreadable: set<string>,
    unremovable: set<string>,
    badWrites: map<string, string>,
    merge: (string, string, string, string) -> Option<string>)

  datatype Reason =
    | NotAuthored
    | CanonicalUnreadable
    | Unreadable
    | MergeRefused
    | NotRemoved
    | CanonicalNotWritten

  datatype Backup = Backup(path: string, original: string)

  datatype Result = Result(group: Group, merged: seq<string>, skipped: map<string, Reason>)

  /** Every redundant member was written by the tool: what deleting any of them takes. */
  predicate Reconcilable(g: Group) {
    g.redundant != [] && forall k :: 0 <= k < |g.redundant| ==> g.redundant[k] in g.generated
  }

  // ----- the file system

  function Read(w: World, files: Files, p: string): Option<string> {
    if p in files && p !in w.unreadable then Some(files[p]) else None
  }

  function Remove(w: World, files: Files, p: string): Option<Files> {
    if p in files && p !in w.unremovable then Some(files - {p}) else None
  }

  /** A failed write may have truncated the file. */
  function Write(w: World, files: Files, p: string, text: string): (Files, bool) {
    if p in w.badWrites then (files[p := w.badWrites[p]], false) else (files[p := text], true)
  }

  // ----- one group

  /** The variables of one group's loop. */
  datatype Work =
    Work(files: Files, backups: seq<Backup>, text: string, mergedAny: bool, merged: seq<string>, skipped: map<string, Reason>)

  function MergeMember(w: World, canonical: string, s: Work, p: string): Work {
    match Read(w, s.files, p)
    case None => s.(skipped := s.skipped[p := Unreadable])
    case Some(body) =>
      match w.merge(s.text, body, canonical, p)
      case None => s.(skipped := s.skipped[p := MergeRefused])
      case Some(text) =>
        var t := s.(text := text, mergedAny := true, backups := s.backups + [Backup(p, body)]);
        match Remove(w, s.files, p)
        case None => t.(skipped := s.skipped[p := NotRemoved])
        case Some(files) => t.(files := files, merged := s.merged + [p])
  }

  function MergeMembers(w: World, canonical: string, s: Work, ps: seq<string>): Work {
    if ps == [] then s
    else
      var n := |ps| - 1;
      MergeMember(w, canonical, MergeMembers(w, canonical, s, ps[..n]), ps[n])
  }

  function SkipAll(ps: seq<string>, why: Reason): (m: map<string, Reason>)
    ensures m.Keys == (set p | p in ps)
  {
    map p | p in ps :: why
  }

  datatype State = State(files: Files, backups: seq<Backup>, results: seq<Result>)

  function Report(s: State, g: Group, merged: seq<string>, skipped: map<string, Reason>): State {
    s.(results := s.results + [Result(g, merged, skipped)])
  }

  function ReconcileGroup(w: World, s: State, g: Group): State {
    if !Reconcilable(g) then Report(s, g, [], SkipAll(g.redundant, NotAuthored))
    else match Read(w, s.files, g.canonical)
      case None => Report(s, g, [], SkipAll(g.redundant, CanonicalUnreadable))
      case Some(original) =>
        Finish(w, s, g, original, MergeMembers(w, g.canonical, StartWork(s, original), g.redundant))
  }

  function StartWork(s: State, original: string): Work { Work(s.files, s.backups, original, false, [], map[]) }

  /** The canonical file is written only when something was merged, and backed up before that. */
  function Finish(w: World, s: State, g: Group, original: string, t: Work): State {
    if !t.mergedAny then Report(s.(files := t.files, backups := t.backups), g, t.merged, t.skipped)
    else
      var (files, ok) := Write(w, t.files, g.canonical, t.text);
      Report(s.(files := files, backups := t.backups + [Backup(g.canonical, original)]), g, t.merged,
        if ok then t.skipped else t.skipped[g.canonical := CanonicalNotWritten])
  }

  function Reconciled(w: World, files: Files, groups: seq<Group>, k: nat): State
    requires k <= |groups|
  {
    if k == 0 then State(files, [], []) else ReconcileGroup(w, Reconciled(w, files, groups, k - 1), groups[k - 1])
  }

  // ----- disjoint groups of distinct paths

  function Members(g: Group): set<string> { {g.canonical} + set p | p in g.redundant }

  predicate Distinct(g: Group) {
    && g.canonical !in g.redundant
    && forall i, j :: 0 <= i < j < |g.redundant| ==> g.redundant[i] != g.redundant[j]
  }

  ghost predicate WellGrouped(groups: seq<Group>) {
    && (forall i :: 0 <= i < |groups| ==> Distinct(groups[i]))
    && (forall i, j :: 0 <= i < j < |groups| ==> Members(groups[i]) !! Members(groups[j]))
  }

  // ----- backups

  /** The backups hold original contents, and whatever differs from the original is backed up. */
  ghost predicate Recoverable(original: Files, files: Files, backups: seq<Backup>) {
    && (forall i :: 0 <= i < |backups| ==> backups[i].path in original && original[backups[i].path] == backups[i].original)
    && files.Keys <= original.Keys
    && (forall p :: p in original && !(p in files && files[p] == original[p]) ==> BackedUp(backups, p))
  }

  ghost predicate BackedUp(backups: seq<Backup>, p: string) {
    exists i :: 0 <= i < |backups| && backups[i].path == p
  }

  function Replay(files: Files, backups: seq<Backup>): Files {
    if backups == [] then files
    else
      var b := backups[|backups| - 1];
      Replay(files, backups[..|backups| - 1])[b.path := b.original]
  }

  lemma {:induction false} ReplayAt(original: Files, files: Files, backups: seq<Backup>, p: string)
    requires forall i :: 0 <= i < |backups| ==> backups[i].path in original && original[backups[i].path] == backups[i].original
    ensures p in Replay(files, backups) <==> p in files || BackedUp(backups, p)
    ensures BackedUp(backups, p) ==> Replay(files, backups)[p] == original[p]
    ensures !BackedUp(backups, p) && p in files ==> Replay(files, backups)[p] == files[p]
  {
    if backups != [] {
      var n := |backups| - 1;
      ReplayAt(original, files, backups[..n], p);
      if BackedUp(backups, p) && backups[n].path != p {
        var i :| 0 <= i < |backups| && backups[i].path == p;
        assert backups[..n][i].path == p;
      }
      if BackedUp(backups[..n], p) {
        var i :| 0 <= i < n && backups[..n][i].path == p;
        assert backups[i].path == p;
      }
    }
  }

  /** Replaying the backups, in whatever order they are kept, gives the original file system back. */
  lemma ReplayRestores(original: Files, files: Files, backups: seq<Backup>)
    requires Recoverable(original, files, backups)
    ensures Replay(files, backups) == original
  {
    var r := Replay(files, backups);
    forall p ensures p in r <==> p in original {
      ReplayAt(original, files, backups, p);
      if BackedUp(backups, p) {
        var i :| 0 <= i < |backups| && backups[i].path == p;
      }
    }
    forall p | p in original ensures r[p] == original[p] {
      ReplayAt(original, files, backups, p);
    }
  }

  // ----- what one member does

  lemma BackedUpMore(backups: seq<Backup>, b: Backup, p: string)
    ensures BackedUp(backups + [b], p) <==> BackedUp(backups, p) || p == b.path
  {
    var more := backups + [b];
    assert more[|backups|] == b;
    if BackedUp(backups, p) {
      var i :| 0 <= i < |backups| && backups[i].path == p;
      assert more[i].path == p;
    }
  }

  /** Everything the loop over a group's members keeps, `ps` being those it has done. */
  ghost predicate WorkInvariant(original: Files, canonical: string, before: Files, ps: seq<string>, s: Work) {
    && Recoverable(original, s.files, s.backups)
    && s.files.Keys <= before.Keys
    && (forall p :: p in before && p !in ps ==> p in s.files && s.files[p] == before[p])
    && (forall p :: p in s.files ==> s.files[p] == before[p])
    && (forall p :: p in before && p !in s.files ==> p in s.merged)
    && (forall p :: p in ps <==> p in s.merged || p in s.skipped)
    && (forall p :: !(p in s.merged && p in s.skipped))
  }

  lemma SkipKeeps(original: Files, canonical: string, before: Files, ps: seq<string>, s: Work, p: string, why: Reason)
    requires WorkInvariant(original, canonical, before, ps, s) && p !in ps
    ensures WorkInvariant(original, canonical, before, ps + [p], s.(skipped := s.skipped[p := why]))
  {
    hide Recoverable;
  }

  lemma BackupKeeps(original: Files, files: Files, backups: seq<Backup>, p: string)
    requires Recoverable(original, files, backups) && p in files && p in original && files[p] == original[p]
    ensures Recoverable(original, files, backups + [Backup(p, files[p])])
  {
    forall q ensures BackedUp(backups, q) ==> BackedUp(backups + [Backup(p, files[p])], q) {
      BackedUpMore(backups, Backup(p, files[p]), q);
    }
  }

  lemma RemoveKeeps(original: Files, files: Files, backups: seq<Backup>, p: string)
    requires Recoverable(original, files, backups) && BackedUp(backups, p)
    ensures Recoverable(original, files - {p}, backups)
  {
    hide BackedUp;
  }

  lemma MemberKeeps(w: World, original: Files, canonical: string, before: Files, ps: seq<string>, s: Work, p: string)
    requires WorkInvariant(original, canonical, before, ps, s) && p !in ps
    requires p in before ==> p in original && before[p] == original[p]
    ensures WorkInvariant(original, canonical, before, ps + [p], MergeMember(w, canonical, s, p))
  {
    var r := Read(w, s.files, p);
    if r.None? {
      SkipKeeps(original, canonical, before, ps, s, p, Unreadable);
    } else if w.merge(s.text, r.value, canonical, p).None? {
      SkipKeeps(original, canonical, before, ps, s, p, MergeRefused);
    } else {
      var text := w.merge(s.text, r.value, canonical, p).value;
      var t := s.(text := text, mergedAny := true, backups := s.backups + [Backup(p, r.value)]);
      BackupKeeps(original, s.files, s.backups, p);
      BackedUpMore(s.backups, Backup(p, r.value), p);
      if Remove(w, s.files, p).None? {
        assert WorkInvariant(original, canonical, before, ps, t) by {
          hide Recoverable;
        }
        SkipKeeps(original, canonical, before, ps, t, p, NotRemoved);
      } else {
        RemoveKeeps(original, s.files, t.backups, p);
        RemovedMember(original, canonical, before, ps, t, p);
      }
    }
  }

  lemma RemovedMember(original: Files, canonical: string, before: Files, ps: seq<string>, t: Work, p: string)
    requires WorkInvariant(original, canonical, before, ps, t) && p !in ps
    requires Recoverable(original, t.files - {p}, t.backups)
    ensures WorkInvariant(original, canonical, before, ps + [p], t.(files := t.files - {p}, merged := t.merged + [p]))
  {
    hide Recoverable;
  }

  lemma {:induction false} MembersKeep(w: World, original: Files, canonical: string, s: Work, ps: seq<string>)
    requires Recoverable(original, s.files, s.backups) && s.merged == [] && s.skipped == map[]
    requires forall i, j :: 0 <= i < j < |ps| ==> ps[i] != ps[j]
    requires forall p :: p in ps && p in s.files ==> p in original && s.files[p] == original[p]
    ensures WorkInvariant(original, canonical, s.files, ps, MergeMembers(w, canonical, s, ps))
  {
    if ps != [] {
      hide Recoverable, MergeMember, WorkInvariant;
      var n := |ps| - 1;
      MembersKeep(w, original, canonical, s, ps[..n]);
      assert ps == ps[..n] + [ps[n]];
      MemberKeeps(w, original, canonical, s.files, ps[..n], MergeMembers(w, canonical, s, ps[..n]), ps[n]);
    }
  }

  // ----- nothing is lost on the way into the canonical file

  /** The members absorbed, in order, merged one by one into the text. */
  function FoldMerges(w: World, canonical: string, text: string, absorbed: seq<Backup>): Option<string> {
    if absorbed == [] then Some(text)
    else
      var n := |absorbed| - 1;
      match FoldMerges(w, canonical, text, absorbed[..n])
      case None => None
      case Some(t) => w.merge(t, absorbed[n].original, canonical, absorbed[n].path)
  }

  /** The text to be written is the original canonical text with exactly the backed-up members merged
      in, and only such members are removed. */
  lemma {:induction false} TextHoldsAbsorbed(w: World, canonical: string, s: Work, ps: seq<string>)
    returns (absorbed: seq<Backup>)
    ensures var t := MergeMembers(w, canonical, s, ps);
            && t.backups == s.backups + absorbed
            && FoldMerges(w, canonical, s.text, absorbed) == Some(t.text)
            && (t.mergedAny <==> s.mergedAny || absorbed != [])
            && (forall p :: p in t.merged && p !in s.merged ==> BackedUp(absorbed, p))
  {
    absorbed := [];
    if ps != [] {
      var n := |ps| - 1;
      absorbed := TextHoldsAbsorbed(w, canonical, s, ps[..n]);
      var t := MergeMembers(w, canonical, s, ps[..n]);
      var r := Read(w, t.files, ps[n]);
      if r.Some? && w.merge(t.text, r.value, canonical, ps[n]).Some? {
        var b := Backup(ps[n], r.value);
        forall p ensures BackedUp(absorbed + [b], p) <==> BackedUp(absorbed, p) || p == ps[n] {
          BackedUpMore(absorbed, b, p);
        }
        assert (absorbed + [b])[..|absorbed|] == absorbed;
        assert s.backups + (absorbed + [b]) == s.backups + absorbed + [b];
        absorbed := absorbed + [b];
      }
    } else {
      assert s.backups + [] == s.backups;
    }
  }

  // ----- one group, and all of them

  /** A group that could do its work: authored, and its canonical file readable. */
  predicate Attempted(w: World, files: Files, g: Group) {
    Reconcilable(g) && Read(w, files, g.canonical).Some?
  }

  /** What a group does to the world: `m` is its result. */
  ghost predicate GroupEffect(original: Files, before: Files, after: Files, g: Group, m: Result) {
    && m.group == g
    && (forall p :: p in before && p !in Members(g) ==> p in after && after[p] == before[p])
    && (forall p :: p in before && p !in after ==> p in m.merged && p in g.redundant && Reconcilable(g))
    && (forall p :: p in g.redundant ==> (p in m.merged <==> p !in m.skipped))
    && (forall p :: p in m.merged ==> p in g.redundant)
    && after.Keys <= before.Keys
  }

  lemma CanonicalBackedUp(w: World, original: Files, files: Files, backups: seq<Backup>, p: string, text: string)
    requires Recoverable(original, files, backups) && p in files && p in original
    ensures Recoverable(original, Write(w, files, p, text).0, backups + [Backup(p, original[p])])
  {
    forall q ensures BackedUp(backups + [Backup(p, original[p])], q) <==> BackedUp(backups, q) || q == p {
      BackedUpMore(backups, Backup(p, original[p]), q);
    }
    hide BackedUp;
  }

  lemma DeclinedGroup(original: Files, files: Files, g: Group, why: Reason)
    ensures GroupEffect(original, files, files, g, Result(g, [], SkipAll(g.redundant, why)))
  {
  }

  lemma WorkEffect(original: Files, g: Group, before: Files, t: Work, skipped: map<string, Reason>, after: Files)
    requires Distinct(g) && Reconcilable(g) && g.canonical in before && WorkInvariant(original, g.canonical, before, g.redundant, t)
    requires after == t.files || (g.canonical in after && after - {g.canonical} == t.files - {g.canonical})
    requires skipped - {g.canonical} == t.skipped - {g.canonical}
    ensures GroupEffect(original, before, after, g, Result(g, t.merged, skipped))
  {
    hide Recoverable, Reconcilable;
    forall p | p != g.canonical ensures (p in after <==> p in t.files) && (p in t.files ==> after[p] == t.files[p]) {
      assert p in after - {g.canonical} <==> p in after;
      assert p in t.files - {g.canonical} <==> p in t.files;
    }
    forall p | p != g.canonical ensures p in skipped <==> p in t.skipped {
      assert p in skipped - {g.canonical} <==> p in skipped;
      assert p in t.skipped - {g.canonical} <==> p in t.skipped;
    }
    assert g.canonical in t.files;
  }

  lemma AttemptedGroup(w: World, original: Files, s: State, g: Group)
    requires Distinct(g) && Recoverable(original, s.files, s.backups) && Attempted(w, s.files, g)
    requires forall p :: p in Members(g) && p in s.files ==> p in original && s.files[p] == original[p]
    ensures var t := ReconcileGroup(w, s, g);
            && Recoverable(original, t.files, t.backups)
            && |t.results| == |s.results| + 1 && t.results[..|s.results|] == s.results
            && GroupEffect(original, s.files, t.files, g, t.results[|s.results|])
  {
    var text := Read(w, s.files, g.canonical).value;
    MembersKeep(w, original, g.canonical, StartWork(s, text), g.redundant);
    assert g.canonical in Members(g) && g.canonical in s.files;
    hide MergeMembers, WorkInvariant, GroupEffect, Reconcilable, Distinct, Finish, Recoverable, Members;
    FinishKeeps(w, original, s, g, MergeMembers(w, g.canonical, StartWork(s, text), g.redundant));
  }

  lemma FinishKeeps(w: World, original: Files, s: State, g: Group, t: Work)
    requires Distinct(g) && Reconcilable(g) && g.canonical in s.files
    requires g.canonical in original && s.files[g.canonical] == original[g.canonical]
    requires WorkInvariant(original, g.canonical, s.files, g.redundant, t)
    ensures var u := Finish(w, s, g, original[g.canonical], t);
            && Recoverable(original, u.files, u.backups)
            && |u.results| == |s.results| + 1 && u.results[..|s.results|] == s.results
            && GroupEffect(original, s.files, u.files, g, u.results[|s.results|])
  {
    WorkParts(original, g, s.files, t);
    hide WorkInvariant, GroupEffect, Reconcilable, Distinct, Recoverable;
    if t.mergedAny {
      CanonicalBackedUp(w, original, t.files, t.backups, g.canonical, t.text);
      var (files, ok) := Write(w, t.files, g.canonical, t.text);
      var skipped := if ok then t.skipped else t.skipped[g.canonical := CanonicalNotWritten];
      OnlyThatKey(t.files, files, g.canonical);
      OnlyThatKeySkipped(t.skipped, skipped, g.canonical);
      WorkEffect(original, g, s.files, t, skipped, files);
    } else {
      WorkEffect(original, g, s.files, t, t.skipped, t.files);
    }
  }

  lemma OnlyThatKey(a: Files, b: Files, p: string)
    requires p in b && b == a[p := b[p]]
    ensures b - {p} == a - {p}
  {
  }

  lemma OnlyThatKeySkipped(a: map<string, Reason>, b: map<string, Reason>, p: string)
    requires b == a || (p in b && b == a[p := b[p]])
    ensures b - {p} == a - {p}
  {
  }

  lemma WorkParts(original: Files, g: Group, before: Files, t: Work)
    requires Distinct(g) && g.canonical in before && WorkInvariant(original, g.canonical, before, g.redundant, t)
    ensures Recoverable(original, t.files, t.backups) && g.canonical in t.files && t.files[g.canonical] == before[g.canonical]
  {
    hide Recoverable;
  }

  lemma GroupKeeps(w: World, original: Files, s: State, g: Group)
    requires Distinct(g) && Recoverable(original, s.files, s.backups)
    requires forall p :: p in Members(g) && p in s.files ==> p in original && s.files[p] == original[p]
    ensures var t := ReconcileGroup(w, s, g);
            && Recoverable(original, t.files, t.backups)
            && |t.results| == |s.results| + 1 && t.results[..|s.results|] == s.results
            && GroupEffect(original, s.files, t.files, g, t.results[|s.results|])
  {
    hide GroupEffect, Recoverable, Distinct, Reconcilable, MergeMembers;
    if Attempted(w, s.files, g) {
      AttemptedGroup(w, original, s, g);
    } else {
      DeclinedGroup(original, s.files, g, if Reconcilable(g) then CanonicalUnreadable else NotAuthored);
    }
  }

  /** Files of no group are as they were. */
  ghost predicate OthersUntouched(original: Files, groups: seq<Group>, k: nat, files: Files)
    requires k <= |groups|
  {
    forall p :: p in original && (forall i :: 0 <= i < k ==> p !in Members(groups[i])) ==> p in files && files[p] == original[p]
  }

  /** A file is gone only because its group merged it. */
  ghost predicate RemovalsReported(original: Files, groups: seq<Group>, k: nat, s: State)
    requires k <= |groups|
  {
    && |s.results| == k
    && forall p :: p in original && p !in s.files ==>
         exists i :: 0 <= i < k && p in groups[i].redundant && Reconcilable(groups[i]) && p in s.results[i].merged
  }

  /** One result per group, each redundant member in exactly one list. */
  ghost predicate MembersReported(groups: seq<Group>, k: nat, results: seq<Result>)
    requires k <= |groups|
  {
    && |results| == k
    && forall i :: 0 <= i < k ==>
         && results[i].group == groups[i]
         && (forall p :: p in groups[i].redundant ==> (p in results[i].merged <==> p !in results[i].skipped))
         && (forall p :: p in results[i].merged ==> p in groups[i].redundant)
  }

  /** What holds of the file system and the backups after the first `k` groups. */
  ghost predicate RunInvariant(original: Files, groups: seq<Group>, k: nat, s: State)
    requires k <= |groups|
  {
    && Recoverable(original, s.files, s.backups)
    && OthersUntouched(original, groups, k, s.files)
    && RemovalsReported(original, groups, k, s)
    && MembersReported(groups, k, s.results)
  }

  lemma OthersStep(original: Files, groups: seq<Group>, k: nat, before: Files, after: Files, m: Result)
    requires k < |groups| && OthersUntouched(original, groups, k, before)
    requires GroupEffect(original, before, after, groups[k], m)
    ensures OthersUntouched(original, groups, k + 1, after)
  {
    hide Members, Reconcilable;
    forall p | p in original && (forall i :: 0 <= i < k + 1 ==> p !in Members(groups[i]))
      ensures p in after && after[p] == original[p]
    {
      assert p !in Members(groups[k]);
    }
  }

  lemma RemovalsStep(original: Files, groups: seq<Group>, k: nat, s: State, t: State)
    requires k < |groups| && RemovalsReported(original, groups, k, s)
    requires |t.results| == k + 1 && t.results[..k] == s.results
    requires GroupEffect(original, s.files, t.files, groups[k], t.results[k])
    ensures RemovalsReported(original, groups, k + 1, t)
  {
    hide Members, Reconcilable;
    assert forall i :: 0 <= i < k ==> t.results[i] == s.results[i];
    forall p | p in original && p !in t.files
      ensures exists i :: 0 <= i < k + 1 && p in groups[i].redundant && Reconcilable(groups[i]) && p in t.results[i].merged
    {
      if p in s.files {
        assert p in groups[k].redundant && p in t.results[k].merged;
      } else {
        var i :| 0 <= i < k && p in groups[i].redundant && Reconcilable(groups[i]) && p in s.results[i].merged;
        assert t.results[i] == s.results[i];
      }
    }
  }

  lemma ReportsStep(original: Files, groups: seq<Group>, k: nat, before: Files, after: Files, results: seq<Result>,
    more: seq<Result>)
    requires k < |groups| && MembersReported(groups, k, results)
    requires |more| == k + 1 && more[..k] == results && GroupEffect(original, before, after, groups[k], more[k])
    ensures MembersReported(groups, k + 1, more)
  {
    hide Members, Reconcilable;
    assert forall i :: 0 <= i < k ==> more[i] == results[i];
  }

  lemma FreshMembers(original: Files, groups: seq<Group>, k: nat, files: Files, p: string)
    requires WellGrouped(groups) && k < |groups| && OthersUntouched(original, groups, k, files)
    requires files.Keys <= original.Keys && p in Members(groups[k]) && p in files
    ensures p in original && files[p] == original[p]
  {
    forall i | 0 <= i < k ensures p !in Members(groups[i]) {
      assert Members(groups[i]) !! Members(groups[k]);
    }
  }

  lemma RunStep(w: World, original: Files, groups: seq<Group>, k: nat, s: State)
    requires WellGrouped(groups) && k < |groups| && RunInvariant(original, groups, k, s)
    ensures RunInvariant(original, groups, k + 1, ReconcileGroup(w, s, groups[k]))
  {
    var g := groups[k];
    assert Distinct(g);
    assert s.files.Keys <= original.Keys;
    assert |s.results| == k;
    hide Recoverable, ReconcileGroup, Reconcilable, Members, Distinct;
    hide WellGrouped, OthersUntouched, RemovalsReported, MembersReported, GroupEffect;
    forall p | p in Members(g) && p in s.files ensures p in original && s.files[p] == original[p] {
      FreshMembers(original, groups, k, s.files, p);
    }
    GroupKeeps(w, original, s, g);
    var t := ReconcileGroup(w, s, g);
    OthersStep(original, groups, k, s.files, t.files, t.results[k]);
    RemovalsStep(original, groups, k, s, t);
    ReportsStep(original, groups, k, s.files, t.files, s.results, t.results);
  }

  lemma {:induction false} RunHolds(w: World, original: Files, groups: seq<Group>, k: nat)
    requires WellGrouped(groups) && k <= |groups|
    ensures RunInvariant(original, groups, k, Reconciled(w, original, groups, k))
  {
    hide RunInvariant, ReconcileGroup, WellGrouped;
    if k > 0 {
      RunHolds(w, original, groups, k - 1);
      RunStep(w, original, groups, k - 1, Reconciled(w, original, groups, k - 1));
      assert Reconciled(w, original, groups, k) == ReconcileGroup(w, Reconciled(w, original, groups, k - 1), groups[k - 1]);
    } else {
      NothingRun(original, groups);
    }
  }

  lemma NothingRun(original: Files, groups: seq<Group>)
    ensures RunInvariant(original, groups, 0, State(original, [], []))
  {
  }

  /** Whatever fails part way, replaying the backups gives the file system back. */
  lemma BackupsRestore(w: World, original: Files, groups: seq<Group>, k: nat)
    requires WellGrouped(groups) && k <= |groups|
    ensures var s := Reconciled(w, original, groups, k);
            Replay(s.files, s.backups) == original
  {
    RunHolds(w, original, groups, k);
    var s := Reconciled(w, original, groups, k);
    ReplayRestores(original, s.files, s.backups);
  }

  /** Only redundant members of groups the tool wrote in full are removed, and nothing outside the
      groups is touched. */
  lemma OnlyAuthoredRemoved(w: World, original: Files, groups: seq<Group>, p: string)
    requires WellGrouped(groups) && p in original
    ensures var files := Reconciled(w, original, groups, |groups|).files;
            && (p !in files ==> exists i :: 0 <= i < |groups| && p in groups[i].redundant && p in groups[i].generated)
            && ((forall i :: 0 <= i < |groups| ==> p !in Members(groups[i])) ==> p in files && files[p] == original[p])
  {
    RunHolds(w, original, groups, |groups|);
    hide Reconciled, Recoverable, Members, MembersReported, WellGrouped;
    var s := Reconciled(w, original, groups, |groups|);
    if p !in s.files {
      var i :| 0 <= i < |groups| && p in groups[i].redundant && Reconcilable(groups[i]) && p in s.results[i].merged;
      var j :| 0 <= j < |groups[i].redundant| && groups[i].redundant[j] == p;
    }
  }

  /** One result per group, and each redundant member is reported exactly once: merged or skipped. */
  lemma EachMemberReportedOnce(w: World, original: Files, groups: seq<Group>, i: nat, p: string)
    requires WellGrouped(groups) && i < |groups| && p in groups[i].redundant
    ensures var results := Reconciled(w, original, groups, |groups|).results;
            && |results| == |groups| && results[i].group == groups[i]
            && (p in results[i].merged <==> p !in results[i].skipped)
  {
    RunHolds(w, original, groups, |groups|);
  }

  // ----- the loops

  method ReconcilableLoop(g: Group) returns (ok: bool)
    ensures ok == Reconcilable(g)
  {
    if |g.redundant| == 0 {
      return false;
    }
    var gen: map<string, bool> := map[];
    var i := 0;
    while i < |g.generated|
      invariant 0 <= i <= |g.generated|
      invariant forall p :: p in gen <==> p in g.generated[..i]
    {
      assert g.generated[..i + 1] == g.generated[..i] + [g.generated[i]];
      gen := gen[g.generated[i] := true];
      i := i + 1;
    }
    assert g.generated[..i] == g.generated;
    var j := 0;
    while j < |g.redundant|
      invariant 0 <= j <= |g.redundant|
      invariant forall k :: 0 <= k < j ==> g.redundant[k] in g.generated
    {
      if g.redundant[j] !in gen {
        return false;
      }
      j := j + 1;
    }
    return true;
  }

  /** The disk the reconciliation changes, and the backups handed to the caller. */
  class Disk {
    var files: Files
    var backups: seq<Backup>
    const world: World

    constructor (world: World, files: Files)
      ensures this.world == world && this.files == files && backups == []
    {
      this.world, this.files, backups := world, files, [];
    }

    method Erase(p: string) returns (ok: bool)
      modifies this`files
      ensures ok == Remove(world, old(files), p).Some?
      ensures files == if ok then Remove(world, old(files), p).value else old(files)
    {
      ok := p in files && p !in world.unremovable;
      if ok {
        files := files - {p};
      }
    }

    method Store(p: string, text: string) returns (ok: bool)
      modifies this`files
      ensures (files, ok) == Write(world, old(files), p, text)
    {
      ok := p !in world.badWrites;
      files := files[p := if ok then text else world.badWrites[p]];
    }

    /** The loop over one group's redundant members. */
    method MergeAll(g: Group, original: string)
      returns (text: string, mergedAny: bool, merged: seq<string>, skipped: map<string, Reason>)
      modifies this
      ensures Work(files, backups, text, mergedAny, merged, skipped) ==
              MergeMembers(world, g.canonical, Work(old(files), old(backups), original, false, [], map[]), g.redundant)
    {
      text, mergedAny, merged, skipped := original, false, [], map[];
      ghost var start := Work(files, backups, original, false, [], map[]);
      var i := 0;
      while i < |g.redundant|
        invariant 0 <= i <= |g.redundant|
        invariant Work(files, backups, text, mergedAny, merged, skipped) == MergeMembers(world, g.canonical, start, g.redundant[..i])
      {
        var p := g.redundant[i];
        assert g.redundant[..i + 1][..i] == g.redundant[..i];
        i := i + 1;
        var body := Read(world, files, p);
        if body.None? {
          skipped := skipped[p := Unreadable];
          continue;
        }
        var next := world.merge(text, body.value, g.canonical, p);
        if next.None? {
          skipped := skipped[p := MergeRefused];
          continue;
        }
        text, mergedAny := next.value, true;
        backups := backups + [Backup(p, body.value)];
        var removed := Erase(p);
        if !removed {
          skipped := skipped[p := NotRemoved];
          continue;
        }
        merged := merged + [p];
      }
      assert g.redundant[..i] == g.redundant;
    }

    method ReconcileOne(g: Group, ghost results: seq<Result>) returns (r: Result)
      modifies this
      ensures State(files, backups, results + [r]) == ReconcileGroup(world, State(old(files), old(backups), results), g)
    {
      var authored := ReconcilableLoop(g);
      if !authored {
        return Result(g, [], SkipAll(g.redundant, NotAuthored));
      }
      var original := Read(world, files, g.canonical);
      if original.None? {
        return Result(g, [], SkipAll(g.redundant, CanonicalUnreadable));
      }
      var text, mergedAny, merged, skipped := MergeAll(g, original.value);
      if mergedAny {
        backups := backups + [Backup(g.canonical, original.value)];
        var ok := Store(g.canonical, text);
        if !ok {
          skipped := skipped[g.canonical := CanonicalNotWritten];
        }
      }
      return Result(g, merged, skipped);
    }

    /** ReconcileDuplicateTestArtifacts. */
    method ReconcileDuplicates(groups: seq<Group>) returns (results: seq<Result>)
      requires backups == []
      modifies this
      ensures State(files, backups, results) == Reconciled(world, old(files), groups, |groups|)
    {
      results := [];
      var i := 0;
      while i < |groups|
        invariant 0 <= i <= |groups|
        invariant State(files, backups, results) == Reconciled(world, old(files), groups, i)
      {
        var r := ReconcileOne(groups[i], results);
        results := results + [r];
        i := i + 1;
      }
    }
  }
}
