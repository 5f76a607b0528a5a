/** TestProjectReachableDirs of dotnetproj/reachable.go: a depth-bounded depth-first walk that answers
    with the whole closure or not at all.  Projects and directories are named by numbers. */
module Reachable {
  import opened Text

  datatype Reference =
    | Property             // built from an MSBuild property: not expanded
    | To(target: nat)      // a resolved path; it may name nothing on disk

  /** What the walk can see of one project.  `dir` is None outside the checkout; `readable` is false
      when no XML could be read; `escapes` when a compile item reaches outside the directory. */
  datatype Project = Project(dir: Option<nat>, readable: bool, escapes: bool, refs: seq<Reference>)

  /** The project files on disk. */
  type Repo = map<nat, Project>

  const MAX_DEPTH: nat := 16

  // ----- the closure

  /** `q` is referred to by `p`, and is there. */
  predicate Refers(repo: Repo, p: nat, q: nat) {
    p in repo && q in repo && To(q) in repo[p].refs
  }

  ghost predicate IsPath(repo: Repo, path: seq<nat>) {
    |path| > 0 && path[0] in repo && forall i :: 0 <= i < |path| - 1 ==> Refers(repo, path[i], path[i + 1])
  }

  ghost predicate Reaches(repo: Repo, start: nat, p: nat) {
    exists path :: IsPath(repo, path) && path[0] == start && path[|path| - 1] == p
  }

  ghost function Closure(repo: Repo, start: nat): set<nat> {
    set p | p in repo && Reaches(repo, start, p)
  }

  ghost function DirsOf(repo: Repo, ps: set<nat>): set<nat> {
    set p | p in ps && p in repo && repo[p].dir.Some? :: repo[p].dir.value
  }

  lemma ClosureHasStart(repo: Repo, start: nat)
    requires start in repo
    ensures start in Closure(repo, start)
  {
    assert IsPath(repo, [start]);
  }

  lemma ClosureStep(repo: Repo, start: nat, p: nat, q: nat)
    requires p in Closure(repo, start) && Refers(repo, p, q)
    ensures q in Closure(repo, start)
  {
    var path :| IsPath(repo, path) && path[0] == start && path[|path| - 1] == p;
    var longer := path + [q];
    forall i | 0 <= i < |longer| - 1 ensures Refers(repo, longer[i], longer[i + 1]) {
      if i < |path| - 1 {
        assert Refers(repo, path[i], path[i + 1]);
      }
    }
    assert IsPath(repo, longer);
  }

  lemma {:induction false} PathStaysIn(repo: Repo, path: seq<nat>, ps: set<nat>)
    requires IsPath(repo, path) && path[0] in ps
    requires forall p, q :: p in ps && Refers(repo, p, q) ==> q in ps
    ensures path[|path| - 1] in ps
  {
    if |path| > 1 {
      var n := |path| - 1;
      assert IsPath(repo, path[..n]) by {
        forall i | 0 <= i < n - 1 ensures Refers(repo, path[..n][i], path[..n][i + 1]) {
          assert Refers(repo, path[i], path[i + 1]);
        }
      }
      PathStaysIn(repo, path[..n], ps);
      assert Refers(repo, path[n - 1], path[n - 1 + 1]);
    }
  }

  /** A set closed under references holds the closure of each of its members. */
  lemma ClosureIsLeast(repo: Repo, start: nat, ps: set<nat>)
    requires start in ps
    requires forall p, q :: p in ps && Refers(repo, p, q) ==> q in ps
    ensures Closure(repo, start) <= ps
  {
    forall p | p in Closure(repo, start) ensures p in ps {
      var path :| IsPath(repo, path) && path[0] == start && path[|path| - 1] == p;
      PathStaysIn(repo, path, ps);
    }
  }

  // ----- the walk as a function

  /** The variables the recursive closure shares. */
  datatype State = State(seen: set<nat>, complete: bool)

  function Walk(repo: Repo, p: nat, depth: nat, st: State): State
    requires p in repo
    decreases MAX_DEPTH + 1 - depth, 1, 0
  {
    if depth > MAX_DEPTH || repo[p].dir.None? then st.(complete := false)
    else if repo[p].dir.value in st.seen then st
    else
      var marked := st.(seen := st.seen + {repo[p].dir.value});
      if !repo[p].readable then marked.(complete := false)
      else WalkRefs(repo, repo[p].refs, depth, marked.(complete := marked.complete && !repo[p].escapes))
  }

  function WalkRefs(repo: Repo, refs: seq<Reference>, depth: nat, st: State): State
    requires depth <= MAX_DEPTH
    decreases MAX_DEPTH + 1 - depth, 0, |refs|
  {
    if refs == [] then st
    else
      var n := |refs| - 1;
      WalkRef(repo, refs[n], depth, WalkRefs(repo, refs[..n], depth, st))
  }

  function WalkRef(repo: Repo, r: Reference, depth: nat, st: State): State
    requires depth <= MAX_DEPTH
    decreases MAX_DEPTH + 1 - depth, 0, 0
  {
    if r.Property? || r.target !in repo then st.(complete := false)
    else Walk(repo, r.target, depth + 1, st)
  }

  /** The answer: the directories, or None for "no claim". */
  function Answer(repo: Repo, start: nat): Option<set<nat>> {
    if start !in repo then None
    else
      var st := Walk(repo, start, 0, State({}, true));
      if st.complete then Some(st.seen) else None
  }

  // ----- what the walk does

  ghost predicate ClosedUnder(repo: Repo, ps: set<nat>) {
    forall p, q :: p in ps && Refers(repo, p, q) ==> q in ps
  }

  /** A reference that can be followed, to a project whose directory is in `seen`. */
  ghost predicate Landed(repo: Repo, r: Reference, seen: set<nat>) {
    r.To? && r.target in repo && repo[r.target].dir.Some? && repo[r.target].dir.value in seen
  }

  /** A project read in full, its directory and those of all it refers to accounted for. */
  ghost predicate Settled(repo: Repo, p: nat, seen: set<nat>) {
    && p in repo && repo[p].dir.Some? && repo[p].dir.value in seen
    && repo[p].readable && !repo[p].escapes
    && forall i :: 0 <= i < |repo[p].refs| ==> Landed(repo, repo[p].refs[i], seen)
  }

  /** `ps` are projects of `all` that account for everything `after` has and `before` had not. */
  ghost predicate Accounted(repo: Repo, all: set<nat>, ps: set<nat>, before: set<nat>, after: set<nat>) {
    && ps <= all && before <= after && after == before + DirsOf(repo, ps)
    && forall p :: p in ps ==> Settled(repo, p, after)
  }

  lemma AccountedChain(repo: Repo, all: set<nat>, ps: set<nat>, qs: set<nat>, a: set<nat>, b: set<nat>, c: set<nat>)
    requires Accounted(repo, all, ps, a, b) && Accounted(repo, all, qs, b, c)
    ensures Accounted(repo, all, ps + qs, a, c)
  {
    assert DirsOf(repo, ps + qs) == DirsOf(repo, ps) + DirsOf(repo, qs);
  }

  /** While the walk stays complete, it accounts for every directory it adds. */
  lemma {:induction false} WalkAccounts(repo: Repo, p: nat, depth: nat, st: State, all: set<nat>) returns (ps: set<nat>)
    requires p in repo && p in all && ClosedUnder(repo, all)
    requires Walk(repo, p, depth, st).complete
    ensures st.complete
    ensures Accounted(repo, all, ps, st.seen, Walk(repo, p, depth, st).seen)
    ensures repo[p].dir.Some? && repo[p].dir.value in Walk(repo, p, depth, st).seen
    ensures repo[p].dir.value !in st.seen ==> p in ps
    decreases MAX_DEPTH + 1 - depth, 1, 0
  {
    ps := {};
    var dir := repo[p].dir.value;
    if dir !in st.seen {
      var marked := State(st.seen + {dir}, st.complete && !repo[p].escapes);
      var qs := WalkRefsAccounts(repo, p, repo[p].refs, depth, marked, all);
      ps := qs + {p};
      assert DirsOf(repo, ps) == DirsOf(repo, qs) + {dir};
    }
  }

  lemma {:induction false} WalkRefsAccounts(repo: Repo, p: nat, refs: seq<Reference>, depth: nat, st: State,
    all: set<nat>) returns (ps: set<nat>)
    requires depth <= MAX_DEPTH && p in all && p in repo && ClosedUnder(repo, all) && refs <= repo[p].refs
    requires WalkRefs(repo, refs, depth, st).complete
    ensures st.complete
    ensures Accounted(repo, all, ps, st.seen, WalkRefs(repo, refs, depth, st).seen)
    ensures forall i :: 0 <= i < |refs| ==> Landed(repo, refs[i], WalkRefs(repo, refs, depth, st).seen)
    decreases MAX_DEPTH + 1 - depth, 0, |refs|
  {
    ps := {};
    if refs != [] {
      var n := |refs| - 1;
      var mid := WalkRefs(repo, refs[..n], depth, st);
      var r := refs[n];
      assert r == repo[p].refs[n] && Refers(repo, p, r.target);
      var qs := WalkAccounts(repo, r.target, depth + 1, mid, all);
      ps := WalkRefsAccounts(repo, p, refs[..n], depth, st, all);
      AccountedChain(repo, all, ps, qs, st.seen, mid.seen, WalkRefs(repo, refs, depth, st).seen);
      ps := ps + qs;
      forall i | 0 <= i < n ensures Landed(repo, refs[i], WalkRefs(repo, refs, depth, st).seen) {
        assert Landed(repo, refs[..n][i], mid.seen);
      }
    }
  }

  ghost predicate OneProjectPerDir(repo: Repo, ps: set<nat>) {
    forall p, q :: p in ps && q in ps && p in repo && q in repo && repo[p].dir == repo[q].dir ==> p == q
  }

  /** Nothing about a project stands in the way of reading the closure. */
  predicate WellFormed(repo: Repo, p: nat) {
    && p in repo && repo[p].dir.Some? && repo[p].readable && !repo[p].escapes
    && forall i :: 0 <= i < |repo[p].refs| ==> repo[p].refs[i].To? && repo[p].refs[i].target in repo
  }

  ghost predicate AllWellFormed(repo: Repo, ps: set<nat>) {
    forall p :: p in ps ==> WellFormed(repo, p)
  }

  lemma ClosureIsClosed(repo: Repo, start: nat)
    ensures ClosedUnder(repo, Closure(repo, start))
  {
    forall p, q | p in Closure(repo, start) && Refers(repo, p, q) ensures q in Closure(repo, start) {
      ClosureStep(repo, start, p, q);
    }
  }

  /** Whatever is claimed is reachable. */
  lemma AnswerIsSound(repo: Repo, start: nat)
    requires Answer(repo, start).Some?
    ensures Answer(repo, start).value <= DirsOf(repo, Closure(repo, start))
  {
    ClosureHasStart(repo, start);
    ClosureIsClosed(repo, start);
    var ps := WalkAccounts(repo, start, 0, State({}, true), Closure(repo, start));
  }

  /** An answer is the whole closure, and every project of the closure could be read. */
  lemma AnswerIsExact(repo: Repo, start: nat)
    requires Answer(repo, start).Some? && OneProjectPerDir(repo, Closure(repo, start))
    ensures Answer(repo, start).value == DirsOf(repo, Closure(repo, start))
    ensures AllWellFormed(repo, Closure(repo, start))
  {
    var all := Closure(repo, start);
    ClosureHasStart(repo, start);
    ClosureIsClosed(repo, start);
    var seen := Answer(repo, start).value;
    var ps := WalkAccounts(repo, start, 0, State({}, true), all);
    forall p, q | p in ps && Refers(repo, p, q) ensures q in ps {
      assert Settled(repo, p, seen);
      var i :| 0 <= i < |repo[p].refs| && repo[p].refs[i] == To(q);
      assert Landed(repo, repo[p].refs[i], seen);
      var q' :| q' in ps && q' in repo && repo[q'].dir.Some? && repo[q'].dir.value == repo[q].dir.value;
    }
    ClosureIsLeast(repo, start, ps);
    forall p | p in all ensures WellFormed(repo, p) {
      assert Settled(repo, p, seen);
      forall i | 0 <= i < |repo[p].refs| ensures repo[p].refs[i].To? && repo[p].refs[i].target in repo {
        assert Landed(repo, repo[p].refs[i], seen);
      }
    }
  }

  // ----- when there is an answer

  lemma {:induction false} SubsetSize(a: set<nat>, b: set<nat>)
    requires a <= b
    ensures |a| <= |b|
  {
    if a != {} {
      var x :| x in a;
      SubsetSize(a - {x}, b - {x});
    }
  }

  /** The walk is never deeper than the directories it has seen, so few directories keep it within
      its bound. */
  lemma {:induction false} WalkCompletes(repo: Repo, p: nat, depth: nat, st: State, all: set<nat>)
    requires p in repo && p in all && ClosedUnder(repo, all) && AllWellFormed(repo, all)
    requires |DirsOf(repo, all)| <= MAX_DEPTH
    requires st.complete && st.seen <= DirsOf(repo, all) && depth <= |st.seen|
    ensures var after := Walk(repo, p, depth, st);
            after.complete && st.seen <= after.seen <= DirsOf(repo, all)
    decreases MAX_DEPTH + 1 - depth, 1, 0
  {
    SubsetSize(st.seen, DirsOf(repo, all));
    assert WellFormed(repo, p);
    var dir := repo[p].dir.value;
    if dir !in st.seen {
      WalkRefsCompletes(repo, p, repo[p].refs, depth, State(st.seen + {dir}, true), all);
    }
  }

  lemma {:induction false} WalkRefsCompletes(repo: Repo, p: nat, refs: seq<Reference>, depth: nat, st: State,
    all: set<nat>)
    requires p in all && ClosedUnder(repo, all) && AllWellFormed(repo, all) && p in repo && refs <= repo[p].refs
    requires |DirsOf(repo, all)| <= MAX_DEPTH
    requires st.complete && st.seen <= DirsOf(repo, all) && depth < |st.seen| && depth <= MAX_DEPTH
    ensures var after := WalkRefs(repo, refs, depth, st);
            after.complete && st.seen <= after.seen <= DirsOf(repo, all)
    decreases MAX_DEPTH + 1 - depth, 0, |refs|
  {
    if refs != [] {
      var n := |refs| - 1;
      WalkRefsCompletes(repo, p, refs[..n], depth, st, all);
      var mid := WalkRefs(repo, refs[..n], depth, st);
      SubsetSize(st.seen, mid.seen);
      assert WellFormed(repo, p) && refs[n] == repo[p].refs[n];
      assert Refers(repo, p, refs[n].target);
      WalkCompletes(repo, refs[n].target, depth + 1, mid, all);
    }
  }

  /** With at most sixteen directories in it, a closure that can be read is answered. */
  lemma FewDirsAreAnswered(repo: Repo, start: nat)
    requires start in repo && AllWellFormed(repo, Closure(repo, start))
    requires |DirsOf(repo, Closure(repo, start))| <= 16
    ensures Answer(repo, start).Some?
  {
    ClosureHasStart(repo, start);
    ClosureIsClosed(repo, start);
    WalkCompletes(repo, start, 0, State({}, true), Closure(repo, start));
  }

  lemma {:induction false} DirsAreFewer(repo: Repo, ps: set<nat>)
    ensures |DirsOf(repo, ps)| <= |ps|
  {
    if ps == {} {
      assert DirsOf(repo, ps) == {};
    } else {
      var p :| p in ps;
      var rest := ps - {p};
      DirsAreFewer(repo, rest);
      var own := if p in repo && repo[p].dir.Some? then {repo[p].dir.value} else {};
      assert DirsOf(repo, ps) == DirsOf(repo, rest) + own;
    }
  }

  /** "Answer exactly or say nothing", for closures of up to sixteen projects: there is an answer if
      and only if every reachable project can be read, and it is then exact. */
  lemma AnswerIffReadable(repo: Repo, start: nat)
    requires start in repo && OneProjectPerDir(repo, Closure(repo, start)) && |Closure(repo, start)| <= 16
    ensures Answer(repo, start) ==
            if AllWellFormed(repo, Closure(repo, start)) then Some(DirsOf(repo, Closure(repo, start))) else None
  {
    DirsAreFewer(repo, Closure(repo, start));
    if AllWellFormed(repo, Closure(repo, start)) {
      FewDirsAreAnswered(repo, start);
    }
    if Answer(repo, start).Some? {
      AnswerIsExact(repo, start);
    }
  }

  // ----- the bound is sharp

  /** `n` projects in a ring, each in its own directory. */
  function Ring(n: nat): Repo {
    map k: nat | 0 <= k < n :: Project(Some(k), true, false, [To(if k + 1 == n then 0 else k + 1)])
  }

  lemma {:induction false} RingWalk(n: nat, k: nat, seen: set<nat>)
    requires n > MAX_DEPTH && k <= MAX_DEPTH
    requires forall d :: d in seen ==> d < k
    ensures !Walk(Ring(n), k, k, State(seen, true)).complete
    decreases MAX_DEPTH - k
  {
    var repo := Ring(n);
    var r := To(if k + 1 == n then 0 else k + 1);
    var marked := State(seen + {k}, true);
    assert repo[k].refs == [r] && [r][..0] == [];
    assert WalkRefs(repo, [r], k, marked) == WalkRef(repo, r, k, marked);
    if k < MAX_DEPTH {
      RingWalk(n, k + 1, seen + {k});
    }
  }

  /** Seventeen well-formed projects in a ring are already not answered. */
  lemma RingIsNotAnswered(n: nat)
    requires n > 16
    ensures Answer(Ring(n), 0).None?
  {
    RingWalk(n, 0, {});
  }

  // ----- `seen` is keyed by directory

  ghost predicate HasDirs(repo: Repo, dirs: map<nat, nat>) {
    repo.Keys == dirs.Keys && forall p :: p in dirs ==> repo[p].dir == Some(dirs[p])
  }

  ghost predicate Exact(repo: Repo, start: nat) {
    Answer(repo, start).Some? ==> Answer(repo, start).value == DirsOf(repo, Closure(repo, start))
  }

  /** With these projects in these directories the walk is exact, whatever refers to whatever. */
  ghost predicate AlwaysExact(dirs: map<nat, nat>) {
    forall repo, start :: HasDirs(repo, dirs) && start in dirs ==> Exact(repo, start)
  }

  ghost predicate NoSharedDir(dirs: map<nat, nat>) {
    forall p, q :: p in dirs && q in dirs && dirs[p] == dirs[q] ==> p == q
  }

  ghost predicate OneDir(dirs: map<nat, nat>) {
    forall p, q :: p in dirs && q in dirs ==> dirs[p] == dirs[q]
  }

  /** `a` refers to `b` and `b` to `c`; nothing else refers to anything. */
  function Hidden(dirs: map<nat, nat>, a: nat, b: nat, c: nat): Repo {
    map p | p in dirs :: Project(Some(dirs[p]), true, false, if p == a then [To(b)] else if p == b then [To(c)] else [])
  }

  /** The second project of a directory is taken for seen, and what it refers to is missed. */
  lemma SharedDirMisleads(dirs: map<nat, nat>, a: nat, b: nat, c: nat)
    requires a in dirs && b in dirs && c in dirs && a != b && dirs[a] == dirs[b] && dirs[c] != dirs[a]
    ensures HasDirs(Hidden(dirs, a, b, c), dirs) && !Exact(Hidden(dirs, a, b, c), a)
  {
    var repo := Hidden(dirs, a, b, c);
    var marked := State({dirs[a]}, true);
    assert [To(b)][..0] == [];
    assert State({}, true).seen + {dirs[a]} == {dirs[a]};
    assert WalkRefs(repo, [To(b)], 0, marked) == WalkRef(repo, To(b), 0, marked) == Walk(repo, b, 1, marked) == marked;
    assert Answer(repo, a) == Some({dirs[a]});
    ClosureHasStart(repo, a);
    assert Refers(repo, a, b) && Refers(repo, b, c);
    ClosureStep(repo, a, a, b);
    ClosureStep(repo, a, b, c);
    assert dirs[c] in DirsOf(repo, Closure(repo, a));
  }

  lemma OneDirIsExact(repo: Repo, dirs: map<nat, nat>, start: nat)
    requires HasDirs(repo, dirs) && OneDir(dirs) && start in dirs
    ensures Exact(repo, start)
  {
    if Answer(repo, start).Some? {
      AnswerIsSound(repo, start);
      StartIsAnswered(repo, start);
      assert dirs[start] in Answer(repo, start).value;
      forall d | d in DirsOf(repo, Closure(repo, start)) ensures d == dirs[start] {
        var p :| p in Closure(repo, start) && p in repo && repo[p].dir == Some(d);
      }
    }
  }

  lemma StartIsAnswered(repo: Repo, start: nat)
    requires Answer(repo, start).Some?
    ensures repo[start].dir.Some? && repo[start].dir.value in Answer(repo, start).value
  {
    ClosureHasStart(repo, start);
    ClosureIsClosed(repo, start);
    var ps := WalkAccounts(repo, start, 0, State({}, true), Closure(repo, start));
  }

  /** The walk can be trusted on every reference graph over a layout if and only if no two projects
      share a directory, or all of them do. */
  lemma TrustedLayouts(dirs: map<nat, nat>)
    ensures AlwaysExact(dirs) <==> NoSharedDir(dirs) || OneDir(dirs)
  {
    if NoSharedDir(dirs) {
      forall repo, start | HasDirs(repo, dirs) && start in dirs ensures Exact(repo, start) {
        if Answer(repo, start).Some? {
          AnswerIsExact(repo, start);
        }
      }
    } else if OneDir(dirs) {
      forall repo, start | HasDirs(repo, dirs) && start in dirs ensures Exact(repo, start) {
        OneDirIsExact(repo, dirs, start);
      }
    } else {
      var a, b :| a in dirs && b in dirs && dirs[a] == dirs[b] && a != b;
      var p, q :| p in dirs && q in dirs && dirs[p] != dirs[q];
      var c := if dirs[p] != dirs[a] then p else q;
      SharedDirMisleads(dirs, a, b, c);
    }
  }

  // ----- the recursive closure and the variables it shares

  class Traversal {
    const repo: Repo
    var seen: set<nat>
    var complete: bool

    constructor (repo: Repo)
      ensures this.repo == repo && Current() == State({}, true)
    {
      this.repo := repo;
      seen, complete := {}, true;
    }

    ghost function Current(): State
      reads this
    {
      State(seen, complete)
    }

    method Visit(p: nat, depth: nat)
      requires p in repo
      modifies this
      ensures Current() == Walk(repo, p, depth, old(Current()))
      decreases MAX_DEPTH + 1 - depth
    {
      if depth > MAX_DEPTH {
        complete := false;
        return;
      }
      var project := repo[p];
      if project.dir.None? {
        complete := false;
        return;
      }
      if project.dir.value in seen {
        return;
      }
      seen := seen + {project.dir.value};
      if !project.readable {
        complete := false;
        return;
      }
      if project.escapes {
        complete := false;
      }
      ghost var marked := Current();
      var i := 0;
      while i < |project.refs|
        invariant 0 <= i <= |project.refs|
        invariant Current() == WalkRefs(repo, project.refs[..i], depth, marked)
      {
        assert project.refs[..i + 1][..i] == project.refs[..i];
        var r := project.refs[i];
        i := i + 1;
        if r.Property? || r.target !in repo {
          complete := false;
          continue;
        }
        Visit(r.target, depth + 1);
      }
      assert project.refs[..i] == project.refs;
    }
  }

  method TestProjectReachableDirs(repo: Repo, start: nat) returns (dirs: Option<set<nat>>)
    ensures dirs == Answer(repo, start)
  {
    if start !in repo {
      return None;
    }
    var t := new Traversal(repo);
    t.Visit(start, 0);
    return if t.complete then Some(t.seen) else None;
  }
}
