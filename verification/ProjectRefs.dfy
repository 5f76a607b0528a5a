/** walkTransitiveProjectRefs of csharp_scoped_nuget.go: a bounded breadth-first walk over project
    references, with cycles and with the same project queued more than once. */
module ProjectRefs {
  import opened Text

  /** The readable project files by repo-relative path, each with the paths its references resolve to
      ("" for one that resolves to nothing), and the normalisation the result is keyed by. */
  datatype Repo = Repo(files: map<string, seq<string>>, norm: string -> string)

  function Refs(repo: Repo, rel: string): seq<string> {
    if rel in repo.files then repo.files[rel] else []
  }

  /** The keys a file spelled `rel` refers to. */
  ghost function RefKeys(repo: Repo, rel: string): set<string> {
    set r | r in Refs(repo, rel) && r != "" :: repo.norm(r)
  }

  // ----- the spellings the walk can meet

  predicate RefersTo(repo: Repo, a: string, b: string) { b in Refs(repo, a) && b != "" }

  ghost predicate IsTrail(repo: Repo, first: string, t: seq<string>) {
    0 < |t| && t[0] == first && forall i :: 0 <= i < |t| - 1 ==> RefersTo(repo, t[i], t[i + 1])
  }

  /** The walk that starts with the path `first` can come upon the path `rel`. */
  ghost predicate Met(repo: Repo, first: string, rel: string) {
    exists t :: IsTrail(repo, first, t) && t[|t| - 1] == rel
  }

  lemma FirstIsMet(repo: Repo, first: string)
    ensures Met(repo, first, first)
  {
    assert IsTrail(repo, first, [first]);
  }

  lemma RefIsMet(repo: Repo, first: string, rel: string, r: string)
    requires Met(repo, first, rel) && r in Refs(repo, rel) && r != ""
    ensures Met(repo, first, r)
  {
    var t :| IsTrail(repo, first, t) && t[|t| - 1] == rel;
    assert IsTrail(repo, first, t + [r]);
  }

  /** The keys referred to under any spelling of `key` the walk can meet. */
  ghost function Successors(repo: Repo, first: string, key: string): set<string> {
    set rel, r |
      rel in repo.files && Met(repo, first, rel) && repo.norm(rel) == key && r in repo.files[rel] && r != "" :: repo.norm(r)
  }

  /** Wherever the walk can meet one project under two spellings, both read as the same references. */
  ghost predicate SpellingsAgree(repo: Repo, first: string) {
    forall a, b :: Met(repo, first, a) && Met(repo, first, b) && repo.norm(a) == repo.norm(b) ==> RefKeys(repo, a) == RefKeys(repo, b)
  }

  /** The projects at reference distance at most `d` from the one at `first`. */
  ghost function Within(repo: Repo, first: string, d: nat): set<string> {
    if d == 0 then {repo.norm(first)}
    else
      var w := Within(repo, first, d - 1);
      w + set k, y | k in w && y in Successors(repo, first, k) :: y
  }

  // ----- distance, said with paths

  ghost predicate IsPath(repo: Repo, first: string, p: seq<string>) {
    forall i :: 0 <= i < |p| - 1 ==> p[i + 1] in Successors(repo, first, p[i])
  }

  ghost predicate PathWithin(repo: Repo, first: string, key: string, d: nat, p: seq<string>) {
    0 < |p| <= d + 1 && p[0] == repo.norm(first) && p[|p| - 1] == key && IsPath(repo, first, p)
  }

  lemma {:induction false} PathIsWithin(repo: Repo, first: string, key: string, d: nat, p: seq<string>)
    requires PathWithin(repo, first, key, d, p)
    ensures key in Within(repo, first, d)
    decreases d
  {
    hide Successors;
    if d > 0 {
      var n := |p| - 1;
      if n == 0 {
        PathIsWithin(repo, first, key, d - 1, p);
      } else {
        var q := p[..n];
        assert PathWithin(repo, first, q[n - 1], d - 1, q);
        PathIsWithin(repo, first, q[n - 1], d - 1, q);
        assert p[n - 1 + 1] in Successors(repo, first, p[n - 1]);
      }
    }
  }

  lemma {:induction false} WithinHasPath(repo: Repo, first: string, key: string, d: nat) returns (p: seq<string>)
    requires key in Within(repo, first, d)
    ensures PathWithin(repo, first, key, d, p)
    decreases d
  {
    hide Successors;
    if d == 0 {
      p := [repo.norm(first)];
    } else if key in Within(repo, first, d - 1) {
      p := WithinHasPath(repo, first, key, d - 1);
    } else {
      var k :| k in Within(repo, first, d - 1) && key in Successors(repo, first, k);
      var q := WithinHasPath(repo, first, k, d - 1);
      p := q + [key];
      forall i | 0 <= i < |p| - 1 ensures p[i + 1] in Successors(repo, first, p[i]) {
        if i < |q| - 1 {
          assert q[i + 1] in Successors(repo, first, q[i]);
        }
      }
    }
  }

  /** The layers are what paths of bounded length reach. */
  lemma WithinIsPaths(repo: Repo, first: string, key: string, d: nat)
    ensures key in Within(repo, first, d) <==> exists p :: PathWithin(repo, first, key, d, p)
  {
    if key in Within(repo, first, d) {
      var p := WithinHasPath(repo, first, key, d);
    }
    forall p | PathWithin(repo, first, key, d, p) ensures key in Within(repo, first, d) {
      PathIsWithin(repo, first, key, d, p);
    }
  }

  // ----- the walk

  datatype Frame = Frame(rel: string, depth: nat)

  /** Depths never fall along the queue, and never exceed the first by more than one. */
  ghost predicate Layered(queue: seq<Frame>) {
    forall i, j :: 0 <= i <= j < |queue| ==> queue[i].depth <= queue[j].depth <= queue[0].depth + 1
  }

  /** Everything queued or found is no nearer than its depth says. */
  ghost predicate SoundWalk(repo: Repo, first: string, maxDepth: nat, queue: seq<Frame>, found: map<string, nat>) {
    && (forall i :: 0 <= i < |queue| ==> queue[i].depth <= maxDepth && Met(repo, first, queue[i].rel))
    && (forall i :: 0 <= i < |queue| ==> repo.norm(queue[i].rel) in Within(repo, first, queue[i].depth))
    && (forall k :: k in found ==> found[k] <= maxDepth && k in Within(repo, first, found[k]))
  }

  /** `key` is found at depth `d` or less, or waits in the queue at such a depth. */
  ghost predicate Covered(repo: Repo, key: string, d: nat, queue: seq<Frame>, found: map<string, nat>) {
    || (key in found && found[key] <= d)
    || (exists i :: 0 <= i < |queue| && repo.norm(queue[i].rel) == key && queue[i].depth <= d)
  }

  /** Nothing a found project refers to has been lost, or put further off than it is. */
  ghost predicate CompleteWalk(repo: Repo, first: string, maxDepth: nat, queue: seq<Frame>, found: map<string, nat>) {
    && Covered(repo, repo.norm(first), 0, queue, found)
    && forall k, y :: k in found && found[k] < maxDepth && y in Successors(repo, first, k) ==>
         Covered(repo, y, found[k] + 1, queue, found)
  }

  /** Every key there is. */
  ghost function Keys(repo: Repo, first: string): set<string> {
    {repo.norm(first)} + set rel, r | rel in repo.files && r in repo.files[rel] :: repo.norm(r)
  }

  /** With the queue empty, each project has been found, at its shortest distance. */
  lemma {:induction false} EmptyQueueIsComplete(repo: Repo, first: string, maxDepth: nat, found: map<string, nat>,
    d: nat)
    requires CompleteWalk(repo, first, maxDepth, [], found) && d <= maxDepth
    ensures forall k :: k in Within(repo, first, d) ==> k in found && found[k] <= d
  {
    if d > 0 {
      EmptyQueueIsComplete(repo, first, maxDepth, found, d - 1);
      forall y | y in Within(repo, first, d) ensures y in found && found[y] <= d {
        if y !in Within(repo, first, d - 1) {
          var k :| k in Within(repo, first, d - 1) && y in Successors(repo, first, k);
          assert Covered(repo, y, found[k] + 1, [], found);
        }
      }
    }
  }

  lemma {:induction false} WithinGrows(repo: Repo, first: string, d: nat, e: nat)
    requires d <= e
    ensures Within(repo, first, d) <= Within(repo, first, e)
  {
    if d < e {
      WithinGrows(repo, first, d, e - 1);
    }
  }

  lemma StepWithin(repo: Repo, first: string, key: string, y: string, d: nat)
    requires key in Within(repo, first, d) && y in Successors(repo, first, key)
    ensures y in Within(repo, first, d + 1)
  {
  }

  /** The frames one project adds to the queue. */
  function NewFrames(refs: seq<string>, depth: nat): seq<Frame> {
    if refs == [] then []
    else
      var n := |refs| - 1;
      NewFrames(refs[..n], depth) + if refs[n] == "" then [] else [Frame(refs[n], depth)]
  }

  lemma {:induction false} NewFramesAre(refs: seq<string>, depth: nat)
    ensures forall i :: 0 <= i < |NewFrames(refs, depth)| ==>
              NewFrames(refs, depth)[i].depth == depth && NewFrames(refs, depth)[i].rel in refs && NewFrames(refs, depth)[i].rel != ""
    ensures forall r :: r in refs && r != "" ==> Frame(r, depth) in NewFrames(refs, depth)
  {
    if refs != [] {
      var n := |refs| - 1;
      assert refs == refs[..n] + [refs[n]];
      NewFramesAre(refs[..n], depth);
    }
  }

  /** Everything the loop keeps. */
  ghost predicate WalkInvariant(repo: Repo, first: string, maxDepth: nat, queue: seq<Frame>, found: map<string, nat>) {
    && Layered(queue)
    && SoundWalk(repo, first, maxDepth, queue, found)
    && (forall k, i :: k in found && 0 <= i < |queue| ==> found[k] <= queue[i].depth)
    && (SpellingsAgree(repo, first) ==> CompleteWalk(repo, first, maxDepth, queue, found))
  }

  lemma CoveredAfterSkip(repo: Repo, y: string, d: nat, queue: seq<Frame>, found: map<string, nat>)
    requires queue != [] && repo.norm(queue[0].rel) in found && found[repo.norm(queue[0].rel)] <= queue[0].depth
    requires Covered(repo, y, d, queue, found)
    ensures Covered(repo, y, d, queue[1..], found)
  {
    if !(y in found && found[y] <= d) {
      var i :| 0 <= i < |queue| && repo.norm(queue[i].rel) == y && queue[i].depth <= d;
      assert i > 0 && queue[1..][i - 1] == queue[i];
    }
  }

  /** A project met again is dropped: it was met first at its shortest distance. */
  lemma SkipKeeps(repo: Repo, first: string, maxDepth: nat, queue: seq<Frame>, found: map<string, nat>)
    requires queue != [] && WalkInvariant(repo, first, maxDepth, queue, found)
    requires repo.norm(queue[0].rel) in found
    ensures WalkInvariant(repo, first, maxDepth, queue[1..], found)
  {
    hide Within, Covered, Successors, SpellingsAgree, Met;
    if SpellingsAgree(repo, first) {
      CoveredAfterSkip(repo, repo.norm(first), 0, queue, found);
      forall k, y | k in found && found[k] < maxDepth && y in Successors(repo, first, k)
        ensures Covered(repo, y, found[k] + 1, queue[1..], found)
      {
        CoveredAfterSkip(repo, y, found[k] + 1, queue, found);
      }
    }
  }

  /** Taking the first frame into `found` and queueing more covers what was covered. */
  lemma CoveredAfterVisit(repo: Repo, y: string, d: nat, queue: seq<Frame>, found: map<string, nat>, more: seq<Frame>)
    requires queue != [] && repo.norm(queue[0].rel) !in found && Covered(repo, y, d, queue, found)
    ensures Covered(repo, y, d, queue[1..] + more, found[repo.norm(queue[0].rel) := queue[0].depth])
  {
    if !(y in found && found[y] <= d) {
      var i :| 0 <= i < |queue| && repo.norm(queue[i].rel) == y && queue[i].depth <= d;
      if i > 0 {
        assert (queue[1..] + more)[i - 1] == queue[i];
      }
    }
  }

  lemma LayeredAfterVisit(queue: seq<Frame>, more: seq<Frame>)
    requires queue != [] && Layered(queue)
    requires forall i :: 0 <= i < |more| ==> more[i].depth == queue[0].depth + 1
    ensures Layered(queue[1..] + more)
    ensures forall i :: 0 <= i < |queue[1..] + more| ==> queue[0].depth <= (queue[1..] + more)[i].depth
  {
    var q := queue[1..] + more;
    forall i, j | 0 <= i <= j < |q| ensures q[i].depth <= q[j].depth <= q[0].depth + 1 {
      assert j < |queue| - 1 ==> q[j] == queue[j + 1];
      assert i < |queue| - 1 ==> q[i] == queue[i + 1];
    }
    forall i | 0 <= i < |q| ensures queue[0].depth <= q[i].depth {
      assert i < |queue| - 1 ==> q[i] == queue[i + 1];
    }
  }

  lemma RefIsSuccessor(repo: Repo, first: string, rel: string, r: string)
    requires Met(repo, first, rel) && r in Refs(repo, rel) && r != ""
    ensures repo.norm(r) in Successors(repo, first, repo.norm(rel))
  {
  }

  lemma SoundAfterVisit(repo: Repo, first: string, maxDepth: nat, queue: seq<Frame>, found: map<string, nat>,
    more: seq<Frame>)
    requires queue != [] && SoundWalk(repo, first, maxDepth, queue, found)
    requires queue[0].depth < maxDepth || more == []
    requires forall i :: 0 <= i < |more| ==>
               more[i].depth == queue[0].depth + 1 && more[i].rel in Refs(repo, queue[0].rel) && more[i].rel != ""
    ensures SoundWalk(repo, first, maxDepth, queue[1..] + more, found[repo.norm(queue[0].rel) := queue[0].depth])
  {
    hide Within, Successors, Met, Refs;
    var f, q := queue[0], queue[1..] + more;
    var key := repo.norm(f.rel);
    forall i | 0 <= i < |q|
      ensures q[i].depth <= maxDepth && Met(repo, first, q[i].rel) && repo.norm(q[i].rel) in Within(repo, first, q[i].depth)
    {
      if i < |queue| - 1 {
        assert q[i] == queue[i + 1];
      } else {
        assert q[i] == more[i - (|queue| - 1)];
        RefIsSuccessor(repo, first, f.rel, q[i].rel);
        RefIsMet(repo, first, f.rel, q[i].rel);
        StepWithin(repo, first, key, repo.norm(q[i].rel), f.depth);
      }
    }
  }

  lemma FrameCovers(repo: Repo, r: string, depth: nat, rest: seq<Frame>, more: seq<Frame>, found: map<string, nat>)
    requires Frame(r, depth) in more
    ensures Covered(repo, repo.norm(r), depth, rest + more, found)
  {
    var i :| 0 <= i < |more| && more[i] == Frame(r, depth);
    assert (rest + more)[|rest| + i] == more[i];
  }

  /** What a project met for the first time refers to is covered by the frames it adds. */
  lemma ReferencesCovered(repo: Repo, first: string, f: Frame, y: string, rest: seq<Frame>, more: seq<Frame>,
    found: map<string, nat>)
    requires SpellingsAgree(repo, first) && Met(repo, first, f.rel) && y in Successors(repo, first, repo.norm(f.rel))
    requires forall r :: r in Refs(repo, f.rel) && r != "" ==> Frame(r, f.depth + 1) in more
    ensures Covered(repo, y, f.depth + 1, rest + more, found)
  {
    SuccessorIsRef(repo, first, f.rel, y);
    hide Covered, Refs, Successors, SpellingsAgree, Met;
    var r :| r in Refs(repo, f.rel) && r != "" && repo.norm(r) == y;
    FrameCovers(repo, r, f.depth + 1, rest, more, found);
  }

  lemma SuccessorIsRef(repo: Repo, first: string, rel: string, y: string)
    requires SpellingsAgree(repo, first) && Met(repo, first, rel) && y in Successors(repo, first, repo.norm(rel))
    ensures y in RefKeys(repo, rel)
  {
    hide Met;
    var other, r :| other in repo.files && Met(repo, first, other) && repo.norm(other) == repo.norm(rel)
      && r in repo.files[other] && r != "" && repo.norm(r) == y;
    assert y in RefKeys(repo, other);
  }

  lemma CompleteAfterVisit(repo: Repo, first: string, maxDepth: nat, queue: seq<Frame>, found: map<string, nat>,
    more: seq<Frame>)
    requires queue != [] && SpellingsAgree(repo, first) && Met(repo, first, queue[0].rel)
    requires CompleteWalk(repo, first, maxDepth, queue, found)
    requires repo.norm(queue[0].rel) !in found
    requires queue[0].depth < maxDepth ==>
               forall r :: r in Refs(repo, queue[0].rel) && r != "" ==> Frame(r, queue[0].depth + 1) in more
    ensures CompleteWalk(repo, first, maxDepth, queue[1..] + more, found[repo.norm(queue[0].rel) := queue[0].depth])
  {
    hide Covered, Successors, SpellingsAgree, Refs, Met;
    var f, q := queue[0], queue[1..] + more;
    var key := repo.norm(f.rel);
    var found' := found[key := f.depth];
    CoveredAfterVisit(repo, repo.norm(first), 0, queue, found, more);
    forall k, y | k in found' && found'[k] < maxDepth && y in Successors(repo, first, k)
      ensures Covered(repo, y, found'[k] + 1, q, found')
    {
      if k == key {
        ReferencesCovered(repo, first, f, y, queue[1..], more, found');
      } else {
        CoveredAfterVisit(repo, y, found[k] + 1, queue, found, more);
      }
    }
  }

  lemma HeadIsMet(repo: Repo, first: string, maxDepth: nat, queue: seq<Frame>, found: map<string, nat>)
    requires queue != [] && SoundWalk(repo, first, maxDepth, queue, found)
    ensures Met(repo, first, queue[0].rel)
  {
  }

  /** A project met for the first time. */
  lemma VisitKeeps(repo: Repo, first: string, maxDepth: nat, queue: seq<Frame>, found: map<string, nat>,
    more: seq<Frame>)
    requires queue != [] && WalkInvariant(repo, first, maxDepth, queue, found)
    requires repo.norm(queue[0].rel) !in found
    requires more == Onward(repo, maxDepth, queue[0])
    ensures WalkInvariant(repo, first, maxDepth, queue[1..] + more, found[repo.norm(queue[0].rel) := queue[0].depth])
  {
    hide Covered, Successors, SpellingsAgree, Met, NewFrames, SoundWalk, CompleteWalk, Layered;
    var f := queue[0];
    NewFramesAre(Refs(repo, f.rel), f.depth + 1);
    LayeredAfterVisit(queue, more);
    SoundAfterVisit(repo, first, maxDepth, queue, found, more);
    if SpellingsAgree(repo, first) {
      HeadIsMet(repo, first, maxDepth, queue, found);
      CompleteAfterVisit(repo, first, maxDepth, queue, found, more);
    }
  }

  method AppendRefs(queue: seq<Frame>, refs: seq<string>, depth: nat) returns (longer: seq<Frame>)
    ensures longer == queue + NewFrames(refs, depth)
  {
    longer := queue;
    var j := 0;
    while j < |refs|
      invariant 0 <= j <= |refs|
      invariant longer == queue + NewFrames(refs[..j], depth)
    {
      assert refs[..j + 1][..j] == refs[..j];
      if refs[j] != "" {
        longer := longer + [Frame(refs[j], depth)];
      }
      j := j + 1;
    }
    assert refs[..j] == refs;
  }

  const DEFAULT_DEPTH: nat := 32

  function DepthLimit(maxDepth: int): nat { if maxDepth <= 0 then DEFAULT_DEPTH else maxDepth }

  ghost predicate KeysKnown(repo: Repo, first: string, queue: seq<Frame>, out: set<string>) {
    && out <= Keys(repo, first)
    && forall i :: 0 <= i < |queue| ==> repo.norm(queue[i].rel) in Keys(repo, first)
  }

  /** The frames a project met for the first time puts in the queue. */
  function Onward(repo: Repo, limit: nat, f: Frame): seq<Frame> {
    if f.depth >= limit then [] else NewFrames(Refs(repo, f.rel), f.depth + 1)
  }

  /** What the loop comes to from a given queue and result. */
  ghost function Walked(repo: Repo, first: string, limit: nat, queue: seq<Frame>, out: set<string>): set<string>
    requires KeysKnown(repo, first, queue, out)
    decreases |Keys(repo, first) - out|, |queue|
  {
    if queue == [] then out
    else
      var key := repo.norm(queue[0].rel);
      KeysStayKnown(repo, first, limit, queue, out);
      if key in out then Walked(repo, first, limit, queue[1..], out)
      else Walked(repo, first, limit, queue[1..] + Onward(repo, limit, queue[0]), out + {key})
  }

  ghost function Answer(repo: Repo, first: string, limit: nat): set<string> {
    WalkStarts(repo, first, limit);
    Walked(repo, first, limit, [Frame(first, 0)], {})
  }

  lemma WalkedSkips(repo: Repo, first: string, limit: nat, queue: seq<Frame>, out: set<string>)
    requires queue != [] && KeysKnown(repo, first, queue, out) && repo.norm(queue[0].rel) in out
    ensures KeysKnown(repo, first, queue[1..], out)
    ensures Walked(repo, first, limit, queue, out) == Walked(repo, first, limit, queue[1..], out)
  {
    KeysStayKnown(repo, first, limit, queue, out);
    hide KeysKnown, Keys, Onward;
  }

  lemma WalkedVisits(repo: Repo, first: string, limit: nat, queue: seq<Frame>, out: set<string>)
    requires queue != [] && KeysKnown(repo, first, queue, out) && repo.norm(queue[0].rel) !in out
    ensures var key := repo.norm(queue[0].rel);
            var longer := queue[1..] + Onward(repo, limit, queue[0]);
            && KeysKnown(repo, first, longer, out + {key})
            && Walked(repo, first, limit, queue, out) == Walked(repo, first, limit, longer, out + {key})
            && |Keys(repo, first) - (out + {key})| < |Keys(repo, first) - out|
  {
    KeysStayKnown(repo, first, limit, queue, out);
    hide KeysKnown, Keys, Onward;
  }

  lemma WalkedEnds(repo: Repo, first: string, limit: nat, out: set<string>)
    requires KeysKnown(repo, first, [], out)
    ensures Walked(repo, first, limit, [], out) == out
  {
  }

  method WalkTransitiveProjectRefs(repo: Repo, repoAbs: string, csprojRel: string, maxDepth: int)
    returns (out: set<string>)
    ensures out ==
            if IsBlank(csprojRel) || IsBlank(repoAbs) then {}
            else Answer(repo, Trim(csprojRel), if maxDepth <= 0 then 32 else maxDepth)
  {
    hide Walked, KeysKnown, Keys, Trim, IsBlank;
    out := {};
    if IsBlank(csprojRel) || IsBlank(repoAbs) {
      return;
    }
    var limit := DepthLimit(maxDepth);
    var first := Trim(csprojRel);
    var queue := [Frame(first, 0)];
    WalkStarts(repo, first, limit);
    while |queue| > 0
      invariant KeysKnown(repo, first, queue, out)
      invariant Walked(repo, first, limit, queue, out) == Answer(repo, first, limit)
      decreases |Keys(repo, first) - out|, |queue|
    {
      queue, out := WalkRound(repo, first, limit, queue, out);
    }
    WalkedEnds(repo, first, limit, out);
  }

  /** One round: the first frame is dropped, or its project is found and its references queued. */
  method WalkRound(repo: Repo, ghost first: string, limit: nat, queue: seq<Frame>, out: set<string>)
    returns (queue': seq<Frame>, out': set<string>)
    requires queue != [] && KeysKnown(repo, first, queue, out)
    ensures KeysKnown(repo, first, queue', out')
    ensures Walked(repo, first, limit, queue', out') == Walked(repo, first, limit, queue, out)
    ensures |Keys(repo, first) - out'| < |Keys(repo, first) - out| || (out' == out && |queue'| < |queue|)
  {
    hide Walked, KeysKnown, Keys, NewFrames, Refs;
    var f := queue[0];
    var key := repo.norm(f.rel);
    if key in out {
      WalkedSkips(repo, first, limit, queue, out);
      return queue[1..], out;
    }
    WalkedVisits(repo, first, limit, queue, out);
    out' := out + {key};
    if f.depth >= limit {
      queue' := queue[1..];
      assert queue[1..] + [] == queue[1..];
      return;
    }
    queue' := AppendRefs(queue[1..], Refs(repo, f.rel), f.depth + 1);
  }

  lemma KeysStayKnown(repo: Repo, first: string, limit: nat, queue: seq<Frame>, out: set<string>)
    requires queue != [] && KeysKnown(repo, first, queue, out)
    ensures var key := repo.norm(queue[0].rel);
            && KeysKnown(repo, first, queue[1..], out)
            && KeysKnown(repo, first, queue[1..] + Onward(repo, limit, queue[0]), out + {key})
            && (key !in out ==> |Keys(repo, first) - (out + {key})| < |Keys(repo, first) - out|)
  {
    KeysClosed(repo, first, limit, queue[0]);
    hide Keys, Onward;
    OneLess(Keys(repo, first), out, repo.norm(queue[0].rel));
  }

  lemma OneLess(keys: set<string>, out: set<string>, key: string)
    requires key in keys
    ensures key !in out ==> |keys - (out + {key})| < |keys - out|
  {
    if key !in out {
      assert keys - out == (keys - (out + {key})) + {key};
    }
  }

  lemma KeysClosed(repo: Repo, first: string, limit: nat, f: Frame)
    ensures forall i :: 0 <= i < |Onward(repo, limit, f)| ==> repo.norm(Onward(repo, limit, f)[i].rel) in Keys(repo, first)
  {
    NewFramesAre(Refs(repo, f.rel), f.depth + 1);
    hide NewFrames;
  }

  lemma WalkStarts(repo: Repo, first: string, limit: nat)
    ensures WalkInvariant(repo, first, limit, [Frame(first, 0)], map[])
    ensures KeysKnown(repo, first, [Frame(first, 0)], {})
  {
    FirstIsMet(repo, first);
    hide Met;
    var queue := [Frame(first, 0)];
    assert repo.norm(queue[0].rel) == repo.norm(first);
  }

  // ----- what the walk finds

  lemma UpdatedKeys(m: map<string, nat>, key: string, d: nat)
    ensures m[key := d].Keys == m.Keys + {key}
  {
  }

  lemma WalkEnds(repo: Repo, first: string, limit: nat, found: map<string, nat>)
    requires WalkInvariant(repo, first, limit, [], found)
    ensures found.Keys <= Within(repo, first, limit)
    ensures SpellingsAgree(repo, first) ==> found.Keys == Within(repo, first, limit)
  {
    hide Met, Successors, SpellingsAgree;
    forall k | k in found ensures k in Within(repo, first, limit) {
      WithinGrows(repo, first, found[k], limit);
    }
    if SpellingsAgree(repo, first) {
      EmptyQueueIsComplete(repo, first, limit, found, limit);
    }
  }

  lemma {:induction false} WalkedIsExact(repo: Repo, first: string, limit: nat, queue: seq<Frame>,
    found: map<string, nat>)
    requires WalkInvariant(repo, first, limit, queue, found) && KeysKnown(repo, first, queue, found.Keys)
    ensures var out := Walked(repo, first, limit, queue, found.Keys);
            && out <= Within(repo, first, limit)
            && (SpellingsAgree(repo, first) ==> out == Within(repo, first, limit))
    decreases |Keys(repo, first) - found.Keys|, |queue|
  {
    hide *;
    if queue == [] {
      WalkedEnds(repo, first, limit, found.Keys);
      WalkEnds(repo, first, limit, found);
    } else if repo.norm(queue[0].rel) in found {
      WalkedSkips(repo, first, limit, queue, found.Keys);
      SkipKeeps(repo, first, limit, queue, found);
      WalkedIsExact(repo, first, limit, queue[1..], found);
    } else {
      VisitRound(repo, first, limit, queue, found);
      WalkedIsExact(repo, first, limit, queue[1..] + Onward(repo, limit, queue[0]),
        found[repo.norm(queue[0].rel) := queue[0].depth]);
    }
  }

  lemma VisitRound(repo: Repo, first: string, limit: nat, queue: seq<Frame>, found: map<string, nat>)
    requires queue != [] && repo.norm(queue[0].rel) !in found
    requires WalkInvariant(repo, first, limit, queue, found) && KeysKnown(repo, first, queue, found.Keys)
    ensures var f := queue[0];
            var found', longer := found[repo.norm(f.rel) := f.depth], queue[1..] + Onward(repo, limit, f);
            && WalkInvariant(repo, first, limit, longer, found') && KeysKnown(repo, first, longer, found'.Keys)
            && Walked(repo, first, limit, queue, found.Keys) == Walked(repo, first, limit, longer, found'.Keys)
            && |Keys(repo, first) - found'.Keys| < |Keys(repo, first) - found.Keys|
  {
    hide *;
    WalkedVisits(repo, first, limit, queue, found.Keys);
    VisitKeeps(repo, first, limit, queue, found, Onward(repo, limit, queue[0]));
    UpdatedKeys(found, repo.norm(queue[0].rel), queue[0].depth);
  }

  /** The projects at reference distance at most the limit: none beyond it, and none within it missed
      when spellings agree, however often a project is queued and whatever cycles there are. */
  lemma AnswerIsTheBall(repo: Repo, first: string, limit: nat)
    ensures Answer(repo, first, limit) <= Within(repo, first, limit)
    ensures SpellingsAgree(repo, first) ==> Answer(repo, first, limit) == Within(repo, first, limit)
  {
    hide WalkInvariant, KeysKnown, Walked, Within, SpellingsAgree;
    WalkStarts(repo, first, limit);
    var found: map<string, nat> := map[];
    assert found.Keys == {};
    WalkedIsExact(repo, first, limit, [Frame(first, 0)], found);
  }

  // ----- when spellings agree

  /** All spellings there are: enough to look at, and finitely many. */
  function Spellings(repo: Repo, first: string): set<string> {
    {first} + set rel, r | rel in repo.files && r in repo.files[rel] :: r
  }

  lemma {:induction false} TrailIsSpelled(repo: Repo, first: string, t: seq<string>)
    requires IsTrail(repo, first, t)
    ensures t[|t| - 1] in Spellings(repo, first)
  {
    if |t| > 1 {
      var n := |t| - 2;
      assert RefersTo(repo, t[n], t[n + 1]);
    }
  }

  /** A check on finitely many spellings: those that share a key read alike. */
  predicate ReadAlike(repo: Repo, first: string) {
    forall a, b :: a in Spellings(repo, first) && b in Spellings(repo, first) && repo.norm(a) == repo.norm(b) ==>
      (set r | r in Refs(repo, a) && r != "" :: repo.norm(r)) == (set r | r in Refs(repo, b) && r != "" :: repo.norm(r))
  }

  lemma ReadAlikeAgree(repo: Repo, first: string)
    requires ReadAlike(repo, first)
    ensures SpellingsAgree(repo, first)
  {
    hide Spellings, Refs;
    forall a | Met(repo, first, a) ensures a in Spellings(repo, first) {
      var t :| IsTrail(repo, first, t) && t[|t| - 1] == a;
      TrailIsSpelled(repo, first, t);
    }
    hide Met;
  }

  /** Such a repository: `A` refers to `b` and `B`, two spellings of one project, which refers back
      to `a`.  The walk from `A` finds both projects and nothing else. */
  lemma CyclicSpellingsAgree(norm: string -> string)
    requires norm("A") == norm("a") == "a" && norm("B") == norm("b") == "b"
    ensures var repo := Repo(map["A" := ["b", "B"], "a" := ["B"], "b" := ["a"], "B" := ["A", "a"]], norm);
            && SpellingsAgree(repo, "A") && Answer(repo, "A", DEFAULT_DEPTH) == {"a", "b"}
  {
    var repo := Repo(map["A" := ["b", "B"], "a" := ["B"], "b" := ["a"], "B" := ["A", "a"]], norm);
    CycleRefs(repo);
    CycleReadsAlike(repo);
    ReadAlikeAgree(repo, "A");
    AnswerIsTheBall(repo, "A", DEFAULT_DEPTH);
    hide Answer, SpellingsAgree, ReadAlike;
    CycleBall(repo);
  }

  ghost predicate IsCycle(repo: Repo) {
    && repo.files.Keys == {"A", "a", "b", "B"}
    && repo.norm("A") == repo.norm("a") == "a" && repo.norm("B") == repo.norm("b") == "b"
    && RefKeys(repo, "A") == RefKeys(repo, "a") == {"b"} && RefKeys(repo, "B") == RefKeys(repo, "b") == {"a"}
    && Spellings(repo, "A") == {"A", "a", "b", "B"}
    && RefersTo(repo, "A", "B")
  }

  lemma CycleRefs(repo: Repo)
    requires repo.files == map["A" := ["b", "B"], "a" := ["B"], "b" := ["a"], "B" := ["A", "a"]]
    requires repo.norm("A") == repo.norm("a") == "a" && repo.norm("B") == repo.norm("b") == "b"
    ensures IsCycle(repo)
  {
    OneRefKey(repo, "A", "b");
    OneRefKey(repo, "a", "b");
    OneRefKey(repo, "b", "a");
    OneRefKey(repo, "B", "a");
    hide RefKeys, Spellings;
    ListedIsSpelling(repo, "A", "A", 0);
    ListedIsSpelling(repo, "A", "A", 1);
    ListedIsSpelling(repo, "A", "B", 0);
    ListedIsSpelling(repo, "A", "B", 1);
    CycleListsNoMore(repo);
  }

  lemma ListedIsSpelling(repo: Repo, first: string, rel: string, k: nat)
    requires rel in repo.files && k < |repo.files[rel]|
    ensures first in Spellings(repo, first) && repo.files[rel][k] in Spellings(repo, first)
  {
    assert repo.files[rel][k] in repo.files[rel];
  }

  lemma CycleListsNoMore(repo: Repo)
    requires repo.files == map["A" := ["b", "B"], "a" := ["B"], "b" := ["a"], "B" := ["A", "a"]]
    ensures Spellings(repo, "A") <= {"A", "a", "b", "B"}
    ensures RefersTo(repo, "A", "B")
  {
    assert repo.files["A"][1] == "B";
    forall rel, r | rel in repo.files && r in repo.files[rel] ensures r in {"A", "a", "b", "B"} {
      assert rel == "A" || rel == "a" || rel == "b" || rel == "B";
    }
  }

  lemma OneRefKey(repo: Repo, rel: string, y: string)
    requires Refs(repo, rel) != []
    requires forall k :: 0 <= k < |Refs(repo, rel)| ==> Refs(repo, rel)[k] != "" && repo.norm(Refs(repo, rel)[k]) == y
    ensures RefKeys(repo, rel) == {y}
  {
    assert Refs(repo, rel)[0] in Refs(repo, rel);
  }

  lemma CycleReadsAlike(repo: Repo)
    requires IsCycle(repo)
    ensures ReadAlike(repo, "A")
  {
    hide Spellings, Refs;
    assert forall a :: a in Spellings(repo, "A") ==> (set r | r in Refs(repo, a) && r != "" :: repo.norm(r)) == RefKeys(repo, a);
  }

  lemma CycleBall(repo: Repo)
    requires IsCycle(repo)
    ensures Within(repo, "A", DEFAULT_DEPTH) == {"a", "b"}
  {
    CycleSteps(repo);
    CycleGrows(repo, DEFAULT_DEPTH);
  }

  lemma CycleSteps(repo: Repo)
    requires IsCycle(repo)
    ensures Successors(repo, "A", "a") == {"b"} && Successors(repo, "A", "b") == {"a"}
  {
    FirstIsMet(repo, "A");
    RefIsMet(repo, "A", "A", "B");
    CycleReads(repo);
    hide Met, Spellings, Refs, Successors, RefKeys, RefersTo;
    OnlySuccessor(repo, "A", "A", "b");
    OnlySuccessor(repo, "A", "B", "a");
  }

  lemma CycleReads(repo: Repo)
    requires IsCycle(repo)
    ensures forall rel :: rel in repo.files && repo.norm(rel) == repo.norm("A") ==> RefKeys(repo, rel) == {"b"}
    ensures forall rel :: rel in repo.files && repo.norm(rel) == repo.norm("B") ==> RefKeys(repo, rel) == {"a"}
  {
    hide Met, Spellings, RefKeys, RefersTo;
    forall rel | rel in repo.files ensures rel == "A" || rel == "a" || rel == "b" || rel == "B" {
      assert rel in repo.files.Keys;
    }
  }

  /** When every spelling of a project refers to one and the same. */
  lemma OnlySuccessor(repo: Repo, first: string, rel: string, y: string)
    requires Met(repo, first, rel) && rel in repo.files
    requires forall other :: other in repo.files && repo.norm(other) == repo.norm(rel) ==> RefKeys(repo, other) == {y}
    ensures Successors(repo, first, repo.norm(rel)) == {y}
  {
    assert y in RefKeys(repo, rel);
    RefKeySucceeds(repo, first, rel, y);
    hide Met;
    forall z | z in Successors(repo, first, repo.norm(rel)) ensures z == y {
      var other, r :| other in repo.files && Met(repo, first, other) && repo.norm(other) == repo.norm(rel)
        && r in repo.files[other] && r != "" && repo.norm(r) == z;
      assert z in RefKeys(repo, other);
    }
  }

  lemma RefKeySucceeds(repo: Repo, first: string, rel: string, y: string)
    requires Met(repo, first, rel) && y in RefKeys(repo, rel)
    ensures y in Successors(repo, first, repo.norm(rel))
  {
    hide Met;
    var r :| r in Refs(repo, rel) && r != "" && repo.norm(r) == y;
  }

  lemma {:induction false} CycleGrows(repo: Repo, d: nat)
    requires repo.norm("A") == "a" && Successors(repo, "A", "a") == {"b"} && Successors(repo, "A", "b") == {"a"}
    ensures Within(repo, "A", d) == if d == 0 then {"a"} else {"a", "b"}
  {
    hide Successors;
    if d > 0 {
      CycleGrows(repo, d - 1);
      assert "b" in Successors(repo, "A", "a");
    }
  }

  // ----- when they do not

  /** `a` refers to `b`, and `b` to `c`. */
  function Chain(norm: string -> string, a: string, b: string, c: string): Repo { Repo(map[a := [b], b := [c]], norm) }

  /** A project met again under another spelling is not read again, and what only that spelling
      refers to is missed. */
  lemma SecondSpellingIsNotRead(norm: string -> string, a: string, b: string, c: string, limit: nat)
    requires a != b && b != "" && c != "" && norm(a) == norm(b) != norm(c) && limit > 0
    ensures var repo := Chain(norm, a, b, c);
            Answer(repo, a, limit) == {norm(a)} && norm(c) in Within(repo, a, limit)
  {
    ChainAnswer(norm, a, b, c, limit);
    ChainBall(norm, a, b, c);
    WithinGrows(Chain(norm, a, b, c), a, 1, limit);
  }

  lemma ChainAnswer(norm: string -> string, a: string, b: string, c: string, limit: nat)
    requires a != b && b != "" && norm(a) == norm(b) && limit > 0
    ensures Answer(Chain(norm, a, b, c), a, limit) == {norm(a)}
  {
    var repo, q := Chain(norm, a, b, c), [Frame(a, 0)];
    assert Refs(repo, a) == [b];
    OneNewFrame(b, 1);
    WalkStarts(repo, a, limit);
    hide KeysKnown, Walked, NewFrames, Refs, WalkInvariant;
    WalkedVisits(repo, a, limit, q, {});
    assert q[1..] + Onward(repo, limit, q[0]) == [Frame(b, 1)];
    assert {} + {norm(a)} == {norm(a)};
    WalkedSkips(repo, a, limit, [Frame(b, 1)], {norm(a)});
    assert [Frame(b, 1)][1..] == [];
    WalkedEnds(repo, a, limit, {norm(a)});
  }

  lemma OneNewFrame(r: string, depth: nat)
    requires r != ""
    ensures NewFrames([r], depth) == [Frame(r, depth)]
  {
    assert [r][..0] == [];
  }

  lemma ChainBall(norm: string -> string, a: string, b: string, c: string)
    requires a != b && b != "" && c != "" && norm(a) == norm(b)
    ensures norm(c) in Within(Chain(norm, a, b, c), a, 1)
  {
    var repo := Chain(norm, a, b, c);
    assert repo.files[a][0] == b && repo.files[b][0] == c;
    FirstIsMet(repo, a);
    RefIsMet(repo, a, a, b);
    hide Met;
    assert norm(c) in RefKeys(repo, b);
    RefKeySucceeds(repo, a, b, norm(c));
    assert norm(a) in Within(repo, a, 0);
  }

  /** All paths in these files are among `paths`. */
  predicate Over(files: map<string, seq<string>>, paths: set<string>) {
    && files.Keys <= paths
    && forall rel, k :: rel in files && 0 <= k < |files[rel]| && files[rel][k] != "" ==> files[rel][k] in paths
  }

  ghost predicate FindsBall(repo: Repo, first: string, limit: nat) {
    Answer(repo, first, limit) == Within(repo, first, limit)
  }

  /** Over these paths no project within the limit is missed, whatever refers to whatever. */
  ghost predicate NeverMisses(norm: string -> string, paths: set<string>) {
    forall files, first, limit :: first in paths && Over(files, paths) ==> FindsBall(Repo(files, norm), first, limit)
  }

  /** No two of the paths share a key. */
  predicate KeysApart(norm: string -> string, paths: set<string>) {
    forall a, b :: a in paths && b in paths && norm(a) == norm(b) ==> a == b
  }

  /** All of them do. */
  predicate OneKey(norm: string -> string, paths: set<string>) {
    forall a, b :: a in paths && b in paths ==> norm(a) == norm(b)
  }

  /** The walk can be trusted on every reference graph over some paths if and only if no two of them
      share a key, or all do. */
  lemma NeverMissesIff(norm: string -> string, paths: set<string>)
    requires "" !in paths
    ensures NeverMisses(norm, paths) <==> KeysApart(norm, paths) || OneKey(norm, paths)
  {
    hide FindsBall, Over, KeysApart, OneKey;
    if KeysApart(norm, paths) || OneKey(norm, paths) {
      forall files, first, limit | first in paths && Over(files, paths) ensures FindsBall(Repo(files, norm), first, limit) {
        var repo := Repo(files, norm);
        if KeysApart(norm, paths) {
          ApartFindsBall(repo, first, limit, paths);
        } else {
          OneKeyFindsBall(repo, first, limit, paths);
        }
      }
    } else {
      var a, b, c := MergedPaths(norm, paths);
      ChainIsOver(norm, a, b, c, paths);
      MergingMisses(norm, a, b, c);
      assert !FindsBall(Repo(Chain(norm, a, b, c).files, norm), a, 1);
    }
  }

  lemma MergedPaths(norm: string -> string, paths: set<string>) returns (a: string, b: string, c: string)
    requires !KeysApart(norm, paths) && !OneKey(norm, paths)
    ensures a in paths && b in paths && c in paths && a != b && norm(a) == norm(b) != norm(c)
  {
    a, b :| a in paths && b in paths && norm(a) == norm(b) && a != b;
    var x, y :| x in paths && y in paths && norm(x) != norm(y);
    c := if norm(x) != norm(a) then x else y;
  }

  lemma ChainIsOver(norm: string -> string, a: string, b: string, c: string, paths: set<string>)
    requires a in paths && b in paths && c in paths
    ensures Over(Chain(norm, a, b, c).files, paths)
  {
  }

  lemma MergingMisses(norm: string -> string, a: string, b: string, c: string)
    requires a != b && b != "" && c != "" && norm(a) == norm(b) != norm(c)
    ensures !FindsBall(Chain(norm, a, b, c), a, 1)
  {
    hide Answer, Within;
    SecondSpellingIsNotRead(norm, a, b, c, 1);
  }

  lemma MetIsOver(repo: Repo, first: string, rel: string, paths: set<string>)
    requires first in paths && Over(repo.files, paths) && Met(repo, first, rel)
    ensures rel in paths
  {
    var t :| IsTrail(repo, first, t) && t[|t| - 1] == rel;
    if |t| > 1 {
      var n := |t| - 2;
      assert RefersTo(repo, t[n], t[n + 1]);
      var k :| 0 <= k < |Refs(repo, t[n])| && Refs(repo, t[n])[k] == t[n + 1];
    }
  }

  lemma ApartFindsBall(repo: Repo, first: string, limit: nat, paths: set<string>)
    requires KeysApart(repo.norm, paths) && first in paths && Over(repo.files, paths)
    ensures FindsBall(repo, first, limit)
  {
    hide Met, RefKeys, Answer, Within, Over;
    forall a | Met(repo, first, a) ensures a in paths {
      MetIsOver(repo, first, a, paths);
    }
    AnswerIsTheBall(repo, first, limit);
  }

  lemma {:induction false} WalkedGrows(repo: Repo, first: string, limit: nat, queue: seq<Frame>, out: set<string>)
    requires KeysKnown(repo, first, queue, out)
    ensures out <= Walked(repo, first, limit, queue, out)
    decreases |Keys(repo, first) - out|, |queue|
  {
    hide Walked, KeysKnown, Keys, Onward;
    if queue == [] {
      WalkedEnds(repo, first, limit, out);
    } else if repo.norm(queue[0].rel) in out {
      WalkedSkips(repo, first, limit, queue, out);
      WalkedGrows(repo, first, limit, queue[1..], out);
    } else {
      WalkedVisits(repo, first, limit, queue, out);
      WalkedGrows(repo, first, limit, queue[1..] + Onward(repo, limit, queue[0]), out + {repo.norm(queue[0].rel)});
    }
  }

  lemma FirstIsFound(repo: Repo, first: string, limit: nat)
    ensures repo.norm(first) in Answer(repo, first, limit)
  {
    var q := [Frame(first, 0)];
    WalkStarts(repo, first, limit);
    hide Walked, KeysKnown, Keys, Onward, WalkInvariant;
    WalkedVisits(repo, first, limit, q, {});
    WalkedGrows(repo, first, limit, q[1..] + Onward(repo, limit, q[0]), {} + {repo.norm(q[0].rel)});
  }

  lemma OneKeySuccessors(repo: Repo, first: string, key: string, paths: set<string>)
    requires OneKey(repo.norm, paths) && first in paths && Over(repo.files, paths)
    ensures Successors(repo, first, key) <= {repo.norm(first)}
  {
    hide Met;
    forall rel, r | rel in repo.files && r in repo.files[rel] && r != "" ensures repo.norm(r) == repo.norm(first) {
      var k :| 0 <= k < |repo.files[rel]| && repo.files[rel][k] == r;
    }
  }

  lemma {:induction false} OneKeyBall(repo: Repo, first: string, d: nat, paths: set<string>)
    requires OneKey(repo.norm, paths) && first in paths && Over(repo.files, paths)
    ensures Within(repo, first, d) == {repo.norm(first)}
  {
    hide Successors, Over, OneKey;
    if d > 0 {
      OneKeyBall(repo, first, d - 1, paths);
      OneKeySuccessors(repo, first, repo.norm(first), paths);
    }
  }

  lemma OneKeyFindsBall(repo: Repo, first: string, limit: nat, paths: set<string>)
    requires OneKey(repo.norm, paths) && first in paths && Over(repo.files, paths)
    ensures FindsBall(repo, first, limit)
  {
    hide OneKey, Over, Answer, Within;
    FirstIsFound(repo, first, limit);
    OneKeyBall(repo, first, limit, paths);
    AnswerIsTheBall(repo, first, limit);
  }
}
