/** Facts of props.go: which shared MSBuild files apply to a project, and what they come to when laid
    over one another in MSBuild's order.  What a regular expression reads out of one file is a
    parameter; the walks, the order and the overwriting are here. */
module Props {
  /** A cleaned absolute path, segment by segment. */
  type Path = seq<string>

  datatype Entry = Folder | Unreadable | File(xml: string)

  type Disk = map<Path, Entry>

  const MAX_WALK := 24

  predicate IsFile(disk: Disk, p: Path) { p in disk && !disk[p].Folder? }

  /** The file can be read and chains to the one above it; `above` is the GetPathOfFileAbove pattern. */
  predicate Imports(disk: Disk, above: string -> bool, p: Path) { p in disk && disk[p].File? && above(disk[p].xml) }

  /** The file called `name` in the ancestor of `dir` that is `n` segments deep. */
  function At(dir: Path, name: string, n: nat): Path
    requires n <= |dir|
  {
    dir[..n] + [name]
  }

  /** The ancestors the walks look at: inside the repository and near enough. */
  predicate InWalk(root: Path, dir: Path, n: nat) { root <= dir && |root| <= n <= |dir| && |dir| - n < 24 }

  // ----- the import chain

  /** What MSBuild imports: a file no nearer file shadows. */
  ghost predicate Applies(disk: Disk, above: string -> bool, root: Path, dir: Path, name: string, n: nat) {
    && InWalk(root, dir, n) && IsFile(disk, At(dir, name, n))
    && forall m :: n < m <= |dir| && IsFile(disk, At(dir, name, m)) ==> Imports(disk, above, At(dir, name, m))
  }

  ghost predicate Member(disk: Disk, above: string -> bool, root: Path, dir: Path, name: string, p: Path) {
    && 1 <= |p| <= |dir| + 1 && p == At(dir, name, |p| - 1)
    && Applies(disk, above, root, dir, name, |p| - 1)
  }

  ghost predicate AllMembers(disk: Disk, above: string -> bool, root: Path, dir: Path, name: string, chain: seq<Path>) {
    forall k :: 0 <= k < |chain| ==> Member(disk, above, root, dir, name, chain[k])
  }

  /** Every file that applies and is at least `from` segments deep is listed. */
  ghost predicate ListsFrom(disk: Disk, above: string -> bool, root: Path, dir: Path, name: string, chain: seq<Path>,
    from: int) {
    forall n: nat :: from <= n <= |dir| && Applies(disk, above, root, dir, name, n) ==> At(dir, name, n) in chain
  }

  predicate Deepening(chain: seq<Path>) { forall j, k :: 0 <= j < k < |chain| ==> |chain[j]| < |chain[k]| }

  /** The files that apply, all of them, each once, farthest first. */
  ghost predicate IsChain(disk: Disk, above: string -> bool, root: Path, dir: Path, name: string, chain: seq<Path>) {
    && AllMembers(disk, above, root, dir, name, chain) && Deepening(chain)
    && ListsFrom(disk, above, root, dir, name, chain, 0)
  }

  function Reversed(xs: seq<Path>): (r: seq<Path>)
    ensures |r| == |xs| && forall k :: 0 <= k < |xs| ==> r[k] == xs[|xs| - 1 - k]
  {
    seq(|xs|, k requires 0 <= k < |xs| => xs[|xs| - 1 - k])
  }

  method AncestorImportChain(disk: Disk, above: string -> bool, root: Path, dir: Path, name: string)
    returns (chain: seq<Path>)
    ensures IsChain(disk, above, root, dir, name, chain)
  {
    var near := CollectChain(disk, above, root, dir, name);
    chain := ReverseChain(near);
    ReversedIsChain(disk, above, root, dir, name, near);
  }

  /** The swap loop that turns the chain round in place. */
  method ReverseChain(near: seq<Path>) returns (chain: seq<Path>)
    ensures chain == Reversed(near)
  {
    chain := near;
    var i, j := 0, |chain| - 1;
    while i < j
      invariant 0 <= i <= |chain| == |near| && j == |chain| - 1 - i
      invariant i <= j + 2
      invariant forall k :: 0 <= k < i ==> chain[k] == near[|near| - 1 - k] && chain[|near| - 1 - k] == near[k]
      invariant forall k :: i <= k <= j ==> chain[k] == near[k]
    {
      chain := chain[i := chain[j]][j := chain[i]];
      i, j := i + 1, j - 1;
    }
    assert chain == Reversed(near);
  }

  lemma ReversedIsChain(disk: Disk, above: string -> bool, root: Path, dir: Path, name: string, near: seq<Path>)
    requires AllMembers(disk, above, root, dir, name, near) && Deepening(Reversed(near))
    requires ListsFrom(disk, above, root, dir, name, near, 0)
    ensures IsChain(disk, above, root, dir, name, Reversed(near))
  {
    hide Member, Applies;
    var far := Reversed(near);
    forall n: nat | n <= |dir| && Applies(disk, above, root, dir, name, n) ensures At(dir, name, n) in far {
      var k :| 0 <= k < |near| && near[k] == At(dir, name, n);
      assert far[|near| - 1 - k] == near[k];
    }
  }

  /** All files at depth `d + 1` or more import the one above. */
  ghost predicate Open(disk: Disk, above: string -> bool, dir: Path, name: string, d: int) {
    forall m :: d < m <= |dir| && 0 <= m && IsFile(disk, At(dir, name, m)) ==> Imports(disk, above, At(dir, name, m))
  }

  predicate Shallowing(chain: seq<Path>, d: int) {
    && (forall k :: 0 <= k < |chain| ==> d + 1 < |chain[k]|)
    && forall j, k :: 0 <= j < k < |chain| ==> |chain[j]| > |chain[k]|
  }

  method CollectChain(disk: Disk, above: string -> bool, root: Path, dir: Path, name: string) returns (near: seq<Path>)
    ensures AllMembers(disk, above, root, dir, name, near) && Deepening(Reversed(near))
    ensures ListsFrom(disk, above, root, dir, name, near, 0)
  {
    hide IsFile, Imports, Applies, At;
    near := [];
    var d := dir;
    var i := 0;
    AllOpen(disk, above, root, dir, name);
    while i < MAX_WALK
      invariant 0 <= i <= MAX_WALK && i <= |dir| && d == dir[..|dir| - i]
      invariant i > 0 ==> root <= d
      invariant AllMembers(disk, above, root, dir, name, near)
      invariant Shallowing(near, |d|)
      invariant Open(disk, above, dir, name, |d|)
      invariant ListsFrom(disk, above, root, dir, name, near, |d| + 1)
      invariant i == MAX_WALK ==> ListsFrom(disk, above, root, dir, name, near, 0)
    {
      if !(root <= d) {
        Outside(disk, above, root, dir, name, near);
        break;
      }
      var stop;
      near, stop := ChainRound(disk, above, root, dir, name, d, near);
      if stop {
        break;
      }
      i, d := i + 1, d[..|d| - 1];
      if i == MAX_WALK {
        TooFar(disk, above, root, dir, name, near);
      }
    }
  }

  method ChainRound(disk: Disk, above: string -> bool, root: Path, dir: Path, name: string, d: Path, near: seq<Path>)
    returns (grown: seq<Path>, stop: bool)
    requires root <= d <= dir && |dir| - |d| < MAX_WALK
    requires AllMembers(disk, above, root, dir, name, near) && Shallowing(near, |d|)
    requires Open(disk, above, dir, name, |d|) && ListsFrom(disk, above, root, dir, name, near, |d| + 1)
    ensures AllMembers(disk, above, root, dir, name, grown) && Shallowing(grown, |d| - 1)
    ensures ListsFrom(disk, above, root, dir, name, grown, if stop then 0 else |d|)
    ensures !stop ==> d != [] && root <= d[..|d| - 1] && Open(disk, above, dir, name, |d| - 1)
  {
    hide IsFile, Imports, AllMembers, ListsFrom, Open;
    grown := near;
    var p := d + [name];
    assert p == At(dir, name, |d|);
    stop := false;
    if IsFile(disk, p) {
      grown := grown + [p];
      FileListed(disk, above, root, dir, name, d, near);
      if !Imports(disk, above, p) {
        Shadowed(disk, above, root, dir, name, d, grown);
        stop := true;
        return;
      }
    } else {
      NoFileThere(disk, above, root, dir, name, d, near);
    }
    OpenFurther(disk, above, dir, name, d);
    if d == root || d == [] {
      AtTheTop(disk, above, root, dir, name, d, grown);
      stop := true;
    }
  }

  lemma AllOpen(disk: Disk, above: string -> bool, root: Path, dir: Path, name: string)
    ensures AllMembers(disk, above, root, dir, name, [])
    ensures Open(disk, above, dir, name, |dir|)
    ensures ListsFrom(disk, above, root, dir, name, [], |dir| + 1)
  {
  }

  lemma Outside(disk: Disk, above: string -> bool, root: Path, dir: Path, name: string, near: seq<Path>)
    requires !(root <= dir)
    ensures ListsFrom(disk, above, root, dir, name, near, 0)
  {
    hide IsFile, Imports, At;
  }

  lemma TooFar(disk: Disk, above: string -> bool, root: Path, dir: Path, name: string, near: seq<Path>)
    requires |dir| >= MAX_WALK && ListsFrom(disk, above, root, dir, name, near, |dir| - MAX_WALK + 1)
    ensures ListsFrom(disk, above, root, dir, name, near, 0)
  {
    hide IsFile, Imports, At;
  }

  lemma FileListed(disk: Disk, above: string -> bool, root: Path, dir: Path, name: string, d: Path, near: seq<Path>)
    requires root <= d <= dir && |dir| - |d| < MAX_WALK && IsFile(disk, At(dir, name, |d|))
    requires AllMembers(disk, above, root, dir, name, near)
    requires Open(disk, above, dir, name, |d|) && ListsFrom(disk, above, root, dir, name, near, |d| + 1)
    ensures AllMembers(disk, above, root, dir, name, near + [At(dir, name, |d|)])
    ensures ListsFrom(disk, above, root, dir, name, near + [At(dir, name, |d|)], |d|)
  {
    hide IsFile, Imports;
    var p := At(dir, name, |d|);
    assert |p| == |d| + 1;
    assert Applies(disk, above, root, dir, name, |d|);
    hide Applies;
  }

  lemma Shadowed(disk: Disk, above: string -> bool, root: Path, dir: Path, name: string, d: Path, grown: seq<Path>)
    requires d <= dir && IsFile(disk, At(dir, name, |d|)) && !Imports(disk, above, At(dir, name, |d|))
    requires ListsFrom(disk, above, root, dir, name, grown, |d|)
    ensures ListsFrom(disk, above, root, dir, name, grown, 0)
  {
    hide IsFile, Imports;
  }

  lemma NoFileThere(disk: Disk, above: string -> bool, root: Path, dir: Path, name: string, d: Path, near: seq<Path>)
    requires d <= dir && !IsFile(disk, At(dir, name, |d|))
    requires ListsFrom(disk, above, root, dir, name, near, |d| + 1)
    ensures ListsFrom(disk, above, root, dir, name, near, |d|)
  {
    hide IsFile, Imports;
  }

  lemma OpenFurther(disk: Disk, above: string -> bool, dir: Path, name: string, d: Path)
    requires d <= dir && Open(disk, above, dir, name, |d|)
    requires IsFile(disk, At(dir, name, |d|)) ==> Imports(disk, above, At(dir, name, |d|))
    ensures Open(disk, above, dir, name, |d| - 1)
  {
    hide IsFile, Imports;
  }

  lemma AtTheTop(disk: Disk, above: string -> bool, root: Path, dir: Path, name: string, d: Path, grown: seq<Path>)
    requires root <= d <= dir && (d == root || d == [])
    requires ListsFrom(disk, above, root, dir, name, grown, |d|)
    ensures ListsFrom(disk, above, root, dir, name, grown, 0)
  {
    hide IsFile, Imports, At;
  }

  /** What the caller may rely on: the chain stays in the repository, every file but the farthest
      imports its parent, and it ends at the nearest file of that name. */
  lemma ChainReadsAsPromised(disk: Disk, above: string -> bool, root: Path, dir: Path, name: string, chain: seq<Path>)
    requires IsChain(disk, above, root, dir, name, chain)
    ensures forall k :: 0 <= k < |chain| ==> root <= chain[k] && IsFile(disk, chain[k])
    ensures forall k :: 0 < k < |chain| ==> Imports(disk, above, chain[k])
    ensures chain != [] ==> forall n :: |chain[|chain| - 1]| <= n <= |dir| ==> !IsFile(disk, At(dir, name, n))
    ensures chain == [] ==> forall n :: 0 <= n <= |dir| && InWalk(root, dir, n) ==> !IsFile(disk, At(dir, name, n))
  {
    hide Imports, IsFile;
    forall k | 0 <= k < |chain| ensures root <= chain[k] {
      assert Member(disk, above, root, dir, name, chain[k]);
    }
    forall k | 0 < k < |chain| ensures Imports(disk, above, chain[k]) {
      assert Member(disk, above, root, dir, name, chain[0]);
      assert Member(disk, above, root, dir, name, chain[k]);
    }
    NearestIsLast(disk, above, root, dir, name, chain);
  }

  lemma NearestIsLast(disk: Disk, above: string -> bool, root: Path, dir: Path, name: string, chain: seq<Path>)
    requires IsChain(disk, above, root, dir, name, chain)
    ensures chain != [] ==> forall n :: |chain[|chain| - 1]| <= n <= |dir| ==> !IsFile(disk, At(dir, name, n))
    ensures chain == [] ==> forall n :: 0 <= n <= |dir| && InWalk(root, dir, n) ==> !IsFile(disk, At(dir, name, n))
  {
    hide Imports, IsFile, Member, Applies, At;
    if chain != [] {
      MemberInWalk(disk, above, root, dir, name, chain[|chain| - 1]);
    }
    forall n | 0 <= n <= |dir| && InWalk(root, dir, n)
      ensures IsFile(disk, At(dir, name, n)) ==> chain != [] && n < |chain[|chain| - 1]|
    {
      ChainReaches(disk, above, root, dir, name, chain, n);
    }
  }

  lemma ChainReaches(disk: Disk, above: string -> bool, root: Path, dir: Path, name: string, chain: seq<Path>, n: nat)
    requires IsChain(disk, above, root, dir, name, chain) && InWalk(root, dir, n)
    ensures IsFile(disk, At(dir, name, n)) ==> chain != [] && n < |chain[|chain| - 1]|
  {
    hide Imports, IsFile, Member;
    if IsFile(disk, At(dir, name, n)) {
      var top := Nearest(disk, dir, name, n, |dir|);
      assert Applies(disk, above, root, dir, name, top);
      assert |At(dir, name, top)| == top + 1;
      hide Applies, At;
      var k :| 0 <= k < |chain| && chain[k] == At(dir, name, top);
    }
  }

  lemma MemberInWalk(disk: Disk, above: string -> bool, root: Path, dir: Path, name: string, p: Path)
    requires Member(disk, above, root, dir, name, p)
    ensures InWalk(root, dir, |p| - 1)
  {
    hide Imports, IsFile;
  }

  /** The deepest file of that name at or below depth `n`. */
  ghost function Nearest(disk: Disk, dir: Path, name: string, n: nat, hi: nat): (top: nat)
    requires n <= hi <= |dir| && IsFile(disk, At(dir, name, n))
    ensures n <= top <= hi && IsFile(disk, At(dir, name, top))
    ensures forall m :: top < m <= hi ==> !IsFile(disk, At(dir, name, m))
    decreases hi - n
  {
    if m :| n < m <= hi && IsFile(disk, At(dir, name, m)) then Nearest(disk, dir, name, m, hi) else n
  }

  /** There is only one such chain. */
  lemma ChainIsUnique(disk: Disk, above: string -> bool, root: Path, dir: Path, name: string, a: seq<Path>,
    b: seq<Path>)
    requires IsChain(disk, above, root, dir, name, a) && IsChain(disk, above, root, dir, name, b)
    ensures a == b
  {
    hide Imports, IsFile, Applies, At;
    forall p ensures p in a <==> p in b {
      if p in a {
        assert Member(disk, above, root, dir, name, p);
      }
      if p in b {
        assert Member(disk, above, root, dir, name, p);
      }
    }
    hide *;
    SameMembers(a, b);
  }

  lemma {:induction false} SameMembers(a: seq<Path>, b: seq<Path>)
    requires Deepening(a) && Deepening(b) && forall p :: p in a <==> p in b
    ensures a == b
  {
    SameEmptiness(a, b);
    if a != [] {
      SameDeepest(a, b);
      var m, n := |a| - 1, |b| - 1;
      assert a[..m] + [a[m]] == a && b[..n] + [b[n]] == b;
      forall p ensures p in a[..m] <==> p in b[..n] {
        NotTheLast(a, p);
        NotTheLast(b, p);
      }
      SameMembers(a[..m], b[..n]);
    }
  }

  lemma SameEmptiness(a: seq<Path>, b: seq<Path>)
    requires forall p :: p in a <==> p in b
    ensures a == [] <==> b == []
  {
    assert a != [] ==> a[0] in a;
    assert b != [] ==> b[0] in b;
  }

  lemma NotTheLast(a: seq<Path>, p: Path)
    requires Deepening(a) && a != []
    ensures p in a[..|a| - 1] <==> p in a && p != a[|a| - 1]
  {
  }

  lemma SameDeepest(a: seq<Path>, b: seq<Path>)
    requires Deepening(a) && Deepening(b) && a != [] && b != []
    requires forall p :: p in a <==> p in b
    ensures a[|a| - 1] == b[|b| - 1]
  {
    var x, y := a[|a| - 1], b[|b| - 1];
    assert x in b && y in a;
  }
}
