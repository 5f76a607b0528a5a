/** The overlay half of props.go: the class Facts, filled file by file in MSBuild's order, and the value
    each property and package version comes to. */
module ProjectFacts {
  import opened Text
  import opened Props

  // ----- what the patterns read out of one file

  datatype Group = Group(conditional: bool, tfms: seq<string>, lang: string, nullable: Option<string>, usings: Option<string>)

  datatype Ref =
    Ref(include_: Option<string>, update: Option<string>, version: Option<string>, selfClosing: bool, child: Option<string>)

  datatype Sheet = Sheet(groups: seq<Group>, refs: seq<Ref>)

  datatype Central = Central(manage: Option<string>, pins: seq<Ref>)

  predicate IsReference(v: string) { |v| >= 2 && v[0] == '$' && v[1] == '(' }

  function Tfms(g: Group): Option<seq<string>> { if g.conditional || g.tfms == [] then None else Some(g.tfms) }

  function Lang(g: Group): Option<string> { if g.conditional || g.lang == "" then None else Some(g.lang) }

  function Nullable(g: Group): Option<string> {
    if g.conditional || g.nullable.None? then None
    else
      var v := Trim(g.nullable.value);
      if v == "" || IsReference(v) then None else Some(v)
  }

  function Usings(g: Group): Option<bool> {
    if g.conditional || g.usings.None? then None
    else
      var v := Lower(Trim(g.usings.value));
      if v == "" || IsReference(v) then None else Some(v == "enable" || v == "true")
  }

  function IdOf(r: Ref): string {
    if r.include_.Some? then Trim(r.include_.value)
    else if r.update.Some? then Trim(r.update.value)
    else ""
  }

  function Key(r: Ref): string { Lower(IdOf(r)) }

  function VersionOf(r: Ref): string {
    if r.version.Some? then Trim(r.version.value)
    else if !r.selfClosing && r.child.Some? then Trim(r.child.value)
    else ""
  }

  /** Of a central pin only the attribute counts. */
  function PinOf(r: Ref): string { if r.version.Some? then Trim(r.version.value) else "" }

  /** The version a reference states for package `k`, if it is one to `k` and states any. */
  function VersionFor(k: string): Ref -> Option<string> {
    (r: Ref) => if IdOf(r) != "" && Key(r) == k && VersionOf(r) != "" then Some(VersionOf(r)) else None
  }

  function PinFor(k: string): Ref -> Option<string> {
    (r: Ref) => if IdOf(r) != "" && Key(r) == k && PinOf(r) != "" then Some(PinOf(r)) else None
  }

  // ----- who wins

  predicate Silent<S, T>(xs: seq<S>, says: S -> Option<T>) { forall k :: 0 <= k < |xs| ==> says(xs[k]).None? }

  /** `v` is the last value stated, or the default when none is. */
  ghost predicate LastWins<S, T>(xs: seq<S>, says: S -> Option<T>, dflt: T, v: T) {
    || (v == dflt && Silent(xs, says))
    || exists k :: 0 <= k < |xs| && says(xs[k]) == Some(v) && Silent(xs[k + 1..], says)
  }

  /** `v` is the first value stated, or the default when none is. */
  ghost predicate FirstWins<S, T>(xs: seq<S>, says: S -> Option<T>, dflt: T, v: T) {
    || (v == dflt && Silent(xs, says))
    || exists k :: 0 <= k < |xs| && says(xs[k]) == Some(v) && Silent(xs[..k], says)
  }

  lemma LastWinsStep<S, T>(xs: seq<S>, says: S -> Option<T>, dflt: T, v: T, x: S)
    requires LastWins(xs, says, dflt, v)
    ensures LastWins(xs + [x], says, dflt, if says(x).Some? then says(x).value else v)
  {
    var ys := xs + [x];
    if says(x).Some? {
      assert ys[|xs|] == x && ys[|xs| + 1..] == [];
    } else if k :| 0 <= k < |xs| && says(xs[k]) == Some(v) && Silent(xs[k + 1..], says) {
      assert ys[k] == xs[k] && ys[k + 1..] == xs[k + 1..] + [x];
    }
  }

  lemma FirstWinsStep<S, T>(xs: seq<S>, says: S -> Option<T>, dflt: T, v: T, x: S)
    requires FirstWins(xs, says, dflt, v)
    ensures !Silent(xs, says) ==> FirstWins(xs + [x], says, dflt, v)
    ensures Silent(xs, says) ==> FirstWins(xs + [x], says, dflt, if says(x).Some? then says(x).value else v)
  {
    var ys := xs + [x];
    if Silent(xs, says) {
      assert ys[|xs|] == x && ys[..|xs|] == xs;
    } else {
      var k :| 0 <= k < |xs| && says(xs[k]) == Some(v) && Silent(xs[..k], says);
      assert ys[k] == xs[k] && ys[..k] == xs[..k];
    }
  }

  /** There is only one last value. */
  lemma LastWinsIsUnique<S, T>(xs: seq<S>, says: S -> Option<T>, dflt: T, v: T, w: T)
    requires LastWins(xs, says, dflt, v) && LastWins(xs, says, dflt, w)
    ensures v == w
  {
    if !Silent(xs, says) {
      var j :| 0 <= j < |xs| && says(xs[j]) == Some(v) && Silent(xs[j + 1..], says);
      var k :| 0 <= k < |xs| && says(xs[k]) == Some(w) && Silent(xs[k + 1..], says);
      SilentTail(xs, says, j);
      SilentTail(xs, says, k);
    }
  }

  lemma SilentTail<S, T>(xs: seq<S>, says: S -> Option<T>, j: nat)
    requires j < |xs|
    ensures Silent(xs[j + 1..], says) <==> forall i :: j < i < |xs| ==> says(xs[i]).None?
  {
    forall i | j < i < |xs| ensures xs[j + 1..][i - j - 1] == xs[i] {
    }
  }

  /** What comes later overrides: if the later part states anything, the earlier part, and the default
      with it, does not matter; if it states nothing, the earlier part decides. */
  lemma LaterOverrides<S, T>(a: seq<S>, b: seq<S>, says: S -> Option<T>, dflt: T, v: T)
    requires LastWins(a + b, says, dflt, v)
    ensures !Silent(b, says) ==> forall other :: LastWins(b, says, other, v)
    ensures Silent(b, says) ==> LastWins(a, says, dflt, v)
  {
    SilentParts(a, b, says);
    if !Silent(a + b, says) {
      var k :| 0 <= k < |a + b| && says((a + b)[k]) == Some(v) && Silent((a + b)[k + 1..], says);
      hide LastWins;
      if k < |a| {
        StatedEarly(a, b, says, dflt, v, k);
      } else {
        StatedLate(a, b, says, v, k - |a|);
      }
    }
  }

  lemma StatedEarly<S, T>(a: seq<S>, b: seq<S>, says: S -> Option<T>, dflt: T, v: T, k: nat)
    requires k < |a| && says((a + b)[k]) == Some(v) && Silent((a + b)[k + 1..], says)
    ensures Silent(b, says) && LastWins(a, says, dflt, v)
  {
    assert (a + b)[k + 1..] == a[k + 1..] + b;
    SilentParts(a[k + 1..], b, says);
    assert (a + b)[k] == a[k];
  }

  lemma StatedLate<S, T>(a: seq<S>, b: seq<S>, says: S -> Option<T>, v: T, k: nat)
    requires k < |b| && says((a + b)[|a| + k]) == Some(v) && Silent((a + b)[|a| + k + 1..], says)
    ensures !Silent(b, says) && forall other :: LastWins(b, says, other, v)
  {
    assert (a + b)[|a| + k + 1..] == b[k + 1..];
    assert (a + b)[|a| + k] == b[k];
  }

  lemma SilentParts<S, T>(a: seq<S>, b: seq<S>, says: S -> Option<T>)
    ensures Silent(a + b, says) <==> Silent(a, says) && Silent(b, says)
  {
    assert forall k :: 0 <= k < |b| ==> (a + b)[|a| + k] == b[k];
    assert forall k :: 0 <= k < |a| ==> (a + b)[k] == a[k];
  }

  // ----- packages

  predicate Names(refs: seq<Ref>, k: string) { exists i :: 0 <= i < |refs| && IdOf(refs[i]) != "" && Key(refs[i]) == k }

  /** The first spelling of package `k`. */
  predicate FirstSpelling(refs: seq<Ref>, k: string, id: string) {
    exists i :: 0 <= i < |refs| && IdOf(refs[i]) == id != "" && Key(refs[i]) == k && !Names(refs[..i], k)
  }

  /** A package is recorded exactly when some reference names it, with the last version stated for it
      ("" when none is) and its first spelling. */
  ghost predicate Recorded(refs: seq<Ref>, packages: map<string, string>, names: map<string, string>) {
    && (forall k :: k in packages <==> Names(refs, k))
    && (forall k :: k in packages ==> LastWins(refs, VersionFor(k), "", packages[k]))
    && (forall k :: k in names <==> Names(refs, k))
    && (forall k :: k in names ==> FirstSpelling(refs, k, names[k]))
  }

  lemma NamesStep(refs: seq<Ref>, r: Ref, k: string)
    ensures Names(refs + [r], k) <==> Names(refs, k) || (IdOf(r) != "" && Key(r) == k)
  {
    var rs := refs + [r];
    if Names(refs, k) {
      var i :| 0 <= i < |refs| && IdOf(refs[i]) != "" && Key(refs[i]) == k;
      assert rs[i] == refs[i];
    }
    assert rs[|refs|] == r;
  }

  lemma FirstSpellingStep(refs: seq<Ref>, r: Ref, k: string, id: string)
    ensures FirstSpelling(refs, k, id) ==> FirstSpelling(refs + [r], k, id)
    ensures !Names(refs, k) && IdOf(r) != "" && Key(r) == k ==> FirstSpelling(refs + [r], k, IdOf(r))
  {
    hide Names, IdOf, Key;
    var rs := refs + [r];
    if FirstSpelling(refs, k, id) {
      var i :| 0 <= i < |refs| && IdOf(refs[i]) == id != "" && Key(refs[i]) == k && !Names(refs[..i], k);
      assert rs[i] == refs[i] && rs[..i] == refs[..i];
    }
    assert rs[|refs|] == r && rs[..|refs|] == refs;
  }

  /** An Update item states no reference to MSBuild, but is recorded here as one. */
  lemma UpdateIsRecorded(id: string, packages: map<string, string>, names: map<string, string>)
    requires Trim(id) != "" && Recorded([Ref(None, Some(id), None, true, None)], packages, names)
    ensures Lower(Trim(id)) in packages
  {
    var r := Ref(None, Some(id), None, true, None);
    assert IdOf([r][0]) != "" && Key([r][0]) == Lower(Trim(id));
    assert Names([r], Lower(Trim(id)));
  }

  /** One item: its Include names the package, or else its Update; the version is the attribute's, and
      with no attribute that of the child element, if the item is not self-closing. */
  lemma LoneReferenceReads(r: Ref, id: string, packages: map<string, string>, names: map<string, string>)
    requires r.include_ == Some(id) || (r.include_.None? && r.update == Some(id))
    requires Trim(id) != "" && Recorded([r], packages, names)
    ensures packages.Keys == {Lower(Trim(id))} && names == map[Lower(Trim(id)) := Trim(id)]
    ensures packages[Lower(Trim(id))] ==
            match r.version
            case Some(v) => Trim(v)
            case None => if r.selfClosing || r.child.None? then "" else Trim(r.child.value)
  {
    hide Trim, Lower;
    var k := Lower(Trim(id));
    assert [r][0] == r && Names([r], k);
    forall j ensures Names([r], j) <==> j == k {
    }
    assert packages.Keys == {k};
    assert names.Keys == {k} && FirstSpelling([r], k, names[k]);
    assert LastWins([r], VersionFor(k), "", packages[k]);
  }

  /** What one property group states: nothing under a condition, and no blank value or reference to
      another property. */
  lemma GroupStates(g: Group)
    ensures g.conditional ==> Tfms(g).None? && Lang(g).None? && Nullable(g).None? && Usings(g).None?
    ensures forall v :: Nullable(g) == Some(v) <==> !g.conditional && g.nullable.Some? && v == Trim(g.nullable.value) && v != "" && !("$(" <= v)
    ensures forall v :: Usings(g) == Some(v) <==>
              && !g.conditional && g.usings.Some?
              && var word := Lower(Trim(g.usings.value));
                 word != "" && !("$(" <= word) && (v <==> word == "enable" || word == "true")
  {
    hide Trim, Lower;
  }

  /** An item with an Include names `k`. */
  predicate Included(refs: seq<Ref>, k: string) {
    exists i :: 0 <= i < |refs| && refs[i].include_.Some? && IdOf(refs[i]) != "" && Key(refs[i]) == k
  }

  /** Every package an Update item names is also included by some item. */
  predicate UpdatesAreIncluded(refs: seq<Ref>) {
    forall i :: 0 <= i < |refs| && refs[i].include_.None? && IdOf(refs[i]) != "" ==> Included(refs, Key(refs[i]))
  }

  /** The packages said to be referenced are the included ones if and only if no Update item names
      another. */
  lemma ReferencedIsIncludedIff(refs: seq<Ref>, packages: map<string, string>)
    requires forall k :: k in packages <==> Names(refs, k)
    ensures (forall k :: k in packages <==> Included(refs, k)) <==> UpdatesAreIncluded(refs)
  {
    hide IdOf, Key;
    forall k | Included(refs, k) ensures Names(refs, k) {
      var i :| 0 <= i < |refs| && refs[i].include_.Some? && IdOf(refs[i]) != "" && Key(refs[i]) == k;
    }
    if UpdatesAreIncluded(refs) {
      forall k | Names(refs, k) ensures Included(refs, k) {
        var i :| 0 <= i < |refs| && IdOf(refs[i]) != "" && Key(refs[i]) == k;
        if refs[i].include_.None? {
          assert Included(refs, Key(refs[i]));
        }
      }
    } else {
      var i :| 0 <= i < |refs| && refs[i].include_.None? && IdOf(refs[i]) != "" && !Included(refs, Key(refs[i]));
      assert Names(refs, Key(refs[i]));
    }
  }

  /** What central pins do to the versions: a package keeps a version it has, else it gets the first
      one pinned for it, and no package comes or goes. */
  ghost predicate Filled(before: map<string, string>, after: map<string, string>, pins: seq<Ref>) {
    && after.Keys == before.Keys
    && forall k :: k in before ==>
         if before[k] != "" then after[k] == before[k] else FirstWins(pins, PinFor(k), "", after[k])
  }

  /** One pin gives its Version attribute, and nothing else of it, to a package stated without one. */
  lemma LonePinFills(r: Ref, k: string, after: map<string, string>)
    requires Filled(map[k := ""], after, [r])
    ensures after == map[k := if IdOf(r) != "" && Key(r) == k && r.version.Some? then Trim(r.version.value) else ""]
  {
    hide IdOf, Key, Trim;
    assert FirstWins([r], PinFor(k), "", after[k]);
    assert [r][0] == r;
    assert Silent([r], PinFor(k)) <==> PinFor(k)(r).None?;
  }

  method FillPin(packages: map<string, string>, r: Ref, ghost before: map<string, string>, ghost pins: seq<Ref>)
    returns (after: map<string, string>)
    requires Filled(before, packages, pins)
    ensures Filled(before, after, pins + [r])
  {
    after := packages;
    var key := Key(r);
    if IdOf(r) != "" && key in packages && packages[key] == "" {
      after := after[key := PinOf(r)];
    }
    forall k | k in before && before[k] == "" ensures FirstWins(pins + [r], PinFor(k), "", after[k]) {
      FirstFills(pins, PinFor(k), packages[k], after[k], r);
    }
  }

  /** Filling a blank with what is stated next keeps it the first value stated. */
  lemma FirstFills<S>(xs: seq<S>, says: S -> Option<string>, v: string, w: string, x: S)
    requires forall y :: says(y) != Some("")
    requires FirstWins(xs, says, "", v)
    requires w == if v == "" && says(x).Some? then says(x).value else v
    ensures FirstWins(xs + [x], says, "", w)
  {
    FirstWinsStep(xs, says, "", v, x);
  }

  // ----- the class

  class Facts {
    var tfms: seq<string>
    var langVersion: string
    var nullable: string
    var implicitUsings: bool
    var propsPaths: seq<Path>
    var centralManagement: bool
    var centralPath: Option<Path>
    var packages: map<string, string>
    var packageNames: map<string, string>

    /** Every property is the last unconditional value among `gs`. */
    ghost predicate Properties(gs: seq<Group>)
      reads this
    {
      && LastWins(gs, Tfms, [], tfms)
      && LastWins(gs, Lang, "", langVersion)
      && LastWins(gs, Nullable, "", nullable)
      && LastWins(gs, Usings, false, implicitUsings)
    }

    constructor ()
      ensures Properties([]) && Recorded([], packages, packageNames)
      ensures propsPaths == [] && !centralManagement && centralPath == None
    {
      tfms, langVersion, nullable, implicitUsings := [], "", "", false;
      propsPaths, centralManagement, centralPath := [], false, None;
      packages, packageNames := map[], map[];
    }

    method ApplyProperties(gs: seq<Group>, ghost earlier: seq<Group>)
      requires Properties(earlier)
      modifies this`tfms, this`langVersion, this`nullable, this`implicitUsings
      ensures Properties(earlier + gs)
    {
      var i := 0;
      assert earlier + gs[..0] == earlier;
      while i < |gs|
        invariant 0 <= i <= |gs|
        invariant Properties(earlier + gs[..i])
      {
        assert earlier + gs[..i + 1] == (earlier + gs[..i]) + [gs[i]];
        ApplyGroup(gs[i], earlier + gs[..i]);
        i := i + 1;
      }
      assert gs[..i] == gs;
    }

    method ApplyGroup(g: Group, ghost earlier: seq<Group>)
      requires Properties(earlier)
      modifies this`tfms, this`langVersion, this`nullable, this`implicitUsings
      ensures Properties(earlier + [g])
    {
      hide LastWins, Trim, Lower;
      LastWinsStep(earlier, Tfms, [], tfms, g);
      LastWinsStep(earlier, Lang, "", langVersion, g);
      LastWinsStep(earlier, Nullable, "", nullable, g);
      LastWinsStep(earlier, Usings, false, implicitUsings, g);
      if g.conditional {
        return;
      }
      if |g.tfms| > 0 {
        tfms := g.tfms;
      }
      if g.lang != "" {
        langVersion := g.lang;
      }
      if g.nullable.Some? {
        var v := Trim(g.nullable.value);
        if v != "" && !IsReference(v) {
          nullable := v;
        }
      }
      if g.usings.Some? {
        var v := Lower(Trim(g.usings.value));
        if v != "" && !IsReference(v) {
          implicitUsings := v == "enable" || v == "true";
        }
      }
    }

    method ReadPackageReferences(refs: seq<Ref>, ghost earlier: seq<Ref>)
      requires Recorded(earlier, packages, packageNames)
      modifies this`packages, this`packageNames
      ensures Recorded(earlier + refs, packages, packageNames)
    {
      hide Recorded;
      var i := 0;
      assert earlier + refs[..0] == earlier;
      while i < |refs|
        invariant 0 <= i <= |refs|
        invariant Recorded(earlier + refs[..i], packages, packageNames)
      {
        assert earlier + refs[..i + 1] == (earlier + refs[..i]) + [refs[i]];
        ReadReference(refs[i], earlier + refs[..i]);
        i := i + 1;
      }
      assert refs[..i] == refs;
    }

    method ReadReference(r: Ref, ghost earlier: seq<Ref>)
      requires Recorded(earlier, packages, packageNames)
      modifies this`packages, this`packageNames
      ensures Recorded(earlier + [r], packages, packageNames)
    {
      hide IdOf, Key, VersionOf, Names, FirstSpelling, LastWins;
      var id := IdOf(r);
      ghost var was, named := packages, packageNames;
      if id != "" {
        var key, version := Key(r), VersionOf(r);
        if key !in packages || version != "" || packages[key] == "" {
          packages := packages[key := version];
        }
        if key !in packageNames {
          packageNames := packageNames[key := id];
        }
      }
      forall k ensures Names(earlier + [r], k) <==> Names(earlier, k) || (IdOf(r) != "" && Key(r) == k) {
        NamesStep(earlier, r, k);
      }
      forall k | k in packages ensures LastWins(earlier + [r], VersionFor(k), "", packages[k]) {
        UnnamedIsSilent(earlier, k);
        LastWinsStep(earlier, VersionFor(k), "", if k in was then was[k] else "", r);
      }
      forall k | k in packageNames ensures FirstSpelling(earlier + [r], k, packageNames[k]) {
        FirstSpellingStep(earlier, r, k, packageNames[k]);
      }
    }

    method ResolveCentral(disk: Disk, centrals: string -> Central, root: Path, dir: Path)
      returns (ghost found: Option<Path>)
      modifies this`centralManagement, this`centralPath, this`packages
      ensures NearestCentral(disk, root, dir, found)
      ensures CentralApplied(disk, centrals, found, old(packages), packages)
      ensures centralPath == if CanRead(disk, found) then found else old(centralPath)
      ensures centralManagement ==
              if CanRead(disk, found) then OptsIn(centrals(disk[found.value].xml), old(centralManagement)) else old(centralManagement)
    {
      hide NearestCentral, Filled, Lower, Trim;
      var path := FindCentral(disk, root, dir);
      found := path;
      FoundExists(disk, root, dir, path);
      if path == None || !disk[path.value].File? {
        return;
      }
      var c := centrals(disk[path.value].xml);
      centralPath := path;
      if c.manage.Some? {
        centralManagement := Lower(Trim(c.manage.value)) == "true";
      }
      packages := FillPins(packages, c.pins);
    }
  }

  lemma FoundExists(disk: Disk, root: Path, dir: Path, found: Option<Path>)
    requires NearestCentral(disk, root, dir, found)
    ensures found.Some? ==> found.value in disk
  {
  }

  function OptsIn(c: Central, dflt: bool): bool { if c.manage.Some? then Lower(Trim(c.manage.value)) == "true" else dflt }

  /** The central file says `true`, case and surrounding space aside. */
  predicate Managed(c: Central) { c.manage.Some? && Lower(Trim(c.manage.value)) == "true" }

  method FillPins(packages: map<string, string>, pins: seq<Ref>) returns (after: map<string, string>)
    ensures Filled(packages, after, pins)
  {
    after := packages;
    NothingPinned(packages);
    hide Filled;
    var i := 0;
    while i < |pins|
      invariant 0 <= i <= |pins|
      invariant Filled(packages, after, pins[..i])
    {
      assert pins[..i + 1] == pins[..i] + [pins[i]];
      after := FillPin(after, pins[i], packages, pins[..i]);
      i := i + 1;
    }
    assert pins[..i] == pins;
  }

  lemma NothingPinned(packages: map<string, string>)
    ensures Filled(packages, packages, [])
  {
  }

  lemma UnnamedIsSilent(refs: seq<Ref>, k: string)
    ensures !Names(refs, k) ==> LastWins(refs, VersionFor(k), "", "")
  {
  }

  // ----- the central file

  const CENTRAL_NAME := "Directory.Packages.props"

  /** The nearest Directory.Packages.props the walk can see. */
  ghost predicate NearestCentral(disk: Disk, root: Path, dir: Path, found: Option<Path>) {
    match found
    case None => forall n: nat :: InWalk(root, dir, n) ==> !IsFile(disk, At(dir, CENTRAL_NAME, n))
    case Some(p) =>
      && IsFile(disk, p)
      && exists n: nat :: InWalk(root, dir, n) && p == At(dir, CENTRAL_NAME, n)
           && forall m: nat :: n < m <= |dir| ==> !IsFile(disk, At(dir, CENTRAL_NAME, m))
  }

  method FindCentral(disk: Disk, root: Path, dir: Path) returns (found: Option<Path>)
    ensures NearestCentral(disk, root, dir, found)
  {
    var d := dir;
    var i := 0;
    while i < MAX_WALK
      invariant 0 <= i <= MAX_WALK && i <= |dir| && d == dir[..|dir| - i]
      invariant i > 0 ==> root <= d
      invariant forall m: nat :: |d| < m <= |dir| ==> !IsFile(disk, At(dir, CENTRAL_NAME, m))
    {
      if !(root <= d) {
        return None;
      }
      var p := d + [CENTRAL_NAME];
      assert p == At(dir, CENTRAL_NAME, |d|);
      if IsFile(disk, p) {
        return Some(p);
      }
      if d == root || d == [] {
        return None;
      }
      i, d := i + 1, d[..|d| - 1];
    }
    found := None;
  }

  predicate CanRead(disk: Disk, found: Option<Path>) { found.Some? && found.value in disk && disk[found.value].File? }

  /** The versions after the central file, if it can be read, has been applied. */
  ghost predicate CentralApplied(disk: Disk, centrals: string -> Central, found: Option<Path>,
    before: map<string, string>, after: map<string, string>) {
    if CanRead(disk, found) then Filled(before, after, centrals(disk[found.value].xml).pins) else after == before
  }

  // ----- the whole order

  /** The sheets of those files that can be read, in order. */
  function Sheets(disk: Disk, sheets: string -> Sheet, files: seq<Path>): seq<Sheet> {
    if files == [] then []
    else (if files[0] in disk && disk[files[0]].File? then [sheets(disk[files[0]].xml)] else []) + Sheets(disk, sheets, files[1..])
  }

  /** The files that contribute. */
  function Readable(disk: Disk, files: seq<Path>): seq<Path> {
    if files == [] then []
    else
      var n := |files| - 1;
      Readable(disk, files[..n]) + if files[n] in disk && disk[files[n]].File? then [files[n]] else []
  }

  function Groups(ss: seq<Sheet>): seq<Group> { if ss == [] then [] else ss[0].groups + Groups(ss[1..]) }

  function Refs(ss: seq<Sheet>): seq<Ref> { if ss == [] then [] else ss[0].refs + Refs(ss[1..]) }

  lemma {:induction false} SheetsAppend(disk: Disk, sheets: string -> Sheet, files: seq<Path>, p: Path)
    ensures Sheets(disk, sheets, files + [p])
         == Sheets(disk, sheets, files) + if p in disk && disk[p].File? then [sheets(disk[p].xml)] else []
  {
    if files != [] {
      assert (files + [p])[1..] == files[1..] + [p];
      SheetsAppend(disk, sheets, files[1..], p);
    }
  }

  lemma {:induction false} GroupsConcat(a: seq<Sheet>, b: seq<Sheet>)
    ensures Groups(a + b) == Groups(a) + Groups(b) && Refs(a + b) == Refs(a) + Refs(b)
  {
    if a == [] {
      assert a + b == b;
    } else {
      assert (a + b)[1..] == a[1..] + b;
      GroupsConcat(a[1..], b);
    }
  }

  lemma OneSheet(s: Sheet)
    ensures Groups([s]) == s.groups && Refs([s]) == s.refs
  {
    assert [s][1..] == [];
  }

  method ApplyFile(f: Facts, sheet: Sheet, ghost earlier: seq<Sheet>)
    requires f.Properties(Groups(earlier)) && Recorded(Refs(earlier), f.packages, f.packageNames)
    modifies f`tfms, f`langVersion, f`nullable, f`implicitUsings, f`packages, f`packageNames
    ensures f.Properties(Groups(earlier + [sheet])) && Recorded(Refs(earlier + [sheet]), f.packages, f.packageNames)
  {
    hide Recorded, LastWins, Groups, Refs;
    GroupsConcat(earlier, [sheet]);
    OneSheet(sheet);
    f.ApplyProperties(sheet.groups, Groups(earlier));
    f.ReadPackageReferences(sheet.refs, Refs(earlier));
  }

  method ApplyChain(f: Facts, disk: Disk, sheets: string -> Sheet, chain: seq<Path>, ghost earlier: seq<Sheet>)
    requires f.Properties(Groups(earlier)) && Recorded(Refs(earlier), f.packages, f.packageNames)
    modifies f`tfms, f`langVersion, f`nullable, f`implicitUsings, f`packages, f`packageNames, f`propsPaths
    ensures f.Properties(Groups(earlier + Sheets(disk, sheets, chain)))
    ensures Recorded(Refs(earlier + Sheets(disk, sheets, chain)), f.packages, f.packageNames)
    ensures f.propsPaths == old(f.propsPaths) + Readable(disk, chain)
  {
    hide Recorded, LastWins, Groups, Refs;
    var i := 0;
    ghost var done := earlier;
    assert earlier + Sheets(disk, sheets, chain[..0]) == earlier;
    while i < |chain|
      invariant 0 <= i <= |chain|
      invariant done == earlier + Sheets(disk, sheets, chain[..i])
      invariant f.Properties(Groups(done)) && Recorded(Refs(done), f.packages, f.packageNames)
      invariant f.propsPaths == old(f.propsPaths) + Readable(disk, chain[..i])
    {
      assert chain[..i + 1] == chain[..i] + [chain[i]];
      SheetsAppend(disk, sheets, chain[..i], chain[i]);
      assert chain[..i + 1][..i] == chain[..i];
      if chain[i] in disk && disk[chain[i]].File? {
        f.propsPaths := f.propsPaths + [chain[i]];
        ApplyFile(f, sheets(disk[chain[i]].xml), done);
        done := done + [sheets(disk[chain[i]].xml)];
      }
      i := i + 1;
    }
    assert chain[..i] == chain;
  }

  const PROPS_NAME := "Directory.Build.props"
  const TARGETS_NAME := "Directory.Build.targets"

  /** The files in the order MSBuild lays them over one another. */
  function InOrder(disk: Disk, sheets: string -> Sheet, props: seq<Path>, own: Sheet, targets: seq<Path>): seq<Sheet> {
    Sheets(disk, sheets, props) + [own] + Sheets(disk, sheets, targets)
  }

  /** A package's version: the last one stated inline, else the first one pinned centrally. */
  ghost predicate Resolved(disk: Disk, centrals: string -> Central, found: Option<Path>, refs: seq<Ref>,
    packages: map<string, string>) {
    exists inline :: CentralApplied(disk, centrals, found, inline, packages) && Inline(refs, inline)
  }

  /** Every referenced package is listed under its first spelling. */
  ghost predicate Named(refs: seq<Ref>, names: map<string, string>) {
    && (forall k :: k in names <==> Names(refs, k))
    && forall k :: k in names ==> FirstSpelling(refs, k, names[k])
  }

  ghost predicate Inline(refs: seq<Ref>, inline: map<string, string>) {
    && (forall k :: k in inline <==> Names(refs, k))
    && forall k :: k in inline ==> LastWins(refs, VersionFor(k), "", inline[k])
  }

  method ResolveFacts(disk: Disk, sheets: string -> Sheet, centrals: string -> Central, above: string -> bool,
    root: Path, project: Path)
    returns (f: Facts?, ghost props: seq<Path>, ghost targets: seq<Path>, ghost found: Option<Path>)
    requires project != []
    ensures f == null <==> !(project in disk && disk[project].File?)
    ensures f != null ==>
              var dir := project[..|project| - 1];
              var order := InOrder(disk, sheets, props, sheets(disk[project].xml), targets);
              && IsChain(disk, above, root, dir, PROPS_NAME, props)
              && IsChain(disk, above, root, dir, TARGETS_NAME, targets)
              && f.propsPaths == Readable(disk, props) + Readable(disk, targets)
              && f.Properties(Groups(order))
              && NearestCentral(disk, root, dir, found)
              && f.centralPath == (if CanRead(disk, found) then found else None)
              && f.centralManagement == (CanRead(disk, found) && Managed(centrals(disk[found.value].xml)))
              && Resolved(disk, centrals, found, Refs(order), f.packages)
              && Named(Refs(order), f.packageNames)
  {
    hide Recorded, LastWins, Groups, Refs, Sheets, Readable, InOrder;
    hide IsChain, NearestCentral, CentralApplied, Inline, Resolved, Named, OptsIn;
    f, props, targets, found := null, [], [], None;
    if !(project in disk && disk[project].File?) {
      return;
    }
    var own := sheets(disk[project].xml);
    var dir := project[..|project| - 1];
    var before := AncestorImportChain(disk, above, root, dir, PROPS_NAME);
    var after := AncestorImportChain(disk, above, root, dir, TARGETS_NAME);
    f := new Facts();
    ApplyAll(f, disk, sheets, before, own, after);
    props, targets := before, after;
    ghost var order := InOrder(disk, sheets, props, own, targets);
    ghost var inline := f.packages;
    InlineVersions(Refs(order), inline, f.packageNames);
    found := f.ResolveCentral(disk, centrals, root, dir);
    IsResolved(disk, centrals, found, Refs(order), inline, f.packages);
    if CanRead(disk, found) {
      OptsInFresh(centrals(disk[found.value].xml));
    }
  }

  lemma OptsInFresh(c: Central)
    ensures OptsIn(c, false) == Managed(c)
  {
  }

  method ApplyAll(f: Facts, disk: Disk, sheets: string -> Sheet, before: seq<Path>, own: Sheet, after: seq<Path>)
    requires f.Properties([]) && Recorded([], f.packages, f.packageNames) && f.propsPaths == []
    modifies f`tfms, f`langVersion, f`nullable, f`implicitUsings, f`packages, f`packageNames, f`propsPaths
    ensures f.Properties(Groups(InOrder(disk, sheets, before, own, after)))
    ensures Recorded(Refs(InOrder(disk, sheets, before, own, after)), f.packages, f.packageNames)
    ensures f.propsPaths == Readable(disk, before) + Readable(disk, after)
  {
    hide Recorded, LastWins, Groups, Refs;
    NoSheets();
    assert [] + Sheets(disk, sheets, before) == Sheets(disk, sheets, before);
    ApplyChain(f, disk, sheets, before, []);
    ApplyFile(f, own, Sheets(disk, sheets, before));
    ApplyChain(f, disk, sheets, after, Sheets(disk, sheets, before) + [own]);
  }

  lemma IsResolved(disk: Disk, centrals: string -> Central, found: Option<Path>, refs: seq<Ref>,
    inline: map<string, string>, packages: map<string, string>)
    requires CentralApplied(disk, centrals, found, inline, packages) && Inline(refs, inline)
    ensures Resolved(disk, centrals, found, refs, packages)
  {
  }

  lemma NoSheets()
    ensures Groups([]) == [] && Refs([]) == []
  {
  }

  lemma InlineVersions(refs: seq<Ref>, packages: map<string, string>, names: map<string, string>)
    requires Recorded(refs, packages, names)
    ensures Inline(refs, packages) && Named(refs, names)
  {
  }

  /** What a reader of the facts is owed: a package is there exactly when some file references it, an
      inline version is never overruled by the central file, and the central file only fills blanks. */
  lemma CentralNeverAdds(disk: Disk, centrals: string -> Central, found: Option<Path>, refs: seq<Ref>,
    packages: map<string, string>, k: string)
    requires Resolved(disk, centrals, found, refs, packages)
    ensures k in packages <==> Names(refs, k)
    ensures k in packages && !Silent(refs, VersionFor(k)) ==> LastWins(refs, VersionFor(k), "", packages[k])
    ensures k in packages && Silent(refs, VersionFor(k)) ==>
              if CanRead(disk, found) then FirstWins(centrals(disk[found.value].xml).pins, PinFor(k), "", packages[k])
              else packages[k] == ""
  {
    hide Names, FirstWins;
    var inline :| CentralApplied(disk, centrals, found, inline, packages) && Inline(refs, inline);
    if k in inline {
      StatedIsNotBlank(refs, k, inline[k]);
    }
  }

  lemma StatedIsNotBlank(refs: seq<Ref>, k: string, v: string)
    requires LastWins(refs, VersionFor(k), "", v)
    ensures v == "" <==> Silent(refs, VersionFor(k))
  {
  }

  /** MSBuild's order decides: .targets overrules the project, and the project overrules .props. */
  lemma NearestStatementWins<T>(disk: Disk, sheets: string -> Sheet, props: seq<Path>, own: Sheet,
    targets: seq<Path>, says: Group -> Option<T>, dflt: T, v: T)
    requires LastWins(Groups(InOrder(disk, sheets, props, own, targets)), says, dflt, v)
    ensures var late := Groups(Sheets(disk, sheets, targets));
            var early := Groups(Sheets(disk, sheets, props));
            if !Silent(late, says) then LastWins(late, says, dflt, v)
            else if !Silent(own.groups, says) then LastWins(own.groups, says, dflt, v)
            else LastWins(early, says, dflt, v)
  {
    hide LastWins, Silent, Groups, Sheets;
    var a, c := Sheets(disk, sheets, props), Sheets(disk, sheets, targets);
    GroupsConcat(a + [own], c);
    GroupsConcat(a, [own]);
    OneSheet(own);
    LaterOverrides(Groups(a) + own.groups, Groups(c), says, dflt, v);
    if Silent(Groups(c), says) {
      LaterOverrides(Groups(a), own.groups, says, dflt, v);
    }
  }
}
