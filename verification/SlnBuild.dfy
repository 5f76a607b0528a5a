/** The solution-file patch of csharp_projectref_autofix.go, on the configuration rows of the
    ProjectConfigurationPlatforms section. */
module SlnBuild {
  import opened Text
  import opened Sorting

  datatype Kind = Build | Active

  /** `{guid}.cfg.Build.0 = rhs` or `{guid}.cfg.ActiveCfg = rhs`. */
  datatype Row = Row(guid: string, cfg: string, kind: Kind, rhs: string)

  // ----- what the parsed maps say

  /** The configurations in which a project builds. */
  function Enabled(rows: seq<Row>, guid: string): set<string> {
    set r | r in rows && r.kind == Build && r.guid == guid :: r.cfg
  }

  predicate IsActive(r: Row, guid: string, cfg: string) { r.kind == Active && r.guid == guid && r.cfg == cfg }

  /** The project configuration a solution configuration is mapped to: the last row counts. */
  function ActiveRhs(rows: seq<Row>, guid: string, cfg: string): (r: Option<string>) {
    if rows == [] then None
    else
      var n := |rows| - 1;
      if IsActive(rows[n], guid, cfg) then Some(rows[n].rhs) else ActiveRhs(rows[..n], guid, cfg)
  }

  function ActiveConfigs(rows: seq<Row>, guid: string): set<string> {
    set r | r in rows && r.kind == Active && r.guid == guid :: r.cfg
  }

  function Squeezed(s: string): string {
    if s == "" then "" else (if s[0] == ' ' then "" else [LowerChar(s[0])]) + Squeezed(s[1..])
  }

  /** How configurations are compared: case and spaces do not matter. */
  function CfgKey(cfg: string): string { Squeezed(Trim(cfg)) }

  function CfgKeys(cfgs: set<string>): set<string> { set c | c in cfgs :: CfgKey(c) }

  /** Where the target builds and the dependency does not. */
  function Disabled(rows: seq<Row>, target: string, dep: string): set<string> {
    set c | c in Enabled(rows, target) && CfgKey(c) !in CfgKeys(Enabled(rows, dep))
  }

  // ----- the patch

  /** The first mapping of the dependency that is not blank, in configuration order. */
  function FirstRhs(rows: seq<Row>, guid: string, cfgs: seq<string>): string {
    if cfgs == [] then ""
    else
      var v := ActiveRhs(rows, guid, cfgs[0]);
      if v.Some? && v.value != "" then v.value else FirstRhs(rows, guid, cfgs[1..])
  }

  ghost function Rhs(rows: seq<Row>, guid: string, cfg: string): string {
    var own := ActiveRhs(rows, guid, cfg);
    if own.Some? && own.value != "" then own.value
    else
      var other := FirstRhs(rows, guid, SortedSet(ActiveConfigs(rows, guid)));
      if other != "" then other else cfg
  }

  /** The rows one dependency needs in one configuration. */
  ghost function NewRows(rows: seq<Row>, guid: string, cfg: string): seq<Row> {
    if cfg in Enabled(rows, guid) then []
    else
      (if cfg in ActiveConfigs(rows, guid) then [] else [Row(guid, cfg, Active, Rhs(rows, guid, cfg))])
      + [Row(guid, cfg, Build, Rhs(rows, guid, cfg))]
  }

  ghost function RowsForConfigs(rows: seq<Row>, guid: string, cfgs: seq<string>): seq<Row> {
    if cfgs == [] then []
    else
      var n := |cfgs| - 1;
      RowsForConfigs(rows, guid, cfgs[..n]) + NewRows(rows, guid, cfgs[n])
  }

  /** All rows to insert; a dependency that is not in the solution (None) gets none. */
  ghost function Inserted(rows: seq<Row>, target: string, deps: seq<Option<string>>): seq<Row> {
    if deps == [] then []
    else
      var n := |deps| - 1;
      Inserted(rows, target, deps[..n])
      + if deps[n].None? then [] else RowsForConfigs(rows, deps[n].value, SortedSet(Disabled(rows, target, deps[n].value)))
  }

  ghost function Patched(rows: seq<Row>, target: string, deps: seq<Option<string>>): seq<Row> {
    rows + Inserted(rows, target, deps)
  }

  lemma {:induction false} RowsForConfigsAre(rows: seq<Row>, guid: string, cfgs: seq<string>, r: Row)
    ensures r in RowsForConfigs(rows, guid, cfgs) <==> exists c :: c in cfgs && r in NewRows(rows, guid, c)
  {
    hide NewRows;
    if cfgs != [] {
      var n := |cfgs| - 1;
      assert cfgs == cfgs[..n] + [cfgs[n]];
      RowsForConfigsAre(rows, guid, cfgs[..n], r);
    }
  }

  ghost predicate Needed(rows: seq<Row>, target: string, deps: seq<Option<string>>, r: Row) {
    Some(r.guid) in deps && r.cfg in Disabled(rows, target, r.guid) && r in NewRows(rows, r.guid, r.cfg)
  }

  lemma NewRowsAbout(rows: seq<Row>, guid: string, cfg: string, r: Row)
    requires r in NewRows(rows, guid, cfg)
    ensures r.guid == guid && r.cfg == cfg
  {
  }

  lemma {:induction false} InsertedAre(rows: seq<Row>, target: string, deps: seq<Option<string>>, r: Row)
    ensures r in Inserted(rows, target, deps) <==> Needed(rows, target, deps, r)
  {
    hide NewRows, Disabled;
    if deps != [] {
      var n := |deps| - 1;
      assert deps == deps[..n] + [deps[n]];
      InsertedAre(rows, target, deps[..n], r);
      if deps[n].Some? {
        var guid := deps[n].value;
        var cfgs := SortedSet(Disabled(rows, target, guid));
        RowsForConfigsAre(rows, guid, cfgs, r);
        forall c | c in cfgs && r in NewRows(rows, guid, c) ensures r.guid == guid && r.cfg == c {
          NewRowsAbout(rows, guid, c, r);
        }
      }
    }
  }

  lemma EnabledOfConcat(a: seq<Row>, b: seq<Row>, guid: string)
    ensures Enabled(a + b, guid) == Enabled(a, guid) + Enabled(b, guid)
  {
  }

  lemma SelfIsNeverDisabled(rows: seq<Row>, target: string)
    ensures Disabled(rows, target, target) == {}
  {
  }

  lemma TargetUntouched(rows: seq<Row>, target: string, deps: seq<Option<string>>)
    ensures Enabled(Patched(rows, target, deps), target) == Enabled(rows, target)
  {
    var more := Inserted(rows, target, deps);
    EnabledOfConcat(rows, more, target);
    SelfIsNeverDisabled(rows, target);
    forall r | r in more && r.kind == Build && r.guid == target ensures false {
      InsertedAre(rows, target, deps, r);
    }
  }

  lemma BuildRowIsNeeded(rows: seq<Row>, target: string, deps: seq<Option<string>>, guid: string, cfg: string)
    requires Some(guid) in deps && cfg in Disabled(rows, target, guid)
    ensures cfg in Enabled(Patched(rows, target, deps), guid)
  {
    var r := Row(guid, cfg, Build, Rhs(rows, guid, cfg));
    assert CfgKey(cfg) !in CfgKeys(Enabled(rows, guid));
    assert cfg !in Enabled(rows, guid);
    assert r in NewRows(rows, guid, cfg);
    InsertedAre(rows, target, deps, r);
    EnabledOfConcat(rows, Inserted(rows, target, deps), guid);
  }

  /** After the patch each listed dependency builds wherever the target does: recomputing the
      disabled configurations gives none. */
  lemma NothingLeftDisabled(rows: seq<Row>, target: string, deps: seq<Option<string>>, guid: string)
    requires Some(guid) in deps
    ensures Disabled(Patched(rows, target, deps), target, guid) == {}
  {
    var after := Patched(rows, target, deps);
    TargetUntouched(rows, target, deps);
    EnabledOfConcat(rows, Inserted(rows, target, deps), guid);
    forall c | c in Enabled(after, target) ensures CfgKey(c) in CfgKeys(Enabled(after, guid)) {
      if c in Disabled(rows, target, guid) {
        BuildRowIsNeeded(rows, target, deps, guid, c);
      } else {
        var d :| d in Enabled(rows, guid) && CfgKey(d) == CfgKey(c);
        assert d in Enabled(after, guid);
      }
    }
  }

  /** So a second pass inserts nothing. */
  lemma SecondPassIsNoOp(rows: seq<Row>, target: string, deps: seq<Option<string>>)
    ensures Patched(Patched(rows, target, deps), target, deps) == Patched(rows, target, deps)
  {
    var after := Patched(rows, target, deps);
    var again := Inserted(after, target, deps);
    if again != [] {
      var r := again[0];
      InsertedAre(after, target, deps, r);
      NothingLeftDisabled(rows, target, deps, r.guid);
    }
    assert after + [] == after;
  }

  // ----- the right-hand sides

  /** The dependency is mapped to nothing in this configuration, and the patch has something to put in
      its place: another mapping, or the configuration's own name. */
  ghost predicate BlankMapping(rows: seq<Row>, guid: string, cfg: string) {
    && ActiveRhs(rows, guid, cfg) == Some("")
    && (cfg != "" || FirstRhs(rows, guid, SortedSet(ActiveConfigs(rows, guid))) != "")
  }

  lemma {:induction false} ActiveRhsOfConcat(a: seq<Row>, b: seq<Row>, guid: string, cfg: string)
    ensures ActiveRhs(a + b, guid, cfg) == if ActiveRhs(b, guid, cfg).Some? then ActiveRhs(b, guid, cfg) else ActiveRhs(a, guid, cfg)
  {
    if b == [] {
      assert a + b == a;
    } else {
      var n := |b| - 1;
      assert (a + b)[..|a + b| - 1] == a + b[..n];
      ActiveRhsOfConcat(a, b[..n], guid, cfg);
    }
  }

  lemma {:induction false} ActiveRhsIsARow(rows: seq<Row>, guid: string, cfg: string)
    ensures ActiveRhs(rows, guid, cfg).Some? <==> cfg in ActiveConfigs(rows, guid)
    ensures ActiveRhs(rows, guid, cfg).Some? ==> Row(guid, cfg, Active, ActiveRhs(rows, guid, cfg).value) in rows
  {
    if rows != [] {
      var n := |rows| - 1;
      assert rows == rows[..n] + [rows[n]];
      ActiveRhsIsARow(rows[..n], guid, cfg);
    }
  }

  lemma BuildRowsRhs(rows: seq<Row>, target: string, deps: seq<Option<string>>, r: Row)
    ensures r in Inserted(rows, target, deps) ==> r.rhs == Rhs(rows, r.guid, r.cfg)
    ensures r in Inserted(rows, target, deps) && r.kind == Build && r.cfg !in ActiveConfigs(rows, r.guid) ==>
              Row(r.guid, r.cfg, Active, r.rhs) in Inserted(rows, target, deps)
  {
    InsertedAre(rows, target, deps, r);
    InsertedAre(rows, target, deps, Row(r.guid, r.cfg, Active, r.rhs));
    hide Inserted, Disabled, Rhs;
  }

  lemma ActiveMember(rows: seq<Row>, guid: string, cfg: string, rhs: string)
    requires Row(guid, cfg, Active, rhs) in rows
    ensures ActiveRhs(rows, guid, cfg).Some?
  {
    ActiveRhsIsARow(rows, guid, cfg);
  }

  /** An inserted build row names the project configuration its solution configuration is mapped to in
      the patched file, unless the file already mapped it to nothing: that row stays in force. */
  lemma BuildMatchesActive(rows: seq<Row>, target: string, deps: seq<Option<string>>, r: Row)
    requires r in Inserted(rows, target, deps) && r.kind == Build
    ensures ActiveRhs(Patched(rows, target, deps), r.guid, r.cfg) == Some(r.rhs) <==> !BlankMapping(rows, r.guid, r.cfg)
  {
    var more := Inserted(rows, target, deps);
    BuildRowsRhs(rows, target, deps, r);
    ActiveRhsIsARow(rows, r.guid, r.cfg);
    assert ActiveRhs(rows, r.guid, r.cfg) == Some("") ==> (BlankMapping(rows, r.guid, r.cfg) <==> r.rhs != "");
    assert ActiveRhs(rows, r.guid, r.cfg).Some? && ActiveRhs(rows, r.guid, r.cfg) != Some("") ==>
             ActiveRhs(rows, r.guid, r.cfg) == Some(r.rhs);
    hide Inserted, Rhs, ActiveRhs, ActiveConfigs, FirstRhs;
    ActiveRhsOfConcat(rows, more, r.guid, r.cfg);
    if r.cfg in ActiveConfigs(rows, r.guid) {
      NoneAddedWhereMapped(rows, target, deps, r.guid, r.cfg);
    } else {
      ActiveMember(more, r.guid, r.cfg, r.rhs);
      ActiveRhsIsARow(more, r.guid, r.cfg);
      BuildRowsRhs(rows, target, deps, Row(r.guid, r.cfg, Active, ActiveRhs(more, r.guid, r.cfg).value));
    }
  }

  lemma NoneAddedWhereMapped(rows: seq<Row>, target: string, deps: seq<Option<string>>, guid: string, cfg: string)
    requires cfg in ActiveConfigs(rows, guid)
    ensures ActiveRhs(Inserted(rows, target, deps), guid, cfg).None?
  {
    var more := Inserted(rows, target, deps);
    hide Inserted, Disabled, ActiveRhs, Rhs;
    ActiveRhsIsARow(more, guid, cfg);
    forall rhs ensures Row(guid, cfg, Active, rhs) !in more {
      InsertedAre(rows, target, deps, Row(guid, cfg, Active, rhs));
    }
  }

  /** Such a file: one project mapped to nothing in the configuration to be enabled. */
  lemma BlankMappingMismatches(target: string, dep: string, cfg: string)
    requires target != dep && cfg != ""
    ensures var rows := [Row(target, cfg, Build, cfg), Row(dep, cfg, Active, "")];
            var r := Row(dep, cfg, Build, cfg);
            && r in Inserted(rows, target, [Some(dep)])
            && ActiveRhs(Patched(rows, target, [Some(dep)]), dep, cfg) == Some("") != Some(r.rhs)
  {
    var rows := [Row(target, cfg, Build, cfg), Row(dep, cfg, Active, "")];
    assert rows[0] == Row(target, cfg, Build, cfg) && rows[1] == Row(dep, cfg, Active, "");
    MappedToNothing(rows, dep, cfg);
    OnlyTargetBuilds(rows, target, dep, cfg);
    assert [Some(dep)][0] == Some(dep);
    hide Inserted, Rhs, ActiveRhs, Disabled, Enabled;
    InsertedAre(rows, target, [Some(dep)], Row(dep, cfg, Build, cfg));
    NoneAddedWhereMapped(rows, target, [Some(dep)], dep, cfg);
    ActiveRhsOfConcat(rows, Inserted(rows, target, [Some(dep)]), dep, cfg);
  }

  lemma OnlyTargetBuilds(rows: seq<Row>, target: string, dep: string, cfg: string)
    requires target != dep && rows == [Row(target, cfg, Build, cfg), Row(dep, cfg, Active, "")]
    ensures cfg in Disabled(rows, target, dep) && cfg !in Enabled(rows, dep)
  {
    hide CfgKey;
    assert rows[0] in rows;
    assert Enabled(rows, dep) == {};
  }

  lemma MappedToNothing(rows: seq<Row>, dep: string, cfg: string)
    requires |rows| == 2 && rows[0].kind == Build && rows[1] == Row(dep, cfg, Active, "")
    ensures ActiveRhs(rows, dep, cfg) == Some("") && cfg in ActiveConfigs(rows, dep)
    ensures Rhs(rows, dep, cfg) == cfg
  {
    assert rows[1] in rows;
    OnlyMapping(rows, dep, cfg);
    var cfgs := SortedSet(ActiveConfigs(rows, dep));
    AllBlank(rows, dep, cfgs);
    hide SortedSet, ActiveConfigs, ActiveRhs, FirstRhs;
  }

  lemma OnlyMapping(rows: seq<Row>, dep: string, cfg: string)
    requires |rows| == 2 && rows[0].kind == Build && rows[1] == Row(dep, cfg, Active, "")
    ensures ActiveRhs(rows, dep, cfg) == Some("") && ActiveConfigs(rows, dep) == {cfg}
  {
    assert rows[1] in rows;
    forall r | r in rows ensures r == rows[0] || r == rows[1] {
    }
  }

  lemma {:induction false} AllBlank(rows: seq<Row>, dep: string, cfgs: seq<string>)
    requires forall c :: c in cfgs ==> ActiveRhs(rows, dep, c) == Some("")
    ensures FirstRhs(rows, dep, cfgs) == ""
  {
    if cfgs != [] {
      AllBlank(rows, dep, cfgs[1..]);
    }
  }

  // ----- where a right-hand side comes from

  predicate Maps(r: Row, guid: string, cfg: string) { r.kind == Active && r.guid == guid && r.cfg == cfg }

  /** The last active row of `guid` for `cfg` maps it to `v`. */
  ghost predicate MappedTo(rows: seq<Row>, guid: string, cfg: string, v: string) {
    exists k :: 0 <= k < |rows| && Maps(rows[k], guid, cfg) && rows[k].rhs == v && forall j :: k < j < |rows| ==> !Maps(rows[j], guid, cfg)
  }

  lemma {:induction false} ActiveRhsIsLast(rows: seq<Row>, guid: string, cfg: string, v: string)
    ensures ActiveRhs(rows, guid, cfg) == Some(v) <==> MappedTo(rows, guid, cfg, v)
  {
    if rows != [] {
      var n := |rows| - 1;
      ActiveRhsIsLast(rows[..n], guid, cfg, v);
      if Maps(rows[n], guid, cfg) {
        if MappedTo(rows, guid, cfg, v) {
          var k :| 0 <= k < |rows| && Maps(rows[k], guid, cfg) && rows[k].rhs == v && forall j :: k < j < |rows| ==> !Maps(rows[j], guid, cfg);
          assert k == n;
        }
      } else {
        LastIsEarlier(rows, guid, cfg, v);
      }
    }
  }

  lemma LastIsEarlier(rows: seq<Row>, guid: string, cfg: string, v: string)
    requires rows != [] && !Maps(rows[|rows| - 1], guid, cfg)
    ensures MappedTo(rows, guid, cfg, v) <==> MappedTo(rows[..|rows| - 1], guid, cfg, v)
  {
    hide Maps;
    var init := rows[..|rows| - 1];
    if MappedTo(rows, guid, cfg, v) {
      var k :| 0 <= k < |rows| && Maps(rows[k], guid, cfg) && rows[k].rhs == v && forall j :: k < j < |rows| ==> !Maps(rows[j], guid, cfg);
      assert init[k] == rows[k];
    }
    if MappedTo(init, guid, cfg, v) {
      var k :| 0 <= k < |init| && Maps(init[k], guid, cfg) && init[k].rhs == v && forall j :: k < j < |init| ==> !Maps(init[j], guid, cfg);
      assert rows[k] == init[k];
      forall j | k < j < |rows| ensures !Maps(rows[j], guid, cfg) {
        assert j < |init| ==> init[j] == rows[j];
      }
    }
  }

  /** `v` is what the least configuration with a mapping that is not blank is mapped to. */
  ghost predicate LeastMapping(rows: seq<Row>, guid: string, v: string) {
    v != "" && exists c :: MappedTo(rows, guid, c, v) && NoneBefore(rows, guid, c)
  }

  ghost predicate NoneBefore(rows: seq<Row>, guid: string, c: string) {
    forall d, u :: u != "" && MappedTo(rows, guid, d, u) ==> AtMost(c, d)
  }

  predicate Fills(rows: seq<Row>, guid: string, c: string) {
    ActiveRhs(rows, guid, c).Some? && ActiveRhs(rows, guid, c).value != ""
  }

  lemma {:induction false} FirstRhsIs(rows: seq<Row>, guid: string, cfgs: seq<string>)
    requires Sorted(cfgs)
    ensures FirstRhs(rows, guid, cfgs) == "" <==> forall c :: c in cfgs ==> !Fills(rows, guid, c)
    ensures FirstRhs(rows, guid, cfgs) != "" ==>
              exists c :: c in cfgs && ActiveRhs(rows, guid, c) == Some(FirstRhs(rows, guid, cfgs))
                       && forall d :: d in cfgs && Fills(rows, guid, d) ==> AtMost(c, d)
  {
    hide ActiveRhs, AtMost;
    if cfgs != [] {
      assert cfgs == [cfgs[0]] + cfgs[1..];
      if Fills(rows, guid, cfgs[0]) {
        forall d | d in cfgs ensures AtMost(cfgs[0], d) {
          var k :| 0 <= k < |cfgs| && cfgs[k] == d;
          FirstIsLeast(cfgs, k);
        }
      } else {
        SortedTail(cfgs);
        FirstRhsIs(rows, guid, cfgs[1..]);
        if FirstRhs(rows, guid, cfgs[1..]) != "" {
          var c :| c in cfgs[1..] && ActiveRhs(rows, guid, c) == Some(FirstRhs(rows, guid, cfgs[1..]))
                && forall d :: d in cfgs[1..] && Fills(rows, guid, d) ==> AtMost(c, d);
          assert c in cfgs;
        }
      }
    }
  }

  lemma SortedTail(xs: seq<string>)
    requires Sorted(xs) && xs != []
    ensures Sorted(xs[1..])
  {
  }

  lemma FallbackIs(rows: seq<Row>, guid: string)
    ensures var v := FirstRhs(rows, guid, SortedSet(ActiveConfigs(rows, guid)));
            && (v == "" <==> forall c, u :: MappedTo(rows, guid, c, u) ==> u == "")
            && (v != "" ==> LeastMapping(rows, guid, v))
  {
    var cfgs := SortedSet(ActiveConfigs(rows, guid));
    FirstRhsIs(rows, guid, cfgs);
    hide ActiveRhs, MappedTo, AtMost, FirstRhs, ActiveConfigs;
    forall c, u ensures MappedTo(rows, guid, c, u) <==> ActiveRhs(rows, guid, c) == Some(u) && c in cfgs {
      ActiveRhsIsLast(rows, guid, c, u);
      ActiveRhsIsARow(rows, guid, c);
    }
    var v := FirstRhs(rows, guid, cfgs);
    if v != "" {
      var c :| c in cfgs && ActiveRhs(rows, guid, c) == Some(v) && forall d :: d in cfgs && Fills(rows, guid, d) ==> AtMost(c, d);
      assert MappedTo(rows, guid, c, v);
      assert NoneBefore(rows, guid, c);
    } else {
      forall c, u | MappedTo(rows, guid, c, u) ensures u == "" {
        assert !Fills(rows, guid, c);
      }
    }
    if forall c, u :: MappedTo(rows, guid, c, u) ==> u == "" {
      forall c | c in cfgs ensures !Fills(rows, guid, c) {
        if ActiveRhs(rows, guid, c).Some? {
          assert MappedTo(rows, guid, c, ActiveRhs(rows, guid, c).value);
        }
      }
    }
  }

  /** A row the patch adds takes its right-hand side from the file: the project's own mapping for that
      configuration, else that of the least configuration with one, and the configuration's own name
      only when the file maps the project to nothing anywhere. */
  lemma AddedRowReads(rows: seq<Row>, target: string, deps: seq<Option<string>>, r: Row)
    requires r in Patched(rows, target, deps)[|rows|..]
    ensures if exists v :: v != "" && MappedTo(rows, r.guid, r.cfg, v) then MappedTo(rows, r.guid, r.cfg, r.rhs)
            else if exists c, v :: v != "" && MappedTo(rows, r.guid, c, v) then LeastMapping(rows, r.guid, r.rhs)
            else r.rhs == r.cfg
  {
    assert Patched(rows, target, deps)[|rows|..] == Inserted(rows, target, deps);
    BuildRowsRhs(rows, target, deps, r);
    FallbackIs(rows, r.guid);
    hide Inserted, ActiveRhs, MappedTo, FirstRhs, ActiveConfigs, LeastMapping;
    forall v ensures MappedTo(rows, r.guid, r.cfg, v) <==> ActiveRhs(rows, r.guid, r.cfg) == Some(v) {
      ActiveRhsIsLast(rows, r.guid, r.cfg, v);
    }
  }

  predicate Has(rows: seq<Row>, guid: string, cfg: string, kind: Kind) {
    exists r :: r in rows && r.guid == guid && r.cfg == cfg && r.kind == kind
  }

  /** A row is added for a listed dependency exactly where the target is built and the dependency, case
      and spaces aside, is not; an active row only where the file has none. */
  lemma AddedRowsAre(rows: seq<Row>, target: string, deps: seq<Option<string>>, guid: string, cfg: string, kind: Kind)
    ensures Has(Patched(rows, target, deps)[|rows|..], guid, cfg, kind) <==>
            && Some(guid) in deps
            && Has(rows, target, cfg, Build)
            && (forall c :: Has(rows, guid, c, Build) ==> CfgKey(c) != CfgKey(cfg))
            && (kind == Active ==> !Has(rows, guid, cfg, Active))
  {
    var more := Inserted(rows, target, deps);
    assert Patched(rows, target, deps)[|rows|..] == more;
    forall g, c ensures Has(rows, g, c, Build) <==> c in Enabled(rows, g) {
    }
    assert Has(rows, guid, cfg, Active) <==> cfg in ActiveConfigs(rows, guid);
    var r := Row(guid, cfg, kind, Rhs(rows, guid, cfg));
    hide CfgKey, Inserted, Rhs, ActiveConfigs, Enabled;
    InsertedAre(rows, target, deps, r);
    if Has(more, guid, cfg, kind) {
      var q :| q in more && q.guid == guid && q.cfg == cfg && q.kind == kind;
      BuildRowsRhs(rows, target, deps, q);
    }
  }

  /** Where two rows of one project stand: configurations in order, and the active row first. */
  predicate Before(r: Row, q: Row) {
    r.guid == q.guid ==> (r.cfg != q.cfg && AtMost(r.cfg, q.cfg)) || (r.cfg == q.cfg && r.kind == Active && q.kind == Build)
  }

  ghost predicate Ordered(rs: seq<Row>) { forall i, j :: 0 <= i < j < |rs| ==> Before(rs[i], rs[j]) }

  lemma OrderedConcat(a: seq<Row>, b: seq<Row>)
    requires Ordered(a) && Ordered(b)
    requires forall i, j :: 0 <= i < |a| && 0 <= j < |b| ==> Before(a[i], b[j])
    ensures Ordered(a + b)
  {
    hide Before;
    var rs := a + b;
    forall i, j | 0 <= i < j < |rs| ensures Before(rs[i], rs[j]) {
      assert i < |a| ==> rs[i] == a[i];
      assert j >= |a| ==> rs[j] == b[j - |a|];
    }
  }

  lemma NewRowsOrdered(rows: seq<Row>, guid: string, cfg: string)
    ensures Ordered(NewRows(rows, guid, cfg))
  {
    hide Rhs, AtMost;
  }

  lemma {:induction false} RowsOrdered(rows: seq<Row>, guid: string, cfgs: seq<string>)
    requires forall i, j :: 0 <= i < j < |cfgs| ==> AtMost(cfgs[i], cfgs[j]) && cfgs[i] != cfgs[j]
    ensures Ordered(RowsForConfigs(rows, guid, cfgs))
  {
    hide NewRows, AtMost;
    if cfgs != [] {
      var n := |cfgs| - 1;
      RowsOrdered(rows, guid, cfgs[..n]);
      NewRowsOrdered(rows, guid, cfgs[n]);
      var a, b := RowsForConfigs(rows, guid, cfgs[..n]), NewRows(rows, guid, cfgs[n]);
      forall i, j | 0 <= i < |a| && 0 <= j < |b| ensures Before(a[i], b[j]) {
        RowsForConfigsAre(rows, guid, cfgs[..n], a[i]);
        var c :| c in cfgs[..n] && a[i] in NewRows(rows, guid, c);
        var k :| 0 <= k < n && cfgs[k] == c;
        NewRowsAbout(rows, guid, c, a[i]);
        NewRowsAbout(rows, guid, cfgs[n], b[j]);
      }
      hide Ordered, RowsForConfigs;
      OrderedConcat(a, b);
    }
  }

  /** With each dependency listed once no row is added twice, and those of one dependency come in the
      order of their configurations, the active row of each before its build row. */
  lemma {:induction false} AddedRowsOrdered(rows: seq<Row>, target: string, deps: seq<Option<string>>)
    requires forall i, j :: 0 <= i < j < |deps| ==> deps[i] != deps[j] || deps[i].None?
    ensures Ordered(Patched(rows, target, deps)[|rows|..])
  {
    assert Patched(rows, target, deps)[|rows|..] == Inserted(rows, target, deps);
    InsertedOrdered(rows, target, deps);
  }

  lemma {:induction false} InsertedOrdered(rows: seq<Row>, target: string, deps: seq<Option<string>>)
    requires forall i, j :: 0 <= i < j < |deps| ==> deps[i] != deps[j] || deps[i].None?
    ensures Ordered(Inserted(rows, target, deps))
  {
    hide Disabled, RowsForConfigs, NewRows, Before;
    if deps != [] {
      var n := |deps| - 1;
      InsertedOrdered(rows, target, deps[..n]);
      if deps[n].Some? {
        var cfgs := SortedSet(Disabled(rows, target, deps[n].value));
        forall i, j | 0 <= i < j < |cfgs| ensures AtMost(cfgs[i], cfgs[j]) && cfgs[i] != cfgs[j] {
          SortedSetRises(Disabled(rows, target, deps[n].value), i, j);
        }
        RowsOrdered(rows, deps[n].value, cfgs);
        var a, b := Inserted(rows, target, deps[..n]), RowsForConfigs(rows, deps[n].value, cfgs);
        forall i, j | 0 <= i < |a| && 0 <= j < |b| ensures Before(a[i], b[j]) {
          OtherProject(rows, target, deps, cfgs, a[i], b[j]);
        }
        hide Ordered, Inserted;
        OrderedConcat(a, b);
      }
    }
  }

  lemma OtherProject(rows: seq<Row>, target: string, deps: seq<Option<string>>, cfgs: seq<string>, r: Row, q: Row)
    requires deps != [] && deps[|deps| - 1].Some?
    requires forall i, j :: 0 <= i < j < |deps| ==> deps[i] != deps[j] || deps[i].None?
    requires r in Inserted(rows, target, deps[..|deps| - 1])
    requires q in RowsForConfigs(rows, deps[|deps| - 1].value, cfgs)
    ensures Before(r, q)
  {
    hide Disabled, NewRows, Inserted, RowsForConfigs;
    var n := |deps| - 1;
    InsertedAre(rows, target, deps[..n], r);
    var k :| 0 <= k < n && deps[k] == Some(r.guid);
    RowsForConfigsAre(rows, deps[n].value, cfgs, q);
    var c :| c in cfgs && q in NewRows(rows, deps[n].value, c);
    NewRowsAbout(rows, deps[n].value, c, q);
    assert deps[k] != deps[n];
  }

  /** White space around a configuration's name does not tell it apart, and neither does what
      `Squeezed` takes out of it. */
  lemma CfgKeyIs(a: string, x: string, b: string)
    requires IsBlank(a) && IsBlank(b) && (x != "" ==> !IsSpace(x[0]) && !IsSpace(x[|x| - 1]))
    ensures CfgKey(a + x + b) == Squeezed(x)
  {
    TrimOf(a, x, b);
    hide Trim, Squeezed, IsSpace;
  }

  /** Byte by byte, a key is the trimmed configuration without its spaces and in lower case. */
  lemma {:induction false} SqueezedConcat(a: string, b: string)
    ensures Squeezed(a + b) == Squeezed(a) + Squeezed(b)
    ensures |a| == 1 ==> Squeezed(a) == if a[0] == ' ' then "" else if 'A' <= a[0] <= 'Z' then [(a[0] as int + 32) as char] else a
  {
    if a == "" {
      assert a + b == b;
    } else {
      assert (a + b)[1..] == a[1..] + b;
      SqueezedConcat(a[1..], b);
    }
  }

  /** Nothing but rows of listed dependencies is added. */
  lemma OnlyDependenciesTouched(rows: seq<Row>, target: string, deps: seq<Option<string>>, guid: string)
    requires Some(guid) !in deps
    ensures Enabled(Patched(rows, target, deps), guid) == Enabled(rows, guid)
    ensures forall cfg :: ActiveRhs(Patched(rows, target, deps), guid, cfg) == ActiveRhs(rows, guid, cfg)
  {
    var more := Inserted(rows, target, deps);
    forall r | r in more ensures r.guid != guid {
      InsertedAre(rows, target, deps, r);
    }
    EnabledOfConcat(rows, more, guid);
    forall cfg ensures ActiveRhs(Patched(rows, target, deps), guid, cfg) == ActiveRhs(rows, guid, cfg) {
      ActiveRhsOfConcat(rows, more, guid, cfg);
      ActiveRhsIsARow(more, guid, cfg);
    }
  }

  // ----- the loops

  /** parseSln's loop over the Build.0 rows. */
  method ParseBuildRows(rows: seq<Row>) returns (build: map<string, set<string>>)
    ensures forall g :: SetAt(build, g) == Enabled(rows, g)
  {
    build := map[];
    var i := 0;
    while i < |rows|
      invariant 0 <= i <= |rows|
      invariant forall g :: SetAt(build, g) == Enabled(rows[..i], g)
    {
      hide Enabled;
      var r := rows[i];
      BuildRowRead(rows, i);
      ghost var before := build;
      if r.kind == Build {
        build := build[r.guid := SetAt(build, r.guid) + {r.cfg}];
      }
      forall g ensures SetAt(build, g) == Enabled(rows[..i + 1], g) {
        assert SetAt(before, g) == Enabled(rows[..i], g);
      }
      i := i + 1;
    }
    assert rows[..i] == rows;
  }

  /** parseSln's loop over the ActiveCfg rows: a later row overwrites an earlier one. */
  method ParseActiveRows(rows: seq<Row>) returns (active: map<string, map<string, string>>)
    ensures forall g, c :: (c in MapAt(active, g) <==> ActiveRhs(rows, g, c).Some?)
    ensures forall g, c :: c in MapAt(active, g) ==> ActiveRhs(rows, g, c) == Some(MapAt(active, g)[c])
  {
    active := map[];
    var i := 0;
    while i < |rows|
      invariant 0 <= i <= |rows|
      invariant forall g, c :: (c in MapAt(active, g) <==> ActiveRhs(rows[..i], g, c).Some?)
      invariant forall g, c :: c in MapAt(active, g) ==> ActiveRhs(rows[..i], g, c) == Some(MapAt(active, g)[c])
    {
      hide ActiveRhs;
      var r := rows[i];
      ActiveRowRead(rows, i);
      if r.kind == Active {
        active := active[r.guid := MapAt(active, r.guid)[r.cfg := r.rhs]];
      }
      i := i + 1;
    }
    assert rows[..i] == rows;
  }

  function SetAt(m: map<string, set<string>>, k: string): set<string> { if k in m then m[k] else {} }

  function MapAt(m: map<string, map<string, string>>, k: string): map<string, string> { if k in m then m[k] else map[] }

  lemma BuildRowRead(rows: seq<Row>, i: nat)
    requires i < |rows|
    ensures forall g :: Enabled(rows[..i + 1], g) ==
              if rows[i].kind == Build && rows[i].guid == g then Enabled(rows[..i], g) + {rows[i].cfg} else Enabled(rows[..i], g)
  {
    assert rows[..i + 1] == rows[..i] + [rows[i]];
    forall g ensures Enabled(rows[..i + 1], g) ==
              if rows[i].kind == Build && rows[i].guid == g then Enabled(rows[..i], g) + {rows[i].cfg} else Enabled(rows[..i], g) {
      EnabledOfConcat(rows[..i], [rows[i]], g);
    }
  }

  lemma ActiveRowRead(rows: seq<Row>, i: nat)
    requires i < |rows|
    ensures forall g, c :: ActiveRhs(rows[..i + 1], g, c) ==
              if IsActive(rows[i], g, c) then Some(rows[i].rhs) else ActiveRhs(rows[..i], g, c)
  {
    assert rows[..i + 1][..i] == rows[..i];
  }

  /** builtConfigsForGUID. */
  method BuiltConfigs(build: map<string, set<string>>, guid: string) returns (cfgs: seq<string>)
    ensures cfgs == SortedSet(SetAt(build, guid))
  {
    var xs := Listing(SetAt(build, guid));
    SortOfListing(xs, SetAt(build, guid));
    cfgs := Sort(xs);
  }

  /** diffConfigs, on two listings without repetition. */
  method DiffConfigs(a: seq<string>, b: seq<string>, ghost sa: set<string>, ghost sb: set<string>)
    returns (out: seq<string>)
    requires multiset(a) == multiset(sa) && forall x :: x in b <==> x in sb
    ensures out == SortedSet(set c | c in sa && CfgKey(c) !in CfgKeys(sb))
  {
    var keys := ConfigKeys(b, sb);
    var kept := WithoutKeys(a, keys);
    KeptIsSet(a, sa, keys);
    SortOfListing(kept, set c | c in sa && CfgKey(c) !in keys);
    out := Sort(kept);
  }

  method ConfigKeys(b: seq<string>, ghost sb: set<string>) returns (keys: set<string>)
    requires forall x :: x in b <==> x in sb
    ensures keys == CfgKeys(sb)
  {
    hide CfgKey;
    keys := {};
    var j := 0;
    while j < |b|
      invariant 0 <= j <= |b|
      invariant keys == set x | x in b[..j] :: CfgKey(x)
    {
      assert b[..j + 1] == b[..j] + [b[j]];
      keys := keys + {CfgKey(b[j])};
      j := j + 1;
    }
    assert b[..j] == b;
    assert keys == CfgKeys(sb);
  }

  method WithoutKeys(a: seq<string>, keys: set<string>) returns (out: seq<string>)
    ensures multiset(out) == Kept(a, keys)
  {
    hide CfgKey, Kept;
    assert Kept(a[..0], keys) == multiset{} by { NoneKept(keys); }
    out := [];
    var i := 0;
    while i < |a|
      invariant 0 <= i <= |a|
      invariant multiset(out) == Kept(a[..i], keys)
    {
      KeptStep(a, i, keys);
      if CfgKey(a[i]) !in keys {
        out := out + [a[i]];
      }
      i := i + 1;
    }
    assert a[..i] == a;
  }

  ghost function Kept(a: seq<string>, keys: set<string>): multiset<string> {
    if a == [] then multiset{}
    else
      var n := |a| - 1;
      Kept(a[..n], keys) + if CfgKey(a[n]) !in keys then multiset{a[n]} else multiset{}
  }

  lemma NoneKept(keys: set<string>)
    ensures Kept([], keys) == multiset{}
  {
  }

  lemma KeptStep(a: seq<string>, i: nat, keys: set<string>)
    requires i < |a|
    ensures Kept(a[..i + 1], keys) == Kept(a[..i], keys) + if CfgKey(a[i]) !in keys then multiset{a[i]} else multiset{}
  {
    hide CfgKey;
    assert a[..i + 1][..i] == a[..i];
  }

  lemma {:induction false} KeptCounts(a: seq<string>, keys: set<string>, x: string)
    ensures Kept(a, keys)[x] == if CfgKey(x) !in keys then multiset(a)[x] else 0
  {
    hide CfgKey;
    if a != [] {
      var n := |a| - 1;
      KeptCounts(a[..n], keys, x);
      assert a == a[..n] + [a[n]];
      assert multiset(a) == multiset(a[..n]) + multiset{a[n]};
    }
  }

  lemma KeptIsSet(a: seq<string>, s: set<string>, keys: set<string>)
    requires multiset(a) == multiset(s)
    ensures Kept(a, keys) == multiset(set c | c in s && CfgKey(c) !in keys)
  {
    hide CfgKey;
    forall x ensures Kept(a, keys)[x] == multiset(set c | c in s && CfgKey(c) !in keys)[x] {
      KeptCounts(a, keys, x);
    }
  }

  lemma ActiveKeys(rows: seq<Row>, guid: string, active: map<string, string>)
    requires forall c :: c in active <==> ActiveRhs(rows, guid, c).Some?
    ensures active.Keys == ActiveConfigs(rows, guid)
  {
    forall c ensures c in active.Keys <==> c in ActiveConfigs(rows, guid) {
      ActiveRhsIsARow(rows, guid, c);
    }
  }

  /** The right-hand side for one configuration: its own mapping, else the first there is, else the
      configuration's own name. */
  method ChooseRhs(ghost rows: seq<Row>, guid: string, cfg: string, active: map<string, string>) returns (rhs: string)
    requires forall c :: c in active <==> ActiveRhs(rows, guid, c).Some?
    requires forall c :: c in active ==> ActiveRhs(rows, guid, c) == Some(active[c])
    ensures rhs == Rhs(rows, guid, cfg)
  {
    hide ActiveRhs, ActiveConfigs, FirstRhs;
    rhs := "";
    if cfg in active {
      rhs := active[cfg];
    }
    if rhs == "" {
      rhs := FirstMapped(rows, guid, active);
    }
    if rhs == "" {
      rhs := cfg;
    }
  }

  /** The deterministic fallback: the first mapping that is not blank, in configuration order. */
  method FirstMapped(ghost rows: seq<Row>, guid: string, active: map<string, string>) returns (rhs: string)
    requires forall c :: c in active <==> ActiveRhs(rows, guid, c).Some?
    requires forall c :: c in active ==> ActiveRhs(rows, guid, c) == Some(active[c])
    ensures rhs == FirstRhs(rows, guid, SortedSet(ActiveConfigs(rows, guid)))
  {
    hide ActiveRhs, ActiveConfigs, Sort;
    ActiveKeys(rows, guid, active);
    var listed := Listing(active.Keys);
    SortOfListing(listed, active.Keys);
    var keys := Sort(listed);
    var i := 0;
    assert keys[0..] == keys;
    while i < |keys|
      invariant 0 <= i <= |keys|
      invariant FirstRhs(rows, guid, keys) == FirstRhs(rows, guid, keys[i..])
    {
      assert keys[i] in SortedSet(active.Keys);
      assert keys[i..][1..] == keys[i + 1..];
      if active[keys[i]] != "" {
        return active[keys[i]];
      }
      i := i + 1;
    }
    return "";
  }

  /** The rows of one dependency. */
  method EnableDependency(rows: seq<Row>, guid: string, cfgs: seq<string>, enabled: set<string>,
    active: map<string, string>)
    returns (more: seq<Row>)
    requires enabled == Enabled(rows, guid)
    requires forall c :: c in active <==> ActiveRhs(rows, guid, c).Some?
    requires forall c :: c in active ==> ActiveRhs(rows, guid, c) == Some(active[c])
    ensures more == RowsForConfigs(rows, guid, cfgs)
  {
    ActiveKeys(rows, guid, active);
    hide ActiveRhs, ActiveConfigs, Enabled, NewRows;
    more := [];
    var i := 0;
    while i < |cfgs|
      invariant 0 <= i <= |cfgs| && more == RowsForConfigs(rows, guid, cfgs[..i])
    {
      var needed := EnableConfig(rows, guid, cfgs[i], enabled, active);
      assert cfgs[..i + 1][..i] == cfgs[..i];
      more := more + needed;
      i := i + 1;
    }
    assert cfgs[..i] == cfgs;
  }

  method EnableConfig(rows: seq<Row>, guid: string, cfg: string, enabled: set<string>, active: map<string, string>)
    returns (needed: seq<Row>)
    requires enabled == Enabled(rows, guid) && active.Keys == ActiveConfigs(rows, guid)
    requires forall c :: c in active <==> ActiveRhs(rows, guid, c).Some?
    requires forall c :: c in active ==> ActiveRhs(rows, guid, c) == Some(active[c])
    ensures needed == NewRows(rows, guid, cfg)
  {
    hide ActiveRhs, ActiveConfigs, Enabled, Rhs;
    needed := [];
    if cfg in enabled {
      return;
    }
    var rhs := ChooseRhs(rows, guid, cfg, active);
    if cfg !in active {
      needed := [Row(guid, cfg, Active, rhs)];
    }
    needed := needed + [Row(guid, cfg, Build, rhs)];
  }

  /** One dependency of the patch: its disabled configurations, and their rows. */
  method PatchDependency(rows: seq<Row>, target: string, guid: string, build: map<string, set<string>>,
    active: map<string, map<string, string>>)
    returns (more: seq<Row>)
    requires SetAt(build, target) == Enabled(rows, target) && SetAt(build, guid) == Enabled(rows, guid)
    requires forall c :: c in MapAt(active, guid) <==> ActiveRhs(rows, guid, c).Some?
    requires forall c :: c in MapAt(active, guid) ==> ActiveRhs(rows, guid, c) == Some(MapAt(active, guid)[c])
    ensures more == RowsForConfigs(rows, guid, SortedSet(Disabled(rows, target, guid)))
  {
    hide ActiveRhs, Enabled, CfgKeys, CfgKey, SetAt, MapAt, RowsForConfigs;
    var targetBuiltIn := BuiltConfigs(build, target);
    var depBuiltIn := BuiltConfigs(build, guid);
    var disabled := DiffConfigs(targetBuiltIn, depBuiltIn, SetAt(build, target), SetAt(build, guid));
    more := EnableDependency(rows, guid, disabled, SetAt(build, guid), MapAt(active, guid));
  }

  /** tryAutoEnableSlnBuildForDeps, with the disabled configurations findSlnsIncludingTarget finds for
      each dependency; the dependencies come in any order. */
  method TryAutoEnable(rows: seq<Row>, target: string, deps: seq<Option<string>>) returns (patched: seq<Row>)
    ensures patched == Patched(rows, target, deps) && rows <= patched
  {
    hide ActiveRhs, Enabled, SetAt, MapAt, RowsForConfigs, Disabled;
    var build := ParseBuildRows(rows);
    var active := ParseActiveRows(rows);
    var more: seq<Row> := [];
    var i := 0;
    while i < |deps|
      invariant 0 <= i <= |deps| && more == Inserted(rows, target, deps[..i])
    {
      assert deps[..i + 1][..i] == deps[..i];
      if deps[i].None? {
        assert more + [] == more;
        i := i + 1;
        continue;
      }
      var added := PatchDependency(rows, target, deps[i].value, build, active);
      more := more + added;
      i := i + 1;
    }
    assert deps[..i] == deps;
    return rows + more;
  }
}
