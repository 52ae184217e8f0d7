/** Staged schema upgrades: chains of steps guarded by the version reached so far, for the message,
    SIM and APN databases. */
module SchemaUpgrade {
  import opened Common
  import opened Schema
  import opened SchemaVersions
  import opened SchemaScripts

  const ALL_WELL := Favourites(true, true)

  /** Steps `from` up to but not including `until`, all succeeding. */
  function RunSteps(chain: Chain, s: Schema, from: nat, until: nat): Schema
    requires from <= until
  {
    if from == until then s else StepSchema(chain, until - 1, RunSteps(chain, s, from, until - 1), ALL_WELL)
  }

  function Forced(chain: Chain, s: Schema, oldVersion: nat, newVersion: nat): Schema {
    if chain.messages && oldVersion < 6 && newVersion >= 6 then Exec(s, CreateTable(RcsInfo, FORCED_RCS_COLUMNS)) else s
  }

  function Clip(chain: Chain, version: nat): nat {
    if version < FIRST_STEP then FIRST_STEP - 1
    else if version > chain.Last() then chain.Last() else version
  }

  /** The schema after a whole upgrade. */
  function Upgraded(chain: Chain, s: Schema, oldVersion: nat, newVersion: nat): Schema
    requires oldVersion <= newVersion
  {
    RunSteps(chain, Forced(chain, s, oldVersion, newVersion), Clip(chain, oldVersion) + 1, Clip(chain, newVersion) + 1)
  }

  // ---------------------------------------------------------------- path independence

  lemma {:induction false} RunStepsSplit(chain: Chain, s: Schema, from: nat, mid: nat, until: nat)
    requires from <= mid <= until
    ensures RunSteps(chain, RunSteps(chain, s, from, mid), mid, until) == RunSteps(chain, s, from, until)
    decreases until
  {
    if mid != until {
      RunStepsSplit(chain, s, from, mid, until - 1);
    }
  }

  predicate EarlyDdl(ddl: Ddl) {
    ddl.AddColumn? && (ddl.table == RcsInfo ==> ddl.column in FORCED_RCS_COLUMNS)
  }

  function Force(s: Schema): Schema {
    Exec(s, CreateTable(RcsInfo, FORCED_RCS_COLUMNS))
  }

  lemma ForceCommutesWithDdl(s: Schema, ddl: Ddl)
    requires EarlyDdl(ddl)
    ensures Exec(Force(s), ddl) == Force(Exec(s, ddl))
  {
    if ddl.table == RcsInfo && RcsInfo !in s.tables {
      assert FORCED_RCS_COLUMNS + {ddl.column} == FORCED_RCS_COLUMNS;
      assert Force(s).tables[RcsInfo := FORCED_RCS_COLUMNS] == Force(s).tables;
    } else {
      assert Exec(Force(s), ddl).tables == Force(Exec(s, ddl)).tables;
    }
  }

  lemma {:induction false} ForceCommutesWithAll(s: Schema, ddls: seq<Ddl>)
    requires forall d :: d in ddls ==> EarlyDdl(d)
    ensures ExecAll(Force(s), ddls) == Force(ExecAll(s, ddls))
    decreases |ddls|
  {
    if ddls != [] {
      ForceCommutesWithDdl(s, ddls[0]);
      ForceCommutesWithAll(Exec(s, ddls[0]), ddls[1..]);
    }
  }

  /** Creating rcs_info first commutes with the steps before version 6: they add no column to it that
      the forced table lacks, and fail without effect while there is no table. */
  lemma {:induction false} ForceCommutesWithSteps(s: Schema, from: nat, until: nat)
    requires FIRST_STEP <= from <= until <= 6
    ensures RunSteps(SmsChain(), Force(s), from, until) == Force(RunSteps(SmsChain(), s, from, until))
  {
    if from != until {
      ForceCommutesWithSteps(s, from, until - 1);
      var k := until - 1;
      assert k == 2 || k == 3 || k == 4 || k == 5;
      ForceCommutesWithAll(RunSteps(SmsChain(), s, from, k), SmsScript(k));
    }
  }

  /** The case in which the table is forced only in the second go. */
  lemma ForcedInSecondGo(s: Schema, from: nat, mid: nat, until: nat)
    requires FIRST_STEP <= from <= mid <= 6 && mid <= until
    ensures RunSteps(SmsChain(), Force(RunSteps(SmsChain(), s, from, mid)), mid, until) ==
      RunSteps(SmsChain(), Force(s), from, until)
  {
    ForceCommutesWithSteps(s, from, mid);
    RunStepsSplit(SmsChain(), Force(s), from, mid, until);
  }

  /** Upgrading in two goes, or in one, ends in the same tables, columns and components. */
  lemma UpgradePathIndependence(chain: Chain, s: Schema, a: nat, b: nat, c: nat)
    requires a <= b <= c && (chain == SmsChain() || !chain.messages)
    ensures Upgraded(chain, Upgraded(chain, s, a, b), b, c) == Upgraded(chain, s, a, c)
  {
    var from, mid, until := Clip(chain, a) + 1, Clip(chain, b) + 1, Clip(chain, c) + 1;
    if chain.messages && b < 6 && c >= 6 {
      assert chain == SmsChain();
      ForcedInSecondGo(s, from, mid, until);
    } else {
      RunStepsSplit(chain, Forced(chain, s, a, b), from, mid, until);
    }
  }

  lemma SimPathIndependence(s: Schema, a: nat, b: nat, c: nat)
    requires a <= b <= c
    ensures Upgraded(SimChain(), Upgraded(SimChain(), s, a, b), b, c) == Upgraded(SimChain(), s, a, c)
  {
    UpgradePathIndependence(SimChain(), s, a, b, c);
  }

  lemma PdpPathIndependence(s: Schema, a: nat, b: nat, c: nat)
    requires a <= b <= c
    ensures Upgraded(PdpChain(), Upgraded(PdpChain(), s, a, b), b, c) == Upgraded(PdpChain(), s, a, c)
  {
    UpgradePathIndependence(PdpChain(), s, a, b, c);
  }

  // ---------------------------------------------------------------- the guarded chain

  /** Where an upgrade stands: the schema, the version reached, the steps it executed. */
  datatype Progress = Progress(schema: Schema, version: nat, executed: seq<nat>)

  /** The guards of the steps below `k`, one after another.  A step that fails does not advance the
      version, yet the next guard still passes. */
  function Chained(chain: Chain, s: Schema, oldVersion: nat, newVersion: nat, favs: nat -> Favourites,
      k: nat): Progress {
    if k <= FIRST_STEP then Progress(s, oldVersion, [])
    else
      var p := Chained(chain, s, oldVersion, newVersion, favs, k - 1);
      if p.version < k - 1 && newVersion >= k - 1 then
        Progress(StepSchema(chain, k - 1, p.schema, favs(k - 1)),
                 if StepSucceeds(chain, k - 1, p.schema, favs(k - 1)) then k - 1 else p.version,
                 p.executed + [k - 1])
      else p
  }

  predicate FailsAt(chain: Chain, s: Schema, oldVersion: nat, newVersion: nat, favs: nat -> Favourites, k: nat) {
    !StepSucceeds(chain, k, Chained(chain, s, oldVersion, newVersion, favs, k).schema, favs(k))
  }

  /** Whatever fails on the way, exactly the steps in (old, new] run, in order, and only a failure of
      the step to `new` itself is reported. */
  lemma {:induction false} ChainOutcome(chain: Chain, s: Schema, oldVersion: nat, newVersion: nat,
      favs: nat -> Favourites, k: nat)
    requires oldVersion < newVersion && FIRST_STEP <= k
    ensures var p := Chained(chain, s, oldVersion, newVersion, favs, k);
      var first := if oldVersion < FIRST_STEP then FIRST_STEP else oldVersion + 1;
      var last := if newVersion < k then newVersion else k - 1;
      |p.executed| == (if last < first then 0 else last + 1 - first) &&
      (forall i | 0 <= i < |p.executed| :: p.executed[i] == first + i) &&
      (p.version == oldVersion || FIRST_STEP <= p.version < k) && oldVersion <= p.version <= newVersion &&
      (p.version == newVersion <==>
        FIRST_STEP <= newVersion < k && !FailsAt(chain, s, oldVersion, newVersion, favs, newVersion))
  {
    if k > FIRST_STEP {
      ChainOutcome(chain, s, oldVersion, newVersion, favs, k - 1);
    }
  }

  /** Without favourites no step fails: the SIM database reaches every version from 2 to 5, and the APN
      database every one from 2 to 4, and no other. */
  lemma SimAndPdpOutcome(s: Schema, oldVersion: nat, newVersion: nat, favs: nat -> Favourites)
    requires oldVersion < newVersion
    ensures Chained(SimChain(), s, oldVersion, newVersion, favs, 6).version == newVersion <==> 2 <= newVersion <= 5
    ensures Chained(PdpChain(), s, oldVersion, newVersion, favs, 5).version == newVersion <==> 2 <= newVersion <= 4
    ensures |Chained(SimChain(), s, oldVersion, newVersion, favs, 6).executed| ==
      Clip(SimChain(), newVersion) - Clip(SimChain(), oldVersion)
    ensures |Chained(PdpChain(), s, oldVersion, newVersion, favs, 5).executed| ==
      Clip(PdpChain(), newVersion) - Clip(PdpChain(), oldVersion)
  {
    hide SimScript, PdpScript, Chained;
    ChainOutcome(SimChain(), s, oldVersion, newVersion, favs, 6);
    ChainOutcome(PdpChain(), s, oldVersion, newVersion, favs, 5);
  }

  /** A guard lets exactly the steps in (old, new] through. */
  lemma ChainStep(chain: Chain, s: Schema, oldVersion: nat, newVersion: nat, favs: nat -> Favourites, k: nat)
    requires oldVersion < newVersion && FIRST_STEP <= k
    ensures var before := Chained(chain, s, oldVersion, newVersion, favs, k).schema;
      Chained(chain, s, oldVersion, newVersion, favs, k + 1).schema ==
        if oldVersion < k <= newVersion then StepSchema(chain, k, before, favs(k)) else before
  {
    hide StepSchema, StepSucceeds;
    ChainOutcome(chain, s, oldVersion, newVersion, favs, k);
  }

  /** With the favourites steps succeeding, the guarded chain is the plain sequence of steps. */
  lemma {:induction false} ChainRunsSteps(chain: Chain, s: Schema, oldVersion: nat, newVersion: nat,
      favs: nat -> Favourites, k: nat)
    requires oldVersion < newVersion && FIRST_STEP <= k <= chain.Last() + 1
    requires forall j: nat :: favs(j) == ALL_WELL
    ensures var from := Clip(chain, oldVersion) + 1;
      Chained(chain, s, oldVersion, newVersion, favs, k).schema ==
        RunSteps(chain, s, from, if k <= from then from else if newVersion < k then Clip(chain, newVersion) + 1 else k)
  {
    hide StepSchema;
    if k > FIRST_STEP {
      ChainRunsSteps(chain, s, oldVersion, newVersion, favs, k - 1);
      ChainStep(chain, s, oldVersion, newVersion, favs, k - 1);
      assert favs(k - 1) == ALL_WELL;
    }
  }

  /** The whole guarded chain, with the favourites steps succeeding, is the plain upgrade. */
  lemma ChainUpgrades(chain: Chain, s: Schema, oldVersion: nat, newVersion: nat, favs: nat -> Favourites)
    requires oldVersion < newVersion && forall j: nat :: favs(j) == ALL_WELL
    ensures Chained(chain, Forced(chain, s, oldVersion, newVersion), oldVersion, newVersion, favs,
      chain.Last() + 1).schema ==
      Upgraded(chain, s, oldVersion, newVersion)
  {
    ChainRunsSteps(chain, Forced(chain, s, oldVersion, newVersion), oldVersion, newVersion, favs, chain.Last() + 1);
  }

  // ---------------------------------------------------------------- what an upgrade brings

  function Least(a: nat, b: nat): nat {
    if a < b then a else b
  }

  /** Whatever the favourites steps do: below step `k` a table has gained what the versions so far bring. */
  lemma {:induction false} ChainGains(chain: Chain, s: Schema, oldVersion: nat, newVersion: nat,
      favs: nat -> Favourites, k: nat, t: TableName)
    requires oldVersion < newVersion && FIRST_STEP <= k && Alters(chain, t) && t in s.tables
    ensures Gains(s, Chained(chain, s, oldVersion, newVersion, favs, k).schema, t, oldVersion, Least(newVersion, k - 1))
  {
    hide Gains, StepSchema, Alters, StepSucceeds;
    if k == FIRST_STEP {
      GainsNone(s, t, oldVersion, 1);
    } else {
      var before := Chained(chain, s, oldVersion, newVersion, favs, k - 1).schema;
      ChainGains(chain, s, oldVersion, newVersion, favs, k - 1, t);
      ChainStep(chain, s, oldVersion, newVersion, favs, k - 1);
      if oldVersion < k - 1 <= newVersion {
        GainedIn(s, before, t, oldVersion, k - 2);
        StepGains(chain, k - 1, before, favs(k - 1), t);
        GainsThen(s, before, StepSchema(chain, k - 1, before, favs(k - 1)), t, oldVersion, k - 2, k - 1);
      } else if k - 1 <= oldVersion {
        GainedNothing(s, before, t, oldVersion, k - 2, k - 1);
      }
    }
  }

  lemma GainsTableThen(before: Schema, mid: Schema, after: Schema, t: TableName, a: nat, k: nat,
      favs: nat -> Favourites)
    requires a < k && GainsTable(before, mid, t, a, k - 1, favs)
    requires t in after.tables <==>
      t in mid.tables || (TableBroughtAt(t, k) && (t == FavorateInfo ==> favs(k).createOk))
    ensures GainsTable(before, after, t, a, k, favs)
  {
    hide TableBroughtAt;
    assert Passes(a, k, k);
    forall v: nat ensures Passes(a, v, k) <==> Passes(a, v, k - 1) || v == k {}
  }

  lemma {:induction false} ChainTables(s: Schema, oldVersion: nat, newVersion: nat, favs: nat -> Favourites, k: nat,
      t: TableName)
    requires oldVersion < newVersion && FIRST_STEP <= k
    ensures GainsTable(s, Chained(SmsChain(), s, oldVersion, newVersion, favs, k).schema, t, oldVersion,
      Least(newVersion, k - 1), favs)
  {
    hide StepSchema, StepSucceeds, TableBroughtAt, BringsTable;
    if k == FIRST_STEP {
      NoTableBrought(t, oldVersion, 1, favs);
    } else {
      var before := Chained(SmsChain(), s, oldVersion, newVersion, favs, k - 1).schema;
      ChainTables(s, oldVersion, newVersion, favs, k - 1, t);
      ChainStep(SmsChain(), s, oldVersion, newVersion, favs, k - 1);
      if oldVersion < k - 1 <= newVersion {
        StepTables(k - 1, before, favs(k - 1), t);
        GainsTableThen(s, before, StepSchema(SmsChain(), k - 1, before, favs(k - 1)), t, oldVersion, k - 1, favs);
      } else if k - 1 <= oldVersion {
        NoTableBrought(t, oldVersion, k - 2, favs);
        NoTableBrought(t, oldVersion, k - 1, favs);
      }
    }
  }

  lemma NoTableBrought(t: TableName, a: nat, b: nat, favs: nat -> Favourites)
    requires b <= a || b == 1
    ensures !BringsTable(t, a, b, favs)
  {}

  lemma GainsComponentThen(before: Schema, mid: Schema, after: Schema, c: Component, a: nat, k: nat)
    requires a < k && GainsComponent(before, mid, c, a, k - 1) && GainsComponent(mid, after, c, k - 1, k)
    requires (RebuiltAt(c, 22) ==> 22 < k) ==> (Buildable(after, c) <==> Buildable(mid, c))
    ensures GainsComponent(before, after, c, a, k)
  {
    hide Buildable;
    assert Passes(k - 1, k, k) && Passes(a, k, k);
    assert Untouched(c, k - 1, k) <==> !MayTouch(c, k);
    assert Rebuilt(c, k - 1, k) <==> RebuiltAt(c, k);
    forall v: nat ensures Passes(a, v, k) <==> Passes(a, v, k - 1) || v == k {}
    if Rebuilt(c, a, k) && !RebuiltAt(c, k) {
      var v: nat :| Passes(a, v, k) && RebuiltAt(c, v);
      assert Passes(a, v, k - 1);
      assert Rebuilt(c, a, k - 1);
      ViewBuildable(mid);
      ViewBuildable(after);
    }
  }

  lemma UntouchedGains(s: Schema, c: Component, a: nat, b: nat)
    requires b <= a || b == 1
    ensures Untouched(c, a, b) && !Rebuilt(c, a, b) && !Passes(a, 33, b)
  {}

  lemma {:induction false} ChainComponents(s: Schema, oldVersion: nat, newVersion: nat, favs: nat -> Favourites,
      k: nat, c: Component)
    requires oldVersion < newVersion && FIRST_STEP <= k
    ensures GainsComponent(s, Chained(SmsChain(), s, oldVersion, newVersion, favs, k).schema, c, oldVersion,
      Least(newVersion, k - 1))
  {
    hide StepSchema, StepSucceeds, Buildable, RebuiltAt, Untouched, Rebuilt;
    if k == FIRST_STEP {
      UntouchedGains(s, c, oldVersion, 1);
    } else {
      var before := Chained(SmsChain(), s, oldVersion, newVersion, favs, k - 1).schema;
      ChainComponents(s, oldVersion, newVersion, favs, k - 1, c);
      ChainStep(SmsChain(), s, oldVersion, newVersion, favs, k - 1);
      if oldVersion < k - 1 <= newVersion {
        StepComponents(k - 1, before, favs(k - 1), c);
        if RebuiltAt(c, 22) ==> 22 < k - 1 { StepKeepsBuildable(k - 1, before, favs(k - 1), c); }
        GainsComponentThen(s, before, StepSchema(SmsChain(), k - 1, before, favs(k - 1)), c, oldVersion, k - 1);
      } else if k - 1 <= oldVersion {
        UntouchedGains(s, c, oldVersion, k - 2);
        UntouchedGains(s, c, oldVersion, k - 1);
      }
    }
  }

  /** The columns with which rcs_info is created where it is missing: those of version 4, and one that
      comes back later. */
  lemma ForcedColumns()
    ensures FORCED_RCS_COLUMNS ==
      FIRST_RCS_INFO + {IsAdvancedSecurity, IsCollect, ReceiveState, FailReceiveContext, MsgId}
  {}

  /** After an upgrade from any schema an altered table has the columns it had, rcs_info if it was missing
      those it is created with, and exactly those that the versions in between have brought. */
  lemma UpgradeGains(chain: Chain, s: Schema, oldVersion: nat, newVersion: nat, favs: nat -> Favourites, t: TableName)
    requires oldVersion < newVersion && Alters(chain, t)
    ensures var forced := Forced(chain, s, oldVersion, newVersion);
      var after := Chained(chain, forced, oldVersion, newVersion, favs, chain.Last() + 1).schema;
      t in forced.tables ==> Gains(forced, after, t, oldVersion, newVersion)
  {
    var forced := Forced(chain, s, oldVersion, newVersion);
    hide Chained, Gains, Alters;
    if t in forced.tables {
      ChainGains(chain, forced, oldVersion, newVersion, favs, chain.Last() + 1, t);
      AltersLast(chain, t);
      if newVersion > chain.Last() {
        GainsNoMore(forced, Chained(chain, forced, oldVersion, newVersion, favs, chain.Last() + 1).schema, t,
          oldVersion, newVersion);
      }
    }
  }

  lemma AltersLast(chain: Chain, t: TableName)
    requires Alters(chain, t)
    ensures chain.Last() == if t == SimInfo then 5 else if t == PdpProfile then 4 else 35
    ensures IsAltered(t) || t == SimInfo || t == PdpProfile
  {}

  /** An upgrade from version to version: whatever its favourites steps do, a table with the columns of the
      old version ends with those of the new one. */
  lemma UpgradeReachesVersion(s: Schema, oldVersion: nat, newVersion: nat, favs: nat -> Favourites, t: TableName)
    requires 1 <= oldVersion < newVersion && IsAltered(t) && t in s.tables && s.tables[t] == ColumnsAt(t, oldVersion)
    ensures var after := Chained(SmsChain(), Forced(SmsChain(), s, oldVersion, newVersion), oldVersion, newVersion,
      favs, 36).schema;
      t in after.tables && after.tables[t] == ColumnsAt(t, newVersion)
  {
    var forced := Forced(SmsChain(), s, oldVersion, newVersion);
    UpgradeGains(SmsChain(), s, oldVersion, newVersion, favs, t);
    var after := Chained(SmsChain(), forced, oldVersion, newVersion, favs, 36).schema;
    assert forced.tables[t] == s.tables[t];
    GainedIn(forced, after, t, oldVersion, newVersion);
    hide Chained, Forced, FreshColumns, FirstColumns, BroughtAt, BroughtAgain;
    forall c ensures c in after.tables[t] <==> c in ColumnsAt(t, newVersion) {
      PassesTwice(BroughtAt(t, c), BroughtAgain(t, c), 1, oldVersion, newVersion);
      AgainIsLater(t, c);
      if BroughtAt(t, c) != 0 { BroughtIsFresh(t, c); }
    }
  }

  /** A table from before the first step: with the columns of the first version, or more of the last. */
  predicate FirstVersion(s: Schema, t: TableName) {
    if t in s.tables then FirstColumns(t) <= s.tables[t] <= FreshColumns(t) else t == RcsInfo
  }

  /** A first-version table, once upgraded, has exactly the columns of a fresh install. */
  lemma UpgradeReachesFreshColumns(s: Schema, t: TableName)
    requires IsAltered(t) && FirstVersion(s, t)
    ensures t in Upgraded(SmsChain(), s, 1, 35).tables
    ensures Upgraded(SmsChain(), s, 1, 35).tables[t] == FreshColumns(t)
  {
    var chain := SmsChain();
    var favs := (k: nat) => ALL_WELL;
    var forced := Forced(chain, s, 1, 35);
    assert t in forced.tables && FirstColumns(t) <= forced.tables[t] <= FreshColumns(t) by { ForcedColumns(); }
    UpgradeGains(chain, s, 1, 35, favs, t);
    ChainUpgrades(chain, s, 1, 35, favs);
    LastIsFresh(t);
    GainedIn(forced, Upgraded(chain, s, 1, 35), t, 1, 35);
    hide Chained, Forced, Upgraded, FreshColumns, FirstColumns, Brings;
    forall c ensures c in Upgraded(chain, s, 1, 35).tables[t] <==> c in FreshColumns(t) {}
  }

  lemma NoTableLater(t: TableName, a: nat, b: nat, favs: nat -> Favourites)
    requires b >= 35
    ensures BringsTable(t, a, b, favs) <==> BringsTable(t, a, 35, favs)
  {
    forall v: nat | TableBroughtAt(t, v) ensures Passes(a, v, b) <==> Passes(a, v, 35) {}
  }

  lemma UpgradeTables(s: Schema, oldVersion: nat, newVersion: nat, favs: nat -> Favourites, t: TableName)
    requires oldVersion < newVersion
    ensures var after := Chained(SmsChain(), s, oldVersion, newVersion, favs, 36).schema;
      GainsTable(s, after, t, oldVersion, newVersion, favs)
  {
    hide Chained;
    ChainTables(s, oldVersion, newVersion, favs, 36, t);
    if newVersion > 35 { NoTableLater(t, oldVersion, newVersion, favs); }
  }

  lemma NoComponentLater(c: Component, a: nat, b: nat)
    requires b >= 35
    ensures Rebuilt(c, a, b) <==> Rebuilt(c, a, 35)
    ensures Untouched(c, a, b) <==> Untouched(c, a, 35)
    ensures Passes(a, 33, b) <==> Passes(a, 33, 35)
  {
    forall v: nat | MayTouch(c, v) ensures Passes(a, v, b) <==> Passes(a, v, 35) {}
    forall v: nat | RebuiltAt(c, v) ensures Passes(a, v, b) <==> Passes(a, v, 35) {}
  }

  lemma UpgradeComponents(s: Schema, oldVersion: nat, newVersion: nat, favs: nat -> Favourites, c: Component)
    requires oldVersion < newVersion
    ensures var after := Chained(SmsChain(), s, oldVersion, newVersion, favs, 36).schema;
      GainsComponent(s, after, c, oldVersion, newVersion)
  {
    hide Chained, Rebuilt, Untouched, Buildable;
    ChainComponents(s, oldVersion, newVersion, favs, 36, c);
    if newVersion > 35 { NoComponentLater(c, oldVersion, newVersion); }
  }

  /** The message database as the steps of an upgrade find it: with an rcs_info table. */
  function WithRcsInfo(s: Schema, oldVersion: nat, newVersion: nat): Schema {
    if oldVersion < 6 <= newVersion && RcsInfo !in s.tables
    then s.(tables := s.tables[RcsInfo := FORCED_RCS_COLUMNS]) else s
  }

  /** Columns, tables, and the view, triggers and indexes are those that the versions in between bring. */
  ghost predicate MessagesUpgraded(before: Schema, after: Schema, a: nat, b: nat, favs: nat -> Favourites) {
    (forall t :: IsAltered(t) && t in before.tables ==> Gains(before, after, t, a, b)) &&
    (forall t :: GainsTable(before, after, t, a, b, favs)) &&
    forall c :: GainsComponent(before, after, c, a, b)
  }

  /** The step to the new version creates and fills the favourites, if it is such a step and their table is
      not there before or since version 23. */
  predicate FavouritesWork(s: Schema, oldVersion: nat, newVersion: nat, favs: nat -> Favourites) {
    (newVersion == 23 && FavorateInfo !in s.tables ==> favs(23).createOk && favs(23).fillOk) &&
    (newVersion == 34 && FavorateInfo !in s.tables && !(oldVersion < 23 && favs(23).createOk) ==>
      favs(34).createOk && favs(34).fillOk)
  }

  lemma ForcedIsWithRcsInfo(s: Schema, oldVersion: nat, newVersion: nat)
    ensures Forced(SmsChain(), s, oldVersion, newVersion) == WithRcsInfo(s, oldVersion, newVersion)
  {}

  lemma MessagesAreUpgraded(s: Schema, oldVersion: nat, newVersion: nat, favs: nat -> Favourites)
    requires oldVersion < newVersion
    ensures var forced := Forced(SmsChain(), s, oldVersion, newVersion);
      forced == WithRcsInfo(s, oldVersion, newVersion) &&
      MessagesUpgraded(forced, Chained(SmsChain(), forced, oldVersion, newVersion, favs, 36).schema, oldVersion,
        newVersion, favs)
  {
    var forced := Forced(SmsChain(), s, oldVersion, newVersion);
    ForcedIsWithRcsInfo(s, oldVersion, newVersion);
    hide Forced, WithRcsInfo, Chained, Gains, GainsTable, GainsComponent;
    var after := Chained(SmsChain(), forced, oldVersion, newVersion, favs, 36).schema;
    forall t | IsAltered(t) && t in forced.tables ensures Gains(forced, after, t, oldVersion, newVersion) {
      UpgradeGains(SmsChain(), s, oldVersion, newVersion, favs, t);
    }
    forall t ensures GainsTable(forced, after, t, oldVersion, newVersion, favs) {
      UpgradeTables(forced, oldVersion, newVersion, favs, t);
    }
    forall c ensures GainsComponent(forced, after, c, oldVersion, newVersion) {
      UpgradeComponents(forced, oldVersion, newVersion, favs, c);
    }
  }

  lemma FavouritesBrought(a: nat, b: nat, favs: nat -> Favourites)
    requires b == 22 || b == 33
    ensures BringsTable(FavorateInfo, a, b, favs) <==> b == 33 && a < 23 && favs(23).createOk
  {
    assert Passes(a, 23, 33) <==> a < 23;
  }

  /** Exactly when the last step of an upgrade of the message database succeeds. */
  lemma LastStepSucceedsIff(s: Schema, oldVersion: nat, newVersion: nat, favs: nat -> Favourites)
    requires oldVersion < newVersion && FIRST_STEP <= newVersion
    ensures !FailsAt(SmsChain(), s, oldVersion, newVersion, favs, newVersion) <==>
      FavouritesWork(s, oldVersion, newVersion, favs)
  {
    hide Chained, BringsTable;
    if newVersion == 23 || newVersion == 34 {
      ChainTables(s, oldVersion, newVersion, favs, newVersion, FavorateInfo);
      FavouritesBrought(oldVersion, newVersion - 1, favs);
    }
  }

  /** What an upgrade of each database ends with. */
  ghost predicate UpgradedTo(chain: Chain, s: Schema, oldVersion: nat, newVersion: nat, favs: nat -> Favourites,
      after: Schema, ok: bool) {
    (chain == SmsChain() ==>
      MessagesUpgraded(WithRcsInfo(s, oldVersion, newVersion), after, oldVersion, newVersion, favs) &&
      (ok <==> 2 <= newVersion <= 35 && FavouritesWork(s, oldVersion, newVersion, favs))) &&
    (chain == SimChain() ==>
      (SimInfo in s.tables ==> Gains(s, after, SimInfo, oldVersion, newVersion)) && (ok <==> 2 <= newVersion <= 5)) &&
    (chain == PdpChain() ==>
      (PdpProfile in s.tables ==> Gains(s, after, PdpProfile, oldVersion, newVersion)) &&
      (ok <==> 2 <= newVersion <= 4))
  }

  lemma UpgradeOutcome(chain: Chain, s: Schema, oldVersion: nat, newVersion: nat, favs: nat -> Favourites)
    requires oldVersion < newVersion
    ensures var forced := Forced(chain, s, oldVersion, newVersion);
      UpgradedTo(chain, s, oldVersion, newVersion, favs,
        Chained(chain, forced, oldVersion, newVersion, favs, chain.Last() + 1).schema,
        FIRST_STEP <= newVersion <= chain.Last() && !FailsAt(chain, forced, oldVersion, newVersion, favs, newVersion))
  {
    hide Chained, Gains, MessagesUpgraded, FailsAt, FavouritesWork;
    var forced := Forced(chain, s, oldVersion, newVersion);
    if chain == SmsChain() {
      MessagesAreUpgraded(s, oldVersion, newVersion, favs);
      if FIRST_STEP <= newVersion { LastStepSucceedsIff(forced, oldVersion, newVersion, favs); }
      FavouritesForced(s, oldVersion, newVersion, favs);
    } else if chain == SimChain() {
      UpgradeGains(chain, s, oldVersion, newVersion, favs, SimInfo);
      NoFavourites(chain, s, oldVersion, newVersion, favs);
    } else if chain == PdpChain() {
      UpgradeGains(chain, s, oldVersion, newVersion, favs, PdpProfile);
      NoFavourites(chain, s, oldVersion, newVersion, favs);
    }
  }

  lemma FavouritesForced(s: Schema, oldVersion: nat, newVersion: nat, favs: nat -> Favourites)
    ensures FavouritesWork(Forced(SmsChain(), s, oldVersion, newVersion), oldVersion, newVersion, favs) <==>
      FavouritesWork(s, oldVersion, newVersion, favs)
  {}

  lemma NoFavourites(chain: Chain, s: Schema, oldVersion: nat, newVersion: nat, favs: nat -> Favourites)
    requires !chain.messages
    ensures !FailsAt(chain, s, oldVersion, newVersion, favs, newVersion)
  {}

  /** The upgrade callback of each database; the thirty-four guarded calls of the message chain are
      one loop over the step number here.  Only the message database asks for a backup. */
  class UpgradeCallback {
    const chain: Chain
    var schema: Schema
    ghost var executed: seq<nat>
    var needBackup: bool

    constructor (chain: Chain, schema: Schema)
      ensures this.chain == chain && this.schema == schema && !needBackup
    {
      this.chain, this.schema, needBackup := chain, schema, false;
      executed := [];
    }

    /** One guarded step; it yields the version reached. */
    method VersionUpTo(k: nat, oldVersion: nat, newVersion: nat, fav: Favourites) returns (version: nat)
      modifies this`schema, this`executed
      ensures oldVersion < k <= newVersion ==> schema == StepSchema(chain, k, old(schema), fav)
      ensures oldVersion < k <= newVersion ==> executed == old(executed) + [k]
      ensures !(oldVersion < k <= newVersion) ==> schema == old(schema) && executed == old(executed)
      ensures version == if oldVersion < k <= newVersion &&
        StepSucceeds(chain, k, old(schema), fav) then k else oldVersion
    {
      if !(oldVersion < k && newVersion >= k) {
        return oldVersion;
      }
      executed := executed + [k];
      if Skipped(chain, k, schema) {
        return k;
      }
      if IsFavouritesStep(chain, k) {
        if !fav.createOk {
          return oldVersion;
        }
        schema := ExecAll(schema, chain.script(k));
        return if fav.fillOk then k else oldVersion;
      }
      schema := ExecAll(schema, chain.script(k));
      return k;
    }

    method OnUpgrade(oldVersion: nat, newVersion: nat, favs: nat -> Favourites) returns (ret: int)
      requires oldVersion < newVersion
      modifies this
      ensures var forced := Forced(chain, old(schema), oldVersion, newVersion);
        schema == Chained(chain, forced, oldVersion, newVersion, favs, chain.Last() + 1).schema &&
        (ret == E_OK <==>
          FIRST_STEP <= newVersion <= chain.Last() && !FailsAt(chain, forced, oldVersion, newVersion, favs, newVersion))
      ensures |executed| == Clip(chain, newVersion) - Clip(chain, oldVersion)
      ensures forall i :: 0 <= i < |executed| ==> executed[i] == Clip(chain, oldVersion) + 1 + i
      ensures (forall j: nat :: favs(j) == ALL_WELL) ==> schema == Upgraded(chain, old(schema), oldVersion, newVersion)
      ensures needBackup <==> ret == E_OK
      ensures UpgradedTo(chain, old(schema), oldVersion, newVersion, favs, schema, ret == E_OK)
    {
      hide StepSchema, StepSucceeds, UpgradedTo, Forced;
      executed := [];
      schema := Forced(chain, schema, oldVersion, newVersion);
      ghost var forced := schema;
      var version := oldVersion;
      for k := FIRST_STEP to chain.Last() + 1
        invariant Progress(schema, version, executed) == Chained(chain, forced, oldVersion, newVersion, favs, k)
      {
        ChainOutcome(chain, forced, oldVersion, newVersion, favs, k);
        version := VersionUpTo(k, version, newVersion, favs(k));
      }
      ChainOutcome(chain, forced, oldVersion, newVersion, favs, chain.Last() + 1);
      if forall j: nat :: favs(j) == ALL_WELL {
        ChainUpgrades(chain, old(schema), oldVersion, newVersion, favs);
      }
      UpgradeOutcome(chain, old(schema), oldVersion, newVersion, favs);
      needBackup := version == newVersion;
      ret := if version == newVersion then E_OK else E_ERROR;
    }
  }
}
