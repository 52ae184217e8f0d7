/** The repair pass that runs whenever the message database is opened: it restores missing tables,
    then completes columns, triggers, the view and indexes. */
module OpenRepair {
  import opened Common
  import opened Schema

  const CHECKED_TABLES: set<TableName> :=
    {SmsMmsInfo, SmsSubsection, RcsInfo, MmsPdu, MmsPart, Session, SpecificChatbots, FavorateInfo, Chatbots}

  const TRIGGERS: set<Component> := {InsertSmsTrigger, InsertRcsTrigger, UpdateBlockSmsTrigger, UpdateBlockRcsTrigger}
  const RETIRED: set<Component> := {UpdateSmsTrigger, UpdateRcsTrigger}
  const INDEXES: set<Component> := {SessionTimeIndex, SmsSessionIndex, RcsSessionIndex}

  /** The columns that the pass adds where they are missing. */
  function RepairedColumns(t: TableName): set<Column> {
    match t
    case SmsMmsInfo => {BlockedPrefNumber}
    case RcsInfo => {BlockedPrefNumber}
    case Session => {BlockedType, PinningTime}
    case MmsPart => {IsFraud, ReferenceCount}
    case _ => {}
  }

  // The script of a fresh database, in three parts.
  const MESSAGE_TABLES: seq<Ddl> :=
    [Table(SmsMmsInfo), Table(MmsProtocol), Table(RcsInfo), Table(SmsSubsection), Table(MmsPart), Table(Session),
     Table(MmsPdu), Table(RiskUrlRecord)]

  const COMPONENTS: seq<Ddl> :=
    [Create(MmsInfoView), Create(InsertSmsTrigger), Create(InsertRcsTrigger), Create(UpdateBlockSmsTrigger),
     Create(UpdateBlockRcsTrigger), Drop(RcsSessionIndex), Create(RcsSessionIndex), Drop(SmsSessionIndex),
     Create(SmsSessionIndex), Drop(SessionTimeIndex), Create(SessionTimeIndex)]

  const LATER_TABLES: seq<Ddl> := [Table(FavorateInfo), Table(Chatbots), Table(SpecificChatbots), Table(Smc)]

  function CreateTableVec(): seq<Ddl> {
    MESSAGE_TABLES + COMPONENTS + LATER_TABLES
  }

  // ---------------------------------------------------------------- what the pass does when no statement fails

  predicate Complete(s: Schema) {
    CHECKED_TABLES <= s.tables.Keys
  }

  predicate HasField(s: Schema, t: TableName, c: Column) {
    t in s.tables && c in s.tables[t]
  }

  function WithField(s: Schema, t: TableName, c: Column): Schema {
    if HasField(s, t, c) then s
    else if t == SmsMmsInfo || t == RcsInfo then
      Exec(Exec(Exec(s, AddColumn(t, c)), Drop(MmsInfoView)), Create(MmsInfoView))
    else Exec(s, AddColumn(t, c))
  }

  function WithFields(s: Schema): Schema {
    var s1 := WithField(s, SmsMmsInfo, BlockedPrefNumber);
    var s2 := WithField(s1, RcsInfo, BlockedPrefNumber);
    var s3 := WithField(s2, Session, BlockedType);
    var s4 := WithField(s3, MmsPart, IsFraud);
    var s5 := WithField(s4, MmsPart, ReferenceCount);
    WithField(s5, Session, PinningTime)
  }

  function With(s: Schema, c: Component): Schema {
    if c in s.components then s else Exec(s, Create(c))
  }

  function Without(s: Schema, c: Component): Schema {
    if c in s.components then Exec(s, Drop(c)) else s
  }

  function WithTriggers(s: Schema): Schema {
    var created := With(With(With(With(s, InsertSmsTrigger), InsertRcsTrigger), UpdateBlockSmsTrigger),
      UpdateBlockRcsTrigger);
    Without(Without(created, UpdateSmsTrigger), UpdateRcsTrigger)
  }

  function WithComponents(s: Schema): Schema {
    With(With(With(With(WithTriggers(s), MmsInfoView), SessionTimeIndex), SmsSessionIndex), RcsSessionIndex)
  }

  function Restored(s: Schema): Schema {
    if Complete(s) then s else ExecAll(s, CreateTableVec())
  }

  function Opened(s: Schema): Schema {
    WithComponents(WithFields(Restored(s)))
  }

  // ---------------------------------------------------------------- what the pass is for

  predicate Repaired(s: Schema) {
    CHECKED_TABLES <= s.tables.Keys &&
    (forall t <- CHECKED_TABLES :: RepairedColumns(t) <= s.tables[t]) &&
    TRIGGERS <= s.components && MmsInfoView in s.components && INDEXES <= s.components && s.components !! RETIRED
  }

  /** No table that is there already lacks a column of one of the indexes. */
  predicate Repairable(s: Schema) {
    forall c <- INDEXES :: Fits(s, c)
  }

  predicate Fits(s: Schema, c: Component) {
    forall t <- BuiltOn(c).Keys :: t in s.tables ==> BuiltOn(c)[t] <= s.tables[t]
  }

  // ---------------------------------------------------------------- the three parts of the script

  predicate IsTable(ddl: Ddl) {
    ddl.CreateTable? && ddl.columns == FreshColumns(ddl.table)
  }

  predicate IsComponent(ddl: Ddl) {
    ddl.Create? || ddl.Drop?
  }

  lemma {:induction false} TablesCreated(s: Schema, ddls: seq<Ddl>, t: TableName)
    requires forall d :: d in ddls ==> IsTable(d)
    ensures var after := ExecAll(s, ddls);
      after.components == s.components &&
      (t in after.tables <==> t in s.tables || Table(t) in ddls) &&
      (t in after.tables ==> after.tables[t] == if t in s.tables then s.tables[t] else FreshColumns(t))
    decreases |ddls|
  {
    if ddls != [] {
      assert ddls[0] in ddls;
      TablesCreated(Exec(s, ddls[0]), ddls[1..], t);
      assert Table(t) in ddls <==> Table(t) == ddls[0] || Table(t) in ddls[1..];
    }
  }

  lemma {:induction false} ComponentUntouched(s: Schema, ddls: seq<Ddl>, c: Component)
    requires forall d :: d in ddls ==> IsComponent(d)
    ensures var after := ExecAll(s, ddls);
      after.tables == s.tables &&
      (c in s.components && Drop(c) !in ddls ==> c in after.components) &&
      (c !in s.components && (Create(c) !in ddls || !Buildable(s, c)) ==> c !in after.components)
    decreases |ddls|
  {
    if ddls != [] {
      assert ddls[0] in ddls;
      ComponentUntouched(Exec(s, ddls[0]), ddls[1..], c);
    }
  }

  /** What the script creates last decides: it is there afterwards if it can be built, and otherwise
      only if it was there and the script did not drop it. */
  lemma {:induction false} ComponentCreated(s: Schema, ddls: seq<Ddl>, c: Component, k: nat)
    requires forall d :: d in ddls ==> IsComponent(d)
    requires k < |ddls| && ddls[k] == Create(c) && Drop(c) !in ddls[k + 1..]
    ensures Buildable(s, c) ==> c in ExecAll(s, ddls).components
    ensures !Buildable(s, c) && Drop(c) in ddls ==> c !in ExecAll(s, ddls).components
    decreases |ddls|
  {
    var next := Exec(s, ddls[0]);
    assert ddls[0] in ddls;
    ComponentUntouched(next, ddls[1..], c);
    if k > 0 {
      assert ddls[1..][k..] == ddls[k + 1..];
      ComponentCreated(next, ddls[1..], c, k - 1);
    }
  }

  /** A script that creates tables, then components, then more tables, from any schema. */
  lemma ScriptOutcome(s: Schema, first: seq<Ddl>, components: seq<Ddl>, later: seq<Ddl>, t: TableName)
    requires forall d :: d in first || d in later ==> IsTable(d)
    requires forall d :: d in components ==> IsComponent(d)
    ensures var middle := ExecAll(s, first);
      var after := ExecAll(s, first + components + later);
      after.components == ExecAll(middle, components).components &&
      (t in after.tables <==> t in s.tables || Table(t) in first || Table(t) in later) &&
      (t in after.tables ==> after.tables[t] == if t in s.tables then s.tables[t] else FreshColumns(t)) &&
      (t in middle.tables <==> t in s.tables || Table(t) in first) &&
      (t in middle.tables ==> middle.tables[t] == if t in s.tables then s.tables[t] else FreshColumns(t))
  {
    ExecAllConcat(s, first, components);
    ExecAllConcat(s, first + components, later);
    var middle := ExecAll(s, first);
    TablesCreated(s, first, t);
    ComponentUntouched(middle, components, MmsInfoView);
    TablesCreated(ExecAll(middle, components), later, t);
  }

  lemma ScriptParts()
    ensures forall d :: d in MESSAGE_TABLES || d in LATER_TABLES ==> IsTable(d)
    ensures forall d :: d in COMPONENTS ==> IsComponent(d)
  {}

  lemma CheckedAreCreated(t: TableName)
    requires t in CHECKED_TABLES
    ensures Table(t) in MESSAGE_TABLES || Table(t) in LATER_TABLES
    ensures t in {SmsMmsInfo, RcsInfo, Session} ==> Table(t) in MESSAGE_TABLES
  {
    assert MESSAGE_TABLES[0] == Table(SmsMmsInfo) && MESSAGE_TABLES[2] == Table(RcsInfo);
    assert MESSAGE_TABLES[3] == Table(SmsSubsection) && MESSAGE_TABLES[4] == Table(MmsPart);
    assert MESSAGE_TABLES[5] == Table(Session) && MESSAGE_TABLES[6] == Table(MmsPdu);
    assert LATER_TABLES[0] == Table(FavorateInfo) && LATER_TABLES[1] == Table(Chatbots);
    assert LATER_TABLES[2] == Table(SpecificChatbots);
  }

  lemma RestoredTables(s: Schema, t: TableName)
    ensures t in s.tables || (!Complete(s) && t in CHECKED_TABLES) ==> t in Restored(s).tables
    ensures t in Restored(s).tables ==> Restored(s).tables[t] == if t in s.tables then s.tables[t] else FreshColumns(t)
  {
    ScriptParts();
    ScriptOutcome(s, MESSAGE_TABLES, COMPONENTS, LATER_TABLES, t);
    if t in CHECKED_TABLES { CheckedAreCreated(t); }
  }

  lemma IndexPosition(c: Component) returns (k: nat)
    requires c in INDEXES
    ensures k < |COMPONENTS| && COMPONENTS[k] == Create(c) && Drop(c) !in COMPONENTS[k + 1..] && Drop(c) in COMPONENTS
  {
    k := if c == RcsSessionIndex then 6 else if c == SmsSessionIndex then 8 else 10;
    assert COMPONENTS[k - 1] == Drop(c);
  }

  lemma ScriptIndex(s: Schema, first: seq<Ddl>, components: seq<Ddl>, later: seq<Ddl>, c: Component, k: nat)
    requires forall d :: d in first || d in later ==> IsTable(d)
    requires forall d :: d in components ==> IsComponent(d)
    requires c in INDEXES && forall t <- BuiltOn(c).Keys :: Table(t) in first
    requires k < |components| && components[k] == Create(c) && Drop(c) !in components[k + 1..] && Drop(c) in components
    ensures c in ExecAll(s, first + components + later).components <==> Fits(s, c)
  {
    var middle := ExecAll(s, first);
    forall t <- BuiltOn(c).Keys
      ensures t in middle.tables && middle.tables[t] == if t in s.tables then s.tables[t] else FreshColumns(t)
    {
      ScriptOutcome(s, first, components, later, t);
    }
    ScriptOutcome(s, first, components, later, Session);
    IndexIsFresh(c);
    assert Buildable(middle, c) <==> Fits(s, c);
    ComponentCreated(middle, components, c, k);
  }

  lemma IndexIsFresh(c: Component)
    requires c in INDEXES
    ensures forall t <- BuiltOn(c).Keys :: BuiltOn(c)[t] <= FreshColumns(t) && t in {SmsMmsInfo, RcsInfo, Session}
  {}

  /** An index is there after the script exactly if its table had its columns or was missing. */
  lemma RestoredIndex(s: Schema, c: Component)
    requires !Complete(s) && c in INDEXES
    ensures c in Restored(s).components <==> Fits(s, c)
  {
    ScriptParts();
    forall t <- BuiltOn(c).Keys ensures Table(t) in MESSAGE_TABLES {
      IndexIsFresh(c);
      CheckedAreCreated(t);
    }
    var k := IndexPosition(c);
    ScriptIndex(s, MESSAGE_TABLES, COMPONENTS, LATER_TABLES, c, k);
  }

  // ---------------------------------------------------------------- the completion of columns and components

  lemma FieldOutcome(s: Schema, t: TableName, c: Column)
    requires t in s.tables
    ensures WithField(s, t, c).tables == s.tables[t := s.tables[t] + {c}]
    ensures s.components <= WithField(s, t, c).components <= s.components + {MmsInfoView}
  {
    if HasField(s, t, c) {
      assert s.tables[t] + {c} == s.tables[t];
    }
  }

  lemma FieldsOutcome(s: Schema, t: TableName)
    requires SmsMmsInfo in s.tables && RcsInfo in s.tables && Session in s.tables && MmsPart in s.tables
    ensures t in WithFields(s).tables <==> t in s.tables
    ensures t in s.tables ==> WithFields(s).tables[t] == s.tables[t] + RepairedColumns(t)
    ensures s.components <= WithFields(s).components <= s.components + {MmsInfoView}
  {
    var s1 := WithField(s, SmsMmsInfo, BlockedPrefNumber);
    var s2 := WithField(s1, RcsInfo, BlockedPrefNumber);
    var s3 := WithField(s2, Session, BlockedType);
    var s4 := WithField(s3, MmsPart, IsFraud);
    var s5 := WithField(s4, MmsPart, ReferenceCount);
    FieldOutcome(s, SmsMmsInfo, BlockedPrefNumber);
    FieldOutcome(s1, RcsInfo, BlockedPrefNumber);
    FieldOutcome(s2, Session, BlockedType);
    FieldOutcome(s3, MmsPart, IsFraud);
    FieldOutcome(s4, MmsPart, ReferenceCount);
    FieldOutcome(s5, Session, PinningTime);
  }

  lemma TriggersOutcome(s: Schema)
    requires SmsMmsInfo in s.tables && RcsInfo in s.tables
    ensures WithTriggers(s) == s.(components := s.components + TRIGGERS - RETIRED)
  {
    CreatedTrigger(s, InsertSmsTrigger);
    var s1 := With(s, InsertSmsTrigger);
    CreatedTrigger(s1, InsertRcsTrigger);
    var s2 := With(s1, InsertRcsTrigger);
    CreatedTrigger(s2, UpdateBlockSmsTrigger);
    var s3 := With(s2, UpdateBlockSmsTrigger);
    CreatedTrigger(s3, UpdateBlockRcsTrigger);
    var s4 := With(s3, UpdateBlockRcsTrigger);
    assert s4 == s.(components := s.components + TRIGGERS);
    assert Without(s4, UpdateSmsTrigger) == s4.(components := s4.components - {UpdateSmsTrigger});
  }

  lemma CreatedTrigger(s: Schema, c: Component)
    requires SmsMmsInfo in s.tables && RcsInfo in s.tables && c in TRIGGERS
    ensures With(s, c) == s.(components := s.components + {c})
  {
    if c in s.components {
      assert s.components + {c} == s.components;
    }
  }

  lemma ComponentsOutcome(s: Schema)
    requires SmsMmsInfo in s.tables && RcsInfo in s.tables
    ensures WithComponents(s).tables == s.tables
    ensures WithComponents(s).components ==
      (s.components + TRIGGERS - RETIRED + {MmsInfoView}) + (set c | c in INDEXES && Buildable(s, c))
  {
    TriggersOutcome(s);
  }

  lemma RestoredIsComplete(s: Schema)
    ensures Complete(Restored(s))
  {
    forall t | t in CHECKED_TABLES ensures t in Restored(s).tables {
      RestoredTables(s, t);
    }
  }

  lemma CompletionOutcome(r: Schema, t: TableName, c: Component)
    requires Complete(r)
    ensures var after := WithComponents(WithFields(r));
      (t in after.tables <==> t in r.tables) &&
      (t in r.tables ==> after.tables[t] == r.tables[t] + RepairedColumns(t)) &&
      (c in TRIGGERS || c == MmsInfoView ==> c in after.components) &&
      (c in RETIRED ==> c !in after.components) &&
      (c in INDEXES ==> (c in after.components <==> c in r.components || Buildable(WithFields(r), c)))
  {
    hide WithFields, WithComponents;
    FieldsOutcome(r, t);
    FieldsOutcome(r, SmsMmsInfo);
    FieldsOutcome(r, RcsInfo);
    ComponentsOutcome(WithFields(r));
  }

  /** The columns that the pass adds are not those of an index. */
  lemma FieldsKeepFit(r: Schema, c: Component)
    requires Complete(r) && c in INDEXES
    ensures Buildable(WithFields(r), c) <==> Fits(r, c)
  {
    IndexIsFresh(c);
    forall t <- BuiltOn(c).Keys ensures BuiltOn(c)[t] !! RepairedColumns(t) {}
    FieldsOutcome(r, SmsMmsInfo);
    FieldsOutcome(r, RcsInfo);
    FieldsOutcome(r, Session);
  }

  lemma RestoredFits(s: Schema, c: Component)
    requires c in INDEXES
    ensures Fits(Restored(s), c) <==> Fits(s, c)
  {
    IndexIsFresh(c);
    forall t <- BuiltOn(c).Keys ensures t in s.tables ==>
      t in Restored(s).tables && Restored(s).tables[t] == s.tables[t] {
      RestoredTables(s, t);
    }
    RestoredTables(s, SmsMmsInfo);
    RestoredTables(s, RcsInfo);
    RestoredTables(s, Session);
  }

  /** What opening the database does to each table and each component. */
  lemma OpenedTable(s: Schema, t: TableName)
    ensures Complete(Opened(s))
    ensures t in s.tables ==> t in Opened(s).tables && Opened(s).tables[t] == s.tables[t] + RepairedColumns(t)
    ensures t in Opened(s).tables && t !in s.tables ==> Opened(s).tables[t] == FreshColumns(t)
  {
    var r := Restored(s);
    RestoredIsComplete(s);
    forall u ensures u in Opened(s).tables <==> u in r.tables { CompletionOutcome(r, u, MmsInfoView); }
    CompletionOutcome(r, t, MmsInfoView);
    RestoredTables(s, t);
    RepairedIsFresh(t);
  }

  lemma RepairedIsFresh(t: TableName)
    ensures FreshColumns(t) + RepairedColumns(t) == FreshColumns(t)
  {}

  lemma OpenedComponent(s: Schema, c: Component)
    ensures c in TRIGGERS || c == MmsInfoView ==> c in Opened(s).components
    ensures c in RETIRED ==> c !in Opened(s).components
    ensures c in INDEXES ==> (c in Opened(s).components <==> Fits(s, c) || (Complete(s) && c in s.components))
  {
    var r := Restored(s);
    RestoredIsComplete(s);
    CompletionOutcome(r, Session, c);
    if c in INDEXES {
      FieldsKeepFit(r, c);
      RestoredFits(s, c);
      if !Complete(s) { RestoredIndex(s, c); }
    }
  }

  /** From any schema, opening repairs everything exactly if each index can be built, or is there
      already in a database that has all its tables. */
  lemma OpenRepairsIff(s: Schema)
    ensures Repaired(Opened(s)) <==> forall c <- INDEXES :: Fits(s, c) || (Complete(s) && c in s.components)
  {
    OpenedTable(s, Session);
    forall t | t in CHECKED_TABLES ensures RepairedColumns(t) <= Opened(s).tables[t] {
      OpenedTable(s, t);
      RepairedIsFresh(t);
    }
    forall c: Component ensures
      (c in TRIGGERS || c == MmsInfoView ==> c in Opened(s).components) && (c in RETIRED ==> c !in Opened(s).components)
    {
      OpenedComponent(s, c);
    }
    forall c <- INDEXES ensures c in Opened(s).components <==> Fits(s, c) || (Complete(s) && c in s.components) {
      OpenedComponent(s, c);
    }
  }

  /** A second opening changes no schema, repaired or not. */
  lemma OpenIsIdempotent(s: Schema)
    ensures Opened(Opened(s)) == Opened(s)
  {
    var o := Opened(s);
    var again := Opened(o);
    OpenedTable(s, Session);
    assert Restored(o) == o;
    forall t: TableName ensures t in again.tables <==> t in o.tables
      ensures t in o.tables ==> again.tables[t] == o.tables[t]
    {
      OpenedTable(s, t);
      RepairedIsFresh(t);
      CompletionOutcome(o, t, MmsInfoView);
    }
    assert again.tables == o.tables;
    forall c: Component ensures c in again.components <==> c in o.components {
      OpenedComponent(s, c);
      OpenedComponent(o, c);
      if c in INDEXES && c !in o.components { UnbuiltStaysUnfit(s, c); }
    }
  }

  lemma FitsBefore(s: Schema, o: Schema, c: Component, t: TableName)
    requires c in INDEXES && t in BuiltOn(c) && t in s.tables && t in o.tables
    requires o.tables[t] == s.tables[t] + RepairedColumns(t) && Fits(o, c)
    ensures BuiltOn(c)[t] <= s.tables[t]
  {
    assert BuiltOn(c)[t] !! RepairedColumns(t);
  }

  lemma UnbuiltStaysUnfit(s: Schema, c: Component)
    requires c in INDEXES && c !in Opened(s).components
    ensures !Fits(Opened(s), c)
  {
    var o := Opened(s);
    OpenedComponent(s, c);
    if Fits(o, c) {
      forall t <- BuiltOn(c).Keys | t in s.tables ensures BuiltOn(c)[t] <= s.tables[t] {
        OpenedTable(s, t);
        FitsBefore(s, o, c, t);
      }
    }
  }

  // ---------------------------------------------------------------- the pass, table by table

  /** The nine tables that the pass looks for. */
  predicate HasAllTables(s: Schema) {
    SmsMmsInfo in s.tables && SmsSubsection in s.tables && RcsInfo in s.tables && MmsPdu in s.tables &&
    MmsPart in s.tables && Session in s.tables && SpecificChatbots in s.tables && FavorateInfo in s.tables &&
    Chatbots in s.tables
  }

  predicate HasLateColumns(s: Schema)
    requires HasAllTables(s)
  {
    BlockedPrefNumber in s.tables[SmsMmsInfo] && BlockedPrefNumber in s.tables[RcsInfo] &&
    BlockedType in s.tables[Session] && PinningTime in s.tables[Session] &&
    IsFraud in s.tables[MmsPart] && ReferenceCount in s.tables[MmsPart]
  }

  predicate HasComponents(s: Schema) {
    MmsInfoView in s.components && InsertSmsTrigger in s.components && InsertRcsTrigger in s.components &&
    UpdateBlockSmsTrigger in s.components && UpdateBlockRcsTrigger in s.components &&
    UpdateSmsTrigger !in s.components && UpdateRcsTrigger !in s.components
  }

  /** The table, if it was there, had the columns of its index. */
  predicate Had(s: Schema, t: TableName, columns: set<Column>) {
    t in s.tables ==> columns <= s.tables[t]
  }

  /** The index can be built, or is there in a database that lacks no table. */
  predicate Indexed(s: Schema, c: Component, t: TableName, columns: set<Column>) {
    Had(s, t, columns) || (HasAllTables(s) && c in s.components)
  }

  /** What an opening in which all goes well makes of a database: all tables, the columns of the late
      versions, the triggers and the view, and the indexes where they can be built. */
  predicate Restores(before: Schema, after: Schema) {
    HasAllTables(after) && HasLateColumns(after) && HasComponents(after) &&
    (!HasAllTables(before) ==> MmsProtocol in after.tables && RiskUrlRecord in after.tables && Smc in after.tables) &&
    (SessionTimeIndex in after.components <==> Indexed(before, SessionTimeIndex, Session, {Time, SmsType})) &&
    (SmsSessionIndex in after.components <==>
      Indexed(before, SmsSessionIndex, SmsMmsInfo, {SessionId, IsBlocked, SmsType})) &&
    (RcsSessionIndex in after.components <==> Indexed(before, RcsSessionIndex, RcsInfo, {SessionId, IsBlocked}))
  }

  lemma CompleteIsAll(s: Schema)
    ensures Complete(s) <==> HasAllTables(s)
  {}

  lemma RestoresTables(s: Schema)
    ensures !Complete(s) ==>
      MmsProtocol in Opened(s).tables && RiskUrlRecord in Opened(s).tables && Smc in Opened(s).tables
  {
    if !Complete(s) {
      ScriptParts();
      assert MESSAGE_TABLES[1] == Table(MmsProtocol) && MESSAGE_TABLES[7] == Table(RiskUrlRecord);
      assert LATER_TABLES[3] == Table(Smc);
      RestoredIsComplete(s);
      forall t | t in {MmsProtocol, RiskUrlRecord, Smc} ensures t in Opened(s).tables {
        ScriptOutcome(s, MESSAGE_TABLES, COMPONENTS, LATER_TABLES, t);
        CompletionOutcome(Restored(s), t, MmsInfoView);
      }
    }
  }

  lemma RestoresColumns(s: Schema)
    ensures HasAllTables(Opened(s)) && HasLateColumns(Opened(s))
  {
    OpenedTable(s, Session);
    CompleteIsAll(Opened(s));
    forall t | t in CHECKED_TABLES ensures RepairedColumns(t) <= Opened(s).tables[t] {
      OpenedTable(s, t);
      RepairedIsFresh(t);
    }
  }

  lemma IndexFits(s: Schema)
    ensures Fits(s, SessionTimeIndex) <==> Had(s, Session, {Time, SmsType})
    ensures Fits(s, SmsSessionIndex) <==> Had(s, SmsMmsInfo, {SessionId, IsBlocked, SmsType})
    ensures Fits(s, RcsSessionIndex) <==> Had(s, RcsInfo, {SessionId, IsBlocked})
  {}

  lemma OpenRestores(s: Schema)
    ensures Restores(s, Opened(s))
  {
    hide Opened, Fits, Had, Complete, HasLateColumns;
    CompleteIsAll(s);
    RestoresTables(s);
    RestoresColumns(s);
    IndexFits(s);
    forall c ensures c in TRIGGERS || c == MmsInfoView ==> c in Opened(s).components
      ensures c in RETIRED ==> c !in Opened(s).components
      ensures c in INDEXES ==> (c in Opened(s).components <==> Fits(s, c) || (Complete(s) && c in s.components))
    {
      OpenedComponent(s, c);
    }
  }

  // ---------------------------------------------------------------- openings in which statements or queries fail

  /** No table and no column is lost, and a new table has at least the columns of a fresh one. */
  predicate Grown(s: Schema, after: Schema) {
    (forall t <- s.tables.Keys :: t in after.tables && s.tables[t] <= after.tables[t]) &&
    (forall t <- after.tables.Keys :: t !in s.tables ==> FreshColumns(t) <= after.tables[t]) &&
    (forall c <- s.components :: c in after.components || c in RETIRED || c in INDEXES || c == MmsInfoView)
  }

  lemma GrownThen(s: Schema, mid: Schema, after: Schema)
    requires Grown(s, mid) && Grown(mid, after)
    ensures Grown(s, after)
  {}

  lemma RepairedHasFields(s: Schema)
    requires Repaired(s)
    ensures HasField(s, SmsMmsInfo, BlockedPrefNumber) && HasField(s, RcsInfo, BlockedPrefNumber)
    ensures HasField(s, Session, BlockedType) && HasField(s, Session, PinningTime)
    ensures HasField(s, MmsPart, IsFraud) && HasField(s, MmsPart, ReferenceCount)
  {}

  lemma RepairedKeepsTriggers(s: Schema)
    requires Repaired(s)
    ensures WithTriggers(s) == s
  {}

  lemma GrownItself(s: Schema)
    ensures Grown(s, s)
  {}

  /** A repaired database is complete, and completing it changes nothing. */
  lemma RepairedStays(s: Schema)
    requires Repaired(s)
    ensures Complete(s) && WithFields(s) == s && WithComponents(s) == s
  {
    RepairedHasFields(s);
    RepairedKeepsTriggers(s);
  }

  predicate Growing(ddl: Ddl) {
    match ddl
    case CreateTable(t, columns) => FreshColumns(t) <= columns
    case AddColumn(_, _) => true
    case DropColumn(_, _) => false
    case Create(_) => true
    case Drop(c) => c in RETIRED || c in INDEXES || c == MmsInfoView
  }

  lemma GrowingGrows(s: Schema, ddl: Ddl)
    requires Growing(ddl)
    ensures Grown(s, Exec(s, ddl)) && Grown(s, s)
  {}

  lemma FitsStays(s: Schema, after: Schema, c: Component)
    requires Grown(s, after) && c in INDEXES && Fits(s, c)
    ensures Fits(after, c)
  {
    IndexIsFresh(c);
  }

  /** Openings that went wrong any way they can, of a schema that one opening would have repaired, stand in
      the way of one in which all goes well only if they dropped an index that cannot be built again. */
  lemma FailedOpensHeal(s: Schema, after: Schema)
    requires Grown(s, after)
    requires forall c <- INDEXES :: Fits(s, c) || (Complete(s) && c in s.components)
    ensures Repaired(Opened(after)) <==> forall c <- INDEXES :: Fits(after, c) || c in after.components
    ensures Repairable(s) ==> Repairable(after) && Repaired(Opened(after))
  {
    forall c <- INDEXES | Fits(s, c) ensures Fits(after, c) {
      FitsStays(s, after, c);
    }
    OpenRepairsIff(after);
  }

  /** The callback of the message database.  Unless it is reliable, statements may fail without
      effect, and queries for what exists may fail and then answer no. */
  class RdbSmsMmsCallback {
    const reliable: bool
    var schema: Schema
    var needBackup: bool

    constructor (reliable: bool, schema: Schema, needBackup: bool)
      ensures this.reliable == reliable && this.schema == schema && this.needBackup == needBackup
    {
      this.reliable, this.schema, this.needBackup := reliable, schema, needBackup;
    }

    method ExecuteSql(ddl: Ddl)
      modifies this`schema
      ensures schema == old(schema) || schema == Exec(old(schema), ddl)
      ensures reliable ==> schema == Exec(old(schema), ddl)
    {
      var fails: bool := *;
      if reliable || !fails {
        schema := Exec(schema, ddl);
      }
    }

    /** A statement that takes no table and no column away. */
    method ExecuteOne(ddl: Ddl)
      requires Growing(ddl)
      modifies this`schema
      ensures Grown(old(schema), schema)
      ensures reliable ==> schema == Exec(old(schema), ddl)
    {
      GrowingGrows(schema, ddl);
      ExecuteSql(ddl);
    }

    method Query(answer: bool) returns (count: bool)
      ensures count ==> answer
      ensures reliable ==> count == answer
    {
      var fails: bool := *;
      count := answer && (reliable || !fails);
    }

    method RestoreAllInfo()
      modifies this`schema
      ensures Grown(old(schema), schema)
      ensures reliable ==> schema == ExecAll(old(schema), CreateTableVec())
    {
      var tables := CreateTableVec();
      ScriptParts();
      for i := 0 to |tables|
        invariant Grown(old(schema), schema)
        invariant reliable ==> ExecAll(schema, tables[i..]) == ExecAll(old(schema), tables)
      {
        assert tables[i..][1..] == tables[i + 1..];
        ExecuteOne(tables[i]);
      }
    }

    method CompleteField(t: TableName, c: Column)
      modifies this
      ensures Grown(old(schema), schema)
      ensures reliable ==> schema == WithField(old(schema), t, c)
      ensures reliable ==> needBackup == (old(needBackup) || !HasField(old(schema), t, c))
    {
      var isExist := Query(HasField(schema, t, c));
      if !isExist {
        ghost var was := schema;
        ExecuteOne(AddColumn(t, c));
        if t == SmsMmsInfo || t == RcsInfo {
          ghost var added := schema;
          ExecuteOne(Drop(MmsInfoView));
          GrownThen(was, added, schema);
          ghost var dropped := schema;
          ExecuteOne(Create(MmsInfoView));
          GrownThen(was, dropped, schema);
        }
        needBackup := true;
      }
    }

    method CheckAndCompleteFields()
      modifies this
      ensures Grown(old(schema), schema)
      ensures reliable ==> schema == WithFields(old(schema))
      ensures reliable && Repaired(old(schema)) ==> needBackup == old(needBackup)
    {
      hide Repaired, Grown, HasField;
      ghost var start := schema;
      if Repaired(start) { RepairedHasFields(start); }
      CompleteField(SmsMmsInfo, BlockedPrefNumber);
      ghost var before := schema;
      CompleteField(RcsInfo, BlockedPrefNumber);
      GrownThen(start, before, schema);
      before := schema;
      CompleteField(Session, BlockedType);
      GrownThen(start, before, schema);
      before := schema;
      CompleteField(MmsPart, IsFraud);
      GrownThen(start, before, schema);
      before := schema;
      CompleteField(MmsPart, ReferenceCount);
      GrownThen(start, before, schema);
      before := schema;
      CompleteField(Session, PinningTime);
      GrownThen(start, before, schema);
    }

    method CreateMissing(c: Component)
      modifies this
      ensures Grown(old(schema), schema)
      ensures reliable ==> schema == With(old(schema), c)
      ensures reliable ==> needBackup == (old(needBackup) || c !in old(schema).components)
    {
      var isExist := Query(c in schema.components);
      if !isExist {
        ExecuteSql(Create(c));
        needBackup := true;
      }
    }

    method DropRetired(c: Component)
      requires c in RETIRED
      modifies this
      ensures Grown(old(schema), schema)
      ensures reliable ==> schema == Without(old(schema), c)
      ensures reliable ==> needBackup == (old(needBackup) || c in old(schema).components)
    {
      var isExist := Query(c in schema.components);
      if isExist {
        ExecuteSql(Drop(c));
        needBackup := true;
      }
    }

    method CheckAndCompleteTrigger()
      modifies this
      ensures Grown(old(schema), schema)
      ensures reliable ==> schema == WithTriggers(old(schema))
      ensures reliable && Repaired(old(schema)) ==> needBackup == old(needBackup)
    {
      CreateMissing(InsertSmsTrigger);
      CreateMissing(InsertRcsTrigger);
      CreateMissing(UpdateBlockSmsTrigger);
      CreateMissing(UpdateBlockRcsTrigger);
      DropRetired(UpdateSmsTrigger);
      DropRetired(UpdateRcsTrigger);
    }

    method CheckAndCompleteComponent()
      modifies this
      ensures Grown(old(schema), schema)
      ensures reliable ==> schema == WithComponents(old(schema))
      ensures reliable && Repaired(old(schema)) ==> needBackup == old(needBackup)
    {
      ghost var start := schema;
      CheckAndCompleteTrigger();
      ghost var triggered := schema;
      if reliable && Repaired(start) { RepairedKeepsTriggers(start); }
      CreateMissing(MmsInfoView);
      CreateMissing(SessionTimeIndex);
      CreateMissing(SmsSessionIndex);
      CreateMissing(RcsSessionIndex);
    }

    /** No table or column is lost, whatever fails; when nothing fails the
        schema is the opened one, and a repaired database is left alone. */
    method OnOpen(versionOk: bool) returns (ret: int)
      modifies this
      ensures ret == E_OK
      ensures Grown(old(schema), schema)
      ensures !versionOk ==> schema == old(schema) && needBackup == old(needBackup)
      ensures reliable && versionOk ==> schema == Opened(old(schema)) && Restores(old(schema), schema)
      ensures reliable && Repaired(old(schema)) ==> schema == old(schema) && needBackup == old(needBackup)
    {
      ret := E_OK;
      if !versionOk {
        return;
      }
      hide Restores, WithFields, WithComponents, Repaired, Complete, Grown;
      ghost var start := schema;
      OpenRestores(start);
      if Repaired(start) { RepairedStays(start); }
      GrownItself(start);
      var isDbComplete := Query(Complete(schema));
      if !isDbComplete {
        RestoreAllInfo();
      }
      ghost var restored := schema;
      CheckAndCompleteFields();
      GrownThen(start, restored, schema);
      ghost var completed := schema;
      CheckAndCompleteComponent();
      GrownThen(start, completed, schema);
    }
  }

}
