/** The statements of each upgrade step of the message, SIM and APN databases, and that each step turns
    a database of one version into one of the next. */
module SchemaScripts {
  import opened Common
  import opened Schema
  import opened SchemaVersions

  /** A chain of steps to the versions from 2 on; only the message database has favourites, rcs rows
      and the table that is created before any step. */
  datatype Chain = Chain(steps: nat, script: nat -> seq<Ddl>, messages: bool) {
    function Last(): nat {
      FIRST_STEP - 1 + steps
    }
  }

  const FIRST_STEP := 2

  /** The columns of the table that is created before any step when rcs_info may not exist yet. */
  const FORCED_RCS_COLUMNS: set<Column> := {
    RcsId, SlotId, ReceiverNumber, SenderNumber, StartTime, EndTime, RcsType, MsgState, MsgTitle, MsgContent, IsLock,
    IsRead, IsSender, SessionId, GroupId, MsgId, EnrichedCallingType, ErrorCode, NetworkType, OwnerAddr, PrivacyMode,
    IsAdvancedSecurity, IsCollect, ReceiveState, FailReceiveContext, Protocol, ReplyPathPresent, Seen, ServiceCenter,
    ServiceKind }

  /** The statements of each step of the message database, in order.  Step 12 is skipped when
      sms_mms_info has the column already, and 23 and 34 when the favourites table exists. */
  function SmsScript(k: nat): seq<Ddl> {
    if k <= 8 then StepsTo8(k) else if k <= 16 then StepsTo16(k) else if k <= 24 then StepsTo24(k) else StepsTo35(k)
  }

  function StepsTo8(k: nat): seq<Ddl> {
    if k == 2 then [AddColumn(SmsMmsInfo, IsAdvancedSecurity), AddColumn(RcsInfo, IsAdvancedSecurity)]
    else if k == 3 then [AddColumn(Session, ContactId), AddColumn(Session, ContactName)]
    else if k == 4 then
      [AddColumn(RcsInfo, IsCollect), AddColumn(RcsInfo, ReceiveState),
       AddColumn(RcsInfo, FailReceiveContext), AddColumn(SmsMmsInfo, ExpiresTime),
       AddColumn(SmsMmsInfo, MmsPduCol)]
    else if k == 7 then [Create(MmsInfoView)]
    else if k == 8 then
      [AddColumn(SmsMmsInfo, IsBlocked), AddColumn(SmsMmsInfo, IsBlocked),
       AddColumn(SmsMmsInfo, BlockedReason), AddColumn(SmsMmsInfo, BlockedSources),
       AddColumn(SmsMmsInfo, BlockedType), AddColumn(SmsMmsInfo, BlockedTypeText),
       AddColumn(RcsInfo, IsBlocked), AddColumn(RcsInfo, BlockedReason), AddColumn(RcsInfo, BlockedSources),
       AddColumn(RcsInfo, BlockedType), AddColumn(RcsInfo, BlockedTypeText), Drop(MmsInfoView),
       Create(MmsInfoView)]
    else []
  }

  function StepsTo16(k: nat): seq<Ddl> {
    if k == 9 then
      [AddColumn(MmsPart, RcsId), AddColumn(RcsInfo, ClurSize), AddColumn(RcsInfo, TotalSize),
       Drop(MmsInfoView), Create(MmsInfoView)]
    else if k == 10 then
      [AddColumn(SmsMmsInfo, RiskUrlBody), AddColumn(SmsMmsInfo, HasBeReportedAsSpam),
       AddColumn(RcsInfo, RiskUrlBody), AddColumn(RcsInfo, HasBeReportedAsSpam), Drop(MmsInfoView),
       Create(MmsInfoView), Table(RiskUrlRecord)]
    else if k == 11 then
      [AddColumn(SmsMmsInfo, IsReport), AddColumn(RcsInfo, IsReport), Drop(MmsInfoView), Create(MmsInfoView)]
    else if k == 12 then [AddColumn(SmsMmsInfo, RcsId), Drop(MmsInfoView), Create(MmsInfoView)]
    else if k == 13 then [Drop(MmsInfoView), Create(MmsInfoView)]
    else if k == 14 then
      [AddColumn(SmsMmsInfo, DetectResContent), AddColumn(RcsInfo, DetectResContent), Drop(MmsInfoView),
       Create(MmsInfoView)]
    else if k == 15 then [Drop(MmsInfoView), Create(MmsInfoView)]
    else if k == 16 then
      [AddColumn(SmsMmsInfo, PhoneNumber), AddColumn(SmsMmsInfo, FormatPhoneNumber),
       AddColumn(RcsInfo, PhoneNumber), AddColumn(RcsInfo, FormatPhoneNumber), Drop(MmsInfoView),
       Create(MmsInfoView)]
    else []
  }

  function StepsTo24(k: nat): seq<Ddl> {
    if k == 17 then
      [AddColumn(SmsMmsInfo, MsgCodeStr), AddColumn(Session, YellowPageId), Drop(MmsInfoView),
       Create(MmsInfoView)]
    else if k == 18 then
      [Drop(InsertSmsTrigger), Create(InsertSmsTrigger), Drop(InsertRcsTrigger), Create(InsertRcsTrigger)]
    else if k == 19 then [AddColumn(MmsPart, Ct)]
    else if k == 20 then
      [Drop(UpdateBlockSmsTrigger), Create(UpdateBlockSmsTrigger), Drop(UpdateBlockRcsTrigger),
       Create(UpdateBlockRcsTrigger)]
    else if k == 21 then
      [AddColumn(SmsMmsInfo, BlockedPrefNumber), AddColumn(RcsInfo, BlockedPrefNumber), Drop(MmsInfoView),
       Create(MmsInfoView)]
    else if k == 22 then
      [Drop(RcsSessionIndex), Create(RcsSessionIndex), Drop(SmsSessionIndex), Create(SmsSessionIndex),
       Drop(SessionTimeIndex), Create(SessionTimeIndex)]
    else if k == 23 then [Table(FavorateInfo)]
    else if k == 24 then [Table(SpecificChatbots), Table(Chatbots)]
    else []
  }

  function StepsTo35(k: nat): seq<Ddl> {
    if k == 25 then [Table(Smc)]
    else if k == 27 then [AddColumn(RcsInfo, MsgId), Drop(MmsInfoView), Create(MmsInfoView)]
    else if k == 28 then [AddColumn(Session, BlockedType)]
    else if k == 29 then [AddColumn(MmsPart, IsFraud)]
    else if k == 30 then
      [AddColumn(SmsMmsInfo, BlockedPrefNumber), AddColumn(RcsInfo, BlockedPrefNumber), Drop(MmsInfoView),
       Create(MmsInfoView)]
    else if k == 32 then [AddColumn(Session, PinningTime)]
    else if k == 33 then [Drop(UpdateSmsTrigger), Drop(UpdateRcsTrigger)]
    else if k == 34 then [Table(FavorateInfo)]
    else if k == 35 then [AddColumn(MmsPart, ReferenceCount)]
    else []
  }

  function SimScript(k: nat): seq<Ddl> {
    if k == 2 then [DropColumn(SimInfo, IsActive), AddColumn(SimInfo, IsActive)]
    else if k == 3 then [AddColumn(SimInfo, Opkey), AddColumn(SimInfo, Mcc), AddColumn(SimInfo, Mnc)]
    else if k == 4 then
      [AddColumn(SimInfo, IsEsim), AddColumn(SimInfo, SimLabelIndex), AddColumn(SimInfo, OperatorName)]
    else if k == 5 then
      [AddColumn(SimInfo, PhyCard), AddColumn(SimInfo, Lsi), AddColumn(SimInfo, MncLen), AddColumn(SimInfo, Efust),
       AddColumn(SimInfo, Gid1), AddColumn(SimInfo, Gid2), AddColumn(SimInfo, Spn), AddColumn(SimInfo, Ehplmn)]
    else []
  }

  function PdpScript(k: nat): seq<Ddl> {
    if k == 2 then [AddColumn(PdpProfile, MvnoType), AddColumn(PdpProfile, MvnoMatchData)]
    else if k == 3 then [AddColumn(PdpProfile, Edited), AddColumn(PdpProfile, Server)]
    else if k == 4 then [AddColumn(PdpProfile, Opkey)]
    else []
  }

  function SmsChain(): Chain { Chain(34, (k: nat) => SmsScript(k), true) }

  function SimChain(): Chain { Chain(4, (k: nat) => SimScript(k), false) }

  function PdpChain(): Chain { Chain(3, (k: nat) => PdpScript(k), false) }

  predicate IsFavouritesStep(chain: Chain, k: nat) {
    chain.messages && (k == 23 || k == 34)
  }

  predicate Skipped(chain: Chain, k: nat, s: Schema) {
    (IsFavouritesStep(chain, k) && FavorateInfo in s.tables) ||
    (chain.messages && k == 12 && SmsMmsInfo in s.tables && RcsId in s.tables[SmsMmsInfo])
  }

  predicate StepSucceeds(chain: Chain, k: nat, s: Schema, fav: Favourites) {
    IsFavouritesStep(chain, k) && !Skipped(chain, k, s) ==> fav.createOk && fav.fillOk
  }

  function StepSchema(chain: Chain, k: nat, s: Schema, fav: Favourites): Schema {
    if Skipped(chain, k, s) || (IsFavouritesStep(chain, k) && !fav.createOk) then s
    else ExecAll(s, chain.script(k))
  }

  // ---------------------------------------------------------------- what each step adds

  /** A statement of the step to version `k` adds, creates and drops only what that version is to. */
  predicate AddsOnly(ddl: Ddl, k: nat) {
    match ddl
    case CreateTable(t, _) => TableBroughtAt(t, k)
    case AddColumn(t, c) => IsAltered(t) && (BroughtAt(t, c) == k || (k == 30 && BroughtAgain(t, c)))
    case DropColumn(_, _) => false
    case Create(c) => MayTouch(c, k)
    case Drop(c) => MayTouch(c, k)
  }

  ghost predicate AllAddOnly(ddls: seq<Ddl>, k: nat) {
    forall i :: 0 <= i < |ddls| ==> AddsOnly(ddls[i], k)
  }

  lemma OnlyTo3(k: nat)
    requires k <= 3
    ensures AllAddOnly(StepsTo8(k), k)
  {}

  lemma OnlyTo7(k: nat)
    requires 3 < k <= 7
    ensures AllAddOnly(StepsTo8(k), k)
  {}

  lemma OnlyTo8(k: nat)
    requires k == 8
    ensures AllAddOnly(StepsTo8(k), k)
  {}

  lemma OnlyTo9(k: nat)
    requires k <= 9
    ensures AllAddOnly(StepsTo16(k), k)
  {}

  lemma OnlyTo11(k: nat)
    requires 9 < k <= 11
    ensures AllAddOnly(StepsTo16(k), k)
  {}

  lemma OnlyTo13(k: nat)
    requires 11 < k <= 13
    ensures AllAddOnly(StepsTo16(k), k)
  {}

  lemma OnlyTo16(k: nat)
    requires 13 < k
    ensures AllAddOnly(StepsTo16(k), k)
  {}

  lemma OnlyTo19(k: nat)
    requires k <= 19
    ensures AllAddOnly(StepsTo24(k), k)
  {}

  lemma OnlyTo24(k: nat)
    requires 19 < k
    ensures AllAddOnly(StepsTo24(k), k)
  {}

  lemma OnlyTo29(k: nat)
    requires k <= 29
    ensures AllAddOnly(StepsTo35(k), k)
  {}

  lemma OnlyTo35(k: nat)
    requires 29 < k
    ensures AllAddOnly(StepsTo35(k), k)
  {}

  lemma ScriptAddsOnly(k: nat)
    ensures AllAddOnly(SmsScript(k), k)
  {
    hide StepsTo8, StepsTo16, StepsTo24, StepsTo35, AllAddOnly;
    if k <= 3 { OnlyTo3(k); }
    else if k <= 7 { OnlyTo7(k); }
    else if k == 8 { OnlyTo8(k); }
    else if k <= 9 { OnlyTo9(k); }
    else if k <= 11 { OnlyTo11(k); }
    else if k <= 13 { OnlyTo13(k); }
    else if k <= 16 { OnlyTo16(k); }
    else if k <= 19 { OnlyTo19(k); }
    else if k <= 24 { OnlyTo24(k); }
    else if k <= 29 { OnlyTo29(k); }
    else { OnlyTo35(k); }
  }

  /** Steps add only columns that their version is to bring and a fresh database has, and drop none. */
  lemma StepsAddFreshColumns(k: nat, ddl: Ddl)
    requires ddl in SmsScript(k)
    ensures AddsOnly(ddl, k)
    ensures ddl.AddColumn? ==> ddl.column in FreshColumns(ddl.table)
  {
    ScriptAddsOnly(k);
    var i :| 0 <= i < |SmsScript(k)| && SmsScript(k)[i] == ddl;
    hide SmsScript, BroughtAt, BroughtAgain;
    assert AddsOnly(SmsScript(k)[i], k);
    if ddl.AddColumn? && k != 0 {
      AgainIsLater(ddl.table, ddl.column);
      BroughtIsFresh(ddl.table, ddl.column);
    }
  }

  lemma EarlySmsInScript(c: Column)
    requires BroughtToSms(c) != 0 && BroughtToSms(c) <= 9
    ensures AddColumn(SmsMmsInfo, c) in SmsScript(BroughtToSms(c))
  {}

  lemma LateSmsInScript(c: Column)
    requires BroughtToSms(c) != 0 && BroughtToSms(c) > 9
    ensures AddColumn(SmsMmsInfo, c) in SmsScript(BroughtToSms(c))
  {}

  lemma EarlyRcsInScript(c: Column)
    requires BroughtToRcs(c) != 0 && BroughtToRcs(c) <= 9
    ensures AddColumn(RcsInfo, c) in SmsScript(BroughtToRcs(c))
  {}

  lemma LateRcsInScript(c: Column)
    requires BroughtToRcs(c) != 0 && BroughtToRcs(c) > 9
    ensures AddColumn(RcsInfo, c) in SmsScript(BroughtToRcs(c))
  {}

  lemma PartInScript(c: Column)
    requires BroughtToPart(c) != 0
    ensures AddColumn(MmsPart, c) in SmsScript(BroughtToPart(c))
  {}

  lemma SessionInScript(c: Column)
    requires BroughtToSession(c) != 0
    ensures AddColumn(Session, c) in SmsScript(BroughtToSession(c))
  {}

  lemma BroughtInScript(t: TableName, c: Column)
    requires IsAltered(t) && BroughtAt(t, c) != 0
    ensures AddColumn(t, c) in SmsScript(BroughtAt(t, c))
  {
    hide SmsScript, BroughtToSms, BroughtToRcs, BroughtToPart, BroughtToSession;
    match t
    case SmsMmsInfo => if BroughtToSms(c) <= 9 { EarlySmsInScript(c); } else { LateSmsInScript(c); }
    case RcsInfo => if BroughtToRcs(c) <= 9 { EarlyRcsInScript(c); } else { LateRcsInScript(c); }
    case MmsPart => PartInScript(c);
    case Session => SessionInScript(c);
  }

  lemma AgainInScript()
    ensures AddColumn(SmsMmsInfo, BlockedPrefNumber) in SmsScript(30)
    ensures AddColumn(RcsInfo, BlockedPrefNumber) in SmsScript(30)
  {}

  /** The step to a version adds to each altered table what that version is to bring. */
  lemma ScriptBrings(k: nat, t: TableName, c: Column)
    requires IsAltered(t) && FIRST_STEP <= k
    ensures AddColumn(t, c) in SmsScript(k) <==> Brings(t, c, k - 1, k)
  {
    hide SmsScript, BroughtAt;
    if AddColumn(t, c) in SmsScript(k) { StepsAddFreshColumns(k, AddColumn(t, c)); }
    if BroughtAt(t, c) == k { BroughtInScript(t, c); }
    AgainInScript();
  }

  lemma {:induction false} ExecAllColumns(s: Schema, ddls: seq<Ddl>, t: TableName, c: Column)
    requires t in s.tables
    requires forall d :: d in ddls ==> !d.DropColumn?
    ensures t in ExecAll(s, ddls).tables
    ensures c in ExecAll(s, ddls).tables[t] <==> c in s.tables[t] || AddColumn(t, c) in ddls
    decreases |ddls|
  {
    if ddls != [] {
      ExecAllColumns(Exec(s, ddls[0]), ddls[1..], t, c);
      assert AddColumn(t, c) in ddls <==> AddColumn(t, c) == ddls[0] || AddColumn(t, c) in ddls[1..];
    }
  }

  /** A step that is skipped, or may fail, would have brought the table nothing new. */
  lemma SkippedBrings(k: nat, s: Schema, t: TableName, c: Column)
    requires IsAltered(t) && t in s.tables && FIRST_STEP <= k && Brings(t, c, k - 1, k)
    requires IsFavouritesStep(SmsChain(), k) || Skipped(SmsChain(), k, s)
    ensures c in s.tables[t]
  {
    assert k == 12 || k == 23 || k == 34;
  }

  lemma MessageStepGains(k: nat, s: Schema, fav: Favourites, t: TableName)
    requires IsAltered(t) && t in s.tables && FIRST_STEP <= k
    ensures Gains(s, StepSchema(SmsChain(), k, s, fav), t, k - 1, k)
  {
    hide SmsScript, Brings, ExecAll;
    var after := StepSchema(SmsChain(), k, s, fav);
    forall d | d in SmsScript(k) ensures !d.DropColumn? { StepsAddFreshColumns(k, d); }
    ExecAllColumns(s, SmsScript(k), t, Id);
    forall c: Column
      ensures t in after.tables && (c in after.tables[t] <==> c in s.tables[t] || Brings(t, c, k - 1, k))
    {
      ScriptBrings(k, t, c);
      ExecAllColumns(s, SmsScript(k), t, c);
      if (IsFavouritesStep(SmsChain(), k) || Skipped(SmsChain(), k, s)) && Brings(t, c, k - 1, k) {
        SkippedBrings(k, s, t, c);
      }
    }
  }

  predicate AddsToSim(ddl: Ddl, k: nat) {
    ddl.AddColumn? && ddl.table == SimInfo && BroughtToSimInfo(ddl.column) == k
  }

  lemma OnlySimTo4(k: nat)
    requires FIRST_STEP < k && k != 5
    ensures forall i :: 0 <= i < |SimScript(k)| ==> AddsToSim(SimScript(k)[i], k)
  {}

  lemma FifthSimVersion(c: Column)
    requires c == PhyCard || c == Lsi || c == MncLen || c == Efust || c == Gid1 || c == Gid2 || c == Spn || c == Ehplmn
    ensures AddsToSim(AddColumn(SimInfo, c), 5)
  {}

  lemma OnlySimTo5(ddl: Ddl)
    requires ddl in SimScript(5)
    ensures AddsToSim(ddl, 5)
  {
    hide AddsToSim;
    FifthSimVersion(ddl.column);
  }

  lemma OnlySim(k: nat, ddl: Ddl)
    requires FIRST_STEP < k && ddl in SimScript(k)
    ensures AddsToSim(ddl, k)
  {
    hide SimScript, AddsToSim;
    if k == 5 {
      OnlySimTo5(ddl);
    } else {
      OnlySimTo4(k);
      var i :| 0 <= i < |SimScript(k)| && SimScript(k)[i] == ddl;
    }
  }

  lemma InSimScript(c: Column)
    requires BroughtToSimInfo(c) > FIRST_STEP
    ensures AddColumn(SimInfo, c) in SimScript(BroughtToSimInfo(c))
  {}

  lemma SimScriptBrings(k: nat, c: Column)
    requires k > FIRST_STEP
    ensures AddColumn(SimInfo, c) in SimScript(k) <==> Brings(SimInfo, c, k - 1, k)
  {
    hide SimScript, BroughtToSimInfo;
    if AddColumn(SimInfo, c) in SimScript(k) { OnlySim(k, AddColumn(SimInfo, c)); }
    if BroughtToSimInfo(c) == k { InSimScript(c); }
  }

  lemma SecondSimVersion(c: Column)
    ensures BroughtToSimInfo(c) == 2 <==> c == IsActive
  {}

  /** Step 2 of the SIM database replaces a column. */
  lemma SimStepTwo(s: Schema)
    requires SimInfo in s.tables
    ensures Gains(s, ExecAll(s, SimScript(2)), SimInfo, 1, 2)
  {
    hide BroughtToSimInfo;
    var mid := Exec(s, DropColumn(SimInfo, IsActive));
    var after := Exec(mid, AddColumn(SimInfo, IsActive));
    assert SimScript(2)[1..] == [AddColumn(SimInfo, IsActive)];
    assert ExecAll(s, SimScript(2)) == ExecAll(mid, [AddColumn(SimInfo, IsActive)]) == ExecAll(after, []) == after;
    forall c
      ensures c in after.tables[SimInfo] <==> c in s.tables[SimInfo] || BroughtToSimInfo(c) == 2
    {
      SecondSimVersion(c);
    }
  }

  lemma OnlyPdp(k: nat, ddl: Ddl)
    requires ddl in PdpScript(k)
    ensures ddl.AddColumn? && BroughtToPdpProfile(ddl.column) == k
  {}

  lemma InPdpScript(c: Column)
    requires BroughtToPdpProfile(c) != 0
    ensures AddColumn(PdpProfile, c) in PdpScript(BroughtToPdpProfile(c))
  {}

  lemma PdpScriptBrings(k: nat, c: Column)
    requires k >= FIRST_STEP
    ensures AddColumn(PdpProfile, c) in PdpScript(k) <==> Brings(PdpProfile, c, k - 1, k)
  {
    hide PdpScript, BroughtToPdpProfile;
    if AddColumn(PdpProfile, c) in PdpScript(k) { OnlyPdp(k, AddColumn(PdpProfile, c)); }
    if BroughtToPdpProfile(c) == k { InPdpScript(c); }
  }

  lemma SimStepGains(k: nat, s: Schema, fav: Favourites)
    requires SimInfo in s.tables && FIRST_STEP <= k
    ensures Gains(s, StepSchema(SimChain(), k, s, fav), SimInfo, k - 1, k)
  {
    hide SimScript, Brings, ExecAll;
    if k == FIRST_STEP {
      SimStepTwo(s);
    } else {
      forall d | d in SimScript(k) ensures !d.DropColumn? { OnlySim(k, d); }
      ExecAllColumns(s, SimScript(k), SimInfo, Id);
      forall c: Column
        ensures c in ExecAll(s, SimScript(k)).tables[SimInfo] <==>
          c in s.tables[SimInfo] || Brings(SimInfo, c, k - 1, k)
      {
        SimScriptBrings(k, c);
        ExecAllColumns(s, SimScript(k), SimInfo, c);
      }
    }
  }

  lemma PdpStepGains(k: nat, s: Schema, fav: Favourites)
    requires PdpProfile in s.tables && FIRST_STEP <= k
    ensures Gains(s, StepSchema(PdpChain(), k, s, fav), PdpProfile, k - 1, k)
  {
    hide PdpScript, Brings, ExecAll;
    forall d | d in PdpScript(k) ensures !d.DropColumn? { OnlyPdp(k, d); }
    ExecAllColumns(s, PdpScript(k), PdpProfile, Id);
    forall c: Column
      ensures c in ExecAll(s, PdpScript(k)).tables[PdpProfile] <==>
        c in s.tables[PdpProfile] || Brings(PdpProfile, c, k - 1, k)
    {
      PdpScriptBrings(k, c);
      ExecAllColumns(s, PdpScript(k), PdpProfile, c);
    }
  }

  /** The tables that each database's versions alter. */
  ghost predicate Alters(chain: Chain, t: TableName) {
    (chain == SmsChain() && IsAltered(t)) || (chain == SimChain() && t == SimInfo) ||
    (chain == PdpChain() && t == PdpProfile)
  }

  /** Each step of each database makes the columns of its version of those of the version before. */
  lemma StepGains(chain: Chain, k: nat, s: Schema, fav: Favourites, t: TableName)
    requires Alters(chain, t) && t in s.tables && FIRST_STEP <= k
    ensures Gains(s, StepSchema(chain, k, s, fav), t, k - 1, k)
  {
    hide StepSchema, Gains;
    if IsAltered(t) && chain == SmsChain() { MessageStepGains(k, s, fav, t); }
    else if t == SimInfo && chain == SimChain() { SimStepGains(k, s, fav); }
    else { PdpStepGains(k, s, fav); }
  }

  // ---------------------------------------------------------------- tables

  lemma {:induction false} ExecAllTables(s: Schema, ddls: seq<Ddl>, t: TableName)
    ensures t in ExecAll(s, ddls).tables <==>
      t in s.tables || exists i :: 0 <= i < |ddls| && ddls[i].CreateTable? && ddls[i].table == t
    decreases |ddls|
  {
    if ddls != [] {
      ExecAllTables(Exec(s, ddls[0]), ddls[1..], t);
      if i :| 0 <= i < |ddls| && ddls[i].CreateTable? && ddls[i].table == t {
        if i > 0 { assert ddls[1..][i - 1] == ddls[i]; }
      }
      if i :| 0 <= i < |ddls[1..]| && ddls[1..][i].CreateTable? && ddls[1..][i].table == t {
        assert ddls[i + 1] == ddls[1..][i];
      }
    }
  }

  lemma TableInScript(k: nat, t: TableName)
    requires TableBroughtAt(t, k)
    ensures exists i :: 0 <= i < |SmsScript(k)| && SmsScript(k)[i].CreateTable? && SmsScript(k)[i].table == t
  {
    var i := if k == 10 then 6 else if t == Chatbots then 1 else 0;
    assert SmsScript(k)[i] == Table(t);
  }

  /** Each step creates the tables of its version. */
  lemma StepTables(k: nat, s: Schema, fav: Favourites, t: TableName)
    requires FIRST_STEP <= k
    ensures t in StepSchema(SmsChain(), k, s, fav).tables <==>
      t in s.tables || (TableBroughtAt(t, k) && (t == FavorateInfo ==> fav.createOk))
  {
    hide SmsScript, ExecAll, AddsOnly;
    ScriptAddsOnly(k);
    ExecAllTables(s, SmsScript(k), t);
    if TableBroughtAt(t, k) { TableInScript(k, t); }
    if i :| 0 <= i < |SmsScript(k)| && SmsScript(k)[i].CreateTable? && SmsScript(k)[i].table == t {
      CreatesBrought(SmsScript(k)[i], k);
    }
  }

  lemma CreatesBrought(ddl: Ddl, k: nat)
    requires AddsOnly(ddl, k) && ddl.CreateTable?
    ensures TableBroughtAt(ddl.table, k)
  {}

  // ---------------------------------------------------------------- view, triggers and indexes

  predicate Touches(ddl: Ddl, c: Component) {
    ddl == Create(c) || ddl == Drop(c)
  }

  lemma {:induction false} ExecAllFrame(s: Schema, ddls: seq<Ddl>, c: Component)
    requires forall i :: 0 <= i < |ddls| ==> !Touches(ddls[i], c)
    ensures c in ExecAll(s, ddls).components <==> c in s.components
    decreases |ddls|
  {
    if ddls != [] {
      assert !Touches(ddls[0], c);
      forall i | 0 <= i < |ddls[1..]| ensures !Touches(ddls[1..][i], c) { assert ddls[1..][i] == ddls[i + 1]; }
      ExecAllFrame(Exec(s, ddls[0]), ddls[1..], c);
    }
  }

  lemma {:induction false} ExecAllTablesSame(s: Schema, ddls: seq<Ddl>)
    requires forall i :: 0 <= i < |ddls| ==> ddls[i].Create? || ddls[i].Drop?
    ensures ExecAll(s, ddls).tables == s.tables
    decreases |ddls|
  {
    if ddls != [] {
      assert ddls[0].Create? || ddls[0].Drop?;
      forall i | 0 <= i < |ddls[1..]| ensures ddls[1..][i].Create? || ddls[1..][i].Drop? {
        assert ddls[1..][i] == ddls[i + 1];
      }
      ExecAllTablesSame(Exec(s, ddls[0]), ddls[1..]);
    }
  }

  /** Dropped, created and not touched again: the component is there if what it is built on is. */
  lemma LastBuilds(s: Schema, ddls: seq<Ddl>, i: nat, c: Component)
    requires i + 1 < |ddls| && ddls[i] == Drop(c) && ddls[i + 1] == Create(c)
    requires forall j :: i + 2 <= j < |ddls| ==> !Touches(ddls[j], c)
    requires c == MmsInfoView || forall j :: 0 <= j < |ddls| ==> ddls[j].Create? || ddls[j].Drop?
    ensures c in ExecAll(s, ddls).components <==> Buildable(ExecAll(s, ddls), c)
  {
    var first, last := ddls[..i], ddls[i + 2..];
    assert ddls == first + ([Drop(c), Create(c)] + last);
    var mid := ExecAll(s, first);
    ExecAllConcat(s, first, [Drop(c), Create(c)] + last);
    var built := Exec(Exec(mid, Drop(c)), Create(c));
    assert ([Drop(c), Create(c)] + last)[1..] == [Create(c)] + last;
    assert ([Create(c)] + last)[1..] == last;
    assert ExecAll(s, ddls) == ExecAll(built, last);
    ExecAllFrame(built, last, c);
    if c != MmsInfoView { ExecAllTablesSame(built, last); }
  }

  /** Where the step to version `k` drops the component that it then creates. */
  function DropIndex(c: Component, k: nat): nat {
    match c
    case InsertRcsTrigger | UpdateBlockRcsTrigger | SmsSessionIndex => 2
    case SessionTimeIndex => 4
    case MmsInfoView =>
      if k == 8 then 11 else if k == 9 then 3 else if k == 10 || k == 16 then 4
      else if k == 13 || k == 15 then 0 else if k == 12 || k == 27 then 1 else 2
    case _ => 0
  }

  ghost predicate DropsAndCreates(ddls: seq<Ddl>, i: nat, c: Component) {
    i + 1 < |ddls| && ddls[i] == Drop(c) && ddls[i + 1] == Create(c) &&
    (forall j :: i + 2 <= j < |ddls| ==> !Touches(ddls[j], c)) &&
    (c == MmsInfoView || forall j :: 0 <= j < |ddls| ==> ddls[j].Create? || ddls[j].Drop?)
  }

  lemma ViewInScript(k: nat)
    requires (RebuiltAt(MmsInfoView, k) && k != 7) || k == 12
    ensures DropsAndCreates(SmsScript(k), DropIndex(MmsInfoView, k), MmsInfoView)
  {}

  lemma TriggerInScript(c: Component, k: nat)
    requires RebuiltAt(c, k) && c != MmsInfoView
    ensures DropsAndCreates(SmsScript(k), DropIndex(c, k), c)
  {}

  lemma RetiredInScript(s: Schema, c: Component)
    requires RetiredAt(c, 33)
    ensures c !in ExecAll(s, SmsScript(33)).components
  {
    var ddls := [Drop(UpdateSmsTrigger), Drop(UpdateRcsTrigger)];
    assert SmsScript(33) == ddls && ddls[1..] == [Drop(UpdateRcsTrigger)];
    var mid := Exec(s, ddls[0]);
    assert ExecAll(s, ddls) == ExecAll(mid, ddls[1..]) == ExecAll(Exec(mid, ddls[1]), []);
  }

  lemma TouchesOnly(ddl: Ddl, c: Component, k: nat)
    requires AddsOnly(ddl, k) && Touches(ddl, c)
    ensures MayTouch(c, k)
  {}

  /** The step to version 7 is the first to create the view. */
  lemma ViewCreated(s: Schema)
    ensures MmsInfoView in ExecAll(s, SmsScript(7)).components
  {
    assert SmsScript(7) == [Create(MmsInfoView)] && SmsScript(7)[1..] == [];
    assert ExecAll(s, SmsScript(7)) == ExecAll(Exec(s, Create(MmsInfoView)), []) == Exec(s, Create(MmsInfoView));
  }

  lemma StepRebuilds(k: nat, s: Schema, fav: Favourites, c: Component)
    requires RebuiltAt(c, k)
    ensures var after := StepSchema(SmsChain(), k, s, fav); c in after.components <==> Buildable(after, c)
  {
    assert StepSchema(SmsChain(), k, s, fav) == ExecAll(s, SmsScript(k));
    hide SmsScript, ExecAll, RebuiltAt, Buildable;
    if c == MmsInfoView {
      if k == 7 { ViewCreated(s); ViewBuildable(ExecAll(s, SmsScript(k))); }
      else { ViewInScript(k); LastBuilds(s, SmsScript(k), DropIndex(c, k), c); }
    } else {
      TriggerInScript(c, k);
      LastBuilds(s, SmsScript(k), DropIndex(c, k), c);
    }
  }

  lemma ViewBuildable(s: Schema)
    ensures Buildable(s, MmsInfoView)
  {}

  /** The view, once there, stays. */
  lemma StepKeepsView(k: nat, s: Schema, fav: Favourites)
    requires FIRST_STEP <= k && MmsInfoView in s.components
    ensures MmsInfoView in StepSchema(SmsChain(), k, s, fav).components
  {
    hide SmsScript, ExecAll, AddsOnly, Touches, Buildable;
    if RebuiltAt(MmsInfoView, k) {
      StepRebuilds(k, s, fav, MmsInfoView);
      ViewBuildable(StepSchema(SmsChain(), k, s, fav));
    } else if k == 12 {
      ViewInScript(k);
      LastBuilds(s, SmsScript(k), DropIndex(MmsInfoView, k), MmsInfoView);
      ViewBuildable(ExecAll(s, SmsScript(k)));
    } else {
      StepFrame(k, s, fav, MmsInfoView);
    }
  }

  lemma StepFrame(k: nat, s: Schema, fav: Favourites, c: Component)
    requires FIRST_STEP <= k && !MayTouch(c, k)
    ensures c in StepSchema(SmsChain(), k, s, fav).components <==> c in s.components
  {
    hide SmsScript, ExecAll, AddsOnly, Touches, MayTouch;
    ScriptAddsOnly(k);
    forall i | 0 <= i < |SmsScript(k)| ensures !Touches(SmsScript(k)[i], c) {
      if Touches(SmsScript(k)[i], c) { TouchesOnly(SmsScript(k)[i], c, k); }
    }
    ExecAllFrame(s, SmsScript(k), c);
  }

  /** Each step builds and retires the view, triggers and indexes of its version. */
  lemma StepComponents(k: nat, s: Schema, fav: Favourites, c: Component)
    requires FIRST_STEP <= k
    ensures GainsComponent(s, StepSchema(SmsChain(), k, s, fav), c, k - 1, k)
  {
    hide SmsScript, ExecAll, AddsOnly, Buildable, RebuiltAt, Touches;
    assert Passes(k - 1, k, k);
    if RebuiltAt(c, k) { StepRebuilds(k, s, fav, c); }
    if RetiredAt(c, k) { RetiredInScript(s, c); }
    if !MayTouch(c, k) { StepFrame(k, s, fav, c); }
    if c == MmsInfoView && c in s.components { StepKeepsView(k, s, fav); }
  }

  lemma IndexColumns(c: Component, t: TableName, column: Column)
    requires t in BuiltOn(c) && column in BuiltOn(c)[t]
    ensures column == Time || column == SmsType || column == SessionId || column == IsBlocked
  {}

  lemma IndexColumnsOld(t: TableName, column: Column)
    requires IsAltered(t)
    requires column == Time || column == SmsType || column == SessionId || column == IsBlocked
    ensures BroughtAt(t, column) <= 22 && !BroughtAgain(t, column)
  {}

  lemma BuiltOnAltered(c: Component, t: TableName, k: nat)
    requires t in BuiltOn(c)
    ensures IsAltered(t) && !TableBroughtAt(t, k)
  {}

  lemma TriggersNeedNoColumn(c: Component, t: TableName)
    requires t in BuiltOn(c) && !RebuiltAt(c, 22)
    ensures BuiltOn(c)[t] == {}
  {}

  /** What a component is built on stays as it is once the step that builds it is past. */
  lemma StepKeepsBuildable(k: nat, s: Schema, fav: Favourites, c: Component)
    requires FIRST_STEP <= k && (RebuiltAt(c, 22) ==> 22 < k)
    ensures Buildable(StepSchema(SmsChain(), k, s, fav), c) <==> Buildable(s, c)
  {
    hide BuiltOn, StepSchema, BroughtAt, BroughtAgain, RebuiltAt, TableBroughtAt;
    var after := StepSchema(SmsChain(), k, s, fav);
    forall t <- BuiltOn(c)
      ensures t in after.tables && BuiltOn(c)[t] <= after.tables[t] <==> t in s.tables && BuiltOn(c)[t] <= s.tables[t]
    {
      BuiltOnAltered(c, t, k);
      StepTables(k, s, fav, t);
      if t in s.tables {
        MessageStepGains(k, s, fav, t);
        if !RebuiltAt(c, 22) { TriggersNeedNoColumn(c, t); }
        forall column <- BuiltOn(c)[t] ensures !Brings(t, column, k - 1, k) {
          IndexColumns(c, t, column);
          IndexColumnsOld(t, column);
        }
      }
    }
  }
}
