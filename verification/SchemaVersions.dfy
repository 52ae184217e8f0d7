/** What each version of the three databases looks like, by table and column, whatever the upgrade code
    issues to get there: the first version, and what every later one has brought. */
module SchemaVersions {
  import opened Schema

  // ---------------------------------------------------------------- the first version

  const FIRST_SMS_MMS_INFO: set<Column> := {
    MsgId, SlotId, ReceiverNumber, SenderNumber, IsSender, MsgType, SmsType, StartTime, EndTime, MsgState, MsgTitle,
    MsgContent, OperatorServiceNumber, IsLock, IsCollect, IsRead, SessionType, RetryNumber, SessionId, GroupId,
    DeviceId, IsSubsection, IsSendReport, MsgCode }

  const FIRST_RCS_INFO: set<Column> := {
    RcsId, SlotId, ReceiverNumber, SenderNumber, StartTime, EndTime, RcsType, MsgState, MsgTitle, MsgContent, IsLock,
    IsRead, IsSender, SessionId, GroupId, EnrichedCallingType, ErrorCode, NetworkType, OwnerAddr, PrivacyMode,
    Protocol, ReplyPathPresent, Seen, ServiceCenter, ServiceKind }

  const FIRST_MMS_PART: set<Column> := {
    Id, MsgId, GroupId, PartIndex, PartSize, RecordingTime, PartType, LocationPath, Encode, State, Content }

  const FIRST_SESSION: set<Column> := {
    Id, Time, Telephone, Content, ContactsNum, SmsType, UnreadCount, SendingStatus, HasDraft, HasLock, MessageCount,
    HasMms, HasAttachment }

  function FirstColumns(t: TableName): set<Column> {
    match t
    case SmsMmsInfo => FIRST_SMS_MMS_INFO
    case RcsInfo => FIRST_RCS_INFO
    case MmsPart => FIRST_MMS_PART
    case Session => FIRST_SESSION
    case _ => {}
  }

  // ---------------------------------------------------------------- what later versions brought

  /** Version `v` lies on the way from version `a` to version `b`. */
  predicate Passes(a: nat, v: nat, b: nat) {
    a < v <= b
  }

  function BroughtToSms(c: Column): (v: nat)
    ensures v == 0 || 2 <= v <= 35
  {
    match c
    case IsAdvancedSecurity => 2
    case ExpiresTime | MmsPduCol => 4
    case IsBlocked | BlockedReason | BlockedSources | BlockedType | BlockedTypeText => 8
    case RiskUrlBody | HasBeReportedAsSpam => 10
    case IsReport => 11
    case RcsId => 12
    case DetectResContent => 14
    case PhoneNumber | FormatPhoneNumber => 16
    case MsgCodeStr => 17
    case BlockedPrefNumber => 21
    case _ => 0
  }

  function BroughtToRcs(c: Column): (v: nat)
    ensures v == 0 || 2 <= v <= 35
  {
    match c
    case IsAdvancedSecurity => 2
    case IsCollect | ReceiveState | FailReceiveContext => 4
    case IsBlocked | BlockedReason | BlockedSources | BlockedType | BlockedTypeText => 8
    case ClurSize | TotalSize => 9
    case RiskUrlBody | HasBeReportedAsSpam => 10
    case IsReport => 11
    case DetectResContent => 14
    case PhoneNumber | FormatPhoneNumber => 16
    case BlockedPrefNumber => 21
    case MsgId => 27
    case _ => 0
  }

  function BroughtToPart(c: Column): (v: nat)
    ensures v == 0 || 2 <= v <= 35
  {
    match c
    case RcsId => 9
    case Ct => 19
    case IsFraud => 29
    case ReferenceCount => 35
    case _ => 0
  }

  function BroughtToSession(c: Column): (v: nat)
    ensures v == 0 || 2 <= v <= 35
  {
    match c
    case ContactId | ContactName => 3
    case YellowPageId => 17
    case BlockedType => 28
    case PinningTime => 32
    case _ => 0
  }

  function BroughtToSimInfo(c: Column): (v: nat)
    ensures v == 0 || 2 <= v <= 5
  {
    match c
    case IsActive => 2
    case Opkey | Mcc | Mnc => 3
    case IsEsim | SimLabelIndex | OperatorName => 4
    case PhyCard | Lsi | MncLen | Efust | Gid1 | Gid2 | Spn | Ehplmn => 5
    case _ => 0
  }

  function BroughtToPdpProfile(c: Column): (v: nat)
    ensures v == 0 || 2 <= v <= 4
  {
    match c
    case MvnoType | MvnoMatchData => 2
    case Edited | Server => 3
    case Opkey => 4
    case _ => 0
  }

  /** The first version that brings a column to a table, 0 if none does. */
  function BroughtAt(t: TableName, c: Column): nat {
    match t
    case SmsMmsInfo => BroughtToSms(c)
    case RcsInfo => BroughtToRcs(c)
    case MmsPart => BroughtToPart(c)
    case Session => BroughtToSession(c)
    case SimInfo => BroughtToSimInfo(c)
    case PdpProfile => BroughtToPdpProfile(c)
    case _ => 0
  }

  /** Version 30 brings what version 21 should have brought once more. */
  predicate BroughtAgain(t: TableName, c: Column) {
    (t == SmsMmsInfo || t == RcsInfo) && c == BlockedPrefNumber
  }

  predicate PassesOne(v: nat, again: bool, a: nat, b: nat) {
    Passes(a, v, b) || (again && Passes(a, 30, b))
  }

  /** Some version after `a`, up to `b`, brings column `c` to table `t`. */
  predicate Brings(t: TableName, c: Column, a: nat, b: nat) {
    PassesOne(BroughtAt(t, c), BroughtAgain(t, c), a, b)
  }

  /** What two stretches bring is what the whole way brings. */
  lemma PassesTwice(v: nat, again: bool, a: nat, b: nat, d: nat)
    requires a <= b <= d
    ensures PassesOne(v, again, a, d) <==> PassesOne(v, again, a, b) || PassesOne(v, again, b, d)
  {}

  /** A table of the message database that some version has added columns to. */
  predicate IsAltered(t: TableName) {
    t.SmsMmsInfo? || t.RcsInfo? || t.MmsPart? || t.Session?
  }

  /** The columns of version `v` of an altered table. */
  function ColumnsAt(t: TableName, v: nat): set<Column> {
    set c | c in FreshColumns(t) && (c in FirstColumns(t) || Brings(t, c, 1, v))
  }

  lemma SmsIsBrought(c: Column)
    requires c in SMS_MMS_INFO_COLUMNS
    ensures c in FIRST_SMS_MMS_INFO || BroughtToSms(c) != 0
  {}

  lemma BroughtToSmsIsFresh(c: Column)
    requires BroughtToSms(c) != 0
    ensures c in SMS_MMS_INFO_COLUMNS
  {}

  lemma RcsIsBrought(c: Column)
    requires c in RCS_INFO_COLUMNS
    ensures c in FIRST_RCS_INFO || BroughtToRcs(c) != 0
  {}

  lemma BroughtToRcsIsFresh(c: Column)
    requires BroughtToRcs(c) != 0
    ensures c in RCS_INFO_COLUMNS
  {}

  lemma PartIsBrought(c: Column)
    requires c in MMS_PART_COLUMNS
    ensures c in FIRST_MMS_PART || BroughtToPart(c) != 0
  {}

  lemma BroughtToPartIsFresh(c: Column)
    requires BroughtToPart(c) != 0
    ensures c in MMS_PART_COLUMNS
  {}

  lemma SessionIsBrought(c: Column)
    requires c in SESSION_COLUMNS
    ensures c in FIRST_SESSION || BroughtToSession(c) != 0
  {}

  lemma BroughtToSessionIsFresh(c: Column)
    requires BroughtToSession(c) != 0
    ensures c in SESSION_COLUMNS
  {}

  lemma BroughtIsFresh(t: TableName, c: Column)
    requires IsAltered(t) && BroughtAt(t, c) != 0
    ensures c in FreshColumns(t)
  {
    hide BroughtToSms, BroughtToRcs, BroughtToPart, BroughtToSession;
    match t
    case SmsMmsInfo => BroughtToSmsIsFresh(c);
    case RcsInfo => BroughtToRcsIsFresh(c);
    case MmsPart => BroughtToPartIsFresh(c);
    case Session => BroughtToSessionIsFresh(c);
  }

  lemma FreshIsBrought(t: TableName, c: Column)
    requires IsAltered(t) && c in FreshColumns(t)
    ensures c in FirstColumns(t) || BroughtAt(t, c) != 0
  {
    hide BroughtToSms, BroughtToRcs, BroughtToPart, BroughtToSession;
    match t
    case SmsMmsInfo => SmsIsBrought(c);
    case RcsInfo => RcsIsBrought(c);
    case MmsPart => PartIsBrought(c);
    case Session => SessionIsBrought(c);
  }

  lemma AgainIsLater(t: TableName, c: Column)
    ensures BroughtAgain(t, c) ==> BroughtAt(t, c) == 21
  {}

  lemma FirstIsFresh(t: TableName)
    requires IsAltered(t)
    ensures FirstColumns(t) <= FreshColumns(t)
  {}

  /** A fresh install starts with the columns of the last version. */
  lemma LastIsFresh(t: TableName)
    requires IsAltered(t)
    ensures ColumnsAt(t, 35) == FreshColumns(t) && ColumnsAt(t, 1) == FirstColumns(t)
    ensures forall c :: c in FirstColumns(t) || Brings(t, c, 1, 35) <==> c in FreshColumns(t)
  {
    hide BroughtToSms, BroughtToRcs, BroughtToPart, BroughtToSession, FreshColumns, FirstColumns;
    FirstIsFresh(t);
    forall c
      ensures c in FirstColumns(t) || Brings(t, c, 1, 35) <==> c in FreshColumns(t)
      ensures !Brings(t, c, 1, 1)
    {
      AgainIsLater(t, c);
      if c in FreshColumns(t) { FreshIsBrought(t, c); }
      if BroughtAt(t, c) != 0 { BroughtIsFresh(t, c); }
    }
  }

  // ---------------------------------------------------------------- tables, triggers and indexes

  /** How a favourites step goes when it is not skipped: creating the table, then filling it. */
  datatype Favourites = Favourites(createOk: bool, fillOk: bool)

  predicate TableBroughtAt(t: TableName, v: nat) {
    (t == RiskUrlRecord && v == 10) || (t == FavorateInfo && (v == 23 || v == 34)) ||
    ((t == Chatbots || t == SpecificChatbots) && v == 24) || (t == Smc && v == 25)
  }

  /** Versions 23 and 34 bring the favourites, if creating their table works. */
  ghost predicate BringsTable(t: TableName, a: nat, b: nat, favs: nat -> Favourites) {
    exists v: nat :: Passes(a, v, b) && TableBroughtAt(t, v) && (t == FavorateInfo ==> favs(v).createOk)
  }

  /** The versions that build a view, a trigger or an index anew. */
  predicate RebuiltAt(c: Component, v: nat) {
    match c
    case MmsInfoView => (7 <= v <= 17 || v == 21 || v == 27 || v == 30) && v != 12
    case InsertSmsTrigger | InsertRcsTrigger => v == 18
    case UpdateBlockSmsTrigger | UpdateBlockRcsTrigger => v == 20
    case SessionTimeIndex | SmsSessionIndex | RcsSessionIndex => v == 22
    case UpdateSmsTrigger | UpdateRcsTrigger => false
  }

  /** Version 33 retires two triggers. */
  predicate RetiredAt(c: Component, v: nat) {
    (c == UpdateSmsTrigger || c == UpdateRcsTrigger) && v == 33
  }

  /** Version 12 builds the view anew only with the column it brings. */
  predicate MayTouch(c: Component, v: nat) {
    RebuiltAt(c, v) || RetiredAt(c, v) || (c == MmsInfoView && v == 12)
  }

  // ---------------------------------------------------------------- an upgrade

  /** Table `t` has gained exactly the columns of the versions after `a`, up to `b`. */
  ghost predicate Gains(before: Schema, after: Schema, t: TableName, a: nat, b: nat) {
    t in before.tables && t in after.tables &&
    forall c :: c in after.tables[t] <==> c in before.tables[t] || Brings(t, c, a, b)
  }

  /** The table is there exactly if it was or one of those versions creates it. */
  ghost predicate GainsTable(before: Schema, after: Schema, t: TableName, a: nat, b: nat, favs: nat -> Favourites) {
    t in after.tables <==> t in before.tables || BringsTable(t, a, b, favs)
  }

  ghost predicate Rebuilt(c: Component, a: nat, b: nat) {
    exists v: nat :: Passes(a, v, b) && RebuiltAt(c, v)
  }

  ghost predicate Untouched(c: Component, a: nat, b: nat) {
    forall v: nat :: Passes(a, v, b) ==> !MayTouch(c, v)
  }

  /** A view, trigger or index that one of those versions builds is there if its table and columns are; a
      retired one is gone; and any other is as before. */
  ghost predicate GainsComponent(before: Schema, after: Schema, c: Component, a: nat, b: nat) {
    (Rebuilt(c, a, b) ==> (c in after.components <==> Buildable(after, c))) &&
    (Passes(a, 33, b) && (c == UpdateSmsTrigger || c == UpdateRcsTrigger) ==> c !in after.components) &&
    (Untouched(c, a, b) ==> (c in after.components <==> c in before.components)) &&
    (c == MmsInfoView && c in before.components ==> c in after.components)
  }

  lemma GainsThen(before: Schema, mid: Schema, after: Schema, t: TableName, a: nat, b: nat, d: nat)
    requires a <= b <= d && Gains(before, mid, t, a, b) && Gains(mid, after, t, b, d)
    ensures Gains(before, after, t, a, d)
  {
    forall c ensures c in after.tables[t] <==> c in before.tables[t] || Brings(t, c, a, d) {
      hide PassesOne, BroughtAt, BroughtAgain;
      PassesTwice(BroughtAt(t, c), BroughtAgain(t, c), a, b, d);
    }
  }

  lemma GainedIn(before: Schema, after: Schema, t: TableName, a: nat, b: nat)
    requires Gains(before, after, t, a, b)
    ensures t in after.tables
  {}

  /** Two ranges without a version say the same. */
  lemma GainedNothing(before: Schema, after: Schema, t: TableName, a: nat, b: nat, d: nat)
    requires b <= a && d <= a && Gains(before, after, t, a, b)
    ensures Gains(before, after, t, a, d)
  {
    forall c ensures !Brings(t, c, a, b) && !Brings(t, c, a, d) { hide BroughtAt, BroughtAgain; }
  }

  lemma GainsNone(s: Schema, t: TableName, a: nat, b: nat)
    requires t in s.tables && (b <= a || b == 1)
    ensures Gains(s, s, t, a, b)
  {
    forall c ensures !Brings(t, c, a, b) { AgainIsLater(t, c); }
  }

  /** The last version of a database is the last to bring anything. */
  lemma GainsNoMore(before: Schema, after: Schema, t: TableName, a: nat, b: nat)
    requires (IsAltered(t) && b >= 35) || (t == SimInfo && b >= 5) || (t == PdpProfile && b >= 4)
    requires Gains(before, after, t, a, if t == SimInfo then 5 else if t == PdpProfile then 4 else 35)
    ensures Gains(before, after, t, a, b)
  {
    var last := if t == SimInfo then 5 else if t == PdpProfile then 4 else 35;
    forall c ensures Brings(t, c, a, b) <==> Brings(t, c, a, last) {
      hide BroughtToSms, BroughtToRcs, BroughtToPart, BroughtToSession, BroughtToSimInfo, BroughtToPdpProfile;
    }
  }
}
