/** Database schemas and the DDL statements that the upgrade and repair code issues.  A statement
    that SQLite would reject leaves the schema as it was; the callers ignore its result. */
module Schema {

  datatype TableName =
    | SmsMmsInfo | MmsProtocol | RcsInfo | SmsSubsection | MmsPart | Session | MmsPdu | RiskUrlRecord
    | FavorateInfo | Chatbots | SpecificChatbots | Smc | SimInfo | PdpProfile

  /** The columns of the tables that upgrades alter. */
  datatype Column =
    | MsgId | SlotId | ReceiverNumber | SenderNumber | IsSender | MsgType | SmsType | StartTime | EndTime | MsgState
    | MsgTitle | MsgContent | OperatorServiceNumber | IsLock | IsCollect | IsRead | SessionType | RetryNumber
    | SessionId | GroupId | DeviceId | IsSubsection | IsSendReport | IsAdvancedSecurity | ExpiresTime | MmsPduCol
    | MsgCode | IsBlocked | BlockedReason | BlockedSources | BlockedType | BlockedTypeText | BlockedPrefNumber
    | RiskUrlBody | HasBeReportedAsSpam | IsReport | RcsId | DetectResContent | PhoneNumber | FormatPhoneNumber
    | MsgCodeStr | RcsType | EnrichedCallingType | ErrorCode | NetworkType | OwnerAddr | PrivacyMode | ReceiveState
    | FailReceiveContext | Protocol | ReplyPathPresent | Seen | ServiceCenter | ServiceKind | ClurSize | TotalSize
    | Id | PartIndex | PartSize | RecordingTime | PartType | Ct | LocationPath | Encode | State | Content | IsFraud
    | ReferenceCount | Time | Telephone | ContactsNum | UnreadCount | SendingStatus | HasDraft | HasLock
    | MessageCount | HasMms | ContactId | ContactName | HasAttachment | YellowPageId | PinningTime
    | IsActive | Opkey | Mcc | Mnc | IsEsim | SimLabelIndex | OperatorName | PhyCard | Lsi | MncLen | Efust | Gid1
    | Gid2 | Spn | Ehplmn | MvnoType | MvnoMatchData | Edited | Server
    | OtherColumn(name: string)

  datatype Component =
    | MmsInfoView
    | InsertSmsTrigger | InsertRcsTrigger | UpdateBlockSmsTrigger | UpdateBlockRcsTrigger
    | UpdateSmsTrigger | UpdateRcsTrigger
    | SessionTimeIndex | SmsSessionIndex | RcsSessionIndex

  datatype Schema = Schema(tables: map<TableName, set<Column>>, components: set<Component>)

  datatype Ddl =
    | CreateTable(table: TableName, columns: set<Column>)
    | AddColumn(table: TableName, column: Column)
    | DropColumn(table: TableName, column: Column)
    | Create(component: Component)
    | Drop(component: Component)

  /** The table and columns a trigger or index is built on; a view is not resolved when created. */
  function BuiltOn(c: Component): map<TableName, set<Column>> {
    match c
    case MmsInfoView => map[]
    case InsertSmsTrigger => map[SmsMmsInfo := {}]
    case UpdateSmsTrigger => map[SmsMmsInfo := {}]
    case UpdateBlockSmsTrigger => map[SmsMmsInfo := {}]
    case InsertRcsTrigger => map[RcsInfo := {}]
    case UpdateRcsTrigger => map[RcsInfo := {}]
    case UpdateBlockRcsTrigger => map[RcsInfo := {}]
    case SessionTimeIndex => map[Session := {Time, SmsType}]
    case SmsSessionIndex => map[SmsMmsInfo := {SessionId, IsBlocked, SmsType}]
    case RcsSessionIndex => map[RcsInfo := {SessionId, IsBlocked}]
  }

  predicate Buildable(s: Schema, c: Component) {
    forall t <- BuiltOn(c).Keys :: t in s.tables && BuiltOn(c)[t] <= s.tables[t]
  }

  /** CREATE is IF NOT EXISTS and DROP is IF EXISTS throughout. */
  function Exec(s: Schema, ddl: Ddl): Schema {
    match ddl
    case CreateTable(t, columns) => if t in s.tables then s else s.(tables := s.tables[t := columns])
    case AddColumn(t, c) => if t in s.tables then s.(tables := s.tables[t := s.tables[t] + {c}]) else s
    case DropColumn(t, c) => if t in s.tables then s.(tables := s.tables[t := s.tables[t] - {c}]) else s
    case Create(c) => if Buildable(s, c) then s.(components := s.components + {c}) else s
    case Drop(c) => s.(components := s.components - {c})
  }

  function ExecAll(s: Schema, ddls: seq<Ddl>): Schema
    decreases |ddls|
  {
    if ddls == [] then s else ExecAll(Exec(s, ddls[0]), ddls[1..])
  }

  lemma {:induction false} ExecAllConcat(s: Schema, a: seq<Ddl>, b: seq<Ddl>)
    ensures ExecAll(s, a + b) == ExecAll(ExecAll(s, a), b)
    decreases |a|
  {
    if a == [] {
      assert a + b == b;
    } else {
      assert (a + b)[1..] == a[1..] + b;
      ExecAllConcat(Exec(s, a[0]), a[1..], b);
    }
  }

  // ---------------------------------------------------------------- the fresh schema

  const SMS_MMS_INFO_COLUMNS: set<Column> := {
    MsgId, SlotId, ReceiverNumber, SenderNumber, IsSender, MsgType, SmsType, StartTime, EndTime, MsgState, MsgTitle,
    MsgContent, OperatorServiceNumber, IsLock, IsCollect, IsRead, SessionType, RetryNumber, SessionId, GroupId,
    DeviceId, IsSubsection, IsSendReport, IsAdvancedSecurity, ExpiresTime, MmsPduCol, MsgCode, IsBlocked,
    BlockedReason, BlockedSources, BlockedType, BlockedTypeText, BlockedPrefNumber, RiskUrlBody,
    HasBeReportedAsSpam, IsReport, RcsId, DetectResContent, PhoneNumber, FormatPhoneNumber, MsgCodeStr }

  const RCS_INFO_COLUMNS: set<Column> := {
    RcsId, SlotId, ReceiverNumber, SenderNumber, StartTime, EndTime, RcsType, MsgState, MsgTitle, MsgContent, IsLock,
    IsRead, IsSender, SessionId, GroupId, MsgId, EnrichedCallingType, ErrorCode, NetworkType, OwnerAddr, PrivacyMode,
    IsAdvancedSecurity, IsCollect, ReceiveState, FailReceiveContext, Protocol, ReplyPathPresent, Seen, ServiceCenter,
    ServiceKind, IsBlocked, BlockedReason, BlockedSources, BlockedType, BlockedTypeText, BlockedPrefNumber, ClurSize,
    TotalSize, RiskUrlBody, HasBeReportedAsSpam, IsReport, DetectResContent, PhoneNumber, FormatPhoneNumber }

  const MMS_PART_COLUMNS: set<Column> := {
    Id, MsgId, GroupId, PartIndex, PartSize, RecordingTime, PartType, Ct, LocationPath, Encode, State, Content, RcsId,
    IsFraud, ReferenceCount }

  const SESSION_COLUMNS: set<Column> := {
    Id, Time, Telephone, Content, ContactsNum, SmsType, UnreadCount, SendingStatus, HasDraft, HasLock, MessageCount,
    HasMms, ContactId, ContactName, HasAttachment, YellowPageId, BlockedType, PinningTime }

  /** The columns of the other tables play no part in an upgrade or a repair. */
  const UNTRACKED: set<Column> := {OtherColumn("")}

  function FreshColumns(t: TableName): set<Column> {
    match t
    case SmsMmsInfo => SMS_MMS_INFO_COLUMNS
    case RcsInfo => RCS_INFO_COLUMNS
    case MmsPart => MMS_PART_COLUMNS
    case Session => SESSION_COLUMNS
    case _ => UNTRACKED
  }

  function Table(t: TableName): Ddl {
    CreateTable(t, FreshColumns(t))
  }
}
