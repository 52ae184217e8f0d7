/** The tables of sms_mms.db that the unread index, the session delete and the merge copy work on,
    with the effect of each SQL statement on them.  A table is a map from id to row with SQLite's
    auto-increment counter; one statement is one atomic step, its triggers included. */
module SmsMmsTables {
  import opened Common
  import opened Sums

  // ---------------------------------------------------------------- rows

  datatype SmsRow = SmsRow(
    sessionId: int, rcsId: int, groupId: int, isRead: int, isCollect: int, isBlocked: int,
    msgType: int, title: string, content: string, phone: string, sender: string, startTime: string)

  datatype RcsRow = RcsRow(
    sessionId: int, groupId: int, isRead: int, isBlocked: int,
    msgId: string, phone: string, sender: string, startTime: string)

  datatype PartRow = PartRow(
    msgId: int, rcsId: int, groupId: int, partType: int, partSize: int, path: string, refCount: int)

  datatype UrlRow = UrlRow(sessionId: int, msgId: int, rcsId: int, url: string, createTime: string)

  /** The columns of `session` that a merge overwrites together when the other side is newer. */
  datatype Preview = Preview(
    content: string, sendingStatus: int, hasDraft: int, hasMms: int, hasAttachment: int)

  datatype SessionRow = SessionRow(
    telephone: string, time: int, smsType: int, unreadCount: int, messageCount: int, preview: Preview)

  // ---------------------------------------------------------------- tables

  /** `lastId` is the largest id ever handed out, so an id is never used twice. */
  datatype Table<R> = Table(rows: map<int, R>, lastId: nat) {
    ghost predicate Valid() {
      forall id :: id in rows ==> 0 < id <= lastId
    }

    function Add(row: R): Table<R> {
      Table(rows[lastId + 1 := row], lastId + 1)
    }

    function Put(id: int, row: R): Table<R> {
      Table(rows[id := row], lastId)
    }

    function Without(ids: set<int>): Table<R> {
      Table(rows - ids, lastId)
    }
  }

  datatype Db = Db(
    sms: Table<SmsRow>, rcs: Table<RcsRow>, part: Table<PartRow>, session: Table<SessionRow>, url: Table<UrlRow>) {
    ghost predicate Valid() {
      sms.Valid() && rcs.Valid() && part.Valid() && session.Valid() && url.Valid()
    }
  }

  // ---------------------------------------------------------------- unread triggers

  function UnreadSms(sms: Table<SmsRow>, sessionId: int): set<int> {
    set m | m in sms.rows && sms.rows[m].sessionId == sessionId && sms.rows[m].isRead == 0
  }

  function UnreadRcs(rcs: Table<RcsRow>, sessionId: int): set<int> {
    set r | r in rcs.rows && rcs.rows[r].sessionId == sessionId && rcs.rows[r].isRead == 0
  }

  function UnreadOf(db: Db, sessionId: int): nat {
    |UnreadSms(db.sms, sessionId)| + |UnreadRcs(db.rcs, sessionId)|
  }

  function WithUnread(db: Db, sessionId: int, count: int): Db
    requires sessionId in db.session.rows
  {
    db.(session := db.session.Put(sessionId, db.session.rows[sessionId].(unreadCount := count)))
  }

  /** The body that all four triggers share: recount one session, if there is such a session. */
  function Recount(db: Db, sessionId: int): Db {
    if sessionId in db.session.rows then WithUnread(db, sessionId, UnreadOf(db, sessionId)) else db
  }

  /** The triggers fire per row, and only when the new row is unread. */
  function FireTrigger(db: Db, isRead: int, sessionId: int): Db {
    if isRead == 0 then Recount(db, sessionId) else db
  }

  function InsertSms(db: Db, row: SmsRow): Db {
    FireTrigger(db.(sms := db.sms.Add(row)), row.isRead, row.sessionId)
  }

  function InsertRcs(db: Db, row: RcsRow): Db {
    FireTrigger(db.(rcs := db.rcs.Add(row)), row.isRead, row.sessionId)
  }

  function InsertSmsBatch(db: Db, rows: seq<SmsRow>): Db
    decreases |rows|
  {
    if rows == [] then db else InsertSmsBatch(InsertSms(db, rows[0]), rows[1..])
  }

  /** One row of an UPDATE on sms_mms_info, followed by its trigger. */
  function UpdateSmsRow(db: Db, id: int, row: SmsRow): Db {
    if id in db.sms.rows then
      FireTrigger(db.(sms := db.sms.Put(id, row)), row.isRead, row.sessionId)
    else
      db
  }

  function UpdateRcsRow(db: Db, id: int, row: RcsRow): Db {
    if id in db.rcs.rows then
      FireTrigger(db.(rcs := db.rcs.Put(id, row)), row.isRead, row.sessionId)
    else
      db
  }

  /** An UPDATE that touches many rows, in the order SQLite visits them. */
  function UpdateSms(db: Db, changes: seq<(int, SmsRow)>): Db
    decreases |changes|
  {
    if changes == [] then db else UpdateSms(UpdateSmsRow(db, changes[0].0, changes[0].1), changes[1..])
  }

  function UpdateRcs(db: Db, changes: seq<(int, RcsRow)>): Db
    decreases |changes|
  {
    if changes == [] then db else UpdateRcs(UpdateRcsRow(db, changes[0].0, changes[0].1), changes[1..])
  }

  // ---------------------------------------------------------------- mark as read

  /** Which sessions a mark-read operation covers. */
  datatype MarkScope = One(sessionId: int) | Notice | All

  /** How a single message is named by the caller: by its key, or by number and time. */
  datatype MessageKey = ById(id: int) | ByPhone(phone: string, startTime: string)

  predicate IsNotice(smsType: int) {
    smsType == 1 || smsType == 2
  }

  predicate Marks(session: Table<SessionRow>, scope: MarkScope, sessionId: int, isRead: int) {
    match scope
    case One(id) => sessionId == id
    case Notice => sessionId in session.rows && IsNotice(session.rows[sessionId].smsType)
    case All => isRead == 0
  }

  predicate SmsMatches(key: MessageKey, id: int, row: SmsRow) {
    match key
    case ById(k) => id == k
    case ByPhone(p, t) => row.phone == p && row.startTime == t
  }

  predicate RcsMatches(key: MessageKey, id: int, row: RcsRow) {
    match key
    case ById(k) => id == k
    case ByPhone(p, t) => row.phone == p && row.startTime == t
  }

  function ReadSmsIds(db: Db, ids: set<int>): Db {
    db.(sms := Table(map m | m in db.sms.rows ::
      if m in ids then db.sms.rows[m].(isRead := 1) else db.sms.rows[m], db.sms.lastId))
  }

  function ReadRcsIds(db: Db, ids: set<int>): Db {
    db.(rcs := Table(map r | r in db.rcs.rows ::
      if r in ids then db.rcs.rows[r].(isRead := 1) else db.rcs.rows[r], db.rcs.lastId))
  }

  function MarkedSms(db: Db, scope: MarkScope): set<int> {
    set m | m in db.sms.rows && Marks(db.session, scope, db.sms.rows[m].sessionId, db.sms.rows[m].isRead)
  }

  function MarkedRcs(db: Db, scope: MarkScope): set<int> {
    set r | r in db.rcs.rows && Marks(db.session, scope, db.rcs.rows[r].sessionId, db.rcs.rows[r].isRead)
  }

  function MatchedSms(sms: Table<SmsRow>, key: MessageKey): set<int> {
    set m | m in sms.rows && SmsMatches(key, m, sms.rows[m])
  }

  function MatchedRcs(rcs: Table<RcsRow>, key: MessageKey): set<int> {
    set r | r in rcs.rows && RcsMatches(key, r, rcs.rows[r])
  }

  predicate ZeroesSession(scope: MarkScope, id: int, row: SessionRow) {
    match scope
    case One(k) => id == k
    case Notice => IsNotice(row.smsType)
    case All => row.unreadCount != 0
  }

  function ZeroUnread(db: Db, scope: MarkScope): Db {
    db.(session := Table(map s | s in db.session.rows ::
      if ZeroesSession(scope, s, db.session.rows[s])
      then db.session.rows[s].(unreadCount := 0) else db.session.rows[s], db.session.lastId))
  }

  lemma LeastExists(ids: set<int>) returns (least: int)
    requires ids != {}
    ensures least in ids && forall k :: k in ids ==> least <= k
    decreases |ids|
  {
    var some := Pick(ids);
    var below := set j | j in ids && j < some;
    if below == {} {
      least := some;
      assert forall k :: k in ids && k < some ==> k in below;
    } else {
      assert below <= ids - {some};
      assert |ids| == |below| + |ids - below| by { assert ids == below + (ids - below); }
      assert some in ids - below;
      least := LeastExists(below);
      assert forall k :: k in ids && k < some ==> k in below;
    }
  }

  /** A scalar subquery yields its first row; a scan visits rows in id order. */
  function First(ids: set<int>): (least: int)
    requires ids != {}
    ensures least in ids && forall k :: k in ids ==> least <= k
  {
    assert exists k :: k in ids && forall j :: j in ids ==> k <= j by { var k := LeastExists(ids); }
    var k :| k in ids && forall j :: j in ids ==> k <= j;
    k
  }

  /** The statement that repairs the count after one message was marked: the session it recounts
      is that of the first matching row, and a missing row makes the target NULL. */
  function RecountSms(db: Db, key: MessageKey): Db {
    var matched := MatchedSms(db.sms, key);
    if matched == {} then db else Recount(db, db.sms.rows[First(matched)].sessionId)
  }

  function RecountRcs(db: Db, key: MessageKey): Db {
    var matched := MatchedRcs(db.rcs, key);
    if matched == {} then db else Recount(db, db.rcs.rows[First(matched)].sessionId)
  }

  // ---------------------------------------------------------------- session delete

  datatype Limit = Unlimited | In | NotIn

  datatype SessionColumn = SmsType | UnreadCount | MessageCount | Time

  datatype Equals = Any | Column(column: SessionColumn, value: int)

  /** The session ids a delete names, IN or NOT IN, and an optional further test on the session row. */
  datatype DeleteScope = DeleteScope(ids: set<int>, limit: Limit, equals: Equals)

  function ColumnOf(row: SessionRow, column: SessionColumn): int {
    match column
    case SmsType => row.smsType
    case UnreadCount => row.unreadCount
    case MessageCount => row.messageCount
    case Time => row.time
  }

  predicate Named(scope: DeleteScope, sessionId: int) {
    match scope.limit
    case Unlimited => false
    case In => sessionId in scope.ids
    case NotIn => sessionId !in scope.ids
  }

  predicate Passes(scope: DeleteScope, row: SessionRow) {
    scope.equals.Any? || ColumnOf(row, scope.equals.column) == scope.equals.value
  }

  /** Without a column test the session need not exist; with one, the statements join with `session`. */
  predicate Selects(db: Db, scope: DeleteScope, sessionId: int) {
    Named(scope, sessionId) &&
    (scope.equals.Any? || (sessionId in db.session.rows && Passes(scope, db.session.rows[sessionId])))
  }

  predicate Selected(db: Db, scope: DeleteScope, m: int) {
    m in db.sms.rows && Selects(db, scope, db.sms.rows[m].sessionId)
  }

  /** The sub-select by msg_id of the part statements: message `m`, and `m` uncollected if asked. */
  predicate ByMsg(db: Db, scope: DeleteScope, p: PartRow, uncollected: bool) {
    Selected(db, scope, p.msgId) && (uncollected ==> db.sms.rows[p.msgId].isCollect == 0)
  }

  /** The sub-select by rcs_id: some selected, unblocked message carries the part's rcs_id. */
  predicate ByRcs(db: Db, scope: DeleteScope, p: PartRow, uncollected: bool) {
    exists m :: m in db.sms.rows && Selected(db, scope, m) && db.sms.rows[m].rcsId == p.rcsId && p.rcsId > 0 &&
      db.sms.rows[m].isBlocked != 1 && (uncollected ==> db.sms.rows[m].isCollect == 0)
  }

  predicate DeleteMmsPartWhere(db: Db, scope: DeleteScope, p: PartRow) {
    (p.refCount == -1 && ByMsg(db, scope, p, true)) || (p.refCount == 1 && ByMsg(db, scope, p, false))
  }

  predicate DeleteRcsPartWhere(db: Db, scope: DeleteScope, p: PartRow) {
    (p.refCount == -1 && ByRcs(db, scope, p, true)) || (p.refCount == 1 && ByRcs(db, scope, p, false))
  }

  function DeleteMmsPart(db: Db, scope: DeleteScope): Db {
    db.(part := db.part.Without(set p | p in db.part.rows && DeleteMmsPartWhere(db, scope, db.part.rows[p])))
  }

  function DeleteRcsPart(db: Db, scope: DeleteScope): Db {
    db.(part := db.part.Without(set p | p in db.part.rows && DeleteRcsPartWhere(db, scope, db.part.rows[p])))
  }

  function Released(row: PartRow): PartRow {
    row.(refCount := row.refCount - 1)
  }

  function UpdateMmsPart(db: Db, scope: DeleteScope): Db {
    db.(part := Table(map p | p in db.part.rows ::
      if db.part.rows[p].refCount > 1 && ByMsg(db, scope, db.part.rows[p], false)
      then Released(db.part.rows[p]) else db.part.rows[p], db.part.lastId))
  }

  function UpdateRcsPart(db: Db, scope: DeleteScope): Db {
    db.(part := Table(map p | p in db.part.rows ::
      if db.part.rows[p].refCount > 1 && ByRcs(db, scope, db.part.rows[p], false)
      then Released(db.part.rows[p]) else db.part.rows[p], db.part.lastId))
  }

  predicate DeleteRcsWhere(db: Db, scope: DeleteScope, r: int) {
    r in db.rcs.rows && db.rcs.rows[r].isBlocked != 1 &&
    exists m :: m in db.sms.rows && Selected(db, scope, m) && db.sms.rows[m].rcsId == r
  }

  predicate DeleteSmsWhere(db: Db, scope: DeleteScope, m: int) {
    Selected(db, scope, m) && db.sms.rows[m].isBlocked != 1
  }

  predicate DeleteSessionWhere(db: Db, scope: DeleteScope, s: int) {
    s in db.session.rows && Selects(db, scope, s)
  }

  function DeleteRcsInfo(db: Db, scope: DeleteScope): Db {
    db.(rcs := db.rcs.Without(set r | r in db.rcs.rows && DeleteRcsWhere(db, scope, r)))
  }

  function DeleteInfo(db: Db, scope: DeleteScope): Db {
    db.(sms := db.sms.Without(set m | m in db.sms.rows && DeleteSmsWhere(db, scope, m)))
  }

  function DeleteSession(db: Db, scope: DeleteScope): Db {
    db.(session := db.session.Without(set s | s in db.session.rows && DeleteSessionWhere(db, scope, s)))
  }

  // ---------------------------------------------------------------- statements

  datatype Stmt =
    | InsertSmsStmt(sms: SmsRow)
    | InsertRcsStmt(rcs: RcsRow)
    | InsertSmsBatchStmt(batch: seq<SmsRow>)
    | UpdateSmsStmt(smsChanges: seq<(int, SmsRow)>)
    | UpdateRcsStmt(rcsChanges: seq<(int, RcsRow)>)
    | DeleteSmsStmt(ids: set<int>)
    | DeleteRcsStmt(ids: set<int>)
    | ReadSmsStmt(marks: MarkScope)
    | ReadRcsStmt(marks: MarkScope)
    | ZeroUnreadStmt(marks: MarkScope)
    | ReadOneSmsStmt(key: MessageKey)
    | ReadOneRcsStmt(key: MessageKey)
    | RecountSmsStmt(key: MessageKey)
    | RecountRcsStmt(key: MessageKey)
    | DeleteMmsPartStmt(scope: DeleteScope)
    | UpdateMmsPartStmt(scope: DeleteScope)
    | DeleteRcsPartStmt(scope: DeleteScope)
    | UpdateRcsPartStmt(scope: DeleteScope)
    | DeleteRcsInfoStmt(scope: DeleteScope)
    | DeleteInfoStmt(scope: DeleteScope)
    | DeleteSessionStmt(scope: DeleteScope)

  function Exec(db: Db, stmt: Stmt): Db {
    match stmt
    case InsertSmsStmt(row) => InsertSms(db, row)
    case InsertRcsStmt(row) => InsertRcs(db, row)
    case InsertSmsBatchStmt(rows) => InsertSmsBatch(db, rows)
    case UpdateSmsStmt(changes) => UpdateSms(db, changes)
    case UpdateRcsStmt(changes) => UpdateRcs(db, changes)
    case DeleteSmsStmt(ids) => db.(sms := db.sms.Without(ids))
    case DeleteRcsStmt(ids) => db.(rcs := db.rcs.Without(ids))
    case ReadSmsStmt(marks) => ReadSmsIds(db, MarkedSms(db, marks))
    case ReadRcsStmt(marks) => ReadRcsIds(db, MarkedRcs(db, marks))
    case ZeroUnreadStmt(marks) => ZeroUnread(db, marks)
    case ReadOneSmsStmt(key) => ReadSmsIds(db, MatchedSms(db.sms, key))
    case ReadOneRcsStmt(key) => ReadRcsIds(db, MatchedRcs(db.rcs, key))
    case RecountSmsStmt(key) => RecountSms(db, key)
    case RecountRcsStmt(key) => RecountRcs(db, key)
    case DeleteMmsPartStmt(scope) => DeleteMmsPart(db, scope)
    case UpdateMmsPartStmt(scope) => UpdateMmsPart(db, scope)
    case DeleteRcsPartStmt(scope) => DeleteRcsPart(db, scope)
    case UpdateRcsPartStmt(scope) => UpdateRcsPart(db, scope)
    case DeleteRcsInfoStmt(scope) => DeleteRcsInfo(db, scope)
    case DeleteInfoStmt(scope) => DeleteInfo(db, scope)
    case DeleteSessionStmt(scope) => DeleteSession(db, scope)
  }

  /** The store after the first `k` statements of a sequence; there is no transaction around it. */
  function ExecPrefix(db: Db, stmts: seq<Stmt>, k: nat): Db
    requires k <= |stmts|
  {
    if k == 0 then db else Exec(ExecPrefix(db, stmts, k - 1), stmts[k - 1])
  }

  function ExecAll(db: Db, stmts: seq<Stmt>): Db {
    ExecPrefix(db, stmts, |stmts|)
  }
}
