/** `session.unread_count` as an index over the two message tables: four triggers maintain it, the
    mark-read statements bypass them and repair it, and a session delete must not disturb it. */
module UnreadCount {
  import opened Common
  import opened SmsMmsTables
  import opened SessionDelete
  import opened Sums

  /** The operations that touch messages or the count, each a sequence of statements. */
  datatype Op =
    | InsertMessage(sms: SmsRow)
    | InsertRcsMessage(rcs: RcsRow)
    | BatchInsert(batch: seq<SmsRow>)
    | MarkRead(marks: MarkScope)
    | MarkSmsRead(key: MessageKey)
    | MarkRcsRead(key: MessageKey)
    | DeleteSessions(scope: DeleteScope)
    | EditSms(smsChanges: seq<(int, SmsRow)>)
    | EditRcs(rcsChanges: seq<(int, RcsRow)>)
    | RemoveSms(ids: set<int>)
    | RemoveRcs(ids: set<int>)

  function Statements(op: Op): seq<Stmt> {
    match op
    case InsertMessage(row) => [InsertSmsStmt(row)]
    case InsertRcsMessage(row) => [InsertRcsStmt(row)]
    case BatchInsert(rows) => [InsertSmsBatchStmt(rows)]
    case MarkRead(marks) => [ReadSmsStmt(marks), ReadRcsStmt(marks), ZeroUnreadStmt(marks)]
    case MarkSmsRead(key) => [ReadOneSmsStmt(key), RecountSmsStmt(key)]
    case MarkRcsRead(key) => [ReadOneRcsStmt(key), RecountRcsStmt(key)]
    case DeleteSessions(scope) => DeleteStatements(scope)
    case EditSms(changes) => [UpdateSmsStmt(changes)]
    case EditRcs(changes) => [UpdateRcsStmt(changes)]
    case RemoveSms(ids) => [DeleteSmsStmt(ids)]
    case RemoveRcs(ids) => [DeleteRcsStmt(ids)]
  }

  /** Exactly counted: what the table comments promise of the column. */
  predicate ExactAt(db: Db, s: int)
    requires s in db.session.rows
  {
    db.session.rows[s].unreadCount == UnreadOf(db, s)
  }

  ghost predicate Exact(db: Db) {
    forall s :: s in db.session.rows ==> ExactAt(db, s)
  }

  ghost predicate NeverBelow(db: Db) {
    forall s :: s in db.session.rows ==> UnreadOf(db, s) <= db.session.rows[s].unreadCount
  }

  lemma SubsetCount<T>(a: set<T>, b: set<T>)
    requires a <= b
    ensures |a| <= |b|
    ensures |a| == |b| ==> a == b
  {
    assert b == a + (b - a);
  }

  // ---------------------------------------------------------------- one row and its trigger

  /** Adding or changing one row of sms_mms_info leaves every session other than the row's own with
      at most the unread rows it had; its own session is recounted whenever the row is unread. */
  lemma SmsTriggerStep(db: Db, id: int, row: SmsRow, sms: Table<SmsRow>)
    requires sms.rows == db.sms.rows[id := row]
    ensures id !in db.sms.rows ==>
      (Exact(db) ==> Exact(FireTrigger(db.(sms := sms), row.isRead, row.sessionId)))
    ensures NeverBelow(db) ==> NeverBelow(FireTrigger(db.(sms := sms), row.isRead, row.sessionId))
  {
    var next := FireTrigger(db.(sms := sms), row.isRead, row.sessionId);
    forall s | s in db.session.rows
      ensures s != row.sessionId || row.isRead != 0 ==> UnreadSms(sms, s) <= UnreadSms(db.sms, s)
      ensures UnreadOf(next, s) == |UnreadSms(sms, s)| + |UnreadRcs(db.rcs, s)|
      ensures id !in db.sms.rows && (s != row.sessionId || row.isRead != 0) ==>
        UnreadSms(sms, s) == UnreadSms(db.sms, s)
    {}
    if NeverBelow(db) {
      forall s | s in next.session.rows
        ensures UnreadOf(next, s) <= next.session.rows[s].unreadCount
      {
        if s != row.sessionId || row.isRead != 0 {
          SubsetCount(UnreadSms(sms, s), UnreadSms(db.sms, s));
        }
      }
    }
  }

  lemma RcsTriggerStep(db: Db, id: int, row: RcsRow, rcs: Table<RcsRow>)
    requires rcs.rows == db.rcs.rows[id := row]
    ensures id !in db.rcs.rows ==>
      (Exact(db) ==> Exact(FireTrigger(db.(rcs := rcs), row.isRead, row.sessionId)))
    ensures NeverBelow(db) ==> NeverBelow(FireTrigger(db.(rcs := rcs), row.isRead, row.sessionId))
  {
    var next := FireTrigger(db.(rcs := rcs), row.isRead, row.sessionId);
    forall s | s in db.session.rows
      ensures s != row.sessionId || row.isRead != 0 ==> UnreadRcs(rcs, s) <= UnreadRcs(db.rcs, s)
      ensures UnreadOf(next, s) == |UnreadSms(db.sms, s)| + |UnreadRcs(rcs, s)|
      ensures id !in db.rcs.rows && (s != row.sessionId || row.isRead != 0) ==>
        UnreadRcs(rcs, s) == UnreadRcs(db.rcs, s)
    {}
    if NeverBelow(db) {
      forall s | s in next.session.rows
        ensures UnreadOf(next, s) <= next.session.rows[s].unreadCount
      {
        if s != row.sessionId || row.isRead != 0 {
          SubsetCount(UnreadRcs(rcs, s), UnreadRcs(db.rcs, s));
        }
      }
    }
  }

  lemma {:induction false} InsertBatchKeeps(db: Db, rows: seq<SmsRow>)
    requires db.Valid()
    ensures InsertSmsBatch(db, rows).Valid()
    ensures Exact(db) ==> Exact(InsertSmsBatch(db, rows))
    ensures NeverBelow(db) ==> NeverBelow(InsertSmsBatch(db, rows))
    decreases |rows|
  {
    if rows != [] {
      SmsTriggerStep(db, db.sms.lastId + 1, rows[0], db.sms.Add(rows[0]));
      InsertBatchKeeps(InsertSms(db, rows[0]), rows[1..]);
    }
  }

  lemma {:induction false} UpdateSmsKeeps(db: Db, changes: seq<(int, SmsRow)>)
    requires NeverBelow(db)
    ensures NeverBelow(UpdateSms(db, changes))
    decreases |changes|
  {
    if changes != [] {
      var (id, row) := changes[0];
      if id in db.sms.rows {
        SmsTriggerStep(db, id, row, db.sms.Put(id, row));
      }
      UpdateSmsKeeps(UpdateSmsRow(db, id, row), changes[1..]);
    }
  }

  lemma {:induction false} UpdateRcsKeeps(db: Db, changes: seq<(int, RcsRow)>)
    requires NeverBelow(db)
    ensures NeverBelow(UpdateRcs(db, changes))
    decreases |changes|
  {
    if changes != [] {
      var (id, row) := changes[0];
      if id in db.rcs.rows {
        RcsTriggerStep(db, id, row, db.rcs.Put(id, row));
      }
      UpdateRcsKeeps(UpdateRcsRow(db, id, row), changes[1..]);
    }
  }

  // ---------------------------------------------------------------- marking as read

  function ChangedIds<R>(changes: seq<(int, R)>): set<int> {
    set i | 0 <= i < |changes| :: changes[i].0
  }

  lemma ChangedIdsStep<R>(changes: seq<(int, R)>)
    requires changes != []
    ensures ChangedIds(changes) == {changes[0].0} + ChangedIds(changes[1..])
  {
    forall m ensures m in ChangedIds(changes) <==> m == changes[0].0 || m in ChangedIds(changes[1..]) {
      if i :| 1 <= i < |changes| && changes[i].0 == m {
        assert changes[1..][i - 1].0 == m;
      }
      if i :| 0 <= i < |changes[1..]| && changes[1..][i].0 == m {
        assert changes[i + 1].0 == m;
      }
    }
  }

  /** Setting `is_read` row by row fires no trigger, in whatever order the rows are visited: the
      sessions keep their counts, which is why every mark-read operation repairs them itself. */
  lemma {:induction false} MarkingFiresNoTrigger(db: Db, changes: seq<(int, SmsRow)>)
    requires forall i | 0 <= i < |changes| :: changes[i].0 in db.sms.rows
    requires forall i | 0 <= i < |changes| :: changes[i].1 == db.sms.rows[changes[i].0].(isRead := 1)
    ensures UpdateSms(db, changes) == ReadSmsIds(db, ChangedIds(changes))
    decreases |changes|
  {
    var ids := ChangedIds(changes);
    if changes == [] {
      assert ReadSmsIds(db, ids).sms.rows == db.sms.rows;
    } else {
      var (id, row) := changes[0];
      var rest := changes[1..];
      var next := UpdateSmsRow(db, id, row);
      assert next == db.(sms := db.sms.Put(id, row));
      forall i | 0 <= i < |rest|
        ensures rest[i].0 in next.sms.rows && rest[i].1 == next.sms.rows[rest[i].0].(isRead := 1)
      {
        assert rest[i] == changes[i + 1];
      }
      MarkingFiresNoTrigger(next, rest);
      var later := ChangedIds(rest);
      ChangedIdsStep(changes);
      assert ReadSmsIds(next, later).sms.rows == ReadSmsIds(db, ids).sms.rows;
    }
  }

  lemma {:induction false} MarkingRcsFiresNoTrigger(db: Db, changes: seq<(int, RcsRow)>)
    requires forall i | 0 <= i < |changes| :: changes[i].0 in db.rcs.rows
    requires forall i | 0 <= i < |changes| :: changes[i].1 == db.rcs.rows[changes[i].0].(isRead := 1)
    ensures UpdateRcs(db, changes) == ReadRcsIds(db, ChangedIds(changes))
    decreases |changes|
  {
    var ids := ChangedIds(changes);
    if changes == [] {
      assert ReadRcsIds(db, ids).rcs.rows == db.rcs.rows;
    } else {
      var (id, row) := changes[0];
      var rest := changes[1..];
      var next := UpdateRcsRow(db, id, row);
      assert next == db.(rcs := db.rcs.Put(id, row));
      forall i | 0 <= i < |rest|
        ensures rest[i].0 in next.rcs.rows && rest[i].1 == next.rcs.rows[rest[i].0].(isRead := 1)
      {
        assert rest[i] == changes[i + 1];
      }
      MarkingRcsFiresNoTrigger(next, rest);
      var later := ChangedIds(rest);
      ChangedIdsStep(changes);
      assert ReadRcsIds(next, later).rcs.rows == ReadRcsIds(db, ids).rcs.rows;
    }
  }

  ghost predicate MarksSession(db: Db, marks: MarkScope, s: int) {
    match marks
    case One(id) => s == id
    case Notice => s in db.session.rows && IsNotice(db.session.rows[s].smsType)
    case All => true
  }

  lemma ReadSmsUnread(db: Db, ids: set<int>, s: int)
    ensures UnreadSms(ReadSmsIds(db, ids).sms, s) == UnreadSms(db.sms, s) - ids
    ensures |UnreadSms(db.sms, s) - ids| <= |UnreadSms(db.sms, s)|
    ensures |UnreadSms(db.sms, s) - ids| == |UnreadSms(db.sms, s)| <==> UnreadSms(db.sms, s) !! ids
  {
    SubsetCount(UnreadSms(db.sms, s) - ids, UnreadSms(db.sms, s));
  }

  lemma ReadRcsUnread(db: Db, ids: set<int>, s: int)
    ensures UnreadRcs(ReadRcsIds(db, ids).rcs, s) == UnreadRcs(db.rcs, s) - ids
    ensures |UnreadRcs(db.rcs, s) - ids| <= |UnreadRcs(db.rcs, s)|
    ensures |UnreadRcs(db.rcs, s) - ids| == |UnreadRcs(db.rcs, s)| <==> UnreadRcs(db.rcs, s) !! ids
  {
    SubsetCount(UnreadRcs(db.rcs, s) - ids, UnreadRcs(db.rcs, s));
  }

  lemma MarkedSessionsAreRead(db: Db, marks: MarkScope, s: int)
    ensures UnreadSms(db.sms, s) - MarkedSms(db, marks) ==
      if MarksSession(db, marks, s) then {} else UnreadSms(db.sms, s)
    ensures UnreadRcs(db.rcs, s) - MarkedRcs(db, marks) ==
      if MarksSession(db, marks, s) then {} else UnreadRcs(db.rcs, s)
  {
    forall m | m in UnreadSms(db.sms, s) ensures m in MarkedSms(db, marks) <==> MarksSession(db, marks, s) {}
    forall r | r in UnreadRcs(db.rcs, s) ensures r in MarkedRcs(db, marks) <==> MarksSession(db, marks, s) {}
  }

  lemma MarkReadSteps(db: Db, marks: MarkScope)
    ensures var stmts := Statements(MarkRead(marks));
      var one := ReadSmsIds(db, MarkedSms(db, marks));
      var two := ReadRcsIds(one, MarkedRcs(db, marks));
      ExecPrefix(db, stmts, 0) == db && ExecPrefix(db, stmts, 1) == one &&
      ExecPrefix(db, stmts, 2) == two && ExecPrefix(db, stmts, 3) == ZeroUnread(two, marks)
  {
    var stmts := Statements(MarkRead(marks));
    var one := ReadSmsIds(db, MarkedSms(db, marks));
    assert ExecPrefix(db, stmts, 0) == db;
    assert ExecPrefix(db, stmts, 1) == Exec(db, ReadSmsStmt(marks));
    assert one.rcs == db.rcs && one.session == db.session;
    assert MarkedRcs(one, marks) == MarkedRcs(db, marks);
    assert ExecPrefix(db, stmts, 2) == Exec(one, ReadRcsStmt(marks));
    assert ExecPrefix(db, stmts, 3) == Exec(ExecPrefix(db, stmts, 2), ZeroUnreadStmt(marks));
  }

  lemma MarkedUnread(db: Db, marks: MarkScope, s: int)
    requires s in db.session.rows
    ensures var one := ReadSmsIds(db, MarkedSms(db, marks));
      var two := ReadRcsIds(one, MarkedRcs(db, marks));
      UnreadOf(one, s) <= UnreadOf(db, s) && UnreadOf(two, s) <= UnreadOf(db, s) &&
      UnreadOf(two, s) == if MarksSession(db, marks, s) then 0 else UnreadOf(db, s)
  {
    var one := ReadSmsIds(db, MarkedSms(db, marks));
    MarkedSessionsAreRead(db, marks, s);
    ReadSmsUnread(db, MarkedSms(db, marks), s);
    ReadRcsUnread(one, MarkedRcs(db, marks), s);
  }

  lemma ZeroedUnread(db: Db, two: Db, marks: MarkScope, s: int)
    requires s in db.session.rows && two.session == db.session
    ensures s in ZeroUnread(two, marks).session.rows
    ensures UnreadOf(ZeroUnread(two, marks), s) == UnreadOf(two, s)
    ensures MarksSession(db, marks, s) ==> ZeroUnread(two, marks).session.rows[s].unreadCount == 0
    ensures !MarksSession(db, marks, s) ==> ZeroUnread(two, marks).session.rows[s] == db.session.rows[s]
  {}

  lemma MarkReadPrefix(db: Db, marks: MarkScope, k: nat)
    requires k <= 3
    ensures NeverBelow(db) ==> NeverBelow(ExecPrefix(db, Statements(MarkRead(marks)), k))
    ensures k == 3 && Exact(db) ==> Exact(ExecPrefix(db, Statements(MarkRead(marks)), k))
  {
    var one := ReadSmsIds(db, MarkedSms(db, marks));
    var two := ReadRcsIds(one, MarkedRcs(db, marks));
    MarkReadSteps(db, marks);
    forall s | s in db.session.rows
      ensures UnreadOf(one, s) <= UnreadOf(db, s) && UnreadOf(two, s) <= UnreadOf(db, s)
      ensures ZeroUnread(two, marks).session.rows[s].unreadCount ==
        if MarksSession(db, marks, s) then 0 else db.session.rows[s].unreadCount
      ensures UnreadOf(ZeroUnread(two, marks), s) == if MarksSession(db, marks, s) then 0 else UnreadOf(db, s)
    {
      MarkedUnread(db, marks, s);
      ZeroedUnread(db, two, marks, s);
    }
  }

  // ---------------------------------------------------------------- marking one message

  /** The count statement repairs one session: that of the first row the key matches.  Marking by
      number and time can match rows of several sessions. */
  ghost predicate OneSessionAffected(db: Db, key: MessageKey) {
    forall m :: m in MatchedSms(db.sms, key) && db.sms.rows[m].isRead == 0 ==>
      db.sms.rows[m].sessionId == db.sms.rows[First(MatchedSms(db.sms, key))].sessionId ||
      db.sms.rows[m].sessionId !in db.session.rows
  }

  ghost predicate OneRcsSessionAffected(db: Db, key: MessageKey) {
    forall r :: r in MatchedRcs(db.rcs, key) && db.rcs.rows[r].isRead == 0 ==>
      db.rcs.rows[r].sessionId == db.rcs.rows[First(MatchedRcs(db.rcs, key))].sessionId ||
      db.rcs.rows[r].sessionId !in db.session.rows
  }

  lemma MatchedAfterReadSms(db: Db, key: MessageKey)
    ensures MatchedSms(ReadSmsIds(db, MatchedSms(db.sms, key)).sms, key) == MatchedSms(db.sms, key)
  {
    var read := ReadSmsIds(db, MatchedSms(db.sms, key));
    forall m | m in db.sms.rows
      ensures SmsMatches(key, m, read.sms.rows[m]) == SmsMatches(key, m, db.sms.rows[m])
    {}
  }

  lemma RecountSmsAfterRead(db: Db, key: MessageKey)
    ensures var matched := MatchedSms(db.sms, key);
      var read := ReadSmsIds(db, matched);
      RecountSms(read, key) == if matched == {} then read else Recount(read, db.sms.rows[First(matched)].sessionId)
  {
    MatchedAfterReadSms(db, key);
  }

  lemma TwoStatements(db: Db, first: Stmt, second: Stmt)
    ensures ExecPrefix(db, [first, second], 0) == db
    ensures ExecPrefix(db, [first, second], 1) == Exec(db, first)
    ensures ExecPrefix(db, [first, second], 2) == Exec(Exec(db, first), second)
  {
    hide Exec;
    assert ExecPrefix(db, [first, second], 1) == Exec(ExecPrefix(db, [first, second], 0), first);
  }

  lemma MarkingStatements(db: Db, key: MessageKey)
    ensures Exec(db, ReadOneSmsStmt(key)) == ReadSmsIds(db, MatchedSms(db.sms, key))
    ensures Exec(db, ReadOneRcsStmt(key)) == ReadRcsIds(db, MatchedRcs(db.rcs, key))
    ensures Exec(db, RecountSmsStmt(key)) == RecountSms(db, key)
    ensures Exec(db, RecountRcsStmt(key)) == RecountRcs(db, key)
  {}

  lemma MarkSmsReadSteps(db: Db, key: MessageKey)
    ensures var stmts := Statements(MarkSmsRead(key));
      var read := ReadSmsIds(db, MatchedSms(db.sms, key));
      ExecPrefix(db, stmts, 0) == db && ExecPrefix(db, stmts, 1) == read &&
      ExecPrefix(db, stmts, 2) == RecountSms(read, key)
  {
    var stmts := Statements(MarkSmsRead(key));
    assert stmts == [ReadOneSmsStmt(key), RecountSmsStmt(key)];
    hide Exec, ReadSmsIds, ReadRcsIds, RecountSms, RecountRcs, MatchedSms, MatchedRcs, ExecPrefix;
    MarkingStatements(db, key);
    MarkingStatements(ReadSmsIds(db, MatchedSms(db.sms, key)), key);
    TwoStatements(db, ReadOneSmsStmt(key), RecountSmsStmt(key));
  }

  lemma MarkSmsReadAt(db: Db, key: MessageKey, s: int)
    requires s in db.session.rows && ExactAt(db, s)
    ensures var matched := MatchedSms(db.sms, key);
      var next := ExecPrefix(db, Statements(MarkSmsRead(key)), 2);
      s in next.session.rows && (ExactAt(next, s) <==> (UnreadSms(db.sms, s) !! matched ||
        s == db.sms.rows[First(matched)].sessionId))
  {
    hide Statements, ExecPrefix, RecountSms, MatchedSms;
    MarkSmsReadSteps(db, key);
    RecountSmsAfterRead(db, key);
    ReadSmsUnread(db, MatchedSms(db.sms, key), s);
  }

  /** Exactly when marking a message keeps the index; by id it always does. */
  lemma MarkSmsReadIff(db: Db, key: MessageKey)
    requires Exact(db)
    ensures Exact(ExecPrefix(db, Statements(MarkSmsRead(key)), 2)) <==> OneSessionAffected(db, key)
    ensures key.ById? ==> OneSessionAffected(db, key)
  {
    var matched := MatchedSms(db.sms, key);
    var next := ExecPrefix(db, Statements(MarkSmsRead(key)), 2);
    assert next.session.rows.Keys == db.session.rows.Keys by { MarkSmsReadSteps(db, key); }
    forall s | s in db.session.rows
      ensures ExactAt(next, s) <==>
        (UnreadSms(db.sms, s) !! matched || s == db.sms.rows[First(matched)].sessionId)
    {
      MarkSmsReadAt(db, key, s);
    }
    if Exact(next) {
      forall m | m in matched && db.sms.rows[m].isRead == 0 && db.sms.rows[m].sessionId in db.session.rows
        ensures db.sms.rows[m].sessionId == db.sms.rows[First(matched)].sessionId
      {
        assert ExactAt(next, db.sms.rows[m].sessionId);
        assert m in UnreadSms(db.sms, db.sms.rows[m].sessionId);
      }
    }
    if OneSessionAffected(db, key) {
      forall s | s in next.session.rows ensures ExactAt(next, s) {}
    }
  }

  lemma MatchedAfterReadRcs(db: Db, key: MessageKey)
    ensures MatchedRcs(ReadRcsIds(db, MatchedRcs(db.rcs, key)).rcs, key) == MatchedRcs(db.rcs, key)
  {
    var read := ReadRcsIds(db, MatchedRcs(db.rcs, key));
    forall r | r in db.rcs.rows
      ensures RcsMatches(key, r, read.rcs.rows[r]) == RcsMatches(key, r, db.rcs.rows[r])
    {}
  }

  lemma RecountRcsAfterRead(db: Db, key: MessageKey)
    ensures var matched := MatchedRcs(db.rcs, key);
      var read := ReadRcsIds(db, matched);
      RecountRcs(read, key) == if matched == {} then read else Recount(read, db.rcs.rows[First(matched)].sessionId)
  {
    MatchedAfterReadRcs(db, key);
  }

  lemma MarkRcsReadSteps(db: Db, key: MessageKey)
    ensures var stmts := Statements(MarkRcsRead(key));
      var read := ReadRcsIds(db, MatchedRcs(db.rcs, key));
      ExecPrefix(db, stmts, 0) == db && ExecPrefix(db, stmts, 1) == read &&
      ExecPrefix(db, stmts, 2) == RecountRcs(read, key)
  {
    var stmts := Statements(MarkRcsRead(key));
    assert stmts == [ReadOneRcsStmt(key), RecountRcsStmt(key)];
    hide Exec, ReadSmsIds, ReadRcsIds, RecountSms, RecountRcs, MatchedSms, MatchedRcs, ExecPrefix;
    MarkingStatements(db, key);
    MarkingStatements(ReadRcsIds(db, MatchedRcs(db.rcs, key)), key);
    TwoStatements(db, ReadOneRcsStmt(key), RecountRcsStmt(key));
  }

  lemma MarkRcsReadAt(db: Db, key: MessageKey, s: int)
    requires s in db.session.rows && ExactAt(db, s)
    ensures var matched := MatchedRcs(db.rcs, key);
      var next := ExecPrefix(db, Statements(MarkRcsRead(key)), 2);
      s in next.session.rows && (ExactAt(next, s) <==> (UnreadRcs(db.rcs, s) !! matched ||
        s == db.rcs.rows[First(matched)].sessionId))
  {
    hide Statements, ExecPrefix, RecountRcs, MatchedRcs;
    MarkRcsReadSteps(db, key);
    RecountRcsAfterRead(db, key);
    ReadRcsUnread(db, MatchedRcs(db.rcs, key), s);
  }

  /** Exactly when marking a message keeps the index; by id it always does. */
  lemma MarkRcsReadIff(db: Db, key: MessageKey)
    requires Exact(db)
    ensures Exact(ExecPrefix(db, Statements(MarkRcsRead(key)), 2)) <==> OneRcsSessionAffected(db, key)
    ensures key.ById? ==> OneRcsSessionAffected(db, key)
  {
    var matched := MatchedRcs(db.rcs, key);
    var next := ExecPrefix(db, Statements(MarkRcsRead(key)), 2);
    assert next.session.rows.Keys == db.session.rows.Keys by { MarkRcsReadSteps(db, key); }
    forall s | s in db.session.rows
      ensures ExactAt(next, s) <==>
        (UnreadRcs(db.rcs, s) !! matched || s == db.rcs.rows[First(matched)].sessionId)
    {
      MarkRcsReadAt(db, key, s);
    }
    if Exact(next) {
      forall r | r in matched && db.rcs.rows[r].isRead == 0 && db.rcs.rows[r].sessionId in db.session.rows
        ensures db.rcs.rows[r].sessionId == db.rcs.rows[First(matched)].sessionId
      {
        assert ExactAt(next, db.rcs.rows[r].sessionId);
        assert r in UnreadRcs(db.rcs, db.rcs.rows[r].sessionId);
      }
    }
    if OneRcsSessionAffected(db, key) {
      forall s | s in next.session.rows ensures ExactAt(next, s) {}
    }
  }

  // ---------------------------------------------------------------- deleting sessions

  /** No rcs row that the delete removes was counted by a session that stays. */
  ghost predicate RemovesOnlyOwnRcs(db: Db, scope: DeleteScope) {
    forall r :: DeleteRcsWhere(db, scope, r) && db.rcs.rows[r].isRead == 0 ==>
      db.rcs.rows[r].sessionId !in Simultaneous(db, scope).session.rows
  }

  /** A message and its rcs row belong to the same conversation. */
  ghost predicate SameConversation(db: Db) {
    forall m :: m in db.sms.rows && db.sms.rows[m].rcsId in db.rcs.rows ==>
      db.rcs.rows[db.sms.rows[m].rcsId].sessionId == db.sms.rows[m].sessionId
  }

  lemma DeleteSessionsIff(db: Db, scope: DeleteScope)
    requires Exact(db)
    ensures Exact(DeleteAll(db, scope)) <==> RemovesOnlyOwnRcs(db, scope)
    ensures SameConversation(db) ==> RemovesOnlyOwnRcs(db, scope)
  {
    DeleteIsSimultaneous(db, scope);
    var next := Simultaneous(db, scope);
    forall s | s in next.session.rows
      ensures UnreadSms(next.sms, s) == UnreadSms(db.sms, s)
      ensures UnreadRcs(next.rcs, s) <= UnreadRcs(db.rcs, s)
      ensures ExactAt(next, s) <==> UnreadRcs(next.rcs, s) == UnreadRcs(db.rcs, s)
    {
      SubsetCount(UnreadRcs(next.rcs, s), UnreadRcs(db.rcs, s));
    }
    if Exact(next) {
      forall r | DeleteRcsWhere(db, scope, r) && db.rcs.rows[r].isRead == 0
        ensures db.rcs.rows[r].sessionId !in next.session.rows
      {
        assert r in UnreadRcs(db.rcs, db.rcs.rows[r].sessionId);
        assert r !in UnreadRcs(next.rcs, db.rcs.rows[r].sessionId);
      }
    }
  }

  lemma {:induction false} DeletePrefixNeverBelow(db: Db, scope: DeleteScope, k: nat)
    requires NeverBelow(db) && k <= DELETE_STEPS
    ensures NeverBelow(DeletePrefix(db, scope, k))
  {
    if k > 0 {
      DeletePrefixNeverBelow(db, scope, k - 1);
      var before := DeletePrefix(db, scope, k - 1);
      var next := DeletePrefix(db, scope, k);
      assert next == Exec(before, DeleteStatements(scope)[k - 1]);
      forall s | s in next.session.rows
        ensures UnreadOf(next, s) <= next.session.rows[s].unreadCount
      {
        SubsetCount(UnreadSms(next.sms, s), UnreadSms(before.sms, s));
        SubsetCount(UnreadRcs(next.rcs, s), UnreadRcs(before.rcs, s));
      }
    }
  }

  // ---------------------------------------------------------------- every run

  /** One operation of a run: how many of its statements took effect before one failed. */
  datatype Event = Event(op: Op, done: nat)

  function Apply(db: Db, e: Event): Db {
    var stmts := Statements(e.op);
    ExecPrefix(db, stmts, if e.done < |stmts| then e.done else |stmts|)
  }

  function Run(db: Db, events: seq<Event>): Db {
    if events == [] then db else Apply(Run(db, events[..|events| - 1]), events[|events| - 1])
  }

  /** The operations that maintain the index; a failed insert, single or batch, changes nothing. */
  ghost predicate Maintains(db: Db, e: Event) {
    match e.op
    case InsertMessage(_) => true
    case InsertRcsMessage(_) => true
    case BatchInsert(_) => true
    case MarkRead(_) => e.done == 0 || e.done >= 3
    case MarkSmsRead(key) => e.done == 0 || (e.done >= 2 && OneSessionAffected(db, key))
    case MarkRcsRead(key) => e.done == 0 || (e.done >= 2 && OneRcsSessionAffected(db, key))
    case DeleteSessions(scope) => e.done == 0 || (e.done >= DELETE_STEPS && RemovesOnlyOwnRcs(db, scope))
    case _ => false
  }

  ghost predicate MaintainedRun(db: Db, events: seq<Event>) {
    forall i :: 0 <= i < |events| ==> Maintains(Run(db, events[..i]), events[i])
  }

  lemma ApplyValid(db: Db, e: Event)
    requires db.Valid()
    ensures Apply(db, e).Valid()
  {
    ExecPrefixValid(db, Statements(e.op), if e.done < |Statements(e.op)| then e.done else |Statements(e.op)|);
  }

  lemma {:induction false} UpdatesValid(db: Db, sms: seq<(int, SmsRow)>, rcs: seq<(int, RcsRow)>)
    requires db.Valid()
    ensures UpdateSms(db, sms).Valid() && UpdateRcs(db, rcs).Valid()
    decreases |sms| + |rcs|
  {
    if sms != [] { UpdatesValid(UpdateSmsRow(db, sms[0].0, sms[0].1), sms[1..], []); }
    if rcs != [] { UpdatesValid(UpdateRcsRow(db, rcs[0].0, rcs[0].1), [], rcs[1..]); }
  }

  /** No statement but an insert adds a row, and no statement hands out an id twice. */
  lemma DeleteStatementValid(db: Db, scope: DeleteScope, i: nat)
    requires db.Valid() && i < DELETE_STEPS
    ensures Exec(db, DeleteStatements(scope)[i]).Valid()
  {}

  lemma ExecValid(db: Db, stmt: Stmt)
    requires db.Valid()
    ensures Exec(db, stmt).Valid()
  {
    match stmt {
      case InsertSmsBatchStmt(rows) => InsertBatchKeeps(db, rows);
      case UpdateSmsStmt(changes) => UpdatesValid(db, changes, []);
      case UpdateRcsStmt(changes) => UpdatesValid(db, [], changes);
      case DeleteMmsPartStmt(scope) => DeleteStatementValid(db, scope, 0);
      case UpdateMmsPartStmt(scope) => DeleteStatementValid(db, scope, 1);
      case DeleteRcsPartStmt(scope) => DeleteStatementValid(db, scope, 2);
      case UpdateRcsPartStmt(scope) => DeleteStatementValid(db, scope, 3);
      case DeleteRcsInfoStmt(scope) => DeleteStatementValid(db, scope, 4);
      case DeleteInfoStmt(scope) => DeleteStatementValid(db, scope, 5);
      case DeleteSessionStmt(scope) => DeleteStatementValid(db, scope, 6);
      case _ =>
    }
  }

  lemma {:induction false} ExecPrefixValid(db: Db, stmts: seq<Stmt>, k: nat)
    requires db.Valid() && k <= |stmts|
    ensures ExecPrefix(db, stmts, k).Valid()
  {
    if k > 0 {
      ExecPrefixValid(db, stmts, k - 1);
      ExecValid(ExecPrefix(db, stmts, k - 1), stmts[k - 1]);
    }
  }

  lemma ApplyExact(db: Db, e: Event)
    requires db.Valid() && Exact(db) && Maintains(db, e)
    ensures Exact(Apply(db, e))
  {
    var stmts := Statements(e.op);
    assert ExecPrefix(db, stmts, 0) == db;
    if e.done > 0 {
      assert Apply(db, e) == ExecAll(db, stmts);
      match e.op {
        case InsertMessage(row) =>
          SmsTriggerStep(db, db.sms.lastId + 1, row, db.sms.Add(row));
          assert ExecPrefix(db, stmts, 1) == InsertSms(db, row);
        case InsertRcsMessage(row) =>
          RcsTriggerStep(db, db.rcs.lastId + 1, row, db.rcs.Add(row));
          assert ExecPrefix(db, stmts, 1) == InsertRcs(db, row);
        case BatchInsert(rows) =>
          InsertBatchKeeps(db, rows);
          assert ExecPrefix(db, stmts, 1) == InsertSmsBatch(db, rows);
        case MarkRead(marks) => MarkReadPrefix(db, marks, 3);
        case MarkSmsRead(key) => MarkSmsReadIff(db, key);
        case MarkRcsRead(key) => MarkRcsReadIff(db, key);
        case DeleteSessions(scope) => DeleteSessionsIff(db, scope);
      }
    }
  }

  /** The index is exact after every run of the maintaining operations. */
  lemma {:induction false} UnreadIndexExact(db: Db, events: seq<Event>)
    requires db.Valid() && Exact(db) && MaintainedRun(db, events)
    ensures Run(db, events).Valid() && Exact(Run(db, events))
  {
    hide Apply, Exact, Maintains;
    if events != [] {
      var n := |events| - 1;
      assert events[..n] + [events[n]] == events;
      forall i | 0 <= i < n ensures Maintains(Run(db, events[..n][..i]), events[..n][i]) {
        assert events[..n][..i] == events[..i];
      }
      UnreadIndexExact(db, events[..n]);
      ApplyValid(Run(db, events[..n]), events[n]);
      ApplyExact(Run(db, events[..n]), events[n]);
    }
  }

  lemma ApplyNeverBelow(db: Db, e: Event)
    requires db.Valid() && NeverBelow(db)
    ensures NeverBelow(Apply(db, e))
  {
    hide NeverBelow;
    var stmts := Statements(e.op);
    var k := if e.done < |stmts| then e.done else |stmts|;
    assert ExecPrefix(db, stmts, 0) == db;
    if k > 0 {
      assert |stmts| == 1 ==> ExecPrefix(db, stmts, 1) == Exec(db, stmts[0]);
      match e.op {
        case InsertMessage(row) => SmsTriggerStep(db, db.sms.lastId + 1, row, db.sms.Add(row));
        case InsertRcsMessage(row) => RcsTriggerStep(db, db.rcs.lastId + 1, row, db.rcs.Add(row));
        case BatchInsert(rows) => InsertBatchKeeps(db, rows);
        case MarkRead(marks) => MarkReadPrefix(db, marks, k);
        case MarkSmsRead(key) =>
          MarkSmsReadSteps(db, key);
          ReadNeverBelow(db, MatchedSms(db.sms, key), {});
          RecountNeverBelow(ReadSmsIds(db, MatchedSms(db.sms, key)), key);
        case MarkRcsRead(key) =>
          MarkRcsReadSteps(db, key);
          ReadNeverBelow(db, {}, MatchedRcs(db.rcs, key));
          RecountNeverBelow(ReadRcsIds(db, MatchedRcs(db.rcs, key)), key);
        case DeleteSessions(scope) => DeletePrefixNeverBelow(db, scope, k);
        case EditSms(changes) => UpdateSmsKeeps(db, changes);
        case EditRcs(changes) => UpdateRcsKeeps(db, changes);
        case RemoveSms(ids) => RemoveNeverBelow(db, db.(sms := db.sms.Without(ids)));
        case RemoveRcs(ids) => RemoveNeverBelow(db, db.(rcs := db.rcs.Without(ids)));
      }
    }
  }

  lemma RecountNeverBelow(db: Db, key: MessageKey)
    requires NeverBelow(db)
    ensures NeverBelow(RecountSms(db, key)) && NeverBelow(RecountRcs(db, key))
  {}

  lemma RemoveNeverBelow(db: Db, next: Db)
    requires NeverBelow(db) && next.session == db.session
    requires forall m :: m in next.sms.rows ==> m in db.sms.rows && next.sms.rows[m] == db.sms.rows[m]
    requires forall r :: r in next.rcs.rows ==> r in db.rcs.rows && next.rcs.rows[r] == db.rcs.rows[r]
    ensures NeverBelow(next)
  {
    forall s | s in db.session.rows ensures UnreadOf(next, s) <= UnreadOf(db, s) {
      forall m | m in UnreadSms(next.sms, s) ensures m in UnreadSms(db.sms, s) {}
      forall r | r in UnreadRcs(next.rcs, s) ensures r in UnreadRcs(db.rcs, s) {}
      SubsetCount(UnreadSms(next.sms, s), UnreadSms(db.sms, s));
      SubsetCount(UnreadRcs(next.rcs, s), UnreadRcs(db.rcs, s));
    }
  }

  lemma ReadNeverBelow(db: Db, sms: set<int>, rcs: set<int>)
    requires NeverBelow(db)
    ensures NeverBelow(ReadSmsIds(db, sms)) && NeverBelow(ReadRcsIds(db, rcs))
  {
    forall s | s in db.session.rows
      ensures UnreadOf(ReadSmsIds(db, sms), s) <= UnreadOf(db, s)
      ensures UnreadOf(ReadRcsIds(db, rcs), s) <= UnreadOf(db, s)
    {
      SubsetCount(UnreadSms(ReadSmsIds(db, sms).sms, s), UnreadSms(db.sms, s));
      SubsetCount(UnreadRcs(ReadRcsIds(db, rcs).rcs, s), UnreadRcs(db.rcs, s));
    }
  }

  /** Whatever else happens to the messages, and wherever an operation stops part way, the count is
      never below the true number: unread messages may be over-reported, never hidden. */
  lemma {:induction false} UnreadNeverBelow(db: Db, events: seq<Event>)
    requires db.Valid() && NeverBelow(db)
    ensures Run(db, events).Valid() && NeverBelow(Run(db, events))
  {
    hide Apply, NeverBelow;
    if events != [] {
      var n := |events| - 1;
      UnreadNeverBelow(db, events[..n]);
      ApplyValid(Run(db, events[..n]), events[n]);
      ApplyNeverBelow(Run(db, events[..n]), events[n]);
    }
  }

  // ---------------------------------------------------------------- the totals shown to the user

  datatype UnreadStatistics = UnreadStatistics(total: int, ordinary: int, info: int, notice: int)

  /** The CASE of a total: every session, or those of one sms_type. */
  datatype Types = Every | Only(smsType: int)

  predicate OfType(types: Types, smsType: int) {
    types.Every? || types.smsType == smsType
  }

  ghost function UnreadTotal(db: Db, types: Types): int {
    Sum(map s | s in db.session.rows ::
      if OfType(types, db.session.rows[s].smsType) then db.session.rows[s].unreadCount else 0)
  }

  ghost function StatisticsUnRead(db: Db): UnreadStatistics {
    UnreadStatistics(UnreadTotal(db, Every), UnreadTotal(db, Only(0)), UnreadTotal(db, Only(2)), UnreadTotal(db,
      Only(1)))
  }

  ghost function UnreadSmsIn(db: Db, sessions: set<int>): set<int> {
    set m | m in db.sms.rows && db.sms.rows[m].sessionId in sessions && db.sms.rows[m].isRead == 0
  }

  ghost function UnreadRcsIn(db: Db, sessions: set<int>): set<int> {
    set r | r in db.rcs.rows && db.rcs.rows[r].sessionId in sessions && db.rcs.rows[r].isRead == 0
  }

  ghost function SessionsOfType(db: Db, types: Types): set<int> {
    set s | s in db.session.rows && OfType(types, db.session.rows[s].smsType)
  }

  lemma CountOneMore(db: Db, rest: set<int>, x: int)
    requires x !in rest
    ensures |UnreadSmsIn(db, rest + {x})| + |UnreadRcsIn(db, rest + {x})| ==
      |UnreadSmsIn(db, rest)| + |UnreadRcsIn(db, rest)| + UnreadOf(db, x)
  {
    assert UnreadSmsIn(db, rest + {x}) == UnreadSmsIn(db, rest) + UnreadSms(db.sms, x);
    assert UnreadRcsIn(db, rest + {x}) == UnreadRcsIn(db, rest) + UnreadRcs(db.rcs, x);
  }

  /** Counting per session and adding up is counting once. */
  lemma {:induction false} CountBySession(db: Db, sessions: set<int>)
    requires sessions <= db.session.rows.Keys
    ensures Sum(map s | s in db.session.rows :: if s in sessions then UnreadOf(db, s) else 0) ==
      |UnreadSmsIn(db, sessions)| + |UnreadRcsIn(db, sessions)|
    decreases |sessions|
  {
    var sums := map s | s in db.session.rows :: if s in sessions then UnreadOf(db, s) else 0;
    if sessions == {} {
      SumZero(sums);
    } else {
      hide UnreadSmsIn, UnreadRcsIn, UnreadOf;
      var x := Pick(sessions);
      var rest := sessions - {x};
      CountBySession(db, rest);
      var restSums := map s | s in db.session.rows :: if s in rest then UnreadOf(db, s) else 0;
      SumPut(restSums, x, UnreadOf(db, x));
      assert restSums[x := UnreadOf(db, x)] == sums;
      CountOneMore(db, rest, x);
      assert rest + {x} == sessions;
    }
  }

  /** With an exact index every total is the number of unread messages in existing sessions of those
      types; after runs that only keep the lower bound, no total is below it. */
  lemma TotalsCountUnread(db: Db, types: Types)
    ensures var unread := |UnreadSmsIn(db, SessionsOfType(db, types))| + |UnreadRcsIn(db, SessionsOfType(db, types))|;
      (Exact(db) ==> UnreadTotal(db, types) == unread) && (NeverBelow(db) ==> unread <= UnreadTotal(db, types))
  {
    var sessions := SessionsOfType(db, types);
    CountBySession(db, sessions);
    var counts := map s | s in db.session.rows :: if s in sessions then UnreadOf(db, s) else 0;
    var column := map s | s in db.session.rows ::
      if OfType(types, db.session.rows[s].smsType) then db.session.rows[s].unreadCount else 0;
    if Exact(db) {
      forall s | s in db.session.rows ensures counts[s] == column[s] { assert ExactAt(db, s); }
      assert counts == column;
    }
    if NeverBelow(db) {
      SumMonotone(counts, column);
    }
  }

  /** The unread messages of the existing conversations of one sms_type. */
  ghost function UnreadOfType(db: Db, smsType: int): nat {
    |set m | m in db.sms.rows && db.sms.rows[m].isRead == 0 && db.sms.rows[m].sessionId in db.session.rows &&
      db.session.rows[db.sms.rows[m].sessionId].smsType == smsType| +
    |set r | r in db.rcs.rows && db.rcs.rows[r].isRead == 0 && db.rcs.rows[r].sessionId in db.session.rows &&
      db.session.rows[db.rcs.rows[r].sessionId].smsType == smsType|
  }

  lemma TypeTotal(db: Db, smsType: int)
    requires Exact(db)
    ensures UnreadTotal(db, Only(smsType)) == UnreadOfType(db, smsType)
  {
    TotalsCountUnread(db, Only(smsType));
    var sessions := SessionsOfType(db, Only(smsType));
    assert UnreadSmsIn(db, sessions) ==
      set m | m in db.sms.rows && db.sms.rows[m].isRead == 0 && db.sms.rows[m].sessionId in db.session.rows &&
        db.session.rows[db.sms.rows[m].sessionId].smsType == smsType;
    assert UnreadRcsIn(db, sessions) ==
      set r | r in db.rcs.rows && db.rcs.rows[r].isRead == 0 && db.rcs.rows[r].sessionId in db.session.rows &&
        db.session.rows[db.rcs.rows[r].sessionId].smsType == smsType;
  }

  /** After every maintaining run the totals shown are the unread messages of all conversations, of the
      ordinary ones, of those with information and of those with notifications. */
  lemma StatisticsAreExact(db: Db, events: seq<Event>)
    requires db.Valid() && Exact(db) && MaintainedRun(db, events)
    ensures var now := Run(db, events);
      StatisticsUnRead(now).total ==
        |UnreadSmsIn(now, now.session.rows.Keys)| + |UnreadRcsIn(now, now.session.rows.Keys)| &&
      StatisticsUnRead(now).ordinary == UnreadOfType(now, 0) &&
      StatisticsUnRead(now).info == UnreadOfType(now, 2) &&
      StatisticsUnRead(now).notice == UnreadOfType(now, 1)
  {
    hide Run, UnreadTotal, UnreadOfType;
    var now := Run(db, events);
    UnreadIndexExact(db, events);
    TypeTotal(now, 0);
    TypeTotal(now, 1);
    TypeTotal(now, 2);
    TotalsCountUnread(now, Every);
    forall s | s in now.session.rows ensures s in SessionsOfType(now, Every) {}
    assert SessionsOfType(now, Every) == now.session.rows.Keys;
  }
}
