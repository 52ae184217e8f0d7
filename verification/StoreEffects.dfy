/** What the operations on the open store do to the rows, said in columns: which conversations a delete
    takes with it, where inserted messages end up, and what marking as read changes. */
module StoreEffects {
  import opened Common
  import opened SmsMmsTables
  import opened SessionDelete
  import opened UnreadCount

  // ---------------------------------------------------------------- deleting conversations

  predicate HasValue(row: SessionRow, test: Equals) {
    test == Column(SmsType, row.smsType) || test == Column(SessionColumn.UnreadCount, row.unreadCount) ||
    test == Column(MessageCount, row.messageCount) || test == Column(Time, row.time)
  }

  /** A delete is for the listed conversations, or for all but those; with a column test only for such
      as exist and have that value. */
  predicate Takes(db: Db, scope: DeleteScope, s: int) {
    ((scope.limit == In && s in scope.ids) || (scope.limit == NotIn && s !in scope.ids)) &&
    (scope.equals == Any || (s in db.session.rows && HasValue(db.session.rows[s], scope.equals)))
  }

  /** Message `m` of a conversation that goes. */
  predicate InTaken(db: Db, scope: DeleteScope, m: int) {
    m in db.sms.rows && Takes(db, scope, db.sms.rows[m].sessionId)
  }

  /** Message `m`, going and not blocked, names rcs row `r`. */
  predicate TakesRcs(db: Db, scope: DeleteScope, m: int, r: int) {
    InTaken(db, scope, m) && db.sms.rows[m].rcsId == r
  }

  ghost predicate ReachedByRcs(db: Db, scope: DeleteScope, r: int) {
    r > 0 && exists m :: TakesRcs(db, scope, m, r) && db.sms.rows[m].isBlocked != 1
  }

  ghost predicate UncollectedByRcs(db: Db, scope: DeleteScope, r: int) {
    r > 0 && exists m :: TakesRcs(db, scope, m, r) && db.sms.rows[m].isBlocked != 1 && db.sms.rows[m].isCollect == 0
  }

  /** The references to a part that the delete gives up: one by its message, one by its rcs row. */
  ghost function GivenUp(db: Db, scope: DeleteScope, part: PartRow): nat {
    (if InTaken(db, scope, part.msgId) then 1 else 0) + (if ReachedByRcs(db, scope, part.rcsId) then 1 else 0)
  }

  /** A counted part goes with its last reference, an uncounted one (-1) with a message that is not a
      favourite; any other part stays. */
  ghost predicate PartGoes(db: Db, scope: DeleteScope, part: PartRow) {
    (part.refCount > 0 && part.refCount <= GivenUp(db, scope, part)) ||
    (part.refCount == -1 && InTaken(db, scope, part.msgId) && db.sms.rows[part.msgId].isCollect == 0) ||
    (part.refCount == -1 && UncollectedByRcs(db, scope, part.rcsId))
  }

  ghost predicate SessionsTaken(db: Db, next: Db, scope: DeleteScope) {
    (forall s :: s in next.session.rows <==> s in db.session.rows && !Takes(db, scope, s)) &&
    forall s :: s in next.session.rows ==> next.session.rows[s] == db.session.rows[s]
  }

  /** Blocked messages stay behind, whatever becomes of their conversation. */
  ghost predicate MessagesTaken(db: Db, next: Db, scope: DeleteScope) {
    (forall m :: m in next.sms.rows <==>
      m in db.sms.rows && (!Takes(db, scope, db.sms.rows[m].sessionId) || db.sms.rows[m].isBlocked == 1)) &&
    forall m :: m in next.sms.rows ==> next.sms.rows[m] == db.sms.rows[m]
  }

  ghost predicate RcsTaken(db: Db, next: Db, scope: DeleteScope) {
    (forall r :: r in next.rcs.rows <==>
      r in db.rcs.rows && (db.rcs.rows[r].isBlocked == 1 || forall m :: !TakesRcs(db, scope, m, r))) &&
    forall r :: r in next.rcs.rows ==> next.rcs.rows[r] == db.rcs.rows[r]
  }

  ghost predicate PartsTaken(db: Db, next: Db, scope: DeleteScope) {
    (forall p :: p in next.part.rows <==> p in db.part.rows && !PartGoes(db, scope, db.part.rows[p])) &&
    forall p :: p in next.part.rows ==>
      var part := db.part.rows[p];
      next.part.rows[p] == if part.refCount > 0 then part.(refCount := part.refCount - GivenUp(db, scope, part))
                           else part
  }

  /** Exactly the rows that belong to the conversations named are gone, and nothing else has changed. */
  ghost predicate TakesConversations(db: Db, next: Db, scope: DeleteScope) {
    SessionsTaken(db, next, scope) && MessagesTaken(db, next, scope) && RcsTaken(db, next, scope) &&
    PartsTaken(db, next, scope) && next.url == db.url &&
    next.sms.lastId == db.sms.lastId && next.rcs.lastId == db.rcs.lastId &&
    next.part.lastId == db.part.lastId && next.session.lastId == db.session.lastId
  }

  lemma TakesIsSelects(db: Db, scope: DeleteScope, s: int)
    ensures Takes(db, scope, s) <==> Selects(db, scope, s)
  {}

  lemma PartGoesIsDisappears(db: Db, scope: DeleteScope, part: PartRow)
    ensures GivenUp(db, scope, part) == Reach(db, scope, part)
    ensures PartGoes(db, scope, part) <==> Disappears(db, scope, part)
  {
    forall m ensures InTaken(db, scope, m) <==> Selected(db, scope, m) {
      if m in db.sms.rows { TakesIsSelects(db, scope, db.sms.rows[m].sessionId); }
    }
    assert ReachedByRcs(db, scope, part.rcsId) <==> ByRcs(db, scope, part, false) by {
      if ByRcs(db, scope, part, false) {
        var m :| m in db.sms.rows && Selected(db, scope, m) && db.sms.rows[m].rcsId == part.rcsId && part.rcsId > 0 &&
          db.sms.rows[m].isBlocked != 1;
        assert TakesRcs(db, scope, m, part.rcsId);
      }
    }
    assert UncollectedByRcs(db, scope, part.rcsId) <==> ByRcs(db, scope, part, true) by {
      if ByRcs(db, scope, part, true) {
        var m :| m in db.sms.rows && Selected(db, scope, m) && db.sms.rows[m].rcsId == part.rcsId && part.rcsId > 0 &&
          db.sms.rows[m].isBlocked != 1 && db.sms.rows[m].isCollect == 0;
        assert TakesRcs(db, scope, m, part.rcsId);
      }
    }
  }

  lemma RcsGoesIsDeleted(db: Db, scope: DeleteScope, r: int)
    requires r in db.rcs.rows
    ensures DeleteRcsWhere(db, scope, r) <==>
      !(db.rcs.rows[r].isBlocked == 1 || forall m :: !TakesRcs(db, scope, m, r))
  {
    forall m ensures InTaken(db, scope, m) <==> Selected(db, scope, m) {
      if m in db.sms.rows { TakesIsSelects(db, scope, db.sms.rows[m].sessionId); }
    }
    if DeleteRcsWhere(db, scope, r) {
      var m :| m in db.sms.rows && Selected(db, scope, m) && db.sms.rows[m].rcsId == r;
      assert TakesRcs(db, scope, m, r);
    }
  }

  /** The seven statements together take the conversations named: with a list those in it, without one
      those outside it, each with its messages that are not blocked, and what only these held. */
  lemma DeleteTakesConversations(db: Db, scope: DeleteScope)
    ensures TakesConversations(db, DeleteAll(db, scope), scope)
  {
    DeleteIsSimultaneous(db, scope);
    var next := DeleteAll(db, scope);
    hide Takes, Selects, PartGoes, Disappears, Reach, GivenUp, DeleteRcsWhere, TakesRcs;
    forall s ensures Takes(db, scope, s) <==> Selects(db, scope, s) { TakesIsSelects(db, scope, s); }
    forall r | r in db.rcs.rows
      ensures DeleteRcsWhere(db, scope, r) <==>
        !(db.rcs.rows[r].isBlocked == 1 || forall m :: !TakesRcs(db, scope, m, r))
    {
      RcsGoesIsDeleted(db, scope, r);
    }
    forall p | p in db.part.rows
      ensures GivenUp(db, scope, db.part.rows[p]) == Reach(db, scope, db.part.rows[p])
      ensures PartGoes(db, scope, db.part.rows[p]) <==> Disappears(db, scope, db.part.rows[p])
    {
      PartGoesIsDisappears(db, scope, db.part.rows[p]);
    }
    assert next.part.rows == KeptParts(db, scope);
  }

  // ---------------------------------------------------------------- inserting messages

  predicate BringsUnread(rows: seq<SmsRow>, s: int) {
    exists i :: 0 <= i < |rows| && rows[i].sessionId == s && rows[i].isRead == 0
  }

  predicate Stored(sms: Table<SmsRow>, id: int, row: SmsRow) {
    id in sms.rows && sms.rows[id] == row
  }

  /** Every message is there under the next id, in the order given, and no other row has changed but for
      the counts of the conversations that got unread ones. */
  ghost predicate Inserts(db: Db, next: Db, rows: seq<SmsRow>) {
    next.sms.lastId == db.sms.lastId + |rows| &&
    (forall i :: 0 <= i < |rows| ==> Stored(next.sms, db.sms.lastId + 1 + i, rows[i])) &&
    (forall m :: !(db.sms.lastId < m <= db.sms.lastId + |rows|) ==>
      (m in next.sms.rows <==> m in db.sms.rows) && (m in db.sms.rows ==> next.sms.rows[m] == db.sms.rows[m])) &&
    next.rcs == db.rcs && next.part == db.part && next.url == db.url && next.session.lastId == db.session.lastId &&
    (forall s :: s in next.session.rows <==> s in db.session.rows) &&
    forall s :: s in db.session.rows ==>
      next.session.rows[s] == db.session.rows[s].(unreadCount :=
        if BringsUnread(rows, s) then UnreadOf(next, s) else db.session.rows[s].unreadCount)
  }

  lemma InsertsOne(db: Db, row: SmsRow)
    ensures Inserts(db, InsertSms(db, row), [row])
  {
    var next := InsertSms(db, row);
    forall s | s in db.session.rows
      ensures BringsUnread([row], s) <==> row.sessionId == s && row.isRead == 0
    {
      assert row.sessionId == s && row.isRead == 0 ==> [row][0].sessionId == s && [row][0].isRead == 0;
    }
    assert next.session.rows.Keys == db.session.rows.Keys;
  }

  /** Further messages that are read, or of other conversations, leave the unread ones of `s` alone. */
  lemma UnreadStays(mid: Db, next: Db, rows: seq<SmsRow>, s: int)
    requires mid.sms.Valid() && Inserts(mid, next, rows) && !BringsUnread(rows, s)
    ensures UnreadOf(next, s) == UnreadOf(mid, s)
  {
    forall m ensures m in UnreadSms(next.sms, s) <==> m in UnreadSms(mid.sms, s) {
      var i := m - mid.sms.lastId - 1;
      if 0 <= i < |rows| {
        var row := rows[i];
        assert Stored(next.sms, m, row);
      }
    }
    assert UnreadSms(next.sms, s) == UnreadSms(mid.sms, s);
  }

  lemma BringsUnreadStep(rows: seq<SmsRow>, s: int)
    requires rows != []
    ensures BringsUnread(rows, s) <==> BringsUnread([rows[0]], s) || BringsUnread(rows[1..], s)
  {
    if i :| 0 <= i < |rows| && rows[i].sessionId == s && rows[i].isRead == 0 {
      if i == 0 { assert [rows[0]][0].sessionId == s; } else { assert rows[1..][i - 1].sessionId == s; }
    }
  }

  lemma InsertsThen(db: Db, mid: Db, next: Db, rows: seq<SmsRow>)
    requires rows != [] && mid.sms.Valid()
    requires Inserts(db, mid, [rows[0]]) && Inserts(mid, next, rows[1..])
    ensures Inserts(db, next, rows)
  {
    hide BringsUnread, UnreadOf;
    var base := db.sms.lastId;
    forall i | 0 <= i < |rows| ensures Stored(next.sms, base + 1 + i, rows[i]) {
      if i == 0 {
        var row := [rows[0]][i];
        assert Stored(mid.sms, base + 1, row);
      } else {
        var row := rows[1..][i - 1];
        assert Stored(next.sms, base + 1 + i, row);
      }
    }
    forall m | !(base < m <= base + |rows|)
      ensures (m in next.sms.rows <==> m in db.sms.rows) &&
        (m in db.sms.rows ==> next.sms.rows[m] == db.sms.rows[m])
    {
      assert m in mid.sms.rows <==> m in db.sms.rows;
    }
    forall s | s in db.session.rows
      ensures next.session.rows[s] == db.session.rows[s].(unreadCount :=
        if BringsUnread(rows, s) then UnreadOf(next, s) else db.session.rows[s].unreadCount)
    {
      BringsUnreadStep(rows, s);
      if !BringsUnread(rows[1..], s) { UnreadStays(mid, next, rows[1..], s); }
    }
  }

  lemma {:induction false} BatchInserts(db: Db, rows: seq<SmsRow>)
    requires db.sms.Valid()
    ensures Inserts(db, InsertSmsBatch(db, rows), rows)
    decreases |rows|
  {
    if rows != [] {
      var mid := InsertSms(db, rows[0]);
      InsertsOne(db, rows[0]);
      BatchInserts(mid, rows[1..]);
      InsertsThen(db, mid, InsertSmsBatch(db, rows), rows);
    }
  }

  // ---------------------------------------------------------------- marking as read

  predicate NoticeSession(db: Db, s: int) {
    s in db.session.rows && (db.session.rows[s].smsType == 1 || db.session.rows[s].smsType == 2)
  }

  /** The `is_read` a message of conversation `s` has after the mark: all of one conversation's, or of the
      information and notification ones, or every one that is 0. */
  function ReadBy(db: Db, marks: MarkScope, s: int, isRead: int): int {
    if marks == One(s) || (marks == Notice && NoticeSession(db, s)) || (marks == All && isRead == 0) then 1 else isRead
  }

  ghost predicate MarksRead(db: Db, next: Db, marks: MarkScope) {
    next == db.(sms := next.sms, rcs := next.rcs, session := next.session) &&
    next.sms == Table(map m | m in db.sms.rows ::
      db.sms.rows[m].(isRead := ReadBy(db, marks, db.sms.rows[m].sessionId, db.sms.rows[m].isRead)), db.sms.lastId) &&
    next.rcs == Table(map r | r in db.rcs.rows ::
      db.rcs.rows[r].(isRead := ReadBy(db, marks, db.rcs.rows[r].sessionId, db.rcs.rows[r].isRead)), db.rcs.lastId) &&
    next.session == Table(map s | s in db.session.rows ::
      if marks == One(s) || marks == All || (marks == Notice && NoticeSession(db, s))
      then db.session.rows[s].(unreadCount := 0) else db.session.rows[s], db.session.lastId)
  }

  lemma MarkedIsReadBy(db: Db, marks: MarkScope)
    ensures ReadSmsIds(db, MarkedSms(db, marks)).sms.rows == map m | m in db.sms.rows ::
      db.sms.rows[m].(isRead := ReadBy(db, marks, db.sms.rows[m].sessionId, db.sms.rows[m].isRead))
  {
    forall m | m in db.sms.rows
      ensures (if m in MarkedSms(db, marks) then db.sms.rows[m].(isRead := 1) else db.sms.rows[m]) ==
        db.sms.rows[m].(isRead := ReadBy(db, marks, db.sms.rows[m].sessionId, db.sms.rows[m].isRead))
    {
      assert db.sms.rows[m].(isRead := db.sms.rows[m].isRead) == db.sms.rows[m];
    }
  }

  lemma MarkedRcsIsReadBy(db: Db, marks: MarkScope)
    ensures ReadRcsIds(db, MarkedRcs(db, marks)).rcs.rows == map r | r in db.rcs.rows ::
      db.rcs.rows[r].(isRead := ReadBy(db, marks, db.rcs.rows[r].sessionId, db.rcs.rows[r].isRead))
  {
    forall r | r in db.rcs.rows
      ensures (if r in MarkedRcs(db, marks) then db.rcs.rows[r].(isRead := 1) else db.rcs.rows[r]) ==
        db.rcs.rows[r].(isRead := ReadBy(db, marks, db.rcs.rows[r].sessionId, db.rcs.rows[r].isRead))
    {
      assert db.rcs.rows[r].(isRead := db.rcs.rows[r].isRead) == db.rcs.rows[r];
    }
  }

  lemma ZeroedIsMarked(db: Db, marks: MarkScope)
    ensures ZeroUnread(db, marks).session.rows == map s | s in db.session.rows ::
      if marks == One(s) || marks == All || (marks == Notice && NoticeSession(db, s))
      then db.session.rows[s].(unreadCount := 0) else db.session.rows[s]
  {
    forall s | s in db.session.rows && db.session.rows[s].unreadCount == 0
      ensures db.session.rows[s].(unreadCount := 0) == db.session.rows[s]
    {}
  }

  lemma SmsLeaveRcsMarks(db: Db, ids: set<int>, marks: MarkScope)
    ensures MarkedRcs(ReadSmsIds(db, ids), marks) == MarkedRcs(db, marks)
  {}

  lemma MarkReadMarks(db: Db, marks: MarkScope)
    ensures MarksRead(db, ExecPrefix(db, Statements(MarkRead(marks)), 3), marks)
  {
    hide ExecPrefix, MarkedSms, MarkedRcs, ReadBy, NoticeSession, ZeroesSession;
    MarkReadSteps(db, marks);
    MarkedIsReadBy(db, marks);
    MarkedRcsIsReadBy(db, marks);
    ZeroedIsMarked(db, marks);
    var one := ReadSmsIds(db, MarkedSms(db, marks));
    SmsLeaveRcsMarks(db, MarkedSms(db, marks), marks);
    assert ZeroUnread(ReadRcsIds(one, MarkedRcs(one, marks)), marks).session.rows == ZeroUnread(db, marks).session.rows;
  }

  /** The caller's key names message `m`: by its id, or by number and time, which several may share. */
  predicate NamesSms(db: Db, key: MessageKey, m: int) {
    m in db.sms.rows && (key == ById(m) || key == ByPhone(db.sms.rows[m].phone, db.sms.rows[m].startTime))
  }

  predicate NamesRcs(db: Db, key: MessageKey, r: int) {
    r in db.rcs.rows && (key == ById(r) || key == ByPhone(db.rcs.rows[r].phone, db.rcs.rows[r].startTime))
  }

  /** Conversation `s` is that of the first message named, the only one whose count is repaired. */
  ghost predicate LeadsTo(db: Db, key: MessageKey, s: int) {
    exists m :: NamesSms(db, key, m) && db.sms.rows[m].sessionId == s && forall k :: NamesSms(db, key, k) ==> m <= k
  }

  ghost predicate RcsLeadsTo(db: Db, key: MessageKey, s: int) {
    exists r :: NamesRcs(db, key, r) && db.rcs.rows[r].sessionId == s && forall k :: NamesRcs(db, key, k) ==> r <= k
  }

  /** Every message named is read afterwards, and the first one's conversation has its true count. */
  ghost predicate ReadsNamed(db: Db, next: Db, key: MessageKey) {
    next == db.(sms := next.sms, session := next.session) &&
    next.sms == Table(map m | m in db.sms.rows ::
      if NamesSms(db, key, m) then db.sms.rows[m].(isRead := 1) else db.sms.rows[m], db.sms.lastId) &&
    next.session == Table(map s | s in db.session.rows ::
      if LeadsTo(db, key, s) then db.session.rows[s].(unreadCount := UnreadOf(next, s)) else db.session.rows[s],
      db.session.lastId)
  }

  ghost predicate ReadsNamedRcs(db: Db, next: Db, key: MessageKey) {
    next == db.(rcs := next.rcs, session := next.session) &&
    next.rcs == Table(map r | r in db.rcs.rows ::
      if NamesRcs(db, key, r) then db.rcs.rows[r].(isRead := 1) else db.rcs.rows[r], db.rcs.lastId) &&
    next.session == Table(map s | s in db.session.rows ::
      if RcsLeadsTo(db, key, s) then db.session.rows[s].(unreadCount := UnreadOf(next, s)) else db.session.rows[s],
      db.session.lastId)
  }

  lemma MatchedIsNamed(db: Db, key: MessageKey)
    ensures forall m :: m in MatchedSms(db.sms, key) <==> NamesSms(db, key, m)
    ensures forall r :: r in MatchedRcs(db.rcs, key) <==> NamesRcs(db, key, r)
  {}

  lemma FirstLeads(db: Db, key: MessageKey, s: int)
    ensures LeadsTo(db, key, s) <==>
      MatchedSms(db.sms, key) != {} && s == db.sms.rows[First(MatchedSms(db.sms, key))].sessionId
    ensures RcsLeadsTo(db, key, s) <==>
      MatchedRcs(db.rcs, key) != {} && s == db.rcs.rows[First(MatchedRcs(db.rcs, key))].sessionId
  {
    MatchedIsNamed(db, key);
    if MatchedSms(db.sms, key) != {} { assert NamesSms(db, key, First(MatchedSms(db.sms, key))); }
    if MatchedRcs(db.rcs, key) != {} { assert NamesRcs(db, key, First(MatchedRcs(db.rcs, key))); }
  }

  lemma ReadIsNamed(db: Db, key: MessageKey)
    ensures MatchedSms(db.sms, key) <= db.sms.rows.Keys && MatchedRcs(db.rcs, key) <= db.rcs.rows.Keys
    ensures ReadSmsIds(db, MatchedSms(db.sms, key)).sms.rows == map m | m in db.sms.rows ::
      if NamesSms(db, key, m) then db.sms.rows[m].(isRead := 1) else db.sms.rows[m]
    ensures ReadRcsIds(db, MatchedRcs(db.rcs, key)).rcs.rows == map r | r in db.rcs.rows ::
      if NamesRcs(db, key, r) then db.rcs.rows[r].(isRead := 1) else db.rcs.rows[r]
  {
    MatchedIsNamed(db, key);
  }

  lemma RecountOnly(db: Db, s: int)
    ensures Recount(db, s) == db.(session := Recount(db, s).session)
    ensures Recount(db, s).session == Table(map t | t in db.session.rows ::
      if t == s then db.session.rows[t].(unreadCount := UnreadOf(Recount(db, s), t)) else db.session.rows[t],
      db.session.lastId)
  {
    hide UnreadOf;
    UnreadApart(db, Recount(db, s), s);
    assert Recount(db, s).session.rows == map t | t in db.session.rows ::
      if t == s then db.session.rows[t].(unreadCount := UnreadOf(Recount(db, s), t)) else db.session.rows[t];
  }

  lemma UnreadApart(db: Db, next: Db, s: int)
    requires next.sms == db.sms && next.rcs == db.rcs
    ensures UnreadOf(next, s) == UnreadOf(db, s)
  {}

  lemma MarkSmsReads(db: Db, key: MessageKey)
    ensures ReadsNamed(db, ExecPrefix(db, Statements(MarkSmsRead(key)), 2), key)
  {
    hide ExecPrefix, RecountSms, MatchedSms, Recount, UnreadOf, NamesSms, LeadsTo;
    MarkSmsReadSteps(db, key);
    RecountSmsAfterRead(db, key);
    ReadIsNamed(db, key);
    var matched := MatchedSms(db.sms, key);
    var read := ReadSmsIds(db, matched);
    var next := RecountSms(read, key);
    forall s
      ensures LeadsTo(db, key, s) <==> matched != {} && s == db.sms.rows[First(matched)].sessionId
    {
      FirstLeads(db, key, s);
    }
    if matched != {} { RecountOnly(read, db.sms.rows[First(matched)].sessionId); }
    assert next.session.rows == map s | s in db.session.rows ::
      if LeadsTo(db, key, s) then db.session.rows[s].(unreadCount := UnreadOf(next, s)) else db.session.rows[s];
  }

  lemma MarkRcsReads(db: Db, key: MessageKey)
    ensures ReadsNamedRcs(db, ExecPrefix(db, Statements(MarkRcsRead(key)), 2), key)
  {
    hide ExecPrefix, RecountRcs, MatchedRcs, Recount, UnreadOf, NamesRcs, RcsLeadsTo;
    MarkRcsReadSteps(db, key);
    RecountRcsAfterRead(db, key);
    ReadIsNamed(db, key);
    var matched := MatchedRcs(db.rcs, key);
    var read := ReadRcsIds(db, matched);
    var next := RecountRcs(read, key);
    forall s
      ensures RcsLeadsTo(db, key, s) <==> matched != {} && s == db.rcs.rows[First(matched)].sessionId
    {
      FirstLeads(db, key, s);
    }
    if matched != {} { RecountOnly(read, db.rcs.rows[First(matched)].sessionId); }
    assert next.session.rows == map s | s in db.session.rows ::
      if RcsLeadsTo(db, key, s) then db.session.rows[s].(unreadCount := UnreadOf(next, s)) else db.session.rows[s];
  }
}
