/** The operations of RdbSmsMmsHelper on the open store.  Any statement may fail; a failed statement
    leaves the store unchanged and nothing undoes the ones before it.  `done` records how many of an
    operation's statements took effect. */
module SmsMmsHelper {
  import opened Common
  import opened SmsMmsTables
  import opened SessionDelete
  import opened UnreadCount
  import opened StoreEffects

  class RdbStore {
    var db: Db
    var snapshot: Option<Db>

    constructor (initial: Db)
      ensures db == initial && snapshot == None
    {
      db := initial;
      snapshot := None;
    }

    method ExecuteSql(stmt: Stmt) returns (ret: int)
      modifies this`db
      ensures ret == E_OK || ret == E_ERROR
      ensures db == if ret == E_OK then Exec(old(db), stmt) else old(db)
    {
      if * {
        db := Exec(db, stmt);
        return E_OK;
      }
      return E_ERROR;
    }

    method BeginTransaction() returns (ret: int)
      modifies this`snapshot
      ensures ret == E_OK ==> snapshot == Some(db)
      ensures ret != E_OK ==> snapshot == old(snapshot)
    {
      if * {
        return E_ERROR;
      }
      snapshot := Some(db);
      return E_OK;
    }

    method Commit() returns (ret: int)
      modifies this`snapshot
      ensures snapshot == if ret == E_OK then None else old(snapshot)
    {
      if * {
        return E_ERROR;
      }
      snapshot := None;
      return E_OK;
    }

    method RollBack()
      modifies this
      ensures db == if old(snapshot).Some? then old(snapshot).value else old(db)
      ensures snapshot == None
    {
      if snapshot.Some? {
        db := snapshot.value;
      }
      snapshot := None;
    }
  }

  class RdbSmsMmsHelper {
    const store: RdbStore

    constructor (store: RdbStore)
      ensures this.store == store
    {
      this.store := store;
    }

    method InsertSmsMmsInfo(row: SmsRow) returns (ret: int, ghost done: nat)
      modifies store`db
      ensures store.db == Apply(old(store.db), Event(InsertMessage(row), done))
      ensures ret == E_OK <==> done == 1
      ensures if ret == E_OK then Inserts(old(store.db), store.db, [row]) else store.db == old(store.db)
    {
      InsertsOne(store.db, row);
      ghost var stmts := Statements(InsertMessage(row));
      assert ExecPrefix(store.db, stmts, 0) == store.db;
      assert ExecPrefix(store.db, stmts, 1) == Exec(store.db, stmts[0]);
      ret := store.ExecuteSql(InsertSmsStmt(row));
      done := if ret == E_OK then 1 else 0;
    }

    /** All rows or none: a failed insert or a failed commit rolls the batch back. */
    method BatchInsertSmsMmsInfo(rows: seq<SmsRow>) returns (ret: int, ghost done: nat)
      modifies store
      ensures store.db == Apply(old(store.db), Event(BatchInsert(rows), done))
      ensures ret == E_OK <==> done == 1
      ensures ret == E_OK && old(store.db).sms.Valid() ==> Inserts(old(store.db), store.db, rows)
      ensures ret != E_OK ==> store.db == old(store.db)
    {
      ghost var was := store.db;
      if was.sms.Valid() { BatchInserts(was, rows); }
      assert ExecPrefix(was, Statements(BatchInsert(rows)), 0) == was;
      assert ExecPrefix(was, Statements(BatchInsert(rows)), 1) == InsertSmsBatch(was, rows);
      done := 0;
      ret := store.BeginTransaction();
      if ret != E_OK {
        return;
      }
      for i := 0 to |rows|
        invariant store.snapshot == Some(was)
        invariant InsertSmsBatch(store.db, rows[i..]) == InsertSmsBatch(was, rows)
      {
        assert rows[i..][1..] == rows[i + 1..];
        ret := store.ExecuteSql(InsertSmsStmt(rows[i]));
        if ret != E_OK {
          store.RollBack();
          return;
        }
      }
      ret := store.Commit();
      if ret != E_OK {
        store.RollBack();
      } else {
        done := 1;
      }
    }

    method MarkedAsRead(marks: MarkScope) returns (ret: int, ghost done: nat)
      modifies store`db
      ensures store.db == Apply(old(store.db), Event(MarkRead(marks), done))
      ensures ret == E_OK <==> done == 3
      ensures ret == E_OK ==> MarksRead(old(store.db), store.db, marks)
    {
      MarkReadMarks(store.db, marks);
      ghost var was := store.db;
      ghost var stmts := Statements(MarkRead(marks));
      assert ExecPrefix(was, stmts, 0) == was;
      assert ExecPrefix(was, stmts, 1) == Exec(was, stmts[0]);
      assert ExecPrefix(was, stmts, 2) == Exec(ExecPrefix(was, stmts, 1), stmts[1]);
      assert ExecPrefix(was, stmts, 3) == Exec(ExecPrefix(was, stmts, 2), stmts[2]);
      done := 0;
      ret := store.ExecuteSql(ReadSmsStmt(marks));
      if ret != E_OK { return; }
      done := 1;
      ret := store.ExecuteSql(ReadRcsStmt(marks));
      if ret != E_OK { return; }
      done := 2;
      ret := store.ExecuteSql(ZeroUnreadStmt(marks));
      if ret != E_OK { return; }
      done := 3;
    }

    method ProcessSmsUnread(key: MessageKey) returns (ret: int, ghost done: nat)
      modifies store`db
      ensures store.db == Apply(old(store.db), Event(MarkSmsRead(key), done))
      ensures ret == E_OK <==> done == 2
      ensures ret == E_OK ==> ReadsNamed(old(store.db), store.db, key)
    {
      MarkSmsReads(store.db, key);
      ghost var was := store.db;
      ghost var stmts := Statements(MarkSmsRead(key));
      assert ExecPrefix(was, stmts, 0) == was;
      assert ExecPrefix(was, stmts, 1) == Exec(was, stmts[0]);
      assert ExecPrefix(was, stmts, 2) == Exec(ExecPrefix(was, stmts, 1), stmts[1]);
      done := 0;
      ret := store.ExecuteSql(ReadOneSmsStmt(key));
      if ret != E_OK { return; }
      done := 1;
      ret := store.ExecuteSql(RecountSmsStmt(key));
      if ret != E_OK { return; }
      done := 2;
    }

    method ProcessRcsUnread(key: MessageKey) returns (ret: int, ghost done: nat)
      modifies store`db
      ensures store.db == Apply(old(store.db), Event(MarkRcsRead(key), done))
      ensures ret == E_OK <==> done == 2
      ensures ret == E_OK ==> ReadsNamedRcs(old(store.db), store.db, key)
    {
      MarkRcsReads(store.db, key);
      ghost var was := store.db;
      ghost var stmts := Statements(MarkRcsRead(key));
      assert ExecPrefix(was, stmts, 0) == was;
      assert ExecPrefix(was, stmts, 1) == Exec(was, stmts[0]);
      assert ExecPrefix(was, stmts, 2) == Exec(ExecPrefix(was, stmts, 1), stmts[1]);
      done := 0;
      ret := store.ExecuteSql(ReadOneRcsStmt(key));
      if ret != E_OK { return; }
      done := 1;
      ret := store.ExecuteSql(RecountRcsStmt(key));
      if ret != E_OK { return; }
      done := 2;
    }

    /** Each of the seven functions first refuses a delete without a limit. */
    method ExecuteLimited(scope: DeleteScope, stmt: Stmt) returns (ret: int)
      modifies store`db
      ensures ret == E_OK || ret == E_ERROR
      ensures scope.limit.Unlimited? ==> ret == E_ERROR
      ensures store.db == if ret == E_OK then Exec(old(store.db), stmt) else old(store.db)
    {
      if scope.limit.Unlimited? {
        return E_ERROR;
      }
      ret := store.ExecuteSql(stmt);
    }

    /** A complete delete is the one simultaneous deletion; an incomplete one is a prefix of it. */
    method StatisticsDeleteSessionExe(scope: DeleteScope) returns (ret: int, ghost done: nat)
      modifies store`db
      ensures done <= DELETE_STEPS && store.db == DeletePrefix(old(store.db), scope, done)
      ensures ret == E_OK <==> done == DELETE_STEPS
      ensures ret == E_OK ==> store.db == Simultaneous(old(store.db), scope)
      ensures ret == E_OK ==> TakesConversations(old(store.db), store.db, scope)
      ensures scope.limit.Unlimited? ==> ret != E_OK && store.db == old(store.db)
    {
      ghost var was := store.db;
      ghost var stmts := DeleteStatements(scope);
      assert ExecPrefix(was, stmts, 0) == was;
      done := 0;
      ret := ExecuteLimited(scope, DeleteMmsPartStmt(scope));
      if ret != E_OK { return; }
      assert ExecPrefix(was, stmts, 1) == Exec(was, stmts[0]);
      done := 1;
      ret := ExecuteLimited(scope, UpdateMmsPartStmt(scope));
      if ret != E_OK { return; }
      assert ExecPrefix(was, stmts, 2) == Exec(ExecPrefix(was, stmts, 1), stmts[1]);
      done := 2;
      ret := ExecuteLimited(scope, DeleteRcsPartStmt(scope));
      if ret != E_OK { return; }
      assert ExecPrefix(was, stmts, 3) == Exec(ExecPrefix(was, stmts, 2), stmts[2]);
      done := 3;
      ret := ExecuteLimited(scope, UpdateRcsPartStmt(scope));
      if ret != E_OK { return; }
      assert ExecPrefix(was, stmts, 4) == Exec(ExecPrefix(was, stmts, 3), stmts[3]);
      done := 4;
      ret := ExecuteLimited(scope, DeleteRcsInfoStmt(scope));
      if ret != E_OK { return; }
      assert ExecPrefix(was, stmts, 5) == Exec(ExecPrefix(was, stmts, 4), stmts[4]);
      done := 5;
      ret := ExecuteLimited(scope, DeleteInfoStmt(scope));
      if ret != E_OK { return; }
      assert ExecPrefix(was, stmts, 6) == Exec(ExecPrefix(was, stmts, 5), stmts[5]);
      done := 6;
      ret := ExecuteLimited(scope, DeleteSessionStmt(scope));
      if ret != E_OK { return; }
      assert ExecPrefix(was, stmts, 7) == Exec(ExecPrefix(was, stmts, 6), stmts[6]);
      done := 7;
      DeleteIsSimultaneous(was, scope);
      DeleteTakesConversations(was, scope);
    }
  }
}
