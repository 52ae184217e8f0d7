/** The store handles of the service process: Init after the move, the mount event that brings EL2
    up later, and the guard that lets Init run again only while it has not succeeded. */
module StoreHandles {
  import opened Common
  import opened El2Move

  const DIR_JUDGE_RETURN_TRUE := 0
  const DIR_JUDGE_RETURN_FALSE := 1
  const DIR_JUDGE_RETURN_GO := 2

  datatype Process = Process(
    disk: Disk, moved: bool,
    store: Option<Handle>, storeE: Option<Handle>, storeLT: Option<Handle>, storeEl1: Option<Handle>,
    dirReady: bool, initDone: bool)

  function Started(disk: Disk): Process {
    Process(disk, false, None, None, None, None, false, false)
  }

  // ---------------------------------------------------------------- what one call does

  function AfterMove(p: Process, env: Env): Process {
    var move := MoveOutcome(p.disk, env);
    p.(disk := Final(p.disk, move.trace),
       moved := p.moved || move.ok,
       storeEl1 := if RunsBackup(p.disk, env) then None else p.storeEl1)
  }

  function AfterCreatSql(p: Process, el2OpenOk: bool): Process {
    if p.storeE.Some? || !el2OpenOk then p
    else p.(disk := p.disk.(el2 := Opened(p.disk.el2)), storeE := Some(El2Db))
  }

  function AfterOpenEl1(q: Process, env: Env): (Process, int) {
    if env.el1OpenOk then
      (q.(disk := q.disk.(el1 := Opened(q.disk.el1)),
          store := Some(El1Db), storeLT := Some(El1Db), storeEl1 := Some(El1Db), storeE := None), E_OK)
    else (q.(storeEl1 := None), E_ERROR)
  }

  function AfterOpenMoved(q: Process, env: Env): (Process, int) {
    var withTemp := if q.storeLT.None? && env.tempOpenOk
      then q.(storeLT := Some(TempDb), disk := q.disk.(temp := Opened(q.disk.temp))) else q;
    var r := AfterCreatSql(withTemp, env.el2OpenOk);
    if r.storeE.Some? then (r.(store := r.storeE, storeEl1 := None), E_OK)
    else if r.storeLT.Some? then (r.(store := r.storeLT, storeEl1 := None), E_OK)
    else (r, 1)
  }

  function AfterInit(p: Process, env: Env): (Process, int) {
    var q := AfterMove(p, env);
    if !q.moved then AfterOpenEl1(q, env) else AfterOpenMoved(q, env)
  }

  function AfterDoInit(p: Process, el1DirOk: bool, env: Env): Process {
    if (p.dirReady && p.initDone) || !el1DirOk then p
    else
      var (q, ret) := AfterInit(p.(dirReady := true), env);
      q.(initDone := ret == E_OK)
  }

  /** COMMON_EVENT_SECOND_MOUNTED. */
  function AfterMounted(p: Process, env: Env): Process {
    var q := AfterCreatSql(p, env.el2OpenOk);
    if p.moved && q.storeE.Some? then q.(store := q.storeE, storeEl1 := None) else if p.moved then q else p
  }

  datatype ProcessEvent = DoInit(el1DirOk: bool, env: Env) | Mounted(env: Env)

  function AfterEvent(p: Process, e: ProcessEvent): Process {
    match e
    case DoInit(el1DirOk, env) => AfterDoInit(p, el1DirOk, env)
    case Mounted(env) => AfterMounted(p, env)
  }

  function AfterEvents(p: Process, events: seq<ProcessEvent>): Process {
    if events == [] then p else AfterEvent(AfterEvents(p, events[..|events| - 1]), events[|events| - 1])
  }

  // ---------------------------------------------------------------- what holds throughout a process

  predicate El2Mode(p: Process) {
    p.store == Some(El2Db)
  }

  /** Each field only ever holds its own database, `store` is one of the open ones, and the EL1
      database serves as the temporary one only in a process that has not moved. */
  predicate Consistent(p: Process) {
    && (p.storeE.None? || p.storeE == Some(El2Db))
    && (p.storeLT.None? || p.storeLT == Some(if p.moved then TempDb else El1Db))
    && (p.storeEl1.None? || p.storeEl1 == Some(El1Db))
    && (p.store.None? || p.store == p.storeE || p.store == p.storeLT)
    && (p.initDone ==> p.store.Some? && p.dirReady)
    && (p.storeLT.Some? && !p.moved ==> p.initDone)
    && (p.storeE.Some? ==> p.moved)
    && (p.moved ==> p.disk.result == MOVE_TO_EL2_RESULT_SUCCESS)
  }

  lemma MoveRecords(d: Disk, env: Env)
    ensures MoveOutcome(d, env).ok ==> Final(d, MoveOutcome(d, env).trace).result == MOVE_TO_EL2_RESULT_SUCCESS
    ensures d.result == MOVE_TO_EL2_RESULT_SUCCESS ==> MoveOutcome(d, env) == Outcome([], true) && !RunsBackup(d, env)
  {}

  lemma MoveKeepsConsistent(p: Process, env: Env)
    requires Consistent(p) && !p.initDone
    ensures Consistent(AfterMove(p, env)) && El2Mode(AfterMove(p, env)) == El2Mode(p)
  {
    hide MoveOutcome, RunsBackup;
    MoveRecords(p.disk, env);
  }

  /** Opening the files, in a process whose start has not succeeded yet. */
  lemma OpenKeepsConsistent(q: Process, env: Env)
    requires Consistent(q) && q.dirReady && !q.initDone
    ensures var (r, ret) := if q.moved then AfterOpenMoved(q, env) else AfterOpenEl1(q, env);
      Consistent(r.(initDone := ret == E_OK)) && (El2Mode(q) ==> El2Mode(r))
  {}

  lemma MountedKeepsConsistent(p: Process, env: Env)
    requires Consistent(p)
    ensures Consistent(AfterMounted(p, env)) && (El2Mode(p) ==> El2Mode(AfterMounted(p, env)))
  {}

  lemma EventKeepsConsistent(p: Process, e: ProcessEvent)
    requires Consistent(p)
    ensures Consistent(AfterEvent(p, e))
    ensures El2Mode(p) ==> El2Mode(AfterEvent(p, e))
    ensures p.initDone ==> AfterEvent(p, e).initDone
  {
    hide MoveOutcome, AfterMove, AfterOpenMoved, AfterOpenEl1, AfterMounted;
    match e
    case DoInit(el1DirOk, env) =>
      if !p.initDone && el1DirOk {
        var ready := p.(dirReady := true);
        MoveKeepsConsistent(ready, env);
        MoveFrame(ready, env);
        OpenKeepsConsistent(AfterMove(ready, env), env);
      }
    case Mounted(env) =>
      MountedKeepsConsistent(p, env);
      MountedFrame(p, env);
  }

  lemma MoveFrame(p: Process, env: Env)
    ensures AfterMove(p, env).dirReady == p.dirReady && AfterMove(p, env).initDone == p.initDone
  {}

  lemma MountedFrame(p: Process, env: Env)
    ensures AfterMounted(p, env).initDone == p.initDone
  {}

  /** Over any run of one process: Init reports success only with a store to work on, EL2 mode is
      never left, and in EL2 mode the working store is not the temporary one. */
  lemma {:induction false} HandlesStayConsistent(disk: Disk, events: seq<ProcessEvent>)
    ensures var p := AfterEvents(Started(disk), events);
      Consistent(p) && (p.initDone ==> p.store.Some?) && (El2Mode(p) ==> p.store != p.storeLT) &&
      forall i | 0 <= i <= |events| :: El2Mode(AfterEvents(Started(disk), events[..i])) ==> El2Mode(p)
  {
    var p := AfterEvents(Started(disk), events);
    if events == [] {
      assert forall i | 0 <= i <= |events| :: events[..i] == events;
    } else {
      var n := |events| - 1;
      HandlesStayConsistent(disk, events[..n]);
      EventKeepsConsistent(AfterEvents(Started(disk), events[..n]), events[n]);
      forall i | 0 <= i <= |events| && El2Mode(AfterEvents(Started(disk), events[..i])) ensures El2Mode(p) {
        if i == |events| {
          assert events[..i] == events;
        } else {
          assert events[..n][..i] == events[..i];
        }
      }
    }
  }

  /** A process that has moved finds success recorded. */
  lemma MovedIsRecorded(p: Process, env: Env)
    requires Consistent(p)
    ensures p.moved ==> MoveOutcome(p.disk, env).ok
  {}

  /** Init succeeds with a store to work on. */
  lemma OpenedIsUsed(q: Process, env: Env)
    ensures AfterOpenEl1(q, env).1 == E_OK ==> AfterOpenEl1(q, env).0.store.Some?
    ensures AfterOpenMoved(q, env).1 == E_OK ==> AfterOpenMoved(q, env).0.store.Some?
  {}

  /** The working store of a fresh process is the one that El2Move counts its messages into, EL1 and EL2
      with the latest messages in them. */
  lemma FreshInitSelects(d: Disk, env: Env, latest: Contents)
    requires Recoverable(d, latest)
    ensures var (p, ret) := AfterInit(Started(d), env);
      (p.moved <==> Moves(d, env)) &&
      p.store == (if Moves(d, env) then
                    if env.el2OpenOk then Some(El2Db) else if env.tempOpenOk then Some(TempDb) else None
                  else if env.el1OpenOk then Some(El1Db) else None) &&
      p.disk == Final(d, InitTrace(d, env)) && p.store == Selected(d, env) &&
      (p.store == Some(El2Db) ==> p.disk.el2 == Some(latest)) &&
      (p.store == Some(El1Db) ==> p.disk.el1 == Some(latest)) &&
      (ret == E_OK <==> p.store.Some?)
  {
    InitSelectsHolder(d, env, latest);
    MoveEnds(d, env);
  }

  /** How a start that was not yet successful ends: before the move with EL1, if that opens; after it with
      EL2 if that is or can be opened, else with the temporary store, else without success. */
  predicate StartsOn(p: Process, q: Process, env: Env, ok: bool) {
    (q.moved <==> p.moved || Moves(p.disk, env)) &&
    if !q.moved then (ok <==> env.el1OpenOk) && (ok ==> q.store == Some(El1Db))
    else if p.storeE.Some? || env.el2OpenOk then ok && q.store == Some(El2Db)
    else if p.storeLT.Some? || env.tempOpenOk then ok && q.store == Some(TempDb)
    else !ok && q.store == p.store
  }

  lemma InitStartsOn(p: Process, env: Env)
    requires Consistent(p) && !p.initDone
    ensures StartsOn(p, AfterInit(p, env).0, env, AfterInit(p, env).1 == E_OK)
  {
    hide MoveOutcome, Moves;
    MoveEnds(p.disk, env);
  }

  /** A process that could not open EL2 works on the temporary store until EL2 is mounted. */
  lemma MountBringsEl2Up(p: Process, env: Env)
    requires Consistent(p)
    ensures p.moved && (env.el2OpenOk || p.storeE.Some?) ==> El2Mode(AfterMounted(p, env))
    ensures !p.moved || (!env.el2OpenOk && p.storeE.None?) ==> AfterMounted(p, env) == p
  {}

  // ---------------------------------------------------------------- the helper itself

  class RdbSmsMmsHelper {
    var disk: Disk
    ghost var history: seq<Disk>
    var moveToEl2Result: bool
    var store: Option<Handle>
    var storeE: Option<Handle>
    var storeLT: Option<Handle>
    var storeEl1: Option<Handle>
    var initDatabaseDir: bool
    var initRdbStore: bool

    ghost function State(): Process
      reads this
    {
      Process(disk, moveToEl2Result, store, storeE, storeLT, storeEl1, initDatabaseDir, initRdbStore)
    }

    constructor (disk: Disk)
      ensures State() == Started(disk) && history == []
    {
      this.disk, history := disk, [];
      moveToEl2Result, initDatabaseDir, initRdbStore := false, false, false;
      store, storeE, storeLT, storeEl1 := None, None, None, None;
    }

    /** One atomic change of what is on disk. */
    method Persist(next: Disk)
      modifies this`disk, this`history
      ensures disk == next && history == old(history) + [next]
    {
      disk := next;
      history := history + [next];
    }

    method ForceCreateEl1RdbStore(openOk: bool) returns (err: int)
      modifies this`disk, this`history, this`storeEl1
      ensures err == if openOk then E_OK else E_ERROR
      ensures storeEl1 == if openOk then Some(El1Db) else None
      ensures openOk ==> disk == old(disk).(el1 := Opened(old(disk).el1)) && history == old(history) + [disk]
      ensures !openOk ==> disk == old(disk) && history == old(history)
    {
      if !openOk {
        storeEl1 := None;
        return E_ERROR;
      }
      Persist(disk.(el1 := Opened(disk.el1)));
      storeEl1 := Some(El1Db);
      return E_OK;
    }

    /** Deleting EL1 comes last; its result is ignored. */
    method BackupEl1ToEl2(env: Env) returns (success: bool)
      modifies this`disk, this`history, this`storeEl1
      ensures success == BackupOutcome(old(disk), env).ok
      ensures history == old(history) + BackupOutcome(old(disk), env).trace
      ensures disk == Final(old(disk), BackupOutcome(old(disk), env).trace)
      ensures storeEl1 == None
    {
      ghost var was := history;
      var err := ForceCreateEl1RdbStore(env.backupOpenOk);
      if err != E_OK {
        assert history == was + [];
        return false;
      }
      ghost var ready := disk;
      Persist(disk.(el2 := env.partial));
      if !env.backupOk {
        storeEl1 := None;
        assert history == was + [ready, disk];
        return false;
      }
      ghost var writing := disk;
      Persist(disk.(el2 := disk.el1));
      ghost var copied := disk;
      storeEl1 := None;
      Persist(if env.deleteOk then disk.(el1 := None) else disk);
      assert history == was + [ready, writing, copied, disk];
      return true;
    }

    method HandleFile(env: Env) returns (success: bool)
      modifies this`disk, this`history, this`storeEl1
      ensures success == HandleFileOutcome(old(disk), env).ok
      ensures history == old(history) + HandleFileOutcome(old(disk), env).trace
      ensures disk == Final(old(disk), HandleFileOutcome(old(disk), env).trace)
      ensures storeEl1 == None
    {
      success := BackupEl1ToEl2(env);
      if success {
        Persist(disk.(result := MOVE_TO_EL2_RESULT_SUCCESS));
      } else {
        Persist(disk.(result := MOVE_TO_EL2_RESULT_FAIL));
      }
    }

    /** Only where there is nothing to move may success be recorded at once; otherwise the messages of a
        move not tried before are in EL1. */
    method HandleDirJudgement(el2DirOk: bool) returns (res: int)
      ensures res == DIR_JUDGE_RETURN_GO <==> disk.el1.Some? && el2DirOk
      ensures res == DIR_JUDGE_RETURN_TRUE || res == DIR_JUDGE_RETURN_FALSE || res == DIR_JUDGE_RETURN_GO
      ensures forall latest :: disk.result == MOVE_TO_EL2_RESULT_DEFAULT && Recoverable(disk, latest) ==>
        if res == DIR_JUDGE_RETURN_TRUE then Recoverable(disk.(result := MOVE_TO_EL2_RESULT_SUCCESS), latest)
        else Holds(disk.el1, latest)
      ensures res == DIR_JUDGE_RETURN_TRUE <==> disk.el1.None?
    {
      if disk.el1.None? {
        return DIR_JUDGE_RETURN_TRUE;
      }
      if !el2DirOk {
        return DIR_JUDGE_RETURN_FALSE;
      }
      return DIR_JUDGE_RETURN_GO;
    }

    method MoveDbFileToEl2(env: Env) returns (ok: bool)
      modifies this`disk, this`history, this`storeEl1
      ensures ok == MoveOutcome(old(disk), env).ok
      ensures history == old(history) + MoveOutcome(old(disk), env).trace
      ensures disk == Final(old(disk), MoveOutcome(old(disk), env).trace)
      ensures storeEl1 == if RunsBackup(old(disk), env) then None else old(storeEl1)
    {
      if disk.result == MOVE_TO_EL2_RESULT_SUCCESS {
        return true;
      }
      if disk.result == MOVE_TO_EL2_RESULT_FAIL {
        ok := HandleFile(env);
        return;
      }
      var res := HandleDirJudgement(env.el2DirOk);
      if res == DIR_JUDGE_RETURN_TRUE {
        Persist(disk.(result := MOVE_TO_EL2_RESULT_SUCCESS));
        return true;
      }
      if res == DIR_JUDGE_RETURN_FALSE {
        return false;
      }
      ok := HandleFile(env);
    }

    method CreateLtDataBase(openOk: bool) returns (err: int)
      modifies this`disk, this`history, this`storeLT
      ensures err == if openOk then E_OK else E_ERROR
      ensures storeLT == if openOk then Some(TempDb) else None
      ensures disk == if openOk then old(disk).(temp := Opened(old(disk).temp)) else old(disk)
      ensures history == old(history) + if openOk then [disk] else []
    {
      if !openOk {
        storeLT := None;
        return E_ERROR;
      }
      Persist(disk.(temp := Opened(disk.temp)));
      storeLT := Some(TempDb);
      return E_OK;
    }

    method CreatSql(openOk: bool) returns (err: int)
      modifies this`disk, this`history, this`storeE
      ensures State() == AfterCreatSql(old(State()), openOk)
      ensures err == if storeE.Some? then E_OK else E_ERROR
      ensures history == old(history) + if old(storeE).None? && openOk then [disk] else []
    {
      if storeE.Some? {
        return E_OK;
      }
      if !openOk {
        return E_ERROR;
      }
      Persist(disk.(el2 := Opened(disk.el2)));
      storeE := Some(El2Db);
      return E_OK;
    }

    method ChangeRdbStoreToLT()
      modifies this`store, this`storeEl1
      ensures store == storeLT && storeEl1 == None
      ensures Consistent(old(State())) && moveToEl2Result && storeLT.Some? ==>
        Consistent(State()) && store == Some(TempDb)
    {
      store, storeEl1 := storeLT, None;
    }

    method ChangeRdbStoreToEl1()
      modifies this`store, this`storeLT, this`storeE
      ensures store == old(storeEl1) && storeLT == old(storeEl1) && storeE == None
      ensures Consistent(old(State())) && !moveToEl2Result && storeEl1.Some? && initDatabaseDir ==>
        Consistent(State().(initDone := true)) && store == Some(El1Db)
    {
      store, storeLT, storeE := storeEl1, storeEl1, None;
    }

    method ChangeRdbStoreToEl2()
      modifies this`store, this`storeEl1
      ensures store == storeE && storeEl1 == None
      ensures Consistent(old(State())) && storeE.Some? ==> Consistent(State()) && El2Mode(State())
    {
      store, storeEl1 := storeE, None;
    }

    method OpenEl1(env: Env) returns (ret: int)
      modifies this`disk, this`history, this`store, this`storeE, this`storeLT, this`storeEl1
      ensures (State(), ret) == AfterOpenEl1(old(State()), env)
      ensures history == old(history) + OpenTrace(old(disk), env, false)
    {
      ret := ForceCreateEl1RdbStore(env.el1OpenOk);
      if ret != E_OK {
        return;
      }
      ChangeRdbStoreToEl1();
    }

    /** The temporary store and EL2, of which either is enough. */
    method OpenMoved(env: Env) returns (ret: int)
      requires storeE == None || storeE == Some(El2Db)
      modifies this`disk, this`history, this`store, this`storeE, this`storeLT, this`storeEl1
      ensures (State(), ret) == AfterOpenMoved(old(State()), env)
      ensures env.el2OpenOk || old(storeE).Some? ==> ret == E_OK && store == Some(El2Db)
      ensures !env.el2OpenOk && old(storeE).None? && (env.tempOpenOk || old(storeLT).Some?) ==>
        ret == E_OK && store == storeLT && storeLT == if old(storeLT).Some? then old(storeLT) else Some(TempDb)
      ensures !env.el2OpenOk && old(storeE).None? && !env.tempOpenOk && old(storeLT).None? ==>
        ret != E_OK && store == old(store)
      ensures old(storeE).None? && old(storeLT).None? ==> history == old(history) + OpenTrace(old(disk), env, true)
    {
      var el1ErrCode := E_OK;
      if storeLT.None? {
        el1ErrCode := CreateLtDataBase(env.tempOpenOk);
      }
      var el2ErrCode := CreatSql(env.el2OpenOk);
      if el1ErrCode == E_OK && el2ErrCode == E_OK {
        ChangeRdbStoreToEl2();
      } else if el2ErrCode != E_OK && el1ErrCode == E_OK {
        ChangeRdbStoreToLT();
      } else if el2ErrCode == E_OK && el1ErrCode != E_OK {
        ChangeRdbStoreToEl2();
      }
      ret := if el1ErrCode != E_OK && el2ErrCode != E_OK then 1 else E_OK;
    }

    /** In a fresh process the disk goes through exactly the states of InitTrace. */
    method Init(env: Env) returns (ret: int)
      requires Consistent(State()) && !initRdbStore
      modifies this
      ensures (State(), ret) == AfterInit(old(State()), env)
      ensures ret == E_OK ==> store.Some?
      ensures StartsOn(old(State()), State(), env, ret == E_OK)
      ensures old(storeE).None? && old(storeLT).None? ==> history == old(history) + InitTrace(old(disk), env)
    {
      hide MoveOutcome, OpenTrace, AfterOpenEl1, AfterOpenMoved, RunsBackup;
      MovedIsRecorded(State(), env);
      InitStartsOn(State(), env);
      var moved := MoveDbFileToEl2(env);
      if moved {
        moveToEl2Result := true;
      }
      OpenedIsUsed(State(), env);
      if !moveToEl2Result {
        ret := OpenEl1(env);
      } else {
        ret := OpenMoved(env);
      }
    }

    method ChangeStoreToEl5AndMoveData(env: Env)
      modifies this
      ensures State() == AfterMounted(old(State()), env)
      ensures Consistent(old(State())) && moveToEl2Result && (env.el2OpenOk || old(storeE).Some?) ==>
        store == Some(El2Db)
    {
      if !moveToEl2Result {
        return;
      }
      var errCode := CreatSql(env.el2OpenOk);
      if errCode != E_OK {
        return;
      }
      ChangeRdbStoreToEl2();
    }

    method DoInit(el1DirOk: bool, env: Env)
      requires Consistent(State())
      modifies this
      ensures State() == AfterDoInit(old(State()), el1DirOk, env)
      ensures old(initRdbStore) || !el1DirOk ==> State() == old(State())
      ensures !old(initRdbStore) && el1DirOk ==>
        initDatabaseDir && StartsOn(old(State()), State(), env, initRdbStore)
    {
      hide MoveOutcome, Moves, RunsBackup, Final, Opened;
      if initDatabaseDir && initRdbStore {
        return;
      }
      if !el1DirOk {
        return;
      }
      initDatabaseDir := true;
      var ret := Init(env);
      initRdbStore := ret == E_OK;
    }
  }
}
