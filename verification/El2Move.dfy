/** Moving sms_mms.db from the EL1 area to the EL2 area: a persistent three-valued result, two files,
    a crash between any two steps, and the choice of the store that the process then works on. */
module El2Move {
  import opened Common

  const MOVE_TO_EL2_RESULT_SUCCESS := 0
  const MOVE_TO_EL2_RESULT_FAIL := 1
  const MOVE_TO_EL2_RESULT_DEFAULT := 2

  /** The messages in a database file. */
  type Contents = seq<string>

  const NOTHING: Contents := []

  /** What survives a crash: the recorded result, the two files that the move is about, and the file of
      the temporary store. */
  datatype Disk = Disk(result: int, el1: Option<Contents>, el2: Option<Contents>, temp: Option<Contents>)

  datatype Handle = El1Db | TempDb | El2Db

  /** How the outside world answers during one Init.  `partial` is what the EL2 file holds while a
      backup is being written, and after one that failed. */
  datatype Env = Env(
    el2DirOk: bool, backupOpenOk: bool, backupOk: bool, partial: Option<Contents>, deleteOk: bool,
    el1OpenOk: bool, tempOpenOk: bool, el2OpenOk: bool)

  datatype Outcome = Outcome(trace: seq<Disk>, ok: bool)

  function Final(d: Disk, trace: seq<Disk>): Disk {
    if trace == [] then d else trace[|trace| - 1]
  }

  /** Opening a store creates its file. */
  function Opened(file: Option<Contents>): Option<Contents> {
    if file.None? then Some(NOTHING) else file
  }

  // ---------------------------------------------------------------- the disk states Init goes through

  function BackupOutcome(d: Disk, env: Env): Outcome {
    if !env.backupOpenOk then Outcome([], false)
    else
      var ready := d.(el1 := Opened(d.el1));
      var writing := ready.(el2 := env.partial);
      if !env.backupOk then Outcome([ready, writing], false)
      else
        var copied := ready.(el2 := ready.el1);
        var deleted := if env.deleteOk then copied.(el1 := None) else copied;
        Outcome([ready, writing, copied, deleted], true)
  }

  function HandleFileOutcome(d: Disk, env: Env): Outcome {
    var backup := BackupOutcome(d, env);
    var recorded := if backup.ok then MOVE_TO_EL2_RESULT_SUCCESS else MOVE_TO_EL2_RESULT_FAIL;
    Outcome(backup.trace + [Final(d, backup.trace).(result := recorded)], backup.ok)
  }

  /** A recorded "fail" goes straight to the backup; otherwise EL1 must be there, and EL2 reachable. */
  predicate RunsBackup(d: Disk, env: Env) {
    d.result == MOVE_TO_EL2_RESULT_FAIL ||
    (d.result != MOVE_TO_EL2_RESULT_SUCCESS && d.el1.Some? && env.el2DirOk)
  }

  function MoveOutcome(d: Disk, env: Env): Outcome {
    if d.result == MOVE_TO_EL2_RESULT_SUCCESS then Outcome([], true)
    else if d.result == MOVE_TO_EL2_RESULT_FAIL then HandleFileOutcome(d, env)
    else if d.el1.None? then Outcome([d.(result := MOVE_TO_EL2_RESULT_SUCCESS)], true)
    else if !env.el2DirOk then Outcome([], false)
    else HandleFileOutcome(d, env)
  }

  /** Opening the files: EL1 before the move, the temporary one and EL2 after it. */
  function OpenTrace(d: Disk, env: Env, moved: bool): seq<Disk> {
    if !moved then if env.el1OpenOk then [d.(el1 := Opened(d.el1))] else []
    else
      var withTemp := if env.tempOpenOk then d.(temp := Opened(d.temp)) else d;
      (if env.tempOpenOk then [withTemp] else []) +
      (if env.el2OpenOk then [withTemp.(el2 := Opened(withTemp.el2))] else [])
  }

  /** Init of a fresh process: the move, then opening the files of the chosen family. */
  function InitTrace(d: Disk, env: Env): seq<Disk> {
    var move := MoveOutcome(d, env);
    move.trace + OpenTrace(Final(d, move.trace), env, move.ok)
  }

  /** The store that a fresh process then works on, if Init succeeds. */
  function Selected(d: Disk, env: Env): Option<Handle> {
    if !MoveOutcome(d, env).ok then if env.el1OpenOk then Some(El1Db) else None
    else if env.el2OpenOk then Some(El2Db) else if env.tempOpenOk then Some(TempDb) else None
  }

  // ---------------------------------------------------------------- how a start ends

  /** The start goes on with the moved files: success is recorded, or there was nothing to move, or the
      backup works, which is made once more after a recorded "fail" and needs EL2 to be there otherwise. */
  predicate Moves(d: Disk, env: Env) {
    d.result == MOVE_TO_EL2_RESULT_SUCCESS || (d.result != MOVE_TO_EL2_RESULT_FAIL && d.el1.None?) ||
    ((d.result == MOVE_TO_EL2_RESULT_FAIL || env.el2DirOk) && env.backupOpenOk && env.backupOk)
  }

  /** A backup is made: after "fail" in any case, at first only of an EL1 file and with EL2 there. */
  predicate BacksUp(d: Disk, env: Env) {
    d.result == MOVE_TO_EL2_RESULT_FAIL ||
    (d.result != MOVE_TO_EL2_RESULT_SUCCESS && d.el1.Some? && env.el2DirOk)
  }

  /** What the move leaves: the messages of EL1 in EL2 and EL1 gone, or EL1 as it was; and the record. */
  lemma MoveEnds(d: Disk, env: Env)
    ensures MoveOutcome(d, env).ok <==> Moves(d, env)
    ensures var e := Final(d, MoveOutcome(d, env).trace);
      e.temp == d.temp &&
      e.result == (if Moves(d, env) then MOVE_TO_EL2_RESULT_SUCCESS
                   else if BacksUp(d, env) then MOVE_TO_EL2_RESULT_FAIL else d.result) &&
      (!BacksUp(d, env) || !env.backupOpenOk ==> e.el1 == d.el1 && e.el2 == d.el2) &&
      (BacksUp(d, env) && env.backupOpenOk && env.backupOk ==>
        e.el2 == Some(Messages(d.el1)) && e.el1 == if env.deleteOk then None else Some(Messages(d.el1))) &&
      (BacksUp(d, env) && env.backupOpenOk && !env.backupOk ==>
        e.el2 == env.partial && e.el1 == Some(Messages(d.el1)))
  {}

  lemma MoveIgnoresTemp(d: Disk, env: Env, other: Option<Contents>)
    ensures var move, apart := MoveOutcome(d, env), MoveOutcome(d.(temp := other), env);
      move.ok == apart.ok && |move.trace| == |apart.trace| &&
      forall j | 0 <= j < |move.trace| :: apart.trace[j] == move.trace[j].(temp := other)
  {}

  /** No start ever reads the temporary file: what it does to everything else does not depend on it, so
      what was written there reaches neither EL1 nor EL2. */
  lemma NothingReadsTemp(d: Disk, env: Env, other: Option<Contents>, i: nat)
    requires i < |InitTrace(d, env)|
    ensures |InitTrace(d.(temp := other), env)| == |InitTrace(d, env)|
    ensures InitTrace(d.(temp := other), env)[i].(temp := None) == InitTrace(d, env)[i].(temp := None)
    ensures Selected(d.(temp := other), env) == Selected(d, env)
  {
    hide MoveOutcome;
    MoveIgnoresTemp(d, env, other);
    var move, apart := MoveOutcome(d, env), MoveOutcome(d.(temp := other), env);
    assert Final(d.(temp := other), apart.trace) == Final(d, move.trace).(temp := other);
  }

  // ---------------------------------------------------------------- where the messages are

  predicate Holds(file: Option<Contents>, latest: Contents) {
    if file.None? then latest == NOTHING else file.value == latest
  }

  /** The recorded result points at a file that holds the latest messages. */
  predicate Recoverable(d: Disk, latest: Contents) {
    if d.result == MOVE_TO_EL2_RESULT_SUCCESS then Holds(d.el2, latest)
    else if d.result == MOVE_TO_EL2_RESULT_FAIL then Holds(d.el1, latest)
    else if d.el1.Some? then Holds(d.el1, latest)
    else Holds(d.el2, latest)
  }

  /** EL1 is deleted, its only copy is in EL2, and the record still says that the move failed. */
  predicate Exposed(d: Disk, latest: Contents) {
    d.result == MOVE_TO_EL2_RESULT_FAIL && d.el1 == None && d.el2 == Some(latest) && latest != NOTHING
  }

  predicate Present(d: Disk, latest: Contents) {
    Holds(d.el1, latest) || Holds(d.el2, latest)
  }

  lemma MoveKeepsMessages(d: Disk, env: Env, latest: Contents)
    requires Recoverable(d, latest)
    ensures var move := MoveOutcome(d, env);
      var moved := Final(d, move.trace);
      (forall i | 0 <= i < |move.trace| :: Recoverable(move.trace[i], latest) || Exposed(move.trace[i], latest)) &&
      (forall i | 0 <= i < |move.trace| ::
        Exposed(move.trace[i], latest) ==> d.result == MOVE_TO_EL2_RESULT_FAIL && i == 3) &&
      Recoverable(moved, latest) && !Exposed(moved, latest) &&
      (move.ok <==> moved.result == MOVE_TO_EL2_RESULT_SUCCESS) &&
      (moved.result == MOVE_TO_EL2_RESULT_FAIL || move.ok || moved.el1.Some?)
  {}

  lemma OpenKeepsMessages(d: Disk, env: Env, moved: bool, latest: Contents)
    requires Recoverable(d, latest) && !Exposed(d, latest)
    requires moved <==> d.result == MOVE_TO_EL2_RESULT_SUCCESS
    requires d.result == MOVE_TO_EL2_RESULT_FAIL || moved || d.el1.Some?
    ensures forall e <- OpenTrace(d, env, moved) :: Recoverable(e, latest) && !Exposed(e, latest)
  {}

  /** Every disk state between two steps of Init is recoverable, but for the one right after deleting
      EL1 when the recorded result was "fail"; and Init always ends recoverable. */
  lemma InitKeepsMessages(d: Disk, env: Env, latest: Contents)
    requires Recoverable(d, latest)
    ensures var trace := InitTrace(d, env);
      (forall i | 0 <= i < |trace| :: Recoverable(trace[i], latest) || Exposed(trace[i], latest)) &&
      (forall i | 0 <= i < |trace| :: Exposed(trace[i], latest) ==> d.result == MOVE_TO_EL2_RESULT_FAIL && i == 3) &&
      Recoverable(Final(d, trace), latest)
  {
    hide Recoverable, Exposed, MoveOutcome, OpenTrace;
    var move := MoveOutcome(d, env);
    MoveKeepsMessages(d, env, latest);
    var moved := Final(d, move.trace);
    OpenKeepsMessages(moved, env, move.ok, latest);
    var opening := OpenTrace(moved, env, move.ok);
    var trace := InitTrace(d, env);
    assert trace == move.trace + opening;
    forall i | |move.trace| <= i < |trace| ensures trace[i] in opening {
      assert trace[i] == opening[i - |move.trace|];
    }
  }

  /** The family Init selects holds the messages: EL2 once moved, EL1 otherwise. */
  predicate SelectsHolder(d: Disk, env: Env, latest: Contents) {
    var after := Final(d, InitTrace(d, env));
    Holds(if MoveOutcome(d, env).ok then after.el2 else after.el1, latest) &&
    (MoveOutcome(d, env).ok <==> after.result == MOVE_TO_EL2_RESULT_SUCCESS)
  }

  lemma InitSelectsHolder(d: Disk, env: Env, latest: Contents)
    requires Recoverable(d, latest)
    ensures SelectsHolder(d, env, latest)
  {
    hide MoveOutcome;
    MoveKeepsMessages(d, env, latest);
    InitKeepsMessages(d, env, latest);
  }

  // ---------------------------------------------------------------- every run

  /** A process: its Init is cut off after `steps` disk steps, or completes and then leaves `written` in
      the store it works on.  A process on the temporary store, which holds none of the old messages, adds
      `sent` there; once EL2 is `mounted` it goes on working on that. */
  datatype Boot = Boot(env: Env, steps: nat, sent: Contents, mounted: bool, written: Option<Contents>)

  datatype World = World(disk: Disk, latest: Contents)

  predicate Crashes(d: Disk, b: Boot) {
    b.steps < |InitTrace(d, b.env)|
  }

  function Messages(file: Option<Contents>): Contents {
    if file.None? then NOTHING else file.value
  }

  /** What a process writes counts as the latest messages, whichever store it worked on. */
  function AfterBoot(w: World, b: Boot): World {
    var trace := InitTrace(w.disk, b.env);
    if Crashes(w.disk, b) then
      World(if b.steps == 0 then w.disk else trace[b.steps - 1], w.latest)
    else
      var d := Final(w.disk, trace);
      var written := if b.written.Some? then b.written.value else w.latest;
      match Selected(w.disk, b.env)
      case None => World(d, w.latest)
      case Some(El1Db) => World(if b.written.Some? then d.(el1 := b.written) else d, written)
      case Some(El2Db) => World(if b.written.Some? then d.(el2 := b.written) else d, written)
      case Some(TempDb) =>
        var apart := d.(temp := Some(Messages(d.temp) + b.sent));
        if !b.mounted then World(apart, w.latest + b.sent)
        else World(apart.(el2 := if b.written.Some? then b.written else Opened(d.el2)), written + b.sent)
  }

  function AfterBoots(w: World, boots: seq<Boot>): World {
    if boots == [] then w else AfterBoot(AfterBoots(w, boots[..|boots| - 1]), boots[|boots| - 1])
  }

  /** The one crash that is not allowed for: with "fail" recorded, after the backup has worked and EL1 is
      deleted, before the record is replaced. */
  predicate CrashesExposed(w: World, b: Boot) {
    w.disk.result == MOVE_TO_EL2_RESULT_FAIL && b.steps == 4 && w.latest != NOTHING &&
    b.env.backupOpenOk && b.env.backupOk && b.env.deleteOk
  }

  /** The process has moved, cannot open EL2, and adds messages to the temporary store. */
  predicate WritesApart(w: World, b: Boot) {
    !Crashes(w.disk, b) && Moves(w.disk, b.env) && !b.env.el2OpenOk && b.env.tempOpenOk && b.sent != []
  }

  /** No other crash leaves the only copy in EL2 under a recorded "fail". */
  lemma ExposedIff(w: World, b: Boot)
    requires Recoverable(w.disk, w.latest)
    ensures CrashesExposed(w, b) <==> Crashes(w.disk, b) && Exposed(AfterBoot(w, b).disk, w.latest)
  {
    InitKeepsMessages(w.disk, b.env, w.latest);
  }

  /** One process keeps the record right exactly if it neither crashes in that place nor writes apart.
      The latest messages are then in EL1 or EL2; after writing apart they are not, even if EL2 is mounted
      later, unless an old EL1 file happens to hold the same. */
  lemma BootKeepsMessagesIff(w: World, b: Boot)
    requires Recoverable(w.disk, w.latest)
    ensures Recoverable(AfterBoot(w, b).disk, AfterBoot(w, b).latest) <==> !CrashesExposed(w, b) && !WritesApart(w, b)
    ensures Present(AfterBoot(w, b).disk, AfterBoot(w, b).latest) <==>
      !WritesApart(w, b) || Holds(AfterBoot(w, b).disk.el1, AfterBoot(w, b).latest)
  {
    hide InitTrace, MoveOutcome, Moves;
    MoveEnds(w.disk, b.env);
    ExposedIff(w, b);
    InitKeepsMessages(w.disk, b.env, w.latest);
    InitSelectsHolder(w.disk, b.env, w.latest);
  }

  /** A process on the temporary store adds what it sends to that file; EL1 and EL2 stay as its start left
      them until EL2 is mounted, and from then on it writes to EL2. */
  lemma TemporaryProcessWrites(w: World, b: Boot)
    requires !Crashes(w.disk, b) && Moves(w.disk, b.env) && !b.env.el2OpenOk && b.env.tempOpenOk
    ensures var started, after := Final(w.disk, InitTrace(w.disk, b.env)), AfterBoot(w, b).disk;
      after.temp == Some(Messages(started.temp) + b.sent) && after.el1 == started.el1 &&
      after.result == started.result &&
      (!b.mounted ==> after.el2 == started.el2) && (b.mounted && b.written.Some? ==> after.el2 == b.written)
  {
    hide InitTrace, MoveOutcome, Moves;
    MoveEnds(w.disk, b.env);
  }

  /** Over all runs of processes that neither crash in that place nor write apart: the latest messages
      stay in EL1 or EL2, and a completing Init selects the family that holds them. */
  lemma {:induction false} MoveIsCrashSafe(w: World, boots: seq<Boot>)
    requires Recoverable(w.disk, w.latest)
    requires forall i :: 0 <= i < |boots| ==>
      !CrashesExposed(AfterBoots(w, boots[..i]), boots[i]) && !WritesApart(AfterBoots(w, boots[..i]), boots[i])
    ensures Recoverable(AfterBoots(w, boots).disk, AfterBoots(w, boots).latest)
    ensures Present(AfterBoots(w, boots).disk, AfterBoots(w, boots).latest)
    ensures forall env :: SelectsHolder(AfterBoots(w, boots).disk, env, AfterBoots(w, boots).latest)
  {
    var now := AfterBoots(w, boots);
    if boots != [] {
      var n := |boots| - 1;
      forall i | 0 <= i < n
        ensures !CrashesExposed(AfterBoots(w, boots[..n][..i]), boots[..n][i])
        ensures !WritesApart(AfterBoots(w, boots[..n][..i]), boots[..n][i])
      {
        assert boots[..n][..i] == boots[..i];
      }
      MoveIsCrashSafe(w, boots[..n]);
      BootKeepsMessagesIff(AfterBoots(w, boots[..n]), boots[n]);
    }
    forall env ensures SelectsHolder(now.disk, env, now.latest) {
      InitSelectsHolder(now.disk, env, now.latest);
    }
  }

  /** The exception is real: after that crash an undisturbed Init backs up the empty EL1 file it has
      just created over the only copy, and records success. */
  lemma ExposedCrashLosesMessages(d: Disk, latest: Contents)
    requires Recoverable(d, latest) && d.result == MOVE_TO_EL2_RESULT_FAIL && latest != NOTHING
    ensures exists crash: Boot, next: Boot {:trigger AfterBoots(World(d, latest), [crash, next])} ::
      CrashesExposed(World(d, latest), crash) && !Crashes(AfterBoots(World(d, latest), [crash]).disk, next) &&
      AfterBoots(World(d, latest), [crash, next]).latest == latest &&
      !Present(AfterBoots(World(d, latest), [crash, next]).disk, latest)
  {
    var w := World(d, latest);
    var env := Env(true, true, true, None, true, true, true, true);
    var crash := Boot(env, 4, [], false, None);
    var next := Boot(env, 7, [], false, None);
    assert [crash][..0] == [] && [crash, next][..1] == [crash];
    assert AfterBoots(w, []) == w;
    var exposed := AfterBoots(w, [crash]);
    assert exposed == AfterBoot(w, crash);
    assert InitTrace(d, env)[3] == d.(el1 := None, el2 := Some(latest));
    assert exposed.disk == InitTrace(d, env)[3];
    var end := AfterBoots(w, [crash, next]);
    assert end == AfterBoot(exposed, next);
    assert |InitTrace(exposed.disk, env)| == 7;
    assert end.disk == Disk(MOVE_TO_EL2_RESULT_SUCCESS, None, Some(NOTHING), Opened(d.temp));
  }
}
