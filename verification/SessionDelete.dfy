/** Deleting conversations: seven dependent statements without a transaction, over parts that are
    reference-counted and reachable through two keys. */
module SessionDelete {
  import opened Common
  import opened SmsMmsTables

  const DELETE_STEPS := 7

  function DeleteStatements(scope: DeleteScope): (stmts: seq<Stmt>)
    ensures |stmts| == DELETE_STEPS
  {
    [ DeleteMmsPartStmt(scope), UpdateMmsPartStmt(scope), DeleteRcsPartStmt(scope), UpdateRcsPartStmt(scope),
      DeleteRcsInfoStmt(scope), DeleteInfoStmt(scope), DeleteSessionStmt(scope) ]
  }

  function DeletePrefix(db: Db, scope: DeleteScope, k: nat): Db
    requires k <= DELETE_STEPS
  {
    ExecPrefix(db, DeleteStatements(scope), k)
  }

  function DeleteAll(db: Db, scope: DeleteScope): Db {
    DeletePrefix(db, scope, DELETE_STEPS)
  }

  // ---------------------------------------------------------------- one simultaneous deletion

  /** Through how many of its two keys a selected message reaches the part. */
  function Reach(db: Db, scope: DeleteScope, p: PartRow): nat {
    (if ByMsg(db, scope, p, false) then 1 else 0) + (if ByRcs(db, scope, p, false) then 1 else 0)
  }

  /** A counted part loses one reference per key; an uncounted part (-1) goes with its message unless
      that message is a favourite. */
  predicate Disappears(db: Db, scope: DeleteScope, p: PartRow) {
    if p.refCount > 0 then p.refCount - Reach(db, scope, p) <= 0
    else p.refCount == -1 && (ByMsg(db, scope, p, true) || ByRcs(db, scope, p, true))
  }

  function Kept(db: Db, scope: DeleteScope, p: PartRow): PartRow {
    if p.refCount > 0 then p.(refCount := p.refCount - Reach(db, scope, p)) else p
  }

  function KeptParts(db: Db, scope: DeleteScope): map<int, PartRow> {
    map p | p in db.part.rows && !Disappears(db, scope, db.part.rows[p]) :: Kept(db, scope, db.part.rows[p])
  }

  /** The deletion as one step: every row is judged by the store as it was at the start. */
  function Simultaneous(db: Db, scope: DeleteScope): Db {
    Db(
      Table(map m | m in db.sms.rows && !DeleteSmsWhere(db, scope, m) :: db.sms.rows[m], db.sms.lastId),
      Table(map r | r in db.rcs.rows && !DeleteRcsWhere(db, scope, r) :: db.rcs.rows[r], db.rcs.lastId),
      Table(KeptParts(db, scope), db.part.lastId),
      Table(map s | s in db.session.rows && !DeleteSessionWhere(db, scope, s) :: db.session.rows[s], db.session.lastId),
      db.url)
  }

  // ---------------------------------------------------------------- the statements, part by part

  /** What the four part statements see of one part: the answers of their sub-selects. */
  datatype Flags = Flags(msg: bool, msgUncollected: bool, rcs: bool, rcsUncollected: bool)

  ghost function FlagsOf(db: Db, scope: DeleteScope, p: PartRow): (f: Flags)
    ensures f.msgUncollected ==> f.msg
    ensures f.rcsUncollected ==> f.rcs
  {
    Flags(ByMsg(db, scope, p, false), ByMsg(db, scope, p, true), ByRcs(db, scope, p, false), ByRcs(db, scope, p, true))
  }

  /** A part's count after the first `k` statements, none once it is deleted. */
  ghost function CountAfter(f: Flags, count: int, k: nat): Option<int> {
    if k == 0 then Some(count)
    else
      var before := CountAfter(f, count, k - 1);
      if before.None? then None
      else
        var c := before.value;
        if k == 1 then if (c == -1 && f.msgUncollected) || (c == 1 && f.msg) then None else Some(c)
        else if k == 2 then if c > 1 && f.msg then Some(c - 1) else Some(c)
        else if k == 3 then if (c == -1 && f.rcsUncollected) || (c == 1 && f.rcs) then None else Some(c)
        else if k == 4 then if c > 1 && f.rcs then Some(c - 1) else Some(c)
        else Some(c)
  }

  ghost function CountIn(db: Db, scope: DeleteScope, p: int, k: nat): Option<int>
    requires p in db.part.rows
  {
    CountAfter(FlagsOf(db, scope, db.part.rows[p]), db.part.rows[p].refCount, k)
  }

  ghost predicate PartsAfter(db: Db, scope: DeleteScope, k: nat, parts: map<int, PartRow>) {
    && (forall p :: p in parts <==> p in db.part.rows && CountIn(db, scope, p, k).Some?)
    && (forall p :: p in parts ==> parts[p] == db.part.rows[p].(refCount := CountIn(db, scope, p, k).value))
  }

  lemma SubselectsStable(db: Db, next: Db, scope: DeleteScope, p: PartRow, q: PartRow)
    requires next.sms == db.sms && next.session == db.session
    requires q.msgId == p.msgId && q.rcsId == p.rcsId
    ensures FlagsOf(next, scope, q) == FlagsOf(db, scope, p)
  {
    forall u: bool ensures ByRcs(next, scope, q, u) == ByRcs(db, scope, p, u) {
      forall m | m in db.sms.rows ensures Selected(next, scope, m) == Selected(db, scope, m) {}
    }
  }

  lemma PartStep(db: Db, before: Db, scope: DeleteScope, k: nat)
    requires 1 <= k <= 4 && before == db.(part := before.part) && PartsAfter(db, scope, k - 1, before.part.rows)
    ensures var next := Exec(before, DeleteStatements(scope)[k - 1]);
      next == before.(part := next.part) && next.part.lastId == before.part.lastId &&
      PartsAfter(db, scope, k, next.part.rows)
  {
    hide Selected, ByMsg, ByRcs;
    forall p | p in before.part.rows
      ensures FlagsOf(before, scope, before.part.rows[p]) == FlagsOf(db, scope, db.part.rows[p])
    {
      SubselectsStable(db, before, scope, db.part.rows[p], before.part.rows[p]);
    }
  }

  /** Until the messages go, the part statements judge each part by the same messages. */
  lemma {:induction false} PartPrefix(db: Db, scope: DeleteScope, k: nat)
    requires k <= 4
    ensures var next := DeletePrefix(db, scope, k);
      next == db.(part := next.part) && next.part.lastId == db.part.lastId &&
      PartsAfter(db, scope, k, next.part.rows)
  {
    if k > 0 {
      PartPrefix(db, scope, k - 1);
      PartStep(db, DeletePrefix(db, scope, k - 1), scope, k);
      assert DeletePrefix(db, scope, k) == Exec(DeletePrefix(db, scope, k - 1), DeleteStatements(scope)[k - 1]);
    }
  }

  /** The statements on messages and sessions see the same selection as the first one did. */
  lemma PrefixFive(db: Db, scope: DeleteScope)
    ensures var next := DeletePrefix(db, scope, 5);
      next == db.(part := next.part, rcs := Simultaneous(db, scope).rcs) && next.part.lastId == db.part.lastId &&
      PartsAfter(db, scope, 4, next.part.rows)
  {
    PartPrefix(db, scope, 4);
    var before := DeletePrefix(db, scope, 4);
    var next := DeletePrefix(db, scope, 5);
    assert next == Exec(before, DeleteStatements(scope)[4]);
    forall r | r in db.rcs.rows ensures DeleteRcsWhere(before, scope, r) == DeleteRcsWhere(db, scope, r) {
      forall m | m in db.sms.rows ensures Selected(before, scope, m) == Selected(db, scope, m) {}
    }
    assert next.rcs.rows == Simultaneous(db, scope).rcs.rows;
  }

  lemma PrefixSix(db: Db, scope: DeleteScope)
    ensures var next := DeletePrefix(db, scope, 6);
      next == DeletePrefix(db, scope, 5).(sms := Simultaneous(db, scope).sms)
  {
    PrefixFive(db, scope);
    var before := DeletePrefix(db, scope, 5);
    var next := DeletePrefix(db, scope, 6);
    assert next == Exec(before, DeleteStatements(scope)[5]);
    assert next.sms.rows == Simultaneous(db, scope).sms.rows;
  }

  lemma PrefixSeven(db: Db, scope: DeleteScope)
    ensures DeleteAll(db, scope) == DeletePrefix(db, scope, 6).(session := Simultaneous(db, scope).session)
  {
    PrefixFive(db, scope);
    PrefixSix(db, scope);
    var before := DeletePrefix(db, scope, 6);
    var next := DeletePrefix(db, scope, 7);
    assert next == Exec(before, DeleteStatements(scope)[6]);
    assert next.session.rows == Simultaneous(db, scope).session.rows;
  }

  /** One part through all four statements: the count falls by one per key, and -1 is all or nothing. */
  lemma CountOutcome(f: Flags, count: int)
    requires (f.msgUncollected ==> f.msg) && (f.rcsUncollected ==> f.rcs)
    ensures var d := (if f.msg then 1 else 0) + (if f.rcs then 1 else 0);
      CountAfter(f, count, 4) ==
        if count > 0 then (if count <= d then None else Some(count - d))
        else if count == -1 && (f.msgUncollected || f.rcsUncollected) then None else Some(count)
  {
    assert CountAfter(f, count, 0) == Some(count);
    assert CountAfter(f, count, 1) ==
      if (count == -1 && f.msgUncollected) || (count == 1 && f.msg) then None else Some(count);
    assert CountAfter(f, count, 2) ==
      if (count == -1 && f.msgUncollected) || (count == 1 && f.msg) then None
      else if count > 1 && f.msg then Some(count - 1) else Some(count);
    assert CountAfter(f, count, 3) ==
      if count == -1 && (f.msgUncollected || f.rcsUncollected) then None
      else if count == 1 && (f.msg || f.rcs) then None
      else if count == 2 && f.msg && f.rcs then None
      else if count > 1 && f.msg then Some(count - 1) else Some(count);
  }

  /** The seven statements, each reading what the ones before it left, do exactly what one deletion
      judged on the initial store does. */
  lemma DeleteIsSimultaneous(db: Db, scope: DeleteScope)
    ensures DeleteAll(db, scope) == Simultaneous(db, scope)
  {
    PrefixFive(db, scope);
    PrefixSix(db, scope);
    PrefixSeven(db, scope);
    var parts := DeletePrefix(db, scope, 5).part.rows;
    forall p | p in db.part.rows
      ensures p in parts <==> !Disappears(db, scope, db.part.rows[p])
      ensures p in parts ==> parts[p] == Kept(db, scope, db.part.rows[p])
    {
      CountOutcome(FlagsOf(db, scope, db.part.rows[p]), db.part.rows[p].refCount);
    }
    assert forall p :: p in parts ==> p in KeptParts(db, scope);
    assert forall p :: p in KeptParts(db, scope) ==> p in parts;
    assert parts == KeptParts(db, scope);
  }

  // ---------------------------------------------------------------- interrupted deletes

  predicate Reached(db: Db, scope: DeleteScope, p: PartRow) {
    ByMsg(db, scope, p, false) || ByRcs(db, scope, p, false)
  }

  /** Repeating a delete is harmless when every shared part it reaches is used up by it: count 2,
      reached through both keys. */
  ghost predicate Repeatable(db: Db, scope: DeleteScope) {
    forall p :: p in db.part.rows && db.part.rows[p].refCount > 1 && Reached(db, scope, db.part.rows[p]) ==>
      db.part.rows[p].refCount == 2 && Reach(db, scope, db.part.rows[p]) == 2
  }

  ghost predicate Resumes(db: Db, scope: DeleteScope, k: nat)
    requires k <= DELETE_STEPS
  {
    DeleteAll(DeletePrefix(db, scope, k), scope) == DeleteAll(db, scope)
  }

  lemma CountResumes(f: Flags, count: int, k: nat)
    requires k <= 4
    requires (f.msgUncollected ==> f.msg) && (f.rcsUncollected ==> f.rcs)
    requires count > 1 && (f.msg || f.rcs) ==> count == 2 && f.msg && f.rcs
    ensures var stop := CountAfter(f, count, k);
      (if stop.None? then None else CountAfter(f, stop.value, 4)) == CountAfter(f, count, 4)
  {
    CountOutcome(f, count);
    var c1 := CountAfter(f, count, 1);
    var c2 := CountAfter(f, count, 2);
    var c3 := CountAfter(f, count, 3);
    var stop := CountAfter(f, count, k);
    if stop.Some? { CountOutcome(f, stop.value); }
  }

  lemma SelectionAgain(db: Db, next: Db, scope: DeleteScope)
    requires next.sms == db.sms && next.session == db.session
    requires next.rcs == db.rcs || next.rcs == Simultaneous(db, scope).rcs
    ensures Simultaneous(next, scope).rcs == Simultaneous(db, scope).rcs
    ensures Simultaneous(next, scope).sms == Simultaneous(db, scope).sms
    ensures Simultaneous(next, scope).session == Simultaneous(db, scope).session
  {
    forall m ensures Selected(next, scope, m) == Selected(db, scope, m) {}
    forall r | r in next.rcs.rows ensures DeleteRcsWhere(next, scope, r) == DeleteRcsWhere(db, scope, r) {}
    assert Simultaneous(next, scope).rcs.rows == Simultaneous(db, scope).rcs.rows;
    assert Simultaneous(next, scope).sms.rows == Simultaneous(db, scope).sms.rows;
    assert Simultaneous(next, scope).session.rows == Simultaneous(db, scope).session.rows;
  }

  /** While the messages are still there, a second run selects what the first one selected. */
  lemma SimultaneousAgain(db: Db, next: Db, scope: DeleteScope, k: nat)
    requires k <= 4 && Repeatable(db, scope)
    requires next.sms == db.sms && next.session == db.session && next.url == db.url
    requires next.part.lastId == db.part.lastId && PartsAfter(db, scope, k, next.part.rows)
    requires next.rcs == db.rcs || next.rcs == Simultaneous(db, scope).rcs
    ensures Simultaneous(next, scope) == Simultaneous(db, scope)
  {
    SelectionAgain(db, next, scope);
    forall p | p in db.part.rows
      ensures p in KeptParts(db, scope) <==> p in KeptParts(next, scope)
      ensures p in KeptParts(db, scope) ==> KeptParts(next, scope)[p] == KeptParts(db, scope)[p]
    {
      var f := FlagsOf(db, scope, db.part.rows[p]);
      CountOutcome(f, db.part.rows[p].refCount);
      CountResumes(f, db.part.rows[p].refCount, k);
      if p in next.part.rows {
        SubselectsStable(db, next, scope, db.part.rows[p], next.part.rows[p]);
        CountOutcome(f, next.part.rows[p].refCount);
      }
    }
    assert forall p :: p in KeptParts(next, scope) ==> p in KeptParts(db, scope);
    assert forall p :: p in KeptParts(db, scope) ==> p in KeptParts(next, scope);
    assert KeptParts(next, scope) == KeptParts(db, scope);
  }

  /** Once the unblocked messages are gone, what a second run still selects reaches nothing new. */
  lemma SimultaneousLate(db: Db, next: Db, scope: DeleteScope)
    requires Repeatable(db, scope)
    requires next.sms == Simultaneous(db, scope).sms && next.rcs == Simultaneous(db, scope).rcs
    requires next.part == Simultaneous(db, scope).part && next.url == db.url
    requires next.session == db.session || next.session == Simultaneous(db, scope).session
    ensures Simultaneous(next, scope) == Simultaneous(db, scope)
  {
    forall m | Selected(next, scope, m) ensures Selected(db, scope, m) && db.sms.rows[m].isBlocked == 1 {}
    forall p | p in next.part.rows
      ensures !Disappears(next, scope, next.part.rows[p])
      ensures Kept(next, scope, next.part.rows[p]) == next.part.rows[p]
    {
      assert !ByRcs(next, scope, next.part.rows[p], false);
      assert ByMsg(next, scope, next.part.rows[p], false) ==> ByMsg(db, scope, db.part.rows[p], false);
      assert ByMsg(next, scope, next.part.rows[p], true) ==> ByMsg(db, scope, db.part.rows[p], true);
    }
    assert KeptParts(next, scope) == next.part.rows;
    assert Simultaneous(next, scope).rcs.rows == next.rcs.rows;
    assert Simultaneous(next, scope).sms.rows == next.sms.rows;
    assert Simultaneous(next, scope).session.rows == Simultaneous(db, scope).session.rows;
  }

  lemma ResumesWhenRepeatable(db: Db, scope: DeleteScope, k: nat)
    requires k <= DELETE_STEPS && Repeatable(db, scope)
    ensures Resumes(db, scope, k)
  {
    var next := DeletePrefix(db, scope, k);
    DeleteIsSimultaneous(db, scope);
    DeleteIsSimultaneous(next, scope);
    if k <= 4 {
      PartPrefix(db, scope, k);
      SimultaneousAgain(db, next, scope, k);
    } else {
      PrefixFive(db, scope);
      PrefixSix(db, scope);
      PrefixSeven(db, scope);
      if k == 5 {
        SimultaneousAgain(db, next, scope, 4);
      } else {
        SimultaneousLate(db, next, scope);
      }
    }
  }

  /** A shared part that survives is released twice when the delete stops right after releasing it. */
  lemma SharedPartBreaksResume(db: Db, scope: DeleteScope, p: int) returns (k: nat)
    requires p in db.part.rows && db.part.rows[p].refCount > 1 && Reached(db, scope, db.part.rows[p])
    requires !(db.part.rows[p].refCount == 2 && Reach(db, scope, db.part.rows[p]) == 2)
    ensures k < DELETE_STEPS && !Resumes(db, scope, k)
  {
    var row := db.part.rows[p];
    var f := FlagsOf(db, scope, row);
    k := if f.msg then 2 else 4;
    var next := DeletePrefix(db, scope, k);
    PartPrefix(db, scope, k);
    assert CountAfter(f, row.refCount, 1) == Some(row.refCount);
    assert CountAfter(f, row.refCount, 2) == Some(row.refCount - if f.msg then 1 else 0);
    assert CountAfter(f, row.refCount, k) == Some(row.refCount - 1);
    assert p in next.part.rows && next.part.rows[p].refCount == row.refCount - 1;
    SubselectsStable(db, next, scope, row, next.part.rows[p]);
    assert Reach(next, scope, next.part.rows[p]) == Reach(db, scope, row);
    DeleteIsSimultaneous(db, scope);
    DeleteIsSimultaneous(next, scope);
    assert p in Simultaneous(db, scope).part.rows;
    assert p in Simultaneous(next, scope).part.rows ==>
      Simultaneous(next, scope).part.rows[p] != Simultaneous(db, scope).part.rows[p];
  }

  /** Exactly when a failed delete can simply be repeated, whichever statement failed. */
  lemma ResumableIff(db: Db, scope: DeleteScope)
    ensures (forall k: nat | k < DELETE_STEPS :: Resumes(db, scope, k)) <==> Repeatable(db, scope)
  {
    if Repeatable(db, scope) {
      forall k: nat | k < DELETE_STEPS ensures Resumes(db, scope, k) { ResumesWhenRepeatable(db, scope, k); }
    } else {
      var p :| p in db.part.rows && db.part.rows[p].refCount > 1 && Reached(db, scope, db.part.rows[p]) &&
        !(db.part.rows[p].refCount == 2 && Reach(db, scope, db.part.rows[p]) == 2);
      var k := SharedPartBreaksResume(db, scope, p);
      assert !Resumes(db, scope, k);
    }
  }

  lemma PrefixStaysRepeatable(db: Db, scope: DeleteScope, k: nat)
    requires k <= DELETE_STEPS && Repeatable(db, scope)
    ensures Repeatable(DeletePrefix(db, scope, k), scope)
  {
    var next := DeletePrefix(db, scope, k);
    PartPrefix(db, scope, if k < 4 then k else 4);
    PrefixFive(db, scope);
    PrefixSix(db, scope);
    PrefixSeven(db, scope);
    assert k > 5 ==> forall m :: Selected(next, scope, m) ==> Selected(db, scope, m) && db.sms.rows[m].isBlocked == 1;
    forall p | p in next.part.rows && next.part.rows[p].refCount > 1 && Reached(next, scope, next.part.rows[p])
      ensures next.part.rows[p].refCount == 2 && Reach(next, scope, next.part.rows[p]) == 2
    {
      var row := db.part.rows[p];
      var f := FlagsOf(db, scope, row);
      CountOutcome(f, row.refCount);
      if k <= 5 {
        SubselectsStable(db, next, scope, row, next.part.rows[p]);
        CountResumes(f, row.refCount, if k < 4 then k else 4);
      } else {
        assert false;
      }
    }
  }

  function Interrupted(db: Db, scope: DeleteScope, stops: seq<nat>): Db
    requires forall i :: 0 <= i < |stops| ==> stops[i] <= DELETE_STEPS
  {
    if stops == [] then db
    else DeletePrefix(Interrupted(db, scope, stops[..|stops| - 1]), scope, stops[|stops| - 1])
  }

  /** However often the delete was cut short, one complete run ends where an undisturbed one does. */
  lemma {:induction false} DeleteIsResumable(db: Db, scope: DeleteScope, stops: seq<nat>)
    requires Repeatable(db, scope)
    requires forall i :: 0 <= i < |stops| ==> stops[i] <= DELETE_STEPS
    ensures Repeatable(Interrupted(db, scope, stops), scope)
    ensures DeleteAll(Interrupted(db, scope, stops), scope) == DeleteAll(db, scope)
  {
    if stops != [] {
      var before := Interrupted(db, scope, stops[..|stops| - 1]);
      DeleteIsResumable(db, scope, stops[..|stops| - 1]);
      PrefixStaysRepeatable(before, scope, stops[|stops| - 1]);
      ResumesWhenRepeatable(before, scope, stops[|stops| - 1]);
    }
  }

  // ---------------------------------------------------------------- the files that become garbage

  /** The rows of the two UNION ALL branches of the path query. */
  function PredictedParts(db: Db, scope: DeleteScope): set<int> {
    set p | p in db.part.rows &&
      (DeleteRcsPartWhere(db, scope, db.part.rows[p]) || DeleteMmsPartWhere(db, scope, db.part.rows[p]))
  }

  function PathsOf(db: Db, parts: set<int>): set<string> {
    set p | p in parts && p in db.part.rows :: db.part.rows[p].path
  }

  function QueryMmsPaths(db: Db, scope: DeleteScope): set<string> {
    PathsOf(db, PredictedParts(db, scope))
  }

  ghost function RemovedParts(db: Db, scope: DeleteScope): set<int> {
    set p | p in db.part.rows && p !in DeleteAll(db, scope).part.rows
  }

  /** A part that two references, both given up by this delete, still held. */
  ghost function DoublyReleased(db: Db, scope: DeleteScope): set<int> {
    set p | p in db.part.rows && db.part.rows[p].refCount == 2 && Reach(db, scope, db.part.rows[p]) == 2
  }

  /** The query, run before the delete, misses exactly the parts whose last two references go together. */
  lemma QueryMissesDoublyReleased(db: Db, scope: DeleteScope)
    ensures RemovedParts(db, scope) == PredictedParts(db, scope) + DoublyReleased(db, scope)
    ensures PredictedParts(db, scope) !! DoublyReleased(db, scope)
  {
    DeleteIsSimultaneous(db, scope);
    forall p | p in db.part.rows
      ensures Disappears(db, scope, db.part.rows[p]) <==>
        p in PredictedParts(db, scope) || p in DoublyReleased(db, scope)
    {}
    assert forall p :: p in PredictedParts(db, scope) ==> db.part.rows[p].refCount != 2;
  }

  lemma PathQueryPredictsDelete(db: Db, scope: DeleteScope)
    ensures QueryMmsPaths(db, scope) <= PathsOf(db, RemovedParts(db, scope))
    ensures QueryMmsPaths(db, scope) == PathsOf(db, RemovedParts(db, scope)) <==>
      PathsOf(db, DoublyReleased(db, scope)) <= QueryMmsPaths(db, scope)
    ensures DoublyReleased(db, scope) == {} ==> QueryMmsPaths(db, scope) == PathsOf(db, RemovedParts(db, scope))
  {
    QueryMissesDoublyReleased(db, scope);
    assert PathsOf(db, RemovedParts(db, scope)) ==
      QueryMmsPaths(db, scope) + PathsOf(db, DoublyReleased(db, scope));
  }
}
