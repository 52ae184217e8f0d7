/** Merging the temporary store into the EL2 store row by row: sessions, their rcs rows, messages,
    parts and url records, with new ids and duplicate detection.  Messages, rcs rows and parts are
    deleted from the source only after the destination has them; url records are deleted in any case.
    Query results are snapshots. */
module MergeCopy {
  import opened SmsMmsTables
  import opened Sums
  import opened ConversationAccounts
  import opened MergeRelations
  import opened MergeFailures
  import opened MergeSteps
  import opened MergeTurns
  import Index = UnreadCount

  // ---------------------------------------------------------------- stores whose statements may fail

  /** The rows of a query, in whatever order the database returns them. */
  method Enumerate<T(==)>(s: set<T>) returns (q: seq<T>)
    ensures forall x :: x in q <==> x in s
    ensures forall i :: 0 <= i < |q| ==> q[i] in s
    ensures forall i, j :: 0 <= i < j < |q| ==> q[i] != q[j]
  {
    var rest := s;
    q := [];
    while rest != {}
      invariant rest <= s
      invariant forall x :: x in q <==> x in s && x !in rest
      invariant forall i, j :: 0 <= i < j < |q| ==> q[i] != q[j]
      decreases rest
    {
      var x :| x in rest;
      q := q + [x];
      rest := rest - {x};
    }
  }

  /** Any statement or query may fail; `failed` counts how often each kind has. */
  class Store {
    var db: Db
    ghost var failed: multiset<Statement>

    constructor (initial: Db)
      ensures db == initial && failed == multiset{}
    {
      db, failed := initial, multiset{};
    }

    method Works(statement: Statement) returns (ok: bool)
      modifies this`failed
      ensures failed == Counted(old(failed), statement, ok)
    {
      ok := *;
      failed := Counted(failed, statement, ok);
    }

    /** Insert hands out id 0 when it fails. */
    method InsertSms(row: SmsRow) returns (id: int)
      modifies this
      ensures id == 0 || id == old(db).sms.lastId + 1
      ensures db == if id == 0 then old(db) else SmsMmsTables.InsertSms(old(db), row)
      ensures failed == Counted(old(failed), Insert(SmsMmsInfo), id != 0)
    {
      var works := Works(Insert(SmsMmsInfo));
      if works {
        id := db.sms.lastId + 1;
        db := SmsMmsTables.InsertSms(db, row);
      } else {
        id := 0;
      }
    }

    method InsertRcs(row: RcsRow) returns (id: int)
      modifies this
      ensures id == 0 || id == old(db).rcs.lastId + 1
      ensures db == if id == 0 then old(db) else SmsMmsTables.InsertRcs(old(db), row)
      ensures failed == Counted(old(failed), Insert(RcsInfo), id != 0)
    {
      var works := Works(Insert(RcsInfo));
      if works {
        id := db.rcs.lastId + 1;
        db := SmsMmsTables.InsertRcs(db, row);
      } else {
        id := 0;
      }
    }

    method InsertPart(row: PartRow) returns (id: int)
      modifies this
      ensures id == 0 || id == old(db).part.lastId + 1
      ensures db == if id == 0 then old(db) else old(db).(part := old(db).part.Add(row))
      ensures failed == Counted(old(failed), Insert(MmsPart), id != 0)
    {
      var works := Works(Insert(MmsPart));
      if works {
        id := db.part.lastId + 1;
        db := db.(part := db.part.Add(row));
      } else {
        id := 0;
      }
    }

    method InsertUrl(row: UrlRow) returns (id: int)
      modifies this
      ensures id == 0 || id == old(db).url.lastId + 1
      ensures db == if id == 0 then old(db) else old(db).(url := old(db).url.Add(row))
      ensures failed == Counted(old(failed), Insert(RiskUrlRecord), id != 0)
    {
      var works := Works(Insert(RiskUrlRecord));
      if works {
        id := db.url.lastId + 1;
        db := db.(url := db.url.Add(row));
      } else {
        id := 0;
      }
    }

    method InsertSession(row: SessionRow) returns (id: int)
      modifies this
      ensures id == 0 || id == old(db).session.lastId + 1
      ensures db == if id == 0 then old(db) else old(db).(session := old(db).session.Add(row))
      ensures failed == Counted(old(failed), Insert(Session), id != 0)
    {
      var works := Works(Insert(Session));
      if works {
        id := db.session.lastId + 1;
        db := db.(session := db.session.Add(row));
      } else {
        id := 0;
      }
    }

    /** A statement that deletes or updates by id takes effect as a whole or not at all. */
    method Replace(statement: Statement, next: Db) returns (ok: bool)
      modifies this
      ensures db == if ok then next else old(db)
      ensures failed == Counted(old(failed), statement, ok)
    {
      ok := Works(statement);
      if ok {
        db := next;
      }
    }

    /** The first row of a result set, 0 without one or when the query fails. */
    method FirstOf(relation: Relation, ids: set<int>) returns (id: int, ghost ok: bool)
      modifies this`failed
      ensures failed == Counted(old(failed), Select(relation), ok)
      ensures id == if ok && ids != {} then First(ids) else 0
    {
      var works := Works(Select(relation));
      ok := works;
      id := if works && ids != {} then First(ids) else 0;
    }
  }

  // ---------------------------------------------------------------- loops over query results

  /** Some row of those a loop has visited is still there. */
  ghost predicate Left<R>(t: Table<R>, ids: seq<int>, visited: nat)
    requires visited <= |ids|
  {
    exists j :: 0 <= j < visited && ids[j] in t.rows
  }

  lemma NoneLeft<R>(t: Table<R>, ids: seq<int>)
    ensures !Left(t, ids, 0)
  {}

  /** Only visited rows are gone. */
  ghost predicate Gone<R>(t0: Table<R>, t: Table<R>, ids: seq<int>) {
    forall k :: k in t0.rows && k !in t.rows ==> k in ids
  }

  lemma NoneGone<R>(t: Table<R>, ids: seq<int>)
    ensures Gone(t, t, ids)
  {}

  lemma GoneStep<R>(t0: Table<R>, t1: Table<R>, t2: Table<R>, ids: seq<int>, i: nat)
    requires i < |ids| && Gone(t0, t1, ids) && (t2 == t1 || t2 == t1.Without({ids[i]}))
    ensures Gone(t0, t2, ids)
  {}

  lemma GoneEach<R>(t0: Table<R>, t: Table<R>, ids: seq<int>)
    requires Gone(t0, t, ids)
    ensures forall k {:trigger k in t0.rows, k in t.rows} :: k in t0.rows && k !in t.rows ==> k in ids
  {}

  lemma LeftStep<R>(t1: Table<R>, t2: Table<R>, ids: seq<int>, i: nat)
    requires i < |ids| && forall j, k :: 0 <= j < k < |ids| ==> ids[j] != ids[k]
    requires t2 == t1 || t2 == t1.Without({ids[i]})
    ensures Left(t2, ids, i + 1) <==> Left(t1, ids, i) || ids[i] in t2.rows
    ensures forall j :: i < j < |ids| ==> (ids[j] in t1.rows <==> ids[j] in t2.rows)
  {
    forall j | 0 <= j < |ids| && j != i ensures ids[j] in t1.rows <==> ids[j] in t2.rows {
      ghost var k := ids[j];
      assert k != ids[i];
    }
    if Left(t1, ids, i) {
      var j :| 0 <= j < i && ids[j] in t1.rows;
      assert ids[j] in t2.rows;
    }
    if Left(t2, ids, i + 1) && ids[i] !in t2.rows {
      var j :| 0 <= j < i + 1 && ids[j] in t2.rows;
      assert ids[j] in t1.rows;
    }
  }

  /** What is left of the rows a query found is what is left of those it asked for. */
  lemma LeftExactly<R>(t0: Table<R>, t: Table<R>, ids: seq<int>, chosen: R -> bool)
    requires Within(t, t0)
    requires forall k :: k in ids <==> k in t0.rows && chosen(t0.rows[k])
    ensures Left(t, ids, |ids|) <==> exists k :: k in t.rows && chosen(t.rows[k])
  {
    if Left(t, ids, |ids|) {
      var j :| 0 <= j < |ids| && ids[j] in t.rows;
      var k := ids[j];
      assert k in ids && k in t.rows && chosen(t.rows[k]);
    }
    if k :| k in t.rows && chosen(t.rows[k]) {
      assert k in ids;
    }
  }

  // ---------------------------------------------------------------- the copy

  const PHONE_CMP_LENGTH := 7

  function Tail(phone: string): string {
    if |phone| > PHONE_CMP_LENGTH then phone[|phone| - PHONE_CMP_LENGTH..] else phone
  }

  predicate EndsWith(s: string, tail: string) {
    |tail| <= |s| && s[|s| - |tail|..] == tail
  }

  class Merger {
    const src: Store
    const dst: Store
    /** The number format used to recognise a conversation; it is the phone library's business. */
    const norm: string -> string
    ghost var links: set<Link>
    ghost var lost: set<Link>

    constructor (src: Store, dst: Store, norm: string -> string)
      ensures this.src == src && this.dst == dst && this.norm == norm && links == {} && lost == {}
    {
      this.src, this.dst, this.norm := src, dst, norm;
      links, lost := {}, {};
    }

    /** The two stores are different databases; the destination's ids are well formed. */
    ghost predicate Ready()
      reads this, dst
    {
      src != dst && dst.db.Valid() && links <= Links(dst.db.url)
    }

    ghost function Now(): Progress
      reads this, src, dst
    {
      Progress(src.db, dst.db, links, lost, src.failed, dst.failed)
    }

    /** The group number of each message and rcs row in the destination. */
    function Groups(): set<int>
      reads dst
    {
      (set m | m in dst.db.sms.rows :: dst.db.sms.rows[m].groupId) +
      (set r | r in dst.db.rcs.rows :: dst.db.rcs.rows[r].groupId)
    }

    /** One more than the largest group number in use; the argument when the query fails or there is none. */
    method CalcGroupId(groupId: int) returns (next: int, ghost ok: bool)
      modifies dst`failed
      ensures dst.failed == Counted(old(dst.failed), Select(SmsMmsInfo), ok)
      ensures if ok && Groups() != {} then next - 1 in Groups() && forall g :: g in Groups() ==> g < next
              else next == groupId
    {
      var works := dst.Works(Select(SmsMmsInfo));
      ok := works;
      if !works || Groups() == {} {
        return groupId, ok;
      }
      var all := Enumerate(Groups());
      ghost var some :| some in Groups();
      assert some in all;
      var max := all[0];
      for i := 0 to |all|
        invariant max in Groups() && forall j :: 0 <= j < i ==> all[j] <= max
      {
        if max < all[i] { max := all[i]; }
      }
      next := max + 1;
      forall g | g in Groups() ensures g < next {
        assert g in all;
      }
    }

    /** The group of the messages copied before in this pass, if there is one. */
    method GroupFor(groupId: int) returns (group: int, ghost ok: bool)
      modifies dst`failed
      ensures dst.failed == Counted(old(dst.failed), Select(SmsMmsInfo), ok)
      ensures groupId != 0 ==> group == groupId
      ensures groupId == 0 && ok && Groups() != {} ==> group - 1 in Groups() && forall g :: g in Groups() ==> g < group
      ensures groupId == 0 ==> GroupIsNew(dst.db, group)
    {
      group, ok := groupId, true;
      if groupId == 0 {
        group, ok := CalcGroupId(groupId);
        forall m | m in dst.db.sms.rows ensures dst.db.sms.rows[m].groupId in Groups() {}
        forall r | r in dst.db.rcs.rows ensures dst.db.rcs.rows[r].groupId in Groups() {}
      }
    }

    // -------------------------------------------------------------- parts and url records

    /** A part belongs to a group, and to an rcs row if there is one, else to a message. */
    predicate PartOf(row: PartRow, rcsId: int, msgId: int, groupId: int) {
      row.groupId == groupId && if rcsId > 0 then row.rcsId == rcsId else row.msgId == msgId
    }

    /** The part is recognised by the columns it has in the source. */
    method MmsPartCheckE(row: PartRow) returns (id: int, ghost ok: bool)
      requires Ready()
      modifies dst`failed
      ensures dst.failed == Counted(old(dst.failed), Select(MmsPart), ok)
      ensures id != 0 ==> IsPart(dst.db, id, row)
      ensures ok ==> (id != 0 <==> HasPart(dst.db, row))
    {
      var same := set p | p in dst.db.part.rows && SamePart(row, dst.db.part.rows[p]);
      id, ok := dst.FirstOf(MmsPart, same);
      assert forall n :: n in same <==> IsPart(dst.db, n, row);
    }

    method CopyOnePart(idC: int, row: PartRow, msgIdE: int, rcsIdE: int, groupIdE: int) returns (inserted: bool)
      requires Ready() && msgIdE in dst.db.sms.rows
      requires idC in src.db.part.rows && src.db.part.rows[idC] == row
      modifies src, dst
      ensures Ready() && Reaches(old(Now()), Now()) && NewRowsLinked(old(dst.db), dst.db)
      ensures src.db == old(src.db).(part := src.db.part)
      ensures src.db.part == old(src.db).part || src.db.part == old(src.db).part.Without({idC})
      ensures dst.db == old(dst.db).(part := dst.db.part)
      ensures forall n :: n in dst.db.part.rows && n !in old(dst.db).part.rows ==>
        dst.db.part.rows[n] == row.(groupId := groupIdE, msgId := msgIdE, rcsId := rcsIdE)
      ensures FailedOnlyOn(old(Now()), Now(), {MmsPart}) && !SrcFailed(old(Now()), Now(), Select(MmsPart))
      ensures inserted <==> !DstFailed(old(Now()), Now(), Insert(MmsPart))
      ensures inserted && !DstFailed(old(Now()), Now(), Select(MmsPart)) ==>
        (dst.db.part == old(dst.db).part <==> HasPart(old(dst.db), row))
      ensures PartsAttached(old(dst.db), dst.db, msgIdE, rcsIdE, groupIdE)
      ensures inserted ==> Filed(row, old(dst.db), dst.db, msgIdE, rcsIdE, groupIdE)
      ensures inserted ==> (idC in src.db.part.rows <==> SrcFailed(old(Now()), Now(), Delete(MmsPart)))
    {
      hide Reaches, NewRowsLinked, SrcFailed, DstFailed, FailuresGrow, FailedOnlyOn, Stuck, Halted, RcsStuck;
      hide RcsHalted, Filed, IsPart;
      ghost var was := Now();
      var idE, asked := MmsPartCheckE(row);
      if idE == 0 {
        idE := dst.InsertPart(row.(groupId := groupIdE, msgId := msgIdE, rcsId := rcsIdE));
      }
      ghost var found := Now();
      if idE == 0 {
        RowFails(was, found, found, MmsPart, asked, false, true);
        ReachesByPart(was, found, idC);
        return false;
      }
      inserted := true;
      FiledAt(row, was.dst, dst.db, idE, msgIdE, rcsIdE, groupIdE);
      var done := src.Replace(Delete(MmsPart), src.db.(part := src.db.part.Without({idC})));
      RowFails(was, found, Now(), MmsPart, asked, true, done);
      ReachesByPart(was, Now(), idC);
    }

    /** The parts of a message.  Those left behind are those whose delete failed. */
    method CopyMmsPart(rcsIdC: int, rcsIdE: int, msgIdC: int, msgIdE: int, groupIdC: int, groupIdE: int)
      returns (ok: bool)
      requires Ready() && msgIdE in dst.db.sms.rows
      modifies src, dst
      ensures Ready() && Reaches(old(Now()), Now()) && NewRowsLinked(old(dst.db), dst.db)
      ensures src.db == old(src.db).(part := src.db.part) && dst.db == old(dst.db).(part := dst.db.part)
      ensures FailedOnlyOn(old(Now()), Now(), {MmsPart})
      ensures ok <==> !SrcFailed(old(Now()), Now(), Select(MmsPart)) && !DstFailed(old(Now()), Now(), Insert(MmsPart))
      ensures ok ==> (SrcFailed(old(Now()), Now(), Delete(MmsPart)) <==>
        exists p :: p in src.db.part.rows && IsPartOf(src.db.part.rows[p], groupIdC, msgIdC, rcsIdC))
      ensures ok ==>
        forall p :: p in old(src.db).part.rows && IsPartOf(old(src.db).part.rows[p], groupIdC, msgIdC, rcsIdC) ==>
        Filed(old(src.db).part.rows[p], old(dst.db), dst.db, msgIdE, rcsIdE, groupIdE)
      ensures forall p :: p in old(src.db).part.rows && p !in src.db.part.rows ==>
        IsPartOf(old(src.db).part.rows[p], groupIdC, msgIdC, rcsIdC)
      ensures PartsAttached(old(dst.db), dst.db, msgIdE, rcsIdE, groupIdE)
    {
      hide Left, Reaches, Copied, Later, SrcFailed, DstFailed, FailuresGrow, FailedOnlyOn, Counted, NewRowsLinked;
      hide Stuck, Halted, RcsStuck, RcsHalted, Filed, AttachedPart, PartsAttached, AllFiled, Gone;
      ghost var start := Now();
      var works := src.Works(Select(MmsPart));
      ReachesByQuery(start, Now(), Select(MmsPart), works);
      PartsAttachedNone(start.dst, msgIdE, rcsIdE, groupIdE);
      if !works {
        return false;
      }
      var rows := src.db.part.rows;
      var ids := Enumerate(set p | p in rows && PartOf(rows[p], rcsIdC, msgIdC, groupIdC));
      NoneLeft(src.db.part, ids);
      NoneGone(start.src.part, ids);
      AllFiledNone(rows, ids, start.dst, msgIdE, rcsIdE, groupIdE);
      for i := 0 to |ids|
        invariant Ready() && Reaches(start, Now()) && NewRowsLinked(start.dst, dst.db)
        invariant src.db == start.src.(part := src.db.part) && dst.db == start.dst.(part := dst.db.part)
        invariant FailedOnlyOn(start, Now(), {MmsPart})
        invariant !SrcFailed(start, Now(), Select(MmsPart)) && !DstFailed(start, Now(), Insert(MmsPart))
        invariant forall j :: i <= j < |ids| ==> ids[j] in src.db.part.rows
        invariant Left(src.db.part, ids, i) <==> SrcFailed(start, Now(), Delete(MmsPart))
        invariant AllFiled(rows, ids[..i], start.dst, dst.db, msgIdE, rcsIdE, groupIdE)
        invariant Gone(start.src.part, src.db.part, ids)
        invariant PartsAttached(start.dst, dst.db, msgIdE, rcsIdE, groupIdE)
      {
        ghost var before := Now();
        ReachesKeeps(start, before);
        var inserted := CopyOnePart(ids[i], rows[ids[i]], msgIdE, rcsIdE, groupIdE);
        ReachesThen(start, before, Now());
        ReachesKeeps(before, Now());
        GoneStep(start.src.part, before.src.part, src.db.part, ids, i);
        PartsAttachedThen(start.dst, before.dst, dst.db, msgIdE, rcsIdE, groupIdE);
        if !inserted {
          return false;
        }
        AllFiledStep(rows, ids, i, start.dst, before.dst, dst.db, msgIdE, rcsIdE, groupIdE);
        LeftStep(before.src.part, src.db.part, ids, i);
      }
      ok := true;
      ReachesKeeps(start, Now());
      LeftExactly(start.src.part, src.db.part, ids, (row: PartRow) => PartOf(row, rcsIdC, msgIdC, groupIdC));
      AllFiledEach(rows, ids, start.dst, dst.db, msgIdE, rcsIdE, groupIdE);
      GoneEach(start.src.part, src.db.part, ids);
    }

    predicate UrlOf(row: UrlRow, sessionId: int, rcsId: int, msgId: int) {
      row.sessionId == sessionId && row.msgId == msgId && (rcsId > 0 ==> row.rcsId == rcsId)
    }

    method RiskUrlRecordCheckE(row: UrlRow) returns (id: int, ghost ok: bool)
      requires Ready()
      modifies dst`failed
      ensures dst.failed == Counted(old(dst.failed), Select(RiskUrlRecord), ok)
      ensures id != 0 ==> IsUrl(dst.db, id, row)
      ensures ok ==> (id != 0 <==> HasUrl(dst.db, row))
    {
      var same := set u | u in dst.db.url.rows && SameUrl(row, dst.db.url.rows[u]);
      id, ok := dst.FirstOf(RiskUrlRecord, same);
      assert forall n :: n in same <==> IsUrl(dst.db, n, row);
    }

    /** A record is recognised or inserted, or is lost because its insert failed in this very call. */
    method RecordUrl(row: UrlRow, sessionIdE: int, rcsIdE: int, msgIdE: int)
      requires Ready()
      modifies dst, this
      ensures Ready() && dst.db == old(dst.db).(url := dst.db.url) && Within(old(dst.db).url, dst.db.url)
      ensures forall n | n in dst.db.url.rows && n !in old(dst.db).url.rows ::
        dst.db.url.rows[n] ==
          row.(sessionId := sessionIdE, msgId := msgIdE, rcsId := if rcsIdE > 0 then rcsIdE else row.rcsId)
      ensures Links(dst.db.url) == Links(old(dst.db).url) + links
      ensures !DstFailed(old(Now()), Now(), Select(RiskUrlRecord)) && dst.db.url != old(dst.db).url ==>
        !HasUrl(old(dst.db), row)
      ensures FailuresGrow(old(Now()), Now()) && FailedOnlyOn(old(Now()), Now(), {RiskUrlRecord})
      ensures forall st :: !SrcFailed(old(Now()), Now(), st)
      ensures if DstFailed(old(Now()), Now(), Insert(RiskUrlRecord))
        then (links, lost) == (old(links), old(lost) + {LinkOf(row)}) && dst.db == old(dst.db)
        else (links, lost) == (old(links) + {LinkOf(row)}, old(lost))
    {
      hide SrcFailed, DstFailed, FailuresGrow, FailedOnlyOn, Stuck, Halted, RcsStuck, RcsHalted;
      ghost var start := Now();
      var idE, asked := RiskUrlRecordCheckE(row);
      if idE == 0 {
        var next := row.(sessionId := sessionIdE, msgId := msgIdE);
        idE := dst.InsertUrl(if rcsIdE > 0 then next.(rcsId := rcsIdE) else next);
      }
      ghost var found := Now();
      TwoFailOnDestination(start, found, Select(RiskUrlRecord), asked, Insert(RiskUrlRecord), idE != 0);
      LinksAfter(start.dst.url, dst.db.url, row, idE, links);
      if idE != 0 {
        links := links + {LinkOf(row)};
      } else {
        lost := lost + {LinkOf(row)};
      }
      SameFailuresAs(start, found, Now());
    }

    /** The record leaves the source whether it was recognised, inserted or neither. */
    method CopyOneUrl(idC: int, row: UrlRow, sessionIdE: int, rcsIdE: int, msgIdE: int)
      requires Ready()
      requires idC in src.db.url.rows ==> src.db.url.rows[idC] == row
      modifies src, dst, this
      ensures Ready() && Reaches(old(Now()), Now()) && NewRowsLinked(old(dst.db), dst.db)
      ensures src.db == old(src.db).(url := src.db.url) && dst.db == old(dst.db).(url := dst.db.url)
      ensures src.db.url == old(src.db).url || src.db.url == old(src.db).url.Without({idC})
      ensures LinkOf(row) in Links(dst.db.url) <==> LinkOf(row) in links || LinkOf(row) in old(Links(dst.db.url))
      ensures UrlsUnder(old(dst.db).url, dst.db.url, sessionIdE, msgIdE, rcsIdE)
      ensures Within(old(dst.db).url, dst.db.url)
      ensures if DstFailed(old(Now()), Now(), Insert(RiskUrlRecord))
        then (links, lost) == (old(links), old(lost) + {LinkOf(row)}) && dst.db == old(dst.db)
        else (links, lost) == (old(links) + {LinkOf(row)}, old(lost))
      ensures FailedOnlyOn(old(Now()), Now(), {RiskUrlRecord})
      ensures !SrcFailed(old(Now()), Now(), Select(RiskUrlRecord))
      ensures idC in old(src.db).url.rows ==>
        (idC in src.db.url.rows <==> SrcFailed(old(Now()), Now(), Delete(RiskUrlRecord)))
    {
      hide SrcFailed, DstFailed, FailuresGrow, FailedOnlyOn, Counted, Stuck, Halted, RcsStuck, RcsHalted;
      CopiedRefl(src.db, dst.db);
      ghost var was := Now();
      RecordUrl(row, sessionIdE, rcsIdE, msgIdE);
      ghost var recorded := Now();
      var done := src.Replace(Delete(RiskUrlRecord), src.db.(url := src.db.url.Without({idC})));
      FailsOnSource(recorded, Now(), Delete(RiskUrlRecord), done);
      FailuresThen(was, recorded, Now());
      ReachesByRecords(was, Now());
    }

    /** Every record of a message arrives or is lost.  Those left behind are those whose delete failed. */
    method CopyRiskUrlRecord(sessionIdC: int, sessionIdE: int, rcsIdC: int, rcsIdE: int, msgIdC: int, msgIdE: int)
      returns (ok: bool)
      requires Ready()
      modifies src, dst, this
      ensures Ready() && Reaches(old(Now()), Now()) && NewRowsLinked(old(dst.db), dst.db)
      ensures src.db == old(src.db).(url := src.db.url) && dst.db == old(dst.db).(url := dst.db.url)
      ensures FailedOnlyOn(old(Now()), Now(), {RiskUrlRecord})
      ensures ok <==> !SrcFailed(old(Now()), Now(), Select(RiskUrlRecord))
      ensures ok ==>
        forall u :: u in old(src.db).url.rows && IsUrlOf(old(src.db).url.rows[u], sessionIdC, msgIdC, rcsIdC) ==>
        (old(src.db).url.rows[u].url, old(src.db).url.rows[u].createTime) in links + lost
      ensures ok ==> (SrcFailed(old(Now()), Now(), Delete(RiskUrlRecord)) <==>
        exists u :: u in src.db.url.rows && IsUrlOf(src.db.url.rows[u], sessionIdC, msgIdC, rcsIdC))
      ensures UrlsUnder(old(dst.db).url, dst.db.url, sessionIdE, msgIdE, rcsIdE)
    {
      hide Left, Links, Reaches, Copied, Later, SrcFailed, DstFailed, FailuresGrow, FailedOnlyOn, Counted, UrlsUnder;
      hide NewRowsLinked, Stuck, Halted, RcsStuck, RcsHalted;
      ghost var start := Now();
      var works := src.Works(Select(RiskUrlRecord));
      ReachesByQuery(start, Now(), Select(RiskUrlRecord), works);
      UrlsUnderNone(start.dst.url, sessionIdE, msgIdE, rcsIdE);
      if !works {
        return false;
      }
      var rows := src.db.url.rows;
      var ids := Enumerate(set u | u in rows && UrlOf(rows[u], sessionIdC, rcsIdC, msgIdC));
      NoneLeft(src.db.url, ids);
      for i := 0 to |ids|
        invariant Ready() && Reaches(start, Now()) && NewRowsLinked(start.dst, dst.db)
        invariant src.db == start.src.(url := src.db.url) && dst.db == start.dst.(url := dst.db.url)
        invariant FailedOnlyOn(start, Now(), {RiskUrlRecord}) && !SrcFailed(start, Now(), Select(RiskUrlRecord))
        invariant forall j :: 0 <= j < i ==> LinkOf(rows[ids[j]]) in links + lost
        invariant forall j :: i <= j < |ids| ==> ids[j] in src.db.url.rows
        invariant Left(src.db.url, ids, i) <==> SrcFailed(start, Now(), Delete(RiskUrlRecord))
        invariant UrlsUnder(start.dst.url, dst.db.url, sessionIdE, msgIdE, rcsIdE)
      {
        ghost var before := Now();
        ReachesKeeps(start, before);
        CopyOneUrl(ids[i], rows[ids[i]], sessionIdE, rcsIdE, msgIdE);
        UrlsUnderThen(start.dst.url, before.dst.url, dst.db.url, sessionIdE, msgIdE, rcsIdE);
        ReachesThen(start, before, Now());
        ReachesKeeps(before, Now());
        LeftStep(before.src.url, src.db.url, ids, i);
      }
      ok := true;
      ReachesKeeps(start, Now());
      forall u | u in rows && IsUrlOf(rows[u], sessionIdC, msgIdC, rcsIdC)
        ensures (rows[u].url, rows[u].createTime) in links + lost
      {
        assert u in ids && LinkOf(rows[u]) in links + lost;
      }
      LeftExactly(start.src.url, src.db.url, ids, (row: UrlRow) => UrlOf(row, sessionIdC, rcsIdC, msgIdC));
    }

    // -------------------------------------------------------------- messages

    /** A message is recognised by five columns. */
    method SmsMmsInfoCheckE(row: SmsRow) returns (id: int, ghost ok: bool)
      requires Ready()
      modifies dst`failed
      ensures dst.failed == Counted(old(dst.failed), Select(SmsMmsInfo), ok)
      ensures id != 0 ==> IsMessage(dst.db, id, row)
      ensures ok ==> (id != 0 <==> HasMessage(dst.db, row))
    {
      var same := set m | m in dst.db.sms.rows && SameMessage(row, dst.db.sms.rows[m]);
      id, ok := dst.FirstOf(SmsMmsInfo, same);
      assert forall n :: n in same <==> IsMessage(dst.db, n, row);
    }

    /** A message already in the destination is reused; a new one gets the group of this call. */
    method InsertSmsMmsToE(row: SmsRow, groupId: int, sessionId: int, rcsId: int) returns (id: int, group: int)
      requires Ready()
      modifies dst
      ensures Ready() && Grown(old(dst.db), dst.db) && SameAccounts(old(dst.db), dst.db)
      ensures AttachedTo(old(dst.db), dst.db, if sessionId != 0 then sessionId else row.sessionId)
      ensures id != 0 ==> IsMessage(dst.db, id, row)
      ensures dst.db.part == old(dst.db).part && dst.db.rcs == old(dst.db).rcs && dst.db.url == old(dst.db).url
      ensures forall n :: n in dst.db.sms.rows && n !in old(dst.db).sms.rows ==> IsSmsCopy(row, dst.db.sms.rows[n])
      ensures id in old(dst.db).sms.rows || id == 0 ==> dst.db == old(dst.db)
      ensures NewUnder(old(dst.db), dst.db, rcsId, groupId)
      ensures rcsId == 0 ==> forall n ::
        n in dst.db.sms.rows && n !in old(dst.db).sms.rows ==> dst.db.sms.rows[n].rcsId == row.rcsId
      ensures id != 0 && id !in old(dst.db).sms.rows ==> dst.db.sms.rows[id] == row.(groupId := group,
        sessionId := if sessionId != 0 then sessionId else row.sessionId,
          rcsId := if rcsId != 0 then rcsId else row.rcsId)
      ensures FailuresGrow(old(Now()), Now()) && FailedOnlyOn(old(Now()), Now(), {SmsMmsInfo})
      ensures forall st :: !SrcFailed(old(Now()), Now(), st)
      ensures (id == 0 <==> Halted(old(Now()), Now())) && !Stuck(old(Now()), Now())
      ensures HasMessage(old(dst.db), row) && !DstFailed(old(Now()), Now(), Select(SmsMmsInfo)) ==>
        id in old(dst.db).sms.rows
      ensures groupId != 0 ==> group == groupId
      ensures NewInGroup(old(dst.db), dst.db, group) && (groupId == 0 ==> GroupIsNew(old(dst.db), group))
    {
      hide Grown, SameAccounts, AttachedTo, HasMessage, SrcFailed, DstFailed, FailuresGrow, FailedOnlyOn, Counted;
      hide SmsMmsTables.InsertSms;
      ghost var start := Now();
      var s := if sessionId != 0 then sessionId else row.sessionId;
      NothingNew(dst.db, s);
      group := groupId;
      ghost var asked, numbered;
      id, asked := SmsMmsInfoCheckE(row);
      if id != 0 {
        FailsOnDestination(start, Now(), Select(SmsMmsInfo), asked);
        return;
      }
      group, numbered := GroupFor(groupId);
      var next := row.(groupId := group, sessionId := s, rcsId := if rcsId != 0 then rcsId else row.rcsId);
      InsertSmsGrows(dst.db, next);
      id := dst.InsertSms(next);
      InsertFailsOnDestination(start, Now(), Select(SmsMmsInfo), asked, Select(SmsMmsInfo), numbered,
        Insert(SmsMmsInfo), id != 0);
    }

    predicate Chosen(row: SmsRow, sessionId: int, rcsId: int, groupId: int) {
      row.sessionId == sessionId && (rcsId != 0 && groupId != 0 ==> row.rcsId == rcsId && row.groupId == groupId)
    }

    /** The parts of a message, then its records. */
    method CopyAttachments(sessionIdC: int, sessionIdE: int, rcsIdC: int, rcsIdE: int, msgIdC: int, msgIdE: int,
                           groupIdC: int, groupIdE: int) returns (ok: bool)
      requires Ready() && msgIdE in dst.db.sms.rows
      modifies src, dst, this
      ensures Ready() && Reaches(old(Now()), Now()) && NewRowsLinked(old(dst.db), dst.db)
      ensures src.db == old(src.db).(part := src.db.part, url := src.db.url)
      ensures dst.db == old(dst.db).(part := dst.db.part, url := dst.db.url)
      ensures FailedOnlyOn(old(Now()), Now(), {MmsPart, RiskUrlRecord})
      ensures UrlsUnder(old(dst.db).url, dst.db.url, sessionIdE, msgIdE, rcsIdE)
      ensures ok <==> !Stuck(old(Now()), Now())
      ensures ok ==>
        forall p :: p in old(src.db).part.rows && IsPartOf(old(src.db).part.rows[p], groupIdC, msgIdC, rcsIdC) ==>
        Filed(old(src.db).part.rows[p], old(dst.db), dst.db, msgIdE, rcsIdE, groupIdE)
      ensures ok ==>
        forall u :: u in old(src.db).url.rows && IsUrlOf(old(src.db).url.rows[u], sessionIdC, msgIdC, rcsIdC) ==>
        (old(src.db).url.rows[u].url, old(src.db).url.rows[u].createTime) in links + lost
      ensures forall p :: p in old(src.db).part.rows && p !in src.db.part.rows ==>
        IsPartOf(old(src.db).part.rows[p], groupIdC, msgIdC, rcsIdC)
    {
      hide Reaches, Copied, Later, SrcFailed, DstFailed, NewRowsLinked, Filed, IsPartOf, IsUrlOf, UrlsUnder;
      ghost var start := Now();
      UrlsUnderNone(start.dst.url, sessionIdE, msgIdE, rcsIdE);
      ok := CopyMmsPart(rcsIdC, rcsIdE, msgIdC, msgIdE, groupIdC, groupIdE);
      ReachesKeeps(start, Now());
      if ok {
        ghost var parted := Now();
        ok := CopyRiskUrlRecord(sessionIdC, sessionIdE, rcsIdC, rcsIdE, msgIdC, msgIdE);
        ReachesKeeps(parted, Now());
        ReachesThen(start, parted, Now());
        FiledApart(start.src, start.dst, parted.dst, dst.db, msgIdE, rcsIdE, groupIdE);
      }
    }

    /** One message: its row first, then its parts and records, and only then is it deleted.  It stays
        exactly if one of these statements failed in this call; if it does not, each part and record that
        names it, or the rcs row it was taken by, went with it, and no other part did. */
    method CopyOneMessage(msgIdC: int, row: SmsRow, sessionIdC: int, sessionIdE: int, rcsIdC: int, rcsIdE: int,
        groupE: int)
      returns (inserted: bool, groupIdE: int, ghost msgIdE: int)
      requires Ready()
      requires msgIdC in src.db.sms.rows && src.db.sms.rows[msgIdC] == row
      modifies src, dst, this
      ensures Ready() && Reaches(old(Now()), Now()) && SameAccounts(old(dst.db), dst.db)
      ensures AttachedTo(old(dst.db), dst.db, if sessionIdE != 0 then sessionIdE else row.sessionId)
      ensures src.db.rcs == old(src.db).rcs && src.db.session == old(src.db).session
      ensures src.db.sms == old(src.db).sms || src.db.sms == old(src.db).sms.Without({msgIdC})
      ensures FailedOnlyOn(old(Now()), Now(), {SmsMmsInfo, MmsPart, RiskUrlRecord})
      ensures inserted <==> !Halted(old(Now()), Now())
      ensures inserted ==> (msgIdC in src.db.sms.rows <==> Stuck(old(Now()), Now()))
      ensures NewMessages(old(src.db), old(dst.db), dst.db, rcsIdE, groupE)
      ensures NewInGroup(old(dst.db), dst.db, groupIdE)
      ensures if groupE != 0 then groupIdE == groupE else GroupIsNew(old(dst.db), groupIdE)
      ensures inserted ==> IsMessage(dst.db, msgIdE, row)
      ensures UrlsUnder(old(dst.db).url, dst.db.url, sessionIdE, msgIdE, rcsIdE)
      ensures msgIdC !in src.db.sms.rows ==>
        forall p :: p in old(src.db).part.rows && IsPartOf(old(src.db).part.rows[p], row.groupId, msgIdC, rcsIdC) ==>
        Filed(old(src.db).part.rows[p], old(dst.db), dst.db, msgIdE, rcsIdE, groupIdE)
      ensures msgIdC !in src.db.sms.rows ==>
        forall u :: u in old(src.db).url.rows && IsUrlOf(old(src.db).url.rows[u], sessionIdC, msgIdC, rcsIdC) ==>
        (old(src.db).url.rows[u].url, old(src.db).url.rows[u].createTime) in links + lost
      ensures forall p :: p in old(src.db).part.rows && p !in src.db.part.rows ==>
        IsPartOf(old(src.db).part.rows[p], row.groupId, msgIdC, rcsIdC)
    {
      hide Reaches, Copied, SameAccounts, AttachedTo, NewRowsLinked, SrcFailed, DstFailed, FailuresGrow;
      hide FailedOnlyOn, Counted, Stuck, Halted, RcsStuck, RcsHalted, IsPartOf, IsUrlOf, Filed, IsSmsCopy;
      hide NewUnder, NewMessages, NewInGroup, GroupIsNew, UrlsUnder;
      ghost var start := Now();
      ghost var s := if sessionIdE != 0 then sessionIdE else row.sessionId;
      var idE;
      idE, groupIdE := InsertSmsMmsToE(row, groupE, sessionIdE, rcsIdE);
      msgIdE := idE;
      OneNewMessage(start.src, msgIdC, row, start.dst, dst.db, rcsIdE, groupE, groupIdE);
      UrlsUnderNone(start.dst.url, sessionIdE, msgIdE, rcsIdE);
      ReachesByMessage(start, Now(), msgIdC);
      FailedOnWider(start, Now(), {SmsMmsInfo}, {SmsMmsInfo, MmsPart, RiskUrlRecord});
      if idE == 0 {
        return false, groupIdE, msgIdE;
      }
      inserted := true;
      ghost var found := Now();
      assert HasMessage(dst.db, row);
      var done := CopyAttachments(sessionIdC, sessionIdE, rcsIdC, rcsIdE, msgIdC, idE, row.groupId, groupIdE);
      AttachedByParts(found.dst, dst.db, s);
      NewMessagesApart(start.src, start.dst, found.dst, dst.db, rcsIdE, groupE, groupIdE);
      ReachesThen(start, found, Now());
      ReachesKeeps(found, Now());
      AttachmentsHaltNothing(found, Now());
      FiledBefore(start.src, start.dst, found.dst, dst.db, msgIdE, rcsIdE, groupIdE);
      AttachmentsChangeNoAccount(found.dst, dst.db);
      SameAccountsThen(start.dst, found.dst, dst.db);
      if !done {
        return;
      }
      ghost var recorded := Now();
      ReachesKeeps(start, recorded);
      MessageStays(found.dst, dst.db, row);
      done := src.Replace(Delete(SmsMmsInfo), src.db.(sms := src.db.sms.Without({msgIdC})));
      DeleteFails(start, recorded, Now(), SmsMmsInfo, done);
      ReachesByDelete(recorded, Now());
      ReachesThen(start, recorded, Now());
    }

    /** A message whose parts or records could not be copied stays in the source and the loop goes on:
        messages are left behind exactly if such a statement failed in this pass. */
    method CopySmsMmsInfo(sessionIdC: int, sessionIdE: int, rcsIdC: int, rcsIdE: int, groupId: int, groupE: int)
      returns (ok: bool)
      requires Ready()
      modifies src, dst, this
      ensures Ready() && Reaches(old(Now()), Now()) && SameAccounts(old(dst.db), dst.db)
      ensures AttachedTo(old(dst.db), dst.db, if sessionIdE != 0 then sessionIdE else sessionIdC)
      ensures Spared(old(src.db), src.db, sessionIdC)
      ensures src.db.rcs == old(src.db).rcs && src.db.session == old(src.db).session
      ensures FailedOnlyOn(old(Now()), Now(), {SmsMmsInfo, MmsPart, RiskUrlRecord})
      ensures ok <==> !Halted(old(Now()), Now())
      ensures ok ==> (Stuck(old(Now()), Now()) <==>
        exists m :: m in src.db.sms.rows && src.db.sms.rows[m].sessionId == sessionIdC &&
          (rcsIdC != 0 && groupId != 0 ==>
            src.db.sms.rows[m].rcsId == rcsIdC && src.db.sms.rows[m].groupId == groupId))
      ensures Departs(old(Now()), Now(), sessionIdC, rcsIdC, groupId)
      ensures NewMessages(old(src.db), old(dst.db), dst.db, rcsIdE, groupE)
    {
      hide MessagesPassed, NewMessages, NewInGroup, GroupIsNew, UrlsUnder, Left, Reaches, Copied, SameAccounts;
      hide AttachedTo, Spared, NewRowsLinked, Later, SrcFailed, DstFailed, FailuresGrow, FailedOnlyOn, Counted, Stuck;
      hide Halted, RcsStuck, RcsHalted, Departs, NewUnder, Filed, IsPartOf, IsMessage;
      ghost var start := Now();
      ghost var pass := Pass(sessionIdC, if sessionIdE != 0 then sessionIdE else sessionIdC, rcsIdC, groupId, rcsIdE,
        groupE);
      var works := src.Works(Select(SmsMmsInfo));
      ReachesByQuery(start, Now(), Select(SmsMmsInfo), works);
      NonePassed(start, Now(), pass);
      PassedMeans(start, Now(), pass);
      if !works {
        return false;
      }
      var rows := src.db.sms.rows;
      var ids := Enumerate(set m | m in rows && Chosen(rows[m], sessionIdC, rcsIdC, groupId));
      NoneLeft(src.db.sms, ids);
      var groupIdE := groupE;
      NoGroupIsNew(start.dst);
      for i := 0 to |ids|
        invariant Ready() && MessagesPassed(start, Now(), pass) && !Halted(start, Now())
        invariant forall j :: i <= j < |ids| ==> ids[j] in src.db.sms.rows
        invariant Left(src.db.sms, ids, i) <==> Stuck(start, Now())
        invariant Within(src.db.sms, start.src.sms)
        invariant if groupE != 0 then groupIdE == groupE else GroupIsNew(start.dst, groupIdE)
      {
        var msgIdC := ids[i];
        assert msgIdC in ids;
        ghost var before := Now();
        var inserted;
        ghost var group, msgIdE := groupIdE, 0;
        inserted, groupIdE, msgIdE :=
          CopyOneMessage(msgIdC, rows[msgIdC], sessionIdC, sessionIdE, rcsIdC, rcsIdE, groupIdE);
        OnePassed(before, Now(), pass.(groupE := group), msgIdC, msgIdE, groupIdE);
        MessagesPassedThen(start, before, Now(), pass, group, groupIdE);
        PassedMeans(start, Now(), pass);
        if !inserted {
          return false;
        }
        LeftStep(before.src.sms, src.db.sms, ids, i);
      }
      ok := true;
      PassedMeans(start, Now(), pass);
      LeftExactly(start.src.sms, src.db.sms, ids, (row: SmsRow) => Chosen(row, sessionIdC, rcsIdC, groupId));
    }

    // -------------------------------------------------------------- rcs rows

    /** An rcs row is recognised by its `msg_id` and an empty start time: the caller's variable is passed by
        value to the function that should fill it in. */
    method RcsInfoChecKE(row: RcsRow) returns (id: int, group: int, ghost ok: bool)
      requires Ready()
      modifies dst`failed
      ensures dst.failed == Counted(old(dst.failed), Select(RcsInfo), ok)
      ensures id != 0 ==> IsRcs(dst.db, id, row)
      ensures group == if id != 0 then dst.db.rcs.rows[id].groupId else 0
      ensures ok ==> (id != 0 <==> KnowsRcs(dst.db, row))
    {
      var same := set r | r in dst.db.rcs.rows && SameRcs(row, dst.db.rcs.rows[r]);
      id, ok := dst.FirstOf(RcsInfo, same);
      group := if id != 0 then dst.db.rcs.rows[id].groupId else 0;
      assert forall n :: n in same <==> IsRcs(dst.db, n, row);
    }

    /** A row recognised brings its group along; a new one gets the next group. */
    method InsertRcsInfoToE(row: RcsRow, sessionId: int) returns (id: int, group: int)
      requires Ready()
      modifies dst
      ensures Ready() && Grown(old(dst.db), dst.db) && SameAccounts(old(dst.db), dst.db)
      ensures AttachedTo(old(dst.db), dst.db, if sessionId > 0 then sessionId else row.sessionId)
      ensures id != 0 ==> HasRcs(dst.db, row)
      ensures dst.db.part == old(dst.db).part && dst.db.sms == old(dst.db).sms && dst.db.url == old(dst.db).url
      ensures forall n :: n in dst.db.rcs.rows && n !in old(dst.db).rcs.rows ==> IsRcsCopy(row, dst.db.rcs.rows[n])
      ensures id in old(dst.db).rcs.rows || id == 0 ==> dst.db == old(dst.db)
      ensures id in old(dst.db).rcs.rows ==> IsRcs(old(dst.db), id, row)
      ensures id != 0 && !DstFailed(old(Now()), Now(), Select(RcsInfo)) ==>
        (id in old(dst.db).rcs.rows <==> KnowsRcs(old(dst.db), row))
      ensures id != 0 ==> id in dst.db.rcs.rows && group == dst.db.rcs.rows[id].groupId
      ensures id != 0 && id !in old(dst.db).rcs.rows ==> dst.db.rcs.rows[id] == row.(groupId := group,
        sessionId := if sessionId > 0 then sessionId else row.sessionId)
      ensures FailuresGrow(old(Now()), Now()) && FailedOnlyOn(old(Now()), Now(), {SmsMmsInfo, RcsInfo})
      ensures forall st :: !SrcFailed(old(Now()), Now(), st)
      ensures (id == 0 <==> RcsHalted(old(Now()), Now())) && !RcsStuck(old(Now()), Now())
    {
      hide Grown, SameAccounts, AttachedTo, SrcFailed, DstFailed, FailuresGrow, FailedOnlyOn, Counted;
      hide SmsMmsTables.InsertRcs;
      ghost var start := Now();
      var s := if sessionId > 0 then sessionId else row.sessionId;
      NothingNew(dst.db, s);
      ghost var asked, numbered;
      id, group, asked := RcsInfoChecKE(row);
      if id != 0 {
        FailsOnDestination(start, Now(), Select(RcsInfo), asked);
        return;
      }
      group, numbered := CalcGroupId(group);
      var next := row.(groupId := group, sessionId := s);
      InsertRcsGrows(dst.db, next);
      id := dst.InsertRcs(next);
      InsertFailsOnDestination(start, Now(), Select(RcsInfo), asked, Select(SmsMmsInfo), numbered,
        Insert(RcsInfo), id != 0);
      assert id != 0 ==> dst.db.rcs.rows[id] == next;
    }

    /** One rcs row with its messages.  It stays exactly if the pass over them ended early or its delete
        failed; a message of it that stays behind does not keep it. */
    method CopyOneRcs(rcsIdC: int, row: RcsRow, sessionIdC: int, sessionIdE: int)
      returns (inserted: bool, ghost rcsIdE: int)
      requires Ready()
      requires rcsIdC in src.db.rcs.rows && src.db.rcs.rows[rcsIdC] == row && row.sessionId == sessionIdC
      modifies src, dst, this
      ensures Ready() && Reaches(old(Now()), Now()) && SameAccounts(old(dst.db), dst.db)
      ensures sessionIdE >= 0 ==>
        AttachedTo(old(dst.db), dst.db, if sessionIdE != 0 then sessionIdE else sessionIdC)
      ensures Spared(old(src.db), src.db, sessionIdC) && src.db.session == old(src.db).session
      ensures src.db.rcs == old(src.db).rcs || src.db.rcs == old(src.db).rcs.Without({rcsIdC})
      ensures FailedOnlyOn(old(Now()), Now(), {SmsMmsInfo, RcsInfo, MmsPart, RiskUrlRecord})
      ensures inserted <==> !RcsHalted(old(Now()), Now())
      ensures inserted ==> (rcsIdC in src.db.rcs.rows <==> RcsStuck(old(Now()), Now()))
      ensures Travels(old(Now()), Now()) && NewUnderRcs(old(dst.db), dst.db)
      ensures inserted ==> rcsIdE in dst.db.rcs.rows && dst.db.rcs.rows[rcsIdE].msgId == row.msgId
      ensures inserted ==> NewUnder(old(dst.db), dst.db, rcsIdE, dst.db.rcs.rows[rcsIdE].groupId)
    {
      hide Reaches, Copied, SameAccounts, AttachedTo, NewRowsLinked, SrcFailed, DstFailed, FailuresGrow;
      hide FailedOnlyOn, Counted, Stuck, Halted, RcsStuck, RcsHalted, Travels, PartsTravel, Departs, NewUnder;
      hide IsRcsCopy, NewMessages;
      ghost var start := Now();
      var idE, groupIdE := InsertRcsInfoToE(row, sessionIdE);
      rcsIdE := idE;
      ReachesByRcs(start, Now(), rcsIdC);
      FailedOnWider(start, Now(), {SmsMmsInfo, RcsInfo}, {SmsMmsInfo, RcsInfo, MmsPart, RiskUrlRecord});
      SparedItself(start.src, sessionIdC);
      NoneTravels(start, Now());
      if idE == 0 {
        return false, rcsIdE;
      }
      inserted := true;
      ghost var found := Now();
      var done := CopySmsMmsInfo(sessionIdC, sessionIdE, rcsIdC, idE, row.groupId, groupIdE);
      DepartsTravels(found, Now(), sessionIdC, rcsIdC, row.groupId);
      NewMessagesUnder(found.src, found.dst, dst.db, idE, groupIdE);
      ReachesThen(start, found, Now());
      ReachesKeeps(found, Now());
      MessagesStickNoRcs(found, Now());
      NewUnderOne(found.dst, dst.db, rcsIdE, groupIdE);
      NewUnderSince(start.dst, found.dst, dst.db, rcsIdE, groupIdE);
      assert dst.db.rcs.rows[idE] == found.dst.rcs.rows[idE];
      SameAccountsThen(start.dst, found.dst, dst.db);
      if !done {
        return;
      }
      ghost var copied := Now();
      ReachesKeeps(start, copied);
      RcsStays(found.dst, dst.db, row);
      done := src.Replace(Delete(RcsInfo), src.db.(rcs := src.db.rcs.Without({rcsIdC})));
      DeleteFails(start, copied, Now(), RcsInfo, done);
      ReachesByDelete(copied, Now());
      NoneTravels(copied, Now());
      ReachesThen(start, copied, Now());
    }

    method CopyRcs(sessionIdC: int, sessionIdE: int) returns (ok: bool)
      requires Ready()
      modifies src, dst, this
      ensures Ready() && Reaches(old(Now()), Now()) && SameAccounts(old(dst.db), dst.db)
      ensures sessionIdE >= 0 ==>
        AttachedTo(old(dst.db), dst.db, if sessionIdE != 0 then sessionIdE else sessionIdC)
      ensures Spared(old(src.db), src.db, sessionIdC) && src.db.session == old(src.db).session
      ensures FailedOnlyOn(old(Now()), Now(), {SmsMmsInfo, RcsInfo, MmsPart, RiskUrlRecord})
      ensures ok <==> !RcsHalted(old(Now()), Now())
      ensures ok ==> (RcsStuck(old(Now()), Now()) <==>
        exists r :: r in src.db.rcs.rows && src.db.rcs.rows[r].sessionId == sessionIdC)
      ensures Travels(old(Now()), Now()) && NewUnderRcs(old(dst.db), dst.db)
    {
      hide Left, Reaches, Copied, SameAccounts, AttachedTo, Spared, NewRowsLinked, Later, SrcFailed, DstFailed;
      hide FailuresGrow, FailedOnlyOn, Counted, Stuck, Halted, RcsStuck, RcsHalted, Travels, PartsTravel, NewUnderRcs;
      ghost var start := Now();
      ghost var s := if sessionIdE != 0 then sessionIdE else sessionIdC;
      var works := src.Works(Select(RcsInfo));
      ReachesByQuery(start, Now(), Select(RcsInfo), works);
      NothingNew(start.dst, s);
      SparedItself(start.src, sessionIdC);
      NoneTravels(start, Now());
      NothingUnder(start.dst, 0, 0);
      if !works {
        return false;
      }
      var rows := src.db.rcs.rows;
      var ids := Enumerate(set r | r in rows && rows[r].sessionId == sessionIdC);
      NoneLeft(src.db.rcs, ids);
      for i := 0 to |ids|
        invariant Ready() && Reaches(start, Now()) && SameAccounts(start.dst, dst.db)
        invariant sessionIdE >= 0 ==> AttachedTo(start.dst, dst.db, s)
        invariant Spared(start.src, src.db, sessionIdC) && src.db.session == start.src.session
        invariant FailedOnlyOn(start, Now(), {SmsMmsInfo, RcsInfo, MmsPart, RiskUrlRecord}) && !RcsHalted(start, Now())
        invariant forall j :: i <= j < |ids| ==> ids[j] in src.db.rcs.rows
        invariant Left(src.db.rcs, ids, i) <==> RcsStuck(start, Now())
        invariant Travels(start, Now()) && NewUnderRcs(start.dst, dst.db)
      {
        assert ids[i] in ids;
        ghost var before := Now();
        ReachesKeeps(start, before);
        var inserted, _ := CopyOneRcs(ids[i], rows[ids[i]], sessionIdC, sessionIdE);
        ReachesKeeps(before, Now());
        ReachesThen(start, before, Now());
        NewUnderRcsThen(start.dst, before.dst, dst.db);
        SparedThen(start.src, before.src, src.db, sessionIdC);
        SameAccountsThen(start.dst, before.dst, dst.db);
        if !inserted {
          return false;
        }
        LeftStep(before.src.rcs, src.db.rcs, ids, i);
      }
      ok := true;
      ReachesKeeps(start, Now());
      LeftExactly(start.src.rcs, src.db.rcs, ids, (row: RcsRow) => row.sessionId == sessionIdC);
    }

    // -------------------------------------------------------------- conversations

    /** The stored number ends like `phone` and has the same normal form. */
    predicate SameConversation(phone: string, stored: string) {
      stored != "" && EndsWith(stored, Tail(phone)) && norm(phone) == norm(stored)
    }

    /** The stored number ends with the last seven characters of the other, or all of it, and has the same
        normal form. */
    ghost predicate SameNumber(phone: string, stored: string) {
      var k := if |phone| > 7 then 7 else |phone|;
      stored != "" && |stored| >= k && stored[|stored| - k..] == phone[|phone| - k..] && norm(phone) == norm(stored)
    }

    /** `id` is a conversation of that number, or 0 because there is none or the query failed. */
    ghost predicate Answers(id: int, phone: string, session: Table<SessionRow>, ok: bool) {
      if id != 0 then ok && id in session.rows && SameNumber(phone, session.rows[id].telephone)
      else ok ==> forall e :: e in session.rows ==> !SameNumber(phone, session.rows[e].telephone)
    }

    method SessionCheckE(phone: string) returns (id: int, msgCount: int, time: int, ghost ok: bool)
      requires Ready()
      modifies dst`failed
      ensures dst.failed == Counted(old(dst.failed), Select(Session), ok)
      ensures Answers(id, phone, dst.db.session, ok)
      ensures id != 0 ==> msgCount == dst.db.session.rows[id].messageCount && time == dst.db.session.rows[id].time
    {
      var rows := dst.db.session.rows;
      var same := set e | e in rows && SameConversation(phone, rows[e].telephone);
      id, ok := dst.FirstOf(Session, same);
      msgCount, time := 0, 0;
      if id != 0 {
        msgCount, time := rows[id].messageCount, rows[id].time;
      } else if ok {
        assert same == {};
        forall e | e in rows ensures !SameNumber(phone, rows[e].telephone) {
          assert e !in same && !SameConversation(phone, rows[e].telephone);
        }
      }
    }

    /** Of two merged conversations the newer one gives the time and the preview. */
    function Updated(stored: SessionRow, msgCount: int, row: SessionRow): SessionRow {
      if row.time > stored.time then stored.(messageCount := msgCount, time := row.time, preview := row.preview)
      else stored.(messageCount := msgCount)
    }

    /** The count always, the rest only when the source conversation is newer; the caller ignores a failure. */
    method UpdateSessionE(id: int, msgCount: int, time: int, row: SessionRow) returns (ok: bool)
      requires Ready() && id in dst.db.session.rows && time == dst.db.session.rows[id].time
      modifies dst
      ensures Ready() && Reaches(old(Now()), Now()) && NewRowsLinked(old(dst.db), dst.db)
      ensures dst.db == old(dst.db).(session := dst.db.session)
      ensures dst.db.session == if ok then
        old(dst.db).session.Put(id, Updated(old(dst.db).session.rows[id], msgCount, row)) else old(dst.db).session
      ensures dst.failed == Counted(old(dst.failed), Update(Session), ok)
      ensures ok && msgCount == row.messageCount + old(dst.db).session.rows[id].messageCount ==>
        Credited(old(dst.db).session, dst.db.session, id, row)
      ensures Index.NeverBelow(dst.db) <==> Index.NeverBelow(old(dst.db))
    {
      ghost var was := Now();
      var next := dst.db.session.rows[id].(messageCount := msgCount);
      if row.time > time {
        next := next.(time := row.time, preview := row.preview);
      }
      UpdateSessionNeverBelowIff(dst.db, id, next);
      ok := dst.Replace(Update(Session), dst.db.(session := dst.db.session.Put(id, next)));
      FailsOnDestination(was, Now(), Update(Session), ok);
      ReachesBySession(was, Now());
    }

    /** The conversation that the copy of one goes into, new or found, and whether its account was
        credited: always, unless the update of the one found failed.  A new one brings its unread count
        along, which may be below the rows that name its id already. */
    method FindOrInsertSession(row: SessionRow) returns (e: int, ghost credited: bool)
      requires Ready()
      modifies dst
      ensures Ready() && Reaches(old(Now()), Now()) && NewRowsLinked(old(dst.db), dst.db)
      ensures dst.db == old(dst.db).(session := dst.db.session)
      ensures e != 0 ==> e in dst.db.session.rows && norm(dst.db.session.rows[e].telephone) == norm(row.telephone)
      ensures credited ==> Credited(old(dst.db).session, dst.db.session, e, row)
      ensures !credited ==> dst.db == old(dst.db)
      ensures FailedOnlyOn(old(Now()), Now(), {Session}) && forall st :: !SrcFailed(old(Now()), Now(), st)
      ensures e == 0 <==> DstFailed(old(Now()), Now(), Insert(Session))
      ensures credited <==> e != 0 && !DstFailed(old(Now()), Now(), Update(Session))
      ensures var inserted := e != 0 && e !in old(dst.db).session.rows;
        Index.NeverBelow(dst.db) <==>
        (Index.NeverBelow(old(dst.db)) && (inserted ==> UnreadOf(old(dst.db), e) <= row.unreadCount))
      ensures Sound(old(dst.db)) && row.unreadCount >= 0 ==> Sound(dst.db)
    {
      hide Reaches, Copied, Index.NeverBelow, NewRowsLinked, Credited;
      hide SrcFailed, DstFailed, FailuresGrow, FailedOnlyOn, Counted, Stuck, Halted, RcsStuck, RcsHalted;
      ghost var start := Now();
      var msgCountE, timeE;
      ghost var asked;
      e, msgCountE, timeE, asked := SessionCheckE(row.telephone);
      if e == 0 {
        InsertSessionNeverBelowIff(dst.db, row);
        e := dst.InsertSession(row);
        credited := e != 0;
        TwoFailOnDestination(start, Now(), Select(Session), asked, Insert(Session), credited);
        if credited {
          InsertCredits(start.dst.session, dst.db.session, row);
        }
      } else {
        var ok := UpdateSessionE(e, row.messageCount + msgCountE, timeE, row);
        credited := ok;
        TwoFailOnDestination(start, Now(), Select(Session), asked, Update(Session), credited);
      }
      ReachesBySession(start, Now());
    }

    method DeleteSession(sessionIdC: int) returns (kept: bool)
      requires Ready()
      modifies src
      ensures Ready() && Reaches(old(Now()), Now()) && NewRowsLinked(old(dst.db), dst.db)
      ensures src.db == old(src.db).(session := src.db.session)
      ensures src.db.session == if kept then old(src.db).session else old(src.db).session.Without({sessionIdC})
      ensures src.failed == Counted(old(src.failed), Delete(Session), !kept)
    {
      ghost var was := Now();
      var ok := src.Replace(Delete(Session), src.db.(session := src.db.session.Without({sessionIdC})));
      kept := !ok;
      FailsOnSource(was, Now(), Delete(Session), ok);
      ReachesByDelete(was, Now());
    }

    /** The two passes over the rows of a conversation: its rcs rows with their messages, then the messages
        still there.  `between` is the moment between them. */
    method CopyRows(sessionIdC: int, sessionIdE: int) returns (ok: bool, ghost between: Progress)
      requires Ready() && sessionIdE > 0
      modifies src, dst, this
      ensures Ready() && Reaches(old(Now()), between) && Reaches(between, Now()) && Reaches(old(Now()), Now())
      ensures SameAccounts(old(dst.db), dst.db) && AttachedTo(old(dst.db), dst.db, sessionIdE)
      ensures Spared(old(src.db), src.db, sessionIdC) && src.db.session == old(src.db).session
      ensures FailedOnlyOn(old(Now()), between, {SmsMmsInfo, RcsInfo, MmsPart, RiskUrlRecord})
      ensures FailedOnlyOn(between, Now(), {SmsMmsInfo, MmsPart, RiskUrlRecord})
      ensures ok <==> !RcsHalted(old(Now()), between) && !Halted(between, Now())
      ensures ok ==> (RcsStuck(old(Now()), between) || Stuck(between, Now()) <==> !Emptied(src.db, sessionIdC))
      ensures Travels(old(Now()), Now()) && NewUnderRcs(old(dst.db), between.dst)
      ensures NewMessages(between.src, between.dst, dst.db, 0, 0)
    {
      hide NewMessages;
      hide Travels, PartsTravel, Departs, NewUnder, NewUnderRcs, Reaches, Copied, SameAccounts, AttachedTo;
      hide NewRowsLinked, Spared, Emptied, Later;
      hide SrcFailed, DstFailed, FailuresGrow, FailedOnlyOn, Counted, Stuck, Halted, RcsStuck, RcsHalted;
      ghost var start := Now();
      ok := CopyRcs(sessionIdC, sessionIdE);
      between := Now();
      ReachesItself(between);
      NoNewMessages(between.src, between.dst, 0, 0);
      if !ok {
        return;
      }
      ok := CopySmsMmsInfo(sessionIdC, sessionIdE, 0, 0, 0, 0);
      DepartsTravels(between, Now(), sessionIdC, 0, 0);
      ReachesThen(start, between, Now());
      ReachesKeeps(start, between);
      ReachesKeeps(between, Now());
      SparedThen(start.src, between.src, src.db, sessionIdC);
      SameAccountsThen(start.dst, between.dst, dst.db);
      if ok {
        EmptiedIff(src.db, sessionIdC, RcsStuck(start, between), Stuck(between, Now()));
      }
    }

    /** One conversation.  What its account gains and what stays in the source is settled by the
        statements that failed in its turn, and which pass over its rows they failed in. */
    method CopyOneSession(sessionIdC: int, row: SessionRow) returns (ok: bool, ghost e: int, ghost turn: Turn)
      requires Ready()
      modifies src, dst, this
      ensures Ready() && Reaches(old(Now()), Now()) && NewRowsLinked(old(dst.db), dst.db)
      ensures turn == Turn(sessionIdC, old(Now()), turn.between, Now()) && turn.Runs()
      ensures Spared(old(src.db), src.db, sessionIdC)
      ensures turn.Credits() ==> Credited(old(dst.db).session, dst.db.session, e, row)
      ensures turn.Credits() ==> norm(dst.db.session.rows[e].telephone) == norm(row.telephone)
      ensures !turn.Credits() ==> SameAccounts(old(dst.db), dst.db)
      ensures Sound(old(dst.db)) && row.unreadCount >= 0 ==> Sound(dst.db)
      ensures ok <==> !turn.Ended()
      ensures ok ==> (turn.Leaves() <==> !Emptied(src.db, sessionIdC))
      ensures src.db.session == if turn.Keeps() then old(src.db).session else old(src.db).session.Without({sessionIdC})
      ensures !SrcFailed(old(Now()), Now(), Select(Session))
      ensures Travels(old(Now()), Now())
    {
      hide Reaches, Copied, Credited, SameAccounts, NewRowsLinked, AttachedTo, Spared, Emptied, Sound;
      hide SrcFailed, DstFailed, FailuresGrow, FailedOnlyOn, Counted, Stuck, Halted, RcsStuck, RcsHalted;
      hide Later, Index.NeverBelow, Travels, PartsTravel, NewUnderRcs;
      ghost var start := Now();
      SparedItself(start.src, sessionIdC);
      NothingNew(start.dst, 0);
      var sessionIdE;
      ghost var credited;
      sessionIdE, credited := FindOrInsertSession(row);
      e := sessionIdE;
      ghost var found := Now();
      NoneTravels(start, found);
      if sessionIdE == 0 {
        ReachesItself(found);
        turn := Turn(sessionIdC, start, found, found);
        TurnPasses(turn, found);
        return false, e, turn;
      }
      ghost var between;
      ok, between := CopyRows(sessionIdC, sessionIdE);
      ghost var copied := Now();
      turn := Turn(sessionIdC, start, between, copied);
      TurnPasses(turn, found);
      TravelsThen(start, found, copied);
      ReachesKeeps(found, copied);
      Delivered(start.dst, found.dst, dst.db, e, row, credited);
      if ok {
        ghost var passed := turn;
        var kept := DeleteSession(sessionIdC);
        SessionRowGone(start.src, copied.src, src.db, sessionIdC);
        turn := passed.(after := Now());
        TurnDeletes(passed, Now(), !kept);
        NoneTravels(copied, Now());
        TravelsThen(start, copied, Now());
      }
    }

    /** In any run: nothing is lost, every new row is linked, each account that was credited is right, and
        the unread index stays sound.  A run to the end leaves the stores exactly as its outcome says, the
        outcome of a conversation is settled by what failed in its turn, and the total lacks just the
        counts of the conversations whose update failed. */
    method CopySession() returns (ok: bool, ghost outcome: Outcome, ghost turns: seq<Turn>)
      requires Ready()
      modifies src, dst, this
      ensures Ready() && Reaches(old(Now()), Now()) && NewRowsLinked(old(dst.db), dst.db)
      ensures Travels(old(Now()), Now())
      ensures Settled(norm, old(src.db).session.rows, old(dst.db).session, dst.db.session, outcome.credited)
      ensures Sound(old(dst.db)) && NoNegativeCount(old(src.db).session) ==> Sound(dst.db)
      ensures Chained(turns, old(Now()), Now()) && Told(turns, outcome)
      ensures ok <==> !SrcFailed(old(Now()), Now(), Select(Session)) && NoneEnded(turns)
      ensures ok ==> Visits(turns, old(src.db).session.rows.Keys)
      ensures ok ==> Books(norm, old(src.db).session.rows, old(dst.db).session, src.db, dst.db.session,
                           old(src.db).session.rows.Keys, outcome)
      ensures ok ==> (Sum(Counts(dst.db.session)) ==
        Sum(Counts(old(dst.db).session)) + Sum(Counts(old(src.db).session)) -
        Missing(old(src.db).session, outcome.missed))
      ensures ok ==> (outcome.missed != {} <==> DstFailed(old(Now()), Now(), Update(Session)))
      ensures ok ==> (outcome.kept != {} <==> SrcFailed(old(Now()), Now(), Delete(Session)))
      ensures FailedOnlyOn(old(Now()), Now(), {}) ==>
        ok && AllMerged(norm, old(src.db), old(dst.db), src.db, dst.db, outcome.credited)
    {
      hide Reaches, Copied, Settled, Books, NewRowsLinked, SameAccounts, Sound, Spared, Ran, Emptied, Credited;
      hide Chained, Told, NoneEnded, Visited, SrcFailed, DstFailed, FailedOnlyOn, Counted, Later, FailuresGrow;
      hide Travels, PartsTravel;
      outcome, turns := Outcome(map[], {}, {}, {}), [];
      ghost var start := Now();
      var rows := src.db.session.rows;
      var works := src.Works(Select(Session));
      ReachesByQuery(start, Now(), Select(Session), works);
      RanStart(norm, start, Now());
      NoneTravels(start, Now());
      if !works {
        return false, outcome, turns;
      }
      var ids := Enumerate(rows.Keys);
      for i := 0 to |ids|
        invariant Ready() && Reaches(start, Now()) && NewRowsLinked(start.dst, dst.db) && Travels(start, Now())
        invariant Ran(norm, start, Now(), turns, outcome)
        invariant |turns| == i && forall j :: 0 <= j < i ==> turns[j].c == ids[j]
      {
        var c := ids[i];
        assert c in ids;
        NotVisited(turns, ids, i);
        ghost var before, was := Now(), outcome;
        ghost var e, turn;
        ok, e, turn := CopyOneSession(c, rows[c]);
        ReachesThen(start, before, Now());
        RanStep(norm, start, turns, was, turn, e);
        outcome := Noted(was, c, e, turn.Credits(), turn.Leaves(), turn.Keeps());
        turns := turns + [turn];
        if !ok {
          return;
        }
      }
      ok := true;
      VisitsAll(turns, ids, rows.Keys);
      RanAll(norm, start, Now(), turns, outcome);
    }

    // -------------------------------------------------------------- blocked messages

    /** One blocked rcs row.  Its copies go to a conversation of its sender; without one they keep the
        number they had in the source, which is linked only if the destination has one of that number. */
    method CopyOneRcsBlocked(rcsIdC: int, row: RcsRow) returns (inserted: bool, ghost sessionIdE: int)
      requires Ready()
      requires rcsIdC in src.db.rcs.rows && src.db.rcs.rows[rcsIdC] == row
      modifies src, dst, this
      ensures Ready() && Reaches(old(Now()), Now()) && SameAccounts(old(dst.db), dst.db)
      ensures Answers(sessionIdE, row.sender, old(dst.db).session, !DstFailed(old(Now()), Now(), Select(Session)))
      ensures var s := if sessionIdE != 0 then sessionIdE else row.sessionId;
        AttachedTo(old(dst.db), dst.db, s) &&
        (NewRowsLinked(old(dst.db), dst.db) <==> NoNewRow(old(dst.db), dst.db) || s in dst.db.session.rows)
      ensures src.db.rcs == old(src.db).rcs || src.db.rcs == old(src.db).rcs.Without({rcsIdC})
      ensures FailedOnlyOn(old(Now()), Now(), {SmsMmsInfo, RcsInfo, MmsPart, RiskUrlRecord, Session})
      ensures inserted <==> !RcsHalted(old(Now()), Now())
      ensures inserted ==> (rcsIdC in src.db.rcs.rows <==> RcsStuck(old(Now()), Now()))
      ensures src.db.session == old(src.db).session && PartsTravel(old(Now()), Now())
      ensures NewUnderRcs(old(dst.db), dst.db)
    {
      hide Travels, PartsTravel, NewUnderRcs, Reaches, Copied, SameAccounts, AttachedTo, NewRowsLinked, NoNewRow;
      hide Spared;
      hide SrcFailed, DstFailed, FailuresGrow, FailedOnlyOn, Counted, Stuck, Halted, RcsStuck, RcsHalted;
      ghost var start := Now();
      var session, _, _, asked := SessionCheckE(row.sender);
      sessionIdE := session;
      ghost var checked := Now();
      ghost var idE;
      inserted, idE := CopyOneRcs(rcsIdC, row, row.sessionId, session);
      ReachesKeeps(checked, Now());
      RcsBlockedFails(start, checked, Now(), asked);
      ReachesBySession(start, checked);
      NoneTravels(start, checked);
      TravelsParts(checked, Now());
      ReachesOn(start, checked, Now());
      LinkedIff(start.dst, dst.db, if session != 0 then session else row.sessionId);
    }

    /** The pass over blocked rcs rows: rows are left behind exactly if a statement for that failed in it. */
    method CopyRcsBlocked() returns (ok: bool)
      requires Ready()
      modifies src, dst, this
      ensures Ready() && Reaches(old(Now()), Now()) && SameAccounts(old(dst.db), dst.db)
      ensures ok <==> !RcsHalted(old(Now()), Now())
      ensures ok ==> (RcsStuck(old(Now()), Now()) <==>
        exists r :: r in src.db.rcs.rows && src.db.rcs.rows[r].isBlocked == 1)
      ensures src.db.session == old(src.db).session && PartsTravel(old(Now()), Now())
      ensures NewUnderRcs(old(dst.db), dst.db)
    {
      hide NewUnderRcs, Travels, PartsTravel, Left, Reaches, Copied, NewRowsLinked, SameAccounts, AttachedTo;
      hide NoNewRow, Later;
      hide SrcFailed, DstFailed, FailuresGrow, FailedOnlyOn, Counted, Stuck, Halted, RcsStuck, RcsHalted;
      ghost var start := Now();
      var works := src.Works(Select(RcsInfo));
      ReachesByQuery(start, Now(), Select(RcsInfo), works);
      NothingNew(start.dst, 0);
      NoneTravels(start, Now());
      NothingUnder(start.dst, 0, 0);
      if !works {
        return false;
      }
      var rows := src.db.rcs.rows;
      var ids := Enumerate(set r | r in rows && rows[r].isBlocked == 1);
      NoneLeft(src.db.rcs, ids);
      for i := 0 to |ids|
        invariant Ready() && Reaches(start, Now()) && SameAccounts(start.dst, dst.db) && !RcsHalted(start, Now())
        invariant src.db.session == start.src.session && PartsTravel(start, Now()) && NewUnderRcs(start.dst, dst.db)
        invariant forall j :: i <= j < |ids| ==> ids[j] in src.db.rcs.rows
        invariant Left(src.db.rcs, ids, i) <==> RcsStuck(start, Now())
      {
        assert ids[i] in ids;
        ghost var before := Now();
        ReachesKeeps(start, before);
        var inserted, _ := CopyOneRcsBlocked(ids[i], rows[ids[i]]);
        ReachesThen(start, before, Now());
        ReachesKeeps(before, Now());
        NewUnderRcsThen(start.dst, before.dst, dst.db);
        SameAccountsThen(start.dst, before.dst, dst.db);
        if !inserted {
          return false;
        }
        LeftStep(before.src.rcs, src.db.rcs, ids, i);
      }
      ok := true;
      ReachesKeeps(start, Now());
      LeftExactly(start.src.rcs, src.db.rcs, ids, (row: RcsRow) => row.isBlocked == 1);
    }

    /** One blocked message, with its parts only. */
    method CopyOneBlocked(msgIdC: int, row: SmsRow) returns (inserted: bool, ghost sessionIdE: int)
      requires Ready()
      requires msgIdC in src.db.sms.rows && src.db.sms.rows[msgIdC] == row
      modifies src, dst, this
      ensures Ready() && Reaches(old(Now()), Now()) && SameAccounts(old(dst.db), dst.db)
      ensures Answers(sessionIdE, row.sender, old(dst.db).session, !DstFailed(old(Now()), Now(), Select(Session)))
      ensures var s := if sessionIdE != 0 then sessionIdE else row.sessionId;
        AttachedTo(old(dst.db), dst.db, s) &&
        (NewRowsLinked(old(dst.db), dst.db) <==> NoNewRow(old(dst.db), dst.db) || s in dst.db.session.rows)
      ensures src.db.sms == old(src.db).sms || src.db.sms == old(src.db).sms.Without({msgIdC})
      ensures src.db.url == old(src.db).url && dst.db.url == old(dst.db).url
      ensures FailedOnlyOn(old(Now()), Now(), {SmsMmsInfo, MmsPart, Session})
      ensures inserted <==> !Halted(old(Now()), Now())
      ensures inserted ==> (msgIdC in src.db.sms.rows <==> Stuck(old(Now()), Now()))
      ensures src.db.session == old(src.db).session && src.db.rcs == old(src.db).rcs
      ensures PartsTravel(old(Now()), Now()) && NewMessages(old(src.db), old(dst.db), dst.db, 0, 0)
      ensures exists g :: NewInGroup(old(dst.db), dst.db, g) && GroupIsNew(old(dst.db), g)
    {
      hide NewUnder, NewMessages, NewInGroup, GroupIsNew;
      hide Reaches, Copied, SameAccounts, AttachedTo, NewRowsLinked, NoNewRow;
      hide Filed, IsPartOf, PartsTravel, Travels, Answers, SrcFailed, DstFailed, FailuresGrow, FailedOnlyOn;
      hide Counted, Stuck, Halted, RcsStuck, RcsHalted;
      ghost var start := Now();
      var session, _, _, asked := SessionCheckE(row.sender);
      sessionIdE := session;
      ghost var s := if session != 0 then session else row.sessionId;
      ghost var checked := Now();
      var msgIdE, groupIdE := InsertSmsMmsToE(row, 0, session, 0);
      ghost var found := Now();
      ReachesItself(found);
      BlockedFails(start, checked, found, found, asked);
      ReachesByMessage(start, found, msgIdC);
      OneNewMessage(start.src, msgIdC, row, start.dst, found.dst, 0, 0, groupIdE);
      NoneTravels(start, found);
      if msgIdE == 0 {
        LinkedIff(start.dst, dst.db, s);
        return false, sessionIdE;
      }
      inserted := true;
      assert HasMessage(dst.db, row);
      var done := CopyMmsPart(0, 0, msgIdC, msgIdE, row.groupId, groupIdE);
      AttachmentsChangeNoAccount(found.dst, dst.db);
      NewMessagesApart(start.src, start.dst, found.dst, dst.db, 0, 0, groupIdE);
      NoneTravels(start, Now());
      SameAccountsThen(start.dst, found.dst, dst.db);
      AttachedByParts(found.dst, dst.db, s);
      ReachesThen(start, found, Now());
      ReachesKeeps(found, Now());
      BlockedFails(start, checked, found, Now(), asked);
      LinkedIff(start.dst, dst.db, s);
      if !done {
        return;
      }
      ghost var copied := Now();
      MessageStays(found.dst, dst.db, row);
      done := src.Replace(Delete(SmsMmsInfo), src.db.(sms := src.db.sms.Without({msgIdC})));
      DeleteFails(start, copied, Now(), SmsMmsInfo, done);
      ReachesByDelete(copied, Now());
      ReachesThen(start, copied, Now());
      OnePartsTravel(start, Now(), msgIdC, found.dst, msgIdE, groupIdE);
    }

    method CopySmsMmsInfoBlocked() returns (ok: bool)
      requires Ready()
      modifies src, dst, this
      ensures Ready() && Reaches(old(Now()), Now()) && SameAccounts(old(dst.db), dst.db)
      ensures ok <==> !Halted(old(Now()), Now())
      ensures ok ==> (Stuck(old(Now()), Now()) <==>
        exists m :: m in src.db.sms.rows && src.db.sms.rows[m].isBlocked == 1)
      ensures src.db.session == old(src.db).session && src.db.rcs == old(src.db).rcs
      ensures PartsTravel(old(Now()), Now()) && NewMessages(old(src.db), old(dst.db), dst.db, 0, 0)
    {
      hide NewMessages, NewInGroup, GroupIsNew;
      hide Travels, PartsTravel, Left, Reaches, Copied, NewRowsLinked, SameAccounts, AttachedTo, NoNewRow, Later;
      hide SrcFailed, DstFailed, FailuresGrow, FailedOnlyOn, Counted, Stuck, Halted, RcsStuck, RcsHalted;
      ghost var start := Now();
      var works := src.Works(Select(SmsMmsInfo));
      ReachesByQuery(start, Now(), Select(SmsMmsInfo), works);
      NothingNew(start.dst, 0);
      NoneTravels(start, Now());
      NoNewMessages(start.src, start.dst, 0, 0);
      if !works {
        return false;
      }
      var rows := src.db.sms.rows;
      var ids := Enumerate(set m | m in rows && rows[m].isBlocked == 1);
      NoneLeft(src.db.sms, ids);
      for i := 0 to |ids|
        invariant Ready() && Reaches(start, Now()) && SameAccounts(start.dst, dst.db) && !Halted(start, Now())
        invariant src.db.session == start.src.session && src.db.rcs == start.src.rcs && PartsTravel(start, Now())
        invariant forall j :: i <= j < |ids| ==> ids[j] in src.db.sms.rows
        invariant Left(src.db.sms, ids, i) <==> Stuck(start, Now())
        invariant NewMessages(start.src, start.dst, dst.db, 0, 0)
      {
        assert ids[i] in ids;
        ghost var before := Now();
        ReachesKeeps(start, before);
        var inserted, _ := CopyOneBlocked(ids[i], rows[ids[i]]);
        ReachesThen(start, before, Now());
        ReachesKeeps(before, Now());
        ghost var g :| NewInGroup(before.dst, dst.db, g) && GroupIsNew(before.dst, g);
        NoGroupIsNew(start.dst);
        NewMessagesThen(start.src, before.src, start.dst, before.dst, dst.db, 0, 0, 0, g);
        SameAccountsThen(start.dst, before.dst, dst.db);
        if !inserted {
          return false;
        }
        LeftStep(before.src.sms, src.db.sms, ids, i);
      }
      ok := true;
      ReachesKeeps(start, Now());
      LeftExactly(start.src.sms, src.db.sms, ids, (row: SmsRow) => row.isBlocked == 1);
    }

    /** The three passes over messages, whatever each of them returns.  If nothing fails, no conversation, no
        row of one and no blocked row is left. */
    method CopySqlFromCToE()
      requires Ready()
      modifies src, dst, this
      ensures Ready() && Reaches(old(Now()), Now()) && PartsTravel(old(Now()), Now())
      ensures !DstFailed(old(Now()), Now(), Insert(RiskUrlRecord)) ==> lost == old(lost)
      ensures Sound(old(dst.db)) && NoNegativeCount(old(src.db).session) ==> Index.NeverBelow(dst.db)
      ensures FailedOnlyOn(old(Now()), Now(), {}) ==>
        && src.db.session.rows == map[]
        && (forall c :: c in old(src.db).session.rows ==> Emptied(src.db, c))
        && (forall m :: m in src.db.sms.rows ==> src.db.sms.rows[m].isBlocked != 1)
        && (forall r :: r in src.db.rcs.rows ==> src.db.rcs.rows[r].isBlocked != 1)
        && Sum(Counts(dst.db.session)) == Sum(Counts(old(dst.db).session)) + Sum(Counts(old(src.db).session))
    {
      hide Reaches, Settled, Books, NewRowsLinked, Chained, Told, Visits, Index.NeverBelow, Travels, PartsTravel;
      hide SrcFailed, DstFailed, FailedOnlyOn, Emptied, SameAccounts, Later, FailuresGrow;
      hide Stuck, Halted, RcsStuck, RcsHalted;
      ghost var start := Now();
      var _, _, _ := CopySession();
      ghost var sessions := Now();
      TravelsParts(start, sessions);
      var _ := CopyRcsBlocked();
      ghost var blocked := Now();
      ReachesThen(start, sessions, blocked);
      var _ := CopySmsMmsInfoBlocked();
      ReachesThen(start, blocked, Now());
      ReachesThen(sessions, blocked, Now());
      ReachesKeeps(start, Now());
      ReachesKeeps(sessions, Now());
      LaterRecords(start, Now());
      SameAccountsThen(sessions.dst, blocked.dst, dst.db);
      SoundStays(start, sessions, dst.db);
      if FailedOnlyOn(start, Now(), {}) {
        NothingFails(start, sessions, Now());
        NothingFails(sessions, blocked, Now());
        EmptiedStay(sessions.src, src.db);
        SameTotal(sessions.dst, dst.db);
      }
    }
  }
}
