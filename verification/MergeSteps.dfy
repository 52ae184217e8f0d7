/** The single steps of a merge: what each of them reaches, what it does to accounts and unread counts, and
    which rows of the source it spares. */
module MergeSteps {
  import opened SmsMmsTables
  import opened ConversationAccounts
  import opened MergeRelations
  import opened MergeFailures
  import Index = UnreadCount

  // ---------------------------------------------------------------- single steps

  /** Copying messages changes no account, and no conversation drops below its unread rows. */
  ghost predicate SameAccounts(a: Db, b: Db) {
    && a.session.rows.Keys == b.session.rows.Keys && a.session.lastId == b.session.lastId
    && (forall e :: e in a.session.rows ==> SameAccount(a.session.rows[e], b.session.rows[e]))
    && (Index.NeverBelow(a) ==> Index.NeverBelow(b))
  }

  lemma SameAccountsThen(a: Db, b: Db, c: Db)
    requires SameAccounts(a, b) && SameAccounts(b, c)
    ensures SameAccounts(a, c)
  {
    hide Index.NeverBelow;
  }

  /** Parts and url records have no share in any account. */
  lemma AttachmentsChangeNoAccount(a: Db, b: Db)
    requires b == a.(part := b.part, url := b.url)
    ensures SameAccounts(a, b)
  {
    forall s ensures UnreadOf(a, s) == UnreadOf(b, s) {}
  }

  lemma NothingNew(dst: Db, s: int)
    ensures Grown(dst, dst) && SameAccounts(dst, dst) && NewRowsLinked(dst, dst) && AttachedTo(dst, dst, s)
  {}

  lemma InsertSmsGrows(dst: Db, row: SmsRow)
    requires dst.Valid()
    ensures var next := InsertSms(dst, row);
      Grown(dst, next) && next.Valid() && SameAccounts(dst, next) && next.part == dst.part && next.rcs == dst.rcs &&
      next.url == dst.url && next.sms == dst.sms.Add(row) && AttachedTo(dst, next, row.sessionId) &&
      dst.sms.lastId + 1 !in dst.sms.rows
  {
    Index.SmsTriggerStep(dst, dst.sms.lastId + 1, row, dst.sms.Add(row));
  }

  lemma InsertRcsGrows(dst: Db, row: RcsRow)
    requires dst.Valid()
    ensures var next := InsertRcs(dst, row);
      Grown(dst, next) && next.Valid() && SameAccounts(dst, next) && next.part == dst.part && next.sms == dst.sms &&
      next.url == dst.url && next.rcs == dst.rcs.Add(row) && AttachedTo(dst, next, row.sessionId) &&
      dst.rcs.lastId + 1 !in dst.rcs.rows
  {
    Index.RcsTriggerStep(dst, dst.rcs.lastId + 1, row, dst.rcs.Add(row));
  }

  lemma RcsStays(dst1: Db, dst2: Db, row: RcsRow)
    requires HasRcs(dst1, row) && Grown(dst1, dst2)
    ensures HasRcs(dst2, row)
  {
    var n :| n in dst1.rcs.rows && dst1.rcs.rows[n].msgId == row.msgId;
    assert n in dst2.rcs.rows;
  }

  /** From one moment of a copy to a later one: nothing lost, only copies added, records accounted for. */
  ghost predicate Reaches(a: Progress, b: Progress) {
    && Copied(a.src, a.dst, b.src, b.dst)
    && Records(a.src.url, a.dst.url, b.src.url, b.dst.url, b.links, b.lost)
    && Later(a, b)
  }

  /** What has been recorded only grows, and a record is lost only if an insert failed. */
  ghost predicate Later(a: Progress, b: Progress) {
    && a.links <= b.links && a.lost <= b.lost && FailuresGrow(a, b)
    && (!DstFailed(a, b, Insert(RiskUrlRecord)) ==> b.lost == a.lost)
  }

  /** Each message that left the source took along its parts and its url records, those of the rcs row
      that took it or else its own. */
  ghost predicate Travels(a: Progress, b: Progress) {
    forall m :: m in a.src.sms.rows && m !in b.src.sms.rows ==> TravelsWhole(a, b, m)
  }

  ghost predicate TravelsWhole(a: Progress, b: Progress, m: int)
    requires m in a.src.sms.rows
  {
    exists k :: TakenBy(a.src, m, k) && PartsArrived(a.src, b.dst, m, k) && UrlsRecorded(a.src, b.links + b.lost, m, k)
  }

  /** The same without url records, which the pass over blocked messages leaves alone. */
  ghost predicate PartsTravel(a: Progress, b: Progress) {
    forall m :: m in a.src.sms.rows && m !in b.src.sms.rows ==>
      exists k :: TakenBy(a.src, m, k) && PartsArrived(a.src, b.dst, m, k)
  }

  lemma TravelsStays(a: Progress, b: Progress, c: Progress, m: int)
    requires Reaches(b, c) && m in a.src.sms.rows && TravelsWhole(a, b, m)
    ensures TravelsWhole(a, c, m)
  {
    var k :| TakenBy(a.src, m, k) && PartsArrived(a.src, b.dst, m, k) && UrlsRecorded(a.src, b.links + b.lost, m, k);
    PartsArrivedStay(a.src, b.dst, c.dst, m, k);
  }

  lemma TravelsLater(a: Progress, b: Progress, c: Progress, m: int)
    requires Reaches(a, b) && Reaches(b, c) && m in b.src.sms.rows && TravelsWhole(b, c, m)
    ensures m in a.src.sms.rows && TravelsWhole(a, c, m)
  {
    var k :| TakenBy(b.src, m, k) && PartsArrived(b.src, c.dst, m, k) && UrlsRecorded(b.src, c.links + c.lost, m, k);
    PartsArrivedThen(a.src, b.src, b.dst, c.dst, m, k);
    assert TakenBy(a.src, m, k) && UrlsRecorded(a.src, c.links + c.lost, m, k);
  }

  lemma TravelsThen(a: Progress, b: Progress, c: Progress)
    requires Reaches(a, b) && Reaches(b, c)
    ensures Travels(a, b) && Travels(b, c) ==> Travels(a, c)
    ensures PartsTravel(a, b) && PartsTravel(b, c) ==> PartsTravel(a, c)
  {
    if Travels(a, b) && Travels(b, c) {
      forall m | m in a.src.sms.rows && m !in c.src.sms.rows ensures TravelsWhole(a, c, m) {
        if m in b.src.sms.rows { TravelsLater(a, b, c, m); } else { TravelsStays(a, b, c, m); }
      }
    }
    if PartsTravel(a, b) && PartsTravel(b, c) {
      forall m | m in a.src.sms.rows && m !in c.src.sms.rows
        ensures exists k :: TakenBy(a.src, m, k) && PartsArrived(a.src, c.dst, m, k)
      {
        if m in b.src.sms.rows {
          var k :| TakenBy(b.src, m, k) && PartsArrived(b.src, c.dst, m, k);
          PartsArrivedThen(a.src, b.src, b.dst, c.dst, m, k);
          assert TakenBy(a.src, m, k);
        } else {
          var k :| TakenBy(a.src, m, k) && PartsArrived(a.src, b.dst, m, k);
          PartsArrivedStay(a.src, b.dst, c.dst, m, k);
        }
      }
    }
  }

  /** Each message that left belongs to conversation `s`, and to rcs row `k` and group `g` if both are given,
      and took along its parts and records under that row. */
  ghost predicate Departs(a: Progress, b: Progress, s: int, k: int, g: int) {
    forall m :: m in a.src.sms.rows && m !in b.src.sms.rows ==>
      && a.src.sms.rows[m].sessionId == s
      && (k != 0 && g != 0 ==> a.src.sms.rows[m].rcsId == k && a.src.sms.rows[m].groupId == g)
      && PartsArrived(a.src, b.dst, m, k) && UrlsRecorded(a.src, b.links + b.lost, m, k)
  }

  lemma DepartsThen(a: Progress, b: Progress, c: Progress, s: int, k: int, g: int)
    requires Reaches(a, b) && Reaches(b, c) && Departs(a, b, s, k, g) && Departs(b, c, s, k, g)
    ensures Departs(a, c, s, k, g)
  {
    hide PartsArrived, Carried, Records;
    forall m | m in a.src.sms.rows && m !in c.src.sms.rows
      ensures PartsArrived(a.src, c.dst, m, k) && UrlsRecorded(a.src, c.links + c.lost, m, k)
    {
      ReachesKeeps(a, b);
      ReachesKeeps(b, c);
      if m in b.src.sms.rows {
        PartsArrivedThen(a.src, b.src, b.dst, c.dst, m, k);
        UrlsRecordedThen(a, b, c, m, k);
      } else {
        PartsArrivedStay(a.src, b.dst, c.dst, m, k);
      }
    }
    ReachesKeeps(a, b);
  }

  lemma UrlsRecordedThen(a: Progress, b: Progress, c: Progress, m: int, k: int)
    requires Reaches(a, b) && Reaches(b, c) && m in b.src.sms.rows && UrlsRecorded(b.src, c.links + c.lost, m, k)
    ensures m in a.src.sms.rows && UrlsRecorded(a.src, c.links + c.lost, m, k)
  {}

  lemma NoneDeparts(a: Progress, b: Progress, s: int, k: int, g: int)
    requires b.src.sms == a.src.sms
    ensures Departs(a, b, s, k, g)
  {}

  /** One message, with the parts and records that were copied for it. */
  lemma OneDeparts(a: Progress, b: Progress, m: int, s: int, k: int, g: int, msgIdE: int, rcsIdE: int, groupIdE: int)
    requires m in a.src.sms.rows && (b.src.sms == a.src.sms || b.src.sms == a.src.sms.Without({m}))
    requires a.src.sms.rows[m].sessionId == s
    requires k != 0 && g != 0 ==> a.src.sms.rows[m].rcsId == k && a.src.sms.rows[m].groupId == g
    requires m !in b.src.sms.rows ==>
      forall p :: p in a.src.part.rows && IsPartOf(a.src.part.rows[p], a.src.sms.rows[m].groupId, m, k) ==>
      Filed(a.src.part.rows[p], a.dst, b.dst, msgIdE, rcsIdE, groupIdE)
    requires m !in b.src.sms.rows ==> UrlsRecorded(a.src, b.links + b.lost, m, k)
    ensures Departs(a, b, s, k, g)
  {
    if m !in b.src.sms.rows {
      forall p | p in a.src.part.rows && IsPartOf(a.src.part.rows[p], a.src.sms.rows[m].groupId, m, k)
        ensures HasFile(b.dst, a.src.part.rows[p])
      {
        FiledStays(a.src.part.rows[p], a.dst, b.dst, b.dst, msgIdE, rcsIdE, groupIdE);
      }
    }
  }

  /** One message without its records. */
  lemma OnePartsTravel(a: Progress, b: Progress, m: int, dst1: Db, msgIdE: int, groupIdE: int)
    requires m in a.src.sms.rows && (b.src.sms == a.src.sms || b.src.sms == a.src.sms.Without({m}))
    requires forall p :: p in a.src.part.rows && IsPartOf(a.src.part.rows[p], a.src.sms.rows[m].groupId, m, 0) ==>
      Filed(a.src.part.rows[p], dst1, b.dst, msgIdE, 0, groupIdE)
    ensures PartsTravel(a, b)
  {
    forall p | p in a.src.part.rows && IsPartOf(a.src.part.rows[p], a.src.sms.rows[m].groupId, m, 0)
      ensures HasFile(b.dst, a.src.part.rows[p])
    {
      FiledStays(a.src.part.rows[p], dst1, b.dst, b.dst, msgIdE, 0, groupIdE);
    }
    assert TakenBy(a.src, m, 0) && PartsArrived(a.src, b.dst, m, 0);
  }

  /** Messages taken by an rcs row of their conversation, or by none. */
  lemma DepartsTravels(a: Progress, b: Progress, s: int, k: int, g: int)
    requires Departs(a, b, s, k, g)
    requires k > 0 ==> k in a.src.rcs.rows && a.src.rcs.rows[k].sessionId == s && a.src.rcs.rows[k].groupId == g
    ensures Travels(a, b)
  {
    forall m | m in a.src.sms.rows && m !in b.src.sms.rows ensures TravelsWhole(a, b, m) {
      assert TakenBy(a.src, m, k);
    }
  }

  lemma NoneTravels(a: Progress, b: Progress)
    requires b.src.sms == a.src.sms
    ensures Travels(a, b) && PartsTravel(a, b)
  {}

  lemma TravelsParts(a: Progress, b: Progress)
    requires Travels(a, b)
    ensures PartsTravel(a, b)
  {
    forall m | m in a.src.sms.rows && m !in b.src.sms.rows
      ensures exists k :: TakenBy(a.src, m, k) && PartsArrived(a.src, b.dst, m, k)
    {
      assert TravelsWhole(a, b, m);
    }
  }

  /** A message that no rcs row could take along took its own parts and records. */
  lemma OwnPartsTravel(a: Progress, b: Progress, m: int)
    requires Travels(a, b) && m in a.src.sms.rows && m !in b.src.sms.rows
    requires forall k :: k > 0 && k in a.src.rcs.rows ==> !TakenBy(a.src, m, k)
    ensures PartsArrived(a.src, b.dst, m, 0) && UrlsRecorded(a.src, b.links + b.lost, m, 0)
  {
    assert TravelsWhole(a, b, m);
  }

  lemma ReachesOn(a: Progress, b: Progress, c: Progress)
    requires Reaches(a, b) && Reaches(b, c)
    ensures Reaches(a, c)
    ensures NewRowsLinked(a.dst, b.dst) && NewRowsLinked(b.dst, c.dst) ==> NewRowsLinked(a.dst, c.dst)
    ensures forall s {:trigger AttachedTo(a.dst, c.dst, s)} ::
      AttachedTo(a.dst, b.dst, s) && AttachedTo(b.dst, c.dst, s) ==> AttachedTo(a.dst, c.dst, s)
    ensures Travels(a, b) && Travels(b, c) ==> Travels(a, c)
    ensures PartsTravel(a, b) && PartsTravel(b, c) ==> PartsTravel(a, c)
  {
    hide Copied, Records, AttachedTo, NewRowsLinked, SrcFailed, DstFailed, FailuresGrow, Travels, PartsTravel;
    FailuresThen(a, b, c);
    TravelsThen(a, b, c);
    ReachesKeeps(b, c);
    ReachesKeeps(a, b);
    CopiedThen(a.src, a.dst, b.src, b.dst, c.src, c.dst);
    RecordsThen(a.src.url, a.dst.url, b.src.url, b.dst.url, c.src.url, c.dst.url, b.links, b.lost, c.links, c.lost);
    forall s | AttachedTo(a.dst, b.dst, s) && AttachedTo(b.dst, c.dst, s) ensures AttachedTo(a.dst, c.dst, s) {
      AttachedThen(a.dst, b.dst, c.dst, s);
    }
    assert a.links <= b.links <= c.links && a.lost <= b.lost <= c.lost;
  }

  /** The same, with what failed on the way. */
  lemma ReachesThen(a: Progress, b: Progress, c: Progress)
    requires Reaches(a, b) && Reaches(b, c)
    ensures Reaches(a, c)
    ensures NewRowsLinked(a.dst, b.dst) && NewRowsLinked(b.dst, c.dst) ==> NewRowsLinked(a.dst, c.dst)
    ensures forall s {:trigger AttachedTo(a.dst, c.dst, s)} ::
      AttachedTo(a.dst, b.dst, s) && AttachedTo(b.dst, c.dst, s) ==> AttachedTo(a.dst, c.dst, s)
    ensures forall st {:trigger SrcFailed(a, c, st)} ::
      SrcFailed(a, c, st) <==> SrcFailed(a, b, st) || SrcFailed(b, c, st)
    ensures forall st {:trigger DstFailed(a, c, st)} ::
      DstFailed(a, c, st) <==> DstFailed(a, b, st) || DstFailed(b, c, st)
    ensures forall t {:trigger FailedOnlyOn(a, c, t)} ::
      FailedOnlyOn(a, b, t) && FailedOnlyOn(b, c, t) ==> FailedOnlyOn(a, c, t)
    ensures Stuck(a, c) <==> Stuck(a, b) || Stuck(b, c)
    ensures Halted(a, c) <==> Halted(a, b) || Halted(b, c)
    ensures RcsStuck(a, c) <==> RcsStuck(a, b) || RcsStuck(b, c)
    ensures RcsHalted(a, c) <==> RcsHalted(a, b) || RcsHalted(b, c)
    ensures Travels(a, b) && Travels(b, c) ==> Travels(a, c)
    ensures PartsTravel(a, b) && PartsTravel(b, c) ==> PartsTravel(a, c)
  {
    hide AttachedTo, NewRowsLinked, Travels, PartsTravel, SrcFailed, DstFailed, FailedOnlyOn;
    hide Stuck, Halted, RcsStuck, RcsHalted;
    ReachesOn(a, b, c);
    FailuresThen(a, b, c);
  }

  lemma ReachesKeeps(a: Progress, b: Progress)
    requires Reaches(a, b)
    ensures Within(b.src.sms, a.src.sms) && Within(b.src.rcs, a.src.rcs) && Grown(a.dst, b.dst)
    ensures Within(b.src.part, a.src.part) && Within(b.src.url, a.src.url) && Later(a, b)
    ensures a.links <= b.links && a.lost <= b.lost && FailuresGrow(a, b)
  {}

  lemma ReachesItself(a: Progress)
    requires a.dst.Valid() && a.links <= Links(a.dst.url)
    ensures Reaches(a, a) && NewRowsLinked(a.dst, a.dst) && !Halted(a, a) && !RcsHalted(a, a)
    ensures FailuresGrow(a, a) && forall t :: FailedOnlyOn(a, a, t)
  {}

  /** A query on the source changes nothing, whether it fails or not. */
  lemma ReachesByQuery(a: Progress, b: Progress, statement: Statement, ok: bool)
    requires a.dst.Valid() && a.links <= Links(a.dst.url)
    requires b == a.(srcFailed := Counted(a.srcFailed, statement, ok))
    ensures Reaches(a, b) && NewRowsLinked(a.dst, b.dst) && (ok ==> b == a)
    ensures forall st :: SrcFailed(a, b, st) <==> !ok && st == statement
    ensures forall st :: !DstFailed(a, b, st)
    ensures Stuck(a, b) <==> !ok && statement in {Select(MmsPart), Select(RiskUrlRecord), Delete(SmsMmsInfo)}
    ensures Halted(a, b) <==> !ok && statement == Select(SmsMmsInfo)
    ensures RcsStuck(a, b) <==> !ok && statement in {Select(SmsMmsInfo), Delete(RcsInfo)}
    ensures RcsHalted(a, b) <==> !ok && statement == Select(RcsInfo)
    ensures forall t :: FailedOnlyOn(a, b, t) <==> ok || statement.relation in t
  {
    FailsOnSource(a, b, statement, ok);
    assert !ok ==> SrcFailed(a, b, statement);
  }

  /** A step that touches nothing but the url records. */
  lemma ReachesByRecords(a: Progress, b: Progress)
    requires a.dst.Valid() && b.dst.Valid()
    requires b.src == a.src.(url := b.src.url) && b.dst == a.dst.(url := b.dst.url)
    requires Records(a.src.url, a.dst.url, b.src.url, b.dst.url, b.links, b.lost) && Later(a, b)
    ensures Reaches(a, b) && NewRowsLinked(a.dst, b.dst)
  {}

  lemma ReachesByMessage(a: Progress, b: Progress, m: int)
    requires m in a.src.sms.rows && b.src == a.src && b.dst.Valid() && Grown(a.dst, b.dst)
    requires b.dst.part == a.dst.part && b.dst.rcs == a.dst.rcs && b.dst.url == a.dst.url
    requires forall n :: n in b.dst.sms.rows && n !in a.dst.sms.rows ==>
      IsSmsCopy(a.src.sms.rows[m], b.dst.sms.rows[n])
    requires a.links == b.links <= Links(a.dst.url) && a.lost == b.lost && Later(a, b)
    ensures Reaches(a, b)
  {}

  lemma ReachesByPart(a: Progress, b: Progress, p: int)
    requires p in a.src.part.rows && a.dst.Valid() && b.dst.Valid() && Within(a.dst.part, b.dst.part)
    requires b.src == a.src.(part := b.src.part) && b.dst == a.dst.(part := b.dst.part)
    requires b.src.part == a.src.part || (b.src.part == a.src.part.Without({p}) && HasFile(b.dst, a.src.part.rows[p]))
    requires forall n :: n in b.dst.part.rows && n !in a.dst.part.rows ==>
      IsPartCopy(a.src.part.rows[p], b.dst.part.rows[n]) && b.dst.part.rows[n].msgId in b.dst.sms.rows
    requires a.links == b.links <= Links(a.dst.url) && a.lost == b.lost && Later(a, b)
    ensures Reaches(a, b) && NewRowsLinked(a.dst, b.dst)
  {}

  lemma ReachesByRcs(a: Progress, b: Progress, r: int)
    requires r in a.src.rcs.rows && b.src == a.src && b.dst.Valid() && Grown(a.dst, b.dst)
    requires b.dst.part == a.dst.part && b.dst.sms == a.dst.sms && b.dst.url == a.dst.url
    requires forall n :: n in b.dst.rcs.rows && n !in a.dst.rcs.rows ==>
      IsRcsCopy(a.src.rcs.rows[r], b.dst.rcs.rows[n])
    requires a.links == b.links <= Links(a.dst.url) && a.lost == b.lost && Later(a, b)
    ensures Reaches(a, b)
  {}

  /** Inserting or updating a conversation in the destination, or looking for one. */
  lemma ReachesBySession(a: Progress, b: Progress)
    requires b.src == a.src && b.dst == a.dst.(session := b.dst.session) && a.dst.Valid() && b.dst.Valid()
    requires a.dst.session.rows.Keys <= b.dst.session.rows.Keys && a.dst.session.lastId <= b.dst.session.lastId
    requires a.links == b.links <= Links(a.dst.url) && a.lost == b.lost && Later(a, b)
    ensures Reaches(a, b) && NewRowsLinked(a.dst, b.dst)
  {}

  /** Deleting a message or an rcs row that the destination has, or failing to. */
  lemma ReachesByDelete(a: Progress, b: Progress)
    requires b.dst == a.dst && a.dst.Valid() && b.src.url == a.src.url && b.src.part == a.src.part
    requires Within(b.src.sms, a.src.sms) && Within(b.src.rcs, a.src.rcs) && Within(b.src.session, a.src.session)
    requires forall m :: m in a.src.sms.rows && m !in b.src.sms.rows ==> HasMessage(a.dst, a.src.sms.rows[m])
    requires forall r :: r in a.src.rcs.rows && r !in b.src.rcs.rows ==> HasRcs(a.dst, a.src.rcs.rows[r])
    requires a.links == b.links <= Links(a.dst.url) && a.lost == b.lost && Later(a, b)
    ensures Reaches(a, b) && NewRowsLinked(a.dst, b.dst)
  {}

  /** Deleting a row by its id, after the rest of a step. */
  lemma DeleteFails(a: Progress, b: Progress, c: Progress, relation: Relation, ok: bool)
    requires FailuresGrow(a, b)
    requires c.srcFailed == Counted(b.srcFailed, Delete(relation), ok) && c.dstFailed == b.dstFailed
    ensures FailuresGrow(b, c)
    ensures Stuck(a, c) <==> Stuck(a, b) || (!ok && relation == SmsMmsInfo)
    ensures Halted(a, c) <==> Halted(a, b)
    ensures RcsStuck(a, c) <==> RcsStuck(a, b) || (!ok && relation == RcsInfo)
    ensures RcsHalted(a, c) <==> RcsHalted(a, b)
    ensures forall st {:trigger SrcFailed(a, c, st)} ::
      SrcFailed(a, c, st) <==> SrcFailed(a, b, st) || (!ok && st == Delete(relation))
    ensures forall st {:trigger DstFailed(a, c, st)} :: DstFailed(a, c, st) <==> DstFailed(a, b, st)
    ensures forall t {:trigger FailedOnlyOn(a, c, t)} ::
      FailedOnlyOn(a, b, t) && relation in t ==> FailedOnlyOn(a, c, t)
  {
    hide FailuresGrow, SrcFailed, DstFailed, FailedOnlyOn, Counted, Stuck, Halted, RcsStuck, RcsHalted;
    FailsOnSource(b, c, Delete(relation), ok);
    FailuresThen(a, b, c);
  }

  // ---------------------------------------------------------------- unread counts of the destination

  /** No row names a conversation that has not been handed out yet. */
  ghost predicate Bounded(db: Db) {
    && (forall m :: m in db.sms.rows ==> db.sms.rows[m].sessionId <= db.session.lastId)
    && (forall r :: r in db.rcs.rows ==> db.rcs.rows[r].sessionId <= db.session.lastId)
  }

  /** The unread index of the destination is never below, now and after any insert of a conversation. */
  ghost predicate Sound(db: Db) {
    Index.NeverBelow(db) && Bounded(db)
  }

  lemma LinkedStaysBounded(dst0: Db, dst: Db)
    requires Bounded(dst0) && Grown(dst0, dst) && NewRowsLinked(dst0, dst) && dst.Valid()
    ensures Bounded(dst)
  {}

  lemma NoRowNoneUnread(db: Db, s: int)
    requires forall m :: m in db.sms.rows ==> db.sms.rows[m].sessionId != s
    requires forall r :: r in db.rcs.rows ==> db.rcs.rows[r].sessionId != s
    ensures UnreadOf(db, s) == 0
  {
    var sms, rcs := UnreadSms(db.sms, s), UnreadRcs(db.rcs, s);
    forall m ensures m !in sms && m !in rcs {
      assert m in db.sms.rows ==> db.sms.rows[m].sessionId != s;
      assert m in db.rcs.rows ==> db.rcs.rows[m].sessionId != s;
    }
    assert sms == {} && rcs == {};
  }

  /** A new conversation keeps its copied count, which has to cover the rows that name its id already. */
  lemma InsertSessionNeverBelowIff(dst: Db, row: SessionRow)
    requires dst.Valid()
    ensures var e := dst.session.lastId + 1;
      Index.NeverBelow(dst.(session := dst.session.Add(row))) <==>
      Index.NeverBelow(dst) && UnreadOf(dst, e) <= row.unreadCount
    ensures Bounded(dst) ==> UnreadOf(dst, dst.session.lastId + 1) == 0
  {
    var next := dst.(session := dst.session.Add(row));
    forall s ensures UnreadOf(dst, s) == UnreadOf(next, s) {}
    assert Index.NeverBelow(next) ==> UnreadOf(next, dst.session.lastId + 1) <= row.unreadCount;
    if Index.NeverBelow(next) {
      forall s | s in dst.session.rows ensures UnreadOf(dst, s) <= dst.session.rows[s].unreadCount {
        assert s in next.session.rows && UnreadOf(next, s) <= next.session.rows[s].unreadCount;
      }
    }
    if Bounded(dst) {
      NoRowNoneUnread(dst, dst.session.lastId + 1);
    }
  }

  /** An update that leaves the unread count alone. */
  lemma UpdateSessionNeverBelowIff(dst: Db, e: int, row: SessionRow)
    requires e in dst.session.rows && row.unreadCount == dst.session.rows[e].unreadCount
    ensures Index.NeverBelow(dst.(session := dst.session.Put(e, row))) <==> Index.NeverBelow(dst)
  {
    var next := dst.(session := dst.session.Put(e, row));
    forall s ensures UnreadOf(dst, s) == UnreadOf(next, s) {}
    if Index.NeverBelow(next) {
      forall s | s in dst.session.rows ensures UnreadOf(dst, s) <= dst.session.rows[s].unreadCount {
        assert s in next.session.rows && UnreadOf(next, s) <= next.session.rows[s].unreadCount;
      }
    }
  }

  // ---------------------------------------------------------------- other conversations

  /** Rows of other conversations stay in the source. */
  ghost predicate Spared(src1: Db, src2: Db, c: int) {
    && (forall m :: m in src1.sms.rows && src1.sms.rows[m].sessionId != c ==> m in src2.sms.rows)
    && (forall r :: r in src1.rcs.rows && src1.rcs.rows[r].sessionId != c ==> r in src2.rcs.rows)
  }

  lemma SparedOne(src1: Db, src2: Db, m: int, c: int)
    requires src2.rcs == src1.rcs && (src2.sms == src1.sms || src2.sms == src1.sms.Without({m}))
    requires m in src1.sms.rows && src1.sms.rows[m].sessionId == c
    ensures Spared(src1, src2, c)
  {}

  lemma SparedItself(src: Db, c: int)
    ensures Spared(src, src, c)
  {}

  lemma SparedThen(src1: Db, src2: Db, src3: Db, c: int)
    requires Spared(src1, src2, c) && Spared(src2, src3, c)
    requires Within(src2.sms, src1.sms) && Within(src2.rcs, src1.rcs)
    ensures Spared(src1, src3, c)
  {}

  // ---------------------------------------------------------------- what is left of a conversation

  /** No message or rcs row of the source belongs to the conversation any more. */
  ghost predicate Emptied(db: Db, c: int) {
    (forall m :: m in db.sms.rows ==> db.sms.rows[m].sessionId != c) &&
    (forall r :: r in db.rcs.rows ==> db.rcs.rows[r].sessionId != c)
  }

  lemma EmptiedStep(src1: Db, src2: Db, k: int, c: int)
    requires Within(src2.sms, src1.sms) && Within(src2.rcs, src1.rcs) && Spared(src1, src2, c) && k != c
    ensures Emptied(src1, k) <==> Emptied(src2, k)
  {
    if Emptied(src2, k) {
      forall m | m in src1.sms.rows ensures src1.sms.rows[m].sessionId != k {
        if m in src2.sms.rows { assert src2.sms.rows[m].sessionId != k; }
      }
      forall r | r in src1.rcs.rows ensures src1.rcs.rows[r].sessionId != k {
        if r in src2.rcs.rows { assert src2.rcs.rows[r].sessionId != k; }
      }
    }
  }

  lemma EmptiedIff(db: Db, c: int, rcsLeft: bool, smsLeft: bool)
    requires rcsLeft <==> exists r :: r in db.rcs.rows && db.rcs.rows[r].sessionId == c
    requires smsLeft <==> exists m :: m in db.sms.rows && db.sms.rows[m].sessionId == c
    ensures rcsLeft || smsLeft <==> !Emptied(db, c)
  {}

  // ---------------------------------------------------------------- a pass over messages

  /** What one pass over messages is asked for, and where its copies are to go. */
  datatype Pass = Pass(sessionIdC: int, s: int, rcsIdC: int, groupId: int, rcsIdE: int, groupE: int)

  /** What a pass has done so far. */
  ghost predicate MessagesPassed(a: Progress, b: Progress, pass: Pass) {
    && Reaches(a, b) && SameAccounts(a.dst, b.dst) && AttachedTo(a.dst, b.dst, pass.s)
    && Spared(a.src, b.src, pass.sessionIdC) && b.src.rcs == a.src.rcs && b.src.session == a.src.session
    && FailedOnlyOn(a, b, {SmsMmsInfo, MmsPart, RiskUrlRecord})
    && Departs(a, b, pass.sessionIdC, pass.rcsIdC, pass.groupId)
    && NewMessages(a.src, a.dst, b.dst, pass.rcsIdE, pass.groupE)
  }

  lemma NonePassed(a: Progress, b: Progress, pass: Pass)
    requires Reaches(a, b) && b.src == a.src && b.dst == a.dst
    requires FailedOnlyOn(a, b, {SmsMmsInfo, MmsPart, RiskUrlRecord})
    ensures MessagesPassed(a, b, pass)
  {
    hide Reaches, FailedOnlyOn;
    NothingNew(a.dst, pass.s);
    SparedItself(a.src, pass.sessionIdC);
    NoneDeparts(a, b, pass.sessionIdC, pass.rcsIdC, pass.groupId);
    NoNewMessages(a.src, a.dst, pass.rcsIdE, pass.groupE);
  }

  lemma PassedMeans(a: Progress, b: Progress, pass: Pass)
    requires MessagesPassed(a, b, pass)
    ensures Reaches(a, b) && SameAccounts(a.dst, b.dst) && AttachedTo(a.dst, b.dst, pass.s)
    ensures Spared(a.src, b.src, pass.sessionIdC) && b.src.rcs == a.src.rcs && b.src.session == a.src.session
    ensures FailedOnlyOn(a, b, {SmsMmsInfo, MmsPart, RiskUrlRecord}) && Within(b.src.sms, a.src.sms)
    ensures Departs(a, b, pass.sessionIdC, pass.rcsIdC, pass.groupId)
    ensures NewMessages(a.src, a.dst, b.dst, pass.rcsIdE, pass.groupE)
  {
    ReachesKeeps(a, b);
  }

  /** Two stretches of a pass, the second with the group that the first ended with. */
  lemma MessagesPassedThen(a: Progress, b: Progress, c: Progress, pass: Pass, group: int, next: int)
    requires MessagesPassed(a, b, pass) && MessagesPassed(b, c, pass.(groupE := group))
    requires NewInGroup(b.dst, c.dst, next) && if group != 0 then next == group else GroupIsNew(b.dst, next)
    requires if pass.groupE != 0 then group == pass.groupE else GroupIsNew(a.dst, group)
    ensures MessagesPassed(a, c, pass) && Within(c.src.sms, b.src.sms)
    ensures if pass.groupE != 0 then next == pass.groupE else GroupIsNew(a.dst, next)
    ensures Stuck(a, c) <==> Stuck(a, b) || Stuck(b, c)
    ensures Halted(a, c) <==> Halted(a, b) || Halted(b, c)
  {
    hide Reaches, SameAccounts, AttachedTo, Spared, FailedOnlyOn, Departs, NewMessages, NewInGroup, GroupIsNew;
    hide Stuck, Halted, RcsStuck, RcsHalted, Travels, PartsTravel, SrcFailed, DstFailed;
    ReachesThen(a, b, c);
    ReachesKeeps(a, b);
    ReachesKeeps(b, c);
    DepartsThen(a, b, c, pass.sessionIdC, pass.rcsIdC, pass.groupId);
    NewMessagesThen(a.src, b.src, a.dst, b.dst, c.dst, pass.rcsIdE, pass.groupE, group, next);
    SparedThen(a.src, b.src, c.src, pass.sessionIdC);
    SameAccountsThen(a.dst, b.dst, c.dst);
  }

  /** One message is a stretch of its own. */
  lemma OnePassed(a: Progress, b: Progress, pass: Pass, m: int, msgIdE: int, groupIdE: int)
    requires Reaches(a, b) && SameAccounts(a.dst, b.dst) && AttachedTo(a.dst, b.dst, pass.s)
    requires b.src.rcs == a.src.rcs && b.src.session == a.src.session
    requires FailedOnlyOn(a, b, {SmsMmsInfo, MmsPart, RiskUrlRecord})
    requires NewMessages(a.src, a.dst, b.dst, pass.rcsIdE, pass.groupE)
    requires m in a.src.sms.rows && (b.src.sms == a.src.sms || b.src.sms == a.src.sms.Without({m}))
    requires a.src.sms.rows[m].sessionId == pass.sessionIdC
    requires pass.rcsIdC != 0 && pass.groupId != 0 ==>
      a.src.sms.rows[m].rcsId == pass.rcsIdC && a.src.sms.rows[m].groupId == pass.groupId
    requires m !in b.src.sms.rows ==>
      forall p :: p in a.src.part.rows && IsPartOf(a.src.part.rows[p], a.src.sms.rows[m].groupId, m, pass.rcsIdC) ==>
      Filed(a.src.part.rows[p], a.dst, b.dst, msgIdE, pass.rcsIdE, groupIdE)
    requires m !in b.src.sms.rows ==> UrlsRecorded(a.src, b.links + b.lost, m, pass.rcsIdC)
    ensures MessagesPassed(a, b, pass)
  {
    hide Reaches, SameAccounts, AttachedTo, FailedOnlyOn, NewMessages, Filed, IsPartOf, UrlsRecorded;
    OneDeparts(a, b, m, pass.sessionIdC, pass.rcsIdC, pass.groupId, msgIdE, pass.rcsIdE, groupIdE);
    SparedOne(a.src, b.src, m, pass.sessionIdC);
  }
}
