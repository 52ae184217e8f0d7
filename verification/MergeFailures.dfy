/** Which statements failed between two moments of a merge, whatever had failed before, and what that
    decides: messages or rcs rows that stay behind, and passes that end early. */
module MergeFailures {
  import opened SmsMmsTables
  import opened MergeRelations

  datatype Relation = SmsMmsInfo | RcsInfo | MmsPart | RiskUrlRecord | Session

  datatype Statement = Select(relation: Relation) | Insert(relation: Relation) | Update(relation: Relation) |
    Delete(relation: Relation)

  /** `failed` with one more failure, unless the statement worked. */
  function Counted(failed: multiset<Statement>, statement: Statement, ok: bool): multiset<Statement> {
    if ok then failed else failed + multiset{statement}
  }

  /** Both stores, with what has been recorded of the copy so far. */
  datatype Progress = Progress(
    src: Db, dst: Db, links: set<Link>, lost: set<Link>, srcFailed: multiset<Statement>,
    dstFailed: multiset<Statement>)

  /** A statement on the source failed between `a` and `b`, whatever had failed before. */
  ghost predicate SrcFailed(a: Progress, b: Progress, statement: Statement) {
    a.srcFailed[statement] < b.srcFailed[statement]
  }

  ghost predicate DstFailed(a: Progress, b: Progress, statement: Statement) {
    a.dstFailed[statement] < b.dstFailed[statement]
  }

  ghost predicate FailuresGrow(a: Progress, b: Progress) {
    a.srcFailed <= b.srcFailed && a.dstFailed <= b.dstFailed
  }

  /** Nothing failed on other tables. */
  ghost predicate FailedOnlyOn(a: Progress, b: Progress, touched: set<Relation>) {
    forall st :: SrcFailed(a, b, st) || DstFailed(a, b, st) ==> st.relation in touched
  }

  /** Messages stay behind exactly if one of these failed. */
  ghost predicate Stuck(a: Progress, b: Progress) {
    SrcFailed(a, b, Select(MmsPart)) || DstFailed(a, b, Insert(MmsPart)) ||
    SrcFailed(a, b, Select(RiskUrlRecord)) || SrcFailed(a, b, Delete(SmsMmsInfo))
  }

  /** A pass over messages ends early exactly if one of these failed. */
  ghost predicate Halted(a: Progress, b: Progress) {
    SrcFailed(a, b, Select(SmsMmsInfo)) || DstFailed(a, b, Insert(SmsMmsInfo))
  }

  /** Rcs rows stay behind exactly if the pass over the messages of one ended early or one of the
      deletes failed. */
  ghost predicate RcsStuck(a: Progress, b: Progress) {
    Halted(a, b) || SrcFailed(a, b, Delete(RcsInfo))
  }

  ghost predicate RcsHalted(a: Progress, b: Progress) {
    SrcFailed(a, b, Select(RcsInfo)) || DstFailed(a, b, Insert(RcsInfo))
  }

  lemma FailedOnWider(a: Progress, b: Progress, touched: set<Relation>, wider: set<Relation>)
    requires FailedOnlyOn(a, b, touched) && touched <= wider
    ensures FailedOnlyOn(a, b, wider)
  {}

  /** Parts and records have no share in how far the passes get. */
  lemma AttachmentsHaltNothing(a: Progress, b: Progress)
    requires FailedOnlyOn(a, b, {MmsPart, RiskUrlRecord})
    ensures !Halted(a, b) && FailedOnlyOn(a, b, {SmsMmsInfo, MmsPart, RiskUrlRecord})
  {}

  lemma MessagesStickNoRcs(a: Progress, b: Progress)
    requires FailedOnlyOn(a, b, {SmsMmsInfo, MmsPart, RiskUrlRecord})
    ensures !RcsHalted(a, b) && (RcsStuck(a, b) <==> Halted(a, b))
    ensures FailedOnlyOn(a, b, {SmsMmsInfo, RcsInfo, MmsPart, RiskUrlRecord})
  {}

  lemma FailuresThen(a: Progress, b: Progress, c: Progress)
    requires FailuresGrow(a, b) && FailuresGrow(b, c)
    ensures FailuresGrow(a, c)
    ensures forall st {:trigger SrcFailed(a, c, st)} ::
      SrcFailed(a, c, st) <==> SrcFailed(a, b, st) || SrcFailed(b, c, st)
    ensures forall st {:trigger DstFailed(a, c, st)} ::
      DstFailed(a, c, st) <==> DstFailed(a, b, st) || DstFailed(b, c, st)
    ensures forall t {:trigger FailedOnlyOn(a, c, t)} ::
      FailedOnlyOn(a, b, t) && FailedOnlyOn(b, c, t) ==> FailedOnlyOn(a, c, t)
    ensures Stuck(a, c) <==> Stuck(a, b) || Stuck(b, c)
    ensures Halted(a, c) <==> Halted(a, b) || Halted(b, c)
    ensures RcsStuck(a, c) <==> RcsStuck(a, b) || RcsStuck(b, c)
    ensures RcsHalted(a, c) <==> RcsHalted(a, b) || RcsHalted(b, c)
  {}

  lemma FailsOnSource(a: Progress, b: Progress, statement: Statement, ok: bool)
    requires b.srcFailed == Counted(a.srcFailed, statement, ok) && b.dstFailed == a.dstFailed
    ensures FailuresGrow(a, b)
    ensures forall st :: SrcFailed(a, b, st) <==> !ok && st == statement
    ensures forall st :: !DstFailed(a, b, st)
    ensures forall t :: statement.relation in t ==> FailedOnlyOn(a, b, t)
    ensures Stuck(a, b) <==> !ok && statement in {Select(MmsPart), Select(RiskUrlRecord), Delete(SmsMmsInfo)}
    ensures Halted(a, b) <==> !ok && statement == Select(SmsMmsInfo)
    ensures RcsStuck(a, b) <==> !ok && statement in {Select(SmsMmsInfo), Delete(RcsInfo)}
    ensures RcsHalted(a, b) <==> !ok && statement == Select(RcsInfo)
  {}

  lemma FailsOnDestination(a: Progress, b: Progress, statement: Statement, ok: bool)
    requires b.dstFailed == Counted(a.dstFailed, statement, ok) && b.srcFailed == a.srcFailed
    ensures FailuresGrow(a, b)
    ensures forall st :: DstFailed(a, b, st) <==> !ok && st == statement
    ensures forall st :: !SrcFailed(a, b, st)
    ensures forall t :: statement.relation in t ==> FailedOnlyOn(a, b, t)
    ensures Stuck(a, b) <==> !ok && statement == Insert(MmsPart)
    ensures Halted(a, b) <==> !ok && statement == Insert(SmsMmsInfo)
    ensures RcsStuck(a, b) <==> !ok && statement == Insert(SmsMmsInfo)
    ensures RcsHalted(a, b) <==> !ok && statement == Insert(RcsInfo)
  {}

  lemma SameFailuresAs(a: Progress, b: Progress, c: Progress)
    requires c.srcFailed == b.srcFailed && c.dstFailed == b.dstFailed
    ensures FailuresGrow(a, b) ==> FailuresGrow(a, c)
    ensures forall st :: SrcFailed(a, c, st) <==> SrcFailed(a, b, st)
    ensures forall st :: DstFailed(a, c, st) <==> DstFailed(a, b, st)
    ensures forall t :: FailedOnlyOn(a, b, t) ==> FailedOnlyOn(a, c, t)
  {}

  /** Two statements, one after the other. */
  lemma TwoFailOnDestination(a: Progress, b: Progress, first: Statement, ok1: bool, second: Statement, ok2: bool)
    requires b.dstFailed == Counted(Counted(a.dstFailed, first, ok1), second, ok2) && b.srcFailed == a.srcFailed
    ensures FailuresGrow(a, b)
    ensures forall st :: DstFailed(a, b, st) <==> (!ok1 && st == first) || (!ok2 && st == second)
    ensures forall st :: !SrcFailed(a, b, st)
    ensures forall t :: first.relation in t && second.relation in t ==> FailedOnlyOn(a, b, t)
  {
    hide FailuresGrow, SrcFailed, DstFailed, FailedOnlyOn, Counted, Stuck, Halted, RcsStuck, RcsHalted;
    var m := a.(dstFailed := Counted(a.dstFailed, first, ok1));
    FailsOnDestination(a, m, first, ok1);
    FailsOnDestination(m, b, second, ok2);
    FailuresThen(a, m, b);
  }

  /** A row that is looked up, inserted if it is missing, and then deleted from the source. */
  lemma RowFails(a: Progress, b: Progress, c: Progress, relation: Relation, asked: bool, inserted: bool, deleted: bool)
    requires b.dstFailed == Counted(Counted(a.dstFailed, Select(relation), asked), Insert(relation), inserted)
    requires b.srcFailed == a.srcFailed
    requires c.srcFailed == Counted(b.srcFailed, Delete(relation), deleted) && c.dstFailed == b.dstFailed
    ensures FailuresGrow(a, b) && FailuresGrow(a, c) && FailedOnlyOn(a, c, {relation})
    ensures DstFailed(a, c, Select(relation)) <==> !asked
    ensures DstFailed(a, c, Insert(relation)) <==> !inserted
    ensures SrcFailed(a, c, Delete(relation)) <==> !deleted
    ensures !SrcFailed(a, c, Select(relation))
  {
    hide FailuresGrow, SrcFailed, DstFailed, Counted, Stuck, Halted, RcsStuck, RcsHalted;
    TwoFailOnDestination(a, b, Select(relation), asked, Insert(relation), inserted);
    FailsOnSource(b, c, Delete(relation), deleted);
    FailuresThen(a, b, c);
  }

  /** Two queries and an insert. */
  lemma InsertFailsOnDestination(a: Progress, b: Progress, query1: Statement, ok1: bool, query2: Statement, ok2: bool,
                                 insert: Statement, ok3: bool)
    requires b.dstFailed == Counted(Counted(Counted(a.dstFailed, query1, ok1), query2, ok2), insert, ok3)
    requires b.srcFailed == a.srcFailed
    ensures FailuresGrow(a, b)
    ensures forall st :: DstFailed(a, b, st) <==>
      (!ok1 && st == query1) || (!ok2 && st == query2) || (!ok3 && st == insert)
    ensures forall st :: !SrcFailed(a, b, st)
    ensures forall t :: query1.relation in t && query2.relation in t && insert.relation in t ==> FailedOnlyOn(a, b, t)
  {
    hide FailuresGrow, SrcFailed, DstFailed, FailedOnlyOn, Counted, Stuck, Halted, RcsStuck, RcsHalted;
    var m := a.(dstFailed := Counted(Counted(a.dstFailed, query1, ok1), query2, ok2));
    TwoFailOnDestination(a, m, query1, ok1, query2, ok2);
    FailsOnDestination(m, b, insert, ok3);
    FailuresThen(a, m, b);
  }

  /** A blocked rcs row: its conversation is looked up, then it is copied with its messages. */
  lemma RcsBlockedFails(start: Progress, checked: Progress, end: Progress, asked: bool)
    requires checked.dstFailed == Counted(start.dstFailed, Select(Session), asked)
    requires checked.srcFailed == start.srcFailed
    requires FailuresGrow(checked, end) && FailedOnlyOn(checked, end, {SmsMmsInfo, RcsInfo, MmsPart, RiskUrlRecord})
    ensures FailuresGrow(start, checked)
    ensures RcsHalted(start, end) <==> RcsHalted(checked, end)
    ensures RcsStuck(start, end) <==> RcsStuck(checked, end)
    ensures DstFailed(start, end, Select(Session)) <==> !asked
    ensures FailedOnlyOn(start, end, {SmsMmsInfo, RcsInfo, MmsPart, RiskUrlRecord, Session})
  {
    hide FailuresGrow, SrcFailed, DstFailed, Counted;
    FailsOnDestination(start, checked, Select(Session), asked);
    FailuresThen(start, checked, end);
  }

  /** A blocked message: its conversation is looked up, its row inserted, its parts copied. */
  lemma BlockedFails(start: Progress, checked: Progress, found: Progress, parted: Progress, asked: bool)
    requires checked.dstFailed == Counted(start.dstFailed, Select(Session), asked)
    requires checked.srcFailed == start.srcFailed
    requires FailuresGrow(checked, found) && FailedOnlyOn(checked, found, {SmsMmsInfo}) && !Stuck(checked, found)
    requires FailuresGrow(found, parted) && FailedOnlyOn(found, parted, {MmsPart})
    ensures FailuresGrow(start, checked) && FailuresGrow(start, found) && FailuresGrow(start, parted)
    ensures Halted(start, parted) <==> Halted(checked, found)
    ensures Stuck(start, parted) <==>
      SrcFailed(found, parted, Select(MmsPart)) || DstFailed(found, parted, Insert(MmsPart))
    ensures DstFailed(start, parted, Select(Session)) <==> !asked
    ensures FailedOnlyOn(start, parted, {SmsMmsInfo, MmsPart, Session})
  {
    hide FailuresGrow, SrcFailed, DstFailed, Counted;
    FailsOnDestination(start, checked, Select(Session), asked);
    FailuresThen(start, checked, found);
    FailuresThen(start, found, parted);
  }
}
