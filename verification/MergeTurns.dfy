/** The turn that each conversation has in a merge, and what a run of turns amounts to. */
module MergeTurns {
  import opened SmsMmsTables
  import opened Sums
  import opened ConversationAccounts
  import opened MergeRelations
  import opened MergeFailures
  import opened MergeSteps
  import Index = UnreadCount

  // ---------------------------------------------------------------- the books of the merge

  lemma CreditStays(a: Db, b: Db, c: Db, e: int, row: SessionRow, credited: bool)
    requires SameAccounts(b, c)
    requires if credited then Credited(a.session, b.session, e, row) else SameAccounts(a, b)
    ensures if credited then Credited(a.session, c.session, e, row) else SameAccounts(a, c)
    ensures credited ==> c.session.rows[e].telephone == b.session.rows[e].telephone
  {
    if credited {
      forall k | k in a.session.rows && k != e ensures SameAccount(a.session.rows[k], c.session.rows[k]) {
        assert SameAccount(b.session.rows[k], c.session.rows[k]);
      }
      assert SameAccount(b.session.rows[e], c.session.rows[e]);
    }
  }

  lemma InsertCredits(a: Table<SessionRow>, b: Table<SessionRow>, row: SessionRow)
    requires a.Valid() && b == a.Add(row)
    ensures Credited(a, b, a.lastId + 1, row)
  {}

  /** After a pass over rows of the conversation that went into `e`. */
  lemma Delivered(a: Db, b: Db, c: Db, e: int, row: SessionRow, credited: bool)
    requires e in b.session.rows && AttachedTo(b, c, e) && SameAccounts(b, c) && Grown(b, c) && c.Valid()
    requires if credited then Credited(a.session, b.session, e, row) else SameAccounts(a, b)
    ensures if credited then Credited(a.session, c.session, e, row) else SameAccounts(a, c)
    ensures credited ==> c.session.rows[e].telephone == b.session.rows[e].telephone
    ensures NewRowsLinked(b, c) && (Sound(b) ==> Sound(c))
  {
    hide Credited, Index.NeverBelow;
    LinkedIff(b, c, e);
    CreditStays(a, b, c, e, row, credited);
    if Sound(b) {
      LinkedStaysBounded(b, c);
    }
  }

  lemma SessionRowGone(src0: Db, src1: Db, src2: Db, c: int)
    requires src2 == src1.(session := src2.session) && Spared(src0, src1, c)
    ensures Spared(src0, src2, c) && (Emptied(src2, c) <==> Emptied(src1, c))
  {}

  ghost predicate SamePhones(norm: string -> string, rows: map<int, SessionRow>, dst: Table<SessionRow>,
                             target: map<int, int>) {
    target.Keys <= rows.Keys &&
    forall c :: c in target ==> target[c] in dst.rows && norm(dst.rows[target[c]].telephone) == norm(rows[c].telephone)
  }

  /** Each conversation in `credited` was added to one with the same number. */
  ghost predicate Settled(norm: string -> string, rows: map<int, SessionRow>, dst0: Table<SessionRow>,
                          dst: Table<SessionRow>, credited: map<int, int>) {
    Accounted(rows, dst0, dst, credited) && SamePhones(norm, rows, dst, credited)
  }

  lemma SettledStart(norm: string -> string, rows: map<int, SessionRow>, dst: Table<SessionRow>)
    ensures Settled(norm, rows, dst, dst, map[])
  {
    AccountedStart(rows, dst);
  }

  lemma SettledCredit(norm: string -> string, rows: map<int, SessionRow>, dst0: Table<SessionRow>,
                      dst1: Table<SessionRow>, dst2: Table<SessionRow>, credited: map<int, int>, c: int, e: int)
    requires Settled(norm, rows, dst0, dst1, credited) && c in rows && c !in credited
    requires Credited(dst1, dst2, e, rows[c]) && norm(dst2.rows[e].telephone) == norm(rows[c].telephone)
    ensures Settled(norm, rows, dst0, dst2, credited[c := e])
  {
    AccountedStep(rows, dst0, dst1, dst2, credited, c, e);
    forall k | k in credited && credited[k] != e
      ensures credited[k] in dst2.rows && dst2.rows[credited[k]].telephone == dst1.rows[credited[k]].telephone
    {
      assert SameAccount(dst1.rows[credited[k]], dst2.rows[credited[k]]);
    }
  }

  lemma SettledSame(norm: string -> string, rows: map<int, SessionRow>, dst0: Table<SessionRow>,
                    dst1: Table<SessionRow>, dst2: Table<SessionRow>, credited: map<int, int>)
    requires Settled(norm, rows, dst0, dst1, credited) && dst1.rows.Keys == dst2.rows.Keys
    requires forall e :: e in dst1.rows ==> SameAccount(dst1.rows[e], dst2.rows[e])
    ensures Settled(norm, rows, dst0, dst2, credited)
  {
    AccountedSame(rows, dst0, dst1, dst2, credited);
    forall k | k in credited ensures dst2.rows[credited[k]].telephone == dst1.rows[credited[k]].telephone {
      assert SameAccount(dst1.rows[credited[k]], dst2.rows[credited[k]]);
    }
  }

  /** The counts of conversations whose update failed, which no destination count includes. */
  ghost function Missing(t: Table<SessionRow>, missed: set<int>): int {
    Sum(Only(Counts(t), missed))
  }

  lemma SettledTotal(norm: string -> string, src0: Table<SessionRow>, dst0: Table<SessionRow>,
                     dst: Table<SessionRow>, credited: map<int, int>, missed: set<int>)
    requires Settled(norm, src0.rows, dst0, dst, credited)
    requires missed !! credited.Keys && missed + credited.Keys == src0.rows.Keys
    ensures Sum(Counts(dst)) == Sum(Counts(dst0)) + Sum(Counts(src0)) - Missing(src0, missed)
  {
    SumSplit(Counts(src0), missed);
    assert Counts(src0) - missed == Weights(src0.rows, credited);
  }

  /** What became of the conversations: those credited and into which, those whose update failed, those
      with messages or rcs rows left in the source, and those whose own row is still there. */
  datatype Outcome = Outcome(credited: map<int, int>, missed: set<int>, left: set<int>, kept: set<int>)

  /** The outcome of the conversations in `seen` is exactly what the stores show. */
  ghost predicate Books(norm: string -> string, rows: map<int, SessionRow>, dst0: Table<SessionRow>, src: Db,
                        dst: Table<SessionRow>, seen: set<int>, o: Outcome) {
    && seen <= rows.Keys
    && Settled(norm, rows, dst0, dst, o.credited)
    && o.missed !! o.credited.Keys && o.missed + o.credited.Keys == seen
    && o.left <= seen && (forall c <- seen :: c in o.left <==> !Emptied(src, c))
    && o.kept <= seen && src.session.rows.Keys == rows.Keys - seen + o.kept
  }

  function Noted(o: Outcome, c: int, e: int, credited: bool, left: bool, kept: bool): Outcome {
    Outcome(if credited then o.credited[c := e] else o.credited, if credited then o.missed else o.missed + {c},
            if left then o.left + {c} else o.left, if kept then o.kept + {c} else o.kept)
  }

  lemma SettledStep(norm: string -> string, rows: map<int, SessionRow>, dst0: Table<SessionRow>, dst1: Db, dst2: Db,
                    o: Outcome, c: int, e: int, credited: bool, left: bool, kept: bool)
    requires Settled(norm, rows, dst0, dst1.session, o.credited) && c in rows && c !in o.credited
    requires credited ==> Credited(dst1.session, dst2.session, e, rows[c])
    requires credited ==> norm(dst2.session.rows[e].telephone) == norm(rows[c].telephone)
    requires !credited ==> SameAccounts(dst1, dst2)
    ensures Settled(norm, rows, dst0, dst2.session, Noted(o, c, e, credited, left, kept).credited)
  {
    if credited {
      SettledCredit(norm, rows, dst0, dst1.session, dst2.session, o.credited, c, e);
    } else {
      SettledSame(norm, rows, dst0, dst1.session, dst2.session, o.credited);
    }
  }

  lemma BooksStep(norm: string -> string, rows: map<int, SessionRow>, dst0: Table<SessionRow>, src1: Db, dst1: Db,
                  src2: Db, dst2: Db, seen: set<int>, o: Outcome, c: int, e: int, credited: bool, left: bool,
                    kept: bool)
    requires Books(norm, rows, dst0, src1, dst1.session, seen, o) && c in rows && c !in seen
    requires Settled(norm, rows, dst0, dst2.session, Noted(o, c, e, credited, left, kept).credited)
    requires Within(src2.sms, src1.sms) && Within(src2.rcs, src1.rcs) && Spared(src1, src2, c)
    requires left <==> !Emptied(src2, c)
    requires src2.session == if kept then src1.session else src1.session.Without({c})
    ensures Books(norm, rows, dst0, src2, dst2.session, seen + {c}, Noted(o, c, e, credited, left, kept))
  {
    hide Settled, Emptied;
    forall k <- seen ensures Emptied(src1, k) <==> Emptied(src2, k) {
      EmptiedStep(src1, src2, k, c);
    }
  }

  lemma BooksTotal(norm: string -> string, src0: Table<SessionRow>, dst0: Table<SessionRow>, src: Db,
                   dst: Table<SessionRow>, o: Outcome)
    requires Books(norm, src0.rows, dst0, src, dst, src0.rows.Keys, o)
    ensures Sum(Counts(dst)) == Sum(Counts(dst0)) + Sum(Counts(src0)) - Missing(src0, o.missed)
    ensures src.session.rows.Keys == o.kept
    ensures o.missed == {} ==> Missing(src0, o.missed) == 0
  {
    SettledTotal(norm, src0, dst0, dst, o.credited, o.missed);
    if o.missed == {} {
      SumZero(Only(Counts(src0), o.missed));
    }
  }

  /** What a copy in which nothing failed has done. */
  ghost predicate AllMerged(norm: string -> string, src0: Db, dst0: Db, src: Db, dst: Db, target: map<int, int>) {
    && Settled(norm, src0.session.rows, dst0.session, dst.session, target)
    && target.Keys == src0.session.rows.Keys
    && src.session.rows == map[]
    && (forall c :: c in target ==> Emptied(src, c))
    && Sum(Counts(dst.session)) == Sum(Counts(dst0.session)) + Sum(Counts(src0.session))
  }

  lemma BooksStart(norm: string -> string, src: Db, dst: Table<SessionRow>)
    ensures Books(norm, src.session.rows, dst, src, dst, {}, Outcome(map[], {}, {}, {}))
    ensures Settled(norm, src.session.rows, dst, dst, map[])
  {
    SettledStart(norm, src.session.rows, dst);
  }

  lemma BooksSettled(norm: string -> string, rows: map<int, SessionRow>, dst0: Table<SessionRow>, src: Db,
                     dst: Table<SessionRow>, seen: set<int>, o: Outcome)
    requires Books(norm, rows, dst0, src, dst, seen, o)
    ensures Settled(norm, rows, dst0, dst, o.credited) && o.credited.Keys <= seen <= rows.Keys
    ensures o.missed <= seen && o.left <= seen && o.kept <= seen
  {}

  lemma BooksClosed(norm: string -> string, src0: Db, dst0: Db, src: Db, dst: Db, o: Outcome)
    requires Books(norm, src0.session.rows, dst0.session, src, dst.session, src0.session.rows.Keys, o)
    requires o.missed == {} && o.left == {} && o.kept == {}
    ensures AllMerged(norm, src0, dst0, src, dst, o.credited)
  {
    BooksTotal(norm, src0.session, dst0.session, src, dst.session, o);
    assert o.credited.Keys == src0.session.rows.Keys;
    assert src.session.rows.Keys == {};
  }

  // ---------------------------------------------------------------- the turn of one conversation

  /** One conversation's part of a run: `between` is the moment after its rcs rows and before the rest of
      its messages. */
  datatype Turn = Turn(c: int, before: Progress, between: Progress, after: Progress) {
    ghost predicate Runs() {
      Reaches(before, between) && Reaches(between, after)
    }

    /** The copy of conversations ends with this one. */
    ghost predicate Ended() {
      DstFailed(before, after, Insert(Session)) || RcsHalted(before, between) || Halted(between, after)
    }

    ghost predicate Credits() {
      !DstFailed(before, after, Insert(Session)) && !DstFailed(before, after, Update(Session))
    }

    /** Some message or rcs row of it stays in the source. */
    ghost predicate Leaves() {
      RcsStuck(before, between) || Stuck(between, after)
    }

    /** Its own row stays in the source. */
    ghost predicate Keeps() {
      Ended() || SrcFailed(before, after, Delete(Session))
    }
  }

  ghost predicate NoneEnded(turns: seq<Turn>) {
    forall i :: 0 <= i < |turns| ==> !turns[i].Ended()
  }

  /** The turns follow one another without a gap. */
  ghost predicate Chained(turns: seq<Turn>, start: Progress, end: Progress) {
    && (forall i :: 0 <= i < |turns| ==> turns[i].Runs())
    && (forall i :: 0 < i < |turns| ==> turns[i].before == turns[i - 1].after)
    && (turns != [] ==> turns[0].before == start && turns[|turns| - 1].after == end)
  }

  ghost function Visited(turns: seq<Turn>): set<int> {
    set i | 0 <= i < |turns| :: turns[i].c
  }

  /** Each conversation has one turn. */
  ghost predicate Visits(turns: seq<Turn>, conversations: set<int>) {
    Visited(turns) == conversations && forall i, j :: 0 <= i < j < |turns| ==> turns[i].c != turns[j].c
  }

  /** The outcome of a conversation is what failed in its turn. */
  ghost predicate Told(turns: seq<Turn>, o: Outcome) {
    forall i :: 0 <= i < |turns| ==>
      (turns[i].c in o.missed <==> !turns[i].Credits()) &&
      (turns[i].c in o.left <==> turns[i].Leaves()) &&
      (turns[i].c in o.kept <==> turns[i].Keeps())
  }

  lemma VisitedStep(turns: seq<Turn>, turn: Turn)
    ensures Visited(turns + [turn]) == Visited(turns) + {turn.c}
  {
    var next := turns + [turn];
    forall c ensures c in Visited(next) <==> c in Visited(turns) + {turn.c} {
      if c in Visited(turns) {
        var i :| 0 <= i < |turns| && turns[i].c == c;
        assert next[i].c == c;
      }
      if c == turn.c {
        assert next[|turns|].c == c;
      }
    }
  }

  lemma ChainedStep(turns: seq<Turn>, turn: Turn, start: Progress)
    requires Chained(turns, start, turn.before) && turn.Runs()
    requires turns == [] ==> turn.before == start
    ensures Chained(turns + [turn], start, turn.after)
    ensures NoneEnded(turns + [turn]) <==> NoneEnded(turns) && !turn.Ended()
  {
    hide Reaches, SrcFailed, DstFailed, RcsHalted, Halted;
    var next := turns + [turn];
    assert next[|turns|] == turn;
    forall i | 0 <= i < |turns| ensures next[i] == turns[i] {}
    if NoneEnded(next) {
      forall i | 0 <= i < |turns| ensures !turns[i].Ended() {
        assert !next[i].Ended();
      }
    }
  }

  lemma ToldStep(turns: seq<Turn>, turn: Turn, o: Outcome, e: int)
    requires Told(turns, o) && turn.c !in Visited(turns)
    requires turn.c !in o.missed && turn.c !in o.left && turn.c !in o.kept
    ensures Told(turns + [turn], Noted(o, turn.c, e, turn.Credits(), turn.Leaves(), turn.Keeps()))
  {
    hide SrcFailed, DstFailed, RcsStuck, Stuck, RcsHalted, Halted;
    var next := turns + [turn];
    forall i | 0 <= i < |turns| ensures next[i] == turns[i] && turns[i].c != turn.c {
      assert turns[i].c in Visited(turns);
    }
  }

  lemma VisitsAll(turns: seq<Turn>, ids: seq<int>, conversations: set<int>)
    requires |turns| == |ids| && forall i :: 0 <= i < |ids| ==> turns[i].c == ids[i]
    requires forall c :: c in ids <==> c in conversations
    requires forall i, j :: 0 <= i < j < |ids| ==> ids[i] != ids[j]
    ensures Visits(turns, conversations)
  {
    forall c ensures c in Visited(turns) <==> c in conversations {
      if c in conversations {
        var i :| 0 <= i < |ids| && ids[i] == c;
        assert turns[i].c == c;
      }
      if c in Visited(turns) {
        var i :| 0 <= i < |turns| && turns[i].c == c;
        assert ids[i] in ids;
      }
    }
  }

  ghost predicate NoNegativeCount(session: Table<SessionRow>) {
    forall c :: c in session.rows ==> session.rows[c].unreadCount >= 0
  }

  /** A turn in which nothing failed leaves nothing. */
  lemma NothingFailedIn(start: Progress, turn: Turn)
    requires Reaches(start, turn.before) && turn.Runs() && FailedOnlyOn(start, turn.after, {})
    ensures FailedOnlyOn(start, turn.before, {})
    ensures !turn.Leaves() && !turn.Ended() && turn.Credits() && !turn.Keeps()
  {
    hide SrcFailed, DstFailed, Reaches, FailuresGrow;
    ReachesThen(turn.before, turn.between, turn.after);
    ReachesThen(start, turn.before, turn.after);
    assert forall st :: !SrcFailed(start, turn.after, st) && !DstFailed(start, turn.after, st);
    forall st ensures !SrcFailed(start, turn.before, st) && !DstFailed(start, turn.before, st) {
      assert !SrcFailed(start, turn.after, st) && !DstFailed(start, turn.after, st);
    }
  }

  /** A turn up to the end of its passes: the conversation is found, then its rows are copied, and each
      part fails on tables of its own. */
  lemma TurnPasses(turn: Turn, found: Progress)
    requires Reaches(turn.before, found) && Reaches(found, turn.between) && Reaches(turn.between, turn.after)
    requires Reaches(found, turn.after) && NewRowsLinked(turn.before.dst, found.dst)
    requires FailedOnlyOn(turn.before, found, {Session}) && forall st :: !SrcFailed(turn.before, found, st)
    requires FailedOnlyOn(found, turn.between, {SmsMmsInfo, RcsInfo, MmsPart, RiskUrlRecord})
    requires FailedOnlyOn(turn.between, turn.after, {SmsMmsInfo, MmsPart, RiskUrlRecord})
    ensures turn.Runs() && Reaches(turn.before, turn.after)
    ensures NewRowsLinked(found.dst, turn.after.dst) ==> NewRowsLinked(turn.before.dst, turn.after.dst)
    ensures turn.Credits() <==>
      !DstFailed(turn.before, found, Insert(Session)) && !DstFailed(turn.before, found, Update(Session))
    ensures turn.Ended() <==>
      DstFailed(turn.before, found, Insert(Session)) ||
      RcsHalted(found, turn.between) || Halted(turn.between, turn.after)
    ensures turn.Leaves() <==> RcsStuck(found, turn.between) || Stuck(turn.between, turn.after)
    ensures turn.Keeps() <==> turn.Ended()
    ensures !SrcFailed(turn.before, turn.after, Select(Session))
  {
    hide SrcFailed, DstFailed, Reaches, NewRowsLinked;
    ReachesThen(turn.before, found, turn.between);
    ReachesThen(turn.before, turn.between, turn.after);
    ReachesThen(turn.before, found, turn.after);
  }

  /** A turn that comes to its end: the delete of the conversation's own row settles whether that stays. */
  lemma TurnDeletes(turn: Turn, after: Progress, ok: bool)
    requires turn.Runs() && Reaches(turn.before, turn.after) && Reaches(turn.after, after) && !turn.Ended()
    requires NewRowsLinked(turn.before.dst, turn.after.dst) && after.dst == turn.after.dst
    requires !turn.Keeps() && !SrcFailed(turn.before, turn.after, Select(Session))
    requires after.srcFailed == Counted(turn.after.srcFailed, Delete(Session), ok)
    requires after.dstFailed == turn.after.dstFailed
    ensures var whole := turn.(after := after);
      && whole.Runs() && Reaches(turn.before, after) && NewRowsLinked(turn.before.dst, after.dst)
      && !whole.Ended() && (whole.Credits() <==> turn.Credits()) && (whole.Leaves() <==> turn.Leaves())
      && (whole.Keeps() <==> !ok) && !SrcFailed(turn.before, after, Select(Session))
  {
    hide SrcFailed, DstFailed, Reaches, NewRowsLinked, Stuck, Halted, RcsStuck, RcsHalted, Counted, FailuresGrow;
    ReachesKeeps(turn.between, turn.after);
    ReachesKeeps(turn.before, turn.after);
    ReachesThen(turn.before, turn.after, after);
    ReachesThen(turn.between, turn.after, after);
    DeleteFails(turn.before, turn.after, after, Session, ok);
    DeleteFails(turn.between, turn.after, after, Session, ok);
  }

  // ---------------------------------------------------------------- a run over conversations

  /** What a run amounts to after the turns it has had, none of which ended it. */
  ghost predicate Ran(norm: string -> string, start: Progress, now: Progress, turns: seq<Turn>, o: Outcome) {
    && Books(norm, start.src.session.rows, start.dst.session, now.src, now.dst.session, Visited(turns), o)
    && Chained(turns, start, now) && Told(turns, o) && NoneEnded(turns) && (turns == [] ==> now == start)
    && !SrcFailed(start, now, Select(Session))
    && (o.missed != {} <==> DstFailed(start, now, Update(Session)))
    && (o.kept != {} <==> SrcFailed(start, now, Delete(Session)))
    && (FailedOnlyOn(start, now, {}) ==> o.left == {})
    && (Sound(start.dst) && NoNegativeCount(start.src.session) ==> Sound(now.dst))
  }

  lemma RanStart(norm: string -> string, start: Progress, now: Progress)
    ensures Chained([], start, now) && Told([], Outcome(map[], {}, {}, {})) && NoneEnded([])
    ensures Settled(norm, start.src.session.rows, start.dst.session, start.dst.session, map[])
    ensures now == start ==> Ran(norm, start, now, [], Outcome(map[], {}, {}, {}))
  {
    BooksStart(norm, start.src, start.dst.session);
    assert Visited([]) == {};
  }

  lemma NotVisited(turns: seq<Turn>, ids: seq<int>, i: nat)
    requires i == |turns| < |ids| && forall j :: 0 <= j < i ==> turns[j].c == ids[j]
    requires forall j, k :: 0 <= j < k < |ids| ==> ids[j] != ids[k]
    ensures ids[i] !in Visited(turns)
  {}

  lemma RanStep(norm: string -> string, start: Progress, turns: seq<Turn>, o: Outcome, turn: Turn, e: int)
    requires Ran(norm, start, turn.before, turns, o) && Reaches(start, turn.before) && turn.Runs()
    requires turn.c in start.src.session.rows && turn.c !in Visited(turns)
    requires Spared(turn.before.src, turn.after.src, turn.c)
    requires turn.Credits() ==>
      Credited(turn.before.dst.session, turn.after.dst.session, e, start.src.session.rows[turn.c]) &&
      norm(turn.after.dst.session.rows[e].telephone) == norm(start.src.session.rows[turn.c].telephone)
    requires !turn.Credits() ==> SameAccounts(turn.before.dst, turn.after.dst)
    requires !turn.Ended() ==> (turn.Leaves() <==> !Emptied(turn.after.src, turn.c))
    requires turn.after.src.session ==
      if turn.Keeps() then turn.before.src.session else turn.before.src.session.Without({turn.c})
    requires !SrcFailed(turn.before, turn.after, Select(Session))
    requires Sound(turn.before.dst) && start.src.session.rows[turn.c].unreadCount >= 0 ==> Sound(turn.after.dst)
    ensures var n := Noted(o, turn.c, e, turn.Credits(), turn.Leaves(), turn.Keeps());
      && Settled(norm, start.src.session.rows, start.dst.session, turn.after.dst.session, n.credited)
      && Chained(turns + [turn], start, turn.after) && Told(turns + [turn], n)
      && (NoneEnded(turns + [turn]) <==> !turn.Ended())
      && !SrcFailed(start, turn.after, Select(Session))
      && (!turn.Ended() ==> Ran(norm, start, turn.after, turns + [turn], n))
    ensures FailedOnlyOn(start, turn.after, {}) ==> !turn.Ended()
    ensures Sound(start.dst) && NoNegativeCount(start.src.session) ==> Sound(turn.after.dst)
  {
    hide Reaches, Books, Settled, Sound, Spared, Credited, SameAccounts, Emptied, Told, Chained, NoneEnded, Visited;
    hide SrcFailed, DstFailed, Stuck, Halted, RcsStuck, RcsHalted, FailedOnlyOn;
    var rows := start.src.session.rows;
    BooksSettled(norm, rows, start.dst.session, turn.before.src, turn.before.dst.session, Visited(turns), o);
    SettledStep(norm, rows, start.dst.session, turn.before.dst, turn.after.dst, o, turn.c, e, turn.Credits(),
      turn.Leaves(), turn.Keeps());
    VisitedStep(turns, turn);
    ChainedStep(turns, turn, start);
    ToldStep(turns, turn, o, e);
    ReachesThen(turn.before, turn.between, turn.after);
    ReachesThen(start, turn.before, turn.after);
    ReachesKeeps(turn.before, turn.after);
    if FailedOnlyOn(start, turn.after, {}) {
      NothingFailedIn(start, turn);
    }
    if !turn.Ended() {
      BooksStep(norm, rows, start.dst.session, turn.before.src, turn.before.dst, turn.after.src, turn.after.dst,
        Visited(turns), o, turn.c, e, turn.Credits(), turn.Leaves(), turn.Keeps());
    }
  }

  /** A run that has visited every conversation. */
  lemma RanAll(norm: string -> string, start: Progress, now: Progress, turns: seq<Turn>, o: Outcome)
    requires Ran(norm, start, now, turns, o) && Visits(turns, start.src.session.rows.Keys)
    requires Reaches(start, now)
    ensures Chained(turns, start, now) && Told(turns, o) && NoneEnded(turns) && !SrcFailed(start, now, Select(Session))
    ensures Books(norm, start.src.session.rows, start.dst.session, now.src, now.dst.session,
                  start.src.session.rows.Keys, o)
    ensures Settled(norm, start.src.session.rows, start.dst.session, now.dst.session, o.credited)
    ensures Sum(Counts(now.dst.session)) ==
      Sum(Counts(start.dst.session)) + Sum(Counts(start.src.session)) - Missing(start.src.session, o.missed)
    ensures o.missed != {} <==> DstFailed(start, now, Update(Session))
    ensures o.kept != {} <==> SrcFailed(start, now, Delete(Session))
    ensures Sound(start.dst) && NoNegativeCount(start.src.session) ==> Sound(now.dst)
    ensures FailedOnlyOn(start, now, {}) ==> AllMerged(norm, start.src, start.dst, now.src, now.dst, o.credited)
  {
    hide Books, Settled, Sound, Told, Chained, NoneEnded, Reaches, SrcFailed, DstFailed;
    BooksSettled(norm, start.src.session.rows, start.dst.session, now.src, now.dst.session, Visited(turns), o);
    BooksTotal(norm, start.src.session, start.dst.session, now.src, now.dst.session, o);
    if FailedOnlyOn(start, now, {}) {
      assert !DstFailed(start, now, Update(Session)) && !SrcFailed(start, now, Delete(Session));
      BooksClosed(norm, start.src, start.dst, now.src, now.dst, o);
    }
  }

  // ---------------------------------------------------------------- after the conversations

  lemma LaterRecords(a: Progress, b: Progress)
    requires Later(a, b)
    ensures !DstFailed(a, b, Insert(RiskUrlRecord)) ==> b.lost == a.lost
  {}

  lemma SoundStays(a: Progress, b: Progress, dst: Db)
    requires SameAccounts(b.dst, dst)
    requires Sound(a.dst) && NoNegativeCount(a.src.session) ==> Sound(b.dst)
    ensures Sound(a.dst) && NoNegativeCount(a.src.session) ==> Index.NeverBelow(dst)
  {}

  /** If nothing fails in a run, nothing fails in either part of it. */
  lemma NothingFails(a: Progress, b: Progress, c: Progress)
    requires Reaches(a, b) && Reaches(b, c) && FailedOnlyOn(a, c, {})
    ensures FailedOnlyOn(a, b, {}) && FailedOnlyOn(b, c, {})
    ensures !Stuck(a, b) && !Halted(a, b) && !RcsStuck(a, b) && !RcsHalted(a, b)
    ensures !Stuck(b, c) && !Halted(b, c) && !RcsStuck(b, c) && !RcsHalted(b, c)
  {
    hide SrcFailed, DstFailed, Reaches;
    ReachesThen(a, b, c);
    forall st
      ensures !SrcFailed(a, b, st) && !DstFailed(a, b, st) && !SrcFailed(b, c, st) && !DstFailed(b, c, st)
    {
      assert !SrcFailed(a, c, st) && !DstFailed(a, c, st);
    }
  }

  lemma EmptiedStay(src1: Db, src2: Db)
    requires Within(src2.sms, src1.sms) && Within(src2.rcs, src1.rcs)
    ensures forall c :: Emptied(src1, c) ==> Emptied(src2, c)
  {}

  lemma SameTotal(dst1: Db, dst2: Db)
    requires SameAccounts(dst1, dst2)
    ensures Sum(Counts(dst1.session)) == Sum(Counts(dst2.session))
  {
    forall e | e in dst1.session.rows
      ensures dst2.session.rows[e].messageCount == dst1.session.rows[e].messageCount
    {
      assert SameAccount(dst1.session.rows[e], dst2.session.rows[e]);
    }
    assert Counts(dst1.session) == Counts(dst2.session);
  }
}
