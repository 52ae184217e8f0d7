/** Bookkeeping of a merge of conversations: into which one each went, what that makes of the message
    counts, and which time each ends up with. */
module ConversationAccounts {
  import opened Common
  import opened SmsMmsTables
  import opened Sums

  ghost function Counts(t: Table<SessionRow>): map<int, int> {
    map e | e in t.rows :: t.rows[e].messageCount
  }

  /** One source conversation was added to conversation `e` of the destination, new or existing. */
  ghost predicate Credited(before: Table<SessionRow>, after: Table<SessionRow>, e: int, row: SessionRow) {
    && after.rows.Keys == before.rows.Keys + {e}
    && (forall k :: k in before.rows && k != e ==> SameAccount(before.rows[k], after.rows[k]))
    && if e in before.rows then Merged(before.rows[e], row, after.rows[e]) else SameAccount(row, after.rows[e])
  }

  /** The counts add up, and of the two the newer one gives the time and the preview. */
  ghost predicate Merged(stored: SessionRow, row: SessionRow, merged: SessionRow) {
    && merged.telephone == stored.telephone && merged.smsType == stored.smsType
    && merged.messageCount == stored.messageCount + row.messageCount
    && merged.time == (if row.time > stored.time then row.time else stored.time)
    && merged.preview == if row.time > stored.time then row.preview else stored.preview
  }

  /** A copied message touches no column of `session` but the unread count. */
  predicate SameAccount(a: SessionRow, b: SessionRow) {
    b == a.(unreadCount := b.unreadCount)
  }

  ghost function Weights(from: map<int, SessionRow>, target: map<int, int>): map<int, int>
    requires target.Keys <= from.Keys
  {
    map c | c in target :: from[c].messageCount
  }

  /** The source conversations that went into `e`, with their counts. */
  ghost function Share(from: map<int, SessionRow>, target: map<int, int>, e: int): map<int, int>
    requires target.Keys <= from.Keys
  {
    map c | c in target && target[c] == e :: from[c].messageCount
  }

  ghost function Base(t: Table<SessionRow>, e: int): int {
    if e in t.rows then t.rows[e].messageCount else 0
  }

  /** The latest of the conversation's own time and those merged into it. */
  ghost predicate TimeIsLatest(from: map<int, SessionRow>, before: Table<SessionRow>, target: map<int, int>, e: int,
      time: int)
    requires target.Keys <= from.Keys
  {
    && (e in before.rows ==> before.rows[e].time <= time)
    && (forall c :: c in target && target[c] == e ==> from[c].time <= time)
    && ((e in before.rows && before.rows[e].time == time) ||
        exists c :: c in target && target[c] == e && from[c].time == time)
  }

  /** `target` says into which conversation each source conversation went. */
  ghost predicate Accounted(from: map<int, SessionRow>, before: Table<SessionRow>, after: Table<SessionRow>,
      target: map<int, int>) {
    && target.Keys <= from.Keys
    && before.rows.Keys <= after.rows.Keys
    && (forall c :: c in target ==> target[c] in after.rows)
    && (forall e :: e in after.rows ==> after.rows[e].messageCount == Base(before, e) + Sum(Share(from, target, e)))
    && (forall e :: e in after.rows ==> TimeIsLatest(from, before, target, e, after.rows[e].time))
    && Sum(Counts(after)) == Sum(Counts(before)) + Sum(Weights(from, target))
  }

  lemma AccountedStart(from: map<int, SessionRow>, before: Table<SessionRow>)
    ensures Accounted(from, before, before, map[])
  {
    var none: map<int, int> := map[];
    forall e | e in before.rows ensures Sum(Share(from, none, e)) == 0 { SumZero(Share(from, none, e)); }
    SumZero(Weights(from, none));
  }

  lemma CreditTotal(before: Table<SessionRow>, after: Table<SessionRow>, e: int, row: SessionRow)
    requires Credited(before, after, e, row)
    ensures Sum(Counts(after)) == Sum(Counts(before)) + row.messageCount
  {
    SumPut(Counts(before), e, after.rows[e].messageCount);
    var expected := Counts(before)[e := after.rows[e].messageCount];
    forall k | k in after.rows ensures k in expected && expected[k] == Counts(after)[k] {
      if k != e { assert SameAccount(before.rows[k], after.rows[k]); }
    }
    assert Counts(after).Keys == expected.Keys;
    assert Counts(after) == expected;
  }

  lemma CreditShare(from: map<int, SessionRow>, target: map<int, int>, c: int, e: int, k: int)
    requires target.Keys <= from.Keys && c in from && c !in target
    ensures Sum(Share(from, target[c := e], k)) ==
      Sum(Share(from, target, k)) + if k == e then from[c].messageCount else 0
  {
    if k == e {
      SumPut(Share(from, target, k), c, from[c].messageCount);
      assert Share(from, target[c := e], k) == Share(from, target, k)[c := from[c].messageCount];
    } else {
      assert Share(from, target[c := e], k) == Share(from, target, k);
    }
  }

  lemma NoShare(from: map<int, SessionRow>, before: Table<SessionRow>, after: Table<SessionRow>, target: map<int,
      int>, e: int)
    requires Accounted(from, before, after, target) && e !in after.rows
    ensures Sum(Share(from, target, e)) == 0 && Base(before, e) == 0
  {
    assert forall c :: c in target ==> target[c] != e;
    SumZero(Share(from, target, e));
  }

  lemma CountStep(from: map<int, SessionRow>, before: Table<SessionRow>, middle: Table<SessionRow>,
                  after: Table<SessionRow>, target: map<int, int>, c: int, e: int, k: int)
    requires Accounted(from, before, middle, target) && c in from && c !in target
    requires Credited(middle, after, e, from[c]) && k in after.rows
    ensures after.rows[k].messageCount == Base(before, k) + Sum(Share(from, target[c := e], k))
  {
    CreditShare(from, target, c, e, k);
    if k !in middle.rows {
      NoShare(from, before, middle, target, k);
    } else if k != e {
      assert SameAccount(middle.rows[k], after.rows[k]);
    }
  }

  lemma AccountedTime(from: map<int, SessionRow>, before: Table<SessionRow>, after: Table<SessionRow>,
                      target: map<int, int>, e: int)
    requires Accounted(from, before, after, target) && e in after.rows
    ensures target.Keys <= from.Keys && TimeIsLatest(from, before, target, e, after.rows[e].time)
  {}

  lemma AccountedRanges(from: map<int, SessionRow>, before: Table<SessionRow>, after: Table<SessionRow>,
                        target: map<int, int>)
    requires Accounted(from, before, after, target)
    ensures target.Keys <= from.Keys && before.rows.Keys <= after.rows.Keys
    ensures forall c :: c in target ==> target[c] in after.rows
  {}

  lemma TimeStep(from: map<int, SessionRow>, before: Table<SessionRow>, middle: Table<SessionRow>,
                 after: Table<SessionRow>, target: map<int, int>, c: int, e: int, k: int)
    requires Accounted(from, before, middle, target) && c in from && c !in target
    requires Credited(middle, after, e, from[c]) && k in after.rows
    ensures TimeIsLatest(from, before, target[c := e], k, after.rows[k].time)
  {
    hide Accounted;
    AccountedRanges(from, before, middle, target);
    var next := target[c := e];
    var time := after.rows[k].time;
    if k in middle.rows {
      AccountedTime(from, before, middle, target, k);
      assert k != e ==> SameAccount(middle.rows[k], after.rows[k]);
      if time == middle.rows[k].time {
        if !(k in before.rows && before.rows[k].time == time) {
          var j :| j in target && target[j] == k && from[j].time == time;
          assert next[j] == k;
        }
      } else {
        assert k == e && next[c] == k && from[c].time == time;
      }
    } else {
      assert forall j :: j in target ==> target[j] != k;
      assert k == e && next[c] == k && from[c].time == time;
    }
  }

  lemma WeightStep(from: map<int, SessionRow>, target: map<int, int>, c: int, e: int)
    requires target.Keys <= from.Keys && c in from && c !in target
    ensures Sum(Weights(from, target[c := e])) == Sum(Weights(from, target)) + from[c].messageCount
  {
    SumPut(Weights(from, target), c, from[c].messageCount);
    assert Weights(from, target[c := e]) == Weights(from, target)[c := from[c].messageCount];
  }

  lemma AccountedStep(from: map<int, SessionRow>, before: Table<SessionRow>, middle: Table<SessionRow>,
                      after: Table<SessionRow>, target: map<int, int>, c: int, e: int)
    requires Accounted(from, before, middle, target) && c in from && c !in target
    requires Credited(middle, after, e, from[c])
    ensures Accounted(from, before, after, target[c := e])
  {
    forall k | k in after.rows
      ensures after.rows[k].messageCount == Base(before, k) + Sum(Share(from, target[c := e], k))
      ensures TimeIsLatest(from, before, target[c := e], k, after.rows[k].time)
    {
      CountStep(from, before, middle, after, target, c, e, k);
      TimeStep(from, before, middle, after, target, c, e, k);
    }
    CreditTotal(middle, after, e, from[c]);
    WeightStep(from, target, c, e);
  }

  /** A step that changes no account keeps the books. */
  lemma AccountedSame(from: map<int, SessionRow>, before: Table<SessionRow>, middle: Table<SessionRow>,
                      after: Table<SessionRow>, target: map<int, int>)
    requires Accounted(from, before, middle, target) && middle.rows.Keys == after.rows.Keys
    requires forall e :: e in middle.rows ==> SameAccount(middle.rows[e], after.rows[e])
    ensures Accounted(from, before, after, target)
  {
    forall e | e in after.rows
      ensures after.rows[e].messageCount == middle.rows[e].messageCount && after.rows[e].time == middle.rows[e].time
    {
      assert SameAccount(middle.rows[e], after.rows[e]);
    }
    assert Counts(after) == Counts(middle);
  }
}
