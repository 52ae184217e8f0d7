/** What a merge keeps, step by step: no row leaves the source unless the destination has it, only copies
    are added there, and each url record that left is accounted for. */
module MergeRelations {
  import opened SmsMmsTables

  // ---------------------------------------------------------------- what identifies a row

  /** The columns the duplicate check compares. */
  predicate SameMessage(a: SmsRow, b: SmsRow) {
    a.msgType == b.msgType && a.title == b.title && a.content == b.content && a.phone == b.phone &&
    a.startTime == b.startTime
  }

  predicate SameFile(a: PartRow, b: PartRow) {
    a.partType == b.partType && a.partSize == b.partSize && a.path == b.path
  }

  /** The duplicate check for parts compares the destination with the ids of the source. */
  predicate SamePart(a: PartRow, b: PartRow) {
    SameFile(a, b) && a.msgId == b.msgId && a.groupId == b.groupId && (a.rcsId > 0 ==> a.rcsId == b.rcsId)
  }

  predicate SameUrl(a: UrlRow, b: UrlRow) {
    a.url == b.url && a.createTime == b.createTime && a.msgId == b.msgId && a.sessionId == b.sessionId &&
    (a.rcsId > 0 ==> a.rcsId == b.rcsId)
  }

  /** The start time of the source row does not get to the duplicate check. */
  predicate SameRcs(a: RcsRow, b: RcsRow) {
    a.msgId == b.msgId && b.startTime == ""
  }

  /** Row `n` says what the message says. */
  ghost predicate IsMessage(db: Db, n: int, row: SmsRow) {
    && n in db.sms.rows
    && db.sms.rows[n].msgType == row.msgType && db.sms.rows[n].title == row.title
    && db.sms.rows[n].content == row.content && db.sms.rows[n].phone == row.phone
    && db.sms.rows[n].startTime == row.startTime
  }

  /** Row `n` names the part's file. */
  ghost predicate IsFile(db: Db, n: int, row: PartRow) {
    && n in db.part.rows
    && db.part.rows[n].partType == row.partType && db.part.rows[n].partSize == row.partSize
    && db.part.rows[n].path == row.path
  }

  /** Row `n` is the part itself, as the source names it. */
  ghost predicate IsPart(db: Db, n: int, row: PartRow) {
    && IsFile(db, n, row)
    && db.part.rows[n].msgId == row.msgId && db.part.rows[n].groupId == row.groupId
    && (row.rcsId > 0 ==> db.part.rows[n].rcsId == row.rcsId)
  }

  ghost predicate IsUrl(db: Db, n: int, row: UrlRow) {
    && n in db.url.rows
    && db.url.rows[n].url == row.url && db.url.rows[n].createTime == row.createTime
    && db.url.rows[n].msgId == row.msgId && db.url.rows[n].sessionId == row.sessionId
    && (row.rcsId > 0 ==> db.url.rows[n].rcsId == row.rcsId)
  }

  ghost predicate IsRcs(db: Db, n: int, row: RcsRow) {
    n in db.rcs.rows && db.rcs.rows[n].msgId == row.msgId && db.rcs.rows[n].startTime == ""
  }

  ghost predicate HasMessage(db: Db, row: SmsRow) {
    exists n :: IsMessage(db, n, row)
  }

  ghost predicate HasRcs(db: Db, row: RcsRow) {
    exists n :: n in db.rcs.rows && db.rcs.rows[n].msgId == row.msgId
  }

  ghost predicate HasFile(db: Db, row: PartRow) {
    exists n :: IsFile(db, n, row)
  }

  ghost predicate HasPart(db: Db, row: PartRow) {
    exists n :: IsPart(db, n, row)
  }

  ghost predicate HasUrl(db: Db, row: UrlRow) {
    exists n :: IsUrl(db, n, row)
  }

  ghost predicate KnowsRcs(db: Db, row: RcsRow) {
    exists n :: IsRcs(db, n, row)
  }

  /** A copy differs from its original in the ids it is attached to, and in nothing else. */
  ghost predicate IsSmsCopy(original: SmsRow, row: SmsRow) {
    row == original.(sessionId := row.sessionId, groupId := row.groupId, rcsId := row.rcsId)
  }

  ghost predicate IsRcsCopy(original: RcsRow, row: RcsRow) {
    row == original.(sessionId := row.sessionId, groupId := row.groupId)
  }

  ghost predicate IsPartCopy(original: PartRow, row: PartRow) {
    row == original.(msgId := row.msgId, groupId := row.groupId, rcsId := row.rcsId)
  }

  // ---------------------------------------------------------------- what every step keeps

  ghost predicate Within<R>(small: Table<R>, big: Table<R>) {
    forall k :: k in small.rows ==> k in big.rows && small.rows[k] == big.rows[k]
  }

  // ---------------------------------------------------------------- url records

  /** What a record says, apart from the ids it is attached to. */
  type Link = (string, string)

  function LinkOf(row: UrlRow): Link {
    (row.url, row.createTime)
  }

  ghost function Links(t: Table<UrlRow>): set<Link> {
    set n | n in t.rows :: LinkOf(t.rows[n])
  }

  /** `links` are the records recognised or inserted so far, `lost` those whose insert failed: what the
      destination has is what it had and `links`, and every record that left the source is in one. */
  ghost predicate Records(s0: Table<UrlRow>, d0: Table<UrlRow>, s: Table<UrlRow>, d: Table<UrlRow>,
                          links: set<Link>, lost: set<Link>) {
    && Within(s, s0) && Within(d0, d)
    && Links(d) == Links(d0) + links
    && (forall u :: u in s0.rows && u !in s.rows ==> LinkOf(s0.rows[u]) in links + lost)
  }

  lemma RecordsThen(s0: Table<UrlRow>, d0: Table<UrlRow>, s1: Table<UrlRow>, d1: Table<UrlRow>,
                    s2: Table<UrlRow>, d2: Table<UrlRow>, links1: set<Link>, lost1: set<Link>,
                    links2: set<Link>, lost2: set<Link>)
    requires Records(s0, d0, s1, d1, links1, lost1) && Records(s1, d1, s2, d2, links2, lost2)
    requires links1 <= links2 && lost1 <= lost2
    ensures Records(s0, d0, s2, d2, links2, lost2)
  {
    forall u | u in s0.rows && u !in s2.rows ensures LinkOf(s0.rows[u]) in links2 + lost2 {
      if u in s1.rows {
        assert LinkOf(s1.rows[u]) in links2 + lost2;
      }
    }
  }

  /** A record that left the source is missing from the destination exactly if its insert failed, no
      other record saying the same got there, and none was there before. */
  lemma RecordLostIff(s0: Table<UrlRow>, d0: Table<UrlRow>, s: Table<UrlRow>, d: Table<UrlRow>,
                      links: set<Link>, lost: set<Link>, u: int)
    requires Records(s0, d0, s, d, links, lost) && u in s0.rows && u !in s.rows
    ensures LinkOf(s0.rows[u]) !in Links(d) <==>
      LinkOf(s0.rows[u]) in lost && LinkOf(s0.rows[u]) !in links && LinkOf(s0.rows[u]) !in Links(d0)
  {}

  /** Rows only ever leave the source, and what left is in the destination. */
  ghost predicate Carried(src0: Db, src: Db, dst: Db) {
    && Within(src.sms, src0.sms) && Within(src.rcs, src0.rcs) && Within(src.part, src0.part)
    && Within(src.session, src0.session)
    && (forall m :: m in src0.sms.rows && m !in src.sms.rows ==> HasMessage(dst, src0.sms.rows[m]))
    && (forall r :: r in src0.rcs.rows && r !in src.rcs.rows ==> HasRcs(dst, src0.rcs.rows[r]))
    && (forall p :: p in src0.part.rows && p !in src.part.rows ==> HasFile(dst, src0.part.rows[p]))
  }

  /** Rows are only ever added to the destination. */
  ghost predicate Grown(dst0: Db, dst: Db) {
    && Within(dst0.sms, dst.sms) && Within(dst0.rcs, dst.rcs) && Within(dst0.part, dst.part)
    && dst0.session.rows.Keys <= dst.session.rows.Keys && dst0.session.lastId <= dst.session.lastId
  }

  /** Each message, rcs row and part that is new in the destination belongs to a session or message there. */
  ghost predicate NewRowsLinked(dst0: Db, dst: Db) {
    && (forall m :: m in dst.sms.rows && m !in dst0.sms.rows ==> dst.sms.rows[m].sessionId in dst.session.rows)
    && (forall r :: r in dst.rcs.rows && r !in dst0.rcs.rows ==> dst.rcs.rows[r].sessionId in dst.session.rows)
    && NewPartsLinked(dst0, dst)
  }

  ghost predicate NewPartsLinked(dst0: Db, dst: Db) {
    forall p :: p in dst.part.rows && p !in dst0.part.rows ==> dst.part.rows[p].msgId in dst.sms.rows
  }

  /** All that is new in the destination belongs to one conversation, which need not exist. */
  ghost predicate AttachedTo(dst0: Db, dst: Db, s: int) {
    && (forall m :: m in dst.sms.rows && m !in dst0.sms.rows ==> dst.sms.rows[m].sessionId == s)
    && (forall r :: r in dst.rcs.rows && r !in dst0.rcs.rows ==> dst.rcs.rows[r].sessionId == s)
    && NewPartsLinked(dst0, dst)
  }

  lemma AttachedThen(dst0: Db, dst1: Db, dst2: Db, s: int)
    requires AttachedTo(dst0, dst1, s) && AttachedTo(dst1, dst2, s) && Grown(dst1, dst2)
    ensures AttachedTo(dst0, dst2, s)
  {}

  lemma AttachedByParts(dst1: Db, dst2: Db, s: int)
    requires NewRowsLinked(dst1, dst2) && dst2.sms == dst1.sms && dst2.rcs == dst1.rcs
    ensures AttachedTo(dst1, dst2, s)
  {}

  /** The messages new in the destination belong to rcs row `k` and group `g`, as far as given. */
  ghost predicate NewUnder(dst0: Db, dst: Db, k: int, g: int) {
    forall n :: n in dst.sms.rows && n !in dst0.sms.rows ==>
      (k != 0 ==> dst.sms.rows[n].rcsId == k) && (g != 0 ==> dst.sms.rows[n].groupId == g)
  }

  lemma NothingUnder(dst: Db, k: int, g: int)
    ensures NewUnder(dst, dst, k, g) && NewUnderRcs(dst, dst)
  {}

  lemma NewUnderThen(dst0: Db, dst1: Db, dst2: Db, k: int, g: int)
    requires NewUnder(dst0, dst1, k, g) && NewUnder(dst1, dst2, k, g) && Grown(dst1, dst2)
    ensures NewUnder(dst0, dst2, k, g)
  {}

  predicate KeepsRcsOf(src: Table<SmsRow>, m: int, row: SmsRow) {
    m in src.rows && row.rcsId == src.rows[m].rcsId && row == src.rows[m].(sessionId := row.sessionId,
      groupId := row.groupId)
  }

  /** Each message new in the destination keeps the rcs id of the one it copies. */
  ghost predicate NewKeepRcs(src: Table<SmsRow>, dst0: Table<SmsRow>, dst: Table<SmsRow>) {
    forall n :: n in dst.rows && n !in dst0.rows ==> exists m :: KeepsRcsOf(src, m, dst.rows[n])
  }

  lemma NewKeepsThen(src0: Table<SmsRow>, src1: Table<SmsRow>, dst0: Table<SmsRow>, dst1: Table<SmsRow>,
      dst2: Table<SmsRow>)
    requires NewKeepRcs(src0, dst0, dst1) && NewKeepRcs(src1, dst1, dst2) && Within(dst1, dst2) && Within(src1, src0)
    ensures NewKeepRcs(src0, dst0, dst2)
  {
    forall n | n in dst2.rows && n !in dst0.rows ensures exists m :: KeepsRcsOf(src0, m, dst2.rows[n]) {
      if n in dst1.rows {
        assert dst1.rows[n] == dst2.rows[n];
      } else {
        var m :| KeepsRcsOf(src1, m, dst2.rows[n]);
        assert KeepsRcsOf(src0, m, dst2.rows[n]);
      }
    }
  }

  lemma NewKeepsOne(src: Db, m: int, row: SmsRow, dst0: Db, dst: Db)
    requires m in src.sms.rows && src.sms.rows[m] == row
    requires forall n :: n in dst.sms.rows && n !in dst0.sms.rows ==>
      IsSmsCopy(row, dst.sms.rows[n]) && dst.sms.rows[n].rcsId == row.rcsId
    ensures NewKeepRcs(src.sms, dst0.sms, dst.sms)
  {
    forall n | n in dst.sms.rows && n !in dst0.sms.rows ensures KeepsRcsOf(src.sms, m, dst.sms.rows[n]) {}
  }

  /** No message or rcs row is in this group or a later one. */
  ghost predicate AboveGroups(db: Db, g: int) {
    (forall m :: m in db.sms.rows ==> db.sms.rows[m].groupId < g) &&
    forall r :: r in db.rcs.rows ==> db.rcs.rows[r].groupId < g
  }

  /** A group that nobody is in, or none. */
  ghost predicate GroupIsNew(db: Db, g: int) {
    g == 0 || AboveGroups(db, g)
  }

  ghost predicate NewInGroup(dst0: Db, dst: Db, g: int) {
    forall n :: n in dst.sms.rows && n !in dst0.sms.rows ==> dst.sms.rows[n].groupId == g
  }

  /** Each message new in the destination is in a group that was not used there before. */
  ghost predicate NewGroups(dst0: Db, dst: Db) {
    forall n :: n in dst.sms.rows && n !in dst0.sms.rows ==> GroupIsNew(dst0, dst.sms.rows[n].groupId)
  }

  /** The messages new in the destination belong to rcs row `k` and group `g`; without an rcs row they keep
      the rcs id they had, without a group they get a new one. */
  ghost predicate NewMessages(src: Db, dst0: Db, dst: Db, k: int, g: int) {
    NewUnder(dst0, dst, k, g) && (k == 0 ==> NewKeepRcs(src.sms, dst0.sms, dst.sms)) &&
    (g == 0 ==> NewGroups(dst0, dst))
  }

  lemma NoNewMessages(src: Db, dst: Db, k: int, g: int)
    ensures NewMessages(src, dst, dst, k, g)
  {}

  lemma NoGroupIsNew(dst: Db)
    ensures GroupIsNew(dst, 0)
  {}

  lemma NewMessagesUnder(src: Db, dst0: Db, dst: Db, k: int, g: int)
    requires NewMessages(src, dst0, dst, k, g)
    ensures NewUnder(dst0, dst, k, g)
  {}

  /** One more stretch of messages, in group `group` or, if that is none, in `next`. */
  lemma NewMessagesThen(src0: Db, src1: Db, dst0: Db, dst1: Db, dst2: Db, k: int, g: int, group: int, next: int)
    requires NewMessages(src0, dst0, dst1, k, g) && NewMessages(src1, dst1, dst2, k, group)
    requires NewInGroup(dst1, dst2, next) && (group != 0 ==> next == group) && (g != 0 ==> group == g)
    requires (g == 0 ==> GroupIsNew(dst0, group)) && (group == 0 ==> GroupIsNew(dst1, next))
    requires Grown(dst0, dst1) && Grown(dst1, dst2) && Within(src1.sms, src0.sms)
    ensures NewMessages(src0, dst0, dst2, k, g) && (g == 0 ==> GroupIsNew(dst0, next))
  {
    NewUnderThen(dst0, dst1, dst2, k, g);
    if k == 0 { NewKeepsThen(src0.sms, src1.sms, dst0.sms, dst1.sms, dst2.sms); }
    if g == 0 {
      GroupStaysNew(dst0, dst1, next);
      NewGroupsThen(dst0, dst1, dst2, next);
    }
  }

  lemma GroupStaysNew(dst0: Db, dst1: Db, g: int)
    requires Grown(dst0, dst1)
    ensures GroupIsNew(dst1, g) ==> GroupIsNew(dst0, g)
  {}

  lemma NewGroupsThen(dst0: Db, dst1: Db, dst2: Db, g: int)
    requires NewGroups(dst0, dst1) && NewInGroup(dst1, dst2, g) && GroupIsNew(dst0, g) && Grown(dst1, dst2)
    ensures NewGroups(dst0, dst2)
  {}

  /** One message: what was inserted is its copy, in a group that was given or is new. */
  lemma OneNewMessage(src: Db, m: int, row: SmsRow, dst0: Db, dst: Db, k: int, g: int, group: int)
    requires m in src.sms.rows && src.sms.rows[m] == row && NewUnder(dst0, dst, k, g) && NewInGroup(dst0, dst, group)
    requires forall n :: n in dst.sms.rows && n !in dst0.sms.rows ==> IsSmsCopy(row, dst.sms.rows[n])
    requires k == 0 ==> forall n ::
      n in dst.sms.rows && n !in dst0.sms.rows ==> dst.sms.rows[n].rcsId == row.rcsId
    requires g == 0 ==> GroupIsNew(dst0, group)
    ensures NewMessages(src, dst0, dst, k, g)
  {
    if k == 0 { NewKeepsOne(src, m, row, dst0, dst); }
  }

  /** Parts and records bring no message. */
  lemma NewMessagesApart(src: Db, dst0: Db, dst1: Db, dst2: Db, k: int, g: int, group: int)
    requires dst2.sms == dst1.sms && NewMessages(src, dst0, dst1, k, g) && NewInGroup(dst0, dst1, group)
    ensures NewMessages(src, dst0, dst2, k, g) && NewInGroup(dst0, dst2, group)
  {}

  /** Each url record new in the destination is attached to this session, message and, if any, rcs row. */
  ghost predicate UrlsUnder(dst0: Table<UrlRow>, dst: Table<UrlRow>, s: int, m: int, k: int) {
    forall n :: n in dst.rows && n !in dst0.rows ==>
      dst.rows[n].sessionId == s && dst.rows[n].msgId == m && (k > 0 ==> dst.rows[n].rcsId == k)
  }

  lemma UrlsUnderNone(dst: Table<UrlRow>, s: int, m: int, k: int)
    ensures UrlsUnder(dst, dst, s, m, k)
  {}

  lemma UrlsUnderThen(dst0: Table<UrlRow>, dst1: Table<UrlRow>, dst2: Table<UrlRow>, s: int, m: int, k: int)
    requires UrlsUnder(dst0, dst1, s, m, k) && UrlsUnder(dst1, dst2, s, m, k) && Within(dst1, dst2)
    ensures UrlsUnder(dst0, dst2, s, m, k)
  {}

  /** Each message new in the destination belongs to an rcs row there, and to its group. */
  ghost predicate NewUnderRcs(dst0: Db, dst: Db) {
    forall n :: n in dst.sms.rows && n !in dst0.sms.rows ==>
      dst.sms.rows[n].rcsId in dst.rcs.rows &&
      (dst.rcs.rows[dst.sms.rows[n].rcsId].groupId != 0 ==>
        dst.sms.rows[n].groupId == dst.rcs.rows[dst.sms.rows[n].rcsId].groupId)
  }

  lemma NewUnderRcsThen(dst0: Db, dst1: Db, dst2: Db)
    requires NewUnderRcs(dst0, dst1) && NewUnderRcs(dst1, dst2) && Grown(dst1, dst2)
    ensures NewUnderRcs(dst0, dst2)
  {}

  lemma NewUnderSince(dst0: Db, dst1: Db, dst2: Db, k: int, g: int)
    requires dst1.sms == dst0.sms && NewUnder(dst1, dst2, k, g)
    ensures NewUnder(dst0, dst2, k, g)
  {}

  lemma NewUnderOne(dst0: Db, dst: Db, k: int, g: int)
    requires NewUnder(dst0, dst, k, g) && k != 0 && k in dst.rcs.rows && dst.rcs.rows[k].groupId == g
    ensures NewUnderRcs(dst0, dst)
  {}

  ghost predicate NoNewRow(dst0: Db, dst: Db) {
    (forall m :: m in dst.sms.rows ==> m in dst0.sms.rows) && forall r :: r in dst.rcs.rows ==> r in dst0.rcs.rows
  }

  lemma LinkedIff(dst0: Db, dst: Db, s: int)
    requires AttachedTo(dst0, dst, s)
    ensures NewRowsLinked(dst0, dst) <==> NoNewRow(dst0, dst) || s in dst.session.rows
  {
    if m :| m in dst.sms.rows && m !in dst0.sms.rows {
      assert dst.sms.rows[m].sessionId == s;
    } else if r :| r in dst.rcs.rows && r !in dst0.rcs.rows {
      assert dst.rcs.rows[r].sessionId == s;
    }
  }

  /** What is new in the destination is a copy of something in the source. */
  ghost predicate OnlyCopies(src0: Db, dst0: Db, dst: Db) {
    && (forall n :: n in dst.sms.rows && n !in dst0.sms.rows ==> HasOriginal(src0, dst.sms.rows[n]))
    && (forall n :: n in dst.rcs.rows && n !in dst0.rcs.rows ==> HasRcsOriginal(src0, dst.rcs.rows[n]))
    && (forall n :: n in dst.part.rows && n !in dst0.part.rows ==> HasPartOriginal(src0, dst.part.rows[n]))
  }

  ghost predicate HasOriginal(src: Db, row: SmsRow) {
    exists m :: m in src.sms.rows && IsSmsCopy(src.sms.rows[m], row)
  }

  ghost predicate HasRcsOriginal(src: Db, row: RcsRow) {
    exists r :: r in src.rcs.rows && IsRcsCopy(src.rcs.rows[r], row)
  }

  ghost predicate HasPartOriginal(src: Db, row: PartRow) {
    exists p :: p in src.part.rows && IsPartCopy(src.part.rows[p], row)
  }

  ghost predicate Copied(src0: Db, dst0: Db, src: Db, dst: Db) {
    Carried(src0, src, dst) && Grown(dst0, dst) && OnlyCopies(src0, dst0, dst) && dst.Valid()
  }

  lemma MessageStays(dst1: Db, dst2: Db, row: SmsRow)
    requires HasMessage(dst1, row) && Within(dst1.sms, dst2.sms)
    ensures HasMessage(dst2, row)
  {
    var n :| IsMessage(dst1, n, row);
    assert IsMessage(dst2, n, row);
  }

  lemma FileStays(dst1: Db, dst2: Db, row: PartRow)
    requires HasFile(dst1, row) && Within(dst1.part, dst2.part)
    ensures HasFile(dst2, row)
  {
    var n :| IsFile(dst1, n, row);
    assert IsFile(dst2, n, row);
  }

  lemma CarriedThen(src0: Db, src1: Db, src2: Db, dst1: Db, dst2: Db)
    requires Carried(src0, src1, dst1) && Grown(dst1, dst2) && Carried(src1, src2, dst2)
    ensures Carried(src0, src2, dst2)
  {
    forall m | m in src0.sms.rows && m !in src2.sms.rows ensures HasMessage(dst2, src0.sms.rows[m]) {
      if m !in src1.sms.rows {
        MessageStays(dst1, dst2, src0.sms.rows[m]);
      }
    }
    forall r | r in src0.rcs.rows && r !in src2.rcs.rows ensures HasRcs(dst2, src0.rcs.rows[r]) {
      if r !in src1.rcs.rows {
        var n :| n in dst1.rcs.rows && dst1.rcs.rows[n].msgId == src0.rcs.rows[r].msgId;
        assert n in dst2.rcs.rows;
      }
    }
    forall p | p in src0.part.rows && p !in src2.part.rows ensures HasFile(dst2, src0.part.rows[p]) {
      if p !in src1.part.rows {
        FileStays(dst1, dst2, src0.part.rows[p]);
      }
    }
  }

  lemma OnlyCopiesThen(src0: Db, src1: Db, dst0: Db, dst1: Db, dst2: Db)
    requires OnlyCopies(src0, dst0, dst1) && Grown(dst1, dst2) && OnlyCopies(src1, dst1, dst2)
    requires Within(src1.sms, src0.sms) && Within(src1.rcs, src0.rcs) && Within(src1.part, src0.part)
    ensures OnlyCopies(src0, dst0, dst2)
  {
    forall n | n in dst2.sms.rows && n !in dst0.sms.rows ensures HasOriginal(src0, dst2.sms.rows[n]) {
      if n !in dst1.sms.rows {
        var m :| m in src1.sms.rows && IsSmsCopy(src1.sms.rows[m], dst2.sms.rows[n]);
        assert m in src0.sms.rows;
      }
    }
    forall n | n in dst2.rcs.rows && n !in dst0.rcs.rows ensures HasRcsOriginal(src0, dst2.rcs.rows[n]) {
      if n !in dst1.rcs.rows {
        var r :| r in src1.rcs.rows && IsRcsCopy(src1.rcs.rows[r], dst2.rcs.rows[n]);
        assert r in src0.rcs.rows;
      }
    }
    forall n | n in dst2.part.rows && n !in dst0.part.rows ensures HasPartOriginal(src0, dst2.part.rows[n]) {
      if n !in dst1.part.rows {
        var p :| p in src1.part.rows && IsPartCopy(src1.part.rows[p], dst2.part.rows[n]);
        assert p in src0.part.rows;
      }
    }
  }

  /** Steps compose, which is all that the nested loops need. */
  lemma CopiedThen(src0: Db, dst0: Db, src1: Db, dst1: Db, src2: Db, dst2: Db)
    requires Copied(src0, dst0, src1, dst1) && Copied(src1, dst1, src2, dst2)
    ensures Copied(src0, dst0, src2, dst2)
    ensures NewRowsLinked(dst0, dst1) && NewRowsLinked(dst1, dst2) ==> NewRowsLinked(dst0, dst2)
  {
    CarriedThen(src0, src1, src2, dst1, dst2);
    OnlyCopiesThen(src0, src1, dst0, dst1, dst2);
  }

  lemma CopiedRefl(src: Db, dst: Db)
    requires dst.Valid()
    ensures Copied(src, dst, src, dst) && NewRowsLinked(dst, dst)
  {}

  /** The destination's records after one was recognised (`id` known), inserted (new) or neither (0). */
  lemma LinksAfter(d1: Table<UrlRow>, d2: Table<UrlRow>, row: UrlRow, id: int, links: set<Link>)
    requires links <= Links(d1)
    requires id == 0 ==> d2 == d1
    requires id != 0 ==> id in d2.rows && LinkOf(d2.rows[id]) == LinkOf(row)
    requires d2 == d1 || (id !in d1.rows && id in d2.rows && d2.rows == d1.rows[id := d2.rows[id]])
    ensures Links(d2) == Links(d1) + links + if id != 0 then {LinkOf(row)} else {}
  {
    forall n | n in d1.rows ensures LinkOf(d1.rows[n]) in Links(d2) {
      assert n in d2.rows && d2.rows[n] == d1.rows[n];
    }
  }

  // ---------------------------------------------------------------- what travels with a message

  /** The part has its file in the destination: it was there before, or it is attached to the message. */
  ghost predicate Filed(row: PartRow, dst0: Db, dst: Db, msgId: int, rcsId: int, groupId: int) {
    exists n :: IsFile(dst, n, row) && (n in dst0.part.rows || AttachedPart(dst.part.rows[n], msgId, rcsId, groupId))
  }

  ghost predicate AttachedPart(row: PartRow, msgId: int, rcsId: int, groupId: int) {
    row.msgId == msgId && row.rcsId == rcsId && row.groupId == groupId
  }

  lemma FiledStays(row: PartRow, dst0: Db, dst1: Db, dst2: Db, msgId: int, rcsId: int, groupId: int)
    requires Filed(row, dst0, dst1, msgId, rcsId, groupId) && Within(dst1.part, dst2.part)
    ensures Filed(row, dst0, dst2, msgId, rcsId, groupId) && HasFile(dst2, row)
  {
    var n :| IsFile(dst1, n, row) && (n in dst0.part.rows || AttachedPart(dst1.part.rows[n], msgId, rcsId, groupId));
    assert IsFile(dst2, n, row);
  }

  ghost predicate AllFiled(rows: map<int, PartRow>, ids: seq<int>, dst0: Db, dst: Db, msgId: int, rcsId: int,
                           groupId: int) {
    forall j :: 0 <= j < |ids| ==> ids[j] in rows && Filed(rows[ids[j]], dst0, dst, msgId, rcsId, groupId)
  }

  lemma AllFiledNone(rows: map<int, PartRow>, ids: seq<int>, dst: Db, msgId: int, rcsId: int, groupId: int)
    ensures AllFiled(rows, ids[..0], dst, dst, msgId, rcsId, groupId) && ids[..|ids|] == ids
  {}

  lemma AllFiledStep(rows: map<int, PartRow>, ids: seq<int>, i: nat, dst0: Db, dst1: Db, dst2: Db, msgId: int,
                     rcsId: int, groupId: int)
    requires i < |ids| && ids[i] in rows && AllFiled(rows, ids[..i], dst0, dst1, msgId, rcsId, groupId)
    requires Within(dst1.part, dst2.part) && PartsAttached(dst0, dst1, msgId, rcsId, groupId)
    requires Filed(rows[ids[i]], dst1, dst2, msgId, rcsId, groupId)
    ensures AllFiled(rows, ids[..i + 1], dst0, dst2, msgId, rcsId, groupId)
  {
    hide Filed;
    forall j | 0 <= j < i ensures Filed(rows[ids[j]], dst0, dst2, msgId, rcsId, groupId) {
      assert ids[..i][j] == ids[j];
      FiledStays(rows[ids[j]], dst0, dst1, dst2, msgId, rcsId, groupId);
    }
    FiledSince(rows[ids[i]], dst0, dst1, dst2, msgId, rcsId, groupId);
  }

  lemma AllFiledEach(rows: map<int, PartRow>, ids: seq<int>, dst0: Db, dst: Db, msgId: int, rcsId: int, groupId: int)
    requires AllFiled(rows, ids, dst0, dst, msgId, rcsId, groupId)
    ensures forall p {:trigger Filed(rows[p], dst0, dst, msgId, rcsId, groupId)} ::
      p in ids ==> p in rows && Filed(rows[p], dst0, dst, msgId, rcsId, groupId)
  {
    hide Filed;
    forall p | p in ids ensures p in rows && Filed(rows[p], dst0, dst, msgId, rcsId, groupId) {
      var j :| 0 <= j < |ids| && ids[j] == p;
    }
  }

  /** The parts new in the destination are attached to one message. */
  ghost predicate PartsAttached(dst0: Db, dst: Db, msgId: int, rcsId: int, groupId: int) {
    forall n :: n in dst.part.rows && n !in dst0.part.rows ==> AttachedPart(dst.part.rows[n], msgId, rcsId, groupId)
  }

  /** A part recognised, or inserted under the new ids. */
  lemma FiledAt(row: PartRow, dst0: Db, dst: Db, n: int, msgId: int, rcsId: int, groupId: int)
    requires IsFile(dst, n, row)
    requires dst == dst0 || (n !in dst0.part.rows && dst.part.rows[n].groupId == groupId &&
      dst.part.rows[n].msgId == msgId && dst.part.rows[n].rcsId == rcsId)
    ensures Filed(row, dst0, dst, msgId, rcsId, groupId)
  {}

  lemma PartsAttachedNone(dst: Db, msgId: int, rcsId: int, groupId: int)
    ensures PartsAttached(dst, dst, msgId, rcsId, groupId)
  {}

  lemma PartsAttachedThen(dst0: Db, dst1: Db, dst2: Db, msgId: int, rcsId: int, groupId: int)
    requires PartsAttached(dst0, dst1, msgId, rcsId, groupId) && PartsAttached(dst1, dst2, msgId, rcsId, groupId)
    requires Within(dst1.part, dst2.part)
    ensures PartsAttached(dst0, dst2, msgId, rcsId, groupId)
  {}

  /** Copying records leaves the parts where they are. */
  lemma FiledApart(src0: Db, dst0: Db, dst1: Db, dst2: Db, msgId: int, rcsId: int, groupId: int)
    requires dst2.part == dst1.part
    ensures forall p {:trigger Filed(src0.part.rows[p], dst0, dst2, msgId, rcsId, groupId)} ::
      p in src0.part.rows && Filed(src0.part.rows[p], dst0, dst1, msgId, rcsId, groupId) ==>
      Filed(src0.part.rows[p], dst0, dst2, msgId, rcsId, groupId)
  {
    forall p | p in src0.part.rows && Filed(src0.part.rows[p], dst0, dst1, msgId, rcsId, groupId)
      ensures Filed(src0.part.rows[p], dst0, dst2, msgId, rcsId, groupId)
    {
      FiledStays(src0.part.rows[p], dst0, dst1, dst2, msgId, rcsId, groupId);
    }
  }

  lemma FiledBefore(src0: Db, dst0: Db, dst1: Db, dst2: Db, msgId: int, rcsId: int, groupId: int)
    requires dst1.part == dst0.part && Within(dst1.part, dst2.part)
    ensures forall p {:trigger Filed(src0.part.rows[p], dst0, dst2, msgId, rcsId, groupId)} ::
      p in src0.part.rows && Filed(src0.part.rows[p], dst1, dst2, msgId, rcsId, groupId) ==>
      Filed(src0.part.rows[p], dst0, dst2, msgId, rcsId, groupId)
  {
    forall p | p in src0.part.rows && Filed(src0.part.rows[p], dst1, dst2, msgId, rcsId, groupId)
      ensures Filed(src0.part.rows[p], dst0, dst2, msgId, rcsId, groupId)
    {
      FiledSince(src0.part.rows[p], dst0, dst1, dst2, msgId, rcsId, groupId);
    }
  }

  lemma FiledSince(row: PartRow, dst0: Db, dst1: Db, dst2: Db, msgId: int, rcsId: int, groupId: int)
    requires Filed(row, dst1, dst2, msgId, rcsId, groupId)
    requires PartsAttached(dst0, dst1, msgId, rcsId, groupId) && Within(dst1.part, dst2.part)
    ensures Filed(row, dst0, dst2, msgId, rcsId, groupId)
  {
    var n :| IsFile(dst2, n, row) && (n in dst1.part.rows || AttachedPart(dst2.part.rows[n], msgId, rcsId, groupId));
  }

  /** The part's group, and the rcs row `k` it belongs to or else its message. */
  ghost predicate IsPartOf(row: PartRow, groupId: int, m: int, k: int) {
    row.groupId == groupId && (k > 0 ==> row.rcsId == k) && (k <= 0 ==> row.msgId == m)
  }

  ghost predicate IsUrlOf(row: UrlRow, sessionId: int, m: int, k: int) {
    row.sessionId == sessionId && row.msgId == m && (k > 0 ==> row.rcsId == k)
  }

  /** The parts of message `m`, of its group and looked for under rcs row `k` or under its own id, have
      their files in the destination. */
  ghost predicate PartsArrived(src0: Db, dst: Db, m: int, k: int)
    requires m in src0.sms.rows
  {
    forall p :: p in src0.part.rows && IsPartOf(src0.part.rows[p], src0.sms.rows[m].groupId, m, k) ==>
      HasFile(dst, src0.part.rows[p])
  }

  /** The url records of message `m`, if `k` is an rcs row those with its id, are counted. */
  ghost predicate UrlsRecorded(src0: Db, recorded: set<Link>, m: int, k: int)
    requires m in src0.sms.rows
  {
    forall u :: u in src0.url.rows && IsUrlOf(src0.url.rows[u], src0.sms.rows[m].sessionId, m, k) ==>
      (src0.url.rows[u].url, src0.url.rows[u].createTime) in recorded
  }

  /** `k` is an rcs row of the message's conversation that takes it along: its own, or any if that row
      has no group; or `k` stands for none. */
  ghost predicate TakenBy(src0: Db, m: int, k: int)
    requires m in src0.sms.rows
  {
    k > 0 ==>
      && k in src0.rcs.rows && src0.rcs.rows[k].sessionId == src0.sms.rows[m].sessionId
      && (src0.rcs.rows[k].groupId != 0 ==>
           src0.sms.rows[m].rcsId == k && src0.sms.rows[m].groupId == src0.rcs.rows[k].groupId)
  }

  lemma PartsArrivedThen(src0: Db, src1: Db, dst1: Db, dst2: Db, m: int, k: int)
    requires m in src1.sms.rows && Carried(src0, src1, dst1) && Within(dst1.part, dst2.part)
    requires PartsArrived(src1, dst2, m, k)
    ensures m in src0.sms.rows && PartsArrived(src0, dst2, m, k)
  {
    forall p | p in src0.part.rows && IsPartOf(src0.part.rows[p], src0.sms.rows[m].groupId, m, k)
      ensures HasFile(dst2, src0.part.rows[p])
    {
      if p !in src1.part.rows {
        FileStays(dst1, dst2, src0.part.rows[p]);
      }
    }
  }

  lemma PartsArrivedStay(src0: Db, dst1: Db, dst2: Db, m: int, k: int)
    requires m in src0.sms.rows && PartsArrived(src0, dst1, m, k) && Within(dst1.part, dst2.part)
    ensures PartsArrived(src0, dst2, m, k)
  {
    forall p | p in src0.part.rows && HasFile(dst1, src0.part.rows[p]) ensures HasFile(dst2, src0.part.rows[p]) {
      FileStays(dst1, dst2, src0.part.rows[p]);
    }
  }
}
