/** Tables reloaded from a file whenever its digest differs from the recorded one.  The new digest is
    first saved under a temporary key and promoted once the rows are committed; the old rows are
    deleted before the transaction begins.  A crash can come after any durable step. */
module DigestReload {
  import opened Common
  import opened Dedup

  /** One version of a file; hashes identify versions. */
  datatype File<K, V> = File(hash: string, entries: seq<(K, V)>)

  /** The durable state: the rows, and the two preferences, of which an empty one is absent. */
  datatype State<K, V> = State(table: map<K, V>, digest: string, temp: string)

  /** What goes wrong: reading, parsing, deleting the old rows, beginning, some inserts, committing. */
  datatype Faults = Faults(readOk: bool, parseOk: bool, cleared: bool, begun: bool, failed: set<nat>, committed: bool)

  const NO_FAULTS := Faults(true, true, true, true, {}, true)

  function ClearTempDigest<K, V>(st: State<K, V>): State<K, V> {
    st.(temp := "")
  }

  predicate Unchanged<K, V>(st: State<K, V>, file: File<K, V>, hashCheck: bool) {
    hashCheck && st.digest == file.hash
  }

  /** The rows a complete load of the file gives. */
  function RowsOf<K, V>(file: File<K, V>): map<K, V> {
    FirstWins(file.entries)
  }

  /** The rows that get in; they lose against rows that the delete left. */
  function Inserted<K, V>(file: File<K, V>, faults: Faults): map<K, V> {
    FirstWins(Surviving(file.entries, faults.failed))
  }

  function Stale<K, V>(st: State<K, V>, faults: Faults): map<K, V> {
    if faults.cleared then map[] else st.table
  }

  /** The durable states that a reload passes through, one for each step. */
  function Trace<K, V>(st: State<K, V>, file: File<K, V>, hashCheck: bool, faults: Faults): (states: seq<State<K, V>>)
    ensures |states| >= 1
  {
    if !faults.readOk || Unchanged(st, file, hashCheck) then [ClearTempDigest(st)]
    else
      var noted := if hashCheck then st.(temp := file.hash) else st;
      if !faults.parseOk then [noted, ClearTempDigest(noted)]
      else
        var emptied := noted.(table := Stale(st, faults));
        if !faults.begun || !faults.committed then [noted, emptied, ClearTempDigest(emptied)]
        else
          var filled := emptied.(table := Inserted(file, faults) + emptied.table);
          var promoted := if filled.temp != "" then filled.(digest := filled.temp) else filled;
          [noted, emptied, filled, promoted, ClearTempDigest(promoted)]
  }

  /** The state after the first `steps` steps of a reload, or after the whole of it. */
  function After<K, V>(st: State<K, V>, file: File<K, V>, hashCheck: bool, faults: Faults, steps: nat): State<K, V> {
    var states := Trace(st, file, hashCheck, faults);
    if steps == 0 then st else if steps < |states| then states[steps - 1] else states[|states| - 1]
  }

  /** The reload reported no error. */
  predicate Finished<K, V>(st: State<K, V>, file: File<K, V>, hashCheck: bool, faults: Faults) {
    faults.readOk && (Unchanged(st, file, hashCheck) || (faults.parseOk && faults.begun && faults.committed))
  }

  /** The rows there are rows of the file. */
  predicate Fits<K, V(==)>(table: map<K, V>, file: File<K, V>) {
    forall k <- table.Keys :: k in RowsOf(file) && RowsOf(file)[k] == table[k]
  }

  /** Of each key without a row, the first entry whose insert works says what the first entry says. */
  predicate Decides<K, V(==)>(file: File<K, V>, failed: set<nat>, table: map<K, V>) {
    forall i: nat :: i < |file.entries| && FirstOfKey(file.entries, {}, i) && file.entries[i].0 !in table ==>
      Decided(file.entries, failed, i)
  }

  /** What a load needs to end with the rows of the file: of the rows before, any that a failed delete
      left, and of the inserts, those that decide. */
  predicate Replaces<K, V(==)>(st: State<K, V>, file: File<K, V>, faults: Faults) {
    (faults.cleared || Fits(st.table, file)) && Decides(file, faults.failed, Stale(st, faults))
  }

  lemma ReplacesIff<K, V>(st: State<K, V>, file: File<K, V>, faults: Faults)
    ensures Inserted(file, faults) + Stale(st, faults) == RowsOf(file) <==> Replaces(st, file, faults)
    ensures faults.failed == {} ==> (Replaces(st, file, faults) <==> faults.cleared || Fits(st.table, file))
    ensures faults.cleared ==> (Replaces(st, file, faults) <==> Decides(file, faults.failed, map[]))
  {
    MakeUpIff(RowsOf(file), Stale(st, faults), Inserted(file, faults));
    MakeUpDecided(file.entries, faults.failed, Stale(st, faults));
    if faults.failed == {} {
      assert forall i: nat :: i < |file.entries| && FirstOfKey(file.entries, {}, i) ==> Decided(file.entries, {}, i);
    }
  }

  // ---------------------------------------------------------------- the invariant of one lifetime

  /** The versions of a file, oldest first: no hash comes back. */
  ghost predicate NeverRepeats<K(!new), V(!new)>(files: nat -> File<K, V>) {
    (forall m: nat :: files(m).hash != "") && (forall m: nat, n: nat :: files(m).hash == files(n).hash ==> m == n)
  }

  /** The recorded digest vouches for the rows if it is that of version `n`, and neither preference is
      the hash of a later version. */
  ghost predicate Trusted<K(!new), V(!new)>(st: State<K, V>, files: nat -> File<K, V>, n: nat) {
    (st.digest == files(n).hash ==> st.table == RowsOf(files(n))) &&
    (forall m: nat :: n < m ==> st.digest != files(m).hash && st.temp != files(m).hash)
  }

  lemma NewerVersion<K(!new), V(!new)>(st: State<K, V>, files: nat -> File<K, V>, n: nat, m: nat)
    requires Trusted(st, files, n) && n <= m
    ensures Trusted(st, files, m)
  {}

  /** An opening does no harm that ends before the digest is promoted, or commits the file's rows. */
  predicate Harmless<K, V(==)>(st: State<K, V>, file: File<K, V>, faults: Faults, steps: nat) {
    Unchanged(st, file, true) || !faults.readOk || !faults.parseOk || !faults.begun || !faults.committed ||
      steps <= 3 ||
    Replaces(st, file, faults)
  }

  /** Wherever an opening fails or crashes, what is recorded can be trusted, exactly if it was harmless. */
  lemma ReloadKeepsTrustIff<K(!new), V(!new)>(st: State<K, V>, files: nat -> File<K, V>, n: nat, faults: Faults,
      steps: nat)
    requires NeverRepeats(files) && Trusted(st, files, n)
    ensures Trusted(After(st, files(n), true, faults, steps), files, n) <==> Harmless(st, files(n), faults, steps)
    ensures faults.failed == {} ==> (Replaces(st, files(n), faults) <==> faults.cleared || Fits(st.table, files(n)))
    ensures faults.cleared ==> (Replaces(st, files(n), faults) <==> Decides(files(n), faults.failed, map[]))
  {
    hide RowsOf, Inserted, Replaces, Fits, Decides;
    ReplacesIff(st, files(n), faults);
  }

  /** An opening that finishes without error leaves the rows of the current file exactly if it found
      them loaded already, or no foreign row stayed and the inserts that worked decide every key. */
  lemma OpenLeavesCurrentRowsIff<K(!new), V(!new)>(st: State<K, V>, files: nat -> File<K, V>, n: nat, faults: Faults,
                                                  steps: nat)
    requires Trusted(st, files, n) && Finished(st, files(n), true, faults)
    requires steps >= |Trace(st, files(n), true, faults)|
    ensures After(st, files(n), true, faults, steps).table == RowsOf(files(n)) <==>
      st.digest == files(n).hash || Replaces(st, files(n), faults)
    ensures faults.failed == {} ==> (Replaces(st, files(n), faults) <==> faults.cleared || Fits(st.table, files(n)))
    ensures faults.cleared ==> (Replaces(st, files(n), faults) <==> Decides(files(n), faults.failed, map[]))
  {
    hide RowsOf, Inserted, Replaces, Fits, Decides;
    ReplacesIff(st, files(n), faults);
  }

  // ---------------------------------------------------------------- whole lifetimes

  /** One opening: the version of the file then, what fails, and after how many steps it stops. */
  datatype Open = Open(version: nat, faults: Faults, steps: nat)

  predicate InOrder(opens: seq<Open>, from: nat) {
    (forall i :: 0 <= i < |opens| ==> from <= opens[i].version) &&
    (forall i, j :: 0 <= i <= j < |opens| ==> opens[i].version <= opens[j].version)
  }

  function AfterOpen<K, V>(st: State<K, V>, files: nat -> File<K, V>, open: Open): State<K, V> {
    After(st, files(open.version), true, open.faults, open.steps)
  }

  function Lifetime<K, V>(st: State<K, V>, files: nat -> File<K, V>, opens: seq<Open>): State<K, V> {
    if opens == [] then st
    else AfterOpen(Lifetime(st, files, opens[..|opens| - 1]), files, opens[|opens| - 1])
  }

  /** Each opening of the run was harmless in the state it found. */
  predicate HarmlessRun<K, V(==)>(st: State<K, V>, files: nat -> File<K, V>, opens: seq<Open>) {
    forall i :: 0 <= i < |opens| ==>
      Harmless(Lifetime(st, files, opens[..i]), files(opens[i].version), opens[i].faults, opens[i].steps)
  }

  lemma HarmlessPrefix<K(!new), V(!new)>(st: State<K, V>, files: nat -> File<K, V>, opens: seq<Open>, n: nat)
    requires opens != [] && HarmlessRun(st, files, opens) && InOrder(opens, n)
    ensures var rest, last := opens[..|opens| - 1], opens[|opens| - 1];
      HarmlessRun(st, files, rest) && InOrder(rest, n) &&
      Harmless(Lifetime(st, files, rest), files(last.version), last.faults, last.steps) &&
      (if rest == [] then n else rest[|rest| - 1].version) <= last.version
  {
    hide Harmless, Lifetime;
    var rest := opens[..|opens| - 1];
    forall i | 0 <= i < |rest| ensures rest[..i] == opens[..i] {}
  }

  lemma {:induction false} LifetimeKeepsTrust<K(!new), V(!new)>(
    st: State<K, V>, files: nat -> File<K, V>, opens: seq<Open>, n: nat)
    requires NeverRepeats(files) && Trusted(st, files, n) && InOrder(opens, n) && HarmlessRun(st, files, opens)
    ensures Trusted(Lifetime(st, files, opens), files, if opens == [] then n else opens[|opens| - 1].version)
  {
    hide Trusted, Harmless, HarmlessRun, InOrder, After, NeverRepeats;
    if opens != [] {
      var rest, last := opens[..|opens| - 1], opens[|opens| - 1];
      HarmlessPrefix(st, files, opens, n);
      LifetimeKeepsTrust(st, files, rest, n);
      var before := Lifetime(st, files, rest);
      NewerVersion(before, files, if rest == [] then n else rest[|rest| - 1].version, last.version);
      ReloadKeepsTrustIff(before, files, last.version, last.faults, last.steps);
    }
  }

  /** However the earlier openings failed or crashed, if each was harmless, one that finishes without
      error leaves the first entry of each key of the current file, exactly if its own rows got in. */
  lemma EveryFinishedOpenIsCurrent<K(!new), V(!new)>(
    st: State<K, V>, files: nat -> File<K, V>, n: nat, opens: seq<Open>, last: Open)
    requires NeverRepeats(files) && Trusted(st, files, n) && InOrder(opens + [last], n) && HarmlessRun(st, files, opens)
    requires Finished(Lifetime(st, files, opens), files(last.version), true, last.faults)
    requires last.steps >= |Trace(Lifetime(st, files, opens), files(last.version), true, last.faults)|
    ensures var before := Lifetime(st, files, opens);
      AfterOpen(before, files, last).table == RowsOf(files(last.version)) <==>
      before.digest == files(last.version).hash || Replaces(before, files(last.version), last.faults)
    ensures var before, file := Lifetime(st, files, opens), files(last.version);
      && (last.faults.failed == {} ==>
           (Replaces(before, file, last.faults) <==> last.faults.cleared || Fits(before.table, file)))
      && (last.faults.cleared ==>
           (Replaces(before, file, last.faults) <==> Decides(file, last.faults.failed, map[])))
  {
    hide Trusted, Harmless, NeverRepeats, Replaces, Fits, Decides, HarmlessRun;
    var before := Lifetime(st, files, opens);
    assert forall i :: 0 <= i < |opens| ==> (opens + [last])[i] == opens[i];
    assert (opens + [last])[|opens|] == last;
    LifetimeKeepsTrust(st, files, opens, n);
    NewerVersion(before, files, if opens == [] then n else opens[|opens| - 1].version, last.version);
    OpenLeavesCurrentRowsIff(before, files, last.version, last.faults, last.steps);
  }

  /** The delete and the inserts of an opening work: then it is harmless wherever it stops. */
  lemma WorkingReloadIsHarmless<K(!new), V(!new)>(st: State<K, V>, file: File<K, V>, faults: Faults, steps: nat)
    requires faults.cleared && faults.failed == {}
    ensures Harmless(st, file, faults, steps)
  {
    ReplacesIff(st, file, faults);
  }

  /** A failed delete does harm: the opening finishes, and the digest vouches for a row that is not the
      file's. */
  lemma FailedDeleteBreaksTrust<K(!new), V(!new)>(st: State<K, V>, files: nat -> File<K, V>, n: nat, k: K)
    requires NeverRepeats(files) && Trusted(st, files, n) && st.digest != files(n).hash && k in st.table
    requires k in RowsOf(files(n)) ==> RowsOf(files(n))[k] != st.table[k]
    ensures var faults := NO_FAULTS.(cleared := false);
      Finished(st, files(n), true, faults) && !Trusted(After(st, files(n), true, faults, 5), files, n)
  {
    ReloadKeepsTrustIff(st, files, n, NO_FAULTS.(cleared := false), 5);
  }

  /** Versions that come back: after a failed load of `b`, which deleted the rows of `a`, an opening
      that finds version `c` and finishes leaves its rows exactly if `c` is not `a` and the inserts that
      worked decide every key, or it is `a` and has no rows. */
  lemma ReturningVersionIff<K(!new), V(!new)>(st: State<K, V>, a: File<K, V>, b: File<K, V>, c: File<K, V>,
                                              lost: Faults, next: Faults, steps: nat)
    requires st.digest == a.hash && st.table == RowsOf(a) && b.hash != a.hash && (c.hash == a.hash ==> c == a)
    requires lost.readOk && lost.parseOk && lost.cleared && (!lost.begun || !lost.committed)
    requires Finished(After(st, b, true, lost, 3), c, true, next) && steps >= 5
    ensures After(After(st, b, true, lost, 3), c, true, next, steps).table == RowsOf(c) <==>
      if c.hash == a.hash then RowsOf(a) == map[] else Decides(c, next.failed, map[])
  {
    hide RowsOf, Inserted, Decides;
    ReplacesIff(After(st, b, true, lost, 3), c, next);
  }

  // ---------------------------------------------------------------- the first load of a new database

  /** The digest and a temporary one may come from an earlier database.  What creating a new one leaves
      can be trusted exactly if the digest it ends with is not that of the file, or the inserts that
      worked decide every key, or nothing was committed and the file has no rows. */
  lemma CreateIsTrustedIff<K(!new), V(!new)>(st: State<K, V>, files: nat -> File<K, V>, n: nat, faults: Faults,
      steps: nat)
    requires NeverRepeats(files) && st.table == map[]
    requires forall m: nat :: n < m ==> st.digest != files(m).hash && st.temp != files(m).hash
    ensures var filled := faults.readOk && faults.parseOk && faults.begun && faults.committed && steps >= 3;
      var digest := if filled && steps >= 4 && st.temp != "" then st.temp else st.digest;
      Trusted(After(st, files(n), false, faults, steps), files, n) <==>
      digest != files(n).hash ||
        if filled then Decides(files(n), faults.failed, map[]) else RowsOf(files(n)) == map[]
  {
    hide RowsOf, Inserted, Decides;
    ReplacesIff(st, files(n), faults);
  }

  // ---------------------------------------------------------------- the callback

  /** One table with its two preferences; every durable step is recorded. */
  class GuardedTable<K(==), V> {
    var table: map<K, V>
    var digest: string
    var temp: string
    ghost var passed: seq<State<K, V>>

    constructor (digest: string, temp: string)
      ensures Current() == State(map[], digest, temp) && passed == []
    {
      table, this.digest, this.temp, passed := map[], digest, temp, [];
    }

    ghost function Current(): State<K, V>
      reads this
    {
      State(table, digest, temp)
    }

    ghost method Record()
      modifies this`passed
      ensures passed == old(passed) + [Current()]
    {
      passed := passed + [Current()];
    }

    method RefreshDigest()
      modifies this
      ensures table == old(table) && temp == "" && digest == if old(temp) != "" then old(temp) else old(digest)
      ensures passed == old(passed) + [State(table, digest, old(temp)), Current()]
    {
      if temp != "" {
        digest := temp;
      }
      Record();
      temp := "";
      Record();
    }

    method ClearTemp()
      modifies this`temp, this`passed
      ensures temp == "" && passed == old(passed) + [Current()]
    {
      temp := "";
      Record();
    }

    /** The rows that the inserts leave; they become durable with the commit only.  An insert fails on
        a conflict, or for a reason of its own. */
    method InsertAll(entries: seq<(K, V)>) returns (rows: map<K, V>, ghost failed: set<nat>)
      ensures rows == FirstWins(Surviving(entries, failed)) + table
    {
      rows := table;
      var fails: set<nat> := *;
      failed := fails;
      for i := 0 to |entries|
        invariant rows == FirstWins(Surviving(entries[..i], fails)) + table
      {
        SurvivingStep(entries, fails, i);
        if i !in fails {
          PlainInsert(Surviving(entries[..i], fails), table, entries[i]);
          if entries[i].0 !in rows {
            rows := rows[entries[i].0 := entries[i].1];
          }
        } else {
          assert Surviving(entries[..i], fails) + [] == Surviving(entries[..i], fails);
        }
      }
      assert entries[..|entries|] == entries;
    }

    /** Deletes the rows, then inserts the new ones in a transaction. */
    method Replace(file: File<K, V>) returns (ret: bool, ghost cleared: bool, ghost failed: set<nat>)
      modifies this
      ensures var emptied := if cleared then old(Current()).(table := map[]) else old(Current());
        var filled := emptied.(table := FirstWins(Surviving(file.entries, failed)) + emptied.table);
        var promoted := if filled.temp != "" then filled.(digest := filled.temp) else filled;
        passed == old(passed) +
          (if ret then [emptied, filled, promoted, ClearTempDigest(promoted)] else [emptied, ClearTempDigest(emptied)])
      ensures Current() == passed[|passed| - 1]
    {
      hide Surviving, FirstWins;
      var deleted: bool := *;
      cleared, failed := deleted, {};
      if deleted {
        table := map[];
      }
      Record();
      var begun: bool := *;
      if !begun {
        ClearTemp();
        return false, cleared, {};
      }
      var rows;
      rows, failed := InsertAll(file.entries);
      var committed: bool := *;
      if !committed {
        ClearTemp();
        return false, cleared, failed;
      }
      table := rows;
      Record();
      RefreshDigest();
      ret := true;
    }

    /** The reload passes through the states of its trace, the last of which is where it ends; so what
        holds of every state of a trace survives a crash at any point. */
    method InitData(file: File<K, V>, hashCheck: bool) returns (ret: bool, ghost faults: Faults)
      modifies this
      ensures passed == old(passed) + Trace(old(Current()), file, hashCheck, faults)
      ensures Current() == passed[|passed| - 1]
      ensures ret <==> Finished(old(Current()), file, hashCheck, faults)
    {
      var readOk, parseOk: bool := *, *;
      faults := Faults(readOk, parseOk, true, true, {}, true);
      if !readOk || (hashCheck && digest == file.hash) {
        ClearTemp();
        return readOk, faults;
      }
      if hashCheck {
        temp := file.hash;
      }
      Record();
      ghost var noted := Current();
      if !parseOk {
        ClearTemp();
        assert passed == old(passed) + [noted, Current()];
        return false, faults;
      }
      ghost var cleared, failed;
      ret, cleared, failed := Replace(file);
      faults := Faults(readOk, parseOk, cleared, ret, failed, ret);
    }
  }

  datatype NumMatch = NumMatch(name: string, mcc: string, mnc: string, numMatch: int, numMatchShort: int)

  datatype EccNum = EccNum(
    name: string, mcc: string, mnc: string, numeric: string, eccWithCard: string, eccNoCard: string, eccFake: string)

  type MccmncAndName = (string, string)

  function NumMatchFile(hash: string, infos: seq<NumMatch>): File<MccmncAndName, NumMatch> {
    File(hash, seq(|infos|, i requires 0 <= i < |infos| => ((infos[i].mcc + infos[i].mnc, infos[i].name), infos[i])))
  }

  function EccDataFile(hash: string, infos: seq<EccNum>): File<string, EccNum> {
    File(hash, seq(|infos|, i requires 0 <= i < |infos| => (infos[i].numeric, infos[i])))
  }

  /** The number-match table has one row for each code of country and operator and each name. */
  predicate NumAt(nums: seq<NumMatch>, failed: set<nat>, i: nat, k: MccmncAndName) {
    i < |nums| && i !in failed && nums[i].mcc + nums[i].mnc == k.0 && nums[i].name == k.1
  }

  /** The table of emergency numbers has one row for each number. */
  predicate EccAt(eccs: seq<EccNum>, failed: set<nat>, i: nat, k: string) {
    i < |eccs| && i !in failed && eccs[i].numeric == k
  }

  ghost predicate FirstNumAt(nums: seq<NumMatch>, failed: set<nat>, i: nat, k: MccmncAndName) {
    NumAt(nums, failed, i, k) && forall j: nat :: j < i ==> !NumAt(nums, failed, j, k)
  }

  ghost predicate FirstEccAt(eccs: seq<EccNum>, failed: set<nat>, i: nat, k: string) {
    EccAt(eccs, failed, i, k) && forall j: nat :: j < i ==> !EccAt(eccs, failed, j, k)
  }

  /** After a reload each key has its old row, if the delete failed, else its first entry in the file that
      got in, else none. */
  ghost predicate NumsLoaded(before: map<MccmncAndName, NumMatch>, after: map<MccmncAndName, NumMatch>,
      nums: seq<NumMatch>, faults: Faults) {
    forall k ::
      if !faults.cleared && k in before then k in after && after[k] == before[k]
      else
        (k in after ==> exists i: nat :: NumAt(nums, faults.failed, i, k)) &&
        forall i: nat :: FirstNumAt(nums, faults.failed, i, k) ==> k in after && after[k] == nums[i]
  }

  ghost predicate EccsLoaded(before: map<string, EccNum>, after: map<string, EccNum>, eccs: seq<EccNum>,
      faults: Faults) {
    forall k ::
      if !faults.cleared && k in before then k in after && after[k] == before[k]
      else
        (k in after ==> exists i: nat :: EccAt(eccs, faults.failed, i, k)) &&
        forall i: nat :: FirstEccAt(eccs, faults.failed, i, k) ==> k in after && after[k] == eccs[i]
  }

  /** A reload gets to commit the rows of a file with this hash. */
  predicate Reloads(digest: string, hash: string, hashCheck: bool, faults: Faults) {
    faults.readOk && !(hashCheck && digest == hash) && faults.parseOk && faults.begun && faults.committed
  }

  /** The digest recorded after it: that of the file, on creation one noted before if there was any. */
  function Recorded(digest: string, temp: string, hash: string, hashCheck: bool): string {
    if hashCheck then (if hash != "" then hash else digest) else if temp != "" then temp else digest
  }

  lemma ReloadEnds<K, V>(st: State<K, V>, file: File<K, V>, hashCheck: bool, faults: Faults)
    ensures var states := Trace(st, file, hashCheck, faults);
      var end := states[|states| - 1];
      end.temp == "" &&
      if Reloads(st.digest, file.hash, hashCheck, faults)
      then end.table == Inserted(file, faults) + Stale(st, faults) &&
        end.digest == Recorded(st.digest, st.temp, file.hash, hashCheck)
      else end.digest == st.digest
  {}

  lemma NumsLoad(st: State<MccmncAndName, NumMatch>, hash: string, nums: seq<NumMatch>, faults: Faults)
    ensures NumsLoaded(st.table, Inserted(NumMatchFile(hash, nums), faults) + Stale(st, faults), nums, faults)
  {
    var entries := NumMatchFile(hash, nums).entries;
    var after := Inserted(NumMatchFile(hash, nums), faults) + Stale(st, faults);
    forall k | faults.cleared || k !in st.table
      ensures (k in after ==> exists i: nat :: NumAt(nums, faults.failed, i, k))
      ensures forall i: nat :: FirstNumAt(nums, faults.failed, i, k) ==> k in after && after[k] == nums[i]
    {
      SurvivorsMeaning(entries, faults.failed, k);
      forall i: nat | i < |nums|
        ensures i !in faults.failed && entries[i].0 == k <==> NumAt(nums, faults.failed, i, k)
      {}
      forall i: nat | FirstNumAt(nums, faults.failed, i, k) ensures FirstOfKey(entries, faults.failed, i) {}
    }
  }

  lemma EccsLoad(st: State<string, EccNum>, hash: string, eccs: seq<EccNum>, faults: Faults)
    ensures EccsLoaded(st.table, Inserted(EccDataFile(hash, eccs), faults) + Stale(st, faults), eccs, faults)
  {
    var entries := EccDataFile(hash, eccs).entries;
    var after := Inserted(EccDataFile(hash, eccs), faults) + Stale(st, faults);
    forall k | faults.cleared || k !in st.table
      ensures (k in after ==> exists i: nat :: EccAt(eccs, faults.failed, i, k))
      ensures forall i: nat :: FirstEccAt(eccs, faults.failed, i, k) ==> k in after && after[k] == eccs[i]
    {
      SurvivorsMeaning(entries, faults.failed, k);
      forall i: nat | i < |eccs|
        ensures i !in faults.failed && entries[i].0 == k <==> EccAt(eccs, faults.failed, i, k)
      {}
      forall i: nat | FirstEccAt(eccs, faults.failed, i, k) ensures FirstOfKey(entries, faults.failed, i) {}
    }
  }

  class RdbGlobalParamsCallback {
    const numMatch: GuardedTable<MccmncAndName, NumMatch>
    const eccData: GuardedTable<string, EccNum>

    constructor (numMatch: GuardedTable<MccmncAndName, NumMatch>, eccData: GuardedTable<string, EccNum>)
      ensures this.numMatch == numMatch && this.eccData == eccData
    {
      this.numMatch, this.eccData := numMatch, eccData;
    }

    /** Reloads both tables, on creation whatever the digests; no failure is reported to the store. */
    method InitAll(numHash: string, nums: seq<NumMatch>, eccHash: string, eccs: seq<EccNum>, hashCheck: bool)
      returns (ret: int, ghost numFaults: Faults, ghost eccFaults: Faults)
      modifies numMatch, eccData
      ensures ret == E_OK
      ensures numMatch.passed ==
        old(numMatch.passed) + Trace(old(numMatch.Current()), NumMatchFile(numHash, nums), hashCheck, numFaults)
      ensures eccData.passed ==
        old(eccData.passed) + Trace(old(eccData.Current()), EccDataFile(eccHash, eccs), hashCheck, eccFaults)
      ensures numMatch.Current() == numMatch.passed[|numMatch.passed| - 1]
      ensures eccData.Current() == eccData.passed[|eccData.passed| - 1]
      ensures Reloads(old(numMatch.digest), numHash, hashCheck, numFaults) ==>
        NumsLoaded(old(numMatch.table), numMatch.table, nums, numFaults) &&
        numMatch.digest == Recorded(old(numMatch.digest), old(numMatch.temp), numHash, hashCheck)
      ensures !Reloads(old(numMatch.digest), numHash, hashCheck, numFaults) ==> numMatch.digest == old(numMatch.digest)
      ensures Reloads(old(eccData.digest), eccHash, hashCheck, eccFaults) ==>
        EccsLoaded(old(eccData.table), eccData.table, eccs, eccFaults) &&
        eccData.digest == Recorded(old(eccData.digest), old(eccData.temp), eccHash, hashCheck)
      ensures !Reloads(old(eccData.digest), eccHash, hashCheck, eccFaults) ==> eccData.digest == old(eccData.digest)
      ensures numMatch.temp == "" && eccData.temp == ""
    {
      hide Trace, Inserted, Stale, NumsLoaded, EccsLoaded, Reloads, Recorded;
      ghost var numWas, eccWas := numMatch.Current(), eccData.Current();
      var ok;
      ok, numFaults := numMatch.InitData(NumMatchFile(numHash, nums), hashCheck);
      ok, eccFaults := eccData.InitData(EccDataFile(eccHash, eccs), hashCheck);
      ReloadEnds(numWas, NumMatchFile(numHash, nums), hashCheck, numFaults);
      ReloadEnds(eccWas, EccDataFile(eccHash, eccs), hashCheck, eccFaults);
      NumsLoad(numWas, numHash, nums, numFaults);
      EccsLoad(eccWas, eccHash, eccs, eccFaults);
      ret := E_OK;
    }
  }
}
