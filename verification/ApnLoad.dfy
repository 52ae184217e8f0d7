/** Loading the APN configuration of an operator: the load is skipped when the recorded checksum says
    that the same file was loaded before.  Checksums identify contents; the row ids are not modelled. */
module ApnLoad {
  import opened Common
  import opened Dedup

  const DATA_STORAGE_SUCCESS := 0
  const DATA_STORAGE_ERROR := -1
  const INVALID_OPKEY := "-1"

  /** The columns of the unique key, but for the operator key and the edited flag. */
  datatype Config = Config(
    mcc: string, mnc: string, mvnoType: string, mvnoMatchData: string, apn: string, apnTypes: string,
    isRoamingApn: bool, apnProtocol: string, apnRoamProtocol: string, homeUrl: string, mmsIpAddress: string,
    profileName: string, bearingSystemType: int, authUser: string, authPwd: string, proxyIpAddress: string)

  datatype Key = Key(opkey: string, edited: int, config: Config)

  datatype Rest = Rest(authType: int, server: string)

  type Table = map<Key, Rest>

  /** One profile of a configuration file. */
  datatype PdpProfile = PdpProfile(config: Config, edited: int, rest: Rest)

  type Contents = string -> seq<PdpProfile>

  datatype State = State(table: Table, checksums: map<string, string>)

  function EntryOf(p: PdpProfile, opkey: string): (Key, Rest) {
    (Key(opkey, p.edited, p.config), p.rest)
  }

  function Entries(profiles: seq<PdpProfile>, opkey: string): seq<(Key, Rest)> {
    seq(|profiles|, i requires 0 <= i < |profiles| => EntryOf(profiles[i], opkey))
  }

  lemma EntriesGrow(profiles: seq<PdpProfile>, p: PdpProfile, opkey: string)
    ensures Entries(profiles + [p], opkey) == Entries(profiles, opkey) + [EntryOf(p, opkey)]
  {}

  lemma ReplacingInsert(profiles: seq<PdpProfile>, table: Table, p: PdpProfile, opkey: string)
    ensures table + LastWins(Entries(profiles + [p], opkey)) ==
      (table + LastWins(Entries(profiles, opkey)))[Key(opkey, p.edited, p.config) := p.rest]
  {
    EntriesGrow(profiles, p, opkey);
    LastWinsStep(Entries(profiles, opkey), EntryOf(p, opkey));
  }

  lemma NothingYet(profiles: seq<PdpProfile>, failed: set<nat>, table: Table, opkey: string)
    ensures table + LastWins(Entries(Surviving(profiles[..0], failed), opkey)) == table
    ensures profiles[..|profiles|] == profiles
  {}

  function UneditedOf(table: Table, opkey: string): Table {
    map k | k in table && k.opkey == opkey && k.edited == 0 :: table[k]
  }

  /** What a fresh load of the file would give the operator. */
  function FreshLoad(profiles: seq<PdpProfile>, opkey: string): Table {
    UneditedOf(LastWins(Entries(profiles, opkey)), opkey)
  }

  function Cleared(table: Table, opkey: string): Table {
    map k | k in table && !(k.opkey == opkey && k.edited == 0) :: table[k]
  }

  /** How a call of InitAPNDatabase goes.  Of a load: whether the delete worked, which inserts failed,
      and whether the checksum was saved. */
  datatype Load =
    | Refused | Skipped | ParseFailed | NotBegun | NotCommitted
    | Loaded(cleared: bool, failed: set<nat>, saved: bool)

  const ALL_WELL := Loaded(true, {}, true)

  function AfterLoad(table: Table, profiles: seq<PdpProfile>, opkey: string, cleared: bool): Table {
    (if cleared then Cleared(table, opkey) else table) + LastWins(Entries(profiles, opkey))
  }

  /** The profiles of the file that got in. */
  function GotIn(contents: Contents, checksum: string, load: Load): seq<PdpProfile>
    requires load.Loaded?
  {
    Surviving(contents(checksum), load.failed)
  }

  function AfterInit(st: State, contents: Contents, opkey: string, checksum: string, load: Load): State {
    if load.Loaded? then
      State(AfterLoad(st.table, GotIn(contents, checksum, load), opkey, load.cleared),
            if load.saved then st.checksums[opkey := checksum] else st.checksums)
    else st
  }

  predicate SoundFor(st: State, contents: Contents, opkey: string) {
    opkey in st.checksums ==> UneditedOf(st.table, opkey) == FreshLoad(contents(st.checksums[opkey]), opkey)
  }

  /** A recorded checksum means that the operator has the rows a fresh load of that file would give. */
  predicate Sound(st: State, contents: Contents) {
    "" !in st.checksums && forall opkey <- st.checksums.Keys :: SoundFor(st, contents, opkey)
  }

  predicate SoundForOthers(st: State, contents: Contents, opkey: string) {
    "" !in st.checksums && forall other <- st.checksums.Keys :: other != opkey ==> SoundFor(st, contents, other)
  }

  // ---------------------------------------------------------------- what a load touches

  predicate SameRow(a: Table, b: Table, k: Key) {
    (k in a <==> k in b) && (k in a && k in b ==> a[k] == b[k])
  }

  predicate IsLastOf(entries: seq<(Key, Rest)>, k: Key, i: int) {
    0 <= i < |entries| && entries[i].0 == k && forall j :: i < j < |entries| ==> entries[j].0 != k
  }

  lemma {:induction false} LastExists(entries: seq<(Key, Rest)>, k: Key, i: nat) returns (last: nat)
    requires i < |entries| && entries[i].0 == k
    ensures IsLastOf(entries, k, last)
    decreases |entries| - i
  {
    if j: nat :| i < j < |entries| && entries[j].0 == k {
      last := LastExists(entries, k, j);
    } else {
      last := i;
    }
  }

  /** Rows of other operators stay; an edited row of the operator changes exactly if the last profile
      with its key that got in differs from it. */
  lemma LoadTouchesOnlyItsOwn(table: Table, profiles: seq<PdpProfile>, opkey: string, cleared: bool, k: Key)
    ensures k.opkey != opkey ==> SameRow(AfterLoad(table, profiles, opkey, cleared), table, k)
    ensures k.opkey == opkey && k.edited != 0 ==>
      (SameRow(AfterLoad(table, profiles, opkey, cleared), table, k) <==>
        forall i :: IsLastOf(Entries(profiles, opkey), k, i) ==>
          k in table && table[k] == Entries(profiles, opkey)[i].1)
  {
    var entries := Entries(profiles, opkey);
    LastWinsMeaning(entries, k);
    if k in LastWins(entries) {
      var i :| 0 <= i < |entries| && entries[i].0 == k;
      var last := LastExists(entries, k, i);
      assert LastWins(entries)[k] == entries[last].1;
    }
  }

  lemma OthersKeepTheirRows(table: Table, profiles: seq<PdpProfile>, opkey: string, cleared: bool, other: string)
    requires other != opkey
    ensures UneditedOf(AfterLoad(table, profiles, opkey, cleared), other) == UneditedOf(table, other)
  {
    forall k: Key | k.opkey == other ensures SameRow(AfterLoad(table, profiles, opkey, cleared), table, k) {
      LoadTouchesOnlyItsOwn(table, profiles, opkey, cleared, k);
    }
  }

  lemma LoadedRows(table: Table, profiles: seq<PdpProfile>, opkey: string, cleared: bool)
    ensures UneditedOf(AfterLoad(table, profiles, opkey, cleared), opkey) ==
      (if cleared then map[] else UneditedOf(table, opkey)) + FreshLoad(profiles, opkey)
  {}

  // ---------------------------------------------------------------- the checksum guard

  /** The rows that a load leaves of the operator's unedited ones. */
  function Left(st: State, opkey: string, load: Load): Table
    requires load.Loaded?
  {
    if load.cleared then map[] else UneditedOf(st.table, opkey)
  }

  /** The rows that stayed and those that got in are those of the file whose checksum is recorded
      afterwards, if any is. */
  predicate Describes(st: State, contents: Contents, opkey: string, checksum: string, load: Load)
    requires load.Loaded?
  {
    var got := FreshLoad(GotIn(contents, checksum, load), opkey);
    if load.saved then MakeUp(FreshLoad(contents(checksum), opkey), got, Left(st, opkey, load))
    else opkey in st.checksums ==>
      MakeUp(FreshLoad(contents(st.checksums[opkey]), opkey), got, Left(st, opkey, load))
  }

  /** Whatever of a load fails, the guard is sound afterwards exactly if the checksum describes the rows. */
  lemma LoadIsSoundIff(st: State, contents: Contents, opkey: string, checksum: string, load: Load)
    requires SoundForOthers(st, contents, opkey) && opkey != "" && load.Loaded?
    ensures Sound(AfterInit(st, contents, opkey, checksum, load), contents) <==>
      Describes(st, contents, opkey, checksum, load)
  {
    var after := AfterInit(st, contents, opkey, checksum, load);
    var profiles := GotIn(contents, checksum, load);
    forall other <- after.checksums.Keys | other != opkey ensures SoundFor(after, contents, other) {
      assert SoundFor(st, contents, other);
      OthersKeepTheirRows(st.table, profiles, opkey, load.cleared, other);
    }
    assert Sound(after, contents) <==> SoundFor(after, contents, opkey);
    LoadedRows(st.table, profiles, opkey, load.cleared);
    if opkey in after.checksums {
      MakeUpIff(FreshLoad(contents(after.checksums[opkey]), opkey), FreshLoad(profiles, opkey), Left(st, opkey, load));
    }
  }

  /** The same for a call that may end before the load, with what it comes to when inserts work: after
      a failed delete no row may stay that the file lacks, after a failed save the file recorded must
      have the same rows. */
  lemma LoadKeepsSoundIff(st: State, contents: Contents, opkey: string, checksum: string, load: Load)
    requires Sound(st, contents) && opkey != ""
    ensures Sound(AfterInit(st, contents, opkey, checksum, load), contents) <==>
      !load.Loaded? || Describes(st, contents, opkey, checksum, load)
    ensures load.Loaded? && load.failed == {} && load.saved ==>
      (Describes(st, contents, opkey, checksum, load) <==>
        load.cleared || UneditedOf(st.table, opkey).Keys <= FreshLoad(contents(checksum), opkey).Keys)
    ensures load.Loaded? && load.failed == {} && load.cleared && !load.saved ==>
      (Describes(st, contents, opkey, checksum, load) <==>
        opkey !in st.checksums ||
          FreshLoad(contents(st.checksums[opkey]), opkey) == FreshLoad(contents(checksum), opkey))
  {
    if load.Loaded? {
      LoadIsSoundIff(st, contents, opkey, checksum, load);
      NoneFailed(contents(checksum));
    }
  }

  /** Skipping is as good as loading: reloading a file whose checksum is recorded changes no unedited
      row, and nothing at all when the file has no edited profiles. */
  lemma SkipEqualsReload(st: State, contents: Contents, opkey: string)
    requires Sound(st, contents) && opkey in st.checksums
    ensures var reloaded := AfterInit(st, contents, opkey, st.checksums[opkey], ALL_WELL);
      UneditedOf(reloaded.table, opkey) == UneditedOf(st.table, opkey) && reloaded.checksums == st.checksums &&
      ((forall p <- contents(st.checksums[opkey]) :: p.edited == 0) ==> reloaded == st)
  {
    var profiles := contents(st.checksums[opkey]);
    var reloaded := AfterInit(st, contents, opkey, st.checksums[opkey], ALL_WELL);
    assert SoundFor(st, contents, opkey);
    NoneFailed(profiles);
    LoadedRows(st.table, profiles, opkey, true);
    if forall p <- profiles :: p.edited == 0 {
      forall k: Key
        ensures k in reloaded.table <==> k in st.table
        ensures k in st.table ==> reloaded.table[k] == st.table[k]
      {
        if k.opkey == opkey && k.edited == 0 {
          assert k in UneditedOf(st.table, opkey) <==> k in UneditedOf(reloaded.table, opkey);
          assert k in st.table ==> UneditedOf(st.table, opkey)[k] == UneditedOf(reloaded.table, opkey)[k];
        } else {
          LoadTouchesOnlyItsOwn(st.table, profiles, opkey, true, k);
          assert forall i :: 0 <= i < |profiles| ==> profiles[i] in profiles;
          assert SameRow(reloaded.table, st.table, k);
        }
      }
      assert reloaded.table == st.table;
    }
  }

  // ---------------------------------------------------------------- resets

  /** How the helper's ResetApn goes: whether the recorded checksums went, whether the table was
      replaced, and which inserts failed. */
  datatype Reset = Reset(deleted: bool, replaced: bool, failed: set<nat>)

  function AfterReset(st: State, defaults: seq<PdpProfile>, reset: Reset): State {
    State(if reset.replaced then FirstWins(Entries(Surviving(defaults, reset.failed), "")) else st.table,
          if reset.deleted then map[] else st.checksums)
  }

  /** The recorded checksums are gone, or the rows they describe are not, or none describes any. */
  predicate ResetHarmless(st: State, contents: Contents, reset: Reset) {
    reset.deleted || !reset.replaced ||
    forall opkey <- st.checksums.Keys :: FreshLoad(contents(st.checksums[opkey]), opkey) == map[]
  }

  lemma ResetKeepsSoundIff(st: State, contents: Contents, defaults: seq<PdpProfile>, reset: Reset)
    requires Sound(st, contents)
    ensures Sound(AfterReset(st, defaults, reset), contents) <==> ResetHarmless(st, contents, reset)
  {
    var after := AfterReset(st, defaults, reset);
    var entries := Entries(Surviving(defaults, reset.failed), "");
    if !reset.deleted && reset.replaced {
      forall opkey <- st.checksums.Keys ensures UneditedOf(after.table, opkey) == map[] {
        forall k | k in after.table ensures k.opkey == "" {
          FirstWinsMeaning(entries, k);
        }
      }
      assert forall opkey <- st.checksums.Keys ::
        SoundFor(after, contents, opkey) <==> FreshLoad(contents(st.checksums[opkey]), opkey) == map[];
    } else if !reset.deleted {
      assert after == st;
    }
  }

  function WithoutOperator(table: Table, opkey: string): Table {
    map k | k in table && k.opkey != opkey :: table[k]
  }

  /** The table when the ability's reset of one operator starts loading: every row of the operator is
      gone, if that delete worked. */
  function Dropped(st: State, opkey: string, deleted: bool): State {
    if deleted then st.(table := WithoutOperator(st.table, opkey)) else st
  }

  /** The ability's reset of one operator: the delete, then a load whatever the checksum. */
  function AfterOperatorReset(st: State, contents: Contents, opkey: string, checksum: string, deleted: bool,
      load: Load): State {
    AfterInit(Dropped(st, opkey, deleted), contents, opkey, checksum, load)
  }

  /** A reset that ends before the load must have left the rows that the recorded checksum vouches for,
      or there were none; one that loads must end with a checksum that describes the rows. */
  predicate OperatorResetHarmless(st: State, contents: Contents, opkey: string, checksum: string, deleted: bool,
      load: Load) {
    if load.Loaded? then Describes(Dropped(st, opkey, deleted), contents, opkey, checksum, load)
    else !deleted || opkey !in st.checksums || FreshLoad(contents(st.checksums[opkey]), opkey) == map[]
  }

  lemma DroppedRows(st: State, contents: Contents, opkey: string, deleted: bool)
    requires Sound(st, contents)
    ensures SoundForOthers(Dropped(st, opkey, deleted), contents, opkey)
    ensures deleted ==> UneditedOf(Dropped(st, opkey, deleted).table, opkey) == map[]
  {
    forall other <- st.checksums.Keys | other != opkey ensures SoundFor(Dropped(st, opkey, deleted), contents, other) {
      assert SoundFor(st, contents, other);
      assert UneditedOf(WithoutOperator(st.table, opkey), other) == UneditedOf(st.table, other);
    }
  }

  /** Exactly when a reset of one operator keeps the guard sound; with everything working it does. */
  lemma OperatorResetKeepsSoundIff(st: State, contents: Contents, opkey: string, checksum: string, deleted: bool,
      load: Load)
    requires Sound(st, contents) && opkey != ""
    ensures Sound(AfterOperatorReset(st, contents, opkey, checksum, deleted, load), contents) <==>
      OperatorResetHarmless(st, contents, opkey, checksum, deleted, load)
    ensures load == ALL_WELL ==> OperatorResetHarmless(st, contents, opkey, checksum, deleted, load)
  {
    var mid := Dropped(st, opkey, deleted);
    DroppedRows(st, contents, opkey, deleted);
    if load.Loaded? {
      LoadIsSoundIff(mid, contents, opkey, checksum, load);
      NoneFailed(contents(checksum));
    } else {
      assert Sound(mid, contents) <==> SoundFor(mid, contents, opkey);
      assert SoundFor(st, contents, opkey) || opkey !in st.checksums;
    }
  }

  // ---------------------------------------------------------------- loads and resets, row by row

  /** Profile `i` of the file has these columns, and its insert did not fail. */
  predicate Brings(profiles: seq<PdpProfile>, failed: set<nat>, i: nat, k: Key) {
    i < |profiles| && i !in failed && profiles[i].edited == k.edited && profiles[i].config == k.config
  }

  ghost predicate BringsLast(profiles: seq<PdpProfile>, failed: set<nat>, i: nat, k: Key) {
    Brings(profiles, failed, i, k) && forall j: nat :: i < j ==> !Brings(profiles, failed, j, k)
  }

  ghost predicate BringsFirst(profiles: seq<PdpProfile>, failed: set<nat>, i: nat, k: Key) {
    Brings(profiles, failed, i, k) && forall j: nat :: j < i ==> !Brings(profiles, failed, j, k)
  }

  ghost predicate BringsNone(profiles: seq<PdpProfile>, failed: set<nat>, k: Key) {
    forall i: nat :: !Brings(profiles, failed, i, k)
  }

  /** One row after a load for the operator: as before for another operator; the last profile with its
      columns, if one got in; and otherwise gone, if it was unedited and the delete worked. */
  ghost predicate RowLoaded(before: Table, after: Table, profiles: seq<PdpProfile>, failed: set<nat>, cleared: bool,
      opkey: string, k: Key) {
    if k.opkey != opkey then SameRow(after, before, k)
    else
      (forall i: nat :: BringsLast(profiles, failed, i, k) ==> k in after && after[k] == profiles[i].rest) &&
      (BringsNone(profiles, failed, k) ==>
        if cleared && k.edited == 0 then k !in after else SameRow(after, before, k))
  }

  ghost predicate RowsLoaded(before: Table, after: Table, profiles: seq<PdpProfile>, failed: set<nat>, cleared: bool,
      opkey: string) {
    forall k :: RowLoaded(before, after, profiles, failed, cleared, opkey, k)
  }

  /** What the last profile adds to those before it. */
  lemma BringsStep(profiles: seq<PdpProfile>, failed: set<nat>, k: Key)
    requires profiles != []
    ensures var last := |profiles| - 1;
      var rest, own := profiles[..last], Brings(profiles, failed, last, k);
      (own <==> last !in failed && profiles[last].edited == k.edited && profiles[last].config == k.config) &&
      (BringsNone(profiles, failed, k) <==> !own && BringsNone(rest, failed, k)) &&
      (forall i: nat :: BringsLast(profiles, failed, i, k) ==>
        if own then i == last else BringsLast(rest, failed, i, k) && i < last) &&
      (forall i: nat :: BringsFirst(profiles, failed, i, k) ==>
        if i == last then own && BringsNone(rest, failed, k) else BringsFirst(rest, failed, i, k) && i < last)
  {
    var last := |profiles| - 1;
    var rest := profiles[..last];
    forall i: nat
      ensures Brings(profiles, failed, i, k) <==>
        Brings(rest, failed, i, k) || (i == last && Brings(profiles, failed, last, k))
      ensures Brings(rest, failed, i, k) ==> i < last
    {}
  }

  /** The profile that comes last brings its row, whatever those before it have brought. */
  lemma {:induction false} LastWinsRow(profiles: seq<PdpProfile>, failed: set<nat>, opkey: string, k: Key)
    requires k.opkey == opkey
    ensures var rows := LastWins(Entries(Surviving(profiles, failed), opkey));
      (BringsNone(profiles, failed, k) <==> k !in rows) &&
      forall i: nat :: BringsLast(profiles, failed, i, k) ==> k in rows && rows[k] == profiles[i].rest
    decreases |profiles|
  {
    hide Entries, Surviving, LastWins, Brings;
    if profiles == [] {
      NoProfiles(failed, opkey, k);
    } else {
      var last := |profiles| - 1;
      LastWinsRow(profiles[..last], failed, opkey, k);
      ProfileInserted(profiles, failed, opkey);
      BringsStep(profiles, failed, k);
    }
  }

  lemma NoProfiles(failed: set<nat>, opkey: string, k: Key)
    ensures k !in LastWins(Entries(Surviving([], failed), opkey))
    ensures k !in FirstWins(Entries(Surviving([], failed), opkey))
    ensures BringsNone([], failed, k)
  {}

  lemma ProfileInserted(profiles: seq<PdpProfile>, failed: set<nat>, opkey: string)
    requires profiles != []
    ensures var last := |profiles| - 1;
      var p, before := profiles[last], Surviving(profiles[..last], failed);
      var key := Key(opkey, p.edited, p.config);
      var rows, firsts := LastWins(Entries(before, opkey)), FirstWins(Entries(before, opkey));
      LastWins(Entries(Surviving(profiles, failed), opkey)) == (if last in failed then rows else rows[key := p.rest]) &&
      FirstWins(Entries(Surviving(profiles, failed), opkey)) ==
        if last in failed || key in firsts then firsts else firsts[key := p.rest]
  {
    var last := |profiles| - 1;
    var before := Surviving(profiles[..last], failed);
    if last in failed {
      assert Surviving(profiles, failed) == before;
    } else {
      EntriesGrow(before, profiles[last], opkey);
      LastWinsStep(Entries(before, opkey), EntryOf(profiles[last], opkey));
      FirstWinsStep(Entries(before, opkey), EntryOf(profiles[last], opkey));
    }
  }

  lemma LoadBringsRows(table: Table, profiles: seq<PdpProfile>, failed: set<nat>, opkey: string, cleared: bool)
    ensures RowsLoaded(table, AfterLoad(table, Surviving(profiles, failed), opkey, cleared), profiles, failed, cleared,
      opkey)
  {
    var got := Surviving(profiles, failed);
    var after := AfterLoad(table, got, opkey, cleared);
    forall k ensures RowLoaded(table, after, profiles, failed, cleared, opkey, k) {
      if k.opkey != opkey {
        LoadTouchesOnlyItsOwn(table, got, opkey, cleared, k);
      } else {
        hide LastWins, Entries, Surviving, Brings;
        LastWinsRow(profiles, failed, opkey, k);
      }
    }
  }

  /** A table replaced by the default profiles, which belong to no operator: of the profiles with the same
      columns the first that got in. */
  ghost predicate RowsReset(after: Table, defaults: seq<PdpProfile>, failed: set<nat>) {
    forall k :: RowReset(after, defaults, failed, k)
  }

  ghost predicate RowReset(after: Table, defaults: seq<PdpProfile>, failed: set<nat>, k: Key) {
    (k.opkey != "" || BringsNone(defaults, failed, k) ==> k !in after) &&
    forall i: nat :: k.opkey == "" && BringsFirst(defaults, failed, i, k) ==> k in after && after[k] == defaults[i].rest
  }

  lemma {:induction false} FirstWinsRow(profiles: seq<PdpProfile>, failed: set<nat>, k: Key)
    ensures var rows := FirstWins(Entries(Surviving(profiles, failed), ""));
      (k in rows <==> k.opkey == "" && !BringsNone(profiles, failed, k)) &&
      forall i: nat :: k.opkey == "" && BringsFirst(profiles, failed, i, k) ==> k in rows && rows[k] == profiles[i].rest
    decreases |profiles|
  {
    hide Entries, Surviving, FirstWins, Brings;
    if profiles == [] {
      NoProfiles(failed, "", k);
    } else {
      var last := |profiles| - 1;
      FirstWinsRow(profiles[..last], failed, k);
      ProfileInserted(profiles, failed, "");
      BringsStep(profiles, failed, k);
    }
  }

  lemma ResetBringsRows(st: State, defaults: seq<PdpProfile>, reset: Reset)
    requires reset.replaced
    ensures RowsReset(AfterReset(st, defaults, reset).table, defaults, reset.failed)
  {
    forall k ensures RowReset(AfterReset(st, defaults, reset).table, defaults, reset.failed, k) {
      hide Entries, Surviving, FirstWins, Brings;
      FirstWinsRow(defaults, reset.failed, k);
    }
  }

  /** A reset of one operator that gets to load: of the operator's rows, edited or not, only those that the
      file brings are there, and the other operators' rows are as before. */
  lemma OperatorResetBringsRows(st: State, contents: Contents, opkey: string, checksum: string, load: Load, k: Key)
    requires load.Loaded?
    ensures var after := AfterOperatorReset(st, contents, opkey, checksum, true, load).table;
      if k.opkey != opkey then SameRow(after, st.table, k)
      else
        (BringsNone(contents(checksum), load.failed, k) ==> k !in after) &&
        forall i: nat :: BringsLast(contents(checksum), load.failed, i, k) ==>
          k in after && after[k] == contents(checksum)[i].rest
  {
    var mid := Dropped(st, opkey, true);
    LoadBringsRows(mid.table, contents(checksum), load.failed, opkey, load.cleared);
    assert RowLoaded(mid.table, AfterOperatorReset(st, contents, opkey, checksum, true, load).table, contents(checksum),
      load.failed, load.cleared, opkey, k);
    assert k.opkey == opkey ==> k !in mid.table;
  }

  // ---------------------------------------------------------------- whole runs

  datatype Event =
    | Init(opkey: string, checksum: string, load: Load)
    | ResetApn(defaults: seq<PdpProfile>, reset: Reset)
    | ResetOperator(opkey: string, checksum: string, deleted: bool, load: Load)
    | Edit(rows: Table)

  /** Without an operator key loads are refused; users write edited rows. */
  predicate Possible(e: Event) {
    match e
    case Init(opkey, _, load) => load == Refused || opkey != ""
    case ResetApn(_, _) => true
    case ResetOperator(opkey, _, _, _) => opkey != ""
    case Edit(rows) => forall k <- rows.Keys :: k.edited != 0
  }

  /** Users replace the edited rows as a whole here: inserts, updates and deletes of them all at once. */
  function UneditedRows(table: Table): Table {
    map k | k in table && k.edited == 0 :: table[k]
  }

  function Apply(st: State, contents: Contents, e: Event): State {
    match e
    case Init(opkey, checksum, load) => AfterInit(st, contents, opkey, checksum, load)
    case ResetApn(defaults, reset) => AfterReset(st, defaults, reset)
    case ResetOperator(opkey, checksum, deleted, load) => AfterOperatorReset(st, contents, opkey, checksum, deleted,
      load)
    case Edit(rows) => State(UneditedRows(st.table) + rows, st.checksums)
  }

  predicate Harmless(st: State, contents: Contents, e: Event) {
    match e
    case Init(opkey, checksum, load) => !load.Loaded? || Describes(st, contents, opkey, checksum, load)
    case ResetApn(_, reset) => ResetHarmless(st, contents, reset)
    case ResetOperator(opkey, checksum, deleted, load) =>
      OperatorResetHarmless(st, contents, opkey, checksum, deleted, load)
    case Edit(_) => true
  }

  lemma StepKeepsSoundIff(st: State, contents: Contents, e: Event)
    requires Sound(st, contents) && Possible(e)
    ensures Sound(Apply(st, contents, e), contents) <==> Harmless(st, contents, e)
  {
    match e
    case Init(opkey, checksum, load) =>
      if opkey != "" { LoadKeepsSoundIff(st, contents, opkey, checksum, load); }
    case ResetApn(defaults, reset) => ResetKeepsSoundIff(st, contents, defaults, reset);
    case ResetOperator(opkey, checksum, deleted, load) =>
      OperatorResetKeepsSoundIff(st, contents, opkey, checksum, deleted, load);
    case Edit(rows) =>
      forall opkey <- st.checksums.Keys ensures SoundFor(Apply(st, contents, e), contents, opkey) {
        assert SoundFor(st, contents, opkey);
        assert UneditedOf(UneditedRows(st.table) + rows, opkey) == UneditedOf(st.table, opkey);
      }
  }

  function Run(st: State, contents: Contents, events: seq<Event>): State {
    if events == [] then st else Apply(Run(st, contents, events[..|events| - 1]), contents, events[|events| - 1])
  }

  predicate HarmlessRun(st: State, contents: Contents, events: seq<Event>) {
    forall i :: 0 <= i < |events| ==>
      Possible(events[i]) && Harmless(Run(st, contents, events[..i]), contents, events[i])
  }

  /** Over every run of harmless steps the guard is sound: a match means the rows are those of a fresh load. */
  lemma {:induction false} GuardStaysSound(st: State, contents: Contents, events: seq<Event>)
    requires Sound(st, contents) && HarmlessRun(st, contents, events)
    ensures Sound(Run(st, contents, events), contents)
  {
    if events != [] {
      var last := |events| - 1;
      forall i | 0 <= i < last ensures events[..last][..i] == events[..i] {}
      GuardStaysSound(st, contents, events[..last]);
      StepKeepsSoundIff(Run(st, contents, events[..last]), contents, events[last]);
    }
  }

  /** Parsing, beginning and committing may fail at any time, and inserts, deletes and saves work: such
      steps are harmless, but for a reset of one operator that never gets to load. */
  lemma RegularStepsAreHarmless(st: State, contents: Contents, e: Event)
    requires Sound(st, contents) && Possible(e)
    requires match e
      case Init(_, _, load) => load.Loaded? ==> load == ALL_WELL
      case ResetApn(_, reset) => reset.deleted
      case ResetOperator(_, _, _, load) => load == ALL_WELL
      case Edit(_) => true
    ensures Harmless(st, contents, e)
  {
    match e
    case Init(opkey, checksum, load) =>
      if load.Loaded? { LoadKeepsSoundIff(st, contents, opkey, checksum, load); }
    case ResetOperator(opkey, checksum, deleted, load) =>
      OperatorResetKeepsSoundIff(st, contents, opkey, checksum, deleted, load);
    case _ =>
  }

  // ---------------------------------------------------------------- the helper

  class RdbPdpProfileHelper {
    const contents: Contents
    var store: bool
    var table: Table
    var tempTable: Table
    var checksums: map<string, string>
    var snapshot: Table

    constructor (contents: Contents, table: Table, checksums: map<string, string>)
      ensures this.contents == contents && Current() == State(table, checksums) && store
    {
      this.contents, this.table, this.checksums := contents, table, checksums;
      snapshot, tempTable, store := table, map[], true;
    }

    function Current(): State
      reads this
    {
      State(table, checksums)
    }

    method BeginTransaction() returns (ok: bool)
      modifies this`snapshot
      ensures snapshot == table
    {
      snapshot := table;
      ok := *;
    }

    method CommitTransactionAction() returns (ok: bool)
      modifies this`table
      ensures table == if ok then old(table) else snapshot
    {
      ok := *;
      if !ok {
        table := snapshot;
      }
    }

    method ClearData(opKey: string) returns (ok: bool)
      modifies this`table
      ensures table == if ok then Cleared(old(table), opKey) else old(table)
    {
      ok := *;
      if ok {
        table := Cleared(table, opKey);
      }
    }

    /** Replacing inserts, whose results nobody looks at. */
    method InsertProfiles(profiles: seq<PdpProfile>, opKey: string) returns (ghost failed: set<nat>)
      modifies this`table
      ensures table == old(table) + LastWins(Entries(Surviving(profiles, failed), opKey))
    {
      hide Surviving, LastWins, Entries;
      var fails: set<nat> := *;
      NothingYet(profiles, fails, table, opKey);
      failed := fails;
      for i := 0 to |profiles|
        invariant table == old(table) + LastWins(Entries(Surviving(profiles[..i], fails), opKey))
      {
        SurvivingStep(profiles, fails, i);
        if i !in fails {
          ReplacingInsert(Surviving(profiles[..i], fails), old(table), profiles[i], opKey);
          table := table[Key(opKey, profiles[i].edited, profiles[i].config) := profiles[i].rest];
        } else {
          assert Surviving(profiles[..i], fails) + [] == Surviving(profiles[..i], fails);
        }
      }
    }

    /** What `load` was is for the specification only; the result says whether the operator's rows are
        those of the file. */
    method InitAPNDatabase(path: string, checksum: string, opKey: string, isNeedCheckFile: bool)
      returns (ret: int, ghost load: Load)
      modifies this`table, this`checksums, this`snapshot
      ensures Current() == AfterInit(old(Current()), contents, opKey, checksum, load)
      ensures load.Loaded? ==>
        RowsLoaded(old(table), table, contents(checksum), load.failed, load.cleared, opKey) &&
        checksums == if load.saved then old(checksums)[opKey := checksum] else old(checksums)
      ensures !load.Loaded? ==> table == old(table) && checksums == old(checksums)
      ensures load == Refused <==> !store || opKey == "" || opKey == "-1" || path == "" || checksum == ""
      ensures load != Refused ==>
        (load == Skipped <==> isNeedCheckFile && opKey in old(checksums) && old(checksums)[opKey] == checksum)
      ensures ret == DATA_STORAGE_SUCCESS <==> load == Skipped || load.Loaded?
      ensures load == Skipped || (load.Loaded? && load.cleared && load.failed == {}) ==>
        (Sound(old(Current()), contents) ==> UneditedOf(table, opKey) == FreshLoad(contents(checksum), opKey))
    {
      if !store || opKey == "" || opKey == INVALID_OPKEY {
        return E_ERROR, Refused;
      }
      if path == "" || checksum == "" {
        return E_ERROR, Refused;
      }
      if isNeedCheckFile && opKey in checksums && checksums[opKey] == checksum {
        assert SoundFor(Current(), contents, opKey) <==>
          UneditedOf(table, opKey) == FreshLoad(contents(checksum), opKey);
        return DATA_STORAGE_SUCCESS, Skipped;
      }
      var parsed: bool := *;
      if !parsed {
        return DATA_STORAGE_ERROR, ParseFailed;
      }
      var profiles := contents(checksum);
      var begun := BeginTransaction();
      if !begun {
        return DATA_STORAGE_ERROR, NotBegun;
      }
      var cleared := ClearData(opKey);
      ghost var failed := InsertProfiles(profiles, opKey);
      NoneFailed(profiles);
      LoadBringsRows(old(table), profiles, failed, opKey, cleared);
      LoadedRows(old(table), Surviving(profiles, failed), opKey, cleared);
      assert map[] + FreshLoad(profiles, opKey) == FreshLoad(profiles, opKey);
      var committed := CommitTransactionAction();
      if !committed {
        return E_ERROR, NotCommitted;
      }
      var saved: bool := *;
      if saved {
        checksums := checksums[opKey := checksum];
      }
      return DATA_STORAGE_SUCCESS, Loaded(cleared, failed, saved);
    }

    /** Replaces the whole table by the default file, of which a conflicting later profile is dropped. */
    method ResetApn(defaults: seq<PdpProfile>) returns (ret: int, ghost reset: Reset)
      modifies this`table, this`tempTable, this`checksums, this`snapshot
      ensures Current() == AfterReset(old(Current()), defaults, reset)
      ensures if reset.replaced then RowsReset(table, defaults, reset.failed) else table == old(table)
      ensures checksums == if reset.deleted then map[] else old(checksums)
      ensures ret == DATA_STORAGE_SUCCESS <==> reset.replaced
    {
      var deleted: bool := *;
      if deleted {
        checksums := map[];
      }
      var begun := BeginTransaction();
      if !begun {
        return E_ERROR, Reset(deleted, false, {});
      }
      var created: bool := *;
      if !created {
        return E_ERROR, Reset(deleted, false, {});
      }
      tempTable := map[];
      var parsed: bool := *;
      if !parsed {
        table := snapshot;
        return E_ERROR, Reset(deleted, false, {});
      }
      var failed: set<nat> := *;
      for i := 0 to |defaults|
        invariant tempTable == FirstWins(Entries(Surviving(defaults[..i], failed), ""))
        invariant snapshot == table == old(table) && checksums == if deleted then map[] else old(checksums)
      {
        SurvivingStep(defaults, failed, i);
        var key := Key("", defaults[i].edited, defaults[i].config);
        if i !in failed {
          EntriesGrow(Surviving(defaults[..i], failed), defaults[i], "");
          FirstWinsStep(Entries(Surviving(defaults[..i], failed), ""), EntryOf(defaults[i], ""));
          if key !in tempTable {
            tempTable := tempTable[key := defaults[i].rest];
          }
        } else {
          assert Surviving(defaults[..i], failed) + [] == Surviving(defaults[..i], failed);
        }
      }
      assert defaults[..|defaults|] == defaults;
      var dropped: bool := *;
      if !dropped {
        table := snapshot;
        return E_ERROR, Reset(deleted, false, {});
      }
      table := map[];
      var renamed: bool := *;
      if !renamed {
        table := snapshot;
        return E_ERROR, Reset(deleted, false, {});
      }
      table, tempTable := tempTable, map[];
      var committed := CommitTransactionAction();
      ret := if committed then DATA_STORAGE_SUCCESS else E_ERROR;
      reset := Reset(deleted, committed, failed);
      if committed { ResetBringsRows(old(Current()), defaults, reset); }
    }
  }
}
