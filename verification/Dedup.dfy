/** What inserting entries one after another leaves in an empty table with a unique key. */
module Dedup {

  /** Inserts that replace the row in conflict. */
  function LastWins<K, V>(entries: seq<(K, V)>): map<K, V> {
    if entries == [] then map[]
    else LastWins(entries[..|entries| - 1])[entries[|entries| - 1].0 := entries[|entries| - 1].1]
  }

  /** Inserts that fail on a conflict. */
  function FirstWins<K, V>(entries: seq<(K, V)>): map<K, V> {
    if entries == [] then map[]
    else
      var before := FirstWins(entries[..|entries| - 1]);
      var last := entries[|entries| - 1];
      if last.0 in before then before else before[last.0 := last.1]
  }

  /** Replacing inserts keep, of each key, its last entry. */
  lemma {:induction false} LastWinsMeaning<K, V>(entries: seq<(K, V)>, k: K)
    ensures k in LastWins(entries) <==> exists i :: 0 <= i < |entries| && entries[i].0 == k
    ensures forall i ::
      0 <= i < |entries| && entries[i].0 == k && (forall j :: i < j < |entries| ==> entries[j].0 != k) ==>
      LastWins(entries)[k] == entries[i].1
  {
    if entries != [] {
      var rest := entries[..|entries| - 1];
      LastWinsMeaning(rest, k);
      if k in LastWins(rest) {
        var i :| 0 <= i < |rest| && rest[i].0 == k;
        assert entries[i].0 == k;
      } else if k in LastWins(entries) {
        assert entries[|entries| - 1].0 == k;
      }
      forall i | 0 <= i < |entries| && entries[i].0 == k && (forall j :: i < j < |entries| ==> entries[j].0 != k)
        ensures LastWins(entries)[k] == entries[i].1
      {
        if i < |rest| {
          assert entries[|entries| - 1].0 != k;
          assert rest[i].0 == k && forall j :: i < j < |rest| ==> rest[j].0 != k;
        }
      }
    }
  }

  /** Failing inserts keep, of each key, its first entry. */
  lemma {:induction false} FirstWinsMeaning<K, V>(entries: seq<(K, V)>, k: K)
    ensures k in FirstWins(entries) <==> exists i :: 0 <= i < |entries| && entries[i].0 == k
    ensures forall i ::
      0 <= i < |entries| && entries[i].0 == k && (forall j :: 0 <= j < i ==> entries[j].0 != k) ==>
      FirstWins(entries)[k] == entries[i].1
  {
    if entries != [] {
      var rest := entries[..|entries| - 1];
      FirstWinsMeaning(rest, k);
      if k in FirstWins(rest) {
        var i :| 0 <= i < |rest| && rest[i].0 == k;
        assert entries[i].0 == k;
      } else if k in FirstWins(entries) {
        assert entries[|entries| - 1].0 == k;
      }
      forall i | 0 <= i < |entries| && entries[i].0 == k && (forall j :: 0 <= j < i ==> entries[j].0 != k)
        ensures FirstWins(entries)[k] == entries[i].1
      {
        if i < |rest| {
          assert rest[i].0 == k && forall j :: 0 <= j < i ==> rest[j].0 != k;
        } else {
          assert k !in FirstWins(rest);
        }
      }
    }
  }

  // ---------------------------------------------------------------- inserts that fail for other reasons

  /** The entries whose insert did not fail. */
  function Surviving<T>(entries: seq<T>, failed: set<nat>): seq<T> {
    if entries == [] then []
    else
      var last := |entries| - 1;
      Surviving(entries[..last], failed) + if last in failed then [] else [entries[last]]
  }

  lemma {:induction false} NoneFailed<T>(entries: seq<T>)
    ensures Surviving(entries, {}) == entries
  {
    if entries != [] {
      NoneFailed(entries[..|entries| - 1]);
    }
  }

  lemma {:induction false} SurvivorsAreEntries<T>(entries: seq<T>, failed: set<nat>)
    ensures forall e <- Surviving(entries, failed) :: e in entries
  {
    if entries != [] {
      SurvivorsAreEntries(entries[..|entries| - 1], failed);
    }
  }

  /** No entry before it that is not in `failed` has the key of entry `i`. */
  predicate FirstOfKey<K(==), V>(entries: seq<(K, V)>, failed: set<nat>, i: nat)
    requires i < |entries|
  {
    forall j: nat :: j < i && j !in failed ==> entries[j].0 != entries[i].0
  }

  /** The first entry of a key whose insert did not fail says what entry `i` says. */
  predicate Decided<K(==), V(==)>(entries: seq<(K, V)>, failed: set<nat>, i: nat)
    requires i < |entries|
  {
    exists j: nat :: j < |entries| && j !in failed && entries[j] == entries[i] && FirstOfKey(entries, failed, j)
  }

  lemma {:induction false} FirstIndex<K, V>(entries: seq<(K, V)>, failed: set<nat>, i: nat) returns (first: nat)
    requires i < |entries| && i !in failed
    ensures first < |entries| && first !in failed && entries[first].0 == entries[i].0
    ensures FirstOfKey(entries, failed, first)
    decreases i
  {
    first := i;
    if j: nat :| j < i && j !in failed && entries[j].0 == entries[i].0 {
      first := FirstIndex(entries, failed, j);
    }
  }

  lemma SurvivorsStep<K, V>(entries: seq<(K, V)>, failed: set<nat>, k: K)
    requires entries != []
    ensures var last := |entries| - 1;
      var before, after := FirstWins(Surviving(entries[..last], failed)), FirstWins(Surviving(entries, failed));
      if last !in failed && entries[last].0 == k && k !in before then k in after && after[k] == entries[last].1
      else (k in after <==> k in before) && (k in before ==> after[k] == before[k])
  {
    var last := |entries| - 1;
    var survivors := Surviving(entries[..last], failed);
    if last in failed {
      assert Surviving(entries, failed) == survivors;
    } else {
      assert Surviving(entries, failed) == survivors + [entries[last]];
      FirstWinsStep(survivors, entries[last]);
    }
  }

  /** Failing inserts keep, of each key, the first entry whose insert did not fail. */
  lemma {:induction false} SurvivorsMeaning<K, V>(entries: seq<(K, V)>, failed: set<nat>, k: K)
    ensures k in FirstWins(Surviving(entries, failed)) <==>
      exists i: nat :: i < |entries| && i !in failed && entries[i].0 == k
    ensures forall i: nat :: i < |entries| && i !in failed && entries[i].0 == k && FirstOfKey(entries, failed, i) ==>
      FirstWins(Surviving(entries, failed))[k] == entries[i].1
  {
    hide FirstWins, Surviving;
    if entries == [] {
      NothingSurvives<K, V>(failed, k);
    } else {
      var last := |entries| - 1;
      var rest := entries[..last];
      SurvivorsMeaning(rest, failed, k);
      SurvivorsStep(entries, failed, k);
      if i: nat :| i < last && i !in failed && entries[i].0 == k {
        assert rest[i].0 == k;
      }
      forall i: nat | i < |entries| && i !in failed && entries[i].0 == k && FirstOfKey(entries, failed, i)
        ensures FirstWins(Surviving(entries, failed))[k] == entries[i].1
      {
        if i < last {
          assert rest[i].0 == k && FirstOfKey(rest, failed, i);
        }
      }
    }
  }

  lemma NothingSurvives<K, V>(failed: set<nat>, k: K)
    ensures k !in FirstWins<K, V>(Surviving([], failed))
  {}

  /** Of two sets of rows, `first` wins on a common key: what they make together is `all` exactly if
      neither brings anything else in and no key is missing. */
  predicate MakeUp<K, V(==)>(all: map<K, V>, first: map<K, V>, second: map<K, V>) {
    (forall k <- first.Keys :: k in all && all[k] == first[k]) &&
    (forall k <- second.Keys :: k in first || (k in all && all[k] == second[k])) &&
    (forall k <- all.Keys :: k in first || k in second)
  }

  lemma MakeUpIff<K, V>(all: map<K, V>, first: map<K, V>, second: map<K, V>)
    ensures second + first == all <==> MakeUp(all, first, second)
  {
    if second + first == all {
      forall k <- first.Keys ensures k in all && all[k] == first[k] { assert k in second + first; }
      forall k <- second.Keys ensures k in first || (k in all && all[k] == second[k]) { assert k in second + first; }
      forall k <- all.Keys ensures k in first || k in second { assert k in second + first; }
    }
  }

  /** Rows that were there before, and entries some of whose inserts fail, make up the rows of all the
      entries exactly if the former are among those and each other key is decided as before. */
  lemma MakeUpDecided<K, V>(entries: seq<(K, V)>, failed: set<nat>, before: map<K, V>)
    ensures MakeUp(FirstWins(entries), before, FirstWins(Surviving(entries, failed))) <==>
      && (forall k <- before.Keys :: k in FirstWins(entries) && FirstWins(entries)[k] == before[k])
      && (forall i: nat :: i < |entries| && FirstOfKey(entries, {}, i) && entries[i].0 !in before ==>
           Decided(entries, failed, i))
  {
    var all, rows := FirstWins(entries), FirstWins(Surviving(entries, failed));
    if MakeUp(all, before, rows) {
      forall i: nat | i < |entries| && FirstOfKey(entries, {}, i) && entries[i].0 !in before
        ensures Decided(entries, failed, i)
      {
        FirstEntryRow(entries, i);
        SurvivorsMeaning(entries, failed, entries[i].0);
        var j: nat :| j < |entries| && j !in failed && entries[j].0 == entries[i].0;
        var first := FirstIndex(entries, failed, j);
        assert entries[first] == entries[i];
      }
    }
    if forall i: nat :: i < |entries| && FirstOfKey(entries, {}, i) && entries[i].0 !in before ==>
        Decided(entries, failed, i)
    {
      forall k <- all.Keys + rows.Keys | k !in before ensures k in all && k in rows && all[k] == rows[k] {
        DecidedRow(entries, failed, k);
      }
    }
  }

  lemma FirstEntryRow<K, V>(entries: seq<(K, V)>, i: nat)
    requires i < |entries| && FirstOfKey(entries, {}, i)
    ensures entries[i].0 in FirstWins(entries) && FirstWins(entries)[entries[i].0] == entries[i].1
  {
    NoneFailed(entries);
    SurvivorsMeaning(entries, {}, entries[i].0);
  }

  lemma DecidedRow<K, V>(entries: seq<(K, V)>, failed: set<nat>, k: K)
    requires k in FirstWins(entries) || k in FirstWins(Surviving(entries, failed))
    requires forall i: nat :: i < |entries| && FirstOfKey(entries, {}, i) && entries[i].0 == k ==>
      Decided(entries, failed, i)
    ensures k in FirstWins(entries) && k in FirstWins(Surviving(entries, failed))
    ensures FirstWins(entries)[k] == FirstWins(Surviving(entries, failed))[k]
  {
    NoneFailed(entries);
    SurvivorsMeaning(entries, {}, k);
    SurvivorsMeaning(entries, failed, k);
    var i: nat :| i < |entries| && entries[i].0 == k;
    var first := FirstIndex(entries, {}, i);
    FirstEntryRow(entries, first);
    assert Decided(entries, failed, first);
  }

  lemma SurvivingStep<T>(entries: seq<T>, failed: set<nat>, i: nat)
    requires i < |entries|
    ensures Surviving(entries[..i + 1], failed) ==
      Surviving(entries[..i], failed) + if i in failed then [] else [entries[i]]
  {
    assert entries[..i + 1][..i] == entries[..i];
  }

  lemma FirstWinsStep<K, V>(entries: seq<(K, V)>, entry: (K, V))
    ensures FirstWins(entries + [entry]) ==
      if entry.0 in FirstWins(entries) then FirstWins(entries) else FirstWins(entries)[entry.0 := entry.1]
  {
    assert (entries + [entry])[..|entries|] == entries;
  }

  lemma LastWinsStep<K, V>(entries: seq<(K, V)>, entry: (K, V))
    ensures LastWins(entries + [entry]) == LastWins(entries)[entry.0 := entry.1]
  {
    assert (entries + [entry])[..|entries|] == entries;
  }

  /** A plain insert into a table that had rows before. */
  lemma PlainInsert<K, V>(entries: seq<(K, V)>, table: map<K, V>, entry: (K, V))
    ensures FirstWins(entries + [entry]) + table ==
      var rows := FirstWins(entries) + table;
      if entry.0 in rows then rows else rows[entry.0 := entry.1]
  {
    FirstWinsStep(entries, entry);
  }
}
