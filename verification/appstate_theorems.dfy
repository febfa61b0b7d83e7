/** What app-state synchronisation promises: the batched store write equals the one-by-one fold, the incremental hash
    equals the from-scratch total of the stored map, and exactly the valid prefix of the patches is stored. */
module AppStateTheorems {
  import opened Bytes
  import opened LTHash
  import opened AppState

  // ----- The batched write -----

  ghost function MapOf(added: seq<MacPair>): LiveMap {
    if added == [] then map[]
    else MapOf(added[..|added| - 1])[added[|added| - 1].indexMAC := added[|added| - 1].valueMAC]
  }

  ghost function Overlay(live: LiveMap, out: Output): LiveMap {
    live - (set r | r in out.removed) + MapOf(out.added)
  }

  lemma PutThenRemove(m: LiveMap, index: Bytes, value: Bytes)
    ensures m[index := value] - {index} == m - {index}
  {
  }

  lemma PutOfOther(m: LiveMap, index: Bytes, other: Bytes, value: Bytes)
    requires other != index
    ensures m[other := value] - {index} == (m - {index})[other := value]
  {
  }

  lemma MapOfOneMore(added: seq<MacPair>, last: MacPair)
    ensures MapOf(added + [last]) == MapOf(added)[last.indexMAC := last.valueMAC]
  {
    assert (added + [last])[..|added|] == added;
  }

  lemma {:induction false} MapOfWithout(added: seq<MacPair>, index: Bytes)
    ensures MapOf(Without(added, index)) == MapOf(added) - {index}
  {
    if added != [] {
      var front, last := added[..|added| - 1], added[|added| - 1];
      MapOfWithout(front, index);
      if last.indexMAC == index {
        PutThenRemove(MapOf(front), index, last.valueMAC);
      } else {
        MapOfOneMore(Without(front, index), last);
        PutOfOther(MapOf(front), index, last.indexMAC, last.valueMAC);
      }
    }
  }

  lemma RemoveFromOverlay(live: LiveMap, removed: set<Bytes>, added: LiveMap, index: Bytes)
    ensures live - (removed + {index}) + (added - {index}) == (live - removed + added) - {index}
  {
  }

  lemma PutIntoOverlay(live: LiveMap, added: LiveMap, index: Bytes, value: Bytes)
    ensures live + added[index := value] == (live + added)[index := value]
  {
  }

  lemma OverlayStep(live: LiveMap, out: Output, m: Mutation)
    ensures Overlay(live, OutputStep(out, m)) == Step(Overlay(live, out), m)
  {
    hide MapOf, Without;
    var index, out' := m.record.indexMAC, OutputStep(out, m);
    var removed := set r | r in out.removed;
    if m.op.REMOVE? {
      MapOfWithout(out.added, index);
      assert (set r | r in out'.removed) == removed + {index};
      RemoveFromOverlay(live, removed, MapOf(out.added), index);
    } else {
      var value := ValueMAC(m.record.blob);
      MapOfOneMore(out.added, MacPair(index, value));
      PutIntoOverlay(live - removed, MapOf(out.added), index, value);
    }
  }

  /** Deleting all removed MACs and then putting all added ones has the effect of the mutations in order. */
  lemma {:induction false} OverlayIsFold(live: LiveMap, ms: seq<Mutation>, n: nat)
    requires n <= |ms|
    ensures Overlay(live, Outputs(ms, n)) == Fold(live, ms, n)
  {
    if n > 0 {
      OverlayIsFold(live, ms, n - 1);
      OverlayStep(live, Outputs(ms, n - 1), ms[n - 1]);
    } else {
      assert (set r | r in Outputs(ms, 0).removed) == {};
    }
  }

  lemma {:induction false} HasTop(rows: Rows, k: RowKey) returns (v: nat)
    requires k in rows
    ensures Top(rows, RowKey(v, k.index))
    decreases set j | j in rows && j.index == k.index && j.version > k.version
  {
    if Top(rows, k) {
      v := k.version;
    } else {
      var j :| j in rows && j.index == k.index && j.version > k.version;
      var above := set i | i in rows && i.index == k.index && i.version > k.version;
      var aboveJ := set i | i in rows && i.index == j.index && i.version > j.version;
      assert j in above && j !in aboveJ && aboveJ <= above;
      v := HasTop(rows, j);
    }
  }

  /** An index is live exactly when it has a row. */
  lemma LiveKeys(rows: Rows, index: Bytes)
    ensures index in Live(rows) <==> exists v: nat :: RowKey(v, index) in rows
  {
    if v: nat :| RowKey(v, index) in rows {
      var w := HasTop(rows, RowKey(v, index));
      assert Top(rows, RowKey(w, index));
    }
  }

  lemma {:induction false} InsertedRows(rows: Rows, version: nat, added: seq<MacPair>, k: RowKey)
    ensures k in InsertRows(rows, version, added) <==> k in rows || (k.version == version && k.index in MapOf(added))
    ensures k in InsertRows(rows, version, added) ==>
      InsertRows(rows, version, added)[k] ==
      if k.version == version && k.index in MapOf(added) then MapOf(added)[k.index] else rows[k]
  {
    if added != [] {
      InsertedRows(rows, version, added[..|added| - 1], k);
    }
  }

  /** No newly put value hides behind an older row with a higher version and another value. */
  ghost predicate NotShadowed(rows: Rows, version: nat, out: Output) {
    forall k :: Top(rows, k) && k.index !in out.removed && k.index in MapOf(out.added) ==>
      k.version <= version || rows[k] == MapOf(out.added)[k.index]
  }

  ghost function Written(rows: Rows, version: nat, out: Output): Rows {
    InsertRows(DeleteRows(rows, out.removed), version, out.added)
  }

  lemma WrittenRow(rows: Rows, version: nat, out: Output, k: RowKey)
    ensures k in Written(rows, version, out) <==>
      (k in rows && k.index !in out.removed) || (k.version == version && k.index in MapOf(out.added))
    ensures k in Written(rows, version, out) ==>
      Written(rows, version, out)[k] ==
      if k.version == version && k.index in MapOf(out.added) then MapOf(out.added)[k.index] else rows[k]
  {
    InsertedRows(DeleteRows(rows, out.removed), version, out.added, k);
  }

  /** An index that was not put keeps its value unless it was removed. */
  lemma LookupUntouched(rows: Rows, version: nat, out: Output, index: Bytes)
    requires index !in MapOf(out.added)
    ensures Get(Live(Written(rows, version, out)), index) ==
            if index in out.removed then None else Get(Live(rows), index)
  {
    var rows' := Written(rows, version, out);
    LiveKeys(rows, index);
    LiveKeys(rows', index);
    forall v: nat
      ensures RowKey(v, index) in rows' <==> RowKey(v, index) in rows && index !in out.removed
      ensures RowKey(v, index) in rows' ==> rows'[RowKey(v, index)] == rows[RowKey(v, index)]
    {
      WrittenRow(rows, version, out, RowKey(v, index));
    }
    if index in Live(rows') {
      var w: nat :| RowKey(w, index) in rows';
      var v := HasTop(rows', RowKey(w, index));
      assert forall j :: j in rows && j.index == index ==> j == RowKey(j.version, index);
      assert Top(rows, RowKey(v, index));
    }
  }

  /** A put index shows the put value, unless a remaining row has a higher version. */
  lemma LookupPut(rows: Rows, version: nat, out: Output, index: Bytes)
    requires index in MapOf(out.added)
    requires index in out.removed || forall v: nat :: RowKey(v, index) in rows ==> v <= version
    ensures Get(Live(Written(rows, version, out)), index) == Some(MapOf(out.added)[index])
  {
    var rows' := Written(rows, version, out);
    forall k | k in rows' && k.index == index
      ensures k.version <= version
    {
      WrittenRow(rows, version, out, k);
      assert k == RowKey(k.version, index);
    }
    WrittenRow(rows, version, out, RowKey(version, index));
    assert Top(rows', RowKey(version, index));
  }

  lemma LookupShadowed(rows: Rows, version: nat, out: Output, k: RowKey)
    requires Top(rows, k) && k.index !in out.removed && k.version > version
    ensures Get(Live(Written(rows, version, out)), k.index) == Some(rows[k])
  {
    var rows' := Written(rows, version, out);
    forall j | j in rows' && j.index == k.index
      ensures j.version <= k.version
    {
      WrittenRow(rows, version, out, j);
    }
    WrittenRow(rows, version, out, k);
    assert Top(rows', k);
  }

  lemma OverlayAt(live: LiveMap, out: Output, index: Bytes)
    ensures Get(Overlay(live, out), index) ==
      if index in MapOf(out.added) then Some(MapOf(out.added)[index])
      else if index in out.removed then None else Get(live, index)
  {
  }

  lemma SameLookups(a: LiveMap, b: LiveMap)
    requires forall index: Bytes :: Get(a, index) == Get(b, index)
    ensures a == b
  {
    forall index: Bytes
      ensures index in a <==> index in b
      ensures index in a ==> a[index] == b[index]
    {
      assert Get(a, index) == Get(b, index);
    }
  }

  lemma WrittenIsOverlay(rows: Rows, version: nat, out: Output)
    ensures Live(Written(rows, version, out)) == Overlay(Live(rows), out) <==> NotShadowed(rows, version, out)
  {
    hide Live, Overlay, Written, MapOf;
    var after, goal := Live(Written(rows, version, out)), Overlay(Live(rows), out);
    if NotShadowed(rows, version, out) {
      forall index: Bytes
        ensures Get(after, index) == Get(goal, index)
      {
        OverlayAt(Live(rows), out, index);
        if index !in MapOf(out.added) {
          LookupUntouched(rows, version, out, index);
        } else if v: nat :| index !in out.removed && RowKey(v, index) in rows && v > version {
          var w := HasTop(rows, RowKey(v, index));
          LookupShadowed(rows, version, out, RowKey(w, index));
        } else {
          LookupPut(rows, version, out, index);
        }
      }
      SameLookups(after, goal);
    } else {
      var k :| Top(rows, k) && k.index !in out.removed && k.index in MapOf(out.added) &&
               k.version > version && rows[k] != MapOf(out.added)[k.index];
      LookupShadowed(rows, version, out, k);
      OverlayAt(Live(rows), out, k.index);
    }
  }

  /** The batched write yields the fold of the mutations exactly when no stale row with a higher version shadows one of
      the put values. */
  lemma BatchedWriteIsFold(rows: Rows, version: nat, ms: seq<Mutation>)
    ensures Live(Written(rows, version, Outputs(ms, |ms|))) == Fold(Live(rows), ms, |ms|) <==>
            NotShadowed(rows, version, Outputs(ms, |ms|))
  {
    OverlayIsFold(Live(rows), ms, |ms|);
    WrittenIsOverlay(rows, version, Outputs(ms, |ms|));
  }

  // ----- When the insert fails -----

  /** How many SETs of this index no later REMOVE has taken back. */
  function Survivors(ms: seq<Mutation>, n: nat, index: Bytes): nat
    requires n <= |ms|
  {
    if n == 0 then 0
    else if ms[n - 1].record.indexMAC != index then Survivors(ms, n - 1, index)
    else if ms[n - 1].op.SET? then Survivors(ms, n - 1, index) + 1 else 0
  }

  function Count(added: seq<MacPair>, index: Bytes): nat {
    if added == [] then 0
    else Count(added[..|added| - 1], index) + if added[|added| - 1].indexMAC == index then 1 else 0
  }

  lemma {:induction false} CountWithout(added: seq<MacPair>, gone: Bytes, index: Bytes)
    ensures Count(Without(added, gone), index) == if gone == index then 0 else Count(added, index)
  {
    if added != [] {
      var front, last := added[..|added| - 1], added[|added| - 1];
      CountWithout(front, gone, index);
      assert (Without(front, gone) + [last])[..|Without(front, gone)|] == Without(front, gone);
    }
  }

  lemma {:induction false} CountIsSurvivors(ms: seq<Mutation>, n: nat, index: Bytes)
    requires n <= |ms|
    ensures Count(Outputs(ms, n).added, index) == Survivors(ms, n, index)
  {
    if n > 0 {
      CountIsSurvivors(ms, n - 1, index);
      var added, m := Outputs(ms, n - 1).added, ms[n - 1];
      CountWithout(added, m.record.indexMAC, index);
      var pair := MacPair(m.record.indexMAC, ValueMAC(m.record.blob));
      assert (added + [pair])[..|added|] == added;
    }
  }

  lemma {:induction false} CountPositions(added: seq<MacPair>, index: Bytes)
    ensures Count(added, index) >= 1 <==> exists i :: 0 <= i < |added| && added[i].indexMAC == index
    ensures Count(added, index) >= 2 <==>
      exists i, j :: 0 <= i < j < |added| && added[i].indexMAC == index && added[j].indexMAC == index
  {
    if added != [] {
      var n := |added| - 1;
      var front := added[..n];
      CountPositions(front, index);
      assert forall i :: 0 <= i < n ==> front[i] == added[i];
      if added[n].indexMAC == index && Count(front, index) >= 1 {
        var i :| 0 <= i < n && front[i].indexMAC == index;
        assert added[i].indexMAC == index && added[n].indexMAC == index;
      }
    }
  }

  /** Some index is SET twice without a REMOVE after the earlier SET. */
  ghost predicate RepeatsSet(ms: seq<Mutation>) {
    exists i :: 0 <= i < |ms| && Survivors(ms, |ms|, ms[i].record.indexMAC) >= 2
  }

  ghost predicate IndexesSized(ms: seq<Mutation>) {
    forall i :: 0 <= i < |ms| ==> |ms[i].record.indexMAC| == 32
  }

  lemma {:induction false} SurvivorOccurs(ms: seq<Mutation>, n: nat, index: Bytes)
    requires n <= |ms| && Survivors(ms, n, index) >= 1
    ensures exists i :: 0 <= i < n && ms[i].record.indexMAC == index
  {
    if ms[n - 1].record.indexMAC != index {
      SurvivorOccurs(ms, n - 1, index);
    }
  }

  /** An index that is still SET at the end already has a row of this version. */
  ghost predicate Collides(rows: Rows, version: nat, ms: seq<Mutation>) {
    exists i :: 0 <= i < |ms| && Survivors(ms, |ms|, ms[i].record.indexMAC) >= 1
      && RowKey(version, ms[i].record.indexMAC) in rows
  }

  /** Every entry to be inserted stems from a SET that survived. */
  lemma AddedSurvives(ms: seq<Mutation>, i: nat)
    requires IndexesSized(ms) && i < |Outputs(ms, |ms|).added|
    ensures var index := Outputs(ms, |ms|).added[i].indexMAC;
      && |index| == 32 && Survivors(ms, |ms|, index) >= 1
      && exists p :: 0 <= p < |ms| && ms[p].record.indexMAC == index
  {
    hide Outputs;
    var added := Outputs(ms, |ms|).added;
    CountPositions(added, added[i].indexMAC);
    CountIsSurvivors(ms, |ms|, added[i].indexMAC);
    SurvivorOccurs(ms, |ms|, added[i].indexMAC);
  }

  /** With sized indexes the insert fails exactly on a repeated SET, or when a SET meets a row of its own version. */
  lemma {:induction false} InsertFailsExactly(rows: Rows, version: nat, ms: seq<Mutation>)
    requires IndexesSized(ms)
    ensures Insertable(rows, version, Outputs(ms, |ms|).added) <==> !RepeatsSet(ms) && !Collides(rows, version, ms)
  {
    hide Outputs, Survivors;
    var added := Outputs(ms, |ms|).added;
    if RepeatsSet(ms) {
      var p :| 0 <= p < |ms| && Survivors(ms, |ms|, ms[p].record.indexMAC) >= 2;
      CountIsSurvivors(ms, |ms|, ms[p].record.indexMAC);
      CountPositions(added, ms[p].record.indexMAC);
    } else {
      forall i, j | 0 <= i < j < |added|
        ensures added[i].indexMAC != added[j].indexMAC
      {
        AddedOnce(ms, i, j);
      }
    }
    if Collides(rows, version, ms) {
      var p :| 0 <= p < |ms| && Survivors(ms, |ms|, ms[p].record.indexMAC) >= 1
        && RowKey(version, ms[p].record.indexMAC) in rows;
      CountIsSurvivors(ms, |ms|, ms[p].record.indexMAC);
      CountPositions(added, ms[p].record.indexMAC);
    } else {
      forall i | 0 <= i < |added|
        ensures |added[i].indexMAC| == 32 && RowKey(version, added[i].indexMAC) !in rows
      {
        AddedIsNew(rows, version, ms, i);
      }
    }
  }

  lemma AddedOnce(ms: seq<Mutation>, i: nat, j: nat)
    requires IndexesSized(ms) && !RepeatsSet(ms) && i < j < |Outputs(ms, |ms|).added|
    ensures Outputs(ms, |ms|).added[i].indexMAC != Outputs(ms, |ms|).added[j].indexMAC
  {
    hide Outputs, Survivors;
    var added := Outputs(ms, |ms|).added;
    AddedSurvives(ms, i);
    CountPositions(added, added[i].indexMAC);
    CountIsSurvivors(ms, |ms|, added[i].indexMAC);
  }

  lemma AddedIsNew(rows: Rows, version: nat, ms: seq<Mutation>, i: nat)
    requires IndexesSized(ms) && !Collides(rows, version, ms) && i < |Outputs(ms, |ms|).added|
    ensures var index := Outputs(ms, |ms|).added[i].indexMAC;
      |index| == 32 && RowKey(version, index) !in rows
  {
    hide Outputs, Survivors;
    AddedSurvives(ms, i);
  }

  /** With a version above all stored ones, exactly on a repeated SET. */
  lemma InsertFailsIffRepeated(rows: Rows, version: nat, ms: seq<Mutation>)
    requires IndexesSized(ms) && forall k :: k in rows ==> k.version < version
    ensures Insertable(rows, version, Outputs(ms, |ms|).added) <==> !RepeatsSet(ms)
  {
    hide RepeatsSet, Insertable, Outputs;
    InsertFailsExactly(rows, version, ms);
  }

  // ----- Consistency over whole runs -----

  function Stored(db: Db): HState { HState(db.version, db.hash) }

  /** The hash is the total of the visible map; without a version row the collection is empty. */
  ghost predicate Faithful(expand: Expand, db: Db) {
    && (!db.hasVersion ==> db == Db(false, 0, ZERO, map[]))
    && db.hash == Total(expand, Live(db.rows))
  }

  /** Moreover no row is newer than the version. */
  ghost predicate Consistent(expand: Expand, db: Db) {
    Faithful(expand, db) && forall k :: k in db.rows ==> k.version <= db.version
  }

  ghost predicate Matches(expand: Expand, run: Run) {
    run.err.None? && Faithful(expand, run.db) && run.state == Stored(run.db)
  }

  ghost predicate InStep(expand: Expand, run: Run) {
    run.err.None? && Consistent(expand, run.db) && run.state == Stored(run.db)
  }

  lemma InStepMatches(expand: Expand, run: Run)
    requires InStep(expand, run)
    ensures Matches(expand, run)
  {
  }

  lemma WriteKeepsConsistent(expand: Expand, db: Db, st: HState, ms: seq<Mutation>)
    requires Consistent(expand, db) && db.version <= st.version
    requires st.hash == Total(expand, Fold(Live(db.rows), ms, |ms|))
    requires StoreMACs(db, st, Outputs(ms, |ms|)).1
    ensures Consistent(expand, StoreMACs(db, st, Outputs(ms, |ms|)).0)
    ensures Live(StoreMACs(db, st, Outputs(ms, |ms|)).0.rows) == Fold(Live(db.rows), ms, |ms|)
  {
    hide Total, Fold, Outputs, Live, MapOf, InsertRows, Insertable;
    var out := Outputs(ms, |ms|);
    var db' := StoreMACs(db, st, out).0;
    assert db'.rows == Written(db.rows, st.version, out);
    NewerIsNotShadowed(db.rows, st.version, out);
    assert Live(db'.rows) == Fold(Live(db.rows), ms, |ms|) by {
      BatchedWriteIsFold(db.rows, st.version, ms);
    }
    forall k | k in db'.rows
      ensures k.version <= st.version
    {
      InsertedRows(DeleteRows(db.rows, out.removed), st.version, out.added, k);
    }
  }

  lemma NewerIsNotShadowed(rows: Rows, version: nat, out: Output)
    requires forall k :: k in rows ==> k.version <= version
    ensures NotShadowed(rows, version, out)
  {
  }

  lemma {:induction false} DecodeNeverInserts(env: Env, ms: seq<Mutation>, n: nat, check: bool, version: nat)
    requires n <= |ms|
    ensures DecodeMutations(env, ms, n, check, version) != Err(InsertFailed)
  {
    if n > 0 {
      DecodeNeverInserts(env, ms, n - 1, check, version);
    }
  }

  lemma Examined(env: Env, live: LiveMap, patch: Patch, st: HState, check: bool)
    ensures match ExaminePatch(env, live, patch, st, check)
      case Ok((newState, _)) => newState == PatchedState(env, live, patch, st)
      case Err(e) => e != InsertFailed
  {
    DecodeNeverInserts(env, patch.mutations, |patch.mutations|, check, patch.version);
  }

  /** One patch, of any version.  Accepted: the stored hash is the total of the fold, and the stored map is the fold
      exactly when no newer row shadows a put value, which cannot be when no stored row is newer.  Rejected: nothing is
      stored.  Insert failed: version and hash are already those of the full patch, while the rows only saw the
      deletions. */
  lemma PatchOutcome(env: Env, run: Run, patch: Patch, check: bool)
    requires Matches(env.expand, run)
    ensures var run' := ApplyPatch(env, run, patch, check);
      var out := Outputs(patch.mutations, |patch.mutations|);
      var goal := Fold(Live(run.db.rows), patch.mutations, |patch.mutations|);
      match run'.err
      case None =>
        && run'.state == Stored(run'.db) && run'.db.hasVersion && run'.db.version == patch.version
        && run'.db.hash == Total(env.expand, goal)
        && (Live(run'.db.rows) == goal <==> NotShadowed(run.db.rows, patch.version, out))
        && (InStep(env.expand, run) && run.db.version <= patch.version ==>
          InStep(env.expand, run') && Live(run'.db.rows) == goal)
      case Some(e) =>
        if e == InsertFailed then
          && run'.db.version == patch.version && run'.db.hash == Total(env.expand, goal)
          && run'.db.rows == DeleteRows(run.db.rows, out.removed)
        else run'.db == run.db
  {
    hide ExaminePatch, Fold, Outputs, Total, SubtractThenAdd, Removed, Added, Live, InsertRows, Insertable, DeleteRows,
      NotShadowed;
    var live, ms := Live(run.db.rows), patch.mutations;
    Examined(env, live, patch, run.state, check);
    if ExaminePatch(env, live, patch, run.state, check).Ok? {
      var st := PatchedState(env, live, patch, run.state);
      HashFollowsMap(env.expand, run.state.hash, live, ms, |ms|);
      if StoreMACs(run.db, st, Outputs(ms, |ms|)).1 {
        BatchedWriteIsFold(run.db.rows, st.version, ms);
        if InStep(env.expand, run) && run.db.version <= patch.version {
          WriteKeepsConsistent(env.expand, run.db, st, ms);
        }
      }
    }
  }

  lemma {:induction false} DecodedIndexesSized(env: Env, ms: seq<Mutation>, n: nat, version: nat)
    requires n <= |ms| && DecodeMutations(env, ms, n, true, version).Ok?
    ensures forall i :: 0 <= i < n ==> |ms[i].record.indexMAC| == 32
  {
    hide DecodeMutation;
    if n > 0 {
      DecodedIndexesSized(env, ms, n - 1, version);
      DecodedIndexSized(env, ms[n - 1], version);
    }
  }

  lemma DecodedIndexSized(env: Env, m: Mutation, version: nat)
    ensures DecodeMutation(env, m, true, version).Ok? ==> |m.record.indexMAC| == 32
  {
  }

  /** A checked patch that passes every MAC check still fails, after the version row was written, exactly when it SETs
      an index twice in a row, or SETs one that already has a row of the patch's version. */
  lemma TornExactly(env: Env, run: Run, patch: Patch)
    requires run.err.None? && ExaminePatch(env, Live(run.db.rows), patch, run.state, true).Ok?
    ensures var left := DeleteRows(run.db.rows, Outputs(patch.mutations, |patch.mutations|).removed);
      ApplyPatch(env, run, patch, true).err ==
      if RepeatsSet(patch.mutations) || Collides(left, patch.version, patch.mutations) then Some(InsertFailed) else None
  {
    hide DecodeMutations, ValidatePatch, RepeatsSet, Collides, Outputs, Insertable, InsertRows, DeleteRows, Live;
    var (st, ds) := ExaminePatch(env, Live(run.db.rows), patch, run.state, true).value;
    Examined(env, Live(run.db.rows), patch, run.state, true);
    DecodedIndexesSized(env, patch.mutations, |patch.mutations|, st.version);
    var left := DeleteRows(run.db.rows, Outputs(patch.mutations, |patch.mutations|).removed);
    InsertFailsExactly(left, patch.version, patch.mutations);
  }

  /** With a version above the stored one, exactly on a repeated SET. */
  lemma TornExactlyOnRepeatedSet(env: Env, run: Run, patch: Patch)
    requires InStep(env.expand, run) && run.db.version < patch.version
    requires ExaminePatch(env, Live(run.db.rows), patch, run.state, true).Ok?
    ensures ApplyPatch(env, run, patch, true).err == if RepeatsSet(patch.mutations) then Some(InsertFailed) else None
  {
    hide ExaminePatch, RepeatsSet, Outputs, ApplyPatch, Live;
    TornExactly(env, run, patch);
  }

  /** A patch numbered below a stored row of the index that it SETs to another value passes, and its value stays
      invisible, although it went into the hash. */
  lemma LowerNumberedPatchIsInvisible(env: Env, run: Run, patch: Patch, newer: RowKey)
    requires Matches(env.expand, run) && ExaminePatch(env, Live(run.db.rows), patch, run.state, true).Ok?
    requires |patch.mutations| == 1 && patch.mutations[0].op.SET?
    requires newer.index == patch.mutations[0].record.indexMAC
    requires Top(run.db.rows, newer) && newer.version > patch.version
    requires RowKey(patch.version, newer.index) !in run.db.rows
    requires run.db.rows[newer] != ValueMAC(patch.mutations[0].record.blob)
    ensures var run' := ApplyPatch(env, run, patch, true);
      var live, value := Live(run.db.rows), ValueMAC(patch.mutations[0].record.blob);
      && run'.err.None? && Live(run'.db.rows) == live && Get(live, newer.index) == Some(run.db.rows[newer])
      && run'.db.hash == Total(env.expand, live[newer.index := value])
      && (Faithful(env.expand, run'.db) <==> env.expand(run.db.rows[newer]) == env.expand(value))
  {
    hide ExaminePatch, Total, Live, Top;
    var ms := patch.mutations;
    OneSet(ms, Live(run.db.rows));
    TornExactly(env, run, patch);
    PatchOutcome(env, run, patch, true);
    Examined(env, Live(run.db.rows), patch, run.state, true);
    InvisibleWrite(run.db.rows, patch.version, newer, ValueMAC(ms[0].record.blob));
    ReplacementShows(env.expand, Live(run.db.rows), newer.index, ValueMAC(ms[0].record.blob));
  }

  lemma OneSet(ms: seq<Mutation>, live: LiveMap)
    requires |ms| == 1 && ms[0].op.SET?
    ensures Outputs(ms, 1) == Output([], [MacPair(ms[0].record.indexMAC, ValueMAC(ms[0].record.blob))])
    ensures Fold(live, ms, 1) == live[ms[0].record.indexMAC := ValueMAC(ms[0].record.blob)]
    ensures !RepeatsSet(ms)
  {
    assert Outputs(ms, 0) == Output([], []);
    assert Fold(live, ms, 0) == live;
    assert Survivors(ms, 1, ms[0].record.indexMAC) == 1;
  }

  lemma InvisibleWrite(rows: Rows, version: nat, newer: RowKey, value: Bytes)
    requires Top(rows, newer) && newer.version > version
    ensures var written := InsertRows(DeleteRows(rows, []), version, [MacPair(newer.index, value)]);
      Live(written) == Live(rows) && Get(Live(rows), newer.index) == Some(rows[newer])
  {
    var out := Output([], [MacPair(newer.index, value)]);
    var written := Written(rows, version, out);
    hide Live, Written;
    LookupShadowed(rows, version, out, newer);
    TopIsLive(rows, newer);
    forall index: Bytes ensures Get(Live(written), index) == Get(Live(rows), index) {
      if index != newer.index {
        assert index !in MapOf(out.added);
        LookupUntouched(rows, version, out, index);
      }
    }
    SameLookups(Live(written), Live(rows));
    assert written == InsertRows(DeleteRows(rows, []), version, [MacPair(newer.index, value)]) by {
      WrittenIs(rows, version, out);
    }
  }

  lemma WrittenIs(rows: Rows, version: nat, out: Output)
    ensures Written(rows, version, out) == InsertRows(DeleteRows(rows, out.removed), version, out.added)
  {
  }

  lemma TopIsLive(rows: Rows, k: RowKey)
    requires Top(rows, k)
    ensures Get(Live(rows), k.index) == Some(rows[k])
  {
    assert forall j :: Top(rows, j) && j.index == k.index ==> j == k;
  }

  /** The server numbers its patches upwards from the stored version. */
  ghost predicate Increasing(version: nat, patches: seq<Patch>) {
    patches == [] ||
    var front, last := patches[..|patches| - 1], patches[|patches| - 1];
    Increasing(version, front) && LastVersion(version, front) < last.version
  }

  function LastVersion(version: nat, patches: seq<Patch>): nat {
    if patches == [] then version else patches[|patches| - 1].version
  }

  ghost function FoldPatches(live: LiveMap, patches: seq<Patch>): LiveMap {
    if patches == [] then live
    else var last := patches[|patches| - 1].mutations;
      Fold(FoldPatches(live, patches[..|patches| - 1]), last, |last|)
  }

  /** The number of patches before the first one that is not stored. */
  ghost function Accepted(env: Env, run: Run, patches: seq<Patch>, check: bool): (k: nat)
    ensures k <= |patches|
  {
    if patches == [] || ApplyPatches(env, run, patches, check).err.None? then |patches|
    else Accepted(env, run, patches[..|patches| - 1], check)
  }

  /** No newer row shadows what a patch puts, all the way to the first patch that fails. */
  ghost predicate Unshadowed(env: Env, run: Run, patches: seq<Patch>, check: bool) {
    patches == [] ||
    var front, last := patches[..|patches| - 1], patches[|patches| - 1];
    && Unshadowed(env, run, front, check)
    && var before := ApplyPatches(env, run, front, check);
    before.err.None? ==> NotShadowed(before.db.rows, last.version, Outputs(last.mutations, |last.mutations|))
  }

  /** Wherever the first bad patch lies, and however the patches are numbered, exactly the patches before it are
      stored: version and hash are those of the prefix, in memory and in the store, and later patches have no effect.
      As long as no newer row shadows a put value, the stored map is the fold of the prefix. */
  lemma ExactlyTheValidPrefix(env: Env, run: Run, patches: seq<Patch>, check: bool)
    requires Matches(env.expand, run)
    ensures var k := Accepted(env, run, patches, check);
      var prefix, whole := ApplyPatches(env, run, patches[..k], check), ApplyPatches(env, run, patches, check);
      && prefix.err.None? && prefix.state == Stored(prefix.db)
      && prefix.db.version == LastVersion(run.db.version, patches[..k])
      && (whole.err.None? <==> k == |patches|)
      && (k < |patches| ==> whole == ApplyPatch(env, prefix, patches[k], check))
      && (k < |patches| && whole.err != Some(InsertFailed) ==> whole.db == prefix.db)
      && (Unshadowed(env, run, patches[..k], check) ==>
        Matches(env.expand, prefix) && Live(prefix.db.rows) == FoldPatches(Live(run.db.rows), patches[..k]))
  {
    hide ApplyPatches, Accepted, Matches, Unshadowed, FoldPatches, Live, LastVersion;
    MatchesIsStored(env.expand, run);
    PrefixIsStored(env, run, patches, check);
    var k := Accepted(env, run, patches, check);
    if Unshadowed(env, run, patches[..k], check) {
      PrefixIsFaithful(env, run, patches[..k], check);
    }
  }

  lemma MatchesIsStored(expand: Expand, run: Run)
    requires Matches(expand, run)
    ensures run.err.None? && run.state == Stored(run.db)
  {
  }

  lemma {:induction false} PrefixIsStored(env: Env, run: Run, patches: seq<Patch>, check: bool)
    requires run.err.None? && run.state == Stored(run.db)
    ensures var k := Accepted(env, run, patches, check);
      var prefix, whole := ApplyPatches(env, run, patches[..k], check), ApplyPatches(env, run, patches, check);
      && prefix.err.None? && prefix.state == Stored(prefix.db)
      && prefix.db.version == LastVersion(run.db.version, patches[..k])
      && (whole.err.None? <==> k == |patches|)
      && (k < |patches| ==> whole == ApplyPatch(env, prefix, patches[k], check))
      && (k < |patches| && whole.err != Some(InsertFailed) ==> whole.db == prefix.db)
  {
    hide ExaminePatch, Commit, Live;
    assert patches[..|patches|] == patches;
    if patches != [] {
      var front := patches[..|patches| - 1];
      PrefixIsStored(env, run, front, check);
      var k := Accepted(env, run, front, check);
      assert front[..k] == patches[..k];
      ApplyIsStored(env, ApplyPatches(env, run, front[..k], check), patches[k], check);
    }
  }

  lemma {:induction false} PrefixIsFaithful(env: Env, run: Run, patches: seq<Patch>, check: bool)
    requires Matches(env.expand, run) && Unshadowed(env, run, patches, check)
    requires ApplyPatches(env, run, patches, check).err.None?
    ensures var after := ApplyPatches(env, run, patches, check);
      Matches(env.expand, after) && Live(after.db.rows) == FoldPatches(Live(run.db.rows), patches)
  {
    hide ApplyPatch, Matches, Live, Fold, Outputs, NotShadowed;
    if patches != [] {
      var front, last := patches[..|patches| - 1], patches[|patches| - 1];
      var before := ApplyPatches(env, run, front, check);
      ErrorsStay(env, before, last, check);
      PrefixIsFaithful(env, run, front, check);
      FoldIsFaithful(env, before, last, check);
    }
  }

  lemma ErrorsStay(env: Env, run: Run, patch: Patch, check: bool)
    ensures run.err.Some? ==> ApplyPatch(env, run, patch, check).err.Some?
  {
    hide ExaminePatch, Commit, Live;
  }

  /** Whether or not the hash fits the rows: an accepted patch leaves memory and store in the same state, and a rejected
      one leaves the store alone. */
  lemma ApplyIsStored(env: Env, run: Run, patch: Patch, check: bool)
    requires run.err.None? && run.state == Stored(run.db)
    ensures var run' := ApplyPatch(env, run, patch, check);
      if run'.err.None? then run'.state == Stored(run'.db) && run'.db.version == patch.version
      else run'.err != Some(InsertFailed) ==> run'.db == run.db
  {
    hide ExaminePatch, Live, Outputs, InsertRows, DeleteRows, Insertable;
    Examined(env, Live(run.db.rows), patch, run.state, check);
  }

  lemma FoldIsFaithful(env: Env, run: Run, patch: Patch, check: bool)
    requires Matches(env.expand, run)
    ensures var run' := ApplyPatch(env, run, patch, check);
      run'.err.None? && NotShadowed(run.db.rows, patch.version, Outputs(patch.mutations, |patch.mutations|)) ==>
        Matches(env.expand, run')
        && Live(run'.db.rows) == Fold(Live(run.db.rows), patch.mutations, |patch.mutations|)
  {
    hide ApplyPatch, Live, Fold, Outputs, Total, NotShadowed;
    PatchOutcome(env, run, patch, check);
  }

  /** When the server numbers its patches upwards from a consistent store, nothing is ever shadowed, and the prefix
      leaves a consistent store. */
  lemma {:induction false} IncreasingPrefix(env: Env, run: Run, patches: seq<Patch>, check: bool)
    requires InStep(env.expand, run) && Increasing(run.db.version, patches)
    ensures var k := Accepted(env, run, patches, check);
      var prefix, whole := ApplyPatches(env, run, patches[..k], check), ApplyPatches(env, run, patches, check);
      && InStep(env.expand, prefix)
      && Live(prefix.db.rows) == FoldPatches(Live(run.db.rows), patches[..k])
      && prefix.db.version == LastVersion(run.db.version, patches[..k])
      && (whole.err.None? <==> k == |patches|)
      && (k < |patches| ==>
        whole == ApplyPatch(env, prefix, patches[k], check) && prefix.db.version < patches[k].version)
      && (k < |patches| && whole.err != Some(InsertFailed) ==> whole.db == prefix.db)
  {
    hide ExaminePatch, Commit, Faithful, Live, Fold, DeleteRows, Outputs, Total, NotShadowed;
    assert patches[..|patches|] == patches;
    if patches != [] {
      var n := |patches| - 1;
      var front := patches[..n];
      IncreasingPrefix(env, run, front, check);
      var k := Accepted(env, run, front, check);
      assert front[..k] == patches[..k];
      PatchOutcome(env, ApplyPatches(env, run, front[..k], check), patches[k], check);
    }
  }

  // ----- Snapshots -----

  /** SETs of distinct indexes that are not live replace nothing. */
  lemma {:induction false} NoneReplaced(live: LiveMap, ms: seq<Mutation>, n: nat)
    requires n <= |ms| && DistinctIndexes(ms) && forall i :: 0 <= i < |ms| ==> ms[i].record.indexMAC !in live
    ensures Removed(PatchThenStore, live, ms, n) == []
  {
    hide PreviousInPatch, Listed;
    if n > 0 {
      NoneReplaced(live, ms, n - 1);
      SearchMisses(live, ms, n - 1, ms[n - 1].record.indexMAC);
      NothingListed(live, ms[n - 1].record.indexMAC);
    }
  }

  lemma NothingListed(live: LiveMap, index: Bytes)
    requires index !in live
    ensures [] + Listed(Get(live, index)) == []
  {
  }

  lemma {:induction false} SearchMisses(live: LiveMap, ms: seq<Mutation>, n: nat, index: Bytes)
    requires n <= |ms| && forall i :: 0 <= i < n ==> ms[i].record.indexMAC != index
    ensures PreviousInPatch(live, ms, n, index) == Get(live, index)
  {
    if n > 0 {
      SearchMisses(live, ms, n - 1, index);
    }
  }

  lemma NothingToRemove(live: LiveMap, ms: seq<Mutation>, n: nat, index: Bytes)
    requires n <= |ms|
    ensures [] + Listed(Previous(Nothing, live, ms, n, index)) == []
  {
  }

  lemma {:induction false} NothingRemoved(live: LiveMap, ms: seq<Mutation>, n: nat)
    requires n <= |ms|
    ensures Removed(Nothing, live, ms, n) == []
  {
    hide Previous, Listed;
    if n > 0 {
      NothingRemoved(live, ms, n - 1);
      NothingToRemove(live, ms, n - 1, ms[n - 1].record.indexMAC);
    }
  }

  lemma {:induction false} OutputsOfSets(ms: seq<Mutation>, n: nat)
    requires n <= |ms| && forall i :: 0 <= i < |ms| ==> ms[i].op.SET?
    ensures Outputs(ms, n).removed == [] && |Outputs(ms, n).added| == n
    ensures forall i :: 0 <= i < n ==> Outputs(ms, n).added[i].indexMAC == ms[i].record.indexMAC
  {
    if n > 0 {
      OutputsOfSets(ms, n - 1);
    }
  }

  ghost predicate DistinctIndexes(ms: seq<Mutation>) {
    forall i, j :: 0 <= i < j < |ms| ==> ms[i].record.indexMAC != ms[j].record.indexMAC
  }

  lemma EmptyCollection(expand: Expand)
    ensures Live(map[]) == map[] && Total(expand, map[]) == ZERO
    ensures Consistent(expand, Db(false, 0, ZERO, map[]))
  {
  }

  /** A snapshot on an empty collection: accepted only with distinct indexes, and then the stored hash is the total of
      the stored map, which holds exactly the records. */
  lemma SnapshotOutcome(env: Env, ss: Snapshot, check: bool)
    ensures var run := ApplySnapshot(env, Run(Db(false, 0, ZERO, map[]), EMPTY, [], None), ss, check);
      run.err.None? ==>
        && DistinctIndexes(AsSets(ss.records))
        && InStep(env.expand, run) && run.db.version == ss.version
        && Live(run.db.rows) == Fold(map[], AsSets(ss.records), |ss.records|)
  {
    hide Total, SubtractThenAdd, Removed, Added, Fold, Outputs, Live, InsertRows, DecodeMutations, CheckSnapshotMAC;
    var db, ms := Db(false, 0, ZERO, map[]), AsSets(ss.records);
    var run := ApplySnapshot(env, Run(db, EMPTY, [], None), ss, check);
    if run.err.None? {
      var st := HState(ss.version, UpdatedHash(env.expand, ZERO, Nothing, map[], ms));
      OutputsOfSets(ms, |ms|);
      var added := Outputs(ms, |ms|).added;
      forall i, j | 0 <= i < j < |ms|
        ensures ms[i].record.indexMAC != ms[j].record.indexMAC
      {
        assert added[i].indexMAC != added[j].indexMAC;
      }
      NoneReplaced(map[], ms, |ms|);
      NothingRemoved(map[], ms, |ms|);
      EmptyCollection(env.expand);
      HashFollowsMap(env.expand, ZERO, map[], ms, |ms|);
      WriteKeepsConsistent(env.expand, db, st, ms);
    }
  }

  /** The values that these SETs replace expand to elements that sum to zero; so it is when they replace none. */
  ghost predicate ReplacedCancel(expand: Expand, live: LiveMap, ms: seq<Mutation>) {
    UpdateAll(expand, ZERO, Removed(PatchThenStore, live, ms, |ms|), true) == ZERO
  }

  lemma NoneReplacedCancel(expand: Expand, live: LiveMap, ms: seq<Mutation>)
    requires DistinctIndexes(ms) && forall i :: 0 <= i < |ms| ==> ms[i].record.indexMAC !in live
    ensures ReplacedCancel(expand, live, ms)
  {
    hide Removed, UpdateAll;
    NoneReplaced(live, ms, |ms|);
    NothingSubtracted(expand, ZERO);
  }

  lemma AddedToOldHash(expand: Expand, h: Hash, live: LiveMap, ms: seq<Mutation>)
    requires h == Total(expand, live)
    ensures SubtractThenAdd(expand, h, [], Added(ms, |ms|)) == Total(expand, Fold(live, ms, |ms|)) <==>
            ReplacedCancel(expand, live, ms)
  {
    hide Total, UpdateAll, Removed, Added, Fold;
    var removed, added := Removed(PatchThenStore, live, ms, |ms|), Added(ms, |ms|);
    HashFollowsMap(expand, h, live, ms, |ms|);
    UpdatesFromZero(expand, h, removed, true);
    NothingSubtracted(expand, h);
    if UpdateAll(expand, h, added, false) == UpdateAll(expand, UpdateAll(expand, h, removed, true), added, false) {
      UpdatesDetermine(expand, h, UpdateAll(expand, h, removed, true), added, false);
    }
  }

  lemma NothingSubtracted(expand: Expand, h: Hash)
    ensures UpdateAll(expand, h, [], true) == h
  {
  }

  /** A snapshot on any collection: it does not look for the values that it replaces, so that the stored hash is the
      total of the stored map exactly when these cancel out, as long as no newer row shadows a record. */
  lemma SnapshotOnto(env: Env, run: Run, ss: Snapshot, check: bool)
    requires Matches(env.expand, run)
    ensures var r, ms := ApplySnapshot(env, run, ss, check), AsSets(ss.records);
      if r.err.None? then
        && DistinctIndexes(ms) && r.state == Stored(r.db) && r.db.hasVersion && r.db.version == ss.version
        && (NotShadowed(run.db.rows, ss.version, Outputs(ms, |ms|)) ==>
          Live(r.db.rows) == Fold(Live(run.db.rows), ms, |ms|)
          && (Matches(env.expand, r) <==> ReplacedCancel(env.expand, Live(run.db.rows), ms)))
      else r.err != Some(InsertFailed) ==> r.db == run.db
  {
    hide Total, SubtractThenAdd, Removed, Added, Fold, Outputs, Live, InsertRows, DeleteRows, DecodeMutations,
      CheckSnapshotMAC, NotShadowed, ReplacedCancel;
    var ms := AsSets(ss.records);
    DecodeNeverInserts(env, ms, |ms|, check, ss.version);
    if ApplySnapshot(env, run, ss, check).err.None? {
      OutputsOfSets(ms, |ms|);
      var added := Outputs(ms, |ms|).added;
      forall i, j | 0 <= i < j < |ms|
        ensures ms[i].record.indexMAC != ms[j].record.indexMAC
      {
        assert added[i].indexMAC != added[j].indexMAC;
      }
      NothingRemoved(map[], ms, |ms|);
      BatchedWriteIsFold(run.db.rows, ss.version, ms);
      AddedToOldHash(env.expand, run.state.hash, Live(run.db.rows), ms);
    }
  }

  // ----- A torn write, concretely -----

  /** The patch with these mutations on an empty collection, with the MACs that its sender computes. */
  function SealedFirst(env: Env, keyID: Bytes, ms: seq<Mutation>): Patch
    requires keyID in env.keys
  {
    var keys := env.keys[keyID];
    var st := PatchedState(env, map[], Patch(1, keyID, ms, [], []), EMPTY);
    var mac := SnapshotMAC(env, st, keys.snapshotMAC);
    Patch(1, keyID, ms, mac, PatchMAC(env, mac, ms, keys.patchMAC, 1))
  }

  /** Two SETs of one index in one patch with valid MACs, on an empty collection: afterwards the store claims the hash
      of a one-entry map, but has no rows. */
  lemma RepeatedSetBreaksStore(env: Env, keyID: Bytes, put: Mutation)
    requires keyID in env.keys && put.op.SET? && DecodeMutation(env, put, true, 1).Ok?
    requires env.expand(ValueMAC(put.record.blob)) != ZERO
    ensures var start := Run(Db(false, 0, ZERO, map[]), EMPTY, [], None);
      var run := ApplyPatch(env, start, SealedFirst(env, keyID, [put, put]), true);
      && InStep(env.expand, start) && run.err == Some(InsertFailed)
      && run.db.hasVersion && run.db.rows == map[] && !Faithful(env.expand, run.db)
  {
    hide DecodeMutation, Total, InsertRows, UpdatedHash, ExaminePatch, Fold, Outputs, Live, Insertable, DeleteRows,
      SealedFirst, RepeatsSet, Survivors;
    var ms, start := [put, put], Run(Db(false, 0, ZERO, map[]), EMPTY, [], None);
    var patch := SealedFirst(env, keyID, ms);
    SealedIs(env, keyID, ms);
    EmptyCollection(env.expand);
    SealedExamined(env, keyID, put);
    TwoPuts(put);
    TornExactly(env, start, patch);
    PatchOutcome(env, start, patch, true);
    OneEntry(env.expand, put.record.indexMAC, ValueMAC(put.record.blob));
  }

  lemma SealedIs(env: Env, keyID: Bytes, ms: seq<Mutation>)
    requires keyID in env.keys
    ensures SealedFirst(env, keyID, ms).mutations == ms && SealedFirst(env, keyID, ms).version == 1
  {
  }

  lemma SealedExamined(env: Env, keyID: Bytes, put: Mutation)
    requires keyID in env.keys && DecodeMutation(env, put, true, 1).Ok?
    ensures ExaminePatch(env, map[], SealedFirst(env, keyID, [put, put]), EMPTY, true).Ok?
  {
    hide DecodeMutation, UpdatedHash, SnapshotMAC, PatchMAC;
    assert DecodeMutations(env, [put, put], 0, true, 1) == Ok([]);
    assert DecodeMutations(env, [put, put], 1, true, 1).Ok?;
    assert DecodeMutations(env, [put, put], 2, true, 1).Ok?;
  }

  lemma TwoPuts(put: Mutation)
    requires put.op.SET?
    ensures var ms, index := [put, put], put.record.indexMAC;
      && RepeatsSet(ms) && DeleteRows(map[], Outputs(ms, 2).removed) == map[]
      && Fold(map[], ms, 2) == map[index := ValueMAC(put.record.blob)]
  {
    var ms, index := [put, put], put.record.indexMAC;
    assert Survivors(ms, 1, index) == 1 && Survivors(ms, 2, ms[0].record.indexMAC) == 2;
    assert Fold(map[], ms, 0) == map[] && Step(map[], put) == map[index := ValueMAC(put.record.blob)];
    assert Fold(map[], ms, 1) == map[index := ValueMAC(put.record.blob)];
  }

  lemma OneEntry(expand: Expand, index: Bytes, value: Bytes)
    ensures Total(expand, map[index := value]) == expand(value) && Total(expand, map[]) == ZERO
  {
    var live := map[index := value];
    TotalSplit(expand, live, index);
    assert live - {index} == map[];
    AddToZero(expand(value));
  }
}
