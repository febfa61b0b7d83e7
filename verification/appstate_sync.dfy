/** The stateful side of app-state synchronisation: the store, the hash state that is updated in place, the patch output
    that grows and is filtered, and the loops of the processor and the client, each proved against `AppState`. */
module AppStateSync {
  import opened Bytes
  import opened LTHash
  import opened AppState
  import opened AppStateTheorems
  import Encode = AppStateEncode
  import opened AppStateFetch

  lemma NoInsertions(rows: Rows, version: nat)
    ensures InsertRows(rows, version, []) == rows
  {
  }

  lemma InsertOneMore(rows: Rows, version: nat, added: seq<MacPair>, n: nat)
    requires n < |added|
    ensures InsertRows(rows, version, added[..n + 1]) ==
            InsertRows(rows, version, added[..n])[RowKey(version, added[n].indexMAC) := added[n].valueMAC]
  {
    assert added[..n + 1][..n] == added[..n];
  }

  /** One collection of `SQLStore`. */
  class Store {
    var hasVersion: bool
    var version: nat
    var hash: Hash
    var rows: Rows

    constructor (db: Db)
      ensures View() == db
    {
      hasVersion, version, hash, rows := db.hasVersion, db.version, db.hash, db.rows;
    }

    ghost function View(): Db
      reads this
    {
      Db(hasVersion, version, hash, rows)
    }

    method PutAppStateVersion(st: HState)
      modifies this
      ensures View() == PutVersion(old(View()), st)
    {
      hasVersion, version, hash := true, st.version, st.hash;
    }

    method GetAppStateVersion() returns (r: Result<HState, Error>)
      ensures r == if hasVersion && version == 0 then Err(InvalidStoredVersion) else Ok(HState(version, hash))
    {
      if hasVersion && version == 0 {
        return Err(InvalidStoredVersion);
      }
      return Ok(HState(version, hash));
    }

    method DeleteAppStateVersion()
      modifies this
      ensures View() == NO_DB
    {
      hasVersion, version, hash, rows := false, 0, ZERO, map[];
    }

    method DeleteAppStateMutationMACs(indexes: seq<Bytes>)
      modifies this
      ensures View() == old(View()).(rows := DeleteRows(old(rows), indexes))
    {
      rows := map k | k in rows && k.index !in indexes :: rows[k];
    }

    /** One transaction: a violated constraint rolls all insertions back. */
    method PutAppStateMutationMACs(version: nat, added: seq<MacPair>) returns (ok: bool)
      modifies this
      ensures ok <==> Insertable(old(rows), version, added)
      ensures View() == if ok then old(View()).(rows := InsertRows(old(rows), version, added)) else old(View())
    {
      hide InsertRows;
      var table := rows;
      NoInsertions(rows, version);
      for n := 0 to |added|
        invariant View() == old(View())
        invariant table == InsertRows(rows, version, added[..n])
        invariant Insertable(rows, version, added[..n])
        invariant forall k :: k in table ==>
          k in rows || (k.version == version && exists i :: 0 <= i < n && added[i].indexMAC == k.index)
        invariant forall k :: k in rows ==> k in table
        invariant forall i :: 0 <= i < n ==> RowKey(version, added[i].indexMAC) in table
      {
        var key := RowKey(version, added[n].indexMAC);
        if |key.index| != 32 || key in table {
          assert key == RowKey(version, added[n].indexMAC);
          assert !Insertable(rows, version, added);
          return false;
        }
        table := table[key := added[n].valueMAC];
        InsertOneMore(rows, version, added, n);
      }
      assert added[..|added|] == added;
      rows := table;
      return true;
    }

    /** The row of this index with the highest version. */
    method GetAppStateMutationMAC(index: Bytes) returns (value: Option<Bytes>)
      ensures value == Get(Live(rows), index)
    {
      var best: Option<RowKey> := None;
      var todo := rows.Keys;
      while todo != {}
        invariant todo <= rows.Keys
        invariant best.Some? ==> best.value in rows && best.value.index == index
        invariant forall k :: k in rows && k !in todo && k.index == index ==>
          best.Some? && k.version <= best.value.version
      {
        var k :| k in todo;
        todo := todo - {k};
        if k.index == index && (best.None? || best.value.version < k.version) {
          best := Some(k);
        }
      }
      if best.None? {
        return None;
      }
      assert Top(rows, best.value);
      return Some(rows[best.value]);
    }
  }

  /** The callback given to `updateHash`: nothing, a store lookup, or the backward search with store fallback. */
  method PreviousValue(store: Store, how: Lookup, ms: seq<Mutation>, maxIndex: nat, index: Bytes)
    returns (value: Option<Bytes>)
    requires maxIndex <= |ms|
    ensures value == Previous(how, Live(store.rows), ms, maxIndex, index)
  {
    if how.Nothing? {
      return None;
    }
    if how.PatchThenStore? {
      for i := maxIndex downto 0
        invariant PreviousInPatch(Live(store.rows), ms, maxIndex, index) ==
          PreviousInPatch(Live(store.rows), ms, i, index)
      {
        if ms[i].record.indexMAC == index {
          return if ms[i].op.SET? then Some(ValueMAC(ms[i].record.blob)) else None;
        }
      }
    }
    value := store.GetAppStateMutationMAC(index);
  }

  class HashState {
    var version: nat
    const hash: array<byte>

    constructor (st: HState)
      ensures Valid() && fresh(hash) && Value() == st
    {
      version := st.version;
      hash := new byte[128](i requires 0 <= i < 128 => st.hash[i]);
      new;
      assert hash[..] == st.hash;
    }

    ghost predicate Valid() { hash.Length == 128 }

    function Value(): HState
      requires Valid()
      reads this, hash
    {
      HState(version, hash[..])
    }

    method UpdateHash(expand: Expand, store: Store, how: Lookup, ms: seq<Mutation>)
      requires Valid()
      modifies hash
      ensures hash[..] == UpdatedHash(expand, old(hash[..]), how, Live(store.rows), ms)
    {
      hide Live, SubtractThenAdd, Previous;
      ghost var live := Live(store.rows);
      var added, removed := [], [];
      for i := 0 to |ms|
        invariant hash[..] == old(hash[..])
        invariant added == Added(ms, i) && removed == Removed(how, live, ms, i)
      {
        if ms[i].op.SET? {
          added := added + [ValueMAC(ms[i].record.blob)];
        }
        var removal := PreviousValue(store, how, ms, i, ms[i].record.indexMAC);
        if removal.Some? {
          removed := removed + [removal.value];
        }
      }
      SubtractThenAddInPlace(expand, hash, removed, added);
    }
  }

  class PatchOutput {
    var removed: seq<Bytes>
    var added: seq<MacPair>
    var mutations: seq<Decoded>

    constructor (mutations: seq<Decoded>)
      ensures View() == Output([], []) && this.mutations == mutations
    {
      removed, added, this.mutations := [], [], mutations;
    }

    ghost function View(): Output
      reads this
    {
      Output(removed, added)
    }

    method RemoveMAC(index: Bytes)
      modifies `removed, `added
      ensures View() == Output(old(removed) + [index], Without(old(added), index))
    {
      removed := removed + [index];
      var kept := [];
      for i := 0 to |added|
        invariant kept == Without(added[..i], index)
      {
        assert added[..i + 1][..i] == added[..i];
        if added[i].indexMAC != index {
          kept := kept + [added[i]];
        }
      }
      assert added[..|added|] == added;
      added := kept;
    }

    method AddMAC(index: Bytes, value: Bytes)
      modifies `added
      ensures View() == old(View()).(added := old(added) + [MacPair(index, value)])
    {
      added := added + [MacPair(index, value)];
    }
  }

  lemma {:induction false} FirstErrorSticks(env: Env, ms: seq<Mutation>, n: nat, m: nat, check: bool, version: nat)
    requires n <= m <= |ms| && DecodeMutations(env, ms, n, check, version).Err?
    ensures DecodeMutations(env, ms, m, check, version) == DecodeMutations(env, ms, n, check, version)
  {
    hide DecodeMutation;
    if n < m {
      FirstErrorSticks(env, ms, n, m - 1, check, version);
    }
  }

  class Processor {
    const env: Env
    const store: Store

    constructor (env: Env, store: Store)
      ensures this.env == env && this.store == store
    {
      this.env, this.store := env, store;
    }

    method DecodeAll(ms: seq<Mutation>, out: PatchOutput, check: bool, version: nat) returns (err: Option<Error>)
      requires out.View() == Output([], [])
      modifies out
      ensures match DecodeMutations(env, ms, |ms|, check, version)
        case Err(e) => err == Some(e)
        case Ok(ds) =>
          err == None && out.View() == Outputs(ms, |ms|) && out.mutations == old(out.mutations) + ds
    {
      hide DecodeMutation, Without;
      for i := 0 to |ms|
        invariant DecodeMutations(env, ms, i, check, version).Ok?
        invariant out.View() == Outputs(ms, i)
        invariant out.mutations == old(out.mutations) + DecodeMutations(env, ms, i, check, version).value
      {
        var decoded := DecodeMutation(env, ms[i], check, version);
        if decoded.Err? {
          FirstErrorSticks(env, ms, i + 1, |ms|, check, version);
          return Some(decoded.error);
        }
        if ms[i].op.REMOVE? {
          out.RemoveMAC(ms[i].record.indexMAC);
        } else {
          out.AddMAC(ms[i].record.indexMAC, ValueMAC(ms[i].record.blob));
        }
        out.mutations := out.mutations + [decoded.value];
      }
      return None;
    }

    method WriteMACs(st: HState, out: PatchOutput) returns (ok: bool)
      modifies store
      ensures (store.View(), ok) == StoreMACs(old(store.View()), st, out.View())
    {
      store.PutAppStateVersion(st);
      store.DeleteAppStateMutationMACs(out.removed);
      ok := store.PutAppStateMutationMACs(st.version, out.added);
    }

    method Validate(patch: Patch, st: HState, check: bool) returns (r: Result<HState, Error>)
      ensures r == ValidatePatch(env, Live(store.rows), patch, st, check)
    {
      hide Live, UpdatedHash, PatchMAC, SnapshotMAC;
      var newState := new HashState(HState(patch.version, st.hash));
      newState.UpdateHash(env.expand, store, PatchThenStore, patch.mutations);
      var state := newState.Value();
      if check {
        var keys := CheckSnapshotMAC(env, state, patch.keyID, patch.snapshotMAC);
        if keys.Err? {
          return Err(keys.error);
        }
        if PatchMAC(env, patch.snapshotMAC, patch.mutations, keys.value.patchMAC, patch.version) != patch.patchMAC {
          return Err(MismatchingPatchMAC);
        }
      }
      return Ok(state);
    }

    method DecodeSnapshot(ss: Snapshot, st: HState, check: bool, newMutations: seq<Decoded>)
      returns (mutations: seq<Decoded>, state: HState, err: Option<Error>)
      modifies store
      ensures Run(store.View(), state, mutations, err) ==
              ApplySnapshot(env, Run(old(store.View()), st, newMutations, None), ss, check)
    {
      hide Live, UpdatedHash, StoreMACs, DecodeMutations, SnapshotMAC, Outputs;
      var ms := AsSets(ss.records);
      var newState := new HashState(HState(ss.version, st.hash));
      newState.UpdateHash(env.expand, store, Nothing, ms);
      IgnoresStore(env.expand, st.hash, Live(store.rows), ms);
      state := newState.Value();
      if check {
        var keys := CheckSnapshotMAC(env, state, ss.keyID, ss.mac);
        if keys.Err? {
          return [], state, Some(keys.error);
        }
      }
      var out := new PatchOutput(newMutations);
      err := DecodeAll(ms, out, check, ss.version);
      if err.Some? {
        return [], state, err;
      }
      var ok := WriteMACs(state, out);
      if !ok {
        return [], state, Some(InsertFailed);
      }
      mutations := out.mutations;
    }

    method DecodePatches(page: Page, st: HState, check: bool)
      returns (mutations: seq<Decoded>, state: HState, err: Option<Error>)
      modifies store
      ensures Run(store.View(), state, mutations, err) == DecodePage(env, old(store.View()), page, st, check)
    {
      hide Live, StoreMACs, DecodeMutations, ValidatePatch, Outputs, ApplySnapshot, ApplyPatches;
      mutations, state, err := [], st, None;
      if page.snapshot.Some? {
        mutations, state, err := DecodeSnapshot(page.snapshot.value, state, check, mutations);
      }
      ghost var start := Run(store.View(), state, mutations, err);
      if err.Some? {
        ErrorSticks(env, start, page.patches, check);
        return;
      }
      NoPatches(env, start, check);
      assert page.patches[..0] == [];
      for i := 0 to |page.patches|
        invariant Run(store.View(), state, mutations, err) == ApplyPatches(env, start, page.patches[..i], check)
        invariant err.None?
      {
        var patch := page.patches[i];
        OneMorePatch(env, start, page.patches, i, check);
        var validated := Validate(patch, state, check);
        if validated.Err? {
          err := Some(validated.error);
          return;
        }
        var out := new PatchOutput(mutations);
        err := DecodeAll(patch.mutations, out, check, validated.value.version);
        if err.Some? {
          return;
        }
        var ok := WriteMACs(validated.value, out);
        if !ok {
          err := Some(InsertFailed);
          return;
        }
        mutations, state := out.mutations, validated.value;
      }
      assert page.patches[..|page.patches|] == page.patches;
    }

    method EncodePatch(keyID: Bytes, st: HState, infos: seq<Encode.MutationInfo>, ivs: seq<Encode.IV>)
      returns (r: Result<Patch, Error>)
      requires |infos| == |ivs|
      ensures r == Encode.EncodePatch(env, Live(store.rows), keyID, st, infos, ivs)
    {
      hide Live, UpdatedHash, PatchMAC, SnapshotMAC, Encode.EncodeMutation;
      if keyID !in env.keys {
        return Err(KeyNotFound);
      }
      var keys := env.keys[keyID];
      var mutations := [];
      for i := 0 to |infos|
        invariant mutations == Encode.EncodeMutations(env, keyID, keys, infos, ivs, i)
      {
        mutations := mutations + [Encode.EncodeMutation(env, keyID, keys, infos[i], ivs[i])];
      }
      var state := new HashState(st);
      state.UpdateHash(env.expand, store, StoreOnly, mutations);
      state.version := state.version + 1;
      return Ok(Encode.SealPatch(env, keyID, keys, state.Value(), mutations));
    }

    /** `fetchAppState`; `pages` are the server's answers, in the order in which they will be requested. */
    method FetchAppState(fullSync: bool, onlyIfNotSynced: bool, pages: seq<Page>)
      returns (mutations: seq<Decoded>, state: HState, err: Option<Error>)
      modifies store
      ensures Run(store.View(), state, mutations, err) ==
              Fetch(env, old(store.View()), fullSync, onlyIfNotSynced, pages)
    {
      hide DecodePage;
      mutations, err := [], None;
      if fullSync {
        store.DeleteAppStateVersion();
      }
      var stored := store.GetAppStateVersion();
      state := HState(store.version, store.hash);
      if stored.Err? {
        err := Some(stored.error);
        return;
      }
      if state.version != 0 && onlyIfNotSynced {
        return;
      }
      var hasMore, wantSnapshot, n := true, fullSync || state.version == 0, 0;
      ghost var result := FetchPages(env, Run(store.View(), state, [], None), pages, wantSnapshot);
      while hasMore
        invariant n <= |pages| && err.None?
        invariant result == if hasMore
          then FetchPages(env, Run(store.View(), state, mutations, None), pages[n..], wantSnapshot)
          else Run(store.View(), state, mutations, None)
        decreases |pages| - n, hasMore
      {
        if n == |pages| {
          err := Some(FetchFailed);
          return;
        }
        var page := pages[n];
        if !wantSnapshot && page.snapshot.Some? {
          err := Some(UnexpectedSnapshot);
          return;
        } else if page.snapshot.Some? && state != EMPTY {
          err := Some(NonEmptyInput);
          return;
        }
        wantSnapshot, hasMore := false, page.hasMore;
        var more, newState, failed := DecodePatches(page, state, true);
        if failed.Some? {
          err := failed;
          return;
        }
        assert pages[n..][1..] == pages[n + 1..];
        mutations, state, n := mutations + more, newState, n + 1;
        if !page.collected {
          err := Some(CollectFailed);
          return;
        }
      }
    }
  }

  /** The snapshot callback never looks at the store. */
  lemma IgnoresStore(expand: Expand, h: Hash, live: LiveMap, ms: seq<Mutation>)
    ensures UpdatedHash(expand, h, Nothing, live, ms) == UpdatedHash(expand, h, Nothing, map[], ms)
  {
    NothingRemoved(live, ms, |ms|);
    NothingRemoved(map[], ms, |ms|);
  }

  /** The loop of the patches: one more, and an error ends it. */
  lemma OneMorePatch(env: Env, start: Run, patches: seq<Patch>, i: nat, check: bool)
    requires i < |patches|
    ensures ApplyPatches(env, start, patches[..i + 1], check) ==
            ApplyPatch(env, ApplyPatches(env, start, patches[..i], check), patches[i], check)
    ensures ApplyPatches(env, start, patches[..i + 1], check).err.Some? ==>
      ApplyPatches(env, start, patches, check) == ApplyPatches(env, start, patches[..i + 1], check)
  {
    hide ApplyPatch;
    assert patches[..i + 1][..i] == patches[..i];
    assert patches == patches[..i + 1] + patches[i + 1..];
    ApplyAppended(env, start, patches[..i + 1], patches[i + 1..], check);
    var run := ApplyPatches(env, start, patches[..i + 1], check);
    if run.err.Some? {
      ErrorSticks(env, run, patches[i + 1..], check);
    }
  }
}
