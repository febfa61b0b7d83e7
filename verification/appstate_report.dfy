/** What decoding hands on, and exactly which patches and snapshots are accepted: told from the bytes of the mutations,
    the keys and the map, for SET and REMOVE alike. */
module AppStateReport {
  import opened Bytes
  import opened LTHash
  import opened AppState
  import opened AppStateTheorems
  import opened AppStateFetch

  // ----- One mutation -----

  /** The action inside a mutation: the initialisation vector is in the first 16 bytes, the value MAC in the last 32,
      and the ciphertext between them. */
  function Inside(env: Env, m: Mutation): Option<Action> {
    var r, n := m.record, |m.record.blob| - 32;
    if r.keyID !in env.keys then None
    else
      match env.decrypt(env.keys[r.keyID].valueEncryption, r.blob[..16], r.blob[16..n])
      case None => None
      case Some(plaintext) => env.unmarshal(plaintext)
  }

  /** It can be read. */
  predicate Legible(env: Env, m: Mutation) {
    Inside(env, m).Some? && env.parseIndex(Inside(env, m).value.index).Some?
  }

  /** Both MACs of it fit: the one over operation, key ID and ciphertext, and the one over the index. */
  predicate Authentic(env: Env, m: Mutation)
    requires Legible(env, m)
  {
    var r, n := m.record, |m.record.blob| - 32;
    var keys, op := env.keys[r.keyID], if m.op.SET? then 1 else 2;
    && env.hmac512(keys.valueMAC, [op] + r.keyID + r.blob[..n] + BigEndian(|r.keyID| + 1, 8))[..32] == r.blob[n..]
    && env.hmac256(keys.index, Inside(env, m).value.index) == r.indexMAC
  }

  predicate Acceptable(env: Env, m: Mutation, check: bool) { Legible(env, m) && (check ==> Authentic(env, m)) }

  /** What is handed on for a mutation: its own operation, key and MACs, and what its sender put inside. */
  predicate Reports(env: Env, m: Mutation, patchVersion: nat, d: Decoded) {
    && Legible(env, m)
    && d.op == m.op && d.keyID == m.record.keyID && d.indexMAC == m.record.indexMAC
    && d.valueMAC == m.record.blob[|m.record.blob| - 32..] && d.patchVersion == patchVersion
    && d.value == Inside(env, m).value.value && d.version == Inside(env, m).value.version
    && env.parseIndex(Inside(env, m).value.index) == Some(d.index)
  }

  lemma DecodesExactly(env: Env, m: Mutation, check: bool, patchVersion: nat)
    ensures DecodeMutation(env, m, check, patchVersion).Ok? <==> Acceptable(env, m, check)
    ensures var d := DecodeMutation(env, m, check, patchVersion); d.Ok? ==> Reports(env, m, patchVersion, d.value)
  {
    var n := |m.record.blob| - 32;
    assert m.record.blob[..n][..16] == m.record.blob[..16] && m.record.blob[..n][16..] == m.record.blob[16..n];
  }

  ghost predicate AllReport(env: Env, ms: seq<Mutation>, patchVersion: nat, ds: seq<Decoded>) {
    |ds| == |ms| && forall i :: 0 <= i < |ms| ==> Reports(env, ms[i], patchVersion, ds[i])
  }

  ghost predicate AllAcceptable(env: Env, ms: seq<Mutation>, n: nat, check: bool)
    requires n <= |ms|
  {
    forall i :: 0 <= i < n ==> Acceptable(env, ms[i], check)
  }

  lemma {:induction false} AllDecode(env: Env, ms: seq<Mutation>, n: nat, check: bool, patchVersion: nat)
    requires n <= |ms|
    ensures var r := DecodeMutations(env, ms, n, check, patchVersion);
      && (r.Ok? <==> AllAcceptable(env, ms, n, check))
      && (r.Ok? ==> |r.value| == n && forall i :: 0 <= i < n ==> Reports(env, ms[i], patchVersion, r.value[i]))
  {
    hide DecodeMutation, Reports, Acceptable;
    if n > 0 {
      AllDecode(env, ms, n - 1, check, patchVersion);
      DecodesExactly(env, ms[n - 1], check, patchVersion);
    }
  }

  // ----- One patch -----

  /** The mutations handed on grow by one for each mutation of the patch, in order. */
  ghost predicate GrewBy(env: Env, before: seq<Decoded>, after: seq<Decoded>, ms: seq<Mutation>, patchVersion: nat) {
    before <= after && AllReport(env, ms, patchVersion, after[|before|..])
  }

  /** An accepted patch of any version hands on exactly its mutations, with their operations, behind the earlier ones; a
      refused one hands on nothing. */
  lemma PatchIsReported(env: Env, run: Run, patch: Patch, check: bool)
    requires run.err.None?
    ensures var r := ApplyPatch(env, run, patch, check);
      if r.err.None? then GrewBy(env, run.mutations, r.mutations, patch.mutations, patch.version)
      else r.mutations == run.mutations && r.state == run.state
  {
    hide DecodeMutations, ValidatePatch, Reports, StoreMACs, Live;
    AllDecode(env, patch.mutations, |patch.mutations|, check, patch.version);
    Examined(env, Live(run.db.rows), patch, run.state, check);
    var r := ApplyPatch(env, run, patch, check);
    if r.err.None? {
      var ds := DecodeMutations(env, patch.mutations, |patch.mutations|, check, patch.version).value;
      assert (run.mutations + ds)[|run.mutations|..] == ds;
    }
  }

  /** The value MACs of a patch, one behind the other. */
  function AllValueMACs(ms: seq<Mutation>): Bytes {
    if ms == [] then []
    else
      var blob := ms[|ms| - 1].record.blob;
      AllValueMACs(ms[..|ms| - 1]) + blob[|blob| - 32..]
  }

  lemma {:induction false} ValueMACsAre(ms: seq<Mutation>, n: nat)
    requires n <= |ms|
    ensures ValueMACs(ms, n) == AllValueMACs(ms[..n])
  {
    if n > 0 {
      ValueMACsAre(ms, n - 1);
      assert ms[..n][..n - 1] == ms[..n - 1];
    }
  }

  /** The two MACs of a patch, over the hash of the map that it leads to and over its mutations. */
  ghost predicate Sealed(env: Env, hash: Hash, patch: Patch) {
    && patch.keyID in env.keys
    && patch.snapshotMAC ==
       env.hmac256(env.keys[patch.keyID].snapshotMAC, hash + BigEndian(patch.version, 8) + env.name)
    && patch.patchMAC ==
       env.hmac256(env.keys[patch.keyID].patchMAC,
                   patch.snapshotMAC + AllValueMACs(patch.mutations) + BigEndian(patch.version, 8) + env.name)
  }

  /** A patch on a store whose hash is the total of its map is accepted exactly when its MACs fit the total of the map
      after its mutations, each mutation can be read and has fitting MACs, no index is SET twice without a REMOVE after
      the first, and no SET meets a row of the patch's version. */
  lemma AcceptedExactly(env: Env, run: Run, patch: Patch)
    requires Matches(env.expand, run)
    ensures var ms := patch.mutations;
      var left := DeleteRows(run.db.rows, Outputs(ms, |ms|).removed);
      ApplyPatch(env, run, patch, true).err.None? <==>
        && Sealed(env, Total(env.expand, Fold(Live(run.db.rows), ms, |ms|)), patch)
        && AllAcceptable(env, ms, |ms|, true)
        && !RepeatsSet(ms) && !Collides(left, patch.version, ms)
  {
    hide DecodeMutations, Acceptable, Live, Fold, Total, Outputs, DeleteRows, RepeatsSet, Collides, UpdatedHash;
    var ms := patch.mutations;
    AllDecode(env, ms, |ms|, true, patch.version);
    ValidExactly(env, run, patch);
    ErrorsStay(env, run, patch, true);
    if ExaminePatch(env, Live(run.db.rows), patch, run.state, true).Ok? {
      TornExactly(env, run, patch);
    } else {
      NotExamined(env, run, patch);
    }
  }

  lemma NotExamined(env: Env, run: Run, patch: Patch)
    requires run.err.None? && ExaminePatch(env, Live(run.db.rows), patch, run.state, true).Err?
    ensures ApplyPatch(env, run, patch, true).err.Some?
  {
    hide ExaminePatch, Live;
  }

  lemma ValidExactly(env: Env, run: Run, patch: Patch)
    requires Matches(env.expand, run)
    ensures var ms := patch.mutations;
      ValidatePatch(env, Live(run.db.rows), patch, run.state, true).Ok? <==>
        Sealed(env, Total(env.expand, Fold(Live(run.db.rows), ms, |ms|)), patch)
  {
    hide Live, Fold, Total, Removed, Added, SubtractThenAdd, ValueMACs, AllValueMACs;
    var ms := patch.mutations;
    HashFollowsMap(env.expand, run.state.hash, Live(run.db.rows), ms, |ms|);
    ValueMACsAre(ms, |ms|);
    assert ms[..|ms|] == ms;
  }

  /** Without checks a patch is accepted exactly when its mutations can be read and the insertion meets no constraint.
      */
  lemma UncheckedAcceptedExactly(env: Env, run: Run, patch: Patch)
    requires run.err.None?
    ensures var ms, out := patch.mutations, Outputs(patch.mutations, |patch.mutations|);
      ApplyPatch(env, run, patch, false).err.None? <==>
        AllAcceptable(env, ms, |ms|, false)
        && Insertable(DeleteRows(run.db.rows, out.removed), patch.version, out.added)
  {
    hide DecodeMutations, Acceptable, Live, Outputs, DeleteRows, Insertable, UpdatedHash, InsertRows;
    AllDecode(env, patch.mutations, |patch.mutations|, false, patch.version);
  }

  // ----- Why a patch is refused -----

  /** The first thing that is wrong with a mutation: its key, its content MAC, its ciphertext, its plaintext, its
      index MAC, or its index. */
  ghost predicate Wrong(env: Env, m: Mutation, check: bool, e: Error) {
    var r, n := m.record, |m.record.blob| - 32;
    if r.keyID !in env.keys then e == KeyNotFound
    else
      var keys, op := env.keys[r.keyID], if m.op.SET? then 1 else 2;
      var mac := env.hmac512(keys.valueMAC, [op] + r.keyID + r.blob[..n] + BigEndian(|r.keyID| + 1, 8))[..32];
      if check && mac != r.blob[n..] then e == MismatchingContentMAC
      else if env.decrypt(keys.valueEncryption, r.blob[..16], r.blob[16..n]).None? then e == DecryptFailed
      else if Inside(env, m).None? then e == BadAction
      else if check && env.hmac256(keys.index, Inside(env, m).value.index) != r.indexMAC then e == MismatchingIndexMAC
      else e == BadIndex && env.parseIndex(Inside(env, m).value.index).None?
  }

  lemma RefusedMutation(env: Env, m: Mutation, check: bool, patchVersion: nat)
    ensures var d := DecodeMutation(env, m, check, patchVersion); d.Err? ==> Wrong(env, m, check, d.error)
  {
    var n := |m.record.blob| - 32;
    assert m.record.blob[..n][..16] == m.record.blob[..16] && m.record.blob[..n][16..] == m.record.blob[16..n];
  }

  /** The first mutation that is not acceptable decides. */
  lemma {:induction false} RefusedMutations(env: Env, ms: seq<Mutation>, n: nat, check: bool, patchVersion: nat)
    requires n <= |ms|
    ensures var r := DecodeMutations(env, ms, n, check, patchVersion);
      r.Err? ==> exists i :: 0 <= i < n && AllAcceptable(env, ms, i, check) && Wrong(env, ms[i], check, r.error)
  {
    hide DecodeMutation, Wrong, Acceptable;
    if n > 0 {
      RefusedMutations(env, ms, n - 1, check, patchVersion);
      AllDecode(env, ms, n - 1, check, patchVersion);
      RefusedMutation(env, ms[n - 1], check, patchVersion);
      if DecodeMutations(env, ms, n - 1, check, patchVersion).Ok? {
        assert AllAcceptable(env, ms, n - 1, check);
      }
    }
  }

  /** A checked patch is refused for its key, for the hash that it leads to, for its own MAC, for its first mutation
      that is not acceptable, or, with all these in order, because an insertion violates a constraint. */
  lemma RefusedBecause(env: Env, run: Run, patch: Patch)
    requires Matches(env.expand, run) && ApplyPatch(env, run, patch, true).err.Some?
    ensures var e, ms := ApplyPatch(env, run, patch, true).err.value, patch.mutations;
      var hash := Total(env.expand, Fold(Live(run.db.rows), ms, |ms|));
      if patch.keyID !in env.keys then e == KeyNotFound
      else if patch.snapshotMAC !=
        env.hmac256(env.keys[patch.keyID].snapshotMAC, hash + BigEndian(patch.version, 8) + env.name)
      then e == MismatchingLTHash
      else if !Sealed(env, hash, patch) then e == MismatchingPatchMAC
      else if !AllAcceptable(env, ms, |ms|, true) then
        exists i :: 0 <= i < |ms| && AllAcceptable(env, ms, i, true) && Wrong(env, ms[i], true, e)
      else e == InsertFailed
  {
    hide DecodeMutations, Acceptable, Wrong, Live, Fold, Total, Removed, Added, SubtractThenAdd, ValueMACs,
      AllValueMACs, StoreMACs;
    var ms := patch.mutations;
    HashFollowsMap(env.expand, run.state.hash, Live(run.db.rows), ms, |ms|);
    ValueMACsAre(ms, |ms|);
    assert ms[..|ms|] == ms;
    AllDecode(env, ms, |ms|, true, patch.version);
    RefusedMutations(env, ms, |ms|, true, patch.version);
  }

  // ----- Snapshots and pages -----

  /** An accepted snapshot hands on each of its records as a SET of the snapshot's version. */
  lemma SnapshotIsReported(env: Env, run: Run, ss: Snapshot, check: bool)
    requires run.err.None?
    ensures var r := ApplySnapshot(env, run, ss, check);
      r.err.None? ==>
        && GrewBy(env, run.mutations, r.mutations, AsSets(ss.records), ss.version)
        && forall i :: 0 <= i < |ss.records| ==> AsSets(ss.records)[i] == Mutation(SET, ss.records[i])
  {
    hide DecodeMutations, Reports, StoreMACs, CheckSnapshotMAC, UpdatedHash;
    var ms := AsSets(ss.records);
    AllDecode(env, ms, |ms|, check, ss.version);
    var r := ApplySnapshot(env, run, ss, check);
    if r.err.None? {
      var ds := DecodeMutations(env, ms, |ms|, check, ss.version).value;
      assert (run.mutations + ds)[|run.mutations|..] == ds;
    }
  }

  /** A checked snapshot on an empty collection is accepted exactly when its MAC fits the total of the map of its
      records, each record can be read and has fitting MACs, and its indexes are distinct. */
  lemma SnapshotAcceptedExactly(env: Env, ss: Snapshot)
    ensures var ms := AsSets(ss.records);
      ApplySnapshot(env, Run(NO_DB, EMPTY, [], None), ss, true).err.None? <==>
        && ss.keyID in env.keys && DistinctIndexes(ms) && AllAcceptable(env, ms, |ms|, true)
        && ss.mac == env.hmac256(env.keys[ss.keyID].snapshotMAC,
                                 Total(env.expand, Fold(map[], ms, |ms|)) + BigEndian(ss.version, 8) + env.name)
  {
    hide DecodeMutations, Acceptable, Fold, Total, Outputs, DistinctIndexes, Removed, Added, SubtractThenAdd, Live,
      InsertRows, RepeatsSet, Collides;
    var ms := AsSets(ss.records);
    AllDecode(env, ms, |ms|, true, ss.version);
    EmptyCollection(env.expand);
    NothingRemoved(map[], ms, |ms|);
    HashFollowsMap(env.expand, ZERO, map[], ms, |ms|);
    SetsOnNothing(env, ms, ss.version);
    if DistinctIndexes(ms) {
      NoneReplaced(map[], ms, |ms|);
    }
  }

  /** SETs on an empty table are inserted exactly when their indexes are distinct and sized. */
  lemma SetsOnNothing(env: Env, ms: seq<Mutation>, version: nat)
    requires forall i :: 0 <= i < |ms| ==> ms[i].op.SET?
    ensures DeleteRows(map[], Outputs(ms, |ms|).removed) == map[]
    ensures DecodeMutations(env, ms, |ms|, true, version).Ok? ==>
      (Insertable(map[], version, Outputs(ms, |ms|).added) <==> DistinctIndexes(ms))
  {
    hide DecodeMutations, Outputs;
    OutputsOfSets(ms, |ms|);
    if DecodeMutations(env, ms, |ms|, true, version).Ok? {
      DecodedIndexesSized(env, ms, |ms|, version);
      var added := Outputs(ms, |ms|).added;
      assert forall i :: 0 <= i < |ms| ==> added[i].indexMAC == ms[i].record.indexMAC;
    }
  }

  /** A mutation, and the version of the patch or snapshot that it came with. */
  datatype Sent = Sent(mutation: Mutation, version: nat)

  function SentBy(ms: seq<Mutation>, version: nat): (ss: seq<Sent>)
    ensures |ss| == |ms| && forall i :: 0 <= i < |ms| ==> ss[i] == Sent(ms[i], version)
  {
    seq(|ms|, i requires 0 <= i < |ms| => Sent(ms[i], version))
  }

  function SentByAll(patches: seq<Patch>): seq<Sent> {
    if patches == [] then []
    else
      var last := patches[|patches| - 1];
      SentByAll(patches[..|patches| - 1]) + SentBy(last.mutations, last.version)
  }

  /** Everything on a page: the records of the snapshot as SETs, then the mutations of the patches. */
  function OnPage(page: Page): seq<Sent> {
    (if page.snapshot.None? then [] else SentBy(AsSets(page.snapshot.value.records), page.snapshot.value.version))
    + SentByAll(page.patches)
  }

  /** Everything on the pages that a sync goes through. */
  function OnPages(pages: seq<Page>): seq<Sent> {
    if pages == [] then [] else OnPage(pages[0]) + if pages[0].hasMore then OnPages(pages[1..]) else []
  }

  ghost predicate Told(env: Env, sent: seq<Sent>, ds: seq<Decoded>) {
    |ds| == |sent| && forall i :: 0 <= i < |sent| ==> Reports(env, sent[i].mutation, sent[i].version, ds[i])
  }

  lemma ToldMore(env: Env, a: seq<Sent>, ds: seq<Decoded>, b: seq<Sent>, es: seq<Decoded>)
    requires Told(env, a, ds) && Told(env, b, es)
    ensures Told(env, a + b, ds + es)
  {
    hide Reports;
  }

  lemma GrewIsTold(
    env: Env, sent: seq<Sent>, before: seq<Decoded>, after: seq<Decoded>, ms: seq<Mutation>, version: nat)
    requires Told(env, sent, before) && GrewBy(env, before, after, ms, version)
    ensures Told(env, sent + SentBy(ms, version), after)
  {
    hide Reports;
    ToldMore(env, sent, before, SentBy(ms, version), after[|before|..]);
    assert before + after[|before|..] == after;
  }

  lemma {:induction false} PatchesAreTold(env: Env, run: Run, patches: seq<Patch>, check: bool, sent: seq<Sent>)
    requires run.err.None? && Told(env, sent, run.mutations)
    ensures var r := ApplyPatches(env, run, patches, check);
      r.err.None? ==> Told(env, sent + SentByAll(patches), r.mutations)
  {
    hide ApplyPatch, Reports, Told;
    if patches == [] {
      assert sent + [] == sent;
    } else {
      var front, last := patches[..|patches| - 1], patches[|patches| - 1];
      PatchesAreTold(env, run, front, check, sent);
      var r := ApplyPatches(env, run, front, check);
      ErrorsStay(env, r, last, check);
      if r.err.None? {
        PatchIsReported(env, r, last, check);
        if ApplyPatch(env, r, last, check).err.None? {
          GrewIsTold(env, sent + SentByAll(front), r.mutations, ApplyPatch(env, r, last, check).mutations,
                     last.mutations, last.version);
          assert sent + SentByAll(front) + SentBy(last.mutations, last.version) == sent + SentByAll(patches);
        }
      }
    }
  }

  /** A page that is decoded without an error hands on exactly what is on it. */
  lemma PageIsTold(env: Env, db: Db, page: Page, st: HState)
    ensures var r := DecodePage(env, db, page, st, true); r.err.None? ==> Told(env, OnPage(page), r.mutations)
  {
    hide ApplyPatches, ApplySnapshot, Told, SentByAll, SentBy, GrewBy;
    var start := Run(db, st, [], None);
    NothingTold(env);
    if page.snapshot.Some? {
      var ss := page.snapshot.value;
      var records := SentBy(AsSets(ss.records), ss.version);
      SnapshotIsReported(env, start, ss, true);
      var base := ApplySnapshot(env, start, ss, true);
      if base.err.None? {
        GrewIsTold(env, [], [], base.mutations, AsSets(ss.records), ss.version);
        assert [] + records == records;
        PatchesAreTold(env, base, page.patches, true, records);
      } else {
        ErrorSticks(env, base, page.patches, true);
      }
    } else {
      PatchesAreTold(env, start, page.patches, true, []);
    }
  }

  lemma {:induction false} PagesAreTold(env: Env, run: Run, pages: seq<Page>, wantSnapshot: bool, sent: seq<Sent>)
    requires run.err.None? && Told(env, sent, run.mutations)
    ensures var r := FetchPages(env, run, pages, wantSnapshot);
      r.err.None? ==> Told(env, sent + OnPages(pages), r.mutations)
    decreases |pages|
  {
    hide DecodePage, Told, OnPage;
    if pages != [] && (pages[0].snapshot.Some? ==> wantSnapshot && run.state == EMPTY) {
      PageIsTold(env, run.db, pages[0], run.state);
      var r := DecodePage(env, run.db, pages[0], run.state, true);
      if r.err.None? && pages[0].collected {
        ToldMore(env, sent, run.mutations, OnPage(pages[0]), r.mutations);
        var next := r.(mutations := run.mutations + r.mutations);
        if pages[0].hasMore {
          PagesAreTold(env, next, pages[1..], false, sent + OnPage(pages[0]));
          assert sent + OnPage(pages[0]) + OnPages(pages[1..]) == sent + OnPages(pages);
        } else {
          assert sent + OnPage(pages[0]) + [] == sent + OnPages(pages) == sent + OnPage(pages[0]);
        }
      }
    }
  }

  /** A successful sync that was not skipped hands on every mutation and every snapshot record of its pages, each once
      and in order, with its own operation and the content its sender put inside. */
  lemma SyncTellsEverything(env: Env, db: Db, fullSync: bool, onlyIfNotSynced: bool, pages: seq<Page>)
    ensures var r, db' := Fetch(env, db, fullSync, onlyIfNotSynced, pages), if fullSync then NO_DB else db;
      r.err.None? ==>
        if onlyIfNotSynced && db'.version != 0 then r.mutations == [] && r.db == db'
        else pages != [] && Told(env, OnPages(pages), r.mutations)
  {
    hide FetchPages, Told, OnPages;
    var db' := if fullSync then NO_DB else db;
    assert Told(env, [], []) by { NothingTold(env); }
    var start := Run(db', HState(db'.version, db'.hash), [], None);
    PagesAreTold(env, start, pages, fullSync || db'.version == 0, []);
    assert [] + OnPages(pages) == OnPages(pages);
    NoPages(env, start, fullSync || db'.version == 0);
  }

  lemma NothingTold(env: Env)
    ensures Told(env, [], [])
  {
  }

  lemma NoPages(env: Env, run: Run, wantSnapshot: bool)
    ensures FetchPages(env, run, [], wantSnapshot).err.Some?
  {
  }
}
