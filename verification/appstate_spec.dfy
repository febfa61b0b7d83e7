/** What `appstate/` computes, on values: the mutation map, the incremental hash, the MAC checks and the store.
    `Env` gathers the cryptographic and serialisation primitives, all arbitrary. */
module AppState {
  import opened Bytes
  import opened LTHash

  type Mac = m: Bytes | |m| == 32 witness seq(32, i => 0)
  type LongMac = m: Bytes | |m| == 64 witness seq(64, i => 0)

  /** A mutation value: initialisation vector, ciphertext, and the value MAC in the last 32 bytes. */
  type Blob = b: Bytes | |b| >= 48 witness seq(48, i => 0)

  type LiveMap = map<Bytes, Bytes>

  datatype Op = SET | REMOVE

  datatype Record = Record(indexMAC: Bytes, blob: Blob, keyID: Bytes)
  datatype Mutation = Mutation(op: Op, record: Record)
  datatype Patch = Patch(version: nat, keyID: Bytes, mutations: seq<Mutation>, snapshotMAC: Bytes, patchMAC: Bytes)
  datatype Snapshot = Snapshot(version: nat, keyID: Bytes, records: seq<Record>, mac: Bytes)
  /** One answer of the server.  `collected` says whether its mutations can be handed on once they are stored: a failing
      contact store ends the sync there. */
  datatype Page = Page(snapshot: Option<Snapshot>, patches: seq<Patch>, hasMore: bool, collected: bool)

  datatype Keys = Keys(index: Bytes, valueEncryption: Bytes, valueMAC: Bytes, snapshotMAC: Bytes, patchMAC: Bytes)
  datatype Action = Action(index: Bytes, value: Bytes, version: int)

  datatype Env = Env(
    expand: Expand,
    hmac256: (Bytes, Bytes) -> Mac,
    hmac512: (Bytes, Bytes) -> LongMac,
    encrypt: (Bytes, Bytes, Bytes) -> Bytes,
    decrypt: (Bytes, Bytes, Bytes) -> Option<Bytes>,
    marshal: Action -> Bytes,
    unmarshal: Bytes -> Option<Action>,
    printIndex: seq<Bytes> -> Bytes,
    parseIndex: Bytes -> Option<seq<Bytes>>,
    keys: map<Bytes, Keys>,
    name: Bytes)

  datatype Error =
    | KeyNotFound | MismatchingLTHash | MismatchingPatchMAC | MismatchingContentMAC | MismatchingIndexMAC
    | DecryptFailed | BadAction | BadIndex | InsertFailed
    | InvalidStoredVersion | UnexpectedSnapshot | NonEmptyInput | FetchFailed | CollectFailed

  datatype HState = HState(version: nat, hash: Hash)

  datatype Decoded = Decoded(keyID: Bytes, op: Op, value: Bytes, version: int, index: seq<Bytes>,
                             indexMAC: Bytes, valueMAC: Bytes, patchVersion: nat)

  const EMPTY: HState := HState(0, ZERO)

  function ValueMAC(blob: Blob): Bytes { blob[|blob| - 32..] }

  // ----- The mutation map and the incremental hash -----

  function Get(live: LiveMap, index: Bytes): Option<Bytes> {
    if index in live then Some(live[index]) else None
  }

  function Step(live: LiveMap, m: Mutation): LiveMap {
    if m.op.SET? then live[m.record.indexMAC := ValueMAC(m.record.blob)] else live - {m.record.indexMAC}
  }

  /** The map after the first n mutations, applied one by one. */
  function Fold(live: LiveMap, ms: seq<Mutation>, n: nat): LiveMap
    requires n <= |ms|
  {
    if n == 0 then live else Step(Fold(live, ms, n - 1), ms[n - 1])
  }

  /** The three callbacks that the source passes to `updateHash`. */
  datatype Lookup = Nothing | StoreOnly | PatchThenStore

  /** The backward search of `validatePatch` for the value that mutation n replaces. */
  function PreviousInPatch(live: LiveMap, ms: seq<Mutation>, n: nat, index: Bytes): Option<Bytes>
    requires n <= |ms|
  {
    if n == 0 then Get(live, index)
    else if ms[n - 1].record.indexMAC == index then
      if ms[n - 1].op.SET? then Some(ValueMAC(ms[n - 1].record.blob)) else None
    else PreviousInPatch(live, ms, n - 1, index)
  }

  function Previous(how: Lookup, live: LiveMap, ms: seq<Mutation>, n: nat, index: Bytes): Option<Bytes>
    requires n <= |ms|
  {
    match how
    case Nothing => None
    case StoreOnly => Get(live, index)
    case PatchThenStore => PreviousInPatch(live, ms, n, index)
  }

  function Listed(o: Option<Bytes>): seq<Bytes> {
    if o.Some? then [o.value] else []
  }

  function AddedBy(m: Mutation): seq<Bytes> {
    if m.op.SET? then [ValueMAC(m.record.blob)] else []
  }

  function Added(ms: seq<Mutation>, n: nat): seq<Bytes>
    requires n <= |ms|
  {
    if n == 0 then [] else Added(ms, n - 1) + AddedBy(ms[n - 1])
  }

  function Removed(how: Lookup, live: LiveMap, ms: seq<Mutation>, n: nat): seq<Bytes>
    requires n <= |ms|
  {
    if n == 0 then []
    else Removed(how, live, ms, n - 1) + Listed(Previous(how, live, ms, n - 1, ms[n - 1].record.indexMAC))
  }

  function UpdatedHash(expand: Expand, h: Hash, how: Lookup, live: LiveMap, ms: seq<Mutation>): Hash {
    SubtractThenAdd(expand, h, Removed(how, live, ms, |ms|), Added(ms, |ms|))
  }

  /** At every position of a patch, the backward search with store fallback finds exactly what a lookup in the map
      after the earlier mutations would find. */
  lemma {:induction false} BackwardSearchIsLookup(live: LiveMap, ms: seq<Mutation>, n: nat, index: Bytes)
    requires n <= |ms|
    ensures PreviousInPatch(live, ms, n, index) == Get(Fold(live, ms, n), index)
  {
    if n > 0 {
      BackwardSearchIsLookup(live, ms, n - 1, index);
    }
  }

  /** The incremental hash follows the map: from the total of the old map it arrives at the total of the new one,
      for any mix of SET and REMOVE on repeated indexes. */
  lemma {:induction false} HashFollowsMap(expand: Expand, h: Hash, live: LiveMap, ms: seq<Mutation>, n: nat)
    requires n <= |ms| && h == Total(expand, live)
    ensures SubtractThenAdd(expand, h, Removed(PatchThenStore, live, ms, n), Added(ms, n)) ==
            Total(expand, Fold(live, ms, n))
  {
    hide Total, SubtractThenAdd, UpdateAll, PreviousInPatch, ValueMAC;
    if n == 0 {
      NoUpdates(expand, h);
    } else {
      HashFollowsMap(expand, h, live, ms, n - 1);
      var before, m := Fold(live, ms, n - 1), ms[n - 1];
      var removed, added := Removed(PatchThenStore, live, ms, n - 1), Added(ms, n - 1);
      assert Removed(PatchThenStore, live, ms, n) == removed + Listed(Get(before, m.record.indexMAC)) by {
        BackwardSearchIsLookup(live, ms, n - 1, m.record.indexMAC);
      }
      OneMutation(expand, h, before, removed, added, m);
    }
  }

  lemma OneMutation(
    expand: Expand, h: Hash, before: LiveMap, removed: seq<Bytes>, added: seq<Bytes>, m: Mutation)
    requires SubtractThenAdd(expand, h, removed, added) == Total(expand, before)
    ensures SubtractThenAdd(expand, h, removed + Listed(Get(before, m.record.indexMAC)), added + AddedBy(m)) ==
            Total(expand, Step(before, m))
  {
    var k, prev := m.record.indexMAC, Get(before, m.record.indexMAC);
    var removed' := removed + Listed(prev);
    assert removed + [] == removed && added + [] == added;
    if prev.Some? {
      AppendRemoved(expand, h, removed, added, prev.value);
    }
    if m.op.SET? {
      AppendAdded(expand, h, removed', added, ValueMAC(m.record.blob));
      TotalPut(expand, before, k, ValueMAC(m.record.blob));
    } else {
      TotalDelete(expand, before, k);
    }
  }

  // ----- The MACs -----

  function SnapshotMAC(env: Env, st: HState, key: Bytes): Mac {
    env.hmac256(key, st.hash + BigEndian(st.version, 8) + env.name)
  }

  function ValueMACs(ms: seq<Mutation>, n: nat): Bytes
    requires n <= |ms|
  {
    if n == 0 then [] else ValueMACs(ms, n - 1) + ValueMAC(ms[n - 1].record.blob)
  }

  function PatchMAC(env: Env, snapshotMAC: Bytes, ms: seq<Mutation>, key: Bytes, version: nat): Mac {
    env.hmac256(key, snapshotMAC + ValueMACs(ms, |ms|) + BigEndian(version, 8) + env.name)
  }

  function ContentMAC(env: Env, op: Op, data: Bytes, keyID: Bytes, key: Bytes): Mac {
    var opByte: byte := if op.SET? then 1 else 2;
    env.hmac512(key, [opByte] + keyID + data + BigEndian(|keyID| + 1, 8))[..32]
  }

  // ----- The store: `store/sqlstore/store.go`, one collection -----

  datatype RowKey = RowKey(version: nat, index: Bytes)
  type Rows = map<RowKey, Bytes>

  datatype MacPair = MacPair(indexMAC: Bytes, valueMAC: Bytes)

  datatype Db = Db(hasVersion: bool, version: nat, hash: Hash, rows: Rows)

  /** No row of the same index has a higher version. */
  ghost predicate Top(rows: Rows, k: RowKey) {
    k in rows && forall j :: j in rows && j.index == k.index ==> j.version <= k.version
  }

  /** What the lookup query sees: for every index the row with the highest version. */
  ghost function Live(rows: Rows): LiveMap {
    map k | k in rows && Top(rows, k) :: k.index := rows[k]
  }

  ghost function PutVersion(db: Db, st: HState): Db {
    db.(hasVersion := true, version := st.version, hash := st.hash)
  }

  ghost function DeleteRows(rows: Rows, indexes: seq<Bytes>): Rows {
    map k | k in rows && k.index !in indexes :: rows[k]
  }

  /** The insert has no conflict clause, so the primary key RowKey(version, index) must be new; an index has 32 bytes.
      */
  ghost predicate Insertable(rows: Rows, version: nat, added: seq<MacPair>) {
    && (forall i :: 0 <= i < |added| ==> |added[i].indexMAC| == 32 && RowKey(version, added[i].indexMAC) !in rows)
    && (forall i, j :: 0 <= i < j < |added| ==> added[i].indexMAC != added[j].indexMAC)
  }

  ghost function InsertRows(rows: Rows, version: nat, added: seq<MacPair>): Rows {
    if added == [] then rows
    else var last := added[|added| - 1];
      InsertRows(rows, version, added[..|added| - 1])[RowKey(version, last.indexMAC) := last.valueMAC]
  }

  // ----- patchOutput -----

  function Without(added: seq<MacPair>, index: Bytes): seq<MacPair> {
    if added == [] then []
    else var rest, last := Without(added[..|added| - 1], index), added[|added| - 1];
      if last.indexMAC == index then rest else rest + [last]
  }

  /** `RemovedMACs` and `AddedMACs` after the first n mutations. */
  datatype Output = Output(removed: seq<Bytes>, added: seq<MacPair>)

  function OutputStep(out: Output, m: Mutation): Output {
    if m.op.REMOVE? then Output(out.removed + [m.record.indexMAC], Without(out.added, m.record.indexMAC))
    else out.(added := out.added + [MacPair(m.record.indexMAC, ValueMAC(m.record.blob))])
  }

  function Outputs(ms: seq<Mutation>, n: nat): Output
    requires n <= |ms|
  {
    if n == 0 then Output([], []) else OutputStep(Outputs(ms, n - 1), ms[n - 1])
  }

  // ----- Decoding and applying patches -----

  function DecodeMutation(env: Env, m: Mutation, check: bool, patchVersion: nat): Result<Decoded, Error> {
    var r := m.record;
    if r.keyID !in env.keys then Err(KeyNotFound) else
    var keys := env.keys[r.keyID];
    var content, valueMAC := r.blob[..|r.blob| - 32], ValueMAC(r.blob);
    if check && ContentMAC(env, m.op, content, r.keyID, keys.valueMAC) != valueMAC then Err(MismatchingContentMAC) else
    match env.decrypt(keys.valueEncryption, content[..16], content[16..])
    case None => Err(DecryptFailed)
    case Some(plaintext) =>
      match env.unmarshal(plaintext)
      case None => Err(BadAction)
      case Some(action) =>
        if check && env.hmac256(keys.index, action.index) != r.indexMAC then Err(MismatchingIndexMAC) else
        match env.parseIndex(action.index)
        case None => Err(BadIndex)
        case Some(index) =>
          Ok(Decoded(r.keyID, m.op, action.value, action.version, index, r.indexMAC, valueMAC, patchVersion))
  }

  /** The decoded mutations of a prefix, or the first error. */
  function DecodeMutations(env: Env, ms: seq<Mutation>, n: nat, check: bool, patchVersion: nat)
    : Result<seq<Decoded>, Error>
    requires n <= |ms|
  {
    if n == 0 then Ok([])
    else match DecodeMutations(env, ms, n - 1, check, patchVersion)
      case Err(e) => Err(e)
      case Ok(ds) =>
        match DecodeMutation(env, ms[n - 1], check, patchVersion)
        case Err(e) => Err(e)
        case Ok(d) => Ok(ds + [d])
  }

  function CheckSnapshotMAC(env: Env, st: HState, keyID: Bytes, mac: Bytes): Result<Keys, Error> {
    if keyID !in env.keys then Err(KeyNotFound)
    else if SnapshotMAC(env, st, env.keys[keyID].snapshotMAC) != mac then Err(MismatchingLTHash)
    else Ok(env.keys[keyID])
  }

  function PatchedState(env: Env, live: LiveMap, patch: Patch, st: HState): HState {
    HState(patch.version, UpdatedHash(env.expand, st.hash, PatchThenStore, live, patch.mutations))
  }

  function ValidatePatch(env: Env, live: LiveMap, patch: Patch, st: HState, check: bool): Result<HState, Error> {
    var newState := PatchedState(env, live, patch, st);
    if !check then Ok(newState) else
    match CheckSnapshotMAC(env, newState, patch.keyID, patch.snapshotMAC)
    case Err(e) => Err(e)
    case Ok(keys) =>
      if PatchMAC(env, patch.snapshotMAC, patch.mutations, keys.patchMAC, patch.version) != patch.patchMAC
      then Err(MismatchingPatchMAC) else Ok(newState)
  }

  /** Version row, then deletions, then insertions.  The version row and the deletions stay when the insert fails. */
  ghost function StoreMACs(db: Db, st: HState, out: Output): (Db, bool) {
    var db1 := PutVersion(db, st);
    var rows := DeleteRows(db.rows, out.removed);
    if Insertable(rows, st.version, out.added)
    then (db1.(rows := InsertRows(rows, st.version, out.added)), true)
    else (db1.(rows := rows), false)
  }

  /** `validatePatch` and `decodeMutations`: everything that happens to a patch before the store is written. */
  function ExaminePatch(env: Env, live: LiveMap, patch: Patch, st: HState, check: bool)
    : Result<(HState, seq<Decoded>), Error>
  {
    match ValidatePatch(env, live, patch, st, check)
    case Err(e) => Err(e)
    case Ok(newState) =>
      match DecodeMutations(env, patch.mutations, |patch.mutations|, check, newState.version)
      case Err(e) => Err(e)
      case Ok(ds) => Ok((newState, ds))
  }

  datatype Run = Run(db: Db, state: HState, mutations: seq<Decoded>, err: Option<Error>)

  ghost function Commit(run: Run, ms: seq<Mutation>, st: HState, ds: seq<Decoded>): Run {
    var (db, ok) := StoreMACs(run.db, st, Outputs(ms, |ms|));
    if ok then Run(db, st, run.mutations + ds, None) else run.(db := db, err := Some(InsertFailed))
  }

  ghost function ApplyPatch(env: Env, run: Run, patch: Patch, check: bool): Run {
    if run.err.Some? then run else
    match ExaminePatch(env, Live(run.db.rows), patch, run.state, check)
    case Err(e) => run.(err := Some(e))
    case Ok((st, ds)) => Commit(run, patch.mutations, st, ds)
  }

  ghost function ApplyPatches(env: Env, run: Run, patches: seq<Patch>, check: bool): Run {
    if patches == [] then run
    else ApplyPatch(env, ApplyPatches(env, run, patches[..|patches| - 1], check), patches[|patches| - 1], check)
  }

  function AsSets(records: seq<Record>): (ms: seq<Mutation>)
    ensures |ms| == |records|
  {
    seq(|records|, i requires 0 <= i < |records| => Mutation(SET, records[i]))
  }

  ghost function ApplySnapshot(env: Env, run: Run, ss: Snapshot, check: bool): Run {
    var ms := AsSets(ss.records);
    var st := HState(ss.version, UpdatedHash(env.expand, run.state.hash, Nothing, map[], ms));
    var checked := CheckSnapshotMAC(env, st, ss.keyID, ss.mac);
    if check && checked.Err? then Run(run.db, st, [], Some(checked.error)) else
    match DecodeMutations(env, ms, |ms|, check, ss.version)
    case Err(e) => Run(run.db, st, [], Some(e))
    case Ok(ds) =>
      var (db, ok) := StoreMACs(run.db, st, Outputs(ms, |ms|));
      if ok then Run(db, st, run.mutations + ds, None) else Run(db, st, [], Some(InsertFailed))
  }

  ghost function DecodePage(env: Env, db: Db, page: Page, st: HState, check: bool): Run {
    var start := Run(db, st, [], None);
    var run := if page.snapshot.Some? then ApplySnapshot(env, start, page.snapshot.value, check) else start;
    ApplyPatches(env, run, page.patches, check)
  }
}
