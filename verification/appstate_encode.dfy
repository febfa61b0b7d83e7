/** `EncodePatch` of `appstate/encode.go`, and why every replica in the sender's state accepts what it produces. */
module AppStateEncode {
  import opened Bytes
  import opened LTHash
  import opened AppState
  import opened AppStateTheorems

  type IV = b: Bytes | |b| == 16 witness Repeat(0, 16)

  /** The value is the action after its timestamp was set. */
  datatype MutationInfo = MutationInfo(index: seq<Bytes>, value: Bytes, version: int)

  function EncodeMutation(env: Env, keyID: Bytes, keys: Keys, info: MutationInfo, iv: IV): Mutation {
    var indexBytes := env.printIndex(info.index);
    var content := env.marshal(Action(indexBytes, info.value, info.version));
    var encrypted := iv + env.encrypt(keys.valueEncryption, iv, content);
    var blob: Blob := encrypted + ContentMAC(env, SET, encrypted, keyID, keys.valueMAC);
    Mutation(SET, Record(env.hmac256(keys.index, indexBytes), blob, keyID))
  }

  function EncodeMutations(env: Env, keyID: Bytes, keys: Keys, infos: seq<MutationInfo>, ivs: seq<IV>, n: nat)
    : (ms: seq<Mutation>)
    requires n <= |infos| && |infos| == |ivs|
    ensures |ms| == n && forall i :: 0 <= i < n ==> ms[i] == EncodeMutation(env, keyID, keys, infos[i], ivs[i])
  {
    if n == 0 then []
    else
      EncodeMutations(env, keyID, keys, infos, ivs, n - 1)
      + [EncodeMutation(env, keyID, keys, infos[n - 1], ivs[n - 1])]
  }

  /** The state after the patch as the sender predicts it, looking for previous values in the store only. */
  function Predicted(env: Env, live: LiveMap, st: HState, ms: seq<Mutation>): HState {
    HState(st.version + 1, UpdatedHash(env.expand, st.hash, StoreOnly, live, ms))
  }

  /** The patch as sent; its version field is unset (0) until the server assigns one. */
  function SealPatch(env: Env, keyID: Bytes, keys: Keys, newState: HState, ms: seq<Mutation>): Patch {
    var snapshotMAC := SnapshotMAC(env, newState, keys.snapshotMAC);
    Patch(0, keyID, ms, snapshotMAC, PatchMAC(env, snapshotMAC, ms, keys.patchMAC, newState.version))
  }

  function EncodePatch(env: Env, live: LiveMap, keyID: Bytes, st: HState, infos: seq<MutationInfo>, ivs: seq<IV>)
    : Result<Patch, Error>
    requires |infos| == |ivs|
  {
    if keyID !in env.keys then Err(KeyNotFound) else
    var ms := EncodeMutations(env, keyID, env.keys[keyID], infos, ivs, |infos|);
    Ok(SealPatch(env, keyID, env.keys[keyID], Predicted(env, live, st, ms), ms))
  }

  /** Decryption undoes encryption and the two parsers undo their printers; nothing else is assumed of them. */
  ghost predicate Invertible(env: Env) {
    && (forall k, iv, p :: env.decrypt(k, iv, env.encrypt(k, iv, p)) == Some(p))
    && (forall a :: env.unmarshal(env.marshal(a)) == Some(a))
    && (forall i :: env.parseIndex(env.printIndex(i)) == Some(i))
  }

  /** What the receiver should report for one encoded mutation. */
  function Expected(env: Env, keyID: Bytes, m: Mutation, info: MutationInfo, version: nat): Decoded {
    Decoded(keyID, SET, info.value, info.version, info.index, m.record.indexMAC, ValueMAC(m.record.blob), version)
  }

  lemma EncodedDecodes(env: Env, keyID: Bytes, info: MutationInfo, iv: IV, version: nat)
    requires Invertible(env) && keyID in env.keys
    ensures var m := EncodeMutation(env, keyID, env.keys[keyID], info, iv);
      DecodeMutation(env, m, true, version) == Ok(Expected(env, keyID, m, info, version))
  {
    var keys := env.keys[keyID];
    var content := env.marshal(Action(env.printIndex(info.index), info.value, info.version));
    var cipher := env.encrypt(keys.valueEncryption, iv, content);
    var blob := EncodeMutation(env, keyID, keys, info, iv).record.blob;
    assert blob[..|blob| - 32] == iv + cipher;
    assert (iv + cipher)[..16] == iv && (iv + cipher)[16..] == cipher;
  }

  lemma {:induction false} AllEncodedDecode(env: Env, keyID: Bytes, infos: seq<MutationInfo>, ivs: seq<IV>, n: nat,
                                            version: nat)
    requires Invertible(env) && keyID in env.keys && n <= |infos| == |ivs|
    ensures var ms := EncodeMutations(env, keyID, env.keys[keyID], infos, ivs, |infos|);
      && DecodeMutations(env, ms, n, true, version).Ok?
      && |DecodeMutations(env, ms, n, true, version).value| == n
      && forall i :: 0 <= i < n ==>
        DecodeMutations(env, ms, n, true, version).value[i] == Expected(env, keyID, ms[i], infos[i], version)
  {
    hide DecodeMutation, Invertible, Expected, EncodeMutation;
    if n > 0 {
      AllEncodedDecode(env, keyID, infos, ivs, n - 1, version);
      EncodedDecodes(env, keyID, infos[n - 1], ivs[n - 1], version);
    }
  }

  lemma {:induction false} StoreLookupSuffices(live: LiveMap, ms: seq<Mutation>, n: nat)
    requires n <= |ms| && DistinctIndexes(ms)
    ensures Removed(PatchThenStore, live, ms, n) == Removed(StoreOnly, live, ms, n)
  {
    hide PreviousInPatch;
    if n > 0 {
      StoreLookupSuffices(live, ms, n - 1);
      SearchMisses(live, ms, n - 1, ms[n - 1].record.indexMAC);
    }
  }

  lemma SetsRepeatUnlessDistinct(ms: seq<Mutation>)
    requires IndexesSized(ms) && forall i :: 0 <= i < |ms| ==> ms[i].op.SET?
    ensures RepeatsSet(ms) <==> !DistinctIndexes(ms)
  {
    hide RepeatsSet, Outputs;
    OutputsOfSets(ms, |ms|);
    InsertFailsIffRepeated(map[], 0, ms);
    var added := Outputs(ms, |ms|).added;
    if !Insertable(map[], 0, added) {
      var i, j :| 0 <= i < j < |added| && added[i].indexMAC == added[j].indexMAC;
      assert ms[i].record.indexMAC == ms[j].record.indexMAC;
    }
  }

  lemma SealedPatchExamined(env: Env, live: LiveMap, keyID: Bytes, st: HState, ms: seq<Mutation>)
    requires keyID in env.keys && DistinctIndexes(ms)
    ensures var predicted := Predicted(env, live, st, ms);
      var patch := SealPatch(env, keyID, env.keys[keyID], predicted, ms).(version := st.version + 1);
      ValidatePatch(env, live, patch, st, true) == Ok(predicted)
  {
    hide SnapshotMAC, PatchMAC, SubtractThenAdd, Removed, Added, DistinctIndexes;
    StoreLookupSuffices(live, ms, |ms|);
  }

  /** A replica in the sender's state accepts the encoded patch, numbered one above its version, exactly when the index
      MACs are pairwise distinct; then it arrives at the sender's predicted state with the sender's mutations. */
  lemma EncodedPatchAccepted(
    env: Env, run: Run, keyID: Bytes, infos: seq<MutationInfo>, ivs: seq<IV>)
    requires Invertible(env) && keyID in env.keys && |infos| == |ivs| && InStep(env.expand, run)
    ensures var live, st, n := Live(run.db.rows), run.state, |infos|;
      var ms := EncodeMutations(env, keyID, env.keys[keyID], infos, ivs, n);
      var sent := EncodePatch(env, live, keyID, st, infos, ivs);
      && sent.Ok?
      && var run' := ApplyPatch(env, run, sent.value.(version := st.version + 1), true);
      && (run'.err.None? <==> DistinctIndexes(ms))
      && (run'.err.None? ==>
        && run'.state == Predicted(env, live, st, ms) && Live(run'.db.rows) == Fold(live, ms, n)
        && |run'.mutations| == |run.mutations| + n && run'.mutations[..|run.mutations|] == run.mutations
        && forall i :: 0 <= i < n ==>
          run'.mutations[|run.mutations| + i] == Expected(env, keyID, ms[i], infos[i], st.version + 1))
  {
    hide Invertible, Consistent, Matches, NotShadowed, Live, Fold, Outputs, DistinctIndexes, RepeatsSet,
      EncodeMutation, Expected, DeleteRows, Insertable, InsertRows, ValidatePatch, DecodeMutations, Predicted,
      SealPatch, Total, StoreMACs;
    var live, st, n := Live(run.db.rows), run.state, |infos|;
    var ms := EncodeMutations(env, keyID, env.keys[keyID], infos, ivs, n);
    AllSets(env, keyID, infos, ivs);
    SetsRepeatUnlessDistinct(ms);
    AllEncodedDecode(env, keyID, infos, ivs, n, st.version + 1);
    PredictedVersion(env, live, keyID, st, ms);
    var patch := EncodePatch(env, live, keyID, st, infos, ivs).value.(version := st.version + 1);
    if DistinctIndexes(ms) {
      SealedPatchExamined(env, live, keyID, st, ms);
    }
    if ExaminePatch(env, live, patch, st, true).Ok? {
      TornExactlyOnRepeatedSet(env, run, patch);
    }
    InStepMatches(env.expand, run);
    PatchOutcome(env, run, patch, true);
  }

  lemma PredictedVersion(env: Env, live: LiveMap, keyID: Bytes, st: HState, ms: seq<Mutation>)
    requires keyID in env.keys
    ensures Predicted(env, live, st, ms).version == st.version + 1
    ensures var p := SealPatch(env, keyID, env.keys[keyID], Predicted(env, live, st, ms), ms);
      p.mutations == ms && p.version == 0 && p.keyID == keyID
  {
  }

  lemma AllSets(env: Env, keyID: Bytes, infos: seq<MutationInfo>, ivs: seq<IV>)
    requires keyID in env.keys && |infos| == |ivs|
    ensures var ms := EncodeMutations(env, keyID, env.keys[keyID], infos, ivs, |infos|);
      IndexesSized(ms) && forall i :: 0 <= i < |ms| ==> ms[i].op.SET?
  {
  }
}
