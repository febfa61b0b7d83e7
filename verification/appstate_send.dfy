/** `sendAppState` of `appstate.go`: upload a patch, and when the server has newer patches, apply them and try again. */
module AppStateSend {
  import opened Bytes
  import opened LTHash
  import opened AppState
  import opened AppStateTheorems
  import Encode = AppStateEncode
  import opened AppStateFetch
  import opened AppStateSync

  /** The server's answer to an upload.  An accepted one is followed by a sync over the given pages; a conflict brings
      the patches that the sender is missing. */
  datatype Answer = Accepted(pages: seq<Page>) | Conflict(page: Page) | Refused | NoAnswer

  datatype SendError = NoKeys | Coding(error: Error) | UpdateFailed | Disconnected

  /** One attempt: the random IVs it draws, and how it is answered. */
  datatype Attempt = Attempt(ivs: seq<Encode.IV>, answer: Answer)

  /** The store afterwards, and the patches that went over the wire. */
  datatype Outcome = Outcome(db: Db, sent: seq<Patch>, err: Option<SendError>)

  function AlsoSent(patch: Patch, o: Outcome): Outcome { o.(sent := [patch] + o.sent) }

  ghost function SendFrom(env: Env, db: Db, keyID: Option<Bytes>, infos: seq<Encode.MutationInfo>, first: Attempt,
                          retry: Option<Attempt>): Outcome
    requires |infos| == |first.ivs| && (retry.Some? ==> |infos| == |retry.value.ivs|)
    decreases if retry.Some? then 1 else 0
  {
    if db.hasVersion && db.version == 0 then Outcome(db, [], Some(Coding(InvalidStoredVersion)))
    else if keyID.None? then Outcome(db, [], Some(NoKeys))
    else
      var encoded := Encode.EncodePatch(env, Live(db.rows), keyID.value, Stored(db), infos, first.ivs);
      if encoded.Err? then Outcome(db, [], Some(Coding(encoded.error)))
      else
        match first.answer
        case NoAnswer => Outcome(db, [encoded.value], Some(Disconnected))
        case Refused => Outcome(db, [encoded.value], Some(UpdateFailed))
        case Accepted(pages) =>
          var run := Fetch(env, db, false, false, pages);
          Outcome(run.db, [encoded.value], if run.err.Some? then Some(Coding(run.err.value)) else None)
        case Conflict(page) =>
          if retry.None? then Outcome(db, [encoded.value], Some(UpdateFailed))
          else
            var run := DecodePage(env, db, page, Stored(db), true);
            if run.err.Some? || !page.collected then Outcome(run.db, [encoded.value], Some(UpdateFailed))
            else
              AlsoSent(encoded.value, SendFrom(env, run.db, keyID, infos, retry.value, None))
  }

  lemma {:induction false} VersionsGrow(version: nat, patches: seq<Patch>)
    requires Increasing(version, patches) && patches != []
    ensures LastVersion(version, patches) > version
  {
    if |patches| > 1 {
      VersionsGrow(version, patches[..|patches| - 1]);
    }
  }

  /** A stored version of zero is refused. */
  predicate Readable(db: Db) { !(db.hasVersion && db.version == 0) }

  /** What the answer to a conflict should hold: patches numbered upwards, after a snapshot only for an empty
      collection, with mutations that can be handed on. */
  ghost predicate MergeablePage(db: Db, page: Page) {
    && Readable(db) && page.collected
    && (page.snapshot.Some? ==> db == NO_DB && page.snapshot.value.version > 0)
    && Increasing(BaseVersion(db, [page]), page.patches)
  }

  /** Applying the answer to a conflict, whatever it holds: without an error memory and store agree, and as long as all
      that it puts shows, the stored hash stays the total of the visible map.  A mergeable one leaves a consistent store
      with a readable version, and without a snapshot the folded map. */
  lemma MergeIsInStep(env: Env, db: Db, page: Page)
    ensures var merged := DecodePage(env, db, page, Stored(db), true);
      && (merged.err.None? ==> merged.state == Stored(merged.db))
      && (Faithful(env.expand, db) && PageShows(env, StartOf(db), page) ==>
        merged.err != Some(InsertFailed) ==> Faithful(env.expand, merged.db))
      && (Consistent(env.expand, db) && MergeablePage(db, page) && merged.err.None? ==>
        && InStep(env.expand, merged) && Readable(merged.db)
        && (page.snapshot.None? ==> Live(merged.db.rows) == FoldPatches(Live(db.rows), page.patches)))
  {
    hide DecodePage, Faithful, PageShows, Consistent, MergeablePage, InStep, Live, FoldPatches;
    AnyPage(env, StartOf(db), page);
    if Consistent(env.expand, db) && MergeablePage(db, page)
      && DecodePage(env, db, page, Stored(db), true).err.None? {
      MergeableIsInStep(env, db, page);
    }
  }

  lemma MergeableIsInStep(env: Env, db: Db, page: Page)
    requires Consistent(env.expand, db) && MergeablePage(db, page)
    requires DecodePage(env, db, page, Stored(db), true).err.None?
    ensures var merged := DecodePage(env, db, page, Stored(db), true);
      && InStep(env.expand, merged) && Readable(merged.db)
      && (page.snapshot.None? ==> Live(merged.db.rows) == FoldPatches(Live(db.rows), page.patches))
  {
    hide ApplyPatches, Increasing, Live, Total, Faithful, FoldPatches, ApplySnapshot;
    var start := StartOf(db);
    OnePage(env, start, page);
    if page.patches != [] {
      VersionsGrow(BaseVersion(db, [page]), page.patches);
    } else if page.snapshot.None? {
      NoPatches(env, start, true);
    }
    if page.snapshot.None? {
      IncreasingPrefix(env, start, page.patches, true);
      assert page.patches[..|page.patches|] == page.patches;
    }
  }

  /** The patch is sent again exactly if the answer to the conflict was applied without an error and left a version
      that can be read.  It then fits the state that the conflict led to: every replica in that state accepts it,
      exactly when its index MACs are pairwise distinct. */
  lemma RetryIsAccepted(
    env: Env, db: Db, keyID: Bytes, infos: seq<Encode.MutationInfo>, first: Attempt, retry: Attempt, replica: Run)
    requires |infos| == |first.ivs| && |infos| == |retry.ivs| && first.answer.Conflict? && Readable(db)
    requires Encode.Invertible(env) && keyID in env.keys
    ensures var merged := DecodePage(env, db, first.answer.page, Stored(db), true);
      var sent := SendFrom(env, db, Some(keyID), infos, first, Some(retry)).sent;
      var ms := Encode.EncodeMutations(env, keyID, env.keys[keyID], infos, retry.ivs, |infos|);
      && |sent| == (if merged.err.None? && first.answer.page.collected && Readable(merged.db) then 2 else 1)
      && (|sent| == 2 && SameReplica(env, replica, merged) ==>
        && sent[1].mutations == ms
        && (ApplyPatch(env, replica, sent[1].(version := merged.state.version + 1), true).err.None? <==>
          DistinctIndexes(ms)))
  {
    hide SendFrom, DecodePage, ApplyPatch, Live, Consistent, DistinctIndexes, Encode.Invertible, Fetch,
      Encode.Predicted, Encode.SealPatch, Encode.EncodeMutations;
    var merged := DecodePage(env, db, first.answer.page, Stored(db), true);
    AnyPage(env, StartOf(db), first.answer.page);
    ConflictSends(env, db, keyID, infos, first, retry);
    if merged.err.None? && first.answer.page.collected && Readable(merged.db) && SameReplica(env, replica, merged) {
      Encode.EncodedPatchAccepted(env, replica, keyID, infos, retry.ivs);
      var ms := Encode.EncodeMutations(env, keyID, env.keys[keyID], infos, retry.ivs, |infos|);
      Encode.PredictedVersion(env, Live(merged.db.rows), keyID, merged.state, ms);
    }
  }

  /** A replica that has arrived at the same state. */
  ghost predicate SameReplica(env: Env, replica: Run, merged: Run) {
    InStep(env.expand, replica) && replica.state == merged.state && Live(replica.db.rows) == Live(merged.db.rows)
  }

  lemma ConflictSends(
    env: Env, db: Db, keyID: Bytes, infos: seq<Encode.MutationInfo>, first: Attempt, retry: Attempt)
    requires |infos| == |first.ivs| && |infos| == |retry.ivs| && first.answer.Conflict?
    requires keyID in env.keys && Readable(db)
    ensures var merged := DecodePage(env, db, first.answer.page, Stored(db), true);
      var sent := SendFrom(env, db, Some(keyID), infos, first, Some(retry)).sent;
      var again := Encode.EncodePatch(env, Live(merged.db.rows), keyID, Stored(merged.db), infos, retry.ivs);
      if merged.err.None? && first.answer.page.collected && Readable(merged.db)
      then |sent| == 2 && again.Ok? && sent[1] == again.value else |sent| == 1
  {
    hide SendFrom, AlsoSent, DecodePage, Live, Fetch, Encode.Predicted, Encode.SealPatch, Encode.EncodeMutations;
    var merged := DecodePage(env, db, first.answer.page, Stored(db), true);
    if merged.err.None? && first.answer.page.collected {
      ConflictRetries(env, db, keyID, infos, first, retry);
      OneMoreSent();
      if Readable(merged.db) {
        LastAttemptSendsOne(env, merged.db, keyID, infos, retry);
      } else {
        UnreadableSendsNone(env, merged.db, keyID, infos, retry);
      }
    } else {
      NotMergedSendsOne(env, db, keyID, infos, first, retry);
    }
  }

  lemma LastAttemptSendsOne(
    env: Env, db: Db, keyID: Bytes, infos: seq<Encode.MutationInfo>, last: Attempt)
    requires |infos| == |last.ivs| && keyID in env.keys && Readable(db)
    ensures var encoded := Encode.EncodePatch(env, Live(db.rows), keyID, Stored(db), infos, last.ivs);
      encoded.Ok? && SendFrom(env, db, Some(keyID), infos, last, None).sent == [encoded.value]
  {
    hide Live, DecodePage, Fetch, Encode.Predicted, Encode.SealPatch, Encode.EncodeMutations;
  }

  lemma OneMoreSent()
    ensures forall patch, o :: |AlsoSent(patch, o).sent| == |o.sent| + 1 && AlsoSent(patch, o).sent[1..] == o.sent
  {
  }

  lemma UnreadableSendsNone(env: Env, db: Db, keyID: Bytes, infos: seq<Encode.MutationInfo>, last: Attempt)
    requires |infos| == |last.ivs| && !Readable(db)
    ensures SendFrom(env, db, Some(keyID), infos, last, None).sent == []
  {
    hide Live, DecodePage, Fetch, Encode.EncodePatch;
  }

  lemma NotMergedSendsOne(
    env: Env, db: Db, keyID: Bytes, infos: seq<Encode.MutationInfo>, first: Attempt, retry: Attempt)
    requires |infos| == |first.ivs| && |infos| == |retry.ivs| && first.answer.Conflict?
    requires keyID in env.keys && Readable(db)
    requires DecodePage(env, db, first.answer.page, Stored(db), true).err.Some? || !first.answer.page.collected
    ensures |SendFrom(env, db, Some(keyID), infos, first, Some(retry)).sent| == 1
  {
    hide Live, DecodePage, Fetch, Encode.Predicted, Encode.SealPatch, Encode.EncodeMutations;
  }

  lemma {:induction false} ConflictRetries(
    env: Env, db: Db, keyID: Bytes, infos: seq<Encode.MutationInfo>, first: Attempt, retry: Attempt)
    requires |infos| == |first.ivs| && |infos| == |retry.ivs| && first.answer.Conflict?
    requires keyID in env.keys && Readable(db) && first.answer.page.collected
    requires DecodePage(env, db, first.answer.page, Stored(db), true).err.None?
    ensures var merged := DecodePage(env, db, first.answer.page, Stored(db), true);
      var encoded := Encode.EncodePatch(env, Live(db.rows), keyID, Stored(db), infos, first.ivs);
      encoded.Ok? && SendFrom(env, db, Some(keyID), infos, first, Some(retry)) ==
      AlsoSent(encoded.value, SendFrom(env, merged.db, Some(keyID), infos, retry, None))
  {
    hide AlsoSent, Live, DecodePage, Fetch, Encode.Predicted, Encode.SealPatch, Encode.EncodeMutations;
  }

  // ----- What each answer leads to -----

  /** The sync after an accepted upload. */
  ghost function SyncAfter(env: Env, db: Db, pages: seq<Page>): Run { Fetch(env, db, false, false, pages) }

  /** The last answer leaves the store as it was, unless the upload was accepted: then the store is that of the sync,
      and the upload succeeds exactly if the sync does. */
  lemma LastAnswer(env: Env, db: Db, keyID: Bytes, infos: seq<Encode.MutationInfo>, last: Attempt)
    requires |infos| == |last.ivs| && keyID in env.keys && Readable(db)
    ensures var o := SendFrom(env, db, Some(keyID), infos, last, None);
      && |o.sent| == 1
      && match last.answer
         case Accepted(pages) =>
           var run := SyncAfter(env, db, pages);
           o.db == run.db && o.err == if run.err.None? then None else Some(Coding(run.err.value))
         case NoAnswer => o.db == db && o.err == Some(Disconnected)
         case Refused => o.db == db && o.err == Some(UpdateFailed)
         case Conflict(_) => o.db == db && o.err == Some(UpdateFailed)
  {
    hide Live, DecodePage, Fetch, Encode.Predicted, Encode.SealPatch, Encode.EncodeMutations;
  }

  /** The same for the first answer, except that a conflict is merged: an error of the merge ends the upload with what
      was stored until then, and otherwise the second answer decides. */
  lemma FirstAnswer(env: Env, db: Db, keyID: Bytes, infos: seq<Encode.MutationInfo>, first: Attempt, retry: Attempt)
    requires |infos| == |first.ivs| && |infos| == |retry.ivs| && keyID in env.keys && Readable(db)
    ensures var o := SendFrom(env, db, Some(keyID), infos, first, Some(retry));
      match first.answer
      case Conflict(_) =>
        var merged := DecodePage(env, db, first.answer.page, Stored(db), true);
        if merged.err.Some? || !first.answer.page.collected then o.db == merged.db && o.err == Some(UpdateFailed)
        else
          var again := SendFrom(env, merged.db, Some(keyID), infos, retry, None);
          o.db == again.db && o.err == again.err
      case Accepted(pages) =>
        var run := SyncAfter(env, db, pages);
        |o.sent| == 1 && o.db == run.db && o.err == if run.err.None? then None else Some(Coding(run.err.value))
      case NoAnswer => |o.sent| == 1 && o.db == db && o.err == Some(Disconnected)
      case Refused => |o.sent| == 1 && o.db == db && o.err == Some(UpdateFailed)
  {
    hide Live, DecodePage, Fetch, Encode.Predicted, Encode.SealPatch, Encode.EncodeMutations;
  }

  /** Nothing is sent with an unreadable version, or without a key. */
  lemma NothingToSend(env: Env, db: Db, keyID: Option<Bytes>, infos: seq<Encode.MutationInfo>, first: Attempt,
                      retry: Option<Attempt>)
    requires |infos| == |first.ivs| && (retry.Some? ==> |infos| == |retry.value.ivs|)
    ensures !Readable(db) ==>
      SendFrom(env, db, keyID, infos, first, retry) == Outcome(db, [], Some(Coding(InvalidStoredVersion)))
    ensures Readable(db) && keyID.None? ==>
      SendFrom(env, db, keyID, infos, first, retry) == Outcome(db, [], Some(NoKeys))
    ensures Readable(db) && keyID.Some? && keyID.value !in env.keys ==>
      SendFrom(env, db, keyID, infos, first, retry) == Outcome(db, [], Some(Coding(KeyNotFound)))
  {
    hide Live, DecodePage, Fetch, Encode.Predicted, Encode.SealPatch, Encode.EncodeMutations;
  }

  /** The pages of an accepted upload were synced without an error. */
  ghost predicate AcceptedAndSynced(env: Env, db: Db, a: Answer) {
    a.Accepted? && SyncAfter(env, db, a.pages).err.None?
  }

  /** An upload succeeds exactly when it is accepted, at once or after one merged conflict, and the sync behind it
      succeeds. */
  lemma SucceedsExactly(env: Env, db: Db, keyID: Bytes, infos: seq<Encode.MutationInfo>, first: Attempt, retry: Attempt)
    requires |infos| == |first.ivs| && |infos| == |retry.ivs| && keyID in env.keys
    ensures SendFrom(env, db, Some(keyID), infos, first, Some(retry)).err.None? <==>
      && Readable(db)
      && (AcceptedAndSynced(env, db, first.answer) || (first.answer.Conflict? && first.answer.page.collected
          && var merged := DecodePage(env, db, first.answer.page, Stored(db), true);
          merged.err.None? && Readable(merged.db) && AcceptedAndSynced(env, merged.db, retry.answer)))
  {
    hide SendFrom, DecodePage, Fetch;
    NothingToSend(env, db, Some(keyID), infos, first, Some(retry));
    if Readable(db) {
      FirstAnswer(env, db, keyID, infos, first, retry);
      if first.answer.Conflict? {
        var merged := DecodePage(env, db, first.answer.page, Stored(db), true);
        NothingToSend(env, merged.db, Some(keyID), infos, retry, None);
        if Readable(merged.db) {
          LastAnswer(env, merged.db, keyID, infos, retry);
        }
      }
    }
  }

  /** `sendAppState`; without a second attempt it does not retry. */
  method SendAppState(p: Processor, keyID: Option<Bytes>, infos: seq<Encode.MutationInfo>, first: Attempt,
                      retry: Option<Attempt>) returns (sent: seq<Patch>, err: Option<SendError>)
    requires |infos| == |first.ivs| && (retry.Some? ==> |infos| == |retry.value.ivs|)
    modifies p.store
    ensures Outcome(p.store.View(), sent, err) ==
            SendFrom(p.env, old(p.store.View()), keyID, infos, first, retry)
    decreases if retry.Some? then 1 else 0
  {
    hide Live, DecodePage, Fetch, Encode.EncodePatch;
    var stored := p.store.GetAppStateVersion();
    if stored.Err? {
      return [], Some(Coding(stored.error));
    }
    if keyID.None? {
      return [], Some(NoKeys);
    }
    var encoded := p.EncodePatch(keyID.value, stored.value, infos, first.ivs);
    if encoded.Err? {
      return [], Some(Coding(encoded.error));
    }
    sent := [encoded.value];
    match first.answer {
      case NoAnswer => err := Some(Disconnected);
      case Refused => err := Some(UpdateFailed);
      case Accepted(pages) =>
        var mutations, state, failed := p.FetchAppState(false, false, pages);
        err := if failed.Some? then Some(Coding(failed.value)) else None;
      case Conflict(page) =>
        if retry.None? {
          return sent, Some(UpdateFailed);
        }
        var mutations, state, failed := p.DecodePatches(page, stored.value, true);
        if failed.Some? || !page.collected {
          return sent, Some(UpdateFailed);
        }
        var more;
        more, err := SendAppState(p, keyID, infos, retry.value, None);
        sent := sent + more;
    }
  }
}
