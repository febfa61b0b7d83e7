/** `fetchAppState` of `appstate.go`: one sync of a collection, page by page. */
module AppStateFetch {
  import opened Bytes
  import opened LTHash
  import opened AppState
  import opened AppStateTheorems

  const NO_DB: Db := Db(false, 0, ZERO, map[])

  /** The pages the server returns in turn; running out of them is a failed request.  `run` holds the store, the loop's
      local state and the mutations collected so far. */
  ghost function FetchPages(env: Env, run: Run, pages: seq<Page>, wantSnapshot: bool): Run
    decreases |pages|
  {
    if pages == [] then run.(err := Some(FetchFailed))
    else if !wantSnapshot && pages[0].snapshot.Some? then run.(err := Some(UnexpectedSnapshot))
    else if pages[0].snapshot.Some? && run.state != EMPTY then run.(err := Some(NonEmptyInput))
    else
      var r := DecodePage(env, run.db, pages[0], run.state, true);
      if r.err.Some? then run.(db := r.db, err := r.err) else
      var next := r.(mutations := run.mutations + r.mutations);
      if !pages[0].collected then next.(err := Some(CollectFailed))
      else if pages[0].hasMore then FetchPages(env, next, pages[1..], false) else next
  }

  /** Deleting the version row takes the MAC rows with it. */
  ghost function Fetch(env: Env, db: Db, fullSync: bool, onlyIfNotSynced: bool, pages: seq<Page>): Run {
    var db' := if fullSync then NO_DB else db;
    var start := Run(db', HState(db'.version, db'.hash), [], None);
    if db'.hasVersion && db'.version == 0 then start.(err := Some(InvalidStoredVersion))
    else if db'.version != 0 && onlyIfNotSynced then start
    else FetchPages(env, start, pages, fullSync || db'.version == 0)
  }

  // ----- How a sync ends -----

  /** What the first page leads to: running out of pages is a failed request; a snapshot is refused unless it was
      asked for and nothing is there yet; an error of the page ends the sync with what it stored; and when its
      mutations cannot be handed on, they are stored all the same. */
  lemma FirstPage(env: Env, run: Run, pages: seq<Page>, wantSnapshot: bool)
    ensures FetchPages(env, run, [], wantSnapshot) == run.(err := Some(FetchFailed))
    ensures pages != [] ==>
        var r := FetchPages(env, run, pages, wantSnapshot);
        var page := DecodePage(env, run.db, pages[0], run.state, true);
        if pages[0].snapshot.Some? && !wantSnapshot then r.db == run.db && r.err == Some(UnexpectedSnapshot)
        else if pages[0].snapshot.Some? && run.state != HState(0, ZERO) then
          r.db == run.db && r.err == Some(NonEmptyInput)
        else if page.err.Some? then r.db == page.db && r.err == page.err
        else if !pages[0].collected then r.db == page.db && r.err == Some(CollectFailed)
        else if !pages[0].hasMore then r == page.(mutations := run.mutations + page.mutations)
        else r == FetchPages(env, page.(mutations := run.mutations + page.mutations), pages[1..], false)
  {
    hide DecodePage;
  }

  /** A full sync begins with an emptied collection; a stored version of zero is refused; and a sync that is only
      wanted for a collection without a version does nothing for one with a version. */
  lemma SyncBegins(env: Env, db: Db, fullSync: bool, onlyIfNotSynced: bool, pages: seq<Page>)
    ensures var r, start := Fetch(env, db, fullSync, onlyIfNotSynced, pages), if fullSync then NO_DB else db;
      var begun := Run(start, HState(start.version, start.hash), [], None);
      if start.hasVersion && start.version == 0 then r.db == start && r.err == Some(InvalidStoredVersion)
      else if onlyIfNotSynced && start.version > 0 then r == begun
      else r == FetchPages(env, begun, pages, start.version == 0)
    ensures NO_DB == Db(false, 0, ZERO, map[])
  {
    hide FetchPages;
  }

  // ----- Paging does not matter -----

  ghost function AllPatches(pages: seq<Page>): seq<Patch> {
    if pages == [] then [] else pages[0].patches + AllPatches(pages[1..])
  }

  /** What happens when nothing is wrong: `hasMore` on all pages but the last, a snapshot at most on the first, and all
      mutations can be handed on. */
  ghost predicate Complete(pages: seq<Page>) {
    && pages != []
    && (forall i :: 0 <= i < |pages| ==> (pages[i].hasMore <==> i < |pages| - 1))
    && (forall i :: 0 < i < |pages| ==> pages[i].snapshot.None?)
    && (forall i :: 0 <= i < |pages| ==> pages[i].collected)
  }

  lemma NoPatches(env: Env, run: Run, check: bool)
    ensures ApplyPatches(env, run, [], check) == run
  {
  }

  lemma {:induction false} ApplyAppended(env: Env, run: Run, ps: seq<Patch>, qs: seq<Patch>, check: bool)
    ensures ApplyPatches(env, run, ps + qs, check) == ApplyPatches(env, ApplyPatches(env, run, ps, check), qs, check)
  {
    hide ApplyPatch;
    if qs == [] {
      assert ps + qs == ps;
    } else {
      var front := qs[..|qs| - 1];
      assert (ps + qs)[..|ps + qs| - 1] == ps + front;
      ApplyAppended(env, run, ps, front, check);
    }
  }

  lemma {:induction false} ErrorSticks(env: Env, run: Run, ps: seq<Patch>, check: bool)
    requires run.err.Some?
    ensures ApplyPatches(env, run, ps, check) == run
  {
    hide ExaminePatch, Commit;
    if ps != [] {
      ErrorSticks(env, run, ps[..|ps| - 1], check);
    }
  }

  /** Earlier mutations are only carried along. */
  lemma {:induction false} CarryMutations(env: Env, run: Run, ps: seq<Patch>, check: bool, ds: seq<Decoded>)
    ensures ApplyPatches(env, run.(mutations := ds + run.mutations), ps, check) ==
            var r := ApplyPatches(env, run, ps, check); r.(mutations := ds + r.mutations)
  {
    hide ExaminePatch, StoreMACs, Live, Outputs;
    if ps != [] {
      CarryMutations(env, run, ps[..|ps| - 1], check, ds);
      var r := ApplyPatches(env, run, ps[..|ps| - 1], check);
      assert forall more: seq<Decoded> :: (ds + r.mutations) + more == ds + (r.mutations + more);
    }
  }

  lemma DecodePageSplits(env: Env, db: Db, page: Page, more: seq<Patch>, st: HState)
    ensures DecodePage(env, db, page.(patches := page.patches + more), st, true) ==
            ApplyPatches(env, DecodePage(env, db, page, st, true), more, true)
  {
    hide ApplyPatches, ApplySnapshot;
    var start := Run(db, st, [], None);
    var run := if page.snapshot.Some? then ApplySnapshot(env, start, page.snapshot.value, true) else start;
    ApplyAppended(env, run, page.patches, more, true);
  }

  /** What a caller can see of a sync: the store, the error, and on success the state and the mutations. */
  ghost predicate SameOutcome(a: Run, b: Run) {
    && a.db == b.db && a.err == b.err
    && (a.err.None? ==> a.state == b.state && a.mutations == b.mutations)
  }

  /** However the server cuts its patches into pages, the sync does what one page with all of them would do. */
  lemma {:induction false} PagingDoesNotMatter(env: Env, run: Run, pages: seq<Page>, wantSnapshot: bool)
    requires Complete(pages) && run.err.None?
    ensures SameOutcome(FetchPages(env, run, pages, wantSnapshot),
                        FetchPages(env, run, [Page(pages[0].snapshot, AllPatches(pages), false, true)], wantSnapshot))
    decreases |pages|
  {
    hide DecodePage, ApplyPatches;
    var first, rest := pages[0], pages[1..];
    if rest == [] {
      assert AllPatches(pages) == first.patches + AllPatches([]) == first.patches;
      assert first == Page(first.snapshot, AllPatches(pages), false, true);
      assert pages == [first];
    } else if (!wantSnapshot || run.state != EMPTY) && first.snapshot.Some? {
    } else {
      var r := DecodePage(env, run.db, first, run.state, true);
      var all := AllPatches(rest);
      DecodePageSplits(env, run.db, first.(hasMore := false), all, run.state);
      PageIgnoresMore(env, run.db, first, run.state);
      if r.err.Some? {
        ErrorSticks(env, r, all, true);
      } else {
        var next := r.(mutations := run.mutations + r.mutations);
        PagingDoesNotMatter(env, next, rest, false);
        ApplyRest(env, run, r, all);
      }
    }
  }

  lemma PageIgnoresMore(env: Env, db: Db, page: Page, st: HState)
    ensures DecodePage(env, db, page.(hasMore := false), st, true) == DecodePage(env, db, page, st, true)
  {
    hide ApplyPatches, ApplySnapshot;
  }

  lemma ApplyRest(env: Env, run: Run, r: Run, all: seq<Patch>)
    requires r.err.None?
    ensures var next := r.(mutations := run.mutations + r.mutations);
      var one := FetchPages(env, next, [Page(None, all, false, true)], false);
      var joined := ApplyPatches(env, r, all, true);
      && one.db == joined.db && one.err == joined.err
      && (one.err.None? ==> one.state == joined.state && one.mutations == run.mutations + joined.mutations)
  {
    hide ApplyPatches;
    CarryMutations(env, r.(mutations := []), all, true, r.mutations);
    assert r.mutations + [] == r.mutations;
    var d := ApplyPatches(env, r.(mutations := []), all, true).mutations;
    assert (run.mutations + r.mutations) + d == run.mutations + (r.mutations + d);
  }

  // ----- After any sync -----

  /** The version from which the first page counts on. */
  function BaseVersion(db: Db, pages: seq<Page>): nat {
    if pages != [] && pages[0].snapshot.Some? then pages[0].snapshot.value.version else db.version
  }

  lemma {:induction false} IncreasingSplits(version: nat, ps: seq<Patch>, qs: seq<Patch>)
    requires Increasing(version, ps + qs)
    ensures Increasing(version, ps) && Increasing(LastVersion(version, ps), qs)
    decreases |qs|
  {
    if qs == [] {
      assert ps + qs == ps;
    } else {
      var front := qs[..|qs| - 1];
      assert (ps + qs)[..|ps + qs| - 1] == ps + front;
      IncreasingSplits(version, ps, front);
      assert LastVersion(version, ps + front) == LastVersion(LastVersion(version, ps), front);
    }
  }

  /** One page, however it ends: unless an insertion fails, the store stays consistent, and without an error the local
      state equals it. */
  lemma OnePage(env: Env, start: Run, page: Page)
    requires start.err.None? && start.mutations == [] && InStep(env.expand, start)
    requires page.snapshot.Some? ==> start.db == NO_DB
    requires Increasing(BaseVersion(start.db, [page]), page.patches)
    ensures var r := DecodePage(env, start.db, page, start.state, true);
      && (r.err != Some(InsertFailed) ==> Consistent(env.expand, r.db))
      && (r.err.None? ==> InStep(env.expand, r))
      && (r.err.None? ==> r.db.version == LastVersion(BaseVersion(start.db, [page]), page.patches))
  {
    hide ApplyPatches, ApplySnapshot, Increasing, Total, Live, Faithful;
    var base := start;
    if page.snapshot.Some? {
      SnapshotOutcome(env, page.snapshot.value, true);
      base := ApplySnapshot(env, start, page.snapshot.value, true);
      SnapshotRefused(env, start, page.snapshot.value, true);
    }
    if base.err.Some? {
      ErrorSticks(env, base, page.patches, true);
    } else {
      IncreasingPrefix(env, base, page.patches, true);
      assert page.patches[..|page.patches|] == page.patches;
    }
  }

  lemma SnapshotRefused(env: Env, run: Run, ss: Snapshot, check: bool)
    ensures var r := ApplySnapshot(env, run, ss, check);
      r.err.Some? && r.err != Some(InsertFailed) ==> r.db == run.db
  {
    hide DecodeMutations, UpdatedHash, Outputs, StoreMACs;
  }

  /** Any pages, cut off or refused anywhere. */
  lemma {:induction false} PagesStayConsistent(env: Env, run: Run, pages: seq<Page>, wantSnapshot: bool)
    requires InStep(env.expand, run) && (wantSnapshot && run.state == EMPTY ==> run.db == NO_DB)
    requires Increasing(BaseVersion(run.db, pages), AllPatches(pages))
    ensures var r := FetchPages(env, run, pages, wantSnapshot);
      && (r.err.None? ==> InStep(env.expand, r))
      && (r.err != Some(InsertFailed) ==> Consistent(env.expand, r.db))
    decreases |pages|
  {
    hide Consistent, DecodePage, Increasing;
    if pages == [] {
    } else if pages[0].snapshot.Some? && !(wantSnapshot && run.state == EMPTY) {
    } else {
      var start := run.(mutations := []);
      IncreasingSplits(BaseVersion(run.db, pages), pages[0].patches, AllPatches(pages[1..]));
      OnePage(env, start, pages[0]);
      var r := DecodePage(env, run.db, pages[0], run.state, true);
      if r.err.None? && pages[0].collected && pages[0].hasMore {
        var next := r.(mutations := run.mutations + r.mutations);
        if pages[1..] == [] || pages[1..][0].snapshot.None? {
          PagesStayConsistent(env, next, pages[1..], false);
        }
      }
    }
  }

  // ----- After any sync, whatever the versions -----

  ghost function AfterSnapshot(env: Env, start: Run, page: Page): Run {
    if page.snapshot.Some? then ApplySnapshot(env, start, page.snapshot.value, true) else start
  }

  /** Nothing that this page puts is shadowed by a newer row, and the values that its snapshot replaces cancel out. */
  ghost predicate PageShows(env: Env, start: Run, page: Page) {
    var base := AfterSnapshot(env, start, page);
    base.err.None? ==>
      && (page.snapshot.Some? ==> SnapshotShows(env, start, page.snapshot.value))
      && Unshadowed(env, base, page.patches[..Accepted(env, base, page.patches, true)], true)
  }

  ghost predicate SnapshotShows(env: Env, start: Run, ss: Snapshot) {
    var ms := AsSets(ss.records);
    && NotShadowed(start.db.rows, ss.version, Outputs(ms, |ms|))
    && ReplacedCancel(env.expand, Live(start.db.rows), ms)
  }

  /** One page on any store, with any versions: without an error memory and store agree on version and hash, and if all
      that the page puts shows, the hash stays the total of the visible map. */
  lemma AnyPage(env: Env, start: Run, page: Page)
    requires start.err.None? && start.mutations == [] && start.state == Stored(start.db)
    ensures var r := DecodePage(env, start.db, page, start.state, true);
      && (r.err.None? ==> r.state == Stored(r.db))
      && (Faithful(env.expand, start.db) && PageShows(env, start, page) ==>
        (r.err.None? ==> Matches(env.expand, r)) && (r.err != Some(InsertFailed) ==> Faithful(env.expand, r.db)))
  {
    hide ApplyPatches, ApplySnapshot, Accepted, Unshadowed, Faithful, SnapshotShows;
    var base := AfterSnapshot(env, start, page);
    SnapshotIsStored(env, start, page);
    if base.err.Some? {
      ErrorSticks(env, base, page.patches, true);
    } else {
      PrefixIsStored(env, base, page.patches, true);
      assert page.patches[..|page.patches|] == page.patches;
      if Faithful(env.expand, start.db) && PageShows(env, start, page) {
        PrefixIsFaithful(env, base, page.patches[..Accepted(env, base, page.patches, true)], true);
      }
    }
  }

  lemma SnapshotIsStored(env: Env, start: Run, page: Page)
    requires start.err.None? && start.state == Stored(start.db)
    ensures var base := AfterSnapshot(env, start, page);
      && (base.err.None? ==> base.state == Stored(base.db))
      && (base.err.Some? && base.err != Some(InsertFailed) ==> base.db == start.db)
      && (Faithful(env.expand, start.db) && base.err.None? && PageShows(env, start, page) ==> Matches(env.expand, base))
  {
    hide Accepted, Unshadowed, Faithful, DecodeMutations, UpdatedHash, Outputs, Insertable, InsertRows, DeleteRows,
      CheckSnapshotMAC, NotShadowed, ReplacedCancel, Live;
    if page.snapshot.Some? {
      var ss := page.snapshot.value;
      SnapshotRefused(env, start, ss, true);
      if Faithful(env.expand, start.db) {
        SnapshotOnto(env, start, ss, true);
      }
    }
  }

  /** The same for all pages that a sync looks at. */
  ghost predicate PagesShow(env: Env, run: Run, pages: seq<Page>, wantSnapshot: bool)
    decreases |pages|
  {
    pages == [] || (pages[0].snapshot.Some? && !(wantSnapshot && run.state == EMPTY)) || (
      && PageShows(env, run.(mutations := []), pages[0])
      && var r := DecodePage(env, run.db, pages[0], run.state, true);
        r.err.None? && pages[0].collected && pages[0].hasMore ==>
          PagesShow(env, r.(mutations := run.mutations + r.mutations), pages[1..], false))
  }

  lemma {:induction false} AnyPages(env: Env, run: Run, pages: seq<Page>, wantSnapshot: bool)
    requires run.err.None? && run.state == Stored(run.db)
    ensures var r := FetchPages(env, run, pages, wantSnapshot);
      && (r.err.None? ==> r.state == Stored(r.db))
      && (Faithful(env.expand, run.db) && PagesShow(env, run, pages, wantSnapshot) ==>
        r.err != Some(InsertFailed) ==> Faithful(env.expand, r.db))
    decreases |pages|
  {
    hide Faithful, DecodePage, PageShows;
    if pages == [] {
    } else if pages[0].snapshot.Some? && !(wantSnapshot && run.state == EMPTY) {
    } else {
      AnyPage(env, run.(mutations := []), pages[0]);
      var r := DecodePage(env, run.db, pages[0], run.state, true);
      if r.err.None? && pages[0].collected && pages[0].hasMore {
        AnyPages(env, r.(mutations := run.mutations + r.mutations), pages[1..], false);
      }
    }
  }

  ghost function StartOf(db: Db): Run { Run(db, Stored(db), [], None) }

  /** A sync with any pages the server may send, of any versions and wherever it ends.  A successful one leaves the
      loop's local state equal to the stored version and hash.  The stored hash stays the total of the visible map,
      unless an insertion violated a constraint, as long as all that the pages put shows.  If the versions count
      upwards, it does, and no row is newer than the stored version. */
  lemma SyncStaysConsistent(env: Env, db: Db, fullSync: bool, onlyIfNotSynced: bool, pages: seq<Page>)
    ensures var run, db' := Fetch(env, db, fullSync, onlyIfNotSynced, pages), if fullSync then NO_DB else db;
      && (run.err.None? ==> run.state == Stored(run.db))
      && (Faithful(env.expand, db) && PagesShow(env, StartOf(db'), pages, fullSync || db'.version == 0) ==>
        run.err != Some(InsertFailed) ==> Faithful(env.expand, run.db))
      && (Consistent(env.expand, db) && Increasing(BaseVersion(db', pages), AllPatches(pages)) ==>
        run.err != Some(InsertFailed) ==> Consistent(env.expand, run.db))
  {
    hide FetchPages, Increasing, AllPatches, Total, Live, PagesShow;
    var db' := if fullSync then NO_DB else db;
    EmptyCollection(env.expand);
    AnyPages(env, StartOf(db'), pages, fullSync || db'.version == 0);
    if Consistent(env.expand, db) && Increasing(BaseVersion(db', pages), AllPatches(pages))
      && !(db'.hasVersion && db'.version == 0) {
      PagesStayConsistent(env, StartOf(db'), pages, fullSync || db'.version == 0);
    }
  }
}
