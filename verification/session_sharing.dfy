/** The session cache with records as the shared objects that they are: a load from the cache hands out the cached
    record itself, and the cache keeps the record that is stored in it.  Compared with a program that loads and stores
    copies. */
module SessionSharing {
  import opened Bytes
  import opened SessionCache

  /** A cache entry points to a record. */
  datatype Slot = Slot(dirty: bool, ref: nat)

  /** Records live on a heap; the program holds references, one for each load. */
  datatype Shared<S> = Shared(heap: seq<S>, cache: map<Address, Slot>, sessions: map<Address, Bytes>, handles: seq<nat>)

  /** The same program on copies: one record for each load, and the table itself. */
  datatype Copies<S> = Copies(records: seq<S>, table: map<Address, Bytes>)

  datatype Action<!S> =
    | Load(a: Address)
    | Change(h: nat, f: S -> S)
    | Store(a: Address, h: nat)
    | SaveAll(ok: bool)

  function DirtyBytes<S>(c: Codec<S>, s: Shared<S>): map<Address, Bytes>
    requires forall a :: a in s.cache ==> s.cache[a].ref < |s.heap|
  {
    map a | a in s.cache && s.cache[a].dirty :: c.encode(s.heap[s.cache[a].ref])
  }

  /** Every reference is to a record. */
  ghost predicate Formed<S>(s: Shared<S>) {
    && (forall a :: a in s.cache ==> s.cache[a].ref < |s.heap|)
    && (forall h :: 0 <= h < |s.handles| ==> s.handles[h] < |s.heap|)
  }

  ghost function StepShared<S>(c: Codec<S>, s: Shared<S>, op: Action<S>): (s': Shared<S>)
    requires Formed(s)
    ensures Formed(s')
  {
    match op
    case Load(a) =>
      if a in s.cache then s.(handles := s.handles + [s.cache[a].ref])
      else
        (match Fetch(c, s.sessions, a)
         case Err(_) => s
         case Ok(record) => s.(heap := s.heap + [record], handles := s.handles + [|s.heap|]))
    case Change(h, f) =>
      if h >= |s.handles| then s else s.(heap := s.heap[s.handles[h] := f(s.heap[s.handles[h]])])
    case Store(a, h) => if h >= |s.handles| then s else s.(cache := s.cache[a := Slot(true, s.handles[h])])
    case SaveAll(ok) =>
      if DirtyBytes(c, s) != map[] && !ok then s
      else s.(sessions := s.sessions + DirtyBytes(c, s), cache := map[])
  }

  function StepCopies<S>(c: Codec<S>, p: Copies<S>, op: Action<S>): Copies<S> {
    match op
    case Load(a) =>
      (match Fetch(c, p.table, a) case Err(_) => p case Ok(record) => p.(records := p.records + [record]))
    case Change(h, f) => if h >= |p.records| then p else p.(records := p.records[h := f(p.records[h])])
    case Store(a, h) => if h >= |p.records| then p else p.(table := p.table[a := c.encode(p.records[h])])
    case SaveAll(_) => p
  }

  // ----- The discipline -----

  /** The references that are out of date because another one changed their record, and the records that were changed
      and not stored since. */
  datatype Watch = Watch(stale: set<nat>, open: set<nat>)

  function Sharers(handles: seq<nat>, h: nat): set<nat>
    requires h < |handles|
  {
    set g | 0 <= g < |handles| && g != h && handles[g] == handles[h]
  }

  function NextWatch<S>(s: Shared<S>, w: Watch, op: Action<S>): Watch {
    match op
    case Change(h, _) =>
      if h >= |s.handles| then w else Watch(w.stale + Sharers(s.handles, h), w.open + {s.handles[h]})
    case Store(_, h) => if h >= |s.handles| then w else w.(open := w.open - {s.handles[h]})
    case _ => w
  }

  /** A program that goes well with the cache does not use a reference after another one changed its record, keeps a
      record under one address, and stores what it changed before the record is loaded again or written back. */
  ghost predicate Disciplined<S>(s: Shared<S>, w: Watch, op: Action<S>) {
    match op
    case Load(a) => a in s.cache ==> s.cache[a].ref !in w.open
    case Change(h, _) => h < |s.handles| && h !in w.stale
    case Store(a, h) =>
      h < |s.handles| && h !in w.stale && forall b :: b in s.cache && b != a ==> s.cache[b].ref != s.handles[h]
    case SaveAll(ok) => forall a :: a in s.cache && s.cache[a].dirty ==> s.cache[a].ref !in w.open
  }

  // ----- The refinement -----

  /** What a cache entry says, unless its record is open. */
  ghost predicate Faithful<S>(c: Codec<S>, s: Shared<S>, table: map<Address, Bytes>, w: Watch, a: Address) {
    a in s.cache && s.cache[a].ref < |s.heap| && s.cache[a].ref !in w.open ==>
      var record := s.heap[s.cache[a].ref];
      if s.cache[a].dirty then a in table && table[a] == c.encode(record) else Fetch(c, table, a) == Ok(record)
  }

  ghost predicate SameBytes<S>(s: Shared<S>, table: map<Address, Bytes>, a: Address) {
    !(a in s.cache && s.cache[a].dirty) ==>
      (a in table <==> a in s.sessions) && (a in table ==> table[a] == s.sessions[a])
  }

  ghost predicate Refines<S>(c: Codec<S>, s: Shared<S>, p: Copies<S>, w: Watch) {
    && Formed(s) && |s.handles| == |p.records|
    && (forall h :: 0 <= h < |s.handles| && h !in w.stale ==> s.heap[s.handles[h]] == p.records[h])
    && (forall a: Address :: Faithful(c, s, p.table, w, a))
    && (forall a: Address :: SameBytes(s, p.table, a))
    && (forall a :: a in s.cache && s.cache[a].dirty ==> a in p.table)
    && (forall h :: h in w.stale ==> h < |s.handles|) && (forall r :: r in w.open ==> r < |s.heap|)
  }

  lemma SameFetch<S(!new)>(c: Codec<S>, s: Shared<S>, p: Copies<S>, w: Watch, a: Address)
    requires Inverse(c) && Refines(c, s, p, w) && (a in s.cache ==> s.cache[a].ref !in w.open)
    ensures if a in s.cache then Fetch(c, p.table, a) == Ok(s.heap[s.cache[a].ref])
            else Fetch(c, p.table, a) == Fetch(c, s.sessions, a)
  {
    assert Faithful(c, s, p.table, w, a) && SameBytes(s, p.table, a);
  }

  lemma LoadRefines<S(!new)>(c: Codec<S>, s: Shared<S>, p: Copies<S>, w: Watch, a: Address)
    requires Inverse(c) && Refines(c, s, p, w) && Disciplined(s, w, Load(a))
    ensures Refines(c, StepShared(c, s, Load(a)), StepCopies(c, p, Load(a)), w)
    ensures |StepShared(c, s, Load(a)).handles| == |StepCopies(c, p, Load(a)).records|
  {
    hide Fetch;
    SameFetch(c, s, p, w, a);
    var s' := StepShared(c, s, Load(a));
    forall b: Address
      ensures Faithful(c, s', p.table, w, b) && SameBytes(s', p.table, b)
    {
      assert Faithful(c, s, p.table, w, b) && SameBytes(s, p.table, b);
    }
  }

  lemma ChangeRefines<S(!new)>(c: Codec<S>, s: Shared<S>, p: Copies<S>, w: Watch, h: nat, f: S -> S)
    requires Refines(c, s, p, w) && Disciplined(s, w, Change(h, f))
    ensures Refines(c, StepShared(c, s, Change(h, f)), StepCopies(c, p, Change(h, f)), NextWatch(s, w, Change(h, f)))
  {
    hide Fetch;
    var s', p', w' := StepShared(c, s, Change(h, f)), StepCopies(c, p, Change(h, f)), NextWatch(s, w, Change(h, f));
    forall b: Address
      ensures Faithful(c, s', p'.table, w', b) && SameBytes(s', p'.table, b)
    {
      assert Faithful(c, s, p.table, w, b) && SameBytes(s, p.table, b);
    }
    forall g | 0 <= g < |s.handles| && g !in w'.stale
      ensures s'.heap[s'.handles[g]] == p'.records[g]
    {
      assert g !in w.stale && g !in Sharers(s.handles, h);
    }
  }

  lemma StoreRefines<S(!new)>(c: Codec<S>, s: Shared<S>, p: Copies<S>, w: Watch, a: Address, h: nat)
    requires Inverse(c) && Refines(c, s, p, w) && Disciplined(s, w, Store(a, h))
    ensures Refines(c, StepShared(c, s, Store(a, h)), StepCopies(c, p, Store(a, h)), NextWatch(s, w, Store(a, h)))
  {
    var s', p', w' := StepShared(c, s, Store(a, h)), StepCopies(c, p, Store(a, h)), NextWatch(s, w, Store(a, h));
    forall b: Address
      ensures Faithful(c, s', p'.table, w', b) && SameBytes(s', p'.table, b)
    {
      assert Faithful(c, s, p.table, w, b) && SameBytes(s, p.table, b);
    }
  }

  lemma SaveAllRefines<S(!new)>(c: Codec<S>, s: Shared<S>, p: Copies<S>, w: Watch, ok: bool)
    requires Refines(c, s, p, w) && Disciplined(s, w, SaveAll(ok))
    ensures Refines(c, StepShared(c, s, SaveAll(ok)), p, w)
    ensures ok ==> StepShared(c, s, SaveAll(ok)).sessions == p.table
  {
    hide Fetch;
    var written := s.sessions + DirtyBytes(c, s);
    forall b: Address
      ensures b in written <==> b in p.table
      ensures b in written ==> written[b] == p.table[b]
    {
      assert Faithful(c, s, p.table, w, b) && SameBytes(s, p.table, b);
    }
    assert written == p.table;
  }

  lemma ActionRefines<S(!new)>(c: Codec<S>, s: Shared<S>, p: Copies<S>, w: Watch, op: Action<S>)
    requires Inverse(c) && Refines(c, s, p, w) && Disciplined(s, w, op)
    ensures Refines(c, StepShared(c, s, op), StepCopies(c, p, op), NextWatch(s, w, op))
  {
    hide Refines, Disciplined, StepShared, StepCopies;
    match op
    case Load(a) => LoadRefines(c, s, p, w, a);
    case Change(h, f) => ChangeRefines(c, s, p, w, h, f);
    case Store(a, h) => StoreRefines(c, s, p, w, a, h);
    case SaveAll(ok) => SaveAllRefines(c, s, p, w, ok); CopiesIgnoreSaveAll(c, p, ok);
  }

  lemma CopiesIgnoreSaveAll<S(!new)>(c: Codec<S>, p: Copies<S>, ok: bool)
    ensures StepCopies(c, p, SaveAll(ok)) == p
  {
  }

  // ----- Runs -----

  datatype State<S> = State(shared: Shared<S>, copies: Copies<S>, watch: Watch)

  ghost function RunBoth<S>(c: Codec<S>, start: State<S>, ops: seq<Action<S>>): (r: State<S>)
    requires Formed(start.shared)
    ensures Formed(r.shared)
  {
    if ops == [] then start
    else
      var before, op := RunBoth(c, start, ops[..|ops| - 1]), ops[|ops| - 1];
      State(StepShared(c, before.shared, op), StepCopies(c, before.copies, op),
            NextWatch(before.shared, before.watch, op))
  }

  ghost predicate AllDisciplined<S>(c: Codec<S>, start: State<S>, ops: seq<Action<S>>)
    requires Formed(start.shared)
  {
    forall i :: 0 <= i < |ops| ==>
      Disciplined(RunBoth(c, start, ops[..i]).shared, RunBoth(c, start, ops[..i]).watch, ops[i])
  }

  /** The prefetched cache: one record for each address, in any order. */
  function Prefetch<S>(c: Codec<S>, sessions: map<Address, Bytes>, addresses: seq<Address>): (s: Shared<S>)
    ensures s.sessions == sessions && s.handles == []
    ensures forall a :: a in s.cache ==> s.cache[a].ref < |s.heap|
  {
    if addresses == [] then Shared([], map[], sessions, [])
    else
      var s, a := Prefetch(c, sessions, addresses[..|addresses| - 1]), addresses[|addresses| - 1];
      match Fetch(c, sessions, a)
      case Err(_) => s
      case Ok(record) => s.(heap := s.heap + [record], cache := s.cache[a := Slot(false, |s.heap|)])
  }

  lemma {:induction false} PrefetchRefines<S(!new)>(
    c: Codec<S>, sessions: map<Address, Bytes>, addresses: seq<Address>)
    ensures Refines(c, Prefetch(c, sessions, addresses), Copies([], sessions), Watch({}, {}))
  {
    hide Fetch;
    var w := Watch({}, {});
    var s' := Prefetch(c, sessions, addresses);
    if addresses != [] {
      PrefetchRefines(c, sessions, addresses[..|addresses| - 1]);
      var s := Prefetch(c, sessions, addresses[..|addresses| - 1]);
      forall b: Address ensures Faithful(c, s', sessions, w, b) && SameBytes(s', sessions, b) {
        assert Faithful(c, s, sessions, w, b) && SameBytes(s, sessions, b);
      }
    }
  }

  lemma {:induction false} RunRefines<S(!new)>(c: Codec<S>, start: State<S>, ops: seq<Action<S>>)
    requires Formed(start.shared)
    requires Inverse(c) && Refines(c, start.shared, start.copies, start.watch) && AllDisciplined(c, start, ops)
    ensures var r := RunBoth(c, start, ops); Refines(c, r.shared, r.copies, r.watch)
  {
    hide Refines, Disciplined, StepShared, StepCopies, NextWatch;
    if ops != [] {
      var n := |ops| - 1;
      assert forall i :: 0 <= i <= n ==> ops[..n][..i] == ops[..i];
      RunRefines(c, start, ops[..n]);
      var before := RunBoth(c, start, ops[..n]);
      ActionRefines(c, before.shared, before.copies, before.watch, ops[n]);
    }
  }

  /** A disciplined program cannot tell the shared records of the cache from copies: every reference that is not out of
      date reads the same record, and a write-back that is disciplined leaves the same table. */
  lemma SharingIsInvisible<S(!new)>(
    c: Codec<S>, sessions: map<Address, Bytes>, addresses: seq<Address>, ops: seq<Action<S>>)
    requires Inverse(c)
    requires AllDisciplined(c, State(Prefetch(c, sessions, addresses), Copies([], sessions), Watch({}, {})), ops)
    ensures var r := RunBoth(c, State(Prefetch(c, sessions, addresses), Copies([], sessions), Watch({}, {})), ops);
      && |r.shared.handles| == |r.copies.records|
      && (forall h :: 0 <= h < |r.shared.handles| && h !in r.watch.stale ==>
        r.shared.heap[r.shared.handles[h]] == r.copies.records[h])
      && (Disciplined(r.shared, r.watch, SaveAll(true)) ==>
        StepShared(c, r.shared, SaveAll(true)).sessions == r.copies.table)
  {
    hide Disciplined, StepShared, RunBoth, Prefetch, Fetch, AllDisciplined;
    var start := State(Prefetch(c, sessions, addresses), Copies([], sessions), Watch({}, {}));
    PrefetchRefines(c, sessions, addresses);
    RunRefines(c, start, ops);
    var r := RunBoth(c, start, ops);
    if Disciplined(r.shared, r.watch, SaveAll(true)) {
      SaveAllRefines(c, r.shared, r.copies, r.watch, true);
    }
  }

  /** Without the discipline the two differ: a record that is changed after it was stored is written back as changed,
      although it was not stored again, exactly if the change changes it. */
  lemma LaterChangeIsWritten<S(!new)>(c: Codec<S>, s: Shared<S>, p: Copies<S>, w: Watch, a: Address, h: nat, f: S -> S)
    requires Inverse(c) && Refines(c, s, p, w) && Disciplined(s, w, Store(a, h))
    ensures var s1, p1 := StepShared(c, s, Store(a, h)), StepCopies(c, p, Store(a, h));
      var s2, p2 := StepShared(c, s1, Change(h, f)), StepCopies(c, p1, Change(h, f));
      var s3 := StepShared(c, s2, SaveAll(true));
      && a in s3.sessions && s3.sessions[a] == c.encode(f(p.records[h]))
      && a in p2.table && p2.table[a] == c.encode(p.records[h])
      && (s3.sessions[a] == p2.table[a] <==> f(p.records[h]) == p.records[h])
  {
    hide Fetch;
    assert c.decode(c.encode(f(p.records[h]))) == Some(f(p.records[h]));
    assert c.decode(c.encode(p.records[h])) == Some(p.records[h]);
  }
}
