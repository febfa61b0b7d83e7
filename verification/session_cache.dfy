/** The write-back cache of Signal sessions: `sessioncache.go`, and the load and store of `signal.go`. */
module SessionCache {
  import opened Bytes

  type Address = Bytes

  /** Serialisation of session records, and the record of an address that has no session yet. */
  datatype Codec<!S> = Codec(encode: S -> Bytes, decode: Bytes -> Option<S>, blank: S)

  ghost predicate Inverse<S(!new)>(c: Codec<S>) {
    forall s: S :: c.decode(c.encode(s)) == Some(s)
  }

  datatype Entry<S> = Entry(dirty: bool, found: bool, record: S)

  /** The session table, and the cache when the context carries one. */
  datatype Device<S> = Device(sessions: map<Address, Bytes>, cache: Option<map<Address, Entry<S>>>)

  datatype LoadError = Undecodable | QueryFailed

  function Fetch<S>(c: Codec<S>, sessions: map<Address, Bytes>, a: Address): Result<S, LoadError> {
    if a !in sessions then Ok(c.blank)
    else match c.decode(sessions[a]) case Some(s) => Ok(s) case None => Err(Undecodable)
  }

  predicate Cached<S>(d: Device<S>, a: Address) { d.cache.Some? && a in d.cache.value }

  function Load<S>(c: Codec<S>, d: Device<S>, a: Address): Result<S, LoadError> {
    if Cached(d, a) then Ok(d.cache.value[a].record) else Fetch(c, d.sessions, a)
  }

  function Save<S>(c: Codec<S>, d: Device<S>, a: Address, s: S): Device<S> {
    if d.cache.Some? then d.(cache := Some(d.cache.value[a := Entry(true, true, s)]))
    else d.(sessions := d.sessions[a := c.encode(s)])
  }

  function Prefetched<S>(c: Codec<S>, sessions: map<Address, Bytes>, addresses: set<Address>): map<Address, Entry<S>> {
    map a | a in addresses && Fetch(c, sessions, a).Ok? ::
      Entry(false, a in sessions, Fetch(c, sessions, a).value)
  }

  function Dirty<S>(c: Codec<S>, cache: map<Address, Entry<S>>): map<Address, Bytes> {
    map a | a in cache && cache[a].dirty :: c.encode(cache[a].record)
  }

  /** Writing back: one transaction, which may fail and then leaves the table and the cache alone. */
  function Flush<S>(c: Codec<S>, d: Device<S>, ok: bool): Device<S> {
    if d.cache.None? || (Dirty(c, d.cache.value) != map[] && !ok) then d
    else Device(d.sessions + Dirty(c, d.cache.value), Some(map[]))
  }

  // ----- The methods -----

  class Store<S(==)> {
    const codec: Codec<S>
    var sessions: map<Address, Bytes>
    var cache: Option<map<Address, Entry<S>>>

    constructor (codec: Codec<S>, sessions: map<Address, Bytes>)
      ensures this.codec == codec && View() == Device(sessions, None)
    {
      this.codec, this.sessions, cache := codec, sessions, None;
    }

    ghost function View(): Device<S>
      reads this
    {
      Device(sessions, cache)
    }

    method GetCachedSession(a: Address) returns (record: Option<S>)
      ensures record == if Cached(View(), a) then Some(cache.value[a].record) else None
    {
      if cache.None? || a !in cache.value {
        return None;
      }
      return Some(cache.value[a].record);
    }

    method PutCachedSession(a: Address, record: S) returns (cached: bool)
      modifies this`cache
      ensures cached == old(cache).Some?
      ensures cache == if cached then Some(old(cache).value[a := Entry(true, true, record)]) else None
    {
      if cache.None? {
        return false;
      }
      cache := Some(cache.value[a := Entry(true, true, record)]);
      return true;
    }

    /** The query works when ok; a cached session needs none. */
    method LoadSession(a: Address, ok: bool) returns (r: Result<S, LoadError>)
      ensures r == if ok || Cached(View(), a) then Load(codec, View(), a) else Err(QueryFailed)
    {
      var cached := GetCachedSession(a);
      if cached.Some? {
        return Ok(cached.value);
      }
      if !ok {
        return Err(QueryFailed);
      }
      if a !in sessions {
        return Ok(codec.blank);
      }
      var record := codec.decode(sessions[a]);
      if record.None? {
        return Err(Undecodable);
      }
      return Ok(record.value);
    }

    /** The table write works when ok; the cache needs none. */
    method StoreSession(a: Address, record: S, ok: bool) returns (stored: bool)
      modifies this
      ensures stored == (ok || old(cache).Some?)
      ensures View() == if stored then Save(codec, old(View()), a, record) else old(View())
    {
      var cached := PutCachedSession(a, record);
      if cached {
        return true;
      }
      if !ok {
        return false;
      }
      sessions := sessions[a := codec.encode(record)];
      return true;
    }

    /** The prefetch, whose query works when ok.  It also says which of the addresses have a session. */
    method WithCachedSessions(addresses: set<Address>, ok: bool) returns (r: Result<map<Address, bool>, LoadError>)
      modifies this`cache
      ensures r.Err? <==> addresses != {} && !ok
      ensures addresses == {} || !ok ==> cache == old(cache)
      ensures addresses != {} && ok ==> cache == Some(Prefetched(codec, sessions, addresses))
      ensures r.Ok? ==> forall a :: a in r.value <==> a in addresses && Fetch(codec, sessions, a).Ok?
      ensures r.Ok? ==> forall a :: a in r.value ==> (r.value[a] <==> a in sessions)
    {
      var existing: map<Address, bool> := map[];
      if addresses == {} {
        return Ok(existing);
      }
      if !ok {
        return Err(QueryFailed);
      }
      var wrapped: map<Address, Entry<S>> := map[];
      var todo := addresses;
      while todo != {}
        invariant todo <= addresses && cache == old(cache)
        invariant wrapped == Prefetched(codec, sessions, addresses - todo)
        invariant forall a :: a in existing <==> a in addresses - todo && Fetch(codec, sessions, a).Ok?
        invariant forall a :: a in existing ==> (existing[a] <==> a in sessions)
      {
        var a :| a in todo;
        todo := todo - {a};
        if a !in sessions {
          existing, wrapped := existing[a := false], wrapped[a := Entry(false, false, codec.blank)];
        } else {
          var record := codec.decode(sessions[a]);
          if record.Some? {
            existing, wrapped := existing[a := true], wrapped[a := Entry(false, true, record.value)];
          }
        }
      }
      assert addresses - todo == addresses;
      cache := Some(wrapped);
      return Ok(existing);
    }

    method PutCachedSessions(ok: bool)
      modifies this
      ensures View() == Flush(codec, old(View()), ok)
    {
      if cache.None? {
        return;
      }
      var dirtySessions: map<Address, Bytes> := map[];
      var todo := cache.value.Keys;
      while todo != {}
        invariant cache == old(cache) && sessions == old(sessions) && cache.Some? && todo <= cache.value.Keys
        invariant dirtySessions == Dirty(codec, cache.value - todo)
      {
        var a :| a in todo;
        todo := todo - {a};
        if cache.value[a].dirty {
          dirtySessions := dirtySessions[a := codec.encode(cache.value[a].record)];
        }
      }
      assert cache.value - todo == cache.value;
      if dirtySessions != map[] {
        if !ok {
          return;
        }
        sessions := sessions + dirtySessions;
      }
      cache := Some(map[]);
      assert sessions == old(sessions) + dirtySessions;
    }
  }

  // ----- Runs: with a cache, and against the table directly -----

  /** A visit loads a record, changes it in place, and stores it unless something fails in between.  A record that came
      from the cache is shared with the cache, so the change shows there even when it is not stored. */
  datatype Op<!S> = Visit(addr: Address, change: S -> S, keep: bool) | WriteBack(ok: bool)

  function Apply<S>(c: Codec<S>, d: Device<S>, op: Op<S>): Device<S> {
    match op
    case WriteBack(ok) => Flush(c, d, ok)
    case Visit(a, change, keep) =>
      match Load(c, d, a)
      case Err(_) => d
      case Ok(s) =>
        if keep then Save(c, d, a, change(s))
        else if Cached(d, a) then d.(cache := Some(d.cache.value[a := d.cache.value[a].(record := change(s))]))
        else d
  }

  function Play<S>(c: Codec<S>, d: Device<S>, ops: seq<Op<S>>): Device<S> {
    if ops == [] then d else Apply(c, Play(c, d, ops[..|ops| - 1]), ops[|ops| - 1])
  }

  /** The table after a final write-back. */
  function Written<S>(c: Codec<S>, d: Device<S>): map<Address, Bytes> {
    if d.cache.None? then d.sessions else d.sessions + Dirty(c, d.cache.value)
  }

  /** A clean entry is what the table holds. */
  ghost predicate Clean<S>(c: Codec<S>, sessions: map<Address, Bytes>, a: Address, e: Entry<S>) {
    !e.dirty ==> Fetch(c, sessions, a) == Ok(e.record) && (e.found <==> a in sessions)
  }

  /** The cached device stands for the table: clean entries agree with the stored table, dirty ones make up the rest. */
  ghost predicate StandsFor<S>(c: Codec<S>, d: Device<S>, table: map<Address, Bytes>) {
    && Written(c, d) == table
    && (d.cache.Some? ==> forall a :: a in d.cache.value ==> Clean(c, d.sessions, a, d.cache.value[a]))
  }

  /** The visit either stores what it changed, changes nothing, or does not share its record with the cache. */
  predicate Careful<S(==)>(d: Device<S>, op: Op<S>) {
    op.Visit? && !op.keep && Cached(d, op.addr) ==>
      op.change(d.cache.value[op.addr].record) == d.cache.value[op.addr].record
  }

  ghost predicate AllCareful<S>(c: Codec<S>, d: Device<S>, ops: seq<Op<S>>) {
    forall i :: 0 <= i < |ops| ==> Careful(Play(c, d, ops[..i]), ops[i])
  }

  lemma PrefetchStandsFor<S(!new)>(c: Codec<S>, sessions: map<Address, Bytes>, addresses: set<Address>)
    ensures StandsFor(c, Device(sessions, Some(Prefetched(c, sessions, addresses))), sessions)
  {
  }

  /** A record comes from the cache if it is there; otherwise it is blank without a session, or what the session's bytes
      say, or these cannot be decoded. */
  lemma LoadedIs<S(!new)>(c: Codec<S>, d: Device<S>, a: Address)
    ensures var r := Load(c, d, a);
      if d.cache.Some? && a in d.cache.value then r == Ok(d.cache.value[a].record)
      else if a !in d.sessions then r == Ok(c.blank)
      else if c.decode(d.sessions[a]).None? then r == Err(Undecodable)
      else r == Ok(c.decode(d.sessions[a]).value)
  {
  }

  /** The prefetch holds, clean, every address asked for, whether it has a session or not, except those whose session
      cannot be decoded. */
  lemma PrefetchHolds<S(!new)>(c: Codec<S>, sessions: map<Address, Bytes>, addresses: set<Address>, a: Address)
    ensures var cache := Prefetched(c, sessions, addresses);
      && (a in cache <==> a in addresses && (a !in sessions || c.decode(sessions[a]).Some?))
      && (a in cache && a !in sessions ==> cache[a] == Entry(false, false, c.blank))
      && (a in cache && a in sessions ==> cache[a] == Entry(false, true, c.decode(sessions[a]).value))
  {
  }

  /** A write-back puts the bytes of every dirty record, new or not, into the table, leaves the other sessions alone and
      empties the cache, unless there is something to write and it fails; without a cache it does nothing. */
  lemma WriteBackWrites<S(!new)>(c: Codec<S>, d: Device<S>, ok: bool, a: Address)
    ensures var d' := Flush(c, d, ok);
      if d.cache.None? then d' == d
      else
        var cache := d.cache.value;
        if !ok && exists b :: b in cache && cache[b].dirty then d' == d
        else
          && d'.cache == Some(map[])
          && (a in d'.sessions <==> a in d.sessions || (a in cache && cache[a].dirty))
          && (a in cache && cache[a].dirty ==> d'.sessions[a] == c.encode(cache[a].record))
          && (a in d.sessions && !(a in cache && cache[a].dirty) ==> d'.sessions[a] == d.sessions[a])
  {
    if d.cache.Some? {
      if b :| b in d.cache.value && d.cache.value[b].dirty {
        assert b in Dirty(c, d.cache.value);
      }
    }
  }

  /** Reading through the cache gives what the table it stands for would give. */
  lemma LoadAgrees<S(!new)>(c: Codec<S>, d: Device<S>, table: map<Address, Bytes>, a: Address)
    requires Inverse(c) && StandsFor(c, d, table)
    ensures Load(c, d, a) == Fetch(c, table, a)
  {
    if Cached(d, a) {
      var e := d.cache.value[a];
      assert Clean(c, d.sessions, a, e);
      assert e.dirty ==> table[a] == c.encode(e.record);
      if !e.dirty {
        assert a !in Dirty(c, d.cache.value);
      }
    } else if d.cache.Some? {
      assert a !in Dirty(c, d.cache.value);
    }
  }

  /** A visit through the cache does what it does on the table exactly when it is careful. */
  lemma VisitAgrees<S(!new)>(c: Codec<S>, d: Device<S>, table: map<Address, Bytes>, op: Op<S>)
    requires Inverse(c) && StandsFor(c, d, table)
    ensures StandsFor(c, Apply(c, d, op), Apply(c, Device(table, None), op).sessions) <==> Careful(d, op)
  {
    if op.WriteBack? {
      FlushAgrees(c, d, table, op.ok);
    } else {
      LoadAgrees(c, d, table, op.addr);
      if Load(c, d, op.addr).Ok? {
        if op.keep {
          SaveAgrees(c, d, table, op.addr, op.change(Load(c, d, op.addr).value));
        } else if Cached(d, op.addr) {
          TouchAgrees(c, d, table, op.addr, op.change(d.cache.value[op.addr].record));
        }
      }
    }
  }

  lemma FlushAgrees<S(!new)>(c: Codec<S>, d: Device<S>, table: map<Address, Bytes>, ok: bool)
    requires StandsFor(c, d, table)
    ensures StandsFor(c, Flush(c, d, ok), table)
    ensures ok && d.cache.Some? ==> Flush(c, d, ok) == Device(table, Some(map[]))
  {
    assert Dirty(c, map[]) == map[];
  }

  lemma SaveAgrees<S(!new)>(c: Codec<S>, d: Device<S>, table: map<Address, Bytes>, a: Address, s: S)
    requires StandsFor(c, d, table)
    ensures StandsFor(c, Save(c, d, a, s), table[a := c.encode(s)])
  {
    hide Clean, Dirty;
    if d.cache.Some? {
      var cache := d.cache.value;
      var cache' := cache[a := Entry(true, true, s)];
      DirtyGrows(c, cache, a, s);
      assert d.sessions + Dirty(c, cache') == table[a := c.encode(s)];
      forall b | b in cache' ensures Clean(c, d.sessions, b, cache'[b]) {
        DirtyIsClean(c, d.sessions, a, cache'[a]);
        assert b != a ==> Clean(c, d.sessions, b, cache[b]);
      }
    }
  }

  lemma DirtyGrows<S(!new)>(c: Codec<S>, cache: map<Address, Entry<S>>, a: Address, s: S)
    ensures Dirty(c, cache[a := Entry(true, true, s)]) == Dirty(c, cache)[a := c.encode(s)]
  {
  }

  lemma DirtyIsClean<S(!new)>(c: Codec<S>, sessions: map<Address, Bytes>, a: Address, e: Entry<S>)
    requires e.dirty
    ensures Clean(c, sessions, a, e)
  {
  }

  /** An unstored change of a shared record goes unnoticed only if it changes nothing. */
  lemma TouchAgrees<S(!new)>(c: Codec<S>, d: Device<S>, table: map<Address, Bytes>, a: Address, s: S)
    requires Inverse(c) && StandsFor(c, d, table) && Cached(d, a)
    ensures var d' := d.(cache := Some(d.cache.value[a := d.cache.value[a].(record := s)]));
      StandsFor(c, d', table) <==> s == d.cache.value[a].record
  {
    var e := d.cache.value[a];
    var cache' := d.cache.value[a := e.(record := s)];
    var d' := d.(cache := Some(cache'));
    assert Clean(c, d.sessions, a, e);
    if s == e.record {
      assert cache' == d.cache.value;
    } else if e.dirty {
      assert Written(c, d')[a] == c.encode(s) && Written(c, d)[a] == c.encode(e.record);
      assert c.decode(c.encode(s)) != c.decode(c.encode(e.record));
    } else {
      assert !Clean(c, d.sessions, a, cache'[a]);
    }
  }

  /** Any interleaving of careful visits and write-backs through the cache reads the same records as direct access to
      the table, and the final write-back leaves the same table. */
  lemma {:induction false} CacheIsTransparent<S(!new)>(
    c: Codec<S>, sessions: map<Address, Bytes>, addresses: set<Address>, ops: seq<Op<S>>, a: Address)
    requires Inverse(c)
    requires AllCareful(c, Device(sessions, Some(Prefetched(c, sessions, addresses))), ops)
    ensures var cached := Play(c, Device(sessions, Some(Prefetched(c, sessions, addresses))), ops);
      var direct := Play(c, Device(sessions, None), ops);
      && StandsFor(c, cached, direct.sessions) && direct.cache == None && cached.cache.Some?
      && Load(c, cached, a) == Load(c, direct, a)
      && Flush(c, cached, true).sessions == direct.sessions
  {
    hide StandsFor, Apply, Careful;
    var start := Device(sessions, Some(Prefetched(c, sessions, addresses)));
    var cached, direct := Play(c, start, ops), Play(c, Device(sessions, None), ops);
    if ops == [] {
      PrefetchStandsFor(c, sessions, addresses);
    } else {
      var n := |ops| - 1;
      assert forall i :: 0 <= i <= n ==> ops[..n][..i] == ops[..i];
      assert AllCareful(c, start, ops[..n]);
      CacheIsTransparent(c, sessions, addresses, ops[..n], a);
      VisitAgrees(c, Play(c, start, ops[..n]), Play(c, Device(sessions, None), ops[..n]).sessions, ops[n]);
      ApplyKeepsCache(c, Play(c, start, ops[..n]), ops[n]);
      ApplyKeepsCache(c, Play(c, Device(sessions, None), ops[..n]), ops[n]);
    }
    LoadAgrees(c, cached, direct.sessions, a);
    FlushAgrees(c, cached, direct.sessions, true);
  }

  lemma ApplyKeepsCache<S(!new)>(c: Codec<S>, d: Device<S>, op: Op<S>)
    ensures Apply(c, d, op).cache.Some? == d.cache.Some?
  {
  }

  /** A run that is given up before any write-back leaves the table as it was. */
  lemma {:induction false} AbandonedRunLeavesNoTrace<S(!new)>(c: Codec<S>, d: Device<S>, ops: seq<Op<S>>)
    requires d.cache.Some? && forall i :: 0 <= i < |ops| ==> ops[i].Visit? || !ops[i].ok
    ensures var d' := Play(c, d, ops); d'.cache.Some? && (d'.sessions == d.sessions)
  {
    if ops != [] {
      AbandonedRunLeavesNoTrace(c, d, ops[..|ops| - 1]);
      var before := Play(c, d, ops[..|ops| - 1]);
      if ops[|ops| - 1].WriteBack? && Dirty(c, before.cache.value) == map[] {
        assert before.sessions + Dirty(c, before.cache.value) == before.sessions;
      }
    }
  }

  /** A session deleted behind the cache's back is still there for every later load of its address, unless the address
      was not cached. */
  lemma DeletionBypassesCache<S(
    !new)>(c: Codec<S>, d: Device<S>, table: map<Address, Bytes>, a: Address)
    requires Inverse(c) && StandsFor(c, d, table) && Fetch(c, table, a) != Ok(c.blank)
    ensures Load(c, d.(sessions := d.sessions - {a}), a) == Ok(c.blank) <==> !Cached(d, a)
  {
    LoadAgrees(c, d, table, a);
  }
}
