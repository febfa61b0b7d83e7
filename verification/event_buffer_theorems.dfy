/** What the event buffer guarantees in every run with crashes, failing handlers, redeliveries and pruning. */
module EventBufferTheorems {
  import opened Bytes
  import opened EventBuffer

  // ----- What the log says about one ciphertext -----

  datatype What = Finish | Interruption | Decryption | Call

  predicate Is(e: Event, what: What, h: Hash) {
    match what
    case Finish => e.Called? && e.source == Some(h) && !e.answer.Failure?
    case Call => e.Called? && e.source == Some(h)
    case Interruption => e == Interrupted(h)
    case Decryption => e.Decrypted? && e.hash == h
  }

  function Count(log: seq<Event>, what: What, h: Hash): nat {
    if log == [] then 0
    else Count(log[..|log| - 1], what, h) + if Is(log[|log| - 1], what, h) then 1 else 0
  }

  lemma CountOne(log: seq<Event>, e: Event, what: What, h: Hash)
    ensures Count(log + [e], what, h) == Count(log, what, h) + if Is(e, what, h) then 1 else 0
  {
    assert (log + [e])[..|log|] == log;
  }

  /** The event after which nothing more is owed for the ciphertext: its handler did not fail, its payload cannot be
      read, or its plaintext was pruned.  When it is final the plaintext may go, too: an unreadable version 2 payload
      does not let it go. */
  predicate Settles(e: Event, h: Hash, final: bool) {
    || Is(e, Finish, h)
    || (e.Unreadable? && e.source == Some(h) && (final ==> e.version != 2))
    || (e.Discarded? && h in e.hashes)
  }

  ghost predicate Settled(log: seq<Event>, h: Hash, final: bool) {
    exists e :: e in log && Settles(e, h, final)
  }

  /** The ratchet step is used up and no plaintext is left. */
  predicate Dead(w: World, h: Hash) {
    h in w.consumed && (h in w.buffer ==> w.buffer[h].None?)
  }

  // ----- The invariant, one ciphertext at a time -----

  ghost predicate Sound(cfg: Config, w: World, h: Hash) {
    && (h in w.buffer ==> h in w.consumed)
    && (h in w.buffer && w.buffer[h].Some? ==> Decrypted(h, w.buffer[h].value) in w.log)
    && (cfg.enabled && Dead(w, h) ==> Settled(w.log, h, true))
    && Count(w.log, Finish, h) <= Count(w.log, Interruption, h) + (if Dead(w, h) then 1 else 0)
    && Count(w.log, Decryption, h) == if h in w.consumed then 1 else 0
  }

  /** What one step may do to ciphertext h: it stays sound, it is not called once dead, it does not come back to life,
      and a buffered plaintext goes only when it is settled. */
  ghost predicate Fair(cfg: Config, w: World, w': World, h: Hash) {
    && Sound(cfg, w', h) && w.log <= w'.log
    && (Dead(w, h) ==> Dead(w', h) && Count(w'.log, Call, h) == Count(w.log, Call, h))
    && (h in w.consumed ==> h in w'.consumed)
    && (forall final :: Settled(w.log, h, final) ==> Settled(w'.log, h, final))
    && (cfg.enabled && h in w.buffer && w.buffer[h].Some? ==>
      (h in w'.buffer && w'.buffer[h] == w.buffer[h]) || (Dead(w', h) && Settled(w'.log, h, true)))
  }

  lemma SettledGrows(a: seq<Event>, b: seq<Event>, h: Hash)
    requires a <= b
    ensures forall final :: Settled(a, h, final) ==> Settled(b, h, final)
  {
    forall final | Settled(a, h, final) ensures Settled(b, h, final) {
      var e :| e in a && Settles(e, h, final);
      assert e in b;
    }
  }

  lemma FinalSettles(log: seq<Event>, h: Hash)
    requires Settled(log, h, true)
    ensures Settled(log, h, false)
  {
    var e :| e in log && Settles(e, h, true);
    assert Settles(e, h, false);
  }

  lemma FairChains(cfg: Config, a: World, b: World, c: World, h: Hash)
    requires Fair(cfg, a, b, h) && Fair(cfg, b, c, h)
    ensures Fair(cfg, a, c, h)
  {
    hide Settled, Count;
  }

  lemma FairStays(cfg: Config, w: World, h: Hash)
    requires Sound(cfg, w, h)
    ensures Fair(cfg, w, w, h)
  {
  }

  /** A noted event that concerns another ciphertext, or none. */
  lemma NoteIsFair(cfg: Config, w: World, e: Event, h: Hash)
    requires Sound(cfg, w, h) && !Is(e, Finish, h) && !Is(e, Call, h) && !Is(e, Decryption, h)
    ensures Fair(cfg, w, Note(w, e), h)
  {
    hide Settled, Count;
    CountOne(w.log, e, Finish, h);
    CountOne(w.log, e, Call, h);
    CountOne(w.log, e, Interruption, h);
    CountOne(w.log, e, Decryption, h);
    SettledGrows(w.log, Note(w, e).log, h);
  }

  /** A ciphertext whose plaintext has just been obtained and not been disposed of. */
  ghost predicate Open(cfg: Config, w: World, h: Hash) {
    && h in w.consumed
    && (h in w.buffer <==> cfg.enabled)
    && (cfg.enabled ==> w.buffer[h].Some? && Decrypted(h, w.buffer[h].value) in w.log)
    && Count(w.log, Finish, h) <= Count(w.log, Interruption, h)
    && Count(w.log, Decryption, h) == 1
  }

  lemma CountAll(log: seq<Event>, e: Event, h: Hash)
    ensures forall what :: Count(log + [e], what, h) == Count(log, what, h) + if Is(e, what, h) then 1 else 0
  {
    forall what ensures Count(log + [e], what, h) == Count(log, what, h) + if Is(e, what, h) then 1 else 0 {
      CountOne(log, e, what, h);
    }
  }

  /** Decrypting either leaves the world alone or opens the ciphertext. */
  lemma {:induction false} DecryptOpens(cfg: Config, w: World, h: Hash, luck: Luck)
    requires Sound(cfg, w, h)
    ensures var (w', d) := Decrypt(cfg, w, h, luck);
      && w.log <= w'.log
      && (d.Plaintext? ==> Open(cfg, w', h) && !Dead(w, h) && (cfg.enabled && h in w.buffer ==> w' == w))
      && (!d.Plaintext? ==> w' == w)
      && ((d.AlreadyProcessed? || d.OldCounter?) && cfg.enabled ==> Settled(w.log, h, true))
  {
    hide Settled, Count;
    var (w', d) := Decrypt(cfg, w, h, luck);
    if w' != w {
      CountAll(w.log, Decrypted(h, luck.decrypt.value), h);
    }
  }

  lemma DecryptOfOthers(cfg: Config, w: World, g: Hash, luck: Luck, h: Hash)
    requires Sound(cfg, w, h) && g != h
    ensures Fair(cfg, w, Decrypt(cfg, w, g, luck).0, h)
  {
    hide Settled, Count;
    var w' := Decrypt(cfg, w, g, luck).0;
    if w' == w {
      FairStays(cfg, w, h);
    } else {
      CountAll(w.log, Decrypted(g, luck.decrypt.value), h);
      SettledGrows(w.log, w'.log, h);
    }
  }

  lemma DisposeOfOthers(cfg: Config, w: World, source: Option<Hash>, bad: bool, luck: Luck, h: Hash)
    requires Sound(cfg, w, h) && source != Some(h)
    ensures Fair(cfg, w, Dispose(cfg, w, source, bad, luck).w, h)
  {
    hide Settled, Count;
    FairStays(cfg, w, h);
    if source.Some? {
      NoteIsFair(cfg, w, Interrupted(source.value), h);
    }
  }

  lemma UseOfOthers(
    cfg: Config, w: World, source: Option<Hash>, m: Bytes, v: int, bad: bool, luck: Luck, h: Hash)
    requires Sound(cfg, w, h) && source != Some(h)
    ensures Fair(cfg, w, Use(cfg, w, source, m, v, bad, luck).w, h)
  {
    hide Settled, Count, Fair, Dispose, Sound;
    var e := if (v != 2 && v != 3) || !cfg.parses(v, m) then Unreadable(source, v) else Called(source, m, luck.handler);
    NoteIsFair(cfg, w, e, h);
    assert Sound(cfg, Note(w, e), h) by { SoundAfter(cfg, w, Note(w, e), h); }
    forall b: bool ensures Fair(cfg, w, Dispose(cfg, Note(w, e), source, b, luck).w, h) {
      DisposeOfOthers(cfg, Note(w, e), source, b, luck, h);
      FairChains(cfg, w, Note(w, e), Dispose(cfg, Note(w, e), source, b, luck).w, h);
    }
  }

  lemma SoundAfter(cfg: Config, w: World, w': World, h: Hash)
    requires Fair(cfg, w, w', h)
    ensures Sound(cfg, w', h)
  {
  }

  /** What using an open ciphertext leads to. */
  ghost predicate Used(cfg: Config, w: World, p: Progress, h: Hash) {
    && Sound(cfg, p.w, h) && w.log <= p.w.log && h in p.w.consumed
    && (p.Running? ==> Settled(p.w.log, h, false))
    && (cfg.enabled && h in w.buffer ==>
      (h in p.w.buffer && p.w.buffer[h] == w.buffer[h]) || (Dead(p.w, h) && Settled(p.w.log, h, true)))
  }

  lemma NoteSettles(w: World, e: Event, h: Hash)
    ensures forall final :: Settles(e, h, final) ==> Settled(Note(w, e).log, h, final)
  {
    assert e in Note(w, e).log;
  }

  /** Disposing of a settled ciphertext: one more finish than interruptions is allowed, because it ends dead or
      interrupted. */
  lemma DisposeOfThis(cfg: Config, w: World, bad: bool, luck: Luck, h: Hash)
    requires h in w.consumed && (h in w.buffer <==> cfg.enabled) && Settled(w.log, h, true)
    requires cfg.enabled ==> w.buffer[h].Some? && Decrypted(h, w.buffer[h].value) in w.log
    requires Count(w.log, Finish, h) <= Count(w.log, Interruption, h) + 1 && Count(w.log, Decryption, h) == 1
    ensures var p := Dispose(cfg, w, Some(h), bad, luck);
      && Sound(cfg, p.w, h) && w.log <= p.w.log && h in p.w.consumed
      && Settled(p.w.log, h, true) && Settled(p.w.log, h, false)
      && (cfg.enabled ==> (h in p.w.buffer && p.w.buffer[h] == w.buffer[h]) || Dead(p.w, h))
  {
    hide Settled, Count;
    CountAll(w.log, Interrupted(h), h);
    SettledGrows(w.log, Note(w, Interrupted(h)).log, h);
    FinalSettles(w.log, h);
  }

  lemma UseOfThis(cfg: Config, w: World, m: Bytes, v: int, bad: bool, luck: Luck, h: Hash)
    requires Open(cfg, w, h)
    ensures Used(cfg, w, Use(cfg, w, Some(h), m, v, bad, luck), h)
  {
    hide Settled, Count, Dispose;
    var unreadable := (v != 2 && v != 3) || !cfg.parses(v, m);
    var e := if unreadable then Unreadable(Some(h), v) else Called(Some(h), m, luck.handler);
    CountAll(w.log, e, h);
    NoteSettles(w, e, h);
    assert Settles(e, h, false) || e.Called?;
    if Settles(e, h, true) {
      DisposeOfThis(cfg, Note(w, e), bad, luck, h);
      DisposeOfThis(cfg, Note(w, e), true, luck, h);
      DisposeOfThis(cfg, Note(w, e), false, luck, h);
    }
  }

  /** One child: fair to every ciphertext, and if the loop goes on, the child's own ciphertext is settled. */
  lemma ProcessIsFair(cfg: Config, w: World, recognized: bool, bad: bool, s: Step, h: Hash)
    requires Sound(cfg, w, h)
    ensures Fair(cfg, w, Process(cfg, w, recognized, bad, s).w, h)
    ensures var p := Process(cfg, w, recognized, bad, s);
      p.Running? && cfg.enabled && s.child.Signal? && s.child.hash == h ==> Settled(p.w.log, h, false)
  {
    hide Settled, Count, Decrypt, Use, Fair, Sound, Open;
    FairStays(cfg, w, h);
    NoteIsFair(cfg, w, Undecryptable, h);
    match s.child
    case Bot(version) =>
      if s.luck.decrypt.Some? {
        UseOfOthers(cfg, w, None, s.luck.decrypt.value, version, bad, s.luck, h);
      }
    case Signal(g, version) =>
      if g == h {
        SignalIsFair(cfg, w, recognized, bad, s);
      } else {
        var (w', d) := Decrypt(cfg, w, g, s.luck);
        DecryptOfOthers(cfg, w, g, s.luck, h);
        SoundAfter(cfg, w, w', h);
        NoteIsFair(cfg, w', Undecryptable, h);
        FairChains(cfg, w, w', Note(w', Undecryptable), h);
        if d.Plaintext? && Unpad(d.bytes, version).Some? {
          var m := Unpad(d.bytes, version).value;
          UseOfOthers(cfg, w', Some(g), m, version, bad, s.luck, h);
          FairChains(cfg, w, w', Use(cfg, w', Some(g), m, version, bad, s.luck).w, h);
        }
      }
    case _ =>
  }

  lemma SignalIsFair(cfg: Config, w: World, recognized: bool, bad: bool, s: Step)
    requires s.child.Signal? && Sound(cfg, w, s.child.hash)
    ensures Fair(cfg, w, Process(cfg, w, recognized, bad, s).w, s.child.hash)
    ensures var p := Process(cfg, w, recognized, bad, s);
      p.Running? && cfg.enabled ==> Settled(p.w.log, s.child.hash, false)
  {
    hide Settled, Count, Decrypt, Use, Fair, Sound, Open, Used;
    var Signal(h, version) := s.child;
    var (w', d) := Decrypt(cfg, w, h, s.luck);
    DecryptOpens(cfg, w, h, s.luck);
    FairStays(cfg, w, h);
    NoteIsFair(cfg, w, Undecryptable, h);
    if (d.AlreadyProcessed? || d.OldCounter?) && cfg.enabled {
      FinalSettles(w.log, h);
    }
    if d.Plaintext? {
      OpenIsFair(cfg, w, w', w', h);
      UndecryptableStaysOpen(cfg, w', h);
      OpenIsFair(cfg, w, w', Note(w', Undecryptable), h);
      if Unpad(d.bytes, version).Some? {
        var m := Unpad(d.bytes, version).value;
        UseOfThis(cfg, w', m, version, bad, s.luck, h);
        UsedIsFair(cfg, w, w', Use(cfg, w', Some(h), m, version, bad, s.luck), h);
      }
    }
  }

  lemma UndecryptableStaysOpen(cfg: Config, w: World, h: Hash)
    requires Open(cfg, w, h)
    ensures Open(cfg, Note(w, Undecryptable), h)
  {
    hide Settled, Count;
    CountAll(w.log, Undecryptable, h);
  }

  lemma OpenIsFair(cfg: Config, w: World, w': World, w'': World, h: Hash)
    requires Sound(cfg, w, h) && !Dead(w, h) && w.log <= w'.log <= w''.log && Open(cfg, w', h) && Open(cfg, w'', h)
    requires cfg.enabled && h in w.buffer ==> w' == w
    requires w'.buffer == w''.buffer
    ensures Fair(cfg, w, w'', h)
  {
    hide Settled, Count;
    SettledGrows(w.log, w''.log, h);
  }

  lemma UsedIsFair(cfg: Config, w: World, w': World, p: Progress, h: Hash)
    requires Sound(cfg, w, h) && !Dead(w, h) && w.log <= w'.log && Used(cfg, w', p, h)
    requires cfg.enabled && h in w.buffer ==> w' == w
    ensures Fair(cfg, w, p.w, h) && (p.Running? ==> Settled(p.w.log, h, false))
  {
    hide Settled, Count;
    SettledGrows(w.log, p.w.log, h);
  }

  // ----- Whole deliveries and whole runs -----

  lemma {:induction false} ChildrenAreFair(cfg: Config, w: World, steps: seq<Step>, h: Hash)
    requires Sound(cfg, w, h)
    ensures var p := ProcessAll(cfg, w, steps);
      && Fair(cfg, w, p.w, h)
      && (p.Running? && cfg.enabled && (exists s :: s in steps && s.child.Signal? && s.child.hash == h) ==>
        Settled(p.w.log, h, false))
  {
    hide Settled, Count, Fair, Sound, Process;
    if steps == [] {
      FairStays(cfg, w, h);
      return;
    }
    var front, last := steps[..|steps| - 1], steps[|steps| - 1];
    ChildrenAreFair(cfg, w, front, h);
    var p := ProcessAll(cfg, w, front);
    if p.Running? {
      SoundAfter(cfg, w, p.w, h);
      ProcessIsFair(cfg, p.w, p.recognized, p.protobufFailed, last, h);
      var q := Process(cfg, p.w, p.recognized, p.protobufFailed, last);
      FairChains(cfg, w, p.w, q.w, h);
      if exists s :: s in front && s.child.Signal? && s.child.hash == h {
        FairKeepsSettled(cfg, p.w, q.w, h);
      }
      assert steps == front + [last];
    }
  }

  lemma FairKeepsSettled(cfg: Config, w: World, w': World, h: Hash)
    requires Fair(cfg, w, w', h)
    ensures forall final :: Settled(w.log, h, final) ==> Settled(w'.log, h, final)
  {
  }

  lemma AdvanceIsFair(cfg: Config, w: World, i: Input, h: Hash)
    requires Sound(cfg, w, h)
    ensures Fair(cfg, w, Advance(cfg, w, i), h)
  {
    hide Settled, Count, Fair, Sound, ProcessAll;
    match i
    case Deliver(d) =>
      ChildrenAreFair(cfg, w, d.steps, h);
      var p := ProcessAll(cfg, w, d.steps);
      SoundAfter(cfg, w, p.w, h);
      if p.Running? {
        var e := Reply(d.id, p.recognized, p.protobufFailed);
        NoteIsFair(cfg, p.w, e, h);
        FairChains(cfg, w, p.w, Note(p.w, e), h);
      }
    case Prune(hashes) => PruneIsFair(cfg, w, hashes, h);
  }

  lemma PruneIsFair(cfg: Config, w: World, hashes: set<Hash>, h: Hash)
    requires Sound(cfg, w, h)
    ensures Fair(cfg, w, Advance(cfg, w, Prune(hashes)), h)
  {
    hide Settled, Count;
    var e := Discarded(Pending(w, hashes));
    CountAll(w.log, e, h);
    SettledGrows(w.log, w.log + [e], h);
    if h in Pending(w, hashes) {
      assert Settles(e, h, true);
      NoteSettles(w, e, h);
    }
  }

  lemma {:induction false} RunIsFair(cfg: Config, w: World, inputs: seq<Input>, h: Hash)
    requires Sound(cfg, w, h)
    ensures Fair(cfg, w, Run(cfg, w, inputs), h)
  {
    hide Settled, Count, Fair, Sound, Advance;
    if inputs == [] {
      FairStays(cfg, w, h);
    } else {
      var w' := Run(cfg, w, inputs[..|inputs| - 1]);
      RunIsFair(cfg, w, inputs[..|inputs| - 1], h);
      SoundAfter(cfg, w, w', h);
      AdvanceIsFair(cfg, w', inputs[|inputs| - 1], h);
      FairChains(cfg, w, w', Run(cfg, w, inputs), h);
    }
  }

  lemma Reached(cfg: Config, inputs: seq<Input>, h: Hash)
    ensures Sound(cfg, Run(cfg, EMPTY, inputs), h)
  {
    hide Run;
    RunIsFair(cfg, EMPTY, inputs, h);
  }

  // ----- The guarantees -----

  /** In every run the buffer holds only used ratchet steps, each was used once, and the plaintext held is the one that
      its single decryption gave. */
  lemma BufferedMeansConsumedOnce(cfg: Config, inputs: seq<Input>, h: Hash)
    ensures var w := Run(cfg, EMPTY, inputs);
      && (h in w.buffer ==> h in w.consumed)
      && Count(w.log, Decryption, h) == (if h in w.consumed then 1 else 0)
      && (h in w.buffer && w.buffer[h].Some? ==> Decrypted(h, w.buffer[h].value) in w.log)
  {
    hide Run;
    Reached(cfg, inputs, h);
  }

  /** Without pruning, a ratchet step is used exactly when its ciphertext is in the buffer. */
  lemma {:induction false} ConsumedIffBuffered(cfg: Config, inputs: seq<Input>, h: Hash)
    requires cfg.enabled && forall i :: i in inputs ==> i.Deliver?
    ensures var w := Run(cfg, EMPTY, inputs); h in w.consumed <==> h in w.buffer
  {
    hide ProcessAll;
    if inputs != [] {
      var front := inputs[..|inputs| - 1];
      ConsumedIffBuffered(cfg, front, h);
      ChildrenKeepBoth(cfg, Run(cfg, EMPTY, front), inputs[|inputs| - 1].d.steps, h);
    }
  }

  lemma {:induction false} ChildrenKeepBoth(cfg: Config, w: World, steps: seq<Step>, h: Hash)
    requires cfg.enabled && (h in w.consumed <==> h in w.buffer)
    ensures var w' := ProcessAll(cfg, w, steps).w; h in w'.consumed <==> h in w'.buffer
  {
    hide Process;
    if steps != [] {
      ChildrenKeepBoth(cfg, w, steps[..|steps| - 1], h);
      var p := ProcessAll(cfg, w, steps[..|steps| - 1]);
      if p.Running? {
        ChildKeepsBoth(cfg, p.w, p.recognized, p.protobufFailed, steps[|steps| - 1], h);
      }
    }
  }

  lemma ChildKeepsBoth(cfg: Config, w: World, recognized: bool, bad: bool, s: Step, h: Hash)
    requires cfg.enabled && (h in w.consumed <==> h in w.buffer)
    ensures var w' := Process(cfg, w, recognized, bad, s).w; h in w'.consumed <==> h in w'.buffer
  {
    hide Unpad, Use;
    forall w: World, source, m, v | h in w.consumed <==> h in w.buffer
      ensures var w' := Use(cfg, w, source, m, v, bad, s.luck).w; h in w'.consumed <==> h in w'.buffer
    {
      UseKeepsBoth(cfg, w, source, m, v, bad, s.luck, h);
    }
  }

  lemma UseKeepsBoth(cfg: Config, w: World, source: Option<Hash>, m: Bytes, v: int, bad: bool, luck: Luck, h: Hash)
    requires h in w.consumed <==> h in w.buffer
    ensures var w' := Use(cfg, w, source, m, v, bad, luck).w; h in w'.consumed <==> h in w'.buffer
  {
  }

  /** A buffered plaintext stays retrievable, whatever crashes and redeliveries follow, until its message is settled for
      good: the handler has not failed, the payload is unreadable and not of version 2, or it is pruned. */
  lemma PlaintextStays(cfg: Config, before: seq<Input>, after: seq<Input>, h: Hash)
    requires cfg.enabled
    requires var w := Run(cfg, EMPTY, before); h in w.buffer && w.buffer[h].Some?
    ensures var w, w' := Run(cfg, EMPTY, before), Run(cfg, Run(cfg, EMPTY, before), after);
      (h in w'.buffer && w'.buffer[h] == w.buffer[h]) || (Dead(w', h) && Settled(w'.log, h, true))
  {
    hide Run, Settled, Count;
    Reached(cfg, before, h);
    RunIsFair(cfg, Run(cfg, EMPTY, before), after, h);
  }

  /** Once a plaintext is cleared (or pruned), no later delivery calls the handler for it. */
  lemma NeverCalledAgain(cfg: Config, before: seq<Input>, after: seq<Input>, h: Hash)
    requires Dead(Run(cfg, EMPTY, before), h)
    ensures var w, w' := Run(cfg, EMPTY, before), Run(cfg, Run(cfg, EMPTY, before), after);
      Dead(w', h) && Count(w'.log, Call, h) == Count(w.log, Call, h)
  {
    hide Run, Settled, Count;
    Reached(cfg, before, h);
    RunIsFair(cfg, Run(cfg, EMPTY, before), after, h);
  }

  /** The handler finishes a message at most once more often than the process dies, or fails to clear, right after it
      finished: exactly once when nothing interferes. */
  lemma FinishedAtMostOncePerInterruption(cfg: Config, inputs: seq<Input>, h: Hash)
    ensures var log := Run(cfg, EMPTY, inputs).log; Count(log, Finish, h) <= Count(log, Interruption, h) + 1
  {
    hide Run;
    Reached(cfg, inputs, h);
  }

  /** The receipt makes the server forget a message.  With the buffer enabled it is sent only when every Signal child
      is settled: handled without failure, unreadable, or pruned before it was cleared. */
  lemma ReceiptMeansSettled(cfg: Config, inputs: seq<Input>, d: Delivery, s: Step)
    requires cfg.enabled && s in d.steps && s.child.Signal?
    requires var w := Run(cfg, EMPTY, inputs); ProcessAll(cfg, w, d.steps).Running?
    ensures var w := Run(cfg, EMPTY, inputs); Settled(DeliverTo(cfg, w, d).log, s.child.hash, false)
  {
    hide Run, Settled, Count, ProcessAll;
    var w, h := Run(cfg, EMPTY, inputs), s.child.hash;
    Reached(cfg, inputs, h);
    ChildrenAreFair(cfg, w, d.steps, h);
    SettledGrows(ProcessAll(cfg, w, d.steps).w.log, DeliverTo(cfg, w, d).log, h);
  }

  /** One undisturbed redelivery of a buffered message hands over exactly the buffered plaintext, clears it and
      acknowledges it. */
  lemma RedeliveryRecovers(cfg: Config, w: World, id: Bytes, h: Hash, version: int, luck: Luck)
    requires cfg.enabled && h in w.buffer && w.buffer[h].Some?
    requires (version == 2 || version == 3) && Unpad(w.buffer[h].value, version).Some?
    requires var m := Unpad(w.buffer[h].value, version).value; cfg.parses(version, m)
    requires luck.lookup && luck.clear && luck.crash == Never && luck.handler.Success?
    ensures var m := Unpad(w.buffer[h].value, version).value;
      DeliverTo(cfg, w, Delivery(id, [Step(Signal(h, version), luck)], true)) ==
      World(w.buffer[h := None], w.consumed, w.log + [Called(Some(h), m, Success), Receipt(id)])
  {
    var s := Step(Signal(h, version), luck);
    assert [s][..0] == [];
    assert ProcessAll(cfg, w, [s]) == Process(cfg, w, false, false, s);
  }

  /** The payload can be handed to the handler: it unpads, has a known version and unmarshals. */
  predicate Readable(cfg: Config, p: Bytes, version: int) {
    (version == 2 || version == 3) && Unpad(p, version).Some? && cfg.parses(version, Unpad(p, version).value)
  }

  lemma SingleChild(cfg: Config, w: World, s: Step)
    ensures ProcessAll(cfg, w, [s]) == Process(cfg, w, false, false, s)
  {
    assert [s][..0] == [];
  }

  /** A child with a buffered plaintext whose processing is not disturbed. */
  predicate Undisturbed(cfg: Config, w: World, s: Step) {
    && cfg.enabled && s.child.Signal? && s.child.hash in w.buffer && w.buffer[s.child.hash].Some?
    && s.luck.lookup && s.luck.clear && s.luck.crash == Never
  }

  /** Its handler was called and did not say that it failed, or its payload cannot be read and is not of version 2. */
  predicate Clears(cfg: Config, w: World, s: Step)
    requires Undisturbed(cfg, w, s)
  {
    var p, version := w.buffer[s.child.hash].value, s.child.version;
    if Readable(cfg, p, version) then !s.luck.handler.Failure? else Unpad(p, version).Some? && version != 2
  }

  /** Exactly when the undisturbed processing of a child, whatever was processed before it, clears its plaintext. */
  lemma ClearedExactly(cfg: Config, w: World, recognized: bool, bad: bool, s: Step)
    requires Undisturbed(cfg, w, s)
    ensures Process(cfg, w, recognized, bad, s).w.buffer ==
      if Clears(cfg, w, s) then w.buffer[s.child.hash := None] else w.buffer
  {
    hide Unpad;
  }

  /** So it is for the child at any position that the loop reaches in a delivery. */
  lemma ClearedExactlyInDelivery(cfg: Config, w: World, steps: seq<Step>, i: nat)
    requires i < |steps| && ProcessAll(cfg, w, steps[..i]).Running?
    requires Undisturbed(cfg, ProcessAll(cfg, w, steps[..i]).w, steps[i])
    ensures var before := ProcessAll(cfg, w, steps[..i]).w;
      ProcessAll(cfg, w, steps[..i + 1]).w.buffer ==
      if Clears(cfg, before, steps[i]) then before.buffer[steps[i].child.hash := None] else before.buffer
  {
    hide Process, Clears, Undisturbed;
    assert steps[..i + 1][..i] == steps[..i];
    var p := ProcessAll(cfg, w, steps[..i]);
    ClearedExactly(cfg, p.w, p.recognized, p.protobufFailed, steps[i]);
  }

  /** So clearing does not mean that a handler succeeded: a handler that panics loses the message, with a receipt. */
  lemma PanickingHandlerLosesMessage(
    cfg: Config, w: World, id: Bytes, h: Hash, version: int, luck: Luck)
    requires cfg.enabled && h in w.buffer && w.buffer[h].Some? && Readable(cfg, w.buffer[h].value, version)
    requires luck.lookup && luck.clear && luck.crash == Never && luck.handler.Panic?
    ensures var m := Unpad(w.buffer[h].value, version).value;
      DeliverTo(cfg, w, Delivery(id, [Step(Signal(h, version), luck)], true)) ==
      World(w.buffer[h := None], w.consumed, w.log + [Called(Some(h), m, Panic), Receipt(id)])
  {
    hide Unpad;
    SingleChild(cfg, w, Step(Signal(h, version), luck));
  }

  /** And a version 3 payload that does not unmarshal is cleared, too, without any call, while a version 2 one is
      kept. */
  lemma UnreadablePayload(
    cfg: Config, w: World, id: Bytes, h: Hash, version: int, luck: Luck)
    requires cfg.enabled && h in w.buffer && w.buffer[h].Some? && (version == 2 || version == 3)
    requires Unpad(w.buffer[h].value, version).Some? && !Readable(cfg, w.buffer[h].value, version)
    requires luck.lookup && luck.clear && luck.crash == Never
    ensures DeliverTo(cfg, w, Delivery(id, [Step(Signal(h, version), luck)], true)) ==
      World(if version == 2 then w.buffer else w.buffer[h := None], w.consumed,
            w.log + [Unreadable(Some(h), version), NackProtobuf(id)])
  {
    hide Unpad;
    SingleChild(cfg, w, Step(Signal(h, version), luck));
  }

  /** With the buffer switched off the guarantee fails: after one failed handler call, every redelivery is
      acknowledged although the message was never handled. */
  lemma WithoutBufferMessagesAreLost(parses: (int, Bytes) -> bool, id: Bytes, h: Hash, m: Bytes, luck: Luck)
    requires parses(3, m)
    requires luck.decrypt == Some(m) && luck.crash == Never && luck.handler.Failure?
    ensures var cfg, s := Config(false, parses), Step(Signal(h, 3), luck);
      var w := DeliverTo(cfg, EMPTY, Delivery(id, [s], true));
      && w.log == [Decrypted(h, m), Called(Some(h), m, Failure)]
      && DeliverTo(cfg, w, Delivery(id, [s], true)).log == w.log + [Receipt(id)]
      && !Settled(w.log + [Receipt(id)], h, false)
  {
    var cfg, s := Config(false, parses), Step(Signal(h, 3), luck);
    assert [s][..0] == [];
    forall w: World ensures ProcessAll(cfg, w, [s]) == Process(cfg, w, false, false, s) {
      assert ProcessAll(cfg, w, [s][..0]) == Running(w, false, false);
    }
  }
}
