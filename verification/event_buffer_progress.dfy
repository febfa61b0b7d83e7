/** What a delivery achieves: the whole outcome of a first delivery however it is disturbed, of an undisturbed one with
    any number of messages, and which answer the server gets. */
module EventBufferProgress {
  import opened Bytes
  import opened EventBuffer
  import opened EventBufferTheorems

  /** Version 3 payloads are not padded; the others end in as many padding bytes as the last byte says. */
  lemma UnpadExactly(p: Bytes, version: int, m: Bytes)
    ensures Unpad(p, version) == Some(m) <==>
      if version == 3 then p == m
      else p != [] && var n: int := p[|p| - 1]; n <= |p| && p == m + Repeat(p[|p| - 1], n)
  {
    if version != 3 && p != [] {
      var n: int := p[|p| - 1];
      if n <= |p| {
        assert p == p[..|p| - n] + p[|p| - n..];
        if p == m + Repeat(p[|p| - 1], n) {
          assert p[..|p| - n] == m && p[|p| - n..] == Repeat(p[|p| - 1], n);
        }
      }
    }
  }

  /** Padding adds between one and fifteen bytes, each of which is their number: the low half of the random byte, or
      fifteen if that is zero. */
  lemma PadAdds(m: Bytes, random: byte)
    ensures var r: int := random;
      var n := if r % 16 == 0 then 15 else r % 16;
      && |Pad(m, random)| == |m| + n && Pad(m, random)[..|m|] == m
      && forall k :: |m| <= k < |m| + n ==> Pad(m, random)[k] == n
  {
  }

  // ----- A first delivery -----

  /** The ratchet step is used and the plaintext buffered, in one transaction. */
  function Opened(w: World, h: Hash, p: Bytes): World {
    World(w.buffer[h := Some(p)], w.consumed + {h}, w.log + [Decrypted(h, p)])
  }

  /** The first delivery of a message, however it is disturbed.  Without a transaction nothing is used up and nothing
      buffered.  Otherwise the plaintext is buffered before the handler is called with the payload, it stays if the
      handler fails or the process dies, and it goes, with a receipt, when the handler has not failed. */
  lemma FirstDelivery(cfg: Config, w: World, id: Bytes, h: Hash, version: int, luck: Luck)
    requires cfg.enabled && h !in w.buffer && h !in w.consumed
    requires luck.decrypt.Some? ==> Readable(cfg, luck.decrypt.value, version)
    ensures var w' := DeliverTo(cfg, w, Delivery(id, [Step(Signal(h, version), luck)], true));
      if luck.crash == BeforeCommit then w' == w
      else if !luck.lookup || luck.decrypt.None? || !luck.commit then
        w' == World(w.buffer, w.consumed, w.log + if luck.cancelled then [] else [Undecryptable])
      else
        var p := luck.decrypt.value;
        var m, begun := Unpad(p, version).value, Opened(w, h, p);
        var called := begun.log + [Called(Some(h), m, luck.handler)];
        if luck.crash == AfterDecrypt then w' == begun
        else if luck.handler.Failure? then w' == World(begun.buffer, begun.consumed, called)
        else if luck.crash == AfterHandler then
          w' == World(begun.buffer, begun.consumed, called + [Interrupted(h)])
        else
          w' == World(if luck.clear then w.buffer[h := None] else begun.buffer, begun.consumed,
                      called + (if luck.clear then [] else [Interrupted(h)])
                      + if luck.crash == AfterClear then [] else [Receipt(id)])
  {
    hide Unpad;
    SingleChild(cfg, w, Step(Signal(h, version), luck));
    if luck.decrypt.Some? {
      var begun := Opened(w, h, luck.decrypt.value);
      assert begun.buffer[h := None] == w.buffer[h := None];
      assert forall log: seq<Event> :: log + [] == log;
    }
    assert w.log + [] == w.log;
  }

  /** The same without the buffer: the ratchet step is used up for good before the handler is called, whatever comes of
      it. */
  lemma FirstDeliveryWithoutBuffer(cfg: Config, w: World, id: Bytes, h: Hash, version: int, luck: Luck)
    requires !cfg.enabled && h !in w.consumed
    requires luck.decrypt.Some? ==> Readable(cfg, luck.decrypt.value, version)
    ensures var w' := DeliverTo(cfg, w, Delivery(id, [Step(Signal(h, version), luck)], true));
      if luck.crash == BeforeCommit then w' == w
      else if luck.decrypt.None? then
        w' == World(w.buffer, w.consumed, w.log + if luck.cancelled then [] else [Undecryptable])
      else
        var p := luck.decrypt.value;
        var m := Unpad(p, version).value;
        && w'.buffer == w.buffer && w'.consumed == w.consumed + {h}
        && w'.log == w.log + [Decrypted(h, p)]
          + (if luck.crash == AfterDecrypt then [] else [Called(Some(h), m, luck.handler)])
          + if luck.crash == AfterDecrypt || luck.handler.Failure? then []
            else if luck.crash == AfterHandler then [Interrupted(h)]
            else if luck.crash == AfterClear then [] else [Receipt(id)]
  {
    hide Unpad;
    SingleChild(cfg, w, Step(Signal(h, version), luck));
    assert forall log: seq<Event> :: log + [] == log;
  }

  /** A plaintext whose padding is wrong is reported as undecryptable and stays in the buffer, now and at every later
      delivery. */
  lemma BadPaddingIsReported(cfg: Config, w: World, id: Bytes, h: Hash, version: int, luck: Luck)
    requires cfg.enabled && luck.lookup && luck.crash == Never
    requires if h in w.buffer then w.buffer[h].Some? && Unpad(w.buffer[h].value, version).None?
             else h !in w.consumed && luck.decrypt.Some? && luck.commit && Unpad(luck.decrypt.value, version).None?
    ensures var begun := if h in w.buffer then w else Opened(w, h, luck.decrypt.value);
      DeliverTo(cfg, w, Delivery(id, [Step(Signal(h, version), luck)], true)) ==
      World(begun.buffer, begun.consumed, begun.log + if luck.cancelled then [] else [Undecryptable])
  {
    hide Unpad;
    SingleChild(cfg, w, Step(Signal(h, version), luck));
    assert forall log: seq<Event> :: log + [] == log;
  }

  /** Pruning removes entries from the buffer, cleared or not, and forgets no ratchet step. */
  lemma PruningForgets(cfg: Config, w: World, hashes: set<Hash>)
    ensures var w' := Advance(cfg, w, Prune(hashes));
      && w'.consumed == w.consumed && |w'.log| == |w.log| + 1 && w'.log[..|w.log|] == w.log
      && (forall h :: h in w'.buffer <==> h in w.buffer && h !in hashes)
      && (forall h :: h in w'.buffer ==> w'.buffer[h] == w.buffer[h])
      && w'.log[|w.log|] == Discarded(set h | h in hashes && h in w.buffer && w.buffer[h].Some?)
  {
  }

  /** A later delivery of a message that was cleared, or whose step was used and that was pruned, is acknowledged
      without calling the handler. */
  lemma ProcessedIsAcknowledged(cfg: Config, w: World, id: Bytes, h: Hash, version: int, luck: Luck)
    requires if h in w.buffer then cfg.enabled && w.buffer[h].None? else h in w.consumed
    requires (cfg.enabled ==> luck.lookup) && luck.crash != BeforeCommit
    requires !cfg.enabled ==> h in w.consumed
    ensures DeliverTo(cfg, w, Delivery(id, [Step(Signal(h, version), luck)], true)) ==
            World(w.buffer, w.consumed, w.log + [Receipt(id)])
  {
    SingleChild(cfg, w, Step(Signal(h, version), luck));
  }

  /** A message whose first delivery failed or died before the handler finished is handed over by the next delivery, if
      that one is not disturbed. */
  lemma NextDeliveryRecovers(
    cfg: Config, w: World, id: Bytes, h: Hash, version: int, first: Luck, second: Luck)
    requires cfg.enabled && h !in w.buffer && h !in w.consumed
    requires first.decrypt.Some? && Readable(cfg, first.decrypt.value, version) && second.decrypt == first.decrypt
    requires first.handler.Failure? || first.crash == BeforeCommit || first.crash == AfterDecrypt || !first.commit
    requires second.lookup && second.commit && second.clear && second.crash == Never && second.handler.Success?
    ensures var d := (luck: Luck) => Delivery(id, [Step(Signal(h, version), luck)], true);
      var between := DeliverTo(cfg, w, d(first));
      var after, m := DeliverTo(cfg, between, d(second)), Unpad(first.decrypt.value, version).value;
      && h in after.consumed && h in after.buffer && after.buffer[h].None?
      && |after.log| >= 2 && after.log[|after.log| - 2..] == [Called(Some(h), m, Success), Receipt(id)]
  {
    hide Unpad, Readable, DeliverTo;
    FirstDelivery(cfg, w, id, h, version, first);
    var between := DeliverTo(cfg, w, Delivery(id, [Step(Signal(h, version), first)], true));
    if h in between.buffer {
      ReadableIs(cfg, first.decrypt.value, version);
      RedeliveryRecovers(cfg, between, id, h, version, second);
    } else {
      FirstDelivery(cfg, between, id, h, version, second);
    }
  }

  lemma ReadableIs(cfg: Config, p: Bytes, version: int)
    requires Readable(cfg, p, version)
    ensures (version == 2 || version == 3) && Unpad(p, version).Some? && cfg.parses(version, Unpad(p, version).value)
  {
  }

  // ----- An undisturbed delivery of any number of messages -----

  /** A new message that is delivered without a disturbance to a handler that succeeds. */
  predicate GoesWell(cfg: Config, s: Step) {
    && s.child.Signal? && s.luck.lookup && s.luck.commit && s.luck.clear && s.luck.crash == Never
    && s.luck.handler.Success? && s.luck.decrypt.Some? && Readable(cfg, s.luck.decrypt.value, s.child.version)
  }

  function Hashes(steps: seq<Step>): seq<Hash>
    requires forall s :: s in steps ==> s.child.Signal?
  {
    seq(|steps|, i requires 0 <= i < |steps| => steps[i].child.hash)
  }

  /** Their entries in the buffer afterwards: cleared. */
  function Emptied(hashes: seq<Hash>): map<Hash, Option<Bytes>> { map h | h in hashes :: None }

  /** What is logged for them: each is decrypted and handed over, in their order. */
  function Handled(steps: seq<Step>): seq<Event>
    requires forall s :: s in steps ==>
      s.child.Signal? && s.luck.decrypt.Some? && Unpad(s.luck.decrypt.value, s.child.version).Some?
  {
    if steps == [] then [] else Handled(steps[..|steps| - 1]) + HandledOne(steps[|steps| - 1])
  }

  ghost predicate AllGoWell(cfg: Config, w: World, steps: seq<Step>) {
    && (forall s :: s in steps ==> GoesWell(cfg, s) && s.child.hash !in w.buffer && s.child.hash !in w.consumed)
    && (forall i, j :: 0 <= i < j < |steps| ==> steps[i].child.hash != steps[j].child.hash)
  }

  lemma NoneEmptied(w: World)
    ensures w.buffer + Emptied([]) == w.buffer && w.consumed + (set h | h in []) == w.consumed && w.log + [] == w.log
  {
  }

  lemma OneMoreEmptied(w: World, hashes: seq<Hash>, h: Hash, log: seq<Event>, more: seq<Event>)
    ensures (w.buffer + Emptied(hashes))[h := None] == w.buffer + Emptied(hashes + [h])
    ensures w.consumed + (set g | g in hashes) + {h} == w.consumed + set g | g in hashes + [h]
    ensures w.log + log + more == w.log + (log + more)
  {
  }

  lemma {:induction false} AllAreHandled(cfg: Config, w: World, steps: seq<Step>)
    requires cfg.enabled && AllGoWell(cfg, w, steps)
    ensures ProcessAll(cfg, w, steps) ==
      Running(World(w.buffer + Emptied(Hashes(steps)), w.consumed + (set h | h in Hashes(steps)),
                    w.log + Handled(steps)), steps != [], false)
  {
    hide Unpad, Process, Emptied, Hashes, GoesWell;
    AllDecrypted(cfg, w, steps);
    if steps == [] {
      NoHashes();
      NoneEmptied(w);
    } else {
      var n := |steps| - 1;
      var front, s := steps[..n], steps[n];
      AllAreHandled(cfg, w, front);
      var p, h := ProcessAll(cfg, w, front), s.child.hash;
      OneMoreHash(steps);
      StaysNew(cfg, w, steps);
      OneIsHandled(cfg, p.w, p.recognized, s);
      OneMoreEmptied(w, Hashes(front), h, Handled(front), HandledOne(s));
    }
  }

  function HandledOne(s: Step): seq<Event>
    requires s.child.Signal? && s.luck.decrypt.Some? && Unpad(s.luck.decrypt.value, s.child.version).Some?
  {
    var h, p := s.child.hash, s.luck.decrypt.value;
    [Decrypted(h, p), Called(Some(h), Unpad(p, s.child.version).value, Success)]
  }

  lemma AllDecrypted(cfg: Config, w: World, steps: seq<Step>)
    requires AllGoWell(cfg, w, steps)
    ensures forall s :: s in steps ==>
      s.child.Signal? && s.luck.decrypt.Some? && Unpad(s.luck.decrypt.value, s.child.version).Some?
  {
    hide Unpad;
  }

  lemma NoHashes()
    ensures Hashes([]) == []
  {
  }

  /** The messages before it do not make the last one known. */
  lemma StaysNew(cfg: Config, w: World, steps: seq<Step>)
    requires steps != [] && AllGoWell(cfg, w, steps)
    ensures var front, h := steps[..|steps| - 1], steps[|steps| - 1].child.hash;
      h !in w.buffer + Emptied(Hashes(front)) && h !in w.consumed + set g | g in Hashes(front)
  {
    hide GoesWell;
    assert steps[|steps| - 1] in steps;
  }

  lemma OneMoreHash(steps: seq<Step>)
    requires steps != [] && forall s :: s in steps ==> s.child.Signal?
    ensures Hashes(steps) == Hashes(steps[..|steps| - 1]) + [steps[|steps| - 1].child.hash]
  {
  }

  lemma OneIsHandled(cfg: Config, w: World, recognized: bool, s: Step)
    requires cfg.enabled && GoesWell(cfg, s) && s.child.hash !in w.buffer && s.child.hash !in w.consumed
    ensures var h := s.child.hash;
      && s.luck.decrypt.Some? && Unpad(s.luck.decrypt.value, s.child.version).Some?
      && Process(cfg, w, recognized, false, s) ==
         Running(World(w.buffer[h := None], w.consumed + {h}, w.log + HandledOne(s)), true, false)
  {
    hide Unpad;
    var h, p := s.child.hash, s.luck.decrypt.value;
    assert w.buffer[h := Some(p)][h := None] == w.buffer[h := None];
  }

  /** A delivery of new messages in which nothing goes wrong decrypts each of them, hands each over once and in order,
      clears all of them, and ends with one receipt. */
  lemma UndisturbedDelivery(cfg: Config, w: World, d: Delivery)
    requires cfg.enabled && AllGoWell(cfg, w, d.steps) && d.steps != [] && d.replies
    ensures DeliverTo(cfg, w, d) ==
      World(w.buffer + Emptied(Hashes(d.steps)), w.consumed + (set h | h in Hashes(d.steps)),
            w.log + Handled(d.steps) + [Receipt(d.id)])
  {
    AllAreHandled(cfg, w, d.steps);
  }

  // ----- The answer -----

  /** A payload of version 2 or 3 was looked at. */
  predicate LooksAt(e: Event) { e.Called? || (e.Unreadable? && (e.version == 2 || e.version == 3)) }

  /** The last payload of version 2 or 3 that was looked at since then could not be read. */
  ghost predicate EndsBadly(log: seq<Event>, from: nat) {
    exists i :: from <= i < |log| && log[i].Unreadable? && LooksAt(log[i]) &&
      forall j :: i < j < |log| ==> !LooksAt(log[j])
  }

  /** What one child that lets the loop go on adds to the log, as far as the answer is concerned. */
  lemma FlagsFollow(cfg: Config, w: World, recognized: bool, bad: bool, s: Step)
    requires Process(cfg, w, recognized, bad, s).Running?
    ensures var p := Process(cfg, w, recognized, bad, s);
      && (p.recognized <==> recognized || s.child != Other)
      && w.log <= p.w.log
      && (p.protobufFailed <==>
          EndsBadly(p.w.log, |w.log|) || (bad && forall j :: |w.log| <= j < |p.w.log| ==> !LooksAt(p.w.log[j])))
  {
    hide Unpad, Decrypt, Use;
    var p := Process(cfg, w, recognized, bad, s);
    match s.child
    case Bot(version) =>
      if s.luck.decrypt.Some? {
        UseFlags(cfg, w, None, s.luck.decrypt.value, version, bad, s.luck);
      }
    case Signal(h, version) =>
      var (w', d) := Decrypt(cfg, w, h, s.luck);
      DecryptLogs(cfg, w, h, s.luck);
      if d.Plaintext? && Unpad(d.bytes, version).Some? {
        var m := Unpad(d.bytes, version).value;
        UseFlags(cfg, w', Some(h), m, version, bad, s.luck);
        SkipQuiet(p.w.log, |w.log|, |w'.log|);
      }
    case _ =>
  }

  lemma SkipQuiet(log: seq<Event>, from: nat, to: nat)
    requires from <= to <= |log| && forall j :: from <= j < to ==> !LooksAt(log[j])
    ensures EndsBadly(log, from) <==> EndsBadly(log, to)
  {
    if EndsBadly(log, from) {
      var i :| from <= i < |log| && log[i].Unreadable? && LooksAt(log[i]) &&
        forall j :: i < j < |log| ==> !LooksAt(log[j]);
      assert i >= to;
    }
  }

  lemma DecryptLogs(cfg: Config, w: World, h: Hash, luck: Luck)
    ensures var (w', d) := Decrypt(cfg, w, h, luck);
      w.log <= w'.log && (forall j :: |w.log| <= j < |w'.log| ==> !LooksAt(w'.log[j])) && (!d.Plaintext? ==> w' == w)
  {
  }

  lemma UseFlags(cfg: Config, w: World, source: Option<Hash>, m: Bytes, version: int, bad: bool, luck: Luck)
    ensures var p := Use(cfg, w, source, m, version, bad, luck);
      p.Running? ==>
      && p.recognized && w.log <= p.w.log
      && (p.protobufFailed <==>
          EndsBadly(p.w.log, |w.log|) || (bad && forall j :: |w.log| <= j < |p.w.log| ==> !LooksAt(p.w.log[j])))
  {
    hide Dispose;
    var p, n := Use(cfg, w, source, m, version, bad, luck), |w.log|;
    if p.Running? {
      var readable := (version == 2 || version == 3) && cfg.parses(version, m);
      var e := if readable then Called(source, m, luck.handler) else Unreadable(source, version);
      DisposeFlags(cfg, Note(w, e), source, if readable then false else version == 3 || bad, luck);
      assert p.w.log[n] == e;
      if e.Unreadable? && LooksAt(e) {
        assert EndsBadly(p.w.log, n);
      }
    }
  }

  lemma DisposeFlags(cfg: Config, w: World, source: Option<Hash>, bad: bool, luck: Luck)
    ensures var p := Dispose(cfg, w, source, bad, luck);
      p.Running? ==>
      && p.recognized && p.protobufFailed == bad && w.log <= p.w.log
      && forall j :: |w.log| <= j < |p.w.log| ==> !LooksAt(p.w.log[j])
  {
  }

  lemma {:induction false} AllFlagsFollow(cfg: Config, w: World, steps: seq<Step>)
    requires ProcessAll(cfg, w, steps).Running?
    ensures var p := ProcessAll(cfg, w, steps);
      && (p.recognized <==> exists s :: s in steps && s.child != Other)
      && w.log <= p.w.log && (p.protobufFailed <==> EndsBadly(p.w.log, |w.log|))
  {
    hide Process, LooksAt;
    if steps != [] {
      var n := |steps| - 1;
      AllFlagsFollow(cfg, w, steps[..n]);
      var p := ProcessAll(cfg, w, steps[..n]);
      var q := ProcessAll(cfg, w, steps);
      FlagsFollow(cfg, p.w, p.recognized, p.protobufFailed, steps[n]);
      assert steps == steps[..n] + [steps[n]];
      Joined(w.log, p.w.log, q.w.log);
    }
  }

  lemma Joined(a: seq<Event>, b: seq<Event>, c: seq<Event>)
    requires a <= b <= c
    ensures EndsBadly(c, |a|) <==>
      EndsBadly(c, |b|) || (EndsBadly(b, |a|) && forall j :: |b| <= j < |c| ==> !LooksAt(c[j]))
  {
    hide LooksAt;
    if EndsBadly(c, |a|) {
      var i :| |a| <= i < |c| && c[i].Unreadable? && LooksAt(c[i]) && forall j :: i < j < |c| ==> !LooksAt(c[j]);
      if i < |b| {
        assert b[i] == c[i] && forall j :: i < j < |b| ==> b[j] == c[j];
      }
    }
    if EndsBadly(b, |a|) && forall j :: |b| <= j < |c| ==> !LooksAt(c[j]) {
      var i :| |a| <= i < |b| && b[i].Unreadable? && LooksAt(b[i]) && forall j :: i < j < |b| ==> !LooksAt(b[j]);
      assert c[i] == b[i] && forall j :: i < j < |b| ==> c[j] == b[j];
    }
  }

  /** The server gets one answer, the last thing logged, exactly when the loop over the children completes and answers
      are wanted: that nothing was recognised when there is no encrypted child, that a payload was bad when the last
      one of version 2 or 3 that was looked at could not be read, and a receipt otherwise. */
  lemma AnsweredExactly(cfg: Config, w: World, d: Delivery)
    ensures var p, w' := ProcessAll(cfg, w, d.steps), DeliverTo(cfg, w, d);
      if !p.Running? || !d.replies then w' == p.w
      else
        && w'.buffer == p.w.buffer && w'.consumed == p.w.consumed && w.log <= p.w.log
        && w'.log == p.w.log +
          if forall s :: s in d.steps ==> s.child == Other then [NackUnrecognized(d.id)]
          else if EndsBadly(p.w.log, |w.log|) then [NackProtobuf(d.id)] else [Receipt(d.id)]
  {
    hide ProcessAll, EndsBadly;
    if ProcessAll(cfg, w, d.steps).Running? {
      AllFlagsFollow(cfg, w, d.steps);
    }
  }

  // ----- Which children end the loop -----

  /** The handler fails, or the process dies after it. */
  predicate EndsAtHandler(cfg: Config, m: Bytes, version: int, luck: Luck) {
    if (version == 2 || version == 3) && cfg.parses(version, m)
    then luck.handler.Failure? || luck.crash == AfterHandler || luck.crash == AfterClear
    else version != 2 && (luck.crash == AfterHandler || luck.crash == AfterClear)
  }

  /** Children of another kind never end the loop and have no effect, a message that is not a Signal message always ends
      it, and a bot message when it cannot be decrypted, when its handler fails, or when the process dies. */
  lemma PlainChildren(cfg: Config, w: World, recognized: bool, bad: bool, s: Step)
    ensures var p, reported := Process(cfg, w, recognized, bad, s), if s.luck.cancelled then [] else [Undecryptable];
      match s.child
      case Other => p == Running(w, recognized, bad)
      case Untyped => p == Running(w, true, bad)
      case Unhandled => p == Running(w, true, bad)
      case Malformed => p == Stopped(World(w.buffer, w.consumed, w.log + reported))
      case Bot(version) =>
        && p.w.buffer == w.buffer && p.w.consumed == w.consumed
        && (s.luck.crash == BeforeCommit ==> p == Stopped(w))
        && (s.luck.crash != BeforeCommit && s.luck.decrypt.None? ==>
          p == Stopped(World(w.buffer, w.consumed, w.log + reported)))
        && (s.luck.crash == AfterDecrypt && s.luck.decrypt.Some? ==> p == Stopped(w))
        && (s.luck.crash != BeforeCommit && s.luck.crash != AfterDecrypt && s.luck.decrypt.Some? ==>
          var m := s.luck.decrypt.value;
          var readable := (version == 2 || version == 3) && cfg.parses(version, m);
          && p.w.log == w.log + [if readable then Called(None, m, s.luck.handler) else Unreadable(None, version)]
          && (p.Stopped? <==> EndsAtHandler(cfg, m, version, s.luck)))
      case Signal(_, _) => true
  {
    assert w.log + [] == w.log;
  }
}
