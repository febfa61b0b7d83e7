/** `bufferedDecrypt` and the child loop of `decryptMessages` as they update the store. */
module EventBufferClient {
  import opened Bytes
  import opened EventBuffer

  class Client {
    const cfg: Config
    var buffer: map<Hash, Option<Bytes>>
    var consumed: set<Hash>
    var log: seq<Event>

    constructor (cfg: Config)
      ensures this.cfg == cfg && View() == EMPTY
    {
      this.cfg, buffer, consumed, log := cfg, map[], {}, [];
    }

    ghost function View(): World
      reads this
    {
      World(buffer, consumed, log)
    }

    /** The decryption callback: it uses up a ratchet step, or reports that the step was used before. */
    method Ratchet(h: Hash, luck: Luck) returns (d: Decryption)
      modifies this`consumed, this`log
      ensures d == if h in old(consumed) then OldCounter
                   else if luck.decrypt.None? then Failed else Plaintext(luck.decrypt.value)
      ensures consumed == if d.Plaintext? then old(consumed) + {h} else old(consumed)
      ensures log == if d.Plaintext? then old(log) + [Decrypted(h, d.bytes)] else old(log)
    {
      if h in consumed {
        return OldCounter;
      }
      if luck.decrypt.None? {
        return Failed;
      }
      d := Plaintext(luck.decrypt.value);
      consumed, log := consumed + {h}, log + [Decrypted(h, d.bytes)];
    }

    method BufferedDecrypt(h: Hash, luck: Luck) returns (d: Decryption)
      modifies this
      ensures (View(), d) == Decrypt(cfg, old(View()), h, luck)
    {
      if luck.crash == BeforeCommit {
        return Crashed;
      }
      if !cfg.enabled {
        d := Ratchet(h, luck);
        return;
      }
      if !luck.lookup {
        return Failed;
      }
      if h in buffer {
        var entry := buffer[h];
        if entry.None? {
          return AlreadyProcessed;
        }
        return Plaintext(entry.value);
      }
      // The transaction: a failure after the ratchet step rolls it back.
      var before, logged := consumed, log;
      d := Ratchet(h, luck);
      if d.Plaintext? {
        if luck.commit {
          buffer := buffer[h := Some(d.bytes)];
        } else {
          d, consumed, log := Failed, before, logged;
        }
      }
    }

    /** The part of the loop body after a successful decryption.  It says whether the loop is left. */
    method UsePlaintext(source: Option<Hash>, m: Bytes, version: int, bad: bool, luck: Luck)
      returns (stopped: bool, protobufFailed: bool)
      modifies this
      ensures Use(cfg, old(View()), source, m, version, bad, luck) ==
        if stopped then Stopped(View()) else Running(View(), true, protobufFailed)
    {
      protobufFailed := bad;
      var handlerFailed := false;
      if version == 2 {
        if !cfg.parses(2, m) {
          log := log + [Unreadable(source, version)];
          return false, true;
        }
        protobufFailed := false;
        log, handlerFailed := log + [Called(source, m, luck.handler)], luck.handler.Failure?;
      } else if version == 3 {
        protobufFailed := !cfg.parses(3, m);
        if protobufFailed {
          log := log + [Unreadable(source, version)];
        } else {
          log, handlerFailed := log + [Called(source, m, luck.handler)], luck.handler.Failure?;
        }
      } else {
        log := log + [Unreadable(source, version)];
      }
      if handlerFailed {
        return true, protobufFailed;
      }
      if luck.crash == AfterHandler {
        if source.Some? {
          log := log + [Interrupted(source.value)];
        }
        return true, protobufFailed;
      }
      if source.Some? && cfg.enabled {
        if !luck.clear {
          log := log + [Interrupted(source.value)];
        } else if source.value in buffer {
          buffer := buffer[source.value := None];
        }
      }
      stopped := luck.crash == AfterClear;
    }

    method DecryptMessages(d: Delivery)
      modifies this
      ensures View() == DeliverTo(cfg, old(View()), d)
    {
      hide Process, Use, Decrypt, Unpad;
      var recognizedStanza, protobufFailed := false, false;
      var i := 0;
      assert d.steps[..0] == [];
      while i < |d.steps|
        invariant 0 <= i <= |d.steps|
        invariant ProcessAll(cfg, old(View()), d.steps[..i]) == Running(View(), recognizedStanza, protobufFailed)
      {
        var s := d.steps[i];
        assert d.steps[..i + 1][..i] == d.steps[..i];
        var stopped;
        stopped, recognizedStanza, protobufFailed := ProcessChild(s, recognizedStanza, protobufFailed);
        if stopped {
          StopsForGood(cfg, old(View()), d.steps, i + 1);
          return;
        }
        i := i + 1;
      }
      assert d.steps[..i] == d.steps;
      if d.replies {
        if !recognizedStanza {
          log := log + [NackUnrecognized(d.id)];
        } else if protobufFailed {
          log := log + [NackProtobuf(d.id)];
        } else {
          log := log + [Receipt(d.id)];
        }
      }
    }

    method ProcessChild(s: Step, recognized: bool, bad: bool)
      returns (stopped: bool, recognizedStanza: bool, protobufFailed: bool)
      modifies this
      ensures Process(cfg, old(View()), recognized, bad, s) ==
        if stopped then Stopped(View()) else Running(View(), recognizedStanza, protobufFailed)
    {
      hide Use, Decrypt, Unpad;
      stopped, recognizedStanza, protobufFailed := false, recognized, bad;
      match s.child {
        case Other =>
        case Untyped => recognizedStanza := true;
        case Unhandled => recognizedStanza := true;
        case Malformed =>
          GiveUpOn(s.luck);
          stopped := true;
        case Bot(version) =>
          if s.luck.crash == BeforeCommit {
            stopped := true;
          } else if s.luck.decrypt.None? {
            GiveUpOn(s.luck);
            stopped := true;
          } else if s.luck.crash == AfterDecrypt {
            stopped := true;
          } else {
            recognizedStanza := true;
            stopped, protobufFailed := UsePlaintext(None, s.luck.decrypt.value, version, bad, s.luck);
          }
        case Signal(h, version) =>
          recognizedStanza := true;
          var d := BufferedDecrypt(h, s.luck);
          match d {
            case Crashed => stopped := true;
            case AlreadyProcessed =>
            case OldCounter =>
            case Failed =>
              GiveUpOn(s.luck);
              stopped := true;
            case Plaintext(p) =>
              var m := Unpad(p, version);
              if s.luck.crash == AfterDecrypt {
                stopped := true;
              } else if m.None? {
                GiveUpOn(s.luck);
                stopped := true;
              } else {
                stopped, protobufFailed := UsePlaintext(Some(h), m.value, version, bad, s.luck);
              }
          }
      }
    }

    method GiveUpOn(luck: Luck)
      modifies this`log
      ensures View() == GiveUp(old(View()), luck)
    {
      if !luck.cancelled {
        log := log + [Undecryptable];
      }
    }

    /** The DELETE of entries that are older than 14 days. */
    method DeleteOldBufferedHashes(hashes: set<Hash>)
      modifies this
      ensures View() == Advance(cfg, old(View()), Prune(hashes))
    {
      log := log + [Discarded(Pending(World(buffer, consumed, log), hashes))];
      buffer := buffer - hashes;
    }
  }

  lemma {:induction false} StopsForGood(cfg: Config, w: World, steps: seq<Step>, k: nat)
    requires k <= |steps| && ProcessAll(cfg, w, steps[..k]).Stopped?
    ensures ProcessAll(cfg, w, steps) == ProcessAll(cfg, w, steps[..k])
    decreases |steps|
  {
    hide Process;
    if k == |steps| {
      assert steps[..k] == steps;
    } else {
      assert steps[..|steps| - 1][..k] == steps[..k];
      StopsForGood(cfg, w, steps[..|steps| - 1], k);
    }
  }
}
