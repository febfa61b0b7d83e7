/** The decrypted-event buffer of `message.go`: every ratchet step is paid for with a buffer entry, so a message
    survives crashes, failing handlers and redeliveries until it has been handled. */
module EventBuffer {
  import opened Bytes

  /** SHA-256 of a ciphertext with its kind and sender; it stands for the ratchet step of that ciphertext. */
  type Hash = Bytes

  /** The `enabled` flag is EnableDecryptedEventBuffer; parses(v, m) says whether m unmarshals as a version v message.
      */
  datatype Config = Config(enabled: bool, parses: (int, Bytes) -> bool)

  /** A child of a message node: another tag, an enc without a type or of an unknown one, one that is not a Signal
      message at all, a Signal ciphertext (pkmsg, msg, skmsg), or a bot message, which bypasses the buffer. */
  datatype Child = Other | Untyped | Unhandled | Malformed | Signal(hash: Hash, version: int) | Bot(version: int)

  datatype Answer = Success | Failure | Panic

  datatype Point = Never | BeforeCommit | AfterDecrypt | AfterHandler | AfterClear

  /** What the surroundings do while one child is processed: whether the lookup, the commit and the clearing write
      succeed, what an unused ratchet step decrypts to, how the handler answers, where the process dies, and whether the
      context was cancelled when an error is reported. */
  datatype Luck = Luck(
    lookup: bool, decrypt: Option<Bytes>, commit: bool, handler: Answer, clear: bool, crash: Point, cancelled: bool)

  datatype Step = Step(child: Child, luck: Luck)

  datatype Delivery = Delivery(id: Bytes, steps: seq<Step>, replies: bool)

  datatype Event =
    | Decrypted(hash: Hash, plaintext: Bytes)
    | Called(source: Option<Hash>, message: Bytes, answer: Answer)
    | Unreadable(source: Option<Hash>, version: int)
    | Interrupted(hash: Hash)
    | Discarded(hashes: set<Hash>)
    | Undecryptable
    | Receipt(id: Bytes)
    | NackProtobuf(id: Bytes)
    | NackUnrecognized(id: Bytes)

  /** The event buffer (None: cleared), the used ratchet steps, and what has happened so far. */
  datatype World = World(buffer: map<Hash, Option<Bytes>>, consumed: set<Hash>, log: seq<Event>)

  datatype Decryption = Plaintext(bytes: Bytes) | AlreadyProcessed | OldCounter | Failed | Crashed

  /** How far the child loop has come: its two flags, or that it was left early. */
  datatype Progress = Running(w: World, recognized: bool, protobufFailed: bool) | Stopped(w: World)

  datatype Input = Deliver(d: Delivery) | Prune(hashes: set<Hash>)

  const EMPTY: World := World(map[], {}, [])

  function Note(w: World, e: Event): World { w.(log := w.log + [e]) }

  // ----- Padding -----

  function Unpad(p: Bytes, version: int): Option<Bytes> {
    if version == 3 then Some(p)
    else if p == [] then None
    else
      var last: int := p[|p| - 1];
      if last > |p| || p[|p| - last..] != Repeat(p[|p| - 1], last) then None else Some(p[..|p| - last])
  }

  function Pad(m: Bytes, random: byte): Bytes {
    var r: int := random;
    var pad := if r % 16 == 0 then 15 else r % 16;
    m + Repeat(pad, pad)
  }

  lemma PadBack(m: Bytes, random: byte, version: int)
    requires version != 3
    ensures Unpad(Pad(m, random), version) == Some(m)
  {
    var p := Pad(m, random);
    var last: int := p[|p| - 1];
    assert p[|p| - last..] == Repeat(last, last);
    assert p[..|p| - last] == m;
  }

  // ----- One child -----

  function Decrypt(cfg: Config, w: World, h: Hash, luck: Luck): (World, Decryption) {
    if luck.crash == BeforeCommit then (w, Crashed)
    else if !cfg.enabled then
      if h in w.consumed then (w, OldCounter)
      else if luck.decrypt.None? then (w, Failed)
      else (Note(w.(consumed := w.consumed + {h}), Decrypted(h, luck.decrypt.value)), Plaintext(luck.decrypt.value))
    else if !luck.lookup then (w, Failed)
    else if h in w.buffer then
      (w, if w.buffer[h].None? then AlreadyProcessed else Plaintext(w.buffer[h].value))
    else if h in w.consumed then (w, OldCounter)
    else if luck.decrypt.None? || !luck.commit then (w, Failed)
    else
      (Note(w.(consumed := w.consumed + {h}, buffer := w.buffer[h := luck.decrypt]), Decrypted(h, luck.decrypt.value)),
       Plaintext(luck.decrypt.value))
  }

  /** After the handler: clear the plaintext, unless the process dies first or the write fails. */
  function Dispose(cfg: Config, w: World, source: Option<Hash>, protobufFailed: bool, luck: Luck): Progress {
    if luck.crash == AfterHandler then Stopped(if source.Some? then Note(w, Interrupted(source.value)) else w)
    else
      var w' :=
        if source.None? || !cfg.enabled then w
        else if !luck.clear then Note(w, Interrupted(source.value))
        else if source.value in w.buffer then w.(buffer := w.buffer[source.value := None])
        else w;
      if luck.crash == AfterClear then Stopped(w') else Running(w', true, protobufFailed)
  }

  function Use(cfg: Config, w: World, source: Option<Hash>, m: Bytes, version: int, protobufFailed: bool, luck: Luck):
    Progress
  {
    if version == 2 && !cfg.parses(2, m) then Running(Note(w, Unreadable(source, version)), true, true)
    else if version == 3 && !cfg.parses(3, m) then
      Dispose(cfg, Note(w, Unreadable(source, version)), source, true, luck)
    else if version != 2 && version != 3 then
      Dispose(cfg, Note(w, Unreadable(source, version)), source, protobufFailed, luck)
    else
      var called := Note(w, Called(source, m, luck.handler));
      if luck.handler.Failure? then Stopped(called) else Dispose(cfg, called, source, false, luck)
  }

  /** The end of the error path: the message is reported as undecryptable, unless the context was cancelled. */
  function GiveUp(w: World, luck: Luck): World { if luck.cancelled then w else Note(w, Undecryptable) }

  function Process(cfg: Config, w: World, recognized: bool, protobufFailed: bool, s: Step): Progress {
    match s.child
    case Other => Running(w, recognized, protobufFailed)
    case Untyped => Running(w, true, protobufFailed)
    case Unhandled => Running(w, true, protobufFailed)
    case Malformed => Stopped(GiveUp(w, s.luck))
    case Bot(version) =>
      if s.luck.crash == BeforeCommit then Stopped(w)
      else if s.luck.decrypt.None? then Stopped(GiveUp(w, s.luck))
      else if s.luck.crash == AfterDecrypt then Stopped(w)
      else Use(cfg, w, None, s.luck.decrypt.value, version, protobufFailed, s.luck)
    case Signal(h, version) =>
      var (w', d) := Decrypt(cfg, w, h, s.luck);
      match d
      case Crashed => Stopped(w')
      case AlreadyProcessed => Running(w', true, protobufFailed)
      case OldCounter => Running(w', true, protobufFailed)
      case Failed => Stopped(GiveUp(w', s.luck))
      case Plaintext(p) =>
        if s.luck.crash == AfterDecrypt then Stopped(w')
        else
          var m := Unpad(p, version);
          if m.None? then Stopped(GiveUp(w', s.luck))
          else Use(cfg, w', Some(h), m.value, version, protobufFailed, s.luck)
  }

  // ----- Deliveries and runs -----

  function ProcessAll(cfg: Config, w: World, steps: seq<Step>): Progress {
    if steps == [] then Running(w, false, false)
    else
      var p := ProcessAll(cfg, w, steps[..|steps| - 1]);
      if p.Stopped? then p else Process(cfg, p.w, p.recognized, p.protobufFailed, steps[|steps| - 1])
  }

  function Reply(id: Bytes, recognized: bool, protobufFailed: bool): Event {
    if !recognized then NackUnrecognized(id) else if protobufFailed then NackProtobuf(id) else Receipt(id)
  }

  function DeliverTo(cfg: Config, w: World, d: Delivery): World {
    var p := ProcessAll(cfg, w, d.steps);
    if p.Running? && d.replies then Note(p.w, Reply(d.id, p.recognized, p.protobufFailed)) else p.w
  }

  /** The plaintexts that pruning destroys although they were not cleared. */
  function Pending(w: World, hashes: set<Hash>): set<Hash> {
    set h | h in hashes && h in w.buffer && w.buffer[h].Some?
  }

  function Advance(cfg: Config, w: World, i: Input): World {
    match i
    case Deliver(d) => DeliverTo(cfg, w, d)
    case Prune(hashes) => Note(w.(buffer := w.buffer - hashes), Discarded(Pending(w, hashes)))
  }

  function Run(cfg: Config, w: World, inputs: seq<Input>): World {
    if inputs == [] then w
    else Advance(cfg, Run(cfg, w, inputs[..|inputs| - 1]), inputs[|inputs| - 1])
  }
}
