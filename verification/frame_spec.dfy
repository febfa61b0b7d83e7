/** Stream framing (`socket/framesocket.go`): frames with a three-byte length, reassembled from arbitrary chunks. */
module Framing {
  import opened Bytes

  const FRAME_MAX_SIZE := 0x100_0000
  const FRAME_LENGTH_SIZE := 3

  type Frame = b: Bytes | |b| < FRAME_MAX_SIZE

  function PrintFrame(b: Frame): Bytes { BigEndian(|b|, 3) + b }

  function PrintAll(frames: seq<Frame>): Bytes {
    if frames == [] then [] else PrintFrame(frames[0]) + PrintAll(frames[1..])
  }

  function Length(d: Bytes): nat
    requires |d| >= 3
  {
    var a: int, b: int, c: int := d[0], d[1], d[2];
    a * 0x1_0000 + b * 0x100 + c
  }

  /** The body being received: its buffer has the final length. */
  datatype Body = Body(buffer: Bytes, received: nat)

  /** `partial` is the partial header, empty when there is none; `frames` are the frames delivered so far. */
  datatype Sock = Sock(incoming: Option<Body>, partial: Bytes, frames: seq<Bytes>)

  const INIT: Sock := Sock(None, [], [])

  /** One turn of the loop in `processData`: the new state and the bytes left of the message.  `asWritten` counts the
      three header bytes into `receivedLength`, as the source does; otherwise only body bytes count.  None is a panic on
      a slice out of range. */
  function Step(asWritten: bool, s: Sock, msg: Bytes): Option<(Sock, Bytes)> {
    var m := s.partial + msg;
    match s.incoming
    case None =>
      if |m| < FRAME_LENGTH_SIZE then Some((s.(partial := m), []))
      else
        var n, body := Length(m), m[3..];
        if |body| >= n then Some((Sock(None, [], s.frames + [body[..n]]), body[n..]))
        else
          Some((Sock(Some(Body(body + Repeat(0, n - |body|), if asWritten then |m| else |body|)), [], s.frames), []))
    case Some(b) =>
      var n := |b.buffer|;
      if b.received + |m| >= n then
        if b.received > n then None
        else
          var missing := n - b.received;
          Some((Sock(None, [], s.frames + [b.buffer[..b.received] + m[..missing]]), m[missing..]))
      else
        var k := b.received + |m|;
        Some((Sock(Some(Body(b.buffer[..b.received] + m + b.buffer[k..], k)), [], s.frames), []))
  }

  /** One call of `processData`. */
  function Process(asWritten: bool, s: Sock, msg: Bytes): (r: Option<Sock>)
    decreases msg != [], |s.partial| + |msg|, s.incoming.Some?
  {
    if msg == [] then Some(s) else
    match Step(asWritten, s, msg)
    case None => None
    case Some((s', rest)) => Process(asWritten, s', rest)
  }

  function Run(asWritten: bool, s: Sock, chunks: seq<Bytes>): Option<Sock>
    decreases |chunks|
  {
    if chunks == [] then Some(s)
    else
      match Process(asWritten, s, chunks[0])
      case None => None
      case Some(s') => Run(asWritten, s', chunks[1..])
  }

  function Concat(chunks: seq<Bytes>): Bytes {
    if chunks == [] then [] else chunks[0] + Concat(chunks[1..])
  }

  // ----- The reference: split a stream into its complete frames and the rest -----

  datatype Split = Split(frames: seq<Bytes>, rest: Bytes)

  function SplitStream(d: Bytes): (r: Split)
    decreases |d|
  {
    if |d| < 3 || |d| - 3 < Length(d) then Split([], d)
    else
      var n := Length(d);
      var more := SplitStream(d[3 + n..]);
      Split([d[3..3 + n]] + more.frames, more.rest)
  }
}
