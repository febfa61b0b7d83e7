/** The receive buffer of `FrameSocket` and the frame printer, proved against `Framing`. */
module FrameSocketModel {
  import opened Bytes
  import opened Framing

  /** `W`, `A`, the magic value and the dictionary version; sent once, in front of the first frame. */
  const CONN_HEADER: Bytes := Ascii("WA") + [6, 3]

  class FrameSocket {
    var header: Bytes
    var incoming: array?<byte>
    var incomingLength: nat
    var receivedLength: nat
    var partialHeader: Bytes
    /** The frames put on the channel. */
    var frames: seq<Bytes>

    constructor ()
      ensures Valid() && View() == INIT && incoming == null && header == [87, 65, 6, 3]
    {
      header, incoming, incomingLength, receivedLength, partialHeader, frames := CONN_HEADER, null, 0, 0, [], [];
    }

    ghost predicate Valid()
      reads this
    {
      incoming != null ==> incoming.Length == incomingLength
    }

    ghost function View(): Sock
      reads this, incoming
    {
      Sock(if incoming == null then None else Some(Body(incoming[..], receivedLength)), partialHeader, frames)
    }

    /** The bytes written to the connection, or nothing when the frame is too large. */
    method SendFrame(data: Bytes) returns (wholeFrame: Option<Bytes>)
      modifies `header
      ensures |data| >= FRAME_MAX_SIZE ==> wholeFrame == None && header == old(header)
      ensures |data| < FRAME_MAX_SIZE ==> wholeFrame == Some(old(header) + PrintFrame(data)) && header == []
    {
      var n := |data|;
      if n >= FRAME_MAX_SIZE {
        return None;
      }
      LengthBytes(n);
      var frame := header + [n / 0x1_0000 % 0x100, n / 0x100 % 0x100, n % 0x100] + data;
      assert frame == header + PrintFrame(data);
      header := [];
      return Some(frame);
    }

    method FrameComplete()
      requires Valid() && incoming != null
      modifies this
      ensures incoming == null && partialHeader == [] && header == old(header)
      ensures frames == old(frames) + [old(incoming[..])]
    {
      var data := incoming[..];
      incoming, partialHeader, incomingLength, receivedLength := null, [], 0, 0;
      frames := frames + [data];
    }

    /** `asWritten` chooses between the source's assignment to `receivedLength` and one that counts body bytes only.
        A slice out of range is reported as a panic. */
    method ProcessData(asWritten: bool, chunk: Bytes) returns (panicked: bool)
      requires Valid()
      modifies this, incoming
      ensures Valid() && header == old(header)
      ensures match Process(asWritten, old(View()), chunk)
        case None => panicked
        case Some(s) => !panicked && View() == s
    {
      hide Step;
      var msg := chunk;
      ghost var goal := Process(asWritten, View(), msg);
      while |msg| > 0
        invariant Valid() && header == old(header)
        invariant incoming == old(incoming) || incoming == null || fresh(incoming)
        invariant Process(asWritten, View(), msg) == goal
        decreases |msg| > 0, |partialHeader| + |msg|, incoming != null
      {
        if incoming == null {
          msg := StartFrame(asWritten, msg);
        } else {
          panicked, msg := ContinueFrame(asWritten, msg);
          if panicked {
            return;
          }
        }
      }
      return false;
    }

    /** The branch of the loop without an open frame. */
    method StartFrame(asWritten: bool, chunk: Bytes) returns (rest: Bytes)
      requires Valid() && incoming == null && chunk != []
      modifies this
      ensures Valid() && header == old(header) && (incoming != null ==> fresh(incoming))
      ensures Step(asWritten, old(View()), chunk) == Some((View(), rest))
      ensures rest == [] || |partialHeader| + |rest| < |old(partialHeader)| + |chunk|
    {
      hide Length;
      var msg := partialHeader + chunk;
      partialHeader := [];
      if |msg| >= FRAME_LENGTH_SIZE {
        var length := Length(msg);
        incomingLength := length;
        receivedLength := if asWritten then |msg| else |msg| - 3;
        msg := msg[FRAME_LENGTH_SIZE..];
        if |msg| >= length {
          var body := msg[..length];
          incoming := new byte[length](i requires 0 <= i < length => body[i]);
          assert incoming[..] == body;
          FrameComplete();
          return msg[length..];
        }
        var body := msg + Repeat(0, length - |msg|);
        incoming := new byte[length](i requires 0 <= i < length => body[i]);
        assert incoming[..] == body;
      } else {
        partialHeader := msg;
      }
      return [];
    }

    /** The branch of the loop with an open frame. */
    method ContinueFrame(asWritten: bool, chunk: Bytes) returns (panicked: bool, rest: Bytes)
      requires Valid() && incoming != null && chunk != []
      modifies this, incoming
      ensures Valid() && header == old(header) && (incoming == null || incoming == old(incoming))
      ensures match Step(asWritten, old(View()), chunk)
        case None => panicked
        case Some((s, left)) => !panicked && View() == s && rest == left
      ensures panicked || rest == [] || (incoming == null && |partialHeader| + |rest| <= |old(partialHeader)| + |chunk|)
    {
      ghost var buffer := incoming[..];
      var msg := partialHeader + chunk;
      partialHeader := [];
      if receivedLength + |msg| >= incomingLength {
        if receivedLength > incomingLength {
          return true, [];
        }
        var missing := incomingLength - receivedLength;
        CopyInto(incoming, receivedLength, msg[..missing]);
        assert incoming[..] == buffer[..receivedLength] + msg[..missing];
        FrameComplete();
        return false, msg[missing..];
      }
      CopyInto(incoming, receivedLength, msg);
      receivedLength := receivedLength + |msg|;
      return false, [];
    }
  }

  method CopyInto(target: array<byte>, at: nat, bytes: Bytes)
    requires at + |bytes| <= target.Length
    modifies target
    ensures target[..] == old(target[..at]) + bytes + old(target[at + |bytes|..])
  {
    forall k | 0 <= k < |bytes| {
      target[at + k] := bytes[k];
    }
  }

  lemma LengthBytes(n: nat)
    ensures BigEndian(n, 3) == [n / 0x1_0000 % 0x100, n / 0x100 % 0x100, n % 0x100]
  {
    assert BigEndian(n, 3) == BigEndian(n / 0x100, 2) + [n % 0x100];
    assert BigEndian(n / 0x100, 2) == BigEndian(n / 0x1_0000, 1) + [n / 0x100 % 0x100] by {
      assert n / 0x100 / 0x100 == n / 0x1_0000;
    }
    assert BigEndian(n / 0x1_0000, 1) == BigEndian(n / 0x1_0000 / 0x100, 0) + [n / 0x1_0000 % 0x100];
  }
}
