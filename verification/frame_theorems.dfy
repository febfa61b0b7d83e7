/** Reassembly: with body bytes counted correctly every chunking of a printed stream is reassembled; as written exactly
    those in which no chunk ends inside a body. */
module FramingTheorems {
  import opened Bytes
  import opened Framing

  // ----- Printing -----

  lemma LengthOfHeader(n: nat, rest: Bytes)
    requires n < FRAME_MAX_SIZE
    ensures Length(BigEndian(n, 3) + rest) == n && (BigEndian(n, 3) + rest)[3..] == rest
  {
    assert BigEndian(n, 3) == BigEndian(n / 0x100, 2) + [n % 0x100];
    assert BigEndian(n / 0x100, 2) == BigEndian(n / 0x1_0000, 1) + [n / 0x100 % 0x100] by {
      assert n / 0x100 / 0x100 == n / 0x1_0000;
    }
    assert BigEndian(n / 0x1_0000, 1) == BigEndian(n / 0x1_0000 / 0x100, 0) + [n / 0x1_0000 % 0x100];
    assert n / 0x1_0000 < 0x100;
  }

  /** A frame is the length of its body in three bytes, most significant first, and the body. */
  lemma FrameOnTheWire(b: Frame)
    ensures PrintFrame(b) == [|b| / 65536, |b| / 256 % 256, |b| % 256] + b
  {
    var n := |b|;
    assert BigEndian(n, 3) == BigEndian(n / 256, 2) + [n % 256];
    assert BigEndian(n / 256, 2) == BigEndian(n / 256 / 256, 1) + [n / 256 % 256];
    assert BigEndian(n / 256 / 256, 1) == BigEndian(n / 256 / 256 / 256, 0) + [n / 256 / 256 % 256];
    assert n / 256 / 256 == n / 65536 < 256;
  }

  lemma Sliced(head: Bytes, b: Bytes, rest: Bytes)
    requires |head| == 3
    ensures var d := head + (b + rest);
      d[3..] == b + rest && d[3..3 + |b|] == b && d[3 + |b|..] == rest
  {
  }

  lemma PrintedFirst(frames: seq<Frame>)
    requires frames != []
    ensures var d, b := PrintAll(frames), frames[0];
      |d| >= 3 + |b| && Length(d) == |b| && d[3..] == b + PrintAll(frames[1..]) &&
      d[3..3 + |b|] == b && d[3 + |b|..] == PrintAll(frames[1..])
  {
    hide BigEndian, Length;
    var b, rest := frames[0], PrintAll(frames[1..]);
    assert PrintAll(frames) == BigEndian(|b|, 3) + (b + rest);
    LengthOfHeader(|b|, b + rest);
    Sliced(BigEndian(|b|, 3), b, rest);
  }

  /** The reference splitter undoes the printer. */
  lemma {:induction false} SplitPrinted(frames: seq<Frame>)
    ensures SplitStream(PrintAll(frames)) == Split(frames, [])
  {
    hide Length;
    if frames != [] {
      PrintedFirst(frames);
      SplitPrinted(frames[1..]);
      assert frames == [frames[0]] + frames[1..];
    }
  }

  // ----- Counting body bytes only -----

  /** Between two chunks: no header and body at once, and the body is not complete. */
  ghost predicate Waiting(s: Sock) {
    match s.incoming
    case None => |s.partial| < 3
    case Some(b) => s.partial == [] && b.received < |b.buffer| < FRAME_MAX_SIZE
  }

  /** The bytes that have arrived and are not yet part of a delivered frame. */
  ghost function Pending(s: Sock): Bytes
    requires Waiting(s)
  {
    match s.incoming
    case None => s.partial
    case Some(b) => BigEndian(|b.buffer|, 3) + b.buffer[..b.received]
  }

  lemma HeaderAgain(d: Bytes)
    requires |d| >= 3
    ensures Length(d) < FRAME_MAX_SIZE && BigEndian(Length(d), 3) == d[..3]
  {
    var a: int, b: int, c: int := d[0], d[1], d[2];
    var n := Length(d);
    assert n % 0x100 == c && n / 0x100 == a * 0x100 + b;
    assert n / 0x100 % 0x100 == b && n / 0x100 / 0x100 == a;
    assert BigEndian(n, 3) == BigEndian(n / 0x100, 2) + [c];
    assert BigEndian(n / 0x100, 2) == BigEndian(a, 1) + [b];
    assert BigEndian(a, 1) == BigEndian(a / 0x100, 0) + [a];
  }

  /** One turn of the loop. */
  lemma OneTurn(asWritten: bool, s: Sock, msg: Bytes)
    ensures Process(asWritten, s, []) == Some(s)
    ensures msg != [] ==>
        Process(asWritten, s, msg) ==
        match Step(asWritten, s, msg) case None => None case Some((s', rest)) => Process(asWritten, s', rest)
  {
    hide Step;
  }

  /** The turn that receives the rest of a body. */
  lemma BodyTurn(asWritten: bool, s: Sock, msg: Bytes, missing: nat)
    requires s.incoming.Some? && s.partial == [] && msg != []
    requires |s.incoming.value.buffer| == s.incoming.value.received + missing && missing <= |msg|
    ensures var b := s.incoming.value;
      Process(asWritten, s, msg) ==
      Process(asWritten, Sock(None, [], s.frames + [b.buffer[..b.received] + msg[..missing]]), msg[missing..])
  {
    hide Process;
    OneTurn(asWritten, s, msg);
    assert s.partial + msg == msg;
  }

  /** The turn that receives a header, and the body with it or not. */
  lemma HeaderTurn(asWritten: bool, s: Sock, msg: Bytes)
    requires s.incoming.None? && msg != []
    ensures var m := s.partial + msg;
      Process(asWritten, s, msg) ==
      if |m| < 3 then Some(s.(partial := m))
      else
        var n, body := Length(m), m[3..];
        if |body| >= n then Process(asWritten, Sock(None, [], s.frames + [body[..n]]), body[n..])
        else Some(Sock(Some(Body(body + Repeat(0, n - |body|), if asWritten then |m| else |body|)), [], s.frames))
  {
    hide Process, Length;
    OneTurn(asWritten, s, msg);
    var m := s.partial + msg;
    if |m| < 3 {
      OneTurn(asWritten, s.(partial := m), []);
    } else if |m[3..]| < Length(m) {
      var n, body := Length(m), m[3..];
      OneTurn(asWritten,
        Sock(Some(Body(body + Repeat(0, n - |body|), if asWritten then |m| else |body|)), [], s.frames), []);
    }
  }

  /** One chunk, wherever it begins and ends: exactly the frames completed by it are delivered, and exactly the
      remaining bytes stay pending. */
  lemma {:induction false} ProcessSplits(s: Sock, msg: Bytes)
    requires Waiting(s)
    ensures var r := Process(false, s, msg);
      && r.Some? && Waiting(r.value)
      && var split := SplitStream(Pending(s) + msg);
      r.value.frames == s.frames + split.frames && Pending(r.value) == split.rest
    decreases |s.partial| + |msg|, if s.incoming.Some? then 1 else 0
  {
    hide BigEndian, Length;
    if msg == [] {
      NothingNew(s);
    } else if s.incoming.None? {
      ProcessHeader(s, msg);
    } else {
      ProcessBody(s, msg);
    }
  }

  lemma NothingNew(s: Sock)
    requires Waiting(s)
    ensures SplitStream(Pending(s) + []) == Split([], Pending(s)) && s.frames + [] == s.frames
  {
    hide BigEndian, Length;
    assert Pending(s) + [] == Pending(s);
    if s.incoming.Some? {
      var b := s.incoming.value;
      LengthOfHeader(|b.buffer|, b.buffer[..b.received]);
    }
  }

  lemma {:induction false} ProcessHeader(s: Sock, msg: Bytes)
    requires Waiting(s) && s.incoming.None? && msg != []
    ensures var r := Process(false, s, msg);
      && r.Some? && Waiting(r.value)
      && var split := SplitStream(Pending(s) + msg);
      r.value.frames == s.frames + split.frames && Pending(r.value) == split.rest
    decreases |s.partial| + |msg|, 0, 0
  {
    hide BigEndian, Length, Process, SplitStream;
    var m := s.partial + msg;
    HeaderTurn(false, s, msg);
    if |m| < 3 || |m[3..]| < Length(m) {
      SplitNone(m);
      assert s.frames + [] == s.frames;
      if |m| >= 3 {
        HeaderAgain(m);
        var buffer := m[3..] + Repeat(0, Length(m) - |m[3..]|);
        assert buffer[..|m[3..]|] == m[3..] && m == m[..3] + m[3..];
      }
    } else {
      var n, body := Length(m), m[3..];
      SplitOne(m);
      assert body[..n] == m[3..3 + n] && body[n..] == m[3 + n..];
      var s' := Sock(None, [], s.frames + [body[..n]]);
      ProcessSplits(s', body[n..]);
      assert Pending(s') + body[n..] == body[n..];
      var more := SplitStream(body[n..]).frames;
      assert s'.frames + more == s.frames + ([body[..n]] + more);
    }
  }

  lemma {:induction false} ProcessBody(s: Sock, msg: Bytes)
    requires Waiting(s) && s.incoming.Some? && msg != []
    ensures var r := Process(false, s, msg);
      && r.Some? && Waiting(r.value)
      && var split := SplitStream(Pending(s) + msg);
      r.value.frames == s.frames + split.frames && Pending(r.value) == split.rest
    decreases |s.partial| + |msg|, 0, 1
  {
    hide BigEndian, Length;
    hide SplitStream;
    var b := s.incoming.value;
    var n, head := |b.buffer|, BigEndian(|b.buffer|, 3);
    assert s.partial + msg == msg;
    var d := Pending(s) + msg;
    var got := b.buffer[..b.received];
    assert d == head + (got + msg);
    LengthOfHeader(n, got + msg);
    if b.received + |msg| >= n {
      BodyCompletes(s, msg, n - b.received);
    } else {
      var k := b.received + |msg|;
      var buffer := got + msg + b.buffer[k..];
      assert buffer[..k] == got + msg;
      SplitNone(d);
    }
  }

  lemma {:induction false} BodyCompletes(s: Sock, msg: Bytes, missing: nat)
    requires Waiting(s) && s.incoming.Some? && msg != []
    requires missing == |s.incoming.value.buffer| - s.incoming.value.received <= |msg|
    ensures var r := Process(false, s, msg);
      && r.Some? && Waiting(r.value)
      && var split := SplitStream(Pending(s) + msg);
      r.value.frames == s.frames + split.frames && Pending(r.value) == split.rest
    decreases |s.partial| + |msg|, 0, 0
  {
    hide BigEndian, Length, SplitStream, Process;
    var b := s.incoming.value;
    BodyTurn(false, s, msg, missing);
    var head, got, rest := BigEndian(|b.buffer|, 3), b.buffer[..b.received], msg[missing..];
    var frame := got + msg[..missing];
    assert Pending(s) + msg == head + (frame + rest);
    LengthOfHeader(|b.buffer|, frame + rest);
    Sliced(head, frame, rest);
    SplitOne(head + (frame + rest));
    var s' := Sock(None, [], s.frames + [frame]);
    ProcessSplits(s', rest);
    assert Pending(s') + rest == rest;
    assert s.frames + ([frame] + SplitStream(rest).frames) == s'.frames + SplitStream(rest).frames;
  }

  lemma SplitOne(d: Bytes)
    requires |d| >= 3 && |d| - 3 >= Length(d)
    ensures var n := Length(d);
      var more := SplitStream(d[3 + n..]);
      SplitStream(d) == Split([d[3..3 + n]] + more.frames, more.rest)
  {
    hide Length;
  }

  lemma SplitNone(d: Bytes)
    requires |d| < 3 || |d| - 3 < Length(d)
    ensures SplitStream(d) == Split([], d)
  {
    hide Length;
  }

  lemma SplitMoreStep(d: Bytes, x: Bytes)
    requires |d| >= 3 && |d| - 3 >= Length(d)
    ensures var n := Length(d);
      Length(d + x) == n && (d + x)[3..3 + n] == d[3..3 + n] && (d + x)[3 + n..] == d[3 + n..] + x
  {
    assert (d + x)[0] == d[0] && (d + x)[1] == d[1] && (d + x)[2] == d[2];
  }

  lemma {:induction false} SplitMore(d: Bytes, x: Bytes)
    ensures var a := SplitStream(d);
      var b := SplitStream(a.rest + x);
      SplitStream(d + x) == Split(a.frames + b.frames, b.rest)
    decreases |d|
  {
    hide Length, SplitStream;
    if |d| < 3 || |d| - 3 < Length(d) {
      SplitNone(d);
      assert [] + SplitStream(d + x).frames == SplitStream(d + x).frames;
    } else {
      var n := Length(d);
      SplitMoreStep(d, x);
      SplitOne(d);
      SplitOne(d + x);
      SplitMore(d[3 + n..], x);
      var a, f := SplitStream(d[3 + n..]), [d[3..3 + n]];
      var b := SplitStream(a.rest + x);
      assert f + (a.frames + b.frames) == (f + a.frames) + b.frames;
    }
  }

  lemma {:induction false} RunSplits(s: Sock, chunks: seq<Bytes>)
    requires Waiting(s)
    ensures var r := Run(false, s, chunks);
      && r.Some? && Waiting(r.value)
      && var split := SplitStream(Pending(s) + Concat(chunks));
      r.value.frames == s.frames + split.frames && Pending(r.value) == split.rest
    decreases |chunks|
  {
    hide Process, Waiting, Pending, SplitStream;
    if chunks == [] {
      NothingNew(s);
    } else {
      ProcessSplits(s, chunks[0]);
      var s' := Process(false, s, chunks[0]).value;
      RunSplits(s', chunks[1..]);
      SplitMore(Pending(s) + chunks[0], Concat(chunks[1..]));
      assert Pending(s) + Concat(chunks) == (Pending(s) + chunks[0]) + Concat(chunks[1..]);
      var a, b := SplitStream(Pending(s) + chunks[0]), SplitStream(Pending(s') + Concat(chunks[1..]));
      assert s.frames + (a.frames + b.frames) == (s.frames + a.frames) + b.frames;
    }
  }

  /** Any printed frames, cut into any chunks, come back as exactly those frames, and nothing stays pending. */
  lemma Reassembly(frames: seq<Frame>, chunks: seq<Bytes>)
    requires Concat(chunks) == PrintAll(frames)
    ensures Run(false, INIT, chunks) == Some(Sock(None, [], frames))
  {
    hide SplitStream, Concat, PrintAll, BigEndian, Run;
    RunSplits(INIT, chunks);
    SplitPrinted(frames);
    assert Pending(INIT) + Concat(chunks) == Concat(chunks);
    var s := Run(false, INIT, chunks).value;
    assert INIT.frames + frames == frames;
    assert Pending(s) == [];
  }

  // ----- As written -----

  /** No chunk ends inside a body: after every chunk fewer than three bytes, at most a partial header, are left over. */
  ghost predicate CleanCuts(pending: Bytes, chunks: seq<Bytes>)
    decreases |chunks|
  {
    chunks == [] ||
    var rest := SplitStream(pending + chunks[0]).rest;
    |rest| < 3 && CleanCuts(rest, chunks[1..])
  }

  ghost predicate Idle(s: Sock) { s.incoming.None? && |s.partial| < 3 }

  /** Without a body left over at the end of the chunk the miscount has no effect. */
  lemma {:induction false} CleanSame(s: Sock, msg: Bytes)
    requires Idle(s) && |SplitStream(s.partial + msg).rest| < 3
    ensures Process(true, s, msg) == Process(false, s, msg)
    ensures Process(false, s, msg).Some? ==> Idle(Process(false, s, msg).value)
    decreases |s.partial| + |msg|
  {
    hide Length, SplitStream;
    var m := s.partial + msg;
    if msg != [] && |m| >= 3 {
      var n := Length(m);
      if |m| - 3 >= n {
        SplitOne(m);
        var s' := Sock(None, [], s.frames + [m[3..][..n]]);
        assert m[3..][n..] == m[3 + n..] && s'.partial + m[3 + n..] == m[3 + n..];
        CleanSame(s', m[3 + n..]);
      } else {
        SplitNone(m);
      }
    }
  }

  /** With a body left over, the state counts its three header bytes as received. */
  lemma {:induction false} CutMiscounts(s: Sock, msg: Bytes)
    requires Idle(s) && |SplitStream(s.partial + msg).rest| >= 3
    ensures var split := SplitStream(s.partial + msg);
      && |split.rest| - 3 < Length(split.rest)
      && Process(true, s, msg) == Some(Sock(Some(Body(
        split.rest[3..] + Repeat(0, Length(split.rest) - |split.rest[3..]|), |split.rest|)), [],
        s.frames + split.frames))
    decreases |s.partial| + |msg|
  {
    hide Length, SplitStream, Repeat;
    var m := s.partial + msg;
    if |m| < 3 {
      SplitNone(m);
    } else if |m| - 3 < Length(m) {
      SplitNone(m);
      assert msg != [];
      assert s.frames + [] == s.frames;
    } else {
      var n := Length(m);
      assert msg != [];
      SplitOne(m);
      var frame := m[3..][..n];
      var s' := Sock(None, [], s.frames + [frame]);
      assert frame == m[3..3 + n] && m[3..][n..] == m[3 + n..] && s'.partial + m[3 + n..] == m[3 + n..];
      CutMiscounts(s', m[3 + n..]);
      assert s.frames + ([frame] + SplitStream(m[3 + n..]).frames) == s'.frames + SplitStream(m[3 + n..]).frames;
    }
  }

  lemma {:induction false} FramesGrow(asWritten: bool, s: Sock, msg: Bytes)
    ensures Process(asWritten, s, msg).Some? ==> s.frames <= Process(asWritten, s, msg).value.frames
    decreases |s.partial| + |msg|, if s.incoming.Some? then 1 else 0
  {
    hide Length, Repeat;
    var m := s.partial + msg;
    if msg == [] {
    } else if s.incoming.None? {
      if |m| >= 3 && |m[3..]| >= Length(m) {
        FramesGrow(asWritten, Sock(None, [], s.frames + [m[3..][..Length(m)]]), m[3..][Length(m)..]);
      }
    } else {
      var b := s.incoming.value;
      var n := |b.buffer|;
      if b.received + |m| >= n && b.received <= n {
        var missing := n - b.received;
        FramesGrow(asWritten, Sock(None, [], s.frames + [b.buffer[..b.received] + m[..missing]]), m[missing..]);
      }
    }
  }

  lemma {:induction false} RunGrows(asWritten: bool, s: Sock, chunks: seq<Bytes>)
    ensures Run(asWritten, s, chunks).Some? ==> s.frames <= Run(asWritten, s, chunks).value.frames
    decreases |chunks|
  {
    hide Process;
    if chunks != [] {
      FramesGrow(asWritten, s, chunks[0]);
      if Process(asWritten, s, chunks[0]).Some? {
        RunGrows(asWritten, Process(asWritten, s, chunks[0]).value, chunks[1..]);
      }
    }
  }

  /** If the first frame of the stream is empty, the run delivers it and goes on with the rest. */
  lemma {:induction false} EmptyFirst(s: Sock, chunks: seq<Bytes>, frames: seq<Frame>)
    returns (s': Sock, chunks': seq<Bytes>)
    requires Idle(s) && frames != [] && frames[0] == [] && s.partial + Concat(chunks) == PrintAll(frames)
    ensures Idle(s') && s'.frames == s.frames + [[]] && s'.partial + Concat(chunks') == PrintAll(frames[1..])
    ensures Run(true, s, chunks) == Run(true, s', chunks')
    decreases |chunks|
  {
    hide Length, PrintAll;
    PrintedFirst(frames);
    assert chunks != [];
    var msg, rest := chunks[0], chunks[1..];
    var m := s.partial + msg;
    assert s.partial + Concat(chunks) == m + Concat(rest);
    if msg == [] || |m| < 3 {
      var s1 := if msg == [] then s else s.(partial := m);
      assert Process(true, s, msg) == Some(s1);
      s', chunks' := EmptyFirst(s1, rest, frames);
    } else {
      SameLength(m, Concat(rest));
      var body := m[3..];
      s', chunks' := Sock(None, [], s.frames + [[]]), [body] + rest;
      assert body[..0] == [] && body[0..] == body && chunks'[1..] == rest;
      assert Step(true, s, msg) == Some((s', body));
      assert Process(true, s, msg) == Process(true, s', body);
      assert (m + Concat(rest))[3..] == body + Concat(rest);
      assert s'.partial + Concat(chunks') == body + Concat(rest);
      assert PrintAll(frames)[3..] == [] + PrintAll(frames[1..]) == PrintAll(frames[1..]);
    }
  }

  lemma SameLength(m: Bytes, x: Bytes)
    requires |m| >= 3
    ensures Length(m + x) == Length(m)
  {
  }

  /** A run over a stream that starts with an empty frame never ends with only the other frames delivered. */
  lemma {:induction false} ShiftImpossible(s: Sock, chunks: seq<Bytes>, frames: seq<Frame>)
    requires Idle(s) && frames != [] && frames[0] == [] && s.partial + Concat(chunks) == PrintAll(frames)
    ensures Run(true, s, chunks).Some? ==> Run(true, s, chunks).value.frames != s.frames + frames[1..]
    decreases |frames|
  {
    hide Process, Run, PrintAll, Concat, Idle;
    var s', chunks' := EmptyFirst(s, chunks, frames);
    RunGrows(true, s', chunks');
    var r := Run(true, s, chunks);
    assert r.Some? ==> r.value.frames[|s.frames|] == [];
    if |frames| > 1 && frames[1] == [] {
      ShiftImpossible(s', chunks', frames[1..]);
      assert frames[1..] == [[]] + frames[1..][1..];
      assert s.frames + frames[1..] == s'.frames + frames[1..][1..];
    }
  }

  /** A sequence that equals itself moved by three places, with zeros moved in, is zero from there on. */
  lemma {:induction false} ZeroTail(body: Bytes, p: nat, i: nat)
    requires p + 3 <= |body| && p <= i < |body|
    requires body == body[..p] + [0, 0, 0] + body[p..|body| - 3]
    ensures body[i] == 0
    decreases i
  {
    if i >= p + 3 {
      assert body[i] == (body[..p] + [0, 0, 0] + body[p..|body| - 3])[i] == body[i - 3];
      ZeroTail(body, p, i - 3);
    } else {
      assert body[i] == (body[..p] + [0, 0, 0] + body[p..|body| - 3])[i];
    }
  }

  /** Three bytes too many are counted as received: c bytes of the body have arrived, the first p of them before the
      cut. */
  ghost predicate Miscounted(s: Sock, body: Frame, p: nat, c: nat) {
    && s.incoming.Some? && s.partial == [] && p <= c < |body|
    && |s.incoming.value.buffer| == |body| && s.incoming.value.received == c + 3
    && (c + 3 <= |body| ==> s.incoming.value.buffer[..c + 3] == body[..p] + [0, 0, 0] + body[p..c])
  }

  lemma MiscountedEnd(s: Sock, m: Bytes, x: Bytes, body: Frame, p: nat, c: nat, frames: seq<Frame>)
    requires Miscounted(s, body, p, c) && c + 3 <= |body| <= c + 3 + |m|
    requires m + x == body[c..] + PrintAll(frames)
    ensures var missing := |body| - c - 3;
      var frame := s.incoming.value.buffer[..c + 3] + m[..missing];
      && frame == body[..p] + [0, 0, 0] + body[p..|body| - 3]
      && (frame == body ==> m[missing..] + x == [0, 0, 0] + PrintAll(frames))
  {
    hide PrintAll;
    var missing, front, printed: Bytes := |body| - c - 3, body[..p] + [0, 0, 0] + body[p..c], PrintAll(frames);
    CutApart(m, x, body, c, missing, printed);
    Rejoined(body, p, c);
    assert front + m[..missing] == body[..p] + [0, 0, 0] + body[p..|body| - 3];
    if front + m[..missing] == body {
      LastThree(body, p);
    }
  }

  lemma CutApart(m: Bytes, x: Bytes, body: Bytes, c: nat, missing: nat, printed: Bytes)
    requires c + missing <= |body| && missing <= |m| && m + x == body[c..] + printed
    ensures m[..missing] == body[c..c + missing] && m[missing..] + x == body[c + missing..] + printed
  {
    assert m[..missing] == (m + x)[..missing] == (body[c..] + printed)[..missing] == body[c..][..missing];
    assert m[missing..] + x == (m + x)[missing..] == (body[c..] + printed)[missing..];
    assert (body[c..] + printed)[missing..] == body[c..][missing..] + printed;
  }

  lemma Rejoined(body: Bytes, p: nat, c: nat)
    requires p <= c && c + 3 <= |body|
    ensures body[..p] + [0, 0, 0] + body[p..c] + body[c..|body| - 3] == body[..p] + [0, 0, 0] + body[p..|body| - 3]
  {
    assert body[p..c] + body[c..|body| - 3] == body[p..|body| - 3];
  }

  lemma LastThree(body: Bytes, p: nat)
    requires p + 3 <= |body| && body == body[..p] + [0, 0, 0] + body[p..|body| - 3]
    ensures body[|body| - 3..] == [0, 0, 0]
  {
    ZeroTail(body, p, |body| - 3);
    ZeroTail(body, p, |body| - 2);
    ZeroTail(body, p, |body| - 1);
    assert body[|body| - 3..] == [body[|body| - 3], body[|body| - 2], body[|body| - 1]];
  }

  lemma Accumulates(s: Sock, m: Bytes)
    requires s.incoming.Some? && s.partial == [] && m != []
    requires s.incoming.value.received + |m| < |s.incoming.value.buffer|
    ensures var b, k := s.incoming.value, s.incoming.value.received + |m|;
      Process(true, s, m) == Some(Sock(Some(Body(b.buffer[..b.received] + m + b.buffer[k..], k)), [], s.frames))
  {
    hide Process;
    OneTurn(true, s, m);
    assert s.partial + m == m;
    var b, k := s.incoming.value, s.incoming.value.received + |m|;
    OneTurn(true, Sock(Some(Body(b.buffer[..b.received] + m + b.buffer[k..], k)), [], s.frames), []);
  }

  lemma MiscountedMore(s: Sock, m: Bytes, x: Bytes, body: Frame, p: nat, c: nat, frames: seq<Frame>)
    requires Miscounted(s, body, p, c) && c + 3 + |m| < |body| && m != []
    requires m + x == body[c..] + PrintAll(frames)
    ensures var s' := Process(true, s, m);
      && s'.Some? && Miscounted(s'.value, body, p, c + |m|) && s'.value.frames == s.frames
      && x == body[c + |m|..] + PrintAll(frames)
  {
    hide PrintAll, Process;
    var b, k := s.incoming.value, c + 3 + |m|;
    Accumulates(s, m);
    assert m == (m + x)[..|m|] == body[c..][..|m|] == body[c..c + |m|];
    var buffer := b.buffer[..c + 3] + m + b.buffer[k..];
    assert buffer[..k] == b.buffer[..c + 3] + m;
    assert body[p..c] + body[c..c + |m|] == body[p..c + |m|];
    assert x == (m + x)[|m|..] == body[c + |m|..] + PrintAll(frames);
  }

  lemma PrintedEmpty(frames: seq<Frame>)
    ensures var all: seq<Frame> := [[]] + frames;
      PrintAll(all) == [0, 0, 0] + PrintAll(frames) && all[1..] == frames
  {
    var all: seq<Frame> := [[]] + frames;
    assert all[1..] == frames && all[0] == [];
    assert BigEndian(0, 3) == BigEndian(0, 2) + [0] && BigEndian(0, 2) == BigEndian(0, 1) + [0];
    assert BigEndian(0, 1) == BigEndian(0, 0) + [0];
    assert PrintFrame([]) == [0, 0, 0] + [] == [0, 0, 0];
  }

  lemma MiscountedShape(s: Sock, body: Frame, p: nat, c: nat)
    requires Miscounted(s, body, p, c)
    ensures s.incoming.Some? && s.partial == [] && p <= c < |body|
    ensures |s.incoming.value.buffer| == |body| && s.incoming.value.received == c + 3
  {
  }

  lemma TooManyPanics(s: Sock, m: Bytes, body: Frame, p: nat, c: nat)
    requires Miscounted(s, body, p, c) && c + 3 > |body| && m != []
    ensures Process(true, s, m).None?
  {
    hide Process;
    OneTurn(true, s, m);
  }

  /** After a cut inside a body the run panics, delivers a wrong frame, or delivers an empty frame too many. */
  lemma {:induction false} MiscountNeverRecovers(
    s: Sock, chunks: seq<Bytes>, body: Frame, p: nat, c: nat, frames: seq<Frame>)
    requires Miscounted(s, body, p, c) && Concat(chunks) == body[c..] + PrintAll(frames)
    ensures Run(true, s, chunks).Some? ==> Run(true, s, chunks).value.frames != s.frames + [body] + frames
    decreases |chunks|
  {
    hide PrintAll, Process, Step, Miscounted;
    MiscountedShape(s, body, p, c);
    assert chunks != [];
    var m, rest := chunks[0], chunks[1..];
    OneTurn(true, s, m);
    if m == [] {
      assert Concat(chunks) == Concat(rest);
      MiscountNeverRecovers(s, rest, body, p, c, frames);
    } else if c + 3 > |body| {
      TooManyPanics(s, m, body, p, c);
    } else if c + 3 + |m| >= |body| {
      MiscountedEnd(s, m, Concat(rest), body, p, c, frames);
      var missing := |body| - c - 3;
      var frame := s.incoming.value.buffer[..c + 3] + m[..missing];
      var s' := Sock(None, [], s.frames + [frame]);
      var chunks' := [m[missing..]] + rest;
      assert chunks'[1..] == rest && Concat(chunks') == m[missing..] + Concat(rest);
      BodyTurn(true, s, m, missing);
      assert Run(true, s, chunks) == Run(true, s', chunks');
      MiscountedDelivered(s, s', chunks', body, frame, frames);
    } else {
      MiscountedMore(s, m, Concat(rest), body, p, c, frames);
      MiscountNeverRecovers(Process(true, s, m).value, rest, body, p, c + |m|, frames);
    }
  }

  lemma MiscountedDelivered(s: Sock, s': Sock, chunks: seq<Bytes>, body: Frame, frame: Bytes, frames: seq<Frame>)
    requires s' == Sock(None, [], s.frames + [frame])
    requires frame == body ==> Concat(chunks) == [0, 0, 0] + PrintAll(frames)
    ensures Run(true, s', chunks).Some? ==> Run(true, s', chunks).value.frames != s.frames + [body] + frames
  {
    hide Run, Process, PrintAll, Concat;
    RunGrows(true, s', chunks);
    if frame == body {
      PrintedEmpty(frames);
      assert s'.partial + Concat(chunks) == Concat(chunks);
      ShiftImpossible(s', chunks, [[]] + frames);
    } else if Run(true, s', chunks).Some? {
      assert Run(true, s', chunks).value.frames[|s.frames|] == frame;
      assert (s.frames + [body] + frames)[|s.frames|] == body;
    }
  }

  /** A prefix of a printed stream splits into the first frames and the beginning of the others. */
  lemma {:induction false} SplitPrefix(d: Bytes, x: Bytes, frames: seq<Frame>) returns (j: nat)
    requires d + x == PrintAll(frames)
    ensures j <= |frames| && SplitStream(d).frames == frames[..j] && SplitStream(d).rest + x == PrintAll(frames[j..])
    decreases |frames|
  {
    hide Length, SplitStream, PrintAll;
    if |d| < 3 || |d| - 3 < Length(d) {
      SplitNone(d);
      j := 0;
      assert frames[0..] == frames;
    } else {
      NothingPrinted();
      assert frames != [];
      PrintedFirst(frames);
      SameLength(d, x);
      SplitOne(d);
      var n := Length(d);
      assert d[3 + n..] + x == (d + x)[3 + n..] && d[3..3 + n] == (d + x)[3..3 + n];
      var k := SplitPrefix(d[3 + n..], x, frames[1..]);
      j := k + 1;
      assert frames[..j] == [frames[0]] + frames[1..][..k] && frames[j..] == frames[1..][k..];
    }
  }

  lemma NothingPrinted()
    ensures PrintAll([]) == []
  {
  }

  /** The beginning of a frame whose body has not arrived completely. */
  lemma CutInside(rest: Bytes, x: Bytes, frames: seq<Frame>)
    requires rest + x == PrintAll(frames) && |rest| >= 3 && |rest| - 3 < Length(rest)
    ensures frames != [] && Length(rest) == |frames[0]|
    ensures var p := |rest| - 3;
      rest[3..] == frames[0][..p] && x == frames[0][p..] + PrintAll(frames[1..])
  {
    hide Length, PrintAll;
    NothingPrinted();
    assert frames != [];
    PrintedFirst(frames);
    SameLength(rest, x);
    var p: nat, body: Bytes, more: Bytes := |rest| - 3, frames[0], PrintAll(frames[1..]);
    assert (rest + x)[3..] == rest[3..] + x == body + more;
    assert rest[3..] == (rest[3..] + x)[..p] == (body + more)[..p] == body[..p];
    assert x == (rest[3..] + x)[p..] == (body + more)[p..] == body[p..] + more;
  }

  /** As the code counts, a printed stream is reassembled exactly when no chunk ends inside a body. */
  lemma {:induction false} ReassemblyAsWritten(s: Sock, chunks: seq<Bytes>, frames: seq<Frame>)
    requires Idle(s) && s.partial + Concat(chunks) == PrintAll(frames)
    ensures var r := Run(true, s, chunks);
      (r.Some? && r.value.frames == s.frames + frames) <==> CleanCuts(s.partial, chunks)
    decreases |chunks|
  {
    hide Length, SplitStream, PrintAll, Process, Repeat;
    if chunks == [] {
      ShortStream(s.partial, frames);
      assert s.frames + [] == s.frames;
    } else {
      var d, x := s.partial + chunks[0], Concat(chunks[1..]);
      assert d + x == s.partial + Concat(chunks);
      var j := SplitPrefix(d, x, frames);
      var split := SplitStream(d);
      if |split.rest| < 3 {
        CleanSame(s, chunks[0]);
        ProcessSplits(s, chunks[0]);
        var s' := Process(false, s, chunks[0]).value;
        assert s'.partial == split.rest;
        ReassemblyAsWritten(s', chunks[1..], frames[j..]);
        assert s'.frames + frames[j..] == s.frames + (frames[..j] + frames[j..]) == s.frames + frames;
      } else {
        CutMiscounts(s, chunks[0]);
        CutInside(split.rest, x, frames[j..]);
        var body := frames[j];
        var p := |split.rest| - 3;
        var s' := Process(true, s, chunks[0]).value;
        assert Miscounted(s', body, p, p) by {
          ZerosMovedIn(body, p);
        }
        assert frames[j..][1..] == frames[j + 1..];
        MiscountNeverRecovers(s', chunks[1..], body, p, p, frames[j + 1..]);
        assert s'.frames + [body] + frames[j + 1..] ==
          s.frames + (frames[..j] + [body] + frames[j + 1..]) == s.frames + frames;
      }
    }
  }

  lemma ZerosMovedIn(body: Frame, p: nat)
    requires p < |body|
    ensures var buffer := body[..p] + Repeat(0, |body| - p);
      p + 3 <= |body| ==> buffer[..p + 3] == body[..p] + [0, 0, 0] + body[p..p]
  {
  }

  lemma ShortStream(d: Bytes, frames: seq<Frame>)
    requires d == PrintAll(frames) && |d| < 3
    ensures frames == []
  {
    if frames != [] {
      PrintedFirst(frames);
      assert false;
    }
  }

  const HEAD: Bytes := [0, 0, 2, 7]
  const CUT: Sock := Sock(Some(Body([7] + Repeat(0, 1), 4)), [], [])

  lemma HeadMiscounts()
    ensures Process(true, INIT, HEAD) == Some(CUT)
  {
    assert INIT.partial + HEAD == HEAD && HEAD[3..] == [7];
    assert Length(HEAD) == 2;
  }

  lemma TailPanics()
    ensures Process(true, CUT, [8]) == None
  {
    assert CUT.partial + [8] == [8];
  }

  lemma PrintTwoBytes()
    ensures PrintAll([[7, 8]]) == HEAD + [8]
  {
    var f: Frame := [7, 8];
    assert [f][1..] == [];
    assert PrintAll([f]) == PrintFrame(f) + PrintAll([]) == PrintFrame(f);
    assert BigEndian(2, 3) == BigEndian(0, 2) + [2] && BigEndian(0, 2) == BigEndian(0, 1) + [0];
    assert BigEndian(0, 1) == BigEndian(0, 0) + [0];
  }

  /** A two-byte body cut in the middle makes the code as written panic. */
  lemma CutBodyPanics()
    ensures Concat([HEAD, [8]]) == PrintAll([[7, 8]]) && Run(true, INIT, [HEAD, [8]]) == None
  {
    hide Process, PrintAll;
    HeadMiscounts();
    TailPanics();
    PrintTwoBytes();
    var chunks := [HEAD, [8]];
    assert chunks[1..] == [[8]];
    assert Run(true, CUT, [[8]]) == None;
    assert Concat([[8]]) == [8] + Concat([]) == [8];
  }
}
