/** The stateful encoder and decoder of `binary/encoder.go`, `binary/decoder.go` and `binary/node.go`, each method
    proved against the functions of `BinaryXml`. */
module BinaryCodec {
  import opened Bytes
  import opened BinaryXml
  import opened BinaryRoundTrip

  class BinaryEncoder {
    const tok: Tokens
    var data: Bytes

    constructor (tok: Tokens)
      ensures this.tok == tok && data == [0]
    {
      this.tok, data := tok, [0];
    }

    method PushByte(b: byte)
      modifies this
      ensures data == old(data) + [b]
    {
      data := data + [b];
    }

    method PushBytes(bytes: Bytes)
      modifies this
      ensures data == old(data) + bytes
    {
      data := data + bytes;
    }

    method PushIntN(value: nat, n: nat)
      modifies this
      ensures data == old(data) + BigEndian(value, n)
    {
      hide BigEndian;
      var i := 0;
      while i < n
        invariant i <= n && data == old(data) + BigEndian(value, n)[..i]
      {
        BigEndianAt(value, n, i);
        assert BigEndian(value, n)[..i + 1] == BigEndian(value, n)[..i] + [BigEndian(value, n)[i]];
        PushByte(value / Power256(n - i - 1) % 0x100);
        i := i + 1;
      }
    }

    method PushInt20(value: nat)
      modifies this
      ensures data == old(data) + Int20(value)
    {
      PushBytes([value / 0x1_0000 % 16, value / 0x100 % 0x100, value % 0x100]);
    }

    method WriteByteLength(length: nat)
      requires length < MAX_INT32
      modifies this
      ensures data == old(data) + EncByteLength(length)
    {
      hide BigEndian, Int20;
      if length < 0x100 {
        PushByte(BINARY_8);
        PushIntN(length, 1);
      } else if length < 0x10_0000 {
        PushByte(BINARY_20);
        PushInt20(length);
      } else {
        PushByte(BINARY_32);
        PushIntN(length, 4);
      }
    }

    method WriteBytes(value: Bytes)
      requires |value| < MAX_INT32
      modifies this
      ensures data == old(data) + EncRaw(value)
    {
      hide EncByteLength;
      WriteByteLength(|value|);
      PushBytes(value);
      assert data == old(data) + (EncByteLength(|value|) + value);
    }

    method ValidatePacked(value: Bytes, hex: bool) returns (ok: bool)
      ensures ok == ValidPacked(value, hex)
    {
      if |value| > PACKED_MAX {
        return false;
      }
      for i := 0 to |value|
        invariant forall k :: 0 <= k < i ==> if hex then IsHex(value[k]) else IsNibble(value[k])
      {
        if !(if hex then IsHex(value[i]) else IsNibble(value[i])) {
          return false;
        }
      }
      return true;
    }

    method WritePackedBytes(value: Bytes, hex: bool)
      requires ValidPacked(value, hex)
      modifies this
      ensures data == old(data) + EncPacked(value, hex)
    {
      hide PackBytePair, PackPairs, PackedLength, IsHex, IsNibble, Packable;
      PackableCharacters(value, hex);
      PushByte(if hex then HEX_8 else NIBBLE_8);
      PushByte(PackedLength(|value|));
      ghost var before := data;
      ghost var pairs := PackPairs(value, hex);
      PackNoPairs(hex);
      var i := 0;
      while i < |value| / 2
        invariant i <= |value| / 2
        invariant data + PackPairs(value[2 * i..], hex) == before + pairs
      {
        PackFirst(value[2 * i..], hex);
        assert AfterPair(value[2 * i..]) == value[2 * (i + 1)..] && SecondOf(value[2 * i..]) == value[2 * i + 1];
        ghost var left := PackPairs(value[2 * (i + 1)..], hex);
        assert data + ([PackBytePair(hex, value[2 * i], value[2 * i + 1])] + left) ==
          (data + [PackBytePair(hex, value[2 * i], value[2 * i + 1])]) + left;
        PushByte(PackBytePair(hex, value[2 * i], value[2 * i + 1]));
        i := i + 1;
      }
      if |value| % 2 != 0 {
        PackFirst(value[2 * i..], hex);
        assert AfterPair(value[2 * i..]) == [];
        PushByte(PackBytePair(hex, value[|value| - 1], 0));
      }
      assert data == before + pairs;
    }

    method WriteString(s: Bytes)
      requires ValidTokens(tok) && |s| < MAX_INT32
      modifies this
      ensures data == old(data) + EncString(tok, s)
    {
      hide EncPacked, EncRaw, ValidPacked;
      var single := SingleIndex(tok, s);
      if single.Some? {
        PushByte(single.value);
        return;
      }
      var double := DoubleIndex(tok.double, s);
      if double.Some? {
        PushByte(Dictionary(double.value.0));
        PushByte(double.value.1);
        return;
      }
      var nibble := ValidatePacked(s, false);
      if nibble {
        WritePackedBytes(s, false);
        return;
      }
      var hex := ValidatePacked(s, true);
      if hex {
        WritePackedBytes(s, true);
      } else {
        WriteBytes(s);
      }
    }

    method WriteJID(jid: JID)
      requires ValidTokens(tok) && |jid.user| < MAX_INT32 && |jid.server| < MAX_INT32
      modifies this
      ensures data == old(data) + EncJID(tok, jid)
    {
      hide EncString, BigEndian, IsAD, ActualAgent, Ascii, ValidTokens;
      if IsAD(jid) {
        PushByte(AD_JID);
        PushByte(ActualAgent(jid));
        PushByte(jid.device % 0x100);
        WriteString(jid.user);
        assert data == old(data) + ([AD_JID, ActualAgent(jid), jid.device % 0x100] + EncString(tok, jid.user));
      } else if jid.server == MESSENGER_SERVER {
        PushByte(FB_JID);
        WriteString(jid.user);
        PushIntN(jid.device, 2);
        WriteString(jid.server);
        assert data == old(data) +
          ([FB_JID] + EncString(tok, jid.user) + BigEndian(jid.device, 2) + EncString(tok, jid.server));
      } else if jid.server == INTEROP_SERVER {
        PushByte(INTEROP_JID);
        WriteString(jid.user);
        PushIntN(jid.device, 2);
        PushIntN(jid.integrator, 2);
        WriteString(jid.server);
        assert data == old(data) + ([INTEROP_JID] + EncString(tok, jid.user) + BigEndian(jid.device, 2) +
          BigEndian(jid.integrator, 2) + EncString(tok, jid.server));
      } else {
        PushByte(JID_PAIR);
        if |jid.user| == 0 {
          PushByte(LIST_EMPTY);
        } else {
          WriteString(jid.user);
        }
        WriteString(jid.server);
      }
    }

    method WriteListStart(listSize: nat)
      modifies this
      ensures data == old(data) + ListStart(listSize)
    {
      hide BigEndian;
      if listSize == 0 {
        PushByte(LIST_EMPTY);
      } else if listSize < 0x100 {
        PushByte(LIST_8);
        PushIntN(listSize, 1);
      } else {
        PushByte(LIST_16);
        PushIntN(listSize, 2);
      }
    }

    method CountAttributes(attrs: seq<Attr>) returns (count: nat)
      ensures count == CountAttrs(attrs)
    {
      count := 0;
      for i := 0 to |attrs|
        invariant count + CountAttrs(attrs[i..]) == CountAttrs(attrs)
      {
        assert attrs[i..][1..] == attrs[i + 1..];
        if !Dropped(attrs[i].value) {
          count := count + 1;
        }
      }
    }

    method WriteAttributes(attrs: seq<Attr>)
      requires ValidTokens(tok) && FitsAttrs(attrs, false)
      modifies this
      ensures data == old(data) + EncAttrs(tok, attrs)
      decreases attrs, 0
    {
      hide EncString, EncValue, FitsValue, ValidTokens;
      for i := 0 to |attrs|
        invariant FitsAttrs(attrs[i..], false)
        invariant data + EncAttrs(tok, attrs[i..]) == old(data) + EncAttrs(tok, attrs)
      {
        assert attrs[i..][0] == attrs[i] && attrs[i..][1..] == attrs[i + 1..];
        if !Dropped(attrs[i].value) {
          ghost var before := data;
          WriteString(attrs[i].key);
          Write(attrs[i].value);
          assert data + EncAttrs(tok, attrs[i + 1..]) ==
            before + (EncString(tok, attrs[i].key) + EncValue(tok, attrs[i].value) + EncAttrs(tok, attrs[i + 1..]));
        }
      }
    }

    method WriteNodes(nodes: seq<Node>)
      requires ValidTokens(tok) && FitsNodes(nodes, false)
      modifies this
      ensures data == old(data) + EncNodes(tok, nodes)
      decreases nodes, 0
    {
      hide EncNode, FitsNode, ValidTokens;
      for i := 0 to |nodes|
        invariant FitsNodes(nodes[i..], false)
        invariant data + EncNodes(tok, nodes[i..]) == old(data) + EncNodes(tok, nodes)
      {
        assert nodes[i..][0] == nodes[i] && nodes[i..][1..] == nodes[i + 1..];
        ghost var before := data;
        WriteNode(nodes[i]);
        assert data + EncNodes(tok, nodes[i + 1..]) ==
          before + (EncNode(tok, nodes[i]) + EncNodes(tok, nodes[i + 1..]));
      }
    }

    method Write(v: Value)
      requires ValidTokens(tok) && FitsValue(v, false)
      modifies this
      ensures data == old(data) + EncValue(tok, v)
      decreases v, 0
    {
      hide EncString, EncRaw, EncJID, EncNodes, FitsNodes, ListStart, Itoa, ValidTokens;
      match v {
        case Nil => PushByte(LIST_EMPTY);
        case Text(s) => WriteString(s);
        case Address(jid) => WriteJID(jid);
        case Number(n) => WriteString(Itoa(n));
        case Flag(b) => WriteString(FlagText(b));
        case Data(b) => WriteBytes(b);
        case Children(nodes) =>
          WriteListStart(|nodes|);
          WriteNodes(nodes);
          assert data == old(data) + (ListStart(|nodes|) + EncNodes(tok, nodes));
      }
    }

    method WriteNode(n: Node)
      requires ValidTokens(tok) && FitsNode(n, false)
      modifies this
      ensures data == old(data) + EncNode(tok, n)
      decreases n, 0
    {
      hide EncString, EncValue, EncAttrs, FitsAttrs, FitsValue, ListStart, CountAttrs, ValidTokens;
      if n.tag == ZERO_TAG {
        PushByte(LIST_8);
        PushByte(LIST_EMPTY);
        return;
      }
      var hasContent := if n.content.Nil? then 0 else 1;
      var count := CountAttributes(n.attrs);
      WriteListStart(2 * count + 1 + hasContent);
      WriteString(n.tag);
      WriteAttributes(n.attrs);
      if !n.content.Nil? {
        Write(n.content);
      }
    }
  }

  lemma PackNoPairs(hex: bool)
    ensures PackPairs([], hex) == []
  {
  }

  lemma {:induction false} BigEndianAt(value: nat, n: nat, i: nat)
    requires i < n
    ensures BigEndian(value, n)[i] == value / Power256(n - i - 1) % 0x100
  {
    if i < n - 1 {
      BigEndianAt(value / 0x100, n - 1, i);
      var p := Power256(n - i - 2);
      assert Power256(n - i - 1) == 0x100 * p;
      DivideTwice(value, p);
    }
  }

  lemma DivideTwice(value: nat, p: nat)
    requires p > 0
    ensures value / 0x100 / p == value / (0x100 * p)
  {
    var q, r := value / 0x100 / p, value / 0x100 % p;
    assert value / 0x100 == q * p + r;
    var rest := 0x100 * r + value % 0x100;
    assert value == 0x100 * (q * p + r) + value % 0x100 == (0x100 * p) * q + rest;
    assert 0 <= rest < 0x100 * p;
    QuotientIs(value, 0x100 * p, q, rest);
  }

  lemma QuotientIs(value: nat, d: nat, q: nat, r: nat)
    requires d > 0 && value == d * q + r && r < d
    ensures value / d == q
  {
    var k := value / d - q;
    assert value == d * (value / d) + value % d;
    assert k * d == r - value % d;
    if k > 0 {
      Multiple(k, d);
    } else if k < 0 {
      Multiple(-k, d);
    }
  }

  lemma Multiple(k: int, d: int)
    requires k > 0 && d > 0
    ensures k * d >= d && (-k) * d <= -d
  {
    var j := k - 1;
    assert j * d >= 0 && k * d == j * d + d && (-k) * d == -(k * d);
  }

  method Marshal(tok: Tokens, n: Node) returns (data: Bytes)
    requires ValidTokens(tok) && FitsNode(n, false)
    ensures data == [0] + EncNode(tok, n)
  {
    var w := new BinaryEncoder(tok);
    w.WriteNode(n);
    return w.data;
  }

  // ----- The decoder -----

  /** What a loop has read so far, in front of what is still to be read. */
  ghost function Prepend<T>(done: seq<T>, more: Parsed<seq<T>>): Parsed<seq<T>> {
    match more
    case Fail(e) => Fail(e)
    case Done(s, rest) => Done(done + s, rest)
  }

  class BinaryDecoder {
    const tok: Tokens
    const data: Bytes
    var index: nat

    constructor (tok: Tokens, data: Bytes)
      ensures this.tok == tok && this.data == data && index == 0
    {
      this.tok, this.data, index := tok, data, 0;
    }

    ghost predicate Valid()
      reads this
    {
      index <= |data|
    }

    ghost function Left(): Bytes
      requires Valid()
      reads this
    {
      data[index..]
    }

    /** The method's outcome is the function's, and on success the index stands where the function stopped. */
    ghost predicate Agrees<T>(p: Parsed<T>, r: Result<T, Error>)
      requires Valid()
      reads this
    {
      match p
      case Fail(e) => r == Err(e)
      case Done(v, rest) => r == Ok(v) && Left() == rest
    }

    method ReadByte() returns (r: Result<byte, Error>)
      requires Valid()
      modifies this
      ensures Valid() && old(index) <= index
      ensures if old(Left()) == [] then r == Err(EOF) else r == Ok(old(Left())[0]) && Left() == old(Left())[1..]
    {
      if index + 1 > |data| {
        return Err(EOF);
      }
      var b := data[index];
      index := index + 1;
      return Ok(b);
    }

    method ReadIntN(n: nat) returns (r: Result<nat, Error>)
      requires Valid()
      modifies this
      ensures Valid() && old(index) <= index
      ensures Agrees(ReadInt(old(Left()), n), r)
    {
      hide FromBigEndian;
      if index + n > |data| {
        return Err(EOF);
      }
      var ret := 0;
      NothingRead();
      assert data[index..index] == [];
      for i := 0 to n
        invariant index == old(index)
        invariant ret == FromBigEndian(data[index..index + i]) * Power256(n - i)
      {
        ReadOneMore(data[index..index + i], data[index + i], Power256(n - i - 1));
        assert data[index..index + i + 1] == data[index..index + i] + [data[index + i]];
        ret := ret + data[index + i] * Power256(n - i - 1);
      }
      assert data[index..][..n] == data[index..index + n];
      index := index + n;
      return Ok(ret);
    }

    method ReadInt20Bits() returns (r: Result<nat, Error>)
      requires Valid()
      modifies this
      ensures Valid() && old(index) <= index
      ensures Agrees(ReadInt20(old(Left())), r)
    {
      if index + 3 > |data| {
        return Err(EOF);
      }
      var a: int, b: int, c: int := data[index], data[index + 1], data[index + 2];
      index := index + 3;
      return Ok(a % 16 * 0x1_0000 + b * 0x100 + c);
    }

    method ReadPacked8(hex: bool) returns (r: Result<XValue, Error>)
      requires Valid()
      modifies this
      ensures Valid() && old(index) <= index
      ensures Agrees(ReadPacked(old(Left()), hex), r)
    {
      hide UnpackByte;
      var start := ReadByte();
      if start.Err? {
        return Err(start.error);
      }
      var n := start.value % 128;
      var build: Bytes := [];
      ghost var from := index;
      PrependTwice([], [], UnpackPairs(Left(), n, hex));
      var i := 0;
      while i < n
        invariant i <= n && Valid() && from <= index
        invariant UnpackPairs(data[from..], n, hex) == Prepend(build, UnpackPairs(Left(), n - i, hex))
      {
        ghost var left := Left();
        var b := ReadByte();
        if b.Err? {
          return Err(b.error);
        }
        var lower, upper := UnpackByte(b.value / 16, hex), UnpackByte(b.value % 16, hex);
        if lower.None? || upper.None? {
          return Err(BadPacked);
        }
        PrependTwice(build, [lower.value, upper.value], UnpackPairs(Left(), n - i - 1, hex));
        build := build + [lower.value, upper.value];
        i := i + 1;
      }
      assert build + [] == build;
      if start.value / 128 != 0 {
        if |build| == 0 {
          return Err(Panic);
        }
        build := build[..|build| - 1];
      }
      return Ok(XText(build));
    }

    method ReadBytesOrString(length: nat, asString: bool) returns (r: Result<XValue, Error>)
      requires Valid()
      modifies this
      ensures Valid() && old(index) <= index
      ensures Agrees(ReadSized(Done(length, old(Left())), asString), r)
    {
      if index + length > |data| {
        return Err(EOF);
      }
      var raw := data[index..index + length];
      assert data[index..][..length] == raw;
      index := index + length;
      return Ok(if asString then XText(raw) else XData(raw));
    }

    method ReadListSizeOf(tag: byte) returns (r: Result<nat, Error>)
      requires Valid()
      modifies this
      ensures Valid() && old(index) <= index
      ensures Agrees(ReadListSize(tag, old(Left())), r)
    {
      hide ReadInt;
      if tag == LIST_EMPTY {
        return Ok(0);
      } else if tag == LIST_8 {
        r := ReadIntN(1);
      } else if tag == LIST_16 {
        r := ReadIntN(2);
      } else {
        return Err(UnknownListTag);
      }
    }

    method ReadValue(asString: bool) returns (r: Result<XValue, Error>)
      requires Valid()
      modifies this
      ensures Valid() && old(index) <= index && (r.Ok? ==> old(index) < index)
      ensures Agrees(Read(tok, old(Left()), asString), r)
      decreases |data| - index, 0, 0
    {
      hide ReadList, BinaryXml.ReadFBJID, BinaryXml.ReadInteropJID, BinaryXml.ReadJIDPair, BinaryXml.ReadADJID,
        ReadPacked, ReadInt, ReadInt20;
      var tagByte := ReadByte();
      if tagByte.Err? {
        return Err(tagByte.error);
      }
      var tag := tagByte.value;
      if tag == LIST_EMPTY {
        return Ok(XNil);
      } else if tag == LIST_8 || tag == LIST_16 {
        r := ReadListOf(tag);
      } else if tag == BINARY_8 || tag == BINARY_20 || tag == BINARY_32 {
        var size: Result<nat, Error>;
        if tag == BINARY_20 {
          size := ReadInt20Bits();
        } else {
          size := ReadIntN(if tag == BINARY_8 then 1 else 4);
        }
        if size.Err? {
          return Err(size.error);
        }
        r := ReadBytesOrString(size.value, asString);
      } else if DICTIONARY_0 <= tag <= DICTIONARY_3 {
        var i := ReadIntN(1);
        if i.Err? {
          return Err(i.error);
        }
        var dict := tag - DICTIONARY_0;
        if dict < |tok.double| && i.value < |tok.double[dict]| {
          return Ok(XText(tok.double[dict][i.value]));
        }
        return Err(NoSuchToken);
      } else if tag == FB_JID {
        r := ReadFBJID();
      } else if tag == INTEROP_JID {
        r := ReadInteropJID();
      } else if tag == JID_PAIR {
        r := ReadJIDPair();
      } else if tag == AD_JID {
        r := ReadADJID();
      } else if tag == NIBBLE_8 || tag == HEX_8 {
        r := ReadPacked8(tag == HEX_8);
      } else if tag < |tok.single| {
        return Ok(XText(tok.single[tag]));
      } else {
        return Err(InvalidToken);
      }
    }

    method ReadJIDPair() returns (r: Result<XValue, Error>)
      requires Valid()
      modifies this
      ensures Valid() && old(index) <= index
      ensures Agrees(BinaryXml.ReadJIDPair(tok, old(Left())), r)
      decreases |data| - index, 1, 0
    {
      hide Read;
      var user := ReadValue(true);
      if user.Err? {
        return user;
      }
      var server := ReadValue(true);
      if server.Err? {
        return server;
      } else if server.value.XNil? {
        return Err(InvalidJIDType);
      } else if !server.value.XText? || !(user.value.XNil? || user.value.XText?) {
        return Err(Panic);
      } else if user.value.XNil? {
        return Ok(XAddress(JID([], 0, 0, 0, server.value.s)));
      }
      return Ok(XAddress(JID(user.value.s, 0, 0, 0, server.value.s)));
    }

    method ReadInteropJID() returns (r: Result<XValue, Error>)
      requires Valid()
      modifies this
      ensures Valid() && old(index) <= index
      ensures Agrees(BinaryXml.ReadInteropJID(tok, old(Left())), r)
      decreases |data| - index, 1, 0
    {
      hide Read, FromBigEndian, Ascii;
      var user := ReadValue(true);
      if user.Err? {
        return user;
      }
      ghost var d1 := Left();
      var device := ReadIntN(2);
      if device.Err? {
        return Err(device.error);
      }
      var integrator := ReadIntN(2);
      if integrator.Err? {
        return Err(integrator.error);
      }
      assert d1[2..][..2] == d1[2..4] && d1[2..][2..] == d1[4..];
      TwoBytesRead(d1[..2]);
      TwoBytesRead(d1[2..4]);
      var server := ReadValue(true);
      if server.Err? {
        return server;
      } else if server.value != XText(INTEROP_SERVER) {
        return Err(InvalidJIDType);
      } else if !user.value.XText? {
        return Err(Panic);
      }
      return Ok(XAddress(JID(user.value.s, 0, device.value, integrator.value, INTEROP_SERVER)));
    }

    method ReadFBJID() returns (r: Result<XValue, Error>)
      requires Valid()
      modifies this
      ensures Valid() && old(index) <= index
      ensures Agrees(BinaryXml.ReadFBJID(tok, old(Left())), r)
      decreases |data| - index, 1, 0
    {
      hide Read, FromBigEndian, Ascii;
      var user := ReadValue(true);
      if user.Err? {
        return user;
      }
      ghost var d1 := Left();
      var device := ReadIntN(2);
      if device.Err? {
        return Err(device.error);
      }
      TwoBytesRead(d1[..2]);
      var server := ReadValue(true);
      if server.Err? {
        return server;
      } else if server.value != XText(MESSENGER_SERVER) {
        return Err(InvalidJIDType);
      } else if !user.value.XText? {
        return Err(Panic);
      }
      return Ok(XAddress(JID(user.value.s, 0, device.value, 0, server.value.s)));
    }

    method ReadADJID() returns (r: Result<XValue, Error>)
      requires Valid()
      modifies this
      ensures Valid() && old(index) <= index
      ensures Agrees(BinaryXml.ReadADJID(tok, old(Left())), r)
      decreases |data| - index, 1, 0
    {
      hide Read, NewADJID;
      ghost var d := Left();
      var agent := ReadByte();
      if agent.Err? {
        return Err(agent.error);
      }
      var device := ReadByte();
      if device.Err? {
        return Err(device.error);
      }
      assert Left() == d[2..];
      var user := ReadValue(true);
      if user.Err? {
        return user;
      } else if !user.value.XText? {
        return Err(Panic);
      }
      return Ok(XAddress(NewADJID(user.value.s, agent.value, device.value)));
    }

    method ReadAttributes(n: nat) returns (r: Result<map<Bytes, XValue>, Error>)
      requires Valid()
      modifies this
      ensures Valid() && old(index) <= index
      ensures Agrees(ReadAttrs(tok, n, old(Left()), map[]), r)
      decreases |data| - index, 1, n
    {
      hide Read;
      var ret := map[];
      var i := 0;
      while i < n
        invariant i <= n && Valid() && old(index) <= index
        invariant ReadAttrs(tok, n, old(Left()), map[]) == ReadAttrs(tok, n - i, Left(), ret)
      {
        var key := ReadValue(true);
        if key.Err? {
          return Err(key.error);
        } else if !key.value.XText? {
          return Err(NonStringKey);
        }
        var value := ReadValue(true);
        if value.Err? {
          return Err(value.error);
        }
        ret := ret[key.value.s := value.value];
        i := i + 1;
      }
      return Ok(ret);
    }

    method ReadListOf(tag: byte) returns (r: Result<XValue, Error>)
      requires Valid()
      modifies this
      ensures Valid() && old(index) <= index
      ensures Agrees(ReadList(tok, tag, old(Left())), r)
      decreases |data| - index, 3, 0
    {
      hide ReadNode, ReadListSize;
      var size := ReadListSizeOf(tag);
      if size.Err? {
        return Err(size.error);
      }
      var ret: seq<XNode> := [];
      ghost var from := index;
      PrependTwice([], [], ReadNodes(tok, size.value, Left()));
      var i := 0;
      while i < size.value
        invariant i <= size.value && Valid() && from <= index
        invariant ReadNodes(tok, size.value, data[from..]) == Prepend(ret, ReadNodes(tok, size.value - i, Left()))
      {
        var n := ReadOneNode();
        if n.Err? {
          return Err(n.error);
        }
        PrependTwice(ret, [n.value], ReadNodes(tok, size.value - i - 1, Left()));
        ret := ret + [n.value];
        i := i + 1;
      }
      assert ret + [] == ret;
      return Ok(XChildren(ret));
    }

    method ReadOneNode() returns (r: Result<XNode, Error>)
      requires Valid()
      modifies this
      ensures Valid() && old(index) <= index && (r.Ok? ==> old(index) < index)
      ensures Agrees(ReadNode(tok, old(Left())), r)
      decreases |data| - index, 1, 0
    {
      hide Read, ReadAttrs, ReadListSize, ReadInt;
      var size := ReadIntN(1);
      if size.Err? {
        return Err(size.error);
      }
      OneByteValue(old(Left()));
      var listSize := ReadListSizeOf(size.value);
      if listSize.Err? {
        return Err(listSize.error);
      }
      var rawDesc := ReadValue(true);
      if rawDesc.Err? {
        return Err(rawDesc.error);
      } else if !rawDesc.value.XText? {
        return Err(Panic);
      } else if listSize.value == 0 || rawDesc.value.s == [] {
        return Err(InvalidNode);
      }
      var attrs := ReadAttributes((listSize.value - 1) / 2);
      if attrs.Err? {
        return Err(attrs.error);
      } else if listSize.value % 2 == 1 {
        return Ok(XNode(rawDesc.value.s, attrs.value, XNil));
      }
      var content := ReadValue(false);
      if content.Err? {
        return Err(content.error);
      }
      return Ok(XNode(rawDesc.value.s, attrs.value, content.value));
    }
  }

  lemma NothingRead()
    ensures FromBigEndian([]) == 0
  {
  }

  lemma ReadOneMore(b: Bytes, x: byte, p: nat)
    ensures FromBigEndian(b + [x]) * p == FromBigEndian(b) * (0x100 * p) + x * p
  {
    assert (b + [x])[..|b|] == b;
    var f, v: int := FromBigEndian(b), x;
    assert (f * 0x100 + v) * p == f * (0x100 * p) + v * p;
  }

  lemma TwoBytesRead(b: Bytes)
    requires |b| == 2
    ensures FromBigEndian(b) == TwoBytes(b)
  {
    assert b[..1] == [b[0]] && [b[0]][..0] == [];
    assert FromBigEndian([b[0]]) == b[0];
  }

  lemma OneByteValue(d: Bytes)
    ensures ReadInt(d, 1).Done? ==> ReadInt(d, 1).value < 0x100
  {
    if d != [] {
      OneByte(d[0], d[1..]);
      assert d == [d[0]] + d[1..];
    }
  }

  lemma PrependTwice<T>(a: seq<T>, b: seq<T>, more: Parsed<seq<T>>)
    ensures Prepend(a, Prepend(b, more)) == Prepend(a + b, more)
    ensures Prepend([], more) == more
  {
    if more.Done? {
      assert [] + more.value == more.value;
      assert a + (b + more.value) == a + b + more.value;
    }
  }

  method Unmarshal(tok: Tokens, data: Bytes) returns (n: Option<XNode>)
    ensures n == Decode(tok, data)
  {
    hide ReadNode;
    var r := new BinaryDecoder(tok, data);
    assert data[0..] == data;
    var node := r.ReadOneNode();
    if node.Err? || r.index != |data| {
      return None;
    }
    return Some(node.value);
  }
}
