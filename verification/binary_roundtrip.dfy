/** Decoding undoes encoding up to the normal form, for exactly the nodes whose tags are usable; and decoding never
    looks beyond the bytes it consumes. */
module BinaryRoundTrip {
  import opened Bytes
  import opened BinaryXml

  // ----- The normal form -----

  /** Text is read back as a string, except that raw text in content position comes back as a byte slice. */
  function NormText(tok: Tokens, s: Bytes, asString: bool): XValue {
    if asString || !IsRaw(tok, s) then XText(s) else XData(s)
  }

  /** Each address form keeps only the fields it writes; the AD form keeps the low byte of the device. */
  function NormJID(jid: JID): JID {
    if IsAD(jid) then JID(jid.user, 0, jid.device % 0x100, 0, jid.server)
    else if jid.server == MESSENGER_SERVER then JID(jid.user, 0, jid.device, 0, jid.server)
    else if jid.server == INTEROP_SERVER then JID(jid.user, 0, jid.device, jid.integrator, jid.server)
    else JID(jid.user, 0, 0, 0, jid.server)
  }

  function NormValue(tok: Tokens, v: Value, asString: bool): XValue
    decreases v, 0
  {
    match v
    case Nil => XNil
    case Text(s) => NormText(tok, s, asString)
    case Address(jid) => XAddress(NormJID(jid))
    case Number(n) => NormText(tok, Itoa(n), asString)
    case Flag(b) => NormText(tok, FlagText(b), asString)
    case Data(b) => if asString then XText(b) else XData(b)
    case Children(nodes) => if nodes == [] then XNil else XChildren(NormNodes(tok, nodes))
  }

  function NormNodes(tok: Tokens, nodes: seq<Node>): (xs: seq<XNode>)
    ensures |xs| == |nodes|
    decreases nodes, 0
  {
    if nodes == [] then [] else [NormNode(tok, nodes[0])] + NormNodes(tok, nodes[1..])
  }

  /** The attributes of one run entered into a map one after the other; nil and empty values are dropped. */
  function NormAttrs(tok: Tokens, attrs: seq<Attr>, acc: map<Bytes, XValue>): map<Bytes, XValue>
    decreases attrs, 0
  {
    if attrs == [] then acc
    else if Dropped(attrs[0].value) then NormAttrs(tok, attrs[1..], acc)
    else NormAttrs(tok, attrs[1..], acc[attrs[0].key := NormValue(tok, attrs[0].value, true)])
  }

  function NormNode(tok: Tokens, n: Node): XNode
    decreases n, 0
  {
    XNode(n.tag, NormAttrs(tok, n.attrs, map[]), NormValue(tok, n.content, false))
  }

  // ----- What can be encoded -----

  /** Byte strings within the format's 31 bits; with `lists` also lists within its 16 bits, which the encoder does not
      check. */
  predicate FitsValue(v: Value, lists: bool)
    decreases v, 0
  {
    match v
    case Text(s) => |s| < MAX_INT32
    case Data(b) => |b| < MAX_INT32
    case Address(jid) => |jid.user| < MAX_INT32 && |jid.server| < MAX_INT32
    case Number(n) => |Itoa(n)| < MAX_INT32
    case Children(nodes) => (lists ==> |nodes| < 0x1_0000) && FitsNodes(nodes, lists)
    case _ => true
  }

  predicate FitsNodes(nodes: seq<Node>, lists: bool)
    decreases nodes, 0
  {
    nodes == [] || (FitsNode(nodes[0], lists) && FitsNodes(nodes[1..], lists))
  }

  predicate FitsAttrs(attrs: seq<Attr>, lists: bool)
    decreases attrs, 0
  {
    attrs == [] || (FitsAttr(attrs[0], lists) && FitsAttrs(attrs[1..], lists))
  }

  predicate FitsAttr(a: Attr, lists: bool)
    decreases a, 0
  {
    Dropped(a.value) || (|a.key| < MAX_INT32 && FitsValue(a.value, lists))
  }

  predicate FitsNode(n: Node, lists: bool)
    decreases n, 0
  {
    && (lists ==> NodeSize(n) < 0x1_0000) && |n.tag| < MAX_INT32
    && FitsAttrs(n.attrs, lists) && FitsValue(n.content, lists)
  }

  /** Every tag that gets written is neither empty nor "0". */
  predicate TaggedValue(v: Value)
    decreases v, 0
  {
    v.Children? ==> TaggedNodes(v.nodes)
  }

  predicate TaggedNodes(nodes: seq<Node>)
    decreases nodes, 0
  {
    nodes == [] || (TaggedNode(nodes[0]) && TaggedNodes(nodes[1..]))
  }

  predicate TaggedAttrs(attrs: seq<Attr>)
    decreases attrs, 0
  {
    attrs == [] || ((Dropped(attrs[0].value) || TaggedValue(attrs[0].value)) && TaggedAttrs(attrs[1..]))
  }

  predicate TaggedNode(n: Node)
    decreases n, 0
  {
    n.tag != [] && n.tag != ZERO_TAG && TaggedAttrs(n.attrs) && TaggedValue(n.content)
  }

  // ----- Atoms -----

  lemma Powers()
    ensures Power256(1) == 0x100 && Power256(2) == 0x1_0000 && Power256(4) == 0x1_0000_0000
  {
    assert Power256(3) == 0x100_0000;
  }

  lemma {:induction false} ReadIntBack(v: nat, n: nat, rest: Bytes)
    requires v < Power256(n)
    ensures ReadInt(BigEndian(v, n) + rest, n) == Done(v, rest)
  {
    hide BigEndian, FromBigEndian, Power256;
    var b := BigEndian(v, n);
    assert (b + rest)[..n] == b && (b + rest)[n..] == rest;
    BigEndianRoundTrip(v, n);
  }

  lemma ReadInt20Back(v: nat, rest: Bytes)
    requires v < 0x10_0000
    ensures ReadInt20(Int20(v) + rest) == Done(v, rest)
  {
    assert (Int20(v) + rest)[3..] == rest;
    assert v / 0x1_0000 < 16;
  }

  lemma ListSizeBack(n: nat, rest: Bytes)
    requires 0 < n < 0x1_0000
    ensures ReadNodeSize(ListStart(n) + rest) == Done(n, rest)
  {
    hide BigEndian, FromBigEndian, Power256;
    Powers();
    var width := if n < 0x100 then 1 else 2;
    ReadIntBack(n, width, rest);
    var tag := if n < 0x100 then LIST_8 else LIST_16;
    assert ListStart(n) + rest == [tag] + (BigEndian(n, width) + rest);
    OneByte(tag, BigEndian(n, width) + rest);
  }

  lemma OneByte(b: byte, rest: Bytes)
    ensures ReadInt([b] + rest, 1) == Done(b, rest)
  {
    var d := [b] + rest;
    assert d[..1] == [b] && d[1..] == rest;
    assert [b][..0] == [] && FromBigEndian([b]) == b;
  }

  function Padding(s: Bytes, hex: bool): Bytes {
    if |s| % 2 == 0 then [] else if hex then [70] else [0]
  }

  lemma UnpackPair(hex: bool, a: byte, b: byte)
    requires Packable(a, hex) && Packable(b, hex) && a != 0
    ensures var p := PackBytePair(hex, a, b);
      && UnpackByte(p / 16, hex) == Some(a)
      && UnpackByte(p % 16, hex) == Some(if b == 0 && hex then 70 else b)
  {
  }

  lemma UnpackStep(p: byte, d: Bytes, n: nat, hex: bool, a: byte, b: byte, s: Bytes, rest: Bytes)
    requires UnpackByte(p / 16, hex) == Some(a) && UnpackByte(p % 16, hex) == Some(b)
    requires UnpackPairs(d, n, hex) == Done(s, rest)
    ensures UnpackPairs([p] + d, n + 1, hex) == Done([a, b] + s, rest)
  {
    hide UnpackByte;
    assert ([p] + d)[1..] == d;
  }

  function SecondOf(s: Bytes): byte { if |s| < 2 then 0 else s[1] }

  function AfterPair(s: Bytes): Bytes { if |s| < 2 then [] else s[2..] }

  lemma PackFirst(s: Bytes, hex: bool)
    requires s != [] && forall i :: 0 <= i < |s| ==> Packable(s[i], hex)
    ensures Packable(SecondOf(s), hex)
    ensures PackPairs(s, hex) == [PackBytePair(hex, s[0], SecondOf(s))] + PackPairs(AfterPair(s), hex)
  {
  }

  lemma PadFirst(s: Bytes, hex: bool)
    requires s != [] && (|s| > 1 ==> s[1] != 0)
    ensures (|s| + 1) / 2 == (|AfterPair(s)| + 1) / 2 + 1
    ensures var last: byte := if SecondOf(s) == 0 && hex then 70 else SecondOf(s);
      [s[0], last] + (AfterPair(s) + Padding(AfterPair(s), hex)) == s + Padding(s, hex)
  {
  }

  lemma {:induction false} PackRoundTrip(s: Bytes, hex: bool, rest: Bytes)
    requires forall i :: 0 <= i < |s| ==> Packable(s[i], hex) && s[i] != 0
    ensures UnpackPairs(PackPairs(s, hex) + rest, (|s| + 1) / 2, hex) == Done(s + Padding(s, hex), rest)
    decreases |s|
  {
    hide UnpackByte, PackBytePair, Packable, UnpackPairs, PackPairs, Padding;
    if s != [] {
      PackFirst(s, hex);
      PadFirst(s, hex);
      var b, tail := SecondOf(s), AfterPair(s);
      UnpackPair(hex, s[0], b);
      PackRoundTrip(tail, hex, rest);
      var p := PackBytePair(hex, s[0], b);
      assert PackPairs(s, hex) + rest == [p] + (PackPairs(tail, hex) + rest);
      var last: byte := if b == 0 && hex then 70 else b;
      UnpackStep(p, PackPairs(tail, hex) + rest, (|tail| + 1) / 2, hex, s[0], last, tail + Padding(tail, hex), rest);
    } else {
      PackNothing(hex, rest);
    }
  }

  lemma PackNothing(hex: bool, rest: Bytes)
    ensures UnpackPairs(PackPairs([], hex) + rest, 0, hex) == Done([] + Padding([], hex), rest)
  {
    assert PackPairs([], hex) + rest == rest && [] + Padding([], hex) == [];
  }

  lemma PackableCharacters(s: Bytes, hex: bool)
    requires forall i :: 0 <= i < |s| ==> if hex then IsHex(s[i]) else IsNibble(s[i])
    ensures forall i :: 0 <= i < |s| ==> Packable(s[i], hex) && s[i] != 0
  {
  }

  lemma ReadPackedBack(tok: Tokens, s: Bytes, hex: bool, asString: bool, rest: Bytes)
    requires ValidPacked(s, hex)
    ensures Read(tok, EncPacked(s, hex) + rest, asString) == Done(XText(s), rest)
  {
    hide PackPairs, UnpackPairs, ReadList, ReadFBJID, ReadInteropJID, ReadJIDPair, ReadADJID, ReadSized, ReadDouble;
    var tag := if hex then HEX_8 else NIBBLE_8;
    var d := [PackedLength(|s|)] + (PackPairs(s, hex) + rest);
    assert EncPacked(s, hex) + rest == [tag] + d;
    assert ([tag] + d)[1..] == d && d[1..] == PackPairs(s, hex) + rest;
    assert PackedLength(|s|) % 128 == (|s| + 1) / 2;
    PackableCharacters(s, hex);
    PackRoundTrip(s, hex, rest);
    assert |s| % 2 == 1 ==> (s + Padding(s, hex))[..|s|] == s;
    assert |s| % 2 == 0 ==> s + Padding(s, hex) == s;
  }

  lemma ReadRawBack(tok: Tokens, b: Bytes, asString: bool, rest: Bytes)
    requires |b| < MAX_INT32
    ensures Read(tok, EncRaw(b) + rest, asString) == Done(if asString then XText(b) else XData(b), rest)
  {
    hide ReadList, ReadFBJID, ReadInteropJID, ReadJIDPair, ReadADJID, ReadPacked, ReadDouble, ReadInt, ReadInt20,
      BigEndian, Int20, Power256;
    Powers();
    var n, tail := |b|, b + rest;
    assert tail[..n] == b && tail[n..] == rest;
    if n < 0x100 {
      assert EncRaw(b) + rest == [BINARY_8] + (BigEndian(n, 1) + tail);
      ReadIntBack(n, 1, tail);
    } else if n < 0x10_0000 {
      assert EncRaw(b) + rest == [BINARY_20] + (Int20(n) + tail);
      ReadInt20Back(n, tail);
    } else {
      assert EncRaw(b) + rest == [BINARY_32] + (BigEndian(n, 4) + tail);
      ReadIntBack(n, 4, tail);
    }
  }

  lemma ReadStringBack(tok: Tokens, s: Bytes, asString: bool, rest: Bytes)
    requires ValidTokens(tok) && |s| < MAX_INT32
    ensures Read(tok, EncString(tok, s) + rest, asString) == Done(NormText(tok, s, asString), rest)
  {
    hide ReadList, ReadFBJID, ReadInteropJID, ReadJIDPair, ReadADJID, ReadPacked, ReadSized, ValidPacked, EncPacked,
      EncRaw;
    if SingleIndex(tok, s).Some? {
      var i := SingleIndex(tok, s).value;
      ReadTokenBack(tok, i, asString, rest);
    } else if DoubleIndex(tok.double, s).Some? {
      var (d, i) := DoubleIndex(tok.double, s).value;
      assert [Dictionary(d), i] + rest == [Dictionary(d)] + ([i] + rest);
      assert ([Dictionary(d)] + ([i] + rest))[1..] == [i] + rest;
      OneByte(i, rest);
    } else if ValidPacked(s, false) {
      ReadPackedBack(tok, s, false, asString, rest);
    } else if ValidPacked(s, true) {
      ReadPackedBack(tok, s, true, asString, rest);
    } else {
      ReadRawBack(tok, s, asString, rest);
    }
  }

  lemma ReadTokenBack(tok: Tokens, i: nat, asString: bool, rest: Bytes)
    requires ValidTokens(tok) && 0 < i < |tok.single|
    ensures Read(tok, [i] + rest, asString) == Done(XText(tok.single[i]), rest)
  {
    hide ReadList, ReadFBJID, ReadInteropJID, ReadJIDPair, ReadADJID, ReadPacked, ReadSized, ReadDouble;
    assert ([i] + rest)[1..] == rest;
  }

  // ----- Addresses -----

  lemma ReadAddressTag(tok: Tokens, d: Bytes, asString: bool)
    ensures Read(tok, [AD_JID] + d, asString) == ReadADJID(tok, d)
    ensures Read(tok, [FB_JID] + d, asString) == ReadFBJID(tok, d)
    ensures Read(tok, [INTEROP_JID] + d, asString) == ReadInteropJID(tok, d)
    ensures Read(tok, [JID_PAIR] + d, asString) == ReadJIDPair(tok, d)
  {
    hide ReadList, ReadFBJID, ReadInteropJID, ReadJIDPair, ReadADJID, ReadPacked, ReadSized, ReadDouble;
    forall tag: byte
      ensures ([tag] + d)[1..] == d
    {
    }
  }

  lemma ADBack(tok: Tokens, jid: JID, rest: Bytes)
    requires ValidTokens(tok) && IsAD(jid) && |jid.user| < MAX_INT32
    ensures ReadADJID(tok, [ActualAgent(jid), jid.device % 0x100] + (EncString(tok, jid.user) + rest)) ==
            Done(XAddress(NormJID(jid)), rest)
  {
    hide Read, EncString, Ascii, ValidTokens;
    var d := [ActualAgent(jid), jid.device % 0x100] + (EncString(tok, jid.user) + rest);
    assert d[2..] == EncString(tok, jid.user) + rest;
    ReadStringBack(tok, jid.user, true, rest);
  }

  lemma TwoBytesBack(v: uint16)
    ensures TwoBytes(BigEndian(v, 2)) == v
  {
    assert BigEndian(v, 2) == BigEndian(v / 0x100, 1) + [v % 0x100] == [v / 0x100 % 0x100, v % 0x100] by {
      assert BigEndian(v / 0x100, 1) == BigEndian(v / 0x100 / 0x100, 0) + [v / 0x100 % 0x100];
    }
  }

  lemma FBBack(tok: Tokens, jid: JID, rest: Bytes)
    requires ValidTokens(tok) && jid.server == MESSENGER_SERVER && |jid.user| < MAX_INT32
    ensures ReadFBJID(
      tok, EncString(tok, jid.user) + (BigEndian(jid.device, 2) + (EncString(tok, jid.server) + rest))) ==
            Done(XAddress(JID(jid.user, 0, jid.device, 0, jid.server)), rest)
  {
    hide Read, EncString, Ascii, ValidTokens, TwoBytes, BigEndian;
    var d1 := BigEndian(jid.device, 2) + (EncString(tok, jid.server) + rest);
    ReadStringBack(tok, jid.user, true, d1);
    ReadStringBack(tok, jid.server, true, rest);
    assert d1[..2] == BigEndian(jid.device, 2) && d1[2..] == EncString(tok, jid.server) + rest;
    TwoBytesBack(jid.device);
  }

  lemma InteropBack(tok: Tokens, jid: JID, rest: Bytes)
    requires ValidTokens(tok) && jid.server == INTEROP_SERVER && |jid.user| < MAX_INT32
    ensures ReadInteropJID(tok, EncString(tok, jid.user) +
              (BigEndian(jid.device, 2) + BigEndian(jid.integrator, 2) + (EncString(tok, jid.server) + rest))) ==
            Done(XAddress(JID(jid.user, 0, jid.device, jid.integrator, jid.server)), rest)
  {
    hide Read, EncString, Ascii, ValidTokens, TwoBytes, BigEndian;
    var d1 := BigEndian(jid.device, 2) + BigEndian(jid.integrator, 2) + (EncString(tok, jid.server) + rest);
    ReadStringBack(tok, jid.user, true, d1);
    ReadStringBack(tok, jid.server, true, rest);
    assert d1[..2] == BigEndian(jid.device, 2) && d1[2..4] == BigEndian(jid.integrator, 2);
    assert d1[4..] == EncString(tok, jid.server) + rest;
    TwoBytesBack(jid.device);
    TwoBytesBack(jid.integrator);
  }

  lemma ReadEmptyTag(tok: Tokens, rest: Bytes, asString: bool)
    ensures Read(tok, [LIST_EMPTY] + rest, asString) == Done(XNil, rest)
  {
    hide ReadList, ReadFBJID, ReadInteropJID, ReadJIDPair, ReadADJID, ReadPacked, ReadSized, ReadDouble;
    assert ([LIST_EMPTY] + rest)[1..] == rest;
  }

  lemma PairBack(tok: Tokens, jid: JID, rest: Bytes)
    requires ValidTokens(tok) && |jid.user| < MAX_INT32 && |jid.server| < MAX_INT32
    ensures ReadJIDPair(tok, (if jid.user == [] then [LIST_EMPTY] else EncString(tok, jid.user)) +
              (EncString(tok, jid.server) + rest)) ==
            Done(XAddress(JID(jid.user, 0, 0, 0, jid.server)), rest)
  {
    hide Read, EncString, ValidTokens;
    var d1 := EncString(tok, jid.server) + rest;
    if jid.user == [] {
      ReadEmptyTag(tok, d1, true);
    } else {
      ReadStringBack(tok, jid.user, true, d1);
    }
    ReadStringBack(tok, jid.server, true, rest);
  }

  lemma ReadJIDBack(tok: Tokens, jid: JID, asString: bool, rest: Bytes)
    requires ValidTokens(tok) && |jid.user| < MAX_INT32 && |jid.server| < MAX_INT32
    ensures Read(tok, EncJID(tok, jid) + rest, asString) == Done(XAddress(NormJID(jid)), rest)
  {
    hide Read, EncString, Ascii, ValidTokens, ReadADJID, ReadFBJID, ReadInteropJID, ReadJIDPair, BigEndian, IsAD,
      ActualAgent;
    var user, server := EncString(tok, jid.user), EncString(tok, jid.server);
    if IsAD(jid) {
      var d := [ActualAgent(jid), jid.device % 0x100] + (user + rest);
      assert EncJID(tok, jid) + rest == [AD_JID] + d;
      ReadAddressTag(tok, d, asString);
      ADBack(tok, jid, rest);
    } else if jid.server == MESSENGER_SERVER {
      var d := user + (BigEndian(jid.device, 2) + (server + rest));
      assert EncJID(tok, jid) + rest == [FB_JID] + d;
      ReadAddressTag(tok, d, asString);
      FBBack(tok, jid, rest);
    } else if jid.server == INTEROP_SERVER {
      var d := user + (BigEndian(jid.device, 2) + BigEndian(jid.integrator, 2) + (server + rest));
      assert EncJID(tok, jid) + rest == [INTEROP_JID] + d;
      ReadAddressTag(tok, d, asString);
      InteropBack(tok, jid, rest);
    } else {
      var d := (if jid.user == [] then [LIST_EMPTY] else user) + (server + rest);
      assert EncJID(tok, jid) + rest == [JID_PAIR] + d;
      ReadAddressTag(tok, d, asString);
      PairBack(tok, jid, rest);
    }
  }

  // ----- Nodes -----

  lemma ReadListTag(tok: Tokens, n: nat, d: Bytes, asString: bool)
    requires 0 < n < 0x1_0000
    ensures Read(tok, ListStart(n) + d, asString) ==
      match ReadNodes(tok, n, d)
      case Fail(e) => Fail(e)
      case Done(nodes, rest) => Done(XChildren(nodes), rest)
  {
    hide ReadFBJID, ReadInteropJID, ReadJIDPair, ReadADJID, ReadPacked, ReadSized, ReadDouble, ReadNodes, BigEndian,
      ReadInt;
    ListSizeBack(n, d);
    var tag: byte := if n < 0x100 then LIST_8 else LIST_16;
    var body := BigEndian(n, if n < 0x100 then 1 else 2) + d;
    assert ListStart(n) + d == [tag] + body && ([tag] + body)[1..] == body;
    OneByte(tag, body);
  }

  lemma {:induction false} ValueBack(tok: Tokens, v: Value, asString: bool, rest: Bytes)
    requires ValidTokens(tok) && FitsValue(v, true)
    ensures var r := Read(tok, EncValue(tok, v) + rest, asString);
      if TaggedValue(v) then r == Done(NormValue(tok, v, asString), rest) else r.Fail?
    decreases v, 0
  {
    hide Read, EncString, NormText, EncRaw, EncJID, ValidTokens, ListStart, NormNodes, EncNodes, ReadNodes, FitsNodes,
      TaggedNodes, NormJID, Ascii, Itoa;
    match v {
      case Nil => ReadEmptyTag(tok, rest, asString);
      case Text(s) => ReadStringBack(tok, s, asString, rest);
      case Number(n) => ReadStringBack(tok, Itoa(n), asString, rest);
      case Flag(b) => ReadStringBack(tok, FlagText(b), asString, rest);
      case Address(jid) => ReadJIDBack(tok, jid, asString, rest);
      case Data(b) => ReadRawBack(tok, b, asString, rest);
      case Children(nodes) =>
        if nodes == [] {
          NoNodes(tok);
          assert EncValue(tok, v) == [LIST_EMPTY];
          ReadEmptyTag(tok, rest, asString);
        } else {
          assert EncValue(tok, v) + rest == ListStart(|nodes|) + (EncNodes(tok, nodes) + rest);
          ReadListTag(tok, |nodes|, EncNodes(tok, nodes) + rest, asString);
          NodesBack(tok, nodes, rest);
        }
    }
  }

  lemma NoNodes(tok: Tokens)
    requires ValidTokens(tok)
    ensures EncNodes(tok, []) == [] && TaggedNodes([]) && ListStart(0) == [LIST_EMPTY]
  {
  }

  lemma {:induction false} NodesBack(tok: Tokens, nodes: seq<Node>, rest: Bytes)
    requires ValidTokens(tok) && FitsNodes(nodes, true)
    ensures var r := ReadNodes(tok, |nodes|, EncNodes(tok, nodes) + rest);
      if TaggedNodes(nodes) then r == Done(NormNodes(tok, nodes), rest) else r.Fail?
    decreases nodes, 0
  {
    hide ReadNode, EncNode, FitsNode, TaggedNode, NormNode, ValidTokens;
    if nodes == [] {
      assert EncNodes(tok, nodes) + rest == rest;
    } else {
      var d := EncNodes(tok, nodes[1..]) + rest;
      assert EncNodes(tok, nodes) + rest == EncNode(tok, nodes[0]) + d;
      NodeBack(tok, nodes[0], d);
      NodesBack(tok, nodes[1..], rest);
    }
  }

  lemma {:induction false} AttrsBack(tok: Tokens, attrs: seq<Attr>, acc: map<Bytes, XValue>, rest: Bytes)
    requires ValidTokens(tok) && FitsAttrs(attrs, true)
    ensures var r := ReadAttrs(tok, CountAttrs(attrs), EncAttrs(tok, attrs) + rest, acc);
      if TaggedAttrs(attrs) then r == Done(NormAttrs(tok, attrs, acc), rest) else r.Fail?
    decreases attrs, 0
  {
    hide Read, EncString, EncValue, FitsValue, TaggedValue, NormValue, ValidTokens;
    if attrs == [] {
      assert EncAttrs(tok, attrs) + rest == rest;
    } else if Dropped(attrs[0].value) {
      AttrsBack(tok, attrs[1..], acc, rest);
    } else {
      var a := attrs[0];
      var d2 := EncAttrs(tok, attrs[1..]) + rest;
      var d1 := EncValue(tok, a.value) + d2;
      assert EncAttrs(tok, attrs) + rest == EncString(tok, a.key) + d1;
      ReadStringBack(tok, a.key, true, d1);
      ValueBack(tok, a.value, true, d2);
      AttrsBack(tok, attrs[1..], acc[a.key := NormValue(tok, a.value, true)], rest);
    }
  }

  lemma ZeroNodeFails(tok: Tokens, rest: Bytes)
    ensures ReadNode(tok, [LIST_8, LIST_EMPTY] + rest).Fail?
  {
    hide Read, ReadAttrs, FromBigEndian;
    var tail := [LIST_EMPTY] + rest;
    assert [LIST_8, LIST_EMPTY] + rest == [LIST_8] + tail;
    OneByte(LIST_8, tail);
    OneByte(LIST_EMPTY, rest);
  }

  /** A node's bytes, read in front of any other bytes, yield the normal form and leave exactly those other bytes; a
      node in which some written tag is empty or "0" is never read back. */
  lemma {:induction false} NodeBack(tok: Tokens, n: Node, rest: Bytes)
    requires ValidTokens(tok) && FitsNode(n, true)
    ensures var r := ReadNode(tok, EncNode(tok, n) + rest);
      if TaggedNode(n) then r == Done(NormNode(tok, n), rest) else r.Fail?
    decreases n, 0
  {
    hide Read, ReadAttrs, EncString, EncValue, EncAttrs, ListStart, FitsValue, FitsAttrs, TaggedValue, TaggedAttrs,
      NormValue, NormAttrs, ValidTokens, CountAttrs, ReadNodeSize;
    if n.tag == ZERO_TAG {
      ZeroNodeFails(tok, rest);
    } else {
      var d3 := (if n.content.Nil? then [] else EncValue(tok, n.content)) + rest;
      var d2 := EncAttrs(tok, n.attrs) + d3;
      var d1 := EncString(tok, n.tag) + d2;
      assert EncNode(tok, n) + rest == ListStart(NodeSize(n)) + d1;
      ListSizeBack(NodeSize(n), d1);
      ReadStringBack(tok, n.tag, true, d2);
      assert NormText(tok, n.tag, true) == XText(n.tag);
      assert (NodeSize(n) - 1) / 2 == CountAttrs(n.attrs) && (NodeSize(n) % 2 == 1 <==> n.content.Nil?);
      AttrsBack(tok, n.attrs, map[], d3);
      if n.content.Nil? {
        assert d3 == rest;
        NilContent(tok);
      } else {
        ValueBack(tok, n.content, false, rest);
      }
    }
  }

  lemma NilContent(tok: Tokens)
    ensures TaggedValue(Nil) && NormValue(tok, Nil, false) == XNil
  {
  }

  /** `Unmarshal` after `Marshal` (without the leading flag byte) returns the normal form for exactly the usable
      nodes. */
  lemma RoundTrip(tok: Tokens, n: Node)
    requires ValidTokens(tok) && FitsNode(n, true)
    ensures Decode(tok, EncNode(tok, n)) == if TaggedNode(n) then Some(NormNode(tok, n)) else None
  {
    hide ReadNode, EncNode;
    NodeBack(tok, n, []);
    assert EncNode(tok, n) + [] == EncNode(tok, n);
  }
}
