/** The format as a grammar.  A form is one way to write a value, canonical or not; the decoder accepts exactly the
    forms that mean something, and gives what they mean. */
module BinaryGrammar {
  import opened Bytes
  import opened BinaryXml
  import opened BinaryRoundTrip

  // ----- Forms -----

  /** A value as it stands on the wire.  `pairs` are packed bytes; raw bytes have a length of one byte, of twenty bits
      behind four that do not count, or of four bytes. */
  datatype Form =
    | FNothing
    | FToken(i: byte)
    | FDouble(dictionary: byte, j: byte)
    | FPacked(hex: bool, odd: bool, pairs: Bytes)
    | FRaw8(bytes8: Bytes)
    | FRaw20(spare: nat, bytes20: Bytes)
    | FRaw32(bytes32: Bytes)
    | FList(wide: bool, nodes: seq<NodeForm>)
    | FPair(user: Form, server: Form)
    | FAgent(agent: byte, agentDevice: byte, agentUser: Form)
    | FMessenger(user: Form, device: uint16, server: Form)
    | FInterop(user: Form, device: uint16, integrator: uint16, server: Form)

  datatype AttrForm = AttrForm(key: Form, value: Form)

  datatype NodeForm = NodeForm(wideSize: bool, tag: Form, attrs: seq<AttrForm>, content: Option<Form>)

  /** The number of list elements that a node counts as. */
  function Size(n: NodeForm): nat { 1 + 2 * |n.attrs| + if n.content.Some? then 1 else 0 }

  function Counted(wide: bool, n: nat): Bytes { if wide then [249] + BigEndian(n, 2) else [248] + BigEndian(n, 1) }

  predicate CanCount(wide: bool, n: nat) { n < if wide then 0x1_0000 else 0x100 }

  function Printed(f: Form): Bytes
    decreases f, 0
  {
    match f
    case FNothing => [0]
    case FToken(i) => [i]
    case FDouble(d, i) => [d, i]
    case FPacked(hex, odd, pairs) =>
      [if hex then 251 else 255, (if odd then 128 else 0) + |pairs| % 128] + pairs
    case FRaw8(b) => [252] + BigEndian(|b|, 1) + b
    case FRaw20(spare, b) => [253, spare % 16 * 16 + |b| / 0x1_0000 % 16, |b| / 0x100 % 0x100, |b| % 0x100] + b
    case FRaw32(b) => [254] + BigEndian(|b|, 4) + b
    case FList(wide, nodes) => Counted(wide, |nodes|) + PrintedNodes(nodes)
    case FPair(user, server) => [250] + Printed(user) + Printed(server)
    case FAgent(agent, device, user) => [247, agent, device] + Printed(user)
    case FMessenger(user, device, server) => [246] + Printed(user) + BigEndian(device, 2) + Printed(server)
    case FInterop(user, device, integrator, server) =>
      [245] + Printed(user) + BigEndian(device, 2) + BigEndian(integrator, 2) + Printed(server)
  }

  function PrintedNodes(ns: seq<NodeForm>): Bytes
    decreases ns, 0
  {
    if ns == [] then [] else PrintedNode(ns[0]) + PrintedNodes(ns[1..])
  }

  function PrintedAttrs(attrs: seq<AttrForm>): Bytes
    decreases attrs, 0
  {
    if attrs == [] then [] else PrintedAttr(attrs[0]) + PrintedAttrs(attrs[1..])
  }

  function PrintedAttr(a: AttrForm): Bytes
    decreases a, 0
  {
    Printed(a.key) + Printed(a.value)
  }

  function PrintedContent(c: Option<Form>): Bytes
    decreases c, 0
  {
    if c.None? then [] else Printed(c.value)
  }

  function PrintedNode(n: NodeForm): Bytes
    decreases n, 0
  {
    Counted(n.wideSize, Size(n)) + Printed(n.tag) + PrintedAttrs(n.attrs) + PrintedContent(n.content)
  }

  // ----- What they mean -----

  /** A packed character: a digit, or a letter, a minus sign, a point, or the padding. */
  function Character(x: nat, hex: bool): Option<byte> {
    if x >= 16 then None
    else if hex then Some([48, 49, 50, 51, 52, 53, 54, 55, 56, 57, 65, 66, 67, 68, 69, 70][x])
    else if x in {12, 13, 14} then None
    else Some([48, 49, 50, 51, 52, 53, 54, 55, 56, 57, 45, 46, 0, 0, 0, 0][x])
  }

  function Unpacked(pairs: Bytes, hex: bool): Option<Bytes> {
    if pairs == [] then Some([])
    else
      var a, b, more := Character(pairs[0] / 16, hex), Character(pairs[0] % 16, hex), Unpacked(pairs[1..], hex);
      if a.Some? && b.Some? && more.Some? then Some([a.value, b.value] + more.value) else None
  }

  /** The bytes that stand for themselves, and not for the beginning of another form. */
  predicate IsPlain(i: byte) { i != 0 && !(236 <= i <= 239) && !(245 <= i <= 255) }

  function AsText(text: bool, b: Bytes): XValue { if text then XText(b) else XData(b) }

  function AgentServer(agent: byte): Bytes {
    if agent == 1 then Ascii("lid") else if agent == 128 then Ascii("hosted")
    else if agent == 129 then Ascii("hosted.lid") else Ascii("s.whatsapp.net")
  }

  /** With `text`, raw bytes are text. */
  function Meaning(tok: Tokens, f: Form, text: bool): Option<XValue>
    decreases f, 0
  {
    match f
    case FNothing => Some(XNil)
    case FToken(i) => if IsPlain(i) && i < |tok.single| then Some(XText(tok.single[i])) else None
    case FDouble(d, i) =>
      if 236 <= d <= 239 && d - 236 < |tok.double| && i < |tok.double[d - 236]| then Some(XText(tok.double[d - 236][i]))
      else None
    case FPacked(hex, odd, pairs) =>
      if |pairs| >= 128 || Unpacked(pairs, hex).None? || (odd && pairs == []) then None
      else
        var s := Unpacked(pairs, hex).value;
        Some(XText(if odd && s != [] then s[..|s| - 1] else s))
    case FRaw8(b) => if |b| < 0x100 then Some(AsText(text, b)) else None
    case FRaw20(spare, b) => if spare < 16 && |b| < 0x10_0000 then Some(AsText(text, b)) else None
    case FRaw32(b) => if |b| < 0x1_0000_0000 then Some(AsText(text, b)) else None
    case FList(wide, nodes) =>
      var xs := MeaningOfNodes(tok, nodes);
      if CanCount(wide, |nodes|) && xs.Some? then Some(XChildren(xs.value)) else None
    case FPair(user, server) =>
      var u, s := Meaning(tok, user, true), Meaning(tok, server, true);
      if u.None? || s.None? || !s.value.XText? then None
      else if u.value.XNil? then Some(XAddress(JID([], 0, 0, 0, s.value.s)))
      else if u.value.XText? then Some(XAddress(JID(u.value.s, 0, 0, 0, s.value.s)))
      else None
    case FAgent(agent, device, user) =>
      var u := Meaning(tok, user, true);
      if u.None? || !u.value.XText? then None
      else Some(XAddress(JID(u.value.s, if agent in {1, 128, 129} then 0 else agent, device, 0, AgentServer(agent))))
    case FMessenger(user, device, server) =>
      var u, s := Meaning(tok, user, true), Meaning(tok, server, true);
      if u.Some? && u.value.XText? && s == Some(XText(Ascii("msgr")))
      then Some(XAddress(JID(u.value.s, 0, device, 0, Ascii("msgr")))) else None
    case FInterop(user, device, integrator, server) =>
      var u, s := Meaning(tok, user, true), Meaning(tok, server, true);
      if u.Some? && u.value.XText? && s == Some(XText(Ascii("interop")))
      then Some(XAddress(JID(u.value.s, 0, device, integrator, Ascii("interop")))) else None
  }

  function MeaningOfNodes(tok: Tokens, ns: seq<NodeForm>): (xs: Option<seq<XNode>>)
    ensures xs.Some? ==> |xs.value| == |ns|
    decreases ns, 0
  {
    if ns == [] then Some([])
    else
      var x, more := MeaningOfNode(tok, ns[0]), MeaningOfNodes(tok, ns[1..]);
      if x.Some? && more.Some? then Some([x.value] + more.value) else None
  }

  /** Of attributes with the same key the last one counts. */
  function MeaningOfAttrs(tok: Tokens, attrs: seq<AttrForm>, acc: map<Bytes, XValue>): Option<map<Bytes, XValue>>
    decreases attrs, 0
  {
    if attrs == [] then Some(acc)
    else
      match MeaningOfAttr(tok, attrs[0])
      case None => None
      case Some(kv) => MeaningOfAttrs(tok, attrs[1..], acc[kv.0 := kv.1])
  }

  function MeaningOfAttr(tok: Tokens, a: AttrForm): Option<(Bytes, XValue)>
    decreases a, 0
  {
    var k, v := Meaning(tok, a.key, true), Meaning(tok, a.value, true);
    if k.Some? && k.value.XText? && v.Some? then Some((k.value.s, v.value)) else None
  }

  function MeaningOfContent(tok: Tokens, c: Option<Form>): Option<XValue>
    decreases c, 0
  {
    if c.None? then Some(XNil) else Meaning(tok, c.value, false)
  }

  function MeaningOfNode(tok: Tokens, n: NodeForm): Option<XNode>
    decreases n, 0
  {
    var t, attrs, c := Meaning(tok, n.tag, true), MeaningOfAttrs(tok, n.attrs, map[]), MeaningOfContent(tok, n.content);
    if CanCount(n.wideSize, Size(n)) && t.Some? && t.value.XText? && t.value.s != [] && attrs.Some? && c.Some?
    then Some(XNode(t.value.s, attrs.value, c.value)) else None
  }

  // ----- Every form is read -----

  lemma CharacterIs(x: nat, hex: bool)
    requires x < 16
    ensures UnpackByte(x, hex) == Character(x, hex)
  {
  }

  lemma {:induction false} PairsAreRead(pairs: Bytes, hex: bool, rest: Bytes)
    ensures match Unpacked(pairs, hex)
      case Some(s) => UnpackPairs(pairs + rest, |pairs|, hex) == Done(s, rest)
      case None => UnpackPairs(pairs + rest, |pairs|, hex).Fail?
  {
    hide UnpackByte, Character;
    if pairs == [] {
      assert pairs + rest == rest;
    } else {
      assert (pairs + rest)[1..] == pairs[1..] + rest;
      CharacterIs(pairs[0] / 16, hex);
      CharacterIs(pairs[0] % 16, hex);
      PairsAreRead(pairs[1..], hex, rest);
    }
  }

  /** Which function reads what stands behind the first byte. */
  lemma ReadByTag(tok: Tokens, tag: byte, d: Bytes, text: bool)
    ensures Read(tok, [tag] + d, text) ==
      match tag
      case 0 => Done(XNil, d)
      case 236 => ReadDouble(tok, 0, d)
      case 237 => ReadDouble(tok, 1, d)
      case 238 => ReadDouble(tok, 2, d)
      case 239 => ReadDouble(tok, 3, d)
      case 245 => ReadInteropJID(tok, d)
      case 246 => ReadFBJID(tok, d)
      case 247 => ReadADJID(tok, d)
      case 248 => ReadList(tok, 248, d)
      case 249 => ReadList(tok, 249, d)
      case 250 => ReadJIDPair(tok, d)
      case 251 => ReadPacked(d, true)
      case 252 => ReadSized(ReadInt(d, 1), text)
      case 253 => ReadSized(ReadInt20(d), text)
      case 254 => ReadSized(ReadInt(d, 4), text)
      case 255 => ReadPacked(d, false)
      case _ => if tag < |tok.single| then Done(XText(tok.single[tag]), d) else Fail(InvalidToken)
  {
    hide ReadList, ReadFBJID, ReadInteropJID, ReadJIDPair, ReadADJID, ReadPacked, ReadSized, ReadDouble, ReadInt,
      ReadInt20;
    assert ([tag] + d)[1..] == d;
  }

  lemma RawIsRead(size: nat, b: Bytes, text: bool, rest: Bytes)
    requires size == |b|
    ensures ReadSized(Done(size, b + rest), text) == Done(AsText(text, b), rest)
  {
    assert (b + rest)[..|b|] == b && (b + rest)[|b|..] == rest;
  }

  lemma Raw20IsRead(spare: nat, n: nat, rest: Bytes)
    requires spare < 16 && n < 0x10_0000
    ensures ReadInt20([spare % 16 * 16 + n / 0x1_0000 % 16, n / 0x100 % 0x100, n % 0x100] + rest) == Done(n, rest)
  {
    var d := [spare % 16 * 16 + n / 0x1_0000 % 16, n / 0x100 % 0x100, n % 0x100] + rest;
    assert d[3..] == rest;
    Digits20(n);
  }

  lemma Digits20(n: nat)
    requires n < 0x10_0000
    ensures n / 0x1_0000 % 16 * 0x1_0000 + n / 0x100 % 0x100 * 0x100 + n % 0x100 == n
  {
    assert n / 0x1_0000 < 16 && n / 0x1_0000 == n / 0x100 / 0x100;
  }

  lemma CountIsRead(wide: bool, n: nat, rest: Bytes)
    requires CanCount(wide, n)
    ensures var tag: byte, width := if wide then 249 else 248, if wide then 2 else 1;
      && Counted(wide, n) + rest == [tag] + (BigEndian(n, width) + rest)
      && ReadListSize(tag, BigEndian(n, width) + rest) == Done(n, rest)
      && ReadNodeSize(Counted(wide, n) + rest) == Done(n, rest)
  {
    hide BigEndian, FromBigEndian, Power256;
    Powers();
    var tag: byte, width := if wide then 249 else 248, if wide then 2 else 1;
    ReadIntBack(n, width, rest);
    OneByte(tag, BigEndian(n, width) + rest);
  }

  lemma {:induction false} FormIsRead(tok: Tokens, f: Form, text: bool, rest: Bytes)
    requires Meaning(tok, f, text).Some?
    ensures Read(tok, Printed(f) + rest, text) == Done(Meaning(tok, f, text).value, rest)
    decreases f, 1
  {
    hide Read;
    match f
    case FNothing => ReadByTag(tok, 0, rest, text);
    case FToken(i) => ReadByTag(tok, i, rest, text);
    case FDouble(d, i) => DoubleIsRead(tok, d, i, text, rest);
    case FPacked(hex, odd, pairs) => PackedIsRead(tok, hex, odd, pairs, text, rest);
    case FRaw8(_) => AnyRawIsRead(tok, f, text, rest);
    case FRaw20(_, _) => AnyRawIsRead(tok, f, text, rest);
    case FRaw32(_) => AnyRawIsRead(tok, f, text, rest);
    case FList(wide, nodes) => ListIsRead(tok, wide, nodes, text, rest);
    case FPair(user, server) => PairIsRead(tok, f, text, rest);
    case FAgent(agent, device, user) => AgentIsRead(tok, f, text, rest);
    case FMessenger(user, device, server) => MessengerIsRead(tok, f, text, rest);
    case FInterop(user, device, integrator, server) => InteropIsRead(tok, f, text, rest);
  }

  lemma DoubleIsRead(tok: Tokens, d: byte, i: byte, text: bool, rest: Bytes)
    requires Meaning(tok, FDouble(d, i), text).Some?
    ensures Read(tok, Printed(FDouble(d, i)) + rest, text) == Done(Meaning(tok, FDouble(d, i), text).value, rest)
  {
    hide Read;
    assert [d, i] + rest == [d] + ([i] + rest);
    ReadByTag(tok, d, [i] + rest, text);
    OneByte(i, rest);
  }

  lemma PackedIsRead(tok: Tokens, hex: bool, odd: bool, pairs: Bytes, text: bool, rest: Bytes)
    requires Meaning(tok, FPacked(hex, odd, pairs), text).Some?
    ensures var f := FPacked(hex, odd, pairs);
      Read(tok, Printed(f) + rest, text) == Done(Meaning(tok, f, text).value, rest)
  {
    hide Read, Unpacked, UnpackPairs, Printed, ReadPacked;
    var tag: byte, n: byte := if hex then 251 else 255, (if odd then 128 else 0) + |pairs| % 128;
    PackedShape(FPacked(hex, odd, pairs));
    TwoBefore(tag, n, pairs, rest);
    ReadByTag(tok, tag, [n] + (pairs + rest), text);
    PairsAreRead(pairs, hex, rest);
    UnpackedLength(pairs, hex);
    HeaderIsRead(n, pairs, hex, rest);
  }

  lemma TwoBefore(a: byte, b: byte, c: Bytes, rest: Bytes)
    ensures [a, b] + c + rest == [a] + ([b] + (c + rest))
  {
  }

  lemma HeaderIsRead(n: byte, pairs: Bytes, hex: bool, rest: Bytes)
    requires Unpacked(pairs, hex).Some? && |pairs| == n % 128
    requires UnpackPairs(pairs + rest, |pairs|, hex) == Done(Unpacked(pairs, hex).value, rest)
    ensures var s := Unpacked(pairs, hex).value;
      ReadPacked([n] + (pairs + rest), hex) ==
      if n < 128 then Done(XText(s), rest) else if s == [] then Fail(Panic) else Done(XText(s[..|s| - 1]), rest)
  {
    hide Unpacked, UnpackPairs;
    assert ([n] + (pairs + rest))[1..] == pairs + rest;
  }

  lemma {:induction false} UnpackedLength(pairs: Bytes, hex: bool)
    ensures Unpacked(pairs, hex).Some? ==> |Unpacked(pairs, hex).value| == 2 * |pairs|
  {
    hide Character;
    if pairs != [] {
      UnpackedLength(pairs[1..], hex);
    }
  }

  lemma AnyRawIsRead(tok: Tokens, f: Form, text: bool, rest: Bytes)
    requires (f.FRaw8? || f.FRaw20? || f.FRaw32?) && Meaning(tok, f, text).Some?
    ensures Read(tok, Printed(f) + rest, text) == Done(Meaning(tok, f, text).value, rest)
  {
    hide Read, BigEndian, ReadSized, ReadInt20, ReadInt, Power256;
    Powers();
    match f
    case FRaw8(b) =>
      Grouped([252], BigEndian(|b|, 1), b, rest);
      ReadByTag(tok, 252, BigEndian(|b|, 1) + (b + rest), text);
      ReadIntBack(|b|, 1, b + rest);
      RawIsRead(|b|, b, text, rest);
    case FRaw20(spare, b) => Raw20FormIsRead(tok, spare, b, text, rest);
    case FRaw32(b) =>
      Grouped([254], BigEndian(|b|, 4), b, rest);
      ReadByTag(tok, 254, BigEndian(|b|, 4) + (b + rest), text);
      ReadIntBack(|b|, 4, b + rest);
      RawIsRead(|b|, b, text, rest);
    case _ =>
  }

  lemma Raw20FormIsRead(tok: Tokens, spare: nat, b: Bytes, text: bool, rest: Bytes)
    requires spare < 16 && |b| < 0x10_0000
    ensures Read(tok, Printed(FRaw20(spare, b)) + rest, text) == Done(AsText(text, b), rest)
  {
    hide Read, ReadSized, ReadInt20, Printed;
    Raw20Shape(spare, b);
    Grouped([253], Length20(spare, |b|), b, rest);
    ReadByTag(tok, 253, Length20(spare, |b|) + (b + rest), text);
    Raw20IsRead(spare, |b|, b + rest);
    RawIsRead(|b|, b, text, rest);
  }

  lemma {:induction false} ListIsRead(tok: Tokens, wide: bool, nodes: seq<NodeForm>, text: bool, rest: Bytes)
    requires Meaning(tok, FList(wide, nodes), text).Some?
    ensures var f := FList(wide, nodes); Read(tok, Printed(f) + rest, text) == Done(Meaning(tok, f, text).value, rest)
    decreases nodes, 1
  {
    hide Read, BigEndian, ReadNodes, ReadListSize, ReadNodeSize, PrintedNodes, MeaningOfNodes;
    var tail := PrintedNodes(nodes) + rest;
    CountIsRead(wide, |nodes|, tail);
    var tag: byte, width := if wide then 249 else 248, if wide then 2 else 1;
    assert Printed(FList(wide, nodes)) + rest == Counted(wide, |nodes|) + tail;
    ReadByTag(tok, tag, BigEndian(|nodes|, width) + tail, text);
    NodesAreRead(tok, nodes, rest);
  }

  lemma {:induction false} NodesAreRead(tok: Tokens, ns: seq<NodeForm>, rest: Bytes)
    requires MeaningOfNodes(tok, ns).Some?
    ensures ReadNodes(tok, |ns|, PrintedNodes(ns) + rest) == Done(MeaningOfNodes(tok, ns).value, rest)
    decreases ns, 0
  {
    hide ReadNode, PrintedNode, MeaningOfNode;
    if ns == [] {
      assert PrintedNodes(ns) + rest == rest;
    } else {
      var tail := PrintedNodes(ns[1..]) + rest;
      assert PrintedNodes(ns) + rest == PrintedNode(ns[0]) + tail;
      NodeIsRead(tok, ns[0], tail);
      NodesAreRead(tok, ns[1..], rest);
    }
  }

  lemma {:induction false} AttrsAreRead(tok: Tokens, attrs: seq<AttrForm>, acc: map<Bytes, XValue>, rest: Bytes)
    requires MeaningOfAttrs(tok, attrs, acc).Some?
    ensures ReadAttrs(tok, |attrs|, PrintedAttrs(attrs) + rest, acc) ==
            Done(MeaningOfAttrs(tok, attrs, acc).value, rest)
    decreases attrs, 0
  {
    hide Read, Printed, Meaning;
    if attrs == [] {
      assert PrintedAttrs(attrs) + rest == rest;
    } else {
      var tail := PrintedAttrs(attrs[1..]) + rest;
      var kv := MeaningOfAttr(tok, attrs[0]).value;
      AttrIsRead(tok, attrs[0], tail);
      assert PrintedAttrs(attrs) + rest == Printed(attrs[0].key) + (Printed(attrs[0].value) + tail);
      AttrsAreRead(tok, attrs[1..], acc[kv.0 := kv.1], rest);
    }
  }

  lemma {:induction false} AttrIsRead(tok: Tokens, a: AttrForm, rest: Bytes)
    requires MeaningOfAttr(tok, a).Some?
    ensures var kv := MeaningOfAttr(tok, a).value;
      && Read(tok, Printed(a.key) + (Printed(a.value) + rest), true) == Done(XText(kv.0), Printed(a.value) + rest)
      && Read(tok, Printed(a.value) + rest, true) == Done(kv.1, rest)
    decreases a, 0
  {
    hide Read, Printed, Meaning;
    FormIsRead(tok, a.key, true, Printed(a.value) + rest);
    FormIsRead(tok, a.value, true, rest);
  }

  lemma {:induction false} ContentIsRead(tok: Tokens, c: Option<Form>, rest: Bytes)
    requires MeaningOfContent(tok, c).Some?
    ensures c.None? ==> PrintedContent(c) + rest == rest && MeaningOfContent(tok, c).value == XNil
    ensures c.Some? ==> Read(tok, PrintedContent(c) + rest, false) == Done(MeaningOfContent(tok, c).value, rest)
    decreases c, 0
  {
    hide Read;
    if c.Some? {
      FormIsRead(tok, c.value, false, rest);
    }
  }

  lemma {:induction false} NodeIsRead(tok: Tokens, n: NodeForm, rest: Bytes)
    requires MeaningOfNode(tok, n).Some?
    ensures ReadNode(tok, PrintedNode(n) + rest) == Done(MeaningOfNode(tok, n).value, rest)
    decreases n, 0
  {
    hide Read, ReadAttrs, ReadNodeSize, Printed, PrintedAttrs, PrintedContent, Meaning, MeaningOfAttrs,
      MeaningOfContent, Counted, CanCount;
    var d3 := PrintedContent(n.content) + rest;
    var d2 := PrintedAttrs(n.attrs) + d3;
    var d1 := Printed(n.tag) + d2;
    assert PrintedNode(n) + rest == Counted(n.wideSize, Size(n)) + d1;
    CountIsRead(n.wideSize, Size(n), d1);
    FormIsRead(tok, n.tag, true, d2);
    AttrsAreRead(tok, n.attrs, map[], d3);
    ContentIsRead(tok, n.content, rest);
    SizeSays(n);
  }

  lemma SizeSays(n: NodeForm)
    ensures Size(n) > 0 && (Size(n) - 1) / 2 == |n.attrs| && (Size(n) % 2 == 1 <==> n.content.None?)
  {
  }

  lemma {:induction false} PairIsRead(tok: Tokens, f: Form, text: bool, rest: Bytes)
    requires f.FPair? && Meaning(tok, f, text).Some?
    ensures Read(tok, Printed(f) + rest, text) == Done(Meaning(tok, f, text).value, rest)
    decreases f, 0
  {
    hide Read;
    var d := Printed(f.server) + rest;
    assert Printed(f) + rest == [250] + (Printed(f.user) + d);
    ReadByTag(tok, 250, Printed(f.user) + d, text);
    FormIsRead(tok, f.user, true, d);
    FormIsRead(tok, f.server, true, rest);
  }

  lemma {:induction false} AgentIsRead(tok: Tokens, f: Form, text: bool, rest: Bytes)
    requires f.FAgent? && Meaning(tok, f, text).Some?
    ensures Read(tok, Printed(f) + rest, text) == Done(Meaning(tok, f, text).value, rest)
    decreases f, 0
  {
    hide Read, Ascii;
    var d := [f.agent, f.agentDevice] + (Printed(f.agentUser) + rest);
    assert Printed(f) + rest == [247] + d && d[2..] == Printed(f.agentUser) + rest;
    ReadByTag(tok, 247, d, text);
    FormIsRead(tok, f.agentUser, true, rest);
  }

  lemma {:induction false} MessengerIsRead(tok: Tokens, f: Form, text: bool, rest: Bytes)
    requires f.FMessenger? && Meaning(tok, f, text).Some?
    ensures Read(tok, Printed(f) + rest, text) == Done(Meaning(tok, f, text).value, rest)
    decreases f, 0
  {
    hide Read, Ascii, BigEndian, TwoBytes;
    var d := Printed(f.server) + rest;
    var d1 := BigEndian(f.device, 2) + d;
    assert Printed(f) + rest == [246] + (Printed(f.user) + d1);
    assert d1[2..] == d && d1[..2] == BigEndian(f.device, 2);
    ReadByTag(tok, 246, Printed(f.user) + d1, text);
    FormIsRead(tok, f.user, true, d1);
    FormIsRead(tok, f.server, true, rest);
    TwoBytesBack(f.device);
  }

  lemma {:induction false} InteropIsRead(tok: Tokens, f: Form, text: bool, rest: Bytes)
    requires f.FInterop? && Meaning(tok, f, text).Some?
    ensures Read(tok, Printed(f) + rest, text) == Done(Meaning(tok, f, text).value, rest)
    decreases f, 0
  {
    hide Read, Ascii, BigEndian, TwoBytes, Printed;
    var d := Printed(f.server) + rest;
    var d1 := BigEndian(f.device, 2) + (BigEndian(f.integrator, 2) + d);
    InteropShape(f);
    Grouped5([245], Printed(f.user), BigEndian(f.device, 2), BigEndian(f.integrator, 2), Printed(f.server), rest);
    TwoAndTwo(BigEndian(f.device, 2), BigEndian(f.integrator, 2), d);
    ReadByTag(tok, 245, Printed(f.user) + d1, text);
    FormIsRead(tok, f.user, true, d1);
    FormIsRead(tok, f.server, true, rest);
    TwoBytesBack(f.device);
    TwoBytesBack(f.integrator);
  }

  lemma TwoAndTwo(a: Bytes, b: Bytes, d: Bytes)
    requires |a| == 2 && |b| == 2
    ensures var d1 := a + (b + d); |d1| >= 4 && d1[..2] == a && d1[2..4] == b && d1[4..] == d
  {
  }

  // ----- Nothing else is read -----

  lemma {:induction false} BigEndianOf(b: Bytes)
    ensures BigEndian(FromBigEndian(b), |b|) == b && FromBigEndian(b) < Power256(|b|)
  {
    if b != [] {
      var front, low: int := b[..|b| - 1], b[|b| - 1];
      BigEndianOf(front);
      var v := FromBigEndian(b);
      assert v / 0x100 == FromBigEndian(front) && v % 0x100 == low;
      assert b == front + [b[|b| - 1]];
    }
  }

  lemma IntWas(d: Bytes, n: nat)
    requires ReadInt(d, n).Done?
    ensures var r := ReadInt(d, n); d == BigEndian(r.value, n) + r.rest && r.value < Power256(n)
  {
    hide BigEndian, FromBigEndian, Power256;
    BigEndianOf(d[..n]);
    assert d == d[..n] + d[n..];
  }

  lemma TagAndRest(d: Bytes)
    requires d != []
    ensures d == [d[0]] + d[1..]
  {
  }

  lemma {:induction false} PairsWere(d: Bytes, n: nat, hex: bool)
    requires UnpackPairs(d, n, hex).Done?
    ensures n <= |d| && d[n..] == UnpackPairs(d, n, hex).rest
    ensures Unpacked(d[..n], hex) == Some(UnpackPairs(d, n, hex).value)
    decreases n
  {
    hide UnpackByte, Character;
    if n > 0 {
      CharacterIs(d[0] / 16, hex);
      CharacterIs(d[0] % 16, hex);
      PairsWere(d[1..], n - 1, hex);
      assert d[..n][0] == d[0] && d[..n][1..] == d[1..][..n - 1] && d[n..] == d[1..][n - 1..];
    }
  }

  /** The form that was read. */
  lemma {:induction false} FormOf(tok: Tokens, d: Bytes, text: bool) returns (f: Form)
    requires Read(tok, d, text).Done?
    ensures d == Printed(f) + Read(tok, d, text).rest && Meaning(tok, f, text) == Some(Read(tok, d, text).value)
    decreases |d|, 1
  {
    hide Read, Meaning, Printed;
    var tag, r := FirstByte(tok, d, text);
    if tag == 0 {
      f := FNothing;
      NothingForm(tok, text, r);
    } else if 236 <= tag <= 239 {
      f := DoubleWas(tok, d, text);
    } else if tag == 251 || tag == 255 {
      f := PackedWas(tok, d, text);
    } else if 252 <= tag <= 254 {
      f := RawWas(tok, d, text);
    } else if tag == 248 || tag == 249 {
      f := ListWas(tok, d, text);
    } else if tag == 250 {
      f := PairWas(tok, d, text);
    } else if tag == 247 {
      f := AgentWas(tok, d, text);
    } else if tag == 246 {
      f := MessengerWas(tok, d, text);
    } else if tag == 245 {
      f := InteropWas(tok, d, text);
    } else {
      f := FToken(tag);
      TokenForm(tok, tag, text, r);
    }
  }

  lemma FirstByte(tok: Tokens, d: Bytes, text: bool) returns (tag: byte, r: Bytes)
    requires Read(tok, d, text).Done?
    ensures d == [tag] + r && d != [] && tag == d[0] && r == d[1..] && |r| < |d|
  {
    hide ReadList, ReadFBJID, ReadInteropJID, ReadJIDPair, ReadADJID, ReadPacked, ReadSized, ReadDouble, ReadInt,
      ReadInt20;
    tag, r := d[0], d[1..];
  }

  lemma NothingForm(tok: Tokens, text: bool, r: Bytes)
    ensures Read(tok, [0] + r, text) == Done(XNil, r) && Printed(FNothing) == [0]
    ensures Meaning(tok, FNothing, text) == Some(XNil)
  {
    hide Read;
    ReadByTag(tok, 0, r, text);
  }

  lemma TokenForm(tok: Tokens, tag: byte, text: bool, r: Bytes)
    requires Read(tok, [tag] + r, text).Done? && IsPlain(tag)
    ensures Read(tok, [tag] + r, text).rest == r && Printed(FToken(tag)) == [tag]
    ensures Meaning(tok, FToken(tag), text) == Some(Read(tok, [tag] + r, text).value)
  {
    hide Read;
    ReadByTag(tok, tag, r, text);
  }

  lemma DoubleWas(tok: Tokens, d: Bytes, text: bool) returns (f: Form)
    requires Read(tok, d, text).Done? && d != [] && 236 <= d[0] <= 239
    ensures d == Printed(f) + Read(tok, d, text).rest && Meaning(tok, f, text) == Some(Read(tok, d, text).value)
  {
    hide Read;
    TagAndRest(d);
    ReadByTag(tok, d[0], d[1..], text);
    var i := d[1];
    f := FDouble(d[0], i);
    assert d[1..] == [i] + d[2..];
    OneByte(i, d[2..]);
    assert d == [d[0], i] + d[2..];
  }

  lemma PackedWas(tok: Tokens, d: Bytes, text: bool) returns (f: Form)
    requires Read(tok, d, text).Done? && d != [] && (d[0] == 251 || d[0] == 255)
    ensures d == Printed(f) + Read(tok, d, text).rest && Meaning(tok, f, text) == Some(Read(tok, d, text).value)
  {
    hide Read, Meaning, Printed, ReadPacked;
    TagAndRest(d);
    ReadByTag(tok, d[0], d[1..], text);
    f := PairsForm(tok, d[1..], d[0] == 251, text);
  }

  lemma PairsForm(tok: Tokens, r: Bytes, hex: bool, text: bool) returns (f: Form)
    requires ReadPacked(r, hex).Done?
    ensures [if hex then 251 else 255] + r == Printed(f) + ReadPacked(r, hex).rest
    ensures Meaning(tok, f, text) == Some(ReadPacked(r, hex).value)
  {
    hide Unpacked, UnpackPairs, Printed;
    var n := r[0] % 128;
    PairsWere(r[1..], n, hex);
    f := FPacked(hex, r[0] >= 128, r[1..][..n]);
    TagAndRest(r);
    TwoThen(if hex then 251 else 255, r[0], r[1..], n);
    UnpackedLength(r[1..][..n], hex);
    UnpackedNothing(hex);
    PackedShape(f);
  }

  lemma TwoThen(a: byte, b: byte, d: Bytes, n: nat)
    requires n <= |d|
    ensures [a] + ([b] + d) == [a, b] + d[..n] + d[n..]
  {
  }

  lemma PackedShape(f: Form)
    requires f.FPacked?
    ensures Printed(f) == [if f.hex then 251 else 255, (if f.odd then 128 else 0) + |f.pairs| % 128] + f.pairs
  {
  }

  lemma UnpackedNothing(hex: bool)
    ensures Unpacked([], hex) == Some([])
  {
  }

  lemma SizedWas(size: nat, d: Bytes, text: bool)
    requires ReadSized(Done(size, d), text).Done?
    ensures size <= |d| && d == d[..size] + d[size..]
    ensures ReadSized(Done(size, d), text) == Done(AsText(text, d[..size]), d[size..])
  {
  }

  lemma RawWas(tok: Tokens, d: Bytes, text: bool) returns (f: Form)
    requires Read(tok, d, text).Done? && d != [] && 252 <= d[0] <= 254
    ensures d == Printed(f) + Read(tok, d, text).rest && Meaning(tok, f, text) == Some(Read(tok, d, text).value)
  {
    hide Read, Meaning, Printed, ReadInt, ReadInt20, ReadSized;
    TagAndRest(d);
    var r := d[1..];
    ReadByTag(tok, d[0], r, text);
    if d[0] == 252 {
      f := Raw8Was(tok, r, text);
    } else if d[0] == 253 {
      f := Raw20Was(tok, r, text);
    } else {
      f := Raw32Was(tok, r, text);
    }
  }

  lemma Raw8Was(tok: Tokens, r: Bytes, text: bool) returns (f: Form)
    requires ReadSized(ReadInt(r, 1), text).Done?
    ensures var x := ReadSized(ReadInt(r, 1), text);
      [252] + r == Printed(f) + x.rest && Meaning(tok, f, text) == Some(x.value)
  {
    hide BigEndian, FromBigEndian, Power256, ReadInt, ReadSized;
    Powers();
    var size := ReadInt(r, 1);
    SizedFails(size, text);
    SizedWas(size.value, size.rest, text);
    var b := size.rest[..size.value];
    IntWas(r, 1);
    f := FRaw8(b);
    Grouped([252], BigEndian(|b|, 1), b, size.rest[size.value..]);
  }

  lemma Raw32Was(tok: Tokens, r: Bytes, text: bool) returns (f: Form)
    requires ReadSized(ReadInt(r, 4), text).Done?
    ensures var x := ReadSized(ReadInt(r, 4), text);
      [254] + r == Printed(f) + x.rest && Meaning(tok, f, text) == Some(x.value)
  {
    hide BigEndian, FromBigEndian, Power256, ReadInt, ReadSized;
    Powers();
    var size := ReadInt(r, 4);
    SizedFails(size, text);
    SizedWas(size.value, size.rest, text);
    var b := size.rest[..size.value];
    IntWas(r, 4);
    f := FRaw32(b);
    Grouped([254], BigEndian(|b|, 4), b, size.rest[size.value..]);
  }

  lemma Raw20Was(tok: Tokens, r: Bytes, text: bool) returns (f: Form)
    requires ReadSized(ReadInt20(r), text).Done?
    ensures var x := ReadSized(ReadInt20(r), text);
      [253] + r == Printed(f) + x.rest && Meaning(tok, f, text) == Some(x.value)
  {
    hide ReadInt20, ReadSized;
    var size := ReadInt20(r);
    SizedFails(size, text);
    SizedWas(size.value, size.rest, text);
    var b := size.rest[..size.value];
    Int20Was(r);
    f := FRaw20(r[0] / 16, b);
    Raw20Shape(r[0] / 16, b);
    Grouped([253], Length20(r[0] / 16, |b|), b, size.rest[size.value..]);
  }

  function Length20(spare: nat, n: nat): Bytes {
    [spare % 16 * 16 + n / 0x1_0000 % 16, n / 0x100 % 0x100, n % 0x100]
  }

  lemma Raw20Shape(spare: nat, b: Bytes)
    ensures Printed(FRaw20(spare, b)) == [253] + Length20(spare, |b|) + b
  {
  }

  lemma Grouped(a: Bytes, b: Bytes, c: Bytes, rest: Bytes)
    ensures a + (b + (c + rest)) == a + b + c + rest
  {
  }

  lemma Grouped4(a: Bytes, b: Bytes, c: Bytes, d: Bytes, rest: Bytes)
    ensures a + (b + (c + (d + rest))) == a + b + c + d + rest
  {
  }

  lemma Grouped5(a: Bytes, b: Bytes, c: Bytes, d: Bytes, e: Bytes, rest: Bytes)
    ensures a + (b + (c + (d + (e + rest)))) == a + b + c + d + e + rest
  {
  }

  lemma SizedFails(size: Parsed<nat>, text: bool)
    ensures size.Fail? ==> ReadSized(size, text).Fail?
    ensures size.Done? ==> size == Done(size.value, size.rest)
  {
  }

  lemma Int20Was(d: Bytes)
    requires ReadInt20(d).Done?
    ensures |d| >= 3 && ReadInt20(d).value < 0x10_0000
    ensures var n := ReadInt20(d).value;
      d == [d[0] / 16 % 16 * 16 + n / 0x1_0000 % 16, n / 0x100 % 0x100, n % 0x100] + ReadInt20(d).rest
  {
    var a: int, b: int, c: int := d[0], d[1], d[2];
    var n := ReadInt20(d).value;
    assert n % 0x100 == c && n / 0x100 == a % 16 * 0x100 + b;
    assert n / 0x100 % 0x100 == b && n / 0x1_0000 == n / 0x100 / 0x100 == a % 16;
    assert d == [d[0], d[1], d[2]] + d[3..];
  }

  lemma CountWas(tag: nat, d: Bytes)
    requires (tag == 248 || tag == 249) && ReadListSize(tag, d).Done?
    ensures var n, wide := ReadListSize(tag, d).value, tag == 249;
      CanCount(wide, n) && [tag as byte] + d == Counted(wide, n) + ReadListSize(tag, d).rest
  {
    hide BigEndian, FromBigEndian, Power256, ReadInt;
    Powers();
    IntWas(d, if tag == 249 then 2 else 1);
  }

  lemma {:induction false} ListWas(tok: Tokens, d: Bytes, text: bool) returns (f: Form)
    requires Read(tok, d, text).Done? && d != [] && (d[0] == 248 || d[0] == 249)
    ensures d == Printed(f) + Read(tok, d, text).rest && Meaning(tok, f, text) == Some(Read(tok, d, text).value)
    decreases |d|, 0
  {
    hide Read, ReadListSize, Counted, CanCount, ReadNodes, PrintedNodes, MeaningOfNodes;
    TagAndRest(d);
    var tag, r := d[0], d[1..];
    ReadByTag(tok, tag, r, text);
    CountWas(tag, r);
    CountShrinks(tag, r);
    var size := ReadListSize(tag, r);
    var nodes := NodesWere(tok, size.value, size.rest);
    f := FList(tag == 249, nodes);
    var rest := ReadNodes(tok, size.value, size.rest).rest;
    assert Counted(tag == 249, size.value) + (PrintedNodes(nodes) + rest) == Printed(f) + rest;
  }

  lemma CountShrinks(tag: nat, d: Bytes)
    ensures ReadListSize(tag, d).Done? ==> |ReadListSize(tag, d).rest| <= |d|
  {
  }

  lemma {:induction false} NodesWere(tok: Tokens, n: nat, d: Bytes) returns (ns: seq<NodeForm>)
    requires ReadNodes(tok, n, d).Done?
    ensures |ns| == n && d == PrintedNodes(ns) + ReadNodes(tok, n, d).rest
    ensures MeaningOfNodes(tok, ns) == Some(ReadNodes(tok, n, d).value)
    decreases |d|, 3, n
  {
    hide ReadNode, PrintedNode, MeaningOfNode;
    if n == 0 {
      ns := [];
      assert d == [] + d;
    } else {
      var first := NodeWas(tok, d);
      var d1 := ReadNode(tok, d).rest;
      var more := NodesWere(tok, n - 1, d1);
      ns := [first] + more;
      assert ns[1..] == more;
      var rest := ReadNodes(tok, n, d).rest;
      assert PrintedNode(first) + (PrintedNodes(more) + rest) == PrintedNodes(ns) + rest;
    }
  }

  lemma {:induction false} AttrsWere(
    tok: Tokens, n: nat, d: Bytes, acc: map<Bytes, XValue>) returns (attrs: seq<AttrForm>)
    requires ReadAttrs(tok, n, d, acc).Done?
    ensures |attrs| == n && d == PrintedAttrs(attrs) + ReadAttrs(tok, n, d, acc).rest
    ensures MeaningOfAttrs(tok, attrs, acc) == Some(ReadAttrs(tok, n, d, acc).value)
    decreases |d|, 2, n
  {
    hide Read, Printed, Meaning;
    if n == 0 {
      attrs := [];
      assert d == [] + d;
    } else {
      var k := FormOf(tok, d, true);
      var d1 := Read(tok, d, true).rest;
      var v := FormOf(tok, d1, true);
      var d2 := Read(tok, d1, true).rest;
      var acc' := acc[Read(tok, d, true).value.s := Read(tok, d1, true).value];
      var more := AttrsWere(tok, n - 1, d2, acc');
      attrs := [AttrForm(k, v)] + more;
      assert attrs[1..] == more;
      var rest := ReadAttrs(tok, n, d, acc).rest;
      assert Printed(k) + (Printed(v) + (PrintedAttrs(more) + rest)) == PrintedAttrs(attrs) + rest;
    }
  }

  lemma {:induction false} NodeWas(tok: Tokens, d: Bytes) returns (n: NodeForm)
    requires ReadNode(tok, d).Done?
    ensures d == PrintedNode(n) + ReadNode(tok, d).rest && MeaningOfNode(tok, n) == Some(ReadNode(tok, d).value)
    decreases |d|, 2, 0
  {
    hide Read, ReadAttrs, ReadNodeSize, Printed, PrintedAttrs, Meaning, MeaningOfAttrs, Counted, CanCount;
    var size, d1, wide := NodeSizeWas(d);
    var t := FormOf(tok, d1, true);
    var d2 := Read(tok, d1, true).rest;
    var attrs := AttrsWere(tok, (size - 1) / 2, d2, map[]);
    var d3 := ReadAttrs(tok, (size - 1) / 2, d2, map[]).rest;
    var rest := ReadNode(tok, d).rest;
    if size % 2 == 1 {
      n := NodeForm(wide, t, attrs, None);
      assert Counted(wide, size) + (Printed(t) + (PrintedAttrs(attrs) + rest)) == PrintedNode(n) + rest;
    } else {
      var c := FormOf(tok, d3, false);
      n := NodeForm(wide, t, attrs, Some(c));
      assert Counted(wide, size) + (Printed(t) + (PrintedAttrs(attrs) + (Printed(c) + rest))) == PrintedNode(n) + rest;
    }
    assert Size(n) == size;
  }

  lemma NodeSizeWas(d: Bytes) returns (size: nat, d1: Bytes, wide: bool)
    requires ReadNodeSize(d).Done? && ReadNodeSize(d).value > 0
    ensures ReadNodeSize(d) == Done(size, d1) && |d1| < |d| && CanCount(wide, size) && d == Counted(wide, size) + d1
  {
    hide Counted, CanCount, FromBigEndian;
    TagAndRest(d);
    OneByte(d[0], d[1..]);
    wide := d[0] == 249;
    size, d1 := ReadNodeSize(d).value, ReadNodeSize(d).rest;
    CountWas(d[0], d[1..]);
    CountShrinks(d[0], d[1..]);
  }

  lemma {:induction false} PairWas(tok: Tokens, d: Bytes, text: bool) returns (f: Form)
    requires Read(tok, d, text).Done? && d != [] && d[0] == 250
    ensures d == Printed(f) + Read(tok, d, text).rest && Meaning(tok, f, text) == Some(Read(tok, d, text).value)
    decreases |d|, 0
  {
    hide Read;
    TagAndRest(d);
    var r := d[1..];
    ReadByTag(tok, 250, r, text);
    var user := FormOf(tok, r, true);
    var d1 := Read(tok, r, true).rest;
    var server := FormOf(tok, d1, true);
    f := FPair(user, server);
    var rest := Read(tok, d1, true).rest;
    assert [250] + (Printed(user) + (Printed(server) + rest)) == Printed(f) + rest;
  }

  lemma {:induction false} AgentWas(tok: Tokens, d: Bytes, text: bool) returns (f: Form)
    requires Read(tok, d, text).Done? && d != [] && d[0] == 247
    ensures d == Printed(f) + Read(tok, d, text).rest && Meaning(tok, f, text) == Some(Read(tok, d, text).value)
    decreases |d|, 0
  {
    hide Read, Ascii;
    TagAndRest(d);
    var r := d[1..];
    ReadByTag(tok, 247, r, text);
    var user := FormOf(tok, r[2..], true);
    f := FAgent(r[0], r[1], user);
    var rest := Read(tok, r[2..], true).rest;
    assert r == [r[0], r[1]] + r[2..];
    assert [247] + ([r[0], r[1]] + (Printed(user) + rest)) == Printed(f) + rest;
  }

  lemma TwoBytesWere(b: Bytes)
    requires |b| == 2
    ensures BigEndian(TwoBytes(b), 2) == b
  {
    var high: int, low: int := b[0], b[1];
    var v := TwoBytes(b);
    assert v / 0x100 == high && v % 0x100 == low;
    assert BigEndian(v, 2) == BigEndian(high, 1) + [low] && BigEndian(high, 1) == BigEndian(high / 0x100, 0) + [high];
  }

  lemma {:induction false} MessengerWas(tok: Tokens, d: Bytes, text: bool) returns (f: Form)
    requires Read(tok, d, text).Done? && d != [] && d[0] == 246
    ensures d == Printed(f) + Read(tok, d, text).rest && Meaning(tok, f, text) == Some(Read(tok, d, text).value)
    decreases |d|, 0
  {
    hide Read, Ascii, TwoBytes, BigEndian, Printed;
    TagAndRest(d);
    var r := d[1..];
    ReadByTag(tok, 246, r, text);
    var user := FormOf(tok, r, true);
    var d1 := Read(tok, r, true).rest;
    TwoBytesWere(d1[..2]);
    assert d1 == d1[..2] + d1[2..];
    var server := FormOf(tok, d1[2..], true);
    f := FMessenger(user, TwoBytes(d1[..2]), server);
    var rest := Read(tok, d1[2..], true).rest;
    Grouped4([246], Printed(user), d1[..2], Printed(server), rest);
    MessengerShape(f);
  }

  lemma {:induction false} InteropWas(tok: Tokens, d: Bytes, text: bool) returns (f: Form)
    requires Read(tok, d, text).Done? && d != [] && d[0] == 245
    ensures d == Printed(f) + Read(tok, d, text).rest && Meaning(tok, f, text) == Some(Read(tok, d, text).value)
    decreases |d|, 0
  {
    hide Read, Ascii, TwoBytes, BigEndian, Printed;
    TagAndRest(d);
    var r := d[1..];
    ReadByTag(tok, 245, r, text);
    var user := FormOf(tok, r, true);
    var d1 := Read(tok, r, true).rest;
    TwoBytesWere(d1[..2]);
    TwoBytesWere(d1[2..4]);
    assert d1 == d1[..2] + (d1[2..4] + d1[4..]);
    var server := FormOf(tok, d1[4..], true);
    f := FInterop(user, TwoBytes(d1[..2]), TwoBytes(d1[2..4]), server);
    var rest := Read(tok, d1[4..], true).rest;
    Grouped5([245], Printed(user), d1[..2], d1[2..4], Printed(server), rest);
    InteropShape(f);
  }

  lemma MessengerShape(f: Form)
    requires f.FMessenger?
    ensures Printed(f) == [246] + Printed(f.user) + BigEndian(f.device, 2) + Printed(f.server)
  {
    hide BigEndian;
  }

  lemma InteropShape(f: Form)
    requires f.FInterop?
    ensures Printed(f) ==
      [245] + Printed(f.user) + BigEndian(f.device, 2) + BigEndian(f.integrator, 2) + Printed(f.server)
  {
    hide BigEndian;
  }

  // ----- The decoder is the grammar -----

  /** Values: what is read is what a form at the beginning of the bytes means. */
  lemma ReadsExactly(tok: Tokens, d: Bytes, text: bool, x: XValue, rest: Bytes)
    ensures Read(tok, d, text) == Done(x, rest) <==>
      exists f :: Meaning(tok, f, text) == Some(x) && d == Printed(f) + rest
  {
    hide Read, Meaning, Printed;
    if Read(tok, d, text) == Done(x, rest) {
      var f := FormOf(tok, d, text);
      assert Meaning(tok, f, text) == Some(x);
    }
    if f :| Meaning(tok, f, text) == Some(x) && d == Printed(f) + rest {
      FormIsRead(tok, f, text, rest);
    }
  }

  /** Unmarshalling gives a node exactly for the bytes of a form that means it, without any left over. */
  lemma DecodesExactly(tok: Tokens, d: Bytes, x: XNode)
    ensures Decode(tok, d) == Some(x) <==> exists n :: MeaningOfNode(tok, n) == Some(x) && d == PrintedNode(n)
  {
    hide ReadNode, MeaningOfNode, PrintedNode;
    if Decode(tok, d) == Some(x) {
      var n := NodeWas(tok, d);
      assert PrintedNode(n) + [] == PrintedNode(n);
      assert MeaningOfNode(tok, n) == Some(x) && d == PrintedNode(n);
    }
    if n :| MeaningOfNode(tok, n) == Some(x) && d == PrintedNode(n) {
      assert PrintedNode(n) + [] == PrintedNode(n);
      NodeIsRead(tok, n, []);
    }
  }

  // ----- How it refuses -----

  /** The announced pairs are there, and one of their halves is no character. */
  predicate BadPacking(d: Bytes, hex: bool) {
    d != [] && |d| > d[0] % 128 && Unpacked(d[1..][..d[0] % 128], hex).None?
  }

  /** The error for each kind of first byte that cannot be gone on with. */
  lemma RefusedValues(tok: Tokens, tag: byte, d: Bytes, text: bool)
    ensures Read(tok, [], text) == Fail(EOF)
    ensures IsPlain(tag) && tag >= |tok.single| ==> Read(tok, [tag] + d, text) == Fail(InvalidToken)
    ensures 236 <= tag <= 239 && d == [] ==> Read(tok, [tag] + d, text) == Fail(EOF)
    ensures 236 <= tag <= 239 && d != [] && (tag - 236 >= |tok.double| || d[0] >= |tok.double[tag - 236]|) ==>
      Read(tok, [tag] + d, text) == Fail(NoSuchToken)
  {
    hide ReadList, ReadFBJID, ReadInteropJID, ReadJIDPair, ReadADJID, ReadSized, ReadPacked, FromBigEndian;
    ReadByTag(tok, tag, d, text);
    if 236 <= tag <= 239 && d != [] {
      TagAndRest(d);
      OneByte(d[0], d[1..]);
    }
  }

  /** Packed bytes with a half that is no character are refused, and an odd text of no pairs makes the source panic. */
  lemma RefusedPacking(tok: Tokens, d: Bytes, hex: bool, text: bool)
    ensures var tag: byte := if hex then 251 else 255;
      && (d == [] ==> Read(tok, [tag] + d, text) == Fail(EOF))
      && (BadPacking(d, hex) ==> Read(tok, [tag] + d, text) == Fail(BadPacked))
      && (d != [] && d[0] == 128 ==> Read(tok, [tag] + d, text) == Fail(Panic))
  {
    hide Read, UnpackPairs, Unpacked;
    ReadByTag(tok, if hex then 251 else 255, d, text);
    if BadPacking(d, hex) {
      var pairs := d[1..][..d[0] % 128];
      BadPairs(pairs, hex, d[1..][d[0] % 128..]);
      assert pairs + d[1..][d[0] % 128..] == d[1..];
    }
    NoPairs(if d == [] then [] else d[1..], hex);
  }

  lemma NoPairs(d: Bytes, hex: bool)
    ensures UnpackPairs(d, 0, hex) == Done([], d)
  {
  }

  lemma {:induction false} BadPairs(pairs: Bytes, hex: bool, rest: Bytes)
    requires Unpacked(pairs, hex).None?
    ensures UnpackPairs(pairs + rest, |pairs|, hex) == Fail(BadPacked)
  {
    hide UnpackByte, Character;
    assert (pairs + rest)[1..] == pairs[1..] + rest;
    CharacterIs(pairs[0] / 16, hex);
    CharacterIs(pairs[0] % 16, hex);
    if Unpacked(pairs[1..], hex).None? {
      BadPairs(pairs[1..], hex, rest);
    }
  }

  /** A node is refused because its size is not a list size, because it counts no tag or has an empty one, or because an
      attribute key is not text; a tag that is not text makes the source panic. */
  lemma RefusedNodes(tok: Tokens, d: Bytes)
    ensures d == [] ==> ReadNode(tok, d) == Fail(EOF)
    ensures d != [] && d[0] != 0 && d[0] != 248 && d[0] != 249 ==> ReadNode(tok, d) == Fail(UnknownListTag)
    ensures ReadNodeSize(d).Done? ==>
        var (size, tag) := (ReadNodeSize(d).value, Read(tok, ReadNodeSize(d).rest, true));
        && (tag.Fail? ==> ReadNode(tok, d) == Fail(tag.error))
        && (tag.Done? && !tag.value.XText? ==> ReadNode(tok, d) == Fail(Panic))
        && (tag.Done? && tag.value.XText? && (size == 0 || tag.value.s == []) ==> ReadNode(tok, d) == Fail(InvalidNode))
        && (tag.Done? && tag.value.XText? && size > 2 && tag.value.s != [] ==>
          var key := Read(tok, tag.rest, true);
          key.Done? && !key.value.XText? ==> ReadNode(tok, d) == Fail(NonStringKey))
  {
    hide Read, FromBigEndian;
    if d != [] {
      TagAndRest(d);
      OneByte(d[0], d[1..]);
    }
  }

  /** An address whose server is another one than its form says, or no text, is refused. */
  lemma RefusedAddresses(tok: Tokens, d: Bytes, text: bool)
    ensures var user := Read(tok, d, true);
      user.Done? ==>
        && (|user.rest| >= 2 && Read(tok, user.rest[2..], true).Done?
            && Read(tok, user.rest[2..], true).value != XText(Ascii("msgr")) ==>
          Read(tok, [246] + d, text) == Fail(InvalidJIDType))
        && (|user.rest| >= 4 && Read(tok, user.rest[4..], true).Done?
            && Read(tok, user.rest[4..], true).value != XText(Ascii("interop")) ==>
          Read(tok, [245] + d, text) == Fail(InvalidJIDType))
        && (Read(tok, user.rest, true).Done? && Read(tok, user.rest, true).value.XNil? ==>
          Read(tok, [250] + d, text) == Fail(InvalidJIDType))
  {
    hide Read, Ascii, TwoBytes;
    ReadByTag(tok, 246, d, text);
    ReadByTag(tok, 245, d, text);
    ReadByTag(tok, 250, d, text);
  }
}
