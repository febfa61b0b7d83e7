/** The binary XML format of `binary/`: what a caller may encode, the bytes the encoder produces, and what the decoder
    makes of any byte string. */
module BinaryXml {
  import opened Bytes

  type uint16 = x: int | 0 <= x < 0x1_0000

  datatype JID = JID(user: Bytes, rawAgent: byte, device: uint16, integrator: uint16, server: Bytes)

  const DEFAULT_USER_SERVER: Bytes := Ascii("s.whatsapp.net")
  const HIDDEN_USER_SERVER: Bytes := Ascii("lid")
  const MESSENGER_SERVER: Bytes := Ascii("msgr")
  const INTEROP_SERVER: Bytes := Ascii("interop")
  const HOSTED_SERVER: Bytes := Ascii("hosted")
  const HOSTED_LID_SERVER: Bytes := Ascii("hosted.lid")

  const LIST_EMPTY: byte := 0
  const DICTIONARY_0: byte := 236
  const DICTIONARY_3: byte := 239
  const INTEROP_JID: byte := 245
  const FB_JID: byte := 246
  const AD_JID: byte := 247
  const LIST_8: byte := 248
  const LIST_16: byte := 249
  const JID_PAIR: byte := 250
  const HEX_8: byte := 251
  const BINARY_8: byte := 252
  const BINARY_20: byte := 253
  const BINARY_32: byte := 254
  const NIBBLE_8: byte := 255

  const PACKED_MAX := 127
  const MAX_INT32 := 0x7fff_ffff

  /** What a caller puts into a node.  An attribute list is the Go map in the order in which one run visits it. */
  datatype Value =
    | Nil
    | Text(s: Bytes)
    | Address(jid: JID)
    | Number(n: int)
    | Flag(b: bool)
    | Data(data: Bytes)
    | Children(nodes: seq<Node>)

  datatype Attr = Attr(key: Bytes, value: Value)

  datatype Node = Node(tag: Bytes, attrs: seq<Attr>, content: Value)

  /** What the decoder returns. */
  datatype XValue = XNil | XText(s: Bytes) | XAddress(jid: JID) | XData(data: Bytes) | XChildren(nodes: seq<XNode>)

  datatype XNode = XNode(tag: Bytes, attrs: map<Bytes, XValue>, content: XValue)

  // ----- Token tables -----

  datatype Tokens = Tokens(single: seq<Bytes>, double: seq<seq<Bytes>>)

  /** The single-byte tokens stay below the dictionary tags; index 0 is the empty string and never used. */
  ghost predicate ValidTokens(tok: Tokens) {
    && 0 < |tok.single| <= 236 && tok.single[0] == []
    && |tok.double| <= 4
    && forall i :: 0 <= i < |tok.double| ==> |tok.double[i]| <= 0x100
  }

  /** The index maps are filled in order, so the last occurrence wins. */
  function LastIndex(list: seq<Bytes>, s: Bytes): (i: Option<nat>)
    ensures i.Some? ==> i.value < |list| && list[i.value] == s
  {
    if list == [] then None
    else if list[|list| - 1] == s then Some(|list| - 1)
    else LastIndex(list[..|list| - 1], s)
  }

  function SingleIndex(tok: Tokens, s: Bytes): (i: Option<nat>)
    ensures i.Some? ==> i.value < |tok.single| && tok.single[i.value] == s && s != []
  {
    if s == [] then None else LastIndex(tok.single, s)
  }

  function DoubleIndex(dicts: seq<seq<Bytes>>, s: Bytes): (i: Option<(nat, nat)>)
    ensures i.Some? ==> i.value.0 < |dicts| && i.value.1 < |dicts[i.value.0]| && dicts[i.value.0][i.value.1] == s
  {
    if dicts == [] then None
    else
      var d := |dicts| - 1;
      match LastIndex(dicts[d], s)
      case Some(i) => Some((d, i))
      case None => DoubleIndex(dicts[..d], s)
  }

  // ----- Encoding -----

  predicate IsNibble(c: byte) { 48 <= c <= 57 || c == 45 || c == 46 }

  predicate IsHex(c: byte) { 48 <= c <= 57 || 65 <= c <= 70 }

  predicate ValidPacked(s: Bytes, hex: bool) {
    |s| <= PACKED_MAX && forall i :: 0 <= i < |s| ==> if hex then IsHex(s[i]) else IsNibble(s[i])
  }

  function PackNibble(c: byte): (x: nat)
    requires IsNibble(c) || c == 0
    ensures x < 16
  {
    if c == 45 then 10 else if c == 46 then 11 else if c == 0 then 15 else c - 48
  }

  function PackHex(c: byte): (x: nat)
    requires IsHex(c) || c == 0
    ensures x < 16
  {
    if 48 <= c <= 57 then c - 48 else if 65 <= c <= 70 then 10 + c - 65 else 15
  }

  predicate Packable(c: byte, hex: bool) {
    c == 0 || if hex then IsHex(c) else IsNibble(c)
  }

  function PackBytePair(hex: bool, a: byte, b: byte): byte
    requires Packable(a, hex) && Packable(b, hex)
  {
    if hex then PackHex(a) * 16 + PackHex(b) else PackNibble(a) * 16 + PackNibble(b)
  }

  /** An odd last character is paired with the terminator. */
  function PackPairs(s: Bytes, hex: bool): Bytes
    requires forall i :: 0 <= i < |s| ==> Packable(s[i], hex)
  {
    if s == [] then []
    else if |s| == 1 then [PackBytePair(hex, s[0], 0)]
    else [PackBytePair(hex, s[0], s[1])] + PackPairs(s[2..], hex)
  }

  function PackedLength(n: nat): byte
    requires n <= PACKED_MAX
  {
    if n % 2 == 0 then n / 2 else (n + 1) / 2 + 128
  }

  function EncPacked(s: Bytes, hex: bool): Bytes
    requires ValidPacked(s, hex)
  {
    [if hex then HEX_8 else NIBBLE_8, PackedLength(|s|)] + PackPairs(s, hex)
  }

  function Int20(v: nat): Bytes {
    [v / 0x1_0000 % 16, v / 0x100 % 0x100, v % 0x100]
  }

  function EncByteLength(n: nat): Bytes {
    if n < 0x100 then [BINARY_8] + BigEndian(n, 1)
    else if n < 0x10_0000 then [BINARY_20] + Int20(n)
    else [BINARY_32] + BigEndian(n, 4)
  }

  function EncRaw(b: Bytes): Bytes { EncByteLength(|b|) + b }

  function Dictionary(d: nat): byte
    requires d < 4
  {
    236 + d
  }

  /** Written without any packing: neither a token nor packable. */
  predicate IsRaw(tok: Tokens, s: Bytes) {
    SingleIndex(tok, s).None? && DoubleIndex(tok.double, s).None? && !ValidPacked(s, false) && !ValidPacked(s, true)
  }

  function EncString(tok: Tokens, s: Bytes): Bytes
    requires ValidTokens(tok)
  {
    if SingleIndex(tok, s).Some? then [SingleIndex(tok, s).value]
    else if DoubleIndex(tok.double, s).Some? then
      var (d, i) := DoubleIndex(tok.double, s).value; [Dictionary(d), i]
    else if ValidPacked(s, false) then EncPacked(s, false)
    else if ValidPacked(s, true) then EncPacked(s, true)
    else EncRaw(s)
  }

  function ActualAgent(jid: JID): byte {
    if jid.server == DEFAULT_USER_SERVER then 0
    else if jid.server == HIDDEN_USER_SERVER then 1
    else if jid.server == HOSTED_SERVER then 128
    else if jid.server == HOSTED_LID_SERVER then 129
    else jid.rawAgent
  }

  predicate IsAD(jid: JID) {
    || ((jid.server == DEFAULT_USER_SERVER || jid.server == HIDDEN_USER_SERVER) && jid.device > 0)
    || jid.server == HOSTED_SERVER
    || jid.server == HOSTED_LID_SERVER
  }

  function EncJID(tok: Tokens, jid: JID): Bytes
    requires ValidTokens(tok)
  {
    if IsAD(jid) then
      [AD_JID, ActualAgent(jid), jid.device % 0x100] + EncString(tok, jid.user)
    else if jid.server == MESSENGER_SERVER then
      [FB_JID] + EncString(tok, jid.user) + BigEndian(jid.device, 2) + EncString(tok, jid.server)
    else if jid.server == INTEROP_SERVER then
      [INTEROP_JID] + EncString(tok, jid.user) + BigEndian(jid.device, 2) + BigEndian(jid.integrator, 2) +
      EncString(tok, jid.server)
    else
      [JID_PAIR] + (if jid.user == [] then [LIST_EMPTY] else EncString(tok, jid.user)) + EncString(tok, jid.server)
  }

  function ListStart(n: nat): Bytes {
    if n == 0 then [LIST_EMPTY] else if n < 0x100 then [LIST_8] + BigEndian(n, 1) else [LIST_16] + BigEndian(n, 2)
  }

  /** Decimal digits, with a minus sign where needed. */
  function Itoa(n: int): Bytes
    decreases n < 0, if n < 0 then -n else n
  {
    if n < 0 then [45] + Itoa(-n) else if n < 10 then [48 + n] else Itoa(n / 10) + [48 + n % 10]
  }

  predicate Dropped(v: Value) { v == Nil || v == Text([]) }

  function CountAttrs(attrs: seq<Attr>): nat {
    if attrs == [] then 0 else (if Dropped(attrs[0].value) then 0 else 1) + CountAttrs(attrs[1..])
  }

  function EncValue(tok: Tokens, v: Value): Bytes
    requires ValidTokens(tok)
    decreases v, 0
  {
    match v
    case Nil => [LIST_EMPTY]
    case Text(s) => EncString(tok, s)
    case Address(jid) => EncJID(tok, jid)
    case Number(n) => EncString(tok, Itoa(n))
    case Flag(b) => EncString(tok, FlagText(b))
    case Data(b) => EncRaw(b)
    case Children(nodes) => ListStart(|nodes|) + EncNodes(tok, nodes)
  }

  function FlagText(b: bool): Bytes { if b then Ascii("true") else Ascii("false") }

  function EncNodes(tok: Tokens, nodes: seq<Node>): Bytes
    requires ValidTokens(tok)
    decreases nodes, 0
  {
    if nodes == [] then [] else EncNode(tok, nodes[0]) + EncNodes(tok, nodes[1..])
  }

  function EncAttrs(tok: Tokens, attrs: seq<Attr>): Bytes
    requires ValidTokens(tok)
    decreases attrs, 0
  {
    if attrs == [] then []
    else if Dropped(attrs[0].value) then EncAttrs(tok, attrs[1..])
    else EncString(tok, attrs[0].key) + EncValue(tok, attrs[0].value) + EncAttrs(tok, attrs[1..])
  }

  const ZERO_TAG: Bytes := [48]

  function NodeSize(n: Node): nat { 2 * CountAttrs(n.attrs) + 1 + if n.content.Nil? then 0 else 1 }

  function EncNode(tok: Tokens, n: Node): Bytes
    requires ValidTokens(tok)
    decreases n, 0
  {
    if n.tag == ZERO_TAG then [LIST_8, LIST_EMPTY]
    else
      ListStart(NodeSize(n)) + EncString(tok, n.tag) + EncAttrs(tok, n.attrs) +
      if n.content.Nil? then [] else EncValue(tok, n.content)
  }

  // ----- Decoding -----

  /** `Panic` stands for a failed type assertion or slice in the source. */
  datatype Error =
    EOF | UnknownListTag | InvalidToken | NoSuchToken | InvalidNode | InvalidJIDType | NonStringKey | BadPacked | Panic

  /** The decoded value and the bytes after it. */
  datatype Parsed<+T> = Done(value: T, rest: Bytes) | Fail(error: Error)

  function ReadInt(d: Bytes, n: nat): Parsed<nat> {
    if |d| < n then Fail(EOF) else Done(FromBigEndian(d[..n]), d[n..])
  }

  function ReadInt20(d: Bytes): Parsed<nat> {
    if |d| < 3 then Fail(EOF)
    else
      var a: int, b: int, c: int := d[0], d[1], d[2];
      Done(a % 16 * 0x1_0000 + b * 0x100 + c, d[3..])
  }

  function ReadListSize(tag: nat, d: Bytes): Parsed<nat> {
    if tag == LIST_EMPTY then Done(0, d)
    else if tag == LIST_8 then ReadInt(d, 1)
    else if tag == LIST_16 then ReadInt(d, 2)
    else Fail(UnknownListTag)
  }

  function UnpackByte(x: nat, hex: bool): Option<byte>
    requires x < 16
  {
    if x < 10 then Some(48 + x)
    else if hex then Some(65 + x - 10)
    else if x == 10 then Some(45) else if x == 11 then Some(46) else if x == 15 then Some(0) else None
  }

  function UnpackPairs(d: Bytes, n: nat, hex: bool): Parsed<Bytes> {
    if n == 0 then Done([], d)
    else if d == [] then Fail(EOF)
    else
      var a, b := UnpackByte(d[0] / 16, hex), UnpackByte(d[0] % 16, hex);
      if a.None? || b.None? then Fail(BadPacked) else
      match UnpackPairs(d[1..], n - 1, hex)
      case Fail(e) => Fail(e)
      case Done(s, rest) => Done([a.value, b.value] + s, rest)
  }

  function ReadPacked(d: Bytes, hex: bool): Parsed<XValue> {
    if d == [] then Fail(EOF) else
    match UnpackPairs(d[1..], d[0] % 128, hex)
    case Fail(e) => Fail(e)
    case Done(s, rest) =>
      if d[0] < 128 then Done(XText(s), rest)
      else if s == [] then Fail(Panic)
      else Done(XText(s[..|s| - 1]), rest)
  }

  function ReadSized(size: Parsed<nat>, asString: bool): Parsed<XValue> {
    match size
    case Fail(e) => Fail(e)
    case Done(n, d) =>
      if |d| < n then Fail(EOF)
      else Done(if asString then XText(d[..n]) else XData(d[..n]), d[n..])
  }

  function ReadDouble(tok: Tokens, dict: nat, d: Bytes): Parsed<XValue> {
    match ReadInt(d, 1)
    case Fail(e) => Fail(e)
    case Done(i, rest) =>
      if dict < |tok.double| && i < |tok.double[dict]| then Done(XText(tok.double[dict][i]), rest)
      else Fail(NoSuchToken)
  }

  function NewADJID(user: Bytes, agent: byte, device: byte): JID {
    if agent == 1 then JID(user, 0, device, 0, HIDDEN_USER_SERVER)
    else if agent == 128 then JID(user, 0, device, 0, HOSTED_SERVER)
    else if agent == 129 then JID(user, 0, device, 0, HOSTED_LID_SERVER)
    else JID(user, agent, device, 0, DEFAULT_USER_SERVER)
  }

  function Read(tok: Tokens, d: Bytes, asString: bool): (r: Parsed<XValue>)
    ensures r.Done? ==> |r.rest| < |d|
    decreases |d|, 0, 0
  {
    if d == [] then Fail(EOF) else
    var tag, r := d[0], d[1..];
    if tag == LIST_EMPTY then Done(XNil, r)
    else if tag == LIST_8 || tag == LIST_16 then ReadList(tok, tag, r)
    else if tag == BINARY_8 then ReadSized(ReadInt(r, 1), asString)
    else if tag == BINARY_20 then ReadSized(ReadInt20(r), asString)
    else if tag == BINARY_32 then ReadSized(ReadInt(r, 4), asString)
    else if DICTIONARY_0 <= tag <= DICTIONARY_3 then ReadDouble(tok, tag - DICTIONARY_0, r)
    else if tag == FB_JID then ReadFBJID(tok, r)
    else if tag == INTEROP_JID then ReadInteropJID(tok, r)
    else if tag == JID_PAIR then ReadJIDPair(tok, r)
    else if tag == AD_JID then ReadADJID(tok, r)
    else if tag == NIBBLE_8 || tag == HEX_8 then PackedShrinks(r, tag == HEX_8); ReadPacked(r, tag == HEX_8)
    else if tag < |tok.single| then Done(XText(tok.single[tag]), r)
    else Fail(InvalidToken)
  }

  lemma {:induction false} UnpackShrinks(d: Bytes, n: nat, hex: bool)
    ensures UnpackPairs(d, n, hex).Done? ==> |UnpackPairs(d, n, hex).rest| <= |d|
    decreases n
  {
    if n > 0 && d != [] {
      UnpackShrinks(d[1..], n - 1, hex);
    }
  }

  lemma PackedShrinks(d: Bytes, hex: bool)
    ensures ReadPacked(d, hex).Done? ==> |ReadPacked(d, hex).rest| <= |d|
  {
    if d != [] {
      UnpackShrinks(d[1..], d[0] % 128, hex);
    }
  }

  function ReadJIDPair(tok: Tokens, d: Bytes): (r: Parsed<XValue>)
    ensures r.Done? ==> |r.rest| < |d|
    decreases |d|, 1, 0
  {
    match Read(tok, d, true)
    case Fail(e) => Fail(e)
    case Done(user, d1) =>
      match Read(tok, d1, true)
      case Fail(e) => Fail(e)
      case Done(server, d2) =>
        if server.XNil? then Fail(InvalidJIDType)
        else if user.XNil? then
          if server.XText? then Done(XAddress(JID([], 0, 0, 0, server.s)), d2) else Fail(Panic)
        else if user.XText? && server.XText? then Done(XAddress(JID(user.s, 0, 0, 0, server.s)), d2)
        else Fail(Panic)
  }

  function ReadInteropJID(tok: Tokens, d: Bytes): (r: Parsed<XValue>)
    ensures r.Done? ==> |r.rest| < |d|
    decreases |d|, 1, 0
  {
    match Read(tok, d, true)
    case Fail(e) => Fail(e)
    case Done(user, d1) =>
      if |d1| < 4 then Fail(EOF) else
      match Read(tok, d1[4..], true)
      case Fail(e) => Fail(e)
      case Done(server, d2) =>
        if server != XText(INTEROP_SERVER) then Fail(InvalidJIDType)
        else if user.XText? then
          Done(XAddress(JID(user.s, 0, TwoBytes(d1[..2]), TwoBytes(d1[2..4]), INTEROP_SERVER)), d2)
        else Fail(Panic)
  }

  function TwoBytes(b: Bytes): uint16
    requires |b| == 2
  {
    var high: int, low: int := b[0], b[1];
    high * 0x100 + low
  }

  function ReadFBJID(tok: Tokens, d: Bytes): (r: Parsed<XValue>)
    ensures r.Done? ==> |r.rest| < |d|
    decreases |d|, 1, 0
  {
    match Read(tok, d, true)
    case Fail(e) => Fail(e)
    case Done(user, d1) =>
      if |d1| < 2 then Fail(EOF) else
      match Read(tok, d1[2..], true)
      case Fail(e) => Fail(e)
      case Done(server, d2) =>
        if server != XText(MESSENGER_SERVER) then Fail(InvalidJIDType)
        else if user.XText? then Done(XAddress(JID(user.s, 0, TwoBytes(d1[..2]), 0, MESSENGER_SERVER)), d2)
        else Fail(Panic)
  }

  function ReadADJID(tok: Tokens, d: Bytes): (r: Parsed<XValue>)
    ensures r.Done? ==> |r.rest| < |d|
    decreases |d|, 1, 0
  {
    if |d| < 2 then Fail(EOF) else
    match Read(tok, d[2..], true)
    case Fail(e) => Fail(e)
    case Done(user, rest) =>
      if user.XText? then Done(XAddress(NewADJID(user.s, d[0], d[1])), rest) else Fail(Panic)
  }

  function ReadList(tok: Tokens, tag: nat, d: Bytes): (r: Parsed<XValue>)
    ensures r.Done? ==> |r.rest| <= |d|
    decreases |d|, 3, 0
  {
    match ReadListSize(tag, d)
    case Fail(e) => Fail(e)
    case Done(n, d1) =>
      match ReadNodes(tok, n, d1)
      case Fail(e) => Fail(e)
      case Done(nodes, rest) => Done(XChildren(nodes), rest)
  }

  function ReadNodes(tok: Tokens, n: nat, d: Bytes): (r: Parsed<seq<XNode>>)
    ensures r.Done? ==> |r.rest| <= |d| && |r.value| == n
    decreases |d|, 2, n
  {
    if n == 0 then Done([], d) else
    match ReadNode(tok, d)
    case Fail(e) => Fail(e)
    case Done(node, d1) =>
      match ReadNodes(tok, n - 1, d1)
      case Fail(e) => Fail(e)
      case Done(nodes, rest) => Done([node] + nodes, rest)
  }

  function ReadAttrs(tok: Tokens, n: nat, d: Bytes, attrs: map<Bytes, XValue>): (r: Parsed<map<Bytes, XValue>>)
    ensures r.Done? ==> |r.rest| <= |d|
    decreases |d|, 1, n
  {
    if n == 0 then Done(attrs, d) else
    match Read(tok, d, true)
    case Fail(e) => Fail(e)
    case Done(key, d1) =>
      if !key.XText? then Fail(NonStringKey) else
      match Read(tok, d1, true)
      case Fail(e) => Fail(e)
      case Done(value, d2) => ReadAttrs(tok, n - 1, d2, attrs[key.s := value])
  }

  function ReadNodeSize(d: Bytes): Parsed<nat> {
    match ReadInt(d, 1)
    case Fail(e) => Fail(e)
    case Done(tag, d1) => ReadListSize(tag, d1)
  }

  function ReadNode(tok: Tokens, d: Bytes): (r: Parsed<XNode>)
    ensures r.Done? ==> |r.rest| < |d|
    decreases |d|, 1, 0
  {
    match ReadNodeSize(d)
    case Fail(e) => Fail(e)
    case Done(size, d1) =>
      match Read(tok, d1, true)
      case Fail(e) => Fail(e)
      case Done(tag, d2) =>
        if !tag.XText? then Fail(Panic)
        else if size == 0 || tag.s == [] then Fail(InvalidNode)
        else
          match ReadAttrs(tok, (size - 1) / 2, d2, map[])
          case Fail(e) => Fail(e)
          case Done(attrs, d3) =>
            if size % 2 == 1 then Done(XNode(tag.s, attrs, XNil), d3) else
            match Read(tok, d3, false)
            case Fail(e) => Fail(e)
            case Done(content, d4) => Done(XNode(tag.s, attrs, content), d4)
  }

  /** `Unmarshal` accepts only when no byte is left over. */
  function Decode(tok: Tokens, d: Bytes): Option<XNode> {
    match ReadNode(tok, d)
    case Fail(_) => None
    case Done(n, rest) => if rest == [] then Some(n) else None
  }
}
