/** What a reader gets for each kind of value, and the bytes on the wire, in literal terms. */
module BinaryText {
  import opened Bytes
  import opened BinaryXml
  import opened BinaryRoundTrip
  import opened BinaryOrder

  // ----- Numbers -----

  predicate IsDigit(c: byte) { 48 <= c <= 57 }

  /** What a string of digits means. */
  function DigitsValue(s: Bytes): nat
    requires forall c :: c in s ==> IsDigit(c)
  {
    if s == [] then 0
    else
      var last := s[|s| - 1];
      assert last in s && IsDigit(last);
      var digit: nat := last as int - 48;
      DigitsValue(s[..|s| - 1]) * 10 + digit
  }

  /** The decimal notation of a natural number: digits without a leading zero. */
  predicate Spells(s: Bytes, n: nat) {
    s != [] && (forall c :: c in s ==> IsDigit(c)) && DigitsValue(s) == n && (|s| > 1 ==> s[0] != 48)
  }

  /** The decimal notation of an integer, with a minus sign in front of a negative one. */
  predicate Decimal(s: Bytes, n: int) {
    if n < 0 then s != [] && s[0] == 45 && Spells(s[1..], -n) else Spells(s, n)
  }

  lemma {:induction false} NatSpelled(n: nat)
    ensures Spells(Itoa(n), n) && (n > 0 ==> Itoa(n)[0] != 48)
  {
    if n >= 10 {
      NatSpelled(n / 10);
      var s := Itoa(n / 10);
      assert Itoa(n) == s + [48 + n % 10] && Itoa(n)[..|s|] == s && Itoa(n)[0] == s[0];
    } else {
      assert Itoa(n)[..0] == [];
    }
  }

  /** Numbers are written in decimal notation. */
  lemma ItoaDecimal(n: int)
    ensures Decimal(Itoa(n), n)
  {
    if n < 0 {
      NatSpelled(-n);
      assert Itoa(n)[1..] == Itoa(-n);
    } else {
      NatSpelled(n);
    }
  }

  lemma {:induction false} LeadingDigit(s: Bytes)
    requires s != [] && (forall c :: c in s ==> IsDigit(c)) && s[0] != 48
    ensures DigitsValue(s) > 0
  {
    assert s[0] in s && s[|s| - 1] in s;
    if |s| > 1 {
      assert s[..|s| - 1][0] == s[0];
      LeadingDigit(s[..|s| - 1]);
    } else {
      assert s[..0] == [];
    }
  }

  /** A number has just one decimal notation. */
  lemma {:induction false} SpelledOnce(s: Bytes, t: Bytes, n: nat)
    requires Spells(s, n) && Spells(t, n)
    ensures s == t
  {
    var a, b := s[..|s| - 1], t[..|t| - 1];
    var x: int, y: int := s[|s| - 1], t[|t| - 1];
    assert s[|s| - 1] in s && t[|t| - 1] in t;
    assert DigitsValue(a) * 10 + x - 48 == DigitsValue(b) * 10 + y - 48;
    assert x == y && DigitsValue(a) == DigitsValue(b);
    if a != [] {
      assert a[0] == s[0];
      LeadingDigit(a);
    }
    if b != [] {
      assert b[0] == t[0];
      LeadingDigit(b);
    }
    if a != [] && b != [] {
      SpelledOnce(a, b, DigitsValue(a));
    }
    assert s == a + [s[|s| - 1]] && t == b + [t[|t| - 1]];
  }

  lemma DecimalOnce(s: Bytes, t: Bytes, n: int)
    requires Decimal(s, n) && Decimal(t, n)
    ensures s == t
  {
    if n < 0 {
      SpelledOnce(s[1..], t[1..], -n);
      assert s == [45] + s[1..] && t == [45] + t[1..];
    } else {
      SpelledOnce(s, t, n);
    }
  }

  // ----- What arrives -----

  const TRUE: Bytes := [116, 114, 117, 101]
  const FALSE: Bytes := [102, 97, 108, 115, 101]

  /** The address that arrives: user and server always, the device for the servers that it is written for, its low byte
      only for those with an agent, and the integrator for one server. */
  predicate SameAddress(sent: JID, got: JID) {
    && got.user == sent.user && got.server == sent.server && got.rawAgent == 0
    && got.integrator == (if sent.server == Ascii("interop") then sent.integrator else 0)
    && got.device ==
       if sent.server == Ascii("msgr") || sent.server == Ascii("interop") then sent.device
       else if sent.server == Ascii("hosted") || sent.server == Ascii("hosted.lid")
         || sent.server == Ascii("s.whatsapp.net") || sent.server == Ascii("lid") then sent.device % 0x100
       else 0
  }

  lemma ServersDiffer()
    ensures var servers :=
        [DEFAULT_USER_SERVER, HIDDEN_USER_SERVER, MESSENGER_SERVER, INTEROP_SERVER, HOSTED_SERVER, HOSTED_LID_SERVER];
      forall i, j :: 0 <= i < j < |servers| ==> servers[i] != servers[j]
  {
    assert |Ascii("s.whatsapp.net")| == 14 && |Ascii("lid")| == 3 && |Ascii("msgr")| == 4 && |Ascii("interop")| == 7;
    assert |Ascii("hosted")| == 6 && |Ascii("hosted.lid")| == 10;
  }

  lemma AddressArrives(jid: JID)
    ensures SameAddress(jid, NormJID(jid))
  {
    hide Ascii;
    ServersDiffer();
  }

  /** What a reader gets for a value, as an attribute or, with `text` off, as content: the text, the decimal notation,
      the word, the address or the bytes that were sent.  As content, text may come as bytes; as an attribute bytes
      come as text. */
  predicate Arrives(v: Value, x: XValue, text: bool) {
    match v
    case Nil => x == XNil
    case Text(s) => x == XText(s) || (!text && x == XData(s))
    case Number(n) => (x.XText? && Decimal(x.s, n)) || (!text && x.XData? && Decimal(x.data, n))
    case Flag(b) => x == XText(if b then TRUE else FALSE) || (!text && x == XData(if b then TRUE else FALSE))
    case Address(jid) => x.XAddress? && SameAddress(jid, x.jid)
    case Data(b) => x == if text then XText(b) else XData(b)
    case Children(nodes) => if nodes == [] then x == XNil else x.XChildren? && |x.nodes| == |nodes|
  }

  lemma ValueArrives(tok: Tokens, v: Value, text: bool)
    ensures Arrives(v, NormValue(tok, v, text), text)
  {
    hide IsRaw, Itoa, Decimal, NormJID, SameAddress;
    match v
    case Number(n) => ItoaDecimal(n);
    case Flag(b) => FlagIs(b);
    case Address(jid) => AddressArrives(jid);
    case Children(nodes) =>
    case _ =>
  }

  lemma FlagIs(b: bool)
    ensures FlagText(b) == if b then TRUE else FALSE
  {
    assert "true"[0] == 't' && "true"[1] == 'r' && "true"[2] == 'u' && "true"[3] == 'e';
    assert "false"[0] == 'f' && "false"[1] == 'a' && "false"[2] == 'l' && "false"[3] == 's' && "false"[4] == 'e';
  }

  /** There is an attribute for each one that was sent and is not empty, and no other. */
  ghost predicate AttrsArrive(attrs: seq<Attr>, m: map<Bytes, XValue>) {
    && (forall a :: a in attrs ==>
      if a.value == Nil || a.value == Text([]) then a.key !in m else a.key in m && Arrives(a.value, m[a.key], true))
    && (forall k :: k in m ==> exists a :: a in attrs && a.key == k)
  }

  /** A node is as it was sent: the same tag, the attributes and the content; and so are the nodes inside it. */
  ghost predicate NodeArrives(n: Node, x: XNode)
    decreases n, 0
  {
    && x.tag == n.tag && AttrsArrive(n.attrs, x.attrs)
    && Arrives(n.content, x.content, false)
    && (n.content.Children? && x.content.XChildren? ==> NodesArrive(n.content.nodes, x.content.nodes))
  }

  ghost predicate NodesArrive(ns: seq<Node>, xs: seq<XNode>)
    decreases ns, 0
  {
    |ns| == |xs| && forall i :: 0 <= i < |ns| ==> NodeArrives(ns[i], xs[i])
  }

  /** Keys occur once, in every node. */
  ghost predicate KeysOnce(n: Node)
    decreases n, 0
  {
    DistinctKeys(n.attrs) && (n.content.Children? ==> forall m :: m in n.content.nodes ==> KeysOnce(m))
  }

  lemma {:induction false} NormArrives(tok: Tokens, n: Node)
    requires KeysOnce(n)
    ensures NodeArrives(n, NormNode(tok, n))
    decreases n, 0
  {
    hide Arrives, NormValue, NormAttrs, NormNodes, DistinctKeys, AttrsArrive;
    NormAttrsArrive(tok, n.attrs);
    ValueArrives(tok, n.content, false);
    if n.content.Children? && NormValue(tok, n.content, false).XChildren? {
      ChildrenOf(tok, n.content.nodes);
      assert n.content == Children(n.content.nodes);
      NormNodesArrive(tok, n.content.nodes);
    }
  }

  lemma ChildrenOf(tok: Tokens, nodes: seq<Node>)
    ensures NormValue(tok, Children(nodes), false) == if nodes == [] then XNil else XChildren(NormNodes(tok, nodes))
  {
    hide NormNodes;
  }

  lemma NormAttrsArrive(tok: Tokens, attrs: seq<Attr>)
    requires DistinctKeys(attrs)
    ensures AttrsArrive(attrs, NormAttrs(tok, attrs, map[]))
  {
    hide NormValue, Arrives, NormAttrs;
    assert attrs[..0] == [] && attrs[0..] == attrs;
    NormAttrsIsAttrMap(tok, attrs, 0, map[]);
    var m := NormAttrs(tok, attrs, map[]);
    forall a | a in attrs
      ensures if a.value == Nil || a.value == Text([]) then a.key !in m
              else a.key in m && Arrives(a.value, m[a.key], true)
    {
      ValueArrives(tok, a.value, true);
    }
  }

  lemma {:induction false} NormNodesArrive(tok: Tokens, ns: seq<Node>)
    requires forall n :: n in ns ==> KeysOnce(n)
    ensures NodesArrive(ns, NormNodes(tok, ns))
    decreases ns, 0
  {
    hide NodeArrives, KeysOnce, NormNode;
    if ns != [] {
      NormArrives(tok, ns[0]);
      NormNodesArrive(tok, ns[1..]);
      assert forall i :: 0 < i < |ns| ==> ns[i] == ns[1..][i - 1];
    }
  }

  /** What is unmarshalled after marshalling is the node that was sent, value by value. */
  lemma SentNodeArrives(tok: Tokens, n: Node)
    requires ValidTokens(tok) && FitsNode(n, true) && KeysOnce(n) && TaggedNode(n)
    ensures var x := Decode(tok, EncNode(tok, n)); x.Some? && NodeArrives(n, x.value)
  {
    hide FitsNode, TaggedNode, EncNode, NormNode, KeysOnce, NodeArrives, Decode;
    RoundTrip(tok, n);
    NormArrives(tok, n);
  }

  // ----- The bytes on the wire -----

  /** Raw bytes: 252, 253 or 254, the length in one, three or four bytes, and the bytes. */
  lemma RawOnTheWire(b: Bytes)
    requires |b| < 0x1_0000_0000
    ensures EncRaw(b) ==
      (if |b| < 256 then [252, |b|]
       else if |b| < 1048576 then [253, |b| / 65536, |b| / 256 % 256, |b| % 256]
       else [254, |b| / 16777216, |b| / 65536 % 256, |b| / 256 % 256, |b| % 256]) + b
  {
    hide BigEndian;
    if |b| < 0x100 {
      OneByteOf(|b|);
    } else if |b| < 0x10_0000 {
      assert |b| / 65536 % 16 == |b| / 65536;
    } else {
      FourBytesOf(|b|);
    }
  }

  lemma OneByteOf(n: nat)
    requires n < 0x100
    ensures BigEndian(n, 1) == [n]
  {
    hide BigEndian;
    LastByte(n, 1);
  }

  lemma TwoBytesOf(n: nat)
    requires n < 0x1_0000
    ensures BigEndian(n, 2) == [n / 256, n % 256]
  {
    hide BigEndian;
    LastByte(n, 2);
    OneByteOf(n / 256);
  }

  lemma FourBytesOf(n: nat)
    requires n < 0x1_0000_0000
    ensures BigEndian(n, 4) == [n / 16777216, n / 65536 % 256, n / 256 % 256, n % 256]
  {
    hide BigEndian;
    LastByte(n, 4);
    LastByte(n / 256, 3);
    Divided(n);
    TwoBytesOf(n / 65536);
  }

  lemma Divided(n: nat)
    ensures n / 256 / 256 == n / 65536 && n / 65536 / 256 == n / 16777216
  {
  }

  lemma LastByte(n: nat, k: nat)
    requires k > 0
    ensures BigEndian(n, k) == BigEndian(n / 0x100, k - 1) + [n % 0x100]
    ensures BigEndian(n / 0x100, 0) == []
  {
  }

  /** The longest text that can be sent has 2^31 - 2 bytes. */
  lemma LongestText(s: Bytes)
    ensures FitsValue(Text(s), true) <==> |s| <= 0x7fff_fffe
  {
  }

  /** A list begins with 0, with 248 and its length, or with 249 and its length in two bytes. */
  lemma ListOnTheWire(n: nat)
    requires n < 0x1_0000
    ensures ListStart(n) == if n == 0 then [0] else if n < 256 then [248, n] else [249, n / 256, n % 256]
  {
    hide BigEndian;
    TwoBytesOf(n);
    if n < 0x100 {
      OneByteOf(n);
    }
  }

  /** A text is a token of one byte, a token of two bytes behind 236 to 239, packed digits behind 255, packed
      hexadecimal digits behind 251, or raw, whichever comes first. */
  lemma TextOnTheWire(tok: Tokens, s: Bytes)
    requires ValidTokens(tok)
    ensures var b := EncString(tok, s);
      if SingleIndex(tok, s).Some? then |b| == 1 && b[0] < |tok.single| && tok.single[b[0]] == s
      else if DoubleIndex(tok.double, s).Some? then
        |b| == 2 && 236 <= b[0] <= 239 && b[0] - 236 < |tok.double|
        && b[1] < |tok.double[b[0] - 236]| && tok.double[b[0] - 236][b[1]] == s
      else if |s| <= 127 && (forall c :: c in s ==> IsDigit(c) || c == 45 || c == 46) then
        |b| == 2 + (|s| + 1) / 2 && b[0] == 255 && b[1] == (|s| + 1) / 2 + 128 * (|s| % 2)
      else if |s| <= 127 && (forall c :: c in s ==> IsDigit(c) || 65 <= c <= 70) then
        |b| == 2 + (|s| + 1) / 2 && b[0] == 251 && b[1] == (|s| + 1) / 2 + 128 * (|s| % 2)
      else b == EncRaw(s)
  {
    hide PackPairs, EncRaw;
    AnyCharacter(s);
    if ValidPacked(s, false) {
      PackableCharacters(s, false);
      PackedSize(s, false);
    }
    if ValidPacked(s, true) {
      PackableCharacters(s, true);
      PackedSize(s, true);
    }
  }

  lemma AnyCharacter(s: Bytes)
    ensures ValidPacked(s, false) <==> |s| <= 127 && forall c :: c in s ==> IsDigit(c) || c == 45 || c == 46
    ensures ValidPacked(s, true) <==> |s| <= 127 && forall c :: c in s ==> IsDigit(c) || 65 <= c <= 70
  {
    assert forall i :: 0 <= i < |s| ==> s[i] in s;
  }

  lemma {:induction false} PackedSize(s: Bytes, hex: bool)
    requires forall i :: 0 <= i < |s| ==> Packable(s[i], hex)
    ensures |PackPairs(s, hex)| == (|s| + 1) / 2
    decreases |s|
  {
    hide PackBytePair;
    if |s| > 1 {
      PackedSize(s[2..], hex);
    }
  }

  /** No form that the text could also be written in is shorter. */
  lemma NeverLonger(tok: Tokens, s: Bytes)
    requires ValidTokens(tok)
    ensures |EncString(tok, s)| <= |EncRaw(s)|
    ensures forall hex :: ValidPacked(s, hex) ==> |EncString(tok, s)| <= |EncPacked(s, hex)|
  {
    hide PackPairs;
    TextOnTheWire(tok, s);
    AnyCharacter(s);
    forall hex | ValidPacked(s, hex) ensures |EncPacked(s, hex)| == 2 + (|s| + 1) / 2 {
      PackableCharacters(s, hex);
      PackedSize(s, hex);
    }
    assert |EncRaw(s)| >= |s| + 2;
  }

  /** An address begins with 247, its agent and its device, or with 246, 245 or 250, and goes on with its user. */
  lemma AddressOnTheWire(tok: Tokens, jid: JID)
    requires ValidTokens(tok)
    ensures var b, user, server := EncJID(tok, jid), EncString(tok, jid.user), EncString(tok, jid.server);
      if jid.server == Ascii("hosted") then b == [247, 128, jid.device % 256] + user
      else if jid.server == Ascii("hosted.lid") then b == [247, 129, jid.device % 256] + user
      else if jid.server == Ascii("s.whatsapp.net") && jid.device > 0 then b == [247, 0, jid.device % 256] + user
      else if jid.server == Ascii("lid") && jid.device > 0 then b == [247, 1, jid.device % 256] + user
      else if jid.server == Ascii("msgr") then b == [246] + user + [jid.device / 256, jid.device % 256] + server
      else if jid.server == Ascii("interop") then
        b == [245] + user + [jid.device / 256, jid.device % 256]
             + [jid.integrator / 256, jid.integrator % 256] + server
      else b == [250] + (if jid.user == [] then [0] else user) + server
  {
    hide Ascii, EncString, BigEndian;
    ServersDiffer();
    TwoBytesOf(jid.device);
    TwoBytesOf(jid.integrator);
  }

  /** A node is a list of its tag, its attributes that are not empty, and its content if it has any. */
  lemma NodeOnTheWire(tok: Tokens, n: Node)
    requires ValidTokens(tok) && DistinctKeys(n.attrs)
    ensures var size := 1 + 2 * |set a | a in n.attrs && a.value != Nil && a.value != Text([]) :: a.key|
        + if n.content == Nil then 0 else 1;
      EncNode(tok, n) ==
      if n.tag == [48] then [248, 0]
      else ListStart(size) + EncString(tok, n.tag) + EncAttrs(tok, n.attrs)
           + if n.content == Nil then [] else EncValue(tok, n.content)
  {
    hide EncString, EncAttrs, EncValue, ListStart, CountAttrs;
    CountIsKept(n.attrs);
    assert KeptKeys(n.attrs) == set a | a in n.attrs && a.value != Nil && a.value != Text([]) :: a.key;
  }

  // ----- The token tables -----

  /** Tables of the sizes that the source has are admitted. */
  lemma SourceTables(tok: Tokens)
    requires |tok.single| == 236 && tok.single[0] == [] && |tok.double| == 4
    requires forall i :: 0 <= i < 4 ==> |tok.double[i]| == 256
    ensures ValidTokens(tok)
  {
  }

  /** A text that occurs several times in the tables goes over the wire as the last of them: the last place in the first
      table, or otherwise the last place in the last dictionary that has it. */
  lemma {:induction false} LastPlace(list: seq<Bytes>, s: Bytes)
    ensures match LastIndex(list, s)
      case Some(i) => i < |list| && list[i] == s && forall j :: i < j < |list| ==> list[j] != s
      case None => forall j :: 0 <= j < |list| ==> list[j] != s
  {
    if list != [] && list[|list| - 1] != s {
      LastPlace(list[..|list| - 1], s);
      assert forall j :: 0 <= j < |list| - 1 ==> list[..|list| - 1][j] == list[j];
    }
  }

  lemma {:induction false} LastDictionary(dicts: seq<seq<Bytes>>, s: Bytes)
    ensures match DoubleIndex(dicts, s)
      case Some((d, i)) =>
        && d < |dicts| && i < |dicts[d]| && dicts[d][i] == s && (forall j :: i < j < |dicts[d]| ==> dicts[d][j] != s)
        && forall e :: d < e < |dicts| ==> s !in dicts[e]
      case None => forall e :: 0 <= e < |dicts| ==> s !in dicts[e]
  {
    if dicts != [] {
      var n := |dicts| - 1;
      LastPlace(dicts[n], s);
      if s !in dicts[n] {
        LastDictionary(dicts[..n], s);
        assert forall e :: 0 <= e < n ==> dicts[..n][e] == dicts[e];
      }
    }
  }
}
