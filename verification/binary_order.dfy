/** The order in which Go visits attribute maps does not matter: not in a node, and not in any node inside it. */
module BinaryOrder {
  import opened Bytes
  import opened BinaryXml
  import opened BinaryRoundTrip

  // ----- One attribute map -----

  ghost predicate DistinctKeys(attrs: seq<Attr>) {
    forall i, j :: 0 <= i < j < |attrs| ==> attrs[i].key != attrs[j].key
  }

  /** The decoded attribute map, described without any order. */
  ghost predicate IsAttrMap(tok: Tokens, attrs: seq<Attr>, m: map<Bytes, XValue>) {
    && (forall a :: a in attrs && !Dropped(a.value) ==> a.key in m && m[a.key] == NormValue(tok, a.value, true))
    && (forall k :: k in m ==> exists a :: a in attrs && !Dropped(a.value) && a.key == k)
  }

  lemma {:induction false} NormAttrsIsAttrMap(tok: Tokens, attrs: seq<Attr>, n: nat, acc: map<Bytes, XValue>)
    requires n <= |attrs| && DistinctKeys(attrs) && IsAttrMap(tok, attrs[..n], acc)
    ensures IsAttrMap(tok, attrs, NormAttrs(tok, attrs[n..], acc))
    decreases |attrs| - n
  {
    hide NormValue, Dropped;
    if n == |attrs| {
      assert attrs[..n] == attrs;
    } else {
      var a := attrs[n];
      assert attrs[n..][1..] == attrs[n + 1..] && attrs[..n + 1] == attrs[..n] + [a];
      var acc' := if Dropped(a.value) then acc else acc[a.key := NormValue(tok, a.value, true)];
      assert IsAttrMap(tok, attrs[..n + 1], acc') by {
        AttrMapStep(tok, attrs[..n], a, acc);
      }
      NormAttrsIsAttrMap(tok, attrs, n + 1, acc');
    }
  }

  lemma AttrMapStep(tok: Tokens, attrs: seq<Attr>, a: Attr, acc: map<Bytes, XValue>)
    requires IsAttrMap(tok, attrs, acc) && forall b :: b in attrs ==> b.key != a.key
    ensures IsAttrMap(tok, attrs + [a], if Dropped(a.value) then acc else acc[a.key := NormValue(tok, a.value, true)])
  {
    hide NormValue, Dropped;
    var m := if Dropped(a.value) then acc else acc[a.key := NormValue(tok, a.value, true)];
    forall k | k in m
      ensures exists b :: b in attrs + [a] && !Dropped(b.value) && b.key == k
    {
      if k in acc && k != a.key {
        var b :| b in attrs && !Dropped(b.value) && b.key == k;
        assert b in attrs + [a];
      } else if !Dropped(a.value) {
        assert a in attrs + [a];
      }
    }
  }

  lemma {:induction false} TaggedAttrsAll(attrs: seq<Attr>)
    ensures TaggedAttrs(attrs) <==> forall a :: a in attrs ==> Dropped(a.value) || TaggedValue(a.value)
  {
    hide Dropped, TaggedValue;
    if attrs != [] {
      TaggedAttrsAll(attrs[1..]);
      assert attrs == [attrs[0]] + attrs[1..];
      assert forall a :: a in attrs <==> a == attrs[0] || a in attrs[1..];
    }
  }

  // ----- The same node, visited twice -----

  /** Two visits of one node: every attribute map in it, at any depth, may have been listed in another order. */
  ghost predicate SameNode(n: Node, m: Node)
    decreases n, 0
  {
    && n.tag == m.tag && DistinctKeys(n.attrs) && DistinctKeys(m.attrs)
    && SameAttrs(n.attrs, m.attrs) && SameValue(n.content, m.content)
  }

  ghost predicate SameAttrs(a: seq<Attr>, b: seq<Attr>)
    decreases a, 1
  {
    (forall i :: 0 <= i < |a| ==> HasTwin(a[i], b)) && (forall j :: 0 <= j < |b| ==> IsTwin(a, b[j]))
  }

  ghost predicate HasTwin(x: Attr, b: seq<Attr>)
    decreases x, 0
  {
    exists j :: 0 <= j < |b| && x.key == b[j].key && SameValue(x.value, b[j].value)
  }

  ghost predicate IsTwin(a: seq<Attr>, y: Attr)
    decreases a, 0
  {
    exists i :: 0 <= i < |a| && a[i].key == y.key && SameValue(a[i].value, y.value)
  }

  ghost predicate SameValue(v: Value, w: Value)
    decreases v, 0
  {
    if v.Children? then w.Children? && SameNodes(v.nodes, w.nodes) else v == w
  }

  ghost predicate SameNodes(ns: seq<Node>, ms: seq<Node>)
    decreases ns, 0
  {
    |ns| == |ms| && forall i :: 0 <= i < |ns| ==> SameNode(ns[i], ms[i])
  }

  lemma {:induction false} NormSameNode(tok: Tokens, n: Node, m: Node)
    requires SameNode(n, m)
    ensures NormNode(tok, n) == NormNode(tok, m)
    decreases n, 0
  {
    hide SameAttrs, SameValue, NormAttrs, NormValue, DistinctKeys;
    NormSameAttrs(tok, n.attrs, m.attrs);
    NormSameValue(tok, n.content, m.content, false);
  }

  /** The partner of an attribute in the other listing. */
  lemma PartnerOf(a: seq<Attr>, b: seq<Attr>, x: Attr) returns (i: nat, j: nat)
    requires SameAttrs(a, b) && x in a
    ensures i < |a| && a[i] == x && j < |b| && b[j].key == x.key && SameValue(a[i].value, b[j].value)
    ensures Dropped(x.value) == Dropped(b[j].value) && b[j] in b
  {
    hide HasTwin, IsTwin, Dropped;
    i :| 0 <= i < |a| && a[i] == x;
    assert HasTwin(a[i], b);
    j := TwinOf(x, b);
    DroppedSame(x.value, b[j].value);
  }

  lemma TwinOf(x: Attr, b: seq<Attr>) returns (j: nat)
    requires HasTwin(x, b)
    ensures j < |b| && x.key == b[j].key && SameValue(x.value, b[j].value)
  {
    hide SameValue;
    j :| 0 <= j < |b| && x.key == b[j].key && SameValue(x.value, b[j].value);
  }

  lemma PartnerBack(a: seq<Attr>, b: seq<Attr>, y: Attr) returns (i: nat, j: nat)
    requires SameAttrs(a, b) && y in b
    ensures j < |b| && b[j] == y && i < |a| && a[i].key == y.key && SameValue(a[i].value, b[j].value)
    ensures Dropped(a[i].value) == Dropped(y.value) && a[i] in a
  {
    hide HasTwin, IsTwin, Dropped;
    j :| 0 <= j < |b| && b[j] == y;
    assert IsTwin(a, b[j]);
    i := TwinIn(a, y);
    DroppedSame(a[i].value, y.value);
  }

  lemma TwinIn(a: seq<Attr>, y: Attr) returns (i: nat)
    requires IsTwin(a, y)
    ensures i < |a| && a[i].key == y.key && SameValue(a[i].value, y.value)
  {
    hide SameValue;
    i :| 0 <= i < |a| && a[i].key == y.key && SameValue(a[i].value, y.value);
  }

  lemma DroppedSame(v: Value, w: Value)
    requires SameValue(v, w)
    ensures Dropped(v) == Dropped(w)
  {
  }

  lemma {:induction false} NormSameAttrs(tok: Tokens, a: seq<Attr>, b: seq<Attr>)
    requires SameAttrs(a, b) && DistinctKeys(a) && DistinctKeys(b)
    ensures NormAttrs(tok, a, map[]) == NormAttrs(tok, b, map[])
    decreases a, 1
  {
    hide NormAttrs, NormValue, Dropped, SameAttrs, DistinctKeys;
    assert a[..0] == b[..0] == [] && a[0..] == a && b[0..] == b;
    NormAttrsIsAttrMap(tok, a, 0, map[]);
    NormAttrsIsAttrMap(tok, b, 0, map[]);
    var m, m' := NormAttrs(tok, a, map[]), NormAttrs(tok, b, map[]);
    forall k
      ensures k in m ==> k in m' && m[k] == m'[k]
      ensures k in m' ==> k in m
    {
      KeyAgrees(tok, a, b, m, m', k);
    }
  }

  lemma {:induction false} KeyAgrees(
    tok: Tokens, a: seq<Attr>, b: seq<Attr>, m: map<Bytes, XValue>, m': map<Bytes, XValue>, k: Bytes)
    requires SameAttrs(a, b) && IsAttrMap(tok, a, m) && IsAttrMap(tok, b, m')
    ensures k in m ==> k in m' && m[k] == m'[k]
    ensures k in m' ==> k in m
    decreases a, 0
  {
    hide NormValue, Dropped, SameValue, SameAttrs;
    if k in m {
      var x :| x in a && !Dropped(x.value) && x.key == k;
      var i, j := PartnerOf(a, b, x);
      NormSameValue(tok, a[i].value, b[j].value, true);
    }
    if k in m' {
      var y :| y in b && !Dropped(y.value) && y.key == k;
      var i, j := PartnerBack(a, b, y);
    }
  }

  lemma {:induction false} NormSameValue(tok: Tokens, v: Value, w: Value, asString: bool)
    requires SameValue(v, w)
    ensures NormValue(tok, v, asString) == NormValue(tok, w, asString)
    decreases v, 0
  {
    hide SameNodes, NormNodes;
    if v.Children? {
      NormSameNodes(tok, v.nodes, w.nodes);
      SameLength(v.nodes, w.nodes);
    }
  }

  lemma SameLength(ns: seq<Node>, ms: seq<Node>)
    requires SameNodes(ns, ms)
    ensures |ns| == |ms|
  {
  }

  lemma {:induction false} NormSameNodes(tok: Tokens, ns: seq<Node>, ms: seq<Node>)
    requires SameNodes(ns, ms)
    ensures NormNodes(tok, ns) == NormNodes(tok, ms)
    decreases ns, 0
  {
    hide SameNode, NormNode;
    if ns != [] {
      NormSameNode(tok, ns[0], ms[0]);
      NormSameNodes(tok, ns[1..], ms[1..]);
    }
  }

  // ----- Whether it can be encoded and read back does not depend on the order either -----

  lemma {:induction false} TaggedSameNode(n: Node, m: Node)
    requires SameNode(n, m)
    ensures TaggedNode(n) == TaggedNode(m)
    decreases n, 0
  {
    hide SameValue, SameAttrs, TaggedValue, TaggedAttrs, DistinctKeys, Dropped;
    TaggedAttrsAll(n.attrs);
    TaggedAttrsAll(m.attrs);
    forall x | x in n.attrs
      ensures exists y ::
        y in m.attrs && Dropped(x.value) == Dropped(y.value) && TaggedValue(x.value) == TaggedValue(y.value)
    {
      var i, j := PartnerOf(n.attrs, m.attrs, x);
      TaggedSameValue(n.attrs[i].value, m.attrs[j].value);
    }
    forall y | y in m.attrs
      ensures exists x ::
        x in n.attrs && Dropped(x.value) == Dropped(y.value) && TaggedValue(x.value) == TaggedValue(y.value)
    {
      var i, j := PartnerBack(n.attrs, m.attrs, y);
      TaggedSameValue(n.attrs[i].value, m.attrs[j].value);
    }
    TaggedSameValue(n.content, m.content);
  }

  lemma {:induction false} TaggedSameValue(v: Value, w: Value)
    requires SameValue(v, w)
    ensures TaggedValue(v) == TaggedValue(w)
    decreases v, 0
  {
    hide SameNodes, TaggedNodes;
    if v.Children? {
      TaggedSameNodes(v.nodes, w.nodes);
    }
  }

  lemma {:induction false} TaggedSameNodes(ns: seq<Node>, ms: seq<Node>)
    requires SameNodes(ns, ms)
    ensures TaggedNodes(ns) == TaggedNodes(ms)
    decreases ns, 0
  {
    hide SameNode, TaggedNode;
    if ns != [] {
      TaggedSameNode(ns[0], ms[0]);
      TaggedSameNodes(ns[1..], ms[1..]);
    }
  }

  /** The keys that are written; there are as many of them as the encoder counts. */
  function KeptKeys(attrs: seq<Attr>): set<Bytes> { set a | a in attrs && !Dropped(a.value) :: a.key }

  lemma KeptStep(attrs: seq<Attr>)
    requires attrs != []
    ensures KeptKeys(attrs) == KeptKeys(attrs[1..]) + if Dropped(attrs[0].value) then {} else {attrs[0].key}
  {
    hide Dropped;
    assert attrs == [attrs[0]] + attrs[1..];
  }

  lemma {:induction false} CountIsKept(attrs: seq<Attr>)
    requires DistinctKeys(attrs)
    ensures CountAttrs(attrs) == |KeptKeys(attrs)|
  {
    hide Dropped, KeptKeys;
    if attrs == [] {
      assert KeptKeys(attrs) == {} by { NoneKept(); }
    } else {
      CountIsKept(attrs[1..]);
      KeptStep(attrs);
      KeyIsNew(attrs);
    }
  }

  lemma NoneKept()
    ensures KeptKeys([]) == {}
  {
  }

  lemma KeyIsNew(attrs: seq<Attr>)
    requires attrs != [] && DistinctKeys(attrs)
    ensures attrs[0].key !in KeptKeys(attrs[1..])
  {
    hide Dropped;
    assert forall a :: a in attrs[1..] ==> a.key != attrs[0].key;
  }

  lemma {:induction false} FitsAttrsAll(attrs: seq<Attr>, lists: bool)
    ensures FitsAttrs(attrs, lists) <==> forall i :: 0 <= i < |attrs| ==> FitsAttr(attrs[i], lists)
  {
    hide FitsAttr;
    if attrs != [] {
      FitsAttrsAll(attrs[1..], lists);
      assert forall i :: 0 < i < |attrs| ==> attrs[i] == attrs[1..][i - 1];
    }
  }

  lemma {:induction false} FitsSameNode(n: Node, m: Node, lists: bool)
    requires SameNode(n, m) && FitsNode(n, lists)
    ensures FitsNode(m, lists)
    decreases n, 1
  {
    hide SameValue, SameAttrs, FitsValue, FitsAttrs, DistinctKeys, Dropped, CountAttrs, KeptKeys;
    FitsAttrsAll(m.attrs, lists);
    CountIsKept(n.attrs);
    CountIsKept(m.attrs);
    SameKept(n.attrs, m.attrs);
    forall j | 0 <= j < |m.attrs| ensures FitsAttr(m.attrs[j], lists) {
      FitsSameAttr(n, m.attrs, m.attrs[j], lists);
    }
    FitsSameValue(n.content, m.content, lists);
    NilSame(n.content, m.content);
  }

  lemma {:induction false} FitsSameAttr(n: Node, b: seq<Attr>, y: Attr, lists: bool)
    requires SameAttrs(n.attrs, b) && FitsAttrs(n.attrs, lists) && y in b
    ensures FitsAttr(y, lists)
    decreases n, 0
  {
    hide SameValue, SameAttrs, FitsValue, FitsAttrs, Dropped;
    FitsAttrsAll(n.attrs, lists);
    var i, j := PartnerBack(n.attrs, b, y);
    assert FitsAttr(n.attrs[i], lists);
    if !Dropped(y.value) {
      FitsSameValue(n.attrs[i].value, y.value, lists);
    }
  }

  lemma NilSame(v: Value, w: Value)
    requires SameValue(v, w)
    ensures v.Nil? == w.Nil?
  {
  }

  lemma SameKept(a: seq<Attr>, b: seq<Attr>)
    requires SameAttrs(a, b)
    ensures KeptKeys(a) == KeptKeys(b)
  {
    hide SameValue, SameAttrs, Dropped;
    forall k ensures k in KeptKeys(a) <==> k in KeptKeys(b) {
      if k in KeptKeys(a) {
        var x :| x in a && !Dropped(x.value) && x.key == k;
        var i, j := PartnerOf(a, b, x);
      }
      if k in KeptKeys(b) {
        var y :| y in b && !Dropped(y.value) && y.key == k;
        var i, j := PartnerBack(a, b, y);
      }
    }
  }

  lemma {:induction false} FitsSameValue(v: Value, w: Value, lists: bool)
    requires SameValue(v, w) && FitsValue(v, lists)
    ensures FitsValue(w, lists)
    decreases v, 0
  {
    hide SameNodes, FitsNodes;
    if v.Children? {
      SameLength(v.nodes, w.nodes);
      FitsSameNodes(v.nodes, w.nodes, lists);
    }
  }

  lemma {:induction false} FitsSameNodes(ns: seq<Node>, ms: seq<Node>, lists: bool)
    requires SameNodes(ns, ms) && FitsNodes(ns, lists)
    ensures FitsNodes(ms, lists)
    decreases ns, 0
  {
    hide SameNode, FitsNode;
    if ns != [] {
      FitsSameNode(ns[0], ms[0], lists);
      FitsSameNodes(ns[1..], ms[1..], lists);
    }
  }

  /** Two runs of the encoder over one node, each visiting every attribute map at every depth in an order of its own,
      are decoded to the same node. */
  lemma OrderDoesNotMatter(tok: Tokens, n: Node, m: Node)
    requires ValidTokens(tok) && FitsNode(n, true) && SameNode(n, m)
    ensures FitsNode(m, true) && Decode(tok, EncNode(tok, n)) == Decode(tok, EncNode(tok, m))
  {
    hide FitsNode, Decode, EncNode, NormNode, TaggedNode, SameNode, ValidTokens;
    FitsSameNode(n, m, true);
    RoundTrip(tok, n);
    RoundTrip(tok, m);
    TaggedSameNode(n, m);
    NormSameNode(tok, n, m);
  }
}
