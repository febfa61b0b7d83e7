/** A fact about all inputs: a successful decode never looks beyond the bytes it consumes. */
module BinaryLocality {
  import opened Bytes
  import opened BinaryXml
  import opened BinaryRoundTrip

  ghost predicate IsSuffix(rest: Bytes, d: Bytes) {
    |rest| <= |d| && d[|d| - |rest|..] == rest
  }

  lemma SuffixOfSuffix(a: Bytes, b: Bytes, c: Bytes)
    requires IsSuffix(a, b) && IsSuffix(b, c)
    ensures IsSuffix(a, c)
  {
    assert c[|c| - |a|..] == c[|c| - |b|..][|b| - |a|..];
  }

  /** If reading d succeeds then it leaves a suffix of d, and reading d followed by x gives the same value and leaves
      that suffix followed by x. */
  ghost predicate Local<T>(r: Parsed<T>, rx: Parsed<T>, d: Bytes, x: Bytes) {
    r.Done? ==> IsSuffix(r.rest, d) && rx == Done(r.value, r.rest + x)
  }

  lemma DropLocal(d: Bytes, x: Bytes, n: nat)
    requires n <= |d|
    ensures (d + x)[..n] == d[..n] && (d + x)[n..] == d[n..] + x && IsSuffix(d[n..], d)
  {
  }

  lemma IntLocal(d: Bytes, n: nat, x: Bytes)
    ensures Local(ReadInt(d, n), ReadInt(d + x, n), d, x)
  {
    if n <= |d| {
      DropLocal(d, x, n);
    }
  }

  lemma Int20Local(d: Bytes, x: Bytes)
    ensures Local(ReadInt20(d), ReadInt20(d + x), d, x)
  {
    if 3 <= |d| {
      DropLocal(d, x, 3);
    }
  }

  lemma ListSizeLocal(tag: nat, d: Bytes, x: Bytes)
    ensures Local(ReadListSize(tag, d), ReadListSize(tag, d + x), d, x)
  {
    hide ReadInt;
    IntLocal(d, 1, x);
    IntLocal(d, 2, x);
    assert d[0..] == d;
  }

  lemma NodeSizeLocal(d: Bytes, x: Bytes)
    ensures Local(ReadNodeSize(d), ReadNodeSize(d + x), d, x)
  {
    hide ReadInt, ReadListSize, IsSuffix;
    IntLocal(d, 1, x);
    if ReadInt(d, 1).Done? {
      var Done(tag, d1) := ReadInt(d, 1);
      ListSizeLocal(tag, d1, x);
      if ReadListSize(tag, d1).Done? {
        SuffixOfSuffix(ReadListSize(tag, d1).rest, d1, d);
      }
    }
  }

  lemma {:induction false} PairsLocal(d: Bytes, n: nat, hex: bool, x: Bytes)
    ensures Local(UnpackPairs(d, n, hex), UnpackPairs(d + x, n, hex), d, x)
    decreases n
  {
    hide UnpackByte;
    if n == 0 {
      assert d[0..] == d;
    } else if d != [] {
      DropLocal(d, x, 1);
      PairsLocal(d[1..], n - 1, hex, x);
      if UnpackPairs(d[1..], n - 1, hex).Done? {
        SuffixOfSuffix(UnpackPairs(d[1..], n - 1, hex).rest, d[1..], d);
      }
    }
  }

  lemma PackedLocal(d: Bytes, hex: bool, x: Bytes)
    ensures Local(ReadPacked(d, hex), ReadPacked(d + x, hex), d, x)
  {
    hide UnpackPairs;
    if d != [] {
      DropLocal(d, x, 1);
      PairsLocal(d[1..], d[0] % 128, hex, x);
      if UnpackPairs(d[1..], d[0] % 128, hex).Done? {
        SuffixOfSuffix(UnpackPairs(d[1..], d[0] % 128, hex).rest, d[1..], d);
      }
    }
  }

  lemma SizedLocal(size: Parsed<nat>, sizeX: Parsed<nat>, asString: bool, d: Bytes, x: Bytes)
    requires Local(size, sizeX, d, x)
    ensures Local(ReadSized(size, asString), ReadSized(sizeX, asString), d, x)
  {
    if size.Done? && size.value <= |size.rest| {
      DropLocal(size.rest, x, size.value);
      SuffixOfSuffix(size.rest[size.value..], size.rest, d);
    }
  }

  lemma DoubleLocal(tok: Tokens, dict: nat, d: Bytes, x: Bytes)
    ensures Local(ReadDouble(tok, dict, d), ReadDouble(tok, dict, d + x), d, x)
  {
    hide ReadInt;
    IntLocal(d, 1, x);
  }

  lemma {:induction false} ReadLocal(tok: Tokens, d: Bytes, asString: bool, x: Bytes)
    ensures Local(Read(tok, d, asString), Read(tok, d + x, asString), d, x)
    decreases |d|, 0, 0
  {
    hide ReadList, ReadFBJID, ReadInteropJID, ReadJIDPair, ReadADJID, ReadPacked, ReadSized, ReadDouble, ReadInt,
      ReadInt20;
    if d != [] {
      var r := d[1..];
      DropLocal(d, x, 1);
      BodyLocal(tok, d[0], r, asString, x);
      if Read(tok, d, asString).Done? {
        SuffixOfSuffix(Read(tok, d, asString).rest, r, d);
      }
    }
  }

  /** The part of `Read` after the tag byte. */
  lemma {:induction false} BodyLocal(tok: Tokens, tag: byte, r: Bytes, asString: bool, x: Bytes)
    ensures Local(Read(tok, [tag] + r, asString), Read(tok, [tag] + (r + x), asString), r, x)
    decreases |r|, 4, 0
  {
    hide ReadList, ReadFBJID, ReadInteropJID, ReadJIDPair, ReadADJID, ReadPacked, ReadSized, ReadDouble, ReadInt,
      ReadInt20, IsSuffix;
    assert ([tag] + r)[1..] == r && ([tag] + (r + x))[1..] == r + x;
    Whole(r);
    if tag == LIST_8 || tag == LIST_16 {
      ListLocal(tok, tag, r, x);
    } else if tag == BINARY_8 || tag == BINARY_32 {
      var n := if tag == BINARY_8 then 1 else 4;
      IntLocal(r, n, x);
      SizedLocal(ReadInt(r, n), ReadInt(r + x, n), asString, r, x);
    } else if tag == BINARY_20 {
      Int20Local(r, x);
      SizedLocal(ReadInt20(r), ReadInt20(r + x), asString, r, x);
    } else if DICTIONARY_0 <= tag <= DICTIONARY_3 {
      DoubleLocal(tok, tag - DICTIONARY_0, r, x);
    } else if tag == FB_JID {
      FBLocal(tok, r, x);
    } else if tag == INTEROP_JID {
      InteropLocal(tok, r, x);
    } else if tag == JID_PAIR {
      PairLocal(tok, r, x);
    } else if tag == AD_JID {
      ADLocal(tok, r, x);
    } else if tag == NIBBLE_8 || tag == HEX_8 {
      PackedLocal(r, tag == HEX_8, x);
    }
  }

  lemma Whole(d: Bytes)
    ensures IsSuffix(d, d)
  {
    assert d[0..] == d;
  }

  lemma {:induction false} PairLocal(tok: Tokens, d: Bytes, x: Bytes)
    ensures Local(ReadJIDPair(tok, d), ReadJIDPair(tok, d + x), d, x)
    decreases |d|, 1, 0
  {
    hide Read, IsSuffix;
    ReadLocal(tok, d, true, x);
    if Read(tok, d, true).Done? {
      var d1 := Read(tok, d, true).rest;
      ReadLocal(tok, d1, true, x);
      if Read(tok, d1, true).Done? {
        SuffixOfSuffix(Read(tok, d1, true).rest, d1, d);
      }
    }
  }

  lemma {:induction false} ThenSkip(tok: Tokens, d: Bytes, n: nat, x: Bytes)
    requires Read(tok, d, true).Done? && n <= |Read(tok, d, true).rest|
    ensures var d1 := Read(tok, d, true).rest;
      && Read(tok, d + x, true) == Done(Read(tok, d, true).value, d1 + x)
      && (d1 + x)[..n] == d1[..n] && (d1 + x)[n..] == d1[n..] + x
      && Local(Read(tok, d1[n..], true), Read(tok, d1[n..] + x, true), d, x)
    decreases |d|, 0, 1
  {
    hide Read, IsSuffix;
    var d1 := Read(tok, d, true).rest;
    ReadLocal(tok, d, true, x);
    DropLocal(d1, x, n);
    ReadLocal(tok, d1[n..], true, x);
    SuffixOfSuffix(d1[n..], d1, d);
    if Read(tok, d1[n..], true).Done? {
      SuffixOfSuffix(Read(tok, d1[n..], true).rest, d1[n..], d);
    }
  }

  lemma {:induction false} FBLocal(tok: Tokens, d: Bytes, x: Bytes)
    ensures Local(ReadFBJID(tok, d), ReadFBJID(tok, d + x), d, x)
    decreases |d|, 1, 0
  {
    hide Read, IsSuffix, TwoBytes;
    if Read(tok, d, true).Done? && 2 <= |Read(tok, d, true).rest| {
      ThenSkip(tok, d, 2, x);
    }
  }

  lemma {:induction false} InteropLocal(tok: Tokens, d: Bytes, x: Bytes)
    ensures Local(ReadInteropJID(tok, d), ReadInteropJID(tok, d + x), d, x)
    decreases |d|, 1, 0
  {
    hide Read, IsSuffix, TwoBytes;
    if Read(tok, d, true).Done? && 4 <= |Read(tok, d, true).rest| {
      ThenSkip(tok, d, 4, x);
      var d1 := Read(tok, d, true).rest;
      assert (d1 + x)[..2] == d1[..2] && (d1 + x)[2..4] == d1[2..4];
    }
  }

  lemma {:induction false} ADLocal(tok: Tokens, d: Bytes, x: Bytes)
    ensures Local(ReadADJID(tok, d), ReadADJID(tok, d + x), d, x)
    decreases |d|, 1, 0
  {
    hide Read, IsSuffix, NewADJID;
    if 2 <= |d| {
      DropLocal(d, x, 2);
      ReadLocal(tok, d[2..], true, x);
      if Read(tok, d[2..], true).Done? {
        SuffixOfSuffix(Read(tok, d[2..], true).rest, d[2..], d);
      }
    }
  }

  lemma {:induction false} ListLocal(tok: Tokens, tag: nat, d: Bytes, x: Bytes)
    ensures Local(ReadList(tok, tag, d), ReadList(tok, tag, d + x), d, x)
    decreases |d|, 3, 0
  {
    hide ReadListSize, ReadNodes, IsSuffix;
    ListSizeLocal(tag, d, x);
    if ReadListSize(tag, d).Done? {
      var Done(n, d1) := ReadListSize(tag, d);
      SuffixShorter(d1, d);
      NodesLocal(tok, n, d1, x);
      if ReadNodes(tok, n, d1).Done? {
        SuffixOfSuffix(ReadNodes(tok, n, d1).rest, d1, d);
      }
    }
  }

  lemma SuffixShorter(a: Bytes, b: Bytes)
    requires IsSuffix(a, b)
    ensures |a| <= |b|
  {
  }

  lemma {:induction false} NodesLocal(tok: Tokens, n: nat, d: Bytes, x: Bytes)
    ensures Local(ReadNodes(tok, n, d), ReadNodes(tok, n, d + x), d, x)
    decreases |d|, 2, n
  {
    hide ReadNode, IsSuffix;
    if n == 0 {
      Whole(d);
    } else {
      NodeLocal(tok, d, x);
      if ReadNode(tok, d).Done? {
        var d1 := ReadNode(tok, d).rest;
        NodesLocal(tok, n - 1, d1, x);
        if ReadNodes(tok, n - 1, d1).Done? {
          SuffixOfSuffix(ReadNodes(tok, n - 1, d1).rest, d1, d);
        }
      }
    }
  }

  lemma {:induction false} AttrsLocal(tok: Tokens, n: nat, d: Bytes, attrs: map<Bytes, XValue>, x: Bytes)
    ensures Local(ReadAttrs(tok, n, d, attrs), ReadAttrs(tok, n, d + x, attrs), d, x)
    decreases |d|, 1, n
  {
    hide Read, IsSuffix;
    if n == 0 {
      Whole(d);
    } else {
      ReadLocal(tok, d, true, x);
      var key := Read(tok, d, true);
      if key.Done? && key.value.XText? {
        ReadLocal(tok, key.rest, true, x);
        var value := Read(tok, key.rest, true);
        if value.Done? {
          SuffixOfSuffix(value.rest, key.rest, d);
          AttrsLocal(tok, n - 1, value.rest, attrs[key.value.s := value.value], x);
          var r := ReadAttrs(tok, n - 1, value.rest, attrs[key.value.s := value.value]);
          if r.Done? {
            SuffixOfSuffix(r.rest, value.rest, d);
          }
        }
      }
    }
  }

  /** Decoding a node from any bytes: on success the node and the number of bytes consumed are the same whatever bytes
      follow. */
  lemma {:induction false} NodeLocal(tok: Tokens, d: Bytes, x: Bytes)
    ensures Local(ReadNode(tok, d), ReadNode(tok, d + x), d, x)
    decreases |d|, 1, 0
  {
    hide Read, ReadAttrs, ReadNodeSize, IsSuffix;
    NodeSizeLocal(d, x);
    var size := ReadNodeSize(d);
    if size.Done? {
      SizeShrinks(d);
      ReadLocal(tok, size.rest, true, x);
      var tag := Read(tok, size.rest, true);
      if tag.Done? && tag.value.XText? && size.value != 0 && tag.value.s != [] {
        SuffixOfSuffix(tag.rest, size.rest, d);
        AttrsLocal(tok, (size.value - 1) / 2, tag.rest, map[], x);
        var attrs := ReadAttrs(tok, (size.value - 1) / 2, tag.rest, map[]);
        if attrs.Done? {
          SuffixOfSuffix(attrs.rest, tag.rest, d);
          ReadLocal(tok, attrs.rest, false, x);
          var content := Read(tok, attrs.rest, false);
          if content.Done? {
            SuffixOfSuffix(content.rest, attrs.rest, d);
          }
        }
      }
    }
  }

  lemma SizeShrinks(d: Bytes)
    ensures ReadNodeSize(d).Done? ==> |ReadNodeSize(d).rest| < |d|
  {
    hide FromBigEndian;
  }
}
