/** The wire format that the extractor reads, in the terms of the Protocol Buffers encoding: base 128 varints, and one
    field in each of its four wire types. */
module ReportingWire {
  import opened Bytes
  import opened Reporting
  import opened ReportingTheorems

  // ----- Varints -----

  /** Seven bits of each byte, the least significant group first. */
  function Base128(b: Bytes): nat {
    if b == [] then 0 else var first: int := b[0]; first % 128 + 128 * Base128(b[1..])
  }

  /** The first n bytes go on. */
  predicate GoesOn(d: Bytes, n: nat)
    requires n <= |d|
  {
    forall k :: 0 <= k < n ==> d[k] >= 128
  }

  /** With i bytes of a varint behind us: it ends at the first byte below 128, that must not be later than the tenth,
      and the tenth must not exceed 1; it is cut off if the data ends before, and overflows otherwise. */
  predicate Reads(d: Bytes, i: nat, r: VarRead)
    requires i <= 10
  {
    match r
    case VarOk(v, n) =>
      && 0 < n <= |d| && i + n <= 10 && GoesOn(d, n - 1) && d[n - 1] < 128 && (i + n == 10 ==> d[n - 1] <= 1)
      && v == Base128(d[..n])
    case VarShort => i + |d| <= 10 && GoesOn(d, |d|)
    case VarOverflow =>
      || (i + |d| > 10 && GoesOn(d, 10 - i))
      || (i < 10 && i + |d| >= 10 && GoesOn(d, 9 - i) && 1 < d[9 - i] < 128)
  }

  lemma {:induction false} UvarintReads(d: Bytes, i: nat)
    requires i <= 10
    ensures Reads(d, i, Uvarint(d, i))
    decreases |d|
  {
    hide Reads, Base128;
    if d == [] || i == 10 || d[0] < 128 {
      ReadsAtOnce(d, i);
    } else {
      UvarintReads(d[1..], i + 1);
      var r := Uvarint(d[1..], i + 1);
      ReadsOneMore(d, i, r);
    }
  }

  lemma ReadsAtOnce(d: Bytes, i: nat)
    requires i <= 10 && (d == [] || i == 10 || d[0] < 128)
    ensures Reads(d, i, Uvarint(d, i))
  {
    if d != [] && i < 10 {
      assert d[..1] == [d[0]] && [d[0]][1..] == [];
    }
  }

  lemma ReadsOneMore(d: Bytes, i: nat, r: VarRead)
    requires i < 10 && d != [] && d[0] >= 128 && Reads(d[1..], i + 1, r)
    ensures Reads(d, i, if r.VarOk? then VarOk(d[0] - 128 + 128 * r.value, r.n + 1) else r)
  {
    hide Base128;
    assert forall k :: 1 <= k < |d| ==> d[k] == d[1..][k - 1];
    if r.VarOk? {
      Base128Step(d[..r.n + 1]);
      assert d[..r.n + 1][1..] == d[1..][..r.n];
    }
  }

  lemma Base128Step(b: Bytes)
    requires b != []
    ensures var first: int := b[0]; Base128(b) == first % 128 + 128 * Base128(b[1..])
  {
  }

  /** No two readings fit the same data. */
  lemma ReadsOnce(d: Bytes, r: VarRead)
    ensures Reads(d, 0, r) <==> r == Uvarint(d, 0)
  {
    hide Uvarint, Base128;
    UvarintReads(d, 0);
    if Reads(d, 0, r) && r.VarOk? && Uvarint(d, 0).VarOk? {
      assert r.n == Uvarint(d, 0).n;
    }
  }

  // ----- Fields -----

  /** The payload of a field: a varint, eight bytes, a sequence of bytes, or four bytes. */
  datatype Payload = Varint(value: nat) | Fixed64(bytes: Bytes) | Delimited(bytes: Bytes) | Fixed32(bytes: Bytes)

  predicate Sized(p: Payload) {
    match p
    case Varint(v) => v < 0x1_0000_0000_0000_0000
    case Fixed64(b) => |b| == 8
    case Delimited(b) => |b| < 0x1_0000_0000_0000_0000
    case Fixed32(b) => |b| == 4
  }

  function WireType(p: Payload): nat {
    match p case Varint(_) => 0 case Fixed64(_) => 1 case Delimited(_) => 2 case Fixed32(_) => 5
  }

  /** A field of this number, as a sender writes it. */
  function Written(num: nat, p: Payload): Bytes {
    PutUvarint(8 * num + WireType(p)) +
    match p
    case Varint(v) => PutUvarint(v)
    case Fixed64(b) => b
    case Delimited(b) => PutUvarint(|b|) + b
    case Fixed32(b) => b
  }

  lemma LimitIs()
    ensures Limit(0) == 0x1_0000_0000_0000_0000
  {
    assert Limit(9) == 2 && Limit(8) == 0x100 && Limit(7) == 0x8000 && Limit(6) == 0x40_0000;
    assert Limit(5) == 0x2000_0000 && Limit(4) == 0x10_0000_0000 && Limit(3) == 0x800_0000_0000;
    assert Limit(2) == 0x4_0000_0000_0000 && Limit(1) == 0x200_0000_0000_0000;
  }

  /** A field that was written in any of the four wire types is read back with its number, its bytes and, if it is
      length-delimited, its content, whatever follows; other wire types are refused. */
  lemma WrittenIsRead(num: nat, p: Payload, rest: Bytes)
    requires Sized(p) && 8 * num + 7 < 0x1_0000_0000_0000_0000
    ensures ParseOne(Written(num, p) + rest) ==
      Piece(Field(8 * num + WireType(p), Written(num, p), if p.Delimited? then p.bytes else []), rest)
  {
    hide ParseOne, PutUvarint;
    var tag := 8 * num + WireType(p);
    match p
    case Varint(v) => VarintIsRead(tag, v, rest);
    case Fixed64(b) => FixedIsRead(tag, b, rest);
    case Delimited(b) => DelimitedIsRead(tag, b, rest);
    case Fixed32(b) => FixedIsRead(tag, b, rest);
  }

  lemma TagFirst(tag: nat, body: Bytes, rest: Bytes)
    requires tag < 0x1_0000_0000_0000_0000
    ensures var a := PutUvarint(tag);
      var d := a + body + rest;
      Uvarint(d, 0) == VarOk(tag, |a|) && |a| > 0 && d[|a|..] == body + rest && d[..|a| + |body|] == a + body
      && d[|a| + |body|..] == rest
  {
    hide Uvarint, PutUvarint, Limit;
    LimitIs();
    var a := PutUvarint(tag);
    assert a + body + rest == a + (body + rest);
    PutBack(tag, 0, body + rest);
  }

  lemma VarintIsRead(tag: nat, v: nat, rest: Bytes)
    requires tag < 0x1_0000_0000_0000_0000 && tag % 8 == 0 && v < 0x1_0000_0000_0000_0000
    ensures var raw := PutUvarint(tag) + PutUvarint(v); ParseOne(raw + rest) == Piece(Field(tag, raw, []), rest)
  {
    hide Uvarint, PutUvarint, Limit;
    LimitIs();
    TagFirst(tag, PutUvarint(v), rest);
    PutBack(v, 0, rest);
  }

  lemma FixedIsRead(tag: nat, b: Bytes, rest: Bytes)
    requires tag < 0x1_0000_0000_0000_0000 && ((tag % 8 == 1 && |b| == 8) || (tag % 8 == 5 && |b| == 4))
    ensures var raw := PutUvarint(tag) + b; ParseOne(raw + rest) == Piece(Field(tag, raw, []), rest)
  {
    hide Uvarint, PutUvarint;
    TagFirst(tag, b, rest);
  }

  lemma DelimitedIsRead(tag: nat, b: Bytes, rest: Bytes)
    requires tag < 0x1_0000_0000_0000_0000 && tag % 8 == 2 && |b| < 0x1_0000_0000_0000_0000
    ensures var raw := PutUvarint(tag) + (PutUvarint(|b|) + b);
      ParseOne(raw + rest) == Piece(Field(tag, raw, b), rest)
  {
    hide Uvarint, PutUvarint, Limit, ParseOne, Cut;
    LimitIs();
    var a, l := PutUvarint(tag), PutUvarint(|b|);
    TagFirst(tag, l + b, rest);
    Regrouped(a, l, b, rest);
    PutBack(|b|, 0, b + rest);
    DelimitedAt(tag, a + (l + b) + rest, |a|, l + b + rest, |l|, a + l, b, rest);
  }

  lemma DelimitedAt(tag: nat, d: Bytes, t: nat, tail: Bytes, n: nat, head: Bytes, b: Bytes, rest: Bytes)
    requires Uvarint(d, 0) == VarOk(tag, t) && 0 < t && tag % 8 == 2 && d[t..] == tail
    requires Uvarint(tail, 0) == VarOk(|b|, n) && |head| == t + n && d == head + b + rest
    ensures ParseOne(d) == Piece(Field(tag, head + b, b), rest)
  {
    hide Uvarint, ParseOne, Cut;
    ParseDelimited(d, tag, t, |b|, n);
    CutBetween(tag, head, b, rest);
  }

  lemma Regrouped(a: Bytes, l: Bytes, b: Bytes, rest: Bytes)
    ensures a + (l + b) + rest == a + l + b + rest && a + l + b == a + (l + b) && l + b + rest == l + (b + rest)
  {
  }

  lemma ParseDelimited(d: Bytes, tag: nat, t: nat, l: nat, n: nat)
    requires Uvarint(d, 0) == VarOk(tag, t) && 0 < t && tag % 8 == 2 && Uvarint(d[t..], 0) == VarOk(l, n)
    ensures ParseOne(d) == Cut(tag, d, t + n, l)
  {
    hide Uvarint, Cut;
  }

  lemma CutBetween(tag: nat, head: Bytes, b: Bytes, rest: Bytes)
    requires tag % 8 == 2 && head != []
    ensures Cut(tag, head + b + rest, |head|, |b|) == Piece(Field(tag, head + b, b), rest)
  {
  }

  /** A tag with another wire type makes the extractor give up, on any message. */
  lemma OtherWireTypes(tag: nat, rest: Bytes)
    requires tag < 0x1_0000_0000_0000_0000 && tag % 8 in {3, 4, 6, 7}
    ensures ParseOne(PutUvarint(tag) + rest) == BadWire
  {
    hide Uvarint, PutUvarint, Limit;
    LimitIs();
    PutBack(tag, 0, rest);
  }

  /** A message as a sender writes it. */
  function WrittenAll(fs: seq<(nat, Payload)>): Bytes {
    if fs == [] then [] else Written(fs[0].0, fs[0].1) + WrittenAll(fs[1..])
  }

  ghost predicate AllSized(fs: seq<(nat, Payload)>) {
    forall i :: 0 <= i < |fs| ==> Sized(fs[i].1) && 8 * fs[i].0 + 7 < 0x1_0000_0000_0000_0000
  }

  function AsField(f: (nat, Payload)): Field {
    Field(8 * f.0 + WireType(f.1), Written(f.0, f.1), if f.1.Delimited? then f.1.bytes else [])
  }

  function FieldsOf(fs: seq<(nat, Payload)>): (r: seq<Field>)
    ensures |r| == |fs| && forall i :: 0 <= i < |fs| ==> r[i] == AsField(fs[i])
  {
    seq(|fs|, i requires 0 <= i < |fs| => AsField(fs[i]))
  }

  lemma FieldsStep(fs: seq<(nat, Payload)>)
    ensures FieldsOf([]) == [] && (fs != [] ==> FieldsOf(fs) == [AsField(fs[0])] + FieldsOf(fs[1..]))
  {
    hide AsField;
  }

  lemma AsFieldIs(f: (nat, Payload))
    ensures AsField(f) ==
            Field(8 * f.0 + WireType(f.1), Written(f.0, f.1), if f.1.Delimited? then f.1.bytes else [])
  {
    hide Written;
  }

  /** Its fields are those that were written. */
  lemma {:induction false} MessageIsRead(fs: seq<(nat, Payload)>)
    requires AllSized(fs)
    ensures Scan(WrittenAll(fs)) == Scanned(FieldsOf(fs), AtEnd)
  {
    hide ParseOne, Written, WireType, FieldsOf, AsField;
    FieldsStep(fs);
    if fs != [] {
      MessageIsRead(fs[1..]);
      WrittenIsRead(fs[0].0, fs[0].1, WrittenAll(fs[1..]));
      WrittenIsNonempty(fs[0].0, fs[0].1);
      AsFieldIs(fs[0]);
    }
  }

  lemma WrittenIsNonempty(num: nat, p: Payload)
    ensures Written(num, p) != []
  {
  }

  /** With wire types that are not used the output is empty, whatever is configured. */
  lemma UnknownWireTypeEmpties(sort: Sorter, cfg: seq<Config>, fs: seq<(nat, Payload)>, tag: nat, rest: Bytes)
    requires AllSized(fs) && tag < 0x1_0000_0000_0000_0000 && tag % 8 in {3, 4, 6, 7}
    ensures Extract(sort, cfg, WrittenAll(fs) + (PutUvarint(tag) + rest)) == []
  {
    hide ParseOne, PutUvarint, Keep, Scan;
    GivesUpBehind(fs, tag, rest);
  }

  lemma {:induction false} GivesUpBehind(fs: seq<(nat, Payload)>, tag: nat, rest: Bytes)
    requires AllSized(fs) && tag < 0x1_0000_0000_0000_0000 && tag % 8 in {3, 4, 6, 7}
    ensures Scan(WrittenAll(fs) + (PutUvarint(tag) + rest)).end == AtBadWire
  {
    hide ParseOne, Written, PutUvarint;
    var bad := PutUvarint(tag) + rest;
    if fs == [] {
      assert [] + bad == bad;
      OtherWireTypes(tag, rest);
      assert bad != [];
    } else {
      GivesUpBehind(fs[1..], tag, rest);
      WrittenIsRead(fs[0].0, fs[0].1, WrittenAll(fs[1..]) + bad);
      WrittenIsNonempty(fs[0].0, fs[0].1);
      assert WrittenAll(fs) + bad == Written(fs[0].0, fs[0].1) + (WrittenAll(fs[1..]) + bad);
    }
  }

  // ----- What stands behind the last field -----

  lemma {:induction false} KeepIgnoresBound(sort: Sorter, cfg: seq<Config>, fs: seq<Field>, a: nat, b: nat)
    requires forall f :: f in fs ==> |f.content| < a && |f.content| < b
    ensures Keep(sort, cfg, fs, a) == Keep(sort, cfg, fs, b)
    decreases |fs|
  {
    hide KeepOne;
    if fs != [] {
      KeepIgnoresBound(sort, cfg, fs[..|fs| - 1], a, b);
    }
  }

  lemma {:induction false} JunkIsNotScanned(fs: seq<(nat, Payload)>, junk: Bytes)
    requires AllSized(fs) && !Uvarint(junk, 0).VarOk?
    ensures Scan(WrittenAll(fs) + junk).fields == Scan(WrittenAll(fs)).fields
    ensures !Scan(WrittenAll(fs) + junk).end.AtBadWire?
  {
    hide ParseOne, Written, Scan, FieldsOf, AsField, Uvarint;
    MessageIsRead(fs);
    FieldsStep(fs);
    if fs == [] {
      assert [] + junk == junk;
      NoTagToRead(junk);
    } else {
      JunkIsNotScanned(fs[1..], junk);
      MessageIsRead(fs[1..]);
      ScanOneWritten(fs[0], WrittenAll(fs[1..]) + junk);
      assert WrittenAll(fs) + junk == Written(fs[0].0, fs[0].1) + (WrittenAll(fs[1..]) + junk);
    }
  }

  lemma ScanOneWritten(f: (nat, Payload), rest: Bytes)
    requires Sized(f.1) && 8 * f.0 + 7 < 0x1_0000_0000_0000_0000
    ensures var s := Scan(rest); Scan(Written(f.0, f.1) + rest) == Scanned([AsField(f)] + s.fields, s.end)
  {
    hide ParseOne, Written, AsField;
    WrittenIsRead(f.0, f.1, rest);
    WrittenIsNonempty(f.0, f.1);
    AsFieldIs(f);
  }

  lemma NoTagToRead(junk: Bytes)
    requires !Uvarint(junk, 0).VarOk?
    ensures Scan(junk).fields == [] && !Scan(junk).end.AtBadWire?
  {
  }

  /** Bytes that cannot be read as a tag end the message: the fields before them are kept as if they were not there. */
  lemma UnreadableTagIsIgnored(sort: Sorter, cfg: seq<Config>, fs: seq<(nat, Payload)>, junk: Bytes)
    requires AllSized(fs) && !Uvarint(junk, 0).VarOk?
    ensures Extract(sort, cfg, WrittenAll(fs) + junk) == Extract(sort, cfg, WrittenAll(fs))
  {
    hide Keep, Scan, Uvarint, Written;
    JunkIsNotScanned(fs, junk);
    MessageIsRead(fs);
    var d := WrittenAll(fs);
    ExtractIs(sort, cfg, d + junk);
    ExtractIs(sort, cfg, d);
    KeepIgnoresBound(sort, cfg, Scan(d).fields, |d + junk|, |d|);
  }
}
