/** What extraction guarantees: an output never longer than the input, and when it is scanned back as exactly the kept
    fields; idempotence; and independence of the sorting algorithm when field numbers are distinct. */
module ReportingTheorems {
  import opened Bytes
  import opened Reporting

  // ----- Varints -----

  /** One more than the largest value that may still follow i varint bytes. */
  function Limit(i: nat): (l: nat)
    ensures l >= 2
    decreases MAX_VARINT_LEN - i
  {
    if i >= MAX_VARINT_LEN - 1 then 2 else 0x80 * Limit(i + 1)
  }

  lemma {:induction false} VarintLocal(d: Bytes, i: nat, x: Bytes)
    requires Uvarint(d, i).VarOk?
    ensures Uvarint(d[..Uvarint(d, i).n] + x, i) == Uvarint(d, i)
    decreases |d|
  {
    var n := Uvarint(d, i).n;
    if d[0] < 0x80 {
      assert (d[..n] + x)[0] == d[0];
    } else {
      VarintLocal(d[1..], i + 1, x);
      assert (d[..n] + x)[1..] == d[1..][..n - 1] + x && (d[..n] + x)[0] == d[0];
    }
  }

  /** The minimal encoding is read back; nothing shorter encodes the value, and no value exceeds 64 bits. */
  lemma {:induction false} PutBack(v: nat, i: nat, x: Bytes)
    requires i < MAX_VARINT_LEN && v < Limit(i)
    ensures Uvarint(PutUvarint(v) + x, i) == VarOk(v, |PutUvarint(v)|)
    decreases v
  {
    if v >= 0x80 {
      var first: byte := v % 0x80 + 0x80;
      PutBack(v / 0x80, i + 1, x);
      var d := PutUvarint(v) + x;
      assert d == [first] + (PutUvarint(v / 0x80) + x);
      assert d[0] == first && d[1..] == PutUvarint(v / 0x80) + x;
    } else {
      assert (PutUvarint(v) + x)[0] == v;
    }
  }

  lemma {:induction false} PutShortest(d: Bytes, i: nat)
    requires Uvarint(d, i).VarOk? && i < MAX_VARINT_LEN
    ensures Uvarint(d, i).value < Limit(i)
    ensures |PutUvarint(Uvarint(d, i).value)| <= Uvarint(d, i).n
    decreases |d|
  {
    if d[0] < 0x80 {
      SmallFits(i);
    } else if i + 1 < MAX_VARINT_LEN {
      PutShortest(d[1..], i + 1);
      var v := Uvarint(d[1..], i + 1).value;
      var whole: nat := Uvarint(d, i).value;
      assert whole / 0x80 == v;
    }
  }

  lemma SmallFits(i: nat)
    ensures i < MAX_VARINT_LEN - 1 ==> Limit(i) >= 0x100
  {
  }

  lemma {:induction false} PutMonotone(a: nat, b: nat)
    requires a <= b
    ensures |PutUvarint(a)| <= |PutUvarint(b)|
    decreases b
  {
    if b >= 0x80 && a >= 0x80 {
      PutMonotone(a / 0x80, b / 0x80);
    }
  }

  // ----- One field -----

  /** A tag whose varint was cut off. */
  predicate Bare(f: Field) {
    (f.Wire() == VARINT || f.Wire() == LEN) && Uvarint(f.raw, 0).VarOk? && Uvarint(f.raw, 0).n == |f.raw|
  }

  /** The field's bytes are parsed back to it, whatever follows unless it is bare, and its numbers have at most 64
      bits. */
  ghost predicate Genuine(f: Field) {
    && f.raw != [] && ParseOne(f.raw) == Piece(f, [])
    && (!Bare(f) ==> forall x: Bytes :: ParseOne(f.raw + x) == Piece(f, x))
    && f.tag < Limit(0) && |f.content| < Limit(0)
    && (if Bare(f) then f.content == []
        else f.Wire() == LEN ==> |PutUvarint(f.tag)| + |PutUvarint(|f.content|)| + |f.content| <= |f.raw|)
  }

  lemma CutAgain(tag: nat, d: Bytes, start: nat, n: nat, x: Bytes)
    requires 0 < start && start + n <= |d|
    ensures Cut(tag, d[..start + n] + x, start, n) == Piece(Cut(tag, d, start, n).field, x)
  {
    var d' := d[..start + n] + x;
    assert d'[..start + n] == d[..start + n] && d'[start..start + n] == d[start..start + n] && d'[start + n..] == x;
  }

  lemma CutOffHere()
    ensures Uvarint([], 0) == VarShort
  {
  }

  /** The bytes of a parsed field: a prefix of the data that covers the tag and the length. */
  lemma RawIsPrefix(d: Bytes)
    requires ParseOne(d).Piece?
    ensures Uvarint(d, 0).VarOk? && ParseOne(d).field.tag == Uvarint(d, 0).value
    ensures var f, t := ParseOne(d).field, Uvarint(d, 0).n;
      && t <= |f.raw| <= |d| && f.raw == d[..|f.raw|] && f.raw != []
      && (f.Wire() != LEN ==> f.content == [])
      && (f.Wire() == I64 ==> |f.raw| == t + 8)
      && (f.Wire() == I32 ==> |f.raw| == t + 4)
      && (f.Wire() == VARINT || f.Wire() == LEN ==>
        match Uvarint(d[t..], 0)
        case VarOk(l, n) =>
          if f.Wire() == LEN then |f.raw| == t + n + l && |f.content| == l else |f.raw| == t + n
        case VarShort => |f.raw| == t && f.content == []
        case VarOverflow => false)
  {
    hide Uvarint;
  }

  /** A field is bare when nothing but its tag was there to be read. */
  lemma BareWhenCutOff(d: Bytes)
    requires ParseOne(d).Piece?
    ensures Uvarint(d, 0).VarOk?
    ensures var f, t := ParseOne(d).field, Uvarint(d, 0).n;
      Bare(f) <==> (f.Wire() == VARINT || f.Wire() == LEN) && Uvarint(d[t..], 0) == VarShort
  {
    hide Uvarint, ParseOne;
    RawIsPrefix(d);
    var f, t := ParseOne(d).field, Uvarint(d, 0).n;
    assert f.raw == d[..t] + f.raw[t..];
    VarintLocal(d, 0, f.raw[t..]);
    if f.Wire() == VARINT || f.Wire() == LEN {
      VarintTakes(d[t..]);
    }
  }

  lemma VarintTakes(d: Bytes)
    ensures Uvarint(d, 0).VarOk? ==> Uvarint(d, 0).n > 0
  {
  }

  lemma ParsedAgain(d: Bytes, x: Bytes)
    requires ParseOne(d).Piece? && (Bare(ParseOne(d).field) ==> x == [])
    ensures ParseOne(ParseOne(d).field.raw + x) == Piece(ParseOne(d).field, x)
  {
    hide Uvarint, Cut, Bare;
    var VarOk(tag, t) := Uvarint(d, 0);
    var raw := ParseOne(d).field.raw;
    RawIsPrefix(d);
    assert raw + x == d[..t] + (raw[t..] + x);
    VarintLocal(d, 0, raw[t..] + x);
    assert (raw + x)[t..] == raw[t..] + x;
    BareWhenCutOff(d);
    if Bare(ParseOne(d).field) {
      CutOffHere();
      CutAgain(tag, d, t, 0, x);
    } else if tag % 8 == VARINT || tag % 8 == LEN {
      var VarOk(l, n) := Uvarint(d[t..], 0);
      assert raw[t..] + x == d[t..][..n] + (raw[t + n..] + x);
      VarintLocal(d[t..], 0, raw[t + n..] + x);
      CutAgain(tag, d, t + n, if tag % 8 == LEN then l else 0, x);
    } else {
      CutAgain(tag, d, t, if tag % 8 == I64 then 8 else 4, x);
    }
  }

  lemma ParsedGenuine(d: Bytes)
    requires ParseOne(d).Piece?
    ensures Genuine(ParseOne(d).field)
  {
    hide Uvarint, Limit, PutUvarint, Cut;
    var f := ParseOne(d).field;
    forall x: Bytes | !Bare(f) || x == []
      ensures ParseOne(f.raw + x) == Piece(f, x)
    {
      ParsedAgain(d, x);
    }
    assert f.raw + [] == f.raw;
    RawIsPrefix(d);
    BareWhenCutOff(d);
    PutShortest(d, 0);
    ZeroFits();
    var t := Uvarint(d, 0).n;
    if f.Wire() == LEN && !Bare(f) {
      PutShortest(d[t..], 0);
    }
  }

  lemma ZeroFits()
    ensures 0 < Limit(0)
  {
  }

  lemma RebuiltParsed(tag: nat, sub: Bytes, x: Bytes)
    requires tag < Limit(0) && |sub| < Limit(0) && tag % 8 == LEN
    ensures var raw := Rebuild(tag, sub).raw + x;
      ParseOne(raw) == Piece(Rebuild(tag, sub), x) && Uvarint(raw, 0) == VarOk(tag, |PutUvarint(tag)|)
  {
    hide Uvarint, Limit, PutUvarint;
    var f := Rebuild(tag, sub);
    var a, b := PutUvarint(tag), PutUvarint(|sub|);
    var d := f.raw + x;
    assert d == a + (b + sub + x) && d[|a|..] == b + sub + x == b + (sub + x);
    PutBack(tag, 0, b + sub + x);
    PutBack(|sub|, 0, sub + x);
    var start := |a| + |b|;
    assert d[..start + |sub|] == f.raw && d[start..start + |sub|] == sub && d[start + |sub|..] == x;
  }

  lemma RebuiltGenuine(tag: nat, sub: Bytes)
    requires tag < Limit(0) && |sub| < Limit(0) && tag % 8 == LEN
    ensures Genuine(Rebuild(tag, sub)) && !Bare(Rebuild(tag, sub))
  {
    hide Uvarint, Limit, PutUvarint, ParseOne;
    var f := Rebuild(tag, sub);
    forall x: Bytes
      ensures ParseOne(f.raw + x) == Piece(f, x)
    {
      RebuiltParsed(tag, sub, x);
    }
    RebuiltParsed(tag, sub, []);
    assert f.raw + [] == f.raw;
  }

  // ----- Printing and scanning -----

  /** Only the last field may be bare. */
  predicate BareOnlyLast(fs: seq<Field>) {
    forall i :: 0 <= i < |fs| - 1 ==> !Bare(fs[i])
  }

  /** Printed fields are scanned back exactly when none but the last is bare. */
  lemma ScanPrint(fs: seq<Field>)
    requires forall f :: f in fs ==> Genuine(f)
    ensures Scan(Print(fs)) == Scanned(fs, AtEnd) <==> BareOnlyLast(fs)
  {
    hide BareOnlyLast, Genuine;
    if Scan(Print(fs)) == Scanned(fs, AtEnd) {
      ScannedBareLast(Print(fs));
    }
    if BareOnlyLast(fs) {
      ScanPrinted(fs);
    }
  }

  lemma {:induction false} ScanPrinted(fs: seq<Field>)
    requires BareOnlyLast(fs) && forall f :: f in fs ==> Genuine(f)
    ensures Scan(Print(fs)) == Scanned(fs, AtEnd)
  {
    hide ParseOne, Limit, PutUvarint, Bare;
    if fs != [] {
      assert BareOnlyLast(fs[1..]) by {
        assert forall i :: 0 <= i < |fs[1..]| ==> fs[1..][i] == fs[i + 1];
      }
      ScanPrinted(fs[1..]);
      assert Genuine(fs[0]);
      if |fs| == 1 {
        assert fs[0].raw + Print(fs[1..]) == fs[0].raw;
      }
      assert ParseOne(fs[0].raw + Print(fs[1..])) == Piece(fs[0], Print(fs[1..]));
      assert fs == [fs[0]] + fs[1..];
    }
  }

  /** What follows a bare tag cannot be read as a tag either. */
  lemma {:induction false} ScannedBareLast(d: Bytes)
    ensures BareOnlyLast(Scan(d).fields)
    decreases |d|
  {
    hide ParseOne, Bare;
    if d != [] && ParseOne(d).Piece? {
      var Piece(f, rest) := ParseOne(d);
      ScannedBareLast(rest);
      assert Scan(d).fields == [f] + Scan(rest).fields;
      if Bare(f) {
        NothingAfterBare(d);
      }
    }
  }

  lemma NothingAfterBare(d: Bytes)
    requires ParseOne(d).Piece? && Bare(ParseOne(d).field)
    ensures Scan(ParseOne(d).rest).fields == []
  {
    hide Bare, Cut, Uvarint;
    RawIsPrefix(d);
    BareWhenCutOff(d);
    var rest := ParseOne(d).rest;
    assert ParseOne(d).field.raw + rest == d;
    assert rest == d[Uvarint(d, 0).n..];
  }

  lemma {:induction false} ScanGenuine(d: Bytes)
    ensures forall f :: f in Scan(d).fields ==> Genuine(f)
    ensures |Print(Scan(d).fields)| <= |d|
    decreases |d|
  {
    hide ParseOne, Genuine;
    if d != [] && ParseOne(d).Piece? {
      ParsedGenuine(d);
      var Piece(f, rest) := ParseOne(d);
      ScanGenuine(rest);
      assert Scan(d).fields == [f] + Scan(rest).fields;
    }
  }

  lemma PrintHead(fs: seq<Field>)
    ensures Print([]) == []
    ensures fs != [] ==> Print(fs) == fs[0].raw + Print(fs[1..])
  {
  }

  lemma Associate(a: Bytes, b: Bytes, c: Bytes)
    ensures a + (b + c) == a + b + c
  {
  }

  lemma {:induction false} PrintConcat(a: seq<Field>, b: seq<Field>)
    ensures Print(a + b) == Print(a) + Print(b)
  {
    hide Print;
    PrintHead([]);
    if a == [] {
      assert a + b == b;
    } else {
      PrintConcat(a[1..], b);
      PrintHead(a + b);
      PrintHead(a);
      assert (a + b)[1..] == a[1..] + b;
      Associate(a[0].raw, Print(a[1..]), Print(b));
    }
  }

  lemma PrintRemove(b: seq<Field>, i: nat)
    requires i < |b|
    ensures |Print(b)| == |b[i].raw| + |Print(b[..i] + b[i + 1..])|
  {
    var front, back := b[..i], b[i + 1..];
    assert b == front + ([b[i]] + back);
    PrintConcat(front, [b[i]] + back);
    PrintConcat(front, back);
    assert ([b[i]] + back)[1..] == back;
  }

  lemma WithoutOne<T>(s: seq<T>, i: nat)
    requires i < |s|
    ensures multiset(s[..i] + s[i + 1..]) == multiset(s) - multiset{s[i]}
  {
    assert s == s[..i] + [s[i]] + s[i + 1..];
    assert multiset(s) == multiset(s[..i]) + multiset{s[i]} + multiset(s[i + 1..]);
  }

  /** The head of one arrangement occurs in the other, and removing it leaves two arrangements of the same elements. */
  lemma FindHead<T>(a: seq<T>, b: seq<T>) returns (i: nat)
    requires multiset(a) == multiset(b) && a != []
    ensures i < |b| && b[i] == a[0] && multiset(a[1..]) == multiset(b[..i] + b[i + 1..])
  {
    assert a[0] in multiset(b);
    i :| 0 <= i < |b| && b[i] == a[0];
    WithoutOne(a, 0);
    WithoutOne(b, i);
    assert a[..0] + a[1..] == a[1..];
  }

  /** Reordering fields does not change the number of bytes printed. */
  lemma {:induction false} PrintLength(a: seq<Field>, b: seq<Field>)
    requires multiset(a) == multiset(b)
    ensures |Print(a)| == |Print(b)|
    decreases |a|
  {
    if a == [] {
      assert |multiset(b)| == |b| && |multiset(a)| == 0;
    } else {
      var i := FindHead(a, b);
      PrintRemove(b, i);
      PrintLength(a[1..], b[..i] + b[i + 1..]);
    }
  }

  // ----- Extraction -----

  lemma {:induction false} FullScanEndsWell(cfg: seq<Config>, d: Bytes, at: nat)
    requires Scan(d).end.AtEnd?
    ensures EndsWell(cfg, d, at)
    decreases |d|
  {
    hide ParseOne, PassedOver;
    if d != [] && ParseOne(d).Piece? {
      FullScanEndsWell(cfg, ParseOne(d).rest, at + |ParseOne(d).field.raw|);
    }
  }

  ghost predicate SubInBounds(cfg: seq<Config>, f: Field) {
    var c := ConfigFor(cfg, f.Num());
    c.Some? && Descends(c.value, f) ==> InBounds(c.value.sub, f.content)
  }

  /** At every level a kept field that is bare is sorted behind all others. */
  ghost predicate BareLast(sort: Sorter, cfg: seq<Config>, d: Bytes)
    decreases |d|
  {
    Scan(d).end.AtBadWire? || (
      && BareOnlyLast(sort(Keep(sort, cfg, Scan(d).fields, |d|)))
      && forall f ::
        f in Scan(d).fields && ConfigFor(cfg, f.Num()).Some? && Descends(ConfigFor(cfg, f.Num()).value, f) ==>
        BareLast(sort, ConfigFor(cfg, f.Num()).value.sub, f.content))
  }

  ghost predicate SubBareLast(sort: Sorter, cfg: seq<Config>, f: Field) {
    var c := ConfigFor(cfg, f.Num());
    c.Some? && Descends(c.value, f) ==> BareLast(sort, c.value.sub, f.content)
  }

  predicate Configured(cfg: seq<Config>, k: Field) { ConfigFor(cfg, k.Num()).Some? }

  lemma {:induction false} KeepOneWell(sort: Sorter, cfg: seq<Config>, f: Field)
    requires IsSorter(sort) && Genuine(f)
    ensures forall k :: k in KeepOne(sort, cfg, f) ==> Genuine(k) && Configured(cfg, k)
    ensures SubBareLast(sort, cfg, f) ==> forall k :: k in KeepOne(sort, cfg, f) ==> SubInBounds(cfg, k)
    ensures |Print(KeepOne(sort, cfg, f))| <= |f.raw|
    decreases |f.content|, 2, 0
  {
    hide Extract, InBounds, BareLast, IsSorter, PutUvarint, Limit, ParseOne, Bare;
    var c := ConfigFor(cfg, f.Num());
    if c.Some? && Descends(c.value, f) {
      OutputWellFormed(sort, c.value.sub, f.content);
      var sub := Extract(sort, c.value.sub, f.content);
      if sub != [] {
        RebuiltGenuine(f.tag, sub);
        PutMonotone(|sub|, |f.content|);
        PrintOne(Rebuild(f.tag, sub));
      }
    } else if c.Some? {
      PrintOne(f);
    }
  }

  lemma PrintOne(f: Field)
    ensures Print([f]) == f.raw
  {
    assert Print([f]) == f.raw + Print([]);
  }

  lemma {:induction false} KeepWell(sort: Sorter, cfg: seq<Config>, fs: seq<Field>, bound: nat)
    requires IsSorter(sort) && forall f :: f in fs ==> |f.content| < bound && Genuine(f)
    ensures forall k :: k in Keep(sort, cfg, fs, bound) ==> Genuine(k) && Configured(cfg, k)
    ensures (forall f :: f in fs ==> SubBareLast(sort, cfg, f)) ==>
        forall k :: k in Keep(sort, cfg, fs, bound) ==> SubInBounds(cfg, k)
    ensures |Print(Keep(sort, cfg, fs, bound))| <= |Print(fs)|
    decreases bound, 0, |fs|
  {
    hide KeepOne, IsSorter, Genuine, SubInBounds, SubBareLast, Configured, Print;
    if fs != [] {
      var front, last := fs[..|fs| - 1], fs[|fs| - 1];
      KeepWell(sort, cfg, front, bound);
      KeepOneWell(sort, cfg, last);
      assert fs == front + [last];
      PrintConcat(front, [last]);
      PrintConcat(Keep(sort, cfg, front, bound), KeepOne(sort, cfg, last));
      PrintOne(last);
    }
  }

  /** The output of extraction is never longer than the input, and holds only configured fields.  It is scanned back
      as exactly the sorted kept fields if and only if no field is sorted behind one that was cut off; if this is so
      at every level, every level of the output is in bounds. */
  lemma {:induction false} OutputWellFormed(sort: Sorter, cfg: seq<Config>, d: Bytes)
    requires IsSorter(sort)
    ensures |Extract(sort, cfg, d)| <= |d|
    ensures Scan(d).end.AtBadWire? ==> Extract(sort, cfg, d) == []
    ensures !Scan(d).end.AtBadWire? ==>
        var kept := sort(Keep(sort, cfg, Scan(d).fields, |d|));
        && (Scan(Extract(sort, cfg, d)) == Scanned(kept, AtEnd) <==> BareOnlyLast(kept))
        && forall k :: k in kept ==> ConfigFor(cfg, k.Num()).Some?
    ensures BareLast(sort, cfg, d) ==> InBounds(cfg, Extract(sort, cfg, d))
    decreases |d|, 1, 0
  {
    hide Keep, Genuine, Print, Scan, ConfigFor, Descends, IsSorter, BareOnlyLast;
    if Scan(d).end.AtBadWire? {
      NothingScanned(cfg);
    } else {
      ScanGenuine(d);
      var kept := Keep(sort, cfg, Scan(d).fields, |d|);
      KeepWell(sort, cfg, Scan(d).fields, |d|);
      SortedElements(sort, kept);
      ScanPrint(sort(kept));
      PrintLength(sort(kept), kept);
      if BareLast(sort, cfg, d) {
        FullScanEndsWell(cfg, Print(sort(kept)), 0);
      }
    }
  }

  lemma SortedElements(sort: Sorter, fs: seq<Field>)
    requires IsSorter(sort)
    ensures multiset(sort(fs)) == multiset(fs) && forall f :: f in sort(fs) <==> f in fs
  {
    assert forall f :: f in sort(fs) <==> f in multiset(sort(fs));
    assert forall f :: f in fs <==> f in multiset(fs);
  }

  lemma NothingScanned(cfg: seq<Config>)
    ensures Scan([]) == Scanned([], AtEnd) && InBounds(cfg, [])
  {
  }

  // ----- Idempotence -----

  /** Sorting the kept fields a second time changes nothing, at any level. */
  ghost predicate Settled(sort: Sorter, cfg: seq<Config>, d: Bytes)
    decreases |d|
  {
    var kept := Keep(sort, cfg, Scan(d).fields, |d|);
    && sort(sort(kept)) == sort(kept)
    && forall f ::
      f in Scan(d).fields && ConfigFor(cfg, f.Num()).Some? && Descends(ConfigFor(cfg, f.Num()).value, f) ==>
      Settled(sort, ConfigFor(cfg, f.Num()).value.sub, f.content)
  }

  ghost predicate SubSettled(sort: Sorter, cfg: seq<Config>, f: Field) {
    var c := ConfigFor(cfg, f.Num());
    c.Some? && Descends(c.value, f) ==> Settled(sort, c.value.sub, f.content)
  }

  lemma {:induction false} KeepAgain(sort: Sorter, cfg: seq<Config>, f: Field)
    requires IsSorter(sort) && Genuine(f) && SubBareLast(sort, cfg, f) && SubSettled(sort, cfg, f)
    ensures forall k :: k in KeepOne(sort, cfg, f) ==> KeepOne(sort, cfg, k) == [k]
    decreases |f.content|, 2, 0
  {
    hide Extract, BareLast, IsSorter, PutUvarint, Genuine, Settled;
    var c := ConfigFor(cfg, f.Num());
    if c.Some? && Descends(c.value, f) {
      Idempotent(sort, c.value.sub, f.content);
    }
  }

  lemma {:induction false} AllKeepAgain(sort: Sorter, cfg: seq<Config>, fs: seq<Field>, bound: nat)
    requires IsSorter(sort)
    requires forall f :: f in fs ==>
      |f.content| < bound && Genuine(f) && SubBareLast(sort, cfg, f) && SubSettled(sort, cfg, f)
    ensures forall k :: k in Keep(sort, cfg, fs, bound) ==> KeepOne(sort, cfg, k) == [k]
    decreases bound, 0, |fs|
  {
    hide KeepOne, IsSorter, Genuine, SubBareLast, SubSettled;
    if fs != [] {
      AllKeepAgain(sort, cfg, fs[..|fs| - 1], bound);
      KeepAgain(sort, cfg, fs[|fs| - 1]);
    }
  }

  lemma {:induction false} KeepAll(sort: Sorter, cfg: seq<Config>, fs: seq<Field>, bound: nat)
    requires forall f :: f in fs ==> |f.content| < bound && KeepOne(sort, cfg, f) == [f]
    ensures Keep(sort, cfg, fs, bound) == fs
    decreases |fs|
  {
    hide KeepOne;
    if fs != [] {
      KeepAll(sort, cfg, fs[..|fs| - 1], bound);
      assert fs == fs[..|fs| - 1] + [fs[|fs| - 1]];
    }
  }

  /** Extracting from an extraction gives it back. */
  lemma {:induction false} Idempotent(sort: Sorter, cfg: seq<Config>, d: Bytes)
    requires IsSorter(sort) && BareLast(sort, cfg, d) && Settled(sort, cfg, d)
    ensures Extract(sort, cfg, Extract(sort, cfg, d)) == Extract(sort, cfg, d)
    decreases |d|, 1, 0
  {
    hide Keep, Genuine, InBounds, SubBareLast, BareOnlyLast, ConfigFor, Descends, KeepOne, IsSorter;
    var out := Extract(sort, cfg, d);
    OutputWellFormed(sort, cfg, d);
    if Scan(d).end.AtBadWire? {
      KeepNothing(sort, cfg, |out|);
      SortedElements(sort, []);
      NoneSorted(sort);
    } else {
      ScanGenuine(d);
      var kept := Keep(sort, cfg, Scan(d).fields, |d|);
      SettledBelow(sort, cfg, d);
      BareLastBelow(sort, cfg, d);
      AllKeepAgain(sort, cfg, Scan(d).fields, |d|);
      SortedElements(sort, kept);
      KeepAll(sort, cfg, sort(kept), |out|);
    }
  }

  /** A field that was cut off and has a smaller number than a kept one swallows the beginning of that one: with the
      fields 1 and 2 configured, a whole field 2 and the tag of a field 1 give an output that extraction changes
      again. */
  lemma CutOffFieldSpoilsOutput(sort: Sorter)
    requires IsSorter(sort)
    ensures var cfg := [Config(1, false, []), Config(2, false, [])];
      && Extract(sort, cfg, [0x10, 0x05, 0x08]) == [0x08, 0x10, 0x05]
      && Extract(sort, cfg, [0x08, 0x10, 0x05]) == [0x08, 0x10]
  {
    hide IsSorter, Extract, Keep, Scan, ParseOne, Uvarint;
    var cfg := [Config(1, false, []), Config(2, false, [])];
    var one, two, mixed := Field(8, [0x08], []), Field(16, [0x10, 0x05], []), Field(8, [0x08, 0x10], []);
    TwoScanned();
    KeepTwo(sort, cfg, two, one, 3);
    SortsTwo(sort, two, one);
    KeepSingle(sort, cfg, mixed, 3);
    SortsSingle(sort, mixed);
    PrintConcat([one], [two]);
    PrintOne(one);
    PrintOne(two);
    PrintOne(mixed);
    assert [one] + [two] == [one, two];
    ExtractIs(sort, cfg, [0x10, 0x05, 0x08]);
    ExtractIs(sort, cfg, [0x08, 0x10, 0x05]);
  }

  lemma ExtractIs(sort: Sorter, cfg: seq<Config>, d: Bytes)
    requires !Scan(d).end.AtBadWire?
    ensures Extract(sort, cfg, d) == Print(sort(Keep(sort, cfg, Scan(d).fields, |d|)))
  {
    hide Scan, Keep;
  }

  lemma TwoScanned()
    ensures Scan([0x10, 0x05, 0x08]) == Scanned([Field(16, [0x10, 0x05], []), Field(8, [0x08], [])], AtEnd)
    ensures Scan([0x08, 0x10, 0x05]) == Scanned([Field(8, [0x08, 0x10], [])], AtOverrun)
  {
    var a: Bytes, b: Bytes := [0x10, 0x05, 0x08], [0x08, 0x10, 0x05];
    assert a[1..] == [0x05, 0x08] && a[2..] == [0x08] && a[..2] == [0x10, 0x05] && b[1..] == [0x10, 0x05];
    assert b[2..] == [0x05] && b[..2] == [0x08, 0x10];
    assert Uvarint([0x05, 0x08], 0) == VarOk(5, 1) && Uvarint([0x08], 0) == VarOk(8, 1);
    assert Uvarint([0x10, 0x05], 0) == VarOk(0x10, 1) && Uvarint([0x05], 0) == VarOk(5, 1);
    assert ParseOne(a) == Piece(Field(16, [0x10, 0x05], []), [0x08]);
    assert ParseOne([0x08]) == Piece(Field(8, [0x08], []), []);
    assert ParseOne(b) == Piece(Field(8, [0x08, 0x10], []), [0x05]);
    assert ParseOne([0x05]) == Overrun;
    assert Scan([0x08]) == Scanned([Field(8, [0x08], [])], AtEnd);
  }

  lemma KeepSingle(sort: Sorter, cfg: seq<Config>, f: Field, bound: nat)
    requires ConfigFor(cfg, f.Num()).Some? && f.Wire() == VARINT && |f.content| < bound
    ensures Keep(sort, cfg, [f], bound) == [f]
  {
    assert [f][..0] == [];
  }

  lemma KeepTwo(sort: Sorter, cfg: seq<Config>, f: Field, g: Field, bound: nat)
    requires ConfigFor(cfg, f.Num()).Some? && f.Wire() == VARINT && |f.content| < bound
    requires ConfigFor(cfg, g.Num()).Some? && g.Wire() == VARINT && |g.content| < bound
    ensures Keep(sort, cfg, [f, g], bound) == [f, g]
  {
    KeepSingle(sort, cfg, f, bound);
    assert [f, g][..1] == [f];
  }

  lemma SortsSingle(sort: Sorter, f: Field)
    requires IsSorter(sort)
    ensures sort([f]) == [f]
  {
    SortedUnique([f], sort([f]));
  }

  lemma SortsTwo(sort: Sorter, f: Field, g: Field)
    requires IsSorter(sort) && g.Num() < f.Num()
    ensures sort([f, g]) == [g, f]
  {
    assert multiset([g, f]) == multiset([f, g]) == multiset(sort([f, g]));
    SortedUnique([g, f], sort([f, g]));
  }

  lemma BareLastBelow(sort: Sorter, cfg: seq<Config>, d: Bytes)
    requires BareLast(sort, cfg, d) && !Scan(d).end.AtBadWire?
    ensures forall f :: f in Scan(d).fields ==> SubBareLast(sort, cfg, f)
  {
    hide ConfigFor, Descends, Scan, BareOnlyLast, Keep;
  }

  lemma SettledBelow(sort: Sorter, cfg: seq<Config>, d: Bytes)
    requires Settled(sort, cfg, d)
    ensures forall f :: f in Scan(d).fields ==> SubSettled(sort, cfg, f)
  {
    hide ConfigFor, Descends, Scan;
  }

  lemma KeepNothing(sort: Sorter, cfg: seq<Config>, bound: nat)
    ensures Keep(sort, cfg, [], bound) == []
  {
  }

  lemma NoneSorted(sort: Sorter)
    requires IsSorter(sort)
    ensures sort([]) == [] && Print([]) == []
  {
    assert |multiset(sort([]))| == |sort([])| && multiset(sort([])) == multiset([]);
  }

  lemma SameFirst(a: seq<Field>, b: seq<Field>)
    requires multiset(a) == multiset(b) && Sorted(a) && Sorted(b) && DistinctNums(a) && a != []
    ensures b != [] && a[0] == b[0]
  {
    assert a[0] in multiset(b);
    var i :| 0 <= i < |b| && b[i] == a[0];
    assert b[0] in multiset(a);
    var j :| 0 <= j < |a| && a[j] == b[0];
    assert a[0].Num() <= a[j].Num() && b[0].Num() <= b[i].Num();
  }

  lemma TailsKeep(a: seq<Field>)
    requires a != []
    ensures Sorted(a) ==> Sorted(a[1..])
    ensures DistinctNums(a) ==> DistinctNums(a[1..])
  {
  }

  /** Two sorted arrangements of fields with distinct numbers are equal. */
  lemma {:induction false} SortedUnique(a: seq<Field>, b: seq<Field>)
    requires multiset(a) == multiset(b) && Sorted(a) && Sorted(b) && DistinctNums(a)
    ensures a == b
    decreases |a|
  {
    hide Sorted, DistinctNums;
    if a == [] {
      assert |multiset(b)| == |b| && |multiset(a)| == 0;
    } else {
      SameFirst(a, b);
      FirstOfBoth(a, b);
      TailsKeep(a);
      TailsKeep(b);
      SortedUnique(a[1..], b[1..]);
      assert a == [a[0]] + a[1..] && b == [b[0]] + b[1..];
    }
  }

  lemma FirstOfBoth(a: seq<Field>, b: seq<Field>)
    requires multiset(a) == multiset(b) && a != [] && b != [] && a[0] == b[0]
    ensures multiset(a[1..]) == multiset(b[1..])
  {
    assert a == [a[0]] + a[1..] && b == [b[0]] + b[1..];
    assert multiset(a[1..]) == multiset(a) - multiset{a[0]} && multiset(b[1..]) == multiset(b) - multiset{b[0]};
  }

  lemma {:induction false} DistinctRearranged(a: seq<Field>, b: seq<Field>)
    requires multiset(a) == multiset(b) && DistinctNums(a)
    ensures DistinctNums(b)
    decreases |a|
  {
    if a == [] {
      assert |multiset(b)| == |b| && |multiset(a)| == 0;
    } else {
      var i := FindHead(a, b);
      var rest := b[..i] + b[i + 1..];
      DistinctRearranged(a[1..], rest);
      forall j | 0 <= j < |b| && j != i
        ensures b[j].Num() != b[i].Num()
      {
        assert b[j] == rest[if j < i then j else j - 1];
        assert b[j] in multiset(rest) && b[j] in multiset(a[1..]);
        var k :| 0 <= k < |a[1..]| && a[1..][k] == b[j];
        assert a[k + 1] == b[j];
      }
      forall j, k | 0 <= j < k < |b|
        ensures b[j].Num() != b[k].Num()
      {
        if j != i && k != i {
          assert b[j] == rest[if j < i then j else j - 1] && b[k] == rest[if k < i then k else k - 1];
        }
      }
    }
  }

  /** Distinct numbers at every level settle the order, whatever the sorting algorithm. */
  lemma {:induction false} DistinctSettled(sort: Sorter, cfg: seq<Config>, d: Bytes)
    requires IsSorter(sort) && DistinctLevels(sort, cfg, d)
    ensures Settled(sort, cfg, d)
    decreases |d|
  {
    hide Keep, Scan, ConfigFor, Descends;
    var kept := Keep(sort, cfg, Scan(d).fields, |d|);
    assert Sorted(sort(kept)) && Sorted(sort(sort(kept)));
    assert multiset(sort(sort(kept))) == multiset(sort(kept)) == multiset(kept);
    DistinctRearranged(kept, sort(kept));
    SortedUnique(sort(kept), sort(sort(kept)));
    forall f | f in Scan(d).fields && ConfigFor(cfg, f.Num()).Some? && Descends(ConfigFor(cfg, f.Num()).value, f)
      ensures Settled(sort, ConfigFor(cfg, f.Num()).value.sub, f.content)
    {
      DistinctSettled(sort, ConfigFor(cfg, f.Num()).value.sub, f.content);
    }
  }

  /** So does a sorting algorithm that leaves sorted input alone, even with repeated numbers. */
  lemma {:induction false} StableSettled(sort: Sorter, cfg: seq<Config>, d: Bytes)
    requires IsSorter(sort) && forall fs :: Sorted(fs) ==> sort(fs) == fs
    ensures Settled(sort, cfg, d)
    decreases |d|
  {
    hide Keep, Scan, ConfigFor, Descends;
    var kept := Keep(sort, cfg, Scan(d).fields, |d|);
    assert Sorted(sort(kept));
    forall f | f in Scan(d).fields && ConfigFor(cfg, f.Num()).Some? && Descends(ConfigFor(cfg, f.Num()).value, f)
      ensures Settled(sort, ConfigFor(cfg, f.Num()).value.sub, f.content)
    {
      StableSettled(sort, ConfigFor(cfg, f.Num()).value.sub, f.content);
    }
  }

  // ----- The sorting algorithm -----

  ghost predicate SubDistinct(sort: Sorter, cfg: seq<Config>, f: Field) {
    var c := ConfigFor(cfg, f.Num());
    c.Some? && Descends(c.value, f) ==> DistinctLevels(sort, c.value.sub, f.content)
  }

  lemma {:induction false} KeepSame(a: Sorter, b: Sorter, cfg: seq<Config>, fs: seq<Field>, bound: nat)
    requires IsSorter(a) && IsSorter(b) && forall f :: f in fs ==> |f.content| < bound && SubDistinct(a, cfg, f)
    ensures Keep(a, cfg, fs, bound) == Keep(b, cfg, fs, bound)
    decreases bound, 0, |fs|
  {
    hide Extract, IsSorter, DistinctLevels;
    if fs != [] {
      var last := fs[|fs| - 1];
      KeepSame(a, b, cfg, fs[..|fs| - 1], bound);
      var c := ConfigFor(cfg, last.Num());
      if c.Some? && Descends(c.value, last) {
        assert SubDistinct(a, cfg, last);
        SortingDoesNotMatter(a, b, c.value.sub, last.content);
      }
    }
  }

  /** With distinct numbers at every level any two sorting algorithms give the same bytes. */
  lemma {:induction false} SortingDoesNotMatter(a: Sorter, b: Sorter, cfg: seq<Config>, d: Bytes)
    requires IsSorter(a) && IsSorter(b) && DistinctLevels(a, cfg, d)
    ensures Extract(a, cfg, d) == Extract(b, cfg, d)
    decreases |d|, 1, 0
  {
    hide Keep, ConfigFor, Descends;
    var fs := Scan(d).fields;
    DistinctBelow(a, cfg, d);
    KeepSame(a, b, cfg, fs, |d|);
    var kept := Keep(a, cfg, fs, |d|);
    assert Sorted(a(kept)) && Sorted(b(kept)) && multiset(a(kept)) == multiset(kept) == multiset(b(kept));
    DistinctRearranged(kept, a(kept));
    SortedUnique(a(kept), b(kept));
  }

  lemma DistinctBelow(sort: Sorter, cfg: seq<Config>, d: Bytes)
    requires DistinctLevels(sort, cfg, d)
    ensures forall f :: f in Scan(d).fields ==> SubDistinct(sort, cfg, f)
  {
    hide ConfigFor, Descends, Scan, Keep;
  }
}
