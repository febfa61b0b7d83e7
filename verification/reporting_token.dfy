/** The scanning loop of `extractReportingTokenContent`, proved against `Reporting.Extract`. */
module ReportingToken {
  import opened Bytes
  import opened Reporting

  /** How many bytes `binary.Uvarint` reports as consumed, with the value. */
  method ReadVarint(buf: Bytes) returns (value: nat, n: int)
    ensures match Uvarint(buf, 0)
      case VarOk(v, k) => value == v && n == k
      case VarShort => value == 0 && n == 0
      case VarOverflow => value == 0 && n < 0
  {
    var r := Uvarint(buf, 0);
    match r {
      case VarOk(v, k) => return v, k;
      case VarShort => return 0, 0;
      case VarOverflow => return 0, -(MAX_VARINT_LEN + 1);
    }
  }

  lemma ScanStep(d: Bytes)
    requires d != [] && ParseOne(d).Piece?
    ensures var Piece(f, rest) := ParseOne(d);
      && |f.raw| <= |d| && f.raw == d[..|f.raw|] && rest == d[|f.raw|..]
      && Scan(d) == Scanned([f] + Scan(rest).fields, Scan(rest).end)
  {
    hide ParseOne;
    var Piece(f, rest) := ParseOne(d);
    assert f.raw + rest == d;
  }

  /** The message from position i on; the index may have run past the end. */
  function Left(data: Bytes, i: nat): Bytes { if i <= |data| then data[i..] else [] }

  /** The fields passed so far and those of what is left are the fields of the message, and the rest ends well. */
  ghost predicate Passed(cfg: seq<Config>, data: Bytes, i: nat, fs: seq<Field>) {
    && Scan(data).fields == fs + Scan(Left(data, i)).fields
    && (Scan(data).end.AtBadWire? <==> Scan(Left(data, i)).end.AtBadWire?)
    && EndsWell(cfg, Left(data, i), i)
  }

  /** One field further. */
  lemma OneMore(cfg: seq<Config>, data: Bytes, i: nat, fs: seq<Field>)
    requires i < |data| && ParseOne(data[i..]).Piece? && Passed(cfg, data, i, fs)
    ensures var f := ParseOne(data[i..]).field;
      && i + |f.raw| <= |data| && f.raw == data[i..i + |f.raw|]
      && Passed(cfg, data, i + |f.raw|, fs + [f]) && f in Scan(data).fields
  {
    hide ParseOne, Scan, EndsWell, PassedOver, Uvarint;
    ScanStep(data[i..]);
    EndsWellOn(cfg, data[i..], i);
    var f := ParseOne(data[i..]).field;
    assert data[i..][|f.raw|..] == data[i + |f.raw|..] && data[i..][..|f.raw|] == data[i..i + |f.raw|];
    assert fs + ([f] + Scan(data[i + |f.raw|..]).fields) == fs + [f] + Scan(data[i + |f.raw|..]).fields;
    assert f in fs + [f];
  }

  lemma EndsWellOn(cfg: seq<Config>, d: Bytes, at: nat)
    requires d != [] && ParseOne(d).Piece? && EndsWell(cfg, d, at)
    ensures EndsWell(cfg, ParseOne(d).rest, at + |ParseOne(d).field.raw|)
  {
    hide ParseOne, PassedOver;
  }

  lemma OverrunShape(d: Bytes)
    requires ParseOne(d).Overrun?
    ensures Uvarint(d, 0).VarOk?
    ensures var VarOk(tag, t) := Uvarint(d, 0);
      (tag % 8 == VARINT && Uvarint(d[t..], 0).VarOverflow?) || tag % 8 == I64 || tag % 8 == I32 ||
      (tag % 8 == LEN && !Uvarint(d[t..], 0).VarShort?)
    ensures var VarOk(tag, t) := Uvarint(d, 0);
      && (tag % 8 == I64 ==> t + 8 > |d|) && (tag % 8 == I32 ==> t + 4 > |d|)
      && (tag % 8 == LEN && Uvarint(d[t..], 0).VarOk? ==> t + Uvarint(d[t..], 0).n + Uvarint(d[t..], 0).value > |d|)
  {
    hide Uvarint;
  }

  /** The fields were all passed once the index is past the end. */
  lemma PastTheEnd(cfg: seq<Config>, data: Bytes, i: nat, to: nat, fs: seq<Field>)
    requires i < |data| <= to && ParseOne(data[i..]).Overrun? && Passed(cfg, data, i, fs)
    ensures Passed(cfg, data, to, fs)
  {
    hide ParseOne;
    assert Scan(data[i..]) == Scanned([], AtOverrun) && Left(data, to) == [];
  }

  /** Where the index goes when the last field runs past the end: nothing more is read there. */
  lemma OnePassedOver(cfg: seq<Config>, data: Bytes, i: nat, fs: seq<Field>)
    requires i < |data| && ParseOne(data[i..]).Overrun? && Passed(cfg, data, i, fs)
    ensures PassedOver(cfg, data[i..], i) && Uvarint(data[i..], 0).VarOk?
    ensures var VarOk(tag, t) := Uvarint(data[i..], 0);
      && ConfigFor(cfg, tag / 8).None? && i + t <= |data|
      && (tag % 8 == I64 || tag % 8 == LEN || tag % 8 == I32)
      && (tag % 8 == I64 ==> Passed(cfg, data, i + t + 8, fs))
      && (tag % 8 == I32 ==> Passed(cfg, data, i + t + 4, fs))
      && (tag % 8 == LEN ==>
        match Uvarint(data[i + t..], 0)
        case VarOk(l, n) => i + t + n + l <= MAX_INT && Passed(cfg, data, i + t + n + l, fs)
        case _ => false)
  {
    hide Uvarint, ConfigFor, ParseOne, Passed;
    WellPassedOver(cfg, data, i, fs);
    OverrunShape(data[i..]);
    var VarOk(tag, t) := Uvarint(data[i..], 0);
    assert data[i..][t..] == data[i + t..];
    if tag % 8 == I64 {
      PastTheEnd(cfg, data, i, i + t + 8, fs);
    } else if tag % 8 == I32 {
      PastTheEnd(cfg, data, i, i + t + 4, fs);
    } else {
      var VarOk(l, n) := Uvarint(data[i + t..], 0);
      PastTheEnd(cfg, data, i, i + t + n + l, fs);
    }
  }

  lemma WellPassedOver(cfg: seq<Config>, data: Bytes, i: nat, fs: seq<Field>)
    requires i < |data| && ParseOne(data[i..]).Overrun? && Passed(cfg, data, i, fs)
    ensures PassedOver(cfg, data[i..], i)
  {
    hide ParseOne, PassedOver;
  }

  lemma KeepMore(sort: Sorter, cfg: seq<Config>, fs: seq<Field>, f: Field, bound: nat)
    requires forall g :: g in fs + [f] ==> |g.content| < bound
    ensures forall g :: g in fs ==> g in fs + [f]
    ensures Keep(sort, cfg, fs + [f], bound) == Keep(sort, cfg, fs, bound) + KeepOne(sort, cfg, f)
  {
    hide KeepOne;
    assert (fs + [f])[..|fs|] == fs;
  }

  /** The varint at position i and its length; zero for one that is cut off. */
  function VarintAt(d: Bytes, i: nat): (nat, nat)
    requires i <= |d|
  {
    match Uvarint(d[i..], 0) case VarOk(v, n) => (v, n) case _ => (0, 0)
  }

  lemma PieceShape(d: Bytes)
    requires ParseOne(d).Piece?
    ensures Uvarint(d, 0) == VarOk(ParseOne(d).field.tag, Uvarint(d, 0).n)
    ensures var f, t := ParseOne(d).field, Uvarint(d, 0).n;
      match f.Wire()
      case 0 => f.content == [] && !Uvarint(d[t..], 0).VarOverflow? && |f.raw| == t + VarintAt(d, t).1
      case 1 => f.content == [] && |f.raw| == t + 8
      case 2 =>
        && !Uvarint(d[t..], 0).VarOverflow?
        && var (l, n) := VarintAt(d, t);
          |f.raw| == t + n + l <= |d| && f.content == d[t + n..t + n + l]
      case _ => f.content == [] && |f.raw| == t + 4
  {
    hide Uvarint;
  }

  /** Where the payload of the field at position i lies. */
  lemma PayloadAt(data: Bytes, i: nat)
    requires i < |data| && ParseOne(data[i..]).Piece?
    ensures Uvarint(data[i..], 0) == VarOk(ParseOne(data[i..]).field.tag, Uvarint(data[i..], 0).n)
    ensures var f, start := ParseOne(data[i..]).field, i + Uvarint(data[i..], 0).n;
      match f.Wire()
      case 0 =>
        f.content == [] && !Uvarint(data[start..], 0).VarOverflow? && i + |f.raw| == start + VarintAt(data, start).1
      case 1 => f.content == [] && i + |f.raw| == start + 8
      case 2 =>
        && !Uvarint(data[start..], 0).VarOverflow?
        && var (l, n) := VarintAt(data, start);
          i + |f.raw| == start + n + l <= |data| && f.content == data[start + n..start + n + l]
      case _ => f.content == [] && i + |f.raw| == start + 4
  {
    hide Uvarint, ParseOne;
    PieceShape(data[i..]);
    var t := Uvarint(data[i..], 0).n;
    assert data[i..][t..] == data[i + t..];
    if ParseOne(data[i..]).field.Wire() == 2 {
      var (l, n) := VarintAt(data, i + t);
      assert data[i..][t + n..t + n + l] == data[i + t + n..i + t + n + l];
    }
  }

  lemma Beginning(sort: Sorter, cfg: seq<Config>, data: Bytes)
    requires InBounds(cfg, data)
    ensures Passed(cfg, data, 0, []) && Keep(sort, cfg, [], |data|) == []
  {
    assert data[0..] == data;
    assert [] + Scan(data).fields == Scan(data).fields;
  }

  /** What the tag at position i says about the message. */
  lemma StepCases(cfg: seq<Config>, data: Bytes, i: nat, fs: seq<Field>)
    requires i < |data| && Passed(cfg, data, i, fs)
    ensures match Uvarint(data[i..], 0)
      case VarOk(tag, _) =>
        if tag % 8 == VARINT || tag % 8 == I64 || tag % 8 == LEN || tag % 8 == I32
        then ParseOne(data[i..]).Piece? || ParseOne(data[i..]).Overrun?
        else Scan(data).end.AtBadWire?
      case _ => Scan(data).fields == fs && !Scan(data).end.AtBadWire?
  {
    hide Uvarint;
    assert fs + [] == fs;
  }

  lemma Finished(sort: Sorter, cfg: seq<Config>, data: Bytes)
    ensures Scan(data).end.AtBadWire? ==> Extract(sort, cfg, data) == []
    ensures !Scan(data).end.AtBadWire? ==>
      Extract(sort, cfg, data) == Print(sort(Keep(sort, cfg, Scan(data).fields, |data|)))
  {
    hide Keep, Scan;
  }

  lemma AtTheEnd(cfg: seq<Config>, data: Bytes, i: nat, fs: seq<Field>)
    requires i >= |data| && Passed(cfg, data, i, fs)
    ensures Scan(data).fields == fs && !Scan(data).end.AtBadWire?
  {
    assert Left(data, i) == [] && fs + [] == fs;
  }

  lemma KeepCases(sort: Sorter, cfg: seq<Config>, data: Bytes, f: Field)
    requires InBounds(cfg, data) && f in Scan(data).fields
    ensures match ConfigFor(cfg, f.Num())
      case None => KeepOne(sort, cfg, f) == []
      case Some(c) =>
        if !Descends(c, f) then KeepOne(sort, cfg, f) == [f]
        else
          && InBounds(c.sub, f.content)
          && var sub := Extract(sort, c.sub, f.content);
            KeepOne(sort, cfg, f) == if sub == [] then [] else [Rebuild(f.tag, sub)]
  {
    hide Scan, Extract;
  }

  method Concatenate(fields: seq<Field>) returns (out: Bytes)
    ensures out == Print(fields)
  {
    out := [];
    for k := 0 to |fields|
      invariant out + Print(fields[k..]) == Print(fields)
    {
      assert fields[k..][0] == fields[k] && fields[k..][1..] == fields[k + 1..];
      out := out + fields[k].raw;
    }
  }

  /** The sorting algorithm is a parameter; every function that sorts is allowed. */
  method ExtractReportingTokenContent(data: Bytes, config: seq<Config>, sort: Sorter) returns (out: Bytes)
    requires InBounds(config, data)
    ensures out == Extract(sort, config, data)
    decreases |data|
  {
    hide Extract, Keep, KeepOne, InBounds, Uvarint, Scan, ParseOne, PutUvarint, ConfigFor, Passed, PassedOver;
    var fields: seq<Field> := [];
    var i := 0;
    ghost var done: seq<Field>, stopped := [], false;
    Beginning(sort, config, data);
    Finished(sort, config, data);
    while i < |data|
      invariant 0 <= i && !stopped && Passed(config, data, i, done)
      invariant forall f :: f in done ==> |f.content| < |data|
      invariant fields == Keep(sort, config, done, |data|)
      decreases |data| - i
    {
      StepCases(config, data, i, done);
      var tag, tagLen := ReadVarint(data[i..]);
      if tagLen <= 0 {
        stopped := true;
        break;
      }
      var fieldNum, wireType := tag / 8, tag % 8;
      var fieldCfg := ConfigFor(config, fieldNum);
      if wireType != VARINT && wireType != I64 && wireType != LEN && wireType != I32 {
        return [];
      }
      ghost var whole := ParseOne(data[i..]).Piece?;
      if whole {
        var f := ParseOne(data[i..]).field;
        OneMore(config, data, i, done);
        KeepMore(sort, config, done, f, |data|);
        PayloadAt(data, i);
        KeepCases(sort, config, data, f);
        done := done + [f];
      } else {
        OnePassedOver(config, data, i, done);
      }
      var fieldStart := i;
      i := i + tagLen;
      if fieldCfg.None? {
        if wireType == VARINT {
          var _, n := ReadVarint(data[i..]);
          i := i + n;
        } else if wireType == I64 {
          i := i + 8;
        } else if wireType == LEN {
          var l, n := ReadVarint(data[i..]);
          i := i + n + l;
        } else {
          i := i + 4;
        }
      } else if wireType == VARINT {
        var _, n := ReadVarint(data[i..]);
        i := i + n;
        fields := fields + [Field(tag, data[fieldStart..i], [])];
      } else if wireType == I64 {
        i := i + 8;
        fields := fields + [Field(tag, data[fieldStart..i], [])];
      } else if wireType == LEN {
        var l, n := ReadVarint(data[i..]);
        var valStart := i + n;
        var valEnd := valStart + l;
        if fieldCfg.value.isMessage || |fieldCfg.value.sub| > 0 {
          var sub := ExtractReportingTokenContent(data[valStart..valEnd], fieldCfg.value.sub, sort);
          if |sub| > 0 {
            fields := fields + [Field(tag, PutUvarint(tag) + PutUvarint(|sub|) + sub, sub)];
          }
        } else {
          fields := fields + [Field(tag, data[fieldStart..valEnd], data[valStart..valEnd])];
        }
        i := valEnd;
      } else {
        i := i + 4;
        fields := fields + [Field(tag, data[fieldStart..i], [])];
      }
    }
    if !stopped {
      AtTheEnd(config, data, i, done);
    }
    fields := sort(fields);
    out := Concatenate(fields);
  }
}
