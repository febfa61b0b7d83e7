/** Reporting-token extraction (`reportingtoken.go`): a filter on serialised protobuf messages, described as parse, keep
    the configured fields recursively, drop emptied submessages, sort by field number, print. */
module Reporting {
  import opened Bytes

  // ----- Varints: the Protocol Buffers encoding, section "Base 128 Varints", as read by Go's binary.Uvarint -----

  datatype VarRead = VarOk(value: nat, n: nat) | VarShort | VarOverflow

  const MAX_VARINT_LEN := 10

  /** Reads on, i bytes of the varint being behind us; at most ten bytes and 64 bits. */
  function Uvarint(d: Bytes, i: nat): (r: VarRead)
    ensures r.VarOk? ==> 0 < r.n <= |d|
  {
    if d == [] then VarShort
    else if i >= MAX_VARINT_LEN then VarOverflow
    else if d[0] < 0x80 then if i == MAX_VARINT_LEN - 1 && d[0] > 1 then VarOverflow else VarOk(d[0], 1)
    else
      match Uvarint(d[1..], i + 1)
      case VarOk(v, n) => VarOk(d[0] - 0x80 + 0x80 * v, n + 1)
      case other => other
  }

  function PutUvarint(v: nat): (b: Bytes)
    ensures |b| > 0
  {
    if v < 0x80 then [v] else [v % 0x80 + 0x80] + PutUvarint(v / 0x80)
  }

  // ----- Parsing: section "Message Structure" -----

  const VARINT := 0
  const I64 := 1
  const LEN := 2
  const I32 := 5

  /** One field: its tag, all its bytes, and the payload when it is length-delimited. */
  datatype Field = Field(tag: nat, raw: Bytes, content: Bytes) {
    function Num(): nat { tag / 8 }
    function Wire(): nat { tag % 8 }
  }

  datatype Piece = Piece(field: Field, rest: Bytes) | NoTag | BadWire | Overrun

  function Cut(tag: nat, d: Bytes, start: nat, n: nat): (p: Piece)
    requires 0 < start
    ensures p.Piece? ==> |p.rest| < |d| && |p.field.content| < |d| && p.field.raw + p.rest == d
  {
    if start + n > |d| then Overrun
    else Piece(Field(tag, d[..start + n], if tag % 8 == LEN then d[start..start + n] else []), d[start + n..])
  }

  /** A varint that is cut off counts as one of no bytes, so that its field is a bare tag. */
  function ParseOne(d: Bytes): (p: Piece)
    ensures p.Piece? ==> |p.rest| < |d| && |p.field.content| < |d| && p.field.raw + p.rest == d
  {
    match Uvarint(d, 0)
    case VarShort => NoTag
    case VarOverflow => NoTag
    case VarOk(tag, t) =>
      if tag % 8 == VARINT then
        match Uvarint(d[t..], 0)
        case VarOk(_, n) => Cut(tag, d, t + n, 0)
        case VarShort => Cut(tag, d, t, 0)
        case VarOverflow => Overrun
      else if tag % 8 == I64 then Cut(tag, d, t, 8)
      else if tag % 8 == LEN then
        match Uvarint(d[t..], 0)
        case VarOk(l, n) => Cut(tag, d, t + n, l)
        case VarShort => Cut(tag, d, t, 0)
        case VarOverflow => Overrun
      else if tag % 8 == I32 then Cut(tag, d, t, 4)
      else BadWire
  }

  /** How a scan ends: at the end of the data, at an unreadable tag, at a wire type that makes the extractor give up, or
      at an overlong varint or a payload that runs past the end. */
  datatype End = AtEnd | AtBadTag | AtBadWire | AtOverrun

  datatype Scanned = Scanned(fields: seq<Field>, end: End)

  function Scan(d: Bytes): (s: Scanned)
    ensures forall f :: f in s.fields ==> |f.content| < |d|
    decreases |d|
  {
    if d == [] then Scanned([], AtEnd) else
    match ParseOne(d)
    case NoTag => Scanned([], AtBadTag)
    case BadWire => Scanned([], AtBadWire)
    case Overrun => Scanned([], AtOverrun)
    case Piece(f, rest) => var s := Scan(rest); Scanned([f] + s.fields, s.end)
  }

  // ----- The specification -----

  datatype Config = Config(num: nat, isMessage: bool, sub: seq<Config>)

  function ConfigFor(cfg: seq<Config>, num: nat): (c: Option<Config>)
    ensures c.Some? ==> c.value in cfg && c.value.num == num
  {
    if cfg == [] then None else if cfg[0].num == num then Some(cfg[0]) else ConfigFor(cfg[1..], num)
  }

  predicate Descends(c: Config, f: Field) { f.Wire() == LEN && (c.isMessage || |c.sub| > 0) }

  type Sorter = seq<Field> -> seq<Field>

  ghost predicate Sorted(fs: seq<Field>) {
    forall i, j :: 0 <= i < j < |fs| ==> fs[i].Num() <= fs[j].Num()
  }

  /** All that is known of `sort.Slice`: the result is a permutation ordered by field number. */
  ghost predicate IsSorter(sort: Sorter) {
    forall fs :: Sorted(sort(fs)) && multiset(sort(fs)) == multiset(fs)
  }

  function Print(fs: seq<Field>): Bytes {
    if fs == [] then [] else fs[0].raw + Print(fs[1..])
  }

  function Rebuild(tag: nat, sub: Bytes): Field {
    Field(tag, PutUvarint(tag) + PutUvarint(|sub|) + sub, sub)
  }

  function KeepOne(sort: Sorter, cfg: seq<Config>, f: Field): (kept: seq<Field>)
    decreases |f.content|, 2, 0
  {
    var c := ConfigFor(cfg, f.Num());
    if c.None? then []
    else if !Descends(c.value, f) then [f]
    else
      var sub := Extract(sort, c.value.sub, f.content);
      if sub == [] then [] else [Rebuild(f.tag, sub)]
  }

  function Keep(sort: Sorter, cfg: seq<Config>, fs: seq<Field>, bound: nat): seq<Field>
    requires forall f :: f in fs ==> |f.content| < bound
    decreases bound, 0, |fs|
  {
    if fs == [] then []
    else Keep(sort, cfg, fs[..|fs| - 1], bound) + KeepOne(sort, cfg, fs[|fs| - 1])
  }

  function Extract(sort: Sorter, cfg: seq<Config>, d: Bytes): Bytes
    decreases |d|, 1, 0
  {
    if Scan(d).end.AtBadWire? then [] else Print(sort(Keep(sort, cfg, Scan(d).fields, |d|)))
  }

  const MAX_INT := 0x7fff_ffff_ffff_ffff

  /** A last field that runs past the end is passed over without harm: it is not configured, and its length still fits
      an index. */
  predicate PassedOver(cfg: seq<Config>, d: Bytes, at: nat) {
    match Uvarint(d, 0)
    case VarOk(tag, t) =>
      && ConfigFor(cfg, tag / 8).None?
      && (if tag % 8 == VARINT || tag % 8 == LEN then
            match Uvarint(d[t..], 0)
            case VarOk(l, n) => at + t + n + l <= MAX_INT
            case _ => false
          else true)
    case _ => false
  }

  /** No payload runs past the end, except that of a last field that is passed over; `at` bytes lie before d. */
  predicate EndsWell(cfg: seq<Config>, d: Bytes, at: nat)
    decreases |d|
  {
    d == [] ||
    match ParseOne(d)
    case Piece(f, rest) => EndsWell(cfg, rest, at + |f.raw|)
    case Overrun => PassedOver(cfg, d, at)
    case _ => true
  }

  /** The message ends well, and so does every submessage that is descended into. */
  ghost predicate InBounds(cfg: seq<Config>, d: Bytes)
    decreases |d|
  {
    && EndsWell(cfg, d, 0)
    && forall f ::
      f in Scan(d).fields && ConfigFor(cfg, f.Num()).Some? && Descends(ConfigFor(cfg, f.Num()).value, f) ==>
      InBounds(ConfigFor(cfg, f.Num()).value.sub, f.content)
  }

  /** No two kept fields of one message share a number. */
  ghost predicate DistinctLevels(sort: Sorter, cfg: seq<Config>, d: Bytes)
    decreases |d|
  {
    && DistinctNums(Keep(sort, cfg, Scan(d).fields, |d|))
    && forall f ::
      f in Scan(d).fields && ConfigFor(cfg, f.Num()).Some? && Descends(ConfigFor(cfg, f.Num()).value, f) ==>
      DistinctLevels(sort, ConfigFor(cfg, f.Num()).value.sub, f.content)
  }

  ghost predicate DistinctNums(fs: seq<Field>) {
    forall i, j :: 0 <= i < j < |fs| ==> fs[i].Num() != fs[j].Num()
  }
}
