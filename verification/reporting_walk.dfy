/** The index of the extractor's loop on all inputs, malformed ones included: when the loop ends. */
module ReportingWalk {
  import opened Bytes
  import opened Reporting

  const TWO_64 := 0x1_0000_0000_0000_0000

  /** Go's 64-bit int arithmetic. */
  function Wrap(x: int): int { (x + MAX_INT + 1) % TWO_64 - MAX_INT - 1 }

  /** The second result of `binary.Uvarint`: zero for a varint that is cut off, negative for one that overflows. */
  function Consumed(d: Bytes): int {
    match Uvarint(d, 0)
    case VarOk(_, n) => n
    case VarShort => 0
    case VarOverflow => if forall k :: 0 <= k < MAX_VARINT_LEN && k < |d| ==> d[k] >= 0x80 then -11 else -10
  }

  function Value(d: Bytes): nat {
    match Uvarint(d, 0) case VarOk(v, _) => v case _ => 0
  }

  /** Where the index goes after the field at position i; None when the loop is left there, by a break, a return or the
      panic of a slice or index out of range.  Submessages are other loops. */
  function Next(cfg: seq<Config>, data: Bytes, i: nat): Option<nat>
    requires i < |data|
  {
    match Uvarint(data[i..], 0)
    case VarShort => None
    case VarOverflow => None
    case VarOk(tag, t) =>
      var start, c, wire := i + t, ConfigFor(cfg, tag / 8), tag % 8;
      if wire == VARINT then Landed(i, start + Consumed(data[start..]), c.Some?)
      else if wire == I64 then Landed(i, start + 8, c.Some?)
      else if wire == I32 then Landed(i, start + 4, c.Some?)
      else if wire == LEN then
        var from := start + Consumed(data[start..]);
        var to := Wrap(from + Wrap(Value(data[start..])));
        Landed(if c.Some? && (c.value.isMessage || |c.value.sub| > 0) then from else i, to, c.Some?)
      else None
  }

  /** A configured field is sliced out of the data, from its beginning or from that of its payload. */
  function Landed(from: int, to: int, configured: bool): Option<nat> {
    if to < 0 || (configured && (from < 0 || to < from)) then None else Some(to)
  }

  /** The index after n turns of the loop; None when it has ended. */
  function At(cfg: seq<Config>, data: Bytes, n: nat): (i: Option<nat>)
    ensures i.Some? ==> i.value < |data|
  {
    if n == 0 then if data == [] then None else Some(0)
    else
      match At(cfg, data, n - 1)
      case None => None
      case Some(i) =>
        match Next(cfg, data, i)
        case None => None
        case Some(j) => if j < |data| then Some(j) else None
  }

  ghost predicate Terminates(cfg: seq<Config>, data: Bytes) { exists n :: At(cfg, data, n).None? }

  // ----- Which fields turn the index back -----

  /** The field at position i has an overlong varint, or a length that is negative as a 64-bit index and reaches back to
      the field's beginning or beyond. */
  predicate TurnsBack(data: Bytes, i: nat)
    requires i < |data|
  {
    match Uvarint(data[i..], 0)
    case VarOk(tag, t) =>
      if tag % 8 == VARINT then Uvarint(data[i + t..], 0).VarOverflow?
      else if tag % 8 == LEN then
        match Uvarint(data[i + t..], 0)
        case VarOverflow => true
        case VarShort => false
        case VarOk(l, n) => l > MAX_INT && t + n + l <= TWO_64
      else false
    case _ => false
  }

  lemma VarintLength(d: Bytes, i: nat)
    requires Uvarint(d, i).VarOk?
    ensures i < MAX_VARINT_LEN && Uvarint(d, i).n <= MAX_VARINT_LEN - i && Uvarint(d, i).value < TWO_64
    decreases |d|
  {
    Bounded(d, i);
  }

  /** The value still to be read with i bytes behind us. */
  function Room(i: nat): nat
    decreases MAX_VARINT_LEN - i
  {
    if i >= MAX_VARINT_LEN - 1 then 2 else 0x80 * Room(i + 1)
  }

  lemma {:induction false} Bounded(d: Bytes, i: nat)
    requires Uvarint(d, i).VarOk?
    ensures i < MAX_VARINT_LEN && Uvarint(d, i).n <= MAX_VARINT_LEN - i && Uvarint(d, i).value < Room(i)
    ensures Room(i) <= TWO_64
    decreases |d|
  {
    RoomIs(i);
    if d[0] >= 0x80 {
      Bounded(d[1..], i + 1);
    }
  }

  lemma RoomIs(i: nat)
    ensures 2 <= Room(i) <= TWO_64
    ensures i < MAX_VARINT_LEN - 1 ==> Room(i) >= 0x80 * 2
  {
    assert Room(9) == 2 && Room(8) == 0x100 && Room(7) == 0x8000 && Room(6) == 0x40_0000 && Room(5) == 0x2000_0000;
    assert Room(4) == 0x10_0000_0000 && Room(3) == 0x800_0000_0000 && Room(2) == 0x4_0000_0000_0000;
    assert Room(1) == 0x200_0000_0000_0000 && Room(0) == TWO_64;
  }

  /** When the loop goes on, the index goes back, or stays, for exactly these fields. */
  lemma LandsBack(cfg: seq<Config>, data: Bytes, i: nat)
    requires i < |data| <= MAX_INT
    ensures var j := Next(cfg, data, i); j.Some? ==> (j.value <= i <==> TurnsBack(data, i))
  {
    hide Uvarint, ConfigFor, Wrap;
    if Uvarint(data[i..], 0).VarOk? {
      var VarOk(tag, t) := Uvarint(data[i..], 0);
      VarintLength(data[i..], 0);
      if tag % 8 == LEN {
        match Uvarint(data[i + t..], 0)
        case VarOk(l, n) =>
          VarintLength(data[i + t..], 0);
          WrapLength(l, i + t + n);
        case VarShort => WrapSmall(0, i + t);
        case VarOverflow => WrapBelow(i + t + Consumed(data[i + t..]));
      }
    }
  }

  lemma WrapSmall(v: nat, from: nat)
    ensures from + v <= MAX_INT ==> Wrap(from + Wrap(v)) == from + v
  {
  }

  lemma WrapBelow(from: int)
    requires -11 <= from <= MAX_INT
    ensures Wrap(from + Wrap(0)) == from
  {
  }

  lemma WrapLength(l: nat, from: nat)
    requires l < TWO_64 && from <= MAX_INT
    ensures Wrap(from + Wrap(l)) == if l > MAX_INT || from + l > MAX_INT then from + l - TWO_64 else from + l
  {
  }

  /** A configured varint field that would end before its tag makes the source panic, and so ends the loop: only fields
      that are not configured, and those behind tags of ten bytes, go on. */
  lemma ConfiguredEndsBackwards(cfg: seq<Config>, data: Bytes, i: nat)
    requires i < |data| && Uvarint(data[i..], 0).VarOk?
    requires Uvarint(data[i..], 0).value % 8 == VARINT && ConfigFor(cfg, Uvarint(data[i..], 0).value / 8).Some?
    ensures var t := Uvarint(data[i..], 0).n;
      Next(cfg, data, i).None? <==> t + Consumed(data[i + t..]) < 0
  {
    hide Uvarint, ConfigFor, Consumed;
  }

  /** A configured length-delimited field ends the loop by a panic exactly if its end is negative as a 64-bit index or
      lies before the beginning of what is sliced: the payload if its subfields are selected, and otherwise the tag.
      */
  lemma ConfiguredLengthEnds(cfg: seq<Config>, data: Bytes, i: nat, l: nat, n: nat)
    requires i < |data| <= MAX_INT && Uvarint(data[i..], 0).VarOk? && Uvarint(data[i..], 0).value % 8 == 2
    requires ConfigFor(cfg, Uvarint(data[i..], 0).value / 8).Some?
    requires Uvarint(data[i + Uvarint(data[i..], 0).n..], 0) == VarOk(l, n)
    ensures var VarOk(tag, t) := Uvarint(data[i..], 0);
      var c, from := ConfigFor(cfg, tag / 8).value, i + t + n;
      var to := if l > MAX_INT || from + l > MAX_INT then from + l - TWO_64 else from + l;
      Next(cfg, data, i) ==
      if to < 0 || to < (if c.isMessage || c.sub != [] then from else i) then None else Some(to)
  {
    hide Uvarint, ConfigFor, Wrap;
    var t := Uvarint(data[i..], 0).n;
    VarintLength(data[i + t..], 0);
    WrapLength(l, i + t + n);
  }

  /** A field of a fixed size moves the index behind it, configured or not. */
  lemma FixedMovesOn(cfg: seq<Config>, data: Bytes, i: nat)
    requires i < |data| && Uvarint(data[i..], 0).VarOk?
    ensures var VarOk(tag, t) := Uvarint(data[i..], 0);
      && (tag % 8 == 1 ==> Next(cfg, data, i) == Some(i + t + 8))
      && (tag % 8 == 5 ==> Next(cfg, data, i) == Some(i + t + 4))
      && (tag % 8 in {3, 4, 6, 7} ==> Next(cfg, data, i) == None)
  {
    hide Uvarint, ConfigFor;
  }

  // ----- A loop that comes back goes on forever -----

  lemma {:induction false} EndedStays(cfg: seq<Config>, data: Bytes, a: nat, b: nat)
    requires a <= b && At(cfg, data, a).None?
    ensures At(cfg, data, b).None?
  {
    hide Next;
    if a < b {
      EndedStays(cfg, data, a, b - 1);
    }
  }

  lemma {:induction false} Repeats(cfg: seq<Config>, data: Bytes, a: nat, b: nat, k: nat)
    requires At(cfg, data, a) == At(cfg, data, b)
    ensures At(cfg, data, a + k) == At(cfg, data, b + k)
  {
    hide Next;
    if k > 0 {
      Repeats(cfg, data, a, b, k - 1);
    }
  }

  lemma {:induction false} ComingBackNeverEnds(cfg: seq<Config>, data: Bytes, a: nat, b: nat, n: nat)
    requires a < b && At(cfg, data, a) == At(cfg, data, b) && At(cfg, data, b).Some?
    ensures At(cfg, data, n).Some?
    decreases n
  {
    hide At;
    if n <= b {
      if At(cfg, data, n).None? {
        EndedStays(cfg, data, n, b);
      }
    } else {
      ComingBackNeverEnds(cfg, data, a, b, n - (b - a));
      Repeats(cfg, data, a, b, n - b);
      assert a + (n - b) == n - (b - a);
    }
  }

  // ----- Exactly when it ends -----

  lemma {:induction false} Below(n: nat) returns (s: set<nat>)
    ensures |s| == n && forall x: nat :: x in s <==> x < n
  {
    if n == 0 {
      s := {};
    } else {
      var t := Below(n - 1);
      s := t + {n - 1};
    }
  }

  /** The indexes visited in the first n turns. */
  function Visited(cfg: seq<Config>, data: Bytes, n: nat): set<nat> {
    if n == 0 then {}
    else Visited(cfg, data, n - 1) + match At(cfg, data, n - 1) case None => {} case Some(i) => {i}
  }

  lemma {:induction false} VisitedIs(cfg: seq<Config>, data: Bytes, n: nat, x: nat)
    ensures x in Visited(cfg, data, n) ==> x < |data| && exists k: nat :: k < n && At(cfg, data, k) == Some(x)
  {
    hide At;
    if n > 0 {
      VisitedIs(cfg, data, n - 1, x);
      if At(cfg, data, n - 1) == Some(x) {
        assert n - 1 < n;
      }
    }
  }

  /** As many indexes as turns, as long as none is visited twice. */
  lemma {:induction false} VisitedGrows(cfg: seq<Config>, data: Bytes, n: nat)
    requires forall k: nat :: k < n ==> At(cfg, data, k).Some?
    requires forall a: nat, b: nat :: a < b < n ==> At(cfg, data, a) != At(cfg, data, b)
    ensures |Visited(cfg, data, n)| == n
  {
    hide At;
    if n > 0 {
      VisitedGrows(cfg, data, n - 1);
      VisitedIs(cfg, data, n - 1, At(cfg, data, n - 1).value);
    }
  }

  lemma SubsetSize(s: set<nat>, t: set<nat>)
    requires s <= t
    ensures |s| <= |t|
  {
    assert t == s + (t - s);
  }

  lemma FirstReturn(cfg: seq<Config>, data: Bytes) returns (a: nat, b: nat)
    requires At(cfg, data, |data|).Some?
    ensures a < b && At(cfg, data, a).Some? && At(cfg, data, a) == At(cfg, data, b)
  {
    hide At;
    var n := |data|;
    forall k: nat | k <= n ensures At(cfg, data, k).Some? {
      if At(cfg, data, k).None? {
        EndedStays(cfg, data, k, n);
      }
    }
    if forall a: nat, b: nat :: a < b < n + 1 ==> At(cfg, data, a) != At(cfg, data, b) {
      VisitedGrows(cfg, data, n + 1);
      var all := Below(n);
      forall x | x in Visited(cfg, data, n + 1) ensures x in all {
        VisitedIs(cfg, data, n + 1, x);
      }
      SubsetSize(Visited(cfg, data, n + 1), all);
      assert false;
    }
    a, b :| a < b < n + 1 && At(cfg, data, a) == At(cfg, data, b);
  }

  /** The loop comes back to an index, and on the way there is a field that turns it back. */
  ghost predicate Circles(cfg: seq<Config>, data: Bytes, a: nat, b: nat) {
    && a < b && At(cfg, data, a).Some? && At(cfg, data, a) == At(cfg, data, b)
    && exists k: nat :: a <= k < b && TurnsBackAt(cfg, data, k)
  }

  predicate TurnsBackAt(cfg: seq<Config>, data: Bytes, n: nat) {
    var i := At(cfg, data, n); i.Some? && TurnsBack(data, i.value)
  }

  /** As long as nothing turns it back the index climbs. */
  lemma {:induction false} Climbs(cfg: seq<Config>, data: Bytes, a: nat, b: nat)
    requires |data| <= MAX_INT && a <= b && At(cfg, data, b).Some?
    requires forall k: nat :: a <= k < b ==> !TurnsBackAt(cfg, data, k)
    ensures At(cfg, data, a).Some? && At(cfg, data, b).value >= At(cfg, data, a).value + (b - a)
    decreases b
  {
    hide Next, TurnsBack;
    if a < b {
      Climbs(cfg, data, a, b - 1);
      assert !TurnsBackAt(cfg, data, b - 1);
      LandsBack(cfg, data, At(cfg, data, b - 1).value);
    }
  }

  /** The loop goes on forever exactly when it comes back to an index after a field that turns it back: one with an
      overlong varint, or with a length that a 64-bit index takes for a negative one.  It has then not ended after as
      many turns as there are bytes. */
  lemma TerminatesExactly(cfg: seq<Config>, data: Bytes)
    requires |data| <= MAX_INT
    ensures Terminates(cfg, data) <==> forall a: nat, b: nat :: !Circles(cfg, data, a, b)
    ensures Terminates(cfg, data) <==> At(cfg, data, |data|).None?
  {
    hide At, TurnsBackAt;
    if At(cfg, data, |data|).Some? {
      var a, b := FirstReturn(cfg, data);
      forall m: nat ensures At(cfg, data, m).Some? {
        ComingBackNeverEnds(cfg, data, a, b, m);
      }
      if forall k: nat :: a <= k < b ==> !TurnsBackAt(cfg, data, k) {
        Climbs(cfg, data, a, b);
        assert false;
      }
      assert Circles(cfg, data, a, b);
    } else if a: nat, b: nat :| Circles(cfg, data, a, b) {
      ComingBackNeverEnds(cfg, data, a, b, |data|);
      assert false;
    }
  }

  /** Where no field that is visited turns the index back, the loop ends, whatever is configured. */
  lemma HarmlessTerminates(cfg: seq<Config>, data: Bytes)
    requires |data| <= MAX_INT && forall n: nat :: !TurnsBackAt(cfg, data, n)
    ensures Terminates(cfg, data)
  {
    hide At, TurnsBackAt;
    if At(cfg, data, |data|).Some? {
      Climbs(cfg, data, 0, |data|);
      assert false;
    }
  }

  /** A field that turns the index back to where it has been before, or leaves it where it is, makes the loop go on
      forever. */
  lemma BackToAPassedIndexLoops(cfg: seq<Config>, data: Bytes, a: nat, n: nat)
    requires a <= n && At(cfg, data, a).Some? && At(cfg, data, n).Some?
    requires Next(cfg, data, At(cfg, data, n).value) == At(cfg, data, a)
    ensures !Terminates(cfg, data)
  {
    hide Next;
    assert At(cfg, data, n + 1) == At(cfg, data, a);
    forall m: nat ensures At(cfg, data, m).Some? {
      ComingBackNeverEnds(cfg, data, a, n + 1, m);
    }
  }

  // ----- Messages that end well -----

  /** Every turn on a message that ends well moves the index forward. */
  lemma {:induction false} GoesForward(cfg: seq<Config>, data: Bytes, n: nat)
    requires EndsWell(cfg, data, 0) && |data| <= MAX_INT
    ensures var i := At(cfg, data, n); i.Some? ==> i.value >= n && EndsWell(cfg, data[i.value..], i.value)
  {
    hide Next, EndsWell;
    if n == 0 {
      assert data[0..] == data;
    } else {
      GoesForward(cfg, data, n - 1);
      var i := At(cfg, data, n - 1);
      if i.Some? {
        OneForward(cfg, data, i.value);
      }
    }
  }

  /** Past a whole field, to where it ends. */
  lemma NextOfPiece(cfg: seq<Config>, data: Bytes, i: nat)
    requires i < |data| <= MAX_INT && ParseOne(data[i..]).Piece?
    ensures var Piece(f, rest) := ParseOne(data[i..]);
      && |f.raw| > 0 && i + |f.raw| <= |data| && rest == data[i + |f.raw|..]
      && (Next(cfg, data, i).Some? ==> Next(cfg, data, i).value == i + |f.raw|)
  {
    hide Uvarint, ConfigFor, Wrap;
    var d := data[i..];
    var VarOk(tag, t) := Uvarint(d, 0);
    var Piece(f, rest) := ParseOne(d);
    assert d[t..] == data[i + t..];
    assert d[|f.raw|..] == data[i + |f.raw|..];
    if tag % 8 == LEN {
      match Uvarint(d[t..], 0)
      case VarOk(v, n) => WrapSmall(v, i + t + n);
      case VarShort => WrapSmall(0, i + t);
      case VarOverflow =>
    }
  }

  /** Past a last field that is passed over: beyond the end. */
  lemma NextOfOverrun(cfg: seq<Config>, data: Bytes, i: nat)
    requires i < |data| <= MAX_INT && ParseOne(data[i..]).Overrun? && PassedOver(cfg, data[i..], i)
    ensures Next(cfg, data, i).Some? ==> Next(cfg, data, i).value >= |data|
  {
    hide Uvarint, ConfigFor, Wrap;
    var d := data[i..];
    var VarOk(tag, t) := Uvarint(d, 0);
    assert d[t..] == data[i + t..];
    if tag % 8 == LEN {
      var VarOk(v, n) := Uvarint(d[t..], 0);
      WrapSmall(v, i + t + n);
    }
  }

  lemma OneForward(cfg: seq<Config>, data: Bytes, i: nat)
    requires i < |data| <= MAX_INT && EndsWell(cfg, data[i..], i)
    ensures var j := Next(cfg, data, i);
      j.Some? && j.value < |data| ==> j.value > i && EndsWell(cfg, data[j.value..], j.value)
  {
    hide Uvarint, ConfigFor, Next, PassedOver;
    match ParseOne(data[i..])
    case Piece(_, _) => NextOfPiece(cfg, data, i);
    case Overrun => NextOfOverrun(cfg, data, i);
    case _ => NoNext(cfg, data, i);
  }

  lemma NoNext(cfg: seq<Config>, data: Bytes, i: nat)
    requires i < |data| && (ParseOne(data[i..]).NoTag? || ParseOne(data[i..]).BadWire?)
    ensures Next(cfg, data, i).None?
  {
  }

  /** No field of a message that ends well turns the index back. */
  lemma WellEndingIsHarmless(cfg: seq<Config>, data: Bytes)
    requires InBounds(cfg, data) && |data| <= MAX_INT
    ensures (forall n: nat :: !TurnsBackAt(cfg, data, n)) && Terminates(cfg, data)
  {
    hide At, EndsWell, TurnsBack;
    forall n: nat ensures !TurnsBackAt(cfg, data, n) {
      GoesForward(cfg, data, n);
      if At(cfg, data, n).Some? {
        DoesNotTurnBack(cfg, data, At(cfg, data, n).value);
      }
    }
    HarmlessTerminates(cfg, data);
  }

  lemma DoesNotTurnBack(cfg: seq<Config>, data: Bytes, i: nat)
    requires i < |data| <= MAX_INT && EndsWell(cfg, data[i..], i)
    ensures !TurnsBack(data, i)
  {
    hide Uvarint, ConfigFor;
    var d := data[i..];
    match Uvarint(d, 0)
    case VarOk(tag, t) => assert d[t..] == data[i + t..];
    case _ =>
  }

  // ----- Overlong varints -----

  lemma {:induction false} Overflows(d: Bytes, i: nat)
    requires i <= MAX_VARINT_LEN && |d| > MAX_VARINT_LEN - i
    requires forall k :: 0 <= k < MAX_VARINT_LEN - i ==> d[k] >= 0x80
    ensures Uvarint(d, i) == VarOverflow
    decreases MAX_VARINT_LEN - i
  {
    if i < MAX_VARINT_LEN {
      Overflows(d[1..], i + 1);
    }
  }

  /** A field with a one-byte tag and a one-byte varint is two bytes long. */
  lemma SkipsTwo(cfg: seq<Config>, data: Bytes, i: nat, num: nat)
    requires num < 16 && ConfigFor(cfg, num).None? && i + 1 < |data| && data[i] == 8 * num && data[i + 1] == 0
    ensures Next(cfg, data, i) == Some(i + 2)
  {
    assert data[i..][0] == 8 * num && data[i + 1..][0] == 0;
    assert Uvarint(data[i..], 0) == VarOk(8 * num, 1);
  }

  /** With an overlong varint the index moves back ten bytes from the field's tag. */
  lemma MovesBack(cfg: seq<Config>, data: Bytes, i: nat, num: nat)
    requires num < 16 && ConfigFor(cfg, num).None? && 10 <= i && i + 11 < |data| && data[i] == 8 * num
    requires forall k :: i < k <= i + 10 ==> data[k] >= 0x80
    ensures Next(cfg, data, i) == Some(i - 10)
  {
    assert data[i..][0] == 8 * num;
    assert Uvarint(data[i..], 0) == VarOk(8 * num, 1);
    var d := data[i + 1..];
    assert forall k :: 0 <= k < 10 ==> d[k] == data[i + 1 + k];
    Overflows(d, 0);
  }

  /** Five short fields of a number below 16 that is not configured, and a sixth with an overlong varint, make the loop
      go on forever. */
  lemma OverlongVarintLoops(cfg: seq<Config>, data: Bytes, num: nat)
    requires num < 16 && ConfigFor(cfg, num).None? && |data| >= 22
    requires forall k :: 0 <= k <= 10 ==> data[k] == if k % 2 == 0 then 8 * num else 0
    requires forall k :: 11 <= k < 22 ==> data[k] >= 0x80
    ensures !Terminates(cfg, data)
  {
    hide Next;
    SkipsTwo(cfg, data, 0, num);
    SkipsTwo(cfg, data, 2, num);
    SkipsTwo(cfg, data, 4, num);
    SkipsTwo(cfg, data, 6, num);
    SkipsTwo(cfg, data, 8, num);
    MovesBack(cfg, data, 10, num);
    assert At(cfg, data, 0) == Some(0) && At(cfg, data, 1) == Some(2) && At(cfg, data, 2) == Some(4);
    assert At(cfg, data, 3) == Some(6) && At(cfg, data, 4) == Some(8) && At(cfg, data, 5) == Some(10);
    BackToAPassedIndexLoops(cfg, data, 0, 5);
  }

  /** A tag of ten bytes and a varint that overflows in its tenth byte keep the loop where it is, whether or not the
      field is configured. */
  lemma TenByteTagLoops(cfg: seq<Config>, data: Bytes)
    requires Uvarint(data, 0).VarOk? && Uvarint(data, 0).n == 10 && Uvarint(data, 0).value % 8 == VARINT
    requires |data| >= 20 && (forall k :: 10 <= k < 19 ==> data[k] >= 0x80) && 1 < data[19] < 0x80
    ensures !Terminates(cfg, data)
  {
    hide Uvarint, Next;
    assert data[0..] == data;
    var d := data[10..];
    assert forall k :: 0 <= k < 10 ==> d[k] == data[10 + k];
    OverflowsInTheTenth(d);
    StaysAtTag(cfg, data);
    assert At(cfg, data, 0) == Some(0);
    BackToAPassedIndexLoops(cfg, data, 0, 0);
  }

  lemma StaysAtTag(cfg: seq<Config>, data: Bytes)
    requires data[0..] == data && Uvarint(data, 0).VarOk? && Uvarint(data, 0).n == 10
    requires Uvarint(data, 0).value % 8 == VARINT && Consumed(data[10..]) == -10
    ensures Next(cfg, data, 0) == Some(0)
  {
    hide Uvarint, Consumed;
  }

  lemma {:induction false} TenthOverflows(d: Bytes, i: nat)
    requires i < MAX_VARINT_LEN && |d| >= MAX_VARINT_LEN - i
    requires forall k :: 0 <= k < MAX_VARINT_LEN - 1 - i ==> d[k] >= 0x80
    requires 1 < d[MAX_VARINT_LEN - 1 - i] < 0x80
    ensures Uvarint(d, i) == VarOverflow
    decreases MAX_VARINT_LEN - i
  {
    if i < MAX_VARINT_LEN - 1 {
      TenthOverflows(d[1..], i + 1);
    }
  }

  lemma OverflowsInTheTenth(d: Bytes)
    requires |d| >= 10 && (forall k :: 0 <= k < 9 ==> d[k] >= 0x80) && 1 < d[9] < 0x80
    ensures Consumed(d) == -10
  {
    hide Uvarint;
    TenthOverflows(d, 0);
  }
}
