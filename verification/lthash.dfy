/** The summation hash of `appstate/lthash/lthash.go`: 64 little-endian 16-bit lanes that are added and subtracted
    with wrap-around.  `expand` stands for HKDF-SHA256 with the info string of `WAPatchIntegrity` and is arbitrary. */
module LTHash {
  import opened Bytes

  const LANE: int := 0x1_0000

  type Hash = h: Bytes | |h| == 128 witness seq(128, i => 0)

  type Expand = Bytes -> Hash

  const ZERO: Hash := Repeat(0, 128)

  function Uint16(low: byte, high: byte): (x: nat)
    ensures x < LANE
  {
    var l: int, h: int := low, high;
    l + 0x100 * h
  }

  function Lane(b: Bytes, i: nat): (x: nat)
    requires 2 * i + 1 < |b|
    ensures x < LANE
  {
    Uint16(b[2 * i], b[2 * i + 1])
  }

  function LaneOp(x: nat, y: nat, subtract: bool): (z: nat)
    ensures z < LANE
  {
    if subtract then (x - y) % LANE else (x + y) % LANE
  }

  function LaneByte(x: nat, high: bool): byte
    requires x < LANE
  {
    if high then x / 0x100 else x % 0x100
  }

  /** The whole-hash operation that `PerformPointwiseWithOverflow` carries out in place. */
  function Pointwise(base: Hash, input: Hash, subtract: bool): Hash {
    seq(128, k requires 0 <= k < 128 =>
      LaneByte(LaneOp(Lane(base, k / 2), Lane(input, k / 2), subtract), k % 2 == 1))
  }

  lemma PointwiseLane(base: Hash, input: Hash, subtract: bool, i: nat)
    requires i < 64
    ensures Lane(Pointwise(base, input, subtract), i) == LaneOp(Lane(base, i), Lane(input, i), subtract)
  {
    var r := LaneOp(Lane(base, i), Lane(input, i), subtract);
    var p := Pointwise(base, input, subtract);
    assert (2 * i) / 2 == i && (2 * i + 1) / 2 == i && (2 * i) % 2 == 0 && (2 * i + 1) % 2 == 1;
    assert p[2 * i] == LaneByte(r, false) && p[2 * i + 1] == LaneByte(r, true);
  }

  /** In terms of bytes: every two of them are a number, the low byte first, that is added or subtracted modulo 2^16. */
  lemma LanesAreLittleEndian(base: Hash, input: Hash, subtract: bool, i: nat)
    requires i < 64
    ensures var p := Pointwise(base, input, subtract);
      var a: int, b: int, x: int, y: int := base[2 * i], base[2 * i + 1], input[2 * i], input[2 * i + 1];
      var low: int, high: int := p[2 * i], p[2 * i + 1];
      low + 256 * high ==
      (if subtract then (a + 256 * b) - (x + 256 * y) else (a + 256 * b) + (x + 256 * y)) % 65536
  {
    PointwiseLane(base, input, subtract, i);
  }

  lemma LanesDetermine(a: Hash, b: Hash)
    requires forall i :: 0 <= i < 64 ==> Lane(a, i) == Lane(b, i)
    ensures a == b
  {
    forall k | 0 <= k < 128
      ensures a[k] == b[k]
    {
      assert Lane(a, k / 2) == Lane(b, k / 2);
      assert k == 2 * (k / 2) || k == 2 * (k / 2) + 1;
    }
  }

  lemma ModShift(a: int, q: int)
    ensures (a + q * LANE) % LANE == a % LANE
  {
    assert a + q * LANE == (a / LANE + q) * LANE + a % LANE;
  }

  lemma ModAbsorb(a: int, b: int)
    ensures (a % LANE + b) % LANE == (a + b) % LANE
  {
    ModShift(a % LANE + b, a / LANE);
  }

  function Signed(x: nat, subtract: bool): int {
    if subtract then -1 * x else x
  }

  lemma OpsCommute(h: nat, x: nat, s: bool, y: nat, t: bool)
    ensures LaneOp(LaneOp(h, x, s), y, t) == LaneOp(LaneOp(h, y, t), x, s)
  {
    ModAbsorb(h + Signed(x, s), Signed(y, t));
    ModAbsorb(h + Signed(y, t), Signed(x, s));
  }

  lemma CommuteAt(h: Hash, x: Hash, s: bool, y: Hash, t: bool, i: nat)
    requires i < 64
    ensures Lane(Pointwise(Pointwise(h, x, s), y, t), i) == Lane(Pointwise(Pointwise(h, y, t), x, s), i)
  {
    PointwiseLane(h, x, s, i);
    PointwiseLane(h, y, t, i);
    PointwiseLane(Pointwise(h, x, s), y, t, i);
    PointwiseLane(Pointwise(h, y, t), x, s, i);
    OpsCommute(Lane(h, i), Lane(x, i), s, Lane(y, i), t);
  }

  /** Two updates commute, whatever their signs. */
  lemma Commute(h: Hash, x: Hash, s: bool, y: Hash, t: bool)
    ensures Pointwise(Pointwise(h, x, s), y, t) == Pointwise(Pointwise(h, y, t), x, s)
  {
    var a, b := Pointwise(Pointwise(h, x, s), y, t), Pointwise(Pointwise(h, y, t), x, s);
    forall i | 0 <= i < 64
      ensures Lane(a, i) == Lane(b, i)
    {
      CommuteAt(h, x, s, y, t, i);
    }
    LanesDetermine(a, b);
  }

  lemma OpsCancel(h: nat, x: nat, s: bool)
    requires h < LANE
    ensures LaneOp(LaneOp(h, x, s), x, !s) == h
  {
    ModAbsorb(h + Signed(x, s), Signed(x, !s));
  }

  lemma CancelAt(h: Hash, x: Hash, s: bool, i: nat)
    requires i < 64
    ensures Lane(Pointwise(Pointwise(h, x, s), x, !s), i) == Lane(h, i)
  {
    PointwiseLane(h, x, s, i);
    PointwiseLane(Pointwise(h, x, s), x, !s, i);
    OpsCancel(Lane(h, i), Lane(x, i), s);
  }

  /** An update is undone by the opposite update. */
  lemma Cancel(h: Hash, x: Hash, s: bool)
    ensures Pointwise(Pointwise(h, x, s), x, !s) == h
  {
    var a := Pointwise(Pointwise(h, x, s), x, !s);
    forall i | 0 <= i < 64
      ensures Lane(a, i) == Lane(h, i)
    {
      CancelAt(h, x, s, i);
    }
    LanesDetermine(a, h);
  }

  lemma PointwiseBytes(base: Hash, input: Hash, subtract: bool, i: nat)
    requires i < 128 && i % 2 == 0
    ensures var r := LaneOp(Uint16(base[i], base[i + 1]), Uint16(input[i], input[i + 1]), subtract);
      && Pointwise(base, input, subtract)[i] == LaneByte(r, false)
      && Pointwise(base, input, subtract)[i + 1] == LaneByte(r, true)
  {
    assert i / 2 == (i + 1) / 2 && 2 * (i / 2) == i && (i + 1) % 2 == 1;
  }

  method PerformPointwiseWithOverflow(base: array<byte>, input: Hash, subtract: bool)
    requires base.Length == 128
    modifies base
    ensures base[..] == Pointwise(old(base[..]), input, subtract)
  {
    hide Pointwise, LaneOp, LaneByte, Uint16;
    ghost var was: Hash := base[..];
    ghost var goal := Pointwise(was, input, subtract);
    var i := 0;
    while i < base.Length
      invariant 0 <= i <= 128 && i % 2 == 0
      invariant forall k :: 0 <= k < i ==> base[k] == goal[k]
      invariant forall k :: i <= k < 128 ==> base[k] == was[k]
    {
      var x, y := Uint16(base[i], base[i + 1]), Uint16(input[i], input[i + 1]);
      var result := LaneOp(x, y, subtract);
      PointwiseBytes(was, input, subtract, i);
      base[i], base[i + 1] := LaneByte(result, false), LaneByte(result, true);
      i := i + 2;
    }
    assert base[..] == goal;
  }

  /** `multipleOp`: one update for every item, in order. */
  function UpdateAll(expand: Expand, h: Hash, items: seq<Bytes>, subtract: bool): Hash {
    if items == [] then h
    else Pointwise(UpdateAll(expand, h, items[..|items| - 1], subtract), expand(items[|items| - 1]), subtract)
  }

  function SubtractThenAdd(expand: Expand, h: Hash, removed: seq<Bytes>, added: seq<Bytes>): Hash {
    UpdateAll(expand, UpdateAll(expand, h, removed, true), added, false)
  }

  method MultipleOp(expand: Expand, base: array<byte>, input: seq<Bytes>, subtract: bool)
    requires base.Length == 128
    modifies base
    ensures base[..] == UpdateAll(expand, old(base[..]), input, subtract)
  {
    for n := 0 to |input|
      invariant base[..] == UpdateAll(expand, old(base[..]), input[..n], subtract)
    {
      PerformPointwiseWithOverflow(base, expand(input[n]), subtract);
      assert input[..n + 1][..n] == input[..n];
    }
    assert input[..|input|] == input;
  }

  method SubtractThenAddInPlace(expand: Expand, base: array<byte>, subtract: seq<Bytes>, add: seq<Bytes>)
    requires base.Length == 128
    modifies base
    ensures base[..] == SubtractThenAdd(expand, old(base[..]), subtract, add)
  {
    MultipleOp(expand, base, subtract, true);
    MultipleOp(expand, base, add, false);
  }

  lemma {:induction false} UpdatePastAll(expand: Expand, h: Hash, items: seq<Bytes>, subtract: bool, x: Hash, s: bool)
    ensures UpdateAll(expand, Pointwise(h, x, s), items, subtract) ==
            Pointwise(UpdateAll(expand, h, items, subtract), x, s)
  {
    if items != [] {
      var front, last := items[..|items| - 1], items[|items| - 1];
      UpdatePastAll(expand, h, front, subtract, x, s);
      Commute(UpdateAll(expand, h, front, subtract), x, s, expand(last), subtract);
    }
  }

  lemma NoUpdates(expand: Expand, h: Hash)
    ensures SubtractThenAdd(expand, h, [], []) == h
  {
  }

  /** Appending to the removed list subtracts that item from the final hash; appending to the added list adds it. */
  lemma AppendRemoved(expand: Expand, h: Hash, removed: seq<Bytes>, added: seq<Bytes>, r: Bytes)
    ensures SubtractThenAdd(expand, h, removed + [r], added) ==
            Pointwise(SubtractThenAdd(expand, h, removed, added), expand(r), true)
  {
    assert (removed + [r])[..|removed|] == removed;
    UpdatePastAll(expand, UpdateAll(expand, h, removed, true), added, false, expand(r), true);
  }

  lemma AppendAdded(expand: Expand, h: Hash, removed: seq<Bytes>, added: seq<Bytes>, a: Bytes)
    ensures SubtractThenAdd(expand, h, removed, added + [a]) ==
            Pointwise(SubtractThenAdd(expand, h, removed, added), expand(a), false)
  {
    assert (added + [a])[..|added|] == added;
  }

  /** The from-scratch hash of a map from index MAC to value MAC: one addition for every live value, in any order. */
  ghost function Total(expand: Expand, live: map<Bytes, Bytes>): Hash
    decreases |live|
  {
    if live == map[] then ZERO
    else
      var k :| k in live;
      assert (live - {k}).Keys == live.Keys - {k};
      assert |live - {k}| == |(live - {k}).Keys|;
      Pointwise(Total(expand, live - {k}), expand(live[k]), false)
  }

  /** The order of the additions does not matter: any live key can be the last one added. */
  lemma {:induction false} TotalSplit(expand: Expand, live: map<Bytes, Bytes>, k: Bytes)
    requires k in live
    ensures Total(expand, live) == Pointwise(Total(expand, live - {k}), expand(live[k]), false)
    decreases |live|
  {
    var c :| c in live && Total(expand, live) == Pointwise(Total(expand, live - {c}), expand(live[c]), false);
    if c != k {
      assert (live - {c}).Keys == live.Keys - {c} && |(live - {c}).Keys| == |live - {c}|;
      assert (live - {k}).Keys == live.Keys - {k} && |(live - {k}).Keys| == |live - {k}|;
      var rest := live - {c} - {k};
      assert rest == live - {k} - {c};
      TotalSplit(expand, live - {c}, k);
      TotalSplit(expand, live - {k}, c);
      Commute(Total(expand, rest), expand(live[k]), false, expand(live[c]), false);
    }
  }

  /** Replacing or inserting one binding. */
  lemma TotalPut(expand: Expand, live: map<Bytes, Bytes>, k: Bytes, v: Bytes)
    ensures k !in live ==> Total(expand, live[k := v]) == Pointwise(Total(expand, live), expand(v), false)
    ensures k in live ==>
      Total(expand, live[k := v]) == Pointwise(Pointwise(Total(expand, live), expand(live[k]), true), expand(v), false)
  {
    TotalSplit(expand, live[k := v], k);
    assert live[k := v] - {k} == live - {k};
    TotalDelete(expand, live, k);
  }

  lemma TotalDelete(expand: Expand, live: map<Bytes, Bytes>, k: Bytes)
    ensures k !in live ==> live - {k} == live
    ensures k in live ==> Total(expand, live - {k}) == Pointwise(Total(expand, live), expand(live[k]), true)
  {
    if k in live {
      TotalSplit(expand, live, k);
      Cancel(Total(expand, live - {k}), expand(live[k]), false);
    }
  }

  lemma AddToZero(h: Hash)
    ensures Pointwise(ZERO, h, false) == h
  {
    forall i | 0 <= i < 64 ensures Lane(Pointwise(ZERO, h, false), i) == Lane(h, i) {
      PointwiseLane(ZERO, h, false, i);
    }
    LanesDetermine(Pointwise(ZERO, h, false), h);
  }

  lemma {:induction false} UpdatesDetermine(expand: Expand, a: Hash, b: Hash, items: seq<Bytes>, subtract: bool)
    requires UpdateAll(expand, a, items, subtract) == UpdateAll(expand, b, items, subtract)
    ensures a == b
  {
    if items != [] {
      var front, last := items[..|items| - 1], items[|items| - 1];
      Cancel(UpdateAll(expand, a, front, subtract), expand(last), subtract);
      Cancel(UpdateAll(expand, b, front, subtract), expand(last), subtract);
      UpdatesDetermine(expand, a, b, front, subtract);
    }
  }

  /** Updates leave one hash as it is exactly when they leave the empty one as it is: when their elements sum to zero.
      */
  lemma UpdatesFromZero(expand: Expand, h: Hash, items: seq<Bytes>, subtract: bool)
    ensures UpdateAll(expand, h, items, subtract) == h <==> UpdateAll(expand, ZERO, items, subtract) == ZERO
  {
    hide Pointwise;
    var z := UpdateAll(expand, ZERO, items, subtract);
    AddToZero(h);
    UpdatePastAll(expand, ZERO, items, subtract, h, false);
    Cancel(z, h, false);
    Cancel(ZERO, h, false);
  }

  lemma SubtractDetermines(base: Hash, a: Hash, b: Hash)
    requires Pointwise(base, a, true) == Pointwise(base, b, true)
    ensures a == b
  {
    hide Lane, Pointwise, LaneOp;
    forall i | 0 <= i < 64 ensures Lane(a, i) == Lane(b, i) {
      PointwiseLane(base, a, true, i);
      PointwiseLane(base, b, true, i);
      OpDetermines(Lane(base, i), Lane(a, i), Lane(b, i));
    }
    LanesDetermine(a, b);
  }

  lemma OpDetermines(x: nat, a: nat, b: nat)
    requires x < LANE && a < LANE && b < LANE && LaneOp(x, a, true) == LaneOp(x, b, true)
    ensures a == b
  {
    var q := (x - a) / LANE - (x - b) / LANE;
    assert b - a == q * LANE;
  }

  /** Replacing a value changes the total unless the two expand to the same element. */
  lemma ReplacementShows(expand: Expand, live: map<Bytes, Bytes>, k: Bytes, v: Bytes)
    requires k in live
    ensures Total(expand, live[k := v]) == Total(expand, live) <==> expand(live[k]) == expand(v)
  {
    var t, a, b := Total(expand, live), expand(live[k]), expand(v);
    TotalPut(expand, live, k, v);
    Cancel(t, b, true);
    Cancel(Pointwise(t, a, true), b, false);
    if Total(expand, live[k := v]) == t {
      SubtractDetermines(t, a, b);
    }
  }
}
