/** The send limiter when several sends of one account are under way at once: each call checks in one transaction and
    records in another, so checks and records of different calls interleave. */
module SendLimiterConcurrent {
  import opened Bytes
  import opened SendLimiter

  /** A call checks, and if it is allowed it is under way until it records its send or fails; i is its place among the
      calls under way. */
  datatype Event = Checks(now: int) | Records(i: nat, now: int) | Fails(i: nat, now: int)

  /** A recorded send: when, and how many sends had been recorded when its call checked. */
  datatype Send = Send(time: int, seen: nat)

  /** The row, the calls under way, each with the number of sends that had been recorded when it checked, and the sends
      recorded so far. */
  datatype World = World(row: Row, underWay: seq<nat>, sends: seq<Send>)

  function Without(s: seq<nat>, i: nat): seq<nat>
    requires i < |s|
  {
    s[..i] + s[i + 1..]
  }

  function Advance(cfg: Settings, w: World, e: Event): World {
    match e
    case Checks(now) => if Check(cfg, w.row, now).Allowed? then w.(underWay := w.underWay + [|w.sends|]) else w
    case Records(i, now) =>
      if i >= |w.underWay| then w
      else World(Record(cfg, w.row, now), Without(w.underWay, i), w.sends + [Send(now, w.underWay[i])])
    case Fails(i, _) => if i >= |w.underWay| then w else w.(underWay := Without(w.underWay, i))
  }

  function Run(cfg: Settings, events: seq<Event>): World {
    if events == [] then World(NO_ROW, [], [])
    else Advance(cfg, Run(cfg, events[..|events| - 1]), events[|events| - 1])
  }

  /** The clock does not go back. */
  ghost predicate Chronological(events: seq<Event>) {
    forall i, j :: 0 <= i < j < |events| ==> events[i].now <= events[j].now
  }

  /** Never more than k calls are under way. */
  ghost predicate AtMost(cfg: Settings, events: seq<Event>, k: nat) {
    forall n :: 0 <= n <= |events| ==> |Run(cfg, events[..n]).underWay| <= k
  }

  // ----- Counting the calls that had checked before send p was recorded -----

  function EarlyCalls(s: seq<nat>, p: nat): nat {
    if s == [] then 0 else EarlyCalls(s[..|s| - 1], p) + if s[|s| - 1] <= p then 1 else 0
  }

  function EarlySends(sends: seq<Send>, p: nat): nat {
    if |sends| <= p then 0
    else EarlySends(sends[..|sends| - 1], p) + if sends[|sends| - 1].seen <= p then 1 else 0
  }

  lemma {:induction false} EarlySplit(a: seq<nat>, b: seq<nat>, p: nat)
    ensures EarlyCalls(a + b, p) == EarlyCalls(a, p) + EarlyCalls(b, p)
  {
    if b == [] {
      assert a + b == a;
    } else {
      assert (a + b)[..|a + b| - 1] == a + b[..|b| - 1];
      EarlySplit(a, b[..|b| - 1], p);
    }
  }

  lemma EarlyWithout(s: seq<nat>, i: nat, p: nat)
    requires i < |s|
    ensures EarlyCalls(Without(s, i), p) == EarlyCalls(s, p) - if s[i] <= p then 1 else 0
  {
    assert s == s[..i] + ([s[i]] + s[i + 1..]);
    EarlySplit(s[..i], [s[i]] + s[i + 1..], p);
    EarlySplit([s[i]], s[i + 1..], p);
    EarlySplit(s[..i], s[i + 1..], p);
    assert [s[i]][..0] == [];
    assert EarlyCalls([s[i]], p) == if s[i] <= p then 1 else 0;
  }

  lemma {:induction false} AllEarly(s: seq<nat>, p: nat)
    ensures EarlyCalls(s, p) <= |s|
  {
    if s != [] {
      AllEarly(s[..|s| - 1], p);
    }
  }

  lemma {:induction false} EarlySendsAre(sends: seq<Send>, p: nat)
    requires p < |sends| && forall j :: p <= j < |sends| ==> sends[j].seen <= p
    ensures EarlySends(sends, p) == |sends| - p
  {
    if |sends| > p + 1 {
      EarlySendsAre(sends[..|sends| - 1], p);
    } else {
      assert EarlySends(sends[..p], p) == 0;
    }
  }

  // ----- What every run keeps -----

  /** No more than k calls had checked before send p was recorded and were still under way then. */
  ghost predicate FewEarly(w: World, k: nat, p: nat) {
    p <= |w.sends| ==> EarlyCalls(w.underWay, p) + EarlySends(w.sends, p) <= k
  }

  /** A call that saw a send comes a cooldown after it. */
  ghost predicate Spaced(interval: nat, sends: seq<Send>, time: int, seen: nat) {
    seen <= |sends| && (seen > 0 ==> time - sends[seen - 1].time >= interval)
  }

  /** Sends are recorded in order, the row knows the last one, and each comes a cooldown after the one k places
      before. */
  ghost predicate InOrder(cfg: Settings, w: World, k: nat, clock: int) {
    && (if w.sends == [] then w.row.last.None? else w.row.last == Some(w.sends[|w.sends| - 1].time))
    && (forall i :: 0 <= i < |w.sends| ==> w.sends[i].time <= clock)
    && (forall i, j :: 0 <= i < j < |w.sends| ==> w.sends[i].time <= w.sends[j].time)
    && (forall i :: 0 <= i && i + k < |w.sends| ==> w.sends[i + k].time - w.sends[i].time >= cfg.interval)
  }

  /** Calls under way and calls that have recorded saw their cooldown. */
  ghost predicate Seen(cfg: Settings, w: World, k: nat, clock: int) {
    && (forall i :: 0 <= i < |w.underWay| ==> Spaced(cfg.interval, w.sends, clock, w.underWay[i]))
    && (forall i :: 0 <= i < |w.sends| ==> Spaced(cfg.interval, w.sends[..i], w.sends[i].time, w.sends[i].seen))
    && (forall p :: FewEarly(w, k, p))
  }

  ghost predicate Kept(cfg: Settings, w: World, k: nat, clock: int) {
    InOrder(cfg, w, k, clock) && Seen(cfg, w, k, clock)
  }

  lemma EarlySendsOneMore(sends: seq<Send>, s: Send, p: nat)
    ensures EarlySends(sends + [s], p) == EarlySends(sends, p) + if p <= |sends| && s.seen <= p then 1 else 0
  {
    assert (sends + [s])[..|sends|] == sends;
    if |sends| < p {
      assert EarlySends(sends, p) == 0;
    }
  }

  /** The send that is now recorded comes a cooldown after the one k places before it. */
  lemma SpacedFromBefore(cfg: Settings, w: World, k: nat, clock: int, i: nat, now: int)
    requires Kept(cfg, w, k, clock) && k >= 1 && clock <= now && i < |w.underWay| && |w.sends| >= k
    ensures now - w.sends[|w.sends| - k].time >= cfg.interval
  {
    hide EarlyCalls, EarlySends;
    var m := |w.sends|;
    var p := m - k;
    assert FewEarly(w, k, p);
    assert Spaced(cfg.interval, w.sends, clock, w.underWay[i]);
    if w.underWay[i] > p {
      assert w.sends[p].time <= w.sends[w.underWay[i] - 1].time;
    } else if j :| p < j < m && w.sends[j].seen > p {
      assert Spaced(cfg.interval, w.sends[..j], w.sends[j].time, w.sends[j].seen);
      assert w.sends[p].time <= w.sends[w.sends[j].seen - 1].time;
    } else {
      assert Spaced(cfg.interval, w.sends[..p], w.sends[p].time, w.sends[p].seen);
      EarlySendsAre(w.sends, p);
      EarlyWithout(w.underWay, i, p);
    }
  }

  lemma RecordKeeps(cfg: Settings, w: World, k: nat, clock: int, i: nat, now: int)
    requires Kept(cfg, w, k, clock) && cfg.enabled && k >= 1 && clock <= now && i < |w.underWay|
    ensures Kept(cfg, Advance(cfg, w, Records(i, now)), k, now)
  {
    RecordKeepsOrder(cfg, w, k, clock, i, now);
    RecordKeepsSeen(cfg, w, k, clock, i, now);
  }

  lemma RecordKeepsOrder(cfg: Settings, w: World, k: nat, clock: int, i: nat, now: int)
    requires Kept(cfg, w, k, clock) && cfg.enabled && k >= 1 && clock <= now && i < |w.underWay|
    ensures InOrder(cfg, Advance(cfg, w, Records(i, now)), k, now)
  {
    hide Seen, Record;
    if |w.sends| >= k {
      SpacedFromBefore(cfg, w, k, clock, i, now);
    }
    RecordSetsLast(cfg, w.row, now);
  }

  lemma RecordKeepsSeen(cfg: Settings, w: World, k: nat, clock: int, i: nat, now: int)
    requires Kept(cfg, w, k, clock) && clock <= now && i < |w.underWay|
    ensures Seen(cfg, Advance(cfg, w, Records(i, now)), k, now)
  {
    hide Spaced, FewEarly, Record, InOrder;
    var w' := Advance(cfg, w, Records(i, now));
    forall j | 0 <= j < |w'.sends| ensures Spaced(cfg.interval, w'.sends[..j], w'.sends[j].time, w'.sends[j].seen) {
      if j < |w.sends| {
        assert w'.sends[..j] == w.sends[..j];
      } else {
        assert w'.sends[..j] == w.sends;
        SpacedLater(cfg.interval, w.sends, clock, w.underWay[i], now);
      }
    }
    forall j | 0 <= j < |w'.underWay| ensures Spaced(cfg.interval, w'.sends, now, w'.underWay[j]) {
      var was := w'.underWay[j];
      assert was == w.underWay[if j < i then j else j + 1];
      SpacedMore(cfg.interval, w.sends, clock, was, now, Send(now, w.underWay[i]));
    }
    forall p: nat ensures FewEarly(w', k, p) {
      RecordKeepsFew(cfg, w, k, clock, i, now, p);
    }
  }

  lemma RecordSetsLast(cfg: Settings, row: Row, now: int)
    requires cfg.enabled
    ensures Record(cfg, row, now).last == Some(now)
  {
  }

  lemma SpacedLater(interval: nat, sends: seq<Send>, clock: int, seen: nat, now: int)
    requires Spaced(interval, sends, clock, seen) && clock <= now
    ensures Spaced(interval, sends, now, seen)
  {
  }

  lemma SpacedMore(interval: nat, sends: seq<Send>, clock: int, seen: nat, now: int, s: Send)
    requires Spaced(interval, sends, clock, seen) && clock <= now
    ensures Spaced(interval, sends + [s], now, seen)
  {
  }

  lemma RecordKeepsFew(cfg: Settings, w: World, k: nat, clock: int, i: nat, now: int, p: nat)
    requires Kept(cfg, w, k, clock) && i < |w.underWay|
    ensures FewEarly(Advance(cfg, w, Records(i, now)), k, p)
  {
    hide EarlyCalls, EarlySends, Record;
    var w' := Advance(cfg, w, Records(i, now));
    assert FewEarly(w, k, p) && FewEarly(w, k, |w.sends|);
    EarlyWithout(w.underWay, i, p);
    EarlySendsOneMore(w.sends, Send(now, w.underWay[i]), p);
    if p == |w.sends| + 1 {
      assert forall j :: 0 <= j < |w.underWay| ==> Spaced(cfg.interval, w.sends, clock, w.underWay[j]);
      FewUnderWay(w, k);
      AllEarly(w'.underWay, p);
      NoSendsFrom(w'.sends, p);
    }
  }

  lemma NoSendsFrom(sends: seq<Send>, p: nat)
    requires p >= |sends|
    ensures EarlySends(sends, p) == 0
  {
  }

  /** All the calls under way had checked before the next send. */
  lemma FewUnderWay(w: World, k: nat)
    requires FewEarly(w, k, |w.sends|) && forall i :: 0 <= i < |w.underWay| ==> w.underWay[i] <= |w.sends|
    ensures |w.underWay| <= k
  {
    NoSendsFrom(w.sends, |w.sends|);
    EarlyAre(w.underWay, |w.sends|);
  }

  lemma {:induction false} EarlyAre(s: seq<nat>, p: nat)
    requires forall i :: 0 <= i < |s| ==> s[i] <= p
    ensures EarlyCalls(s, p) == |s|
  {
    if s != [] {
      EarlyAre(s[..|s| - 1], p);
    }
  }

  lemma CheckKeeps(cfg: Settings, w: World, k: nat, clock: int, now: int)
    requires Kept(cfg, w, k, clock) && cfg.enabled && clock <= now
    requires |Advance(cfg, w, Checks(now)).underWay| <= k
    ensures Kept(cfg, Advance(cfg, w, Checks(now)), k, now)
  {
    hide EarlyCalls, EarlySends, InOrder, Spaced, FewEarly, Check;
    var w' := Advance(cfg, w, Checks(now));
    CheckKeepsOrder(cfg, w, k, clock, now);
    CheckKeepsSpaced(cfg, w, k, clock, now);
    forall p: nat ensures FewEarly(w', k, p) {
      CheckKeepsFew(cfg, w, k, clock, now, p);
    }
  }

  lemma CheckKeepsOrder(cfg: Settings, w: World, k: nat, clock: int, now: int)
    requires InOrder(cfg, w, k, clock) && clock <= now
    ensures InOrder(cfg, Advance(cfg, w, Checks(now)), k, now)
  {
    hide Check;
  }

  lemma CheckKeepsSpaced(cfg: Settings, w: World, k: nat, clock: int, now: int)
    requires Kept(cfg, w, k, clock) && cfg.enabled && clock <= now
    ensures var s := Advance(cfg, w, Checks(now)).underWay;
      forall i :: 0 <= i < |s| ==> Spaced(cfg.interval, w.sends, now, s[i])
  {
    hide FewEarly;
    forall i | 0 <= i < |w.underWay| ensures Spaced(cfg.interval, w.sends, now, w.underWay[i]) {
      SpacedLater(cfg.interval, w.sends, clock, w.underWay[i], now);
    }
  }

  lemma CheckKeepsFew(cfg: Settings, w: World, k: nat, clock: int, now: int, p: nat)
    requires Kept(cfg, w, k, clock) && |Advance(cfg, w, Checks(now)).underWay| <= k
    ensures FewEarly(Advance(cfg, w, Checks(now)), k, p)
  {
    hide EarlyCalls, EarlySends, InOrder, Spaced, Check;
    var w' := Advance(cfg, w, Checks(now));
    assert FewEarly(w, k, p);
    if p == |w.sends| {
      AllEarly(w'.underWay, p);
      NoSendsFrom(w.sends, p);
    } else if w' != w {
      EarlySplit(w.underWay, [|w.sends|], p);
      OneEarly(|w.sends|, p);
    }
  }

  lemma OneEarly(seen: nat, p: nat)
    ensures EarlyCalls([seen], p) == if seen <= p then 1 else 0
  {
    assert [seen][..0] == [];
  }

  lemma FailKeeps(cfg: Settings, w: World, k: nat, clock: int, i: nat, now: int)
    requires Kept(cfg, w, k, clock) && clock <= now
    ensures Kept(cfg, Advance(cfg, w, Fails(i, now)), k, now)
  {
    hide EarlyCalls, EarlySends, Spaced;
    var w' := Advance(cfg, w, Fails(i, now));
    forall j | 0 <= j < |w'.underWay| ensures Spaced(cfg.interval, w'.sends, now, w'.underWay[j]) {
      assert w'.underWay[j] == w.underWay[if i >= |w.underWay| || j < i then j else j + 1];
      SpacedLater(cfg.interval, w.sends, clock, w'.underWay[j], now);
    }
    forall p: nat ensures FewEarly(w', k, p) {
      assert FewEarly(w, k, p);
      if i < |w.underWay| {
        EarlyWithout(w.underWay, i, p);
      }
    }
  }

  lemma {:induction false} RunKeeps(cfg: Settings, events: seq<Event>, k: nat) returns (clock: int)
    requires cfg.enabled && k >= 1 && Chronological(events) && AtMost(cfg, events, k)
    ensures Kept(cfg, Run(cfg, events), k, clock)
    ensures events != [] ==> clock == events[|events| - 1].now
  {
    hide Kept, Advance;
    if events == [] {
      clock := 0;
      NothingYet(cfg, k);
    } else {
      var n := |events| - 1;
      var front, e := events[..n], events[n];
      assert forall i :: 0 <= i <= n ==> front[..i] == events[..i];
      assert events[..|events|] == events;
      clock := RunKeeps(cfg, front, k);
      var w := Run(cfg, front);
      if n == 0 {
        clock := e.now;
        NothingYet(cfg, k);
        KeptAnyClock(cfg, k, 0, e.now);
      }
      match e
      case Checks(now) => CheckKeeps(cfg, w, k, clock, now); clock := now;
      case Fails(i, now) => FailKeeps(cfg, w, k, clock, i, now); clock := now;
      case Records(i, now) =>
        if i < |w.underWay| {
          RecordKeeps(cfg, w, k, clock, i, now);
        } else {
          FailKeeps(cfg, w, k, clock, i, now);
          NothingRecorded(cfg, w, i, now);
        }
        clock := now;
    }
  }

  lemma NothingRecorded(cfg: Settings, w: World, i: nat, now: int)
    requires i >= |w.underWay|
    ensures Advance(cfg, w, Records(i, now)) == w == Advance(cfg, w, Fails(i, now))
  {
  }

  lemma NothingYet(cfg: Settings, k: nat)
    ensures Run(cfg, []) == World(NO_ROW, [], []) && Kept(cfg, World(NO_ROW, [], []), k, 0)
  {
  }

  lemma KeptAnyClock(cfg: Settings, k: nat, a: int, b: int)
    requires Kept(cfg, World(NO_ROW, [], []), k, a)
    ensures Kept(cfg, World(NO_ROW, [], []), k, b)
  {
  }

  /** With at most k calls of an account under way at a time, a send comes at least a cooldown after the one k places
      before it. */
  lemma CooldownOverKSends(cfg: Settings, events: seq<Event>, k: nat, i: nat)
    requires cfg.enabled && k >= 1 && Chronological(events) && AtMost(cfg, events, k)
    requires i + k < |Run(cfg, events).sends|
    ensures var sends := Run(cfg, events).sends; sends[i + k].time - sends[i].time >= cfg.interval
  {
    hide Run, Chronological, AtMost, EarlyCalls, EarlySends;
    var clock := RunKeeps(cfg, events, k);
  }

  // ----- And not sooner -----

  /** k calls that all check before any of them records. */
  function Together(k: nat, n: nat, now: int): (events: seq<Event>)
    requires n <= k
    ensures |events| == k + n && forall e :: e in events ==> e.now == now
  {
    if n > 0 then Together(k, n - 1, now) + [Records(0, now)]
    else if k > 0 then Together(k - 1, 0, now) + [Checks(now)]
    else []
  }

  function Zeros(n: nat): (s: seq<nat>)
    ensures |s| == n && forall i :: 0 <= i < n ==> s[i] == 0
  {
    if n == 0 then [] else Zeros(n - 1) + [0]
  }

  lemma OneCheck(cfg: Settings, w: World, now: int)
    requires cfg.enabled && cfg.maxHour >= 1 && cfg.maxDay >= 1 && w.row == NO_ROW
    ensures Advance(cfg, w, Checks(now)) == w.(underWay := w.underWay + [|w.sends|])
  {
  }

  lemma OneRecord(cfg: Settings, w: World, now: int)
    requires w.underWay != []
    ensures var w' := Advance(cfg, w, Records(0, now));
      |w'.underWay| == |w.underWay| - 1 && w'.sends == w.sends + [Send(now, w.underWay[0])]
  {
  }

  lemma {:induction false} TogetherRun(cfg: Settings, k: nat, n: nat, now: int)
    requires cfg.enabled && cfg.maxHour >= 1 && cfg.maxDay >= 1 && n <= k
    ensures var w := Run(cfg, Together(k, n, now));
      && |w.underWay| == k - n && |w.sends| == n && (forall i :: 0 <= i < n ==> w.sends[i].time == now)
      && (n == 0 ==> w.row == NO_ROW)
    ensures AtMost(cfg, Together(k, n, now), k)
    decreases k, n
  {
    hide Advance, AtMost, Together;
    var events := Together(k, n, now);
    if k == 0 {
      NoneUnderWay(cfg);
      assert events == [];
    } else if n > 0 {
      TogetherRun(cfg, k, n - 1, now);
      TogetherSteps(k, n, now);
      OneRecord(cfg, Run(cfg, Together(k, n - 1, now)), now);
      AtMostMore(cfg, events, k, k);
    } else {
      TogetherRun(cfg, k - 1, 0, now);
      TogetherSteps(k, 0, now);
      OneCheck(cfg, Run(cfg, Together(k - 1, 0, now)), now);
      AtMostMore(cfg, events, k - 1, k);
    }
  }

  lemma TogetherSteps(k: nat, n: nat, now: int)
    requires n <= k && k > 0
    ensures var events := Together(k, n, now);
      && events[..|events| - 1] == (if n > 0 then Together(k, n - 1, now) else Together(k - 1, 0, now))
      && events[|events| - 1] == (if n > 0 then Records(0, now) else Checks(now))
  {
  }

  lemma NoneUnderWay(cfg: Settings)
    ensures AtMost(cfg, [], 0)
  {
  }

  lemma AtMostMore(cfg: Settings, events: seq<Event>, before: nat, k: nat)
    requires events != [] && AtMost(cfg, events[..|events| - 1], before) && before <= k
    requires |Run(cfg, events).underWay| <= k
    ensures AtMost(cfg, events, k)
  {
    hide Run;
    var front := events[..|events| - 1];
    forall n | 0 <= n <= |events| ensures |Run(cfg, events[..n]).underWay| <= k {
      if n < |events| {
        assert front[..n] == events[..n];
      } else {
        assert events[..n] == events;
      }
    }
  }

  /** The bound is sharp: k calls under way can record k sends at one moment, whatever the cooldown, although the check
      and the record of each are transactions. */
  lemma KSendsAtOnce(cfg: Settings, k: nat, now: int)
    requires cfg.enabled && cfg.maxHour >= 1 && cfg.maxDay >= 1
    ensures var events := Together(k, k, now);
      && Chronological(events) && AtMost(cfg, events, k)
      && |Run(cfg, events).sends| == k && forall i :: 0 <= i < k ==> Run(cfg, events).sends[i].time == now
  {
    hide Run, Together;
    TogetherRun(cfg, k, k, now);
  }
}
