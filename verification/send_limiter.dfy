/** The per-account send limiter of `message_safety.go`: check before a send, record after it.  Times are in
    milliseconds. */
module SendLimiter {
  import opened Bytes

  const HOUR := 3_600_000
  const DAY := 24 * HOUR

  datatype Settings = Settings(enabled: bool, interval: nat, maxHour: nat, maxDay: nat)

  /** A counting window: its start, unless none has begun, and the sends recorded in it. */
  datatype Window = Window(start: Option<int>, count: nat)

  /** One row of the state table; a missing row reads as NO_ROW. */
  datatype Row = Row(last: Option<int>, hour: Window, day: Window)

  const NO_ROW: Row := Row(None, Window(None, 0), Window(None, 0))

  datatype Verdict = Allowed | Cooldown(wait: int) | HourlyLimit | DailyLimit

  /** A window that has not begun or has run out is replaced by one that begins now. */
  function Roll(w: Window, length: nat, now: int): Window {
    if w.start.None? || now - w.start.value >= length then Window(Some(now), 0) else w
  }

  function Counted(w: Window, length: nat, now: int): Window {
    var r := Roll(w, length, now);
    r.(count := r.count + 1)
  }

  function Check(cfg: Settings, row: Row, now: int): Verdict {
    if !cfg.enabled then Allowed
    else if row.last.Some? && cfg.interval - (now - row.last.value) > 0
    then Cooldown(cfg.interval - (now - row.last.value))
    else if Roll(row.hour, HOUR, now).count >= cfg.maxHour then HourlyLimit
    else if Roll(row.day, DAY, now).count >= cfg.maxDay then DailyLimit
    else Allowed
  }

  function Record(cfg: Settings, row: Row, now: int): Row {
    if !cfg.enabled then row else Row(Some(now), Counted(row.hour, HOUR, now), Counted(row.day, DAY, now))
  }

  /** The row of one account and the three operations on it. */
  class Limiter {
    const cfg: Settings
    var lastSentAt: Option<int>
    var windowStart: Option<int>
    var windowCount: nat
    var dayStart: Option<int>
    var dayCount: nat

    constructor (cfg: Settings)
      ensures this.cfg == cfg && View() == NO_ROW
    {
      this.cfg := cfg;
      lastSentAt, windowStart, windowCount, dayStart, dayCount := None, None, 0, None, 0;
    }

    ghost function View(): Row
      reads this
    {
      Row(lastSentAt, Window(windowStart, windowCount), Window(dayStart, dayCount))
    }

    method CheckMessageSafety(now: int) returns (verdict: Verdict)
      ensures verdict == Check(cfg, View(), now)
    {
      if !cfg.enabled {
        return Allowed;
      }
      if lastSentAt.Some? {
        var rem := cfg.interval - (now - lastSentAt.value);
        if rem > 0 {
          return Cooldown(rem);
        }
      }
      var hc := if windowStart.None? || now - windowStart.value >= HOUR then 0 else windowCount;
      var dc := if dayStart.None? || now - dayStart.value >= DAY then 0 else dayCount;
      if hc >= cfg.maxHour {
        return HourlyLimit;
      }
      if dc >= cfg.maxDay {
        return DailyLimit;
      }
      return Allowed;
    }

    method RecordMessageSafety(now: int)
      modifies this
      ensures View() == Record(cfg, old(View()), now)
    {
      if !cfg.enabled {
        return;
      }
      if windowStart.None? || now - windowStart.value >= HOUR {
        windowStart, windowCount := Some(now), 0;
      }
      if dayStart.None? || now - dayStart.value >= DAY {
        dayStart, dayCount := Some(now), 0;
      }
      lastSentAt, windowCount, dayCount := Some(now), windowCount + 1, dayCount + 1;
    }

    /** `safeSendMessage` as far as the limiter goes: check, send, and record only after a successful send. */
    method SafeSend(a: Attempt) returns (verdict: Verdict)
      modifies this
      ensures verdict == Check(cfg, old(View()), a.checkAt)
      ensures View() == if verdict.Allowed? && a.sent then Record(cfg, old(View()), a.recordAt) else old(View())
    {
      verdict := CheckMessageSafety(a.checkAt);
      if verdict.Allowed? && a.sent {
        RecordMessageSafety(a.recordAt);
      }
    }
  }

  // ----- Runs -----

  /** One call: when it checks, when it would record, and whether sending and recording succeed. */
  datatype Attempt = Attempt(checkAt: int, recordAt: int, sent: bool)

  /** The row and the times of the recorded sends. */
  datatype Log = Log(row: Row, sends: seq<int>)

  function Play(cfg: Settings, attempts: seq<Attempt>): Log {
    if attempts == [] then Log(NO_ROW, [])
    else
      var log, a := Play(cfg, attempts[..|attempts| - 1]), attempts[|attempts| - 1];
      if Check(cfg, log.row, a.checkAt).Allowed? && a.sent
      then Log(Record(cfg, log.row, a.recordAt), log.sends + [a.recordAt])
      else log
  }

  /** Sends are serialised and the clock does not go back. */
  ghost predicate Chronological(attempts: seq<Attempt>) {
    && (forall i :: 0 <= i < |attempts| ==> attempts[i].checkAt <= attempts[i].recordAt)
    && (forall i, j :: 0 <= i < j < |attempts| ==> attempts[i].recordAt <= attempts[j].checkAt)
  }

  /** The indexes at which windows began: each window has at most max sends, and they begin a window length apart. */
  ghost predicate Windows(sends: seq<int>, starts: seq<nat>, w: Window, length: nat, max: nat) {
    && (sends == [] <==> starts == [])
    && (sends == [] ==> w == Window(None, 0))
    && (sends != [] ==>
      && starts[0] == 0 && starts[|starts| - 1] + w.count == |sends|
      && 1 <= w.count <= max && w.start == Some(sends[starts[|starts| - 1]]))
    && (forall j :: 0 <= j < |starts| ==> starts[j] < |sends|)
    && (forall j :: 0 < j < |starts| ==>
      starts[j - 1] < starts[j] <= starts[j - 1] + max && sends[starts[j]] - sends[starts[j - 1]] >= length)
  }

  /** The end of window j. */
  function EndOf(sends: seq<int>, starts: seq<nat>, j: nat): nat
    requires j < |starts|
  {
    if j + 1 < |starts| then starts[j + 1] else |sends|
  }

  /** Every send lies within a window length of the one that began its window. */
  ghost predicate Inside(sends: seq<int>, starts: seq<nat>, length: nat) {
    forall j, m :: 0 <= j < |starts| && starts[j] <= m < EndOf(sends, starts, j) <= |sends| ==>
      sends[m] - sends[starts[j]] < length
  }

  ghost predicate Ordered(sends: seq<int>) {
    forall i, j :: 0 <= i < j < |sends| ==> sends[i] <= sends[j]
  }

  lemma NextWindow(sends: seq<int>, starts: seq<nat>, w: Window, length: nat, max: nat, checkAt: int, now: int)
    returns (starts': seq<nat>)
    requires Windows(sends, starts, w, length, max) && checkAt <= now && max >= 1
    requires Roll(w, length, checkAt).count < max
    ensures Windows(sends + [now], starts', Counted(w, length, now), length, max)
    ensures starts' == if Roll(w, length, now) == w then starts else starts + [|sends|]
  {
    if Roll(w, length, now) == w {
      starts' := starts;
    } else {
      starts' := starts + [|sends|];
      WindowBegins(sends, starts, w, length, max, now);
    }
  }

  lemma WindowBegins(sends: seq<int>, starts: seq<nat>, w: Window, length: nat, max: nat, now: int)
    requires Windows(sends, starts, w, length, max) && max >= 1 && Roll(w, length, now) != w
    ensures Windows(sends + [now], starts + [|sends|], Counted(w, length, now), length, max)
  {
    var sends', starts' := sends + [now], starts + [|sends|];
    var last := |starts|;
    assert starts'[last] == |sends| && sends'[|sends|] == now;
    forall j | 0 < j < |starts'|
      ensures starts'[j - 1] < starts'[j] <= starts'[j - 1] + max
      ensures sends'[starts'[j]] - sends'[starts'[j - 1]] >= length
    {
      assert starts'[j - 1] == starts[j - 1] && sends'[starts[j - 1]] == sends[starts[j - 1]];
      if j < last {
        assert starts'[j] == starts[j] && sends'[starts[j]] == sends[starts[j]];
      }
    }
  }

  lemma InsideMore(
    sends: seq<int>, starts: seq<nat>, starts': seq<nat>, w: Window, length: nat, max: nat, now: int)
    requires Windows(sends, starts, w, length, max) && Inside(sends, starts, length) && length > 0
    requires starts' == if Roll(w, length, now) == w then starts else starts + [|sends|]
    ensures Inside(sends + [now], starts', length)
  {
    var sends' := sends + [now];
    forall j, m | 0 <= j < |starts'| && starts'[j] <= m < EndOf(sends', starts', j) <= |sends'|
      ensures sends'[m] - sends'[starts'[j]] < length
    {
      if m < |sends| {
        assert j < |starts| && starts'[j] == starts[j];
        assert starts[j] <= m < EndOf(sends, starts, j) <= |sends|;
      }
    }
  }

  ghost predicate SpacedBy(sends: seq<int>, interval: int) {
    forall i :: 0 < i < |sends| ==> sends[i] - sends[i - 1] >= interval
  }

  ghost predicate LastIs(last: Option<int>, sends: seq<int>) {
    if sends == [] then last.None? else last == Some(sends[|sends| - 1])
  }

  /** What every run keeps: both windows of the row count the sends since they began, sends are in order and keep the
      cooldown, and the row knows the last one. */
  ghost predicate Kept(cfg: Settings, log: Log, hours: seq<nat>, days: seq<nat>) {
    && Windows(log.sends, hours, log.row.hour, HOUR, cfg.maxHour) && Inside(log.sends, hours, HOUR)
    && Windows(log.sends, days, log.row.day, DAY, cfg.maxDay) && Inside(log.sends, days, DAY)
    && Ordered(log.sends) && SpacedBy(log.sends, cfg.interval) && LastIs(log.row.last, log.sends)
  }

  lemma SendMore(cfg: Settings, log: Log, now: int)
    requires Ordered(log.sends) && SpacedBy(log.sends, cfg.interval) && LastIs(log.row.last, log.sends)
    requires log.row.last.Some? ==> now - log.row.last.value >= cfg.interval
    ensures Ordered(log.sends + [now]) && SpacedBy(log.sends + [now], cfg.interval)
    ensures LastIs(Some(now), log.sends + [now])
  {
    assert log.sends != [] ==> log.sends[|log.sends| - 1] <= now;
  }

  lemma {:induction false} PlayKeeps(cfg: Settings, attempts: seq<Attempt>) returns (hours: seq<nat>, days: seq<nat>)
    requires cfg.enabled && cfg.maxHour >= 1 && cfg.maxDay >= 1 && Chronological(attempts)
    ensures Kept(cfg, Play(cfg, attempts), hours, days)
  {
    hide Windows, Inside, Counted, Roll, Ordered, SpacedBy, LastIs;
    if attempts == [] {
      hours, days := [], [];
      NothingSent(cfg);
    } else {
      var front, a := attempts[..|attempts| - 1], attempts[|attempts| - 1];
      hours, days := PlayKeeps(cfg, front);
      var log := Play(cfg, front);
      var hours0, days0 := hours, days;
      if Check(cfg, log.row, a.checkAt).Allowed? && a.sent {
        hours := NextWindow(log.sends, hours, log.row.hour, HOUR, cfg.maxHour, a.checkAt, a.recordAt);
        days := NextWindow(log.sends, days, log.row.day, DAY, cfg.maxDay, a.checkAt, a.recordAt);
        InsideMore(log.sends, hours0, hours, log.row.hour, HOUR, cfg.maxHour, a.recordAt);
        InsideMore(log.sends, days0, days, log.row.day, DAY, cfg.maxDay, a.recordAt);
        SendMore(cfg, log, a.recordAt);
      }
    }
  }

  lemma NothingSent(cfg: Settings)
    ensures Kept(cfg, Log(NO_ROW, []), [], [])
  {
  }

  /** The first window that begins after send i. */
  lemma {:induction false} StartAfter(
    sends: seq<int>, starts: seq<nat>, w: Window, length: nat, max: nat, i: nat, n: nat)
    returns (q: nat)
    requires Windows(sends, starts, w, length, max) && n <= |starts| && i < |sends|
    requires n > 0 && starts[n - 1] > i
    ensures 0 < q < n && starts[q - 1] <= i < starts[q]
  {
    if starts[n - 2] > i {
      q := StartAfter(sends, starts, w, length, max, i, n - 1);
    } else {
      q := n - 1;
    }
  }

  /** Any 2 * max consecutive sends take at least the window length. */
  lemma Spaced(sends: seq<int>, starts: seq<nat>, w: Window, length: nat, max: nat, i: nat)
    requires Windows(sends, starts, w, length, max) && Ordered(sends) && max >= 1 && i + 2 * max - 1 < |sends|
    ensures sends[i + 2 * max - 1] - sends[i] >= length
  {
    var n := |starts|;
    assert starts[n - 1] + w.count == |sends|;
    var q := StartAfter(sends, starts, w, length, max, i, n);
    if starts[q - 1] == i {
      assert sends[starts[q]] - sends[i] >= length;
    } else {
      assert starts[q] <= i + max - 1;
      assert q + 1 < n;
      assert sends[starts[q + 1]] - sends[starts[q]] >= length;
    }
  }

  /** How many of the first n sends lie in [from, to). */
  function CountIn(sends: seq<int>, n: nat, from: int, to: int): nat
    requires n <= |sends|
  {
    if n == 0 then 0 else CountIn(sends, n - 1, from, to) + if from <= sends[n - 1] < to then 1 else 0
  }

  lemma {:induction false} CountSpaced(sends: seq<int>, n: nat, from: int, to: int, k: nat) returns (first: nat)
    requires n <= |sends| && Ordered(sends)
    requires forall i :: 0 <= i && i + k < |sends| ==> sends[i + k] - sends[i] >= to - from
    ensures first <= n && (forall i :: 0 <= i < first ==> sends[i] < from) && (first < n ==> sends[first] >= from)
    ensures CountIn(sends, n, from, to) <= if n - first <= k then n - first else k
  {
    if n == 0 {
      first := 0;
    } else {
      first := CountSpaced(sends, n - 1, from, to, k);
      if first == n - 1 && sends[n - 1] < from {
        first := n;
      } else if n - first > k {
        assert sends[first] >= from;
        assert sends[first + k] - sends[first] >= to - from;
        assert sends[n - 1] >= to;
      }
    }
  }

  /** In every run, recorded sends keep the cooldown, and every half-open hour or day, wherever it begins, contains
      fewer than twice the hourly or daily limit of them. */
  lemma SlidingBounds(cfg: Settings, attempts: seq<Attempt>, from: int)
    requires cfg.enabled && cfg.maxHour >= 1 && cfg.maxDay >= 1 && Chronological(attempts)
    ensures var sends := Play(cfg, attempts).sends;
      && SpacedBy(sends, cfg.interval)
      && CountIn(sends, |sends|, from, from + HOUR) < 2 * cfg.maxHour
      && CountIn(sends, |sends|, from, from + DAY) < 2 * cfg.maxDay
  {
    hide Windows, Inside, Play, Ordered, SpacedBy, LastIs, CountIn;
    var hours, days := PlayKeeps(cfg, attempts);
    var log := Play(cfg, attempts);
    SlidingBound(log.sends, hours, log.row.hour, HOUR, cfg.maxHour, from);
    SlidingBound(log.sends, days, log.row.day, DAY, cfg.maxDay, from);
  }

  lemma SlidingBound(sends: seq<int>, starts: seq<nat>, w: Window, length: nat, max: nat, from: int)
    requires Windows(sends, starts, w, length, max) && Ordered(sends) && max >= 1
    ensures CountIn(sends, |sends|, from, from + length) < 2 * max
  {
    hide Windows, Ordered, CountIn;
    forall i | 0 <= i && i + (2 * max - 1) < |sends|
      ensures sends[i + (2 * max - 1)] - sends[i] >= length
    {
      Spaced(sends, starts, w, length, max, i);
    }
    var first := CountSpaced(sends, |sends|, from, from + length, 2 * max - 1);
  }

  /** The window began with a send, and its count is the number of sends from that one on. */
  ghost predicate CountsSince(w: Window, sends: seq<int>) {
    && w.count <= |sends|
    && (sends != [] ==> w.count >= 1 && w.start == Some(sends[|sends| - w.count]))
  }

  /** Inside one window the limit itself holds: it counts exactly the sends since it began, at most the limit. */
  lemma WindowCountsExactly(cfg: Settings, attempts: seq<Attempt>)
    requires cfg.enabled && cfg.maxHour >= 1 && cfg.maxDay >= 1 && Chronological(attempts)
    ensures var log := Play(cfg, attempts);
      && CountsSince(log.row.hour, log.sends) && log.row.hour.count <= cfg.maxHour
      && CountsSince(log.row.day, log.sends) && log.row.day.count <= cfg.maxDay
  {
    hide Inside, Play, Ordered, SpacedBy, LastIs;
    var hours, days := PlayKeeps(cfg, attempts);
  }

  // ----- Every verdict -----

  /** The sends that a window still counts. */
  function Running(w: Window, length: nat, now: int): nat {
    if w.start.None? || now - w.start.value >= length then 0 else w.count
  }

  /** A send is refused for the rest of the cooldown, then for the hour's limit, then for the day's, and allowed
      otherwise; with the limiter off everything is allowed.  Hours and days have 3,600,000 and 86,400,000
      milliseconds. */
  lemma EveryVerdict(cfg: Settings, row: Row, now: int)
    ensures var v := Check(cfg, row, now);
      var left := if row.last.None? then 0 else cfg.interval - (now - row.last.value);
      if !cfg.enabled then v == Allowed
      else if left > 0 then v == Cooldown(left)
      else if Running(row.hour, 3_600_000, now) >= cfg.maxHour then v == HourlyLimit
      else if Running(row.day, 86_400_000, now) >= cfg.maxDay then v == DailyLimit
      else v == Allowed
  {
  }

  /** Recording a send sets the last time and counts it in both windows, in new ones that begin now where the old ones
      have run out; with the limiter off nothing is recorded. */
  lemma EveryRecord(cfg: Settings, row: Row, now: int)
    ensures var r := Record(cfg, row, now);
      if !cfg.enabled then r == row
      else
        && r.last == Some(now)
        && r.hour.count == Running(row.hour, 3_600_000, now) + 1 && r.day.count == Running(row.day, 86_400_000, now) + 1
        && r.hour.start == (if row.hour.start.Some? && now - row.hour.start.value < 3_600_000 then row.hour.start
                            else Some(now))
        && r.day.start == (if row.day.start.Some? && now - row.day.start.value < 86_400_000 then row.day.start
                           else Some(now))
  {
  }

  /** With the limiter off every send goes through and no row is written. */
  lemma {:induction false} OffMeansUnlimited(cfg: Settings, attempts: seq<Attempt>)
    requires !cfg.enabled
    ensures var log := Play(cfg, attempts);
      log.row == NO_ROW && |log.sends| == |set i | 0 <= i < |attempts| && attempts[i].sent|
  {
    if attempts != [] {
      var n := |attempts| - 1;
      OffMeansUnlimited(cfg, attempts[..n]);
      var before := set i | 0 <= i < n && attempts[..n][i].sent;
      var after := set i | 0 <= i < |attempts| && attempts[i].sent;
      assert after == before + if attempts[n].sent then {n} else {};
    }
  }
}
