/** When the hourly and the daily limit really are limits per hour and per day: exact conditions on the settings. */
module SendLimiterExact {
  import opened Bytes
  import opened SendLimiter

  /** In every run, every half-open interval of this length holds at most max sends. */
  ghost predicate Bounds(cfg: Settings, length: nat, max: nat) {
    forall attempts, from :: Chronological(attempts) ==> SendsWithin(cfg, attempts, from, length) <= max
  }

  /** How many sends a run records in a half-open interval. */
  function SendsWithin(cfg: Settings, attempts: seq<Attempt>, from: int, length: nat): nat {
    var sends := Play(cfg, attempts).sends; CountIn(sends, |sends|, from, from + length)
  }

  /** The hourly limit holds per hour: it is one, or the cooldown alone enforces it, or the daily limit is so small that
      two days' sends cannot fill an hour together with the sends that began its windows. */
  predicate HourlyHolds(cfg: Settings) {
    cfg.maxHour == 1 || cfg.maxHour * cfg.interval >= HOUR || 2 * cfg.maxDay <= cfg.maxHour + 2
  }

  /** The daily limit holds per day: it is one, or it exceeds what the cooldown and the hourly windows let through in a
      day anyway. */
  predicate DailyHolds(cfg: Settings) {
    || cfg.maxDay == 1
    || (if cfg.maxHour * cfg.interval >= HOUR then cfg.maxDay * cfg.interval >= DAY
        else cfg.maxDay >= 25 * cfg.maxHour - 1 || (cfg.maxDay - 23 * cfg.maxHour) * cfg.interval >= HOUR)
  }

  // ----- Arithmetic -----

  lemma Grows(a: int, b: int, c: int)
    requires a <= b && c >= 0
    ensures a * c <= b * c
  {
  }

  lemma OneMoreOf(n: int, c: int)
    ensures (n + 1) * c == n * c + c
  {
  }

  // ----- The conditions suffice -----

  /** The window that holds send i. */
  lemma {:induction false} WindowOf(
    sends: seq<int>, starts: seq<nat>, w: Window, length: nat, max: nat, i: nat, n: nat)
    returns (q: nat)
    requires Windows(sends, starts, w, length, max) && Inside(sends, starts, length) && i < |sends|
    requires 0 < n <= |starts| && (n < |starts| ==> i < starts[n])
    ensures q < n && starts[q] <= i < EndOf(sends, starts, q) <= starts[q] + max
    ensures sends[i] - sends[starts[q]] < length
  {
    if starts[n - 1] <= i {
      q := n - 1;
      assert starts[q] <= i < EndOf(sends, starts, q) <= |sends|;
    } else {
      q := WindowOf(sends, starts, w, length, max, i, n - 1);
    }
  }

  /** n windows further on: at least n lengths later and at most n * max sends further. */
  lemma {:induction false} WindowsApart(
    sends: seq<int>, starts: seq<nat>, w: Window, length: nat, max: nat, u: nat, n: nat)
    requires Windows(sends, starts, w, length, max) && u + n < |starts|
    ensures sends[starts[u + n]] - sends[starts[u]] >= n * length
    ensures starts[u] + n <= starts[u + n] <= starts[u] + n * max && starts[u + n] < |sends|
  {
    if n > 0 {
      WindowsApart(sends, starts, w, length, max, u, n - 1);
      OneMoreOf(n - 1, length);
      OneMoreOf(n - 1, max);
    }
  }

  lemma {:induction false} CooldownsApart(sends: seq<int>, interval: nat, i: nat, n: nat)
    requires SpacedBy(sends, interval) && i + n < |sends|
    ensures sends[i + n] - sends[i] >= n * interval
  {
    if n > 0 {
      CooldownsApart(sends, interval, i, n - 1);
      OneMoreOf(n - 1, interval);
    }
  }

  lemma AnyWindow(sends: seq<int>, starts: seq<nat>, w: Window, length: nat, max: nat)
    requires Windows(sends, starts, w, length, max) && sends != []
    ensures starts != []
  {
  }

  /** With a limit of one, sends are a window apart. */
  lemma SingleSends(sends: seq<int>, starts: seq<nat>, w: Window, length: nat, i: nat)
    requires Windows(sends, starts, w, length, 1) && Inside(sends, starts, length) && i + 1 < |sends|
    ensures sends[i + 1] - sends[i] >= length
  {
    hide Windows, Inside;
    AnyWindow(sends, starts, w, length, 1);
    var q := WindowOf(sends, starts, w, length, 1, i, |starts|);
    WindowsApart(sends, starts, w, length, 1, q, 1);
  }

  /** The days' share of the hourly bound: max + 1 sends in an hour need max + 3 sends in two days. */
  lemma TwoDaysFull(cfg: Settings, log: Log, hours: seq<nat>, days: seq<nat>, i: nat)
    requires cfg.maxHour >= 1 && Kept(cfg, log, hours, days) && i + cfg.maxHour < |log.sends|
    requires log.sends[i + cfg.maxHour] - log.sends[i] < HOUR
    ensures 2 * cfg.maxDay >= cfg.maxHour + 3
  {
    hide Windows, Inside, SpacedBy, LastIs;
    var sends, l := log.sends, i + cfg.maxHour;
    AnyWindow(sends, hours, log.row.hour, HOUR, cfg.maxHour);
    AnyWindow(sends, days, log.row.day, DAY, cfg.maxDay);
    var q := WindowOf(sends, hours, log.row.hour, HOUR, cfg.maxHour, i, |hours|);
    assert hours[q] + cfg.maxHour <= l;
    assert q + 1 < |hours| && hours[q + 1] <= l;
    WindowsApart(sends, hours, log.row.hour, HOUR, cfg.maxHour, q, 1);
    var a := hours[q];
    assert sends[hours[q + 1]] <= sends[l];
    assert a < i;
    var p := WindowOf(sends, days, log.row.day, DAY, cfg.maxDay, a, |days|);
    if EndOf(sends, days, p) <= l {
      WindowsApart(sends, days, log.row.day, DAY, cfg.maxDay, p, 1);
      assert sends[days[p + 1]] <= sends[l];
      assert days[p] < a;
      var z := WindowOf(sends, days, log.row.day, DAY, cfg.maxDay, l, |days|);
      if z > p + 1 {
        WindowsApart(sends, days, log.row.day, DAY, cfg.maxDay, p + 1, z - p - 1);
        Grows(1, z - p - 1, DAY);
        assert false;
      }
      StartsGrow(sends, days, log.row.day, DAY, cfg.maxDay, z, p + 1);
    }
  }

  lemma {:induction false} StartsGrow(
    sends: seq<int>, starts: seq<nat>, w: Window, length: nat, max: nat, a: nat, b: nat)
    requires Windows(sends, starts, w, length, max) && a <= b < |starts|
    ensures starts[a] <= starts[b]
  {
    if a < b {
      StartsGrow(sends, starts, w, length, max, a, b - 1);
    }
  }

  /** The hours' share of the daily bound: n + 1 sends in a day that respect the hourly windows. */
  lemma DayOfHours(cfg: Settings, log: Log, hours: seq<nat>, days: seq<nat>, i: nat, n: nat)
    requires cfg.maxHour >= 1 && Kept(cfg, log, hours, days) && i + n < |log.sends|
    requires log.sends[i + n] - log.sends[i] < DAY && cfg.maxHour * cfg.interval < HOUR
    ensures n <= 25 * cfg.maxHour - 2 && (n - 23 * cfg.maxHour) * cfg.interval < HOUR
  {
    hide Windows, Inside, SpacedBy, LastIs;
    AnyWindow(log.sends, hours, log.row.hour, HOUR, cfg.maxHour);
    var sends, l, m, c := log.sends, i + n, cfg.maxHour, cfg.interval;
    var q := WindowOf(sends, hours, log.row.hour, HOUR, m, i, |hours|);
    var z := WindowOf(sends, hours, log.row.hour, HOUR, m, l, |hours|);
    var u := if hours[q] == i then q else q + 1;
    if z < u {
      StartsGrow(sends, hours, log.row.hour, HOUR, m, z, q);
      assert z <= q;
      if z < q {
        StartsGrow(sends, hours, log.row.hour, HOUR, m, z + 1, q);
        assert false;
      }
      assert n <= m - 1;
      Few(n - 23 * m, m, c);
    } else {
      WindowsApart(sends, hours, log.row.hour, HOUR, m, u, z - u);
      var r, j := hours[u] - i, l - hours[z];
      assert r <= m - 1 && j <= m - 1;
      CooldownsApart(sends, c, i, r);
      CooldownsApart(sends, c, hours[z], j);
      assert sends[l] - sends[i] >= r * c + (z - u) * HOUR + j * c;
      Grows(0, r, c);
      Grows(0, j, c);
      assert z - u <= 23;
      Grows(z - u, 23, m);
      if z - u == 23 {
        assert r * c + j * c == (r + j) * c;
        Grows(n - 23 * m, r + j, c);
      } else {
        Grows(z - u, 22, m);
        Few(n - 23 * m, m, c);
      }
    }
  }

  lemma Few(n: int, m: nat, c: nat)
    requires n <= m && m * c < HOUR
    ensures n * c < HOUR
  {
    Grows(n, m, c);
  }

  lemma HourlySuffices(cfg: Settings, attempts: seq<Attempt>, from: int)
    requires cfg.enabled && cfg.maxHour >= 1 && cfg.maxDay >= 1 && HourlyHolds(cfg) && Chronological(attempts)
    ensures var sends := Play(cfg, attempts).sends; CountIn(sends, |sends|, from, from + HOUR) <= cfg.maxHour
  {
    hide Windows, Inside, Play, SpacedBy, LastIs, CountIn;
    var hours, days := PlayKeeps(cfg, attempts);
    var log := Play(cfg, attempts);
    var sends := log.sends;
    forall i | 0 <= i && i + cfg.maxHour < |sends|
      ensures sends[i + cfg.maxHour] - sends[i] >= HOUR
    {
      if cfg.maxHour == 1 {
        SingleSends(sends, hours, log.row.hour, HOUR, i);
      } else if cfg.maxHour * cfg.interval >= HOUR {
        CooldownsApart(sends, cfg.interval, i, cfg.maxHour);
      } else if sends[i + cfg.maxHour] - sends[i] < HOUR {
        TwoDaysFull(cfg, log, hours, days, i);
      }
    }
    var first := CountSpaced(sends, |sends|, from, from + HOUR, cfg.maxHour);
  }

  lemma DailySuffices(cfg: Settings, attempts: seq<Attempt>, from: int)
    requires cfg.enabled && cfg.maxHour >= 1 && cfg.maxDay >= 1 && DailyHolds(cfg) && Chronological(attempts)
    ensures var sends := Play(cfg, attempts).sends; CountIn(sends, |sends|, from, from + DAY) <= cfg.maxDay
  {
    hide Windows, Inside, Play, SpacedBy, LastIs, CountIn;
    var hours, days := PlayKeeps(cfg, attempts);
    var log := Play(cfg, attempts);
    var sends := log.sends;
    forall i | 0 <= i && i + cfg.maxDay < |sends|
      ensures sends[i + cfg.maxDay] - sends[i] >= DAY
    {
      if cfg.maxDay == 1 {
        SingleSends(sends, days, log.row.day, DAY, i);
      } else if cfg.maxHour * cfg.interval >= HOUR {
        CooldownsApart(sends, cfg.interval, i, cfg.maxDay);
      } else if sends[i + cfg.maxDay] - sends[i] < DAY {
        DayOfHours(cfg, log, hours, days, i, cfg.maxDay);
      }
    }
    var first := CountSpaced(sends, |sends|, from, from + DAY, cfg.maxDay);
  }

  // ----- The conditions are needed: runs that break the bound -----

  /** Attempts that succeed at once. */
  function At(times: seq<int>): seq<Attempt> {
    seq(|times|, i requires 0 <= i < |times| => Attempt(times[i], times[i], true))
  }

  /** All these sends are allowed, and leave this row. */
  ghost predicate Reaches(cfg: Settings, times: seq<int>, row: Row) {
    Ordered(times) && Play(cfg, At(times)) == Log(row, times)
  }

  lemma ReachesNothing(cfg: Settings)
    ensures Reaches(cfg, [], NO_ROW)
  {
  }

  lemma OneMoreSend(cfg: Settings, times: seq<int>, row: Row, t: int)
    requires Reaches(cfg, times, row) && Check(cfg, row, t).Allowed?
    requires times != [] ==> times[|times| - 1] <= t
    ensures Reaches(cfg, times + [t], Record(cfg, row, t))
  {
    hide Check, Record;
    var all := At(times + [t]);
    assert all[..|all| - 1] == At(times);
    assert all[|all| - 1] == Attempt(t, t, true);
  }

  lemma {:induction false} CountSuffix(sends: seq<int>, n: nat, first: nat, to: int)
    requires first <= n <= |sends| && Ordered(sends) && first < |sends|
    requires n > first ==> sends[n - 1] < to
    ensures CountIn(sends, n, sends[first], to) >= n - first
  {
    if n > first {
      CountSuffix(sends, n - 1, first, to);
    }
  }

  /** A run that ends with more than max sends in less than the length breaks the bound. */
  lemma Breaks(cfg: Settings, times: seq<int>, row: Row, first: nat, length: nat, max: nat)
    requires Reaches(cfg, times, row) && first + max < |times|
    requires times[|times| - 1] - times[first] < length
    ensures !Bounds(cfg, length, max)
  {
    hide Play, CountIn;
    CountSuffix(times, |times|, first, times[first] + length);
    assert Chronological(At(times)) by { AtIsChronological(times); }
    assert SendsWithin(cfg, At(times), times[first], length) > max;
  }

  lemma AtIsChronological(times: seq<int>)
    requires Ordered(times)
    ensures Chronological(At(times))
  {
  }

  /** How long before or after the moment at which both windows roll over the n-th neighbour comes: spaced by the
      cooldown, but never at the same time. */
  function Gap(n: nat, c: nat): (g: nat)
    ensures n > 0 ==> g > 0
  {
    if n == 0 then 0 else if n * c < 1 then 1 else n * c
  }

  lemma GapStep(n: nat, c: nat)
    ensures Gap(n, c) + c <= Gap(n + 1, c) || (n > 0 && c == 0 && Gap(n + 1, c) == Gap(n, c))
    ensures Gap(n, c) <= Gap(n + 1, c)
  {
    OneMoreOf(n, c);
    Grows(0, n, c);
  }

  lemma GapBelow(n: nat, m: nat, c: nat)
    requires n < m && m * c < HOUR
    ensures Gap(n, c) + c <= HOUR && Gap(n, c) < HOUR && Gap(n, c) <= n * c + 1
  {
    OneMoreOf(n, c);
    Grows(n + 1, m, c);
    Grows(0, n, c);
  }

  /** The opening send of a day, an hour before its end one more, and then k sends that end just before the day does and
      n - k from that moment on. */
  function Burst(c: nat, k: nat, n: nat): (times: seq<int>)
    ensures |times| == n + 2
  {
    if n == 0 then [0, DAY - HOUR] else Burst(c, k, n - 1) + [BurstTime(c, k, n - 1)]
  }

  function BurstTime(c: nat, k: nat, j: nat): int {
    if j < k then DAY - Gap(k - j, c) else DAY + (j - k) * c
  }

  function BurstRow(c: nat, k: nat, n: nat): Row {
    Row(Some(if n == 0 then DAY - HOUR else BurstTime(c, k, n - 1)),
        if n <= k then Window(Some(DAY - HOUR), 1 + n) else Window(Some(DAY), n - k),
        if n <= k then Window(Some(0), 2 + n) else Window(Some(DAY), n - k))
  }

  lemma BurstStarts(cfg: Settings, k: nat)
    requires cfg.enabled && cfg.maxHour >= 2 && cfg.maxDay >= 2 && cfg.maxHour * cfg.interval < HOUR
    ensures Reaches(cfg, Burst(cfg.interval, k, 0), BurstRow(cfg.interval, k, 0))
  {
    ReachesNothing(cfg);
    Grows(2, cfg.maxHour, cfg.interval);
    OneMoreSend(cfg, [], NO_ROW, 0);
    var row := Record(cfg, NO_ROW, 0);
    assert row == Row(Some(0), Window(Some(0), 1), Window(Some(0), 1));
    OneMoreSend(cfg, [0], row, DAY - HOUR);
    assert [] + [0] == [0] && [0] + [DAY - HOUR] == [0, DAY - HOUR];
  }

  /** The next send of the burst comes after the cooldown. */
  lemma BurstSpaced(cfg: Settings, k: nat, n: nat)
    requires cfg.maxHour * cfg.interval < HOUR && k < cfg.maxHour
    ensures var c := cfg.interval;
      BurstTime(c, k, n) - BurstRow(c, k, n).last.value >= c && (n < k ==> DAY - HOUR <= BurstTime(c, k, n) < DAY)
  {
    var c := cfg.interval;
    if n < k {
      GapStep(k - n, c);
      GapBelow(k - n, cfg.maxHour, c);
    } else if n == k {
      GapStep(0, c);
    } else {
      OneMoreOf(n - 1 - k, c);
    }
  }

  lemma {:induction false} BurstReaches(cfg: Settings, k: nat, n: nat)
    requires cfg.enabled && cfg.maxHour * cfg.interval < HOUR && 1 <= k < cfg.maxHour && k + 2 <= cfg.maxDay
    requires n > k ==> n <= cfg.maxHour + 1 && n - k <= cfg.maxDay
    ensures Reaches(cfg, Burst(cfg.interval, k, n), BurstRow(cfg.interval, k, n))
  {
    var c := cfg.interval;
    if n == 0 {
      BurstStarts(cfg, k);
    } else {
      BurstReaches(cfg, k, n - 1);
      BurstSpaced(cfg, k, n - 1);
      BurstAllowed(cfg, k, n - 1);
      BurstLast(c, k, n - 1);
      OneMoreSend(cfg, Burst(c, k, n - 1), BurstRow(c, k, n - 1), BurstTime(c, k, n - 1));
    }
  }

  lemma BurstLast(c: nat, k: nat, n: nat)
    ensures Some(Burst(c, k, n)[n + 1]) == BurstRow(c, k, n).last
  {
  }

  lemma BurstAllowed(cfg: Settings, k: nat, n: nat)
    requires cfg.enabled && cfg.maxHour * cfg.interval < HOUR && 1 <= k < cfg.maxHour && k + 2 <= cfg.maxDay
    requires n >= k ==> n <= cfg.maxHour && n + 1 - k <= cfg.maxDay
    ensures var c := cfg.interval;
      && Check(cfg, BurstRow(c, k, n), BurstTime(c, k, n)).Allowed?
      && Record(cfg, BurstRow(c, k, n), BurstTime(c, k, n)) == BurstRow(c, k, n + 1)
  {
    var c := cfg.interval;
    BurstSpaced(cfg, k, n);
    if n > k {
      Grows(n - k, cfg.maxHour, c);
      Grows(0, n - k, c);
    }
  }

  /** max + 1 sends in less than an hour. */
  lemma HourlyNeeded(cfg: Settings)
    requires cfg.enabled && cfg.maxHour >= 1 && cfg.maxDay >= 1 && !HourlyHolds(cfg)
    ensures !Bounds(cfg, HOUR, cfg.maxHour)
  {
    hide Bounds, Reaches, BurstRow;
    var m, c := cfg.maxHour, cfg.interval;
    var k := if m + 1 - cfg.maxDay > 1 then m + 1 - cfg.maxDay else 1;
    BurstReaches(cfg, k, m + 1);
    var times := Burst(c, k, m + 1);
    BurstAt(c, k, m + 1, 0);
    BurstAt(c, k, m + 1, m);
    BurstSpan(c, k, m);
    Breaks(cfg, times, BurstRow(c, k, m + 1), 2, HOUR, m);
  }

  lemma BurstSpan(c: nat, k: nat, m: nat)
    requires 1 <= k < m && m * c < HOUR
    ensures BurstTime(c, k, m) - BurstTime(c, k, 0) < HOUR
  {
    assert (m - k) * c + k * c == m * c;
    Grows(0, m - k, c);
    Grows(0, k, c);
    Grows(1, m - k, c);
  }

  lemma {:induction false} BurstAt(c: nat, k: nat, n: nat, j: nat)
    requires j < n
    ensures Burst(c, k, n)[j + 2] == BurstTime(c, k, j)
  {
    if j < n - 1 {
      BurstAt(c, k, n - 1, j);
    }
  }

  // ----- A day filled by the cooldown alone -----

  /** The opening send of a day, and then n sends spaced by the cooldown of which the second begins the next day. */
  function Steady(c: nat, n: nat): (times: seq<int>)
    ensures |times| == n + 1
  {
    if n == 0 then [0] else Steady(c, n - 1) + [SteadyTime(c, n - 1)]
  }

  function SteadyTime(c: nat, j: nat): int { DAY + (j - 1) * c }

  /** The hourly window never fills, because its sends are spaced by the cooldown. */
  ghost predicate SteadyRow(c: nat, n: nat, row: Row) {
    && row.last == Some(if n == 0 then 0 else SteadyTime(c, n - 1))
    && row.hour.start.Some? && row.hour.count >= 1
    && row.last.value - row.hour.start.value == (row.hour.count - 1) * c
    && (n == 0 ==> row.hour.start == Some(0))
    && row.day == if n == 0 then Window(Some(0), 1) else if n == 1 then Window(Some(0), 2) else Window(Some(DAY), n - 1)
  }

  lemma {:induction false} SteadyReaches(cfg: Settings, n: nat) returns (row: Row)
    requires cfg.enabled && cfg.maxHour >= 1 && cfg.maxHour * cfg.interval >= HOUR
    requires cfg.maxDay >= 2 && cfg.maxDay * cfg.interval < DAY && n <= cfg.maxDay + 1
    ensures Reaches(cfg, Steady(cfg.interval, n), row) && SteadyRow(cfg.interval, n, row)
  {
    hide Reaches, Check, Record, SteadyRow;
    var c := cfg.interval;
    if n == 0 {
      ReachesNothing(cfg);
      row := SteadyFirst(cfg);
      assert [] + [0] == [0];
    } else {
      var before := SteadyReaches(cfg, n - 1);
      SteadyAllowed(cfg, n - 1, before);
      SteadyLast(c, n - 1, before);
      OneMoreSend(cfg, Steady(c, n - 1), before, SteadyTime(c, n - 1));
      row := Record(cfg, before, SteadyTime(c, n - 1));
    }
  }

  lemma SteadyFirst(cfg: Settings) returns (row: Row)
    requires cfg.enabled && cfg.maxHour >= 1 && cfg.maxDay >= 1
    ensures Reaches(cfg, [0], row) && SteadyRow(cfg.interval, 0, row)
  {
    ReachesNothing(cfg);
    OneMoreSend(cfg, [], NO_ROW, 0);
    row := Record(cfg, NO_ROW, 0);
    assert [] + [0] == [0];
  }

  lemma SteadyLast(c: nat, n: nat, row: Row)
    requires SteadyRow(c, n, row)
    ensures row.last == Some(Steady(c, n)[n])
  {
  }

  lemma SteadyAllowed(cfg: Settings, n: nat, row: Row)
    requires cfg.enabled && cfg.maxHour >= 1 && cfg.maxHour * cfg.interval >= HOUR
    requires cfg.maxDay >= 2 && cfg.maxDay * cfg.interval < DAY && n <= cfg.maxDay
    requires SteadyRow(cfg.interval, n, row)
    ensures var c := cfg.interval; var t := SteadyTime(c, n);
      Check(cfg, row, t).Allowed? && SteadyRow(c, n + 1, Record(cfg, row, t)) && t >= row.last.value
  {
    var c := cfg.interval;
    var t := SteadyTime(c, n);
    Grows(2, cfg.maxDay, c);
    OneMoreOf(row.hour.count - 1, c);
    if n > 0 {
      OneMoreOf(n - 2, c);
      Grows(n - 1, cfg.maxDay, c);
      assert t - row.last.value == c;
      if t - row.hour.start.value < HOUR && row.hour.count >= cfg.maxHour {
        Grows(cfg.maxHour, row.hour.count, c);
        assert false;
      }
    }
    if n > 1 {
      Grows(0, n - 1, c);
    }
  }

  lemma {:induction false} SteadyAt(c: nat, n: nat, j: nat)
    requires j < n
    ensures Steady(c, n)[j + 1] == SteadyTime(c, j)
  {
    if j < n - 1 {
      SteadyAt(c, n - 1, j);
    }
  }

  lemma DailyNeededSteady(cfg: Settings)
    requires cfg.enabled && cfg.maxHour >= 1 && cfg.maxHour * cfg.interval >= HOUR
    requires cfg.maxDay >= 2 && cfg.maxDay * cfg.interval < DAY
    ensures !Bounds(cfg, DAY, cfg.maxDay)
  {
    hide Bounds, Reaches, SteadyRow;
    var d, c := cfg.maxDay, cfg.interval;
    var row := SteadyReaches(cfg, d + 1);
    SteadyAt(c, d + 1, 0);
    SteadyAt(c, d + 1, d);
    OneMoreOf(d - 1, c);
    Breaks(cfg, Steady(c, d + 1), row, 1, DAY, d);
  }

  // ----- A day filled by full hourly windows -----

  /** Windows of m sends each, an hour apart, that begin at o: the first v of them and y sends of the next, after a base
      that already holds the first `skip` sends of the first window. */
  function Fill(base: seq<int>, c: nat, m: nat, o: int, skip: nat, v: nat, y: nat): seq<int>
    decreases v, y
  {
    if y > 0 && (v > 0 || y > skip) then Fill(base, c, m, o, skip, v, y - 1) + [FillTime(c, o, v, y - 1)]
    else if v > 0 then Fill(base, c, m, o, skip, v - 1, m)
    else base
  }

  function FillTime(c: nat, o: int, v: nat, y: nat): int { o + v * HOUR + Gap(y, c) }

  /** Where the hourly window stands after v full windows and y sends more. */
  ghost predicate FillHour(c: nat, m: nat, o: int, v: nat, y: nat, row: Row)
    decreases v
  {
    && row.last.Some? && row.hour.start.Some?
    && if y > 0 then row.last.value == FillTime(c, o, v, y - 1) && row.hour == Window(Some(o + v * HOUR), y)
       else if v > 0 then FillHour(c, m, o, v - 1, m, row)
       else row.last.value <= o - c && row.hour.start.value <= o - HOUR
  }

  /** The day rolls over with the first send of the pattern. */
  ghost predicate FillDay(sent: int, row: Row) {
    if sent == 0 then row.day.start == Some(0) else row.day.start == Some(DAY) && row.day.count == sent
  }

  /** The pattern's settings: hours can be filled, and the first send of the pattern falls on the day's end. */
  ghost predicate FillStarts(cfg: Settings, o: int, skip: nat) {
    && cfg.enabled && cfg.maxHour >= 1 && cfg.maxHour * cfg.interval < HOUR && skip <= 1
    && DAY == if skip < cfg.maxHour then FillTime(cfg.interval, o, 0, skip) else FillTime(cfg.interval, o, 1, 0)
  }

  lemma {:induction false} FillReaches(
    cfg: Settings, base: seq<int>, row0: Row, o: int, skip: nat, v: nat, y: nat) returns (row: Row)
    requires FillStarts(cfg, o, skip) && Reaches(cfg, base, row0) && base != [] && row0.last == Some(base[|base| - 1])
    requires FillHour(cfg.interval, cfg.maxHour, o, 0, skip, row0) && FillDay(0, row0)
    requires v < 24 && y <= cfg.maxHour && (v == 0 ==> y >= skip) && v * cfg.maxHour + y - skip <= cfg.maxDay
    ensures var times := Fill(base, cfg.interval, cfg.maxHour, o, skip, v, y);
      && Reaches(cfg, times, row) && times != [] && row.last == Some(times[|times| - 1])
      && |times| == |base| + v * cfg.maxHour + y - skip
      && (forall i :: 0 <= i < |base| ==> times[i] == base[i])
    ensures FillHour(cfg.interval, cfg.maxHour, o, v, y, row) && FillDay(v * cfg.maxHour + y - skip, row)
    decreases v, y
  {
    hide Reaches, FillHour, FillDay, FillStarts, FillTime, Record, Check;
    var c, m := cfg.interval, cfg.maxHour;
    FillFacts(cfg, o, skip, v, y);
    if y > 0 && (v > 0 || y > skip) {
      var before := FillReaches(cfg, base, row0, o, skip, v, y - 1);
      FillAllowed(cfg, o, skip, v, y - 1, before);
      OneMoreSend(cfg, Fill(base, c, m, o, skip, v, y - 1), before, FillTime(c, o, v, y - 1));
      row := Record(cfg, before, FillTime(c, o, v, y - 1));
      RecordSetsLast(cfg, before, FillTime(c, o, v, y - 1));
    } else if v > 0 {
      OneMoreOf(v - 1, m);
      row := FillReaches(cfg, base, row0, o, skip, v - 1, m);
      FillTurns(c, m, o, v, row);
    } else {
      row := row0;
    }
  }

  lemma FillFacts(cfg: Settings, o: int, skip: nat, v: nat, y: nat)
    requires FillStarts(cfg, o, skip) && (v == 0 ==> y >= skip)
    ensures cfg.enabled && cfg.maxHour >= 1 && skip <= 1 && v * cfg.maxHour + y >= skip
  {
    if v > 0 {
      Grows(1, v, cfg.maxHour);
    }
  }

  lemma RecordSetsLast(cfg: Settings, row: Row, t: int)
    requires cfg.enabled
    ensures Record(cfg, row, t).last == Some(t)
  {
  }

  lemma FillTurns(c: nat, m: nat, o: int, v: nat, row: Row)
    requires v > 0 && FillHour(c, m, o, v - 1, m, row)
    ensures FillHour(c, m, o, v, 0, row)
  {
  }

  lemma FillAllowed(cfg: Settings, o: int, skip: nat, v: nat, y: nat, row: Row)
    requires FillStarts(cfg, o, skip) && v < 24 && y < cfg.maxHour && (v == 0 ==> y >= skip)
    requires FillHour(cfg.interval, cfg.maxHour, o, v, y, row) && FillDay(v * cfg.maxHour + y - skip, row)
    requires v * cfg.maxHour + y - skip < cfg.maxDay
    ensures var c := cfg.interval; var t := FillTime(c, o, v, y);
      && Check(cfg, row, t).Allowed? && t >= row.last.value
      && FillHour(c, cfg.maxHour, o, v, y + 1, Record(cfg, row, t))
      && FillDay(v * cfg.maxHour + y + 1 - skip, Record(cfg, row, t))
  {
    hide FillStarts, FillHour, FillDay, Check, Record;
    FillFacts(cfg, o, skip, v, y);
    FillSpaced(cfg, o, skip, v, y, row);
    FillInDay(cfg, o, skip, v, y);
    FillChecks(cfg, o, skip, v, y, row);
  }

  /** The next send keeps the cooldown, and falls into the window that is not full, or exactly where it runs out. */
  lemma FillSpaced(cfg: Settings, o: int, skip: nat, v: nat, y: nat, row: Row)
    requires FillStarts(cfg, o, skip) && y < cfg.maxHour
    requires FillHour(cfg.interval, cfg.maxHour, o, v, y, row)
    ensures var t := FillTime(cfg.interval, o, v, y);
      && row.last.Some? && row.hour.start.Some? && t - row.last.value >= cfg.interval
      && (if y > 0 then row.hour == Window(Some(o + v * HOUR), y) && t - row.hour.start.value < HOUR
          else t == o + v * HOUR && t - row.hour.start.value >= HOUR)
  {
    var c, m := cfg.interval, cfg.maxHour;
    if y > 0 {
      GapStep(y - 1, c);
      GapBelow(y, m, c);
    } else if v > 0 {
      GapBelow(m - 1, m, c);
    }
  }

  /** All sends of the pattern fall into one day. */
  lemma {:induction false} FillInDay(cfg: Settings, o: int, skip: nat, v: nat, y: nat)
    requires FillStarts(cfg, o, skip) && v < 24 && y < cfg.maxHour && (v == 0 ==> y >= skip)
    ensures var t := FillTime(cfg.interval, o, v, y);
      DAY <= t < 2 * DAY && (v * cfg.maxHour + y == skip ==> t == DAY)
  {
    var c, m := cfg.interval, cfg.maxHour;
    GapBelow(y, m, c);
    if v == 0 {
      GapMonotone(skip, y, c);
    } else {
      Grows(1, v, m);
      GapBelow(if skip < m then skip else 0, m, c);
    }
  }

  lemma GapMonotone(a: nat, b: nat, c: nat)
    requires a <= b
    ensures Gap(a, c) <= Gap(b, c)
  {
    Grows(a, b, c);
  }

  lemma FillChecks(cfg: Settings, o: int, skip: nat, v: nat, y: nat, row: Row)
    requires cfg.enabled && cfg.maxHour >= 1 && y < cfg.maxHour && skip <= 1 && v * cfg.maxHour + y >= skip
    requires row.last.Some? && row.hour.start.Some?
    requires var t := FillTime(cfg.interval, o, v, y);
      && t - row.last.value >= cfg.interval
      && (if y > 0 then row.hour == Window(Some(o + v * HOUR), y) && t - row.hour.start.value < HOUR
          else t == o + v * HOUR && t - row.hour.start.value >= HOUR)
      && DAY <= t < 2 * DAY && (v * cfg.maxHour + y == skip ==> t == DAY)
    requires FillDay(v * cfg.maxHour + y - skip, row) && v * cfg.maxHour + y - skip < cfg.maxDay
    ensures var c := cfg.interval; var t := FillTime(c, o, v, y);
      && Check(cfg, row, t).Allowed? && t >= row.last.value
      && FillHour(c, cfg.maxHour, o, v, y + 1, Record(cfg, row, t))
      && FillDay(v * cfg.maxHour + y + 1 - skip, Record(cfg, row, t))
  {
    hide FillTime;
  }

  /** Up to 24 full windows: the opening send, the first of the pattern, and the rest from the day's end on. */
  lemma DailyNeededFresh(cfg: Settings)
    requires cfg.enabled && cfg.maxHour >= 1 && cfg.maxHour * cfg.interval < HOUR
    requires 2 <= cfg.maxDay < 24 * cfg.maxHour
    ensures !Bounds(cfg, DAY, cfg.maxDay)
  {
    hide Bounds, Reaches, FillHour, FillDay, FillStarts, Fill, Gap;
    var d, m, c := cfg.maxDay, cfg.maxHour, cfg.interval;
    var o := if m == 1 then DAY - HOUR else DAY - Gap(1, c);
    var row0 := FreshBase(cfg, o);
    var v, y := d / m, d % m + 1;
    assert v * m + y == d + 1;
    if v >= 24 {
      Grows(24, v, m);
      assert false;
    }
    GapZero(c);
    var row := FillReaches(cfg, [0, o], row0, o, 1, v, y);
    FillLast(c, m, o, v, y, row);
    GapBelow(y - 1, m, c);
    Breaks(cfg, Fill([0, o], c, m, o, 1, v, y), row, 1, DAY, d);
  }

  lemma GapZero(c: nat)
    ensures Gap(0, c) == 0
  {
  }

  lemma FillLast(c: nat, m: nat, o: int, v: nat, y: nat, row: Row)
    requires y > 0 && FillHour(c, m, o, v, y, row)
    ensures row.last == Some(FillTime(c, o, v, y - 1))
  {
  }

  lemma FreshBase(cfg: Settings, o: int) returns (row: Row)
    requires cfg.enabled && cfg.maxHour >= 1 && cfg.maxDay >= 2 && cfg.maxHour * cfg.interval < HOUR
    requires o == if cfg.maxHour == 1 then DAY - HOUR else DAY - Gap(1, cfg.interval)
    ensures FillStarts(cfg, o, 1) && Reaches(cfg, [0, o], row) && row.last == Some(o)
    ensures FillHour(cfg.interval, cfg.maxHour, o, 0, 1, row) && FillDay(0, row)
  {
    var c := cfg.interval;
    Grows(1, cfg.maxHour, c);
    ReachesNothing(cfg);
    OneMoreSend(cfg, [], NO_ROW, 0);
    var first := Row(Some(0), Window(Some(0), 1), Window(Some(0), 1));
    assert Record(cfg, NO_ROW, 0) == first;
    assert [] + [0] == [0] && [0] + [o] == [0, o];
    OneMoreSend(cfg, [0], first, o);
    row := Record(cfg, first, o);
    assert row == Row(Some(o), Window(Some(o), 1), Window(Some(0), 2));
  }

  /** More than 24 full windows: r sends at the end of an earlier window come before them. */
  lemma DailyNeededCrowded(cfg: Settings)
    requires cfg.enabled && cfg.maxHour >= 1 && cfg.maxHour * cfg.interval < HOUR
    requires 24 * cfg.maxHour <= cfg.maxDay <= 25 * cfg.maxHour - 2
    requires (cfg.maxDay - 23 * cfg.maxHour) * cfg.interval < HOUR
    ensures !Bounds(cfg, DAY, cfg.maxDay)
  {
    hide Bounds, Reaches, FillHour, FillDay, FillStarts, BurstRow, Burst, Fill, Gap;
    var d, m, c := cfg.maxDay, cfg.maxHour, cfg.interval;
    var r := d + 1 - 24 * m;
    BurstReaches(cfg, r, r);
    var base, row0 := Burst(c, r, r), BurstRow(c, r, r);
    CrowdedBase(cfg, r);
    BurstAt(c, r, r, 0);
    var row := FillReaches(cfg, base, row0, DAY, 0, 23, m);
    FillLast(c, m, DAY, 23, m, row);
    CrowdedSpan(r, m, c, d);
    Breaks(cfg, Fill(base, c, m, DAY, 0, 23, m), row, 2, DAY, d);
  }

  lemma CrowdedSpan(r: nat, m: nat, c: nat, d: nat)
    requires 1 <= r && 1 <= m && r == d + 1 - 24 * m && (d - 23 * m) * c < HOUR
    ensures Gap(r, c) + Gap(m - 1, c) < HOUR
  {
    assert d - 23 * m == r + (m - 1);
    assert (r + (m - 1)) * c == r * c + (m - 1) * c;
    Grows(0, r, c);
    Grows(0, m - 1, c);
    if c > 0 {
      Grows(1, r, c);
      if m > 1 {
        Grows(1, m - 1, c);
      }
    }
  }

  lemma CrowdedBase(cfg: Settings, r: nat)
    requires cfg.enabled && cfg.maxHour * cfg.interval < HOUR && 1 <= r < cfg.maxHour
    ensures var row := BurstRow(cfg.interval, r, r);
      && FillStarts(cfg, DAY, 0) && FillHour(cfg.interval, cfg.maxHour, DAY, 0, 0, row) && FillDay(0, row)
      && row.last == Some(Burst(cfg.interval, r, r)[r + 1])
  {
    BurstLast(cfg.interval, r, r);
    GapStep(0, cfg.interval);
  }

  lemma DailyNeeded(cfg: Settings)
    requires cfg.enabled && cfg.maxHour >= 1 && cfg.maxDay >= 1 && !DailyHolds(cfg)
    ensures !Bounds(cfg, DAY, cfg.maxDay)
  {
    hide Bounds;
    if cfg.maxHour * cfg.interval >= HOUR {
      DailyNeededSteady(cfg);
    } else if cfg.maxDay < 24 * cfg.maxHour {
      DailyNeededFresh(cfg);
    } else {
      DailyNeededCrowded(cfg);
    }
  }

  // ----- Exactly when -----

  /** The hourly limit bounds every hour of every run exactly under this condition on the settings. */
  lemma HourlyLimitExactly(cfg: Settings)
    requires cfg.enabled && cfg.maxHour >= 1 && cfg.maxDay >= 1
    ensures Bounds(cfg, HOUR, cfg.maxHour) <==> HourlyHolds(cfg)
  {
    hide HourlyHolds, Play, CountIn;
    if HourlyHolds(cfg) {
      forall attempts, from | Chronological(attempts)
        ensures SendsWithin(cfg, attempts, from, HOUR) <= cfg.maxHour
      {
        HourlySuffices(cfg, attempts, from);
      }
    } else {
      HourlyNeeded(cfg);
    }
  }

  /** And so for the daily limit and every day. */
  lemma DailyLimitExactly(cfg: Settings)
    requires cfg.enabled && cfg.maxHour >= 1 && cfg.maxDay >= 1
    ensures Bounds(cfg, DAY, cfg.maxDay) <==> DailyHolds(cfg)
  {
    hide DailyHolds, Play, CountIn;
    if DailyHolds(cfg) {
      forall attempts, from | Chronological(attempts)
        ensures SendsWithin(cfg, attempts, from, DAY) <= cfg.maxDay
      {
        DailySuffices(cfg, attempts, from);
      }
    } else {
      DailyNeeded(cfg);
    }
  }

  /** With the default settings (15 seconds, 20 an hour, 100 a day) neither limit holds. */
  lemma DefaultsDoNotHold()
    ensures var cfg := Settings(true, 15_000, 20, 100); !Bounds(cfg, HOUR, 20) && !Bounds(cfg, DAY, 100)
  {
    hide Bounds;
    HourlyLimitExactly(Settings(true, 15_000, 20, 100));
    DailyLimitExactly(Settings(true, 15_000, 20, 100));
  }
}
