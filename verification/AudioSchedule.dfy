/** The audio update scheduler: at most sixty updates a second, on a grid. */
module AudioSchedule {
  const UPDATES_PER_SECOND := 60
  const TWO63: int := 0x8000_0000_0000_0000

  // Ticks between updates.
  function Interval(performanceFrequency: int): (r: int)
    requires 0 < performanceFrequency
    ensures 1 <= r <= performanceFrequency
  {
    if performanceFrequency / UPDATES_PER_SECOND < 1 then 1 else performanceFrequency / UPDATES_PER_SECOND
  }

  /** Sixty intervals are a second, as near as whole ticks allow, for any clock of at least sixty ticks a second. */
  lemma {:induction false} SixtyIntervals(frequency: int)
    requires 0 < frequency
    ensures frequency >= 60 ==> 60 * Interval(frequency) <= frequency < 60 * (Interval(frequency) + 1)
    ensures frequency < 60 ==> Interval(frequency) == 1
  {
  }

  // The cell of the grid from start on that a tick lies in.
  function Cell(start: int, interval: int, tick: int): int
    requires 0 < interval
  {
    (tick - start) / interval
  }

  lemma {:induction false} CellIs(start: int, interval: int, tick: int, c: int)
    requires 0 < interval && start + c * interval <= tick < start + (c + 1) * interval
    ensures Cell(start, interval, tick) == c
  {
    var x := tick - start;
    var q := x / interval;
    assert q * interval <= x < (q + 1) * interval;
    if q < c {
      MoreIsMore(interval, q + 1, c);
    } else if q > c {
      MoreIsMore(interval, c + 1, q);
    }
  }

  lemma {:induction false} MoreIsMore(n: int, a: int, b: int)
    requires 0 < n && a <= b
    ensures a * n <= b * n
  {
    assert (b - a) * n >= 0;
  }

  lemma {:induction false} CellHolds(start: int, interval: int, tick: int)
    requires 0 < interval
    ensures
      var c := Cell(start, interval, tick);
      start + c * interval <= tick < start + (c + 1) * interval
  {
    var x := tick - start;
    assert x == interval * (x / interval) + x % interval;
  }

  lemma {:induction false} CellGrows(start: int, interval: int, a: int, b: int)
    requires 0 < interval && a <= b
    ensures Cell(start, interval, a) <= Cell(start, interval, b)
  {
    CellHolds(start, interval, a);
    CellHolds(start, interval, b);
    var c, d := Cell(start, interval, a), Cell(start, interval, b);
    if d < c {
      MoreIsMore(interval, d + 1, c);
    }
  }

  // When the update after one at the given tick is due: at the end of its grid cell.
  function Due(start: int, interval: int, tick: int): int
    requires 0 < interval
  {
    start + (Cell(start, interval, tick) + 1) * interval
  }

  lemma {:induction false} DueBounds(start: int, interval: int, tick: int)
    requires 0 < interval
    ensures tick < Due(start, interval, tick) <= tick + interval
  {
    CellHolds(start, interval, tick);
  }

  lemma {:induction false} FirstDue(now: int, interval: int)
    requires 0 < interval
    ensures Due(now, interval, now) == now + interval
  {
    CellIs(now, interval, now, 0);
  }

  // Before the end of its cell a tick is in the cell.
  lemma {:induction false} NotYetDue(start: int, interval: int, last: int, now: int)
    requires 0 < interval && last <= now < Due(start, interval, last)
    ensures Cell(start, interval, now) == Cell(start, interval, last) && now - last < interval
  {
    CellHolds(start, interval, last);
    CellIs(start, interval, now, Cell(start, interval, last));
  }

  // The next multiple of the interval behind now, counted from the end of the last cell.
  lemma {:induction false} NextDue(start: int, interval: int, last: int, now: int)
    requires 0 < interval && Due(start, interval, last) <= now
    ensures
      var next := Due(start, interval, last);
      next + ((now - next) / interval + 1) * interval == Due(start, interval, now)
    ensures Cell(start, interval, last) < Cell(start, interval, now)
  {
    var c := Cell(start, interval, last);
    var next := Due(start, interval, last);
    var q := (now - next) / interval;
    assert now - next == interval * q + (now - next) % interval;
    assert (c + 1) * interval + q * interval == (c + 1 + q) * interval;
    assert (c + 1 + q + 1) * interval == (c + 1 + q) * interval + interval;
    CellIs(start, interval, now, c + 1 + q);
    assert q >= 0 by {
      if q < 0 {
        MoreIsMore(interval, q, -1);
      }
    }
  }

  class UpdateSchedule {
    var audioDevice: nat                  // null is 0
    var performanceFrequency: int
    var nextUpdateTick: int
    var lastObservedTick: int
    var initialized: bool
    ghost var start: int                  // the first update of the current run of calls
    ghost var lastRun: int                // its last update

    // The next update is due at the end of the grid cell of the last one.
    ghost predicate Valid()
      reads this
    {
      initialized ==>
        && 0 < audioDevice && 0 < performanceFrequency && 0 <= start <= lastRun <= lastObservedTick < TWO63
        && var interval := Interval(performanceFrequency);
        && nextUpdateTick == Due(start, interval, lastRun) < TWO63
        && Cell(start, interval, lastObservedTick) == Cell(start, interval, lastRun)
    }

    constructor ()
      ensures Valid() && !initialized
    {
      audioDevice, performanceFrequency, nextUpdateTick, lastObservedTick, initialized := 0, 0, 0, 0, false;
    }

    method Reset()
      modifies this
      ensures Valid() && !initialized && audioDevice == 0 && performanceFrequency == 0 && nextUpdateTick == 0 && lastObservedTick == 0
    {
      audioDevice, performanceFrequency, nextUpdateTick, lastObservedTick, initialized := 0, 0, 0, 0, false;
    }

    // The call goes on with the current run of calls.
    ghost predicate Continues(device: nat, realtime: bool, now: int, frequency: int)
      reads this
    {
      && realtime && device != 0 && 0 <= now && 0 < frequency
      && initialized && audioDevice == device && performanceFrequency == frequency && lastObservedTick <= now
    }

    // The end of the tick's grid cell is a 64-bit number, so that nothing the call computes overflows.
    ghost predicate Representable(device: nat, realtime: bool, now: int, frequency: int)
      reads this
    {
      realtime && device != 0 && 0 <= now && 0 < frequency ==>
        Due(if Continues(device, realtime, now, frequency) then start else now, Interval(frequency), now) < TWO63
    }

    /**
     ShouldRunUpdate. Every call that does not go on with the current run updates; one that does updates if and
     only if it is the first in its grid cell. A skipped call comes less than an interval, and so less than a sixtieth
     of a second, after the last update, and the next one is due at most an interval after that.
     */
    method ShouldRunUpdate(device: nat, realtime: bool, now: int, frequency: int) returns (run: bool)
      requires Valid() && Representable(device, realtime, now, frequency)
      modifies this
      ensures Valid()
      ensures !(realtime && device != 0 && 0 <= now && 0 < frequency) ==> run && !initialized
      ensures realtime && device != 0 && 0 <= now && 0 < frequency ==>
        initialized && audioDevice == device && performanceFrequency == frequency && lastObservedTick == now
      ensures realtime && device != 0 && 0 <= now && 0 < frequency && !old(Continues(device, realtime, now, frequency)) ==>
        run && start == lastRun == now
      ensures old(Continues(device, realtime, now, frequency)) ==>
        var interval := Interval(frequency);
        && start == old(start) && lastRun == (if run then now else old(lastRun))
        && (run <==> Cell(start, interval, now) != Cell(start, interval, old(lastObservedTick)))
        && (!run ==> now - lastRun < interval && 60 * (now - lastRun) < frequency)
      ensures initialized ==> lastRun < nextUpdateTick <= lastRun + Interval(performanceFrequency)
    {
      hide Cell, Due, Interval;
      if 0 < frequency {
        SixtyIntervals(frequency);
      }
      if !realtime || device == 0 || now < 0 || frequency <= 0 {
        Reset();
        return true;
      }
      var interval := Interval(frequency);
      DueBounds(now, interval, now);
      DueBounds(start, interval, now);
      if !initialized || audioDevice != device || performanceFrequency != frequency || now < lastObservedTick {
        audioDevice, performanceFrequency := device, frequency;
        FirstDue(now, interval);
        nextUpdateTick := now + interval;
        lastObservedTick := now;
        initialized := true;
        start, lastRun := now, now;
        return true;
      }
      DueBounds(start, interval, lastRun);
      lastObservedTick := now;
      if now < nextUpdateTick {
        NotYetDue(start, interval, lastRun, now);
        return false;
      }
      NextDue(start, interval, lastRun, now);
      var elapsedIntervals := (now - nextUpdateTick) / interval + 1;
      nextUpdateTick := nextUpdateTick + elapsedIntervals * interval;
      lastRun := now;
      run := true;
    }
  }

  // A run of calls: which of them update, each being the first in its grid cell.
  ghost predicate FirstInCell(ticks: seq<int>, runs: seq<bool>, interval: int)
    requires 0 < interval
  {
    && |runs| == |ticks|
    && forall k :: 0 <= k < |ticks| ==> runs[k] == IsFirst(ticks, interval, k)
  }

  predicate IsFirst(ticks: seq<int>, interval: int, k: nat)
    requires 0 < interval && k < |ticks|
  {
    k == 0 || Cell(ticks[0], interval, ticks[k]) != Cell(ticks[0], interval, ticks[k - 1])
  }

  predicate NonDecreasing(ticks: seq<int>)
  {
    forall k :: 0 < k < |ticks| ==> ticks[k - 1] <= ticks[k]
  }

  function Updates(runs: seq<bool>): nat
    decreases |runs|
  {
    if runs == [] then 0 else Updates(runs[..|runs| - 1]) + (if runs[|runs| - 1] then 1 else 0)
  }

  /** Up to any tick t of the run, no more than (t - t0) / interval + 1 calls have updated. */
  lemma {:induction false} UpdatesAreBounded(ticks: seq<int>, runs: seq<bool>, interval: int, n: nat)
    requires 0 < interval && FirstInCell(ticks, runs, interval) && NonDecreasing(ticks) && 0 < n <= |ticks|
    ensures Updates(runs[..n]) <= (ticks[n - 1] - ticks[0]) / interval + 1
    decreases n
  {
    hide Cell;
    assert runs[..n][..n - 1] == runs[..n - 1];
    CellIsQuotient(ticks[0], interval, ticks[n - 1]);
    if n == 1 {
      assert runs[..0] == [];
      CellIsQuotient(ticks[0], interval, ticks[0]);
    } else {
      UpdatesAreBounded(ticks, runs, interval, n - 1);
      CellIsQuotient(ticks[0], interval, ticks[n - 2]);
      CellGrows(ticks[0], interval, ticks[n - 2], ticks[n - 1]);
    }
  }

  // The most updates in a span shorter than a second: one for each cell that it can touch.
  function MostInASecond(frequency: int): int
    requires 0 < frequency
  {
    if frequency < 60 then frequency else (frequency - 2) / (frequency / 60) + 2
  }

  // No span shorter than a second has more.
  ghost predicate Throttled(ticks: seq<int>, runs: seq<bool>, frequency: int)
    requires 0 < frequency && |runs| == |ticks|
  {
    forall i, j :: 0 <= i <= j < |ticks| && ticks[j] - ticks[i] < frequency ==> Updates(runs[i..j + 1]) <= MostInASecond(frequency)
  }

  /**
   For a clock of at least 3600 ticks a second that is 62, and 61 if and only if the frequency is a multiple of sixty or
   one more.
   */
  lemma {:induction false} SixtyOrSo(frequency: int)
    requires 3600 <= frequency
    ensures MostInASecond(frequency) == if frequency % 60 <= 1 then 61 else 62
  {
    var n, r := frequency / 60, frequency % 60;
    assert frequency == 60 * n + r;
    if r <= 1 {
      QuotientIs(frequency - 2, n, 59);
    } else {
      QuotientIs(frequency - 2, n, 60);
    }
  }

  lemma {:induction false} QuotientIs(x: int, n: int, q: int)
    requires 0 < n && q * n <= x < (q + 1) * n
    ensures x / n == q
  {
    CellIs(0, n, x, q);
  }

  // From call i to call j each update but that of call i is the first in another cell.
  lemma {:induction false} UpdatesByCells(ticks: seq<int>, runs: seq<bool>, interval: int, i: nat, j: nat)
    requires 0 < interval && FirstInCell(ticks, runs, interval) && NonDecreasing(ticks) && i <= j < |ticks|
    ensures Updates(runs[i..j + 1]) <= Cell(ticks[0], interval, ticks[j]) - Cell(ticks[0], interval, ticks[i]) + 1
    decreases j
  {
    hide Cell;
    if i == j {
      assert runs[i..i + 1][..0] == [];
    } else {
      assert runs[i..j + 1][..j - i] == runs[i..j];
      assert runs[i..j + 1][j - i] == runs[j] == IsFirst(ticks, interval, j);
      UpdatesByCells(ticks, runs, interval, i, j - 1);
      assert ticks[j - 1] <= ticks[j];
      CellGrows(ticks[0], interval, ticks[j - 1], ticks[j]);
    }
  }

  lemma {:induction false} CellsInASecond(start: int, a: int, b: int, frequency: int)
    requires 0 < frequency && a <= b < a + frequency
    ensures Cell(start, Interval(frequency), b) - Cell(start, Interval(frequency), a) + 1 <= MostInASecond(frequency)
  {
    hide Cell;
    var n := Interval(frequency);
    var c, d := Cell(start, n, a), Cell(start, n, b);
    CellHolds(start, n, a);
    CellHolds(start, n, b);
    assert d * n - c * n == (d - c) * n && (c + 1) * n == c * n + n;
    assert (d - c - 1) * n == (d - c) * n - n <= frequency - 2;
    AtMost(frequency - 2, n, d - c - 1);
    assert frequency < 60 ==> (frequency - 2) / 1 == frequency - 2;
  }

  lemma {:induction false} AtMost(x: int, n: int, q: int)
    requires 0 < n && q * n <= x
    ensures q <= x / n
  {
    assert x == n * (x / n) + x % n;
    if x / n < q {
      MoreIsMore(n, x / n + 1, q);
    }
  }

  /** Whatever the calls, no span shorter than a second has more updates than that. */
  lemma {:induction false} SecondIsThrottled(ticks: seq<int>, runs: seq<bool>, frequency: int)
    requires 0 < frequency && FirstInCell(ticks, runs, Interval(frequency)) && NonDecreasing(ticks)
    ensures Throttled(ticks, runs, frequency)
  {
    hide Cell, Interval, MostInASecond;
    forall i, j | 0 <= i <= j < |ticks| && ticks[j] - ticks[i] < frequency
      ensures Updates(runs[i..j + 1]) <= MostInASecond(frequency)
    {
      Ascending(ticks, i, j);
      UpdatesByCells(ticks, runs, Interval(frequency), i, j);
      CellsInASecond(ticks[0], ticks[i], ticks[j], frequency);
    }
  }

  lemma {:induction false} Ascending(ticks: seq<int>, i: nat, j: nat)
    requires NonDecreasing(ticks) && i <= j < |ticks|
    ensures ticks[i] <= ticks[j]
    decreases j
  {
    if i < j {
      Ascending(ticks, i, j - 1);
    }
  }

  // Calls at 0, at the last tick of the cell numbered 1, and at the first ticks of n - 1 more.
  function DenseCalls(interval: int, n: nat): seq<int>
  {
    [0] + seq(n, k requires 0 <= k < n => if k == 0 then 2 * interval - 1 else (k + 1) * interval)
  }

  lemma {:induction false} DenseCall(interval: int, n: nat, k: nat)
    requires 0 < interval && 0 < k <= n
    ensures var t := DenseCalls(interval, n)[k]; Cell(0, interval, t) == k && k * interval <= t < (k + 1) * interval && (k > 1 ==> t == k * interval)
  {
    var t := DenseCalls(interval, n)[k];
    assert (k + 1) * interval == k * interval + interval;
    CellIs(0, interval, t, k);
  }

  lemma {:induction false} AllUpdate(runs: seq<bool>)
    requires forall k :: 0 <= k < |runs| ==> runs[k]
    ensures Updates(runs) == |runs|
    decreases |runs|
  {
    if runs != [] {
      AllUpdate(runs[..|runs| - 1]);
    }
  }

  lemma {:induction false} DenseCallsUpdate(n: int, most: nat)
    requires 0 < n
    ensures FirstInCell(DenseCalls(n, most), seq(most + 1, _ => true), n) && NonDecreasing(DenseCalls(n, most))
  {
    hide Cell;
    var ticks, runs := DenseCalls(n, most), seq(most + 1, _ => true);
    CellIs(0, n, 0, 0);
    forall k | 0 <= k < |ticks|
      ensures runs[k] == IsFirst(ticks, n, k)
      ensures k > 0 ==> ticks[k - 1] <= ticks[k]
    {
      if k > 0 {
        DenseCall(n, most, k);
        if k > 1 {
          DenseCall(n, most, k - 1);
        }
      }
    }
  }

  lemma {:induction false} DenseSpan(n: int, most: nat, x: int)
    requires 0 < n && most == x / n + 2 && 0 < most && -1 <= x
    ensures
      var ticks := DenseCalls(n, most);
      ticks[most] - ticks[1] <= x + 1
  {
    hide Cell;
    if most > 1 {
      DenseCall(n, most, most);
      assert x == n * (x / n) + x % n;
      assert most * n == n * (x / n) + 2 * n;
    }
  }

  /** And that many do fall into a span shorter than a second, for every clock. */
  lemma {:induction false} MostIsReached(frequency: int) returns (ticks: seq<int>, runs: seq<bool>)
    requires 0 < frequency
    ensures FirstInCell(ticks, runs, Interval(frequency)) && NonDecreasing(ticks) && 1 < |ticks|
    ensures ticks[|ticks| - 1] - ticks[1] < frequency && Updates(runs[1..]) == MostInASecond(frequency)
  {
    hide Cell, FirstInCell, NonDecreasing;
    var n := Interval(frequency);
    assert frequency < 60 ==> (frequency - 2) / 1 == frequency - 2;
    AtLeastOne(frequency - 2, n);
    var most: nat := MostInASecond(frequency);
    ticks, runs := DenseCalls(n, most), seq(most + 1, _ => true);
    DenseCallsUpdate(n, most);
    DenseSpan(n, most, frequency - 2);
    AllUpdate(runs[1..]);
  }

  lemma {:induction false} AtLeastOne(x: int, n: int)
    requires 0 < n && -1 <= x
    ensures 1 <= x / n + 2
  {
    AtMost(x, n, -1);
  }

  lemma {:induction false} CellIsQuotient(start: int, interval: int, tick: int)
    requires 0 < interval
    ensures Cell(start, interval, tick) == (tick - start) / interval
    ensures tick == start ==> Cell(start, interval, tick) == 0
  {
    if tick == start {
      CellIs(start, interval, tick, 0);
    }
  }

  /** A run of realtime calls of one device at its frequency, from its first update on. */
  method PlayThrough(schedule: UpdateSchedule, device: nat, ticks: seq<int>, frequency: int) returns (runs: seq<bool>)
    requires schedule.Valid() && device != 0 && 0 < frequency && ticks != [] && NonDecreasing(ticks)
    requires forall k :: 0 <= k < |ticks| ==> 0 <= ticks[k] && Due(ticks[0], Interval(frequency), ticks[k]) < TWO63
    requires !schedule.Continues(device, true, ticks[0], frequency)
    modifies schedule
    ensures schedule.Valid() && schedule.start == ticks[0] && FirstInCell(ticks, runs, Interval(frequency))
    ensures Throttled(ticks, runs, frequency)
  {
    hide Cell, Due, Interval;
    var run := schedule.ShouldRunUpdate(device, true, ticks[0], frequency);
    runs := [run];
    var k := 1;
    while k < |ticks|
      invariant 1 <= k <= |ticks| && schedule.Valid() && schedule.start == ticks[0] && FirstInCell(ticks[..k], runs, Interval(frequency))
      invariant schedule.initialized && schedule.audioDevice == device && schedule.performanceFrequency == frequency
      invariant schedule.lastObservedTick == ticks[k - 1]
    {
      assert ticks[k - 1] <= ticks[k];
      run := schedule.ShouldRunUpdate(device, true, ticks[k], frequency);
      OneMoreCall(ticks, runs, Interval(frequency), k, run);
      runs := runs + [run];
      k := k + 1;
    }
    assert ticks[..k] == ticks;
    SecondIsThrottled(ticks, runs, frequency);
  }

  lemma {:induction false} OneMoreCall(ticks: seq<int>, runs: seq<bool>, interval: int, k: nat, run: bool)
    requires 0 < interval && 0 < k < |ticks| && FirstInCell(ticks[..k], runs, interval)
    requires run <==> Cell(ticks[0], interval, ticks[k]) != Cell(ticks[0], interval, ticks[k - 1])
    ensures FirstInCell(ticks[..k + 1], runs + [run], interval)
  {
    hide Cell;
    var all, flags, before := ticks[..k + 1], runs + [run], ticks[..k];
    forall j | 0 <= j < |all|
      ensures flags[j] == IsFirst(all, interval, j)
    {
      if j < k {
        assert IsFirst(before, interval, j) == IsFirst(all, interval, j);
      }
    }
  }
}
