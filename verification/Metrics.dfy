/** The metrics of benchmark/main.go: counters, the 99th percentile of recent latencies, and the
    bounded chart histories. Times and durations are nanoseconds. */
module MetricsModel {
  import opened Common
  import opened Listings
  import opened RingBuffers
  import opened Sorting

  datatype OperationResult = OperationResult(success: bool, duration: int, ignored: bool)

  datatype DataPoint = DataPoint(value: real, timestamp: int)

  const MAX_HISTORY_POINTS := 60
  const SECOND := 1_000_000_000

  // ----- The 99th percentile -----

  function CountBelow(s: seq<int>, x: int): (r: nat)
    ensures r <= |s|
  {
    if s == [] then 0 else CountBelow(s[..|s| - 1], x) + (if s[|s| - 1] < x then 1 else 0)
  }

  function CountUpTo(s: seq<int>, x: int): (r: nat) {
    CountBelow(s, x + 1)
  }

  /** More than 99 percent of the window is at most `x`, and at most 99 percent is below it. */
  ghost predicate IsP99(window: seq<int>, x: int) {
    x in window && 100 * CountUpTo(window, x) > 99 * |window| && 100 * CountBelow(window, x) <= 99 * |window|
  }

  lemma {:induction false} CountConcat(a: seq<int>, b: seq<int>, x: int)
    ensures CountBelow(a + b, x) == CountBelow(a, x) + CountBelow(b, x)
  {
    if b == [] {
      assert a + b == a;
    } else {
      var n := |b| - 1;
      assert (a + b)[..|a + b| - 1] == a + b[..n];
      CountConcat(a, b[..n], x);
    }
  }

  lemma CountWithout(s: seq<int>, j: nat, x: int)
    requires j < |s|
    ensures CountBelow(s, x) == CountBelow(Without(s, j), x) + (if s[j] < x then 1 else 0)
  {
    assert s == s[..j] + ([s[j]] + s[j + 1..]);
    CountConcat(s[..j], [s[j]] + s[j + 1..], x);
    CountConcat([s[j]], s[j + 1..], x);
    CountConcat(s[..j], s[j + 1..], x);
  }

  lemma {:induction false} CountPermutes(a: seq<int>, b: seq<int>, x: int)
    requires multiset(a) == multiset(b)
    ensures CountBelow(a, x) == CountBelow(b, x)
    decreases |a|
  {
    if a == [] {
      assert |multiset(b)| == 0;
    } else {
      assert a[0] in multiset(a);
      assert a[0] in multiset(b);
      var j :| 0 <= j < |b| && b[j] == a[0];
      CountWithout(a, 0, x);
      CountWithout(b, j, x);
      assert multiset(Without(a, 0)) == multiset(a) - multiset{a[0]};
      assert multiset(Without(b, j)) == multiset(b) - multiset{a[0]};
      CountPermutes(Without(a, 0), Without(b, j), x);
    }
  }

  /** In an ascending sequence, what lies below the value at `k` lies before `k`. */
  lemma {:induction false} CountInSorted(s: seq<int>, k: nat, x: int)
    requires Ascending(s) && k <= |s|
    ensures (forall i :: 0 <= i < k ==> s[i] < x) ==> CountBelow(s, x) >= k
    ensures (forall i :: k <= i < |s| ==> s[i] >= x) ==> CountBelow(s, x) <= k
    decreases |s|
  {
    if s != [] {
      CountInSorted(s[..|s| - 1], if k < |s| then k else k - 1, x);
    }
  }

  lemma {:induction false} CountMonotone(s: seq<int>, x: int, y: int)
    requires x <= y
    ensures CountBelow(s, x) <= CountBelow(s, y)
  {
    if s != [] {
      CountMonotone(s[..|s| - 1], x, y);
    }
  }

  /** A window has one 99th percentile. */
  lemma P99Unique(window: seq<int>, x: int, y: int)
    requires IsP99(window, x) && IsP99(window, y)
    ensures x == y
  {
    if x < y {
      CountMonotone(window, x + 1, y);
    } else if y < x {
      CountMonotone(window, y + 1, x);
    }
  }

  /** The index the source uses is in range, and picks the percentile from the sorted window. */
  lemma SortedPickIsP99(window: seq<int>, sorted: seq<int>)
    requires window != [] && multiset(sorted) == multiset(window) && Ascending(sorted)
    ensures |sorted| == |window| && 99 * |window| / 100 < |window|
    ensures IsP99(window, sorted[99 * |window| / 100])
  {
    assert |multiset(sorted)| == |sorted| && |multiset(window)| == |window|;
    var k := 99 * |window| / 100;
    var x := sorted[k];
    assert x in multiset(window);
    CountPermutes(sorted, window, x);
    CountPermutes(sorted, window, x + 1);
    CountInSorted(sorted, k, x);
    CountInSorted(sorted, k + 1, x + 1);
  }

  // ----- The metrics as a value -----

  datatype Readings = Readings(
    totalOps: nat, successfulOps: nat, errorOps: nat,
    opsThisSecond: nat, lastSecondStart: int,
    currentOPS: real, errorRate: real, latencyP99: int,
    throughput: seq<DataPoint>, latency: seq<DataPoint>, errors: seq<DataPoint>)

  function AfterResult(s: Readings, r: OperationResult): (s': Readings) {
    if r.ignored then s
    else s.(
      totalOps := s.totalOps + 1,
      opsThisSecond := s.opsThisSecond + 1,
      successfulOps := s.successfulOps + (if r.success then 1 else 0),
      errorOps := s.errorOps + (if r.success then 0 else 1))
  }

  /** Duration to whole milliseconds, rounding toward zero. */
  function Milliseconds(d: int): (r: int) {
    if d >= 0 then d / 1_000_000 else -((-d) / 1_000_000)
  }

  /** Appending to a chart, and dropping the oldest point if it got too long. */
  function Push(points: seq<DataPoint>, p: DataPoint): (r: seq<DataPoint>) {
    var longer := points + [p];
    if |longer| > MAX_HISTORY_POINTS then longer[1..] else longer
  }

  predicate Resets(s: Readings, now: int) {
    now - s.lastSecondStart >= SECOND
  }

  /** The seconds since the window opened. */
  function Elapsed(s: Readings, now: int): (r: real)
    ensures Resets(s, now) ==> r >= 1.0
  {
    (now - s.lastSecondStart) as real / SECOND as real
  }

  function Rate(s: Readings, now: int): (r: real)
    requires Resets(s, now)
  {
    s.opsThisSecond as real / Elapsed(s, now)
  }

  /** Closing the per-second window, if it lasted at least a second. */
  function Rolled(s: Readings, now: int): (s': Readings) {
    if Resets(s, now) then s.(currentOPS := Rate(s, now), opsThisSecond := 0, lastSecondStart := now)
    else s
  }

  function ErrorRate(s: Readings): (r: real) {
    if s.totalOps > 0 then s.errorOps as real / s.totalOps as real * 100.0 else s.errorRate
  }

  lemma RolledKeepsErrorRate(s: Readings, now: int)
    ensures ErrorRate(Rolled(s, now)) == ErrorRate(s)
    ensures var r := Rolled(s, now);
      (r.totalOps, r.successfulOps, r.errorOps, r.latencyP99) == (s.totalOps, s.successfulOps, s.errorOps, s.latencyP99)
  {}

  /** One point for each chart from the current values. */
  function Charted(s: Readings, now: int): (s': Readings) {
    s.(
      throughput := Push(s.throughput, DataPoint(s.currentOPS, now)),
      latency := Push(s.latency, DataPoint(Milliseconds(s.latencyP99) as real, now)),
      errors := Push(s.errors, DataPoint(s.errorRate, now)))
  }

  /** An update at time `now` that finds `p99` as the percentile. */
  function AfterUpdate(s: Readings, now: int, p99: int): (s': Readings) {
    Charted(Rolled(s, now).(errorRate := ErrorRate(s), latencyP99 := p99), now)
  }

  /** `ms` are the whole milliseconds of `d`, rounded toward zero. */
  ghost predicate WholeMilliseconds(d: int, ms: int) {
    && (d >= 0 ==> ms * 1_000_000 <= d < (ms + 1) * 1_000_000)
    && (d <= 0 ==> (ms - 1) * 1_000_000 < d <= ms * 1_000_000)
  }

  /** The chart dropped its oldest point if it had 60, and ends with `p`. */
  ghost predicate Charts(points: seq<DataPoint>, p: DataPoint, points': seq<DataPoint>) {
    points' == (if |points| < 60 then points else points[1..]) + [p]
  }

  /** What an update at time `now` comes to. The rate times the nanoseconds it covers is the window's count
      times a second; the error rate times all operations is a hundred times the failed ones. */
  ghost predicate Updated(s: Readings, now: int, s': Readings) {
    && s'.totalOps == s.totalOps && s'.successfulOps == s.successfulOps && s'.errorOps == s.errorOps
    && (if now - s.lastSecondStart >= 1_000_000_000 then
          && s'.currentOPS * (now - s.lastSecondStart) as real == s.opsThisSecond as real * 1_000_000_000.0
          && s'.opsThisSecond == 0 && s'.lastSecondStart == now
        else
          && s'.currentOPS == s.currentOPS
          && s'.opsThisSecond == s.opsThisSecond && s'.lastSecondStart == s.lastSecondStart)
    && (if s.totalOps > 0 then s'.errorRate * s.totalOps as real == 100.0 * s.errorOps as real
        else s'.errorRate == s.errorRate)
    && Charts(s.throughput, DataPoint(s'.currentOPS, now), s'.throughput)
    && Charts(s.errors, DataPoint(s'.errorRate, now), s'.errors)
    && exists ms: int ::
      WholeMilliseconds(s'.latencyP99, ms) && Charts(s.latency, DataPoint(ms as real, now), s'.latency)
  }

  lemma MillisecondsMeans(d: int)
    ensures WholeMilliseconds(d, Milliseconds(d))
  {}

  lemma RateMeans(s: Readings, now: int)
    requires now - s.lastSecondStart >= 1_000_000_000
    ensures Resets(s, now)
    ensures Rate(s, now) * (now - s.lastSecondStart) as real == s.opsThisSecond as real * 1_000_000_000.0
  {
    var d := (now - s.lastSecondStart) as real;
    assert Rate(s, now) * Elapsed(s, now) == s.opsThisSecond as real;
    assert Elapsed(s, now) * 1_000_000_000.0 == d;
    assert Rate(s, now) * d == Rate(s, now) * Elapsed(s, now) * 1_000_000_000.0;
  }

  lemma ErrorRateMeans(s: Readings)
    ensures if s.totalOps > 0 then ErrorRate(s) * s.totalOps as real == 100.0 * s.errorOps as real
      else ErrorRate(s) == s.errorRate
  {
    if s.totalOps > 0 {
      var q := s.errorOps as real / s.totalOps as real;
      assert q * s.totalOps as real == s.errorOps as real;
      assert ErrorRate(s) * s.totalOps as real == 100.0 * (q * s.totalOps as real);
    }
  }

  lemma PushCharts(points: seq<DataPoint>, p: DataPoint)
    ensures Charts(points, p, Push(points, p))
  {}

  lemma UpdateMeans(s: Readings, now: int, p99: int)
    ensures Updated(s, now, AfterUpdate(s, now, p99)) && AfterUpdate(s, now, p99).latencyP99 == p99
  {
    hide Rate, Push, Charts, Milliseconds, WholeMilliseconds, ErrorRate;
    var s' := AfterUpdate(s, now, p99);
    if Resets(s, now) {
      RateMeans(s, now);
    }
    ErrorRateMeans(s);
    PushCharts(s.throughput, DataPoint(s'.currentOPS, now));
    PushCharts(s.errors, DataPoint(s'.errorRate, now));
    PushCharts(s.latency, DataPoint(Milliseconds(p99) as real, now));
    MillisecondsMeans(p99);
  }

  class Metrics {
    var totalOps: nat
    var successfulOps: nat
    var errorOps: nat
    var currentOPS: real
    var expectedOPS: real
    const latencyBuffer: RingBuffer
    var latencyP99: int
    var errorRate: real
    var throughputHistory: seq<DataPoint>
    var latencyHistory: seq<DataPoint>
    var errorHistory: seq<DataPoint>
    var opsThisSecond: nat
    var lastSecondStart: int

    ghost predicate Valid()
      reads this, latencyBuffer, latencyBuffer.data
    {
      latencyBuffer.Valid() && |latencyBuffer.history| == totalOps == successfulOps + errorOps
    }

    ghost function Now(): (s: Readings)
      reads this
    {
      Readings(totalOps, successfulOps, errorOps, opsThisSecond, lastSecondStart, currentOPS, errorRate, latencyP99,
               throughputHistory, latencyHistory, errorHistory)
    }

    constructor (latencyBufferSize: nat, now: int)
      requires latencyBufferSize > 0
      ensures Valid() && fresh(latencyBuffer) && fresh(latencyBuffer.data)
      ensures latencyBuffer.history == [] && latencyBuffer.capacity == latencyBufferSize
      ensures Now() == Fresh(now)
    {
      totalOps, successfulOps, errorOps, opsThisSecond, lastSecondStart := 0, 0, 0, 0, now;
      currentOPS, expectedOPS, errorRate, latencyP99 := 0.0, 0.0, 0.0, 0;
      throughputHistory, latencyHistory, errorHistory := [], [], [];
      latencyBuffer := new RingBuffer(latencyBufferSize);
    }

    method ProcessOperationResult(result: OperationResult)
      requires Valid()
      modifies this, latencyBuffer, latencyBuffer.data
      ensures Valid() && Now() == AfterResult(old(Now()), result)
      ensures latencyBuffer.size == Min(totalOps, latencyBuffer.capacity)
      ensures latencyBuffer.history == old(latencyBuffer.history) + (if result.ignored then [] else [result.duration])
    {
      if result.ignored {
        return;
      }
      totalOps := totalOps + 1;
      opsThisSecond := opsThisSecond + 1;
      if result.success {
        successfulOps := successfulOps + 1;
      } else {
        errorOps := errorOps + 1;
      }
      latencyBuffer.Add(result.duration);
    }

    method UpdateMetrics(now: int, throttleOPS: int)
      requires Valid()
      modifies this
      ensures Valid() && latencyBuffer.history == old(latencyBuffer.history)
      ensures Now() == AfterUpdate(old(Now()), now, latencyP99) && Updated(old(Now()), now, Now())
      ensures var window := LastN(latencyBuffer.history, latencyBuffer.capacity);
        if window == [] then latencyP99 == old(latencyP99) else IsP99(window, latencyP99)
      ensures expectedOPS == throttleOPS as real
    {
      RolledKeepsErrorRate(Now(), now);
      hide Rolled, ErrorRate, Charted, IsP99, Updated, LastN;
      ghost var before := Now();
      RollWindow(now);
      expectedOPS := throttleOPS as real;
      UpdateErrorRate();
      var p99 := Percentile();
      latencyP99 := p99;
      AppendPoints(now);
      UpdateMeans(before, now, latencyP99);
    }

    method RollWindow(now: int)
      modifies `currentOPS, `opsThisSecond, `lastSecondStart
      ensures Now() == Rolled(old(Now()), now)
    {
      if now - lastSecondStart >= SECOND {
        var elapsedSeconds := (now - lastSecondStart) as real / SECOND as real;
        currentOPS := opsThisSecond as real / elapsedSeconds;
        opsThisSecond := 0;
        lastSecondStart := now;
      }
    }

    method UpdateErrorRate()
      modifies `errorRate
      ensures errorRate == ErrorRate(old(Now()))
    {
      if totalOps > 0 {
        errorRate := errorOps as real / totalOps as real * 100.0;
      }
    }

    method Percentile() returns (p99: int)
      requires Valid()
      ensures var window := LastN(latencyBuffer.history, latencyBuffer.capacity);
        if window == [] then p99 == latencyP99 else IsP99(window, p99)
    {
      p99 := latencyP99;
      var window := latencyBuffer.GetAll();
      if |window| > 0 {
        var latencies := SortSlice(window, (a: int, b: int) => a < b);
        SortedAscends(latencies, (a: int, b: int) => a < b);
        SortedPickIsP99(window, latencies);
        var p99Index := 99 * |latencies| / 100;
        if p99Index >= |latencies| {
          p99Index := |latencies| - 1;
        }
        p99 := latencies[p99Index];
      }
    }

    method AppendPoints(now: int)
      modifies `throughputHistory, `latencyHistory, `errorHistory
      ensures Now() == Charted(old(Now()), now)
    {
      throughputHistory := throughputHistory + [DataPoint(currentOPS, now)];
      if |throughputHistory| > MAX_HISTORY_POINTS {
        throughputHistory := throughputHistory[1..];
      }
      latencyHistory := latencyHistory + [DataPoint(Milliseconds(latencyP99) as real, now)];
      if |latencyHistory| > MAX_HISTORY_POINTS {
        latencyHistory := latencyHistory[1..];
      }
      errorHistory := errorHistory + [DataPoint(errorRate, now)];
      if |errorHistory| > MAX_HISTORY_POINTS {
        errorHistory := errorHistory[1..];
      }
    }
  }

  lemma SortedAscends(s: seq<int>, less: (int, int) -> bool)
    requires SortedBy(s, less) && forall a, b :: less(a, b) == (a < b)
    ensures Ascending(s)
  {}

  function Fresh(now: int): (s: Readings) {
    Readings(0, 0, 0, 0, now, 0.0, 0.0, 0, [], [], [])
  }

  // ----- Whole runs -----

  datatype Event = Observe(result: OperationResult) | Update(now: int, p99: int)

  function Next(s: Readings, e: Event): (r: Readings) {
    match e
    case Observe(result) => AfterResult(s, result)
    case Update(now, p99) => AfterUpdate(s, now, p99)
  }

  function After(start: int, run: seq<Event>): (r: Readings) {
    if run == [] then Fresh(start) else Next(After(start, run[..|run| - 1]), run[|run| - 1])
  }

  /** The results that count, in order. */
  function Counted(run: seq<Event>): (r: seq<OperationResult>) {
    if run == [] then []
    else
      var e := run[|run| - 1];
      Counted(run[..|run| - 1]) + (if e.Observe? && !e.result.ignored then [e.result] else [])
  }

  function Successes(results: seq<OperationResult>): (r: nat)
    ensures r <= |results|
  {
    if results == [] then 0
    else Successes(results[..|results| - 1]) + (if results[|results| - 1].success then 1 else 0)
  }

  lemma CountedStep(run: seq<Event>)
    requires run != []
    ensures var e, before := run[|run| - 1], Counted(run[..|run| - 1]);
      && Counted(run) == before + (if e.Observe? && !e.result.ignored then [e.result] else [])
      && Successes(Counted(run))
        == Successes(before) + (if e.Observe? && !e.result.ignored && e.result.success then 1 else 0)
  {
    var e, before := run[|run| - 1], Counted(run[..|run| - 1]);
    if e.Observe? && !e.result.ignored {
      assert (before + [e.result])[..|before|] == before;
    } else {
      assert before + [] == before;
    }
  }

  lemma NothingCounted()
    ensures Counted([]) == [] && Successes([]) == 0
  {}

  /** Each event counts at most one operation. */
  lemma CountersStep(s: Readings, e: Event)
    ensures var counts := e.Observe? && !e.result.ignored;
      var s' := Next(s, e);
      && s'.totalOps == s.totalOps + (if counts then 1 else 0)
      && s'.successfulOps == s.successfulOps + (if counts && e.result.success then 1 else 0)
      && s'.errorOps == s.errorOps + (if counts && !e.result.success then 1 else 0)
  {}

  /** The operations that were in the per-second window when it was closed, over all resets. */
  function Flushed(start: int, run: seq<Event>): (r: nat) {
    if run == [] then 0
    else
      var n := |run| - 1;
      var s := After(start, run[..n]);
      Flushed(start, run[..n]) + (if run[n].Update? && Resets(s, run[n].now) then s.opsThisSecond else 0)
  }

  /** Every point a chart was ever given: the values reported after each update. */
  function Points(start: int, run: seq<Event>): (r: (seq<DataPoint>, seq<DataPoint>, seq<DataPoint>)) {
    if run == [] then ([], [], [])
    else
      var n := |run| - 1;
      var (t, l, e) := Points(start, run[..n]);
      if run[n].Observe? then (t, l, e)
      else
        var s := After(start, run);
        var now := run[n].now;
        (t + [DataPoint(s.currentOPS, now)], l + [DataPoint(Milliseconds(s.latencyP99) as real, now)],
         e + [DataPoint(s.errorRate, now)])
  }

  /** The counters are a partition of the results that count. */
  lemma {:induction false} CountersConserved(start: int, run: seq<Event>)
    ensures var s := After(start, run);
      && s.totalOps == s.successfulOps + s.errorOps == |Counted(run)|
      && s.successfulOps == Successes(Counted(run))
  {
    hide Counted, Successes, Next;
    if run == [] {
      assert Counted(run) == [] && Successes([]) == 0 by {
        NothingCounted();
      }
    } else {
      var n := |run| - 1;
      CountersConserved(start, run[..n]);
      CountedStep(run);
      CountersStep(After(start, run[..n]), run[n]);
    }
  }

  /** The rate reported at a reset, times the seconds it covers, is what the reset flushed. */
  lemma ReportedRateIsFlushed(s: Readings, now: int, p99: int)
    requires Resets(s, now)
    ensures AfterUpdate(s, now, p99).currentOPS * Elapsed(s, now) == s.opsThisSecond as real
    ensures AfterUpdate(s, now, p99).opsThisSecond == 0
  {}

  /** No operation is reported twice or lost: what resets flushed and the running window add up to
      all operations. */
  lemma {:induction false} FlushesConserved(start: int, run: seq<Event>)
    ensures var s := After(start, run); Flushed(start, run) + s.opsThisSecond == s.totalOps
  {
    if run != [] {
      FlushesConserved(start, run[..|run| - 1]);
    }
  }

  ghost predicate CountsAt(run: seq<Event>, i: nat) {
    i < |run| && run[i].Observe? && !run[i].result.ignored
  }

  ghost predicate SucceedsAt(run: seq<Event>, i: nat) {
    CountsAt(run, i) && run[i].result.success
  }

  ghost function CountedAt(run: seq<Event>): (r: set<nat>) {
    set i: nat | i < |run| && CountsAt(run, i)
  }

  ghost function SucceededAt(run: seq<Event>): (r: set<nat>) {
    set i: nat | i < |run| && SucceedsAt(run, i)
  }

  lemma PlacesGrow(run: seq<Event>)
    requires run != []
    ensures var n := |run| - 1;
      && CountedAt(run) == CountedAt(run[..n]) + (if CountsAt(run, n) then {n} else {})
      && SucceededAt(run) == SucceededAt(run[..n]) + (if SucceedsAt(run, n) then {n} else {})
      && n !in CountedAt(run[..n]) && n !in SucceededAt(run[..n])
  {
    var n := |run| - 1;
    forall i: nat | i < n
      ensures CountsAt(run[..n], i) <==> CountsAt(run, i)
      ensures SucceedsAt(run[..n], i) <==> SucceedsAt(run, i)
    {
      assert run[..n][i] == run[i];
    }
  }

  /** The counted results are as many as the run has results that are not ignored, and the successes among
      them as many as those that succeeded. */
  lemma {:induction false} CountedPositions(run: seq<Event>)
    ensures |Counted(run)| == |CountedAt(run)| && Successes(Counted(run)) == |SucceededAt(run)|
  {
    hide Counted, Successes, CountedAt, SucceededAt;
    if run == [] {
      NothingCounted();
      NothingAt();
    } else {
      CountedPositions(run[..|run| - 1]);
      CountedStep(run);
      PlacesGrow(run);
    }
  }

  lemma NothingAt()
    ensures CountedAt([]) == {} && SucceededAt([]) == {}
  {}

  /** Results change none of what updates report. */
  lemma {:induction false} ReportsStand(start: int, run: seq<Event>, m: nat)
    requires m < |run| && forall i :: m < i < |run| ==> run[i].Observe?
    ensures var s, s' := After(start, run[..m + 1]), After(start, run);
      s'.errorRate == s.errorRate && s'.currentOPS == s.currentOPS && s'.latencyP99 == s.latencyP99
      && s'.throughput == s.throughput && s'.latency == s.latency && s'.errors == s.errors
  {
    var n := |run| - 1;
    if m < n {
      ReportsStand(start, run[..n], m);
      assert run[..n][..m + 1] == run[..m + 1];
    } else {
      assert run[..m + 1] == run;
    }
  }

  /** At any time the error rate is that of the results counted up to the last update, as a percentage; it is
      zero if there were none. */
  lemma ErrorRateExact(start: int, run: seq<Event>, m: nat)
    requires m < |run| && run[m].Update? && forall i :: m < i < |run| ==> run[i].Observe?
    ensures var counted := Counted(run[..m]);
      if |counted| > 0 then
        After(start, run).errorRate * |counted| as real == 100.0 * (|counted| - Successes(counted)) as real
      else After(start, run).errorRate == 0.0
  {
    hide After, Counted, Successes, AfterUpdate, Updated;
    ReportsStand(start, run, m);
    UpdateStep(start, run, m);
    CountersConserved(start, run[..m]);
    ErrorRateUpdated(After(start, run[..m]), run[m].now, run[m].p99);
    if |Counted(run[..m])| == 0 {
      NoErrorRate(start, run[..m]);
    }
  }

  lemma UpdateStep(start: int, run: seq<Event>, m: nat)
    requires m < |run| && run[m].Update?
    ensures After(start, run[..m + 1]) == AfterUpdate(After(start, run[..m]), run[m].now, run[m].p99)
  {
    assert run[..m + 1][..m] == run[..m];
  }

  lemma ErrorRateUpdated(s: Readings, now: int, p99: int)
    ensures var s' := AfterUpdate(s, now, p99);
      if s.totalOps > 0 then s'.errorRate * s.totalOps as real == 100.0 * s.errorOps as real
      else s'.errorRate == s.errorRate
  {
    UpdateMeans(s, now, p99);
  }

  lemma {:induction false} NoErrorRate(start: int, run: seq<Event>)
    requires |Counted(run)| == 0
    ensures After(start, run).errorRate == 0.0
  {
    if run != [] {
      var n := |run| - 1;
      CountedStep(run);
      NoErrorRate(start, run[..n]);
      CountersConserved(start, run[..n]);
    }
  }

  lemma PushKeepsLast(all: seq<DataPoint>, p: DataPoint)
    ensures Push(LastN(all, MAX_HISTORY_POINTS), p) == LastN(all + [p], MAX_HISTORY_POINTS)
  {}

  /** Each chart is exactly the last 60 points it was given, in order. */
  lemma {:induction false} ChartsAreWindows(start: int, run: seq<Event>)
    ensures var s := After(start, run);
      var (t, l, e) := Points(start, run);
      && s.throughput == LastN(t, MAX_HISTORY_POINTS)
      && s.latency == LastN(l, MAX_HISTORY_POINTS)
      && s.errors == LastN(e, MAX_HISTORY_POINTS)
      && |t| == |l| == |e|
  {
    if run != [] {
      var n := |run| - 1;
      ChartsAreWindows(start, run[..n]);
      if run[n].Update? {
        var s := After(start, run);
        var (t, l, e) := Points(start, run[..n]);
        PushKeepsLast(t, DataPoint(s.currentOPS, run[n].now));
        PushKeepsLast(l, DataPoint(Milliseconds(s.latencyP99) as real, run[n].now));
        PushKeepsLast(e, DataPoint(s.errorRate, run[n].now));
      }
    }
  }
}
