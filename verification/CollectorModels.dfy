/** The collector's bookkeeping objects, the connection monitor and the command log, and what their
    fields are as functions of everything that has happened to them. */
module CollectorModels {
  import opened Prelude

  function LastOf<T>(s: seq<T>, n: nat): seq<T> {
    if |s| <= n then s else s[|s| - n..]
  }

  // ---------------------------------------------------------------------------------------
  // Check histories. `began` is when the initial, disconnected period began.

  datatype CheckRecord = CheckRecord(at: int, success: bool, responseTime: real)

  datatype Interval = Interval(up: bool, from: int, to: int)

  const DEGRADED_MILLIS: real := 1000.0

  predicate Up(h: seq<CheckRecord>) {
    h != [] && h[|h| - 1].success
  }

  // When the current period began.
  function Since(began: int, h: seq<CheckRecord>): int {
    if h == [] then began
    else
      var before, c := h[..|h| - 1], h[|h| - 1];
      if c.success == Up(before) then Since(began, before) else c.at
  }

  // The completed periods, oldest first.
  function Completed(began: int, h: seq<CheckRecord>): seq<Interval> {
    if h == [] then []
    else
      var before, c := h[..|h| - 1], h[|h| - 1];
      Completed(began, before) +
        (if c.success == Up(before) then [] else [Interval(Up(before), Since(began, before), c.at)])
  }

  function SecondsOf(i: Interval): int {
    WholeSeconds(i.to - i.from)
  }

  // The current period, if a change of status ended it at this moment.
  function Closing(began: int, h: seq<CheckRecord>, at: int): Interval {
    Interval(Up(h), Since(began, h), at)
  }

  function TotalSeconds(ps: seq<Interval>, up: bool): int {
    if ps == [] then 0
    else TotalSeconds(ps[..|ps| - 1], up) + (if ps[|ps| - 1].up == up then SecondsOf(ps[|ps| - 1]) else 0)
  }

  // When the connection last went up (or down).
  function LastChange(h: seq<CheckRecord>, up: bool): Option<int> {
    if h == [] then None
    else
      var before, c := h[..|h| - 1], h[|h| - 1];
      if c.success == up && Up(before) != up then Some(c.at) else LastChange(before, up)
  }

  function Successes(h: seq<CheckRecord>): nat {
    if h == [] then 0 else Successes(h[..|h| - 1]) + (if h[|h| - 1].success then 1 else 0)
  }

  function TrailingFailures(h: seq<CheckRecord>): nat {
    if h == [] || h[|h| - 1].success then 0 else 1 + TrailingFailures(h[..|h| - 1])
  }

  function ResponseTimes(h: seq<CheckRecord>): seq<real> {
    seq(|h|, i requires 0 <= i < |h| => h[i].responseTime)
  }

  // Session length as seen by each check that finds or leaves the connection up.
  function LongestSession(began: int, h: seq<CheckRecord>): int {
    if h == [] then 0
    else
      var before, c := h[..|h| - 1], h[|h| - 1];
      var seen := if Up(before) then WholeSeconds(c.at - Since(began, before)) else 0;
      Max(LongestSession(began, before), seen)
  }

  // Completed outages count in full; an outage in progress counts once it shows a positive length.
  function ShortestOutage(began: int, h: seq<CheckRecord>): int {
    if h == [] then U64_MAX
    else
      var before, c := h[..|h| - 1], h[|h| - 1];
      var soFar := ShortestOutage(began, before);
      if c.success then
        (if Up(before) then soFar else Min(soFar, WholeSeconds(c.at - Since(began, before))))
      else
        var open := WholeSeconds(c.at - Since(began, h));
        if open > 0 then Min(soFar, open) else soFar
  }

  ghost predicate Monotone(began: int, h: seq<CheckRecord>) {
    && (forall i :: 0 <= i < |h| ==> began <= h[i].at)
    && (forall i, j :: 0 <= i < j < |h| ==> h[i].at <= h[j].at)
  }

  datatype Status = Connected | Degraded | Disconnected

  function Reported(h: seq<CheckRecord>): Status {
    if TrailingFailures(h) >= 3 then Disconnected
    else if TrailingFailures(h) >= 1 || (h != [] && h[|h| - 1].responseTime > DEGRADED_MILLIS) then Degraded
    else if Up(h) then Connected
    else Disconnected
  }

  datatype ConnectionStatus = ConnectionStatus(
    status: Status, uptimeDuration: int, uptimePercentage: real,
    lastConnected: Option<int>, lastDisconnected: Option<int>, totalChecks: nat, successfulChecks: nat,
    failedChecks: nat, averageResponseTime: real, responseTimeLastCheck: real, consecutiveFailures: nat,
    longestUptime: int, shortestDowntime: int)

  function SumOf(s: seq<real>): real {
    if s == [] then 0.0 else SumOf(s[..|s| - 1]) + s[|s| - 1]
  }

  lemma {:induction false} SumOfConcat(a: seq<real>, b: seq<real>)
    ensures SumOf(a + b) == SumOf(a) + SumOf(b)
  {
    if b == [] {
      assert a + b == a;
    } else {
      assert (a + b)[..|a + b| - 1] == a + b[..|b| - 1];
      SumOfConcat(a, b[..|b| - 1]);
    }
  }

  lemma SumOfOne(x: real)
    ensures SumOf([x]) == x
  {
    assert [x][..0] == [];
  }

  /** The monitor's fields, apart from its start time. */
  datatype Fields = Fields(
    connected: bool, lastConnected: Option<int>, lastDisconnected: Option<int>,
    totalUptime: int, totalDowntime: int, totalChecks: nat, successfulChecks: nat, failedChecks: nat,
    responseTimes: seq<real>, consecutiveFailures: nat, longestUptime: int, shortestDowntime: int,
    currentUptimeStart: Option<int>, currentDowntimeStart: Option<int>)

  function InitialFields(began: int): Fields {
    Fields(false, None, None, 0, 0, 0, 0, 0, [], 0, 0, U64_MAX, None, Some(began))
  }

  ghost predicate DescribesPeriods(f: Fields, began: int, h: seq<CheckRecord>) {
    && f.connected == Up(h)
    && f.lastConnected == LastChange(h, true) && f.lastDisconnected == LastChange(h, false)
    && f.currentUptimeStart == (if Up(h) then Some(Since(began, h)) else None)
    && f.currentDowntimeStart == (if Up(h) then None else Some(Since(began, h)))
    && f.totalUptime == TotalSeconds(Completed(began, h), true)
    && f.totalDowntime == TotalSeconds(Completed(began, h), false)
  }

  ghost predicate DescribesChecks(f: Fields, began: int, h: seq<CheckRecord>) {
    && f.totalChecks == |h| && f.successfulChecks == Successes(h) && f.successfulChecks + f.failedChecks == |h|
    && f.responseTimes == LastOf(ResponseTimes(h), 100)
    && f.consecutiveFailures == TrailingFailures(h)
    && f.longestUptime == LongestSession(began, h)
    && f.shortestDowntime == ShortestOutage(began, h)
  }

  class ConnectionMonitor {
    const startTime: int
    var connected: bool
    var lastConnected: Option<int>
    var lastDisconnected: Option<int>
    var totalUptime: int
    var totalDowntime: int
    var totalChecks: nat
    var successfulChecks: nat
    var failedChecks: nat
    var responseTimes: seq<real>
    var consecutiveFailures: nat
    var longestUptime: int
    var shortestDowntime: int
    var currentUptimeStart: Option<int>
    var currentDowntimeStart: Option<int>

    ghost function Snapshot(): Fields
      reads this
    {
      Fields(connected, lastConnected, lastDisconnected, totalUptime, totalDowntime, totalChecks, successfulChecks,
             failedChecks, responseTimes, consecutiveFailures, longestUptime, shortestDowntime,
             currentUptimeStart, currentDowntimeStart)
    }

    // The two clock readings of the constructor may differ.
    constructor (startTime: int, downtimeStart: int)
      ensures this.startTime == startTime && Snapshot() == InitialFields(downtimeStart)
    {
      this.startTime := startTime;
      connected, lastConnected, lastDisconnected := false, None, None;
      totalUptime, totalDowntime := 0, 0;
      totalChecks, successfulChecks, failedChecks, consecutiveFailures := 0, 0, 0, 0;
      responseTimes := [];
      longestUptime, shortestDowntime := 0, U64_MAX;
      currentUptimeStart, currentDowntimeStart := None, Some(downtimeStart);
    }

    method UpdateCheck(success: bool, responseTime: real, now: int)
      modifies this
      ensures Snapshot() == Updated(old(Snapshot()), CheckRecord(now, success, responseTime))
    {
      TakeSample(success, responseTime, now);
      if success {
        if !connected { GoUp(now); }
      } else {
        if connected { GoDown(now); }
      }
      ObserveCurrent(success, responseTime, now);
    }

    method TakeSample(success: bool, responseTime: real, now: int)
      modifies this
      ensures Snapshot() == Sampled(old(Snapshot()), CheckRecord(now, success, responseTime))
    {
      totalChecks := totalChecks + 1;
      if |responseTimes| >= 100 { responseTimes := responseTimes[1..]; }
      responseTimes := responseTimes + [responseTime];
      if success {
        successfulChecks := successfulChecks + 1;
        consecutiveFailures := 0;
      } else {
        failedChecks := failedChecks + 1;
        consecutiveFailures := consecutiveFailures + 1;
      }
    }

    method ObserveCurrent(success: bool, responseTime: real, now: int)
      modifies this
      ensures Snapshot() == Observed(old(Snapshot()), CheckRecord(now, success, responseTime))
    {
      if currentUptimeStart.Some? {
        var session := WholeSeconds(now - currentUptimeStart.value);
        if session > longestUptime { longestUptime := session; }
      }
      if currentDowntimeStart.Some? {
        var outage := WholeSeconds(now - currentDowntimeStart.value);
        if outage < shortestDowntime && outage > 0 { shortestDowntime := outage; }
      }
    }

    method GoUp(now: int)
      requires !connected
      modifies this
      ensures forall c: CheckRecord :: c.success && c.at == now ==> Snapshot() == Switched(old(Snapshot()), c)
    {
      connected := true;
      lastConnected := Some(now);
      if currentDowntimeStart.Some? {
        var outage := WholeSeconds(now - currentDowntimeStart.value);
        totalDowntime := totalDowntime + outage;
        if outage < shortestDowntime { shortestDowntime := outage; }
        currentDowntimeStart := None;
      }
      currentUptimeStart := Some(now);
    }

    method GoDown(now: int)
      requires connected
      modifies this
      ensures forall c: CheckRecord :: !c.success && c.at == now ==> Snapshot() == Switched(old(Snapshot()), c)
    {
      connected := false;
      lastDisconnected := Some(now);
      if currentUptimeStart.Some? {
        var session := WholeSeconds(now - currentUptimeStart.value);
        totalUptime := totalUptime + session;
        if session > longestUptime { longestUptime := session; }
        currentUptimeStart := None;
      }
      currentDowntimeStart := Some(now);
    }

    method GetStatus(now: int) returns (r: ConnectionStatus)
      ensures r == StatusOf(Snapshot(), startTime, now)
    {
      var totalTime := WholeSeconds(now - startTime);
      var session := 0;
      if currentUptimeStart.Some? { session := Max(WholeSeconds(now - currentUptimeStart.value), 0); }
      var percentage := 0.0;
      if totalTime > 0 {
        percentage := Clamp((totalUptime + session) as real / totalTime as real * 100.0);
      }
      var uptime := 0;
      if currentUptimeStart.Some? { uptime := WholeSeconds(now - currentUptimeStart.value); }
      var average, last := 0.0, 0.0;
      if responseTimes != [] {
        average := SumOf(responseTimes) / |responseTimes| as real;
        last := responseTimes[|responseTimes| - 1];
      }
      var status;
      if consecutiveFailures >= 3 {
        status := Disconnected;
      } else if consecutiveFailures >= 1 || last > DEGRADED_MILLIS {
        status := Degraded;
      } else {
        status := if connected then Connected else Disconnected;
      }
      r := ConnectionStatus(status, uptime, percentage, lastConnected, lastDisconnected, totalChecks, successfulChecks,
                            failedChecks, average, last, consecutiveFailures, longestUptime,
                            if shortestDowntime == U64_MAX then 0 else shortestDowntime);
    }
  }

  function Clamp(p: real): (r: real)
    ensures r <= 100.0 && (r == p || (r == 100.0 && p > 100.0))
  {
    if p < 100.0 then p else 100.0
  }

  function RawPercentage(up: int, total: int): real
    requires total > 0
  {
    up as real / total as real * 100.0
  }

  function Percentage(up: int, total: int): real {
    if total > 0 then Clamp(RawPercentage(up, total)) else 0.0
  }

  function StatusOf(f: Fields, startTime: int, now: int): ConnectionStatus {
    var total := WholeSeconds(now - startTime);
    var uptime := if f.currentUptimeStart.Some? then WholeSeconds(now - f.currentUptimeStart.value) else 0;
    var last := if f.responseTimes == [] then 0.0 else f.responseTimes[|f.responseTimes| - 1];
    ConnectionStatus(
      if f.consecutiveFailures >= 3 then Disconnected
      else if f.consecutiveFailures >= 1 || last > DEGRADED_MILLIS then Degraded
      else if f.connected then Connected else Disconnected,
      uptime,
      Percentage(f.totalUptime + Max(uptime, 0), total),
      f.lastConnected, f.lastDisconnected, f.totalChecks, f.successfulChecks, f.failedChecks,
      if f.responseTimes == [] then 0.0 else Average(f.responseTimes), last,
      f.consecutiveFailures, f.longestUptime,
      if f.shortestDowntime == U64_MAX then 0 else f.shortestDowntime)
  }

  // Seconds up: the completed sessions and the open one.
  function UptimeAt(began: int, h: seq<CheckRecord>, now: int): int {
    TotalSeconds(Completed(began, h), true) + (if Up(h) then SecondsOf(Closing(began, h, now)) else 0)
  }

  /** What a status report says about the history, field by field. The percentage is the true ratio, the
      clamp at 100 notwithstanding. */
  lemma StatusIsTrue(startTime: int, began: int, h: seq<CheckRecord>, now: int)
    requires startTime <= began && Monotone(began, h) && began <= now && (h != [] ==> h[|h| - 1].at <= now)
    ensures var r := StatusOf(AfterChecks(InitialFields(began), h), startTime, now);
            var total := WholeSeconds(now - startTime);
            var up := UptimeAt(began, h, now);
            && r.status == Reported(h)
            && (total > 0 ==> r.uptimePercentage == up as real / total as real * 100.0 <= 100.0)
            && (total <= 0 ==> r.uptimePercentage == 0.0)
            && CountsAreTrue(r, h) && PeriodsAreTrue(r, began, h, now) && ResponsesAreTrue(r, h)
  {
    var f := AfterChecks(InitialFields(began), h);
    MonitorFollowsHistory(began, h);
    SinceIsPast(began, h);
    UptimeWithinElapsed(startTime, began, h, now);
    StatusFromFields(f, startTime, began, h, now);
    PercentageUnclamped(UptimeAt(began, h, now), WholeSeconds(now - startTime));
    ResponsesFromFields(f, startTime, began, h, now);
  }

  predicate CountsAreTrue(r: ConnectionStatus, h: seq<CheckRecord>) {
    && r.totalChecks == |h| && r.successfulChecks == Successes(h) && r.failedChecks == |h| - Successes(h)
    && r.consecutiveFailures == TrailingFailures(h)
  }

  predicate PeriodsAreTrue(r: ConnectionStatus, began: int, h: seq<CheckRecord>, now: int) {
    && r.lastConnected == LastChange(h, true) && r.lastDisconnected == LastChange(h, false)
    && r.uptimeDuration == (if Up(h) then SecondsOf(Closing(began, h, now)) else 0)
    && r.longestUptime == LongestSession(began, h)
    && r.shortestDowntime == (if ShortestOutage(began, h) == U64_MAX then 0 else ShortestOutage(began, h))
  }

  // The average is over the last hundred checks.
  predicate ResponsesAreTrue(r: ConnectionStatus, h: seq<CheckRecord>) {
    var n := Min(|h|, 100);
    && r.responseTimeLastCheck == (if h == [] then 0.0 else h[|h| - 1].responseTime)
    && r.averageResponseTime == if h == [] then 0.0 else Average(ResponseTimes(h)[|h| - n..])
  }

  lemma StatusFromFields(f: Fields, startTime: int, began: int, h: seq<CheckRecord>, now: int)
    requires DescribesPeriods(f, began, h) && DescribesChecks(f, began, h) && Since(began, h) <= now
    ensures var r := StatusOf(f, startTime, now);
            && r.status == Reported(h)
            && CountsAreTrue(r, h) && PeriodsAreTrue(r, began, h, now)
            && r.uptimePercentage == Percentage(UptimeAt(began, h, now), WholeSeconds(now - startTime))
  {
    LastResponse(h);
  }

  lemma ResponsesFromFields(f: Fields, startTime: int, began: int, h: seq<CheckRecord>, now: int)
    requires DescribesChecks(f, began, h)
    ensures ResponsesAreTrue(StatusOf(f, startTime, now), h)
  {
    var last := LastOf(ResponseTimes(h), 100);
    LastResponse(h);
    assert last == ResponseTimes(h)[|h| - Min(|h|, 100)..];
  }

  lemma PercentageUnclamped(up: int, total: int)
    requires 0 <= up <= total
    ensures total > 0 ==> Percentage(up, total) == RawPercentage(up, total) <= 100.0
    ensures total == 0 ==> Percentage(up, total) == 0.0
  {
    if total > 0 { assert up as real / total as real <= 1.0; }
  }

  lemma LastResponse(h: seq<CheckRecord>)
    ensures var s := LastOf(ResponseTimes(h), 100);
            (h == [] ==> s == []) && (h != [] ==> s != [] && s[|s| - 1] == h[|h| - 1].responseTime)
  {
  }

  function Average(s: seq<real>): (r: real)
    requires s != []
    ensures r * |s| as real == SumOf(s)
  {
    SumOf(s) / |s| as real
  }

  // One check, on the fields: the sample and the counters, then a change of status, then the extremes.
  function Sampled(f: Fields, c: CheckRecord): Fields {
    f.(totalChecks := f.totalChecks + 1,
       responseTimes := (if |f.responseTimes| >= 100 then f.responseTimes[1..] else f.responseTimes) + [c.responseTime],
       successfulChecks := f.successfulChecks + (if c.success then 1 else 0),
       failedChecks := f.failedChecks + (if c.success then 0 else 1),
       consecutiveFailures := if c.success then 0 else f.consecutiveFailures + 1)
  }

  function Switched(f: Fields, c: CheckRecord): Fields {
    if c.success == f.connected then f
    else if c.success then
      var g := f.(connected := true, lastConnected := Some(c.at),
                  currentUptimeStart := Some(c.at), currentDowntimeStart := None);
      if f.currentDowntimeStart.None? then g
      else
        var outage := WholeSeconds(c.at - f.currentDowntimeStart.value);
        g.(totalDowntime := f.totalDowntime + outage, shortestDowntime := Min(outage, f.shortestDowntime))
    else
      var g := f.(connected := false, lastDisconnected := Some(c.at),
                  currentDowntimeStart := Some(c.at), currentUptimeStart := None);
      if f.currentUptimeStart.None? then g
      else
        var session := WholeSeconds(c.at - f.currentUptimeStart.value);
        g.(totalUptime := f.totalUptime + session, longestUptime := Max(f.longestUptime, session))
  }

  function Observed(f: Fields, c: CheckRecord): Fields {
    var session := if f.currentUptimeStart.Some? then WholeSeconds(c.at - f.currentUptimeStart.value) else 0;
    var outage := if f.currentDowntimeStart.Some? then WholeSeconds(c.at - f.currentDowntimeStart.value) else 0;
    f.(longestUptime := if f.currentUptimeStart.Some? then Max(f.longestUptime, session) else f.longestUptime,
       shortestDowntime := if outage > 0 then Min(outage, f.shortestDowntime) else f.shortestDowntime)
  }

  function Updated(f: Fields, c: CheckRecord): Fields {
    Observed(Switched(Sampled(f, c), c), c)
  }

  function AfterChecks(f: Fields, h: seq<CheckRecord>): Fields {
    if h == [] then f else Updated(AfterChecks(f, h[..|h| - 1]), h[|h| - 1])
  }

  lemma UpdatedDescribesPeriods(f: Fields, began: int, h: seq<CheckRecord>, c: CheckRecord)
    requires DescribesPeriods(f, began, h)
    ensures DescribesPeriods(Updated(f, c), began, h + [c])
  {
    PeriodStep(began, h, c);
    Extend(h, c);
  }

  lemma UpdatedDescribesChecks(f: Fields, began: int, h: seq<CheckRecord>, c: CheckRecord)
    requires DescribesPeriods(f, began, h) && DescribesChecks(f, began, h)
    ensures DescribesChecks(Updated(f, c), began, h + [c])
  {
    CountStep(h, c);
    LongestStep(began, h, c);
    ShortestStep(began, h, c);
    LastOfAppend(ResponseTimes(h), c.responseTime, 100);
  }

  /** After any history of checks, every field of the monitor is the stated function of that history. */
  lemma {:induction false} MonitorFollowsHistory(began: int, h: seq<CheckRecord>)
    ensures DescribesPeriods(AfterChecks(InitialFields(began), h), began, h)
    ensures DescribesChecks(AfterChecks(InitialFields(began), h), began, h)
  {
    if h != [] {
      var before, c := h[..|h| - 1], h[|h| - 1];
      MonitorFollowsHistory(began, before);
      UpdatedDescribesPeriods(AfterChecks(InitialFields(began), before), began, before, c);
      UpdatedDescribesChecks(AfterChecks(InitialFields(began), before), began, before, c);
      assert h == before + [c];
    }
  }

  lemma Extend(h: seq<CheckRecord>, c: CheckRecord)
    ensures (h + [c])[..|h|] == h && (h + [c])[|h|] == c
  {
  }

  lemma LastOfAppend<T>(s: seq<T>, x: T, n: nat)
    requires n > 0
    ensures LastOf(s + [x], n) == (if |LastOf(s, n)| >= n then LastOf(s, n)[1..] else LastOf(s, n)) + [x]
  {
  }

  lemma TotalOfAppend(ps: seq<Interval>, i: Interval, up: bool)
    ensures TotalSeconds(ps + [i], up) == TotalSeconds(ps, up) + if i.up == up then SecondsOf(i) else 0
  {
    assert (ps + [i])[..|ps|] == ps;
  }

  lemma PeriodStep(began: int, h: seq<CheckRecord>, c: CheckRecord)
    ensures var h' := h + [c];
            var i := Interval(Up(h), Since(began, h), c.at);
            && Up(h') == c.success
            && Since(began, h') == (if c.success == Up(h) then Since(began, h) else c.at)
            && Completed(began, h') == Completed(began, h) + (if c.success == Up(h) then [] else [i])
            && (forall up :: TotalSeconds(Completed(began, h'), up) == TotalSeconds(Completed(began, h), up)
                  + if c.success != Up(h) && up == Up(h) then SecondsOf(i) else 0)
  {
    Extend(h, c);
    var i := Interval(Up(h), Since(began, h), c.at);
    TotalOfAppend(Completed(began, h), i, true);
    TotalOfAppend(Completed(began, h), i, false);
    assert Completed(began, h) + [] == Completed(began, h);
  }

  lemma CountStep(h: seq<CheckRecord>, c: CheckRecord)
    ensures Successes(h + [c]) == Successes(h) + if c.success then 1 else 0
    ensures TrailingFailures(h + [c]) == if c.success then 0 else 1 + TrailingFailures(h)
    ensures ResponseTimes(h + [c]) == ResponseTimes(h) + [c.responseTime]
  {
    Extend(h, c);
  }

  lemma LongestStep(began: int, h: seq<CheckRecord>, c: CheckRecord)
    ensures LongestSession(began, h + [c]) ==
            Max(LongestSession(began, h), if Up(h) then WholeSeconds(c.at - Since(began, h)) else 0)
    ensures LongestSession(began, h) >= 0
  {
    Extend(h, c);
    LongestNonNegative(began, h);
  }

  lemma ShortestStep(began: int, h: seq<CheckRecord>, c: CheckRecord)
    ensures var len := WholeSeconds(c.at - Since(began, h));
            ShortestOutage(began, h + [c]) ==
            if Up(h) || (!c.success && len <= 0) then ShortestOutage(began, h) else Min(ShortestOutage(began, h), len)
  {
    Extend(h, c);
    var h' := h + [c];
    assert Since(began, h') == if c.success == Up(h) then Since(began, h) else c.at;
    assert c.at - c.at == 0 && WholeSeconds(0) == 0;
  }

  lemma {:induction false} LongestNonNegative(began: int, h: seq<CheckRecord>)
    ensures LongestSession(began, h) >= 0
  {
    if h != [] { LongestNonNegative(began, h[..|h| - 1]); }
  }

  // ---------------------------------------------------------------------------------------
  // Time accounting.

  lemma {:induction false} SinceIsPast(began: int, h: seq<CheckRecord>)
    requires Monotone(began, h)
    ensures began <= Since(began, h)
    ensures h != [] ==> Since(began, h) <= h[|h| - 1].at
    ensures h == [] ==> Since(began, h) == began
  {
    if h != [] { SinceIsPast(began, h[..|h| - 1]); }
  }

  lemma Truncation(i: Interval)
    requires i.from <= i.to
    ensures 0 <= SecondsOf(i) && Seconds(SecondsOf(i)) <= i.to - i.from < Seconds(SecondsOf(i) + 1)
  {
  }

  // n periods counted at whole seconds fall short of the time between two instants by less than a second each.
  predicate Tiles(counted: int, n: nat, from: int, to: int) {
    Seconds(counted) <= to - from <= Seconds(counted + n) && (n > 0 ==> to - from < Seconds(counted + n))
  }

  lemma TileStep(counted: int, n: nat, from: int, i: Interval, seconds: int)
    requires Tiles(counted, n, from, i.from)
    requires Seconds(seconds) <= i.to - i.from < Seconds(seconds + 1)
    ensures Tiles(counted + seconds, n + 1, from, i.to)
  {
  }

  lemma CheckEndsPeriod(began: int, h: seq<CheckRecord>)
    requires Monotone(began, h) && h != []
    ensures Monotone(began, h[..|h| - 1]) && began <= Since(began, h[..|h| - 1]) <= h[|h| - 1].at
  {
    SinceIsPast(began, h[..|h| - 1]);
  }

  function Counted(began: int, h: seq<CheckRecord>): int {
    TotalSeconds(Completed(began, h), true) + TotalSeconds(Completed(began, h), false)
  }

  lemma CountedStep(began: int, h: seq<CheckRecord>, c: CheckRecord)
    ensures c.success == Up(h) ==>
              && Counted(began, h + [c]) == Counted(began, h) && Since(began, h + [c]) == Since(began, h)
              && |Completed(began, h + [c])| == |Completed(began, h)|
    ensures c.success != Up(h) ==>
              && Counted(began, h + [c]) == Counted(began, h) + SecondsOf(Closing(began, h, c.at))
              && Since(began, h + [c]) == c.at && |Completed(began, h + [c])| == |Completed(began, h)| + 1
  {
    PeriodStep(began, h, c);
    var i := Closing(began, h, c.at);
    if c.success == Up(h) {
      assert Completed(began, h) + [] == Completed(began, h);
    } else {
      TotalOfAppend(Completed(began, h), i, true);
      TotalOfAppend(Completed(began, h), i, false);
    }
  }

  ghost predicate PeriodsTiled(began: int, h: seq<CheckRecord>) {
    Tiles(Counted(began, h), |Completed(began, h)|, began, Since(began, h))
  }

  lemma CheckKeepsTiling(began: int, h: seq<CheckRecord>, c: CheckRecord)
    requires PeriodsTiled(began, h) && Since(began, h) <= c.at
    ensures PeriodsTiled(began, h + [c])
  {
    CountedStep(began, h, c);
    var i := Closing(began, h, c.at);
    Truncation(i);
    TileStep(Counted(began, h), |Completed(began, h)|, began, i, SecondsOf(i));
  }

  /** The completed periods tile the time from the beginning to the current period. */
  lemma {:induction false} PeriodsTile(began: int, h: seq<CheckRecord>)
    requires Monotone(began, h)
    ensures PeriodsTiled(began, h)
  {
    if h == [] {
      assert Counted(began, []) == 0 && Since(began, []) == began;
    } else {
      var before, c := h[..|h| - 1], h[|h| - 1];
      CheckEndsPeriod(began, h);
      PeriodsTile(began, before);
      CheckKeepsTiling(began, before, c);
      assert h == before + [c];
    }
  }

  lemma {:induction false} TotalsNonNegative(began: int, h: seq<CheckRecord>, up: bool)
    requires Monotone(began, h)
    ensures TotalSeconds(Completed(began, h), up) >= 0
  {
    if h != [] {
      var before, c := h[..|h| - 1], h[|h| - 1];
      CheckEndsPeriod(began, h);
      TotalsNonNegative(began, before, up);
      assert h == before + [c];
      PeriodStep(began, before, c);
      Truncation(Closing(began, before, c.at));
    }
  }

  /** Accounted time never exceeds elapsed time, and misses less than a second for each completed period
      and the open one, plus the gap between the two constructor clock readings. */
  lemma TimeIsAccountedFor(start: int, began: int, h: seq<CheckRecord>, now: int)
    requires start <= began && Monotone(began, h) && Since(began, h) <= now
    ensures var counted := Counted(began, h) + SecondsOf(Closing(began, h, now));
            && Seconds(counted) <= now - start
            && now - start < Seconds(counted + (|Completed(began, h)| + 1)) + (began - start)
  {
    var i := Closing(began, h, now);
    PeriodsTile(began, h);
    Truncation(i);
    TileStep(Counted(began, h), |Completed(began, h)|, began, i, SecondsOf(i));
    TilesFrom(Counted(began, h) + SecondsOf(i), |Completed(began, h)| + 1, start, began, now);
  }

  lemma TilesFrom(counted: int, n: nat, start: int, from: int, to: int)
    requires start <= from && Tiles(counted, n, from, to) && n > 0
    ensures Seconds(counted) <= to - start < Seconds(counted + n) + (from - start)
  {
  }

  lemma FitsInWhole(n: int, d: int)
    requires Seconds(n) <= d && d >= 0
    ensures n <= WholeSeconds(d)
  {
  }

  /** So uptime never exceeds the elapsed whole seconds and the percentage is never clamped. */
  lemma UptimeWithinElapsed(start: int, began: int, h: seq<CheckRecord>, now: int)
    requires start <= began && Monotone(began, h) && Since(began, h) <= now
    ensures 0 <= UptimeAt(began, h, now) <= WholeSeconds(now - start)
  {
    var i := Closing(began, h, now);
    TotalsNonNegative(began, h, true);
    TotalsNonNegative(began, h, false);
    SinceIsPast(began, h);
    Truncation(i);
    TimeIsAccountedFor(start, began, h, now);
    FitsInWhole(Counted(began, h) + SecondsOf(i), now - start);
  }

  // ---------------------------------------------------------------------------------------
  // Extremes.

  /** The longest session is the longest of the completed ones and of the open one as last checked. */
  lemma {:induction false} LongestSessionIsMaximum(began: int, h: seq<CheckRecord>)
    requires Monotone(began, h)
    ensures var longest := LongestSession(began, h);
            var done := Completed(began, h);
            var open := if Up(h) then WholeSeconds(h[|h| - 1].at - Since(began, h)) else 0;
            && (forall i :: 0 <= i < |done| && done[i].up ==> SecondsOf(done[i]) <= longest)
            && 0 <= open <= longest
            && (longest == open || exists i :: 0 <= i < |done| && done[i].up && SecondsOf(done[i]) == longest)
  {
    if h != [] {
      var before, c := h[..|h| - 1], h[|h| - 1];
      LongestSessionIsMaximum(began, before);
      SinceIsPast(began, before);
      SinceIsPast(began, h);
      var prior, done := Completed(began, before), Completed(began, h);
      assert before != [] ==> before[|before| - 1].at <= c.at;
      assert forall i :: 0 <= i < |prior| ==> done[i] == prior[i];
      if Up(before) && !c.success {
        assert done[|prior|] == Interval(true, Since(began, before), c.at);
      }
      var seen := if Up(before) then WholeSeconds(c.at - Since(began, before)) else 0;
      if LongestSession(began, h) != seen {
        assert LongestSession(began, h) == LongestSession(began, before);
        var open := if Up(before) then WholeSeconds(before[|before| - 1].at - Since(began, before)) else 0;
        assert open <= seen;
        if LongestSession(began, before) != open {
          var i :| 0 <= i < |prior| && prior[i].up && SecondsOf(prior[i]) == LongestSession(began, before);
          assert done[i] == prior[i];
        }
      }
    }
  }

  // Check k (counted from one) closed an outage of this length, or found one in progress at it.
  ghost predicate OutageSeenAt(began: int, h: seq<CheckRecord>, k: nat, len: int) {
    && 0 < k <= |h| && !Up(h[..k - 1]) && WholeSeconds(h[k - 1].at - Since(began, h[..k - 1])) == len
    && (h[k - 1].success || len > 0)
  }

  lemma SeenBefore(began: int, h: seq<CheckRecord>, k: nat, len: int)
    requires h != [] && k < |h|
    ensures OutageSeenAt(began, h, k, len) <==> OutageSeenAt(began, h[..|h| - 1], k, len)
  {
    if k > 0 { assert h[..|h| - 1][..k - 1] == h[..k - 1]; }
  }

  /** The shortest downtime only ever decreases, and bounds every reading from below: the completed
      outages and those that a check found in progress. */
  lemma {:induction false} ShortestOutageIsLowerBound(began: int, h: seq<CheckRecord>, n: nat)
    requires n <= |h|
    ensures ShortestOutage(began, h) <= ShortestOutage(began, h[..n])
    ensures forall i :: 0 <= i < |Completed(began, h)| && !Completed(began, h)[i].up ==>
              ShortestOutage(began, h) <= SecondsOf(Completed(began, h)[i])
    ensures forall k: nat, len :: OutageSeenAt(began, h, k, len) ==> ShortestOutage(began, h) <= len
  {
    if h == [] {
      assert h[..n] == h;
    } else {
      var before, c := h[..|h| - 1], h[|h| - 1];
      if n == |h| { assert h[..n] == h; } else { assert before[..n] == h[..n]; }
      ShortestOutageIsLowerBound(began, before, if n == |h| then |before| else n);
      assert before[..|before|] == before && h == before + [c];
      ShortestStep(began, before, c);
      forall k: nat, len | OutageSeenAt(began, h, k, len) ensures ShortestOutage(began, h) <= len {
        if k < |h| { SeenBefore(began, h, k, len); }
      }
    }
  }

  /** It is attained: either nothing has been seen, or some check saw an outage of just that length. */
  lemma {:induction false} ShortestOutageIsAttained(began: int, h: seq<CheckRecord>)
    ensures ShortestOutage(began, h) == U64_MAX || exists k: nat :: OutageSeenAt(began, h, k, ShortestOutage(began, h))
  {
    if h != [] {
      var n := |h|;
      var before, c := h[..n - 1], h[n - 1];
      assert h == before + [c];
      ShortestOutageIsAttained(began, before);
      ShortestStep(began, before, c);
      var s := ShortestOutage(began, h);
      if s != ShortestOutage(began, before) {
        assert OutageSeenAt(began, h, n, s);
      } else if s != U64_MAX {
        var k: nat :| OutageSeenAt(began, before, k, s);
        SeenBefore(began, h, k, s);
      }
    }
  }

  // A check that closes an outage makes it a completed one of that length.
  lemma {:induction false} ClosedOutageIsCompleted(began: int, h: seq<CheckRecord>, k: nat, len: int) returns (i: nat)
    requires OutageSeenAt(began, h, k, len) && h[k - 1].success
    ensures i < |Completed(began, h)| && !Completed(began, h)[i].up && SecondsOf(Completed(began, h)[i]) == len
  {
    var before, c := h[..|h| - 1], h[|h| - 1];
    assert h == before + [c];
    PeriodStep(began, before, c);
    if k == |h| {
      i := |Completed(began, before)|;
    } else {
      SeenBefore(began, h, k, len);
      i := ClosedOutageIsCompleted(began, before, k, len);
    }
  }

  /** It is the length of the shortest completed outage exactly when no failing check found an outage in
      progress at a shorter, positive length. */
  lemma ShortestIsOutageIff(began: int, h: seq<CheckRecord>, i: nat)
    requires i < |Completed(began, h)| && !Completed(began, h)[i].up
    requires forall j :: 0 <= j < |Completed(began, h)| && !Completed(began, h)[j].up ==>
               SecondsOf(Completed(began, h)[i]) <= SecondsOf(Completed(began, h)[j])
    requires SecondsOf(Completed(began, h)[i]) <= U64_MAX
    ensures ShortestOutage(began, h) == SecondsOf(Completed(began, h)[i]) <==>
            forall k: nat, len :: OutageSeenAt(began, h, k, len) && !h[k - 1].success ==>
              SecondsOf(Completed(began, h)[i]) <= len
  {
    var shortest, least := ShortestOutage(began, h), SecondsOf(Completed(began, h)[i]);
    ShortestOutageIsLowerBound(began, h, |h|);
    ShortestOutageIsAttained(began, h);
    if shortest != least {
      var k: nat :| OutageSeenAt(began, h, k, shortest);
      if h[k - 1].success { var j := ClosedOutageIsCompleted(began, h, k, shortest); }
    }
  }

  /** An outage in progress is counted at the length the first check sees, so the figure can be far below
      every completed outage: one hour-long outage observed after ten seconds is reported as ten. */
  lemma OngoingOutageUnderstates()
    ensures var h := [CheckRecord(Seconds(10), false, 1.0), CheckRecord(Seconds(3600), true, 1.0)];
            Completed(0, h) == [Interval(false, 0, Seconds(3600))]
            && SecondsOf(Completed(0, h)[0]) == 3600 && ShortestOutage(0, h) == 10
  {
    var a, b := CheckRecord(Seconds(10), false, 1.0), CheckRecord(Seconds(3600), true, 1.0);
    assert [] + [a] == [a] && [a] + [b] == [a, b];
    PeriodStep(0, [], a);
    PeriodStep(0, [a], b);
    ShortestStep(0, [], a);
    ShortestStep(0, [a], b);
  }

  lemma {:induction false} TrailingFailuresOfSuffix(h: seq<CheckRecord>, n: nat)
    requires n <= |h|
    ensures TrailingFailures(h[|h| - n..]) == if TrailingFailures(h) < n then TrailingFailures(h) else n
    decreases n
  {
    if n > 0 {
      var tail := h[|h| - n..];
      assert tail[..n - 1] == h[..|h| - 1][|h| - n..];
      TrailingFailuresOfSuffix(h[..|h| - 1], n - 1);
    }
  }

  /** The reported status, from the last checks: before any check, disconnected; after a success, connected,
      or degraded if the answer took over a second; after a failure, degraded, or disconnected at the third
      in a row. */
  lemma ReportedByLastChecks(h: seq<CheckRecord>)
    ensures h == [] ==> Reported(h) == Disconnected
    ensures h != [] && h[|h| - 1].success ==>
              Reported(h) == if h[|h| - 1].responseTime > 1000.0 then Degraded else Connected
    ensures h != [] && !h[|h| - 1].success ==>
              Reported(h) == if |h| >= 3 && !h[|h| - 2].success && !h[|h| - 3].success then Disconnected else Degraded
  {
    if h != [] && !h[|h| - 1].success {
      var h1 := h[..|h| - 1];
      assert TrailingFailures(h) == 1 + TrailingFailures(h1);
      if |h| >= 2 && !h[|h| - 2].success {
        var h2 := h1[..|h1| - 1];
        assert h1[|h1| - 1] == h[|h| - 2] && TrailingFailures(h1) == 1 + TrailingFailures(h2);
        if |h| >= 3 { assert h2[|h2| - 1] == h[|h| - 3]; }
      }
    }
  }

  /** The period under way began when the status last changed, or at the beginning. */
  lemma {:induction false} SinceIsLastChange(began: int, h: seq<CheckRecord>)
    ensures Since(began, h) == if LastChange(h, Up(h)).Some? then LastChange(h, Up(h)).value else began
    ensures LastChange(h, Up(h)).None? ==> !Up(h)
  {
    if h != [] { SinceIsLastChange(began, h[..|h| - 1]); }
  }

  // Check i found the connection up (down) when the one before had not.
  predicate Switches(h: seq<CheckRecord>, i: nat, up: bool) {
    i < |h| && h[i].success == up && Up(h[..i]) != up
  }

  lemma SwitchesBefore(h: seq<CheckRecord>, up: bool)
    requires h != []
    ensures forall i: nat :: i < |h| - 1 ==> (Switches(h[..|h| - 1], i, up) <==> Switches(h, i, up))
  {
    var n := |h| - 1;
    forall i: nat | i < n ensures Switches(h[..n], i, up) <==> Switches(h, i, up) {
      assert h[..n][..i] == h[..i] && h[..n][i] == h[i];
    }
  }

  /** The status last went up (down) at the last check that switched it so. */
  lemma {:induction false} LastChangeIsLast(h: seq<CheckRecord>, up: bool)
    ensures match LastChange(h, up)
            case None => forall i: nat :: !Switches(h, i, up)
            case Some(t) => exists i: nat :: && Switches(h, i, up) && h[i].at == t
                                             && forall j: nat :: i < j ==> !Switches(h, j, up)
  {
    if h != [] {
      var n := |h| - 1;
      LastChangeIsLast(h[..n], up);
      SwitchesBefore(h, up);
      if Switches(h, n, up) {
        assert LastChange(h, up) == Some(h[n].at);
      } else if LastChange(h, up).Some? {
        var i: nat :| && Switches(h[..n], i, up) && h[i].at == LastChange(h, up).value
                      && forall j: nat :: i < j ==> !Switches(h[..n], j, up);
        assert Switches(h, i, up);
      }
    }
  }

  /** The reported status depends on the last three checks only. */
  lemma ReportedDependsOnLastThree(h: seq<CheckRecord>)
    ensures Reported(h) == Reported(LastOf(h, 3))
  {
    if |h| > 3 { TrailingFailuresOfSuffix(h, 3); }
  }

  // ---------------------------------------------------------------------------------------
  // The command log.

  datatype DebugCommand = DebugCommand(receivedAt: int, cmdType: string, ip: string, reason: string, success: bool)

  function Applied(h: seq<DebugCommand>, cmdType: string): nat {
    if h == [] then 0
    else Applied(h[..|h| - 1], cmdType) + (if h[|h| - 1].cmdType == cmdType && h[|h| - 1].success then 1 else 0)
  }

  lemma {:induction false} AppliedOfConcat(a: seq<DebugCommand>, b: seq<DebugCommand>, cmdType: string)
    ensures Applied(a + b, cmdType) == Applied(a, cmdType) + Applied(b, cmdType)
  {
    if b == [] {
      assert a + b == a;
    } else {
      assert (a + b)[..|a + b| - 1] == a + b[..|b| - 1];
      AppliedOfConcat(a, b[..|b| - 1], cmdType);
    }
  }

  lemma AppliedStep(h: seq<DebugCommand>, c: DebugCommand, cmdType: string)
    ensures Applied(h + [c], cmdType) == Applied(h, cmdType) + if c.cmdType == cmdType && c.success then 1 else 0
  {
    AppliedOfConcat(h, [c], cmdType);
    assert [c][..0] == [];
  }

  class WsDebugState {
    ghost var history: seq<DebugCommand>
    var lastCommandAt: Option<int>
    var commandsReceived: nat
    var blocksApplied: nat
    var unblocksApplied: nat
    var recentCommands: seq<DebugCommand>

    ghost predicate Valid()
      reads this
    {
      && commandsReceived == |history|
      && blocksApplied == Applied(history, "block_command") && unblocksApplied == Applied(history, "unblock_command")
      && recentCommands == LastOf(history, 50)
      && lastCommandAt == (if history == [] then None else Some(history[|history| - 1].receivedAt))
    }

    constructor ()
      ensures Valid() && history == []
    {
      history, lastCommandAt, recentCommands := [], None, [];
      commandsReceived, blocksApplied, unblocksApplied := 0, 0, 0;
    }

    method RecordCommand(cmdType: string, ip: string, reason: string, success: bool, now: int)
      requires Valid()
      modifies this
      ensures Valid() && history == old(history) + [DebugCommand(now, cmdType, ip, reason, success)]
      ensures |recentCommands| == Min(|history|, 50) && recentCommands == history[|history| - |recentCommands|..]
    {
      var c := DebugCommand(now, cmdType, ip, reason, success);
      AppliedStep(history, c, "block_command");
      AppliedStep(history, c, "unblock_command");
      LastOfAppend(history, c, 50);
      commandsReceived := commandsReceived + 1;
      lastCommandAt := Some(now);
      if cmdType == "block_command" && success { blocksApplied := blocksApplied + 1; }
      if cmdType == "unblock_command" && success { unblocksApplied := unblocksApplied + 1; }
      if |recentCommands| >= 50 { recentCommands := recentCommands[1..]; }
      recentCommands := recentCommands + [c];
      history := history + [c];
    }
  }
}
