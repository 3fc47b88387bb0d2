/** Forwarding events to the cloud: which log lines become events, how they are batched, and what the
    shared counters add up to while sends and handlers interleave. */
module Collector {
  import opened Prelude
  import opened Strings

  // The members of a decoded EVE record that are looked at; absent or ill-typed ones are None.
  datatype EveRecord = EveRecord(
    eventType: Option<string>, signature: Option<string>, severity: Option<nat>, timestamp: Option<int>,
    srcIp: Option<string>, destIp: Option<string>, srcPort: Option<nat>, destPort: Option<nat>, proto: Option<string>)

  // A missing timestamp means "when parsed".
  datatype TrafficEvent = TrafficEvent(
    timestamp: Option<int>, sourceIp: string, destIp: string, sourcePort: nat, destPort: nat,
    protocol: string, threatLevel: nat, eventType: string)

  function Or<T>(o: Option<T>, default: T): T {
    if o.Some? then o.value else default
  }

  predicate Noise(signature: string) {
    "SURICATA " <= signature || "ET INFO " <= signature
  }

  function ThreatLevel(severity: Option<nat>): nat {
    if severity == Some(1) then 9 else if severity == Some(2) then 6 else if severity == Some(3) then 3 else 1
  }

  // `decode` stands for the JSON decoder.
  function ParseEveLine(line: string, decode: string -> Option<EveRecord>): Option<TrafficEvent> {
    match decode(line)
    case None => None
    case Some(v) =>
      if v.eventType != Some("alert") then None
      else if Noise(Or(v.signature, "")) then None
      else if Or(v.srcIp, "") == "" then None
      else Some(TrafficEvent(v.timestamp, v.srcIp.value, Or(v.destIp, ""), Or(v.srcPort, 0) % 0x1_0000,
                             Or(v.destPort, 0) % 0x1_0000, Or(v.proto, "unknown"), ThreatLevel(v.severity), "alert"))
  }

  // What one delivered line contributes; blank lines are skipped before decoding.
  function EventsOf(line: string, decode: string -> Option<EveRecord>): seq<TrafficEvent> {
    if Trim(line) == "" then []
    else match ParseEveLine(Trim(line), decode)
      case None => []
      case Some(e) => [e]
  }

  function ParsedFrom(lines: seq<string>, decode: string -> Option<EveRecord>): seq<TrafficEvent> {
    if lines == [] then [] else ParsedFrom(lines[..|lines| - 1], decode) + EventsOf(lines[|lines| - 1], decode)
  }

  function Concat(batches: seq<seq<TrafficEvent>>): seq<TrafficEvent> {
    if batches == [] then [] else Concat(batches[..|batches| - 1]) + batches[|batches| - 1]
  }

  lemma ParsedFromAppend(lines: seq<string>, line: string, decode: string -> Option<EveRecord>)
    ensures ParsedFrom(lines + [line], decode) == ParsedFrom(lines, decode) + EventsOf(line, decode)
  {
    assert (lines + [line])[..|lines|] == lines;
  }

  lemma ConcatAppend(batches: seq<seq<TrafficEvent>>, b: seq<TrafficEvent>)
    ensures Concat(batches + [b]) == Concat(batches) + b
  {
    assert (batches + [b])[..|batches|] == batches;
  }

  // An alert that is not engine noise and names its source.
  predicate Relevant(v: EveRecord) {
    && v.eventType == Some("alert")
    && (v.signature.Some? ==> !("SURICATA " <= v.signature.value) && !("ET INFO " <= v.signature.value))
    && v.srcIp.Some? && v.srcIp.value != ""
  }

  predicate Qualifies(line: string, decode: string -> Option<EveRecord>) {
    var v := decode(Trim(line));
    Trim(line) != "" && v.Some? && Relevant(v.value)
  }

  /** A line yields one event exactly when it qualifies, made of its fields: ports cut to 16 bits, empty
      or "unknown" where a field is absent, severities 1, 2, 3 and all others as levels 9, 6, 3 and 1. */
  lemma EventsOfLine(line: string, decode: string -> Option<EveRecord>)
    ensures |EventsOf(line, decode)| == if Qualifies(line, decode) then 1 else 0
    ensures Qualifies(line, decode) ==>
              var v, e := decode(Trim(line)).value, EventsOf(line, decode)[0];
              && e.sourceIp == v.srcIp.value && e.timestamp == v.timestamp && e.eventType == "alert"
              && e.destIp == (if v.destIp.Some? then v.destIp.value else "")
              && e.sourcePort == (if v.srcPort.Some? then v.srcPort.value % 65536 else 0)
              && e.destPort == (if v.destPort.Some? then v.destPort.value % 65536 else 0)
              && e.protocol == (if v.proto.Some? then v.proto.value else "unknown")
              && e.threatLevel == match v.severity
                                  case Some(1) => 9
                                  case Some(2) => 6
                                  case Some(3) => 3
                                  case _ => 1
  {
  }

  const BATCH_SIZE: nat := 50

  // ---------------------------------------------------------------------------------------
  // The tail loop by itself.

  class Metrics {
    var collected: nat
    var sent: nat
    var failed: nat

    constructor ()
      ensures collected == sent == failed == 0
    {
      collected, sent, failed := 0, 0, 0;
    }
  }

  /** What the loop is woken up by. */
  datatype Wake = Line(text: string) | EndOfFile | ReadError | Tick

  function LinesIn(wakes: seq<Wake>): seq<string> {
    if wakes == [] then []
    else LinesIn(wakes[..|wakes| - 1]) + (if wakes[|wakes| - 1].Line? then [wakes[|wakes| - 1].text] else [])
  }

  ghost predicate GoodBatches(batches: seq<seq<TrafficEvent>>) {
    forall i :: 0 <= i < |batches| ==> 1 <= |batches[i]| <= BATCH_SIZE
  }

  class Tail {
    const metrics: Metrics
    var batch: seq<TrafficEvent>
    ghost var flushed: seq<seq<TrafficEvent>>
    ghost var delivered: seq<string>

    constructor (metrics: Metrics)
      ensures this.metrics == metrics && batch == [] && flushed == [] && delivered == []
    {
      this.metrics := metrics;
      batch, flushed, delivered := [], [], [];
    }

    // The loop between two wake-ups, as a state of the interleaving model below.
    ghost function View(): State
      reads this, metrics
    {
      State(metrics.collected, metrics.sent, metrics.failed, [], 0, Waiting, batch, flushed, delivered)
    }

    /** Everything in the buffer is sent as one batch, and counted before and after. */
    method FlushBatch(accepted: bool)
      modifies this, metrics
      ensures batch == [] && flushed == old(flushed) + [old(batch)] && delivered == old(delivered)
      ensures metrics.collected == old(metrics.collected) + |old(batch)|
      ensures metrics.sent == old(metrics.sent) + if accepted then |old(batch)| else 0
      ensures metrics.failed == old(metrics.failed) + if accepted then 0 else |old(batch)|
    {
      var events := batch;
      batch := [];
      flushed := flushed + [events];
      var count := |events|;
      metrics.collected := metrics.collected + count;
      if accepted {
        metrics.sent := metrics.sent + count;
      } else {
        metrics.failed := metrics.failed + count;
      }
    }

    method OnLine(text: string, accepted: bool, decode: string -> Option<EveRecord>)
      requires |batch| < BATCH_SIZE
      modifies this, metrics
      ensures View() == AfterWake(old(View()), Line(text), accepted, decode)
    {
      delivered := delivered + [text];
      assert batch + [] == batch;
      var line := Trim(text);
      if line == "" { return; }
      var event := ParseEveLine(line, decode);
      if event.Some? {
        batch := batch + [event.value];
        if |batch| >= BATCH_SIZE { FlushBatch(accepted); }
      }
    }

    method OnWake(w: Wake, accepted: bool, decode: string -> Option<EveRecord>)
      requires |batch| < BATCH_SIZE
      modifies this, metrics
      ensures View() == AfterWake(old(View()), w, accepted, decode) && |batch| < BATCH_SIZE
    {
      assert w.Line? ==> |EventsOf(w.text, decode)| <= 1;
      if w.Line? {
        OnLine(w.text, accepted, decode);
      } else if w.Tick? {
        if batch != [] { FlushBatch(accepted); }
      }
    }

    method Loop(wakes: seq<Wake>, accepted: nat -> bool, decode: string -> Option<EveRecord>)
      requires |batch| < BATCH_SIZE
      modifies this, metrics
      ensures View() == AfterWakes(old(View()), wakes, accepted, decode, |wakes|)
    {
      var i := 0;
      while i < |wakes|
        invariant i <= |wakes| && |batch| < BATCH_SIZE
        invariant View() == AfterWakes(old(View()), wakes, accepted, decode, i)
      {
        OnWake(wakes[i], accepted(i), decode);
        i := i + 1;
      }
    }

    /** Over any wake-ups and any send results: nothing is lost, duplicated or reordered, no batch is
        empty or over fifty, fewer than fifty events wait, and every flushed event is counted once. */
    method TailEveJson(wakes: seq<Wake>, accepted: nat -> bool, decode: string -> Option<EveRecord>)
      requires batch == [] && flushed == []
      modifies this, metrics
      ensures View() == AfterWakes(old(View()), wakes, accepted, decode, |wakes|)
      ensures Concat(flushed) + batch == ParsedFrom(LinesIn(wakes), decode)
      ensures GoodBatches(flushed) && |batch| < BATCH_SIZE
      ensures metrics.collected - old(metrics.collected) == |Concat(flushed)|
      ensures metrics.collected - metrics.sent - metrics.failed
              == old(metrics.collected) - old(metrics.sent) - old(metrics.failed)
    {
      AllWakesKeep(View(), wakes, accepted, decode);
      Loop(wakes, accepted, decode);
    }
  }

  // ---------------------------------------------------------------------------------------
  // What the wake-ups do to the loop.

  // Events seen so far, in order.
  function Seen(s: State): seq<TrafficEvent> {
    Concat(s.flushed) + s.buffer
  }

  /** What a wake-up keeps: sound batches, and counters in step with what was flushed. */
  ghost predicate InStep(s: State, s': State) {
    && GoodBatches(s'.flushed) && |s'.buffer| < BATCH_SIZE
    && s'.collected - |Concat(s'.flushed)| == s.collected - |Concat(s.flushed)|
    && s'.collected - s'.sent - s'.failed == s.collected - s.sent - s.failed
  }

  lemma FlushKeeps(s: State, ok: bool)
    requires GoodBatches(s.flushed) && 1 <= |s.buffer| <= BATCH_SIZE
    ensures var s' := FlushedAtOnce(s, ok); InStep(s, s') && Seen(s') == Seen(s)
  {
    ConcatAppend(s.flushed, s.buffer);
    GoodBatchesAppend(s.flushed, s.buffer);
    assert Seen(s) + [] == Seen(s);
  }

  lemma AfterWakeKeeps(s: State, w: Wake, ok: bool, decode: string -> Option<EveRecord>)
    requires GoodBatches(s.flushed) && |s.buffer| < BATCH_SIZE
    ensures var s' := AfterWake(s, w, ok, decode);
            InStep(s, s') && Seen(s') == Seen(s) + if w.Line? then EventsOf(w.text, decode) else []
  {
    assert Seen(s) + [] == Seen(s);
    if w.Line? {
      var e := EventsOf(w.text, decode);
      var s' := s.(buffer := s.buffer + e, delivered := s.delivered + [w.text]);
      assert |e| <= 1 && Seen(s') == Seen(s) + e;
      if |s'.buffer| >= BATCH_SIZE { FlushKeeps(s', ok); }
    } else if w.Tick? && s.buffer != [] {
      FlushKeeps(s, ok);
    }
  }

  lemma {:induction false} AfterWakesKeeps(s: State, wakes: seq<Wake>, accepted: nat -> bool,
                                           decode: string -> Option<EveRecord>, n: nat)
    requires s.buffer == [] && s.flushed == [] && n <= |wakes|
    ensures var s' := AfterWakes(s, wakes, accepted, decode, n);
            InStep(s, s') && Seen(s') == ParsedFrom(LinesIn(wakes[..n]), decode)
  {
    if n > 0 {
      var before := AfterWakes(s, wakes, accepted, decode, n - 1);
      AfterWakesKeeps(s, wakes, accepted, decode, n - 1);
      OneMoreWake(s, before, wakes, n - 1, accepted(n - 1), decode);
    }
  }

  lemma OneMoreWake(s: State, before: State, wakes: seq<Wake>, i: nat, ok: bool, decode: string -> Option<EveRecord>)
    requires i < |wakes| && InStep(s, before) && Seen(before) == ParsedFrom(LinesIn(wakes[..i]), decode)
    ensures var s' := AfterWake(before, wakes[i], ok, decode);
            InStep(s, s') && Seen(s') == ParsedFrom(LinesIn(wakes[..i + 1]), decode)
  {
    AfterWakeKeeps(before, wakes[i], ok, decode);
    LinesInStep(wakes, i, decode);
  }

  lemma AllWakesKeep(s: State, wakes: seq<Wake>, accepted: nat -> bool, decode: string -> Option<EveRecord>)
    requires s.buffer == [] && s.flushed == []
    ensures var s' := AfterWakes(s, wakes, accepted, decode, |wakes|);
            InStep(s, s') && Seen(s') == ParsedFrom(LinesIn(wakes), decode)
  {
    AfterWakesKeeps(s, wakes, accepted, decode, |wakes|);
    assert wakes[..|wakes|] == wakes;
  }

  lemma LinesInStep(wakes: seq<Wake>, i: nat, decode: string -> Option<EveRecord>)
    requires i < |wakes|
    ensures ParsedFrom(LinesIn(wakes[..i + 1]), decode) ==
            ParsedFrom(LinesIn(wakes[..i]), decode) + (if wakes[i].Line? then EventsOf(wakes[i].text, decode) else [])
  {
    assert wakes[..i + 1][..i] == wakes[..i];
    if wakes[i].Line? { ParsedFromAppend(LinesIn(wakes[..i]), wakes[i].text, decode); }
    else { assert LinesIn(wakes[..i]) + [] == LinesIn(wakes[..i]); }
  }

  // ---------------------------------------------------------------------------------------
  // Interleaving with the HTTP handlers. The tail is suspended while its own flush is under way.

  datatype Phase = Waiting | Taken(events: seq<TrafficEvent>) | Sending(count: nat)

  datatype State = State(
    collected: nat, sent: nat, failed: nat,
    inFlight: seq<nat>,                    // sizes of handler sends under way
    abandoned: nat,                        // events whose handler was dropped before its send finished
    phase: Phase, buffer: seq<TrafficEvent>,
    flushed: seq<seq<TrafficEvent>>, delivered: seq<string>)

  datatype Step =
    | Deliver(line: string)
    | IntervalTick
    | CountFlush
    | FlushResult(ok: bool)
    | CollectLog
    | CollectBatch(size: nat)
    | Simulate
    | SendResult(i: nat, ok: bool)
    | HandlerDropped(i: nat)

  const SIMULATED: nat := 10

  ghost predicate Enabled(s: State, step: Step) {
    match step
    case Deliver(_) => s.phase.Waiting?
    case IntervalTick => s.phase.Waiting?
    case CountFlush => s.phase.Taken?
    case FlushResult(_) => s.phase.Sending?
    case SendResult(i, _) => i < |s.inFlight|
    case HandlerDropped(i) => i < |s.inFlight|
    case _ => true
  }

  function Take(s: State): State {
    s.(buffer := [], phase := Taken(s.buffer), flushed := s.flushed + [s.buffer])
  }

  // A handler counts its events, then waits for the send.
  function Begin(s: State, n: nat): State {
    s.(collected := s.collected + n, inFlight := s.inFlight + [n])
  }

  function Next(s: State, step: Step, decode: string -> Option<EveRecord>): State
    requires Enabled(s, step)
  {
    match step
    case Deliver(line) =>
      var s' := s.(buffer := s.buffer + EventsOf(line, decode), delivered := s.delivered + [line]);
      if |s'.buffer| >= BATCH_SIZE then Take(s') else s'
    case IntervalTick => if s.buffer == [] then s else Take(s)
    case CountFlush => s.(collected := s.collected + |s.phase.events|, phase := Sending(|s.phase.events|))
    case FlushResult(ok) =>
      var n := s.phase.count;
      if ok then s.(sent := s.sent + n, phase := Waiting) else s.(failed := s.failed + n, phase := Waiting)
    case CollectLog => Begin(s, 1)
    case CollectBatch(n) => Begin(s, n)
    case Simulate => Begin(s, SIMULATED)
    case SendResult(i, ok) =>
      var n, rest := s.inFlight[i], s.inFlight[..i] + s.inFlight[i + 1..];
      if ok then s.(sent := s.sent + n, inFlight := rest) else s.(failed := s.failed + n, inFlight := rest)
    case HandlerDropped(i) =>
      s.(abandoned := s.abandoned + s.inFlight[i], inFlight := s.inFlight[..i] + s.inFlight[i + 1..])
  }

  function Sum(s: seq<nat>): nat {
    if s == [] then 0 else s[0] + Sum(s[1..])
  }

  lemma {:induction false} SumOfConcat(a: seq<nat>, b: seq<nat>)
    ensures Sum(a + b) == Sum(a) + Sum(b)
  {
    if a == [] {
      assert a + b == b;
    } else {
      assert (a + b)[1..] == a[1..] + b;
      SumOfConcat(a[1..], b);
    }
  }

  lemma SumWithout(s: seq<nat>, i: nat)
    requires i < |s|
    ensures Sum(s[..i] + s[i + 1..]) == Sum(s) - s[i]
  {
    assert s == s[..i] + s[i..] && s[i..][1..] == s[i + 1..];
    SumOfConcat(s[..i], s[i..]);
    SumOfConcat(s[..i], s[i + 1..]);
  }

  // Events counted as collected whose fate is not yet counted.
  function Pending(s: State): nat {
    Sum(s.inFlight) + (if s.phase.Sending? then s.phase.count else 0)
  }

  ghost predicate Conserved(s: State) {
    s.collected - s.sent - s.failed == Pending(s) + s.abandoned
  }

  ghost predicate BatchedInOrder(s: State, decode: string -> Option<EveRecord>) {
    && Concat(s.flushed) + s.buffer == ParsedFrom(s.delivered, decode)
    && GoodBatches(s.flushed) && |s.buffer| < BATCH_SIZE
    && (!s.phase.Waiting? ==> s.buffer == [])
  }

  lemma NextConserved(s: State, step: Step, decode: string -> Option<EveRecord>)
    requires Conserved(s) && Enabled(s, step)
    ensures Conserved(Next(s, step, decode))
  {
    match step
    case CollectLog => SumOfConcat(s.inFlight, [1]);
    case CollectBatch(n) => SumOfConcat(s.inFlight, [n]);
    case Simulate => SumOfConcat(s.inFlight, [SIMULATED]);
    case SendResult(i, ok) => SumWithout(s.inFlight, i);
    case HandlerDropped(i) => SumWithout(s.inFlight, i);
    case _ =>
  }

  lemma NextBatched(s: State, step: Step, decode: string -> Option<EveRecord>)
    requires BatchedInOrder(s, decode) && Enabled(s, step)
    ensures BatchedInOrder(Next(s, step, decode), decode)
  {
    match step
    case Deliver(line) => DeliverBatched(s, line, decode);
    case IntervalTick => if s.buffer != [] { TakeBatched(s, decode); }
    case _ =>
  }

  lemma GoodBatchesAppend(batches: seq<seq<TrafficEvent>>, b: seq<TrafficEvent>)
    requires GoodBatches(batches) && 1 <= |b| <= BATCH_SIZE
    ensures GoodBatches(batches + [b])
  {
  }

  lemma TakeBatched(s: State, decode: string -> Option<EveRecord>)
    requires Concat(s.flushed) + s.buffer == ParsedFrom(s.delivered, decode)
    requires GoodBatches(s.flushed) && 1 <= |s.buffer| <= BATCH_SIZE
    ensures BatchedInOrder(Take(s), decode)
  {
    GoodBatchesAppend(s.flushed, s.buffer);
    ConcatAppend(s.flushed, s.buffer);
    var all := Concat(s.flushed) + s.buffer;
    assert all + [] == all;
  }

  lemma DeliverBatched(s: State, line: string, decode: string -> Option<EveRecord>)
    requires BatchedInOrder(s, decode) && s.phase.Waiting?
    ensures BatchedInOrder(Next(s, Deliver(line), decode), decode)
  {
    var e := EventsOf(line, decode);
    var s' := s.(buffer := s.buffer + e, delivered := s.delivered + [line]);
    ParsedFromAppend(s.delivered, line, decode);
    assert Concat(s.flushed) + (s.buffer + e) == (Concat(s.flushed) + s.buffer) + e;
    assert |e| <= 1;
    if |s'.buffer| >= BATCH_SIZE { TakeBatched(s', decode); }
  }

  ghost predicate Runs(s: State, steps: seq<Step>, decode: string -> Option<EveRecord>)
    decreases |steps|
  {
    steps == [] || (Enabled(s, steps[0]) && Runs(Next(s, steps[0], decode), steps[1..], decode))
  }

  ghost function Run(s: State, steps: seq<Step>, decode: string -> Option<EveRecord>): State
    requires Runs(s, steps, decode)
    decreases |steps|
  {
    if steps == [] then s else Run(Next(s, steps[0], decode), steps[1..], decode)
  }

  const START: State := State(0, 0, 0, [], 0, Waiting, [], [], [])

  lemma {:induction false} RunKeeps(s: State, steps: seq<Step>, decode: string -> Option<EveRecord>)
    requires Runs(s, steps, decode) && Conserved(s) && BatchedInOrder(s, decode)
    ensures Conserved(Run(s, steps, decode)) && BatchedInOrder(Run(s, steps, decode), decode)
    decreases |steps|
  {
    if steps != [] {
      NextConserved(s, steps[0], decode);
      NextBatched(s, steps[0], decode);
      RunKeeps(Next(s, steps[0], decode), steps[1..], decode);
    }
  }

  /** In every reachable state of interleaved flushes and handlers, the counters differ by exactly the
      events whose sends are under way (or whose handler was dropped), and the batches followed by the
      buffer are the parsed lines in order. */
  lemma NothingIsLost(steps: seq<Step>, decode: string -> Option<EveRecord>)
    requires Runs(START, steps, decode)
    ensures var s := Run(START, steps, decode);
            && s.collected - s.sent - s.failed ==
               Sum(s.inFlight) + (if s.phase.Sending? then s.phase.count else 0) + s.abandoned
            && Concat(s.flushed) + s.buffer == ParsedFrom(s.delivered, decode)
            && (forall i :: 0 <= i < |s.flushed| ==> 1 <= |s.flushed[i]| <= 50) && |s.buffer| < 50
  {
    RunKeeps(START, steps, decode);
  }

  // ---------------------------------------------------------------------------------------
  // The tail loop is a run of this model.

  function FlushedAtOnce(s: State, ok: bool): State {
    var n := |s.buffer|;
    s.(flushed := s.flushed + [s.buffer], buffer := [], collected := s.collected + n,
       sent := s.sent + if ok then n else 0, failed := s.failed + if ok then 0 else n)
  }

  function AfterWake(s: State, w: Wake, ok: bool, decode: string -> Option<EveRecord>): State {
    match w
    case Line(text) =>
      var s' := s.(buffer := s.buffer + EventsOf(text, decode), delivered := s.delivered + [text]);
      if |s'.buffer| >= BATCH_SIZE then FlushedAtOnce(s', ok) else s'
    case Tick => if s.buffer == [] then s else FlushedAtOnce(s, ok)
    case _ => s
  }

  function AfterWakes(s: State, wakes: seq<Wake>, accepted: nat -> bool, decode: string -> Option<EveRecord>,
                      n: nat): State
    requires n <= |wakes|
  {
    if n == 0 then s
    else AfterWake(AfterWakes(s, wakes, accepted, decode, n - 1), wakes[n - 1], accepted(n - 1), decode)
  }

  lemma {:induction false} RunOfConcat(s: State, a: seq<Step>, b: seq<Step>, decode: string -> Option<EveRecord>)
    requires Runs(s, a, decode) && Runs(Run(s, a, decode), b, decode)
    ensures Runs(s, a + b, decode) && Run(s, a + b, decode) == Run(Run(s, a, decode), b, decode)
    decreases |a|
  {
    if a == [] {
      assert a + b == b;
    } else {
      assert (a + b)[1..] == a[1..] + b;
      RunOfConcat(Next(s, a[0], decode), a[1..], b, decode);
    }
  }

  lemma RunOfThree(s: State, q: seq<Step>, s1: State, s2: State, s3: State, decode: string -> Option<EveRecord>)
    requires |q| == 3 && Enabled(s, q[0]) && Enabled(s1, q[1]) && Enabled(s2, q[2])
    requires Next(s, q[0], decode) == s1 && Next(s1, q[1], decode) == s2 && Next(s2, q[2], decode) == s3
    ensures Runs(s, q, decode) && Run(s, q, decode) == s3
  {
    var q1, q2 := q[1..], q[2..];
    assert q1[0] == q[1] && q1[1..] == q2 && q2[0] == q[2] && q2[1..] == [];
    assert Runs(s2, q2, decode) && Run(s2, q2, decode) == s3;
    assert Runs(s1, q1, decode) && Run(s1, q1, decode) == Run(s2, q2, decode);
  }

  // One wake-up: a delivery or a tick, then counting and sending if a batch was taken.
  lemma WakeIsSteps(s: State, w: Wake, ok: bool, decode: string -> Option<EveRecord>) returns (steps: seq<Step>)
    requires s.phase.Waiting?
    ensures Runs(s, steps, decode) && Run(s, steps, decode) == AfterWake(s, w, ok, decode)
  {
    if w.EndOfFile? || w.ReadError? {
      steps := [];
    } else {
      var first := if w.Line? then Deliver(w.text) else IntervalTick;
      var s1 := Next(s, first, decode);
      if s1.phase.Waiting? {
        steps := [first];
        assert steps[1..] == [];
      } else {
        steps := [first, CountFlush, FlushResult(ok)];
        var s2 := Next(s1, CountFlush, decode);
        RunOfThree(s, steps, s1, s2, Next(s2, FlushResult(ok), decode), decode);
      }
    }
  }

  /** Whatever wakes the tail loop and however its sends end, what it does is a run of the interleaving
      model, so all that is proved of every interleaving holds of it with handlers in between. */
  lemma {:induction false} TailIsARun(s: State, wakes: seq<Wake>, accepted: nat -> bool,
                                      decode: string -> Option<EveRecord>, n: nat) returns (steps: seq<Step>)
    requires s.phase.Waiting? && n <= |wakes|
    ensures Runs(s, steps, decode) && Run(s, steps, decode) == AfterWakes(s, wakes, accepted, decode, n)
    ensures AfterWakes(s, wakes, accepted, decode, n).phase.Waiting?
  {
    steps := [];
    if n > 0 {
      steps := TailIsARun(s, wakes, accepted, decode, n - 1);
      var s' := Run(s, steps, decode);
      var last := WakeIsSteps(s', wakes[n - 1], accepted(n - 1), decode);
      RunOfConcat(s, steps, last, decode);
      steps := steps + last;
    }
  }

  // ---------------------------------------------------------------------------------------
  // What the counters are made of.

  // Events that handlers took in.
  function HandedIn(steps: seq<Step>): nat {
    if steps == [] then 0
    else HandedIn(steps[1..]) +
         match steps[0] case CollectLog => 1 case CollectBatch(n) => n case Simulate => 10 case _ => 0
  }

  // Flushed events already counted as collected.
  function CountedFlushes(s: State): int {
    |Concat(s.flushed)| - if s.phase.Taken? then |s.phase.events| else 0
  }

  lemma NextCollected(s: State, step: Step, decode: string -> Option<EveRecord>)
    requires Enabled(s, step)
    ensures var s' := Next(s, step, decode);
            s'.collected - CountedFlushes(s') == s.collected - CountedFlushes(s) + HandedIn([step])
  {
    assert [step][1..] == [];
    match step
    case Deliver(line) => ConcatAppend(s.flushed, s.buffer + EventsOf(line, decode));
    case IntervalTick => ConcatAppend(s.flushed, s.buffer);
    case _ =>
  }

  /** Collected is the sum of everything handed in and everything flushed. */
  lemma {:induction false} CollectedIsEverything(s: State, steps: seq<Step>, decode: string -> Option<EveRecord>)
    requires Runs(s, steps, decode)
    ensures var s' := Run(s, steps, decode);
            s'.collected - CountedFlushes(s') == s.collected - CountedFlushes(s) + HandedIn(steps)
    decreases |steps|
  {
    if steps != [] {
      NextCollected(s, steps[0], decode);
      CollectedIsEverything(Next(s, steps[0], decode), steps[1..], decode);
      assert [steps[0]][1..] == [];
    }
  }

  // The outcome a step reports, if it reports one.
  function Outcome(step: Step): Option<bool> {
    match step case FlushResult(ok) => Some(ok) case SendResult(_, ok) => Some(ok) case _ => None
  }

  /** Only accepted sends are counted as sent, and only refused ones as failed. */
  lemma {:induction false} OutcomesAreCounted(s: State, steps: seq<Step>, decode: string -> Option<EveRecord>, ok: bool)
    requires Runs(s, steps, decode) && forall i :: 0 <= i < |steps| ==> Outcome(steps[i]) != Some(!ok)
    ensures ok ==> Run(s, steps, decode).failed == s.failed
    ensures !ok ==> Run(s, steps, decode).sent == s.sent
    decreases |steps|
  {
    if steps != [] { OutcomesAreCounted(Next(s, steps[0], decode), steps[1..], decode, ok); }
  }

  /** A delivered line starts a flush exactly when it brings the buffer to fifty events. */
  lemma FlushAtFifty(s: State, line: string, decode: string -> Option<EveRecord>)
    requires BatchedInOrder(s, decode) && s.phase.Waiting?
    ensures Next(s, Deliver(line), decode).phase.Taken? <==> |s.buffer| + |EventsOf(line, decode)| == 50
  {
  }
}
