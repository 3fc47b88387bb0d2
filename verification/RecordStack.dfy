/** The active records of one address over whole runs: a stack that blocks push and unblocks pop. */
module RecordStack {
  import opened Prelude
  import opened Iptables
  import opened BlockRules
  import opened KernelTheorems
  import opened BlockStore
  import opened FilterModel
  import opened FilterService
  import opened Enforcement
  import opened Recovery

  datatype Op = Push(doc: Doc) | Pop | Stay

  // What a step does to the active records of `ip`; only successful, persisted operations count.
  function OpOf(s: State, iface: string, step: Step, ip: string): Op {
    match step
    case Block(r, at, f, stored) =>
      if Ipv4.Normalize(r.ip) == Some(ip) && stored && HandleBlock(s.filter, s.docs, iface, r, at, f, stored).2.Ok?
      then Push(NewDoc(ip, r, at)) else Stay
    case Unblock(target, _, _, f, _, stored) =>
      if Ipv4.Normalize(target) == Some(ip) && stored && FilterModel.Unblock(s.filter, iface, ip, f).1
      then Pop else Stay
    case _ => Stay
  }

  function OpsOf(s: State, iface: string, steps: seq<Step>, ip: string): seq<Op>
    decreases |steps|
  {
    if steps == [] then []
    else [OpOf(s, iface, steps[0], ip)] + OpsOf(Next(s, iface, steps[0]), iface, steps[1..], ip)
  }

  // ---------------------------------------------------------------------------------------
  // Depth.

  function DepthAfter(d: nat, o: Op): nat {
    match o case Push(_) => d + 1 case Pop => (if d > 0 then d - 1 else 0) case Stay => d
  }

  function Depth(d: nat, ops: seq<Op>): nat
    decreases |ops|
  {
    if ops == [] then d else Depth(DepthAfter(d, ops[0]), ops[1..])
  }

  // A step's effect on the stored records, read off the step.
  lemma BlockDocs(s: State, iface: string, step: Step, a: string, ip: string)
    requires step.Block? && Ipv4.Normalize(step.request.ip) == Some(a)
    ensures var docs := Next(s, iface, step).docs;
            var d := NewDoc(a, step.request, step.at);
            && (docs == s.docs || docs == s.docs + [d])
            && (ip == a ==> OpOf(s, iface, step, ip) == if docs == s.docs + [d] then Push(d) else Stay)
            && (ip != a ==> OpOf(s, iface, step, ip) == Stay)
  {
    assert s.docs != s.docs + [NewDoc(a, step.request, step.at)];
  }

  lemma UnblockDocs(s: State, iface: string, step: Step, a: string, ip: string)
    requires step.Unblock? && Ipv4.Normalize(step.target) == Some(a)
    ensures var docs := Next(s, iface, step).docs;
            var d := Deactivate(s.docs, a, step.newest, step.at, step.reason);
            && (docs == s.docs || docs == d)
            && (ip == a ==> (OpOf(s, iface, step, ip) == Pop && docs == d) ||
                            (OpOf(s, iface, step, ip) == Stay && docs == s.docs))
            && (ip != a ==> OpOf(s, iface, step, ip) == Stay)
  {
  }

  lemma OtherDocs(s: State, iface: string, step: Step, ip: string)
    requires !step.Block? && !step.Unblock?
    ensures Next(s, iface, step).docs == s.docs && OpOf(s, iface, step, ip) == Stay
  {
  }

  lemma UnreadableTarget(s: State, iface: string, step: Step, ip: string)
    requires step.Block? || step.Unblock?
    requires Ipv4.Normalize(if step.Block? then step.request.ip else step.target).None?
    ensures Next(s, iface, step).docs == s.docs && OpOf(s, iface, step, ip) == Stay
  {
  }

  lemma NextDepth(s: State, iface: string, step: Step, ip: string)
    requires Enabled(s, step)
    ensures |StackOf(Next(s, iface, step).docs, ip)| == DepthAfter(|StackOf(s.docs, ip)|, OpOf(s, iface, step, ip))
  {
    if step.Block? || step.Unblock? {
      var a := Ipv4.Normalize(if step.Block? then step.request.ip else step.target);
      if a.None? {
        UnreadableTarget(s, iface, step, ip);
      } else if step.Block? {
        BlockDocs(s, iface, step, a.value, ip);
        StackOfPush(s.docs, NewDoc(a.value, step.request, step.at), ip);
      } else {
        UnblockDocs(s, iface, step, a.value, ip);
        DeactivateDepth(s.docs, a.value, ip, step.newest, step.at, step.reason);
      }
    } else {
      OtherDocs(s, iface, step, ip);
    }
  }

  lemma DeactivateDepth(docs: seq<Doc>, target: string, ip: string, newest: nat, at: int, reason: string)
    requires StackOf(docs, target) != [] ==> IsNewest(docs, target, newest)
    ensures |StackOf(Deactivate(docs, target, newest, at, reason), ip)| ==
            if ip == target then DepthAfter(|StackOf(docs, ip)|, Pop) else |StackOf(docs, ip)|
  {
    if ip != target {
      StackOfOthers(docs, target, ip, newest, at, reason);
    } else if StackOf(docs, ip) != [] {
      StackOfDeactivate(docs, ip, newest, at, reason);
    } else if newest < |docs| {
      StackMembers(docs, ip, docs[newest]);
    }
  }

  lemma {:induction false} RunDepth(s: State, iface: string, steps: seq<Step>, ip: string)
    requires Runs(s, iface, steps)
    ensures |StackOf(Run(s, iface, steps).docs, ip)| == Depth(|StackOf(s.docs, ip)|, OpsOf(s, iface, steps, ip))
    decreases |steps|
  {
    if steps != [] {
      NextDepth(s, iface, steps[0], ip);
      RunDepth(Next(s, iface, steps[0]), iface, steps[1..], ip);
    }
  }

  // Blocks minus unblocks.
  function Excess(ops: seq<Op>): int {
    if ops == [] then 0
    else Excess(ops[..|ops| - 1]) + match ops[|ops| - 1] case Push(_) => 1 case Pop => -1 case Stay => 0
  }

  lemma {:induction false} DepthOfAppend(d: nat, ops: seq<Op>, o: Op)
    ensures Depth(d, ops + [o]) == DepthAfter(Depth(d, ops), o)
    decreases |ops|
  {
    if ops == [] {
      assert [o][1..] == [];
    } else {
      assert (ops + [o])[1..] == ops[1..] + [o];
      DepthOfAppend(DepthAfter(d, ops[0]), ops[1..], o);
    }
  }

  /** Starting from an empty stack, its depth is the largest excess of blocks over unblocks in any
      final stretch of the run. */
  lemma {:induction false} DepthIsLargestFinalExcess(ops: seq<Op>)
    ensures forall j :: 0 <= j <= |ops| ==> Excess(ops[j..]) <= Depth(0, ops)
    ensures exists j :: 0 <= j <= |ops| && Excess(ops[j..]) == Depth(0, ops)
  {
    var n := |ops|;
    if n == 0 {
      assert Excess(ops[0..]) == 0;
    } else {
      var init, o := ops[..n - 1], ops[n - 1];
      DepthIsLargestFinalExcess(init);
      assert ops == init + [o];
      DepthOfAppend(0, init, o);
      var delta := match o case Push(_) => 1 case Pop => -1 case Stay => 0;
      assert Excess(ops[n..]) == 0;
      forall j | 0 <= j < n ensures Excess(ops[j..]) == Excess(init[j..]) + delta {
        assert ops[j..][..n - j - 1] == init[j..];
      }
      var k :| 0 <= k <= |init| && Excess(init[k..]) == Depth(0, init);
      assert Excess(ops[k..]) == Depth(0, init) + delta;
    }
  }

  /** Unblocking sticks: from a moment when an address has no active record, it has none again exactly
      when every final stretch of the run contains at least as many unblocks as blocks; then no
      restart blocks it, whatever faults occur. */
  lemma UnblockingSticksIff(s: State, iface: string, steps: seq<Step>, ip: string)
    requires Runs(s, iface, steps) && StackOf(s.docs, ip) == []
    ensures var ops := OpsOf(s, iface, steps, ip);
            StackOf(Run(s, iface, steps).docs, ip) == [] <==> forall j :: 0 <= j <= |ops| ==> Excess(ops[j..]) <= 0
  {
    var ops := OpsOf(s, iface, steps, ip);
    RunDepth(s, iface, steps, ip);
    DepthIsLargestFinalExcess(ops);
  }

  lemma OneStepFirst(s: State, iface: string, steps: seq<Step>, ip: string)
    requires steps != []
    ensures OpsOf(s, iface, steps, ip) ==
            [OpOf(s, iface, steps[0], ip)] + OpsOf(Next(s, iface, steps[0]), iface, steps[1..], ip)
    ensures Run(s, iface, steps) == Run(Next(s, iface, steps[0]), iface, steps[1..])
    ensures Runs(s, iface, steps) <==> Enabled(s, steps[0]) && Runs(Next(s, iface, steps[0]), iface, steps[1..])
  {
  }

  lemma OpsOfTwo(s: State, iface: string, a: Step, b: Step, s1: State, ip: string)
    requires s1 == Next(s, iface, a) && Enabled(s, a) && Enabled(s1, b)
    ensures OpsOf(s, iface, [a, b], ip) == [OpOf(s, iface, a, ip), OpOf(s1, iface, b, ip)]
    ensures Run(s, iface, [a, b]) == Next(s1, iface, b) && Runs(s, iface, [a, b])
  {
    assert [a, b][1..] == [b] && [b][1..] == [];
    OneStepFirst(s, iface, [a, b], ip);
    OneStepFirst(s1, iface, [b], ip);
  }

  lemma CleanUnblockPops(s: State, iface: string, target: string, reason: string, at: int, newest: nat, ip: string)
    requires Ipv4.Normalize(target) == Some(ip) && StackOf(s.docs, ip) == []
    ensures var step := Step.Unblock(target, reason, at, [], newest, true);
            var s' := Next(s, iface, step);
            && OpOf(s, iface, step, ip) == Pop && s'.now == at
            && s'.filter.table.Keys == s.filter.table.Keys && StackOf(s'.docs, ip) == []
  {
    NoFaultMeansRemoved(s.filter.table, RuleSpecs(iface, ip), [], 0);
    RemoveIsGood(iface, {ip}, map[], ip, s.filter.table, [], 0);
    DeactivateDepth(s.docs, ip, ip, newest, at, reason);
  }

  lemma CleanBlockPushes(s: State, iface: string, r: BlockRequest, at: int, ip: string)
    requires Ipv4.Normalize(r.ip) == Some(ip) && BuiltIns(s.filter.table)
    ensures var step := Step.Block(r, at, [], true);
            && OpOf(s, iface, step, ip) == Push(NewDoc(ip, r, at)) && Next(s, iface, step).now == at
            && Next(s, iface, step).docs == s.docs + [NewDoc(ip, r, at)] && BuiltIns(Next(s, iface, step).filter.table)
            && StackOf(Next(s, iface, step).docs, ip) == StackOf(s.docs, ip) + [NewDoc(ip, r, at)]
  {
    NoFaultMeansSuccess(s.filter.table, iface, ip, [], 0);
    ApplyOnlyAdds(s.filter.table, RuleSpecs(iface, ip), [], 0, Input, Foreign(0));
    StackOfPush(s.docs, NewDoc(ip, r, at), ip);
  }

  /** Counting over the whole run is not enough: an unblock of an address without records, which
      succeeds, is not saved up for the block that follows. */
  lemma UnblocksAreNotSavedUp(s: State, iface: string, target: string, reason: string, newest: nat,
                              r: BlockRequest, at: int, ip: string)
    requires BuiltIns(s.filter.table) && StackOf(s.docs, ip) == [] && s.now <= at
    requires Ipv4.Normalize(target) == Some(ip) && Ipv4.Normalize(r.ip) == Some(ip)
    ensures var steps := [Step.Unblock(target, reason, at, [], newest, true), Step.Block(r, at, [], true)];
            && Runs(s, iface, steps) && Excess(OpsOf(s, iface, steps, ip)) == 0
            && StackOf(Run(s, iface, steps).docs, ip) == [NewDoc(ip, r, at)]
  {
    var a, b := Step.Unblock(target, reason, at, [], newest, true), Step.Block(r, at, [], true);
    CleanUnblockPops(s, iface, target, reason, at, newest, ip);
    CleanBlockPushes(Next(s, iface, a), iface, r, at, ip);
    OpsOfTwo(s, iface, a, b, Next(s, iface, a), ip);
    var ops := [Pop, Push(NewDoc(ip, r, at))];
    assert ops[..1] == [Pop] && [Pop][..0] == [];
  }

  /** ... so a restart before that block runs out blocks the address. */
  lemma BlockedDespiteEqualTotals(s: State, iface: string, r: BlockRequest, from: int, cursor: seq<Doc>, at: int,
                                  fs: seq<seq<Fault>>, ip: string)
    requires StackOf(s.docs, ip) == [NewDoc(ip, r, from)] && s.now <= at < from + Hours(r.hours) - Millis(1)
    requires BuiltIns(s.filter.table) && ListsActive(cursor, s.docs) && FaultlessFor(cursor, fs, ip)
    ensures CacheSays(Run(s, iface, RestartSteps(cursor, at, fs)).filter.blocked, ip, at)
  {
    BlockedAfterRestartIff(s, iface, cursor, at, fs, ip);
    assert NewDoc(ip, r, from) in StackOf(s.docs, ip) && Unexpired(NewDoc(ip, r, from), ip, at);
  }

  /** An address without active records stays unblocked through any restart. */
  lemma NoRecordNoBlock(s: State, iface: string, cursor: seq<Doc>, at: int, fs: seq<seq<Fault>>, ip: string)
    requires s.now <= at && ListsActive(cursor, s.docs) && StackOf(s.docs, ip) == []
    ensures ip !in Run(s, iface, RestartSteps(cursor, at, fs)).filter.blocked
  {
    RestartIsReplay(s, iface, cursor, at, fs);
    forall d | d in cursor ensures d.ip != ip { StackMembers(s.docs, ip, d); }
    ReplayOfOthers(Filter(map[], s.filter.table), iface, cursor, at, fs, 0, ip);
  }

  lemma {:induction false} ReplayOfOthers(s: Filter, iface: string, cursor: seq<Doc>, now: int,
                                          fs: seq<seq<Fault>>, i: nat, ip: string)
    requires ip !in s.blocked && forall d :: d in cursor ==> d.ip != ip
    ensures ip !in Replay(s, iface, cursor, now, fs, i).blocked
    decreases |cursor| - i
  {
    if i < |cursor| {
      ReplayOfOthers(RestoreDoc(s, iface, cursor[i], now, FaultsAt(fs, i)).0, iface, cursor, now, fs, i + 1, ip);
    }
  }

  // ---------------------------------------------------------------------------------------
  // Contents.

  function StackAfter(st: seq<Doc>, o: Op): seq<Doc> {
    match o
    case Push(d) => st + [d]
    case Pop => if st == [] then [] else st[..|st| - 1]
    case Stay => st
  }

  function StackRun(st: seq<Doc>, ops: seq<Op>): seq<Doc>
    decreases |ops|
  {
    if ops == [] then st else StackRun(StackAfter(st, ops[0]), ops[1..])
  }

  lemma NextStack(s: State, iface: string, step: Step, ip: string)
    requires OpOf(s, iface, step, ip) != Pop
    ensures StackOf(Next(s, iface, step).docs, ip) == StackAfter(StackOf(s.docs, ip), OpOf(s, iface, step, ip))
  {
    if step.Block? || step.Unblock? {
      var a := Ipv4.Normalize(if step.Block? then step.request.ip else step.target);
      if a.None? {
        UnreadableTarget(s, iface, step, ip);
      } else if step.Block? {
        BlockDocs(s, iface, step, a.value, ip);
        StackOfPush(s.docs, NewDoc(a.value, step.request, step.at), ip);
      } else {
        UnblockDocs(s, iface, step, a.value, ip);
        if a.value != ip { StackOfOthers(s.docs, a.value, ip, step.newest, step.at, step.reason); }
      }
    } else {
      OtherDocs(s, iface, step, ip);
    }
  }

  // An unblock of `ip` that finds a record deactivates one with only copies of itself above it.
  ghost predicate TakesTop(s: State, iface: string, step: Step, ip: string) {
    OpOf(s, iface, step, ip) == Pop && StackOf(s.docs, ip) != [] ==>
      && step.Unblock? && step.newest < |s.docs|
      && OnlyCopiesAbove(StackOf(s.docs, ip), |StackOf(s.docs[..step.newest], ip)|)
  }

  lemma NextPop(s: State, iface: string, step: Step, ip: string)
    requires Enabled(s, step) && OpOf(s, iface, step, ip) == Pop
    ensures StackOf(Next(s, iface, step).docs, ip) == StackAfter(StackOf(s.docs, ip), Pop) <==>
            TakesTop(s, iface, step, ip)
    ensures Settled(StackOf(s.docs, ip)) ==> TakesTop(s, iface, step, ip)
  {
    UnblockDocs(s, iface, step, ip, ip);
    if StackOf(s.docs, ip) != [] {
      PopsIff(s.docs, ip, step.newest, step.at, step.reason);
      NewestHasNoneNewer(s.docs, ip, step.newest);
    } else if step.newest < |s.docs| {
      StackMembers(s.docs, ip, s.docs[step.newest]);
    }
  }

  // The active records follow push and pop at every moment of the run.
  ghost predicate AlwaysAStack(s: State, iface: string, steps: seq<Step>, ip: string)
    decreases |steps|
  {
    steps == [] ||
    (var s' := Next(s, iface, steps[0]);
     && StackOf(s'.docs, ip) == StackAfter(StackOf(s.docs, ip), OpOf(s, iface, steps[0], ip))
     && AlwaysAStack(s', iface, steps[1..], ip))
  }

  ghost predicate AlwaysTakesTop(s: State, iface: string, steps: seq<Step>, ip: string)
    decreases |steps|
  {
    steps == [] ||
    (TakesTop(s, iface, steps[0], ip) && AlwaysTakesTop(Next(s, iface, steps[0]), iface, steps[1..], ip))
  }

  lemma NextStackIff(s: State, iface: string, step: Step, ip: string)
    requires Enabled(s, step)
    ensures StackOf(Next(s, iface, step).docs, ip) == StackAfter(StackOf(s.docs, ip), OpOf(s, iface, step, ip))
            <==> TakesTop(s, iface, step, ip)
    ensures (OpOf(s, iface, step, ip) == Pop ==> Settled(StackOf(s.docs, ip))) ==> TakesTop(s, iface, step, ip)
  {
    if OpOf(s, iface, step, ip) == Pop { NextPop(s, iface, step, ip); } else { NextStack(s, iface, step, ip); }
  }

  /** Over any run, the active records of an address are at every moment what pushing on block and popping
      on unblock leaves, exactly when each unblock took a record with only copies of itself above. */
  lemma {:induction false} AlwaysAStackIff(s: State, iface: string, steps: seq<Step>, ip: string)
    requires Runs(s, iface, steps)
    ensures AlwaysAStack(s, iface, steps, ip) <==> AlwaysTakesTop(s, iface, steps, ip)
    decreases |steps|
  {
    if steps != [] {
      NextStackIff(s, iface, steps[0], ip);
      AlwaysAStackIff(Next(s, iface, steps[0]), iface, steps[1..], ip);
    }
  }

  // Whenever the run pops, no tie of dates leaves the store a choice that matters.
  ghost predicate PopsSettled(st: seq<Doc>, ops: seq<Op>)
    decreases |ops|
  {
    ops == [] || ((ops[0].Pop? ==> Settled(st)) && PopsSettled(StackAfter(st, ops[0]), ops[1..]))
  }

  /** That is so whatever the store picks, if every pop meets a settled stack. */
  lemma {:induction false} RecordsFormAStack(s: State, iface: string, steps: seq<Step>, ip: string)
    requires Runs(s, iface, steps) && PopsSettled(StackOf(s.docs, ip), OpsOf(s, iface, steps, ip))
    ensures AlwaysAStack(s, iface, steps, ip)
    ensures StackOf(Run(s, iface, steps).docs, ip) == StackRun(StackOf(s.docs, ip), OpsOf(s, iface, steps, ip))
    decreases |steps|
  {
    if steps != [] {
      var ops := OpsOf(s, iface, steps, ip);
      assert ops[1..] == OpsOf(Next(s, iface, steps[0]), iface, steps[1..], ip);
      NextStackIff(s, iface, steps[0], ip);
      RecordsFormAStack(Next(s, iface, steps[0]), iface, steps[1..], ip);
    }
  }

  lemma OpsOfThree(s: State, iface: string, q: seq<Step>, s1: State, s2: State, s3: State, ip: string)
    requires |q| == 3 && Enabled(s, q[0]) && Enabled(s1, q[1]) && Enabled(s2, q[2])
    requires Next(s, iface, q[0]) == s1 && Next(s1, iface, q[1]) == s2 && Next(s2, iface, q[2]) == s3
    ensures Runs(s, iface, q) && Run(s, iface, q) == s3
    ensures OpsOf(s, iface, q, ip) ==
            [OpOf(s, iface, q[0], ip)] + ([OpOf(s1, iface, q[1], ip)] + [OpOf(s2, iface, q[2], ip)])
  {
    var q1, q2 := q[1..], q[2..];
    assert q1[0] == q[1] && q1[1..] == q2 && q2[0] == q[2] && q2[1..] == [];
    OneStepFirst(s2, iface, q2, ip);
    assert OpsOf(s2, iface, q2, ip) == [OpOf(s2, iface, q[2], ip)] && Runs(s2, iface, q2) && Run(s2, iface, q2) == s3;
    OneStepFirst(s1, iface, q1, ip);
    OneStepFirst(s, iface, q, ip);
  }

  lemma LowerOfTwo(a: Doc, b: Doc, ip: string, now: int, reason: string)
    requires ActiveFor(a, ip) && ActiveFor(b, ip) && a.blockedAt == b.blockedAt
    ensures IsNewest([a] + [b], ip, 0) && StackOf(Deactivate([a] + [b], ip, 0, now, reason), ip) == [b]
  {
    var out := Deactivate([a] + [b], ip, 0, now, reason);
    assert out[..1][..0] == [] && !ActiveFor(out[0], ip) && out[1] == b;
    assert StackOf(out[..1], ip) == [] && [] + [b] == [b];
  }

  lemma TieStates(s: State, iface: string, first: BlockRequest, second: BlockRequest, target: string, reason: string,
                  at: int, ip: string) returns (q: seq<Step>, s1: State, s2: State, s3: State)
    requires BuiltIns(s.filter.table) && s.docs == [] && s.now <= at
    requires Ipv4.Normalize(first.ip) == Ipv4.Normalize(second.ip) == Ipv4.Normalize(target) == Some(ip)
    ensures |q| == 3 && Enabled(s, q[0]) && Enabled(s1, q[1]) && Enabled(s2, q[2])
    ensures Next(s, iface, q[0]) == s1 && Next(s1, iface, q[1]) == s2 && Next(s2, iface, q[2]) == s3
    ensures OpOf(s, iface, q[0], ip) == Push(NewDoc(ip, first, at))
    ensures OpOf(s1, iface, q[1], ip) == Push(NewDoc(ip, second, at)) && OpOf(s2, iface, q[2], ip) == Pop
    ensures StackOf(s3.docs, ip) == [NewDoc(ip, second, at)]
  {
    q := [Step.Block(first, at, [], true), Step.Block(second, at, [], true),
          Step.Unblock(target, reason, at, [], 0, true)];
    s1 := Next(s, iface, q[0]);
    s2 := Next(s1, iface, q[1]);
    s3 := Next(s2, iface, q[2]);
    var a, b := NewDoc(ip, first, at), NewDoc(ip, second, at);
    CleanBlockPushes(s, iface, first, at, ip);
    CleanBlockPushes(s1, iface, second, at, ip);
    assert s2.docs == [a] + [b];
    LowerOfTwo(a, b, ip, at, reason);
    NoFaultMeansRemoved(s2.filter.table, RuleSpecs(iface, ip), [], 0);
  }

  /** A tie does matter: two blocks of one address in one instant, then an unblock for which the store picks
      the first of them, leave the second, where a stack would have kept the first. */
  lemma TieMayPopTheLower(s: State, iface: string, first: BlockRequest, second: BlockRequest, target: string,
                          reason: string, at: int, ip: string) returns (steps: seq<Step>)
    requires BuiltIns(s.filter.table) && s.docs == [] && s.now <= at
    requires Ipv4.Normalize(first.ip) == Ipv4.Normalize(second.ip) == Ipv4.Normalize(target) == Some(ip)
    ensures Runs(s, iface, steps)
    ensures StackOf(Run(s, iface, steps).docs, ip) == [NewDoc(ip, second, at)]
    ensures StackRun(StackOf(s.docs, ip), OpsOf(s, iface, steps, ip)) == [NewDoc(ip, first, at)]
    ensures first.hours < second.hours ==> NewDoc(ip, first, at).expiresAt != NewDoc(ip, second, at).expiresAt
  {
    var s1, s2, s3;
    steps, s1, s2, s3 := TieStates(s, iface, first, second, target, reason, at, ip);
    OpsOfThree(s, iface, steps, s1, s2, s3, ip);
    StackOfThree(NewDoc(ip, first, at), NewDoc(ip, second, at));
  }

  lemma StackOfThree(a: Doc, b: Doc)
    ensures StackRun([], [Push(a)] + ([Push(b)] + [Pop])) == [a]
  {
    var ops := [Push(a)] + ([Push(b)] + [Pop]);
    assert ops[1..] == [Push(b)] + [Pop] && ops[1..][1..] == [Pop] && [Pop][1..] == [];
    assert [] + [a] == [a] && ([a] + [b])[..1] == [a];
    assert StackRun([a] + [b], [Pop]) == StackRun([a], []);
  }

  // Every pushed record is dated later than the record below it: no two blocks in one millisecond.
  ghost predicate Spaced(st: seq<Doc>, ops: seq<Op>)
    decreases |ops|
  {
    ops == [] ||
    ((ops[0].Push? ==>
        && ops[0].doc.blockedAt.Some?
        && (st != [] ==> var top := st[|st| - 1];
              top.blockedAt.Some? && top.blockedAt.value < ops[0].doc.blockedAt.value))
     && Spaced(StackAfter(st, ops[0]), ops[1..]))
  }

  lemma StepStaysChronological(st: seq<Doc>, ops: seq<Op>)
    requires ops != [] && Chronological(st) && Spaced(st, ops)
    ensures Chronological(StackAfter(st, ops[0]))
  {
  }

  /** In particular if no two blocks of the address fall into one millisecond. */
  lemma {:induction false} SpacedIsSettled(st: seq<Doc>, ops: seq<Op>)
    requires Chronological(st) && Spaced(st, ops)
    ensures PopsSettled(st, ops) && Chronological(StackRun(st, ops))
    decreases |ops|
  {
    if ops != [] {
      ChronologicalIsSettled(st);
      StepStaysChronological(st, ops);
      SpacedIsSettled(StackAfter(st, ops[0]), ops[1..]);
    }
  }
}
