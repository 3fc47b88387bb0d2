/** The fast path answers what the log of successful operations says. */
module Refinement {
  import opened Prelude
  import opened Iptables
  import opened BlockRules
  import opened KernelTheorems
  import opened BlockStore
  import opened FilterModel
  import opened FilterService
  import opened Enforcement

  // Until when the last operation on `ip` blocked it; None if that was an unblock or there was none.
  function LastWord(log: seq<Event>, ip: string): Option<int> {
    if log == [] then None
    else
      var e := log[|log| - 1];
      if e.ip == ip then (if e.Blocked? then Some(e.until) else None)
      else LastWord(log[..|log| - 1], ip)
  }

  predicate LogSays(log: seq<Event>, ip: string, t: int) {
    var w := LastWord(log, ip);
    w.Some? && t < w.value
  }

  lemma LastWordOfAppend(log: seq<Event>, e: Event, ip: string)
    ensures LastWord(log + [e], ip) ==
            if e.ip == ip then (if e.Blocked? then Some(e.until) else None) else LastWord(log, ip)
  {
    assert (log + [e])[..|log|] == log;
  }

  /** From now on, cache and log give the same answer about `ip`. */
  ghost predicate Agrees(s: State, ip: string) {
    forall t :: s.now <= t ==> CacheSays(s.filter.blocked, ip, t) == LogSays(s.hist.log, ip, t)
  }

  // A successful operation changes cache and log alike.
  lemma LoggedAgrees(s: State, s': State, ip: string, e: Event)
    requires Agrees(s, ip) && s.now <= s'.now && s'.hist.log == s.hist.log + [e]
    requires s'.filter.blocked.Keys ==
             if e.Blocked? then s.filter.blocked.Keys + {e.ip} else s.filter.blocked.Keys - {e.ip}
    requires e.Blocked? ==> s'.filter.blocked[e.ip].expiresAt == e.until
    requires forall a :: a in s'.filter.blocked && a != e.ip ==> s'.filter.blocked[a] == s.filter.blocked[a]
    ensures Agrees(s', ip)
  {
    LastWordOfAppend(s.hist.log, e, ip);
    forall t | s'.now <= t ensures CacheSays(s'.filter.blocked, ip, t) == LogSays(s'.hist.log, ip, t) {
      assert CacheSays(s.filter.blocked, ip, t) == LogSays(s.hist.log, ip, t);
    }
  }

  lemma SilentAgrees(s: State, s': State, ip: string)
    requires Agrees(s, ip) && s.now <= s'.now && s'.hist.log == s.hist.log && s'.filter.blocked == s.filter.blocked
    ensures Agrees(s', ip)
  {
    forall t | s'.now <= t ensures CacheSays(s'.filter.blocked, ip, t) == LogSays(s'.hist.log, ip, t) {
      assert CacheSays(s.filter.blocked, ip, t) == LogSays(s.hist.log, ip, t);
    }
  }

  lemma BlockAgrees(s: State, iface: string, r: BlockRequest, at: int, f: seq<Fault>, stored: bool, ip: string)
    requires Agrees(s, ip) && s.now <= at
    ensures Agrees(NextBlock(s, iface, r, at, f, stored), ip)
  {
    var s' := NextBlock(s, iface, r, at, f, stored);
    var a := Ipv4.Normalize(r.ip);
    if a.Some? && s'.hist.log != s.hist.log {
      LoggedAgrees(s, s', ip, Blocked(a.value, at + Hours(r.hours)));
    } else {
      SilentAgrees(s, s', ip);
    }
  }

  lemma UnblockAgrees(s: State, iface: string, target: string, reason: string, at: int, f: seq<Fault>,
                      newest: nat, stored: bool, ip: string)
    requires Agrees(s, ip) && s.now <= at
    ensures Agrees(NextUnblock(s, iface, target, reason, at, f, newest, stored), ip)
  {
    var s' := NextUnblock(s, iface, target, reason, at, f, newest, stored);
    var a := Ipv4.Normalize(target);
    if a.Some? && s'.hist.log != s.hist.log {
      LoggedAgrees(s, s', ip, Unblocked(a.value));
    } else {
      SilentAgrees(s, s', ip);
    }
  }

  lemma RestoreAgrees(s: State, iface: string, d: Doc, at: int, f: seq<Fault>, ip: string)
    requires Agrees(s, ip) && s.now <= at
    ensures Agrees(NextRestore(s, iface, d, at, f), ip)
  {
    var s' := NextRestore(s, iface, d, at, f);
    if s'.hist.log != s.hist.log {
      LoggedAgrees(s, s', ip, Blocked(d.ip, at + RemainingLife(d.expiresAt.value, at)));
    } else {
      SilentAgrees(s, s', ip);
    }
  }

  lemma PacketAgrees(s: State, src: string, at: int, ip: string)
    requires Agrees(s, ip) && s.now <= at
    ensures Agrees(NextPacket(s, src, at), ip)
  {
    forall t | at <= t ensures CacheSays(Evict(s.filter, src, at).blocked, ip, t) == LogSays(s.hist.log, ip, t) {
      EvictionChangesNoAnswer(s.filter, src, at, ip, t);
      assert CacheSays(s.filter.blocked, ip, t) == LogSays(s.hist.log, ip, t);
    }
  }

  // The sweep drops `ip` although its entry has not run out.
  predicate Loses(s: State, step: Step, ip: string) {
    step.Sweep? && step.ip == ip && CacheSays(s.filter.blocked, ip, step.at)
  }

  lemma NextAgreesIff(s: State, iface: string, step: Step, ip: string)
    requires Agrees(s, ip) && Enabled(s, step)
    ensures Agrees(Next(s, iface, step), ip) <==> !Loses(s, step, ip)
  {
    match step
    case Block(r, at, f, stored) => BlockAgrees(s, iface, r, at, f, stored, ip);
    case Unblock(target, reason, at, f, newest, stored) =>
      UnblockAgrees(s, iface, target, reason, at, f, newest, stored, ip);
    case Packet(src, at) => PacketAgrees(s, src, at, ip);
    case Sweep(a, at, f) =>
      if a == ip { SweepHarmlessIff(s, iface, ip, at, f); } else { SweepOfAnother(s, iface, a, at, f, ip); }
    case RestoreStored(d, at, f) => RestoreAgrees(s, iface, d, at, f, ip);
    case Scan(at) => SilentAgrees(s, Next(s, iface, step), ip);
    case Crash(at) =>
  }

  lemma SweepOfAnother(s: State, iface: string, a: string, at: int, f: seq<Fault>, ip: string)
    requires Agrees(s, ip) && s.now <= at && a != ip
    ensures Agrees(NextSweep(s, iface, a, at, f), ip)
  {
    forall t | at <= t ensures CacheSays(Without(s.filter.blocked, a), ip, t) == LogSays(s.hist.log, ip, t) {
      assert CacheSays(s.filter.blocked, ip, t) == LogSays(s.hist.log, ip, t);
    }
  }

  // Cache and log agree about `ip` at every moment of the run.
  ghost predicate AlwaysAgrees(s: State, iface: string, steps: seq<Step>, ip: string)
    decreases |steps|
  {
    Agrees(s, ip) && (steps != [] ==> AlwaysAgrees(Next(s, iface, steps[0]), iface, steps[1..], ip))
  }

  // Whenever a sweep drops `ip`, its entry is gone or has run out by then.
  ghost predicate Harmless(s: State, iface: string, steps: seq<Step>, ip: string)
    decreases |steps|
  {
    steps == [] || (!Loses(s, steps[0], ip) && Harmless(Next(s, iface, steps[0]), iface, steps[1..], ip))
  }

  /** Over any run from a state where they agree (a fresh process does), an address is refused, at every
      moment and every later time, exactly as its last successful operation says, if and only if no
      sweep in the run drops an entry of that address that has not run out. */
  lemma {:induction false} FastPathRefinesLog(s: State, iface: string, steps: seq<Step>, ip: string)
    requires Agrees(s, ip) && Runs(s, iface, steps)
    ensures AlwaysAgrees(s, iface, steps, ip) <==> Harmless(s, iface, steps, ip)
    ensures Harmless(s, iface, steps, ip) ==> Agrees(Run(s, iface, steps), ip)
    decreases |steps|
  {
    if steps != [] {
      NextAgreesIff(s, iface, steps[0], ip);
      if !Loses(s, steps[0], ip) {
        FastPathRefinesLog(Next(s, iface, steps[0]), iface, steps[1..], ip);
      } else {
        assert !AlwaysAgrees(Next(s, iface, steps[0]), iface, steps[1..], ip);
      }
    }
  }

  lemma StartedAgrees(s: State, ip: string)
    requires Started(s)
    ensures Agrees(s, ip)
  {
  }

  // Neither a block nor a restore is attempted on `ip` while a sweep has collected but not yet dropped it.
  predicate Quiet(s: State, step: Step, ip: string) {
    && (step.Block? && Ipv4.Normalize(step.request.ip) == Some(ip) ==> ip !in s.sweeping)
    && (step.RestoreStored? && step.doc.ip == ip ==> ip !in s.sweeping)
  }

  ghost predicate QuietRuns(s: State, iface: string, steps: seq<Step>, ip: string)
    decreases |steps|
  {
    steps == [] || (Quiet(s, steps[0], ip) && QuietRuns(Next(s, iface, steps[0]), iface, steps[1..], ip))
  }

  ghost predicate CollectedIsExpired(s: State, ip: string) {
    ip in s.sweeping && ip in s.filter.blocked ==> s.filter.blocked[ip].expiresAt <= s.now
  }

  lemma NextCollected(s: State, iface: string, step: Step, ip: string)
    requires CollectedIsExpired(s, ip) && Enabled(s, step) && Quiet(s, step, ip)
    ensures CollectedIsExpired(Next(s, iface, step), ip) && !Loses(s, step, ip)
  {
  }

  /** A run without a block or restore of the address during a sweep of it is harmless, so there the
      fast path is right at every moment. */
  lemma {:induction false} QuietIsHarmless(s: State, iface: string, steps: seq<Step>, ip: string)
    requires CollectedIsExpired(s, ip) && Runs(s, iface, steps) && QuietRuns(s, iface, steps, ip)
    ensures Harmless(s, iface, steps, ip)
    decreases |steps|
  {
    if steps != [] {
      NextCollected(s, iface, steps[0], ip);
      QuietIsHarmless(Next(s, iface, steps[0]), iface, steps[1..], ip);
    }
  }

  /** Evicting on lookup changes no answer, then or later. */
  lemma EvictionChangesNoAnswer(s: Filter, src: string, at: int, ip: string, t: int)
    requires at <= t
    ensures CacheSays(Evict(s, src, at).blocked, ip, t) == CacheSays(s.blocked, ip, t)
  {
  }

  /** Dropping a swept address is harmless exactly when its entry is still the expired one. */
  lemma SweepHarmlessIff(s: State, iface: string, ip: string, at: int, f: seq<Fault>)
    requires Agrees(s, ip) && Enabled(s, Sweep(ip, at, f))
    ensures Agrees(Next(s, iface, Sweep(ip, at, f)), ip) <==> !CacheSays(s.filter.blocked, ip, at)
  {
    var s' := Next(s, iface, Sweep(ip, at, f));
    assert ip !in s'.filter.blocked;
    if CacheSays(s.filter.blocked, ip, at) {
      assert !CacheSays(s'.filter.blocked, ip, at) && LogSays(s'.hist.log, ip, at);
    } else {
      forall t | at <= t ensures CacheSays(s'.filter.blocked, ip, t) == LogSays(s'.hist.log, ip, t) {
        assert CacheSays(s.filter.blocked, ip, t) == LogSays(s.hist.log, ip, t);
      }
    }
  }

  lemma CleanBlock(s: State, iface: string, r: BlockRequest, ip: string, at: int, f: seq<Fault>, stored: bool)
    requires Ipv4.Normalize(r.ip) == Some(ip) && BuiltIns(s.filter.table) && Faultless(f)
    ensures var s' := NextBlock(s, iface, r, at, f, stored);
            var until := at + Hours(r.hours);
            && s'.now == at && s'.sweeping == s.sweeping && s'.hist.log == s.hist.log + [Blocked(ip, until)]
            && ip in s'.filter.blocked && s'.filter.blocked[ip].expiresAt == until
            && s'.filter.table == Apply(s.filter.table, iface, ip, f).0
  {
    NoFaultMeansSuccess(s.filter.table, iface, ip, f, 0);
    BlockShape(s, iface, r, at, f, stored, ip);
  }

  lemma CleanBlockKernel(t: Table, iface: string, ip: string, f: seq<Fault>)
    requires BuiltIns(t) && AtMostOnce(iface, ip, t) && Faultless(f)
    ensures BuiltIns(Apply(t, iface, ip, f).0) && AtMostOnce(iface, ip, Apply(t, iface, ip, f).0)
  {
    ApplyOnlyAdds(t, RuleSpecs(iface, ip), f, 0, Input, Foreign(0));
    BlockKeepsAtMostOnce(iface, ip, t, f);
  }

  lemma SweptIsGone(s: State, iface: string, ip: string, at: int, f: seq<Fault>)
    requires Faultless(f)
    ensures var s' := NextSweep(s, iface, ip, at, f);
            && ip !in s'.filter.blocked && s'.hist.log == s.hist.log
            && (AtMostOnce(iface, ip, s.filter.table) ==> NoneLeft(iface, ip, s'.filter.table))
  {
    if AtMostOnce(iface, ip, s.filter.table) {
      var t' := Expire(s.filter.table, iface, ip, f);
      forall spec | spec in RuleSpecs(iface, ip) ensures CountOf(t', spec.chain, spec.rule) == 0 {
        var k :| 0 <= k < 6 && RuleSpecs(iface, ip)[k] == spec;
        ExpiryLeavesExactlyTheFailures(iface, ip, s.filter.table, f, k);
      }
    }
  }

  /** Reported as successful and not run out, but neither in the cache nor in the kernel. */
  ghost predicate Lost(s: State, iface: string, ip: string, at: int) {
    LogSays(s.hist.log, ip, at) && !CacheSays(s.filter.blocked, ip, at) && NoneLeft(iface, ip, s.filter.table)
  }

  /** The proviso bites: a block that lands between the two phases of a sweep is lost from the cache,
      and from the kernel if its rules were unique, although nothing failed. */
  lemma BlockDuringSweepIsLost(s: State, iface: string, r: BlockRequest, ip: string, at: int, f: seq<Fault>)
    requires Ipv4.Normalize(r.ip) == Some(ip) && ip in s.sweeping && r.hours > 0
    requires BuiltIns(s.filter.table) && Faultless(f)
    ensures var s1 := NextBlock(s, iface, r, at, f, true);
            var s2 := NextSweep(s1, iface, ip, at, f);
            && CacheSays(s1.filter.blocked, ip, at) && Enabled(s1, Sweep(ip, at, f))
            && LogSays(s2.hist.log, ip, at) && !CacheSays(s2.filter.blocked, ip, at)
            && (AtMostOnce(iface, ip, s.filter.table) ==> Lost(s2, iface, ip, at))
  {
    var s1 := NextBlock(s, iface, r, at, f, true);
    CleanBlock(s, iface, r, ip, at, f, true);
    if AtMostOnce(iface, ip, s.filter.table) { CleanBlockKernel(s.filter.table, iface, ip, f); }
    SweptIsGone(s1, iface, ip, at, f);
    LastWordOfAppend(s.hist.log, Blocked(ip, at + Hours(r.hours)), ip);
  }

  lemma RunOfFour(s: State, iface: string, q: seq<Step>, s1: State, s2: State, s3: State, s4: State)
    requires |q| == 4 && Enabled(s, q[0]) && Enabled(s1, q[1]) && Enabled(s2, q[2]) && Enabled(s3, q[3])
    requires Next(s, iface, q[0]) == s1 && Next(s1, iface, q[1]) == s2
    requires Next(s2, iface, q[2]) == s3 && Next(s3, iface, q[3]) == s4
    ensures Runs(s, iface, q) && Run(s, iface, q) == s4
  {
    var q1, q2, q3 := q[1..], q[2..], q[3..];
    assert q1[0] == q[1] && q1[1..] == q2 && q2[0] == q[2] && q2[1..] == q3 && q3[0] == q[3] && q3[1..] == [];
    assert Runs(s3, iface, q3) && Run(s3, iface, q3) == s4;
    assert Runs(s2, iface, q2) && Run(s2, iface, q2) == Run(s3, iface, q3);
    assert Runs(s1, iface, q1) && Run(s1, iface, q1) == Run(s2, iface, q2);
  }

  // A block, and the scan at the moment it runs out.
  lemma CollectedWhenOver(s: State, iface: string, r: BlockRequest, ip: string, end: int)
    requires s.sweeping == {} && BuiltIns(s.filter.table) && AtMostOnce(iface, ip, s.filter.table)
    requires Ipv4.Normalize(r.ip) == Some(ip) && end == s.now + Hours(r.hours)
    ensures var s1 := Next(s, iface, Step.Block(r, s.now, [], true));
            var s2 := Next(s1, iface, Scan(end));
            && Enabled(s, Step.Block(r, s.now, [], true)) && Enabled(s1, Scan(end))
            && s2.now == end && ip in s2.sweeping
            && BuiltIns(s2.filter.table) && AtMostOnce(iface, ip, s2.filter.table)
  {
    CleanBlock(s, iface, r, ip, s.now, [], true);
    CleanBlockKernel(s.filter.table, iface, ip, []);
  }

  lemma LostFrom(s: State, iface: string, r: BlockRequest, ip: string, at: int)
    requires Ipv4.Normalize(r.ip) == Some(ip) && ip in s.sweeping && r.hours > 0 && s.now == at
    requires BuiltIns(s.filter.table) && AtMostOnce(iface, ip, s.filter.table)
    ensures var s1 := Next(s, iface, Step.Block(r, at, [], true));
            && Enabled(s, Step.Block(r, at, [], true)) && Enabled(s1, Sweep(ip, at, []))
            && Lost(Next(s1, iface, Sweep(ip, at, [])), iface, ip, at)
  {
    BlockDuringSweepIsLost(s, iface, r, ip, at, []);
  }

  lemma LosingStates(s: State, iface: string, r: BlockRequest, ip: string)
    returns (q: seq<Step>, s1: State, s2: State, s3: State, s4: State)
    requires s.sweeping == {} && BuiltIns(s.filter.table) && AtMostOnce(iface, ip, s.filter.table)
    requires Ipv4.Normalize(r.ip) == Some(ip) && r.hours > 0
    ensures |q| == 4 && Enabled(s, q[0]) && Enabled(s1, q[1]) && Enabled(s2, q[2]) && Enabled(s3, q[3])
    ensures Next(s, iface, q[0]) == s1 && Next(s1, iface, q[1]) == s2
    ensures Next(s2, iface, q[2]) == s3 && Next(s3, iface, q[3]) == s4
    ensures s4.now == s.now + Hours(r.hours) && Lost(s4, iface, ip, s4.now)
  {
    var end := s.now + Hours(r.hours);
    q := [Step.Block(r, s.now, [], true), Scan(end), Step.Block(r, end, [], true), Sweep(ip, end, [])];
    CollectedWhenOver(s, iface, r, ip, end);
    s1 := Next(s, iface, q[0]);
    s2 := Next(s1, iface, q[1]);
    LostFrom(s2, iface, r, ip, end);
    s3 := Next(s2, iface, q[2]);
    s4 := Next(s3, iface, q[3]);
  }

  /** ... and every fresh process can get there: block, let the sweep collect the address when that runs
      out, block it again, and let the sweep go on. */
  lemma LosingRun(s: State, iface: string, r: BlockRequest, ip: string) returns (steps: seq<Step>)
    requires Started(s) && BuiltIns(s.filter.table) && AtMostOnce(iface, ip, s.filter.table)
    requires Ipv4.Normalize(r.ip) == Some(ip) && r.hours > 0
    ensures Runs(s, iface, steps) && Lost(Run(s, iface, steps), iface, ip, Run(s, iface, steps).now)
    ensures !Harmless(s, iface, steps, ip)
  {
    var s1, s2, s3, s4;
    steps, s1, s2, s3, s4 := LosingStates(s, iface, r, ip);
    RunOfFour(s, iface, steps, s1, s2, s3, s4);
    StartedAgrees(s, ip);
    FastPathRefinesLog(s, iface, steps, ip);
  }
}
