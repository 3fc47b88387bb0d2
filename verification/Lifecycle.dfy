/** The life of a block, from the request to its end, in the request's own terms: how long it holds, what
    is stored of it, what undoes it, and what a tick of the sweep leaves. */
module Lifecycle {
  import opened Prelude
  import opened Iptables
  import opened BlockRules
  import opened KernelTheorems
  import opened BlockStore
  import opened FilterModel
  import opened FilterService
  import opened Enforcement
  import opened Refinement
  import opened Recovery
  import opened RecordStack

  predicate Unconcerned(steps: seq<Step>, ip: string) {
    forall i :: 0 <= i < |steps| ==> !Concerns(steps[i], ip)
  }

  predicate NoCrash(steps: seq<Step>) {
    forall i :: 0 <= i < |steps| ==> !steps[i].Crash?
  }

  // ---------------------------------------------------------------------------------------
  // How long a block holds.

  // The entry is mapped just as it was made, unless it has run out.
  ghost predicate Lives(s: State, ip: string, e: BlockedIp) {
    if ip in s.filter.blocked then s.filter.blocked[ip] == e else e.expiresAt <= s.now
  }

  lemma NextLives(s: State, iface: string, step: Step, ip: string, e: BlockedIp)
    requires Lives(s, ip, e) && Enabled(s, step)
    requires !Concerns(step, ip) && !step.Crash? && !Loses(s, step, ip)
    ensures Lives(Next(s, iface, step), ip, e)
  {
  }

  lemma {:induction false} RunLives(s: State, iface: string, steps: seq<Step>, ip: string, e: BlockedIp)
    requires Lives(s, ip, e) && Runs(s, iface, steps)
    requires Unconcerned(steps, ip) && NoCrash(steps) && Harmless(s, iface, steps, ip)
    ensures Lives(Run(s, iface, steps), ip, e)
    decreases |steps|
  {
    if steps != [] {
      NextLives(s, iface, steps[0], ip, e);
      RunLives(Next(s, iface, steps[0]), iface, steps[1..], ip, e);
    }
  }

  lemma BlockMakesEntry(s: State, iface: string, r: BlockRequest, at: int, f: seq<Fault>, stored: bool, ip: string)
    requires Ipv4.Normalize(r.ip) == Some(ip) && Apply(s.filter.table, iface, ip, f).1
    ensures var until := at + 3_600_000_000_000 * r.hours;
            Lives(NextBlock(s, iface, r, at, f, stored), ip,
                  BlockedIp(at, until, at, until, r.reason, r.threatLevel % 256, r.source))
  {
  }

  /** A successful block of h hours is refused until 3600 h seconds after the request and no longer, with
      the reason and level of the request, through everything that does not block, unblock or restore the
      address, crash the process, or sweep the entry before its time. */
  lemma BlockLastsItsHours(s: State, iface: string, r: BlockRequest, at: int, f: seq<Fault>, stored: bool, s1: State,
                           steps: seq<Step>, ip: string, t: int)
    requires Ipv4.Normalize(r.ip) == Some(ip) && Apply(s.filter.table, iface, ip, f).1
    requires s1 == NextBlock(s, iface, r, at, f, stored) && Runs(s1, iface, steps)
    requires Unconcerned(steps, ip) && NoCrash(steps) && Harmless(s1, iface, steps, ip)
    requires Run(s1, iface, steps).now <= t
    ensures var blocked := Run(s1, iface, steps).filter.blocked;
            && (CacheSays(blocked, ip, t) <==> t < at + 3_600_000_000_000 * r.hours)
            && (CacheSays(blocked, ip, t) ==>
                  && blocked[ip].reason == r.reason && blocked[ip].threatLevel == r.threatLevel % 256
                  && blocked[ip].source == r.source)
  {
    var until := at + 3_600_000_000_000 * r.hours;
    var e := BlockedIp(at, until, at, until, r.reason, r.threatLevel % 256, r.source);
    BlockMakesEntry(s, iface, r, at, f, stored, ip);
    RunLives(s1, iface, steps, ip, e);
  }

  // ---------------------------------------------------------------------------------------
  // What is stored, and what an unblock takes back.

  /** The record of a block: the address, the request, and the milliseconds in which it was made and in
      which it runs out. */
  lemma RecordSaysRequest(ip: string, r: BlockRequest, at: int)
    ensures NewDoc(ip, r, at) ==
            Doc(ip, r.reason, r.threatLevel, r.source, true, Some(1_000_000 * (at / 1_000_000)),
                Some(1_000_000 * ((at + 3_600_000_000_000 * r.hours) / 1_000_000)), None, None)
  {
  }

  /** A successful, stored block adds that record, and puts it on the stack of the address. */
  lemma BlockIsRecorded(s: State, iface: string, r: BlockRequest, at: int, f: seq<Fault>, ip: string)
    requires Ipv4.Normalize(r.ip) == Some(ip) && Apply(s.filter.table, iface, ip, f).1
    ensures var s' := NextBlock(s, iface, r, at, f, true);
            && s'.docs == s.docs + [NewDoc(ip, r, at)]
            && StackOf(s'.docs, ip) == StackOf(s.docs, ip) + [NewDoc(ip, r, at)]
  {
    StackOfPush(s.docs, NewDoc(ip, r, at), ip);
  }

  lemma UnconcernedIsStay(s: State, iface: string, step: Step, ip: string)
    requires !Concerns(step, ip)
    ensures OpOf(s, iface, step, ip) == Stay
  {
  }

  lemma {:induction false} UnconcernedKeepsStack(s: State, iface: string, steps: seq<Step>, ip: string)
    requires Runs(s, iface, steps) && Unconcerned(steps, ip)
    ensures StackOf(Run(s, iface, steps).docs, ip) == StackOf(s.docs, ip)
    decreases |steps|
  {
    if steps != [] {
      UnconcernedIsStay(s, iface, steps[0], ip);
      NextStack(s, iface, steps[0], ip);
      UnconcernedKeepsStack(Next(s, iface, steps[0]), iface, steps[1..], ip);
    }
  }

  // Every record on the stack was made in an earlier millisecond than `at` (or carries no date).
  predicate MadeBefore(st: seq<Doc>, at: int) {
    forall i :: 0 <= i < |st| && st[i].blockedAt.Some? ==> st[i].blockedAt.value < 1_000_000 * (at / 1_000_000)
  }

  lemma OnlyLastIsNewest(st: seq<Doc>, ip: string, r: BlockRequest, at: int)
    requires MadeBefore(st, at)
    ensures Settled(st + [NewDoc(ip, r, at)])
  {
    var all := st + [NewDoc(ip, r, at)];
    forall p: nat | NoneNewer(all, p) ensures OnlyCopiesAbove(all, p) {
      assert NoLater(all[|st|].blockedAt, all[p].blockedAt);
      assert p == |st|;
    }
  }

  // A successful, stored block of `ip` leads from s to s'.
  ghost predicate BlocksTo(s: State, iface: string, r: BlockRequest, at: int, f: seq<Fault>, ip: string, s': State) {
    && Ipv4.Normalize(r.ip) == Some(ip) && Apply(s.filter.table, iface, ip, f).1
    && s' == NextBlock(s, iface, r, at, f, true)
  }

  // Steps that do not concern `ip` lead from s to s'.
  ghost predicate IdlesTo(s: State, iface: string, steps: seq<Step>, ip: string, s': State) {
    Runs(s, iface, steps) && Unconcerned(steps, ip) && s' == Run(s, iface, steps)
  }

  // A successful, stored unblock of `ip` leads from s to s', whatever newest record the store picks.
  ghost predicate UnblocksTo(s: State, iface: string, target: string, reason: string, at: int, f: seq<Fault>,
                             newest: nat, ip: string, s': State)
  {
    && Ipv4.Normalize(target) == Some(ip) && Remove(s.filter.table, iface, ip, f).1
    && Enabled(s, Step.Unblock(target, reason, at, f, newest, true))
    && s' == NextUnblock(s, iface, target, reason, at, f, newest, true)
  }

  lemma BlockPushes(s: State, iface: string, r: BlockRequest, at: int, f: seq<Fault>, ip: string, s': State)
    requires BlocksTo(s, iface, r, at, f, ip, s')
    ensures StackOf(s'.docs, ip) == StackOf(s.docs, ip) + [NewDoc(ip, r, at)]
  {
    BlockIsRecorded(s, iface, r, at, f, ip);
  }

  lemma UnblockPops(s: State, iface: string, target: string, reason: string, at: int, f: seq<Fault>, newest: nat,
                    ip: string, s': State)
    requires UnblocksTo(s, iface, target, reason, at, f, newest, ip, s') && Settled(StackOf(s.docs, ip))
    ensures var st := StackOf(s.docs, ip); StackOf(s'.docs, ip) == if st == [] then [] else st[..|st| - 1]
  {
    NextStackIff(s, iface, Step.Unblock(target, reason, at, f, newest, true), ip);
  }

  lemma IdleKeepsStack(s: State, iface: string, steps: seq<Step>, ip: string, s': State)
    requires IdlesTo(s, iface, steps, ip, s')
    ensures StackOf(s'.docs, ip) == StackOf(s.docs, ip)
  {
    UnconcernedKeepsStack(s, iface, steps, ip);
  }

  /** An unblock takes back the latest block: where the address's records are all from earlier milliseconds,
      a stored block followed, after steps that do not concern the address, by a stored unblock leaves the
      records as they were, whichever record the store picks. */
  lemma LatestBlockIsUndone(s: State, iface: string, r: BlockRequest, at: int, f: seq<Fault>, s1: State,
                            steps: seq<Step>, s2: State, target: string, reason: string, later: int, g: seq<Fault>,
                            newest: nat, s3: State, ip: string)
    requires MadeBefore(StackOf(s.docs, ip), at) && BlocksTo(s, iface, r, at, f, ip, s1)
    requires IdlesTo(s1, iface, steps, ip, s2) && UnblocksTo(s2, iface, target, reason, later, g, newest, ip, s3)
    ensures StackOf(s3.docs, ip) == StackOf(s.docs, ip)
  {
    BlockPushes(s, iface, r, at, f, ip, s1);
    IdleKeepsStack(s1, iface, steps, ip, s2);
    OnlyLastIsNewest(StackOf(s.docs, ip), ip, r, at);
    UnblockPops(s2, iface, target, reason, later, g, newest, ip, s3);
    assert (StackOf(s.docs, ip) + [NewDoc(ip, r, at)])[..|StackOf(s.docs, ip)|] == StackOf(s.docs, ip);
  }

  /** So of two blocks in different milliseconds, made when the address had no record, the unblock takes back
      the second and leaves exactly the record of the first. */
  lemma SecondBlockIsUndone(s: State, iface: string, first: BlockRequest, a: int, f: seq<Fault>, s1: State,
                            between: seq<Step>, s2: State, second: BlockRequest, b: int, g: seq<Fault>, s3: State,
                            after: seq<Step>, s4: State, target: string, reason: string, c: int, h: seq<Fault>,
                            newest: nat, s5: State, ip: string)
    requires StackOf(s.docs, ip) == [] && a / 1_000_000 < b / 1_000_000
    requires BlocksTo(s, iface, first, a, f, ip, s1) && IdlesTo(s1, iface, between, ip, s2)
    requires BlocksTo(s2, iface, second, b, g, ip, s3) && IdlesTo(s3, iface, after, ip, s4)
    requires UnblocksTo(s4, iface, target, reason, c, h, newest, ip, s5)
    ensures StackOf(s5.docs, ip) == [NewDoc(ip, first, a)]
  {
    BlockPushes(s, iface, first, a, f, ip, s1);
    IdleKeepsStack(s1, iface, between, ip, s2);
    assert StackOf(s2.docs, ip) == [NewDoc(ip, first, a)];
    LatestBlockIsUndone(s2, iface, second, b, g, s3, after, s4, target, reason, c, h, newest, s5, ip);
  }

  // Every stored block of the address in the run falls into a later millisecond than the one before it.
  ghost predicate SpreadOut(s: State, iface: string, steps: seq<Step>, ip: string, last: Option<int>)
    decreases |steps|
  {
    steps == [] ||
    (var s', at := Next(s, iface, steps[0]), steps[0].at;
     if OpOf(s, iface, steps[0], ip).Push?
     then (last.Some? ==> last.value / 1_000_000 < at / 1_000_000) && SpreadOut(s', iface, steps[1..], ip, Some(at))
     else SpreadOut(s', iface, steps[1..], ip, last))
  }

  // No record on the stack is dated after the millisecond of the last block, if there was one.
  ghost predicate NoLaterThan(st: seq<Doc>, last: Option<int>) {
    && (last.None? ==> st == [])
    && forall i :: 0 <= i < |st| ==>
         st[i].blockedAt.Some? && (last.Some? ==> st[i].blockedAt.value <= 1_000_000 * (last.value / 1_000_000))
  }

  lemma PushIsRecorded(s: State, iface: string, step: Step, ip: string)
    requires OpOf(s, iface, step, ip).Push?
    ensures step.Block? && OpOf(s, iface, step, ip) == Push(NewDoc(ip, step.request, step.at))
  {
  }

  /** Judged by the times of the steps alone: over a run whose stored blocks of the address fall into different
      milliseconds, every unblock meets a settled stack, so the records form a stack throughout. */
  lemma {:induction false} BlocksApartFormAStack(s: State, iface: string, steps: seq<Step>, ip: string,
                                                 last: Option<int>)
    requires Runs(s, iface, steps) && SpreadOut(s, iface, steps, ip, last)
    requires Chronological(StackOf(s.docs, ip)) && NoLaterThan(StackOf(s.docs, ip), last)
    ensures AlwaysAStack(s, iface, steps, ip)
    ensures Chronological(StackOf(Run(s, iface, steps).docs, ip))
    decreases |steps|
  {
    if steps != [] {
      var s', op := Next(s, iface, steps[0]), OpOf(s, iface, steps[0], ip);
      var st := StackOf(s.docs, ip);
      ChronologicalIsSettled(st);
      NextStackIff(s, iface, steps[0], ip);
      if op.Push? { PushIsRecorded(s, iface, steps[0], ip); }
      StackStaysDated(st, op, if op.Push? then steps[0].at else 0, last);
      BlocksApartFormAStack(s', iface, steps[1..], ip, if op.Push? then Some(steps[0].at) else last);
    }
  }

  lemma StackStaysDated(st: seq<Doc>, op: Op, at: int, last: Option<int>)
    requires Chronological(st) && NoLaterThan(st, last)
    requires op.Push? ==> && op.doc.blockedAt == Some(1_000_000 * (at / 1_000_000))
                          && (last.Some? ==> last.value / 1_000_000 < at / 1_000_000)
    ensures Chronological(StackAfter(st, op))
    ensures NoLaterThan(StackAfter(st, op), if op.Push? then Some(at) else last)
  {
  }

  // ---------------------------------------------------------------------------------------
  // What a tick of the sweep leaves.

  predicate OnlySweeps(steps: seq<Step>) {
    forall i :: 0 <= i < |steps| ==> steps[i].Sweep? && Faultless(steps[i].faults)
  }

  lemma {:induction false} SweepsDropCollected(s: State, iface: string, steps: seq<Step>)
    requires Runs(s, iface, steps) && OnlySweeps(steps)
    ensures var s' := Run(s, iface, steps);
            && s'.sweeping <= s.sweeping
            && s'.filter.blocked == s.filter.blocked - (s.sweeping - s'.sweeping)
    decreases |steps|
  {
    if steps != [] {
      var s1 := Next(s, iface, steps[0]);
      SweepsDropCollected(s1, iface, steps[1..]);
      var left := Run(s, iface, steps).sweeping;
      assert s.sweeping - left == {steps[0].ip} + (s1.sweeping - left);
    }
  }

  // The rules of a collected address are unique until it is dropped, and gone afterwards.
  ghost predicate GoneOnceDropped(s: State, iface: string, ip: string) {
    if ip in s.sweeping then AtMostOnce(iface, ip, s.filter.table) else NoneLeft(iface, ip, s.filter.table)
  }

  lemma {:induction false} SweepsRemoveRules(s: State, iface: string, steps: seq<Step>, ip: string)
    requires Runs(s, iface, steps) && OnlySweeps(steps) && GoneOnceDropped(s, iface, ip)
    ensures GoneOnceDropped(Run(s, iface, steps), iface, ip)
    decreases |steps|
  {
    if steps != [] {
      var a, f := steps[0].ip, steps[0].faults;
      if a == ip {
        SweptIsGone(s, iface, ip, steps[0].at, f);
      } else {
        RemoveElsewhere(iface, a, ip, s.filter.table, f);
      }
      SweepsRemoveRules(Next(s, iface, steps[0]), iface, steps[1..], ip);
    }
  }

  /** A scan at any time, followed by faultless drops of all it collected, leaves mapped exactly the
      addresses whose entries have not run out, and no rule of a dropped one whose rules were unique. */
  lemma TickClearsExpired(s: State, iface: string, at: int, steps: seq<Step>)
    requires Enabled(s, Scan(at))
    requires var s1 := Next(s, iface, Scan(at));
             Runs(s1, iface, steps) && OnlySweeps(steps) && Run(s1, iface, steps).sweeping == {}
    ensures var s' := Run(Next(s, iface, Scan(at)), iface, steps);
            && (forall ip :: ip in s'.filter.blocked <==> ip in s.filter.blocked && at < s.filter.blocked[ip].expiresAt)
            && (forall ip :: ip in s'.filter.blocked ==> s'.filter.blocked[ip] == s.filter.blocked[ip])
            && (forall ip ::
                  ip in ExpiredAt(s.filter, at) && AtMostOnce(iface, ip, s.filter.table) ==>
                    NoneLeft(iface, ip, s'.filter.table))
  {
    var s1 := Next(s, iface, Scan(at));
    var s' := Run(s1, iface, steps);
    SweepsDropCollected(s1, iface, steps);
    assert s1.sweeping - {} == s1.sweeping;
    forall ip | ip in s.filter.blocked && s.filter.blocked[ip].expiresAt <= at && AtMostOnce(iface, ip, s.filter.table)
      ensures NoneLeft(iface, ip, s'.filter.table)
    {
      SweepsRemoveRules(s1, iface, steps, ip);
    }
  }

  // ---------------------------------------------------------------------------------------
  // When nothing fails.

  predicate Clean(step: Step) {
    match step
    case Block(_, _, f, stored) => Faultless(f) && stored
    case Unblock(_, _, _, f, _, stored) => Faultless(f) && stored
    case Sweep(_, _, f) => Faultless(f)
    case RestoreStored(_, _, f) => Faultless(f)
    case _ => true
  }

  // Nothing is held against any address.
  ghost predicate Blameless(s: State) {
    s.hist.suspect == {} && s.hist.doubled == {} && s.hist.unstored == {}
  }

  lemma CleanBlockIsBlameless(h: History, t: Table, iface: string, ip: string, f: seq<Fault>, until: int)
    requires BuiltIns(t) && Faultless(f) && h.suspect == {} && h.doubled == {} && h.unstored == {}
    ensures var (t', ok) := Apply(t, iface, ip, f);
            var h' := AfterBlock(h, ip, ok, until, Duplicates(t, iface, ip, f), true);
            ok && h'.suspect == {} && h'.doubled == {} && h'.unstored == {} && t'.Keys == t.Keys
  {
    NoFaultMeansSuccess(t, iface, ip, f, 0);
    ApplyOnlyAdds(t, RuleSpecs(iface, ip), f, 0, Input, Foreign(0));
    assert forall k :: 0 <= k < 6 ==> !FaultAt(f, 2 * k).ExitFault?;
  }

  lemma NextIsBlameless(s: State, iface: string, step: Step)
    requires Blameless(s) && BuiltIns(s.filter.table) && Clean(step)
    ensures Blameless(Next(s, iface, step))
  {
    match step
    case Block(r, at, f, stored) =>
      var ip := Ipv4.Normalize(r.ip);
      if ip.Some? {
        CleanBlockIsBlameless(s.hist, s.filter.table, iface, ip.value, f, at + Hours(r.hours));
        BlockShape(s, iface, r, at, f, stored, ip.value);
      }
    case Unblock(target, reason, at, f, newest, stored) =>
      var ip := Ipv4.Normalize(target);
      if ip.Some? { NoFaultMeansRemoved(s.filter.table, RuleSpecs(iface, ip.value), f, 0); }
    case RestoreStored(d, at, f) =>
      if d.expiresAt.Some? {
        CleanBlockIsBlameless(s.hist, s.filter.table, iface, d.ip, f, at + RemainingLife(d.expiresAt.value, at));
      }
    case _ =>
  }

  lemma {:induction false} CleanRunsAreBlameless(s: State, iface: string, steps: seq<Step>)
    requires Blameless(s) && BuiltIns(s.filter.table) && Runs(s, iface, steps)
    requires forall i :: 0 <= i < |steps| ==> Clean(steps[i])
    ensures Blameless(Run(s, iface, steps))
    decreases |steps|
  {
    if steps != [] {
      NextIsBlameless(s, iface, steps[0]);
      NextIsGoodEdit(s, iface, steps[0], map[], Next(s, iface, steps[0]).hist.targets);
      CleanRunsAreBlameless(Next(s, iface, steps[0]), iface, steps[1..]);
    }
  }

  /** The marks that provisos speak of go away again: a successful block, restore, unblock or faultless drop
      clears what was held against the address, and a look-up that evicts nothing marks nothing. */
  lemma MarksAreCleared(s: State, iface: string, ip: string, at: int, f: seq<Fault>, t: Table, until: int)
    ensures var h := AfterBlock(s.hist, ip, true, until, Duplicates(t, iface, ip, f), true);
            ip !in h.suspect && ip !in h.unstored && h.loose == s.hist.loose
    ensures ip !in AfterUnblock(s.hist, ip, true).loose && AfterUnblock(s.hist, ip, true).suspect == s.hist.suspect
    ensures Faultless(f) ==> ip !in NextSweep(s, iface, ip, at, f).hist.loose
    ensures ip !in ExpiredAt(s.filter, at) ==> NextPacket(s, ip, at).hist == s.hist
  {
  }

  /** Without faults and failed writes the provisos fall away: over any such run from a fresh process, every
      mapped address has all its rules, exactly one of each if it had at most one, and a record that
      outlives the mapping but for one second at most. */
  lemma CleanRunsNeedNoProviso(s: State, iface: string, steps: seq<Step>, ip: string)
    requires Started(s) && BuiltIns(s.filter.table) && Runs(s, iface, steps)
    requires forall i :: 0 <= i < |steps| ==> Clean(steps[i])
    ensures var s' := Run(s, iface, steps);
            && (ip in s'.filter.blocked ==> Enforced(iface, ip, s'.filter.table))
            && (AtMostOnce(iface, ip, s.filter.table) ==> AtMostOnce(iface, ip, s'.filter.table))
            && (ip in s'.filter.blocked ==>
                  exists d :: d in s'.docs && ActiveFor(d, ip) && d.expiresAt.Some?
                              && s'.filter.blocked[ip].expiresAt <= d.expiresAt.value + 1_000_000_000)
  {
    var s' := Run(s, iface, steps);
    CleanRunsAreBlameless(s, iface, steps);
    RunKept(s, iface, steps, ip);
    if ip in s'.filter.blocked {
      CachedImpliesEnforced(s, iface, steps, ip);
      MappedIsStored(s, iface, steps, ip);
    }
  }
}
