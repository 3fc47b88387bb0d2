/** The network filter over whole runs: handlers, packet look-ups, the two phases of the sweep,
    crashes and the replay of stored records, in any order and under any faults. */
module Enforcement {
  import opened Prelude
  import opened Iptables
  import opened BlockRules
  import opened KernelTheorems
  import opened BlockStore
  import opened FilterModel
  import opened FilterService

  datatype Event = Blocked(ip: string, until: int) | Unblocked(ip: string)

  /** What has happened so far, kept beside the state only to state properties about runs.
      `log` belongs to the current process and is lost with it. */
  datatype History = History(
    log: seq<Event>,
    suspect: set<string>,   // an unblock failed since the address was last blocked
    loose: set<string>,     // evicted on lookup, mapped at a crash, or left by a failed operation
    doubled: set<string>,   // a block added a second copy of a rule
    unstored: set<string>,  // the record of the latest block could not be written
    targets: set<string>)   // rules were ever edited for it

  datatype State = State(now: int, filter: Filter, docs: seq<Doc>, sweeping: set<string>, hist: History)

  datatype Step =
    | Block(request: BlockRequest, at: int, faults: seq<Fault>, stored: bool)
    | Unblock(target: string, reason: string, at: int, faults: seq<Fault>, newest: nat, stored: bool)
    | Packet(src: string, at: int)
    | Scan(at: int)
    | Sweep(ip: string, at: int, faults: seq<Fault>)
    | Crash(at: int)
    | RestoreStored(doc: Doc, at: int, faults: seq<Fault>)

  /** Time does not go back, the store selects a newest record, the sweep drops what it collected,
      and only active stored records are replayed. */
  ghost predicate Enabled(s: State, step: Step) {
    && s.now <= step.at
    && match step
       case Unblock(target, _, _, _, newest, _) =>
         var ip := Ipv4.Normalize(target);
         ip.Some? && StackOf(s.docs, ip.value) != [] ==> IsNewest(s.docs, ip.value, newest)
       case Scan(_) => s.sweeping == {}
       case Sweep(ip, _, _) => ip in s.sweeping
       case RestoreStored(doc, _, _) => doc in s.docs && doc.active
       case _ => true
  }

  predicate Faultless(f: seq<Fault>) {
    forall k :: 0 <= k < |f| ==> f[k].NoFault?
  }

  function AfterBlock(h: History, ip: string, ok: bool, until: int, twice: bool, stored: bool): History {
    History(
      if ok then h.log + [Blocked(ip, until)] else h.log,
      if ok then h.suspect - {ip} else h.suspect,
      if ok then h.loose else h.loose + {ip},
      if twice then h.doubled + {ip} else h.doubled,
      if !ok then h.unstored else if stored then h.unstored - {ip} else h.unstored + {ip},
      h.targets + {ip})
  }

  function AfterUnblock(h: History, ip: string, ok: bool): History {
    h.(log := if ok then h.log + [Unblocked(ip)] else h.log,
       suspect := if ok then h.suspect else h.suspect + {ip},
       loose := if ok then h.loose - {ip} else h.loose + {ip},
       targets := h.targets + {ip})
  }

  function NextBlock(s: State, iface: string, r: BlockRequest, at: int, f: seq<Fault>, stored: bool): State {
    var (filter, docs, status) := HandleBlock(s.filter, s.docs, iface, r, at, f, stored);
    var hist := match Ipv4.Normalize(r.ip)
      case None => s.hist
      case Some(ip) => AfterBlock(s.hist, ip, status.Ok?, at + Hours(r.hours),
                                    Duplicates(s.filter.table, iface, ip, f), stored);
    State(at, filter, docs, s.sweeping, hist)
  }

  function NextUnblock(s: State, iface: string, target: string, reason: string, at: int, f: seq<Fault>,
                       newest: nat, stored: bool): State
  {
    var (filter, docs, status) := HandleUnblock(s.filter, s.docs, iface, target, reason, at, f, newest, stored);
    var hist := match Ipv4.Normalize(target)
      case None => s.hist
      case Some(ip) => AfterUnblock(s.hist, ip, status.Ok?);
    State(at, filter, docs, s.sweeping, hist)
  }

  function NextPacket(s: State, src: string, at: int): State {
    var filter := Evict(s.filter, src, at);
    State(at, filter, s.docs, s.sweeping,
          if filter == s.filter then s.hist else s.hist.(loose := s.hist.loose + {src}))
  }

  function NextSweep(s: State, iface: string, ip: string, at: int, f: seq<Fault>): State {
    State(at, DropExpired(s.filter, iface, ip, f), s.docs, s.sweeping - {ip},
          s.hist.(loose := if Faultless(f) then s.hist.loose - {ip} else s.hist.loose + {ip},
                  targets := s.hist.targets + {ip}))
  }

  function NextCrash(s: State, at: int): State {
    State(at, Filter(map[], s.filter.table), s.docs, {},
          s.hist.(log := [], loose := s.hist.loose + s.filter.blocked.Keys))
  }

  function NextRestore(s: State, iface: string, d: Doc, at: int, f: seq<Fault>): State {
    var (filter, ok) := RestoreDoc(s.filter, iface, d, at, f);
    State(at, filter, s.docs, s.sweeping,
          if d.expiresAt.None? || d.expiresAt.value <= at then s.hist
          else AfterBlock(s.hist, d.ip, ok, at + RemainingLife(d.expiresAt.value, at),
                          Duplicates(s.filter.table, iface, d.ip, f), true))
  }

  function Next(s: State, iface: string, step: Step): State {
    match step
    case Block(r, at, f, stored) => NextBlock(s, iface, r, at, f, stored)
    case Unblock(target, reason, at, f, newest, stored) => NextUnblock(s, iface, target, reason, at, f, newest, stored)
    case Packet(src, at) => NextPacket(s, src, at)
    case Scan(at) => s.(now := at, sweeping := ExpiredAt(s.filter, at))
    case Sweep(ip, at, f) => NextSweep(s, iface, ip, at, f)
    case Crash(at) => NextCrash(s, at)
    case RestoreStored(d, at, f) => NextRestore(s, iface, d, at, f)
  }

  ghost predicate Runs(s: State, iface: string, steps: seq<Step>)
    decreases |steps|
  {
    steps == [] || (Enabled(s, steps[0]) && Runs(Next(s, iface, steps[0]), iface, steps[1..]))
  }

  function Run(s: State, iface: string, steps: seq<Step>): State
    decreases |steps|
  {
    if steps == [] then s else Run(Next(s, iface, steps[0]), iface, steps[1..])
  }

  /** A fresh process, on any kernel table and with whatever records are stored. */
  ghost predicate Started(s: State) {
    && s.filter.blocked == map[] && s.sweeping == {}
    && s.hist == History([], {}, {}, {}, {}, {})
  }

  predicate BuiltIns(t: Table) {
    Input in t && Output in t && Forward in t
  }

  // ---------------------------------------------------------------------------------------
  // Kernel shape over runs.

  lemma NextIsGoodEdit(s: State, iface: string, step: Step, original: Table, ips: set<string>)
    requires Next(s, iface, step).hist.targets <= ips && FreeOfManaged(iface, ips, original)
    requires Enabled(s, step)
    ensures SameOutside(iface, ips, s.filter.table, Next(s, iface, step).filter.table)
    ensures KeepsFront(iface, s.filter.table, Next(s, iface, step).filter.table)
    ensures Layered(iface, ips, original, s.filter.table) ==>
            Layered(iface, ips, original, Next(s, iface, step).filter.table)
    ensures s.hist.targets <= Next(s, iface, step).hist.targets
  {
    var t, t' := s.filter.table, Next(s, iface, step).filter.table;
    match step
    case Block(r, at, f, stored) =>
      var ip := Ipv4.Normalize(r.ip);
      if ip.Some? {
        ApplyIsGood(iface, ips, original, ip.value, t, f, 0);
        SameOutsideWiden(iface, ip.value, ips, t, t');
      }
    case Unblock(target, reason, at, f, newest, stored) =>
      var ip := Ipv4.Normalize(target);
      if ip.Some? {
        RemoveIsGood(iface, ips, original, ip.value, t, f, 0);
        SameOutsideWiden(iface, ip.value, ips, t, t');
      }
    case Sweep(ip, at, f) =>
      RemoveIsGood(iface, ips, original, ip, t, f, 0);
      SameOutsideWiden(iface, ip, ips, t, t');
    case RestoreStored(d, at, f) =>
      if t' != t {
        ApplyIsGood(iface, ips, original, d.ip, t, f, 0);
        SameOutsideWiden(iface, d.ip, ips, t, t');
      }
    case _ =>
  }

  lemma SameOutsideWiden(iface: string, ip: string, ips: set<string>, t: Table, t': Table)
    requires ip in ips && SameOutside(iface, {ip}, t, t')
    ensures SameOutside(iface, ips, t, t')
  {
    forall c | c in t ensures Strip(t[c], iface, c, ips) == Strip(t'[c], iface, c, ips) {
      StripTwice(t[c], iface, c, {ip}, ips);
      StripTwice(t'[c], iface, c, {ip}, ips);
    }
  }

  lemma NextTargetsGrow(s: State, iface: string, step: Step)
    ensures s.hist.targets <= Next(s, iface, step).hist.targets
  {
  }

  lemma {:induction false} TargetsGrow(s: State, iface: string, steps: seq<Step>)
    ensures s.hist.targets <= Run(s, iface, steps).hist.targets
    decreases |steps|
  {
    if steps != [] {
      NextTargetsGrow(s, iface, steps[0]);
      TargetsGrow(Next(s, iface, steps[0]), iface, steps[1..]);
    }
  }

  lemma {:induction false} RunIsGoodEdit(s: State, iface: string, steps: seq<Step>, original: Table, ips: set<string>)
    requires Runs(s, iface, steps)
    requires Run(s, iface, steps).hist.targets <= ips && FreeOfManaged(iface, ips, original)
    ensures SameOutside(iface, ips, s.filter.table, Run(s, iface, steps).filter.table)
    ensures KeepsFront(iface, s.filter.table, Run(s, iface, steps).filter.table)
    ensures Layered(iface, ips, original, s.filter.table) ==>
            Layered(iface, ips, original, Run(s, iface, steps).filter.table)
    decreases |steps|
  {
    if steps != [] {
      var s' := Next(s, iface, steps[0]);
      TargetsGrow(s', iface, steps[1..]);
      NextIsGoodEdit(s, iface, steps[0], original, ips);
      RunIsGoodEdit(s', iface, steps[1..], original, ips);
    }
  }

  lemma LayeredInitially(iface: string, ips: set<string>, t: Table)
    ensures Layered(iface, ips, t, t)
  {
  }

  /** Over any run under any faults: every chain keeps its own rules in order, with the sensor's
      rules in front of them on DOCKER-USER and behind them elsewhere, if none of the sensor's rules
      for the addresses targeted were there to begin with. */
  lemma ChainsStayLayered(s: State, iface: string, steps: seq<Step>)
    requires Runs(s, iface, steps) && FreeOfManaged(iface, Run(s, iface, steps).hist.targets, s.filter.table)
    ensures Layered(iface, Run(s, iface, steps).hist.targets, s.filter.table, Run(s, iface, steps).filter.table)
  {
    var ips := Run(s, iface, steps).hist.targets;
    RunIsGoodEdit(s, iface, steps, s.filter.table, ips);
    LayeredInitially(iface, ips, s.filter.table);
  }

  /** Traffic between addresses that were never targeted gets the verdict it always got, on every
      chain, from any starting table (managed-looking rules included). */
  lemma UntargetedTrafficUnaffected(s: State, iface: string, steps: seq<Step>, c: ChainName,
                                    p: Packet, foreign: (nat, Packet) -> Effect)
    requires Runs(s, iface, steps) && c in s.filter.table
    requires p.src !in Run(s, iface, steps).hist.targets && p.dst !in Run(s, iface, steps).hist.targets
    ensures c in Run(s, iface, steps).filter.table
    ensures Verdict(Run(s, iface, steps).filter.table[c], p, foreign) == Verdict(s.filter.table[c], p, foreign)
  {
    var ips := Run(s, iface, steps).hist.targets;
    RunIsGoodEdit(s, iface, steps, map[], ips);
    UninvolvedPacketsUnaffected(iface, ips, s.filter.table, Run(s, iface, steps).filter.table, c, p, foreign);
  }

  /** ... and a packet to or from an address that is mapped and not suspect is dropped on DOCKER-USER,
      whatever the administrator's own rules there are, if only drops stood before any rules for that
      address to begin with. */
  lemma BlockedAddressIsCutOff(s: State, iface: string, steps: seq<Step>, ip: string,
                               p: Packet, foreign: (nat, Packet) -> Effect)
    requires Started(s) && Runs(s, iface, steps)
    requires DockerUser in s.filter.table && OnlyDropsBefore(iface, ip, s.filter.table)
    requires ip in Run(s, iface, steps).filter.blocked && ip !in Run(s, iface, steps).hist.suspect
    requires p.src == ip || p.dst == ip
    ensures DockerUser in Run(s, iface, steps).filter.table
    ensures Verdict(Run(s, iface, steps).filter.table[DockerUser], p, foreign) == Dropped
  {
    var s' := Run(s, iface, steps);
    RunIsGoodEdit(s, iface, steps, map[], s'.hist.targets);
    CachedImpliesEnforced(s, iface, steps, ip);
    EnforcedAddressIsCutOff(iface, s'.filter.table, ip, p, foreign);
  }

  // ---------------------------------------------------------------------------------------
  // Cache against kernel over runs: three invariants about one address.

  ghost predicate EnforcedWhileMapped(s: State, iface: string, ip: string) {
    ip in s.filter.blocked && ip !in s.hist.suspect ==> Enforced(iface, ip, s.filter.table)
  }

  ghost predicate UniqueUnlessDoubled(s: State, iface: string, ip: string) {
    ip !in s.hist.doubled ==> AtMostOnce(iface, ip, s.filter.table)
  }

  ghost predicate Accounted(s: State, iface: string, ip: string) {
    NoneLeft(iface, ip, s.filter.table) || ip in s.filter.blocked || ip in s.hist.loose || ip in s.hist.doubled
  }

  /** What a step keeps: each invariant by itself, except that a clean removal rests on uniqueness. */
  ghost predicate KernelKept(s: State, s': State, iface: string, ip: string) {
    && (EnforcedWhileMapped(s, iface, ip) ==> EnforcedWhileMapped(s', iface, ip))
    && (UniqueUnlessDoubled(s, iface, ip) ==> UniqueUnlessDoubled(s', iface, ip))
    && (UniqueUnlessDoubled(s, iface, ip) && Accounted(s, iface, ip) ==> Accounted(s', iface, ip))
    && s.hist.doubled <= s'.hist.doubled
    && (ip in s'.hist.doubled && ip !in s.hist.doubled ==> !AtMostOnce(iface, ip, s'.filter.table))
  }

  lemma ApplyElsewhere(iface: string, target: string, ip: string, t: Table, f: seq<Fault>)
    requires target != ip
    ensures var t' := Apply(t, iface, target, f).0;
            && (Enforced(iface, ip, t) ==> Enforced(iface, ip, t'))
            && (AtMostOnce(iface, ip, t) ==> AtMostOnce(iface, ip, t'))
            && (NoneLeft(iface, ip, t) ==> NoneLeft(iface, ip, t'))
  {
    ApplyIsGood(iface, {target}, map[], target, t, f, 0);
    OtherAddressUnaffected(iface, target, ip, t, Apply(t, iface, target, f).0);
  }

  lemma RemoveElsewhere(iface: string, target: string, ip: string, t: Table, f: seq<Fault>)
    requires target != ip
    ensures forall t' | t' == Remove(t, iface, target, f).0 || t' == Expire(t, iface, target, f) ::
            && (Enforced(iface, ip, t) ==> Enforced(iface, ip, t'))
            && (AtMostOnce(iface, ip, t) ==> AtMostOnce(iface, ip, t'))
            && (NoneLeft(iface, ip, t) ==> NoneLeft(iface, ip, t'))
  {
    RemoveIsGood(iface, {target}, map[], target, t, f, 0);
    OtherAddressUnaffected(iface, target, ip, t, Remove(t, iface, target, f).0);
    OtherAddressUnaffected(iface, target, ip, t, Expire(t, iface, target, f));
  }

  // What a successful or failed run of the add loop does to the claims about one address.
  lemma ApplyKept(s: State, s': State, iface: string, target: string, ip: string, f: seq<Fault>,
                  until: int, stored: bool)
    requires s'.filter.table == Apply(s.filter.table, iface, target, f).0
    requires var ok := Apply(s.filter.table, iface, target, f).1;
             && s'.hist == AfterBlock(s.hist, target, ok, until, Duplicates(s.filter.table, iface, target, f), stored)
             && s'.filter.blocked.Keys == if ok then s.filter.blocked.Keys + {target} else s.filter.blocked.Keys
    ensures KernelKept(s, s', iface, ip)
  {
    var t := s.filter.table;
    if ip != target {
      ApplyElsewhere(iface, target, ip, t, f);
    } else {
      if Apply(t, iface, ip, f).1 { SuccessfulBlockEnforces(iface, ip, t, f); }
      if Enforced(iface, ip, t) { BlockKeepsEnforced(iface, ip, t, f); }
      BlockKeepsAtMostOnceIff(iface, ip, t, f);
    }
  }

  lemma UnblockKept(s: State, s': State, iface: string, target: string, ip: string, f: seq<Fault>)
    requires s'.filter == FilterModel.Unblock(s.filter, iface, target, f).0
    requires s'.hist == AfterUnblock(s.hist, target, FilterModel.Unblock(s.filter, iface, target, f).1)
    ensures KernelKept(s, s', iface, ip)
  {
    var t := s.filter.table;
    if ip != target {
      RemoveElsewhere(iface, target, ip, t, f);
    } else if AtMostOnce(iface, ip, t) {
      UnblockKeepsAtMostOnce(iface, ip, t, f);
      if Remove(t, iface, ip, f).1 { SuccessfulUnblockRemovesAll(iface, ip, t, f); }
    }
  }

  lemma SweepKept(s: State, iface: string, target: string, at: int, ip: string, f: seq<Fault>)
    ensures KernelKept(s, NextSweep(s, iface, target, at, f), iface, ip)
  {
    var t := s.filter.table;
    if ip != target {
      RemoveElsewhere(iface, target, ip, t, f);
    } else if AtMostOnce(iface, ip, t) {
      var t' := Expire(t, iface, ip, f);
      forall spec | spec in RuleSpecs(iface, ip)
        ensures CountOf(t', spec.chain, spec.rule) <= if Faultless(f) then 0 else 1
      {
        var k :| 0 <= k < 6 && RuleSpecs(iface, ip)[k] == spec;
        ExpiryLeavesExactlyTheFailures(iface, ip, t, f, k);
      }
    }
  }

  lemma BlockShape(s: State, iface: string, r: BlockRequest, at: int, f: seq<Fault>, stored: bool, target: string)
    requires Ipv4.Normalize(r.ip) == Some(target)
    ensures var s' := NextBlock(s, iface, r, at, f, stored);
            var (t, ok) := Apply(s.filter.table, iface, target, f);
            && s'.filter.table == t
            && s'.hist == AfterBlock(s.hist, target, ok, at + Hours(r.hours),
                                     Duplicates(s.filter.table, iface, target, f), stored)
            && s'.filter.blocked.Keys == (if ok then s.filter.blocked.Keys + {target} else s.filter.blocked.Keys)
            && s'.sweeping == s.sweeping && s'.now == at
            && (ok ==> s'.filter.blocked[target].expiresAt == at + Hours(r.hours))
  {
  }

  lemma UntouchedKept(s: State, s': State, iface: string, ip: string)
    requires s'.filter == s.filter && s'.hist == s.hist
    ensures KernelKept(s, s', iface, ip)
  {
  }

  lemma ReadableBlockKept(s: State, s': State, iface: string, r: BlockRequest, at: int, f: seq<Fault>, stored: bool,
                          target: string, ip: string)
    requires Ipv4.Normalize(r.ip) == Some(target) && s' == NextBlock(s, iface, r, at, f, stored)
    ensures KernelKept(s, s', iface, ip)
  {
    BlockShape(s, iface, r, at, f, stored, target);
    ApplyKept(s, s', iface, target, ip, f, at + Hours(r.hours), stored);
  }

  lemma UnreadableBlock(s: State, iface: string, r: BlockRequest, at: int, f: seq<Fault>, stored: bool)
    requires Ipv4.Normalize(r.ip).None?
    ensures NextBlock(s, iface, r, at, f, stored) == s.(now := at)
  {
  }

  lemma NextBlockKept(s: State, iface: string, r: BlockRequest, at: int, f: seq<Fault>, stored: bool, ip: string)
    ensures KernelKept(s, NextBlock(s, iface, r, at, f, stored), iface, ip)
  {
    var target, s' := Ipv4.Normalize(r.ip), NextBlock(s, iface, r, at, f, stored);
    if target.Some? {
      ReadableBlockKept(s, s', iface, r, at, f, stored, target.value, ip);
    } else {
      UnreadableBlock(s, iface, r, at, f, stored);
      UntouchedKept(s, s', iface, ip);
    }
  }

  lemma NextUnblockKept(s: State, iface: string, target: string, reason: string, at: int, f: seq<Fault>,
                        newest: nat, stored: bool, ip: string)
    ensures KernelKept(s, NextUnblock(s, iface, target, reason, at, f, newest, stored), iface, ip)
  {
    var a := Ipv4.Normalize(target);
    if a.Some? { UnblockKept(s, NextUnblock(s, iface, target, reason, at, f, newest, stored), iface, a.value, ip, f); }
  }

  lemma NextRestoreKept(s: State, iface: string, d: Doc, at: int, f: seq<Fault>, ip: string)
    ensures KernelKept(s, NextRestore(s, iface, d, at, f), iface, ip)
  {
    if d.expiresAt.Some? && at < d.expiresAt.value {
      ApplyKept(s, NextRestore(s, iface, d, at, f), iface, d.ip, ip, f,
                at + RemainingLife(d.expiresAt.value, at), true);
    }
  }

  lemma NextKept(s: State, iface: string, step: Step, ip: string)
    ensures KernelKept(s, Next(s, iface, step), iface, ip)
  {
    match step
    case Block(r, at, f, stored) => NextBlockKept(s, iface, r, at, f, stored, ip);
    case Unblock(target, reason, at, f, newest, stored) =>
      NextUnblockKept(s, iface, target, reason, at, f, newest, stored, ip);
    case Sweep(target, at, f) => SweepKept(s, iface, target, at, ip, f);
    case RestoreStored(d, at, f) => NextRestoreKept(s, iface, d, at, f, ip);
    case _ =>
  }

  lemma {:induction false} RunKept(s: State, iface: string, steps: seq<Step>, ip: string)
    ensures var s' := Run(s, iface, steps);
            && (EnforcedWhileMapped(s, iface, ip) ==> EnforcedWhileMapped(s', iface, ip))
            && (UniqueUnlessDoubled(s, iface, ip) ==> UniqueUnlessDoubled(s', iface, ip))
            && (UniqueUnlessDoubled(s, iface, ip) && Accounted(s, iface, ip) ==> Accounted(s', iface, ip))
            && s.hist.doubled <= s'.hist.doubled
    decreases |steps|
  {
    if steps != [] {
      NextKept(s, iface, steps[0], ip);
      RunKept(Next(s, iface, steps[0]), iface, steps[1..], ip);
    }
  }

  /** Cached implies enforced, from any table and whatever the commands did: a mapped address with no
      failed unblock since it was last blocked has all its rules in the kernel. */
  lemma CachedImpliesEnforced(s: State, iface: string, steps: seq<Step>, ip: string)
    requires Started(s) && Runs(s, iface, steps)
    requires ip in Run(s, iface, steps).filter.blocked && ip !in Run(s, iface, steps).hist.suspect
    ensures Enforced(iface, ip, Run(s, iface, steps).filter.table)
  {
    RunKept(s, iface, steps, ip);
  }

  /** Conversely no rule is unaccounted for: a rule managed for an address that had none to begin with
      belongs to an address that is mapped, was let go without a clean removal, or got a rule twice. */
  lemma EnforcedIsAccountedFor(s: State, iface: string, steps: seq<Step>, ip: string, c: ChainName, r: Rule)
    requires Started(s) && Runs(s, iface, steps) && NoneLeft(iface, ip, s.filter.table)
    requires ManagedIp(iface, c, r) == Some(ip) && CountOf(Run(s, iface, steps).filter.table, c, r) > 0
    ensures var s' := Run(s, iface, steps);
            ip in s'.filter.blocked || ip in s'.hist.loose || ip in s'.hist.doubled
  {
    RunKept(s, iface, steps, ip);
    SpecsAreTheManagedRules(iface, ip, c, r);
  }

  // The step blocks, unblocks or restores `ip`, or tries to.
  predicate Concerns(step: Step, ip: string) {
    || (step.Block? && Ipv4.Normalize(step.request.ip) == Some(ip))
    || (step.Unblock? && Ipv4.Normalize(step.target) == Some(ip))
    || (step.RestoreStored? && step.doc.ip == ip)
  }

  /** Enforced, but no longer known to the cache or the sweep. */
  ghost predicate Stray(s: State, iface: string, ip: string) {
    ip !in s.filter.blocked && ip !in s.sweeping && Enforced(iface, ip, s.filter.table)
  }

  lemma BlockKeepsStray(s: State, iface: string, r: BlockRequest, at: int, f: seq<Fault>, stored: bool, ip: string)
    requires Stray(s, iface, ip) && Ipv4.Normalize(r.ip) != Some(ip)
    ensures Stray(NextBlock(s, iface, r, at, f, stored), iface, ip)
  {
    var a := Ipv4.Normalize(r.ip);
    if a.Some? {
      BlockShape(s, iface, r, at, f, stored, a.value);
      ApplyElsewhere(iface, a.value, ip, s.filter.table, f);
    }
  }

  lemma UnblockKeepsStray(s: State, iface: string, target: string, reason: string, at: int, f: seq<Fault>,
                          newest: nat, stored: bool, ip: string)
    requires Stray(s, iface, ip) && Ipv4.Normalize(target) != Some(ip)
    ensures Stray(NextUnblock(s, iface, target, reason, at, f, newest, stored), iface, ip)
  {
    var a := Ipv4.Normalize(target);
    if a.Some? { RemoveElsewhere(iface, a.value, ip, s.filter.table, f); }
  }

  lemma RestoreKeepsStray(s: State, iface: string, d: Doc, at: int, f: seq<Fault>, ip: string)
    requires Stray(s, iface, ip) && d.ip != ip
    ensures Stray(NextRestore(s, iface, d, at, f), iface, ip)
  {
    ApplyElsewhere(iface, d.ip, ip, s.filter.table, f);
  }

  lemma NextKeepsStray(s: State, iface: string, step: Step, ip: string)
    requires Stray(s, iface, ip) && Enabled(s, step) && !Concerns(step, ip)
    ensures Stray(Next(s, iface, step), iface, ip)
  {
    match step
    case Block(r, at, f, stored) => BlockKeepsStray(s, iface, r, at, f, stored, ip);
    case Unblock(target, reason, at, f, newest, stored) =>
      UnblockKeepsStray(s, iface, target, reason, at, f, newest, stored, ip);
    case Sweep(a, at, f) => RemoveElsewhere(iface, a, ip, s.filter.table, f);
    case RestoreStored(d, at, f) => RestoreKeepsStray(s, iface, d, at, f, ip);
    case _ =>
  }

  /** Nothing the process does by itself ever lifts the rules of such an address: they stay over every
      run that does not block, unblock or restore it. */
  lemma {:induction false} StrayRulesStay(s: State, iface: string, steps: seq<Step>, ip: string)
    requires Stray(s, iface, ip) && Runs(s, iface, steps)
    requires forall i :: 0 <= i < |steps| ==> !Concerns(steps[i], ip)
    ensures Stray(Run(s, iface, steps), iface, ip)
    decreases |steps|
  {
    if steps != [] {
      NextKeepsStray(s, iface, steps[0], ip);
      StrayRulesStay(Next(s, iface, steps[0]), iface, steps[1..], ip);
    }
  }

  /** That is what lazy eviction leaves behind: a packet from an enforced address whose block has run out,
      seen before the sweep collects the address, makes its rules permanent. */
  lemma EvictionLeavesRules(s: State, iface: string, at: int, steps: seq<Step>, ip: string)
    requires ip in s.filter.blocked && s.filter.blocked[ip].expiresAt <= at && ip !in s.sweeping
    requires Enforced(iface, ip, s.filter.table)
    requires Runs(NextPacket(s, ip, at), iface, steps)
    requires forall i :: 0 <= i < |steps| ==> !Concerns(steps[i], ip)
    ensures Stray(Run(NextPacket(s, ip, at), iface, steps), iface, ip)
  {
    StrayRulesStay(NextPacket(s, ip, at), iface, steps, ip);
  }

  /** At most one copy of any managed rule after any number of blocks, re-blocks, restores and restarts,
      as long as none of them added one twice. */
  lemma ManagedRulesStayUnique(s: State, iface: string, steps: seq<Step>, ip: string, c: ChainName, r: Rule)
    requires Started(s) && Runs(s, iface, steps) && AtMostOnce(iface, ip, s.filter.table)
    requires ManagedIp(iface, c, r) == Some(ip) && ip !in Run(s, iface, steps).hist.doubled
    ensures CountOf(Run(s, iface, steps).filter.table, c, r) <= 1
  {
    RunKept(s, iface, steps, ip);
    SpecsAreTheManagedRules(iface, ip, c, r);
  }

  // At every moment of the run, each rule of the address is there at most once.
  ghost predicate AlwaysUnique(s: State, iface: string, steps: seq<Step>, ip: string)
    decreases |steps|
  {
    && AtMostOnce(iface, ip, s.filter.table)
    && (steps != [] ==> AlwaysUnique(Next(s, iface, steps[0]), iface, steps[1..], ip))
  }

  /** That proviso is exact: the rules of an address stay unique throughout a run exactly when no block
      in it met a check that failed on a present rule and an addition that worked. */
  lemma {:induction false} AlwaysUniqueIff(s: State, iface: string, steps: seq<Step>, ip: string)
    requires AtMostOnce(iface, ip, s.filter.table) && ip !in s.hist.doubled
    ensures AlwaysUnique(s, iface, steps, ip) <==> ip !in Run(s, iface, steps).hist.doubled
    decreases |steps|
  {
    if steps != [] {
      var s' := Next(s, iface, steps[0]);
      NextKept(s, iface, steps[0], ip);
      if ip in s'.hist.doubled {
        RunKept(s', iface, steps[1..], ip);
      } else {
        AlwaysUniqueIff(s', iface, steps[1..], ip);
      }
    }
  }

  /** So after any run a successful unblock of such an address leaves none of its rules, and a
      block followed by an unblock of an address without rules leaves the kernel as it was. */
  lemma UnblockLeavesNothing(s: State, iface: string, steps: seq<Step>, ip: string, f: seq<Fault>, g: seq<Fault>)
    requires Started(s) && Runs(s, iface, steps) && AtMostOnce(iface, ip, s.filter.table)
    requires ip !in Run(s, iface, steps).hist.doubled
    ensures var t := Run(s, iface, steps).filter.table;
            && (Remove(t, iface, ip, g).1 ==> NoneLeft(iface, ip, Remove(t, iface, ip, g).0))
            && (NoneLeft(iface, ip, t) && Apply(t, iface, ip, f).1 && Remove(Apply(t, iface, ip, f).0, iface, ip, g).1
                ==> Remove(Apply(t, iface, ip, f).0, iface, ip, g).0 == t)
  {
    var t := Run(s, iface, steps).filter.table;
    RunKept(s, iface, steps, ip);
    if Remove(t, iface, ip, g).1 { SuccessfulUnblockRemovesAll(iface, ip, t, g); }
    if NoneLeft(iface, ip, t) && Apply(t, iface, ip, f).1 && Remove(Apply(t, iface, ip, f).0, iface, ip, g).1 {
      UnblockUndoesBlock(iface, ip, t, f, g);
    }
  }
}
