/** What survives a crash: stored records against the cache, the stack they form for each address,
    and what the replay loop brings back. */
module Recovery {
  import opened Prelude
  import opened Iptables
  import opened BlockRules
  import opened KernelTheorems
  import opened BlockStore
  import opened FilterModel
  import opened FilterService
  import opened Enforcement

  // ---------------------------------------------------------------------------------------
  // Every block in memory is backed by a stored record.

  ghost predicate RecordFor(docs: seq<Doc>, ip: string, until: int, k: nat) {
    && k < |docs| && ActiveFor(docs[k], ip)
    && docs[k].expiresAt.Some? && until <= docs[k].expiresAt.value + Seconds(1)
  }

  ghost predicate Backed(s: State, ip: string) {
    ip in s.filter.blocked && ip !in s.hist.unstored ==>
      exists k: nat :: RecordFor(s.docs, ip, s.filter.blocked[ip].expiresAt, k)
  }

  // Nothing that backs an entry is taken away while the entry stays.
  lemma StillBacked(s: State, s': State, ip: string)
    requires Backed(s, ip) && |s.docs| <= |s'.docs|
    requires forall k :: 0 <= k < |s.docs| && ActiveFor(s.docs[k], ip) ==> s'.docs[k] == s.docs[k]
    requires ip in s'.filter.blocked && ip !in s'.hist.unstored ==>
             ip in s.filter.blocked && s'.filter.blocked[ip] == s.filter.blocked[ip] && ip !in s.hist.unstored
    ensures Backed(s', ip)
  {
    if ip in s'.filter.blocked && ip !in s'.hist.unstored {
      var k: nat :| RecordFor(s.docs, ip, s.filter.blocked[ip].expiresAt, k);
      assert RecordFor(s'.docs, ip, s'.filter.blocked[ip].expiresAt, k);
    }
  }

  lemma BlockBacked(s: State, iface: string, r: BlockRequest, at: int, f: seq<Fault>, stored: bool, ip: string)
    requires Backed(s, ip)
    ensures Backed(NextBlock(s, iface, r, at, f, stored), ip)
  {
    var s' := NextBlock(s, iface, r, at, f, stored);
    if Ipv4.Normalize(r.ip) == Some(ip) && s'.hist.log != s.hist.log {
      if stored { assert RecordFor(s'.docs, ip, s'.filter.blocked[ip].expiresAt, |s.docs|); }
    } else {
      StillBacked(s, s', ip);
    }
  }

  lemma UnblockBacked(s: State, iface: string, target: string, reason: string, at: int, f: seq<Fault>,
                      newest: nat, stored: bool, ip: string)
    requires Backed(s, ip)
    ensures Backed(NextUnblock(s, iface, target, reason, at, f, newest, stored), ip)
  {
    var s' := NextUnblock(s, iface, target, reason, at, f, newest, stored);
    if ip in s'.filter.blocked { StillBacked(s, s', ip); }
  }

  lemma RestoreBacked(s: State, iface: string, d: Doc, at: int, f: seq<Fault>, ip: string)
    requires Backed(s, ip) && d in s.docs && d.active
    ensures Backed(NextRestore(s, iface, d, at, f), ip)
  {
    var s' := NextRestore(s, iface, d, at, f);
    if d.ip == ip && s'.hist.log != s.hist.log {
      var k :| 0 <= k < |s.docs| && s.docs[k] == d;
      RestoredLifetime(d.expiresAt.value, at);
      assert RecordFor(s'.docs, ip, s'.filter.blocked[ip].expiresAt, k);
    } else {
      StillBacked(s, s', ip);
    }
  }

  lemma NextBacked(s: State, iface: string, step: Step, ip: string)
    requires Backed(s, ip) && Enabled(s, step)
    ensures Backed(Next(s, iface, step), ip)
  {
    match step
    case Block(r, at, f, stored) => BlockBacked(s, iface, r, at, f, stored, ip);
    case Unblock(target, reason, at, f, newest, stored) =>
      UnblockBacked(s, iface, target, reason, at, f, newest, stored, ip);
    case RestoreStored(d, at, f) => RestoreBacked(s, iface, d, at, f, ip);
    case _ => StillBacked(s, Next(s, iface, step), ip);
  }

  lemma {:induction false} RunBacked(s: State, iface: string, steps: seq<Step>, ip: string)
    requires Backed(s, ip) && Runs(s, iface, steps)
    ensures Backed(Run(s, iface, steps), ip)
    decreases |steps|
  {
    if steps != [] {
      NextBacked(s, iface, steps[0], ip);
      RunBacked(Next(s, iface, steps[0]), iface, steps[1..], ip);
    }
  }

  /** Over every run, a mapped address whose latest record was written has an active record that
      expires at most one second before the mapping does. */
  lemma MappedIsStored(s: State, iface: string, steps: seq<Step>, ip: string)
    requires Started(s) && Runs(s, iface, steps)
    requires ip in Run(s, iface, steps).filter.blocked && ip !in Run(s, iface, steps).hist.unstored
    ensures var s' := Run(s, iface, steps);
            exists d :: d in s'.docs && ActiveFor(d, ip) && d.expiresAt.Some?
                        && s'.filter.blocked[ip].expiresAt <= d.expiresAt.value + Seconds(1)
  {
    RunBacked(s, iface, steps, ip);
    var s' := Run(s, iface, steps);
    var k: nat :| RecordFor(s'.docs, ip, s'.filter.blocked[ip].expiresAt, k);
    assert s'.docs[k] in s'.docs;
  }

  // ---------------------------------------------------------------------------------------
  // The replay loop.

  // Every record of `ip` is restored without a fault; what befalls the records of others does not matter.
  predicate FaultlessFor(cursor: seq<Doc>, fs: seq<seq<Fault>>, ip: string) {
    forall k :: 0 <= k < |cursor| && cursor[k].ip == ip ==> Faultless(FaultsAt(fs, k))
  }

  lemma RestoreDocSucceeds(s: Filter, iface: string, d: Doc, now: int, f: seq<Fault>)
    requires BuiltIns(s.table)
    ensures Faultless(f) ==> RestoreDoc(s, iface, d, now, f).1
    ensures RestoreDoc(s, iface, d, now, f).0.table.Keys == s.table.Keys
  {
    if Faultless(f) { NoFaultMeansSuccess(s.table, iface, d.ip, f, 0); }
    ApplyOnlyAdds(s.table, RuleSpecs(iface, d.ip), f, 0, Input, Foreign(0));
  }

  /** Exactly which entry the loop leaves for an address: the one made from the last unexpired record
      that the cursor returned, whatever the order; none if there is no such record. */
  lemma {:induction false} ReplayLeavesLast(s: Filter, iface: string, cursor: seq<Doc>, now: int, fs: seq<seq<Fault>>,
                                           i: nat, ip: string)
    requires BuiltIns(s.table) && FaultlessFor(cursor, fs, ip)
    ensures var blocked := Replay(s, iface, cursor, now, fs, i).blocked;
            match LastUnexpired(cursor, i, ip, now)
            case None => (ip in blocked <==> ip in s.blocked) && (ip in blocked ==> blocked[ip] == s.blocked[ip])
            case Some(d) => ip in blocked && d.expiresAt.Some? && now < d.expiresAt.value
                            && blocked[ip].expiresAt == now + RemainingLife(d.expiresAt.value, now)
                            && blocked[ip].expiresAtUtc == d.expiresAt.value
                            && blocked[ip].blockedAtUtc == (if d.blockedAt.Some? then d.blockedAt.value else now)
                            && blocked[ip].reason == d.reason && blocked[ip].source == d.source
                            && blocked[ip].threatLevel == d.threatLevel % 256
    decreases |cursor| - i
  {
    LastUnexpiredExists(cursor, i, ip, now);
    if i < |cursor| {
      var s' := RestoreDoc(s, iface, cursor[i], now, FaultsAt(fs, i)).0;
      RestoreDocSucceeds(s, iface, cursor[i], now, FaultsAt(fs, i));
      ReplayLeavesLast(s', iface, cursor, now, fs, i + 1, ip);
    }
  }

  /** A record that cannot be restored is skipped: with no command to be started for it, the loop leaves the
      address as it was and goes on. */
  lemma FailedRecordIsSkipped(s: Filter, iface: string, cursor: seq<Doc>, now: int, fs: seq<seq<Fault>>, i: nat)
    requires i < |cursor| && i < |fs| && fs[i] != [] && fs[i][0] == SpawnFault
    ensures Replay(s, iface, cursor, now, fs, i) == Replay(s, iface, cursor, now, fs, i + 1)
  {
    assert RestoreDoc(s, iface, cursor[i], now, fs[i]).0 == s;
  }

  // The cursor over the active records: any order, nothing else in it.
  ghost predicate ListsActive(cursor: seq<Doc>, docs: seq<Doc>) {
    forall d :: d in cursor <==> d in docs && d.active
  }

  function ReplaySteps(cursor: seq<Doc>, i: nat, at: int, fs: seq<seq<Fault>>): seq<Step>
    decreases |cursor| - i
  {
    if i >= |cursor| then [] else [RestoreStored(cursor[i], at, FaultsAt(fs, i))] + ReplaySteps(cursor, i + 1, at, fs)
  }

  lemma {:induction false} ReplayStepsAreReplay(s: State, iface: string, cursor: seq<Doc>, i: nat, at: int,
                                                fs: seq<seq<Fault>>)
    requires s.now <= at && forall d :: d in cursor ==> d in s.docs && d.active
    ensures var steps := ReplaySteps(cursor, i, at, fs);
            Runs(s, iface, steps)
            && Run(s, iface, steps).filter == Replay(s.filter, iface, cursor, at, fs, i)
            && Run(s, iface, steps).docs == s.docs
    decreases |cursor| - i
  {
    if i < |cursor| {
      var steps := ReplaySteps(cursor, i, at, fs);
      assert steps[1..] == ReplaySteps(cursor, i + 1, at, fs);
      ReplayStepsAreReplay(Next(s, iface, steps[0]), iface, cursor, i + 1, at, fs);
    }
  }

  function RestartSteps(cursor: seq<Doc>, at: int, fs: seq<seq<Fault>>): seq<Step> {
    [Crash(at)] + ReplaySteps(cursor, 0, at, fs)
  }

  lemma RestartIsReplay(s: State, iface: string, cursor: seq<Doc>, at: int, fs: seq<seq<Fault>>)
    requires s.now <= at && ListsActive(cursor, s.docs)
    ensures var steps := RestartSteps(cursor, at, fs);
            Runs(s, iface, steps)
            && Run(s, iface, steps).filter == Replay(Filter(map[], s.filter.table), iface, cursor, at, fs, 0)
            && Run(s, iface, steps).docs == s.docs
  {
    var steps := RestartSteps(cursor, at, fs);
    assert steps[1..] == ReplaySteps(cursor, 0, at, fs);
    ReplayStepsAreReplay(Next(s, iface, Crash(at)), iface, cursor, 0, at, fs);
  }

  lemma {:induction false} BuiltinsStay(s: State, iface: string, steps: seq<Step>)
    requires Runs(s, iface, steps)
    ensures Run(s, iface, steps).filter.table.Keys == s.filter.table.Keys
  {
    RunIsGoodEdit(s, iface, steps, map[], Run(s, iface, steps).hist.targets);
  }

  /** After a restart an address is blocked exactly when some record left on its stack is unexpired. */
  lemma BlockedAfterRestartIff(s: State, iface: string, cursor: seq<Doc>, at: int, fs: seq<seq<Fault>>, ip: string)
    requires s.now <= at && ListsActive(cursor, s.docs) && FaultlessFor(cursor, fs, ip)
    requires BuiltIns(s.filter.table)
    ensures CacheSays(Run(s, iface, RestartSteps(cursor, at, fs)).filter.blocked, ip, at) <==>
            exists d :: d in StackOf(s.docs, ip) && Unexpired(d, ip, at)
  {
    RestartIsReplay(s, iface, cursor, at, fs);
    ReplayLeavesLast(Filter(map[], s.filter.table), iface, cursor, at, fs, 0, ip);
    LastUnexpiredExists(cursor, 0, ip, at);
    var last := LastUnexpired(cursor, 0, ip, at);
    if last.Some? {
      StackMembers(s.docs, ip, last.value);
      RestoredLifetime(last.value.expiresAt.value, at);
    }
    forall d | d in StackOf(s.docs, ip) && Unexpired(d, ip, at) ensures last.Some? {
      StackMembers(s.docs, ip, d);
      assert d in cursor;
      var k :| 0 <= k < |cursor| && cursor[k] == d;
    }
  }

  /** Crash recovery loses no block: whatever happened before, an address with over a second left at
      the crash is blocked again after the replay, and its rules are back, in whatever order the
      cursor returns the records. */
  lemma CrashRecoveryLosesNoBlock(s: State, iface: string, steps: seq<Step>,
                                  cursor: seq<Doc>, at: int, fs: seq<seq<Fault>>, ip: string)
    requires Started(s) && BuiltIns(s.filter.table) && Runs(s, iface, steps)
    requires var s' := Run(s, iface, steps);
             && s'.now <= at && ListsActive(cursor, s'.docs) && FaultlessFor(cursor, fs, ip)
             && CacheSays(s'.filter.blocked, ip, at + Seconds(1)) && ip !in s'.hist.unstored
    ensures var s'' := Run(Run(s, iface, steps), iface, RestartSteps(cursor, at, fs));
            CacheSays(s''.filter.blocked, ip, at) && Enforced(iface, ip, s''.filter.table)
  {
    RunBacked(s, iface, steps, ip);
    BuiltinsStay(s, iface, steps);
    BackedSurvivesRestart(Run(s, iface, steps), iface, cursor, at, fs, ip);
  }

  lemma BackedSurvivesRestart(s: State, iface: string, cursor: seq<Doc>, at: int, fs: seq<seq<Fault>>, ip: string)
    requires Backed(s, ip) && ip !in s.hist.unstored && CacheSays(s.filter.blocked, ip, at + Seconds(1))
    requires s.now <= at && ListsActive(cursor, s.docs) && FaultlessFor(cursor, fs, ip)
    requires BuiltIns(s.filter.table)
    ensures var s' := Run(s, iface, RestartSteps(cursor, at, fs));
            CacheSays(s'.filter.blocked, ip, at) && Enforced(iface, ip, s'.filter.table)
  {
    var k: nat :| RecordFor(s.docs, ip, s.filter.blocked[ip].expiresAt, k);
    StackMembers(s.docs, ip, s.docs[k]);
    assert Unexpired(s.docs[k], ip, at);
    BlockedAfterRestartIff(s, iface, cursor, at, fs, ip);
    RestartIsReplay(s, iface, cursor, at, fs);
    RestartEnforces(Filter(map[], s.filter.table), iface, cursor, at, fs, 0, ip);
  }

  lemma {:induction false} RestartEnforces(s: Filter, iface: string, cursor: seq<Doc>, now: int,
                                           fs: seq<seq<Fault>>, i: nat, ip: string)
    requires ip in s.blocked ==> Enforced(iface, ip, s.table)
    ensures var s' := Replay(s, iface, cursor, now, fs, i); ip in s'.blocked ==> Enforced(iface, ip, s'.table)
    decreases |cursor| - i
  {
    if i < |cursor| {
      var d, f := cursor[i], FaultsAt(fs, i);
      if d.ip != ip {
        ApplyElsewhere(iface, d.ip, ip, s.table, f);
      } else {
        if Apply(s.table, iface, ip, f).1 { SuccessfulBlockEnforces(iface, ip, s.table, f); }
        if Enforced(iface, ip, s.table) { BlockKeepsEnforced(iface, ip, s.table, f); }
      }
      RestartEnforces(RestoreDoc(s, iface, d, now, f).0, iface, cursor, now, fs, i + 1, ip);
    }
  }

  // For as long as record e has left at `now`, rounded as a restore rounds it, the cache blocks the address.
  ghost predicate Honours(blocked: map<string, BlockedIp>, e: Doc, ip: string, now: int)
    requires e.expiresAt.Some?
  {
    forall t :: t < now + RemainingLife(e.expiresAt.value, now) ==> CacheSays(blocked, ip, t)
  }

  /** How long it is blocked again depends on the order, though: the replay honours every record of the
      address exactly when the last unexpired one that the cursor returned lives longest. */
  lemma EveryRecordHonouredIff(s: Filter, iface: string, cursor: seq<Doc>, now: int, fs: seq<seq<Fault>>, ip: string,
                               last: Doc)
    requires BuiltIns(s.table) && FaultlessFor(cursor, fs, ip) && LastUnexpired(cursor, 0, ip, now) == Some(last)
    ensures last.expiresAt.Some?
    ensures var blocked := Replay(s, iface, cursor, now, fs, 0).blocked;
            (forall e :: e in cursor && Unexpired(e, ip, now) ==> Honours(blocked, e, ip, now)) <==>
            (forall e :: e in cursor && Unexpired(e, ip, now) ==>
               RemainingLife(e.expiresAt.value, now) <= RemainingLife(last.expiresAt.value, now))
  {
    var blocked := Replay(s, iface, cursor, now, fs, 0).blocked;
    ReplayLeavesLast(s, iface, cursor, now, fs, 0, ip);
    forall e | e in cursor && Unexpired(e, ip, now)
      ensures Honours(blocked, e, ip, now) <==>
              RemainingLife(e.expiresAt.value, now) <= RemainingLife(last.expiresAt.value, now)
    {
      assert !CacheSays(blocked, ip, now + RemainingLife(last.expiresAt.value, now));
    }
  }

  /** For instance, if the shorter of two records comes last, the restored block runs out with it. */
  lemma ShorterRecordLastWins(iface: string, table: Table, long: Doc, short: Doc, now: int, t: int)
    requires BuiltIns(table)
    requires long.ip == short.ip && Unexpired(long, long.ip, now) && Unexpired(short, short.ip, now)
    requires short.expiresAt.value + Seconds(1) <= t < long.expiresAt.value - Seconds(1)
    ensures !CacheSays(Replay(Filter(map[], table), iface, [long, short], now, [], 0).blocked, long.ip, t)
    ensures CacheSays(Replay(Filter(map[], table), iface, [short, long], now, [], 0).blocked, long.ip, t)
  {
    var s := Filter(map[], table);
    ReplayLeavesLast(s, iface, [long, short], now, [], 0, long.ip);
    ReplayLeavesLast(s, iface, [short, long], now, [], 0, long.ip);
    RestoredLifetime(long.expiresAt.value, now);
    RestoredLifetime(short.expiresAt.value, now);
    assert LastUnexpired([long, short], 1, long.ip, now) == Some(short);
    assert LastUnexpired([short, long], 1, long.ip, now) == Some(long);
  }
}
