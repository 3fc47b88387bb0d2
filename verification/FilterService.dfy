/** The network filter as a running object: a kernel table edited command by command, a cache of
    blocks updated in place, and the handlers and background work that drive them. */
module FilterService {
  import opened Prelude
  import opened Iptables
  import opened BlockRules
  import opened BlockStore
  import opened FilterModel
  import Ipv4

  class Kernel {
    var table: Table

    constructor (table: Table)
      ensures this.table == table
    {
      this.table := table;
    }

    method Run(chain: ChainName, action: Action, rule: Rule, fault: Fault) returns (reply: Reply)
      modifies this
      ensures (table, reply) == Exec(old(table), chain, action, rule, fault)
    {
      var (t, r) := Exec(table, chain, action, rule, fault);
      table := t;
      reply := r;
    }
  }

  class Store {
    var docs: seq<Doc>

    constructor (docs: seq<Doc>)
      ensures this.docs == docs
    {
      this.docs := docs;
    }
  }

  class NetworkFilter {
    const iface: string
    const kernel: Kernel
    const trustThreshold: nat
    const trustDuration: nat
    var blocked: map<string, BlockedIp>
    var trusted: map<string, TrustedIp>
    var totalPackets: nat
    var blockedPackets: nat

    ghost function View(): Filter
      reads this, kernel
    {
      Filter(blocked, kernel.table)
    }

    constructor (iface: string, kernel: Kernel, trustThreshold: nat, trustDuration: nat)
      ensures this.iface == iface && this.kernel == kernel
      ensures this.trustThreshold == trustThreshold && this.trustDuration == trustDuration
      ensures blocked == map[] && trusted == map[] && totalPackets == 0 && blockedPackets == 0
    {
      this.iface := iface;
      this.kernel := kernel;
      this.trustThreshold := trustThreshold;
      this.trustDuration := trustDuration;
      blocked, trusted, totalPackets, blockedPackets := map[], map[], 0, 0;
    }

    method ApplyIptablesBlock(ip: string, f: seq<Fault>) returns (ok: bool)
      modifies kernel
      ensures (kernel.table, ok) == Apply(old(kernel.table), iface, ip, f)
    {
      var specs := RuleSpecs(iface, ip);
      var i := 0;
      while i < |specs|
        invariant i <= |specs|
        invariant ApplyFrom(old(kernel.table), specs, f, 0) == ApplyFrom(kernel.table, specs, f, i)
      {
        var found := kernel.Run(specs[i].chain, Check, specs[i].rule, FaultAt(f, 2 * i));
        if found.NotRun? { return false; }
        if !found.Success? {
          var added := kernel.Run(specs[i].chain, specs[i].add, specs[i].rule, FaultAt(f, 2 * i + 1));
          if !added.Success? && !(specs[i].chain.DockerUser? && added.NoSuchChain?) { return false; }
        }
        i := i + 1;
      }
      return true;
    }

    method RemoveIptablesBlock(ip: string, f: seq<Fault>) returns (ok: bool)
      modifies kernel
      ensures (kernel.table, ok) == Remove(old(kernel.table), iface, ip, f)
    {
      var specs := RuleSpecs(iface, ip);
      var i := 0;
      while i < |specs|
        invariant i <= |specs|
        invariant RemoveFrom(old(kernel.table), specs, f, 0) == RemoveFrom(kernel.table, specs, f, i)
      {
        var reply := kernel.Run(specs[i].chain, Delete, specs[i].rule, FaultAt(f, i));
        if !reply.Success? && !reply.NoSuchChain? && !reply.BadRule? { return false; }
        i := i + 1;
      }
      return true;
    }

    method BlockIpDirect(ip: string, reason: string, level: nat, hours: nat, source: string, now: int, f: seq<Fault>)
      returns (ok: bool)
      modifies this, kernel
      ensures (View(), ok) == BlockDirect(old(View()), iface, ip, reason, level, hours, source, now, f)
      ensures trusted == old(trusted) && totalPackets == old(totalPackets)
      ensures blockedPackets == old(blockedPackets) + if ok then 1 else 0
      ensures blocked ==
              if !ok then old(blocked)
              else old(blocked)[ip := BlockedIp(now, now + 3_600_000_000_000 * hours, now,
                                                now + 3_600_000_000_000 * hours, reason, level, source)]
    {
      ok := ApplyIptablesBlock(ip, f);
      if ok {
        var until := now + Hours(hours);
        blocked := blocked[ip := BlockedIp(now, until, now, until, reason, level, source)];
        blockedPackets := blockedPackets + 1;
      }
    }

    method RestoreBlockedIp(ip: string, reason: string, level: nat, source: string,
                            blockedAtUtc: int, expiresAtUtc: int, now: int, f: seq<Fault>) returns (ok: bool)
      modifies this, kernel
      ensures (View(), ok) == Restore(old(View()), iface, ip, reason, level, source, blockedAtUtc, expiresAtUtc, now, f)
      ensures trusted == old(trusted) && totalPackets == old(totalPackets) && blockedPackets == old(blockedPackets)
    {
      if expiresAtUtc <= now { return true; }
      ok := ApplyIptablesBlock(ip, f);
      if ok {
        var remaining := WholeSeconds(expiresAtUtc - now);
        if remaining < 1 { remaining := 1; }
        blocked := blocked[ip := BlockedIp(now, now + Seconds(remaining), blockedAtUtc, expiresAtUtc,
                                           reason, level, source)];
      }
    }

    method UnblockIp(ip: string, f: seq<Fault>) returns (ok: bool)
      modifies this, kernel
      ensures (View(), ok) == Unblock(old(View()), iface, ip, f)
      ensures trusted == old(trusted) && totalPackets == old(totalPackets)
      ensures blockedPackets == if ok && old(blockedPackets) > 0 then old(blockedPackets) - 1 else old(blockedPackets)
    {
      ok := RemoveIptablesBlock(ip, f);
      if ok {
        blocked := blocked - {ip};
        if blockedPackets > 0 { blockedPackets := blockedPackets - 1; }
      }
    }

    /** Blocked sources are refused on sight; others are allowed only on unexpired trust. */
    method ShouldBlockPacket(src: string, now: int) returns (d: Decision)
      modifies this
      ensures View() == Evict(old(View()), src, now)
      ensures d.Block? <==> CacheSays(old(blocked), src, now)
      ensures d.Block? ==> d == Block(old(blocked)[src].reason, old(blocked)[src].threatLevel)
      ensures d.Allow? <==>
              !CacheSays(old(blocked), src, now) && src in old(trusted) && now < old(trusted)[src].expiresAt
      ensures totalPackets == old(totalPackets) + 1 && blockedPackets == old(blockedPackets)
      ensures trusted == if d.Allow? then old(trusted)[src := Renewed(old(trusted)[src], now)] else old(trusted)
    {
      totalPackets := totalPackets + 1;
      if src in blocked {
        if now < blocked[src].expiresAt {
          return Block(blocked[src].reason, blocked[src].threatLevel);
        } else {
          blocked := blocked - {src};
        }
      }
      if src in trusted && now < trusted[src].expiresAt {
        UpdateTrustStats(src, now);
        return Allow;
      }
      return Pending;
    }

    // One more packet seen; past the threshold, trust is extended by twice the usual time.
    function Renewed(t: TrustedIp, now: int): TrustedIp {
      var n := t.packetCount + 1;
      t.(packetCount := n, lastSeen := now,
         expiresAt := if n > trustThreshold then now + 2 * trustDuration else t.expiresAt)
    }

    method UpdateTrustStats(ip: string, now: int)
      modifies this`trusted
      ensures trusted == if ip in old(trusted) then old(trusted)[ip := Renewed(old(trusted)[ip], now)] else old(trusted)
      ensures ip in old(trusted) ==>
                var t, t' := old(trusted)[ip], trusted[ip];
                && t'.trustedAt == t.trustedAt && t'.packetCount == t.packetCount + 1 && t'.lastSeen == now
                && t'.expiresAt ==
                     if t.packetCount < trustThreshold then t.expiresAt else now + trustDuration + trustDuration
    {
      if ip in trusted {
        var t := trusted[ip].(packetCount := trusted[ip].packetCount + 1, lastSeen := now);
        if t.packetCount > trustThreshold {
          t := t.(expiresAt := now + 2 * trustDuration);
        }
        trusted := trusted[ip := t];
      }
    }

    method IsIpBlocked(ip: string, now: int) returns (b: bool)
      ensures b == CacheSays(blocked, ip, now)
    {
      if ip in blocked {
        b := now < blocked[ip].expiresAt;
      } else {
        b := false;
      }
    }

    /** First phase of the sweep: collect what has expired. */
    method ScanExpired(now: int) returns (expired: seq<string>)
      ensures forall ip :: ip in expired <==> ip in ExpiredAt(View(), now)
    {
      expired := [];
      var todo := blocked.Keys;
      while todo != {}
        invariant todo <= blocked.Keys
        invariant forall ip :: ip in expired <==> ip in ExpiredAt(View(), now) && ip !in todo
      {
        var ip :| ip in todo;
        if blocked[ip].expiresAt <= now { expired := expired + [ip]; }
        todo := todo - {ip};
      }
    }

    /** Second phase, for one address: the rules are spelled out again here instead of being taken
        from the shared list, and every reply is ignored. */
    method SweepOne(ip: string, f: seq<Fault>)
      modifies this, kernel
      ensures View() == DropExpired(old(View()), iface, ip, f)
      ensures trusted == old(trusted) && totalPackets == old(totalPackets) && blockedPackets == old(blockedPackets)
    {
      var rules: seq<(ChainName, Rule)> :=
        [ (DockerUser, Drop(None, None, Some(ip), None)),
          (DockerUser, Drop(None, None, None, Some(ip))),
          (Input, Drop(Some(iface), None, Some(ip), None)),
          (Output, Drop(None, Some(iface), None, Some(ip))),
          (Forward, Drop(Some(iface), None, Some(ip), None)),
          (Forward, Drop(None, Some(iface), None, Some(ip))) ];
      ghost var specs := RuleSpecs(iface, ip);
      assert forall k :: 0 <= k < 6 ==> rules[k] == (specs[k].chain, specs[k].rule);
      var i := 0;
      while i < |rules|
        invariant i <= 6 && blocked == old(blocked)
        invariant trusted == old(trusted) && totalPackets == old(totalPackets) && blockedPackets == old(blockedPackets)
        invariant ExpireFrom(old(kernel.table), specs, f, 0) == ExpireFrom(kernel.table, specs, f, i)
      {
        var _ := kernel.Run(rules[i].0, Delete, rules[i].1, FaultAt(f, i));
        i := i + 1;
      }
      blocked := blocked - {ip};
    }

    /** One tick of the cleanup task. */
    method Sweep(now: int, fs: seq<seq<Fault>>) returns (expired: seq<string>)
      modifies this, kernel
      ensures forall ip :: ip in expired <==> ip in ExpiredAt(old(View()), now)
      ensures View() == DropEach(old(View()), iface, expired, fs, 0)
      ensures forall ip :: ip in blocked <==> ip in old(blocked) && now < old(blocked)[ip].expiresAt
      ensures forall ip :: ip in blocked ==> blocked[ip] == old(blocked)[ip]
      ensures trusted == map ip | ip in old(trusted) && now < old(trusted)[ip].expiresAt :: old(trusted)[ip]
    {
      expired := ScanExpired(now);
      var i := 0;
      while i < |expired|
        invariant i <= |expired| && trusted == old(trusted)
        invariant DropEach(old(View()), iface, expired, fs, 0) == DropEach(View(), iface, expired, fs, i)
      {
        SweepOne(expired[i], FaultsAt(fs, i));
        i := i + 1;
      }
      SweepLeavesLive(old(View()), iface, expired, fs, now);
      trusted := map ip | ip in trusted && now < trusted[ip].expiresAt :: trusted[ip];
    }

    /** Startup: replay the stored records the cursor yields, skipping those that fail. */
    method RestoreActiveBlocks(cursor: seq<Doc>, now: int, fs: seq<seq<Fault>>)
      modifies this, kernel
      ensures View() == Replay(old(View()), iface, cursor, now, fs, 0)
    {
      var i := 0;
      while i < |cursor|
        invariant i <= |cursor|
        invariant Replay(old(View()), iface, cursor, now, fs, 0) == Replay(View(), iface, cursor, now, fs, i)
      {
        var d := cursor[i];
        var from := if d.blockedAt.Some? then d.blockedAt.value else now;
        var until := if d.expiresAt.Some? then d.expiresAt.value else now;
        var _ := RestoreBlockedIp(d.ip, d.reason, d.threatLevel % 256, d.source, from, until, now, FaultsAt(fs, i));
        i := i + 1;
      }
    }
  }

  // ---------------------------------------------------------------------------------------
  // HTTP handlers.

  datatype Status = Ok | BadRequest | BadGateway | InternalServerError

  datatype BlockRequest = BlockRequest(ip: string, reason: string, threatLevel: nat, hours: nat, source: string)

  function NewDoc(ip: string, r: BlockRequest, now: int): Doc {
    Doc(ip, r.reason, r.threatLevel, r.source, true,
        Some(ToMillis(now)), Some(ToMillis(now + Hours(r.hours))), None, None)
  }

  function HandleBlock(s: Filter, docs: seq<Doc>, iface: string, r: BlockRequest, now: int, f: seq<Fault>, stored: bool)
    : (Filter, seq<Doc>, Status)
  {
    match Ipv4.Normalize(r.ip)
    case None => (s, docs, BadRequest)
    case Some(ip) =>
      var (s', ok) := BlockDirect(s, iface, ip, r.reason, r.threatLevel % 256, r.hours, r.source, now, f);
      if !ok then (s', docs, BadGateway)
      else (s', if stored then docs + [NewDoc(ip, r, now)] else docs, Ok)
  }

  function HandleUnblock(s: Filter, docs: seq<Doc>, iface: string, target: string, reason: string, now: int,
                         f: seq<Fault>, newest: nat, stored: bool): (Filter, seq<Doc>, Status)
  {
    match Ipv4.Normalize(target)
    case None => (s, docs, BadRequest)
    case Some(ip) =>
      var (s', ok) := Unblock(s, iface, ip, f);
      if !ok then (s', docs, InternalServerError)
      else (s', if stored then Deactivate(docs, ip, newest, now, reason) else docs, Ok)
  }

  class Controller {
    const filter: NetworkFilter
    const store: Store

    constructor (filter: NetworkFilter, store: Store)
      ensures this.filter == filter && this.store == store
    {
      this.filter := filter;
      this.store := store;
    }

    method BlockIp(r: BlockRequest, now: int, f: seq<Fault>, stored: bool) returns (status: Status)
      modifies filter, filter.kernel, store
      ensures (filter.View(), store.docs, status) ==
              HandleBlock(old(filter.View()), old(store.docs), filter.iface, r, now, f, stored)
      ensures status in {Ok, BadRequest, BadGateway} && (status == BadRequest <==> Ipv4.Normalize(r.ip).None?)
      ensures status != Ok ==> filter.blocked == old(filter.blocked)
      ensures status == Ok ==>
                var until := now + 3_600_000_000_000 * r.hours;
                filter.blocked == old(filter.blocked)[Ipv4.Normalize(r.ip).value :=
                  BlockedIp(now, until, now, until, r.reason, r.threatLevel % 256, r.source)]
      ensures store.docs == old(store.docs) +
                if status != Ok || !stored then []
                else [Doc(Ipv4.Normalize(r.ip).value, r.reason, r.threatLevel, r.source, true,
                          Some(1_000_000 * (now / 1_000_000)),
                          Some(1_000_000 * ((now + 3_600_000_000_000 * r.hours) / 1_000_000)), None, None)]
    {
      var target := Ipv4.Normalize(r.ip);
      if target.None? { return BadRequest; }
      var ok := filter.BlockIpDirect(target.value, r.reason, r.threatLevel % 256, r.hours, r.source, now, f);
      if !ok { return BadGateway; }
      if stored { store.docs := store.docs + [NewDoc(target.value, r, now)]; }
      return Ok;
    }

    method UnblockIp(target: string, reason: string, now: int, f: seq<Fault>, newest: nat, stored: bool)
      returns (status: Status)
      modifies filter, filter.kernel, store
      ensures (filter.View(), store.docs, status) ==
              HandleUnblock(old(filter.View()), old(store.docs), filter.iface, target, reason, now, f, newest, stored)
      ensures status in {Ok, BadRequest, InternalServerError}
      ensures status == BadRequest <==> Ipv4.Normalize(target).None?
    {
      var ip := Ipv4.Normalize(target);
      if ip.None? { return BadRequest; }
      var ok := filter.UnblockIp(ip.value, f);
      if !ok { return InternalServerError; }
      if stored { store.docs := Deactivate(store.docs, ip.value, newest, now, reason); }
      return Ok;
    }

    method UnblockIpByPath(target: string, now: int, f: seq<Fault>, newest: nat, stored: bool) returns (status: Status)
      modifies filter, filter.kernel, store
      ensures (filter.View(), store.docs, status) ==
              HandleUnblock(old(filter.View()), old(store.docs), filter.iface, target, "path_unblock", now, f,
                            newest, stored)
    {
      status := UnblockIp(target, "path_unblock", now, f, newest, stored);
    }
  }
}
