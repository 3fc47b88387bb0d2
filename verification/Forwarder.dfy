/** The firewall forwarder: a map of blocks that is listed, and cleaned up in two phases while
    requests keep arriving in between. */
module Forwarder {
  import opened Prelude
  import Ipv4

  datatype BlockedIpInfo = BlockedIpInfo(
    ip: string, reason: string, threatLevel: nat, blockedAt: int, expiresAt: int, source: string, enforced: bool)

  type Blocks = map<string, BlockedIpInfo>

  predicate Live(m: Blocks, ip: string, t: int) {
    ip in m && t < m[ip].expiresAt
  }

  // What every listing shows at time t.
  function Listing(m: Blocks, t: int): Blocks {
    map ip | ip in m && t < m[ip].expiresAt :: m[ip]
  }

  datatype Status = Ok | BadRequest

  datatype BlockRequest = BlockRequest(ip: string, reason: string, threatLevel: nat, hours: nat, source: string)

  ghost predicate KeyedByIp(m: Blocks) {
    forall ip :: ip in m ==> m[ip].ip == ip
  }

  class Forwarder {
    var blocked: Blocks

    constructor ()
      ensures blocked == map[]
    {
      blocked := map[];
    }

    /** Recorded whether or not the router accepted it; `enforced` says which. */
    method BlockIp(r: BlockRequest, enforced: bool, now: int) returns (status: Status)
      modifies this
      ensures match Ipv4.Normalize(r.ip)
              case None => status == BadRequest && blocked == old(blocked)
              case Some(ip) =>
                status == Ok && blocked == old(blocked)[ip :=
                  BlockedIpInfo(ip, r.reason, r.threatLevel, now, now + 3_600_000_000_000 * r.hours, r.source,
                                enforced)]
      ensures KeyedByIp(old(blocked)) ==> KeyedByIp(blocked)
    {
      var ip := Ipv4.Normalize(r.ip);
      if ip.None? { return BadRequest; }
      blocked := blocked[ip.value :=
        BlockedIpInfo(ip.value, r.reason, r.threatLevel, now, now + Hours(r.hours), r.source, enforced)];
      return Ok;
    }

    /** Forgotten whatever the router said. */
    method UnblockIp(target: string) returns (status: Status)
      modifies this
      ensures match Ipv4.Normalize(target)
              case None => status == BadRequest && blocked == old(blocked)
              case Some(ip) => status == Ok && blocked == old(blocked) - {ip}
      ensures KeyedByIp(old(blocked)) ==> KeyedByIp(blocked)
    {
      var ip := Ipv4.Normalize(target);
      if ip.None? { return BadRequest; }
      blocked := blocked - {ip.value};
      return Ok;
    }

    /** The payload for the packet processor: each unexpired block once, in no particular order. */
    method GetBlockedSimple(now: int) returns (entries: seq<(string, int)>)
      requires KeyedByIp(blocked)
      ensures IsPayload(entries, blocked, now)
      ensures forall e :: e in entries <==>
                e.0 in blocked && now < blocked[e.0].expiresAt && e.1 == blocked[e.0].expiresAt
      ensures forall i, j :: 0 <= i < j < |entries| ==> entries[i].0 != entries[j].0
    {
      entries := [];
      var todo := blocked.Keys;
      while todo != {}
        invariant todo <= blocked.Keys
        invariant forall i :: 0 <= i < |entries| ==>
          entries[i].0 !in todo && Live(blocked, entries[i].0, now) && entries[i].1 == blocked[entries[i].0].expiresAt
        invariant forall i, j :: 0 <= i < j < |entries| ==> entries[i].0 != entries[j].0
        invariant forall ip :: Live(blocked, ip, now) && ip !in todo ==> (ip, blocked[ip].expiresAt) in entries
      {
        var ip :| ip in todo;
        if now < blocked[ip].expiresAt {
          entries := entries + [(blocked[ip].ip, blocked[ip].expiresAt)];
        }
        todo := todo - {ip};
      }
    }

    /** First phase of the cleanup, under the read lock. */
    method CollectExpired(now: int) returns (expired: seq<string>)
      ensures Members(expired) == ExpiredIn(blocked, now)
      ensures forall ip :: ip in expired <==> ip in blocked && blocked[ip].expiresAt <= now
    {
      expired := [];
      var todo := blocked.Keys;
      while todo != {}
        invariant todo <= blocked.Keys
        invariant forall ip :: ip in expired <==> ip in ExpiredIn(blocked, now) && ip !in todo
      {
        var ip :| ip in todo;
        if blocked[ip].expiresAt <= now { expired := expired + [ip]; }
        todo := todo - {ip};
      }
    }

    /** Second phase, under the write lock; nothing is looked at again. */
    method DropCollected(expired: seq<string>)
      modifies this
      ensures blocked == old(blocked) - Members(expired)
    {
      var i := 0;
      while i < |expired|
        invariant i <= |expired| && blocked == old(blocked) - Members(expired[..i])
      {
        assert expired[..i + 1] == expired[..i] + [expired[i]];
        blocked := blocked - {expired[i]};
        i := i + 1;
      }
      assert expired[..|expired|] == expired;
    }
  }

  function Members(s: seq<string>): set<string> {
    set ip | ip in s
  }

  ghost predicate IsPayload(entries: seq<(string, int)>, m: Blocks, now: int) {
    && (forall i :: 0 <= i < |entries| ==> Live(m, entries[i].0, now) && entries[i].1 == m[entries[i].0].expiresAt)
    && (forall ip :: Live(m, ip, now) ==> (ip, m[ip].expiresAt) in entries)
  }

  function ExpiredIn(m: Blocks, now: int): set<string> {
    set ip | ip in m && m[ip].expiresAt <= now
  }

  // ---------------------------------------------------------------------------------------
  // What may happen between the two phases.

  datatype Op = Block(info: BlockedIpInfo) | Unblock(ip: string)

  function After(m: Blocks, ops: seq<Op>): Blocks {
    if ops == [] then m
    else
      var before := After(m, ops[..|ops| - 1]);
      match ops[|ops| - 1]
      case Block(info) => before[info.ip := info]
      case Unblock(ip) => before - {ip}
  }

  /** From now on the two maps are listed alike. */
  ghost predicate ListedAlike(a: Blocks, b: Blocks, now: int) {
    forall t :: now <= t ==> Listing(a, t) == Listing(b, t)
  }

  ghost predicate NoneLive(m: Blocks, ips: set<string>, now: int) {
    forall ip :: ip in ips ==> !Live(m, ip, now)
  }

  /** The second phase is invisible in every later listing exactly when nothing it drops is live. */
  lemma DropInvisibleIff(m: Blocks, expired: set<string>, now: int)
    ensures ListedAlike(m - expired, m, now) <==> NoneLive(m, expired, now)
  {
    if ListedAlike(m - expired, m, now) {
      assert Listing(m - expired, now) == Listing(m, now);
      forall ip | ip in expired ensures !Live(m, ip, now) {
        assert ip !in Listing(m - expired, now);
      }
    }
  }

  // The last thing done to `ip`, if anything.
  function LastOp(ops: seq<Op>, ip: string): Option<Op> {
    if ops == [] then None
    else
      var o := ops[|ops| - 1];
      if (o.Block? && o.info.ip == ip) || (o.Unblock? && o.ip == ip) then Some(o)
      else LastOp(ops[..|ops| - 1], ip)
  }

  lemma {:induction false} AfterByLastOp(m: Blocks, ops: seq<Op>, ip: string)
    ensures match LastOp(ops, ip)
            case None => (ip in After(m, ops) <==> ip in m) && (ip in m ==> After(m, ops)[ip] == m[ip])
            case Some(Block(info)) => ip in After(m, ops) && After(m, ops)[ip] == info
            case Some(Unblock(_)) => ip !in After(m, ops)
  {
    if ops != [] { AfterByLastOp(m, ops[..|ops| - 1], ip); }
  }

  /** A block of h hours that nothing on the address follows is listed until 3600 h seconds after it was made,
      and no longer. */
  lemma ListedForItsHours(m: Blocks, ops: seq<Op>, info: BlockedIpInfo, made: int, hours: nat, t: int)
    requires LastOp(ops, info.ip) == Some(Block(info)) && info.expiresAt == made + 3_600_000_000_000 * hours
    ensures info.ip in Listing(After(m, ops), t) <==> t < made + 3_600_000_000_000 * hours
    ensures info.ip in Listing(After(m, ops), t) ==> Listing(After(m, ops), t)[info.ip] == info
  {
    AfterByLastOp(m, ops, info.ip);
  }

  /** A cleanup that nothing comes between leaves exactly what has not run out. */
  lemma UndisturbedCleanup(m: Blocks, now: int)
    ensures forall ip :: ip in m - ExpiredIn(m, now) <==> ip in m && now < m[ip].expiresAt
    ensures m - ExpiredIn(m, now) == Listing(m, now)
  {
  }

  // The last thing that happened to `ip` was a block that still runs.
  predicate Reblocked(ops: seq<Op>, ip: string, now: int) {
    var o := LastOp(ops, ip);
    o.Some? && o.value.Block? && now < o.value.info.expiresAt
  }

  lemma ReblockedIff(m: Blocks, ops: seq<Op>, ip: string, start: int, now: int)
    requires start <= now && ip in ExpiredIn(m, start)
    ensures Live(After(m, ops), ip, now) <==> Reblocked(ops, ip, now)
  {
    AfterByLastOp(m, ops, ip);
  }

  /** Cleanup changes no listing unless an address it collected was blocked again, last and for longer,
      before the second phase: it does so exactly then. */
  lemma CleanupInvisibleIff(m: Blocks, start: int, ops: seq<Op>, now: int)
    requires start <= now
    ensures ListedAlike(After(m, ops) - ExpiredIn(m, start), After(m, ops), now) <==>
            forall ip :: ip in ExpiredIn(m, start) ==> !Reblocked(ops, ip, now)
  {
    var expired := ExpiredIn(m, start);
    DropInvisibleIff(After(m, ops), expired, now);
    forall ip | ip in expired ensures Live(After(m, ops), ip, now) <==> Reblocked(ops, ip, now) {
      ReblockedIff(m, ops, ip, start, now);
    }
  }
}
