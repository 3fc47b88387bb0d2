/** The packet processor's copy of the blocks, rebuilt from the forwarder's payload and thinned out by
    a timer. */
module PacketCache {
  import opened Prelude
  import F = Forwarder

  // An entry without a readable expiry never expires.
  type Cache = map<string, Option<int>>

  // One element of the payload array, as far as it could be read.
  datatype Entry = Entry(ip: Option<string>, expiresAt: Option<int>)

  predicate IsBlockedAt(c: Cache, ip: string, t: int) {
    ip in c && (c[ip].None? || t < c[ip].value)
  }

  // The cached expiry counts whole seconds from the moment of the sync, and never lies in the past.
  function CachedExpiry(expiresAt: int, now: int): int {
    now + Seconds(Max(WholeSeconds(expiresAt - now), 0))
  }

  function Added(c: Cache, e: Entry, now: int): Cache {
    if e.ip.None? then c
    else c[e.ip.value := if e.expiresAt.Some? then Some(CachedExpiry(e.expiresAt.value, now)) else None]
  }

  function Synced(entries: seq<Entry>, now: int): Cache {
    if entries == [] then map[] else Added(Synced(entries[..|entries| - 1], now), entries[|entries| - 1], now)
  }

  function Evicted(c: Cache, now: int): Cache {
    map ip | ip in c && (c[ip].None? || now < c[ip].value) :: c[ip]
  }

  class PacketCache {
    var blockedIps: Cache

    constructor ()
      ensures blockedIps == map[]
    {
      blockedIps := map[];
    }

    /** A response that could not be fetched or read leaves the cache as it was. */
    method Sync(payload: Option<seq<Entry>>, now: int)
      modifies this
      ensures payload.None? ==> blockedIps == old(blockedIps)
      ensures payload.Some? ==> blockedIps == Synced(payload.value, now)
    {
      if payload.None? { return; }
      var entries := payload.value;
      blockedIps := map[];
      var i := 0;
      while i < |entries|
        invariant i <= |entries| && blockedIps == Synced(entries[..i], now)
      {
        assert entries[..i + 1][..i] == entries[..i];
        if entries[i].ip.Some? {
          var expiry := None;
          if entries[i].expiresAt.Some? {
            expiry := Some(now + Seconds(Max(WholeSeconds(entries[i].expiresAt.value - now), 0)));
          }
          blockedIps := blockedIps[entries[i].ip.value := expiry];
        }
        i := i + 1;
      }
      assert entries[..|entries|] == entries;
    }

    method TtlCleanup(now: int)
      modifies this
      ensures blockedIps == Evicted(old(blockedIps), now)
      ensures forall ip :: ip in blockedIps <==>
                ip in old(blockedIps) && (old(blockedIps)[ip].None? || now < old(blockedIps)[ip].value)
      ensures forall ip :: ip in blockedIps ==> blockedIps[ip] == old(blockedIps)[ip]
    {
      var todo := blockedIps.Keys;
      while todo != {}
        invariant todo <= old(blockedIps).Keys
        invariant blockedIps == map ip | ip in old(blockedIps) &&
                    (ip in todo || old(blockedIps)[ip].None? || now < old(blockedIps)[ip].value) :: old(blockedIps)[ip]
      {
        var ip :| ip in todo;
        if blockedIps[ip].Some? && blockedIps[ip].value <= now { blockedIps := blockedIps - {ip}; }
        todo := todo - {ip};
      }
    }

    method IsIpBlocked(ip: string, now: int) returns (b: bool)
      ensures b == IsBlockedAt(blockedIps, ip, now)
    {
      if ip in blockedIps {
        b := blockedIps[ip].None? || now < blockedIps[ip].value;
      } else {
        b := false;
      }
    }
  }

  // ---------------------------------------------------------------------------------------

  /** Eviction changes no answer, then or later. */
  lemma EvictionChangesNoAnswer(c: Cache, at: int, ip: string, t: int)
    requires at <= t
    ensures IsBlockedAt(Evicted(c, at), ip, t) == IsBlockedAt(c, ip, t)
  {
  }

  // The last element that names `ip`.
  function LastEntry(entries: seq<Entry>, ip: string): Option<Entry> {
    if entries == [] then None
    else if entries[|entries| - 1].ip == Some(ip) then Some(entries[|entries| - 1])
    else LastEntry(entries[..|entries| - 1], ip)
  }

  /** What a sync makes of any payload: an address is cached exactly if an element names it, and the last one
      decides: blocked until the next sync if its expiry cannot be read, otherwise for the whole seconds left. */
  lemma {:induction false} LastEntryDecides(entries: seq<Entry>, now: int, ip: string, t: int)
    requires now <= t
    ensures IsBlockedAt(Synced(entries, now), ip, t) <==>
            match LastEntry(entries, ip)
            case None => false
            case Some(e) => e.expiresAt.None? || (t - now) / 1_000_000_000 < (e.expiresAt.value - now) / 1_000_000_000
  {
    if entries != [] {
      var last := entries[|entries| - 1];
      if last.ip != Some(ip) {
        LastEntryDecides(entries[..|entries| - 1], now, ip, t);
      } else if last.expiresAt.Some? {
        WholeSecondsLeft(last.expiresAt.value, now, t);
      }
    }
  }

  lemma WholeSecondsLeft(expiresAt: int, now: int, t: int)
    requires now <= t
    ensures t < CachedExpiry(expiresAt, now) <==> (t - now) / 1_000_000_000 < (expiresAt - now) / 1_000_000_000
  {
  }

  // A payload as the forwarder sends it, every element readable.
  function Readable(payload: seq<(string, int)>): seq<Entry> {
    seq(|payload|, i requires 0 <= i < |payload| => Entry(Some(payload[i].0), Some(payload[i].1)))
  }

  lemma {:induction false} SyncedFromPayload(payload: seq<(string, int)>, m: F.Blocks, sent: int, now: int, ip: string)
    requires forall i :: 0 <= i < |payload| ==>
               F.Live(m, payload[i].0, sent) && payload[i].1 == m[payload[i].0].expiresAt
    ensures var c := Synced(Readable(payload), now);
            && (ip in c <==> exists i :: 0 <= i < |payload| && payload[i].0 == ip)
            && (ip in c ==> F.Live(m, ip, sent) && c[ip] == Some(CachedExpiry(m[ip].expiresAt, now)))
  {
    if payload != [] {
      var n := |payload| - 1;
      SyncedFromPayload(payload[..n], m, sent, now, ip);
      assert Readable(payload)[..n] == Readable(payload[..n]);
    }
  }

  /** Exactly when a synced cache blocks an address: the snapshot block was live when sent and the whole
      seconds it had left at the sync are not yet over. */
  lemma BlockedAfterSyncIff(m: F.Blocks, payload: seq<(string, int)>, sent: int, now: int, ip: string, t: int)
    requires F.IsPayload(payload, m, sent) && sent <= now <= t
    ensures IsBlockedAt(Synced(Readable(payload), now), ip, t) <==>
            F.Live(m, ip, sent) && t < CachedExpiry(m[ip].expiresAt, now)
  {
    SyncedFromPayload(payload, m, sent, now, ip);
    if F.Live(m, ip, sent) {
      var e := (ip, m[ip].expiresAt);
      var i :| 0 <= i < |payload| && payload[i] == e;
    }
  }

  lemma CachedExpiryBounds(expiresAt: int, now: int, t: int)
    requires now <= t
    ensures t < CachedExpiry(expiresAt, now) ==> t < expiresAt
    ensures t + Seconds(1) <= expiresAt ==> t < CachedExpiry(expiresAt, now)
  {
  }

  /** Staleness bound: until the next sync, through any evictions, a cached block is a live block of the
      snapshot, and a snapshot block with at least one second left is cached. */
  lemma CacheTracksSnapshot(m: F.Blocks, payload: seq<(string, int)>, sent: int, now: int, evictions: seq<int>,
                            ip: string, t: int)
    requires F.IsPayload(payload, m, sent) && sent <= now <= t
    requires forall i :: 0 <= i < |evictions| ==> now <= evictions[i] <= t
    ensures var c := EvictAll(Synced(Readable(payload), now), evictions);
            && (IsBlockedAt(c, ip, t) ==> F.Live(m, ip, t))
            && (F.Live(m, ip, t + Seconds(1) - 1) ==> IsBlockedAt(c, ip, t))
  {
    EvictAllChangesNoAnswer(Synced(Readable(payload), now), evictions, ip, t);
    BlockedAfterSyncIff(m, payload, sent, now, ip, t);
    if ip in m { CachedExpiryBounds(m[ip].expiresAt, now, t); }
  }

  function EvictAll(c: Cache, evictions: seq<int>): Cache
    decreases |evictions|
  {
    if evictions == [] then c else EvictAll(Evicted(c, evictions[0]), evictions[1..])
  }

  lemma {:induction false} EvictAllChangesNoAnswer(c: Cache, evictions: seq<int>, ip: string, t: int)
    requires forall i :: 0 <= i < |evictions| ==> evictions[i] <= t
    ensures IsBlockedAt(EvictAll(c, evictions), ip, t) == IsBlockedAt(c, ip, t)
    decreases |evictions|
  {
    if evictions != [] {
      EvictionChangesNoAnswer(c, evictions[0], ip, t);
      EvictAllChangesNoAnswer(Evicted(c, evictions[0]), evictions[1..], ip, t);
    }
  }
}
