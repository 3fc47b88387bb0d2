/** What each operation of the network filter computes, as functions on the block cache and the
    kernel table. */
module FilterModel {
  import opened Prelude
  import opened Iptables
  import opened BlockRules
  import opened BlockStore

  datatype BlockedIp = BlockedIp(
    blockedAt: int, expiresAt: int, blockedAtUtc: int, expiresAtUtc: int,
    reason: string, threatLevel: nat, source: string)

  datatype TrustedIp = TrustedIp(trustedAt: int, expiresAt: int, packetCount: nat, lastSeen: int)

  datatype Decision = Block(reason: string, threatLevel: nat) | Allow | Pending

  datatype Filter = Filter(blocked: map<string, BlockedIp>, table: Table)

  function Without<V>(m: map<string, V>, ip: string): map<string, V> {
    m - {ip}
  }

  // Does the cache hold an unexpired entry for `ip` at time t?
  predicate CacheSays(blocked: map<string, BlockedIp>, ip: string, t: int) {
    ip in blocked && t < blocked[ip].expiresAt
  }

  /** Rules first; the cache entry appears only once the kernel loop has reported success. */
  function BlockDirect(s: Filter, iface: string, ip: string, reason: string, level: nat, hours: nat,
                       source: string, now: int, f: seq<Fault>): (Filter, bool)
  {
    var (t, ok) := Apply(s.table, iface, ip, f);
    var until := now + Hours(hours);
    (Filter(if ok then s.blocked[ip := BlockedIp(now, until, now, until, reason, level, source)] else s.blocked, t), ok)
  }

  // The cache lives for a whole number of seconds, and for at least one.
  function RemainingLife(expiresAtUtc: int, now: int): int {
    Seconds(Max(WholeSeconds(expiresAtUtc - now), 1))
  }

  function Restore(s: Filter, iface: string, ip: string, reason: string, level: nat, source: string,
                   blockedAtUtc: int, expiresAtUtc: int, now: int, f: seq<Fault>): (Filter, bool)
  {
    if expiresAtUtc <= now then (s, true)
    else
      var (t, ok) := Apply(s.table, iface, ip, f);
      var entry := BlockedIp(now, now + RemainingLife(expiresAtUtc, now), blockedAtUtc, expiresAtUtc,
                             reason, level, source);
      (Filter(if ok then s.blocked[ip := entry] else s.blocked, t), ok)
  }

  /** The cache entry stays while any deletion failed for a reason other than "not there". */
  function Unblock(s: Filter, iface: string, ip: string, f: seq<Fault>): (Filter, bool) {
    var (t, ok) := Remove(s.table, iface, ip, f);
    (Filter(if ok then Without(s.blocked, ip) else s.blocked, t), ok)
  }

  // Looking up a packet's source evicts its entry if that has expired; the kernel is not touched.
  function Evict(s: Filter, ip: string, now: int): Filter {
    if ip in s.blocked && s.blocked[ip].expiresAt <= now then s.(blocked := Without(s.blocked, ip)) else s
  }

  function ExpiredAt(s: Filter, now: int): set<string> {
    set ip | ip in s.blocked && s.blocked[ip].expiresAt <= now
  }

  // One address of the sweep: whatever the deletions report, the cache entry goes.
  function DropExpired(s: Filter, iface: string, ip: string, f: seq<Fault>): Filter {
    Filter(Without(s.blocked, ip), Expire(s.table, iface, ip, f))
  }

  function DropEach(s: Filter, iface: string, ips: seq<string>, fs: seq<seq<Fault>>, i: nat): Filter
    decreases |ips| - i
  {
    if i >= |ips| then s
    else DropEach(DropExpired(s, iface, ips[i], FaultsAt(fs, i)), iface, ips, fs, i + 1)
  }

  function FaultsAt(fs: seq<seq<Fault>>, i: nat): seq<Fault> {
    if i < |fs| then fs[i] else []
  }

  // Replaying one stored record; a missing date counts as "now", so the record is skipped.
  function RestoreDoc(s: Filter, iface: string, d: Doc, now: int, f: seq<Fault>): (Filter, bool) {
    var from := if d.blockedAt.Some? then d.blockedAt.value else now;
    var until := if d.expiresAt.Some? then d.expiresAt.value else now;
    Restore(s, iface, d.ip, d.reason, d.threatLevel % 256, d.source, from, until, now, f)
  }

  // The startup loop; a record that fails to restore is skipped.
  function Replay(s: Filter, iface: string, cursor: seq<Doc>, now: int, fs: seq<seq<Fault>>, i: nat): Filter
    decreases |cursor| - i
  {
    if i >= |cursor| then s
    else Replay(RestoreDoc(s, iface, cursor[i], now, FaultsAt(fs, i)).0, iface, cursor, now, fs, i + 1)
  }

  // ---------------------------------------------------------------------------------------

  lemma {:induction false} DropEachRemoves(s: Filter, iface: string, ips: seq<string>, fs: seq<seq<Fault>>, i: nat)
    ensures DropEach(s, iface, ips, fs, i).blocked == s.blocked - (set k | i <= k < |ips| :: ips[k])
    decreases |ips| - i
  {
    if i < |ips| {
      DropEachRemoves(DropExpired(s, iface, ips[i], FaultsAt(fs, i)), iface, ips, fs, i + 1);
      assert (set k | i <= k < |ips| :: ips[k]) == {ips[i]} + (set k | i + 1 <= k < |ips| :: ips[k]);
    }
  }

  /** A sweep leaves exactly the entries that have not run out, as they were. */
  lemma SweepLeavesLive(s: Filter, iface: string, ips: seq<string>, fs: seq<seq<Fault>>, now: int)
    requires forall a :: a in ips <==> a in s.blocked && s.blocked[a].expiresAt <= now
    ensures var left := DropEach(s, iface, ips, fs, 0).blocked;
            && (forall a :: a in left <==> a in s.blocked && now < s.blocked[a].expiresAt)
            && (forall a :: a in left ==> left[a] == s.blocked[a])
  {
    DropEachRemoves(s, iface, ips, fs, 0);
    assert forall a :: a in (set k | 0 <= k < |ips| :: ips[k]) <==> a in ips;
  }

  /** Sweeping every expired address in one go changes no answer from then on. */
  lemma SweepChangesNoAnswer(s: Filter, iface: string, ips: seq<string>, fs: seq<seq<Fault>>, now: int,
                             ip: string, t: int)
    requires forall a :: a in ips <==> a in ExpiredAt(s, now)
    requires now <= t
    ensures CacheSays(DropEach(s, iface, ips, fs, 0).blocked, ip, t) == CacheSays(s.blocked, ip, t)
  {
    DropEachRemoves(s, iface, ips, fs, 0);
    var swept := set k | 0 <= k < |ips| :: ips[k];
    assert ip in swept <==> ip in ips;
  }

  /** How long a restored entry lives: for the whole seconds that are left, so less than a second short of
      the stored expiry and never past it, except that it lives for one second when less is left. */
  lemma RestoredLifetime(expiresAtUtc: int, now: int)
    requires now < expiresAtUtc
    ensures now < now + RemainingLife(expiresAtUtc, now)
    ensures expiresAtUtc - Seconds(1) < now + RemainingLife(expiresAtUtc, now) < expiresAtUtc + Seconds(1)
    ensures expiresAtUtc - now < 1_000_000_000 ==> RemainingLife(expiresAtUtc, now) == 1_000_000_000
    ensures expiresAtUtc - now >= 1_000_000_000 ==> now + RemainingLife(expiresAtUtc, now) <= expiresAtUtc
    ensures RemainingLife(expiresAtUtc, now) % 1_000_000_000 == 0
  {
  }

  predicate Unexpired(d: Doc, ip: string, now: int) {
    d.ip == ip && d.expiresAt.Some? && now < d.expiresAt.value
  }

  // The last unexpired record of `ip` that the cursor returned, from position i on.
  function LastUnexpired(cursor: seq<Doc>, i: nat, ip: string, now: int): Option<Doc>
    decreases |cursor| - i
  {
    if i >= |cursor| then None
    else
      var later := LastUnexpired(cursor, i + 1, ip, now);
      if later.None? && Unexpired(cursor[i], ip, now) then Some(cursor[i]) else later
  }

  lemma {:induction false} LastUnexpiredExists(cursor: seq<Doc>, i: nat, ip: string, now: int)
    ensures LastUnexpired(cursor, i, ip, now).None? ==>
            forall k :: i <= k < |cursor| ==> !Unexpired(cursor[k], ip, now)
    ensures LastUnexpired(cursor, i, ip, now).Some? ==>
            var d := LastUnexpired(cursor, i, ip, now).value; d in cursor && Unexpired(d, ip, now)
    decreases |cursor| - i
  {
    if i < |cursor| { LastUnexpiredExists(cursor, i + 1, ip, now); }
  }
}
