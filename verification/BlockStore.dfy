/** The persisted block records: a collection that only grows, whose active records for one
    address behave as a stack. */
module BlockStore {
  import opened Prelude

  datatype Doc = Doc(
    ip: string, reason: string, threatLevel: nat, source: string, active: bool,
    blockedAt: Option<int>, expiresAt: Option<int>,
    unblockedAt: Option<int>, unblockReason: Option<string>)

  predicate ActiveFor(d: Doc, ip: string) {
    d.active && d.ip == ip
  }

  // Order of an ascending sort, in which a missing date comes first.
  predicate NoLater(a: Option<int>, b: Option<int>) {
    a.None? || (b.Some? && a.value <= b.value)
  }

  /** A legitimate first result of "active records of `ip`, newest block first". The database is free
      to choose among records with equal dates. */
  ghost predicate IsNewest(docs: seq<Doc>, ip: string, k: nat) {
    && k < |docs| && ActiveFor(docs[k], ip)
    && forall j :: 0 <= j < |docs| && ActiveFor(docs[j], ip) ==> NoLater(docs[j].blockedAt, docs[k].blockedAt)
  }

  // Marks record k inactive; nothing happens when no record was selected.
  function Deactivate(docs: seq<Doc>, ip: string, k: nat, now: int, reason: string): seq<Doc> {
    if k < |docs| && ActiveFor(docs[k], ip)
    then docs[k := docs[k].(active := false, unblockedAt := Some(ToMillis(now)), unblockReason := Some(reason))]
    else docs
  }

  // In full: one record changes, in three fields.
  lemma DeactivatedRecord(docs: seq<Doc>, ip: string, k: nat, now: int, reason: string)
    ensures Deactivate(docs, ip, k, now, reason) ==
            if k < |docs| && docs[k].active && docs[k].ip == ip
            then docs[k := Doc(ip, docs[k].reason, docs[k].threatLevel, docs[k].source, false, docs[k].blockedAt,
                               docs[k].expiresAt, Some(1_000_000 * (now / 1_000_000)), Some(reason))]
            else docs
  {
  }

  function StackOf(docs: seq<Doc>, ip: string): seq<Doc> {
    if docs == [] then []
    else StackOf(docs[..|docs| - 1], ip) +
         (if ActiveFor(docs[|docs| - 1], ip) then [docs[|docs| - 1]] else [])
  }

  lemma StackOfPush(docs: seq<Doc>, d: Doc, ip: string)
    ensures StackOf(docs + [d], ip) == StackOf(docs, ip) + (if ActiveFor(d, ip) then [d] else [])
  {
    assert (docs + [d])[..|docs|] == docs;
  }

  /** Where record k sits on the stack, and what the stack is without it. */
  lemma {:induction false} StackOfDeactivate(docs: seq<Doc>, ip: string, k: nat, now: int, reason: string)
    requires k < |docs| && ActiveFor(docs[k], ip)
    ensures var p := |StackOf(docs[..k], ip)|;
            var st := StackOf(docs, ip);
            && p < |st| && st[p] == docs[k]
            && StackOf(Deactivate(docs, ip, k, now, reason), ip) == st[..p] + st[p + 1..]
  {
    var n := |docs| - 1;
    var out := Deactivate(docs, ip, k, now, reason);
    if k == n {
      DeactivateLast(docs, ip, now, reason);
    } else {
      StackOfDeactivate(docs[..n], ip, k, now, reason);
      assert docs[..n][..k] == docs[..k];
      assert out[..n] == Deactivate(docs[..n], ip, k, now, reason) && out[n] == docs[n];
      var inner, m := StackOf(docs[..n], ip), if ActiveFor(docs[n], ip) then [docs[n]] else [];
      var p := |StackOf(docs[..k], ip)|;
      TakeOutOfConcat(inner, m, p);
      assert StackOf(docs, ip) == inner + m;
      assert StackOf(out, ip) == (inner[..p] + inner[p + 1..]) + m;
    }
  }

  lemma DeactivateLast(docs: seq<Doc>, ip: string, now: int, reason: string)
    requires docs != [] && ActiveFor(docs[|docs| - 1], ip)
    ensures var n := |docs| - 1;
            && StackOf(docs, ip) == StackOf(docs[..n], ip) + [docs[n]]
            && StackOf(Deactivate(docs, ip, n, now, reason), ip) == StackOf(docs[..n], ip)
  {
    var n := |docs| - 1;
    assert Deactivate(docs, ip, n, now, reason)[..n] == docs[..n];
  }

  lemma TakeOutOfConcat(a: seq<Doc>, b: seq<Doc>, p: nat)
    requires p < |a|
    ensures (a[..p] + a[p + 1..]) + b == (a + b)[..p] + (a + b)[p + 1..]
  {
  }

  lemma {:induction false} StackOfOthers(docs: seq<Doc>, ip: string, other: string, k: nat, now: int, reason: string)
    requires ip != other
    ensures StackOf(Deactivate(docs, ip, k, now, reason), other) == StackOf(docs, other)
  {
    if k < |docs| {
      var n := |docs| - 1;
      var out := Deactivate(docs, ip, k, now, reason);
      if k < n {
        StackOfOthers(docs[..n], ip, other, k, now, reason);
        assert out[..n] == Deactivate(docs[..n], ip, k, now, reason);
      } else {
        assert out[..n] == docs[..n];
      }
    }
  }

  lemma {:induction false} StackMembers(docs: seq<Doc>, ip: string, d: Doc)
    ensures d in StackOf(docs, ip) <==> d in docs && ActiveFor(d, ip)
  {
    if docs != [] {
      StackMembers(docs[..|docs| - 1], ip, d);
      assert docs == docs[..|docs| - 1] + [docs[|docs| - 1]];
    }
  }

  /** All dated, each strictly later than the one below. */
  ghost predicate Chronological(stack: seq<Doc>) {
    && (forall i :: 0 <= i < |stack| ==> stack[i].blockedAt.Some?)
    && (forall i, j :: 0 <= i < j < |stack| ==> stack[i].blockedAt.value < stack[j].blockedAt.value)
  }

  // No record on the stack is dated later than the one at position p.
  ghost predicate NoneNewer(st: seq<Doc>, p: nat) {
    p < |st| && forall q :: 0 <= q < |st| ==> NoLater(st[q].blockedAt, st[p].blockedAt)
  }

  ghost predicate OnlyCopiesAbove(st: seq<Doc>, p: nat) {
    p < |st| && forall q :: p <= q < |st| ==> st[q] == st[p]
  }

  /** Every record that may count as the newest has only copies of itself above it. */
  ghost predicate Settled(st: seq<Doc>) {
    forall p: nat :: NoneNewer(st, p) ==> OnlyCopiesAbove(st, p)
  }

  /** Taking out position p is popping exactly when only copies stand above it. */
  lemma {:induction false} TakingOutIsPoppingIff(st: seq<Doc>, p: nat)
    requires p < |st|
    ensures st[..p] + st[p + 1..] == st[..|st| - 1] <==> OnlyCopiesAbove(st, p)
  {
    var n := |st| - 1;
    var out := st[..p] + st[p + 1..];
    if out == st[..n] {
      forall q | p <= q < n ensures st[q] == st[q + 1] {
        assert out[q] == st[q + 1] && st[..n][q] == st[q];
      }
      AllAlike(st, p);
    }
  }

  lemma {:induction false} AllAlike(st: seq<Doc>, p: nat)
    requires p < |st| && forall q :: p <= q < |st| - 1 ==> st[q] == st[q + 1]
    ensures OnlyCopiesAbove(st, p)
    decreases |st| - p
  {
    if p + 1 < |st| { AllAlike(st, p + 1); }
  }

  /** Every stack position is some stored record's. */
  lemma {:induction false} RecordAt(docs: seq<Doc>, ip: string, p: nat) returns (k: nat)
    requires p < |StackOf(docs, ip)|
    ensures k < |docs| && ActiveFor(docs[k], ip) && |StackOf(docs[..k], ip)| == p
  {
    var n := |docs| - 1;
    if p < |StackOf(docs[..n], ip)| {
      k := RecordAt(docs[..n], ip, p);
      assert docs[..n][..k] == docs[..k];
    } else {
      k := n;
    }
  }

  lemma NewestHasNoneNewer(docs: seq<Doc>, ip: string, k: nat)
    requires k < |docs| && ActiveFor(docs[k], ip)
    ensures IsNewest(docs, ip, k) <==> NoneNewer(StackOf(docs, ip), |StackOf(docs[..k], ip)|)
  {
    var st := StackOf(docs, ip);
    StackOfDeactivate(docs, ip, k, 0, "");
    forall q | 0 <= q < |st| ensures st[q] in docs && ActiveFor(st[q], ip) {
      StackMembers(docs, ip, st[q]);
    }
    forall j | 0 <= j < |docs| && ActiveFor(docs[j], ip) ensures docs[j] in st {
      StackMembers(docs, ip, docs[j]);
    }
  }

  /** While there is an active record there is a newest one, so an unblock never lacks a record to take. */
  lemma {:induction false} NewestExists(docs: seq<Doc>, ip: string) returns (k: nat)
    requires StackOf(docs, ip) != []
    ensures IsNewest(docs, ip, k)
  {
    var n := |docs| - 1;
    if StackOf(docs[..n], ip) == [] {
      k := n;
      forall j | 0 <= j < n ensures !ActiveFor(docs[j], ip) { StackMembers(docs[..n], ip, docs[j]); }
    } else {
      k := NewestExists(docs[..n], ip);
      assert forall j :: 0 <= j < n ==> docs[..n][j] == docs[j];
      if ActiveFor(docs[n], ip) && !NoLater(docs[n].blockedAt, docs[k].blockedAt) { k := n; }
    }
  }

  /** Deactivating the newest record pops the stack, whichever the store picks among equal dates,
      exactly when every record that may be picked has only copies of itself above it. */
  lemma NewestIsTop(docs: seq<Doc>, ip: string, now: int, reason: string)
    requires StackOf(docs, ip) != []
    ensures var st := StackOf(docs, ip);
            (forall k: nat :: IsNewest(docs, ip, k) ==>
               StackOf(Deactivate(docs, ip, k, now, reason), ip) == st[..|st| - 1]) <==> Settled(st)
  {
    var st := StackOf(docs, ip);
    forall k: nat | IsNewest(docs, ip, k)
      ensures StackOf(Deactivate(docs, ip, k, now, reason), ip) == st[..|st| - 1] <==>
              OnlyCopiesAbove(st, |StackOf(docs[..k], ip)|)
    {
      PopsIff(docs, ip, k, now, reason);
    }
    forall k: nat | IsNewest(docs, ip, k) ensures NoneNewer(st, |StackOf(docs[..k], ip)|) {
      NewestHasNoneNewer(docs, ip, k);
    }
    forall p: nat | NoneNewer(st, p) ensures exists k: nat :: IsNewest(docs, ip, k) && |StackOf(docs[..k], ip)| == p {
      var k := RecordAt(docs, ip, p);
      NewestHasNoneNewer(docs, ip, k);
    }
  }

  /** For one record picked: its deactivation pops exactly when only copies of it stand above. */
  lemma PopsIff(docs: seq<Doc>, ip: string, k: nat, now: int, reason: string)
    requires k < |docs| && ActiveFor(docs[k], ip)
    ensures var st := StackOf(docs, ip);
            && st != []
            && (StackOf(Deactivate(docs, ip, k, now, reason), ip) == st[..|st| - 1] <==>
                OnlyCopiesAbove(st, |StackOf(docs[..k], ip)|))
  {
    StackOfDeactivate(docs, ip, k, now, reason);
    TakingOutIsPoppingIff(StackOf(docs, ip), |StackOf(docs[..k], ip)|);
  }

  /** Distinct dates settle it. */
  lemma ChronologicalIsSettled(st: seq<Doc>)
    requires Chronological(st)
    ensures Settled(st)
  {
    forall p: nat | NoneNewer(st, p) ensures OnlyCopiesAbove(st, p) {
      assert NoLater(st[|st| - 1].blockedAt, st[p].blockedAt);
    }
  }
}
