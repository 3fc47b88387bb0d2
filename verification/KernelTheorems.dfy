/** What the check-then-add and delete loops achieve in the kernel: enforcement, at most one copy
    of each rule, exact undo, and the fate of packets under first-match evaluation. */
module KernelTheorems {
  import opened Iptables
  import opened BlockRules

  function CountOf(t: Table, c: ChainName, r: Rule): nat {
    if c in t then multiset(t[c])[r] else 0
  }

  ghost predicate SpecHolds(t: Table, s: Spec) {
    CountOf(t, s.chain, s.rule) > 0 || (s.chain.DockerUser? && s.chain !in t)
  }

  /** All four INPUT/OUTPUT/FORWARD rules, and both DOCKER-USER rules when that chain exists. */
  ghost predicate Enforced(iface: string, ip: string, t: Table) {
    forall s :: s in RuleSpecs(iface, ip) ==> SpecHolds(t, s)
  }

  ghost predicate AtMostOnce(iface: string, ip: string, t: Table) {
    forall s :: s in RuleSpecs(iface, ip) ==> CountOf(t, s.chain, s.rule) <= 1
  }

  ghost predicate NoneLeft(iface: string, ip: string, t: Table) {
    forall s :: s in RuleSpecs(iface, ip) ==> CountOf(t, s.chain, s.rule) == 0
  }

  // A -C exits non-zero only for an absent rule (failing to start the command aborts the loop).
  predicate HonestChecks(f: seq<Fault>) {
    forall i :: 0 <= i < 6 ==> !FaultAt(f, 2 * i).ExitFault?
  }

  lemma SpecsDistinct(iface: string, ip: string, j: nat, k: nat)
    requires j < k < 6
    ensures var s := RuleSpecs(iface, ip); s[j].chain != s[k].chain || s[j].rule != s[k].rule
  {
  }

  lemma ExecCounts(t: Table, s: Spec, a: Action, fault: Fault, c: ChainName, r: Rule)
    ensures var (t', reply) := Exec(t, s.chain, a, s.rule, fault);
            CountOf(t', c, r) == CountOf(t, c, r) +
              if (c, r) != (s.chain, s.rule) || !reply.Success? || a == Check then 0
              else if a == Delete then -1 else 1
  {
    var (t', reply) := Exec(t, s.chain, a, s.rule, fault);
    if reply.Success? && a == Delete {
      DeleteFirstCounts(t[s.chain], s.rule);
    }
  }

  // ---------------------------------------------------------------------------------------
  // Adding.

  lemma ApplyOneOnlyAdds(t: Table, s: Spec, onCheck: Fault, onAdd: Fault, c: ChainName, r: Rule)
    requires s.add == InsertHead || s.add == Append
    ensures var t' := ApplyOne(t, s, onCheck, onAdd).0;
            CountOf(t, c, r) <= CountOf(t', c, r) && t'.Keys == t.Keys
  {
    ExecCounts(t, s, s.add, onAdd, c, r);
  }

  lemma {:induction false} ApplyOnlyAdds(t: Table, specs: seq<Spec>, f: seq<Fault>, i: nat, c: ChainName, r: Rule)
    requires forall s :: s in specs ==> s.add == InsertHead || s.add == Append
    ensures CountOf(t, c, r) <= CountOf(ApplyFrom(t, specs, f, i).0, c, r)
    ensures ApplyFrom(t, specs, f, i).0.Keys == t.Keys
    decreases |specs| - i
  {
    if i < |specs| {
      ApplyOneOnlyAdds(t, specs[i], FaultAt(f, 2 * i), FaultAt(f, 2 * i + 1), c, r);
      var (t', ok) := ApplyOne(t, specs[i], FaultAt(f, 2 * i), FaultAt(f, 2 * i + 1));
      if ok { ApplyOnlyAdds(t', specs, f, i + 1, c, r); }
    }
  }

  /** When the add loop reports success, every rule it is responsible for is in the kernel,
      whatever the individual commands did. */
  lemma {:induction false} ApplyEstablishes(t: Table, specs: seq<Spec>, f: seq<Fault>, i: nat, k: nat)
    requires forall s :: s in specs ==> s.add == InsertHead || s.add == Append
    requires i <= k < |specs| && ApplyFrom(t, specs, f, i).1
    ensures SpecHolds(ApplyFrom(t, specs, f, i).0, specs[k])
    decreases |specs| - i
  {
    var s := specs[i];
    var (t', ok) := ApplyOne(t, s, FaultAt(f, 2 * i), FaultAt(f, 2 * i + 1));
    if k == i {
      ExecCounts(t, s, s.add, FaultAt(f, 2 * i + 1), s.chain, s.rule);
      assert SpecHolds(t', s);
      ApplyOnlyAdds(t', specs, f, i + 1, s.chain, s.rule);
    } else {
      ApplyEstablishes(t', specs, f, i + 1, k);
    }
  }

  lemma SuccessfulBlockEnforces(iface: string, ip: string, t: Table, f: seq<Fault>)
    requires Apply(t, iface, ip, f).1
    ensures Enforced(iface, ip, Apply(t, iface, ip, f).0)
  {
    var specs := RuleSpecs(iface, ip);
    forall s | s in specs ensures SpecHolds(Apply(t, iface, ip, f).0, s) {
      var k :| 0 <= k < |specs| && specs[k] == s;
      ApplyEstablishes(t, specs, f, 0, k);
    }
  }

  /** Blocking an address again, even unsuccessfully, takes no enforcement away. */
  lemma BlockKeepsEnforced(iface: string, ip: string, t: Table, f: seq<Fault>)
    requires Enforced(iface, ip, t)
    ensures Enforced(iface, ip, Apply(t, iface, ip, f).0)
  {
    var specs := RuleSpecs(iface, ip);
    forall s | s in specs ensures SpecHolds(Apply(t, iface, ip, f).0, s) {
      ApplyOnlyAdds(t, specs, f, 0, s.chain, s.rule);
    }
  }

  // Does this pair of environment choices make the loop add the rule?
  predicate Adds(t: Table, s: Spec, onCheck: Fault, onAdd: Fault) {
    && s.chain in t && onAdd.NoFault?
    && (onCheck.ExitFault? || (onCheck.NoFault? && s.rule !in t[s.chain]))
  }

  /** Does the loop, started at rule i, get to rule k? The rules of one address are distinct, so every
      earlier step can be judged on the table before the block. */
  predicate Reaches(t: Table, iface: string, ip: string, f: seq<Fault>, i: nat, k: nat)
    requires k < 6
  {
    forall j :: i <= j < k ==> ApplyOne(t, RuleSpecs(iface, ip)[j], FaultAt(f, 2 * j), FaultAt(f, 2 * j + 1)).1
  }

  lemma OneRuleDecides(t: Table, t': Table, s: Spec, onCheck: Fault, onAdd: Fault)
    requires t.Keys == t'.Keys && CountOf(t, s.chain, s.rule) == CountOf(t', s.chain, s.rule)
    ensures ApplyOne(t, s, onCheck, onAdd).1 == ApplyOne(t', s, onCheck, onAdd).1
    ensures Adds(t, s, onCheck, onAdd) == Adds(t', s, onCheck, onAdd)
  {
    assert s.chain in t ==> (s.rule in t[s.chain] <==> CountOf(t, s.chain, s.rule) > 0);
    assert s.chain in t' ==> (s.rule in t'[s.chain] <==> CountOf(t', s.chain, s.rule) > 0);
  }

  lemma ApplyOneCounts(t: Table, iface: string, ip: string, i: nat, onCheck: Fault, onAdd: Fault, k: nat)
    requires i < 6 && k < 6
    ensures var s, r := RuleSpecs(iface, ip)[i], RuleSpecs(iface, ip)[k];
            var t' := ApplyOne(t, s, onCheck, onAdd).0;
            && t'.Keys == t.Keys
            && CountOf(t', r.chain, r.rule) ==
                 CountOf(t, r.chain, r.rule) + if i == k && Adds(t, s, onCheck, onAdd) then 1 else 0
  {
    var s, r := RuleSpecs(iface, ip)[i], RuleSpecs(iface, ip)[k];
    if i < k { SpecsDistinct(iface, ip, i, k); } else if k < i { SpecsDistinct(iface, ip, k, i); }
    ExecCounts(t, s, s.add, onAdd, r.chain, r.rule);
  }

  lemma EarlierStepsDoNotMatter(t: Table, iface: string, ip: string, f: seq<Fault>, i: nat, k: nat)
    requires i < k < 6
    ensures var s := RuleSpecs(iface, ip);
            var (t', ok) := ApplyOne(t, s[i], FaultAt(f, 2 * i), FaultAt(f, 2 * i + 1));
            && (Reaches(t, iface, ip, f, i, k) <==> ok && Reaches(t', iface, ip, f, i + 1, k))
            && (Adds(t, s[k], FaultAt(f, 2 * k), FaultAt(f, 2 * k + 1))
                <==> Adds(t', s[k], FaultAt(f, 2 * k), FaultAt(f, 2 * k + 1)))
  {
    var s := RuleSpecs(iface, ip);
    var (t', ok) := ApplyOne(t, s[i], FaultAt(f, 2 * i), FaultAt(f, 2 * i + 1));
    forall j | i < j <= k
      ensures ApplyOne(t, s[j], FaultAt(f, 2 * j), FaultAt(f, 2 * j + 1)).1
              == ApplyOne(t', s[j], FaultAt(f, 2 * j), FaultAt(f, 2 * j + 1)).1
    {
      ApplyOneCounts(t, iface, ip, i, FaultAt(f, 2 * i), FaultAt(f, 2 * i + 1), j);
      OneRuleDecides(t, t', s[j], FaultAt(f, 2 * j), FaultAt(f, 2 * j + 1));
    }
    ApplyOneCounts(t, iface, ip, i, FaultAt(f, 2 * i), FaultAt(f, 2 * i + 1), k);
    OneRuleDecides(t, t', s[k], FaultAt(f, 2 * k), FaultAt(f, 2 * k + 1));
  }

  // Copies of rule k that the loop adds from rule i on.
  function Added(t: Table, iface: string, ip: string, f: seq<Fault>, i: nat, k: nat): nat
    requires k < 6
  {
    if i <= k && Reaches(t, iface, ip, f, i, k)
       && Adds(t, RuleSpecs(iface, ip)[k], FaultAt(f, 2 * k), FaultAt(f, 2 * k + 1))
    then 1 else 0
  }

  /** The exact count of each rule after the add loop, under any faults. */
  lemma {:induction false} ApplyCounts(t: Table, iface: string, ip: string, f: seq<Fault>, i: nat, k: nat)
    requires k < 6
    ensures var s := RuleSpecs(iface, ip);
            CountOf(ApplyFrom(t, s, f, i).0, s[k].chain, s[k].rule) ==
            CountOf(t, s[k].chain, s[k].rule) + Added(t, iface, ip, f, i, k)
    decreases 6 - i
  {
    var s := RuleSpecs(iface, ip);
    if i < |s| {
      var (t', ok) := ApplyOne(t, s[i], FaultAt(f, 2 * i), FaultAt(f, 2 * i + 1));
      ApplyOneCounts(t, iface, ip, i, FaultAt(f, 2 * i), FaultAt(f, 2 * i + 1), k);
      if ok { ApplyCounts(t', iface, ip, f, i + 1, k); }
      if i < k { EarlierStepsDoNotMatter(t, iface, ip, f, i, k); }
    }
  }

  // A rule goes in: it is seen to be there, or it is added; DOCKER-USER may be missing, other chains may not.
  predicate GoesIn(t: Table, s: Spec, onCheck: Fault, onAdd: Fault) {
    && !onCheck.SpawnFault?
    && ( || (onCheck.NoFault? && s.chain in t && s.rule in t[s.chain])
         || (onAdd.NoFault? && (s.chain in t || s.chain == DockerUser)))
  }

  lemma OneSucceedsIff(t: Table, s: Spec, onCheck: Fault, onAdd: Fault)
    requires s.add == InsertHead || s.add == Append
    ensures ApplyOne(t, s, onCheck, onAdd).1 <==> GoesIn(t, s, onCheck, onAdd)
  {
  }

  lemma GoesInLater(t: Table, iface: string, ip: string, f: seq<Fault>, i: nat, j: nat)
    requires i < j < 6
    ensures var s := RuleSpecs(iface, ip);
            var t' := ApplyOne(t, s[i], FaultAt(f, 2 * i), FaultAt(f, 2 * i + 1)).0;
            GoesIn(t, s[j], FaultAt(f, 2 * j), FaultAt(f, 2 * j + 1)) <==>
            GoesIn(t', s[j], FaultAt(f, 2 * j), FaultAt(f, 2 * j + 1))
  {
    var s := RuleSpecs(iface, ip);
    var t' := ApplyOne(t, s[i], FaultAt(f, 2 * i), FaultAt(f, 2 * i + 1)).0;
    ApplyOneCounts(t, iface, ip, i, FaultAt(f, 2 * i), FaultAt(f, 2 * i + 1), j);
    OneRuleDecides(t, t', s[j], FaultAt(f, 2 * j), FaultAt(f, 2 * j + 1));
    OneSucceedsIff(t, s[j], FaultAt(f, 2 * j), FaultAt(f, 2 * j + 1));
    OneSucceedsIff(t', s[j], FaultAt(f, 2 * j), FaultAt(f, 2 * j + 1));
  }

  /** The add loop reports success exactly when every one of the rules goes in. */
  lemma {:induction false} BlockSucceedsIff(t: Table, iface: string, ip: string, f: seq<Fault>, i: nat)
    ensures ApplyFrom(t, RuleSpecs(iface, ip), f, i).1 <==>
            forall j :: i <= j < 6 ==> GoesIn(t, RuleSpecs(iface, ip)[j], FaultAt(f, 2 * j), FaultAt(f, 2 * j + 1))
    decreases 6 - i
  {
    var s := RuleSpecs(iface, ip);
    if i < |s| {
      var (t', ok) := ApplyOne(t, s[i], FaultAt(f, 2 * i), FaultAt(f, 2 * i + 1));
      OneSucceedsIff(t, s[i], FaultAt(f, 2 * i), FaultAt(f, 2 * i + 1));
      BlockSucceedsIff(t', iface, ip, f, i + 1);
      forall j | i < j < 6
        ensures GoesIn(t, s[j], FaultAt(f, 2 * j), FaultAt(f, 2 * j + 1))
                <==> GoesIn(t', s[j], FaultAt(f, 2 * j), FaultAt(f, 2 * j + 1))
      {
        GoesInLater(t, iface, ip, f, i, j);
      }
    }
  }

  /** The loop gets to rule k, its check fails although the rule is there, and the addition works. */
  predicate Doubles(t: Table, iface: string, ip: string, f: seq<Fault>, k: nat)
    requires k < 6
  {
    && CountOf(t, RuleSpecs(iface, ip)[k].chain, RuleSpecs(iface, ip)[k].rule) > 0
    && Reaches(t, iface, ip, f, 0, k) && FaultAt(f, 2 * k).ExitFault? && FaultAt(f, 2 * k + 1).NoFault?
  }

  predicate Duplicates(t: Table, iface: string, ip: string, f: seq<Fault>) {
    exists k :: 0 <= k < 6 && Doubles(t, iface, ip, f, k)
  }

  /** A rule that is there already gains a copy exactly when its check fails and its addition works. */
  lemma PresentRuleIsDuplicatedIff(t: Table, iface: string, ip: string, f: seq<Fault>, k: nat)
    requires k < 6 && CountOf(t, RuleSpecs(iface, ip)[k].chain, RuleSpecs(iface, ip)[k].rule) > 0
    ensures var s := RuleSpecs(iface, ip)[k];
            CountOf(Apply(t, iface, ip, f).0, s.chain, s.rule) ==
            CountOf(t, s.chain, s.rule) + if Doubles(t, iface, ip, f, k) then 1 else 0
  {
    ApplyCounts(t, iface, ip, f, 0, k);
  }

  /** Check-then-add leaves at most one copy of every rule exactly when there was at most one and no
      present rule is duplicated that way. */
  lemma BlockKeepsAtMostOnceIff(iface: string, ip: string, t: Table, f: seq<Fault>)
    ensures AtMostOnce(iface, ip, Apply(t, iface, ip, f).0) <==>
            AtMostOnce(iface, ip, t) && !Duplicates(t, iface, ip, f)
  {
    var specs := RuleSpecs(iface, ip);
    var t' := Apply(t, iface, ip, f).0;
    forall k | 0 <= k < 6
      ensures CountOf(t', specs[k].chain, specs[k].rule) <= 1 <==>
              CountOf(t, specs[k].chain, specs[k].rule) <= 1 && !Doubles(t, iface, ip, f, k)
    {
      ApplyCounts(t, iface, ip, f, 0, k);
      if CountOf(t, specs[k].chain, specs[k].rule) > 0 { PresentRuleIsDuplicatedIff(t, iface, ip, f, k); }
    }
    AtMostOnceByIndex(iface, ip, t);
    AtMostOnceByIndex(iface, ip, t');
  }

  lemma AtMostOnceByIndex(iface: string, ip: string, t: Table)
    ensures AtMostOnce(iface, ip, t) <==>
            forall k :: 0 <= k < 6 ==> CountOf(t, RuleSpecs(iface, ip)[k].chain, RuleSpecs(iface, ip)[k].rule) <= 1
  {
    forall k | 0 <= k < 6 ensures RuleSpecs(iface, ip)[k] in RuleSpecs(iface, ip) {}
  }

  /** In particular it never duplicates while the checks tell the truth. */
  lemma BlockKeepsAtMostOnce(iface: string, ip: string, t: Table, f: seq<Fault>)
    requires AtMostOnce(iface, ip, t) && HonestChecks(f)
    ensures AtMostOnce(iface, ip, Apply(t, iface, ip, f).0)
  {
    BlockKeepsAtMostOnceIff(iface, ip, t, f);
  }

  /** ... and does so as soon as the first check fails on a present rule and the addition works. */
  lemma DishonestCheckDuplicates(t: Table, iface: string, ip: string)
    requires var s := RuleSpecs(iface, ip)[0]; CountOf(t, s.chain, s.rule) > 0
    ensures var s := RuleSpecs(iface, ip)[0];
            CountOf(Apply(t, iface, ip, [ExitFault]).0, s.chain, s.rule) == CountOf(t, s.chain, s.rule) + 1
  {
    PresentRuleIsDuplicatedIff(t, iface, ip, [ExitFault], 0);
  }

  // ---------------------------------------------------------------------------------------
  // Removing.

  /** A removal succeeds exactly when no command of it faults; a rule loses one copy exactly when neither
      its own deletion nor an earlier one faulted, since the first failure ends the loop. */
  lemma {:induction false} UnblockSucceedsIff(iface: string, ip: string, t: Table, f: seq<Fault>, i: nat, k: nat)
    requires k < 6
    ensures var s := RuleSpecs(iface, ip);
            var (t', ok) := RemoveFrom(t, s, f, i);
            && (ok <==> forall j :: i <= j < 6 ==> FaultAt(f, j).NoFault?)
            && CountOf(t', s[k].chain, s[k].rule) ==
               CountOf(t, s[k].chain, s[k].rule) -
                 if && i <= k && CountOf(t, s[k].chain, s[k].rule) > 0
                    && forall j :: i <= j <= k ==> FaultAt(f, j).NoFault?
                 then 1 else 0
    decreases 6 - i
  {
    var s := RuleSpecs(iface, ip);
    if i < |s| {
      if i < k { SpecsDistinct(iface, ip, i, k); } else if k < i { SpecsDistinct(iface, ip, k, i); }
      ExecCounts(t, s[i], Delete, FaultAt(f, i), s[k].chain, s[k].rule);
      var (t', ok) := RemoveOne(t, s[i], FaultAt(f, i));
      assert ok <==> FaultAt(f, i).NoFault?;
      if ok { UnblockSucceedsIff(iface, ip, t', f, i + 1, k); }
    }
  }

  /** A removal that reports success has taken out every rule of the address exactly when none was
      there more than once. */
  lemma SuccessfulUnblockRemovesAll(iface: string, ip: string, t: Table, f: seq<Fault>)
    requires Remove(t, iface, ip, f).1
    ensures NoneLeft(iface, ip, Remove(t, iface, ip, f).0) <==> AtMostOnce(iface, ip, t)
  {
    var specs := RuleSpecs(iface, ip);
    forall s | s in specs
      ensures CountOf(Remove(t, iface, ip, f).0, s.chain, s.rule) == 0 <==> CountOf(t, s.chain, s.rule) <= 1
    {
      var k :| 0 <= k < |specs| && specs[k] == s;
      UnblockSucceedsIff(iface, ip, t, f, 0, k);
    }
  }

  lemma UnblockKeepsAtMostOnce(iface: string, ip: string, t: Table, f: seq<Fault>)
    requires AtMostOnce(iface, ip, t)
    ensures AtMostOnce(iface, ip, Remove(t, iface, ip, f).0)
  {
    var specs := RuleSpecs(iface, ip);
    forall s | s in specs ensures CountOf(Remove(t, iface, ip, f).0, s.chain, s.rule) <= 1 {
      var k :| 0 <= k < |specs| && specs[k] == s;
      UnblockSucceedsIff(iface, ip, t, f, 0, k);
    }
  }

  // Faultless expiry is a removal; a faulty one skips the deletions that failed.
  lemma {:induction false} ExpireCounts(t: Table, iface: string, ip: string, f: seq<Fault>, i: nat, k: nat)
    requires k < 6
    ensures var specs := RuleSpecs(iface, ip);
            var before := CountOf(t, specs[k].chain, specs[k].rule);
            var after := CountOf(ExpireFrom(t, specs, f, i), specs[k].chain, specs[k].rule);
            && after <= before
            && (k < i ==> after == before)
            && (i <= k ==> after == if before > 0 && FaultAt(f, k).NoFault? then before - 1 else before)
    decreases 6 - i
  {
    var specs := RuleSpecs(iface, ip);
    if i < |specs| {
      if i < k { SpecsDistinct(iface, ip, i, k); } else if k < i { SpecsDistinct(iface, ip, k, i); }
      ExecCounts(t, specs[i], Delete, FaultAt(f, i), specs[k].chain, specs[k].rule);
      ExpireCounts(RemoveOne(t, specs[i], FaultAt(f, i)).0, iface, ip, f, i + 1, k);
    }
  }

  /** After the expiry loop, exactly the rules whose deletion failed are left. */
  lemma ExpiryLeavesExactlyTheFailures(iface: string, ip: string, t: Table, f: seq<Fault>, k: nat)
    requires AtMostOnce(iface, ip, t) && k < 6
    ensures var s := RuleSpecs(iface, ip)[k];
            CountOf(Expire(t, iface, ip, f), s.chain, s.rule) ==
            if FaultAt(f, k).NoFault? then 0 else CountOf(t, s.chain, s.rule)
  {
    assert RuleSpecs(iface, ip)[k] in RuleSpecs(iface, ip);
    ExpireCounts(t, iface, ip, f, 0, k);
  }

  // ---------------------------------------------------------------------------------------
  // Edits for one address and the rules of another.

  lemma OthersKeepTheirCounts(iface: string, ip: string, t: Table, t': Table, c: ChainName, r: Rule)
    requires SameOutside(iface, {ip}, t, t') && !ManagedFor(iface, c, r, {ip})
    ensures CountOf(t', c, r) == CountOf(t, c, r)
  {
    if c in t {
      StripKeepsTheRest(t[c], iface, c, {ip}, r);
      StripKeepsTheRest(t'[c], iface, c, {ip}, r);
    }
  }

  lemma OtherAddressUnaffected(iface: string, ip: string, other: string, t: Table, t': Table)
    requires SameOutside(iface, {ip}, t, t') && ip != other
    ensures Enforced(iface, other, t) ==> Enforced(iface, other, t')
    ensures AtMostOnce(iface, other, t) ==> AtMostOnce(iface, other, t')
    ensures NoneLeft(iface, other, t) ==> NoneLeft(iface, other, t')
  {
    forall s | s in RuleSpecs(iface, other)
      ensures CountOf(t', s.chain, s.rule) == CountOf(t, s.chain, s.rule)
    {
      SpecShape(iface, other, s);
      OthersKeepTheirCounts(iface, ip, t, t', s.chain, s.rule);
    }
  }

  // ---------------------------------------------------------------------------------------
  // Undo.

  function AddAll(t: Table, specs: seq<Spec>, i: nat): Table
    decreases |specs| - i
  {
    if i >= |specs| then t
    else
      var s := specs[i];
      AddAll(if s.chain in t then t[s.chain := Edited(t[s.chain], s.rule, s.add)] else t, specs, i + 1)
  }

  function DeleteAll(t: Table, specs: seq<Spec>, i: nat): Table
    decreases |specs| - i
  {
    if i >= |specs| then t
    else DeleteAll(Exec(t, specs[i].chain, Delete, specs[i].rule, NoFault).0, specs, i + 1)
  }

  lemma {:induction false} SuccessfulApplyAddsAll(t: Table, iface: string, ip: string, f: seq<Fault>, i: nat)
    requires forall k :: i <= k < 6 ==>
      CountOf(t, RuleSpecs(iface, ip)[k].chain, RuleSpecs(iface, ip)[k].rule) == 0
    requires ApplyFrom(t, RuleSpecs(iface, ip), f, i).1
    ensures ApplyFrom(t, RuleSpecs(iface, ip), f, i).0 == AddAll(t, RuleSpecs(iface, ip), i)
    decreases 6 - i
  {
    var specs := RuleSpecs(iface, ip);
    if i < |specs| {
      var (t', ok) := ApplyOne(t, specs[i], FaultAt(f, 2 * i), FaultAt(f, 2 * i + 1));
      assert CountOf(t, specs[i].chain, specs[i].rule) == 0;
      forall k | i + 1 <= k < 6 ensures CountOf(t', specs[k].chain, specs[k].rule) == 0 {
        SpecsDistinct(iface, ip, i, k);
        ExecCounts(t, specs[i], specs[i].add, FaultAt(f, 2 * i + 1), specs[k].chain, specs[k].rule);
      }
      SuccessfulApplyAddsAll(t', iface, ip, f, i + 1);
    }
  }

  lemma {:induction false} SuccessfulRemoveDeletesAll(t: Table, specs: seq<Spec>, f: seq<Fault>, i: nat)
    requires RemoveFrom(t, specs, f, i).1
    ensures RemoveFrom(t, specs, f, i).0 == DeleteAll(t, specs, i)
    decreases |specs| - i
  {
    if i < |specs| {
      SuccessfulRemoveDeletesAll(RemoveOne(t, specs[i], FaultAt(f, i)).0, specs, f, i + 1);
    }
  }

  // One chain's share of the two folds.
  function AddOn(rules: seq<Rule>, specs: seq<Spec>, c: ChainName, i: nat): seq<Rule>
    decreases |specs| - i
  {
    if i >= |specs| then rules
    else AddOn(if specs[i].chain == c then Edited(rules, specs[i].rule, specs[i].add) else rules, specs, c, i + 1)
  }

  function DeleteOn(rules: seq<Rule>, specs: seq<Spec>, c: ChainName, i: nat): seq<Rule>
    decreases |specs| - i
  {
    if i >= |specs| then rules
    else DeleteOn(if specs[i].chain == c && specs[i].rule in rules then DeleteFirst(rules, specs[i].rule) else rules,
                  specs, c, i + 1)
  }

  lemma {:induction false} AddAllByChain(t: Table, specs: seq<Spec>, i: nat, c: ChainName)
    ensures AddAll(t, specs, i).Keys == t.Keys
    ensures c in t ==> AddAll(t, specs, i)[c] == AddOn(t[c], specs, c, i)
    decreases |specs| - i
  {
    if i < |specs| {
      var s := specs[i];
      AddAllByChain(if s.chain in t then t[s.chain := Edited(t[s.chain], s.rule, s.add)] else t, specs, i + 1, c);
    }
  }

  lemma {:induction false} DeleteAllByChain(t: Table, specs: seq<Spec>, i: nat, c: ChainName)
    ensures DeleteAll(t, specs, i).Keys == t.Keys
    ensures c in t ==> DeleteAll(t, specs, i)[c] == DeleteOn(t[c], specs, c, i)
    decreases |specs| - i
  {
    if i < |specs| {
      DeleteAllByChain(Exec(t, specs[i].chain, Delete, specs[i].rule, NoFault).0, specs, i + 1, c);
    }
  }

  lemma AddOnUnrolled(rules: seq<Rule>, iface: string, ip: string, c: ChainName)
    ensures var s := RuleSpecs(iface, ip);
            AddOn(rules, s, c, 0) ==
            match c
            case DockerUser => [s[1].rule] + ([s[0].rule] + rules)
            case Input => rules + [s[2].rule]
            case Output => rules + [s[3].rule]
            case Forward => (rules + [s[4].rule]) + [s[5].rule]
  {
    var s := RuleSpecs(iface, ip);
    var r1 := if c.DockerUser? then [s[0].rule] + rules else rules;
    var r2 := if c.DockerUser? then [s[1].rule] + r1 else r1;
    var r3 := if c.Input? then r2 + [s[2].rule] else r2;
    var r4 := if c.Output? then r3 + [s[3].rule] else r3;
    var r5 := if c.Forward? then r4 + [s[4].rule] else r4;
    var r6 := if c.Forward? then r5 + [s[5].rule] else r5;
    assert AddOn(rules, s, c, 0) == AddOn(r1, s, c, 1);
    assert AddOn(r1, s, c, 1) == AddOn(r2, s, c, 2);
    assert AddOn(r2, s, c, 2) == AddOn(r3, s, c, 3);
    assert AddOn(r3, s, c, 3) == AddOn(r4, s, c, 4);
    assert AddOn(r4, s, c, 4) == AddOn(r5, s, c, 5);
    assert AddOn(r5, s, c, 5) == AddOn(r6, s, c, 6) == r6;
  }

  function DeletePresent(rules: seq<Rule>, r: Rule): seq<Rule> {
    if r in rules then DeleteFirst(rules, r) else rules
  }

  lemma DeleteOnUnrolled(rules: seq<Rule>, iface: string, ip: string, c: ChainName)
    ensures var s := RuleSpecs(iface, ip);
            DeleteOn(rules, s, c, 0) ==
            match c
            case DockerUser => DeletePresent(DeletePresent(rules, s[0].rule), s[1].rule)
            case Input => DeletePresent(rules, s[2].rule)
            case Output => DeletePresent(rules, s[3].rule)
            case Forward => DeletePresent(DeletePresent(rules, s[4].rule), s[5].rule)
  {
    var s := RuleSpecs(iface, ip);
    var r1 := if c.DockerUser? then DeletePresent(rules, s[0].rule) else rules;
    var r2 := if c.DockerUser? then DeletePresent(r1, s[1].rule) else r1;
    var r3 := if c.Input? then DeletePresent(r2, s[2].rule) else r2;
    var r4 := if c.Output? then DeletePresent(r3, s[3].rule) else r3;
    var r5 := if c.Forward? then DeletePresent(r4, s[4].rule) else r4;
    var r6 := if c.Forward? then DeletePresent(r5, s[5].rule) else r5;
    assert DeleteOn(rules, s, c, 0) == DeleteOn(r1, s, c, 1);
    assert DeleteOn(r1, s, c, 1) == DeleteOn(r2, s, c, 2);
    assert DeleteOn(r2, s, c, 2) == DeleteOn(r3, s, c, 3);
    assert DeleteOn(r3, s, c, 3) == DeleteOn(r4, s, c, 4);
    assert DeleteOn(r4, s, c, 4) == DeleteOn(r5, s, c, 5);
    assert DeleteOn(r5, s, c, 5) == DeleteOn(r6, s, c, 6) == r6;
  }

  lemma LastIsUndone(rules: seq<Rule>, x: Rule)
    requires x !in rules
    ensures DeletePresent(rules + [x], x) == rules
  {
    DeleteAfter(rules, [x], x);
    assert rules + [] == rules;
  }

  lemma PairIsUndone(rules: seq<Rule>, x: Rule, y: Rule)
    requires x !in rules && y !in rules && x != y
    ensures DeletePresent(DeletePresent([y] + ([x] + rules), x), y) == rules
    ensures DeletePresent(DeletePresent((rules + [x]) + [y], x), y) == rules
  {
    DeleteAfter([y], [x] + rules, x);
    assert DeletePresent([y] + ([x] + rules), x) == [y] + rules;
    LastIsUndone(rules, x);
    DeleteBefore(rules + [x], [y], x);
    LastIsUndone(rules, y);
  }

  lemma AbsentOn(iface: string, ip: string, t: Table, c: ChainName)
    requires NoneLeft(iface, ip, t) && c in t
    ensures forall s :: s in RuleSpecs(iface, ip) && s.chain == c ==> s.rule !in t[c]
  {
  }

  lemma ChainIsRestored(iface: string, ip: string, rules: seq<Rule>, c: ChainName)
    requires forall s :: s in RuleSpecs(iface, ip) && s.chain == c ==> s.rule !in rules
    ensures DeleteOn(AddOn(rules, RuleSpecs(iface, ip), c, 0), RuleSpecs(iface, ip), c, 0) == rules
  {
    var s := RuleSpecs(iface, ip);
    AddOnUnrolled(rules, iface, ip, c);
    DeleteOnUnrolled(AddOn(rules, s, c, 0), iface, ip, c);
    assert s[0] in s && s[1] in s && s[2] in s && s[3] in s && s[4] in s && s[5] in s;
    match c
    case DockerUser => PairIsUndone(rules, s[0].rule, s[1].rule);
    case Input => LastIsUndone(rules, s[2].rule);
    case Output => LastIsUndone(rules, s[3].rule);
    case Forward => PairIsUndone(rules, s[4].rule, s[5].rule);
  }

  lemma DeleteAllUndoesAddAll(iface: string, ip: string, t: Table)
    requires NoneLeft(iface, ip, t)
    ensures DeleteAll(AddAll(t, RuleSpecs(iface, ip), 0), RuleSpecs(iface, ip), 0) == t
  {
    var s := RuleSpecs(iface, ip);
    var t1 := AddAll(t, s, 0);
    AddAllByChain(t, s, 0, Input);
    DeleteAllByChain(t1, s, 0, Input);
    forall c | c in t ensures DeleteAll(t1, s, 0)[c] == t[c] {
      AddAllByChain(t, s, 0, c);
      DeleteAllByChain(t1, s, 0, c);
      AbsentOn(iface, ip, t, c);
      ChainIsRestored(iface, ip, t[c], c);
    }
  }

  /** Block then unblock, both reporting success, restores every chain rule for rule. */
  lemma UnblockUndoesBlock(iface: string, ip: string, t: Table, f: seq<Fault>, g: seq<Fault>)
    requires NoneLeft(iface, ip, t)
    requires Apply(t, iface, ip, f).1
    requires Remove(Apply(t, iface, ip, f).0, iface, ip, g).1
    ensures Remove(Apply(t, iface, ip, f).0, iface, ip, g).0 == t
  {
    var specs := RuleSpecs(iface, ip);
    forall k | 0 <= k < 6 ensures CountOf(t, specs[k].chain, specs[k].rule) == 0 {
      assert specs[k] in specs;
    }
    SuccessfulApplyAddsAll(t, iface, ip, f, 0);
    SuccessfulRemoveDeletesAll(AddAll(t, specs, 0), specs, g, 0);
    DeleteAllUndoesAddAll(iface, ip, t);
  }

  // ---------------------------------------------------------------------------------------
  // Packets.

  /** Everyone else keeps their verdict: two tables that differ only in rules managed for `ips`
      treat a packet that involves none of `ips` the same way on every chain. */
  lemma UninvolvedPacketsUnaffected(iface: string, ips: set<string>, t: Table, t': Table, c: ChainName,
                                    p: Packet, foreign: (nat, Packet) -> Effect)
    requires SameOutside(iface, ips, t, t') && c in t
    requires p.src !in ips && p.dst !in ips
    ensures Verdict(t'[c], p, foreign) == Verdict(t[c], p, foreign)
  {
    StripKeepsVerdict(t[c], iface, c, ips, p, foreign);
    StripKeepsVerdict(t'[c], iface, c, ips, p, foreign);
  }

  predicate Matches(r: Rule, p: Packet) {
    r.Drop? && Meets(r.inIf, p.inIf) && Meets(r.outIf, p.outIf) && Meets(r.src, p.src) && Meets(r.dst, p.dst)
  }

  // A matching drop stands before every rule the sensor does not understand.
  predicate DropComesFirst(rules: seq<Rule>, p: Packet) {
    rules != [] && rules[0].Drop? && (Matches(rules[0], p) || DropComesFirst(rules[1..], p))
  }

  /** A chain drops a packet whatever its foreign rules mean exactly when a matching drop precedes them all. */
  lemma DroppedRegardlessIff(rules: seq<Rule>, p: Packet)
    ensures (forall foreign: (nat, Packet) -> Effect :: Verdict(rules, p, foreign) == Dropped) <==>
            DropComesFirst(rules, p)
  {
    forall foreign: (nat, Packet) -> Effect ensures DropComesFirst(rules, p) ==> Verdict(rules, p, foreign) == Dropped {
      FirstDropWins(rules, p, foreign);
    }
    var permissive := (id: nat, q: Packet) => Accepted;
    if !DropComesFirst(rules, p) {
      PermissiveForeignWins(rules, p, permissive);
    }
  }

  lemma {:induction false} FirstDropWins(rules: seq<Rule>, p: Packet, foreign: (nat, Packet) -> Effect)
    ensures DropComesFirst(rules, p) ==> Verdict(rules, p, foreign) == Dropped
  {
    if rules != [] { FirstDropWins(rules[1..], p, foreign); }
  }

  lemma {:induction false} PermissiveForeignWins(rules: seq<Rule>, p: Packet, foreign: (nat, Packet) -> Effect)
    requires forall id: nat, q: Packet :: foreign(id, q) == Accepted
    requires !DropComesFirst(rules, p)
    ensures Verdict(rules, p, foreign) != Dropped
  {
    if rules != [] && rules[0].Drop? { PermissiveForeignWins(rules[1..], p, foreign); }
  }

  lemma {:induction false} ManagedDropComesFirst(m: seq<Rule>, rest: seq<Rule>, p: Packet, r: Rule)
    requires forall i :: 0 <= i < |m| ==> m[i].Drop?
    requires r in m && Matches(r, p)
    ensures DropComesFirst(m + rest, p)
  {
    assert (m + rest)[1..] == m[1..] + rest;
    if m[0] != r { ManagedDropComesFirst(m[1..], rest, p, r); }
  }

  /** A packet to or from an enforced address that traverses DOCKER-USER is dropped there, whatever
      the administrator's rules are, if only drops stand before the address's rules. */
  lemma EnforcedAddressIsCutOff(iface: string, t: Table, ip: string, p: Packet, foreign: (nat, Packet) -> Effect)
    requires DockerUser in t && OnlyDropsBefore(iface, ip, t) && Enforced(iface, ip, t)
    requires p.src == ip || p.dst == ip
    ensures Verdict(t[DockerUser], p, foreign) == Dropped
  {
    var s := RuleSpecs(iface, ip)[if p.src == ip then 0 else 1];
    assert s in RuleSpecs(iface, ip) && SpecHolds(t, s);
    SpecShape(iface, ip, s);
    var rules := t[DockerUser];
    var i :| 0 <= i < |rules| && rules[i] == s.rule;
    assert rules == rules[..i + 1] + rules[i + 1..];
    assert rules[..i + 1][i] == s.rule;
    ManagedDropComesFirst(rules[..i + 1], rules[i + 1..], p, s.rule);
    FirstDropWins(rules, p, foreign);
  }

  /** Which packets the rules of an address catch, chain by chain. */
  predicate Catches(iface: string, ip: string, c: ChainName, p: Packet) {
    match c
    case DockerUser => p.src == ip || p.dst == ip
    case Input => p.src == ip && p.inIf == iface
    case Output => p.dst == ip && p.outIf == iface
    case Forward => (p.src == ip && p.inIf == iface) || (p.dst == ip && p.outIf == iface)
  }

  lemma SpecsCatch(iface: string, ip: string, c: ChainName, p: Packet)
    ensures (exists s :: s in RuleSpecs(iface, ip) && s.chain == c && Matches(s.rule, p)) <==> Catches(iface, ip, c, p)
  {
    var s := RuleSpecs(iface, ip);
    assert s[0] in s && s[1] in s && s[2] in s && s[3] in s && s[4] in s && s[5] in s;
    assert forall r :: r in s ==> r == s[0] || r == s[1] || r == s[2] || r == s[3] || r == s[4] || r == s[5];
  }

  lemma RuleSpeaksLast(iface: string, ips: set<string>, original: Table, t: Table, ip: string, s: Spec,
                       p: Packet, foreign: (nat, Packet) -> Effect)
    requires FreeOfManaged(iface, ips, original) && Layered(iface, ips, original, t)
    requires ip in ips && Enforced(iface, ip, t) && s in RuleSpecs(iface, ip)
    requires !s.chain.DockerUser? && s.chain in t && Matches(s.rule, p)
    ensures Verdict(t[s.chain], p, foreign) ==
            var own := Verdict(original[s.chain], p, foreign); if own.NoDecision? then Dropped else own
  {
    var c := s.chain;
    assert SpecHolds(t, s);
    assert ChainLayered(iface, ips, c, original[c], t[c]);
    var m := t[c][|original[c]|..];
    assert t[c] == original[c] + m;
    SpecShape(iface, ip, s);
    assert s.rule in m;
    ManagedDropComesFirst(m, [], p, s.rule);
    assert m + [] == m;
    FirstDropWins(m, p, foreign);
    VerdictOfConcat(original[c], m, p, foreign);
  }

  /** On the other chains the sensor speaks last: a packet from the address that enters on the interface
      (INPUT, FORWARD) or to the address that leaves on it (OUTPUT, FORWARD) gets the administrator's
      verdict if there is one, and is dropped instead of reaching the policy if not. */
  lemma EnforcedAddressNeverReachesPolicy(iface: string, ips: set<string>, original: Table, t: Table, ip: string,
                                          c: ChainName, p: Packet, foreign: (nat, Packet) -> Effect)
    requires FreeOfManaged(iface, ips, original) && Layered(iface, ips, original, t)
    requires ip in ips && Enforced(iface, ip, t) && c in t
    requires match c
             case DockerUser => false
             case Input => p.src == ip && p.inIf == iface
             case Output => p.dst == ip && p.outIf == iface
             case Forward => (p.src == ip && p.inIf == iface) || (p.dst == ip && p.outIf == iface)
    ensures Verdict(t[c], p, foreign) ==
            var own := Verdict(original[c], p, foreign); if own.NoDecision? then Dropped else own
  {
    SpecsCatch(iface, ip, c, p);
    var s :| s in RuleSpecs(iface, ip) && s.chain == c && Matches(s.rule, p);
    RuleSpeaksLast(iface, ips, original, t, ip, s, p, foreign);
  }

  // What a block puts at the head of DOCKER-USER for one rule: the rule, unless the check finds it.
  function Inserted(rules: seq<Rule>, r: Rule, onCheck: Fault): seq<Rule> {
    if r in rules && !onCheck.ExitFault? then [] else [r]
  }

  lemma InsertionAtHead(t: Table, s: Spec, onCheck: Fault, onAdd: Fault)
    requires s.chain.DockerUser? && s.add.InsertHead? && DockerUser in t
    requires ApplyOne(t, s, onCheck, onAdd).1
    ensures var t' := ApplyOne(t, s, onCheck, onAdd).0;
            DockerUser in t' && t'[DockerUser] == Inserted(t[DockerUser], s.rule, onCheck) + t[DockerUser]
  {
    assert [] + t[DockerUser] == t[DockerUser];
  }

  /** What a successful block makes of DOCKER-USER. */
  lemma DockerAfterBlock(t: Table, iface: string, ip: string, f: seq<Fault>)
    requires DockerUser in t && Apply(t, iface, ip, f).1
    ensures var t', s, rules := Apply(t, iface, ip, f).0, RuleSpecs(iface, ip), t[DockerUser];
            && DockerUser in t'
            && t'[DockerUser] == Inserted(rules, s[1].rule, FaultAt(f, 2))
                                 + (Inserted(rules, s[0].rule, FaultAt(f, 0)) + rules)
  {
    var s := RuleSpecs(iface, ip);
    var t1 := ApplyOne(t, s[0], FaultAt(f, 0), FaultAt(f, 1)).0;
    var t2 := ApplyOne(t1, s[1], FaultAt(f, 2), FaultAt(f, 3)).0;
    assert ApplyFrom(t, s, f, 0) == ApplyFrom(t1, s, f, 1) == ApplyFrom(t2, s, f, 2);
    InsertionAtHead(t, s[0], FaultAt(f, 0), FaultAt(f, 1));
    InsertionAtHead(t1, s[1], FaultAt(f, 2), FaultAt(f, 3));
    assert s[1].rule in t1[DockerUser] <==> s[1].rule in t[DockerUser];
    DockerUntouchedFrom(t2, s, f, 2);
  }

  lemma DropBehindInserted(rules: seq<Rule>, all: seq<Rule>, r: Rule, onCheck: Fault, p: Packet)
    requires r.Drop?
    ensures DropComesFirst(Inserted(all, r, onCheck) + rules, p) <==>
            DropComesFirst(rules, p) || ((r !in all || onCheck.ExitFault?) && Matches(r, p))
  {
    assert [] + rules == rules && ([r] + rules)[1..] == rules;
  }

  /** After a successful block, a packet is dropped on DOCKER-USER whatever the administrator's rules
      mean exactly when it already was, or it comes from (goes to) the address and the rule for that
      was not on the chain yet, or its check failed to see it. */
  lemma BlockCutsOffIff(t: Table, iface: string, ip: string, f: seq<Fault>, p: Packet)
    requires DockerUser in t && Apply(t, iface, ip, f).1
    ensures DockerUser in Apply(t, iface, ip, f).0
    ensures var s := RuleSpecs(iface, ip);
            (forall foreign: (nat, Packet) -> Effect ::
               Verdict(Apply(t, iface, ip, f).0[DockerUser], p, foreign) == Dropped) <==>
            || DropComesFirst(t[DockerUser], p)
            || (p.src == ip && (s[0].rule !in t[DockerUser] || FaultAt(f, 0).ExitFault?))
            || (p.dst == ip && (s[1].rule !in t[DockerUser] || FaultAt(f, 2).ExitFault?))
  {
    var s, rules := RuleSpecs(iface, ip), t[DockerUser];
    DockerAfterBlock(t, iface, ip, f);
    DropBehindInserted(rules, rules, s[0].rule, FaultAt(f, 0), p);
    DropBehindInserted(Inserted(rules, s[0].rule, FaultAt(f, 0)) + rules, rules, s[1].rule, FaultAt(f, 2), p);
    DroppedRegardlessIff(Apply(t, iface, ip, f).0[DockerUser], p);
  }

  /** A hand-written copy of the rule behind an accepting one satisfies the check: nothing is inserted,
      and the packet is still accepted. */
  lemma HandWrittenRuleDefeatsInsertion(iface: string, ip: string, other: string)
    requires other != ip
    ensures var specs := RuleSpecs(iface, ip);
            var docker := [Foreign(0), specs[0].rule, specs[1].rule];
            var t: Table := map[DockerUser := docker, Input := [], Output := [], Forward := []];
            var p := Packet(ip, other, iface, "");
            var (t', ok) := Apply(t, iface, ip, []);
            ok && t'.Keys == t.Keys && t'[DockerUser] == docker
            && Verdict(t'[DockerUser], p, (id: nat, q: Packet) => Accepted) == Accepted
  {
    var specs := RuleSpecs(iface, ip);
    var docker := [Foreign(0), specs[0].rule, specs[1].rule];
    var t: Table := map[DockerUser := docker, Input := [], Output := [], Forward := []];
    NoFaultMeansSuccess(t, iface, ip, [], 0);
    ApplyOnlyAdds(t, specs, [], 0, Input, Foreign(0));
    DockerAfterBlock(t, iface, ip, []);
    assert specs[0].rule in docker && specs[1].rule in docker;
    assert [] + ([] + docker) == docker;
  }

  lemma {:induction false} DockerUntouchedFrom(t: Table, specs: seq<Spec>, f: seq<Fault>, i: nat)
    requires forall k :: i <= k < |specs| ==> specs[k].chain != DockerUser
    requires DockerUser in t
    ensures var t' := ApplyFrom(t, specs, f, i).0; t'.Keys == t.Keys && t'[DockerUser] == t[DockerUser]
    decreases |specs| - i
  {
    if i < |specs| {
      var (t', ok) := ApplyOne(t, specs[i], FaultAt(f, 2 * i), FaultAt(f, 2 * i + 1));
      if ok { DockerUntouchedFrom(t', specs, f, i + 1); }
    }
  }

  /** With the built-in chains there and no faults, blocking cannot fail. */
  lemma {:induction false} NoFaultMeansSuccess(t: Table, iface: string, ip: string, f: seq<Fault>, i: nat)
    requires {Input, Output, Forward} <= t.Keys
    requires forall k :: 0 <= k < |f| ==> f[k].NoFault?
    ensures ApplyFrom(t, RuleSpecs(iface, ip), f, i).1
    decreases 6 - i
  {
    var specs := RuleSpecs(iface, ip);
    if i < |specs| {
      var (t', ok) := ApplyOne(t, specs[i], FaultAt(f, 2 * i), FaultAt(f, 2 * i + 1));
      assert t'.Keys == t.Keys;
      NoFaultMeansSuccess(t', iface, ip, f, i + 1);
    }
  }

  /** Without faults unblocking never fails: what is not there counts as removed. */
  lemma {:induction false} NoFaultMeansRemoved(t: Table, specs: seq<Spec>, f: seq<Fault>, i: nat)
    requires forall k :: 0 <= k < |f| ==> f[k].NoFault?
    ensures RemoveFrom(t, specs, f, i).1
    decreases |specs| - i
  {
    if i < |specs| { NoFaultMeansRemoved(RemoveOne(t, specs[i], FaultAt(f, i)).0, specs, f, i + 1); }
  }
}
