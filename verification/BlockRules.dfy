/** The kernel side of blocking one address: which rules are wanted, and the three loops that
    put them in, take them out on request, and take them out on expiry. */
module BlockRules {
  import opened Prelude
  import opened Iptables

  datatype Spec = Spec(chain: ChainName, rule: Rule, add: Action)

  function RuleSpecs(iface: string, ip: string): seq<Spec> {
    [ Spec(DockerUser, Drop(None, None, Some(ip), None), InsertHead),
      Spec(DockerUser, Drop(None, None, None, Some(ip)), InsertHead),
      Spec(Input, Drop(Some(iface), None, Some(ip), None), Append),
      Spec(Output, Drop(None, Some(iface), None, Some(ip)), Append),
      Spec(Forward, Drop(Some(iface), None, Some(ip), None), Append),
      Spec(Forward, Drop(None, Some(iface), None, Some(ip)), Append) ]
  }

  function FaultAt(f: seq<Fault>, i: nat): Fault {
    if i < |f| then f[i] else NoFault
  }

  // Check-then-add of one rule; the second component is false when the caller must give up.
  function ApplyOne(t: Table, s: Spec, onCheck: Fault, onAdd: Fault): (Table, bool) {
    var (_, found) := Exec(t, s.chain, Check, s.rule, onCheck);
    if found.NotRun? then (t, false)
    else if found.Success? then (t, true)
    else
      var (t', added) := Exec(t, s.chain, s.add, s.rule, onAdd);
      (t', added.Success? || (s.chain.DockerUser? && added.NoSuchChain?))
  }

  // Rule i of the list consumes environment choices 2i (the check) and 2i+1 (the addition).
  function ApplyFrom(t: Table, specs: seq<Spec>, f: seq<Fault>, i: nat): (Table, bool)
    decreases |specs| - i
  {
    if i >= |specs| then (t, true)
    else
      var (t', ok) := ApplyOne(t, specs[i], FaultAt(f, 2 * i), FaultAt(f, 2 * i + 1));
      if ok then ApplyFrom(t', specs, f, i + 1) else (t', false)
  }

  function RemoveOne(t: Table, s: Spec, fault: Fault): (Table, bool) {
    var (t', reply) := Exec(t, s.chain, Delete, s.rule, fault);
    (t', reply.Success? || reply.NoSuchChain? || reply.BadRule?)
  }

  function RemoveFrom(t: Table, specs: seq<Spec>, f: seq<Fault>, i: nat): (Table, bool)
    decreases |specs| - i
  {
    if i >= |specs| then (t, true)
    else
      var (t', ok) := RemoveOne(t, specs[i], FaultAt(f, i));
      if ok then RemoveFrom(t', specs, f, i + 1) else (t', false)
  }

  // The expiry loop runs every deletion whatever the previous ones reported.
  function ExpireFrom(t: Table, specs: seq<Spec>, f: seq<Fault>, i: nat): Table
    decreases |specs| - i
  {
    if i >= |specs| then t
    else ExpireFrom(RemoveOne(t, specs[i], FaultAt(f, i)).0, specs, f, i + 1)
  }

  function Apply(t: Table, iface: string, ip: string, f: seq<Fault>): (Table, bool) {
    ApplyFrom(t, RuleSpecs(iface, ip), f, 0)
  }

  function Remove(t: Table, iface: string, ip: string, f: seq<Fault>): (Table, bool) {
    RemoveFrom(t, RuleSpecs(iface, ip), f, 0)
  }

  function Expire(t: Table, iface: string, ip: string, f: seq<Fault>): Table {
    ExpireFrom(t, RuleSpecs(iface, ip), f, 0)
  }

  // ---------------------------------------------------------------------------------------
  // Which rules count as managed, and what "everything else" in a chain is.

  /** The address a rule would be managed for, judged by its shape on that chain. */
  function ManagedIp(iface: string, c: ChainName, r: Rule): Option<string> {
    match (c, r)
    case (DockerUser, Drop(None, None, Some(ip), None)) => Some(ip)
    case (DockerUser, Drop(None, None, None, Some(ip))) => Some(ip)
    case (Input, Drop(Some(i), None, Some(ip), None)) => if i == iface then Some(ip) else None
    case (Output, Drop(None, Some(o), None, Some(ip))) => if o == iface then Some(ip) else None
    case (Forward, Drop(Some(i), None, Some(ip), None)) => if i == iface then Some(ip) else None
    case (Forward, Drop(None, Some(o), None, Some(ip))) => if o == iface then Some(ip) else None
    case _ => None
  }

  predicate ManagedFor(iface: string, c: ChainName, r: Rule, ips: set<string>) {
    var m := ManagedIp(iface, c, r);
    m.Some? && m.value in ips
  }

  lemma SpecsAreTheManagedRules(iface: string, ip: string, c: ChainName, r: Rule)
    ensures ManagedIp(iface, c, r) == Some(ip) <==>
            exists i :: 0 <= i < 6 && RuleSpecs(iface, ip)[i].chain == c && RuleSpecs(iface, ip)[i].rule == r
  {
    var specs := RuleSpecs(iface, ip);
    if ManagedIp(iface, c, r) == Some(ip) {
      var i := match c
        case DockerUser => if r == specs[0].rule then 0 else 1
        case Input => 2
        case Output => 3
        case Forward => if r == specs[4].rule then 4 else 5;
      assert specs[i].chain == c && specs[i].rule == r;
    }
  }

  // The chain with every rule managed for one of `ips` struck out.
  function Strip(rules: seq<Rule>, iface: string, c: ChainName, ips: set<string>): seq<Rule> {
    if rules == [] then []
    else (if ManagedFor(iface, c, rules[0], ips) then [] else [rules[0]]) + Strip(rules[1..], iface, c, ips)
  }

  lemma {:induction false} StripOfConcat(a: seq<Rule>, b: seq<Rule>, iface: string, c: ChainName, ips: set<string>)
    ensures Strip(a + b, iface, c, ips) == Strip(a, iface, c, ips) + Strip(b, iface, c, ips)
  {
    if a == [] {
      assert a + b == b;
    } else {
      assert (a + b)[1..] == a[1..] + b;
      StripOfConcat(a[1..], b, iface, c, ips);
    }
  }

  lemma {:induction false} StripTwice(rules: seq<Rule>, iface: string, c: ChainName,
                                      few: set<string>, many: set<string>)
    requires few <= many
    ensures Strip(Strip(rules, iface, c, few), iface, c, many) == Strip(rules, iface, c, many)
  {
    if rules != [] {
      StripTwice(rules[1..], iface, c, few, many);
      StripOfConcat(if ManagedFor(iface, c, rules[0], few) then [] else [rules[0]],
                    Strip(rules[1..], iface, c, few), iface, c, many);
    }
  }

  lemma {:induction false} StripKeepsTheRest(rules: seq<Rule>, iface: string, c: ChainName, ips: set<string>, r: Rule)
    requires !ManagedFor(iface, c, r, ips)
    ensures multiset(Strip(rules, iface, c, ips))[r] == multiset(rules)[r]
  {
    if rules != [] {
      StripKeepsTheRest(rules[1..], iface, c, ips, r);
      assert rules == [rules[0]] + rules[1..];
    }
  }

  /** Striking out managed rules of addresses a packet does not involve cannot change its verdict. */
  lemma {:induction false} StripKeepsVerdict(rules: seq<Rule>, iface: string, c: ChainName, ips: set<string>,
                                             p: Packet, foreign: (nat, Packet) -> Effect)
    requires p.src !in ips && p.dst !in ips
    ensures Verdict(Strip(rules, iface, c, ips), p, foreign) == Verdict(rules, p, foreign)
  {
    if rules != [] {
      StripKeepsVerdict(rules[1..], iface, c, ips, p, foreign);
      VerdictOfConcat(if ManagedFor(iface, c, rules[0], ips) then [] else [rules[0]],
                      Strip(rules[1..], iface, c, ips), p, foreign);
      assert Verdict([rules[0]], p, foreign) == EffectOf(rules[0], p, foreign);
    }
  }

  // ---------------------------------------------------------------------------------------
  // Every edit made for one address, whatever faults occur, leaves all other rules alone and
  // keeps the managed rules in front of DOCKER-USER and behind the other chains.

  /** The two tables differ at most in rules managed for `ips`. */
  ghost predicate SameOutside(iface: string, ips: set<string>, t: Table, t': Table) {
    && t.Keys == t'.Keys
    && forall c :: c in t ==> Strip(t[c], iface, c, ips) == Strip(t'[c], iface, c, ips)
  }

  ghost predicate AllManaged(iface: string, c: ChainName, rules: seq<Rule>, ips: set<string>) {
    forall i :: 0 <= i < |rules| ==> ManagedFor(iface, c, rules[i], ips)
  }

  ghost predicate FreeOfManaged(iface: string, ips: set<string>, t: Table) {
    forall c, i :: c in t && 0 <= i < |t[c]| ==> !ManagedFor(iface, c, t[c][i], ips)
  }

  ghost predicate ChainLayered(iface: string, ips: set<string>, c: ChainName, original: seq<Rule>, rules: seq<Rule>) {
    && |original| <= |rules|
    && var n := |rules| - |original|;
       if c.DockerUser?
       then AllManaged(iface, c, rules[..n], ips) && rules[n..] == original
       else rules[..|original|] == original && AllManaged(iface, c, rules[|original|..], ips)
  }

  /** DOCKER-USER is (managed rules) then (original); every other chain is (original) then (managed rules). */
  ghost predicate Layered(iface: string, ips: set<string>, original: Table, t: Table) {
    && t.Keys == original.Keys
    && forall c :: c in t ==> ChainLayered(iface, ips, c, original[c], t[c])
  }

  /** On DOCKER-USER, nothing but drops stands before a rule managed for `ip`. */
  ghost predicate OnlyDropsBefore(iface: string, ip: string, t: Table) {
    DockerUser in t ==> FrontOnly(iface, ip, t[DockerUser])
  }

  ghost predicate FrontOnly(iface: string, ip: string, rules: seq<Rule>) {
    forall i, j :: 0 <= j < i < |rules| && ManagedFor(iface, DockerUser, rules[i], {ip}) ==> rules[j].Drop?
  }

  ghost predicate KeepsFront(iface: string, t: Table, t': Table) {
    forall ip :: OnlyDropsBefore(iface, ip, t) ==> OnlyDropsBefore(iface, ip, t')
  }

  ghost predicate GoodEdit(iface: string, ips: set<string>, original: Table, ip: string, t: Table, t': Table) {
    && SameOutside(iface, {ip}, t, t')
    && KeepsFront(iface, t, t')
    && (Layered(iface, ips, original, t) ==> Layered(iface, ips, original, t'))
  }

  function Edited(rules: seq<Rule>, r: Rule, a: Action): seq<Rule> {
    match a
    case Check => rules
    case InsertHead => [r] + rules
    case Append => rules + [r]
    case Delete => DeleteFirst(rules, r)
  }

  lemma StripOfEdited(rules: seq<Rule>, iface: string, c: ChainName, ips: set<string>, r: Rule, a: Action)
    requires ManagedFor(iface, c, r, ips)
    requires a == Delete ==> r in rules
    ensures Strip(Edited(rules, r, a), iface, c, ips) == Strip(rules, iface, c, ips)
  {
    assert Strip([r], iface, c, ips) == [];
    if a == Delete {
      StripOfDelete(rules, iface, c, ips, r);
    } else if a == InsertHead {
      StripOfConcat([r], rules, iface, c, ips);
    } else if a == Append {
      StripOfConcat(rules, [r], iface, c, ips);
    }
  }

  lemma {:induction false} StripOfDelete(rules: seq<Rule>, iface: string, c: ChainName, ips: set<string>, r: Rule)
    requires ManagedFor(iface, c, r, ips) && r in rules
    ensures Strip(DeleteFirst(rules, r), iface, c, ips) == Strip(rules, iface, c, ips)
  {
    if rules[0] != r {
      StripOfDelete(rules[1..], iface, c, ips, r);
      var d := DeleteFirst(rules, r);
      assert d[0] == rules[0] && d[1..] == DeleteFirst(rules[1..], r);
    }
  }

  lemma LayeredDelete(iface: string, ips: set<string>, c: ChainName, original: seq<Rule>, rules: seq<Rule>, r: Rule)
    requires ManagedFor(iface, c, r, ips) && ChainLayered(iface, ips, c, original, rules)
    requires r !in original && r in rules
    ensures ChainLayered(iface, ips, c, original, DeleteFirst(rules, r))
  {
    var n := |rules| - |original|;
    if c.DockerUser? {
      var m := rules[..n];
      assert rules == m + original;
      DeleteBefore(m, original, r);
      ManagedAfterDelete(iface, ips, c, m, r);
      assert DeleteFirst(rules, r)[..n - 1] == DeleteFirst(m, r);
    } else {
      var m := rules[|original|..];
      assert rules == original + m;
      DeleteAfter(original, m, r);
      ManagedAfterDelete(iface, ips, c, m, r);
      assert DeleteFirst(rules, r)[|original|..] == DeleteFirst(m, r);
    }
  }

  lemma ManagedAfterDelete(iface: string, ips: set<string>, c: ChainName, m: seq<Rule>, r: Rule)
    requires AllManaged(iface, c, m, ips) && r in m
    ensures AllManaged(iface, c, DeleteFirst(m, r), ips) && |DeleteFirst(m, r)| == |m| - 1
  {
    var i := DeleteFirstSplits(m, r);
  }

  lemma LayeredAdd(iface: string, ips: set<string>, c: ChainName, original: seq<Rule>, rules: seq<Rule>, r: Rule)
    requires ManagedFor(iface, c, r, ips) && ChainLayered(iface, ips, c, original, rules)
    ensures ChainLayered(iface, ips, c, original, Edited(rules, r, if c.DockerUser? then InsertHead else Append))
  {
    var n := |rules| - |original|;
    if c.DockerUser? {
      assert ([r] + rules)[..n + 1] == [r] + rules[..n];
      assert ([r] + rules)[n + 1..] == rules[n..];
    } else {
      assert (rules + [r])[..|original|] == rules[..|original|];
      assert (rules + [r])[|original|..] == rules[|original|..] + [r];
    }
  }

  lemma EditedKeepsFront(iface: string, ip: string, rules: seq<Rule>, r: Rule, a: Action)
    requires FrontOnly(iface, ip, rules) && r.Drop? && (a == InsertHead || (a == Delete && r in rules))
    ensures FrontOnly(iface, ip, Edited(rules, r, a))
  {
    if a == Delete { var i := DeleteFirstSplits(rules, r); }
  }

  lemma ExecKeepsFront(iface: string, t: Table, s: Spec, a: Action, fault: Fault)
    requires s.rule.Drop? && (s.chain.DockerUser? ==> a == InsertHead || a == Delete)
    ensures KeepsFront(iface, t, Exec(t, s.chain, a, s.rule, fault).0)
  {
    var t' := Exec(t, s.chain, a, s.rule, fault).0;
    forall ip | OnlyDropsBefore(iface, ip, t) ensures OnlyDropsBefore(iface, ip, t') {
      if s.chain.DockerUser? && t' != t { EditedKeepsFront(iface, ip, t[DockerUser], s.rule, a); }
    }
  }

  /** Where the sensor's rules were not among the original ones, layering gives that. */
  lemma LayeredMeansFront(iface: string, ips: set<string>, original: Table, t: Table, ip: string)
    requires FreeOfManaged(iface, ips, original) && Layered(iface, ips, original, t) && ip in ips
    ensures OnlyDropsBefore(iface, ip, t)
  {
  }

  lemma ExecIsGood(iface: string, ips: set<string>, original: Table, ip: string, t: Table,
                   s: Spec, a: Action, fault: Fault)
    requires ip in ips && FreeOfManaged(iface, ips, original)
    requires s in RuleSpecs(iface, ip) && (a == s.add || a == Delete)
    ensures GoodEdit(iface, ips, original, ip, t, Exec(t, s.chain, a, s.rule, fault).0)
  {
    var c, r := s.chain, s.rule;
    SpecShape(iface, ip, s);
    ExecKeepsFront(iface, t, s, a, fault);
    if fault.NoFault? && c in t && (a == Delete ==> r in t[c]) {
      assert Exec(t, c, a, r, fault).0 == t[c := Edited(t[c], r, a)];
      StripOfEdited(t[c], iface, c, {ip}, r, a);
      if Layered(iface, ips, original, t) {
        if a == Delete {
          LayeredDelete(iface, ips, c, original[c], t[c], r);
        } else {
          LayeredAdd(iface, ips, c, original[c], t[c], r);
        }
      }
    }
  }

  lemma SpecShape(iface: string, ip: string, s: Spec)
    requires s in RuleSpecs(iface, ip)
    ensures ManagedIp(iface, s.chain, s.rule) == Some(ip)
    ensures s.rule.Drop? && s.add == if s.chain.DockerUser? then InsertHead else Append
  {
  }

  lemma GoodEditTrans(iface: string, ips: set<string>, original: Table, ip: string, t: Table, t': Table, t'': Table)
    requires GoodEdit(iface, ips, original, ip, t, t') && GoodEdit(iface, ips, original, ip, t', t'')
    ensures GoodEdit(iface, ips, original, ip, t, t'')
  {
  }

  lemma {:induction false} ApplyIsGood(iface: string, ips: set<string>, original: Table, ip: string, t: Table,
                                       f: seq<Fault>, i: nat)
    requires ip in ips && FreeOfManaged(iface, ips, original)
    ensures GoodEdit(iface, ips, original, ip, t, ApplyFrom(t, RuleSpecs(iface, ip), f, i).0)
    decreases 6 - i
  {
    var specs := RuleSpecs(iface, ip);
    if i < |specs| {
      ExecIsGood(iface, ips, original, ip, t, specs[i], specs[i].add, FaultAt(f, 2 * i + 1));
      var (t', ok) := ApplyOne(t, specs[i], FaultAt(f, 2 * i), FaultAt(f, 2 * i + 1));
      assert GoodEdit(iface, ips, original, ip, t, t');
      ApplyIsGood(iface, ips, original, ip, t', f, i + 1);
      GoodEditTrans(iface, ips, original, ip, t, t', ApplyFrom(t', specs, f, i + 1).0);
    }
  }

  lemma {:induction false} RemoveIsGood(iface: string, ips: set<string>, original: Table, ip: string, t: Table,
                                        f: seq<Fault>, i: nat)
    requires ip in ips && FreeOfManaged(iface, ips, original)
    ensures GoodEdit(iface, ips, original, ip, t, RemoveFrom(t, RuleSpecs(iface, ip), f, i).0)
    ensures GoodEdit(iface, ips, original, ip, t, ExpireFrom(t, RuleSpecs(iface, ip), f, i))
    decreases 6 - i
  {
    var specs := RuleSpecs(iface, ip);
    if i < |specs| {
      var t' := RemoveOne(t, specs[i], FaultAt(f, i)).0;
      ExecIsGood(iface, ips, original, ip, t, specs[i], Delete, FaultAt(f, i));
      RemoveIsGood(iface, ips, original, ip, t', f, i + 1);
      GoodEditTrans(iface, ips, original, ip, t, t', RemoveFrom(t', specs, f, i + 1).0);
      GoodEditTrans(iface, ips, original, ip, t, t', ExpireFrom(t', specs, f, i + 1));
    }
  }
}
