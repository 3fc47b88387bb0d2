/** The kernel packet filter as seen by the sensor: named chains of rules, the four commands
    that are issued against them, and first-match evaluation of a packet. */
module Iptables {
  import opened Prelude

  datatype ChainName = DockerUser | Input | Output | Forward

  /** `Drop` is the shape of every rule the sensor manages; an administrator may have written the
      same rule by hand. Every other rule is `Foreign` and keeps whatever meaning it has. */
  datatype Rule =
    | Drop(inIf: Option<string>, outIf: Option<string>, src: Option<string>, dst: Option<string>)
    | Foreign(id: nat)

  datatype Packet = Packet(src: string, dst: string, inIf: string, outIf: string)

  /** What a rule does to a packet; `NoDecision` covers "does not match" and non-terminating targets. */
  datatype Effect = NoDecision | Accepted | Dropped | Returned

  type Table = map<ChainName, seq<Rule>>

  /** -C, -I, -A and -D. */
  datatype Action = Check | InsertHead | Append | Delete

  /** The environment's choice for one command: it behaves as the kernel prescribes, it exits
      non-zero for an unrelated reason (lock contention, permissions), or it cannot be spawned. */
  datatype Fault = NoFault | ExitFault | SpawnFault

  /** How the program classifies the outcome from exit status and standard error. */
  datatype Reply = Success | NoSuchChain | BadRule | OtherFailure | NotRun

  function DeleteFirst(rules: seq<Rule>, r: Rule): seq<Rule> {
    if rules == [] then []
    else if rules[0] == r then rules[1..]
    else [rules[0]] + DeleteFirst(rules[1..], r)
  }

  function Exec(t: Table, chain: ChainName, action: Action, r: Rule, fault: Fault): (Table, Reply) {
    match fault
    case SpawnFault => (t, NotRun)
    case ExitFault => (t, OtherFailure)
    case NoFault =>
      if chain !in t then (t, NoSuchChain)
      else match action
        case Check => (t, if r in t[chain] then Success else BadRule)
        case InsertHead => (t[chain := [r] + t[chain]], Success)
        case Append => (t[chain := t[chain] + [r]], Success)
        case Delete =>
          if r in t[chain] then (t[chain := DeleteFirst(t[chain], r)], Success) else (t, BadRule)
  }

  predicate Meets(want: Option<string>, have: string) {
    want.None? || want.value == have
  }

  // `foreign` says what each rule outside the sensor's control does with each packet.
  function EffectOf(r: Rule, p: Packet, foreign: (nat, Packet) -> Effect): Effect {
    match r
    case Foreign(id) => foreign(id, p)
    case Drop(i, o, s, d) =>
      if Meets(i, p.inIf) && Meets(o, p.outIf) && Meets(s, p.src) && Meets(d, p.dst)
      then Dropped else NoDecision
  }

  // First-match evaluation; NoDecision means the packet falls off the end of the chain.
  function Verdict(rules: seq<Rule>, p: Packet, foreign: (nat, Packet) -> Effect): Effect {
    if rules == [] then NoDecision
    else
      var e := EffectOf(rules[0], p, foreign);
      if e.NoDecision? then Verdict(rules[1..], p, foreign) else e
  }

  lemma {:induction false} VerdictOfConcat(a: seq<Rule>, b: seq<Rule>, p: Packet, foreign: (nat, Packet) -> Effect)
    ensures Verdict(a + b, p, foreign) ==
            if Verdict(a, p, foreign).NoDecision? then Verdict(b, p, foreign) else Verdict(a, p, foreign)
  {
    if a == [] {
      assert a + b == b;
    } else {
      assert (a + b)[1..] == a[1..] + b;
      VerdictOfConcat(a[1..], b, p, foreign);
    }
  }

  /** A deletion takes out exactly one copy and leaves every other rule where it was. */
  lemma {:induction false} DeleteFirstSplits(rules: seq<Rule>, r: Rule) returns (i: nat)
    requires r in rules
    ensures i < |rules| && rules[i] == r && r !in rules[..i]
    ensures DeleteFirst(rules, r) == rules[..i] + rules[i + 1..]
  {
    if rules[0] == r {
      i := 0;
    } else {
      var j := DeleteFirstSplits(rules[1..], r);
      i := j + 1;
      assert rules[..i] == [rules[0]] + rules[1..][..j];
      assert rules[i + 1..] == rules[1..][j + 1..];
    }
  }

  lemma {:induction false} DeleteFirstCounts(rules: seq<Rule>, r: Rule)
    requires r in rules
    ensures multiset(DeleteFirst(rules, r)) == multiset(rules) - multiset{r}
  {
    assert rules == [rules[0]] + rules[1..];
    if rules[0] != r { DeleteFirstCounts(rules[1..], r); }
  }

  lemma {:induction false} DeleteAfter(a: seq<Rule>, b: seq<Rule>, r: Rule)
    requires r !in a && r in b
    ensures DeleteFirst(a + b, r) == a + DeleteFirst(b, r)
  {
    if a == [] {
      assert a + b == b;
    } else {
      assert (a + b)[1..] == a[1..] + b;
      DeleteAfter(a[1..], b, r);
    }
  }

  lemma {:induction false} DeleteBefore(a: seq<Rule>, b: seq<Rule>, r: Rule)
    requires r in a
    ensures DeleteFirst(a + b, r) == DeleteFirst(a, r) + b
  {
    assert (a + b)[1..] == a[1..] + b;
    if a[0] != r {
      DeleteBefore(a[1..], b, r);
    }
  }
}
