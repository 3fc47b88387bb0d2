/** The in-memory set of source addresses with a drop rule: an index of the rules file. */
module RuleMatcher {
  import opened Prelude
  import opened Strings
  import opened RuleParser
  import opened RuleFile

  // The address a line contributes to the set, if any.
  function Indexed(line: string): Option<string> {
    var p := Parse(line);
    if p.Some? && p.value.action == "drop" && p.value.srcIp != "" && p.value.srcIp != "any"
    then Some(p.value.srcIp) else None
  }

  function Addresses(lines: seq<string>): seq<Option<string>> {
    seq(|lines|, i requires 0 <= i < |lines| => Indexed(lines[i]))
  }

  predicate Listed(lines: seq<string>, ip: string) {
    Some(ip) in Addresses(lines)
  }

  /** The set is exactly the index of these lines. */
  ghost predicate IsIndexOf(ips: set<string>, lines: seq<string>) {
    forall ip :: ip in ips <==> Listed(lines, ip)
  }

  lemma ListedSnoc(lines: seq<string>, i: nat, a: string)
    requires i < |lines|
    ensures Listed(lines[..i + 1], a) <==> Listed(lines[..i], a) || Indexed(lines[i]) == Some(a)
  {
    assert Addresses(lines[..i + 1]) == Addresses(lines[..i]) + [Indexed(lines[i])];
  }

  lemma IndexSnoc(ips: set<string>, lines: seq<string>, i: nat)
    requires i < |lines| && IsIndexOf(ips, lines[..i])
    ensures IsIndexOf(ips + (if Indexed(lines[i]).Some? then {Indexed(lines[i]).value} else {}), lines[..i + 1])
  {
    forall a { ListedSnoc(lines, i, a); }
  }

  // The line is a rule with action "drop" and this source.
  predicate DropsFrom(line: string, ip: string) {
    Parse(line).Some? && Parse(line).value.action == "drop" && Parse(line).value.srcIp == ip
  }

  lemma ListedIff(lines: seq<string>, ip: string)
    ensures Listed(lines, ip) <==> ip != "" && ip != "any" && exists l :: l in lines && DropsFrom(l, ip)
  {
    var a := Addresses(lines);
    if Listed(lines, ip) {
      var i :| 0 <= i < |a| && a[i] == Some(ip);
      assert lines[i] in lines && DropsFrom(lines[i], ip);
    }
    if ip != "" && ip != "any" && exists l :: l in lines && DropsFrom(l, ip) {
      var l :| l in lines && DropsFrom(l, ip);
      var i :| 0 <= i < |lines| && lines[i] == l;
      assert a[i] == Some(ip);
    }
  }

  /** A rendered rule contributes its source exactly when its action is "drop" and its source names one. */
  lemma RenderedIsIndexedIff(action: string, proto: string, src: string, srcPort: string, dst: string,
                             dstPort: string, msg: string, sid: nat)
    requires action != "" && !IsWhitespace(action[0]) && action[0] != '#'
    requires PlainField(action) && PlainField(proto) && PlainField(src) && PlainField(srcPort) && PlainField(dst)
    requires !Contains(dstPort, MSG) && !Contains(dstPort, SID)
    requires ';' !in msg && '"' !in msg && !Contains(msg, SID) && sid <= U64_MAX
    ensures var line := Render(action, proto, src, srcPort, dst, dstPort, msg, sid);
            forall ip :: Listed([line], ip) <==> ip == src && action == "drop" && src != "" && src != "any"
  {
    var line := Render(action, proto, src, srcPort, dst, dstPort, msg, sid);
    ParseOfRender(action, proto, src, srcPort, dst, dstPort, msg, sid);
    OneLineListed(line, Parse(line).value);
  }

  lemma OneLineListed(line: string, p: ParsedRule)
    requires Parse(line) == Some(p)
    ensures forall ip ::
              Listed([line], ip) <==> ip == p.srcIp && p.action == "drop" && p.srcIp != "" && p.srcIp != "any"
  {
    forall ip
      ensures Listed([line], ip) <==> ip == p.srcIp && p.action == "drop" && p.srcIp != "" && p.srcIp != "any"
    {
      ListedIff([line], ip);
      assert [line][0] in [line];
    }
  }

  datatype MatchResult = Block(reason: string) | NoMatch

  class RuleMatcher {
    var blockedIps: set<string>

    constructor ()
      ensures blockedIps == {}
    {
      blockedIps := {};
    }

    /** A missing file leaves the set as it is; otherwise the set becomes the index of the file. */
    method ReloadFrom(file: Option<string>)
      modifies this
      ensures file.None? ==> blockedIps == old(blockedIps)
      ensures file.Some? ==> IsIndexOf(blockedIps, Lines(file.value))
      ensures file.Some? ==>
                forall ip :: ip in blockedIps <==>
                  ip != "" && ip != "any" && exists l :: l in Lines(file.value) && DropsFrom(l, ip)
    {
      if file.None? { return; }
      var lines := Lines(file.value);
      var ips: set<string> := {};
      var i := 0;
      while i < |lines|
        invariant i <= |lines| && IsIndexOf(ips, lines[..i])
      {
        IndexSnoc(ips, lines, i);
        var ip := Indexed(lines[i]);
        ips := ips + if ip.Some? then {ip.value} else {};
        i := i + 1;
      }
      assert lines[..|lines|] == lines;
      blockedIps := ips;
      forall ip { ListedIff(lines, ip); }
    }

    method Check(srcIp: string) returns (r: MatchResult)
      ensures r == if srcIp in blockedIps then Block("Matched local DROP rule for " + srcIp) else NoMatch
    {
      if srcIp in blockedIps {
        r := Block("Matched local DROP rule for " + srcIp);
      } else {
        r := NoMatch;
      }
    }

    method AddBlockedIp(ip: string)
      modifies this
      ensures blockedIps == old(blockedIps) + {ip}
    {
      blockedIps := blockedIps + {ip};
    }

    method RemoveBlockedIp(ip: string)
      modifies this
      ensures blockedIps == old(blockedIps) - {ip}
    {
      blockedIps := blockedIps - {ip};
    }
  }

  // ---------------------------------------------------------------------------------------

  lemma TrimmedRuleIndexed(rule: string)
    ensures Indexed(Trim(rule)) == Indexed(rule)
  {
    ParseIgnoresTrim(rule);
  }

  /** Adding the address of a fresh drop rule keeps the set an exact index of the new file. */
  lemma AddKeepsIndex(ips: set<string>, text: string, rule: string, ip: string)
    requires SingleLine(rule) && '\r' !in text && IsIndexOf(ips, Lines(text))
    requires Indexed(rule) == Some(ip) && FreshSid(Lines(text), rule)
    ensures IsIndexOf(ips + {ip}, Lines(ApplyText(Some(text), rule)))
  {
    var lines := Lines(text);
    LinesOfApplied(Some(text), rule);
    UpsertFreshAppends(lines, rule);
    TrimmedRuleIndexed(rule);
    AddressesSnoc(lines, Trim(rule));
  }

  lemma AddressesCons(line: string, rest: seq<string>)
    ensures Addresses([line] + rest) == [Indexed(line)] + Addresses(rest)
  {
  }

  lemma ListedCons(line: string, rest: seq<string>, a: string)
    ensures Listed([line] + rest, a) <==> Indexed(line) == Some(a) || Listed(rest, a)
  {
    AddressesCons(line, rest);
  }

  lemma {:induction false} ListedAfterRemoval(lines: seq<string>, ip: string, a: string)
    ensures Listed(RemoveLines(lines, ip), a) <==> Listed(lines, a) && a != ip
  {
    if lines != [] {
      var head, rest := lines[0], lines[1..];
      ListedAfterRemoval(rest, ip, a);
      assert lines == [head] + rest;
      ListedCons(head, rest, a);
      AddressIsTargeted(head, ip);
      if Targets(head, ip) {
        assert RemoveLines(lines, ip) == RemoveLines(rest, ip);
      } else {
        assert RemoveLines(lines, ip) == [head] + RemoveLines(rest, ip);
        ListedCons(head, RemoveLines(rest, ip), a);
      }
    }
  }

  lemma AddressIsTargeted(line: string, ip: string)
    ensures Indexed(line) == Some(ip) ==> Targets(line, ip)
    ensures Targets(line, ip) ==> Indexed(line).None? || Indexed(line) == Some(ip)
  {
  }

  /** Removing an address from both keeps the set an exact index. */
  lemma RemoveKeepsIndex(ips: set<string>, text: string, ip: string)
    requires '\r' !in text && IsIndexOf(ips, Lines(text))
    ensures IsIndexOf(ips - {ip}, Lines(RemoveText(text, ip)))
  {
    LinesOfRemoved(text, ip);
    forall a ensures a in ips - {ip} <==> Listed(RemoveLines(Lines(text), ip), a) {
      ListedAfterRemoval(Lines(text), ip, a);
    }
  }

  lemma ListedAfterReplacement(lines: seq<string>, k: nat, line: string, ip: string, a: string)
    requires k < |lines| && Indexed(line) == Some(ip)
    ensures Listed(lines[k := line], a) ==> a == ip || Listed(lines, a)
    ensures a == ip ==> Listed(lines[k := line], a)
    ensures Listed(lines, a) && !Listed(lines[k := line], a) ==> Indexed(lines[k]) == Some(a)
    ensures Indexed(lines[k]) == Some(a) ==> Listed(lines, a)
  {
    AddressesUpdate(lines, k, line);
    var before := Addresses(lines);
    assert before[k] == Indexed(lines[k]);
    if Some(a) in before[k := Some(ip)] && a != ip {
      var i :| 0 <= i < |before| && before[k := Some(ip)][i] == Some(a);
      assert before[i] == Some(a);
    }
    if Some(a) in before && Indexed(lines[k]) != Some(a) {
      var i :| 0 <= i < |before| && before[i] == Some(a);
      assert before[k := Some(ip)][i] == Some(a);
    }
    assert before[k := Some(ip)][k] == Some(ip);
  }

  /** When the SID is reused, the incrementally maintained set is still a superset of the index, is
      larger by at most the address of the replaced line, and is exact just if that address is
      still listed (or the replaced line listed none). */
  lemma ReusedSidIndex(ips: set<string>, text: string, rule: string, ip: string, k: nat)
    requires SingleLine(rule) && '\r' !in text && IsIndexOf(ips, Lines(text))
    requires Indexed(rule) == Some(ip) && SidOf(rule).Some?
    requires k == FirstWithSid(Lines(text), SidOf(rule).value, 0) && k < |Lines(text)|
    ensures var after := Lines(ApplyText(Some(text), rule));
            var gone := Indexed(Lines(text)[k]);
            && (forall a :: Listed(after, a) ==> a in ips + {ip})
            && (forall a :: a in ips + {ip} && !Listed(after, a) ==> gone == Some(a))
            && (IsIndexOf(ips + {ip}, after) <==> gone.None? || Listed(after, gone.value))
  {
    LinesOfApplied(Some(text), rule);
    TrimmedRuleIndexed(rule);
    forall a { ListedAfterReplacement(Lines(text), k, Trim(rule), ip, a); }
  }

  // ---------------------------------------------------------------------------------------
  // Any sequence of rule changes.

  datatype Change = Apply(rule: string) | Remove(ip: string)

  // The file and the incrementally maintained set.
  datatype Engine = Engine(text: string, ips: set<string>)

  function Changed(e: Engine, c: Change): Engine {
    match c
    case Apply(rule) =>
      var ip := Indexed(rule);
      Engine(ApplyText(Some(e.text), rule), e.ips + if ip.Some? then {ip.value} else {})
    case Remove(ip) => Engine(RemoveText(e.text, ip), e.ips - {ip})
  }

  function ChangedBy(e: Engine, cs: seq<Change>): Engine
    decreases |cs|
  {
    if cs == [] then e else ChangedBy(Changed(e, cs[0]), cs[1..])
  }

  predicate Plain(c: Change) {
    c.Apply? ==> SingleLine(c.rule) && '\r' !in Trim(c.rule)
  }

  // Every rule applied along the way carries a SID the file does not have at that moment (or none).
  predicate AllFresh(e: Engine, cs: seq<Change>)
    decreases |cs|
  {
    cs == [] || ((cs[0].Apply? ==> FreshSid(Lines(e.text), cs[0].rule)) && AllFresh(Changed(e, cs[0]), cs[1..]))
  }

  ghost predicate Covers(ips: set<string>, lines: seq<string>) {
    forall a :: Listed(lines, a) ==> a in ips
  }

  ghost predicate Healthy(e: Engine) {
    '\r' !in e.text && DistinctSids(Lines(e.text)) && Covers(e.ips, Lines(e.text))
  }

  lemma AddressesUpdate(lines: seq<string>, k: nat, line: string)
    requires k < |lines|
    ensures Addresses(lines[k := line]) == Addresses(lines)[k := Indexed(line)]
  {
  }

  lemma AddressesSnoc(lines: seq<string>, line: string)
    ensures Addresses(lines + [line]) == Addresses(lines) + [Indexed(line)]
  {
  }

  lemma AddressesOfUpsert(lines: seq<string>, rule: string) returns (k: nat)
    ensures k <= |lines| && (FreshSid(lines, rule) ==> k == |lines|)
    ensures Addresses(Upsert(lines, rule)) ==
            if k < |lines| then Addresses(lines)[k := Indexed(rule)] else Addresses(lines) + [Indexed(rule)]
  {
    TrimmedRuleIndexed(rule);
    k := if SidOf(rule).Some? then FirstWithSid(lines, SidOf(rule).value, 0) else |lines|;
    if k < |lines| {
      AddressesUpdate(lines, k, Trim(rule));
    } else {
      AddressesSnoc(lines, Trim(rule));
    }
  }

  lemma UpsertListing(lines: seq<string>, rule: string, a: string)
    ensures Listed(Upsert(lines, rule), a) ==> Listed(lines, a) || Indexed(rule) == Some(a)
    ensures FreshSid(lines, rule) ==> (Listed(Upsert(lines, rule), a) <==> Listed(lines, a) || Indexed(rule) == Some(a))
  {
    var k := AddressesOfUpsert(lines, rule);
  }

  lemma ChangeKeepsHealthy(e: Engine, c: Change)
    requires Healthy(e) && Plain(c)
    ensures Healthy(Changed(e, c))
    ensures IsIndexOf(e.ips, Lines(e.text)) && (c.Apply? ==> FreshSid(Lines(e.text), c.rule)) ==>
              IsIndexOf(Changed(e, c).ips, Lines(Changed(e, c).text))
  {
    var lines := Lines(e.text);
    match c
    case Apply(rule) =>
      LinesOfApplied(Some(e.text), rule);
      UpsertKeepsSidsDistinct(lines, rule);
      ApplyAddsNoCr(e.text, rule);
      forall a { UpsertListing(lines, rule, a); }
    case Remove(ip) =>
      LinesOfRemoved(e.text, ip);
      RemovalKeepsSidsDistinct(lines, ip);
      RemoveAddsNoCr(e.text, ip);
      forall a { ListedAfterRemoval(lines, ip, a); }
  }

  /** Applying a fresh drop rule for an address that occurs nowhere, and removing the address again, leaves
      file and set as they were. */
  lemma ApplyThenRemove(e: Engine, rule: string, ip: string)
    requires SingleLine(rule) && Indexed(rule) == Some(ip) && ip !in e.ips
    requires '\r' !in e.text && (e.text != [] ==> e.text[|e.text| - 1] == '\n') && FreshSid(Lines(e.text), rule)
    requires forall i :: 0 <= i < |Lines(e.text)| ==> !Targets(Lines(e.text)[i], ip)
    ensures ChangedBy(e, [Apply(rule), Remove(ip)]) == e
  {
    var cs := [Apply(rule), Remove(ip)];
    assert cs[1..] == [Remove(ip)] && [Remove(ip)][1..] == [];
    AddressIsTargeted(rule, ip);
    RemoveUndoesApply(e.text, rule, ip);
    assert ChangedBy(e, cs) == ChangedBy(Changed(e, cs[0]), [Remove(ip)]);
    assert ChangedBy(Changed(e, cs[0]), [Remove(ip)]) == Changed(Changed(e, cs[0]), Remove(ip));
    assert e.ips + {ip} - {ip} == e.ips;
  }

  /** Over any sequence of applied and removed rules: SIDs stay distinct, and no address with a drop rule
      is ever missing from the set; while every applied SID is fresh the set is exactly the index. */
  lemma {:induction false} SetCoversFile(e: Engine, cs: seq<Change>)
    requires Healthy(e) && forall i :: 0 <= i < |cs| ==> Plain(cs[i])
    ensures Healthy(ChangedBy(e, cs))
    ensures IsIndexOf(e.ips, Lines(e.text)) && AllFresh(e, cs) ==>
              IsIndexOf(ChangedBy(e, cs).ips, Lines(ChangedBy(e, cs).text))
    decreases |cs|
  {
    if cs != [] {
      ChangeKeepsHealthy(e, cs[0]);
      SetCoversFile(Changed(e, cs[0]), cs[1..]);
    }
  }
}
