/** The dynamic rules file: insert-or-replace by SID, and removal by source address. */
module RuleFile {
  import opened Prelude
  import opened Strings
  import opened RuleParser

  predicate HasSid(line: string, sid: nat) {
    SidOf(line) == Some(sid)
  }

  // The first line from i on with this SID, or |lines|.
  function FirstWithSid(lines: seq<string>, sid: nat, i: nat): (k: nat)
    requires i <= |lines|
    ensures i <= k <= |lines|
    ensures k < |lines| ==> HasSid(lines[k], sid)
    ensures forall j :: i <= j < k ==> !HasSid(lines[j], sid)
    decreases |lines| - i
  {
    if i == |lines| || HasSid(lines[i], sid) then i else FirstWithSid(lines, sid, i + 1)
  }

  function Upsert(lines: seq<string>, rule: string): seq<string> {
    match SidOf(rule)
    case None => lines + [Trim(rule)]
    case Some(sid) =>
      var k := FirstWithSid(lines, sid, 0);
      if k < |lines| then lines[k := Trim(rule)] else lines + [Trim(rule)]
  }

  // A missing file reads as empty.
  function TextOf(file: Option<string>): string {
    if file.Some? then file.value else ""
  }

  function ApplyText(file: Option<string>, rule: string): string {
    Join(Upsert(Lines(TextOf(file)), rule), "\n") + "\n"
  }

  predicate Targets(line: string, ip: string) {
    var p := Parse(line);
    p.Some? && p.value.srcIp == ip
  }

  // Comments and unparseable lines stay.
  function RemoveLines(lines: seq<string>, ip: string): seq<string> {
    if lines == [] then []
    else (if Targets(lines[0], ip) then [] else [lines[0]]) + RemoveLines(lines[1..], ip)
  }

  function RemoveText(text: string, ip: string): string {
    Unlines(RemoveLines(Lines(text), ip))
  }

  lemma RemovedTextSnoc(lines: seq<string>, i: nat, ip: string)
    requires i < |lines|
    ensures Unlines(RemoveLines(lines[..i + 1], ip)) ==
            if Targets(lines[i], ip) then Unlines(RemoveLines(lines[..i], ip))
            else Unlines(RemoveLines(lines[..i], ip)) + lines[i] + "\n"
  {
    var kept, l := RemoveLines(lines[..i], ip), lines[i];
    assert lines[..i + 1] == lines[..i] + [l];
    RemoveOfConcat(lines[..i], [l], ip);
    UnlinesSnoc(kept, l);
    assert RemoveLines([l], ip) == (if Targets(l, ip) then [] else [l]);
    assert kept + [] == kept;
  }

  class RulesFile {
    var file: Option<string>

    constructor (file: Option<string>)
      ensures this.file == file
    {
      this.file := file;
    }

    method ApplyRule(rule: string)
      modifies this
      ensures file == Some(ApplyText(old(file), rule))
    {
      var parsed := Parse(rule);
      var lines := Lines(TextOf(file));
      if parsed.Some? && parsed.value.sid.Some? {
        var sid := parsed.value.sid.value;
        var replaced := false;
        ghost var before := lines;
        var i := 0;
        while i < |lines| && !replaced
          invariant i <= |lines| == |before|
          invariant !replaced ==> lines == before && FirstWithSid(before, sid, 0) == FirstWithSid(before, sid, i)
          invariant replaced ==> FirstWithSid(before, sid, 0) < |before|
                                 && lines == before[FirstWithSid(before, sid, 0) := Trim(rule)]
          decreases |lines| - i, !replaced
        {
          var existing := Parse(lines[i]);
          if existing.Some? && existing.value.sid == Some(sid) {
            lines := lines[i := Trim(rule)];
            replaced := true;
          } else {
            i := i + 1;
          }
        }
        if !replaced { lines := lines + [Trim(rule)]; }
      } else {
        lines := lines + [Trim(rule)];
      }
      file := Some(Join(lines, "\n") + "\n");
    }

    method RemoveRuleByIp(ip: string)
      modifies this
      ensures file == if old(file).None? then None else Some(RemoveText(old(file).value, ip))
    {
      if file.None? { return; }
      var lines := Lines(file.value);
      var filtered := "";
      var i := 0;
      while i < |lines|
        invariant i <= |lines| && file == old(file)
        invariant filtered == Unlines(RemoveLines(lines[..i], ip))
      {
        RemovedTextSnoc(lines, i, ip);
        if !Targets(lines[i], ip) {
          filtered := filtered + lines[i] + "\n";
        }
        i := i + 1;
      }
      assert lines[..|lines|] == lines;
      file := Some(filtered);
    }
  }

  // ---------------------------------------------------------------------------------------
  // Insert-or-replace.

  lemma TrimmedRuleHasSid(rule: string)
    ensures SidOf(Trim(rule)) == SidOf(rule)
  {
    ParseIgnoresTrim(rule);
  }

  lemma FirstIs(lines: seq<string>, sid: nat, k: nat)
    requires k < |lines| && HasSid(lines[k], sid)
    requires forall j :: 0 <= j < k ==> !HasSid(lines[j], sid)
    ensures FirstWithSid(lines, sid, 0) == k
  {
  }

  /** On the lines in memory, a second insertion changes nothing exactly when the rule carries a SID. */
  lemma UpsertIdempotentIff(lines: seq<string>, rule: string)
    ensures Upsert(Upsert(lines, rule), rule) == Upsert(lines, rule) <==> SidOf(rule).Some?
  {
    TrimmedRuleHasSid(rule);
    var once := Upsert(lines, rule);
    if SidOf(rule).Some? {
      var sid := SidOf(rule).value;
      var k := FirstWithSid(lines, sid, 0);
      assert once[k] == Trim(rule) && HasSid(once[k], sid);
      FirstIs(once, sid, k);
    } else {
      assert |Upsert(once, rule)| == |once| + 1;
    }
  }

  /** Everything but one line stays as and where it was. */
  lemma UpsertTouchesOneLine(lines: seq<string>, rule: string) returns (k: nat)
    ensures k <= |lines| && |Upsert(lines, rule)| == (if k < |lines| then |lines| else |lines| + 1)
    ensures Upsert(lines, rule)[k] == Trim(rule)
    ensures forall j :: 0 <= j < |lines| && j != k ==> Upsert(lines, rule)[j] == lines[j]
    ensures k < |lines| ==> SidOf(lines[k]).Some? && SidOf(lines[k]) == SidOf(rule)
    ensures k == |lines| && SidOf(rule).Some? ==> forall j :: 0 <= j < |lines| ==> SidOf(lines[j]) != SidOf(rule)
  {
    k := if SidOf(rule).Some? then FirstWithSid(lines, SidOf(rule).value, 0) else |lines|;
  }

  ghost predicate DistinctSids(lines: seq<string>) {
    forall i, j :: 0 <= i < j < |lines| && SidOf(lines[i]).Some? ==> SidOf(lines[i]) != SidOf(lines[j])
  }

  lemma UpsertKeepsSidsDistinct(lines: seq<string>, rule: string)
    requires DistinctSids(lines)
    ensures DistinctSids(Upsert(lines, rule))
  {
    TrimmedRuleHasSid(rule);
    var k := UpsertTouchesOneLine(lines, rule);
    var after := Upsert(lines, rule);
    forall i, j | 0 <= i < j < |after| && SidOf(after[i]).Some? ensures SidOf(after[i]) != SidOf(after[j]) {
      assert SidOf(after[i]) == if i == k then SidOf(rule) else SidOf(lines[i]);
      assert SidOf(after[j]) == if j == k then SidOf(rule) else SidOf(lines[j]);
    }
  }

  predicate SingleLine(rule: string) {
    '\n' !in Trim(rule)
  }

  lemma AppliedIsUnlines(file: Option<string>, rule: string)
    ensures ApplyText(file, rule) == Unlines(Upsert(Lines(TextOf(file)), rule))
    ensures ApplyText(file, rule) != [] && ApplyText(file, rule)[|ApplyText(file, rule)| - 1] == '\n'
  {
    UnlinesIsJoin(Upsert(Lines(TextOf(file)), rule));
  }

  /** What is on disk after applying a single-line rule, read back as lines. */
  lemma LinesOfAppliedStripped(file: Option<string>, rule: string)
    requires SingleLine(rule)
    ensures NoNewlines(Upsert(Lines(TextOf(file)), rule))
    ensures Lines(ApplyText(file, rule)) == Stripped(Upsert(Lines(TextOf(file)), rule))
  {
    var lines := Lines(TextOf(file));
    var after := Upsert(lines, rule);
    LinesHaveNoNewlines(TextOf(file));
    var k := UpsertTouchesOneLine(lines, rule);
    forall j | 0 <= j < |after| ensures '\n' !in after[j] {
      assert after[j] == if j == k then Trim(rule) else lines[j];
    }
    AppliedIsUnlines(file, rule);
    LinesOfUnlinesStripped(after);
  }

  lemma LinesOfApplied(file: Option<string>, rule: string)
    requires SingleLine(rule) && '\r' !in TextOf(file)
    ensures Lines(ApplyText(file, rule)) == Upsert(Lines(TextOf(file)), rule)
    ensures AreLines(Lines(ApplyText(file, rule)))
  {
    var lines := Lines(TextOf(file));
    var after := Upsert(lines, rule);
    LinesAreLines(TextOf(file));
    TrimIsTrimmed(rule);
    var k := UpsertTouchesOneLine(lines, rule);
    forall j | 0 <= j < |after| ensures !EndsInCr(after[j]) {
      assert after[j] == if j == k then Trim(rule) else lines[j];
    }
    LinesOfAppliedStripped(file, rule);
  }

  // ---------------------------------------------------------------------------------------
  // Applying a rule twice, on the file itself.

  // A carriage return left at the end of any line but the replaced one is lost when the file is read again.
  predicate NoCrOutside(lines: seq<string>, k: nat) {
    forall i :: 0 <= i < |lines| && i != k ==> !EndsInCr(lines[i])
  }

  predicate Repeatable(file: Option<string>, rule: string) {
    var lines := Lines(TextOf(file));
    SidOf(rule).Some? && SingleLine(rule) && NoCrOutside(lines, FirstWithSid(lines, SidOf(rule).value, 0))
  }

  /** A second application that changes nothing replaced a line, by a single-line rule: the text has as
      many newlines as lines were read, and each line written adds one. */
  lemma UnchangedMeansReplaced(file: Option<string>, rule: string)
    requires ApplyText(Some(ApplyText(file, rule)), rule) == ApplyText(file, rule)
    ensures SidOf(rule).Some? && SingleLine(rule)
  {
    var once := ApplyText(file, rule);
    var lines := Lines(once);
    var after := Upsert(lines, rule);
    AppliedIsUnlines(file, rule);
    AppliedIsUnlines(Some(once), rule);
    LinesHaveNoNewlines(once);
    LinesCountNewlines(once);
    var k := UpsertTouchesOneLine(lines, rule);
    NewlinesOfUnlines(after, k);
    NewlinesIn(Trim(rule));
  }

  lemma StrippedHasSid(line: string, sid: nat)
    ensures HasSid(StripCr(line), sid) == HasSid(line, sid)
  {
    if EndsInCr(line) {
      var m := line[..|line| - 1];
      assert line == m + ['\r'];
      TrimOfTrailing(m, '\r');
      ParseIgnoresTrim(line);
      ParseIgnoresTrim(m);
    }
  }

  /** A single-line rule with a SID is found again where it was put. */
  lemma FoundAgain(lines: seq<string>, rule: string, sid: nat)
    requires SidOf(rule) == Some(sid)
    ensures Upsert(Stripped(Upsert(lines, rule)), rule) == Stripped(Upsert(lines, rule))
  {
    var once := Upsert(lines, rule);
    var k := FirstWithSid(lines, sid, 0);
    TrimIsTrimmed(rule);
    TrimmedRuleHasSid(rule);
    assert once[k] == Trim(rule) && StripCr(once[k]) == Trim(rule);
    forall j | 0 <= j <= k ensures HasSid(Stripped(once)[j], sid) <==> j == k {
      StrippedHasSid(once[j], sid);
    }
    FirstIs(Stripped(once), sid, k);
  }

  lemma ReappliedText(file: Option<string>, rule: string)
    requires SidOf(rule).Some? && SingleLine(rule)
    ensures ApplyText(Some(ApplyText(file, rule)), rule) == Unlines(Stripped(Upsert(Lines(TextOf(file)), rule)))
  {
    LinesOfAppliedStripped(file, rule);
    FoundAgain(Lines(TextOf(file)), rule, SidOf(rule).value);
    AppliedIsUnlines(Some(ApplyText(file, rule)), rule);
  }

  lemma CrsAfterUpsert(lines: seq<string>, rule: string, sid: nat)
    requires SidOf(rule) == Some(sid)
    ensures NoTrailingCr(Upsert(lines, rule)) <==> NoCrOutside(lines, FirstWithSid(lines, sid, 0))
  {
    var k := FirstWithSid(lines, sid, 0);
    var once := Upsert(lines, rule);
    TrimIsTrimmed(rule);
    assert once[k] == Trim(rule) && !EndsInCr(once[k]);
    assert forall i :: 0 <= i < |lines| && i != k ==> once[i] == lines[i];
  }

  /** Applying any rule to any file a second time changes nothing exactly when the rule has a SID and
      occupies one line, and no other line of the file keeps a carriage return at its end. */
  lemma ApplyIdempotentIff(file: Option<string>, rule: string)
    ensures ApplyText(Some(ApplyText(file, rule)), rule) == ApplyText(file, rule) <==> Repeatable(file, rule)
  {
    if ApplyText(Some(ApplyText(file, rule)), rule) == ApplyText(file, rule) { UnchangedMeansReplaced(file, rule); }
    if SidOf(rule).Some? && SingleLine(rule) {
      ReappliedText(file, rule);
      AppliedIsUnlines(file, rule);
      StrippedTextIff(Upsert(Lines(TextOf(file)), rule));
      CrsAfterUpsert(Lines(TextOf(file)), rule, SidOf(rule).value);
    }
  }

  /** So a single-line rule with a SID, applied twice to a file without carriage returns, leaves the same
      text as once. */
  lemma ApplyTwiceIsApplyOnce(file: Option<string>, rule: string)
    requires SingleLine(rule) && '\r' !in TextOf(file) && SidOf(rule).Some?
    ensures ApplyText(Some(ApplyText(file, rule)), rule) == ApplyText(file, rule)
  {
    LinesAreLines(TextOf(file));
    ApplyIdempotentIff(file, rule);
  }

  /** The SID alone does not do: a rule whose message contains a newline parses with its SID, and yet is
      appended again every time. */
  lemma TwoLineRuleIsAppendedAgain(file: Option<string>, msg: string, sid: nat)
    requires '\n' in msg && ';' !in msg && '"' !in msg && !Contains(msg, SID) && sid <= U64_MAX
    ensures var rule := Render("drop", "ip", "1.2.3.4", "any", "any", "any", msg, sid);
            SidOf(rule) == Some(sid) && ApplyText(Some(ApplyText(file, rule)), rule) != ApplyText(file, rule)
  {
    var rule := Render("drop", "ip", "1.2.3.4", "any", "any", "any", msg, sid);
    ShortLacks("any", MSG);
    ShortLacks("any", SID);
    ParseOfRender("drop", "ip", "1.2.3.4", "any", "any", "any", msg, sid);
    RenderIsTrimmed("drop", "ip", "1.2.3.4", "any", "any", "any", msg, sid);
    MessageIsIn("drop", "ip", "1.2.3.4", "any", "any", "any", msg, sid, '\n');
    ApplyIdempotentIff(file, rule);
  }

  /** Nor does a single line: reading the file once more drops a carriage return. */
  lemma StrayCarriageReturnIsLost(rule: string)
    ensures ApplyText(Some(ApplyText(Some("a\r\r\n"), rule)), rule) != ApplyText(Some("a\r\r\n"), rule)
  {
    var text := "a\r\r\n";
    assert text[1..][1..][1..] == "\n" && IndexOf(text, '\n') == Some(3);
    NextLine(text, 3);
    assert text[4..] == "" && StripCr(text[..3]) == "a\r";
    assert Trim("a\r") == "a" && SplitN("a", ' ', 7) == ["a"];
    assert SidOf("a\r").None?;
    ApplyIdempotentIff(Some(text), rule);
  }

  // ---------------------------------------------------------------------------------------
  // Removal.

  /** An exact filter: a line occurs afterwards as often as before, or not at all if it names the address. */
  lemma {:induction false} RemovalIsExact(lines: seq<string>, ip: string, l: string)
    ensures multiset(RemoveLines(lines, ip))[l] == if Targets(l, ip) then 0 else multiset(lines)[l]
  {
    if lines != [] {
      RemovalIsExact(lines[1..], ip, l);
      assert lines == [lines[0]] + lines[1..];
    }
  }

  predicate IsComment(line: string) {
    Trim(line) != "" && Trim(line)[0] == '#'
  }

  // The comment lines, in order.
  function Comments(lines: seq<string>): seq<string> {
    if lines == [] then [] else (if IsComment(lines[0]) then [lines[0]] else []) + Comments(lines[1..])
  }

  lemma CommentHasNoTarget(line: string, ip: string)
    ensures IsComment(line) ==> !Targets(line, ip) && SidOf(line).None?
  {
    ParsesIff(line);
  }

  /** Removal keeps every comment, in order; other lines that do not parse stay as RemovalIsExact says. */
  lemma {:induction false} RemovalKeepsComments(lines: seq<string>, ip: string)
    ensures Comments(RemoveLines(lines, ip)) == Comments(lines)
  {
    if lines != [] {
      var head, rest := lines[0], RemoveLines(lines[1..], ip);
      RemovalKeepsComments(lines[1..], ip);
      CommentHasNoTarget(head, ip);
      if Targets(head, ip) {
        assert [] + rest == rest && [] + Comments(lines[1..]) == Comments(lines[1..]);
      } else {
        assert ([head] + rest)[1..] == rest;
      }
    }
  }

  lemma {:induction false} CommentsOfConcat(a: seq<string>, b: seq<string>)
    ensures Comments(a + b) == Comments(a) + Comments(b)
  {
    if a == [] {
      assert a + b == b;
    } else {
      assert (a + b)[1..] == a[1..] + b;
      CommentsOfConcat(a[1..], b);
    }
  }

  lemma CommentsOfReplaced(lines: seq<string>, k: nat, line: string)
    requires k < |lines| && !IsComment(lines[k]) && !IsComment(line)
    ensures Comments(lines[k := line]) == Comments(lines)
  {
    assert lines == lines[..k] + ([lines[k]] + lines[k + 1..]);
    assert lines[k := line] == lines[..k] + ([line] + lines[k + 1..]);
    CommentsOfConcat(lines[..k], [lines[k]] + lines[k + 1..]);
    CommentsOfConcat(lines[..k], [line] + lines[k + 1..]);
  }

  /** Applying a rule replaces no comment, even one that hides a rule with its SID. */
  lemma ApplyKeepsComments(lines: seq<string>, rule: string)
    ensures Comments(Upsert(lines, rule)) == Comments(lines) + if IsComment(rule) then [Trim(rule)] else []
  {
    TrimIsTrimmed(rule);
    var k := UpsertTouchesOneLine(lines, rule);
    if k < |lines| {
      CommentHasNoTarget(lines[k], "");
      CommentHasNoTarget(rule, "");
      assert Upsert(lines, rule) == lines[k := Trim(rule)];
      CommentsOfReplaced(lines, k, Trim(rule));
    } else {
      assert Upsert(lines, rule) == lines + [Trim(rule)];
      CommentsOfConcat(lines, [Trim(rule)]);
      assert Comments([Trim(rule)]) == if IsComment(rule) then [Trim(rule)] else [];
    }
  }

  /** A rendered rule is removed for its source address and for no other. */
  lemma RenderedIsTargetedIff(action: string, proto: string, src: string, srcPort: string, dst: string,
                              dstPort: string, msg: string, sid: nat, ip: string)
    requires action != "" && !IsWhitespace(action[0]) && action[0] != '#'
    requires PlainField(action) && PlainField(proto) && PlainField(src) && PlainField(srcPort) && PlainField(dst)
    requires !Contains(dstPort, MSG) && !Contains(dstPort, SID)
    requires ';' !in msg && '"' !in msg && !Contains(msg, SID) && sid <= U64_MAX
    ensures Targets(Render(action, proto, src, srcPort, dst, dstPort, msg, sid), ip) <==> src == ip
  {
    ParseOfRender(action, proto, src, srcPort, dst, dstPort, msg, sid);
  }

  lemma {:induction false} RemoveOfConcat(a: seq<string>, b: seq<string>, ip: string)
    ensures RemoveLines(a + b, ip) == RemoveLines(a, ip) + RemoveLines(b, ip)
  {
    if a == [] {
      assert a + b == b;
    } else {
      assert (a + b)[1..] == a[1..] + b;
      RemoveOfConcat(a[1..], b, ip);
    }
  }

  /** ... that keeps the order of what it keeps: there is an increasing map from the new lines to the old. */
  lemma {:induction false} RemovalKeepsOrder(lines: seq<string>, ip: string) returns (from: seq<nat>)
    ensures |from| == |RemoveLines(lines, ip)|
    ensures forall i :: 0 <= i < |from| ==> from[i] < |lines| && RemoveLines(lines, ip)[i] == lines[from[i]]
    ensures forall i, j :: 0 <= i < j < |from| ==> from[i] < from[j]
    decreases |lines|
  {
    if lines == [] {
      from := [];
    } else {
      var n := |lines| - 1;
      var front := lines[..n];
      from := RemovalKeepsOrder(front, ip);
      assert lines == front + [lines[n]];
      RemoveOfConcat(front, [lines[n]], ip);
      if !Targets(lines[n], ip) { from := from + [n]; }
    }
  }

  lemma {:induction false} RemoveOfClean(lines: seq<string>, ip: string)
    requires forall i :: 0 <= i < |lines| ==> !Targets(lines[i], ip)
    ensures RemoveLines(lines, ip) == lines
  {
    if lines != [] { RemoveOfClean(lines[1..], ip); }
  }

  lemma {:induction false} RemovalsCommute(lines: seq<string>, a: string, b: string)
    ensures RemoveLines(RemoveLines(lines, a), b) == RemoveLines(RemoveLines(lines, b), a)
    ensures RemoveLines(RemoveLines(lines, a), a) == RemoveLines(lines, a)
  {
    if lines != [] {
      RemovalsCommute(lines[1..], a, b);
      var head := [lines[0]];
      RemoveOfConcat(if Targets(lines[0], a) then [] else head, RemoveLines(lines[1..], a), b);
      RemoveOfConcat(if Targets(lines[0], b) then [] else head, RemoveLines(lines[1..], b), a);
      RemoveOfConcat(if Targets(lines[0], a) then [] else head, RemoveLines(lines[1..], a), a);
    }
  }

  lemma RemovalKeepsSidsDistinct(lines: seq<string>, ip: string)
    requires DistinctSids(lines)
    ensures DistinctSids(RemoveLines(lines, ip))
  {
    var from := RemovalKeepsOrder(lines, ip);
  }

  lemma RemovalKeepsLines(lines: seq<string>, ip: string)
    requires AreLines(lines)
    ensures AreLines(RemoveLines(lines, ip))
  {
    var from := RemovalKeepsOrder(lines, ip);
  }

  /** On the file: removing reads back as the filtered lines, so removals commute and repeat harmlessly. */
  lemma LinesOfRemoved(text: string, ip: string)
    requires '\r' !in text
    ensures Lines(RemoveText(text, ip)) == RemoveLines(Lines(text), ip)
  {
    LinesAreLines(text);
    RemovalKeepsLines(Lines(text), ip);
    LinesOfUnlines(RemoveLines(Lines(text), ip));
  }

  lemma RemovalsCommuteOnFile(text: string, a: string, b: string)
    requires '\r' !in text
    ensures RemoveText(RemoveText(text, a), b) == RemoveText(RemoveText(text, b), a)
    ensures RemoveText(RemoveText(text, a), a) == RemoveText(text, a)
  {
    LinesOfRemoved(text, a);
    LinesOfRemoved(text, b);
    RemovalsCommute(Lines(text), a, b);
  }

  predicate FreshSid(lines: seq<string>, rule: string) {
    forall i :: 0 <= i < |lines| ==> SidOf(rule).None? || SidOf(lines[i]) != SidOf(rule)
  }

  /** A rule is appended exactly when its SID is fresh (or it has none). */
  lemma UpsertFreshAppends(lines: seq<string>, rule: string)
    ensures FreshSid(lines, rule) <==> |Upsert(lines, rule)| == |lines| + 1
    ensures FreshSid(lines, rule) ==> Upsert(lines, rule) == lines + [Trim(rule)]
  {
  }

  lemma RemoveUndoesUpsert(lines: seq<string>, rule: string, ip: string)
    requires FreshSid(lines, rule) && Targets(rule, ip)
    requires forall i :: 0 <= i < |lines| ==> !Targets(lines[i], ip)
    ensures RemoveLines(Upsert(lines, rule), ip) == lines
  {
    UpsertFreshAppends(lines, rule);
    RemoveOfConcat(lines, [Trim(rule)], ip);
    RemoveOfClean(lines, ip);
    ParseIgnoresTrim(rule);
    assert RemoveLines([Trim(rule)], ip) == [];
  }

  /** Removal undoes application: a rule with a fresh SID whose source occurred nowhere else leaves no
      trace in a file that was empty or ended in a newline. */
  lemma RemoveUndoesApply(text: string, rule: string, ip: string)
    requires SingleLine(rule) && '\r' !in text && (text != [] ==> text[|text| - 1] == '\n')
    requires FreshSid(Lines(text), rule) && Targets(rule, ip)
    requires forall i :: 0 <= i < |Lines(text)| ==> !Targets(Lines(text)[i], ip)
    ensures RemoveText(ApplyText(Some(text), rule), ip) == text
  {
    LinesOfApplied(Some(text), rule);
    RemoveUndoesUpsert(Lines(text), rule, ip);
    UnlinesOfLines(text);
  }

  // ---------------------------------------------------------------------------------------
  // No carriage return appears that was not put in.

  lemma ApplyAddsNoCr(text: string, rule: string)
    requires '\r' !in text && '\r' !in Trim(rule)
    ensures '\r' !in ApplyText(Some(text), rule)
  {
    LinesHaveNoCr(text);
    var after := Upsert(Lines(text), rule);
    var k := UpsertTouchesOneLine(Lines(text), rule);
    forall j | 0 <= j < |after| ensures '\r' !in after[j] {
      assert after[j] == if j == k then Trim(rule) else Lines(text)[j];
    }
    UnlinesIsJoin(after);
    UnlinesHasNoCr(after);
  }

  lemma RemoveAddsNoCr(text: string, ip: string)
    requires '\r' !in text
    ensures '\r' !in RemoveText(text, ip)
  {
    LinesHaveNoCr(text);
    var from := RemovalKeepsOrder(Lines(text), ip);
    UnlinesHasNoCr(RemoveLines(Lines(text), ip));
  }
}
