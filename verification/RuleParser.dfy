/** The best-effort parser for one line of a Suricata rules file. */
module RuleParser {
  import opened Prelude
  import opened Strings

  datatype ParsedRule = ParsedRule(
    raw: string, action: string, srcIp: string, dstIp: string, msg: string, sid: Option<nat>)

  // The trimmed text between the first `key:` and the next semicolon (or the end).
  function ExtractOption(options: string, key: string): Option<string> {
    var search := key + ":";
    match Find(options, search)
    case None => None
    case Some(i) => Some(Trim(Before(options[i + |search|..], ';')))
  }

  // <action> <proto> <src_ip> <src_port> -> <dst_ip> <dst_port> (<options>)
  function Parse(text: string): Option<ParsedRule> {
    var line := Trim(text);
    if line == "" || line[0] == '#' then None
    else
      var parts := SplitN(line, ' ', 7);
      if |parts| < 6 then None
      else
        var rest := if |parts| == 7 then parts[6] else "";
        var msg := ExtractOption(rest, "msg");
        var sid := ExtractOption(rest, "sid");
        Some(ParsedRule(line, parts[0], parts[2], parts[5],
                        if msg.Some? then TrimChar(msg.value, '"') else "",
                        if sid.Some? then ParseU64(sid.value) else None))
  }

  function SidOf(line: string): Option<nat> {
    var p := Parse(line);
    if p.Some? then p.value.sid else None
  }

  lemma ParseIgnoresTrim(text: string)
    ensures Parse(Trim(text)) == Parse(text)
  {
    TrimIsTrimmed(text);
  }

  /** Exactly which lines parse: those that, blanks at the ends aside, are not empty, are no comment, and
      have at least five blanks in them. */
  lemma ParsesIff(text: string)
    ensures Parse(text).Some? <==>
            Trim(text) != "" && Trim(text)[0] != '#' && Count(Trim(text), ' ') >= 5
  {
    if Trim(text) != "" { SplitNCounts(Trim(text), ' ', 7); }
  }

  /** A line whose first character that is no blank is '#' is a comment, and never parses. */
  lemma CommentNeverParses(blanks: string, rest: string)
    requires AllBlank(blanks)
    ensures Parse(blanks + ['#'] + rest).None? && SidOf(blanks + ['#'] + rest).None?
  {
    assert blanks + ['#'] + rest == blanks + (['#'] + rest);
    TrimStartSkips(blanks, ['#'] + rest);
    TrimKeepsFirst(['#'] + rest);
  }

  function Header(action: string, proto: string, src: string, srcPort: string, arrow: string, dst: string): string {
    action + [' '] + (proto + [' '] + (src + [' '] + (srcPort + [' '] + (arrow + [' '] + dst))))
  }

  lemma HeaderIsTrimmed(action: string, proto: string, src: string, srcPort: string, arrow: string, dst: string)
    requires action != "" && !IsWhitespace(action[0]) && dst != "" && !IsWhitespace(dst[|dst| - 1])
    ensures var line := Header(action, proto, src, srcPort, arrow, dst);
            line != "" && Trim(line) == line && line[0] == action[0]
  {
    var line := Header(action, proto, src, srcPort, arrow, dst);
    assert line == (action + [' '] + proto + [' '] + src + [' '] + srcPort + [' '] + arrow + [' ']) + dst;
    assert line[|line| - 1] == dst[|dst| - 1];
    TrimOfTrimmed(line);
  }

  lemma HeaderSplits(action: string, proto: string, src: string, srcPort: string, arrow: string, dst: string)
    requires PlainField(action) && PlainField(proto) && PlainField(src) && PlainField(srcPort)
    requires PlainField(arrow) && PlainField(dst)
    ensures SplitN(Header(action, proto, src, srcPort, arrow, dst), ' ', 7) == [action, proto, src, srcPort, arrow, dst]
  {
    SplitThree(action, proto, src, srcPort + [' '] + (arrow + [' '] + dst), 7);
    SplitNStep(srcPort, ' ', arrow + [' '] + dst, 4);
    SplitNStep(arrow, ' ', dst, 3);
    IndexOfIsFirst(dst, ' ');
    assert SplitN(dst, ' ', 2) == [dst];
  }

  /** A line with exactly five blanks yields its addresses, an empty message and no SID. */
  lemma BareHeader(action: string, proto: string, src: string, srcPort: string, arrow: string, dst: string)
    requires action != "" && !IsWhitespace(action[0]) && action[0] != '#'
    requires dst != "" && !IsWhitespace(dst[|dst| - 1])
    requires PlainField(action) && PlainField(proto) && PlainField(src) && PlainField(srcPort)
    requires PlainField(arrow) && PlainField(dst)
    ensures var line := Header(action, proto, src, srcPort, arrow, dst);
            Parse(line) == Some(ParsedRule(line, action, src, dst, "", None))
  {
    HeaderIsTrimmed(action, proto, src, srcPort, arrow, dst);
    HeaderSplits(action, proto, src, srcPort, arrow, dst);
    SixFields(Header(action, proto, src, srcPort, arrow, dst), [action, proto, src, srcPort, arrow, dst]);
  }

  lemma SixFields(line: string, parts: seq<string>)
    requires line != "" && Trim(line) == line && line[0] != '#'
    requires |parts| == 6 && SplitN(line, ' ', 7) == parts
    ensures Parse(line) == Some(ParsedRule(line, parts[0], parts[2], parts[5], "", None))
  {
    assert ExtractOption("", "msg").None? && ExtractOption("", "sid").None?;
  }

  /** The value of an option is everything from the first occurrence of its key to the next semicolon, or to
      the end, without the blanks around it. */
  lemma OptionValue(options: string, key: string, i: nat, value: string, rest: string)
    requires Find(options, key + ":") == Some(i)
    requires options[i + |key| + 1..] == value + rest && ';' !in value && (rest != "" ==> rest[0] == ';')
    ensures ExtractOption(options, key) == Some(Trim(value))
  {
    BeforeStep(value, ';', rest);
  }

  lemma NoOption(options: string, key: string)
    ensures ExtractOption(options, key).None? <==> !Contains(options, key + ":")
  {
    FindIsFirst(options, key + ":");
    var i := Find(options, key + ":");
    if i.Some? { assert i.value <= |options| && key + ":" <= options[i.value..]; }
  }

  // ---------------------------------------------------------------------------------------
  // Parsing undoes rendering.

  const MSG: string := "msg:"
  const SID: string := "sid:"

  function AfterMsg(sid: nat): string {
    [' '] + (SID + (PrintNat(sid) + [';'] + " rev:1;)"))
  }

  function Quoted(msg: string): string {
    ['"'] + msg + ['"']
  }

  function RenderOptions(msg: string, sid: nat): string {
    ['('] + (MSG + (Quoted(msg) + [';'] + AfterMsg(sid)))
  }

  function Render(action: string, proto: string, src: string, srcPort: string, dst: string, dstPort: string,
                  msg: string, sid: nat): string
  {
    action + [' '] + (proto + [' '] + (src + [' '] + (srcPort + [' '] + ("->" + [' '] + (dst + [' ']
      + (dstPort + [' '] + RenderOptions(msg, sid)))))))
  }

  lemma NotAtTheFront(a: string, x: char, b: string, pat: string)
    requires pat != [] && x !in pat && Find(a, pat).None?
    ensures !(pat <= a + [x] + b)
  {
    var s := a + [x] + b;
    if |pat| <= |a| {
      assert s[..|pat|] == a[..|pat|];
    } else {
      assert s[|a|] == x;
    }
  }

  lemma {:induction false} FindNoneInTail(a: string, pat: string)
    requires a != [] && pat != [] && Find(a, pat).None?
    ensures Find(a[1..], pat).None?
  {
  }

  /** An occurrence of a pattern without x in it cannot straddle x. */
  lemma {:induction false} FindSkips(a: string, x: char, b: string, pat: string)
    requires pat != [] && x !in pat && Find(a, pat).None?
    ensures Find(a + [x] + b, pat) ==
            match Find(b, pat) case None => None case Some(i) => Some(|a| + 1 + i)
  {
    var s := a + [x] + b;
    NotAtTheFront(a, x, b, pat);
    if a == [] {
      assert s[1..] == b;
    } else {
      assert s[1..] == a[1..] + [x] + b;
      FindNoneInTail(a, pat);
      FindSkips(a[1..], x, b, pat);
    }
  }

  lemma TrimCharOfPlain(s: string, c: char)
    requires c !in s
    ensures TrimChar(s, c) == s
  {
  }

  lemma TrimCharEnd(s: string, c: char)
    requires c !in s
    ensures TrimChar(s + [c], c) == s
  {
    var q := s + [c];
    assert q[..|s|] == s;
    TrimCharOfPlain(s, c);
    if s == [] {
      assert q[1..] == s;
    } else {
      assert q[0] == s[0];
    }
  }

  lemma TrimCharQuoted(msg: string)
    requires '"' !in msg
    ensures TrimChar(Quoted(msg), '"') == msg
  {
    assert Quoted(msg)[1..] == msg + ['"'];
    TrimCharEnd(msg, '"');
  }

  lemma BeforeSeparator(value: string, c: char, tail: string)
    requires c !in value
    ensures Before(value + [c] + tail, c) == value
  {
    SplitStep(value, c, tail);
  }

  lemma ExtractAt(options: string, key: string, search: string, i: nat, value: string, rest: string)
    requires search == key + ":" && Find(options, search) == Some(i)
    requires options[i + |search|..] == rest && Before(rest, ';') == value && Trim(value) == value
    ensures ExtractOption(options, key) == Some(value)
  {
  }

  lemma FindInFront(pat: string, b: string)
    ensures Find(pat + b, pat) == Some(0)
  {
  }

  // The special case of a single leading character.
  lemma FindPastChar(x: char, b: string, pat: string, i: nat)
    requires pat != [] && x !in pat && Find(b, pat) == Some(i)
    ensures Find([x] + b, pat) == Some(i + 1)
  {
    assert ([x] + b)[1..] == b && ([x] + b)[0] == x;
  }

  lemma FindPast(a: string, x: char, b: string, pat: string, i: nat)
    requires pat != [] && x !in pat && Find(a, pat).None? && Find(b, pat) == Some(i)
    ensures Find(a + [x] + b, pat) == Some(|a| + 1 + i)
  {
    FindSkips(a, x, b, pat);
  }

  lemma FindPastTwoChars(x: char, y: char, b: string, pat: string, i: nat)
    requires pat != [] && x !in pat && y !in pat && Find(b, pat) == Some(i)
    ensures Find([x] + ([y] + b), pat) == Some(i + 2)
  {
    FindPastChar(y, b, pat, i);
    FindPastChar(x, [y] + b, pat, i + 1);
  }

  lemma FindPastQuoted(q: char, msg: string, b: string, pat: string, i: nat)
    requires pat != [] && q !in pat && Find(msg, pat).None? && Find(b, pat) == Some(i)
    ensures Find([q] + (msg + [q] + b), pat) == Some(|msg| + 2 + i)
  {
    FindPast(msg, q, b, pat, i);
    FindPastChar(q, msg + [q] + b, pat, |msg| + 1 + i);
  }

  lemma NotInKeys()
    ensures ' ' !in MSG && '(' !in MSG
    ensures ' ' !in SID && '(' !in SID && ';' !in SID && '"' !in SID && 'm' !in SID && 'g' !in SID
  {
  }

  lemma FindMsgAfterParenthesis(body: string)
    ensures Find(['('] + (MSG + body), MSG) == Some(1)
  {
    FindInFront(MSG, body);
    NotInKeys();
    FindPastChar('(', MSG + body, MSG, 0);
  }

  lemma FindMsg(dstPort: string, tail: string)
    requires Find(dstPort, MSG).None? && Find(tail, MSG) == Some(1)
    ensures Find(dstPort + [' '] + tail, MSG) == Some(|dstPort| + 2)
  {
    NotInKeys();
    FindPast(dstPort, ' ', tail, MSG, 1);
  }

  lemma QuotedIsTrimmed(msg: string)
    requires ';' !in msg
    ensures Trim(Quoted(msg)) == Quoted(msg) && ';' !in Quoted(msg)
  {
    TrimOfTrimmed(Quoted(msg));
  }

  lemma DropThree(a: string, x: char, y: char, m: string, b: string)
    ensures (a + [x] + ([y] + (m + b)))[|a| + 2 + |m|..] == b
  {
  }

  lemma MsgIsFound(dstPort: string, msg: string, sid: nat)
    requires Find(dstPort, MSG).None? && ';' !in msg
    ensures ExtractOption(dstPort + [' '] + RenderOptions(msg, sid), "msg") == Some(Quoted(msg))
  {
    var body := Quoted(msg) + [';'] + AfterMsg(sid);
    FindMsgAfterParenthesis(body);
    FindMsg(dstPort, RenderOptions(msg, sid));
    QuotedIsTrimmed(msg);
    BeforeSeparator(Quoted(msg), ';', AfterMsg(sid));
    DropThree(dstPort, ' ', '(', MSG, body);
    KeysSpelledOut();
    ExtractAt(dstPort + [' '] + RenderOptions(msg, sid), "msg", MSG, |dstPort| + 2, Quoted(msg), body);
  }

  lemma Reassociate(msg: string, tail: string)
    ensures Quoted(msg) + [';'] + ([' '] + tail) == ['"'] + (msg + ['"'] + ([';'] + ([' '] + tail)))
  {
  }

  lemma SidAfterMsg(msg: string, value: string)
    requires Find(msg, SID).None?
    ensures Find(Quoted(msg) + [';'] + ([' '] + (SID + value)), SID) == Some(|msg| + 4)
  {
    FindInFront(SID, value);
    NotInKeys();
    FindPastTwoChars(';', ' ', SID + value, SID, 0);
    FindPastQuoted('"', msg, [';'] + ([' '] + (SID + value)), SID, 2);
    Reassociate(msg, SID + value);
  }

  lemma SpellOutMsg(body: string)
    ensures MSG + body == ['m'] + (['s'] + (['g'] + ([':'] + body)))
  {
  }

  // No "sid:" begins inside "(msg:".
  lemma SidPastMsg(body: string, i: nat)
    requires Find(body, SID) == Some(i)
    ensures Find(['('] + (MSG + body), SID) == Some(i + 5)
  {
    var g := ['g'] + ([':'] + body);
    NotInKeys();
    FindPastColon(body, i);
    FindPastChar('g', [':'] + body, SID, i + 1);
    FindPastS(g, i + 2);
    FindPastTwoChars('(', 'm', ['s'] + g, SID, i + 3);
    SpellOutMsg(body);
  }

  lemma FindPastColon(body: string, i: nat)
    requires Find(body, SID) == Some(i)
    ensures Find([':'] + body, SID) == Some(i + 1)
  {
    assert ([':'] + body)[1..] == body;
    assert ([':'] + body)[0] != SID[0];
  }

  lemma FindPastS(b: string, i: nat)
    requires Find(b, SID) == Some(i) && b[0] == 'g'
    ensures Find(['s'] + b, SID) == Some(i + 1)
  {
    assert (['s'] + b)[1..] == b;
    assert (['s'] + b)[1] != SID[1];
  }

  lemma AfterSid(dstPort: string, msg: string, sid: nat)
    ensures (dstPort + [' '] + RenderOptions(msg, sid))[|dstPort| + |msg| + 14..] == PrintNat(sid) + [';'] + " rev:1;)"
  {
    var q, v := Quoted(msg), PrintNat(sid) + [';'] + " rev:1;)";
    var h := dstPort + [' '] + ['('] + MSG + q + [';'] + [' '] + SID;
    assert dstPort + [' '] + (['('] + (MSG + (q + [';'] + ([' '] + (SID + v))))) == h + v;
  }

  lemma SidInOptions(msg: string, sid: nat)
    requires Find(msg, SID).None?
    ensures Find(RenderOptions(msg, sid), SID) == Some(|msg| + 9)
  {
    SidAfterMsg(msg, PrintNat(sid) + [';'] + " rev:1;)");
    SidPastMsg(Quoted(msg) + [';'] + AfterMsg(sid), |msg| + 4);
  }

  lemma FindSid(dstPort: string, tail: string, i: nat)
    requires Find(dstPort, SID).None? && Find(tail, SID) == Some(i)
    ensures Find(dstPort + [' '] + tail, SID) == Some(|dstPort| + 1 + i)
  {
    NotInKeys();
    FindPast(dstPort, ' ', tail, SID, i);
  }

  lemma DigitsAreTrimmed(sid: nat)
    ensures Trim(PrintNat(sid)) == PrintNat(sid) && ';' !in PrintNat(sid)
  {
    PrintNatIsCanonical(sid);
    TrimOfTrimmed(PrintNat(sid));
  }

  lemma ExtractBefore(options: string, key: string, search: string, i: nat, value: string, tail: string)
    requires search == key + ":" && Find(options, search) == Some(i)
    requires options[i + |search|..] == value + [';'] + tail && ';' !in value && Trim(value) == value
    ensures ExtractOption(options, key) == Some(value)
  {
    BeforeSeparator(value, ';', tail);
    ExtractAt(options, key, search, i, value, value + [';'] + tail);
  }

  lemma KeysSpelledOut()
    ensures "msg" + ":" == MSG && "sid" + ":" == SID
  {
  }

  lemma SidIsFound(dstPort: string, msg: string, sid: nat)
    requires Find(dstPort, SID).None? && Find(msg, SID).None?
    ensures ExtractOption(dstPort + [' '] + RenderOptions(msg, sid), "sid") == Some(PrintNat(sid))
  {
    SidInOptions(msg, sid);
    FindSid(dstPort, RenderOptions(msg, sid), |msg| + 9);
    AfterSid(dstPort, msg, sid);
    DigitsAreTrimmed(sid);
    KeysSpelledOut();
    var options := dstPort + [' '] + RenderOptions(msg, sid);
    assert |dstPort| + |msg| + 10 + |SID| == |dstPort| + |msg| + 14;
    ExtractBefore(options, "sid", SID, |dstPort| + |msg| + 10, PrintNat(sid), " rev:1;)");
  }

  predicate PlainField(s: string) {
    ' ' !in s
  }

  /** Parsing recovers every field of a rendered rule. */
  lemma ParseOfRender(action: string, proto: string, src: string, srcPort: string, dst: string, dstPort: string,
                      msg: string, sid: nat)
    requires action != "" && !IsWhitespace(action[0]) && action[0] != '#'
    requires PlainField(action) && PlainField(proto) && PlainField(src) && PlainField(srcPort) && PlainField(dst)
    requires !Contains(dstPort, MSG) && !Contains(dstPort, SID)
    requires ';' !in msg && '"' !in msg && !Contains(msg, SID)
    requires sid <= U64_MAX
    ensures var line := Render(action, proto, src, srcPort, dst, dstPort, msg, sid);
            Parse(line) == Some(ParsedRule(line, action, src, dst, msg, Some(sid)))
  {
    var line := Render(action, proto, src, srcPort, dst, dstPort, msg, sid);
    var rest := dstPort + [' '] + RenderOptions(msg, sid);
    FindIsFirst(dstPort, MSG);
    FindIsFirst(dstPort, SID);
    FindIsFirst(msg, SID);
    RenderIsTrimmed(action, proto, src, srcPort, dst, dstPort, msg, sid);
    RenderSplits(action, proto, src, srcPort, dst, rest);
    ParsedFields(line, action, proto, src, srcPort, dst, rest);
    MsgIsFound(dstPort, msg, sid);
    SidIsFound(dstPort, msg, sid);
    TrimCharQuoted(msg);
    PrintedParses(sid);
  }

  lemma ShortLacks(s: string, pat: string)
    requires |s| < |pat|
    ensures !Contains(s, pat)
  {
  }

  lemma MessageIsIn(action: string, proto: string, src: string, srcPort: string, dst: string, dstPort: string,
                    msg: string, sid: nat, c: char)
    requires c in msg
    ensures c in Render(action, proto, src, srcPort, dst, dstPort, msg, sid)
  {
    assert c in RenderOptions(msg, sid) by { assert c in Quoted(msg); }
  }

  lemma PrintedParses(sid: nat)
    requires sid <= U64_MAX
    ensures ParseU64(PrintNat(sid)) == Some(sid)
  {
    PrintNatIsCanonical(sid);
  }

  lemma ParsedFields(line: string, action: string, proto: string, src: string, srcPort: string, dst: string,
                     rest: string)
    requires line != "" && Trim(line) == line && line[0] != '#'
    requires SplitN(line, ' ', 7) == [action, proto, src, srcPort, "->", dst, rest]
    ensures var m, d := ExtractOption(rest, "msg"), ExtractOption(rest, "sid");
            Parse(line) == Some(ParsedRule(line, action, src, dst,
                                           if m.Some? then TrimChar(m.value, '"') else "",
                                           if d.Some? then ParseU64(d.value) else None))
  {
  }

  lemma RenderIsTrimmed(action: string, proto: string, src: string, srcPort: string, dst: string, dstPort: string,
                        msg: string, sid: nat)
    requires action != "" && !IsWhitespace(action[0])
    ensures var line := Render(action, proto, src, srcPort, dst, dstPort, msg, sid);
            line != [] && Trim(line) == line && line[0] == action[0]
  {
    var line := Render(action, proto, src, srcPort, dst, dstPort, msg, sid);
    var o := RenderOptions(msg, sid);
    var head := action + [' '] + proto + [' '] + src + [' '] + srcPort + [' '] + "->" + [' '] + dst + [' ']
                + dstPort + [' '];
    assert line == head + o;
    OptionsEnd(msg, sid);
    assert line[|line| - 1] == o[|o| - 1];
    TrimOfTrimmed(line);
  }

  lemma OptionsEnd(msg: string, sid: nat)
    ensures var o := RenderOptions(msg, sid); o != [] && o[|o| - 1] == ')'
  {
    var o := RenderOptions(msg, sid);
    var last := " rev:1;)";
    assert o == (['('] + MSG + Quoted(msg) + [';'] + [' '] + SID + PrintNat(sid) + [';']) + last;
  }

  lemma SplitThree(a: string, b: string, c: string, rest: string, n: nat)
    requires PlainField(a) && PlainField(b) && PlainField(c) && n > 3
    ensures SplitN(a + [' '] + (b + [' '] + (c + [' '] + rest)), ' ', n) == [a, b, c] + SplitN(rest, ' ', n - 3)
  {
    SplitNStep(a, ' ', b + [' '] + (c + [' '] + rest), n);
    SplitNStep(b, ' ', c + [' '] + rest, n - 1);
    SplitNStep(c, ' ', rest, n - 2);
  }

  lemma RenderSplits(action: string, proto: string, src: string, srcPort: string, dst: string, rest: string)
    requires PlainField(action) && PlainField(proto) && PlainField(src) && PlainField(srcPort) && PlainField(dst)
    ensures SplitN(action + [' '] + (proto + [' '] + (src + [' '] + (srcPort + [' ']
              + ("->" + [' '] + (dst + [' '] + rest))))), ' ', 7)
            == [action, proto, src, srcPort, "->", dst, rest]
  {
    var arrow := "->";
    assert PlainField(arrow);
    var r := srcPort + [' '] + (arrow + [' '] + (dst + [' '] + rest));
    SplitThree(action, proto, src, r, 7);
    SplitThree(srcPort, arrow, dst, rest, 4);
    assert SplitN(rest, ' ', 1) == [rest];
  }
}
