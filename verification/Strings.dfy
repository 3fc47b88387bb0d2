/** The handful of text operations the sensor relies on: trimming, searching, splitting into
    fields and lines, and decimal numbers. */
module Strings {
  import opened Prelude

  // The Unicode White_Space property, which is what trimming removes.
  predicate IsWhitespace(c: char) {
    || '\U{0009}' <= c <= '\U{000D}' || c == ' ' || c == '\U{0085}' || c == '\U{00A0}'
    || c == '\U{1680}' || '\U{2000}' <= c <= '\U{200A}' || c == '\U{2028}' || c == '\U{2029}'
    || c == '\U{202F}' || c == '\U{205F}' || c == '\U{3000}'
  }

  /** All twenty-five of them. */
  lemma WhitespaceCharacters(c: char)
    ensures IsWhitespace(c) <==>
            c in ['\U{0009}', '\U{000A}', '\U{000B}', '\U{000C}', '\U{000D}', '\U{0020}', '\U{0085}', '\U{00A0}',
                  '\U{1680}', '\U{2000}', '\U{2001}', '\U{2002}', '\U{2003}', '\U{2004}', '\U{2005}', '\U{2006}',
                  '\U{2007}', '\U{2008}', '\U{2009}', '\U{200A}', '\U{2028}', '\U{2029}', '\U{202F}', '\U{205F}',
                  '\U{3000}']
  {
  }

  function TrimStart(s: string): string {
    if s != [] && IsWhitespace(s[0]) then TrimStart(s[1..]) else s
  }

  function TrimEnd(s: string): string {
    if s != [] && IsWhitespace(s[|s| - 1]) then TrimEnd(s[..|s| - 1]) else s
  }

  function Trim(s: string): string {
    TrimEnd(TrimStart(s))
  }

  predicate Trimmed(s: string) {
    s != [] ==> !IsWhitespace(s[0]) && !IsWhitespace(s[|s| - 1])
  }

  lemma {:induction false} TrimStartIsSuffix(s: string)
    ensures |TrimStart(s)| <= |s| && TrimStart(s) == s[|s| - |TrimStart(s)|..]
    ensures TrimStart(s) != [] ==> !IsWhitespace(TrimStart(s)[0])
  {
    if s != [] && IsWhitespace(s[0]) {
      TrimStartIsSuffix(s[1..]);
      var n := |TrimStart(s)|;
      assert s[1..][|s| - 1 - n..] == s[|s| - n..];
    }
  }

  lemma {:induction false} TrimEndIsPrefix(s: string)
    ensures |TrimEnd(s)| <= |s| && TrimEnd(s) == s[..|TrimEnd(s)|]
    ensures TrimEnd(s) != [] ==> !IsWhitespace(TrimEnd(s)[|TrimEnd(s)| - 1])
  {
    if s != [] && IsWhitespace(s[|s| - 1]) { TrimEndIsPrefix(s[..|s| - 1]); }
  }

  lemma TrimIsTrimmed(s: string)
    ensures Trimmed(Trim(s))
    ensures Trim(Trim(s)) == Trim(s)
  {
    TrimStartIsSuffix(s);
    TrimEndIsPrefix(TrimStart(s));
  }

  lemma TrimOfTrimmed(s: string)
    requires Trimmed(s)
    ensures Trim(s) == s
  {
  }

  lemma {:induction false} TrimStartOfTrailing(s: string, c: char)
    requires IsWhitespace(c)
    ensures TrimStart(s + [c]) == if TrimStart(s) == [] then [] else TrimStart(s) + [c]
  {
    if s == [] {
      assert TrimStart([c]) == TrimStart([c][1..]);
    } else {
      assert (s + [c])[1..] == s[1..] + [c];
      if IsWhitespace(s[0]) { TrimStartOfTrailing(s[1..], c); }
    }
  }

  /** A blank at the end makes no difference to the trimmed text. */
  lemma TrimOfTrailing(s: string, c: char)
    requires IsWhitespace(c)
    ensures Trim(s + [c]) == Trim(s)
  {
    TrimStartOfTrailing(s, c);
    var t := TrimStart(s);
    assert (t + [c])[..|t|] == t;
  }

  predicate AllBlank(s: string) {
    forall i :: 0 <= i < |s| ==> IsWhitespace(s[i])
  }

  lemma {:induction false} TrimStartSkips(blanks: string, s: string)
    requires AllBlank(blanks)
    ensures TrimStart(blanks + s) == TrimStart(s)
  {
    if blanks == [] {
      assert blanks + s == s;
    } else {
      assert (blanks + s)[1..] == blanks[1..] + s;
      TrimStartSkips(blanks[1..], s);
    }
  }

  lemma {:induction false} TrimEndSkips(s: string, blanks: string)
    requires AllBlank(blanks)
    ensures TrimEnd(s + blanks) == TrimEnd(s)
  {
    if blanks == [] {
      assert s + blanks == s;
    } else {
      var n := |blanks| - 1;
      assert (s + blanks)[..|s| + n] == s + blanks[..n];
      TrimEndSkips(s, blanks[..n]);
    }
  }

  /** Trimming takes off the blanks at both ends and nothing else. */
  lemma TrimIsExact(before: string, s: string, after: string)
    requires AllBlank(before) && AllBlank(after) && Trimmed(s)
    ensures Trim(before + s + after) == s
  {
    assert before + s + after == before + (s + after);
    TrimStartSkips(before, s + after);
    if s == [] {
      assert s + after == after && after + [] == after;
      TrimStartSkips(after, []);
    } else {
      TrimEndSkips(s, after);
    }
  }

  lemma TrimKeepsFirst(s: string)
    requires s != [] && !IsWhitespace(s[0])
    ensures Trim(s) != [] && Trim(s)[0] == s[0]
  {
    TrimEndIsPrefix(s);
    TrimEndKeeps(s, 0);
  }

  lemma {:induction false} TrimEndKeeps(s: string, i: nat)
    requires i < |s| && !IsWhitespace(s[i])
    ensures i < |TrimEnd(s)|
  {
    if IsWhitespace(s[|s| - 1]) { TrimEndKeeps(s[..|s| - 1], i); }
  }

  function TrimChar(s: string, c: char): string {
    if s != [] && s[0] == c then TrimChar(s[1..], c)
    else if s != [] && s[|s| - 1] == c then TrimChar(s[..|s| - 1], c)
    else s
  }

  predicate AllAre(s: string, c: char) {
    forall i :: 0 <= i < |s| ==> s[i] == c
  }

  /** Every `c` at either end is taken off, and nothing else. */
  lemma {:induction false} TrimCharIsExact(before: string, s: string, after: string, c: char)
    requires AllAre(before, c) && AllAre(after, c) && (s != [] ==> s[0] != c && s[|s| - 1] != c)
    ensures TrimChar(before + s + after, c) == s
    decreases |before| + |after|
  {
    var t := before + s + after;
    if before != [] {
      assert t[1..] == before[1..] + s + after && t[0] == c;
      TrimCharIsExact(before[1..], s, after, c);
    } else if after != [] {
      var n := |after| - 1;
      assert t[..|t| - 1] == before + s + after[..n] && t[|t| - 1] == c;
      if t[0] == c {
        assert s == [] && t == after && t[1..] == [] + [] + after[1..];
        TrimCharIsExact([], [], after[1..], c);
      } else {
        TrimCharIsExact(before, s, after[..n], c);
      }
    } else {
      assert t == s;
    }
  }

  // ---------------------------------------------------------------------------------------

  function IndexOf(s: string, c: char): (r: Option<nat>)
    ensures r.Some? ==> r.value < |s| && s[r.value] == c
  {
    if s == [] then None
    else if s[0] == c then Some(0)
    else match IndexOf(s[1..], c)
      case None => None
      case Some(i) => Some(i + 1)
  }

  /** The search finds the first occurrence, and fails only if there is none. */
  lemma {:induction false} IndexOfIsFirst(s: string, c: char)
    ensures match IndexOf(s, c) case None => c !in s case Some(i) => c !in s[..i]
  {
    if s != [] && s[0] != c {
      IndexOfIsFirst(s[1..], c);
      match IndexOf(s[1..], c)
      case None =>
      case Some(i) => assert s[..i + 1] == [s[0]] + s[1..][..i];
    }
  }

  lemma {:induction false} IndexAfterPrefix(a: string, c: char, b: string)
    requires c !in a
    ensures IndexOf(a + [c] + b, c) == Some(|a|)
  {
    if a != [] {
      IndexAfterPrefix(a[1..], c, b);
      assert (a + [c] + b)[1..] == a[1..] + [c] + b;
    }
  }

  // Position of the first occurrence of `pat`.
  function Find(s: string, pat: string): (r: Option<nat>)
    ensures r.Some? ==> r.value + |pat| <= |s|
  {
    if pat <= s then Some(0)
    else if s == [] then None
    else match Find(s[1..], pat)
      case None => None
      case Some(i) => Some(i + 1)
  }

  ghost predicate Contains(s: string, pat: string) {
    exists j :: 0 <= j <= |s| && pat <= s[j..]
  }

  /** The search finds the first occurrence, and fails only if there is none. */
  lemma {:induction false} FindIsFirst(s: string, pat: string)
    ensures match Find(s, pat)
            case None => !Contains(s, pat)
            case Some(i) => pat <= s[i..] && forall j :: 0 <= j < i ==> !(pat <= s[j..])
  {
    assert s[0..] == s;
    if !(pat <= s) && s != [] {
      FindIsFirst(s[1..], pat);
      assert forall j :: 1 <= j <= |s| ==> s[1..][j - 1..] == s[j..];
    }
  }

  // ---------------------------------------------------------------------------------------

  function Split(s: string, c: char): (r: seq<string>)
    ensures |r| > 0
    decreases |s|
  {
    match IndexOf(s, c)
    case None => [s]
    case Some(i) => [s[..i]] + Split(s[i + 1..], c)
  }

  // What `s.split(c).next()` yields: everything before the first `c`.
  function Before(s: string, c: char): string {
    Split(s, c)[0]
  }

  function Join(parts: seq<string>, sep: string): string {
    if parts == [] then ""
    else if |parts| == 1 then parts[0]
    else parts[0] + sep + Join(parts[1..], sep)
  }

  lemma SplitStep(a: string, c: char, b: string)
    requires c !in a
    ensures Split(a + [c] + b, c) == [a] + Split(b, c)
  {
    var s := a + [c] + b;
    IndexAfterPrefix(a, c, b);
    assert s[..|a|] == a && s[|a| + 1..] == b;
  }

  lemma {:induction false} JoinOfSplit(s: string, c: char)
    ensures Join(Split(s, c), [c]) == s
    ensures forall p :: p in Split(s, c) ==> c !in p
    decreases |s|
  {
    IndexOfIsFirst(s, c);
    match IndexOf(s, c)
    case None =>
    case Some(i) =>
      JoinOfSplit(s[i + 1..], c);
      assert s == s[..i] + [c] + s[i + 1..];
      assert Split(s, c)[1..] == Split(s[i + 1..], c);
  }

  function Count(s: string, c: char): nat {
    if s == [] then 0 else (if s[0] == c then 1 else 0) + Count(s[1..], c)
  }

  lemma {:induction false} CountAfterFirst(s: string, c: char)
    ensures match IndexOf(s, c) case None => Count(s, c) == 0 case Some(i) => Count(s, c) == 1 + Count(s[i + 1..], c)
  {
    if s != [] && s[0] != c {
      CountAfterFirst(s[1..], c);
      match IndexOf(s[1..], c)
      case None =>
      case Some(i) => assert s[1..][i + 1..] == s[i + 2..];
    }
  }

  // What stands before the first separator, if there is one.
  lemma BeforeStep(value: string, c: char, rest: string)
    requires c !in value && (rest != "" ==> rest[0] == c)
    ensures Before(value + rest, c) == value
  {
    if rest == "" {
      assert value + rest == value;
      IndexOfIsFirst(value, c);
    } else {
      assert value + rest == value + [c] + rest[1..];
      SplitStep(value, c, rest[1..]);
    }
  }

  // At most `n` fields; the last one keeps the remaining separators.
  function SplitN(s: string, c: char, n: nat): (r: seq<string>)
    requires n > 0
    ensures 0 < |r| <= n
  {
    if n == 1 then [s]
    else match IndexOf(s, c)
      case None => [s]
      case Some(i) => [s[..i]] + SplitN(s[i + 1..], c, n - 1)
  }

  /** One field more than there are separators, up to the limit. */
  lemma {:induction false} SplitNCounts(s: string, c: char, n: nat)
    requires n > 0
    ensures |SplitN(s, c, n)| == Min(n, 1 + Count(s, c))
  {
    CountAfterFirst(s, c);
    var i := IndexOf(s, c);
    if n > 1 && i.Some? { SplitNCounts(s[i.value + 1..], c, n - 1); }
  }

  lemma SplitNStep(a: string, c: char, b: string, n: nat)
    requires c !in a && n > 1
    ensures SplitN(a + [c] + b, c, n) == [a] + SplitN(b, c, n - 1)
  {
    var s := a + [c] + b;
    IndexAfterPrefix(a, c, b);
    assert s[..|a|] == a && s[|a| + 1..] == b;
  }

  // ---------------------------------------------------------------------------------------
  // Lines of a text file.

  predicate EndsInCr(l: string) {
    l != [] && l[|l| - 1] == '\r'
  }

  function StripCr(l: string): string {
    if EndsInCr(l) then l[..|l| - 1] else l
  }

  /** Lines end at a newline, with one carriage return before it taken off; a final newline does not
      start another line, and an unterminated last line is kept as it is. */
  function Lines(text: string): seq<string>
    decreases |text|
  {
    if text == [] then []
    else match IndexOf(text, '\n')
      case None => [text]
      case Some(i) => [StripCr(text[..i])] + Lines(text[i + 1..])
  }

  function Unlines(ls: seq<string>): string {
    if ls == [] then "" else ls[0] + "\n" + Unlines(ls[1..])
  }

  predicate NoNewlines(ls: seq<string>) {
    forall i :: 0 <= i < |ls| ==> '\n' !in ls[i]
  }

  predicate NoTrailingCr(ls: seq<string>) {
    forall i :: 0 <= i < |ls| ==> !EndsInCr(ls[i])
  }

  predicate AreLines(ls: seq<string>) {
    NoNewlines(ls) && NoTrailingCr(ls)
  }

  function Stripped(ls: seq<string>): seq<string> {
    seq(|ls|, i requires 0 <= i < |ls| => StripCr(ls[i]))
  }

  lemma LinesOfFirst(line: string, rest: string)
    requires '\n' !in line
    ensures Lines(line + ['\n'] + rest) == [StripCr(line)] + Lines(rest)
  {
    var text := line + ['\n'] + rest;
    IndexAfterPrefix(line, '\n', rest);
    assert text[..|line|] == line && text[|line| + 1..] == rest;
  }

  /** Reading back what was written takes one carriage return off the end of each line. */
  lemma {:induction false} LinesOfUnlinesStripped(ls: seq<string>)
    requires NoNewlines(ls)
    ensures Lines(Unlines(ls)) == Stripped(ls)
  {
    if ls != [] {
      LinesOfUnlinesStripped(ls[1..]);
      LinesOfFirst(ls[0], Unlines(ls[1..]));
      assert Stripped(ls) == [StripCr(ls[0])] + Stripped(ls[1..]);
    }
  }

  /** ... and gives the same lines if there is none. */
  lemma LinesOfUnlines(ls: seq<string>)
    requires AreLines(ls)
    ensures Lines(Unlines(ls)) == ls
  {
    LinesOfUnlinesStripped(ls);
  }

  /** Written out again, the text is as long as before only if nothing was taken off. */
  lemma {:induction false} StrippedIsShorter(ls: seq<string>)
    ensures |Unlines(Stripped(ls))| <= |Unlines(ls)|
    ensures |Unlines(Stripped(ls))| == |Unlines(ls)| ==> forall i :: 0 <= i < |ls| ==> !EndsInCr(ls[i])
  {
    if ls != [] {
      StrippedIsShorter(ls[1..]);
      assert Stripped(ls)[1..] == Stripped(ls[1..]);
    }
  }

  lemma StrippedTextIff(ls: seq<string>)
    ensures Unlines(Stripped(ls)) == Unlines(ls) <==> NoTrailingCr(ls)
  {
    StrippedIsShorter(ls);
    if NoTrailingCr(ls) { assert Stripped(ls) == ls; }
  }

  function Newlines(text: string): nat {
    if text == [] then 0 else (if text[0] == '\n' then 1 else 0) + Newlines(text[1..])
  }

  lemma {:induction false} NewlinesOfConcat(a: string, b: string)
    ensures Newlines(a + b) == Newlines(a) + Newlines(b)
  {
    if a == [] {
      assert a + b == b;
    } else {
      assert (a + b)[1..] == a[1..] + b;
      NewlinesOfConcat(a[1..], b);
    }
  }

  lemma {:induction false} NewlinesIn(text: string)
    ensures Newlines(text) == 0 <==> '\n' !in text
  {
    if text != [] { NewlinesIn(text[1..]); }
  }

  lemma NewlinesOfFirst(line: string, rest: string)
    requires '\n' !in line
    ensures Newlines(line + ['\n'] + rest) == 1 + Newlines(rest)
  {
    NewlinesOfConcat(line + ['\n'], rest);
    NewlinesOfConcat(line, ['\n']);
    NewlinesIn(line);
    assert Newlines(['\n']) == 1 + Newlines(['\n'][1..]);
  }

  /** Writing out lines of which at most number k contains newlines. */
  lemma {:induction false} NewlinesOfUnlines(ls: seq<string>, k: nat)
    requires k <= |ls| && forall i :: 0 <= i < |ls| && i != k ==> '\n' !in ls[i]
    ensures Newlines(Unlines(ls)) == |ls| + if k < |ls| then Newlines(ls[k]) else 0
  {
    if ls != [] {
      var rest := Unlines(ls[1..]);
      NewlinesOfUnlines(ls[1..], if k == 0 then |ls| - 1 else k - 1);
      NewlinesOfConcat(ls[0] + "\n", rest);
      NewlinesOfConcat(ls[0], "\n");
      NewlinesIn(ls[0]);
      NewlinesOfFirst("", "");
      assert "" + ['\n'] + "" == "\n";
    }
  }

  lemma NextLine(text: string, i: nat)
    requires IndexOf(text, '\n') == Some(i)
    ensures Lines(text) == [StripCr(text[..i])] + Lines(text[i + 1..])
    ensures '\n' !in text[..i]
  {
    IndexOfIsFirst(text, '\n');
  }

  lemma {:induction false} LinesHaveNoNewlines(text: string)
    ensures NoNewlines(Lines(text))
    decreases |text|
  {
    IndexOfIsFirst(text, '\n');
    var i := IndexOf(text, '\n');
    if i.Some? {
      NextLine(text, i.value);
      LinesHaveNoNewlines(text[i.value + 1..]);
    }
  }

  lemma CutAt(text: string, i: nat)
    requires i < |text| && text[i] == '\n'
    ensures text == text[..i] + ['\n'] + text[i + 1..]
  {
  }

  /** A text that ends in a newline has as many lines as newlines. */
  lemma {:induction false} LinesCountNewlines(text: string)
    requires text != [] ==> text[|text| - 1] == '\n'
    ensures |Lines(text)| == Newlines(text)
    decreases |text|
  {
    IndexOfIsFirst(text, '\n');
    var i := IndexOf(text, '\n');
    if i.Some? {
      var line, rest := text[..i.value], text[i.value + 1..];
      NextLine(text, i.value);
      LinesCountNewlines(rest);
      NewlinesOfFirst(line, rest);
      CutAt(text, i.value);
    }
  }

  lemma {:induction false} UnlinesIsJoin(ls: seq<string>)
    requires ls != []
    ensures Join(ls, "\n") + "\n" == Unlines(ls)
  {
    if |ls| > 1 {
      UnlinesIsJoin(ls[1..]);
      assert Join(ls, "\n") + "\n" == ls[0] + "\n" + (Join(ls[1..], "\n") + "\n");
    } else {
      assert Unlines(ls[1..]) == "";
    }
  }

  // No carriage return appears that was not put in.
  predicate NoCrAnywhere(ls: seq<string>) {
    forall i :: 0 <= i < |ls| ==> '\r' !in ls[i]
  }

  lemma {:induction false} LinesHaveNoCr(text: string)
    requires '\r' !in text
    ensures NoCrAnywhere(Lines(text))
    decreases |text|
  {
    var i := IndexOf(text, '\n');
    if i.Some? {
      NextLine(text, i.value);
      LinesHaveNoCr(text[i.value + 1..]);
    }
  }

  lemma {:induction false} UnlinesHasNoCr(ls: seq<string>)
    requires NoCrAnywhere(ls)
    ensures '\r' !in Unlines(ls)
  {
    if ls != [] { UnlinesHasNoCr(ls[1..]); }
  }

  /** A text without carriage returns splits into lines that survive being written out again. */
  lemma LinesAreLines(text: string)
    requires '\r' !in text
    ensures AreLines(Lines(text))
  {
    LinesHaveNoNewlines(text);
    LinesHaveNoCr(text);
  }

  lemma UnlinesCons(head: string, rest: seq<string>)
    ensures Unlines([head] + rest) == head + "\n" + Unlines(rest)
  {
    assert ([head] + rest)[1..] == rest;
  }

  lemma {:induction false} UnlinesSnoc(ls: seq<string>, l: string)
    ensures Unlines(ls + [l]) == Unlines(ls) + l + "\n"
  {
    if ls == [] {
      assert [] + [l] == [l] && Unlines([l]) == l + "\n" + Unlines([]);
    } else {
      UnlinesSnoc(ls[1..], l);
      UnlinesCons(ls[0], ls[1..] + [l]);
      assert ls + [l] == [ls[0]] + (ls[1..] + [l]);
    }
  }

  lemma FirstLine(text: string, i: nat)
    requires '\r' !in text && IndexOf(text, '\n') == Some(i)
    ensures Lines(text) == [text[..i]] + Lines(text[i + 1..])
  {
    NextLine(text, i);
    assert !EndsInCr(text[..i]);
  }

  /** ... and a text that is empty or ends in a newline is recovered exactly. */
  lemma {:induction false} UnlinesOfLines(text: string)
    requires '\r' !in text
    requires text != [] ==> text[|text| - 1] == '\n'
    ensures Unlines(Lines(text)) == text
    decreases |text|
  {
    if text != [] {
      IndexOfIsFirst(text, '\n');
      var i := IndexOf(text, '\n').value;
      var line, rest := text[..i], text[i + 1..];
      FirstLine(text, i);
      UnlinesOfLines(rest);
      UnlinesCons(line, Lines(rest));
      CutAt(text, i);
    }
  }

  lemma OnlyLine(last: string)
    requires last != "" && '\n' !in last
    ensures Lines(last) == [last]
  {
    IndexOfIsFirst(last, '\n');
  }

  lemma Regroup(a: string, b: string, c: string)
    ensures a + b + c == a + (b + c)
  {
  }

  lemma LinesCons(line: string, rest: string, last: string)
    requires '\n' !in line && Lines(rest + last) == Lines(rest) + [last]
    ensures Lines(line + ['\n'] + (rest + last)) == Lines(line + ['\n'] + rest) + [last]
  {
    LinesOfFirst(line, rest);
    LinesOfFirst(line, rest + last);
  }

  /** An unterminated last line is a line like the others, and keeps a carriage return at its end. */
  lemma {:induction false} LastLineUnterminated(text: string, last: string)
    requires last != "" && '\n' !in last && (text != [] ==> text[|text| - 1] == '\n')
    ensures Lines(text + last) == Lines(text) + [last]
    decreases |text|
  {
    if text == [] {
      assert text + last == last;
      OnlyLine(last);
    } else {
      IndexOfIsFirst(text, '\n');
      var i := IndexOf(text, '\n').value;
      LastLineUnterminated(text[i + 1..], last);
      NextLine(text, i);
      LinesCons(text[..i], text[i + 1..], last);
      CutAt(text, i);
      Regroup(text[..i] + ['\n'], text[i + 1..], last);
    }
  }

  // ---------------------------------------------------------------------------------------
  // Decimal numbers.

  predicate IsDigit(c: char) {
    '0' <= c <= '9'
  }

  predicate AllDigits(s: string) {
    forall i :: 0 <= i < |s| ==> IsDigit(s[i])
  }

  function DigitChar(d: nat): (c: char)
    requires d < 10
    ensures IsDigit(c) && DigitValue(c) == d
  {
    '0' + (d as char)
  }

  function DigitValue(c: char): (d: nat)
    requires IsDigit(c)
    ensures d < 10
  {
    c as int - '0' as int
  }

  function PrintNat(n: nat): string {
    if n < 10 then [DigitChar(n)] else PrintNat(n / 10) + [DigitChar(n % 10)]
  }

  function NatValue(s: string): nat
    requires AllDigits(s)
  {
    if s == [] then 0 else 10 * NatValue(s[..|s| - 1]) + DigitValue(s[|s| - 1])
  }

  /** No superfluous leading zero. */
  predicate Canonical(s: string) {
    s != [] && AllDigits(s) && (|s| > 1 ==> s[0] != '0')
  }

  lemma {:induction false} PrintNatIsCanonical(n: nat)
    ensures Canonical(PrintNat(n)) && NatValue(PrintNat(n)) == n
    ensures n > 0 ==> PrintNat(n)[0] != '0'
  {
    if n >= 10 {
      PrintNatIsCanonical(n / 10);
      assert PrintNat(n)[..|PrintNat(n)| - 1] == PrintNat(n / 10);
    }
  }

  lemma {:induction false} CanonicalIsPrinted(s: string)
    requires Canonical(s)
    ensures PrintNat(NatValue(s)) == s
    ensures s[0] != '0' ==> NatValue(s) > 0
  {
    var init := s[..|s| - 1];
    if |s| == 1 {
      assert NatValue(init) == 0;
      assert s == [DigitChar(DigitValue(s[0]))];
    } else {
      CanonicalIsPrinted(init);
      assert s == init + [s[|s| - 1]];
    }
  }

  // `str::parse::<u64>`: an optional plus sign, then at least one digit, in range.
  function ParseU64(s: string): Option<nat> {
    var digits := if s != [] && s[0] == '+' then s[1..] else s;
    if digits == [] || !AllDigits(digits) || NatValue(digits) > U64_MAX then None
    else Some(NatValue(digits))
  }

  lemma {:induction false} LeadingZero(s: string)
    requires AllDigits(s)
    ensures NatValue(['0'] + s) == NatValue(s)
  {
    if s == [] {
      assert ['0'][..0] == [] && NatValue([]) == 0;
    } else {
      var n := |s| - 1;
      assert (['0'] + s)[..n + 1] == ['0'] + s[..n];
      LeadingZero(s[..n]);
    }
  }

  /** Exactly the digit strings, with or without a plus sign, whose value fits 64 bits are read. */
  lemma ParseU64Exact(s: string)
    ensures s != "" && AllDigits(s) ==>
              var n := NatValue(s);
              && ParseU64(s) == (if n <= 18_446_744_073_709_551_615 then Some(n) else None)
              && ParseU64(['+'] + s) == ParseU64(s)
    ensures ParseU64(s).Some? ==> s != "" && (AllDigits(s) || (s[0] == '+' && s[1..] != "" && AllDigits(s[1..])))
  {
    assert (['+'] + s)[1..] == s;
  }
}
