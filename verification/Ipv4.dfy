/** Strict dotted-decimal addresses, and the normalisation every block request passes through. */
module Ipv4 {
  import opened Prelude
  import opened Strings

  type Octet = n: nat | n <= 255

  datatype Addr = Addr(a: Octet, b: Octet, c: Octet, d: Octet)

  function Print(x: Addr): string {
    PrintNat(x.a) + ['.'] + (PrintNat(x.b) + ['.'] + (PrintNat(x.c) + ['.'] + PrintNat(x.d)))
  }

  // One to three digits, no superfluous leading zero, at most 255.
  function ParseOctet(s: string): Option<Octet> {
    if Canonical(s) && |s| <= 3 && NatValue(s) <= 255 then Some(NatValue(s)) else None
  }

  function Parse(s: string): Option<Addr> {
    var p := Split(s, '.');
    if |p| != 4 then None
    else match (ParseOctet(p[0]), ParseOctet(p[1]), ParseOctet(p[2]), ParseOctet(p[3]))
      case (Some(a), Some(b), Some(c), Some(d)) => Some(Addr(a, b, c, d))
      case _ => None
  }

  const HTTP: string := "http://"
  const HTTPS: string := "https://"

  function StripScheme(s: string): string {
    if HTTP <= s then s[|HTTP|..]
    else if HTTPS <= s then s[|HTTPS|..]
    else s
  }

  function Host(s: string): string {
    Before(Before(StripScheme(s), '/'), ':')
  }

  function Normalize(value: string): Option<string> {
    var trimmed := Trim(value);
    match Parse(trimmed)
    case Some(x) => Some(Print(x))
    case None =>
      match Parse(Host(trimmed))
      case Some(x) => Some(Print(x))
      case None => None
  }

  // ---------------------------------------------------------------------------------------

  lemma OctetRoundTrip(n: Octet)
    ensures ParseOctet(PrintNat(n)) == Some(n) && '.' !in PrintNat(n)
  {
    PrintNatIsCanonical(n);
    assert n >= 100 ==> |PrintNat(n)| == |PrintNat(n / 10)| + 1 && |PrintNat(n / 10)| == |PrintNat(n / 10 / 10)| + 1;
    assert n / 10 / 10 < 10;
  }

  lemma ParseOctetInverse(s: string)
    requires ParseOctet(s).Some?
    ensures PrintNat(ParseOctet(s).value) == s
  {
    CanonicalIsPrinted(s);
  }

  lemma SplitFour(a: string, b: string, c: string, d: string)
    requires '.' !in a && '.' !in b && '.' !in c && '.' !in d
    ensures Split(a + ['.'] + (b + ['.'] + (c + ['.'] + d)), '.') == [a, b, c, d]
  {
    SplitStep(c, '.', d);
    SplitStep(b, '.', c + ['.'] + d);
    SplitStep(a, '.', b + ['.'] + (c + ['.'] + d));
  }

  lemma SplitOfPrint(x: Addr)
    ensures Split(Print(x), '.') == [PrintNat(x.a), PrintNat(x.b), PrintNat(x.c), PrintNat(x.d)]
  {
    OctetRoundTrip(x.a);
    OctetRoundTrip(x.b);
    OctetRoundTrip(x.c);
    OctetRoundTrip(x.d);
    SplitFour(PrintNat(x.a), PrintNat(x.b), PrintNat(x.c), PrintNat(x.d));
  }

  lemma ParseOfPrint(x: Addr)
    ensures Parse(Print(x)) == Some(x)
  {
    SplitOfPrint(x);
    OctetRoundTrip(x.a);
    OctetRoundTrip(x.b);
    OctetRoundTrip(x.c);
    OctetRoundTrip(x.d);
  }

  lemma PrintOfParse(s: string)
    requires Parse(s).Some?
    ensures Print(Parse(s).value) == s
  {
    var p := Split(s, '.');
    ParseOctetInverse(p[0]);
    ParseOctetInverse(p[1]);
    ParseOctetInverse(p[2]);
    ParseOctetInverse(p[3]);
    JoinOfSplit(s, '.');
    assert Join(p, ['.']) == p[0] + ['.'] + Join(p[1..], ['.']);
    assert Join(p[1..], ['.']) == p[1] + ['.'] + Join(p[2..], ['.']);
    assert Join(p[2..], ['.']) == p[2] + ['.'] + p[3];
  }

  /** Parsing and printing are inverse to each other: the accepted texts are exactly the printed ones. */
  lemma ParsePrintInverse(s: string, x: Addr)
    ensures Parse(s) == Some(x) <==> s == Print(x)
  {
    ParseOfPrint(x);
    if Parse(s) == Some(x) { PrintOfParse(s); }
  }

  // The characters of a printed address.
  lemma PrintedCharacters(x: Addr)
    ensures Print(x) != [] && IsDigit(Print(x)[0]) && IsDigit(Print(x)[|Print(x)| - 1])
    ensures forall i :: 0 <= i < |Print(x)| ==> IsDigit(Print(x)[i]) || Print(x)[i] == '.'
  {
    PrintNatIsCanonical(x.a);
    PrintNatIsCanonical(x.b);
    PrintNatIsCanonical(x.c);
    PrintNatIsCanonical(x.d);
  }

  lemma PrintedIsItsOwnHost(x: Addr)
    ensures Trim(Print(x)) == Print(x) && Host(Print(x)) == Print(x)
  {
    PrintedCharacters(x);
    PlainIsItsOwnHost(Print(x));
  }

  lemma PlainIsItsOwnHost(s: string)
    requires s != [] && IsDigit(s[0]) && IsDigit(s[|s| - 1]) && '/' !in s && ':' !in s
    ensures Trim(s) == s && Host(s) == s
  {
    TrimOfTrimmed(s);
    assert StripScheme(s) == s by {
      assert "" + s == s;
      NoSchemeToComeOff(s);
    }
    assert s + [] == s;
    BeforeStep(s, '/', []);
    BeforeStep(s, ':', []);
  }

  /** Exactly what is accepted, and as what: the host part of the trimmed text, verbatim. */
  lemma NormalizeExact(value: string, x: Addr)
    ensures Normalize(value) == Some(Print(x)) <==> Host(Trim(value)) == Print(x)
  {
    var t := Trim(value);
    ParsePrintInverse(Host(t), x);
    if Parse(t).Some? {
      PrintOfParse(t);
      PrintedIsItsOwnHost(Parse(t).value);
    }
    if Normalize(value) == Some(Print(x)) || Host(t) == Print(x) {
      PrintIsInjective(x);
    }
  }

  lemma PrintIsInjective(x: Addr)
    ensures forall y :: Print(y) == Print(x) ==> y == x
  {
    forall y | Print(y) == Print(x) ensures y == x {
      ParseOfPrint(x);
      ParseOfPrint(y);
    }
  }

  predicate IsCanonical(ip: string) {
    Parse(ip).Some?
  }

  /** The result is a canonical address, and normalising it again changes nothing. */
  lemma NormalizeIdempotent(value: string)
    requires Normalize(value).Some?
    ensures IsCanonical(Normalize(value).value)
    ensures Normalize(Normalize(value).value) == Normalize(value)
  {
    var t := Trim(value);
    var x := if Parse(t).Some? then Parse(t).value else Parse(Host(t)).value;
    ParseOfPrint(x);
    PrintedIsItsOwnHost(x);
  }

  datatype Scheme = NoScheme | Http | Https

  function SchemeText(s: Scheme): string {
    match s case NoScheme => "" case Http => HTTP case Https => HTTPS
  }

  // (":" port)? ("/" path)?
  function Trailer(port: Option<string>, path: Option<string>): string {
    (match port case None => "" case Some(p) => ":" + p) + (match path case None => "" case Some(p) => "/" + p)
  }

  // scheme? address (":" port)? ("/" path)?
  function Decorate(scheme: Scheme, x: Addr, port: Option<string>, path: Option<string>): string {
    SchemeText(scheme) + Print(x) + Trailer(port, path)
  }

  lemma HeadIsSolid(scheme: Scheme, x: Addr)
    ensures var head := SchemeText(scheme) + Print(x);
            head != [] && !IsWhitespace(head[0]) && !IsWhitespace(head[|head| - 1])
  {
    PrintedCharacters(x);
    var head := SchemeText(scheme) + Print(x);
    assert head[0] == if scheme.NoScheme? then Print(x)[0] else 'h';
    assert head[|head| - 1] == Print(x)[|Print(x)| - 1];
  }

  /** A URL-like decoration normalises to the address inside it, with any blanks around it. */
  lemma NormalizeUndecorates(scheme: Scheme, x: Addr, port: Option<string>, path: Option<string>)
    requires port.Some? ==> '/' !in port.value
    ensures Normalize(Decorate(scheme, x, port, path)) == Some(Print(x))
  {
    var head, rest := SchemeText(scheme) + Print(x), Trailer(port, path);
    HeadIsSolid(scheme, x);
    var cut := TrimAfterSolid(head, rest);
    SchemeComesOff(scheme, x, rest[..cut]);
    HostEndsAtDecoration(x, port, path, cut);
    NormalizeExact(Decorate(scheme, x, port, path), x);
  }

  lemma TrimAfterSolid(head: string, rest: string) returns (cut: nat)
    requires head != [] && !IsWhitespace(head[0]) && !IsWhitespace(head[|head| - 1])
    ensures cut <= |rest| && Trim(head + rest) == head + rest[..cut]
    decreases |rest|
  {
    var s := head + rest;
    assert TrimStart(s) == s;
    if rest != [] && IsWhitespace(rest[|rest| - 1]) {
      assert s[..|s| - 1] == head + rest[..|rest| - 1];
      cut := TrimAfterSolid(head, rest[..|rest| - 1]);
      assert TrimStart(head + rest[..|rest| - 1]) == head + rest[..|rest| - 1];
      assert rest[..|rest| - 1][..cut] == rest[..cut];
    } else {
      cut := |rest|;
      assert s[|s| - 1] == if rest == [] then head[|head| - 1] else rest[|rest| - 1];
      assert rest[..cut] == rest;
    }
  }

  lemma SchemeComesOff(scheme: Scheme, x: Addr, tail: string)
    ensures StripScheme(SchemeText(scheme) + Print(x) + tail) == Print(x) + tail
  {
    var host := Print(x) + tail;
    assert SchemeText(scheme) + Print(x) + tail == SchemeText(scheme) + host;
    PrintedCharacters(x);
    assert host[0] == Print(x)[0];
    match scheme
    case NoScheme => NoSchemeToComeOff(host);
    case Http => assert (HTTP + host)[|HTTP|..] == host;
    case Https => HttpsComesOff(host);
  }

  lemma NoSchemeToComeOff(host: string)
    requires host != [] && host[0] != 'h'
    ensures StripScheme("" + host) == host
  {
    assert "" + host == host;
    assert HTTP[0] == HTTPS[0] == 'h';
  }

  lemma HttpsComesOff(host: string)
    ensures StripScheme(HTTPS + host) == host
  {
    var s := HTTPS + host;
    assert s[4] == 's';
    assert s[|HTTPS|..] == host;
  }

  lemma HostBeforeDecoration(p: string, portPart: string, pathPart: string)
    requires '/' !in p && ':' !in p && '/' !in portPart
    requires (portPart != [] ==> portPart[0] == ':') && (pathPart != [] ==> pathPart[0] == '/')
    ensures Before(Before(p + (portPart + pathPart), '/'), ':') == p
  {
    assert p + (portPart + pathPart) == (p + portPart) + pathPart;
    BeforeStep(p + portPart, '/', pathPart);
    BeforeStep(p, ':', portPart);
  }

  lemma HostEndsAtDecoration(x: Addr, port: Option<string>, path: Option<string>, cut: nat)
    requires port.Some? ==> '/' !in port.value
    requires cut <= |Trailer(port, path)|
    ensures Before(Before(Print(x) + Trailer(port, path)[..cut], '/'), ':') == Print(x)
  {
    var portPart := match port case None => "" case Some(p) => ":" + p;
    var pathPart := match path case None => "" case Some(p) => "/" + p;
    var rest := portPart + pathPart;
    var k := if cut <= |portPart| then cut else |portPart|;
    assert rest[..cut] == portPart[..k] + pathPart[..cut - k];
    assert '/' !in portPart;
    PrintedCharacters(x);
    HostBeforeDecoration(Print(x), portPart[..k], pathPart[..cut - k]);
  }
}
