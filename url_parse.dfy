/**
 * The parts of a URL that `URLNormalizer` reads back through `toURL()`:
 * protocol, host, port and path, as `java.net.URL` splits them for the
 * protocols that use the default stream handler.
 */
module UrlParse {
  import opened Wrappers
  import opened JavaStrings

  /** What `new URL(spec)` exposes through `getProtocol`, `getHost`, `getPort` and `getPath`. */
  datatype Url = Url(protocol: string, host: string, port: int, path: string)

  /** The protocols whose handler parses `//authority/path?query#ref`. */
  predicate IsKnownProtocol(p: string) {
    p == "http" || p == "https" || p == "ftp" || p == "file"
  }

  /** The host characters this model accepts. */
  predicate IsHostChar(c: char) {
    IsAsciiAlphanumeric(c) || c == '.' || c == '-' || c == '_'
  }

  predicate IsHostName(h: string) {
    forall i :: 0 <= i < |h| ==> IsHostChar(h[i])
  }

  predicate IsDigits(s: string) {
    forall i :: 0 <= i < |s| ==> IsAsciiDigit(s[i])
  }

  /** The value of a decimal numeral. */
  function DecimalValue(s: string): (n: nat)
    requires IsDigits(s)
    decreases |s|
  {
    if s == [] then 0 else DecimalValue(s[..|s| - 1]) * 10 + (s[|s| - 1] as int - '0' as int)
  }

  /** The decimal numeral of `n`, without leading zeros. */
  function DecimalString(n: nat): (s: string)
    ensures |s| > 0 && IsDigits(s)
    ensures n > 0 ==> s[0] != '0'
  {
    if n < 10 then ["0123456789"[n]] else DecimalString(n / 10) + ["0123456789"[n % 10]]
  }

  /** Reading back the numeral of a number gives that number. */
  lemma {:induction false} DecimalRoundTrip(n: nat)
    ensures DecimalValue(DecimalString(n)) == n
  {
    var s := DecimalString(n);
    if n >= 10 {
      DecimalRoundTrip(n / 10);
      assert s[..|s| - 1] == DecimalString(n / 10);
    }
  }

  /** `Integer.MAX_VALUE`: a longer port numeral makes `parseInt` throw. */
  const MaxInt: int := 0x7FFF_FFFF

  /**
   * Host and port of an authority `[userinfo@]host[:port]`. An authority
   * with two '@' or a port that is not a number is refused.
   */
  function ParseAuthority(authority: string): (r: Option<(string, int)>)
    ensures r.Some? ==> IsHostName(r.value.0) && -1 <= r.value.1 <= MaxInt
    ensures r.Some? ==> ':' !in r.value.0 && '@' !in r.value.0
  {
    if CountChar(authority, '@') > 1 then None
    else
      var hostPort := if '@' in authority then SubstringAfter(authority, "@") else authority;
      var host := TakeUntil(hostPort, ':');
      var portText := if |host| < |hostPort| then hostPort[|host| + 1..] else [];
      var port: int := if portText != [] && IsDigits(portText) then DecimalValue(portText) else -1;
      if !IsHostName(host) then None
      else if portText == [] then Some((host, port))
      else if !IsDigits(portText) || port > MaxInt then None
      else Some((host, port))
  }

  /**
   * `new URL(spec)`, or `None` where it throws `MalformedURLException`: the
   * spec is trimmed, the protocol (lower-cased) runs to the first ':', the
   * reference starts at the first '#', the query at the first '?', and a
   * leading "//" introduces an authority that ends at the next '/'.
   */
  function ParseUrl(spec: string): (r: Option<Url>)
    ensures r.Some? ==> IsKnownProtocol(r.value.protocol)
    ensures r.Some? ==> IsHostName(r.value.host) && -1 <= r.value.port
    ensures r.Some? ==> '?' !in r.value.path && '#' !in r.value.path
  {
    var t := Trim(spec);
    var colon := IndexOf(t, ":");
    if colon <= 0 || !IsKnownProtocol(LowerAscii(t[..colon])) then None
    else ParseAfterProtocol(LowerAscii(t[..colon]), t[colon + 1..])
  }

  /** The part of `ParseUrl` after the protocol and its ':'. */
  function ParseAfterProtocol(protocol: string, rest: string): (r: Option<Url>)
    requires IsKnownProtocol(protocol)
    ensures r.Some? ==> r.value.protocol == protocol
    ensures r.Some? ==> IsHostName(r.value.host) && -1 <= r.value.port
    ensures r.Some? ==> '?' !in r.value.path && '#' !in r.value.path
  {
    var beforeQuery := TakeUntil(TakeUntil(rest, '#'), '?');
    assert '#' !in beforeQuery;
    if |beforeQuery| >= 2 && beforeQuery[..2] == "//" then
      var authority := TakeUntil(beforeQuery[2..], '/');
      var path := beforeQuery[2 + |authority|..];
      assert path == beforeQuery[2..][|authority|..];
      match ParseAuthority(authority)
      case None => None
      case Some(hp) => Some(Url(protocol, hp.0, hp.1, path))
    else Some(Url(protocol, "", -1, beforeQuery))
  }

  /** `toURL()`: `null` for a blank URL or one that does not parse. */
  function ToUrl(url: string): Option<Url> {
    if IsBlank(url) then None else ParseUrl(url)
  }

  /** The URL `new URL(...)` accepts in the constructor. */
  predicate IsValidUrl(url: string) {
    ParseUrl(url).Some?
  }

  // ---------------------------------------------------------------------
  // Composing a URL, the inverse of parsing
  // ---------------------------------------------------------------------

  /** A URL that `Compose` writes out unambiguously. */
  predicate IsComposable(u: Url) {
    && IsKnownProtocol(u.protocol)
    && IsHostName(u.host)
    && -1 <= u.port <= MaxInt
    && '?' !in u.path && '#' !in u.path
    && (u.path == [] || (u.path[0] == '/' && u.path[|u.path| - 1] > ' '))
  }

  /** The text `Compose` writes for the port: nothing, or ':' and its numeral. */
  function PortPart(port: int): string
    requires port >= -1
  {
    if port == -1 then [] else ":" + DecimalString(port)
  }

  /** `host[:port]`. */
  function ComposedAuthorityText(u: Url): string
    requires u.port >= -1
  {
    u.host + PortPart(u.port)
  }

  /** What follows the protocol's ':' in a composed URL. */
  function ComposedRest(u: Url): string
    requires u.port >= -1
  {
    "//" + ComposedAuthorityText(u) + u.path
  }

  /** `protocol://host[:port]path`. */
  function Compose(u: Url): string
    requires u.port >= -1
  {
    u.protocol + ":" + ComposedRest(u)
  }

  /** Parsing a composed URL gives back its parts. */
  lemma ParseCompose(u: Url)
    requires IsComposable(u)
    ensures ParseUrl(Compose(u)) == Some(u)
  {
    ComposedRestParses(u);
    ComposedProtocol(u);
  }

  /** The characters that never occur in a host name or a port part. */
  lemma HostNameExcludes(h: string)
    requires IsHostName(h)
    ensures ':' !in h && '/' !in h && '@' !in h && '?' !in h && '#' !in h
  {
    forall i | 0 <= i < |h| ensures h[i] != ':' && h[i] != '/' && h[i] != '@' && h[i] != '?' && h[i] != '#' {
      assert IsHostChar(h[i]);
    }
  }

  lemma PortPartExcludes(port: int)
    requires port >= -1
    ensures '/' !in PortPart(port) && '@' !in PortPart(port) && '?' !in PortPart(port) && '#' !in PortPart(port)
  {
    if port != -1 {
      var d := DecimalString(port);
      forall i | 0 <= i < |d| ensures d[i] != '/' && d[i] != '@' && d[i] != '?' && d[i] != '#' {
        assert IsAsciiDigit(d[i]);
      }
    }
  }

  /** The authority of a composed URL has no '/', '@', '?' or '#'. */
  lemma ComposedAuthorityExcludes(u: Url)
    requires IsComposable(u)
    ensures var a := ComposedAuthorityText(u);
            '/' !in a && '@' !in a && '?' !in a && '#' !in a
  {
    HostNameExcludes(u.host);
    PortPartExcludes(u.port);
  }

  lemma ComposedRestParses(u: Url)
    requires IsComposable(u)
    ensures ParseAfterProtocol(u.protocol, ComposedRest(u)) == Some(u)
  {
    ParseAuthorityComposed(u.host, u.port);
    ComposedAuthorityExcludes(u);
    QueryFreeRest(u);
    ParseAfterProtocolAuthority(u.protocol, ComposedRest(u), ComposedAuthorityText(u), u.path);
  }

  lemma ComposedProtocol(u: Url)
    requires IsComposable(u)
    ensures ParseUrl(Compose(u)) == ParseAfterProtocol(u.protocol, ComposedRest(u))
  {
    TrimComposed(u);
    ParseUrlOfProtocol(Compose(u), u.protocol, ComposedRest(u));
  }

  /** How `ParseAfterProtocol` reads `//authority/path` without reference or query. */
  lemma ParseAfterProtocolAuthority(p: string, rest: string, authority: string, path: string)
    requires IsKnownProtocol(p)
    requires rest == "//" + authority + path && TakeUntil(TakeUntil(rest, '#'), '?') == rest
    requires '/' !in authority && (path == [] || path[0] == '/')
    ensures ParseAuthority(authority).None? ==> ParseAfterProtocol(p, rest).None?
    ensures ParseAuthority(authority).Some? ==>
              var hp := ParseAuthority(authority).value;
              ParseAfterProtocol(p, rest) == Some(Url(p, hp.0, hp.1, path))
  {
    AuthoritySplit(rest, authority, path);
  }

  /** Where `ParseAfterProtocol` finds the authority and the path of "//" + authority + path. */
  lemma AuthoritySplit(rest: string, authority: string, path: string)
    requires rest == "//" + authority + path
    requires '/' !in authority && (path == [] || path[0] == '/')
    ensures |rest| >= 2 && rest[..2] == "//"
    ensures TakeUntil(rest[2..], '/') == authority && rest[2 + |authority|..] == path
  {
    assert rest[..2] == "//" && rest[2..] == authority + path;
    TakeUntilSplit(authority, path, '/');
    assert rest[2 + |authority|..] == path;
  }

  /** How `ParseUrl` reads a trimmed `protocol:rest`. */
  lemma ParseUrlOfProtocol(spec: string, p: string, rest: string)
    requires Trim(spec) == spec && spec == p + ":" + rest && IsKnownProtocol(p)
    ensures ParseUrl(spec) == ParseAfterProtocol(p, rest)
  {
    IndexOfFirstColon(p, rest);
    KnownProtocolNoUpper(p);
    LowerAsciiOfNoUpper(p);
    assert spec[..|p|] == p && spec[|p| + 1..] == rest;
  }

  lemma KnownProtocolNoUpper(p: string)
    requires IsKnownProtocol(p)
    ensures |p| > 0 && forall i :: 0 <= i < |p| ==> !IsAsciiUpper(p[i])
  {
  }

  lemma LowerAsciiOfNoUpper(s: string)
    requires forall i :: 0 <= i < |s| ==> !IsAsciiUpper(s[i])
    ensures LowerAscii(s) == s
  {
    var l := LowerAscii(s);
    assert forall i :: 0 <= i < |s| ==> l[i] == s[i];
  }

  /** A composed URL has no reference and no query. */
  lemma QueryFreeRest(u: Url)
    requires IsComposable(u)
    ensures TakeUntil(TakeUntil(ComposedRest(u), '#'), '?') == ComposedRest(u)
  {
    ComposedAuthorityExcludes(u);
    TakeUntilAbsent(ComposedRest(u), '#');
    TakeUntilAbsent(ComposedRest(u), '?');
  }

  lemma TrimComposed(u: Url)
    requires IsComposable(u)
    ensures Trim(Compose(u)) == Compose(u)
    ensures Compose(u)[|Compose(u)| - 1] > ' '
  {
    var s := Compose(u);
    assert s[0] == u.protocol[0];
    assert s[|s| - 1] > ' ' by {
      if u.path != [] {
        assert s[|s| - 1] == u.path[|u.path| - 1];
      } else if u.port != -1 {
        var d := DecimalString(u.port);
        assert s[|s| - 1] == d[|d| - 1];
      } else if u.host != [] {
        assert s[|s| - 1] == u.host[|u.host| - 1];
      } else {
        assert s[|s| - 1] == '/';
      }
    }
    TrimUnchanged(s);
  }

  lemma IndexOfFirstColon(p: string, rest: string)
    requires ':' !in p
    ensures IndexOf(p + ":" + rest, ":") == |p|
  {
    var s := p + ":" + rest;
    assert OccursAt(s, ":", |p|);
    forall i | 0 <= i < |p| ensures !OccursAt(s, ":", i) {
      assert s[i] == p[i];
    }
  }

  /** The four protocols are written in lower-case ASCII letters. */
  lemma KnownProtocolLower(p: string)
    requires IsKnownProtocol(p)
    ensures |p| > 0 && forall i :: 0 <= i < |p| ==> IsAsciiLower(p[i])
  {
    if p == "http" {
    } else if p == "https" {
    } else if p == "ftp" {
    } else {
      assert p == "file";
    }
  }

  /** A text that lower-cases to a protocol is made of ASCII letters. */
  lemma SchemeTextLetters(p: string, protocol: string)
    requires IsKnownProtocol(protocol) && |p| == |protocol| && LowerAscii(p) == protocol
    ensures |p| > 0 && forall i :: 0 <= i < |p| ==> IsAsciiLetter(p[i])
  {
    KnownProtocolLower(protocol);
    forall i | 0 <= i < |p| ensures IsAsciiLetter(p[i]) {
      assert ToLowerAscii(p[i]) == protocol[i];
    }
  }

  /** A scheme of letters, its ':' and a rest that ends above U+0020: trimmed, with its first ':' after the scheme. */
  lemma SchemeColonText(p: string, rest: string)
    requires |p| > 0 && forall i :: 0 <= i < |p| ==> IsAsciiLetter(p[i])
    requires |rest| > 0 && rest[|rest| - 1] > ' '
    ensures var s := p + ":" + rest;
            && LeadingControls(s) == 0 && Trim(s) == s && !IsBlank(s)
            && IndexOf(s, ":") == |p| && s[..|p|] == p && s[|p| + 1..] == rest
  {
    var s := p + ":" + rest;
    assert s[|s| - 1] == rest[|rest| - 1];
    assert s[0] == p[0];
    TrimUnchanged(s);
    assert !IsWhitespace(s[0]);
    IndexOfFirstColon(p, rest);
    assert s[..|p|] == p && s[|p| + 1..] == rest;
  }

  /** The text of a composed URL with its scheme written as `p`. */
  lemma AnyCaseSchemeText(u: Url, p: string)
    requires IsComposable(u) && |p| == |u.protocol| && LowerAscii(p) == u.protocol
    ensures var s := p + ":" + ComposedRest(u);
            && LeadingControls(s) == 0 && Trim(s) == s && !IsBlank(s)
            && IndexOf(s, ":") == |p| && s[..|p|] == p && s[|p| + 1..] == ComposedRest(u)
  {
    var rest := ComposedRest(u);
    SchemeTextLetters(p, u.protocol);
    TrimComposed(u);
    assert Compose(u) == u.protocol + ":" + rest;
    SchemeColonText(p, rest);
  }

  /** `new URL` lower-cases the protocol it reads, so the scheme's letter case does not matter. */
  lemma ParseAnyCaseScheme(u: Url, p: string)
    requires IsComposable(u) && |p| == |u.protocol| && LowerAscii(p) == u.protocol
    ensures ToUrl(p + ":" + ComposedRest(u)) == Some(u)
  {
    AnyCaseSchemeText(u, p);
    ComposedRestParses(u);
  }

  /** `Spans` finds the parts of a composed URL at the same offsets whatever the scheme's letter case. */
  lemma SpansAnyCaseScheme(u: Url, p: string)
    requires IsComposable(u) && |p| == |u.protocol| && LowerAscii(p) == u.protocol
    ensures Spans(p + ":" + ComposedRest(u)) == Spans(Compose(u))
  {
    var rest := ComposedRest(u);
    var a := ComposedAuthorityText(u);
    AnyCaseSchemeText(u, p);
    ComposedSpansFacts(u);
    assert Compose(u) == u.protocol + ":" + rest;
    assert ReadsAuthority(p + ":" + rest, |p|, rest, a, u.host);
    SameRestSpans(p + ":" + rest, Compose(u), |p|, rest, a, u.host);
  }

  /** Two texts read the same way after the same first ':' have the same spans. */
  lemma SameRestSpans(s: string, c: string, colon: nat, rest: string, authority: string, host: string)
    requires ReadsAuthority(s, colon, rest, authority, host) && ReadsAuthority(c, colon, rest, authority, host)
    requires |s| == |c|
    ensures Spans(s) == Spans(c)
  {
    SpansWithAuthority(s, colon, rest, authority, host);
    SpansWithAuthority(c, colon, rest, authority, host);
  }

  /** A rest that does not start with "//" has no authority: it is the path, host "" and port -1. */
  lemma ParseWithoutAuthority(protocol: string, rest: string)
    requires IsKnownProtocol(protocol) && '?' !in rest && '#' !in rest
    requires |rest| < 2 || rest[..2] != "//"
    ensures ParseAfterProtocol(protocol, rest) == Some(Url(protocol, "", -1, rest))
  {
    TakeUntilAbsent(rest, '#');
    TakeUntilAbsent(rest, '?');
  }

  lemma TakeUntilAbsent(s: string, sep: char)
    requires sep !in s
    ensures TakeUntil(s, sep) == s
  {
  }

  lemma ParseAuthorityComposed(host: string, port: int)
    requires IsHostName(host) && -1 <= port <= MaxInt
    ensures ParseAuthority(host + PortPart(port)) == Some((host, port))
  {
    if port == -1 {
      assert host + PortPart(port) == host;
      ParseAuthorityHostOnly(host);
    } else {
      ParseAuthorityWithPort(host, port);
    }
  }

  lemma ParseAuthorityHostOnly(host: string)
    requires IsHostName(host)
    ensures ParseAuthority(host) == Some((host, -1))
  {
    HostNameExcludes(host);
    assert CountChar(host, '@') == 0;
    TakeUntilAbsent(host, ':');
  }

  lemma ParseAuthorityWithPort(host: string, port: int)
    requires IsHostName(host) && 0 <= port <= MaxInt
    ensures ParseAuthority(host + PortPart(port)) == Some((host, port))
  {
    var d := DecimalString(port);
    HostNameExcludes(host);
    PortPartExcludes(port);
    WithPortText(host, PortPart(port), d);
    DecimalRoundTrip(port);
    ParseAuthorityOfParts(host + PortPart(port), host, d, port);
  }

  /** The host and the text after the ':' of `host:digits`. */
  lemma WithPortText(host: string, p: string, d: string)
    requires ':' !in host && '@' !in host && '@' !in p && p == ":" + d
    ensures var a := host + p;
            && '@' !in a && |host| < |a| && a[|host| + 1..] == d && TakeUntil(a, ':') == host
  {
    TakeUntilSplit(host, p, ':');
    assert (host + p)[|host| + 1..] == d;
  }

  /** `ParseAuthority` of an authority without '@' whose port text is a number. */
  lemma ParseAuthorityOfParts(a: string, host: string, portText: string, port: int)
    requires '@' !in a && IsHostName(host) && TakeUntil(a, ':') == host
    requires |host| < |a| && a[|host| + 1..] == portText
    requires |portText| > 0 && IsDigits(portText) && DecimalValue(portText) == port <= MaxInt
    ensures ParseAuthority(a) == Some((host, port))
  {
    assert CountChar(a, '@') == 0;
  }

  // ---------------------------------------------------------------------
  // Where the parts are in the text
  // ---------------------------------------------------------------------

  /** The offsets in the URL text of the scheme, the host and the path (each from start to end). */
  datatype UrlSpans = UrlSpans(schemeStart: nat, schemeEnd: nat, hostStart: nat, hostEnd: nat,
                               pathStart: nat, pathEnd: nat)

  predicate Ordered(r: UrlSpans, n: nat) {
    r.schemeStart <= r.schemeEnd <= r.hostStart <= r.hostEnd <= r.pathStart <= r.pathEnd <= n
  }

  /**
   * The positions at which `ParseUrl` finds the protocol, the host and the
   * path: its reading of the trimmed text, as offsets in `spec`.
   */
  function Spans(spec: string): (r: UrlSpans)
    ensures Ordered(r, |spec|)
  {
    TrimmedSpans(LeadingControls(spec), Trim(spec), |spec|)
  }

  /** The spans of the trimmed text `t`, which starts at offset `l` of a text of length `n`. */
  function TrimmedSpans(l: nat, t: string, n: nat): (r: UrlSpans)
    requires l + |t| <= n
    ensures Ordered(r, n)
  {
    var colon := IndexOf(t, ":");
    if colon < 0 then UrlSpans(l, l, l, l, l, l)
    else RestSpans(l, l + colon, TakeUntil(TakeUntil(t[colon + 1..], '#'), '?'), n)
  }

  /** The spans of what follows the protocol's ':', which is at `schemeEnd`. */
  function RestSpans(schemeStart: nat, schemeEnd: nat, beforeQuery: string, n: nat): (r: UrlSpans)
    requires schemeStart <= schemeEnd && schemeEnd + 1 + |beforeQuery| <= n
    ensures Ordered(r, n)
  {
    var base := schemeEnd + 1;
    var pathEnd := base + |beforeQuery|;
    if |beforeQuery| >= 2 && beforeQuery[..2] == "//" then
      var authority := TakeUntil(beforeQuery[2..], '/');
      var at := HostOffset(authority);
      var host := TakeUntil(authority[at..], ':');
      UrlSpans(schemeStart, schemeEnd, base + 2 + at, base + 2 + at + |host|, base + 2 + |authority|, pathEnd)
    else
      UrlSpans(schemeStart, schemeEnd, base, base, base, pathEnd)
  }

  /** Where the host starts in an authority: after its '@', if any. */
  function HostOffset(authority: string): (at: nat)
    ensures at <= |authority|
    ensures '@' in authority ==> SubstringAfter(authority, "@") == authority[at..]
    ensures '@' !in authority ==> at == 0
  {
    if '@' in authority then
      var i :| 0 <= i < |authority| && authority[i] == '@';
      assert OccursAt(authority, "@", i);
      IndexOf(authority, "@") + 1
    else 0
  }

  /** In a composed URL the spans are where `Compose` wrote each part. */
  lemma SpansOfCompose(u: Url)
    requires IsComposable(u)
    ensures var r := Spans(Compose(u));
            var p := |u.protocol|;
            && r.schemeStart == 0 && r.schemeEnd == p && r.hostStart == p + 3
            && r.hostEnd == p + 3 + |u.host| && r.pathStart == p + 3 + |ComposedAuthorityText(u)|
            && r.pathEnd == |Compose(u)|
  {
    ComposedSpansFacts(u);
    SpansWithAuthority(Compose(u), |u.protocol|, ComposedRest(u), ComposedAuthorityText(u), u.host);
  }

  lemma ComposedSpansFacts(u: Url)
    requires IsComposable(u)
    ensures ReadsAuthority(Compose(u), |u.protocol|, ComposedRest(u), ComposedAuthorityText(u), u.host)
  {
    ComposedText(u, Compose(u), ComposedRest(u));
    ComposedAuthorityExcludes(u);
    QueryFreeRest(u);
    ComposedRestParts(u, ComposedRest(u), ComposedAuthorityText(u));
  }

  lemma ComposedText(u: Url, s: string, rest: string)
    requires IsComposable(u) && s == Compose(u) && rest == ComposedRest(u)
    ensures LeadingControls(s) == 0 && Trim(s) == s
    ensures IndexOf(s, ":") == |u.protocol| && s[|u.protocol| + 1..] == rest
  {
    TrimComposed(u);
    assert s[0] > ' ';
    IndexOfFirstColon(u.protocol, rest);
  }

  lemma ComposedRestParts(u: Url, rest: string, authority: string)
    requires IsHostName(u.host) && u.port >= -1 && (u.path == [] || u.path[0] == '/')
    requires authority == ComposedAuthorityText(u) && '/' !in authority
    requires rest == "//" + authority + u.path
    ensures |rest| >= 2 && rest[..2] == "//"
    ensures TakeUntil(rest[2..], '/') == authority && TakeUntil(authority[0..], ':') == u.host
  {
    assert rest[2..] == authority + u.path;
    TakeUntilSplit(authority, u.path, '/');
    assert ':' !in u.host;
    assert authority[0..] == authority;
    TakeUntilSplit(u.host, PortPart(u.port), ':');
  }

  /**
   * A trimmed spec whose first ':' is at `colon`, with no reference, no
   * query and no user information, and `//authority` after the ':'.
   */
  predicate ReadsAuthority(spec: string, colon: nat, rest: string, authority: string, host: string) {
    && LeadingControls(spec) == 0 && Trim(spec) == spec
    && IndexOf(spec, ":") == colon && colon < |spec| && rest == spec[colon + 1..]
    && TakeUntil(TakeUntil(rest, '#'), '?') == rest && |rest| >= 2 && rest[..2] == "//"
    && authority == TakeUntil(rest[2..], '/') && HostOffset(authority) == 0
    && host == TakeUntil(authority[0..], ':')
  }

  /** `Spans` of a trimmed spec whose text after the first ':' starts with an authority. */
  lemma SpansWithAuthority(spec: string, colon: nat, rest: string, authority: string, host: string)
    requires ReadsAuthority(spec, colon, rest, authority, host)
    ensures var r := Spans(spec);
            && r.schemeStart == 0 && r.schemeEnd == colon && r.hostStart == colon + 3
            && r.hostEnd == colon + 3 + |host| && r.pathStart == colon + 3 + |authority|
            && r.pathEnd == |spec|
  {
    SpansOfTrimmed(spec, colon, rest);
    RestSpansWithAuthority(colon, rest, authority, host, |spec|);
  }

  lemma SpansOfTrimmed(spec: string, colon: nat, rest: string)
    requires LeadingControls(spec) == 0 && Trim(spec) == spec
    requires IndexOf(spec, ":") == colon && colon < |spec| && rest == spec[colon + 1..]
    requires TakeUntil(TakeUntil(rest, '#'), '?') == rest
    ensures Spans(spec) == RestSpans(0, colon, rest, |spec|)
  {
    assert Spans(spec) == TrimmedSpans(0, spec, |spec|);
  }

  lemma RestSpansWithAuthority(colon: nat, rest: string, authority: string, host: string, n: nat)
    requires colon + 1 + |rest| <= n && |rest| >= 2 && rest[..2] == "//"
    requires authority == TakeUntil(rest[2..], '/') && HostOffset(authority) == 0
    requires host == TakeUntil(authority[0..], ':')
    ensures RestSpans(0, colon, rest, n) == UrlSpans(0, colon, colon + 3, colon + 3 + |host|,
                                                     colon + 3 + |authority|, colon + 1 + |rest|)
  {
  }
}
