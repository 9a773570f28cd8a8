/**
 * The `URLNormalizer` operations that read the host or the path back
 * through `toURL()` and then edit the URL text: `addWWW`, `removeWWW` and
 * `lowerCaseSchemeHost`. A `None` result is the `NullPointerException`
 * thrown when `toURL()` returns `null`.
 *
 * Where the source edits the first textual occurrence of the host or the
 * path (which may lie elsewhere in the URL), the member named `...AsWritten`
 * keeps that behaviour and the member without the suffix edits the part
 * where `Spans` locates it.
 */
module UrlHostPath {
  import opened Wrappers
  import opened JavaStrings
  import opened UrlParse

  // ---------------------------------------------------------------------
  // Composed URLs: where each part is in the text
  // ---------------------------------------------------------------------

  lemma ComposeParts(u: Url)
    requires u.port >= -1
    ensures Compose(u) == u.protocol + "://" + u.host + PortPart(u.port) + u.path
  {
  }

  /** The pieces of a five-piece concatenation, by offset. */
  lemma ConcatSlices(a: string, b: string, c: string, d: string, e: string)
    ensures var s := a + b + c + d + e;
            var i1 := |a|;
            var i2 := i1 + |b|;
            var i3 := i2 + |c|;
            var i4 := i3 + |d|;
            && |s| == i4 + |e|
            && s[..i1] == a && s[i1..i2] == b && s[i2..i3] == c && s[i3..i4] == d && s[i4..] == e
            && s[..i2] == a + b && s[..i3] == a + b + c && s[..i4] == a + b + c + d
            && s[i3..] == d + e && s[i2..] == c + d + e
  {
    var s := a + b + c + d + e;
    assert s[..|a|] == a;
    assert s[|a|..|a| + |b|] == b;
    assert s[|a| + |b|..|a| + |b| + |c|] == c;
    assert s[|a| + |b| + |c|..|a| + |b| + |c| + |d|] == d;
    assert s[|a| + |b| + |c| + |d|..] == e;
  }

  predicate IsProtocolLetter(c: char) {
    c == 'h' || c == 't' || c == 'p' || c == 's' || c == 'f' || c == 'i' || c == 'l' || c == 'e'
  }

  /** The four protocols are written in lower-case letters other than 'w'. */
  lemma KnownProtocolLetters(p: string)
    requires IsKnownProtocol(p)
    ensures |p| > 0 && LowerAscii(p) == p
    ensures forall i :: 0 <= i < |p| ==> IsAsciiLower(p[i]) && p[i] != 'w'
  {
    ProtocolLetters(p);
    LettersLower(p);
  }

  lemma LettersLower(p: string)
    requires forall i :: 0 <= i < |p| ==> IsProtocolLetter(p[i])
    ensures LowerAscii(p) == p
    ensures forall i :: 0 <= i < |p| ==> IsAsciiLower(p[i]) && p[i] != 'w'
  {
    assert forall i :: 0 <= i < |p| ==> LowerAscii(p)[i] == p[i];
  }

  lemma ProtocolLetters(p: string)
    requires IsKnownProtocol(p)
    ensures forall i :: 0 <= i < |p| ==> IsProtocolLetter(p[i])
  {
    if p == "http" {
    } else if p == "https" {
    } else if p == "ftp" {
    } else {
      assert p == "file";
    }
  }

  /** `toURL()` of a composed URL gives back its parts. */
  lemma ToUrlCompose(u: Url)
    requires IsComposable(u)
    ensures ToUrl(Compose(u)) == Some(u)
  {
    ParseCompose(u);
    KnownProtocolLetters(u.protocol);
    assert Compose(u)[0] == u.protocol[0];
  }

  /** The offsets `Compose` writes the scheme, host, port and path at. */
  function HostAt(u: Url): nat { |u.protocol| + 3 }
  function PortAt(u: Url): nat { HostAt(u) + |u.host| }
  function PathAt(u: Url): nat
    requires u.port >= -1
  {
    PortAt(u) + |PortPart(u.port)|
  }

  /** The text of each part of a composed URL. */
  lemma ComposeSlices(u: Url)
    requires u.port >= -1
    ensures var s := Compose(u);
            var p := |u.protocol|;
            && |s| == PathAt(u) + |u.path|
            && s[..p] == u.protocol && s[p..HostAt(u)] == "://"
            && s[HostAt(u)..PortAt(u)] == u.host && s[PortAt(u)..PathAt(u)] == PortPart(u.port)
            && s[PathAt(u)..] == u.path
            && s[..HostAt(u)] == u.protocol + "://"
            && s[..PortAt(u)] == u.protocol + "://" + u.host
            && s[..PathAt(u)] == u.protocol + "://" + u.host + PortPart(u.port)
            && s[PortAt(u)..] == PortPart(u.port) + u.path
            && s[HostAt(u)..] == u.host + PortPart(u.port) + u.path
  {
    ComposeParts(u);
    ConcatSlices(u.protocol, "://", u.host, PortPart(u.port), u.path);
  }

  /** Where `Spans` finds the parts of a composed URL. */
  lemma SpansAt(u: Url)
    requires IsComposable(u)
    ensures var r := Spans(Compose(u));
            && r.schemeStart == 0 && r.schemeEnd == |u.protocol| && r.hostStart == HostAt(u)
            && r.hostEnd == PortAt(u) && r.pathStart == PathAt(u) && r.pathEnd == |Compose(u)|
  {
    SpansOfCompose(u);
  }

  /** Composing with another host rewrites the host and nothing else. */
  lemma ComposeWithHost(u: Url, h: string)
    requires u.port >= -1
    ensures var s := Compose(u);
            Compose(u.(host := h)) == s[..HostAt(u)] + h + s[PortAt(u)..]
  {
    ComposeSlices(u);
    ComposeParts(u.(host := h));
  }

  /** Composing with another path rewrites the path and nothing else. */
  lemma ComposeWithPath(u: Url, path: string)
    requires u.port >= -1
    ensures var s := Compose(u);
            Compose(u.(path := path)) == s[..PathAt(u)] + path
  {
    ComposeSlices(u);
    ComposeParts(u.(path := path));
  }

  /** Replacing an occurrence of a string by itself changes nothing. */
  lemma ReplaceOnceSame(text: string, search: string)
    ensures ReplaceOnce(text, search, search) == text
  {
    var i := IndexOf(text, search);
    if |text| > 0 && |search| > 0 && i != -1 {
      assert text == text[..i] + text[i..i + |search|] + text[i + |search|..];
    }
  }

  // ---------------------------------------------------------------------
  // addWWW and removeWWW
  // ---------------------------------------------------------------------

  predicate StartsWithWww(host: string) {
    var l := LowerAscii(host);
    |l| >= 4 && l[..4] == "www."
  }

  /** `addWWW` as written: "www." goes before the first occurrence of the host text. */
  function AddWwwAsWritten(url: string): Option<string> {
    match ToUrl(url)
    case None => None
    case Some(u) =>
      if StartsWithWww(u.host) then Some(url) else Some(ReplaceOnce(url, u.host, "www." + u.host))
  }

  /** `addWWW` with "www." inserted where the host starts. */
  function AddWww(url: string): Option<string> {
    match ToUrl(url)
    case None => None
    case Some(u) =>
      if u.host == [] || StartsWithWww(u.host) then Some(url)
      else
        var h := Spans(url).hostStart;
        Some(url[..h] + "www." + url[h..])
  }

  /** Inserting the same text at two places gives two strings when the first place does not start like the text. */
  lemma InsertDiffers(s: string, i: nat, h: nat, t: string)
    requires i < h <= |s| && t != [] && s[i] != t[0]
    ensures s[..i] + t + s[i..] != s[..h] + t + s[h..]
  {
    assert (s[..i] + t + s[i..])[i] == t[0];
    assert (s[..h] + t + s[h..])[i] == s[i];
  }

  lemma WwwHostName(h: string)
    requires IsHostName(h)
    ensures IsHostName("www." + h)
  {
    var w := "www." + h;
    forall k | 0 <= k < |w| ensures IsHostChar(w[k]) {
      if k >= 4 {
        assert w[k] == h[k - 4];
      }
    }
  }


  /** Composing with a prefixed host inserts the prefix where the host starts. */
  lemma ComposeWithHostPrefix(u: Url, pre: string)
    requires u.port >= -1
    ensures var s := Compose(u);
            Compose(u.(host := pre + u.host)) == s[..HostAt(u)] + pre + s[HostAt(u)..]
  {
    ComposeSlices(u);
    ComposeParts(u.(host := pre + u.host));
  }

  /** How `AddWww` reads a URL whose host starts at `h`. */
  lemma AddWwwAt(s: string, u: Url, h: nat)
    requires ToUrl(s) == Some(u) && Spans(s).hostStart == h && u.host != [] && !StartsWithWww(u.host)
    ensures AddWww(s) == Some(s[..h] + "www." + s[h..])
  {
  }

  /** The host gains the "www." prefix and every other part is kept. */
  lemma AddWwwComposed(u: Url)
    requires IsComposable(u) && u.host != [] && !StartsWithWww(u.host)
    ensures AddWww(Compose(u)) == Some(Compose(u.(host := "www." + u.host)))
    ensures IsComposable(u.(host := "www." + u.host))
  {
    ToUrlCompose(u);
    SpansAt(u);
    AddWwwAt(Compose(u), u, HostAt(u));
    ComposeWithHostPrefix(u, "www.");
    WwwHostName(u.host);
  }

  /** The host of a composed URL occurs first inside the protocol when it occurs there at all. */
  lemma HostFoundInProtocol(u: Url, j: nat)
    requires IsComposable(u) && u.host != [] && OccursAt(u.protocol, u.host, j)
    ensures var s := Compose(u);
            var i := IndexOf(s, u.host);
            0 <= i < |u.protocol| && OccursAt(s, u.host, i) && s[i] != 'w'
  {
    var s := Compose(u);
    var p := |u.protocol|;
    ComposeSlices(u);
    KnownProtocolLetters(u.protocol);
    assert OccursAt(s, u.host, j) by {
      assert s[j..j + |u.host|] == s[..p][j..j + |u.host|];
    }
    var i := IndexOf(s, u.host);
    assert s[i] == s[..p][i];
  }

  /** `ReplaceOnce` of a text that occurs first at `i`. */
  lemma ReplaceOnceAt(s: string, t: string, repl: string, i: nat)
    requires t != [] && IndexOf(s, t) == i && OccursAt(s, t, i)
    ensures ReplaceOnce(s, t, repl) == s[..i] + repl + s[i + |t|..]
  {
  }

  /** Replacing an occurrence of `t` by `pre + t` inserts `pre` before it. */
  lemma PrefixOccurrence(s: string, t: string, pre: string, i: nat)
    requires OccursAt(s, t, i)
    ensures s[..i] + (pre + t) + s[i + |t|..] == s[..i] + pre + s[i..]
  {
    assert s[i..] == t + s[i + |t|..];
  }

  /** How `AddWwwAsWritten` reads a URL whose host first occurs at `i`. */
  lemma AddWwwAsWrittenAt(s: string, u: Url, i: nat)
    requires u.host != [] && !StartsWithWww(u.host)
    requires IndexOf(s, u.host) == i && OccursAt(s, u.host, i)
    ensures ReplaceOnce(s, u.host, "www." + u.host) == s[..i] + "www." + s[i..]
  {
    ReplaceOnceAt(s, u.host, "www." + u.host, i);
    PrefixOccurrence(s, u.host, "www.", i);
  }

  /**
   * When the host also occurs inside the protocol (host "p" in
   * "http://p/"), the as-written `addWWW` writes "www." into the protocol,
   * where the corrected result still has the protocol letter.
   */
  lemma AddWwwAsWrittenEditsProtocol(u: Url, j: nat)
    requires IsComposable(u) && u.host != [] && !StartsWithWww(u.host)
    requires OccursAt(u.protocol, u.host, j)
    ensures var i := IndexOf(Compose(u), u.host);
            && 0 <= i < |u.protocol|
            && AddWwwAsWritten(Compose(u)) == Some(Compose(u)[..i] + "www." + Compose(u)[i..])
            && AddWwwAsWritten(Compose(u)) != AddWww(Compose(u))
  {
    var s := Compose(u);
    var i := IndexOf(s, u.host);
    ToUrlCompose(u);
    SpansAt(u);
    HostFoundInProtocol(u, j);
    AddWwwAsWrittenAt(s, u, i);
    AddWwwAt(s, u, HostAt(u));
    InsertDiffers(s, i, HostAt(u), "www.");
  }

  /** `StringUtils.removeStartIgnoreCase(host, "www.")`. */
  function RemoveWwwPrefix(host: string): (r: string)
    ensures StartsWithIgnoreCase(host, "www.") ==> host == host[..4] + r
    ensures !StartsWithIgnoreCase(host, "www.") ==> r == host
  {
    if StartsWithIgnoreCase(host, "www.") then host[4..] else host
  }

  /** `removeWWW`: the first occurrence of the host text loses a leading "www.". */
  function RemoveWww(url: string): Option<string> {
    match ToUrl(url)
    case None => None
    case Some(u) => Some(ReplaceOnce(url, u.host, RemoveWwwPrefix(u.host)))
  }

  /** A host that begins with 'w' is first found at its own place in a composed URL. */
  lemma HostFirstFound(u: Url)
    requires IsComposable(u) && |u.host| > 0 && (u.host[0] == 'w' || u.host[0] == 'W')
    ensures IndexOf(Compose(u), u.host) == HostAt(u)
  {
    var s := Compose(u);
    var lead := u.protocol + "://";
    ComposedLead(u);
    KnownProtocolLetters(u.protocol);
    forall i | 0 <= i < HostAt(u) ensures s[i] != u.host[0] {
      assert s[i] == lead[i];
    }
    IndexOfAfterMisses(s, u.host, HostAt(u));
  }

  /** The composed text opens with the protocol and "://", and the host follows. */
  lemma ComposedLead(u: Url)
    requires u.port >= -1
    ensures var s := Compose(u);
            HostAt(u) <= |s| && s[..HostAt(u)] == u.protocol + "://" && OccursAt(s, u.host, HostAt(u))
  {
    ComposeSlices(u);
  }

  lemma HostOccurs(u: Url)
    requires u.port >= -1
    ensures OccursAt(Compose(u), u.host, HostAt(u))
  {
    ComposeSlices(u);
  }

  /** Composing with a shorter host: the host's first `n` characters go. */
  lemma ComposeWithHostSuffix(u: Url, n: nat)
    requires u.port >= -1 && n <= |u.host|
    ensures var s := Compose(u);
            Compose(u.(host := u.host[n..])) == s[..HostAt(u)] + u.host[n..] + s[HostAt(u) + |u.host|..]
  {
    ComposeSlices(u);
    ComposeParts(u.(host := u.host[n..]));
  }

  lemma WwwFirstChar(h: string)
    requires StartsWithIgnoreCase(h, "www.")
    ensures |h| >= 4 && RemoveWwwPrefix(h) == h[4..] && (h[0] == 'w' || h[0] == 'W')
  {
    assert CharEqualsIgnoreCase(h[..4][0], "www."[0]);
  }

  /** A "www." host loses the prefix; every other part is kept. */
  lemma RemoveWwwComposed(u: Url)
    requires IsComposable(u) && StartsWithIgnoreCase(u.host, "www.")
    ensures RemoveWww(Compose(u)) == Some(Compose(u.(host := u.host[4..])))
  {
    ToUrlCompose(u);
    WwwFirstChar(u.host);
    WwwHostReplaced(u);
  }

  lemma WwwHostReplaced(u: Url)
    requires IsComposable(u) && |u.host| >= 4 && (u.host[0] == 'w' || u.host[0] == 'W')
    ensures ReplaceOnce(Compose(u), u.host, u.host[4..]) == Compose(u.(host := u.host[4..]))
  {
    HostFirstFound(u);
    HostOccurs(u);
    ReplaceOnceAt(Compose(u), u.host, u.host[4..], HostAt(u));
    ComposeWithHostSuffix(u, 4);
  }

  /** A host without the prefix is left alone. */
  lemma RemoveWwwKeeps(url: string)
    requires ToUrl(url).Some? && !StartsWithIgnoreCase(ToUrl(url).value.host, "www.")
    ensures RemoveWww(url) == Some(url)
  {
    ReplaceOnceSame(url, ToUrl(url).value.host);
  }

  /** Removing "www." undoes adding it. */
  lemma RemoveWwwAfterAddWww(u: Url)
    requires IsComposable(u) && u.host != [] && !StartsWithWww(u.host)
    ensures AddWww(Compose(u)).Some?
    ensures RemoveWww(AddWww(Compose(u)).value) == Some(Compose(u))
  {
    var h := "www." + u.host;
    AddWwwComposed(u);
    assert StartsWithIgnoreCase(h, "www.") by {
      assert h[..4] == "www.";
    }
    WwwHostName(u.host);
    RemoveWwwComposed(u.(host := h));
    assert h[4..] == u.host;
    assert u.(host := h).(host := u.host) == u;
  }

  // ---------------------------------------------------------------------
  // lowerCaseSchemeHost
  // ---------------------------------------------------------------------

  /** One character of a protocol or host pattern against one of the text. */
  predicate PartCharMatches(c: char, pattern: char) {
    if pattern == '.' then !IsLineTerminator(c) else ToLowerAscii(c) == ToLowerAscii(pattern)
  }

  /**
   * The match of `Pattern.compile(part, CASE_INSENSITIVE)` at `i`, where
   * `part` is the protocol or host text: '.' matches any character but a
   * line terminator, and letters match in either ASCII case.
   */
  predicate PartPatternAt(s: string, part: string, i: nat) {
    i + |part| <= |s| && forall k :: 0 <= k < |part| ==> PartCharMatches(s[i + k], part[k])
  }

  /** The leftmost match at or after `from`, or -1. */
  function FindPartPattern(s: string, part: string, from: nat): (r: int)
    ensures r == -1 || (from <= r && PartPatternAt(s, part, r))
    ensures r != -1 ==> forall i :: from <= i < r ==> !PartPatternAt(s, part, i)
    ensures r == -1 ==> forall i :: from <= i ==> !PartPatternAt(s, part, i)
    decreases |s| - from
  {
    if from + |part| > |s| then -1
    else if PartPatternAt(s, part, from) then from
    else FindPartPattern(s, part, from + 1)
  }

  /** `Pattern.compile(part, CASE_INSENSITIVE).matcher(s).replaceFirst(repl)` for a replacement without '$' or '\'. */
  function ReplaceFirstPart(s: string, part: string, repl: string): string {
    var i := FindPartPattern(s, part, 0);
    if i == -1 then s else s[..i] + repl + s[i + |part|..]
  }

  /** `lowerCaseSchemeHost` as written: the protocol and then the host are found as patterns. */
  function LowerCaseSchemeHostAsWritten(url: string): Option<string> {
    match ToUrl(url)
    case None => None
    case Some(u) =>
      var withScheme := ReplaceFirstPart(url, u.protocol, LowerAscii(u.protocol));
      Some(ReplaceFirstPart(withScheme, u.host, LowerAscii(u.host)))
  }

  /** `lowerCaseSchemeHost` with the scheme and the host lower-cased where they are. */
  function LowerCaseSchemeHost(url: string): Option<string> {
    match ToUrl(url)
    case None => None
    case Some(_) =>
      var r := Spans(url);
      Some(url[..r.schemeStart] + LowerAscii(url[r.schemeStart..r.schemeEnd])
           + url[r.schemeEnd..r.hostStart] + LowerAscii(url[r.hostStart..r.hostEnd]) + url[r.hostEnd..])
  }

  lemma LowerAsciiTwice(s: string)
    ensures LowerAscii(LowerAscii(s)) == LowerAscii(s)
  {
    assert forall i :: 0 <= i < |s| ==> LowerAscii(LowerAscii(s))[i] == LowerAscii(s)[i];
  }

  lemma LowerAsciiHostName(h: string)
    requires IsHostName(h)
    ensures IsHostName(LowerAscii(h))
  {
    forall i | 0 <= i < |h| ensures IsHostChar(LowerAscii(h)[i]) {
      assert IsHostChar(h[i]);
    }
  }

  /** How `LowerCaseSchemeHost` reads a URL whose scheme and host are at the given offsets. */
  lemma LowerCaseSchemeHostAt(s: string, p: nat, h: nat, e: nat)
    requires ToUrl(s).Some?
    requires var r := Spans(s); r.schemeStart == 0 && r.schemeEnd == p && r.hostStart == h && r.hostEnd == e
    requires LowerAscii(s[..p]) == s[..p]
    ensures LowerCaseSchemeHost(s) == Some(s[..h] + LowerAscii(s[h..e]) + s[e..])
  {
    LoweredPrefix(s, p, h);
  }

  lemma LoweredPrefix(s: string, p: nat, h: nat)
    requires p <= h <= |s| && LowerAscii(s[..p]) == s[..p]
    ensures s[..0] + LowerAscii(s[0..p]) + s[p..h] == s[..h]
  {
    assert s[0..p] == s[..p];
    assert s[..h] == s[..p] + s[p..h];
  }

  /** The protocol of a composed URL is in lower case, and its host is between `HostAt` and `PortAt`. */
  lemma ComposedSchemeHost(u: Url)
    requires IsComposable(u)
    ensures var s := Compose(u);
            LowerAscii(s[..|u.protocol|]) == s[..|u.protocol|] && s[HostAt(u)..PortAt(u)] == u.host
  {
    ComposeSlices(u);
    KnownProtocolLetters(u.protocol);
  }

  /** The host is lower-cased and every other part is kept. */
  lemma LowerCaseSchemeHostComposed(u: Url)
    requires IsComposable(u)
    ensures LowerCaseSchemeHost(Compose(u)) == Some(Compose(u.(host := LowerAscii(u.host))))
    ensures IsComposable(u.(host := LowerAscii(u.host)))
  {
    ToUrlCompose(u);
    SpansAt(u);
    ComposedSchemeHost(u);
    LowerCaseSchemeHostAt(Compose(u), |u.protocol|, HostAt(u), PortAt(u));
    ComposeWithHost(u, LowerAscii(u.host));
    LowerAsciiHostName(u.host);
  }

  /** How `LowerCaseSchemeHost` reads a URL whose scheme, in any letter case, and host are at the given offsets. */
  lemma LowerCaseSchemeHostAnyCaseAt(s: string, p: nat, h: nat, e: nat)
    requires ToUrl(s).Some?
    requires var r := Spans(s); r.schemeStart == 0 && r.schemeEnd == p && r.hostStart == h && r.hostEnd == e
    ensures LowerCaseSchemeHost(s) == Some(LowerAscii(s[..p]) + s[p..h] + LowerAscii(s[h..e]) + s[e..])
  {
    assert s[0..p] == s[..p];
    assert s[..0] + LowerAscii(s[..p]) == LowerAscii(s[..p]);
  }

  /** Two texts that differ only in a prefix whose lower-case form is `low` give the same lowered text. */
  lemma LoweredSchemeSame(s: string, c: string, low: string, p: nat, h: nat, e: nat)
    requires p <= h <= e <= |s| == |c| && s[p..] == c[p..] && c[..p] == low
    ensures low + s[p..h] + LowerAscii(s[h..e]) + s[e..] == c[..h] + LowerAscii(c[h..e]) + c[e..]
  {
    SameFrom(s, c, p, h);
    SameFrom(s, c, p, e);
    assert c[..h] == c[..p] + c[p..h];
  }

  /** Texts that agree from `p` on agree on every slice from `i` on, and on the slice from `p` to `i`. */
  lemma SameFrom(s: string, c: string, p: nat, i: nat)
    requires p <= i <= |s| == |c| && s[p..] == c[p..]
    ensures s[p..i] == c[p..i] && s[i..] == c[i..]
  {
    forall k | p <= k < |s| ensures s[k] == c[k] {
      assert s[k] == s[p..][k - p] && c[k] == c[p..][k - p];
    }
  }

  /**
   * A scheme written in any letter case ("HTTP") is lower-cased together
   * with the host, and every other part is kept.
   */
  lemma LowerCaseSchemeHostAnyCase(u: Url, p: string)
    requires IsComposable(u) && |p| == |u.protocol| && LowerAscii(p) == u.protocol
    ensures LowerCaseSchemeHost(p + Compose(u)[|u.protocol|..]) == Some(Compose(u.(host := LowerAscii(u.host))))
  {
    var s := AnyCaseText(u, p);
    ParseAnyCaseScheme(u, p);
    SpansAnyCaseScheme(u, p);
    SpansAt(u);
    LowerCaseSchemeHostAnyCaseAt(s, |u.protocol|, HostAt(u), PortAt(u));
    AnyCaseLowered(u, p, s);
  }

  /** The text `LowerCaseSchemeHostAnyCaseAt` gives is the composed URL with its host lowered. */
  lemma AnyCaseLowered(u: Url, p: string, s: string)
    requires IsComposable(u) && |p| == |u.protocol| && LowerAscii(p) == u.protocol
    requires |s| == |Compose(u)| && s[..|p|] == p && s[|p|..] == Compose(u)[|u.protocol|..]
    ensures LowerAscii(s[..|p|]) + s[|p|..HostAt(u)] + LowerAscii(s[HostAt(u)..PortAt(u)]) + s[PortAt(u)..]
            == Compose(u.(host := LowerAscii(u.host)))
  {
    var c := Compose(u);
    ComposeSlices(u);
    LoweredSchemeSame(s, c, u.protocol, |p|, HostAt(u), PortAt(u));
    ComposeParts(u.(host := LowerAscii(u.host)));
  }

  /** A composed URL with its scheme written as `p`. */
  lemma AnyCaseText(u: Url, p: string) returns (s: string)
    requires IsComposable(u) && |p| == |u.protocol|
    ensures s == p + Compose(u)[|u.protocol|..] && s == p + ":" + ComposedRest(u)
    ensures |s| == |Compose(u)| && s[..|p|] == p && s[|p|..] == Compose(u)[|u.protocol|..]
  {
    var c := Compose(u);
    assert c == u.protocol + ":" + ComposedRest(u);
    assert c[|u.protocol|..] == ":" + ComposedRest(u);
    s := p + c[|u.protocol|..];
    assert s[..|p|] == p && s[|p|..] == c[|u.protocol|..];
  }

  /**
   * The method's documented example, for every host: "HTTP://" followed by
   * the host and "/" becomes "http://", the lower-cased host and "/"
   * ("HTTP://www.Example.com/" becomes "http://www.example.com/").
   */
  lemma LowerCaseSchemeHostExample(h: string)
    requires IsHostName(h)
    ensures LowerCaseSchemeHost("HTTP://" + h + "/") == Some("http://" + LowerAscii(h) + "/")
  {
    var u := ExampleParts(h);
    LowerCaseSchemeHostAnyCase(u, "HTTP");
  }

  /** The parts of the documented example and the texts they compose to. */
  lemma ExampleParts(h: string) returns (u: Url)
    requires IsHostName(h)
    ensures IsComposable(u) && |u.protocol| == 4 && LowerAscii("HTTP") == u.protocol
    ensures "HTTP" + Compose(u)[4..] == "HTTP://" + h + "/"
    ensures Compose(u.(host := LowerAscii(u.host))) == "http://" + LowerAscii(h) + "/"
  {
    u := Url("http", h, -1, "/");
    UpperHttp();
    ExampleText(h);
    ExampleLowered(h);
  }

  lemma ExampleText(h: string)
    ensures "HTTP" + Compose(Url("http", h, -1, "/"))[4..] == "HTTP://" + h + "/"
  {
    var u := Url("http", h, -1, "/");
    ComposeParts(u);
    assert Compose(u)[4..] == "://" + h + "/";
  }

  lemma ExampleLowered(h: string)
    ensures Compose(Url("http", LowerAscii(h), -1, "/")) == "http://" + LowerAscii(h) + "/"
  {
    ComposeParts(Url("http", LowerAscii(h), -1, "/"));
  }

  lemma UpperHttp()
    ensures LowerAscii("HTTP") == "http"
  {
    assert forall i :: 0 <= i < 4 ==> LowerAscii("HTTP")[i] == "http"[i];
  }

  /** Lower-casing a second time changes nothing. */
  lemma LowerCaseSchemeHostIdempotent(u: Url)
    requires IsComposable(u)
    ensures var once := LowerCaseSchemeHost(Compose(u));
            once.Some? && LowerCaseSchemeHost(once.value) == once
  {
    var l := u.(host := LowerAscii(u.host));
    LowerCaseSchemeHostComposed(u);
    LowerCaseSchemeHostComposed(l);
    LowerAsciiTwice(u.host);
    assert l.(host := LowerAscii(l.host)) == l;
  }

  /** A text that starts with a protocol is matched by the protocol's pattern at 0. */
  lemma ProtocolPatternAtStart(s: string, t: string)
    requires |t| <= |s| && s[..|t|] == t
    requires forall i :: 0 <= i < |t| ==> IsProtocolLetter(t[i])
    ensures PartPatternAt(s, t, 0)
  {
    forall k | 0 <= k < |t| ensures PartCharMatches(s[k], t[k]) {
      assert s[k] == s[..|t|][k];
    }
  }

  /** Replacing a match at 0 of a prefix by that prefix changes nothing. */
  lemma ReplacedInPlaceAtStart(s: string, t: string)
    requires |t| <= |s| && s[..|t|] == t && PartPatternAt(s, t, 0)
    ensures ReplaceFirstPart(s, t, t) == s
  {
    var i := FindPartPattern(s, t, 0);
    assert i == 0;
    assert s[..0] + t + s[|t|..] == s[..|t|] + s[|t|..];
  }

  /** A text that starts with a protocol is left as it was by lower-casing the protocol's first match. */
  lemma ProtocolReplacedInPlace(s: string, t: string)
    requires |t| <= |s| && s[..|t|] == t
    requires forall i :: 0 <= i < |t| ==> IsProtocolLetter(t[i])
    ensures ReplaceFirstPart(s, t, LowerAscii(t)) == s
  {
    LettersLower(t);
    ProtocolPatternAtStart(s, t);
    ReplacedInPlaceAtStart(s, t);
  }

  /** The protocol of a composed URL is the first match of its own pattern, and replacing it changes nothing. */
  lemma SchemeReplacedInPlace(u: Url)
    requires IsComposable(u)
    ensures ReplaceFirstPart(Compose(u), u.protocol, LowerAscii(u.protocol)) == Compose(u)
  {
    ComposeSlices(u);
    ProtocolLetters(u.protocol);
    ProtocolReplacedInPlace(Compose(u), u.protocol);
  }

  /** A pattern that matches in a prefix of the text matches in the text. */
  lemma PatternInPrefix(s: string, t: string, part: string, j: nat)
    requires PartPatternAt(t, part, j) && |t| <= |s| && s[..|t|] == t
    ensures PartPatternAt(s, part, j)
  {
    forall m | 0 <= m < |part| ensures PartCharMatches(s[j + m], part[m]) {
      assert s[j + m] == s[..|t|][j + m];
    }
  }

  /** Replacing a piece by one of the same length keeps every character after it. */
  lemma ReplacedKeepsAfter(s: string, i: nat, repl: string, n: nat, m: nat)
    requires i + n <= m < |s| && |repl| == n
    ensures m < |s[..i] + repl + s[i + n..]| && (s[..i] + repl + s[i + n..])[m] == s[m]
  {
  }

  /** A host pattern that matches inside the protocol is first matched there, and the host is left as it was. */
  lemma HostPatternInProtocol(u: Url, j: nat, k: nat)
    requires IsComposable(u) && PartPatternAt(u.protocol, u.host, j) && k < |u.host|
    ensures var r := ReplaceFirstPart(Compose(u), u.host, LowerAscii(u.host));
            HostAt(u) + k < |r| && r[HostAt(u) + k] == u.host[k]
  {
    var s := Compose(u);
    ComposedHostChar(u, k);
    PatternInPrefix(s, u.protocol, u.host, j);
    ReplaceFirstPartKeepsAfter(s, u.host, LowerAscii(u.host), j, HostAt(u) + k);
  }

  /** Where the protocol and each host character sit in the composed text. */
  lemma ComposedHostChar(u: Url, k: nat)
    requires u.port >= -1 && k < |u.host|
    ensures var s := Compose(u);
            && |u.protocol| <= |s| && s[..|u.protocol|] == u.protocol
            && HostAt(u) + k < |s| && s[HostAt(u) + k] == u.host[k]
  {
    var s := Compose(u);
    ComposeSlices(u);
    assert s[HostAt(u) + k] == s[HostAt(u)..PortAt(u)][k];
  }

  /** Once the pattern matches at `j`, a same-length replacement keeps every character after that match. */
  lemma ReplaceFirstPartKeepsAfter(s: string, part: string, repl: string, j: nat, m: nat)
    requires PartPatternAt(s, part, j) && |repl| == |part| && j + |part| <= m < |s|
    ensures var r := ReplaceFirstPart(s, part, repl);
            m < |r| && r[m] == s[m]
  {
    var i := FindPartPattern(s, part, 0);
    assert 0 <= i <= j;
    ReplacedKeepsAfter(s, i, repl, |part|, m);
  }

  /** The corrected result has the lower-cased host character. */
  lemma LoweredHostChar(u: Url, k: nat)
    requires IsComposable(u) && k < |u.host|
    ensures Compose(u.(host := LowerAscii(u.host)))[HostAt(u) + k] == ToLowerAscii(u.host[k])
  {
    var l := u.(host := LowerAscii(u.host));
    ComposeSlices(l);
    var c := Compose(l);
    assert c[HostAt(u) + k] == c[HostAt(l)..PortAt(l)][k];
  }

  /**
   * When the host also matches inside the protocol (host "P" in
   * "http://P/"), the as-written `lowerCaseSchemeHost` rewrites that part
   * of the protocol and leaves an upper-case host as it was.
   */
  lemma LowerCaseSchemeHostAsWrittenKeepsHost(u: Url, j: nat, k: nat)
    requires IsComposable(u) && PartPatternAt(u.protocol, u.host, j)
    requires k < |u.host| && IsAsciiUpper(u.host[k])
    ensures var r := LowerCaseSchemeHostAsWritten(Compose(u));
            r.Some? && HostAt(u) + k < |r.value| && r.value[HostAt(u) + k] == u.host[k]
    ensures LowerCaseSchemeHostAsWritten(Compose(u)) != LowerCaseSchemeHost(Compose(u))
  {
    ToUrlCompose(u);
    SchemeReplacedInPlace(u);
    HostPatternInProtocol(u, j, k);
    LowerCaseSchemeHostComposed(u);
    LoweredHostChar(u, k);
  }
}
