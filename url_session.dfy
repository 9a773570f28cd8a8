/**
 * `URLNormalizer.removeSessionIds`: a Java EE `;jsessionid=` path parameter,
 * or else one PHP or ASP session parameter of the query, is removed. The
 * three regular expressions are written out as scans for their leftmost
 * match.
 */
module UrlSession {
  import opened Wrappers
  import opened JavaStrings

  const JSessionMarker: string := ";jsessionid="
  const PhpMarker: string := "PHPSESSID="
  const AspMarker: string := "ASPSESSIONID"

  /** The length of the longest prefix of `s` whose characters are all in the class. */
  function RunLength(s: string, inClass: char -> bool): (n: nat)
    ensures n <= |s|
    ensures forall i :: 0 <= i < n ==> inClass(s[i])
    ensures n < |s| ==> !inClass(s[n])
  {
    if s != [] && inClass(s[0]) then 1 + RunLength(s[1..], inClass) else 0
  }

  // ---------------------------------------------------------------------
  // ;jsessionid=[0-9a-fA-F]*
  // ---------------------------------------------------------------------

  /**
   * `url.replaceFirst("(;jsessionid=[0-9a-fA-F]*)", "")`: the first exact
   * (case-sensitive) marker and the hexadecimal digits after it go.
   */
  function RemoveJSessionId(url: string): string {
    var i := IndexOf(url, JSessionMarker);
    if i == -1 then url
    else
      var idStart := i + |JSessionMarker|;
      url[..i] + url[idStart + RunLength(url[idStart..], IsHexDigit)..]
  }

  // ---------------------------------------------------------------------
  // (&|^)(PHPSESSID=[0-9a-zA-Z]*) and (&|^)(ASPSESSIONID[a-zA-Z]{8}=[a-zA-Z]*)
  // ---------------------------------------------------------------------

  datatype SessionKind = Php | Asp

  /** The length of the second group matched at the start of `s`, if it matches there. */
  function SessionParamLength(s: string, kind: SessionKind): (n: Option<nat>)
    ensures n.Some? ==> 0 < n.value <= |s|
  {
    match kind
    case Php =>
      if OccursAt(s, PhpMarker, 0) then
        Some(|PhpMarker| + RunLength(s[|PhpMarker|..], IsAsciiAlphanumeric))
      else None
    case Asp =>
      var nameEnd := |AspMarker| + 8;
      if OccursAt(s, AspMarker, 0) && nameEnd < |s|
         && (forall k :: |AspMarker| <= k < nameEnd ==> IsAsciiLetter(s[k]))
         && s[nameEnd] == '='
      then Some(nameEnd + 1 + RunLength(s[nameEnd + 1..], IsAsciiLetter))
      else None
  }

  /**
   * Where a match of `(&|^)(...)` that starts at `i` ends: the '&'
   * alternative is tried first, the start anchor only at position 0.
   */
  function MatchAt(q: string, i: nat, kind: SessionKind): (e: Option<nat>)
    ensures e.Some? ==> i < e.value <= |q|
  {
    if i < |q| && q[i] == '&' && SessionParamLength(q[i + 1..], kind).Some? then
      Some(i + 1 + SessionParamLength(q[i + 1..], kind).value)
    else if i == 0 && SessionParamLength(q, kind).Some? then
      SessionParamLength(q, kind)
    else None
  }

  /** The leftmost match at or after `from`, as `Matcher.find` reports it. */
  function FindFrom(q: string, kind: SessionKind, from: nat): (m: Option<(nat, nat)>)
    requires from <= |q|
    ensures m.Some? ==> from <= m.value.0 && MatchAt(q, m.value.0, kind) == Some(m.value.1)
    decreases |q| - from
  {
    if from == |q| then None
    else if MatchAt(q, from, kind).Some? then Some((from, MatchAt(q, from, kind).value))
    else FindFrom(q, kind, from + 1)
  }

  /** Where the search from `from` stops: at the match it reports, or at the end. */
  function SearchEnd(q: string, kind: SessionKind, from: nat): (e: nat)
    requires from <= |q|
    ensures from <= e <= |q|
  {
    match FindFrom(q, kind, from)
    case Some(m) => m.0
    case None => |q|
  }

  /** `find` reports the leftmost match: there is none before it, and none at all when it reports none. */
  lemma {:induction false} FindFromLeftmost(q: string, kind: SessionKind, from: nat)
    requires from <= |q|
    ensures forall j :: from <= j < SearchEnd(q, kind, from) ==> MatchAt(q, j, kind).None?
    decreases |q| - from
  {
    if from < |q| && MatchAt(q, from, kind).None? {
      FindFromLeftmost(q, kind, from + 1);
      LeftmostStep(q, kind, from);
    } else if from < |q| {
      assert SearchEnd(q, kind, from) == from;
    }
  }

  /** Without a match at `from`, no match before the end of the search from the next position is none before its own end. */
  lemma LeftmostStep(q: string, kind: SessionKind, from: nat)
    requires from < |q| && MatchAt(q, from, kind).None?
    requires forall j :: from + 1 <= j < SearchEnd(q, kind, from + 1) ==> MatchAt(q, j, kind).None?
    ensures forall j :: from <= j < SearchEnd(q, kind, from) ==> MatchAt(q, j, kind).None?
  {
    var e := SearchEnd(q, kind, from + 1);
    FindFromSkips(q, kind, from);
    assert SearchEnd(q, kind, from) == e;
    forall j | from <= j < e ensures MatchAt(q, j, kind).None? {
      if j != from {
        assert from + 1 <= j < e;
      }
    }
  }

  /** Without a match at `from`, the search goes on from the next position. */
  lemma FindFromSkips(q: string, kind: SessionKind, from: nat)
    requires from < |q| && MatchAt(q, from, kind).None?
    ensures FindFrom(q, kind, from) == FindFrom(q, kind, from + 1)
  {
  }

  /** `q.replaceFirst(pattern, "")` for the PHP or ASP pattern. */
  function RemoveFirstParam(q: string, kind: SessionKind): string {
    match FindFrom(q, kind, 0)
    case None => q
    case Some(m) => q[..m.0] + q[m.1..]
  }

  /** `StringUtils.removeStart(q, "&")`. */
  function RemoveLeadingAmpersand(q: string): (r: string)
    ensures |q| > 0 && q[0] == '&' ==> q == "&" + r
    ensures !(|q| > 0 && q[0] == '&') ==> r == q
  {
    if |q| > 0 && q[0] == '&' then q[1..] else q
  }

  /** `removeSessionIds` on the URL text. */
  function RemoveSessionIds(url: string): string {
    if ContainsIgnoreCase(url, JSessionMarker) then RemoveJSessionId(url)
    else
      var u := SubstringBefore(url, "?");
      var q := SubstringAfter(url, "?");
      var q' := if ContainsIgnoreCase(url, PhpMarker) then RemoveFirstParam(q, Php)
                else if ContainsIgnoreCase(url, AspMarker) then RemoveFirstParam(q, Asp)
                else q;
      if IsBlank(q') then u else u + "?" + RemoveLeadingAmpersand(q')
  }

  // ---------------------------------------------------------------------
  // Properties
  // ---------------------------------------------------------------------

  lemma {:induction false} RunLengthOf(s: string, inClass: char -> bool, n: nat)
    requires n <= |s| && (forall i :: 0 <= i < n ==> inClass(s[i])) && (n < |s| ==> !inClass(s[n]))
    ensures RunLength(s, inClass) == n
  {
    if n > 0 {
      RunLengthOf(s[1..], inClass, n - 1);
    }
  }

  /**
   * The documented example, generalized: a jsessionid made of hexadecimal
   * digits is cut out of a URL that has no ';' before it, and only that one.
   */
  lemma RemovesJSessionId(a: string, id: string, b: string)
    requires ';' !in a
    requires forall k :: 0 <= k < |id| ==> IsHexDigit(id[k])
    requires b == [] || !IsHexDigit(b[0])
    ensures RemoveSessionIds(a + JSessionMarker + id + b) == a + b
  {
    var url := a + JSessionMarker + id + b;
    FirstJSessionMarker(a, id + b);
    assert url == a + JSessionMarker + (id + b);
    assert ContainsIgnoreCase(url, JSessionMarker) by {
      assert url[|a|..][..|JSessionMarker|] == JSessionMarker;
      assert StartsWithIgnoreCase(url[|a|..], JSessionMarker);
    }
    JSessionIdCut(a, id, b);
  }

  /** With no ';' before it, the marker after `a` is the first one. */
  lemma FirstJSessionMarker(a: string, rest: string)
    requires ';' !in a
    ensures IndexOf(a + JSessionMarker + rest, JSessionMarker) == |a|
  {
    var url := a + JSessionMarker + rest;
    assert url[|a|..|a| + |JSessionMarker|] == JSessionMarker;
    forall j | 0 <= j < |a| ensures !OccursAt(url, JSessionMarker, j) {
      assert url[j] == a[j];
      NotOccursAt(url, JSessionMarker, j);
    }
    IndexOfIs(url, JSessionMarker, |a|);
  }

  /** The marker at `|a|` and the digits after it are cut out. */
  lemma JSessionIdCut(a: string, id: string, b: string)
    requires IndexOf(a + JSessionMarker + id + b, JSessionMarker) == |a|
    requires forall k :: 0 <= k < |id| ==> IsHexDigit(id[k])
    requires b == [] || !IsHexDigit(b[0])
    ensures RemoveJSessionId(a + JSessionMarker + id + b) == a + b
  {
    var url := a + JSessionMarker + id + b;
    var n := |a| + |JSessionMarker|;
    assert url[n..] == id + b && url[..|a|] == a;
    RunLengthOf(id + b, IsHexDigit, |id|);
    assert url[n + |id|..] == b;
  }

  /** The removal takes out nothing but the leftmost session parameter. */
  lemma RemoveFirstParamRemovesOne(q: string, kind: SessionKind)
    requires FindFrom(q, kind, 0).Some?
    ensures var m := FindFrom(q, kind, 0).value;
            var r := RemoveFirstParam(q, kind);
            |r| < |q| && q == r[..m.0] + q[m.0..m.1] + r[m.0..]
            && (q[m.0] == '&' || m.0 == 0)
  {
    var m := FindFrom(q, kind, 0).value;
    MatchAtStarts(q, m.0, kind);
    CutOut(q, m.0, m.1);
  }

  /** A match starts with its '&' or at the start of the query. */
  lemma MatchAtStarts(q: string, i: nat, kind: SessionKind)
    requires MatchAt(q, i, kind).Some?
    ensures i < |q| && (q[i] == '&' || i == 0)
  {
  }

  /** Cutting out `q[i..j]` and putting it back. */
  lemma CutOut(q: string, i: nat, j: nat)
    requires i < j <= |q|
    ensures var r := q[..i] + q[j..];
            |r| < |q| && q == r[..i] + q[i..j] + r[i..]
  {
    var r := q[..i] + q[j..];
    assert r[..i] == q[..i];
    assert r[i..] == q[j..];
  }

  /** A PHP session id that opens the query is removed with the '&' after it. */
  lemma RemovesLeadingPhpSessionId(u: string, id: string, rest: string)
    requires '?' !in u && ';' !in u && ';' !in rest
    requires forall k :: 0 <= k < |id| ==> IsAsciiAlphanumeric(id[k])
    ensures RemoveSessionIds(u + "?" + PhpMarker + id + "&" + rest) == u + "?" + rest
  {
    var q := PhpMarker + id + "&" + rest;
    var url := u + "?" + q;
    assert url == u + "?" + PhpMarker + id + "&" + rest;
    NoSemicolonInQuery(u, id, rest);
    assert q[..|PhpMarker|] == PhpMarker;
    HasMarker(u, q, PhpMarker);
    LeadingPhpParam(id, rest);
    LeadingParamRemoved(url, u, q, Php, rest);
  }

  /**
   * Once the branch for `kind` is taken and its pattern removes a leading
   * parameter, leaving "&" + `rest`, the URL keeps its path and `rest`.
   */
  lemma LeadingParamRemoved(url: string, u: string, q: string, kind: SessionKind, rest: string)
    requires '?' !in u && url == u + "?" + q && ';' !in url
    requires kind == Php ==> ContainsIgnoreCase(url, PhpMarker)
    requires kind == Asp ==> !ContainsIgnoreCase(url, PhpMarker) && ContainsIgnoreCase(url, AspMarker)
    requires RemoveFirstParam(q, kind) == "&" + rest
    ensures RemoveSessionIds(url) == u + "?" + rest
  {
    NoSemicolonNoJSession(url);
    SplitAtQuestionMark(u, q);
    if kind == Php {
      PhpBranch(url, u, q);
    } else {
      AspBranch(url, u, q);
    }
    var q' := "&" + rest;
    assert !IsBlank(q') by {
      assert !IsWhitespace(q'[0]);
    }
    assert RemoveLeadingAmpersand(q') == rest by {
      assert q'[1..] == rest;
    }
  }

  /** Without a jsessionid marker and with the PHP marker, the PHP parameter is removed from the query. */
  lemma PhpBranch(url: string, u: string, q: string)
    requires !ContainsIgnoreCase(url, JSessionMarker) && ContainsIgnoreCase(url, PhpMarker)
    requires SubstringBefore(url, "?") == u && SubstringAfter(url, "?") == q
    ensures var q' := RemoveFirstParam(q, Php);
            RemoveSessionIds(url) == if IsBlank(q') then u else u + "?" + RemoveLeadingAmpersand(q')
  {
  }

  /** A query that opens with a marker puts the marker in the URL. */
  lemma HasMarker(u: string, q: string, marker: string)
    requires |q| >= |marker| && q[..|marker|] == marker
    ensures ContainsIgnoreCase(u + "?" + q, marker)
  {
    var url := u + "?" + q;
    assert url[|u| + 1..] == q;
    assert StartsWithIgnoreCase(url[|u| + 1..], marker) by {
      assert q[..|marker|] == marker;
    }
  }

  lemma NoSemicolonInQuery(u: string, id: string, rest: string)
    requires ';' !in u && ';' !in rest
    requires forall k :: 0 <= k < |id| ==> IsAsciiAlphanumeric(id[k])
    ensures ';' !in u + "?" + PhpMarker + id + "&" + rest
  {
    assert ';' !in id by {
      assert forall k :: 0 <= k < |id| ==> id[k] != ';';
    }
  }

  /** The PHP pattern matches a leading `PHPSESSID=...` up to the next '&'. */
  lemma LeadingPhpParam(id: string, rest: string)
    requires forall k :: 0 <= k < |id| ==> IsAsciiAlphanumeric(id[k])
    ensures RemoveFirstParam(PhpMarker + id + "&" + rest, Php) == "&" + rest
  {
    var q := PhpMarker + id + "&" + rest;
    LeadingPhpMatch(q, id, "&" + rest);
    assert FindFrom(q, Php, 0) == Some((0, |PhpMarker| + |id|));
    assert q[|PhpMarker| + |id|..] == "&" + rest;
  }

  /** The match at position 0 of a text that starts with `PHPSESSID=` and an alphanumeric run. */
  lemma LeadingPhpMatch(q: string, id: string, tail: string)
    requires forall k :: 0 <= k < |id| ==> IsAsciiAlphanumeric(id[k])
    requires q == PhpMarker + id + tail && |tail| > 0 && tail[0] == '&'
    ensures MatchAt(q, 0, Php) == Some(|PhpMarker| + |id|)
  {
    assert OccursAt(q, PhpMarker, 0) by {
      assert q[..|PhpMarker|] == PhpMarker;
    }
    assert q[|PhpMarker|..] == id + tail;
    RunLengthOf(id + tail, IsAsciiAlphanumeric, |id|);
    assert q[0] != '&';
  }

  /**
   * An ASP session id that opens the query is removed with the '&' after
   * it, when the URL holds no PHP marker (the PHP pattern is tried first).
   */
  lemma RemovesLeadingAspSessionId(u: string, name: string, id: string, rest: string)
    requires '?' !in u && ';' !in u && ';' !in rest
    requires |name| == 8 && forall k :: 0 <= k < 8 ==> IsAsciiLetter(name[k])
    requires forall k :: 0 <= k < |id| ==> IsAsciiLetter(id[k])
    requires !ContainsIgnoreCase(u + "?" + AspMarker + name + "=" + id + "&" + rest, PhpMarker)
    ensures RemoveSessionIds(u + "?" + AspMarker + name + "=" + id + "&" + rest) == u + "?" + rest
  {
    var q := AspMarker + name + "=" + id + "&" + rest;
    var url := u + "?" + q;
    assert url == u + "?" + AspMarker + name + "=" + id + "&" + rest;
    NoSemicolonInAspQuery(u, name, id, rest);
    assert q[..|AspMarker|] == AspMarker;
    HasMarker(u, q, AspMarker);
    LeadingAspParam(name, id, rest);
    LeadingParamRemoved(url, u, q, Asp, rest);
  }

  /** With neither the jsessionid nor the PHP marker but with the ASP one, the ASP parameter is removed from the query. */
  lemma AspBranch(url: string, u: string, q: string)
    requires !ContainsIgnoreCase(url, JSessionMarker) && !ContainsIgnoreCase(url, PhpMarker)
    requires ContainsIgnoreCase(url, AspMarker)
    requires SubstringBefore(url, "?") == u && SubstringAfter(url, "?") == q
    ensures var q' := RemoveFirstParam(q, Asp);
            RemoveSessionIds(url) == if IsBlank(q') then u else u + "?" + RemoveLeadingAmpersand(q')
  {
  }

  lemma NoSemicolonInAspQuery(u: string, name: string, id: string, rest: string)
    requires ';' !in u && ';' !in rest
    requires forall k :: 0 <= k < |name| ==> IsAsciiLetter(name[k])
    requires forall k :: 0 <= k < |id| ==> IsAsciiLetter(id[k])
    ensures ';' !in u + "?" + AspMarker + name + "=" + id + "&" + rest
  {
    assert ';' !in name by {
      assert forall k :: 0 <= k < |name| ==> name[k] != ';';
    }
    assert ';' !in id by {
      assert forall k :: 0 <= k < |id| ==> id[k] != ';';
    }
  }

  /** The ASP pattern matches a leading `ASPSESSIONID`, eight letters, '=' and a letter run up to the next '&'. */
  lemma LeadingAspParam(name: string, id: string, rest: string)
    requires |name| == 8 && forall k :: 0 <= k < 8 ==> IsAsciiLetter(name[k])
    requires forall k :: 0 <= k < |id| ==> IsAsciiLetter(id[k])
    ensures RemoveFirstParam(AspMarker + name + "=" + id + "&" + rest, Asp) == "&" + rest
  {
    var q := AspMarker + name + "=" + id + "&" + rest;
    var e := |AspMarker| + 9 + |id|;
    LeadingAspMatch(q, name, id, "&" + rest);
    assert FindFrom(q, Asp, 0) == Some((0, e));
    assert q[e..] == "&" + rest;
  }

  /** The match at position 0 of a text that starts with an ASP session parameter. */
  lemma LeadingAspMatch(q: string, name: string, id: string, tail: string)
    requires |name| == 8 && forall k :: 0 <= k < 8 ==> IsAsciiLetter(name[k])
    requires forall k :: 0 <= k < |id| ==> IsAsciiLetter(id[k])
    requires q == AspMarker + name + "=" + id + tail && |tail| > 0 && tail[0] == '&'
    ensures MatchAt(q, 0, Asp) == Some(|AspMarker| + 9 + |id|)
  {
    var nameEnd := |AspMarker| + 8;
    assert OccursAt(q, AspMarker, 0) by {
      assert q[..|AspMarker|] == AspMarker;
    }
    forall k | |AspMarker| <= k < nameEnd ensures IsAsciiLetter(q[k]) {
      assert q[k] == name[k - |AspMarker|];
    }
    assert q[nameEnd] == '=';
    assert q[nameEnd + 1..] == id + tail;
    RunLengthOf(id + tail, IsAsciiLetter, |id|);
    assert q[0] != '&';
  }

  /** A URL without ';' has no jsessionid marker in any letter case. */
  lemma NoSemicolonNoJSession(url: string)
    requires ';' !in url
    ensures !ContainsIgnoreCase(url, JSessionMarker)
  {
    forall i | 0 <= i <= |url| - |JSessionMarker| ensures !StartsWithIgnoreCase(url[i..], JSessionMarker) {
      assert url[i..][0] == url[i];
      assert !CharEqualsIgnoreCase(url[i], ';');
    }
  }

  /** Java's first-'?' split of `u + "?" + q` for a `u` without '?'. */
  lemma SplitAtQuestionMark(u: string, q: string)
    requires '?' !in u
    ensures SubstringBefore(u + "?" + q, "?") == u && SubstringAfter(u + "?" + q, "?") == q
  {
    var url := u + "?" + q;
    assert OccursAt(url, "?", |u|) by {
      assert url[|u|..|u| + 1] == "?";
    }
    forall j | 0 <= j < |u| ensures !OccursAt(url, "?", j) {
      assert url[j] == u[j];
      NotOccursAt(url, "?", j);
    }
    assert url[..|u|] == u && url[|u| + 1..] == q;
  }

  /**
   * A URL without any session marker keeps its path and non-blank query;
   * only a leading '&' of the query, or a blank query with its '?', goes.
   */
  lemma RemoveSessionIdsWithoutIds(u: string, q: string)
    requires '?' !in u
    requires !ContainsIgnoreCase(u + "?" + q, JSessionMarker)
    requires !ContainsIgnoreCase(u + "?" + q, PhpMarker) && !ContainsIgnoreCase(u + "?" + q, AspMarker)
    ensures RemoveSessionIds(u + "?" + q) == if IsBlank(q) then u else u + "?" + RemoveLeadingAmpersand(q)
  {
    SplitAtQuestionMark(u, q);
  }
}
