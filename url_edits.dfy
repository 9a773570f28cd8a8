/**
 * The `URLNormalizer` operations that rewrite the URL text directly, without
 * parsing it: trailing slash, fragment, trailing question mark and scheme
 * security.
 */
module UrlEdits {
  import opened Wrappers
  import opened JavaStrings

  predicate EndsWithChar(s: string, c: char) {
    |s| > 0 && s[|s| - 1] == c
  }

  // ---------------------------------------------------------------------
  // addTrailingSlash
  // ---------------------------------------------------------------------

  /** `addTrailingSlash` as written: tests the text after the URL's last '/'. */
  function AddTrailingSlashAsWritten(url: string): string {
    var name := SubstringAfterLastChar(url, '/');
    if '.' !in name && !EndsWithChar(name, '/') then url + "/" else url
  }

  /**
   * The text after the last '/' never ends with '/', so the second test of
   * `addTrailingSlash` never fails: a slash is appended exactly when that
   * text has no dot, even when it is empty because the URL already ends
   * with '/'.
   */
  lemma AddTrailingSlashAsWrittenAppends(url: string)
    ensures var name := SubstringAfterLastChar(url, '/');
            AddTrailingSlashAsWritten(url) == if '.' !in name then url + "/" else url
  {
    var i := LastIndexOfChar(url, '/');
    if i != -1 {
      var name := url[i + 1..];
      assert !EndsWithChar(name, '/') by {
        if |name| > 0 {
          assert name[|name| - 1] in url[i + 1..];
        }
      }
    }
  }

  /** A URL that already ends with a directory slash gets a second one. */
  lemma AddTrailingSlashAsWrittenDoubles(url: string)
    requires |url| > 0 && url[|url| - 1] == '/'
    ensures AddTrailingSlashAsWritten(url) == url + "/"
  {
    LastIndexOfCharIs(url, '/', |url| - 1);
    AddTrailingSlashAsWrittenAppends(url);
  }

  /** A slash-free, dot-free last segment followed by a query gets the slash after the query. */
  lemma AddTrailingSlashAsWrittenAfterQuery(base: string, tail: string)
    requires '/' !in tail && '.' !in tail
    ensures AddTrailingSlashAsWritten(base + "/" + tail) == base + "/" + tail + "/"
  {
    var url := base + "/" + tail;
    assert url[|base| + 1..] == tail;
    LastIndexOfCharIs(url, '/', |base|);
    AddTrailingSlashAsWrittenAppends(url);
  }

  /** Where the path part of a URL ends: the first '?' or '#', or the end. */
  function PathPartEnd(s: string): (p: nat)
    ensures p <= |s| && (p < |s| ==> s[p] == '?' || s[p] == '#')
    ensures forall i :: 0 <= i < p ==> s[i] != '?' && s[i] != '#'
  {
    if s == [] || s[0] == '?' || s[0] == '#' then 0 else 1 + PathPartEnd(s[1..])
  }

  lemma PathPartEndOf(s: string, p: nat)
    requires p <= |s| && (p < |s| ==> s[p] == '?' || s[p] == '#')
    requires forall i :: 0 <= i < p ==> s[i] != '?' && s[i] != '#'
    ensures PathPartEnd(s) == p
  {
  }

  /**
   * `addTrailingSlash` as its documentation describes it: the two tests of
   * the source are made on the text before the query or fragment, and the
   * test for a trailing '/' is made on that text rather than on the name
   * after its last '/'. A slash is added after the path part when the text
   * after its last '/' has no dot and the path part does not already end
   * with '/'.
   */
  function AddTrailingSlash(url: string): string {
    var p := PathPartEnd(url);
    var name := SubstringAfterLastChar(url[..p], '/');
    if '.' !in name && !EndsWithChar(url[..p], '/') then url[..p] + "/" + url[p..] else url
  }

  /** A text without '?' and '#' followed by a query or fragment. */
  predicate SplitsAtQuery(path: string, query: string) {
    && '?' !in path && '#' !in path
    && (query == [] || query[0] == '?' || query[0] == '#')
  }

  /**
   * The documented example, generalized: a slash goes after a last segment
   * without a dot, before any query or fragment.
   */
  lemma AddTrailingSlashAppends(base: string, name: string, query: string)
    requires SplitsAtQuery(base + "/" + name, query)
    requires name != [] && '/' !in name && '.' !in name
    ensures AddTrailingSlash(base + "/" + name + query) == base + "/" + name + "/" + query
  {
    var path := base + "/" + name;
    var u := path + query;
    PathPartEndOf(u, |path|);
    assert u[..|path|] == path && u[|path|..] == query;
    assert path[|base| + 1..] == name;
    LastIndexOfCharIs(path, '/', |base|);
    assert path[|base| + 1..] == name;
  }

  /** A path that already ends with a slash is left as it is. */
  lemma AddTrailingSlashKeepsSlash(base: string, query: string)
    requires SplitsAtQuery(base + "/", query)
    ensures AddTrailingSlash(base + "/" + query) == base + "/" + query
  {
    var path := base + "/";
    PathPartEndOf(path + query, |path|);
    assert (path + query)[..|path|] == path;
  }

  /** A last segment with a dot, such as a file name, gets no slash. */
  lemma AddTrailingSlashKeepsFile(base: string, name: string, query: string)
    requires SplitsAtQuery(base + "/" + name, query)
    requires '/' !in name && '.' in name
    ensures AddTrailingSlash(base + "/" + name + query) == base + "/" + name + query
  {
    var path := base + "/" + name;
    PathPartEndOf(path + query, |path|);
    assert (path + query)[..|path|] == path;
    assert path[|base| + 1..] == name;
    LastIndexOfCharIs(path, '/', |base|);
    assert path[|base| + 1..] == name;
  }

  /**
   * A path part without any '/' (a URL without authority, such as
   * "http:abc") has an empty name after its last '/', and gets the slash,
   * as in the source.
   */
  lemma AddTrailingSlashNoSlash(path: string, query: string)
    requires SplitsAtQuery(path, query) && '/' !in path
    ensures AddTrailingSlash(path + query) == path + "/" + query
  {
    PathPartEndOf(path + query, |path|);
    assert (path + query)[..|path|] == path && (path + query)[|path|..] == query;
  }

  /**
   * On a URL without query or fragment that does not already end with '/',
   * the corrected definition and the code as written agree.
   */
  lemma AddTrailingSlashAgreesAsWritten(url: string)
    requires '?' !in url && '#' !in url && !EndsWithChar(url, '/')
    ensures AddTrailingSlash(url) == AddTrailingSlashAsWritten(url)
  {
    PathPartEndOf(url, |url|);
    assert url[..|url|] == url && url[|url|..] == [];
    AddTrailingSlashAsWrittenAppends(url);
  }

  /** Adding a trailing slash twice is the same as adding it once. */
  lemma AddTrailingSlashIdempotent(url: string)
    ensures AddTrailingSlash(AddTrailingSlash(url)) == AddTrailingSlash(url)
  {
    var p := PathPartEnd(url);
    var base := url[..p];
    var name := SubstringAfterLastChar(base, '/');
    if '.' !in name && !EndsWithChar(base, '/') {
      SlashedPathPart(base, url[p..]);
    }
  }

  /** After the slash is added, the path part is the old one and the slash. */
  lemma SlashedPathPart(base: string, tail: string)
    requires '?' !in base && '#' !in base && (tail == [] || tail[0] == '?' || tail[0] == '#')
    ensures var r := base + "/" + tail;
            r[..PathPartEnd(r)] == base + "/" && AddTrailingSlash(r) == r
  {
    var r := base + "/" + tail;
    PathPartEndOf(r, |base| + 1);
    assert r[..|base| + 1] == base + "/";
  }

  /** The result's path part ends with '/', or the text after its last '/' has a dot. */
  lemma AddTrailingSlashEndsWithDirectory(url: string)
    ensures var r := AddTrailingSlash(url);
            var part := r[..PathPartEnd(r)];
            EndsWithChar(part, '/') || '.' in SubstringAfterLastChar(part, '/')
  {
    AddTrailingSlashIdempotent(url);
  }

  // ---------------------------------------------------------------------
  // removeFragment
  // ---------------------------------------------------------------------

  /** The first line terminator at or after `from`, or the end of `s`. */
  function NextLineTerminator(s: string, from: nat): (e: nat)
    requires from <= |s|
    ensures from <= e <= |s| && (e < |s| ==> IsLineTerminator(s[e]))
    ensures forall i :: from <= i < e ==> !IsLineTerminator(s[i])
    decreases |s| - from
  {
    if from == |s| || IsLineTerminator(s[from]) then from else NextLineTerminator(s, from + 1)
  }

  /**
   * `url.replaceFirst("(.*?)(#.*)", "$1")`: the text from the first '#' up
   * to the next line terminator is removed (the regex `.` stops there).
   */
  function RemoveFragment(url: string): string {
    var h := IndexOf(url, "#");
    if h == -1 then url else url[..h] + url[NextLineTerminator(url, h)..]
  }

  /** On a single-line URL, everything from the first '#' on is removed. */
  lemma RemoveFragmentSingleLine(url: string)
    requires NoLineTerminator(url)
    ensures RemoveFragment(url) == SubstringBefore(url, "#")
    ensures '#' !in RemoveFragment(url)
  {
    var h := IndexOf(url, "#");
    if h != -1 {
      assert url[h..][|url| - h..] == [];
    } else {
      assert '#' !in url by {
        if '#' in url {
          var i :| 0 <= i < |url| && url[i] == '#';
          assert OccursAt(url, "#", i);
        }
      }
    }
    var r := RemoveFragment(url);
    if h != -1 {
      assert forall i :: 0 <= i < h ==> !OccursAt(url, "#", i);
      assert '#' !in r by {
        if '#' in r {
          var i :| 0 <= i < |r| && r[i] == '#';
          assert OccursAt(url, "#", i);
        }
      }
    }
  }

  /** Removing the fragment of a single-line URL twice is the same as once. */
  lemma RemoveFragmentIdempotent(url: string)
    requires NoLineTerminator(url)
    ensures RemoveFragment(RemoveFragment(url)) == RemoveFragment(url)
  {
    RemoveFragmentSingleLine(url);
    IndexOfAbsentChar(RemoveFragment(url), '#');
  }

  /** A fragment ends at a line break: only the first line's fragment goes. */
  lemma RemoveFragmentStopsAtLineBreak()
    ensures RemoveFragment("a#b\nc#d") == "a\nc#d"
  {
    var s := "a#b\nc#d";
    assert s[0..1] == "a" && s[1..2] == "#";
    assert NextLineTerminator(s, 1) == 3 by {
      assert !IsLineTerminator(s[1]) && !IsLineTerminator(s[2]) && IsLineTerminator(s[3]);
    }
  }

  // ---------------------------------------------------------------------
  // removeTrailingQuestionMark
  // ---------------------------------------------------------------------

  /** `removeTrailingQuestionMark`: a final '?' goes only when it is the URL's only '?'. */
  function RemoveTrailingQuestionMark(url: string): (r: string)
    ensures EndsWithChar(url, '?') && CountChar(url, '?') == 1 ==> r + "?" == url && '?' !in r
    ensures !(EndsWithChar(url, '?') && CountChar(url, '?') == 1) ==> r == url
  {
    if EndsWithChar(url, '?') && CountChar(url, '?') == 1 then
      CountLast(url, '?');
      url[..|url| - 1]
    else url
  }

  lemma {:induction false} CountLast(s: string, c: char)
    requires |s| > 0
    ensures CountChar(s, c) == CountChar(s[..|s| - 1], c) + (if s[|s| - 1] == c then 1 else 0)
  {
    if |s| > 1 {
      assert s[1..][..|s[1..]| - 1] == s[..|s| - 1][1..];
      CountLast(s[1..], c);
    }
  }

  /** Removing the trailing question mark twice is the same as once. */
  lemma RemoveTrailingQuestionMarkIdempotent(url: string)
    ensures RemoveTrailingQuestionMark(RemoveTrailingQuestionMark(url)) == RemoveTrailingQuestionMark(url)
  {
  }

  // ---------------------------------------------------------------------
  // secureScheme and unsecureScheme
  // ---------------------------------------------------------------------

  /**
   * The length of the line terminator that ends `s`, if any: before it the
   * regex anchor `$` also matches.
   */
  function FinalTerminatorLength(s: string): (n: nat)
    ensures n <= |s|
  {
    if |s| >= 2 && s[|s| - 2] == '\r' && s[|s| - 1] == '\n' then 2
    else if |s| >= 1 && IsLineTerminator(s[|s| - 1]) then 1
    else 0
  }

  /** Where the last line of `s` starts. */
  function LastLineStart(s: string): (l: nat)
    ensures l <= |s| && (l > 0 ==> IsLineTerminator(s[l - 1]))
    ensures forall i :: l <= i < |s| ==> !IsLineTerminator(s[i])
  {
    if s == [] || IsLineTerminator(s[|s| - 1]) then |s| else LastLineStart(s[..|s| - 1])
  }

  /**
   * The match of `(.*?)(://.*)$` that `Matcher.find` returns, as the start
   * of group 1 and the start of group 2: the last line before any final
   * line terminator, up to its first "://".
   */
  function SchemeMatch(url: string): (m: Option<(nat, nat)>)
    ensures m.Some? ==> m.value.0 <= m.value.1 && m.value.1 + 3 <= |url| - FinalTerminatorLength(url)
    ensures m.Some? ==> OccursAt(url, "://", m.value.1)
  {
    var body := url[..|url| - FinalTerminatorLength(url)];
    var l := LastLineStart(body);
    var k := IndexOfFrom(body, "://", l);
    if k == -1 then None else Some((l, k))
  }

  /** The scheme group starts a line, and that line runs to the final terminator. */
  lemma SchemeMatchLine(url: string)
    requires SchemeMatch(url).Some?
    ensures var l := SchemeMatch(url).value.0;
            && (l > 0 ==> IsLineTerminator(url[l - 1]))
            && forall i :: l <= i < |url| - FinalTerminatorLength(url) ==> !IsLineTerminator(url[i])
  {
    var body := url[..|url| - FinalTerminatorLength(url)];
    var l := LastLineStart(body);
    assert forall i :: l <= i < |body| ==> body[i] == url[i];
  }

  /** `secureScheme`: a scheme equal to "http" ignoring case gets an "s" appended. */
  function SecureScheme(url: string): string {
    match SchemeMatch(url)
    case None => url
    case Some(m) =>
      var schema := url[m.0..m.1];
      if EqualsIgnoreCase(schema, "http") then url[..m.0] + schema + "s" + url[m.1..] else url
  }

  /** `StringUtils.stripEnd(s, "Ss")`. */
  function StripEndS(s: string): (r: string)
    ensures |r| <= |s| && r == s[..|r|]
    ensures r == [] || (r[|r| - 1] != 's' && r[|r| - 1] != 'S')
  {
    if |s| > 0 && (s[|s| - 1] == 's' || s[|s| - 1] == 'S') then StripEndS(s[..|s| - 1]) else s
  }

  /** `unsecureScheme`: a scheme equal to "https" ignoring case loses its trailing s's. */
  function UnsecureScheme(url: string): string {
    match SchemeMatch(url)
    case None => url
    case Some(m) =>
      var schema := url[m.0..m.1];
      if EqualsIgnoreCase(schema, "https") then url[..m.0] + StripEndS(schema) + url[m.1..] else url
  }

  /** The scheme group of `url` equals "http" ignoring case. */
  predicate HasHttpScheme(url: string) {
    SchemeMatch(url).Some? && EqualsIgnoreCase(url[SchemeMatch(url).value.0..SchemeMatch(url).value.1], "http")
  }

  /** The scheme group of `url` equals "https" ignoring case. */
  predicate HasHttpsScheme(url: string) {
    SchemeMatch(url).Some? && EqualsIgnoreCase(url[SchemeMatch(url).value.0..SchemeMatch(url).value.1], "https")
  }

  /** A scheme equal to "http" ignoring case is made of ASCII letters only. */
  lemma HttpLetters(schema: string, word: string)
    requires EqualsIgnoreCase(schema, word)
    requires forall i :: 0 <= i < |word| ==> word[i] in "htps"
    ensures forall i :: 0 <= i < |schema| ==> !IsLineTerminator(schema[i]) && schema[i] != ':'
  {
    forall i | 0 <= i < |schema|
      ensures !IsLineTerminator(schema[i]) && schema[i] != ':'
    {
      assert CharEqualsIgnoreCase(schema[i], word[i]);
    }
  }

  /** `SchemeMatch` finds the scheme group `[l, k)` of a URL laid out as its definition says. */
  lemma SchemeMatchOf(s: string, l: nat, k: nat)
    requires l <= k && k + 3 <= |s| - FinalTerminatorLength(s) && OccursAt(s, "://", k)
    requires l > 0 ==> IsLineTerminator(s[l - 1])
    requires forall i :: l <= i < |s| - FinalTerminatorLength(s) ==> !IsLineTerminator(s[i])
    requires forall i :: l <= i < k ==> s[i] != ':'
    ensures SchemeMatch(s) == Some((l, k))
  {
    var body := s[..|s| - FinalTerminatorLength(s)];
    LastLineStartOf(body, l);
    assert body[k..k + 3] == s[k..k + 3];
    forall i | l <= i < k ensures !OccursAt(body, "://", i) {
      assert body[i] == s[i];
      NotOccursAt(body, "://", i);
    }
    IndexOfFromIs(body, "://", l, k);
  }

  /**
   * Replacing the scheme group of a URL by another single-line text without
   * ':' leaves the new text as the scheme group of the result.
   */
  lemma SchemeMatchReplaced(url: string, b: string, l: nat, k: nat)
    requires SchemeMatch(url) == Some((l, k))
    requires NoLineTerminator(b) && ':' !in b
    ensures SchemeMatch(url[..l] + b + url[k..]) == Some((l, l + |b|))
  {
    var r := url[..l] + b + url[k..];
    var d := l + |b|;
    SchemeMatchLine(url);
    assert FinalTerminatorLength(r) == FinalTerminatorLength(url) by {
      assert r[d..] == url[k..];
      SameTerminator(url, r, k, d);
    }
    ReplacedLayout(url, b, l, k);
    SchemeMatchOf(r, l, d);
  }

  /** Two texts with the same tail of at least three characters end with the same terminator. */
  lemma SameTerminator(s: string, r: string, k: nat, d: nat)
    requires k + 3 <= |s| && d <= |r| && r[d..] == s[k..]
    ensures FinalTerminatorLength(r) == FinalTerminatorLength(s)
    ensures |r| - FinalTerminatorLength(r) - d == |s| - FinalTerminatorLength(s) - k
  {
    var tail := s[k..];
    assert r[|r| - 1] == tail[|tail| - 1] == s[|s| - 1];
    assert r[|r| - 2] == tail[|tail| - 2] == s[|s| - 2];
  }

  /** The lay-out facts `SchemeMatchOf` needs, carried over to the replaced text. */
  lemma ReplacedLayout(url: string, b: string, l: nat, k: nat)
    requires l <= k && k + 3 <= |url| - FinalTerminatorLength(url) && OccursAt(url, "://", k)
    requires l > 0 ==> IsLineTerminator(url[l - 1])
    requires forall i :: l <= i < |url| - FinalTerminatorLength(url) ==> !IsLineTerminator(url[i])
    requires NoLineTerminator(b) && ':' !in b
    requires FinalTerminatorLength(url[..l] + b + url[k..]) == FinalTerminatorLength(url)
    ensures var r := url[..l] + b + url[k..];
            var d := l + |b|;
            && OccursAt(r, "://", d)
            && (l > 0 ==> IsLineTerminator(r[l - 1]))
            && (forall i :: l <= i < |r| - FinalTerminatorLength(r) ==> !IsLineTerminator(r[i]))
            && (forall i :: l <= i < d ==> r[i] != ':')
  {
    var r := url[..l] + b + url[k..];
    var d := l + |b|;
    var ftl := FinalTerminatorLength(url);
    var tail := url[k..];
    assert r[d..] == tail;
    assert OccursAt(r, "://", d) by {
      assert r[d..d + 3] == tail[..3] == url[k..k + 3];
    }
    assert l > 0 ==> IsLineTerminator(r[l - 1]) by {
      assert r[..l] == url[..l];
    }
    forall i | l <= i < |r| - ftl ensures !IsLineTerminator(r[i]) {
      if i < d {
        assert r[i] == b[i - l];
      } else {
        assert r[i] == tail[i - d] == url[i - d + k];
      }
    }
    forall i | l <= i < d ensures r[i] != ':' {
      assert r[i] == b[i - l];
    }
  }

  /**
   * The result of `secureScheme` on an http URL: its scheme becomes the old
   * one plus "s", and the rest of the URL is kept.
   */
  lemma SecureSchemeShape(url: string)
    requires HasHttpScheme(url)
    ensures var m := SchemeMatch(url).value;
            var r := SecureScheme(url);
            SchemeMatch(r) == Some((m.0, m.1 + 1)) && r[m.0..m.1 + 1] == url[m.0..m.1] + "s"
            && r[..m.0] == url[..m.0] && r[m.1 + 1..] == url[m.1..]
  {
    var m := SchemeMatch(url).value;
    var l, k := m.0, m.1;
    var schema := url[l..k];
    var b := schema + "s";
    assert NoLineTerminator(b) && ':' !in b by {
      HttpLetters(schema, "http");
      assert forall i :: 0 <= i < |b| ==> b[i] == 's' || b[i] == schema[i];
    }
    SchemeMatchReplaced(url, b, l, k);
    SecureSchemeAt(url, l, k);
    Spliced(url[..l], b, url[k..]);
  }

  /** `secureScheme` on a URL whose scheme group `[l, k)` is "http" in any case. */
  lemma SecureSchemeAt(url: string, l: nat, k: nat)
    requires SchemeMatch(url) == Some((l, k)) && EqualsIgnoreCase(url[l..k], "http")
    ensures SecureScheme(url) == url[..l] + (url[l..k] + "s") + url[k..]
  {
  }

  lemma Spliced(x: string, b: string, y: string)
    ensures var r := x + b + y;
            r[..|x|] == x && r[|x|..|x| + |b|] == b && r[|x| + |b|..] == y
  {
  }

  lemma LastLineStartOf(s: string, l: nat)
    requires l <= |s| && (l > 0 ==> IsLineTerminator(s[l - 1]))
    requires forall i :: l <= i < |s| ==> !IsLineTerminator(s[i])
    ensures LastLineStart(s) == l
    decreases |s|
  {
    if |s| > l {
      assert s[..|s| - 1][..l] == s[..l];
      LastLineStartOf(s[..|s| - 1], l);
    }
  }

  /** `unsecureScheme` undoes `secureScheme` on every http URL. */
  lemma UnsecureAfterSecure(url: string)
    requires HasHttpScheme(url)
    ensures UnsecureScheme(SecureScheme(url)) == url
  {
    var m := SchemeMatch(url).value;
    var schema := url[m.0..m.1];
    var r := SecureScheme(url);
    SecureSchemeShape(url);
    HttpsOfHttp(schema);
    UnsecureSchemeAt(r, m.0, m.1 + 1);
    Recombine(url, m.0, m.1);
  }

  /** `unsecureScheme` on a URL whose scheme group `[l, k)` is "https" in any case. */
  lemma UnsecureSchemeAt(r: string, l: nat, k: nat)
    requires SchemeMatch(r) == Some((l, k)) && EqualsIgnoreCase(r[l..k], "https")
    ensures UnsecureScheme(r) == r[..l] + StripEndS(r[l..k]) + r[k..]
  {
  }

  lemma Recombine(s: string, l: nat, k: nat)
    requires l <= k <= |s|
    ensures s == s[..l] + s[l..k] + s[k..]
  {
  }

  /** An "http" scheme with an "s" appended is "https", and stripping the s's gives it back. */
  lemma HttpsOfHttp(schema: string)
    requires EqualsIgnoreCase(schema, "http")
    ensures EqualsIgnoreCase(schema + "s", "https") && StripEndS(schema + "s") == schema
  {
    var s' := schema + "s";
    assert forall i :: 0 <= i < |schema| ==> s'[i] == schema[i];
    assert CharEqualsIgnoreCase(schema[3], 'p');
    assert s'[..|s'| - 1] == schema;
  }

  /** `secureScheme` makes every http URL an https URL. */
  lemma SecureSchemeMakesHttps(url: string)
    requires HasHttpScheme(url)
    ensures HasHttpsScheme(SecureScheme(url))
  {
    var m := SchemeMatch(url).value;
    var schema := url[m.0..m.1];
    SecureSchemeShape(url);
    var schema' := SecureScheme(url)[m.0..m.1 + 1];
    assert forall i :: 0 <= i < |schema| ==> schema'[i] == schema[i];
  }

  /** `secureScheme` of a single-line `scheme://rest` whose scheme is "http" in any case. */
  lemma SecureSchemeOf(scheme: string, rest: string)
    requires EqualsIgnoreCase(scheme, "http") && NoLineTerminator(rest)
    ensures SecureScheme(scheme + "://" + rest) == scheme + "s" + "://" + rest
  {
    var u := scheme + "://" + rest;
    HttpLettersOnly(scheme, "http");
    SchemeOfPrefix(u, scheme, rest);
    assert u[0..|scheme|] == scheme;
    assert u[|scheme|..] == "://" + rest;
  }

  /** A text equal ignoring case to a word of letters has neither ':' nor a line terminator. */
  lemma HttpLettersOnly(scheme: string, word: string)
    requires EqualsIgnoreCase(scheme, word) && (word == "http" || word == "https")
    ensures ':' !in scheme && NoLineTerminator(scheme)
  {
    forall i | 0 <= i < |scheme| ensures scheme[i] != ':' && !IsLineTerminator(scheme[i]) {
      assert CharEqualsIgnoreCase(scheme[i], word[i]);
    }
  }

  /** The scheme `PATTERN_SCHEMA` finds in a single-line `scheme://rest`. */
  lemma SchemeOfPrefix(u: string, scheme: string, rest: string)
    requires u == scheme + "://" + rest && ':' !in scheme && NoLineTerminator(scheme) && NoLineTerminator(rest)
    ensures SchemeMatch(u) == Some((0, |scheme|))
  {
    var k := |scheme|;
    assert NoLineTerminator(u) by {
      forall i | 0 <= i < |u| ensures !IsLineTerminator(u[i]) {
        if i < k {
          assert u[i] == scheme[i];
        } else if i >= k + 3 {
          assert u[i] == rest[i - k - 3];
        }
      }
    }
    assert FinalTerminatorLength(u) == 0;
    assert u[k..k + 3] == "://";
    forall i | 0 <= i < k ensures u[i] != ':' {
      assert u[i] == scheme[i];
    }
    SchemeMatchOf(u, 0, k);
  }

  /** `unsecureScheme` of a single-line `scheme://rest` whose scheme is "https" in any case. */
  lemma UnsecureSchemeOf(scheme: string, rest: string)
    requires EqualsIgnoreCase(scheme, "https") && NoLineTerminator(rest)
    ensures UnsecureScheme(scheme + "://" + rest) == StripEndS(scheme) + "://" + rest
  {
    var u := scheme + "://" + rest;
    HttpLettersOnly(scheme, "https");
    SchemeOfPrefix(u, scheme, rest);
    assert u[0..|scheme|] == scheme;
    var stripped := StripEndS(scheme);
    assert u[|scheme|..] == "://" + rest;
    assert u[..0] + stripped + u[|scheme|..] == stripped + "://" + rest;
  }
}
