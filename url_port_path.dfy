/**
 * The `URLNormalizer` operations that read the port or the path back
 * through `toURL()` and then edit the URL text: `removeDefaultPort`,
 * `removeDuplicateSlashes` and `removeDirectoryIndex`. A `None` result is
 * the `NullPointerException` thrown when `toURL()` returns `null`.
 *
 * As in `UrlHostPath`, a member named `...AsWritten` replaces the first
 * textual occurrence of the path, as the source does, and the member
 * without the suffix replaces the path where `Spans` locates it.
 */
module UrlPortPath {
  import opened Wrappers
  import opened JavaStrings
  import opened UrlParse
  import opened UrlHostPath

  // ---------------------------------------------------------------------
  // Where a text first occurs in a composed URL
  // ---------------------------------------------------------------------

  /** A text of two or more characters occurs first at `k` when no earlier place starts like it. */
  lemma FirstOccurrence(s: string, t: string, k: nat)
    requires OccursAt(s, t, k) && |t| >= 2
    requires forall i :: 0 <= i < k ==> s[i] != t[0] || s[i + 1] != t[1]
    ensures IndexOf(s, t) == k
  {
    forall i | 0 <= i < k ensures !OccursAt(s, t, i) {
      if i + |t| <= |s| {
        assert s[i..i + |t|][0] == s[i] && s[i..i + |t|][1] == s[i + 1];
      }
    }
    IndexOfIs(s, t, k);
  }

  /** In "protocol://host" the only ':' is the one after the protocol, and the only '/' are the two after it. */
  lemma AuthorityChars(s: string, u: Url)
    requires IsComposable(u) && PortAt(u) <= |s| && s[..PortAt(u)] == u.protocol + "://" + u.host
    ensures forall i :: 0 <= i < PortAt(u) ==>
              && (s[i] == ':' <==> i == |u.protocol|)
              && (s[i] == '/' <==> |u.protocol| < i < HostAt(u))
  {
    var p := |u.protocol|;
    var a := u.protocol + "://" + u.host;
    ProtocolLetters(u.protocol);
    HostNameExcludes(u.host);
    forall i | 0 <= i < PortAt(u)
      ensures && (s[i] == ':' <==> i == p)
              && (s[i] == '/' <==> p < i < HostAt(u))
    {
      assert s[i] == a[i];
      if i < p {
        assert a[i] == u.protocol[i];
      } else if i < HostAt(u) {
        assert a[i] == "://"[i - p];
      } else {
        assert a[i] == u.host[i - HostAt(u)];
      }
    }
  }

  // ---------------------------------------------------------------------
  // removeDefaultPort
  // ---------------------------------------------------------------------

  /** `HttpURL.DEFAULT_HTTP_PORT` and `HttpURL.DEFAULT_HTTPS_PORT`. */
  const DefaultHttpPort: int := 80
  const DefaultHttpsPort: int := 443

  /** The condition `removeDefaultPort` tests on the parsed URL. */
  predicate HasDefaultPort(u: Url) {
    || (EqualsIgnoreCase("http", u.protocol) && u.port == DefaultHttpPort)
    || (EqualsIgnoreCase("https", u.protocol) && u.port == DefaultHttpsPort)
  }

  /**
   * `removeDefaultPort`: the first ":80" (http) or ":443" (https) of the URL
   * text goes. Neither text holds a regular-expression metacharacter, so
   * `replaceFirst` replaces the first textual occurrence.
   */
  function RemoveDefaultPort(url: string): Option<string> {
    match ToUrl(url)
    case None => None
    case Some(u) =>
      if EqualsIgnoreCase("http", u.protocol) && u.port == DefaultHttpPort then
        Some(ReplaceOnce(url, ":" + DecimalString(DefaultHttpPort), ""))
      else if EqualsIgnoreCase("https", u.protocol) && u.port == DefaultHttpsPort then
        Some(ReplaceOnce(url, ":" + DecimalString(DefaultHttpsPort), ""))
      else Some(url)
  }

  /** For the four protocols `toURL()` accepts, the test is on the protocol as written. */
  lemma HasDefaultPortOfKnown(u: Url)
    requires IsKnownProtocol(u.protocol)
    ensures HasDefaultPort(u) <==>
              (u.protocol == "http" && u.port == 80) || (u.protocol == "https" && u.port == 443)
  {
    KnownProtocolLetters(u.protocol);
    if u.protocol == "http" {
      assert EqualsIgnoreCase("http", u.protocol);
    } else if u.protocol == "https" {
      assert EqualsIgnoreCase("https", u.protocol);
    } else if |u.protocol| == 4 {
      assert u.protocol == "file";
      assert !CharEqualsIgnoreCase("http"[0], u.protocol[0]);
    }
  }

  /** How `RemoveDefaultPort` reads a URL with a default port. */
  lemma RemoveDefaultPortAt(s: string, u: Url)
    requires ToUrl(s) == Some(u) && HasDefaultPort(u)
    ensures RemoveDefaultPort(s) == Some(ReplaceOnce(s, PortPart(u.port), ""))
  {
  }

  /** A URL without a default port is left as it is. */
  lemma RemoveDefaultPortKeeps(url: string)
    requires ToUrl(url).Some? && !HasDefaultPort(ToUrl(url).value)
    ensures RemoveDefaultPort(url) == Some(url)
  {
  }

  /** The port part of a composed URL is the first occurrence of its text. */
  lemma PortPartFirstFound(u: Url)
    requires IsComposable(u) && u.port != -1
    ensures OccursAt(Compose(u), PortPart(u.port), PortAt(u))
    ensures IndexOf(Compose(u), PortPart(u.port)) == PortAt(u)
  {
    var s := Compose(u);
    var t := PortPart(u.port);
    ComposeSlices(u);
    AuthorityChars(s, u);
    assert t[1] == DecimalString(u.port)[0];
    assert t[1] != '/' && t[0] == ':';
    FirstOccurrence(s, t, PortAt(u));
  }

  /** Composing without a port drops the port part and nothing else. */
  lemma ComposeWithoutPort(u: Url)
    requires u.port >= -1
    ensures var s := Compose(u);
            Compose(u.(port := -1)) == s[..PortAt(u)] + s[PathAt(u)..]
  {
    ComposeSlices(u);
    ComposeParts(u.(port := -1));
  }

  /** Removing the first occurrence of the port part drops the port. */
  lemma PortPartRemoved(u: Url)
    requires IsComposable(u) && u.port != -1
    ensures ReplaceOnce(Compose(u), PortPart(u.port), "") == Compose(u.(port := -1))
  {
    var s := Compose(u);
    PortPartFirstFound(u);
    ReplaceOnceAt(s, PortPart(u.port), "", PortAt(u));
    ComposeWithoutPort(u);
    assert s[..PortAt(u)] + "" == s[..PortAt(u)];
  }

  /** A default port is removed and every other part is kept. */
  lemma RemoveDefaultPortComposed(u: Url)
    requires IsComposable(u) && HasDefaultPort(u)
    ensures RemoveDefaultPort(Compose(u)) == Some(Compose(u.(port := -1)))
  {
    ToUrlCompose(u);
    RemoveDefaultPortAt(Compose(u), u);
    PortPartRemoved(u);
  }

  /** Removing the default port a second time changes nothing. */
  lemma RemoveDefaultPortIdempotent(u: Url)
    requires IsComposable(u) && HasDefaultPort(u)
    ensures RemoveDefaultPort(Compose(u)) == Some(Compose(u.(port := -1)))
    ensures RemoveDefaultPort(Compose(u.(port := -1))) == Some(Compose(u.(port := -1)))
  {
    RemoveDefaultPortComposed(u);
    ToUrlCompose(u.(port := -1));
  }

  // ---------------------------------------------------------------------
  // removeDuplicateSlashes
  // ---------------------------------------------------------------------

  predicate HasDoubleSlash(s: string) {
    exists i :: 0 <= i < |s| - 1 && s[i] == '/' && s[i + 1] == '/'
  }

  /** `path.replaceAll("/{2,}", "/")`: every run of slashes becomes one slash. */
  function CollapseSlashes(s: string): (r: string)
    ensures |r| <= |s|
    ensures s == [] <==> r == []
    ensures s != [] ==> r[0] == s[0]
  {
    if s == [] then []
    else if |s| >= 2 && s[0] == '/' && s[1] == '/' then CollapseSlashes(s[1..])
    else [s[0]] + CollapseSlashes(s[1..])
  }

  /** No two slashes are adjacent in the result. */
  lemma {:induction false} CollapseSlashesNoDouble(s: string)
    ensures !HasDoubleSlash(CollapseSlashes(s))
  {
    if s != [] {
      CollapseSlashesNoDouble(s[1..]);
      var rest := CollapseSlashes(s[1..]);
      if !(|s| >= 2 && s[0] == '/' && s[1] == '/') {
        var r := [s[0]] + rest;
        forall i | 0 <= i < |r| - 1 ensures !(r[i] == '/' && r[i + 1] == '/') {
          if i == 0 {
            assert rest[0] == s[1];
          } else {
            assert r[i] == rest[i - 1] && r[i + 1] == rest[i];
          }
        }
      }
    }
  }

  /** A text without adjacent slashes is kept. */
  lemma {:induction false} CollapseSlashesKeeps(s: string)
    requires !HasDoubleSlash(s)
    ensures CollapseSlashes(s) == s
  {
    if s != [] {
      assert !HasDoubleSlash(s[1..]) by {
        forall i | 0 <= i < |s[1..]| - 1 ensures !(s[1..][i] == '/' && s[1..][i + 1] == '/') {
          assert s[1..][i] == s[i + 1] && s[1..][i + 1] == s[i + 2];
        }
      }
      CollapseSlashesKeeps(s[1..]);
    }
  }

  /** Collapsing twice is collapsing once. */
  lemma CollapseSlashesIdempotent(s: string)
    ensures CollapseSlashes(CollapseSlashes(s)) == CollapseSlashes(s)
  {
    CollapseSlashesNoDouble(s);
    CollapseSlashesKeeps(CollapseSlashes(s));
  }

  /** Collapsing only removes characters: nothing new appears and the last character stays. */
  lemma {:induction false} CollapseSlashesChars(s: string)
    ensures forall c :: c in CollapseSlashes(s) ==> c in s
    ensures s != [] ==> CollapseSlashes(s)[|CollapseSlashes(s)| - 1] == s[|s| - 1]
  {
    if s != [] {
      CollapseSlashesChars(s[1..]);
      var rest := CollapseSlashes(s[1..]);
      if s[1..] == [] {
        assert CollapseSlashes(s) == [s[0]];
      } else if !(|s| >= 2 && s[0] == '/' && s[1] == '/') {
        assert CollapseSlashes(s)[|CollapseSlashes(s)| - 1] == rest[|rest| - 1];
      }
      assert forall c :: c in s[1..] ==> c in s;
    }
  }

  /** `removeDuplicateSlashes` as written: the first occurrence of the path text is replaced. */
  function RemoveDuplicateSlashesAsWritten(url: string): Option<string> {
    match ToUrl(url)
    case None => None
    case Some(u) => Some(ReplaceOnce(url, u.path, CollapseSlashes(u.path)))
  }

  /** `removeDuplicateSlashes` with the path replaced where it is. */
  function RemoveDuplicateSlashes(url: string): Option<string> {
    match ToUrl(url)
    case None => None
    case Some(u) =>
      var r := Spans(url);
      Some(url[..r.pathStart] + CollapseSlashes(u.path) + url[r.pathEnd..])
  }

  /** How `RemoveDuplicateSlashes` reads a URL whose path ends the text at `ps`. */
  lemma RemoveDuplicateSlashesAt(s: string, u: Url, ps: nat)
    requires ToUrl(s) == Some(u) && Spans(s).pathStart == ps && Spans(s).pathEnd == |s|
    ensures RemoveDuplicateSlashes(s) == Some(s[..ps] + CollapseSlashes(u.path))
  {
    ReplacedAtEnd(s, ps, CollapseSlashes(u.path));
  }

  /** Replacing the text from `ps` to the end. */
  lemma ReplacedAtEnd(s: string, ps: nat, x: string)
    requires ps <= |s|
    ensures s[..ps] + x + s[|s|..] == s[..ps] + x
  {
    assert s[|s|..] == [];
  }

  /** The path loses its adjacent slashes and every other part is kept. */
  lemma RemoveDuplicateSlashesComposed(u: Url)
    requires IsComposable(u)
    ensures RemoveDuplicateSlashes(Compose(u)) == Some(Compose(u.(path := CollapseSlashes(u.path))))
  {
    ToUrlCompose(u);
    SpansAt(u);
    RemoveDuplicateSlashesAt(Compose(u), u, PathAt(u));
    ComposeWithPath(u, CollapseSlashes(u.path));
  }

  /** Collapsing the path keeps a URL composable. */
  lemma CollapsedComposable(u: Url)
    requires IsComposable(u)
    ensures IsComposable(u.(path := CollapseSlashes(u.path)))
  {
    CollapseSlashesChars(u.path);
  }

  /** Removing duplicate slashes a second time changes nothing. */
  lemma RemoveDuplicateSlashesIdempotent(u: Url)
    requires IsComposable(u)
    ensures var v := u.(path := CollapseSlashes(u.path));
            RemoveDuplicateSlashes(Compose(u)) == Some(Compose(v)) && RemoveDuplicateSlashes(Compose(v)) == Some(Compose(v))
  {
    var v := u.(path := CollapseSlashes(u.path));
    RemoveDuplicateSlashesComposed(u);
    CollapsedComposable(u);
    RemoveDuplicateSlashesComposed(v);
    CollapseSlashesIdempotent(u.path);
    assert v.(path := CollapseSlashes(v.path)) == v;
  }

  /** How `RemoveDuplicateSlashesAsWritten` reads a URL. */
  lemma RemoveDuplicateSlashesAsWrittenAt(s: string, u: Url)
    requires ToUrl(s) == Some(u)
    ensures RemoveDuplicateSlashesAsWritten(s) == Some(ReplaceOnce(s, u.path, CollapseSlashes(u.path)))
  {
  }

  /** The "//" after the protocol is the first "//" of a composed URL. */
  lemma DoubleSlashFirstFound(u: Url)
    requires IsComposable(u)
    ensures OccursAt(Compose(u), "//", |u.protocol| + 1) && IndexOf(Compose(u), "//") == |u.protocol| + 1
  {
    var s := Compose(u);
    var p := |u.protocol|;
    ComposeSlices(u);
    AuthorityChars(s, u);
    assert s[p + 1..p + 3] == s[p..HostAt(u)][1..];
    FirstOccurrence(s, "//", p + 1);
  }

  /** Replacing the "//" after the protocol by "/" leaves "protocol:/" before the host. */
  lemma SchemeSlashReplaced(u: Url)
    requires u.port >= -1
    ensures var s := Compose(u);
            s[..|u.protocol| + 1] + "/" + s[|u.protocol| + 3..] == u.protocol + ":/" + u.host + PortPart(u.port) + u.path
  {
    var s := Compose(u);
    var p := |u.protocol|;
    ComposeSlices(u);
    assert s[..p + 1] == s[..HostAt(u)][..p + 1];
  }

  /**
   * When the path is "//", its first occurrence is the "//" after the
   * protocol ("http://h//" becomes "http:/h//"): where the corrected result
   * has its second '/', the as-written result has the host's first letter.
   */
  lemma RemoveDuplicateSlashesAsWrittenEditsAuthority(u: Url)
    requires IsComposable(u) && u.host != [] && u.path == "//"
    ensures RemoveDuplicateSlashesAsWritten(Compose(u)) == Some(u.protocol + ":/" + u.host + PortPart(u.port) + "//")
    ensures RemoveDuplicateSlashesAsWritten(Compose(u)) != RemoveDuplicateSlashes(Compose(u))
  {
    var w := u.protocol + ":/" + u.host + PortPart(u.port) + "//";
    var c := Compose(u.(path := "/"));
    AsWrittenDoubleSlashPath(u);
    CorrectedDoubleSlashPath(u);
    SecondSchemeSlash(u.(path := "/"));
    HostAfterOneSlash(u);
    SomeDifferAt(RemoveDuplicateSlashesAsWritten(Compose(u)), RemoveDuplicateSlashes(Compose(u)), w, c, |u.protocol| + 2);
  }

  /** With one '/' after the protocol's ':', the host's first letter comes where the second '/' was. */
  lemma HostAfterOneSlash(u: Url)
    requires IsComposable(u) && u.host != []
    ensures var w := u.protocol + ":/" + u.host + PortPart(u.port) + "//";
            |w| > |u.protocol| + 2 && w[|u.protocol| + 2] != '/'
  {
    var w := u.protocol + ":/" + u.host + PortPart(u.port) + "//";
    HostNameExcludes(u.host);
    assert w[|u.protocol| + 2] == u.host[0];
  }

  lemma SomeDifferAt(x: Option<string>, y: Option<string>, a: string, b: string, i: nat)
    requires x == Some(a) && y == Some(b) && i < |a| && i < |b| && a[i] != b[i]
    ensures x != y
  {
  }

  lemma AsWrittenDoubleSlashPath(u: Url)
    requires IsComposable(u) && u.path == "//"
    ensures RemoveDuplicateSlashesAsWritten(Compose(u)) == Some(u.protocol + ":/" + u.host + PortPart(u.port) + "//")
  {
    var s := Compose(u);
    ToUrlCompose(u);
    RemoveDuplicateSlashesAsWrittenAt(s, u);
    assert CollapseSlashes("//") == "/";
    DoubleSlashFirstFound(u);
    ReplaceOnceAt(s, "//", "/", |u.protocol| + 1);
    SchemeSlashReplaced(u);
  }

  lemma CorrectedDoubleSlashPath(u: Url)
    requires IsComposable(u) && u.path == "//"
    ensures RemoveDuplicateSlashes(Compose(u)) == Some(Compose(u.(path := "/")))
  {
    RemoveDuplicateSlashesComposed(u);
    assert CollapseSlashes(u.path) == "/";
  }

  /** In a composed URL the character two places after the protocol is the second '/' of "://". */
  lemma SecondSchemeSlash(u: Url)
    requires u.port >= -1
    ensures var s := Compose(u);
            |s| > |u.protocol| + 2 && s[|u.protocol| + 2] == '/'
  {
    var s := Compose(u);
    var p := |u.protocol|;
    ComposeSlices(u);
    assert s[p + 2] == s[p..p + 3][2];
  }

  // ---------------------------------------------------------------------
  // removeDirectoryIndex
  // ---------------------------------------------------------------------

  /** The index file names of `PATTERN_PATH_LAST_SEGMENT`, in lower case. */
  const IndexFileNames: seq<string> := [
    "index.html", "index.htm", "index.shtml", "index.php", "default.html", "default.htm",
    "home.html", "home.htm", "index.php5", "index.php4", "index.php3", "index.cgi",
    "placeholder.html", "default.asp"]

  /**
   * `name` is one of `names`, spelled out one name at a time so that a
   * proof looks into the list only as far as it needs to.
   */
  predicate InNames(name: string, names: seq<string>)
    decreases |names|
  {
    names != [] && (names[0] == name || InNames(name, names[1..]))
  }

  /** A name the pattern accepts, in any ASCII letter case. */
  predicate IsIndexFileName(name: string) {
    InNames(LowerAscii(name), IndexFileNames)
  }

  /**
   * `PATTERN_PATH_LAST_SEGMENT.matcher(path).matches()`: any text without a
   * line terminator, a '/', then an index file name up to the end of the path.
   */
  predicate MatchesIndexFile(path: string) {
    exists i | 0 <= i < |path| :: IndexFileAt(path, i)
  }

  /** The pattern matches with its '/' at `i`. */
  predicate IndexFileAt(path: string, i: int) {
    0 <= i < |path| && path[i] == '/' && NoLineTerminator(path[..i]) && IsIndexFileName(path[i + 1..])
  }

  /** An index file name is not empty and holds no '/'. */
  lemma IndexFileNameNoSlash(name: string)
    requires IsIndexFileName(name)
    ensures name != [] && '/' !in name
  {
    var l := LowerAscii(name);
    IndexFileNamesPlain();
    InPlainNames(l, IndexFileNames);
    forall k | 0 <= k < |name| ensures name[k] != '/' {
      assert l[k] == ToLowerAscii(name[k]);
    }
  }

  predicate IsPlainName(name: string) {
    name != [] && '/' !in name
  }

  lemma IndexFileNamesPlain()
    ensures forall k :: 0 <= k < |IndexFileNames| ==> IsPlainName(IndexFileNames[k])
  {
  }

  lemma {:induction false} InPlainNames(name: string, names: seq<string>)
    requires InNames(name, names) && forall k :: 0 <= k < |names| ==> IsPlainName(names[k])
    ensures IsPlainName(name)
    decreases |names|
  {
    if names[0] != name {
      InPlainNames(name, names[1..]);
    }
  }

  /** The '/' that ends the pattern's first group is the last '/' of the path. */
  lemma MatchesIndexFileAtLastSlash(path: string)
    ensures MatchesIndexFile(path) <==> IndexFileAt(path, LastIndexOfChar(path, '/'))
  {
    if MatchesIndexFile(path) {
      var i :| 0 <= i < |path| && IndexFileAt(path, i);
      IndexFileAfterLastSlash(path, i);
    }
  }

  /** A '/' followed by an index file name is the last '/'. */
  lemma IndexFileAfterLastSlash(path: string, i: nat)
    requires i < |path| && path[i] == '/' && IsIndexFileName(path[i + 1..])
    ensures LastIndexOfChar(path, '/') == i
  {
    IndexFileNameNoSlash(path[i + 1..]);
    LastIndexOfCharIs(path, '/', i);
  }

  /** `substringBeforeLast(path, "/") + "/"`. */
  function WithoutIndexFile(path: string): string {
    SubstringBeforeLastChar(path, '/') + "/"
  }

  /** The index file name is cut and the directory's '/' is kept. */
  lemma WithoutIndexFileShape(path: string)
    requires MatchesIndexFile(path)
    ensures var i := LastIndexOfChar(path, '/');
            && 0 <= i && WithoutIndexFile(path) == path[..i + 1]
            && path == WithoutIndexFile(path) + path[i + 1..]
            && IsIndexFileName(path[i + 1..])
  {
    MatchesIndexFileAtLastSlash(path);
    CutAtSlash(path, LastIndexOfChar(path, '/'));
  }

  /** Cutting after the '/' at `i`. */
  lemma CutAtSlash(path: string, i: nat)
    requires i < |path| && path[i] == '/'
    ensures path[..i] + "/" == path[..i + 1] && path == path[..i + 1] + path[i + 1..]
  {
  }

  /** Once cut, no index file is left to cut. */
  lemma WithoutIndexFileDone(path: string)
    requires MatchesIndexFile(path)
    ensures !MatchesIndexFile(WithoutIndexFile(path))
  {
    var w := WithoutIndexFile(path);
    WithoutIndexFileShape(path);
    assert w[|w| - 1] == '/';
    LastIndexOfCharIs(w, '/', |w| - 1);
    MatchesIndexFileAtLastSlash(w);
    assert w[|w|..] == [];
    EmptyNotIndexFileName();
  }

  lemma EmptyNotIndexFileName()
    ensures !IsIndexFileName([])
  {
    if IsIndexFileName([]) {
      IndexFileNameNoSlash([]);
    }
  }

  /** `removeDirectoryIndex` as written: the first occurrence of the path text is replaced. */
  function RemoveDirectoryIndexAsWritten(url: string): Option<string> {
    match ToUrl(url)
    case None => None
    case Some(u) =>
      if MatchesIndexFile(u.path) then Some(ReplaceOnce(url, u.path, WithoutIndexFile(u.path))) else Some(url)
  }

  /** `removeDirectoryIndex` with the path replaced where it is. */
  function RemoveDirectoryIndex(url: string): Option<string> {
    match ToUrl(url)
    case None => None
    case Some(u) =>
      if MatchesIndexFile(u.path) then
        var r := Spans(url);
        Some(url[..r.pathStart] + WithoutIndexFile(u.path) + url[r.pathEnd..])
      else Some(url)
  }

  /** How `RemoveDirectoryIndex` reads a URL whose path ends the text at `ps`. */
  lemma RemoveDirectoryIndexAt(s: string, u: Url, ps: nat)
    requires ToUrl(s) == Some(u) && MatchesIndexFile(u.path)
    requires Spans(s).pathStart == ps && Spans(s).pathEnd == |s|
    ensures RemoveDirectoryIndex(s) == Some(s[..ps] + WithoutIndexFile(u.path))
  {
    ReplacedAtEnd(s, ps, WithoutIndexFile(u.path));
  }

  /** The index file name leaves the path; every other part is kept. */
  lemma RemoveDirectoryIndexComposed(u: Url)
    requires IsComposable(u) && MatchesIndexFile(u.path)
    ensures RemoveDirectoryIndex(Compose(u)) == Some(Compose(u.(path := WithoutIndexFile(u.path))))
  {
    ToUrlCompose(u);
    SpansAt(u);
    RemoveDirectoryIndexAt(Compose(u), u, PathAt(u));
    ComposeWithPath(u, WithoutIndexFile(u.path));
  }

  /** Cutting the index file keeps a URL composable. */
  lemma WithoutIndexFileComposable(u: Url)
    requires IsComposable(u) && MatchesIndexFile(u.path)
    ensures IsComposable(u.(path := WithoutIndexFile(u.path)))
  {
    var v := u.(path := WithoutIndexFile(u.path));
    WithoutIndexFilePath(u.path);
    assert v.protocol == u.protocol && v.host == u.host && v.port == u.port;
  }

  /** The cut path is a prefix of the path that ends with the directory's '/'. */
  lemma WithoutIndexFilePath(path: string)
    requires MatchesIndexFile(path) && path[0] == '/' && '?' !in path && '#' !in path
    ensures var w := WithoutIndexFile(path);
            w != [] && w[0] == '/' && w[|w| - 1] == '/' && '?' !in w && '#' !in w
  {
    WithoutIndexFileShape(path);
    var i := LastIndexOfChar(path, '/');
    var w := WithoutIndexFile(path);
    assert w == path[..i + 1];
    assert w[0] == path[0] && w[|w| - 1] == path[i];
  }

  /** A URL whose path does not end with an index file is left as it is. */
  lemma RemoveDirectoryIndexKeeps(url: string)
    requires ToUrl(url).Some? && !MatchesIndexFile(ToUrl(url).value.path)
    ensures RemoveDirectoryIndex(url) == Some(url)
  {
  }

  /** Removing the directory index a second time changes nothing. */
  lemma RemoveDirectoryIndexIdempotent(u: Url)
    requires IsComposable(u) && MatchesIndexFile(u.path)
    ensures var v := u.(path := WithoutIndexFile(u.path));
            RemoveDirectoryIndex(Compose(u)) == Some(Compose(v)) && RemoveDirectoryIndex(Compose(v)) == Some(Compose(v))
  {
    var v := u.(path := WithoutIndexFile(u.path));
    RemoveDirectoryIndexComposed(u);
    WithoutIndexFileComposable(u);
    WithoutIndexFileDone(u.path);
    ToUrlCompose(v);
    RemoveDirectoryIndexKeeps(Compose(v));
  }

  /** How `RemoveDirectoryIndexAsWritten` reads a URL whose path ends with an index file. */
  lemma RemoveDirectoryIndexAsWrittenAt(s: string, u: Url)
    requires ToUrl(s) == Some(u) && MatchesIndexFile(u.path)
    ensures RemoveDirectoryIndexAsWritten(s) == Some(ReplaceOnce(s, u.path, WithoutIndexFile(u.path)))
  {
  }

  /** A path "/" + name, for an index file name, matches and is cut down to "/". */
  lemma SlashIndexFile(name: string)
    requires IsIndexFileName(name)
    ensures MatchesIndexFile("/" + name) && WithoutIndexFile("/" + name) == "/"
  {
    var path := "/" + name;
    IndexFileNameNoSlash(name);
    assert path[1..] == name && path[..0] == [];
    LastIndexOfCharIs(path, '/', 0);
    assert IndexFileAt(path, 0);
  }

  lemma SliceCons(s: string, k: nat, m: nat)
    requires k < m <= |s|
    ensures s[k..m] == [s[k]] + s[k + 1..m]
  {
  }

  /** With no port and the path "/" + host, the path first occurs at the second '/' after the protocol. */
  lemma SlashHostFirstFound(u: Url)
    requires IsComposable(u) && u.port == -1 && u.host != [] && u.path == "/" + u.host
    ensures OccursAt(Compose(u), u.path, |u.protocol| + 2) && IndexOf(Compose(u), u.path) == |u.protocol| + 2
  {
    var s := Compose(u);
    var p := |u.protocol|;
    ComposeSlices(u);
    AuthorityChars(s, u);
    HostNameExcludes(u.host);
    SliceCons(s, p + 2, PortAt(u));
    FirstOccurrence(s, u.path, p + 2);
  }

  /** Replacing "/" + host after "protocol:/" by "/" leaves "protocol:///" + the path's host. */
  lemma SlashHostReplaced(u: Url)
    requires u.port == -1 && u.path == "/" + u.host
    ensures var s := Compose(u);
            s[..|u.protocol| + 2] + "/" + s[|u.protocol| + 2 + |u.path|..] == u.protocol + ":///" + u.host
  {
    ComposeParts(u);
    assert PortPart(u.port) == [];
    ThreeSlashes(u.protocol, u.host, Compose(u));
  }

  lemma ThreeSlashes(p: string, h: string, s: string)
    requires s == p + "://" + h + [] + ("/" + h)
    ensures s[..|p| + 2] + "/" + s[|p| + 3 + |h|..] == p + ":///" + h
  {
    assert s[..|p| + 2] == p + ":/";
    assert s[|p| + 3 + |h|..] == "/" + h;
  }

  /**
   * When the host is itself an index file name, there is no port and the
   * path is "/" + host ("http://index.html/index.html"), the first
   * occurrence of the path starts at the second '/' after the protocol:
   * the as-written result is "http:///index.html", where the corrected one
   * keeps the host.
   */
  lemma RemoveDirectoryIndexAsWrittenEditsAuthority(u: Url)
    requires IsComposable(u) && u.port == -1 && IsIndexFileName(u.host) && u.path == "/" + u.host
    ensures RemoveDirectoryIndexAsWritten(Compose(u)) == Some(u.protocol + ":///" + u.host)
    ensures RemoveDirectoryIndexAsWritten(Compose(u)) != RemoveDirectoryIndex(Compose(u))
  {
    ToUrlCompose(u);
    SlashIndexFile(u.host);
    IndexFileNameNoSlash(u.host);
    RemoveDirectoryIndexAsWrittenAt(Compose(u), u);
    SlashHostAsWritten(u);
    RemoveDirectoryIndexComposed(u);
    SlashesBeforeHostDiffer(u);
  }

  /** The as-written replacement of "/" + host by "/". */
  lemma SlashHostAsWritten(u: Url)
    requires IsComposable(u) && u.port == -1 && u.host != [] && u.path == "/" + u.host
    ensures ReplaceOnce(Compose(u), u.path, "/") == u.protocol + ":///" + u.host
  {
    SlashHostFirstFound(u);
    ReplaceOnceAt(Compose(u), u.path, "/", |u.protocol| + 2);
    SlashHostReplaced(u);
  }

  /** "protocol:///host" is not the URL with path "/". */
  lemma SlashesBeforeHostDiffer(u: Url)
    requires u.port >= -1 && u.host != [] && u.host[0] != '/'
    ensures u.protocol + ":///" + u.host != Compose(u.(path := "/"))
  {
    var p := |u.protocol|;
    var w := u.protocol + ":///" + u.host;
    var fixed := Compose(u.(path := "/"));
    ComposeSlices(u.(path := "/"));
    assert fixed[p + 3] == u.host[0];
    assert w[p + 3] == '/';
  }
}
