/**
 * `URLNormalizer.removeDotSegments`: single-dot segments are removed from
 * the whole URL text by a regular expression, then the path is split
 * before each '/', and a loop from the last segment backwards drops
 * each "/.." together with a segment before it.
 *
 * The source's loop is kept as a method proved against `Backward`, the
 * state after each of its iterations. `RemoveDots` is the dot-segment
 * removal of section 5.2.4 of RFC 3986 on the same segments; the URL
 * normalizer uses it.
 */
module UrlDotSegments {
  import opened Wrappers
  import opened JavaStrings
  import opened UrlParse
  import opened UrlHostPath
  import opened UrlPortPath

  // ---------------------------------------------------------------------
  // Single dots: url.replaceAll("(^|/)(\\.)(?=/)", "")
  // ---------------------------------------------------------------------

  /**
   * The scan of `replaceAll("(^|/)(\\.)(?=/)", "")` from position `i`: a
   * "./" at the very start loses its '.', and a "/." followed by '/' is
   * removed; the scan goes on at the '/' the look-ahead did not consume.
   */
  function DropSingleDots(s: string, i: nat): string
    decreases |s| - i
  {
    if i >= |s| then []
    else if i == 0 && |s| >= 2 && s[0] == '.' && s[1] == '/' then DropSingleDots(s, 1)
    else if i + 2 < |s| && s[i] == '/' && s[i + 1] == '.' && s[i + 2] == '/' then DropSingleDots(s, i + 2)
    else [s[i]] + DropSingleDots(s, i + 1)
  }

  function RemoveSingleDots(url: string): string {
    DropSingleDots(url, 0)
  }

  /** A "/." followed by '/' at `i`. */
  predicate SlashDotAt(s: string, i: nat) {
    i + 2 < |s| && s[i] == '/' && s[i + 1] == '.' && s[i + 2] == '/'
  }

  /** Where the single-dot pattern matches. */
  predicate HasSingleDot(s: string) {
    (|s| >= 2 && s[0] == '.' && s[1] == '/') || exists i :: 0 <= i < |s| && SlashDotAt(s, i)
  }

  lemma {:induction false} DropSingleDotsKeeps(s: string, i: nat)
    requires i > 0 || !(|s| >= 2 && s[0] == '.' && s[1] == '/')
    requires forall j :: i <= j < |s| ==> !SlashDotAt(s, j)
    ensures DropSingleDots(s, i) == if i >= |s| then [] else s[i..]
    decreases |s| - i
  {
    if i < |s| {
      assert !SlashDotAt(s, i);
      DropSingleDotsKeeps(s, i + 1);
      if i + 1 < |s| {
        assert s[i..] == [s[i]] + s[i + 1..];
      }
    }
  }

  /** A URL the single-dot pattern does not match is left as it is. */
  lemma RemoveSingleDotsKeeps(s: string)
    requires !HasSingleDot(s)
    ensures RemoveSingleDots(s) == s
  {
    DropSingleDotsKeeps(s, 0);
  }

  // ---------------------------------------------------------------------
  // Segments: path.split("(((?<=/\\.\\.)(?=/))|((?=/\\.\\.)(?=/))|(?=/))")
  // ---------------------------------------------------------------------

  function Concat(parts: seq<string>): string {
    if parts == [] then [] else parts[0] + Concat(parts[1..])
  }

  /** One path segment: a '/' and a name without '/'. */
  predicate IsSegment(seg: string) {
    |seg| > 0 && seg[0] == '/' && '/' !in seg[1..]
  }

  /**
   * The pieces of `path.split(...)` with the empty piece removed. Each of
   * the pattern's first two alternatives also requires a '/' to follow, so
   * the pattern splits before every '/', except that a match at the start
   * produces no leading empty piece. The pieces are never empty, so
   * `removeElements(segments, "")` only removes the single piece of an
   * empty path.
   */
  function Segments(path: string): (r: seq<string>)
    ensures forall k :: 0 <= k < |r| ==> r[k] != [] && '/' !in r[k][1..]
    ensures forall k :: 0 < k < |r| ==> r[k][0] == '/'
    ensures path != [] ==> r != [] && r[0][0] == path[0]
    decreases |path|
  {
    if path == [] then []
    else
      var t := TakeUntil(path[1..], '/');
      assert path[..1 + |t|][1..] == t;
      [path[..1 + |t|]] + Segments(path[1 + |t|..])
  }

  lemma ConcatCons(x: string, rest: seq<string>)
    ensures Concat([x] + rest) == x + Concat(rest)
  {
    assert ([x] + rest)[1..] == rest;
  }

  /** The first piece of a non-empty path, and the rest of the path after it. */
  lemma SegmentsCons(path: string)
    requires path != []
    ensures var t := TakeUntil(path[1..], '/');
            && Segments(path) == [path[..1 + |t|]] + Segments(path[1 + |t|..])
            && path == path[..1 + |t|] + path[1 + |t|..]
  {
  }

  /** Splitting loses nothing. */
  lemma {:induction false} ConcatSegments(path: string)
    ensures Concat(Segments(path)) == path
    decreases |path|
  {
    if path != [] {
      var t := TakeUntil(path[1..], '/');
      SegmentsCons(path);
      ConcatCons(path[..1 + |t|], Segments(path[1 + |t|..]));
      ConcatSegments(path[1 + |t|..]);
    }
  }

  /** A path that starts with '/' splits into segments. */
  lemma SegmentsOfAbsolute(path: string)
    requires path != [] && path[0] == '/'
    ensures forall k :: 0 <= k < |Segments(path)| ==> IsSegment(Segments(path)[k])
  {
  }

  lemma {:induction false} TakeUntilName(name: string, rest: string)
    requires '/' !in name && (rest == [] || rest[0] == '/')
    ensures TakeUntil(name + rest, '/') == name
  {
    if name != [] {
      assert (name + rest)[1..] == name[1..] + rest;
      TakeUntilName(name[1..], rest);
    } else {
      assert name + rest == rest;
    }
  }

  /** A segment followed by text that is empty or starts with '/' is split off as it is. */
  lemma SegmentThenRest(seg: string, rest: string)
    requires IsSegment(seg) && (rest == [] || rest[0] == '/')
    ensures Segments(seg + rest) == [seg] + Segments(rest)
  {
    var p := seg + rest;
    var name := seg[1..];
    assert p[1..] == name + rest;
    TakeUntilName(name, rest);
    assert TakeUntil(p[1..], '/') == name;
    SegmentsCons(p);
    assert p[..1 + |name|] == seg && p[1 + |name|..] == rest;
  }

  /** Concatenated segments are empty or start with '/'. */
  lemma ConcatStart(segs: seq<string>)
    requires forall k :: 0 <= k < |segs| ==> IsSegment(segs[k])
    ensures Concat(segs) == [] || Concat(segs)[0] == '/'
  {
    if segs != [] {
      assert Concat(segs) == segs[0] + Concat(segs[1..]);
    }
  }

  /** Concatenated segments split back into the same segments. */
  lemma {:induction false} SegmentsConcat(segs: seq<string>)
    requires forall k :: 0 <= k < |segs| ==> IsSegment(segs[k])
    ensures Segments(Concat(segs)) == segs
  {
    if segs != [] {
      ConcatStart(segs[1..]);
      SegmentThenRest(segs[0], Concat(segs[1..]));
      SegmentsConcat(segs[1..]);
      assert Concat(segs) == segs[0] + Concat(segs[1..]);
      assert segs == [segs[0]] + segs[1..];
    }
  }

  // ---------------------------------------------------------------------
  // Double dots, as written
  // ---------------------------------------------------------------------

  /** `countNonDoubleDotsSegments(segments, i)` on `segments[..i]`. */
  function CountNonDoubleDots(segs: seq<string>): (n: nat)
    ensures n <= |segs|
    ensures n == |segs| <==> forall k :: 0 <= k < |segs| ==> segs[k] != "/.."
  {
    if segs == [] then 0
    else CountNonDoubleDots(segs[..|segs| - 1]) + (if segs[|segs| - 1] != "/.." then 1 else 0)
  }

  /** `countNonDoubleDotsSegments`: the segments before `maxIndex` that are not "/..". */
  method CountNonDoubleDotsSegments(segments: seq<string>, maxIndex: nat) returns (count: nat)
    requires maxIndex <= |segments|
    ensures count == CountNonDoubleDots(segments[..maxIndex])
  {
    count := 0;
    var i := 0;
    while i < maxIndex
      invariant i <= maxIndex
      invariant count == CountNonDoubleDots(segments[..i])
    {
      assert segments[..i + 1][..i] == segments[..i];
      if segments[i] != "/.." {
        count := count + 1;
      }
      i := i + 1;
    }
  }

  /** The variables of the backward loop: `swallowCount`, `stopReplacement` and the text of `b`. */
  datatype LoopState = LoopState(swallow: nat, stop: bool, b: string)

  /** One iteration of the backward loop, on segment `i`. */
  function Step(segs: seq<string>, i: nat, st: LoopState): LoopState
    requires i < |segs|
  {
    var seg := segs[i];
    if st.stop then st.(b := seg + st.b)
    else if seg == "/.." then
      var n := st.swallow + 1;
      if n > CountNonDoubleDots(segs[..i]) then LoopState(n, true, seg + st.b) else LoopState(n, false, st.b)
    else if st.swallow > 0 then st.(swallow := st.swallow - 1)
    else st.(b := seg + st.b)
  }

  /** The loop's state once segments `i` to the last have been visited, last first. */
  function Backward(segs: seq<string>, i: nat): LoopState
    requires i <= |segs|
    decreases |segs| - i
  {
    if i == |segs| then LoopState(0, false, []) else Step(segs, i, Backward(segs, i + 1))
  }

  /** The path `removeDotSegments` builds from the segments. */
  function DoubleDotsAsWritten(segs: seq<string>): string {
    Backward(segs, 0).b
  }

  /** The backward loop of `removeDotSegments`. */
  method RemoveDoubleDotSegments(segments: seq<string>) returns (b: string)
    ensures b == DoubleDotsAsWritten(segments)
  {
    var swallowCount: nat := 0;
    b := [];
    var stopReplacement := false;
    var i: int := |segments| - 1;
    while i >= 0
      invariant -1 <= i < |segments|
      invariant LoopState(swallowCount, stopReplacement, b) == Backward(segments, i + 1)
      decreases i
    {
      var seg := segments[i];
      if stopReplacement {
        b := seg + b;
      } else if seg == "/.." {
        swallowCount := swallowCount + 1;
        var count := CountNonDoubleDotsSegments(segments, i);
        if swallowCount > count {
          b := seg + b;
          stopReplacement := true;
        }
      } else if swallowCount > 0 && seg != "/.." {
        swallowCount := swallowCount - 1;
      } else {
        b := seg + b;
      }
      i := i - 1;
    }
  }

  /** Without "/.." segments every segment is kept in order. */
  lemma {:induction false} BackwardKeeps(segs: seq<string>, i: nat)
    requires i <= |segs| && forall k :: 0 <= k < |segs| ==> segs[k] != "/.."
    ensures Backward(segs, i) == LoopState(0, false, Concat(segs[i..]))
    decreases |segs| - i
  {
    if i < |segs| {
      BackwardKeeps(segs, i + 1);
      assert segs[i..][1..] == segs[i + 1..];
    }
  }

  lemma DoubleDotsAsWrittenKeeps(segs: seq<string>)
    requires forall k :: 0 <= k < |segs| ==> segs[k] != "/.."
    ensures DoubleDotsAsWritten(segs) == Concat(segs)
  {
    BackwardKeeps(segs, 0);
  }

  /**
   * `removeDotSegments` as written: the single dots go from the whole URL
   * text, then the first occurrence of the trimmed path is replaced by the
   * path the backward loop builds.
   */
  function RemoveDotSegmentsAsWritten(url: string): Option<string> {
    var url1 := RemoveSingleDots(url);
    match ToUrl(url1)
    case None => None
    case Some(u) =>
      var path := Trim(u.path);
      Some(ReplaceOnce(url1, path, DoubleDotsAsWritten(Segments(path))))
  }

  // ---------------------------------------------------------------------
  // Dot segments by section 5.2.4 of RFC 3986
  // ---------------------------------------------------------------------

  predicate IsDotSegment(seg: string) {
    seg == "/." || seg == "/.."
  }

  /**
   * The output buffer of section 5.2.4 of RFC 3986, segment by segment: "/."
   * is dropped, "/.." drops the last output segment, and a dot segment at
   * the end leaves a "/" so that the path still ends in a directory.
   */
  function Resolve(segs: seq<string>, out: seq<string>): seq<string>
    decreases |segs|
  {
    if segs == [] then out
    else
      var seg := segs[0];
      var atEnd := |segs| == 1;
      if seg == "/." then Resolve(segs[1..], if atEnd then out + ["/"] else out)
      else if seg == "/.." then
        var popped := if out == [] then [] else out[..|out| - 1];
        Resolve(segs[1..], if atEnd then popped + ["/"] else popped)
      else Resolve(segs[1..], out + [seg])
  }

  /** The path without its dot segments; a path not starting with '/' is kept. */
  function RemoveDots(path: string): string {
    if path == [] || path[0] != '/' then path else Concat(Resolve(Segments(path), []))
  }

  /** Segments, none of them a dot segment. */
  predicate IsClean(out: seq<string>) {
    forall k :: 0 <= k < |out| ==> IsSegment(out[k]) && !IsDotSegment(out[k])
  }

  lemma CleanPush(out: seq<string>, seg: string)
    requires IsClean(out) && IsSegment(seg) && !IsDotSegment(seg)
    ensures IsClean(out + [seg])
  {
    assert forall k :: 0 <= k < |out| ==> (out + [seg])[k] == out[k];
  }

  lemma CleanPop(out: seq<string>)
    requires IsClean(out) && out != []
    ensures IsClean(out[..|out| - 1])
  {
  }

  lemma SlashSegment()
    ensures IsSegment("/") && !IsDotSegment("/")
  {
    assert "/"[1..] == [];
  }

  /** The output buffer never holds a dot segment, and holds only segments. */
  lemma {:induction false} ResolveClean(segs: seq<string>, out: seq<string>)
    requires forall k :: 0 <= k < |segs| ==> IsSegment(segs[k])
    requires IsClean(out)
    ensures IsClean(Resolve(segs, out))
    decreases |segs|
  {
    if segs != [] {
      var seg := segs[0];
      var atEnd := |segs| == 1;
      var popped := if out == [] then [] else out[..|out| - 1];
      SlashSegment();
      if out != [] {
        CleanPop(out);
      }
      CleanPush(out, "/");
      CleanPush(popped, "/");
      if seg == "/." {
        ResolveClean(segs[1..], if atEnd then out + ["/"] else out);
      } else if seg == "/.." {
        ResolveClean(segs[1..], if atEnd then popped + ["/"] else popped);
      } else {
        CleanPush(out, seg);
        ResolveClean(segs[1..], out + [seg]);
      }
    }
  }

  /** Segments without dot segments are all kept. */
  lemma {:induction false} ResolveKeeps(segs: seq<string>, out: seq<string>)
    requires forall k :: 0 <= k < |segs| ==> !IsDotSegment(segs[k])
    ensures Resolve(segs, out) == out + segs
    decreases |segs|
  {
    if segs != [] {
      ResolveKeeps(segs[1..], out + [segs[0]]);
      assert out + [segs[0]] + segs[1..] == out + segs;
    }
  }

  /** No dot segment is left. */
  lemma RemoveDotsClean(path: string)
    requires path != [] && path[0] == '/'
    ensures IsClean(Segments(RemoveDots(path)))
  {
    var r := Resolve(Segments(path), []);
    SegmentsOfAbsolute(path);
    ResolveClean(Segments(path), []);
    SegmentsConcat(r);
  }

  /** A path without dot segments is left as it is. */
  lemma RemoveDotsKeeps(path: string)
    requires forall k :: 0 <= k < |Segments(path)| ==> !IsDotSegment(Segments(path)[k])
    ensures RemoveDots(path) == path
  {
    ResolveKeeps(Segments(path), []);
    assert [] + Segments(path) == Segments(path);
    ConcatSegments(path);
  }

  /** Removing dot segments twice is removing them once. */
  lemma RemoveDotsIdempotent(path: string)
    ensures RemoveDots(RemoveDots(path)) == RemoveDots(path)
  {
    if path != [] && path[0] == '/' {
      RemoveDotsClean(path);
      RemoveDotsKeeps(RemoveDots(path));
    }
  }

  /** On a path without dot segments the loop as written and section 5.2.4 agree. */
  lemma RemoveDotsAgreesWhenClean(path: string)
    requires forall k :: 0 <= k < |Segments(path)| ==> !IsDotSegment(Segments(path)[k])
    ensures DoubleDotsAsWritten(Segments(path)) == RemoveDots(path) == path
  {
    DoubleDotsAsWrittenKeeps(Segments(path));
    ConcatSegments(path);
    RemoveDotsKeeps(path);
  }

  /**
   * The path as `getPath().trim()` reads it: its leading and trailing
   * characters up to U+0020 stay where they are, and the dot segments go
   * from the text between them.
   */
  function RemoveDotsTrimmed(path: string): string {
    var l := LeadingControls(path);
    var t := Trim(path);
    path[..l] + RemoveDots(t) + path[l + |t|..]
  }

  /** A path that starts and ends above U+0020 is not trimmed. */
  lemma RemoveDotsTrimmedUntrimmed(path: string)
    requires path == [] || (path[0] > ' ' && path[|path| - 1] > ' ')
    ensures RemoveDotsTrimmed(path) == RemoveDots(path)
  {
    TrimUnchanged(path);
    if path != [] {
      assert LeadingControls(path) == 0;
    }
    assert path[..0] == [] && path[|path|..] == [];
  }

  /**
   * `removeDotSegments` with the dot segments removed from the path only,
   * and the trimmed path replaced where it is.
   */
  function RemoveDotSegments(url: string): Option<string> {
    match ToUrl(url)
    case None => None
    case Some(u) =>
      var r := Spans(url);
      Some(url[..r.pathStart] + RemoveDotsTrimmed(u.path) + url[r.pathEnd..])
  }

  /**
   * Everything before the path and everything after it (the query and the
   * fragment) is kept.
   */
  lemma RemoveDotSegmentsKeepsOutsidePath(url: string)
    requires ToUrl(url).Some?
    ensures var r := Spans(url);
            var out := RemoveDotSegments(url).value;
            && |out| >= r.pathStart + (|url| - r.pathEnd)
            && out[..r.pathStart] == url[..r.pathStart]
            && out[|out| - (|url| - r.pathEnd)..] == url[r.pathEnd..]
  {
    var r := Spans(url);
    var u := ToUrl(url).value;
    KeptAround(url[..r.pathStart], RemoveDotsTrimmed(u.path), url[r.pathEnd..]);
  }

  lemma KeptAround(a: string, m: string, b: string)
    ensures var s := a + m + b;
            && |s| >= |a| + |b| && s[..|a|] == a && s[|s| - |b|..] == b
  {
  }

  lemma RemoveDotSegmentsAt(s: string, u: Url, ps: nat)
    requires ToUrl(s) == Some(u) && Spans(s).pathStart == ps && Spans(s).pathEnd == |s|
    ensures RemoveDotSegments(s) == Some(s[..ps] + RemoveDotsTrimmed(u.path))
  {
    ReplacedAtEnd(s, ps, RemoveDotsTrimmed(u.path));
  }

  /** The path loses its dot segments and every other part is kept. */
  lemma RemoveDotSegmentsComposed(u: Url)
    requires IsComposable(u)
    ensures RemoveDotSegments(Compose(u)) == Some(Compose(u.(path := RemoveDots(u.path))))
  {
    ToUrlCompose(u);
    SpansAt(u);
    RemoveDotSegmentsAt(Compose(u), u, PathAt(u));
    RemoveDotsTrimmedUntrimmed(u.path);
    ComposeWithPath(u, RemoveDots(u.path));
  }

  lemma ConsSlice(s: string, i: nat, j: nat, rest: string)
    requires i < j <= |s|
    ensures [s[i]] + (s[i + 1..j] + rest) == s[i..j] + rest
  {
    assert s[i..j] == [s[i]] + s[i + 1..j];
  }

  /** The scan copies a stretch where the pattern does not match. */
  lemma {:induction false} DropSingleDotsRun(s: string, i: nat, j: nat)
    requires i <= j <= |s|
    requires i > 0 || !(|s| >= 2 && s[0] == '.' && s[1] == '/')
    requires forall k :: i <= k < j ==> !SlashDotAt(s, k)
    ensures DropSingleDots(s, i) == s[i..j] + DropSingleDots(s, j)
    decreases j - i
  {
    if i < j {
      assert !SlashDotAt(s, i);
      assert DropSingleDots(s, i) == [s[i]] + DropSingleDots(s, i + 1);
      DropSingleDotsRun(s, i + 1, j);
      ConsSlice(s, i, j, DropSingleDots(s, j));
    }
  }

  /**
   * The single-dot pattern runs over the whole URL text, so a "/./" in the
   * query goes too: with `a` = "http://h/a?x=" and `y` = "y",
   * "http://h/a?x=/./y" becomes "http://h/a?x=/y" before the path is read.
   */
  lemma SingleDotsEditQueryAsWritten(a: string, y: string)
    requires '?' in a && '.' !in a && '.' !in y
    ensures RemoveSingleDots(a + "/./" + y) == a + "/" + y
  {
    var s := a + "/./" + y;
    SingleDotLayout(a, y);
    DropOneSingleDot(s, |a|);
    assert a + ("/" + y) == a + "/" + y;
  }

  /** A text matched only at `p` loses the "/." there. */
  lemma DropOneSingleDot(s: string, p: nat)
    requires SlashDotAt(s, p) && s[0] != '.'
    requires forall k :: 0 <= k < p ==> !SlashDotAt(s, k)
    requires forall k :: p + 2 <= k < |s| ==> !SlashDotAt(s, k)
    ensures RemoveSingleDots(s) == s[..p] + s[p + 2..]
  {
    DropSingleDotsRun(s, 0, p);
    assert DropSingleDots(s, p) == DropSingleDots(s, p + 2);
    DropSingleDotsKeeps(s, p + 2);
    assert s[0..p] == s[..p];
  }

  /** Where `a + "/./" + y` matches the single-dot pattern: only at the "/./". */
  lemma SingleDotLayout(a: string, y: string)
    requires '.' !in a && '.' !in y
    ensures var s := a + "/./" + y;
            && SlashDotAt(s, |a|) && s[0] != '.'
            && (forall k :: 0 <= k < |a| ==> !SlashDotAt(s, k))
            && (forall k :: |a| + 2 <= k < |s| ==> !SlashDotAt(s, k))
            && s[..|a|] == a && s[|a| + 2..] == "/" + y
  {
    var s := a + "/./" + y;
    forall k | 0 <= k < |a| ensures !SlashDotAt(s, k) {
      if k + 1 < |a| {
        assert s[k + 1] == a[k + 1];
      }
    }
    forall k | |a| + 2 <= k < |s| ensures !SlashDotAt(s, k) {
      if k + 1 < |s| {
        assert s[k + 1] == y[k + 1 - |a| - 3];
      }
    }
    assert s[|a| + 2..] == "/" + y;
  }

  // ---------------------------------------------------------------------
  // Where the loop as written and section 5.2.4 differ
  // ---------------------------------------------------------------------

  /** A segment that is not a dot segment is pushed. */
  lemma ResolvePush(seg: string, rest: seq<string>, out: seq<string>)
    requires !IsDotSegment(seg)
    ensures Resolve([seg] + rest, out) == Resolve(rest, out + [seg])
  {
    assert ([seg] + rest)[1..] == rest;
  }

  /** Segments `x`, `y`, ... that are not dot segments. */
  predicate Plain(x: string) {
    IsSegment(x) && !IsDotSegment(x)
  }

  /**
   * "/.." + a + b + "/.." + c + d, the shape of the example in the method's
   * documentation once its single dot is gone ("/../a/b/../c/d.html"): the
   * loop as written keeps the leading "/..", where section 5.2.4 of
   * RFC 3986 removes it, as the documentation shows ("/a/c/d.html").
   */
  lemma DocumentedExampleAsWritten(a: string, b: string, c: string, d: string)
    requires Plain(a) && Plain(b) && Plain(c) && Plain(d)
    ensures var segs := ["/..", a, b, "/..", c, d];
            && DoubleDotsAsWritten(segs) == "/.." + a + c + d
            && Concat(Resolve(segs, [])) == a + c + d
            && Segments(Concat(segs)) == segs
  {
    DocumentedExampleLoop(a, b, c, d);
    DocumentedExampleResolved(a, b, c, d);
    assert IsSegment("/..") by {
      assert "/.."[1..] == "..";
    }
    SegmentsConcat(["/..", a, b, "/..", c, d]);
  }

  lemma DocumentedExampleLoop(a: string, b: string, c: string, d: string)
    requires Plain(a) && Plain(b) && Plain(c) && Plain(d)
    ensures DoubleDotsAsWritten(["/..", a, b, "/..", c, d]) == "/.." + a + c + d
  {
    var segs := ["/..", a, b, "/..", c, d];
    assert a != "/.." && b != "/.." && c != "/.." && d != "/..";
    assert CountNonDoubleDots(segs[..3]) == 2 by {
      var one: seq<string> := ["/.."];
      var two: seq<string> := ["/..", a];
      assert CountNonDoubleDots(one) == 0 by {
        assert one[..0] == [];
      }
      assert CountNonDoubleDots(two) == 1 by {
        assert two[..1] == one;
      }
      assert segs[..3][..2] == two;
    }
    assert CountNonDoubleDots(segs[..0]) == 0 by {
      assert segs[..0] == [];
    }
    assert |segs| == 6 && Backward(segs, 6) == LoopState(0, false, []);
    var s5 := Backward(segs, 5);
    assert s5 == LoopState(0, false, d) by {
      assert s5 == Step(segs, 5, Backward(segs, 6)) && segs[5] == d && d + [] == d;
    }
    var s4 := Backward(segs, 4);
    assert s4 == LoopState(0, false, c + d) by {
      assert s4 == Step(segs, 4, s5) && segs[4] == c;
    }
    var s3 := Backward(segs, 3);
    assert s3 == LoopState(1, false, c + d) by {
      assert s3 == Step(segs, 3, s4) && segs[3] == "/..";
    }
    var s2 := Backward(segs, 2);
    assert s2 == LoopState(0, false, c + d) by {
      assert s2 == Step(segs, 2, s3) && segs[2] == b;
    }
    var s1 := Backward(segs, 1);
    assert s1 == LoopState(0, false, a + c + d) by {
      assert s1 == Step(segs, 1, s2) && segs[1] == a;
    }
    assert Backward(segs, 0) == Step(segs, 0, s1) && segs[0] == "/..";
  }

  lemma DocumentedExampleResolved(a: string, b: string, c: string, d: string)
    requires Plain(a) && Plain(b) && Plain(c) && Plain(d)
    ensures Concat(Resolve(["/..", a, b, "/..", c, d], [])) == a + c + d
  {
    DocumentedExampleSegments(a, b, c, d);
    ConcatCons(a, [c, d]);
    ConcatCons(c, [d]);
    ConcatCons(d, []);
  }

  lemma DocumentedExampleSegments(a: string, b: string, c: string, d: string)
    requires Plain(a) && Plain(b) && Plain(c) && Plain(d)
    ensures Resolve(["/..", a, b, "/..", c, d], []) == [a, c, d]
  {
    var ab, cd := [a, b], [c, d];
    ResolvePop(["/..", a, b, "/..", c, d], []);
    assert ["/..", a, b, "/..", c, d][1..] == [a, b, "/..", c, d];
    ResolvePush(a, [b, "/..", c, d], []);
    assert [a] + [b, "/..", c, d] == [a, b, "/..", c, d] && [] + [a] == [a];
    ResolvePush(b, ["/..", c, d], [a]);
    assert [b] + ["/..", c, d] == [b, "/..", c, d] && [a] + [b] == ab;
    ResolvePop(["/..", c, d], ab);
    assert ab[..1] == [a] && ["/..", c, d][1..] == cd;
    ResolvePush(c, [d], [a]);
    assert [c] + [d] == cd && [a] + [c] == [a, c];
    ResolvePush(d, [], [a, c]);
    assert [d] + [] == [d] && [a, c] + [d] == [a, c, d];
  }

  /** A "/.." that is not the last segment drops the last segment kept so far. */
  lemma ResolvePop(segs: seq<string>, out: seq<string>)
    requires |segs| >= 2 && segs[0] == "/.."
    ensures Resolve(segs, out) == Resolve(segs[1..], if out == [] then [] else out[..|out| - 1])
  {
  }

  /** A final "/.." takes the trailing '/' of the remaining directory with it ("/a/b/.." gives "/a"). */
  lemma FinalDoubleDotAsWritten(a: string, b: string)
    requires Plain(a) && Plain(b)
    ensures var segs := [a, b, "/.."];
            && DoubleDotsAsWritten(segs) == a
            && Concat(Resolve(segs, [])) == a + "/"
            && Segments(Concat(segs)) == segs
  {
    var segs := [a, b, "/.."];
    FinalDoubleDotLoop(a, b);
    FinalDoubleDotResolved(a, b);
    assert IsSegment("/..") by {
      assert "/.."[1..] == "..";
    }
    SegmentsConcat(segs);
  }

  lemma FinalDoubleDotLoop(a: string, b: string)
    requires Plain(a) && Plain(b)
    ensures DoubleDotsAsWritten([a, b, "/.."]) == a
  {
    var segs := [a, b, "/.."];
    assert a != "/.." && b != "/..";
    var pair: seq<string> := [a, b];
    assert CountNonDoubleDots(pair) == 2 by {
      assert pair[..1] == [a] && [a][..0] == [];
    }
    assert |segs| == 3 && segs[..2] == pair;
    var s2 := Backward(segs, 2);
    assert s2 == LoopState(1, false, []) by {
      assert s2 == Step(segs, 2, Backward(segs, 3)) && segs[2] == "/..";
    }
    var s1 := Backward(segs, 1);
    assert s1 == LoopState(0, false, []) by {
      assert s1 == Step(segs, 1, s2) && segs[1] == b;
    }
    assert Backward(segs, 0) == Step(segs, 0, s1) && segs[0] == a && a + [] == a;
  }

  lemma FinalDoubleDotResolved(a: string, b: string)
    requires Plain(a) && Plain(b)
    ensures Concat(Resolve([a, b, "/.."], [])) == a + "/"
  {
    ResolvePush(a, [b, "/.."], []);
    assert [a] + [b, "/.."] == [a, b, "/.."] && [] + [a] == [a];
    ResolvePush(b, ["/.."], [a]);
    assert [b] + ["/.."] == [b, "/.."] && [a] + [b] == [a, b];
    assert [a, b][..1] == [a];
    assert Resolve(["/.."], [a, b]) == [a, "/"];
    ConcatCons(a, ["/"]);
    ConcatCons("/", []);
  }

  /**
   * Two "/.." after one segment ("/a/../.." gives "/a/.."): the loop stops
   * at the first and keeps it, so a dot segment is left, and a second run
   * changes the path again.
   */
  lemma ExcessDoubleDotAsWritten(a: string)
    requires Plain(a)
    ensures var segs := [a, "/..", "/.."];
            && DoubleDotsAsWritten(segs) == a + "/.."
            && DoubleDotsAsWritten([a, "/.."]) == []
            && Concat(Resolve(segs, [])) == "/"
            && Segments(Concat(segs)) == segs
  {
    var segs := [a, "/..", "/.."];
    assert segs[..2] == [a, "/.."] && [a, "/.."][..1] == [a] && [a][..0] == [] && segs[..1] == [a];
    assert Backward(segs, 2) == LoopState(1, false, []);
    assert Backward(segs, 1) == LoopState(2, true, "/..");
    assert Backward([a, "/.."], 1) == LoopState(1, false, []);
    assert Resolve(segs, []) == Resolve(["/..", "/.."], [a]);
    assert Resolve(["/..", "/.."], [a]) == Resolve(["/.."], []);
    assert Resolve(["/.."], []) == ["/"];
    ConcatCons("/", []);
    ConcatCons(a, ["/..", "/.."]);
    assert IsSegment("/..") by {
      assert "/.."[1..] == "..";
    }
    SegmentsConcat(segs);
  }

  /**
   * A final "/." is not matched by the single-dot pattern, whose look-ahead
   * needs a '/' after the dot: with `x` = "http://h/a", "http://h/a/." is
   * kept by the first pass.
   */
  lemma FinalSingleDotSurvives(x: string)
    requires '.' !in x
    ensures RemoveSingleDots(x + "/.") == x + "/."
  {
    var s := x + "/.";
    forall k | 0 <= k < |s| ensures !SlashDotAt(s, k) {
      if k + 1 < |x| {
        assert s[k + 1] == x[k + 1];
      }
    }
    assert s[0] != '.' by {
      if x != [] {
        assert s[0] == x[0];
      }
    }
    DropSingleDotsKeeps(s, 0);
    assert s[0..] == s;
  }

  /** A path that ends in "/." splits into the segment before it and "/.". */
  lemma FinalSingleDotSegments(a: string)
    requires Plain(a)
    ensures Segments(a + "/.") == [a, "/."]
  {
    assert IsSegment("/.") by {
      assert "/."[1..] == ".";
    }
    TwoSegments(a, "/.");
  }

  /**
   * The loop keeps a final "/." as an ordinary segment ("/a/." stays
   * "/a/."), so a dot segment is left.
   */
  lemma FinalSingleDotAsWritten(a: string)
    requires Plain(a)
    ensures Segments(a + "/.") == [a, "/."]
    ensures DoubleDotsAsWritten([a, "/."]) == a + "/."
  {
    FinalSingleDotSegments(a);
    DoubleDotsAsWrittenKeeps([a, "/."]);
    ConcatCons(a, ["/."]);
    ConcatCons("/.", []);
  }

  /** A final "/." leaves the directory's trailing '/' ("/a/." gives "/a/"). */
  lemma FinalSingleDotResolved(a: string)
    requires Plain(a)
    ensures RemoveDots(a + "/.") == a + "/"
  {
    FinalSingleDotSegments(a);
    ResolvePush(a, ["/."], []);
    assert [a] + ["/."] == [a, "/."] && [] + [a] == [a];
    assert Resolve(["/."], [a]) == [a, "/"];
    ConcatCons(a, ["/"]);
    ConcatCons("/", []);
  }

  /**
   * A path that does not start with '/' (the URL has no authority, as in
   * "http:a/../b") is split before each '/' all the same: its first piece
   * is the name before the first '/'.
   */
  lemma RelativeSegments(a: string, b: string)
    requires a != [] && '/' !in a && Plain(b)
    ensures Segments(a + "/.." + b) == [a, "/..", b]
  {
    assert IsSegment("/..") by {
      assert "/.."[1..] == "..";
    }
    ThreePieces(a, "/..", b);
  }

  /** A name and two segments split into those three pieces. */
  lemma ThreePieces(a: string, d: string, b: string)
    requires a != [] && '/' !in a && IsSegment(d) && IsSegment(b)
    ensures Segments(a + d + b) == [a, d, b]
  {
    JoinedSegments(a, d, b);
    NameThenRest(a, d + b);
    TwoSegments(d, b);
    ConsPair(a, d, b, [a] + Segments(d + b));
  }

  /** Two segments split into those two pieces. */
  lemma TwoSegments(d: string, b: string)
    requires IsSegment(d) && IsSegment(b)
    ensures Segments(d + b) == [d, b]
  {
    SegmentThenRest(d, b);
    SegmentThenRest(b, []);
    assert b + [] == b;
  }

  /** Regrouping a name and two segments, and where the last two start. */
  lemma JoinedSegments(a: string, d: string, b: string)
    requires IsSegment(d)
    ensures a + d + b == a + (d + b) && (d + b)[0] == '/'
  {
  }

  /** A piece put before a pair of pieces. */
  lemma ConsPair(a: string, d: string, b: string, x: seq<string>)
    requires x == [a] + [d, b]
    ensures x == [a, d, b]
  {
  }

  /** A name without '/' followed by text that is empty or starts with '/' is the first piece. */
  lemma NameThenRest(name: string, rest: string)
    requires name != [] && '/' !in name && (rest == [] || rest[0] == '/')
    ensures Segments(name + rest) == [name] + Segments(rest)
  {
    var p := name + rest;
    assert p[1..] == name[1..] + rest;
    TakeUntilName(name[1..], rest);
    SegmentsCons(p);
    assert p[..|name|] == name && p[|name|..] == rest;
  }

  /**
   * On such a path the loop lets the "/.." swallow the first name: the
   * path "a/../b" is rebuilt as "/b", so the text no longer starts as it
   * did ("http:a/../b" becomes "http:/b").
   */
  lemma RelativePathAsWritten(a: string, b: string)
    requires a != [] && '/' !in a && Plain(b)
    ensures Segments(a + "/.." + b) == [a, "/..", b]
    ensures DoubleDotsAsWritten([a, "/..", b]) == b
  {
    RelativeSegments(a, b);
    var segs := [a, "/..", b];
    assert a != "/.." && b != "/..";
    assert segs[..1] == [a] && [a][..0] == [];
    assert CountNonDoubleDots(segs[..1]) == 1;
    var s2 := Backward(segs, 2);
    assert s2 == LoopState(0, false, b) by {
      assert s2 == Step(segs, 2, Backward(segs, 3)) && segs[2] == b && b + [] == b;
    }
    var s1 := Backward(segs, 1);
    assert s1 == LoopState(1, false, b) by {
      assert s1 == Step(segs, 1, s2) && segs[1] == "/..";
    }
    assert Backward(segs, 0) == Step(segs, 0, s1) && segs[0] == a;
  }

  /**
   * A path that does not start with '/' is kept, as `URI.normalize` keeps
   * an opaque URI such as "http:a/../b".
   */
  lemma RelativePathKept(path: string)
    requires path != [] && path[0] > ' ' && path[0] != '/' && path[|path| - 1] > ' '
    ensures RemoveDotsTrimmed(path) == path
  {
    RemoveDotsTrimmedUntrimmed(path);
  }
}
