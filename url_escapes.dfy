/**
 * The percent-escape normalizations of `URLNormalizer`: upper-casing the hex
 * digits of escapes (section 6.2.2.1 of RFC 3986), decoding escapes of
 * unreserved characters (sections 2.3 and 6.2.2.2 of RFC 3986) and encoding
 * spaces as '+'.
 *
 * Both escape normalizations run a `Matcher` over the pattern
 * `%[0-9a-f]{2}` (case-insensitive) and rewrite each match in turn. The
 * matches of such a loop are the non-overlapping ones found left to right;
 * `MapEscapes` is that scan written as a function, and the two methods below
 * are the `find`/`appendReplacement`/`appendTail` loops proved against it.
 */
module UrlEscapes {
  import opened JavaStrings

  /** The pattern `%[0-9a-f]{2}` (case-insensitive) matches at `i`. */
  predicate EscapeAt(s: string, i: int) {
    0 <= i && i + 3 <= |s| && s[i] == '%' && IsHexDigit(s[i + 1]) && IsHexDigit(s[i + 2])
  }

  /** The text produced when every match of the scan is replaced by `f(match)`. */
  function MapEscapes(s: string, f: string -> string): string
    decreases |s|
  {
    if EscapeAt(s, 0) then f(s[..3]) + MapEscapes(s[3..], f)
    else if s == [] then []
    else [s[0]] + MapEscapes(s[1..], f)
  }

  /** What `Matcher.find()` returns when started at `from`: the next match, or -1. */
  function NextEscape(s: string, from: nat): (j: int)
    ensures j == -1 || (from <= j && EscapeAt(s, j))
    decreases |s| - from
  {
    if from >= |s| then -1
    else if EscapeAt(s, from) then from
    else NextEscape(s, from + 1)
  }

  /** `find()` skips no match: there is none between `from` and what it returns. */
  lemma {:induction false} NextEscapeSkipsNone(s: string, from: nat)
    ensures var j := NextEscape(s, from);
            forall p :: from <= p < (if j == -1 then |s| else j) ==> !EscapeAt(s, p)
    decreases |s| - from
  {
    if from < |s| && !EscapeAt(s, from) {
      NextEscapeSkipsNone(s, from + 1);
    }
  }

  /** The scan from `from` copies the text up to the next match, then rewrites it. */
  lemma {:induction false} MapEscapesToNext(s: string, from: nat, f: string -> string)
    requires from <= |s| && NextEscape(s, from) != -1
    ensures var j := NextEscape(s, from);
            MapEscapes(s[from..], f) == s[from..j] + f(s[j..j + 3]) + MapEscapes(s[j + 3..], f)
    decreases |s| - from
  {
    if EscapeAt(s, from) {
      MapEscapesAtMatch(s, from, f);
    } else {
      var j := NextEscape(s, from + 1);
      assert NextEscape(s, from) == j && EscapeAt(s, j);
      MapEscapesToNext(s, from + 1, f);
      CopyStep(s, from, j, f);
    }
  }

  /** A character before the next match is copied in front of what the scan does after it. */
  lemma CopyStep(s: string, from: nat, j: nat, f: string -> string)
    requires from < j && j + 3 <= |s| && !EscapeAt(s, from)
    requires MapEscapes(s[from + 1..], f) == s[from + 1..j] + f(s[j..j + 3]) + MapEscapes(s[j + 3..], f)
    ensures MapEscapes(s[from..], f) == s[from..j] + f(s[j..j + 3]) + MapEscapes(s[j + 3..], f)
  {
    MapEscapesCopies(s, from, f);
    ConsPrefix(s, from, j, f(s[j..j + 3]), MapEscapes(s[j + 3..], f));
  }

  /** Without a further match the scan copies the rest of the text. */
  lemma {:induction false} MapEscapesNoNext(s: string, from: nat, f: string -> string)
    requires from <= |s| && NextEscape(s, from) == -1
    ensures MapEscapes(s[from..], f) == s[from..]
    decreases |s| - from
  {
    if from < |s| {
      MapEscapesCopies(s, from, f);
      MapEscapesNoNext(s, from + 1, f);
      assert s[from..] == [s[from]] + s[from + 1..];
    }
  }

  /**
   * One turn of a `find`/`appendReplacement` loop: with `sb` holding the
   * output so far, copying up to the next match and appending its
   * replacement leaves the rest of the scan still to do.
   */
  lemma ScanNext(s: string, sb: string, from: nat, f: string -> string, total: string)
    requires from <= |s| && NextEscape(s, from) != -1
    requires sb + MapEscapes(s[from..], f) == total
    ensures var j := NextEscape(s, from);
            (sb + s[from..j] + f(s[j..j + 3])) + MapEscapes(s[j + 3..], f) == total
  {
    var j := NextEscape(s, from);
    MapEscapesToNext(s, from, f);
    var a, b, c := s[from..j], f(s[j..j + 3]), MapEscapes(s[j + 3..], f);
    assert sb + (a + b + c) == (sb + a + b) + c;
  }

  /** The end of such a loop: `appendTail` completes the output. */
  lemma ScanEnd(s: string, sb: string, from: nat, f: string -> string, total: string)
    requires from <= |s| && NextEscape(s, from) == -1
    requires sb + MapEscapes(s[from..], f) == total
    ensures sb + s[from..] == total
  {
    MapEscapesNoNext(s, from, f);
  }

  lemma ConsPrefix(s: string, from: nat, j: nat, x: string, y: string)
    requires from < j <= |s|
    ensures [s[from]] + (s[from + 1..j] + x + y) == s[from..j] + x + y
  {
    assert s[from..j] == [s[from]] + s[from + 1..j];
  }

  /** At a match the scan rewrites it and goes on after it. */
  lemma MapEscapesAtMatch(s: string, from: nat, f: string -> string)
    requires EscapeAt(s, from)
    ensures NextEscape(s, from) == from
    ensures MapEscapes(s[from..], f) == s[from..from] + f(s[from..from + 3]) + MapEscapes(s[from + 3..], f)
  {
    var t := s[from..];
    assert EscapeAt(t, 0);
    assert t[..3] == s[from..from + 3] && t[3..] == s[from + 3..];
  }

  /** Before a match the scan copies one character. */
  lemma MapEscapesCopies(s: string, from: nat, f: string -> string)
    requires from < |s| && !EscapeAt(s, from)
    ensures MapEscapes(s[from..], f) == [s[from]] + MapEscapes(s[from + 1..], f)
  {
    var t := s[from..];
    assert !EscapeAt(t, 0);
    assert t[1..] == s[from + 1..];
  }

  /** A URL without '%' has no escape for the scan to rewrite. */
  lemma NoPercentNoEscape(s: string, f: string -> string)
    requires IndexOf(s, "%") == -1
    ensures MapEscapes(s, f) == s
  {
    assert NextEscape(s, 0) == -1 by {
      if NextEscape(s, 0) != -1 {
        assert OccursAt(s, "%", NextEscape(s, 0));
      }
    }
    MapEscapesNoNext(s, 0, f);
  }

  // ---------------------------------------------------------------------
  // upperCaseEscapeSequence
  // ---------------------------------------------------------------------

  /** `m.group(1).toUpperCase()` of a match. */
  function UpperTriple(t: string): string {
    if |t| == 3 then ['%', ToUpperAscii(t[1]), ToUpperAscii(t[2])] else t
  }

  /** The URL after `upperCaseEscapeSequence`. */
  function UpperCaseEscapes(s: string): string {
    MapEscapes(s, UpperTriple)
  }

  /**
   * Upper-casing keeps the length, changes only lower-case hex letters (to
   * their upper case), and only inside some `%XX` escape.
   */
  lemma UpperCaseEscapesPointwise(s: string)
    ensures |UpperCaseEscapes(s)| == |s|
    ensures forall i :: 0 <= i < |s| ==>
              var c := UpperCaseEscapes(s)[i];
              (c == s[i] || ('a' <= s[i] <= 'f' && c == ToUpperAscii(s[i])))
              && (IsHexDigit(c) <==> IsHexDigit(s[i]))
    ensures forall i :: 0 <= i < |s| && UpperCaseEscapes(s)[i] != s[i] ==>
              exists j :: EscapeAt(s, j) && j < i <= j + 2
  {
    UpperCaseEscapesChars(s);
    UpperCaseEscapesWithin(s);
  }

  /** What upper-casing may do to one character. */
  predicate UpperedFrom(x: char, y: char) {
    (y == x || ('a' <= x <= 'f' && y == ToUpperAscii(x))) && (IsHexDigit(y) <==> IsHexDigit(x))
  }

  lemma UpperHexDigit(x: char)
    requires IsHexDigit(x)
    ensures UpperedFrom(x, ToUpperAscii(x))
  {
  }

  lemma {:induction false} UpperCaseEscapesChars(s: string)
    ensures |UpperCaseEscapes(s)| == |s|
    ensures forall i :: 0 <= i < |s| ==> UpperedFrom(s[i], UpperCaseEscapes(s)[i])
    decreases |s|
  {
    var r := UpperCaseEscapes(s);
    if EscapeAt(s, 0) {
      var t, rest := s[3..], UpperCaseEscapes(s[3..]);
      UpperCaseEscapesChars(t);
      var head := UpperTriple(s[..3]);
      assert r == head + rest;
      UpperHexDigit(s[1]);
      UpperHexDigit(s[2]);
      forall i | 0 <= i < |s| ensures UpperedFrom(s[i], r[i]) {
        if i >= 3 {
          assert r[i] == rest[i - 3] && s[i] == t[i - 3];
        }
      }
    } else if s != [] {
      var t, rest := s[1..], UpperCaseEscapes(s[1..]);
      UpperCaseEscapesChars(t);
      assert r == [s[0]] + rest;
      forall i | 0 <= i < |s| ensures UpperedFrom(s[i], r[i]) {
        if i >= 1 {
          assert r[i] == rest[i - 1] && s[i] == t[i - 1];
        }
      }
    }
  }

  lemma {:induction false} UpperCaseEscapesWithin(s: string)
    ensures |UpperCaseEscapes(s)| == |s|
    ensures forall i :: 0 <= i < |s| && UpperCaseEscapes(s)[i] != s[i] ==>
              exists j :: EscapeAt(s, j) && j < i <= j + 2
    decreases |s|
  {
    var r := UpperCaseEscapes(s);
    if EscapeAt(s, 0) {
      var t, rest := s[3..], UpperCaseEscapes(s[3..]);
      UpperCaseEscapesWithin(t);
      assert r == UpperTriple(s[..3]) + rest;
      forall i | 0 <= i < |s| && r[i] != s[i]
        ensures exists j :: EscapeAt(s, j) && j < i <= j + 2
      {
        if i >= 3 {
          assert r[i] == rest[i - 3] && s[i] == t[i - 3];
          var j' :| EscapeAt(t, j') && j' < i - 3 <= j' + 2;
          assert EscapeAt(s, j' + 3);
        } else {
          assert r[0] == '%' == s[0];
          assert EscapeAt(s, 0) && 0 < i <= 2;
        }
      }
    } else if s != [] {
      var t, rest := s[1..], UpperCaseEscapes(s[1..]);
      UpperCaseEscapesWithin(t);
      assert r == [s[0]] + rest;
      forall i | 0 <= i < |s| && r[i] != s[i]
        ensures exists j :: EscapeAt(s, j) && j < i <= j + 2
      {
        assert i >= 1;
        assert r[i] == rest[i - 1] && s[i] == t[i - 1];
        var j' :| EscapeAt(t, j') && j' < i - 1 <= j' + 2;
        assert EscapeAt(s, j' + 1);
      }
    }
  }

  /** Applying `upperCaseEscapeSequence` twice equals applying it once. */
  lemma {:induction false} UpperCaseEscapesIdempotent(s: string)
    ensures UpperCaseEscapes(UpperCaseEscapes(s)) == UpperCaseEscapes(s)
    decreases |s|
  {
    var r := UpperCaseEscapes(s);
    if EscapeAt(s, 0) {
      var head := UpperTriple(s[..3]);
      assert r == head + UpperCaseEscapes(s[3..]);
      assert EscapeAt(r, 0);
      assert r[..3] == head && r[3..] == UpperCaseEscapes(s[3..]);
      assert UpperTriple(head) == head;
      UpperCaseEscapesIdempotent(s[3..]);
    } else if s != [] {
      assert r == [s[0]] + UpperCaseEscapes(s[1..]);
      UpperCaseEscapesPointwise(s);
      assert r[0] == s[0];
      assert |r| >= 3 ==> (IsHexDigit(r[1]) <==> IsHexDigit(s[1])) && (IsHexDigit(r[2]) <==> IsHexDigit(s[2]));
      assert !EscapeAt(r, 0);
      assert r[1..] == UpperCaseEscapes(s[1..]);
      UpperCaseEscapesIdempotent(s[1..]);
    }
  }

  /** `upperCaseEscapeSequence`: the `Matcher` loop with `appendReplacement`. */
  method UpperCaseEscapeSequence(url: string) returns (r: string)
    ensures r == UpperCaseEscapes(url)
  {
    if IndexOf(url, "%") == -1 {
      NoPercentNoEscape(url, UpperTriple);
      return url;
    }
    var sb := "";
    var last := 0;
    var j := NextEscape(url, 0);
    while j != -1
      invariant 0 <= last <= |url|
      invariant j == NextEscape(url, last)
      invariant sb + UpperCaseEscapes(url[last..]) == UpperCaseEscapes(url)
      decreases |url| - last
    {
      ScanNext(url, sb, last, UpperTriple, UpperCaseEscapes(url));
      sb := sb + url[last..j] + UpperTriple(url[j..j + 3]);
      last := j + 3;
      j := NextEscape(url, last);
    }
    ScanEnd(url, sb, last, UpperTriple, UpperCaseEscapes(url));
    r := sb + url[last..];
  }

  // ---------------------------------------------------------------------
  // decodeUnreservedCharacters
  // ---------------------------------------------------------------------

  /** The unreserved characters of section 2.3 of RFC 3986: ALPHA / DIGIT / "-" / "." / "_" / "~". */
  predicate IsUnreserved(c: char) {
    var v := c as int;
    || 0x41 <= v <= 0x5A || 0x61 <= v <= 0x7A || 0x30 <= v <= 0x39
    || v == 0x2D || v == 0x2E || v == 0x5F || v == 0x7E
  }

  function HexValue(c: char): (v: nat)
    ensures v < 16
  {
    if IsAsciiDigit(c) then c as int - '0' as int
    else if 'a' <= c <= 'f' then c as int - 'a' as int + 10
    else if 'A' <= c <= 'F' then c as int - 'A' as int + 10
    else 0
  }

  /** The character a `%XX` escape stands for, as `URLDecoder` decodes an ASCII byte. */
  function EscapedChar(t: string): char
    requires |t| == 3
  {
    (HexValue(t[1]) * 16 + HexValue(t[2])) as char
  }

  /**
   * `isEncodedUnreservedCharacter(enc)`, with its `String.compareTo` range
   * tests, applied to an upper-cased escape.
   */
  predicate IsEncodedUnreservedCharacter(enc: string) {
    || (CompareTo(enc, "%41") >= 0 && CompareTo(enc, "%5A") <= 0)
    || (CompareTo(enc, "%61") >= 0 && CompareTo(enc, "%7A") <= 0)
    || (CompareTo(enc, "%30") >= 0 && CompareTo(enc, "%39") <= 0)
    || enc == "%2D" || enc == "%2E" || enc == "%5F" || enc == "%7E"
  }

  predicate IsUpperHexDigit(c: char) { IsAsciiDigit(c) || 'A' <= c <= 'F' }

  /** Among upper-case hex digits, character order is numeric order. */
  lemma HexOrder(a: char, b: char)
    requires IsUpperHexDigit(a) && IsUpperHexDigit(b)
    ensures a < b <==> HexValue(a) < HexValue(b)
    ensures a == b <==> HexValue(a) == HexValue(b)
  {
  }

  /**
   * The string comparisons of `isEncodedUnreservedCharacter` select exactly
   * the escapes of unreserved characters.
   */
  lemma EncodedUnreservedIsRfc3986(enc: string)
    requires |enc| == 3 && enc[0] == '%' && IsUpperHexDigit(enc[1]) && IsUpperHexDigit(enc[2])
    ensures IsEncodedUnreservedCharacter(enc) <==> IsUnreserved(EscapedChar(enc))
  {
    EscapeInRange(enc, "%41", "%5A", 0x41, 0x5A);
    EscapeInRange(enc, "%61", "%7A", 0x61, 0x7A);
    EscapeInRange(enc, "%30", "%39", 0x30, 0x39);
    EscapeIs(enc, "%2D", 0x2D);
    EscapeIs(enc, "%2E", 0x2E);
    EscapeIs(enc, "%5F", 0x5F);
    EscapeIs(enc, "%7E", 0x7E);
  }

  /** One range test of `isEncodedUnreservedCharacter`, read as a range of characters. */
  lemma EscapeInRange(enc: string, lo: string, hi: string, l: int, h: int)
    requires |enc| == 3 && enc[0] == '%' && IsUpperHexDigit(enc[1]) && IsUpperHexDigit(enc[2])
    requires |lo| == 3 && lo[0] == '%' && IsUpperHexDigit(lo[1]) && IsUpperHexDigit(lo[2])
    requires |hi| == 3 && hi[0] == '%' && IsUpperHexDigit(hi[1]) && IsUpperHexDigit(hi[2])
    requires EscapedChar(lo) as int == l && EscapedChar(hi) as int == h
    ensures (CompareTo(enc, lo) >= 0 && CompareTo(enc, hi) <= 0) <==> l <= EscapedChar(enc) as int <= h
  {
    CompareEscapes(enc, lo);
    CompareEscapes(enc, hi);
  }

  /** One equality test of `isEncodedUnreservedCharacter`, read as a test of the character. */
  lemma EscapeIs(enc: string, e: string, v: int)
    requires |enc| == 3 && enc[0] == '%' && IsUpperHexDigit(enc[1]) && IsUpperHexDigit(enc[2])
    requires |e| == 3 && e[0] == '%' && IsUpperHexDigit(e[1]) && IsUpperHexDigit(e[2])
    requires EscapedChar(e) as int == v
    ensures enc == e <==> EscapedChar(enc) as int == v
  {
    CompareEscapes(enc, e);
    CompareToZero(enc, e);
  }

  /** Comparing two upper-case escapes as strings compares the characters they stand for. */
  lemma CompareEscapes(a: string, b: string)
    requires |a| == 3 && a[0] == '%' && IsUpperHexDigit(a[1]) && IsUpperHexDigit(a[2])
    requires |b| == 3 && b[0] == '%' && IsUpperHexDigit(b[1]) && IsUpperHexDigit(b[2])
    ensures CompareTo(a, b) < 0 <==> EscapedChar(a) < EscapedChar(b)
    ensures CompareTo(a, b) == 0 <==> EscapedChar(a) == EscapedChar(b)
  {
    HexOrder(a[1], b[1]);
    HexOrder(a[2], b[2]);
    CompareThree(a, b);
  }

  /** `compareTo` of two three-character strings with the same first character, all below U+D800. */
  lemma CompareThree(a: string, b: string)
    requires |a| == 3 && |b| == 3 && a[0] == b[0]
    requires a[1] as int < 0xD800 && a[2] as int < 0xD800 && b[1] as int < 0xD800 && b[2] as int < 0xD800
    ensures CompareTo(a, b) < 0 <==> a[1] < b[1] || (a[1] == b[1] && a[2] < b[2])
    ensures CompareTo(a, b) == 0 <==> a[1] == b[1] && a[2] == b[2]
  {
    var a1, b1 := a[1..], b[1..];
    var a2, b2 := a[2..], b[2..];
    assert a1[0] == a[1] && b1[0] == b[1] && a1[1..] == a2 && b1[1..] == b2;
    assert a2[0] == a[2] && b2[0] == b[2] && |a2[1..]| == 0 && |b2[1..]| == 0;
    assert CompareTo(a2[1..], b2[1..]) == 0;
    assert CompareTo(a, b) == CompareTo(a1, b1);
    assert a[1] == b[1] ==> CompareTo(a1, b1) == CompareTo(a2, b2);
  }

  /** One match of the decode loop: replaced by its character only when unreserved. */
  function DecodeTriple(t: string): string {
    if |t| == 3 && IsEncodedUnreservedCharacter(UpperTriple(t)) then [EscapedChar(t)] else t
  }

  /** The URL after `decodeUnreservedCharacters`. */
  function DecodeUnreserved(s: string): string {
    MapEscapes(s, DecodeTriple)
  }

  /**
   * Decoding replaces an escape by its character exactly when that character
   * is unreserved, whatever the case of its hex digits; other escapes are
   * kept as they are.
   */
  lemma DecodeTripleMeaning(t: string)
    requires |t| == 3 && t[0] == '%' && IsHexDigit(t[1]) && IsHexDigit(t[2])
    ensures IsUnreserved(EscapedChar(t)) ==> DecodeTriple(t) == [EscapedChar(t)]
    ensures !IsUnreserved(EscapedChar(t)) ==> DecodeTriple(t) == t
  {
    var u := UpperTriple(t);
    assert HexValue(u[1]) == HexValue(t[1]) && HexValue(u[2]) == HexValue(t[2]);
    EncodedUnreservedIsRfc3986(u);
  }

  /** `%` followed by the two upper-case hex digits of an ASCII character. */
  function PercentEncode(c: char): string
    requires c as int < 128
  {
    ['%', HexDigits[c as int / 16], HexDigits[c as int % 16]]
  }

  const HexDigits := "0123456789ABCDEF"

  lemma HexDigitValue(k: nat)
    requires k < 16
    ensures IsUpperHexDigit(HexDigits[k]) && HexValue(HexDigits[k]) == k
  {
  }

  /** Every character of `s` percent-encoded. */
  function PercentEncodeAll(s: string): string
    requires forall c :: c in s ==> IsUnreserved(c)
  {
    if s == [] then []
    else
      assert s[0] in s && forall c :: c in s[1..] ==> c in s;
      assert IsUnreserved(s[0]);
      PercentEncode(s[0]) + PercentEncodeAll(s[1..])
  }

  /** Decoding undoes the percent-encoding of a text made of unreserved characters. */
  lemma {:induction false} DecodePercentEncodedUnreserved(s: string)
    requires forall c :: c in s ==> IsUnreserved(c)
    ensures DecodeUnreserved(PercentEncodeAll(s)) == s
    decreases |s|
  {
    if s != [] {
      assert s[0] in s && forall c :: c in s[1..] ==> c in s;
      var t, rest := PercentEncode(s[0]), PercentEncodeAll(s[1..]);
      assert PercentEncodeAll(s) == t + rest;
      PercentEncodeDecodes(s[0]);
      MapEscapesLead(t, rest, DecodeTriple);
      DecodePercentEncodedUnreserved(s[1..]);
      assert s == [s[0]] + s[1..];
    }
  }

  /** The escape of an unreserved character is a match that decoding turns back into it. */
  lemma PercentEncodeDecodes(c: char)
    requires IsUnreserved(c)
    ensures EscapeAt(PercentEncode(c), 0) && DecodeTriple(PercentEncode(c)) == [c]
  {
    var t := PercentEncode(c);
    HexDigitValue(c as int / 16);
    HexDigitValue(c as int % 16);
    assert EscapedChar(t) == c;
    DecodeTripleMeaning(t);
  }

  /** A text that opens with a match is rewritten from that match on. */
  lemma MapEscapesLead(t: string, rest: string, f: string -> string)
    requires |t| == 3 && EscapeAt(t, 0)
    ensures MapEscapes(t + rest, f) == f(t) + MapEscapes(rest, f)
  {
    var e := t + rest;
    assert EscapeAt(e, 0) && e[..3] == t && e[3..] == rest;
  }

  /** A text without any escape of an unreserved character is left unchanged. */
  lemma {:induction false} DecodeKeepsReservedEscapes(s: string)
    requires forall j :: EscapeAt(s, j) ==> !IsUnreserved(EscapedChar(s[j..j + 3]))
    ensures DecodeUnreserved(s) == s
    decreases |s|
  {
    if EscapeAt(s, 0) {
      assert s[..3] == s[0..0 + 3];
      DecodeTripleMeaning(s[..3]);
      forall j | EscapeAt(s[3..], j) ensures !IsUnreserved(EscapedChar(s[3..][j..j + 3])) {
        assert EscapeAt(s, j + 3) && s[3..][j..j + 3] == s[j + 3..j + 3 + 3];
      }
      DecodeKeepsReservedEscapes(s[3..]);
      assert s == s[..3] + s[3..];
    } else if s != [] {
      forall j | EscapeAt(s[1..], j) ensures !IsUnreserved(EscapedChar(s[1..][j..j + 3])) {
        assert EscapeAt(s, j + 1) && s[1..][j..j + 3] == s[j + 1..j + 1 + 3];
      }
      DecodeKeepsReservedEscapes(s[1..]);
      assert s == [s[0]] + s[1..];
    }
  }

  /** Decoding never lengthens the URL. */
  lemma {:induction false} DecodeUnreservedShortens(s: string)
    ensures |DecodeUnreserved(s)| <= |s|
    decreases |s|
  {
    if EscapeAt(s, 0) {
      DecodeUnreservedShortens(s[3..]);
    } else if s != [] {
      DecodeUnreservedShortens(s[1..]);
    }
  }

  /**
   * Decoding is not idempotent: decoding `%4%41` yields the new escape `%4A`,
   * which a second pass decodes to `J`.
   */
  lemma DecodeUnreservedNotIdempotent()
    ensures DecodeUnreserved("%4%41") == "%4A"
    ensures DecodeUnreserved("%4A") == "J"
  {
    assert !EscapeAt("%4%41", 0);
    assert "%4%41"[1..] == "4%41" && !EscapeAt("4%41", 0);
    assert "4%41"[1..] == "%41" && EscapeAt("%41", 0);
    assert "%41"[..3] == "%41" && "%41"[3..] == "";
    DecodeTripleMeaning("%41");
    assert EscapedChar("%41") == 'A';
    assert DecodeUnreserved("%41") == "A";
    assert "%4A"[..3] == "%4A" && "%4A"[3..] == "";
    DecodeTripleMeaning("%4A");
    assert EscapedChar("%4A") == 'J';
  }

  /** One turn of the decode loop keeps the text it will produce unchanged. */
  lemma DecodeStep(url: string, sb: string, last: nat, from: nat)
    requires last <= from <= |url| && NextEscape(url, from) != -1
    requires sb + url[last..from] + DecodeUnreserved(url[from..]) == DecodeUnreserved(url)
    ensures var j := NextEscape(url, from);
            var rest := DecodeUnreserved(url[j + 3..]);
            if IsEncodedUnreservedCharacter(UpperTriple(url[j..j + 3]))
            then (sb + url[last..j] + [EscapedChar(url[j..j + 3])]) + url[j + 3..j + 3] + rest == DecodeUnreserved(url)
            else sb + url[last..j + 3] + rest == DecodeUnreserved(url)
  {
    var j := NextEscape(url, from);
    var t := url[j..j + 3];
    ReplaceStep(url, sb, last, from, DecodeTriple, DecodeUnreserved(url));
    DecodeTripleCases(t);
    ReplaceBranch(url, sb, last, j, DecodeTriple(t), MapEscapes(url[j + 3..], DecodeTriple),
                  DecodeUnreserved(url), IsEncodedUnreservedCharacter(UpperTriple(t)), EscapedChar(t));
  }

  /** The two ways a match leaves the loop's output: replaced by one character, or kept. */
  lemma ReplaceBranch(url: string, sb: string, last: nat, j: nat, y: string, rest: string,
                      total: string, decoded: bool, c: char)
    requires last <= j && j + 3 <= |url|
    requires (sb + url[last..j] + y) + rest == total
    requires decoded ==> y == [c]
    requires !decoded ==> y == url[j..j + 3]
    ensures decoded ==> (sb + url[last..j] + [c]) + url[j + 3..j + 3] + rest == total
    ensures !decoded ==> sb + url[last..j + 3] + rest == total
  {
    if decoded {
      assert url[j + 3..j + 3] == [];
      assert (sb + url[last..j] + [c]) + [] == sb + url[last..j] + [c];
    } else {
      assert url[last..j + 3] == url[last..j] + url[j..j + 3];
      assert sb + url[last..j + 3] == sb + url[last..j] + url[j..j + 3];
    }
  }

  /**
   * A turn of a loop that resumes copying at `last` and searching at
   * `from`: the output so far, the text up to the next match and that
   * match's replacement leave the rest of the scan still to do.
   */
  lemma ReplaceStep(url: string, sb: string, last: nat, from: nat, f: string -> string, total: string)
    requires last <= from <= |url| && NextEscape(url, from) != -1
    requires sb + url[last..from] + MapEscapes(url[from..], f) == total
    ensures var j := NextEscape(url, from);
            (sb + url[last..j] + f(url[j..j + 3])) + MapEscapes(url[j + 3..], f) == total
  {
    var j := NextEscape(url, from);
    ScanNext(url, sb + url[last..from], from, f, total);
    Regroup(url, sb, last, from, j);
  }

  /** What one match becomes: its character when that is unreserved, else itself. */
  lemma DecodeTripleCases(t: string)
    requires |t| == 3
    ensures IsEncodedUnreservedCharacter(UpperTriple(t)) ==> DecodeTriple(t) == [EscapedChar(t)]
    ensures !IsEncodedUnreservedCharacter(UpperTriple(t)) ==> DecodeTriple(t) == t
  {
  }

  /** The copied text of two turns of `appendReplacement` is one slice of the URL. */
  lemma Regroup(url: string, sb: string, last: nat, from: nat, j: nat)
    requires last <= from <= j && j + 3 <= |url|
    ensures sb + url[last..from] + url[from..j] == sb + url[last..j]
    ensures sb + url[last..from] + url[from..j] + url[j..j + 3] == sb + url[last..j + 3]
  {
    assert url[last..j] == url[last..from] + url[from..j];
    assert url[last..j + 3] == url[last..from] + url[from..j] + url[j..j + 3];
  }

  /** When `find()` fails, `appendTail` completes the decoded text. */
  lemma DecodeTail(url: string, sb: string, last: nat, from: nat)
    requires last <= from <= |url| && NextEscape(url, from) == -1
    requires sb + url[last..from] + DecodeUnreserved(url[from..]) == DecodeUnreserved(url)
    ensures sb + url[last..] == DecodeUnreserved(url)
  {
    MapEscapesNoNext(url, from, DecodeTriple);
    CopiedTail(url, sb, last, from, DecodeUnreserved(url));
  }

  /** Text copied up to `from` and then to the end is the text copied from `last` to the end. */
  lemma CopiedTail(url: string, sb: string, last: nat, from: nat, total: string)
    requires last <= from <= |url| && sb + url[last..from] + url[from..] == total
    ensures sb + url[last..] == total
  {
    assert url[last..] == url[last..from] + url[from..];
  }

  /** `decodeUnreservedCharacters`: the `Matcher` loop that skips reserved escapes. */
  method DecodeUnreservedCharacters(url: string) returns (r: string)
    ensures r == DecodeUnreserved(url)
  {
    if IndexOf(url, "%") == -1 {
      NoPercentNoEscape(url, DecodeTriple);
      return url;
    }
    var sb := "";
    var last := 0;   // where appendReplacement resumes copying
    var from := 0;   // where find() resumes searching
    var j := NextEscape(url, 0);
    while j != -1
      invariant 0 <= last <= from <= |url|
      invariant j == NextEscape(url, from)
      invariant sb + url[last..from] + DecodeUnreserved(url[from..]) == DecodeUnreserved(url)
      decreases |url| - from
    {
      sb, last := AppendMatch(url, sb, last, from);
      from := j + 3;
      j := NextEscape(url, from);
    }
    DecodeTail(url, sb, last, from);
    r := sb + url[last..];
  }

  /**
   * One turn of the loop of `decodeUnreservedCharacters`: the match found
   * from `from` is replaced by its character when that is unreserved, and
   * left to be copied otherwise.
   */
  method AppendMatch(url: string, sb: string, last: nat, from: nat) returns (sb': string, last': nat)
    requires last <= from <= |url| && NextEscape(url, from) != -1
    requires sb + url[last..from] + DecodeUnreserved(url[from..]) == DecodeUnreserved(url)
    ensures var j := NextEscape(url, from);
            && last' <= j + 3
            && sb' + url[last'..j + 3] + DecodeUnreserved(url[j + 3..]) == DecodeUnreserved(url)
  {
    var j := NextEscape(url, from);
    DecodeStep(url, sb, last, from);
    if IsEncodedUnreservedCharacter(UpperTriple(url[j..j + 3])) {
      sb' := sb + url[last..j] + [EscapedChar(url[j..j + 3])];
      last' := j + 3;
    } else {
      sb', last' := sb, last;
    }
  }

  // ---------------------------------------------------------------------
  // encodeSpaces
  // ---------------------------------------------------------------------

  /** The URL after `encodeSpaces`: `StringUtils.replace(url, " ", "+")`. */
  function EncodeSpaces(s: string): (r: string)
    ensures |r| == |s| && ' ' !in r
    ensures forall i :: 0 <= i < |s| && s[i] != ' ' ==> r[i] == s[i]
    ensures forall i :: 0 <= i < |s| && s[i] == ' ' ==> r[i] == '+'
  {
    if s == [] then [] else [if s[0] == ' ' then '+' else s[0]] + EncodeSpaces(s[1..])
  }

  /** Turning every '+' back into a space. */
  function PlusToSpace(s: string): (r: string)
    ensures |r| == |s|
    ensures forall i :: 0 <= i < |s| ==> r[i] == if s[i] == '+' then ' ' else s[i]
  {
    if s == [] then [] else [if s[0] == '+' then ' ' else s[0]] + PlusToSpace(s[1..])
  }

  /** On a URL without '+', encoding spaces is undone by turning '+' back into spaces. */
  lemma EncodeSpacesRoundTrip(s: string)
    requires '+' !in s
    ensures PlusToSpace(EncodeSpaces(s)) == s
  {
    var r := PlusToSpace(EncodeSpaces(s));
    assert forall i :: 0 <= i < |s| ==> r[i] == s[i];
  }

  /** Encoding spaces a second time changes nothing. */
  lemma EncodeSpacesIdempotent(s: string)
    ensures EncodeSpaces(EncodeSpaces(s)) == EncodeSpaces(s)
  {
    var r := EncodeSpaces(s);
    assert forall i :: 0 <= i < |r| ==> EncodeSpaces(r)[i] == r[i];
  }
}
