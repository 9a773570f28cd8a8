/**
 * The pieces of `java.lang.String`, `java.lang.Character` and Apache Commons
 * `StringUtils` that the three modelled classes rely on, written as functions
 * over `seq<char>`. Each one follows the Java library's documented behaviour,
 * including its treatment of empty and missing separators.
 */
module JavaStrings {

  import opened Wrappers

  // ---------------------------------------------------------------------
  // Character classes
  // ---------------------------------------------------------------------

  /**
   * `Character.isWhitespace`: the Unicode space, line and paragraph
   * separators other than the no-break spaces, plus the ASCII controls
   * TAB, LF, VT, FF, CR and FS, GS, RS, US.
   */
  predicate IsWhitespace(c: char) {
    || c == ' ' || c == '\t' || c == '\n' || c == '\U{B}' || c == '\U{C}' || c == '\r'
    || ('\U{1C}' <= c <= '\U{1F}')
    || c == '\U{1680}' || ('\U{2000}' <= c <= '\U{2006}') || ('\U{2008}' <= c <= '\U{200A}')
    || c == '\U{2028}' || c == '\U{2029}' || c == '\U{205F}' || c == '\U{3000}'
  }

  /** The regex class `\s` of `java.util.regex.Pattern`: `[ \t\n\x0B\f\r]`. */
  predicate IsRegexSpace(c: char) {
    c == ' ' || c == '\t' || c == '\n' || c == '\U{B}' || c == '\U{C}' || c == '\r'
  }

  /** The characters the regex `.` does not match (no DOTALL, no UNIX_LINES). */
  predicate IsLineTerminator(c: char) {
    c == '\n' || c == '\r' || c == '\U{85}' || c == '\U{2028}' || c == '\U{2029}'
  }

  predicate NoLineTerminator(s: string) {
    forall i :: 0 <= i < |s| ==> !IsLineTerminator(s[i])
  }

  predicate IsAsciiUpper(c: char) { 'A' <= c <= 'Z' }
  predicate IsAsciiLower(c: char) { 'a' <= c <= 'z' }
  predicate IsAsciiLetter(c: char) { IsAsciiUpper(c) || IsAsciiLower(c) }
  predicate IsAsciiDigit(c: char) { '0' <= c <= '9' }
  predicate IsAsciiAlphanumeric(c: char) { IsAsciiLetter(c) || IsAsciiDigit(c) }

  /** The regex class `[0-9a-f]` under CASE_INSENSITIVE. */
  predicate IsHexDigit(c: char) { IsAsciiDigit(c) || 'a' <= c <= 'f' || 'A' <= c <= 'F' }

  function ToUpperAscii(c: char): (u: char)
    ensures IsAsciiLower(c) ==> IsAsciiUpper(u)
    ensures !IsAsciiLower(c) ==> u == c
  {
    if IsAsciiLower(c) then (c as int - 32) as char else c
  }

  function ToLowerAscii(c: char): (l: char)
    ensures IsAsciiUpper(c) ==> IsAsciiLower(l)
    ensures !IsAsciiUpper(c) ==> l == c
  {
    if IsAsciiUpper(c) then (c as int + 32) as char else c
  }

  /** `toLowerCase()` restricted to ASCII letters. */
  function LowerAscii(s: string): (r: string)
    ensures |r| == |s|
    ensures forall i :: 0 <= i < |s| ==> r[i] == ToLowerAscii(s[i])
  {
    if s == [] then [] else [ToLowerAscii(s[0])] + LowerAscii(s[1..])
  }

  /**
   * The case folding behind `String.equalsIgnoreCase` and
   * `regionMatches(true, ...)`: ASCII letters, plus the four non-ASCII
   * characters whose Java upper or lower case is an ASCII letter
   * (dotless i, dotted capital I, long s, Kelvin sign).
   */
  function FoldCase(c: char): char {
    if IsAsciiUpper(c) then ToLowerAscii(c)
    else if c == '\U{131}' || c == '\U{130}' then 'i'
    else if c == '\U{17F}' then 's'
    else if c == '\U{212A}' then 'k'
    else c
  }

  predicate CharEqualsIgnoreCase(c: char, d: char) {
    FoldCase(c) == FoldCase(d)
  }

  /**
   * `a.equalsIgnoreCase(b)` when one side is ASCII, as at every use here (URL
   * schemes and command prefixes). Other non-ASCII case pairs, such as 'é'
   * and 'É', are not folded.
   */
  predicate EqualsIgnoreCase(a: string, b: string) {
    |a| == |b| && forall i :: 0 <= i < |a| ==> CharEqualsIgnoreCase(a[i], b[i])
  }

  /** `StringUtils.startsWithIgnoreCase(s, prefix)`. */
  predicate StartsWithIgnoreCase(s: string, prefix: string) {
    |prefix| <= |s| && EqualsIgnoreCase(s[..|prefix|], prefix)
  }

  /** `StringUtils.containsIgnoreCase(s, sub)`. */
  predicate ContainsIgnoreCase(s: string, sub: string) {
    exists i :: 0 <= i <= |s| - |sub| && StartsWithIgnoreCase(s[i..], sub)
  }

  // ---------------------------------------------------------------------
  // Blank and trim
  // ---------------------------------------------------------------------

  /** `StringUtils.isBlank` of a non-null string. */
  predicate IsBlank(s: string) {
    forall i :: 0 <= i < |s| ==> IsWhitespace(s[i])
  }

  /** `StringUtils.isBlank` of a possibly null string. */
  predicate IsBlankOrNull(s: Option<string>) {
    s.None? || IsBlank(s.value)
  }

  /** The number of leading characters up to U+0020. */
  function LeadingControls(s: string): (k: nat)
    ensures k <= |s| && (k < |s| ==> s[k] > ' ')
    ensures forall i :: 0 <= i < k ==> s[i] <= ' '
  {
    if |s| > 0 && s[0] <= ' ' then 1 + LeadingControls(s[1..]) else 0
  }

  /** The length of `s` without its trailing characters up to U+0020. */
  function KeptBeforeTrailingControls(s: string): (k: nat)
    ensures k <= |s| && (k > 0 ==> s[k - 1] > ' ')
    ensures forall i :: k <= i < |s| ==> s[i] <= ' '
  {
    if |s| > 0 && s[|s| - 1] <= ' ' then KeptBeforeTrailingControls(s[..|s| - 1]) else |s|
  }

  /** `String.trim()`: drops leading and trailing characters up to U+0020. */
  function Trim(s: string): (r: string)
    ensures LeadingControls(s) + |r| <= |s|
  {
    var t := s[LeadingControls(s)..];
    t[..KeptBeforeTrailingControls(t)]
  }

  /** A text that starts and ends above U+0020 is its own trim. */
  lemma TrimUnchanged(s: string)
    requires s == [] || (s[0] > ' ' && s[|s| - 1] > ' ')
    ensures Trim(s) == s
  {
    if s != [] {
      assert LeadingControls(s) == 0;
      assert KeptBeforeTrailingControls(s) == |s|;
    }
  }

  // ---------------------------------------------------------------------
  // Searching
  // ---------------------------------------------------------------------

  predicate OccursAt(s: string, sub: string, i: int) {
    0 <= i && i + |sub| <= |s| && s[i..i + |sub|] == sub
  }

  /** `s.indexOf(sub, from)`: the first occurrence at or after `from`, or -1. */
  function IndexOfFrom(s: string, sub: string, from: nat): (r: int)
    ensures r == -1 || (from <= r && OccursAt(s, sub, r))
    ensures r == -1 ==> forall i :: from <= i ==> !OccursAt(s, sub, i)
    ensures r != -1 ==> forall i :: from <= i < r ==> !OccursAt(s, sub, i)
    decreases |s| - from
  {
    if from + |sub| > |s| then -1
    else if s[from..from + |sub|] == sub then from
    else IndexOfFrom(s, sub, from + 1)
  }

  /** `s.indexOf(sub)`. */
  function IndexOf(s: string, sub: string): (r: int)
    ensures r == -1 || OccursAt(s, sub, r)
    ensures r == -1 ==> forall i :: !OccursAt(s, sub, i)
    ensures r != -1 ==> forall i :: 0 <= i < r ==> !OccursAt(s, sub, i)
  {
    IndexOfFrom(s, sub, 0)
  }

  /** The first occurrence at or after `from` is the one with none before it. */
  lemma {:induction false} IndexOfFromIs(s: string, sub: string, from: nat, k: nat)
    requires from <= k && OccursAt(s, sub, k)
    requires forall i :: from <= i < k ==> !OccursAt(s, sub, i)
    ensures IndexOfFrom(s, sub, from) == k
    decreases k - from
  {
    if from < k {
      assert !OccursAt(s, sub, from);
      IndexOfFromIs(s, sub, from + 1, k);
    }
  }

  lemma IndexOfIs(s: string, sub: string, k: nat)
    requires OccursAt(s, sub, k)
    requires forall i :: 0 <= i < k ==> !OccursAt(s, sub, i)
    ensures IndexOf(s, sub) == k
  {
    IndexOfFromIs(s, sub, 0, k);
  }

  /** An occurrence at `k` is the first when no character before `k` starts `sub`. */
  lemma IndexOfAfterMisses(s: string, sub: string, k: nat)
    requires |sub| > 0 && OccursAt(s, sub, k)
    requires forall i :: 0 <= i < k ==> s[i] != sub[0]
    ensures IndexOf(s, sub) == k
  {
    forall i | 0 <= i < k ensures !OccursAt(s, sub, i) {
      NotOccursAt(s, sub, i);
    }
    IndexOfIs(s, sub, k);
  }

  lemma NotOccursAt(s: string, sub: string, i: int)
    requires |sub| > 0 && 0 <= i < |s| && s[i] != sub[0]
    ensures !OccursAt(s, sub, i)
  {
    if i + |sub| <= |s| {
      assert s[i..i + |sub|][0] == s[i];
    }
  }

  /** A character that is not in `s` is not found in it. */
  lemma IndexOfAbsentChar(s: string, c: char)
    requires c !in s
    ensures IndexOf(s, [c]) == -1
  {
    forall i | 0 <= i < |s| ensures !OccursAt(s, [c], i) {
      NotOccursAt(s, [c], i);
    }
  }

  /** `s.lastIndexOf(c)`. */
  function LastIndexOfChar(s: string, c: char): (r: int)
    ensures -1 <= r < |s|
    ensures r == -1 ==> c !in s
    ensures r != -1 ==> s[r] == c && c !in s[r + 1..]
  {
    if s == [] then -1
    else if s[|s| - 1] == c then |s| - 1
    else LastIndexOfChar(s[..|s| - 1], c)
  }

  /** The last occurrence of `c` is the one after which `c` does not appear. */
  lemma {:induction false} LastIndexOfCharIs(s: string, c: char, i: nat)
    requires i < |s| && s[i] == c && c !in s[i + 1..]
    ensures LastIndexOfChar(s, c) == i
  {
    if i < |s| - 1 {
      assert s[|s| - 1] in s[i + 1..];
      assert s[..|s| - 1][i + 1..] == s[i + 1..|s| - 1];
      assert forall j :: i + 1 <= j < |s| - 1 ==> s[j] in s[i + 1..];
      LastIndexOfCharIs(s[..|s| - 1], c, i);
    }
  }

  /** `s.contains(sub)`. */
  predicate Contains(s: string, sub: string) {
    IndexOf(s, sub) != -1
  }

  /** `StringUtils.substringBefore(s, sep)` for a non-empty separator. */
  function SubstringBefore(s: string, sep: string): string {
    var i := IndexOf(s, sep);
    if i == -1 then s else s[..i]
  }

  /** `StringUtils.substringAfter(s, sep)` for a non-empty separator. */
  function SubstringAfter(s: string, sep: string): string {
    var i := IndexOf(s, sep);
    if i == -1 then [] else s[i + |sep|..]
  }

  /** `StringUtils.substringAfterLast(s, c)`: empty when `c` does not occur. */
  function SubstringAfterLastChar(s: string, c: char): string {
    var i := LastIndexOfChar(s, c);
    if i == -1 then [] else s[i + 1..]
  }

  /** `StringUtils.substringBeforeLast(s, c)`: all of `s` when `c` does not occur. */
  function SubstringBeforeLastChar(s: string, c: char): string {
    var i := LastIndexOfChar(s, c);
    if i == -1 then s else s[..i]
  }

  /**
   * `StringUtils.replaceOnce(text, search, repl)`: the first occurrence of a
   * non-empty `search` is replaced; an empty text or search changes nothing.
   */
  function ReplaceOnce(text: string, search: string, repl: string): (r: string)
    ensures |text| == 0 || |search| == 0 || IndexOf(text, search) == -1 ==> r == text
    ensures |text| > 0 && |search| > 0 && IndexOf(text, search) != -1 ==>
              var i := IndexOf(text, search);
              r == text[..i] + repl + text[i + |search|..]
  {
    if |text| == 0 || |search| == 0 then text
    else
      var i := IndexOf(text, search);
      if i == -1 then text else text[..i] + repl + text[i + |search|..]
  }

  /** `StringUtils.countMatches(s, [c])`. */
  function CountChar(s: string, c: char): (n: nat)
    ensures n == 0 <==> c !in s
  {
    if s == [] then 0 else (if s[0] == c then 1 else 0) + CountChar(s[1..], c)
  }

  /** `StringUtils.repeat(c, n)`: empty for `n <= 0`. */
  function Repeat(c: char, n: int): (r: string)
    ensures |r| == if n <= 0 then 0 else n
    ensures forall i :: 0 <= i < |r| ==> r[i] == c
    decreases n
  {
    if n <= 0 then [] else [c] + Repeat(c, n - 1)
  }

  // ---------------------------------------------------------------------
  // Splitting and joining
  // ---------------------------------------------------------------------

  /** The text before the first `sep`, or all of `s`. */
  function TakeUntil(s: string, sep: char): (t: string)
    ensures |t| <= |s| && sep !in t
    ensures forall k :: 0 <= k < |t| ==> t[k] == s[k]
    ensures |t| < |s| ==> s[|t|] == sep
  {
    if s == [] || s[0] == sep then [] else [s[0]] + TakeUntil(s[1..], sep)
  }

  /** A text free of `sep`, followed by nothing or by `sep`, is what `TakeUntil` returns. */
  lemma {:induction false} TakeUntilSplit(a: string, b: string, sep: char)
    requires sep !in a && (b == [] || b[0] == sep)
    ensures TakeUntil(a + b, sep) == a
  {
    if a != [] {
      assert (a + b)[1..] == a[1..] + b;
      TakeUntilSplit(a[1..], b, sep);
    } else {
      assert a + b == b;
    }
  }

  /**
   * `StringUtils.split(s, sep)`: the maximal runs of characters other than
   * `sep`; adjacent separators produce no empty tokens.
   */
  function SplitTokens(s: string, sep: char): (r: seq<string>)
    ensures forall k :: 0 <= k < |r| ==> |r[k]| > 0 && sep !in r[k]
    decreases |s|
  {
    if s == [] then []
    else if s[0] == sep then SplitTokens(s[1..], sep)
    else
      var t := TakeUntil(s, sep);
      [t] + SplitTokens(s[|t|..], sep)
  }

  /** `StringUtils.join(parts, sep)`. */
  function Join(parts: seq<string>, sep: string): string {
    if |parts| == 0 then []
    else if |parts| == 1 then parts[0]
    else parts[0] + sep + Join(parts[1..], sep)
  }

  /** Every piece between occurrences of `sep`, empty pieces included. */
  function SplitAll(s: string, sep: char): (r: seq<string>)
    ensures |r| > 0
    ensures forall k :: 0 <= k < |r| ==> sep !in r[k]
    decreases |s|
  {
    var t := TakeUntil(s, sep);
    if |t| == |s| then [s] else [t] + SplitAll(s[|t| + 1..], sep)
  }

  function DropTrailingEmpty(parts: seq<string>): (r: seq<string>)
    ensures |r| <= |parts| && r == parts[..|r|]
    ensures r == [] || r[|r| - 1] != []
    ensures forall k :: |r| <= k < |parts| ==> parts[k] == []
  {
    if parts == [] || parts[|parts| - 1] != [] then parts
    else DropTrailingEmpty(parts[..|parts| - 1])
  }

  /**
   * `s.split(String.valueOf(sep))`: the pieces between separators with the
   * trailing empty pieces removed; a string without `sep` is returned whole.
   */
  function SplitJava(s: string, sep: char): seq<string> {
    if sep !in s then [s] else DropTrailingEmpty(SplitAll(s, sep))
  }

  // ---------------------------------------------------------------------
  // Ordering
  // ---------------------------------------------------------------------

  /**
   * A character's place in the order of Java's `String`, which holds UTF-16
   * code units: a character above U+FFFF is stored as a surrogate pair
   * (units U+D800 to U+DFFF), so it sorts after the characters below U+D800
   * and before those from U+E000 to U+FFFF.
   */
  function Utf16Rank(c: char): int {
    if c as int < 0xD800 || c as int >= 0x1_0000 then c as int else c as int + 0x11_0000
  }

  /** The UTF-16 code units of a character. */
  function CodeUnits(c: char): (u: seq<int>)
    ensures |u| > 0
  {
    if c as int < 0x1_0000 then [c as int]
    else [0xD800 + (c as int - 0x1_0000) / 0x400, 0xDC00 + (c as int - 0x1_0000) % 0x400]
  }

  /** The UTF-16 code units of a string: what a Java `String` holds. */
  function Utf16(s: string): seq<int> {
    if s == [] then [] else CodeUnits(s[0]) + Utf16(s[1..])
  }

  /** `String.compareTo` on code units: the first differing unit, else the lengths. */
  function CompareUnits(x: seq<int>, y: seq<int>): int {
    if |x| == 0 || |y| == 0 then |x| - |y|
    else if x[0] != y[0] then x[0] - y[0]
    else CompareUnits(x[1..], y[1..])
  }

  /**
   * `a.compareTo(b)` up to its sign, read character by character: the first
   * differing characters by `Utf16Rank`, else the lengths.
   * `CompareToIsUtf16` shows that it orders as `String.compareTo` does.
   */
  function CompareTo(a: string, b: string): int {
    if |a| == 0 || |b| == 0 then |a| - |b|
    else if a[0] != b[0] then Utf16Rank(a[0]) - Utf16Rank(b[0])
    else CompareTo(a[1..], b[1..])
  }

  /** `CompareTo` has the sign of `String.compareTo` on the strings' UTF-16 code units. */
  lemma {:induction false} CompareToIsUtf16(a: string, b: string)
    ensures CompareTo(a, b) < 0 <==> CompareUnits(Utf16(a), Utf16(b)) < 0
    ensures CompareTo(a, b) == 0 <==> CompareUnits(Utf16(a), Utf16(b)) == 0
  {
    if |a| == 0 || |b| == 0 {
      if a != [] {
        assert |Utf16(a)| > 0;
      }
      if b != [] {
        assert |Utf16(b)| > 0;
      }
    } else if a[0] == b[0] {
      CompareToIsUtf16(a[1..], b[1..]);
      CompareUnitsCommonPrefix(CodeUnits(a[0]), Utf16(a[1..]), Utf16(b[1..]));
    } else {
      CompareUnitsFirstChar(a[0], b[0], Utf16(a[1..]), Utf16(b[1..]));
    }
  }

  lemma {:induction false} CompareUnitsCommonPrefix(p: seq<int>, x: seq<int>, y: seq<int>)
    ensures CompareUnits(p + x, p + y) == CompareUnits(x, y)
    decreases |p|
  {
    if p != [] {
      assert (p + x)[0] == p[0] == (p + y)[0];
      assert (p + x)[1..] == p[1..] + x && (p + y)[1..] == p[1..] + y;
      CompareUnitsCommonPrefix(p[1..], x, y);
      assert CompareUnits(p + x, p + y) == CompareUnits(p[1..] + x, p[1..] + y);
    } else {
      assert p + x == x && p + y == y;
    }
  }

  /** Two different characters compare by their code units as by `Utf16Rank`. */
  lemma CompareUnitsFirstChar(c: char, d: char, x: seq<int>, y: seq<int>)
    requires c != d
    ensures var r := CompareUnits(CodeUnits(c) + x, CodeUnits(d) + y);
            r != 0 && (r < 0 <==> Utf16Rank(c) < Utf16Rank(d))
  {
    var cu, du := CodeUnits(c) + x, CodeUnits(d) + y;
    assert cu[0] == CodeUnits(c)[0] && du[0] == CodeUnits(d)[0];
    if c as int >= 0x1_0000 && d as int >= 0x1_0000 && cu[0] == du[0] {
      SameHighSurrogate(c, d);
      assert cu[1..] == [CodeUnits(c)[1]] + x && du[1..] == [CodeUnits(d)[1]] + y;
    } else if c as int >= 0x1_0000 && d as int >= 0x1_0000 {
      HighSurrogateOrder(c, d);
    }
  }

  /** Characters with the same high surrogate are ordered by their low surrogates. */
  lemma SameHighSurrogate(c: char, d: char)
    requires c != d && c as int >= 0x1_0000 && d as int >= 0x1_0000
    requires (c as int - 0x1_0000) / 0x400 == (d as int - 0x1_0000) / 0x400
    ensures (c as int - 0x1_0000) % 0x400 != (d as int - 0x1_0000) % 0x400
    ensures (c as int - 0x1_0000) % 0x400 < (d as int - 0x1_0000) % 0x400 <==> c < d
  {
    var m, n := c as int - 0x1_0000, d as int - 0x1_0000;
    assert m == (m / 0x400) * 0x400 + m % 0x400;
    assert n == (n / 0x400) * 0x400 + n % 0x400;
  }

  /** Different high surrogates are ordered as their characters. */
  lemma HighSurrogateOrder(c: char, d: char)
    requires c as int >= 0x1_0000 && d as int >= 0x1_0000
    requires (c as int - 0x1_0000) / 0x400 != (d as int - 0x1_0000) / 0x400
    ensures (c as int - 0x1_0000) / 0x400 < (d as int - 0x1_0000) / 0x400 <==> c < d
  {
    var m, n := c as int - 0x1_0000, d as int - 0x1_0000;
    assert m == (m / 0x400) * 0x400 + m % 0x400;
    assert n == (n / 0x400) * 0x400 + n % 0x400;
  }

  /**
   * A character above U+FFFF sorts before one from U+E000 to U+FFFF, as its
   * high surrogate U+D83D does, although its code point is larger.
   */
  lemma CompareToSupplementary()
    ensures CompareTo("\U{1F600}", "\U{FF01}") < 0
    ensures Utf16("\U{1F600}") == [0xD83D, 0xDE00]
  {
  }

  predicate LessOrEqual(a: string, b: string) {
    CompareTo(a, b) <= 0
  }

  lemma {:induction false} CompareToZero(a: string, b: string)
    ensures CompareTo(a, b) == 0 <==> a == b
  {
    if |a| > 0 && |b| > 0 && a[0] == b[0] {
      CompareToZero(a[1..], b[1..]);
      assert a == [a[0]] + a[1..] && b == [b[0]] + b[1..];
    }
  }

  lemma {:induction false} CompareToAntisymmetric(a: string, b: string)
    ensures CompareTo(a, b) < 0 <==> CompareTo(b, a) > 0
  {
    if |a| > 0 && |b| > 0 && a[0] == b[0] {
      CompareToAntisymmetric(a[1..], b[1..]);
    }
  }

  lemma {:induction false} CompareToTransitive(a: string, b: string, c: string)
    requires CompareTo(a, b) <= 0 && CompareTo(b, c) <= 0
    ensures CompareTo(a, c) <= 0
  {
    if |a| > 0 && |b| > 0 && |c| > 0 && a[0] == b[0] && b[0] == c[0] {
      CompareToTransitive(a[1..], b[1..], c[1..]);
    }
  }

  lemma CompareToTotal(a: string, b: string)
    ensures LessOrEqual(a, b) || LessOrEqual(b, a)
  {
    CompareToAntisymmetric(a, b);
  }
}
