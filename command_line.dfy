/**
 * The command preparation of `SystemCommand.getCleanCommand`: the shell
 * prefix of the operating system is stripped from the command, an empty
 * remainder is rejected, the remainder is escaped in the operating
 * system's dialect and the prefix is put back.
 *
 * The operating system is a parameter: `SystemUtils` detection is not part
 * of this model.
 */
module CommandLine {
  import opened Wrappers
  import opened JavaStrings
  import opened ShellEscape

  /** The operating system as `SystemUtils` reports it; `UnknownOs` is a `null` OS name. */
  datatype Os = UnknownOs | Windows9x | WindowsNt | OtherOs

  predicate IsWindows(os: Os) {
    os.Windows9x? || os.WindowsNt?
  }

  /** `getOSCommandPrefixes`: `command.com /C` on 95, 98 and ME, `cmd.exe /C` on later Windows. */
  function OsCommandPrefixes(os: Os): seq<string> {
    match os
    case Windows9x => ["command.com", "/C"]
    case WindowsNt => ["cmd.exe", "/C"]
    case _ => []
  }

  // ---------------------------------------------------------------------
  // removePrefixes
  // ---------------------------------------------------------------------

  /**
   * How many leading tokens `removePrefixes` removes as written: after `i`
   * removals the loop goes on only while `cmd.size() > i`, that is while
   * more tokens remain than have been removed.
   */
  function PrefixCountAsWritten(cmd: seq<string>, prefixes: seq<string>, i: nat): (n: nat)
    requires i <= |cmd|
    ensures i <= n <= |cmd|
    decreases |prefixes| - i
  {
    if i < |prefixes| && |cmd| - i > i && EqualsIgnoreCase(prefixes[i], cmd[i])
    then PrefixCountAsWritten(cmd, prefixes, i + 1)
    else i
  }

  /**
   * How many leading tokens are shell prefixes: the prefixes matched in
   * order, ignoring case, until one fails to match or the command runs out.
   */
  function PrefixCount(cmd: seq<string>, prefixes: seq<string>, i: nat): (n: nat)
    requires i <= |cmd|
    ensures i <= n <= |cmd|
    decreases |prefixes| - i
  {
    if i < |prefixes| && i < |cmd| && EqualsIgnoreCase(prefixes[i], cmd[i])
    then PrefixCount(cmd, prefixes, i + 1)
    else i
  }

  /** The command without its leading shell prefixes. */
  function StripPrefixes(cmd: seq<string>, prefixes: seq<string>): seq<string> {
    cmd[PrefixCount(cmd, prefixes, 0)..]
  }

  /** The leading `n` tokens match the prefixes and the next token, if any, does not. */
  predicate StripsExactly(cmd: seq<string>, prefixes: seq<string>, n: nat) {
    && n <= |prefixes| && n <= |cmd|
    && (forall k :: 0 <= k < n ==> EqualsIgnoreCase(prefixes[k], cmd[k]))
    && (n == |prefixes| || n == |cmd| || !EqualsIgnoreCase(prefixes[n], cmd[n]))
  }

  /** The removal is the longest run of matching prefixes and no more. */
  lemma {:induction false} PrefixCountStrips(cmd: seq<string>, prefixes: seq<string>, i: nat)
    requires i <= |cmd| && i <= |prefixes|
    requires forall k :: 0 <= k < i ==> EqualsIgnoreCase(prefixes[k], cmd[k])
    ensures StripsExactly(cmd, prefixes, PrefixCount(cmd, prefixes, i))
    decreases |prefixes| - i
  {
    if i < |prefixes| && i < |cmd| && EqualsIgnoreCase(prefixes[i], cmd[i]) {
      PrefixCountStrips(cmd, prefixes, i + 1);
    }
  }

  /** Only one count strips exactly: the characterization determines the removal. */
  lemma StripsExactlyUnique(cmd: seq<string>, prefixes: seq<string>, n: nat)
    requires StripsExactly(cmd, prefixes, n)
    ensures PrefixCount(cmd, prefixes, 0) == n
  {
    PrefixCountStrips(cmd, prefixes, 0);
  }

  /** `removePrefixes` as written: the list loses its head while the guard holds. */
  method RemovePrefixesAsWritten(cmd: seq<string>, prefixes: seq<string>) returns (r: seq<string>)
    ensures r == cmd[PrefixCountAsWritten(cmd, prefixes, 0)..]
  {
    r := cmd;
    if |prefixes| == 0 || |cmd| == 0 {
      return;
    }
    var i := 0;
    while i < |prefixes|
      invariant 0 <= i <= |prefixes| && i <= |cmd|
      invariant r == cmd[i..]
      invariant PrefixCountAsWritten(cmd, prefixes, 0) == PrefixCountAsWritten(cmd, prefixes, i)
    {
      if |r| > i && EqualsIgnoreCase(prefixes[i], r[0]) {
        r := r[1..];
      } else {
        return;
      }
      i := i + 1;
    }
  }

  /** `removePrefixes` with the guard it needs: the list is not yet empty. */
  method RemovePrefixes(cmd: seq<string>, prefixes: seq<string>) returns (r: seq<string>)
    ensures exists n: nat :: StripsExactly(cmd, prefixes, n) && r == cmd[n..]
    ensures r == StripPrefixes(cmd, prefixes)
  {
    r := cmd;
    PrefixCountStrips(cmd, prefixes, 0);
    if |prefixes| == 0 || |cmd| == 0 {
      return;
    }
    var i := 0;
    while i < |prefixes|
      invariant 0 <= i <= |prefixes| && i <= |cmd|
      invariant r == cmd[i..]
      invariant PrefixCount(cmd, prefixes, 0) == PrefixCount(cmd, prefixes, i)
    {
      if |r| > 0 && EqualsIgnoreCase(prefixes[i], r[0]) {
        r := r[1..];
      } else {
        return;
      }
      i := i + 1;
    }
  }

  /** A command that starts with the prefixes loses exactly them, even when nothing follows. */
  lemma StripPrefixesOfPrefixed(prefixes: seq<string>, rest: seq<string>)
    ensures StripPrefixes(prefixes + rest, prefixes) == rest
  {
    var cmd := prefixes + rest;
    assert forall k :: 0 <= k < |prefixes| ==> cmd[k] == prefixes[k];
    StripsExactlyUnique(cmd, prefixes, |prefixes|);
    assert cmd[|prefixes|..] == rest;
  }

  /**
   * As written, a bare two-token prefix keeps its second token: after one
   * removal one token is left and `cmd.size() > 1` fails.
   */
  lemma BarePrefixAsWritten(p0: string, p1: string)
    ensures [p0, p1][PrefixCountAsWritten([p0, p1], [p0, p1], 0)..] == [p1]
    ensures StripPrefixes([p0, p1], [p0, p1]) == []
  {
    var cmd := [p0, p1];
    assert EqualsIgnoreCase(cmd[0], cmd[0]);
    assert PrefixCountAsWritten(cmd, cmd, 1) == 1;
    assert PrefixCountAsWritten(cmd, cmd, 0) == 1;
    StripPrefixesOfPrefixed(cmd, []);
    assert cmd + [] == cmd;
  }

  // ---------------------------------------------------------------------
  // escapeWindows
  // ---------------------------------------------------------------------

  /**
   * `arg.matches("^\\s*\".*\"\\s*$")`: optional `\s` characters, a double
   * quote, characters other than line terminators, a double quote and
   * optional `\s` characters again.
   */
  predicate IsQuotedArg(arg: string) {
    exists i, j | 0 <= i < j < |arg| :: QuotedAt(arg, i, j)
  }

  /** The regex matches with its two double quotes at `i` and `j`. */
  predicate QuotedAt(arg: string, i: nat, j: nat)
    requires i < j < |arg|
  {
    && (forall k :: 0 <= k < i ==> IsRegexSpace(arg[k]))
    && arg[i] == '"'
    && (forall k :: i < k < j ==> !IsLineTerminator(arg[k]))
    && arg[j] == '"'
    && (forall k :: j < k < |arg| ==> IsRegexSpace(arg[k]))
  }

  /** The length of the run of `\s` characters that starts `s`. */
  function LeadingSpaces(s: string): (n: nat)
    ensures n <= |s|
    ensures forall k :: 0 <= k < n ==> IsRegexSpace(s[k])
    ensures n < |s| ==> !IsRegexSpace(s[n])
  {
    if s != [] && IsRegexSpace(s[0]) then 1 + LeadingSpaces(s[1..]) else 0
  }

  /** Where the run of `\s` characters that ends `s` starts. */
  function TrailingSpacesStart(s: string): (n: nat)
    ensures n <= |s|
    ensures forall k :: n <= k < |s| ==> IsRegexSpace(s[k])
    ensures n > 0 ==> !IsRegexSpace(s[n - 1])
  {
    if s != [] && IsRegexSpace(s[|s| - 1]) then TrailingSpacesStart(s[..|s| - 1]) else |s|
  }

  /**
   * The regex test computed directly: the first character after the
   * leading spaces and the last one before the trailing spaces are two
   * distinct double quotes with no line terminator between them.
   */
  predicate MatchesQuoted(arg: string) {
    var i := LeadingSpaces(arg);
    var e := TrailingSpacesStart(arg);
    i + 1 < e && arg[i] == '"' && arg[e - 1] == '"' && NoLineTerminator(arg[i + 1..e - 1])
  }

  /** The direct test is the regex: both directions. */
  lemma MatchesQuotedIsQuotedArg(arg: string)
    ensures MatchesQuoted(arg) <==> IsQuotedArg(arg)
  {
    if MatchesQuoted(arg) {
      MatchesQuotedMatches(arg);
    }
    if IsQuotedArg(arg) {
      var i, j :| 0 <= i < j < |arg| && QuotedAt(arg, i, j);
      QuotedArgMatches(arg, i, j);
    }
  }

  lemma MatchesQuotedMatches(arg: string)
    requires MatchesQuoted(arg)
    ensures IsQuotedArg(arg)
  {
    var i := LeadingSpaces(arg);
    var j := TrailingSpacesStart(arg) - 1;
    var mid := arg[i + 1..j];
    assert forall k :: i < k < j ==> arg[k] == mid[k - i - 1];
    assert QuotedAt(arg, i, j);
  }

  lemma QuotedArgMatches(arg: string, i: nat, j: nat)
    requires i < j < |arg| && QuotedAt(arg, i, j)
    ensures MatchesQuoted(arg)
  {
    LeadingSpacesIs(arg, i);
    TrailingSpacesStartIs(arg, j + 1);
    var mid := arg[i + 1..j];
    assert forall k :: 0 <= k < |mid| ==> mid[k] == arg[k + i + 1];
  }

  lemma {:induction false} LeadingSpacesIs(s: string, n: nat)
    requires n < |s| && !IsRegexSpace(s[n])
    requires forall k :: 0 <= k < n ==> IsRegexSpace(s[k])
    ensures LeadingSpaces(s) == n
  {
    if n > 0 {
      LeadingSpacesIs(s[1..], n - 1);
    }
  }

  lemma {:induction false} TrailingSpacesStartIs(s: string, n: nat)
    requires 0 < n <= |s| && !IsRegexSpace(s[n - 1])
    requires forall k :: n <= k < |s| ==> IsRegexSpace(s[k])
    ensures TrailingSpacesStart(s) == n
    decreases |s|
  {
    if n < |s| {
      TrailingSpacesStartIs(s[..|s| - 1], n);
    }
  }

  /** One argument as `escapeWindows` writes it: quoted when it has a space and no quotes yet. */
  function QuoteArg(arg: string): (r: string)
    ensures |r| >= |arg|
  {
    if ' ' in arg && !MatchesQuoted(arg) then "\"" + arg + "\"" else arg
  }

  /**
   * One pass of the `escapeWindows` loop: a space separates the argument
   * from what is already written, but only once something has been written.
   */
  function AppendArg(b: string, arg: string): string {
    (if |b| > 0 then b + " " else b) + QuoteArg(arg)
  }

  /** The rest of the `escapeWindows` loop, from the text `b` written so far. */
  function AppendArgs(b: string, args: seq<string>): string
    decreases |args|
  {
    if args == [] then b else AppendArgs(AppendArg(b, args[0]), args[1..])
  }

  /** The text `escapeWindows` puts between the outer quotes. */
  function WindowsLine(args: seq<string>): string {
    AppendArgs("", args)
  }

  /** `escapeWindows` on a list of tokens. */
  function WindowsEscaped(cmd: seq<string>): seq<string> {
    if |cmd| == 1 then ["\"" + cmd[0] + "\""] else ["\"" + WindowsLine(cmd) + "\""]
  }

  method EscapeWindows(cmd: seq<string>) returns (r: seq<string>)
    ensures |r| == 1
    ensures |cmd| == 1 ==> r == ["\"" + cmd[0] + "\""]
    ensures |cmd| != 1 ==> r == ["\"" + WindowsLine(cmd) + "\""]
  {
    if |cmd| == 1 {
      return ["\"" + cmd[0] + "\""];
    }
    var b := "";
    for i := 0 to |cmd|
      invariant AppendArgs(b, cmd[i..]) == WindowsLine(cmd)
    {
      assert cmd[i..][1..] == cmd[i + 1..];
      b := AppendArgTo(b, cmd[i]);
    }
    r := ["\"" + b + "\""];
  }

  /** The body of the `escapeWindows` loop: one argument appended to the builder. */
  method AppendArgTo(b: string, arg: string) returns (b': string)
    ensures b' == AppendArg(b, arg)
  {
    b' := b;
    if |b'| > 0 {
      b' := b' + " ";
    }
    var quote := ' ' in arg && !MatchesQuoted(arg);
    if quote {
      b' := b' + "\"" + arg + "\"";
    } else {
      b' := b' + arg;
    }
  }

  function QuoteAll(args: seq<string>): (r: seq<string>)
    ensures |r| == |args|
    ensures forall k :: 0 <= k < |args| ==> r[k] == QuoteArg(args[k])
  {
    if args == [] then [] else [QuoteArg(args[0])] + QuoteAll(args[1..])
  }

  /** From a non-empty start, the loop adds a space and each quoted argument after it. */
  lemma {:induction false} AppendArgsJoin(b: string, args: seq<string>)
    requires b != [] && args != []
    requires forall k :: 0 <= k < |args| ==> args[k] != []
    ensures AppendArgs(b, args) == b + " " + Join(QuoteAll(args), " ")
    decreases |args|
  {
    var b' := AppendArg(b, args[0]);
    assert b' == b + " " + QuoteArg(args[0]);
    if |args| == 1 {
      assert AppendArgs(b', []) == b';
    } else {
      AppendArgsJoin(b', args[1..]);
      assert QuoteAll(args)[1..] == QuoteAll(args[1..]);
    }
  }

  /**
   * With no empty token, the text between the outer quotes is the quoted
   * tokens joined by single spaces.
   */
  lemma WindowsLineJoin(args: seq<string>)
    requires forall k :: 0 <= k < |args| ==> args[k] != []
    ensures WindowsLine(args) == Join(QuoteAll(args), " ")
  {
    if args != [] {
      var b := QuoteArg(args[0]);
      assert AppendArg("", args[0]) == b;
      assert WindowsLine(args) == AppendArgs(b, args[1..]);
      if |args| > 1 {
        AppendArgsJoin(b, args[1..]);
        assert QuoteAll(args)[1..] == QuoteAll(args[1..]);
      }
    }
  }

  /** The quoting makes a spaced argument quoted, and quoting twice changes nothing. */
  lemma QuoteArgQuotes(arg: string)
    requires ' ' in arg && NoLineTerminator(arg)
    ensures IsQuotedArg(QuoteArg(arg))
    ensures QuoteArg(QuoteArg(arg)) == QuoteArg(arg)
  {
    MatchesQuotedIsQuotedArg(arg);
    if !IsQuotedArg(arg) {
      var q := "\"" + arg + "\"";
      assert q[0] == '"' && q[|q| - 1] == '"';
      assert forall k :: 0 < k < |q| - 1 ==> q[k] == arg[k - 1];
      assert QuotedAt(q, 0, |q| - 1);
      MatchesQuotedIsQuotedArg(q);
    }
  }

  // ---------------------------------------------------------------------
  // escapeNonWindows
  // ---------------------------------------------------------------------

  /** A match of `(?<!\\)\s+` may start at `p`: a `\s` character not after a backslash. */
  predicate SplitsAt(s: string, p: int) {
    0 <= p < |s| && IsRegexSpace(s[p]) && (p == 0 || s[p - 1] != '\\')
  }

  predicate NoSplit(s: string) {
    forall p :: 0 <= p < |s| ==> !SplitsAt(s, p)
  }

  /** Where the first match starts, from `from` on; `|s|` when there is none. */
  function FirstSplitFrom(s: string, from: nat): (p: nat)
    requires from <= |s|
    ensures from <= p <= |s|
    ensures p < |s| ==> SplitsAt(s, p)
    ensures forall q :: from <= q < p ==> !SplitsAt(s, q)
    decreases |s| - from
  {
    if from == |s| || SplitsAt(s, from) then from else FirstSplitFrom(s, from + 1)
  }

  /**
   * The pieces between matches, trailing empty pieces included. After a
   * match the search resumes at a character that is not `\s`, so the rest
   * can be split on its own.
   */
  function RawPieces(s: string): (r: seq<string>)
    ensures |r| >= 1
    decreases |s|
  {
    var p := FirstSplitFrom(s, 0);
    if p == |s| then [s]
    else
      var q := p + LeadingSpaces(s[p..]);
      [s[..p]] + RawPieces(s[q..])
  }

  /** `s.split("(?<!\\\\)\\s+")`: a text without a match is returned whole. */
  function SplitUnescaped(s: string): seq<string> {
    if FirstSplitFrom(s, 0) == |s| then [s] else DropTrailingEmpty(RawPieces(s))
  }

  lemma {:induction false} RawPiecesNoSplit(s: string)
    ensures forall k :: 0 <= k < |RawPieces(s)| ==> NoSplit(RawPieces(s)[k])
    decreases |s|
  {
    var p := FirstSplitFrom(s, 0);
    if p == |s| {
      NoSplitBefore(s, p);
      assert s[..p] == s;
    } else {
      var q := p + LeadingSpaces(s[p..]);
      assert LeadingSpaces(s[p..]) >= 1;
      RawPiecesNoSplit(s[q..]);
      NoSplitBefore(s, p);
      assert RawPieces(s) == [s[..p]] + RawPieces(s[q..]);
      AllNoSplitCons(s[..p], RawPieces(s[q..]));
    }
  }

  /** The text before the first match has no match of its own. */
  lemma NoSplitBefore(s: string, p: nat)
    requires p <= |s| && forall q :: 0 <= q < p ==> !SplitsAt(s, q)
    ensures NoSplit(s[..p])
  {
    var head := s[..p];
    forall x | 0 <= x < |head| ensures !SplitsAt(head, x) {
      assert head[x] == s[x] && (x == 0 || head[x - 1] == s[x - 1]);
      assert !SplitsAt(s, x);
    }
  }

  lemma AllNoSplitCons(head: string, rest: seq<string>)
    requires NoSplit(head) && forall k :: 0 <= k < |rest| ==> NoSplit(rest[k])
    ensures forall k :: 0 <= k < |[head] + rest| ==> NoSplit(([head] + rest)[k])
  {
    forall k | 0 <= k < |[head] + rest| ensures NoSplit(([head] + rest)[k]) {
      if k > 0 {
        assert ([head] + rest)[k] == rest[k - 1];
      }
    }
  }

  /** No piece of the split contains a `\s` character that is not after a backslash. */
  lemma SplitUnescapedNoSplit(s: string)
    ensures forall k :: 0 <= k < |SplitUnescaped(s)| ==> NoSplit(SplitUnescaped(s)[k])
  {
    if FirstSplitFrom(s, 0) == |s| {
      assert forall q :: !SplitsAt(s, q);
    } else {
      RawPiecesNoSplit(s);
    }
  }

  /** A token that the split keeps whole between two single spaces. */
  predicate IsWord(t: string) {
    t != [] && NoSplit(t) && t[|t| - 1] != '\\'
  }

  /** A word, a space and a rest that starts with a word: the first piece is the word. */
  lemma RawPiecesCons(t: string, rest: string)
    requires IsWord(t) && rest != [] && !IsRegexSpace(rest[0])
    ensures RawPieces(t + " " + rest) == [t] + RawPieces(rest)
  {
    var s := t + " " + rest;
    forall x | 0 <= x < |t| ensures !SplitsAt(s, x) {
      assert s[x] == t[x];
      if x > 0 {
        assert s[x - 1] == t[x - 1];
      }
      assert !SplitsAt(t, x);
    }
    assert SplitsAt(s, |t|);
    FirstSplitIs(s, |t|);
    assert s[|t|..] == " " + rest;
    assert LeadingSpaces(" " + rest) == 1 by {
      assert (" " + rest)[1..] == rest;
    }
    assert s[..|t|] == t && s[|t| + 1..] == rest;
  }

  lemma FirstSplitIs(s: string, p: nat)
    requires SplitsAt(s, p) && forall q :: 0 <= q < p ==> !SplitsAt(s, q)
    ensures FirstSplitFrom(s, 0) == p
  {
    var f := FirstSplitFrom(s, 0);
    assert !(f < p);
  }

  predicate AreWords(ts: seq<string>) {
    forall k :: 0 <= k < |ts| ==> IsWord(ts[k])
  }

  lemma {:induction false} JoinStartsWithWord(ts: seq<string>)
    requires |ts| >= 1 && AreWords(ts)
    ensures Join(ts, " ") != [] && Join(ts, " ")[0] == ts[0][0]
  {
    assert SplitsAt(ts[0], 0) == false;
    if |ts| > 1 {
      assert Join(ts, " ") == ts[0] + " " + Join(ts[1..], " ");
    }
  }

  lemma {:induction false} RawPiecesOfJoin(ts: seq<string>)
    requires |ts| >= 1 && AreWords(ts)
    ensures RawPieces(Join(ts, " ")) == ts
    decreases |ts|
  {
    if |ts| == 1 {
      assert forall q :: !SplitsAt(ts[0], q);
    } else {
      var rest := Join(ts[1..], " ");
      JoinStartsWithWord(ts[1..]);
      assert !SplitsAt(ts[1], 0);
      RawPiecesCons(ts[0], rest);
      RawPiecesOfJoin(ts[1..]);
      assert ts == [ts[0]] + ts[1..];
    }
  }

  /**
   * The split undoes a join by single spaces: words without unescaped
   * whitespace and without a final backslash come back one by one.
   */
  lemma SplitUnescapedJoin(ts: seq<string>)
    requires |ts| >= 1 && AreWords(ts)
    ensures SplitUnescaped(Join(ts, " ")) == ts
  {
    RawPiecesOfJoin(ts);
    var s := Join(ts, " ");
    if FirstSplitFrom(s, 0) == |s| {
      assert RawPieces(s) == [s];
    }
  }

  /** One token as the `escapeNonWindows` loop leaves it: escaped when it has a space. */
  function EscapeToken(t: string): string {
    if ' ' in t then EscapeShell(t) else t
  }

  /** `escapeNonWindows` on a list of tokens. */
  function NonWindowsEscaped(cmd: seq<string>): seq<string> {
    if |cmd| == 1 then SplitUnescaped(cmd[0]) else seq(|cmd|, k requires 0 <= k < |cmd| => EscapeToken(cmd[k]))
  }

  method EscapeNonWindows(cmd: seq<string>) returns (r: seq<string>)
    ensures |cmd| == 1 ==> r == SplitUnescaped(cmd[0])
    ensures |cmd| != 1 ==> |r| == |cmd|
    ensures |cmd| != 1 ==> forall k :: 0 <= k < |cmd| && ' ' !in cmd[k] ==> r[k] == cmd[k]
    ensures |cmd| != 1 ==> forall k :: 0 <= k < |cmd| && ' ' in cmd[k] ==> r[k] == EscapeShell(cmd[k])
    ensures r == NonWindowsEscaped(cmd)
  {
    if |cmd| == 1 {
      return SplitUnescaped(cmd[0]);
    }
    r := cmd;
    for i := 0 to |r|
      invariant |r| == |cmd|
      invariant forall k :: 0 <= k < i ==> r[k] == EscapeToken(cmd[k])
      invariant forall k :: i <= k < |r| ==> r[k] == cmd[k]
    {
      if ' ' in r[i] {
        r := r[i := EscapeShell(r[i])];
      }
    }
  }

  /** A token the loop escaped reads back as itself, minus its line feeds. */
  lemma EscapeTokenReadsBack(t: string)
    requires ' ' in t
    ensures Unescape(EscapeToken(t)) == RemoveLineFeeds(t)
    ensures IsEscaped(EscapeToken(t))
  {
    UnescapeEscapeShell(t);
    EscapeShellIsEscaped(t);
  }

  // ---------------------------------------------------------------------
  // getCleanCommand
  // ---------------------------------------------------------------------

  /** The exception of `getCleanCommand`: "No command specified." */
  datatype CommandError = NoCommandSpecified

  /** The escaping dialect of the operating system. */
  function Escaped(os: Os, cmd: seq<string>): seq<string> {
    if IsWindows(os) then WindowsEscaped(cmd) else NonWindowsEscaped(cmd)
  }

  /** `getCleanCommand`: prefixes stripped, empty remainder rejected, remainder escaped, prefixes re-added. */
  function CleanCommand(command: seq<string>, os: Os): Result<seq<string>, CommandError> {
    var prefixes := OsCommandPrefixes(os);
    var rest := StripPrefixes(command, prefixes);
    if rest == [] then Err(NoCommandSpecified) else Ok(prefixes + Escaped(os, rest))
  }

  method GetCleanCommand(command: seq<string>, os: Os) returns (r: Result<seq<string>, CommandError>)
    ensures r == CleanCommand(command, os)
  {
    var prefixes := OsCommandPrefixes(os);
    var cmd := RemovePrefixes(command, prefixes);
    if cmd == [] {
      return Err(NoCommandSpecified);
    }
    if IsWindows(os) {
      cmd := EscapeWindows(cmd);
    } else {
      cmd := EscapeNonWindows(cmd);
    }
    return Ok(prefixes + cmd);
  }

  /**
   * A command that already carries the operating system's prefix is
   * prepared like the same command without it: the prefix is not doubled,
   * and a bare prefix is no command at all.
   */
  lemma CleanCommandPrefixedOnce(os: Os, rest: seq<string>)
    ensures CleanCommand(OsCommandPrefixes(os) + rest, os) ==
            (if rest == [] then Err(NoCommandSpecified) else Ok(OsCommandPrefixes(os) + Escaped(os, rest)))
  {
    StripPrefixesOfPrefixed(OsCommandPrefixes(os), rest);
  }

  /**
   * On Windows the prepared command is the prefix and one quoted argument;
   * elsewhere no prefix is added and two or more tokens keep their count.
   */
  lemma CleanCommandShape(command: seq<string>, os: Os)
    requires CleanCommand(command, os).Ok?
    ensures var r := CleanCommand(command, os).value;
            && (IsWindows(os) ==> |r| == 3 && r[..2] == OsCommandPrefixes(os) && r[2][0] == '"')
            && (!IsWindows(os) && |command| >= 2 ==> |r| == |command|)
  {
    var r := CleanCommand(command, os).value;
    if IsWindows(os) {
      assert r[..2] == OsCommandPrefixes(os);
    }
  }

  /**
   * Off Windows a single blank token splits into no token at all, so the
   * command is not rejected and the prepared argument vector is empty.
   */
  lemma CleanCommandBlankToken(os: Os)
    requires !IsWindows(os)
    ensures CleanCommand([" "], os) == Ok([])
  {
    assert SplitsAt(" ", 0) && FirstSplitFrom(" ", 0) == 0;
    assert " "[0..] == " " && " "[1..] == [] && " "[..0] == [];
    assert LeadingSpaces(" ") == 1;
    assert FirstSplitFrom([], 0) == 0 && RawPieces([]) == [[]];
    assert RawPieces(" ") == ["", ""];
    assert ["", ""][..1] == [""] && [""][..0] == [];
    assert DropTrailingEmpty(["", ""]) == [];
    assert SplitUnescaped(" ") == [];
    var rest := StripPrefixes([" "], OsCommandPrefixes(os));
    assert rest == [" "];
    assert OsCommandPrefixes(os) + Escaped(os, rest) == [];
  }

  /** The command is rejected exactly when nothing is left once the prefixes are stripped. */
  lemma CleanCommandRejects(command: seq<string>, os: Os)
    ensures CleanCommand(command, os).Err? <==> |command| == PrefixCount(command, OsCommandPrefixes(os), 0)
  {
  }
}
