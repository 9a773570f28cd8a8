/**
 * `escapeShell` of `SystemCommand`: the `ESCAPE_XSI` lookup translator. It
 * puts a backslash before each shell metacharacter and deletes line feeds,
 * a CR LF pair counting as one longer match. Every other character,
 * including a lone CR, is copied.
 */
module ShellEscape {

  /** The single characters that `ESCAPE_XSI` maps to a backslash and themselves. */
  predicate IsShellSpecial(c: char) {
    || c == '|' || c == '&' || c == ';' || c == '<' || c == '>' || c == '(' || c == ')'
    || c == '$' || c == '`' || c == '\\' || c == '"' || c == '\'' || c == ' ' || c == '\t'
    || c == '*' || c == '?' || c == '[' || c == '#' || c == '~' || c == '=' || c == '%'
  }

  /**
   * `ESCAPE_XSI.translate(s)`. At each position the translator tries its
   * longest key first, so CR LF is deleted as a pair before a lone LF is
   * considered.
   */
  function EscapeShell(s: string): string
    decreases |s|
  {
    if s == [] then []
    else if |s| >= 2 && s[0] == '\r' && s[1] == '\n' then EscapeShell(s[2..])
    else if s[0] == '\n' then EscapeShell(s[1..])
    else if IsShellSpecial(s[0]) then ['\\', s[0]] + EscapeShell(s[1..])
    else [s[0]] + EscapeShell(s[1..])
  }

  /** The inverse reading: each backslash is dropped and the character after it kept. */
  function Unescape(s: string): string
    decreases |s|
  {
    if s == [] then []
    else if s[0] == '\\' && |s| >= 2 then [s[1]] + Unescape(s[2..])
    else [s[0]] + Unescape(s[1..])
  }

  /** The text without its line feeds: CR LF pairs and lone LFs deleted, lone CRs kept. */
  function RemoveLineFeeds(s: string): (r: string)
    ensures '\n' !in r
    decreases |s|
  {
    if s == [] then []
    else if |s| >= 2 && s[0] == '\r' && s[1] == '\n' then RemoveLineFeeds(s[2..])
    else if s[0] == '\n' then RemoveLineFeeds(s[1..])
    else [s[0]] + RemoveLineFeeds(s[1..])
  }

  /**
   * The shape of an escaped text: a sequence of backslash-metacharacter
   * pairs and of single characters that are neither metacharacters nor
   * line feeds.
   */
  predicate IsEscaped(r: string)
    decreases |r|
  {
    if r == [] then true
    else if r[0] == '\\' then |r| >= 2 && IsShellSpecial(r[1]) && IsEscaped(r[2..])
    else !IsShellSpecial(r[0]) && r[0] != '\n' && IsEscaped(r[1..])
  }

  /** Dropping the escapes recovers the input minus its line feeds. */
  lemma {:induction false} UnescapeEscapeShell(s: string)
    ensures Unescape(EscapeShell(s)) == RemoveLineFeeds(s)
    decreases |s|
  {
    if s == [] {
    } else if |s| >= 2 && s[0] == '\r' && s[1] == '\n' {
      UnescapeEscapeShell(s[2..]);
    } else if s[0] == '\n' {
      UnescapeEscapeShell(s[1..]);
    } else if IsShellSpecial(s[0]) {
      UnescapeEscapeShell(s[1..]);
      assert (['\\', s[0]] + EscapeShell(s[1..]))[2..] == EscapeShell(s[1..]);
    } else {
      UnescapeEscapeShell(s[1..]);
      assert ([s[0]] + EscapeShell(s[1..]))[1..] == EscapeShell(s[1..]);
    }
  }

  /** Every output of the translator is escaped: no bare metacharacter, no line feed. */
  lemma {:induction false} EscapeShellIsEscaped(s: string)
    ensures IsEscaped(EscapeShell(s))
    decreases |s|
  {
    if s == [] {
    } else if |s| >= 2 && s[0] == '\r' && s[1] == '\n' {
      EscapeShellIsEscaped(s[2..]);
    } else if s[0] == '\n' {
      EscapeShellIsEscaped(s[1..]);
    } else if IsShellSpecial(s[0]) {
      EscapeShellIsEscaped(s[1..]);
      assert (['\\', s[0]] + EscapeShell(s[1..]))[2..] == EscapeShell(s[1..]);
    } else {
      EscapeShellIsEscaped(s[1..]);
      assert ([s[0]] + EscapeShell(s[1..]))[1..] == EscapeShell(s[1..]);
    }
  }

  /** An escaped text is the escape of what it denotes: the translator is onto the escaped texts. */
  lemma {:induction false} EscapeShellUnescape(r: string)
    requires IsEscaped(r)
    ensures EscapeShell(Unescape(r)) == r
    decreases |r|
  {
    if r == [] {
    } else if r[0] == '\\' {
      EscapeShellUnescape(r[2..]);
      var u := Unescape(r);
      assert u == [r[1]] + Unescape(r[2..]);
      assert u[1..] == Unescape(r[2..]);
      assert r[1] != '\n' && r[1] != '\r';
    } else {
      EscapeShellUnescape(r[1..]);
      var u := Unescape(r);
      assert u == [r[0]] + Unescape(r[1..]);
      assert u[1..] == Unescape(r[1..]);
      if r[0] == '\r' && |u| >= 2 {
        assert u[1] != '\n';
      }
    }
  }

  /** On a text free of metacharacters and line feeds the translator changes nothing. */
  lemma {:induction false} EscapeShellKeepsPlain(s: string)
    requires forall i :: 0 <= i < |s| ==> !IsShellSpecial(s[i]) && s[i] != '\n'
    ensures EscapeShell(s) == s
    decreases |s|
  {
    if s != [] {
      EscapeShellKeepsPlain(s[1..]);
    }
  }

  /** Without line feeds the round trip is exact. */
  lemma {:induction false} RemoveLineFeedsKeeps(s: string)
    requires '\n' !in s
    ensures RemoveLineFeeds(s) == s
    decreases |s|
  {
    if s != [] {
      RemoveLineFeedsKeeps(s[1..]);
    }
  }
}
