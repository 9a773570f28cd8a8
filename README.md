# norconex-commons-lang: URL normalizer, system command and indenting XML writer, in Dafny

This project models three classes of the Norconex Commons Lang library and
proves properties of the model.

* **`URLNormalizer`** is a builder that holds one URL string. Each
  normalization rewrites that string: it lower-cases the scheme and host,
  upper-cases percent escapes, decodes unreserved escapes, encodes spaces,
  removes the default port, adds a trailing slash, removes dot segments and
  the directory index, removes the fragment, switches between http and
  https, collapses duplicate slashes, adds or removes "www.", sorts or
  filters query parameters, removes a trailing '?', and removes session ids.
  Each operation is a function on the URL text (modules `UrlEdits`,
  `UrlEscapes`, `UrlQuery`, `UrlSession`, `UrlHostPath`, `UrlPortPath`,
  `UrlDotSegments`). The class `Normalizer.UrlNormalizer` holds the `url`
  field, and each of its methods is proved against the function for its
  operation. Where the source runs a loop (the `Matcher` loops of the two
  escape operations, the parameter loops, and the backward loop of
  `removeDotSegments`), the loop is a method with invariants, proved equal
  to the function.
  * Operations that read the URL back through `toURL()` use `UrlParse`. It
    is a model of the part of `java.net.URL` they need: protocol, host,
    port and path.
  * `Compose` writes a URL out from those parts. Many theorems say what an
    operation does to `Compose(u)`: which part changes and that every other
    part stays as it was.
* **`SystemCommand`** prepares a command line and launches it.
  * Module `CommandLine` covers:
    * stripping the operating system's shell prefix (`cmd.exe /C`,
      `command.com /C`);
    * the Windows quoting;
    * the non-Windows split on unescaped white space and shell escaping
      (`ShellEscape`);
    * `getCleanCommand`, which rejects an empty command.
  * Module `Exec` covers the listener lists, the environment array, and
    the `execute`/`isRunning`/`abort` guard. They live on the class
    `Exec.SystemCommand`.
  * The operating system is the parameter `os: Os`. What `Runtime.exec`
    and the stream watchers report is passed to `Execute` as parameters.
    Each call to `Runtime.exec` is recorded in the field `launches`.
* **`EnhancedXMLStreamWriter`** wraps an `XMLStreamWriter` and indents its
  output. Module `XmlWriter` models:
  * the wrapped writer as the sequence of calls made on it (`out`);
  * the two fields `depth` and `indentEnd`;
  * the `indent` and `writeBlanks` settings.

  `Apply` is the effect of one call. `Run` is the effect of a sequence of
  calls. Each method of the class `XmlWriter.EnhancedXmlStreamWriter` is
  proved against `Apply`.

Java's `String`s are `seq<char>`. A Dafny `char` is a Unicode scalar
value, where a Java `char` is a UTF-16 code unit: a character above U+FFFF
is one `char` in the model and two in Java. `JavaStrings.CompareTo` orders
texts as `String.compareTo` orders their UTF-16 encodings
(`JavaStrings.CompareToIsUtf16`). Java's regular
expressions are written out as scans that find the leftmost match, with
Java's rules:

* `.` does not match a line terminator;
* `\s` is the six ASCII white-space characters;
* `CASE_INSENSITIVE` folds ASCII letters only.

Where the source edits the URL through a text search, the `...AsWritten`
members keep that search: `replaceOnce`, `replaceFirst` and `indexOf` all
stand for "the first textual occurrence". Where that search edits the wrong
part of the URL, the class `Normalizer.UrlNormalizer` uses a corrected
definition that edits the part where it lies; "## Findings" lists each one.

In the following cases the documentation and the code differ, the code's
behaviour is consistent, and the model follows the code:

* A command made of one empty token (`[""]`) is not rejected. Only a
  command that is empty once the shell prefix is stripped gets "No command
  specified." (`CommandLine.CleanCommandRejects`). `[""]` reaches
  `Runtime.exec` as the argument vector `[""]`.
* `execute` sets `process` back to `null` before it returns, in the
  background mode too. After it returns, `isRunning()` is false and
  `abort()` does nothing (`Exec.SystemCommand.Execute`).
* The Javadoc example of `sortQueryParameters` shows `?y=cc&z=bb&z=aa`.
  The `TreeBag` orders whole parameters with `String.compareTo`, so
  `z=aa` comes before `z=bb` (`UrlQuery.SortExample`).
* The three-argument `writeAttribute(namespaceURI, localName, value)`
  forwards `writeAttribute(namespaceURI, value)`: it drops the local name
  and writes the namespace URI as the attribute name. The model keeps this
  (`XmlWriter.AttributeNsDropsLocalName`).

## Model

| member | source | states |
|---|---|---|
| UrlParse.ParseAuthority | norconex-commons-lang/src/main/java/com/norconex/commons/lang/url/URLNormalizer.java:634-645 | An accepted authority yields a host made of host characters, without ':' or '@', and a port that is -1 or between 0 and `Integer.MAX_VALUE` |
| UrlParse.ParseUrl | norconex-commons-lang/src/main/java/com/norconex/commons/lang/url/URLNormalizer.java:634-645 | An accepted URL has one of the four default-handler protocols, a host of host characters, a port of -1 or more, and a path without '?' or '#' |
| UrlParse.ParseAfterProtocol | norconex-commons-lang/src/main/java/com/norconex/commons/lang/url/URLNormalizer.java:634-645 | What follows the protocol's ':' parses into a URL that keeps that protocol, with the same guarantees on host, port and path |
| UrlParse.ParseWithoutAuthority | norconex-commons-lang/src/main/java/com/norconex/commons/lang/url/URLNormalizer.java:634-645 | Text after the protocol that does not start with "//" and holds no query or fragment is the whole path, with host "" and port -1 |
| UrlParse.ParseAnyCaseScheme | norconex-commons-lang/src/main/java/com/norconex/commons/lang/url/URLNormalizer.java:634-645 | The protocol is read case-insensitively: a composed URL with its scheme written in any mix of cases parses into the same URL |
| UrlParse.SpansAnyCaseScheme | norconex-commons-lang/src/main/java/com/norconex/commons/lang/url/URLNormalizer.java:497-514 | Rewriting the scheme in another case moves none of the located parts |
| UrlParse.ParseCompose | norconex-commons-lang/src/main/java/com/norconex/commons/lang/url/URLNormalizer.java:634-645 | Round trip: parsing `Compose(u)` gives back `u` for every composable URL |
| UrlParse.ParseAuthorityComposed | norconex-commons-lang/src/main/java/com/norconex/commons/lang/url/URLNormalizer.java:634-645 | Round trip on the authority: `host[:port]` parses back into the same host and port |
| UrlParse.DecimalRoundTrip | norconex-commons-lang/src/main/java/com/norconex/commons/lang/url/URLNormalizer.java:634-645 | The numeral written for a port reads back as that number |
| UrlParse.SpansOfCompose | norconex-commons-lang/src/main/java/com/norconex/commons/lang/url/URLNormalizer.java:497-514 | In a composed URL, the located scheme, host and path are exactly where `Compose` wrote them |
| UrlHostPath.ToUrlCompose | norconex-commons-lang/src/main/java/com/norconex/commons/lang/url/URLNormalizer.java:634-645 | `toURL()` of a composed URL returns its parts |
| UrlHostPath.AddWwwComposed | norconex-commons-lang/src/main/java/com/norconex/commons/lang/url/URLNormalizer.java:508-514 | Corrected `addWWW`: a host without "www." gains the prefix, every other part is kept, and the result is still composable |
| UrlHostPath.AddWwwAsWrittenEditsProtocol | norconex-commons-lang/src/main/java/com/norconex/commons/lang/url/URLNormalizer.java:508-514 | As written, when the host text also occurs inside the protocol, "www." goes into the protocol, and the result differs from the corrected one |
| UrlHostPath.RemoveWwwPrefix | norconex-commons-lang/src/main/java/com/norconex/commons/lang/url/URLNormalizer.java:499 | `removeStartIgnoreCase(host, "www.")` drops exactly a leading "www." in any case, and otherwise keeps the host |
| UrlHostPath.RemoveWwwComposed | norconex-commons-lang/src/main/java/com/norconex/commons/lang/url/URLNormalizer.java:497-502 | A host starting with "www." in any case loses those four characters, and every other part is kept |
| UrlHostPath.RemoveWwwKeeps | norconex-commons-lang/src/main/java/com/norconex/commons/lang/url/URLNormalizer.java:497-502 | A URL whose host does not start with "www." is left unchanged |
| UrlHostPath.RemoveWwwAfterAddWww | norconex-commons-lang/src/main/java/com/norconex/commons/lang/url/URLNormalizer.java:497-514 | `removeWWW` undoes `addWWW` |
| UrlHostPath.FindPartPattern | norconex-commons-lang/src/main/java/com/norconex/commons/lang/url/URLNormalizer.java:198-203 | The case-insensitive pattern made from the protocol or host text is found at its leftmost match, or found nowhere |
| UrlHostPath.LowerCaseSchemeHostComposed | norconex-commons-lang/src/main/java/com/norconex/commons/lang/url/URLNormalizer.java:196-205 | Corrected `lowerCaseSchemeHost`: the host is lower-cased in place, every other part is kept, and the result is still composable |
| UrlHostPath.LowerCaseSchemeHostIdempotent | norconex-commons-lang/src/main/java/com/norconex/commons/lang/url/URLNormalizer.java:196-205 | Lower-casing scheme and host a second time changes nothing |
| UrlHostPath.LowerCaseSchemeHostAnyCase | norconex-commons-lang/src/main/java/com/norconex/commons/lang/url/URLNormalizer.java:196-205 | A composed URL whose scheme is written in any mix of cases gets its scheme and its host lower-cased in place, and nothing else changes |
| UrlHostPath.LowerCaseSchemeHostExample | norconex-commons-lang/src/main/java/com/norconex/commons/lang/url/URLNormalizer.java:191-192 | The Javadoc example: "HTTP://" followed by a host name and "/" becomes "http://", the lower-cased host and "/" |
| UrlHostPath.LowerCaseSchemeHostAsWrittenKeepsHost | norconex-commons-lang/src/main/java/com/norconex/commons/lang/url/URLNormalizer.java:196-205 | As written, when the host pattern matches inside the protocol, an upper-case host letter stays upper case, and the result differs from the corrected one |
| UrlPortPath.HasDefaultPortOfKnown | norconex-commons-lang/src/main/java/com/norconex/commons/lang/url/URLNormalizer.java:296-300 | The default-port test holds exactly for http on port 80 and https on port 443 |
| UrlPortPath.RemoveDefaultPortComposed | norconex-commons-lang/src/main/java/com/norconex/commons/lang/url/URLNormalizer.java:294-304 | A default port is removed, and every other part is kept |
| UrlPortPath.RemoveDefaultPortKeeps | norconex-commons-lang/src/main/java/com/norconex/commons/lang/url/URLNormalizer.java:294-304 | A URL without a default port is left unchanged |
| UrlPortPath.RemoveDefaultPortIdempotent | norconex-commons-lang/src/main/java/com/norconex/commons/lang/url/URLNormalizer.java:294-304 | Removing the default port a second time changes nothing |
| UrlPortPath.CollapseSlashes | norconex-commons-lang/src/main/java/com/norconex/commons/lang/url/URLNormalizer.java:488 | `replaceAll("/{2,}", "/")` never lengthens the text, keeps it non-empty when it was, and keeps the first character |
| UrlPortPath.CollapseSlashesNoDouble | norconex-commons-lang/src/main/java/com/norconex/commons/lang/url/URLNormalizer.java:488 | No two slashes are adjacent after collapsing |
| UrlPortPath.CollapseSlashesKeeps | norconex-commons-lang/src/main/java/com/norconex/commons/lang/url/URLNormalizer.java:488 | A text without adjacent slashes is unchanged |
| UrlPortPath.CollapseSlashesIdempotent | norconex-commons-lang/src/main/java/com/norconex/commons/lang/url/URLNormalizer.java:488 | Collapsing twice is collapsing once |
| UrlPortPath.CollapseSlashesChars | norconex-commons-lang/src/main/java/com/norconex/commons/lang/url/URLNormalizer.java:488 | Collapsing introduces no new character and keeps the last one |
| UrlPortPath.RemoveDuplicateSlashesComposed | norconex-commons-lang/src/main/java/com/norconex/commons/lang/url/URLNormalizer.java:486-491 | Corrected `removeDuplicateSlashes`: the path is collapsed in place, and every other part is kept |
| UrlPortPath.RemoveDuplicateSlashesIdempotent | norconex-commons-lang/src/main/java/com/norconex/commons/lang/url/URLNormalizer.java:486-491 | Removing duplicate slashes a second time changes nothing |
| UrlPortPath.RemoveDuplicateSlashesAsWrittenEditsAuthority | norconex-commons-lang/src/main/java/com/norconex/commons/lang/url/URLNormalizer.java:486-491 | As written, a path "//" is first found in the "//" after the protocol, so "http://h//" becomes "http:/h//", and the result differs from the corrected one |
| UrlPortPath.CorrectedDoubleSlashPath | norconex-commons-lang/src/main/java/com/norconex/commons/lang/url/URLNormalizer.java:486-491 | Corrected: a path "//" becomes "/" |
| UrlPortPath.MatchesIndexFileAtLastSlash | norconex-commons-lang/src/main/java/com/norconex/commons/lang/url/URLNormalizer.java:146-150 | `PATTERN_PATH_LAST_SEGMENT` matches exactly when the text after the path's last '/' is one of the fourteen index file names, in any letter case |
| UrlPortPath.WithoutIndexFileShape | norconex-commons-lang/src/main/java/com/norconex/commons/lang/url/URLNormalizer.java:412-413 | `substringBeforeLast(path, "/") + "/"` cuts exactly the index file name and keeps the directory's '/' |
| UrlPortPath.WithoutIndexFileDone | norconex-commons-lang/src/main/java/com/norconex/commons/lang/url/URLNormalizer.java:409-416 | Once the index file is cut, the pattern no longer matches |
| UrlPortPath.RemoveDirectoryIndexComposed | norconex-commons-lang/src/main/java/com/norconex/commons/lang/url/URLNormalizer.java:409-416 | Corrected `removeDirectoryIndex`: the index file name leaves the path in place, and every other part is kept |
| UrlPortPath.RemoveDirectoryIndexKeeps | norconex-commons-lang/src/main/java/com/norconex/commons/lang/url/URLNormalizer.java:409-416 | A URL whose path does not end with an index file is left unchanged |
| UrlPortPath.RemoveDirectoryIndexIdempotent | norconex-commons-lang/src/main/java/com/norconex/commons/lang/url/URLNormalizer.java:409-416 | Removing the directory index a second time changes nothing |
| UrlPortPath.RemoveDirectoryIndexAsWrittenEditsAuthority | norconex-commons-lang/src/main/java/com/norconex/commons/lang/url/URLNormalizer.java:409-416 | As written, for "http://index.html/index.html" the path is first found at the second '/' of "://", which gives "http:///index.html", and the result differs from the corrected one |
| UrlDotSegments.DropSingleDotsKeeps | norconex-commons-lang/src/main/java/com/norconex/commons/lang/url/URLNormalizer.java:343 | From any position, a text where the single-dot pattern does not match is copied unchanged |
| UrlDotSegments.RemoveSingleDotsKeeps | norconex-commons-lang/src/main/java/com/norconex/commons/lang/url/URLNormalizer.java:343 | A URL where the single-dot pattern does not match is left unchanged |
| UrlDotSegments.Segments | norconex-commons-lang/src/main/java/com/norconex/commons/lang/url/URLNormalizer.java:347-349 | The pieces are non-empty, only the first may lack a leading '/', no piece has a '/' after its first character, and the first piece starts like the path |
| UrlDotSegments.ConcatSegments | norconex-commons-lang/src/main/java/com/norconex/commons/lang/url/URLNormalizer.java:347-349 | Splitting the path loses nothing: the pieces concatenate back to the path |
| UrlDotSegments.SegmentsConcat | norconex-commons-lang/src/main/java/com/norconex/commons/lang/url/URLNormalizer.java:347-349 | Segments concatenated and split again give the same segments |
| UrlDotSegments.CountNonDoubleDots | norconex-commons-lang/src/main/java/com/norconex/commons/lang/url/URLNormalizer.java:373-381 | The count is at most the number of segments, and equals it exactly when no segment is "/.." |
| UrlDotSegments.CountNonDoubleDotsSegments | norconex-commons-lang/src/main/java/com/norconex/commons/lang/url/URLNormalizer.java:373-381 | The counting loop returns the number of segments before `maxIndex` that are not "/.." |
| UrlDotSegments.RemoveDoubleDotSegments | norconex-commons-lang/src/main/java/com/norconex/commons/lang/url/URLNormalizer.java:351-369 | The backward loop over the segments builds the path defined by the loop's state function `Backward` |
| UrlDotSegments.BackwardKeeps | norconex-commons-lang/src/main/java/com/norconex/commons/lang/url/URLNormalizer.java:351-369 | Without "/.." segments, the loop keeps every segment in order and never swallows or stops |
| UrlDotSegments.DoubleDotsAsWrittenKeeps | norconex-commons-lang/src/main/java/com/norconex/commons/lang/url/URLNormalizer.java:351-370 | Without "/.." segments, the rebuilt path is the concatenation of the segments |
| UrlDotSegments.ResolveClean | norconex-commons-lang/src/main/java/com/norconex/commons/lang/url/URLNormalizer.java:328-332 | The dot-segment removal of section 5.2.4 of RFC 3986 leaves only segments, none of them "/." or "/.." |
| UrlDotSegments.ResolveKeeps | norconex-commons-lang/src/main/java/com/norconex/commons/lang/url/URLNormalizer.java:328-332 | Segments without dot segments are all kept, in order |
| UrlDotSegments.RemoveDotsClean | norconex-commons-lang/src/main/java/com/norconex/commons/lang/url/URLNormalizer.java:328-332 | After removal, no dot segment is left in the path |
| UrlDotSegments.RemoveDotsKeeps | norconex-commons-lang/src/main/java/com/norconex/commons/lang/url/URLNormalizer.java:328-332 | A path without dot segments is unchanged |
| UrlDotSegments.RemoveDotsIdempotent | norconex-commons-lang/src/main/java/com/norconex/commons/lang/url/URLNormalizer.java:328-332 | Removing dot segments twice is removing them once |
| UrlDotSegments.RemoveDotsAgreesWhenClean | norconex-commons-lang/src/main/java/com/norconex/commons/lang/url/URLNormalizer.java:341-372 | On a path without dot segments, the loop as written and the RFC 3986 removal agree and both keep the path |
| UrlDotSegments.RemoveDotSegmentsComposed | norconex-commons-lang/src/main/java/com/norconex/commons/lang/url/URLNormalizer.java:341-372 | Corrected `removeDotSegments`: the path loses its dot segments in place, and every other part is kept |
| UrlDotSegments.RemoveDotSegmentsKeepsOutsidePath | norconex-commons-lang/src/main/java/com/norconex/commons/lang/url/URLNormalizer.java:327-346 | Corrected `removeDotSegments`: on every URL that parses, the text before the path and the text after it (query and fragment) are kept, as the Javadoc limits the method to the path |
| UrlDotSegments.SingleDotsEditQueryAsWritten | norconex-commons-lang/src/main/java/com/norconex/commons/lang/url/URLNormalizer.java:343 | As written, the single-dot pattern also removes a "/./" that lies in the query |
| UrlDotSegments.RemoveDotsTrimmedUntrimmed | norconex-commons-lang/src/main/java/com/norconex/commons/lang/url/URLNormalizer.java:346 | Trimming the path, as `getPath().trim()` does, changes nothing on a path that starts and ends above U+0020 |
| UrlDotSegments.DocumentedExampleAsWritten | norconex-commons-lang/src/main/java/com/norconex/commons/lang/url/URLNormalizer.java:331-369 | For the documented shape "/../a/b/../c/d.html", the loop as written keeps the leading "/..", where RFC 3986 gives "/a/c/d.html" as the documentation shows |
| UrlDotSegments.DocumentedExampleResolved | norconex-commons-lang/src/main/java/com/norconex/commons/lang/url/URLNormalizer.java:331-332 | Corrected: the documented example resolves to "/a/c/d.html" |
| UrlDotSegments.FinalDoubleDotAsWritten | norconex-commons-lang/src/main/java/com/norconex/commons/lang/url/URLNormalizer.java:354-369 | As written, "/a/b/.." becomes "/a", where RFC 3986 gives "/a/" |
| UrlDotSegments.FinalDoubleDotResolved | norconex-commons-lang/src/main/java/com/norconex/commons/lang/url/URLNormalizer.java:328-332 | Corrected: a final "/.." leaves the directory with its trailing '/' |
| UrlDotSegments.ExcessDoubleDotAsWritten | norconex-commons-lang/src/main/java/com/norconex/commons/lang/url/URLNormalizer.java:354-369 | As written, "/a/../.." becomes "/a/..", which still holds a dot segment and changes again on a second run, where RFC 3986 gives "/" |
| UrlDotSegments.FinalSingleDotSurvives | norconex-commons-lang/src/main/java/com/norconex/commons/lang/url/URLNormalizer.java:343 | The single-dot pattern needs a '/' after the dot, so a final "/." is kept by the first pass |
| UrlDotSegments.FinalSingleDotAsWritten | norconex-commons-lang/src/main/java/com/norconex/commons/lang/url/URLNormalizer.java:347-369 | As written, "/a/." splits into "/a" and "/." and is rebuilt as "/a/.", which still holds a dot segment, where RFC 3986 gives "/a/" |
| UrlDotSegments.FinalSingleDotResolved | norconex-commons-lang/src/main/java/com/norconex/commons/lang/url/URLNormalizer.java:328-332 | Corrected: a final "/." leaves the directory with its trailing '/' |
| UrlDotSegments.RelativeSegments | norconex-commons-lang/src/main/java/com/norconex/commons/lang/url/URLNormalizer.java:347-349 | A path that does not start with '/' (no authority) is split before each '/' all the same, its first piece being the name before the first '/' |
| UrlDotSegments.RelativePathAsWritten | norconex-commons-lang/src/main/java/com/norconex/commons/lang/url/URLNormalizer.java:347-369 | As written, the path "a/../b" of "http:a/../b" is rebuilt as "/b": the "/.." swallows the first name, and the path gains a leading '/' |
| UrlDotSegments.RelativePathKept | norconex-commons-lang/src/main/java/com/norconex/commons/lang/url/URLNormalizer.java:328-332 | Corrected: a path that does not start with '/' is kept, as `URI.normalize` keeps an opaque URI |
| UrlEdits.AddTrailingSlashAsWrittenAppends | norconex-commons-lang/src/main/java/com/norconex/commons/lang/url/URLNormalizer.java:319-325 | As written, '/' is appended exactly when the text after the URL's last '/' has no '.' |
| UrlEdits.AddTrailingSlashAsWrittenDoubles | norconex-commons-lang/src/main/java/com/norconex/commons/lang/url/URLNormalizer.java:319-325 | As written, a URL that already ends with '/' gets a second one |
| UrlEdits.AddTrailingSlashAsWrittenAfterQuery | norconex-commons-lang/src/main/java/com/norconex/commons/lang/url/URLNormalizer.java:319-325 | As written, a dot-free last segment followed by a query gets the '/' after the query |
| UrlEdits.PathPartEnd | norconex-commons-lang/src/main/java/com/norconex/commons/lang/url/URLNormalizer.java:306-309 | The path part ends at the first '?' or '#', or at the end of the text |
| UrlEdits.AddTrailingSlashAppends | norconex-commons-lang/src/main/java/com/norconex/commons/lang/url/URLNormalizer.java:306-323 | Corrected: a dot-free last segment gets '/' before the query or fragment |
| UrlEdits.AddTrailingSlashKeepsSlash | norconex-commons-lang/src/main/java/com/norconex/commons/lang/url/URLNormalizer.java:306-323 | Corrected: a path part that already ends with '/' is left unchanged |
| UrlEdits.AddTrailingSlashKeepsFile | norconex-commons-lang/src/main/java/com/norconex/commons/lang/url/URLNormalizer.java:306-323 | A last segment with a dot gets no slash |
| UrlEdits.AddTrailingSlashIdempotent | norconex-commons-lang/src/main/java/com/norconex/commons/lang/url/URLNormalizer.java:306-323 | Adding the trailing slash twice is adding it once |
| UrlEdits.AddTrailingSlashNoSlash | norconex-commons-lang/src/main/java/com/norconex/commons/lang/url/URLNormalizer.java:319-323 | A path part without any '/' (a URL without authority, such as "http:abc") gets '/' before the query or fragment, as in the source |
| UrlEdits.AddTrailingSlashAgreesAsWritten | norconex-commons-lang/src/main/java/com/norconex/commons/lang/url/URLNormalizer.java:319-323 | On a URL without query or fragment that does not end with '/', the corrected definition gives what the code as written gives |
| UrlEdits.AddTrailingSlashEndsWithDirectory | norconex-commons-lang/src/main/java/com/norconex/commons/lang/url/URLNormalizer.java:306-323 | In the result, the path part ends with '/', or the text after its last '/' has a dot |
| UrlEdits.NextLineTerminator | norconex-commons-lang/src/main/java/com/norconex/commons/lang/url/URLNormalizer.java:424 | The first line terminator at or after a position, or the end of the text |
| UrlEdits.RemoveFragmentSingleLine | norconex-commons-lang/src/main/java/com/norconex/commons/lang/url/URLNormalizer.java:423-426 | On a single-line URL, everything from the first '#' is removed, and no '#' is left |
| UrlEdits.RemoveFragmentIdempotent | norconex-commons-lang/src/main/java/com/norconex/commons/lang/url/URLNormalizer.java:423-426 | Removing the fragment of a single-line URL twice is removing it once |
| UrlEdits.RemoveFragmentStopsAtLineBreak | norconex-commons-lang/src/main/java/com/norconex/commons/lang/url/URLNormalizer.java:424 | `.` does not cross a line break: in "a#b\nc#d" only the first line's fragment goes |
| UrlEdits.RemoveTrailingQuestionMark | norconex-commons-lang/src/main/java/com/norconex/commons/lang/url/URLNormalizer.java:577-582 | A final '?' is removed exactly when it is the URL's only '?'; otherwise the URL is unchanged |
| UrlEdits.RemoveTrailingQuestionMarkIdempotent | norconex-commons-lang/src/main/java/com/norconex/commons/lang/url/URLNormalizer.java:577-582 | Removing the trailing '?' twice is removing it once |
| UrlEdits.SchemeMatch | norconex-commons-lang/src/main/java/com/norconex/commons/lang/url/URLNormalizer.java:154-156 | `PATTERN_SCHEMA` puts the scheme group before a "://" that leaves room before the final line terminator |
| UrlEdits.SchemeMatchLine | norconex-commons-lang/src/main/java/com/norconex/commons/lang/url/URLNormalizer.java:154-156 | The scheme group starts a line, and that line runs to the final line terminator |
| UrlEdits.StripEndS | norconex-commons-lang/src/main/java/com/norconex/commons/lang/url/URLNormalizer.java:459 | `stripEnd(s, "Ss")` returns a prefix of `s` that does not end with 's' or 'S' |
| UrlEdits.SecureSchemeShape | norconex-commons-lang/src/main/java/com/norconex/commons/lang/url/URLNormalizer.java:469-478 | On an http URL, the scheme gains one "s" and the rest of the URL is kept |
| UrlEdits.SecureSchemeAt | norconex-commons-lang/src/main/java/com/norconex/commons/lang/url/URLNormalizer.java:469-478 | `secureScheme` appends "s" to an http scheme group where it lies |
| UrlEdits.UnsecureSchemeAt | norconex-commons-lang/src/main/java/com/norconex/commons/lang/url/URLNormalizer.java:454-463 | `unsecureScheme` strips the trailing s's of an https scheme group where it lies |
| UrlEdits.SecureSchemeMakesHttps | norconex-commons-lang/src/main/java/com/norconex/commons/lang/url/URLNormalizer.java:469-478 | `secureScheme` makes every http URL an https URL |
| UrlEdits.UnsecureAfterSecure | norconex-commons-lang/src/main/java/com/norconex/commons/lang/url/URLNormalizer.java:454-478 | `unsecureScheme` undoes `secureScheme` on every http URL |
| UrlEdits.SecureSchemeOf | norconex-commons-lang/src/main/java/com/norconex/commons/lang/url/URLNormalizer.java:469-478 | On a single-line "scheme://rest" with an http scheme in any case, the result is "scheme" + "s://" + rest |
| UrlEdits.UnsecureSchemeOf | norconex-commons-lang/src/main/java/com/norconex/commons/lang/url/URLNormalizer.java:454-463 | On a single-line "scheme://rest" with an https scheme in any case, the scheme loses its trailing s's |
| UrlEscapes.NextEscape | norconex-commons-lang/src/main/java/com/norconex/commons/lang/url/URLNormalizer.java:144-145 | `find()` returns -1 or a position where `%[0-9a-f]{2}` matches, ignoring case |
| UrlEscapes.NextEscapeSkipsNone | norconex-commons-lang/src/main/java/com/norconex/commons/lang/url/URLNormalizer.java:216 | `find()` skips no match |
| UrlEscapes.MapEscapesToNext | norconex-commons-lang/src/main/java/com/norconex/commons/lang/url/URLNormalizer.java:212-222 | The scan copies the text up to the next match, replaces the match, and goes on after it |
| UrlEscapes.MapEscapesNoNext | norconex-commons-lang/src/main/java/com/norconex/commons/lang/url/URLNormalizer.java:219 | Without a further match, `appendTail` copies the rest |
| UrlEscapes.NoPercentNoEscape | norconex-commons-lang/src/main/java/com/norconex/commons/lang/url/URLNormalizer.java:213 | A URL without '%' is left unchanged |
| UrlEscapes.UpperCaseEscapesPointwise | norconex-commons-lang/src/main/java/com/norconex/commons/lang/url/URLNormalizer.java:212-222 | The length is kept, and only lower-case hex letters change, to upper case, and only inside a `%XX` escape |
| UrlEscapes.UpperCaseEscapesIdempotent | norconex-commons-lang/src/main/java/com/norconex/commons/lang/url/URLNormalizer.java:212-222 | Upper-casing the escapes twice is doing it once |
| UrlEscapes.UpperCaseEscapeSequence | norconex-commons-lang/src/main/java/com/norconex/commons/lang/url/URLNormalizer.java:212-222 | The `Matcher` loop with `appendReplacement` computes the upper-cased URL |
| UrlEscapes.EncodedUnreservedIsRfc3986 | norconex-commons-lang/src/main/java/com/norconex/commons/lang/url/URLNormalizer.java:647-659 | The string comparisons of `isEncodedUnreservedCharacter` hold exactly when the escape stands for an unreserved character of section 2.3 of RFC 3986 |
| UrlEscapes.DecodeTripleMeaning | norconex-commons-lang/src/main/java/com/norconex/commons/lang/url/URLNormalizer.java:234-240 | An escape of an unreserved character becomes that character; any other escape is kept as it was |
| UrlEscapes.DecodePercentEncodedUnreserved | norconex-commons-lang/src/main/java/com/norconex/commons/lang/url/URLNormalizer.java:229-248 | Round trip: decoding the percent-encoding of a text of unreserved characters gives the text back |
| UrlEscapes.DecodeKeepsReservedEscapes | norconex-commons-lang/src/main/java/com/norconex/commons/lang/url/URLNormalizer.java:229-248 | A URL with no escape of an unreserved character is left unchanged |
| UrlEscapes.DecodeUnreservedShortens | norconex-commons-lang/src/main/java/com/norconex/commons/lang/url/URLNormalizer.java:229-248 | Decoding never lengthens the URL |
| UrlEscapes.DecodeUnreservedNotIdempotent | norconex-commons-lang/src/main/java/com/norconex/commons/lang/url/URLNormalizer.java:229-248 | Decoding is not idempotent: "%4%41" becomes "%4A", which a second run turns into "J" |
| UrlEscapes.DecodeUnreservedCharacters | norconex-commons-lang/src/main/java/com/norconex/commons/lang/url/URLNormalizer.java:229-248 | The `Matcher` loop that replaces only unreserved escapes computes the decoded URL |
| UrlEscapes.AppendMatch | norconex-commons-lang/src/main/java/com/norconex/commons/lang/url/URLNormalizer.java:234-240 | One turn of the decode loop keeps the loop invariant: what is built, plus the rest decoded, is the decoded URL |
| UrlEscapes.EncodeSpaces | norconex-commons-lang/src/main/java/com/norconex/commons/lang/url/URLNormalizer.java:283-286 | The length is kept, every space becomes '+', and every other character stays |
| UrlEscapes.EncodeSpacesRoundTrip | norconex-commons-lang/src/main/java/com/norconex/commons/lang/url/URLNormalizer.java:283-286 | On a URL without '+', turning '+' back into spaces undoes the encoding |
| UrlEscapes.EncodeSpacesIdempotent | norconex-commons-lang/src/main/java/com/norconex/commons/lang/url/URLNormalizer.java:283-286 | Encoding spaces twice is encoding them once |
| UrlQuery.Params | norconex-commons-lang/src/main/java/com/norconex/commons/lang/url/URLNormalizer.java:528-529 | The parameters are non-empty and contain no '&' |
| UrlQuery.SplitJoin | norconex-commons-lang/src/main/java/com/norconex/commons/lang/url/URLNormalizer.java:529-533 | Round trip: splitting the '&'-joined parameters gives them back |
| UrlQuery.ParamsWithQuery | norconex-commons-lang/src/main/java/com/norconex/commons/lang/url/URLNormalizer.java:535-536 | After writing a query, the text after the first '?' is that query, and the text before it is unchanged |
| UrlQuery.WithQueryAgain | norconex-commons-lang/src/main/java/com/norconex/commons/lang/url/URLNormalizer.java:535-536 | Writing a query into a URL that already got one replaces it |
| UrlQuery.InsertSortedIsSorted | norconex-commons-lang/src/main/java/com/norconex/commons/lang/url/URLNormalizer.java:531 | Adding to the sorted bag keeps it sorted and adds exactly that parameter |
| JavaStrings.CompareToIsUtf16 | norconex-commons-lang/src/main/java/com/norconex/commons/lang/url/URLNormalizer.java:527-533 | `CompareTo` has the sign of the comparison of the two texts' UTF-16 code units, which is how `String.compareTo` orders the parameters in the `TreeBag`, in both directions for "less" and for "equal" |
| JavaStrings.CompareToSupplementary | norconex-commons-lang/src/main/java/com/norconex/commons/lang/url/URLNormalizer.java:527-533 | A character above U+FFFF sorts before U+FF01, because its first UTF-16 unit is a high surrogate, although its code point is larger |
| UrlQuery.SortAllSortsAndPermutes | norconex-commons-lang/src/main/java/com/norconex/commons/lang/url/URLNormalizer.java:527-533 | The bag reads back sorted by `String.compareTo`, which compares UTF-16 code units (`JavaStrings.CompareToIsUtf16`), with exactly the parameters added |
| UrlQuery.SortedUnique | norconex-commons-lang/src/main/java/com/norconex/commons/lang/url/URLNormalizer.java:527-533 | Two sorted lists of the same parameters are equal, so the bag's order is determined |
| UrlQuery.SortAllOfSorted | norconex-commons-lang/src/main/java/com/norconex/commons/lang/url/URLNormalizer.java:527-533 | A sorted list reads back unchanged |
| UrlQuery.SortParameters | norconex-commons-lang/src/main/java/com/norconex/commons/lang/url/URLNormalizer.java:527-532 | The insertion loop yields a sorted permutation of the parameters, the bag's order |
| UrlQuery.Insert | norconex-commons-lang/src/main/java/com/norconex/commons/lang/url/URLNormalizer.java:531 | `TreeBag.add` puts the parameter before the first one not smaller than it |
| UrlQuery.SortQueryParametersSorts | norconex-commons-lang/src/main/java/com/norconex/commons/lang/url/URLNormalizer.java:521-539 | After sorting, the parameters are the old ones, sorted and permuted, and the text before '?' is unchanged |
| UrlQuery.SortQueryParametersIdempotent | norconex-commons-lang/src/main/java/com/norconex/commons/lang/url/URLNormalizer.java:521-539 | Sorting the query parameters twice is sorting them once |
| UrlQuery.SortExample | norconex-commons-lang/src/main/java/com/norconex/commons/lang/url/URLNormalizer.java:515-539 | "?z=bb&y=cc&z=aa" sorts to "y=cc", "z=aa", "z=bb", not in the Javadoc's order |
| UrlQuery.KeepFilled | norconex-commons-lang/src/main/java/com/norconex/commons/lang/url/URLNormalizer.java:555-563 | Only parameters with a non-blank name and a non-blank value are kept, and each one kept came from the input |
| UrlQuery.KeepFilledKeepsFilled | norconex-commons-lang/src/main/java/com/norconex/commons/lang/url/URLNormalizer.java:555-563 | Each filled parameter is kept as many times as it occurs |
| UrlQuery.KeepFilledOfFilled | norconex-commons-lang/src/main/java/com/norconex/commons/lang/url/URLNormalizer.java:555-563 | A list of filled parameters is kept whole |
| UrlQuery.FilterParameters | norconex-commons-lang/src/main/java/com/norconex/commons/lang/url/URLNormalizer.java:552-563 | The parameter loop keeps exactly the filled parameters, in order and with their counts |
| UrlQuery.RemoveEmptyParametersKeepsFilled | norconex-commons-lang/src/main/java/com/norconex/commons/lang/url/URLNormalizer.java:546-570 | After the removal, the parameters are exactly the filled ones in order, and the text before '?' is unchanged |
| UrlQuery.RemoveEmptyParametersIdempotent | norconex-commons-lang/src/main/java/com/norconex/commons/lang/url/URLNormalizer.java:546-570 | Removing empty parameters twice is removing them once |
| UrlQuery.RemoveEmptyParametersAllEmpty | norconex-commons-lang/src/main/java/com/norconex/commons/lang/url/URLNormalizer.java:564-567 | When no parameter is filled, the URL is left unchanged, '?' included |
| UrlSession.FindFrom | norconex-commons-lang/src/main/java/com/norconex/commons/lang/url/URLNormalizer.java:599-602 | `find()` reports a match of the session pattern at or after the starting position |
| UrlSession.FindFromLeftmost | norconex-commons-lang/src/main/java/com/norconex/commons/lang/url/URLNormalizer.java:599-602 | The reported match is the leftmost: no match starts before it, and no match exists when none is reported |
| UrlSession.MatchAtStarts | norconex-commons-lang/src/main/java/com/norconex/commons/lang/url/URLNormalizer.java:599-602 | A match starts with its '&' or at the start of the query |
| UrlSession.RemoveFirstParamRemovesOne | norconex-commons-lang/src/main/java/com/norconex/commons/lang/url/URLNormalizer.java:599-602 | `replaceFirst` cuts out exactly the leftmost session parameter and nothing else |
| UrlSession.RemoveLeadingAmpersand | norconex-commons-lang/src/main/java/com/norconex/commons/lang/url/URLNormalizer.java:605 | `removeStart(q, "&")` drops exactly one leading '&' |
| UrlSession.RemovesJSessionId | norconex-commons-lang/src/main/java/com/norconex/commons/lang/url/URLNormalizer.java:592-594 | A ";jsessionid=" with hexadecimal digits is cut out of a URL with no earlier ';', and nothing else changes (the documented example, generalized) |
| UrlSession.NoSemicolonNoJSession | norconex-commons-lang/src/main/java/com/norconex/commons/lang/url/URLNormalizer.java:593 | A URL without ';' contains no ";jsessionid=" in any letter case |
| UrlSession.LeadingPhpParam | norconex-commons-lang/src/main/java/com/norconex/commons/lang/url/URLNormalizer.java:599 | The PHP pattern matches a leading "PHPSESSID=" and its alphanumeric id up to the next '&' |
| UrlSession.RemovesLeadingPhpSessionId | norconex-commons-lang/src/main/java/com/norconex/commons/lang/url/URLNormalizer.java:596-607 | A PHP session id that opens the query is removed, together with the '&' after it |
| UrlSession.RemovesLeadingAspSessionId | norconex-commons-lang/src/main/java/com/norconex/commons/lang/url/URLNormalizer.java:598-606 | In a URL without "PHPSESSID=", an ASP session id (`ASPSESSIONID`, eight letters, '=' and letters) that opens the query is removed with the '&' after it |
| UrlSession.RemoveSessionIdsWithoutIds | norconex-commons-lang/src/main/java/com/norconex/commons/lang/url/URLNormalizer.java:592-610 | Without any session marker, the path and a non-blank query are kept, except a leading '&'; a blank query is dropped with its '?' |
| Normalizer.Create | norconex-commons-lang/src/main/java/com/norconex/commons/lang/url/URLNormalizer.java:177-189 | A blank argument is rejected with IllegalArgumentException, and one that does not parse once trimmed with URLException; otherwise the normalizer holds the trimmed text, which parses |
| Normalizer.UrlNormalizer.constructor | norconex-commons-lang/src/main/java/com/norconex/commons/lang/url/URLNormalizer.java:182 | The normalizer keeps the trimmed URL |
| Normalizer.UrlNormalizer.LowerCaseSchemeHost | norconex-commons-lang/src/main/java/com/norconex/commons/lang/url/URLNormalizer.java:196-205 | The method throws exactly when `toURL()` is null, and otherwise sets the URL to the corrected lower-casing |
| Normalizer.UrlNormalizer.UpperCaseEscapeSequence | norconex-commons-lang/src/main/java/com/norconex/commons/lang/url/URLNormalizer.java:212-222 | The URL becomes its upper-cased escapes |
| Normalizer.UrlNormalizer.DecodeUnreservedCharacters | norconex-commons-lang/src/main/java/com/norconex/commons/lang/url/URLNormalizer.java:229-248 | The URL becomes its decoded form |
| Normalizer.UrlNormalizer.EncodeSpaces | norconex-commons-lang/src/main/java/com/norconex/commons/lang/url/URLNormalizer.java:283-286 | The URL becomes its space-encoded form |
| Normalizer.UrlNormalizer.RemoveDefaultPort | norconex-commons-lang/src/main/java/com/norconex/commons/lang/url/URLNormalizer.java:294-304 | The method throws exactly when `toURL()` is null, and otherwise sets the URL without its default port |
| Normalizer.UrlNormalizer.AddTrailingSlash | norconex-commons-lang/src/main/java/com/norconex/commons/lang/url/URLNormalizer.java:319-325 | The URL gains the corrected trailing slash |
| Normalizer.UrlNormalizer.RemoveDotSegments | norconex-commons-lang/src/main/java/com/norconex/commons/lang/url/URLNormalizer.java:341-372 | The method throws exactly when `toURL()` is null, and otherwise sets the URL with its trimmed path resolved by RFC 3986 and the rest of the text kept |
| Normalizer.UrlNormalizer.RemoveDirectoryIndex | norconex-commons-lang/src/main/java/com/norconex/commons/lang/url/URLNormalizer.java:409-416 | The method throws exactly when `toURL()` is null, and otherwise sets the URL with the index file cut where the path is |
| Normalizer.UrlNormalizer.RemoveFragment | norconex-commons-lang/src/main/java/com/norconex/commons/lang/url/URLNormalizer.java:423-426 | The URL loses its fragment |
| Normalizer.UrlNormalizer.UnsecureScheme | norconex-commons-lang/src/main/java/com/norconex/commons/lang/url/URLNormalizer.java:454-463 | An https scheme becomes http |
| Normalizer.UrlNormalizer.SecureScheme | norconex-commons-lang/src/main/java/com/norconex/commons/lang/url/URLNormalizer.java:469-478 | An http scheme becomes https |
| Normalizer.UrlNormalizer.RemoveDuplicateSlashes | norconex-commons-lang/src/main/java/com/norconex/commons/lang/url/URLNormalizer.java:486-491 | The method throws exactly when `toURL()` is null, and otherwise sets the URL with its path collapsed in place |
| Normalizer.UrlNormalizer.RemoveWww | norconex-commons-lang/src/main/java/com/norconex/commons/lang/url/URLNormalizer.java:497-502 | The method throws exactly when `toURL()` is null, and otherwise sets the URL with "www." removed from the host |
| Normalizer.UrlNormalizer.AddWww | norconex-commons-lang/src/main/java/com/norconex/commons/lang/url/URLNormalizer.java:508-514 | The method throws exactly when `toURL()` is null, and otherwise sets the URL with "www." inserted where the host starts |
| Normalizer.UrlNormalizer.SortQueryParameters | norconex-commons-lang/src/main/java/com/norconex/commons/lang/url/URLNormalizer.java:521-539 | The method computes the sorted-query URL |
| Normalizer.UrlNormalizer.RemoveEmptyParameters | norconex-commons-lang/src/main/java/com/norconex/commons/lang/url/URLNormalizer.java:546-570 | The method computes the URL with only its filled parameters |
| Normalizer.UrlNormalizer.RemoveTrailingQuestionMark | norconex-commons-lang/src/main/java/com/norconex/commons/lang/url/URLNormalizer.java:577-582 | The URL loses a lone trailing '?' |
| Normalizer.UrlNormalizer.RemoveSessionIds | norconex-commons-lang/src/main/java/com/norconex/commons/lang/url/URLNormalizer.java:592-610 | The URL loses its session id |
| CommandLine.PrefixCountAsWritten | norconex-commons-lang/src/main/java/com/norconex/commons/lang/exec/SystemCommand.java:344-356 | As written, the loop removes at least the tokens already removed and at most the whole command |
| CommandLine.PrefixCount | norconex-commons-lang/src/main/java/com/norconex/commons/lang/exec/SystemCommand.java:344-356 | With the corrected guard, the count is likewise bounded by the command's length |
| CommandLine.PrefixCountStrips | norconex-commons-lang/src/main/java/com/norconex/commons/lang/exec/SystemCommand.java:344-356 | The corrected removal strips the leading tokens that equal the prefixes, ignoring case, up to the first token that does not |
| CommandLine.StripsExactlyUnique | norconex-commons-lang/src/main/java/com/norconex/commons/lang/exec/SystemCommand.java:344-356 | That description fixes a single count |
| CommandLine.RemovePrefixesAsWritten | norconex-commons-lang/src/main/java/com/norconex/commons/lang/exec/SystemCommand.java:344-356 | The list loop as written leaves the command minus the count of the `cmd.size() > i` guard |
| CommandLine.RemovePrefixes | norconex-commons-lang/src/main/java/com/norconex/commons/lang/exec/SystemCommand.java:344-356 | The corrected list loop strips exactly the matching prefix run and no more |
| CommandLine.StripPrefixesOfPrefixed | norconex-commons-lang/src/main/java/com/norconex/commons/lang/exec/SystemCommand.java:324-356 | A command that starts with the prefixes loses exactly them, even when nothing follows |
| CommandLine.BarePrefixAsWritten | norconex-commons-lang/src/main/java/com/norconex/commons/lang/exec/SystemCommand.java:350 | As written, a command that is exactly the two prefixes keeps the second, where the corrected removal leaves nothing |
| CommandLine.MatchesQuotedIsQuotedArg | norconex-commons-lang/src/main/java/com/norconex/commons/lang/exec/SystemCommand.java:376-377 | The direct test agrees with `arg.matches("^\\s*\".*\"\\s*$")`, in both directions |
| CommandLine.QuoteArgQuotes | norconex-commons-lang/src/main/java/com/norconex/commons/lang/exec/SystemCommand.java:376-383 | Quoting makes a spaced argument match the quoted-argument regex, and quoting twice changes nothing |
| CommandLine.EscapeWindows | norconex-commons-lang/src/main/java/com/norconex/commons/lang/exec/SystemCommand.java:362-387 | One token is wrapped in double quotes; several become one token: the arguments, each quoted when spaced, joined by spaces and wrapped in double quotes |
| CommandLine.AppendArgTo | norconex-commons-lang/src/main/java/com/norconex/commons/lang/exec/SystemCommand.java:372-384 | One turn of the builder loop appends the separator and the quoted or plain argument |
| CommandLine.AppendArgsJoin | norconex-commons-lang/src/main/java/com/norconex/commons/lang/exec/SystemCommand.java:371-384 | From a non-empty start, the loop adds a space and the space-joined quoted arguments |
| CommandLine.WindowsLineJoin | norconex-commons-lang/src/main/java/com/norconex/commons/lang/exec/SystemCommand.java:371-386 | The text between the outer quotes is the quoted arguments joined by single spaces |
| CommandLine.FirstSplitFrom | norconex-commons-lang/src/main/java/com/norconex/commons/lang/exec/SystemCommand.java:397 | The split finds the leftmost match of `(?<!\\)\s+` |
| CommandLine.RawPiecesNoSplit | norconex-commons-lang/src/main/java/com/norconex/commons/lang/exec/SystemCommand.java:397 | No piece of the split contains a white-space character that is not after a backslash |
| CommandLine.SplitUnescapedNoSplit | norconex-commons-lang/src/main/java/com/norconex/commons/lang/exec/SystemCommand.java:397 | The same for `split` itself |
| CommandLine.RawPiecesOfJoin | norconex-commons-lang/src/main/java/com/norconex/commons/lang/exec/SystemCommand.java:396-399 | Words joined by single spaces split back into the same words |
| CommandLine.SplitUnescapedJoin | norconex-commons-lang/src/main/java/com/norconex/commons/lang/exec/SystemCommand.java:396-399 | Round trip: `split` undoes joining words with single spaces |
| CommandLine.EscapeNonWindows | norconex-commons-lang/src/main/java/com/norconex/commons/lang/exec/SystemCommand.java:390-407 | One token is split on unescaped white space; otherwise each token with a space is shell-escaped, and each other token is kept |
| CommandLine.EscapeTokenReadsBack | norconex-commons-lang/src/main/java/com/norconex/commons/lang/exec/SystemCommand.java:401-405 | An escaped token reads back as itself without its line feeds, and is in escaped form |
| CommandLine.GetCleanCommand | norconex-commons-lang/src/main/java/com/norconex/commons/lang/exec/SystemCommand.java:324-340 | The method computes the prefixes, plus the stripped and escaped command, or the "No command specified." error |
| CommandLine.CleanCommandPrefixedOnce | norconex-commons-lang/src/main/java/com/norconex/commons/lang/exec/SystemCommand.java:324-340 | A command that already carries the prefix is prepared like the same command without it: the prefix is not doubled, and a bare prefix is rejected |
| CommandLine.CleanCommandShape | norconex-commons-lang/src/main/java/com/norconex/commons/lang/exec/SystemCommand.java:324-340 | On Windows the result is the two prefixes and one quoted token; elsewhere two or more tokens keep their count |
| CommandLine.CleanCommandRejects | norconex-commons-lang/src/main/java/com/norconex/commons/lang/exec/SystemCommand.java:328-331 | The command is rejected exactly when nothing is left once the prefixes are stripped |
| CommandLine.CleanCommandBlankToken | norconex-commons-lang/src/main/java/com/norconex/commons/lang/exec/SystemCommand.java:324-340 | Off Windows, the command `[" "]` is not rejected and prepares the empty argument vector |
| ShellEscape.UnescapeEscapeShell | norconex-commons-lang/src/main/java/com/norconex/commons/lang/exec/SystemCommand.java:428-457 | Dropping the escapes recovers the input minus its line feeds |
| ShellEscape.EscapeShellIsEscaped | norconex-commons-lang/src/main/java/com/norconex/commons/lang/exec/SystemCommand.java:428-457 | Every output is in escaped form: each metacharacter is after a backslash, and no line feed is left |
| ShellEscape.EscapeShellUnescape | norconex-commons-lang/src/main/java/com/norconex/commons/lang/exec/SystemCommand.java:428-457 | Every text in escaped form is the escape of the text it denotes |
| ShellEscape.EscapeShellKeepsPlain | norconex-commons-lang/src/main/java/com/norconex/commons/lang/exec/SystemCommand.java:428-457 | A text without metacharacters and line feeds is unchanged |
| ShellEscape.RemoveLineFeedsKeeps | norconex-commons-lang/src/main/java/com/norconex/commons/lang/exec/SystemCommand.java:445-446 | A text without line feeds is unchanged by removing them, so the round trip is exact |
| Exec.RemoveFirstCuts | norconex-commons-lang/src/main/java/com/norconex/commons/lang/exec/SystemCommand.java:134-139 | `List.remove` cuts out exactly the first occurrence of the listener, and changes nothing when there is none |
| Exec.RemoveFirstCount | norconex-commons-lang/src/main/java/com/norconex/commons/lang/exec/SystemCommand.java:154-159 | One occurrence of the listener goes, and every other listener stays |
| Exec.RemoveAfterAdd | norconex-commons-lang/src/main/java/com/norconex/commons/lang/exec/SystemCommand.java:124-139 | Removing a listener just added gives the list back |
| Exec.AddEachReverses | norconex-commons-lang/src/main/java/com/norconex/commons/lang/exec/SystemCommand.java:124-129 | Because each listener is added at index 0, the list is in reverse registration order |
| Exec.EnvEntries | norconex-commons-lang/src/main/java/com/norconex/commons/lang/exec/SystemCommand.java:318-320 | One "key=value" string per visited key, in the visiting order |
| Exec.EnvironmentArray | norconex-commons-lang/src/main/java/com/norconex/commons/lang/exec/SystemCommand.java:313-322 | A null map gives a null array; otherwise the array has one "key=value" entry per key, each key visited once |
| Exec.EnvEntriesHas | norconex-commons-lang/src/main/java/com/norconex/commons/lang/exec/SystemCommand.java:318-320 | Every entry of the map has its string in the array |
| Exec.SystemCommand.constructor | norconex-commons-lang/src/main/java/com/norconex/commons/lang/exec/SystemCommand.java:97-101 | The new command keeps its tokens and working directory, and starts with no environment, no listeners, no process and no launch |
| Exec.SystemCommand.AddErrorListener | norconex-commons-lang/src/main/java/com/norconex/commons/lang/exec/SystemCommand.java:124-129 | The listener goes first in the error list, and nothing else changes |
| Exec.SystemCommand.RemoveErrorListener | norconex-commons-lang/src/main/java/com/norconex/commons/lang/exec/SystemCommand.java:134-139 | The first occurrence leaves the error list, and nothing else changes |
| Exec.SystemCommand.AddOutputListener | norconex-commons-lang/src/main/java/com/norconex/commons/lang/exec/SystemCommand.java:144-149 | The listener goes first in the output list, and nothing else changes |
| Exec.SystemCommand.RemoveOutputListener | norconex-commons-lang/src/main/java/com/norconex/commons/lang/exec/SystemCommand.java:154-159 | The first occurrence leaves the output list, and nothing else changes |
| Exec.SystemCommand.SetEnvironmentVariables | norconex-commons-lang/src/main/java/com/norconex/commons/lang/exec/SystemCommand.java:172-175 | The environment is replaced, and nothing else changes |
| Exec.SystemCommand.Abort | norconex-commons-lang/src/main/java/com/norconex/commons/lang/exec/SystemCommand.java:197-201 | A held process gets a destroy request; without one nothing changes |
| Exec.SystemCommand.RecordLaunch | norconex-commons-lang/src/main/java/com/norconex/commons/lang/exec/SystemCommand.java:272-273 | The call of `Runtime.exec` adds exactly one launch, with the given argument vector, the working directory and one "key=value" entry per environment variable, and changes nothing else |
| Exec.SystemCommand.Execute | norconex-commons-lang/src/main/java/com/norconex/commons/lang/exec/SystemCommand.java:260-303 | A running command raises IllegalStateException; a rejected command raises SystemCommandException before any launch; otherwise exactly one launch is recorded with the clean command, the working directory and the environment array. An empty prepared argument vector raises the IndexOutOfBoundsException of `Runtime.exec`; a failed exec is reported; otherwise the exit value is returned (0 for a background process still running), and the process handle is cleared |
| XmlWriter.IndentText | norconex-commons-lang/src/main/java/com/norconex/commons/lang/xml/EnhancedXMLStreamWriter.java:102-110 | `indent()` writes nothing when indent is below 0; otherwise it writes a line feed and then `depth * indent` spaces |
| XmlWriter.IndentSetsIndentEnd | norconex-commons-lang/src/main/java/com/norconex/commons/lang/xml/EnhancedXMLStreamWriter.java:102-110 | `indent()` sets `indentEnd`, keeps the depth, and only appends |
| XmlWriter.ApplyDepth | norconex-commons-lang/src/main/java/com/norconex/commons/lang/xml/EnhancedXMLStreamWriter.java:226-277 | Each call moves the depth by its change: +1 for a start tag, -1 for an end tag, 0 for every other call |
| XmlWriter.IndentedLinesDepth | norconex-commons-lang/src/main/java/com/norconex/commons/lang/xml/EnhancedXMLStreamWriter.java:389-394 | The line loop keeps the depth and, for at least one line, leaves `indentEnd` set |
| XmlWriter.IndentedLinesOut | norconex-commons-lang/src/main/java/com/norconex/commons/lang/xml/EnhancedXMLStreamWriter.java:389-394 | Each line of a multi-line text starts on a new line, indented for the current depth |
| XmlWriter.EndElementIndents | norconex-commons-lang/src/main/java/com/norconex/commons/lang/xml/EnhancedXMLStreamWriter.java:269-277 | The end tag goes on a new line exactly when `indentEnd` was set, one level further out, and `indentEnd` is set afterwards |
| XmlWriter.PassThroughForwards | norconex-commons-lang/src/main/java/com/norconex/commons/lang/xml/EnhancedXMLStreamWriter.java:279-419 | The forwarding calls write themselves, and change neither `depth` nor `indentEnd` |
| XmlWriter.AttributeNsDropsLocalName | norconex-commons-lang/src/main/java/com/norconex/commons/lang/xml/EnhancedXMLStreamWriter.java:306-310 | The three-argument `writeAttribute` writes the namespace URI as the attribute name, with the value |
| XmlWriter.TextWithoutIndent | norconex-commons-lang/src/main/java/com/norconex/commons/lang/xml/EnhancedXMLStreamWriter.java:377-381 | Without indentation, a text goes through unchanged, even a blank one |
| XmlWriter.BlankTextWithIndent | norconex-commons-lang/src/main/java/com/norconex/commons/lang/xml/EnhancedXMLStreamWriter.java:384-397 | With indentation, a blank text writes nothing and clears `indentEnd` |
| XmlWriter.OneLineText | norconex-commons-lang/src/main/java/com/norconex/commons/lang/xml/EnhancedXMLStreamWriter.java:384-388 | A single-line text is written in place and clears `indentEnd` |
| XmlWriter.RunDepth | norconex-commons-lang/src/main/java/com/norconex/commons/lang/xml/EnhancedXMLStreamWriter.java:226-277 | After a sequence of calls, the depth has moved by the sequence's net start/end count |
| XmlWriter.BalancedRestoresDepth | norconex-commons-lang/src/main/java/com/norconex/commons/lang/xml/EnhancedXMLStreamWriter.java:226-277 | Balanced starts and ends restore the depth |
| XmlWriter.RunAppend | norconex-commons-lang/src/main/java/com/norconex/commons/lang/xml/EnhancedXMLStreamWriter.java:226-404 | Running two sequences one after the other is running their concatenation |
| XmlWriter.RunAppends | norconex-commons-lang/src/main/java/com/norconex/commons/lang/xml/EnhancedXMLStreamWriter.java:226-404 | Calls only ever append to the wrapped writer |
| XmlWriter.AttributeObjectOut | norconex-commons-lang/src/main/java/com/norconex/commons/lang/xml/EnhancedXMLStreamWriter.java:170-178 | A non-blank value is written as the attribute; a blank or null one is written as "" when blanks are written, and not at all otherwise |
| XmlWriter.ElementObjectDepth | norconex-commons-lang/src/main/java/com/norconex/commons/lang/xml/EnhancedXMLStreamWriter.java:212-222 | Writing an element value never changes the depth |
| XmlWriter.ElementObjectOneLine | norconex-commons-lang/src/main/java/com/norconex/commons/lang/xml/EnhancedXMLStreamWriter.java:212-218 | A single-line value makes a compact element: the start tag on a new line, then the text, then the end tag right after |
| XmlWriter.ElementObjectBlank | norconex-commons-lang/src/main/java/com/norconex/commons/lang/xml/EnhancedXMLStreamWriter.java:219-221 | A blank value writes one empty element when blanks are written, and nothing otherwise |
| XmlWriter.EnhancedXmlStreamWriter.constructor | norconex-commons-lang/src/main/java/com/norconex/commons/lang/xml/EnhancedXMLStreamWriter.java:94-100 | The writer keeps its settings and starts at depth 0, with `indentEnd` unset and nothing written |
| XmlWriter.EnhancedXmlStreamWriter.DoIndent | norconex-commons-lang/src/main/java/com/norconex/commons/lang/xml/EnhancedXMLStreamWriter.java:102-110 | The fields and the wrapped writer change as `indent()` specifies |
| XmlWriter.EnhancedXmlStreamWriter.WriteStartElement | norconex-commons-lang/src/main/java/com/norconex/commons/lang/xml/EnhancedXMLStreamWriter.java:226-247 | The three `writeStartElement` forms indent, go one level deeper, and forward |
| XmlWriter.EnhancedXmlStreamWriter.WriteIndentedLeaf | norconex-commons-lang/src/main/java/com/norconex/commons/lang/xml/EnhancedXMLStreamWriter.java:249-267 | Empty elements, comments, processing instructions and the DTD indent and forward |
| XmlWriter.EnhancedXmlStreamWriter.WriteEndElement | norconex-commons-lang/src/main/java/com/norconex/commons/lang/xml/EnhancedXMLStreamWriter.java:269-277 | `writeEndElement` goes one level up, indents when `indentEnd` is set, sets it, and forwards |
| XmlWriter.EnhancedXmlStreamWriter.WriteCharacters | norconex-commons-lang/src/main/java/com/norconex/commons/lang/xml/EnhancedXMLStreamWriter.java:376-398 | The text goes through, is skipped when blank, is written on one line, or is split into indented lines, as `Apply` specifies |
| XmlWriter.EnhancedXmlStreamWriter.WriteAttributeNs | norconex-commons-lang/src/main/java/com/norconex/commons/lang/xml/EnhancedXMLStreamWriter.java:306-310 | The three-argument `writeAttribute` as written |
| XmlWriter.EnhancedXmlStreamWriter.Forward | norconex-commons-lang/src/main/java/com/norconex/commons/lang/xml/EnhancedXMLStreamWriter.java:279-419 | The forwarding methods append their call and touch nothing else |
| XmlWriter.EnhancedXmlStreamWriter.WriteAttributeObject | norconex-commons-lang/src/main/java/com/norconex/commons/lang/xml/EnhancedXMLStreamWriter.java:158-178 | `writeAttributeString` and the typed attribute methods, after `toString` |
| XmlWriter.EnhancedXmlStreamWriter.WriteElementObject | norconex-commons-lang/src/main/java/com/norconex/commons/lang/xml/EnhancedXMLStreamWriter.java:200-222 | `writeElementString` and the typed element methods, after `toString` |

## Left out

- `encodeNonURICharacters` and `toURI` (norconex-commons-lang/src/main/java/com/norconex/commons/lang/url/URLNormalizer.java:266-269, norconex-commons-lang/src/main/java/com/norconex/commons/lang/url/URLNormalizer.java:624-629) are not modelled: they delegate to `HttpURL.toURI`, which is not part of this model.
- `replaceIPWithDomainName` (norconex-commons-lang/src/main/java/com/norconex/commons/lang/url/URLNormalizer.java:434-448) is not modelled: it resolves the host through DNS (`InetAddress`).
- The `URLNormalizer(URL)` constructor (norconex-commons-lang/src/main/java/com/norconex/commons/lang/url/URLNormalizer.java:164-166) is not modelled: it only converts a `java.net.URL` object to its string, and the model starts from the string.
- UrlParse.ParseUrl is a simplified `java.net.URL`:
  - only the protocols http, https, ftp and file are accepted;
  - host names are made of ASCII letters, digits, '.', '-' and '_';
  - the user info is taken up to a single '@';
  - the "url:" prefix that `java.net.URL` skips is not stripped, so
    "url:http://h/" does not parse;
  - IPv6 literals, other stream handlers and the `jar:` syntax are not modelled;
  - four slashes after the protocol are read as an empty authority then the path. For "http:////h/x", the model gives host "" and path "//h/x". The UNC rule of `java.net.URL` reads no authority there, so Java gives host "" and path "////h/x".
- UrlParse.ParseAfterProtocol carries the two simplifications above that concern it: four slashes after the protocol, and ports in non-ASCII digits.
- UrlParse.ParseAuthority rejects three kinds of authority that `java.net.URL` accepts. A port with a sign ("+80", "-1") is read by `Integer.parseInt` in Java. With a second '@', the handler gives an empty host and port -1. A port written in non-ASCII decimal digits is also read by `Integer.parseInt`, which takes every Unicode digit: "h:８０" (fullwidth digits) has port 80. The model returns `None` for all three, so `toURL()` is taken to fail on them.
- Normalizer.UrlNormalizer.RemoveDotSegments follows the corrected definitions of "## Findings": single dots outside the path, in the query or the fragment, are kept. A final "/." is resolved ("http://h/a/." gives "http://h/a/"). A path that does not start with '/' is kept ("http:a/../b" stays as it is). When `toURL()` fails, the source has already removed the single dots from the whole text before it throws. The method leaves the text as it was.
- UrlEdits.AddTrailingSlash follows the code rather than the Javadoc on a path part without any '/': the text after the last '/' is then empty, so "http:a.b" gets a slash, although its only segment holds a dot.
- UrlHostPath.AddWwwComposed and the other `...Composed` theorems (`RemoveWwwComposed`, `LowerCaseSchemeHostComposed`, `RemoveDefaultPortComposed`, `RemoveDuplicateSlashesComposed`, `RemoveDirectoryIndexComposed`, `RemoveDotSegmentsComposed`) are stated for URLs written by `Compose`: protocol, host, optional port and path. They do not cover URLs with user info, a query or a fragment, although the functions themselves accept every URL. For `lowerCaseSchemeHost`, a scheme written in upper or mixed case is covered separately by `UrlHostPath.LowerCaseSchemeHostAnyCase`.
- Logging is not modelled (`LOG.debug`, `LOG.info`, `LOG.error`, `LOG.warn`): it has no effect on the state.
- The `UnsupportedEncodingException` branch of `decodeUnreservedCharacters` (norconex-commons-lang/src/main/java/com/norconex/commons/lang/url/URLNormalizer.java:241-244) is not modelled: UTF-8 is always available, and only ASCII escapes reach `URLDecoder`.
- The operating-system detection of `SystemUtils` is not modelled: the operating system is the parameter `os`.
- `Runtime.exec`, `ExecUtil.watchProcess`, `ExecUtil.watchProcessOutput` and the input stream are not modelled (norconex-commons-lang/src/main/java/com/norconex/commons/lang/exec/SystemCommand.java:271-295). What they report comes in as the parameters of `Execute`, and the listeners' callbacks are not modelled.
- Exec.SystemCommand.constructor keeps the tokens as a value. The source stores the caller's array itself (norconex-commons-lang/src/main/java/com/norconex/commons/lang/exec/SystemCommand.java:99), so a later write to that array changes the command in Java. The model's `command` is a sequence and does not see such a write.
- Exec.SystemCommand.Execute is atomic: `abort` from another thread during a foreground wait is not modelled, and neither are the `synchronized` blocks around the listener lists.
- Exec.EnvironmentArray visits the map's keys in some order: the order of `HashMap` iteration is not fixed, so the model allows every order that visits each key once.
- The `execute` overloads (norconex-commons-lang/src/main/java/com/norconex/commons/lang/exec/SystemCommand.java:209-241) only supply defaults (no input, foreground) and are not modelled separately.
- The getters `getCommand`, `getWorkdir` and `getEnvironmentVariables` (norconex-commons-lang/src/main/java/com/norconex/commons/lang/exec/SystemCommand.java:108-166) are not modelled: they return fields, which the model reads directly. The defensive copy of `getCommand` has no counterpart because sequences are values.
- The `Writer`-based constructors of the XML writer and `createXMLOutputFactory` (norconex-commons-lang/src/main/java/com/norconex/commons/lang/xml/EnhancedXMLStreamWriter.java:53-77, norconex-commons-lang/src/main/java/com/norconex/commons/lang/xml/EnhancedXMLStreamWriter.java:112-134) are not modelled: they build the wrapped writer through `XMLOutputFactory` and reflection on Woodstox. The model starts from the wrapped-writer constructor (norconex-commons-lang/src/main/java/com/norconex/commons/lang/xml/EnhancedXMLStreamWriter.java:94-100).
- The typed `writeAttribute...` and `writeElement...` methods (norconex-commons-lang/src/main/java/com/norconex/commons/lang/xml/EnhancedXMLStreamWriter.java:138-169, norconex-commons-lang/src/main/java/com/norconex/commons/lang/xml/EnhancedXMLStreamWriter.java:180-211) are reduced to their `Objects.toString` value, an `Option<string>`: number and class-name formatting is not modelled.
- `getPrefix`, `setNamespaceContext`, `getNamespaceContext` and `getProperty` (norconex-commons-lang/src/main/java/com/norconex/commons/lang/xml/EnhancedXMLStreamWriter.java:406-435) are not modelled: they pass objects to or from the wrapped writer and touch neither `depth` nor `indentEnd`.
- An `XMLStreamException` thrown by the wrapped writer is not modelled: its calls always succeed in the model.

## Findings

Each row names a member that models the code as written, with a lemma that exhibits the difference, and a corrected member. The URL normalizer class `Normalizer.UrlNormalizer` and `CommandLine.GetCleanCommand` use the corrected definitions.

| source | as written | input that shows it | evidently intended | confidence | as-written member | corrected member |
|---|---|---|---|---|---|---|
| norconex-commons-lang/src/main/java/com/norconex/commons/lang/url/URLNormalizer.java:508-514 | `replaceOnce(url, host, "www." + host)` edits the first occurrence of the host text, which can lie inside the protocol | "http://p/" becomes "httwww.p://p/" | "http://www.p/" | not executed; high for hosts that occur in the protocol | UrlHostPath.AddWwwAsWrittenEditsProtocol | UrlHostPath.AddWwwComposed |
| norconex-commons-lang/src/main/java/com/norconex/commons/lang/url/URLNormalizer.java:196-205 | the host is compiled as a case-insensitive pattern and replaced at its first match, which can lie inside the protocol | "http://P/" stays "http://P/" | "http://p/" | not executed; high for hosts that match inside the protocol | UrlHostPath.LowerCaseSchemeHostAsWrittenKeepsHost | UrlHostPath.LowerCaseSchemeHostComposed |
| norconex-commons-lang/src/main/java/com/norconex/commons/lang/url/URLNormalizer.java:486-491 | `replaceOnce(url, path, newPath)` replaces the first occurrence of the path text, which for "//" is the one after the protocol | "http://h//" becomes "http:/h//" | "http://h/" | not executed; high | UrlPortPath.RemoveDuplicateSlashesAsWrittenEditsAuthority | UrlPortPath.CorrectedDoubleSlashPath |
| norconex-commons-lang/src/main/java/com/norconex/commons/lang/url/URLNormalizer.java:409-416 | `replaceOnce(url, path, ...)` replaces the first occurrence of the path text, which can start inside "://" | "http://index.html/index.html" becomes "http:///index.html" | "http://index.html/" | not executed; medium, since the host must spell an index file name | UrlPortPath.RemoveDirectoryIndexAsWrittenEditsAuthority | UrlPortPath.RemoveDirectoryIndexComposed |
| norconex-commons-lang/src/main/java/com/norconex/commons/lang/url/URLNormalizer.java:343 | the single-dot pattern runs over the whole URL text, so it also edits the query and the fragment | "http://h/a?x=/./y" becomes "http://h/a?x=/y" | unchanged, as the Javadoc removes the dot segments "from the URL path" and refers to `URI.normalize`, which leaves the query alone | not executed; high | UrlDotSegments.SingleDotsEditQueryAsWritten | UrlDotSegments.RemoveDotSegmentsKeepsOutsidePath |
| norconex-commons-lang/src/main/java/com/norconex/commons/lang/url/URLNormalizer.java:354-369 | a "/.." with no segment left to swallow stops the loop and is kept | the documented "http://www.example.com/../a/b/../c/./d.html" becomes "http://www.example.com/../a/c/d.html" | "http://www.example.com/a/c/d.html", as the method's Javadoc shows | not executed; high | UrlDotSegments.DocumentedExampleAsWritten | UrlDotSegments.DocumentedExampleResolved |
| norconex-commons-lang/src/main/java/com/norconex/commons/lang/url/URLNormalizer.java:354-369 | a final "/.." is swallowed together with the directory's trailing '/' | "http://h/a/b/.." becomes "http://h/a" | "http://h/a/", as in section 5.2.4 of RFC 3986 and `URI.normalize` | not executed; medium | UrlDotSegments.FinalDoubleDotAsWritten | UrlDotSegments.FinalDoubleDotResolved |
| norconex-commons-lang/src/main/java/com/norconex/commons/lang/url/URLNormalizer.java:354-369 | the loop stops at the first "/.." it cannot pay for and keeps every segment before it | "http://h/a/../.." becomes "http://h/a/..", which still holds a dot segment | "http://h/", as in section 5.2.4 of RFC 3986 | not executed; medium | UrlDotSegments.ExcessDoubleDotAsWritten | UrlDotSegments.RemoveDotsClean |
| norconex-commons-lang/src/main/java/com/norconex/commons/lang/url/URLNormalizer.java:343-369 | the single-dot pattern needs a '/' after the dot, and the loop keeps "/." as an ordinary segment | "http://h/a/." stays "http://h/a/." | "http://h/a/", as in section 5.2.4 of RFC 3986 and `URI.normalize` | not executed; medium | UrlDotSegments.FinalSingleDotAsWritten | UrlDotSegments.FinalSingleDotResolved |
| norconex-commons-lang/src/main/java/com/norconex/commons/lang/url/URLNormalizer.java:347-370 | a path that does not start with '/' is split and rebuilt like any other, with the first name swallowed by a following "/.." | "http:a/../b" becomes "http:/b" | "http:a/../b" unchanged, as `URI.normalize`, to which the Javadoc refers, leaves an opaque URI alone | not executed; medium | UrlDotSegments.RelativePathAsWritten | UrlDotSegments.RelativePathKept |
| norconex-commons-lang/src/main/java/com/norconex/commons/lang/url/URLNormalizer.java:319-325 | the text after the last '/' never ends with '/', so a URL that already ends with '/' gets another | "http://h/a/" becomes "http://h/a//" | unchanged, as the Javadoc says the slash is added only to a URL ending with a directory name | not executed; high | UrlEdits.AddTrailingSlashAsWrittenDoubles | UrlEdits.AddTrailingSlashKeepsSlash |
| norconex-commons-lang/src/main/java/com/norconex/commons/lang/url/URLNormalizer.java:319-325 | the last segment is read to the end of the URL, past '?' and '#', and the slash is appended after the query | "http://h/alice?x" becomes "http://h/alice?x/" | "http://h/alice/?x", as the Javadoc reads the last segment "before fragment (#) or query string (?)" | not executed; high | UrlEdits.AddTrailingSlashAsWrittenAfterQuery | UrlEdits.AddTrailingSlashAppends |
| norconex-commons-lang/src/main/java/com/norconex/commons/lang/exec/SystemCommand.java:344-356 | the guard `cmd.size() > i` stops the loop once as many tokens remain as were removed | on Windows NT, ["cmd.exe", "/C"] keeps "/C", so the prepared command is ["cmd.exe", "/C", "\"/C\""] | both prefixes removed, then "No command specified." | not executed; high | CommandLine.BarePrefixAsWritten | CommandLine.StripPrefixesOfPrefixed |
