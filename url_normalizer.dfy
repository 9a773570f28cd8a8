/**
 * The `URLNormalizer` builder: one mutable `url` string that every
 * normalization reassigns. Each method is proved against the function that
 * specifies its text transform; the properties of the transforms are proved
 * in the modules that define them.
 *
 * The methods that read the URL through `toURL()` dereference its result,
 * so on a URL that does not parse they throw a `NullPointerException`: they
 * return `thrown` and leave `url` as it was.
 */
module Normalizer {
  import opened Wrappers
  import opened JavaStrings
  import UrlParse
  import UrlEdits
  import UrlQuery
  import UrlSession
  import UrlEscapes
  import UrlHostPath
  import UrlPortPath
  import UrlDotSegments

  /** Why the constructor throws. */
  datatype CreateError =
    | BlankUrl     // IllegalArgumentException: "URL argument cannot be null."
    | InvalidUrl   // URLException: "Invalid URL: ..."

  /** The URL text left by an operation that may throw: unchanged when it does. */
  function Outcome(before: string, r: Option<string>): string {
    match r
    case None => before
    case Some(after) => after
  }

  class UrlNormalizer {
    /** The URL being normalized. */
    var url: string

    /** The constructor once its checks have passed: it keeps the trimmed text. */
    constructor (s: string)
      requires !IsBlank(s) && UrlParse.ToUrl(Trim(s)).Some?
      ensures url == Trim(s)
    {
      url := Trim(s);
    }

    /** `toString`. */
    function ToString(): string
      reads this
    {
      url
    }

    /** `toURL`: `null` for a blank or unparsable URL. */
    function ToUrl(): Option<UrlParse.Url>
      reads this
    {
      UrlParse.ToUrl(url)
    }

    method LowerCaseSchemeHost() returns (thrown: bool)
      modifies this
      ensures thrown <==> UrlParse.ToUrl(old(url)).None?
      ensures url == Outcome(old(url), UrlHostPath.LowerCaseSchemeHost(old(url)))
    {
      var r := UrlHostPath.LowerCaseSchemeHost(url);
      thrown := r.None?;
      url := Outcome(url, r);
    }

    method UpperCaseEscapeSequence()
      modifies this
      ensures url == UrlEscapes.UpperCaseEscapes(old(url))
    {
      url := UrlEscapes.UpperCaseEscapeSequence(url);
    }

    method DecodeUnreservedCharacters()
      modifies this
      ensures url == UrlEscapes.DecodeUnreserved(old(url))
    {
      url := UrlEscapes.DecodeUnreservedCharacters(url);
    }

    method EncodeSpaces()
      modifies this
      ensures url == UrlEscapes.EncodeSpaces(old(url))
    {
      url := UrlEscapes.EncodeSpaces(url);
    }

    method RemoveDefaultPort() returns (thrown: bool)
      modifies this
      ensures thrown <==> UrlParse.ToUrl(old(url)).None?
      ensures url == Outcome(old(url), UrlPortPath.RemoveDefaultPort(old(url)))
    {
      var r := UrlPortPath.RemoveDefaultPort(url);
      thrown := r.None?;
      url := Outcome(url, r);
    }

    method AddTrailingSlash()
      modifies this
      ensures url == UrlEdits.AddTrailingSlash(old(url))
    {
      url := UrlEdits.AddTrailingSlash(url);
    }

    method RemoveDotSegments() returns (thrown: bool)
      modifies this
      ensures thrown <==> UrlParse.ToUrl(old(url)).None?
      ensures url == Outcome(old(url), UrlDotSegments.RemoveDotSegments(old(url)))
    {
      var r := UrlDotSegments.RemoveDotSegments(url);
      thrown := r.None?;
      url := Outcome(url, r);
    }

    method RemoveDirectoryIndex() returns (thrown: bool)
      modifies this
      ensures thrown <==> UrlParse.ToUrl(old(url)).None?
      ensures url == Outcome(old(url), UrlPortPath.RemoveDirectoryIndex(old(url)))
    {
      var r := UrlPortPath.RemoveDirectoryIndex(url);
      thrown := r.None?;
      url := Outcome(url, r);
    }

    method RemoveFragment()
      modifies this
      ensures url == UrlEdits.RemoveFragment(old(url))
    {
      url := UrlEdits.RemoveFragment(url);
    }

    method UnsecureScheme()
      modifies this
      ensures url == UrlEdits.UnsecureScheme(old(url))
    {
      url := UrlEdits.UnsecureScheme(url);
    }

    method SecureScheme()
      modifies this
      ensures url == UrlEdits.SecureScheme(old(url))
    {
      url := UrlEdits.SecureScheme(url);
    }

    method RemoveDuplicateSlashes() returns (thrown: bool)
      modifies this
      ensures thrown <==> UrlParse.ToUrl(old(url)).None?
      ensures url == Outcome(old(url), UrlPortPath.RemoveDuplicateSlashes(old(url)))
    {
      var r := UrlPortPath.RemoveDuplicateSlashes(url);
      thrown := r.None?;
      url := Outcome(url, r);
    }

    method RemoveWww() returns (thrown: bool)
      modifies this
      ensures thrown <==> UrlParse.ToUrl(old(url)).None?
      ensures url == Outcome(old(url), UrlHostPath.RemoveWww(old(url)))
    {
      var r := UrlHostPath.RemoveWww(url);
      thrown := r.None?;
      url := Outcome(url, r);
    }

    method AddWww() returns (thrown: bool)
      modifies this
      ensures thrown <==> UrlParse.ToUrl(old(url)).None?
      ensures url == Outcome(old(url), UrlHostPath.AddWww(old(url)))
    {
      var r := UrlHostPath.AddWww(url);
      thrown := r.None?;
      url := Outcome(url, r);
    }

    /** `sortQueryParameters`, filling the bag with the parameter loop. */
    method SortQueryParameters()
      modifies this
      ensures url == UrlQuery.SortQueryParameters(old(url))
    {
      if !Contains(url, "?") {
        return;
      }
      var sorted := UrlQuery.SortParameters(UrlQuery.Params(url));
      var query := Join(sorted, "&");
      if !IsBlank(query) {
        url := UrlQuery.WithQuery(url, query);
      }
    }

    /** `removeEmptyParameters`, keeping the filled parameters with the parameter loop. */
    method RemoveEmptyParameters()
      modifies this
      ensures url == UrlQuery.RemoveEmptyParameters(old(url))
    {
      if !Contains(url, "?") {
        return;
      }
      var kept := UrlQuery.FilterParameters(UrlQuery.Params(url));
      var query := Join(kept, "&");
      if !IsBlank(query) {
        url := UrlQuery.WithQuery(url, query);
      }
    }

    method RemoveTrailingQuestionMark()
      modifies this
      ensures url == UrlEdits.RemoveTrailingQuestionMark(old(url))
    {
      url := UrlEdits.RemoveTrailingQuestionMark(url);
    }

    method RemoveSessionIds()
      modifies this
      ensures url == UrlSession.RemoveSessionIds(old(url))
    {
      url := UrlSession.RemoveSessionIds(url);
    }
  }

  /**
   * `new URLNormalizer(String)`: a blank argument and an argument that does
   * not parse once trimmed are rejected; otherwise the normalizer holds the
   * trimmed text.
   */
  method Create(s: string) returns (r: Result<UrlNormalizer, CreateError>)
    ensures IsBlank(s) <==> r == Err(BlankUrl)
    ensures !IsBlank(s) && UrlParse.ToUrl(Trim(s)).None? <==> r == Err(InvalidUrl)
    ensures r.Ok? ==> fresh(r.value) && r.value.url == Trim(s) && r.value.ToUrl().Some?
  {
    if IsBlank(s) {
      return Err(BlankUrl);
    }
    if UrlParse.ToUrl(Trim(s)).None? {
      return Err(InvalidUrl);
    }
    var n := new UrlNormalizer(s);
    return Ok(n);
  }
}
