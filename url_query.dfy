/**
 * The `URLNormalizer` operations on the query string: `sortQueryParameters`
 * and `removeEmptyParameters`. Both split the text after the first '?' on
 * '&' (dropping empty tokens), rework the list of parameters, and write it
 * back only when the joined result is not blank.
 */
module UrlQuery {
  import opened JavaStrings

  /** `StringUtils.split(substringAfter(url, "?"), '&')`. */
  function Params(url: string): (ps: seq<string>)
    ensures forall k :: 0 <= k < |ps| ==> |ps[k]| > 0 && '&' !in ps[k]
  {
    SplitTokens(SubstringAfter(url, "?"), '&')
  }

  /** Every element is a parameter token as `split` produces them. */
  predicate AreTokens(ps: seq<string>) {
    forall k :: 0 <= k < |ps| ==> |ps[k]| > 0 && '&' !in ps[k]
  }

  /** `substringBefore(url, "?") + "?" + query`. */
  function WithQuery(url: string, query: string): string {
    SubstringBefore(url, "?") + "?" + query
  }

  // ---------------------------------------------------------------------
  // Splitting and joining parameters
  // ---------------------------------------------------------------------

  /** Splitting a joined list of tokens gives the list back. */
  lemma {:induction false} SplitJoin(ps: seq<string>)
    requires AreTokens(ps)
    ensures SplitTokens(Join(ps, "&"), '&') == ps
  {
    if |ps| == 1 {
      SplitOneToken(ps[0], []);
      assert ps[0] + [] == ps[0] && ps == [ps[0]];
    } else if |ps| > 1 {
      var rest := Join(ps[1..], "&");
      SplitJoin(ps[1..]);
      SplitOneToken(ps[0], "&" + rest);
      assert ("&" + rest)[1..] == rest;
      assert Join(ps, "&") == ps[0] + ("&" + rest);
    }
  }

  /** A token followed by nothing or by a separator splits off as the first token. */
  lemma SplitOneToken(t: string, rest: string)
    requires |t| > 0 && '&' !in t && (rest == [] || rest[0] == '&')
    ensures SplitTokens(t + rest, '&') == [t] + SplitTokens(rest, '&')
  {
    var s := t + rest;
    TakeUntilSplit(t, rest, '&');
    assert s[0] == t[0];
    assert s[|t|..] == rest;
  }

  /** Java's '?' search finds the '?' that `WithQuery` inserts. */
  lemma ParamsWithQuery(url: string, query: string)
    ensures SubstringAfter(WithQuery(url, query), "?") == query
    ensures SubstringBefore(WithQuery(url, query), "?") == SubstringBefore(url, "?")
  {
    var b := SubstringBefore(url, "?");
    var w := WithQuery(url, query);
    assert '?' !in b by {
      var i := IndexOf(url, "?");
      if i != -1 {
        forall j | 0 <= j < i ensures url[j] != '?' {
          assert !OccursAt(url, "?", j);
        }
      } else {
        forall j | 0 <= j < |url| ensures url[j] != '?' {
          assert !OccursAt(url, "?", j);
        }
      }
    }
    assert OccursAt(w, "?", |b|) by {
      assert w[|b|..|b| + 1] == "?";
    }
    forall j | 0 <= j < |b| ensures !OccursAt(w, "?", j) {
      assert w[j] == b[j];
      NotOccursAt(w, "?", j);
    }
    assert w[..|b|] == b;
    assert w[|b| + 1..] == query;
  }

  /** Writing a query into a URL that already went through `WithQuery` replaces it. */
  lemma WithQueryAgain(url: string, query: string, query': string)
    ensures Contains(WithQuery(url, query), "?")
    ensures WithQuery(WithQuery(url, query), query') == WithQuery(url, query')
  {
    var w := WithQuery(url, query);
    var b := SubstringBefore(url, "?");
    ParamsWithQuery(url, query);
    assert OccursAt(w, "?", |b|) by {
      assert w[|b|..|b| + 1] == "?";
    }
  }

  // ---------------------------------------------------------------------
  // sortQueryParameters
  // ---------------------------------------------------------------------

  /** In `String.compareTo` order. */
  predicate IsSorted(ps: seq<string>) {
    forall i, j :: 0 <= i < j < |ps| ==> LessOrEqual(ps[i], ps[j])
  }

  /** Inserting one parameter into a sorted bag. */
  function InsertSorted(x: string, ps: seq<string>): (r: seq<string>)
    ensures |r| == |ps| + 1
  {
    if ps == [] || LessOrEqual(x, ps[0]) then [x] + ps else [ps[0]] + InsertSorted(x, ps[1..])
  }

  /** A `TreeBag` after adding every parameter of `ps` in order, read back in order. */
  function SortAll(ps: seq<string>): (r: seq<string>)
    ensures |r| == |ps|
  {
    if ps == [] then [] else InsertSorted(ps[|ps| - 1], SortAll(ps[..|ps| - 1]))
  }

  lemma {:induction false} InsertSortedIsSorted(x: string, ps: seq<string>)
    requires IsSorted(ps)
    ensures IsSorted(InsertSorted(x, ps))
    ensures multiset(InsertSorted(x, ps)) == multiset(ps) + multiset{x}
  {
    InsertSortedPermutes(x, ps);
    if ps != [] && !LessOrEqual(x, ps[0]) {
      InsertSortedIsSorted(x, ps[1..]);
      InsertAfterHead(x, ps);
    } else if ps != [] {
      InsertAtHead(x, ps);
    }
  }

  lemma {:induction false} InsertSortedPermutes(x: string, ps: seq<string>)
    ensures multiset(InsertSorted(x, ps)) == multiset(ps) + multiset{x}
  {
    if ps != [] && !LessOrEqual(x, ps[0]) {
      InsertSortedPermutes(x, ps[1..]);
      assert ps == [ps[0]] + ps[1..];
    }
  }

  /** The step that keeps the head: `x` goes somewhere after it. */
  lemma InsertAfterHead(x: string, ps: seq<string>)
    requires IsSorted(ps) && ps != [] && !LessOrEqual(x, ps[0])
    requires IsSorted(InsertSorted(x, ps[1..]))
    requires multiset(InsertSorted(x, ps[1..])) == multiset(ps[1..]) + multiset{x}
    ensures IsSorted(InsertSorted(x, ps))
  {
    var r := InsertSorted(x, ps);
    var t := InsertSorted(x, ps[1..]);
    assert r == [ps[0]] + t;
    CompareToTotal(x, ps[0]);
    forall j | 0 <= j < |t| ensures LessOrEqual(ps[0], t[j]) {
      assert t[j] in multiset(t);
      if t[j] != x {
        assert t[j] in multiset(ps[1..]);
        var k :| 0 <= k < |ps[1..]| && ps[1..][k] == t[j];
        assert ps[k + 1] == t[j];
      }
    }
  }

  /** The step that puts `x` first. */
  lemma InsertAtHead(x: string, ps: seq<string>)
    requires IsSorted(ps) && ps != [] && LessOrEqual(x, ps[0])
    ensures IsSorted(InsertSorted(x, ps))
  {
    var r := InsertSorted(x, ps);
    forall i, j | 0 <= i < j < |r| ensures LessOrEqual(r[i], r[j]) {
      if i == 0 {
        assert r[j] == ps[j - 1];
        if j - 1 > 0 {
          assert LessOrEqual(ps[0], ps[j - 1]);
        } else {
          CompareToZero(ps[0], ps[0]);
        }
        CompareToTransitive(x, ps[0], ps[j - 1]);
      } else {
        assert r[i] == ps[i - 1] && r[j] == ps[j - 1];
      }
    }
  }

  /** The bag reads back sorted and with exactly the parameters added. */
  lemma {:induction false} SortAllSortsAndPermutes(ps: seq<string>)
    ensures IsSorted(SortAll(ps))
    ensures multiset(SortAll(ps)) == multiset(ps)
  {
    if ps != [] {
      var init := ps[..|ps| - 1];
      SortAllSortsAndPermutes(init);
      InsertSortedIsSorted(ps[|ps| - 1], SortAll(init));
      assert ps == init + [ps[|ps| - 1]];
    }
  }

  /** Two sorted lists of the same parameters are the same list. */
  lemma {:induction false} SortedUnique(a: seq<string>, b: seq<string>)
    requires IsSorted(a) && IsSorted(b) && multiset(a) == multiset(b)
    ensures a == b
  {
    if a != [] {
      assert |b| == |a| by {
        assert |multiset(a)| == |a| && |multiset(b)| == |b|;
      }
      SortedSameFirst(a, b);
      SameTails(a, b);
      SortedUnique(a[1..], b[1..]);
      assert a == [a[0]] + a[1..] && b == [b[0]] + b[1..];
    }
  }

  /** Two sorted lists of the same parameters start with the same one. */
  lemma SortedSameFirst(a: seq<string>, b: seq<string>)
    requires a != [] && b != []
    requires IsSorted(a) && IsSorted(b) && multiset(a) == multiset(b)
    ensures a[0] == b[0]
  {
    assert a[0] in multiset(b);
    var j :| 0 <= j < |b| && b[j] == a[0];
    assert b[0] in multiset(a);
    var i :| 0 <= i < |a| && a[i] == b[0];
    CompareToZero(a[0], a[0]);
    assert LessOrEqual(a[0], b[0]) by {
      if i > 0 {
        assert LessOrEqual(a[0], a[i]);
      }
    }
    assert LessOrEqual(b[0], a[0]) by {
      if j > 0 {
        assert LessOrEqual(b[0], b[j]);
      }
    }
    CompareToAntisymmetric(a[0], b[0]);
    CompareToZero(a[0], b[0]);
  }

  /** Lists with the same first element and the same elements have tails with the same elements. */
  lemma SameTails(a: seq<string>, b: seq<string>)
    requires a != [] && b != [] && a[0] == b[0] && multiset(a) == multiset(b)
    ensures multiset(a[1..]) == multiset(b[1..])
  {
    assert a == [a[0]] + a[1..] && b == [b[0]] + b[1..];
    assert multiset(a) == multiset{a[0]} + multiset(a[1..]);
    assert multiset(b) == multiset{a[0]} + multiset(b[1..]);
    forall x ensures multiset(a[1..])[x] == multiset(b[1..])[x] {
      assert multiset(a)[x] == multiset{a[0]}[x] + multiset(a[1..])[x];
      assert multiset(b)[x] == multiset{a[0]}[x] + multiset(b[1..])[x];
    }
  }

  /** Sorting a sorted list changes nothing. */
  lemma SortAllOfSorted(ps: seq<string>)
    requires IsSorted(ps)
    ensures SortAll(ps) == ps
  {
    SortAllSortsAndPermutes(ps);
    SortedUnique(SortAll(ps), ps);
  }

  /**
   * The parameters read back from a `TreeBag`: the loop of
   * `sortQueryParameters` adds each parameter in turn.
   */
  method SortParameters(params: seq<string>) returns (sorted: seq<string>)
    ensures IsSorted(sorted) && multiset(sorted) == multiset(params)
    ensures sorted == SortAll(params)
  {
    sorted := [];
    var i := 0;
    while i < |params|
      invariant 0 <= i <= |params|
      invariant sorted == SortAll(params[..i])
    {
      assert params[..i + 1][..i] == params[..i];
      sorted := Insert(params[i], sorted);
      i := i + 1;
    }
    assert params[..i] == params;
    SortAllSortsAndPermutes(params);
  }

  /** `TreeBag.add`: the new parameter goes before the first one not smaller than it. */
  method Insert(x: string, bag: seq<string>) returns (r: seq<string>)
    ensures r == InsertSorted(x, bag)
  {
    var k := 0;
    while k < |bag| && !LessOrEqual(x, bag[k])
      invariant 0 <= k <= |bag|
      invariant InsertSorted(x, bag) == bag[..k] + InsertSorted(x, bag[k..])
    {
      assert bag[k..] == [bag[k]] + bag[k + 1..];
      assert bag[..k + 1] == bag[..k] + [bag[k]];
      k := k + 1;
    }
    r := bag[..k] + [x] + bag[k..];
  }

  /** `sortQueryParameters` on the URL text. */
  function SortQueryParameters(url: string): string {
    if !Contains(url, "?") then url
    else
      var sorted := Join(SortAll(Params(url)), "&");
      if IsBlank(sorted) then url else WithQuery(url, sorted)
  }

  lemma SortAllTokens(ps: seq<string>)
    requires AreTokens(ps)
    ensures AreTokens(SortAll(ps))
  {
    SortAllSortsAndPermutes(ps);
    var r := SortAll(ps);
    forall k | 0 <= k < |r| ensures |r[k]| > 0 && '&' !in r[k] {
      assert r[k] in multiset(ps);
    }
  }

  /** After sorting, the URL's parameters are the old ones, sorted. */
  lemma SortQueryParametersSorts(url: string)
    requires Contains(url, "?") && !IsBlank(Join(SortAll(Params(url)), "&"))
    ensures Params(SortQueryParameters(url)) == SortAll(Params(url))
    ensures IsSorted(Params(SortQueryParameters(url)))
    ensures multiset(Params(SortQueryParameters(url))) == multiset(Params(url))
    ensures SubstringBefore(SortQueryParameters(url), "?") == SubstringBefore(url, "?")
  {
    var sorted := SortAll(Params(url));
    SortAllTokens(Params(url));
    SplitJoin(sorted);
    ParamsWithQuery(url, Join(sorted, "&"));
    SortAllSortsAndPermutes(Params(url));
  }

  /** Sorting the query parameters twice is the same as once. */
  lemma SortQueryParametersIdempotent(url: string)
    ensures SortQueryParameters(SortQueryParameters(url)) == SortQueryParameters(url)
  {
    var r := SortQueryParameters(url);
    if Contains(url, "?") && !IsBlank(Join(SortAll(Params(url)), "&")) {
      var q := Join(SortAll(Params(url)), "&");
      SortQueryParametersSorts(url);
      SortAllOfSorted(Params(r));
      WithQueryAgain(url, q, q);
    }
  }

  /**
   * The code's order for the documented example: `String.compareTo` puts
   * "z=aa" before "z=bb", where the documentation shows them the other way.
   */
  lemma SortExample()
    ensures SortAll(["z=bb", "y=cc", "z=aa"]) == ["y=cc", "z=aa", "z=bb"]
    ensures SortAll(["z=bb", "y=cc", "z=aa"]) != ["y=cc", "z=bb", "z=aa"]
  {
    var ps := ["z=bb", "y=cc", "z=aa"];
    assert LessOrEqual("y=cc", "z=bb");
    assert !LessOrEqual("z=aa", "y=cc");
    assert LessOrEqual("z=aa", "z=bb") by {
      assert "z=aa"[1..] == "=aa" && "z=bb"[1..] == "=bb";
      assert "=aa"[1..] == "aa" && "=bb"[1..] == "bb";
    }
    assert ps[..2][..1] == ["z=bb"] && ps[..2] == ["z=bb", "y=cc"];
    assert SortAll(["z=bb"]) == ["z=bb"];
    assert SortAll(ps[..2]) == ["y=cc", "z=bb"];
    assert InsertSorted("z=aa", ["z=bb"]) == ["z=aa", "z=bb"];
    assert InsertSorted("z=aa", ["y=cc", "z=bb"]) == ["y=cc", "z=aa", "z=bb"];
    assert "z=aa" != "z=bb";
  }

  // ---------------------------------------------------------------------
  // removeEmptyParameters
  // ---------------------------------------------------------------------

  /** A parameter with a non-blank name and a non-blank value. */
  predicate IsFilled(param: string) {
    Contains(param, "=")
    && !IsBlank(SubstringAfter(param, "="))
    && !IsBlank(SubstringBefore(param, "="))
  }

  /** The parameters the loop of `removeEmptyParameters` keeps, in order. */
  function KeepFilled(ps: seq<string>): (r: seq<string>)
    ensures |r| <= |ps|
    ensures forall k :: 0 <= k < |r| ==> IsFilled(r[k]) && r[k] in ps
  {
    if ps == [] then []
    else
      var init := KeepFilled(ps[..|ps| - 1]);
      if IsFilled(ps[|ps| - 1]) then init + [ps[|ps| - 1]] else init
  }

  /** Every filled parameter is kept, as often as it occurs. */
  lemma {:induction false} KeepFilledKeepsFilled(ps: seq<string>, x: string)
    requires IsFilled(x)
    ensures multiset(KeepFilled(ps))[x] == multiset(ps)[x]
  {
    if ps != [] {
      var init, last := ps[..|ps| - 1], ps[|ps| - 1];
      KeepFilledKeepsFilled(init, x);
      assert ps == init + [last];
      assert multiset(ps) == multiset(init) + multiset{last};
      if IsFilled(last) {
        assert KeepFilled(ps) == KeepFilled(init) + [last];
        assert multiset(KeepFilled(ps)) == multiset(KeepFilled(init)) + multiset{last};
      } else {
        assert KeepFilled(ps) == KeepFilled(init);
        assert last != x;
      }
    }
  }

  /** A list of filled parameters is kept whole. */
  lemma {:induction false} KeepFilledOfFilled(ps: seq<string>)
    requires forall k :: 0 <= k < |ps| ==> IsFilled(ps[k])
    ensures KeepFilled(ps) == ps
  {
    if ps != [] {
      KeepFilledOfFilled(ps[..|ps| - 1]);
      assert ps == ps[..|ps| - 1] + [ps[|ps| - 1]];
    }
  }

  /** The loop of `removeEmptyParameters`. */
  method FilterParameters(params: seq<string>) returns (kept: seq<string>)
    ensures kept == KeepFilled(params)
    ensures forall k :: 0 <= k < |kept| ==> IsFilled(kept[k])
    ensures forall x :: IsFilled(x) ==> multiset(kept)[x] == multiset(params)[x]
  {
    kept := [];
    var i := 0;
    while i < |params|
      invariant 0 <= i <= |params|
      invariant kept == KeepFilled(params[..i])
    {
      assert params[..i + 1][..i] == params[..i];
      if IsFilled(params[i]) {
        kept := kept + [params[i]];
      }
      i := i + 1;
    }
    assert params[..i] == params;
    forall x | IsFilled(x) ensures multiset(kept)[x] == multiset(params)[x] {
      KeepFilledKeepsFilled(params, x);
    }
  }

  /** `removeEmptyParameters` on the URL text. */
  function RemoveEmptyParameters(url: string): string {
    if !Contains(url, "?") then url
    else
      var clean := Join(KeepFilled(Params(url)), "&");
      if IsBlank(clean) then url else WithQuery(url, clean)
  }

  lemma KeepFilledTokens(ps: seq<string>)
    requires AreTokens(ps)
    ensures AreTokens(KeepFilled(ps))
  {
    var r := KeepFilled(ps);
    forall k | 0 <= k < |r| ensures |r[k]| > 0 && '&' !in r[k] {
      var j :| 0 <= j < |ps| && ps[j] == r[k];
    }
  }

  /** After the removal, the URL's parameters are exactly the filled ones, in order. */
  lemma RemoveEmptyParametersKeepsFilled(url: string)
    requires Contains(url, "?") && !IsBlank(Join(KeepFilled(Params(url)), "&"))
    ensures Params(RemoveEmptyParameters(url)) == KeepFilled(Params(url))
    ensures SubstringBefore(RemoveEmptyParameters(url), "?") == SubstringBefore(url, "?")
  {
    KeepFilledTokens(Params(url));
    SplitJoin(KeepFilled(Params(url)));
    ParamsWithQuery(url, Join(KeepFilled(Params(url)), "&"));
  }

  /** Removing empty parameters twice is the same as once. */
  lemma RemoveEmptyParametersIdempotent(url: string)
    ensures RemoveEmptyParameters(RemoveEmptyParameters(url)) == RemoveEmptyParameters(url)
  {
    var r := RemoveEmptyParameters(url);
    if Contains(url, "?") && !IsBlank(Join(KeepFilled(Params(url)), "&")) {
      var q := Join(KeepFilled(Params(url)), "&");
      RemoveEmptyParametersKeepsFilled(url);
      KeepFilledOfFilled(Params(r));
      WithQueryAgain(url, q, q);
    }
  }

  /** A list without filled parameters keeps none. */
  lemma {:induction false} KeepFilledOfEmpty(ps: seq<string>)
    requires forall k :: 0 <= k < |ps| ==> !IsFilled(ps[k])
    ensures KeepFilled(ps) == []
  {
    if ps != [] {
      KeepFilledOfEmpty(ps[..|ps| - 1]);
    }
  }

  /** When every parameter is empty the joined result is blank and the URL is left as it is. */
  lemma RemoveEmptyParametersAllEmpty(url: string)
    requires forall k :: 0 <= k < |Params(url)| ==> !IsFilled(Params(url)[k])
    ensures RemoveEmptyParameters(url) == url
  {
    KeepFilledOfEmpty(Params(url));
  }
}
