/**
 * Canonicalisation of Amazon product URLs (`get_clean_amazon_url`).
 *
 * The script runs `re.search` with the pattern
 * `https://www\.amazon\.in/.*?/dp/[A-Z0-9]{10}` and returns the whole match.
 * `MatchAt` states when the pattern matches, `IsSearchResult` which match
 * `re.search` picks (leftmost start, then the shortest lazy middle), and
 * `CleanAmazonUrl` is an executable scanner proved to return exactly that match.
 */
module AmazonUrl {
  import opened Wrappers
  import opened Strings

  /** The literal scheme, host and first slash of the pattern. */
  const Host: string := "https://www.amazon.in/"

  /** The literal that introduces the product identifier. */
  const DpMarker: string := "/dp/"

  /** An ASIN is exactly ten characters. */
  const AsinLength: nat := 10

  /** The character class `[A-Z0-9]`. */
  predicate IsAsinChar(c: char) {
    ('A' <= c <= 'Z') || ('0' <= c <= '9')
  }

  /** Ten ASIN characters start at index `p`. */
  predicate AsinAt(s: string, p: nat) {
    p + AsinLength <= |s| && forall k :: p <= k < p + AsinLength ==> IsAsinChar(s[k])
  }

  /** Where a match whose `/dp/` starts at `j` ends. */
  function MatchEnd(j: nat): nat {
    j + |DpMarker| + AsinLength
  }

  /**
   * The pattern matches `s[i..MatchEnd(j)]` with the lazy `.*?` covering
   * `s[i + |Host|..j]`; `.` matches anything but a newline.
   */
  predicate MatchAt(s: string, i: nat, j: nat) {
    && i + |Host| <= j
    && MatchEnd(j) <= |s|
    && StartsAt(s, i, Host)
    && (forall k :: i + |Host| <= k < j ==> s[k] != '\n')
    && StartsAt(s, j, DpMarker)
    && AsinAt(s, j + |DpMarker|)
  }

  /**
   * The match `re.search` reports: no match starts further left, and at
   * its start no shorter middle completes the pattern.
   */
  ghost predicate IsSearchResult(s: string, i: nat, j: nat) {
    && MatchAt(s, i, j)
    && (forall i': nat, j': nat :: i' < i ==> !MatchAt(s, i', j'))
    && (forall j': nat :: j' < j ==> !MatchAt(s, i, j'))
  }

  /**
   * The lazy `.*?` at start `i`, having already stepped over `s[i + |Host|..j]`:
   * the least `j' >= j` at which `/dp/` and the ASIN follow.
   */
  function LazyEnd(s: string, i: nat, j: nat): (r: Option<nat>)
    requires StartsAt(s, i, Host) && i + |Host| <= j <= |s|
    requires forall k :: i + |Host| <= k < j ==> s[k] != '\n'
    ensures r.Some? ==> j <= r.value && MatchAt(s, i, r.value)
    ensures r.Some? ==> forall j': nat :: j <= j' < r.value ==> !MatchAt(s, i, j')
    ensures r.None? ==> forall j': nat :: j <= j' ==> !MatchAt(s, i, j')
    decreases |s| - j
  {
    if MatchEnd(j) > |s| then None
    else if StartsAt(s, j, DpMarker) && AsinAt(s, j + |DpMarker|) then Some(j)
    else if assert j < |s|; s[j] == '\n' then None
    else LazyEnd(s, i, j + 1)
  }

  /** Tries the pattern at every start from `i` on, leftmost first. */
  function SearchFrom(s: string, i: nat): (r: Option<(nat, nat)>)
    ensures r.Some? ==> i <= r.value.0 && MatchAt(s, r.value.0, r.value.1)
    ensures r.Some? ==> forall i': nat, j': nat :: i <= i' < r.value.0 ==> !MatchAt(s, i', j')
    ensures r.Some? ==> forall j': nat :: j' < r.value.1 ==> !MatchAt(s, r.value.0, j')
    ensures r.None? ==> forall i': nat, j': nat :: i <= i' ==> !MatchAt(s, i', j')
    decreases |s| - i
  {
    if i + |Host| + |DpMarker| + AsinLength > |s| then None
    else if StartsAt(s, i, Host) then
      match LazyEnd(s, i, i + |Host|)
      case Some(j) => Some((i, j))
      case None => SearchFrom(s, i + 1)
    else SearchFrom(s, i + 1)
  }

  /** The URL ends with `/dp/` and a ten-character ASIN. */
  predicate EndsWithAsin(u: string) {
    |u| >= |DpMarker| + AsinLength
    && StartsAt(u, |u| - |DpMarker| - AsinLength, DpMarker)
    && AsinAt(u, |u| - AsinLength)
  }

  /**
   * `get_clean_amazon_url`: the text `re.search` matches, or None when the
   * pattern occurs nowhere in `url`.
   */
  function CleanAmazonUrl(url: string): (r: Option<string>)
    ensures r.Some? <==> exists i: nat, j: nat :: MatchAt(url, i, j)
    ensures r.Some? ==> exists i: nat, j: nat :: IsSearchResult(url, i, j) && r.value == url[i..MatchEnd(j)]
    ensures r.Some? ==> Contains(url, r.value) && StartsAt(r.value, 0, Host) && EndsWithAsin(r.value)
  {
    match SearchFrom(url, 0)
    case None => None
    case Some((i, j)) =>
      MatchedTextShape(url, i, j);
      Some(url[i..MatchEnd(j)])
  }

  /** The text of a match starts with the host and ends with `/dp/` and an ASIN. */
  lemma MatchedTextShape(url: string, i: nat, j: nat)
    requires MatchAt(url, i, j)
    ensures var u := url[i..MatchEnd(j)];
      Contains(url, u) && StartsAt(u, 0, Host) && EndsWithAsin(u)
  {
    var u := url[i..MatchEnd(j)];
    assert StartsAt(url, i, u);
    StartsAtSlice(url, i, MatchEnd(j), i, Host);
    StartsAtSlice(url, i, MatchEnd(j), j, DpMarker);
    assert |u| - |DpMarker| - AsinLength == j - i;
    forall k | |u| - AsinLength <= k < |u|
      ensures IsAsinChar(u[k])
    {
      assert u[k] == url[k + i];
    }
  }

  /** Only one pair of positions is the search result. */
  lemma SearchResultUnique(s: string, i: nat, j: nat, i': nat, j': nat)
    requires IsSearchResult(s, i, j) && IsSearchResult(s, i', j')
    ensures i == i' && j == j'
  {
  }

  /** The scanner agrees with the declarative description of `re.search`. */
  lemma CleanIsSearchResult(url: string, i: nat, j: nat)
    requires IsSearchResult(url, i, j)
    ensures CleanAmazonUrl(url) == Some(url[i..MatchEnd(j)])
  {
    var r := CleanAmazonUrl(url);
    assert r.Some?;
    var i': nat, j': nat :| IsSearchResult(url, i', j') && r.value == url[i'..MatchEnd(j')];
    SearchResultUnique(url, i, j, i', j');
  }

  /** A match inside a slice of `s` is a match in `s`, and conversely. */
  lemma MatchAtSlice(s: string, a: nat, b: nat, i: nat, j: nat)
    requires a <= i <= j && MatchEnd(j) <= b <= |s|
    ensures MatchAt(s[a..b], i - a, j - a) <==> MatchAt(s, i, j)
  {
    if i + |Host| <= j {
      StartsAtSlice(s, a, b, i, Host);
      StartsAtSlice(s, a, b, j, DpMarker);
      var t := s[a..b];
      assert forall k :: i + |Host| <= k < j ==> t[k - a] == s[k];
      assert forall k :: j + |DpMarker| <= k < MatchEnd(j) ==> t[k - a] == s[k];
      assert AsinAt(t, j - a + |DpMarker|) <==> AsinAt(s, j + |DpMarker|) by {
        if AsinAt(s, j + |DpMarker|) {
          forall k | j - a + |DpMarker| <= k < j - a + |DpMarker| + AsinLength
            ensures IsAsinChar(t[k])
          {
            assert t[k] == s[k + a];
          }
        }
        if AsinAt(t, j - a + |DpMarker|) {
          forall k | j + |DpMarker| <= k < MatchEnd(j)
            ensures IsAsinChar(s[k])
          {
            assert t[k - a] == s[k];
          }
        }
      }
      assert (forall k :: i - a + |Host| <= k < j - a ==> t[k] != '\n')
        <==> (forall k :: i + |Host| <= k < j ==> s[k] != '\n') by {
        if forall k :: i + |Host| <= k < j ==> s[k] != '\n' {
          forall k | i - a + |Host| <= k < j - a
            ensures t[k] != '\n'
          {
            assert t[k] == s[k + a];
          }
        }
      }
    }
  }

  /** The positions of the match the scanner returned. */
  lemma CleanResult(url: string) returns (i: nat, j: nat)
    requires CleanAmazonUrl(url).Some?
    ensures IsSearchResult(url, i, j) && CleanAmazonUrl(url).value == url[i..MatchEnd(j)]
  {
    i, j :| IsSearchResult(url, i, j) && CleanAmazonUrl(url).value == url[i..MatchEnd(j)];
  }

  /** A search result spanning all of `u` is still the search result once anything is appended. */
  lemma WholeResultExtends(u: string, rest: string, j: nat)
    requires IsSearchResult(u, 0, j) && MatchEnd(j) == |u|
    ensures IsSearchResult(u + rest, 0, j)
  {
    var s := u + rest;
    assert s[0..|u|] == u;
    MatchAtSlice(s, 0, |u|, 0, j);
    assert MatchAt(s, 0, j);
    forall j': nat | j' < j
      ensures !MatchAt(s, 0, j')
    {
      if |Host| <= j' {
        MatchAtSlice(s, 0, |u|, 0, j');
        assert !MatchAt(u, 0, j');
      }
    }
  }

  /** A canonical URL followed by anything canonicalises back to itself. */
  lemma {:induction false} CanonicalIgnoresSuffix(u: string, rest: string)
    requires CleanAmazonUrl(u) == Some(u)
    ensures CleanAmazonUrl(u + rest) == Some(u)
  {
    var i, j := CleanResult(u);
    assert |u[i..MatchEnd(j)]| == MatchEnd(j) - i;
    assert i == 0 && MatchEnd(j) == |u|;
    WholeResultExtends(u, rest, j);
    CleanIsSearchResult(u + rest, 0, j);
    assert (u + rest)[0..MatchEnd(j)] == u;
  }

  /** Canonicalising a canonical URL changes nothing. */
  lemma {:induction false} CleanIdempotent(url: string)
    requires CleanAmazonUrl(url).Some?
    ensures CleanAmazonUrl(CleanAmazonUrl(url).value) == CleanAmazonUrl(url)
  {
    var i, j := CleanResult(url);
    var u := url[i..MatchEnd(j)];
    SearchResultOwnText(url, i, j);
    CleanIsSearchResult(u, 0, j - i);
    assert u[0..MatchEnd(j - i)] == u;
  }

  /** The text `re.search` found, searched again, is found whole. */
  lemma SearchResultOwnText(url: string, i: nat, j: nat)
    requires IsSearchResult(url, i, j)
    ensures IsSearchResult(url[i..MatchEnd(j)], 0, j - i)
  {
    var u := url[i..MatchEnd(j)];
    MatchAtSlice(url, i, MatchEnd(j), i, j);
    forall j': nat | j' < j - i
      ensures !MatchAt(u, 0, j')
    {
      if |Host| <= j' {
        MatchAtSlice(url, i, MatchEnd(j), i, j' + i);
      }
    }
  }

  /** Nothing shorter than host, `/dp/` and an ASIN can match. */
  lemma ShortUrlHasNoMatch(url: string)
    requires |url| < |Host| + |DpMarker| + AsinLength
    ensures CleanAmazonUrl(url) == None
  {
  }

  /** A product URL: host, a slug, `/dp/`, and whatever follows. */
  function ProductUrl(slug: string, tail: string): string {
    Host + slug + DpMarker + tail
  }

  /** Where the parts of a product URL sit. */
  lemma ProductUrlLayout(slug: string, tail: string)
    ensures var u := ProductUrl(slug, tail);
      && |u| == |Host| + |slug| + |DpMarker| + |tail|
      && StartsAt(u, 0, Host)
      && (forall k :: 0 <= k < |slug| ==> u[|Host| + k] == slug[k])
      && StartsAt(u, |Host| + |slug|, DpMarker)
      && (forall k :: 0 <= k < |tail| ==> u[|Host| + |slug| + |DpMarker| + k] == tail[k])
  {
    var u := ProductUrl(slug, tail);
    assert u[..|Host|] == Host;
    assert u[|Host| + |slug|..|Host| + |slug| + |DpMarker|] == DpMarker;
  }

  /** The first character of a match's `/dp/` and the one three further on are slashes. */
  lemma MarkerSlashes(s: string, i: nat, j: nat)
    requires MatchAt(s, i, j)
    ensures s[j] == '/' && s[j + 1] == 'd' && s[j + 2] == 'p' && s[j + 3] == '/'
  {
    assert s[j..j + |DpMarker|] == DpMarker;
    assert s[j] == s[j..j + |DpMarker|][0];
    assert s[j + 1] == s[j..j + |DpMarker|][1];
    assert s[j + 2] == s[j..j + |DpMarker|][2];
    assert s[j + 3] == s[j..j + |DpMarker|][3];
  }

  /** `/dp/` followed by ten ASIN characters starts at index `p` of `s`. */
  predicate ProductIdAt(s: string, p: nat) {
    StartsAt(s, p, DpMarker) && AsinAt(s, p + |DpMarker|)
  }

  /**
   * A product URL whose slug has no newline and no `/dp/<ASIN>` of its own,
   * followed by `/dp/` and a valid ASIN, canonicalises to everything up to
   * the ASIN: the query string or any other suffix is dropped.
   */
  lemma {:induction false} ProductUrlCanonical(slug: string, asin: string, rest: string)
    requires '\n' !in slug && forall p: nat :: !ProductIdAt(slug, p)
    requires |asin| == AsinLength && forall k :: 0 <= k < |asin| ==> IsAsinChar(asin[k])
    ensures CleanAmazonUrl(ProductUrl(slug, asin + rest)) == Some(ProductUrl(slug, asin))
  {
    var u := ProductUrl(slug, asin + rest);
    var j := |Host| + |slug|;
    ProductUrlLayout(slug, asin + rest);
    assert forall k :: 0 <= k < |asin| ==> u[j + |DpMarker| + k] == asin[k];
    assert MatchAt(u, 0, j) by {
      forall k | |Host| <= k < j
        ensures u[k] != '\n'
      {
        assert u[k] == slug[k - |Host|];
      }
      forall k | j + |DpMarker| <= k < MatchEnd(j)
        ensures IsAsinChar(u[k])
      {
        assert u[k] == asin[k - j - |DpMarker|];
      }
    }
    MarkerSlashes(u, 0, j);
    forall j': nat | j' < j
      ensures !MatchAt(u, 0, j')
    {
      EarlierMatchInSlug(slug, asin + rest, j');
      if MatchAt(u, 0, j') {
        assert false;
      }
    }
    CleanIsSearchResult(u, 0, j);
    assert u[0..MatchEnd(j)] == ProductUrl(slug, asin);
  }

  /** A match that ends before the product URL's own `/dp/` lies inside the slug. */
  lemma EarlierMatchInSlug(slug: string, tail: string, j: nat)
    ensures MatchAt(ProductUrl(slug, tail), 0, j) && MatchEnd(j) <= |Host| + |slug| ==>
      j >= |Host| && ProductIdAt(slug, j - |Host|)
  {
    var u := ProductUrl(slug, tail);
    var e := |Host| + |slug|;
    if MatchAt(u, 0, j) && MatchEnd(j) <= e {
      ProductUrlLayout(slug, tail);
      assert u[|Host|..e] == slug;
      StartsAtSlice(u, |Host|, e, j, DpMarker);
      forall k | j - |Host| + |DpMarker| <= k < j - |Host| + |DpMarker| + AsinLength
        ensures IsAsinChar(slug[k])
      {
        assert slug[k] == u[|Host| + k];
      }
    }
  }

  /**
   * The pattern needs a path segment between the host and `/dp/`: the
   * slug-less form `https://www.amazon.in/dp/<id>` has no match unless
   * `/dp/` occurs again further on.
   */
  lemma {:induction false} SluglessUrlRejected(id: string)
    requires !Contains("dp/" + id, DpMarker)
    ensures CleanAmazonUrl(Host + "dp/" + id) == None
  {
    var u := Host + "dp/" + id;
    forall i: nat, j: nat
      ensures !MatchAt(u, i, j)
    {
      SluglessMarker(id, i, j);
    }
  }

  /** A match in the slug-less URL puts its `/dp/` inside `dp/<id>`. */
  lemma SluglessMarker(id: string, i: nat, j: nat)
    ensures MatchAt(Host + "dp/" + id, i, j) ==> j >= |Host| && StartsAt("dp/" + id, j - |Host|, DpMarker)
  {
    var u := Host + "dp/" + id;
    if MatchAt(u, i, j) {
      assert u[|Host|..] == "dp/" + id;
      StartsAtSlice(u, |Host|, |u|, j, DpMarker);
    }
  }

  /**
   * When the ten characters after `/dp/` are not all from `[A-Z0-9]` (a
   * lower-case or a short ASIN), a one-segment product URL has no match,
   * unless `/dp/` occurs again in what follows.
   */
  lemma {:induction false} BadAsinRejected(slug: string, id: string)
    requires '/' !in slug && !Contains("/" + id, DpMarker)
    requires !(|id| >= AsinLength && forall k :: 0 <= k < AsinLength ==> IsAsinChar(id[k]))
    ensures CleanAmazonUrl(ProductUrl(slug, id)) == None
  {
    var u := ProductUrl(slug, id);
    forall i: nat, j: nat
      ensures !MatchAt(u, i, j)
    {
      ProductUrlMarker(slug, id, i, j);
      if MatchAt(u, i, j) {
        assert false;
      }
    }
  }

  /**
   * In a one-segment product URL, a match either uses the URL's own `/dp/`,
   * and then the tail starts with an ASIN, or finds `/dp/` again in the
   * tail.
   */
  lemma ProductUrlMarker(slug: string, id: string, i: nat, j: nat)
    requires '/' !in slug
    ensures MatchAt(ProductUrl(slug, id), i, j) ==>
      || (|id| >= AsinLength && forall k :: 0 <= k < AsinLength ==> IsAsinChar(id[k]))
      || (j >= |Host| + |slug| + 3 && StartsAt("/" + id, j - |Host| - |slug| - 3, DpMarker))
  {
    var u := ProductUrl(slug, id);
    var m := |Host| + |slug|;
    if MatchAt(u, i, j) {
      MarkerSlashes(u, i, j);
      if j == m {
        OwnMarkerAsin(slug, id);
      } else if j >= m + 3 {
        TailMarker(slug, id, j);
      } else {
        ProductUrlLayout(slug, id);
      }
    }
  }

  /** When the product URL's own `/dp/` is followed by an ASIN, its tail starts with one. */
  lemma OwnMarkerAsin(slug: string, id: string)
    requires AsinAt(ProductUrl(slug, id), |Host| + |slug| + |DpMarker|)
    ensures |id| >= AsinLength && forall k :: 0 <= k < AsinLength ==> IsAsinChar(id[k])
  {
    var u := ProductUrl(slug, id);
    var m := |Host| + |slug|;
    ProductUrlLayout(slug, id);
    forall k | 0 <= k < AsinLength
      ensures IsAsinChar(id[k])
    {
      assert u[m + |DpMarker| + k] == id[k];
    }
  }

  /** A `/dp/` that starts at or after the last slash of the product URL's own one lies in `/<tail>`. */
  lemma TailMarker(slug: string, id: string, j: nat)
    requires var u := ProductUrl(slug, id);
      j >= |Host| + |slug| + 3 && StartsAt(u, j, DpMarker)
    ensures StartsAt("/" + id, j - |Host| - |slug| - 3, DpMarker)
  {
    var m := |Host| + |slug|;
    var u := ProductUrl(slug, id);
    assert u == (Host + slug + "/dp") + ("/" + id);
    StartsAtSlice(u, m + 3, |u|, j, DpMarker);
    assert u[m + 3..|u|] == "/" + id;
  }

  /** Without the literal host anywhere in the URL there is no match: `http://` and other hosts give None. */
  lemma NoHostRejected(url: string)
    requires !Contains(url, Host)
    ensures CleanAmazonUrl(url) == None
  {
  }


  /** The example URL is a product URL with slug `Some-Product` and a query string. */
  lemma ExampleUrlLayout()
    ensures ProductUrl("Some-Product", "B0TESTID99" + "?ref=abc")
         == "https://www.amazon.in/Some-Product/dp/B0TESTID99?ref=abc"
  {
    ExampleCanonicalLayout();
    assert ProductUrl("Some-Product", "B0TESTID99" + "?ref=abc")
        == ProductUrl("Some-Product", "B0TESTID99") + "?ref=abc";
  }

  /** The expected canonical form of the example URL. */
  lemma ExampleCanonicalLayout()
    ensures ProductUrl("Some-Product", "B0TESTID99") == "https://www.amazon.in/Some-Product/dp/B0TESTID99"
  {
  }

  /** `https://www.amazon.in/Some-Product/dp/B0TESTID99?ref=abc` loses its query string. */
  lemma ExampleQueryDropped()
    ensures CleanAmazonUrl("https://www.amazon.in/Some-Product/dp/B0TESTID99?ref=abc")
         == Some("https://www.amazon.in/Some-Product/dp/B0TESTID99")
  {
    assert '/' !in "Some-Product" && '\n' !in "Some-Product";
    assert forall k :: 0 <= k < |"B0TESTID99"| ==> IsAsinChar("B0TESTID99"[k]);
    ProductUrlCanonical("Some-Product", "B0TESTID99", "?ref=abc");
    ExampleUrlLayout();
    ExampleCanonicalLayout();
  }
}
