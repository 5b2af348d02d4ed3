/**
 * What `fetch_product_details` makes of a product page.
 *
 * The HTTP request and the HTML parsing are outside the model: a page is
 * represented by what the two selectors found on it (`.a-price-whole` and
 * `#productTitle`), or by None when the request or the parse raised. The
 * model keeps the decisions the function takes on those results: the title
 * is mandatory and is stripped of surrounding whitespace, the price is
 * optional and falls back to a fixed placeholder.
 */
module ProductFetcher {
  import opened Wrappers

  /** The texts the price and title selectors matched on a fetched page, when they matched. */
  datatype PageScrape = PageScrape(priceText: Option<string>, titleText: Option<string>)

  /** The record handed to the publisher. */
  datatype ProductDetails = ProductDetails(title: string, price: string, url: string)

  /** Shown when the page has no price element. */
  const PricePlaceholder: string := "Check Website"

  /** Prefixed to a scraped price. */
  const RupeeSign: string := "\U{20B9}"

  /** Python's `str.isspace` for a single character. */
  predicate IsSpace(c: char) {
    || c == ' ' || ('\t' <= c <= '\r') || ('\U{1C}' <= c <= '\U{1F}')
    || c == '\U{85}' || c == '\U{A0}' || c == '\U{1680}'
    || ('\U{2000}' <= c <= '\U{200A}') || c == '\U{2028}' || c == '\U{2029}'
    || c == '\U{202F}' || c == '\U{205F}' || c == '\U{3000}'
  }

  /** The first index from `i` on that does not hold whitespace. */
  function SkipSpace(s: string, i: nat): (a: nat)
    requires i <= |s|
    ensures i <= a <= |s|
    ensures forall k :: i <= k < a ==> IsSpace(s[k])
    ensures a == |s| || !IsSpace(s[a])
    decreases |s| - i
  {
    if i < |s| && IsSpace(s[i]) then SkipSpace(s, i + 1) else i
  }

  /** The end of `s[..j]` once trailing whitespace down to `lo` is dropped. */
  function TrimEnd(s: string, lo: nat, j: nat): (b: nat)
    requires lo <= j <= |s|
    ensures lo <= b <= j
    ensures forall k :: b <= k < j ==> IsSpace(s[k])
    ensures b == lo || !IsSpace(s[b - 1])
    decreases j
  {
    if lo < j && IsSpace(s[j - 1]) then TrimEnd(s, lo, j - 1) else j
  }

  /** The whitespace-only prefix and suffix that `str.strip` removes are exactly `s[..a]` and `s[b..]`. */
  ghost predicate IsStripOf(s: string, a: nat, b: nat) {
    && a <= b <= |s|
    && (forall k :: 0 <= k < a ==> IsSpace(s[k]))
    && (forall k :: b <= k < |s| ==> IsSpace(s[k]))
    && (a == b || (!IsSpace(s[a]) && !IsSpace(s[b - 1])))
  }

  /** Python's `str.strip()` without arguments. */
  function Strip(s: string): (r: string)
    ensures exists a: nat, b: nat :: IsStripOf(s, a, b) && r == s[a..b]
    ensures r == [] || (!IsSpace(r[0]) && !IsSpace(r[|r| - 1]))
  {
    var a := SkipSpace(s, 0);
    var b := TrimEnd(s, a, |s|);
    assert a < b ==> !IsSpace(s[a]);
    assert IsStripOf(s, a, b);
    s[a..b]
  }

  /** Stripping twice is stripping once. */
  lemma StripIdempotent(s: string)
    ensures Strip(Strip(s)) == Strip(s)
  {
    var r := Strip(s);
    var r' := Strip(r);
    var a: nat, b: nat :| IsStripOf(r, a, b) && r' == r[a..b];
    if r != [] {
      var first, last := r[0], r[|r| - 1];
      assert !IsSpace(first) && !IsSpace(last);
      assert a > 0 ==> IsSpace(first);
      assert b < |r| ==> IsSpace(last);
    }
  }

  /**
   * `fetch_product_details` once the page is in hand: None when the page
   * could not be fetched or parsed or has no title; otherwise the stripped
   * title, the price (or the placeholder) and the URL that was asked for.
   */
  function FetchDetails(url: string, page: Option<PageScrape>): (r: Option<ProductDetails>)
    ensures r.Some? <==> page.Some? && page.value.titleText.Some?
    ensures r.Some? ==> r.value.url == url
    ensures r.Some? ==> r.value.title == Strip(page.value.titleText.value)
    ensures r.Some? && page.value.priceText.None? ==> r.value.price == PricePlaceholder
    ensures r.Some? && page.value.priceText.Some? ==> r.value.price == RupeeSign + page.value.priceText.value
  {
    match page
    case None => None
    case Some(scrape) =>
      var price := match scrape.priceText
        case Some(p) => RupeeSign + p
        case None => PricePlaceholder;
      match scrape.titleText
      case None => None
      case Some(t) => Some(ProductDetails(Strip(t), price, url))
  }

  /** A page without a price element still yields details, with the placeholder price. */
  lemma ExampleNoPrice(url: string, title: string)
    ensures FetchDetails(url, Some(PageScrape(None, Some(title))))
         == Some(ProductDetails(Strip(title), "Check Website", url))
  {
  }

  /** A page without a title element yields nothing, whatever its price. */
  lemma ExampleNoTitle(url: string, price: Option<string>)
    ensures FetchDetails(url, Some(PageScrape(price, None))) == None
  {
  }
}
