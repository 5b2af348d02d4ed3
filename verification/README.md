# Telegram deals bot: a Dafny model of `scraper.py`

`scraper.py` is a one-shot job. It reads the last 24 hours of every group and
channel the user account belongs to. It picks out the Amazon links, follows
short links to where they lead, and reduces each one to a canonical
`https://www.amazon.in/<slug>/dp/<ASIN>` URL. It fetches each new product's
page for its title and price. It then posts every product to a Telegram
channel with an affiliate buy link. Successive posts alternate between two
affiliate tracking IDs. A JSON memory file remembers which links were posted
and which tracking ID comes next.

The model keeps the decisions the script takes and leaves the network, the
clock and Telegram as parameters:

| module | file | what it models |
|---|---|---|
| `Wrappers` | wrappers.dfy | `Option` |
| `Strings` | strings.dfy | substring occurrence (`t in s`) and lists of links seen as sets |
| `AmazonUrl` | amazon_url.dfy | `get_clean_amazon_url`. A declarative description of what `re.search` reports for the canonical-URL pattern, and a scanner proved to return exactly that match. |
| `LinkExtractor` | link_extractor.dfy | `find_links_in_text`. A declarative description of `re.findall` for the link pattern, and a scanner proved to be the only list meeting it. |
| `DialogScanner` | dialog_scanner.dfy | the filter of `scan_and_process_links`: dialog kinds, the 200-message limit, the cutoff, the `amazon`/`amzn` pre-filter, resolution, canonicalisation and the posted-links check |
| `ProductFetcher` | product_fetcher.dfy | `fetch_product_details` once the page is parsed: a mandatory stripped title and an optional price with a placeholder |
| `MemoryStore` | memory_store.dfy | `load_bot_memory` and `save_bot_memory` over the JSON shapes the loader distinguishes |
| `Publisher` | publisher.dfy | the publishing loop of `main`: `TRACKING_IDS[current_idx]` with Python's list indexing, the buy link, `posted_links.add` and `current_idx = 1 - current_idx` |
| `Orchestrator` | orchestrator.dfy | `main` after the configuration check: load, scan, publish, save |

Facts about the code that the model keeps:

- From index 0, two successful posts credit the first ID and then the second. The stored index is then 0 again, because `1 - (1 - 0) = 0`, so the next run starts with the first ID. `Publisher.ExampleTwoPosts` states this.
- The buy link is the canonical URL followed by `/?tag=<id>` (scraper.py:121), with a slash before the query. `Publisher.PublishPostsInOrder` states this.
- An existing memory file that cannot be opened raises, because `open` (scraper.py:33) is outside the `try`. The model does not cover unreadable files (see "Left out").
- The comment at scraper.py:129 describes the toggle for indices 0 and 1 only. The stored `last_index` is never validated. Python accepts list indices -2 to 1 on the two-element `TRACKING_IDS`. Any other index raises `IndexError` at the first product found. That ends `main` before `save_bot_memory`, so the memory file is left as it was.
- A negative index selects an ID once. `1 - index` then lies outside the list. With exactly one product found, the run saves that index (2 from -1, 3 from -2), which the next run rejects. With two or more, the second product found raises after one post, and the file is left as it was.

`Publisher.PublishBadIndex`, `Publisher.PublishNegativeIndex`, `Publisher.PublishNegativeSingle` and `Publisher.PublishNothingFound` state these behaviours of the loop. `Orchestrator.Run` states what each of them leaves in the memory file.

## Model

| member | source | states |
|---|---|---|
| `AmazonUrl.CleanAmazonUrl` | scraper.py:57-59 | A result exists exactly when the pattern matches somewhere. The result is the text of the match `re.search` reports: leftmost start, shortest lazy middle. It occurs in the URL, starts with `https://www.amazon.in/` and ends with `/dp/` and ten `[A-Z0-9]` characters. |
| `AmazonUrl.LazyEnd` | scraper.py:58 | The lazy `.*?` at a start position: the first later position where `/dp/` and an ASIN follow. None when a newline comes first or no such position exists. |
| `AmazonUrl.SearchFrom` | scraper.py:58 | The leftmost start at which the pattern matches, with its shortest completion. None when no start from here on matches. |
| `AmazonUrl.MatchedTextShape` | scraper.py:58-59 | The text of any match starts with the host and ends with `/dp/` and an ASIN. |
| `AmazonUrl.SearchResultUnique` | scraper.py:58 | At most one pair of positions is the search result. |
| `AmazonUrl.CleanIsSearchResult` | scraper.py:57-59 | Whenever positions are the search result, the function returns exactly their text. This is the converse of the function's own contract. |
| `AmazonUrl.MatchAtSlice` | scraper.py:58 | A match inside a slice of the text is a match in the whole text, and conversely. |
| `AmazonUrl.CanonicalIgnoresSuffix` | scraper.py:57-59 | Appending anything to a canonical URL leaves its canonical form unchanged. |
| `AmazonUrl.CleanIdempotent` | scraper.py:57-59 | Canonicalising a canonical URL returns it unchanged. |
| `AmazonUrl.SearchResultOwnText` | scraper.py:58-59 | Searched on its own, the matched text is matched whole. |
| `AmazonUrl.ShortUrlHasNoMatch` | scraper.py:58-59 | A text shorter than host, `/dp/` and ASIN together yields None. |
| `AmazonUrl.ProductUrlCanonical` | scraper.py:57-59 | `https://www.amazon.in/<slug>/dp/<ASIN><anything>`, with a slug that has no newline and no `/dp/<ASIN>` of its own and a valid ASIN, canonicalises to the URL up to the ASIN. Query strings are dropped. |
| `AmazonUrl.SluglessUrlRejected` | scraper.py:58 | `https://www.amazon.in/dp/<id>` has no match when `/dp/` does not occur again in `dp/<id>`, because the pattern needs a segment before `/dp/`. |
| `AmazonUrl.BadAsinRejected` | scraper.py:58 | A one-segment product URL whose ten characters after `/dp/` are not all `[A-Z0-9]` (lower case, or too short) yields None, as long as `/dp/` does not occur again after the URL's own one. |
| `AmazonUrl.NoHostRejected` | scraper.py:58 | A text without the literal `https://www.amazon.in/` yields None: `http://`, other hosts and short links. |
| `AmazonUrl.ExampleQueryDropped` | scraper.py:57-59 | `https://www.amazon.in/Some-Product/dp/B0TESTID99?ref=abc` canonicalises to `https://www.amazon.in/Some-Product/dp/B0TESTID99`. |
| `LinkExtractor.LinkCharRanges` | scraper.py:55 | The link-character alternatives are exactly: lower-case letters, the range `$` to `_`, and `!`. |
| `LinkExtractor.PercentEscapeIsLinkChars` | scraper.py:55 | Every character the `%XX` alternative consumes is already a link character, so that alternative adds nothing. |
| `LinkExtractor.RunEnd` | scraper.py:55 | The greedy `+`: the end of the longest run of link characters from a position. |
| `LinkExtractor.FindSpans` | scraper.py:54-55 | Its spans satisfy the `re.findall` description. Each is a greedy match. They are in order and do not overlap. No match starts in any gap the search skipped or after the last span. |
| `LinkExtractor.LinkMatchEndUnique` | scraper.py:55 | A greedy match starting at a position has only one end. |
| `LinkExtractor.FindAllUnique` | scraper.py:54-55 | The `re.findall` description determines the list of matches. |
| `LinkExtractor.FindSpansOnly` | scraper.py:54-55 | Any list meeting the `re.findall` description is the scanner's list. |
| `LinkExtractor.MatchedLinkShape` | scraper.py:55 | Every matched text is `http://` or `https://` followed by at least one link character, and occurs in the text. |
| `LinkExtractor.FindLinks` | scraper.py:54-55 | The links are the texts of a list meeting the `re.findall` description, in order. Each is link-shaped and occurs in the text. |
| `LinkExtractor.SpanTextsShape` | scraper.py:55 | The texts of any list meeting the description are link-shaped substrings of the text. |
| `LinkExtractor.FindLinksIsFindAll` | scraper.py:54-55 | For every list meeting the `re.findall` description, the function returns exactly its texts. |
| `LinkExtractor.ExampleOneLink` | scraper.py:54-55 | `Check this out https://amzn.to/xyz` yields exactly `["https://amzn.to/xyz"]`. |
| `DialogScanner.LinksFrom` | scraper.py:77-82 | No link it collects was posted already. |
| `DialogScanner.LinksFromExactly` | scraper.py:77-82 | A URL is collected from a message's links exactly when it was not posted and some link mentions `amazon` or `amzn`, resolves to a non-empty URL and canonicalises to it. |
| `DialogScanner.LinksOfMessage` | scraper.py:76-82 | A message contributes no already-posted link. |
| `DialogScanner.ScanMessages` | scraper.py:74-82 | No link it collects was posted already. |
| `DialogScanner.ScanMessagesExactly` | scraper.py:74-82 | A URL is collected from a message list exactly when it was not posted and is reached from some message such that no message up to and including it is older than the cutoff. |
| `DialogScanner.RecentIndex` | scraper.py:74 | `limit=200`: message `n` is read at all exactly when it exists and `n < 200`, and it is then the dialog's own message `n`. |
| `DialogScanner.ScanDialog` | scraper.py:72-83 | A dialog contributes no already-posted link. |
| `DialogScanner.ScanDialogExactly` | scraper.py:72-83 | A URL comes from a dialog exactly when it was not posted and the dialog is a group or channel with an examined message leading to it. |
| `DialogScanner.Scan` | scraper.py:68-84 | The result is disjoint from the posted links. |
| `DialogScanner.ScanExactly` | scraper.py:68-84 | The result is exactly the URLs, not yet posted, that some examined message of some group or channel leads to. Both directions are stated. |
| `DialogScanner.StopsAtFirstOld` | scraper.py:75 | The `break` at the first message older than the cutoff: that message and everything after it contribute nothing. |
| `DialogScanner.ScanSplits` | scraper.py:71-84 | Dialogs are independent: scanning a concatenation is the union of the scans. |
| `DialogScanner.ScanOneMessage` | scraper.py:72-82 | A single-message dialog contributes that message's links exactly when it is a group or channel and the message is recent enough. |
| `DialogScanner.LinksFromOne` | scraper.py:77-82 | A single link contributes its canonical target when it mentions Amazon and the target exists and was not posted. Otherwise it contributes nothing. |
| `DialogScanner.ExampleScan` | scraper.py:68-84 | One recent group message `Check this out https://amzn.to/xyz`, with the short link resolving to a product URL with a query string, yields exactly the canonical product URL. |
| `ProductFetcher.SkipSpace` | scraper.py:95 | The leading-whitespace end for `str.strip`: every character before it is whitespace and the one at it is not. |
| `ProductFetcher.TrimEnd` | scraper.py:95 | The trailing-whitespace start for `str.strip`: every character from it on is whitespace and the one before it is not. |
| `ProductFetcher.Strip` | scraper.py:95 | `str.strip()`: the result is a slice whose removed prefix and suffix are whitespace only, and it neither starts nor ends with whitespace. |
| `ProductFetcher.StripIdempotent` | scraper.py:95 | Stripping twice is stripping once. |
| `ProductFetcher.FetchDetails` | scraper.py:86-96 | Details exist exactly when the page was fetched and has a title. The title is stripped, the URL is the one requested, and the price is `₹` plus the scraped text or `Check Website`. |
| `ProductFetcher.ExampleNoPrice` | scraper.py:91-95 | A page without a price still yields details, with the placeholder price. |
| `ProductFetcher.ExampleNoTitle` | scraper.py:93-94 | A page without a title yields None, whatever its price. |
| `MemoryStore.Load` | scraper.py:30-42 | The links are exactly the stored ones. The index is the object document's `last_index`, or 0 when the object has none, and 0 for a bare list. A missing or unparseable file gives no links and index 0. |
| `MemoryStore.LoadLegacyList` | scraper.py:37-38 | A bare list keeps its links and restarts the rotation at 0. |
| `MemoryStore.LoadObjectDefaults` | scraper.py:39 | An object without `last_index` gives index 0; one without `links` gives no links. |
| `MemoryStore.Enumerate` | scraper.py:48 | `list(set)`: every member exactly once. |
| `MemoryStore.Save` | scraper.py:44-50 | Writes the object shape with a repeat-free link list of the set's size. Loading it returns exactly the saved set and index. |
| `MemoryStore.LoadSaveLoad` | scraper.py:30-50 | Saving what was loaded and loading again gives the same memory. |
| `Publisher.ActiveId` | scraper.py:116 | `TRACKING_IDS[i]` on a two-element list: defined exactly for -2 ≤ i < 2. 0 and -2 give the first ID, 1 and -1 the second. |
| `Publisher.PublishAll` | scraper.py:112-130 | The posted set only grows, and only by links of the list. Earlier posts are kept as a prefix. |
| `Publisher.Successes` | scraper.py:113-114 | There are no more successful links than links, and each one is one of the links. |
| `Publisher.Found` | scraper.py:113-114 | One found record per successful link. |
| `Publisher.FoundInOrder` | scraper.py:113-114 | The `k`-th record is what fetching the `k`-th successful link returned. |
| `Publisher.FlippedParity` | scraper.py:130 | From index 0 or 1, applying `1 - index` n times gives `(index + n) mod 2`. |
| `Publisher.PublishRotates` | scraper.py:112-130 | From a valid index the loop finishes. It posts exactly the successful links, one post per success, with product k crediting ID `(index + k) mod 2`. |
| `Publisher.PublishAlternates` | scraper.py:112-130 | From a valid index: the loop finishes, the posted set grows by exactly the successful links, there is one post each after the earlier ones, and the final index is `(index + posts) mod 2`. |
| `Publisher.PublishPostsInOrder` | scraper.py:116-121 | Post `k` carries the `k`-th found product and credits ID `(index + k) mod 2`. Its buy link is that product's URL tagged with that ID. |
| `Publisher.PublishBadIndex` | scraper.py:116 | With an index Python rejects, the loop finishes unchanged when nothing is found. Otherwise it raises at the first product, before any post. |
| `Publisher.PublishNothingFound` | scraper.py:112-114 | Whatever the index, when no link yields details the loop finishes with the state unchanged. |
| `Publisher.PublishNegativeSingle` | scraper.py:116-130 | With index -1 or -2 and exactly one product found, the loop finishes after one post, with that link added and index `1 - index`. The post is that product, crediting `TRACKING_IDS[index]` (the second ID for -1, the first for -2) with its `/?tag=` buy link. |
| `Publisher.PublishNegativeIndex` | scraper.py:116-130 | With index -1 or -2 and at least two products found, exactly one post is sent and then the loop raises. The post is the first product found, crediting the second ID for -1 and the first for -2, with its `/?tag=` buy link. |
| `Publisher.SuccessesElements` | scraper.py:112-114 | The successful links are exactly the links whose details were found. |
| `Publisher.SuccessesDistinct` | scraper.py:112-114 | A repeat-free link list gives a repeat-free success list. |
| `Publisher.SentUrls` | scraper.py:112-127 | When details keep their own URL, every post is for one of the links and no link is posted twice. |
| `Publisher.SentIsPrefix` | scraper.py:112-124 | Whatever the index, the posts sent are for a prefix of the successful links, in order. |
| `Publisher.ExampleTwoPosts` | scraper.py:112-130 | From index 0, two found products credit the first ID and then the second. Both are posted and the final index is 0. |
| `Orchestrator.RunFacts` | scraper.py:104-133 | The publishing loop over the enumerated new links. Posts are for new candidates only, without repeats, and at most one per publishable link. From a valid index it finishes with all publishable links posted and index `(index + count) mod 2`. From an index Python rejects it posts nothing, and raises when anything is publishable. From -1 or -2 it finishes unchanged with nothing publishable, finishes after one post with one publishable link, and raises after one post with more. |
| `Orchestrator.Persist` | scraper.py:112-133 | When the loop raised, the memory file is left as it was. When it finished, the saved file loads back as exactly the posted set and the final index. |
| `Orchestrator.RunSendsNew` | scraper.py:98-133 | Every post of a run is for a scanned candidate that was not already posted, none repeats, and there are no more posts than publishable candidates. |
| `Orchestrator.RunSavesRotation` | scraper.py:98-133 | From a stored index of 0 or 1, the saved file loads back as the old links plus every publishable candidate, with index `(index + count) mod 2`, and one post is sent per publishable candidate. |
| `Orchestrator.RunRejectedIndex` | scraper.py:98-133 | From a stored index Python rejects, nothing is sent. The file loads back unchanged when nothing was publishable, and is left as it was otherwise. |
| `Orchestrator.RunNegativeIndex` | scraper.py:98-133 | From a stored index of -1 or -2, one post is sent when anything is publishable. With exactly one publishable candidate the file loads back with it added and index `1 - index`. With none it loads back unchanged, and with more it is left as it was. |
| `Orchestrator.Run` | scraper.py:98-133 | One run. Every post is for a scanned candidate that was not already posted, and none repeats. From a valid stored index the file is rewritten: it loads back as the old links plus every publishable candidate, with index `(index + count) mod 2`. From an index Python rejects nothing is sent. The file then loads back unchanged when nothing was publishable, and is left as it was otherwise. From -1 or -2 one post is sent when anything is publishable. The file loads back with the publishable link added and index `1 - index` when there was exactly one, loads back unchanged when there was none, and is left as it was when there were more. |

## Left out

- The configuration check (scraper.py:14-23, 100-102) is not modelled. It reads environment variables and stops with a message when one is missing. The model starts after it.
- `resolve_short_link` (scraper.py:61-66) is a parameter, `resolve`, because it is an HTTP request. None stands for the exception it swallows. An empty result is treated as no result, as `if res` does.
- `fetch_product_details` (scraper.py:86-96) is modelled only after the HTML is parsed. The page is represented by the texts `.a-price-whole` and `#productTitle` selected. A failed request or parse is None. The HTTP request and BeautifulSoup are left out.
- The clock is left out: `datetime.utcnow() - timedelta(hours=24)` is the parameter `cutoff`. Message dates are integers on the same scale, so the time-zone handling of `replace(tzinfo=None)` is not modelled.
- The Telegram client is left out. The dialogs and their messages are a parameter, newest message first. A message without text is one with empty text.
- The per-dialog `except: continue` (scraper.py:83) is not modelled as an exception. When the client's message iteration fails part-way, the links of the messages already read are kept (scraper.py:82-83) and the scan moves on to the next dialog. A dialog's `messages` cut off where the failure happened represents that case. `resolve_short_link` swallows its own exceptions (scraper.py:63-66), so resolution cannot raise there.
- The caption's wording, emoji and `html.escape` of the title (scraper.py:118-122) are left out. A post records the details, the tracking ID and the buy link.
- Sending is assumed to succeed. A failing `bot.send_message` would end `main` without saving, and that is not modelled.
- Asynchrony (`asyncio`, `aiohttp`, `async for`) is left out. The model is sequential, which matches the script's own order of events.
- `load_bot_memory` is modelled only on readable files. When the file exists but cannot be opened, `open` raises outside the `try`.
- `load_bot_memory`: documents are reduced to a list of strings, an object with optional `links` and `last_index`, or anything else. Lists with non-string items are not modelled. Neither are a `null` or non-list `links`, a non-integer `last_index`, nor the exceptions such contents raise or the sets they build.
- `save_bot_memory` is modelled as returning the document it writes. Write failures and partial writes are left out.
- MemoryStore.Enumerate: leaves the order of `list(set)` open. It promises each member once, in some order. Python's order depends on string hashes, so the order in which new links are published is also left open.
- DialogScanner.Scan: its own contract states only that nothing already posted is collected. `DialogScanner.ScanExactly` states what is collected.
- DialogScanner.ScanDialog: its own contract states only that nothing already posted is collected. `DialogScanner.ScanDialogExactly` states what is collected.
- DialogScanner.ScanMessages: its own contract states only that nothing already posted is collected. `DialogScanner.ScanMessagesExactly` states what is collected.
- DialogScanner.LinksOfMessage: its own contract states only that nothing already posted is collected. `DialogScanner.LinksFromExactly` states what a message with text contributes.
- DialogScanner.LinksFrom: its own contract states only that nothing already posted is collected. `DialogScanner.LinksFromExactly` states what is collected.
- Publisher.PublishAll: its own contract states only that the posted set grows and earlier posts are kept. Its full result is stated by `Publisher.PublishRotates` for indices 0 and 1, by `Publisher.PublishBadIndex` for indices Python rejects, and by `Publisher.PublishNothingFound`, `Publisher.PublishNegativeSingle` and `Publisher.PublishNegativeIndex` for -1 and -2. `Publisher.SentIsPrefix` holds for every index.
- Publisher.SentUrls: fetched details are assumed to carry the URL they were fetched for, as `fetch_product_details` does. `Orchestrator.Run` fetches through `fetch_product_details`, which provides that.
