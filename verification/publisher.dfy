/**
 * The publishing loop of `main`: for each new canonical link, fetch the
 * product details; when they are found, post them with the active tracking
 * ID, record the link as posted and flip the index with `1 - index`.
 *
 * Fetching is a parameter `fetch` from link to details: the run plugs in
 * `FetchDetails` applied to the page the network returned, so the loop's
 * properties hold whatever the pages say.
 *
 * The index comes from the memory file unchecked and is used to subscript
 * the two-element `TRACKING_IDS` list, so the model follows Python's list
 * indexing: -2 .. 1 select an ID, anything else raises `IndexError`, which
 * ends the run before the memory file is written.
 */
module Publisher {
  import opened Wrappers
  import opened Strings
  import opened ProductFetcher

  /** The two affiliate tracking IDs, in the order the rotation uses them. */
  datatype TrackingIds = TrackingIds(first: string, second: string)

  /** `TRACKING_IDS[i]` on the two-element list; None where Python raises `IndexError`. */
  function ActiveId(ids: TrackingIds, i: int): (r: Option<string>)
    ensures r.Some? <==> -2 <= i < 2
    ensures 0 <= i < 2 ==> r == Some(if i == 0 then ids.first else ids.second)
    ensures -2 <= i < 0 ==> r == Some(if i == -2 then ids.first else ids.second)
  {
    if i == 0 || i == -2 then Some(ids.first)
    else if i == 1 || i == -1 then Some(ids.second)
    else None
  }

  /** The affiliate link in the caption: the canonical URL with the tracking tag appended. */
  function BuyLink(url: string, id: string): string {
    url + "/?tag=" + id
  }

  /** One message sent to the channel: the product, the ID it credits and its buy link. */
  datatype Post = Post(details: ProductDetails, trackingId: string, buyLink: string)

  /** The state the loop carries: posted links, the index for the next post, and the posts sent so far. */
  datatype PublishState = PublishState(posted: set<string>, index: int, sent: seq<Post>)

  /** How the loop ended: all links handled, or an `IndexError` at the state reached before it. */
  datatype Outcome = Finished(state: PublishState) | IndexError(state: PublishState)

  /** The loop over `new_links`, from state `st`. */
  function PublishAll(links: seq<string>, fetch: string -> Option<ProductDetails>, ids: TrackingIds, st: PublishState): (r: Outcome)
    ensures r.state.posted >= st.posted && st.sent <= r.state.sent
    ensures r.state.posted - st.posted <= Elements(links)
    decreases |links|
  {
    if links == [] then Finished(st)
    else
      match fetch(links[0])
      case None => PublishAll(links[1..], fetch, ids, st)
      case Some(details) =>
        match ActiveId(ids, st.index)
        case None => IndexError(st)
        case Some(id) =>
          var post := Post(details, id, BuyLink(details.url, id));
          var st' := PublishState(st.posted + {links[0]}, 1 - st.index, st.sent + [post]);
          var r := PublishAll(links[1..], fetch, ids, st');
          assert Elements(links) == {links[0]} + Elements(links[1..]);
          assert st.sent <= st'.sent <= r.state.sent;
          r
  }

  /** The links of `links` whose details could be fetched, in order. */
  function Successes(links: seq<string>, fetch: string -> Option<ProductDetails>): (r: seq<string>)
    ensures |r| <= |links|
    ensures forall x <- r :: x in links
    decreases |links|
  {
    if links == [] then []
    else if fetch(links[0]).Some? then [links[0]] + Successes(links[1..], fetch)
    else Successes(links[1..], fetch)
  }

  /** The details fetched for those links, in the same order. */
  function Found(links: seq<string>, fetch: string -> Option<ProductDetails>): (r: seq<ProductDetails>)
    ensures |r| == |Successes(links, fetch)|
    decreases |links|
  {
    if links == [] then []
    else
      match fetch(links[0])
      case Some(d) => [d] + Found(links[1..], fetch)
      case None => Found(links[1..], fetch)
  }

  /** The `k`-th found details are what fetching the `k`-th successful link gives. */
  lemma {:induction false} FoundInOrder(links: seq<string>, fetch: string -> Option<ProductDetails>, k: nat)
    requires k < |Successes(links, fetch)|
    ensures fetch(Successes(links, fetch)[k]) == Some(Found(links, fetch)[k])
    decreases |links|
  {
    var rest := links[1..];
    if fetch(links[0]).Some? {
      if k > 0 {
        FoundInOrder(rest, fetch, k - 1);
      }
    } else {
      FoundInOrder(rest, fetch, k);
    }
  }

  /** The tracking ID the `k`-th post from index `start` should credit. */
  function ExpectedId(ids: TrackingIds, start: int, k: nat): string {
    if (start + k) % 2 == 0 then ids.first else ids.second
  }

  /** The post that the `k`-th found product from index `start` should produce. */
  function ExpectedPost(d: ProductDetails, ids: TrackingIds, start: int, k: nat): Post {
    Post(d, ExpectedId(ids, start, k), BuyLink(d.url, ExpectedId(ids, start, k)))
  }

  /** The reference sequence of posts: product `k` credits ID `(start + k) mod 2`. */
  function ExpectedPosts(found: seq<ProductDetails>, ids: TrackingIds, start: int): (r: seq<Post>)
    ensures |r| == |found|
  {
    seq(|found|, k requires 0 <= k < |found| => ExpectedPost(found[k], ids, start, k))
  }

  /** Post `k` from `start` is post `k - 1` from the next index. */
  lemma ExpectedIdStep(ids: TrackingIds, start: int, k: nat)
    requires start == 0 || start == 1
    requires 0 < k
    ensures ExpectedId(ids, start, k) == ExpectedId(ids, 1 - start, k - 1)
  {
    assert start + k == (1 - start + (k - 1)) + 2 * start;
  }

  /** The index after `1 - index` has been applied `n` times. */
  function Flipped(index: int, n: nat): int
    decreases n
  {
    if n == 0 then index else Flipped(1 - index, n - 1)
  }

  /** From a valid index, `n` flips land on `(index + n) mod 2`: the IDs alternate. */
  lemma {:induction false} FlippedParity(index: int, n: nat)
    requires index == 0 || index == 1
    ensures Flipped(index, n) == (index + n) % 2
    decreases n
  {
    if n > 0 {
      FlippedParity(1 - index, n - 1);
      if index == 1 {
        assert n + 1 == (n - 1) + 1 * 2;
      }
    }
  }

  /** Moving the start one step along the rotation is the same as numbering the posts from one. */
  lemma ExpectedPostsShift(d: ProductDetails, rest: seq<ProductDetails>, ids: TrackingIds, start: int)
    requires start == 0 || start == 1
    ensures ExpectedPosts([d] + rest, ids, start)
         == [ExpectedPost(d, ids, start, 0)] + ExpectedPosts(rest, ids, 1 - start)
  {
    var all := [d] + rest;
    var lhs := ExpectedPosts(all, ids, start);
    var rhs := [ExpectedPost(d, ids, start, 0)] + ExpectedPosts(rest, ids, 1 - start);
    forall k | 0 < k < |lhs|
      ensures lhs[k] == rhs[k]
    {
      assert all[k] == rest[k - 1];
      ExpectedIdStep(ids, start, k);
    }
  }

  /**
   * The reference outcome of the loop from a valid index: the links whose
   * details were found are added to the posted set, their posts follow
   * in order with the IDs alternating from the starting one, and the index
   * ends advanced by the number of posts, modulo 2.
   */
  function Predicted(links: seq<string>, fetch: string -> Option<ProductDetails>, ids: TrackingIds, st: PublishState): PublishState {
    var succ := Successes(links, fetch);
    PublishState(st.posted + Elements(succ), Flipped(st.index, |succ|),
                 st.sent + ExpectedPosts(Found(links, fetch), ids, st.index))
  }

  /** With a valid starting index the loop always finishes, in the reference state. */
  lemma {:induction false} PublishRotates(links: seq<string>, fetch: string -> Option<ProductDetails>, ids: TrackingIds, st: PublishState)
    requires st.index == 0 || st.index == 1
    ensures PublishAll(links, fetch, ids, st) == Finished(Predicted(links, fetch, ids, st))
    decreases |links|
  {
    if links == [] {
      assert st.sent + [] == st.sent;
    } else {
      var link, rest := links[0], links[1..];
      match fetch(link)
      case None =>
        PublishSkips(links, fetch, ids, st);
        PublishRotates(rest, fetch, ids, st);
      case Some(d) =>
        var st' := PublishState(st.posted + {link}, 1 - st.index, st.sent + [ExpectedPost(d, ids, st.index, 0)]);
        PublishPosts(links, fetch, ids, st);
        PublishRotates(rest, fetch, ids, st');
        PredictedStep(links, fetch, ids, st);
    }
  }

  /**
   * The loop's promise from a valid index, spelled out: it finishes, the
   * posted set grows by exactly the links whose details were found, one
   * post is sent per such link after the earlier ones, and the saved index
   * is `(index + posts) mod 2`.
   */
  lemma PublishAlternates(links: seq<string>, fetch: string -> Option<ProductDetails>, ids: TrackingIds, st: PublishState)
    requires st.index == 0 || st.index == 1
    ensures var r := PublishAll(links, fetch, ids, st);
      var succ := Successes(links, fetch);
      && r.Finished?
      && r.state.posted == st.posted + Elements(succ)
      && r.state.index == (st.index + |succ|) % 2
      && |r.state.sent| == |st.sent| + |succ|
      && r.state.sent[..|st.sent|] == st.sent
  {
    PublishRotates(links, fetch, ids, st);
    FlippedParity(st.index, |Successes(links, fetch)|);
  }

  /**
   * Post `k` of the loop is for the `k`-th link whose details were found,
   * credits ID `(index + k) mod 2`, and its buy link is that product's URL
   * tagged with that ID.
   */
  lemma PublishPostsInOrder(links: seq<string>, fetch: string -> Option<ProductDetails>, ids: TrackingIds, st: PublishState, k: nat)
    requires st.index == 0 || st.index == 1
    requires k < |Successes(links, fetch)|
    ensures var r := PublishAll(links, fetch, ids, st);
      var succ := Successes(links, fetch);
      && |st.sent| + k < |r.state.sent|
      && fetch(succ[k]) == Some(r.state.sent[|st.sent| + k].details)
      && r.state.sent[|st.sent| + k].trackingId == (if (st.index + k) % 2 == 0 then ids.first else ids.second)
      && r.state.sent[|st.sent| + k].buyLink == r.state.sent[|st.sent| + k].details.url + "/?tag=" + r.state.sent[|st.sent| + k].trackingId
  {
    var r := PublishAll(links, fetch, ids, st);
    var succ, found := Successes(links, fetch), Found(links, fetch);
    var expected := ExpectedPosts(found, ids, st.index);
    assert r.state.sent == st.sent + expected by {
      PublishRotates(links, fetch, ids, st);
    }
    var p := expected[k];
    assert p == ExpectedPost(found[k], ids, st.index, k);
    assert r.state.sent[|st.sent| + k] == p;
    FoundInOrder(links, fetch, k);
  }

  /** A link whose details are not found changes nothing. */
  lemma PublishSkips(links: seq<string>, fetch: string -> Option<ProductDetails>, ids: TrackingIds, st: PublishState)
    requires links != [] && fetch(links[0]).None?
    ensures PublishAll(links, fetch, ids, st) == PublishAll(links[1..], fetch, ids, st)
    ensures Predicted(links, fetch, ids, st) == Predicted(links[1..], fetch, ids, st)
  {
    assert Successes(links, fetch) == Successes(links[1..], fetch);
    assert Found(links, fetch) == Found(links[1..], fetch);
  }

  /** A link whose details are found is posted with the valid index's ID, which then flips. */
  lemma PublishPosts(links: seq<string>, fetch: string -> Option<ProductDetails>, ids: TrackingIds, st: PublishState)
    requires links != [] && fetch(links[0]).Some?
    requires st.index == 0 || st.index == 1
    ensures var d := fetch(links[0]).value;
      var st' := PublishState(st.posted + {links[0]}, 1 - st.index, st.sent + [ExpectedPost(d, ids, st.index, 0)]);
      PublishAll(links, fetch, ids, st) == PublishAll(links[1..], fetch, ids, st')
  {
  }

  /** The reference outcome after one post, from the flipped index, is the reference outcome from the current one. */
  lemma PredictedStep(links: seq<string>, fetch: string -> Option<ProductDetails>, ids: TrackingIds, st: PublishState)
    requires links != [] && fetch(links[0]).Some?
    requires st.index == 0 || st.index == 1
    ensures var d := fetch(links[0]).value;
      var st' := PublishState(st.posted + {links[0]}, 1 - st.index, st.sent + [ExpectedPost(d, ids, st.index, 0)]);
      Predicted(links[1..], fetch, ids, st') == Predicted(links, fetch, ids, st)
  {
    var link, rest := links[0], links[1..];
    var d := fetch(link).value;
    var succRest, foundRest := Successes(rest, fetch), Found(rest, fetch);
    assert Successes(links, fetch) == [link] + succRest;
    assert Found(links, fetch) == [d] + foundRest;
    PostedStep(st.posted, link, succRest);
    SentStep(st.sent, d, foundRest, ids, st.index);
  }

  lemma PostedStep(posted: set<string>, link: string, succRest: seq<string>)
    ensures posted + {link} + Elements(succRest) == posted + Elements([link] + succRest)
  {
    assert Elements([link] + succRest) == {link} + Elements(succRest);
  }

  lemma SentStep(sent: seq<Post>, d: ProductDetails, foundRest: seq<ProductDetails>, ids: TrackingIds, index: int)
    requires index == 0 || index == 1
    ensures sent + [ExpectedPost(d, ids, index, 0)] + ExpectedPosts(foundRest, ids, 1 - index)
         == sent + ExpectedPosts([d] + foundRest, ids, index)
  {
    ExpectedPostsShift(d, foundRest, ids, index);
  }

  /**
   * With an index outside -2 .. 1 the loop raises at the first link whose
   * details were found, before posting anything; with no such link it
   * finishes untouched.
   */
  lemma {:induction false} PublishBadIndex(links: seq<string>, fetch: string -> Option<ProductDetails>, ids: TrackingIds, st: PublishState)
    requires ActiveId(ids, st.index).None?
    ensures PublishAll(links, fetch, ids, st) == if Successes(links, fetch) == [] then Finished(st) else IndexError(st)
    decreases |links|
  {
    if links != [] {
      PublishBadIndex(links[1..], fetch, ids, st);
    }
  }

  /** The links whose details were found are exactly the members of `links` that `fetch` accepts. */
  lemma {:induction false} SuccessesElements(links: seq<string>, fetch: string -> Option<ProductDetails>)
    ensures Elements(Successes(links, fetch)) == set u | u in links && fetch(u).Some?
    decreases |links|
  {
    if links != [] {
      var rest := links[1..];
      SuccessesElements(rest, fetch);
      assert forall u :: u in links <==> u == links[0] || u in rest;
      if fetch(links[0]).Some? {
        assert Elements([links[0]] + Successes(rest, fetch)) == {links[0]} + Elements(Successes(rest, fetch));
      }
    }
  }

  /** Filtering keeps a list free of repeats. */
  lemma {:induction false} SuccessesDistinct(links: seq<string>, fetch: string -> Option<ProductDetails>)
    requires Distinct(links)
    ensures Distinct(Successes(links, fetch))
    decreases |links|
  {
    if links != [] {
      var rest := links[1..];
      assert Distinct(rest) by {
        forall i, j | 0 <= i < j < |rest|
          ensures rest[i] != rest[j]
        {
          assert rest[i] == links[i + 1] && rest[j] == links[j + 1];
        }
      }
      SuccessesDistinct(rest, fetch);
      if fetch(links[0]).Some? {
        var tail := Successes(rest, fetch);
        assert links[0] !in rest by {
          forall j | 0 <= j < |rest|
            ensures rest[j] != links[0]
          {
            assert rest[j] == links[j + 1];
          }
        }
        var all := [links[0]] + tail;
        forall i, j | 0 <= i < j < |all|
          ensures all[i] != all[j]
        {
          if i == 0 {
            assert all[j] == tail[j - 1] && tail[j - 1] in rest;
          } else {
            assert all[i] == tail[i - 1] && all[j] == tail[j - 1];
          }
        }
      }
    }
  }

  /**
   * A negative stored index selects an ID once (Python counts it from the
   * end of the list), but `1 - index` then leaves the list, so the second
   * product found raises `IndexError` after one post.
   */
  lemma {:induction false} PublishNegativeIndex(links: seq<string>, fetch: string -> Option<ProductDetails>, ids: TrackingIds, st: PublishState)
    requires st.index == -1 || st.index == -2
    requires |Successes(links, fetch)| >= 2
    ensures PublishAll(links, fetch, ids, st).IndexError?
    ensures |PublishAll(links, fetch, ids, st).state.sent| == |st.sent| + 1
    ensures var first := fetch(Successes(links, fetch)[0]);
      var id := if st.index == -2 then ids.first else ids.second;
      && first.Some?
      && PublishAll(links, fetch, ids, st).state.sent == st.sent + [Post(first.value, id, first.value.url + "/?tag=" + id)]
    decreases |links|
  {
    var rest := links[1..];
    if fetch(links[0]).None? {
      assert Successes(links, fetch) == Successes(rest, fetch);
      PublishNegativeIndex(rest, fetch, ids, st);
    } else {
      assert Successes(links, fetch)[0] == links[0];
      var d := fetch(links[0]).value;
      var id := ActiveId(ids, st.index).value;
      var st' := PublishState(st.posted + {links[0]}, 1 - st.index, st.sent + [Post(d, id, BuyLink(d.url, id))]);
      assert PublishAll(links, fetch, ids, st) == PublishAll(rest, fetch, ids, st');
      PublishBadIndex(rest, fetch, ids, st');
    }
  }

  /** When no link's details are found, the loop finishes without changing anything, whatever the index. */
  lemma {:induction false} PublishNothingFound(links: seq<string>, fetch: string -> Option<ProductDetails>, ids: TrackingIds, st: PublishState)
    requires Successes(links, fetch) == []
    ensures PublishAll(links, fetch, ids, st) == Finished(st)
    decreases |links|
  {
    if links != [] {
      PublishNothingFound(links[1..], fetch, ids, st);
    }
  }

  /**
   * A negative stored index with exactly one product found: that product
   * is posted, and the loop finishes with index `1 - index`, which is 2 or
   * 3 and so outside the list.
   */
  lemma {:induction false} PublishNegativeSingle(links: seq<string>, fetch: string -> Option<ProductDetails>, ids: TrackingIds, st: PublishState)
    requires st.index == -1 || st.index == -2
    requires |Successes(links, fetch)| == 1
    ensures var r := PublishAll(links, fetch, ids, st);
      && r.Finished?
      && r.state.posted == st.posted + Elements(Successes(links, fetch))
      && r.state.index == 1 - st.index
      && |r.state.sent| == |st.sent| + 1
    ensures var first := fetch(Successes(links, fetch)[0]);
      var id := if st.index == -2 then ids.first else ids.second;
      && first.Some?
      && PublishAll(links, fetch, ids, st).state.sent == st.sent + [Post(first.value, id, first.value.url + "/?tag=" + id)]
    decreases |links|
  {
    var rest := links[1..];
    if fetch(links[0]).None? {
      assert Successes(links, fetch) == Successes(rest, fetch);
      PublishNegativeSingle(rest, fetch, ids, st);
    } else {
      var d := fetch(links[0]).value;
      var id := ActiveId(ids, st.index).value;
      var st' := PublishState(st.posted + {links[0]}, 1 - st.index, st.sent + [Post(d, id, BuyLink(d.url, id))]);
      assert Successes(links, fetch) == [links[0]] + Successes(rest, fetch);
      assert PublishAll(links, fetch, ids, st) == PublishAll(rest, fetch, ids, st');
      PublishNothingFound(rest, fetch, ids, st');
      assert Elements(Successes(links, fetch)) == {links[0]};
    }
  }

  /**
   * When fetching keeps each link's own URL in its details, every post is
   * for one of the links, and no link is posted twice.
   */
  lemma {:induction false} SentUrls(links: seq<string>, fetch: string -> Option<ProductDetails>, ids: TrackingIds, st: PublishState)
    requires Distinct(links)
    requires forall u :: fetch(u).Some? ==> fetch(u).value.url == u
    requires st.sent == []
    ensures var sent := PublishAll(links, fetch, ids, st).state.sent;
      && (forall p <- sent :: p.details.url in links)
      && (forall i, j :: 0 <= i < j < |sent| ==> sent[i].details.url != sent[j].details.url)
  {
    var sent := PublishAll(links, fetch, ids, st).state.sent;
    SentIsPrefix(links, fetch, ids, st);
    var succ := Successes(links, fetch);
    SuccessesDistinct(links, fetch);
    assert forall k :: 0 <= k < |sent| ==> sent[k].details.url == succ[k];
  }

  /**
   * The posts the loop sends, whatever the index, are a prefix of one post
   * per found link, each carrying that link's details.
   */
  lemma {:induction false} SentIsPrefix(links: seq<string>, fetch: string -> Option<ProductDetails>, ids: TrackingIds, st: PublishState)
    requires forall u :: fetch(u).Some? ==> fetch(u).value.url == u
    ensures var sent := PublishAll(links, fetch, ids, st).state.sent;
      var succ := Successes(links, fetch);
      && |st.sent| <= |sent| <= |st.sent| + |succ|
      && forall k :: |st.sent| <= k < |sent| ==> sent[k].details.url == succ[k - |st.sent|]
    decreases |links|
  {
    if links != [] {
      var rest := links[1..];
      match fetch(links[0])
      case None =>
        SentIsPrefix(rest, fetch, ids, st);
      case Some(d) =>
        match ActiveId(ids, st.index)
        case None =>
        case Some(id) =>
          var st' := PublishState(st.posted + {links[0]}, 1 - st.index, st.sent + [Post(d, id, BuyLink(d.url, id))]);
          SentIsPrefix(rest, fetch, ids, st');
          var sent := PublishAll(rest, fetch, ids, st').state.sent;
          var succ := Successes(links, fetch);
          assert succ == [links[0]] + Successes(rest, fetch);
          forall k | |st.sent| <= k < |sent|
            ensures sent[k].details.url == succ[k - |st.sent|]
          {
            if k == |st.sent| {
              assert sent[k] == st'.sent[k];
            }
          }
    }
  }

  /** Two products found from index 0: the first credits the first ID, the second the second, and the index ends back at 0. */
  lemma ExampleTwoPosts(a: string, b: string, fetch: string -> Option<ProductDetails>, ids: TrackingIds)
    requires fetch(a).Some? && fetch(b).Some?
    ensures var r := PublishAll([a, b], fetch, ids, PublishState({}, 0, []));
      && r == Finished(r.state)
      && r.state.index == 0
      && r.state.posted == {a, b}
      && |r.state.sent| == 2
      && r.state.sent[0].trackingId == ids.first && r.state.sent[0].buyLink == fetch(a).value.url + "/?tag=" + ids.first
      && r.state.sent[1].trackingId == ids.second && r.state.sent[1].buyLink == fetch(b).value.url + "/?tag=" + ids.second
  {
    var st := PublishState({}, 0, []);
    PublishRotates([a, b], fetch, ids, st);
    assert [a, b][1..] == [b] && [b][1..] == [];
    var succ := Successes([a, b], fetch);
    assert succ == [a, b];
    assert Elements(succ) == {a, b};
    assert Found([a, b], fetch) == [fetch(a).value, fetch(b).value];
    assert Flipped(0, 2) == Flipped(1, 1) == Flipped(0, 0) == 0;
  }
}
