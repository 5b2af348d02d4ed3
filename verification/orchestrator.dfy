/**
 * One run of `main`: load the memory file, scan the dialogs for new
 * canonical product links, publish them with alternating tracking IDs and
 * save the memory, unless the publishing loop raised.
 *
 * Everything outside the process is a parameter: the memory file as it is
 * found, the dialogs the client lists, the 24-hour cutoff, the redirect
 * resolver and the product pages the network returns.
 */
module Orchestrator {
  import opened Wrappers
  import opened Strings
  import opened DialogScanner
  import opened ProductFetcher
  import opened MemoryStore
  import opened Publisher

  /** The fetch step of the loop: the details `fetch_product_details` extracts from the page for `link`. */
  function FetchWith(pages: string -> Option<PageScrape>): string -> Option<ProductDetails> {
    link => FetchDetails(link, pages(link))
  }

  /** Details fetched through a page are for the link that was asked for. */
  lemma FetchWithKeepsUrl(pages: string -> Option<PageScrape>)
    ensures forall u :: FetchWith(pages)(u).Some? ==> FetchWith(pages)(u).value.url == u
  {
    forall u | FetchWith(pages)(u).Some?
      ensures FetchWith(pages)(u).value.url == u
    {
      assert FetchWith(pages)(u) == FetchDetails(u, pages(u));
    }
  }

  /** The new links of a run whose product details were found: the ones that get posted. */
  function Publishable(candidates: set<string>, pages: string -> Option<PageScrape>): set<string> {
    set u | u in candidates && FetchDetails(u, pages(u)).Some?
  }

  /**
   * `main` after the configuration check. Returns the memory file as the
   * run leaves it and the posts it sent.
   */
  method Run(file: StoredFile, dialogs: seq<Dialog>, cutoff: int, resolve: string -> Option<string>,
             pages: string -> Option<PageScrape>, ids: TrackingIds)
    returns (saved: StoredFile, sent: seq<Post>)
    ensures var m := Load(file);
      var candidates := Scan(dialogs, cutoff, resolve, m.links);
      && (forall p <- sent :: p.details.url in candidates && p.details.url !in m.links)
      && (forall i, j :: 0 <= i < j < |sent| ==> sent[i].details.url != sent[j].details.url)
      && |sent| <= |Publishable(candidates, pages)|
    ensures var m := Load(file);
      var published := Publishable(Scan(dialogs, cutoff, resolve, m.links), pages);
      (m.lastIndex == 0 || m.lastIndex == 1) ==>
        && saved.Stored?
        && Load(saved) == Memory(m.links + published, (m.lastIndex + |published|) % 2)
        && |sent| == |published|
    ensures var m := Load(file);
      var published := Publishable(Scan(dialogs, cutoff, resolve, m.links), pages);
      ActiveId(ids, m.lastIndex).None? ==>
        && sent == []
        && (published == {} ==> saved.Stored? && Load(saved) == m)
        && (published != {} ==> saved == file)
    ensures var m := Load(file);
      var published := Publishable(Scan(dialogs, cutoff, resolve, m.links), pages);
      (m.lastIndex == -1 || m.lastIndex == -2) ==>
        && |sent| == (if published == {} then 0 else 1)
        && (published == {} ==> saved.Stored? && Load(saved) == m)
        && (|published| == 1 ==> saved.Stored? && Load(saved) == Memory(m.links + published, 1 - m.lastIndex))
        && (|published| >= 2 ==> saved == file)
  {
    var memory := Load(file);
    var candidates := Scan(dialogs, cutoff, resolve, memory.links);
    var newLinks := Enumerate(candidates);
    var outcome := PublishAll(newLinks, FetchWith(pages), ids, PublishState(memory.links, memory.lastIndex, []));
    saved := Persist(file, outcome);
    sent := outcome.state.sent;
    RunSendsNew(file, dialogs, cutoff, resolve, pages, ids, newLinks, saved, sent);
    RunSavesRotation(file, dialogs, cutoff, resolve, pages, ids, newLinks, saved, sent);
    RunRejectedIndex(file, dialogs, cutoff, resolve, pages, ids, newLinks, saved, sent);
    RunNegativeIndex(file, dialogs, cutoff, resolve, pages, ids, newLinks, saved, sent);
  }

  /**
   * The end of `main`: the memory is saved when the loop finished, and the
   * file is left as it was when the loop raised before reaching the save.
   */
  method Persist(file: StoredFile, outcome: Outcome) returns (saved: StoredFile)
    ensures outcome.IndexError? ==> saved == file
    ensures outcome.Finished? ==> saved.Stored? && Load(saved) == Memory(outcome.state.posted, outcome.state.index)
  {
    match outcome {
      case IndexError(_) =>
        saved := file;
      case Finished(st) =>
        var doc := Save(st.posted, st.index);
        saved := Stored(doc);
    }
  }

  /** What the publishing loop of a run does with the enumerated new links. */
  lemma RunFacts(memory: Memory, candidates: set<string>, newLinks: seq<string>,
                 pages: string -> Option<PageScrape>, ids: TrackingIds)
    requires Elements(newLinks) == candidates && Distinct(newLinks)
    requires candidates !! memory.links
    ensures var outcome := PublishAll(newLinks, FetchWith(pages), ids, PublishState(memory.links, memory.lastIndex, []));
      var published := Publishable(candidates, pages);
      && (forall p <- outcome.state.sent :: p.details.url in candidates && p.details.url !in memory.links)
      && (forall i, j :: 0 <= i < j < |outcome.state.sent| ==> outcome.state.sent[i].details.url != outcome.state.sent[j].details.url)
      && |outcome.state.sent| <= |published|
      && ((memory.lastIndex == 0 || memory.lastIndex == 1) ==>
            outcome == Finished(PublishState(memory.links + published, (memory.lastIndex + |published|) % 2, outcome.state.sent))
            && |outcome.state.sent| == |published|)
      && (ActiveId(ids, memory.lastIndex).None? ==>
            outcome == (if published == {} then Finished(PublishState(memory.links, memory.lastIndex, [])) else IndexError(PublishState(memory.links, memory.lastIndex, []))))
      && ((memory.lastIndex == -1 || memory.lastIndex == -2) ==>
            && (published == {} ==> outcome == Finished(PublishState(memory.links, memory.lastIndex, [])))
            && (|published| == 1 ==>
                  && outcome.Finished?
                  && outcome.state.posted == memory.links + published
                  && outcome.state.index == 1 - memory.lastIndex
                  && |outcome.state.sent| == 1)
            && (|published| >= 2 ==> outcome.IndexError? && |outcome.state.sent| == 1))
  {
    var fetch := FetchWith(pages);
    var start := PublishState(memory.links, memory.lastIndex, []);
    var outcome := PublishAll(newLinks, fetch, ids, start);
    var succ := Successes(newLinks, fetch);
    var published := Publishable(candidates, pages);
    assert Elements(succ) == published by {
      SuccessesElements(newLinks, fetch);
    }
    SuccessesDistinct(newLinks, fetch);
    DistinctCardinality(succ);
    assert |succ| == |published|;
    FetchWithKeepsUrl(pages);
    SentUrls(newLinks, fetch, ids, start);
    SentIsPrefix(newLinks, fetch, ids, start);
    if memory.lastIndex == 0 || memory.lastIndex == 1 {
      PublishAlternates(newLinks, fetch, ids, start);
    }
    if ActiveId(ids, memory.lastIndex).None? {
      PublishBadIndex(newLinks, fetch, ids, start);
      assert succ == [] <==> published == {};
    }
    if memory.lastIndex == -1 || memory.lastIndex == -2 {
      assert succ == [] <==> published == {};
      if succ == [] {
        PublishNothingFound(newLinks, fetch, ids, start);
      } else if |succ| == 1 {
        PublishNegativeSingle(newLinks, fetch, ids, start);
      } else {
        PublishNegativeIndex(newLinks, fetch, ids, start);
      }
    }
  }

  /** Every post of a run is for a new candidate, none repeats, and there are no more posts than publishable links. */
  lemma RunSendsNew(file: StoredFile, dialogs: seq<Dialog>, cutoff: int, resolve: string -> Option<string>,
                    pages: string -> Option<PageScrape>, ids: TrackingIds, newLinks: seq<string>,
                    saved: StoredFile, sent: seq<Post>)
    requires Elements(newLinks) == Scan(dialogs, cutoff, resolve, Load(file).links) && Distinct(newLinks)
    requires var m := Load(file);
      var outcome := PublishAll(newLinks, FetchWith(pages), ids, PublishState(m.links, m.lastIndex, []));
      && sent == outcome.state.sent
      && (outcome.IndexError? ==> saved == file)
      && (outcome.Finished? ==> saved.Stored? && Load(saved) == Memory(outcome.state.posted, outcome.state.index))
    ensures var m := Load(file);
      var candidates := Scan(dialogs, cutoff, resolve, m.links);
      && (forall p <- sent :: p.details.url in candidates && p.details.url !in m.links)
      && (forall i, j :: 0 <= i < j < |sent| ==> sent[i].details.url != sent[j].details.url)
      && |sent| <= |Publishable(candidates, pages)|
  {
    var memory := Load(file);
    RunFacts(memory, Scan(dialogs, cutoff, resolve, memory.links), newLinks, pages, ids);
  }

  /** From a valid stored index a run saves every publishable link and the index after one toggle per post. */
  lemma RunSavesRotation(file: StoredFile, dialogs: seq<Dialog>, cutoff: int, resolve: string -> Option<string>,
                         pages: string -> Option<PageScrape>, ids: TrackingIds, newLinks: seq<string>,
                         saved: StoredFile, sent: seq<Post>)
    requires Elements(newLinks) == Scan(dialogs, cutoff, resolve, Load(file).links) && Distinct(newLinks)
    requires var m := Load(file);
      var outcome := PublishAll(newLinks, FetchWith(pages), ids, PublishState(m.links, m.lastIndex, []));
      && sent == outcome.state.sent
      && (outcome.IndexError? ==> saved == file)
      && (outcome.Finished? ==> saved.Stored? && Load(saved) == Memory(outcome.state.posted, outcome.state.index))
    ensures var m := Load(file);
      var published := Publishable(Scan(dialogs, cutoff, resolve, m.links), pages);
      (m.lastIndex == 0 || m.lastIndex == 1) ==>
        && saved.Stored?
        && Load(saved) == Memory(m.links + published, (m.lastIndex + |published|) % 2)
        && |sent| == |published|
  {
    var memory := Load(file);
    RunFacts(memory, Scan(dialogs, cutoff, resolve, memory.links), newLinks, pages, ids);
  }

  /** From a stored index Python rejects a run sends nothing, and leaves the file as it was once anything is publishable. */
  lemma RunRejectedIndex(file: StoredFile, dialogs: seq<Dialog>, cutoff: int, resolve: string -> Option<string>,
                         pages: string -> Option<PageScrape>, ids: TrackingIds, newLinks: seq<string>,
                         saved: StoredFile, sent: seq<Post>)
    requires Elements(newLinks) == Scan(dialogs, cutoff, resolve, Load(file).links) && Distinct(newLinks)
    requires var m := Load(file);
      var outcome := PublishAll(newLinks, FetchWith(pages), ids, PublishState(m.links, m.lastIndex, []));
      && sent == outcome.state.sent
      && (outcome.IndexError? ==> saved == file)
      && (outcome.Finished? ==> saved.Stored? && Load(saved) == Memory(outcome.state.posted, outcome.state.index))
    ensures var m := Load(file);
      var published := Publishable(Scan(dialogs, cutoff, resolve, m.links), pages);
      ActiveId(ids, m.lastIndex).None? ==>
        && sent == []
        && (published == {} ==> saved.Stored? && Load(saved) == m)
        && (published != {} ==> saved == file)
  {
    var memory := Load(file);
    RunFacts(memory, Scan(dialogs, cutoff, resolve, memory.links), newLinks, pages, ids);
  }

  /** From a stored index of -1 or -2 a run sends at most one post, and saves only when at most one link is publishable. */
  lemma RunNegativeIndex(file: StoredFile, dialogs: seq<Dialog>, cutoff: int, resolve: string -> Option<string>,
                         pages: string -> Option<PageScrape>, ids: TrackingIds, newLinks: seq<string>,
                         saved: StoredFile, sent: seq<Post>)
    requires Elements(newLinks) == Scan(dialogs, cutoff, resolve, Load(file).links) && Distinct(newLinks)
    requires var m := Load(file);
      var outcome := PublishAll(newLinks, FetchWith(pages), ids, PublishState(m.links, m.lastIndex, []));
      && sent == outcome.state.sent
      && (outcome.IndexError? ==> saved == file)
      && (outcome.Finished? ==> saved.Stored? && Load(saved) == Memory(outcome.state.posted, outcome.state.index))
    ensures var m := Load(file);
      var published := Publishable(Scan(dialogs, cutoff, resolve, m.links), pages);
      (m.lastIndex == -1 || m.lastIndex == -2) ==>
        && |sent| == (if published == {} then 0 else 1)
        && (published == {} ==> saved.Stored? && Load(saved) == m)
        && (|published| == 1 ==> saved.Stored? && Load(saved) == Memory(m.links + published, 1 - m.lastIndex))
        && (|published| >= 2 ==> saved == file)
  {
    var memory := Load(file);
    RunFacts(memory, Scan(dialogs, cutoff, resolve, memory.links), newLinks, pages, ids);
  }
}
