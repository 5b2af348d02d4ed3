/**
 * The candidate filter of `scan_and_process_links`.
 *
 * Only group and channel dialogs are read; each is read newest first, at most
 * `MessageLimit` messages, and reading stops at the first message older than
 * the cutoff. Every link found in a message's text that mentions `amazon` or
 * `amzn` is resolved (an uninterpreted resolver stands for the HTTP redirect
 * chase) and canonicalised; canonical links not yet posted are collected in a
 * set. `IsCandidate` says the same thing declaratively and `ScanExactly`
 * proves the two agree.
 */
module DialogScanner {
  import opened Wrappers
  import opened Strings
  import opened AmazonUrl
  import opened LinkExtractor

  /** A message: when it was sent and its text (empty when it has none). */
  datatype Message = Message(date: int, text: string)

  /** A dialog: the client's `is_group` and `is_channel` flags and its messages, newest first. */
  datatype Dialog = Dialog(isGroup: bool, isChannel: bool, messages: seq<Message>)

  /** The history limit passed to `iter_messages`. */
  const MessageLimit: nat := 200

  /** The link is one the scanner bothers to resolve. */
  predicate MentionsAmazon(link: string) {
    Contains(link, "amazon") || Contains(link, "amzn")
  }

  /** Follows the link and canonicalises where it leads; an empty or failed resolution yields nothing. */
  function CanonicalTarget(resolve: string -> Option<string>, link: string): Option<string> {
    match resolve(link)
    case None => None
    case Some(res) => if res == "" then None else CleanAmazonUrl(res)
  }

  /** The new canonical links reached from the raw links of one message. */
  function LinksFrom(links: seq<string>, resolve: string -> Option<string>, posted: set<string>): (r: set<string>)
    ensures r !! posted
    decreases |links|
  {
    if links == [] then {}
    else
      var rest := LinksFrom(links[1..], resolve, posted);
      if !MentionsAmazon(links[0]) then rest
      else match CanonicalTarget(resolve, links[0])
        case Some(clean) => if clean in posted then rest else {clean} + rest
        case None => rest
  }

  /** What one message contributes; a message without text contributes nothing. */
  function LinksOfMessage(m: Message, resolve: string -> Option<string>, posted: set<string>): (r: set<string>)
    ensures r !! posted
  {
    if m.text == "" then {} else LinksFrom(FindLinks(m.text), resolve, posted)
  }

  /** Reads messages newest first and stops at the first one older than `cutoff`. */
  function ScanMessages(msgs: seq<Message>, cutoff: int, resolve: string -> Option<string>, posted: set<string>): (r: set<string>)
    ensures r !! posted
    decreases |msgs|
  {
    if msgs == [] then {}
    else if msgs[0].date < cutoff then {}
    else LinksOfMessage(msgs[0], resolve, posted) + ScanMessages(msgs[1..], cutoff, resolve, posted)
  }

  /** The messages `iter_messages(..., limit=200)` yields. */
  function Recent(msgs: seq<Message>): seq<Message> {
    if |msgs| <= MessageLimit then msgs else msgs[..MessageLimit]
  }

  /** What one dialog contributes: nothing unless it is a group or a channel. */
  function ScanDialog(d: Dialog, cutoff: int, resolve: string -> Option<string>, posted: set<string>): (r: set<string>)
    ensures r !! posted
  {
    if d.isGroup || d.isChannel then ScanMessages(Recent(d.messages), cutoff, resolve, posted) else {}
  }

  /** `scan_and_process_links`, its result taken as the set it is built as. */
  function Scan(dialogs: seq<Dialog>, cutoff: int, resolve: string -> Option<string>, posted: set<string>): (r: set<string>)
    ensures r !! posted
    decreases |dialogs|
  {
    if dialogs == [] then {}
    else ScanDialog(dialogs[0], cutoff, resolve, posted) + Scan(dialogs[1..], cutoff, resolve, posted)
  }

  // ---------------------------------------------------------------------------
  // The declarative description

  /** Some raw link in the text mentions Amazon and canonicalises to `u`. */
  ghost predicate FromText(text: string, resolve: string -> Option<string>, u: string) {
    text != "" && exists link :: link in FindLinks(text) && MentionsAmazon(link) && CanonicalTarget(resolve, link) == Some(u)
  }

  /**
   * Message `n` of the dialog is read: the dialog is a group or channel, `n`
   * is within the history limit, and neither it nor any newer message is
   * older than the cutoff.
   */
  ghost predicate Examined(d: Dialog, n: nat, cutoff: int) {
    && (d.isGroup || d.isChannel)
    && n < |d.messages| && n < MessageLimit
    && forall m :: 0 <= m <= n ==> d.messages[m].date >= cutoff
  }

  /** Some examined message of some dialog leads to `u`. */
  ghost predicate IsCandidate(dialogs: seq<Dialog>, cutoff: int, resolve: string -> Option<string>, u: string) {
    exists k: nat, n: nat :: k < |dialogs| && Examined(dialogs[k], n, cutoff) && FromText(dialogs[k].messages[n].text, resolve, u)
  }

  lemma {:induction false} LinksFromExactly(links: seq<string>, resolve: string -> Option<string>, posted: set<string>, u: string)
    ensures u in LinksFrom(links, resolve, posted)
        <==> u !in posted && exists link :: link in links && MentionsAmazon(link) && CanonicalTarget(resolve, link) == Some(u)
    decreases |links|
  {
    if links != [] {
      LinksFromExactly(links[1..], resolve, posted, u);
      assert forall link :: link in links <==> link == links[0] || link in links[1..];
    }
  }

  /** Message `n` of `msgs` is read: no message up to it is older than the cutoff. */
  ghost predicate Reached(msgs: seq<Message>, n: nat, cutoff: int) {
    n < |msgs| && forall m :: 0 <= m <= n ==> msgs[m].date >= cutoff
  }

  /** Some read message of `msgs` leads to `u`. */
  ghost predicate ReachesLink(msgs: seq<Message>, cutoff: int, resolve: string -> Option<string>, u: string) {
    exists n: nat :: Reached(msgs, n, cutoff) && FromText(msgs[n].text, resolve, u)
  }

  /** Message `n + 1` is read exactly when the first one is and message `n` of the rest is. */
  lemma ReachedShift(msgs: seq<Message>, n: nat, cutoff: int)
    requires msgs != []
    ensures Reached(msgs, n + 1, cutoff) <==> msgs[0].date >= cutoff && Reached(msgs[1..], n, cutoff)
    ensures Reached(msgs, n + 1, cutoff) ==> msgs[n + 1] == msgs[1..][n]
  {
    if msgs[0].date >= cutoff && Reached(msgs[1..], n, cutoff) {
      forall m | 0 <= m <= n + 1
        ensures msgs[m].date >= cutoff
      {
        if m > 0 {
          assert msgs[m] == msgs[1..][m - 1];
        }
      }
    }
  }

  /** Reading a recent enough message, then the rest. */
  lemma ReachesLinkStep(msgs: seq<Message>, cutoff: int, resolve: string -> Option<string>, u: string)
    requires msgs != [] && msgs[0].date >= cutoff
    ensures ReachesLink(msgs, cutoff, resolve, u)
        <==> FromText(msgs[0].text, resolve, u) || ReachesLink(msgs[1..], cutoff, resolve, u)
  {
    if ReachesLink(msgs[1..], cutoff, resolve, u) {
      var n: nat :| Reached(msgs[1..], n, cutoff) && FromText(msgs[1..][n].text, resolve, u);
      ReachedShift(msgs, n, cutoff);
    }
    if FromText(msgs[0].text, resolve, u) {
      assert Reached(msgs, 0, cutoff);
    }
    if ReachesLink(msgs, cutoff, resolve, u) {
      var n: nat :| Reached(msgs, n, cutoff) && FromText(msgs[n].text, resolve, u);
      if n > 0 {
        ReachedShift(msgs, n - 1, cutoff);
      }
    }
  }

  /** Nothing is read past a message older than the cutoff. */
  lemma ReachesLinkStop(msgs: seq<Message>, cutoff: int, resolve: string -> Option<string>, u: string)
    requires msgs == [] || msgs[0].date < cutoff
    ensures !ReachesLink(msgs, cutoff, resolve, u)
  {
    forall n: nat | n < |msgs|
      ensures !Reached(msgs, n, cutoff)
    {
      assert msgs[0].date < cutoff;
    }
  }

  lemma {:induction false} ScanMessagesExactly(msgs: seq<Message>, cutoff: int, resolve: string -> Option<string>, posted: set<string>, u: string)
    ensures u in ScanMessages(msgs, cutoff, resolve, posted) <==> u !in posted && ReachesLink(msgs, cutoff, resolve, u)
    decreases |msgs|
  {
    if msgs != [] && msgs[0].date >= cutoff {
      ScanMessagesExactly(msgs[1..], cutoff, resolve, posted, u);
      if msgs[0].text != "" {
        LinksFromExactly(FindLinks(msgs[0].text), resolve, posted, u);
      }
      ReachesLinkStep(msgs, cutoff, resolve, u);
    } else {
      ReachesLinkStop(msgs, cutoff, resolve, u);
    }
  }

  lemma RecentIndex(msgs: seq<Message>, n: nat)
    ensures n < |Recent(msgs)| <==> n < |msgs| && n < MessageLimit
    ensures n < |Recent(msgs)| ==> Recent(msgs)[n] == msgs[n]
  {
  }

  lemma ScanDialogExactly(d: Dialog, cutoff: int, resolve: string -> Option<string>, posted: set<string>, u: string)
    ensures u in ScanDialog(d, cutoff, resolve, posted)
        <==> u !in posted && exists n: nat :: Examined(d, n, cutoff) && FromText(d.messages[n].text, resolve, u)
  {
    if d.isGroup || d.isChannel {
      var msgs := Recent(d.messages);
      ScanMessagesExactly(msgs, cutoff, resolve, posted, u);
      assert ReachesLink(msgs, cutoff, resolve, u) <==> exists n: nat :: Reached(msgs, n, cutoff) && FromText(msgs[n].text, resolve, u);
      forall n: nat
        ensures Reached(msgs, n, cutoff) <==> Examined(d, n, cutoff)
        ensures Reached(msgs, n, cutoff) ==> msgs[n] == d.messages[n]
      {
        RecentIndex(d.messages, n);
        if n < |msgs| {
          forall m | 0 <= m <= n
            ensures msgs[m] == d.messages[m]
          {
            RecentIndex(d.messages, m);
          }
        }
      }
    }
  }

  /** A candidate comes from the first dialog or from one of the others. */
  lemma IsCandidateStep(dialogs: seq<Dialog>, cutoff: int, resolve: string -> Option<string>, u: string)
    requires dialogs != []
    ensures IsCandidate(dialogs, cutoff, resolve, u)
        <==> ((exists n: nat :: Examined(dialogs[0], n, cutoff) && FromText(dialogs[0].messages[n].text, resolve, u))
              || IsCandidate(dialogs[1..], cutoff, resolve, u))
  {
    if IsCandidate(dialogs[1..], cutoff, resolve, u) {
      var k: nat, n: nat :| k < |dialogs[1..]| && Examined(dialogs[1..][k], n, cutoff)
        && FromText(dialogs[1..][k].messages[n].text, resolve, u);
      assert dialogs[k + 1] == dialogs[1..][k];
    }
    if IsCandidate(dialogs, cutoff, resolve, u) {
      var k: nat, n: nat :| k < |dialogs| && Examined(dialogs[k], n, cutoff)
        && FromText(dialogs[k].messages[n].text, resolve, u);
      if k > 0 {
        assert dialogs[1..][k - 1] == dialogs[k];
      }
    }
  }

  /**
   * The scan collects exactly the canonical targets of the Amazon-looking
   * links in examined messages of group and channel dialogs, minus what was
   * already posted.
   */
  lemma {:induction false} ScanExactly(dialogs: seq<Dialog>, cutoff: int, resolve: string -> Option<string>, posted: set<string>, u: string)
    ensures u in Scan(dialogs, cutoff, resolve, posted) <==> u !in posted && IsCandidate(dialogs, cutoff, resolve, u)
    decreases |dialogs|
  {
    if dialogs != [] {
      ScanExactly(dialogs[1..], cutoff, resolve, posted, u);
      ScanDialogExactly(dialogs[0], cutoff, resolve, posted, u);
      IsCandidateStep(dialogs, cutoff, resolve, u);
    }
  }

  /** A message older than the cutoff hides itself and everything older from the scan. */
  lemma {:induction false} StopsAtFirstOld(msgs: seq<Message>, n: nat, cutoff: int, resolve: string -> Option<string>, posted: set<string>)
    requires n < |msgs| && msgs[n].date < cutoff
    ensures ScanMessages(msgs, cutoff, resolve, posted) == ScanMessages(msgs[..n], cutoff, resolve, posted)
    decreases n
  {
    if n == 0 {
      assert msgs[..n] == [];
    } else if msgs[0].date < cutoff {
      assert msgs[..n][0] == msgs[0];
    } else {
      StopsAtFirstOld(msgs[1..], n - 1, cutoff, resolve, posted);
      assert msgs[..n][0] == msgs[0];
      assert msgs[..n][1..] == msgs[1..][..n - 1];
    }
  }

  /** Dialogs are scanned independently: one dialog's messages never affect another's contribution. */
  lemma {:induction false} ScanSplits(a: seq<Dialog>, b: seq<Dialog>, cutoff: int, resolve: string -> Option<string>, posted: set<string>)
    ensures Scan(a + b, cutoff, resolve, posted) == Scan(a, cutoff, resolve, posted) + Scan(b, cutoff, resolve, posted)
    decreases |a|
  {
    if a == [] {
      assert a + b == b;
    } else {
      var ab := a + b;
      assert ab[0] == a[0] && ab[1..] == a[1..] + b;
      ScanSplits(a[1..], b, cutoff, resolve, posted);
    }
  }

  /** A dialog with a single message contributes that message's links when it is read at all. */
  lemma ScanOneMessage(isGroup: bool, isChannel: bool, m: Message, cutoff: int, resolve: string -> Option<string>, posted: set<string>)
    ensures Scan([Dialog(isGroup, isChannel, [m])], cutoff, resolve, posted)
         == if (isGroup || isChannel) && m.date >= cutoff then LinksOfMessage(m, resolve, posted) else {}
  {
    var msgs := [m];
    var ds := [Dialog(isGroup, isChannel, msgs)];
    assert Recent(msgs) == msgs;
    assert msgs[1..] == [];
    assert ScanMessages(msgs, cutoff, resolve, posted)
        == if m.date >= cutoff then LinksOfMessage(m, resolve, posted) else {};
    assert ds[1..] == [];
    assert Scan(ds, cutoff, resolve, posted) == ScanDialog(ds[0], cutoff, resolve, posted);
  }

  /** A single raw link contributes its canonical target unless that was posted. */
  lemma LinksFromOne(link: string, resolve: string -> Option<string>, posted: set<string>)
    ensures LinksFrom([link], resolve, posted)
         == if MentionsAmazon(link) && CanonicalTarget(resolve, link).Some? && CanonicalTarget(resolve, link).value !in posted
            then {CanonicalTarget(resolve, link).value} else {}
  {
    assert [link][1..] == [];
  }

  /** The short link of the example mentions `amzn`. */
  lemma ExampleLinkMentionsAmazon()
    ensures MentionsAmazon("https://amzn.to/xyz")
  {
    assert StartsAt("https://amzn.to/xyz", 8, "amzn");
  }

  /** The example resolver leads the short link to the canonical product URL. */
  lemma ExampleTarget(resolve: string -> Option<string>)
    requires resolve("https://amzn.to/xyz") == Some("https://www.amazon.in/Some-Product/dp/B0TESTID99?ref=abc")
    ensures CanonicalTarget(resolve, "https://amzn.to/xyz") == Some("https://www.amazon.in/Some-Product/dp/B0TESTID99")
  {
    var res := resolve("https://amzn.to/xyz").value;
    ExampleQueryDropped();
    assert |res| > 0;
    assert CleanAmazonUrl(res) == Some("https://www.amazon.in/Some-Product/dp/B0TESTID99");
  }

  /**
   * One recent message `Check this out https://amzn.to/xyz` in a group, a
   * resolver that sends the short link to a product page with a query
   * string, and nothing posted yet: the scan yields the canonical product URL.
   */
  lemma ExampleScan(resolve: string -> Option<string>, cutoff: int, date: int)
    requires resolve("https://amzn.to/xyz") == Some("https://www.amazon.in/Some-Product/dp/B0TESTID99?ref=abc")
    requires date >= cutoff
    ensures Scan([Dialog(true, false, [Message(date, ExampleText)])], cutoff, resolve, {})
         == {"https://www.amazon.in/Some-Product/dp/B0TESTID99"}
  {
    ScanOneMessage(true, false, Message(date, ExampleText), cutoff, resolve, {});
    ExampleOneLink();
    LinksFromOne("https://amzn.to/xyz", resolve, {});
    ExampleLinkMentionsAmazon();
    ExampleTarget(resolve);
  }
}
