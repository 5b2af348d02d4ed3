/**
 * The bot's memory file: `load_bot_memory` and `save_bot_memory`.
 *
 * The file is seen through what `json.load` returns for it. Only the JSON
 * shapes the loader distinguishes are kept: a list of links (the legacy
 * format), an object with optional `links` and `last_index` members, and
 * anything else. A file that does not exist and one that does not parse are
 * their own cases.
 */
module MemoryStore {
  import opened Wrappers
  import opened Strings

  /** The parsed document, reduced to the members the loader reads. */
  datatype Json =
    | JList(items: seq<string>)
    | JObject(links: Option<seq<string>>, lastIndex: Option<int>)
    | JOther

  /** The memory file as the loader finds it. */
  datatype StoredFile = Missing | Unparseable | Stored(doc: Json)

  /** The set of posted canonical links and the tracking-ID index to use next. */
  datatype Memory = Memory(links: set<string>, lastIndex: int)

  /** The links the document stores, when it stores any. */
  function StoredLinks(f: StoredFile): seq<string> {
    match f
    case Stored(JList(items)) => items
    case Stored(JObject(Some(items), _)) => items
    case _ => []
  }

  /**
   * `load_bot_memory`. It never fails: every link it returns is one the
   * document stores, and the index is 0 unless an object document states
   * one.
   */
  function Load(f: StoredFile): (m: Memory)
    ensures m.links == Elements(StoredLinks(f))
    ensures m.lastIndex != 0 ==> f.Stored? && f.doc.JObject? && f.doc.lastIndex == Some(m.lastIndex)
    ensures f.Stored? && f.doc.JObject? ==> m.lastIndex == f.doc.lastIndex.GetOr(0)
    ensures !f.Stored? ==> m == Memory({}, 0)
  {
    match f
    case Missing => Memory({}, 0)
    case Unparseable => Memory({}, 0)
    case Stored(doc) =>
      match doc
      case JList(items) => Memory(Elements(items), 0)
      case JObject(links, lastIndex) => Memory(Elements(links.GetOr([])), lastIndex.GetOr(0))
      case JOther => Memory({}, 0)
  }

  /** Python's `list(set)`: every member once, in an order the model leaves open. */
  method Enumerate(s: set<string>) returns (xs: seq<string>)
    ensures Elements(xs) == s
    ensures Distinct(xs)
    ensures |xs| == |s|
  {
    xs := [];
    var rest := s;
    while rest != {}
      invariant Elements(xs) + rest == s
      invariant Elements(xs) !! rest
      invariant Distinct(xs)
      invariant |xs| + |rest| == |s|
      decreases |rest|
    {
      var x :| x in rest;
      ElementsAppend(xs, x);
      xs := xs + [x];
      rest := rest - {x};
    }
  }

  /** `save_bot_memory`: the document it writes loads back to exactly what was saved. */
  method Save(links: set<string>, lastIndex: int) returns (doc: Json)
    ensures doc.JObject? && doc.links.Some? && doc.lastIndex == Some(lastIndex)
    ensures Distinct(doc.links.value) && |doc.links.value| == |links|
    ensures Load(Stored(doc)) == Memory(links, lastIndex)
  {
    var xs := Enumerate(links);
    doc := JObject(Some(xs), Some(lastIndex));
  }

  /** A legacy list file keeps its links and restarts the rotation at index 0. */
  lemma LoadLegacyList(items: seq<string>)
    ensures Load(Stored(JList(items))) == Memory(Elements(items), 0)
  {
  }

  /** An object without `last_index` starts the rotation at 0; without `links`, nothing counts as posted. */
  lemma LoadObjectDefaults(links: Option<seq<string>>, lastIndex: Option<int>)
    ensures Load(Stored(JObject(links, None))).lastIndex == 0
    ensures Load(Stored(JObject(None, lastIndex))).links == {}
  {
  }

  /** Whatever the loader was given, saving what it returned and loading again yields the same memory. */
  lemma LoadSaveLoad(f: StoredFile, xs: seq<string>)
    requires Elements(xs) == Load(f).links
    ensures Load(Stored(JObject(Some(xs), Some(Load(f).lastIndex)))) == Load(f)
  {
  }
}
