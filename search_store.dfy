/**
 * The persistent search store as the dispatcher sees it: four lookups, each returning a
 * list of `{filename, path}` records.  What a lookup matches (full-text ranking, LIKE
 * patterns) is the store's business, so each lookup is a given function.
 */
module SearchStore {

  /** A `{filename, path}` record; `path` identifies the file. */
  datatype SearchResult = SearchResult(filename: string, path: string)

  /** The store's lookups, as used by the dispatcher. */
  datatype Store = Store(
    byExtension: string -> seq<SearchResult>,
    byContent: string -> seq<SearchResult>,
    multiWords: seq<string> -> seq<SearchResult>,
    byPath: string -> seq<SearchResult>)

  /** One call into the store, with its argument. */
  datatype StoreCall =
    | ByExtension(extension: string)
    | ByContent(term: string)
    | MultiWords(words: seq<string>)
    | ByPath(pattern: string)

  /** What the store answers to a call. */
  function Perform(store: Store, call: StoreCall): seq<SearchResult> {
    match call
    case ByExtension(e) => store.byExtension(e)
    case ByContent(t) => store.byContent(t)
    case MultiWords(ws) => store.multiWords(ws)
    case ByPath(p) => store.byPath(p)
  }

  /** The set of paths in a result list. */
  function Paths(rs: seq<SearchResult>): set<string> {
    set r | r in rs :: r.path
  }
}
