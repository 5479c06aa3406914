/**
 * The database search manager: the four lookups the dispatcher calls and the combined
 * path-and-content lookup.  What PostgreSQL matches (`to_tsquery`, `ts_rank`, `ILIKE`) is the
 * database's business, so the database is a given function from a query and its parameters
 * to the rows it returns, or `None` when executing it raised.  A query is identified by
 * which statement it is and by the text interpolated into it; the parameters are passed
 * separately, as the code passes them to `cursor.execute`.
 */
module DatabaseSearch {
  import opened Wrappers
  import opened PyStr
  import opened SearchStore
  import Selector

  /** A parameter bound to a `%s` placeholder: a text, or a list of texts (`= ANY(%s)`). */
  datatype Param = Text(text: string) | Texts(items: seq<string>)

  /** The statements the manager executes, with what is interpolated into their text. */
  datatype Sql =
    | ExtensionQuery
    | ContentQuery(tsquery: string)
    | FullTextQuery(tsquery: string)
    | FallbackQuery(conditions: string)
    | PathQuery
    | PathContentQuery(tsquery: string)

  /** The database: the `(filename, path)` rows a statement returns, or `None` when it raised. */
  type Db = (Sql, seq<Param>) -> Option<seq<SearchResult>>

  /** `to_tsquery('english', '<text>')` */
  function TsQuery(text: string): string {
    "to_tsquery('english', '" + text + "')"
  }

  /** `search_by_extension(extension)`: a failing query gives no results. */
  function SearchByExtension(db: Db, extension: string): seq<SearchResult> {
    db(ExtensionQuery, [Text(extension)]).GetOr([])
  }

  /** The full-text query text of a search term: its words joined by `' & '`. */
  function TsText(term: string): string {
    Join(Split(term), " & ")
  }

  /** The `ILIKE` pattern of a search term: the raw term between `%` wildcards. */
  function LikeTerm(term: string): (r: string)
    ensures |r| == |term| + 2 && r[0] == '%' && r[|r| - 1] == '%' && r[1..|r| - 1] == term
  {
    "%" + term + "%"
  }

  /** A blank term gives an empty full-text query. */
  lemma TsTextBlank(term: string)
    requires IsBlank(term)
    ensures TsText(term) == ""
  {
    SplitEmptyIffBlank(term);
  }

  /** A single word is its own full-text query. */
  lemma TsTextOneWord(w: string)
    requires IsWord(w)
    ensures TsText(w) == w
  {
    SplitWord(w);
  }

  /** Two words separated by a space are AND-ed. */
  lemma TsTextTwoWords(a: string, b: string)
    requires IsWord(a) && IsWord(b)
    ensures TsText(a + " " + b) == a + " & " + b
  {
    SplitTwoWords(a, b);
  }

  /** `search_by_content(search_term)` */
  function SearchByContent(db: Db, term: string): seq<SearchResult> {
    var like := LikeTerm(term);
    db(ContentQuery(TsQuery(TsText(term))), [Text(like), Text(like)]).GetOr([])
  }

  /** One condition of the pattern-matching fallback, for one word. */
  const FallbackCondition: string := "(f.filename ILIKE %s OR f.preview ILIKE %s OR f.content ILIKE %s)"

  /** The fallback's parameters: each word's pattern three times, word by word, so that
      parameter `k` belongs to word `k / 3`. */
  function FallbackParams(words: seq<string>): (ps: seq<Param>)
    ensures |ps| == 3 * |words|
    ensures forall k :: 0 <= k < |ps| ==> ps[k] == Text(LikeTerm(words[k / 3]))
  {
    if words == [] then []
    else
      var init := words[..|words| - 1];
      var p := Text(LikeTerm(words[|words| - 1]));
      FallbackParams(init) + [p, p, p]
  }

  /** `n` copies of `s`. */
  function Repeat(s: string, n: nat): (r: seq<string>)
    ensures |r| == n && forall i :: 0 <= i < n ==> r[i] == s
  {
    if n == 0 then [] else Repeat(s, n - 1) + [s]
  }

  /** What `search_multi_words(search_words)` returns: nothing for no words; otherwise the
      full-text matches of all words, or, when there are none, the rows matching every word's
      pattern in the name, the preview or the content.  A failing query gives no results. */
  function MultiWords(db: Db, words: seq<string>): seq<SearchResult> {
    if words == [] then []
    else
      match db(FullTextQuery(TsQuery(Join(words, " & "))), [])
      case None => []
      case Some(rows) =>
        if rows != [] then rows
        else db(FallbackQuery(Join(Repeat(FallbackCondition, |words|), " AND ")), FallbackParams(words)).GetOr([])
  }

  /** `search_multi_words(search_words)`, building the fallback condition by condition. */
  method SearchMultiWords(db: Db, words: seq<string>) returns (results: seq<SearchResult>)
    ensures results == MultiWords(db, words)
  {
    if words == [] {
      return [];
    }
    var answer := db(FullTextQuery(TsQuery(Join(words, " & "))), []);
    if answer.None? {
      return [];
    }
    results := answer.value;
    if results == [] {
      var conditions: seq<string> := [];
      var params: seq<Param> := [];
      for i := 0 to |words|
        invariant conditions == Repeat(FallbackCondition, i)
        invariant params == FallbackParams(words[..i])
      {
        var wordParam := LikeTerm(words[i]);
        conditions := conditions + [FallbackCondition];
        params := params + [Text(wordParam), Text(wordParam), Text(wordParam)];
        assert words[..i + 1][..i] == words[..i];
      }
      assert words[..|words|] == words;
      results := db(FallbackQuery(Join(conditions, " AND ")), params).GetOr([]);
    }
  }

  /** No words, no results, whatever the database holds. */
  lemma MultiWordsEmpty(db: Db)
    ensures MultiWords(db, []) == []
  {
  }

  /** The fallback is consulted only when the full-text query returned nothing. */
  lemma MultiWordsFullTextFirst(db: Db, words: seq<string>)
    requires words != []
    requires db(FullTextQuery(TsQuery(Join(words, " & "))), []).Some?
    ensures var rows := db(FullTextQuery(TsQuery(Join(words, " & "))), []).value;
            rows != [] ==> MultiWords(db, words) == rows
  {
  }

  /** `path.replace('\\', '/').lower()` */
  function NormalizePath(path: string): (r: string)
    ensures |r| == |path|
    ensures forall i :: 0 <= i < |path| ==> r[i] == LowerChar(if path[i] == '\\' then '/' else path[i])
  {
    Lower(ReplaceChar(path, '\\', '/'))
  }

  /** No backslash survives normalisation. */
  lemma NormalizedHasNoBackslash(path: string)
    ensures '\\' !in NormalizePath(path)
  {
    var r := NormalizePath(path);
    forall i | 0 <= i < |r| ensures r[i] != '\\' {
    }
  }

  /** Normalising twice is normalising once. */
  lemma NormalizeIdempotent(path: string)
    ensures NormalizePath(NormalizePath(path)) == NormalizePath(path)
  {
  }

  /** Paths that differ only in letter case or separator style are searched alike. */
  lemma PatternIgnoresCaseAndSeparators(path: string)
    ensures PathPattern(Lower(path)) == PathPattern(path)
    ensures PathPattern(ReplaceChar(path, '\\', '/')) == PathPattern(path)
  {
    NormalizeIgnoresCase(path);
    NormalizeIgnoresSeparators(path);
  }

  lemma NormalizeIgnoresCase(path: string)
    ensures NormalizePath(Lower(path)) == NormalizePath(path)
  {
    var a, b := NormalizePath(Lower(path)), NormalizePath(path);
    forall i | 0 <= i < |path| ensures a[i] == b[i] {
      var c := path[i];
      assert Lower(path)[i] == LowerChar(c);
      if 'A' <= c <= 'Z' {
        assert LowerChar(LowerChar(c)) == LowerChar(c);
      }
    }
  }

  lemma NormalizeIgnoresSeparators(path: string)
    ensures NormalizePath(ReplaceChar(path, '\\', '/')) == NormalizePath(path)
  {
    var a, b := NormalizePath(ReplaceChar(path, '\\', '/')), NormalizePath(path);
    forall i | 0 <= i < |path| ensures a[i] == b[i] {
      assert ReplaceChar(path, '\\', '/')[i] == if path[i] == '\\' then '/' else path[i];
    }
  }

  /** The LIKE pattern `search_by_path` uses, with the backslash tests as written. */
  function PathPattern(path: string): string {
    PatternFor(NormalizePath(path))
  }

  /** The pattern chosen for an already normalised path. */
  function PatternFor(sp: string): string {
    if StartsWith(sp, "/") || StartsWith(sp, "\\") then sp + "%"
    else if '/' in sp || '\\' in sp then "%" + sp + "%"
    else "%/" + sp + "%"
  }

  /** The three patterns: a prefix match for an absolute path, a substring match for a path
      with a separator, and a match on a whole path component otherwise.  The backslash
      tests never decide anything. */
  lemma PathPatternCases(path: string)
    ensures var sp := NormalizePath(path);
            (StartsWith(sp, "/") ==> PathPattern(path) == sp + "%") &&
            (!StartsWith(sp, "/") && '/' in sp ==> PathPattern(path) == "%" + sp + "%") &&
            (!StartsWith(sp, "/") && '/' !in sp ==> PathPattern(path) == "%/" + sp + "%")
  {
    var sp := NormalizePath(path);
    NormalizedHasNoBackslash(path);
    StartsWithMember(sp, '\\');
  }

  lemma StartsWithMember(s: string, c: char)
    ensures StartsWith(s, [c]) ==> c in s
  {
    if StartsWith(s, [c]) {
      assert s[0] == s[..1][0];
    }
  }

  /** `search_by_path(path)` */
  function SearchByPath(db: Db, path: string): seq<SearchResult> {
    db(PathQuery, [Text(PathPattern(path))]).GetOr([])
  }

  /** The content argument of `search_by_path_and_content`: a list of words or a text. */
  datatype Content = Words(words: seq<string>) | Term(term: string)

  /** The full-text query text and LIKE pattern for a content argument. */
  function ContentTerms(content: Content): (string, string) {
    match content
    case Words(ws) => (Join(ws, " & "), "%")
    case Term(t) => (TsText(t), LikeTerm(t))
  }

  /** The paths of a result list, in order. */
  function PathIds(rs: seq<SearchResult>): (ids: seq<string>)
    ensures |ids| == |rs| && forall i :: 0 <= i < |rs| ==> ids[i] == rs[i].path
  {
    if rs == [] then [] else PathIds(rs[..|rs| - 1]) + [rs[|rs| - 1].path]
  }

  /** `search_by_path_and_content(path, content)` */
  function SearchByPathAndContent(db: Db, path: string, content: Content): seq<SearchResult> {
    var pathMatches := SearchByPath(db, path);
    if pathMatches == [] then []
    else
      var (text, like) := ContentTerms(content);
      db(PathContentQuery(TsQuery(text)), [Texts(PathIds(pathMatches)), Text(like), Text(like)]).GetOr([])
  }

  /** With no path match the answer is empty, and the content query is never run: its answer
      does not matter. */
  lemma PathAndContentEarlyExit(db1: Db, db2: Db, path: string, content: Content)
    requires SearchByPath(db1, path) == []
    requires db2(PathQuery, [Text(PathPattern(path))]) == db1(PathQuery, [Text(PathPattern(path))])
    ensures SearchByPathAndContent(db1, path, content) == []
    ensures SearchByPathAndContent(db2, path, content) == []
  {
  }

  /** The content query is restricted to the paths the path search found, in their order. */
  lemma PathAndContentRestricted(db: Db, path: string, content: Content)
    requires SearchByPath(db, path) != []
    ensures var (text, like) := ContentTerms(content);
            var ids := PathIds(SearchByPath(db, path));
            Paths(SearchByPath(db, path)) == (set i | i in ids) &&
            SearchByPathAndContent(db, path, content) ==
              db(PathContentQuery(TsQuery(text)), [Texts(ids), Text(like), Text(like)]).GetOr([])
  {
    var rs := SearchByPath(db, path);
    var ids := PathIds(rs);
    forall p | p in Paths(rs) ensures p in ids {
      var r :| r in rs && r.path == p;
      var k :| 0 <= k < |rs| && rs[k] == r;
      assert ids[k] == p;
    }
  }

  /** A list of words is AND-ed as given and matched with the catch-all pattern. */
  lemma ContentTermsWords(ws: seq<string>)
    ensures ContentTerms(Words(ws)).1 == "%"
    ensures |ws| == 1 ==> ContentTerms(Words(ws)).0 == ws[0]
  {
  }

  /** The store the dispatcher searches, as this manager provides it. */
  function StoreOf(db: Db): Store {
    Store(
      e => SearchByExtension(db, e),
      t => SearchByContent(db, t),
      ws => MultiWords(db, ws),
      p => SearchByPath(db, p))
  }

  /** A prompt without qualifiers, dispatched to this manager, runs exactly one statement: the
      extension query with the text after the dot, the multi-word search over the words, or
      the content query over the whole stripped text. */
  lemma DispatchToDatabase(db: Db, prompt: string)
    requires !IsBlank(prompt) && Selector.FindAll(prompt) == []
    ensures var left := Strip(prompt);
            Selector.Dispatch(StoreOf(db), prompt).0 ==
              if StartsWith(left, ".") then db(ExtensionQuery, [Text(left[1..])]).GetOr([])
              else if |Split(left)| > 1 then MultiWords(db, Split(left))
              else db(ContentQuery(TsQuery(TsText(left))), [Text(LikeTerm(left)), Text(LikeTerm(left))]).GetOr([])
  {
    Selector.DispatchHeuristic(StoreOf(db), prompt);
    RouteToDatabase(db, Strip(prompt));
  }

  /** The lookup a qualifier-free text selects, answered by this manager. */
  lemma RouteToDatabase(db: Db, left: string)
    ensures Perform(StoreOf(db), Selector.Route(left)) ==
              if StartsWith(left, ".") then db(ExtensionQuery, [Text(left[1..])]).GetOr([])
              else if |Split(left)| > 1 then MultiWords(db, Split(left))
              else db(ContentQuery(TsQuery(TsText(left))), [Text(LikeTerm(left)), Text(LikeTerm(left))]).GetOr([])
  {
    if StartsWith(left, ".") {
      assert Selector.Route(left) == ByExtension(left[1..]);
    } else if |Split(left)| > 1 {
      assert Selector.Route(left) == SearchStore.MultiWords(Split(left));
    } else {
      assert Selector.Route(left) == ByContent(left);
    }
  }
}
