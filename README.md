# local-search-engine, modelled in Dafny

This project models the core of *local-search-engine*, a local file-search engine. The model covers the following parts:

- **Search selector.** It splits a prompt into qualifier tokens (`path:…`, `content:"…"`, `extension:…`) and leftover text. Structured queries narrow the results one qualifier value at a time. Otherwise it picks one heuristic database search: by extension for a leading dot, by several words, or by content.
- **Caching proxy.** It sits in front of the selector and keeps non-empty answers under the stripped, lower-cased prompt. Entries expire after a set time.
- **Database searches.** These are the SQL statements and parameters built for extension, content, multi-word (full-text with an `ILIKE` fallback), path, and path-and-content search.
- **Widget manager.** It picks widgets whose trigger word occurs in the lower-cased query.
- **Two directory indexers.**
  - The current one normalises the extension, cuts content at 10000 characters, and keeps a two-paragraph preview. It skips failing files and abandons only a failing directory.
  - The legacy one also keeps the five most common important words. It raises on anything that is neither a file nor a directory.
- **Legacy search engine.** It routes a prompt by a leading dot or a space.
- **Indexless search.** A manager lists the top-level directories of a path and deals them round-robin to three workers. It sends one request per directory, concatenates the answers in worker order and sorts them stably by filename. Each worker walks its directory and reports the files whose name contains the query, ignoring case.

Modules, one concept each:

- `Wrappers`: `Option` and `Result`.
- `PyStr`: the Python string operations the source relies on. These are `strip`, `lower`, `split`, `str.split(" ")`, `startswith`, `in`, `replace`, `os.path.join` and `Path.suffix`.
- `SearchStore`: result rows and the four database searches the selector calls, as given functions.
- `Selector`: the selector.
- `Cache`: the cache class.
- `Proxy`: the proxy class.
- `DatabaseSearch`: the database searches.
- `Widgets`: the widget manager.
- `FsTree`: the directory tree as data, and the depth-first walk.
- `Paragraphs`: the two-paragraph preview.
- `Keywords`: the top-words extraction.
- `FileIndexer`: the current indexer.
- `LegacyIndexer`: the legacy indexer.
- `LegacySearchEngine`: the legacy search engine.
- `Worker`: the indexless worker.
- `FilenameSort`: the stable sort by filename, on an array, in place.
- `Manager`: the indexless manager.

Some outside inputs are parameters of the model:

- The clock is a `now: real` argument.
- The database is a function from a statement and its parameters to its rows, or `None` when the call raises.
- The file system is a tree value: listings, `stat()` results and file texts, each possibly failed.
- The workers' HTTP answers are a function from a request to its results, or `None` for a failed request or a non-200 status.

The stripped prompt can be empty while the prompt itself is not. The method checks `Strip(prompt) == []` and the specification functions use `IsBlank`; `StripEmptyIffBlank` proves the two agree.

Two behaviours of the selector's code are easy to miss, and the model keeps both:

- **Leftover text.** The code deletes each token from the prompt as the text `name:value`, rebuilt without quotes (Code/MiddleManagement/SearchSelector.py:164-167). A quoted token's text never contains that rebuilt form, so it stays in the leftover text: in `path:a content:"b c" extra` only `path:a` is deleted (`Selector.QuotedTokenNotDeleted`). The leftover text is used only when no token was found (`Selector.LeftoverWithoutTokens`), so this does not change the results.
- **Unsupported qualifiers.** When every qualifier is one the selector does not support, the code returns no results and runs no search (`Selector.DispatchUnsupportedOnly`). It does not fall back to the heuristic path.

## Model

| member | source | states |
|---|---|---|
| Selector.ValueAt | Code/MiddleManagement/SearchSelector.py:147 | the value alternative matches unless the character is whitespace; the quoted alternative `"([^"]+)"` is taken exactly when a quote, a non-quote and a later quote follow (`QuotedAt`), and its value is the text up to the first closing quote; otherwise the value runs up to the next whitespace |
| Selector.MatchAt | Code/MiddleManagement/SearchSelector.py:147 | the token pattern matches at `i` exactly when a run of word characters is followed by `:` and a non-space; the token it returns spans exactly its name, `:` and the value (quoted values without `"`, unquoted ones up to whitespace), and it is quoted exactly when the quoted alternative can match after the colon |
| Selector.FindFrom | Code/MiddleManagement/SearchSelector.py:147-153 | every token `findall` returns has a non-empty word-character name and a non-empty value without quotes (quoted) or whitespace (unquoted) |
| Selector.FindFromEmpty | Code/MiddleManagement/SearchSelector.py:147-153 | `findall` from `i` returns nothing exactly when the pattern matches at no index from `i` on |
| Selector.FindFromLeftmost | Code/MiddleManagement/SearchSelector.py:147-153 | otherwise the first token is the match at the leftmost index where the pattern matches (no match before it), and the rest are the tokens found from the end of that match, so matches do not overlap and come in increasing order |
| Selector.FindAllExample | Code/MiddleManagement/SearchSelector.py:146-153 | `path:a content:"b c" extra` yields exactly the tokens `path`/`a` (bare) and `content`/`b c` (quoted) |
| Selector.NoColonNoTokens | Code/MiddleManagement/SearchSelector.py:147-153 | a query with no `:` yields no tokens |
| Selector.BlankNoTokens | Code/MiddleManagement/SearchSelector.py:140-153 | a blank query yields no tokens |
| Selector.FindAll | Code/MiddleManagement/SearchSelector.py:147-153 | definition, no contract: the `qualifier:value` tokens `re.findall` finds, left to right, quoted or bare |
| Selector.Qualifiers | Code/MiddleManagement/SearchSelector.py:157-161 | the qualifier map's keys are exactly the lower-cased token names |
| Selector.ValuesForAppend | Code/MiddleManagement/SearchSelector.py:157-161 | the values grouped under a key for two stretches of tokens are the values of the first stretch followed by those of the second (order of appearance kept) |
| Selector.ValuesForMembers | Code/MiddleManagement/SearchSelector.py:157-161 | a value is grouped under a key exactly when some token with that lower-cased name carries it |
| Selector.ValuesForNonEmpty | Code/MiddleManagement/SearchSelector.py:157-161 | a key has values exactly when some token has that name |
| Selector.QualifierValuesNonEmpty | Code/MiddleManagement/SearchSelector.py:147-161 | no grouped value is the empty string |
| Selector.GroupedIsQualifiers | Code/MiddleManagement/SearchSelector.py:157-161 | a map that holds, for exactly the lower-cased names, the values in order of appearance is the qualifier map |
| Selector.GroupNext | Code/MiddleManagement/SearchSelector.py:157-160 | appending one token's value under its lower-cased name keeps the grouping exact for one more token |
| Selector.QualifiersSnoc | Code/MiddleManagement/SearchSelector.py:157-160 | the qualifier map of one more token is the previous map with the value appended under the token's lower-cased name |
| Selector.NamesSnoc | Code/MiddleManagement/SearchSelector.py:158 | one more token adds exactly its lower-cased name to the keys |
| Selector.LeftoverWithoutTokens | Code/MiddleManagement/SearchSelector.py:164-169 | without tokens the leftover text is the stripped query |
| Selector.Leftover | Code/MiddleManagement/SearchSelector.py:164-169 | definition, no contract: the query with each rebuilt token text removed, then stripped |
| Selector.QuotedTokenNotDeleted | Code/MiddleManagement/SearchSelector.py:165-167 | the rebuilt form of a quoted token (`name:value`) never occurs in its matched text, so the replace cannot remove it |
| Selector.ParseQuery | Code/MiddleManagement/SearchSelector.py:127-173 | a blank query gives `({}, "")`; otherwise the map is the grouping of the tokens `findall` finds and the text is the query with the rebuilt tokens removed, stripped |
| Selector.GroupValues | Code/MiddleManagement/SearchSelector.py:157-161 | the loop builds exactly the qualifier map of the tokens |
| Selector.RemoveMatches | Code/MiddleManagement/SearchSelector.py:164-167 | the loop removes every rebuilt token, one after another, from the query |
| Selector.KeepPaths | Code/MiddleManagement/SearchSelector.py:122-123 | filtering never lengthens the current results |
| Selector.KeepPathsCount | Code/MiddleManagement/SearchSelector.py:122-123 | each current result keeps its multiplicity if its path is among the new results' paths, and is dropped otherwise |
| Selector.KeepPathsInOrder | Code/MiddleManagement/SearchSelector.py:122-123 | the kept results are the current results with some left out, in their order |
| Selector.FilterResultsMembers | Code/MiddleManagement/SearchSelector.py:117-125 | after the first search, a result survives exactly when it was current and its path is among the new results' paths |
| Selector.FilterResults | Code/MiddleManagement/SearchSelector.py:117-125 | definition, no contract: the new results first, afterwards the running results whose path occurs among the new ones |
| Selector.PathCalls | Code/MiddleManagement/SearchSelector.py:85-88 | one path search per path value |
| Selector.ContentCalls | Code/MiddleManagement/SearchSelector.py:94-97 | one content search per content value |
| Selector.ExtensionCalls | Code/MiddleManagement/SearchSelector.py:103-106 | one extension search per extension value |
| Selector.Narrow | Code/MiddleManagement/SearchSelector.py:82-115 | the searches made are a prefix of the planned ones, and stopping early means the answer is empty |
| Selector.NarrowMembers | Code/MiddleManagement/SearchSelector.py:82-115 | a result is returned exactly when the first search returned it and its path is among the results of every planned search (conjunction of all qualifier values) |
| Selector.FirstFilter | Code/MiddleManagement/SearchSelector.py:117-125 | one filtering step keeps exactly the seed results whose path the step's search returns |
| Selector.NarrowConsulted | Code/MiddleManagement/SearchSelector.py:82-115 | every returned result's path is among the results of every search actually made |
| Selector.NarrowCons | Code/MiddleManagement/SearchSelector.py:89-92 | one search step: an empty filtered list stops with no results after that search; otherwise narrowing continues from it |
| Selector.FilterByPaths | Code/MiddleManagement/SearchSelector.py:85-92 | the path loop makes the same searches and reaches the same state as the narrowing specification, stopping exactly when it empties the results |
| Selector.FilterByContents | Code/MiddleManagement/SearchSelector.py:94-101 | the content loop does likewise for the content values |
| Selector.FilterByExtensions | Code/MiddleManagement/SearchSelector.py:103-115 | the extension loop does likewise, and a run that does not stop returns the current results or `[]` |
| Selector.HandleParsedItems | Code/MiddleManagement/SearchSelector.py:61-115 | the results and the searches made are those of narrowing over all path, then content, then extension values; unsupported keys are ignored |
| Selector.SearchPrompt | Code/MiddleManagement/SearchSelector.py:16-58 | the results and searches made are those of the dispatch specification: blank gives nothing; qualifiers give narrowing; otherwise one heuristic search on the leftover text |
| Selector.HeuristicSearch | Code/MiddleManagement/SearchSelector.py:44-58 | the search made is the route of the leftover text, and its answer is returned |
| Selector.Route | Code/MiddleManagement/SearchSelector.py:44-58 | definition, no contract: a leading dot selects the extension lookup without the dot, several words the multi-word lookup, anything else the content lookup |
| Selector.Dispatch | Code/MiddleManagement/SearchSelector.py:16-58 | definition, no contract: a blank prompt gives nothing; otherwise the structured search over the qualifiers, or the routed lookup of the leftover text |
| Selector.DispatchBlank | Code/MiddleManagement/SearchSelector.py:28-30 | a blank prompt returns nothing and searches nothing |
| Selector.DispatchHeuristic | Code/MiddleManagement/SearchSelector.py:40-58 | with no tokens, exactly one search is made, on the stripped prompt, and its answer is returned |
| Selector.DispatchStructured | Code/MiddleManagement/SearchSelector.py:40-42 | with tokens, a result is returned exactly when the first planned search returns it and its path is in every planned search's results |
| Selector.DispatchUnsupportedOnly | Code/MiddleManagement/SearchSelector.py:40-42 | tokens with only unsupported names give no results and no search at all (no fallback to the heuristic path) |
| Selector.UnsupportedSteps | Code/MiddleManagement/SearchSelector.py:75-110 | such tokens make a non-empty qualifier map that plans no search |
| Selector.DispatchPlain | Code/MiddleManagement/SearchSelector.py:44-58 | a trimmed prompt without `:` is routed as it stands |
| Selector.RouteDot | Code/MiddleManagement/SearchSelector.py:46-49 | a leading dot searches by the extension after the dot |
| Selector.RouteTwoWords | Code/MiddleManagement/SearchSelector.py:51-54 | two words separated by a space search by those two words |
| Selector.RouteOneWord | Code/MiddleManagement/SearchSelector.py:56-58 | a single word without a dot searches by content |
| Cache.SearchCache.constructor | Code/MiddleManagement/SearchCache.py:15-23 | a new cache is empty with the given expiry |
| Cache.SearchCache.WithDefaultExpiry | Code/MiddleManagement/SearchCache.py:15 | the default expiry is 600 seconds |
| Cache.SearchCache.Get | Code/MiddleManagement/SearchCache.py:26-46 | returns the stored results exactly when the key is present and younger than the expiry; an expired entry is deleted; nothing else changes |
| Cache.SearchCache.Set | Code/MiddleManagement/SearchCache.py:48-56 | the key maps to the results stamped with the current time; other keys are untouched |
| Cache.SearchCache.Clear | Code/MiddleManagement/SearchCache.py:59-61 | the cache becomes empty |
| Cache.SearchCache.Remove | Code/MiddleManagement/SearchCache.py:64-73 | the key is gone and nothing else changes; an absent key changes nothing |
| Cache.SearchCache.Stats | Code/MiddleManagement/SearchCache.py:75-91 | the loop's counts are the statistics of the current entries |
| Cache.StatsOf | Code/MiddleManagement/SearchCache.py:82-89 | total is the number of entries, active the number of live ones, expired the rest, and active plus expired is total |
| Cache.ActiveExpiredPartition | Code/MiddleManagement/SearchCache.py:83-89 | live and expired keys partition the entries |
| Cache.ClearedStats | Code/MiddleManagement/SearchCache.py:59-61 | after a clear every count is zero |
| Cache.EvictionKeepsActive | Code/MiddleManagement/SearchCache.py:41-43 | deleting an expired entry keeps the active count and lowers the expired count by one |
| Cache.StoredIsLive | Code/MiddleManagement/SearchCache.py:36-56 | an entry just stored is live for the whole expiry window |
| Proxy.KeyIgnoresCase | Code/MiddleManagement/SearchSelectorProxy.py:44 | prompts differing only in ASCII case share one cache key |
| Proxy.KeyIgnoresSurroundingSpace | Code/MiddleManagement/SearchSelectorProxy.py:44 | leading or trailing whitespace does not change the cache key |
| Proxy.ProxyHit | Code/MiddleManagement/SearchSelectorProxy.py:47-50 | a live entry is returned without asking the selector and without changing the cache |
| Proxy.ProxyMiss | Code/MiddleManagement/SearchSelectorProxy.py:52-60 | on a miss the selector's answer is returned; the stale key is dropped, and the answer is stored only when it is non-empty |
| Proxy.ProxyBlank | Code/MiddleManagement/SearchSelectorProxy.py:39-41 | a blank prompt returns nothing and leaves the cache alone |
| Proxy.ProxyAnswers | Code/MiddleManagement/SearchSelectorProxy.py:29-60 | forwarding happens exactly when there is no live entry; a hit returns the stored results; a miss returns the selector's answer, keeps it exactly when it is non-empty, and leaves every other key as it was |
| Proxy.ProxyNeverCachesEmpty | Code/MiddleManagement/SearchSelectorProxy.py:56-58 | the cache never holds an empty answer |
| Proxy.AtMostOnceWithinWindow | Code/MiddleManagement/SearchSelectorProxy.py:44-60 | two prompts with the same key, within the expiry, after a non-empty answer, are not both forwarded, and the second gets the first's results |
| Proxy.EmptyAnswerForwardedAgain | Code/MiddleManagement/SearchSelectorProxy.py:56-58 | an empty answer is forwarded again next time, because it is not cached |
| Proxy.SearchSelectorProxy.constructor | Code/MiddleManagement/SearchSelectorProxy.py:17-26 | a new proxy owns a fresh, empty cache with the given expiry |
| Proxy.SearchSelectorProxy.WithDefaultExpiry | Code/MiddleManagement/SearchSelectorProxy.py:17-26 | a proxy built without an expiry owns a fresh, empty cache whose expiry is the default 600 seconds |
| Proxy.SearchSelectorProxy.SearchPrompt | Code/MiddleManagement/SearchSelectorProxy.py:29-60 | the results and the new cache are those of the proxy specification applied to the selector's answer; the prompt is recorded as forwarded exactly on a miss |
| Proxy.SearchSelectorProxy.ClearCache | Code/MiddleManagement/SearchSelectorProxy.py:62-64 | the cache becomes empty |
| Proxy.SearchSelectorProxy.InvalidateCache | Code/MiddleManagement/SearchSelectorProxy.py:75-80 | invalidation empties the cache |
| Proxy.SearchSelectorProxy.GetCacheStats | Code/MiddleManagement/SearchSelectorProxy.py:66-73 | the statistics are the cache's own |
| DatabaseSearch.LikeTerm | Code/Database/SearchManager.py:51 | the pattern is the term between two `%` |
| DatabaseSearch.SearchByExtension | Code/Database/SearchManager.py:19-37 | definition, no contract: the rows of the extension statement, or nothing when it raises |
| DatabaseSearch.SearchByContent | Code/Database/SearchManager.py:39-69 | definition, no contract: the rows of the full-text-or-pattern statement for the term, or nothing when it raises |
| DatabaseSearch.TsTextBlank | Code/Database/SearchManager.py:49 | a blank term gives an empty full-text query |
| DatabaseSearch.TsTextOneWord | Code/Database/SearchManager.py:49 | one word is its own full-text query |
| DatabaseSearch.TsTextTwoWords | Code/Database/SearchManager.py:49 | two words are joined by ` & ` |
| DatabaseSearch.FallbackParams | Code/Database/SearchManager.py:113-120 | three `%word%` parameters per word, in word order |
| DatabaseSearch.MultiWords | Code/Database/SearchManager.py:74-132 | definition, no contract: nothing for no words; the full-text rows when there are some; otherwise the rows of the pattern fallback; nothing when a statement raises |
| DatabaseSearch.Repeat | Code/Database/SearchManager.py:113-121 | one fallback condition per word |
| DatabaseSearch.SearchMultiWords | Code/Database/SearchManager.py:74-132 | the loop computes the multi-word search specification |
| DatabaseSearch.MultiWordsEmpty | Code/Database/SearchManager.py:84-86 | no words give no results, without a query |
| DatabaseSearch.MultiWordsFullTextFirst | Code/Database/SearchManager.py:98-104 | non-empty full-text rows are returned as they are, without the fallback |
| DatabaseSearch.NormalizePath | Code/Database/SearchManager.py:148 | each character has `\` turned into `/` and is lower-cased; the length is kept |
| DatabaseSearch.NormalizedHasNoBackslash | Code/Database/SearchManager.py:148 | a normalised path has no backslash, so the `\` branches of the pattern choice are dead |
| DatabaseSearch.NormalizeIdempotent | Code/Database/SearchManager.py:148 | normalising twice is normalising once |
| DatabaseSearch.NormalizeIgnoresCase | Code/Database/SearchManager.py:148 | case does not change the normalised path |
| DatabaseSearch.NormalizeIgnoresSeparators | Code/Database/SearchManager.py:148 | `\` versus `/` does not change the normalised path |
| DatabaseSearch.PatternIgnoresCaseAndSeparators | Code/Database/SearchManager.py:148-159 | the `LIKE` pattern is the same for paths differing in case or separator |
| DatabaseSearch.PathPatternCases | Code/Database/SearchManager.py:148-159 | the pattern for a path, by the three cases of its normalised form |
| DatabaseSearch.PathIds | Code/Database/SearchManager.py:198 | the id list is the paths of the path matches, in order |
| DatabaseSearch.SearchByPath | Code/Database/SearchManager.py:134-177 | definition, no contract: the rows of the path statement with the pattern of the normalised path, or nothing when it raises |
| DatabaseSearch.SearchByPathAndContent | Code/Database/SearchManager.py:179-227 | definition, no contract: nothing without path matches; otherwise the rows of the content statement restricted to their paths |
| DatabaseSearch.PathAndContentEarlyExit | Code/Database/SearchManager.py:191-195 | no path match gives no results, whatever the content query would return |
| DatabaseSearch.PathAndContentRestricted | Code/Database/SearchManager.py:191-224 | with path matches, the combined search is the content query restricted to exactly their paths |
| DatabaseSearch.ContentTermsWords | Code/Database/SearchManager.py:201-207 | a list of words uses `%` as its `ILIKE` pattern, and a single word is its own full-text query |
| DatabaseSearch.StoreOf | Code/MiddleManagement/SearchSelector.py:13-14 | definition, no contract: the four lookups the dispatcher calls, answered by this manager |
| DatabaseSearch.DispatchToDatabase | Code/MiddleManagement/SearchSelector.py:44-58 | a prompt without qualifiers runs exactly one statement: the extension query with the text after the dot, the multi-word search over the words, or the content query over the stripped text |
| DatabaseSearch.RouteToDatabase | Code/MiddleManagement/SearchSelector.py:44-58 | the lookup a qualifier-free text selects is answered by the matching statement of this manager |
| Widgets.TableWidgets | Code/MiddleManagement/WidgetManager.py:8-24 | the widgets of the table, in table order |
| Widgets.Selected | Code/MiddleManagement/WidgetManager.py:45-47 | definition, no contract: the widgets, in table order, whose trigger occurs in the lowered query |
| Widgets.SelectedMembers | Code/MiddleManagement/WidgetManager.py:45-47 | a widget is selected exactly when its trigger word occurs in the lowered query |
| Widgets.SelectedInTableOrder | Code/MiddleManagement/WidgetManager.py:45-47 | the selection is a subsequence of the table (table order) |
| Widgets.SubsequenceDistinct | Code/MiddleManagement/WidgetManager.py:45-47 | a selection from a table without repeats has no repeats |
| Widgets.DefaultTableDistinct | Code/MiddleManagement/WidgetManager.py:8-24 | the default table holds three distinct widgets |
| Widgets.LowerTriggerFound | Code/MiddleManagement/WidgetManager.py:39-46 | a lower-case trigger found in the query is found in the lowered query |
| Widgets.EmptyQuerySelectsNothing | Code/MiddleManagement/WidgetManager.py:36-37 | an empty query selects nothing when no trigger word is empty |
| Widgets.DefaultSelection | Code/MiddleManagement/WidgetManager.py:26-49 | at most three distinct widgets, in table order, exactly those whose trigger occurs in the lowered query; lowering again changes nothing |
| Widgets.WidgetManager.GetWidgetsForQuery | Code/MiddleManagement/WidgetManager.py:26-49 | the loop returns the selection for the lowered query, and `[]` for an empty query |
| FsTree.WalkVisitsTree | Code/MiddleManagement/FileIndexer.py:19-52 | the depth-first walk visits exactly the files of the tree |
| FsTree.WalkEntriesAppend | Code/MiddleManagement/FileIndexer.py:20-52 | walking consecutive entries is walking each in turn |
| FsTree.RecordsAppend | Code/MiddleManagement/FileIndexer.py:20-49 | the records of consecutive events are the records of each part in turn |
| FsTree.RecordsMembers | Code/MiddleManagement/FileIndexer.py:22-49 | a record is produced exactly for a visited file whose processing succeeds |
| FsTree.BeforeFault | Code/indexer.py:17-64 | the events up to the first fault: fault-free, a prefix, and cut exactly at a fault |
| FsTree.BeforeFaultAppend | Code/indexer.py:17-64 | a fault-free stretch is always walked in full |
| FsTree.BeforeFaultFaulty | Code/indexer.py:63-64 | events after a fault are never reached |
| Paragraphs.SpaceEnd | Code/MiddleManagement/FileIndexer.py:41 | the end of the run of whitespace at `j` |
| Paragraphs.BreakEnd | Code/MiddleManagement/FileIndexer.py:41 | a separator starts at a newline exactly when whitespace then a newline follow; its end is the greedy match's end: just after a newline within the whitespace run, with no newline between that end and the end of the run |
| Paragraphs.FindBreak | Code/MiddleManagement/FileIndexer.py:41 | a separator found lies after the start and spans at least two characters |
| Paragraphs.FindBreakLeftmost | Code/MiddleManagement/FileIndexer.py:41 | the separator found is the leftmost one, with the regex engine's end; none found means there is none |
| Paragraphs.FindBreakAt | Code/MiddleManagement/FileIndexer.py:41 | the first separator after a stretch without one is found |
| Paragraphs.NoBreakInLine | Code/MiddleManagement/FileIndexer.py:41 | a text without a newline has no separator |
| Paragraphs.PreviewFrom | Code/MiddleManagement/FileIndexer.py:41-42 | the preview is the first paragraph, a blank line, then the second paragraph up to the next separator or the end |
| Paragraphs.PreviewSingleParagraph | Code/MiddleManagement/FileIndexer.py:41-42 | without a separator the preview is the stripped content |
| Paragraphs.PreviewTwoParagraphs | Code/MiddleManagement/FileIndexer.py:41-42 | two one-line paragraphs are previewed whole |
| Paragraphs.PreviewThreeParagraphs | Code/MiddleManagement/FileIndexer.py:41-42 | of three paragraphs the preview keeps the first two (`maxsplit=2`) |
| Paragraphs.PreviewOfBreaks | Code/MiddleManagement/FileIndexer.py:41-42 | when the first separator is a single blank line, the preview is everything before the second separator |
| Paragraphs.BreakAfterParagraph | Code/MiddleManagement/FileIndexer.py:41 | a one-line paragraph followed by a blank line and text has its separator right after it |
| Paragraphs.Preview | Code/MiddleManagement/FileIndexer.py:41-42 | definition, no contract: the first two paragraphs of the content, split at its first separators |
| Keywords.LetterWords | Code/indexer.py:49 | every word found has three or more ASCII letters |
| Keywords.LetterWordsMembers | Code/indexer.py:49 | a word is found exactly when it is a maximal run of word characters, of three or more ASCII letters, bounded by non-word characters or the ends of the text (both directions) |
| Keywords.ImportantWords | Code/indexer.py:49-50 | every important word has three or more letters and is not a stopword; a word is important exactly when it is a letter word of the lowered content and not a stopword |
| Keywords.Unstopped | Code/indexer.py:50 | a word is kept exactly when it occurs in the input and is not a stopword |
| Keywords.UnstoppedCount | Code/indexer.py:50-51 | each word that is not a stopword is kept as many times as it occurs, and stopwords not at all, so `Counter` counts the input's non-stopwords |
| Keywords.SingleWord | Code/indexer.py:45-50 | a lower-case, letters-only, non-stopword word of length three or more is its own important word |
| Keywords.LetterWordsLower | Code/indexer.py:49 | words found in lowered content are lower case |
| Keywords.LowerLetterWords | Code/indexer.py:49-50 | important words are lower case |
| Keywords.Dedup | Code/indexer.py:51 | the distinct words are exactly the words |
| Keywords.DedupDistinct | Code/indexer.py:51 | the distinct words have no repeats |
| Keywords.InsertByCountPermutes | Code/indexer.py:51-52 | inserting by count adds exactly one word |
| Keywords.InsertByCountSorted | Code/indexer.py:51-52 | inserting by count keeps the counts non-increasing |
| Keywords.SortByCountPermutes | Code/indexer.py:51-52 | ranking permutes the words |
| Keywords.SortByCountSorted | Code/indexer.py:51-52 | ranking orders the words by non-increasing count |
| Keywords.InsertByCountStable | Code/indexer.py:51-52 | inserting keeps the first-seen order among words of equal count |
| Keywords.SortByCountStable | Code/indexer.py:51-52 | ties keep first-seen order, as `Counter.most_common` does |
| Keywords.RankedShape | Code/indexer.py:51-52 | the ranking is a permutation of the distinct words, without repeats, by non-increasing count |
| Keywords.MostCommonShape | Code/indexer.py:51-52 | at most five distinct words, all from the input, by non-increasing count |
| Keywords.MostCommonMaximal | Code/indexer.py:51-52 | a word left out means five were kept, each at least as frequent |
| Keywords.MostCommonTies | Code/indexer.py:51-52 | words of equal count appear in first-seen order |
| Keywords.TopWordsAreImportant | Code/indexer.py:45-52 | every top word is an important word: lower case, letters only, at least three long, not a stopword |
| Keywords.MostCommon | Code/indexer.py:51-52 | definition, no contract: the first five words of the stable ranking by count |
| Keywords.TopWords | Code/indexer.py:45-52 | definition, no contract: the five most common important words of the lowered content |
| FileIndexer.Extension | Code/MiddleManagement/FileIndexer.py:26 | the stored extension has no dot, is lower case, and is empty exactly when the name has no suffix; with a suffix it is the suffix without its dot, lower-cased |
| FileIndexer.TruncateBounds | Code/MiddleManagement/FileIndexer.py:36-37 | stored content keeps the first 10000 characters, is the content itself exactly when that fits, and ends in the mark otherwise |
| FileIndexer.TruncateIdempotent | Code/MiddleManagement/FileIndexer.py:36-37 | truncating stored content again changes nothing |
| FileIndexer.Truncate | Code/MiddleManagement/FileIndexer.py:36-37 | definition, no contract: content longer than 10000 characters is cut to its first 10000 and the truncation mark appended |
| FileIndexer.FileRecord | Code/MiddleManagement/FileIndexer.py:22-49 | definition, no contract: the record built for a file, or none when `stat` or reading fails |
| FileIndexer.Indexed | Code/MiddleManagement/FileIndexer.py:19-57 | definition, no contract: the records built while walking a directory |
| FileIndexer.FileRecordShape | Code/MiddleManagement/FileIndexer.py:22-49 | a file gets a record exactly when `stat` (and, for a readable suffix, reading) works; the record carries its path, name, extension and times, and for readable kinds only the cut content and its preview |
| FileIndexer.IndexedIsWalkRecords | Code/MiddleManagement/FileIndexer.py:19-57 | the records added are those of the depth-first walk, one per file that succeeds |
| FileIndexer.IndexedMembers | Code/MiddleManagement/FileIndexer.py:19-57 | a record is added exactly when some file below the directory yields it |
| FileIndexer.IndexedRecordsWellFormed | Code/MiddleManagement/FileIndexer.py:26-42 | every record added has a normalised extension, bounded content and that content's preview |
| FileIndexer.FailureStaysLocal | Code/MiddleManagement/FileIndexer.py:51-57 | a failing subdirectory keeps what it yielded and does not stop its siblings |
| FileIndexer.IndexedEntriesAppend | Code/MiddleManagement/FileIndexer.py:20-52 | indexing consecutive entries is indexing each in turn |
| FileIndexer.Indexer.constructor | Code/MiddleManagement/FileIndexer.py:10-12 | nothing has been added yet |
| FileIndexer.Indexer.AddFile | Code/MiddleManagement/FileIndexer.py:45-46 | the record is handed to the database; a refusal is only logged |
| FileIndexer.Indexer.IndexFile | Code/MiddleManagement/FileIndexer.py:22-49 | adds the file's record if building it succeeds, and nothing otherwise |
| FileIndexer.Indexer.IndexPath | Code/MiddleManagement/FileIndexer.py:14-57 | adds exactly the walk's records, in depth-first order |
| FileIndexer.Indexer.IndexEntry | Code/MiddleManagement/FileIndexer.py:21-52 | a file is indexed, a directory recursed into, anything else skipped |
| LegacyIndexer.LegacyRecordShape | Code/indexer.py:22-54 | a record exactly when `stat` (and reading, for a readable suffix) works; the extension is the raw suffix with its dot; readable kinds get the whole content, its preview and `TopWords` of the content, the five most common important words (at most five, distinct, each an important word) |
| LegacyIndexer.LegacyRecord | Code/indexer.py:22-54 | definition, no contract: the record built for a file, or none when `stat` or reading fails |
| LegacyIndexer.LegacyIndexer.constructor | Code/indexer.py:8-9 | nothing has been added yet |
| LegacyIndexer.LegacyIndexer.AddFile | Code/indexer.py:54 | the record is handed to the database |
| LegacyIndexer.LegacyIndexer.IndexFile | Code/indexer.py:19-57 | adds the file's record if building it succeeds, and nothing otherwise |
| LegacyIndexer.LegacyIndexer.IndexPath | Code/indexer.py:11-64 | adds the records met before the first raise and reports whether it raised |
| LegacyIndexer.LegacyIndexer.IndexEntry | Code/indexer.py:17-64 | a file is indexed, a directory recursed into, anything else raises |
| LegacyIndexer.RaisedSticks | Code/indexer.py:59-64 | once something raised, later entries add nothing |
| LegacyIndexer.IndexedIsWalkBeforeFault | Code/indexer.py:11-64 | the records added are those of the walk up to its first fault, and it raises exactly when the walk has a fault |
| LegacyIndexer.IndexesAllWithoutFault | Code/indexer.py:11-64 | without a fault every file's record is added and nothing raises |
| LegacyIndexer.Indexed | Code/indexer.py:11-64 | definition, no contract: the records added while walking a directory, and whether something raised |
| LegacyIndexer.OtherStopsWalk | Code/indexer.py:63-64 | an entry that is neither file nor directory raises and ends the whole walk after the entries before it |
| LegacySearchEngine.RouteSpec | Code/SearchEngine.py:12-20 | a leading dot searches by extension with the whole prompt; otherwise a space means multi-word search, none a content search; the prompt is passed unchanged |
| LegacySearchEngine.Route | Code/SearchEngine.py:12-20 | definition, no contract: the lookup a prompt selects |
| LegacySearchEngine.SearchPrompt | Code/SearchEngine.py:9-22 | definition, no contract: the routed lookup's answer |
| LegacySearchEngine.SearchPromptAnswers | Code/SearchEngine.py:9-22 | a result is returned exactly when the routed search returns it |
| Worker.StepEntries | Code/IndexlessQuery/SearchWorker.py:11-13 | one entry per file of a directory, in listing order |
| Worker.Matches | Code/IndexlessQuery/SearchWorker.py:9-21 | definition, no contract: the reports of the walked files whose names contain the query, or none when a lookup raises |
| Worker.MatchesFail | Code/IndexlessQuery/SearchWorker.py:14-19 | the search raises exactly when some file whose name contains the query has a size or time lookup that raises |
| Worker.MatchesMembers | Code/IndexlessQuery/SearchWorker.py:9-21 | when the search does not raise, a match is reported exactly for a walked file whose name contains the query, ignoring case, with its joined path and the size and modification time read from that path |
| Worker.MatchesAppend | Code/IndexlessQuery/SearchWorker.py:11-20 | the search over consecutive entries reports the matches of each part in turn, and raises when either part does |
| Worker.MatchesSnoc | Code/IndexlessQuery/SearchWorker.py:12-20 | one more walked file adds its report when its name is a hit, raises when a hit's lookups raise, and changes nothing otherwise |
| Worker.EmptyQueryMatchesAll | Code/IndexlessQuery/SearchWorker.py:14 | with the empty query the search raises exactly when some file's lookups raise, and otherwise reports every file, in walk order |
| Worker.QueryCaseIgnored | Code/IndexlessQuery/SearchWorker.py:14 | lower-casing the query changes no match |
| Worker.EntriesMember | Code/IndexlessQuery/SearchWorker.py:11-12 | every file of every walk step is among the walked entries |
| Worker.SearchFiles | Code/IndexlessQuery/SearchWorker.py:9-21 | the loops return the matches of the walk's files in walk order, or nothing when the first failing size or time lookup of a hit raises |
| FilenameSort.StrLessTotal | Code/IndexlessQuery/SearchManager.py:80 | filename comparison is total |
| FilenameSort.StrLessTrans | Code/IndexlessQuery/SearchManager.py:80 | filename comparison is transitive |
| FilenameSort.InsertPermutes | Code/IndexlessQuery/SearchManager.py:80 | insertion adds exactly one element |
| FilenameSort.InsertSorted | Code/IndexlessQuery/SearchManager.py:80 | insertion keeps the order by filename |
| FilenameSort.SortByNameSorted | Code/IndexlessQuery/SearchManager.py:80 | the result is ordered by filename |
| FilenameSort.SortByNamePermutes | Code/IndexlessQuery/SearchManager.py:80 | the result is a permutation of the input |
| FilenameSort.InsertStable | Code/IndexlessQuery/SearchManager.py:80 | insertion keeps the relative order of equal filenames |
| FilenameSort.SortByNameStable | Code/IndexlessQuery/SearchManager.py:80 | the sort is stable: results with the same filename keep their order |
| FilenameSort.InsertInto | Code/IndexlessQuery/SearchManager.py:80 | the in-place step inserts element `i` into the sorted prefix and leaves the rest alone |
| FilenameSort.SortResults | Code/IndexlessQuery/SearchManager.py:80 | the array becomes the stable sort by filename of its old contents |
| Manager.WorkersDistinct | Code/IndexlessQuery/SearchManager.py:12-13 | three distinct worker URLs |
| Manager.SubdirsMembers | Code/IndexlessQuery/SearchManager.py:46-47 | the work list holds exactly the joined paths of the listed directories |
| Manager.WorkUnitsShape | Code/IndexlessQuery/SearchManager.py:46-50 | the base path comes last, after exactly the subdirectories |
| Manager.WorkUnits | Code/IndexlessQuery/SearchManager.py:46-50 | definition, no contract: the subdirectories, then the base path |
| Manager.StrideIndex | Code/IndexlessQuery/SearchManager.py:56-62 | worker `w` gets units `w`, `w+3`, … and `(n+2-w)/3` of them |
| Manager.StrideEmpty | Code/IndexlessQuery/SearchManager.py:56-62 | a worker beyond the number of units gets nothing |
| Manager.StridePartition | Code/IndexlessQuery/SearchManager.py:56-62 | the three shares together are exactly the units: each dealt once, none lost |
| Manager.Distribute | Code/IndexlessQuery/SearchManager.py:55-62 | the dictionary's keys are the first `min(n,3)` workers in insertion order, and each holds its round-robin share |
| Manager.DistributionIsPlan | Code/IndexlessQuery/SearchManager.py:55-77 | the requests sent for a distribution are those of the plan |
| Manager.DistributedRequests | Code/IndexlessQuery/SearchManager.py:66-72 | worker by worker, the requests are each worker's share in order |
| Manager.MergedMembers | Code/IndexlessQuery/SearchManager.py:65-77 | a result is merged exactly when some request's successful answer holds it; failures add nothing |
| Manager.Merged | Code/IndexlessQuery/SearchManager.py:65-77 | definition, no contract: the successful answers concatenated in request order |
| Manager.FanOut | Code/IndexlessQuery/SearchManager.py:65-77 | the loops send the planned requests in worker then directory order and concatenate the answers |
| Manager.PlannedCoversUnits | Code/IndexlessQuery/SearchManager.py:55-77 | every unit is searched by worker `i mod 3` with the query |
| Manager.PlannedOnlyUnits | Code/IndexlessQuery/SearchManager.py:55-77 | every request carries the query and one of the units |
| Manager.ApiSearch | Code/IndexlessQuery/SearchManager.py:38-81 | a listing error gives the 400 message and sends nothing; otherwise the planned requests are sent and the answers returned sorted by filename |
| Manager.SortCopy | Code/IndexlessQuery/SearchManager.py:80 | the sorted copy is the stable sort by filename |
| Manager.ApiResultsAreAnswers | Code/IndexlessQuery/SearchManager.py:65-81 | the response is ordered by filename, a permutation of the merged answers, and holds exactly the results of successful requests |
| PyStr.Lower | Code/MiddleManagement/SearchSelectorProxy.py:44 | lower-casing keeps the length and lowers each character |
| PyStr.LowerIdempotent | Code/MiddleManagement/SearchSelectorProxy.py:44 | lowering twice is lowering once |
| PyStr.Strip | Code/MiddleManagement/SearchSelector.py:28 | the stripped text occurs in the original and neither begins nor ends with whitespace |
| PyStr.StripMiddle | Code/MiddleManagement/SearchSelector.py:28 | the stripped text is the slice starting where `lstrip` stops, and both cut-off ends are whitespace only |
| PyStr.StripEmptyIffBlank | Code/MiddleManagement/SearchSelector.py:28 | the stripped text is empty exactly when the text is blank |
| PyStr.StripLower | Code/MiddleManagement/SearchSelectorProxy.py:44 | stripping and lowering commute |
| PyStr.SplitWords | Code/MiddleManagement/SearchSelector.py:51 | `split()` yields whitespace-free, non-empty words |
| PyStr.SplitRuns | Code/MiddleManagement/SearchSelector.py:51 | the text is the pieces of `split()` in order, interleaved with whitespace-only gaps, and every gap between two pieces is non-empty, so the pieces are exactly the maximal runs of non-whitespace |
| PyStr.SplitEmptyIffBlank | Code/MiddleManagement/SearchSelector.py:51 | `split()` is empty exactly for blank text |
| PyStr.SplitTwoWords | Code/MiddleManagement/SearchSelector.py:51 | two words separated by a space split into those two words |
| PyStr.SplitOn | Code/SearchEngine.py:15 | `split(" ")` yields one more piece than there are spaces, none containing a space, and joining the pieces with spaces gives back the text |
| PyStr.RemoveAbsent | Code/MiddleManagement/SearchSelector.py:167 | replacing text that does not occur changes nothing |
| PyStr.PathJoin | Code/IndexlessQuery/SearchWorker.py:13 | joining an absolute name gives the name; otherwise the result is the directory, a `/` exactly when the directory is non-empty and does not end with one, then the name |
| PyStr.Suffix | Code/MiddleManagement/FileIndexer.py:26 | a suffix is empty or a dot followed by dot-free text, at the end of a longer name; it is non-empty exactly when the last dot is neither the first nor the last character |

## Left out

- ASCII only: `\w`, `[a-zA-Z]` and `str.lower()` are modelled on ASCII letters and digits. Non-ASCII case mappings and Unicode word characters are not modelled. `isspace` follows Python's full list.
- Logging, `print` and the debug messages are left out; they change no result.
- The HTTP and Flask layers are left out: argument parsing, JSON encoding, status codes other than the manager's 400, and a missing `q` or `path` on a worker.
  - A worker answer is a given function: results or `None`.
  - Worker URLs are constants.
  - Starting and stopping worker processes (`start_workers`, `cleanup_workers`, `main`) is not modelled.
- Clock: `time.time()` is a parameter. `Proxy.SearchSelectorProxy.SearchPrompt` uses one `now` for both the cache lookup and the store, where the source reads the clock twice a few instants apart.
- `Cache.SearchCache.Stats`: the `memory_usage_estimate` field is not modelled (SearchCache.py:93-112). It depends on `sys.getsizeof`, i.e. the interpreter's object sizes.
- SQL semantics (full-text ranking, `ILIKE`, `DISTINCT`, `ORDER BY`) are not modelled. The database is a function of the statement and its parameters, so the model states which statement and parameters are sent and how the rows are used, not which rows match.
- The `isinstance(content, list)` test of `search_by_path_and_content` is modelled by a separate `Words` case of the content argument; Python's dynamic typing is not.
- File system: the directory tree, `stat()`, the file texts and their failures are given values; for the worker, the walk is the given sequence of `(root, files)` steps `os.walk` yields (it skips unreadable directories itself), and `os.path.getsize`/`os.path.getmtime` are given lookups that may fail (an exception there leaves `search_files`, which `Worker.SearchFiles` models as `None`). `p.absolute()` is taken as the path stored in the tree, and reading with `errors='ignore'` is taken as the given text.
- Times are exact reals: `time.time()` (SearchCache.py:38,56,82) and `os.path.getmtime` (SearchWorker.py:19) return floats, and the model's `Cache.Entry.timestamp`, `Cache.Live` and `Worker.Match.modified` do not round. At the expiry boundary, `now - timestamp < expiry_time` on floats can differ from the exact comparison by one rounding step.
- The sort key's default `x.get("filename", "")` (IndexlessQuery/SearchManager.py:80) is not modelled: a worker report always carries a filename, so `Worker.Match` has no missing-filename case.
- `datetime.fromtimestamp` is left out: times stay as seconds since the epoch.
- PyStr.Strip: its own contract gives only the shape of the result (a slice without surrounding whitespace); which slice it is, with both cut-off ends blank, is stated by `PyStr.StripMiddle`, because putting it on the function makes its callers' proofs too costly.
- PyStr.SplitWords: states only that each piece is a word; that the pieces are the maximal runs of non-whitespace, in order, is stated by `PyStr.SplitRuns`.
- Keywords.LetterWords: its own contract states one direction (every word found has three or more letters); the two-way membership is stated by `Keywords.LetterWordsMembers`.
- Selector.FindFrom: its own contract states only that the tokens are well formed; the scan order (leftmost match first, resuming after it, nothing where the pattern never matches) is stated by `Selector.FindFromEmpty` and `Selector.FindFromLeftmost`.
- `FileIndexer.Indexer.AddFile` and `LegacyIndexer.LegacyIndexer.AddFile` record the record handed to the database. Whether the database accepts it is not modelled, since the source only logs a refusal.
- `DBManager.py`, `db_manager.py`, `Database/SchemaManager.py`, `Database/FileManager.py`, `Database/DBConnection.py` and `Main.py` are not part of this model. They hold schema creation, connection handling and start-up plumbing.
