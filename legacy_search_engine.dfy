/**
 * The first search front end, `FileSearcher.search_prompt`: one store call chosen by the
 * shape of the prompt, whose answer is returned as it is.
 */
module LegacySearchEngine {
  import opened PyStr
  import SearchStore

  /** The legacy store's three lookups, each taking the prompt as a string. */
  datatype LegacyStore = LegacyStore(
    byExtension: string -> seq<SearchStore.SearchResult>,
    multiWords: string -> seq<SearchStore.SearchResult>,
    byContent: string -> seq<SearchStore.SearchResult>)

  /** The call made, with its argument. */
  datatype LegacyCall = ByExtension(prompt: string) | MultiWords(prompt: string) | ByContent(prompt: string)

  /** The if/elif chain: a leading dot, then more than one piece of `prompt.split(" ")`. */
  function Route(prompt: string): LegacyCall {
    if StartsWith(prompt, ".") then ByExtension(prompt)
    else if |SplitOn(prompt, ' ')| > 1 then MultiWords(prompt)
    else ByContent(prompt)
  }

  function Answer(store: LegacyStore, call: LegacyCall): seq<SearchStore.SearchResult> {
    match call
    case ByExtension(p) => store.byExtension(p)
    case MultiWords(p) => store.multiWords(p)
    case ByContent(p) => store.byContent(p)
  }

  /** `search_prompt(prompt)` */
  function SearchPrompt(store: LegacyStore, prompt: string): seq<SearchStore.SearchResult> {
    Answer(store, Route(prompt))
  }

  /** The prompt is passed on untouched, dot and spaces included; a prompt starting with a
      dot goes to the extension lookup, otherwise any space at all (leading, trailing or
      doubled) sends it to the multi-word lookup, and otherwise to the content lookup. */
  lemma RouteSpec(prompt: string)
    ensures Route(prompt).prompt == prompt
    ensures Route(prompt).ByExtension? <==> |prompt| > 0 && prompt[0] == '.'
    ensures Route(prompt).MultiWords? <==> !(|prompt| > 0 && prompt[0] == '.') && ' ' in prompt
    ensures Route(prompt).ByContent? <==> !(|prompt| > 0 && prompt[0] == '.') && ' ' !in prompt
  {
    assert StartsWith(prompt, ".") <==> |prompt| > 0 && prompt[0] == '.' by {
      if |prompt| > 0 {
        assert prompt[..1] == [prompt[0]];
      }
    }
    assert ' ' in prompt <==> multiset(prompt)[' '] > 0;
  }

  /** The answer is the store's answer to that one call. */
  lemma SearchPromptAnswers(store: LegacyStore, prompt: string, r: SearchStore.SearchResult)
    ensures r in SearchPrompt(store, prompt) <==>
            if |prompt| > 0 && prompt[0] == '.' then r in store.byExtension(prompt)
            else if ' ' in prompt then r in store.multiWords(prompt)
            else r in store.byContent(prompt)
  {
    RouteSpec(prompt);
  }
}
