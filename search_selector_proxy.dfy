/**
 * The caching proxy in front of the search selector.  It answers a prompt from the cache
 * when a live entry exists under the prompt's normalised key, and otherwise forwards the
 * original prompt to the selector and caches a non-empty answer.
 */
module Proxy {
  import opened PyStr
  import opened SearchStore
  import opened Cache
  import Selector

  /** The cache key of a prompt: stripped, then lower-cased. */
  function NormalizedKey(prompt: string): string {
    Lower(Strip(prompt))
  }

  /** Prompts that differ only in letter case share a cache entry. */
  lemma {:induction false} KeyIgnoresCase(prompt: string)
    ensures NormalizedKey(Lower(prompt)) == NormalizedKey(prompt)
  {
    StripLower(prompt);
    var s := Strip(prompt);
    LowerIdempotent(s);
  }

  /** Prompts that differ only in surrounding whitespace share a cache entry. */
  lemma {:induction false} KeyIgnoresSurroundingSpace(prompt: string, c: char)
    requires IsSpace(c)
    ensures NormalizedKey([c] + prompt) == NormalizedKey(prompt)
    ensures NormalizedKey(prompt + [c]) == NormalizedKey(prompt)
  {
    StripLeadingSpace(c, prompt);
    StripTrailingSpace(prompt, c);
  }

  /** One `search_prompt` through the proxy: the answer, the cache afterwards, and whether
      the selector was called. */
  datatype ProxyOutcome = ProxyOutcome(results: seq<SearchResult>, entries: map<string, Entry>, forwarded: bool)

  /** `SearchSelectorProxy.search_prompt` against the cache `entries` at time `now`, where
      `answer` is what the real selector answers to `prompt` (asked for only on a miss). */
  function ProxySearch(answer: seq<SearchResult>, entries: map<string, Entry>, expiry: real,
                       prompt: string, now: real): ProxyOutcome {
    if Strip(prompt) == [] then ProxyOutcome([], entries, false)
    else
      var key := NormalizedKey(prompt);
      if key in entries && Live(entries[key], now, expiry) then ProxyOutcome(entries[key].results, entries, false)
      else
        var base := entries - {key};
        ProxyOutcome(answer, if answer != [] then base[key := Entry(answer, now)] else base, true)
  }

  /** A live entry under the prompt's key answers it. */
  lemma ProxyHit(answer: seq<SearchResult>, entries: map<string, Entry>, expiry: real,
                 prompt: string, now: real)
    requires Strip(prompt) != [] && NormalizedKey(prompt) in entries
    requires Live(entries[NormalizedKey(prompt)], now, expiry)
    ensures ProxySearch(answer, entries, expiry, prompt, now) ==
            ProxyOutcome(entries[NormalizedKey(prompt)].results, entries, false)
  {
  }

  /** Without a live entry the selector answers, on a cache cleared of the stale entry. */
  lemma ProxyMiss(answer: seq<SearchResult>, entries: map<string, Entry>, expiry: real,
                  prompt: string, now: real)
    requires Strip(prompt) != []
    requires !(NormalizedKey(prompt) in entries && Live(entries[NormalizedKey(prompt)], now, expiry))
    ensures var base := entries - {NormalizedKey(prompt)};
            ProxySearch(answer, entries, expiry, prompt, now) ==
            ProxyOutcome(answer, if answer != [] then base[NormalizedKey(prompt) := Entry(answer, now)] else base, true)
  {
  }

  /** A blank prompt is answered with nothing, and neither the cache nor the selector is used. */
  lemma ProxyBlank(answer: seq<SearchResult>, entries: map<string, Entry>, expiry: real, prompt: string, now: real)
    requires IsBlank(prompt)
    ensures ProxySearch(answer, entries, expiry, prompt, now) == ProxyOutcome([], entries, false)
  {
    StripEmptyIffBlank(prompt);
  }

  /** The proxy is transparent: whatever it returns is either a live cached answer for the
      same key or exactly what the selector answers to the original prompt, and a forwarded
      answer is cached precisely when it is non-empty. */
  lemma ProxyAnswers(answer: seq<SearchResult>, entries: map<string, Entry>, expiry: real, prompt: string, now: real)
    requires !IsBlank(prompt)
    ensures var out := ProxySearch(answer, entries, expiry, prompt, now);
            var key := NormalizedKey(prompt);
            (out.forwarded <==> !(key in entries && Live(entries[key], now, expiry))) &&
            (!out.forwarded ==> out.results == entries[key].results && out.entries == entries) &&
            (out.forwarded ==> out.results == answer &&
                               (key in out.entries <==> out.results != []) &&
                               (forall k :: k != key ==> (k in out.entries <==> k in entries)) &&
                               (forall k :: k != key && k in entries ==> out.entries[k] == entries[k]))
  {
    StripEmptyIffBlank(prompt);
    var key := NormalizedKey(prompt);
    if key in entries && Live(entries[key], now, expiry) {
      ProxyHit(answer, entries, expiry, prompt, now);
    } else {
      ProxyMiss(answer, entries, expiry, prompt, now);
    }
  }

  /** No entry of the cache holds an empty answer. */
  ghost predicate NoEmptyEntries(entries: map<string, Entry>) {
    forall k :: k in entries ==> entries[k].results != []
  }

  /** Empty answers are never cached: a cache that holds none keeps holding none. */
  lemma ProxyNeverCachesEmpty(answer: seq<SearchResult>, entries: map<string, Entry>, expiry: real, prompt: string, now: real)
    requires NoEmptyEntries(entries)
    ensures NoEmptyEntries(ProxySearch(answer, entries, expiry, prompt, now).entries)
  {
  }

  /** Two prompts with the same key, the second less than the expiry time after the first,
      where the selector would answer `a1` to the first and `a2` to the second: the selector
      is called at most once when the first answer was non-empty, and when the first call
      went to the selector the second is answered from the cache with the same results. */
  lemma {:induction false} AtMostOnceWithinWindow(entries: map<string, Entry>, expiry: real,
                                                  p1: string, a1: seq<SearchResult>, t1: real,
                                                  p2: string, a2: seq<SearchResult>, t2: real)
    requires !IsBlank(p1) && !IsBlank(p2) && NormalizedKey(p1) == NormalizedKey(p2)
    requires t2 - t1 < expiry
    requires ProxySearch(a1, entries, expiry, p1, t1).results != []
    ensures var first := ProxySearch(a1, entries, expiry, p1, t1);
            var second := ProxySearch(a2, first.entries, expiry, p2, t2);
            !(first.forwarded && second.forwarded) &&
            (first.forwarded ==> second.results == first.results)
  {
    StripEmptyIffBlank(p1);
    StripEmptyIffBlank(p2);
    var key := NormalizedKey(p1);
    var first := ProxySearch(a1, entries, expiry, p1, t1);
    if first.forwarded {
      assert first.entries == (entries - {key})[key := Entry(first.results, t1)];
      assert Live(first.entries[key], t2, expiry);
    }
  }

  /** An empty answer is not remembered, so asking again calls the selector again. */
  lemma EmptyAnswerForwardedAgain(answer: seq<SearchResult>, entries: map<string, Entry>, expiry: real,
                                  prompt: string, t1: real, t2: real)
    requires !IsBlank(prompt)
    requires NormalizedKey(prompt) !in entries
    requires answer == []
    ensures var first := ProxySearch(answer, entries, expiry, prompt, t1);
            first.forwarded && ProxySearch(answer, first.entries, expiry, prompt, t2).forwarded
  {
    StripEmptyIffBlank(prompt);
  }

  class SearchSelectorProxy {
    /** The store the real selector searches. */
    const store: Store
    const cache: SearchCache
    /** The prompts passed on to the real selector, in order. */
    ghost var forwarded: seq<string>

    constructor(store: Store, cacheExpiry: real)
      ensures this.store == store && fresh(cache)
      ensures cache.entries == map[] && cache.expiryTime == cacheExpiry && forwarded == []
    {
      this.store := store;
      cache := new SearchCache(cacheExpiry);
      forwarded := [];
    }

    /** `SearchSelectorProxy(real_selector)`: the cache expiry left at its default. */
    constructor WithDefaultExpiry(store: Store)
      ensures this.store == store && fresh(cache)
      ensures cache.entries == map[] && cache.expiryTime == DefaultExpiry && forwarded == []
    {
      this.store := store;
      cache := new SearchCache.WithDefaultExpiry();
      forwarded := [];
    }

    /** `search_prompt(prompt)` at time `now`. */
    method SearchPrompt(prompt: string, now: real) returns (results: seq<SearchResult>)
      modifies this, cache
      ensures var out := ProxySearch(Selector.Dispatch(store, prompt).0, old(cache.entries), cache.expiryTime, prompt, now);
              results == out.results && cache.entries == out.entries &&
              forwarded == if out.forwarded then old(forwarded) + [prompt] else old(forwarded)
    {
      if Strip(prompt) == [] {
        StripEmptyIffBlank(prompt);
        ProxyBlank(Selector.Dispatch(store, prompt).0, cache.entries, cache.expiryTime, prompt, now);
        return [];
      }
      var key := Lower(Strip(prompt));
      ghost var before := cache.entries;
      var cached := cache.Get(key, now);
      if cached.Some? {
        ProxyHit(Selector.Dispatch(store, prompt).0, before, cache.expiryTime, prompt, now);
        return cached.value;
      }
      var calls;
      results, calls := Selector.SearchPrompt(store, prompt);
      ProxyMiss(results, before, cache.expiryTime, prompt, now);
      forwarded := forwarded + [prompt];
      if results != [] {
        cache.Set(key, results, now);
      }
    }

    /** `clear_cache()` */
    method ClearCache()
      modifies cache
      ensures cache.entries == map[]
    {
      cache.Clear();
    }

    /** `invalidate_cache()`: the same as clearing the cache. */
    method InvalidateCache()
      modifies cache
      ensures cache.entries == map[]
    {
      ClearCache();
    }

    /** `get_cache_stats()`: the cache's own statistics. */
    method GetCacheStats(now: real) returns (s: CacheStats)
      ensures s == StatsOf(cache.entries, now, cache.expiryTime)
    {
      s := cache.Stats(now);
    }
  }
}
