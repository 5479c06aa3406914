/**
 * The time-to-live cache of search results: a dictionary from a query key to the results
 * and the time they were stored.  Entries are not swept; an expired entry is dropped when a
 * lookup finds it.  The clock is a `now` parameter of each operation that reads it.
 */
module Cache {
  import opened Wrappers
  import opened SearchStore

  /** Seconds an entry stays usable when no expiry is given. */
  const DefaultExpiry: real := 600.0

  /** The cached results for one key and the time they were stored. */
  datatype Entry = Entry(results: seq<SearchResult>, timestamp: real)

  /** What `stats` reports, without the memory estimate. */
  datatype CacheStats = CacheStats(totalEntries: nat, activeEntries: nat, expiredEntries: nat)

  /** An entry is still usable at `now` while it is younger than the expiry time. */
  predicate Live(e: Entry, now: real, expiry: real) {
    now - e.timestamp < expiry
  }

  function ActiveKeys(m: map<string, Entry>, now: real, expiry: real): set<string> {
    set k | k in m && Live(m[k], now, expiry)
  }

  function ExpiredKeys(m: map<string, Entry>, now: real, expiry: real): set<string> {
    set k | k in m && !Live(m[k], now, expiry)
  }

  /** Every key is either active or expired, never both. */
  lemma {:induction false} ActiveExpiredPartition(m: map<string, Entry>, now: real, expiry: real)
    ensures |ActiveKeys(m, now, expiry)| + |ExpiredKeys(m, now, expiry)| == |m|
  {
    var a, e := ActiveKeys(m, now, expiry), ExpiredKeys(m, now, expiry);
    assert a + e == m.Keys;
    assert a * e == {};
  }

  /** `stats()` at time `now`: all entries, the live ones, and the rest. */
  function StatsOf(m: map<string, Entry>, now: real, expiry: real): (s: CacheStats)
    ensures s.totalEntries == |m|
    ensures s.activeEntries == |ActiveKeys(m, now, expiry)|
    ensures s.expiredEntries == |ExpiredKeys(m, now, expiry)|
    ensures s.activeEntries + s.expiredEntries == s.totalEntries
  {
    ActiveExpiredPartition(m, now, expiry);
    CacheStats(|m|, |ActiveKeys(m, now, expiry)|, |m| - |ActiveKeys(m, now, expiry)|)
  }

  /** An empty cache reports no entry of any kind. */
  lemma ClearedStats(now: real, expiry: real)
    ensures StatsOf(map[], now, expiry) == CacheStats(0, 0, 0)
  {
  }

  /** Dropping an expired entry, as a lookup does, leaves the active entries as they were. */
  lemma {:induction false} EvictionKeepsActive(m: map<string, Entry>, key: string, now: real, expiry: real)
    requires key in m && !Live(m[key], now, expiry)
    ensures ActiveKeys(m - {key}, now, expiry) == ActiveKeys(m, now, expiry)
    ensures StatsOf(m - {key}, now, expiry).activeEntries == StatsOf(m, now, expiry).activeEntries
    ensures StatsOf(m - {key}, now, expiry).expiredEntries + 1 == StatsOf(m, now, expiry).expiredEntries
  {
    var e := ExpiredKeys(m, now, expiry);
    assert ExpiredKeys(m - {key}, now, expiry) == e - {key};
    assert ActiveKeys(m - {key}, now, expiry) == ActiveKeys(m, now, expiry);
  }

  /** An entry just stored is found live by a lookup less than the expiry time later. */
  lemma StoredIsLive(m: map<string, Entry>, key: string, results: seq<SearchResult>,
                     stored: real, now: real, expiry: real)
    requires now - stored < expiry
    ensures key in ActiveKeys(m[key := Entry(results, stored)], now, expiry)
  {
  }

  class SearchCache {
    /** The dictionary from key to results and storage time. */
    var entries: map<string, Entry>
    /** Seconds an entry stays usable. */
    const expiryTime: real

    constructor(expiryTime: real)
      ensures this.expiryTime == expiryTime && entries == map[]
    {
      this.expiryTime := expiryTime;
      entries := map[];
    }

    /** The cache as built without an explicit expiry time. */
    constructor WithDefaultExpiry()
      ensures expiryTime == DefaultExpiry && entries == map[]
    {
      expiryTime := DefaultExpiry;
      entries := map[];
    }

    /** `get(key)`: the stored results while they are live; an expired entry is dropped on
        the way, and nothing else changes. */
    method Get(key: string, now: real) returns (r: Option<seq<SearchResult>>)
      modifies this
      ensures r.Some? <==> key in old(entries) && Live(old(entries)[key], now, expiryTime)
      ensures r.Some? ==> r.value == old(entries)[key].results && entries == old(entries)
      ensures r.None? ==> entries == old(entries) - {key}
      ensures key in old(entries) && !Live(old(entries)[key], now, expiryTime) ==> key !in entries
    {
      if key in entries {
        var e := entries[key];
        if now - e.timestamp < expiryTime {
          return Some(e.results);
        } else {
          entries := entries - {key};
        }
      }
      assert key !in old(entries) ==> old(entries) - {key} == old(entries);
      return None;
    }

    /** `set(key, results)`: the entry for `key` becomes `(results, now)`, whatever was there. */
    method Set(key: string, results: seq<SearchResult>, now: real)
      modifies this
      ensures entries == old(entries)[key := Entry(results, now)]
    {
      entries := entries[key := Entry(results, now)];
    }

    /** `clear()` */
    method Clear()
      modifies this
      ensures entries == map[]
    {
      entries := map[];
    }

    /** `remove(key)`: drops that key only; an absent key leaves the cache as it is. */
    method Remove(key: string)
      modifies this
      ensures entries == old(entries) - {key}
      ensures key !in old(entries) ==> entries == old(entries)
    {
      if key in entries {
        entries := entries - {key};
      }
    }

    /** `stats()` at time `now`, counting the live entries one key at a time. */
    method Stats(now: real) returns (s: CacheStats)
      ensures s == StatsOf(entries, now, expiryTime)
    {
      var todo := entries.Keys;
      var active := 0;
      while todo != {}
        invariant todo <= entries.Keys
        invariant active == |set k | k in entries.Keys - todo && Live(entries[k], now, expiryTime)|
        decreases |todo|
      {
        var k :| k in todo;
        ghost var before := set k' | k' in entries.Keys - todo && Live(entries[k'], now, expiryTime);
        ghost var after := set k' | k' in entries.Keys - (todo - {k}) && Live(entries[k'], now, expiryTime);
        if now - entries[k].timestamp < expiryTime {
          assert after == before + {k};
          active := active + 1;
        } else {
          assert after == before;
        }
        todo := todo - {k};
      }
      assert (set k | k in entries.Keys - {} && Live(entries[k], now, expiryTime)) == ActiveKeys(entries, now, expiryTime);
      var total := |entries|;
      ActiveExpiredPartition(entries, now, expiryTime);
      s := CacheStats(total, active, total - active);
    }
  }
}
