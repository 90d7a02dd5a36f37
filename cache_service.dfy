/** The response cache of `src/services/cache_service.js`: one key-value
    store whose entries all live for the same 300 seconds. The wall clock is
    an explicit `now` argument, in seconds. */
module CacheService {
  import opened Wrappers

  /** The `stdTTL` the store is created with, in seconds; no entry is given
      a TTL of its own. */
  const StdTtl: int := 300

  /** A stored value and the time it was stored. */
  datatype Entry<V> = Entry(value: V, insertedAt: int)

  /** What a read of `key` at time `now` observes: the stored value while
      fewer than `StdTtl` seconds have passed since it was stored, otherwise
      nothing (`undefined`). */
  function Lookup<V>(entries: map<string, Entry<V>>, key: string, now: int): Option<V>
  {
    if key in entries && now - entries[key].insertedAt < StdTtl then Some(entries[key].value) else None
  }

  /** The entries after storing `value` under `key` at time `now`. */
  function Store<V>(entries: map<string, Entry<V>>, key: string, value: V, now: int): map<string, Entry<V>>
  {
    entries[key := Entry(value, now)]
  }

  /** The module-level `cache` object. */
  class TtlCache<V> {
    var entries: map<string, Entry<V>>

    /** `new NodeCache({ stdTTL: 300 })`: an empty store. */
    constructor ()
      ensures entries == map[]
    {
      entries := map[];
    }

    /** `fetchFromCache(key)`: the live value stored under `key`, if any. It
        changes nothing, so it cannot affect what later reads observe. */
    method Fetch(key: string, now: int) returns (r: Option<V>)
      ensures r == Lookup(entries, key, now)
    {
      if key in entries && now - entries[key].insertedAt < StdTtl {
        r := Some(entries[key].value);
      } else {
        r := None;
      }
    }

    /** `saveToCache(key, value)`: inserts or overwrites the entry for `key`,
        restarting its 300-second window. */
    method Save(key: string, value: V, now: int)
      modifies this
      ensures entries == Store(old(entries), key, value, now)
    {
      entries := entries[key := Entry(value, now)];
    }
  }

  /** A value saved at `t` is what every read of its key returns until 300
      seconds have passed, and nothing is returned from then on. */
  lemma SaveThenFetch<V>(entries: map<string, Entry<V>>, key: string, value: V, t: int, now: int)
    requires t <= now
    ensures now < t + StdTtl ==> Lookup(Store(entries, key, value, t), key, now) == Some(value)
    ensures now >= t + StdTtl ==> Lookup(Store(entries, key, value, t), key, now) == None
  {
  }

  /** A key that was never saved is never found. */
  lemma NeverSavedIsAbsent<V>(entries: map<string, Entry<V>>, key: string, now: int)
    requires key !in entries
    ensures Lookup(entries, key, now) == None
  {
  }

  /** Saving one key leaves what every other key reads unchanged. */
  lemma SaveIsolated<V>(entries: map<string, Entry<V>>, key: string, value: V, t: int, other: string, now: int)
    requires other != key
    ensures Lookup(Store(entries, key, value, t), other, now) == Lookup(entries, other, now)
  {
  }

  /** A second save of the same key replaces the first value and its window. */
  lemma SaveOverwrites<V>(entries: map<string, Entry<V>>, key: string, v1: V, t1: int, v2: V, t2: int)
    ensures Store(Store(entries, key, v1, t1), key, v2, t2) == Store(entries, key, v2, t2)
  {
  }

  /** Every entry lives exactly `StdTtl`: once found, an entry stays visible
      at every later time up to the TTL, whatever its key. */
  lemma UniformTtl<V>(entries: map<string, Entry<V>>, key: string, now: int, later: int)
    requires Lookup(entries, key, now).Some?
    requires now <= later < entries[key].insertedAt + StdTtl
    ensures Lookup(entries, key, later) == Lookup(entries, key, now)
  {
  }
}
