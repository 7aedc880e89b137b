/**
 * The in-memory cache backend: a map from key to a counter and its expiry instant,
 * with lazy expiry (an entry is only reclaimed when a `get` finds it expired).
 *
 * The real clock is replaced by a timestamp `now: nat` that the caller passes to every
 * operation, and a `Duration` by a `ttl: nat` in the same unit.  The concurrent map is
 * modelled as a plain `map` field updated sequentially.
 */
module InMemory {
  import opened Wrappers

  /** One stored counter: its value and the instant from which it counts as expired. */
  datatype CacheEntry = CacheEntry(value: u32, expiresAt: nat)

  type Store = map<string, CacheEntry>

  /** An entry for `key` exists and has not yet expired at `now` (expiry is strict: `expiresAt > now`). */
  predicate Live(s: Store, key: string, now: nat)
  {
    key in s && s[key].expiresAt > now
  }

  /** `s` and `s'` agree on every key other than `key`. */
  ghost predicate SameElsewhere(s: Store, s': Store, key: string)
  {
    forall k :: k != key ==> (k in s <==> k in s') && (k in s ==> s'[k] == s[k])
  }

  /** The reply of `get` and the store it leaves behind. */
  function GetSpec(s: Store, key: string, now: nat): (r: (Option<u32>, Store))
    ensures r.0.Some? <==> Live(s, key, now)
    ensures r.0.Some? ==> r.0.value == s[key].value && r.1 == s
    ensures key in s && !Live(s, key, now) ==> r.1 == s - {key}
    ensures key !in s ==> r.1 == s
    ensures key !in r.1 || Live(r.1, key, now)
    ensures SameElsewhere(s, r.1, key)
  {
    if key in s then
      if s[key].expiresAt > now then (Some(s[key].value), s)
      else (None, s - {key})
    else (None, s)
  }

  /** The reply of `set` and the store it leaves behind. */
  function SetSpec(s: Store, key: string, value: u32, ttl: nat, now: nat): (r: (Result<()>, Store))
    ensures r.0 == Ok(())
    ensures key in r.1 && r.1[key] == CacheEntry(value, now + ttl)
    ensures r.1.Keys == s.Keys + {key}
    ensures SameElsewhere(s, r.1, key)
    ensures forall t: nat :: Live(r.1, key, t) <==> t < now + ttl
  {
    (Ok(()), s[key := CacheEntry(value, now + ttl)])
  }

  /**
   * `incr` adds with a plain `+=` on `u32`, so adding to a live entry must not
   * overflow; an expired or absent entry is reset to `amount`, which always fits.
   */
  predicate IncrFits(s: Store, key: string, amount: u32, now: nat)
  {
    Live(s, key, now) ==> s[key].value + amount <= U32_MAX
  }

  /** The reply of `incr` and the store it leaves behind. */
  function IncrSpec(s: Store, key: string, amount: u32, now: nat): (r: (Result<u32>, Store))
    requires IncrFits(s, key, amount, now)
    ensures r.0.Ok? && key in r.1 && r.0.value == r.1[key].value
    ensures key !in s ==> r.1[key] == CacheEntry(amount, now)
    ensures Live(s, key, now) ==> r.1[key] == CacheEntry(s[key].value + amount, s[key].expiresAt)
    ensures key in s && !Live(s, key, now) ==> r.1[key] == CacheEntry(amount, s[key].expiresAt)
    ensures !Live(r.1, key, now) <==> !Live(s, key, now)
    ensures r.1.Keys == s.Keys + {key}
    ensures SameElsewhere(s, r.1, key)
  {
    if key in s then
      var entry := s[key];
      var value: u32 := if entry.expiresAt <= now then amount else entry.value + amount;
      (Ok(value), s[key := entry.(value := value)])
    else
      (Ok(amount), s[key := CacheEntry(amount, now)])
  }

  /** The store object; `store` is the whole of its state. */
  class InMemoryCache {
    var store: Store

    /** A new cache holds no entries. */
    constructor ()
      ensures store == map[]
    {
      store := map[];
    }

    /** Returns the value of a live entry; removes an expired one. */
    method Get(key: string, now: nat) returns (r: Option<u32>)
      modifies this
      ensures (r, store) == GetSpec(old(store), key, now)
    {
      if key in store {
        var entry := store[key];
        if entry.expiresAt > now {
          return Some(entry.value);
        } else {
          store := store - {key};
          return None;
        }
      } else {
        return None;
      }
    }

    /** Overwrites the entry for `key` with `value`, expiring `ttl` after `now`. */
    method Set(key: string, value: u32, ttl: nat, now: nat) returns (r: Result<()>)
      modifies this
      ensures (r, store) == SetSpec(old(store), key, value, ttl, now)
    {
      var expiresAt := now + ttl;
      store := store[key := CacheEntry(value, expiresAt)];
      return Ok(());
    }

    /**
     * Adds `amount` to a live entry, resets an expired one to `amount` (keeping its
     * expiry), or inserts `amount` with expiry `now`, left for the caller to correct.
     */
    method Incr(key: string, amount: u32, now: nat) returns (r: Result<u32>)
      requires IncrFits(store, key, amount, now)
      modifies this
      ensures (r, store) == IncrSpec(old(store), key, amount, now)
    {
      if key in store {
        var entry := store[key];
        if entry.expiresAt <= now {
          entry := entry.(value := amount);
        } else {
          entry := entry.(value := entry.value + amount);
        }
        store := store[key := entry];
        return Ok(entry.value);
      } else {
        store := store[key := CacheEntry(amount, now)];
        return Ok(amount);
      }
    }
  }
}
