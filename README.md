# Fixed-window rate limiter over an in-memory TTL counter store

This project models the core of an IP-based rate limiter written in Rust and proves properties of the model in Dafny.

- **The in-memory cache** (`InMemory`, `in_memory.dfy`). It maps a key to a `CacheEntry(value, expiresAt)` and expires entries lazily.
  - `get` returns the value only while `expiresAt > now`. When it finds an expired entry, it removes it.
  - `set` overwrites the entry with expiry `now + ttl`.
  - `incr` inserts `amount` with expiry `now` for an absent key. It adds to a live entry and keeps its expiry. It resets an expired entry to `amount` and keeps its old expiry.
  - Each operation has a pure specification function (`GetSpec`, `SetSpec`, `IncrSpec`). The class `InMemoryCache` holds the map as a field, and its methods are proved equal to those functions.
- **The limiter** (`Limiter`, `limiter.dfy`). `allow(ip)` builds the key `"rate_limit:" + ip` and reads the count, with an absent count read as 0. It denies when the count is at or above `limit`. Otherwise it calls `incr(key, 1)`. When `incr` returns 1, it stamps the window with `set(key, 1, ttl)` and ignores the reply of that `set`. An error from `incr` denies the request (fail closed).
  - `Decide` gives the verdict and the exact sequence of backend calls for any backend, as a function of that backend's replies. This stands in for the generic `CacheBackend` trait.
  - `AllowSpec` is `allow` over the in-memory store. `RateLimiter.Allow` is the imperative method on the limiter object, and it is proved equal to `AllowSpec`.
- **Runs of calls and the unit test** (`LimiterTests`, `limiter_tests.dfy`). These cover the following:
  - a window admits exactly `limit` requests;
  - after the window expires, the next request is admitted and the count restarts at 1;
  - `limit = 0` denies everything;
  - counts stay at or below `limit`.
  - The unit test is restated twice: once as written and once as intended (see Findings).

Time is explicit. Each store call receives a timestamp `now: nat`, and a `Duration` is a `ttl: nat` in the same unit. A `Clock(atGet, atIncr, atSet)` gives the instants of the three store calls one `allow` may make. The in-memory cache can never fail, so `Decide` is also where the failing-backend paths are stated. A failing backend here means a networked cache answering `Err`.

Two behaviours of the code worth noting:
- An expired entry that `incr` resets keeps its old, already-past expiry (src/cache/in_memory.rs:56-58). It is not restamped to `now`.
- A denied request is not free of mutation in every case. With `limit = 0`, the `get` still removes an expired entry for the key, so `AllowSpec` states that a denial leaves exactly the store that `get` left.

## Model

| member | source | states |
|---|---|---|
| `InMemory.GetSpec` | src/cache/in_memory.rs:27-44 | Returns `Some` iff the key's entry is live (`expiresAt > now`), and then its value with the store unchanged. An expired entry is removed and `None` returned. An absent key returns `None` and changes nothing. Other keys are untouched. |
| `InMemory.SetSpec` | src/cache/in_memory.rs:46-51 | Always `Ok`. The key then maps to `(value, now + ttl)`, replacing any entry, and is live exactly before `now + ttl`. Other keys are untouched. |
| `InMemory.IncrSpec` | src/cache/in_memory.rs:53-71 | Never `Err`, and returns the value now stored. Absent key: `(amount, now)`, already expired until a `set` stamps it again. Live entry: value plus `amount`, expiry kept (requires no `u32` overflow). Expired entry: `amount`, expiry kept. Only its own key changes. |
| `InMemory.InMemoryCache.constructor` | src/cache/in_memory.rs:19-23 | A new cache has an empty store. |
| `InMemory.InMemoryCache.Get` | src/cache/in_memory.rs:27-44 | Reply and new store are those of `GetSpec` on the old store. |
| `InMemory.InMemoryCache.Set` | src/cache/in_memory.rs:46-51 | Reply and new store are those of `SetSpec` on the old store. |
| `InMemory.InMemoryCache.Incr` | src/cache/in_memory.rs:53-71 | Reply and new store are those of `IncrSpec` on the old store. |
| `Limiter.Key` | src/limiter.rs:60 | The key is `"rate_limit:"` followed by exactly the ip. |
| `Limiter.Count` | src/limiter.rs:65 | The count `allow` reads: the value `get` returned, or 0 when `get` returned `None`. |
| `Limiter.KeyInjective` | src/limiter.rs:60 | Two ips share a key iff they are equal. |
| `Limiter.Decide` | src/limiter.rs:58-83 | For any backend, the exact call list: one `get(key)`, then one `incr(key, 1)` iff the count (absent = 0) is below `limit`, then one `set(key, 1, ttl)` iff additionally `incr` returned `Ok(1)`; every call is on that ip's key. It admits iff under the limit and `incr` succeeded: an `incr` error denies, and the `set` reply never matters. `limit = 0` denies. |
| `Limiter.AllowSpec` | src/limiter.rs:58-83 | Over the in-memory store, the request is admitted iff the live count (absent or expired = 0) is below `limit`. A denial leaves what `get` left. An admission on a window live at both `get` and `incr` with count in `1..limit-1` raises the count by one and keeps the expiry, the rest of the store unchanged. Every other admission leaves `s[key := (1, atSet + ttl)]`. Admitted counts are in `1..limit`; other keys are unchanged. |
| `Limiter.AllowSpecFollowsDecide` | src/limiter.rs:58-83 | The in-memory `allow` is `Decide` fed with the in-memory replies. `set` is issued exactly when the admitted count is 1. |
| `Limiter.AllowKeepsCountsWithin` | src/limiter.rs:65-76 | After `allow`, the key's count is at most `limit` unless it was already above `limit` and is unchanged. "Every count ≤ limit" is preserved. |
| `Limiter.AllowIsolatesAddresses` | src/limiter.rs:58-83 | A call for one ip leaves the entry of every other ip as it was. |
| `Limiter.RateLimiter.constructor` | src/limiter.rs:38-40 | Stores `cache`, `limit` and `ttl` unchanged. |
| `Limiter.RateLimiter.Allow` | src/limiter.rs:58-83 | The verdict and the cache's new store are those of `AllowSpec` on the old store. |
| `LimiterTests.AllowAll` | src/limiter.rs:65-76 | Over any run of calls for one ip, other keys are unchanged and "every count ≤ limit" is preserved. |
| `LimiterTests.AllowAllAppend` | src/limiter.rs:58-83 | Running two batches of calls in sequence is the same as running their concatenation. |
| `LimiterTests.ZeroLimitDeniesAll` | src/limiter.rs:65-69 | With `limit = 0`, every call in any run is denied, for any store and timing. |
| `LimiterTests.WindowContinues` | src/limiter.rs:65-76 | Inside a live window holding `count ≥ 1`, calls made before its expiry are admitted while `count + i < limit` and denied after that. The count ends at `min(count + n, limit)` and the expiry never moves. |
| `LimiterTests.FixedWindow` | src/limiter.rs:65-76 | A window opened by a call that finds no live entry admits exactly its first `limit` calls before expiry. It ends with count `min(n, limit)` and expiry `ttl` after the first call's `set`. |
| `LimiterTests.WindowRestarts` | src/limiter.rs:65-76 | Once the key's entry has expired, the next call is admitted. The entry becomes `(1, atSet + ttl)`: the count restarts instead of accumulating. |
| `LimiterTests.WindowThenRestart` | src/limiter.rs:106-122 | A full window, then a call after its expiry: exactly the first `limit` calls are admitted, and the late call is admitted with the count back at 1. |
| `LimiterTests.TestAllowsAndBlocksAsWritten` | src/limiter.rs:94-125 | The unit test as written, with 12 calls: verdicts are 5 × true, 6 × false, then true after the sleep. |
| `LimiterTests.TestAllowsAndBlocks` | src/limiter.rs:106-122 | The unit test as intended, with 7 calls: verdicts are 5 × true, false, then true after the sleep. |

## Findings

| source | as written | input that shows it | evidently intended | confidence | as-written member | corrected member |
|---|---|---|---|---|---|---|
| src/limiter.rs:107-114 | Each loop iteration calls `allow` twice: once in the `println!` and once in an `assert!` whose `\|\| true` makes it always hold | A fresh limiter with limit 5: calls 6-10 are made and denied inside the loop, so the call asserted denied at line 114 is the 11th | Five calls in the loop, each checked as admitted, and the 6th denied at line 114 | high; not executed | `LimiterTests.TestAllowsAndBlocksAsWritten` | `LimiterTests.TestAllowsAndBlocks` |

## Left out

- Concurrency is not modelled: the `DashMap` per-key locking, `Arc` sharing and the `Send + Sync` bounds. The store is a map updated sequentially, so the check-then-increment race between concurrent `allow` calls is out of scope.
- The real clock (`Instant::now`, `Duration`) is replaced by timestamps and durations that the caller supplies.
- `thread::sleep` and `println!` in the unit test are left out. The timing becomes a requirement on the timestamps: every call before the sleep makes its `get`, and its `incr` if it makes one, within one second of the first call's `set` (the bound is stated on `atIncr`, which is not before `atGet`), and every call after the sleep starts at least one second after that `set`.
- Error payloads (`String`) are not modelled. `Result` only distinguishes success from failure.
- Backends other than the in-memory cache, such as Redis, are not modelled as implementations. A generic backend appears only through its replies, in `Limiter.Decide`.
- The `CacheBackend` trait is not modelled as an interface type. `Limiter.Decide` quantifies over backend replies instead.
- InMemory.IncrSpec: requires that adding to a live entry does not overflow `u32`. The code's `+=` would panic or wrap there. `allow` only reaches `incr` with a count below `limit`, so the requirement always holds on that path.
- The token-bucket limiter and the integration tests are not part of this model. They call a `RateLimiter::new(capacity, period)` that does not match `RateLimiter::new(cache, limit, ttl)` at src/limiter.rs:38, and src/limiter.rs defines no token bucket.
