/**
 * Sequences of `allow` calls for one address over the in-memory store: a window admits
 * exactly `limit` requests, and the next request after the window's expiry opens a new
 * one.  The unit test of the limiter is restated with explicit timestamps.
 */
module LimiterTests {
  import opened Wrappers
  import opened InMemory
  import opened Limiter

  /** Runs `allow(ip)` once per clock, in order; the verdicts and the final store. */
  function AllowAll(s: Store, limit: u32, ttl: nat, ip: string, clocks: seq<Clock>): (r: (seq<bool>, Store))
    ensures |r.0| == |clocks|
    ensures SameElsewhere(s, r.1, Key(ip))
    ensures CountsWithin(s, limit) ==> CountsWithin(r.1, limit)
    decreases |clocks|
  {
    if clocks == [] then ([], s)
    else
      var (allowed, s1) := AllowSpec(s, limit, ttl, ip, clocks[0]);
      AllowKeepsCountsWithin(s, limit, ttl, ip, clocks[0]);
      var (rest, s2) := AllowAll(s1, limit, ttl, ip, clocks[1..]);
      ([allowed] + rest, s2)
  }

  /** Running two batches of calls one after the other is running them together. */
  lemma {:induction false} AllowAllAppend(s: Store, limit: u32, ttl: nat, ip: string, a: seq<Clock>, b: seq<Clock>)
    ensures var (va, sa) := AllowAll(s, limit, ttl, ip, a);
      var (vb, sb) := AllowAll(sa, limit, ttl, ip, b);
      AllowAll(s, limit, ttl, ip, a + b) == (va + vb, sb)
    decreases |a|
  {
    if a != [] {
      var (v0, s1) := AllowSpec(s, limit, ttl, ip, a[0]);
      assert (a + b)[0] == a[0] && (a + b)[1..] == a[1..] + b;
      AllowAllAppend(s1, limit, ttl, ip, a[1..], b);
      var (va', sa) := AllowAll(s1, limit, ttl, ip, a[1..]);
      var vb := AllowAll(sa, limit, ttl, ip, b).0;
      assert [v0] + va' + vb == [v0] + (va' + vb);
    } else {
      assert a + b == b;
      var vb := AllowAll(s, limit, ttl, ip, b).0;
      assert [] + vb == vb;
    }
  }

  /** With `limit = 0` every call is denied, whatever the store and the timing. */
  lemma {:induction false} ZeroLimitDeniesAll(s: Store, ttl: nat, ip: string, clocks: seq<Clock>)
    ensures forall i :: 0 <= i < |clocks| ==> !AllowAll(s, 0, ttl, ip, clocks).0[i]
  {
    if clocks != [] {
      var s1 := AllowSpec(s, 0, ttl, ip, clocks[0]).1;
      ZeroLimitDeniesAll(s1, ttl, ip, clocks[1..]);
    }
  }

  /** Every clock is ordered and issues its `get` and `incr` before `deadline`. */
  predicate Before(clocks: seq<Clock>, deadline: nat)
  {
    forall i :: 0 <= i < |clocks| ==> Ordered(clocks[i]) && clocks[i].atIncr < deadline
  }

  function Min(a: int, b: int): (m: int)
  {
    if a <= b then a else b
  }

  /**
   * Inside a window that holds `count` (at least 1) and expires at `expiresAt`, the
   * calls made before the expiry are admitted until the count reaches `limit`, then
   * denied; the window's expiry never moves.
   */
  lemma {:induction false} WindowContinues(s: Store, limit: u32, ttl: nat, ip: string, clocks: seq<Clock>,
                                           count: nat, expiresAt: nat)
    requires Key(ip) in s && s[Key(ip)].value == count && s[Key(ip)].expiresAt == expiresAt
    requires 1 <= count <= limit
    requires Before(clocks, expiresAt)
    ensures var (verdicts, s') := AllowAll(s, limit, ttl, ip, clocks);
      && (forall i :: 0 <= i < |clocks| ==> (verdicts[i] <==> count + i < limit))
      && Key(ip) in s'
      && s'[Key(ip)] == CacheEntry(Min(count + |clocks|, limit), expiresAt)
  {
    if clocks != [] {
      var key := Key(ip);
      var (allowed, s1) := AllowSpec(s, limit, ttl, ip, clocks[0]);
      assert Live(s, key, clocks[0].atGet) && Live(s, key, clocks[0].atIncr);
      var count1 := if count < limit then count + 1 else count;
      assert allowed == (count < limit);
      assert s1[key] == CacheEntry(count1, expiresAt);
      assert Before(clocks[1..], expiresAt);
      WindowContinues(s1, limit, ttl, ip, clocks[1..], count1, expiresAt);
    }
  }

  /**
   * A window opened by a call that finds no live entry: of the calls made before it
   * expires, exactly the first `limit` are admitted, and the window expires `ttl` after
   * the first call's `set`.
   */
  lemma FixedWindow(s: Store, limit: u32, ttl: nat, ip: string, clocks: seq<Clock>)
    requires |clocks| >= 1 && limit >= 1
    requires !Live(s, Key(ip), clocks[0].atGet)
    requires Before(clocks[1..], clocks[0].atSet + ttl)
    ensures var (verdicts, s') := AllowAll(s, limit, ttl, ip, clocks);
      && (forall i :: 0 <= i < |clocks| ==> (verdicts[i] <==> i < limit))
      && Key(ip) in s'
      && s'[Key(ip)] == CacheEntry(Min(|clocks|, limit), clocks[0].atSet + ttl)
  {
    var (allowed, s1) := AllowSpec(s, limit, ttl, ip, clocks[0]);
    WindowContinues(s1, limit, ttl, ip, clocks[1..], 1, clocks[0].atSet + ttl);
  }

  /**
   * Once a window has expired, the next call is admitted and starts a new window
   * whose count restarts at 1 rather than continuing from the old one.
   */
  lemma WindowRestarts(s: Store, limit: u32, ttl: nat, ip: string, clock: Clock)
    requires limit >= 1
    requires Key(ip) in s && s[Key(ip)].expiresAt <= clock.atGet
    ensures AllowSpec(s, limit, ttl, ip, clock) == (true, s[Key(ip) := CacheEntry(1, clock.atSet + ttl)])
  {
    var (allowed, s') := AllowSpec(s, limit, ttl, ip, clock);
    var expected := s[Key(ip) := CacheEntry(1, clock.atSet + ttl)];
    assert allowed && Key(ip) in s' && s'[Key(ip)] == expected[Key(ip)];
    assert forall k :: k in s' <==> k in expected;
    assert forall k :: k in s' ==> s'[k] == expected[k];
    assert s' == expected;
  }

  /**
   * A full window followed by a call after its expiry: the window admits exactly its
   * first `limit` calls, and the late call is admitted with the count restarted at 1.
   */
  lemma WindowThenRestart(s: Store, limit: u32, ttl: nat, ip: string, window: seq<Clock>, late: Clock)
    requires |window| >= 1 && limit >= 1
    requires !Live(s, Key(ip), window[0].atGet)
    requires Before(window[1..], window[0].atSet + ttl)
    requires late.atGet >= window[0].atSet + ttl
    ensures var (verdicts, s') := AllowAll(s, limit, ttl, ip, window + [late]);
      && (forall i :: 0 <= i < |window| ==> (verdicts[i] <==> i < limit))
      && verdicts[|window|]
      && Key(ip) in s' && s'[Key(ip)] == CacheEntry(1, late.atSet + ttl)
  {
    FixedWindow(s, limit, ttl, ip, window);
    AllowAllAppend(s, limit, ttl, ip, window, [late]);
    var sw := AllowAll(s, limit, ttl, ip, window).1;
    WindowRestarts(sw, limit, ttl, ip, late);
  }

  /** Timestamps are in milliseconds in the unit test below. */
  const OneSecond: nat := 1000

  /**
   * The clocks of a run of calls from one test: each call is ordered, the calls before
   * the sleep issue their `get` (and their `incr`, if they make one) within one second
   * of the first call's `set`,
   * and the call after the sleep starts at least one second after it.
   */
  predicate TestTiming(clocks: seq<Clock>, beforeSleep: nat)
  {
    && 1 <= beforeSleep < |clocks|
    && (forall j :: 0 <= j < |clocks| ==> Ordered(clocks[j]))
    && (forall j :: 1 <= j < beforeSleep ==> clocks[j].atIncr < clocks[0].atSet + OneSecond)
    && (forall j :: beforeSleep <= j < |clocks| ==> clocks[j].atGet >= clocks[0].atSet + OneSecond)
  }

  /**
   * The limiter's unit test as written: five loop iterations that each call `allow`
   * twice (once to print, once inside an assertion that always holds), a call that
   * must be denied, a one-second sleep, and a call that must be admitted.  The call
   * asserted to be denied is the eleventh, not the sixth.
   */
  method TestAllowsAndBlocksAsWritten(clocks: seq<Clock>) returns (verdicts: seq<bool>)
    requires |clocks| == 12 && TestTiming(clocks, 11)
    ensures verdicts == [true, true, true, true, true, false, false, false, false, false, false, true]
  {
    var cache := new InMemoryCache();
    var limiter := new RateLimiter(cache, 5, OneSecond);
    var ip := "127.0.0.1";
    ghost var window := CacheEntry(5, clocks[0].atSet + OneSecond);
    verdicts := [];
    for i := 0 to 5
      invariant |verdicts| == 2 * i
      invariant forall j :: 0 <= j < 2 * i ==> (verdicts[j] <==> j < 5)
      invariant i == 0 ==> cache.store == map[]
      invariant i > 0 ==> Key(ip) in cache.store && cache.store[Key(ip)] == window.(value := Min(2 * i, 5))
    {
      var printed := limiter.Allow(ip, clocks[2 * i]);
      var asserted := limiter.Allow(ip, clocks[2 * i + 1]);
      verdicts := verdicts + [printed, asserted];
    }
    var sixth := limiter.Allow(ip, clocks[10]);
    verdicts := verdicts + [sixth];
    var afterSleep := limiter.Allow(ip, clocks[11]);
    verdicts := verdicts + [afterSleep];
  }

  /**
   * The unit test as its comments describe it: five admitted requests, a sixth that is
   * denied, a one-second sleep, and a seventh that is admitted again.
   */
  method TestAllowsAndBlocks(clocks: seq<Clock>) returns (verdicts: seq<bool>)
    requires |clocks| == 7 && TestTiming(clocks, 6)
    ensures verdicts == [true, true, true, true, true, false, true]
  {
    var cache := new InMemoryCache();
    var limiter := new RateLimiter(cache, 5, OneSecond);
    var ip := "127.0.0.1";
    ghost var window := CacheEntry(5, clocks[0].atSet + OneSecond);
    verdicts := [];
    for i := 0 to 5
      invariant |verdicts| == i
      invariant forall j :: 0 <= j < i ==> verdicts[j]
      invariant i == 0 ==> cache.store == map[]
      invariant i > 0 ==> Key(ip) in cache.store && cache.store[Key(ip)] == window.(value := i)
    {
      var allowed := limiter.Allow(ip, clocks[i]);
      verdicts := verdicts + [allowed];
    }
    var sixth := limiter.Allow(ip, clocks[5]);
    verdicts := verdicts + [sixth];
    var afterSleep := limiter.Allow(ip, clocks[6]);
    verdicts := verdicts + [afterSleep];
  }
}
