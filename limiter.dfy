/**
 * The fixed-window rate limiter: per client address, at most `limit` requests are
 * admitted until the window's entry in the store expires, `ttl` after the first one.
 *
 * `allow` talks to its backend through three calls (`get`, `incr`, `set`).  `Decide`
 * states what it does against ANY backend, as a function of the backend's replies;
 * `AllowSpec` states what it does against the in-memory backend, and the class
 * `RateLimiter` is the limiter object itself, holding an in-memory cache.
 */
module Limiter {
  import opened Wrappers
  import opened InMemory

  const KeyPrefix: string := "rate_limit:"

  /** The store key under which the requests of `ip` are counted. */
  function Key(ip: string): (k: string)
    ensures |k| == |KeyPrefix| + |ip|
    ensures k[..|KeyPrefix|] == KeyPrefix && k[|KeyPrefix|..] == ip
  {
    KeyPrefix + ip
  }

  /** Distinct addresses are counted under distinct keys. */
  lemma KeyInjective(a: string, b: string)
    ensures Key(a) == Key(b) <==> a == b
  {
    if Key(a) == Key(b) {
      assert a == Key(a)[|KeyPrefix|..] == Key(b)[|KeyPrefix|..] == b;
    }
  }

  /** The count read by `allow`: the reply of `get`, an absent value counting as 0. */
  function Count(got: Option<u32>): (n: u32)
    ensures got == Some(n) || (got == None && n == 0)
  {
    match got
    case Some(n) => n
    case None => 0
  }

  /** The instants at which one `allow` issues its `get`, its `incr` and its `set`. */
  datatype Clock = Clock(atGet: nat, atIncr: nat, atSet: nat)

  predicate Ordered(c: Clock)
  {
    c.atGet <= c.atIncr <= c.atSet
  }

  /** A call `allow` makes on its backend. */
  datatype Call =
    | GetCall(key: string)
    | IncrCall(key: string, amount: u32)
    | SetCall(key: string, value: u32, ttl: nat)

  /** The verdict of one `allow` and the backend calls it made, in order. */
  datatype Outcome = Outcome(allowed: bool, calls: seq<Call>)

  /**
   * `allow(ip)` against an arbitrary backend that replies `got` to `get`, `counted`
   * to `incr` and `stamped` to `set` (a reply is only consulted if the call is made).
   */
  function Decide(ip: string, limit: u32, ttl: nat,
                  got: Option<u32>, counted: Result<u32>, stamped: Result<()>): (r: Outcome)
    ensures 1 <= |r.calls| <= 3 && r.calls[0] == GetCall(Key(ip))
    ensures forall i :: 0 <= i < |r.calls| ==> r.calls[i].key == Key(ip)
    ensures IncrCall(Key(ip), 1) in r.calls <==> Count(got) < limit
    ensures forall i :: 0 <= i < |r.calls| && r.calls[i].IncrCall? ==> r.calls[i] == IncrCall(Key(ip), 1)
    ensures SetCall(Key(ip), 1, ttl) in r.calls <==> Count(got) < limit && counted == Ok(1)
    ensures forall i :: 0 <= i < |r.calls| && r.calls[i].SetCall? ==> r.calls[i] == SetCall(Key(ip), 1, ttl) && i == 2
    ensures r.allowed <==> Count(got) < limit && counted.Ok?
    ensures limit == 0 ==> !r.allowed
    ensures r.calls == [GetCall(Key(ip))]
                       + (if Count(got) < limit then [IncrCall(Key(ip), 1)] else [])
                       + (if Count(got) < limit && counted == Ok(1) then [SetCall(Key(ip), 1, ttl)] else [])
  {
    var key := Key(ip);
    if Count(got) < limit then
      match counted
      case Ok(newCount) =>
        if newCount == 1 then Outcome(true, [GetCall(key), IncrCall(key, 1), SetCall(key, newCount, ttl)])
        else Outcome(true, [GetCall(key), IncrCall(key, 1)])
      case Err => Outcome(false, [GetCall(key), IncrCall(key, 1)])
    else
      Outcome(false, [GetCall(key)])
  }

  /** The verdict of `allow(ip)` over the in-memory store `s`, and the store it leaves. */
  function AllowSpec(s: Store, limit: u32, ttl: nat, ip: string, clock: Clock): (r: (bool, Store))
    ensures SameElsewhere(s, r.1, Key(ip))
    ensures r.0 <==> (if Live(s, Key(ip), clock.atGet) then s[Key(ip)].value else 0) < limit
    ensures !r.0 ==> r.1 == GetSpec(s, Key(ip), clock.atGet).1
    ensures r.0 ==> Key(ip) in r.1 && 1 <= r.1[Key(ip)].value <= limit
    ensures r.0 && r.1[Key(ip)].value == 1 ==> r.1[Key(ip)].expiresAt == clock.atSet + ttl
    ensures r.0 && r.1[Key(ip)].value != 1 ==>
              && Live(s, Key(ip), clock.atIncr)
              && r.1[Key(ip)].value == s[Key(ip)].value + 1
              && r.1[Key(ip)].expiresAt == s[Key(ip)].expiresAt
    ensures limit > 0 && !Live(s, Key(ip), clock.atGet) ==> r.0 && r.1[Key(ip)] == CacheEntry(1, clock.atSet + ttl)
    ensures Live(s, Key(ip), clock.atGet) && Live(s, Key(ip), clock.atIncr) && 1 <= s[Key(ip)].value < limit ==>
              r == (true, s[Key(ip) := s[Key(ip)].(value := s[Key(ip)].value + 1)])
    ensures r.0 && !(Live(s, Key(ip), clock.atGet) && Live(s, Key(ip), clock.atIncr) && s[Key(ip)].value >= 1) ==>
              r.1 == s[Key(ip) := CacheEntry(1, clock.atSet + ttl)]
  {
    var key := Key(ip);
    var (got, s1) := GetSpec(s, key, clock.atGet);
    if Count(got) < limit then
      var (counted, s2) := IncrSpec(s1, key, 1, clock.atIncr);
      match counted
      case Ok(newCount) =>
        if newCount == 1 then (true, SetSpec(s2, key, newCount, ttl, clock.atSet).1) else (true, s2)
      case Err => (false, s2)
    else
      (false, s1)
  }

  /** Over the in-memory store, `allow` is `Decide` fed with the in-memory replies. */
  lemma AllowSpecFollowsDecide(s: Store, limit: u32, ttl: nat, ip: string, clock: Clock)
    ensures
      var (got, s1) := GetSpec(s, Key(ip), clock.atGet);
      var counted := if Count(got) < limit then IncrSpec(s1, Key(ip), 1, clock.atIncr).0 else Err;
      var outcome := Decide(ip, limit, ttl, got, counted, Ok(()));
      var (allowed, s') := AllowSpec(s, limit, ttl, ip, clock);
      && allowed == outcome.allowed
      && (SetCall(Key(ip), 1, ttl) in outcome.calls <==> allowed && s'[Key(ip)].value == 1)
  {
  }

  /** No entry holds a count above `limit`. */
  ghost predicate CountsWithin(s: Store, limit: u32)
  {
    forall k :: k in s ==> s[k].value <= limit
  }

  /** `allow` never lifts a count above `limit`, and leaves one already above it alone. */
  lemma AllowKeepsCountsWithin(s: Store, limit: u32, ttl: nat, ip: string, clock: Clock)
    ensures var s' := AllowSpec(s, limit, ttl, ip, clock).1;
      Key(ip) in s' ==> s'[Key(ip)].value <= limit || (Key(ip) in s && s'[Key(ip)] == s[Key(ip)])
    ensures CountsWithin(s, limit) ==> CountsWithin(AllowSpec(s, limit, ttl, ip, clock).1, limit)
  {
  }

  /** A call for one address leaves the count of every other address as it was. */
  lemma AllowIsolatesAddresses(s: Store, limit: u32, ttl: nat, ip: string, other: string, clock: Clock)
    requires other != ip
    ensures var s' := AllowSpec(s, limit, ttl, ip, clock).1;
      (Key(other) in s' <==> Key(other) in s) && (Key(other) in s ==> s'[Key(other)] == s[Key(other)])
  {
    KeyInjective(ip, other);
  }

  /** The limiter object: an in-memory cache shared by reference, and its configuration. */
  class RateLimiter {
    const cache: InMemoryCache
    const limit: u32
    const ttl: nat

    /** Stores its arguments unchanged. */
    constructor (cache: InMemoryCache, limit: u32, ttl: nat)
      ensures this.cache == cache && this.limit == limit && this.ttl == ttl
    {
      this.cache := cache;
      this.limit := limit;
      this.ttl := ttl;
    }

    /** Decides whether one request from `ip` is admitted, counting it if so. */
    method Allow(ip: string, clock: Clock) returns (allowed: bool)
      modifies cache
      ensures (allowed, cache.store) == AllowSpec(old(cache.store), limit, ttl, ip, clock)
    {
      var key := Key(ip);
      var got := cache.Get(key, clock.atGet);
      var currentCount := Count(got);
      if currentCount < limit {
        var counted := cache.Incr(key, 1, clock.atIncr);
        match counted {
          case Ok(newCount) =>
            if newCount == 1 {
              var _ := cache.Set(key, newCount, ttl, clock.atSet);
            }
            allowed := true;
          case Err =>
            allowed := false;
        }
      } else {
        allowed := false;
      }
    }
  }
}
