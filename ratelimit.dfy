/**
 * The in-memory token-bucket rate limiter: one bucket per client (and endpoint), refilled
 * continuously at `requests / window` tokens per second up to `requests` tokens, and a
 * table of buckets that is swept for stale entries at most every five minutes.
 *
 * The pure layer (`Bucket`, `Limiter` and the functions over them) states what each
 * operation does; the classes `TokenBucket` and `RateLimiter` update their fields in place
 * and are proved to follow it.  Time is the `now` parameter.
 */
module RateLimit {
  import opened Wrappers
  import opened Text

  /** `cleanup_interval`: seconds between two sweeps of the bucket table. */
  const CLEANUP_INTERVAL: real := 300.0
  /** A bucket not refilled for this many seconds is removed by a sweep. */
  const STALE_AFTER: real := 3600.0

  // ---------------------------------------------------------------------------------------
  // One bucket
  // ---------------------------------------------------------------------------------------

  datatype Bucket = Bucket(capacity: int, refillRate: real, tokens: real, lastRefill: real)

  /** A bucket as `TokenBucket.__init__` creates it: full, last refilled now. */
  function Fresh(capacity: int, refillRate: real, now: real): (b: Bucket)
    ensures b.tokens == capacity as real && b.lastRefill == now
  {
    Bucket(capacity, refillRate, capacity as real, now)
  }

  /** Tokens before the cap: what the elapsed time would add. */
  function Uncapped(b: Bucket, now: real): real {
    b.tokens + (now - b.lastRefill) * b.refillRate
  }

  /** The refill step of `consume`: add what the elapsed time earns, then cap at capacity. */
  function Refill(b: Bucket, now: real): (r: Bucket)
    ensures r.capacity == b.capacity && r.refillRate == b.refillRate && r.lastRefill == now
    ensures r.tokens <= b.capacity as real && r.tokens <= Uncapped(b, now)
    ensures r.tokens == b.capacity as real || r.tokens == Uncapped(b, now)
  {
    var t := Uncapped(b, now);
    b.(tokens := if b.capacity as real <= t then b.capacity as real else t, lastRefill := now)
  }

  /** `consume(n)`: refill, then take `n` tokens if there are at least `n`. */
  function Consumed(b: Bucket, n: int, now: real): (r: (Bucket, bool))
    ensures r.0.capacity == b.capacity && r.0.refillRate == b.refillRate && r.0.lastRefill == now
    ensures r.1 <==> Refill(b, now).tokens >= n as real
    ensures r.1 ==> r.0.tokens == Refill(b, now).tokens - n as real
    ensures !r.1 ==> r.0.tokens == Refill(b, now).tokens
    ensures n >= 0 ==> r.0.tokens <= b.capacity as real
  {
    var f := Refill(b, now);
    if f.tokens >= n as real then (f.(tokens := f.tokens - n as real), true) else (f, false)
  }

  /** `get_retry_after` is defined: it only divides when fewer than one token is left. */
  predicate RetryDefined(b: Bucket) {
    b.tokens >= 1.0 || b.refillRate != 0.0
  }

  /** `get_retry_after`: 0 with a whole token left, else the time to earn the missing part. */
  function RetryAfter(b: Bucket): (r: real)
    requires RetryDefined(b)
    ensures b.tokens >= 1.0 ==> r == 0.0
    ensures b.tokens < 1.0 ==> r * b.refillRate == 1.0 - b.tokens
    ensures b.tokens < 1.0 && b.refillRate > 0.0 ==> r > 0.0
  {
    if b.tokens >= 1.0 then 0.0 else (1.0 - b.tokens) / b.refillRate
  }

  /** A bucket whose token count lies between 0 and its capacity and whose rate is not negative. */
  predicate InRange(b: Bucket) {
    0.0 <= b.tokens <= b.capacity as real && b.refillRate >= 0.0
  }

  /** With time moving forward and a non-negative request, `consume` keeps the tokens in range. */
  lemma ConsumeKeepsRange(b: Bucket, n: int, now: real)
    requires InRange(b) && n >= 0 && now >= b.lastRefill
    ensures InRange(Consumed(b, n, now).0)
  {
    var earned := (now - b.lastRefill) * b.refillRate;
    ProductNonNegative(now - b.lastRefill, b.refillRate);
    assert Uncapped(b, now) == b.tokens + earned;
    assert Uncapped(b, now) >= 0.0 && b.capacity as real >= 0.0;
    var f := Refill(b, now);
    assert f.tokens == b.capacity as real || f.tokens == Uncapped(b, now);
    assert 0.0 <= f.tokens <= b.capacity as real;
  }

  lemma ProductNonNegative(x: real, y: real)
    requires x >= 0.0 && y >= 0.0
    ensures x * y >= 0.0
  {
  }

  /** Two refills at the same instant are one: a refill at `now` leaves nothing to add at `now`. */
  lemma RefillIdempotent(b: Bucket, now: real)
    ensures Refill(Refill(b, now), now) == Refill(b, now)
  {
  }

  /**
   * A request denied at `now` is admitted after waiting exactly the reported retry time,
   * provided the bucket can hold a whole token.
   */
  lemma {:induction false} WaitingRetryAfterSuffices(b: Bucket, now: real)
    requires b.refillRate > 0.0 && b.capacity >= 1
    requires !Consumed(b, 1, now).1
    ensures var d := Consumed(b, 1, now).0;
      Consumed(d, 1, now + RetryAfter(d)).1
  {
    var d := Consumed(b, 1, now).0;
    assert d.tokens < 1.0;
    var w := RetryAfter(d);
    assert Uncapped(d, now + w) == d.tokens + w * d.refillRate;
    assert Uncapped(d, now + w) == 1.0;
  }

  /** Waiting any shorter time than the reported retry time is denied again. */
  lemma {:induction false} ShorterWaitDenied(b: Bucket, now: real, wait: real)
    requires b.refillRate > 0.0
    requires !Consumed(b, 1, now).1
    requires 0.0 <= wait < RetryAfter(Consumed(b, 1, now).0)
    ensures !Consumed(Consumed(b, 1, now).0, 1, now + wait).1
  {
    var d := Consumed(b, 1, now).0;
    var w := RetryAfter(d);
    assert d.tokens < 1.0;
    assert wait * d.refillRate < w * d.refillRate;
    assert Uncapped(d, now + wait) == d.tokens + wait * d.refillRate;
  }

  /** No time elapsed, no tokens earned. */
  lemma NothingEarnedAtOnce(b: Bucket, now: real)
    requires b.lastRefill == now
    ensures Uncapped(b, now) == b.tokens
  {
    assert now - b.lastRefill == 0.0;
    assert 0.0 * b.refillRate == 0.0;
  }

  /** `k` one-token requests at one instant, in order; the results are the admissions. */
  function Burst(b: Bucket, k: nat, now: real): (r: (Bucket, seq<bool>))
    ensures |r.1| == k
    decreases k
  {
    if k == 0 then (b, [])
    else
      var p := Consumed(b, 1, now);
      var q := Burst(p.0, k - 1, now);
      (q.0, [p.1] + q.1)
  }

  /** From a full bucket at one instant, the first `k <= capacity` requests are all admitted. */
  lemma {:induction false} BurstFromFull(b: Bucket, k: nat, now: real)
    requires b.lastRefill == now && b.tokens == b.capacity as real && k <= b.capacity
    ensures forall i :: 0 <= i < k ==> Burst(b, k, now).1[i]
    ensures Burst(b, k, now).0 == b.(tokens := (b.capacity - k) as real)
  {
    if k > 0 {
      NothingEarnedAtOnce(b, now);
      var p := Consumed(b, 1, now);
      assert p.1 && p.0 == b.(tokens := (b.capacity - 1) as real);
      BurstFromPartial(p.0, k - 1, now, b.capacity - 1);
    }
  }

  lemma {:induction false} BurstFromPartial(b: Bucket, k: nat, now: real, left: int)
    requires b.lastRefill == now && b.tokens == left as real && left <= b.capacity && k <= left
    ensures forall i :: 0 <= i < k ==> Burst(b, k, now).1[i]
    ensures Burst(b, k, now).0 == b.(tokens := (left - k) as real)
    decreases k
  {
    if k > 0 {
      NothingEarnedAtOnce(b, now);
      assert Refill(b, now) == b;
      var p := Consumed(b, 1, now);
      assert p.1 && p.0 == b.(tokens := (left - 1) as real);
      BurstFromPartial(p.0, k - 1, now, left - 1);
    }
  }

  /** One request more than the capacity at the same instant is denied. */
  lemma BurstBeyondCapacityDenied(b: Bucket, now: real)
    requires b.lastRefill == now && b.tokens == b.capacity as real && b.capacity >= 0
    ensures !Burst(b, b.capacity + 1, now).1[b.capacity]
  {
    BurstFromFull(b, b.capacity, now);
    BurstSplit(b, b.capacity, now);
    var e := b.(tokens := 0.0);
    assert Burst(e, 1, now).1 == [Consumed(e, 1, now).1];
  }

  /** A burst of `k + 1` is a burst of `k` followed by one more request. */
  lemma {:induction false} BurstSplit(b: Bucket, k: nat, now: real)
    ensures var r := Burst(b, k, now);
      Burst(b, k + 1, now) == (Burst(r.0, 1, now).0, r.1 + Burst(r.0, 1, now).1)
    decreases k
  {
    if k > 0 {
      var p := Consumed(b, 1, now);
      BurstSplit(p.0, k - 1, now);
      var r' := Burst(p.0, k - 1, now);
      var last := Burst(r'.0, 1, now);
      assert Burst(b, k, now) == (r'.0, [p.1] + r'.1);
      assert Burst(b, k + 1, now) == (last.0, [p.1] + (r'.1 + last.1));
      assert [p.1] + (r'.1 + last.1) == ([p.1] + r'.1) + last.1;
    } else {
      assert [] + Burst(b, 1, now).1 == Burst(b, 1, now).1;
    }
  }

  // ---------------------------------------------------------------------------------------
  // The bucket table
  // ---------------------------------------------------------------------------------------

  datatype Limiter = Limiter(table: map<string, Bucket>, lastCleanup: real)

  /** `(allowed, remaining, reset_time)` as `get_status` reports it. */
  datatype Status = Status(allowed: bool, remaining: int, resetTime: real)

  /** `_get_bucket_key`: `client:endpoint` when an endpoint is given, else the client id. */
  function BucketKey(client: string, endpoint: Option<string>): (k: string)
    ensures Truthy(endpoint) ==> k == client + ":" + endpoint.value
    ensures !Truthy(endpoint) ==> k == client
  {
    if Truthy(endpoint) then client + ":" + endpoint.value else client
  }

  /** Refill rate of a new bucket: `rate_limit_requests / rate_limit_window` per second. */
  function RefillRate(requests: int, window: int): real
    requires window != 0
  {
    requests as real / window as real
  }

  /** `_cleanup_old_buckets`: inside the interval nothing happens; otherwise stale buckets go. */
  function Cleanup(s: Limiter, now: real): (r: Limiter)
  {
    if now - s.lastCleanup < CLEANUP_INTERVAL then s
    else Limiter(map k | k in s.table && s.table[k].lastRefill >= now - STALE_AFTER :: s.table[k], now)
  }

  /** Less than `cleanup_interval` after the last sweep, a sweep changes nothing. */
  lemma CleanupWithinIntervalIsNoOp(s: Limiter, now: real)
    requires now - s.lastCleanup < CLEANUP_INTERVAL
    ensures Cleanup(s, now) == s
  {
  }

  /**
   * A due sweep removes exactly the buckets last refilled before `now - 3600`, keeps every
   * other bucket unchanged and records `now` as the time of the sweep.
   */
  lemma CleanupDueRemovesExactlyStale(s: Limiter, now: real)
    requires now - s.lastCleanup >= CLEANUP_INTERVAL
    ensures Cleanup(s, now).lastCleanup == now
    ensures forall k :: k in Cleanup(s, now).table <==>
      k in s.table && !(s.table[k].lastRefill < now - STALE_AFTER)
    ensures forall k :: k in Cleanup(s, now).table ==> Cleanup(s, now).table[k] == s.table[k]
  {
  }

  /** The bucket `is_allowed` consumes from: the swept table's, or a new full one. */
  function BucketFor(c: Limiter, key: string, now: real, requests: int, window: int): (b: Bucket)
    requires window != 0
    ensures key !in c.table ==> b == Fresh(requests, RefillRate(requests, window), now)
    ensures key in c.table ==> b == c.table[key]
  {
    if key in c.table then c.table[key] else Fresh(requests, RefillRate(requests, window), now)
  }

  /** Every bucket, and every bucket `is_allowed` could create, has a non-zero refill rate. */
  predicate RatesNonZero(s: Limiter, requests: int, window: int) {
    window != 0 && requests != 0 && forall k :: k in s.table ==> s.table[k].refillRate != 0.0
  }

  /** `is_allowed`: sweep, look up or create the bucket, consume, and report the retry time. */
  function Admit(s: Limiter, key: string, n: int, now: real, requests: int, window: int)
    : (r: (Limiter, (bool, real)))
    requires RatesNonZero(s, requests, window)
    ensures var c := Cleanup(s, now);
      var p := Consumed(BucketFor(c, key, now, requests, window), n, now);
      && r.0 == Limiter(c.table[key := p.0], c.lastCleanup)
      && r.1.0 == p.1
      && r.1.1 == (if p.1 then 0.0 else RetryAfter(p.0))
  {
    var c := Cleanup(s, now);
    var p := Consumed(BucketFor(c, key, now, requests, window), n, now);
    var t := c.table[key := p.0];
    if p.1 then (Limiter(t, c.lastCleanup), (true, 0.0))
    else (Limiter(t, c.lastCleanup), (false, RetryAfter(p.0)))
  }

  /**
   * `is_allowed` touches one bucket: the requested key ends refilled at `now`, and every
   * other key keeps the bucket the sweep left it.
   */
  lemma AdmitTouchesOneBucket(s: Limiter, key: string, n: int, now: real, requests: int, window: int)
    requires RatesNonZero(s, requests, window)
    ensures var r := Admit(s, key, n, now, requests, window).0;
      var c := Cleanup(s, now);
      && key in r.table && r.table[key].lastRefill == now
      && r.lastCleanup == c.lastCleanup
      && (forall k :: k != key ==> (k in r.table <==> k in c.table))
      && (forall k :: k != key && k in c.table ==> r.table[k] == c.table[k])
  {
  }

  /**
   * A key with no bucket (after the sweep) starts from a full bucket: a request for at most
   * `requests` tokens is admitted, leaving `requests - n`; a larger one is denied.
   */
  lemma UnseenKeyStartsFull(s: Limiter, key: string, n: int, now: real, requests: int, window: int)
    requires RatesNonZero(s, requests, window)
    requires key !in Cleanup(s, now).table
    ensures var r := Admit(s, key, n, now, requests, window);
      && (r.1.0 <==> n <= requests)
      && (n <= requests ==> r.0.table[key] == Bucket(requests, RefillRate(requests, window), (requests - n) as real, now))
  {
    var f := Fresh(requests, RefillRate(requests, window), now);
    assert Uncapped(f, now) == requests as real;
  }

  /** `get_status`: a key without a bucket reports full capacity and a reset one window away. */
  function StatusOf(table: map<string, Bucket>, key: string, now: real, requests: int, window: int): (st: Status)
  {
    if key !in table then Status(true, requests, now + window as real)
    else
      var b := table[key];
      Status(b.tokens >= 1.0, TruncToInt(b.tokens), b.lastRefill + window as real)
  }

  /** The table is as `is_allowed` keeps it: every bucket in range and able to hold a token. */
  predicate WellFormed(s: Limiter) {
    forall k :: k in s.table ==> InRange(s.table[k]) && s.table[k].capacity >= 1
  }

  /** A key without a bucket is reported allowed with the full allowance. */
  lemma StatusOfUnseen(table: map<string, Bucket>, key: string, now: real, requests: int, window: int)
    requires key !in table
    ensures var st := StatusOf(table, key, now, requests, window);
      st.allowed && st.remaining == requests && st.resetTime == now + window as real
  {
  }

  /** `remaining` is the whole number of tokens left (never more than the capacity). */
  lemma StatusRemainingBounds(s: Limiter, key: string, now: real, requests: int, window: int)
    requires WellFormed(s) && key in s.table
    ensures var st := StatusOf(s.table, key, now, requests, window);
      0 <= st.remaining <= s.table[key].capacity
      && st.remaining as real <= s.table[key].tokens < st.remaining as real + 1.0
  {
  }

  /**
   * A status reported `allowed` is honoured: a one-token request no earlier than the bucket's
   * last refill is admitted, whether or not a sweep removes the bucket first.
   */
  lemma StatusAllowedIsHonoured(s: Limiter, key: string, now: real, requests: int, window: int)
    requires RatesNonZero(s, requests, window) && WellFormed(s) && requests >= 1 && window > 0
    requires StatusOf(s.table, key, now, requests, window).allowed
    requires key in s.table ==> now >= s.table[key].lastRefill
    ensures Admit(s, key, 1, now, requests, window).1.0
  {
    var c := Cleanup(s, now);
    var b := BucketFor(c, key, now, requests, window);
    if key in c.table {
      assert key in s.table && b == s.table[key];
      RefillKeepsToken(b, now);
    } else {
      RefillKeepsToken(b, now);
    }
  }

  /** A bucket holding a whole token, refilled no earlier than its last refill, still holds one. */
  lemma RefillKeepsToken(b: Bucket, now: real)
    requires b.tokens >= 1.0 && b.capacity >= 1 && b.refillRate >= 0.0 && now >= b.lastRefill
    ensures Refill(b, now).tokens >= 1.0
    ensures Consumed(b, 1, now).1
  {
    var earned := (now - b.lastRefill) * b.refillRate;
    ProductNonNegative(now - b.lastRefill, b.refillRate);
    assert Uncapped(b, now) == b.tokens + earned;
    assert b.capacity as real >= 1.0;
  }

  /** With a clock that does not run backwards, `is_allowed` keeps the table well formed. */
  lemma AdmitKeepsWellFormed(s: Limiter, key: string, n: int, now: real, requests: int, window: int)
    requires RatesNonZero(s, requests, window) && WellFormed(s)
    requires requests >= 1 && window > 0 && n >= 0
    requires forall k :: k in s.table ==> now >= s.table[k].lastRefill
    ensures WellFormed(Admit(s, key, n, now, requests, window).0)
  {
    var c := Cleanup(s, now);
    var b := BucketFor(c, key, now, requests, window);
    assert InRange(b);
    ConsumeKeepsRange(b, n, now);
  }

  // ---------------------------------------------------------------------------------------
  // The classes
  // ---------------------------------------------------------------------------------------

  /** `TokenBucket`: capacity and rate are fixed at creation; tokens and last refill change. */
  class TokenBucket {
    const capacity: int
    const refillRate: real
    var tokens: real
    var lastRefill: real

    function State(): Bucket
      reads this
    {
      Bucket(capacity, refillRate, tokens, lastRefill)
    }

    constructor(capacity: int, refillRate: real, now: real)
      ensures State() == Fresh(capacity, refillRate, now)
    {
      this.capacity := capacity;
      this.refillRate := refillRate;
      tokens := capacity as real;
      lastRefill := now;
    }

    /** `consume(n)` at `now`. */
    method Consume(n: int, now: real) returns (ok: bool)
      modifies this
      ensures (State(), ok) == Consumed(old(State()), n, now)
    {
      ghost var b := State();
      var elapsed := now - lastRefill;
      var toAdd := elapsed * refillRate;
      tokens := if capacity as real <= tokens + toAdd then capacity as real else tokens + toAdd;
      lastRefill := now;
      assert State() == Refill(b, now);
      if tokens >= n as real {
        tokens := tokens - n as real;
        return true;
      }
      return false;
    }

    /** `get_retry_after`. */
    method GetRetryAfter() returns (r: real)
      requires RetryDefined(State())
      ensures r == RetryAfter(State())
    {
      if tokens >= 1.0 {
        return 0.0;
      }
      var needed := 1.0 - tokens;
      return needed / refillRate;
    }
  }

  /** `RateLimiter`: the bucket table, the time of the last sweep and the configured limits. */
  class RateLimiter {
    const requests: int
    const window: int
    var buckets: map<string, TokenBucket>
    var lastCleanup: real

    /** Distinct keys hold distinct buckets, and the limits give a non-zero refill rate. */
    ghost predicate Valid()
      reads this, buckets.Values
    {
      && requests != 0 && window != 0
      && (forall k1, k2 :: k1 in buckets && k2 in buckets && k1 != k2 ==> buckets[k1] != buckets[k2])
      && (forall k :: k in buckets ==> buckets[k].refillRate != 0.0)
    }

    /** The table as values. */
    function State(): Limiter
      reads this, buckets.Values
    {
      Limiter(map k | k in buckets :: buckets[k].State(), lastCleanup)
    }

    constructor(requests: int, window: int, now: real)
      requires requests != 0 && window != 0
      ensures Valid() && State() == Limiter(map[], now)
      ensures this.requests == requests && this.window == window
    {
      this.requests := requests;
      this.window := window;
      buckets := map[];
      lastCleanup := now;
    }

    /** `_cleanup_old_buckets`: collect the stale keys, then delete them one by one. */
    method CleanupOldBuckets(now: real)
      requires Valid()
      modifies this
      ensures Valid()
      ensures State() == Cleanup(old(State()), now)
      ensures forall k :: k in buckets ==> k in old(buckets) && buckets[k] == old(buckets[k])
    {
      if now - lastCleanup < CLEANUP_INTERVAL {
        return;
      }
      var cutoff := now - STALE_AFTER;
      ghost var before := buckets;
      var stale := StaleKeys(cutoff);
      DeleteKeys(stale);
      lastCleanup := now;
      assert buckets == map k | k in before && before[k].lastRefill >= cutoff :: before[k];
      assert forall k :: k in buckets ==> buckets[k].State() == old(buckets[k].State());
    }

    /** The first loop of the sweep: the keys whose bucket was last refilled before `cutoff`. */
    method StaleKeys(cutoff: real) returns (stale: seq<string>)
      ensures forall k :: k in stale <==> k in buckets && buckets[k].lastRefill < cutoff
    {
      stale := [];
      var pending := buckets.Keys;
      while pending != {}
        invariant pending <= buckets.Keys
        invariant forall k :: k in stale ==> k in buckets && k !in pending && buckets[k].lastRefill < cutoff
        invariant forall k :: k in buckets && k !in pending && buckets[k].lastRefill < cutoff ==> k in stale
        decreases pending
      {
        var k :| k in pending;
        if buckets[k].lastRefill < cutoff {
          stale := stale + [k];
        }
        pending := pending - {k};
      }
    }

    /** The second loop of the sweep: `del self.buckets[key]` for each listed key. */
    method DeleteKeys(keys: seq<string>)
      modifies this
      ensures buckets == map k | k in old(buckets) && k !in keys :: old(buckets)[k]
      ensures lastCleanup == old(lastCleanup)
    {
      var i := 0;
      while i < |keys|
        invariant 0 <= i <= |keys|
        invariant lastCleanup == old(lastCleanup)
        invariant buckets == map k | k in old(buckets) && k !in keys[..i] :: old(buckets)[k]
      {
        assert keys[..i + 1] == keys[..i] + [keys[i]];
        buckets := buckets - {keys[i]};
        i := i + 1;
      }
      assert keys[..i] == keys;
    }

    /** `is_allowed(client, endpoint, n)` at `now`: the admission and the retry time. */
    method IsAllowed(client: string, endpoint: Option<string>, n: int, now: real)
      returns (allowed: bool, retryAfter: real)
      requires Valid()
      modifies this, buckets.Values
      ensures Valid()
      ensures old(RatesNonZero(State(), requests, window))
      ensures (State(), (allowed, retryAfter))
        == Admit(old(State()), BucketKey(client, endpoint), n, now, requests, window)
    {
      CleanupOldBuckets(now);
      ghost var c := State();
      var key := BucketKey(client, endpoint);
      var bucket := GetOrCreate(key, now);
      ghost var b := BucketFor(c, key, now, requests, window);
      assert bucket.State() == State().table[key] == b;
      allowed, retryAfter := ConsumeFrom(bucket, key, n, now);
      assert State().table == c.table[key := Consumed(b, n, now).0];
    }

    /** The get-or-create step of `is_allowed`: a missing key gets a new full bucket. */
    method GetOrCreate(key: string, now: real) returns (bucket: TokenBucket)
      requires Valid()
      modifies this
      ensures Valid()
      ensures key in buckets && bucket == buckets[key]
      ensures State() == Limiter(old(State()).table[key := BucketFor(old(State()), key, now, requests, window)],
                                 old(lastCleanup))
      ensures forall k :: k in buckets && k != key ==> k in old(buckets) && buckets[k] == old(buckets[k])
      ensures key in old(buckets) ==> bucket == old(buckets[key])
      ensures key !in old(buckets) ==> fresh(bucket)
    {
      if key !in buckets {
        var created := new TokenBucket(requests, RefillRate(requests, window), now);
        buckets := buckets[key := created];
      }
      bucket := buckets[key];
    }

    /** The consume step of `is_allowed`, on the bucket stored under `key`. */
    method ConsumeFrom(bucket: TokenBucket, key: string, n: int, now: real) returns (allowed: bool, retryAfter: real)
      requires Valid() && key in buckets && bucket == buckets[key]
      modifies bucket
      ensures Valid()
      ensures var p := Consumed(old(bucket.State()), n, now);
        && State() == Limiter(old(State()).table[key := p.0], old(lastCleanup))
        && allowed == p.1
        && retryAfter == (if p.1 then 0.0 else RetryAfter(p.0))
    {
      var ok := bucket.Consume(n, now);
      assert forall k :: k in buckets && k != key ==> buckets[k] != bucket;
      if ok {
        return true, 0.0;
      }
      allowed := false;
      retryAfter := bucket.GetRetryAfter();
    }

    /** `get_status(client, endpoint)` at `now`; it creates no bucket and changes nothing. */
    method GetStatus(client: string, endpoint: Option<string>, now: real) returns (st: Status)
      ensures st == StatusOf(State().table, BucketKey(client, endpoint), now, requests, window)
    {
      var key := BucketKey(client, endpoint);
      if key !in buckets {
        return Status(true, requests, now + window as real);
      }
      var bucket := buckets[key];
      st := Status(bucket.tokens >= 1.0, TruncToInt(bucket.tokens), bucket.lastRefill + window as real);
    }
  }
}
