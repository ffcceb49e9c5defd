/**
 * The gateway's token-bucket rate limiter. Each rate-limit key owns two
 * entries in a shared store: its token count and the time (milliseconds)
 * of its last refill. A call refills the bucket for the time elapsed since
 * then, and admits the request when a token can be debited.
 *
 * The pure part (Refill, Consume, Run) says what one call, or a sequence
 * of calls, does to one key's entries; the class TokenBucketRateLimiter
 * performs the same steps on the store and is proved against it.
 */
module TokenBucket {
  import opened Wrappers

  /** Most tokens a bucket holds; a new bucket starts full. */
  const BUCKET_CAPACITY: int := 100
  /** Tokens added per second of elapsed time. */
  const REFILL_RATE: int := 10
  const MILLIS_PER_SECOND: int := 1000
  /** Elapsed milliseconds that earn one token (MILLIS_PER_SECOND / REFILL_RATE). */
  const MILLIS_PER_TOKEN: int := 100

  /** Store key of a rate-limit key's token count. */
  function BucketKey(key: string): (k: string)
    ensures |k| == |key| + 18 && k[18..] == key && k[11] == 'b'
  {
    "rate_limit:bucket:" + key
  }

  /** Store key of a rate-limit key's last-refill time. */
  function TimestampKey(key: string): (k: string)
    ensures |k| == |key| + 21 && k[21..] == key && k[11] == 't'
  {
    "rate_limit:timestamp:" + key
  }

  /**
   * The two key families never collide, and each names one rate-limit key
   * only; so the store can be seen as two maps indexed by the rate-limit key.
   */
  lemma StoreKeysDistinct(a: string, b: string)
    ensures BucketKey(a) != TimestampKey(b)
    ensures BucketKey(a) == BucketKey(b) ==> a == b
    ensures TimestampKey(a) == TimestampKey(b) ==> a == b
  {
  }

  /** Java's `/` on `long`: the quotient rounded toward zero. */
  function JavaDiv(a: int, b: int): (q: int)
    requires b > 0
    ensures a >= 0 ==> q * b <= a < q * b + b
    ensures a < 0 ==> q * b - b < a <= q * b
  {
    if a >= 0 then a / b else -((-a) / b)
  }

  /**
   * Tokens earned by `elapsedMs` milliseconds, `elapsedMs * REFILL_RATE / 1000`
   * in Java arithmetic: one per full 100 ms, and none at all for less than
   * 100 ms or for a clock that went backwards.
   */
  function TokensToAdd(elapsedMs: int): (n: int)
    ensures n > 0 <==> elapsedMs >= MILLIS_PER_TOKEN
    ensures elapsedMs >= 0 ==> n == elapsedMs / MILLIS_PER_TOKEN
    ensures elapsedMs < 0 ==> n <= 0
  {
    JavaDiv(elapsedMs * REFILL_RATE, MILLIS_PER_SECOND)
  }

  /** More elapsed time never earns fewer tokens. */
  lemma TokensToAddMonotone(e1: int, e2: int)
    requires e1 <= e2
    ensures TokensToAdd(e1) <= TokensToAdd(e2)
  {
  }

  /** Waiting another 100 ms earns exactly one more token. */
  lemma OneTokenPerPeriod(e: int)
    requires e >= 0
    ensures TokensToAdd(e + MILLIS_PER_TOKEN) == TokensToAdd(e) + 1
  {
  }

  function Min(a: int, b: int): (m: int)
    ensures m <= a && m <= b && (m == a || m == b)
  {
    if a <= b then a else b
  }

  /** What the store holds for one rate-limit key: either entry may be missing. */
  datatype Slot = Slot(tokens: Option<int>, lastRefill: Option<int>)

  /** A bucket whose two entries are both present. */
  datatype Bucket = Bucket(tokens: int, lastRefill: int)

  /** The entries of a stored bucket. */
  function Stored(b: Bucket): (s: Slot)
  {
    Slot(Some(b.tokens), Some(b.lastRefill))
  }

  /** A slot's token count, if present, lies within 0 .. BUCKET_CAPACITY. */
  predicate InBounds(s: Slot)
  {
    s.tokens.Some? ==> 0 <= s.tokens.value <= BUCKET_CAPACITY
  }

  /**
   * The bucket after `getCurrentTokens` at time `now`; its token count is
   * also the value that call returns. A slot missing either entry is set to
   * a full bucket stamped `now`. Otherwise the bucket earns a token per full
   * 100 ms since its last refill, capped at BUCKET_CAPACITY, and is restamped
   * `now`; when less than 100 ms have passed nothing changes, so that time
   * still counts toward the next refill.
   */
  function Refill(s: Slot, now: int): (b: Bucket)
    ensures s.tokens.None? || s.lastRefill.None? ==> b == Bucket(BUCKET_CAPACITY, now)
    ensures s.tokens.Some? && s.lastRefill.Some? && now - s.lastRefill.value < MILLIS_PER_TOKEN
            ==> Stored(b) == s
    ensures s.tokens.Some? && s.lastRefill.Some? && now - s.lastRefill.value >= MILLIS_PER_TOKEN
            ==> b.lastRefill == now
                && b.tokens == Min(BUCKET_CAPACITY, s.tokens.value + (now - s.lastRefill.value) / MILLIS_PER_TOKEN)
    ensures s.lastRefill.Some? && s.tokens.Some? ==> s.lastRefill.value <= b.lastRefill
    ensures InBounds(s) ==> 0 <= b.tokens <= BUCKET_CAPACITY
    ensures InBounds(s) && s.tokens.Some? && s.lastRefill.Some? ==> s.tokens.value <= b.tokens
  {
    if s.tokens.Some? && s.lastRefill.Some? then
      var tokensToAdd := TokensToAdd(now - s.lastRefill.value);
      if tokensToAdd > 0 then Bucket(Min(BUCKET_CAPACITY, s.tokens.value + tokensToAdd), now)
      else Bucket(s.tokens.value, s.lastRefill.value)
    else
      Bucket(BUCKET_CAPACITY, now)
  }

  /** A second refill at the same instant changes nothing. */
  lemma RefillIdempotent(s: Slot, now: int)
    ensures Refill(Stored(Refill(s, now)), now) == Refill(s, now)
  {
  }

  /** Whether a call was admitted, and the bucket it leaves behind. */
  datatype Decision = Decision(admitted: bool, bucket: Bucket)

  /**
   * `tryConsume` at time `now`: refill, then admit and debit exactly one
   * token when at least one is available. A debit leaves the timestamp as the
   * refill left it. From a slot within bounds the result is within bounds,
   * and a denial writes nothing at all: it happens only to a present, empty
   * bucket refilled less than 100 ms ago.
   */
  function Consume(s: Slot, now: int): (d: Decision)
    ensures d.admitted <==> Refill(s, now).tokens >= 1
    ensures d.bucket.lastRefill == Refill(s, now).lastRefill
    ensures d.bucket.tokens == Refill(s, now).tokens - (if d.admitted then 1 else 0)
    ensures InBounds(s) ==> InBounds(Stored(d.bucket))
    ensures InBounds(s) && !d.admitted
            ==> Stored(d.bucket) == s && s.tokens == Some(0) && now - s.lastRefill.value < MILLIS_PER_TOKEN
  {
    var b := Refill(s, now);
    if b.tokens >= 1 then Decision(true, Bucket(b.tokens - 1, b.lastRefill)) else Decision(false, b)
  }

  /** How many of a sequence of calls were admitted, and the slot they leave. */
  datatype RunResult = RunResult(admitted: nat, last: Slot)

  /** `tryConsume` on one key at each of the given times in turn. */
  function Run(s: Slot, times: seq<int>): (r: RunResult)
    ensures r.admitted <= |times|
    decreases |times|
  {
    if times == [] then RunResult(0, s)
    else
      var d := Consume(s, times[0]);
      var rest := Run(Stored(d.bucket), times[1..]);
      RunResult(rest.admitted + (if d.admitted then 1 else 0), rest.last)
  }

  /** `n` calls at the same instant. */
  function Repeat(now: int, n: nat): (r: seq<int>)
    ensures |r| == n && forall i :: 0 <= i < n ==> r[i] == now
  {
    seq(n, _ => now)
  }

  /** Calls in two stretches count as the first stretch followed by the second. */
  lemma {:induction false} RunAppend(s: Slot, a: seq<int>, b: seq<int>)
    ensures Run(s, a + b).admitted == Run(s, a).admitted + Run(Run(s, a).last, b).admitted
    ensures Run(s, a + b).last == Run(Run(s, a).last, b).last
    decreases |a|
  {
    if a == [] {
      assert a + b == b;
    } else {
      assert (a + b)[0] == a[0];
      assert (a + b)[1..] == a[1..] + b;
      RunAppend(Stored(Consume(s, a[0]).bucket), a[1..], b);
    }
  }

  /** A sequence of calls keeps every slot within bounds. */
  lemma {:induction false} RunInBounds(s: Slot, times: seq<int>)
    requires InBounds(s)
    ensures InBounds(Run(s, times).last)
    decreases |times|
  {
    if times != [] {
      RunInBounds(Stored(Consume(s, times[0]).bucket), times[1..]);
    }
  }

  /** With no time passing, a bucket of `t` tokens admits `n <= t` calls and keeps `t - n`. */
  lemma {:induction false} BurstAtOneInstant(t: int, now: int, n: nat)
    requires n <= t
    ensures Run(Stored(Bucket(t, now)), Repeat(now, n)) == RunResult(n, Stored(Bucket(t - n, now)))
    decreases n
  {
    if n > 0 {
      assert Repeat(now, n)[1..] == Repeat(now, n - 1);
      assert Consume(Stored(Bucket(t, now)), now) == Decision(true, Bucket(t - 1, now));
      BurstAtOneInstant(t - 1, now, n - 1);
    }
  }

  /**
   * A key seen for the first time, called repeatedly at one instant, is
   * admitted exactly BUCKET_CAPACITY times: every one of the first 100 calls
   * is admitted, the 101st is denied and leaves the bucket empty.
   */
  lemma FreshKeyBurst(now: int, n: nat)
    requires 1 <= n <= BUCKET_CAPACITY
    ensures Run(Slot(None, None), Repeat(now, n)) == RunResult(n, Stored(Bucket(BUCKET_CAPACITY - n, now)))
    ensures Run(Slot(None, None), Repeat(now, BUCKET_CAPACITY + 1))
            == RunResult(BUCKET_CAPACITY, Stored(Bucket(0, now)))
    ensures !Consume(Run(Slot(None, None), Repeat(now, BUCKET_CAPACITY)).last, now).admitted
  {
    var unseen := Slot(None, None);
    assert Consume(unseen, now) == Decision(true, Bucket(BUCKET_CAPACITY - 1, now));
    assert Repeat(now, n)[1..] == Repeat(now, n - 1);
    BurstAtOneInstant(BUCKET_CAPACITY - 1, now, n - 1);
    var calls := Repeat(now, BUCKET_CAPACITY + 1);
    assert calls == Repeat(now, BUCKET_CAPACITY) + [now];
    assert Repeat(now, BUCKET_CAPACITY)[1..] == Repeat(now, BUCKET_CAPACITY - 1);
    BurstAtOneInstant(BUCKET_CAPACITY - 1, now, BUCKET_CAPACITY - 1);
    RunAppend(unseen, Repeat(now, BUCKET_CAPACITY), [now]);
    assert Consume(Stored(Bucket(0, now)), now) == Decision(false, Bucket(0, now));
  }

  /**
   * Calls that all come less than 100 ms after the last refill earn nothing:
   * a bucket of `t` tokens admits all of `n <= t` such calls, keeps its
   * timestamp, and is left with `t - n` tokens.
   */
  lemma {:induction false} BurstWithinPeriod(t: int, l: int, times: seq<int>)
    requires |times| <= t
    requires forall i :: 0 <= i < |times| ==> times[i] < l + MILLIS_PER_TOKEN
    ensures Run(Stored(Bucket(t, l)), times) == RunResult(|times|, Stored(Bucket(t - |times|, l)))
    decreases |times|
  {
    if times != [] {
      assert Consume(Stored(Bucket(t, l)), times[0]) == Decision(true, Bucket(t - 1, l));
      forall i | 0 <= i < |times[1..]| ensures times[1..][i] < l + MILLIS_PER_TOKEN {
        assert times[1..][i] == times[i + 1];
      }
      BurstWithinPeriod(t - 1, l, times[1..]);
    }
  }

  /**
   * 101 calls from a key seen for the first time, all within 100 ms of the
   * first: each of the first 100 is admitted, leaving an empty bucket stamped
   * at the first call, and the 101st is denied.
   */
  lemma FreshKeyBurstWithinPeriod(times: seq<int>)
    requires |times| == BUCKET_CAPACITY + 1
    requires forall i :: 0 <= i < |times| ==> times[i] < times[0] + MILLIS_PER_TOKEN
    ensures Run(Slot(None, None), times[..BUCKET_CAPACITY])
            == RunResult(BUCKET_CAPACITY, Stored(Bucket(0, times[0])))
    ensures !Consume(Stored(Bucket(0, times[0])), times[BUCKET_CAPACITY]).admitted
    ensures Run(Slot(None, None), times).admitted == BUCKET_CAPACITY
  {
    var unseen := Slot(None, None);
    var first := times[..BUCKET_CAPACITY];
    assert Consume(unseen, times[0]) == Decision(true, Bucket(BUCKET_CAPACITY - 1, times[0]));
    forall i | 0 <= i < |first[1..]| ensures first[1..][i] < times[0] + MILLIS_PER_TOKEN {
      assert first[1..][i] == times[i + 1];
    }
    BurstWithinPeriod(BUCKET_CAPACITY - 1, times[0], first[1..]);
    assert times == first + [times[BUCKET_CAPACITY]];
    RunAppend(unseen, first, [times[BUCKET_CAPACITY]]);
    assert Consume(Stored(Bucket(0, times[0])), times[BUCKET_CAPACITY]) == Decision(false, Bucket(0, times[0]));
  }

  /**
   * Refilling twice never earns more than one refill over the same time:
   * the restamp drops the part of a period left over after the first refill.
   */
  lemma PeriodsAdd(x: int, y: int)
    requires x >= 0 && y >= 0
    ensures TokensToAdd(x) + TokensToAdd(y) <= TokensToAdd(x + y)
  {
  }

  /**
   * The rate guarantee. From a bucket of `t >= 0` tokens last refilled at `l`,
   * any sequence of calls made no later than `horizon` leaves a bucket whose
   * timestamp lies in l .. horizon, and the calls admitted plus the tokens
   * left never exceed `t` plus one token per full 100 ms between the two
   * timestamps.
   */
  lemma {:induction false} RateBound(t: int, l: int, times: seq<int>, horizon: int)
    requires 0 <= t && l <= horizon
    requires forall i :: 0 <= i < |times| ==> times[i] <= horizon
    ensures var r := Run(Stored(Bucket(t, l)), times);
            && r.last.tokens.Some? && r.last.lastRefill.Some?
            && 0 <= r.last.tokens.value
            && l <= r.last.lastRefill.value <= horizon
            && r.admitted + r.last.tokens.value <= t + (r.last.lastRefill.value - l) / MILLIS_PER_TOKEN
    decreases |times|
  {
    if times != [] {
      var now := times[0];
      var b := Refill(Stored(Bucket(t, l)), now);
      var d := Consume(Stored(Bucket(t, l)), now);
      assert b.tokens <= t + (b.lastRefill - l) / MILLIS_PER_TOKEN;
      assert l <= b.lastRefill <= horizon;
      assert 0 <= d.bucket.tokens;
      forall i | 0 <= i < |times[1..]| ensures times[1..][i] <= horizon {
        assert times[1..][i] == times[i + 1];
      }
      RateBound(d.bucket.tokens, d.bucket.lastRefill, times[1..], horizon);
      var r := Run(Stored(d.bucket), times[1..]);
      PeriodsAdd(b.lastRefill - l, r.last.lastRefill.value - b.lastRefill);
    }
  }

  /**
   * A key first seen at `times[0]` is admitted at most BUCKET_CAPACITY times
   * plus once per full 100 ms up to `horizon`, whatever the order of the
   * later call times.
   */
  lemma FreshKeyRateBound(times: seq<int>, horizon: int)
    requires |times| > 0
    requires forall i :: 0 <= i < |times| ==> times[i] <= horizon
    ensures Run(Slot(None, None), times).admitted <= BUCKET_CAPACITY + (horizon - times[0]) / MILLIS_PER_TOKEN
  {
    var d := Consume(Slot(None, None), times[0]);
    assert d == Decision(true, Bucket(BUCKET_CAPACITY - 1, times[0]));
    forall i | 0 <= i < |times[1..]| ensures times[1..][i] <= horizon {
      assert times[1..][i] == times[i + 1];
    }
    RateBound(BUCKET_CAPACITY - 1, times[0], times[1..], horizon);
  }

  /**
   * The limiter's store: `buckets` holds the entries `rate_limit:bucket:<key>`
   * and `timestamps` the entries `rate_limit:timestamp:<key>`, both indexed
   * by the rate-limit key.
   */
  class TokenBucketRateLimiter {
    var buckets: map<string, int>
    var timestamps: map<string, int>

    /** Every stored token count lies within 0 .. BUCKET_CAPACITY. */
    ghost predicate Valid()
      reads this
    {
      forall k :: k in buckets ==> 0 <= buckets[k] <= BUCKET_CAPACITY
    }

    /** The two entries the store holds for `key`. */
    function SlotOf(key: string): (s: Slot)
      reads this
      ensures Valid() ==> InBounds(s)
    {
      Slot(Lookup(buckets, key), Lookup(timestamps, key))
    }

    /** A limiter over an empty store. */
    constructor ()
      ensures buckets == map[] && timestamps == map[]
      ensures Valid()
    {
      buckets := map[];
      timestamps := map[];
    }

    /** `initializeBucket`: a full bucket for `key`, stamped `now`. */
    method InitializeBucket(key: string, now: int) returns (tokens: int)
      modifies this
      ensures tokens == BUCKET_CAPACITY
      ensures buckets == old(buckets)[key := BUCKET_CAPACITY]
      ensures timestamps == old(timestamps)[key := now]
      ensures old(Valid()) ==> Valid()
    {
      buckets := buckets[key := BUCKET_CAPACITY];
      timestamps := timestamps[key := now];
      tokens := BUCKET_CAPACITY;
    }

    /**
     * `getCurrentTokens`: refill `key`'s bucket at time `now` and return its
     * token count. Only `key`'s entries change, as Refill says; when both are
     * present and less than 100 ms have passed, nothing is written.
     */
    method GetCurrentTokens(key: string, now: int) returns (tokens: int)
      modifies this
      ensures var b := Refill(old(SlotOf(key)), now);
              && tokens == b.tokens
              && buckets == old(buckets)[key := b.tokens]
              && timestamps == old(timestamps)[key := b.lastRefill]
      ensures key in old(buckets) && key in old(timestamps) && now - old(timestamps[key]) < MILLIS_PER_TOKEN
              ==> buckets == old(buckets) && timestamps == old(timestamps)
      ensures old(Valid()) ==> Valid()
    {
      if key in buckets && key in timestamps {
        var currentTokens := buckets[key];
        var lastRefill := timestamps[key];
        var elapsedMs := now - lastRefill;
        var tokensToAdd := TokensToAdd(elapsedMs);
        if tokensToAdd > 0 {
          var newTokens := Min(BUCKET_CAPACITY, currentTokens + tokensToAdd);
          buckets := buckets[key := newTokens];
          timestamps := timestamps[key := now];
          return newTokens;
        }
        return currentTokens;
      }
      tokens := InitializeBucket(key, now);
    }

    /**
     * `tryConsume`: refill `key`'s bucket at time `now`, then debit one token
     * and admit when at least one is available. The result and the new store
     * are those Consume gives; no other key changes.
     */
    method TryConsume(key: string, now: int) returns (allowed: bool)
      modifies this
      ensures var d := Consume(old(SlotOf(key)), now);
              && allowed == d.admitted
              && buckets == old(buckets)[key := d.bucket.tokens]
              && timestamps == old(timestamps)[key := d.bucket.lastRefill]
      ensures old(Valid()) ==> Valid()
    {
      var tokens := GetCurrentTokens(key, now);
      if tokens >= 1 {
        buckets := buckets[key := buckets[key] - 1];
        allowed := true;
      } else {
        allowed := false;
      }
    }

    /**
     * `getRemainingTokens`: the same refill as TryConsume, without a debit.
     * From a valid store the count lies within 0 .. BUCKET_CAPACITY.
     */
    method GetRemainingTokens(key: string, now: int) returns (tokens: int)
      modifies this
      ensures var b := Refill(old(SlotOf(key)), now);
              && tokens == b.tokens
              && buckets == old(buckets)[key := b.tokens]
              && timestamps == old(timestamps)[key := b.lastRefill]
      ensures old(Valid()) ==> Valid() && 0 <= tokens <= BUCKET_CAPACITY
    {
      tokens := GetCurrentTokens(key, now);
    }

    /** The store's idle expiry of both of `key`'s entries. */
    method Expire(key: string)
      modifies this
      ensures buckets == old(buckets) - {key}
      ensures timestamps == old(timestamps) - {key}
      ensures old(Valid()) ==> Valid()
    {
      buckets := buckets - {key};
      timestamps := timestamps - {key};
    }
  }
}
