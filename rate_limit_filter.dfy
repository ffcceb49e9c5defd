/**
 * The rate-limiting filter: derives the caller's rate-limit key from the
 * request and asks the token bucket whether to admit it; a denied request is
 * answered with 429 and a retry hint and goes no further.
 */
module RateLimiting {
  import opened Wrappers
  import opened JavaString
  import opened TokenBucket
  import opened Web

  /** The header added to a rate-limited response. */
  const RETRY_AFTER: Header := Header("X-RateLimit-Retry-After", "60")

  /** Raised by `split(",")[0]` when the split yields no element. */
  datatype ClientIpError = ArrayIndexOutOfBounds

  /** The `X-Forwarded-For` value is present and not empty, so it decides the key. */
  predicate UsesForwardedFor(request: Request)
  {
    request.forwardedFor.Some? && request.forwardedFor.value != ""
  }

  /**
   * `getClientIp`: the rate-limit key of a request. A present, non-empty
   * `X-Forwarded-For` value gives the text before its first comma, trimmed;
   * such a key holds no comma and neither starts nor ends with a blank, and a
   * value made only of commas raises the index error instead. Without that
   * header the key is the remote host address, or "unknown" when the remote
   * address is not known.
   */
  function GetClientIp(request: Request): (r: Result<string, ClientIpError>)
    ensures UsesForwardedFor(request)
            ==> (r.Failure? <==> AllChar(request.forwardedFor.value, ','))
    ensures UsesForwardedFor(request) && r.Success?
            ==> && r.value == Trim(TextBefore(request.forwardedFor.value, ','))
                && ',' !in r.value
                && (r.value == [] || (!IsBlank(r.value[0]) && !IsBlank(r.value[|r.value| - 1])))
    ensures !UsesForwardedFor(request) && request.remoteAddress.Some?
            ==> r == Success(request.remoteAddress.value)
    ensures !UsesForwardedFor(request) && request.remoteAddress.None?
            ==> r == Success("unknown")
  {
    if UsesForwardedFor(request) then
      var forwardedFor := request.forwardedFor.value;
      var parts := Split(forwardedFor, ',');
      SplitEmptyIff(forwardedFor, ',');
      if |parts| == 0 then Failure(ArrayIndexOutOfBounds)
      else
        TrimAddsNothing(parts[0], ',');
        Success(Trim(parts[0]))
    else if request.remoteAddress.Some? then Success(request.remoteAddress.value)
    else Success("unknown")
  }

  /** `getOrder`: the filter's place in the chain, lower running earlier. */
  function GetOrder(): (order: int)
    ensures order < 0
  {
    -100
  }

  /** Where a filter call leaves the request. */
  datatype Next =
    | ChainInvoked               // handed on, unchanged, to the rest of the chain
    | ResponseCompleted          // answered here; the rest of the chain is not called
    | Thrown(error: ClientIpError)

  class RateLimitFilter {
    const rateLimiter: TokenBucketRateLimiter

    constructor (rateLimiter: TokenBucketRateLimiter)
      ensures this.rateLimiter == rateLimiter
    {
      this.rateLimiter := rateLimiter;
    }

    /**
     * `filter` at time `now`. When no key can be derived the error escapes
     * and nothing changes. Otherwise the limiter performs TryConsume on the
     * key; an admitted request is passed on with its response untouched, and
     * a denied one gets status 429, exactly one added header
     * `X-RateLimit-Retry-After: 60` and a completed response, without the
     * chain being called.
     */
    method Filter(exchange: Exchange, now: int) returns (next: Next)
      modifies exchange, rateLimiter
      ensures GetClientIp(exchange.request).Failure? ==>
                && next == Thrown(GetClientIp(exchange.request).error)
                && unchanged(exchange) && unchanged(rateLimiter)
      ensures GetClientIp(exchange.request).Success? ==>
                var key := GetClientIp(exchange.request).value;
                var d := Consume(old(rateLimiter.SlotOf(key)), now);
                && rateLimiter.buckets == old(rateLimiter.buckets)[key := d.bucket.tokens]
                && rateLimiter.timestamps == old(rateLimiter.timestamps)[key := d.bucket.lastRefill]
                && (d.admitted ==> next == ChainInvoked && unchanged(exchange))
                && (!d.admitted ==>
                      && next == ResponseCompleted
                      && exchange.status == Some(TOO_MANY_REQUESTS)
                      && exchange.headers == old(exchange.headers) + [RETRY_AFTER]
                      && exchange.completed)
      ensures old(rateLimiter.Valid()) ==> rateLimiter.Valid()
    {
      var clientIp := GetClientIp(exchange.request);
      if clientIp.Failure? {
        return Thrown(clientIp.error);
      }
      var allowed := rateLimiter.TryConsume(clientIp.value, now);
      if allowed {
        next := ChainInvoked;
      } else {
        exchange.status := Some(TOO_MANY_REQUESTS);
        exchange.headers := exchange.headers + [RETRY_AFTER];
        exchange.completed := true;
        next := ResponseCompleted;
      }
    }
  }
}
