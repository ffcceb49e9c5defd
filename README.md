# API gateway admission filters in Dafny

This project models the admission core of a Spring Cloud Gateway service that sits in front of backend services. The core has three parts:

- **Token-bucket rate limiter** (`TokenBucketRateLimiter`). Every rate-limit key has two entries in a shared store: `rate_limit:bucket:<key>` holds the token count and `rate_limit:timestamp:<key>` holds the time of the last refill in milliseconds. A call first refills the bucket with one token per full 100 ms since the last refill (10 tokens per second), up to 100 tokens. It then admits the request if a token can be debited. A key missing either entry gets a full bucket.
- **Rate-limit filter** (`RateLimitFilter`). It takes the caller's key from the first comma-separated entry of `X-Forwarded-For`, trimmed. Without that header it uses the remote host address, and `"unknown"` when there is none. An admitted request goes on down the chain. A denied one gets status 429 with `X-RateLimit-Retry-After: 60`.
- **Circuit-breaker filter** (`CircuitBreakerFilter`). It names the backend from the request path (`/api/users` → `users-service`; paths that are too short → `default-service`) and runs the rest of the chain under that service's breaker. Any error from the guarded call becomes status 503 with `X-Circuit-Breaker: OPEN`.

Files:

- `wrappers.dfy`: Option and Result.
- `java_string.dfy`: module `JavaString`, Java's `String.split` for a one-character separator and `String.trim`, with their laws.
- `token_bucket.dfy`: module `TokenBucket`.
  - The pure specification of one key: `Refill`, `Consume`, and `Run` for a sequence of calls.
  - Lemmas about the specification: bounds, the burst of 100, and the long-run rate bound.
  - The class `TokenBucketRateLimiter`. It holds the store as two maps and its methods are proved against the specification.
- `web.dfy`: module `Web`, the request as a value and the exchange as a class whose response fields are written in place.
- `rate_limit_filter.dfy`: module `RateLimiting`.
- `circuit_breaker_filter.dfy`: module `CircuitBreaking`.

Operations on the store take the current time `now` as a parameter (the source reads the system clock). The Redis store is modelled as two `map<string, int>` fields indexed by the rate-limit key. `StoreKeysDistinct` shows the two key families never collide, so this split is sound. Integers are unbounded. Java's truncating `/` is written out as `JavaDiv`; it only matters when the clock goes backwards.

What the code writes, and where the keys come from:

- The refill writes both entries when either entry is missing, or when it earns at least one token, that is, when at least 100 ms have elapsed. Otherwise it writes nothing. The debit that follows writes only the count. So from a count in 0..100 a denial writes nothing. A negative count, which only a race between concurrent debits can produce, gets refilled and written back even when the call is then denied.
- The service key is element 2 of Java's `path.split("/")`. For `/api/users` that element is `users`, because element 0 is the empty text before the leading slash.

Behaviour the model makes explicit:

- A refill restamps the bucket with `now`, so the part of a 100 ms period left over is dropped. After 199 ms a bucket earns one token, and the remaining 99 ms do not count toward the next one.
- An `X-Forwarded-For` value made only of commas makes `split(",")` return an empty array. Then `[0]` throws an index error out of `filter`. The model returns this error (`Thrown`) and changes nothing.
- A value such as `" , x"` or `",x"` gives the empty key.
- An empty second path segment is kept when a later segment is not empty. So `/api//users` names the service `-service`, and all such paths share one breaker. `/api//` names `default-service`, because only empty pieces follow.

## Model

| member | source | states |
|---|---|---|
| TokenBucket.BucketKey | src/main/java/com/gateway/ratelimit/TokenBucketRateLimiter.java:40 | the store key of a count is 18 characters of prefix followed by the rate-limit key, and its character 11 is `b` |
| TokenBucket.TimestampKey | src/main/java/com/gateway/ratelimit/TokenBucketRateLimiter.java:41 | the store key of a timestamp is 21 characters of prefix followed by the rate-limit key, and its character 11 is `t` |
| TokenBucket.StoreKeysDistinct | src/main/java/com/gateway/ratelimit/TokenBucketRateLimiter.java:40-41 | a bucket key never equals a timestamp key, and each key family is injective in the rate-limit key |
| TokenBucket.JavaDiv | src/main/java/com/gateway/ratelimit/TokenBucketRateLimiter.java:74 | the quotient is rounded toward zero, stated as bounds on `q * b` for each sign of the dividend (Java `long` division) |
| TokenBucket.TokensToAdd | src/main/java/com/gateway/ratelimit/TokenBucketRateLimiter.java:73-74 | the refill amount is positive iff at least 100 ms elapsed; for non-negative elapsed time it is the number of full 100 ms periods; a clock going backwards earns nothing |
| TokenBucket.TokensToAddMonotone | src/main/java/com/gateway/ratelimit/TokenBucketRateLimiter.java:73-74 | the refill amount is non-decreasing in elapsed time |
| TokenBucket.OneTokenPerPeriod | src/main/java/com/gateway/ratelimit/TokenBucketRateLimiter.java:30 | waiting another 100 ms earns exactly one more token |
| TokenBucket.Refill | src/main/java/com/gateway/ratelimit/TokenBucketRateLimiter.java:63-98 | a missing entry gives a full bucket (100) stamped `now`; under 100 ms elapsed (or a backward clock) leaves both entries as they were; otherwise the count becomes `min(100, tokens + periods)` stamped `now`; a bucket in bounds stays in 0..100, never loses tokens, and its timestamp never moves back |
| TokenBucket.RefillIdempotent | src/main/java/com/gateway/ratelimit/TokenBucketRateLimiter.java:63-87 | a second refill at the same instant changes nothing |
| TokenBucket.Consume | src/main/java/com/gateway/ratelimit/TokenBucketRateLimiter.java:39-58 | admitted iff the refilled count is at least 1; an admission debits exactly one token and keeps the refill's timestamp; bounds are preserved; a denial from a bucket in bounds leaves both entries exactly as they were |
| TokenBucket.Run | src/main/java/com/gateway/ratelimit/TokenBucketRateLimiter.java:39-58 | a sequence of calls admits at most one request per call |
| TokenBucket.RunAppend | src/main/java/com/gateway/ratelimit/TokenBucketRateLimiter.java:39-58 | calls split into two stretches admit the sum of the two stretches' admissions and end in the same state |
| TokenBucket.RunInBounds | src/main/java/com/gateway/ratelimit/TokenBucketRateLimiter.java:77 | any sequence of calls keeps the token count within 0..100 |
| TokenBucket.BurstAtOneInstant | src/main/java/com/gateway/ratelimit/TokenBucketRateLimiter.java:45-52 | with no time passing, `n` calls on a bucket of `t >= n` tokens are all admitted and leave `t - n` |
| TokenBucket.FreshKeyBurst | src/main/java/com/gateway/ratelimit/TokenBucketRateLimiter.java:92-97 | a new key called repeatedly at one instant has each of its first 100 calls admitted; the 101st is denied and leaves an empty bucket |
| TokenBucket.BurstWithinPeriod | src/main/java/com/gateway/ratelimit/TokenBucketRateLimiter.java:45-52 | calls all less than 100 ms after the last refill earn no token: a bucket of `t` tokens admits all of `n <= t` of them, keeps its timestamp and is left with `t - n` |
| TokenBucket.FreshKeyBurstWithinPeriod | src/main/java/com/gateway/ratelimit/TokenBucketRateLimiter.java:29-30 | 101 calls on a new key, all within 100 ms of the first, admit each of the first 100, leaving an empty bucket stamped at the first call; the 101st is denied, so exactly 100 are admitted |
| TokenBucket.PeriodsAdd | src/main/java/com/gateway/ratelimit/TokenBucketRateLimiter.java:73-80 | two refills over consecutive stretches of time never earn more tokens than one refill over their sum, because each refill restamps the bucket with `now` |
| TokenBucket.RateBound | src/main/java/com/gateway/ratelimit/TokenBucketRateLimiter.java:73-81 | from `t` tokens stamped `l`, any calls up to `horizon` leave a timestamp in `l..horizon`, and admissions plus remaining tokens are at most `t` plus one per full 100 ms between the timestamps |
| TokenBucket.FreshKeyRateBound | src/main/java/com/gateway/ratelimit/TokenBucketRateLimiter.java:29-30 | a key first seen at `t0` is admitted at most `100 + (horizon - t0) / 100` times by calls up to `horizon`, in any order of call times |
| TokenBucket.TokenBucketRateLimiter.SlotOf | src/main/java/com/gateway/ratelimit/TokenBucketRateLimiter.java:66-67 | the entries read for a key; in a valid store the count is in bounds |
| TokenBucket.TokenBucketRateLimiter.constructor | src/main/java/com/gateway/ratelimit/TokenBucketRateLimiter.java:26 | the limiter starts over an empty, valid store |
| TokenBucket.TokenBucketRateLimiter.InitializeBucket | src/main/java/com/gateway/ratelimit/TokenBucketRateLimiter.java:92-98 | sets the key's count to 100 and its timestamp to `now`, returns 100, and changes no other key |
| TokenBucket.TokenBucketRateLimiter.GetCurrentTokens | src/main/java/com/gateway/ratelimit/TokenBucketRateLimiter.java:63-87 | returns the refilled count and stores exactly `Refill`'s bucket for the key; with both entries present and under 100 ms elapsed the store is unchanged; validity is preserved |
| TokenBucket.TokenBucketRateLimiter.TryConsume | src/main/java/com/gateway/ratelimit/TokenBucketRateLimiter.java:39-58 | the result is `Consume`'s admission, the key's entries become `Consume`'s bucket, no other key changes, and validity is preserved |
| TokenBucket.TokenBucketRateLimiter.GetRemainingTokens | src/main/java/com/gateway/ratelimit/TokenBucketRateLimiter.java:103-107 | performs the same refill as TryConsume without a debit; in a valid store the result lies in 0..100 |
| TokenBucket.TokenBucketRateLimiter.Expire | src/main/java/com/gateway/ratelimit/TokenBucketRateLimiter.java:31 | the idle expiry removes both of the key's entries, so the next call reinitialises the bucket |
| JavaString.LeadingBlanks | src/main/java/com/gateway/filter/RateLimitFilter.java:48 | counts the characters at or below U+0020 at the start of the text, stopping at the first other character |
| JavaString.TrailingBlanks | src/main/java/com/gateway/filter/RateLimitFilter.java:48 | counts the characters at or below U+0020 at the end of the text |
| JavaString.Trim | src/main/java/com/gateway/filter/RateLimitFilter.java:48 | `trim` removes only blanks (characters at or below U+0020) and only from the two ends; the result neither starts nor ends with one |
| JavaString.TrimAddsNothing | src/main/java/com/gateway/filter/RateLimitFilter.java:48 | a character absent from a text is absent from its trim |
| JavaString.TrimIdempotent | src/main/java/com/gateway/filter/RateLimitFilter.java:48 | trimming twice equals trimming once |
| JavaString.IndexOf | src/main/java/com/gateway/filter/RateLimitFilter.java:48 | the first position holding the character |
| JavaString.TextBefore | src/main/java/com/gateway/filter/RateLimitFilter.java:48 | a prefix without the separator that is followed by the separator or by the end of the text |
| JavaString.TextBeforeUnique | src/main/java/com/gateway/filter/RateLimitFilter.java:48 | TextBefore's contract determines its result |
| JavaString.Pieces | src/main/java/com/gateway/filter/CircuitBreakerFilter.java:47 | cutting at every separator gives pieces without separators; the first is the text before the first separator, and joining them back gives the input |
| JavaString.PiecesCons | src/main/java/com/gateway/filter/CircuitBreakerFilter.java:47 | cutting `p + sep + rest` when `p` holds no separator gives `p` followed by the pieces of `rest` |
| JavaString.PiecesOfJoin | src/main/java/com/gateway/filter/CircuitBreakerFilter.java:47 | cutting is the inverse of joining, for pieces without separators |
| JavaString.PiecesAllEmpty | src/main/java/com/gateway/filter/RateLimitFilter.java:48 | all pieces are empty iff every character is the separator |
| JavaString.DropTrailingEmpty | src/main/java/com/gateway/filter/CircuitBreakerFilter.java:47 | keeps a prefix, drops only empty strings, and what is kept is empty or ends in a non-empty string |
| JavaString.Split | src/main/java/com/gateway/filter/CircuitBreakerFilter.java:47 | Java `split` with limit 0: without the separator it returns `[s]`; otherwise it returns the pieces with only trailing empty ones removed; no element holds the separator, and the first element is the text before the first separator |
| JavaString.SplitKeeps | src/main/java/com/gateway/filter/CircuitBreakerFilter.java:47-50 | a non-empty piece survives the split at its index |
| JavaString.SplitLongerIff | src/main/java/com/gateway/filter/CircuitBreakerFilter.java:47-49 | when the separator occurs, the split has more than `k` elements iff some piece from index `k` on is not empty |
| JavaString.SplitEmptyIff | src/main/java/com/gateway/filter/RateLimitFilter.java:48 | the split is empty iff the text is non-empty and made only of separators |
| RateLimiting.GetClientIp | src/main/java/com/gateway/filter/RateLimitFilter.java:44-55 | a non-empty `X-Forwarded-For` value raises the index error iff it is all commas, and otherwise gives the trimmed text before its first comma, which holds no comma and has no blank at either end; an absent or empty header gives the remote host address, or `"unknown"` |
| RateLimiting.GetOrder | src/main/java/com/gateway/filter/RateLimitFilter.java:57-61 | the filter order is negative, so it runs early in the chain |
| RateLimiting.RateLimitFilter.constructor | src/main/java/com/gateway/filter/RateLimitFilter.java:23 | the filter holds the given limiter |
| RateLimiting.RateLimitFilter.Filter | src/main/java/com/gateway/filter/RateLimitFilter.java:26-42 | a key error escapes with nothing changed; otherwise the limiter performs TryConsume on the key; an admission invokes the chain with the exchange untouched; a denial sets 429, appends exactly `X-RateLimit-Retry-After: 60`, completes the response and does not invoke the chain |
| CircuitBreaking.ExtractServiceName | src/main/java/com/gateway/filter/CircuitBreakerFilter.java:44-54 | every service name ends in `-service` |
| CircuitBreaking.ServiceOfSecondSegment | src/main/java/com/gateway/filter/CircuitBreakerFilter.java:47-53 | for a path `/a/b…` whose segments `a` and `b` hold no slash, the service is `b-service` whatever follows (so `/api/users` names `users-service`), except that an empty `b` followed only by slashes falls back to `default-service`; so `/api//users` names `-service` and `/api//` names `default-service` |
| CircuitBreaking.ShallowPathsUseDefault | src/main/java/com/gateway/filter/CircuitBreakerFilter.java:49-53 | `a`, `/a` and `/a/` (so `/api`, `/api/` and `/`) name `default-service` |
| CircuitBreaking.RateLimitingRunsFirst | src/main/java/com/gateway/filter/CircuitBreakerFilter.java:56-60 | the breaker filter's order (-50) is greater than the rate-limit filter's (-100), so rate limiting runs first |
| CircuitBreaking.GetOrder | src/main/java/com/gateway/filter/CircuitBreakerFilter.java:56-60 | the filter order lies strictly between the rate-limit filter's order and 0, so it runs after rate limiting and early in the chain |
| CircuitBreaking.Filter | src/main/java/com/gateway/filter/CircuitBreakerFilter.java:30-42 | the guarding breaker is the one named by the request path alone; an error of the guarded call, whatever its cause, sets 503, appends exactly `X-Circuit-Breaker: OPEN` and completes the response; a normal end leaves the exchange unchanged; the filter always ends normally |

## Left out

- The reactive and Redis plumbing (`Mono`, `zipWith`, `switchIfEmpty`, `ReactiveRedisTemplate`). Store values are integers, so `Long.parseLong` and its failure on a corrupted entry are not modelled.
- `Instant.now()`: it becomes the `now` parameter. The source reads the clock separately in `getCurrentTokens` and in `initializeBucket`; the model uses one instant for both.
- Concurrency and multi-instance atomicity. The model is sequential, so it cannot show that the source's read-then-write lets two concurrent callers share one token. A `DECR` racing with expiry of the entry is also not modelled.
- Redis TTL timing: expiry is the explicit `Expire` event, with no clock behind it. The fact that `DECR` does not refresh the TTL is not modelled.
- `long` overflow: `elapsedMs * REFILL_RATE` and `currentTokens + tokensToAdd` use unbounded integers.
- The circuit-breaker state machine (CLOSED/OPEN/HALF_OPEN, sliding window, half-open probes). It lives in Resilience4j, whose source is not part of this model. `src/main/java/com/gateway/config/Resilience4jConfig.java` only sets its parameters. `CircuitBreaking.Filter` takes the outcome of the breaker-guarded call as the parameter `guarded`.
- The downstream chain itself: external code. `RateLimiting.RateLimitFilter.Filter` reports `ChainInvoked` instead of calling it.
- `GatewayController`: a thin HTTP view. `health` returns constants, the rate-limit status forwards `getRemainingTokens` with a hard-coded capacity of 100, and the circuit status reads library metrics.
- Logging, committing the response, Spring's ordering machinery (only the order integers are kept), and header-map details. These details are the case-insensitive lookup of `X-Forwarded-For` and `getFirst` choosing among repeated headers; the request carries the first value directly.
- RateLimiting.GetClientIp: the remote address is the host address text. An unresolved socket address, for which `getAddress()` returns null, is not modelled.
