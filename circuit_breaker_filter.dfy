/**
 * The circuit-breaker filter: names the backend service from the request
 * path, runs the rest of the chain under that service's breaker, and answers
 * any error of the guarded call with 503 and a breaker marker.
 */
module CircuitBreaking {
  import opened Wrappers
  import opened JavaString
  import opened Web
  import RateLimiting

  const SERVICE_SUFFIX: string := "-service"
  const DEFAULT_SERVICE: string := "default-service"

  /** The header added when the guarded call fails. */
  const BREAKER_OPEN: Header := Header("X-Circuit-Breaker", "OPEN")

  predicate EndsWith(s: string, suffix: string)
  {
    |suffix| <= |s| && s[|s| - |suffix|..] == suffix
  }

  /**
   * `extractServiceName`: the third element of the path split on `/`, with
   * "-service" appended, when the split has more than two elements, and
   * "default-service" otherwise. Every service name ends in "-service".
   */
  function ExtractServiceName(path: string): (name: string)
    ensures EndsWith(name, SERVICE_SUFFIX)
  {
    var segments := Split(path, '/');
    if |segments| > 2 then segments[2] + SERVICE_SUFFIX else DEFAULT_SERVICE
  }

  /**
   * A path `/a/b...` whose first two segments `a` and `b` hold no slash names
   * the service `b-service`, whatever follows `b`: `/api/users` and
   * `/api/users/42` both name `users-service`. An empty `b` is kept too when
   * some segment after it is not empty, so `/api//users` names `-service`;
   * only when nothing but slashes follows does the path fall back, so
   * `/api//` names "default-service".
   */
  lemma ServiceOfSecondSegment(a: string, b: string, tail: string)
    requires '/' !in a && '/' !in b
    requires tail == [] || tail[0] == '/'
    ensures ExtractServiceName("/" + a + "/" + b + tail)
            == if b == "" && AllChar(tail, '/') then DEFAULT_SERVICE else b + SERVICE_SUFFIX
  {
    var path := "/" + a + "/" + b + tail;
    SegmentsOfPath(a, b, tail);
    if b == "" && AllChar(tail, '/') {
      assert |Split(path, '/')| <= 2;
    } else {
      assert Split(path, '/')[2] == b;
    }
  }

  /** The split of `/a/b...` keeps a third element `b` unless `b` is empty and only slashes follow. */
  lemma SegmentsOfPath(a: string, b: string, tail: string)
    requires '/' !in a && '/' !in b
    requires tail == [] || tail[0] == '/'
    ensures |Split("/" + a + "/" + b + tail, '/')| > 2 <==> !(b == "" && AllChar(tail, '/'))
    ensures |Split("/" + a + "/" + b + tail, '/')| > 2 ==> Split("/" + a + "/" + b + tail, '/')[2] == b
  {
    var path := "/" + a + "/" + b + tail;
    assert '/' in path by { assert path[0] == '/'; }
    assert path == "/" + a + "/" + (b + tail);
    PiecesOfPath(a, b + tail);
    ThirdSegment(path, b, tail);
  }

  /** The same, for any text whose pieces from index 2 on are those of `b + tail`. */
  lemma ThirdSegment(path: string, b: string, tail: string)
    requires '/' in path && '/' !in b
    requires tail == [] || tail[0] == '/'
    requires |Pieces(path, '/')| >= 2 && Pieces(path, '/')[2..] == Pieces(b + tail, '/')
    ensures |Split(path, '/')| > 2 <==> !(b == "" && AllChar(tail, '/'))
    ensures |Split(path, '/')| > 2 ==> Split(path, '/')[2] == b
  {
    SplitLongerIff(path, '/', 2);
    if b != "" {
      TextBeforeUnique(b + tail, '/', b);
    } else {
      assert b + tail == tail;
      PiecesAllEmpty(tail, '/');
      TextBeforeUnique(tail, '/', []);
    }
  }

  /** Cutting `/a/rest` when `a` holds no slash. */
  lemma PiecesOfPath(a: string, rest: string)
    requires '/' !in a
    ensures Pieces("/" + a + "/" + rest, '/') == [[], a] + Pieces(rest, '/')
    ensures Pieces("/" + a + "/" + rest, '/')[2..] == Pieces(rest, '/')
  {
    var afterFirst := a + ['/'] + rest;
    assert "/" + a + "/" + rest == [] + ['/'] + afterFirst;
    PiecesCons([], '/', afterFirst);
    PiecesCons(a, '/', rest);
  }

  /**
   * Paths with fewer than two slash-separated segments (`a`, `/a`, `/a/`,
   * and `/` itself) fall back to "default-service".
   */
  lemma ShallowPathsUseDefault(a: string)
    requires '/' !in a
    ensures ExtractServiceName(a) == DEFAULT_SERVICE
    ensures ExtractServiceName("/" + a) == DEFAULT_SERVICE
    ensures ExtractServiceName("/" + a + "/") == DEFAULT_SERVICE
  {
    assert "/" + a == [] + ['/'] + a;
    PiecesCons([], '/', a);
    assert "/" + a + "/" == [] + ['/'] + (a + ['/'] + []);
    PiecesCons([], '/', a + ['/'] + []);
    PiecesCons(a, '/', []);
  }

  /** `getOrder`: the filter's place in the chain, lower running earlier. */
  function GetOrder(): (order: int)
    ensures RateLimiting.GetOrder() < order < 0
  {
    -50
  }

  /** Rate limiting runs before circuit breaking. */
  lemma RateLimitingRunsFirst()
    ensures RateLimiting.GetOrder() < GetOrder()
  {
  }

  /**
   * `filter`, given how the breaker-guarded rest of the chain ended. The
   * service whose breaker guards the call is the one named by the request
   * path. An error from the guarded call, whatever its cause, sets status 503,
   * adds exactly the header `X-Circuit-Breaker: OPEN` and completes the
   * response; a normal end is passed through and the response is left as the
   * chain left it. Either way the filter itself ends normally.
   */
  method Filter(exchange: Exchange, guarded: Signal) returns (serviceName: string, result: Signal)
    modifies exchange
    ensures serviceName == ExtractServiceName(exchange.request.path)
    ensures result == Done
    ensures guarded.Error? ==>
              && exchange.status == Some(SERVICE_UNAVAILABLE)
              && exchange.headers == old(exchange.headers) + [BREAKER_OPEN]
              && exchange.completed
    ensures guarded.Done? ==> unchanged(exchange)
  {
    serviceName := ExtractServiceName(exchange.request.path);
    if guarded.Error? {
      exchange.status := Some(SERVICE_UNAVAILABLE);
      exchange.headers := exchange.headers + [BREAKER_OPEN];
      exchange.completed := true;
    }
    result := Done;
  }
}
