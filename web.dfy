/** The parts of an HTTP exchange that the gateway's filters read or write. */
module Web {
  import opened Wrappers

  const TOO_MANY_REQUESTS: int := 429
  const SERVICE_UNAVAILABLE: int := 503

  /**
   * The request side, which no filter changes: the path, the first
   * `X-Forwarded-For` value if the header is present, and the textual host
   * address of the remote peer if one is known.
   */
  datatype Request = Request(path: string, forwardedFor: Option<string>, remoteAddress: Option<string>)

  /** One response header line; adding a header appends a line. */
  datatype Header = Header(name: string, value: string)

  /** An exchange: its request and the response being built for it. */
  class Exchange {
    const request: Request
    var status: Option<int>
    var headers: seq<Header>
    var completed: bool

    /** A new exchange for `request`, with nothing set on the response yet. */
    constructor (request: Request)
      ensures this.request == request
      ensures status == None && headers == [] && !completed
    {
      this.request := request;
      status := None;
      headers := [];
      completed := false;
    }
  }

  /** How the asynchronous result of a filter ends: normally, or with an error. */
  datatype Signal = Done | Error(cause: string)
}
