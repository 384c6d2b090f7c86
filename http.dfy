/** The slice of the Fetch standard the worker relies on: requests, responses
    and what a network fetch settles to. Bodies are plain text and headers are
    reduced to the one Content-Type field the worker sets. */
module Http {

  /** `undefined` versus a value, as returned by a cache lookup. */
  datatype Option<T> = None | Some(value: T)

  /** A response: HTTP status code, Content-Type header and body text. */
  datatype Response = Response(status: int, contentType: string, body: string)

  /** `Response.ok`: the status is in the range 200 to 299. */
  predicate Ok(r: Response)
  {
    200 <= r.status <= 299
  }

  /** A request: method (`verb`), URL and destination ("document" for a page
      navigation, "image", "script", ... for sub-resources, "" for a plain
      `fetch` or `new Request(url)`). */
  datatype Request = Request(verb: string, url: string, destination: string)

  /** What `fetch(request)` settles to: a response of any status, or a
      rejection (network error, offline). */
  datatype NetResult = Success(response: Response) | Failure

  /** The network, as the answer it would give to each request. */
  type Network = Request -> NetResult

  /** The request `new Request(url)` builds, as `cache.addAll` does for each URL. */
  function GetRequest(url: string): Request
  {
    Request("GET", url, "")
  }
}
