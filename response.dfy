/**
  A client response: how `Response::new` turns the outcome of parsing the
  status line and the headers into a response whose body reader frames the
  message body, and how `unwrap` gives the transport back.

  The transport is a type parameter `S`: an owned value that is moved into the
  buffered reader, from there into the body reader, and returned by `unwrap`.
  The status-line and header parsers are not part of this model; `New` takes
  what they returned (a value or an error) as inputs.
*/
module ClientResponse {
  import opened Wrappers
  import opened Headers
  import opened Status
  import opened HttpReader

  /** The protocol versions a status line can carry. */
  datatype HttpVersion = Http09 | Http10 | Http11 | Http20

  /** Errors of `Response::new`: the status error it raises itself, and any
      error of the status-line or header parser, which it passes on unchanged. */
  datatype HttpError = HttpStatusError | ParserError(description: string)

  /** The body reader of a response: a framing over the buffered transport. */
  type Body<S> = HttpReader<BufferedReader<S>>

  datatype Response<S> = Response(
    status: StatusCode,
    headers: Headers,
    version: HttpVersion,
    statusRaw: RawStatus,
    body: Body<S>)
  {
    /** `status_raw()`: the raw status code and reason. */
    function StatusRaw(): RawStatus {
      statusRaw
    }

    /** `unwrap(self)`: body reader, then buffered reader, then the transport. */
    function Unwrap(): S {
      body.Unwrap().Unwrap()
    }

    /** `read`: one read on the response is one read on its body reader.
        `step` is what the body reader's own `read` does (to its state and
        the caller's buffer); nothing but the body reader changes. */
    function Read<R>(step: Body<S> -> (Body<S>, R)): (res: (Response<S>, R))
      ensures res.0.status == status && res.0.headers == headers
      ensures res.0.version == version && res.0.statusRaw == statusRaw
      ensures res.0.body == step(body).0 && res.1 == step(body).1
    {
      var (body', result) := step(body);
      (this.(body := body'), result)
    }
  }

  /** The response invariant: the typed status is the one the raw code maps to. */
  predicate Valid<S>(enumerated: set<U16>, r: Response<S>) {
    FromU16(enumerated, r.statusRaw.code) == Some(r.status)
  }

  /** The framing decision of `Response::new`: Transfer-Encoding first (chunked
      if "chunked" is among its codings, otherwise until end of stream), then
      Content-Length, then until end of stream. */
  function SelectBody<S>(h: Headers, stream: BufferedReader<S>): (body: Body<S>)
    requires h.Coherent()
    ensures body.inner == stream
    ensures body.ChunkedReader? <==>
      h.transferEncoding.has && Chunked in h.transferEncoding.get.value
    ensures body.ChunkedReader? ==> body.chunk == None
    ensures body.SizedReader? <==> !h.transferEncoding.has && h.contentLength.has
    ensures body.SizedReader? ==> body.remaining == h.contentLength.get.value
    ensures body.EofReader? <==>
      (h.transferEncoding.has && Chunked !in h.transferEncoding.get.value) ||
      (!h.transferEncoding.has && !h.contentLength.has)
  {
    if h.transferEncoding.has then
      var codings := h.transferEncoding.get.value;
      // More than one coding is only logged; the decision is membership of Chunked.
      if Contains(codings, Chunked) then ChunkedReader(stream, None)
      else EofReader(stream)
    else if h.contentLength.has then
      SizedReader(stream, h.contentLength.get.value)
    else
      EofReader(stream)
  }

  /** `Response::new`: read the status line, map its code to a `StatusCode`
      (failing with `HttpStatusError` when there is none), read the headers,
      then frame the body over the same buffered reader. `statusLine` and
      `headers` are what `read_status_line` and `Headers::from_raw` return
      when run on that reader in that order. */
  function New<S>(
    enumerated: set<U16>,
    transport: S,
    statusLine: Result<(HttpVersion, RawStatus), HttpError>,
    headers: Result<Headers, HttpError>): (r: Result<Response<S>, HttpError>)
    requires headers.Ok? ==> headers.value.Coherent()
    ensures statusLine.Err? ==> r == Err(statusLine.error)
    ensures statusLine.Ok? && statusLine.value.1.code !in enumerated ==> r == Err(HttpStatusError)
    ensures statusLine.Ok? && statusLine.value.1.code in enumerated && headers.Err? ==>
      r == Err(headers.error)
    ensures r.Ok? <==> statusLine.Ok? && statusLine.value.1.code in enumerated && headers.Ok?
    ensures r.Ok? ==>
      && r.value.StatusRaw() == statusLine.value.1
      && r.value.status.code == statusLine.value.1.code
      && r.value.version == statusLine.value.0
      && r.value.headers == headers.value
      && r.value.body == SelectBody(headers.value, BufferedReader(transport))
      && r.value.body.inner == BufferedReader(transport)
      && r.value.Unwrap() == transport
      && Valid(enumerated, r.value)
  {
    var stream := BufferedReader(transport);
    match statusLine
    case Err(e) => Err(e)
    case Ok((version, rawStatus)) =>
      match FromU16(enumerated, rawStatus.code)
      case None => Err(HttpStatusError)
      case Some(status) =>
        match headers
        case Err(e) => Err(e)
        case Ok(h) =>
          Ok(Response(status, h, version, rawStatus, SelectBody(h, stream)))
  }
}
