/**
  Properties of the framing decision and of the ownership chain that relate
  several inputs or several calls.
*/
module FramingProperties {
  import opened Wrappers
  import opened Headers
  import opened Status
  import opened HttpReader
  import opened ClientResponse

  /** Transfer-Encoding takes precedence: whatever Content-Length says (or
      whether it is there at all), a response with Transfer-Encoding is
      framed the same way. */
  lemma TransferEncodingOverridesContentLength<S>(h: Headers, other: HeaderSlot<nat>, stream: BufferedReader<S>)
    requires h.Coherent() && other.Coherent()
    requires h.transferEncoding.has
    ensures SelectBody(h.(contentLength := other), stream) == SelectBody(h, stream)
  {
  }

  /** With Transfer-Encoding present, the decision depends only on whether
      Chunked is one of the codings: not on how many codings there are, on
      their order, or on the other codings. */
  lemma SelectionDependsOnlyOnChunkedMembership<S>(h1: Headers, h2: Headers, stream: BufferedReader<S>)
    requires h1.Coherent() && h2.Coherent()
    requires h1.transferEncoding.has && h2.transferEncoding.has
    requires Chunked in h1.transferEncoding.get.value <==> Chunked in h2.transferEncoding.get.value
    ensures SelectBody(h1, stream) == SelectBody(h2, stream)
  {
  }

  /** "chunked" is honoured wherever it sits in the coding list, with any
      codings before or after it and any Content-Length. */
  lemma ChunkedAnywhereIsChunked<S>(before: seq<Coding>, after: seq<Coding>, cl: HeaderSlot<nat>, stream: BufferedReader<S>)
    requires cl.Coherent()
    ensures SelectBody(Headers(HeaderSlot(true, Some(before + [Chunked] + after)), cl), stream)
      == ChunkedReader(stream, None)
  {
  }

  /** Reordering the Transfer-Encoding codings never changes the framing. */
  lemma CodingOrderIrrelevant<S>(codings: seq<Coding>, reordered: seq<Coding>, cl: HeaderSlot<nat>, stream: BufferedReader<S>)
    requires cl.Coherent()
    requires multiset(codings) == multiset(reordered)
    ensures SelectBody(Headers(HeaderSlot(true, Some(codings)), cl), stream)
      == SelectBody(Headers(HeaderSlot(true, Some(reordered)), cl), stream)
  {
    ContainsIgnoresOrder(codings, reordered, Chunked);
  }

  /** Whichever framing is chosen, unwrapping the body reader gives back the
      buffered reader it was built over, and that one the transport. */
  lemma UnwrapIgnoresFraming<S>(h: Headers, transport: S)
    requires h.Coherent()
    ensures SelectBody(h, BufferedReader(transport)).Unwrap() == BufferedReader(transport)
    ensures SelectBody(h, BufferedReader(transport)).Unwrap().Unwrap() == transport
  {
  }

  /** The framing of a response built by `new`, case by case: chunked whenever
      Transfer-Encoding lists Chunked (whatever Content-Length says), read to
      end of stream when Transfer-Encoding lists no Chunked, sized with exactly
      the Content-Length when there is no Transfer-Encoding, and read to end of
      stream when neither header is there. */
  lemma NewFramesBody<S>(
    enumerated: set<U16>, transport: S, version: HttpVersion, raw: RawStatus, h: Headers)
    requires h.Coherent()
    requires raw.code in enumerated
    ensures New(enumerated, transport, Ok((version, raw)), Ok(h)).Ok?
    ensures h.transferEncoding.has && Chunked in h.transferEncoding.get.value ==>
      New(enumerated, transport, Ok((version, raw)), Ok(h)).value.body
        == ChunkedReader(BufferedReader(transport), None)
    ensures h.transferEncoding.has && Chunked !in h.transferEncoding.get.value ==>
      New(enumerated, transport, Ok((version, raw)), Ok(h)).value.body
        == EofReader(BufferedReader(transport))
    ensures !h.transferEncoding.has && h.contentLength.has ==>
      New(enumerated, transport, Ok((version, raw)), Ok(h)).value.body
        == SizedReader(BufferedReader(transport), h.contentLength.get.value)
    ensures !h.transferEncoding.has && !h.contentLength.has ==>
      New(enumerated, transport, Ok((version, raw)), Ok(h)).value.body
        == EofReader(BufferedReader(transport))
  {
  }

  /** An unknown status code fails construction whatever the headers would
      have been: no response is produced. */
  lemma UnknownStatusFailsWhateverHeaders<S>(
    enumerated: set<U16>, transport: S, version: HttpVersion, raw: RawStatus,
    h1: Result<Headers, HttpError>, h2: Result<Headers, HttpError>)
    requires h1.Ok? ==> h1.value.Coherent()
    requires h2.Ok? ==> h2.value.Coherent()
    requires raw.code !in enumerated
    ensures New(enumerated, transport, Ok((version, raw)), h1) == Err(HttpStatusError)
    ensures New(enumerated, transport, Ok((version, raw)), h1) == New(enumerated, transport, Ok((version, raw)), h2)
  {
  }

  /** Reading keeps the response invariant. */
  lemma ReadKeepsInvariant<S, R>(enumerated: set<U16>, r: Response<S>, step: Body<S> -> (Body<S>, R))
    requires Valid(enumerated, r)
    ensures Valid(enumerated, r.Read(step).0)
  {
  }

  /** The unit test of `unwrap`: a response reading to end of stream over a
      buffered mock transport unwraps to that very transport. */
  lemma UnwrapEofResponse<S>(mock: S)
    ensures Response(StatusCode(200), Empty(), Http11, RawStatus(200, "OK"),
                     EofReader(BufferedReader(mock))).Unwrap() == mock
  {
  }
}
