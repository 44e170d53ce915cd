/**
  The message-body-length rules of section 3.3.3 of RFC 7230, restricted to
  what the framing decision sees (the two header facts) and to responses:

  - item 3: Transfer-Encoding overrides Content-Length; if "chunked" is the
    final coding the body is chunked, otherwise a response is read until the
    connection closes;
  - item 5: a valid Content-Length gives the body length;
  - item 7: otherwise a response is read until the connection closes.

  Items 1 and 2 (bodies a status code or a CONNECT exchange rule out), 4
  (invalid or conflicting Content-Length, rejected before these facts exist)
  and 6 (requests) are not restated here.
*/
module MessageBodyLength {
  import opened Wrappers
  import opened Headers
  import opened HttpReader
  import opened ClientResponse

  /** The RFC's rule for the last coding. */
  predicate ChunkedIsFinal(codings: seq<Coding>) {
    |codings| > 0 && codings[|codings| - 1] == Chunked
  }

  /** The body reader the RFC's rules call for. */
  function RfcBody<S>(h: Headers, stream: BufferedReader<S>): (body: Body<S>)
    requires h.Coherent()
    ensures body.inner == stream
    ensures body.ChunkedReader? <==> h.transferEncoding.has && ChunkedIsFinal(h.transferEncoding.get.value)
    ensures body.SizedReader? <==> !h.transferEncoding.has && h.contentLength.has
  {
    if h.transferEncoding.has then
      if ChunkedIsFinal(h.transferEncoding.get.value) then ChunkedReader(stream, None)
      else EofReader(stream)
    else if h.contentLength.has then
      SizedReader(stream, h.contentLength.get.value)
    else
      EofReader(stream)
  }

  /** The one simplification of the client: "chunked" is accepted anywhere in
      the coding list, not only as the final coding. */
  predicate ChunkedButNotFinal(h: Headers)
    requires h.Coherent()
  {
    h.transferEncoding.has
    && Chunked in h.transferEncoding.get.value
    && !ChunkedIsFinal(h.transferEncoding.get.value)
  }

  /** The client frames a response as the RFC does exactly when "chunked" is
      absent from the codings or is the last of them; otherwise the RFC reads
      until close where the client decodes chunks. */
  lemma AgreesWithRfcUnlessChunkedNotFinal<S>(h: Headers, stream: BufferedReader<S>)
    requires h.Coherent()
    ensures SelectBody(h, stream) == RfcBody(h, stream) <==> !ChunkedButNotFinal(h)
    ensures ChunkedButNotFinal(h) ==>
      SelectBody(h, stream) == ChunkedReader(stream, None) && RfcBody(h, stream) == EofReader(stream)
  {
  }

  /** With at most one coding (the usual case) the client and the RFC agree. */
  lemma AgreesWithRfcOnSingleCoding<S>(h: Headers, stream: BufferedReader<S>)
    requires h.Coherent()
    requires h.transferEncoding.has ==> |h.transferEncoding.get.value| <= 1
    ensures SelectBody(h, stream) == RfcBody(h, stream)
  {
  }
}
