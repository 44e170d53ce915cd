/**
  The layers between a response and its transport: the buffered reader that
  owns the transport, and the three body readers that own the buffered
  reader. Their byte-level behaviour lives in the http module and is not part
  of this model; what is modelled is which layer owns which, and that each
  layer gives back exactly what it wraps.
*/
module HttpReader {
  import opened Wrappers

  /** `BufferedReader<S>` over a transport `S`. Its read-ahead buffer is not modelled. */
  datatype BufferedReader<S> = BufferedReader(inner: S) {

    /** `BufferedReader::unwrap`: the transport it was created over. */
    function Unwrap(): S {
      inner
    }
  }

  /** `HttpReader<R>`: one body reader over a byte source `R`. */
  datatype HttpReader<R> =
    | SizedReader(inner: R, remaining: nat)          // exactly `remaining` more bytes
    | ChunkedReader(inner: R, chunk: Option<nat>)   // bytes left of the current chunk, if one is open
    | EofReader(inner: R)                           // everything until the source ends
  {
    /** `HttpReader::unwrap`: the byte source, whichever framing wraps it. */
    function Unwrap(): R {
      inner
    }
  }
}
