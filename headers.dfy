/**
  The two header facts the body-framing decision reads: the typed
  Transfer-Encoding header (an ordered list of codings) and the typed
  Content-Length header. The header collection itself, its parser and its
  storage are not part of this model; what matters is the pair of queries
  `has::<H>()` and `get::<H>()` that the response code asks of it.
*/
module Headers {
  import opened Wrappers

  /** The transfer codings a Transfer-Encoding header can list. Only `Chunked`
      is interpreted; the others stand for any coding the client does not decode. */
  datatype Coding = Chunked | Gzip | Deflate | Compress | Extension(token: string)

  /** The answers of the header collection for one typed header `H`:
      `has` is `headers.has::<H>()`, `get` is `headers.get::<H>()`. */
  datatype HeaderSlot<T> = HeaderSlot(has: bool, get: Option<T>) {

    /** The assumption the response code makes of the collection: once the
        header is present, the typed getter yields a value (otherwise it
        reaches `unreachable!()`). */
    predicate Coherent() {
      has ==> get.Some?
    }
  }

  /** The header collection, reduced to what the response core queries. */
  datatype Headers = Headers(transferEncoding: HeaderSlot<seq<Coding>>, contentLength: HeaderSlot<nat>) {

    predicate Coherent() {
      transferEncoding.Coherent() && contentLength.Coherent()
    }
  }

  /** `Headers::new()`: a collection holding no header at all. */
  function Empty(): (h: Headers)
    ensures h.Coherent()
    ensures !h.transferEncoding.has && !h.contentLength.has
  {
    Headers(HeaderSlot(false, None), HeaderSlot(false, None))
  }

  /** `codings.contains(&c)`: a front-to-back scan of the coding list. */
  function Contains(codings: seq<Coding>, c: Coding): (r: bool)
    ensures r <==> c in codings
  {
    if |codings| == 0 then false
    else codings[0] == c || Contains(codings[1..], c)
  }

  /** Where a coding sits in the list does not matter to `Contains`. */
  lemma ContainsAnywhere(before: seq<Coding>, c: Coding, after: seq<Coding>)
    ensures Contains(before + [c] + after, c)
  {
  }

  /** Reordering the list (same codings, same multiplicities) does not change
      the answer of `Contains`. */
  lemma ContainsIgnoresOrder(codings: seq<Coding>, reordered: seq<Coding>, c: Coding)
    requires multiset(codings) == multiset(reordered)
    ensures Contains(codings, c) == Contains(reordered, c)
  {
    assert c in codings <==> c in multiset(codings);
    assert c in reordered <==> c in multiset(reordered);
  }
}
