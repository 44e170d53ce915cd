# Client response construction and body framing (hyper)

This project models how hyper's HTTP client builds a `Response` from a
server's reply, in `src/client/response.rs`:

- `Response::new` wraps the transport in a buffered reader and reads the
  status line. It maps the numeric code to the enumerated `StatusCode` and
  fails with `HttpStatusError` when there is none. It then reads the headers
  and frames the body over that same buffered reader.
- The framing decision picks exactly one body reader. With
  Transfer-Encoding present, it picks `ChunkedReader(stream, None)` if
  "chunked" is among the codings and `EofReader(stream)` otherwise. Without
  it, Content-Length gives `SizedReader(stream, len)`. With neither header
  it picks `EofReader(stream)`.
- `status_raw` returns the raw status exactly as read.
- `read` delegates to the body reader.
- `unwrap` peels body reader, then buffered reader, and returns the
  transport.

The transport is a type parameter `S`, moved through the layers unchanged.
The status-line parser and the header parser are not modelled. `New`
receives what each of them returned, a value or an error, as an input. The
header collection is reduced to the answers of `has::<H>()` and
`get::<H>()` for Transfer-Encoding and Content-Length.

Files:

- `wrappers.dfy`: `Option` and `Result`.
- `headers.dfy`: transfer codings, header slots, `Contains`.
- `status.dfy`: `RawStatus`, `StatusCode`, `FromU16`.
- `http_reader.dfy`: `BufferedReader` and the three body readers.
- `response.dfy`: `Response`, `SelectBody`, `New`.
- `framing_properties.dfy`: lemmas over several inputs or calls.
- `message_body_length.dfy`: an independent statement of the
  message-body-length rules of section 3.3.3 of RFC 7230, and the exact
  condition under which the client departs from them.

## Behaviour of the code worth noting

- There is no separate error for an invalid Content-Length or
  Transfer-Encoding. Once `has::<H>()` is true, the code takes `get::<H>()`
  to yield a value; the other arm is `unreachable!()`
  (response.rs:55 and :60). The model makes that assumption a
  precondition (`Headers.Coherent`).
- On an unknown status code the code returns a bare `HttpStatusError`
  (response.rs:34). It carries no raw status, and no response exists whose
  raw status could be inspected.

## Model

| member | source | states |
|---|---|---|
| `Headers.Contains` | src/client/response.rs:48 | `codings.contains(&c)` holds exactly when `c` is one of the codings |
| `Headers.ContainsAnywhere` | src/client/response.rs:48 | a coding is found wherever it sits in the list |
| `Headers.ContainsIgnoresOrder` | src/client/response.rs:48 | reordering the codings does not change membership |
| `Status.FromU16` | src/client/response.rs:32-35 | `from_u16(n)` yields a variant exactly when the enumeration declares `n`, and then the variant whose code is `n` |
| `Status.FromU16OfCode` | src/client/response.rs:32-33 | every enumerated status is found again from its own code |
| `ClientResponse.SelectBody` | src/client/response.rs:41-65 | the body reader is chunked (with no open chunk) iff Transfer-Encoding is present and lists Chunked; sized with exactly the Content-Length iff Transfer-Encoding is absent and Content-Length present; read-to-end otherwise; it always wraps the given stream |
| `ClientResponse.New` | src/client/response.rs:29-74 | a status-line error is returned unchanged; an unmapped code gives `HttpStatusError`; a header error is returned unchanged; otherwise the response has the mapped status, the raw status verbatim, the parsed version and headers, the selected body over the buffered transport, and unwraps to the transport |
| `ClientResponse.Response.StatusRaw` | src/client/response.rs:77-79 | `status_raw()` gives the raw status stored in the response; `New` proves it is the raw status read, code and reason unchanged |
| `ClientResponse.Response.Unwrap` | src/client/response.rs:82-84 | `unwrap` peels body reader and buffered reader; `New` proves it returns the transport given to `new`, `UnwrapIgnoresFraming` that this holds for every framing |
| `HttpReader.HttpReader.Unwrap` | src/client/response.rs:83 | the body reader gives back the byte source it wraps, whichever framing it is; used by `UnwrapIgnoresFraming` |
| `HttpReader.BufferedReader.Unwrap` | src/client/response.rs:83 | the buffered reader gives back the transport it was created over; used by `UnwrapIgnoresFraming` |
| `Headers.Empty` | src/client/response.rs:113 | `Headers::new()` holds neither Transfer-Encoding nor Content-Length and is coherent |
| `ClientResponse.Valid` | src/client/response.rs:32-35 | the response invariant: the typed status is the one the raw code maps to; established by `New`, kept by `ReadKeepsInvariant` |
| `ClientResponse.Response.Read` | src/client/response.rs:87-92 | a read changes only the body reader, exactly as the body reader's own read does, and returns its result |
| `FramingProperties.TransferEncodingOverridesContentLength` | src/client/response.rs:41-57 | with Transfer-Encoding present, replacing Content-Length by anything leaves the framing unchanged |
| `FramingProperties.SelectionDependsOnlyOnChunkedMembership` | src/client/response.rs:43-53 | two Transfer-Encoding lists that agree on whether they list Chunked give the same framing, however many codings they have |
| `FramingProperties.ChunkedAnywhereIsChunked` | src/client/response.rs:48-49 | "chunked" anywhere in the list, with any Content-Length, gives `ChunkedReader(stream, None)` |
| `FramingProperties.CodingOrderIrrelevant` | src/client/response.rs:44-53 | permuting the codings never changes the framing |
| `FramingProperties.UnwrapIgnoresFraming` | src/client/response.rs:82-84 | whichever reader is chosen, unwrapping it gives the buffered reader, and unwrapping that gives the transport |
| `FramingProperties.NewFramesBody` | src/client/response.rs:41-71 | a response built by `new` is chunked when Transfer-Encoding lists Chunked whatever Content-Length says, read to end of stream when it lists no Chunked, sized with exactly the Content-Length without Transfer-Encoding, read to end of stream with neither header; always over the buffered transport |
| `FramingProperties.UnknownStatusFailsWhateverHeaders` | src/client/response.rs:31-35 | an unmapped code fails with `HttpStatusError` before the headers matter |
| `FramingProperties.ReadKeepsInvariant` | src/client/response.rs:87-92 | reading keeps the typed status consistent with the raw one |
| `FramingProperties.UnwrapEofResponse` | src/client/response.rs:109-121 | a read-to-end response over a buffered mock transport unwraps to that transport |
| `MessageBodyLength.RfcBody` | src/client/response.rs:41-65 | the reference framing of RFC 7230 section 3.3.3: chunked iff "chunked" is the final coding; sized iff no Transfer-Encoding and a Content-Length |
| `MessageBodyLength.AgreesWithRfcUnlessChunkedNotFinal` | src/client/response.rs:41-53 | the client's framing equals the RFC's exactly when "chunked" is absent from the codings or is the last of them; otherwise the client decodes chunks where the RFC reads to close |
| `MessageBodyLength.AgreesWithRfcOnSingleCoding` | src/client/response.rs:44-49 | with at most one coding the client and the RFC agree |

## Left out

- Byte-level behaviour of `ChunkedReader`, `SizedReader`, `EofReader` and `BufferedReader`. These live in the http module and the standard library, which are not part of this model. Without them the model cannot say how many bytes a read returns, or where the transport stands after a partial or full read.
- `ClientResponse.Response.Read`: the body reader's own read is a parameter, so the contract says only that the response delegates to it and changes nothing else. Since that step is unconstrained, the model does not promise which transport the body reader wraps after a read, so "`unwrap` after reads returns the transport given to `new`" is not stated. `read(&mut self)` updates the response in place; the model returns the updated response instead. The response is moved and never shared, so no aliasing is lost.
- `ClientResponse.New`: requires that a present Transfer-Encoding or Content-Length header also yields its typed value (`Headers.Coherent`). If the header collection can report a header as present whose value does not parse, the code reaches `unreachable!()` at response.rs:55 or :60 and panics; the model excludes that path, and the header module that would decide it is not part of this model.
- `read_status_line` and `Headers::from_raw`: these parsers are not part of this model. Their results and their errors are inputs to `New`. How they advance the buffered reader is not modelled. The buffered reader is a value that is threaded through unchanged.
- The enumerated `StatusCode` is declared in the status module, which is not part of this model. Its set of discriminants is a parameter (`enumerated`). `FromU16` models a derived `FromPrimitive::from_u16`.
- The version module is not part of this model. `HttpVersion` lists versions 0.9, 1.0, 1.1 and 2.0 as plain tags.
- Headers other than Transfer-Encoding and Content-Length are not modelled. The response keeps only the two header facts.
- Content-Length is a machine `uint` in the source and a `nat` here. The value is passed through unchanged, so its width never matters in this core.
- The `HttpError` variants other than `HttpStatusError` are declared in the crate root, which is not part of this model. They are one variant carrying a description, passed on unchanged.
- `debug!` logging, including the note on more than one coding. It has no effect on the result.
- The `downcast` in the unit test. The model compares the transport value directly.
