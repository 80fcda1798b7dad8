/**
 * What the request rewriter takes from libraries it does not define: net/http's request parser with the
 * header edits around it, and HPACK decoding and re-encoding. Each is an arbitrary function of the bytes and
 * of a state S that it hands on, and each may fail.
 */
module Codec {
  import opened Bytes
  import opened Http2Frames

  /** A parsed and re-serialised HTTP/1 head, with what it says about the body. */
  datatype HeadResult<+S> = HeadInvalid | Head(serialized: bytes, chunked: bool, contentLength: int, next: S)

  /** A decoded, edited and re-encoded header block. */
  datatype BlockResult<+S> = BlockInvalid | Block(block: bytes, priority: Priority, next: S)

  datatype Codec<!S> = Codec(
    head: (S, bytes) -> HeadResult<S>,
    headers: (S, bytes) -> BlockResult<S>,
    resizeTable: (S, nat) -> S)
}
