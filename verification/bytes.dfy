/**
 The byte-buffer vocabulary shared by every scanner of the content-pack
 extractor: bytes, optional values, the JavaScript reading of an index, and
 the notion of a pattern occurring at an offset.
 */
module Bytes {

  /** One element of a `Uint8Array`. */
  type Byte = bv8

  /** A value that may be missing: an `undefined` read, a `null` image, a
      payload whose marker was not found. */
  datatype Option<+T> = None | Some(value: T)

  /** Indexed read of a typed array: an index outside the buffer yields
      `undefined` (here `None`), which is never equal to any byte. */
  function At(b: seq<Byte>, i: int): Option<Byte>
  {
    if 0 <= i < |b| then Some(b[i]) else None
  }

  /** `pat` lies entirely inside `b`, starting at offset `i`. */
  predicate OccursAt(b: seq<Byte>, i: int, pat: seq<Byte>)
  {
    0 <= i && i + |pat| <= |b| && b[i..i + |pat|] == pat
  }
}
