/** The serialization boundary (serde_json's `to_vec` and `from_slice`).
    The JSON grammar itself is not modelled: a codec is supplied per call,
    for the record type the caller names, as a pair of partial functions. */
module Serde {
  import opened Wrappers
  import opened ByteStrings

  /** `encode` fails when a value has no representation in the format;
      `decode` fails when the bytes are malformed or not of the requested
      shape. */
  datatype Codec<!T> = Codec(encode: T -> Option<Bytes>, decode: Bytes -> Option<T>)

  /** The one property the façade relies on: what was encoded decodes back
      to the same value. */
  ghost predicate RoundTrips<T(!new)>(codec: Codec<T>) {
    forall v: T :: codec.encode(v).Some? ==> codec.decode(codec.encode(v).value) == Some(v)
  }
}
