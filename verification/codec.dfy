/** Serialisation seen from outside: an encoder, its decoder, and a decoder of an older format. */
module Codecs {
  import opened Wrappers
  import opened Bytes

  /** `decodeLegacy` is the old format's decoder followed by the conversion of what it yields. */
  datatype Codec<!V(!new)> = Codec(encode: V -> Bytes, decode: Bytes -> Option<V>, decodeLegacy: Bytes -> Option<V>)
  {
    ghost predicate Lossless() {
      forall v :: decode(encode(v)) == Some(v)
    }
  }

  function OrError<V>(v: Option<V>): Result<V, StoreError> {
    match v
    case Some(x) => Ok(x)
    case None => Err(DeserializationError)
  }
}
