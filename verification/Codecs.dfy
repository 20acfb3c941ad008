/** Token codecs: what a snapshot needs to write and read tokens. */
module Codecs {
  import opened Wrappers
  import opened Bytes
  import opened FileLayout

  /** `encode` gives the bytes appended for one token. */
  datatype Codec<!T(==)> = Codec(
    id: seq<Byte>, version: nat, encode: T -> Result<seq<Byte>>, decode: seq<Byte> -> Result<T>)
  {
    function Tag(): CodecTag {
      CodecTag(id, version)
    }

    /** Decoding undoes encoding on this token. */
    predicate RoundTrips(token: T) {
      encode(token).Ok? && decode(encode(token).value) == Ok(token)
    }

    function Encoding(token: T): seq<Byte>
      requires RoundTrips(token)
    {
      encode(token).value
    }

    /** The encoding of a token, checked by decoding it again. */
    function EncodeToken(token: T): (r: Result<seq<Byte>>)
      ensures r.Ok? <==> RoundTrips(token)
      ensures r.Ok? ==> r.value == Encoding(token)
    {
      match encode(token)
      case Err(e) => Err(e)
      case Ok(bytes) =>
        match decode(bytes)
        case Err(e) => Err(e)
        case Ok(decoded) => if decoded != token then Err(InvalidTokenEncoding) else Ok(bytes)
    }
  }

  /** Tokens that round-trip have different encodings. */
  lemma EncodingIsInjective<T>(codec: Codec<T>, a: T, b: T)
    requires codec.RoundTrips(a) && codec.RoundTrips(b)
    ensures codec.Encoding(a) == codec.Encoding(b) <==> a == b
  {
    assert codec.decode(codec.Encoding(a)) == Ok(a);
    assert codec.decode(codec.Encoding(b)) == Ok(b);
  }
}
