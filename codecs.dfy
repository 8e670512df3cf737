/**
 * The Java charset library, seen only through its interface: whether a name
 * denotes a charset that can encode, the UTF-8 decoder of
 * `String(bytes, UTF_8)` and the encoder of `toByteArray(charset)`.
 */
module Codecs {
  import opened Wrappers

  newtype byte = x: int | 0 <= x < 256

  /**
   * A charset library. `supported` says whether `Charset.forName` accepts the
   * name and the charset can encode (`canEncode()`): an unknown name makes
   * `forName` throw, and a decode-only charset makes `toByteArray` throw when
   * it asks for an encoder. `decodeUtf8` never fails (malformed input is
   * replaced); `encode` never fails for a supported charset (unmappable
   * characters are replaced).
   */
  datatype Codec = Codec(
    supported: string -> bool,
    decodeUtf8: seq<byte> -> string,
    encode: (string, string) -> seq<byte>)

  /**
   * `String(body, Charsets.UTF_8).toByteArray(Charset.forName(charset))`:
   * fails exactly when the charset is unknown or cannot encode, and otherwise decodes
   * the body as UTF-8 and encodes the text in `charset`.
   */
  function Transcode(codec: Codec, body: seq<byte>, charset: string): (r: Option<seq<byte>>)
    ensures r.Some? <==> codec.supported(charset)
    ensures r.Some? ==> r.value == codec.encode(codec.decodeUtf8(body), charset)
  {
    var text := codec.decodeUtf8(body);
    if codec.supported(charset) then Some(codec.encode(text, charset)) else None
  }
}
