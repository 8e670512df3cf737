/**
 * The two header rewrites of the charset converter. Inbound moves a body
 * from its declared charset to UTF-8 and records the declared charset in an
 * `X-Original-Charset` header; outbound reads that header back and restores
 * the `Content-Type` line. Each is given as a function of the old header list
 * and body (`Inbound`, `Outbound`) and as the method that mutates the parsed
 * message's header list in place (`ProcessInbound`, `ProcessOutbound`).
 */
module Converter {
  import opened Wrappers
  import opened Text
  import opened Headers
  import opened CharsetPattern
  import opened Codecs

  const ContentTypePrefix: string := "Content-Type: "
  const OriginalCharsetPrefix: string := "X-Original-Charset: "
  const CanonicalCharset: string := "utf-8"

  /** A message as header lines and body bytes; stands for the raw bytes the host parses and rebuilds. */
  datatype Message = Message(headers: seq<string>, body: seq<byte>)

  /**
   * The exceptions a rewrite can raise: a charset that `Charset.forName`
   * rejects or that cannot encode, and the `!!` on a missing `Content-Type`.
   */
  datatype Error = UnsupportedCharset(charset: string) | MissingContentType

  /** What a rewrite produces: null (nothing to do), a rebuilt message, or an exception. */
  datatype Outcome = NoChange | Rebuilt(message: Message) | Failed(error: Error)

  /** `processInbound` as a function of the header list and body it is given. */
  function Inbound(headers: seq<string>, body: seq<byte>, codec: Codec): (r: Outcome)
    ensures (forall j :: 0 <= j < |headers| ==> !StartsWith(headers[j], ContentTypePrefix)) ==> r.NoChange?
    ensures r.Failed? ==> r.error.UnsupportedCharset? && !codec.supported(r.error.charset)
    ensures r.Rebuilt? ==> |r.message.headers| == |headers| + 1
    ensures r.Rebuilt? ==> StartsWith(r.message.headers[|headers|], OriginalCharsetPrefix)
  {
    match FirstMatch(headers, ContentTypePrefix)
    case None => NoChange
    case Some(i) =>
      var contentType := headers[i];
      match FindCharset(contentType)
      case None => NoChange
      case Some(found) =>
        var charset := found.group;
        match Transcode(codec, body, charset)
        case None => Failed(UnsupportedCharset(charset))
        case Some(newBody) =>
          var rest := RemoveFirst(headers, contentType);
          assert (OriginalCharsetPrefix + charset)[..|OriginalCharsetPrefix|] == OriginalCharsetPrefix;
          Rebuilt(Message(rest + [ReplaceAll(contentType, charset, CanonicalCharset), OriginalCharsetPrefix + charset], newBody))
  }

  /** `processOutbound` as a function of the header list and body it is given. */
  function Outbound(headers: seq<string>, body: seq<byte>, codec: Codec): (r: Outcome)
    ensures r.NoChange? <==> forall j :: 0 <= j < |headers| ==> !StartsWith(headers[j], OriginalCharsetPrefix)
    ensures r == Failed(MissingContentType) ==> forall j :: 0 <= j < |headers| ==> !StartsWith(headers[j], ContentTypePrefix)
    ensures r.Failed? && r.error.UnsupportedCharset? ==> !codec.supported(r.error.charset)
    ensures r.Rebuilt? ==> |r.message.headers| <= |headers|
  {
    match FirstMatch(headers, OriginalCharsetPrefix)
    case None => NoChange
    case Some(i) =>
      var originalCharset := headers[i];
      var charset := SubstringAfter(originalCharset, OriginalCharsetPrefix);
      match Transcode(codec, body, charset)
      case None => Failed(UnsupportedCharset(charset))
      case Some(newBody) =>
        match FirstMatch(headers, ContentTypePrefix)
        case None => Failed(MissingContentType)
        case Some(k) =>
          var contentType := headers[k];
          var rest := RemoveFirst(RemoveFirst(headers, originalCharset), contentType);
          Rebuilt(Message(rest + [ReplaceAll(contentType, CanonicalCharset, charset)], newBody))
  }

  /** The parsed message handed to a rewrite: its header list is mutable, its body is not. */
  class MessageInfo {
    var headers: seq<string>
    const body: seq<byte>

    constructor (headers: seq<string>, body: seq<byte>)
      ensures this.headers == headers && this.body == body
    {
      this.headers := headers;
      this.body := body;
    }
  }

  /**
   * `processInbound`: every step that can fail runs before the header list
   * is touched, so the list changes only when a rebuilt message is returned.
   */
  method ProcessInbound(message: MessageInfo, codec: Codec) returns (r: Outcome)
    modifies message
    ensures r == Inbound(old(message.headers), message.body, codec)
    ensures message.headers == if r.Rebuilt? then r.message.headers else old(message.headers)
  {
    var contentTypeHeader := FindHeader(message.headers, ContentTypePrefix);
    if contentTypeHeader.None? {
      return NoChange;
    }
    var contentType := contentTypeHeader.value;
    var found := FindCharset(contentType);
    if found.None? {
      return NoChange;
    }
    var charset := found.value.group;
    var body := Transcode(codec, message.body, charset);
    if body.None? {
      return Failed(UnsupportedCharset(charset));
    }
    message.headers := RemoveFirst(message.headers, contentType);
    message.headers := message.headers + [ReplaceAll(contentType, charset, CanonicalCharset)];
    message.headers := message.headers + [OriginalCharsetPrefix + charset];
    return Rebuilt(Message(message.headers, body.value));
  }

  /**
   * `processOutbound`: the charset lookup, the transcoding and the
   * `Content-Type` lookup all happen before the first `remove`, so a failure
   * leaves the header list as it was.
   */
  method ProcessOutbound(message: MessageInfo, codec: Codec) returns (r: Outcome)
    modifies message
    ensures r == Outbound(old(message.headers), message.body, codec)
    ensures message.headers == if r.Rebuilt? then r.message.headers else old(message.headers)
  {
    var originalCharsetHeader := FindHeader(message.headers, OriginalCharsetPrefix);
    if originalCharsetHeader.None? {
      return NoChange;
    }
    var originalCharset := originalCharsetHeader.value;
    var charset := SubstringAfter(originalCharset, OriginalCharsetPrefix);
    var newBody := Transcode(codec, message.body, charset);
    if newBody.None? {
      return Failed(UnsupportedCharset(charset));
    }
    var contentTypeHeader := FindHeader(message.headers, ContentTypePrefix);
    if contentTypeHeader.None? {
      return Failed(MissingContentType);
    }
    var contentType := contentTypeHeader.value;
    message.headers := RemoveFirst(message.headers, originalCharset);
    message.headers := RemoveFirst(message.headers, contentType);
    message.headers := message.headers + [ReplaceAll(contentType, CanonicalCharset, charset)];
    return Rebuilt(Message(message.headers, newBody.value));
  }
}
