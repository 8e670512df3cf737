/**
 * Inbound followed by outbound, as the two listeners apply them to one
 * message: when the header line is restored, what the body becomes, and a
 * header line that the pair cannot restore.
 */
module RoundTrip {
  import opened Text
  import opened Headers
  import opened CharsetPattern
  import opened Codecs
  import opened Converter
  import opened ConverterProperties

  /**
   * Both directions compute the body the same way: decode the bytes as UTF-8
   * and encode the text in the charset. An inbound rewrite that recorded
   * `charset` and an outbound rewrite that reads `charset` back produce the
   * same bytes from the same body.
   */
  lemma SameBodyTransform(inHeaders: seq<string>, outHeaders: seq<string>, body: seq<byte>, codec: Codec, charset: string, i: nat)
    requires Inbound(inHeaders, body, codec).Rebuilt?
    requires var h := Inbound(inHeaders, body, codec).message.headers; |h| > 0 && h[|h| - 1] == OriginalCharsetPrefix + charset
    requires IsFirstWithPrefix(outHeaders, OriginalCharsetPrefix, i) && outHeaders[i] == OriginalCharsetPrefix + charset
    requires Outbound(outHeaders, body, codec).Rebuilt?
    ensures Inbound(inHeaders, body, codec).message.body == codec.encode(codec.decodeUtf8(body), charset)
    ensures Outbound(outHeaders, body, codec).message.body == codec.encode(codec.decodeUtf8(body), charset)
  {
    InboundBody(inHeaders, body, codec);
    assert (OriginalCharsetPrefix + charset)[|OriginalCharsetPrefix|..] == charset;
    OutboundBody(outHeaders, body, codec, i);
  }

  /** A rebuilt inbound message ends with the `X-Original-Charset: ` line of the charset its body was encoded in. */
  lemma InboundBody(headers: seq<string>, body: seq<byte>, codec: Codec)
    requires Inbound(headers, body, codec).Rebuilt?
    ensures var m := Inbound(headers, body, codec).message;
      var h := m.headers;
      |h| > 0 && StartsWith(h[|h| - 1], OriginalCharsetPrefix)
      && m.body == codec.encode(codec.decodeUtf8(body), h[|h| - 1][|OriginalCharsetPrefix|..])
  {
    var k := FirstMatch(headers, ContentTypePrefix).value;
    var group := FindCharset(headers[k]).value.group;
    var recorded := OriginalCharsetPrefix + group;
    assert recorded[..|OriginalCharsetPrefix|] == OriginalCharsetPrefix;
    assert recorded[|OriginalCharsetPrefix|..] == group;
  }

  /** A rebuilt outbound message's body is encoded in the charset read from the first `X-Original-Charset: ` line. */
  lemma OutboundBody(headers: seq<string>, body: seq<byte>, codec: Codec, i: nat)
    requires IsFirstWithPrefix(headers, OriginalCharsetPrefix, i)
    requires Outbound(headers, body, codec).Rebuilt?
    ensures Outbound(headers, body, codec).message.body == codec.encode(codec.decodeUtf8(body), headers[i][|OriginalCharsetPrefix|..])
  {
  }

  /**
   * The round trip on a message whose only `Content-Type: ` line ends with its
   * charset token, carries no earlier occurrence of the token or of `utf-8`,
   * and which has no `X-Original-Charset: ` line: the line comes back
   * unchanged, moved behind the other lines, and the side-channel line is gone.
   * The body goes through the same function twice instead of its inverse, so
   * it comes back exactly when applying that function twice gives it back,
   * for example when one application already does.
   */
  lemma {:induction false} InboundThenOutbound(headers: seq<string>, body: seq<byte>, codec: Codec, i: nat, p: string, charset: string)
    requires IsFirstWithPrefix(headers, ContentTypePrefix, i)
    requires forall j :: 0 <= j < |headers| && j != i ==> !StartsWith(headers[j], ContentTypePrefix)
    requires forall j :: 0 <= j < |headers| ==> !StartsWith(headers[j], OriginalCharsetPrefix)
    requires headers[i] == p + charset && StartsWith(p, ContentTypePrefix)
    requires FindCharset(headers[i]).Some? && FindCharset(headers[i]).value.group == charset
    requires FirstOccursAt(p + charset, charset, |p|)
    requires FirstOccursAt(p + CanonicalCharset, CanonicalCharset, |p|)
    requires codec.supported(charset)
    ensures Inbound(headers, body, codec).Rebuilt?
    ensures var first := Inbound(headers, body, codec).message;
      Outbound(first.headers, first.body, codec) == Rebuilt(Message(
        headers[..i] + headers[i + 1..] + [headers[i]],
        codec.encode(codec.decodeUtf8(codec.encode(codec.decodeUtf8(body), charset)), charset)))
  {
    var rest := headers[..i] + headers[i + 1..];
    InboundRewrite(headers, body, codec, i);
    ReplaceTrailing(p, charset, CanonicalCharset);
    var first := Inbound(headers, body, codec).message;
    assert first.headers == rest + [p + CanonicalCharset, OriginalCharsetPrefix + charset];
    forall j | 0 <= j < |rest|
      ensures !StartsWith(rest[j], ContentTypePrefix) && !StartsWith(rest[j], OriginalCharsetPrefix)
    {
      if j < i {
        assert rest[j] == headers[j];
      } else {
        assert rest[j] == headers[j + 1];
      }
    }
    OutboundRestores(rest, first.body, codec, p, charset);
  }

  /**
   * Outbound on the lines an inbound rewrite leaves behind: the other lines,
   * the rewritten `Content-Type: ` line and the recorded charset. It puts the
   * charset back in place of `utf-8` and drops the recorded line.
   */
  lemma OutboundRestores(rest: seq<string>, body: seq<byte>, codec: Codec, p: string, charset: string)
    requires forall j :: 0 <= j < |rest| ==> !StartsWith(rest[j], ContentTypePrefix) && !StartsWith(rest[j], OriginalCharsetPrefix)
    requires StartsWith(p, ContentTypePrefix)
    requires FirstOccursAt(p + CanonicalCharset, CanonicalCharset, |p|)
    requires codec.supported(charset)
    ensures Outbound(rest + [p + CanonicalCharset, OriginalCharsetPrefix + charset], body, codec)
      == Rebuilt(Message(rest + [p + charset], codec.encode(codec.decodeUtf8(body), charset)))
  {
    var n := |rest| + 1;
    var rewritten := p + CanonicalCharset;
    var recorded := OriginalCharsetPrefix + charset;
    var m := rest + [rewritten, recorded];
    assert m[n - 1] == rewritten && m[n] == recorded;
    assert rewritten[..|ContentTypePrefix|] == p[..|ContentTypePrefix|];
    PrefixesExclusive(rewritten);
    assert recorded[..|OriginalCharsetPrefix|] == OriginalCharsetPrefix;
    assert forall j :: 0 <= j < n - 1 ==> m[j] == rest[j];
    assert IsFirstWithPrefix(m, OriginalCharsetPrefix, n);
    assert IsFirstWithPrefix(m, ContentTypePrefix, n - 1);
    assert recorded[|OriginalCharsetPrefix|..] == charset;
    OutboundRewrite(m, body, codec, n, n - 1);
    ReplaceTrailing(p, CanonicalCharset, charset);
    assert m[..n - 1] == rest;
    assert m[n - 1 + 1..n] == [] && m[n + 1..] == [];
    assert m[..n - 1] + m[n - 1 + 1..n] + m[n + 1..] + [ReplaceAll(m[n - 1], CanonicalCharset, charset)] == rest + [p + charset];
  }

  /**
   * `replace` works on the whole line: when the token first occurs inside
   * the `Content-Type: ` name itself, the rewritten line no longer starts
   * with `Content-Type: ` (nor with `X-Original-Charset: `).
   */
  lemma TokenInNameBreaksContentType(line: string, charset: string, at: nat)
    requires StartsWith(line, ContentTypePrefix) && |charset| > 0
    requires at < |ContentTypePrefix| && OccursAt(line, charset, at)
    ensures !StartsWith(ReplaceAll(line, charset, CanonicalCharset), ContentTypePrefix)
    ensures !StartsWith(ReplaceAll(line, charset, CanonicalCharset), OriginalCharsetPrefix)
  {
    IndexOfFindsFirst(line, charset, at);
    var leftmost := IndexOf(line, charset).value;
    ReplaceKeepsTextBeforeFirst(line, charset, CanonicalCharset, leftmost);
    var r := ReplaceAll(line, charset, CanonicalCharset);
    assert r[leftmost] == r[leftmost..leftmost + |CanonicalCharset|][0] == 'u';
    NameLacksU(leftmost);
    if |ContentTypePrefix| <= |r| {
      assert r[..|ContentTypePrefix|][leftmost] == 'u';
    }
    if |OriginalCharsetPrefix| <= |r| {
      if leftmost == 0 {
        assert r[..|OriginalCharsetPrefix|][0] == 'u';
      } else {
        assert r[0] == r[..leftmost][0] == line[..leftmost][0] == line[..|ContentTypePrefix|][0] == 'C';
        assert r[..|OriginalCharsetPrefix|][0] == 'C';
      }
    }
  }

  /** The letter `u`, with which `utf-8` begins, does not occur in `Content-Type: `. */
  lemma NameLacksU(k: nat)
    requires k < |ContentTypePrefix|
    ensures ContentTypePrefix[k] != 'u'
  {
  }

  /**
   * Consequently the round trip of a single `Content-Type: ` line fails when
   * its token occurs inside the header name and the codec accepts it as a
   * charset: inbound succeeds, and outbound then finds no `Content-Type: `
   * line and raises. A token the codec rejects makes inbound raise instead.
   */
  lemma TokenInNameBreaksRoundTrip(line: string, body: seq<byte>, codec: Codec, at: nat)
    requires StartsWith(line, ContentTypePrefix)
    requires FindCharset(line).Some?
    requires codec.supported(FindCharset(line).value.group)
    requires var charset := FindCharset(line).value.group;
      at < |ContentTypePrefix| && OccursAt(line, charset, at)
    ensures Inbound([line], body, codec).Rebuilt?
    ensures var first := Inbound([line], body, codec).message;
      Outbound(first.headers, first.body, codec) == Failed(MissingContentType)
  {
    var charset := FindCharset(line).value.group;
    assert IsFirstWithPrefix([line], ContentTypePrefix, 0);
    InboundRewrite([line], body, codec, 0);
    var first := Inbound([line], body, codec).message;
    var rewritten := ReplaceAll(line, charset, CanonicalCharset);
    var recorded := OriginalCharsetPrefix + charset;
    assert first.headers == [rewritten, recorded];
    TokenInNameBreaksContentType(line, charset, at);
    PrefixesExclusive(recorded);
    assert recorded[..|OriginalCharsetPrefix|] == OriginalCharsetPrefix;
    assert recorded[|OriginalCharsetPrefix|..] == charset;
    assert IsFirstWithPrefix(first.headers, OriginalCharsetPrefix, 1);
    OutboundMissingContentType(first.headers, first.body, codec, 1);
  }
}
