/**
 * What the two rewrites promise, stated against the header list: when they
 * do nothing, exactly which lines they remove and append, and where they fail.
 */
module ConverterProperties {
  import opened Wrappers
  import opened Text
  import opened Headers
  import opened CharsetPattern
  import opened Codecs
  import opened Converter

  /** The `FirstMatch` search agrees with the first-header predicate. */
  lemma FirstMatchIsFirst(headers: seq<string>, prefix: string, i: nat)
    requires IsFirstWithPrefix(headers, prefix, i)
    ensures FirstMatch(headers, prefix) == Some(i)
  {
  }

  /** No header line starts with both `Content-Type: ` and `X-Original-Charset: `. */
  lemma PrefixesExclusive(s: string)
    ensures !(StartsWith(s, ContentTypePrefix) && StartsWith(s, OriginalCharsetPrefix))
  {
    if StartsWith(s, ContentTypePrefix) {
      assert s[..|ContentTypePrefix|][0] == 'C';
      if |OriginalCharsetPrefix| <= |s| {
        assert s[..|OriginalCharsetPrefix|][0] == s[0] == 'C';
      }
    }
  }

  /**
   * Inbound does nothing exactly when no header starts with `Content-Type: `
   * or the first one that does has no `charset=` match.
   */
  lemma InboundNoChange(headers: seq<string>, body: seq<byte>, codec: Codec)
    ensures Inbound(headers, body, codec).NoChange? <==>
      (forall j :: 0 <= j < |headers| ==> !StartsWith(headers[j], ContentTypePrefix))
      || (exists i: nat :: IsFirstWithPrefix(headers, ContentTypePrefix, i) && FindCharset(headers[i]).None?)
  {
  }

  /**
   * Inbound raises exactly when the first `Content-Type: ` line has a charset
   * token that the charset library rejects, and the error names that token.
   */
  lemma InboundFailure(headers: seq<string>, body: seq<byte>, codec: Codec, i: nat)
    requires IsFirstWithPrefix(headers, ContentTypePrefix, i)
    requires FindCharset(headers[i]).Some?
    ensures var charset := FindCharset(headers[i]).value.group;
      Inbound(headers, body, codec).Failed? <==> !codec.supported(charset)
    ensures var charset := FindCharset(headers[i]).value.group;
      Inbound(headers, body, codec).Failed? ==> Inbound(headers, body, codec).error == UnsupportedCharset(charset)
  {
    FirstMatchIsFirst(headers, ContentTypePrefix, i);
  }

  /**
   * A successful inbound rewrite removes the first `Content-Type: ` line (and
   * only it: other lines, duplicates included, keep their order), appends it
   * with every occurrence of the token replaced by `utf-8`, then appends
   * `X-Original-Charset: <token>`; the body is the UTF-8 decoding of the old
   * body encoded in the token's charset.
   */
  lemma InboundRewrite(headers: seq<string>, body: seq<byte>, codec: Codec, i: nat)
    requires IsFirstWithPrefix(headers, ContentTypePrefix, i)
    requires FindCharset(headers[i]).Some?
    requires codec.supported(FindCharset(headers[i]).value.group)
    ensures var charset := FindCharset(headers[i]).value.group;
      Inbound(headers, body, codec) == Rebuilt(Message(
        headers[..i] + headers[i + 1..] + [ReplaceAll(headers[i], charset, CanonicalCharset), OriginalCharsetPrefix + charset],
        codec.encode(codec.decodeUtf8(body), charset)))
    ensures |Inbound(headers, body, codec).message.headers| == |headers| + 1
  {
    FirstMatchIsFirst(headers, ContentTypePrefix, i);
    RemovesLocatedHeader(headers, ContentTypePrefix, i);
  }

  /** Outbound does nothing exactly when no header starts with `X-Original-Charset: `. */
  lemma OutboundNoChange(headers: seq<string>, body: seq<byte>, codec: Codec)
    ensures Outbound(headers, body, codec).NoChange? <==>
      forall j :: 0 <= j < |headers| ==> !StartsWith(headers[j], OriginalCharsetPrefix)
  {
  }

  /**
   * The charset outbound restores is the text after the prefix of the first
   * `X-Original-Charset: ` line, possibly empty; outbound raises on it exactly
   * when the charset library rejects it.
   */
  lemma OutboundUnsupported(headers: seq<string>, body: seq<byte>, codec: Codec, i: nat)
    requires IsFirstWithPrefix(headers, OriginalCharsetPrefix, i)
    ensures var charset := headers[i][|OriginalCharsetPrefix|..];
      Outbound(headers, body, codec) == Failed(UnsupportedCharset(charset)) <==> !codec.supported(charset)
  {
  }

  /**
   * With a supported charset and no `Content-Type: ` line, outbound raises
   * (the `!!` on the lookup) instead of producing a message.
   */
  lemma OutboundMissingContentType(headers: seq<string>, body: seq<byte>, codec: Codec, i: nat)
    requires IsFirstWithPrefix(headers, OriginalCharsetPrefix, i)
    requires codec.supported(headers[i][|OriginalCharsetPrefix|..])
    requires forall j :: 0 <= j < |headers| ==> !StartsWith(headers[j], ContentTypePrefix)
    ensures Outbound(headers, body, codec) == Failed(MissingContentType)
  {
  }

  /**
   * A successful outbound rewrite removes the first `X-Original-Charset: `
   * line and the first `Content-Type: ` line, which are different lines,
   * keeps every other line in order, and appends the `Content-Type: ` line
   * with every `utf-8` replaced by the recorded charset.
   */
  lemma OutboundRewrite(headers: seq<string>, body: seq<byte>, codec: Codec, i: nat, k: nat)
    requires IsFirstWithPrefix(headers, OriginalCharsetPrefix, i)
    requires IsFirstWithPrefix(headers, ContentTypePrefix, k)
    requires codec.supported(headers[i][|OriginalCharsetPrefix|..])
    ensures i != k
    ensures var charset := headers[i][|OriginalCharsetPrefix|..];
      var lo, hi := if i < k then i else k, if i < k then k else i;
      Outbound(headers, body, codec) == Rebuilt(Message(
        headers[..lo] + headers[lo + 1..hi] + headers[hi + 1..] + [ReplaceAll(headers[k], CanonicalCharset, charset)],
        codec.encode(codec.decodeUtf8(body), charset)))
    ensures |Outbound(headers, body, codec).message.headers| == |headers| - 1
  {
    FirstMatchIsFirst(headers, OriginalCharsetPrefix, i);
    FirstMatchIsFirst(headers, ContentTypePrefix, k);
    RemovesBothLocatedHeaders(headers, i, k);
  }

  /**
   * The two `remove` calls of outbound delete the located `X-Original-Charset: `
   * line and the located `Content-Type: ` line, and nothing else.
   */
  lemma RemovesBothLocatedHeaders(headers: seq<string>, i: nat, k: nat)
    requires IsFirstWithPrefix(headers, OriginalCharsetPrefix, i)
    requires IsFirstWithPrefix(headers, ContentTypePrefix, k)
    ensures i != k
    ensures var lo, hi := if i < k then i else k, if i < k then k else i;
      RemoveFirst(RemoveFirst(headers, headers[i]), headers[k]) == headers[..lo] + headers[lo + 1..hi] + headers[hi + 1..]
  {
    PrefixesExclusive(headers[i]);
    FirstMatchIsFirst(headers, OriginalCharsetPrefix, i);
    RemovesLocatedHeader(headers, OriginalCharsetPrefix, i);
    var once := headers[..i] + headers[i + 1..];
    var k' := if k < i then k else k - 1;
    FirstAfterRemoval(headers, ContentTypePrefix, i, k);
    FirstMatchIsFirst(once, ContentTypePrefix, k');
    RemovesLocatedHeader(once, ContentTypePrefix, k');
    RemoveTwoIndices(headers, i, k);
  }

  /** Deleting a line that lacks the prefix shifts the first match down by one when it came after the deleted line. */
  lemma FirstAfterRemoval(headers: seq<string>, prefix: string, i: nat, k: nat)
    requires i < |headers| && !StartsWith(headers[i], prefix)
    requires IsFirstWithPrefix(headers, prefix, k)
    ensures k != i
    ensures IsFirstWithPrefix(headers[..i] + headers[i + 1..], prefix, if k < i then k else k - 1)
  {
    var once := headers[..i] + headers[i + 1..];
    var k' := if k < i then k else k - 1;
    assert once[k'] == headers[k];
    forall j | 0 <= j < k' ensures !StartsWith(once[j], prefix) {
      if j < i {
        assert once[j] == headers[j];
      } else {
        assert once[j] == headers[j + 1];
      }
    }
  }

  /** Deleting index `i` and then the element that was at index `k` deletes both and keeps the rest in order. */
  lemma RemoveTwoIndices<T>(s: seq<T>, i: nat, k: nat)
    requires i < |s| && k < |s| && i != k
    ensures var once := s[..i] + s[i + 1..];
      var k' := if k < i then k else k - 1;
      var lo, hi := if i < k then i else k, if i < k then k else i;
      once[..k'] + once[k' + 1..] == s[..lo] + s[lo + 1..hi] + s[hi + 1..]
  {
    var once := s[..i] + s[i + 1..];
    if k < i {
      assert once[..k] == s[..k];
      assert once[k + 1..] == s[k + 1..i] + s[i + 1..];
    } else {
      assert once[..k - 1] == s[..i] + s[i + 1..k];
      assert once[k..] == s[k + 1..];
    }
  }
}
