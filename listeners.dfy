/**
 * The two listener callbacks. The proxy listener rewrites a request inbound
 * and a response outbound; the HTTP listener, which sees the tools' own
 * traffic, does the opposite. A message is replaced only when the rewrite
 * rebuilds it, and any exception is caught, logged and leaves it as it was.
 */
module Listeners {
  import opened Wrappers
  import opened Codecs
  import opened Converter

  /** Where a message is intercepted: `processProxyMessage` or `processHttpMessage`. */
  datatype Listener = ProxyListener | HttpListener

  /** Which rewrite a listener applies. */
  datatype Direction = ToUtf8 | ToOriginal

  /**
   * The routing table: the inbound rewrite runs on a proxy request and an
   * HTTP-listener response, the outbound one on the other two.
   */
  function Route(listener: Listener, isRequest: bool): (d: Direction)
    ensures d == ToUtf8 <==> (listener == ProxyListener <==> isRequest)
  {
    match listener
    case ProxyListener => if isRequest then ToUtf8 else ToOriginal
    case HttpListener => if isRequest then ToOriginal else ToUtf8
  }

  /** The rewrite a direction stands for, applied to a parsed message. */
  function Apply(d: Direction, m: Message, codec: Codec): Outcome {
    match d
    case ToUtf8 => Inbound(m.headers, m.body, codec)
    case ToOriginal => Outbound(m.headers, m.body, codec)
  }

  /** The message after the callback: the rebuilt one when there is one, else the original. */
  function Settle(original: Message, o: Outcome): Message {
    if o.Rebuilt? then o.message else original
  }

  /** What the catch block hands to `printError`: the exception, if one was raised. */
  function Caught(o: Outcome): Option<Error> {
    if o.Failed? then Some(o.error) else None
  }

  /**
   * Each listener applies a different rewrite to requests and to responses,
   * and the two listeners apply different rewrites to the same kind of
   * message, so a message that passes both is rewritten once each way.
   */
  lemma RoutesAreComplementary(listener: Listener, isRequest: bool)
    ensures Route(listener, isRequest) != Route(listener, !isRequest)
    ensures Route(ProxyListener, isRequest) != Route(HttpListener, isRequest)
  {
  }

  /** The request and response slots of an intercepted exchange. */
  class HttpRequestResponse {
    var request: Message
    var response: Message

    constructor (request: Message, response: Message)
      ensures this.request == request && this.response == response
    {
      this.request := request;
      this.response := response;
    }
  }

  /**
   * Parses a message, runs the rewrite for `d` on it and returns the outcome.
   * The parsed header list is a fresh object that the rewrite may mutate.
   */
  method RewriteParsed(d: Direction, raw: Message, codec: Codec) returns (r: Outcome)
    ensures r == Apply(d, raw, codec)
  {
    var message := new MessageInfo(raw.headers, raw.body);
    match d
    case ToUtf8 =>
      r := ProcessInbound(message, codec);
    case ToOriginal =>
      r := ProcessOutbound(message, codec);
  }

  /**
   * One callback of `listener` on an exchange: only the request or only the
   * response slot is touched, it is replaced by the rebuilt message when the
   * rewrite produced one, and a raised error is reported instead.
   */
  method Intercept(listener: Listener, isRequest: bool, messageInfo: HttpRequestResponse, codec: Codec) returns (logged: Option<Error>)
    modifies messageInfo
    ensures var d := Route(listener, isRequest);
      if isRequest then
        var o := Apply(d, old(messageInfo.request), codec);
        messageInfo.request == Settle(old(messageInfo.request), o) && messageInfo.response == old(messageInfo.response) && logged == Caught(o)
      else
        var o := Apply(d, old(messageInfo.response), codec);
        messageInfo.response == Settle(old(messageInfo.response), o) && messageInfo.request == old(messageInfo.request) && logged == Caught(o)
  {
    var d := Route(listener, isRequest);
    if isRequest {
      var rc := RewriteParsed(d, messageInfo.request, codec);
      if rc.Rebuilt? {
        messageInfo.request := rc.message;
      }
      logged := Caught(rc);
    } else {
      var rc := RewriteParsed(d, messageInfo.response, codec);
      if rc.Rebuilt? {
        messageInfo.response := rc.message;
      }
      logged := Caught(rc);
    }
  }

  /** `processProxyMessage`: requests inbound, responses outbound. */
  method ProcessProxyMessage(isRequest: bool, messageInfo: HttpRequestResponse, codec: Codec) returns (logged: Option<Error>)
    modifies messageInfo
    ensures if isRequest then
        var o := Inbound(old(messageInfo.request).headers, old(messageInfo.request).body, codec);
        messageInfo.request == Settle(old(messageInfo.request), o) && messageInfo.response == old(messageInfo.response) && logged == Caught(o)
      else
        var o := Outbound(old(messageInfo.response).headers, old(messageInfo.response).body, codec);
        messageInfo.response == Settle(old(messageInfo.response), o) && messageInfo.request == old(messageInfo.request) && logged == Caught(o)
  {
    logged := Intercept(ProxyListener, isRequest, messageInfo, codec);
  }

  /** `processHttpMessage`: requests outbound, responses inbound; the tool flag plays no part. */
  method ProcessHttpMessage(toolFlag: int, isRequest: bool, messageInfo: HttpRequestResponse, codec: Codec) returns (logged: Option<Error>)
    modifies messageInfo
    ensures if isRequest then
        var o := Outbound(old(messageInfo.request).headers, old(messageInfo.request).body, codec);
        messageInfo.request == Settle(old(messageInfo.request), o) && messageInfo.response == old(messageInfo.response) && logged == Caught(o)
      else
        var o := Inbound(old(messageInfo.response).headers, old(messageInfo.response).body, codec);
        messageInfo.response == Settle(old(messageInfo.response), o) && messageInfo.request == old(messageInfo.request) && logged == Caught(o)
  {
    logged := Intercept(HttpListener, isRequest, messageInfo, codec);
  }
}
