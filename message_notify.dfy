/** Notify messages: a typed wrapper around an SSDP message of kind Notify. */
module Notify {
  import opened Wrappers
  import opened Octets
  import opened Errors
  import opened Headers
  import opened Message
  import opened Typed
  import opened Ssdp

  const NOT_A_NOTIFY_MESSAGE: Bytes := RECEIVED_IS_NOT + "A NotifyMessage"

  /** `NotifyMessage`: an SSDP message of kind Notify. */
  class NotifyMessage {
    const message: SsdpMessage

    ghost predicate Valid()
      reads this, message, message.headers
    {
      message.Valid()
    }

    /** `NotifyMessage::new`: kind Notify, no headers. */
    constructor ()
      ensures fresh(message) && fresh(message.headers)
      ensures message.kind == Notify && message.headers.entries == [] && Valid()
    {
      message := new SsdpMessage(Notify);
    }

    /** The `NotifyMessage { message }` literal of `from_packet`. */
    constructor Wrap(m: SsdpMessage)
      ensures message == m
    {
      message := m;
    }

    /** `HeaderMut::set`: delegated to the wrapped message; its kind stays. */
    method Set(h: TypedHeader)
      requires Valid() && Encodable(h)
      modifies message.headers
      ensures message.headers.entries == WithValues(old(message.headers.entries), Name(h), Values(h)) && Valid()
    {
      message.Set(h);
    }
  }

  /** `NotifyMessage::from_packet` as a value: a decoded message of kind Notify. */
  function NotifyResult(parseRequest: (Bytes, nat) -> Status<RequestHead>,
                        parseResponse: (Bytes, nat) -> Status<ResponseHead>,
                        bytes: Bytes): Result<Decoded, Error>
  {
    KindChecked(FromPacketResult(parseRequest, parseResponse, bytes), Notify, NOT_A_NOTIFY_MESSAGE)
  }

  /** `NotifyMessage::from_packet`. */
  method NotifyFromPacket(parseRequest: (Bytes, nat) -> Status<RequestHead>,
                          parseResponse: (Bytes, nat) -> Status<ResponseHead>,
                          bytes: Bytes) returns (r: Result<NotifyMessage, Error>)
    ensures r.Ok? <==> NotifyResult(parseRequest, parseResponse, bytes).Ok?
    ensures r.Err? ==> r.error == NotifyResult(parseRequest, parseResponse, bytes).error
    ensures r.Ok? ==> fresh(r.value) && fresh(r.value.message) && r.value.Valid()
                      && r.value.message.View() == NotifyResult(parseRequest, parseResponse, bytes).value
  {
    var decoded := FromPacket(parseRequest, parseResponse, bytes);
    if decoded.Err? {
      return Err(decoded.error);
    }
    var message := decoded.value;
    var kind := message.MessageTypeOf();
    if kind != Notify {
      return Err(InvalidMethod(NOT_A_NOTIFY_MESSAGE));
    }
    var notify := new NotifyMessage.Wrap(message);
    return Ok(notify);
  }

  /**
   * A NOTIFY with a Host header is a notify message; an M-SEARCH with one,
   * and a bare `HTTP/1.1 200 OK` response, are refused by kind.
   */
  lemma NotifyKinds()
    ensures KindChecked(RequestOutcome(RequestHead(NOTIFY_METHOD, ASTERISK_PATH, Some(1), [RawHeader("HOST", "192.168.1.1")])),
                        Notify, NOT_A_NOTIFY_MESSAGE).Ok?
    ensures KindChecked(RequestOutcome(RequestHead(SEARCH_METHOD, ASTERISK_PATH, Some(1), [RawHeader("HOST", "192.168.1.1")])),
                        Notify, NOT_A_NOTIFY_MESSAGE) == Err(InvalidMethod(NOT_A_NOTIFY_MESSAGE))
    ensures KindChecked(ResponseOutcome(ResponseHead(200, Some(1), [])), Notify, NOT_A_NOTIFY_MESSAGE)
            == Err(InvalidMethod(NOT_A_NOTIFY_MESSAGE))
  {
    RequestAccepted();
  }
}
