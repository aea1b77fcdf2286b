/**
 * Search requests and responses: typed wrappers around an SSDP message of
 * kind Search or Response, the timeouts a search waits for answers, and the
 * outcome of sending one on every local connector.
 */
module Search {
  import opened Wrappers
  import opened Octets
  import opened Errors
  import opened Headers
  import opened Message
  import opened Typed
  import opened Ssdp
  import Mx

  /** Seconds added to a device's response time for the trip through the network. */
  const NETWORK_TIMEOUT_OVERHEAD: nat := 1

  /** Devices answer a unicast search within one second; plus the overhead. */
  const DEFAULT_UNICAST_TIMEOUT: nat := 1 + NETWORK_TIMEOUT_OVERHEAD

  const MX_REQUIRED: Bytes := "Multicast Searches Require An MX Header"
  const NOT_A_SEARCH_REQUEST: Bytes := RECEIVED_IS_NOT + "A SearchRequest"
  const NOT_A_SEARCH_RESPONSE: Bytes := RECEIVED_IS_NOT + "A SearchResponse"

  /** `typed_get::<MX>()`: the MX header decoded from the map's values, if it decodes. */
  function TypedGetMx(entries: seq<Entry>): Option<Mx.Mx> {
    Mx.Decode(GetAll(entries, Mx.NAME))
  }

  /** The u8 addition of the overhead does not overflow. */
  predicate NoOverflow(mx: Option<Mx.Mx>) {
    mx.Some? ==> mx.value.wait + NETWORK_TIMEOUT_OVERHEAD <= U8_MAX
  }

  /** `multicast_timeout`, in seconds: the MX wait plus the overhead; a multicast search needs an MX header. */
  function MulticastTimeout(mx: Option<Mx.Mx>): (r: Result<nat, Error>)
    requires NoOverflow(mx)
    ensures r.Err? <==> mx.None?
    ensures r.Err? ==> r.error == MissingHeader(MX_REQUIRED)
    ensures r.Ok? ==> r.value == mx.value.wait + 1
  {
    match mx
    case Some(Mx(n)) => Ok(n + NETWORK_TIMEOUT_OVERHEAD)
    case None => Err(MissingHeader(MX_REQUIRED))
  }

  /** `opt_unicast_timeout`, in seconds: never absent; the MX wait plus the overhead, or two seconds. */
  function OptUnicastTimeout(mx: Option<Mx.Mx>): (r: Option<nat>)
    requires NoOverflow(mx)
    ensures r.Some?
    ensures mx.Some? ==> r.value == mx.value.wait + 1
    ensures mx.None? ==> r.value == 2
  {
    match mx
    case Some(Mx(n)) => Some(n + NETWORK_TIMEOUT_OVERHEAD)
    case None => Some(DEFAULT_UNICAST_TIMEOUT)
  }

  /**
   * An MX header read from a map never overflows, and both timeouts then
   * agree: 2 to 121 seconds.
   */
  lemma TimeoutsOfMap(entries: seq<Entry>)
    ensures NoOverflow(TypedGetMx(entries))
    ensures TypedGetMx(entries).Some? ==>
            && MulticastTimeout(TypedGetMx(entries)) == Ok(OptUnicastTimeout(TypedGetMx(entries)).value)
            && 2 <= OptUnicastTimeout(TypedGetMx(entries)).value <= 121
  {
  }

  /** The first failed send, if any: its position and its error. */
  function FirstError(sends: seq<Result<(), Error>>): (r: Option<(nat, Error)>)
    ensures r.Some? ==> r.value.0 < |sends| && sends[r.value.0] == Err(r.value.1)
                        && forall j :: 0 <= j < r.value.0 ==> sends[j].Ok?
    ensures r.None? <==> forall j :: 0 <= j < |sends| ==> sends[j].Ok?
  {
    if sends == [] then None
    else if sends[0].Err? then Some((0, sends[0].error))
    else match FirstError(sends[1..])
      case None => None
      case Some((i, e)) => Some((i + 1, e))
  }

  /** A failed send after only successful ones is the first error. */
  lemma {:induction false} FirstErrorAt(sends: seq<Result<(), Error>>, i: nat)
    requires i < |sends| && sends[i].Err? && forall j :: 0 <= j < i ==> sends[j].Ok?
    ensures FirstError(sends) == Some((i, sends[i].error))
  {
    if i > 0 {
      FirstErrorAt(sends[1..], i - 1);
    }
  }

  /** The number of sends that succeeded. */
  function CountOk(sends: seq<Result<(), Error>>): nat
    decreases |sends|
  {
    if sends == [] then 0
    else CountOk(sends[..|sends| - 1]) + if sends[|sends| - 1].Ok? then 1 else 0
  }

  /** No send succeeded exactly when every send failed. */
  lemma {:induction false} CountOkZero(sends: seq<Result<(), Error>>)
    ensures CountOk(sends) <= |sends|
    ensures CountOk(sends) == 0 <==> forall j :: 0 <= j < |sends| ==> sends[j].Err?
  {
    if sends != [] {
      var init := sends[..|sends| - 1];
      CountOkZero(init);
      assert forall j :: 0 <= j < |init| ==> init[j] == sends[j];
    }
  }

  /** `SearchRequest`: an SSDP message of kind Search. */
  class SearchRequest {
    const message: SsdpMessage

    ghost predicate Valid()
      reads this, message, message.headers
    {
      message.Valid()
    }

    /** `SearchRequest::new`: kind Search, no headers. */
    constructor ()
      ensures fresh(message) && fresh(message.headers)
      ensures message.kind == Search && message.headers.entries == [] && Valid()
    {
      message := new SsdpMessage(Search);
    }

    /** The `SearchRequest { message }` literal of `from_packet`. */
    constructor Wrap(m: SsdpMessage)
      ensures message == m
    {
      message := m;
    }

    /** `HeaderMut::set`: delegated to the wrapped message. */
    method Set(h: TypedHeader)
      requires Valid() && Encodable(h)
      modifies message.headers
      ensures message.headers.entries == WithValues(old(message.headers.entries), Name(h), Values(h)) && Valid()
    {
      message.Set(h);
    }

    /**
     * `unicast`, given the outcome of the send on each local connector: the
     * sends stop at the first failure, which is returned; otherwise the
     * receiver waits for the unicast timeout of the message's MX header.
     * `attempted` counts the sends made.
     */
    method Unicast(sends: seq<Result<(), Error>>) returns (r: Result<Option<nat>, Error>, attempted: nat)
      requires NoOverflow(TypedGetMx(message.headers.entries))
      ensures FirstError(sends).Some? ==> r == Err(FirstError(sends).value.1) && attempted == FirstError(sends).value.0 + 1
      ensures FirstError(sends).None? ==>
              r == Ok(OptUnicastTimeout(TypedGetMx(message.headers.entries))) && attempted == |sends|
    {
      attempted := 0;
      while attempted < |sends|
        invariant attempted <= |sends|
        invariant forall j :: 0 <= j < attempted ==> sends[j].Ok?
      {
        var sent := sends[attempted];
        attempted := attempted + 1;
        if sent.Err? {
          FirstErrorAt(sends, attempted - 1);
          return Err(sent.error), attempted;
        }
      }
      r := Ok(OptUnicastTimeout(TypedGetMx(message.headers.entries)));
    }
  }

  /** `SearchRequest::from_packet` as a value: a decoded message of kind Search. */
  function SearchRequestResult(parseRequest: (Bytes, nat) -> Status<RequestHead>,
                               parseResponse: (Bytes, nat) -> Status<ResponseHead>,
                               bytes: Bytes): Result<Decoded, Error>
  {
    KindChecked(FromPacketResult(parseRequest, parseResponse, bytes), Search, NOT_A_SEARCH_REQUEST)
  }

  /** `SearchRequest::from_packet`. */
  method SearchRequestFromPacket(parseRequest: (Bytes, nat) -> Status<RequestHead>,
                                 parseResponse: (Bytes, nat) -> Status<ResponseHead>,
                                 bytes: Bytes) returns (r: Result<SearchRequest, Error>)
    ensures r.Ok? <==> SearchRequestResult(parseRequest, parseResponse, bytes).Ok?
    ensures r.Err? ==> r.error == SearchRequestResult(parseRequest, parseResponse, bytes).error
    ensures r.Ok? ==> fresh(r.value) && fresh(r.value.message) && r.value.Valid()
                      && r.value.message.View() == SearchRequestResult(parseRequest, parseResponse, bytes).value
  {
    var decoded := FromPacket(parseRequest, parseResponse, bytes);
    if decoded.Err? {
      return Err(decoded.error);
    }
    var message := decoded.value;
    var kind := message.MessageTypeOf();
    if kind != Search {
      return Err(InvalidMethod(NOT_A_SEARCH_REQUEST));
    }
    var request := new SearchRequest.Wrap(message);
    return Ok(request);
  }

  /** `SearchResponse`: an SSDP message of kind Response. */
  class SearchResponse {
    const message: SsdpMessage

    ghost predicate Valid()
      reads this, message, message.headers
    {
      message.Valid()
    }

    /** `SearchResponse::new`: kind Response, no headers. */
    constructor ()
      ensures fresh(message) && fresh(message.headers)
      ensures message.kind == Response && message.headers.entries == [] && Valid()
    {
      message := new SsdpMessage(Response);
    }

    /** The `SearchResponse { message }` literal of `from_packet`. */
    constructor Wrap(m: SsdpMessage)
      ensures message == m
    {
      message := m;
    }

    /** `HeaderMut::set`: delegated to the wrapped message. */
    method Set(h: TypedHeader)
      requires Valid() && Encodable(h)
      modifies message.headers
      ensures message.headers.entries == WithValues(old(message.headers.entries), Name(h), Values(h)) && Valid()
    {
      message.Set(h);
    }

    /**
     * `unicast`, given the outcome of the send on each local connector:
     * every send is made, and the call fails only when none succeeded and
     * at least one failed; with no connectors at all it succeeds.
     */
    method Unicast(sends: seq<Result<(), Error>>) returns (r: Result<(), Error>)
      ensures r.Err? <==> |sends| > 0 && forall j :: 0 <= j < |sends| ==> sends[j].Err?
      ensures r.Err? ==> r.error == Io
    {
      var successCount := 0;
      var errorCount := 0;
      var i := 0;
      while i < |sends|
        invariant 0 <= i <= |sends|
        invariant successCount == CountOk(sends[..i]) && successCount + errorCount == i
      {
        assert sends[..i + 1][..i] == sends[..i];
        match sends[i] {
          case Ok(_) => successCount := successCount + 1;
          case Err(_) => errorCount := errorCount + 1;
        }
        i := i + 1;
      }
      assert sends[..i] == sends;
      CountOkZero(sends);
      if successCount == 0 && errorCount > 0 {
        return Err(Io);
      }
      return Ok(());
    }
  }

  /** `SearchResponse::from_packet` as a value: a decoded message of kind Response. */
  function SearchResponseResult(parseRequest: (Bytes, nat) -> Status<RequestHead>,
                                parseResponse: (Bytes, nat) -> Status<ResponseHead>,
                                bytes: Bytes): Result<Decoded, Error>
  {
    KindChecked(FromPacketResult(parseRequest, parseResponse, bytes), Response, NOT_A_SEARCH_RESPONSE)
  }

  /** `SearchResponse::from_packet`. */
  method SearchResponseFromPacket(parseRequest: (Bytes, nat) -> Status<RequestHead>,
                                  parseResponse: (Bytes, nat) -> Status<ResponseHead>,
                                  bytes: Bytes) returns (r: Result<SearchResponse, Error>)
    ensures r.Ok? <==> SearchResponseResult(parseRequest, parseResponse, bytes).Ok?
    ensures r.Err? ==> r.error == SearchResponseResult(parseRequest, parseResponse, bytes).error
    ensures r.Ok? ==> fresh(r.value) && fresh(r.value.message) && r.value.Valid()
                      && r.value.message.View() == SearchResponseResult(parseRequest, parseResponse, bytes).value
  {
    var decoded := FromPacket(parseRequest, parseResponse, bytes);
    if decoded.Err? {
      return Err(decoded.error);
    }
    var message := decoded.value;
    var kind := message.MessageTypeOf();
    if kind != Response {
      return Err(InvalidMethod(NOT_A_SEARCH_RESPONSE));
    }
    var response := new SearchResponse.Wrap(message);
    return Ok(response);
  }

  /** Only packets on the response path can become search responses; requests are refused by kind. */
  lemma SearchResponseIsResponse(parseRequest: (Bytes, nat) -> Status<RequestHead>,
                                 parseResponse: (Bytes, nat) -> Status<ResponseHead>,
                                 bytes: Bytes)
    ensures SearchResponseResult(parseRequest, parseResponse, bytes).Ok? ==> StartsWith(bytes, RESPONSE_PREFIX)
    ensures SearchRequestResult(parseRequest, parseResponse, bytes).Ok? ==> !StartsWith(bytes, RESPONSE_PREFIX)
  {
  }
}
