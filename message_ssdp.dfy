/**
 * `SSDPMessage`: an SSDP message kind and its header map, and the decoding
 * of a received packet into one. The HTTP/1 parser is a parameter: it is
 * given the packet and a header capacity and reports where the header
 * block ends, together with the parsed request or response head.
 */
module Ssdp {
  import opened Wrappers
  import opened Octets
  import opened Errors
  import opened Headers
  import opened Message
  import opened Typed

  /** The only status a search response may carry. */
  const VALID_RESPONSE_CODE: u16 := 200

  /** The method names, compared case-sensitively. */
  const NOTIFY_METHOD: Bytes := "NOTIFY"
  const SEARCH_METHOD: Bytes := "M-SEARCH"

  /** A packet starting with these bytes is parsed as a response, any other as a request. */
  const RESPONSE_PREFIX: Bytes := "HTTP/1"

  /** The one request target SSDP allows. */
  const ASTERISK_PATH: Bytes := "*"

  const HOST_NAME: Bytes := "host"

  /** The start of the typed wrappers' refusal texts. */
  const RECEIVED_IS_NOT: Bytes := "SSDP Message Received Is Not "

  /** The header capacity of the first parse, and of the retry after too many headers. */
  const INITIAL_HEADER_CAPACITY: nat := 32
  const FALLBACK_HEADER_CAPACITY: nat := 4096

  /** A header as the parser hands it over: the name and value bytes, unchecked. */
  datatype RawHeader = RawHeader(name: Bytes, value: Bytes)

  /** A parsed request line and its headers; `version` is the minor HTTP/1 version. */
  datatype RequestHead = RequestHead(verb: Bytes, path: Bytes, version: Option<u8>, headers: seq<RawHeader>)

  /** A parsed status line and its headers. */
  datatype ResponseHead = ResponseHead(code: u16, version: Option<u8>, headers: seq<RawHeader>)

  /** What one parser run reports. */
  datatype Status<H> =
    | Complete(consumed: nat, head: H)
    | Partial
    | TooManyHeaders
    | Invalid

  /** A decoded message as a value: its kind and its header entries. */
  datatype Decoded = Decoded(kind: MessageType, headers: seq<Entry>)

  // ---- Parsing with the header-capacity retry ----

  /** `is_complete`: a parse that needs more input fails with PartialHttp. */
  function IsComplete<H>(s: Status<H>): (r: Result<(nat, H), Error>)
    requires !s.TooManyHeaders? && !s.Invalid?
    ensures r.Ok? <==> s.Complete?
    ensures r.Ok? ==> r.value == (s.consumed, s.head)
    ensures r.Err? ==> r.error == PartialHttp
  {
    match s
    case Complete(n, h) => Ok((n, h))
    case Partial => Err(PartialHttp)
  }

  /**
   * The parse of `from_packet`: with room for 32 headers, and once more with
   * room for 4096 when that is too few. Parser errors become InvalidHttp.
   */
  function ParseHead<H>(parse: (Bytes, nat) -> Status<H>, bytes: Bytes): (r: Result<(nat, H), Error>)
    ensures r.Ok? <==> (|| parse(bytes, INITIAL_HEADER_CAPACITY).Complete?
                        || (parse(bytes, INITIAL_HEADER_CAPACITY).TooManyHeaders?
                            && parse(bytes, FALLBACK_HEADER_CAPACITY).Complete?))
    ensures r.Err? ==> r.error in {PartialHttp, InvalidHttp}
    ensures parse(bytes, INITIAL_HEADER_CAPACITY).Complete? ==>
            r == Ok((parse(bytes, INITIAL_HEADER_CAPACITY).consumed, parse(bytes, INITIAL_HEADER_CAPACITY).head))
    ensures parse(bytes, INITIAL_HEADER_CAPACITY).Partial? ==> r == Err(PartialHttp)
    ensures parse(bytes, INITIAL_HEADER_CAPACITY).Invalid? ==> r == Err(InvalidHttp)
    ensures parse(bytes, INITIAL_HEADER_CAPACITY).TooManyHeaders? ==>
            match parse(bytes, FALLBACK_HEADER_CAPACITY)
            case Complete(n, h) => r == Ok((n, h))
            case Partial => r == Err(PartialHttp)
            case Invalid => r == Err(InvalidHttp)
            case TooManyHeaders => r == Err(InvalidHttp)
  {
    match parse(bytes, INITIAL_HEADER_CAPACITY)
    case Complete(n, h) => Ok((n, h))
    case Partial => Err(PartialHttp)
    case Invalid => Err(InvalidHttp)
    case TooManyHeaders =>
      match parse(bytes, FALLBACK_HEADER_CAPACITY)
      case TooManyHeaders => Err(InvalidHttp)
      case Invalid => Err(InvalidHttp)
      case s => IsComplete(s)
  }

  // ---- Validation ----

  /** `validate_http_version`: HTTP/1.1 only. */
  function ValidateHttpVersion(minor: Option<u8>): (r: Result<(), Error>)
    ensures r.Ok? <==> minor == Some(1)
    ensures r.Err? ==> r.error == InvalidHttpVersion
  {
    if minor != Some(1) then Err(InvalidHttpVersion) else Ok(())
  }

  /** `validate_response_code`: status 200 only; any other is reported. */
  function ValidateResponseCode(code: u16): (r: Result<(), Error>)
    ensures r.Ok? <==> code == VALID_RESPONSE_CODE
    ensures r.Err? ==> r.error == ResponseCode(code)
  {
    if code != VALID_RESPONSE_CODE then Err(ResponseCode(code)) else Ok(())
  }

  predicate ValidRawHeader(h: RawHeader) {
    ValidHeaderName(h.name) && ValidHeaderValue(h.value)
  }

  /**
   * The map `validate_http_headers` builds, header by header: each name is
   * lower-cased and inserted with its value, and the first unacceptable
   * header is reported by its name as received.
   */
  function CollectHeaders(hs: seq<RawHeader>): Result<seq<Entry>, Error>
    decreases |hs|
  {
    if hs == [] then Ok([])
    else
      var last := hs[|hs| - 1];
      match CollectHeaders(hs[..|hs| - 1])
      case Err(e) => Err(e)
      case Ok(m) =>
        if !ValidRawHeader(last) then Err(InvalidHeader(last.name))
        else Ok(Inserted(m, Lower(last.name), last.value))
  }

  /** The value of the last header whose lower-cased name is key. */
  function LastValue(hs: seq<RawHeader>, key: Bytes): Option<Bytes>
    decreases |hs|
  {
    if hs == [] then None
    else if Lower(hs[|hs| - 1].name) == key then Some(hs[|hs| - 1].value)
    else LastValue(hs[..|hs| - 1], key)
  }

  /** A token lower-cased is a name the map stores. */
  lemma LowerStored(name: Bytes)
    requires ValidHeaderName(name)
    ensures StoredName(Lower(name))
  {
    var l := Lower(name);
    forall i | 0 <= i < |l|
      ensures IsTokenChar(l[i]) && LowerByte(l[i]) == l[i]
    {
      assert l[i] == LowerByte(name[i]);
    }
    assert Lower(l) == l;
  }

  /** Collecting fails exactly when some header's name or value is unacceptable. */
  lemma {:induction false} CollectOk(hs: seq<RawHeader>)
    ensures CollectHeaders(hs).Ok? <==> forall i :: 0 <= i < |hs| ==> ValidRawHeader(hs[i])
  {
    if hs != [] {
      var init := hs[..|hs| - 1];
      CollectOk(init);
      assert forall i :: 0 <= i < |init| ==> init[i] == hs[i];
    }
  }

  /** A failed collection names the first unacceptable header. */
  lemma {:induction false} CollectFirstInvalid(hs: seq<RawHeader>)
    requires CollectHeaders(hs).Err?
    ensures exists i :: 0 <= i < |hs| && !ValidRawHeader(hs[i]) && CollectHeaders(hs).error == InvalidHeader(hs[i].name)
                        && forall j :: 0 <= j < i ==> ValidRawHeader(hs[j])
  {
    var init := hs[..|hs| - 1];
    assert forall i :: 0 <= i < |init| ==> init[i] == hs[i];
    if CollectHeaders(init).Err? {
      CollectFirstInvalid(init);
      var i :| 0 <= i < |init| && !ValidRawHeader(init[i]) && CollectHeaders(init).error == InvalidHeader(init[i].name)
               && forall j :: 0 <= j < i ==> ValidRawHeader(init[j]);
      assert hs[i] == init[i];
    } else {
      CollectOk(init);
      assert forall j :: 0 <= j < |hs| - 1 ==> ValidRawHeader(hs[j]);
    }
  }

  /** A collected map is well formed. */
  lemma {:induction false} CollectWellFormed(hs: seq<RawHeader>)
    requires CollectHeaders(hs).Ok?
    ensures WellFormedMap(CollectHeaders(hs).value)
  {
    if hs != [] {
      var last := hs[|hs| - 1];
      CollectWellFormed(hs[..|hs| - 1]);
      LowerStored(last.name);
      InsertedWellFormed(CollectHeaders(hs[..|hs| - 1]).value, Lower(last.name), last.value);
    }
  }

  /** In a collected map each name holds one value: that of its last header, so a later duplicate wins. */
  lemma {:induction false} CollectLastWins(hs: seq<RawHeader>, key: Bytes)
    requires CollectHeaders(hs).Ok?
    ensures GetAll(CollectHeaders(hs).value, key) == match LastValue(hs, key) case None => [] case Some(v) => [v]
  {
    if hs != [] {
      var last := hs[|hs| - 1];
      var init := hs[..|hs| - 1];
      var m := CollectHeaders(init).value;
      CollectLastWins(init, key);
      CollectWellFormed(init);
      assert Inserted(m, Lower(last.name), last.value) == TypedInserted(m, Lower(last.name), [last.value]);
      TypedInsertedGetAll(m, Lower(last.name), [last.value], key);
    }
  }

  /** Once a prefix of the headers fails, the whole collection fails the same way. */
  lemma {:induction false} CollectErrorStays(hs: seq<RawHeader>, i: nat)
    requires i <= |hs| && CollectHeaders(hs[..i]).Err?
    ensures CollectHeaders(hs) == CollectHeaders(hs[..i])
    decreases |hs| - i
  {
    if i < |hs| {
      assert hs[..i + 1][..i] == hs[..i];
      CollectErrorStays(hs, i + 1);
    } else {
      assert hs[..i] == hs;
    }
  }

  /**
   * `validate_http_headers`: a new map filled by `insert` header by header,
   * stopping at the first header whose name or value is unacceptable.
   */
  method ValidateHttpHeaders(hs: seq<RawHeader>) returns (r: Result<HeaderMap, Error>)
    ensures r.Ok? <==> CollectHeaders(hs).Ok?
    ensures r.Err? ==> r.error == CollectHeaders(hs).error
    ensures r.Ok? ==> fresh(r.value) && r.value.Valid() && r.value.entries == CollectHeaders(hs).value
  {
    var headerMap := new HeaderMap();
    var i := 0;
    while i < |hs|
      invariant 0 <= i <= |hs| && fresh(headerMap) && headerMap.Valid()
      invariant CollectHeaders(hs[..i]) == Ok(headerMap.entries)
    {
      var hdr := hs[i];
      assert hs[..i + 1][..i] == hs[..i] && hs[..i + 1][i] == hdr;
      if !ValidHeaderName(hdr.name) || !ValidHeaderValue(hdr.value) {
        CollectErrorStays(hs, i + 1);
        return Err(InvalidHeader(hdr.name));
      }
      LowerStored(hdr.name);
      headerMap.Insert(Lower(hdr.name), hdr.value);
      i := i + 1;
    }
    assert hs[..i] == hs;
    return Ok(headerMap);
  }

  // ---- The decision logic ----

  /**
   * `message_from_request`: version, then headers, then the Host header,
   * then the path, then the method.
   */
  function RequestOutcome(head: RequestHead): (r: Result<Decoded, Error>)
    ensures head.version != Some(1) ==> r == Err(InvalidHttpVersion)
    ensures r.Ok? <==> && head.version == Some(1) && CollectHeaders(head.headers).Ok?
                       && Get(CollectHeaders(head.headers).value, HOST_NAME).Some?
                       && head.path == ASTERISK_PATH && head.verb in {NOTIFY_METHOD, SEARCH_METHOD}
    ensures head.version == Some(1) && CollectHeaders(head.headers).Err? ==>
            r == Err(CollectHeaders(head.headers).error)
    ensures head.version == Some(1) && CollectHeaders(head.headers).Ok?
            && Get(CollectHeaders(head.headers).value, HOST_NAME).None? ==>
            r == Err(MissingHeader(HOST_NAME))
    ensures head.version == Some(1) && CollectHeaders(head.headers).Ok?
            && Get(CollectHeaders(head.headers).value, HOST_NAME).Some? && head.path != ASTERISK_PATH ==>
            r == Err(InvalidUri(head.path))
    ensures head.version == Some(1) && CollectHeaders(head.headers).Ok?
            && Get(CollectHeaders(head.headers).value, HOST_NAME).Some? && head.path == ASTERISK_PATH
            && head.verb !in {NOTIFY_METHOD, SEARCH_METHOD} ==>
            r == Err(InvalidMethod(head.verb))
    ensures r.Ok? ==> r.value.headers == CollectHeaders(head.headers).value
    ensures r.Ok? ==> (r.value.kind == Notify <==> head.verb == NOTIFY_METHOD) && r.value.kind != Response
  {
    match ValidateHttpVersion(head.version)
    case Err(e) => Err(e)
    case Ok(_) =>
      match CollectHeaders(head.headers)
      case Err(e) => Err(e)
      case Ok(m) =>
        if Get(m, HOST_NAME).None? then Err(MissingHeader(HOST_NAME))
        else if head.path != ASTERISK_PATH then Err(InvalidUri(head.path))
        else if head.verb == NOTIFY_METHOD then Ok(Decoded(Notify, m))
        else if head.verb == SEARCH_METHOD then Ok(Decoded(Search, m))
        else Err(InvalidMethod(head.verb))
  }

  /** `message_from_response`: version, then status code, then headers; a success is always a Response. */
  function ResponseOutcome(head: ResponseHead): (r: Result<Decoded, Error>)
    ensures head.version != Some(1) ==> r == Err(InvalidHttpVersion)
    ensures head.version == Some(1) && head.code != VALID_RESPONSE_CODE ==> r == Err(ResponseCode(head.code))
    ensures head.version == Some(1) && head.code == VALID_RESPONSE_CODE && CollectHeaders(head.headers).Err? ==>
            r == Err(CollectHeaders(head.headers).error)
    ensures r.Ok? <==> head.version == Some(1) && head.code == VALID_RESPONSE_CODE && CollectHeaders(head.headers).Ok?
    ensures r.Ok? ==> r.value == Decoded(Response, CollectHeaders(head.headers).value)
  {
    match ValidateHttpVersion(head.version)
    case Err(e) => Err(e)
    case Ok(_) =>
      match ValidateResponseCode(head.code)
      case Err(e) => Err(e)
      case Ok(_) =>
        match CollectHeaders(head.headers)
        case Err(e) => Err(e)
        case Ok(m) => Ok(Decoded(Response, m))
  }

  /**
   * `from_packet` as a value: the response path for packets starting with
   * `HTTP/1`, the request path for all others. A header end past the
   * packet is PartialHttp; bytes after it are a body, which is refused
   * before anything else about the message is reported.
   */
  function FromPacketResult(parseRequest: (Bytes, nat) -> Status<RequestHead>,
                            parseResponse: (Bytes, nat) -> Status<ResponseHead>,
                            bytes: Bytes): Result<Decoded, Error>
  {
    if StartsWith(bytes, RESPONSE_PREFIX) then
      match ParseHead(parseResponse, bytes)
      case Err(e) => Err(e)
      case Ok((n, head)) =>
        if n > |bytes| then Err(PartialHttp)
        else if n < |bytes| then Err(InvalidBodyForMethod(SEARCH_METHOD))
        else ResponseOutcome(head)
    else
      match ParseHead(parseRequest, bytes)
      case Err(e) => Err(e)
      case Ok((n, head)) =>
        if n > |bytes| then Err(PartialHttp)
        else if n < |bytes| then Err(InvalidBodyForMethod(head.verb))
        else RequestOutcome(head)
  }

  /**
   * The path taken depends on the `HTTP/1` prefix alone; each parser sees
   * only its own path, after the header-capacity retry, and its errors pass
   * through.
   */
  lemma FromPacketPaths(parseRequest: (Bytes, nat) -> Status<RequestHead>,
                        parseResponse: (Bytes, nat) -> Status<ResponseHead>,
                        bytes: Bytes)
    ensures StartsWith(bytes, RESPONSE_PREFIX) && ParseHead(parseResponse, bytes).Ok?
            && ParseHead(parseResponse, bytes).value.0 == |bytes| ==>
            FromPacketResult(parseRequest, parseResponse, bytes) == ResponseOutcome(ParseHead(parseResponse, bytes).value.1)
    ensures StartsWith(bytes, RESPONSE_PREFIX) && ParseHead(parseResponse, bytes).Err? ==>
            FromPacketResult(parseRequest, parseResponse, bytes) == Err(ParseHead(parseResponse, bytes).error)
    ensures !StartsWith(bytes, RESPONSE_PREFIX) && ParseHead(parseRequest, bytes).Ok?
            && ParseHead(parseRequest, bytes).value.0 == |bytes| ==>
            FromPacketResult(parseRequest, parseResponse, bytes) == RequestOutcome(ParseHead(parseRequest, bytes).value.1)
    ensures !StartsWith(bytes, RESPONSE_PREFIX) && ParseHead(parseRequest, bytes).Err? ==>
            FromPacketResult(parseRequest, parseResponse, bytes) == Err(ParseHead(parseRequest, bytes).error)
  {
  }

  /**
   * The precedence of the request path: an incomplete parse, then a header
   * end past the packet, then a body, each wins over every check on the
   * head.
   */
  lemma RequestPrecedence(parseRequest: (Bytes, nat) -> Status<RequestHead>,
                          parseResponse: (Bytes, nat) -> Status<ResponseHead>,
                          bytes: Bytes)
    requires !StartsWith(bytes, RESPONSE_PREFIX)
    ensures parseRequest(bytes, INITIAL_HEADER_CAPACITY).Partial? ==>
            FromPacketResult(parseRequest, parseResponse, bytes) == Err(PartialHttp)
    ensures ParseHead(parseRequest, bytes).Ok? && ParseHead(parseRequest, bytes).value.0 > |bytes| ==>
            FromPacketResult(parseRequest, parseResponse, bytes) == Err(PartialHttp)
    ensures ParseHead(parseRequest, bytes).Ok? && ParseHead(parseRequest, bytes).value.0 < |bytes| ==>
            FromPacketResult(parseRequest, parseResponse, bytes) == Err(InvalidBodyForMethod(ParseHead(parseRequest, bytes).value.1.verb))
    ensures FromPacketResult(parseRequest, parseResponse, bytes).Ok? ==>
            && ParseHead(parseRequest, bytes).Ok? && ParseHead(parseRequest, bytes).value.0 == |bytes|
            && FromPacketResult(parseRequest, parseResponse, bytes) == RequestOutcome(ParseHead(parseRequest, bytes).value.1)
  {
  }

  /** The precedence of the response path, whose body error always names M-SEARCH. */
  lemma ResponsePrecedence(parseRequest: (Bytes, nat) -> Status<RequestHead>,
                           parseResponse: (Bytes, nat) -> Status<ResponseHead>,
                           bytes: Bytes)
    requires StartsWith(bytes, RESPONSE_PREFIX)
    ensures parseResponse(bytes, INITIAL_HEADER_CAPACITY).Partial? ==>
            FromPacketResult(parseRequest, parseResponse, bytes) == Err(PartialHttp)
    ensures ParseHead(parseResponse, bytes).Ok? && ParseHead(parseResponse, bytes).value.0 > |bytes| ==>
            FromPacketResult(parseRequest, parseResponse, bytes) == Err(PartialHttp)
    ensures ParseHead(parseResponse, bytes).Ok? && ParseHead(parseResponse, bytes).value.0 < |bytes| ==>
            FromPacketResult(parseRequest, parseResponse, bytes) == Err(InvalidBodyForMethod(SEARCH_METHOD))
    ensures FromPacketResult(parseRequest, parseResponse, bytes).Ok? ==>
            FromPacketResult(parseRequest, parseResponse, bytes).value.kind == Response
  {
  }

  /** One acceptable header collects to one entry under its lower-cased name. */
  lemma CollectOne(h: RawHeader)
    requires ValidRawHeader(h)
    ensures CollectHeaders([h]) == Ok([Entry(Lower(h.name), [h.value])])
  {
    assert [h][..|[h]| - 1] == [];
    assert CollectHeaders([]) == Ok([]);
    assert Find([], Lower(h.name)) == None;
    assert Inserted([], Lower(h.name), h.value) == [Entry(Lower(h.name), [h.value])];
  }

  /** `HOST: 192.168.1.1` collects to the Host entry. */
  lemma HostCollected()
    ensures CollectHeaders([RawHeader("HOST", "192.168.1.1")]) == Ok([Entry(HOST_NAME, ["192.168.1.1"])])
  {
    var h := RawHeader("HOST", "192.168.1.1");
    forall i | 0 <= i < |h.name|
      ensures IsTokenChar(h.name[i])
    {
      assert 'A' <= h.name[i] <= 'Z';
    }
    forall i | 0 <= i < |h.value|
      ensures IsValueByte(h.value[i])
    {
      assert '.' <= h.value[i] <= '9';
    }
    assert Lower(h.name) == HOST_NAME;
    CollectOne(h);
  }

  /** A request with a Host header: `NOTIFY * HTTP/1.1` and `HOST: 192.168.1.1` decode to a NOTIFY holding that Host. */
  lemma RequestAccepted()
    ensures RequestOutcome(RequestHead(NOTIFY_METHOD, ASTERISK_PATH, Some(1), [RawHeader("HOST", "192.168.1.1")]))
            == Ok(Decoded(Notify, [Entry(HOST_NAME, ["192.168.1.1"])]))
    ensures RequestOutcome(RequestHead(SEARCH_METHOD, ASTERISK_PATH, Some(1), [RawHeader("HOST", "192.168.1.1")]))
            == Ok(Decoded(Search, [Entry(HOST_NAME, ["192.168.1.1"])]))
  {
    HostCollected();
  }

  /**
   * Requests that fail: HTTP/1.0; no Host header, which is checked before
   * the path, so `NOTIFY / HTTP/1.1` without one is a missing Host; a path
   * other than `*`; an unknown method.
   */
  lemma RequestRejected()
    ensures RequestOutcome(RequestHead(NOTIFY_METHOD, ASTERISK_PATH, Some(0), [RawHeader("HOST", "192.168.1.1")]))
            == Err(InvalidHttpVersion)
    ensures RequestOutcome(RequestHead(NOTIFY_METHOD, ASTERISK_PATH, Some(1), [])) == Err(MissingHeader(HOST_NAME))
    ensures RequestOutcome(RequestHead(NOTIFY_METHOD, "/", Some(1), [])) == Err(MissingHeader(HOST_NAME))
    ensures RequestOutcome(RequestHead(NOTIFY_METHOD, "/", Some(1), [RawHeader("HOST", "192.168.1.1")]))
            == Err(InvalidUri("/"))
    ensures RequestOutcome(RequestHead("GET", ASTERISK_PATH, Some(1), [RawHeader("HOST", "192.168.1.1")]))
            == Err(InvalidMethod("GET"))
  {
    HostCollected();
    assert Find([], HOST_NAME) == None;
  }

  /**
   * The check of the typed wrappers' `from_packet`: a decode error passes
   * through unchanged, a message of another kind is refused with
   * InvalidMethod and the wrapper's own text.
   */
  function KindChecked(decoded: Result<Decoded, Error>, kind: MessageType, refusal: Bytes): (r: Result<Decoded, Error>)
    ensures r.Ok? <==> decoded.Ok? && decoded.value.kind == kind
    ensures r.Ok? ==> r.value == decoded.value
    ensures decoded.Err? ==> r == decoded
    ensures decoded.Ok? && decoded.value.kind != kind ==> r == Err(InvalidMethod(refusal))
  {
    match decoded
    case Err(e) => Err(e)
    case Ok(m) => if m.kind != kind then Err(InvalidMethod(refusal)) else Ok(m)
  }

  /** `SSDPMessage`: a message kind and the header map it owns. */
  class SsdpMessage {
    var kind: MessageType
    const headers: HeaderMap

    ghost predicate Valid()
      reads this, headers
    {
      headers.Valid()
    }

    /** The message as a value. */
    function View(): Decoded
      reads this, headers
    {
      Decoded(kind, headers.entries)
    }

    /** `SSDPMessage::new`: the given kind and no headers. */
    constructor (messageType: MessageType)
      ensures kind == messageType && fresh(headers) && headers.entries == [] && Valid()
    {
      kind := messageType;
      headers := new HeaderMap();
    }

    /**
     * The `SSDPMessage { method, headers }` literal of `message_from_request`
     * and `message_from_response`: a kind and a map already built.
     */
    constructor FromParts(messageType: MessageType, headerMap: HeaderMap)
      ensures kind == messageType && headers == headerMap
    {
      kind := messageType;
      headers := headerMap;
    }

    /** `message_type`. */
    method MessageTypeOf() returns (t: MessageType)
      ensures t == kind
    {
      t := kind;
    }

    /** `HeaderMut::set` on a message: sets the header in its map and nothing else. */
    method Set(h: TypedHeader)
      requires Valid() && Encodable(h)
      modifies headers
      ensures headers.entries == WithValues(old(headers.entries), Name(h), Values(h)) && Valid()
    {
      SetHeader(headers, h);
    }
  }

  /** `message_from_request`, building the message object. */
  method MessageFromRequest(head: RequestHead) returns (r: Result<SsdpMessage, Error>)
    ensures r.Ok? <==> RequestOutcome(head).Ok?
    ensures r.Err? ==> r.error == RequestOutcome(head).error
    ensures r.Ok? ==> fresh(r.value) && fresh(r.value.headers) && r.value.Valid() && r.value.View() == RequestOutcome(head).value
  {
    if head.version != Some(1) {
      return Err(InvalidHttpVersion);
    }
    var validated := ValidateHttpHeaders(head.headers);
    if validated.Err? {
      return Err(validated.error);
    }
    var headerMap := validated.value;
    if Get(headerMap.entries, HOST_NAME).None? {
      return Err(MissingHeader(HOST_NAME));
    }
    if head.path != ASTERISK_PATH {
      return Err(InvalidUri(head.path));
    }
    if head.verb == NOTIFY_METHOD {
      var m := new SsdpMessage.FromParts(Notify, headerMap);
      return Ok(m);
    } else if head.verb == SEARCH_METHOD {
      var m := new SsdpMessage.FromParts(Search, headerMap);
      return Ok(m);
    }
    return Err(InvalidMethod(head.verb));
  }

  /** `message_from_response`, building the message object. */
  method MessageFromResponse(head: ResponseHead) returns (r: Result<SsdpMessage, Error>)
    ensures r.Ok? <==> ResponseOutcome(head).Ok?
    ensures r.Err? ==> r.error == ResponseOutcome(head).error
    ensures r.Ok? ==> fresh(r.value) && fresh(r.value.headers) && r.value.Valid() && r.value.View() == ResponseOutcome(head).value
  {
    if head.version != Some(1) {
      return Err(InvalidHttpVersion);
    }
    if head.code != VALID_RESPONSE_CODE {
      return Err(ResponseCode(head.code));
    }
    var validated := ValidateHttpHeaders(head.headers);
    if validated.Err? {
      return Err(validated.error);
    }
    var m := new SsdpMessage.FromParts(Response, validated.value);
    return Ok(m);
  }

  /** `SSDPMessage::from_packet`. */
  method FromPacket(parseRequest: (Bytes, nat) -> Status<RequestHead>,
                    parseResponse: (Bytes, nat) -> Status<ResponseHead>,
                    bytes: Bytes) returns (r: Result<SsdpMessage, Error>)
    ensures r.Ok? <==> FromPacketResult(parseRequest, parseResponse, bytes).Ok?
    ensures r.Err? ==> r.error == FromPacketResult(parseRequest, parseResponse, bytes).error
    ensures r.Ok? ==> fresh(r.value) && fresh(r.value.headers) && r.value.Valid()
                      && r.value.View() == FromPacketResult(parseRequest, parseResponse, bytes).value
  {
    if |RESPONSE_PREFIX| <= |bytes| && bytes[..|RESPONSE_PREFIX|] == RESPONSE_PREFIX {
      var parsed := ParseHead(parseResponse, bytes);
      if parsed.Err? {
        return Err(parsed.error);
      }
      var (afterHeaderCount, response) := parsed.value;
      if afterHeaderCount > |bytes| {
        return Err(PartialHttp);
      }
      if afterHeaderCount < |bytes| {
        return Err(InvalidBodyForMethod(SEARCH_METHOD));
      }
      r := MessageFromResponse(response);
    } else {
      var parsed := ParseHead(parseRequest, bytes);
      if parsed.Err? {
        return Err(parsed.error);
      }
      var (afterHeaderCount, request) := parsed.value;
      if afterHeaderCount > |bytes| {
        return Err(PartialHttp);
      }
      var messageResult := MessageFromRequest(request);
      if afterHeaderCount < |bytes| {
        return Err(InvalidBodyForMethod(request.verb));
      }
      r := messageResult;
    }
  }
}
