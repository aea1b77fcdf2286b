/**
 * The `prefix:payload` token grammar shared by the NT, ST and USN headers
 * (`FieldMap`). Only the first colon delimits; both sides must be non-empty;
 * the prefixes `upnp`, `urn` and `uuid` select their own variants.
 */
module Field {
  import opened Wrappers
  import opened Octets

  /** The delimiter between a field's key and its value. */
  const PAIR_SEPARATOR: Byte := ':'

  const UPNP_KEY: Bytes := "upnp"
  const URN_KEY: Bytes := "urn"
  const UUID_KEY: Bytes := "uuid"

  datatype FieldMap =
    | UPnP(value: Bytes)
    | URN(value: Bytes)
    | UUID(value: Bytes)
    | Unknown(key: Bytes, value: Bytes)

  /** The index of the first colon of s, if it has one. */
  function FirstColon(s: Bytes): (r: Option<nat>)
    ensures r.Some? ==> r.value < |s| && s[r.value] == PAIR_SEPARATOR
    ensures r.Some? ==> forall j :: 0 <= j < r.value ==> s[j] != PAIR_SEPARATOR
    ensures r.None? ==> forall j :: 0 <= j < |s| ==> s[j] != PAIR_SEPARATOR
  {
    if s == [] then None
    else if s[0] == PAIR_SEPARATOR then Some(0)
    else match FirstColon(s[1..])
      case None => None
      case Some(i) => Some(i + 1)
  }

  /** The variant a key selects, with the rest of the text as its payload. */
  function Classify(key: Bytes, value: Bytes): FieldMap {
    if key == UPNP_KEY then UPnP(value)
    else if key == URN_KEY then URN(value)
    else if key == UUID_KEY then UUID(value)
    else Unknown(key, value)
  }

  /** `FieldMap::parse_bytes`: split on the first colon; neither side may be empty. */
  function Parse(s: Bytes): Option<FieldMap> {
    match FirstColon(s)
    case None => None
    case Some(i) =>
      var key, value := s[..i], s[i + 1..];
      if key == [] || value == [] then None else Some(Classify(key, value))
  }

  /** The key a field renders with. */
  function Key(f: FieldMap): Bytes {
    match f
    case UPnP(_) => UPNP_KEY
    case URN(_) => URN_KEY
    case UUID(_) => UUID_KEY
    case Unknown(k, _) => k
  }

  /** The `Display` rendering of a field: key, one colon, payload. */
  function Render(f: FieldMap): Bytes {
    Key(f) + [PAIR_SEPARATOR] + f.value
  }

  /** The fields some text parses to. */
  predicate WellFormed(f: FieldMap) {
    && f.value != []
    && (f.Unknown? ==>
          && f.key != []
          && PAIR_SEPARATOR !in f.key
          && f.key != UPNP_KEY && f.key != URN_KEY && f.key != UUID_KEY)
  }

  lemma FirstColonOfRender(f: FieldMap)
    requires PAIR_SEPARATOR !in Key(f)
    ensures FirstColon(Render(f)) == Some(|Key(f)|)
  {
    var s := Render(f);
    assert s[|Key(f)|] == PAIR_SEPARATOR;
    assert forall j :: 0 <= j < |Key(f)| ==> s[j] == Key(f)[j];
  }

  /** Rendering and parsing back yields the same field exactly when the field is well formed. */
  lemma ParseRender(f: FieldMap)
    ensures Parse(Render(f)) == Some(f) <==> WellFormed(f)
  {
    var s := Render(f);
    if PAIR_SEPARATOR in Key(f) {
      assert f.Unknown? && !WellFormed(f);
      var c :| 0 <= c < |f.key| && f.key[c] == PAIR_SEPARATOR;
      assert s[c] == f.key[c];
      match FirstColon(s)
      case Some(i) =>
        assert i <= c;
        assert |s[..i]| < |f.key|;
      case None =>
    } else {
      FirstColonOfRender(f);
      assert s[..|Key(f)|] == Key(f);
      assert s[|Key(f)| + 1..] == f.value;
    }
  }

  /** Whatever parses renders back to the very same text. */
  lemma RenderParse(s: Bytes)
    requires Parse(s).Some?
    ensures WellFormed(Parse(s).value) && Render(Parse(s).value) == s
  {
    var i := FirstColon(s).value;
    var f := Parse(s).value;
    assert s == s[..i] + [PAIR_SEPARATOR] + s[i + 1..];
    assert PAIR_SEPARATOR !in s[..i];
  }

  /** Parse on a key without colons, one colon, and a payload. */
  lemma ParseJoin(key: Bytes, value: Bytes)
    requires PAIR_SEPARATOR !in key
    ensures Parse(key + [PAIR_SEPARATOR] + value) ==
            if key == [] || value == [] then None else Some(Classify(key, value))
  {
    var s := key + [PAIR_SEPARATOR] + value;
    assert s[|key|] == PAIR_SEPARATOR;
    assert forall j :: 0 <= j < |key| ==> s[j] == key[j] && s[j] != PAIR_SEPARATOR;
    assert FirstColon(s) == Some(|key|);
    assert s[..|key|] == key && s[|key| + 1..] == value;
  }

  // Test inputs are written below as key + ":" + payload; the concatenation
  // denotes the same octets as the single literal of the source's tests.

  /** The device UUID of the NT tests. */
  const DEVICE_UUID: Bytes := "a984bc8c-aaf0-5dff-b980-00d098bda247"

  /** The payloads and the unknown key of the other NT tests. */
  const ROOT_DEVICE: Bytes := "rootdevice"
  const PRINTER_URN: Bytes := "schemas-upnp-org:device:printer:1"
  const MAX_AGE_KEY: Bytes := "max-age"
  const MAX_AGE_PAYLOAD: Bytes := "1500::upnp:rootdevice"

  lemma ParseUuidVector()
    ensures Parse(UUID_KEY + ":" + DEVICE_UUID) == Some(UUID(DEVICE_UUID))
  {
    ParseJoin(UUID_KEY, DEVICE_UUID);
  }

  lemma ParseUpnpVector()
    ensures Parse(UPNP_KEY + ":" + ROOT_DEVICE) == Some(UPnP(ROOT_DEVICE))
  {
    ParseJoin(UPNP_KEY, ROOT_DEVICE);
  }

  lemma ParseUrnVector()
    ensures Parse(URN_KEY + ":" + PRINTER_URN) == Some(URN(PRINTER_URN))
  {
    ParseJoin(URN_KEY, PRINTER_URN);
  }

  /** Only the first colon delimits: later colons stay in the payload. */
  lemma ParseMaxAgeVector()
    ensures Parse(MAX_AGE_KEY + ":" + MAX_AGE_PAYLOAD) == Some(Unknown(MAX_AGE_KEY, MAX_AGE_PAYLOAD))
  {
    ParseJoin(MAX_AGE_KEY, MAX_AGE_PAYLOAD);
  }

  lemma ParseShortVector()
    ensures Parse("a:a") == Some(Unknown("a", "a"))
  {
    ParseJoin("a", "a");
    assert "a:a" == "a" + ":" + "a";
  }

  /** A second colon right after the first belongs to the payload. */
  lemma ParseColonPayloadVector()
    ensures Parse(UUID_KEY + ":" + ":" + DEVICE_UUID) == Some(UUID(":" + DEVICE_UUID))
  {
    ParseJoin(UUID_KEY, ":" + DEVICE_UUID);
    assert UUID_KEY + ":" + ":" + DEVICE_UUID == UUID_KEY + [PAIR_SEPARATOR] + (":" + DEVICE_UUID);
  }

  lemma ParseRejects()
    ensures Parse("") == None && Parse(":") == None && Parse("::") == None
    ensures Parse("some_key-some_value") == None
  {
    ParseJoin("", "");
    assert ":" == [] + ":" + [];
    ParseJoin("", ":");
    assert "::" == [] + ":" + ":";
    var s: Bytes := "some_key-some_value";
    assert forall j :: 0 <= j < |s| ==> s[j] != PAIR_SEPARATOR;
  }
}
