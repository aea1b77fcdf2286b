/**
 * The NT header (`nt`): the notification type, one field; a `::` in it is
 * not split.
 */
module Nt {
  import opened Wrappers
  import opened Octets
  import opened Field

  const NAME: Bytes := "nt"

  datatype Nt = Nt(field: FieldMap)

  /** `NT::decode`: exactly one value, parsed whole as one field. */
  function Decode(values: seq<Bytes>): (r: Option<Nt>)
    ensures |values| != 1 ==> r == None
    ensures r.Some? ==> WellFormed(r.value.field) && Render(r.value.field) == values[0]
    ensures |values| == 1 ==> (r.Some? <==> Parse(values[0]).Some?)
  {
    if |values| != 1 then None
    else match Parse(values[0])
      case None => None
      case Some(f) =>
        RenderParse(values[0]);
        Some(Nt(f))
  }

  /** `NT::encode`: the field's rendering as one value, or nothing when it is not a valid value. */
  function Encode(n: Nt): (r: seq<Bytes>)
    ensures |r| <= 1
    ensures |r| == 1 <==> ValidHeaderValue(Render(n.field))
    ensures |r| == 1 ==> r[0] == Render(n.field)
  {
    var text := Render(n.field);
    if ValidHeaderValue(text) then [text] else []
  }

  /** Encoding and decoding gives the field back exactly when it is well formed and renders to a valid value. */
  lemma DecodeEncode(n: Nt)
    ensures Decode(Encode(n)) == Some(n) <==> WellFormed(n.field) && ValidHeaderValue(Render(n.field))
  {
    ParseRender(n.field);
  }

  /** The three known prefixes select their own variants. */
  lemma DecodePrefixVectors()
    ensures Decode([UUID_KEY + ":" + DEVICE_UUID]) == Some(Nt(UUID(DEVICE_UUID)))
    ensures Decode([UPNP_KEY + ":" + ROOT_DEVICE]) == Some(Nt(UPnP(ROOT_DEVICE)))
    ensures Decode([URN_KEY + ":" + PRINTER_URN]) == Some(Nt(URN(PRINTER_URN)))
  {
    ParseUuidVector();
    ParseUpnpVector();
    ParseUrnVector();
  }

  /** The whole value is one field, so a `::` or a second colon stays in the payload. */
  lemma DecodeColonVectors()
    ensures Decode([MAX_AGE_KEY + ":" + MAX_AGE_PAYLOAD]) == Some(Nt(Unknown(MAX_AGE_KEY, MAX_AGE_PAYLOAD)))
    ensures Decode(["a:a"]) == Some(Nt(Unknown("a", "a")))
    ensures Decode([UUID_KEY + ":" + ":" + DEVICE_UUID]) == Some(Nt(UUID(":" + DEVICE_UUID)))
  {
    ParseMaxAgeVector();
    ParseShortVector();
    ParseColonPayloadVector();
  }

  lemma DecodeRejects()
    ensures Decode([":"]) == None && Decode(["::"]) == None && Decode([""]) == None
    ensures Decode(["some_key-some_value"]) == None
    ensures Decode([]) == None
  {
    ParseRejects();
  }
}
