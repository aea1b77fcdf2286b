/**
 * The ST header (`st`): the search target, either every device and service
 * (`ssdp:all`) or one field.
 */
module St {
  import opened Wrappers
  import opened Octets
  import opened Field

  const NAME: Bytes := "st"

  const ST_ALL_VALUE: Bytes := "ssdp:all"

  datatype St = All | Target(field: FieldMap)

  /** `ST::decode`: exactly one value; `ssdp:all` exactly, else a field. */
  function Decode(values: seq<Bytes>): (r: Option<St>)
    ensures |values| != 1 ==> r == None
    ensures r == Some(All) <==> values == [ST_ALL_VALUE]
    ensures r.Some? && r.value.Target? ==> WellFormed(r.value.field) && Render(r.value.field) == values[0]
    ensures |values| == 1 && values[0] != ST_ALL_VALUE ==> (r.Some? <==> Parse(values[0]).Some?)
  {
    if |values| != 1 then None
    else if values[0] == ST_ALL_VALUE then Some(All)
    else match Parse(values[0])
      case None => None
      case Some(f) =>
        RenderParse(values[0]);
        Some(Target(f))
  }

  /** The text a search target renders to. */
  function Text(st: St): Bytes {
    match st
    case All => ST_ALL_VALUE
    case Target(f) => Render(f)
  }

  /**
   * `ST::encode`: one value, `ssdp:all` or the target's rendering. The source
   * unwraps the conversion of a target to a header value, so a target that
   * does not render to a valid value is excluded here.
   */
  function Encode(st: St): (r: seq<Bytes>)
    requires ValidHeaderValue(Text(st))
    ensures |r| == 1 && r[0] == Text(st)
  {
    [Text(st)]
  }


  /**
   * `All` round-trips; a target round-trips exactly when it is well formed
   * and does not render to `ssdp:all`.
   */
  lemma DecodeEncode(st: St)
    requires ValidHeaderValue(Text(st))
    ensures Decode(Encode(st)) == Some(st) <==> st.All? || (WellFormed(st.field) && Render(st.field) != ST_ALL_VALUE)
  {
    if st.Target? {
      ParseRender(st.field);
    }
  }

  /** The unknown field `ssdp` / `all` renders to the `All` literal, and so comes back as `All`. */
  lemma TargetShadowedByAll()
    ensures Render(Unknown("ssdp", "all")) == ST_ALL_VALUE
    ensures ValidHeaderValue(Text(Target(Unknown("ssdp", "all"))))
    ensures Decode(Encode(Target(Unknown("ssdp", "all")))) == Some(All)
  {
    assert Render(Unknown("ssdp", "all")) == "ssdp" + ":" + "all";
  }

  /** The payload of the ST target tests. */
  const TARGET_ID: Bytes := "some_identifier"

  lemma DecodeAllVector()
    ensures Decode(["ssdp:all"]) == Some(All)
    ensures Decode([]) == None
  {
  }

  /** The three known prefixes select their own targets. */
  lemma DecodePrefixVectors()
    ensures Decode([UPNP_KEY + ":" + TARGET_ID]) == Some(Target(UPnP(TARGET_ID)))
    ensures Decode([URN_KEY + ":" + TARGET_ID]) == Some(Target(URN(TARGET_ID)))
    ensures Decode([UUID_KEY + ":" + TARGET_ID]) == Some(Target(UUID(TARGET_ID)))
  {
    ParseJoin(UPNP_KEY, TARGET_ID);
    assert UPNP_KEY + ":" + TARGET_ID != ST_ALL_VALUE;
    ParseJoin(URN_KEY, TARGET_ID);
    assert URN_KEY + ":" + TARGET_ID != ST_ALL_VALUE;
    ParseJoin(UUID_KEY, TARGET_ID);
    assert UUID_KEY + ":" + TARGET_ID != ST_ALL_VALUE;
  }

  /** Two values are refused even when each alone would decode. */
  lemma DecodeTwoValuesVector()
    ensures Decode([UUID_KEY + ":" + TARGET_ID, "ssdp:all"]) == None
  {
  }
}
