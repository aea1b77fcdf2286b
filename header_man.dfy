/**
 * The MAN header (`man`): the HTTP extension a search declares, always the
 * quoted `"ssdp:discover"`.
 */
module Man {
  import opened Wrappers
  import opened Octets

  const NAME: Bytes := "man"

  /** The value including its double quotes. */
  const MAN_HEADER_VALUE: Bytes := "\"ssdp:discover\""

  datatype Man = Man

  /** `Man::decode`: exactly one value, the quoted literal octet for octet. */
  function Decode(values: seq<Bytes>): (r: Option<Man>)
    ensures r.Some? <==> values == [MAN_HEADER_VALUE]
  {
    if |values| != 1 then None
    else if values[0] == MAN_HEADER_VALUE then Some(Man)
    else None
  }

  /** `Man::encode`: always the quoted literal. */
  function Encode(m: Man): (r: seq<Bytes>)
    ensures r == [MAN_HEADER_VALUE] && ValidHeaderValue(r[0])
  {
    [MAN_HEADER_VALUE]
  }

  lemma DecodeEncode(m: Man)
    ensures Decode(Encode(m)) == Some(m)
  {
  }

  /** The literal is case sensitive and needs its quotes. */
  lemma DecodeRejects()
    ensures Decode(["\"SSDP:discover\""]) == None
    ensures Decode(["ssdp:discover"]) == None
    ensures Decode([]) == None && Decode([MAN_HEADER_VALUE, MAN_HEADER_VALUE]) == None
  {
    var w: Bytes := "\"SSDP:discover\"";
    assert w[1] != MAN_HEADER_VALUE[1];
  }
}
