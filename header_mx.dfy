/**
 * The MX header (`mx`): the number of seconds a device may wait before it
 * answers a multicast search, between 1 and 120 (UPnP Device Architecture 1.0).
 */
module Mx {
  import opened Wrappers
  import opened Octets
  import opened Decimal
  import opened Errors

  const NAME: Bytes := "mx"

  const MX_HEADER_MIN: u8 := 1
  const MX_HEADER_MAX: u8 := 120

  datatype Mx = Mx(wait: u8)

  /** `MX::new`: a wait bound outside [1, 120] is an invalid `mx` header. */
  function New(waitBound: u8): (r: Result<Mx, Error>)
    ensures r.Ok? <==> MX_HEADER_MIN <= waitBound <= MX_HEADER_MAX
    ensures r.Ok? ==> r.value == Mx(waitBound)
    ensures r.Err? ==> r.error == InvalidHeader(NAME)
  {
    if waitBound < MX_HEADER_MIN || waitBound > MX_HEADER_MAX then Err(InvalidHeader(NAME))
    else Ok(Mx(waitBound))
  }

  /** `MX::decode`: exactly one value, an unsigned 8-bit decimal within [1, 120]. */
  function Decode(values: seq<Bytes>): (r: Option<Mx>)
    ensures |values| != 1 ==> r == None
    ensures r.Some? ==> MX_HEADER_MIN <= r.value.wait <= MX_HEADER_MAX
    ensures r.Some? ==> FromStrRadix10(values[0], 0, U8_MAX) == Some(r.value.wait as int)
    ensures r.Some? <==> |values| == 1 && FromStrRadix10(values[0], 0, U8_MAX).Some?
                         && MX_HEADER_MIN <= FromStrRadix10(values[0], 0, U8_MAX).value <= MX_HEADER_MAX
  {
    if |values| != 1 then None
    else match FromStrRadix10(values[0], 0, U8_MAX)
      case Some(n) =>
        if MX_HEADER_MIN <= n <= MX_HEADER_MAX then Some(Mx(n)) else None
      case None => None
  }

  /** `MX::encode`: the decimal digits of the wait bound, as one value. */
  function Encode(m: Mx): seq<Bytes>
  {
    EncodeNumber(m.wait)
  }

  /** Encoding and decoding gives the value back exactly when it is within [1, 120]. */
  lemma DecodeEncode(m: Mx)
    ensures Decode(Encode(m)) == Some(m) <==> MX_HEADER_MIN <= m.wait <= MX_HEADER_MAX
  {
    FormatThenParse(m.wait, 0, U8_MAX);
  }

  /** Values in range decode, for example 1, 5 and 120. */
  lemma DecodeAccepts()
    ensures Decode(["1"]) == Some(Mx(1))
    ensures Decode(["5"]) == Some(Mx(5))
    ensures Decode(["120"]) == Some(Mx(120))
  {
    assert PrefixValue("1", 1) == 1;
    assert PrefixValue("5", 1) == 5;
    var s: Bytes := "120";
    assert PrefixValue(s, 1) == 1;
    assert PrefixValue(s, 2) == 12;
    assert PrefixValue(s, 3) == 120;
  }

  /** Zero and 121 are out of range; a fraction or a sign is not an unsigned decimal. */
  lemma DecodeRejects()
    ensures Decode(["0"]) == None
    ensures Decode(["121"]) == None
    ensures Decode(["0.5"]) == None
    ensures Decode(["-5"]) == None
  {
    assert PrefixValue("0", 1) == 0;
    var s: Bytes := "121";
    assert PrefixValue(s, 1) == 1;
    assert PrefixValue(s, 2) == 12;
    assert PrefixValue(s, 3) == 121;
    var f: Bytes := "0.5";
    assert !IsDigit(f[1]);
    UnsignedRejectsMinus("-5", U8_MAX);
  }
}
