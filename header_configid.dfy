/**
 * The CONFIGID.UPNP.ORG header: the configuration number of a device's
 * description, a 31-bit non-negative number carried in a `u32`.
 */
module ConfigId {
  import opened Wrappers
  import opened Octets
  import opened Decimal

  const NAME: Bytes := "configid.upnp.org"

  datatype ConfigId = ConfigId(id: u32)

  /**
   * `ConfigID::decode`: the first value, a signed 32-bit decimal that is not
   * negative. Unlike BOOTID, values after the first are not looked at, and
   * the numbers the UPnP Device Architecture reserves are not rejected.
   */
  function Decode(values: seq<Bytes>): (r: Option<ConfigId>)
    ensures values == [] ==> r == None
    ensures r.Some? ==> r.value.id <= I32_MAX
    ensures r.Some? ==> FromStrRadix10(values[0], I32_MIN, I32_MAX) == Some(r.value.id as int)
    ensures r.Some? <==> values != [] && FromStrRadix10(values[0], I32_MIN, I32_MAX).Some?
                         && FromStrRadix10(values[0], I32_MIN, I32_MAX).value >= 0
  {
    if values == [] then None
    else match FromStrRadix10(values[0], I32_MIN, I32_MAX)
      case None => None
      case Some(n) => if n < 0 then None else Some(ConfigId(n))
  }

  /** `ConfigID::encode`: the decimal digits of the id, as one value. */
  function Encode(c: ConfigId): seq<Bytes>
  {
    EncodeNumber(c.id)
  }

  /** Only the first value counts: whatever follows it changes nothing. */
  lemma DecodeFirstOnly(first: Bytes, rest: seq<Bytes>)
    ensures Decode([first] + rest) == Decode([first])
  {
    assert ([first] + rest)[0] == first;
  }

  /** Encoding and decoding gives the value back exactly when it fits 31 bits. */
  lemma DecodeEncode(c: ConfigId)
    ensures Decode(Encode(c)) == Some(c) <==> c.id <= I32_MAX
    ensures c.id > I32_MAX ==> Decode(Encode(c)) == None
  {
    FormatThenParse(c.id, I32_MIN, I32_MAX);
  }

  /** Zero, minus zero and the largest signed 32-bit value are accepted. */
  lemma DecodeAccepts()
    ensures Decode(["0"]) == Some(ConfigId(0))
    ensures Decode(["-0"]) == Some(ConfigId(0))
    ensures Decode([I32_MAX_TEXT]) == Some(ConfigId(2147483647))
  {
    ParseZeros();
    ParseI32Max();
  }

  /** The reserved value is accepted, whatever follows it. */
  lemma DecodeReserved()
    ensures Decode([RESERVED_TEXT]) == Some(ConfigId(20720000))
    ensures Decode([RESERVED_TEXT, GARBLED_TEXT]) == Some(ConfigId(20720000))
  {
    ParseReserved();
  }

  /** Overflow in either direction and non-digit text are rejected. */
  lemma DecodeRejects()
    ensures Decode([OVERFLOW_TEXT]) == None
    ensures Decode(["-" + OVERFLOW_TEXT]) == None
    ensures Decode([GARBLED_TEXT]) == None
  {
    ParseI32Rejects();
  }
}
