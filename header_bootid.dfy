/**
 * The BOOTID.UPNP.ORG header: the boot instance of a root device, a 31-bit
 * non-negative number carried in a `u32`.
 */
module BootId {
  import opened Wrappers
  import opened Octets
  import opened Decimal

  const NAME: Bytes := "bootid.upnp.org"

  datatype BootId = BootId(id: u32)

  /**
   * `BootID::decode`: exactly one value, a signed 32-bit decimal that is not
   * negative (`-0` is zero, so it is accepted).
   */
  function Decode(values: seq<Bytes>): (r: Option<BootId>)
    ensures |values| != 1 ==> r == None
    ensures r.Some? ==> r.value.id <= I32_MAX
    ensures r.Some? ==> FromStrRadix10(values[0], I32_MIN, I32_MAX) == Some(r.value.id as int)
    ensures r.Some? <==> |values| == 1 && FromStrRadix10(values[0], I32_MIN, I32_MAX).Some?
                         && FromStrRadix10(values[0], I32_MIN, I32_MAX).value >= 0
  {
    if |values| != 1 then None
    else match FromStrRadix10(values[0], I32_MIN, I32_MAX)
      case None => None
      case Some(n) => if n < 0 then None else Some(BootId(n))
  }

  /** `BootID::encode`: the decimal digits of the id, as one value. */
  function Encode(b: BootId): seq<Bytes>
  {
    EncodeNumber(b.id)
  }

  /**
   * Encoding and decoding gives the value back exactly when it fits 31 bits;
   * a larger `u32` encodes to text that overflows the signed parse.
   */
  lemma DecodeEncode(b: BootId)
    ensures Decode(Encode(b)) == Some(b) <==> b.id <= I32_MAX
    ensures b.id > I32_MAX ==> Decode(Encode(b)) == None
  {
    FormatThenParse(b.id, I32_MIN, I32_MAX);
  }

  /** Zero, minus zero and the largest signed 32-bit value are accepted. */
  lemma DecodeAccepts()
    ensures Decode(["0"]) == Some(BootId(0))
    ensures Decode(["-0"]) == Some(BootId(0))
    ensures Decode([I32_MAX_TEXT]) == Some(BootId(2147483647))
  {
    ParseZeros();
    ParseI32Max();
  }

  /** The test's boot value is accepted, also behind leading zeros. */
  lemma DecodeBootValue()
    ensures Decode([BOOT_TEXT]) == Some(BootId(1216907400))
    ensures Decode(["000000" + BOOT_TEXT]) == Some(BootId(1216907400))
  {
    ParseBootValue();
    ParseBootValueLeadingZeros();
  }

  /** Overflow in either direction and non-digit text are rejected. */
  lemma DecodeRejects()
    ensures Decode([OVERFLOW_TEXT]) == None
    ensures Decode(["-" + OVERFLOW_TEXT]) == None
    ensures Decode([GARBLED_TEXT]) == None
  {
    ParseI32Rejects();
  }
}
