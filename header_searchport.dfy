/**
 * The SEARCHPORT.UPNP.ORG header: the unicast port a device answers searches
 * on, 49152 or above.
 */
module SearchPort {
  import opened Wrappers
  import opened Octets
  import opened Decimal

  const NAME: Bytes := "searchport.upnp.org"

  const SEARCHPORT_MIN_VALUE: u16 := 49152

  datatype SearchPort = SearchPort(port: u16)

  /** `SearchPort::decode`: exactly one value, an unsigned 16-bit decimal of at least 49152. */
  function Decode(values: seq<Bytes>): (r: Option<SearchPort>)
    ensures |values| != 1 ==> r == None
    ensures r.Some? ==> r.value.port >= SEARCHPORT_MIN_VALUE
    ensures r.Some? ==> FromStrRadix10(values[0], 0, U16_MAX) == Some(r.value.port as int)
    ensures r.Some? <==> |values| == 1 && FromStrRadix10(values[0], 0, U16_MAX).Some?
                         && FromStrRadix10(values[0], 0, U16_MAX).value >= SEARCHPORT_MIN_VALUE as int
  {
    if |values| != 1 then None
    else match FromStrRadix10(values[0], 0, U16_MAX)
      case None => None
      case Some(n) => if n >= SEARCHPORT_MIN_VALUE then Some(SearchPort(n)) else None
  }

  /** `SearchPort::encode`: the decimal digits of the port, as one value. */
  function Encode(p: SearchPort): seq<Bytes>
  {
    EncodeNumber(p.port)
  }

  /** Encoding and decoding gives the value back exactly when the port is at least 49152. */
  lemma DecodeEncode(p: SearchPort)
    ensures Decode(Encode(p)) == Some(p) <==> p.port >= SEARCHPORT_MIN_VALUE
  {
    FormatThenParse(p.port, 0, U16_MAX);
  }

  /** The lowest port of the range is accepted. */
  lemma DecodeLowest()
    ensures Decode(["49152"]) == Some(SearchPort(49152))
  {
    var a: Bytes := "49152";
    assert PrefixValue(a, 1) == 4;
    assert PrefixValue(a, 2) == 49;
    assert PrefixValue(a, 3) == 491;
    assert PrefixValue(a, 4) == 4915;
    assert PrefixValue(a, 5) == 49152;
  }

  /** Ports inside the range and the highest one are accepted. */
  lemma DecodeAccepts()
    ensures Decode(["50000"]) == Some(SearchPort(50000))
    ensures Decode(["65535"]) == Some(SearchPort(65535))
  {
    var b: Bytes := "50000";
    assert PrefixValue(b, 3) == 500 by {
      assert PrefixValue(b, 1) == 5;
      assert PrefixValue(b, 2) == 50;
    }
    assert PrefixValue(b, 5) == 50000 by {
      assert PrefixValue(b, 4) == 5000;
    }
    var c: Bytes := "65535";
    assert PrefixValue(c, 3) == 655 by {
      assert PrefixValue(c, 1) == 6;
      assert PrefixValue(c, 2) == 65;
    }
    assert PrefixValue(c, 5) == 65535 by {
      assert PrefixValue(c, 4) == 6553;
    }
  }

  /** The port just below the range, and a number followed by a letter, are rejected. */
  lemma DecodeRejects()
    ensures Decode(["49151"]) == None
    ensures Decode(["49151a"]) == None
  {
    var a: Bytes := "49151";
    assert PrefixValue(a, 1) == 4;
    assert PrefixValue(a, 2) == 49;
    assert PrefixValue(a, 3) == 491;
    assert PrefixValue(a, 4) == 4915;
    assert PrefixValue(a, 5) == 49151;
    var b: Bytes := "49151a";
    assert !IsDigit(b[5]);
  }
}
