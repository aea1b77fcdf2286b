/**
 * The NTS header (`nts`): the notification sub type, one of three literals.
 */
module Nts {
  import opened Wrappers
  import opened Octets

  const NAME: Bytes := "nts"

  const ALIVE_HEADER: Bytes := "ssdp:alive"
  const UPDATE_HEADER: Bytes := "ssdp:update"
  const BYEBYE_HEADER: Bytes := "ssdp:byebye"

  datatype Nts =
    /** An entity announces itself. */
    | Alive
    /** An entity updates its presence (UPnP 1.0 and later). */
    | Update
    /** An entity leaves the network. */
    | ByeBye

  /** The literal each sub type is written as. */
  function Literal(x: Nts): Bytes {
    match x
    case Alive => ALIVE_HEADER
    case Update => UPDATE_HEADER
    case ByeBye => BYEBYE_HEADER
  }

  /** `NTS::decode`: exactly one value, equal octet for octet to one of the three literals. */
  function Decode(values: seq<Bytes>): (r: Option<Nts>)
    ensures r.Some? ==> values == [Literal(r.value)]
    ensures r.None? ==> forall x: Nts :: values != [Literal(x)]
  {
    if |values| != 1 then None
    else if values[0] == ALIVE_HEADER then Some(Alive)
    else if values[0] == UPDATE_HEADER then Some(Update)
    else if values[0] == BYEBYE_HEADER then Some(ByeBye)
    else None
  }

  /** `NTS::encode`: the sub type's literal, as one value. */
  function Encode(x: Nts): (r: seq<Bytes>)
    ensures r == [Literal(x)] && ValidHeaderValue(r[0])
  {
    [Literal(x)]
  }

  /** Every sub type round-trips, and the three literals are distinct. */
  lemma DecodeEncode(x: Nts)
    ensures Decode(Encode(x)) == Some(x)
  {
  }

  lemma DecodeRejects()
    ensures Decode(["ssdp:alive_someotherbytes"]) == None
    ensures Decode(["ssdp:somestring"]) == None
    ensures Decode([""]) == None && Decode(["ssdp:"]) == None
    ensures Decode([]) == None && Decode([ALIVE_HEADER, ALIVE_HEADER]) == None
  {
  }
}
