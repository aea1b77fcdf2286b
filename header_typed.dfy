/**
 * The typed headers together: each header's name and encoding, a header
 * read back from a map, and `HeaderMut::set` for a typed header value.
 */
module Typed {
  import opened Wrappers
  import opened Octets
  import opened Field
  import opened Headers
  import Usn
  import Nt
  import St
  import Mx
  import BootId
  import ConfigId
  import SearchPort
  import Nts
  import Man

  /** A value of one of the SSDP headers. */
  datatype TypedHeader =
    | UsnHeader(usn: Usn.Usn)
    | NtHeader(nt: Nt.Nt)
    | StHeader(st: St.St)
    | MxHeader(mx: Mx.Mx)
    | BootIdHeader(bootId: BootId.BootId)
    | ConfigIdHeader(configId: ConfigId.ConfigId)
    | SearchPortHeader(searchPort: SearchPort.SearchPort)
    | NtsHeader(nts: Nts.Nts)
    | ManHeader(man: Man.Man)

  /** `H::name()`: the header's lower-case name. */
  function Name(h: TypedHeader): Bytes {
    match h
    case UsnHeader(_) => Usn.NAME
    case NtHeader(_) => Nt.NAME
    case StHeader(_) => St.NAME
    case MxHeader(_) => Mx.NAME
    case BootIdHeader(_) => BootId.NAME
    case ConfigIdHeader(_) => ConfigId.NAME
    case SearchPortHeader(_) => SearchPort.NAME
    case NtsHeader(_) => Nts.NAME
    case ManHeader(_) => Man.NAME
  }

  /** Every header name is one the map can store: a lower-case token. */
  lemma NameStored(h: TypedHeader)
    ensures StoredName(Name(h))
  {
    var n := Name(h);
    forall i | 0 <= i < |n|
      ensures IsTokenChar(n[i]) && LowerByte(n[i]) == n[i]
    {
      assert 'a' <= n[i] <= 'z' || n[i] == '.';
    }
    assert Lower(n) == n;
  }

  /**
   * The encodings that do not panic in a release build: an ST target must
   * render as a valid value (with debug assertions, NT and USN values that
   * are not valid header values panic as well).
   */
  predicate Encodable(h: TypedHeader) {
    h.StHeader? ==> ValidHeaderValue(St.Text(h.st))
  }

  /** `Header::encode`: the values the header puts in a map, all of them valid. */
  function Values(h: TypedHeader): (r: seq<Bytes>)
    requires Encodable(h)
    ensures |r| <= 1 && ValidValues(r)
  {
    match h
    case UsnHeader(u) => Usn.Encode(u)
    case NtHeader(n) => Nt.Encode(n)
    case StHeader(s) => St.Encode(s)
    case MxHeader(m) => Mx.Encode(m)
    case BootIdHeader(b) => BootId.Encode(b)
    case ConfigIdHeader(c) => ConfigId.Encode(c)
    case SearchPortHeader(p) => SearchPort.Encode(p)
    case NtsHeader(x) => Nts.Encode(x)
    case ManHeader(m) => Man.Encode(m)
  }

  /** `Header::decode` of the values, as the same kind of header as h. */
  function DecodeAs(h: TypedHeader, values: seq<Bytes>): Option<TypedHeader> {
    match h
    case UsnHeader(_) => Map(Usn.Decode(values), (u: Usn.Usn) => UsnHeader(u))
    case NtHeader(_) => Map(Nt.Decode(values), (n: Nt.Nt) => NtHeader(n))
    case StHeader(_) => Map(St.Decode(values), (s: St.St) => StHeader(s))
    case MxHeader(_) => Map(Mx.Decode(values), (m: Mx.Mx) => MxHeader(m))
    case BootIdHeader(_) => Map(BootId.Decode(values), (b: BootId.BootId) => BootIdHeader(b))
    case ConfigIdHeader(_) => Map(ConfigId.Decode(values), (c: ConfigId.ConfigId) => ConfigIdHeader(c))
    case SearchPortHeader(_) => Map(SearchPort.Decode(values), (p: SearchPort.SearchPort) => SearchPortHeader(p))
    case NtsHeader(_) => Map(Nts.Decode(values), (x: Nts.Nts) => NtsHeader(x))
    case ManHeader(_) => Map(Man.Decode(values), (m: Man.Man) => ManHeader(m))
  }

  function Map<A, B>(o: Option<A>, f: A -> B): Option<B> {
    match o
    case None => None
    case Some(a) => Some(f(a))
  }

  /** The header values whose encoding decodes back to them, per header. */
  predicate RoundTrips(h: TypedHeader) {
    match h
    case UsnHeader(u) =>
      && WellFormed(u.first) && (u.second.Some? ==> WellFormed(u.second.value))
      && !HasPairSeparator(Render(u.first)) && Render(u.first)[|Render(u.first)| - 1] != PAIR_SEPARATOR
      && ValidHeaderValue(Usn.Text(u))
    case NtHeader(n) => WellFormed(n.field) && ValidHeaderValue(Render(n.field))
    case StHeader(s) =>
      && ValidHeaderValue(St.Text(s))
      && (s.All? || (WellFormed(s.field) && Render(s.field) != St.ST_ALL_VALUE))
    case MxHeader(m) => Mx.MX_HEADER_MIN <= m.wait <= Mx.MX_HEADER_MAX
    case BootIdHeader(b) => b.id <= I32_MAX
    case ConfigIdHeader(c) => c.id <= I32_MAX
    case SearchPortHeader(p) => p.port >= SearchPort.SEARCHPORT_MIN_VALUE
    case NtsHeader(_) => true
    case ManHeader(_) => true
  }

  /** A header that round-trips decodes from its own encoding. */
  lemma DecodeValues(h: TypedHeader)
    requires Encodable(h) && RoundTrips(h)
    ensures DecodeAs(h, Values(h)) == Some(h)
  {
    match h
    case UsnHeader(u) => Usn.DecodeEncode(u);
    case NtHeader(n) => Nt.DecodeEncode(n);
    case StHeader(s) => St.DecodeEncode(s);
    case MxHeader(m) => Mx.DecodeEncode(m);
    case BootIdHeader(b) => BootId.DecodeEncode(b);
    case ConfigIdHeader(c) => ConfigId.DecodeEncode(c);
    case SearchPortHeader(p) => SearchPort.DecodeEncode(p);
    case NtsHeader(x) => Nts.DecodeEncode(x);
    case ManHeader(m) => Man.DecodeEncode(m);
  }

  /**
   * After `set(h)`, reading h's header back from the map gives h, and
   * every other header reads as before.
   */
  lemma SetThenGet(entries: seq<Entry>, h: TypedHeader, other: Bytes)
    requires DistinctNames(entries) && Encodable(h) && RoundTrips(h)
    ensures DecodeAs(h, GetAll(WithValues(entries, Name(h), Values(h)), Name(h))) == Some(h)
    ensures other != Name(h) ==> GetAll(WithValues(entries, Name(h), Values(h)), other) == GetAll(entries, other)
  {
    WithValuesGetAll(entries, Name(h), Values(h), Name(h));
    WithValuesGetAll(entries, Name(h), Values(h), other);
    DecodeValues(h);
  }

  /** `HeaderMut::set` for a typed header on a map. */
  method SetHeader(m: HeaderMap, h: TypedHeader)
    requires m.Valid() && Encodable(h)
    modifies m
    ensures m.entries == WithValues(old(m.entries), Name(h), Values(h)) && m.Valid()
  {
    NameStored(h);
    m.Set(Name(h), Values(h));
  }
}
