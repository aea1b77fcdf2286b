# SSDP message core, modelled in Dafny

A model of the parts of the Rust crate `ssdp` that carry the Simple Service
Discovery Protocol, the discovery layer of section 1 of the UPnP Device
Architecture. SSDP is HTTP-shaped text carried over UDP. The model has four parts:

- **Typed headers.** These are USN, NT, ST, MX, BOOTID.UPNP.ORG,
  CONFIGID.UPNP.ORG, SEARCHPORT.UPNP.ORG, NTS and MAN. Each is a pure pair of
  decoder and encoder over the raw values stored under the header's name. The
  `prefix:payload` grammar they share (`FieldMap`) and Rust's decimal parsing
  and formatting are modelled with them. So is the header map with its in-place
  `set`, which removes the header and then inserts it typed.
- **Message validation.** `from_packet` is modelled on the output of the HTTP/1
  parser, which is taken as an input function. The model covers the choice
  between the response path and the request path, and the precedence of the
  PartialHttp, body, version, Host, path, method and status-code checks. It
  covers header collection into a fresh map, and the kind checks of the
  `SearchRequest`, `SearchResponse` and `NotifyMessage` wrappers. It also covers
  the search timeouts and the outcome policies of the two `unicast` loops.
- **Local addresses and configuration.** This part models the IPv6 "not global"
  classifier. 6to4 addresses follow section 2 of RFC 3056. Unique-local
  addresses follow section 3.1 of RFC 4193. It also models the loopback and
  IP-mode filters applied over the interfaces' addresses, the `map_local` loop,
  and the default multicast configuration with its setters.
- **Packet buffer and HTTPU serializer.** The buffer is capped at 1500 bytes and
  has saturating `write` and `write_vectored`. The serializer writes the request
  line, the fixed Host line, one upper-cased `NAME: value` line per header value
  and an empty line into it. This is HTTP/1.1 message syntax, section 3 of
  RFC 7230.

Objects that the source updates in place are classes:
- the packet buffer;
- the header map;
- `SSDPMessage` and its three wrappers.

Their methods are proved against specification functions on sequences. The
functions' own properties are proved as lemmas: round trips, the precedence of
errors, last-write-wins header collection, and the effect of `set` on every
other name. Header text and packets are sequences of `Byte`, a `char` below 256.
The source's ASCII literals therefore read as written.

## Model

| member | source | states |
|---|---|---|
| Decimal.FromStrRadix10 | src/header/bootid.rs:28 | Rust's `from_str_radix(s, 10)` for the range [min, max]: an accepted value lies in the range |
| Decimal.UnsignedRejectsMinus | src/header/mx.rs:52 | an unsigned parse never accepts a leading `-`, not even in `-0` |
| Decimal.Format | src/header/bootid.rs:45 | `format!("{}", n)` gives a non-empty digit string denoting n, without leading zeros, that is a valid header value |
| Decimal.EncodeNumber | src/header/bootid.rs:41-50 | the `encode` of MX, BOOTID.UPNP.ORG, CONFIGID.UPNP.ORG and SEARCHPORT.UPNP.ORG writes one value: the decimal digits of the number, a valid header value |
| Decimal.FormatThenParse | src/header/bootid.rs:41-50 | parsing what `format!` wrote gives n back exactly when n fits the type's upper bound |
| Decimal.PrefixValueAppend | src/header/bootid.rs:28 | appending a digit leaves the value of every earlier prefix unchanged |
| Decimal.PrefixValueLeadingZero | src/header/bootid.rs:64-69 | a leading `0` shifts the prefix values by one position without changing them |
| Decimal.ParseLeadingZero | src/header/bootid.rs:64-69 | one leading zero does not change the parse of a digit string |
| Decimal.ParseLeadingZeros | src/header/bootid.rs:64-69 | any run of leading zeros does not change the parse |
| Decimal.ParseI32Max | src/header/bootid.rs:78-83 | `2147483647` parses as the largest signed 32-bit value |
| Decimal.ParseZeros | src/header/bootid.rs:64-90 | `0` and `-0` both parse as zero in the signed 32-bit range |
| Decimal.ParseBootValue | src/header/bootid.rs:64-69 | `1216907400` parses in the signed 32-bit range |
| Decimal.ParseBootValueLeadingZeros | src/header/bootid.rs:64-69 | `0000001216907400` parses to the same value |
| Decimal.ParseReserved | src/header/configid.rs:68-75 | `20720000` parses in the signed 32-bit range |
| Decimal.ParseI32Rejects | src/header/bootid.rs:92-114 | overflow in either direction and embedded letters fail the signed 32-bit parse |
| Decimal.ParseOverflow | src/header/bootid.rs:92-106 | `2290649224` and `-2290649224` lie outside the signed 32-bit range and fail the parse |
| Field.FirstColon | src/header/nt.rs:135-146 | gives the position of the first `:`, with no `:` before it, or reports that there is none |
| Field.FirstColonOfRender | src/header/nt.rs:115-132 | in a rendering, the first colon comes right after the key when the key has no colon |
| Field.ParseRender | src/header/nt.rs:41-50 | parsing a field's rendering gives the field back exactly when the field is well formed |
| Field.RenderParse | src/header/nt.rs:115-132 | whatever parses is well formed, and rendering it reproduces the input bytes exactly |
| Field.ParseJoin | src/header/nt.rs:95-146 | `key:value` with a colon-free key splits at that colon, classified by the key |
| Field.ParseUuidVector | src/header/nt.rs:58-68 | `uuid:a984bc8c-…` parses to UUID with the rest verbatim |
| Field.ParseUpnpVector | src/header/nt.rs:70-80 | `upnp:rootdevice` parses to UPnP `rootdevice` |
| Field.ParseUrnVector | src/header/nt.rs:82-92 | `urn:schemas-upnp-org:device:printer:1` parses to URN with every later colon kept |
| Field.ParseMaxAgeVector | src/header/nt.rs:94-112 | only the first colon delimits: `max-age:1500::upnp:rootdevice` is key `max-age`, payload `1500::upnp:rootdevice` |
| Field.ParseShortVector | src/header/nt.rs:114-132 | `a:a` is the unknown key `a` with payload `a` |
| Field.ParseColonPayloadVector | src/header/nt.rs:134-146 | in `uuid::a984…` the second colon belongs to the UUID payload |
| Field.ParseRejects | src/header/nt.rs:148-178 | the empty text, `:`, `::` and text without a colon are not fields |
| Octets.UpperByte | src/net/httpu.rs:34 | upper-cases an ASCII lower-case letter by 32 and leaves every other byte alone |
| Octets.LowerByte | src/message/ssdp.rs:315 | lower-cases an ASCII upper-case letter by 32 and leaves every other byte alone |
| Octets.Upper | src/net/httpu.rs:34 | upper-cases a text byte by byte, keeping its length |
| Octets.Lower | src/message/ssdp.rs:315 | lower-cases a text byte by byte, keeping its length |
| Usn.PartitionPairs | src/header/usn.rs:71-109 | the loop that partitions at the first `::` and pops up to two trailing colons computes exactly `Partition` |
| Usn.SplitAtPair | src/header/usn.rs:84-93 | the partitioning closure sends every octet through the one that completes the first pair to the first part and the rest to the second |
| Usn.StripColons | src/header/usn.rs:95-102 | the two rounds of popping a trailing colon leave the first part less at most two trailing colons |
| Usn.PartitionLeadingColon | src/header/usn.rs:78-91 | a leading `:` closes the pair at once, so the first part strips to nothing and the value is refused |
| Usn.PartitionAtPair | src/header/usn.rs:84-108 | at the first `::` the first part is everything through it with up to two trailing colons removed, and the second part is the rest verbatim |
| Usn.PartitionNoPair | src/header/usn.rs:95-106 | without a `::` the whole value, less one trailing colon, is the first part and there is no second |
| Usn.PartitionHead | src/header/usn.rs:84-102 | the first part of a partition never contains `::` |
| Usn.PartitionJoin | src/header/usn.rs:51-68 | a non-empty first part with no `::` and no colon at either end, joined to any second part by `::`, partitions back into the two parts |
| Usn.Decode | src/header/usn.rs:31-37 | decoding fails unless exactly one value is given |
| Usn.DecodeFields | src/header/usn.rs:39-48 | a decoded USN's first field parses from the first part, and its second parses from the second part or is absent |
| Usn.Encode | src/header/usn.rs:51-68 | encodes the first rendering, then `::` and the second rendering when present, as one value exactly when that text is a valid header value |
| Usn.DecodeEncode | src/header/usn.rs:51-68 | decode after encode gives the USN back when its first rendering has no `::` and does not end in `:` |
| Usn.DecodeTwo | src/header/usn.rs:39-48 | `a::b` with a plain first field a decodes to a's field and the parse of b, for every b: a b that is not a field leaves no second field |
| Usn.DecodeDropsSecond | src/header/usn.rs:40-44 | `uuid:a::b` decodes to UUID `a` with no second field, since `b` is not a field |
| Usn.DecodeSingle | src/header/usn.rs:132-156 | a single field, bare or followed by `::`, decodes with no second field |
| Usn.DecodeTrailingColon | src/header/usn.rs:158-172 | one trailing colon after a single field is no pair; it is dropped and there is no second field |
| Usn.DecodeDoublePair | src/header/usn.rs:116-130 | `uuid:device-UUID::upnp:rootdevice` decodes to UUID `device-UUID` and UPnP `rootdevice` |
| Usn.DecodeSinglePair | src/header/usn.rs:132-143 | `urn:device-URN` decodes to URN `device-URN` with no second field |
| Usn.DecodeTrailingDoubleColon | src/header/usn.rs:145-156 | `upnp:device-UPnP::` decodes with no second field |
| Usn.DecodeTrailingSingleColon | src/header/usn.rs:158-172 | `some-key:device-UPnP:` decodes to `Unknown("some-key", "device-UPnP")` with no second field |
| Usn.DecodeRejectsEmpty | src/header/usn.rs:174-180 | no value and the empty text are refused |
| Usn.DecodeRejectsColons | src/header/usn.rs:182-196 | `:` and `::` leave an empty first part and are refused |
| Usn.DecodeRejectsKeyOnly | src/header/usn.rs:198-204 | `uuid:::` partitions into the bare key `uuid`, which is not a field, and is refused |
| Usn.RenderStart | src/header/usn.rs:51-68 | a well-formed field's rendering does not start with a colon |
| Nt.Decode | src/header/nt.rs:23-39 | exactly one value is required, and the value parses as a whole, with no `::` splitting |
| Nt.Encode | src/header/nt.rs:41-50 | emits the field's rendering as one value exactly when it is a valid header value |
| Nt.DecodeEncode | src/header/nt.rs:41-50 | decode after encode is the identity exactly for well-formed, encodable fields |
| Nt.DecodePrefixVectors | src/header/nt.rs:58-92 | the NT values `uuid:…`, `upnp:rootdevice` and `urn:…` decode to UUID, UPnP and URN |
| Nt.DecodeColonVectors | src/header/nt.rs:94-146 | `max-age:1500::upnp:rootdevice`, `a:a` and `uuid::…` decode as one field split at the first colon |
| Nt.DecodeRejects | src/header/nt.rs:148-178 | `:`, `::`, the empty text, text without a colon and no value at all are refused |
| St.Decode | src/header/st.rs:20-39 | one value is required; exactly `ssdp:all` gives All, and any other value gives a Target when it parses as a field |
| St.Encode | src/header/st.rs:41-51 | All encodes to `ssdp:all` and a Target to its rendering, as one value |
| St.DecodeEncode | src/header/st.rs:41-51 | decode after encode is the identity for All and for every well-formed Target whose rendering is not `ssdp:all` |
| St.TargetShadowedByAll | src/header/st.rs:32-35 | `Target(Unknown("ssdp", "all"))` encodes to `ssdp:all` and so decodes as All |
| St.DecodeAllVector | src/header/st.rs:59-67 | `ssdp:all` decodes to All, and no value is refused |
| St.DecodePrefixVectors | src/header/st.rs:69-97 | `upnp:`, `urn:` and `uuid:` followed by an identifier decode to targets of those kinds |
| St.DecodeTwoValuesVector | src/header/st.rs:99-105 | two values are refused, even when each would decode alone |
| Mx.New | src/header/mx.rs:23-29 | `MX::new(n)` succeeds exactly for 1 ≤ n ≤ 120, and otherwise fails with InvalidHeader naming `mx` |
| Mx.Decode | src/header/mx.rs:38-56 | a value results exactly when there is one value, it parses as an unsigned 8-bit decimal and it lies within [1, 120]; the wait is the parsed number |
| Mx.DecodeEncode | src/header/mx.rs:58-67 | decode after encode is the identity exactly for bounds within [1, 120] |
| Mx.DecodeAccepts | src/header/mx.rs:74-102 | `1`, `5` and `120` decode to those bounds |
| Mx.DecodeRejects | src/header/mx.rs:104-134 | `0`, `121`, `0.5` and `-5` are refused |
| BootId.Decode | src/header/bootid.rs:13-39 | a value results exactly when there is one value, it parses as a signed 32-bit decimal and it is not negative; the id is the parsed number |
| BootId.DecodeEncode | src/header/bootid.rs:41-50 | decode after encode is the identity exactly for ids up to 2147483647, and larger ids are refused |
| BootId.DecodeAccepts | src/header/bootid.rs:71-90 | `0`, `-0` and `2147483647` are accepted |
| BootId.DecodeBootValue | src/header/bootid.rs:64-69 | `1216907400` is accepted, and so is its zero-padded form |
| BootId.DecodeRejects | src/header/bootid.rs:92-114 | `2290649224`, `-2290649224` and `2290wow649224` are refused |
| ConfigId.Decode | src/header/configid.rs:13-40 | a value results exactly when there is at least one value and the first parses as a signed 32-bit decimal that is not negative; the id is the parsed number |
| ConfigId.DecodeFirstOnly | src/header/configid.rs:17-21 | values after the first never change the result |
| ConfigId.DecodeEncode | src/header/configid.rs:42-51 | decode after encode is the identity exactly for ids up to 2147483647 |
| ConfigId.DecodeAccepts | src/header/configid.rs:77-96 | `0`, `-0` and `2147483647` are accepted |
| ConfigId.DecodeReserved | src/header/configid.rs:68-75 | the reserved `20720000` is accepted, also when an invalid second value follows it |
| ConfigId.DecodeRejects | src/header/configid.rs:98-120 | overflow in either direction and non-numeric text are refused |
| SearchPort.Decode | src/header/searchport.rs:18-42 | a value results exactly when there is one value, it parses as an unsigned 16-bit decimal and it is at least 49152; the port is the parsed number |
| SearchPort.DecodeEncode | src/header/searchport.rs:44-53 | decode after encode is the identity exactly for ports of 49152 or more |
| SearchPort.DecodeLowest | src/header/searchport.rs:67-72 | `49152`, the lowest port of the range, is accepted |
| SearchPort.DecodeAccepts | src/header/searchport.rs:60-79 | `50000` and `65535` are accepted |
| SearchPort.DecodeRejects | src/header/searchport.rs:81-95 | `49151` and `49151a` are refused |
| Nts.Decode | src/header/nts.rs:27-48 | succeeds only on one value equal byte for byte to one variant's literal, and then gives that variant |
| Nts.Encode | src/header/nts.rs:50-61 | each variant encodes to its own literal as one value |
| Nts.DecodeEncode | src/header/nts.rs:50-61 | decode after encode is the identity for all three variants |
| Nts.DecodeRejects | src/header/nts.rs:98-128 | `ssdp:alive_someotherbytes`, `ssdp:somestring`, the empty value, `ssdp:`, no value and two values are refused |
| Man.Decode | src/header/man.rs:15-32 | succeeds exactly on the one value `"ssdp:discover"`, quotes included |
| Man.Encode | src/header/man.rs:34-39 | always emits the quoted literal |
| Man.DecodeEncode | src/header/man.rs:34-39 | decode after encode is the identity |
| Man.DecodeRejects | src/header/man.rs:47-67 | the wrong case, the unquoted form, no value and two values are refused |
| Headers.FindFrom | src/header/mod.rs:62 | finds the first entry at or after k with the given name, or reports that there is none |
| Headers.Get | src/message/ssdp.rs:259 | `get` gives the first value stored under the name, and nothing exactly when there is none |
| Headers.FindUnique | src/header/mod.rs:62 | with distinct names, the entry that has the name is the one found |
| Headers.RemovedGetAll | src/header/mod.rs:62 | after `remove`, the name has no values, every other name keeps its values, and names stay distinct |
| Headers.TypedInsertedWellFormed | src/header/mod.rs:63 | a typed insert keeps the map well formed: distinct stored names, each holding a non-empty run of valid values |
| Headers.TypedInsertedGetAll | src/header/mod.rs:63 | after a typed insert of at least one value, the name holds exactly those values; every other name is unchanged |
| Headers.WithValuesGetAll | src/header/mod.rs:56-65 | after `set`, the name holds exactly the new values, and every other name keeps its values |
| Headers.WithValuesTwice | src/header/mod.rs:62-63 | setting twice under one name is the same as setting only the second time |
| Headers.WithValuesWellFormed | src/header/mod.rs:56-65 | `set` keeps the map well formed: distinct lower-case names and valid, non-empty values |
| Headers.InsertedWellFormed | src/message/ssdp.rs:319 | `insert` keeps the map well formed |
| Headers.HeaderMap.constructor | src/message/ssdp.rs:312 | a new map is empty |
| Headers.HeaderMap.Insert | src/message/ssdp.rs:319 | `insert` replaces every value under the name with the one value, in the name's place, or adds it at the end |
| Headers.HeaderMap.Remove | src/header/mod.rs:62 | `remove` returns the first old value and swap-removes the name's entry |
| Headers.HeaderMap.TypedInsert | src/header/mod.rs:63 | `typed_insert` puts the first encoded value in with `insert` and appends the others under the same name |
| Headers.HeaderMap.Set | src/header/mod.rs:56-65 | `set` is `remove` followed by `typed_insert`; the new entries are `WithValues` of the old ones |
| Typed.NameStored | src/header/mod.rs:62-63 | every typed header's name is a valid lower-case header name |
| Typed.Values | src/header/mod.rs:63 | every encodable typed header encodes to at most one valid value |
| Typed.DecodeValues | src/header/mod.rs:56-65 | each typed header decodes back from its own encoding under the per-header round-trip conditions |
| Typed.SetThenGet | src/header/mod.rs:56-65 | after `set(h)`, reading h's header back gives h, and every other name keeps its values |
| Typed.SetHeader | src/header/mod.rs:56-65 | sets a typed header in place: the new entries are `WithValues` of the old ones under its name and encoding |
| Packet.SaturatingSub | src/net/packet.rs:76 | `saturating_sub` is the difference when it is not negative, and zero otherwise |
| Packet.ConcatSnoc | src/net/packet.rs:82-100 | concatenating one more slice appends it to the concatenation |
| Packet.ConcatPrefixAt | src/net/packet.rs:82-100 | the slices before i plus a prefix of slice i are a prefix of the whole concatenation |
| Packet.ConcatSplit | src/net/packet.rs:82-100 | concatenation distributes over appending lists of slices |
| Packet.PacketBuffer.constructor | src/net/packet.rs:22-29 | a default buffer is empty with capacity 1500 |
| Packet.PacketBuffer.AsSlice | src/net/packet.rs:65-67 | `as_slice` returns exactly the stored bytes |
| Packet.PacketBuffer.Clear | src/net/packet.rs:69-71 | `clear` empties the buffer and keeps its capacity |
| Packet.PacketBuffer.Truncate | src/net/httpu.rs:30 | truncation keeps the first n bytes and the capacity |
| Packet.PacketBuffer.Write | src/net/packet.rs:75-80 | `write` appends the first min(|b|, free space) bytes of b and returns that count |
| Packet.PacketBuffer.WriteVectored | src/net/packet.rs:82-100 | `write_vectored` appends the prefix of the concatenated slices that fits and returns its length |
| Packet.PacketBuffer.WriteAll | src/net/httpu.rs:35 | `write_all` succeeds exactly when the bytes fit; otherwise it writes what fits and fails with an I/O error |
| Packet.PacketBuffer.Flush | src/net/packet.rs:102-104 | `flush` changes nothing and always succeeds |
| Httpu.NewRequest | src/net/httpu.rs:21-27 | a new request is a NOTIFY over the given headers, without a body |
| Httpu.LinesSplit | src/net/httpu.rs:33-37 | the header lines of two runs of items are the lines of each, concatenated |
| Httpu.LineBetween | src/net/httpu.rs:33-37 | an item's line sits between the lines of the items before it and those after it |
| Httpu.RenderingFrame | src/net/httpu.rs:31-38 | a rendering opens with the request line and the Host line and ends with CRLF |
| Httpu.RenderingLine | src/net/httpu.rs:33-37 | header line i sits right after the opening lines and the lines of the items before it |
| Httpu.EmptyRendering | src/net/httpu.rs:21-38 | a request without headers renders as the request line, the Host line and the empty line |
| Httpu.Emit | src/net/httpu.rs:31-32 | one formatted write succeeds exactly when it fits; on failure the buffer is the full text cut at the cap |
| Httpu.EmitLine | src/net/httpu.rs:34-36 | one header line, written in three pieces, has the same outcome as writing the line at once |
| Httpu.EmitHead | src/net/httpu.rs:31-32 | the request line and the Host line have the same outcome as writing them at once |
| Httpu.EmitLines | src/net/httpu.rs:33-37 | the header loop has the same outcome as writing all header lines at once |
| Httpu.Serialize | src/net/httpu.rs:29-40 | the buffer ends up as the rendering cut at the capacity; success exactly when the rendering fits, otherwise an I/O error |
| Message.DefaultConfig | src/message/mod.rs:81-91 | the default is 239.255.255.250, FF05::C, port 1900, TTL 2 and mode Any |
| Message.SettersChangeOneField | src/message/mod.rs:55-78 | each setter changes its own field and leaves the other four unchanged |
| Message.SettersBuild | src/message/mod.rs:55-78 | applying all five setters yields exactly the chosen configuration |
| Message.UniqueLocalIsPrefix | src/message/mod.rs:153 | unique-local means the first segment lies in [0xfc00, 0xfe00), that is fc00::/7 |
| Message.NotGlobalV6Exactly | src/message/mod.rs:144-165 | "not global" holds exactly for `::`, `::1`, fc00::/7 and 2002::/16 |
| Message.NotGlobalV6Vectors | src/message/mod.rs:144-165 | link-local fe80::1 and documentation 2001:db8::1 are global; fd00::1 and 2002:c000:204::1 are not |
| Message.InterfaceAddrs | src/message/mod.rs:178-184 | an interface lists its IPv4 addresses and then its IPv6 addresses, each tagged with its index |
| Message.LocalAddrsMembers | src/message/mod.rs:170-186 | an address is listed exactly when some interface lists it |
| Message.LocalAddrsSnoc | src/message/mod.rs:178-185 | the listing keeps interface order: one more interface appends its addresses |
| Message.LoopbackV6Dropped | src/message/mod.rs:128-151 | `::1` counts as not global, yet it never passes the filter |
| Message.FilteredMembers | src/message/mod.rs:121-134 | an address passes exactly when it is IPv4 and not loopback, or IPv6, not loopback and not global |
| Message.CollectOk | src/message/mod.rs:117-137 | the loop succeeds exactly when the callback succeeds on every address it is given |
| Message.CollectFirstError | src/message/mod.rs:123-129 | a failure is the callback's error on one of the addresses |
| Message.CollectKeeps | src/message/mod.rs:123-131 | only `Some` results are kept, each from some address, and no more of them than addresses |
| Message.CollectInOrder | src/message/mod.rs:123-131 | the kept results are the callback's `Some` values at strictly increasing address positions, so they follow address order |
| Message.PrependAllSnoc | src/message/mod.rs:124 | pushing one more item onto the kept list matches prepending it to the rest of the result |
| Message.MapLocal | src/message/mod.rs:111-138 | the loop over the local addresses returns exactly `MapLocalResult` of the filtered addresses |
| Message.ConnectFilter | src/message/mod.rs:96-105 | the mode admits IPv4 under V4Only and Any, and IPv6 under V6Only and Any; any other address gives no connector |
| Message.AllLocalConnectors | src/message/mod.rs:94-106 | the connectors are `map_local` with the mode-filtered bind as callback |
| Ssdp.IsComplete | src/message/ssdp.rs:169-174 | a complete parse gives its length, and a partial one PartialHttp |
| Ssdp.ParseHead | src/message/ssdp.rs:186-196 | the 32-header parse decides: complete gives its consumed length and head, partial gives PartialHttp, invalid gives InvalidHttp; on too many headers the 4096-header parse decides the same way, except that overflowing again gives InvalidHttp |
| Ssdp.ValidateHttpVersion | src/message/ssdp.rs:302-308 | accepts exactly minor version 1, and otherwise fails with InvalidHttpVersion |
| Ssdp.ValidateResponseCode | src/message/ssdp.rs:326-332 | accepts exactly status 200, and otherwise fails with ResponseCode(code) |
| Ssdp.LowerStored | src/message/ssdp.rs:315 | a valid header name, lower-cased, is a stored name |
| Ssdp.CollectOk | src/message/ssdp.rs:311-323 | collection succeeds exactly when every name and value is valid |
| Ssdp.CollectFirstInvalid | src/message/ssdp.rs:315-318 | a failure is InvalidHeader naming a header whose name or value is invalid |
| Ssdp.CollectWellFormed | src/message/ssdp.rs:311-323 | a collected map is well formed |
| Ssdp.CollectLastWins | src/message/ssdp.rs:319 | each name holds only its last value, because a later duplicate replaces an earlier one |
| Ssdp.CollectErrorStays | src/message/ssdp.rs:314-320 | once a prefix of the headers fails, the whole list fails with the same error |
| Ssdp.ValidateHttpHeaders | src/message/ssdp.rs:311-323 | the insertion loop into a fresh map computes exactly `CollectHeaders` |
| Ssdp.RequestOutcome | src/message/ssdp.rs:253-281 | a bad version is InvalidHttpVersion; then a header failure is its own error, a missing Host is MissingHeader, a path other than `*` is InvalidUri, and a method other than NOTIFY or M-SEARCH is InvalidMethod; success gives Notify for NOTIFY, Search for M-SEARCH, and the collected headers |
| Ssdp.ResponseOutcome | src/message/ssdp.rs:284-295 | a bad version is InvalidHttpVersion, then a status other than 200 is ResponseCode, then a header failure is its own error; success always has kind Response and the collected headers |
| Ssdp.FromPacketPaths | src/message/ssdp.rs:176-210 | input starting with `HTTP/1` takes the response path and all other input the request path: after the header-capacity retry, a parse error passes through and a parse that ends at the input's end gives that path's outcome |
| Ssdp.RequestPrecedence | src/message/ssdp.rs:210-240 | an incomplete parse, then a header end past the input, then a body naming the method, win over every check on the head |
| Ssdp.ResponsePrecedence | src/message/ssdp.rs:182-209 | a partial parse, then a header end past the input (PartialHttp), then a body naming M-SEARCH, win; a success always has kind Response |
| Ssdp.CollectOne | src/message/ssdp.rs:311-323 | one valid header collects into one entry under its lower-cased name |
| Ssdp.HostCollected | src/message/ssdp.rs:484-497 | `HOST: 192.168.1.1` collects to `host` with that value |
| Ssdp.RequestAccepted | src/message/ssdp.rs:484-497 | NOTIFY and M-SEARCH to `*` with a Host header decode to Notify and Search |
| Ssdp.RequestRejected | src/message/ssdp.rs:254-280 | minor version 0, a missing Host (checked before the path), a path other than `*` and a method `GET` fail with those errors |
| Ssdp.KindChecked | src/message/search.rs:99-108 | a wrapper accepts exactly a decode of its own kind, passes decode errors through unchanged, and refuses any other kind with InvalidMethod |
| Ssdp.SsdpMessage.constructor | src/message/ssdp.rs:32-37 | a new message has the given kind and an empty header map |
| Ssdp.SsdpMessage.MessageTypeOf | src/message/ssdp.rs:40-42 | returns the message's kind |
| Ssdp.SsdpMessage.Set | src/message/ssdp.rs:156-163 | `set` on a message updates its header map in place |
| Ssdp.MessageFromRequest | src/message/ssdp.rs:253-281 | builds a fresh message exactly when `RequestOutcome` succeeds, with its kind and headers; otherwise returns its error |
| Ssdp.MessageFromResponse | src/message/ssdp.rs:284-295 | builds a fresh message exactly when `ResponseOutcome` succeeds; otherwise returns its error |
| Ssdp.FromPacket | src/message/ssdp.rs:166-241 | succeeds exactly when `FromPacketResult` does, with its error on failure |
| Search.MulticastTimeout | src/message/search.rs:84-89 | with MX n the timeout is n + 1 seconds, and without MX it is MissingHeader |
| Search.OptUnicastTimeout | src/message/search.rs:92-97 | never absent: n + 1 seconds with MX n, and 2 seconds without |
| Search.TimeoutsOfMap | src/message/search.rs:84-97 | an MX read from a map never overflows the one-second addition, and both timeouts then agree at 2 to 121 seconds |
| Search.FirstError | src/message/search.rs:50-52 | finds the first failing send, or reports that all succeeded |
| Search.FirstErrorAt | src/message/search.rs:50-52 | a failure after only successes is the first error |
| Search.CountOkZero | src/message/search.rs:143-158 | the success count is at most the number of sends, and zero exactly when every send failed |
| Search.SearchRequest.constructor | src/message/search.rs:34-38 | a new search request has kind Search and no headers |
| Search.SearchRequest.Set | src/message/search.rs:111-118 | `set` updates the wrapped message's headers only |
| Search.SearchRequest.Unicast | src/message/search.rs:45-60 | stops at the first failing send and returns its error; otherwise returns the unicast timeout after all sends |
| Search.SearchRequestFromPacket | src/message/search.rs:99-108 | wraps a decoded message exactly when it is a Search; decode errors pass through and other kinds fail with InvalidMethod |
| Search.SearchResponse.constructor | src/message/search.rs:127-132 | a new search response has kind Response and no headers |
| Search.SearchResponse.Set | src/message/search.rs:187-194 | `set` updates the wrapped message's headers only |
| Search.SearchResponse.Unicast | src/message/search.rs:139-159 | fails exactly when at least one send was made and none succeeded, so no interfaces means success |
| Search.SearchResponseFromPacket | src/message/search.rs:175-185 | wraps a decoded message exactly when it is a Response; otherwise the error from the decode or InvalidMethod |
| Search.SearchResponseIsResponse | src/message/search.rs:99-185 | a search response comes only from the response path and a search request only from the request path |
| Notify.NotifyMessage.constructor | src/message/notify.rs:20-24 | a new notify message has kind Notify and no headers |
| Notify.NotifyMessage.Set | src/message/notify.rs:54-61 | `set` updates the wrapped message's headers only |
| Notify.NotifyFromPacket | src/message/notify.rs:42-52 | wraps a decoded message exactly when it is a Notify; decode errors pass through and other kinds fail with InvalidMethod |
| Notify.NotifyKinds | src/message/notify.rs:75-96 | a NOTIFY with Host is accepted; an M-SEARCH and a `200` response are refused with InvalidMethod |

## Left out

- **Sending** (src/message/ssdp.rs:52-154): `SSDPMessage::send`, `send_request`,
  `send_response` and `url_from_addr`. Their write calls are commented out, and
  they depend on the url crate and on sockets. `Httpu.Serialize` models the
  bytes the crate produces.
- **The HTTP/1 parser (httparse).** It is foreign code, so it is a function
  parameter from the input and a header capacity to a parse status. The header
  storage it fills, and the reassignment of `request`/`response` to the fallback
  storage, are not modelled. Only the 32 → 4096 capacity retry is.
- **`HeaderName::from_bytes` and `HeaderValue::from_bytes`.** These are the
  token and field-value grammar of section 3.2 of RFC 7230. The http crate's
  64 KiB name-length limit is not modelled.
- **`src/field.rs` is not part of this model.** `FieldMap` parsing and rendering
  are fixed only by the NT, ST and USN test vectors. Its `Display` is modelled as
  `key:value`, with the lower-case prefixes as keys.
- **Sockets and OS interfaces.** This covers src/net/connector.rs,
  src/net/sender.rs, src/message/listen.rs and `PacketReceiver::recv_pckt`.
  They are I/O. `Connect` takes the binding of a UDP connector as a function
  parameter.
- **`netdev::get_interfaces`.** It reads the OS, so the interface list is an
  input.
- **The receiver and multicast sending.** These are `crate::receiver` and
  `multicast_with_config`. They are not part of this model: they are concurrent
  socket draining and I/O.
- **`src/header/securelocation.rs`.** It is not compiled into the crate.
- **`src/error.rs`.** The error datatype is defined by the variants the
  modelled code builds, and error messages are not modelled.
- **Case of `FieldMap` prefix keys.** They are matched as exact lower-case
  `uuid`/`upnp`/`urn`; case-insensitive matching is not modelled.
- **The second field of `InvalidHeader`.** It carries only the name, as its
  call sites build it (src/message/ssdp.rs:316, src/header/mx.rs:25); the
  two-field declaration at src/error.rs:51 is not followed.
- **Logging** (`log_message_result`, `trace!`, `debug!`). So are the
  `src/lib.rs` re-exports and `examples/debug_ssdp.rs`.
- **The `Response` struct of src/net/httpu.rs.** It has no serializer in the
  source.
- **`Duration`.** Timeouts are whole seconds as naturals, and no clock is
  modelled.
- **`set` through `&mut T`** (src/header/mod.rs:44-54). Dafny objects are
  references, so setting through a reference is the same method call as setting
  on the object. It has no member of its own.
- **The `FnMut` callbacks** of `map_local` and `all_local_connectors`. They are
  pure functions from an address to an outcome. Effects the callback has
  between calls are not modelled.
- **Sends in the two `unicast` methods.** A send failure comes from the network,
  so the outcome of each send is given as a sequence of inputs. Building the
  connectors and resolving the destination address are not modelled.
- St.Encode: requires an encodable target. For any other target the source
  panics through `unwrap`, and that path is not modelled.
- Nt.Encode: models the release build, where a rendering that is not a valid
  header value emits no value. With debug assertions on, the source panics
  there through `debug_assert!`; that panic is not modelled.
- Usn.Encode: models the release build in the same way; the `debug_assert!`
  panic of a build with debug assertions is not modelled.
- Search.MulticastTimeout: requires that MX plus one fits in `u8`. The source
  would overflow there. `Search.TimeoutsOfMap` proves that a decoded MX always
  meets the requirement.
- Search.OptUnicastTimeout: requires the same `u8` bound as `MulticastTimeout`.
- Search.SearchRequest.Unicast: requires the same bound on the request's own MX
  header.
- Message.ConnectFilter: does not model `UdpConnector::new`. A bind is an input
  function, and its error is returned unchanged.
