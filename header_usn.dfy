/**
 * The USN header (`usn`): one or two fields separated by the first `::`.
 */
module Usn {
  import opened Wrappers
  import opened Octets
  import opened Field

  const NAME: Bytes := "usn"

  /** Separator between the two fields of a USN value. */
  const FIELD_PAIR_SEPARATOR: Bytes := "::"

  datatype Usn = Usn(first: FieldMap, second: Option<FieldMap>)

  /**
   * Whether the octet at k completes a `::` pair as the partitioner sees it:
   * it compares each octet with the one before, and the first octet with
   * itself, so a leading colon counts as a pair.
   */
  predicate ClosesPair(s: Bytes, k: nat)
    requires k < |s|
  {
    s[k] == PAIR_SEPARATOR && (k == 0 || s[k - 1] == PAIR_SEPARATOR)
  }

  /** The least index at or after k that completes a pair. */
  function PairEndFrom(s: Bytes, k: nat): (r: Option<nat>)
    requires k <= |s|
    ensures r.Some? ==> k <= r.value < |s| && ClosesPair(s, r.value)
    ensures r.Some? ==> forall j :: k <= j < r.value ==> !ClosesPair(s, j)
    ensures r.None? ==> forall j :: k <= j < |s| ==> !ClosesPair(s, j)
    decreases |s| - k
  {
    if k == |s| then None
    else if ClosesPair(s, k) then Some(k)
    else PairEndFrom(s, k + 1)
  }

  /** The index of the octet that completes the first pair of s. */
  function PairEnd(s: Bytes): Option<nat> {
    PairEndFrom(s, 0)
  }

  /** Removes one trailing colon, if there is one. */
  function DropColon(b: Bytes): (r: Bytes)
    ensures if b != [] && b[|b| - 1] == PAIR_SEPARATOR then r == b[..|b| - 1] else r == b
  {
    if b != [] && b[|b| - 1] == PAIR_SEPARATOR then b[..|b| - 1] else b
  }

  /** b after n rounds of removing a trailing colon. */
  function Strip(b: Bytes, n: nat): (r: Bytes)
    ensures |b| - n <= |r| <= |b| && r == b[..|r|]
  {
    if n == 0 then b else DropColon(Strip(b, n - 1))
  }

  /**
   * What `partition_pairs` computes: everything through the first pair,
   * with up to two trailing colons removed, and everything after it. No
   * result when the first part ends up empty; no second part when nothing
   * follows the pair.
   */
  function Partition(s: Bytes): Option<(Bytes, Option<Bytes>)> {
    if s == [] then None
    else
      var end := PairEnd(s);
      var first := if end.Some? then s[..end.value + 1] else s;
      var second := if end.Some? then s[end.value + 1..] else [];
      var head := Strip(first, 2);
      if head == [] then None
      else if second == [] then Some((head, None))
      else Some((head, Some(second)))
  }

  /**
   * `partition_pairs`: the octets go, one at a time, to the first part until
   * one completes a pair and to the second part after that; then up to two
   * trailing colons come off the first part.
   */
  method PartitionPairs(s: Bytes) returns (r: Option<(Bytes, Option<Bytes>)>)
    ensures r == Partition(s)
  {
    if |s| == 0 {
      return None;
    }
    var first, second := SplitAtPair(s);
    first := StripColons(first);
    if first == [] {
      r := None;
    } else if second == [] {
      r := Some((first, None));
    } else {
      r := Some((first, Some(second)));
    }
  }

  /** The partitioning closure: every octet through the first pair goes to the first part. */
  method SplitAtPair(s: Bytes) returns (first: Bytes, second: Bytes)
    requires s != []
    ensures first == if PairEnd(s).Some? then s[..PairEnd(s).value + 1] else s
    ensures second == if PairEnd(s).Some? then s[PairEnd(s).value + 1..] else []
  {
    ghost var end := PairEnd(s);
    var secondPartition := false;
    var lastByte := s[0];
    first, second := [], [];
    var i := 0;
    while i < |s|
      invariant 0 <= i <= |s|
      invariant secondPartition <==> end.Some? && end.value < i
      invariant secondPartition ==> first == s[..end.value + 1] && second == s[end.value + 1..i]
      invariant !secondPartition ==> first == s[..i] && second == []
      invariant !secondPartition ==> lastByte == if i == 0 then s[0] else s[i - 1]
    {
      var n := s[i];
      if secondPartition {
        second := second + [n];
      } else {
        secondPartition := [lastByte, n] == FIELD_PAIR_SEPARATOR;
        assert secondPartition <==> ClosesPair(s, i);
        lastByte := n;
        first := first + [n];
      }
      i := i + 1;
    }
    assert s[..|s|] == s;
  }

  /** The loop that pops a trailing colon off the first part, twice. */
  method StripColons(whole: Bytes) returns (first: Bytes)
    ensures first == Strip(whole, 2)
  {
    first := whole;
    var k := 0;
    while k < 2
      invariant 0 <= k <= 2 && first == Strip(whole, k)
    {
      if |first| > 0 && first[|first| - 1] == PAIR_SEPARATOR {
        first := first[..|first| - 1];
      }
      k := k + 1;
    }
  }

  /** A leading colon completes a pair at once, and nothing is left of the first part. */
  lemma PartitionLeadingColon(s: Bytes)
    requires |s| > 0 && s[0] == PAIR_SEPARATOR
    ensures Partition(s) == None
  {
    assert ClosesPair(s, 0);
    assert s[..1] == [PAIR_SEPARATOR];
  }

  /** With a pair at p, the parts are what precedes the `::` and what follows it. */
  lemma PartitionAtPair(s: Bytes, p: nat)
    requires PairEnd(s) == Some(p)
    ensures p != 1
    ensures Partition(s) ==
            if p == 0 then None
            else Some((s[..p - 1], if p + 1 == |s| then None else Some(s[p + 1..])))
  {
    if p == 0 {
      PartitionLeadingColon(s);
    } else {
      assert !ClosesPair(s, 0);
      assert p != 1;
      var first := s[..p + 1];
      assert Strip(first, 1) == s[..p];
      assert Strip(first, 2) == s[..p - 1];
    }
  }

  /** Without a pair, the first part is the whole value less one trailing colon. */
  lemma PartitionNoPair(s: Bytes)
    requires |s| > 0 && PairEnd(s) == None
    ensures Partition(s) == Some((DropColon(s), None))
  {
    assert !ClosesPair(s, 0);
    assert Strip(s, 1) == DropColon(s);
    if |s| > 1 && s[|s| - 1] == PAIR_SEPARATOR {
      assert !ClosesPair(s, |s| - 1);
      assert DropColon(s)[|s| - 2] != PAIR_SEPARATOR;
    }
    assert Strip(s, 2) == DropColon(s);
  }

  /** The first part a value partitions into starts and ends with no colon and holds no pair. */
  lemma PartitionHead(s: Bytes)
    requires Partition(s).Some?
    ensures var head := Partition(s).value.0;
      && head != [] && s[..|head|] == head
      && head[0] != PAIR_SEPARATOR && head[|head| - 1] != PAIR_SEPARATOR
      && !HasPairSeparator(head)
  {
    var head := Partition(s).value.0;
    assert !ClosesPair(s, 0);
    match PairEnd(s)
    case Some(p) =>
      PartitionAtPair(s, p);
      assert head == s[..p - 1];
      assert !ClosesPair(s, p - 1);
      forall i | 1 <= i < |head|
        ensures !(head[i - 1] == PAIR_SEPARATOR && head[i] == PAIR_SEPARATOR)
      {
        assert !ClosesPair(s, i);
      }
    case None =>
      PartitionNoPair(s);
      if |s| > 1 {
        assert !ClosesPair(s, |s| - 1);
      }
      forall i | 1 <= i < |head|
        ensures !(head[i - 1] == PAIR_SEPARATOR && head[i] == PAIR_SEPARATOR)
      {
        assert !ClosesPair(s, i);
      }
  }

  /**
   * Joining a first part (no pair, no colon at either end) and a tail with
   * `::` partitions back into the two.
   */
  lemma PartitionJoin(a: Bytes, b: Bytes)
    requires a != [] && a[0] != PAIR_SEPARATOR && a[|a| - 1] != PAIR_SEPARATOR
    requires !HasPairSeparator(a)
    ensures Partition(a + FIELD_PAIR_SEPARATOR + b) == Some((a, if b == [] then None else Some(b)))
    ensures Partition(a) == Some((a, None))
  {
    var s := a + FIELD_PAIR_SEPARATOR + b;
    assert !ClosesPair(s, 0);
    forall j | 1 <= j <= |a|
      ensures !ClosesPair(s, j)
    {
      if j < |a| {
        assert !(a[j - 1] == PAIR_SEPARATOR && a[j] == PAIR_SEPARATOR);
      }
    }
    assert ClosesPair(s, |a| + 1);
    assert PairEnd(s) == Some(|a| + 1);
    PartitionAtPair(s, |a| + 1);
    assert s[..|a|] == a && s[|a| + 2..] == b;
    assert !ClosesPair(a, 0);
    forall j | 1 <= j < |a|
      ensures !ClosesPair(a, j)
    {
      assert !(a[j - 1] == PAIR_SEPARATOR && a[j] == PAIR_SEPARATOR);
    }
    PartitionNoPair(a);
  }

  /**
   * `USN::decode`: exactly one value, which partitions; the first part must
   * parse as a field, the second may fail to and is then dropped.
   */
  function Decode(values: seq<Bytes>): (r: Option<Usn>)
    ensures |values| != 1 ==> r == None
  {
    if |values| != 1 then None
    else match Partition(values[0])
      case None => None
      case Some((n, u)) =>
        match Parse(n)
        case None => None
        case Some(f) => Some(Usn(f, if u.Some? then Parse(u.value) else None))
  }

  /**
   * A decoded USN renders back to the parts of its value: the first field to
   * the first part, the second (when kept) to the second part.
   */
  lemma DecodeFields(values: seq<Bytes>)
    requires Decode(values).Some?
    ensures Partition(values[0]).Some?
    ensures var u, parts := Decode(values).value, Partition(values[0]).value;
      && WellFormed(u.first) && Render(u.first) == parts.0
      && (u.second.Some? ==> parts.1.Some? && WellFormed(u.second.value) && Render(u.second.value) == parts.1.value)
  {
    var parts := Partition(values[0]).value;
    RenderParse(parts.0);
    if parts.1.Some? && Parse(parts.1.value).Some? {
      RenderParse(parts.1.value);
    }
  }

  /** The text a USN renders to: the first field, then `::` and the second when there is one. */
  function Text(u: Usn): Bytes {
    Render(u.first) + if u.second.Some? then FIELD_PAIR_SEPARATOR + Render(u.second.value) else []
  }

  /** `USN::encode`: one value, or none when the text is not a valid header value. */
  function Encode(u: Usn): (r: seq<Bytes>)
    ensures |r| <= 1
    ensures |r| == 1 <==> ValidHeaderValue(Text(u))
    ensures |r| == 1 ==> r[0] == Text(u)
  {
    if ValidHeaderValue(Text(u)) then [Text(u)] else []
  }

  /** A field's rendering starts with its key, which is never a colon. */
  lemma RenderStart(f: FieldMap)
    requires WellFormed(f)
    ensures Render(f)[0] != PAIR_SEPARATOR
  {
    assert Render(f)[0] == Key(f)[0];
  }

  /** Decode unfolded at a single value; a helper for the lemmas below. */
  lemma DecodeOne(t: Bytes)
    ensures Decode([t]) ==
            match Partition(t)
            case None => None
            case Some((n, u)) =>
              if Parse(n).None? then None
              else Some(Usn(Parse(n).value, if u.Some? then Parse(u.value) else None))
  {
  }

  /**
   * Encoding and decoding gives the value back when both fields are well
   * formed, the first field's rendering holds no `::` and does not end in a
   * colon, and the text is a valid header value.
   */
  lemma DecodeEncode(u: Usn)
    requires WellFormed(u.first) && (u.second.Some? ==> WellFormed(u.second.value))
    requires !HasPairSeparator(Render(u.first)) && Render(u.first)[|Render(u.first)| - 1] != PAIR_SEPARATOR
    requires ValidHeaderValue(Text(u))
    ensures Decode(Encode(u)) == Some(u)
  {
    var a, t := Render(u.first), Text(u);
    RenderStart(u.first);
    ParseRender(u.first);
    assert Encode(u) == [t];
    DecodeOne(t);
    if u.second.Some? {
      var b := Render(u.second.value);
      ParseRender(u.second.value);
      PartitionJoin(a, b);
      assert t == a + FIELD_PAIR_SEPARATOR + b;
      assert Partition(t) == Some((a, Some(b)));
    } else {
      assert t == a;
      PartitionJoin(a, []);
      assert Partition(t) == Some((a, None));
    }
  }

  // Values of the source's tests; each is written as its fields joined by
  // the separators, which denotes the same octets as the single literal.

  /** A field text with no pair in it and no colon at either end. */
  predicate PlainField(a: Bytes) {
    a != [] && a[0] != PAIR_SEPARATOR && a[|a| - 1] != PAIR_SEPARATOR && !HasPairSeparator(a)
  }

  /** A key and a value without colons join to a plain field text. */
  lemma PlainJoin(key: Bytes, value: Bytes)
    requires key != [] && value != [] && PAIR_SEPARATOR !in key && PAIR_SEPARATOR !in value
    ensures PlainField(key + [PAIR_SEPARATOR] + value)
    ensures Parse(key + [PAIR_SEPARATOR] + value) == Some(Classify(key, value))
  {
    var a := key + [PAIR_SEPARATOR] + value;
    ParseJoin(key, value);
    assert a[|a| - 1] == value[|value| - 1];
    forall i | 1 <= i < |a|
      ensures !(a[i - 1] == PAIR_SEPARATOR && a[i] == PAIR_SEPARATOR)
    {
      if i <= |key| {
        assert a[i - 1] == key[i - 1];
      } else {
        assert a[i] == value[i - 1 - |key|];
      }
    }
  }

  /**
   * A plain first field, `::`, and any tail decode to the first field and
   * the tail's parse: a tail that is not a field leaves no second field.
   */
  lemma DecodeTwo(a: Bytes, b: Bytes)
    requires PlainField(a) && Parse(a).Some?
    ensures Decode([a + FIELD_PAIR_SEPARATOR + b]) == Some(Usn(Parse(a).value, Parse(b)))
  {
    PartitionJoin(a, b);
    DecodeOne(a + FIELD_PAIR_SEPARATOR + b);
  }

  const PAYLOAD_A: Bytes := "a"
  const TAIL_B: Bytes := "b"

  /** A second part that is not a field is dropped; the first field stays. */
  lemma DecodeDropsSecond()
    ensures Decode([UUID_KEY + ":" + PAYLOAD_A + "::" + TAIL_B]) == Some(Usn(UUID(PAYLOAD_A), None))
  {
    PlainJoin(UUID_KEY, PAYLOAD_A);
    var b := TAIL_B;
    assert forall j :: 0 <= j < |b| ==> b[j] != PAIR_SEPARATOR;
    DecodeTwo(UUID_KEY + ":" + PAYLOAD_A, TAIL_B);
  }

  /** A plain field alone decodes to that field and no second one. */
  lemma DecodeSingle(a: Bytes, tail: Bytes)
    requires PlainField(a) && Parse(a).Some? && (tail == [] || tail == FIELD_PAIR_SEPARATOR)
    ensures Decode([a + tail]) == Some(Usn(Parse(a).value, None))
  {
    PartitionJoin(a, []);
    assert a + FIELD_PAIR_SEPARATOR + [] == a + FIELD_PAIR_SEPARATOR;
    if tail == [] {
      assert a + tail == a;
    }
    DecodeOne(a + tail);
  }

  lemma DecodeDoublePair()
    ensures Decode([("uuid" + ":" + "device-UUID") + "::" + ("upnp" + ":" + "rootdevice")]) ==
            Some(Usn(UUID("device-UUID"), Some(UPnP("rootdevice"))))
  {
    PlainJoin("uuid", "device-UUID");
    ParseJoin("upnp", "rootdevice");
    DecodeTwo("uuid" + ":" + "device-UUID", "upnp" + ":" + "rootdevice");
  }

  lemma DecodeSinglePair()
    ensures Decode(["urn" + ":" + "device-URN"]) == Some(Usn(URN("device-URN"), None))
  {
    PlainJoin("urn", "device-URN");
    DecodeSingle("urn" + ":" + "device-URN", []);
    assert "urn" + ":" + "device-URN" + [] == "urn" + ":" + "device-URN";
  }

  lemma DecodeTrailingDoubleColon()
    ensures Decode(["upnp" + ":" + "device-UPnP" + "::"]) == Some(Usn(UPnP("device-UPnP"), None))
  {
    PlainJoin("upnp", "device-UPnP");
    DecodeSingle("upnp" + ":" + "device-UPnP", "::");
  }

  /** A single trailing colon is not a pair; it is removed from the only field. */
  lemma DecodeTrailingColon(a: Bytes)
    requires PlainField(a) && Parse(a).Some?
    ensures Decode([a + [PAIR_SEPARATOR]]) == Some(Usn(Parse(a).value, None))
  {
    var s := a + [PAIR_SEPARATOR];
    assert !ClosesPair(s, 0);
    forall j | 1 <= j < |s|
      ensures !ClosesPair(s, j)
    {
      if j < |a| {
        assert !(a[j - 1] == PAIR_SEPARATOR && a[j] == PAIR_SEPARATOR);
      }
    }
    PartitionNoPair(s);
    assert DropColon(s) == a;
    DecodeOne(s);
  }

  const SOME_KEY: Bytes := "some-key"
  const DEVICE_UPNP: Bytes := "device-UPnP"

  lemma DecodeTrailingSingleColon()
    ensures Decode([SOME_KEY + ":" + DEVICE_UPNP + ":"]) == Some(Usn(Unknown(SOME_KEY, DEVICE_UPNP), None))
  {
    assert SOME_KEY != UUID_KEY && SOME_KEY != UPNP_KEY && SOME_KEY != URN_KEY;
    PlainJoin(SOME_KEY, DEVICE_UPNP);
    DecodeTrailingColon(SOME_KEY + ":" + DEVICE_UPNP);
  }

  /** No value, and the empty value, are refused. */
  lemma DecodeRejectsEmpty()
    ensures Decode([]) == None && Decode([""]) == None
  {
  }

  /** A value of colons alone has an empty first part and is refused. */
  lemma DecodeRejectsColons()
    ensures Decode([":"]) == None && Decode(["::"]) == None
  {
    PartitionLeadingColon(":");
    PartitionLeadingColon("::");
    DecodeOne(":");
    DecodeOne("::");
  }

  /** A key followed by colons only is a first field without a value. */
  lemma DecodeRejectsKeyOnly()
    ensures Decode([UUID_KEY + "::" + ":"]) == None
  {
    var k := UUID_KEY;
    assert forall j :: 0 <= j < |k| ==> k[j] != PAIR_SEPARATOR;
    assert !HasPairSeparator(k);
    PartitionJoin(k, ":");
    DecodeOne(k + "::" + ":");
  }
}
