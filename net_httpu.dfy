/**
 * The HTTPU request serializer: an SSDP request rendered as HTTP/1.1 message
 * text (section 3 of RFC 7230) into a capped packet buffer.
 */
module Httpu {
  import opened Wrappers
  import opened Octets
  import opened Errors
  import opened Headers
  import opened Packet

  const NOTIFY_METHOD: Bytes := "NOTIFY"

  /** The request-line text after the method. */
  const REQUEST_LINE_TAIL: Bytes := " * HTTP/1.1\r\n"

  /** The fixed Host line: the IPv4 multicast group and the SSDP port. */
  const HOST_LINE: Bytes := "HOST: 239.255.255.250:1900\r\n"

  const NAME_SEPARATOR: Bytes := ": "
  const CRLF: Bytes := "\r\n"

  /** A request to serialize: its method, the headers it borrows, and a body it never writes. */
  datatype Request = Request(verb: Bytes, headers: seq<Entry>, body: Option<Bytes>)

  /** `Request::new`: a NOTIFY request over the given headers, without a body. */
  function NewRequest(headers: seq<Entry>): (r: Request)
    ensures r.verb == NOTIFY_METHOD && r.headers == headers && r.body == None
  {
    Request(NOTIFY_METHOD, headers, None)
  }

  /** One header line: the name upper-cased, `: `, the value, CRLF. */
  function Line(item: (Bytes, Bytes)): Bytes {
    Upper(item.0) + NAME_SEPARATOR + item.1 + CRLF
  }

  function Lines(items: seq<(Bytes, Bytes)>): Bytes {
    if items == [] then [] else Line(items[0]) + Lines(items[1..])
  }

  /** The full text of a request: request line, Host line, header lines, empty line. */
  function Rendering(req: Request): Bytes {
    req.verb + REQUEST_LINE_TAIL + HOST_LINE + Lines(Items(req.headers)) + CRLF
  }

  /** The header lines of a run of items split at any point. */
  lemma {:induction false} LinesSplit(a: seq<(Bytes, Bytes)>, b: seq<(Bytes, Bytes)>)
    ensures Lines(a + b) == Lines(a) + Lines(b)
  {
    if a == [] {
      assert a + b == b;
    } else {
      assert (a + b)[1..] == a[1..] + b;
      LinesSplit(a[1..], b);
    }
  }

  /** An item's line sits between the lines of the items before it and those after it. */
  lemma LineBetween(a: seq<(Bytes, Bytes)>, x: (Bytes, Bytes), b: seq<(Bytes, Bytes)>)
    ensures Lines(a + [x] + b) == Lines(a) + Line(x) + Lines(b)
  {
    LinesSplit(a + [x], b);
    LinesSplit(a, [x]);
    assert [x][1..] == [];
  }

  /**
   * The frame of a rendering: it opens with the request line and the Host
   * line and closes with the empty line.
   */
  lemma RenderingFrame(req: Request)
    ensures StartsWith(Rendering(req), req.verb + REQUEST_LINE_TAIL + HOST_LINE)
    ensures |Rendering(req)| >= 2 && Rendering(req)[|Rendering(req)| - 2..] == CRLF
  {
    var head := req.verb + REQUEST_LINE_TAIL + HOST_LINE;
    var text := Rendering(req);
    assert text == head + (Lines(Items(req.headers)) + CRLF);
    assert text[..|head|] == head;
    assert text[|text| - 2..] == CRLF;
  }

  /**
   * Header line i of a rendering sits right after the frame's opening and
   * the lines of the items before it, in iteration order of the map.
   */
  lemma RenderingLine(req: Request, i: nat)
    requires i < |Items(req.headers)|
    ensures var head, items := req.verb + REQUEST_LINE_TAIL + HOST_LINE, Items(req.headers);
            var at := |head| + |Lines(items[..i])|;
            at + |Line(items[i])| <= |Rendering(req)| && Rendering(req)[at..at + |Line(items[i])|] == Line(items[i])
  {
    var head, items := req.verb + REQUEST_LINE_TAIL + HOST_LINE, Items(req.headers);
    assert items == items[..i] + [items[i]] + items[i + 1..];
    LineBetween(items[..i], items[i], items[i + 1..]);
    var before, line := Lines(items[..i]), Line(items[i]);
    var after := Lines(items[i + 1..]) + CRLF;
    Regroup5(head, before, line, Lines(items[i + 1..]), CRLF);
    SliceMiddle(head + before, line, after);
  }

  /** Five joined pieces, regrouped around the middle one. */
  lemma Regroup5(a: Bytes, b: Bytes, c: Bytes, d: Bytes, e: Bytes)
    ensures a + (b + c + d) + e == (a + b) + c + (d + e)
  {
  }

  /** The middle of three joined pieces can be cut back out. */
  lemma SliceMiddle(a: Bytes, b: Bytes, c: Bytes)
    ensures (a + b + c)[|a|..|a| + |b|] == b
  {
  }

  /** A request without headers is the request line, the Host line and the empty line. */
  lemma EmptyRendering()
    ensures Rendering(NewRequest([])) == NOTIFY_METHOD + REQUEST_LINE_TAIL + HOST_LINE + CRLF
  {
  }

  /**
   * One formatted piece through `write_all`, while everything sent so far
   * fit. `rest` is the text still to come after the piece: when the piece
   * does not fit, the buffer is the whole text cut at the cap.
   */
  method Emit(packet: PacketBuffer, piece: Bytes, ghost sent: Bytes, ghost rest: Bytes)
      returns (r: Result<(), Error>)
    requires packet.buffer == sent && |sent| <= packet.mmu
    modifies packet
    ensures packet.mmu == old(packet.mmu)
    ensures r.Ok? <==> |sent + piece| <= packet.mmu
    ensures r.Ok? ==> packet.buffer == sent + piece
    ensures r.Err? ==> r.error == Io && packet.mmu < |sent + piece + rest|
    ensures r.Err? ==> packet.buffer == (sent + piece + rest)[..packet.mmu]
  {
    r := packet.WriteAll(piece);
    if r.Err? {
      var cut := packet.mmu - |sent|;
      assert packet.buffer == sent + piece[..cut];
      assert (sent + piece + rest)[..packet.mmu] == sent + piece[..cut];
    } else {
      assert piece[..|piece|] == piece;
    }
  }

  /** The formatted pieces of one header line through `write_all`, as `Emit` for the whole line. */
  method EmitLine(packet: PacketBuffer, name: Bytes, value: Bytes, ghost sent: Bytes, ghost rest: Bytes)
      returns (r: Result<(), Error>)
    requires packet.buffer == sent && |sent| <= packet.mmu
    modifies packet
    ensures packet.mmu == old(packet.mmu)
    ensures r.Ok? <==> |sent + Line((name, value))| <= packet.mmu
    ensures r.Ok? ==> packet.buffer == sent + Line((name, value))
    ensures r.Err? ==> r.error == Io && packet.mmu < |sent + Line((name, value)) + rest|
    ensures r.Err? ==> packet.buffer == (sent + Line((name, value)) + rest)[..packet.mmu]
  {
    ghost var line := Line((name, value));
    var upper := Upper(name);
    ghost var s1 := sent + upper;
    ghost var s2 := s1 + NAME_SEPARATOR;
    ghost var s3 := s2 + value;
    assert sent + line == s3 + CRLF;
    // write!(packet, "{}: ", name.to_uppercase())
    r := Emit(packet, upper, sent, NAME_SEPARATOR + value + CRLF + rest);
    if r.Err? {
      assert sent + upper + (NAME_SEPARATOR + value + CRLF + rest) == sent + line + rest;
      return;
    }
    r := Emit(packet, NAME_SEPARATOR, s1, value + CRLF + rest);
    if r.Err? {
      assert s1 + NAME_SEPARATOR + (value + CRLF + rest) == sent + line + rest;
      return;
    }
    // packet.write_all(value.as_bytes())
    r := Emit(packet, value, s2, CRLF + rest);
    if r.Err? {
      assert s2 + value + (CRLF + rest) == sent + line + rest;
      return;
    }
    // write!(packet, "\r\n")
    r := Emit(packet, CRLF, s3, rest);
  }

  /** The request line and the Host line, as `Emit` for both lines together. */
  method EmitHead(packet: PacketBuffer, verb: Bytes, ghost rest: Bytes) returns (r: Result<(), Error>)
    requires packet.buffer == []
    modifies packet
    ensures packet.mmu == old(packet.mmu)
    ensures r.Ok? <==> |verb + REQUEST_LINE_TAIL + HOST_LINE| <= packet.mmu
    ensures r.Ok? ==> packet.buffer == verb + REQUEST_LINE_TAIL + HOST_LINE
    ensures r.Err? ==> r.error == Io && packet.mmu < |verb + REQUEST_LINE_TAIL + HOST_LINE + rest|
    ensures r.Err? ==> packet.buffer == (verb + REQUEST_LINE_TAIL + HOST_LINE + rest)[..packet.mmu]
  {
    ghost var whole := verb + REQUEST_LINE_TAIL + HOST_LINE + rest;
    // write!(packet, "{} * HTTP/1.1\r\n", method)
    r := Emit(packet, verb, [], REQUEST_LINE_TAIL + HOST_LINE + rest);
    if r.Err? {
      assert [] + verb + (REQUEST_LINE_TAIL + HOST_LINE + rest) == whole;
      return;
    }
    r := Emit(packet, REQUEST_LINE_TAIL, verb, HOST_LINE + rest);
    if r.Err? {
      assert verb + REQUEST_LINE_TAIL + (HOST_LINE + rest) == whole;
      return;
    }
    // write!(packet, "HOST: 239.255.255.250:1900\r\n")
    r := Emit(packet, HOST_LINE, verb + REQUEST_LINE_TAIL, rest);
  }

  /** The header lines of the items in order, as `Emit` for all of them together. */
  method EmitLines(packet: PacketBuffer, items: seq<(Bytes, Bytes)>, ghost sent: Bytes, ghost rest: Bytes)
      returns (r: Result<(), Error>)
    requires packet.buffer == sent && |sent| <= packet.mmu
    modifies packet
    ensures packet.mmu == old(packet.mmu)
    ensures r.Ok? <==> |sent + Lines(items)| <= packet.mmu
    ensures r.Ok? ==> packet.buffer == sent + Lines(items)
    ensures r.Err? ==> r.error == Io && packet.mmu < |sent + Lines(items) + rest|
    ensures r.Err? ==> packet.buffer == (sent + Lines(items) + rest)[..packet.mmu]
  {
    ghost var whole := sent + Lines(items) + rest;
    r := Ok(());
    var i := 0;
    while i < |items|
      invariant 0 <= i <= |items|
      invariant packet.mmu == old(packet.mmu) && |packet.buffer| <= packet.mmu
      invariant packet.buffer + Lines(items[i..]) == sent + Lines(items)
      invariant r.Ok?
    {
      var name, value := items[i].0, items[i].1;
      ghost var done := packet.buffer;
      ghost var line, later := Line((name, value)), Lines(items[i + 1..]);
      LinesStep(items, i);
      assert done + (line + later) == sent + Lines(items);
      r := EmitLine(packet, name, value, done, later + rest);
      if r.Err? {
        Regroup(done, line, later, rest);
        return;
      }
      Regroup(done, line, later, []);
      i := i + 1;
    }
    assert items[i..] == [];
  }

  /** The lines from item i on: item i's line, then the lines after it. */
  lemma LinesStep(items: seq<(Bytes, Bytes)>, i: nat)
    requires i < |items|
    ensures Lines(items[i..]) == Line(items[i]) + Lines(items[i + 1..])
  {
    assert items[i..][1..] == items[i + 1..];
  }

  lemma Regroup(a: Bytes, b: Bytes, c: Bytes, d: Bytes)
    ensures a + b + (c + d) == a + (b + c) + d
    ensures a + b + c == a + (b + c)
  {
  }

  /**
   * `Request::serialize`: clears the buffer, then writes each formatted
   * piece with `write_all` and stops at the first failure. The buffer ends
   * up holding the rendering cut at the cap, and the call fails exactly
   * when the rendering does not fit.
   */
  method Serialize(req: Request, packet: PacketBuffer) returns (r: Result<(), Error>)
    modifies packet
    ensures packet.mmu == old(packet.mmu)
    ensures packet.buffer == Rendering(req)[..Min(packet.mmu, |Rendering(req)|)]
    ensures r.Ok? <==> |Rendering(req)| <= packet.mmu
    ensures r.Err? ==> r.error == Io
  {
    ghost var total := Rendering(req);
    var items := Items(req.headers);
    ghost var head := req.verb + REQUEST_LINE_TAIL + HOST_LINE;
    ghost var lines := Lines(items);
    assert total == head + lines + CRLF;
    packet.Truncate(0);

    r := EmitHead(packet, req.verb, lines + CRLF);
    if r.Err? {
      assert head + (lines + CRLF) == total;
      return;
    }
    r := EmitLines(packet, items, head, CRLF);
    if r.Err? {
      return;
    }
    // write!(packet, "\r\n")
    r := Emit(packet, CRLF, head + lines, []);
    assert head + lines + CRLF + [] == total;
  }
}
