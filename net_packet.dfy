/**
 * `PacketBuffer`: an owned byte buffer that accepts at most `mmu` bytes;
 * writes past the cap are cut short rather than failing.
 */
module Packet {
  import opened Wrappers
  import opened Octets
  import opened Errors

  /** The largest packet the library sends or receives. */
  const MAX_PCKT_LEN: nat := 1500

  function Min(a: nat, b: nat): nat {
    if a <= b then a else b
  }

  /** `mmu.saturating_sub(len)`: the room left, never below zero. */
  function SaturatingSub(a: nat, b: nat): (r: nat)
    ensures a >= b ==> r == a - b
    ensures a < b ==> r == 0
  {
    if a >= b then a - b else 0
  }

  /** The slices of a vectored write, one after the other. */
  function Concat(bufs: seq<Bytes>): (r: Bytes)
    ensures bufs == [] ==> r == []
  {
    if bufs == [] then [] else bufs[0] + Concat(bufs[1..])
  }

  lemma {:induction false} ConcatSnoc(bufs: seq<Bytes>, b: Bytes)
    ensures Concat(bufs + [b]) == Concat(bufs) + b
  {
    if bufs == [] {
      assert bufs + [b] == [b];
      assert Concat([b]) == b + Concat([]);
    } else {
      assert (bufs + [b])[1..] == bufs[1..] + [b];
      ConcatSnoc(bufs[1..], b);
    }
  }

  class PacketBuffer {
    var buffer: Bytes
    var mmu: nat

    /** The room left before the cap. */
    function Space(): nat
      reads this
    {
      SaturatingSub(mmu, |buffer|)
    }

    /** The cap holds: the library's own writes never make the buffer longer than `mmu`. */
    ghost predicate Valid()
      reads this
    {
      |buffer| <= mmu
    }

    /** `PacketBuffer::default`: empty, capped at 1500 bytes. */
    constructor ()
      ensures buffer == [] && mmu == MAX_PCKT_LEN && Valid()
    {
      buffer := [];
      mmu := MAX_PCKT_LEN;
    }

    /** `as_slice`: exactly the bytes stored. */
    method AsSlice() returns (r: Bytes)
      ensures r == buffer
    {
      r := buffer;
    }

    /** `clear`: no bytes left; the cap stays. */
    method Clear()
      modifies this
      ensures buffer == [] && mmu == old(mmu) && Valid()
    {
      buffer := [];
    }

    /** `Vec::truncate`: keeps at most the first n bytes. */
    method Truncate(n: nat)
      modifies this
      ensures buffer == old(buffer)[..Min(n, |old(buffer)|)] && mmu == old(mmu)
      ensures old(Valid()) ==> Valid()
    {
      if n < |buffer| {
        buffer := buffer[..n];
      }
    }

    /** `write`: appends as much of b as fits and says how much that was. */
    method Write(b: Bytes) returns (take: nat)
      modifies this
      ensures take == Min(|b|, old(Space()))
      ensures buffer == old(buffer) + b[..take] && mmu == old(mmu)
      ensures old(Valid()) ==> Valid()
    {
      var space := SaturatingSub(mmu, |buffer|);
      take := Min(|b|, space);
      buffer := buffer + b[..take];
    }

    /**
     * `write_vectored`: fills the room slice by slice and stops once it is
     * used up; the bytes taken are a prefix of the slices joined.
     */
    method WriteVectored(bufs: seq<Bytes>) returns (written: nat)
      modifies this
      ensures written == Min(|Concat(bufs)|, old(Space()))
      ensures buffer == old(buffer) + Concat(bufs)[..written] && mmu == old(mmu)
      ensures old(Valid()) ==> Valid()
    {
      var space := SaturatingSub(mmu, |buffer|);
      ghost var room := space;
      written := 0;
      var i := 0;
      while i < |bufs|
        invariant 0 <= i <= |bufs|
        invariant written + space == room && mmu == old(mmu)
        invariant written == |Concat(bufs[..i])|
        invariant buffer == old(buffer) + Concat(bufs[..i])
        decreases |bufs| - i
      {
        var slice := bufs[i];
        var take := Min(|slice|, space);
        buffer := buffer + slice[..take];
        var done := take == space;
        written := written + take;
        space := space - take;
        if done {
          ConcatPrefixAt(bufs, i, take);
          return;
        }
        assert take == |slice| && slice[..take] == slice;
        ConcatSnoc(bufs[..i], slice);
        assert bufs[..i + 1] == bufs[..i] + [slice];
        i := i + 1;
      }
      assert bufs[..i] == bufs;
    }

    /**
     * The default `write_all` over `write`: repeats until b is written, and
     * fails with a zero-length write once the buffer is full.
     */
    method WriteAll(b: Bytes) returns (r: Result<(), Error>)
      modifies this
      ensures buffer == old(buffer) + b[..Min(|b|, old(Space()))] && mmu == old(mmu)
      ensures r.Ok? <==> |b| <= old(Space())
      ensures r.Err? ==> r.error == Io
      ensures old(Valid()) ==> Valid()
    {
      ghost var room := Space();
      var k := 0;
      while k < |b|
        invariant k <= |b| && k <= room && mmu == old(mmu)
        invariant buffer == old(buffer) + b[..k]
        invariant Space() == room - k
        invariant old(Valid()) ==> Valid()
        decreases |b| - k
      {
        var n := Write(b[k..]);
        if n == 0 {
          return Err(Io);
        }
        assert b[..k + n] == b[..k] + b[k..][..n];
        k := k + n;
      }
      assert b[..k] == b;
      return Ok(());
    }

    /** `flush`: nothing to do; it always succeeds. */
    method Flush() returns (r: Result<(), Error>)
      ensures r.Ok?
    {
      r := Ok(());
    }
  }

  /** A vectored write that stops in slice i, having taken t bytes of it, took a prefix of the join. */
  lemma ConcatPrefixAt(bufs: seq<Bytes>, i: nat, t: nat)
    requires i < |bufs| && t <= |bufs[i]|
    ensures |Concat(bufs[..i])| + t <= |Concat(bufs)|
    ensures Concat(bufs[..i]) + bufs[i][..t] == Concat(bufs)[..|Concat(bufs[..i])| + t]
  {
    ConcatSplit(bufs[..i], bufs[i..]);
    assert bufs[..i] + bufs[i..] == bufs;
    assert Concat(bufs[i..]) == bufs[i] + Concat(bufs[i + 1..]);
  }

  lemma {:induction false} ConcatSplit(a: seq<Bytes>, b: seq<Bytes>)
    ensures Concat(a + b) == Concat(a) + Concat(b)
  {
    if a == [] {
      assert a + b == b;
    } else {
      assert (a + b)[1..] == a[1..] + b;
      ConcatSplit(a[1..], b);
    }
  }
}
