/** Byte and word helpers: little-endian packing and whole-range predicates. */
module Bytes {

  type byte = bv8

  /** An unsigned 8-bit value used as a number (a code or a version character). */
  type u8 = x: nat | x < 0x100

  /** An unsigned 16-bit value (`unsigned short`). */
  type u16 = x: nat | x < 0x1_0000

  /** The number of values of an unsigned 32-bit word. */
  const Word32: nat := 0x1_0000_0000

  /** An unsigned 32-bit address, length or register value. */
  type u32 = x: nat | x < 0x1_0000_0000

  /** A 32-bit sum: the carry out of bit 31 is lost. */
  function Wrap32(x: nat): (r: u32)
    requires x < 2 * Word32
    ensures r == x % Word32
  {
    if x < Word32 then x else x - Word32
  }

  /** The byte holding the number x, built by counting up from zero. */
  function ByteOf(x: nat): (b: byte)
    requires x < 0x100
    ensures b as int == x
  {
    if x == 0 then 0 else ByteOf(x - 1) + 1
  }

  /** Every byte of s is the erased value 0xff. */
  predicate AllErased(s: seq<byte>)
  {
    forall i :: 0 <= i < |s| ==> s[i] == 0xff
  }

  /** Byte i of s widened to a word, or 0 past the end of s. */
  function ByteAt(s: seq<byte>, i: nat): bv32
  {
    if i < |s| then s[i] as bv32 else 0
  }

  /** Little-endian value of up to four bytes, as a 32-bit word. */
  function LeValue(s: seq<byte>): (r: bv32)
    requires |s| <= 4
  {
    ByteAt(s, 0) | (ByteAt(s, 1) << 8) | (ByteAt(s, 2) << 16) | (ByteAt(s, 3) << 24)
  }

  /** The two little-endian bytes of a 16-bit word. */
  function Le16(w: bv16): (r: seq<byte>)
    ensures |r| == 2
    ensures (r[0] as bv16) | ((r[1] as bv16) << 8) == w
  {
    [(w & 0xff) as byte, (w >> 8) as byte]
  }

  /** The four little-endian bytes of a 32-bit word. */
  function Le32(w: bv32): (r: seq<byte>)
    ensures |r| == 4
    ensures LeValue(r) == w
  {
    [(w & 0xff) as byte, ((w >> 8) & 0xff) as byte,
     ((w >> 16) & 0xff) as byte, (w >> 24) as byte]
  }

  /** Reading four bytes back from their little-endian word gives the bytes again. */
  lemma LeRoundTrip(s: seq<byte>)
    requires |s| == 4
    ensures Le32(LeValue(s)) == s
  {
  }

  // Flash contents

  /** s with the bytes from offset at replaced by d. */
  function Splice(s: seq<byte>, at: nat, d: seq<byte>): (r: seq<byte>)
    requires at + |d| <= |s|
    ensures |r| == |s|
  {
    seq(|s|, i requires 0 <= i < |s| => if at <= i < at + |d| then d[i - at] else s[i])
  }

  /** The cells after programming: each bit ends as the AND of the flash contents and the data. */
  function ProgramCells(existing: seq<byte>, data: seq<byte>): (r: seq<byte>)
    requires |existing| == |data|
    ensures |r| == |data|
    ensures forall i :: 0 <= i < |r| ==> r[i] == existing[i] & data[i]
  {
    seq(|data|, i requires 0 <= i < |data| => existing[i] & data[i])
  }

  /** Splicing in the bytes already there changes nothing. */
  lemma SpliceSame(mem: seq<byte>, offset: nat, page: seq<byte>)
    requires offset + |page| <= |mem| && mem[offset..offset + |page|] == page
    ensures Splice(mem, offset, page) == mem
  {
    forall i | 0 <= i < |mem|
      ensures Splice(mem, offset, page)[i] == mem[i]
    {
      if offset <= i < offset + |page| {
        assert page[i - offset] == mem[offset..offset + |page|][i - offset];
      }
    }
  }

  /** The erased contents of n bytes. */
  function Erased(n: nat): (r: seq<byte>)
    ensures |r| == n && AllErased(r)
  {
    seq(n, i => 0xff)
  }

  /** The AND of all bytes, starting from 0xff: the usual test of a range for being erased. */
  function AndAll(s: seq<byte>): byte
  {
    if |s| == 0 then 0xff else AndAll(s[..|s| - 1]) & s[|s| - 1]
  }

  lemma AndIsFF(x: byte, y: byte)
    ensures x & y == 0xff <==> x == 0xff && y == 0xff
  {
  }

  /** The AND of the bytes is 0xff exactly when every byte is 0xff. */
  lemma {:induction false} AndAllErased(s: seq<byte>)
    ensures AndAll(s) == 0xff <==> AllErased(s)
  {
    if |s| > 0 {
      var init := s[..|s| - 1];
      AndAllErased(init);
      AndIsFF(AndAll(init), s[|s| - 1]);
      assert forall i :: 0 <= i < |init| ==> init[i] == s[i];
    }
  }

  /** Erasing the n bytes after an erased range extends the range. */
  lemma EraseExtend(mem: seq<byte>, first: nat, o: nat, n: nat)
    requires first <= o && o + n <= |mem|
    ensures Splice(Splice(mem, first, Erased(o - first)), o, Erased(n)) == Splice(mem, first, Erased(o + n - first))
  {
    var lhs := Splice(Splice(mem, first, Erased(o - first)), o, Erased(n));
    var rhs := Splice(mem, first, Erased(o + n - first));
    forall i | 0 <= i < |mem|
      ensures lhs[i] == rhs[i]
    {
    }
  }

  /** Programming erased cells leaves exactly the data. */
  lemma ProgramErased(existing: seq<byte>, data: seq<byte>)
    requires |existing| == |data| && AllErased(existing)
    ensures ProgramCells(existing, data) == data
  {
  }
}
