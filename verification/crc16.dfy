/**
 * The CRC-16 hash of the mhash library: a running 16-bit checksum updated
 * byte by byte with a table-free step, emitted little-endian by Final.
 */
module Crc16 {
  import opened Bytes

  /** The hashing context: only the running checksum. */
  datatype Context = Context(checksum: bv16)

  /** One step of the bit-serial CRC with polynomial 0x1021, most significant bit first. */
  function ShiftStep(c: bv16): bv16
  {
    if c & 0x8000 != 0 then (c << 1) ^ 0x1021 else c << 1
  }

  /** Table entry for the low byte of i: eight bit-serial steps applied to it in the top byte. */
  function TableEntry(i: bv16): bv16
  {
    var c := i << 8;
    ShiftStep(ShiftStep(ShiftStep(ShiftStep(ShiftStep(ShiftStep(ShiftStep(ShiftStep(c))))))))
  }

  /**
   * Reference definition: the byte-at-a-time CRC-16 with polynomial 0x1021
   * (most significant bit first), the data byte entering the top of the register.
   */
  function ReferenceCrc(crc: bv16, data: byte): bv16
  {
    TableEntry((crc >> 8) ^ (data as bv16)) ^ (crc << 8)
  }

  /**
   * The byte step of the library: swap the checksum bytes, mix in the data
   * byte, then three shift/xor folds.
   */
  function CalcCrc16(crc: bv16, data: byte): (r: bv16)
    ensures r == ReferenceCrc(crc, data)
  {
    FoldsAreReference(crc, data);
    Fold3(Fold2(Fold1(Swap(crc) ^ (data as bv16))))
  }

  /** Exchange the two bytes of the checksum. */
  function Swap(c: bv16): bv16 { (c >> 8) | ((c & 0xff) << 8) }

  // The three shift/xor folds of the byte step, in the order they are applied.

  function Fold1(c: bv16): bv16 { c ^ ((c & 0xff) >> 4) }
  function Fold2(c: bv16): bv16 { c ^ ((c & 0x0f) << 12) }
  function Fold3(c: bv16): bv16 { c ^ (((c & 0xff) << 4) << 1) }

  /** A value whose low byte is zero passes through the first fold unchanged. */
  lemma Fold1PassesHighByte(x: bv16, b: bv16)
    requires b & 0xff == 0
    ensures Fold1(x ^ b) == Fold1(x) ^ b
  {
  }

  /** A value whose low byte is zero passes through the second fold unchanged. */
  lemma Fold2PassesHighByte(x: bv16, b: bv16)
    requires b & 0xff == 0
    ensures Fold2(x ^ b) == Fold2(x) ^ b
  {
  }

  /** A value whose low byte is zero passes through the third fold unchanged. */
  lemma Fold3PassesHighByte(x: bv16, b: bv16)
    requires b & 0xff == 0
    ensures Fold3(x ^ b) == Fold3(x) ^ b
  {
  }

  /** Swapping the checksum and then mixing in the data splits into a top-byte part and a high-byte part. */
  lemma SwapMerged(crc: bv16, data: byte)
    ensures Swap(crc) ^ (data as bv16)
         == Swap(((crc >> 8) ^ (data as bv16)) << 8) ^ (crc << 8)
  {
  }

  /** The byte step on (crc, data) is the folds on the merged top byte, plus the shifted checksum. */
  lemma CalcCrc16Split(crc: bv16, data: byte)
    ensures Fold3(Fold2(Fold1(Swap(crc) ^ (data as bv16))))
         == Fold3(Fold2(Fold1(Swap(((crc >> 8) ^ (data as bv16)) << 8)))) ^ (crc << 8)
  {
    var s := Swap(((crc >> 8) ^ (data as bv16)) << 8);
    var b := crc << 8;
    SwapMerged(crc, data);
    Fold1PassesHighByte(s, b);
    Fold2PassesHighByte(Fold1(s), b);
    Fold3PassesHighByte(Fold2(Fold1(s)), b);
  }

  /** With only the register's top byte set, the folds compute the table entry. */
  lemma FoldsOnTopByte(i: bv16)
    ensures Fold3(Fold2(Fold1(Swap(i << 8)))) == TableEntry(i)
  {
  }

  /** The swap, the xor and the three folds compute the reference CRC step. */
  lemma FoldsAreReference(crc: bv16, data: byte)
    ensures Fold3(Fold2(Fold1(Swap(crc) ^ (data as bv16)))) == ReferenceCrc(crc, data)
  {
    var i := (crc >> 8) ^ (data as bv16);
    CalcCrc16Split(crc, data);
    FoldsOnTopByte(i);
  }

  /** The checksum after feeding the bytes of s, in order, starting from crc. */
  function Crc(crc: bv16, s: seq<byte>): bv16
  {
    if |s| == 0 then crc else CalcCrc16(Crc(crc, s[..|s| - 1]), s[|s| - 1])
  }

  /** The reference CRC over a whole message, one byte at a time from the front. */
  function ReferenceMessageCrc(crc: bv16, s: seq<byte>): bv16
    decreases |s|
  {
    if |s| == 0 then crc else ReferenceMessageCrc(ReferenceCrc(crc, s[0]), s[1..])
  }

  /** A fresh context. */
  function Init(): (ctx: Context)
    ensures Final(ctx).1 == ctx
  {
    Context(0)
  }

  /** Feed a buffer to the context: the left fold of the byte step over it. */
  function Update(ctx: Context, buf: seq<byte>): (r: Context)
    ensures r.checksum == ReferenceMessageCrc(ctx.checksum, buf)
  {
    CrcIsReference(ctx.checksum, buf);
    Context(Crc(ctx.checksum, buf))
  }

  /** The loop of the library's update routine, one byte per iteration. */
  method UpdateLoop(ctx: Context, buf: seq<byte>) returns (r: Context)
    ensures r == Update(ctx, buf)
    ensures r.checksum == ReferenceMessageCrc(ctx.checksum, buf)
  {
    var checksum := ctx.checksum;
    var i := 0;
    while i < |buf|
      invariant 0 <= i <= |buf|
      invariant checksum == Crc(ctx.checksum, buf[..i])
    {
      assert buf[..i + 1][..i] == buf[..i];
      checksum := CalcCrc16(checksum, buf[i]);
      i := i + 1;
    }
    assert buf[..i] == buf;
    r := Context(checksum);
  }

  /**
   * Emit the digest (the checksum in little-endian byte order on every host)
   * and clear the context.
   */
  function Final(ctx: Context): (r: (seq<byte>, Context))
    ensures |r.0| == 2
    ensures (r.0[0] as bv16) | ((r.0[1] as bv16) << 8) == ctx.checksum
    ensures r.1.checksum == 0
  {
    (Le16(ctx.checksum), Context(0))
  }

  /** Feeding a then b is feeding a ++ b. */
  lemma {:induction false} CrcAppend(crc: bv16, a: seq<byte>, b: seq<byte>)
    ensures Crc(Crc(crc, a), b) == Crc(crc, a + b)
    decreases |b|
  {
    if |b| == 0 {
      assert a + b == a;
    } else {
      var b' := b[..|b| - 1];
      CrcAppend(crc, a, b');
      assert (a + b)[..|a + b| - 1] == a + b';
    }
  }

  /** Two updates compose into one update over the concatenated buffers. */
  lemma UpdateCompose(ctx: Context, a: seq<byte>, b: seq<byte>)
    ensures Update(Update(ctx, a), b) == Update(ctx, a + b)
  {
    CrcAppend(ctx.checksum, a, b);
  }

  /** An empty buffer leaves the checksum unchanged. */
  lemma UpdateEmpty(ctx: Context)
    ensures Update(ctx, []) == ctx
  {
  }

  /** The library's fold computes the reference CRC over the whole message. */
  lemma {:induction false} CrcIsReference(crc: bv16, s: seq<byte>)
    ensures Crc(crc, s) == ReferenceMessageCrc(crc, s)
    decreases |s|
  {
    if |s| > 0 {
      CrcAppend(crc, [s[0]], s[1..]);
      assert [s[0]] + s[1..] == s;
      assert [s[0]][..0] == [];
      CrcIsReference(CalcCrc16(crc, s[0]), s[1..]);
    }
  }
}
