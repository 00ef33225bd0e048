/**
 * Register arithmetic of the SQI driver of the netX 4000: the encoding of a
 * clock speed in kHz as a multiply-add value with an optional input filter,
 * installing a new speed in control register 0, the bus-width table, the
 * parameter checks of the SQIROM (execute-in-place) configuration, and the
 * split of outgoing data into transactions and FIFO words.
 *
 * A 32-bit register is modelled as its bits, least significant first, and a
 * register field as a run of those bits. The bit positions of the fields
 * come from the chip's register definitions; they are an input here
 * (`Layout`), constrained only by what the driver relies on. Register reads
 * and writes, FIFO handshakes and busy-waits are left to the hardware.
 */
module Sqi {
  import opened Wrappers
  import opened Bytes

  // ---------------------------------------------------------------------
  // Registers and fields
  // ---------------------------------------------------------------------

  /** The value of n bits. */
  function Pow2(n: nat): (p: nat)
    ensures 0 < p
  {
    if n == 0 then 1 else 2 * Pow2(n - 1)
  }

  /** n clear bits. */
  function Zeros(n: nat): (r: seq<bool>)
    ensures |r| == n && forall i :: 0 <= i < n ==> !r[i]
  {
    if n == 0 then [] else [false] + Zeros(n - 1)
  }

  /** A 32-bit register, bit 0 first. */
  type Word = s: seq<bool> | |s| == 32 witness Zeros(32)

  /** The all-clear register. */
  function Clear(): Word
  {
    Zeros(32)
  }

  /** The number a run of bits stands for, least significant bit first. */
  function Value(bits: seq<bool>): (v: nat)
    ensures v < Pow2(|bits|)
  {
    if |bits| == 0 then 0 else (if bits[0] then 1 else 0) + 2 * Value(bits[1..])
  }

  /** The w low bits of v, least significant first. */
  function Code(v: nat, w: nat): (bits: seq<bool>)
    ensures |bits| == w
  {
    if w == 0 then [] else [v % 2 == 1] + Code(v / 2, w - 1)
  }

  /** A number that fits in w bits is read back from its code. */
  lemma {:induction false} ValueCode(v: nat, w: nat)
    requires v < Pow2(w)
    ensures Value(Code(v, w)) == v
  {
    if w > 0 {
      ValueCode(v / 2, w - 1);
      assert Code(v, w)[1..] == Code(v / 2, w - 1);
    }
  }

  /** Clear bits stand for 0. */
  lemma {:induction false} ValueOfClear(bits: seq<bool>)
    requires forall i :: 0 <= i < |bits| ==> !bits[i]
    ensures Value(bits) == 0
  {
    if |bits| > 0 {
      ValueOfClear(bits[1..]);
    }
  }

  /** Bits that stand for 0 are all clear. */
  lemma {:induction false} ValueZero(bits: seq<bool>)
    requires Value(bits) == 0
    ensures forall i :: 0 <= i < |bits| ==> !bits[i]
  {
    if |bits| > 0 {
      ValueZero(bits[1..]);
      assert forall i :: 1 <= i < |bits| ==> bits[i] == bits[1..][i - 1];
    }
  }

  /** A register field: its lowest bit and its number of bits. */
  datatype Field = Field(shift: nat, width: nat)

  predicate ValidField(f: Field)
  {
    0 < f.width && f.shift + f.width <= 32
  }

  /** Bit i lies in the field. */
  predicate InField(f: Field, i: nat)
  {
    f.shift <= i < f.shift + f.width
  }

  /** The bits of the field. */
  function Get(reg: Word, f: Field): (bits: seq<bool>)
    requires ValidField(f)
    ensures |bits| == f.width
  {
    reg[f.shift..f.shift + f.width]
  }

  /**
   * The register with the field cleared and the bits ORed in at the field's
   * position: the driver's read-modify-write of a field.
   */
  function Put(reg: Word, f: Field, bits: seq<bool>): (r: Word)
    requires ValidField(f) && |bits| == f.width
    ensures Get(r, f) == bits
    ensures forall i :: 0 <= i < 32 && !InField(f, i) ==> r[i] == reg[i]
  {
    reg[..f.shift] + bits + reg[f.shift + f.width..]
  }

  /** Two fields share no bit. */
  predicate Apart(a: Field, b: Field)
  {
    a.shift + a.width <= b.shift || b.shift + b.width <= a.shift
  }

  /**
   * Where the driver's fields lie: in control register 0 the clock
   * multiply-add value, the input-filter bit and the SIO configuration; in
   * the transfer control register the bus mode.
   */
  datatype Layout = Layout(muladd: Field, filterIn: Field, sioCfg: Field, tcrMode: Field)

  /**
   * What the driver assumes of the layout: the fields are well placed, the
   * filter is one bit, the control-register fields do not overlap, the
   * multiply-add field holds the largest speed value, and the SIO and mode
   * fields hold the largest bus-width codes.
   */
  predicate ValidLayout(l: Layout)
  {
    ValidField(l.muladd) && ValidField(l.filterIn) && ValidField(l.sioCfg) && ValidField(l.tcrMode)
    && l.filterIn.width == 1
    && Apart(l.muladd, l.filterIn) && Apart(l.muladd, l.sioCfg) && Apart(l.filterIn, l.sioCfg)
    && MaxMulAdd < Pow2(l.muladd.width)
    && 2 <= l.tcrMode.width
  }

  /** Bit i of control register 0 belongs to the speed: the multiply-add value or the filter bit. */
  predicate SpeedBit(l: Layout, i: nat)
  {
    InField(l.muladd, i) || InField(l.filterIn, i)
  }

  // ---------------------------------------------------------------------
  // Speed
  // ---------------------------------------------------------------------

  /** The fastest clock the driver sets, in kHz. */
  const MaxSpeedKHz: nat := 50000

  /** The multiply-add value of the fastest clock. */
  const MaxMulAdd: nat := 2048

  /** Speed values up to this one are sampled through the input filter. */
  const FilterLimit: nat := 0x200

  /** The speed the driver works with: the requested one, at most MaxSpeedKHz. */
  function Clamped(speedKHz: u32): nat
  {
    if speedKHz > MaxSpeedKHz then MaxSpeedKHz else speedKHz
  }

  /**
   * The multiply-add value of a speed in kHz: the clamped speed times 4096,
   * a 32-bit product, divided by 100000 without rounding up.
   */
  function MulAdd(speedKHz: u32): (v: nat)
    ensures v * 100000 <= Clamped(speedKHz) * 4096 < (v + 1) * 100000
    ensures v <= MaxMulAdd
  {
    ((Clamped(speedKHz) * 4096) % Word32) / 100000
  }

  /** The 32-bit product never wraps: the multiply-add value is the exact rounded-down quotient. */
  lemma MulAddExact(speedKHz: u32)
    ensures Clamped(speedKHz) * 4096 < Word32
    ensures MulAdd(speedKHz) == Clamped(speedKHz) * 4096 / 100000
  {
  }

  /** Speeds at or above MaxSpeedKHz all get the value of MaxSpeedKHz. */
  lemma MulAddClamps(speedKHz: u32)
    requires speedKHz >= MaxSpeedKHz
    ensures MulAdd(speedKHz) == MaxMulAdd
  {
  }

  lemma MulCancel(x: nat, y: nat, m: nat)
    requires x * m < y * m
    ensures x < y
  {
  }

  /** A faster clock never gets a smaller value. */
  lemma MulAddMonotone(a: u32, b: u32)
    requires a <= b
    ensures MulAdd(a) <= MulAdd(b)
  {
    MulCancel(MulAdd(a), MulAdd(b) + 1, 100000);
  }

  /** Writing one field leaves a field apart from it as it was. */
  lemma PutApart(reg: Word, f: Field, bits: seq<bool>, g: Field)
    requires ValidField(f) && ValidField(g) && |bits| == f.width && Apart(f, g)
    ensures Get(Put(reg, f, bits), g) == Get(reg, g)
  {
    var r := Put(reg, f, bits);
    forall k | 0 <= k < g.width
      ensures Get(r, g)[k] == Get(reg, g)[k]
    {
      assert !InField(f, g.shift + k);
    }
  }

  /**
   * The register representation of a speed: the multiply-add value in its
   * field, and the input-filter bit when the value is at most FilterLimit;
   * all other bits clear.
   */
  function SpeedRepresentation(l: Layout, speedKHz: u32): (r: Word)
    requires ValidLayout(l)
    ensures Value(Get(r, l.muladd)) == MulAdd(speedKHz)
    ensures Get(r, l.filterIn) == [MulAdd(speedKHz) <= FilterLimit]
    ensures forall i :: 0 <= i < 32 && !SpeedBit(l, i) ==> !r[i]
  {
    ValueCode(MulAdd(speedKHz), l.muladd.width);
    PutApart(Put(Clear(), l.muladd, Code(MulAdd(speedKHz), l.muladd.width)), l.filterIn, [MulAdd(speedKHz) <= FilterLimit], l.muladd);
    Put(Put(Clear(), l.muladd, Code(MulAdd(speedKHz), l.muladd.width)), l.filterIn, [MulAdd(speedKHz) <= FilterLimit])
  }

  /** Control register 0 with its speed bits taken from speed and all other bits from cr0. */
  function MergeSpeed(l: Layout, cr0: Word, speed: Word): (r: Word)
    requires ValidLayout(l)
    ensures Get(r, l.muladd) == Get(speed, l.muladd) && Get(r, l.filterIn) == Get(speed, l.filterIn)
    ensures forall i :: 0 <= i < 32 && !SpeedBit(l, i) ==> r[i] == cr0[i]
  {
    seq(32, i requires 0 <= i < 32 => if SpeedBit(l, i) then speed[i] else cr0[i])
  }

  /** Some bit outside the speed bits is set. */
  predicate StrayBits(l: Layout, speed: Word)
  {
    exists i :: 0 <= i < 32 && !SpeedBit(l, i) && speed[i]
  }

  /**
   * Installing a speed representation in control register 0: a value with
   * no bit set, or with a bit set outside the speed bits, is rejected;
   * otherwise the speed bits take the value and all other bits stay.
   */
  function SetNewSpeed(l: Layout, cr0: Word, speed: Word): (r: Option<Word>)
    requires ValidLayout(l)
    ensures r.None? <==> speed == Clear() || StrayBits(l, speed)
    ensures r.Some? ==> Get(r.value, l.muladd) == Get(speed, l.muladd) && Get(r.value, l.filterIn) == Get(speed, l.filterIn)
    ensures r.Some? ==> forall i :: 0 <= i < 32 && !SpeedBit(l, i) ==> r.value[i] == cr0[i]
  {
    if StrayBits(l, speed) then None
    else if speed == Clear() then None
    else Some(MergeSpeed(l, cr0, speed))
  }

  /** Every speed representation is accepted, and control register 0 then holds that speed. */
  lemma RepresentationAccepted(l: Layout, cr0: Word, speedKHz: u32)
    requires ValidLayout(l)
    ensures var r := SetNewSpeed(l, cr0, SpeedRepresentation(l, speedKHz));
            r.Some? && Value(Get(r.value, l.muladd)) == MulAdd(speedKHz)
            && Get(r.value, l.filterIn) == [MulAdd(speedKHz) <= FilterLimit]
            && forall i :: 0 <= i < 32 && !SpeedBit(l, i) ==> r.value[i] == cr0[i]
  {
    var rep := SpeedRepresentation(l, speedKHz);
    if MulAdd(speedKHz) <= FilterLimit {
      assert rep[l.filterIn.shift] == Get(rep, l.filterIn)[0];
      assert rep[l.filterIn.shift] != Clear()[l.filterIn.shift];
    } else {
      ValueOfClear(Get(Clear(), l.muladd));
      assert Get(rep, l.muladd) != Get(Clear(), l.muladd);
    }
  }

  // ---------------------------------------------------------------------
  // Bus width
  // ---------------------------------------------------------------------

  /** The codes of the SPI layer's bus widths. */
  const BusWidth1Bit: nat := 0
  const BusWidth2Bit: nat := 1
  const BusWidth4Bit: nat := 2

  /** The transfer control register is in byte mode: its mode field is clear. */
  predicate ByteMode(l: Layout, tcr: Word)
  {
    forall i :: 0 <= i < 32 && InField(l.tcrMode, i) ==> !tcr[i]
  }

  /**
   * Selecting a bus width: 1, 2 and 4 bits set the transfer mode 0, 1 and 2,
   * and the SIO configuration 0, 0 and 1, in control register 0 and the saved
   * transfer control value; any other code is rejected and nothing changes.
   * The result is the new pair (control register 0, transfer control).
   */
  function SetBusWidth(l: Layout, cr0: Word, tcr: Word, width: nat): (r: Option<(Word, Word)>)
    requires ValidLayout(l)
    ensures r.None? <==> width !in {BusWidth1Bit, BusWidth2Bit, BusWidth4Bit}
    ensures r.Some? ==> Value(Get(r.value.1, l.tcrMode)) == width
    ensures r.Some? ==> Value(Get(r.value.0, l.sioCfg)) == (if width == BusWidth4Bit then 1 else 0)
    ensures r.Some? ==> forall i :: 0 <= i < 32 && !InField(l.sioCfg, i) ==> r.value.0[i] == cr0[i]
    ensures r.Some? ==> forall i :: 0 <= i < 32 && !InField(l.tcrMode, i) ==> r.value.1[i] == tcr[i]
  {
    if width !in {BusWidth1Bit, BusWidth2Bit, BusWidth4Bit} then None
    else
      var mode := width;
      var sio := if width == BusWidth4Bit then 1 else 0;
      ValueCode(mode, l.tcrMode.width);
      ValueCode(sio, l.sioCfg.width);
      Some((Put(cr0, l.sioCfg, Code(sio, l.sioCfg.width)), Put(tcr, l.tcrMode, Code(mode, l.tcrMode.width))))
  }

  /** The mode field of the transfer control register tells the selected width back. */
  lemma BusWidthReadBack(l: Layout, cr0: Word, tcr: Word, a: nat, b: nat)
    requires ValidLayout(l)
    requires SetBusWidth(l, cr0, tcr, a).Some? && SetBusWidth(l, cr0, tcr, b).Some?
    requires Get(SetBusWidth(l, cr0, tcr, a).value.1, l.tcrMode) == Get(SetBusWidth(l, cr0, tcr, b).value.1, l.tcrMode)
    ensures a == b
  {
  }

  /** After selecting a width, data is sent byte by byte exactly when the width is one bit. */
  lemma ByteModeIffOneBit(l: Layout, cr0: Word, tcr: Word, width: nat)
    requires ValidLayout(l) && SetBusWidth(l, cr0, tcr, width).Some?
    ensures ByteMode(l, SetBusWidth(l, cr0, tcr, width).value.1) <==> width == BusWidth1Bit
  {
    var t := SetBusWidth(l, cr0, tcr, width).value.1;
    var bits := Get(t, l.tcrMode);
    if width == BusWidth1Bit {
      ValueZero(bits);
      forall i | 0 <= i < 32 && InField(l.tcrMode, i)
        ensures !t[i]
      {
        assert t[i] == bits[i - l.tcrMode.shift];
      }
    } else {
      if ByteMode(l, t) {
        ValueOfClear(bits);
        assert false;
      }
    }
  }

  /** Selecting a width leaves the speed bits of control register 0 alone. */
  lemma BusWidthKeepsSpeed(l: Layout, cr0: Word, tcr: Word, width: nat)
    requires ValidLayout(l) && SetBusWidth(l, cr0, tcr, width).Some?
    ensures Get(SetBusWidth(l, cr0, tcr, width).value.0, l.muladd) == Get(cr0, l.muladd)
    ensures Get(SetBusWidth(l, cr0, tcr, width).value.0, l.filterIn) == Get(cr0, l.filterIn)
  {
    var sio := if width == BusWidth4Bit then 1 else 0;
    PutApart(cr0, l.sioCfg, Code(sio, l.sioCfg.width), l.muladd);
    PutApart(cr0, l.sioCfg, Code(sio, l.sioCfg.width), l.filterIn);
  }

  // ---------------------------------------------------------------------
  // SQIROM configuration
  // ---------------------------------------------------------------------

  /**
   * The fields of an SQIROM (execute-in-place) configuration word: the
   * dummy cycles, the command byte, the address-bit and address-nibble
   * codes, the address-before-command flag and the enable flag. The
   * all-zero value is the driver's "no configuration".
   */
  datatype RomCfg = RomCfg(dummyCycles: nat, cmdByte: nat, addrBits: nat, addrNibbles: nat,
                           addrBeforeCmd: bool, enable: bool)

  const RomOff: RomCfg := RomCfg(0, 0, 0, 0, false, false)

  /** The mode byte sent in place of a command. */
  const RomModeByte: nat := 0xa5

  const MaxDummyCycles: nat := 15
  const MinAddrNibbles: nat := 5
  const MaxAddrNibbles: nat := 8
  const MinAddrBits: nat := 20
  const MaxAddrBits: nat := 26

  /**
   * The SQIROM configuration for a device: no configuration when the dummy
   * cycles exceed 15 or the address nibbles lie outside 5..8; otherwise the
   * address bits are brought into 20..26 and stored as an offset from 20,
   * the nibbles as an offset from 5.
   */
  function RomConfig(dummyCycles: nat, addrBits: nat, addrNibbles: nat): (r: RomCfg)
    ensures !r.enable <==> dummyCycles > MaxDummyCycles || addrNibbles < MinAddrNibbles || addrNibbles > MaxAddrNibbles
    ensures !r.enable ==> r == RomOff
    ensures r.enable ==> r.dummyCycles == dummyCycles && r.addrNibbles + MinAddrNibbles == addrNibbles
                         && r.cmdByte == RomModeByte && r.addrBeforeCmd
    ensures r.enable ==> r.addrBits <= MaxAddrBits - MinAddrBits
    ensures r.enable && MinAddrBits <= addrBits <= MaxAddrBits ==> r.addrBits + MinAddrBits == addrBits
    ensures r.enable && addrBits < MinAddrBits ==> r.addrBits == 0
    ensures r.enable && addrBits > MaxAddrBits ==> r.addrBits == MaxAddrBits - MinAddrBits
  {
    if dummyCycles > MaxDummyCycles then RomOff
    else if addrNibbles < MinAddrNibbles || addrNibbles > MaxAddrNibbles then RomOff
    else
      var bits := if addrBits < MinAddrBits then MinAddrBits else if addrBits > MaxAddrBits then MaxAddrBits else addrBits;
      RomCfg(dummyCycles, RomModeByte, bits - MinAddrBits, addrNibbles - MinAddrNibbles, true, true)
  }

  /** The device parameters an enabled configuration stands for. */
  function RomParameters(c: RomCfg): (nat, nat, nat)
  {
    (c.dummyCycles, c.addrBits + MinAddrBits, c.addrNibbles + MinAddrNibbles)
  }

  /** Every parameter set the hardware can realise is encoded without loss. */
  lemma RomConfigRoundTrip(dummyCycles: nat, addrBits: nat, addrNibbles: nat)
    requires dummyCycles <= MaxDummyCycles && MinAddrBits <= addrBits <= MaxAddrBits
    requires MinAddrNibbles <= addrNibbles <= MaxAddrNibbles
    ensures RomConfig(dummyCycles, addrBits, addrNibbles).enable
    ensures RomParameters(RomConfig(dummyCycles, addrBits, addrNibbles)) == (dummyCycles, addrBits, addrNibbles)
  {
  }

  /** Encoding the parameters an enabled configuration stands for gives the configuration again. */
  lemma RomParametersRoundTrip(c: RomCfg)
    requires c.enable && c.dummyCycles <= MaxDummyCycles && c.addrBits <= MaxAddrBits - MinAddrBits
    requires c.addrNibbles <= MaxAddrNibbles - MinAddrNibbles
    requires c.cmdByte == RomModeByte && c.addrBeforeCmd
    ensures RomConfig(RomParameters(c).0, RomParameters(c).1, RomParameters(c).2) == c
  {
  }

  // ---------------------------------------------------------------------
  // Sending data
  // ---------------------------------------------------------------------

  /**
   * Up to four bytes as one FIFO word, the first byte in the low bits; the
   * bits of missing bytes are clear.
   */
  function PackWord(b: seq<byte>): (w: bv32)
    requires 0 < |b| <= 4
    ensures Le32(w)[..|b|] == b
  {
    LeValue(b)
  }

  /** The bytes as FIFO words, four at a time; the last word may hold fewer. */
  function Pack(b: seq<byte>): (w: seq<bv32>)
    ensures |w| == (|b| + 3) / 4
    decreases |b|
  {
    if |b| == 0 then []
    else if |b| <= 4 then [PackWord(b)]
    else [PackWord(b[..4])] + Pack(b[4..])
  }

  /** The bytes of the FIFO words, low byte first. */
  function Unpack(w: seq<bv32>): (b: seq<byte>)
    ensures |b| == 4 * |w|
  {
    if |w| == 0 then [] else Le32(w[0]) + Unpack(w[1..])
  }

  /** Unpacking the packed bytes gives the bytes back, followed by the padding of the last word. */
  lemma {:induction false} UnpackPack(b: seq<byte>)
    ensures Unpack(Pack(b))[..|b|] == b
    decreases |b|
  {
    if 0 < |b| <= 4 {
      assert Unpack(Pack(b)) == Le32(PackWord(b));
    } else if |b| > 4 {
      UnpackPack(b[4..]);
      var u := Unpack(Pack(b));
      assert u == Le32(PackWord(b[..4])) + Unpack(Pack(b[4..]));
      assert u[..4] == b[..4];
      assert u[4..][..|b| - 4] == b[4..];
      assert b == b[..4] + b[4..];
    }
  }

  /** Bytes written one per FIFO access. */
  function Widen(b: seq<byte>): (w: seq<bv32>)
    ensures |w| == |b|
  {
    if |b| == 0 then [] else [b[0] as bv32] + Widen(b[1..])
  }

  /** The low bytes of FIFO words. */
  function Narrow(w: seq<bv32>): (b: seq<byte>)
    ensures |b| == |w|
  {
    if |w| == 0 then [] else [(w[0] & 0xff) as byte] + Narrow(w[1..])
  }

  /** Narrowing undoes widening. */
  lemma {:induction false} NarrowWiden(b: seq<byte>)
    ensures Narrow(Widen(b)) == b
  {
    if |b| > 0 {
      NarrowWiden(b[1..]);
      assert Widen(b)[1..] == Widen(b[1..]);
    }
  }

  /** One transfer: its size in bytes and the words written to the FIFO for it. */
  datatype Transaction = Transaction(size: nat, writes: seq<bv32>)

  /** The FIFO writes for one transfer: a byte per access in byte mode, else packed words. */
  function FifoWrites(byteMode: bool, chunk: seq<byte>): (w: seq<bv32>)
    ensures |w| == if byteMode then |chunk| else (|chunk| + 3) / 4
  {
    if byteMode then Widen(chunk) else Pack(chunk)
  }

  /**
   * Sending data: transfers of at most maxTransfer bytes until the data is
   * used up, each started in the mode of the saved transfer control value.
   */
  function SendData(l: Layout, tcr: Word, maxTransfer: nat, data: seq<byte>): (r: seq<Transaction>)
    requires ValidLayout(l) && 0 < maxTransfer
    ensures |r| == 0 <==> |data| == 0
  {
    Transfers(ByteMode(l, tcr), maxTransfer, data)
  }

  /** The transfers of the data, with the FIFO written in byte mode or in word mode. */
  function Transfers(byteMode: bool, maxTransfer: nat, data: seq<byte>): (r: seq<Transaction>)
    requires 0 < maxTransfer
    ensures |r| == 0 <==> |data| == 0
    decreases |data|
  {
    if |data| == 0 then []
    else
      var size := if |data| > maxTransfer then maxTransfer else |data|;
      [Transaction(size, FifoWrites(byteMode, data[..size]))] + Transfers(byteMode, maxTransfer, data[size..])
  }

  /** The total size of the transfers. */
  function TotalSize(ts: seq<Transaction>): nat
  {
    if |ts| == 0 then 0 else ts[0].size + TotalSize(ts[1..])
  }

  /** The bytes a transfer carries, read off its FIFO writes. */
  function Payload(byteMode: bool, t: Transaction): seq<byte>
  {
    if byteMode then Narrow(t.writes)
    else if t.size <= |Unpack(t.writes)| then Unpack(t.writes)[..t.size]
    else Unpack(t.writes)
  }

  /** The bytes all transfers carry, in order. */
  function Received(byteMode: bool, ts: seq<Transaction>): seq<byte>
  {
    if |ts| == 0 then [] else Payload(byteMode, ts[0]) + Received(byteMode, ts[1..])
  }

  /** The bytes of a transfer followed by more transfers. */
  lemma ReceivedCons(byteMode: bool, t: Transaction, ts: seq<Transaction>)
    ensures Received(byteMode, [t] + ts) == Payload(byteMode, t) + Received(byteMode, ts)
  {
    assert ([t] + ts)[1..] == ts;
  }

  /** A transfer of a chunk, followed by transfers carrying the rest, carries the chunk and the rest. */
  lemma ReceivedChunk(byteMode: bool, chunk: seq<byte>, ts: seq<Transaction>, rest: seq<byte>)
    requires Received(byteMode, ts) == rest
    ensures Received(byteMode, [Transaction(|chunk|, FifoWrites(byteMode, chunk))] + ts) == chunk + rest
  {
    ReceivedCons(byteMode, Transaction(|chunk|, FifoWrites(byteMode, chunk)), ts);
    PayloadOfChunk(byteMode, chunk);
  }

  /** A transfer of a chunk carries the chunk. */
  lemma PayloadOfChunk(byteMode: bool, chunk: seq<byte>)
    ensures Payload(byteMode, Transaction(|chunk|, FifoWrites(byteMode, chunk))) == chunk
  {
    if byteMode {
      NarrowWiden(chunk);
    } else {
      UnpackPack(chunk);
    }
  }

  /**
   * The transfers are non-empty, at most maxTransfer bytes each, all but the
   * last exactly maxTransfer, and together as long as the data.
   */
  lemma SendDataSizes(l: Layout, tcr: Word, maxTransfer: nat, data: seq<byte>)
    requires ValidLayout(l) && 0 < maxTransfer
    ensures var r := SendData(l, tcr, maxTransfer, data);
            TotalSize(r) == |data|
            && (forall k :: 0 <= k < |r| ==> 0 < r[k].size <= maxTransfer)
            && (forall k :: 0 <= k < |r| - 1 ==> r[k].size == maxTransfer)
  {
    TransfersSizes(ByteMode(l, tcr), maxTransfer, data);
  }

  /** The sizes of the transfers, in either mode. */
  lemma {:induction false} TransfersSizes(byteMode: bool, maxTransfer: nat, data: seq<byte>)
    requires 0 < maxTransfer
    ensures var r := Transfers(byteMode, maxTransfer, data);
            TotalSize(r) == |data|
            && (forall k :: 0 <= k < |r| ==> 0 < r[k].size <= maxTransfer)
            && (forall k :: 0 <= k < |r| - 1 ==> r[k].size == maxTransfer)
    decreases |data|
  {
    if |data| > 0 {
      var size := if |data| > maxTransfer then maxTransfer else |data|;
      var rest := data[size..];
      var tail := Transfers(byteMode, maxTransfer, rest);
      TransfersSizes(byteMode, maxTransfer, rest);
      TransfersStep(byteMode, maxTransfer, data, size, tail);
      var r := Transfers(byteMode, maxTransfer, data);
      assert r[0].size == size && r[1..] == tail;
    }
  }

  /** The first transfer takes the first size bytes; the rest of the data follows. */
  lemma TransfersStep(byteMode: bool, maxTransfer: nat, data: seq<byte>, size: nat, tail: seq<Transaction>)
    requires 0 < maxTransfer && 0 < |data|
    requires size == (if |data| > maxTransfer then maxTransfer else |data|)
    requires tail == Transfers(byteMode, maxTransfer, data[size..])
    ensures Transfers(byteMode, maxTransfer, data) == [Transaction(|data[..size]|, FifoWrites(byteMode, data[..size]))] + tail
  {
  }

  /** The FIFO writes of all transfers carry exactly the data, in order, in either mode. */
  lemma SendDataDelivers(l: Layout, tcr: Word, maxTransfer: nat, data: seq<byte>)
    requires ValidLayout(l) && 0 < maxTransfer
    ensures Received(ByteMode(l, tcr), SendData(l, tcr, maxTransfer, data)) == data
  {
    TransfersDeliver(ByteMode(l, tcr), maxTransfer, data);
  }

  /** The transfers carry the data, in either mode. */
  lemma {:induction false} TransfersDeliver(byteMode: bool, maxTransfer: nat, data: seq<byte>)
    requires 0 < maxTransfer
    ensures Received(byteMode, Transfers(byteMode, maxTransfer, data)) == data
    decreases |data|
  {
    if |data| > 0 {
      var size := if |data| > maxTransfer then maxTransfer else |data|;
      var chunk, rest := data[..size], data[size..];
      var tail := Transfers(byteMode, maxTransfer, rest);
      TransfersDeliver(byteMode, maxTransfer, rest);
      DeliverStep(byteMode, maxTransfer, data, size, chunk, rest, tail);
    }
  }

  /** The first transfer carries the first chunk; when the later ones carry the rest, all carry the data. */
  lemma DeliverStep(byteMode: bool, maxTransfer: nat, data: seq<byte>, size: nat, chunk: seq<byte>, rest: seq<byte>, tail: seq<Transaction>)
    requires 0 < maxTransfer && 0 < |data| && size == (if |data| > maxTransfer then maxTransfer else |data|)
    requires chunk == data[..size] && rest == data[size..]
    requires tail == Transfers(byteMode, maxTransfer, rest) && Received(byteMode, tail) == rest
    ensures Received(byteMode, Transfers(byteMode, maxTransfer, data)) == data
  {
    ReceivedChunk(byteMode, chunk, tail, rest);
    TransfersStep(byteMode, maxTransfer, data, size, tail);
    assert data == chunk + rest;
  }

  /** With one-bit width every byte takes one FIFO access; with two or four bits, four bytes share one. */
  lemma SendDataWrites(l: Layout, cr0: Word, tcr: Word, width: nat, maxTransfer: nat, data: seq<byte>, k: nat)
    requires ValidLayout(l) && 0 < maxTransfer && SetBusWidth(l, cr0, tcr, width).Some?
    requires k < |SendData(l, SetBusWidth(l, cr0, tcr, width).value.1, maxTransfer, data)|
    ensures var t := SendData(l, SetBusWidth(l, cr0, tcr, width).value.1, maxTransfer, data)[k];
            |t.writes| == if width == BusWidth1Bit then t.size else (t.size + 3) / 4
  {
    var tcr' := SetBusWidth(l, cr0, tcr, width).value.1;
    ByteModeIffOneBit(l, cr0, tcr, width);
    SendDataWritesAt(l, tcr', maxTransfer, data, k);
  }

  /** Transfer k has as many FIFO writes as its mode needs for its size. */
  lemma SendDataWritesAt(l: Layout, tcr: Word, maxTransfer: nat, data: seq<byte>, k: nat)
    requires ValidLayout(l) && 0 < maxTransfer && k < |SendData(l, tcr, maxTransfer, data)|
    ensures var t := SendData(l, tcr, maxTransfer, data)[k];
            |t.writes| == if ByteMode(l, tcr) then t.size else (t.size + 3) / 4
  {
    TransfersWritesAt(ByteMode(l, tcr), maxTransfer, data, k);
  }

  /** The FIFO writes of transfer k, in either mode. */
  lemma {:induction false} TransfersWritesAt(byteMode: bool, maxTransfer: nat, data: seq<byte>, k: nat)
    requires 0 < maxTransfer && k < |Transfers(byteMode, maxTransfer, data)|
    ensures var t := Transfers(byteMode, maxTransfer, data)[k];
            |t.writes| == if byteMode then t.size else (t.size + 3) / 4
    decreases |data|
  {
    var size := if |data| > maxTransfer then maxTransfer else |data|;
    if k > 0 {
      TransfersWritesAt(byteMode, maxTransfer, data[size..], k - 1);
    }
  }
}
