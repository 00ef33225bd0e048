/**
 * Parallel NOR flash with the AMD/Spansion command set: identification by
 * manufacturer code, the unlock policy read from the CFI extended query, the
 * DQ5/DQ6 toggle-poll state machine for one or two devices on the bus,
 * command-word replication for paired devices, the status-bit test, length
 * padding to the bus width and the chunking of buffered writes.
 */
module Spansion {
  import opened Wrappers
  import opened Bytes
  import Arith

  /** The data bus: 8, 16 or 32 bits wide. */
  datatype BusWidth = Bus8 | Bus16 | Bus32

  /** Bytes per bus element. */
  function ElementBytes(w: BusWidth): (r: nat)
    ensures r == 1 || r == 2 || r == 4
  {
    match w
    case Bus8 => 1
    case Bus16 => 2
    case Bus32 => 4
  }

  /** Errors of the flash driver interface. */
  datatype FlashError =
    | NoError | GeneralError | Locked | Busy | VppLow | NotErased
    | InvalidParameter | Aborted | DeviceFailed

  // ---------------------------------------------------------------------
  // Identification
  // ---------------------------------------------------------------------

  const MfgSpansion: nat := 0x01
  const MfgEon: nat := 0x7f
  const MfgMacronix: nat := 0xc2

  /** The characters '1' and '5' of the extended-query version. */
  const VersionOne: nat := 0x31
  const VersionFive: nat := 0x35

  /** Which unlock routine the driver installs. */
  datatype UnlockRoutine = UnlockSectors | UnlockDummy

  /** The fields of the CFI primary extended query that matter here. */
  datatype ExtQuery = ExtQuery(majorVer: u8, minorVer: u8, protectScheme: u8)

  /** An identified device: its name and its unlock routine. */
  datatype Identity = Identity(ident: string, unlock: UnlockRoutine)

  /**
   * `SpansionIdentifyFlash`: the manufacturer code read in autoselect mode
   * selects the name; Eon and Macronix parts are driven as Spansion parts.
   * A valid extended query of version 1.0 to 1.4 chooses the unlock routine
   * by protection scheme; otherwise the routine of the Spansion function
   * table (the real unlock) stays.
   */
  function Identify(code: u8, extQuery: Option<ExtQuery>): (r: Option<Identity>)
    ensures r.Some? <==> code == MfgSpansion || code == MfgEon || code == MfgMacronix
    ensures r.Some? ==> (r.value.unlock == UnlockDummy <==>
      (extQuery.Some? && extQuery.value.majorVer == VersionOne
       && extQuery.value.minorVer < VersionFive && extQuery.value.protectScheme < 5))
  {
    var name :=
      if code == MfgSpansion then Some("SPANSION")
      else if code == MfgEon then Some("EON")
      else if code == MfgMacronix then Some("MACRONIX")
      else None;
    if name.None? then None
    else
      var unlock :=
        if extQuery.Some? && extQuery.value.majorVer == VersionOne && extQuery.value.minorVer < VersionFive
        then (if extQuery.value.protectScheme < 5 then UnlockDummy else UnlockSectors)
        else UnlockSectors;
      Some(Identity(name.value, unlock))
  }

  /** Different manufacturers get different names, so the name tells the code back. */
  lemma IdentifyNamesDistinct(c1: u8, q1: Option<ExtQuery>, c2: u8, q2: Option<ExtQuery>)
    requires Identify(c1, q1).Some? && Identify(c2, q2).Some?
    requires Identify(c1, q1).value.ident == Identify(c2, q2).value.ident
    ensures c1 == c2
  {
  }

  // ---------------------------------------------------------------------
  // Toggle polling
  // ---------------------------------------------------------------------

  /** Progress of one device during a program or erase cycle. */
  datatype FlashStatus = Busy0 | Busy1 | Ok | Failed | Abort

  predicate IsBusy(s: FlashStatus)
  {
    s == Busy0 || s == Busy1
  }

  /**
   * One poll of one device, given whether DQ6 toggled between two reads and
   * whether DQ5 was set in both. A device that stops toggling is done; DQ5
   * while toggling means the time limit is hit, and a device still toggling
   * on the next poll has failed. Each outcome is listed with its causes.
   */
  function PollStep(s: FlashStatus, toggles: bool, q5Both: bool): (r: FlashStatus)
    ensures !IsBusy(s) ==> r == s
    ensures IsBusy(s) ==> (r == Ok <==> !toggles)
    ensures r == Busy0 ==> s == Busy0 && toggles && !q5Both
    ensures r == Busy1 ==> s == Busy0 && toggles && q5Both
    ensures r == Failed ==> s == Failed || (s == Busy1 && toggles)
  {
    match s
    case Busy0 => if !toggles then Ok else if q5Both then Busy1 else Busy0
    case Busy1 => if !toggles then Ok else Failed
    case _ => s
  }

  /** Number of devices sharing the bus: two only for a paired 16- or 32-bit bus. */
  function DeviceCount(w: BusWidth, paired: bool): (n: nat)
    ensures n == 1 || n == 2
  {
    if paired && w != Bus8 then 2 else 1
  }

  /** Widths of the two devices' lanes on a paired 16-bit and 32-bit bus. */
  const ByteBits: bv32 := 8
  const HalfBits: bv32 := 16

  /** Bit distance between the two devices' status bytes on a paired bus. */
  function LaneBits(w: BusWidth): bv32
  {
    match w
    case Bus8 => 0
    case Bus16 => ByteBits
    case Bus32 => HalfBits
  }

  /** DQ5 (time limit) of device d; zero for an inactive second device. */
  function Q5Mask(w: BusWidth, paired: bool, d: nat): bv32
    requires d < 2
  {
    if d == 0 then 0x20
    else if !paired then 0
    else match w
      case Bus8 => 0
      case Bus16 => 0x2000
      case Bus32 => 0x20_0000
  }

  /** DQ6 (toggle bit) of device d; zero for an inactive second device. */
  function Q6Mask(w: BusWidth, paired: bool, d: nat): bv32
    requires d < 2
  {
    if d == 0 then 0x40
    else if !paired then 0
    else match w
      case Bus8 => 0
      case Bus16 => 0x4000
      case Bus32 => 0x40_0000
  }

  /**
   * The second device's status bits are the first device's moved up by one
   * device width, and they are present exactly when two devices share the bus.
   */
  lemma SecondDeviceMasks(w: BusWidth, paired: bool)
    ensures DeviceCount(w, paired) == 2 <==> Q6Mask(w, paired, 1) != 0
    ensures DeviceCount(w, paired) == 2 <==> Q5Mask(w, paired, 1) != 0
    ensures DeviceCount(w, paired) == 2 ==>
      Q5Mask(w, paired, 1) == Q5Mask(w, paired, 0) << LaneBits(w)
      && Q6Mask(w, paired, 1) == Q6Mask(w, paired, 0) << LaneBits(w)
  {
  }

  /** Two consecutive reads of the status address. */
  datatype StatusRead = StatusRead(first: bv32, second: bv32)

  /** Whether device d's DQ6 differs between the two reads. */
  predicate Toggles(w: BusWidth, paired: bool, d: nat, s: StatusRead)
    requires d < 2
  {
    (s.first ^ s.second) & Q6Mask(w, paired, d) != 0
  }

  /** Whether device d's DQ5 is set in both reads. */
  predicate Q5Both(w: BusWidth, paired: bool, d: nat, s: StatusRead)
    requires d < 2
  {
    (s.first & s.second) & Q5Mask(w, paired, d) != 0
  }

  /** The status slots of the two devices. */
  datatype Slots = Slots(dev0: FlashStatus, dev1: FlashStatus)

  /** One poll of every active device; an inactive second slot is left alone. */
  function Round(sl: Slots, w: BusWidth, paired: bool, s: StatusRead): (r: Slots)
    ensures DeviceCount(w, paired) == 1 ==> r.dev1 == sl.dev1
  {
    Slots(
      PollStep(sl.dev0, Toggles(w, paired, 0, s), Q5Both(w, paired, 0, s)),
      if DeviceCount(w, paired) == 2
      then PollStep(sl.dev1, Toggles(w, paired, 1, s), Q5Both(w, paired, 1, s))
      else sl.dev1)
  }

  /** Every active device has left the busy states. */
  predicate Finished(sl: Slots, n: nat)
  {
    !IsBusy(sl.dev0) && (n == 1 || !IsBusy(sl.dev1))
  }

  /**
   * The polling loop of `wait_for_program_or_erase_done`, over the status
   * reads the bus delivers: at least one round, repeated until every active
   * device is finished. None when the reads run out first (the loop itself
   * has no time limit).
   */
  function Poll(sl: Slots, w: BusWidth, paired: bool, polls: seq<StatusRead>): (r: Option<Slots>)
    decreases |polls|
    ensures r.Some? ==> Finished(r.value, DeviceCount(w, paired))
    ensures r.Some? && !IsBusy(sl.dev0) ==> r.value.dev0 == sl.dev0
    ensures r.Some? && DeviceCount(w, paired) == 1 ==> r.value.dev1 == sl.dev1
  {
    if |polls| == 0 then None
    else
      var next := Round(sl, w, paired, polls[0]);
      if Finished(next, DeviceCount(w, paired)) then Some(next)
      else Poll(next, w, paired, polls[1..])
  }

  /**
   * A device that ends in Failed first saw DQ5 set in both reads of some
   * poll while it was toggling.
   */
  lemma {:induction false} FailedNeedsTimeLimit(sl: Slots, w: BusWidth, paired: bool, polls: seq<StatusRead>)
    requires sl.dev0 == Busy0
    requires Poll(sl, w, paired, polls).Some? && Poll(sl, w, paired, polls).value.dev0 == Failed
    ensures exists i :: 0 <= i < |polls| && Q5Both(w, paired, 0, polls[i])
    decreases |polls|
  {
    var next := Round(sl, w, paired, polls[0]);
    if next.dev0 == Busy1 {
      assert Q5Both(w, paired, 0, polls[0]);
    } else {
      assert next.dev0 == Busy0;
      FailedNeedsTimeLimit(next, w, paired, polls[1..]);
      var i :| 0 <= i < |polls[1..]| && Q5Both(w, paired, 0, polls[1..][i]);
      assert polls[1..][i] == polls[i + 1];
    }
  }

  /** A first pair of reads in which no active device toggles ends the wait at once, all Ok. */
  lemma QuietBusFinishes(w: BusWidth, paired: bool, polls: seq<StatusRead>)
    requires |polls| > 0
    requires !Toggles(w, paired, 0, polls[0]) && !Toggles(w, paired, 1, polls[0])
    ensures Poll(Slots(Busy0, Busy0), w, paired, polls)
      == Some(Slots(Ok, if DeviceCount(w, paired) == 2 then Ok else Busy0))
  {
  }

  /**
   * The verdict of `wait_for_program_or_erase_done` as written: success
   * needs both status slots Ok, whether or not the second device exists,
   * and the readback to equal the programmed data.
   */
  function WaitDoneAsWritten(w: BusWidth, paired: bool, polls: seq<StatusRead>, readback: bv32, data: bv32)
    : (r: Option<FlashError>)
    ensures r.Some? <==> Poll(Slots(Busy0, Busy0), w, paired, polls).Some?
    ensures r.Some? ==> r.value == NoError || r.value == DeviceFailed
  {
    match Poll(Slots(Busy0, Busy0), w, paired, polls)
    case None => None
    case Some(sl) =>
      Some(if sl.dev0 == Ok && sl.dev1 == Ok && readback == data then NoError else DeviceFailed)
  }

  /** With a single device the second slot never leaves Busy0, so the wait as written never succeeds. */
  lemma SingleDeviceNeverSucceeds(w: BusWidth, paired: bool, polls: seq<StatusRead>, readback: bv32, data: bv32)
    requires DeviceCount(w, paired) == 1
    ensures WaitDoneAsWritten(w, paired, polls, readback, data) != Some(NoError)
  {
  }

  /** A concrete case: an 8-bit device that is idle and read back correctly is reported failed. */
  lemma IdleByteDeviceReportedFailed()
    ensures WaitDoneAsWritten(Bus8, false, [StatusRead(0, 0)], 0, 0) == Some(DeviceFailed)
  {
  }

  /** Every active device ended Ok. */
  predicate AllOk(sl: Slots, n: nat)
  {
    sl.dev0 == Ok && (n == 1 || sl.dev1 == Ok)
  }

  /** The intended verdict: only the active devices' slots decide. */
  function WaitDone(w: BusWidth, paired: bool, polls: seq<StatusRead>, readback: bv32, data: bv32)
    : (r: Option<FlashError>)
    ensures r.Some? <==> Poll(Slots(Busy0, Busy0), w, paired, polls).Some?
    ensures r == Some(NoError) <==>
      (Poll(Slots(Busy0, Busy0), w, paired, polls).Some?
       && AllOk(Poll(Slots(Busy0, Busy0), w, paired, polls).value, DeviceCount(w, paired))
       && readback == data)
  {
    match Poll(Slots(Busy0, Busy0), w, paired, polls)
    case None => None
    case Some(sl) =>
      Some(if AllOk(sl, DeviceCount(w, paired)) && readback == data then NoError else DeviceFailed)
  }

  /** On a two-device bus the intended verdict is the verdict as written. */
  lemma WaitDoneAgreesWhenPaired(w: BusWidth, paired: bool, polls: seq<StatusRead>, readback: bv32, data: bv32)
    requires DeviceCount(w, paired) == 2
    ensures WaitDone(w, paired, polls, readback, data) == WaitDoneAsWritten(w, paired, polls, readback, data)
  {
  }

  /** The idle 8-bit device that the verdict as written rejects is accepted. */
  lemma IdleByteDeviceAccepted()
    ensures WaitDone(Bus8, false, [StatusRead(0, 0)], 0, 0) == Some(NoError)
  {
  }

  // ---------------------------------------------------------------------
  // Command words and status tests
  // ---------------------------------------------------------------------

  /** A value as read or written on the bus: the low 8, 16 or 32 bits. */
  function BusValue(w: BusWidth, v: bv32): (r: bv32)
  {
    match w
    case Bus8 => v & 0xff
    case Bus16 => v & 0xffff
    case Bus32 => v
  }

  /** A value copied into the second device's lane on a paired 16- or 32-bit bus. */
  function Replicate(w: BusWidth, paired: bool, v: bv32): bv32
  {
    if !paired then v
    else match w
      case Bus8 => v
      case Bus16 => Rep16(v)
      case Bus32 => Rep32(v)
  }

  /** `FlashWriteCommand`: the word put on the bus for a command. */
  function CommandWord(w: BusWidth, paired: bool, cmd: bv32): (r: bv32)
    ensures DeviceCount(w, paired) == 1 && (w == Bus8 ==> cmd < 0x100) && (w == Bus16 ==> cmd < 0x1_0000)
            ==> r == cmd
  {
    BusValue(w, Replicate(w, paired, cmd))
  }

  /** Both devices of a paired 16-bit bus receive the same byte command. */
  lemma CommandReplicated16(cmd: bv32)
    requires cmd < 0x100
    ensures CommandWord(Bus16, true, cmd) & 0xff == cmd
    ensures CommandWord(Bus16, true, cmd) >> ByteBits == cmd
  {
  }

  /** Both devices of a paired 32-bit bus receive the same halfword command. */
  lemma CommandReplicated32(cmd: bv32)
    requires cmd < 0x1_0000
    ensures CommandWord(Bus32, true, cmd) & 0xffff == cmd
    ensures CommandWord(Bus32, true, cmd) >> HalfBits == cmd
  {
  }

  /** All bits of setMask are 1 in v and all bits of clearMask are 0. */
  predicate BitsMatch(v: bv32, setMask: bv32, clearMask: bv32)
  {
    v & setMask == setMask && v & clearMask == 0
  }

  /** `FlashIsset`: the masks are replicated like commands and tested on the bus value. */
  predicate Isset(w: BusWidth, paired: bool, raw: bv32, setMask: bv32, clearMask: bv32)
    ensures DeviceCount(w, paired) == 1 ==>
      (Isset(w, paired, raw, setMask, clearMask) <==> BitsMatch(BusValue(w, raw), setMask, clearMask))
  {
    BitsMatch(BusValue(w, raw), Replicate(w, paired, setMask), Replicate(w, paired, clearMask))
  }

  /** A byte mask copied into both byte lanes of a halfword. */
  function Rep16(m: bv32): bv32
  {
    m | (m << ByteBits)
  }

  /** A halfword mask copied into both halfword lanes of a word. */
  function Rep32(m: bv32): bv32
  {
    m | (m << HalfBits)
  }

  lemma SetBoth16(raw: bv32, m: bv32)
    requires m < 0x100 && (raw & 0xffff) & Rep16(m) == Rep16(m)
    ensures (raw & 0xff) & m == m && ((raw >> ByteBits) & 0xff) & m == m
  {
  }

  lemma SetEach16(raw: bv32, m: bv32)
    requires m < 0x100 && (raw & 0xff) & m == m && ((raw >> ByteBits) & 0xff) & m == m
    ensures (raw & 0xffff) & Rep16(m) == Rep16(m)
  {
  }

  lemma ClearBoth16(raw: bv32, m: bv32)
    requires m < 0x100 && (raw & 0xffff) & Rep16(m) == 0
    ensures (raw & 0xff) & m == 0 && ((raw >> ByteBits) & 0xff) & m == 0
  {
  }

  lemma ClearEach16(raw: bv32, m: bv32)
    requires m < 0x100 && (raw & 0xff) & m == 0 && ((raw >> ByteBits) & 0xff) & m == 0
    ensures (raw & 0xffff) & Rep16(m) == 0
  {
  }

  lemma SetBoth32(raw: bv32, m: bv32)
    requires m < 0x1_0000 && raw & Rep32(m) == Rep32(m)
    ensures (raw & 0xffff) & m == m && (raw >> HalfBits) & m == m
  {
  }

  lemma SetEach32(raw: bv32, m: bv32)
    requires m < 0x1_0000 && (raw & 0xffff) & m == m && (raw >> HalfBits) & m == m
    ensures raw & Rep32(m) == Rep32(m)
  {
  }

  lemma ClearBoth32(raw: bv32, m: bv32)
    requires m < 0x1_0000 && raw & Rep32(m) == 0
    ensures (raw & 0xffff) & m == 0 && (raw >> HalfBits) & m == 0
  {
  }

  lemma ClearEach32(raw: bv32, m: bv32)
    requires m < 0x1_0000 && (raw & 0xffff) & m == 0 && (raw >> HalfBits) & m == 0
    ensures raw & Rep32(m) == 0
  {
  }

  /** On a paired 16-bit bus a passing test means each device's byte passes. */
  lemma IssetPaired16Sound(raw: bv32, setMask: bv32, clearMask: bv32)
    requires setMask < 0x100 && clearMask < 0x100
    requires Isset(Bus16, true, raw, setMask, clearMask)
    ensures BitsMatch(raw & 0xff, setMask, clearMask)
    ensures BitsMatch((raw >> ByteBits) & 0xff, setMask, clearMask)
  {
    SetBoth16(raw, setMask);
    ClearBoth16(raw, clearMask);
  }

  /** On a paired 16-bit bus the test passes when each device's byte passes. */
  lemma IssetPaired16Complete(raw: bv32, setMask: bv32, clearMask: bv32)
    requires setMask < 0x100 && clearMask < 0x100
    requires BitsMatch(raw & 0xff, setMask, clearMask)
    requires BitsMatch((raw >> ByteBits) & 0xff, setMask, clearMask)
    ensures Isset(Bus16, true, raw, setMask, clearMask)
  {
    SetEach16(raw, setMask);
    ClearEach16(raw, clearMask);
    assert BitsMatch(raw & 0xffff, Rep16(setMask), Rep16(clearMask));
  }

  /** On a paired 32-bit bus a passing test means each device's halfword passes. */
  lemma IssetPaired32Sound(raw: bv32, setMask: bv32, clearMask: bv32)
    requires setMask < 0x1_0000 && clearMask < 0x1_0000
    requires Isset(Bus32, true, raw, setMask, clearMask)
    ensures BitsMatch(raw & 0xffff, setMask, clearMask)
    ensures BitsMatch(raw >> HalfBits, setMask, clearMask)
  {
    var word := raw & Rep32(setMask) == Rep32(setMask);
    assert word;
    SetBoth32(raw, setMask);
    ClearBoth32(raw, clearMask);
  }

  /** On a paired 32-bit bus the test passes when each device's halfword passes. */
  lemma IssetPaired32Complete(raw: bv32, setMask: bv32, clearMask: bv32)
    requires setMask < 0x1_0000 && clearMask < 0x1_0000
    requires BitsMatch(raw & 0xffff, setMask, clearMask)
    requires BitsMatch(raw >> HalfBits, setMask, clearMask)
    ensures Isset(Bus32, true, raw, setMask, clearMask)
  {
    SetEach32(raw, setMask);
    ClearEach32(raw, clearMask);
    assert BitsMatch(raw, Rep32(setMask), Rep32(clearMask));
  }

  // ---------------------------------------------------------------------
  // Programming: padding and bounds
  // ---------------------------------------------------------------------

  /** A sector: its offset in the flash and its size in bytes. */
  datatype Sector = Sector(offset: nat, size: nat)

  /** The parts of the flash description the programming path reads. */
  datatype Device = Device(
    width: BusWidth, paired: bool, flashSize: u32, maxBufferWriteSize: u32, sectors: seq<Sector>)

  /**
   * The length padded so that the end offset inside the sector is a multiple
   * of the bus width. The end offset and the padded length are 32-bit sums;
   * the low bits of the end do not depend on the carry.
   */
  function PaddedLength(w: BusWidth, offset: u32, length: u32): (r: u32)
    ensures (offset + length) % ElementBytes(w) == 0 ==> r == length
  {
    var rem := Wrap32(offset + length) % ElementBytes(w);
    if rem == 0 then length else Wrap32(length + (ElementBytes(w) - rem))
  }

  /**
   * Without a carry the padding adds less than one element, moves the end to
   * the next multiple of the bus width, and leaves an aligned end alone.
   */
  lemma PaddedIsRoundUp(w: BusWidth, offset: u32, length: u32)
    requires offset + length + 4 <= Word32
    ensures length <= PaddedLength(w, offset, length) < length + ElementBytes(w)
    ensures offset + PaddedLength(w, offset, length) == Arith.RoundUp(offset + length, ElementBytes(w))
    ensures (offset + PaddedLength(w, offset, length)) % ElementBytes(w) == 0
  {
    var m := ElementBytes(w);
    if (offset + length) % m == 0 {
      Arith.AlignedRoundUp(offset + length, m);
    } else {
      Arith.NextBoundary(offset + length, m);
    }
  }

  /** Where programming starts: sector, offset in it, and the padded length. */
  datatype ProgramStart = ProgramStart(sector: nat, offset: u32, length: u32)

  /** The sector lookup's promise: the sector holds the start address. */
  predicate Holds(dev: Device, sector: nat, start: nat)
  {
    sector < |dev.sectors| && dev.sectors[sector].offset <= start
    && start - dev.sectors[sector].offset < dev.sectors[sector].size
  }

  /**
   * The checks of `FlashProgram` after padding: no sector holds the start,
   * or the start plus the padded length, a 32-bit sum, passes the end of
   * the flash. The sector lookup is an input.
   */
  function StartProgram(dev: Device, start: u32, length: u32, sector: Option<nat>)
    : (r: Result<ProgramStart, FlashError>)
    requires sector.Some? ==> Holds(dev, sector.value, start)
    ensures r.Failure? ==> r.error == InvalidParameter
    ensures sector.None? ==> r.Failure?
    ensures r.Success? ==> (sector == Some(r.value.sector)
      && r.value.offset == start - dev.sectors[r.value.sector].offset
      && r.value.length == PaddedLength(dev.width, r.value.offset, length))
    ensures r.Success? && start + r.value.length < Word32 ==> start + r.value.length <= dev.flashSize
  {
    if sector.None? then Failure(InvalidParameter)
    else
      var offset := start - dev.sectors[sector.value].offset;
      var padded := PaddedLength(dev.width, offset, length);
      if Wrap32(start + padded) > dev.flashSize then Failure(InvalidParameter)
      else Success(ProgramStart(sector.value, offset, padded))
  }

  /**
   * A request inside the flash whose end is a multiple of the bus width,
   * in a sector that starts on one, is accepted without padding.
   */
  lemma StartProgramAccepts(dev: Device, start: u32, length: u32, sector: nat)
    requires Holds(dev, sector, start)
    requires start + length + 4 <= Word32 && start + length <= dev.flashSize
    requires (start + length) % ElementBytes(dev.width) == 0
    requires dev.sectors[sector].offset % ElementBytes(dev.width) == 0
    ensures StartProgram(dev, start, length, Some(sector)).Success?
    ensures StartProgram(dev, start, length, Some(sector)).value.length == length
  {
    var m := ElementBytes(dev.width);
    var offset := start - dev.sectors[sector].offset;
    Arith.DiffAligned(start + length, dev.sectors[sector].offset, m);
    assert offset + length == start + length - dev.sectors[sector].offset;
    PaddedIsRoundUp(dev.width, offset, length);
  }

  /** A request that runs past the end of the flash, without a carry, is rejected. */
  lemma StartProgramRejects(dev: Device, start: u32, length: u32, sector: Option<nat>)
    requires sector.Some? ==> Holds(dev, sector.value, start)
    requires start + length + 4 <= Word32 && start + length > dev.flashSize
    ensures StartProgram(dev, start, length, sector) == Failure(InvalidParameter)
  {
    if sector.Some? {
      var offset := start - dev.sectors[sector.value].offset;
      PaddedIsRoundUp(dev.width, offset, length);
    }
  }

  // ---------------------------------------------------------------------
  // Programming: the unbuffered head and the buffered chunks
  // ---------------------------------------------------------------------

  /**
   * How `FlashProgram` divides the padded request: a head written element
   * by element up to the next buffer boundary, then the rest in buffered
   * chunks starting at the given sector and offset. A device without a
   * write buffer (buffer size 1) writes everything element by element.
   */
  datatype ProgramSplit = ProgramSplit(head: nat, sector: nat, offset: nat, rest: nat)

  /** The offset lies inside the sector. */
  predicate InSector(dev: Device, sector: nat, offset: nat)
  {
    sector < |dev.sectors| && offset < dev.sectors[sector].size
  }

  function SplitProgram(dev: Device, p: ProgramStart): (r: ProgramSplit)
    requires 0 < dev.maxBufferWriteSize && InSector(dev, p.sector, p.offset)
    ensures r.head + r.rest == p.length
    ensures r.sector == p.sector || r.sector == p.sector + 1
    ensures dev.maxBufferWriteSize == 1 ==> r.rest == 0
  {
    var buffer := dev.maxBufferWriteSize;
    if buffer == 1 then ProgramSplit(p.length, p.sector, p.offset, 0)
    else
      var mod := p.offset % buffer;
      var head := if mod == 0 then 0 else if buffer - mod > p.length then p.length else buffer - mod;
      var offset := p.offset + head;
      var size := dev.sectors[p.sector].size;
      if mod != 0 && offset >= size
      then ProgramSplit(head, p.sector + 1, (size - offset) % Word32, p.length - head)
      else ProgramSplit(head, p.sector, offset, p.length - head)
  }

  /**
   * The head and the rest make up the request. When the sector size is a
   * multiple of the buffer size the buffered rest starts on a buffer boundary
   * inside its sector, at offset 0 of the next sector when the head filled
   * the current one.
   */
  lemma SplitProgramAligned(dev: Device, p: ProgramStart)
    requires 1 < dev.maxBufferWriteSize && InSector(dev, p.sector, p.offset)
    requires dev.sectors[p.sector].size % dev.maxBufferWriteSize == 0
    ensures SplitProgram(dev, p).head + SplitProgram(dev, p).rest == p.length
    ensures SplitProgram(dev, p).rest > 0 ==> SplitProgram(dev, p).offset % dev.maxBufferWriteSize == 0
    ensures SplitProgram(dev, p).sector == p.sector ==>
      (SplitProgram(dev, p).offset < dev.sectors[p.sector].size || SplitProgram(dev, p).rest == 0)
    ensures SplitProgram(dev, p).sector != p.sector ==>
      (SplitProgram(dev, p).sector == p.sector + 1 && SplitProgram(dev, p).offset == 0)
  {
    var buffer := dev.maxBufferWriteSize;
    var size := dev.sectors[p.sector].size;
    if p.offset % buffer != 0 {
      Arith.NextBoundary(p.offset, buffer);
      Arith.AlignedAbove(buffer, size, Arith.RoundUp(p.offset, buffer), p.offset);
    }
  }

  /** A buffered chunk: sector, offset in it, and size in bytes. */
  datatype Chunk = Chunk(sector: nat, offset: nat, size: nat)

  /** The write buffer's capacity: two devices' buffers on a paired bus, doubled in 32 bits. */
  function BufferBytes(dev: Device): u32
  {
    if dev.paired then (2 * dev.maxBufferWriteSize) % Word32 else dev.maxBufferWriteSize
  }

  /** The element count sent with a chunk: its size in elements minus one, as a 32-bit value. */
  function ElementCount(w: BusWidth, size: u32): (r: u32)
    ensures 0 < size && size % ElementBytes(w) == 0 ==> (r + 1) * ElementBytes(w) == size
    ensures size < ElementBytes(w) ==> r == Word32 - 1
  {
    var elements := match w
      case Bus8 => size
      case Bus16 => size / 2
      case Bus32 => size / 4;
    if elements == 0 then Word32 - 1 else elements - 1
  }

  /** Every sector holds at least one byte. */
  predicate SectorsNonEmpty(sectors: seq<Sector>)
  {
    forall i :: 0 <= i < |sectors| ==> sectors[i].size > 0
  }

  /** Bytes from the given offset in sector i to the end of the last sector. */
  function Room(sectors: seq<Sector>, i: nat, offset: nat): nat
    requires i <= |sectors|
    decreases |sectors| - i
  {
    if i == |sectors| then 0
    else (if offset <= sectors[i].size then sectors[i].size - offset else 0) + Room(sectors, i + 1, 0)
  }

  /** A chunk fits the buffer and stays inside its sector. */
  predicate ChunkFits(sectors: seq<Sector>, buffer: nat, c: Chunk)
  {
    c.sector < |sectors| && 0 < c.size <= buffer && c.offset + c.size <= sectors[c.sector].size
  }

  /** Total size of a run of chunks. */
  function Total(cs: seq<Chunk>): nat
  {
    if |cs| == 0 then 0 else cs[0].size + Total(cs[1..])
  }

  /** d starts where c ends: right after it, or at the start of the next sector when c filled its sector. */
  predicate Follows(sectors: seq<Sector>, c: Chunk, d: Chunk)
    requires c.sector < |sectors|
  {
    if c.offset + c.size == sectors[c.sector].size
    then d.sector == c.sector + 1 && d.offset == 0
    else d.sector == c.sector && d.offset == c.offset + c.size
  }

  /** The smaller of two numbers. */
  function Min(a: nat, b: nat): nat
  {
    if a <= b then a else b
  }

  /** Where the chunk after one of the given size continues. */
  function NextPosition(sectors: seq<Sector>, sector: nat, offset: nat, size: nat): (nat, nat)
    requires sector < |sectors|
  {
    if offset + size == sectors[sector].size then (sector + 1, 0) else (sector, offset + size)
  }

  /**
   * The chunks of `FlashBufferedWrite` when every wait succeeds: each takes
   * as much as is left, the buffer holds and the sector has room for, and
   * the write moves to the next sector when the offset reaches its end.
   */
  function Chunks(sectors: seq<Sector>, buffer: nat, length: nat, sector: nat, offset: nat): (r: seq<Chunk>)
    requires 0 < buffer && SectorsNonEmpty(sectors)
    requires sector <= |sectors| && (sector < |sectors| ==> offset < sectors[sector].size)
    requires length <= Room(sectors, sector, offset)
    decreases length
    ensures forall k :: 0 <= k < |r| ==> ChunkFits(sectors, buffer, r[k])
    ensures Total(r) == length
    ensures |r| > 0 ==> r[0].sector == sector && r[0].offset == offset
  {
    if length == 0 then []
    else
      var size := Min(Min(length, buffer), sectors[sector].size - offset);
      var c := Chunk(sector, offset, size);
      var next := NextPosition(sectors, sector, offset, size);
      var rest := Chunks(sectors, buffer, length - size, next.0, next.1);
      assert Total([c] + rest) == size + Total(rest) by {
        assert ([c] + rest)[1..] == rest;
      }
      [c] + rest
  }

  /** The first chunk, where the rest continue, and the rest's own preconditions. */
  lemma ChunksStep(sectors: seq<Sector>, buffer: nat, length: nat, sector: nat, offset: nat)
    returns (size: nat, next: (nat, nat))
    requires 0 < buffer && SectorsNonEmpty(sectors)
    requires sector <= |sectors| && (sector < |sectors| ==> offset < sectors[sector].size)
    requires length <= Room(sectors, sector, offset) && 0 < length
    ensures sector < |sectors| && size == Min(Min(length, buffer), sectors[sector].size - offset)
    ensures 0 < size <= length && next == NextPosition(sectors, sector, offset, size)
    ensures next.0 <= |sectors| && (next.0 < |sectors| ==> next.1 < sectors[next.0].size)
    ensures length - size <= Room(sectors, next.0, next.1)
    ensures Chunks(sectors, buffer, length, sector, offset)
      == [Chunk(sector, offset, size)] + Chunks(sectors, buffer, length - size, next.0, next.1)
  {
    size := Min(Min(length, buffer), sectors[sector].size - offset);
    next := NextPosition(sectors, sector, offset, size);
  }

  /** Putting c in front of a gapless run that starts where c ends gives a gapless run. */
  lemma FollowsCons(sectors: seq<Sector>, c: Chunk, rest: seq<Chunk>)
    requires c.sector < |sectors| && forall k :: 0 <= k < |rest| ==> rest[k].sector < |sectors|
    requires |rest| > 0 ==> Follows(sectors, c, rest[0])
    requires forall k :: 0 <= k < |rest| - 1 ==> Follows(sectors, rest[k], rest[k + 1])
    ensures var r := [c] + rest; forall k :: 0 <= k < |r| - 1 ==> Follows(sectors, r[k], r[k + 1])
  {
    var r := [c] + rest;
    forall k | 1 <= k < |r| - 1
      ensures Follows(sectors, r[k], r[k + 1])
    {
      assert r[k] == rest[k - 1] && r[k + 1] == rest[k];
    }
  }

  /** The chunks follow one another without gaps. */
  lemma {:induction false} ChunksContiguous(sectors: seq<Sector>, buffer: nat, length: nat, sector: nat, offset: nat)
    requires 0 < buffer && SectorsNonEmpty(sectors)
    requires sector <= |sectors| && (sector < |sectors| ==> offset < sectors[sector].size)
    requires length <= Room(sectors, sector, offset)
    decreases length
    ensures var r := Chunks(sectors, buffer, length, sector, offset);
      forall k :: 0 <= k < |r| - 1 ==> Follows(sectors, r[k], r[k + 1])
  {
    if length > 0 {
      var size, next := ChunksStep(sectors, buffer, length, sector, offset);
      var c := Chunk(sector, offset, size);
      var rest := Chunks(sectors, buffer, length - size, next.0, next.1);
      ChunksContiguous(sectors, buffer, length - size, next.0, next.1);
      assert forall k :: 0 <= k < |rest| ==> rest[k].sector < |sectors|;
      FollowsCons(sectors, c, rest);
    }
  }

  /** A chunk that fills the buffer or its sector, in front of a run where all but the last do, gives such a run. */
  lemma FullCons(sectors: seq<Sector>, buffer: nat, c: Chunk, rest: seq<Chunk>)
    requires forall k :: 0 <= k < |rest| ==> rest[k].sector < |sectors|
    requires |rest| > 0 ==> c.sector < |sectors| && (c.size == buffer || c.offset + c.size == sectors[c.sector].size)
    requires forall k :: 0 <= k < |rest| - 1 ==>
      rest[k].size == buffer || rest[k].offset + rest[k].size == sectors[rest[k].sector].size
    ensures var r := [c] + rest; forall k :: 0 <= k < |r| - 1 ==>
      r[k].sector < |sectors| && (r[k].size == buffer || r[k].offset + r[k].size == sectors[r[k].sector].size)
  {
    var r := [c] + rest;
    forall k | 1 <= k < |r| - 1
      ensures r[k].sector < |sectors| && (r[k].size == buffer || r[k].offset + r[k].size == sectors[r[k].sector].size)
    {
      assert r[k] == rest[k - 1];
    }
  }

  /** Every chunk but the last fills the buffer or reaches the end of its sector. */
  lemma {:induction false} ChunksFull(sectors: seq<Sector>, buffer: nat, length: nat, sector: nat, offset: nat)
    requires 0 < buffer && SectorsNonEmpty(sectors)
    requires sector <= |sectors| && (sector < |sectors| ==> offset < sectors[sector].size)
    requires length <= Room(sectors, sector, offset)
    decreases length
    ensures var r := Chunks(sectors, buffer, length, sector, offset);
      forall k :: 0 <= k < |r| - 1 ==>
        r[k].size == buffer || r[k].offset + r[k].size == sectors[r[k].sector].size
  {
    if length > 0 {
      var size, next := ChunksStep(sectors, buffer, length, sector, offset);
      var c := Chunk(sector, offset, size);
      var rest := Chunks(sectors, buffer, length - size, next.0, next.1);
      ChunksFull(sectors, buffer, length - size, next.0, next.1);
      assert forall k :: 0 <= k < |rest| ==> rest[k].sector < |sectors|;
      if |rest| > 0 && size != buffer {
        assert size == length || size == sectors[sector].size - offset;
        assert Total(rest) == length - size > 0;
      }
      FullCons(sectors, buffer, c, rest);
    }
  }

  /** One chunk step keeps everything a multiple of m: the chunk's size, what is left, and the next offset. */
  lemma StepAligned(length: nat, buffer: nat, sectorSize: nat, offset: nat, m: nat, size: nat, nextOffset: nat)
    requires 0 < m && offset < sectorSize
    requires length % m == 0 && buffer % m == 0 && sectorSize % m == 0 && offset % m == 0
    requires size == Min(Min(length, buffer), sectorSize - offset)
    requires nextOffset == 0 || nextOffset == offset + size
    ensures size % m == 0 && size <= length && (length - size) % m == 0 && nextOffset % m == 0
  {
    Arith.DiffAligned(sectorSize, offset, m);
    assert size % m == 0;
    Arith.DiffAligned(length, size, m);
    if nextOffset == 0 {
      Arith.MulAligned(0, m);
    } else {
      Arith.SumAligned(offset, size, m);
    }
  }

  /** Every chunk's offset and size are multiples of m. */
  predicate AlignedRun(r: seq<Chunk>, m: nat)
    requires 0 < m
  {
    forall k :: 0 <= k < |r| ==> r[k].offset % m == 0 && r[k].size % m == 0
  }

  /** An aligned chunk in front of a run of aligned chunks gives a run of aligned chunks. */
  lemma AlignedCons(c: Chunk, rest: seq<Chunk>, m: nat)
    requires 0 < m && c.offset % m == 0 && c.size % m == 0 && AlignedRun(rest, m)
    ensures AlignedRun([c] + rest, m)
  {
    var r := [c] + rest;
    forall k | 1 <= k < |r|
      ensures r[k].offset % m == 0 && r[k].size % m == 0
    {
      assert r[k] == rest[k - 1];
    }
  }

  /**
   * When the buffer, the sector sizes, the start offset and the length are
   * multiples of m (the bus width), so is every chunk's offset and size.
   */
  lemma {:induction false} ChunksAligned(sectors: seq<Sector>, buffer: nat, length: nat, sector: nat, offset: nat, m: nat)
    requires 0 < buffer && SectorsNonEmpty(sectors)
    requires sector <= |sectors| && (sector < |sectors| ==> offset < sectors[sector].size)
    requires length <= Room(sectors, sector, offset)
    requires 0 < m && buffer % m == 0 && offset % m == 0 && length % m == 0
    requires forall i :: 0 <= i < |sectors| ==> sectors[i].size % m == 0
    decreases length
    ensures AlignedRun(Chunks(sectors, buffer, length, sector, offset), m)
  {
    if length > 0 {
      var size, next := ChunksStep(sectors, buffer, length, sector, offset);
      StepAligned(length, buffer, sectors[sector].size, offset, m, size, next.1);
      ChunksAligned(sectors, buffer, length - size, next.0, next.1, m);
      AlignedCons(Chunk(sector, offset, size), Chunks(sectors, buffer, length - size, next.0, next.1), m);
    }
  }

  /**
   * The outcome of `FlashBufferedWrite` given the outcome of the wait after
   * each chunk: chunks are written in order and the first failed wait ends
   * the write with its error. The first component is the number of chunks
   * whose wait succeeded.
   */
  function BufferedWrite(waits: seq<FlashError>): (r: (nat, FlashError))
    ensures r.0 <= |waits|
    ensures forall k :: 0 <= k < r.0 ==> waits[k] == NoError
    ensures r.0 < |waits| ==> waits[r.0] != NoError && r.1 == waits[r.0]
    ensures r.0 == |waits| ==> r.1 == NoError
  {
    if |waits| == 0 then (0, NoError)
    else if waits[0] != NoError then (0, waits[0])
    else
      var tail := BufferedWrite(waits[1..]);
      (tail.0 + 1, tail.1)
  }

  /** The buffered write succeeds iff every wait succeeds. */
  lemma BufferedWriteSucceeds(waits: seq<FlashError>)
    ensures BufferedWrite(waits).1 == NoError <==> forall k :: 0 <= k < |waits| ==> waits[k] == NoError
  {
    var r := BufferedWrite(waits);
    if r.0 < |waits| {
      assert waits[r.0] != NoError;
    }
  }

  /** The outcome of the wait after chunk k; waits past the given ones succeed. */
  function WaitOf(waits: seq<FlashError>, k: nat): FlashError
  {
    if k < |waits| then waits[k] else NoError
  }

  /**
   * `FlashBufferedWrite`: the data is cut into chunks that fit the write
   * buffer of all devices on the bus and their sector; each is programmed and
   * waited for, and the first failed wait ends the write with its error.
   * Returns the chunks programmed, the failing one included, and the result.
   */
  function FlashBufferedWrite(dev: Device, length: nat, sector: nat, offset: nat, waits: seq<FlashError>)
    : (r: (seq<Chunk>, FlashError))
    requires 0 < BufferBytes(dev) && SectorsNonEmpty(dev.sectors)
    requires sector <= |dev.sectors| && (sector < |dev.sectors| ==> offset < dev.sectors[sector].size)
    requires length <= Room(dev.sectors, sector, offset)
    ensures var cs := Chunks(dev.sectors, BufferBytes(dev), length, sector, offset);
            |r.0| <= |cs| && r.0 == cs[..|r.0|]
    ensures forall k :: 0 <= k < |r.0| ==> ChunkFits(dev.sectors, BufferBytes(dev), r.0[k])
    ensures r.1 == NoError <==>
            forall k :: 0 <= k < |Chunks(dev.sectors, BufferBytes(dev), length, sector, offset)| ==> WaitOf(waits, k) == NoError
    ensures r.1 == NoError ==> Total(r.0) == length
    ensures r.1 != NoError ==>
              (0 < |r.0| <= |waits| && r.1 == waits[|r.0| - 1]
               && forall k :: 0 <= k < |r.0| - 1 ==> waits[k] == NoError)
  {
    var cs := Chunks(dev.sectors, BufferBytes(dev), length, sector, offset);
    var ws := WaitsOf(waits, |cs|);
    var o := BufferedWrite(ws);
    BufferedOutcome(waits, ws, o);
    (if o.0 < |cs| then cs[..o.0 + 1] else cs, o.1)
  }

  /** The outcomes of the waits after n chunks. */
  function WaitsOf(waits: seq<FlashError>, n: nat): (ws: seq<FlashError>)
    ensures |ws| == n && forall k :: 0 <= k < n ==> ws[k] == WaitOf(waits, k)
  {
    seq(n, k requires 0 <= k < n => WaitOf(waits, k))
  }

  /** The buffered write over the waits of the chunks stops at a failed wait that was given, or succeeds. */
  lemma BufferedOutcome(waits: seq<FlashError>, ws: seq<FlashError>, o: (nat, FlashError))
    requires forall k :: 0 <= k < |ws| ==> ws[k] == WaitOf(waits, k)
    requires o == BufferedWrite(ws)
    ensures o.1 == NoError <==> forall k :: 0 <= k < |ws| ==> WaitOf(waits, k) == NoError
    ensures o.1 == NoError <==> o.0 == |ws|
    ensures o.0 < |ws| ==> o.0 < |waits| && o.1 == waits[o.0] && forall k :: 0 <= k < o.0 ==> waits[k] == NoError
  {
    BufferedWriteSucceeds(ws);
    if o.0 < |ws| {
      assert ws[o.0] == WaitOf(waits, o.0);
      forall k | 0 <= k < o.0
        ensures waits[k] == NoError
      {
        assert ws[k] == WaitOf(waits, k);
      }
    }
  }

  /**
   * On a paired bus whose doubled buffer does not wrap, a chunk with room
   * for it takes both devices' buffers at once.
   */
  lemma PairedChunkDoubled(dev: Device, length: nat, sector: nat, offset: nat)
    requires dev.paired && 0 < dev.maxBufferWriteSize && 2 * dev.maxBufferWriteSize < Word32
    requires SectorsNonEmpty(dev.sectors) && sector < |dev.sectors| && offset < dev.sectors[sector].size
    requires length <= Room(dev.sectors, sector, offset)
    requires 2 * dev.maxBufferWriteSize <= length && offset + 2 * dev.maxBufferWriteSize <= dev.sectors[sector].size
    ensures var r := FlashBufferedWrite(dev, length, sector, offset, []);
            r.1 == NoError && 0 < |r.0| && r.0[0].size == 2 * dev.maxBufferWriteSize
  {
    var buffer := BufferBytes(dev);
    assert buffer == 2 * dev.maxBufferWriteSize;
    var size, next := ChunksStep(dev.sectors, buffer, length, sector, offset);
    var cs := Chunks(dev.sectors, buffer, length, sector, offset);
    assert cs[0].size == 2 * dev.maxBufferWriteSize;
    var r := FlashBufferedWrite(dev, length, sector, offset, []);
    assert forall k :: 0 <= k < |cs| ==> WaitOf([], k) == NoError;
    assert Total(r.0) == length && r.0 == cs[..|r.0|];
    assert r.0[0] == cs[0];
  }

  /** With the doubled buffer wrapping to 0, the loop would take empty chunks forever: it is required away. */
  lemma PairedBufferWraps(dev: Device)
    requires dev.paired && dev.maxBufferWriteSize == 0x8000_0000
    ensures BufferBytes(dev) == 0
  {
  }
}
