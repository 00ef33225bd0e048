/**
 * In-system programming of an ATmega over SPI: the four-byte instruction
 * frame, program enable, byte addressing of the word-organised program
 * memory, reading and matching the signature, the page-buffered flash write,
 * reading and verifying the flash, and the fuse reads and writes.
 *
 * The SPI link is an input. A single command sees one `Exchange` (a failure
 * of the SPI driver, or the four bytes received). The long loops see one
 * Boolean per exchange, in order, with every exchange past the end of that
 * sequence succeeding, and a function `flash` giving the byte the device
 * returns when a program-memory byte is read at an address.
 */
module SpiAtmega {
  import opened Wrappers
  import opened Bytes
  import Arith
  import opened Outcomes

  // ---------------------------------------------------------------------
  // Instruction frames
  // ---------------------------------------------------------------------

  /** Every serial-programming instruction is four bytes long. */
  const CmdLen: nat := 4

  /** A four-byte instruction as sent, or the four bytes received with it. */
  type Frame = s: seq<u8> | |s| == CmdLen witness [0, 0, 0, 0]

  /**
   * Where the 16-bit parameter goes in the frame. `OtherParam` stands for any
   * value of the C enumeration other than its three named ones.
   */
  datatype ParamType = NoParam | Param16 | Param8 | OtherParam

  /** The outcome of one SPI exchange. */
  datatype Exchange = ExchangeFailed | Exchanged(received: Frame)

  function Lo(x: u16): u8 { x % 0x100 }

  function Hi(x: u16): u8 { x / 0x100 }

  /**
   * The frame `atmega_command` builds from a command template: the 8-bit
   * form puts the parameter's low byte into byte 2, the 16-bit form its high
   * byte into byte 1 and its low byte into byte 2, and byte 3 is always the
   * given fourth byte. An unknown parameter type builds nothing.
   */
  function BuildFrame(cmd: Frame, param: u16, kind: ParamType, byte4: u8): (r: Option<Frame>)
    ensures r.None? <==> kind == OtherParam
    ensures r.Some? ==> r.value[0] == cmd[0] && r.value[3] == byte4
    ensures r.Some? && kind != Param16 ==> r.value[1] == cmd[1]
    ensures r.Some? && kind == NoParam ==> r.value[2] == cmd[2]
  {
    match kind
    case NoParam => Some([cmd[0], cmd[1], cmd[2], byte4])
    case Param8 => Some([cmd[0], cmd[1], Lo(param), byte4])
    case Param16 => Some([cmd[0], Hi(param), Lo(param), byte4])
    case OtherParam => None
  }

  /** The parameter a device reads back out of a frame of the given type. */
  function FrameParam(f: Frame, kind: ParamType): u16
  {
    match kind
    case Param16 => (f[1] as nat) * 0x100 + f[2]
    case Param8 => f[2]
    case _ => 0
  }

  /** The 16-bit form carries the whole parameter and the 8-bit form its low byte. */
  lemma ParamRoundTrip(cmd: Frame, param: u16, byte4: u8)
    ensures FrameParam(BuildFrame(cmd, param, Param16, byte4).value, Param16) == param
    ensures FrameParam(BuildFrame(cmd, param, Param8, byte4).value, Param8) == param % 0x100
  {
  }

  /** What `atmega_command` sends and, on success, the fourth byte it received. */
  datatype CommandOutcome = CommandOutcome(sent: seq<Frame>, result: Option<u8>)

  /**
   * `atmega_command`: an unknown parameter type fails before anything is
   * sent; otherwise the frame is exchanged, and a successful exchange yields
   * the fourth received byte.
   */
  function Command(cmd: Frame, param: u16, kind: ParamType, byte4: u8, reply: Exchange): (r: CommandOutcome)
    ensures kind == OtherParam ==> r.sent == [] && r.result.None?
    ensures kind != OtherParam ==> r.sent == [BuildFrame(cmd, param, kind, byte4).value]
    ensures r.result.Some? <==> kind != OtherParam && reply.Exchanged?
    ensures r.result.Some? ==> r.result.value == reply.received[3]
  {
    match BuildFrame(cmd, param, kind, byte4)
    case None => CommandOutcome([], None)
    case Some(f) =>
      match reply
      case ExchangeFailed => CommandOutcome([f], None)
      case Exchanged(rx) => CommandOutcome([f], Some(rx[3]))
  }

  /** The echo of the second instruction byte that shows the device is in programming mode. */
  const EnableEcho: u8 := 0x53

  /**
   * `atmega_program_enable`: the template is sent as it is; programming mode
   * is entered when the exchange succeeds and the third received byte
   * echoes 0x53.
   */
  function ProgramEnable(reply: Exchange): (ok: bool)
    ensures ok ==> reply.Exchanged?
    ensures reply.Exchanged? ==> (ok <==> reply.received[2] == EnableEcho)
  {
    reply.Exchanged? && reply.received[2] == EnableEcho
  }

  // ---------------------------------------------------------------------
  // Byte addressing of the program memory
  // ---------------------------------------------------------------------

  /** The instruction and parameters of one call of `atmega_command`. */
  datatype Request = Request(cmd: Frame, param: u16, kind: ParamType, byte4: u8)

  /**
   * `atmega_read_prg_mem_byte` and `atmega_load_prg_mem_page_byte`: the
   * program memory is organised in 16-bit words, so a byte address selects
   * the word `(unsigned short) addr >> 1` (the cast comes first: the address
   * is cut to 16 bits before the shift) and the low-byte instruction for an
   * even address, the high-byte one for an odd address.
   */
  function ProgramByteRequest(low: Frame, high: Frame, addr: nat, value: u8): (r: Request)
    ensures r.kind == Param16 && r.byte4 == value && r.param < 0x8000
    ensures r.cmd == (if addr % 2 == 0 then low else high)
  {
    Request(if addr % 2 == 0 then low else high, (addr % 0x1_0000) / 2, Param16, value)
  }

  /** Below 64 KiB the word address and the instruction sent give back the byte address. */
  lemma ProgramByteRoundTrip(low: Frame, high: Frame, addr: nat, value: u8)
    requires low != high && addr < 0x1_0000
    ensures var r := ProgramByteRequest(low, high, addr, value);
            2 * r.param + (if r.cmd == low then 0 else 1) == addr
  {
  }

  /** Byte addresses 64 KiB apart reach the same word and half: the upper bits are lost. */
  lemma ProgramByteAliases(low: Frame, high: Frame, addr: nat, value: u8)
    ensures ProgramByteRequest(low, high, addr, value) == ProgramByteRequest(low, high, addr + 0x1_0000, value)
  {
  }

  // ---------------------------------------------------------------------
  // Device description and identification
  // ---------------------------------------------------------------------

  /** The size of the signature buffer of `detect_atmega`. */
  const IdSize: nat := 8

  /** The attributes of a known device type that the modelled operations use. */
  datatype Attributes = Attributes(
    flashSize: nat,
    pageSizeBytes: nat,
    chipId: seq<u8>,
    progEnable: Frame,
    chipErase: Frame,
    loadLow: Frame,
    loadHigh: Frame,
    readLow: Frame,
    readHigh: Frame,
    readLock: Frame,
    readSignature: Frame,
    readFuse: Frame,
    readFuseHigh: Frame,
    readFuseExt: Frame,
    writePage: Frame,
    writeLock: Frame,
    writeFuse: Frame,
    writeFuseHigh: Frame,
    writeFuseExt: Frame)

  /** The one entry of the table of known types, the ATmega16. */
  const ATMega16: Attributes := Attributes(
    16384, 128, [0x1e, 0x94, 0x03],
    [0xac, 0x53, 0, 0], [0xac, 0x80, 0, 0],
    [0x40, 0, 0, 0], [0x48, 0, 0, 0],
    [0x20, 0, 0, 0], [0x28, 0, 0, 0],
    [0x58, 0x00, 0, 0], [0x30, 0, 0, 0],
    [0x50, 0x00, 0, 0], [0x58, 0x08, 0, 0], [0x50, 0x08, 0, 0],
    [0x4c, 0, 0, 0], [0xac, 0xe0, 0, 0],
    [0xac, 0xa0, 0, 0], [0xac, 0xa8, 0, 0], [0xac, 0xa4, 0, 0])

  /** The ATmega16 table entry fits the signature buffer and has distinct low/high instructions. */
  lemma ATMega16Consistent()
    ensures |ATMega16.chipId| <= IdSize
    ensures ATMega16.readLow != ATMega16.readHigh && ATMega16.loadLow != ATMega16.loadHigh
    ensures ATMega16.pageSizeBytes > 0 && ATMega16.flashSize % ATMega16.pageSizeBytes == 0
  {
  }

  /**
   * `atmega_read_device_id`: a chip-ID length beyond the buffer fails before
   * anything is sent; otherwise signature bytes 0, 1, ... are read with the
   * 8-bit parameter form until all are read or one exchange fails. The index
   * is an 8-bit counter that wraps from 255 to 0, so an ID of 256 bytes or
   * more that fits the buffer would never finish.
   */
  method ReadDeviceId(cmd: Frame, idLength: nat, bufferLength: nat, reply: nat -> Exchange)
    returns (exchanges: nat, signature: seq<u8>, ok: bool)
    requires idLength < 0x100 || idLength > bufferLength
    ensures idLength > bufferLength ==> !ok && exchanges == 0
    ensures ok <==> idLength <= bufferLength && forall i :: 0 <= i < idLength ==> reply(i).Exchanged?
    ensures ok ==> |signature| == idLength
    ensures ok ==> forall i :: 0 <= i < idLength ==> signature[i] == reply(i).received[3]
    ensures !ok && idLength <= bufferLength ==>
      (0 < exchanges <= idLength && reply(exchanges - 1).ExchangeFailed?
       && forall i :: 0 <= i < exchanges - 1 ==> reply(i).Exchanged?)
  {
    exchanges, signature, ok := 0, [], true;
    if idLength > bufferLength {
      ok := false;
      return;
    }
    var index := 0;
    while index < idLength && ok
      invariant 0 <= index <= idLength && exchanges == index
      invariant ok ==> |signature| == index
      invariant ok ==> forall i :: 0 <= i < index ==> reply(i).Exchanged? && signature[i] == reply(i).received[3]
      invariant !ok ==> 0 < index && reply(index - 1).ExchangeFailed?
      invariant !ok ==> forall i :: 0 <= i < index - 1 ==> reply(i).Exchanged?
    {
      var outcome := Command(cmd, index, Param8, 0, reply(index));
      match outcome.result {
        case None =>
          ok := false;
        case Some(b) =>
          signature := signature + [b];
      }
      index := index + 1;
      exchanges := exchanges + 1;
    }
  }

  /**
   * `detect_atmega`: enter programming mode, read as many signature bytes as
   * the table entry's chip ID has, and compare them with it. The signature
   * replies are numbered from 0 after the program-enable exchange.
   */
  method Detect(attrs: Attributes, enableReply: Exchange, reply: nat -> Exchange) returns (found: bool)
    requires |attrs.chipId| <= IdSize
    ensures found <==>
      (ProgramEnable(enableReply)
       && (forall i :: 0 <= i < |attrs.chipId| ==> reply(i).Exchanged?)
       && (forall i :: 0 <= i < |attrs.chipId| ==> reply(i).received[3] == attrs.chipId[i]))
  {
    if !ProgramEnable(enableReply) {
      return false;
    }
    var n := |attrs.chipId|;
    var exchanges, signature, ok := ReadDeviceId(attrs.readSignature, n, n, reply);
    if !ok {
      return false;
    }
    found := signature == attrs.chipId;
    assert found ==> forall i :: 0 <= i < n ==> reply(i).received[3] == attrs.chipId[i] by {
      if found {
        forall i | 0 <= i < n
          ensures reply(i).received[3] == attrs.chipId[i]
        {
          assert signature[i] == attrs.chipId[i];
        }
      }
    }
  }

  /** `detect_atmega_type`: the first table entry whose detection succeeds. */
  function FirstDetected(results: seq<bool>): (r: Option<nat>)
    ensures r.Some? ==> r.value < |results| && results[r.value]
    ensures r.Some? ==> forall j :: 0 <= j < r.value ==> !results[j]
    ensures r.None? <==> forall j :: 0 <= j < |results| ==> !results[j]
  {
    if |results| == 0 then None
    else if results[0] then Some(0)
    else match FirstDetected(results[1..])
      case None => None
      case Some(k) => Some(k + 1)
  }

  // ---------------------------------------------------------------------
  // Page-buffered flash write
  // ---------------------------------------------------------------------

  /**
   * One flash write: the data and its start address, the page size, and the
   * bytes the device returns when the program memory is read back.
   */
  datatype Job = Job(start: nat, data: seq<u8>, pageSize: nat, flash: nat -> u8)

  /**
   * The page size is not zero, and no address the write visits reaches
   * 2^32, so the unbounded addresses of the model are the 32-bit ones.
   */
  predicate ValidJob(job: Job)
  {
    job.pageSize > 0 && job.start + |job.data| + job.pageSize <= Word32
  }

  /** The first address after the data. */
  function End(job: Job): nat
  {
    job.start + |job.data|
  }

  predicate InRange(job: Job, a: nat)
  {
    job.start <= a < End(job)
  }

  /** The operations of a flash write, each one SPI exchange. */
  datatype PageOp =
    | ReadByte(addr: nat)                 // read a program-memory byte back
    | LoadByte(offset: nat, value: u8)    // put a byte into the page buffer
    | WritePage(word: u16)                // commit the page buffer

  /** The request each operation hands to `atmega_command`. */
  function PageOpRequest(attrs: Attributes, op: PageOp): (r: Request)
    ensures r.kind == Param16
    ensures op.LoadByte? ==> r.byte4 == op.value
  {
    match op
    case ReadByte(a) => ProgramByteRequest(attrs.readLow, attrs.readHigh, a, 0)
    case LoadByte(o, v) => ProgramByteRequest(attrs.loadLow, attrs.loadHigh, o, v)
    case WritePage(w) => Request(attrs.writePage, w, Param16, 0)
  }

  /** `(unsigned short) (pageAddr >> 1)`: here the shift comes before the cast. */
  function PageWord(adr: nat): (w: u16)
  {
    (adr / 2) % 0x1_0000
  }

  /**
   * The commit cuts the address after the shift, the byte loads before it:
   * below 128 KiB the two agree exactly for the addresses below 64 KiB.
   */
  lemma PageWordAgreesBelow64K(low: Frame, high: Frame, adr: nat)
    requires adr < 0x2_0000
    ensures PageWord(adr) == ProgramByteRequest(low, high, adr, 0).param <==> adr < 0x1_0000
  {
  }

  /** The byte the finished page should hold at an address: the data inside the range, the old flash outside it. */
  function Image(job: Job, a: nat): u8
  {
    if InRange(job, a) then job.data[a - job.start] else job.flash(a)
  }

  /** The operations for one byte of a page: a read-back first when the byte is not in the data. */
  function ByteOps(job: Job, a: nat, j: nat): seq<PageOp>
  {
    if InRange(job, a) then [LoadByte(j, Image(job, a))]
    else [ReadByte(a), LoadByte(j, Image(job, a))]
  }

  /** The reference operations for bytes j .. pageSize - 1 of the page being filled, the current one at address a. */
  function IdealFill(job: Job, a: nat, j: nat): seq<PageOp>
    decreases job.pageSize - j
  {
    if j >= job.pageSize then [] else ByteOps(job, a, j) + IdealFill(job, a + 1, j + 1)
  }

  /** The reference operations for the pages from address a on: fill, then commit. */
  function IdealPages(job: Job, a: nat): seq<PageOp>
    requires job.pageSize > 0
    decreases if a < End(job) then End(job) - a else 0
  {
    if a >= End(job) then []
    else IdealFill(job, a, 0) + [WritePage(PageWord(a))] + IdealPages(job, a + job.pageSize)
  }

  /** The reference write: every page from the one holding the start address up to the end. */
  function IdealWrite(job: Job): seq<PageOp>
    requires job.pageSize > 0
  {
    IdealPages(job, Arith.RoundDown(job.start, job.pageSize))
  }

  /**
   * The state after filling (part of) a page buffer: the operations issued,
   * the next address, the data bytes consumed, the outcomes left, and
   * whether all exchanges succeeded; or a read of a data byte past the end
   * of the data.
   */
  datatype Fill =
    | Filled(ops: seq<PageOp>, adr: nat, pos: nat, outs: seq<bool>, ok: bool)
    | Overread(ops: seq<PageOp>)

  function PrependFill(ops: seq<PageOp>, f: Fill): (r: Fill)
  {
    match f
    case Filled(o, a, p, rest, ok) => Filled(ops + o, a, p, rest, ok)
    case Overread(o) => Overread(ops + o)
  }

  /**
   * The inner loop of `spi_atmega_write_flash`, from buffer offset j at
   * address adr with pos data bytes consumed: a byte inside [start, end)
   * is the next data byte (the data pointer moves on before the load is
   * tried), any other is read back from the flash; each is loaded at its
   * buffer offset. A failed read-back or load ends the loop without
   * advancing the address.
   */
  function FillPage(job: Job, adr: nat, j: nat, pos: nat, outs: seq<bool>): (f: Fill)
    requires j <= job.pageSize
    decreases job.pageSize - j
    ensures f.Filled? ==> adr <= f.adr && |f.outs| <= |outs|
    ensures f.Filled? && f.ok ==> f.adr == adr + (job.pageSize - j)
    ensures f.Filled? && !f.ok ==> |f.outs| < |outs|
  {
    if j == job.pageSize then Filled([], adr, pos, outs, true)
    else if InRange(job, adr) then
      if pos >= |job.data| then Overread([])
      else
        var b := job.data[pos];
        if !Ok(outs, 0) then Filled([LoadByte(j, b)], adr, pos + 1, Rest(outs), false)
        else PrependFill([LoadByte(j, b)], FillPage(job, adr + 1, j + 1, pos + 1, Rest(outs)))
    else if !Ok(outs, 0) then Filled([ReadByte(adr)], adr, pos, Rest(outs), false)
    else
      var b := job.flash(adr);
      var more := Rest(outs);
      if !Ok(more, 0) then Filled([ReadByte(adr), LoadByte(j, b)], adr, pos, Rest(more), false)
      else PrependFill([ReadByte(adr), LoadByte(j, b)], FillPage(job, adr + 1, j + 1, pos, Rest(more)))
  }

  /** The outcome of a flash write: the operations issued and the result, or a read past the data. */
  datatype Written =
    | Written(ops: seq<PageOp>, ok: bool)
    | ReadsPastData(ops: seq<PageOp>)

  function PrependWritten(ops: seq<PageOp>, w: Written): (r: Written)
  {
    match w
    case Written(o, ok) => Written(ops + o, ok)
    case ReadsPastData(o) => ReadsPastData(ops + o)
  }

  /**
   * The outer loop of `spi_atmega_write_flash` as it should be: a page whose
   * buffer was filled is committed at its word address; the first failure of
   * any exchange ends the write with an error.
   */
  function WritePages(job: Job, adr: nat, pos: nat, outs: seq<bool>): (w: Written)
    requires job.pageSize > 0
    decreases if adr < End(job) then End(job) - adr else 0
  {
    if adr >= End(job) then Written([], true)
    else match FillPage(job, adr, 0, pos, outs)
      case Overread(ops) => ReadsPastData(ops)
      case Filled(ops, next, pos', outs', ok) =>
        if !ok then Written(ops, false)
        else if !Ok(outs', 0) then Written(ops + [WritePage(PageWord(adr))], false)
        else PrependWritten(ops + [WritePage(PageWord(adr))], WritePages(job, next, pos', Rest(outs')))
  }

  /**
   * The corrected flash write, starting at the page that holds the start
   * address. It issues exactly the reference operations up to and including
   * the first failing exchange: on success every page in range is loaded
   * byte by byte with the data inside [start, end) and the read-back flash
   * around it, and committed at its word address.
   */
  function WriteFlash(job: Job, outs: seq<bool>): (w: Written)
    requires ValidJob(job)
    ensures w == Written(Run(IdealWrite(job), outs).ops, Run(IdealWrite(job), outs).ok)
  {
    WritePagesIsRun(job, Arith.RoundDown(job.start, job.pageSize), outs);
    WritePages(job, Arith.RoundDown(job.start, job.pageSize), 0, outs)
  }

  /**
   * The outer loop as written: after a failed read-back or load the page is
   * not committed but the loop goes on, refilling from the address where the
   * fill stopped (not a page boundary) and committing that at its own word
   * address; the result is that of the last exchange. `last` is that result
   * so far.
   */
  function WritePagesAsWritten(job: Job, adr: nat, pos: nat, outs: seq<bool>, last: bool): (w: Written)
    requires job.pageSize > 0
    ensures w.Written? && w.ok && |w.ops| == 0 ==> last
    ensures w.Written? && w.ok && |w.ops| > 0 ==> w.ops[|w.ops| - 1].WritePage?
    decreases |outs|, if adr < End(job) then End(job) - adr else 0
  {
    if adr >= End(job) then Written([], last)
    else match FillPage(job, adr, 0, pos, outs)
      case Overread(ops) => ReadsPastData(ops)
      case Filled(ops, next, pos', outs', ok) =>
        if !ok then PrependWritten(ops, WritePagesAsWritten(job, next, pos', outs', false))
        else if !Ok(outs', 0) then Written(ops + [WritePage(PageWord(adr))], false)
        else PrependWritten(ops + [WritePage(PageWord(adr))], WritePagesAsWritten(job, next, pos', Rest(outs'), true))
  }

  /**
   * `spi_atmega_write_flash` as written. When no exchange fails it is the
   * corrected write.
   */
  function WriteFlashAsWritten(job: Job, outs: seq<bool>): (w: Written)
    requires ValidJob(job)
    ensures (forall i :: 0 <= i < |outs| ==> outs[i]) ==> w == WriteFlash(job, outs)
  {
    var adr := Arith.RoundDown(job.start, job.pageSize);
    if forall i :: 0 <= i < |outs| ==> outs[i] then
      AsWrittenAgreesWithoutFailures(job, adr, 0, outs);
      WritePagesAsWritten(job, adr, 0, outs, true)
    else
      WritePagesAsWritten(job, adr, 0, outs, true)
  }

  /** The data bytes consumed once the fill has reached address a. */
  function Consumed(job: Job, a: nat): nat
  {
    if a <= job.start then 0 else if a >= End(job) then |job.data| else a - job.start
  }

  /**
   * Filling from address adr, offset j, with the data pointer in step with
   * the address, behaves like running the reference operations of the rest
   * of the page: the same operations, the same result, the outcomes consumed
   * one per operation, and the data pointer still in step afterwards.
   */
  predicate FillMatches(job: Job, adr: nat, j: nat, outs: seq<bool>)
    requires j <= job.pageSize
  {
    var f := FillPage(job, adr, j, Consumed(job, adr), outs);
    var r := Run(IdealFill(job, adr, j), outs);
    f.Filled? && f.ops == r.ops && f.ok == r.ok && f.outs == Drop(outs, |r.ops|)
    && (f.ok ==> f.pos == Consumed(job, f.adr))
  }

  /** One step over a data byte. */
  lemma DataStep(job: Job, adr: nat, j: nat, outs: seq<bool>)
    requires j < job.pageSize && InRange(job, adr)
    requires Ok(outs, 0) ==> FillMatches(job, adr + 1, j + 1, Rest(outs))
    ensures FillMatches(job, adr, j, outs)
  {
    var pos := Consumed(job, adr);
    assert pos == adr - job.start < |job.data|;
    var load := LoadByte(j, job.data[pos]);
    var rest := IdealFill(job, adr + 1, j + 1);
    assert IdealFill(job, adr, j) == [load] + rest;
    RunCons(load, rest, outs);
    var f := FillPage(job, adr, j, pos, outs);
    if Ok(outs, 0) {
      assert pos + 1 == Consumed(job, adr + 1);
      var f1 := FillPage(job, adr + 1, j + 1, pos + 1, Rest(outs));
      var r1 := Run(rest, Rest(outs));
      assert f == PrependFill([load], f1);
      DropRest(outs, |r1.ops|);
    } else {
      DropRest(outs, 0);
      DropZero(Rest(outs));
    }
  }

  /** One step over a byte outside the data: read it back, then load it. */
  lemma ReadBackStep(job: Job, adr: nat, j: nat, outs: seq<bool>)
    requires j < job.pageSize && !InRange(job, adr)
    requires Ok(outs, 0) && Ok(Rest(outs), 0) ==> FillMatches(job, adr + 1, j + 1, Rest(Rest(outs)))
    ensures FillMatches(job, adr, j, outs)
  {
    var pos := Consumed(job, adr);
    assert pos == Consumed(job, adr + 1);
    var read := ReadByte(adr);
    var load := LoadByte(j, job.flash(adr));
    var rest := IdealFill(job, adr + 1, j + 1);
    assert IdealFill(job, adr, j) == [read] + ([load] + rest);
    RunCons(read, [load] + rest, outs);
    var f := FillPage(job, adr, j, pos, outs);
    if !Ok(outs, 0) {
      DropRest(outs, 0);
      DropZero(Rest(outs));
    } else {
      var more := Rest(outs);
      RunCons(load, rest, more);
      if Ok(more, 0) {
        var f1 := FillPage(job, adr + 1, j + 1, pos, Rest(more));
        var r1 := Run(rest, Rest(more));
        assert f == PrependFill([read, load], f1);
        DropRest(more, |r1.ops|);
        DropRest(outs, |r1.ops| + 1);
      } else {
        DropRest(more, 0);
        DropZero(Rest(more));
        DropRest(outs, 1);
      }
    }
  }

  /** Filling a page with the data pointer in step is the reference run of that page. */
  lemma {:induction false} FillIsRun(job: Job, adr: nat, j: nat, outs: seq<bool>)
    requires j <= job.pageSize
    ensures FillMatches(job, adr, j, outs)
    decreases job.pageSize - j
  {
    if j == job.pageSize {
      DropZero(outs);
    } else if InRange(job, adr) {
      if Ok(outs, 0) {
        FillIsRun(job, adr + 1, j + 1, Rest(outs));
      }
      DataStep(job, adr, j, outs);
    } else {
      if Ok(outs, 0) && Ok(Rest(outs), 0) {
        FillIsRun(job, adr + 1, j + 1, Rest(Rest(outs)));
      }
      ReadBackStep(job, adr, j, outs);
    }
  }

  /** The corrected outer loop, with the data pointer in step, is the reference run of the remaining pages. */
  lemma {:induction false} WritePagesIsRun(job: Job, adr: nat, outs: seq<bool>)
    requires job.pageSize > 0
    ensures var r := Run(IdealPages(job, adr), outs);
            WritePages(job, adr, Consumed(job, adr), outs) == Written(r.ops, r.ok)
    decreases if adr < End(job) then End(job) - adr else 0
  {
    if adr < End(job) {
      var pos := Consumed(job, adr);
      var nextAdr := adr + job.pageSize;
      var fill := IdealFill(job, adr, 0);
      var commit := [WritePage(PageWord(adr))];
      var more := IdealPages(job, nextAdr);
      assert IdealPages(job, adr) == (fill + commit) + more;
      FillIsRun(job, adr, 0, outs);
      var f := FillPage(job, adr, 0, pos, outs);
      RunAppend(fill + commit, more, outs);
      RunAppend(fill, commit, outs);
      var rf := Run(fill, outs);
      assert f.Filled? && f.ops == rf.ops && f.ok == rf.ok;
      if rf.ok {
        var left := Drop(outs, |fill|);
        assert f.outs == left && rf.ops == fill;
        RunCons(WritePage(PageWord(adr)), [], left);
        assert commit == [WritePage(PageWord(adr))] + [];
        if Ok(left, 0) {
          var rest := Rest(left);
          WritePagesIsRun(job, nextAdr, rest);
          var rm := Run(more, rest);
          DropRest(left, 0);
          DropRest(outs, |fill|);
          DropZero(rest);
          assert Drop(outs, |fill + commit|) == rest;
          assert f.adr == nextAdr && f.pos == Consumed(job, nextAdr);
          assert WritePages(job, adr, pos, outs) == PrependWritten(fill + commit, WritePages(job, nextAdr, f.pos, rest));
        }
      }
    }
  }

  /** With no failing exchange, every fill of the write completes, or stops at a read past the data. */
  lemma {:induction false} FillNoFailure(job: Job, adr: nat, j: nat, pos: nat, outs: seq<bool>)
    requires j <= job.pageSize
    requires forall i :: 0 <= i < |outs| ==> outs[i]
    ensures var f := FillPage(job, adr, j, pos, outs);
            f.Filled? ==> f.ok && forall i :: 0 <= i < |f.outs| ==> f.outs[i]
    decreases job.pageSize - j
  {
    if j < job.pageSize {
      if InRange(job, adr) {
        if pos < |job.data| {
          FillNoFailure(job, adr + 1, j + 1, pos + 1, Rest(outs));
        }
      } else {
        FillNoFailure(job, adr + 1, j + 1, pos, Rest(Rest(outs)));
      }
    }
  }

  /** Without failures the loop as written and the corrected loop do the same. */
  lemma {:induction false} AsWrittenAgreesWithoutFailures(job: Job, adr: nat, pos: nat, outs: seq<bool>)
    requires job.pageSize > 0
    requires forall i :: 0 <= i < |outs| ==> outs[i]
    ensures WritePagesAsWritten(job, adr, pos, outs, true) == WritePages(job, adr, pos, outs)
    decreases if adr < End(job) then End(job) - adr else 0
  {
    if adr < End(job) {
      FillNoFailure(job, adr, 0, pos, outs);
      var f := FillPage(job, adr, 0, pos, outs);
      if f.Filled? {
        AsWrittenAgreesWithoutFailures(job, f.adr, f.pos, Rest(f.outs));
      }
    }
  }

  /**
   * One byte 0x11 written at address 2 with 4-byte pages over erased flash.
   */
  const Misplaced: Job := Job(2, [0x11], 4, (a: nat) => 0xff)

  /** The first fill of page 0 stops at the failed read-back of address 1. */
  lemma MisplacedFirstFill()
    ensures FillPage(Misplaced, 0, 0, 0, [true, true, false])
         == Filled([ReadByte(0), LoadByte(0, 0xff), ReadByte(1)], 1, 0, [], false)
  {
    assert FillPage(Misplaced, 1, 1, 0, [false]) == Filled([ReadByte(1)], 1, 0, [], false);
  }

  /** The last two bytes of the refill, past the data. */
  lemma MisplacedRefillTail()
    ensures FillPage(Misplaced, 3, 2, 1, [])
         == Filled([ReadByte(3), LoadByte(2, 0xff), ReadByte(4), LoadByte(3, 0xff)], 5, 1, [], true)
  {
    assert FillPage(Misplaced, 5, 4, 1, []) == Filled([], 5, 1, [], true);
    assert FillPage(Misplaced, 4, 3, 1, []) == Filled([ReadByte(4), LoadByte(3, 0xff)], 5, 1, [], true);
  }

  /** The refill starts at address 1 and puts the data byte at buffer offset 1. */
  lemma MisplacedRefill()
    ensures FillPage(Misplaced, 1, 0, 0, [])
         == Filled([ReadByte(1), LoadByte(0, 0xff), LoadByte(1, 0x11), ReadByte(3), LoadByte(2, 0xff),
                    ReadByte(4), LoadByte(3, 0xff)], 5, 1, [], true)
  {
    MisplacedRefillTail();
    assert FillPage(Misplaced, 2, 1, 0, [])
        == Filled([LoadByte(1, 0x11), ReadByte(3), LoadByte(2, 0xff), ReadByte(4), LoadByte(3, 0xff)], 5, 1, [], true);
  }

  /**
   * With the read-back of address 1 failing once, the fill of page 0 stops
   * at address 1; as written, the loop refills from address 1 and commits
   * that: the data byte is loaded at buffer offset 1 instead of 2 (the byte
   * the finished page should hold there is the old 0xff), and the write
   * reports success.
   */
  lemma MisplacedByteAsWritten()
    ensures ValidJob(Misplaced)
    ensures WriteFlashAsWritten(Misplaced, [true, true, false]) ==
            Written([ReadByte(0), LoadByte(0, 0xff), ReadByte(1),
                     ReadByte(1), LoadByte(0, 0xff), LoadByte(1, 0x11),
                     ReadByte(3), LoadByte(2, 0xff), ReadByte(4), LoadByte(3, 0xff),
                     WritePage(0)], true)
    ensures Image(Misplaced, 1) == 0xff && Image(Misplaced, 2) == 0x11
  {
    assert Arith.RoundDown(2, 4) == 0;
    MisplacedFirstFill();
    MisplacedRefillCommit();
  }

  /** The refill from address 1 is committed as page 0 and ends the write. */
  lemma MisplacedRefillCommit()
    ensures WritePagesAsWritten(Misplaced, 1, 0, [], false) ==
            Written([ReadByte(1), LoadByte(0, 0xff), LoadByte(1, 0x11),
                     ReadByte(3), LoadByte(2, 0xff), ReadByte(4), LoadByte(3, 0xff),
                     WritePage(0)], true)
  {
    MisplacedRefill();
    assert WritePagesAsWritten(Misplaced, 5, 1, [], true) == Written([], true);
  }

  /** The same write, corrected, stops at the failed read-back and reports an error. */
  lemma MisplacedByteCorrected()
    ensures ValidJob(Misplaced)
    ensures WriteFlash(Misplaced, [true, true, false]) ==
            Written([ReadByte(0), LoadByte(0, 0xff), ReadByte(1)], false)
  {
    assert Arith.RoundDown(2, 4) == 0;
    MisplacedFirstFill();
  }

  // ---------------------------------------------------------------------
  // Reading and verifying the flash
  // ---------------------------------------------------------------------

  /** `ulEndAdr - ulStartAdr` in 32-bit arithmetic. */
  function Span(start: u32, end: u32): (n: u32)
    ensures (start + n) % Word32 == end
  {
    if start <= end then end - start else end + Word32 - start
  }

  /** `ulStartAdr + ulOffset` in 32-bit arithmetic. */
  function Addr(start: u32, k: nat): nat
  {
    (start + k) % Word32
  }

  /** The first n bytes of the data equal the flash from the start address on. */
  predicate Matches(start: u32, data: seq<u8>, flash: nat -> u8, n: nat)
    requires n <= |data|
  {
    forall k :: 0 <= k < n ==> flash(Addr(start, k)) == data[k]
  }

  /**
   * `spi_atmega_read_flash`: read the bytes from start to end one by one and
   * stop at the first failed exchange. `data` holds the bytes read before it.
   */
  method ReadFlash(start: u32, end: u32, flash: nat -> u8, outs: seq<bool>) returns (data: seq<u8>, ok: bool)
    ensures ok <==> AllSucceed(outs, Span(start, end))
    ensures ok ==> |data| == Span(start, end)
    ensures forall k :: 0 <= k < |data| ==> data[k] == flash(Addr(start, k))
    ensures !ok ==> |data| < Span(start, end) && !Ok(outs, |data|) && AllSucceed(outs, |data|)
  {
    var n := Span(start, end);
    data, ok := [], true;
    var offset := 0;
    while offset < n && ok
      invariant 0 <= offset <= n
      invariant ok ==> |data| == offset && AllSucceed(outs, offset)
      invariant !ok ==> 0 < offset && |data| == offset - 1 && !Ok(outs, offset - 1) && AllSucceed(outs, offset - 1)
      invariant forall k :: 0 <= k < |data| ==> data[k] == flash(Addr(start, k))
    {
      if Ok(outs, offset) {
        data := data + [flash(Addr(start, offset))];
      } else {
        ok := false;
      }
      offset := offset + 1;
    }
  }

  /**
   * `spi_atmega_verify_flash`: compare byte by byte and stop at the first
   * failed read or the first difference. A failed read makes the command fail
   * (`None`); otherwise it succeeds and its message says whether all bytes
   * were equal.
   */
  method VerifyFlash(start: u32, end: u32, data: seq<u8>, flash: nat -> u8, outs: seq<bool>)
    returns (message: Option<bool>)
    requires |data| == Span(start, end)
    ensures message.None? <==>
      exists f :: 0 <= f < |data| && !Ok(outs, f) && AllSucceed(outs, f) && Matches(start, data, flash, f)
    ensures message.Some? ==> (message.value <==> Matches(start, data, flash, |data|))
    ensures message == Some(true) ==> AllSucceed(outs, |data|)
  {
    var offset := 0;
    var failed, differ := false, false;
    while offset < |data| && !failed && !differ
      invariant 0 <= offset <= |data|
      invariant !(failed && differ)
      invariant !failed && !differ ==> AllSucceed(outs, offset) && Matches(start, data, flash, offset)
      invariant failed ==> 0 < offset && !Ok(outs, offset - 1) && AllSucceed(outs, offset - 1)
                           && Matches(start, data, flash, offset - 1)
      invariant differ ==> 0 < offset && AllSucceed(outs, offset) && Matches(start, data, flash, offset - 1)
                           && flash(Addr(start, offset - 1)) != data[offset - 1]
    {
      if !Ok(outs, offset) {
        failed := true;
      } else if flash(Addr(start, offset)) != data[offset] {
        differ := true;
      }
      offset := offset + 1;
    }
    if failed {
      message := None;
    } else {
      message := Some(!differ);
      forall f | 0 <= f < |data| && AllSucceed(outs, f) && Matches(start, data, flash, f)
        ensures Ok(outs, f)
      {
      }
    }
  }

  // ---------------------------------------------------------------------
  // Fuses
  // ---------------------------------------------------------------------

  /** The three fuse-byte writes. */
  datatype FuseWrite = WriteFuseLow(value: u8) | WriteFuseHigh(value: u8) | WriteFuseExt(value: u8)

  /** The reference list: the flagged fuse bytes, low, high, extended. */
  function Flagged(low: Option<u8>, high: Option<u8>, ext: Option<u8>): seq<FuseWrite>
  {
    (if low.Some? then [WriteFuseLow(low.value)] else [])
    + (if high.Some? then [WriteFuseHigh(high.value)] else [])
    + (if ext.Some? then [WriteFuseExt(ext.value)] else [])
  }

  /** One `if (flag && iResult == 0)` block: the write is the next exchange. */
  function FuseStep(done: Sent<FuseWrite>, w: Option<FuseWrite>, outs: seq<bool>): Sent<FuseWrite>
  {
    if w.Some? && done.ok then Sent(done.ops + [w.value], Ok(outs, |done.ops|)) else done
  }

  /**
   * `spi_atmega_write_fuse_bits`: a flag of `None` leaves that fuse byte
   * alone. Only the flagged fuse bytes are written, in the order low, high,
   * extended, and a failure skips the ones after it: the fuse write is the
   * reference run of the flagged list.
   */
  function WriteFuses(low: Option<u8>, high: Option<u8>, ext: Option<u8>, outs: seq<bool>): (r: Sent<FuseWrite>)
    ensures r == Run(Flagged(low, high, ext), outs)
  {
    RunOk(Flagged(low, high, ext), outs);
    RunStopsAtFailure(Flagged(low, high, ext), outs);
    var afterLow := FuseStep(Sent([], true), if low.Some? then Some(WriteFuseLow(low.value)) else None, outs);
    var afterHigh := FuseStep(afterLow, if high.Some? then Some(WriteFuseHigh(high.value)) else None, outs);
    FuseStep(afterHigh, if ext.Some? then Some(WriteFuseExt(ext.value)) else None, outs)
  }

  /** The four fuse reads of `spi_atmega_read_fuses` and its overall verdict. */
  datatype FuseReadout = FuseReadout(exchanges: seq<CommandOutcome>, ok: bool)

  /**
   * `spi_atmega_read_fuses`: the lock bits, the low, high and extended fuse
   * bytes are all read, in that order, each with its own exchange that sends
   * the device's read opcode with a zero fourth byte, even after a failure;
   * the command succeeds exactly when all four exchanges did.
   */
  function ReadFuses(attrs: Attributes, reply: nat -> Exchange): (r: FuseReadout)
    ensures |r.exchanges| == 4
    ensures r.exchanges[0].sent == [[attrs.readLock[0], attrs.readLock[1], attrs.readLock[2], 0]]
    ensures r.exchanges[1].sent == [[attrs.readFuse[0], attrs.readFuse[1], attrs.readFuse[2], 0]]
    ensures r.exchanges[2].sent == [[attrs.readFuseHigh[0], attrs.readFuseHigh[1], attrs.readFuseHigh[2], 0]]
    ensures r.exchanges[3].sent == [[attrs.readFuseExt[0], attrs.readFuseExt[1], attrs.readFuseExt[2], 0]]
    ensures forall i :: 0 <= i < 4 ==> (r.exchanges[i].result.Some? <==> reply(i).Exchanged?)
    ensures forall i :: 0 <= i < 4 && r.exchanges[i].result.Some? ==> r.exchanges[i].result.value == reply(i).received[3]
    ensures r.ok <==> forall i :: 0 <= i < 4 ==> reply(i).Exchanged?
  {
    var outs := [Command(attrs.readLock, 0, NoParam, 0, reply(0)),
                 Command(attrs.readFuse, 0, NoParam, 0, reply(1)),
                 Command(attrs.readFuseHigh, 0, NoParam, 0, reply(2)),
                 Command(attrs.readFuseExt, 0, NoParam, 0, reply(3))];
    FuseReadout(outs, forall i :: 0 <= i < 4 ==> outs[i].result.Some?)
  }
}
