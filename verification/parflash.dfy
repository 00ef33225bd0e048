/**
 * The common part of the parallel (CFI) flash driver: the size check, erasing
 * a range of sectors, writing an image sector by sector, and reading and
 * verifying through the memory-mapped flash window.
 *
 * The sector table and the flash size come from the CFI identification and
 * are inputs. So are the outcomes of the driver's own functions: unlocking
 * the flash is one Boolean, and the erase and program requests of a loop see
 * one Boolean each, in order (see Outcomes). The contents of the
 * memory-mapped window, read from the flash base on, are a byte sequence as
 * long as the flash.
 */
module Parflash {
  import opened Wrappers
  import opened Bytes
  import opened Outcomes

  // ---------------------------------------------------------------------
  // The sector table
  // ---------------------------------------------------------------------

  /** The capacity of the sector table of a device. */
  const MaxSectors: nat := 256

  /** One entry of the sector table: where the sector starts in the flash, and its length. */
  datatype Sector = Sector(offset: u32, size: u32)

  /** The parts of a flash device the common code uses: its size and its sector table. */
  datatype Device = Device(flashSize: u32, sectors: seq<Sector>)

  /** The offset just past sector i. */
  function SectorEnd(dev: Device, i: nat): nat
    requires i < |dev.sectors|
  {
    dev.sectors[i].offset + dev.sectors[i].size
  }

  /**
   * The sector table as the identification builds it: at most MaxSectors
   * non-empty sectors in address order, the first at offset 0, each starting
   * where the previous one ends, the last ending at the flash size.
   */
  predicate Tiled(dev: Device)
  {
    0 < |dev.sectors| <= MaxSectors
    && dev.sectors[0].offset == 0
    && (forall i :: 0 <= i < |dev.sectors| ==> 0 < dev.sectors[i].size)
    && (forall i {:trigger SectorEnd(dev, i)} :: 0 <= i < |dev.sectors| - 1 ==> dev.sectors[i + 1].offset == SectorEnd(dev, i))
    && SectorEnd(dev, |dev.sectors| - 1) == dev.flashSize
  }

  /** A sector ends no later than any later sector starts. */
  lemma {:induction false} SectorsOrdered(dev: Device, i: nat, k: nat)
    requires Tiled(dev) && i < k < |dev.sectors|
    ensures SectorEnd(dev, i) <= dev.sectors[k].offset
    decreases k - i
  {
    if i + 1 < k {
      SectorsOrdered(dev, i, k - 1);
    }
    assert dev.sectors[k].offset == SectorEnd(dev, k - 1);
  }

  /** Every sector lies inside the flash. */
  lemma SectorInside(dev: Device, i: nat)
    requires Tiled(dev) && i < |dev.sectors|
    ensures SectorEnd(dev, i) <= dev.flashSize
  {
    if i + 1 < |dev.sectors| {
      SectorsOrdered(dev, i, |dev.sectors| - 1);
    }
  }

  /** A sector that ends before the end of the flash is followed by the sector starting at its end. */
  lemma NextSector(dev: Device, s: nat)
    requires Tiled(dev) && s < |dev.sectors|
    ensures SectorEnd(dev, s) < dev.flashSize ==> s + 1 < |dev.sectors| && dev.sectors[s + 1].offset == SectorEnd(dev, s)
  {
  }

  /** The indices of the sectors from `from` on that start below `limit`. */
  function Below(dev: Device, from: nat, limit: nat): (r: seq<nat>)
    decreases |dev.sectors| - from
  {
    if from >= |dev.sectors| || dev.sectors[from].offset >= limit then []
    else [from] + Below(dev, from + 1, limit)
  }

  /**
   * In a tiled table the sectors starting below a limit are consecutive from
   * `from` on, and they are exactly those whose offset is below the limit.
   */
  lemma {:induction false} BelowIsRange(dev: Device, from: nat, limit: nat)
    requires Tiled(dev)
    ensures from + |Below(dev, from, limit)| <= |dev.sectors| || |Below(dev, from, limit)| == 0
    ensures forall t :: 0 <= t < |Below(dev, from, limit)| ==> Below(dev, from, limit)[t] == from + t
    ensures forall i :: from <= i < |dev.sectors| ==> (i < from + |Below(dev, from, limit)| <==> dev.sectors[i].offset < limit)
    decreases |dev.sectors| - from
  {
    if from < |dev.sectors| {
      if dev.sectors[from].offset >= limit {
        BelowNothing(dev, from, limit);
        assert |Below(dev, from, limit)| == 0;
      } else {
        var rest := Below(dev, from + 1, limit);
        BelowIsRange(dev, from + 1, limit);
        BelowStep(dev, from, limit, rest);
      }
    } else {
      assert Below(dev, from, limit) == [];
    }
  }

  /** A sector at or past the limit leaves no sector from it on below the limit. */
  lemma BelowNothing(dev: Device, from: nat, limit: nat)
    requires Tiled(dev) && from < |dev.sectors| && dev.sectors[from].offset >= limit
    ensures Below(dev, from, limit) == []
    ensures forall i :: from <= i < |dev.sectors| ==> dev.sectors[i].offset >= limit
  {
    forall i | from < i < |dev.sectors|
      ensures dev.sectors[i].offset >= limit
    {
      SectorsOrdered(dev, from, i);
    }
  }

  /** A sector below the limit, followed by the consecutive run of the next sectors below it. */
  lemma BelowStep(dev: Device, from: nat, limit: nat, rest: seq<nat>)
    requires from < |dev.sectors| && dev.sectors[from].offset < limit
    requires rest == Below(dev, from + 1, limit)
    requires from + 1 + |rest| <= |dev.sectors| || |rest| == 0
    requires forall t :: 0 <= t < |rest| ==> rest[t] == from + 1 + t
    requires forall i :: from + 1 <= i < |dev.sectors| ==> (i < from + 1 + |rest| <==> dev.sectors[i].offset < limit)
    ensures from + |Below(dev, from, limit)| <= |dev.sectors|
    ensures forall t :: 0 <= t < |Below(dev, from, limit)| ==> Below(dev, from, limit)[t] == from + t
    ensures forall i :: from <= i < |dev.sectors| ==> (i < from + |Below(dev, from, limit)| <==> dev.sectors[i].offset < limit)
  {
    var r := Below(dev, from, limit);
    assert r == [from] + rest;
    forall t | 0 < t < |r|
      ensures r[t] == from + t
    {
      assert r[t] == rest[t - 1];
    }
  }

  // ---------------------------------------------------------------------
  // Size check
  // ---------------------------------------------------------------------

  /**
   * Whether length bytes fit between the start of sector start and the end
   * of the flash. The room is the 32-bit difference of the flash size and the
   * sector offset, which wraps round when the offset lies past the flash size.
   */
  function CheckSize(dev: Device, start: nat, length: u32): (fits: bool)
    requires start < |dev.sectors|
    ensures var offset := dev.sectors[start].offset;
            fits <==> if offset <= dev.flashSize then offset + length <= dev.flashSize
                      else length <= Word32 + dev.flashSize - offset
  {
    var room := (dev.flashSize - dev.sectors[start].offset) % Word32;
    !(room < length)
  }

  /** In a tiled table the check accepts exactly the lengths that end inside the flash. */
  lemma CheckSizeFits(dev: Device, start: nat, length: u32)
    requires Tiled(dev) && start < |dev.sectors|
    ensures CheckSize(dev, start, length) <==> dev.sectors[start].offset + length <= dev.flashSize
  {
    SectorInside(dev, start);
  }

  /** The bytes a loop step handles in sector s when left bytes remain: the smaller of the two. */
  function Segment(dev: Device, s: nat, left: nat): (n: nat)
    requires s < |dev.sectors|
    ensures n <= left && n <= dev.sectors[s].size
    ensures n == left || n == dev.sectors[s].size
  {
    if left >= dev.sectors[s].size then dev.sectors[s].size else left
  }

  // ---------------------------------------------------------------------
  // Erase
  // ---------------------------------------------------------------------

  /** The erase length that stands for the whole flash. */
  const EraseAll: u32 := 0xffff_ffff

  /**
   * The erase loop: erase sector s, take the smaller of the bytes left and
   * the sector size off the bytes left, and go on with the next sector until
   * nothing is left; the first failed erase ends the loop. The sectors are
   * erased one after the other from s on, and a failure is that of an erase.
   */
  function EraseWalk(dev: Device, s: nat, left: nat, outs: seq<bool>): (r: Sent<nat>)
    requires Tiled(dev)
    requires 0 < left ==> s < |dev.sectors| && dev.sectors[s].offset + left <= dev.flashSize
    ensures forall i :: 0 <= i < |r.ops| ==> r.ops[i] == s + i
    ensures !r.ok ==> 0 < |r.ops| && !Ok(outs, |r.ops| - 1)
    decreases left
  {
    if left == 0 then Sent([], true)
    else if !Ok(outs, 0) then Sent([s], false)
    else
      var segment := Segment(dev, s, left);
      NextSector(dev, s);
      var r := EraseWalk(dev, s + 1, left - segment, Rest(outs));
      Sent([s] + r.ops, r.ok)
  }

  /**
   * The erase loop erases, in order, the sectors from s on that start below
   * limit, the end of the range, and stops at the first failure.
   */
  lemma {:induction false} EraseWalkIsRun(dev: Device, s: nat, left: nat, limit: nat, outs: seq<bool>)
    requires Tiled(dev)
    requires 0 < left ==> s < |dev.sectors| && dev.sectors[s].offset + left <= dev.flashSize
    requires 0 < left ==> limit == dev.sectors[s].offset + left
    requires left == 0 ==> s >= |dev.sectors| || limit <= dev.sectors[s].offset
    ensures EraseWalk(dev, s, left, outs) == Run(Below(dev, s, limit), outs)
    decreases left
  {
    if 0 < left && Ok(outs, 0) {
      var segment := Segment(dev, s, left);
      NextSector(dev, s);
      EraseWalkIsRun(dev, s + 1, left - segment, limit, Rest(outs));
      EraseWalkStep(dev, s, left, limit, outs, left - segment);
    }
  }

  /** A step of the erase loop erases sector s, which starts below the limit, and goes on with the next. */
  lemma EraseWalkStep(dev: Device, s: nat, left: nat, limit: nat, outs: seq<bool>, left1: nat)
    requires Tiled(dev) && 0 < left && Ok(outs, 0)
    requires s < |dev.sectors| && dev.sectors[s].offset + left <= dev.flashSize
    requires limit == dev.sectors[s].offset + left
    requires SectorEnd(dev, s) < dev.flashSize ==> s + 1 < |dev.sectors| && dev.sectors[s + 1].offset == SectorEnd(dev, s)
    requires left1 == left - Segment(dev, s, left)
    requires EraseWalk(dev, s + 1, left1, Rest(outs)) == Run(Below(dev, s + 1, limit), Rest(outs))
    ensures EraseWalk(dev, s, left, outs) == Run(Below(dev, s, limit), outs)
  {
    assert Below(dev, s, limit) == [s] + Below(dev, s + 1, limit);
    RunCons(s, Below(dev, s + 1, limit), Rest(outs));
  }

  /**
   * Erasing length bytes from sector start: the length EraseAll means the
   * whole flash; a range that does not fit or a failed unlock erases nothing.
   */
  function Erase(dev: Device, start: nat, length: u32, unlocked: bool, outs: seq<bool>): (r: Sent<nat>)
    requires Tiled(dev) && start < |dev.sectors|
    ensures !r.ok ==> 0 < |r.ops| || !CheckSize(dev, start, if length == EraseAll then dev.flashSize else length) || !unlocked
  {
    var len := if length == EraseAll then dev.flashSize else length;
    if !CheckSize(dev, start, len) || !unlocked then Sent([], false)
    else
      CheckSizeFits(dev, start, len);
      EraseWalk(dev, start, len, outs)
  }

  /**
   * An erase that fits and is unlocked erases the sectors overlapping the
   * range in address order, one after the other, until the first failure, and
   * succeeds iff every one of them is erased.
   */
  lemma EraseCovers(dev: Device, start: nat, length: u32, outs: seq<bool>)
    requires Tiled(dev) && start < |dev.sectors| && length != EraseAll
    requires dev.sectors[start].offset + length <= dev.flashSize
    ensures var r := Erase(dev, start, length, true, outs);
            var covered := Below(dev, start, dev.sectors[start].offset + length);
            r == Run(covered, outs)
            && (r.ok <==> AllSucceed(outs, |covered|))
            && (!r.ok ==> 0 < |r.ops| && !Ok(outs, |r.ops| - 1) && AllSucceed(outs, |r.ops| - 1))
  {
    var limit := dev.sectors[start].offset + length;
    CheckSizeFits(dev, start, length);
    assert Erase(dev, start, length, true, outs) == EraseWalk(dev, start, length, outs);
    EraseWalkIsRun(dev, start, length, limit, outs);
    RunOk(Below(dev, start, limit), outs);
    RunStopsAtFailure(Below(dev, start, limit), outs);
  }

  /** A range too long for the flash, or a locked flash, erases nothing and fails. */
  lemma EraseRejects(dev: Device, start: nat, length: u32, unlocked: bool, outs: seq<bool>)
    requires Tiled(dev) && start < |dev.sectors| && length != EraseAll
    requires dev.sectors[start].offset + length > dev.flashSize || !unlocked
    ensures Erase(dev, start, length, unlocked, outs) == Sent([], false)
  {
    CheckSizeFits(dev, start, length);
  }

  /** The sector indices 0 to n - 1, in order. */
  function Indices(n: nat): (r: seq<nat>)
    ensures |r| == n && forall i :: 0 <= i < n ==> r[i] == i
  {
    seq(n, i => i)
  }

  /** Erasing EraseAll bytes from the first sector erases every sector, in order. */
  lemma EraseAllFromFirst(dev: Device, outs: seq<bool>)
    requires Tiled(dev)
    ensures Erase(dev, 0, EraseAll, true, outs) == Run(Indices(|dev.sectors|), outs)
  {
    var limit := dev.flashSize;
    CheckSizeFits(dev, 0, dev.flashSize);
    EraseWalkIsRun(dev, 0, dev.flashSize, limit, outs);
    BelowIsRange(dev, 0, limit);
    var b := Below(dev, 0, limit);
    var last := |dev.sectors| - 1;
    assert dev.sectors[last].offset < limit;
    assert last < |b|;
    assert b[|b| - 1] == |b| - 1 < |dev.sectors|;
    assert |b| == |dev.sectors|;
    assert forall t :: 0 <= t < |b| ==> b[t] == t;
    assert b == Indices(|dev.sectors|);
    assert Erase(dev, 0, EraseAll, true, outs) == EraseWalk(dev, 0, dev.flashSize, outs);
  }

  /** Erasing EraseAll bytes from any later sector is rejected by the size check. */
  lemma EraseAllFromLaterFails(dev: Device, start: nat, unlocked: bool, outs: seq<bool>)
    requires Tiled(dev) && 0 < start < |dev.sectors|
    ensures Erase(dev, start, EraseAll, unlocked, outs) == Sent([], false)
  {
    SectorsOrdered(dev, 0, start);
    CheckSizeFits(dev, start, dev.flashSize);
  }

  // ---------------------------------------------------------------------
  // Writing an image
  // ---------------------------------------------------------------------

  /** A request of the image write to the driver. */
  datatype ImageOp = EraseSector(index: nat) | ProgramBytes(offset: nat, bytes: seq<byte>)

  /** The bytes of all program requests, in order. */
  function Programmed(ops: seq<ImageOp>): seq<byte>
  {
    if |ops| == 0 then []
    else (if ops[0].ProgramBytes? then ops[0].bytes else []) + Programmed(ops[1..])
  }

  /**
   * The write loop from data position pos on: erase sector s, program the
   * smaller of the bytes left and the sector size at the sector's offset,
   * and go on with the next sector until the data is used up; the first
   * failed erase or program ends the loop. The requests start with the
   * erase of sector s, a successful loop ends with a program request, and a
   * failure is that of the last request.
   */
  function ProgramWalk(dev: Device, s: nat, data: seq<byte>, pos: nat, outs: seq<bool>): (r: Sent<ImageOp>)
    requires Tiled(dev) && pos <= |data|
    requires pos < |data| ==> s < |dev.sectors| && dev.sectors[s].offset + (|data| - pos) <= dev.flashSize
    ensures |r.ops| > 0 ==> r.ops[0] == EraseSector(s)
    ensures r.ok && 0 < |r.ops| ==> r.ops[|r.ops| - 1].ProgramBytes?
    ensures !r.ok ==> 0 < |r.ops| && !Ok(outs, |r.ops| - 1)
    decreases |data| - pos
  {
    if pos == |data| then Sent([], true)
    else if !Ok(outs, 0) then Sent([EraseSector(s)], false)
    else
      var left := |data| - pos;
      var segment := Segment(dev, s, left);
      var program := ProgramBytes(dev.sectors[s].offset, data[pos..pos + segment]);
      NextSector(dev, s);
      if !Ok(outs, 1) then Sent([EraseSector(s), program], false)
      else
        var r := ProgramWalk(dev, s + 1, data, pos + segment, Rest(Rest(outs)));
        Sent([EraseSector(s), program] + r.ops, r.ok)
  }

  /**
   * The requests of the write loop from sector s on: erase the sector, then
   * program bytes at its offset, no more than its size, and so on with the
   * next sector; the list may end after any request.
   */
  predicate Paired(dev: Device, s: nat, ops: seq<ImageOp>)
    decreases |ops|
  {
    |ops| == 0
    || (s < |dev.sectors| && ops[0] == EraseSector(s)
        && (|ops| == 1
            || (ops[1].ProgramBytes? && ops[1].offset == dev.sectors[s].offset
                && |ops[1].bytes| <= dev.sectors[s].size && Paired(dev, s + 1, ops[2..]))))
  }

  /** Every program request puts each data byte at the start sector's offset plus the byte's place in the image. */
  predicate Placed(dev: Device, s: nat, data: seq<byte>, pos: nat, ops: seq<ImageOp>)
    requires s < |dev.sectors| && pos <= |data|
  {
    forall t :: 0 <= t < |ops| && ops[t].ProgramBytes? ==>
      var at := ops[t].offset - dev.sectors[s].offset;
      dev.sectors[s].offset <= ops[t].offset && at + |ops[t].bytes| <= |data| - pos
      && ops[t].bytes == data[pos + at..pos + at + |ops[t].bytes|]
  }

  /** The write loop erases and programs sector by sector, each sector before it is programmed. */
  lemma {:induction false} ProgramWalkPaired(dev: Device, s: nat, data: seq<byte>, pos: nat, outs: seq<bool>)
    requires Tiled(dev) && pos <= |data|
    requires pos < |data| ==> s < |dev.sectors| && dev.sectors[s].offset + (|data| - pos) <= dev.flashSize
    ensures Paired(dev, s, ProgramWalk(dev, s, data, pos, outs).ops)
    decreases |data| - pos
  {
    if pos < |data| && Ok(outs, 0) {
      NextSector(dev, s);
      var pos1 := pos + Segment(dev, s, |data| - pos);
      var program := ProgramBytes(dev.sectors[s].offset, data[pos..pos1]);
      var rest := ProgramWalk(dev, s + 1, data, pos1, Rest(Rest(outs)));
      var ops := ProgramWalk(dev, s, data, pos, outs).ops;
      ProgramWalkUnfold(dev, s, data, pos, outs, pos1, program);
      if Ok(outs, 1) {
        ProgramWalkPaired(dev, s + 1, data, pos1, Rest(Rest(outs)));
        PairedCons(dev, s, program, rest.ops, ops);
      } else {
        PairedCons(dev, s, program, [], ops);
      }
    }
  }

  /** An erase of sector s and a program request at its offset, followed by the requests of the next sectors. */
  lemma PairedCons(dev: Device, s: nat, program: ImageOp, rest: seq<ImageOp>, ops: seq<ImageOp>)
    requires s < |dev.sectors| && program.ProgramBytes?
    requires program.offset == dev.sectors[s].offset && |program.bytes| <= dev.sectors[s].size
    requires Paired(dev, s + 1, rest)
    requires ops == [EraseSector(s), program] + rest
    ensures Paired(dev, s, ops)
  {
    assert ops[2..] == rest;
  }

  /** The first request pair of a sector is placed. */
  lemma PlacedPair(dev: Device, s: nat, data: seq<byte>, pos: nat, segment: nat, ops: seq<ImageOp>)
    requires s < |dev.sectors| && pos + segment <= |data|
    requires ops == [EraseSector(s), ProgramBytes(dev.sectors[s].offset, data[pos..pos + segment])]
    ensures Placed(dev, s, data, pos, ops)
  {
  }

  /** The next sector's program requests, placed relative to it, are placed relative to this sector. */
  lemma PlacedCons(dev: Device, s: nat, data: seq<byte>, pos: nat, segment: nat, rest: seq<ImageOp>, ops: seq<ImageOp>)
    requires s + 1 < |dev.sectors| && pos + segment <= |data|
    requires dev.sectors[s + 1].offset == dev.sectors[s].offset + segment
    requires Placed(dev, s + 1, data, pos + segment, rest)
    requires ops == [EraseSector(s), ProgramBytes(dev.sectors[s].offset, data[pos..pos + segment])] + rest
    ensures Placed(dev, s, data, pos, ops)
  {
    forall t | 2 <= t < |ops| && ops[t].ProgramBytes?
      ensures var at := ops[t].offset - dev.sectors[s].offset;
              dev.sectors[s].offset <= ops[t].offset && at + |ops[t].bytes| <= |data| - pos
              && ops[t].bytes == data[pos + at..pos + at + |ops[t].bytes|]
    {
      assert ops[t] == rest[t - 2];
    }
  }

  /** The write loop programs each byte of the data at the start sector's offset plus the byte's place in the data. */
  lemma {:induction false} ProgramWalkPlaced(dev: Device, s: nat, data: seq<byte>, pos: nat, outs: seq<bool>)
    requires Tiled(dev) && pos <= |data| && s < |dev.sectors|
    requires dev.sectors[s].offset + (|data| - pos) <= dev.flashSize
    ensures Placed(dev, s, data, pos, ProgramWalk(dev, s, data, pos, outs).ops)
    decreases |data| - pos
  {
    if pos < |data| && Ok(outs, 0) {
      var segment := Segment(dev, s, |data| - pos);
      NextSector(dev, s);
      var pos1 := pos + segment;
      var program := ProgramBytes(dev.sectors[s].offset, data[pos..pos1]);
      var rest := ProgramWalk(dev, s + 1, data, pos1, Rest(Rest(outs)));
      var ops := ProgramWalk(dev, s, data, pos, outs).ops;
      ProgramWalkUnfold(dev, s, data, pos, outs, pos1, program);
      if !Ok(outs, 1) {
        PlacedPair(dev, s, data, pos, segment, ops);
      } else if pos1 == |data| {
        assert rest.ops == [];
        assert ops == [EraseSector(s), program];
        PlacedPair(dev, s, data, pos, segment, ops);
      } else {
        ProgramWalkPlaced(dev, s + 1, data, pos1, Rest(Rest(outs)));
        PlacedCons(dev, s, data, pos, segment, rest.ops, ops);
      }
    }
  }

  lemma ProgrammedPair(e: ImageOp, p: ImageOp, ops: seq<ImageOp>)
    requires e.EraseSector? && p.ProgramBytes?
    ensures Programmed([e, p] + ops) == p.bytes + Programmed(ops)
  {
    assert ([e, p] + ops)[1..] == [p] + ops;
    assert ([p] + ops)[1..] == ops;
  }

  /** A write loop that succeeds programs all the data from pos on. */
  lemma {:induction false} ProgramWalkWrites(dev: Device, s: nat, data: seq<byte>, pos: nat, outs: seq<bool>)
    requires Tiled(dev) && pos <= |data|
    requires pos < |data| ==> s < |dev.sectors| && dev.sectors[s].offset + (|data| - pos) <= dev.flashSize
    ensures var r := ProgramWalk(dev, s, data, pos, outs);
            r.ok ==> Programmed(r.ops) == data[pos..]
    decreases |data| - pos
  {
    if pos < |data| {
      NextSector(dev, s);
      var pos1 := pos + Segment(dev, s, |data| - pos);
      var program := ProgramBytes(dev.sectors[s].offset, data[pos..pos1]);
      var rest := ProgramWalk(dev, s + 1, data, pos1, Rest(Rest(outs)));
      ProgramWalkUnfold(dev, s, data, pos, outs, pos1, program);
      if Ok(outs, 0) && Ok(outs, 1) && rest.ok {
        ProgramWalkWrites(dev, s + 1, data, pos1, Rest(Rest(outs)));
        ProgrammedJoin(s, dev.sectors[s].offset, data, pos, pos1, rest.ops);
      }
    }
  }

  /** The bytes programmed by an erase-and-program pair followed by requests that program the tail. */
  lemma ProgrammedJoin(s: nat, offset: nat, data: seq<byte>, pos: nat, pos1: nat, ops: seq<ImageOp>)
    requires pos <= pos1 <= |data| && Programmed(ops) == data[pos1..]
    ensures Programmed([EraseSector(s), ProgramBytes(offset, data[pos..pos1])] + ops) == data[pos..]
  {
    ProgrammedPair(EraseSector(s), ProgramBytes(offset, data[pos..pos1]), ops);
    assert data[pos..] == data[pos..pos1] + data[pos1..];
  }

  /** The write loop with failures is the loop without failures cut off after the first failed request. */
  lemma {:induction false} ProgramWalkIsRun(dev: Device, s: nat, data: seq<byte>, pos: nat, outs: seq<bool>)
    requires Tiled(dev) && pos <= |data|
    requires pos < |data| ==> s < |dev.sectors| && dev.sectors[s].offset + (|data| - pos) <= dev.flashSize
    ensures ProgramWalk(dev, s, data, pos, outs) == Run(ProgramWalk(dev, s, data, pos, []).ops, outs)
    decreases |data| - pos
  {
    if pos < |data| {
      NextSector(dev, s);
      var pos1 := pos + Segment(dev, s, |data| - pos);
      var program := ProgramBytes(dev.sectors[s].offset, data[pos..pos1]);
      ProgramWalkIsRun(dev, s + 1, data, pos1, Rest(Rest(outs)));
      ProgramWalkUnfold(dev, s, data, pos, outs, pos1, program);
      ProgramWalkUnfold(dev, s, data, pos, [], pos1, program);
      assert Rest(Rest([])) == [];
      PairIsRun(ProgramWalk(dev, s, data, pos, outs), EraseSector(s), program, ProgramWalk(dev, s + 1, data, pos1, []).ops,
                outs, ProgramWalk(dev, s + 1, data, pos1, Rest(Rest(outs))));
    } else {
      assert ProgramWalk(dev, s, data, pos, []).ops == [];
    }
  }

  /** The write loop's first step, written out for each outcome of its two requests. */
  lemma ProgramWalkUnfold(dev: Device, s: nat, data: seq<byte>, pos: nat, outs: seq<bool>, pos1: nat, program: ImageOp)
    requires Tiled(dev) && pos < |data| && s < |dev.sectors| && dev.sectors[s].offset + (|data| - pos) <= dev.flashSize
    requires SectorEnd(dev, s) < dev.flashSize ==> s + 1 < |dev.sectors| && dev.sectors[s + 1].offset == SectorEnd(dev, s)
    requires pos1 == pos + Segment(dev, s, |data| - pos)
    requires program == ProgramBytes(dev.sectors[s].offset, data[pos..pos1])
    ensures var rest := ProgramWalk(dev, s + 1, data, pos1, Rest(Rest(outs)));
            ProgramWalk(dev, s, data, pos, outs)
              == if !Ok(outs, 0) then Sent([EraseSector(s)], false)
                 else if !Ok(outs, 1) then Sent([EraseSector(s), program], false)
                 else Sent([EraseSector(s), program] + rest.ops, rest.ok)
  {
  }

  /**
   * Writing an image from sector start: check the size, unlock, run the
   * write loop and, when every request succeeded, verify the data against
   * `window`, the memory-mapped contents after programming.
   */
  function WriteImage(dev: Device, start: nat, data: seq<byte>, unlocked: bool, outs: seq<bool>, window: seq<byte>): (r: Sent<ImageOp>)
    requires Tiled(dev) && start < |dev.sectors| && |data| < Word32 && |window| == dev.flashSize
    ensures !CheckSize(dev, start, |data|) || !unlocked ==> r == Sent([], false)
  {
    if !CheckSize(dev, start, |data|) || !unlocked then Sent([], false)
    else
      CheckSizeFits(dev, start, |data|);
      var w := ProgramWalk(dev, start, data, 0, outs);
      if !w.ok then w else Sent(w.ops, Verify(data, window))
  }

  /**
   * The image write as written: the same requests, with the final verdict
   * taken from the comparison loop that does not check its last comparison.
   */
  function WriteImageAsWritten(dev: Device, start: nat, data: seq<byte>, unlocked: bool, outs: seq<bool>, window: seq<byte>): (r: Sent<ImageOp>)
    requires Tiled(dev) && start < |dev.sectors| && |data| < Word32 && |window| == dev.flashSize
    ensures !CheckSize(dev, start, |data|) || !unlocked ==> r == Sent([], false)
  {
    if !CheckSize(dev, start, |data|) || !unlocked then Sent([], false)
    else
      CheckSizeFits(dev, start, |data|);
      var w := ProgramWalk(dev, start, data, 0, outs);
      if !w.ok then w else Sent(w.ops, VerifyAsWritten(data, window))
  }

  /**
   * The image write as written and corrected issue the same requests; their
   * verdicts differ exactly when every request succeeded and the flash
   * differs from the image in its last byte only.
   */
  lemma WriteImageVerdicts(dev: Device, start: nat, data: seq<byte>, unlocked: bool, outs: seq<bool>, window: seq<byte>)
    requires Tiled(dev) && start < |dev.sectors| && |data| < Word32 && |window| == dev.flashSize
    ensures var a := WriteImageAsWritten(dev, start, data, unlocked, outs, window);
            var c := WriteImage(dev, start, data, unlocked, outs, window);
            a.ops == c.ops
            && (a.ok != c.ok <==>
                  dev.sectors[start].offset + |data| <= dev.flashSize && unlocked
                  && ProgramWalk(dev, start, data, 0, outs).ok
                  && 0 < |data| && data[|data| - 1] != window[|data| - 1]
                  && forall k :: 0 <= k < |data| - 1 ==> data[k] == window[k])
  {
    CheckSizeFits(dev, start, |data|);
    if CheckSize(dev, start, |data|) && unlocked {
      VerifyAsWrittenDiffers(data, window);
    }
  }

  /**
   * An image write that fits and is unlocked erases and programs sector by
   * sector from start, puts data byte k at the start sector's offset plus k,
   * stops at the first failed request, and when all requests succeed has
   * programmed all the data and succeeds iff the window from the flash base
   * on holds the data.
   */
  lemma WriteImageSpec(dev: Device, start: nat, data: seq<byte>, outs: seq<bool>, window: seq<byte>)
    requires Tiled(dev) && start < |dev.sectors| && |data| < Word32 && |window| == dev.flashSize
    requires dev.sectors[start].offset + |data| <= dev.flashSize
    ensures var r := WriteImage(dev, start, data, true, outs, window);
            var all := ProgramWalk(dev, start, data, 0, []);
            Paired(dev, start, r.ops) && Placed(dev, start, data, 0, r.ops)
            && Programmed(all.ops) == data
            && (AllSucceed(outs, |all.ops|) ==> r.ops == all.ops && (r.ok <==> window[..|data|] == data))
            && (!AllSucceed(outs, |all.ops|) ==> !r.ok && 0 < |r.ops| && !Ok(outs, |r.ops| - 1)
                                                  && AllSucceed(outs, |r.ops| - 1) && r.ops == all.ops[..|r.ops|])
  {
    CheckSizeFits(dev, start, |data|);
    ProgramWalkPaired(dev, start, data, 0, outs);
    ProgramWalkPlaced(dev, start, data, 0, outs);
    ProgramWalkWrites(dev, start, data, 0, []);
    ProgramWalkIsRun(dev, start, data, 0, outs);
    ProgramWalkIsRun(dev, start, data, 0, []);
    var all := ProgramWalk(dev, start, data, 0, []);
    RunOk(all.ops, outs);
    RunOk(all.ops, []);
    RunStopsAtFailure(all.ops, outs);
    assert data[0..] == data;
  }

  // ---------------------------------------------------------------------
  // Reading and verifying through the flash window
  // ---------------------------------------------------------------------

  /**
   * The comparison loop as written, from index i on: it compares a byte,
   * steps past it, and stops on a difference or when the step reaches the
   * end, returning how far it stepped.
   */
  function ScanAsWritten(data: seq<byte>, window: seq<byte>, i: nat): (stop: nat)
    requires i < |data| <= |window|
    ensures i < stop <= |data|
    ensures stop < |data| ==> data[stop - 1] != window[stop - 1]
    ensures stop == |data| <==> forall k :: i <= k < |data| - 1 ==> data[k] == window[k]
    decreases |data| - i
  {
    if data[i] != window[i] then i + 1
    else if i + 1 >= |data| then i + 1
    else ScanAsWritten(data, window, i + 1)
  }

  /**
   * The verify loops as written: the image is accepted when the scan reaches
   * the end. With no data the loop still compares one byte but then stops at
   * the end, so an empty image is accepted.
   */
  function VerifyAsWritten(data: seq<byte>, window: seq<byte>): (ok: bool)
    requires |data| <= |window|
    ensures ok <==> forall k :: 0 <= k < |data| - 1 ==> data[k] == window[k]
  {
    |data| == 0 || ScanAsWritten(data, window, 0) == |data|
  }

  /** Whether the window agrees with the data from index i on. */
  function MatchFrom(data: seq<byte>, window: seq<byte>, i: nat): (ok: bool)
    requires |data| <= |window|
    ensures ok <==> forall k :: i <= k < |data| ==> data[k] == window[k]
    decreases |data| - i
  {
    i >= |data| || (data[i] == window[i] && MatchFrom(data, window, i + 1))
  }

  /** The corrected comparison: the image is accepted iff the window starts with it. */
  function Verify(data: seq<byte>, window: seq<byte>): (ok: bool)
    requires |data| <= |window|
    ensures ok <==> window[..|data|] == data
  {
    var ok := MatchFrom(data, window, 0);
    assert ok <==> window[..|data|] == data by {
      if ok {
        assert forall k :: 0 <= k < |data| ==> window[..|data|][k] == data[k];
      }
    }
    ok
  }

  /** A single wrong byte at the end of the image is accepted as written and rejected by the corrected comparison. */
  lemma LastByteMismatchAccepted()
    ensures VerifyAsWritten([0x00], [0x01])
    ensures !Verify([0x00], [0x01])
  {
  }

  /** The two comparisons differ only on a difference in the last byte. */
  lemma VerifyAsWrittenDiffers(data: seq<byte>, window: seq<byte>)
    requires |data| <= |window|
    ensures VerifyAsWritten(data, window) != Verify(data, window)
            <==> 0 < |data| && data[|data| - 1] != window[|data| - 1]
                 && forall k :: 0 <= k < |data| - 1 ==> data[k] == window[k]
  {
    if 0 < |data| && data[|data| - 1] != window[|data| - 1] {
      assert window[..|data|][|data| - 1] != data[|data| - 1];
    }
    if 0 < |data| && VerifyAsWritten(data, window) && data[|data| - 1] == window[|data| - 1] {
      assert forall k :: 0 <= k < |data| ==> window[..|data|][k] == data[k];
    }
  }

  /**
   * Reading length bytes: after the size check for sector start, the bytes
   * are copied from the flash base on, whatever the start sector.
   */
  function Read(dev: Device, start: nat, length: u32, window: seq<byte>): (r: Option<seq<byte>>)
    requires Tiled(dev) && start < |dev.sectors| && |window| == dev.flashSize
    ensures r.Some? <==> dev.sectors[start].offset + length <= dev.flashSize
    ensures r.Some? ==> |r.value| == length
  {
    CheckSizeFits(dev, start, length);
    if !CheckSize(dev, start, length) then None
    else Some(window[..length])
  }

  /** Verifying length bytes: the size check for sector start, then the comparison from the flash base on. */
  function VerifyImage(dev: Device, start: nat, data: seq<byte>, window: seq<byte>): (ok: bool)
    requires Tiled(dev) && start < |dev.sectors| && |data| < Word32 && |window| == dev.flashSize
    ensures ok <==> dev.sectors[start].offset + |data| <= dev.flashSize && window[..|data|] == data
  {
    CheckSizeFits(dev, start, |data|);
    CheckSize(dev, start, |data|) && Verify(data, window)
  }

  /** `parflash_verify` as written: the size check, then the comparison loop that does not check its last comparison. */
  function VerifyImageAsWritten(dev: Device, start: nat, data: seq<byte>, window: seq<byte>): (ok: bool)
    requires Tiled(dev) && start < |dev.sectors| && |data| < Word32 && |window| == dev.flashSize
    ensures ok <==> dev.sectors[start].offset + |data| <= dev.flashSize
                    && forall k :: 0 <= k < |data| - 1 ==> data[k] == window[k]
  {
    CheckSizeFits(dev, start, |data|);
    CheckSize(dev, start, |data|) && VerifyAsWritten(data, window)
  }

  /** The verification as written accepts what the corrected one rejects exactly when only the last byte differs. */
  lemma VerifyImageVerdicts(dev: Device, start: nat, data: seq<byte>, window: seq<byte>)
    requires Tiled(dev) && start < |dev.sectors| && |data| < Word32 && |window| == dev.flashSize
    ensures VerifyImageAsWritten(dev, start, data, window) != VerifyImage(dev, start, data, window)
            <==> dev.sectors[start].offset + |data| <= dev.flashSize
                 && 0 < |data| && data[|data| - 1] != window[|data| - 1]
                 && forall k :: 0 <= k < |data| - 1 ==> data[k] == window[k]
  {
    CheckSizeFits(dev, start, |data|);
    if |data| <= |window| {
      VerifyAsWrittenDiffers(data, window);
    }
  }

  /** Whatever is read back from sector start verifies from the same sector. */
  lemma ReadThenVerify(dev: Device, start: nat, length: u32, window: seq<byte>)
    requires Tiled(dev) && start < |dev.sectors| && |window| == dev.flashSize
    ensures var r := Read(dev, start, length, window);
            r.Some? ==> VerifyImage(dev, start, r.value, window)
  {
  }

  /**
   * Read and verify use the start sector for the size check only: two start
   * sectors that both pass it read and verify the same bytes.
   */
  lemma StartSectorOnlyChecksSize(dev: Device, s1: nat, s2: nat, data: seq<byte>, window: seq<byte>)
    requires Tiled(dev) && s1 < |dev.sectors| && s2 < |dev.sectors| && |data| < Word32 && |window| == dev.flashSize
    requires dev.sectors[s1].offset + |data| <= dev.flashSize && dev.sectors[s2].offset + |data| <= dev.flashSize
    ensures Read(dev, s1, |data|, window) == Read(dev, s2, |data|, window)
    ensures VerifyImage(dev, s1, data, window) == VerifyImage(dev, s2, data, window)
  {
  }
}
