/**
 * The range logic of the SPI flash front end: rounding an erase request to
 * erase blocks, choosing between sector and page erase, the erase loop, the
 * page segmentation of writes, verify and the erased check, and the decision
 * rules of the smart erase.
 *
 * The flash is a byte sequence. Page programming can only clear bits, so a
 * programmed byte ends as the AND of its old value and the data. The driver
 * calls that fail are given as sets of addresses: an erase or page write at
 * an address in the set fails, and a read of a segment starting at an address
 * in the set fails.
 */
module SpiFlash {
  import opened Wrappers
  import opened Bytes
  import opened Arith

  /** Size of the bounce buffer; pages larger than this cannot be written. */
  const BufferSize: nat := 8192
  /** The smart erase keeps one bit per sector in this many 32-bit words. */
  const BitmapEntries: nat := 32
  const BitsPerEntry: nat := 32

  // ---------------------------------------------------------------------
  // Erase area
  // ---------------------------------------------------------------------

  /**
   * `spi_getEraseArea`: start rounded down and end rounded up to the sector
   * size. The rounding up adds sectorSize - 1 in 32 bits, which wraps for an
   * end in the last sector below 2^32.
   */
  function GetEraseArea(sectorSize: nat, start: u32, end: u32): (r: (nat, nat))
    requires 0 < sectorSize
    ensures r.0 <= start && r.0 % sectorSize == 0 && start - r.0 < sectorSize
    ensures r.1 % sectorSize == 0
    ensures end + sectorSize - 1 < Word32 ==> end <= r.1 && r.1 - end < sectorSize
  {
    var e := end + sectorSize - 1;
    // the sum wraps in 32 bits before the division
    (RoundDown(start, sectorSize), RoundDown(if e < Word32 then e else e % Word32, sectorSize))
  }

  /** The rounded area of a range that does not reach the last sector below 2^32 is the smallest block-aligned area holding it. */
  lemma EraseAreaSmallest(sectorSize: nat, start: u32, end: u32, s: nat, e: nat)
    requires 0 < sectorSize && end + sectorSize - 1 < Word32
    requires s <= start && end <= e && s % sectorSize == 0 && e % sectorSize == 0
    ensures s <= GetEraseArea(sectorSize, start, end).0
    ensures GetEraseArea(sectorSize, start, end).1 <= e
  {
    var (s', e') := GetEraseArea(sectorSize, start, end);
    AlignedBelow(sectorSize, s, s', start);
    AlignedAbove(sectorSize, e, e', end);
  }

  /** The end of the last sector below 2^32 rounds up past 2^32 and wraps to the start of the address space. */
  lemma EraseAreaWraps()
    ensures GetEraseArea(0x1000, 0, Word32 - 1) == (0, 0)
  {
  }

  // ---------------------------------------------------------------------
  // Erase granularity and the erase loop
  // ---------------------------------------------------------------------

  /** The erase commands the erase loop issues: page or sector erase, in steps of chunk over [start, end). */
  datatype ErasePlan = ErasePlan(usePage: bool, chunk: nat, start: nat, end: nat)

  predicate Aligned(x: nat, m: nat)
    requires 0 < m
  {
    x % m == 0
  }

  /**
   * The fallback of `spi_erase_with_progress`: the start moved down by its
   * offset into its sector and the end moved up to the next sector boundary,
   * the end in 32-bit arithmetic.
   */
  function WidenToSectors(sectorSize: u32, start: u32, end: u32): (r: (nat, nat))
    requires 0 < sectorSize
    ensures r.0 == RoundDown(start, sectorSize)
    ensures r.1 == Wrap32(RoundUp(end, sectorSize))
  {
    var startOffset, endOffset := start % sectorSize, end % sectorSize;
    DownIsRoundDown(start, sectorSize);
    if endOffset != 0 then
      NextBoundary(end, sectorSize);
      (start - startOffset, Wrap32(end + (sectorSize - endOffset)))
    else
      AlignedRoundUp(end, sectorSize);
      (start - startOffset, end)
  }

  /**
   * The choice in `spi_erase_with_progress`: sector erase when both ends are
   * sector aligned; otherwise page erase when there is a page erase opcode
   * and both ends are page aligned; otherwise sector erase over the range
   * widened to sector boundaries.
   */
  function ChooseErase(pageSize: nat, sectorSize: u32, pageOpcode: byte, start: u32, end: u32): (r: ErasePlan)
    requires 0 < pageSize && 0 < sectorSize
    ensures r.usePage <==> !(Aligned(start, sectorSize) && Aligned(end, sectorSize))
                           && pageOpcode != 0 && Aligned(start, pageSize) && Aligned(end, pageSize)
    ensures r.chunk == if r.usePage then pageSize else sectorSize
    ensures r.chunk > 0 && Aligned(r.start, r.chunk)
    ensures r.start <= start && start - r.start < r.chunk
    ensures RoundUp(end, sectorSize) < Word32 ==> Aligned(r.end, r.chunk) && end <= r.end && r.end - end < r.chunk
    ensures (Aligned(start, sectorSize) && Aligned(end, sectorSize)) || r.usePage ==> r.start == start && r.end == end
    ensures !r.usePage ==> r.end == end || r.end == Wrap32(RoundUp(end, sectorSize))
  {
    var sectorOk := start % sectorSize == 0 && end % sectorSize == 0;
    var pageOk := pageOpcode != 0 && start % pageSize == 0 && end % pageSize == 0;
    if sectorOk then ErasePlan(false, sectorSize, start, end)
    else if pageOk then ErasePlan(true, pageSize, start, end)
    else
      var (s, e) := WidenToSectors(sectorSize, start, end);
      ErasePlan(false, sectorSize, s, e)
  }

  /** An address at which the erase loop issues a command: a chunk step from start, below end. */
  predicate EraseStepAt(plan: ErasePlan, a: nat)
    requires plan.chunk > 0
  {
    plan.start <= a < plan.end && (a - plan.start) % plan.chunk == 0
  }

  /**
   * The erase loop: one command per chunk from plan.start while the address
   * is below plan.end, stopping at the first command that fails. The flash is
   * erased from plan.start up to `reached`, the failing address or the end.
   */
  method EraseLoop(mem: seq<byte>, plan: ErasePlan, fails: set<nat>) returns (ok: bool, mem': seq<byte>, reached: nat)
    requires plan.chunk > 0 && plan.start % plan.chunk == 0 && plan.end % plan.chunk == 0 && plan.end <= |mem|
    ensures ok <==> forall a :: a in fails ==> !EraseStepAt(plan, a)
    ensures ok ==> reached == if plan.start <= plan.end then plan.end else plan.start
    ensures !ok ==> reached in fails && EraseStepAt(plan, reached)
    ensures !ok ==> forall a :: a in fails && EraseStepAt(plan, a) ==> reached <= a
    ensures plan.end <= plan.start ==> ok && mem' == mem
    ensures plan.start < plan.end ==> plan.start <= reached <= plan.end && mem' == Splice(mem, plan.start, Erased(reached - plan.start))
  {
    if plan.end <= plan.start {
      return true, mem, plan.start;
    }
    var a: nat := plan.start;
    mem' := mem;
    SpliceSame(mem, plan.start, Erased(0));
    while a < plan.end
      invariant plan.start <= a <= plan.end && a % plan.chunk == 0
      invariant (a - plan.start) % plan.chunk == 0
      invariant forall b :: b in fails && EraseStepAt(plan, b) ==> a <= b
      invariant mem' == Splice(mem, plan.start, Erased(a - plan.start))
    {
      if a in fails {
        return false, mem', a;
      }
      StepInside(plan.chunk, a, plan.end);
      EraseExtend(mem, plan.start, a, plan.chunk);
      mem' := Splice(mem', a, Erased(plan.chunk));
      NextStep(plan, fails, a);
      AddAligned(a, plan.chunk);
      AddAligned(a - plan.start, plan.chunk);
      a := a + plan.chunk;
    }
    return true, mem', a;
  }

  /** No command address lies strictly between two consecutive steps. */
  lemma NextStep(plan: ErasePlan, fails: set<nat>, a: nat)
    requires plan.chunk > 0 && plan.start <= a && (a - plan.start) % plan.chunk == 0
    requires forall b :: b in fails && EraseStepAt(plan, b) ==> a <= b
    requires a !in fails
    ensures forall b :: b in fails && EraseStepAt(plan, b) ==> a + plan.chunk <= b
  {
    forall b | b in fails && EraseStepAt(plan, b)
      ensures a + plan.chunk <= b
    {
      if b != a {
        MultiplesApart(plan.chunk, b - plan.start, a - plan.start);
      }
    }
  }

  /** `spi_erase`: the granularity choice followed by the erase loop. */
  method Erase(mem: seq<byte>, pageSize: nat, sectorSize: u32, pageOpcode: byte, start: u32, end: u32, fails: set<nat>)
    returns (ok: bool, mem': seq<byte>)
    requires 0 < pageSize && 0 < sectorSize && |mem| % sectorSize == 0 && end <= |mem| < Word32
    ensures var plan := ChooseErase(pageSize, sectorSize, pageOpcode, start, end);
      ok <==> forall a :: a in fails ==> !EraseStepAt(plan, a)
    ensures ok && start < end ==> var plan := ChooseErase(pageSize, sectorSize, pageOpcode, start, end);
      plan.start < plan.end <= |mem| && mem' == Splice(mem, plan.start, Erased(plan.end - plan.start))
  {
    var plan := ChooseErase(pageSize, sectorSize, pageOpcode, start, end);
    var up := RoundUp(end, sectorSize);
    AlignedAbove(sectorSize, |mem|, up, end);
    assert plan.end <= |mem| by {
      assert plan.end == end || plan.end == Wrap32(up);
    }
    var reached;
    ok, mem', reached := EraseLoop(mem, plan, fails);
  }

  // ---------------------------------------------------------------------
  // Writing
  // ---------------------------------------------------------------------

  /** The flash after programming data at start as far as done: bytes in [start, done) hold the AND of their old value and the data. */
  function Programmed(mem: seq<byte>, start: nat, data: seq<byte>, done: nat): (r: seq<byte>)
    requires start <= done <= start + |data| <= |mem|
    ensures |r| == |mem|
  {
    seq(|mem|, i requires 0 <= i < |mem| => if start <= i < done then mem[i] & data[i - start] else mem[i])
  }

  lemma ProgrammedAt(mem: seq<byte>, start: nat, data: seq<byte>, done: nat, i: nat)
    requires start <= done <= start + |data| <= |mem| && i < |mem|
    ensures Programmed(mem, start, data, done)[i] == if start <= i < done then mem[i] & data[i - start] else mem[i]
  {
  }

  /** Nothing programmed yet is the flash unchanged. */
  lemma ProgrammedNothing(mem: seq<byte>, start: nat, data: seq<byte>)
    requires start + |data| <= |mem|
    ensures Programmed(mem, start, data, start) == mem
  {
  }

  /**
   * A page program: the page's cells become the AND of their contents and
   * the buffer. Programming only clears bits, never more than the buffer
   * asks for; an erased cell takes the buffer's byte; cells outside the page
   * are untouched.
   */
  function ProgramPage(cur: seq<byte>, at: nat, buf: seq<byte>): (r: seq<byte>)
    requires at + |buf| <= |cur|
    ensures |r| == |cur|
    ensures forall i :: 0 <= i < |cur| ==> r[i] & cur[i] == r[i]
    ensures forall i :: at <= i < at + |buf| ==> r[i] & buf[i - at] == r[i]
    ensures forall i :: at <= i < at + |buf| && cur[i] == 0xff ==> r[i] == buf[i - at]
    ensures forall i :: 0 <= i < |cur| && !(at <= i < at + |buf|) ==> r[i] == cur[i]
  {
    seq(|cur|, i requires 0 <= i < |cur| => if at <= i < at + |buf| then cur[i] & buf[i - at] else cur[i])
  }

  /**
   * The page a write should send: the data over [start, start + |data|), the
   * current contents elsewhere. When the data fits the flash this is the
   * page at `at` of the flash image with the data written over it.
   */
  function Overlay(cur: seq<byte>, start: nat, data: seq<byte>, at: nat, size: nat): (r: seq<byte>)
    requires at + size <= |cur|
    ensures |r| == size
    ensures start + |data| <= |cur| ==> r == (cur[..start] + data + cur[start + |data|..])[at..at + size]
  {
    var r := seq(size, i requires 0 <= i < size => if start <= at + i < start + |data| then data[at + i - start] else cur[at + i]);
    if start + |data| <= |cur| then
      ImageBytes(cur, start, data);
      r
    else r
  }

  /** The flash image with the data written at start, byte by byte. */
  lemma ImageBytes(cur: seq<byte>, start: nat, data: seq<byte>)
    requires start + |data| <= |cur|
    ensures var img := cur[..start] + data + cur[start + |data|..];
      |img| == |cur| &&
      forall a :: 0 <= a < |cur| ==> img[a] == if start <= a < start + |data| then data[a - start] else cur[a]
  {
  }

  function Min(x: nat, y: nat): nat
  {
    if x <= y then x else y
  }

  /**
   * Programming the overlay page at `at` extends the programmed range to the
   * end of the page or of the data, provided nothing of the page beyond the
   * programmed range was programmed before (c is the start or the page start).
   */
  lemma ProgramStep(mem: seq<byte>, start: nat, data: seq<byte>, c: nat, at: nat, size: nat)
    requires start <= c <= start + |data| <= |mem| && at + size <= |mem|
    requires at <= c < at + size && (c == start || c == at)
    ensures var cur := Programmed(mem, start, data, c);
      ProgramPage(cur, at, Overlay(cur, start, data, at, size)) == Programmed(mem, start, data, Min(start + |data|, at + size))
  {
    var cur := Programmed(mem, start, data, c);
    var lhs := ProgramPage(cur, at, Overlay(cur, start, data, at, size));
    var rhs := Programmed(mem, start, data, Min(start + |data|, at + size));
    forall i | 0 <= i < |mem|
      ensures lhs[i] == rhs[i]
    {
      ProgramStepAt(mem, start, data, c, at, size, i);
    }
  }

  lemma ProgramStepAt(mem: seq<byte>, start: nat, data: seq<byte>, c: nat, at: nat, size: nat, i: nat)
    requires start <= c <= start + |data| <= |mem| && at + size <= |mem|
    requires at <= c < at + size && (c == start || c == at) && i < |mem|
    ensures var cur := Programmed(mem, start, data, c);
      ProgramPage(cur, at, Overlay(cur, start, data, at, size))[i] == Programmed(mem, start, data, Min(start + |data|, at + size))[i]
  {
    var cur := Programmed(mem, start, data, c);
    var buf := Overlay(cur, start, data, at, size);
    var done := Min(start + |data|, at + size);
    if at <= i < at + size {
      assert i >= c || i < start;
      if start <= i < start + |data| {
        assert buf[i - at] == data[i - start];
        assert cur[i] == mem[i];
      } else {
        assert buf[i - at] == cur[i];
        assert cur[i] == mem[i];
      }
    } else {
      assert (start <= i < c) == (start <= i < done);
    }
  }

  /** The head page: the page holding start read back, with the first data bytes copied in at the offset. */
  function HeadBuffer(cur: seq<byte>, pageStart: nat, offset: nat, data: seq<byte>, seg: nat, size: nat): (r: seq<byte>)
    requires offset + seg <= size && pageStart + size <= |cur| && seg <= |data|
  {
    var page := cur[pageStart..pageStart + size];
    page[..offset] + data[..seg] + page[offset + seg..]
  }

  lemma HeadIsOverlay(cur: seq<byte>, start: nat, data: seq<byte>, pageStart: nat, size: nat)
    requires pageStart <= start < pageStart + size && pageStart + size <= |cur| && start + |data| <= |cur|
    ensures var seg := Min(|data|, size - (start - pageStart));
      HeadBuffer(cur, pageStart, start - pageStart, data, seg, size) == Overlay(cur, start, data, pageStart, size)
  {
  }

  /** A whole page is sent straight from the data. */
  lemma FullIsOverlay(cur: seq<byte>, start: nat, data: seq<byte>, c: nat, size: nat)
    requires start <= c && c + size <= start + |data| <= |cur|
    ensures data[c - start..c - start + size] == Overlay(cur, start, data, c, size)
  {
  }

  /** The tail page: the last data bytes followed by the rest of the page read back. */
  function TailBuffer(cur: seq<byte>, start: nat, data: seq<byte>, c: nat, size: nat): (r: seq<byte>)
    requires start <= c <= start + |data| <= c + size <= |cur|
  {
    data[c - start..] + cur[start + |data|..c + size]
  }

  lemma TailIsOverlay(cur: seq<byte>, start: nat, data: seq<byte>, c: nat, size: nat)
    requires start <= c <= start + |data| <= c + size <= |cur|
    ensures TailBuffer(cur, start, data, c, size) == Overlay(cur, start, data, c, size)
  {
  }

  /**
   * A page address the write programs: every page meeting [start, end), and
   * the page holding start even when nothing is to be written, because the
   * unaligned head page is written back whatever its length.
   */
  predicate WritesPage(pageSize: nat, start: nat, end: nat, a: nat)
    requires 0 < pageSize
  {
    a % pageSize == 0 && RoundDown(start, pageSize) <= a &&
    (a < end || (a == RoundDown(start, pageSize) && start % pageSize != 0))
  }

  /** No page write below c fails. */
  predicate CleanBelow(pageSize: nat, start: nat, end: nat, fails: set<nat>, c: nat)
    requires 0 < pageSize
  {
    forall a :: a in fails && WritesPage(pageSize, start, end, a) ==> c <= a
  }

  /** The state of a write between segments: programmed as far as c, no page write below c failed. */
  predicate WriteProgress(mem: seq<byte>, pageSize: nat, start: nat, data: seq<byte>, fails: set<nat>, cur: seq<byte>, c: nat)
    requires 0 < pageSize
  {
    start <= c <= start + |data| <= |mem| && cur == Programmed(mem, start, data, c) &&
    CleanBelow(pageSize, start, start + |data|, fails, c)
  }

  /** The unaligned head: read the page holding start, copy in the first bytes and write it back. */
  method WriteHead(mem: seq<byte>, pageSize: nat, start: nat, data: seq<byte>, fails: set<nat>)
    returns (ok: bool, cur: seq<byte>, c: nat)
    requires 0 < pageSize && |mem| % pageSize == 0 && start + |data| <= |mem| && start % pageSize != 0
    ensures start <= c <= start + |data| && cur == Programmed(mem, start, data, c)
    ensures ok ==> CleanBelow(pageSize, start, start + |data|, fails, c)
    ensures ok ==> c == start + |data| || c % pageSize == 0
    ensures ok ==> c <= RoundDown(start, pageSize) + pageSize
    ensures !ok ==> c == start && RoundDown(start, pageSize) in fails
  {
    var end := start + |data|;
    var offset := start % pageSize;
    var pageStart := start - offset;
    DownIsRoundDown(start, pageSize);
    StepInside(pageSize, pageStart, |mem|);
    ProgrammedNothing(mem, start, data);
    if pageStart in fails {
      return false, mem, start;
    }
    var seg := Min(end - start, pageSize - offset);
    HeadStep(mem, start, data, pageStart, pageSize);
    cur := ProgramPage(mem, pageStart, HeadBuffer(mem, pageStart, offset, data, seg, pageSize));
    c := start + seg;
    HeadClean(pageSize, start, end, fails, c);
    AddAligned(pageStart, pageSize);
    return true, cur, c;
  }

  /** Writing the head page programs the data up to the end of the page or of the data. */
  lemma HeadStep(mem: seq<byte>, start: nat, data: seq<byte>, pageStart: nat, size: nat)
    requires pageStart <= start < pageStart + size <= |mem| && start + |data| <= |mem|
    ensures var seg := Min(|data|, size - (start - pageStart));
      ProgramPage(mem, pageStart, HeadBuffer(mem, pageStart, start - pageStart, data, seg, size))
        == Programmed(mem, start, data, start + seg)
  {
    var seg := Min(|data|, size - (start - pageStart));
    HeadIsOverlay(mem, start, data, pageStart, size);
    ProgrammedNothing(mem, start, data);
    ProgramStep(mem, start, data, start, pageStart, size);
    assert Min(start + |data|, pageStart + size) == start + seg;
  }

  /** After the head page only pages from the next page boundary remain. */
  lemma HeadClean(pageSize: nat, start: nat, end: nat, fails: set<nat>, c: nat)
    requires 0 < pageSize && c <= RoundDown(start, pageSize) + pageSize && RoundDown(start, pageSize) !in fails
    ensures CleanBelow(pageSize, start, end, fails, c)
  {
    forall a | a in fails && WritesPage(pageSize, start, end, a)
      ensures c <= a
    {
      MultiplesApart(pageSize, a, RoundDown(start, pageSize));
    }
  }

  /** A whole page from c is sent straight from the data and extends the programmed range by a page. */
  lemma FullStep(mem: seq<byte>, start: nat, data: seq<byte>, c: nat, size: nat)
    requires 0 < size && start <= c && c + size <= start + |data| <= |mem|
    ensures ProgramPage(Programmed(mem, start, data, c), c, data[c - start..c - start + size])
         == Programmed(mem, start, data, c + size)
  {
    FullIsOverlay(Programmed(mem, start, data, c), start, data, c, size);
    ProgramStep(mem, start, data, c, c, size);
  }

  /** A page that was written without failure moves the clean bound one page on. */
  lemma NextClean(pageSize: nat, start: nat, end: nat, fails: set<nat>, c: nat)
    requires 0 < pageSize && c % pageSize == 0 && c !in fails
    requires CleanBelow(pageSize, start, end, fails, c)
    ensures CleanBelow(pageSize, start, end, fails, c + pageSize)
  {
    forall a | a in fails && WritesPage(pageSize, start, end, a)
      ensures c + pageSize <= a
    {
      MultiplesApart(pageSize, a, c);
    }
  }

  /** The whole pages: one page write per page while a whole page remains before the end. */
  method WriteFullPages(mem: seq<byte>, pageSize: nat, start: nat, data: seq<byte>, fails: set<nat>, cur: seq<byte>, c: nat)
    returns (ok: bool, cur': seq<byte>, c': nat)
    requires 0 < pageSize && c % pageSize == 0 && WriteProgress(mem, pageSize, start, data, fails, cur, c)
    ensures c' % pageSize == 0 && c <= c' && WriteProgress(mem, pageSize, start, data, fails, cur', c')
    ensures ok ==> start + |data| <= c' + pageSize
    ensures !ok ==> c' in fails && c' < start + |data|
  {
    cur', c' := cur, c;
    while c' + pageSize < start + |data|
      invariant c' % pageSize == 0 && c <= c' && WriteProgress(mem, pageSize, start, data, fails, cur', c')
    {
      if c' in fails {
        return false, cur', c';
      }
      FullStep(mem, start, data, c', pageSize);
      cur' := ProgramPage(cur', c', data[c' - start..c' - start + pageSize]);
      NextClean(pageSize, start, start + |data|, fails, c');
      AddAligned(c', pageSize);
      c' := c' + pageSize;
    }
    return true, cur', c';
  }

  /** The last, partial or whole, page: the data followed by the rest of the page read back. */
  lemma TailStep(mem: seq<byte>, start: nat, data: seq<byte>, c: nat, size: nat)
    requires start <= c < start + |data| <= c + size <= |mem|
    ensures var cur := Programmed(mem, start, data, c);
      ProgramPage(cur, c, TailBuffer(cur, start, data, c, size)) == Programmed(mem, start, data, start + |data|)
  {
    var cur := Programmed(mem, start, data, c);
    TailIsOverlay(cur, start, data, c, size);
    ProgramStep(mem, start, data, c, c, size);
  }

  /** Once every page below c is clean and c is the last page or the end, no page write fails. */
  lemma AllClean(pageSize: nat, start: nat, end: nat, fails: set<nat>, c: nat)
    requires 0 < pageSize && start <= c <= end && (c % pageSize == 0 || c == end)
    requires CleanBelow(pageSize, start, end, fails, c)
    requires c < end ==> c % pageSize == 0 && c !in fails && end <= c + pageSize
    ensures forall a :: a in fails ==> !WritesPage(pageSize, start, end, a)
  {
    forall a | a in fails && WritesPage(pageSize, start, end, a)
      ensures false
    {
      if c < end && a != c {
        MultiplesApart(pageSize, a, c);
      }
    }
  }

  /** The tail: when bytes remain, the page at c holding them. */
  method WriteTail(mem: seq<byte>, pageSize: nat, start: nat, data: seq<byte>, fails: set<nat>, cur: seq<byte>, c: nat)
    returns (ok: bool, cur': seq<byte>, done: nat)
    requires 0 < pageSize && |mem| % pageSize == 0 && (c % pageSize == 0 || c == start + |data|)
    requires WriteProgress(mem, pageSize, start, data, fails, cur, c) && start + |data| <= c + pageSize
    ensures start <= done <= start + |data| && cur' == Programmed(mem, start, data, done)
    ensures ok <==> forall a :: a in fails ==> !WritesPage(pageSize, start, start + |data|, a)
    ensures ok ==> done == start + |data|
    ensures !ok ==> done == c && c % pageSize == 0 && c in fails && WritesPage(pageSize, start, start + |data|, c)
                    && CleanBelow(pageSize, start, start + |data|, fails, c)
  {
    var end := start + |data|;
    if c < end {
      if c in fails {
        assert WritesPage(pageSize, start, end, c);
        return false, cur, c;
      }
      StepInside(pageSize, c, |mem|);
      TailStep(mem, start, data, c, pageSize);
      cur' := ProgramPage(cur, c, TailBuffer(cur, start, data, c, pageSize));
      assert cur' == Programmed(mem, start, data, end);
      AllClean(pageSize, start, end, fails, c);
      return true, cur', end;
    }
    AllClean(pageSize, start, end, fails, c);
    return true, cur, c;
  }

  /**
   * `spi_write_with_progress`: refused when a page does not fit the buffer;
   * otherwise the unaligned head page, the whole pages and the tail page, in
   * order, stopping at the first page write that fails. The flash ends
   * programmed from start up to `done`.
   */
  method Write(mem: seq<byte>, pageSize: nat, start: nat, data: seq<byte>, fails: set<nat>)
    returns (ok: bool, mem': seq<byte>, done: nat)
    requires 0 < pageSize && |mem| % pageSize == 0 && start + |data| <= |mem| < Word32
    ensures start <= done <= start + |data| && mem' == Programmed(mem, start, data, done)
    ensures ok <==> pageSize <= BufferSize && forall a :: a in fails ==> !WritesPage(pageSize, start, start + |data|, a)
    ensures ok ==> done == start + |data|
    ensures !ok && pageSize <= BufferSize ==> var a := RoundDown(done, pageSize);
      a in fails && WritesPage(pageSize, start, start + |data|, a) && CleanBelow(pageSize, start, start + |data|, fails, a)
  {
    var end := start + |data|;
    ProgrammedNothing(mem, start, data);
    if pageSize > BufferSize {
      return false, mem, start;
    }
    var cur, c := mem, start;
    if start % pageSize != 0 {
      var headOk;
      headOk, cur, c := WriteHead(mem, pageSize, start, data, fails);
      if !headOk {
        return false, cur, c;
      }
    } else {
      AlignedRoundDown(start, pageSize);
    }
    if c < end {
      var fullOk;
      fullOk, cur, c := WriteFullPages(mem, pageSize, start, data, fails, cur, c);
      if !fullOk {
        AlignedRoundDown(c, pageSize);
        return false, cur, c;
      }
    }
    ok, mem', done := WriteTail(mem, pageSize, start, data, fails, cur, c);
    if !ok {
      AlignedRoundDown(done, pageSize);
    }
  }

  // ---------------------------------------------------------------------
  // Verify and the erased check
  // ---------------------------------------------------------------------

  /** No read of a buffer-sized segment of [start, end) fails; segments start every BufferSize bytes from start. */
  predicate ReadsOk(start: nat, end: nat, readFails: set<nat>)
  {
    forall a :: a in readFails && start <= a < end ==> (a - start) % BufferSize != 0
  }

  /** The flash from start holds the data up to c. */
  predicate MatchesUpTo(mem: seq<byte>, start: nat, data: seq<byte>, c: nat)
    requires start <= c <= start + |data| <= |mem|
  {
    forall k :: start <= k < c ==> mem[k] == data[k - start]
  }

  /** Reading the segment at c succeeded, so every segment start below c + seg has been read. */
  lemma NextReadsOk(start: nat, c: nat, seg: nat, readFails: set<nat>)
    requires start <= c && (c - start) % BufferSize == 0 && seg <= BufferSize && c !in readFails
    requires ReadsOk(start, c, readFails)
    ensures ReadsOk(start, c + seg, readFails)
  {
    forall a | a in readFails && c <= a < c + seg && (a - start) % BufferSize == 0
      ensures false
    {
      MultiplesApart(BufferSize, a - start, c - start);
    }
  }

  /** The next segment: the rest of the range, at most a buffer full. */
  function Segment(c: nat, end: nat): (seg: nat)
    requires c < end
    ensures 0 < seg <= BufferSize && c + seg <= end
    ensures seg < BufferSize ==> c + seg == end
  {
    if end - c > BufferSize then BufferSize else end - c
  }

  /**
   * `spi_verify_with_progress`: the range is read a buffer at a time and
   * compared byte by byte; the first failing read or differing byte ends it
   * with an error.
   */
  method Verify(mem: seq<byte>, start: nat, data: seq<byte>, readFails: set<nat>) returns (ok: bool)
    requires start + |data| <= |mem| < Word32
    ensures ok <==> mem[start..start + |data|] == data && ReadsOk(start, start + |data|, readFails)
  {
    var end := start + |data|;
    var c := start;
    while c < end
      invariant start <= c <= end && (c == end || (c - start) % BufferSize == 0)
      invariant MatchesUpTo(mem, start, data, c) && ReadsOk(start, c, readFails)
    {
      var seg := Segment(c, end);
      if c in readFails {
        return false;
      }
      var j := 0;
      while j < seg
        invariant 0 <= j <= seg && MatchesUpTo(mem, start, data, c + j)
      {
        if mem[c + j] != data[c + j - start] {
          assert mem[start..end][c + j - start] != data[c + j - start];
          return false;
        }
        j := j + 1;
      }
      NextReadsOk(start, c, seg, readFails);
      if seg == BufferSize {
        AddAligned(c - start, BufferSize);
      }
      c := c + seg;
    }
    assert mem[start..end] == data by {
      assert forall k :: 0 <= k < |data| ==> mem[start..end][k] == mem[start + k];
    }
    return true;
  }

  /** Every byte of [start, end) reads 0xff. */
  predicate ErasedBetween(mem: seq<byte>, start: nat, end: nat)
    requires end <= |mem|
  {
    forall k :: start <= k < end ==> mem[k] == 0xff
  }

  /**
   * `spi_isErased`: the AND of the bytes read so far, a buffer at a time,
   * stopping at the first byte that is not 0xff; None when a read fails.
   * An empty or reversed range reads as erased.
   */
  method IsErased(mem: seq<byte>, start: nat, end: nat, readFails: set<nat>) returns (r: Option<byte>)
    requires end <= |mem| < Word32
    ensures r == Some(0xff) <==> ErasedBetween(mem, start, end) && ReadsOk(start, end, readFails)
    ensures r.Some? && r.value != 0xff ==> !ErasedBetween(mem, start, end)
    ensures ReadsOk(start, end, readFails) ==> r.Some?
  {
    if end <= start {
      return Some(0xff);
    }
    var c := start;
    while c < end
      invariant start <= c <= end && (c == end || (c - start) % BufferSize == 0)
      invariant ErasedBetween(mem, start, c) && ReadsOk(start, c, readFails)
    {
      var seg := Segment(c, end);
      if c in readFails {
        return None;
      }
      var erased := ScanSegment(mem, c, seg);
      if erased != 0xff {
        return Some(erased);
      }
      NextReadsOk(start, c, seg, readFails);
      if seg == BufferSize {
        AddAligned(c - start, BufferSize);
      }
      c := c + seg;
    }
    return Some(0xff);
  }

  /** The inner loop of `spi_isErased`: AND the bytes of one segment until the result is no longer 0xff. */
  method ScanSegment(mem: seq<byte>, c: nat, seg: nat) returns (erased: byte)
    requires c + seg <= |mem|
    ensures erased == 0xff <==> ErasedBetween(mem, c, c + seg)
  {
    erased := 0xff;
    var j := 0;
    while j < seg
      invariant 0 <= j <= seg && ErasedBetween(mem, c, c + j) && erased == 0xff
    {
      erased := erased & mem[c + j];
      if erased != 0xff {
        assert mem[c + j] != 0xff;
        return erased;
      }
      j := j + 1;
    }
  }

  /**
   * `spi_flash`: the write followed, when it succeeded, by the verify of the
   * same range.
   */
  method Flash(mem: seq<byte>, pageSize: nat, start: nat, data: seq<byte>, fails: set<nat>, readFails: set<nat>)
    returns (ok: bool, mem': seq<byte>)
    requires 0 < pageSize && |mem| % pageSize == 0 && start + |data| <= |mem| < Word32
    ensures ok ==> mem' == Programmed(mem, start, data, start + |data|) && mem'[start..start + |data|] == data
    ensures ErasedBetween(mem, start, start + |data|) && pageSize <= BufferSize && fails == {} && ReadsOk(start, start + |data|, readFails)
            ==> ok && mem' == Splice(mem, start, data)
  {
    var done;
    ok, mem', done := Write(mem, pageSize, start, data, fails);
    if ok {
      ok := Verify(mem', start, data, readFails);
      if ErasedBetween(mem, start, start + |data|) {
        ProgramOntoErased(mem, start, data);
      }
    }
  }

  /** Programming an erased range leaves the data there and nothing else changed. */
  lemma ProgramOntoErased(mem: seq<byte>, start: nat, data: seq<byte>)
    requires start + |data| <= |mem| && ErasedBetween(mem, start, start + |data|)
    ensures Programmed(mem, start, data, start + |data|) == Splice(mem, start, data)
    ensures Programmed(mem, start, data, start + |data|)[start..start + |data|] == data
  {
    var p := Programmed(mem, start, data, start + |data|);
    assert p == Splice(mem, start, data);
    assert forall k :: 0 <= k < |data| ==> p[start..start + |data|][k] == data[k];
  }

  // ---------------------------------------------------------------------
  // Smart erase
  // ---------------------------------------------------------------------

  /** The shift amount t as a 32-bit word. */
  function Shift(t: nat): (r: bv32)
    requires t < BitsPerEntry
    ensures r as int == t
  {
    if t == 0 then 0 else Shift(t - 1) + 1
  }

  /** Bit t of w, as 0 or 1. */
  function Bit(w: bv32, t: bv32): (b: bv32)
    requires t < 32
    ensures b <= 1
  {
    (w >> t) & 1
  }

  /** w with bit a set for a value of at least 1 and cleared otherwise. */
  function Written(w: bv32, value: nat, a: bv32): bv32
    requires a < 32
  {
    if value >= 1 then w | (1 << a) else w & !(1 << a)
  }

  lemma SetBit(w: bv32, s: bv32, t: bv32)
    requires s < 32 && t < 32
    ensures Bit(w | (1 << s), t) == if s == t then 1 else Bit(w, t)
  {
  }

  lemma ClearBit(w: bv32, s: bv32, t: bv32)
    requires s < 32 && t < 32
    ensures Bit(w & !(1 << s), t) == if s == t then 0 else Bit(w, t)
  {
  }

  /** Writing bit a changes bit a only. */
  lemma WrittenBit(w: bv32, value: nat, a: bv32, b: bv32)
    requires a < 32 && b < 32
    ensures Bit(Written(w, value, a), b) == if a == b then (if value >= 1 then 1 else 0) else Bit(w, b)
  {
    if value >= 1 {
      WrittenSet(w, value, a, b);
    } else {
      WrittenClear(w, value, a, b);
    }
  }

  /** Setting bit a: bit a reads 1, the others are unchanged. */
  lemma WrittenSet(w: bv32, value: nat, a: bv32, b: bv32)
    requires a < 32 && b < 32 && value >= 1
    ensures Bit(Written(w, value, a), b) == if a == b then 1 else Bit(w, b)
  {
    assert Written(w, value, a) == w | (1 << a);
    SetBit(w, a, b);
  }

  /** Clearing bit a: bit a reads 0, the others are unchanged. */
  lemma WrittenClear(w: bv32, value: nat, a: bv32, b: bv32)
    requires a < 32 && b < 32 && value < 1
    ensures Bit(Written(w, value, a), b) == if a == b then 0 else Bit(w, b)
  {
    assert Written(w, value, a) == w & !(1 << a);
    ClearBit(w, a, b);
  }

  /** The same, for shifts given as numbers. */
  lemma WrittenBitAt(w: bv32, value: nat, s: nat, t: nat)
    requires s < BitsPerEntry && t < BitsPerEntry
    ensures Bit(Written(w, value, Shift(s)), Shift(t))
         == if s == t then (if value >= 1 then 1 else 0) else Bit(w, Shift(t))
  {
    WrittenBit(w, value, Shift(s), Shift(t));
  }

  /** The number of bits the bitmap holds. */
  const BitmapBits := BitmapEntries * BitsPerEntry

  /** The bitmap of a window: one bit per sector, set while the sector holds data. */
  predicate IsBitmap(bitmap: seq<bv32>)
  {
    |bitmap| == BitmapEntries
  }

  /** `bitmapReadBit`: bit pos of the bitmap, counting from bit 0 of word 0. */
  function ReadBit(bitmap: seq<bv32>, pos: nat): (b: nat)
    requires IsBitmap(bitmap) && pos < BitmapBits
    ensures b <= 1
  {
    if Bit(bitmap[pos / BitsPerEntry], Shift(pos % BitsPerEntry)) == 0 then 0 else 1
  }

  /** Different positions in the same word differ in their shift. */
  lemma SameWord(p: nat, q: nat)
    requires p / BitsPerEntry == q / BitsPerEntry && p != q
    ensures p % BitsPerEntry != q % BitsPerEntry
  {
    assert p == p / BitsPerEntry * BitsPerEntry + p % BitsPerEntry;
    assert q == q / BitsPerEntry * BitsPerEntry + q % BitsPerEntry;
  }

  /** Replacing one word changes only the reads of that word's positions. */
  lemma UpdateRead(bitmap: seq<bv32>, e: nat, w: bv32, q: nat)
    requires IsBitmap(bitmap) && e < BitmapEntries && q < BitmapBits
    ensures ReadBit(bitmap[e := w], q)
         == if q / BitsPerEntry == e then (if Bit(w, Shift(q % BitsPerEntry)) == 0 then 0 else 1)
            else ReadBit(bitmap, q)
  {
  }

  /** The bitmap with the bit at pos written, read at q. */
  lemma WordRead(bitmap: seq<bv32>, value: nat, pos: nat, q: nat)
    requires IsBitmap(bitmap) && pos < BitmapBits && q < BitmapBits
    ensures var e := pos / BitsPerEntry;
      ReadBit(bitmap[e := Written(bitmap[e], value, Shift(pos % BitsPerEntry))], q)
      == if q == pos then (if value >= 1 then 1 else 0) else ReadBit(bitmap, q)
  {
    var e := pos / BitsPerEntry;
    UpdateRead(bitmap, e, Written(bitmap[e], value, Shift(pos % BitsPerEntry)), q);
    if q / BitsPerEntry == e {
      if q != pos {
        SameWord(pos, q);
      }
      WrittenBitAt(bitmap[e], value, pos % BitsPerEntry, q % BitsPerEntry);
    }
  }

  /** `bitmapWriteBit`: bit pos set for a value of at least 1, cleared otherwise; no other bit changes. */
  function WriteBit(bitmap: seq<bv32>, value: nat, pos: nat): (r: seq<bv32>)
    requires IsBitmap(bitmap) && pos < BitmapBits
    ensures IsBitmap(r)
    ensures ReadBit(r, pos) == if value >= 1 then 1 else 0
    ensures forall q :: 0 <= q < BitmapBits && q != pos ==> ReadBit(r, q) == ReadBit(bitmap, q)
  {
    var e := pos / BitsPerEntry;
    forall q | 0 <= q < BitmapBits {
      WordRead(bitmap, value, pos, q);
    }
    bitmap[e := Written(bitmap[e], value, Shift(pos % BitsPerEntry))]
  }

  /** `sectorIsEmpty`: the AND of all bytes of the sector is 0xff. */
  function SectorIsEmpty(sector: seq<byte>): (r: bool)
    ensures r <==> AllErased(sector)
  {
    AndAllErased(sector);
    AndAll(sector) == 0xff
  }

  /** An erase instruction of the device: its opcode and the bytes it erases. */
  datatype EraseOp = EraseOp(opcode: byte, size: u32)

  /** The sector size smart erase reads with: page size times pages per sector in 32 bits, capped at the buffer. */
  function SmartSectorSize(pageSize: u32, sectorPages: u32): (r: nat)
    ensures r <= BufferSize
    ensures r == 0 <==> (pageSize * sectorPages) % Word32 == 0
  {
    Min((pageSize * sectorPages) % Word32, BufferSize)
  }

  /** The bitmap words a window of n sectors needs: one bit per sector, plus a word for the rounding. */
  function BitmapWords(n: nat): nat
  {
    n / BitsPerEntry + 1
  }

  /** The window of instruction op, counted in sectors, fits the bitmap. */
  predicate FitsBitmap(op: EraseOp, sectorSize: nat)
    requires 0 < sectorSize
  {
    BitmapWords(Div(op.size, sectorSize)) <= BitmapEntries
  }

  /** The number of instructions left once the largest are dropped while their window does not fit. */
  function KeptOps(ops: seq<EraseOp>, n: nat, sectorSize: nat): (r: nat)
    requires 0 < sectorSize && n <= |ops|
    ensures r <= n
    ensures r > 0 ==> FitsBitmap(ops[r - 1], sectorSize)
    ensures forall k :: r <= k < n ==> !FitsBitmap(ops[k], sectorSize)
  {
    if n == 0 then 0
    else if FitsBitmap(ops[n - 1], sectorSize) then n
    else KeptOps(ops, n - 1, sectorSize)
  }

  /** How smart erase starts: refused, handed to the plain erase, or with a window of sectors. */
  datatype SmartSetup =
    | NoEraseOps
    | NoSectorSize
    | FallBack
    | Window(ops: nat, sectorSize: nat, sectors: nat)

  /** The set-up part of `spi_smart_erase`. */
  function SmartSetupOf(ops: seq<EraseOp>, pageSize: u32, sectorPages: u32): (r: SmartSetup)
    ensures r.NoEraseOps? <==> |ops| == 0
    ensures r.NoSectorSize? <==> |ops| > 0 && SmartSectorSize(pageSize, sectorPages) == 0
    ensures r.FallBack? <==> (|ops| > 0 && 0 < SmartSectorSize(pageSize, sectorPages)
      && forall k :: 0 <= k < |ops| ==> !FitsBitmap(ops[k], SmartSectorSize(pageSize, sectorPages)))
    ensures r.Window? ==>
      && 0 < r.sectorSize <= BufferSize
      && r.sectorSize == SmartSectorSize(pageSize, sectorPages)
      && 0 < r.ops <= |ops|
      && FitsBitmap(ops[r.ops - 1], r.sectorSize)
      && (forall k :: r.ops <= k < |ops| ==> !FitsBitmap(ops[k], r.sectorSize))
      && r.sectors == Div(ops[r.ops - 1].size, r.sectorSize)
      && r.sectors < BitmapBits
  {
    var sectorSize := SmartSectorSize(pageSize, sectorPages);
    if |ops| == 0 then NoEraseOps
    else if sectorSize == 0 then NoSectorSize
    else
      var kept := KeptOps(ops, |ops|, sectorSize);
      if kept == 0 then FallBack
      else Window(kept, sectorSize, Div(ops[kept - 1].size, sectorSize))
  }

  /** The bitmap as one flag per sector: set while the sector holds data. */
  function View(bitmap: seq<bv32>): (dirty: seq<bool>)
    requires IsBitmap(bitmap)
    ensures |dirty| == BitmapBits
    ensures forall q :: 0 <= q < BitmapBits ==> (dirty[q] <==> ReadBit(bitmap, q) == 1)
  {
    seq(BitmapBits, q requires 0 <= q < BitmapBits => ReadBit(bitmap, q) == 1)
  }

  /** Writing a bit of the bitmap updates the one flag of its view. */
  lemma ViewWrite(bitmap: seq<bv32>, value: nat, pos: nat)
    requires IsBitmap(bitmap) && pos < BitmapBits
    ensures View(WriteBit(bitmap, value, pos)) == View(bitmap)[pos := value >= 1]
  {
    var lhs, rhs := View(WriteBit(bitmap, value, pos)), View(bitmap)[pos := value >= 1];
    assert forall q :: 0 <= q < BitmapBits ==> lhs[q] == rhs[q];
  }

  /** The number of empty sectors among the n from lo. */
  function CountEmpty(dirty: seq<bool>, lo: nat, n: nat): (r: nat)
    requires lo + n <= |dirty|
    ensures r <= n
  {
    if n == 0 then 0
    else CountEmpty(dirty, lo, n - 1) + (if dirty[lo + n - 1] then 0 else 1)
  }

  /** No sector of the group is empty exactly when the count is zero, and all are when it is n. */
  lemma {:induction false} CountEmptyBounds(dirty: seq<bool>, lo: nat, n: nat)
    requires lo + n <= |dirty|
    ensures CountEmpty(dirty, lo, n) == 0 <==> forall q :: lo <= q < lo + n ==> dirty[q]
    ensures CountEmpty(dirty, lo, n) == n <==> forall q :: lo <= q < lo + n ==> !dirty[q]
  {
    if n > 0 {
      CountEmptyBounds(dirty, lo, n - 1);
    }
  }

  /** Two maps that agree on a group have the same empty count there. */
  lemma {:induction false} CountEmptySame(a: seq<bool>, b: seq<bool>, lo: nat, n: nat)
    requires lo + n <= |a| && lo + n <= |b|
    requires forall q :: lo <= q < lo + n ==> a[q] == b[q]
    ensures CountEmpty(a, lo, n) == CountEmpty(b, lo, n)
  {
    if n > 0 {
      CountEmptySame(a, b, lo, n - 1);
    }
  }

  /** The map with the n flags from lo cleared, as after erasing that group. */
  function ClearGroup(dirty: seq<bool>, lo: nat, n: nat): (r: seq<bool>)
    requires lo + n <= |dirty|
    ensures |r| == |dirty|
    ensures forall q :: 0 <= q < |dirty| ==> r[q] == (dirty[q] && !(lo <= q < lo + n))
  {
    if n == 0 then dirty else ClearGroup(dirty, lo, n - 1)[lo + n - 1 := false]
  }

  /** The rule of smart erase: erase a group when at most a fifth of its sectors are empty
      and the window is complete, or when none of them is empty. */
  predicate EraseGroup(empty: nat, sectors: nat, partial: bool)
  {
    (10 * empty <= 2 * sectors && !partial) || empty == 0
  }

  /** The first sector of group j of an instruction covering n sectors: j times n. */
  function Offset(j: nat, n: nat): (lo: nat)
  {
    if j == 0 then 0 else Offset(j - 1, n) + n
  }

  /** Later groups start after earlier ones end. */
  lemma {:induction false} GroupsApart(i: nat, j: nat, n: nat)
    requires i < j
    ensures Offset(i, n) + n <= Offset(j, n)
  {
    if i < j - 1 {
      GroupsApart(i, j - 1, n);
    }
  }

  /** The first sector of group j among `groups` groups of n sectors; the group ends within the last. */
  function GroupStart(j: nat, n: nat, groups: nat): (lo: nat)
    requires j < groups
    ensures lo + n <= Offset(groups, n)
  {
    GroupsApart(j, groups, n);
    Offset(j, n)
  }

  /** Offset is the product of group number and group size. */
  lemma {:induction false} OffsetIsProduct(j: nat, n: nat)
    ensures Offset(j, n) == j * n
  {
    if j > 0 {
      OffsetIsProduct(j - 1, n);
    }
  }

  /** The whole groups of size n in a window of `sectors` sectors end inside it. */
  lemma GroupsInside(sectors: nat, n: nat)
    requires 0 < n
    ensures Offset(Div(sectors, n), n) <= sectors
  {
    OffsetIsProduct(Div(sectors, n), n);
    var _ := RoundDown(sectors, n);
  }

  /** The outcome of one instruction over a window: the groups it erased and the flags afterwards. */
  datatype GroupOutcome = GroupOutcome(erased: seq<nat>, dirty: seq<bool>)

  /** The loop over the groups k.. of one instruction covering n sectors per group. */
  function GroupPass(dirty: seq<bool>, n: nat, k: nat, groups: nat, partial: bool): (r: GroupOutcome)
    requires 0 < n && k <= groups && Offset(groups, n) <= |dirty|
    ensures |r.dirty| == |dirty|
    ensures forall j :: j in r.erased ==> k <= j < groups
    decreases groups - k
  {
    if k == groups then GroupOutcome([], dirty)
    else
      var erase := EraseGroup(CountEmpty(dirty, GroupStart(k, n, groups), n), n, partial);
      var rest := GroupPass(AfterGroup(dirty, n, k, groups, partial), n, k + 1, groups, partial);
      GroupOutcome(if erase then [k] + rest.erased else rest.erased, rest.dirty)
  }

  /** The flags after group k's decision. */
  function AfterGroup(dirty: seq<bool>, n: nat, k: nat, groups: nat, partial: bool): (r: seq<bool>)
    requires 0 < n && k < groups && Offset(groups, n) <= |dirty|
    ensures |r| == |dirty|
    ensures forall q :: 0 <= q < |dirty| && r[q] ==> dirty[q]
    ensures forall q :: 0 <= q < |dirty| && !(GroupStart(k, n, groups) <= q < GroupStart(k, n, groups) + n)
                        ==> r[q] == dirty[q]
    ensures EraseGroup(CountEmpty(dirty, GroupStart(k, n, groups), n), n, partial) ==>
      forall q :: GroupStart(k, n, groups) <= q < GroupStart(k, n, groups) + n ==> !r[q]
  {
    var lo := GroupStart(k, n, groups);
    if EraseGroup(CountEmpty(dirty, lo, n), n, partial) then ClearGroup(dirty, lo, n) else dirty
  }

  /** The pass only ever clears flags. */
  lemma {:induction false} GroupPassClears(dirty: seq<bool>, n: nat, k: nat, groups: nat, partial: bool)
    requires 0 < n && k <= groups && Offset(groups, n) <= |dirty|
    ensures forall q :: 0 <= q < |dirty| && GroupPass(dirty, n, k, groups, partial).dirty[q] ==> dirty[q]
    decreases groups - k
  {
    if k < groups {
      GroupPassClears(AfterGroup(dirty, n, k, groups, partial), n, k + 1, groups, partial);
    }
  }

  /** Group k's decision leaves the empty count of every later group as it was. */
  lemma LaterGroupsUnchanged(dirty: seq<bool>, n: nat, k: nat, groups: nat, partial: bool, j: nat)
    requires 0 < n && k < j < groups && Offset(groups, n) <= |dirty|
    ensures CountEmpty(AfterGroup(dirty, n, k, groups, partial), GroupStart(j, n, groups), n)
         == CountEmpty(dirty, GroupStart(j, n, groups), n)
  {
    GroupsApart(k, j, n);
    CountEmptySame(AfterGroup(dirty, n, k, groups, partial), dirty, GroupStart(j, n, groups), n);
  }

  /** The pass erases exactly the groups the rule selects, judged on the flags it started with. */
  lemma {:induction false} GroupPassDecides(dirty: seq<bool>, n: nat, k: nat, groups: nat, partial: bool)
    requires 0 < n && k <= groups && Offset(groups, n) <= |dirty|
    ensures forall j :: k <= j < groups ==>
      (j in GroupPass(dirty, n, k, groups, partial).erased
       <==> EraseGroup(CountEmpty(dirty, GroupStart(j, n, groups), n), n, partial))
    decreases groups - k
  {
    if k < groups {
      var next := AfterGroup(dirty, n, k, groups, partial);
      var rest := GroupPass(next, n, k + 1, groups, partial);
      var r := GroupPass(dirty, n, k, groups, partial);
      GroupPassDecides(next, n, k + 1, groups, partial);
      assert r.erased == if EraseGroup(CountEmpty(dirty, GroupStart(k, n, groups), n), n, partial)
                         then [k] + rest.erased else rest.erased;
      forall j | k <= j < groups
        ensures j in r.erased <==> EraseGroup(CountEmpty(dirty, GroupStart(j, n, groups), n), n, partial)
      {
        if j > k {
          LaterGroupsUnchanged(dirty, n, k, groups, partial, j);
        }
      }
    }
  }

  /** Every group the pass erased is clear afterwards. */
  lemma {:induction false} ErasedGroupsClear(dirty: seq<bool>, n: nat, k: nat, groups: nat, partial: bool)
    requires 0 < n && k <= groups && Offset(groups, n) <= |dirty|
    ensures forall j, q ::
      (j in GroupPass(dirty, n, k, groups, partial).erased && GroupStart(j, n, groups) <= q < GroupStart(j, n, groups) + n)
      ==> !GroupPass(dirty, n, k, groups, partial).dirty[q]
    decreases groups - k
  {
    if k < groups {
      var next := AfterGroup(dirty, n, k, groups, partial);
      var r := GroupPass(dirty, n, k, groups, partial);
      var rest := GroupPass(next, n, k + 1, groups, partial);
      ErasedGroupsClear(next, n, k + 1, groups, partial);
      GroupPassClears(next, n, k + 1, groups, partial);
      forall j, q | j in r.erased && GroupStart(j, n, groups) <= q < GroupStart(j, n, groups) + n
        ensures !r.dirty[q]
      {
        if j == k {
          assert EraseGroup(CountEmpty(dirty, GroupStart(k, n, groups), n), n, partial);
          assert !next[q];
          assert r.dirty == rest.dirty;
        } else {
          assert j in rest.erased;
        }
      }
    }
  }

  /** No group is erased whose sectors were all empty: each erased group held data. */
  lemma ErasedGroupsHeldData(dirty: seq<bool>, n: nat, groups: nat, partial: bool, j: nat)
    requires 0 < n && Offset(groups, n) <= |dirty|
    requires j in GroupPass(dirty, n, 0, groups, partial).erased
    ensures exists q :: GroupStart(j, n, groups) <= q < GroupStart(j, n, groups) + n && dirty[q]
  {
    GroupPassDecides(dirty, n, 0, groups, partial);
    CountEmptyBounds(dirty, GroupStart(j, n, groups), n);
    assert CountEmpty(dirty, GroupStart(j, n, groups), n) < n;
  }

  /** A command smart erase issues: the instruction's opcode and the address of the group. */
  datatype EraseCommand = EraseCommand(opcode: byte, address: nat)

  /** The commands for the erased groups of one instruction, in window order. */
  function Commands(op: EraseOp, erased: seq<nat>, n: nat, sectorSize: nat, base: nat): (r: seq<EraseCommand>)
    ensures |r| == |erased|
    ensures forall c :: 0 <= c < |r| ==> r[c] == EraseCommand(op.opcode, base + Offset(erased[c], n) * sectorSize)
  {
    seq(|erased|, c requires 0 <= c < |erased| => EraseCommand(op.opcode, base + Offset(erased[c], n) * sectorSize))
  }

  /** The instruction's window holds no group at all. */
  predicate NoGroups(op: EraseOp, sectorSize: nat, sectors: nat)
    requires 0 < sectorSize
  {
    Div(op.size, sectorSize) >= 1 && Div(sectors, Div(op.size, sectorSize)) == 0
  }

  /** The outcome of a window: the commands issued and the flags afterwards. */
  datatype WindowOutcome = WindowOutcome(commands: seq<EraseCommand>, dirty: seq<bool>)

  /** The loop over the kept instructions i-1 down to 0 for one window of `sectors` sectors from
      address base; instructions smaller than a sector are skipped, and one with no whole group
      in the window stops the pass with an error. */
  function WindowPass(ops: seq<EraseOp>, i: nat, sectorSize: nat, sectors: nat, dirty: seq<bool>,
                      partial: bool, base: nat): (r: Option<WindowOutcome>)
    requires i <= |ops| && 0 < sectorSize && sectors <= |dirty|
    ensures r.None? <==> exists k :: 0 <= k < i && NoGroups(ops[k], sectorSize, sectors)
    ensures r.Some? ==> |r.value.dirty| == |dirty|
    decreases i
  {
    if i == 0 then Some(WindowOutcome([], dirty))
    else
      var op := ops[i - 1];
      var n := Div(op.size, sectorSize);
      if n < 1 then WindowPass(ops, i - 1, sectorSize, sectors, dirty, partial, base)
      else if Div(sectors, n) == 0 then None
      else
        GroupsInside(sectors, n);
        var g := GroupPass(dirty, n, 0, Div(sectors, n), partial);
        match WindowPass(ops, i - 1, sectorSize, sectors, g.dirty, partial, base)
        case None => None
        case Some(rest) => Some(WindowOutcome(Commands(op, g.erased, n, sectorSize, base) + rest.commands, rest.dirty))
  }

  /** A window pass only ever clears flags. */
  lemma {:induction false} WindowPassClears(ops: seq<EraseOp>, i: nat, sectorSize: nat, sectors: nat,
                                             dirty: seq<bool>, partial: bool, base: nat)
    requires i <= |ops| && 0 < sectorSize && sectors <= |dirty|
    requires WindowPass(ops, i, sectorSize, sectors, dirty, partial, base).Some?
    ensures var r := WindowPass(ops, i, sectorSize, sectors, dirty, partial, base).value;
      |r.dirty| == |dirty| && forall q :: 0 <= q < |dirty| && r.dirty[q] ==> dirty[q]
  {
    if i > 0 {
      var n := Div(ops[i - 1].size, sectorSize);
      if n < 1 {
        WindowPassClears(ops, i - 1, sectorSize, sectors, dirty, partial, base);
      } else {
        GroupsInside(sectors, n);
        var g := GroupPass(dirty, n, 0, Div(sectors, n), partial);
        GroupPassClears(dirty, n, 0, Div(sectors, n), partial);
        WindowPassClears(ops, i - 1, sectorSize, sectors, g.dirty, partial, base);
      }
    }
  }

  /** An instruction of one sector erases every sector of its window that holds data. */
  lemma OneSectorGroups(dirty: seq<bool>, sectors: nat, partial: bool)
    requires sectors <= |dirty| && Offset(sectors, 1) <= |dirty|
    ensures forall q :: 0 <= q < sectors ==> !GroupPass(dirty, 1, 0, sectors, partial).dirty[q]
  {
    var g := GroupPass(dirty, 1, 0, sectors, partial);
    GroupPassDecides(dirty, 1, 0, sectors, partial);
    GroupPassClears(dirty, 1, 0, sectors, partial);
    ErasedGroupsClear(dirty, 1, 0, sectors, partial);
    forall q | 0 <= q < sectors
      ensures !g.dirty[q]
    {
      if dirty[q] {
        OffsetIsProduct(q, 1);
        assert GroupStart(q, 1, sectors) == q;
        CountEmptyBounds(dirty, q, 1);
        assert q in g.erased;
        assert GroupStart(q, 1, sectors) <= q < GroupStart(q, 1, sectors) + 1;
      }
    }
  }

  /** With a one-sector instruction among the kept ones, a window pass leaves no sector holding data. */
  lemma {:induction false} OneSectorClearsWindow(ops: seq<EraseOp>, i: nat, sectorSize: nat, sectors: nat,
                                                  dirty: seq<bool>, partial: bool, base: nat)
    requires i <= |ops| && 0 < sectorSize && sectors <= |dirty|
    requires exists k :: 0 <= k < i && Div(ops[k].size, sectorSize) == 1
    requires WindowPass(ops, i, sectorSize, sectors, dirty, partial, base).Some?
    ensures forall q :: 0 <= q < sectors ==> !WindowPass(ops, i, sectorSize, sectors, dirty, partial, base).value.dirty[q]
  {
    var k :| 0 <= k < i && Div(ops[k].size, sectorSize) == 1;
    var r := WindowPass(ops, i, sectorSize, sectors, dirty, partial, base);
    var n := Div(ops[i - 1].size, sectorSize);
    if n < 1 {
      assert k < i - 1;
      assert r == WindowPass(ops, i - 1, sectorSize, sectors, dirty, partial, base);
      OneSectorClearsWindow(ops, i - 1, sectorSize, sectors, dirty, partial, base);
    } else {
      var groups := Div(sectors, n);
      GroupsInside(sectors, n);
      var g := GroupPass(dirty, n, 0, groups, partial);
      var rest := WindowPass(ops, i - 1, sectorSize, sectors, g.dirty, partial, base);
      assert rest.Some? && r.value.dirty == rest.value.dirty;
      if n == 1 {
        OneSectorGroups(dirty, sectors, partial);
        WindowPassClears(ops, i - 1, sectorSize, sectors, g.dirty, partial, base);
      } else {
        assert k < i - 1;
        OneSectorClearsWindow(ops, i - 1, sectorSize, sectors, g.dirty, partial, base);
      }
    }
  }
}
