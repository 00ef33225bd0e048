/**
 * The internal flash of the netX90 (MAZ V0 controller): request checks,
 * the mapping of areas to controllers, the unit/chip-select table, page
 * programming under the "only clear bits" rule, the head/pages/tail
 * segmentation of a write and the erase rules.
 *
 * The contents of an area are a byte sequence indexed by the offset inside
 * the area, as long as the area's array (`ArraySize`). Controller
 * registers, mode switches, cache flushes and busy waits are abstracted
 * away: programming a page ANDs the new data into the cells, erasing a
 * block sets it to 0xff.
 */
module InternalFlash {
  import opened Wrappers
  import opened Bytes
  import Arith

  const MainArraySize: nat := 0x80000
  const InfoArraySize: nat := 0x2000
  const InfoKArraySize: nat := 0x1000
  const PageSize: nat := 16
  const RowSize: nat := 0x200
  const EraseBlockSize: nat := 0x1000

  /** The flash areas a unit and chip select can name. */
  datatype Area =
    | Unknown
    | Flash0Main | Flash0Info | Flash0InfoK
    | Flash1Main | Flash1Info | Flash1InfoS | Flash1InfoK
    | Flash2Main | Flash2Info | Flash2InfoS | Flash2InfoK
    | Flash01Main

  /** Which array of a bank an area addresses: main array, info page, the InfoK page or the secure InfoS page. */
  datatype PageKind = MainPage | InfoPage | InfoKPage | InfoSPage

  /** The attributes detect stores for an area. */
  datatype Attributes = Attributes(kind: PageKind, size: nat, area: Area)

  datatype FlashType = TypeUnknown | MazV0

  /** A row of the unit/chip-select table. */
  datatype Entry = Entry(unit: nat, chipSelect: nat, attr: Attributes)

  /** The controller serving an offset and the offset of its unit in the memory map. */
  datatype Block = Block(controller: nat, unitOffset: nat)

  datatype Error =
    | BadRange          // start after end, or the range leaves the area
    | NoController      // the offset lies outside the area's array
    | Misaligned        // a page or erase block offset is not aligned
    | SetsBits          // programming would turn a 0 bit into 1
    | Protected         // the info page is read or write protected
    | BadChecksum       // the hash of an info page image does not match
    | InfoSOffset       // an InfoS page is accessed at an offset other than 0
    | InfoSSize         // an InfoS page is accessed with a size other than 4096
    | KekPresent        // erasing the COM InfoS page would erase a programmed KEK

  /** The result of a write or erase: the new contents, or an error with the contents reached so far. */
  datatype Outcome =
    | Done(mem: seq<byte>)
    | Failed(error: Error, mem: seq<byte>)
    | SecurePage          // the InfoS procedure (patching, hashing, writing twice) starts

  // ---------------------------------------------------------------------
  // Areas and controllers
  // ---------------------------------------------------------------------

  /** The bank (flash 0, 1 or 2) an area belongs to; Flash01 starts in bank 0. */
  function Bank(a: Area): nat
  {
    match a
    case Flash1Main | Flash1Info | Flash1InfoS | Flash1InfoK => 1
    case Flash2Main | Flash2Info | Flash2InfoS | Flash2InfoK => 2
    case _ => 0
  }

  predicate IsMainArea(a: Area)
  {
    a == Flash0Main || a == Flash1Main || a == Flash2Main || a == Flash01Main
  }

  predicate IsInfoSArea(a: Area)
  {
    a == Flash1InfoS || a == Flash2InfoS
  }

  /** The size of the array behind an area: offsets below it reach a controller. */
  function ArraySize(a: Area): (n: nat)
    ensures n % PageSize == 0 && n % EraseBlockSize == 0
  {
    match a
    case Unknown => 0
    case Flash0Main | Flash1Main | Flash2Main => MainArraySize
    case Flash0Info | Flash1Info | Flash1InfoS | Flash2Info | Flash2InfoS => InfoArraySize
    case Flash0InfoK | Flash1InfoK | Flash2InfoK => InfoKArraySize
    case Flash01Main => 2 * MainArraySize
  }

  /** The contents of an area span its whole array. */
  predicate Fits(a: Area, mem: seq<byte>)
  {
    |mem| == ArraySize(a)
  }

  /**
   * The controller for an offset of an area. Flash01 covers the main arrays
   * of banks 0 and 1 with unit offset 0, so that the offset itself reaches
   * into the second bank.
   */
  function GetController(a: Area, offset: nat): (r: Option<Block>)
    ensures r.Some? <==> offset < ArraySize(a)
    ensures r.Some? && a != Flash01Main ==> r.value == Block(Bank(a), Bank(a) * MainArraySize)
    ensures r.Some? && a == Flash01Main ==> r.value == Block(offset / MainArraySize, 0)
  {
    match a
    case Unknown => None
    case Flash01Main =>
      if offset < MainArraySize then Some(Block(0, 0))
      else if offset < 2 * MainArraySize then Some(Block(1, 0))
      else None
    case _ =>
      if offset < ArraySize(a) then Some(Block(Bank(a), Bank(a) * MainArraySize)) else None
  }

  /** For a main area, the address reached (unit offset plus offset) lies in the main array of the chosen controller. */
  lemma ControllerWindow(a: Area, offset: nat)
    requires IsMainArea(a) && GetController(a, offset).Some?
    ensures var b := GetController(a, offset).value;
      b.controller * MainArraySize <= b.unitOffset + offset < (b.controller + 1) * MainArraySize
  {
  }

  /** A range check: start no later than end, start inside the area and end at most its size. */
  predicate InArea(attr: Attributes, start: nat, end: nat)
  {
    start <= end && start < attr.size && end <= attr.size
  }

  // ---------------------------------------------------------------------
  // The unit / chip-select table and detection
  // ---------------------------------------------------------------------

  const Table: seq<Entry> := [
    Entry(0, 0, Attributes(MainPage, MainArraySize, Flash0Main)),
    Entry(1, 0, Attributes(MainPage, MainArraySize, Flash1Main)),
    Entry(2, 0, Attributes(MainPage, MainArraySize, Flash2Main)),
    Entry(3, 0, Attributes(MainPage, 2 * MainArraySize, Flash01Main)),
    Entry(0, 1, Attributes(InfoPage, InfoArraySize, Flash0Info)),
    Entry(1, 1, Attributes(InfoPage, InfoArraySize, Flash1Info)),
    Entry(2, 1, Attributes(InfoPage, InfoArraySize, Flash2Info)),
    Entry(1, 3, Attributes(InfoSPage, InfoArraySize / 2, Flash1InfoS)),
    Entry(2, 3, Attributes(InfoSPage, InfoArraySize / 2, Flash2InfoS)),
    Entry(0, 2, Attributes(InfoKPage, InfoKArraySize, Flash0InfoK)),
    Entry(1, 2, Attributes(InfoKPage, InfoKArraySize, Flash1InfoK)),
    Entry(2, 2, Attributes(InfoKPage, InfoKArraySize, Flash2InfoK))
  ]

  /** The attributes detect leaves when no row matches. */
  const NoAttributes: Attributes := Attributes(MainPage, 0, Unknown)

  /** The first row of t, from index i on, with the given unit and chip select. */
  function FindKey(t: seq<Entry>, unit: nat, cs: nat, i: nat): (r: Option<nat>)
    requires i <= |t|
    ensures r.Some? ==> i <= r.value < |t| && t[r.value].unit == unit && t[r.value].chipSelect == cs
    ensures r.Some? ==> forall j :: i <= j < r.value ==> !(t[j].unit == unit && t[j].chipSelect == cs)
    ensures r.None? ==> forall j :: i <= j < |t| ==> !(t[j].unit == unit && t[j].chipSelect == cs)
    decreases |t| - i
  {
    if i == |t| then None
    else if t[i].unit == unit && t[i].chipSelect == cs then Some(i)
    else FindKey(t, unit, cs, i + 1)
  }

  /** The first row of t, from index i on, for the given area. */
  function FindArea(t: seq<Entry>, a: Area, i: nat): (r: Option<nat>)
    requires i <= |t|
    ensures r.Some? ==> i <= r.value < |t| && t[r.value].attr.area == a
    ensures r.None? ==> forall j :: i <= j < |t| ==> t[j].attr.area != a
    decreases |t| - i
  {
    if i == |t| then None
    else if t[i].attr.area == a then Some(i)
    else FindArea(t, a, i + 1)
  }

  /** `detect`: the attributes and flash type for a unit and chip select. */
  function Detect(unit: nat, cs: nat): (r: (Attributes, FlashType))
    ensures r.1 == MazV0 <==> exists i :: 0 <= i < |Table| && Table[i].unit == unit && Table[i].chipSelect == cs
    ensures forall i :: 0 <= i < |Table| && Table[i].unit == unit && Table[i].chipSelect == cs ==> r.0 == Table[i].attr
    ensures r.1 != MazV0 ==> r == (NoAttributes, TypeUnknown)
  {
    TableDistinct();
    match FindKey(Table, unit, cs, 0)
    case None => (NoAttributes, TypeUnknown)
    case Some(i) => (Table[i].attr, MazV0)
  }

  /** `getFlashAttributesByArea`: the attributes of the first row for an area. */
  function AttributesByArea(a: Area): Option<Attributes>
  {
    match FindArea(Table, a, 0)
    case None => None
    case Some(i) => Some(Table[i].attr)
  }

  /** No two rows share a unit and chip select, nor an area, and no row is for the unknown area. */
  lemma TableDistinct()
    ensures forall i, j :: 0 <= i < j < |Table| ==>
      (Table[i].unit, Table[i].chipSelect) != (Table[j].unit, Table[j].chipSelect)
    ensures forall i, j :: 0 <= i < j < |Table| ==> Table[i].attr.area != Table[j].attr.area
    ensures forall i :: 0 <= i < |Table| ==> Table[i].attr.area != Unknown
  {
  }

  /** The attributes of a detected area are found again from the area alone. */
  lemma AreaRoundTrip(unit: nat, cs: nat)
    requires Detect(unit, cs).1 == MazV0
    ensures AttributesByArea(Detect(unit, cs).0.area) == Some(Detect(unit, cs).0)
  {
    TableDistinct();
    var i := FindKey(Table, unit, cs, 0).value;
    assert FindArea(Table, Table[i].attr.area, 0).Some?;
  }

  /** Every detected area's size fits its array, and is a whole number of erase blocks. */
  lemma DetectedSize(unit: nat, cs: nat)
    ensures var attr := Detect(unit, cs).0;
      attr.size <= ArraySize(attr.area) && attr.size % EraseBlockSize == 0
    ensures Detect(unit, cs).0.kind == InfoSPage <==> IsInfoSArea(Detect(unit, cs).0.area)
  {
  }

  // ---------------------------------------------------------------------
  // Pages
  // ---------------------------------------------------------------------

  /**
   * The check of page programming, per byte: every bit in which the data
   * value differs from the flash contents is set in the flash contents
   * (the source checks 32-bit words; the operations are bitwise, so the
   * word check holds exactly when it holds for each of its bytes).
   */
  predicate ClearsOnly(existing: byte, data: byte)
  {
    existing & (existing ^ data) == existing ^ data
  }

  /** The rule means: no bit of the new data is 1 where the flash holds 0. */
  lemma ClearsOnlyMeans(existing: byte, data: byte)
    ensures ClearsOnly(existing, data) <==> data & !existing == 0
    ensures ClearsOnly(existing, data) <==> existing & data == data
  {
  }

  predicate PageClearsOnly(existing: seq<byte>, data: seq<byte>)
    requires |existing| == |data|
  {
    forall i :: 0 <= i < |existing| ==> ClearsOnly(existing[i], data[i])
  }

  /** Under the rule the programmed cells read back as the data, so the verify step after programming passes. */
  lemma ProgramReadsBack(existing: seq<byte>, data: seq<byte>)
    requires |existing| == |data| && PageClearsOnly(existing, data)
    ensures ProgramCells(existing, data) == data
  {
    forall i | 0 <= i < |data|
      ensures ProgramCells(existing, data)[i] == data[i]
    {
      ClearsOnlyMeans(existing[i], data[i]);
    }
  }

  /** An aligned offset below an aligned size leaves room for a whole page. */
  lemma PageInside(offset: nat, size: nat)
    requires offset < size && offset % PageSize == 0 && size % PageSize == 0
    ensures offset + PageSize <= size
  {
  }

  /**
   * `flash_page`: program one 16-byte page. Refused outside the array and
   * at an unaligned offset; nothing is programmed when the page already
   * holds the data; refused when a bit would go from 0 to 1.
   */
  function FlashPage(a: Area, mem: seq<byte>, offset: nat, page: seq<byte>): (r: Result<seq<byte>, Error>)
    requires Fits(a, mem) && |page| == PageSize
    ensures r.Failure? ==> r.error in {NoController, Misaligned, SetsBits}
    ensures r.Success? <==>
      (offset < ArraySize(a) && offset % PageSize == 0 && PageClearsOnly(mem[offset..offset + PageSize], page))
    ensures r.Success? ==> r.value == Splice(mem, offset, page)
  {
    if GetController(a, offset).None? then Failure(NoController)
    else if offset % PageSize != 0 then Failure(Misaligned)
    else
      PageInside(offset, ArraySize(a));
      var existing := mem[offset..offset + PageSize];
      if existing == page then
        SamePage(existing);
        SpliceSame(mem, offset, page);
        Success(mem)
      else if !PageClearsOnly(existing, page) then Failure(SetsBits)
      else
        ProgramReadsBack(existing, page);
        Success(Splice(mem, offset, ProgramCells(existing, page)))
  }

  lemma SamePage(p: seq<byte>)
    ensures PageClearsOnly(p, p)
  {
  }

  /** The X (row) and Y (page within the row) address of a page offset. */
  function XYAddress(offset: nat): (r: (nat, nat))
    ensures r.1 < RowSize / PageSize
    ensures r.0 * RowSize + r.1 * PageSize <= offset < r.0 * RowSize + r.1 * PageSize + PageSize
  {
    var x := offset / RowSize;
    var y := (offset - x * RowSize) / PageSize;
    (x, y)
  }

  /** For an aligned offset the split is exact: the offset is rebuilt from X and Y. */
  lemma XYAddressExact(offset: nat)
    requires offset % PageSize == 0
    ensures XYAddress(offset).0 * RowSize + XYAddress(offset).1 * PageSize == offset
  {
    var (x, y) := XYAddress(offset);
    var row, page := x * RowSize, y * PageSize;
    assert row == (x * 32) * PageSize;
    Arith.MulAligned(x * 32, PageSize);
    Arith.MulAligned(y, PageSize);
    Arith.SumAligned(row, page, PageSize);
    Arith.AlignedBelow(PageSize, offset, row + page, offset);
  }

  // ---------------------------------------------------------------------
  // Writing a range
  // ---------------------------------------------------------------------

  /** The info pages: the areas whose protection register is checked. */
  predicate IsInfoArea(a: Area)
  {
    a != Unknown && !IsMainArea(a)
  }

  /** The areas whose image hash is checked before a write. */
  predicate HashChecked(a: Area)
  {
    a == Flash1Info || a == Flash2Info || IsInfoSArea(a)
  }

  /** The end offset of a write, computed in 32 bits. */
  function WriteEnd(start: nat, size: nat): nat
  {
    (start + size) % Word32
  }

  /** A write that passes every check before the pages are programmed. */
  predicate WriteAccepted(attr: Attributes, start: nat, data: seq<byte>, protected: bool, hashOk: bool)
  {
    |data| > 0 && !(IsInfoArea(attr.area) && protected) && !(HashChecked(attr.area) && !hashOk) &&
    !IsInfoSArea(attr.area) && InArea(attr, start, WriteEnd(start, |data|))
  }

  /** Every byte of data, placed at start, only clears bits of the flash contents. */
  predicate AllClearOnly(mem: seq<byte>, start: nat, data: seq<byte>)
  {
    start + |data| <= |mem| && forall i :: 0 <= i < |data| ==> ClearsOnly(mem[start + i], data[i])
  }

  /** The data bytes for offsets [lo, hi) only clear bits of the flash contents. */
  predicate ClearOnlyBetween(mem: seq<byte>, start: nat, data: seq<byte>, lo: nat, hi: nat)
    requires start <= lo <= hi <= start + |data| <= |mem|
  {
    forall i :: lo <= i < hi ==> ClearsOnly(mem[i], data[i - start])
  }

  lemma ClearOnlyJoin(mem: seq<byte>, start: nat, data: seq<byte>, lo: nat, mid: nat, hi: nat)
    requires start <= lo <= mid <= hi <= start + |data| <= |mem|
    ensures ClearOnlyBetween(mem, start, data, lo, mid) && ClearOnlyBetween(mem, start, data, mid, hi)
      <==> ClearOnlyBetween(mem, start, data, lo, hi)
  {
  }

  lemma ClearOnlyAll(mem: seq<byte>, start: nat, data: seq<byte>)
    requires start + |data| <= |mem|
    ensures ClearOnlyBetween(mem, start, data, start, start + |data|) <==> AllClearOnly(mem, start, data)
  {
    if ClearOnlyBetween(mem, start, data, start, start + |data|) {
      forall i | 0 <= i < |data|
        ensures ClearsOnly(mem[start + i], data[i])
      {
        assert data[start + i - start] == data[i];
      }
    }
  }

  /** The length of the chunk written at offset o: up to the end of its page, but not past end. */
  function ChunkLen(o: nat, end: nat): (n: nat)
    requires o < end
    ensures 0 < n <= PageSize && o + n <= end && o % PageSize + n <= PageSize
    ensures o + n == end || (o + n) % PageSize == 0
  {
    var room := PageSize - o % PageSize;
    if room > end - o then end - o else room
  }

  /** The page holding offset o, taken from cur, with the n data bytes for [o, o + n) copied in. */
  function MergedPage(cur: seq<byte>, start: nat, data: seq<byte>, o: nat, n: nat): (page: seq<byte>)
    requires start <= o && o + n <= start + |data| && o % PageSize + n <= PageSize
    requires o - o % PageSize + PageSize <= |cur|
    ensures |page| == PageSize
  {
    var p := o - o % PageSize;
    seq(PageSize, k requires 0 <= k < PageSize =>
      if o <= p + k < o + n then data[p + k - start] else cur[p + k])
  }

  /**
   * One chunk of a write: with the bytes before o already written, the merged
   * page passes the programming check exactly when the chunk's bytes only
   * clear bits, and programming it extends the written prefix to o + n.
   */
  lemma ChunkStep(mem: seq<byte>, start: nat, data: seq<byte>, o: nat, n: nat, cur: seq<byte>)
    requires start <= o && o + n <= start + |data| && start + |data| <= |mem|
    requires o % PageSize + n <= PageSize && o - o % PageSize + PageSize <= |mem|
    requires cur == Splice(mem, start, data[..o - start])
    ensures var p := o - o % PageSize; var page := MergedPage(cur, start, data, o, n);
      (PageClearsOnly(cur[p..p + PageSize], page) <==> ClearOnlyBetween(mem, start, data, o, o + n)) &&
      Splice(cur, p, page) == Splice(mem, start, data[..o + n - start])
  {
    var p := o - o % PageSize;
    var page := MergedPage(cur, start, data, o, n);
    ChunkClears(mem, start, data, o, n, cur, p, page);
    ChunkSplice(mem, start, data, o, n, cur, p, page);
  }

  /** The merged page clears only bits exactly when the chunk's bytes do. */
  lemma ChunkClears(mem: seq<byte>, start: nat, data: seq<byte>, o: nat, n: nat, cur: seq<byte>, p: nat, page: seq<byte>)
    requires start <= o && o + n <= start + |data| && start + |data| <= |mem|
    requires p == o - o % PageSize && o % PageSize + n <= PageSize && p + PageSize <= |mem|
    requires cur == Splice(mem, start, data[..o - start])
    requires page == MergedPage(cur, start, data, o, n)
    ensures PageClearsOnly(cur[p..p + PageSize], page) <==> ClearOnlyBetween(mem, start, data, o, o + n)
  {
    var existing := cur[p..p + PageSize];
    forall k | 0 <= k < PageSize && !(o <= p + k < o + n)
      ensures ClearsOnly(existing[k], page[k])
    {
      assert existing[k] == page[k];
    }
    forall i | o <= i < o + n
      ensures existing[i - p] == mem[i] && page[i - p] == data[i - start]
    {
    }
    if ClearOnlyBetween(mem, start, data, o, o + n) {
      forall k | 0 <= k < PageSize && o <= p + k < o + n
        ensures ClearsOnly(existing[k], page[k])
      {
        assert existing[(p + k) - p] == mem[p + k];
      }
    }
  }

  /** Programming the merged page extends the written prefix by the chunk. */
  lemma ChunkSplice(mem: seq<byte>, start: nat, data: seq<byte>, o: nat, n: nat, cur: seq<byte>, p: nat, page: seq<byte>)
    requires start <= o && o + n <= start + |data| && start + |data| <= |mem|
    requires p == o - o % PageSize && o % PageSize + n <= PageSize && p + PageSize <= |mem|
    requires cur == Splice(mem, start, data[..o - start])
    requires page == MergedPage(cur, start, data, o, n)
    ensures Splice(cur, p, page) == Splice(mem, start, data[..o + n - start])
  {
    var lhs := Splice(cur, p, page);
    var rhs := Splice(mem, start, data[..o + n - start]);
    forall i | 0 <= i < |mem|
      ensures lhs[i] == rhs[i]
    {
      if p <= i < p + PageSize {
        assert lhs[i] == page[i - p];
        if o <= i < o + n {
          assert page[i - p] == data[i - start];
        } else {
          assert page[i - p] == cur[i];
        }
      } else {
        assert lhs[i] == cur[i];
      }
    }
  }

  /** A whole aligned page of data is the merged page of its chunk. */
  lemma WholePage(cur: seq<byte>, start: nat, data: seq<byte>, o: nat)
    requires start <= o && o + PageSize <= start + |data| && o % PageSize == 0 && o + PageSize <= |cur|
    ensures data[o - start..o - start + PageSize] == MergedPage(cur, start, data, o, PageSize)
  {
  }

  /** Programming the page of one chunk: refused only because of a bit the chunk would set; otherwise the written prefix grows. */
  lemma ChunkOutcome(a: Area, mem: seq<byte>, start: nat, data: seq<byte>, o: nat, n: nat, cur: seq<byte>)
    requires Fits(a, mem) && start <= o && 0 < n && o + n <= start + |data| && start + |data| <= |mem|
    requires o % PageSize + n <= PageSize
    requires cur == Splice(mem, start, data[..o - start])
    ensures o - o % PageSize + PageSize <= |mem|
    ensures var res := FlashPage(a, cur, o - o % PageSize, MergedPage(cur, start, data, o, n));
      (res.Success? <==> ClearOnlyBetween(mem, start, data, o, o + n)) &&
      (res.Success? ==> res.value == Splice(mem, start, data[..o + n - start])) &&
      (res.Failure? ==> res.error == SetsBits)
  {
    PageInside(o - o % PageSize, |mem|);
    ChunkStep(mem, start, data, o, n, cur);
  }

  /** Nothing written yet: the contents are the original ones. */
  lemma SpliceNothing(mem: seq<byte>, start: nat, data: seq<byte>)
    requires start <= |mem|
    ensures Splice(mem, start, data[..0]) == mem
  {
  }

  lemma SpliceAll(mem: seq<byte>, start: nat, data: seq<byte>)
    requires start + |data| <= |mem|
    ensures Splice(mem, start, data[..|data|]) == Splice(mem, start, data)
  {
    assert data[..|data|] == data;
  }

  /** The bytes of data before offset o are written and only cleared bits. */
  predicate Progress(mem: seq<byte>, start: nat, data: seq<byte>, cur: seq<byte>, o: nat)
  {
    start <= o <= start + |data| <= |mem| &&
    cur == Splice(mem, start, data[..o - start]) &&
    ClearOnlyBetween(mem, start, data, start, o)
  }

  /** Program the chunk [o, o + n) inside one page; on refusal nothing changes. */
  method ProgramChunk(a: Area, mem: seq<byte>, start: nat, data: seq<byte>, cur: seq<byte>, o: nat, n: nat)
    returns (refused: bool, cur': seq<byte>)
    requires Fits(a, mem) && Progress(mem, start, data, cur, o)
    requires 0 < n && o + n <= start + |data| && o % PageSize + n <= PageSize
    ensures refused ==> cur' == cur && !AllClearOnly(mem, start, data)
    ensures !refused ==> Progress(mem, start, data, cur', o + n)
  {
    ChunkOutcome(a, mem, start, data, o, n, cur);
    var page := if o % PageSize == 0 && n == PageSize then data[o - start..o - start + PageSize]
      else MergedPage(cur, start, data, o, n);
    if o % PageSize == 0 && n == PageSize {
      WholePage(cur, start, data, o);
    }
    var res := FlashPage(a, cur, o - o % PageSize, page);
    refused := res.Failure?;
    if refused {
      RefusedChunk(mem, start, data, o, o + n);
      cur' := cur;
    } else {
      ClearOnlyJoin(mem, start, data, start, o, o + n);
      cur' := res.value;
    }
  }

  /** The whole pages of a write, from an aligned offset (or the end) on, while a whole page remains. */
  method WholePages(a: Area, mem: seq<byte>, start: nat, data: seq<byte>, cur: seq<byte>, o: nat)
    returns (refused: bool, cur': seq<byte>, o': nat)
    requires Fits(a, mem) && Progress(mem, start, data, cur, o)
    requires o == start + |data| || o % PageSize == 0
    ensures Progress(mem, start, data, cur', o')
    ensures refused ==> !AllClearOnly(mem, start, data)
    ensures !refused ==> o' + PageSize > start + |data| && (o' == start + |data| || o' % PageSize == 0)
  {
    var end := start + |data|;
    refused, cur', o' := false, cur, o;
    while !refused && o' + PageSize <= end
      invariant Progress(mem, start, data, cur', o')
      invariant !refused ==> o' == end || o' % PageSize == 0
      invariant refused ==> !AllClearOnly(mem, start, data)
    {
      refused, cur' := ProgramChunk(a, mem, start, data, cur', o', PageSize);
      if !refused {
        o' := o' + PageSize;
      }
    }
  }

  /**
   * The page loop of `flash`: an unaligned head chunk up to the next page
   * boundary, then whole pages, then a tail chunk, each merged into the
   * page's current contents and programmed (a whole page is the data
   * itself); the first refused page ends the write, leaving the pages
   * before it programmed.
   */
  method WritePages(a: Area, mem: seq<byte>, start: nat, data: seq<byte>) returns (r: Outcome, reached: nat)
    requires Fits(a, mem) && start + |data| <= |mem|
    ensures r.Done? <==> AllClearOnly(mem, start, data)
    ensures r.Done? ==> r.mem == Splice(mem, start, data)
    ensures r.Failed? ==> r.error == SetsBits && Progress(mem, start, data, r.mem, reached)
    ensures !r.SecurePage?
  {
    var end := start + |data|;
    SpliceNothing(mem, start, data);
    var cur := mem;
    var o: nat := start;
    var refused := false;
    if o % PageSize != 0 && o < end {
      var n := ChunkLen(o, end);
      refused, cur := ProgramChunk(a, mem, start, data, cur, o, n);
      if !refused {
        o := o + n;
      }
    }
    if !refused {
      refused, cur, o := WholePages(a, mem, start, data, cur, o);
    }
    if !refused && o < end {
      refused, cur := ProgramChunk(a, mem, start, data, cur, o, end - o);
      if !refused {
        o := end;
      }
    }
    reached := o;
    if refused {
      r := Failed(SetsBits, cur);
    } else {
      SpliceAll(mem, start, data);
      ClearOnlyAll(mem, start, data);
      r := Done(cur);
    }
  }

  /** A chunk whose bytes would set a bit makes the whole write one that sets a bit. */
  lemma RefusedChunk(mem: seq<byte>, start: nat, data: seq<byte>, lo: nat, hi: nat)
    requires start <= lo <= hi <= start + |data| <= |mem|
    requires !ClearOnlyBetween(mem, start, data, lo, hi)
    ensures !AllClearOnly(mem, start, data)
  {
    ClearOnlyJoin(mem, start, data, start, lo, hi);
    ClearOnlyJoin(mem, start, data, start, hi, start + |data|);
    ClearOnlyAll(mem, start, data);
  }

  /** Writing a prefix of the data leaves every byte outside the range as it was. */
  lemma SpliceOutside(mem: seq<byte>, start: nat, data: seq<byte>, k: nat)
    requires start + |data| <= |mem| && k <= |data|
    ensures forall i :: 0 <= i < |mem| && !(start <= i < start + |data|) ==> Splice(mem, start, data[..k])[i] == mem[i]
  {
  }

  /**
   * `flash`: an empty write does nothing; then the protection and hash
   * checks, the InfoS rules (offset 0, 4096 bytes) and the range check;
   * then the pages of an ordinary area are programmed.
   */
  method Write(attr: Attributes, mem: seq<byte>, start: nat, data: seq<byte>, protected: bool, hashOk: bool)
    returns (r: Outcome)
    requires Fits(attr.area, mem) && attr.size <= ArraySize(attr.area)
    requires start < Word32 && |data| < Word32
    ensures |data| == 0 ==> r == Done(mem)
    ensures r.Done? && |data| > 0 <==> WriteAccepted(attr, start, data, protected, hashOk) && AllClearOnly(mem, start, data)
    ensures r.Done? && |data| > 0 ==> start + |data| <= |mem| && r.mem == Splice(mem, start, data)
    ensures r.SecurePage? <==>
      (|data| > 0 && !(IsInfoArea(attr.area) && protected) && !(HashChecked(attr.area) && !hashOk) &&
       IsInfoSArea(attr.area) && start == 0 && |data| == EraseBlockSize)
    ensures r.Failed? ==>
      (|r.mem| == |mem| && forall i :: 0 <= i < |mem| && !(start <= i < start + |data|) ==> r.mem[i] == mem[i])
    ensures r.Failed? && r.error == SetsBits ==> WriteAccepted(attr, start, data, protected, hashOk) && !AllClearOnly(mem, start, data)
  {
    var end := WriteEnd(start, |data|);
    if start == end {
      return Done(mem);
    }
    if IsInfoArea(attr.area) && protected {
      return Failed(Protected, mem);
    }
    if HashChecked(attr.area) && !hashOk {
      return Failed(BadChecksum, mem);
    }
    if IsInfoSArea(attr.area) {
      if start != 0 {
        return Failed(InfoSOffset, mem);
      }
      if |data| != EraseBlockSize {
        return Failed(InfoSSize, mem);
      }
      return SecurePage;
    }
    if !InArea(attr, start, end) {
      return Failed(BadRange, mem);
    }
    var reached;
    r, reached := WritePages(attr.area, mem, start, data);
    if r.Failed? {
      SpliceOutside(mem, start, data, reached - start);
    }
  }

  // ---------------------------------------------------------------------
  // Erasing
  // ---------------------------------------------------------------------

  /** The bytes of the COM info page that hold the key encryption key. */
  const KekStart: nat := 0x740
  const KekEnd: nat := 0x800

  /** Erasing a block: skipped when it already reads erased; either way the block ends erased. */
  function EraseBlock(a: Area, cur: seq<byte>, o: nat): (r: Result<seq<byte>, Error>)
    requires Fits(a, cur)
    ensures r.Success? <==> o < ArraySize(a) && o % EraseBlockSize == 0
    ensures r.Success? ==> o + EraseBlockSize <= |cur| && r.value == Splice(cur, o, Erased(EraseBlockSize))
  {
    if GetController(a, o).None? then Failure(NoController)
    else if o % EraseBlockSize != 0 then Failure(Misaligned)
    else
      BlockInside(o, ArraySize(a));
      var block := cur[o..o + EraseBlockSize];
      if AndAll(block) == 0xff then
        AndAllErased(block);
        assert block == Erased(EraseBlockSize);
        SpliceSame(cur, o, Erased(EraseBlockSize));
        Success(cur)
      else Success(Splice(cur, o, Erased(EraseBlockSize)))
  }

  /** An aligned offset below an aligned size leaves room for a whole erase block. */
  lemma BlockInside(offset: nat, size: nat)
    requires offset < size && offset % EraseBlockSize == 0 && size % EraseBlockSize == 0
    ensures offset + EraseBlockSize <= size
  {
  }

  /** An erase that passes every check. */
  predicate EraseAccepted(attr: Attributes, mem: seq<byte>, start: nat, end: nat, protected: bool)
    requires Fits(attr.area, mem)
  {
    start == end ||
    (!(IsInfoArea(attr.area) && protected) &&
     if IsInfoSArea(attr.area) then
       start == 0 && end == EraseBlockSize && (attr.area == Flash1InfoS ==> AllErased(mem[KekStart..KekEnd]))
     else
       InArea(attr, start, end) && start % EraseBlockSize == 0 && end % EraseBlockSize == 0)
  }

  /**
   * `erase`: an empty range does nothing; a protected info page is refused;
   * an InfoS page must be erased at offset 0 with 4096 bytes, which then
   * erases both 4096-byte halves, and the COM InfoS page is refused while
   * its KEK bytes are not all erased; other areas need the range inside the
   * area. Both ends must be block aligned; then every block is erased.
   */
  method Erase(attr: Attributes, mem: seq<byte>, start: nat, end: nat, protected: bool) returns (r: Outcome)
    requires Fits(attr.area, mem) && attr.size <= ArraySize(attr.area)
    ensures r.Done? <==> EraseAccepted(attr, mem, start, end, protected)
    ensures r.Failed? ==> r.mem == mem
    ensures !r.SecurePage?
    ensures r.Done? && start == end ==> r.mem == mem
    ensures r.Done? && start != end && IsInfoSArea(attr.area) ==> r.mem == Splice(mem, 0, Erased(2 * EraseBlockSize))
    ensures r.Done? && start != end && !IsInfoSArea(attr.area) ==> end <= |mem| && r.mem == Splice(mem, start, Erased(end - start))
  {
    if start == end {
      return Done(mem);
    }
    if IsInfoArea(attr.area) && protected {
      return Failed(Protected, mem);
    }
    var last := end;
    if IsInfoSArea(attr.area) {
      if start != 0 {
        return Failed(InfoSOffset, mem);
      }
      if end - start != EraseBlockSize {
        return Failed(InfoSSize, mem);
      }
      last := 2 * EraseBlockSize;
      if attr.area == Flash1InfoS {
        AndAllErased(mem[KekStart..KekEnd]);
        if AndAll(mem[KekStart..KekEnd]) != 0xff {
          return Failed(KekPresent, mem);
        }
      }
    } else if !InArea(attr, start, end) {
      return Failed(BadRange, mem);
    }
    if start % EraseBlockSize != 0 || last % EraseBlockSize != 0 {
      return Failed(Misaligned, mem);
    }
    r := EraseBlocks(attr.area, mem, start, last);
  }

  /** The block loop of `erase`: every block of [first, last) in turn. */
  method EraseBlocks(a: Area, mem: seq<byte>, first: nat, last: nat) returns (r: Outcome)
    requires Fits(a, mem) && first < last <= |mem|
    requires first % EraseBlockSize == 0 && last % EraseBlockSize == 0
    ensures r == Done(Splice(mem, first, Erased(last - first)))
  {
    var cur := Splice(mem, first, Erased(0));
    SpliceSame(mem, first, Erased(0));
    var o := first;
    while o < last
      invariant first <= o <= last && o % EraseBlockSize == 0
      invariant cur == Splice(mem, first, Erased(o - first)) && Fits(a, cur)
    {
      BlockInside(o, last);
      EraseExtend(mem, first, o, EraseBlockSize);
      var next := EraseBlock(a, cur, o);
      assert next.Success? && next.value == Splice(cur, o, Erased(EraseBlockSize));
      cur := next.value;
      Arith.AddAligned(o, EraseBlockSize);
      o := o + EraseBlockSize;
    }
    return Done(cur);
  }

  /** `get_erase_area`: the checked range widened to erase block boundaries. */
  function GetEraseArea(attr: Attributes, start: nat, end: nat): (r: Result<(nat, nat), Error>)
    ensures r.Success? <==> InArea(attr, start, end)
    ensures r.Success? ==> var (s, e) := r.value;
      s <= start && end <= e && s % EraseBlockSize == 0 && e % EraseBlockSize == 0 &&
      start - s < EraseBlockSize && e - end < EraseBlockSize
  {
    if !InArea(attr, start, end) then Failure(BadRange)
    else Success((start / EraseBlockSize * EraseBlockSize, (end + EraseBlockSize - 1) / EraseBlockSize * EraseBlockSize))
  }

  /** The widened range of an ordinary area with a block-aligned size is accepted by erase. */
  lemma EraseAreaAccepted(attr: Attributes, mem: seq<byte>, start: nat, end: nat)
    requires Fits(attr.area, mem) && !IsInfoSArea(attr.area) && attr.size % EraseBlockSize == 0
    requires GetEraseArea(attr, start, end).Success?
    ensures var (s, e) := GetEraseArea(attr, start, end).value; EraseAccepted(attr, mem, s, e, false)
  {
    var (s, e) := GetEraseArea(attr, start, end).value;
    RoundUpBelow(end, attr.size);
  }

  /** Rounding up to a block boundary stays below a block-aligned bound. */
  lemma RoundUpBelow(end: nat, size: nat)
    requires end <= size && size % EraseBlockSize == 0
    ensures (end + EraseBlockSize - 1) / EraseBlockSize * EraseBlockSize <= size
  {
    var q := size / EraseBlockSize;
    assert end + EraseBlockSize - 1 < (q + 1) * EraseBlockSize;
  }
}
