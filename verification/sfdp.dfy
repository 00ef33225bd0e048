/** Serial Flash Discoverable Parameters (JEDEC JESD216): the header walk, the Basic Flash
    Parameter Table decoder, the JEDEC-ID length heuristic and the generated device name. */
module Sfdp {
  import opened Wrappers
  import opened Bytes
  import opened SpiFlash
  import Arith

  // ---------------------------------------------------------------------
  // JEDEC ID length
  // ---------------------------------------------------------------------

  /** The ID bytes repeat with period k: at least two whole copies, each byte equal to the one k before. */
  predicate Repeats(a: seq<byte>, k: nat)
  {
    1 <= k && 2 * k <= |a| && forall i :: k <= i < |a| ==> a[i] == a[i - k]
  }

  /** The first period from k on, or the array length when there is none. */
  function FirstRepeat(a: seq<byte>, k: nat): (r: nat)
    requires 1 <= k
    ensures k <= r
    ensures r < |a| ==> Repeats(a, r)
    ensures r >= |a| ==> r == (if k < |a| then |a| else k)
    ensures forall j :: k <= j < r ==> !Repeats(a, j)
    decreases |a| - k
  {
    if k >= |a| then k
    else if Repeats(a, k) then k
    else FirstRepeat(a, k + 1)
  }

  /** The length the heuristic reports: the shortest period of the bytes read, or all of them. */
  function IdLength(a: seq<byte>): (r: nat)
    ensures 1 <= r && (|a| > 0 ==> r <= |a|)
    ensures r < |a| ==> Repeats(a, r)
    ensures forall j :: 1 <= j < r ==> !Repeats(a, j)
  {
    FirstRepeat(a, 1)
  }

  /** The byte at offset i from the start of the ID buffer: inside it, or in the memory after it. */
  function Peek(a: seq<byte>, beyond: seq<byte>, i: nat): byte
    requires i < |a| + |beyond|
  {
    if i < |a| then a[i] else beyond[i - |a|]
  }

  /** Two whole copies of the block at b - k make the bytes up to b + n repeat with period k. */
  lemma BlockRepeats(a: seq<byte>, k: nat, b: nat, n: nat)
    requires 1 <= k <= b && b + n <= |a| && n <= k
    requires forall u :: 0 <= u < k ==> a[b - k + u] == a[u]
    requires forall u :: 0 <= u < n ==> a[b + u] == a[u]
    ensures forall i :: b <= i < b + n ==> a[i] == a[i - k]
  {
    forall i | b <= i < b + n
      ensures a[i] == a[i - k]
    {
      assert a[b + (i - b)] == a[i - b] == a[b - k + (i - b)];
    }
  }

  /** A byte that differs from the one k before it, or a copy that does not fit, rules out period k. */
  lemma NotRepeat(a: seq<byte>, k: nat, v: nat)
    requires v < k && (k + v >= |a| || a[k + v] != a[v])
    ensures !Repeats(a, k)
  {
  }

  /**
   * The state of the comparison loop at block b, offset v, while the first
   * block repeats: the previous block copies the first, the current one does
   * up to v, and every byte before the current block equals the one k before.
   */
  ghost predicate Scanned(a: seq<byte>, k: nat, b: nat, v: nat)
  {
    1 <= k && 2 * k <= b && b + v <= |a| && v < k
    && (forall u :: 0 <= u < k ==> a[b - k + u] == a[u])
    && (forall u :: 0 <= u < v ==> a[b + u] == a[u])
    && (forall i :: k <= i < b ==> a[i] == a[i - k])
  }

  /** The loop starts at the third block once the second copies the first. */
  lemma ScanStart(a: seq<byte>, k: nat)
    requires 1 <= k && 2 * k <= |a| && forall u :: 0 <= u < k ==> a[k + u] == a[u]
    ensures Scanned(a, k, 2 * k, 0)
  {
    forall i | k <= i < 2 * k
      ensures a[i] == a[i - k]
    {
      assert a[k + (i - k)] == a[i - k];
    }
  }

  /** A matching byte moves the loop one offset on, or to the next block at its end. */
  lemma ScanStep(a: seq<byte>, k: nat, b: nat, v: nat)
    requires Scanned(a, k, b, v) && b + v < |a| && a[b + v] == a[v]
    ensures v + 1 < k ==> Scanned(a, k, b, v + 1)
    ensures v + 1 == k ==> Scanned(a, k, b + k, 0)
  {
    if v + 1 == k {
      BlockRepeats(a, k, b, k);
    }
  }

  /** A byte that differs from the one k before it rules out period k. */
  lemma ScanMismatch(a: seq<byte>, k: nat, b: nat, v: nat)
    requires Scanned(a, k, b, v) && b + v < |a| && a[b + v] != a[v]
    ensures !Repeats(a, k)
  {
    assert a[b + v] != a[b + v - k];
  }

  /** Reaching the end of the bytes in step shows period k. */
  lemma ScanDone(a: seq<byte>, k: nat, b: nat, v: nat)
    requires Scanned(a, k, b, v) && b + v == |a|
    ensures Repeats(a, k)
  {
    BlockRepeats(a, k, b, v);
  }

  /** The check for a whole repetition: compares the byte at p + w - k with the one at w mod k for
      every w from 2k on; a repetition is found when the comparison reaches the end. */
  method CheckRepeat(a: seq<byte>, p: nat, k: nat) returns (found: bool)
    requires 1 <= p <= k
    ensures 2 * k > |a| ==> found == (2 * k == |a|)
    ensures p == k && 2 * k <= |a| && (forall u :: 0 <= u < k ==> a[k + u] == a[u]) ==>
              (found <==> Repeats(a, k))
  {
    if 2 * k >= |a| {
      return 2 * k == |a|;
    }
    ghost var good := p == k && forall u :: 0 <= u < k ==> a[k + u] == a[u];
    if good {
      ScanStart(a, k);
    }
    var w, v := 2 * k, 0;
    ghost var b := 2 * k;
    while w < |a|
      invariant 2 * k <= b <= w <= |a| && w == b + v && 0 <= v < k
      invariant good ==> Scanned(a, k, b, v)
      decreases |a| - w
    {
      if a[v] != a[p + w - k] {
        if good {
          ScanMismatch(a, k, b, v);
        }
        return false;
      }
      if good {
        ScanStep(a, k, b, v);
      }
      v, w := v + 1, w + 1;
      if v == k {
        b, v := b + k, 0;
      }
    }
    if good {
      ScanDone(a, k, b, v);
    }
    return true;
  }

  /** Moving past a step k that is no period leaves the first period unchanged. */
  lemma FirstRepeatSkip(a: seq<byte>, k: nat)
    requires 1 <= k < |a| && !Repeats(a, k)
    ensures FirstRepeat(a, k) == FirstRepeat(a, k + 1)
  {
  }

  /** One step of `get_jedec_id_length` with every comparison kept inside the buffer: does the ID
      repeat with period k? */
  method IsRepeat(a: seq<byte>, k: nat) returns (found: bool)
    requires 1 <= k < |a|
    ensures found <==> Repeats(a, k)
  {
    if a[k] != a[0] {
      NotRepeat(a, k, 0);
      return false;
    }
    var v := 0;
    while v < k && k + v < |a| && a[v] == a[k + v]
      invariant 0 <= v <= k && k + v <= |a|
      invariant forall u :: 0 <= u < v ==> a[k + u] == a[u]
      decreases k - v
    {
      v := v + 1;
    }
    if v < k {
      NotRepeat(a, k, v);
      return false;
    }
    found := CheckRepeat(a, k, k);
  }

  /** `get_jedec_id_length` with the prefix comparison kept inside the buffer: a byte past the end
      counts as a mismatch. */
  method JedecIdLength(a: seq<byte>) returns (size: nat)
    ensures size == IdLength(a)
  {
    size := 1;
    var k := 1;
    while k < |a|
      invariant 1 <= k && (|a| > 0 ==> k <= |a|)
      invariant size == k
      invariant FirstRepeat(a, 1) == FirstRepeat(a, k)
      decreases |a| - k
    {
      var found := IsRepeat(a, k);
      if found {
        return;
      }
      FirstRepeatSkip(a, k);
      size, k := size + 1, k + 1;
    }
  }

  /** The number of leading bytes of the ID that the k bytes from offset p reproduce, reading past
      the buffer as the source does. */
  method ComparePrefix(a: seq<byte>, beyond: seq<byte>, p: nat, k: nat) returns (v: nat)
    requires p + k <= |a| + |beyond| && k <= |a|
    ensures v <= k
    ensures forall u :: 0 <= u < v ==> Peek(a, beyond, p + u) == a[u]
    ensures v < k ==> Peek(a, beyond, p + v) != a[v]
  {
    v := 0;
    while v < k && a[v] == Peek(a, beyond, p + v)
      invariant v <= k
      invariant forall u :: 0 <= u < v ==> Peek(a, beyond, p + u) == a[u]
    {
      v := v + 1;
    }
  }

  /** Bytes read inside the buffer are the buffer's. */
  lemma PeekInside(a: seq<byte>, beyond: seq<byte>, p: nat, n: nat)
    requires p + n <= |a|
    ensures forall i :: p <= i < p + n ==> Peek(a, beyond, i) == a[i]
  {
  }

  /** One step k of the source's loop with the ID pointer at p: whether the ID was found, whether
      the pointer (and the size with it) advances, and whether a byte past the buffer was read. */
  method StepAsWritten(a: seq<byte>, beyond: seq<byte>, p: nat, k: nat) returns (found: bool, advance: bool, overrun: bool)
    requires 1 <= p <= k < |a| <= |beyond|
    ensures found ==> !advance
    ensures p == k && !found && !overrun ==> advance
    ensures p == k && !overrun ==> (found <==> Repeats(a, k))
    ensures p == k && a[k] != a[0] ==> !found && !overrun
    ensures p == k && 2 <= k == |a| - 1 && a[k] == a[0] ==> overrun
  {
    if a[p] != a[0] {
      return false, true, false;
    }
    var v := ComparePrefix(a, beyond, p, k);
    // the last byte compared lies past the buffer
    overrun := p + (if v < k then v else k - 1) >= |a|;
    if v < k {
      if !overrun && p == k {
        PeekInside(a, beyond, p, v + 1);
        NotRepeat(a, k, v);
      }
      return false, true, overrun;
    }
    if !overrun {
      PeekInside(a, beyond, p, k);
    }
    // the check loop either finds the repetition, stops at a mismatch, or does not run at all
    found := CheckRepeat(a, p, k);
    advance := !found && 2 * k < |a|;
  }

  /** The heuristic as the source writes it: the prefix comparison at step k reads the k bytes
      from the current pointer whether or not they lie in the buffer; `beyond` is the memory after
      it, and `outside` reports a read there. */
  method JedecIdLengthAsWritten(a: seq<byte>, beyond: seq<byte>) returns (size: nat, outside: bool)
    requires |a| <= |beyond|
    ensures 1 <= size && (|a| > 0 ==> size <= |a|)
    ensures !outside ==> size == IdLength(a)
    ensures 3 <= |a| && a[|a| - 1] == a[0] && (forall i :: 0 < i < |a| - 1 ==> a[i] != a[0]) ==> outside
  {
    ghost var lone := 3 <= |a| && a[|a| - 1] == a[0] && (forall i :: 0 < i < |a| - 1 ==> a[i] != a[0]);
    size, outside := 1, false;
    var p, k := 1, 1;
    while k < |a|
      invariant 1 <= p <= k && (|a| > 0 ==> k <= |a|) && size == p
      invariant !outside ==> p == k && FirstRepeat(a, 1) == FirstRepeat(a, k)
      invariant lone ==> (k < |a| ==> !outside) && (k == |a| ==> outside)
      decreases |a| - k
    {
      var found, advance, overrun := StepAsWritten(a, beyond, p, k);
      outside := outside || overrun;
      if found {
        return;
      }
      if !outside {
        FirstRepeatSkip(a, k);
      }
      if advance {
        p, size := p + 1, size + 1;
      }
      k := k + 1;
    }
  }

  /** `read_jedec_id`'s clamp of the detected length: anything outside [3, 8] becomes 3, except a
      single 0x00 or 0xff byte (no device answering), which becomes 0. */
  function DetectedIdSize(len: nat, first: byte): (r: nat)
    ensures r == 0 || 3 <= r <= 8
    ensures 3 <= len <= 8 ==> r == len
    ensures r == 0 <==> len == 1 && (first == 0x00 || first == 0xff)
  {
    if len > 8 || len < 3 then
      if len == 1 && (first == 0x00 || first == 0xff) then 0 else 3
    else len
  }

  // ---------------------------------------------------------------------
  // Powers of two and little-endian words
  // ---------------------------------------------------------------------

  function Pow2(e: nat): (r: nat)
    ensures 1 <= r
  {
    if e == 0 then 1 else 2 * Pow2(e - 1)
  }

  lemma {:induction false} Pow2Add(a: nat, b: nat)
    ensures Pow2(a + b) == Pow2(a) * Pow2(b)
  {
    if a > 0 {
      Pow2Add(a - 1, b);
      assert Pow2(a + b) == 2 * Pow2(a - 1 + b);
    }
  }

  lemma {:induction false} Pow2Mono(a: nat, b: nat)
    requires a <= b
    ensures Pow2(a) <= Pow2(b)
  {
    if a < b {
      Pow2Mono(a, b - 1);
    }
  }

  /** The powers of two the decoder needs. */
  lemma Pow2Values()
    ensures Pow2(3) == 8 && Pow2(6) == 64 && Pow2(7) == 128 && Pow2(31) == 0x8000_0000
  {
    assert Pow2(1) == 2 && Pow2(2) == 4 && Pow2(3) == 8 && Pow2(4) == 16;
    assert Pow2(5) == 32 && Pow2(6) == 64 && Pow2(7) == 128 && Pow2(8) == 256;
    Pow2Add(8, 8);
    Pow2Add(16, 8);
    Pow2Add(24, 7);
  }

  /** `1U << e` on the 32-bit target; a shift of 32 or more is undefined in C and is taken as 0. */
  function Shl1(e: nat): (r: nat)
    ensures r <= 0x8000_0000
    ensures 0 < r ==> r == Pow2(e)
  {
    if e < 32 then
      Pow2Mono(e, 31);
      Pow2Values();
      Pow2(e)
    else 0
  }

  /** A byte as a number. */
  function Val(b: byte): (n: nat)
    ensures n < 0x100
  {
    b as nat
  }

  /** The little-endian dword at byte offset at. */
  function Dword(s: seq<byte>, at: nat): (r: nat)
    requires at + 4 <= |s|
    ensures r < Word32
  {
    Val(s[at]) + 0x100 * Val(s[at + 1]) + 0x1_0000 * Val(s[at + 2]) + 0x100_0000 * Val(s[at + 3])
  }

  // ---------------------------------------------------------------------
  // Basic Flash Parameter Table
  // ---------------------------------------------------------------------

  /** Bytes of the Basic Flash Parameter Table that are read: nine dwords. */
  const TableBytes: nat := 36

  datatype SfdpError = ReadFailed | NoMagic | BadDensity | NoSectorType

  /** The attributes the table sets; everything else the source clears to zero. */
  datatype Attributes = Attributes(
    name: string, size: nat, clock: nat, pageSize: nat, sectorPages: nat,
    readOpcode: byte, pageProgOpcode: byte, readStatusOpcode: byte,
    readyMask: byte, readyValue: byte, writeEnableOpcode: byte, eraseSectorOpcode: byte)

  /** DWORD 2, the density. Bit 31 clear: the dword is the size in bits minus one, which must be a
      whole number of bytes. Bit 31 set: the size is 2^N bits for the N in the lower bits, N >= 3. */
  function DensityBytes(v: nat): (r: Result<nat, SfdpError>)
    requires v < Word32
    ensures v < 0x8000_0000 ==> (r.Success? <==> (v + 1) % 8 == 0)
    ensures v < 0x8000_0000 && r.Success? ==> 8 * r.value == v + 1
    ensures v >= 0x8000_0000 ==> (r.Success? <==> v - 0x8000_0000 >= 3)
    ensures v >= 0x8000_0000 && r.Success? && v - 0x8000_0000 < 35 ==> 8 * r.value == Pow2(v - 0x8000_0000)
    ensures r.Success? ==> r.value < Word32
  {
    if v < 0x8000_0000 then
      var bits := v + 1;
      if bits % 8 != 0 then Failure(BadDensity) else Success((bits + 1) / 8)
    else
      var n := v - 0x8000_0000;
      if n < 3 then Failure(BadDensity)
      else
        Pow2Add(3, n - 3);
        Pow2Values();
        Success(Shl1(n - 3))
  }

  /** DWORD 1 bit 2: a page of 64 bytes (2^6), otherwise single-byte programming (2^0). */
  function PageSizePow(t: seq<byte>): nat
    requires |t| == TableBytes
  {
    if t[0] & 4 == 0 then 0 else 6
  }

  /** One of the four erase types of DWORDs 8 and 9: the size 2^e and its opcode. */
  datatype SectorType = SectorType(size: nat, opcode: byte)

  function SectorTypes(t: seq<byte>): (r: seq<SectorType>)
    requires |t| == TableBytes
    ensures |r| == 4
  {
    seq(4, i requires 0 <= i < 4 => SectorType(Shl1(Val(t[0x1c + 2 * i])), t[0x1d + 2 * i]))
  }

  /** An erase type that can serve as the sector: a real opcode and at least 256 bytes. */
  predicate Usable(s: SectorType)
  {
    s.opcode != 0 && s.size >= 256
  }

  /** The size the scan starts from, meaning "nothing found". */
  const NoSize: nat := 0xffff_ffff

  /** What the scan has established after the first i types: nothing usable yet, or the first of
      the smallest usable ones. */
  predicate Chosen(ts: seq<SectorType>, i: nat, best: nat, bestSize: nat)
    requires i <= |ts|
  {
    || (bestSize == NoSize && forall j :: 0 <= j < i ==> !Usable(ts[j]))
    || (best < i && Usable(ts[best]) && bestSize == ts[best].size
        && (forall j :: 0 <= j < i && Usable(ts[j]) ==> bestSize <= ts[j].size)
        && (forall j :: 0 <= j < best && Usable(ts[j]) ==> bestSize < ts[j].size))
  }

  /** The scan for the smallest usable type; a later type replaces the best only when strictly smaller. */
  function ScanSectors(ts: seq<SectorType>, i: nat, best: nat, bestSize: nat): (r: (nat, nat))
    requires i <= |ts| && forall j :: 0 <= j < |ts| ==> ts[j].size < NoSize
    requires Chosen(ts, i, best, bestSize)
    ensures Chosen(ts, |ts|, r.0, r.1)
    decreases |ts| - i
  {
    if i == |ts| then (best, bestSize)
    else if Usable(ts[i]) && ts[i].size < bestSize then ScanSectors(ts, i + 1, i, ts[i].size)
    else ScanSectors(ts, i + 1, best, bestSize)
  }

  /** The erase type chosen for sectors, or None when no type is usable. */
  function BestSector(ts: seq<SectorType>): (r: Option<nat>)
    requires forall j :: 0 <= j < |ts| ==> ts[j].size < NoSize
    ensures r.None? <==> forall j :: 0 <= j < |ts| ==> !Usable(ts[j])
    ensures r.Some? ==> r.value < |ts| && Usable(ts[r.value])
    ensures r.Some? ==> forall j :: 0 <= j < |ts| && Usable(ts[j]) ==> ts[r.value].size <= ts[j].size
    ensures r.Some? ==> forall j :: 0 <= j < r.value && Usable(ts[j]) ==> ts[r.value].size < ts[j].size
  {
    var (best, bestSize) := ScanSectors(ts, 0, 0, NoSize);
    if bestSize == NoSize then None else Some(best)
  }

  /** A power of two of at least 256 is a whole number of 64-byte pages. */
  lemma Pow2Pages(e: nat)
    requires Pow2(e) >= 256
    ensures Pow2(e) % 64 == 0
  {
    Pow2Values();
    if e < 8 {
      Pow2Mono(e, 7);
    }
    Pow2Add(6, e - 6);
    Arith.MulAligned(Pow2(e - 6), 64);
  }

  /** A usable size is 2^e with e >= 8, so it is a whole number of 64-byte pages. */
  lemma UsablePages(t: seq<byte>, i: nat)
    requires |t| == TableBytes && i < 4 && Usable(SectorTypes(t)[i])
    ensures SectorTypes(t)[i].size % 64 == 0
  {
    var e := Val(t[0x1c + 2 * i]);
    assert SectorTypes(t)[i].size == Shl1(e) == Pow2(e);
    Pow2Pages(e);
  }

  /** `read_jedec_flash_parameter` on the 36 bytes of the table, apart from the erase-type list. */
  function ParseBfpt(t: seq<byte>): (r: Result<Attributes, SfdpError>)
    requires |t| == TableBytes
    ensures r.Failure? <==> DensityBytes(Dword(t, 4)).Failure? || BestSector(SectorTypes(t)).None?
    ensures r.Failure? && DensityBytes(Dword(t, 4)).Failure? ==> r.error == BadDensity
    ensures r.Success? ==>
      var a := r.value;
      var best := BestSector(SectorTypes(t)).value;
      && a.size == DensityBytes(Dword(t, 4)).value
      && (a.pageSize == 64 <==> t[0] & 4 != 0) && (a.pageSize == 1 <==> t[0] & 4 == 0)
      && a.sectorPages * a.pageSize == SectorTypes(t)[best].size
      && a.eraseSectorOpcode == SectorTypes(t)[best].opcode
      && a.name == "SFDP" && a.clock == 50000
      && a.readOpcode == 0x03 && a.pageProgOpcode == 0x02 && a.readStatusOpcode == 0x05
      && a.readyMask == 0x01 && a.readyValue == 0x00 && a.writeEnableOpcode == 0x06
  {
    var density := DensityBytes(Dword(t, 4));
    if density.Failure? then Failure(BadDensity)
    else
      var ts := SectorTypes(t);
      match BestSector(ts)
      case None => Failure(NoSectorType)
      case Some(best) =>
        UsablePages(t, best);
        var g := PageGeometry(t, ts[best].size);
        Success(Attributes("SFDP", density.value, 50000, g.0, g.1,
          0x03, 0x02, 0x05, 0x01, 0x00, 0x06, ts[best].opcode))
  }

  /** The page size 2^pow and the pages of a sector of the given size. */
  function PageGeometry(t: seq<byte>, size: nat): (g: (nat, nat))
    requires |t| == TableBytes && size % 64 == 0
    ensures (g.0 == 64 <==> t[0] & 4 != 0) && (g.0 == 1 <==> t[0] & 4 == 0)
    ensures g.1 * g.0 == size
  {
    var pow := PageSizePow(t);
    assert Pow2(0) == 1 && Pow2(6) == 64;
    (Pow2(pow), if pow == 0 then size else size / 64)
  }

  // ---------------------------------------------------------------------
  // Erase types for smart erase
  // ---------------------------------------------------------------------

  /** Offset of DWORD 8, where the erase types start. */
  const EraseTypesStart: nat := 7 * 4

  /** Erase type j is listed: its exponent is nonzero and below 64. */
  predicate EntryKept(t: seq<byte>, j: nat)
    requires |t| == TableBytes && j < 4
  {
    t[EraseTypesStart + 2 * j] != 0 && t[EraseTypesStart + 2 * j] < 64
  }

  function EntryOp(t: seq<byte>, j: nat): EraseOp
    requires |t| == TableBytes && j < 4
  {
    EraseOp(t[EraseTypesStart + 2 * j + 1], Shl1(t[EraseTypesStart + 2 * j] as nat))
  }

  /** The erase types from j on that are kept, in table order. */
  function SmartEraseOps(t: seq<byte>, j: nat): (r: seq<EraseOp>)
    requires |t| == TableBytes && j <= 4
    ensures |r| <= 4 - j
    ensures forall op :: op in r ==> exists i :: j <= i < 4 && EntryKept(t, i) && op == EntryOp(t, i)
    ensures forall i :: j <= i < 4 && EntryKept(t, i) ==> EntryOp(t, i) in r
    decreases 4 - j
  {
    if j == 4 then []
    else if EntryKept(t, j) then [EntryOp(t, j)] + SmartEraseOps(t, j + 1)
    else SmartEraseOps(t, j + 1)
  }

  /** The indices of the kept erase types from j on. */
  function KeptTypes(t: seq<byte>, j: nat): (r: set<nat>)
    requires |t| == TableBytes && j <= 4
    ensures forall i :: i in r <==> j <= i < 4 && EntryKept(t, i)
    decreases 4 - j
  {
    if j == 4 then {}
    else if EntryKept(t, j) then {j} + KeptTypes(t, j + 1)
    else KeptTypes(t, j + 1)
  }

  /** The recorded number of erase operations is the number of kept erase types. */
  lemma {:induction false} SmartEraseCount(t: seq<byte>, j: nat)
    requires |t| == TableBytes && j <= 4
    ensures |SmartEraseOps(t, j)| == |KeptTypes(t, j)|
    decreases 4 - j
  {
    if j < 4 {
      SmartEraseCount(t, j + 1);
      if EntryKept(t, j) {
        assert j !in KeptTypes(t, j + 1);
      }
    }
  }

  // ---------------------------------------------------------------------
  // Parameter headers
  // ---------------------------------------------------------------------

  /** A read of the SFDP space; a transfer that fails is a read the space does not cover. */
  function ReadSfdp(space: seq<byte>, addr: nat, n: nat): (r: Option<seq<byte>>)
    ensures r.Some? <==> addr + n <= |space|
    ensures r.Some? ==> |r.value| == n && forall i :: 0 <= i < n ==> r.value[i] == space[addr + i]
  {
    if addr + n <= |space| then Some(space[addr..addr + n]) else None
  }

  datatype Header = Header(id: byte, minor: byte, major: byte, dwords: byte, pointer: nat)

  /** Parameter header k (k >= 1) occupies the 8 bytes at 8k; the table pointer is the low 24
      bits of its second dword. */
  function HeaderAt(space: seq<byte>, k: nat): (r: Option<Header>)
    ensures r.Some? <==> 8 * k + 8 <= |space|
    ensures r.Some? ==> r.value.id == space[8 * k] && r.value.dwords == space[8 * k + 3]
    ensures r.Some? ==> (r.value.pointer < 0x100_0000
      && r.value.pointer == Val(space[8 * k + 4]) + 0x100 * Val(space[8 * k + 5]) + 0x1_0000 * Val(space[8 * k + 6]))
  {
    match ReadSfdp(space, 8 * k, 8)
    case None => None
    case Some(h) => Some(Header(h[0], h[1], h[2], h[3], Dword(h, 4) % 0x100_0000))
  }

  /** The header describes the Basic Flash Parameter Table: ID 0 and at least nine dwords. */
  predicate IsBasicTable(h: Header)
  {
    h.id == 0 && h.dwords >= 9
  }

  /** The global attributes and the flash's erase-type list, as the table last parsed left them. */
  datatype SfdpState = SfdpState(attrs: Attributes, eraseOps: seq<EraseOp>)

  /** Reading and parsing the table a basic header points to. */
  function TableState(space: seq<byte>, pointer: nat): Result<SfdpState, SfdpError>
  {
    match ReadSfdp(space, pointer, TableBytes)
    case None => Failure(ReadFailed)
    case Some(t) =>
      match ParseBfpt(t)
      case Failure(e) => Failure(e)
      case Success(a) => Success(SfdpState(a, SmartEraseOps(t, 0)))
  }

  /** How the walk reads the table a basic header points to; `TableState` in the device. */
  type TableReader = (seq<byte>, nat) -> Result<SfdpState, SfdpError>

  /** The effect of header k: an unknown header leaves the state alone. */
  function HeaderStep(space: seq<byte>, k: nat, st: SfdpState, table: TableReader): Result<SfdpState, SfdpError>
  {
    match HeaderAt(space, k)
    case None => Failure(ReadFailed)
    case Some(h) => if IsBasicTable(h) then table(space, h.pointer) else Success(st)
  }

  /** Headers k..count can all be read and none of them is a basic table. */
  predicate AllUnknown(space: seq<byte>, k: nat, count: nat)
    decreases count + 1 - k
  {
    k > count || (HeaderAt(space, k).Some? && !IsBasicTable(HeaderAt(space, k).value) && AllUnknown(space, k + 1, count))
  }

  /**
   * `read_parameter_headers`: headers k..count in turn, stopping at the first
   * error. Headers that are all readable and unknown leave the state alone.
   */
  function ReadHeaders(space: seq<byte>, count: nat, k: nat, st: SfdpState, table: TableReader): (r: Result<SfdpState, SfdpError>)
    requires 1 <= k
    decreases count + 1 - k
    ensures AllUnknown(space, k, count) ==> r == Success(st)
  {
    if k > count then Success(st)
    else
      match HeaderStep(space, k, st, table)
      case Failure(e) => Failure(e)
      case Success(s) => ReadHeaders(space, count, k + 1, s, table)
  }

  /** Only a header that cannot be read or a basic table that fails to parse stops the walk. */
  lemma {:induction false} HeadersFailure(space: seq<byte>, count: nat, k: nat, st: SfdpState, table: TableReader)
    requires 1 <= k && ReadHeaders(space, count, k, st, table).Failure?
    ensures exists j :: k <= j <= count && (HeaderAt(space, j).None? || IsBasicTable(HeaderAt(space, j).value))
    decreases count + 1 - k
  {
    if HeaderStep(space, k, st, table).Success? {
      HeadersFailure(space, count, k + 1, HeaderStep(space, k, st, table).value, table);
    }
  }

  /** A successful walk ends in the state it started from or in the one read from some basic header's table. */
  lemma {:induction false} HeadersResult(space: seq<byte>, count: nat, k: nat, st: SfdpState, table: TableReader)
    requires 1 <= k && ReadHeaders(space, count, k, st, table).Success?
    ensures var s := ReadHeaders(space, count, k, st, table).value;
      s == st || exists j :: (k <= j <= count && HeaderAt(space, j).Some? && IsBasicTable(HeaderAt(space, j).value)
        && table(space, HeaderAt(space, j).value.pointer) == Success(s))
    decreases count + 1 - k
  {
    if k <= count {
      var s := HeaderStep(space, k, st, table).value;
      HeadersResult(space, count, k + 1, s, table);
    }
  }

  /** When the last header is a basic one, a successful walk ends in the state its table gives:
      what the earlier headers set is overwritten. */
  lemma {:induction false} LastTableWins(space: seq<byte>, count: nat, k: nat, st: SfdpState, table: TableReader)
    requires 1 <= k <= count && ReadHeaders(space, count, k, st, table).Success?
    requires HeaderAt(space, count).Some? && IsBasicTable(HeaderAt(space, count).value)
    ensures ReadHeaders(space, count, k, st, table) == table(space, HeaderAt(space, count).value.pointer)
    decreases count - k
  {
    var step, next := HeaderStep(space, k, st, table), k + 1;
    assert step.Success?;
    var s := step.value;
    assert ReadHeaders(space, count, k, st, table) == ReadHeaders(space, count, next, s, table);
    if k < count {
      LastTableWins(space, count, next, s, table);
    } else {
      assert ReadHeaders(space, count, next, s, table) == Success(s);
      assert step == table(space, HeaderAt(space, count).value.pointer);
    }
  }

  // ---------------------------------------------------------------------
  // Device name
  // ---------------------------------------------------------------------

  /** A lowercase hexadecimal digit. */
  function HexDigit(d: nat): (c: char)
    requires d < 16
    ensures '0' <= c <= '9' || 'a' <= c <= 'f'
  {
    if d <= 9 then (d + 0x30) as char else (d + 0x57) as char
  }

  /** Two digits per ID byte, high nibble first. */
  function HexName(id: seq<byte>): (s: string)
    ensures |s| == 2 * |id|
    ensures forall i :: 0 <= i < |s| ==> '0' <= s[i] <= '9' || 'a' <= s[i] <= 'f'
  {
    if id == [] then ""
    else [HexDigit(Val(id[0]) / 16), HexDigit(Val(id[0]) % 16)] + HexName(id[1..])
  }

  function DigitValue(c: char): (d: nat)
    requires '0' <= c <= '9' || 'a' <= c <= 'f'
    ensures d < 16
  {
    if c <= '9' then c as nat - 0x30 else c as nat - 0x57
  }

  /** The bytes a well-formed hex name stands for. */
  function ParseHex(s: string): (id: seq<byte>)
    requires |s| % 2 == 0 && forall i :: 0 <= i < |s| ==> '0' <= s[i] <= '9' || 'a' <= s[i] <= 'f'
    ensures |id| == |s| / 2
  {
    if s == [] then []
    else [(16 * DigitValue(s[0]) + DigitValue(s[1])) as byte] + ParseHex(s[2..])
  }

  /** A byte is its two nibbles put together. */
  lemma NibblesRoundTrip(b: byte)
    ensures (16 * DigitValue(HexDigit(Val(b) / 16)) + DigitValue(HexDigit(Val(b) % 16))) as byte == b
  {
    var n := Val(b);
    DigitRoundTrip(n / 16);
    DigitRoundTrip(n % 16);
    assert 16 * (n / 16) + n % 16 == n;
  }

  lemma DigitRoundTrip(d: nat)
    requires d < 16
    ensures DigitValue(HexDigit(d)) == d
  {
  }

  /** The name determines the ID: parsing the digits gives the bytes back. */
  lemma {:induction false} HexNameRoundTrip(id: seq<byte>)
    ensures ParseHex(HexName(id)) == id
  {
    if id != [] {
      NibblesRoundTrip(id[0]);
      HexNameRoundTrip(id[1..]);
      var s := HexName(id);
      assert s[2..] == HexName(id[1..]);
    }
  }

  // ---------------------------------------------------------------------
  // Detection
  // ---------------------------------------------------------------------

  /** "SFDP" as the first little-endian dword of the SFDP space. */
  const Magic: nat := 0x5044_4653

  /** Bytes of JEDEC ID read with command 0x9f. */
  const JedecIdBytes: nat := 32

  /** The name `sfdp_detect` gives a device whose JEDEC ID was read: "SFDP_" and the detected
      bytes of the ID in hex. */
  method DeviceName(id: seq<byte>) returns (name: string)
    requires |id| == JedecIdBytes
    ensures var n := DetectedIdSize(IdLength(id), id[0]);
      && n <= |id|
      && name == "SFDP_" + HexName(id[..n])
  {
    var len := JedecIdLength(id);
    var n := DetectedIdSize(len, id[0]);
    name := "SFDP_" + HexName(id[..n]);
  }

  /** `sfdp_detect`: checks the signature, walks the byte-6 + 1 parameter headers and, when the
      JEDEC ID can be read, names the device after it. `st` is what the attributes held before
      (they are a static of the source file); `jedecId` is the ID read, None when the transfer
      fails. The result is None where the source returns NULL. */
  method Detect(space: seq<byte>, st: SfdpState, jedecId: Option<seq<byte>>) returns (r: Option<SfdpState>)
    requires jedecId.Some? ==> |jedecId.value| == JedecIdBytes
    ensures r.Some? <==> (8 <= |space| && Dword(space, 0) == Magic
      && ReadHeaders(space, space[6] as nat + 1, 1, st, TableState).Success?)
    ensures r.Some? ==>
      var s := ReadHeaders(space, space[6] as nat + 1, 1, st, TableState).value;
      && r.value.eraseOps == s.eraseOps
      && r.value.attrs == s.attrs.(name := r.value.attrs.name)
      && (jedecId.None? ==> r.value.attrs.name == s.attrs.name)
    ensures r.Some? && jedecId.Some? ==>
      var n := DetectedIdSize(IdLength(jedecId.value), jedecId.value[0]);
      && n <= |jedecId.value|
      && r.value.attrs.name == "SFDP_" + HexName(jedecId.value[..n])
  {
    // the 8-byte signature read fails when the space does not hold it
    if |space| < 8 || Dword(space, 0) != Magic {
      return None;
    }
    var walked := ReadHeaders(space, space[6] as nat + 1, 1, st, TableState);
    if walked.Failure? {
      return None;
    }
    var s := walked.value;
    if jedecId.Some? {
      var name := DeviceName(jedecId.value);
      s := s.(attrs := s.attrs.(name := name));
    }
    return Some(s);
  }
}
