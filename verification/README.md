# A Dafny model of the muhkuh flasher's core

The muhkuh flasher writes, reads, verifies and erases the flash memories
attached to Hilscher netX chips. This project models the deterministic core
of the flasher and of its build scripts in Dafny, and proves properties of
that model:

- `VersionManager` (`version_manager.dfy`): the version and dev-tag logic of
  the build script `gitVersionManager.py`. It covers the branch tests, the
  classification of `git describe` output, dev-tag numbering and creation,
  and the version strings.
- `Crc16`, `HilRom` (`crc16.dfy`, `hilrom.dfy`): the CRC-16 and HilRom
  checksums of the mhash library, with their Init/Update/Final interface.
- `InternalFlash` (`internal_flash.dfy`): the netX 90 internal-flash driver.
  It covers the area and controller tables, the address windows, page-wise
  programming with clear-only checks, and block erase.
- `SpiFlash` (`spi_flash.dfy`): the generic SPI-flash layer. It covers the
  erase-area rounding, the choice of erase operation, page-wise writing,
  verify and erased checks, and the smart-erase bitmap pass.
- `Sfdp` (`sfdp.dfy`): JEDEC id length detection and the parsing of the SFDP
  basic flash parameter table.
- `Spansion` (`spansion.dfy`): the parallel-flash driver for Spansion
  devices. It covers device identification, paired status polling, command
  replication over the bus width, and buffered programming.
- `SpiAtmega` (`spi_atmega.dfy`, with the outcome streams of `Outcomes` in
  `outcomes.dfy`): programming an ATmega over SPI. It covers command frames,
  device detection, page-wise flash writing with read-back, verify, and fuse
  access.
- `Parflash` (`parflash.dfy`): the CFI parallel-flash front end. It covers
  the size check, the sector walks of erase and image write, read, and
  verify.
- `Sqi` (`sqi.dfy`): register arithmetic of the netX 4000 SQI boot driver.
  It covers the speed encoding, installing a speed, the bus-width table,
  the SQIROM parameter checks, and the split of outgoing data into
  transfers and FIFO words.

`Wrappers` (Option/Result), `Bytes` (bytes, 32-bit words, little-endian
packing, flash contents) and `Arith` (alignment arithmetic) are shared
helpers.

Hardware is replaced by inputs:

- flash contents are byte sequences;
- the outcome of each device operation is an entry of a Boolean sequence
  (entries past its end read as success) or a predicate;
- poll results are sequences of status values;
- register field positions are a layout record;
- the git repository is a record.

Wherever C arithmetic on unsigned 32-bit values can wrap, the wrap is
written out, with these exceptions, each listed under "Left out": the
ATmega flash write requires its range to end below 2^32
(`SpiAtmega.WriteFlash`); the SPI flash write, verify and erased check work
on a flash smaller than 2^32 bytes, so the end of their range cannot wrap
(`SpiFlash.Write`, `SpiFlash.Verify`, `SpiFlash.IsErased`); and the
buffered write on a paired parallel bus requires that its doubled buffer
size does not wrap to 0 (`Spansion.FlashBufferedWrite`).

## Model

| member | source | states |
|---|---|---|
| VersionManager.ParseVersionIff | gitVersionManager.py:7-10 | `re.match` of the version pattern finds version v in s iff s starts with the text `vA.B.C` of v (all three parts non-empty digit runs) and no digit follows it |
| VersionManager.ParseVersion | gitVersionManager.py:7-10 | a version the pattern finds is well formed, its text starts the string, and no digit follows it |
| VersionManager.ParseVersionComplete | gitVersionManager.py:7-10 | a version text followed by anything but a digit is found, as that version |
| VersionManager.ParseDevTag | gitVersionManager.py:7-10 | whenever the dev-tag pattern matches, the release pattern (its prefix) also matches, on the same version |
| VersionManager.ParseDevTagIff | gitVersionManager.py:9 | the dev-tag pattern finds tag t in s iff s starts with `vA.B.C-devD` of t (D a non-empty digit run) and no digit follows it |
| VersionManager.ParseDevTagSound | gitVersionManager.py:9 | a dev tag the pattern finds is well formed, starts the string, and is not followed by a digit |
| VersionManager.ParseDevTagComplete | gitVersionManager.py:9 | a dev-tag text followed by anything but a digit is found, as that dev tag |
| VersionManager.DevBranchNameIff | gitVersionManager.py:21-22 | the dev-branch test (the anchored `^dev_v\d+\.\d+\.\d+$`) accepts a name iff it is `dev_vA.B.C`, optionally followed by one newline (Python's `$` matches before a final newline) |
| VersionManager.DevBranchSound | gitVersionManager.py:21-22 | every accepted branch name has the form `dev_vA.B.C`, with an optional final newline |
| VersionManager.DevBranchComplete | gitVersionManager.py:21-22 | every name `dev_vA.B.C`, with or without a final newline, is accepted |
| VersionManager.DevIsNotMaster | gitVersionManager.py:21-27 | no branch is both a dev branch and master |
| VersionManager.NatToString | gitVersionManager.py:110 | `str()` of a number is a non-empty digit string without leading zeros |
| VersionManager.NatToStringRoundTrip | gitVersionManager.py:110 | reading back the decimal digits of `str(n)` gives n |
| VersionManager.FindTag | gitVersionManager.py:65-69 | the tag search returns a tag of the repository with the given name, and finds nothing iff no tag has that name |
| VersionManager.LastTag | gitVersionManager.py:53-69 | `getLastTag` returns a repository tag named as the describe classification says; it fails iff the classification fails or no tag has that name |
| VersionManager.DescribedTagNameOutcomes | gitVersionManager.py:55-63 | a dev tag described on master fails; a release tag described off master fails; output matching neither pattern fails; on master the name is the release text, off master the dev-tag text (the dev test runs first, because a dev tag also matches the release pattern) |
| VersionManager.LastNumIndex | gitVersionManager.py:77 | `findall(r'\d+')[-1]` is the last number token: a number with only non-digits after it, absent iff there is no digit run |
| VersionManager.DevTagNumber | gitVersionManager.py:75-77 | `getDevTagNumber` fails iff the name does not start with a dev tag; on success the name also starts with a version |
| VersionManager.DevTagNumberOf | gitVersionManager.py:75-77 | a tag named exactly `vA.B.C-devD` has number D |
| VersionManager.LastTagIsDevTag | gitVersionManager.py:56-77 | off master the last tag is the described dev tag, and its number is the tag's dev numeral |
| VersionManager.CommitsSinceLastTag | gitVersionManager.py:83-86 | the commit count fails exactly when finding the last tag does, with the same error, and otherwise is the repository's count since that tag |
| VersionManager.CreateDevTagOnDevBranch | gitVersionManager.py:96-103 | on a dev branch with a last tag, its number always parses, and tag creation is the tagging step with that number |
| VersionManager.CreateDevTagOutcomes | gitVersionManager.py:96-115 | off a dev branch tag creation fails; a failed last-tag lookup fails with its error; a number parse failure never happens; no tag is created iff the last tag is on HEAD, and then the repository is unchanged |
| VersionManager.NewDevTagNameRoundTrip | gitVersionManager.py:109-110 | a new dev-tag name parses back to the version and the number it was built from |
| VersionManager.TagHeadNumbering | gitVersionManager.py:106-114 | a created tag is on HEAD, is appended to the tags under a name no existing tag has, carries the number advanced by the commit count, and keeps the last tag's version |
| VersionManager.TagHeadCreated | gitVersionManager.py:107-112 | the created tag is `<version>-dev<number + commits>` on HEAD |
| VersionManager.CreateDevTag | gitVersionManager.py:89-115 | `createDevTag` succeeds only on a dev branch with a last tag; a created tag is on HEAD, is appended under a name no existing tag has, and leaves the rest of the repository alone, and it is created only when the last tag is not on HEAD; without a new tag the repository is unchanged |
| VersionManager.CreateDevTagNumbering | gitVersionManager.py:89-115 | a dev tag created by `createDevTag` has the last dev number plus the commits since the last tag, and the last tag's version |
| VersionManager.VersionNumberOfLastTag | gitVersionManager.py:121-123 | the version number is found iff the last tag is, and is the `vA.B.C` the last tag's name starts with |
| VersionManager.DevEndingOnMaster | gitVersionManager.py:133-140 | on master the ending is `-<commits>`, then `+` when the tree is dirty |
| VersionManager.DevEndingOffMaster | gitVersionManager.py:133-140 | off master the ending is `-dev<D>-<commits>`, then `+` when dirty, where D is the described dev number |
| VersionManager.DevEndingDirty | gitVersionManager.py:138-139 | the ending is found iff the last tag is, and ends in `+` iff the tree is dirty |
| VersionManager.DevEndingLast | gitVersionManager.py:133-140 | a dev ending ends in a digit or `+` |
| VersionManager.Take | gitVersionManager.py:154 | `s[:7]` has at most 7 characters, is a prefix of s, and has exactly 7 when s is that long |
| VersionManager.FullVersionString | gitVersionManager.py:143-155 | a full version string starts with the version number and ends with `g` followed by the first 7 characters of the HEAD hash |
| VersionManager.FullVersionStringFound | gitVersionManager.py:151-155 | the full version string is found iff the last tag is |
| VersionManager.FullVersionStringShape | gitVersionManager.py:143-155 | the full string starts with the last tag's version, which parses back from it, and ends with `g` and the first 7 characters of the HEAD hash; the `g` directly follows the commit count or the `+`, with no hyphen in between |
| VersionManager.FullStringPieces | gitVersionManager.py:151-155 | a version, an ending and `g` plus a hash put together parse back to the version, with the hash at the end |
| Crc16.CalcCrc16 | flasher-environment/org.muhkuh.lua-mhash/libmhash/templates/lib/crc16.c:28-37 | the library's byte step (swap, xor, three shift/xor folds) equals the byte-at-a-time CRC-16 with polynomial 0x1021, most significant bit first |
| Crc16.FoldsAreReference | flasher-environment/org.muhkuh.lua-mhash/libmhash/templates/lib/crc16.c:28-37 | the swap, the xor and the three folds give the table entry (eight bit-serial steps) of the top checksum byte xor the data byte, xored with the checksum shifted left by 8 |
| Crc16.Init | flasher-environment/org.muhkuh.lua-mhash/libmhash/templates/lib/crc16.c:40-43 | a fresh context is the cleared context Final leaves behind |
| Crc16.Update | flasher-environment/org.muhkuh.lua-mhash/libmhash/templates/lib/crc16.c:46-64 | the updated checksum is the reference CRC-16 of the buffer, started from the context's checksum |
| Crc16.UpdateLoop | flasher-environment/org.muhkuh.lua-mhash/libmhash/templates/lib/crc16.c:46-64 | the update loop's result is the reference CRC of the buffer, started from the context's checksum |
| Crc16.UpdateCompose | flasher-environment/org.muhkuh.lua-mhash/libmhash/templates/lib/crc16.c:46-64 | updating with a and then b equals updating with a ++ b |
| Crc16.CrcAppend | flasher-environment/org.muhkuh.lua-mhash/libmhash/templates/lib/crc16.c:53-63 | the checksum folded over a and then b is the checksum folded over a ++ b |
| Crc16.UpdateEmpty | flasher-environment/org.muhkuh.lua-mhash/libmhash/templates/lib/crc16.c:46-64 | an empty buffer leaves the context unchanged |
| Crc16.CrcIsReference | flasher-environment/org.muhkuh.lua-mhash/libmhash/templates/lib/crc16.c:46-64 | the library's fold over a message equals the reference CRC-16 of the message |
| Crc16.Final | flasher-environment/org.muhkuh.lua-mhash/libmhash/templates/lib/crc16.c:66-81 | the digest is two bytes whose little-endian value is the checksum, and the context is cleared |
| HilRom.Init | flasher-environment/org.muhkuh.lua-mhash/libmhash/templates/lib/hilrom.c:28-33 | a fresh context has lane 0, no inversion and sum 0 |
| HilRom.InitInv | flasher-environment/org.muhkuh.lua-mhash/libmhash/templates/lib/hilrom.c:35-40 | the inverted context is the fresh context with the inversion flag set |
| HilRom.NextLane | flasher-environment/org.muhkuh.lua-mhash/libmhash/templates/lib/hilrom.c:61-63 | the byte lane advances as (k + 1) mod 4 |
| HilRom.Update | flasher-environment/org.muhkuh.lua-mhash/libmhash/templates/lib/hilrom.c:43-68 | after an update the byte lane has advanced by the buffer length, mod 4 |
| HilRom.UpdateLoop | flasher-environment/org.muhkuh.lua-mhash/libmhash/templates/lib/hilrom.c:43-68 | the update loop computes the byte-by-byte lane-shifted wrap-around sum |
| HilRom.UpdateAppend | flasher-environment/org.muhkuh.lua-mhash/libmhash/templates/lib/hilrom.c:43-68 | updating with a and then b equals updating with a ++ b, because the lane is kept in the context |
| HilRom.PartialWord | flasher-environment/org.muhkuh.lua-mhash/libmhash/templates/lib/hilrom.c:51-67 | up to four bytes fed from lane 0 add their zero-padded little-endian word and leave the lane at their count mod 4 |
| HilRom.UpdateIsWordSum | flasher-environment/org.muhkuh.lua-mhash/libmhash/templates/lib/hilrom.c:43-68 | from lane 0 the sum grows, mod 2^32, by the sum of the input's little-endian 32-bit words, the last one zero-padded |
| HilRom.Digest | flasher-environment/org.muhkuh.lua-mhash/libmhash/templates/lib/hilrom.c:74-79 | the plain digest is the sum; the inverted digest `~(sum - 1)` plus the sum is 0 mod 2^32 |
| HilRom.Final | flasher-environment/org.muhkuh.lua-mhash/libmhash/templates/lib/hilrom.c:70-90 | the digest is four bytes whose little-endian value is the digest value, and the context is cleared |
| HilRom.DigestIsWordSum | flasher-environment/org.muhkuh.lua-mhash/libmhash/templates/lib/hilrom.c:43-90 | the plain digest of a message is the wrap-around sum of its little-endian words |
| HilRom.InvertedDigestCancels | flasher-environment/org.muhkuh.lua-mhash/libmhash/templates/lib/hilrom.c:70-90 | the inverted digest of a message plus its word sum is 0 mod 2^32 |
| InternalFlash.ArraySize | src/internal_flash/internal_flash_maz_v0.c:132-237 | every array size (0x80000 main, 0x2000 info, 0x1000 InfoK, 0x100000 for the combined main area) is a whole number of 16-byte pages and of 4096-byte erase blocks |
| InternalFlash.GetController | src/internal_flash/internal_flash_maz_v0.c:117-246 | a controller is found iff the offset is below the area's array size (never for the unknown area); banks 0, 1 and 2 use unit offsets 0, 0x80000 and 0x100000; the combined area picks controller 0 below 0x80000 and controller 1 above, both with unit offset 0 |
| InternalFlash.ControllerWindow | src/internal_flash/internal_flash_maz_v0.c:221-237 | for a main area, unit offset plus offset lies inside the main array of the chosen controller, which is why the combined area keeps unit offset 0 |
| InternalFlash.FindKey | src/internal_flash/internal_flash_maz_v0.c:962-976 | the table scan returns the first row with the unit and chip select, and finds none iff no row has them |
| InternalFlash.FindArea | src/internal_flash/internal_flash_maz_v0.c:999-1032 | the lookup by area returns a row for that area, and finds none iff no row has it |
| InternalFlash.TableDistinct | src/internal_flash/internal_flash_maz_v0.c:841-927 | the (unit, chip select) keys of the table are pairwise distinct, so are its areas, and no row names the unknown area |
| InternalFlash.Detect | src/internal_flash/internal_flash_maz_v0.c:932-997 | detect reports the MAZ V0 type iff a table row has the unit and chip select, and then returns that row's attributes; otherwise zero attributes, the unknown area and the unknown type |
| InternalFlash.AreaRoundTrip | src/internal_flash/internal_flash_maz_v0.c:999-1032 | the attributes of a detected area are found again from the area alone |
| InternalFlash.DetectedSize | src/internal_flash/internal_flash_maz_v0.c:841-927 | every detected size fits its array and is a whole number of erase blocks; the page kind is InfoS iff the area is an InfoS area |
| InternalFlash.ClearsOnlyMeans | src/internal_flash/internal_flash_maz_v0.c:719-755 | the programming check `existing & (existing ^ new) == existing ^ new` holds iff no bit of the new data is 1 where the flash holds 0, i.e. iff `existing & new == new` |
| InternalFlash.ProgramReadsBack | src/internal_flash/internal_flash_maz_v0.c:804-811 | when the check passes, the programmed cells read back as the data, so the verify after programming succeeds |
| InternalFlash.FlashPage | src/internal_flash/internal_flash_maz_v0.c:669-831 | programming a page is refused (no controller, misaligned, or setting a bit) and succeeds iff the offset is inside the array, 16-byte aligned and only clears bits; on success exactly that page holds the data |
| InternalFlash.XYAddress | src/internal_flash/internal_flash_maz_v0.c:759-762 | the row X and the page Y within the row satisfy X*0x200 + Y*16 <= offset < X*0x200 + Y*16 + 16, with Y < 32 |
| InternalFlash.XYAddressExact | src/internal_flash/internal_flash_maz_v0.c:759-762 | for a page-aligned offset, X*0x200 + Y*16 is the offset itself |
| InternalFlash.ChunkLen | src/internal_flash/internal_flash_maz_v0.c:1549-1554 | a chunk is 1 to 16 bytes long, stays inside its page and the range, and ends at the range end or on a page boundary |
| InternalFlash.ChunkStep | src/internal_flash/internal_flash_maz_v0.c:1532-1616 | with the bytes before o already written, the merged page of a chunk passes the programming check iff the chunk's bytes only clear bits, and programming it extends the written prefix to the end of the chunk |
| InternalFlash.WholePage | src/internal_flash/internal_flash_maz_v0.c:1574-1577 | for a whole aligned page the merged page is the data itself |
| InternalFlash.ChunkOutcome | src/internal_flash/internal_flash_maz_v0.c:1532-1616 | programming the page of a chunk is refused only because the chunk would set a bit; otherwise the written prefix grows |
| InternalFlash.ProgramChunk | src/internal_flash/internal_flash_maz_v0.c:1532-1621 | one chunk either is refused, leaving the contents and proving that the write sets a bit, or extends the written prefix |
| InternalFlash.WholePages | src/internal_flash/internal_flash_maz_v0.c:1571-1589 | the whole-page loop ends, unless refused, with less than a page left and at an aligned offset or the end of the range |
| InternalFlash.WritePages | src/internal_flash/internal_flash_maz_v0.c:1528-1621 | the head/pages/tail segmentation succeeds iff every data byte only clears bits, and then the contents are the old ones with exactly [start, start + n) replaced by the data; on refusal the pages before the refused one are programmed |
| InternalFlash.RefusedChunk | src/internal_flash/internal_flash_maz_v0.c:1532-1621 | a chunk that would set a bit makes the whole write one that sets a bit |
| InternalFlash.SpliceOutside | src/internal_flash/internal_flash_maz_v0.c:1532-1621 | writing a prefix of the data leaves every byte outside the range as it was |
| InternalFlash.Write | src/internal_flash/internal_flash_maz_v0.c:1402-1632 | an empty write succeeds and changes nothing; an ordinary write succeeds iff the protection, hash and range checks pass and the data only clears bits, and then replaces exactly the range; InfoS areas go to the secure-page procedure iff offset 0 and 4096 bytes; a failed write changes nothing outside the range |
| InternalFlash.EraseBlock | src/internal_flash/internal_flash_maz_v0.c:576-667 | erasing a block succeeds iff its offset is inside the array and 4096-aligned, and the block then reads 0xff whether or not it was already erased |
| InternalFlash.Erase | src/internal_flash/internal_flash_maz_v0.c:1634-1764 | erase succeeds iff the range is empty, or the info protection passes and either (InfoS) offset 0 with 4096 bytes and, for the COM page, the KEK bytes [0x740, 0x800) all 0xff, or (other areas) the range is inside the area with both ends 4096-aligned; InfoS erases 8192 bytes, other areas exactly the range; on failure nothing changes |
| InternalFlash.EraseBlocks | src/internal_flash/internal_flash_maz_v0.c:1746-1755 | the block loop erases exactly [first, last) |
| InternalFlash.GetEraseArea | src/internal_flash/internal_flash_maz_v0.c:2230-2270 | the request is accepted iff start <= end, start < size and end <= size (the `check_command_area` rule); the result rounds start down and end up to 4096-byte boundaries, so it contains the request and adds less than a block at each end |
| InternalFlash.EraseAreaAccepted | src/internal_flash/internal_flash_maz_v0.c:2230-2270 | for an ordinary area whose size is a whole number of blocks, erase accepts the widened range |
| SpiFlash.GetEraseArea | src/flasher_spi.c:1098-1122 | the start is rounded down to a sector boundary; when end + sectorSize - 1 does not wrap, the end is rounded up to the next sector boundary at most one sector past it |
| SpiFlash.EraseAreaSmallest | src/flasher_spi.c:1109-1115 | the rounded area lies inside every sector-aligned area that holds the range |
| SpiFlash.EraseAreaWraps | src/flasher_spi.c:1112-1115 | an end in the last 4 KiB sector below 2^32 rounds up past 2^32 and wraps to 0 |
| SpiFlash.WidenToSectors | src/flasher_spi.c:438-458 | the fallback moves the start down to its sector boundary and the end up to the next one, the end in 32-bit arithmetic |
| SpiFlash.ChooseErase | src/flasher_spi.c:396-458 | page erase is used iff the range is not sector aligned, a page erase opcode exists and both ends are page aligned; the plan's chunk is the page or sector size, its start and end are chunk-aligned and cover the request, and an aligned request is kept as it is |
| SpiFlash.EraseLoop | src/flasher_spi.c:466-491 | the loop succeeds iff no erase command it issues fails; otherwise it stops at the first failing address, and the flash is erased from the start up to where it stopped |
| SpiFlash.NextStep | src/flasher_spi.c:467-486 | stepping one chunk past a command that did not fail skips no failing command |
| SpiFlash.Erase | src/flasher_spi.c:810-823 | erasing succeeds iff no command of the chosen plan fails, and then the whole plan range reads 0xff with the rest of the flash unchanged |
| SpiFlash.ProgrammedNothing | src/flasher_spi.c:79-85 | before any page is written the flash is unchanged |
| SpiFlash.ProgramPage | src/flasher_spi.c:106-189 | a page program only clears bits, never more than the buffer asks for; an erased byte takes the buffer's byte, and bytes outside the page are untouched |
| SpiFlash.Overlay | src/flasher_spi.c:106-173 | the page a write sends is the page of the flash image with the data written over it |
| SpiFlash.ProgramStep | src/flasher_spi.c:106-189 | programming one overlay page extends the programmed range to the end of the page or of the data |
| SpiFlash.HeadIsOverlay | src/flasher_spi.c:106-115 | the head buffer (the page read back with the first bytes of the data copied in at the offset) is the overlay page |
| SpiFlash.FullIsOverlay | src/flasher_spi.c:141-144 | a whole page is sent straight from the data, and that is the overlay page |
| SpiFlash.TailIsOverlay | src/flasher_spi.c:165-173 | the tail buffer (the remaining data followed by the rest of the page read back) is the overlay page |
| SpiFlash.WriteHead | src/flasher_spi.c:87-136 | an unaligned start programs the head page; on success the write continues at the next page boundary or the end, on failure nothing is programmed and the head page is the failing one |
| SpiFlash.HeadStep | src/flasher_spi.c:106-118 | writing the head page programs the data up to the end of that page or of the data |
| SpiFlash.HeadClean | src/flasher_spi.c:87-136 | after the head page only pages from the next boundary remain to be written |
| SpiFlash.FullStep | src/flasher_spi.c:141-155 | a whole page extends the programmed range by one page |
| SpiFlash.NextClean | src/flasher_spi.c:141-155 | a page written without failure moves the clean bound one page on |
| SpiFlash.WriteFullPages | src/flasher_spi.c:138-160 | the loop writes whole pages while more than a page remains, stopping at the first page write that fails |
| SpiFlash.TailStep | src/flasher_spi.c:162-189 | the last page programs the remaining data and leaves the rest of the page as it was |
| SpiFlash.AllClean | src/flasher_spi.c:138-191 | once every page below the current one is clean and the current one is the last, no page write fails |
| SpiFlash.WriteTail | src/flasher_spi.c:162-189 | remaining bytes are written with one page; the write succeeds iff no page write of the whole range fails |
| SpiFlash.Write | src/flasher_spi.c:50-202 | the write is refused when the page exceeds the buffer; otherwise it succeeds iff no page write fails, and the flash is programmed from the start up to where it stopped, the failing page being the first one |
| SpiFlash.NextReadsOk | src/flasher_spi.c:229-262 | a successful segment read moves the read-ok bound on by the segment |
| SpiFlash.Segment | src/flasher_spi.c:231-236 | a segment is the rest of the range, at most one buffer, and shorter only at the end |
| SpiFlash.Verify | src/flasher_spi.c:205-273 | verify succeeds iff the flash range equals the data and no segment read fails |
| SpiFlash.IsErased | src/flasher_spi.c:984-1074 | the result is 0xff iff every byte of the range is 0xff and no read fails; any other value means a byte is not 0xff; a read error gives no result |
| SpiFlash.ScanSegment | src/flasher_spi.c:1027-1041 | the AND over a segment stays 0xff iff the whole segment is erased |
| SpiFlash.Flash | src/flasher_spi.c:517-537 | a successful flash leaves the data in the range; on an erased range with no failing write or read and a page that fits the buffer it succeeds and leaves exactly the data spliced in |
| SpiFlash.ProgramOntoErased | src/flasher_spi.c:517-537 | programming an erased range leaves exactly the data there and nothing else changed |
| SpiFlash.WrittenBit | src/flasher_spi.c:572-586 | writing a bit of a word sets it for a value of at least 1, clears it otherwise, and changes no other bit |
| SpiFlash.ReadBit | src/flasher_spi.c:595-601 | a read bit is 0 or 1 |
| SpiFlash.UpdateRead | src/flasher_spi.c:595-601 | replacing one bitmap word changes only the reads of positions in that word |
| SpiFlash.WordRead | src/flasher_spi.c:572-601 | reading back the written position gives the written value, and every other position reads as before |
| SpiFlash.WriteBit | src/flasher_spi.c:572-586 | the written bit reads back as 1 for a value of at least 1 and 0 otherwise, and no other bit changes |
| SpiFlash.SectorIsEmpty | src/flasher_spi.c:550-563 | a sector is empty iff every byte is 0xff |
| SpiFlash.SmartSectorSize | src/flasher_spi.c:634-642 | the sector size is page size times pages per sector in 32 bits, capped at the buffer size, and 0 iff that product wraps to 0 |
| SpiFlash.KeptOps | src/flasher_spi.c:647-668 | the largest instructions are dropped while their window does not fit the bitmap; the last kept one fits |
| SpiFlash.SmartSetupOf | src/flasher_spi.c:618-668 | no instructions, a zero sector size, and "no instruction fits" (the fall-back to plain erase) are told apart exactly; otherwise the window is set by the largest instruction that fits, with fewer sectors than the bitmap holds |
| SpiFlash.View | src/flasher_spi.c:595-601 | the view has one flag per bitmap bit, set iff the bit reads 1 |
| SpiFlash.ViewWrite | src/flasher_spi.c:572-601 | writing a bitmap bit updates exactly that flag of the view |
| SpiFlash.CountEmptyBounds | src/flasher_spi.c:742-748 | the empty count of a group is 0 iff every sector holds data, and the group size iff none does |
| SpiFlash.CountEmptySame | src/flasher_spi.c:742-748 | two maps that agree on a group count the same empties there |
| SpiFlash.ClearGroup | src/flasher_spi.c:766-769 | erasing a group clears exactly its flags |
| SpiFlash.GroupsApart | src/flasher_spi.c:738-740 | later groups start after earlier ones end |
| SpiFlash.GroupsInside | src/flasher_spi.c:730-740 | all whole groups of an instruction lie inside the window |
| SpiFlash.AfterGroup | src/flasher_spi.c:741-772 | a group's decision only clears flags, only within the group, and clears the whole group when it is erased |
| SpiFlash.GroupPassClears | src/flasher_spi.c:738-773 | the pass over one instruction's groups only ever clears flags |
| SpiFlash.LaterGroupsUnchanged | src/flasher_spi.c:738-773 | deciding one group leaves the empty count of every later group unchanged |
| SpiFlash.GroupPassDecides | src/flasher_spi.c:752-756 | a group is erased iff at most 20% of its sectors are empty and the window is not a partial one, or none of its sectors is empty |
| SpiFlash.ErasedGroupsClear | src/flasher_spi.c:755-769 | every erased group is clear afterwards |
| SpiFlash.ErasedGroupsHeldData | src/flasher_spi.c:755 | no group is erased whose sectors were all empty |
| SpiFlash.Commands | src/flasher_spi.c:757-759 | one command per erased group, with the instruction's opcode and the group's address in the window |
| SpiFlash.WindowPass | src/flasher_spi.c:718-735 | the pass ends with the error iff one of the instructions covers at least one sector but fits no whole group into the window |
| SpiFlash.WindowPassClears | src/flasher_spi.c:718-774 | the window pass only ever clears flags |
| SpiFlash.OneSectorClearsWindow | src/flasher_spi.c:718-774 | with a one-sector instruction among those kept, no sector of the window holds data after the pass |
| Sfdp.FirstRepeat | src/sfdp.c:388-426 | the first step from k on at which the bytes repeat (two whole copies at least, each byte equal to the one a period before), the array length when there is none, and no period before it |
| Sfdp.IdLength | src/sfdp.c:382-428 | the detected length is the shortest period of the bytes, or all of them; no shorter step is a period |
| Sfdp.BlockRepeats | src/sfdp.c:403-418 | two whole copies of the first block make the following bytes repeat with that period |
| Sfdp.NotRepeat | src/sfdp.c:389-401 | a byte that differs from the one a period before, or a copy that does not fit, rules that period out |
| Sfdp.CheckRepeat | src/sfdp.c:403-422 | the check over the rest of the bytes succeeds iff the whole array repeats with period k (and, when the first copy does not fit twice, iff the array is exactly two copies) |
| Sfdp.FirstRepeatSkip | src/sfdp.c:388-426 | moving past a step that is no period leaves the detected length unchanged |
| Sfdp.IsRepeat | src/sfdp.c:389-423 | one step of the loop finds a repetition iff the bytes repeat with period k |
| Sfdp.JedecIdLength | src/sfdp.c:382-428 | with every comparison kept in the buffer, the result is the shortest period of the ID bytes, or their number |
| Sfdp.ComparePrefix | src/sfdp.c:395-402 | the prefix comparison counts the leading ID bytes the k bytes at the pointer reproduce, and stops at the first mismatch |
| Sfdp.PeekInside | src/sfdp.c:395-396 | bytes read inside the buffer are the buffer's |
| Sfdp.StepAsWritten | src/sfdp.c:388-424 | one step as written finds period k iff the bytes repeat with it, unless the comparison reads past the buffer, which a last byte equal to the first forces |
| Sfdp.JedecIdLengthAsWritten | src/sfdp.c:382-428 | as written the result agrees with the shortest period unless a byte past the buffer was read; an ID whose last byte alone repeats the first always reads past the buffer |
| Sfdp.DetectedIdSize | src/sfdp.c:477-491 | a length in [3, 8] is kept, a single 0x00 or 0xff byte gives 0, anything else 3 |
| Sfdp.Shl1 | src/sfdp.c:169 | `1U << e` is 2^e while that fits 32 bits, and 0 beyond |
| Sfdp.DensityBytes | src/sfdp.c:207-232 | a density below 2^31 gives (v + 1) / 8 bytes and is refused unless v + 1 is a multiple of 8; from 2^31 on the exponent must be at least 3 and the size is 2^(exponent - 3) |
| Sfdp.SectorTypes | src/sfdp.c:253-260 | the table lists four sector types |
| Sfdp.BestSector | src/sfdp.c:262-282 | the chosen sector type is usable (a nonzero opcode, at least 256 bytes), no usable type is smaller, the first of equal smallest ones wins, and there is none iff no type is usable |
| Sfdp.UsablePages | src/sfdp.c:286 | a usable sector size is a whole number of 64-byte pages |
| Sfdp.ParseBfpt | src/sfdp.c:186-293 | parsing fails iff the density is refused or no sector type is usable; on success the size, page size (64 iff bit 2 of the first dword is set, 1 otherwise), sector pages times page size equal to the chosen type's size, its opcode and the fixed defaults are those of the table |
| Sfdp.SmartEraseOps | src/sfdp.c:163-174 | the erase list holds exactly the table entries with a nonzero exponent below 64, in table order |
| Sfdp.SmartEraseCount | src/sfdp.c:164-174 | the recorded number of erase operations is the number of kept entries |
| Sfdp.ReadSfdp | src/sfdp.c:60-112 | a read returns the n bytes at the address, and fails iff the space does not cover them |
| Sfdp.HeaderAt | src/sfdp.c:322-336 | header k is the 8 bytes at 8k: its id, its length in dwords and the low 24 bits of its second dword as the table pointer |
| Sfdp.ReadHeaders | src/sfdp.c:316-357 | headers that can all be read and none of which is a basic table with at least 9 dwords leave the state unchanged |
| Sfdp.HeadersFailure | src/sfdp.c:316-357 | the walk fails only at a header that cannot be read or a basic table that fails to parse |
| Sfdp.HeadersResult | src/sfdp.c:316-357 | a successful walk ends in the state it started from or in the one parsed from some basic header's table |
| Sfdp.LastTableWins | src/sfdp.c:316-357 | when the last header is a basic table, a successful walk ends in the state that table gives |
| Sfdp.HexName | src/sfdp.c:569-594 | the name has two lowercase hex digits per ID byte |
| Sfdp.HexNameRoundTrip | src/sfdp.c:569-594 | parsing the hex digits of the name gives the ID bytes back |
| Sfdp.DeviceName | src/sfdp.c:558-597 | the name is "SFDP_" followed by the detected bytes of the ID in hex |
| Sfdp.Detect | src/sfdp.c:502-597 | detection succeeds iff the signature is 0x50444653 and the walk over byte-6 + 1 headers succeeds; the erase list and attributes are those of the walk, with the name replaced only when the JEDEC ID was read |
| Spansion.ElementBytes | src/spansion.c:1062-1077 | an element of the bus is 1, 2 or 4 bytes |
| Spansion.Identify | src/spansion.c:226-291 | a device is identified iff the manufacturer code is Spansion, Eon or Macronix; the unlock is replaced by the dummy iff a valid extended query has version 1.x with x below 5 and a protection scheme below 5 |
| Spansion.IdentifyNamesDistinct | src/spansion.c:244-261 | each of the three manufacturers gets its own name |
| Spansion.PollStep | src/spansion.c:446-487 | a finished device keeps its state; a busy one becomes Ok iff DQ6 stops toggling; DQ5 set in both reads while toggling moves Busy0 to Busy1, and Busy1 still toggling becomes Failed |
| Spansion.DeviceCount | src/spansion.c:357-392 | one device, or two on a paired 16- or 32-bit bus |
| Spansion.SecondDeviceMasks | src/spansion.c:353-392 | the second device's DQ5 and DQ6 masks are nonzero iff two devices share the bus, and then are the first device's moved up by one device width |
| Spansion.Round | src/spansion.c:443-493 | an absent second device is not polled |
| Spansion.Poll | src/spansion.c:398-494 | the loop ends only when every active device has finished; an absent second device keeps its state |
| Spansion.FailedNeedsTimeLimit | src/spansion.c:457-480 | a device that ends Failed saw DQ5 set in both reads of some poll |
| Spansion.QuietBusFinishes | src/spansion.c:449-456 | a first poll without toggling ends the wait at once with the active devices Ok |
| Spansion.WaitDoneAsWritten | src/spansion.c:503-534 | as written, the verdict is success or device failure, given once the polling ends |
| Spansion.SingleDeviceNeverSucceeds | src/spansion.c:395-396 | with one device the second status stays Busy0, so the verdict as written is never success |
| Spansion.IdleByteDeviceReportedFailed | src/spansion.c:503-534 | an idle 8-bit device read back correctly is reported failed as written |
| Spansion.WaitDone | src/spansion.c:503-534 | the intended verdict is success iff every active device ended Ok and the readback equals the data |
| Spansion.WaitDoneAgreesWhenPaired | src/spansion.c:503-534 | on a two-device bus the intended verdict and the verdict as written agree |
| Spansion.IdleByteDeviceAccepted | src/spansion.c:503-534 | the idle 8-bit device is accepted by the intended verdict |
| Spansion.CommandReplicated16 | src/spansion.c:1267-1274 | on a paired 16-bit bus both bytes of the bus word carry the command |
| Spansion.CommandReplicated32 | src/spansion.c:1276-1283 | on a paired 32-bit bus both halfwords carry the command |
| Spansion.CommandWord | src/spansion.c:1260-1284 | a single device receives a command that fits its bus width unchanged |
| Spansion.Isset | src/spansion.c:1316-1337 | with a single device the test passes iff the bus value has every bit of the set mask and no bit of the clear mask |
| Spansion.IssetPaired16Sound | src/spansion.c:1316-1337 | on a paired 16-bit bus a passing test means each device's byte passes |
| Spansion.IssetPaired16Complete | src/spansion.c:1316-1337 | on a paired 16-bit bus the test passes when each device's byte passes |
| Spansion.IssetPaired32Sound | src/spansion.c:1325-1337 | on a paired 32-bit bus a passing test means each device's halfword passes |
| Spansion.IssetPaired32Complete | src/spansion.c:1325-1337 | on a paired 32-bit bus the test passes when each device's halfword passes |
| Spansion.PaddedIsRoundUp | src/spansion.c:1056-1087 | without a carry, the padding adds less than one element and moves the end to the next multiple of the bus width; an aligned end is left alone |
| Spansion.PaddedLength | src/spansion.c:1056-1087 | a request whose end is aligned to the bus width keeps its length |
| Spansion.StartProgram | src/spansion.c:1053-1098 | the only error is an invalid parameter: no sector holds the start, or the start plus the padded length passes the end of the flash; on success the offset is taken from the sector start |
| Spansion.StartProgramAccepts | src/spansion.c:1053-1098 | a request inside the flash with an aligned end is accepted without padding |
| Spansion.StartProgramRejects | src/spansion.c:1095-1098 | a request past the end of the flash is rejected |
| Spansion.SplitProgramAligned | src/spansion.c:1105-1145 | the unbuffered head and the buffered rest make up the request; the rest starts on a buffer boundary, in the next sector at offset 0 when the head filled the sector |
| Spansion.SplitProgram | src/spansion.c:1105-1145 | the unbuffered head and the buffered rest make up the request, the rest lies in the same sector or the next, and a device without a write buffer gets no buffered rest |
| Spansion.ElementCount | src/spansion.c:933-935 | for a whole, non-empty number of elements the count sent is one less than the number of elements; less than one element wraps to 0xffffffff |
| Spansion.Chunks | src/spansion.c:913-1017 | every chunk fits the buffer and its sector, the chunk sizes add up to the length, and the first chunk starts at the start position |
| Spansion.ChunksContiguous | src/spansion.c:942-1016 | each chunk starts where the previous one ended, moving to offset 0 of the next sector at a sector end |
| Spansion.ChunksFull | src/spansion.c:917-929 | every chunk but the last fills the buffer or reaches the end of its sector |
| Spansion.ChunksAligned | src/spansion.c:917-986 | when the buffer, the sectors, the start and the length are multiples of the bus width, so is every chunk |
| Spansion.BufferedWrite | src/spansion.c:989-1009 | chunks are written in order, and the first failing wait ends the write with its error |
| Spansion.BufferedWriteSucceeds | src/spansion.c:913-1020 | the buffered write succeeds iff every wait succeeds |
| Spansion.BufferedOutcome | src/spansion.c:989-1009 | with one wait per chunk, the write succeeds iff every chunk's wait succeeds, exactly when it gets through all chunks; otherwise it stops at the first failing wait and returns that wait's error |
| Spansion.FlashBufferedWrite | src/spansion.c:882-1021 | the chunks written are a prefix of the chunking with the device's buffer (doubled on a paired bus); every chunk fits the buffer and its sector; the write succeeds iff the wait after every chunk succeeds, and then the chunks cover the whole length; on failure the last chunk written is the one whose wait failed, and every earlier wait succeeded |
| Spansion.PairedChunkDoubled | src/spansion.c:904-920 | on a paired bus, when the doubled buffer does not wrap and the sector and length have room, the first chunk is twice one device's buffer |
| Outcomes.Run | src/spi_atmega.c:1349-1368 | the reference behaviour of a command sequence: the operations issued are a prefix of those planned, all of them on success |
| Outcomes.RunOk | src/spi_atmega.c:1349-1374 | a run succeeds iff the exchanges of all its operations succeed |
| Outcomes.RunStopsAtFailure | src/spi_atmega.c:1349-1368 | a failed run ends with the first failing operation, every earlier one having succeeded |
| Outcomes.RunCons | src/spi_atmega.c:1349-1368 | a run issues its first operation and continues only when that exchange succeeded |
| Outcomes.RunAppend | src/spi_atmega.c:1110-1171 | running two parts in turn runs the second only when the first succeeded |
| SpiAtmega.BuildFrame | src/spi_atmega.c:210-270 | the frame keeps the command byte and carries the given fourth byte; the 8-bit form changes only byte 2, no parameter changes nothing, and an unknown parameter type builds no frame |
| SpiAtmega.ParamRoundTrip | src/spi_atmega.c:225-247 | the 16-bit form carries the whole parameter and the 8-bit form its low byte |
| SpiAtmega.Command | src/spi_atmega.c:210-270 | an unknown parameter type sends nothing and fails; otherwise one frame is sent, and a successful exchange yields the fourth received byte |
| SpiAtmega.ProgramEnable | src/spi_atmega.c:283-296 | programming mode is entered iff the exchange succeeds and the third received byte echoes 0x53 |
| SpiAtmega.ProgramByteRequest | src/spi_atmega.c:546-587 | a byte address selects the word address (below 0x8000) and the low-byte instruction for an even address, the high-byte one for an odd address |
| SpiAtmega.ProgramByteRoundTrip | src/spi_atmega.c:546-587 | below 64 KiB the word address and the instruction give the byte address back |
| SpiAtmega.ProgramByteAliases | src/spi_atmega.c:548 | byte addresses 64 KiB apart reach the same word, because the address is cut to 16 bits before the shift |
| SpiAtmega.ATMega16Consistent | src/spi_atmega.c:72-120 | the ATmega16 entry's ID fits the signature buffer, its low and high instructions differ, and its flash is a whole number of pages |
| SpiAtmega.ReadDeviceId | src/spi_atmega.c:596-621 | for IDs shorter than 256 bytes, or longer than the buffer: an ID longer than the buffer fails before any exchange; otherwise the read succeeds iff every signature exchange succeeds, and then holds the fourth received byte of each; a failure stops at the first failing exchange |
| SpiAtmega.Detect | src/spi_atmega.c:742-830 | a type is detected iff programming mode is entered and every signature byte is read and equals the table's ID |
| SpiAtmega.FirstDetected | src/spi_atmega.c:833-865 | the detected type is the first table entry whose detection succeeds, and there is none iff no entry is detected |
| SpiAtmega.PageOpRequest | src/spi_atmega.c:1143-1157 | every page operation uses the 16-bit form; a byte load carries the byte |
| SpiAtmega.PageWordAgreesBelow64K | src/spi_atmega.c:1157 | the commit's word address (cut after the shift) agrees with the byte loads' (cut before) exactly below 64 KiB |
| SpiAtmega.FillPage | src/spi_atmega.c:1123-1150 | the fill advances by a whole page when it succeeds, and ends early, without advancing past the failure, when a read-back or load fails |
| SpiAtmega.FillIsRun | src/spi_atmega.c:1123-1150 | filling a page with the data pointer in step is the reference run of that page |
| SpiAtmega.WritePagesIsRun | src/spi_atmega.c:1110-1171 | the corrected outer loop is the reference run of the remaining pages |
| SpiAtmega.WriteFlash | src/spi_atmega.c:1089-1185 | the corrected write issues exactly the reference operations up to the first failing exchange: every page in range is loaded with the data inside [start, end) and the flash read back around it, then committed |
| SpiAtmega.FillNoFailure | src/spi_atmega.c:1123-1150 | without failing exchanges every fill completes |
| SpiAtmega.AsWrittenAgreesWithoutFailures | src/spi_atmega.c:1110-1171 | without failing exchanges the loop as written and the corrected loop agree |
| SpiAtmega.WritePagesAsWritten | src/spi_atmega.c:1110-1171 | as written, the loop reports success only when it had nothing to do and started from success, or when its last exchange was a page commit |
| SpiAtmega.WriteFlashAsWritten | src/spi_atmega.c:1089-1185 | without failing exchanges the write as written is the corrected write |
| SpiAtmega.MisplacedByteAsWritten | src/spi_atmega.c:1132-1171 | as written, a failed read-back refills the page from the failing address and commits it: the data byte lands at the wrong buffer offset and the write reports success |
| SpiAtmega.MisplacedByteCorrected | src/spi_atmega.c:1132-1148 | corrected, the same write stops at the failed read-back and reports an error |
| SpiAtmega.Span | src/spi_atmega.c:1047-1082 | the length of a range is end - start in 32-bit arithmetic |
| SpiAtmega.ReadFlash | src/spi_atmega.c:1047-1082 | the read succeeds iff every byte's exchange succeeds; the bytes read are the flash's, and a failure stops at the first failing exchange |
| SpiAtmega.VerifyFlash | src/spi_atmega.c:1191-1246 | the command fails iff a read fails before any difference; otherwise its message says whether all bytes are equal |
| SpiAtmega.WriteFuses | src/spi_atmega.c:1343-1381 | only the flagged fuse bytes are written, low, high then extended, and a failure skips the rest: the fuse write is the reference run of the flagged list |
| SpiAtmega.ReadFuses | src/spi_atmega.c:1282-1337 | the lock bits and the low, high and extended fuse bytes are read in that order, each with its own exchange of the device's read opcode and a zero fourth byte, even after a failure; each value is the fourth received byte, and the command succeeds iff all four exchanges do |
| Parflash.SectorsOrdered | src/cfi_flash.h:89-94 | in a table of sectors laid end to end, a sector ends no later than any later sector starts |
| Parflash.SectorInside | src/cfi_flash.h:89-94 | every sector lies inside the flash |
| Parflash.NextSector | src/cfi_flash.h:89-94 | a sector that ends before the end of the flash is followed by the sector starting at its end |
| Parflash.BelowIsRange | src/parflash_common.c:305-325 | the sectors starting below a limit are consecutive from the start sector, and are exactly those whose offset is below the limit |
| Parflash.CheckSize | src/parflash_common.c:105-132 | the image fits iff its length is at most the flash size minus the start sector's offset, that difference taken in 32 bits |
| Parflash.CheckSizeFits | src/parflash_common.c:115-127 | for sectors inside the flash, the check accepts exactly the lengths that end inside the flash |
| Parflash.Segment | src/parflash_common.c:319-320 | a step handles the smaller of the bytes left and the sector size |
| Parflash.EraseWalk | src/parflash_common.c:305-325 | the erase loop erases consecutive sectors from the start sector on, and a failure is that of its last erase |
| Parflash.EraseWalkIsRun | src/parflash_common.c:305-325 | the erase loop erases, in order, the sectors starting below the end of the range, stopping at the first failure |
| Parflash.Erase | src/parflash_common.c:274-334 | an erase fails only after a failing sector erase, a size check that fails, or a failed unlock |
| Parflash.EraseCovers | src/parflash_common.c:274-334 | an erase that fits and is unlocked erases the sectors overlapping the range in address order until the first failure, and succeeds iff every one of them is erased |
| Parflash.EraseRejects | src/parflash_common.c:292-303 | a range too long for the flash, or a flash that fails to unlock, erases nothing and fails |
| Parflash.Indices | src/parflash_common.c:305-325 | the sector numbers in order |
| Parflash.EraseAllFromFirst | src/parflash_common.c:287-290 | the length 0xffffffff from the first sector erases every sector, in order |
| Parflash.EraseAllFromLaterFails | src/parflash_common.c:287-293 | the length 0xffffffff from any later sector is rejected by the size check |
| Parflash.ProgramWalk | src/parflash_common.c:194-228 | the write loop starts with the erase of the start sector, a successful loop ends with a program request, and a failure is that of its last request |
| Parflash.ProgramWalkPaired | src/parflash_common.c:194-228 | the write loop erases each sector just before programming it |
| Parflash.ProgramWalkUnfold | src/parflash_common.c:194-228 | one step of the write loop: a failed erase ends it after the erase, a failed program ends it after the pair, and otherwise it erases the sector, programs the next segment at the sector's offset and goes on with the next sector |
| Parflash.ProgramWalkPlaced | src/parflash_common.c:208-224 | data byte k is programmed at the start sector's offset plus k |
| Parflash.ProgramWalkWrites | src/parflash_common.c:194-228 | a write loop that succeeds programs all the data |
| Parflash.ProgramWalkIsRun | src/parflash_common.c:194-228 | the loop with failures is the loop without failures cut off after the first failed request |
| Parflash.WriteImage | src/parflash_common.c:178-187 | with the corrected comparison: a write that does not fit or fails to unlock issues nothing and fails |
| Parflash.WriteImageSpec | src/parflash_common.c:161-271 | with the corrected comparison: a write that fits and is unlocked erases and programs sector by sector from the start sector with each byte in its place, stops at the first failed request, and when every request succeeded succeeds iff the flash from its base holds the data |
| Parflash.WriteImageAsWritten | src/parflash_common.c:161-187 | as written, a write that does not fit or fails to unlock issues nothing and fails |
| Parflash.WriteImageVerdicts | src/parflash_common.c:231-264 | the write as written and the corrected write issue the same requests; their verdicts differ iff the write fits, is unlocked, every request succeeded and the flash differs from the image in its last byte only |
| Parflash.ScanAsWritten | src/parflash_common.c:406-413 | as written the scan steps past each compared byte and stops on a difference or at the end |
| Parflash.VerifyAsWritten | src/parflash_common.c:403-426 | as written the image is accepted iff all bytes but the last agree |
| Parflash.MatchFrom | src/parflash_common.c:403-426 | the window agrees with the data from an index on |
| Parflash.Verify | src/parflash_common.c:382-428 | the corrected comparison accepts iff the flash starts with the image |
| Parflash.LastByteMismatchAccepted | src/parflash_common.c:406-422 | a one-byte image that differs from the flash is accepted as written and rejected by the corrected comparison |
| Parflash.VerifyAsWrittenDiffers | src/parflash_common.c:406-422 | the two comparisons differ exactly when only the last byte differs |
| Parflash.Read | src/parflash_common.c:337-379 | the read succeeds iff the length fits from the start sector, and then returns that many bytes |
| Parflash.VerifyImage | src/parflash_common.c:382-428 | with the corrected comparison: verification succeeds iff the length fits from the start sector and the flash from its base holds the image |
| Parflash.VerifyImageAsWritten | src/parflash_common.c:382-428 | as written, verification succeeds iff the length fits from the start sector and the flash from its base agrees with every byte of the image but the last |
| Parflash.VerifyImageVerdicts | src/parflash_common.c:403-425 | the verification as written and the corrected one disagree iff the length fits and the flash differs from the image in its last byte only |
| Parflash.ReadThenVerify | src/parflash_common.c:337-428 | whatever is read back verifies |
| Parflash.StartSectorOnlyChecksSize | src/parflash_common.c:358-369 | the start sector only decides the size check: two start sectors that both pass read and verify the same bytes |
| Sqi.MulAdd | src/netx4000_sqi_test/boot_drv_sqi.c:58-77 | the multiply-add value is the clamped speed times 4096 over 100000, rounded down, and at most 2048 |
| Sqi.MulAddExact | src/netx4000_sqi_test/boot_drv_sqi.c:66-76 | after the clamp the 32-bit product never wraps, so the value is the exact rounded-down quotient |
| Sqi.MulAddClamps | src/netx4000_sqi_test/boot_drv_sqi.c:66-70 | every speed from 50000 kHz on gets the value of 50000 kHz |
| Sqi.MulAddMonotone | src/netx4000_sqi_test/boot_drv_sqi.c:66-76 | a faster clock never gets a smaller value |
| Sqi.PutApart | src/netx4000_sqi_test/boot_drv_sqi.c:628-647 | writing one register field leaves a field apart from it unchanged |
| Sqi.SpeedRepresentation | src/netx4000_sqi_test/boot_drv_sqi.c:58-92 | the representation holds the multiply-add value in its field and the input-filter bit iff the value is at most 0x200, with every other bit clear |
| Sqi.MergeSpeed | src/netx4000_sqi_test/boot_drv_sqi.c:636-646 | control register 0 takes the speed bits from the representation and keeps every other bit |
| Sqi.SetNewSpeed | src/netx4000_sqi_test/boot_drv_sqi.c:615-647 | a representation with no bit set or with a bit outside the speed bits is rejected; otherwise the speed bits take its value and every other bit of control register 0 stays |
| Sqi.RepresentationAccepted | src/netx4000_sqi_test/boot_drv_sqi.c:58-92 | every computed representation is accepted, and control register 0 then holds that speed and keeps its other bits |
| Sqi.SetBusWidth | src/netx4000_sqi_test/boot_drv_sqi.c:655-707 | widths 1, 2 and 4 bits set the transfer mode to 0, 1 and 2 and the SIO configuration to 1 only for 4 bits, changing no other bit; any other width is rejected |
| Sqi.BusWidthReadBack | src/netx4000_sqi_test/boot_drv_sqi.c:668-702 | the mode field tells the selected width back |
| Sqi.ByteModeIffOneBit | src/netx4000_sqi_test/boot_drv_sqi.c:668-702 | after a width is selected, data goes byte by byte iff the width is one bit |
| Sqi.BusWidthKeepsSpeed | src/netx4000_sqi_test/boot_drv_sqi.c:690-702 | selecting a width leaves the speed bits alone |
| Sqi.RomConfig | src/netx4000_sqi_test/boot_drv_sqi.c:714-800 | no configuration when the dummy cycles exceed 15 or the address nibbles lie outside 5..8; otherwise the address bits are clamped into 20..26 and stored from 20, the nibbles stored from 5, with mode byte 0xa5 sent after the address |
| Sqi.RomConfigRoundTrip | src/netx4000_sqi_test/boot_drv_sqi.c:724-745 | every realisable parameter set is encoded without loss |
| Sqi.RomParametersRoundTrip | src/netx4000_sqi_test/boot_drv_sqi.c:724-745 | decoding an enabled configuration and encoding it again gives the same configuration |
| Sqi.PackWord | src/netx4000_sqi_test/boot_drv_sqi.c:341-366 | up to four bytes form one FIFO word, the first byte in the low bits |
| Sqi.Pack | src/netx4000_sqi_test/boot_drv_sqi.c:341-366 | the bytes take (n + 3) / 4 FIFO words |
| Sqi.UnpackPack | src/netx4000_sqi_test/boot_drv_sqi.c:341-366 | unpacking the FIFO words gives the bytes back, followed by padding |
| Sqi.NarrowWiden | src/netx4000_sqi_test/boot_drv_sqi.c:311-339 | the low bytes of the byte-mode FIFO writes are the bytes |
| Sqi.FifoWrites | src/netx4000_sqi_test/boot_drv_sqi.c:311-366 | a transfer takes one FIFO write per byte in byte mode, otherwise one per four bytes, rounded up |
| Sqi.SendData | src/netx4000_sqi_test/boot_drv_sqi.c:275-373 | no data means no transfer |
| Sqi.Transfers | src/netx4000_sqi_test/boot_drv_sqi.c:288-295 | there are no transfers iff there is no data |
| Sqi.SendDataSizes | src/netx4000_sqi_test/boot_drv_sqi.c:288-295 | the transfer sizes add up to the data length, each is positive and at most the limit, and all but the last use the full limit |
| Sqi.SendDataDelivers | src/netx4000_sqi_test/boot_drv_sqi.c:275-373 | the bytes carried by the FIFO writes of all transfers are the data, in order |
| Sqi.SendDataWrites | src/netx4000_sqi_test/boot_drv_sqi.c:311-366 | each transfer takes one FIFO write per byte in byte mode and one per four bytes otherwise |

## Left out

- Hardware access: memory-mapped registers, the `HOSTMSK`/`HOSTSRT` field masks (a `Layout` record in `Sqi`), DSB/ISB barriers, GPIO resets and SPI/SQI FIFO handshakes. They have no logic of their own to prove; their results are inputs. The exception is the internal flash array, which is modelled as ideal (see `InternalFlash.EraseBlock` and `InternalFlash.FlashPage` under "Left out").
- Delays and busy-waits (`delay_us`, the unbounded poll loops): each poll is one transition step over a given sequence of status reads, because timing is outside the model.
- Progress bars and `uprintf`/`DEBUGMSG` console output: they do not affect any result.
- git access in `gitVersionManager.py` (`describe`, `rev_list`, `is_dirty`, tag creation): the repository is a record, and creating a tag is modelled as adding a (name, HEAD) pair, which fails iff the name is already taken.
- `getCurrentBranch` (gitVersionManager.py:33-42): the detached-head fallback asks git for the branch, so the branch name is an input.
- VersionManager: `\d` is modelled as an ASCII digit; Python's `re` also accepts other Unicode decimal digits, which git tag names do not contain in practice.
- The SHA-1 and SHA-384 hashes of the info pages (`infoS_update_hash`, `infoS_check_hash`) and the hardware random fill of `infoS_patch_IF1`: these are foreign calls. The hash check is a Boolean input, and a write to a secure InfoS page only returns the outcome of the secure-page procedure; the patch-and-hash steps are not modelled.
- The info-page write-protection check (`check_info_write_protection`) reads protection registers, so its verdict is a Boolean input.
- Internal-flash read, SHA-1, verify and is-erased entry points: they copy or compare memory-mapped bytes and add no request logic beyond the range check, which is modelled.
- InternalFlash.EraseBlock: the flash array is ideal, so an erase always leaves the block erased. The post-erase check (src/internal_flash/internal_flash_maz_v0.c:650-659) therefore always passes, and its error is not modelled.
- InternalFlash.FlashPage: the flash array is ideal, so a page program always stores the requested bits. The read-back comparison (src/internal_flash/internal_flash_maz_v0.c:804-820) therefore always passes, and its verify error is not modelled.
- `spi_read` and `spi_sha1` in `flasher_spi.c`: plain transfers with no range logic of their own.
- SpiFlash.Write: the flash is required to be smaller than 2^32 bytes, so `ulC + ulDataByteLen` (src/flasher_spi.c:81) cannot wrap; when it wraps in the source, the page loop runs no page and reports success.
- SpiFlash.Verify: the flash is required to be smaller than 2^32 bytes, so the end `ulC + ulDataByteLen` (src/flasher_spi.c:223) cannot wrap; when it wraps in the source, `while( ulC<ulE )` (src/flasher_spi.c:229) compares nothing and verify succeeds.
- SpiFlash.IsErased: the flash is required to be smaller than 2^32 bytes, as its 32-bit addresses imply; the source takes the start and end addresses directly (src/flasher_spi.c:984), so no sum wraps there.
- SpiFlash.Write: the head and tail pages are merged with the flash contents directly; the source first reads them back through the SPI layer, and a failure of that read, which ends the write with an error, is not modelled.
- SpiFlash: a page size or sector size of 0 is required away (the driver divides by both without a check, which is undefined behaviour in C).
- SpiFlash smart erase: the walk over windows of sectors, which reads each sector through the SPI layer, is modelled one window at a time (the bitmap pass and the per-group erase decision); the reads are inputs, and a failing erase command inside a window is not modelled.
- `read_sfdp` and the SPI transfers of `sfdp.c`: the SFDP address space is a byte sequence, and a failed transfer is a read beyond its end.
- Sfdp: `1U << e` with `e` of 32 or more is undefined in C and is modelled as 0.
- Sfdp.DeviceName: it uses the corrected `JedecIdLength`. The length as written differs only when its comparison reads past the ID buffer, which is undefined behaviour in C.
- Sfdp.Detect: the erase-instruction table `tSpiErase` (an opcode and a size per entry) is filled by the driver before the density and sector checks can fail (src/sfdp.c:157-177), so a failed parse leaves it modified; the model returns None and says nothing about the table then. A successful parse gives the table as `eraseOps`.
- Sfdp.SmartEraseOps: the kept erase types are listed in table order; the driver then sorts them with the smallest first (`spi_sort_erase_entries`, src/sfdp.c:177), and that sort is not modelled.
- `spi_sort_erase_entries` (called at src/sfdp.c:177) is not part of this model: the kept smart-erase entries are described as a set of table entries, not in their sorted order.
- `cfi_find_matching_sector_index` (the sector lookup of `spansion.c`) is not part of this model; the sector found is an input.
- Spansion: the buffer mask `& (size - 1)` is modelled as `% size`; the two agree because the CFI buffer size is a power of two.
- Spansion.FlashBufferedWrite: the doubled buffer size of a paired bus is wrapped to 32 bits (`BufferBytes`), but a wrap to 0, which happens only for a per-device buffer of 2^31 bytes, is required away, like a device without a write buffer: the source then writes chunks of 0 bytes forever. The caller only takes the buffered path for a device with a write buffer (`Spansion.SplitProgram`).
- Spansion: the non-buffered `FlashProgram` path, `FlashWaitEraseDone`, `FlashUnlock`, `FlashReset` and the write-abort sequences write command cycles to the bus and are not modelled.
- Spansion.StartProgram: start plus padded length is compared with the flash size after a 32-bit wrap, as in the source, so an oversized request whose end wraps is accepted; the contract therefore bounds the end by the flash size only when that sum does not carry.
- SpiAtmega: chip erase, EEPROM access and lock bits are not among the modelled operations; they are single commands with no logic beyond `atmega_command`.
- SpiAtmega.WriteFlash: the job is required to end, with its last page, below 2^32 (start + size + page size <= 2^32). The 32-bit wrap of the end address `ulFlashEndAdr` (src/spi_atmega.c:1100) and of the page address is therefore not modelled. A range that wraps would make the source write nothing, or step its page address past 0xffffffff. The same bound applies to `SpiAtmega.WriteFlashAsWritten`.
- SpiAtmega.ReadDeviceId: an ID of 256 bytes or more that fits the buffer is required away. The signature index is an 8-bit counter that wraps from 255 to 0, so the source would never finish reading such an ID.
- Parflash: the sector table is required to be tiled (sectors laid end to end from offset 0, inside the flash), and the start sector to be an index into the table; the CFI layer guarantees both.
- Parflash: unlocking, erasing and programming through the `pfnUnlock`/`pfnErase`/`pfnProgram` drivers are outcome inputs, because the drivers are device specific.
- Parflash.WriteImage: the image is programmed at the start sector's offset but read back from the flash base; the two agree only for start sector 0. This is modelled as written (`StartSectorOnlyChecksSize`). The final comparison of `WriteImage` is the corrected one, which also checks the last byte; the comparison as written is in `WriteImageAsWritten`, and `WriteImageVerdicts` states where the two verdicts differ.
- Parflash.WriteImageSpec: it is stated for `WriteImage`, with the corrected comparison; as written, the verdict is also a success when only the last byte of the image differs from the flash (`WriteImageVerdicts`).
- Parflash.VerifyImage: it uses the corrected comparison; `parflash_verify` as written is `VerifyImageAsWritten`, and `VerifyImageVerdicts` states where the two differ.
- The clock-divider part of `qsi_get_device_specific_sqirom_cfg` (src/netx4000_sqi_test/boot_drv_sqi.c:748-770): it reads `ulFreqKHz` before anything assigns it (line 722), so its result is not determined by the inputs.
- Sqi.SendData: in single-bit mode the FIFO fill-level polling only paces the byte writes, so it is left out; the maximum transaction size is a parameter.
- Crc16: the table-free step is proved equal to the table-driven CRC-16 byte step with polynomial 0x1021 (`CalcCrc16`). That step's table entry is eight bit-serial steps applied to the top byte. Its equality with eight bit-serial steps applied to `crc ^ (data << 8)` (linearity) is not stated, and neither is any other algebraic property of the CRC, such as error detection.
- `reset.c` (watchdog writes with floating-point timeouts), `board.c` (static unit tables) and `netx4000_sqi_test.c` (a hardware bring-up sequence): hardware only.
- The regression test scripts, the build and packaging scripts, the libarchive Lua wrapper and `mhash_state`: test, build and library plumbing outside the flasher's logic.

## Findings

| source | as written | input that shows it | evidently intended | confidence | as-written member | corrected member |
|---|---|---|---|---|---|---|
| src/sfdp.c:388-402 | when a later ID byte equals the first one, the prefix comparison goes on from that position for as long as the bytes match, up to the length of the prefix, even past the end of the ID buffer | the ID bytes [1, 2, 3, 1]: at index 3 the comparison reads index 4, beyond the 4-byte buffer, and further bytes while they match | compare only bytes inside the buffer; a prefix that does not fit is not a repetition | not executed | Sfdp.JedecIdLengthAsWritten | Sfdp.JedecIdLength |
| src/spansion.c:503-534 | success needs both status slots Ok, but with one device on the bus the second slot is never polled and stays busy | an 8-bit device, status reads [(0, 0)] and read-back equal to the data: reported as a device failure | only the slots of the devices present decide | not executed | Spansion.IdleByteDeviceReportedFailed | Spansion.IdleByteDeviceAccepted |
| src/parflash_common.c:404-425 | the comparison loop stops when the pointer reaches the end, after comparing the last byte but without checking its result | image [0x00] over flash [0x01]: reported as verified | every byte of the image is compared, the last one included | not executed | Parflash.LastByteMismatchAccepted | Parflash.VerifyAsWrittenDiffers |
| src/spi_atmega.c:1110-1171 | a failed read-back or page-buffer load only leaves the inner loop; the outer loop continues from the current address, so the page is refilled from the middle and the write reports success | start 2, one data byte 0x11, page size 4, and the third exchange (the read-back of address 1) failing: 0x11 is loaded at page offset 1 instead of 2 | a failed exchange ends the write with an error | not executed | SpiAtmega.MisplacedByteAsWritten | SpiAtmega.MisplacedByteCorrected |
