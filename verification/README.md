# Verified models of libgphoto2

This project models seven parts of libgphoto2 in Dafny and proves what they promise, for all inputs and all runs.
`dafny verify dfyconfig.toml` checks everything. Each part has its specification (functions and predicates), the
imperative form of the code with its contracts, and lemmas about the specification. Where code and specification share
a small function (a byte order, a table, a choice), a lemma says in numbers or by a law of its own what it does.

1. **AX203 picture frames** (`Eeprom`, `DirtySectors`, `SectorCache`, `FileTable`, `Allocation`, `PictureStore`,
   `PictureFrame`, `StoreRun`, `UnalignedPictures`). A NOR flash whose commands may fail, a lazily filled write-back
   cache of its sectors, a file table in three binary formats, and a first-fit allocator that defragments. The top
   result: any session of reads, writes, deletions, defragmentations and commits acts on the frame as on a map from
   slots to bytes.
2. **AX206 JPEG entropy decoding** (`BitString`, `Huffman`, `HuffmanTable`, `BitReader`, `HuffmanDecoder`,
   `JpegBlock`, `JpegMcu`, `JpegUnits`, `JpegDecoder`, `JpegLaws`). Nine-bit lookup and slow lists against canonical
   decoding of ITU-T T.81, run lengths, byte realignment of each unit, and the way from an encoder of section F.1.2
   back to its coefficients.
3. **Canon checksum and serial line** (`Crc`, `SerialFrame`, `SerialPacket`, `SerialMessage`, `SerialLaws`). The table
   method of RFC 1662 section C.2, byte stuffing, packets, and messages put together under error recovery.
4. **4x4 delta code** (`YuvDelta`, `YuvImage`, `YuvLaws`). A closed-loop quantiser with bit packing, whose decoder
   does not drift, and its error bounds.
5. **Canon capture interrupts** (`CaptureInterrupts`, `CaptureEarly`). Which interrupts make a capture succeed.
6. **Camera handles** (`CameraHandle`, `CameraOrder`, `CameraRuns`, `CameraLifecycle`). Operations, callbacks of
   drivers, postponed exits, the count of users, and the last reference.
7. **Demosaicing** (`AhdDemosaic`, `AhdLaws`, `AhdWindow`). Two sliding windows that overwrite the image row by row
   compute what whole-image interpolation would.

## Conventions

- Errors are values: `Wrappers.Result` carries the error codes. Device commands of a frame may fail at any time; a
  ghost counter `faults` counts them, so that contracts say `r == Failure(Io)` exactly if a command has failed.
- What clocks, ports, cameras and drivers do is a parameter: a sequence of reads, packets or interrupts, or what a
  driver calls back. It is arbitrary unless a contract says otherwise.
- Bytes are integers from 0 to 255 where the code does arithmetic on them, and bit-vectors where it shifts and masks
  checksums. Integers are unbounded except where the code relies on a width: 16-bit coefficients, signed and unsigned
  bytes, 16-bit sizes in file tables, sequence numbers that wrap around.

## What does not hold as one might expect

- AX203 frames whose pictures do not fill whole units of 256 bytes (132x132 pixels, and in the delta code also 120x160
  and 160x120) cannot keep two pictures behind each other: a write fails although there is space, and a
  defragmentation can lose all files but the first. `PictureStore.WhichWritesSucceed`, `PictureFrame.Frame.Defrag` and
  `UnalignedPictures` give the exact conditions and an example, and `StoreRun.FilesSurvive` what is still safe.
- A commit that fails in the middle of a block has cleared dirty flags after the erase, so repeating it need not
  repair the flash: with one dirty sector at the start of a block and no 4 KiB sectors, it never does
  (`DirtySectors.FailureThatStays`). `DirtySectors.SafeBlock` is the exact condition on the dirty flags before the
  commit (`DirtySectors.SafeExactly`). Under it a commit may fail any number of times (`SectorCache.Cache.Session`).
  It holds always for chips that are programmed in blocks of 64 KiB, and for those with 4 KiB sectors while no block
  has twelve dirty sectors. `DirtySectors.RepairedAfterInterruption` tells from the flags after a failure whether all
  is well.
- A Huffman code of ten bits or more with the value zero ends the list it is in. `HuffmanDecoder.AllVisible`: this
  happens exactly if there is no code of nine bits or less. With fewer than nine bits left no code is found, however
  short.
- The comment at `libgphoto2/ahd_bayer.c:561-569` says that row 4 of the windows is fully interpolated before the main
  loop; it has its greens only, as in the model.
- Row 0 of an image has no scores, and the sums of the first and last column include a byte from outside the scores,
  which is any byte in the model.
- A client that calls `gp_camera_init` on an open camera initialises the driver twice. If that fails before the
  driver's own initialisation, the library is lost, and the driver is not left when the handle goes. While a client
  initialises a camera, an exit, the return of the last reference or a supported operation by the driver is not
  postponed. `CameraOrder.Spoils` is the exact condition (`CameraRuns.RunInOrder`). A driver that leaves the camera
  then is left more often than it was initialised (`CameraRuns.LeftTooOften`); `CameraRuns.RunCounts` says exactly
  when.
- Where a camera is not found on the USB, `gp_camera_init` releases it (`libgphoto2/gphoto2-camera.c:803`), although
  its caller does so too, or has not used it. The count of users, a byte, is 255 then: operations are busy, exits are
  postponed, and the last reference does not free the handle (`CameraRuns.StuckHandle`), exactly as long as the number
  of such failures is not a multiple of 256 (`CameraRuns.WorksExactly`).
- On a protected chip that is not programmed in blocks of 64 KiB, nothing removes the protection: a commit succeeds,
  makes all sectors clean and changes nothing (`SectorCache.Cache.Locked`, `SectorCache.Cache.Commit`).
- In error recovery, an EOT that repeats the number of the one before gives an empty message (`SerialMessage.Empty`),
  or none at all while there is no buffer yet.

## Model

| member | source | states |
|---|---|---|
| `Eeprom.Device.Erase` | camlibs/ax203/ax203.c:366-392 | a 4K or 64K erase on a write-enabled, unprotected chip leaves 0xFF in its range, and changes nothing outside it whether it works or not |
| `Eeprom.Device.ProgramPage` | camlibs/ax203/ax203.c:332-345 | programming can only clear bits, within the page |
| `Eeprom.ProgrammedBits` | camlibs/ax203/ax203.c:332-345 | bit by bit: set afterwards exactly if it was set and is set in the data |
| `Eeprom.Device.ClearBlockProtection` | camlibs/ax203/ax203.c:355-364 | the protection goes exactly if the write enable latch was set |
| `SectorCache.Cache.CheckSectorPresent` | camlibs/ax203/ax203.c:516-535 | fails with corrupted data exactly beyond the memory, else the sector is present; sectors that were present stay so; the view does not change |
| `SectorCache.Cache.ReadMem` | camlibs/ax203/ax203.c:537-558 | for any offset and length, the bytes of the flat view, whatever has been loaded; corrupted data exactly beyond its end |
| `SectorCache.Cache.WriteMem` | camlibs/ax203/ax203.c:560-583 | for any offset and length, the flat view is overwritten up to its end; dirty sectors stay present, clean ones equal to the flash; and what a later commit would repair, it still would |
| `SectorCache.WriteInPieces` | camlibs/ax203/ax203.c:560-583 | a write cut at sector boundaries is the same write, also where it runs over the end |
| `SectorCache.Cache.CommitBlock4k` | camlibs/ax203/ax203.c:1569-1587 | on success the dirty sectors of the block are programmed with the view and clean; even on failure its clean sectors are as before, those that have become clean hold the view, and nothing outside the block changes |
| `SectorCache.Cache.CommitBlock64k` | camlibs/ax203/ax203.c:1589-1611 | a number of sectors, all of them exactly on success, are clean and hold the view; the flags of the others are as before; nothing outside the block changes |
| `SectorCache.Cache.CommitBlock64kAtOnce` | camlibs/ax203/ax203.c:1615-1674 | on success the block, programmed with one command after its protection was removed, holds the view and is clean; on failure all dirty flags are as before |
| `SectorCache.Cache.CommitBlock` | camlibs/ax203/ax203.c:1688-1707 | the cheapest of the three ways for the number of dirty sectors; whether it fails or not, the block is left as the chosen way leaves it |
| `SectorCache.Cache.Commit` | camlibs/ax203/ax203.c:1676-1709 | succeeds exactly if no device command fails; then no sector is dirty and the flash holds the view in every programmed sector and its old bytes elsewhere; blocks without dirty sectors are never touched; flash and view are equal after a success from a repairable state, and a failure on safe dirty flags leaves a state that is repairable and safe again; all this but for a protected chip that is not programmed in 64 KiB blocks, on which a success changes nothing in the flash |
| `SectorCache.Cache.Session` | camlibs/ax203/ax203.c:560-1709 | writes and attempts to commit in any number and order: a commit that succeeds leaves the view in the flash, if those that failed before started from safe dirty flags; with one command per block they always do; chips that stay protected excepted |
| `DirtySectors.CommitInNumbers` | camlibs/ax203/ax203.c:1679-1709 | in numbers, which bytes a commit programs: those of 64 KiB blocks with a dirty sector of 4096 bytes, in whole with twelve dirty sectors, without erasable 4 KiB sectors or with one command per block, else those of the dirty sectors |
| `DirtySectors.SafeExactly` | camlibs/ax203/ax203.c:1589-1611 | the guard on the dirty flags of a block (programmed with one command; or few enough dirty sectors to be erased one by one; or behind every clean sector enough dirty ones) holds if and only if the next successful commit repairs whatever a failed one may leave |
| `DirtySectors.SafeWithout4k` | camlibs/ax203/ax203.c:1589-1611 | without erasable 4 KiB sectors the guard says that the block is clean or its last sector is dirty |
| `DirtySectors.StepKeepsRecoverable` | camlibs/ax203/ax203.c:1569-1676 | under the guard, every way of committing a block, failed or not, leaves a block that is repairable and meets the guard again |
| `DirtySectors.WriteKeepsRecoverable` | camlibs/ax203/ax203.c:571-576 | a write never makes a repairable memory unrepairable |
| `DirtySectors.RepairedAfterInterruption` | camlibs/ax203/ax203.c:1589-1611 | after a block failed in the middle, the next success certainly repairs it if and only if enough sectors are still dirty (one, or twelve where 4 KiB sectors can be erased) or no sector behind the last programmed one was clean |
| `DirtySectors.FailureThatStays` | camlibs/ax203/ax203.c:1589-1611 | a dirty sector in front of fifteen clean ones, without 4 KiB sectors: a failure behind it leaves nothing dirty, and the block is never repaired |
| `FileTable.SlotRoundTrip` | camlibs/ax203/ax203.c:852-976 | in all three formats, an entry that is written is read back as it was exactly if the format can express it |
| `FileTable.WriteSlot` | camlibs/ax203/ax203.c:852-976 | writing one slot gives what is read back from it and changes no other slot below the maximal count |
| `FileTable.SlotFrame` | camlibs/ax203/ax203.h:34-44 | an entry depends on the bytes of its slot only |
| `FileTable.SlotInTable` | camlibs/ax203/ax203.h:34-44 | every slot lies behind the count byte, inside the 4 KiB table and below the picture area |
| `FileTable.SlotInBytes` | camlibs/ax203/ax203.c:821-995 | byte by byte, what an entry says about address, size and presence in each format, and where its bytes stand |
| `FileTable.EncodedInBytes` | camlibs/ax203/ax203.c:868-976 | byte by byte, what is written for an entry in each format, and when it cannot be |
| `FileTable.LayoutInNumbers` | camlibs/ax203/ax203.h:33-44 | where the pictures lie and how many there can be, in each format |
| `FileTable.ChangeKeepsFixed` | camlibs/ax203/ax203.c:1540-1566 | a change elsewhere keeps every byte in front of the slots but the count byte, those between table and pictures, and the boot loader of the AX3003 |
| `PictureStore.AreaInNumbers` | camlibs/ax203/ax203.c:1377-1438 | pictures go behind the table and, on the AX3003, in front of the boot loader |
| `PictureStore.CountByteIsIgnored` | camlibs/ax203/ax203.c:817-828 | the count byte changes no entry and no picture |
| `PictureStore.FileDataKeepsTable` | camlibs/ax203/ax203.h:34-44 | bytes in the picture area change no entry |
| `PictureStore.FileCountUnique` | camlibs/ax203/ax203.c:995-1017 | the file count is one more than the last slot in use, and nothing else is |
| `PictureStore.ZeroedTable` | camlibs/ax203/ax203.c:1540-1566 | zeros behind the table header make every slot absent, in all three formats |
| `PictureFrame.Frame.ReadFileinfo` | camlibs/ax203/ax203.c:852-1056 | the entry of the slot, or bad parameters for an index outside the table |
| `PictureFrame.Frame.WriteFileinfo` | camlibs/ax203/ax203.c:868-976 | succeeds exactly if the entry can be encoded; then it is read back, all others are unchanged, and so is the picture area |
| `PictureFrame.Frame.UpdateFilecount` | camlibs/ax203/ax203.c:995-1017 | stores the count where the format has one, and changes neither entries nor pictures |
| `PictureFrame.Frame.ReadRawFile` | camlibs/ax203/ax203.c:1322-1354 | the bytes of the file for a present slot, bad parameters for an absent one, and nothing changes |
| `PictureStore.ReadReturnsFile` | camlibs/ax203/ax203.c:1322-1354 | in a well-formed store that is the file of the slot |
| `PictureFrame.Frame.DeleteFile` | camlibs/ax203/ax203.c:1520-1538 | succeeds exactly for a present file; removes it and no other, keeps the store well formed, and frees exactly its size |
| `PictureFrame.Frame.DeleteAll` | camlibs/ax203/ax203.c:1540-1566 | leaves a well-formed empty store; whether it works or not, every byte below the slots but the count byte is kept, the mark of the file system included, as is the boot loader of the AX3003 |
| `PictureFrame.SortTable` | camlibs/ax203/ax203.c:1377-1383 | sorts the table by address; stands in for the library sort |
| `Allocation.SortedIsChain` | camlibs/ax203/ax203.c:1377-1438 | sorting disjoint regions gives the same regions, each ending before the next begins |
| `PictureFrame.Frame.BuildUsedMemTable` | camlibs/ax203/ax203.c:1385-1438 | the reserved area, all present files by address, and the end of usable memory |
| `Allocation.HolesTelescope` | camlibs/ax203/ax203.c:1817-1835 | the holes of any prefix add up to what its regions leave |
| `Allocation.HolesAreFreeBytes` | camlibs/ax203/ax203.c:1817-1835 | the holes of a well-formed store add up to its end less the reserved area less the sizes of all files |
| `PictureFrame.Frame.GetFreeMemSize` | camlibs/ax203/ax203.c:1819-1835 | returns exactly the free bytes, however they are scattered |
| `PictureFrame.FindHole` | camlibs/ax203/ax203.c:1470-1488 | the first hole that is large enough, or the sum of all holes if there is none |
| `Allocation.FirstHoleIsFirstFree` | camlibs/ax203/ax203.c:1470-1488 | the address behind the region in front of that hole is the lowest at which the file fits anywhere |
| `Allocation.SmallHolesHaveNoRoom` | camlibs/ax203/ax203.c:1470-1488 | if no hole between neighbours is large enough, there is no room at any address |
| `Allocation.PackedFirstFree` | camlibs/ax203/ax203.c:1488-1498 | in a packed store the lowest room is behind the last file, and a file fits exactly if the free bytes suffice |
| `Allocation.StoreKeepsPacked` | camlibs/ax203/ax203.c:1300-1311 | first fit into a packed store keeps it packed |
| `PictureFrame.Frame.WriteRawFile` | camlibs/ax203/ax203.c:1458-1500 | terminates, with one defragmentation at most; no space exactly if the summed free space is smaller than the file, and then nothing changes; success exactly as characterised below, and then the slot holds the file, all others are as before, and the space in use grows by the size; the first fit is used where there is one; whatever happens, the bytes that belong neither to slots nor to pictures are kept |
| `PictureStore.WhichWritesSucceed` | camlibs/ax203/ax203.c:1458-1500 | writing succeeds exactly if there are enough free bytes and the picture fills whole units of 256 bytes or lands at the start of the picture area |
| `PictureStore.SecondTryDecides` | camlibs/ax203/ax203.c:1488-1498 | after a defragmentation the second search finds room, so the retry is taken once only |
| `PictureFrame.Frame.Defrag` | camlibs/ax203/ax203.c:1265-1320 | succeeds exactly if the files can be repacked; then the files and the space in use are the same and the store is packed; otherwise only the first file is left; header, boot loader and all else outside slots and pictures are kept in any case |
| `PictureFrame.Frame.WriteBack` | camlibs/ax203/ax203.c:1300-1311 | a write inside a defragmentation goes behind the files written so far and does not defragment again |
| `PictureFrame.Frame.ReadAll` | camlibs/ax203/ax203.c:1275-1296 | all entries and the bytes of all present files before the store is emptied |
| `PictureStore.OnlyFirstFileLeft` | camlibs/ax203/ax203.c:1300-1318 | if a file cannot be written back, exactly the file of the lowest slot in use survives |
| `PictureFrame.Frame.FindFreeAbfsSlot` | camlibs/ax203/ax203.c:1441-1456 | the lowest absent slot, or no space exactly if there is none |
| `PictureFrame.Frame.WriteFile` | camlibs/ax203/ax203.c:1502-1518 | stores the encoded picture in the lowest free slot and changes no other |
| `StoreRun.WritesDependOnFiles` | camlibs/ax203/ax203.c:1458-1500 | with pictures in whole units, which writes succeed depends on the files alone, not on where they lie |
| `StoreRun.Execute` | camlibs/ax203/ax203.c:1265-1566 | every operation acts as on a map from slots to bytes; on frames whose pictures do not fill whole units, it may also refuse a write, or lose all files but the first, within the stated limits; what a commit would repair, it still would |
| `StoreRun.Run` | camlibs/ax203/ax203.c:1265-1709 | so does every sequence of operations on every frame, through reads and commits that fail: the replies and the final files are those of the map, step by step, and the store stays well formed; no byte outside slots, count and pictures changes, even where a device command fails; a commit that succeeds leaves the files in the flash, if those that failed before started from safe dirty flags |
| `StoreRun.FilesSurvive` | camlibs/ax203/ax203.c:1458-1500 | on every frame, a file that is neither written to nor deleted survives, unless pictures do not fill whole units, there are two files or more, and the operation is refused |
| `StoreRun.RepackDependsOnFiles` | camlibs/ax203/ax203.c:1265-1320 | whether a defragmentation succeeds depends on the number of files alone |
| `UnalignedPictures.UnalignedDisplays` | camlibs/ax203/ax203.c:594-780 | which of the display sizes break the rule of whole units |
| `UnalignedPictures.DefragmentationCanLoseFiles` | camlibs/ax203/ax203.c:1265-1320 | memory images of a 512 KiB frame, with a cleared table and two written slots, on which a write fails and loses a picture |
| `UnalignedPictures.LargeFilesAreTruncated` | camlibs/ax203/ax203.c:910-926 | why the size of an AX206 file has to stay below 65536 |
| `BitReader.Reader.FillNbits` | camlibs/ax203/tinyjpeg.c:126-141 | succeeds exactly if the stream has the bits; the reading position does not change |
| `BitReader.Reader.LookNbits` | camlibs/ax203/tinyjpeg.c:154-157 | the next bits of the stream, without consuming them |
| `BitReader.Reader.SkipNbits` | camlibs/ax203/tinyjpeg.c:166-169 | consumes bits that are in the reservoir |
| `BitReader.Reader.GetNbits` | camlibs/ax203/tinyjpeg.c:144-152 | the next bits as a signed magnitude (EXTEND), consumed |
| `BitReader.Reader.Realign` | camlibs/ax203/tinyjpeg.c:544-547 | moves to the next byte boundary, giving whole bytes back |
| `BitString.WindowSplit` | camlibs/ax203/tinyjpeg.c:144-169 | shifting and masking the reservoir gives the two parts of a stretch of bits |
| `JpegLaws.StreamInNumbers` | camlibs/ax203/tinyjpeg.c:126-141 | the bits of a byte, the most significant one first |
| `Huffman.CodesOrdered` | camlibs/ax203/tinyjpeg.c:318-332 | no code is a prefix of a later one, and codes increase |
| `JpegLaws.CodeFollows` | camlibs/ax203/tinyjpeg.c:313-332 | the first code is zero, and each other one is the code before it plus one, extended by zeros to its length |
| `Huffman.CodeDecodes` | camlibs/ax203/tinyjpeg.c:318-332 | every code decodes to its length by the procedure of ITU-T T.81, section F.2.2.3 |
| `Huffman.DecodesACode` | camlibs/ax203/tinyjpeg.c:318-332 | whatever decodes is a code |
| `Huffman.CodeAtUnique` | camlibs/ax203/tinyjpeg.c:318-332 | at most one code starts at any place of any stream |
| `Huffman.DecodeFindsTheCode` | camlibs/ax203/tinyjpeg.c:318-332 | the procedure of section F.2.2.3 succeeds exactly where a code starts, and gives its length |
| `HuffmanTable.CodeSizes` | camlibs/ax203/tinyjpeg.c:298-307 | the list of code lengths (HUFFSIZE), closed by a zero |
| `HuffmanTable.CodeValues` | camlibs/ax203/tinyjpeg.c:313-332 | the canonical codes (HUFFCODE) |
| `HuffmanTable.Table.EnterShort` | camlibs/ax203/tinyjpeg.c:342-352 | fills exactly the stretch of the lookup table that starts with the code |
| `HuffmanTable.Table.EnterLong` | camlibs/ax203/tinyjpeg.c:353-367 | appends code and value to the list of that length |
| `HuffmanTable.Table.Terminate` | camlibs/ax203/tinyjpeg.c:370-371 | closes every list with a zero and leaves the entries alone |
| `HuffmanTable.Table.Build` | camlibs/ax203/tinyjpeg.c:288-374 | succeeds exactly if no list of long codes has more than 127; then the tables stand for the whole code |
| `HuffmanDecoder.LookupFinds` | camlibs/ax203/tinyjpeg.c:192-199 | a hit in the lookup table is the code at this place, with its symbol and length |
| `HuffmanDecoder.LookupMisses` | camlibs/ax203/tinyjpeg.c:192-199 | a miss means that no code of nine bits or less starts here |
| `HuffmanDecoder.SearchList` | camlibs/ax203/tinyjpeg.c:206-214 | finds the code in its list; if it does not, no code that a list can show has this length and value |
| `HuffmanDecoder.AllVisible` | camlibs/ax203/tinyjpeg.c:209-214 | no code is hidden behind the zero that ends a list exactly if there is a code of nine bits or less |
| `HuffmanDecoder.SymbolIsDecoded` | camlibs/ax203/tinyjpeg.c:186-221 | what fast decoding finds is the code that section F.2.2.3 finds, with its index and length; it finds one exactly if that does, nine bits are left, and the code is not one of zeros behind the lookup table |
| `HuffmanDecoder.FastIsCanonical` | camlibs/ax203/tinyjpeg.c:186-221 | with a code of nine bits or less, it finds one exactly if nine bits are left and section F.2.2.3 finds one |
| `HuffmanDecoder.SymbolsRoundTrip` | camlibs/ax203/tinyjpeg.c:186-221 | any list of codes with eight bits behind it is decoded to its symbols |
| `HuffmanDecoder.GetNextHuffmanCode` | camlibs/ax203/tinyjpeg.c:186-221 | for every stream and position, success, symbol and consumed bits are those of section F.2.2.3; it also fails with fewer than nine bits left and, if all codes are longer, at a code of zeros |
| `JpegBlock.MagnitudeRoundTrip` | camlibs/ax203/tinyjpeg.c:144-152 | the magnitude bits of a value read back as the value |
| `JpegBlock.ScanOfZigzag` | camlibs/ax203/tinyjpeg.c:89-99 | the zigzag table is a permutation with the given inverse |
| `JpegBlock.NaturalOfScanned` | camlibs/ax203/tinyjpeg.c:277-278 | reordering undoes the zigzag scan |
| `JpegLaws.ZigzagInNumbers` | camlibs/ax203/tinyjpeg.c:89-99 | the scan goes up and down the antidiagonals in turn, and the second half is the first one turned round |
| `JpegLaws.MagnitudeSigns` | camlibs/ax203/tinyjpeg.c:144-152 | the first bit tells the sign, and a negative value has the complement of the bits |
| `JpegLaws.KnownBlock` | camlibs/ax203/tinyjpeg.c:252-275 | the symbols of a known block: runs in the high and categories in the low half, f0 for sixteen zeros, 00 for the end |
| `JpegLaws.KnownDifference` | camlibs/ax203/tinyjpeg.c:244-250 | the DC symbol is the category of what the coefficient is more than the one before |
| `JpegBlock.Component.DecodeCoefficients` | camlibs/ax203/tinyjpeg.c:252-275 | for any input, run lengths and values as specified, or failure exactly where the stream ends or has no code |
| `JpegBlock.Component.ProcessHuffmanDataUnit` | camlibs/ax203/tinyjpeg.c:229-279 | for any input, the block and the position behind it as specified, in natural order, with its DC coefficient remembered |
| `JpegBlock.BlockRoundTrip` | camlibs/ax203/tinyjpeg.c:229-279 | a block encoded as in section F.1.2 of ITU-T T.81 decodes back, given eight more bits to look ahead |
| `JpegMcu.UnitsRoundTrip` | camlibs/ax203/tinyjpeg.c:542-596 | so do the blocks of a unit, with the differences of all three components |
| `JpegMcu.McusRoundTrip` | camlibs/ax203/tinyjpeg.c:907-919 | so does any sequence of units in whole bytes with any padding; each starts at the rounded-up position, and one byte behind the last is enough |
| `JpegMcu.EncodedHolds` | camlibs/ax203/tinyjpeg.c:907-919 | the padded encoding has that form wherever it stands in a stream |
| `JpegMcu.ImageRoundTrip` | camlibs/ax203/ax203.c:1338-1365 | what is encoded, with any one byte behind it, decodes to what it was and passes the check for leftovers |
| `JpegUnits.SamplingInNumbers` | camlibs/ax203/tinyjpeg.c:878-895 | which factors are known, and how many pixels and luminance blocks a unit then has |
| `JpegUnits.UnitInOrder` | camlibs/ax203/tinyjpeg.c:542-596 | the blocks of a unit are Cb with the second pair of codes and the second difference, Cr with the third, and one or four Y with the first |
| `JpegUnits.UnitRoundTrip` | camlibs/ax203/tinyjpeg.c:542-596 | a unit given as Cb, Cr and the Ys, each encoded with its own codes and difference, decodes to these |
| `JpegUnits.UnitsOfImage` | camlibs/ax203/tinyjpeg.c:907-919 | and so do the units of an image, padded to whole bytes, wherever it stands in a stream |
| `JpegUnits.ImageInOrder` | camlibs/ax203/tinyjpeg.c:907-919 | the blocks of an image are those of its units |
| `JpegUnits.BlockOfUnit` | camlibs/ax203/tinyjpeg.c:907-919 | where each block of each unit is in the output |
| `JpegDecoder.Decoder.DecodeMcu` | camlibs/ax203/tinyjpeg.c:542-596 | for any input, from the next byte boundary: Cb, then Cr, then one or four Y, each in natural order and with the difference of its component |
| `JpegDecoder.Decoder.DecodeRows` | camlibs/ax203/tinyjpeg.c:907-919 | for any input, all units of the image |
| `JpegDecoder.Decoder.Decode` | camlibs/ax203/tinyjpeg.c:853-929 | unknown sampling fails; success exactly if the units decode as specified, component by component, and at most one byte is left behind those that have been read, which are counted by the bits left in the reservoir; so never with forty bits left, and always with at most one whole byte |
| `Crc.OriginOfChecksum` | camlibs/canon/crc.c:198-206 | for every message, the initial value can be computed from the checksum: the map is one to one |
| `Crc.ChecksumOfOrigin` | camlibs/canon/crc.c:198-206 | and onto |
| `Crc.EntryShifts` | camlibs/canon/crc.c:26-59 | every entry of the table is eight steps of the division by the polynomial |
| `Crc.StepShifts` | camlibs/canon/crc.c:204-204 | a step of the table method is eight steps of the division |
| `Crc.Chksum` | camlibs/canon/crc.c:198-206 | the table method computes the checksum bit by bit |
| `Crc.AdjacentErrorsFound` | camlibs/canon/crc.c:198-206 | messages of one length that differ only within two adjacent bytes have different checksums |
| `Crc.Guess` | camlibs/canon/crc.c:239-249 | the search always succeeds, and finds the only initial value |
| `SerialFrame.NoMarksInside` | camlibs/canon/serial.c:277-304 | neither mark occurs inside a frame |
| `SerialLaws.FrameInBytes` | camlibs/canon/serial.c:277-304 | the bytes of a frame: c0, the payload with 7e e0, 7e e1 and 7e 5e for c0, c1 and 7e, and c1 |
| `SerialFrame.SendFrame` | camlibs/canon/serial.c:277-304 | for every payload, the frame exactly if it fits into the buffer, else a refusal, or the write past the end for an escaped last byte |
| `SerialFrame.PacketsFit` | camlibs/canon/serial.c:277-304 | packets of at most 1022 bytes always fit |
| `SerialFrame.FrameRoundTrip` | camlibs/canon/serial.c:317-352 | a frame behind any bytes but its opening mark is received as its payload, up to the size of the buffer |
| `SerialFrame.FramesRoundTrip` | camlibs/canon/serial.c:317-352 | any list of frames, with such bytes in front of each, is received as the list of payloads |
| `SerialFrame.Port.RecvFrame` | camlibs/canon/serial.c:317-352 | for any line, the frame as specified, with lost bytes behind an escape and the limit of the buffer |
| `SerialPacket.LengthRoundTrip` | camlibs/canon/serial.c:380-381 | a length below 65536 survives its two bytes |
| `SerialPacket.GenCrc` | camlibs/canon/crc.c:226-236 | the checksum from the initial value of the length, if that is known |
| `SerialPacket.ChkCrc` | camlibs/canon/crc.c:263-277 | checks exactly the lengths with a known initial value, and passes all others |
| `SerialPacket.SendPacket` | camlibs/canon/serial.c:371-401 | the frame of header, body and checksum; refusals and upload ends under their other names |
| `SerialLaws.MessageInBytes` | camlibs/canon/serial.c:371-401 | the bytes of a message packet: number, 0, length with its low byte first, message, and checksum with its low byte first |
| `SerialLaws.OtherInBytes` | camlibs/canon/serial.c:371-401 | the bytes of the other packets, which have two bytes behind their header |
| `SerialPacket.RecvPacket` | camlibs/canon/serial.c:419-456 | for any line, the packet in the next frame, or nothing, and which kind of nothing |
| `SerialLaws.ReceivedInBytes` | camlibs/canon/serial.c:419-456 | which bytes of a packet its number, its type and its data are |
| `SerialPacket.MessageRoundTrip` | camlibs/canon/serial.c:371-456 | a message packet of a length with a known initial value is received with the same type, number, length and payload |
| `SerialPacket.MessagesRoundTrip` | camlibs/canon/serial.c:277-456 | so is any list of message packets on a line with noise between the frames |
| `SerialPacket.DamagedPacketRejected` | camlibs/canon/serial.c:419-456 | a packet damaged within any two adjacent bytes, header and checksum included, is never taken for a packet |
| `SerialMessage.Receiver.Append` | camlibs/canon/serial.c:726-735 | the fragment goes behind the bytes received so far; one doubling of the buffer is always enough for 1024 bytes |
| `SerialMessage.Receiver.AwaitMsg` | camlibs/canon/serial.c:674-689 | skips to the first message packet, answering old EOTs |
| `SerialMessage.Receiver.Take` | camlibs/canon/serial.c:740-785 | in every state of error recovery, a packet ends the call, starts the message again or continues it as specified |
| `SerialMessage.Receiver.Assemble` | camlibs/canon/serial.c:720-785 | in every state of error recovery, the outcome is the specified one |
| `SerialMessage.Receiver.RecvMsg` | camlibs/canon/serial.c:665-811 | for any packets, exactly the specified message or failure; with a message, every old EOT answered, one refusal if there was an error, one acknowledgement, the number increased by one modulo 256, and no error afterwards |
| `SerialMessage.Receiver.RecvMsgs` | camlibs/canon/serial.c:665-811 | as many calls as wanted, from any state without error: they all return a message exactly if the messages come in turn, each with the number behind that of the one before, modulo 256; then those are returned, and no others |
| `SerialMessage.FirstInTurn` | camlibs/canon/serial.c:665-811 | the first call succeeds exactly if the first message comes in turn, and leaves the others in turn |
| `SerialMessage.HeaderInNumbers` | camlibs/canon/serial.c:690-718 | which bytes of the header are checked, and which hold the length |
| `SerialMessage.CollectExactly` | camlibs/canon/serial.c:720-760 | fragments are collected exactly if they end with the right EOT and hold no more than declared |
| `SerialMessage.MessageExactly` | camlibs/canon/serial.c:665-811 | without an error, a message is returned exactly if the first message packet starts it; it is the fragments up to the EOT, in order, no more than declared |
| `SerialMessage.RestartExactly` | camlibs/canon/serial.c:763-785 | behind a known error, what is returned starts with the next message packet |
| `SerialMessage.RecoveryExactly` | camlibs/canon/serial.c:665-811 | after an error, a message is returned exactly if it starts behind the EOT that ended the error; nothing from before it is in the message; and the message is empty exactly if the next EOT repeats the number of that one |
| `YuvDelta.BestIsBest` | camlibs/ax203/ax203_decode_yuv_delta.c:145-201 | the chosen correction is at least as close as every other allowed one |
| `YuvDelta.FindClosestCorrection` | camlibs/ax203/ax203_decode_yuv_delta.c:145-201 | the search finds that correction, for luminance and chrominance |
| `YuvDelta.ClosestWithinBound` | camlibs/ax203/ax203_decode_yuv_delta.c:145-201 | how close it is: within 31 by wrapping around in table 0, within 15, 7 and 4 in the reach of tables 1, 2 and 3 |
| `YuvDelta.SelectTable` | camlibs/ax203/ax203_decode_yuv_delta.c:209-227 | the finest table that reaches all values, or table 0 |
| `YuvLaws.SmallSteps` | camlibs/ax203/ax203_decode_yuv_delta.c:209-227 | from the values alone: steps of at most 9 up and 16 down get table 3, of 21 and 29 table 2 or better, and of 37 and 53 table 1 or better |
| `YuvLaws.CorrectionInNumbers` | camlibs/ax203/ax203_decode_yuv_delta.c:44-51 | the steps of the tables |
| `YuvLaws.ReachInNumbers` | camlibs/ax203/ax203_decode_yuv_delta.c:212-218 | how far each table reaches, up and down |
| `YuvDelta.EncodeComponentValues` | camlibs/ax203/ax203_decode_yuv_delta.c:203-301 | writes the two bytes in place and nothing else |
| `YuvDelta.PackedParts` | camlibs/ax203/ax203_decode_yuv_delta.c:59-80 | start value, table and all three corrections come out of the two bytes as they went in |
| `YuvDelta.DecodeComponentValues` | camlibs/ax203/ax203_decode_yuv_delta.c:59-80 | decodes two bytes as specified |
| `YuvDelta.NoDrift` | camlibs/ax203/ax203_decode_yuv_delta.c:229-251 | the decoder reaches exactly the values that the encoder has tracked |
| `YuvDelta.DecodedWithinError` | camlibs/ax203/ax203_decode_yuv_delta.c:59-301 | decoded values are legal, within 7 of the source with tables 2 and 3, within 15 with table 1 and within 31 always |
| `YuvLaws.SmallStepsComeBack` | camlibs/ax203/ax203_decode_yuv_delta.c:59-301 | neighbouring values that differ by at most 9 come back within 7 with table 3, by at most 21 within 7, and by at most 37 within 15 |
| `YuvLaws.FallingSquare` | camlibs/ax203/ax203_decode_yuv_delta.c:254-301 | the luminance square 32, 20, 20, 20 becomes the bytes 26 a0 and comes back exactly |
| `YuvLaws.MixedSquare` | camlibs/ax203/ax203_decode_yuv_delta.c:254-301 | so does 40, 48, 72, 64 with table 2, as 2d 2f |
| `YuvLaws.SquareBelowZero` | camlibs/ax203/ax203_decode_yuv_delta.c:203-252 | and the chrominance square -8, -12, -8, 0, as fe e5 |
| `YuvImage.EncodeBlock` | camlibs/ax203/ax203_decode_yuv_delta.c:303-368 | U, V and four squares of luminance in twelve bytes, in place |
| `YuvImage.EncodeImage` | camlibs/ax203/ax203_decode_yuv_delta.c:370-381 | every block of the picture at its place in the bytes |
| `YuvImage.Screen.DecodeBlock` | camlibs/ax203/ax203_decode_yuv_delta.c:84-131 | shows every part of the block, and changes no other block |
| `YuvImage.Screen.DecodeImage` | camlibs/ax203/ax203_decode_yuv_delta.c:133-143 | shows every block of the bytes |
| `YuvLaws.ChromaBytes` | camlibs/ax203/ax203_decode_yuv_delta.c:344-349 | the first four bytes of each twelve are U and V of the block |
| `YuvLaws.LumaBytes` | camlibs/ax203/ax203_decode_yuv_delta.c:353-370 | and the others its four squares of luminance, left and right, the upper ones first |
| `YuvLaws.ChromaShown` | camlibs/ax203/ax203_decode_yuv_delta.c:84-98 | the decoder shows the chrominance from these bytes |
| `YuvLaws.LumaShown` | camlibs/ax203/ax203_decode_yuv_delta.c:100-115 | and the luminance |
| `YuvImage.PartsClose` | camlibs/ax203/ax203_decode_yuv_delta.c:132-142 | after encoding and decoding, each part of each block is within the error of its table |
| `YuvImage.LumaClose` | camlibs/ax203/ax203_decode_yuv_delta.c:132-142 | so the luminance of every pixel is legal and within 31 |
| `YuvImage.ChromaClose` | camlibs/ax203/ax203_decode_yuv_delta.c:132-142 | and the chrominance |
| `CaptureInterrupts.Session.UnlockKeys` | camlibs/canon/usb.c:746-799 | fails exactly if the keys are locked, the body can unlock them and does not answer |
| `CaptureInterrupts.Session.HandlePacket` | camlibs/canon/usb.c:1181-1338 | each packet acts on step, transfers, keys and reported sizes as specified, and ends the capture or not |
| `CaptureInterrupts.Session.AwaitCapture` | camlibs/canon/usb.c:1164-1343 | for any interrupts, the capture ends as specified with the right packet and the sizes and keys reported last; the step stays within 0 to 3 |
| `CaptureInterrupts.Session.CaptureImage` | camlibs/canon/usb.c:1164-1349 | a failed capture reads the pipe once more unless the failure was photographic, and unlocks keys that can be unlocked |
| `CaptureInterrupts.CapturedExactly` | camlibs/canon/usb.c:1168-1349 | for class 4 bodies other than the EOS 300D, success exactly for 1c (1d 1c)* 1d [0e] 0f among sizes and unknown subcodes, with keys that can be unlocked where no 0e came; for the EOS 10D the end is 0e, or 0f with such keys |
| `CaptureInterrupts.PowerShotCapturedExactly` | camlibs/canon/usb.c:1168-1349 | for bodies of other classes than 4 and 6, not the EOS 300D, success exactly for 1c 1d |
| `CaptureEarly.EarlyCapturedExactly` | camlibs/canon/usb.c:1168-1349 | for class 6 bodies and the EOS 300D, from any step they can be in: success exactly with the first size by which everything has been transferred (not that of the first of two pictures), or with 0e, 1d or 0f where the reports before came in turn and that packet ends them |
| `CaptureEarly.BothSizes` | camlibs/canon/usb.c:1181-1219 | a class 6 body that transfers thumbnail and picture to the computer succeeds with the second size, in either order |
| `CaptureEarly.CodesInNumbers` | camlibs/canon/usb.c:1180-1338 | which codes and subcodes the packets have |
| `CaptureEarly.BodiesInNumbers` | camlibs/canon/usb.c:1300-1304 | which bodies may end early, and which end with 0e |
| `CaptureInterrupts.LastReported` | camlibs/canon/usb.c:1188-1228 | sizes and keys are those of the last packets with such codes |
| `CameraHandle.OrderlyCounts` | libgphoto2/gphoto2-camera.c:269-311 | in an orderly run the driver is left once per initialisation, and the handle freed once |
| `CameraHandle.WithoutOne` | libgphoto2/gphoto2-camera.c:1655-1679 | stopping a timeout removes one entry with its number |
| `CameraHandle.WithoutFirst` | libgphoto2/gphoto2-camera.c:1655-1679 | which is the first one, and the others stay in their order |
| `CameraHandle.RefsCounted` | libgphoto2/gphoto2-camera.c:530-573 | references are counted: one more with each ref and one less with each unref |
| `CameraOrder.QuietExactly` | libgphoto2/gphoto2-camera.c:850-850 | while a client initialises a camera that is not in use, nothing is postponed: exactly the calls other than an exit, the return of the last reference and a supported operation go unnoticed, and any other ends the order |
| `CameraOrder.QuietInitialize` | libgphoto2/gphoto2-camera.c:815-866 | with such callbacks, a timeout for example, or while the camera counts as in use, an initialisation by the client does what one by an operation does |
| `CameraOrder.StepInOrder` | libgphoto2/gphoto2-camera.c:62-866 | each call of a client ends the order, exactly if it spoils it, or leads from the phase of the handle to that of the handle afterwards |
| `CameraRuns.RunInOrder` | libgphoto2/gphoto2-camera.c:269-866 | every run of a client, its own initialisations and failing lookups included, is orderly if and only if no call in it spoils it: one that initialises an open driver, or whose driver calls back what is not quiet, or that follows a failed attempt which has lost the library of an open driver |
| `CameraRuns.UsersCountLookups` | libgphoto2/gphoto2-camera.c:799-809 | the use count between calls is a byte decremented once for every USB lookup that failed, in operations or in initialisations by the client: each failing lookup releases the camera once too often |
| `CameraRuns.WorksExactly` | libgphoto2/gphoto2-camera.c:62-71 | operations are not busy, an exit leaves an open driver, and the last reference frees the handle, if and only if the number of failed lookups is a multiple of 256 |
| `CameraRuns.StuckHandle` | libgphoto2/gphoto2-camera.c:803-808 | one failed lookup, of an operation or of the client: the next operation is busy, and the last reference does not free the handle |
| `CameraRuns.RunCounts` | libgphoto2/gphoto2-camera.c:269-866 | in every run, orderly or not, the handle is freed once, if and only if there are no references and the failed lookups are a multiple of 256; and drivers are left at most as often as they were initialised if and only if no more were left before their initialisation had ended than initialised while they were open |
| `CameraRuns.RunFits` | libgphoto2/gphoto2-camera.c:269-866 | the exact account of exits and initialisations, of every run |
| `CameraRuns.QuietIsNotEarly` | libgphoto2/gphoto2-camera.c:850-850 | drivers whose callbacks are quiet are never left before their initialisation has ended |
| `CameraRuns.LeftTooOften` | libgphoto2/gphoto2-camera.c:269-311 | a driver that asks for an exit while the client initialises it is left twice for one initialisation |
| `CameraRuns.WithoutInitialize` | libgphoto2/gphoto2-camera.c:215-222 | a client that leaves initialisation to the operations has orderly runs only, with one exit per initialisation, whether lookups fail or not |
| `CameraRuns.OperationOutcome` | libgphoto2/gphoto2-camera.c:201-222 | an operation leaves 255 users and nothing else changed if the lookup fails; otherwise the driver is open afterwards exactly if it could be opened, no exit was asked for and a reference is left; an exit also stops all timeouts |
| `CameraLifecycle.Camera.Exit` | libgphoto2/gphoto2-camera.c:269-311 | stops all timeouts in order and leaves the driver; while the camera is in use it only asks for that; every timeout that was started has been stopped once or is still known, here and in every run |
| `CameraLifecycle.Camera.StopTimeout` | libgphoto2/gphoto2-camera.c:1655-1679 | removes the first entry with this number and stops it; nothing happens without timeout functions |
| `CameraLifecycle.Camera.Unref` | libgphoto2/gphoto2-camera.c:551-573 | frees the handle with the last reference, unless it is in use |
| `CameraLifecycle.Camera.Free` | libgphoto2/gphoto2-camera.c:586-626 | leaves an open driver first, but not one whose library has been lost |
| `CameraLifecycle.Camera.Release` | libgphoto2/gphoto2-camera.c:62-71 | decrements the byte of users, 0 becoming 255; at 0 it carries out a postponed exit and a postponed end, in this order |
| `CameraLifecycle.Camera.Init` | libgphoto2/gphoto2-camera.c:708-866 | for an operation and for a client, in use or not: the driver is open afterwards exactly if it was loaded and initialised; earlier requests to exit are forgotten; a failing lookup releases the camera; a library that cannot be used loses an open one |
| `CameraLifecycle.Camera.CallDriver` | libgphoto2/gphoto2-camera.c:141-213 | callbacks during a call only count references, keep timeouts and ask for an exit |
| `CameraLifecycle.Camera.Operate` | libgphoto2/gphoto2-camera.c:201-222 | busy exactly while there are users; otherwise the new state of the handle and what happened to the driver are as specified, for every way to fail and all callbacks; the camera is released twice where the lookup fails |
| `CameraLifecycle.Camera.Run` | libgphoto2/gphoto2-camera.c:269-866 | every run of calls with any callbacks acts on handle and driver as specified |
| `CameraLifecycle.Life` | libgphoto2/gphoto2-camera.c:269-866 | so from a new handle on, order (after every event of an orderly run), users and counts are those of the lemmas above |
| `AhdDemosaic.Neighbours` | libgphoto2/ahd_bayer.c:105-108 | what the sensor measures beside and beyond a pixel, for all tiles |
| `AhdDemosaic.SourcesMeasure` | libgphoto2/ahd_bayer.c:124-218 | a missing colour is taken only from pixels that measure it |
| `AhdDemosaic.ColourFromMeasured` | libgphoto2/ahd_bayer.c:124-218 | so a row that is completed in place, below a completed row, gives what the untouched image would |
| `AhdDemosaic.SampleKept` | libgphoto2/ahd_bayer.c:610-620 | whatever the scores, a measured sample has its old value after the choice |
| `AhdLaws.GreenInside` | libgphoto2/ahd_bayer.c:234-317 | two pixels from the border, a missing green is (2 S(x) + 2 G(x-1) + 2 G(x+1) - S(x-2) - S(x+2)) / 4 along its direction, kept within a byte |
| `AhdLaws.ColoursInside` | libgphoto2/ahd_bayer.c:98-220 | inside, a missing red or blue is green plus the mean of what the measured ones exceed their greens by, on the sides that measure it |
| `AhdLaws.Corners` | libgphoto2/ahd_bayer.c:460-486 | which colour the first pixel has, for all tiles |
| `AhdLaws.RowsAreGrey` | libgphoto2/ahd_bayer.c:85-328 | a picture of rows with one value each, interpolated along the rows, is grey |
| `AhdLaws.ColumnsAreGrey` | libgphoto2/ahd_bayer.c:85-328 | and a picture of columns, interpolated along the columns |
| `AhdLaws.DistanceIsEuclidean` | libgphoto2/ahd_bayer.c:80-87 | the distance of two pixels is the square of the Euclidean one |
| `AhdLaws.ScoreCountsClose` | libgphoto2/ahd_bayer.c:328-381 | the score counts the neighbours that are as close as the two of a row, or of a column, whichever are closer |
| `AhdLaws.OneScoreIsTwo` | libgphoto2/ahd_bayer.c:328-381 | so one of the two directions has a score of two or more |
| `AhdLaws.NineScores` | libgphoto2/ahd_bayer.c:602-609 | what is compared are sums of nine scores |
| `AhdLaws.ChoiceDecides` | libgphoto2/ahd_bayer.c:610-620 | the larger sum decides for its direction, and a tie for the mean of each colour |
| `AhdLaws.StripesStay` | libgphoto2/ahd_bayer.c:571-628 | an example: rows of 0 and 200 in turn score 8 to 0, and the pixel comes out as horizontal interpolation gives it |
| `AhdWindow.DoGreenRow` | libgphoto2/ahd_bayer.c:234-317 | the greens of a row of both windows are those of the whole image, although rows above have been overwritten |
| `AhdWindow.DoColourRow` | libgphoto2/ahd_bayer.c:98-220 | the reds and blues of a row of a window are those of the whole image |
| `AhdWindow.GetDiffs` | libgphoto2/ahd_bayer.c:328-381 | the scores of row 3 of the windows are those of the next row of the image |
| `AhdWindow.SumScores` | libgphoto2/ahd_bayer.c:602-609 | the sum is that of the pixel and its eight neighbours; in the first and the last column, plus one byte from outside the scores, modulo 256 |
| `AhdWindow.ChooseRow` | libgphoto2/ahd_bayer.c:602-622 | writes one row of the image by the better score, and no other row |
| `AhdWindow.Start` | libgphoto2/ahd_bayer.c:521-569 | the windows before the first row: black, black, row 0, row 1, and row 2 with its greens |
| `AhdWindow.Cycle` | libgphoto2/ahd_bayer.c:571-628 | one cycle keeps windows and scores in step with the image |
| `AhdWindow.Interpolate` | libgphoto2/ahd_bayer.c:420-636 | for every image, tile and pixel: in the inner columns exactly the whole-image algorithm, by which the larger sum of scores takes the pixel of its direction and a tie the mean, in the first and last column the same choice with one byte from outside added to each sum, and every measured sample unchanged |
| `AhdWindow.RowsComeOut` | libgphoto2/ahd_bayer.c:420-636 | in what comes out, a picture of rows with one value each is grey with these values wherever rows score better |
| `AhdWindow.ColumnsComeOut` | libgphoto2/ahd_bayer.c:420-636 | and a picture of columns wherever columns do |

## Left out

- Transport, timeouts, progress, logging, translation, the dump file of a frame, loading of drivers, and memory that
  runs out.
- libjpeg and libgd code, quantisation, the inverse transform, and all conversion between RGB and YUV: floating point.
  The decoders of the model return coefficients and colour planes.
- JPEG headers and the parameter block of a frame: a model starts with the code counts, or the geometry.
- Flat addressing of pixels and rows: `AhdWindow` keeps rows as values in arrays of six, so a `memmove` by one row
  moves entries; `JpegDecoder` collects the blocks of an image in a sequence. Images smaller than 3x3 are excluded,
  because the source copies three rows before it looks at the height.
- `qsort` is an insertion sort here; the regions it sorts have different addresses.
- The 1016 initial checksums by length: only which lengths have one matters, so the table is a parameter.
- Sending whole messages and waiting for their acknowledgement, speed changes and directory listings of the serial
  line. Transmissions of the model do not fail.
- The command that starts a capture, and the cleaning of the interrupt pipe before it.
- Autodetection inside `gp_camera_init` (lines 730-791), whose error paths at lines 784-788 also release the camera,
  and the error paths of `gp_camera_get_port_info`, `gp_camera_set_port_info` and `gp_camera_set_port_speed` (lines
  427, 450, 498 and 500), which do the same; the failing USB lookup at line 803 is in the model. A driver's exit
  function makes no callbacks, and drivers do not call `gp_camera_init`. After a driver has given the last reference
  back or left the camera while a client initialises it, the source goes on in freed memory or an unloaded library;
  the model says that the order is lost, and goes on.
- CameraLifecycle.Camera.StopTimeout: the functions to start and to stop timeouts are both set or both missing; with
  one to start and none to stop them, `gp_camera_exit` does not end.
- SerialMessage.Receiver.Append: fragments have at most 1024 bytes, as in the next two lines.
- SerialMessage.Receiver.Assemble: packets hold at most 1024 bytes of a message.
- SerialMessage.Receiver.RecvMsg: packets with more than 1024 bytes of a message are excluded, because the capacity is
  doubled only once for each; the checksum is known for shorter ones only.
- SerialMessage.Receiver.RecvMsgs: the same holds for its packets.
- PictureFrame.Frame.WriteRawFile: sizes are positive, those of the AX203 are the picture size, and those of the AX206
  fit into 16 bits; other sizes are not stored as they are.
- PictureFrame.Frame.ReadRawFile: AX206 entries with negative addresses are excluded; the source would read in front
  of its buffer.
- Chips of 8 MiB (`camlibs/ax203/ax203.c:97` and `:106`), whose sectors overrun the arrays of
  `camlibs/ax203/ax203.h:93-94`.
- StoreRun.Run: a device command that fails while the store is changed ends the run; the store need not be well formed
  then. On frames whose pictures do not fill whole units of 256 bytes, where the files lie decides about writes, and
  the map does not know that; there its steps are a relation. `PictureFrame.Frame.WriteRawFile` is exact.
- HuffmanTable.Table.Build: tables with repeated symbols are excluded; the source accepts them, but keeps one length
  for each symbol, so that its short codes are misread.
- JpegBlock.Component.ProcessHuffmanDataUnit: DC symbols above 16 are excluded, because the source cuts their bits to
  16 before it looks at the sign; categories of JPEG end at 15.
- AhdWindow.Interpolate: the bytes from outside the buffer that enter the first and the last column are not specified.
