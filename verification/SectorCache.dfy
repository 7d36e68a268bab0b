/** The lazily filled write-back cache of 4 KiB sectors in front of the flash memory. */
module SectorCache {
  import opened Bytes
  import opened Eeprom
  import opened DirtySectors
  import opened Wrappers

  lemma WholeBlocks(memSize: nat)
    requires memSize % BLOCK_SIZE == 0
    ensures memSize / SECTOR_SIZE * SECTOR_SIZE == memSize
    ensures memSize / SECTOR_SIZE % SECTORS_PER_BLOCK == 0
  {
    var blocks := memSize / BLOCK_SIZE;
    assert memSize == blocks * 0x1_0000;
    assert memSize / 0x1000 == blocks * 16;
  }

  /** How much of an access falls into the sector it has reached. */
  function ToCopy(sector: nat, pos: nat, left: nat): (n: nat)
    requires sector * SECTOR_SIZE <= pos < (sector + 1) * SECTOR_SIZE
    ensures n <= left && (left > 0 ==> n > 0)
    ensures pos + n <= (sector + 1) * SECTOR_SIZE
    ensures n < left ==> pos + n == (sector + 1) * SECTOR_SIZE
  {
    var inSector := SECTOR_SIZE - pos % SECTOR_SIZE;
    if inSector > left then left else inSector
  }

  lemma SliceInPieces(memory: seq<byte>, a: nat, b: nat, c: nat)
    requires a <= b <= c <= |memory|
    ensures memory[a..b] + memory[b..c] == memory[a..c]
  {
  }

  /** The memory after a write that stops at its end. */
  function WriteUpToEnd(memory: seq<byte>, offset: nat, buf: seq<byte>): (r: seq<byte>)
    ensures |r| == |memory|
    ensures offset >= |memory| || buf == [] ==> r == memory
  {
    if offset >= |memory| then memory
    else if offset + |buf| <= |memory| then Splice(memory, offset, buf)
    else Splice(memory, offset, buf[..|memory| - offset])
  }

  lemma WriteInside(memory: seq<byte>, offset: nat, buf: seq<byte>)
    requires offset + |buf| <= |memory|
    ensures WriteUpToEnd(memory, offset, buf) == Splice(memory, offset, buf)
  {
  }

  lemma WriteOverEnd(memory: seq<byte>, offset: nat, buf: seq<byte>)
    requires offset < |memory| <= offset + |buf|
    ensures WriteUpToEnd(memory, offset, buf) == Splice(memory, offset, buf[..|memory| - offset])
  {
    assert |memory| == offset + |buf| ==> buf[..|memory| - offset] == buf;
  }

  lemma WriteBehindEnd(memory: seq<byte>, offset: nat, buf: seq<byte>)
    requires offset >= |memory|
    ensures WriteUpToEnd(memory, offset, buf) == memory
  {
  }

  /** A write is a write of its first `n` bytes followed by one of the rest. */
  lemma WriteInPieces(memory: seq<byte>, pos: nat, buf: seq<byte>, n: nat)
    requires n <= |buf|
    ensures WriteUpToEnd(WriteUpToEnd(memory, pos, buf[..n]), pos + n, buf[n..]) == WriteUpToEnd(memory, pos, buf)
  {
    if pos < |memory| {
      hide Splice, WriteUpToEnd;
      var front, back, middle := buf[..n], buf[n..], WriteUpToEnd(memory, pos, buf[..n]);
      if pos + |buf| <= |memory| {
        WriteInside(memory, pos, buf);
        WriteInside(memory, pos, front);
        WriteInside(middle, pos + n, back);
        SpliceSplice(memory, pos, front, back);
        assert front + back == buf;
      } else if pos + n < |memory| {
        var rest := back[..|memory| - pos - n];
        WriteOverEnd(memory, pos, buf);
        WriteInside(memory, pos, front);
        WriteOverEnd(middle, pos + n, back);
        SpliceSplice(memory, pos, front, rest);
        assert front + rest == buf[..|memory| - pos];
      } else {
        WriteOverEnd(memory, pos, buf);
        WriteOverEnd(memory, pos, front);
        assert front[..|memory| - pos] == buf[..|memory| - pos];
        WriteBehindEnd(middle, pos + n, back);
      }
    }
  }

  /** `after` holds `data` programmed over `before` in a range. */
  ghost predicate Programmed(before: seq<byte>, after: seq<byte>, data: seq<byte>, start: nat, size: nat)
    requires |before| == |after| == |data| && start + size <= |data|
  {
    forall i :: start <= i < start + size ==> after[i] == ProgramByte(before[i], data[i])
  }

  /** The dirty flags after some work on the block from `bss` on, which never sets one. */
  ghost predicate Cleaned(before: seq<bool>, after: seq<bool>, bss: nat) {
    && |before| == |after|
    && (forall s :: 0 <= s < |before| && after[s] ==> before[s])
    && (forall s :: 0 <= s < |before| && !(bss <= s < bss + SECTORS_PER_BLOCK) ==> after[s] == before[s])
  }

  /** Safe and recoverable memory stays so when one block has been committed, whether that failed or not. */
  lemma BlockCommitted(dirty: seq<bool>, dirty': seq<bool>, cells: seq<byte>, cells': seq<byte>, contents: seq<byte>,
                       has4kSectors: bool, pp64k: bool, bss: nat)
    requires |dirty| == MAX_SECTORS && Cleaned(dirty, dirty', bss) && bss % SECTORS_PER_BLOCK == 0
    requires |cells| == |contents| <= MAX_SECTORS * SECTOR_SIZE && (bss + SECTORS_PER_BLOCK) * SECTOR_SIZE <= |contents|
    requires SameOutside(cells, cells', bss * SECTOR_SIZE, BLOCK_SIZE)
    requires BlockStep(dirty, Synced(cells, contents), dirty', Synced(cells', contents), has4kSectors, pp64k, bss)
    ensures SafeToFail(dirty, has4kSectors, pp64k) &&
            Recoverable(dirty, Synced(cells, contents), has4kSectors, pp64k) ==>
              SafeToFail(dirty', has4kSectors, pp64k) &&
              Recoverable(dirty', Synced(cells', contents), has4kSectors, pp64k)
  {
    hide BlockStep, SafeToFail, Recoverable;
    var sync, sync' := Synced(cells, contents), Synced(cells', contents);
    OtherBlocksSynced(cells, cells', contents, bss);
    assert OthersKept(dirty, sync, dirty', sync', bss);
    if SafeToFail(dirty, has4kSectors, pp64k) && Recoverable(dirty, sync, has4kSectors, pp64k) {
      MemoryKeepsRecoverable(dirty, sync, dirty', sync', has4kSectors, pp64k, bss);
    }
  }

  /** What a client does with the cache. */
  datatype Call = Write(offset: nat, data: seq<byte>) | TryCommit

  /** The dirty flags before a call, and its result. */
  datatype Entry = Entry(dirty: seq<bool>, result: Status)

  /** Did all commits that failed start from dirty flags on which failing is safe? */
  predicate AllSafe(log: seq<Entry>, calls: seq<Call>, has4kSectors: bool, pp64k: bool)
    requires |log| <= |calls|
  {
    forall i :: 0 <= i < |log| && calls[i].TryCommit? && log[i].result.Failure? ==>
      SafeToFail(log[i].dirty, has4kSectors, pp64k)
  }

  lemma AtOnceIsSafe(log: seq<Entry>, calls: seq<Call>, has4kSectors: bool)
    requires |log| <= |calls|
    ensures AllSafe(log, calls, has4kSectors, true)
  {
  }

  predicate LastCommitted(log: seq<Entry>, calls: seq<Call>)
    requires |log| <= |calls|
  {
    log != [] && calls[|log| - 1].TryCommit? && log[|log| - 1].result.Success?
  }

  class Cache {
    const memSize: nat
    const has4kSectors: bool
    const pp64k: bool
    // the ax3003 has no checksum command
    const hasChecksum: bool
    const device: Device
    const mem: array<byte>
    const sectorIsPresent: array<bool>
    const sectorDirty: array<bool>
    var blockProtectionRemoved: bool

    // what the whole memory reads as
    ghost var contents: seq<byte>

    ghost predicate Valid()
      reads this, device`cells, device`isProtected, mem, sectorIsPresent, sectorDirty
      ensures Valid() ==> sectorIsPresent != sectorDirty && sectorIsPresent.Length == sectorDirty.Length == MAX_SECTORS
      ensures Valid() ==> memSize == |device.cells| == |contents| <= MAX_SECTORS * SECTOR_SIZE
    {
      && memSize % BLOCK_SIZE == 0
      && memSize <= MAX_SECTORS * SECTOR_SIZE
      && mem.Length == memSize == |device.cells| == |contents|
      && sectorIsPresent != sectorDirty
      && sectorIsPresent.Length == sectorDirty.Length == MAX_SECTORS
      && (forall s :: 0 <= s < MAX_SECTORS && sectorDirty[s] ==> sectorIsPresent[s])
      && (forall i :: 0 <= i < memSize ==>
            contents[i] == if sectorIsPresent[i / SECTOR_SIZE] then mem[i] else device.cells[i])
      && (device.isProtected && pp64k ==> !blockProtectionRemoved)
    }

    /** Is the flash protected, and are there no commands in use that remove the protection? */
    predicate Locked()
      reads device`isProtected
    {
      device.isProtected && !pp64k
    }

    /** Every sector that is not dirty reads the same from the flash. */
    ghost predicate Coherent()
      reads this, device`cells, sectorDirty
      requires sectorDirty.Length == MAX_SECTORS && memSize <= MAX_SECTORS * SECTOR_SIZE
      requires |device.cells| == |contents| == memSize
    {
      forall i :: 0 <= i < memSize && !sectorDirty[i / SECTOR_SIZE] ==> device.cells[i] == contents[i]
    }

    /** Will the next successful commit leave the contents in the flash, and will it still after failing before? */
    ghost predicate Repairable()
      reads this, device`cells, sectorDirty
      requires sectorDirty.Length == MAX_SECTORS && memSize <= MAX_SECTORS * SECTOR_SIZE
      requires |device.cells| == |contents| == memSize
    {
      Recoverable(sectorDirty[..], Synced(device.cells, contents), has4kSectors, pp64k)
    }

    /** May a commit fail now? */
    predicate FailsSafely()
      reads sectorDirty
    {
      SafeToFail(sectorDirty[..], has4kSectors, pp64k)
    }

    /** What the flash holds of the contents, and what a commit would repair, is not lost. */
    twostate predicate StaysInSync()
      reads this, device`cells, sectorDirty
      requires sectorDirty.Length == MAX_SECTORS && memSize <= MAX_SECTORS * SECTOR_SIZE
      requires |device.cells| == |contents| == memSize && old(|device.cells| == |contents| == memSize)
    {
      (old(Coherent()) ==> Coherent()) && (old(Repairable()) ==> Repairable())
    }

    lemma CoherentIsRepairable()
      requires Valid() && Coherent()
      ensures Repairable()
    {
      CoherentIsRecoverable(sectorDirty[..], device.cells, contents, has4kSectors, pp64k);
    }

    constructor (device: Device, has4kSectors: bool, pp64k: bool, hasChecksum: bool)
      requires |device.cells| % BLOCK_SIZE == 0 && |device.cells| <= MAX_SECTORS * SECTOR_SIZE
      ensures Valid() && Coherent()
      ensures this.device == device && contents == device.cells && memSize == |device.cells|
      ensures forall s :: 0 <= s < MAX_SECTORS ==> !sectorDirty[s]
      ensures fresh(mem) && fresh(sectorIsPresent) && fresh(sectorDirty)
    {
      this.device, this.has4kSectors, this.pp64k, this.hasChecksum := device, has4kSectors, pp64k, hasChecksum;
      memSize := |device.cells|;
      mem := new byte[|device.cells|];
      sectorIsPresent := new bool[MAX_SECTORS](_ => false);
      sectorDirty := new bool[MAX_SECTORS](_ => false);
      blockProtectionRemoved := false;
      contents := device.cells;
    }

    method CheckSectorPresent(sector: nat) returns (r: Status)
      requires Valid()
      modifies mem, sectorIsPresent, device`faults
      ensures Valid()
      ensures device.faults >= old(device.faults) && (r == Failure(Io) <==> device.faults > old(device.faults))
      ensures r != Failure(Io) ==> r == if (sector + 1) * SECTOR_SIZE > memSize then Failure(CorruptedData) else OK
      ensures r.Success? ==> sectorIsPresent[sector]
      ensures forall s :: 0 <= s < MAX_SECTORS && old(sectorIsPresent[s]) ==> sectorIsPresent[s]
    {
      if (sector + 1) * SECTOR_SIZE > memSize {
        return Failure(CorruptedData);
      }
      if sectorIsPresent[sector] {
        return OK;
      }
      var data :- device.Read(sector * SECTOR_SIZE, SECTOR_SIZE);
      forall k | 0 <= k < SECTOR_SIZE {
        mem[sector * SECTOR_SIZE + k] := data[k];
      }
      sectorIsPresent[sector] := true;
      return OK;
    }

    /** A present sector reads as the contents. */
    lemma PresentReads(sector: nat, pos: nat, n: nat)
      requires Valid() && sector < MAX_SECTORS && sectorIsPresent[sector] && (sector + 1) * SECTOR_SIZE <= memSize
      requires sector * SECTOR_SIZE <= pos && pos + n <= (sector + 1) * SECTOR_SIZE
      ensures pos + n <= mem.Length && mem[pos..pos + n] == contents[pos..pos + n]
    {
      forall i | pos <= i < pos + n ensures mem[i] == contents[i] {
        assert i / SECTOR_SIZE == sector;
      }
    }

    /** Reads succeed exactly up to the end of the memory, and return its contents. */
    method ReadMem(offset: nat, len: nat) returns (r: Result<seq<byte>>)
      requires Valid()
      modifies mem, sectorIsPresent, device`faults
      ensures Valid()
      ensures device.faults >= old(device.faults) && (r == Failure(Io) <==> device.faults > old(device.faults))
      ensures r != Failure(Io) ==>
              r == if len == 0 || offset + len <= memSize
                   then Success(if len == 0 then [] else contents[offset..offset + len])
                   else Failure(CorruptedData)
    {
      hide Valid;
      var buf: seq<byte>, pos, left, sector := [], offset, len, offset / SECTOR_SIZE;
      while left > 0
        invariant Valid() && device.faults == old(device.faults)
        invariant 0 <= left && pos + left == offset + len && |buf| == len - left
        invariant left > 0 ==> sector * SECTOR_SIZE <= pos < (sector + 1) * SECTOR_SIZE
        invariant offset <= pos && (left < len ==> pos <= memSize)
        invariant buf == if pos == offset then [] else contents[offset..pos]
      {
        var toCopy := ToCopy(sector, pos, left);
        var data :- ReadChunk(sector, pos, toCopy);
        SliceInPieces(contents, offset, pos, pos + toCopy);
        buf := buf + data;
        left, pos, sector := left - toCopy, pos + toCopy, sector + 1;
      }
      return Success(buf);
    }

    /** One round of the loop above: the part of a read that lies in one sector. */
    method ReadChunk(sector: nat, pos: nat, n: nat) returns (r: Result<seq<byte>>)
      requires Valid() && n > 0 && sector * SECTOR_SIZE <= pos && pos + n <= (sector + 1) * SECTOR_SIZE
      modifies mem, sectorIsPresent, device`faults
      ensures Valid()
      ensures device.faults >= old(device.faults) && (r == Failure(Io) <==> device.faults > old(device.faults))
      ensures r.Success? ==> pos + n <= memSize && r.value == contents[pos..pos + n]
      ensures r.Failure? && r != Failure(Io) ==> r == Failure(CorruptedData) && memSize <= pos
    {
      var _ :- CheckSectorPresent(sector);
      PresentReads(sector, pos, n);
      return Success(mem[pos..pos + n]);
    }

    /** Writes up to the end of the memory; an access beyond it writes what fits and fails. */
    method WriteMem(offset: nat, buf: seq<byte>) returns (r: Status)
      requires Valid()
      modifies this`contents, mem, sectorIsPresent, sectorDirty, device`faults
      ensures Valid() && StaysInSync()
      ensures device.faults >= old(device.faults) && (r == Failure(Io) <==> device.faults > old(device.faults))
      ensures r != Failure(Io) ==> r == if |buf| == 0 || offset + |buf| <= memSize then OK else Failure(CorruptedData)
      ensures r != Failure(Io) ==> contents == WriteUpToEnd(old(contents), offset, buf)
      ensures SameOutside(old(contents), contents, offset, |buf|)
    {
      hide Valid, Coherent, Repairable, WriteUpToEnd;
      var pos, rest, sector := offset, buf, offset / SECTOR_SIZE;
      while |rest| > 0
        invariant Valid() && device.faults == old(device.faults)
        invariant StaysInSync()
        invariant pos + |rest| == offset + |buf| && (pos == offset || pos <= memSize)
        invariant |rest| > 0 ==> sector * SECTOR_SIZE <= pos < (sector + 1) * SECTOR_SIZE
        invariant WriteUpToEnd(contents, pos, rest) == WriteUpToEnd(old(contents), offset, buf)
        invariant SameOutside(old(contents), contents, offset, pos - offset)
        decreases |rest|
      {
        var toCopy := ToCopy(sector, pos, |rest|);
        WriteInPieces(contents, pos, rest, toCopy);
        var _ :- WriteChunk(sector, pos, rest[..toCopy]);
        pos, rest, sector := pos + toCopy, rest[toCopy..], sector + 1;
      }
      return OK;
    }

    /** One round of the loop above: the part of a write that falls into one sector. */
    method WriteChunk(sector: nat, pos: nat, data: seq<byte>) returns (r: Status)
      requires Valid()
      requires |data| > 0 && sector * SECTOR_SIZE <= pos && pos + |data| <= (sector + 1) * SECTOR_SIZE
      modifies this`contents, mem, sectorIsPresent, sectorDirty, device`faults
      ensures Valid() && StaysInSync()
      ensures device.faults >= old(device.faults) && (r == Failure(Io) <==> device.faults > old(device.faults))
      ensures r.Failure? ==> contents == old(contents)
      ensures r == Failure(CorruptedData) ==> memSize <= pos
      ensures r.Success? ==> pos + |data| <= memSize
      ensures r.Success? || r == Failure(Io) || r == Failure(CorruptedData)
      ensures r.Success? ==> contents == WriteUpToEnd(old(contents), pos, data)
      ensures SameOutside(old(contents), contents, pos, |data|)
    {
      var _ :- CheckSectorPresent(sector);
      CopyIntoSector(sector, pos, data);
      return OK;
    }

    /** `memcpy` into a present sector, which becomes dirty. */
    method CopyIntoSector(sector: nat, pos: nat, data: seq<byte>)
      requires Valid()
      requires sector * SECTOR_SIZE <= pos && pos + |data| <= (sector + 1) * SECTOR_SIZE <= memSize
      requires sectorIsPresent[sector]
      modifies this`contents, mem, sectorDirty
      ensures Valid() && StaysInSync()
      ensures contents == Splice(old(contents), pos, data)
      ensures sectorDirty[..] == old(sectorDirty[..])[sector := true]
    {
      hide Recoverable, Synced;
      ghost var dirty, was := sectorDirty[..], contents;
      forall k | 0 <= k < |data| {
        mem[pos + k] := data[k];
      }
      sectorDirty[sector] := true;
      contents := Splice(contents, pos, data);
      if old(Repairable()) {
        WriteKeepsRecoverable(dirty, sectorDirty[..], device.cells, was, contents, has4kSectors, pp64k, sector);
      }
      forall i | pos <= i < pos + |data| ensures i / SECTOR_SIZE == sector {
      }
    }

    /** Programs a present sector page by page over whatever the flash holds. */
    method WriteSector(sector: nat) returns (r: Status)
      requires Valid()
      requires (sector + 1) * SECTOR_SIZE <= memSize && sectorIsPresent[sector]
      modifies device
      ensures device.isProtected == old(device.isProtected)
      ensures if r.Success? then device.faults == old(device.faults)
              else r == Failure(Io) && device.faults > old(device.faults)
      ensures SameOutside(old(device.cells), device.cells, sector * SECTOR_SIZE, SECTOR_SIZE)
      ensures r.Success? && device.isProtected ==> device.cells == old(device.cells)
      ensures r.Success? && !device.isProtected ==>
        Programmed(old(device.cells), device.cells, mem[..], sector * SECTOR_SIZE, SECTOR_SIZE)
    {
      var base := sector * SECTOR_SIZE;
      var page := 0;
      while page < SECTOR_SIZE / PAGE_SIZE
        invariant 0 <= page <= SECTOR_SIZE / PAGE_SIZE
        invariant device.isProtected == old(device.isProtected) && device.faults == old(device.faults)
        invariant SameOutside(old(device.cells), device.cells, base, page * PAGE_SIZE)
        invariant device.isProtected ==> device.cells == old(device.cells)
        invariant !device.isProtected ==> Programmed(old(device.cells), device.cells, mem[..], base, page * PAGE_SIZE)
      {
        var address := base + page * PAGE_SIZE;
        var _ :- device.WriteEnable();
        var _ :- device.ProgramPage(address, mem[address..address + PAGE_SIZE]);
        var _ :- device.WaitReady();
        page := page + 1;
      }
      return OK;
    }

    method EraseRange(address: nat, size: nat) returns (r: Status)
      requires size == SECTOR_SIZE || size == BLOCK_SIZE
      requires address % size == 0 && address + size <= |device.cells|
      modifies device
      ensures device.isProtected == old(device.isProtected)
      ensures if r.Success? then device.faults == old(device.faults)
              else r == Failure(Io) && device.faults > old(device.faults)
      ensures SameOutside(old(device.cells), device.cells, address, size)
      ensures r.Success? && device.isProtected ==> device.cells == old(device.cells)
      ensures r.Success? && !device.isProtected ==> forall i :: address <= i < address + size ==> device.cells[i] == 255
    {
      var _ :- device.WriteEnable();
      var _ :- device.Erase(address, size);
      var _ :- device.WaitReady();
      return OK;
    }

    /** Erases and programs the dirty sectors of a block one by one. */
    method CommitBlock4k(bss: nat) returns (r: Status)
      requires Valid() && (device.isProtected ==> Locked())
      requires bss % SECTORS_PER_BLOCK == 0 && (bss + SECTORS_PER_BLOCK) * SECTOR_SIZE <= memSize
      modifies device, sectorDirty
      ensures Valid() && device.isProtected == old(device.isProtected)
      ensures if r.Success? then device.faults == old(device.faults)
              else r == Failure(Io) && device.faults > old(device.faults)
      ensures SameOutside(old(device.cells), device.cells, bss * SECTOR_SIZE, BLOCK_SIZE)
      ensures Cleaned(old(sectorDirty[..]), sectorDirty[..], bss)
      ensures r.Success? && device.isProtected ==> device.cells == old(device.cells)
      ensures !device.isProtected ==>
        forall i ::
          bss * SECTOR_SIZE <= i < (bss + SECTORS_PER_BLOCK) * SECTOR_SIZE && !sectorDirty[i / SECTOR_SIZE] ==>
            device.cells[i] == if old(sectorDirty[i / SECTOR_SIZE]) then contents[i] else old(device.cells[i])
      ensures r.Success? ==> forall s :: bss <= s < bss + SECTORS_PER_BLOCK ==> !sectorDirty[s]
    {
      var i := 0;
      while i < SECTORS_PER_BLOCK
        invariant 0 <= i <= SECTORS_PER_BLOCK
        invariant Valid() && device.isProtected == old(device.isProtected) && device.faults == old(device.faults)
        invariant SameOutside(old(device.cells), device.cells, bss * SECTOR_SIZE, i * SECTOR_SIZE)
        invariant Cleaned(old(sectorDirty[..]), sectorDirty[..], bss)
        invariant forall s :: bss <= s < bss + i ==> !sectorDirty[s]
        invariant forall s :: bss + i <= s < MAX_SECTORS ==> sectorDirty[s] == old(sectorDirty[s])
        invariant device.isProtected ==> device.cells == old(device.cells)
        invariant !device.isProtected ==> forall k :: bss * SECTOR_SIZE <= k < (bss + i) * SECTOR_SIZE ==>
          device.cells[k] == if old(sectorDirty[k / SECTOR_SIZE]) then contents[k] else old(device.cells[k])
      {
        if sectorDirty[bss + i] {
          var _ :- CommitSector(bss + i);
          sectorDirty[bss + i] := false;
        }
        i := i + 1;
      }
      return OK;
    }

    method CommitSector(sector: nat) returns (r: Status)
      requires Valid() && (device.isProtected ==> Locked())
      requires (sector + 1) * SECTOR_SIZE <= memSize && sectorIsPresent[sector]
      modifies device
      ensures Valid() && device.isProtected == old(device.isProtected)
      ensures if r.Success? then device.faults == old(device.faults)
              else r == Failure(Io) && device.faults > old(device.faults)
      ensures SameOutside(old(device.cells), device.cells, sector * SECTOR_SIZE, SECTOR_SIZE)
      ensures r.Success? && device.isProtected ==> device.cells == old(device.cells)
      ensures r.Success? && !device.isProtected ==>
        forall i :: sector * SECTOR_SIZE <= i < (sector + 1) * SECTOR_SIZE ==>
        device.cells[i] == contents[i]
    {
      var _ :- EraseRange(sector * SECTOR_SIZE, SECTOR_SIZE);
      var _ :- WriteSector(sector);
      return OK;
    }

    /** Makes sure that a whole block has been read, before it is erased. */
    method ReadBlock(bss: nat) returns (r: Status)
      requires Valid()
      modifies mem, sectorIsPresent, device`faults
      ensures Valid()
      ensures device.faults >= old(device.faults) && (r == Failure(Io) <==> device.faults > old(device.faults))
      ensures r != Failure(Io) ==> (r.Success? <==> (bss + SECTORS_PER_BLOCK) * SECTOR_SIZE <= memSize)
      ensures r.Success? ==> forall s :: bss <= s < bss + SECTORS_PER_BLOCK ==> sectorIsPresent[s]
    {
      var i := 0;
      while i < SECTORS_PER_BLOCK
        invariant 0 <= i <= SECTORS_PER_BLOCK
        invariant Valid() && device.faults == old(device.faults)
        invariant i == 0 || (bss + i) * SECTOR_SIZE <= memSize
        invariant forall s :: bss <= s < bss + i ==> sectorIsPresent[s]
      {
        var _ :- CheckSectorPresent(bss + i);
        i := i + 1;
      }
      return OK;
    }

    /** Erases a block and programs it sector by sector; `done` sectors have been programmed when it ends. */
    method CommitBlock64k(bss: nat) returns (r: Status, ghost done: nat)
      requires Valid() && (device.isProtected ==> Locked())
      requires bss % SECTORS_PER_BLOCK == 0
      modifies device, mem, sectorIsPresent, sectorDirty
      ensures Valid() && device.isProtected == old(device.isProtected)
      ensures if r.Success? then device.faults == old(device.faults)
              else
                || (r == Failure(Io) && device.faults > old(device.faults))
                || (bss + SECTORS_PER_BLOCK) * SECTOR_SIZE > memSize
      ensures SameOutside(old(device.cells), device.cells, bss * SECTOR_SIZE, BLOCK_SIZE)
      ensures Cleaned(old(sectorDirty[..]), sectorDirty[..], bss)
      ensures done <= SECTORS_PER_BLOCK && (r.Success? <==> done == SECTORS_PER_BLOCK)
      ensures done > 0 ==> (bss + SECTORS_PER_BLOCK) * SECTOR_SIZE <= memSize
      ensures forall s :: bss <= s < bss + done ==> !sectorDirty[s]
      ensures forall s :: bss + done <= s < MAX_SECTORS ==> sectorDirty[s] == old(sectorDirty[s])
      ensures r.Success? && device.isProtected ==> device.cells == old(device.cells)
      ensures !device.isProtected ==>
        forall i :: bss * SECTOR_SIZE <= i < (bss + done) * SECTOR_SIZE ==> device.cells[i] == contents[i]
    {
      done := 0;
      var _ :- ReadBlock(bss);
      var _ :- EraseRange(bss * SECTOR_SIZE, BLOCK_SIZE);
      r, done := ProgramBlock(bss);
    }

    /** Programs an erased block sector by sector. */
    method ProgramBlock(bss: nat) returns (r: Status, ghost done: nat)
      requires Valid() && (device.isProtected ==> Locked())
      requires bss % SECTORS_PER_BLOCK == 0 && (bss + SECTORS_PER_BLOCK) * SECTOR_SIZE <= memSize
      requires forall s :: bss <= s < bss + SECTORS_PER_BLOCK ==> sectorIsPresent[s]
      requires !device.isProtected ==>
        forall i :: bss * SECTOR_SIZE <= i < bss * SECTOR_SIZE + BLOCK_SIZE ==> device.cells[i] == 255
      modifies device, sectorDirty
      ensures Valid() && device.isProtected == old(device.isProtected)
      ensures if r.Success? then device.faults == old(device.faults)
              else r == Failure(Io) && device.faults > old(device.faults)
      ensures SameOutside(old(device.cells), device.cells, bss * SECTOR_SIZE, BLOCK_SIZE)
      ensures done <= SECTORS_PER_BLOCK && (r.Success? <==> done == SECTORS_PER_BLOCK)
      ensures forall s :: bss <= s < bss + done ==> !sectorDirty[s]
      ensures forall s :: 0 <= s < MAX_SECTORS && !(bss <= s < bss + done) ==> sectorDirty[s] == old(sectorDirty[s])
      ensures r.Success? && device.isProtected ==> device.cells == old(device.cells)
      ensures !device.isProtected ==>
        forall i :: bss * SECTOR_SIZE <= i < (bss + done) * SECTOR_SIZE ==> device.cells[i] == contents[i]
    {
      done := 0;
      var i := 0;
      while i < SECTORS_PER_BLOCK
        invariant 0 <= i == done <= SECTORS_PER_BLOCK
        invariant Valid() && device.isProtected == old(device.isProtected) && device.faults == old(device.faults)
        invariant SameOutside(old(device.cells), device.cells, bss * SECTOR_SIZE, BLOCK_SIZE)
        invariant forall s :: bss <= s < bss + i ==> !sectorDirty[s]
        invariant forall s :: 0 <= s < MAX_SECTORS && !(bss <= s < bss + i) ==> sectorDirty[s] == old(sectorDirty[s])
        invariant device.isProtected ==> device.cells == old(device.cells)
        invariant !device.isProtected ==>
          forall k :: bss * SECTOR_SIZE <= k < (bss + i) * SECTOR_SIZE ==> device.cells[k] == contents[k]
        invariant !device.isProtected ==>
          forall k :: (bss + i) * SECTOR_SIZE <= k < bss * SECTOR_SIZE + BLOCK_SIZE ==> device.cells[k] == 255
      {
        var _ :- WriteSector(bss + i);
        sectorDirty[bss + i] := false;
        i, done := i + 1, done + 1;
      }
      return OK, done;
    }

    method RemoveBlockProtection() returns (r: Status)
      modifies this`blockProtectionRemoved, device
      ensures device.cells == old(device.cells)
      ensures if r.Success? then device.faults == old(device.faults)
              else r == Failure(Io) && device.faults > old(device.faults)
      ensures r.Success? ==>
        blockProtectionRemoved && (device.isProtected ==> old(blockProtectionRemoved && device.isProtected))
      ensures r.Failure? ==>
        blockProtectionRemoved == old(blockProtectionRemoved) && (device.isProtected ==> old(device.isProtected))
    {
      if !blockProtectionRemoved {
        var _ :- device.WriteEnable();
        var _ :- device.ClearBlockProtection();
        var _ :- device.WaitReady();
        blockProtectionRemoved := true;
      }
      return OK;
    }

    /** Compares the checksum of a block of the cache with that of the flash. */
    method VerifyChecksum(address: nat) returns (r: Status)
      requires mem.Length == |device.cells| && address + BLOCK_SIZE <= mem.Length
      requires mem[address..address + BLOCK_SIZE] == device.cells[address..address + BLOCK_SIZE]
      modifies device`faults
      ensures if r.Success? then device.faults == old(device.faults)
              else r == Failure(Io) && device.faults > old(device.faults)
    {
      var checksum: nat, i := 0, address;
      while i < address + BLOCK_SIZE
        invariant address <= i <= address + BLOCK_SIZE
        invariant checksum == Sum(mem[address..i])
      {
        checksum := checksum + mem[i];
        i := i + 1;
        assert mem[address..i][..i - 1 - address] == mem[address..i - 1];
      }
      var ok, reported := device.GetChecksum(address, BLOCK_SIZE);
      if !ok || reported != checksum % 0x10000 {
        return Failure(Io);
      }
      return OK;
    }

    /** Erases a present block and programs it in one large page write. */
    method RewriteBlock(bss: nat) returns (r: Status)
      requires Valid() && !device.isProtected
      requires bss % SECTORS_PER_BLOCK == 0 && (bss + SECTORS_PER_BLOCK) * SECTOR_SIZE <= memSize
      requires forall s :: bss <= s < bss + SECTORS_PER_BLOCK ==> sectorIsPresent[s]
      modifies device
      ensures Valid() && !device.isProtected
      ensures if r.Success? then device.faults == old(device.faults)
              else r == Failure(Io) && device.faults > old(device.faults)
      ensures SameOutside(old(device.cells), device.cells, bss * SECTOR_SIZE, BLOCK_SIZE)
      ensures r.Success? ==> forall i :: bss * SECTOR_SIZE <= i < bss * SECTOR_SIZE + BLOCK_SIZE ==>
        device.cells[i] == contents[i] == mem[i]
    {
      var address := bss * SECTOR_SIZE;
      var _ :- EraseRange(address, BLOCK_SIZE);
      var _ :- device.WriteEnable();
      var _ :- device.ProgramPage(address, mem[address..address + BLOCK_SIZE]);
      var _ :- device.WaitReady();
      return OK;
    }

    /** Erases a block and programs it with one command, verified by the device's checksum. */
    method CommitBlock64kAtOnce(bss: nat) returns (r: Status)
      requires Valid() && (device.isProtected ==> !blockProtectionRemoved)
      requires bss % SECTORS_PER_BLOCK == 0
      modifies this`blockProtectionRemoved, device, mem, sectorIsPresent, sectorDirty
      ensures Valid()
      ensures if r.Success? then device.faults == old(device.faults)
              else
                || (r == Failure(Io) && device.faults > old(device.faults))
                || (bss + SECTORS_PER_BLOCK) * SECTOR_SIZE > memSize
      ensures SameOutside(old(device.cells), device.cells, bss * SECTOR_SIZE, BLOCK_SIZE)
      ensures Cleaned(old(sectorDirty[..]), sectorDirty[..], bss)
      ensures r.Failure? ==> sectorDirty[..] == old(sectorDirty[..])
      ensures r.Success? ==> (bss + SECTORS_PER_BLOCK) * SECTOR_SIZE <= memSize
      ensures r.Success? ==> forall s :: bss <= s < bss + SECTORS_PER_BLOCK ==> !sectorDirty[s]
      ensures r.Success? ==> forall i :: bss * SECTOR_SIZE <= i < (bss + SECTORS_PER_BLOCK) * SECTOR_SIZE ==>
        device.cells[i] == contents[i]
    {
      var address := bss * SECTOR_SIZE;
      var _ :- ReadBlock(bss);
      var _ :- RemoveBlockProtection();
      var _ :- RewriteBlock(bss);
      if hasChecksum {
        var _ :- VerifyChecksum(address);
      }
      forall s | bss <= s < bss + SECTORS_PER_BLOCK {
        sectorDirty[s] := false;
      }
      return OK;
    }

    method CountDirty(bss: nat) returns (count: nat)
      requires bss + SECTORS_PER_BLOCK <= sectorDirty.Length
      ensures count == DirtyCount(sectorDirty[..], bss, SECTORS_PER_BLOCK)
    {
      count := 0;
      for j := 0 to SECTORS_PER_BLOCK
        invariant count == DirtyCount(sectorDirty[..], bss, j)
      {
        if sectorDirty[bss + j] {
          count := count + 1;
        }
      }
    }

    /** Commits one block if it has dirty sectors, choosing the cheapest way to do so. */
    method CommitBlock(bss: nat) returns (r: Status)
      requires Valid()
      requires bss % SECTORS_PER_BLOCK == 0 && (bss + SECTORS_PER_BLOCK) * SECTOR_SIZE <= memSize
      modifies this`blockProtectionRemoved, device, mem, sectorIsPresent, sectorDirty
      ensures Valid() && Locked() == old(Locked())
      ensures if r.Success? then device.faults == old(device.faults)
              else r == Failure(Io) && device.faults > old(device.faults)
      ensures SameOutside(old(device.cells), device.cells, bss * SECTOR_SIZE, BLOCK_SIZE)
      ensures Cleaned(old(sectorDirty[..]), sectorDirty[..], bss)
      ensures DirtyCount(old(sectorDirty[..]), bss, SECTORS_PER_BLOCK) == 0 ==> device.cells == old(device.cells)
      ensures r.Success? ==> forall s :: bss <= s < bss + SECTORS_PER_BLOCK ==> !sectorDirty[s]
      ensures r.Success? && Locked() ==> device.cells == old(device.cells)
      ensures r.Success? && !Locked() ==>
        BlockEffect(old(sectorDirty[..]), has4kSectors, pp64k, old(device.cells), device.cells, contents, bss)
      ensures !Locked() ==>
        BlockStep(old(sectorDirty[..]), Synced(old(device.cells), contents),
                  sectorDirty[..], Synced(device.cells, contents), has4kSectors, pp64k, bss)
    {
      hide DirtyCount, Interrupted, SectorBySector, Synced;
      ghost var was, before := sectorDirty[..], device.cells;
      var dirtySectors := CountDirty(bss);
      DirtyCountZero(was, bss, SECTORS_PER_BLOCK);
      if dirtySectors == 0 {
        return OK;
      }
      if pp64k {
        r := CommitBlock64kAtOnce(bss);
        if r.Success? {
          InterruptedAt(was, sectorDirty[..], device.cells, contents, bss, SECTORS_PER_BLOCK);
        }
      } else if dirtySectors < WHOLE_BLOCK_THRESHOLD && has4kSectors {
        r := CommitBlock4k(bss);
        if !Locked() {
          SectorBySectorAt(was, sectorDirty[..], before, device.cells, contents, bss);
        }
      } else {
        ghost var done;
        r, done := CommitBlock64k(bss);
        if !Locked() {
          InterruptedAt(was, sectorDirty[..], device.cells, contents, bss, done);
        }
      }
    }

    /** Writes every dirty block back. It succeeds exactly when no device command fails; then no
        sector is dirty and the flash holds the contents in every sector that it programmed. */
    method Commit() returns (r: Status)
      requires Valid()
      modifies this`blockProtectionRemoved, device, mem, sectorIsPresent, sectorDirty
      ensures Valid() && Locked() == old(Locked())
      ensures if r.Success? then device.faults == old(device.faults)
              else r == Failure(Io) && device.faults > old(device.faults)
      ensures CleanBlocksKept(old(sectorDirty[..]), old(device.cells), device.cells)
      ensures r.Success? ==> forall s :: 0 <= s < memSize / SECTOR_SIZE ==> !sectorDirty[s]
      ensures r.Success? && Locked() ==> device.cells == old(device.cells)
      ensures r.Success? && !Locked() ==>
        CommitEffect(old(sectorDirty[..]), has4kSectors, pp64k, old(device.cells), device.cells, contents, memSize)
      ensures r.Success? && !Locked() ==>
        (device.cells == contents <==> RestInSync(old(sectorDirty[..]), has4kSectors, pp64k, old(device.cells),
                                                  contents))
      ensures r.Success? && old(Coherent()) ==>
        (device.cells == contents <==> !Locked() || old(device.cells) == contents)
      ensures r.Success? && !Locked() && old(Repairable()) ==> device.cells == contents && Repairable()
      ensures r.Success? && !Locked() ==> StaysInSync()
      ensures !Locked() && old(Repairable() && FailsSafely()) ==> Repairable() && FailsSafely()
    {
      hide RestInSync, CleanBlocksKept, SafeToFail, Recoverable, BlockStep, Synced, CommitEffect, BlockEffect,
           DirtyCount;
      ghost var was := sectorDirty[..];
      var i, sectors := 0, memSize / SECTOR_SIZE;
      WholeBlocks(memSize);
      NothingChanged(was, device.cells);
      while i < sectors
        invariant 0 <= i <= sectors && i % SECTORS_PER_BLOCK == 0
        invariant Valid() && device.faults == old(device.faults) && Locked() == old(Locked())
        invariant CleanBlocksKept(was, old(device.cells), device.cells)
        invariant forall s :: 0 <= s < i ==> !sectorDirty[s]
        invariant forall s :: i <= s < MAX_SECTORS ==> sectorDirty[s] == was[s]
        invariant Locked() ==> device.cells == old(device.cells)
        invariant !Locked() ==>
          CommitEffect(was, has4kSectors, pp64k, old(device.cells), device.cells, contents, i * SECTOR_SIZE)
        invariant forall k :: i * SECTOR_SIZE <= k < memSize ==> device.cells[k] == old(device.cells[k])
        invariant !Locked() && old(Repairable() && FailsSafely()) ==> Repairable() && FailsSafely()
      {
        ghost var dirty, middle := sectorDirty[..], device.cells;
        DirtyCountFrame(was, dirty, i, SECTORS_PER_BLOCK);
        r := CommitBlock(i);
        CleanBlocksStay(was, old(device.cells), middle, device.cells, i);
        if !Locked() {
          BlockCommitted(dirty, sectorDirty[..], middle, device.cells, contents, has4kSectors, pp64k, i);
        }
        if r.Failure? {
          return;
        }
        if !Locked() {
          CommitNextBlock(was, dirty, has4kSectors, pp64k, old(device.cells), middle, device.cells, contents, i);
        }
        i := i + SECTORS_PER_BLOCK;
      }
      if Locked() {
        return OK;
      }
      CommitSynchronizes(was, has4kSectors, pp64k, old(device.cells), device.cells, contents);
      if old(Repairable()) {
        RecoverableIsRepaired(was, has4kSectors, pp64k, old(device.cells), contents);
        CoherentIsRepairable();
      }
      return OK;
    }

    /** Writes and attempts to commit, in any order and with any faults. A commit that succeeds leaves the contents in
        the flash, provided that those that failed before it started from dirty flags on which failing is safe, and that
        the flash was coherent or repairable in the beginning. On devices that program 64 KiB at once this is always
        so. */
    method Session(calls: seq<Call>) returns (log: seq<Entry>)
      requires Valid() && (Coherent() || Repairable())
      modifies this`contents, this`blockProtectionRemoved, device, mem, sectorIsPresent, sectorDirty
      ensures Valid() && |log| == |calls| && Locked() == old(Locked())
      ensures !Locked() && AllSafe(log, calls, has4kSectors, pp64k) ==> Repairable()
      ensures !Locked() && AllSafe(log, calls, has4kSectors, pp64k) && LastCommitted(log, calls) ==>
        device.cells == contents
      ensures pp64k ==> AllSafe(log, calls, has4kSectors, pp64k)
    {
      hide Valid, SafeToFail, Recoverable, Coherent, Synced;
      log := [];
      if Coherent() {
        CoherentIsRepairable();
      }
      for i := 0 to |calls|
        invariant |log| == i && Valid() && Locked() == old(Locked())
        invariant !Locked() && AllSafe(log, calls, has4kSectors, pp64k) ==> Repairable()
        invariant !Locked() && AllSafe(log, calls, has4kSectors, pp64k) && LastCommitted(log, calls) ==>
          device.cells == contents
      {
        var dirty, r := sectorDirty[..], OK;
        match calls[i] {
          case Write(offset, data) => r := WriteMem(offset, data);
          case TryCommit => r := Commit();
        }
        ghost var before := log;
        log := log + [Entry(dirty, r)];
        assert AllSafe(log, calls, has4kSectors, pp64k) ==> AllSafe(before, calls, has4kSectors, pp64k);
        assert log[i] == Entry(dirty, r);
      }
      AtOnceIsSafe(log, calls, has4kSectors);
    }
  }
}
