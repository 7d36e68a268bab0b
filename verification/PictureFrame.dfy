/** The picture frame driver: its file table, its allocator and its defragmentation. */
module PictureFrame {
  import opened Bytes
  import opened Wrappers
  import opened FileTable
  import opened Allocation
  import opened PictureStore
  import opened SectorCache

  class Frame {
    const cache: Cache
    const g: Geometry

    ghost predicate Valid()
      reads this, cache, cache.device`cells, cache.device`isProtected, cache.mem
      reads cache.sectorIsPresent, cache.sectorDirty
    {
      cache.Valid() && g.Holds(cache.contents)
    }

    ghost predicate ValidStore()
      reads this, cache, cache.device`cells, cache.device`isProtected, cache.mem
      reads cache.sectorIsPresent, cache.sectorDirty
    {
      Valid() && WellFormed(g, cache.contents)
    }

    constructor (cache: Cache, g: Geometry)
      requires cache.Valid() && g.Holds(cache.contents)
      ensures Valid() && this.cache == cache && this.g == g
    {
      this.cache, this.g := cache, g;
    }

    method ReadFileinfo(idx: int) returns (r: Result<FileInfo>)
      requires Valid()
      modifies cache.mem, cache.sectorIsPresent, cache.device`faults
      ensures Valid()
      ensures cache.device.faults >= old(cache.device.faults)
      ensures r == Failure(Io) <==> cache.device.faults > old(cache.device.faults)
      ensures r != Failure(Io) ==>
              r == if 0 <= idx < g.version.MaxFileCount() then Success(Slot(g, cache.contents, idx))
                   else Failure(BadParameters)
    {
      if !(0 <= idx < g.version.MaxFileCount()) {
        return Failure(BadParameters);
      }
      SlotInTable(g, cache.contents, idx);
      var raw :- cache.ReadMem(g.SlotStart(idx), g.version.SlotSize());
      return Success(DecodeSlot(g, raw));
    }

    method WriteFileinfo(idx: nat, info: FileInfo) returns (r: Status)
      requires Valid() && idx < g.version.MaxFileCount()
      modifies cache`contents, cache.mem, cache.sectorIsPresent, cache.sectorDirty, cache.device`faults
      ensures Valid() && cache.StaysInSync()
      ensures FixedKept(g, old(cache.contents), cache.contents)
      ensures cache.device.faults >= old(cache.device.faults)
      ensures r == Failure(Io) <==> cache.device.faults > old(cache.device.faults)
      ensures r != Failure(Io) ==> r == if EncodeSlot(g, info, 0).Success? then OK else Failure(BadParameters)
      ensures r == Failure(BadParameters) ==> cache.contents == old(cache.contents)
      ensures r.Success? ==> TableOf(g, cache.contents) == TableOf(g, old(cache.contents))[idx := Readback(g, info)]
      ensures r.Success? ==> SameArea(g, old(cache.contents), cache.contents)
    {
      var pad: byte := *;
      PaddingIsIgnored(g, info, pad);
      var raw :- EncodeSlot(g, info, pad);
      SlotInTable(g, cache.contents, idx);
      WriteSlotInTable(g, cache.contents, idx, info, pad);
      SlotNotFixed(g, cache.contents, idx);
      r := cache.WriteMem(g.SlotStart(idx), raw);
      ChangeKeepsFixed(g, old(cache.contents), cache.contents, g.SlotStart(idx), |raw|);
      if r.Failure? {
        return;
      }
      return OK;
    }

    /** The AX203 format keeps a file count byte, the others keep none. */
    method WriteFilecount(count: nat) returns (r: Status)
      requires Valid()
      modifies cache`contents, cache.mem, cache.sectorIsPresent, cache.sectorDirty, cache.device`faults
      ensures Valid() && cache.StaysInSync()
      ensures FixedKept(g, old(cache.contents), cache.contents)
      ensures cache.device.faults >= old(cache.device.faults)
      ensures r == Failure(Io) <==> cache.device.faults > old(cache.device.faults)
      ensures r.Success? || r == Failure(Io)
      ensures r.Success? && g.version.AX203? ==>
        cache.contents == Splice(old(cache.contents), g.fsStart + COUNT_OFFSET, [count % 256])
      ensures !g.version.AX203? ==> cache.contents == old(cache.contents)
    {
      if g.version.AX203? {
        SlotInTable(g, cache.contents, 0);
        TableNotFixed(g);
        r := cache.WriteMem(g.fsStart + COUNT_OFFSET, [count % 256]);
        ChangeKeepsFixed(g, old(cache.contents), cache.contents, g.fsStart + COUNT_OFFSET, 1);
        if r.Failure? {
          return;
        }
      }
      return OK;
    }

    method CountFiles() returns (r: Result<nat>)
      requires Valid()
      modifies cache.mem, cache.sectorIsPresent, cache.device`faults
      ensures Valid()
      ensures cache.device.faults >= old(cache.device.faults)
      ensures r == Failure(Io) <==> cache.device.faults > old(cache.device.faults)
      ensures r != Failure(Io) ==> r == Success(FileCount(TableOf(g, cache.contents)))
    {
      hide Cache.Valid, Cache.Coherent, Cache.Repairable, IsFixed, Slot;
      var max := g.version.MaxFileCount();
      var i, count := 0, 0;
      ghost var t := TableOf(g, cache.contents);
      while i < max
        invariant 0 <= i <= max && Valid() && cache.device.faults == old(cache.device.faults)
        invariant count <= i && (count > 0 ==> t[count - 1].present)
        invariant forall k :: count <= k < i ==> !t[k].present
      {
        var fileinfo :- ReadFileinfo(i);
        if fileinfo.present {
          count := i + 1;
        }
        i := i + 1;
      }
      FileCountUnique(t, count);
      return Success(count);
    }

    method UpdateFilecount() returns (r: Status)
      requires Valid()
      modifies cache`contents, cache.mem, cache.sectorIsPresent, cache.sectorDirty, cache.device`faults
      ensures Valid() && cache.StaysInSync()
      ensures FixedKept(g, old(cache.contents), cache.contents)
      ensures cache.device.faults >= old(cache.device.faults)
      ensures r == Failure(Io) <==> cache.device.faults > old(cache.device.faults)
      ensures r.Success? || r == Failure(Io)
      ensures r.Success? ==> TableOf(g, cache.contents) == TableOf(g, old(cache.contents))
      ensures r.Success? ==> SameArea(g, old(cache.contents), cache.contents)
      ensures r.Success? && g.version.AX203? ==>
        cache.contents[g.fsStart + COUNT_OFFSET] == FileCount(TableOf(g, cache.contents)) % 256
    {
      hide Cache.Valid, Cache.Coherent, Cache.Repairable, IsFixed, Slot;
      var count :- CountFiles();
      CountByteIsIgnored(g, cache.contents, count % 256);
      r := WriteFilecount(count);
    }

    /** A file is read back exactly as its entry describes it. */
    method ReadRawFile(idx: int) returns (r: Result<seq<byte>>)
      requires Valid()
      requires 0 <= idx < g.version.MaxFileCount() ==> Addressable(Slot(g, cache.contents, idx))
      modifies cache.mem, cache.sectorIsPresent, cache.device`faults
      ensures Valid() && cache.StaysInSync()
      ensures cache.device.faults >= old(cache.device.faults)
      ensures r == Failure(Io) <==> cache.device.faults > old(cache.device.faults)
      ensures r != Failure(Io) ==> r == ReadSpec(g, cache.contents, idx)
    {
      hide Cache.Valid, Cache.Coherent, Cache.Repairable, IsFixed, Slot;
      var fileinfo :- ReadFileinfo(idx);
      if !fileinfo.present {
        return Failure(BadParameters);
      }
      r := cache.ReadMem(fileinfo.address, fileinfo.size);
    }

    method DeleteFile(idx: int) returns (r: Status)
      requires ValidStore()
      modifies cache`contents, cache.mem, cache.sectorIsPresent, cache.sectorDirty, cache.device`faults
      ensures Valid() && cache.StaysInSync()
      ensures FixedKept(g, old(cache.contents), cache.contents)
      ensures cache.device.faults >= old(cache.device.faults)
      ensures r == Failure(Io) <==> cache.device.faults > old(cache.device.faults)
      ensures r != Failure(Io) ==> ValidStore()
      ensures r != Failure(Io) ==> (r.Success? <==> idx in Files(g, old(cache.contents)))
      ensures r.Success? ==> Files(g, cache.contents) == Files(g, old(cache.contents)) - {idx}
      ensures r.Success? ==>
        FreeBytes(AreaOf(g), TableOf(g, cache.contents)) ==
        FreeBytes(AreaOf(g), TableOf(g, old(cache.contents))) + |Files(g, old(cache.contents))[idx]|
      ensures r.Failure? && r != Failure(Io) ==> r == Failure(BadParameters) && cache.contents == old(cache.contents)
    {
      hide Cache.Valid, Cache.Coherent, Cache.Repairable, IsFixed, Slot;
      var fileinfo :- ReadFileinfo(idx);
      if !fileinfo.present {
        return Failure(BadParameters);
      }
      ghost var before, t := cache.contents, TableOf(g, cache.contents);
      DeletedEntry(g, before, idx);
      var _ :- WriteFileinfo(idx, fileinfo.(present := false));
      ghost var entry := Readback(g, fileinfo.(present := false));
      var _ :- UpdateFilecount();
      RemoveFile(AreaOf(g), t, before, cache.contents, idx, entry);
      UsedBytesUpdate(t, idx, entry);
      return OK;
    }

    /** Empties the store, whatever the table held before. */
    method DeleteAll() returns (r: Status)
      requires Valid()
      modifies cache`contents, cache.mem, cache.sectorIsPresent, cache.sectorDirty, cache.device`faults
      ensures Valid() && cache.StaysInSync()
      ensures FixedKept(g, old(cache.contents), cache.contents)
      ensures cache.device.faults >= old(cache.device.faults)
      ensures r == Failure(Io) <==> cache.device.faults > old(cache.device.faults)
      ensures r.Success? || r == Failure(Io)
      ensures r.Success? ==> ValidStore() && Files(g, cache.contents) == map[]
      ensures r.Success? ==> UsedBytes(TableOf(g, cache.contents)) == 0
      ensures r.Success? ==> forall i :: 0 <= i < g.version.MaxFileCount() ==> !TableOf(g, cache.contents)[i].present
    {
      hide Cache.Valid, Cache.Coherent, Cache.Repairable, IsFixed, Slot, Sound, UsedBytes, Files;
      var file0Offset := g.version.FileOffset();
      ZeroedTable(g, cache.contents);
      TableNotFixed(g);
      r := cache.WriteMem(g.fsStart + file0Offset, Zeros(ABFS_SIZE - file0Offset));
      ChangeKeepsFixed(g, old(cache.contents), cache.contents, g.fsStart + file0Offset, ABFS_SIZE - file0Offset);
      if r.Failure? {
        return;
      }
      var _ :- UpdateFilecount();
      NoFiles(g, cache.contents);
      return OK;
    }

    /** The reserved memory and the files, in slot order. */
    method CollectEntries(table: array<FileInfo>) returns (r: Result<nat>)
      requires Valid() && table.Length == ABFS_SIZE / 2
      modifies table, cache.mem, cache.sectorIsPresent, cache.device`faults
      ensures Valid() && cache.StaysInSync()
      ensures cache.device.faults >= old(cache.device.faults)
      ensures r == Failure(Io) <==> cache.device.faults > old(cache.device.faults)
      ensures r.Success? || r == Failure(Io)
      ensures r.Success? ==> 0 < r.value < table.Length
      ensures r.Success? ==> table[..r.value] == [ReservedRegion(AreaOf(g))] + Entries(TableOf(g, cache.contents))
    {
      hide Cache.Valid, Cache.Coherent, Cache.Repairable, IsFixed, Slot;
      var found, i, count := 1, 0, g.version.MaxFileCount();
      ghost var t := TableOf(g, cache.contents);
      table[0] := ReservedRegion(AreaOf(g));
      while i < count
        invariant 0 <= i <= count && 0 < found <= i + 1
        invariant Valid() && cache.device.faults == old(cache.device.faults) && cache.StaysInSync()
        invariant table[..found] == [ReservedRegion(AreaOf(g))] + Entries(t[..i])
      {
        var fileinfo :- ReadFileinfo(i);
        assert t[..i + 1][..i] == t[..i];
        if fileinfo.present {
          table[found] := fileinfo;
          found := found + 1;
        }
        i := i + 1;
      }
      assert t[..count] == t;
      return Success(found);
    }

    /** Lists the used regions of the memory in memory order. */
    method BuildUsedMemTable(table: array<FileInfo>) returns (r: Result<nat>)
      requires Valid() && table.Length == ABFS_SIZE / 2
      modifies table, cache.mem, cache.sectorIsPresent, cache.device`faults
      ensures Valid() && cache.StaysInSync()
      ensures cache.device.faults >= old(cache.device.faults)
      ensures r == Failure(Io) <==> cache.device.faults > old(cache.device.faults)
      ensures r.Success? || r == Failure(Io)
      ensures r.Success? ==> r.value <= table.Length
      ensures r.Success? ==> table[..r.value] == UsedRegions(AreaOf(g), TableOf(g, cache.contents))
    {
      hide Cache.Valid, Cache.Coherent, Cache.Repairable, IsFixed, Slot;
      var found :- CollectEntries(table);
      SortTable(table, found);
      table[found] := EndRegion(AreaOf(g));
      return Success(found + 1);
    }

    /** The summed size of all holes is the free memory. */
    method GetFreeMemSize() returns (r: Result<int>)
      requires ValidStore()
      modifies cache.mem, cache.sectorIsPresent, cache.device`faults
      ensures Valid() && cache.StaysInSync()
      ensures cache.device.faults >= old(cache.device.faults)
      ensures r == Failure(Io) <==> cache.device.faults > old(cache.device.faults)
      ensures r != Failure(Io) ==> r == Success(FreeBytes(AreaOf(g), TableOf(g, cache.contents)))
    {
      hide Cache.Valid, Cache.Coherent, Cache.Repairable, IsFixed, Slot;
      var usedMem := new FileInfo[ABFS_SIZE / 2];
      var usedMemCount :- BuildUsedMemTable(usedMem);
      HolesAreFreeBytes(AreaOf(g), TableOf(g, cache.contents));
      var free, i := 0, 1;
      while i < usedMemCount
        invariant 1 <= i <= usedMemCount
        invariant free == HoleSum(usedMem[..usedMemCount], i)
      {
        var prevEnd := usedMem[i - 1].End();
        free := free + (usedMem[i].address - prevEnd);
        i := i + 1;
      }
      return Success(free);
    }

    /** Stores a file in free memory, unless its slot cannot record it. */
    method StoreAt(idx: nat, address: int, buf: seq<byte>) returns (r: Status)
      requires ValidStore() && idx < g.version.MaxFileCount() && SizeFits(g, |buf|)
      requires FreeAt(AreaOf(g), TableOf(g, cache.contents), address, |buf|)
      modifies cache`contents, cache.mem, cache.sectorIsPresent, cache.sectorDirty, cache.device`faults
      ensures Valid() && cache.StaysInSync()
      ensures FixedKept(g, old(cache.contents), cache.contents)
      ensures cache.device.faults >= old(cache.device.faults)
      ensures r == Failure(Io) <==> cache.device.faults > old(cache.device.faults)
      ensures r != Failure(Io) ==> r == if Encodable(g, address, |buf|) then OK else Failure(BadParameters)
      ensures r == Failure(BadParameters) ==> cache.contents == old(cache.contents)
      ensures r.Success? ==>
        TableOf(g, cache.contents) == TableOf(g, old(cache.contents))[idx := FileInfo(address, true, |buf|)]
      ensures r.Success? ==> ValidStore() && Files(g, cache.contents) == Files(g, old(cache.contents))[idx := buf]
      ensures r.Success? ==> UsedBytes(TableOf(g, cache.contents)) + FileSize(Files(g, old(cache.contents)), idx) ==
                             UsedBytes(TableOf(g, old(cache.contents))) + |buf|
    {
      hide Cache.Valid, Cache.Coherent, Cache.Repairable, IsFixed, Slot, EncodeSlot, DecodeSlot;
      ghost var before, t := cache.contents, TableOf(g, cache.contents);
      var info := FileInfo(address, true, |buf|);
      EncodableFile(g, address, |buf|);
      var _ :- WriteFileinfo(idx, info);
      var _ :- UpdateFilecount();
      FileDataKeepsTable(g, cache.contents, address, buf);
      PicturesNotFixed(g, address, |buf|);
      ghost var entered := cache.contents;
      r := cache.WriteMem(address, buf);
      ChangeKeepsFixed(g, entered, cache.contents, address, |buf|);
      if r.Failure? {
        return;
      }
      StoreFile(AreaOf(g), t, before, cache.contents, idx, info, buf);
      UsedBytesUpdate(t, idx, info);
      FileSizeIsPresentSize(g, before, idx);
      return OK;
    }

    /** Looks for the first hole that takes a file. */
    method FindRoom(size: nat) returns (r: Result<Option<int>>, free: int)
      requires ValidStore() && 0 < size
      modifies cache.mem, cache.sectorIsPresent, cache.device`faults
      ensures Valid() && cache.StaysInSync()
      ensures cache.device.faults >= old(cache.device.faults)
      ensures r == Failure(Io) <==> cache.device.faults > old(cache.device.faults)
      ensures r.Success? || r == Failure(Io)
      ensures r.Success? && r.value.Some? ==> FreeAt(AreaOf(g), TableOf(g, cache.contents), r.value.value, size)
      ensures r.Success? && r.value.Some? ==> FirstFree(AreaOf(g), TableOf(g, cache.contents), r.value.value, size)
      ensures r.Success? && r.value.None? ==> !Fits(AreaOf(g), TableOf(g, cache.contents), size)
      ensures r.Success? && r.value.None? ==> free == FreeBytes(AreaOf(g), TableOf(g, cache.contents))
    {
      hide Cache.Valid, Cache.Coherent, Cache.Repairable, IsFixed, Slot, UsedBytes, Fits, FirstFree, Hole, HoleSum;
      free := 0;
      ghost var t := TableOf(g, cache.contents);
      var usedMem := new FileInfo[ABFS_SIZE / 2];
      var built := BuildUsedMemTable(usedMem);
      if built.Failure? {
        return Failure(Io), free;
      }
      var usedMemCount := built.value;
      UsedRegionsShape(AreaOf(g), t);
      var found, k;
      found, k, free := FindHole(usedMem, usedMemCount, size);
      if found {
        FirstHoleIsFirstFree(AreaOf(g), t, k, size);
        return Success(Some(usedMem[k - 1].End())), free;
      }
      SmallHolesHaveNoRoom(AreaOf(g), t, size);
      HolesAreFreeBytes(AreaOf(g), t);
      return Success(None), free;
    }

    /** Stores a file in the first hole that is large enough; if there is none although the memory would suffice,
        defragments it and tries again. */
    method WriteRawFile(idx: nat, buf: seq<byte>) returns (r: Status)
      requires ValidStore() && idx < g.version.MaxFileCount() && SizeFits(g, |buf|)
      modifies cache`contents, cache.mem, cache.sectorIsPresent, cache.sectorDirty, cache.device`faults
      ensures Valid() && cache.StaysInSync()
      ensures FixedKept(g, old(cache.contents), cache.contents)
      ensures cache.device.faults >= old(cache.device.faults)
      ensures r == Failure(Io) <==> cache.device.faults > old(cache.device.faults)
      ensures r != Failure(Io) ==> ValidStore()
      ensures r != Failure(Io) ==> (r.Success? <==> WriteSucceeds(g, TableOf(g, old(cache.contents)), |buf|))
      ensures r != Failure(Io) ==>
        (r == Failure(NoSpace) <==> FreeBytes(AreaOf(g), TableOf(g, old(cache.contents))) < |buf|)
      ensures r == Failure(NoSpace) ==> cache.contents == old(cache.contents)
      ensures r.Success? ==> Files(g, cache.contents) == Files(g, old(cache.contents))[idx := buf]
      ensures r.Success? ==> UsedBytes(TableOf(g, cache.contents)) + FileSize(Files(g, old(cache.contents)), idx) ==
                             UsedBytes(TableOf(g, old(cache.contents))) + |buf|
      ensures r != Failure(Io) ==> forall a :: FirstFree(AreaOf(g), TableOf(g, old(cache.contents)), a, |buf|) ==>
        StoredOrKept(r, idx, a, |buf|, old(cache.contents))
      ensures r.Failure? && r != Failure(Io) && !LosesFiles(g, TableOf(g, old(cache.contents)), |buf|) ==>
        Files(g, cache.contents) == Files(g, old(cache.contents))
      ensures r != Failure(Io) && LosesFiles(g, TableOf(g, old(cache.contents)), |buf|) ==>
        Files(g, cache.contents) == FirstFile(Files(g, old(cache.contents)))
      decreases if Fits(AreaOf(g), TableOf(g, cache.contents), |buf|) then 0 else 3
    {
      hide Cache.Valid, Cache.Coherent, Cache.Repairable, IsFixed, Slot, Sound, WriteSucceeds, LosesFiles, FirstFree,
           Fits, Packed, CanRepack;
      var retried := false;
      ghost var t := TableOf(g, cache.contents);
      while true
        invariant ValidStore() && cache.device.faults == old(cache.device.faults)
        invariant cache.StaysInSync()
        invariant Files(g, cache.contents) == Files(g, old(cache.contents))
        invariant UsedBytes(TableOf(g, cache.contents)) == UsedBytes(t)
        invariant !retried ==> cache.contents == old(cache.contents)
        invariant retried ==> !Fits(AreaOf(g), t, |buf|) && CanRepack(g, t) && |buf| <= FreeBytes(AreaOf(g), t)
        invariant retried ==> Packed(AreaOf(g), TableOf(g, cache.contents))
        invariant FixedKept(g, old(cache.contents), cache.contents)
        decreases !retried
      {
        var room, free := FindRoom(|buf|);
        if room.Failure? {
          return Failure(Io);
        }
        if retried {
          SecondTryDecides(g, t, TableOf(g, cache.contents), |buf|);
        }
        if room.value.Some? {
          if !retried {
            FirstTryDecides(g, t, room.value.value, |buf|);
          }
          r := StoreAt(idx, room.value.value, buf);
          return;
        }
        if free < |buf| {
          NoSpaceDecides(g, t, |buf|);
          return Failure(NoSpace);
        }
        r := Defrag();
        if r.Failure? {
          if r != Failure(Io) {
            FailedRepackDecides(g, t, |buf|);
          }
          return;
        }
        retried := true;
      }
    }

    /** After a write: either the file lies at this address, or nothing changed. */
    ghost predicate StoredOrKept(r: Status, idx: nat, address: int, size: int, before: seq<byte>)
      reads this, cache
      requires g.Holds(before) && g.Holds(cache.contents) && idx < g.version.MaxFileCount()
    {
      if Encodable(g, address, size) then
        r.Success? && TableOf(g, cache.contents) == TableOf(g, before)[idx := FileInfo(address, true, size)]
      else
        r == Failure(BadParameters) && cache.contents == before
    }

    /** Reads all files, empties the store and writes them back, one right behind the other. */
    method Defrag() returns (r: Status)
      requires ValidStore()
      modifies cache`contents, cache.mem, cache.sectorIsPresent, cache.sectorDirty, cache.device`faults
      ensures Valid() && cache.StaysInSync()
      ensures FixedKept(g, old(cache.contents), cache.contents)
      ensures cache.device.faults >= old(cache.device.faults)
      ensures r == Failure(Io) <==> cache.device.faults > old(cache.device.faults)
      ensures r != Failure(Io) ==> ValidStore()
      ensures r != Failure(Io) ==>
        r == if CanRepack(g, TableOf(g, old(cache.contents))) then OK else Failure(BadParameters)
      ensures r.Success? ==> Files(g, cache.contents) == Files(g, old(cache.contents))
      ensures r.Success? ==> Packed(AreaOf(g), TableOf(g, cache.contents))
      ensures r.Success? ==> UsedBytes(TableOf(g, cache.contents)) == UsedBytes(TableOf(g, old(cache.contents)))
      ensures r == Failure(BadParameters) ==> Files(g, cache.contents) == FirstFile(Files(g, old(cache.contents)))
      decreases 2
    {
      hide Cache.Valid, Cache.Coherent, Cache.Repairable, IsFixed, Slot, Sound, Packed, UsedBytes, CanRepack,
           FirstFile;
      ghost var before := cache.contents;
      var pictures: seq<seq<byte>>, fileinfo: Table;
      r, fileinfo, pictures := ReadAll();
      if r.Failure? {
        return;
      }
      var _ :- DeleteAll();
      EmptyStore(g, before, cache.contents);
      var i := 0;
      while i < |fileinfo|
        invariant 0 <= i <= |fileinfo| && cache.device.faults == old(cache.device.faults)
        invariant Valid() && cache.StaysInSync()
        invariant PartlyRepacked(g, before, cache.contents, i)
        invariant FixedKept(g, before, cache.contents)
      {
        if fileinfo[i].present {
          var _ :- WriteBack(i, pictures[i], before);
        } else {
          SkipSlot(g, before, cache.contents, i);
        }
        i := i + 1;
      }
      FullyRepacked(g, before, cache.contents);
      return OK;
    }

    /** One round of the loop above. */
    method WriteBack(idx: nat, picture: seq<byte>, ghost before: seq<byte>) returns (r: Status)
      requires Valid() && WellFormed(g, before) && idx in Files(g, before) && idx < g.version.MaxFileCount()
      requires picture == Files(g, before)[idx]
      requires PartlyRepacked(g, before, cache.contents, idx)
      modifies cache`contents, cache.mem, cache.sectorIsPresent, cache.sectorDirty, cache.device`faults
      ensures Valid() && cache.StaysInSync()
      ensures FixedKept(g, old(cache.contents), cache.contents)
      ensures cache.device.faults >= old(cache.device.faults)
      ensures r == Failure(Io) <==> cache.device.faults > old(cache.device.faults)
      ensures r.Success? ==> PartlyRepacked(g, before, cache.contents, idx + 1)
      ensures r.Failure? && r != Failure(Io) ==> r == Failure(BadParameters) && !CanRepack(g, TableOf(g, before))
      ensures r.Failure? && r != Failure(Io) ==>
        ValidStore() && Files(g, cache.contents) == FirstFile(Files(g, before))
      decreases 1
    {
      hide Cache.Valid, Cache.Coherent, Cache.Repairable, IsFixed, Slot, Sound, Packed, UsedBytes, WriteSucceeds,
           FirstFree, Fits;
      ghost var t, current := TableOf(g, before), TableOf(g, cache.contents);
      ghost var address := g.Reserved() + UsedBytes(t[..idx]);
      WriteBackGoesBehind(g, before, cache.contents, idx);
      r := WriteRawFile(idx, picture);
      if r.Success? {
        WrittenBackIsRepacked(g, before, old(cache.contents), cache.contents, idx, address);
      } else if r != Failure(Io) {
        OnlyFirstFileLeft(g, before, idx);
      }
    }

    /** The entries of all slots, and the bytes of the files among them. */
    method ReadAll() returns (r: Status, fileinfo: Table, pictures: seq<seq<byte>>)
      requires ValidStore()
      modifies cache.mem, cache.sectorIsPresent, cache.device`faults
      ensures Valid() && cache.StaysInSync()
      ensures cache.device.faults >= old(cache.device.faults)
      ensures r == Failure(Io) <==> cache.device.faults > old(cache.device.faults)
      ensures r.Success? || r == Failure(Io)
      ensures r.Success? ==> fileinfo == TableOf(g, cache.contents) && |pictures| == |fileinfo|
      ensures r.Success? ==> forall i :: 0 <= i < |fileinfo| && fileinfo[i].present ==>
        pictures[i] == Files(g, cache.contents)[i]
    {
      hide Cache.Valid, Cache.Coherent, Cache.Repairable, IsFixed, Slot;
      fileinfo, pictures := [], [];
      var i, count := 0, g.version.MaxFileCount();
      while i < count
        invariant 0 <= i <= count && Valid() && cache.device.faults == old(cache.device.faults)
        invariant cache.StaysInSync()
        invariant fileinfo == TableOf(g, cache.contents)[..i] && |pictures| == i
        invariant forall k :: 0 <= k < i && fileinfo[k].present ==> pictures[k] == Files(g, cache.contents)[k]
      {
        var info := ReadFileinfo(i);
        if info.Failure? {
          return Failure(info.error), fileinfo, pictures;
        }
        var picture := [];
        if info.value.present {
          ReadReturnsFile(g, cache.contents, i);
          var read := ReadRawFile(i);
          if read.Failure? {
            return Failure(read.error), fileinfo, pictures;
          }
          picture := read.value;
        }
        fileinfo, pictures := fileinfo + [info.value], pictures + [picture];
        i := i + 1;
      }
      return OK, fileinfo, pictures;
    }

    /** The lowest slot without a file. */
    method FindFreeAbfsSlot() returns (r: Result<nat>)
      requires ValidStore()
      modifies cache.mem, cache.sectorIsPresent, cache.device`faults
      ensures Valid() && cache.StaysInSync()
      ensures cache.device.faults >= old(cache.device.faults)
      ensures r == Failure(Io) <==> cache.device.faults > old(cache.device.faults)
      ensures r.Success? ==> IsFreeSlot(g, Files(g, cache.contents), r.value)
      ensures r.Failure? && r != Failure(Io) ==> r == Failure(NoSpace) && NoFreeSlot(g, Files(g, cache.contents))
    {
      hide Cache.Valid, Cache.Coherent, Cache.Repairable, IsFixed, Slot;
      var i, max := 0, g.version.MaxFileCount();
      while i < max
        invariant 0 <= i <= max && Valid() && cache.device.faults == old(cache.device.faults)
        invariant cache.StaysInSync()
        invariant forall k: nat :: k < i ==> k in Files(g, cache.contents)
      {
        var fileinfo :- ReadFileinfo(i);
        if !fileinfo.present {
          return Success(i);
        }
        i := i + 1;
      }
      return Failure(NoSpace);
    }

    /** Stores an encoded picture in the lowest free slot. */
    method WriteFile(buf: seq<byte>) returns (r: Status)
      requires ValidStore() && SizeFits(g, |buf|)
      modifies cache`contents, cache.mem, cache.sectorIsPresent, cache.sectorDirty, cache.device`faults
      ensures Valid() && cache.StaysInSync()
      ensures FixedKept(g, old(cache.contents), cache.contents)
      ensures cache.device.faults >= old(cache.device.faults)
      ensures r == Failure(Io) <==> cache.device.faults > old(cache.device.faults)
      ensures r != Failure(Io) ==> ValidStore()
      ensures r != Failure(Io) ==>
        (r.Success? <==>
           !NoFreeSlot(g, Files(g, old(cache.contents))) && WriteSucceeds(g, TableOf(g, old(cache.contents)), |buf|))
      ensures r.Success? ==> exists idx ::
        IsFreeSlot(g, Files(g, old(cache.contents)), idx) &&
        Files(g, cache.contents) == Files(g, old(cache.contents))[idx := buf]
      ensures r.Failure? && r != Failure(Io) &&
              (NoFreeSlot(g, Files(g, old(cache.contents))) ||
               !LosesFiles(g, TableOf(g, old(cache.contents)), |buf|)) ==>
        Files(g, cache.contents) == Files(g, old(cache.contents))
      ensures r.Failure? && r != Failure(Io) &&
              !NoFreeSlot(g, Files(g, old(cache.contents))) && LosesFiles(g, TableOf(g, old(cache.contents)), |buf|) ==>
        Files(g, cache.contents) == FirstFile(Files(g, old(cache.contents)))
    {
      hide Cache.Valid, Cache.Coherent, Cache.Repairable, IsFixed, Slot, Sound, WriteSucceeds, LosesFiles, Files;
      var abfsSlot :- FindFreeAbfsSlot();
      r := WriteRawFile(abfsSlot, buf);
    }
  }

  /** Stands in for `qsort`. */
  method SortTable(table: array<FileInfo>, n: nat)
    requires n <= table.Length
    modifies table
    ensures table[..n] == SortByAddress(old(table[..n]))
  {
    var sorted := SortByAddress(table[..n]);
    SortKeepsLength(table[..n]);
    forall i | 0 <= i < n {
      table[i] := sorted[i];
    }
  }

  /** The first hole of at least `size` bytes, and the summed size of all holes if there is none. */
  method FindHole(table: array<FileInfo>, n: nat, size: nat) returns (found: bool, k: nat, free: int)
    requires 1 <= n <= table.Length
    ensures found ==> 0 < k < n && size <= Hole(table[..n], k)
    ensures found ==> forall j :: 0 < j < k ==> Hole(table[..n], j) < size
    ensures !found ==> forall j :: 0 < j < n ==> Hole(table[..n], j) < size
    ensures !found ==> free == HoleSum(table[..n], n)
  {
    free := 0;
    k := 1;
    while k < n
      invariant 1 <= k <= n
      invariant forall j :: 0 < j < k ==> Hole(table[..n], j) < size
      invariant free == HoleSum(table[..n], k)
    {
      var prevEnd := table[k - 1].End();
      var holeSize := table[k].address - prevEnd;
      if holeSize >= size {
        return true, k, free;
      }
      free := free + holeSize;
      k := k + 1;
    }
    return false, k, free;
  }
}
