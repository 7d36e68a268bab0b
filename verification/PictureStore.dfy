/** The files of a frame, as a function of its memory contents. */
module PictureStore {
  import opened Bytes
  import opened Wrappers
  import opened FileTable
  import opened Allocation

  function AreaOf(g: Geometry): Area {
    Area(g.Reserved(), g.End())
  }

  /** Pictures go behind the table and, on the AX3003, in front of the boot loader. */
  lemma AreaInNumbers(g: Geometry)
    ensures AreaOf(g) == match g.version
                         case AX203 => Area(g.fsStart + 0x2000, g.memSize)
                         case AX206 => Area(g.fsStart + 0x1000, g.memSize)
                         case AX3003 => Area(g.fsStart + 0x1000, g.memSize - 0x1_0000)
  {
    LayoutInNumbers(g);
  }

  /** All slots of the file table in a memory image. */
  ghost function TableOf(g: Geometry, memory: seq<byte>): (t: Table)
    requires g.Holds(memory)
    ensures |t| == g.version.MaxFileCount()
    ensures forall i :: 0 <= i < |t| ==> t[i] == Slot(g, memory, i)
  {
    seq(g.version.MaxFileCount(), i requires 0 <= i < g.version.MaxFileCount() => Slot(g, memory, i))
  }

  ghost predicate WellFormed(g: Geometry, memory: seq<byte>) {
    g.Holds(memory) && Sound(AreaOf(g), TableOf(g, memory))
  }

  /** The map from slots to the bytes of their files. */
  ghost function Files(g: Geometry, memory: seq<byte>): map<nat, seq<byte>>
    requires WellFormed(g, memory)
  {
    FilesOf(AreaOf(g), TableOf(g, memory), memory)
  }

  ghost function FilesOf(area: Area, t: Table, memory: seq<byte>): map<nat, seq<byte>>
    requires Sound(area, t) && area.end <= |memory|
  {
    map i: nat | 0 <= i < |t| && t[i].present :: memory[t[i].address..t[i].End()]
  }

  /** Did only the bytes of the region `f` change inside the picture area? */
  ghost predicate OnlyChanges(area: Area, before: seq<byte>, after: seq<byte>, f: FileInfo)
    requires area.reserved >= 0 && area.end <= |before| == |after|
  {
    forall k :: area.reserved <= k < area.end && !(f.address <= k < f.End()) ==> after[k] == before[k]
  }

  /** A file stored in free memory replaces what its slot held; every other file stays. */
  lemma StoreFile(area: Area, t: Table, before: seq<byte>, after: seq<byte>, idx: nat, f: FileInfo, data: seq<byte>)
    requires Sound(area, t) && area.end <= |before| == |after| && idx < |t|
    requires f.present && 0 < f.size == |data| && FreeAt(area, t, f.address, f.size)
    requires OnlyChanges(area, before, after, f) && after[f.address..f.End()] == data
    ensures Sound(area, t[idx := f])
    ensures FilesOf(area, t[idx := f], after) == FilesOf(area, t, before)[idx := data]
  {
    StoreKeepsSound(area, t, idx, f.address, f.size);
    forall i: nat | i < |t| && t[i].present && i != idx
      ensures after[t[i].address..t[i].End()] == before[t[i].address..t[i].End()]
    {
      assert Disjoint(f, t[i]);
    }
  }

  /** Clearing a slot removes its file and no other. */
  lemma RemoveFile(area: Area, t: Table, before: seq<byte>, after: seq<byte>, idx: nat, f: FileInfo)
    requires Sound(area, t) && area.end <= |before| == |after| && idx < |t|
    requires !f.present && OnlyChanges(area, before, after, FileInfo(0, false, 0))
    ensures Sound(area, t[idx := f])
    ensures FilesOf(area, t[idx := f], after) == FilesOf(area, t, before) - {idx}
  {
    RemoveKeepsSound(area, t, idx, f);
    forall i: nat | i < |t| && t[i].present
      ensures after[t[i].address..t[i].End()] == before[t[i].address..t[i].End()]
    {
    }
  }

  /** Did only the memory in front of the picture area change? */
  ghost predicate SameArea(g: Geometry, before: seq<byte>, after: seq<byte>) {
    |before| == |after| && forall k :: g.Reserved() <= k < |before| ==> after[k] == before[k]
  }

  lemma WriteSlotInTable(g: Geometry, memory: seq<byte>, idx: nat, info: FileInfo, pad: byte)
    requires g.Holds(memory) && idx < g.version.MaxFileCount() && EncodeSlot(g, info, pad).Success?
    ensures g.SlotStart(idx) + g.version.SlotSize() <= |memory| && EncodeSlot(g, info, 0).Success?
    ensures var after := Splice(memory, g.SlotStart(idx), EncodeSlot(g, info, pad).value);
            SameArea(g, memory, after) && TableOf(g, after) == TableOf(g, memory)[idx := Readback(g, info)]
  {
    WriteSlot(g, memory, idx, info, pad);
    SlotInTable(g, memory, idx);
  }

  /** The slot behind the last file of a table: what the AX203 keeps as its file count. */
  function FileCount(t: Table): (n: nat)
    ensures n <= |t|
    ensures n > 0 ==> t[n - 1].present
    ensures forall i :: n <= i < |t| ==> !t[i].present
  {
    if t == [] then 0 else if t[|t| - 1].present then |t| else FileCount(t[..|t| - 1])
  }

  lemma FileCountUnique(t: Table, n: nat)
    requires n <= |t| && (n > 0 ==> t[n - 1].present) && forall i :: n <= i < |t| ==> !t[i].present
    ensures n == FileCount(t)
  {
  }

  /** The table, the files and the free memory do not depend on the file count byte. */
  lemma CountByteIsIgnored(g: Geometry, memory: seq<byte>, count: byte)
    requires g.Holds(memory)
    ensures g.fsStart + COUNT_OFFSET < |memory|
    ensures var after := Splice(memory, g.fsStart + COUNT_OFFSET, [count]);
            SameArea(g, memory, after) && TableOf(g, after) == TableOf(g, memory)
  {
    SlotInTable(g, memory, 0);
    var after := Splice(memory, g.fsStart + COUNT_OFFSET, [count]);
    forall i | 0 <= i < g.version.MaxFileCount() ensures Slot(g, after, i) == Slot(g, memory, i) {
      SlotInTable(g, memory, i);
      SlotFrame(g, memory, after, i);
    }
  }

  /** Neither do they depend on what lies in the picture area, except the files' bytes. */
  lemma FileDataKeepsTable(g: Geometry, memory: seq<byte>, address: nat, data: seq<byte>)
    requires g.Holds(memory) && g.Reserved() <= address && address + |data| <= |memory|
    ensures TableOf(g, Splice(memory, address, data)) == TableOf(g, memory)
  {
    var after := Splice(memory, address, data);
    forall i | 0 <= i < g.version.MaxFileCount() ensures Slot(g, after, i) == Slot(g, memory, i) {
      SlotInTable(g, memory, i);
      SlotFrame(g, memory, after, i);
    }
  }

  lemma DeletedEntry(g: Geometry, memory: seq<byte>, idx: nat)
    requires g.Holds(memory) && idx < g.version.MaxFileCount()
    ensures var info := Slot(g, memory, idx).(present := false);
            EncodeSlot(g, info, 0).Success? && !Readback(g, info).present
  {
    SlotInTable(g, memory, idx);
    ReadbackOfDeleted(g, memory[g.SlotStart(idx)..g.SlotStart(idx) + g.version.SlotSize()]);
  }

  /** An address that is negative as a C `int` would reach in front of the memory. */
  predicate Addressable(f: FileInfo) {
    f.present ==> f.address >= 0 && f.size >= 0
  }

  /** What reading a file returns. */
  ghost function ReadSpec(g: Geometry, memory: seq<byte>, idx: int): Result<seq<byte>>
    requires g.Holds(memory)
    requires 0 <= idx < g.version.MaxFileCount() ==> Addressable(Slot(g, memory, idx))
  {
    if !(0 <= idx < g.version.MaxFileCount()) || !Slot(g, memory, idx).present then Failure(BadParameters)
    else
      var f := Slot(g, memory, idx);
      if f.size == 0 then Success([])
      else if f.End() <= |memory| then Success(memory[f.address..f.End()])
      else Failure(CorruptedData)
  }

  /** In a well-formed store a file reads as what the store holds for its slot. */
  lemma ReadReturnsFile(g: Geometry, memory: seq<byte>, idx: nat)
    requires WellFormed(g, memory) && idx < g.version.MaxFileCount()
    ensures Addressable(Slot(g, memory, idx))
    ensures ReadSpec(g, memory, idx) == if idx in Files(g, memory) then Success(Files(g, memory)[idx])
                                        else Failure(BadParameters)
  {
    assert TableOf(g, memory)[idx] == Slot(g, memory, idx);
  }

  lemma SlotsHoldFiles(g: Geometry, memory: seq<byte>, idx: int)
    requires WellFormed(g, memory) && !(0 <= idx < g.version.MaxFileCount())
    ensures idx !in Files(g, memory)
  {
  }

  function Zeros(n: nat): (s: seq<byte>)
    ensures |s| == n
  {
    seq(n, _ => 0)
  }

  /** A zeroed table holds no files, in any of the three formats. */
  lemma ZeroedTable(g: Geometry, memory: seq<byte>)
    requires g.Holds(memory)
    ensures g.fsStart + ABFS_SIZE <= |memory|
    ensures var after := Splice(memory, g.fsStart + g.version.FileOffset(), Zeros(ABFS_SIZE - g.version.FileOffset()));
            SameArea(g, memory, after) && forall i :: 0 <= i < g.version.MaxFileCount() ==>
              !TableOf(g, after)[i].present
  {
    SlotInTable(g, memory, 0);
    var after := Splice(memory, g.fsStart + g.version.FileOffset(), Zeros(ABFS_SIZE - g.version.FileOffset()));
    forall i | 0 <= i < g.version.MaxFileCount() ensures !Slot(g, after, i).present {
      SlotInTable(g, memory, i);
      var raw := after[g.SlotStart(i)..g.SlotStart(i) + g.version.SlotSize()];
      assert raw == Zeros(g.version.SlotSize());
      assert !DecodeSlot(g, raw).present;
    }
  }

  /** A memory image without entries is an empty store. */
  lemma NoFiles(g: Geometry, memory: seq<byte>)
    requires g.Holds(memory) && forall i :: 0 <= i < g.version.MaxFileCount() ==> !TableOf(g, memory)[i].present
    ensures WellFormed(g, memory) && Files(g, memory) == map[] && UsedBytes(TableOf(g, memory)) == 0
  {
    hide Slot;
    NothingUsed(TableOf(g, memory));
  }

  // ----- Which writes succeed -----

  /** The sizes that a slot can record; on the AX203 every picture has the same one. */
  predicate SizeFits(g: Geometry, size: int) {
    && 0 < size
    && (g.version.AX203? ==> size == g.pictureSize)
    && (g.version.AX206? ==> size < 0x1_0000)
  }

  /** Can a slot record a file here? */
  predicate Encodable(g: Geometry, address: int, size: int) {
    g.version.AX206? || (address % 256 == 0 && (g.version.AX203? || size % 256 == 0))
  }

  /** A file in the picture area whose entry can be written is also read back as written. */
  lemma EncodableFile(g: Geometry, address: int, size: int)
    requires g.Valid() && SizeFits(g, size) && g.Reserved() <= address && address + size <= g.End()
    ensures EncodeSlot(g, FileInfo(address, true, size), 0).Success? <==> Encodable(g, address, size)
    ensures Encodable(g, address, size) ==> Readback(g, FileInfo(address, true, size)) == FileInfo(address, true, size)
  {
    SlotRoundTrip(g, FileInfo(address, true, size), 0);
  }

  /** The AX203 and the AX3003 record addresses, and the AX3003 sizes, in units of 256 bytes. */
  predicate Aligned(g: Geometry, size: int) {
    g.version.AX206? || size % 256 == 0
  }

  ghost predicate AtMostOneFile(t: Table) {
    forall i, j :: 0 <= i < j < |t| ==> !(t[i].present && t[j].present)
  }

  /** Can defragmentation write all files back, one right behind the other? */
  ghost predicate CanRepack(g: Geometry, t: Table) {
    !g.version.AX203? || g.pictureSize % 256 == 0 || AtMostOneFile(t)
  }

  /** Does writing a file of this size succeed? */
  ghost predicate WriteSucceeds(g: Geometry, t: Table, size: int) {
    if Fits(AreaOf(g), t, size) then exists a :: FirstFree(AreaOf(g), t, a, size) && Encodable(g, a, size)
    else size <= FreeBytes(AreaOf(g), t) && CanRepack(g, t) && Encodable(g, g.Reserved() + UsedBytes(t), size)
  }

  /** A write loses files when it defragments a store that cannot be repacked. */
  ghost predicate LosesFiles(g: Geometry, t: Table, size: int) {
    !Fits(AreaOf(g), t, size) && size <= FreeBytes(AreaOf(g), t) && !CanRepack(g, t)
  }

  /** What the format of a slot implies for the entries read from it. */
  predicate EntryFits(g: Geometry, f: FileInfo) {
    match g.version
    case AX203 => f.address % 256 == 0 && f.size == g.pictureSize
    case AX206 => f.size < 0x1_0000
    case AX3003 => f.address % 256 == 0 && f.size % 256 == 0
  }

  ghost predicate TableFits(g: Geometry, t: Table) {
    forall i :: 0 <= i < |t| ==> EntryFits(g, t[i])
  }

  lemma DecodedEntryFits(g: Geometry, raw: seq<byte>)
    requires |raw| == g.version.SlotSize()
    ensures EntryFits(g, DecodeSlot(g, raw))
  {
  }

  lemma TablesFit(g: Geometry, memory: seq<byte>)
    requires g.Holds(memory)
    ensures TableFits(g, TableOf(g, memory))
  {
    hide DecodeSlot, EntryFits;
    forall i | 0 <= i < g.version.MaxFileCount() ensures EntryFits(g, TableOf(g, memory)[i]) {
      SlotInTable(g, memory, i);
      DecodedEntryFits(g, memory[g.SlotStart(i)..g.SlotStart(i) + g.version.SlotSize()]);
    }
  }

  lemma {:induction false} UsedBytesAligned(t: Table)
    requires forall i :: 0 <= i < |t| && t[i].present ==> t[i].size % 256 == 0
    ensures UsedBytes(t) % 256 == 0
  {
    if t != [] {
      UsedBytesAligned(t[..|t| - 1]);
    }
  }

  /** A free place that neither the start of the picture area nor a file bounds from below can be moved down. */
  lemma FreePlaceSlides(area: Area, t: Table, address: int, size: int)
    requires Sound(area, t) && 0 < size && FreeAt(area, t, address, size) && address != area.reserved
    requires forall i :: 0 <= i < |t| && t[i].present ==> t[i].End() != address
    ensures FreeAt(area, t, address - 1, size)
  {
    forall i | 0 <= i < |t| && t[i].present ensures Disjoint(FileInfo(address - 1, true, size), t[i]) {
      assert Disjoint(FileInfo(address, true, size), t[i]);
    }
  }

  /** The lowest free address is the start of the picture area or the end of a file. */
  lemma FirstFreeFollowsARegion(area: Area, t: Table, address: int, size: int)
    requires Sound(area, t) && 0 < size && FirstFree(area, t, address, size)
    ensures address == area.reserved || exists i :: 0 <= i < |t| && t[i].present && t[i].End() == address
  {
    hide Disjoint, FreeAt, Sound;
    if address != area.reserved && forall i :: 0 <= i < |t| && t[i].present ==> t[i].End() != address {
      FreePlaceSlides(area, t, address, size);
    }
  }

  lemma {:induction false} FirstFreeExists(area: Area, t: Table, bound: int, size: int)
    requires FreeAt(area, t, bound, size)
    ensures exists a :: FirstFree(area, t, a, size)
    decreases bound - area.reserved
  {
    if a :| FreeAt(area, t, a, size) && a < bound {
      FirstFreeExists(area, t, a, size);
    } else {
      assert FirstFree(area, t, bound, size);
    }
  }

  lemma {:induction false} UsedBytesOfAtMostOne(t: Table, size: int)
    requires AtMostOneFile(t) && forall i :: 0 <= i < |t| && t[i].present ==> t[i].size == size
    ensures UsedBytes(t) == if exists i :: 0 <= i < |t| && t[i].present then size else 0
  {
    if t != [] {
      var rest := t[..|t| - 1];
      UsedBytesOfAtMostOne(rest, size);
      if i :| 0 <= i < |rest| && rest[i].present {
        assert t[i].present;
      }
    }
  }

  lemma AddAligned(a: int, b: int)
    requires a % 256 == 0
    ensures (a + b) % 256 == 0 <==> b % 256 == 0
  {
  }

  /** The lowest free address can be recorded unless it follows a picture of unaligned size. */
  lemma FirstFreeEncodable(g: Geometry, t: Table, address: int, size: int)
    requires g.Valid() && Sound(AreaOf(g), t) && TableFits(g, t) && SizeFits(g, size)
    requires FirstFree(AreaOf(g), t, address, size)
    ensures Encodable(g, address, size) <==> Aligned(g, size) || (g.version.AX203? && address == g.Reserved())
  {
    AddAligned(g.fsStart, g.version.PictureOffset());
    FirstFreeFollowsARegion(AreaOf(g), t, address, size);
    if address != g.Reserved() {
      var i :| 0 <= i < |t| && t[i].present && t[i].End() == address;
      if !g.version.AX206? {
        AddAligned(t[i].address, t[i].size);
      }
    }
  }

  lemma RepackedEncodable(g: Geometry, t: Table, size: int)
    requires g.Valid() && Sound(AreaOf(g), t) && TableFits(g, t) && SizeFits(g, size)
    requires !Fits(AreaOf(g), t, size) && size <= FreeBytes(AreaOf(g), t)
    ensures CanRepack(g, t) && Encodable(g, g.Reserved() + UsedBytes(t), size) <==> Aligned(g, size)
  {
    AddAligned(g.fsStart, g.version.PictureOffset());
    AddAligned(g.Reserved(), UsedBytes(t));
    if Aligned(g, size) {
      if !g.version.AX206? {
        UsedBytesAligned(t);
      }
    } else if g.version.AX203? && AtMostOneFile(t) {
      UsedBytesOfAtMostOne(t, size);
      assert !FreeAt(AreaOf(g), t, g.Reserved(), size);
    }
  }

  /** Exactly which writes succeed: those with enough free memory, unless the AX203 stores pictures
      whose size is not a multiple of 256 bytes. Those can only be stored in front of all others. */
  lemma WhichWritesSucceed(g: Geometry, t: Table, size: int)
    requires g.Valid() && Sound(AreaOf(g), t) && TableFits(g, t) && SizeFits(g, size)
    ensures WriteSucceeds(g, t, size) <==>
            size <= FreeBytes(AreaOf(g), t) &&
            (Aligned(g, size) || (g.version.AX203? && FreeAt(AreaOf(g), t, g.Reserved(), size)))
  {
    if Fits(AreaOf(g), t, size) {
      FitsNeedsFreeBytes(AreaOf(g), t, size);
      var b :| FreeAt(AreaOf(g), t, b, size);
      FirstFreeExists(AreaOf(g), t, b, size);
      var a :| FirstFree(AreaOf(g), t, a, size);
      FirstFreeEncodable(g, t, a, size);
    } else if size <= FreeBytes(AreaOf(g), t) {
      RepackedEncodable(g, t, size);
    }
  }

  // ----- How one write goes -----

  /** There is room: the write goes to the lowest free address. */
  lemma FirstTryDecides(g: Geometry, t: Table, a: int, size: int)
    requires Sound(AreaOf(g), t) && 0 < size && FirstFree(AreaOf(g), t, a, size)
    ensures WriteSucceeds(g, t, size) <==> Encodable(g, a, size)
    ensures size <= FreeBytes(AreaOf(g), t) && Fits(AreaOf(g), t, size) && !LosesFiles(g, t, size)
    ensures forall b :: FirstFree(AreaOf(g), t, b, size) ==> b == a
  {
    FitsNeedsFreeBytes(AreaOf(g), t, size);
  }

  /** There is neither room nor enough free memory. */
  lemma NoSpaceDecides(g: Geometry, t: Table, size: int)
    requires !Fits(AreaOf(g), t, size) && FreeBytes(AreaOf(g), t) < size
    ensures !WriteSucceeds(g, t, size) && !LosesFiles(g, t, size)
    ensures forall b :: !FirstFree(AreaOf(g), t, b, size)
  {
  }

  /** There would be enough free memory, but the files cannot be put together. */
  lemma FailedRepackDecides(g: Geometry, t: Table, size: int)
    requires !Fits(AreaOf(g), t, size) && size <= FreeBytes(AreaOf(g), t) && !CanRepack(g, t)
    ensures !WriteSucceeds(g, t, size) && LosesFiles(g, t, size)
    ensures forall b :: !FirstFree(AreaOf(g), t, b, size)
  {
  }

  /** After defragmentation there is room, right behind the files. */
  lemma SecondTryDecides(g: Geometry, t: Table, current: Table, size: int)
    requires 0 < size <= FreeBytes(AreaOf(g), t) && !Fits(AreaOf(g), t, size) && CanRepack(g, t)
    requires Sound(AreaOf(g), current) && Packed(AreaOf(g), current) && UsedBytes(current) == UsedBytes(t)
    ensures Fits(AreaOf(g), current, size)
    ensures forall a :: FirstFree(AreaOf(g), current, a, size) ==>
      (WriteSucceeds(g, t, size) <==> Encodable(g, a, size))
    ensures forall b :: !FirstFree(AreaOf(g), t, b, size)
    ensures !LosesFiles(g, t, size)
  {
    PackedFirstFree(AreaOf(g), current, size);
  }

  function FileSize(files: map<nat, seq<byte>>, idx: nat): nat {
    if idx in files then |files[idx]| else 0
  }

  lemma FileSizeIsPresentSize(g: Geometry, memory: seq<byte>, idx: nat)
    requires WellFormed(g, memory) && idx < g.version.MaxFileCount()
    ensures FileSize(Files(g, memory), idx) == PresentSize(TableOf(g, memory)[idx])
  {
  }

  ghost predicate IsFreeSlot(g: Geometry, files: map<nat, seq<byte>>, idx: nat) {
    idx < g.version.MaxFileCount() && idx !in files && forall k: nat :: k < idx ==> k in files
  }

  ghost predicate NoFreeSlot(g: Geometry, files: map<nat, seq<byte>>) {
    forall k: nat :: k < g.version.MaxFileCount() ==> k in files
  }

  // ----- Writing all files back, one right behind the other -----

  /** The files in the first `n` slots. */
  ghost function FilesBelow(files: map<nat, seq<byte>>, n: nat): map<nat, seq<byte>> {
    map i | i in files && i < n :: files[i]
  }

  /** The file in the lowest slot, alone. */
  ghost function FirstFile(files: map<nat, seq<byte>>): map<nat, seq<byte>> {
    map i | i in files && forall j :: j in files ==> i <= j :: files[i]
  }

  lemma {:induction false} UsedBytesOfPrefix(area: Area, t: Table, n: nat)
    requires n <= |t| && forall i :: 0 <= i < |t| && t[i].present ==> InArea(area, t[i])
    ensures 0 <= UsedBytes(t[..n]) <= UsedBytes(t)
    decreases |t|
  {
    UsedBytesNonNegative(area, t[..n]);
    if n < |t| {
      UsedBytesOfPrefix(area, t[..|t| - 1], n);
      assert t[..|t| - 1][..n] == t[..n];
    } else {
      assert t[..n] == t;
    }
  }

  /** While files are written back, the next one goes right behind those before it. */
  lemma NextFileGoesBehind(area: Area, t: Table, current: Table, n: nat)
    requires Sound(area, t) && n < |t| && t[n].present
    requires Sound(area, current) && Packed(area, current) && UsedBytes(current) == UsedBytes(t[..n])
    ensures UsedBytes(t[..n + 1]) == UsedBytes(t[..n]) + t[n].size
    ensures Fits(area, current, t[n].size)
    ensures FirstFree(area, current, area.reserved + UsedBytes(t[..n]), t[n].size)
  {
    assert t[..n + 1][..n] == t[..n];
    UsedBytesOfPrefix(area, t, n + 1);
    HolesAreFreeBytes(area, t);
    PackedFirstFree(area, current, t[n].size);
  }

  lemma SkippedSlot(t: Table, n: nat)
    requires n < |t| && !t[n].present
    ensures UsedBytes(t[..n + 1]) == UsedBytes(t[..n])
    ensures AtMostOneFile(t[..n]) ==> AtMostOneFile(t[..n + 1])
  {
    assert t[..n + 1][..n] == t[..n];
  }

  /** Writing back the file of slot `n` works exactly if it is the first one, or all are aligned. */
  lemma WriteBackEncodable(g: Geometry, t: Table, n: nat)
    requires g.Valid() && Sound(AreaOf(g), t) && TableFits(g, t) && n < |t| && t[n].present
    requires CanRepack(g, t[..n])
    ensures Encodable(g, g.Reserved() + UsedBytes(t[..n]), t[n].size) <==> CanRepack(g, t[..n + 1])
  {
    AddAligned(g.fsStart, g.version.PictureOffset());
    AddAligned(g.Reserved(), UsedBytes(t[..n]));
    if g.version.AX3003? || (g.version.AX203? && g.pictureSize % 256 == 0) {
      UsedBytesAligned(t[..n]);
    } else if g.version.AX203? {
      UsedBytesOfAtMostOne(t[..n], g.pictureSize);
      if i :| 0 <= i < n && t[i].present {
        assert t[..n + 1][i].present && t[..n + 1][n].present;
      }
    }
  }

  /** When the second file cannot be written back, only the first one is there. */
  lemma OnlyFirstFileLeft(g: Geometry, memory: seq<byte>, n: nat)
    requires WellFormed(g, memory) && n < g.version.MaxFileCount()
    requires CanRepack(g, TableOf(g, memory)[..n]) && !CanRepack(g, TableOf(g, memory)[..n + 1])
    ensures !CanRepack(g, TableOf(g, memory))
    ensures FilesBelow(Files(g, memory), n) == FirstFile(Files(g, memory))
  {
    hide Slot, Sound;
    var t, files := TableOf(g, memory), Files(g, memory);
    var i := TwoFiles(t, n);
    assert i in files && n in files;
    forall k | k in files ensures i <= k && (k < n ==> k == i) {
      assert t[k].present;
    }
  }

  /** A table whose first `n + 1` slots, but not its first `n`, hold more than one file. */
  lemma TwoFiles(t: Table, n: nat) returns (i: nat)
    requires n < |t| && AtMostOneFile(t[..n]) && !AtMostOneFile(t[..n + 1])
    ensures i < n && t[i].present && t[n].present && !AtMostOneFile(t)
    ensures forall k: nat :: k < n && t[k].present ==> k == i
  {
    forall a, b | 0 <= a < b < n ensures !(t[a].present && t[b].present) {
      assert t[..n][a] == t[a] && t[..n][b] == t[b];
    }
    var j;
    i, j :| 0 <= i < j < n + 1 && t[..n + 1][i].present && t[..n + 1][j].present;
  }

  lemma WrittenBack(files: map<nat, seq<byte>>, n: nat)
    requires n in files
    ensures FilesBelow(files, n)[n := files[n]] == FilesBelow(files, n + 1)
  {
  }

  /** The store while files are written back: those below slot `n` are there again. */
  ghost predicate PartlyRepacked(g: Geometry, before: seq<byte>, current: seq<byte>, n: nat)
    requires WellFormed(g, before) && n <= g.version.MaxFileCount()
  {
    && WellFormed(g, current)
    && Files(g, current) == FilesBelow(Files(g, before), n)
    && Packed(AreaOf(g), TableOf(g, current))
    && UsedBytes(TableOf(g, current)) == UsedBytes(TableOf(g, before)[..n])
    && CanRepack(g, TableOf(g, before)[..n])
  }

  lemma EmptyStore(g: Geometry, before: seq<byte>, current: seq<byte>)
    requires WellFormed(g, before) && WellFormed(g, current)
    requires forall i :: 0 <= i < g.version.MaxFileCount() ==> !TableOf(g, current)[i].present
    ensures PartlyRepacked(g, before, current, 0)
  {
    UsedBytesNonNegative(AreaOf(g), TableOf(g, current));
  }

  lemma SkipSlot(g: Geometry, before: seq<byte>, current: seq<byte>, n: nat)
    requires WellFormed(g, before) && n < g.version.MaxFileCount() && !TableOf(g, before)[n].present
    requires PartlyRepacked(g, before, current, n)
    ensures PartlyRepacked(g, before, current, n + 1)
  {
    hide Slot, Sound, Packed;
    SkippedSlot(TableOf(g, before), n);
  }

  lemma FullyRepacked(g: Geometry, before: seq<byte>, current: seq<byte>)
    requires WellFormed(g, before) && PartlyRepacked(g, before, current, g.version.MaxFileCount())
    ensures Files(g, current) == Files(g, before)
    ensures UsedBytes(TableOf(g, current)) == UsedBytes(TableOf(g, before))
    ensures CanRepack(g, TableOf(g, before)) && Packed(AreaOf(g), TableOf(g, current))
  {
    var t := TableOf(g, before);
    assert t[..g.version.MaxFileCount()] == t;
  }

  /** The next file to be written back is as large as its slot said, and its slot is free. */
  lemma FileToWriteBack(g: Geometry, before: seq<byte>, current: seq<byte>, n: nat)
    requires WellFormed(g, before) && n < g.version.MaxFileCount() && n in Files(g, before)
    requires PartlyRepacked(g, before, current, n)
    ensures TableOf(g, before)[n].present && |Files(g, before)[n]| == TableOf(g, before)[n].size
    ensures n !in Files(g, current) && !TableOf(g, current)[n].present
    ensures SizeFits(g, TableOf(g, before)[n].size)
  {
    hide Slot, Packed, UsedBytes, CanRepack;
    TablesFit(g, before);
    assert n !in FilesBelow(Files(g, before), n);
    assert InArea(AreaOf(g), TableOf(g, before)[n]);
    assert EntryFits(g, TableOf(g, before)[n]);
  }

  lemma WriteBackGoesBehind(g: Geometry, before: seq<byte>, current: seq<byte>, n: nat)
    requires WellFormed(g, before) && n < g.version.MaxFileCount() && n in Files(g, before)
    requires PartlyRepacked(g, before, current, n)
    ensures var t, c, picture := TableOf(g, before), TableOf(g, current), Files(g, before)[n];
            var a := g.Reserved() + UsedBytes(t[..n]);
            && |picture| == t[n].size && SizeFits(g, |picture|)
            && Fits(AreaOf(g), c, |picture|) && FirstFree(AreaOf(g), c, a, |picture|)
            && (Encodable(g, a, |picture|) <==> CanRepack(g, t[..n + 1]))
            && n !in Files(g, current) && !c[n].present
            && UsedBytes(t[..n + 1]) == UsedBytes(t[..n]) + |picture|
  {
    hide Slot, Packed, FirstFree, Fits, UsedBytes, CanRepack, Sound, EntryFits, TableFits, SizeFits, Encodable, Files;
    var t, c := TableOf(g, before), TableOf(g, current);
    FileToWriteBack(g, before, current, n);
    TablesFit(g, before);
    NextFileGoesBehind(AreaOf(g), t, c, n);
    WriteBackEncodable(g, t, n);
  }

  lemma WrittenBackIsRepacked(g: Geometry, before: seq<byte>, current: seq<byte>, after: seq<byte>, n: nat,
                              address: int)
    requires WellFormed(g, before) && n < g.version.MaxFileCount() && n in Files(g, before)
    requires PartlyRepacked(g, before, current, n) && CanRepack(g, TableOf(g, before)[..n + 1])
    requires WellFormed(g, after) && Files(g, after) == Files(g, current)[n := Files(g, before)[n]]
    requires FirstFree(AreaOf(g), TableOf(g, current), address, |Files(g, before)[n]|)
    requires TableOf(g, after) == TableOf(g, current)[n := FileInfo(address, true, |Files(g, before)[n]|)]
    ensures PartlyRepacked(g, before, after, n + 1)
  {
    WriteBackGoesBehind(g, before, current, n);
    var size := |Files(g, before)[n]|;
    StoreKeepsPacked(AreaOf(g), TableOf(g, current), n, address, size);
    UsedBytesUpdate(TableOf(g, current), n, FileInfo(address, true, size));
    WrittenBack(Files(g, before), n);
  }
}
