/** The ABFS file table: three binary formats for the slot of a file. */
module FileTable {
  import opened Bytes
  import opened Wrappers
  import opened Eeprom

  const ABFS_SIZE: nat := 0x1000
  const COUNT_OFFSET: nat := 0x05
  const BOOTLOADER_SIZE: nat := 0x10000

  // AX203 stands for the firmware versions 3.3.x and 3.4.x, which share one table format
  datatype Version = AX203 | AX206 | AX3003 {

    function FileOffset(): nat {
      match this
      case AX203 => 0x20
      case AX206 => 0x10
      case AX3003 => 0x20
    }

    function SlotSize(): (n: nat)
      ensures n > 0
    {
      match this
      case AX203 => 2
      case AX206 => 8
      case AX3003 => 4
    }

    function PictureOffset(): nat {
      match this
      case AX203 => 0x2000
      case AX206 => 0x1000
      case AX3003 => 0x1000
    }

    function MaxFileCount(): nat {
      (ABFS_SIZE - FileOffset()) / SlotSize()
    }
  }

  datatype FileInfo = FileInfo(address: int, present: bool, size: int) {
    function End(): int {
      address + size
    }
  }

  /** What the driver knows about a frame. On the AX203 all pictures have the same size. */
  datatype Geometry = Geometry(version: Version, fsStart: nat, memSize: nat, pictureSize: nat) {

    ghost predicate Valid() {
      && fsStart % 256 == 0
      && Reserved() <= End()
      && memSize <= 0x400000
      && (version.AX203? ==> 0 < pictureSize)
    }

    /** Files are kept behind the boot code and the file table ... */
    function Reserved(): nat {
      fsStart + version.PictureOffset()
    }

    /** ... and before the boot loader of the AX3003, or the end of the memory. */
    function End(): int {
      if version.AX3003? then memSize - BOOTLOADER_SIZE else memSize
    }

    function SlotStart(idx: nat): nat {
      fsStart + version.FileOffset() + version.SlotSize() * idx
    }

    ghost predicate Holds(memory: seq<byte>) {
      Valid() && |memory| == memSize
    }
  }

  /** The lowest four bytes of a two's complement number, least significant byte first. */
  function Le32(value: int): (s: seq<byte>)
    ensures |s| == 4
  {
    [value % 256, value / 256 % 256, value / 256 / 256 % 256, value / 256 / 256 / 256 % 256]
  }

  /** A 32-bit number read back into a C `int`. */
  function Unle32(s: seq<byte>): int
    requires |s| == 4
  {
    var n := s[0] as int + 0x100 * s[1] as int + 0x1_0000 * s[2] as int + 0x100_0000 * s[3] as int;
    if n < 0x8000_0000 then n else n - 0x1_0000_0000
  }

  function Le16(value: int): (s: seq<byte>)
    ensures |s| == 2
  {
    [value % 256, value / 0x100 % 256]
  }

  function Unle16(s: seq<byte>): (n: nat)
    requires |s| == 2
    ensures n < 0x1_0000
  {
    s[0] as int + 0x100 * s[1] as int
  }

  function Reversed16(s: seq<byte>): (r: seq<byte>)
    requires |s| == 2
    ensures |r| == 2
  {
    [s[1], s[0]]
  }

  lemma Le32RoundTrip(value: int)
    ensures Unle32(Le32(value)) == value <==> -0x8000_0000 <= value < 0x8000_0000
  {
    var q := value / 256 / 256 / 256 / 256;
    var s := Le32(value);
    assert value ==
             s[0] as int + 256 * s[1] as int + 0x1_0000 * s[2] as int + 0x100_0000 * s[3] as int + 0x1_0000_0000 * q;
  }

  lemma Le16RoundTrip(value: int)
    ensures Unle16(Le16(value)) == value <==> 0 <= value < 0x1_0000
  {
  }

  /** Reading a slot. */
  function DecodeSlot(g: Geometry, raw: seq<byte>): FileInfo
    requires |raw| == g.version.SlotSize()
  {
    match g.version
    case AX203 =>
      var address := Unle16(raw) * 0x100;
      FileInfo(address, address != 0, g.pictureSize)
    case AX206 =>
      FileInfo(Unle32(raw[1..5]), raw[0] == 0x01, Unle16(raw[5..7]))
    case AX3003 =>
      var address, size := Unle16(Reversed16(raw[..2])), Unle16(Reversed16(raw[2..]));
      FileInfo(address * 0x100, address != 0 && size != 0, size * 0x100)
  }

  /** Writing a slot; `pad` is the uninitialised last byte of the AX206 format. */
  function EncodeSlot(g: Geometry, info: FileInfo, pad: byte): (r: Result<seq<byte>>)
    ensures r.Success? ==> |r.value| == g.version.SlotSize()
  {
    match g.version
    case AX203 =>
      if info.address % 256 != 0 then Failure(BadParameters)
      else Success(Le16(if info.present then info.address / 0x100 else 0))
    case AX206 =>
      Success([if info.present then 1 else 0] + Le32(info.address) + Le16(info.size) + [pad])
    case AX3003 =>
      if info.address % 256 != 0 || info.size % 256 != 0 then Failure(BadParameters)
      else if info.present then Success(Reversed16(Le16(info.address / 0x100)) + Reversed16(Le16(info.size / 0x100)))
      else Success([0, 0, 0, 0])
  }

  /** What a slot reads as after an entry was written to it. */
  function Readback(g: Geometry, info: FileInfo): FileInfo
    requires EncodeSlot(g, info, 0).Success?
  {
    DecodeSlot(g, EncodeSlot(g, info, 0).value)
  }

  lemma PaddingIsIgnored(g: Geometry, info: FileInfo, pad: byte)
    ensures EncodeSlot(g, info, pad).Success? <==> EncodeSlot(g, info, 0).Success?
    ensures EncodeSlot(g, info, pad).Success? ==> DecodeSlot(g, EncodeSlot(g, info, pad).value) == Readback(g, info)
  {
    if g.version.AX206? {
      var a, b := EncodeSlot(g, info, pad).value, EncodeSlot(g, info, 0).value;
      assert a[1..5] == b[1..5];
      assert a[5..7] == b[5..7];
    }
  }

  /** An entry read from a slot and marked absent can be written, and then reads as absent. */
  lemma ReadbackOfDeleted(g: Geometry, raw: seq<byte>)
    requires |raw| == g.version.SlotSize()
    ensures var info := DecodeSlot(g, raw).(present := false);
            EncodeSlot(g, info, 0).Success? && !Readback(g, info).present
  {
    hide EncodeSlot, DecodeSlot, Readback;
    var info := DecodeSlot(g, raw).(present := false);
    DecodedIsEncodable(g, raw);
    ReadbackOfAbsent(g, info);
  }

  lemma DecodedIsEncodable(g: Geometry, raw: seq<byte>)
    requires |raw| == g.version.SlotSize()
    ensures EncodeSlot(g, DecodeSlot(g, raw).(present := false), 0).Success?
  {
    hide Unle16, Unle32, Le16, Le32, Reversed16;
  }

  lemma ReadbackOfAbsent(g: Geometry, info: FileInfo)
    requires EncodeSlot(g, info, 0).Success? && !info.present
    ensures !Readback(g, info).present
  {
    hide Le32, Unle32;
  }

  /** The entries that a format can express. */
  predicate Representable(g: Geometry, info: FileInfo) {
    match g.version
    case AX203 =>
      && info.address % 256 == 0 && 0 <= info.address < 0x100_0000
      && info.size == g.pictureSize
      && info.present == (info.address != 0)
    case AX206 =>
      && -0x8000_0000 <= info.address < 0x8000_0000
      && 0 <= info.size < 0x1_0000
    case AX3003 =>
      if info.present then
        && info.address % 256 == 0 && 0 < info.address < 0x100_0000
        && info.size % 256 == 0 && 0 < info.size < 0x100_0000
      else
        info.address == info.size == 0
  }

  /** An entry survives being written and read back exactly when its format can express it. */
  lemma SlotRoundTrip(g: Geometry, info: FileInfo, pad: byte)
    ensures var raw := EncodeSlot(g, info, pad);
            raw.Success? && DecodeSlot(g, raw.value) == info <==> Representable(g, info)
  {
    var raw := EncodeSlot(g, info, pad);
    match g.version
    case AX203 =>
      Le16RoundTrip(info.address / 0x100);
    case AX206 =>
      assert raw.value[1..5] == Le32(info.address);
      assert raw.value[5..7] == Le16(info.size);
      Le32RoundTrip(info.address);
      Le16RoundTrip(info.size);
    case AX3003 =>
      if raw.Success? && info.present {
        assert Reversed16(raw.value[..2]) == Le16(info.address / 0x100);
        assert Reversed16(raw.value[2..]) == Le16(info.size / 0x100);
        Le16RoundTrip(info.address / 0x100);
        Le16RoundTrip(info.size / 0x100);
      }
  }

  lemma SlotInTable(g: Geometry, memory: seq<byte>, idx: nat)
    requires g.Holds(memory) && idx < g.version.MaxFileCount()
    ensures g.fsStart + COUNT_OFFSET < g.SlotStart(idx)
    ensures g.SlotStart(idx) + g.version.SlotSize() <= g.fsStart + ABFS_SIZE <= g.Reserved() <= |memory|
  {
  }

  /** The entry of a slot in a memory image. */
  ghost function Slot(g: Geometry, memory: seq<byte>, idx: nat): FileInfo
    requires g.Holds(memory) && idx < g.version.MaxFileCount()
  {
    SlotInTable(g, memory, idx);
    DecodeSlot(g, memory[g.SlotStart(idx)..g.SlotStart(idx) + g.version.SlotSize()])
  }

  lemma SlotsApart(g: Geometry, i: nat, j: nat)
    requires i < j
    ensures g.SlotStart(i) + g.version.SlotSize() <= g.SlotStart(j)
  {
  }

  /** A write of one slot changes that slot only. */
  lemma WriteSlot(g: Geometry, memory: seq<byte>, idx: nat, info: FileInfo, pad: byte)
    requires g.Holds(memory) && idx < g.version.MaxFileCount() && EncodeSlot(g, info, pad).Success?
    ensures g.SlotStart(idx) + g.version.SlotSize() <= |memory|
    ensures var after := Splice(memory, g.SlotStart(idx), EncodeSlot(g, info, pad).value);
            && EncodeSlot(g, info, 0).Success? && Slot(g, after, idx) == Readback(g, info)
            && forall i :: 0 <= i < g.version.MaxFileCount() && i != idx ==> Slot(g, after, i) == Slot(g, memory, i)
  {
    SlotInTable(g, memory, idx);
    var raw := EncodeSlot(g, info, pad).value;
    var after := Splice(memory, g.SlotStart(idx), raw);
    assert after[g.SlotStart(idx)..g.SlotStart(idx) + g.version.SlotSize()] == raw;
    PaddingIsIgnored(g, info, pad);
    forall i | 0 <= i < g.version.MaxFileCount() && i != idx ensures Slot(g, after, i) == Slot(g, memory, i) {
      SlotInTable(g, memory, i);
      if i < idx { SlotsApart(g, i, idx); } else { SlotsApart(g, idx, i); }
      SlotFrame(g, memory, after, i);
    }
  }

  lemma SlotFrame(g: Geometry, before: seq<byte>, after: seq<byte>, idx: nat)
    requires g.Holds(before) && g.Holds(after) && idx < g.version.MaxFileCount()
    requires forall k :: g.SlotStart(idx) <= k < g.SlotStart(idx) + g.version.SlotSize() && k < |before| ==>
      after[k] == before[k]
    ensures Slot(g, after, idx) == Slot(g, before, idx)
  {
    SlotInTable(g, before, idx);
    var a, b := g.SlotStart(idx), g.SlotStart(idx) + g.version.SlotSize();
    assert after[a..b] == before[a..b];
  }

  // ----- The layout in numbers -----

  /** The bytes that are neither a slot nor in the picture area, nor the file count: those in front of the file system,
      its header, what lies between the table and the pictures of the AX203, and the boot loader of the AX3003. */
  predicate IsFixed(g: Geometry, i: int) {
    || (i < g.fsStart + (if g.version.AX206? then 0x10 else 0x20) && !(g.version.AX203? && i == g.fsStart + 5))
    || (g.version.AX203? && g.fsStart + 0x1000 <= i < g.fsStart + 0x2000)
    || (g.version.AX3003? && g.memSize - 0x1_0000 <= i)
  }

  /** No byte of those has changed. */
  ghost predicate FixedKept(g: Geometry, before: seq<byte>, after: seq<byte>) {
    |before| == |after| && forall i :: 0 <= i < |before| && IsFixed(g, i) ==> after[i] == before[i]
  }

  lemma FixedKeptTwice(g: Geometry, a: seq<byte>, b: seq<byte>, c: seq<byte>)
    ensures FixedKept(g, a, a)
    ensures FixedKept(g, a, b) && FixedKept(g, b, c) ==> FixedKept(g, a, c)
  {
    hide IsFixed;
  }

  lemma SlotNotFixed(g: Geometry, memory: seq<byte>, idx: nat)
    requires g.Holds(memory) && idx < g.version.MaxFileCount()
    ensures forall i :: g.SlotStart(idx) <= i < g.SlotStart(idx) + g.version.SlotSize() ==> !IsFixed(g, i)
  {
  }

  lemma TableNotFixed(g: Geometry)
    requires g.Valid()
    ensures forall i :: g.fsStart + g.version.FileOffset() <= i < g.fsStart + ABFS_SIZE ==> !IsFixed(g, i)
    ensures g.version.AX203? ==> !IsFixed(g, g.fsStart + COUNT_OFFSET)
  {
  }

  lemma PicturesNotFixed(g: Geometry, address: int, size: int)
    requires g.Valid() && g.Reserved() <= address && address + size <= g.End()
    ensures forall i :: address <= i < address + size ==> !IsFixed(g, i)
  {
  }

  lemma ChangeKeepsFixed(g: Geometry, before: seq<byte>, after: seq<byte>, start: int, size: nat)
    requires start >= 0 && SameOutside(before, after, start, size)
    requires forall i :: start <= i < start + size ==> !IsFixed(g, i)
    ensures FixedKept(g, before, after)
  {
    hide IsFixed;
  }

  /** Where the pictures lie, and how many there can be. */
  lemma LayoutInNumbers(g: Geometry)
    ensures g.version.AX203? ==>
      g.Reserved() == g.fsStart + 0x2000 && g.End() == g.memSize && g.version.MaxFileCount() == 2032
    ensures g.version.AX206? ==>
      g.Reserved() == g.fsStart + 0x1000 && g.End() == g.memSize && g.version.MaxFileCount() == 510
    ensures g.version.AX3003? ==>
      g.Reserved() == g.fsStart + 0x1000 && g.End() == g.memSize - 0x1_0000 && g.version.MaxFileCount() == 1016
  {
  }

  function At(s: seq<byte>, i: nat): int
    requires i < |s|
  {
    s[i] as int
  }

  /** An entry in terms of single bytes of the memory: little endian on the AX203 and the AX206, big endian on the
      AX3003, addresses in units of 256 bytes but for the AX206. */
  lemma SlotInBytes(g: Geometry, memory: seq<byte>, idx: nat)
    requires g.Holds(memory) && idx < g.version.MaxFileCount()
    ensures var info := Slot(g, memory, idx);
            match g.version
            case AX203 =>
              var at := g.fsStart + 0x20 + 2 * idx;
              && at + 2 <= |memory| && info.size == g.pictureSize
              && info.address == 0x100 * At(memory, at) + 0x1_0000 * At(memory, at + 1)
              && (info.present <==> At(memory, at) != 0 || At(memory, at + 1) != 0)
            case AX206 =>
              var at := g.fsStart + 0x10 + 8 * idx;
              && at + 8 <= |memory| && info.size == At(memory, at + 5) + 0x100 * At(memory, at + 6)
              && (info.present <==> At(memory, at) == 1)
              && (var top := At(memory, at + 4);
                  info.address == At(memory, at + 1) + 0x100 * At(memory, at + 2) + 0x1_0000 * At(memory, at + 3) +
                                  0x100_0000 * (if top < 0x80 then top else top - 0x100))
            case AX3003 =>
              var at := g.fsStart + 0x20 + 4 * idx;
              && at + 4 <= |memory|
              && info.address == 0x1_0000 * At(memory, at) + 0x100 * At(memory, at + 1)
              && info.size == 0x1_0000 * At(memory, at + 2) + 0x100 * At(memory, at + 3)
              && (info.present <==> info.address != 0 && info.size != 0)
  {
    SlotInTable(g, memory, idx);
    var at := g.SlotStart(idx);
    var raw := memory[at..at + g.version.SlotSize()];
    match g.version {
      case AX203 =>
      case AX206 => PartsOfEight(memory, at);
      case AX3003 => assert raw[..2] == [memory[at], memory[at + 1]] && raw[2..] == [memory[at + 2], memory[at + 3]];
    }
  }

  lemma PartsOfEight(memory: seq<byte>, at: nat)
    requires at + 8 <= |memory|
    ensures var raw := memory[at..at + 8];
            && raw[1..5] == [memory[at + 1], memory[at + 2], memory[at + 3], memory[at + 4]]
            && raw[5..7] == [memory[at + 5], memory[at + 6]]
  {
  }

  /** The bytes of an entry that is written. */
  lemma EncodedInBytes(g: Geometry, info: FileInfo, pad: byte)
    requires 0 <= info.address < 0x100_0000 && 0 <= info.size < 0x100_0000
    ensures var raw := EncodeSlot(g, info, pad);
            match g.version
            case AX203 =>
              && (raw.Success? <==> info.address % 0x100 == 0)
              && (raw.Success? && info.present ==>
                  0x100 * At(raw.value, 0) + 0x1_0000 * At(raw.value, 1) == info.address)
              && (raw.Success? && !info.present ==> raw.value == [0, 0])
            case AX206 =>
              && raw.Success? && At(raw.value, 0) == (if info.present then 1 else 0) && At(raw.value, 7) == pad
              && At(raw.value, 1) + 0x100 * At(raw.value, 2) + 0x1_0000 * At(raw.value, 3) == info.address &&
                 At(raw.value, 4) == 0
              && At(raw.value, 5) + 0x100 * At(raw.value, 6) == info.size % 0x1_0000
            case AX3003 =>
              && (raw.Success? <==> info.address % 0x100 == 0 && info.size % 0x100 == 0)
              && (raw.Success? && info.present ==>
                    && 0x1_0000 * At(raw.value, 0) + 0x100 * At(raw.value, 1) == info.address
                    && 0x1_0000 * At(raw.value, 2) + 0x100 * At(raw.value, 3) == info.size)
              && (raw.Success? && !info.present ==> raw.value == [0, 0, 0, 0])
  {
    ThreeBytes(info.address);
    ThreeBytes(info.size);
  }

  lemma ThreeBytes(n: nat)
    requires n < 0x100_0000
    ensures n % 0x100 + 0x100 * (n / 0x100 % 0x100) + 0x1_0000 * (n / 0x100 / 0x100 % 0x100) == n
    ensures n / 0x100 / 0x100 / 0x100 == 0 && n % 0x100 + 0x100 * (n / 0x100 % 0x100) == n % 0x1_0000
  {
    var q := n / 0x100;
    assert n == 0x100 * q + n % 0x100 && q == 0x100 * (q / 0x100) + q % 0x100 && q / 0x100 < 0x100;
  }
}
