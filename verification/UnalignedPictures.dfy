/** The AX203 frames whose pictures do not fill whole units of 256 bytes. */
module UnalignedPictures {
  import opened Bytes
  import opened FileTable
  import opened Allocation
  import opened PictureStore

  /** The display sizes that the driver accepts. */
  const RESOLUTIONS: seq<(nat, nat)> :=
    [(96, 64), (120, 160), (128, 128), (132, 132), (128, 160), (160, 120), (160, 128), (240, 320), (320, 240)]

  datatype Compression = Yuv | YuvDelta

  function PictureBytes(c: Compression, width: nat, height: nat): nat {
    match c
    case Yuv => width * height
    case YuvDelta => width * height * 3 / 4
  }

  /** The accepted displays on which writes do not keep their promise. */
  lemma UnalignedDisplays(c: Compression, i: nat)
    requires i < |RESOLUTIONS|
    ensures PictureBytes(c, RESOLUTIONS[i].0, RESOLUTIONS[i].1) % 256 != 0 <==>
            RESOLUTIONS[i] in (if c.Yuv? then {(132, 132)} else {(120, 160), (132, 132), (160, 120)})
  {
    assert i == 0 || i == 1 || i == 2 || i == 3 || i == 4 || i == 5 || i == 6 || i == 7 || i == 8;
  }

  function Absent(n: nat): (t: Table)
    ensures |t| == n && forall i :: 0 <= i < n ==> t[i] == FileInfo(0, false, 17424)
  {
    seq(n, _ => FileInfo(0, false, 17424))
  }

  lemma {:induction false} UsedBytesWithAbsent(t: Table, n: nat)
    ensures UsedBytes(t + Absent(n)) == UsedBytes(t)
  {
    if n == 0 {
      assert t + Absent(0) == t;
    } else {
      UsedBytesWithAbsent(t, n - 1);
      assert (t + Absent(n))[..|t| + n - 1] == t + Absent(n - 1);
    }
  }

  /** A frame with 132x132 pixels on one of the smallest chips; the file system is in its last 64 KiB. */
  const SMALL_FRAME := Geometry(AX203, 0x7_0000, 0x8_0000, 17424)

  const FIRST := FileInfo(0x7_3000, true, 17424)
  const SECOND := FileInfo(0x7_9000, true, 17424)

  /** Two pictures with holes around them, none of which takes a third one. */
  function ScatteredPictures(): Table {
    [FIRST, SECOND] + Absent(AX203.MaxFileCount() - 2)
  }

  /** A slot that is written to any memory of the frame. */
  ghost function WithSlot(memory: seq<byte>, idx: nat, info: FileInfo): (image: seq<byte>)
    requires SMALL_FRAME.Holds(memory) && idx < AX203.MaxFileCount() && EncodeSlot(SMALL_FRAME, info, 0).Success?
    ensures SMALL_FRAME.Holds(image) &&
            TableOf(SMALL_FRAME, image) == TableOf(SMALL_FRAME, memory)[idx := Readback(SMALL_FRAME, info)]
  {
    WriteSlotInTable(SMALL_FRAME, memory, idx, info, 0);
    Splice(memory, SMALL_FRAME.SlotStart(idx), EncodeSlot(SMALL_FRAME, info, 0).value)
  }

  /** The memory after its table has been cleared. */
  ghost function Cleared(memory: seq<byte>): (image: seq<byte>)
    requires SMALL_FRAME.Holds(memory)
    ensures SMALL_FRAME.Holds(image) && TableOf(SMALL_FRAME, image) == Absent(AX203.MaxFileCount())
  {
    ZeroedTable(SMALL_FRAME, memory);
    var image := Splice(memory, SMALL_FRAME.fsStart + AX203.FileOffset(), Zeros(ABFS_SIZE - AX203.FileOffset()));
    assert TableOf(SMALL_FRAME, image) == Absent(AX203.MaxFileCount());
    image
  }

  lemma BothEncodable()
    ensures EncodeSlot(SMALL_FRAME, FIRST, 0).Success? && Readback(SMALL_FRAME, FIRST) == FIRST
    ensures EncodeSlot(SMALL_FRAME, SECOND, 0).Success? && Readback(SMALL_FRAME, SECOND) == SECOND
  {
    SlotRoundTrip(SMALL_FRAME, FIRST, 0);
    SlotRoundTrip(SMALL_FRAME, SECOND, 0);
  }

  /** The memory after that and after the slots of both pictures have been written. */
  ghost function ScatteredImage(memory: seq<byte>): (image: seq<byte>)
    requires SMALL_FRAME.Holds(memory)
    ensures SMALL_FRAME.Holds(image) && TableOf(SMALL_FRAME, image) == ScatteredPictures()
  {
    BothEncodable();
    var image := WithSlot(WithSlot(Cleared(memory), 0, FIRST), 1, SECOND);
    assert Absent(AX203.MaxFileCount())[0 := FIRST][1 := SECOND] == ScatteredPictures();
    image
  }

  /** Whatever the pictures show, writing a third one fails, and the defragmentation on the way loses the second one. */
  lemma DefragmentationCanLoseFiles(memory: seq<byte>)
    requires SMALL_FRAME.Holds(memory)
    ensures var image := ScatteredImage(memory);
            var t := TableOf(SMALL_FRAME, image);
            && WellFormed(SMALL_FRAME, image) && TableFits(SMALL_FRAME, t) && SizeFits(SMALL_FRAME, 17424)
            && LosesFiles(SMALL_FRAME, t, 17424) && !WriteSucceeds(SMALL_FRAME, t, 17424)
            && 1 in Files(SMALL_FRAME, image)
  {
    ScatteredPicturesLost();
  }

  lemma ScatteredPicturesLost()
    ensures SMALL_FRAME.Valid() && Sound(AreaOf(SMALL_FRAME), ScatteredPictures())
    ensures TableFits(SMALL_FRAME, ScatteredPictures()) && SizeFits(SMALL_FRAME, 17424)
    ensures LosesFiles(SMALL_FRAME, ScatteredPictures(), 17424)
    ensures !WriteSucceeds(SMALL_FRAME, ScatteredPictures(), 17424)
  {
    var area, t := AreaOf(SMALL_FRAME), ScatteredPictures();
    var two := [FIRST, SECOND];
    UsedBytesWithAbsent(two, AX203.MaxFileCount() - 2);
    assert two[..1] == [FIRST] && [FIRST][..0] == [];
    assert UsedBytes([FIRST]) == 17424;
    assert UsedBytes(two) == 34848;
    var first, second := t[0], t[1];
    forall a ensures !FreeAt(area, t, a, 17424) {
      var f := FileInfo(a, true, 17424);
      assert !(InArea(area, f) && Disjoint(f, first) && Disjoint(f, second));
    }
  }

  lemma Le16Truncates(size: nat)
    ensures Unle16(Le16(size)) == size % 0x1_0000
  {
    var q := size / 0x100;
    var high, low := q / 0x100, 0x100 * (q % 0x100) + size % 0x100;
    assert Unle16(Le16(size)) == low;
    assert size == 0x1_0000 * high + low;
  }

  /** The AX206 records sizes in 16 bits: a larger file is read back truncated. */
  lemma LargeFilesAreTruncated(g: Geometry, address: nat, size: nat)
    requires g.version.AX206? && address < 0x8000_0000
    ensures Readback(g, FileInfo(address, true, size)) == FileInfo(address, true, size % 0x1_0000)
  {
    hide Le16, Unle16, Le32, Unle32;
    Le16Truncates(size);
    var info := FileInfo(address, true, size);
    var raw := EncodeSlot(g, info, 0).value;
    assert raw[1..5] == Le32(address) && raw[5..7] == Le16(size);
    Le32RoundTrip(address);
  }
}
