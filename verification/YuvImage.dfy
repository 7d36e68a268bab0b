/** Pictures in the delta code: blocks of 4x4 pixels in twelve bytes each. The colour planes are given; the
    conversion from and to RGB is not part of this model. */
module YuvImage {
  import opened Bytes
  import opened YuvDelta

  const BLOCK_BYTES: nat := 12

  type Plane = seq<seq<int>>

  predicate IsPlane(kind: Kind, p: Plane, width: nat, height: nat) {
    |p| == height && forall r :: 0 <= r < height ==>
      |p[r]| == width && forall c :: 0 <= c < width ==> kind.Legal(p[r][c])
  }

  /** Luminance for each pixel, chrominance for each 2x2 pixels. */
  datatype Picture = Picture(width: nat, height: nat, luma: Plane, u: Plane, v: Plane) {
    predicate Valid() {
      && width % 4 == 0 && height % 4 == 0
      && IsPlane(Luma, luma, width, height)
      && IsPlane(Chroma, u, width / 2, height / 2) && IsPlane(Chroma, v, width / 2, height / 2)
    }

    function Columns(): nat {
      width / 4
    }

    function Rows(): nat {
      height / 4
    }
  }

  /** A 2x2 square, row by row. */
  function QuadAt(kind: Kind, p: Plane, width: nat, height: nat, r: nat, c: nat): (q: Quad)
    requires IsPlane(kind, p, width, height) && r + 1 < height && c + 1 < width
    ensures AllLegal(kind, q)
  {
    [p[r][c], p[r][c + 1], p[r + 1][c], p[r + 1][c + 1]]
  }

  function LumaQuad(picture: Picture, r: nat, c: nat): (q: Quad)
    requires picture.Valid() && r + 1 < picture.height && c + 1 < picture.width
    ensures AllLegal(Luma, q)
  {
    QuadAt(Luma, picture.luma, picture.width, picture.height, r, c)
  }

  function UQuad(picture: Picture, bc: nat, br: nat): (q: Quad)
    requires picture.Valid() && bc < picture.Columns() && br < picture.Rows()
    ensures AllLegal(Chroma, q)
  {
    QuadAt(Chroma, picture.u, picture.width / 2, picture.height / 2, 2 * br, 2 * bc)
  }

  function VQuad(picture: Picture, bc: nat, br: nat): (q: Quad)
    requires picture.Valid() && bc < picture.Columns() && br < picture.Rows()
    ensures AllLegal(Chroma, q)
  {
    QuadAt(Chroma, picture.v, picture.width / 2, picture.height / 2, 2 * br, 2 * bc)
  }

  /** The values of block (bc, br), part by part: U, V, and four squares of luminance. */
  function Part(picture: Picture, bc: nat, br: nat, part: nat): (q: Quad)
    requires picture.Valid() && bc < picture.Columns() && br < picture.Rows() && part < 6
    ensures AllLegal(KindOf(part), q)
  {
    match part
    case 0 => UQuad(picture, bc, br)
    case 1 => VQuad(picture, bc, br)
    case 2 => LumaQuad(picture, 4 * br, 4 * bc)
    case 3 => LumaQuad(picture, 4 * br, 4 * bc + 2)
    case 4 => LumaQuad(picture, 4 * br + 2, 4 * bc)
    case _ => LumaQuad(picture, 4 * br + 2, 4 * bc + 2)
  }

  function KindOf(part: nat): Kind {
    if part < 2 then Chroma else Luma
  }

  /** The first `n` parts of a block, encoded. */
  function BlockBytes(picture: Picture, bc: nat, br: nat, n: nat): (bytes: seq<byte>)
    requires picture.Valid() && bc < picture.Columns() && br < picture.Rows() && n <= 6
    ensures |bytes| == 2 * n
  {
    if n == 0 then [] else BlockBytes(picture, bc, br, n - 1) + Encoded(KindOf(n - 1), Part(picture, bc, br, n - 1))
  }

  /** Where a block starts. */
  function BlockAt(columns: nat, bc: nat, br: nat): nat {
    BLOCK_BYTES * (br * columns + bc)
  }

  /** Is block (bc, br) in front of block (x, y)? */
  predicate Before(bc: nat, br: nat, x: nat, y: nat) {
    br < y || (br == y && bc < x)
  }

  lemma BlocksApart(columns: nat, bc: nat, br: nat, x: nat, y: nat)
    requires bc < columns && Before(bc, br, x, y)
    ensures BlockAt(columns, bc, br) + BLOCK_BYTES <= BlockAt(columns, x, y)
  {
    if br < y {
      assert br * columns + columns == (br + 1) * columns;
      RowsMonotonic(br + 1, y, columns);
    }
  }

  lemma RowsMonotonic(a: nat, b: nat, columns: nat)
    requires a <= b
    ensures a * columns <= b * columns
  {
  }

  lemma BlockFollows(columns: nat, x: nat, y: nat)
    ensures BlockAt(columns, x + 1, y) == BlockAt(columns, x, y) + BLOCK_BYTES
  {
  }

  lemma NextRow(columns: nat, y: nat)
    ensures BlockAt(columns, columns, y) == BlockAt(columns, 0, y + 1)
  {
  }

  lemma BlockInside(columns: nat, rows: nat, x: nat, y: nat)
    requires x < columns && y < rows
    ensures BlockAt(columns, x, y) + BLOCK_BYTES <= BlockAt(columns, 0, rows)
  {
    BlocksApart(columns, x, y, 0, rows);
  }

  method EncodeBlock(picture: Picture, bc: nat, br: nat, dest: array<byte>, at: nat)
    requires picture.Valid() && bc < picture.Columns() && br < picture.Rows() && at + BLOCK_BYTES <= dest.Length
    modifies dest
    ensures dest[..] == Splice(old(dest[..]), at, BlockBytes(picture, bc, br, 6))
  {
    hide Part, Encoded, Picture.Valid;
    ghost var before := dest[..];
    assert before == Splice(before, at, []);
    for part := 0 to 6
      invariant dest[..] == Splice(before, at, BlockBytes(picture, bc, br, part))
    {
      EncodeComponentValues(KindOf(part), Part(picture, bc, br, part), dest, at + 2 * part);
      SpliceSplice(before, at, BlockBytes(picture, bc, br, part), Encoded(KindOf(part), Part(picture, bc, br, part)));
    }
  }

  /** Do the bytes hold the block? */
  predicate HoldsBlock(picture: Picture, bytes: seq<byte>, bc: nat, br: nat)
    requires picture.Valid() && bc < picture.Columns() && br < picture.Rows()
  {
    var at := BlockAt(picture.Columns(), bc, br);
    at + BLOCK_BYTES <= |bytes| && bytes[at..at + BLOCK_BYTES] == BlockBytes(picture, bc, br, 6)
  }

  predicate HoldsBefore(picture: Picture, bytes: seq<byte>, x: nat, y: nat)
    requires picture.Valid()
  {
    forall bc, br :: 0 <= bc < picture.Columns() && 0 <= br < picture.Rows() && Before(bc, br, x, y) ==>
      HoldsBlock(picture, bytes, bc, br)
  }

  lemma NextBlock(picture: Picture, before: seq<byte>, after: seq<byte>, x: nat, y: nat)
    requires picture.Valid() && x < picture.Columns() && y < picture.Rows() && HoldsBefore(picture, before, x, y)
    requires BlockAt(picture.Columns(), x, y) + BLOCK_BYTES <= |before|
    requires after == Splice(before, BlockAt(picture.Columns(), x, y), BlockBytes(picture, x, y, 6))
    ensures HoldsBefore(picture, after, x + 1, y)
  {
    hide BlockBytes, BlockAt, Picture.Valid;
    var at := BlockAt(picture.Columns(), x, y);
    assert after[at..at + BLOCK_BYTES] == BlockBytes(picture, x, y, 6);
    forall bc, br | 0 <= bc < picture.Columns() && 0 <= br < picture.Rows() && Before(bc, br, x + 1, y)
      ensures HoldsBlock(picture, after, bc, br)
    {
      if Before(bc, br, x, y) {
        BlocksApart(picture.Columns(), bc, br, x, y);
        assert HoldsBlock(picture, before, bc, br);
        var was := BlockAt(picture.Columns(), bc, br);
        assert after[was..was + BLOCK_BYTES] == before[was..was + BLOCK_BYTES];
      }
    }
  }

  /** Encodes a picture block by block. */
  method EncodeImage(picture: Picture, dest: array<byte>)
    requires picture.Valid() && dest.Length == BlockAt(picture.Columns(), 0, picture.Rows())
    modifies dest
    ensures HoldsBefore(picture, dest[..], 0, picture.Rows())
  {
    hide HoldsBefore, BlockBytes, Picture.Valid, BlockAt, Splice;
    var at := 0;
    FirstBlock(picture, dest[..]);
    for y := 0 to picture.Rows()
      invariant at == BlockAt(picture.Columns(), 0, y) && HoldsBefore(picture, dest[..], 0, y)
    {
      for x := 0 to picture.Columns()
        invariant at == BlockAt(picture.Columns(), x, y) && HoldsBefore(picture, dest[..], x, y)
      {
        BlockInside(picture.Columns(), picture.Rows(), x, y);
        ghost var before := dest[..];
        EncodeBlock(picture, x, y, dest, at);
        NextBlock(picture, before, dest[..], x, y);
        BlockFollows(picture.Columns(), x, y);
        at := at + BLOCK_BYTES;
      }
      NextRow(picture.Columns(), y);
      RowHeld(picture, dest[..], y);
    }
  }

  lemma FirstBlock(picture: Picture, bytes: seq<byte>)
    requires picture.Valid()
    ensures HoldsBefore(picture, bytes, 0, 0) && BlockAt(picture.Columns(), 0, 0) == 0
  {
  }

  lemma RowHeld(picture: Picture, bytes: seq<byte>, y: nat)
    requires picture.Valid() && HoldsBefore(picture, bytes, picture.Columns(), y)
    ensures HoldsBefore(picture, bytes, 0, y + 1)
  {
    hide HoldsBlock, Picture.Valid;
    forall bc, br | 0 <= bc < picture.Columns() && 0 <= br < picture.Rows() && Before(bc, br, 0, y + 1)
      ensures HoldsBlock(picture, bytes, bc, br)
    {
      assert Before(bc, br, picture.Columns(), y);
    }
  }

  // ----- Decoding -----

  /** The planes of a decoded picture, of which nothing but the size need be known. */
  datatype Planes = Planes(width: nat, height: nat, luma: Plane, u: Plane, v: Plane) {
    predicate Valid() {
      && width % 4 == 0 && height % 4 == 0
      && IsShape(luma, width, height) && IsShape(u, width / 2, height / 2) && IsShape(v, width / 2, height / 2)
    }

    function Of(part: nat): Plane {
      if part == 0 then u else if part == 1 then v else luma
    }
  }

  predicate IsShape(p: Plane, width: nat, height: nat) {
    |p| == height && forall r :: 0 <= r < height ==> |p[r]| == width
  }

  /** The upper left corner of a part. */
  function RowOf(br: nat, part: nat): nat {
    if part < 2 then 2 * br else if part < 4 then 4 * br else 4 * br + 2
  }

  function ColumnOf(bc: nat, part: nat): nat {
    if part < 2 then 2 * bc else if part % 2 == 0 then 4 * bc else 4 * bc + 2
  }

  predicate IsPart(d: Planes, bc: nat, br: nat, part: nat) {
    bc < d.width / 4 && br < d.height / 4 && part < 6
  }

  function Square(p: Plane, r: nat, c: nat): Quad
    requires r + 1 < |p| && c + 1 < |p[r]| && c + 1 < |p[r + 1]|
  {
    [p[r][c], p[r][c + 1], p[r + 1][c], p[r + 1][c + 1]]
  }

  function PutSquare(p: Plane, r: nat, c: nat, q: Quad): (s: Plane)
    requires r + 1 < |p| && c + 1 < |p[r]| && c + 1 < |p[r + 1]|
    ensures |s| == |p| && forall k :: 0 <= k < |p| ==> |s[k]| == |p[k]|
  {
    p[r := p[r][c := q[0]][c + 1 := q[1]]][r + 1 := p[r + 1][c := q[2]][c + 1 := q[3]]]
  }

  lemma PartInside(d: Planes, bc: nat, br: nat, part: nat)
    requires d.Valid() && IsPart(d, bc, br, part)
    ensures var p, r, c := d.Of(part), RowOf(br, part), ColumnOf(bc, part);
            r + 1 < |p| && c + 1 < |p[r]| && c + 1 < |p[r + 1]|
  {
  }

  function PartOf(d: Planes, bc: nat, br: nat, part: nat): Quad
    requires d.Valid() && IsPart(d, bc, br, part)
  {
    PartInside(d, bc, br, part);
    Square(d.Of(part), RowOf(br, part), ColumnOf(bc, part))
  }

  function PutPart(d: Planes, bc: nat, br: nat, part: nat, q: Quad): (r: Planes)
    requires d.Valid() && IsPart(d, bc, br, part)
    ensures r.Valid() && r.width == d.width && r.height == d.height
  {
    PartInside(d, bc, br, part);
    var p := PutSquare(d.Of(part), RowOf(br, part), ColumnOf(bc, part), q);
    if part == 0 then d.(u := p) else if part == 1 then d.(v := p) else d.(luma := p)
  }

  lemma PutSquareApart(p: Plane, r: nat, c: nat, q: Quad, r': nat, c': nat)
    requires r + 1 < |p| && c + 1 < |p[r]| && c + 1 < |p[r + 1]|
    requires r' + 1 < |p| && c' + 1 < |p[r']| && c' + 1 < |p[r' + 1]|
    ensures Square(PutSquare(p, r, c, q), r, c) == q
    ensures r + 1 < r' || r' + 1 < r || c + 1 < c' || c' + 1 < c ==>
      Square(PutSquare(p, r, c, q), r', c') == Square(p, r', c')
  {
  }

  /** Parts do not overlap. */
  lemma PutPartGets(d: Planes, bc: nat, br: nat, part: nat, q: Quad, bc': nat, br': nat, part': nat)
    requires d.Valid() && IsPart(d, bc, br, part) && IsPart(d, bc', br', part')
    ensures PartOf(PutPart(d, bc, br, part, q), bc', br', part') ==
            if (bc, br, part) == (bc', br', part') then q else PartOf(d, bc', br', part')
  {
    hide PutSquare, Square, IsShape;
    PartInside(d, bc, br, part);
    PartInside(d, bc', br', part');
    if d.Of(part) == d.Of(part') {
      PutSquareApart(d.Of(part), RowOf(br, part), ColumnOf(bc, part), q, RowOf(br', part'), ColumnOf(bc', part'));
    }
  }

  /** The two bytes of a part. */
  function PartBytes(src: seq<byte>, at: nat, part: nat): (bytes: seq<byte>)
    requires at + BLOCK_BYTES <= |src| && part < 6
    ensures |bytes| == 2
  {
    src[at + 2 * part..at + 2 * part + 2]
  }

  /** Do the planes show the first `n` parts of the block in the bytes? */
  predicate Shows(d: Planes, src: seq<byte>, at: nat, bc: nat, br: nat, n: nat)
    requires at + BLOCK_BYTES <= |src| && d.Valid() && n <= 6 && bc < d.width / 4 && br < d.height / 4
  {
    forall part :: 0 <= part < n ==> PartOf(d, bc, br, part) == Decoded(KindOf(part), PartBytes(src, at, part))
  }

  /** Outside block (bc, br), are the planes the same? */
  ghost predicate SameElsewhere(d: Planes, e: Planes, bc: nat, br: nat)
    requires d.Valid() && e.Valid() && d.width == e.width && d.height == e.height
  {
    forall x: nat, y: nat, part: nat :: IsPart(d, x, y, part) && (x, y) != (bc, br) ==>
      PartOf(d, x, y, part) == PartOf(e, x, y, part)
  }

  lemma PutShows(d: Planes, src: seq<byte>, at: nat, bc: nat, br: nat, part: nat, q: Quad)
    requires d.Valid() && IsPart(d, bc, br, part) && at + BLOCK_BYTES <= |src|
    requires Shows(d, src, at, bc, br, part) && q == Decoded(KindOf(part), PartBytes(src, at, part))
    ensures Shows(PutPart(d, bc, br, part, q), src, at, bc, br, part + 1)
    ensures forall e: Planes ::
              e.Valid() && e.width == d.width && e.height == d.height && SameElsewhere(e, d, bc, br) ==>
              SameElsewhere(e, PutPart(d, bc, br, part, q), bc, br)
  {
    hide PutPart, PartOf, Planes.Valid, PartBytes, Decoded;
    var r := PutPart(d, bc, br, part, q);
    forall x: nat, y: nat, k: nat | IsPart(d, x, y, k)
      ensures PartOf(r, x, y, k) == if (bc, br, part) == (x, y, k) then q else PartOf(d, x, y, k) {
      PutPartGets(d, bc, br, part, q, x, y, k);
    }
  }

  class Screen {
    const width: nat
    const height: nat
    const luma: array2<int>
    const u: array2<int>
    const v: array2<int>

    constructor (width: nat, height: nat)
      requires width % 4 == 0 && height % 4 == 0
      ensures this.width == width && this.height == height && Valid() && fresh(luma) && fresh(u) && fresh(v)
    {
      this.width, this.height := width, height;
      luma, u, v := new int[height, width], new int[height / 2, width / 2], new int[height / 2, width / 2];
    }

    predicate Valid() {
      && width % 4 == 0 && height % 4 == 0 && luma != u && luma != v && u != v
      && luma.Length0 == height && luma.Length1 == width
      && u.Length0 == v.Length0 == height / 2 && u.Length1 == v.Length1 == width / 2
    }

    ghost function Contents(): (d: Planes)
      requires Valid()
      reads luma, u, v
      ensures d.Valid() && d.width == width && d.height == height
    {
      Planes(width, height, Rows(luma), Rows(u), Rows(v))
    }

    static ghost function Rows(a: array2<int>): (p: Plane)
      reads a
      ensures IsShape(p, a.Length1, a.Length0)
    {
      seq(a.Length0,
          r requires 0 <= r < a.Length0 reads a => seq(a.Length1, c requires 0 <= c < a.Length1 reads a => a[r, c]))
    }

    static method PutQuad(a: array2<int>, r: nat, c: nat, q: Quad)
      requires r + 1 < a.Length0 && c + 1 < a.Length1
      modifies a
      ensures Rows(a) == PutSquare(old(Rows(a)), r, c, q)
    {
      ghost var before := Rows(a);
      a[r, c], a[r, c + 1], a[r + 1, c], a[r + 1, c + 1] := q[0], q[1], q[2], q[3];
      forall k | 0 <= k < a.Length0 ensures Rows(a)[k] == PutSquare(before, r, c, q)[k] {
      }
    }

    method DecodeBlock(src: seq<byte>, at: nat, bc: nat, br: nat)
      requires Valid() && at + BLOCK_BYTES <= |src| && bc < width / 4 && br < height / 4
      modifies luma, u, v
      ensures Shows(Contents(), src, at, bc, br, 6) && SameElsewhere(old(Contents()), Contents(), bc, br)
    {
      hide PartOf, PutSquare, Decoded;
      for part := 0 to 6
        invariant Shows(Contents(), src, at, bc, br, part) && SameElsewhere(old(Contents()), Contents(), bc, br)
      {
        var q := DecodeComponentValues(KindOf(part), src[at + 2 * part..at + 2 * part + 2]);
        PutShows(Contents(), src, at, bc, br, part, q);
        PartInside(Contents(), bc, br, part);
        ghost var d := Contents();
        if part == 0 {
          PutQuad(u, RowOf(br, part), ColumnOf(bc, part), q);
        } else if part == 1 {
          PutQuad(v, RowOf(br, part), ColumnOf(bc, part), q);
        } else {
          PutQuad(luma, RowOf(br, part), ColumnOf(bc, part), q);
        }
        assert Contents() == PutPart(d, bc, br, part, q);
      }
    }

    /** Decodes a picture block by block. */
    method DecodeImage(src: seq<byte>)
      requires Valid() && |src| == BlockAt(width / 4, 0, height / 4)
      modifies luma, u, v
      ensures ShowsBefore(Contents(), src, 0, height / 4)
    {
      hide BlockAt, Shows, ShowsBefore, SameElsewhere, PartOf;
      var at := 0;
      ShowsFirst(Contents(), src);
      for y := 0 to height / 4
        invariant at == BlockAt(width / 4, 0, y) && ShowsBefore(Contents(), src, 0, y)
      {
        for x := 0 to width / 4
          invariant at == BlockAt(width / 4, x, y) && ShowsBefore(Contents(), src, x, y)
        {
          BlockInside(width / 4, height / 4, x, y);
          ghost var before := Contents();
          DecodeBlock(src, at, x, y);
          ShowsNext(before, Contents(), src, x, y);
          BlockFollows(width / 4, x, y);
          at := at + BLOCK_BYTES;
        }
        NextRow(width / 4, y);
        ShowsRow(Contents(), src, y);
      }
    }
  }

  /** Do the planes show all blocks in front of (x, y)? */
  ghost predicate ShowsBefore(d: Planes, src: seq<byte>, x: nat, y: nat)
    requires d.Valid() && |src| == BlockAt(d.width / 4, 0, d.height / 4)
  {
    forall bc: nat, br: nat :: bc < d.width / 4 && br < d.height / 4 && Before(bc, br, x, y) ==>
      ShowsBlock(d, src, bc, br)
  }

  predicate ShowsBlock(d: Planes, src: seq<byte>, bc: nat, br: nat)
    requires d.Valid() && bc < d.width / 4 && br < d.height / 4 && |src| == BlockAt(d.width / 4, 0, d.height / 4)
  {
    BlockInside(d.width / 4, d.height / 4, bc, br);
    Shows(d, src, BlockAt(d.width / 4, bc, br), bc, br, 6)
  }

  lemma ShowsFirst(d: Planes, src: seq<byte>)
    requires d.Valid() && |src| == BlockAt(d.width / 4, 0, d.height / 4)
    ensures ShowsBefore(d, src, 0, 0) && BlockAt(d.width / 4, 0, 0) == 0
  {
  }

  lemma ShowsRow(d: Planes, src: seq<byte>, y: nat)
    requires d.Valid() && |src| == BlockAt(d.width / 4, 0, d.height / 4) && ShowsBefore(d, src, d.width / 4, y)
    ensures ShowsBefore(d, src, 0, y + 1)
  {
    hide ShowsBlock, Planes.Valid, BlockAt;
    forall bc: nat, br: nat | bc < d.width / 4 && br < d.height / 4 && Before(bc, br, 0, y + 1)
      ensures ShowsBlock(d, src, bc, br) {
      assert Before(bc, br, d.width / 4, y);
    }
  }

  lemma ShowsNext(d: Planes, e: Planes, src: seq<byte>, x: nat, y: nat)
    requires d.Valid() && e.Valid() && e.width == d.width && e.height == d.height && x < d.width / 4 && y < d.height / 4
    requires |src| == BlockAt(d.width / 4, 0, d.height / 4) && ShowsBefore(d, src, x, y)
    requires BlockAt(d.width / 4, x, y) + BLOCK_BYTES <= |src|
    requires Shows(e, src, BlockAt(d.width / 4, x, y), x, y, 6) && SameElsewhere(d, e, x, y)
    ensures ShowsBefore(e, src, x + 1, y)
  {
    hide Planes.Valid, BlockAt, PartOf, Decoded, PartBytes;
    forall bc: nat, br: nat | bc < d.width / 4 && br < d.height / 4 && Before(bc, br, x + 1, y)
      ensures ShowsBlock(e, src, bc, br) {
      if Before(bc, br, x, y) {
        assert ShowsBlock(d, src, bc, br);
      }
    }
  }

  // ----- There and back -----

  /** A decoded picture is close to the encoded one in every part of every block. */
  lemma PartsClose(picture: Picture, bytes: seq<byte>, d: Planes, bc: nat, br: nat, part: nat, i: nat)
    requires picture.Valid() && d.Valid() && d.width == picture.width && d.height == picture.height
    requires |bytes| == BlockAt(picture.Columns(), 0, picture.Rows())
    requires HoldsBefore(picture, bytes, 0, picture.Rows()) && ShowsBefore(d, bytes, 0, picture.Rows())
    requires IsPart(d, bc, br, part) && i < 4
    ensures var kind, table := KindOf(part), FinestTable(KindOf(part), Part(picture, bc, br, part), TABLES - 1);
            var q := PartOf(d, bc, br, part);
            kind.Legal(q[i]) && Distance(q[i], Part(picture, bc, br, part)[i]) <= Error(table)
  {
    hide Picture.Valid, Planes.Valid, BlockAt, PartOf, Part, Decoded, Encoded, FinestTable;
    assert HoldsBlock(picture, bytes, bc, br) && ShowsBlock(d, bytes, bc, br);
    BlockPart(picture, bytes, BlockAt(picture.Columns(), bc, br), bc, br, part);
    DecodedWithinError(KindOf(part), Part(picture, bc, br, part), i);
  }

  lemma BlockPart(picture: Picture, bytes: seq<byte>, at: nat, bc: nat, br: nat, part: nat)
    requires picture.Valid() && bc < picture.Columns() && br < picture.Rows() && part < 6
    requires at + BLOCK_BYTES <= |bytes| && bytes[at..at + BLOCK_BYTES] == BlockBytes(picture, bc, br, 6)
    ensures PartBytes(bytes, at, part) == Encoded(KindOf(part), Part(picture, bc, br, part))
  {
    hide Encoded, Part, Picture.Valid;
    BlockBytesPart(picture, bc, br, 6, part);
    var block := bytes[at..at + BLOCK_BYTES];
    assert block[2 * part] == bytes[at + 2 * part] && block[2 * part + 1] == bytes[at + 2 * part + 1];
    assert PartBytes(bytes, at, part) == block[2 * part..2 * part + 2];
  }

  lemma {:induction false} BlockBytesPart(picture: Picture, bc: nat, br: nat, n: nat, part: nat)
    requires picture.Valid() && bc < picture.Columns() && br < picture.Rows() && part < n <= 6
    ensures BlockBytes(picture, bc, br, n)[2 * part..2 * part + 2] == Encoded(KindOf(part), Part(picture, bc, br, part))
  {
    hide Encoded, Part, Picture.Valid;
    if part < n - 1 {
      BlockBytesPart(picture, bc, br, n - 1, part);
      assert BlockBytes(picture, bc, br, n)[2 * part..2 * part + 2] ==
               BlockBytes(picture, bc, br, n - 1)[2 * part..2 * part + 2];
    }
  }

  lemma Halves(r: nat) returns (half: nat, rest: nat)
    ensures r == 2 * half + rest && rest < 2
  {
    half, rest := r / 2, r % 2;
  }

  /** Where a pixel of the luminance is found. */
  lemma LumaPixel(picture: Picture, d: Planes, r: nat, c: nat) returns (bc: nat, br: nat, part: nat, i: nat)
    requires picture.Valid() && d.Valid() && d.width == picture.width && d.height == picture.height
    requires r < d.height && c < d.width
    ensures IsPart(d, bc, br, part) && i < 4 && KindOf(part) == Luma
    ensures PartOf(d, bc, br, part)[i] == d.luma[r][c] && Part(picture, bc, br, part)[i] == picture.luma[r][c]
  {
    hide IsPlane, IsShape, UQuad, VQuad, Kind.Legal;
    var halfRow, a := Halves(r);
    var row, m := Halves(halfRow);
    var halfColumn, b := Halves(c);
    var column, n := Halves(halfColumn);
    bc, br, part, i := column, row, 2 + 2 * m + n, 2 * a + b;
    PartInside(d, bc, br, part);
    assert RowOf(br, part) + a == r && ColumnOf(bc, part) + b == c;
  }

  lemma ChromaPixel(picture: Picture, d: Planes, r: nat, c: nat) returns (bc: nat, br: nat, i: nat)
    requires picture.Valid() && d.Valid() && d.width == picture.width && d.height == picture.height
    requires r < d.height / 2 && c < d.width / 2
    ensures IsPart(d, bc, br, 0) && IsPart(d, bc, br, 1) && i < 4
    ensures PartOf(d, bc, br, 0)[i] == d.u[r][c] && Part(picture, bc, br, 0)[i] == picture.u[r][c]
    ensures PartOf(d, bc, br, 1)[i] == d.v[r][c] && Part(picture, bc, br, 1)[i] == picture.v[r][c]
  {
    hide IsPlane, IsShape, LumaQuad, Kind.Legal;
    var row, a := Halves(r);
    var column, b := Halves(c);
    bc, br, i := column, row, 2 * a + b;
    PartInside(d, bc, br, 0);
    PartInside(d, bc, br, 1);
  }

  /** Is the decoded picture the one in these bytes, and these the encoded picture? */
  ghost predicate ThereAndBack(picture: Picture, bytes: seq<byte>, d: Planes) {
    && picture.Valid() && d.Valid() && d.width == picture.width && d.height == picture.height
    && |bytes| == BlockAt(picture.Columns(), 0, picture.Rows())
    && HoldsBefore(picture, bytes, 0, picture.Rows()) && ShowsBefore(d, bytes, 0, picture.Rows())
  }

  /** The luminance of every pixel is legal, and within 31 of what was encoded ... */
  lemma LumaClose(picture: Picture, bytes: seq<byte>, d: Planes, r: nat, c: nat)
    requires ThereAndBack(picture, bytes, d) && r < d.height && c < d.width
    ensures Luma.Legal(d.luma[r][c]) && Distance(d.luma[r][c], picture.luma[r][c]) <= 31
  {
    hide HoldsBefore, ShowsBefore, PartOf, Part, BlockAt, FinestTable;
    var bc, br, part, i := LumaPixel(picture, d, r, c);
    PartsClose(picture, bytes, d, bc, br, part, i);
  }

  /** ... and so is the chrominance. */
  lemma ChromaClose(picture: Picture, bytes: seq<byte>, d: Planes, r: nat, c: nat)
    requires ThereAndBack(picture, bytes, d) && r < d.height / 2 && c < d.width / 2
    ensures Chroma.Legal(d.u[r][c]) && Distance(d.u[r][c], picture.u[r][c]) <= 31
    ensures Chroma.Legal(d.v[r][c]) && Distance(d.v[r][c], picture.v[r][c]) <= 31
  {
    hide HoldsBefore, ShowsBefore, PartOf, Part, BlockAt, FinestTable;
    var bc, br, i := ChromaPixel(picture, d, r, c);
    PartsClose(picture, bytes, d, bc, br, 0, i);
    PartsClose(picture, bytes, d, bc, br, 1, i);
  }
}
