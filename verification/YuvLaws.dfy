/** What the delta code does, in numbers: which table a square of values gets, and where its bytes stand. */
module YuvLaws {
  import opened Bytes
  import opened YuvDelta
  import opened YuvImage

  // ----- The tables -----

  /** Table 0 has steps of 32 that only go up; the others have three steps up and four down. */
  lemma CorrectionInNumbers(table: nat, i: nat)
    requires table < 4 && i < 8
    ensures table == 0 ==> Correction(table, i) == 32 * i
    ensures table == 1 ==> Correction(table, i) == 16 * if i < 4 then i else i - 8
    ensures table == 2 ==> Correction(table, i) == 8 * if i < 4 then i else i - 8
    ensures table == 3 ==> Correction(table, i) == 4 * if i < 4 then i else i - 8
  {
  }

  lemma ReachInNumbers(base: int, val: int)
    ensures Reaches(base, val, 1) <==> -68 <= val - base <= 52
    ensures Reaches(base, val, 2) <==> -36 <= val - base <= 28
    ensures Reaches(base, val, 3) <==> -20 <= val - base <= 16
  {
  }

  lemma LegalInNumbers(v: int)
    ensures Luma.Legal(v) <==> 16 <= v <= 235
    ensures Chroma.Legal(v) <==> -112 <= v <= 111
  {
  }

  // ----- A lower bound on the table -----

  /** No value is more than `rise` above the one before it, and none more than `fall` below. */
  predicate Steps(src: Quad, rise: nat, fall: nat) {
    forall j :: 1 <= j < 4 ==> src[j - 1] - fall <= src[j] <= src[j - 1] + rise
  }

  /** The tables follow steps of these sizes. */
  predicate Follows(src: Quad, table: nat) {
    || table == 0
    || (table == 1 && Steps(src, 37, 53))
    || (table == 2 && Steps(src, 21, 29))
    || (table == 3 && Steps(src, 9, 16))
  }

  lemma {:induction false} TrackedIsClose(kind: Kind, src: Quad, table: nat, j: nat)
    requires 1 <= table < 4 && AllLegal(kind, src) && Follows(src, table) && j < 4
    ensures Suffices(kind, src, table, j + 1)
    ensures if j == 0 then Start(src[0]) <= src[0] < Start(src[0]) + 8
            else Distance(Tracked(kind, src, table, j), src[j]) <= Bound(table)
  {
    hide Correction, Corrected, Closest, Reaches, Kind.Legal;
    if j > 0 {
      TrackedIsClose(kind, src, table, j - 1);
      ReachInNumbers(Tracked(kind, src, table, j - 1), src[j]);
      ClosestWithinBound(kind, Tracked(kind, src, table, j - 1), src[j], table);
    }
  }

  /** Small steps get a fine table. */
  lemma SmallSteps(kind: Kind, src: Quad)
    requires AllLegal(kind, src)
    ensures Steps(src, 9, 16) ==> FinestTable(kind, src, 3) == 3
    ensures Steps(src, 21, 29) ==> FinestTable(kind, src, 3) >= 2
    ensures Steps(src, 37, 53) ==> FinestTable(kind, src, 3) >= 1
  {
    hide Suffices, Kind.Legal;
    if Steps(src, 9, 16) {
      TrackedIsClose(kind, src, 3, 3);
    }
    if Steps(src, 21, 29) {
      TrackedIsClose(kind, src, 2, 3);
    }
    if Steps(src, 37, 53) {
      TrackedIsClose(kind, src, 1, 3);
    }
  }

  /** Neighbouring values that differ by at most 9 come back within 7, and so do those that differ by at most 21; those
      that differ by at most 37 come back within 15. */
  lemma SmallStepsComeBack(kind: Kind, src: Quad, j: nat)
    requires AllLegal(kind, src) && j < 4
    ensures var v := Decoded(kind, Encoded(kind, src))[j];
            && (Steps(src, 9, 9) ==> FinestTable(kind, src, 3) == 3 && Distance(v, src[j]) <= 7)
            && (Steps(src, 21, 21) ==> FinestTable(kind, src, 3) >= 2 && Distance(v, src[j]) <= 7)
            && (Steps(src, 37, 37) ==> FinestTable(kind, src, 3) >= 1 && Distance(v, src[j]) <= 15)
  {
    hide Decoded, Encoded, FinestTable, Kind.Legal;
    SmallSteps(kind, src);
    DecodedWithinError(kind, src, j);
  }

  /** Behind the first value it is 4, 7 or 15. */
  lemma SmallStepsComeCloser(kind: Kind, src: Quad, j: nat)
    requires AllLegal(kind, src) && 1 <= j < 4
    ensures var v := Decoded(kind, Encoded(kind, src))[j];
            Steps(src, 9, 9) ==> Distance(v, src[j]) <= 4
  {
    hide Correction, Corrected, Closest, Encoded, FinestTable, Kind.Legal, Decoded, DecodedAt;
    if Steps(src, 9, 9) {
      SmallSteps(kind, src);
      TrackedIsClose(kind, src, 3, j);
      NoDrift(kind, src, j);
      DecodedIsAt(kind, Encoded(kind, src), j);
    }
  }

  lemma DecodedIsAt(kind: Kind, bytes: seq<byte>, j: nat)
    requires |bytes| == 2 && j < 4
    ensures Decoded(kind, bytes)[j] == DecodedAt(kind, bytes, j)
  {
  }

  // ----- Known squares -----

  /** Where a correction hits the value, it is the chosen one. */
  lemma HitIsClosest(kind: Kind, base: int, val: int, table: nat, i: nat)
    requires 1 <= table < 4 && i < 8 && kind.Legal(base) && kind.Legal(val)
    requires base + Correction(table, i) == val
    ensures Closest(kind, base, val, table) == i && Corrected(kind, base, table, i) == val
  {
    hide Best, Correction, Closest;
    ClosestHits(kind, base, val, table, i);
    CorrectionsDiffer(table, i, Closest(kind, base, val, table));
  }

  lemma ClosestHits(kind: Kind, base: int, val: int, table: nat, i: nat)
    requires 1 <= table < 4 && i < 8 && kind.Legal(base) && kind.Legal(val)
    requires base + Correction(table, i) == val
    ensures Corrected(kind, base, table, i) == val
    ensures base + Correction(table, Closest(kind, base, val, table)) == val
  {
    hide Best, Correction;
    BestIsBest(kind, base, val, table, 8, i);
  }

  lemma CorrectionsDiffer(table: nat, i: nat, k: nat)
    requires 1 <= table < 4 && i < 8 && k < 8 && Correction(table, i) == Correction(table, k)
    ensures i == k
  {
    hide Correction;
    CorrectionInNumbers(table, i);
    CorrectionInNumbers(table, k);
  }

  lemma HitsAreChosen(kind: Kind, src: Quad, table: nat, first: nat, second: nat, third: nat)
    requires 1 <= table < 4 && AllLegal(kind, src) && src[0] % 8 == 0
    requires first < 8 && second < 8 && third < 8
    requires src[0] + Correction(table, first) == src[1]
    requires src[1] + Correction(table, second) == src[2]
    requires src[2] + Correction(table, third) == src[3]
    ensures Chosen(kind, src, table, 1) == first && Chosen(kind, src, table, 2) == second
    ensures Chosen(kind, src, table, 3) == third
    ensures Tracked(kind, src, table, 0) == src[0] && Tracked(kind, src, table, 1) == src[1]
    ensures Tracked(kind, src, table, 2) == src[2] && Tracked(kind, src, table, 3) == src[3]
  {
    hide Closest, Correction, Corrected;
    HitIsClosest(kind, src[0], src[1], table, first);
    HitIsClosest(kind, src[1], src[2], table, second);
    HitIsClosest(kind, src[2], src[3], table, third);
  }

  /** If each value is hit from the one before it, the square comes back as it was. */
  lemma HitsComeBack(kind: Kind, src: Quad, table: nat, first: nat, second: nat, third: nat)
    requires 1 <= table < 4 && AllLegal(kind, src) && FinestTable(kind, src, 3) == table && src[0] % 8 == 0
    requires first < 8 && second < 8 && third < 8
    requires src[0] + Correction(table, first) == src[1]
    requires src[1] + Correction(table, second) == src[2]
    requires src[2] + Correction(table, third) == src[3]
    ensures Encoded(kind, src) == [src[0] % 256 + 2 * table + third % 2, 32 * first + 4 * second + third / 2]
    ensures Decoded(kind, Encoded(kind, src)) == src
  {
    hide Closest, Correction, Corrected, FinestTable, DecodedAt, Tracked, Chosen, Decoded, Encoded, Packed;
    HitsAreChosen(kind, src, table, first, second, third);
    EncodedWith(kind, src, table);
    PackedInBytes(src[0], table, first, second, third);
    var bytes := Encoded(kind, src);
    forall j | 0 <= j < 4 ensures Decoded(kind, bytes)[j] == src[j] {
      NoDrift(kind, src, j);
      DecodedIsAt(kind, bytes, j);
    }
  }

  lemma EncodedWith(kind: Kind, src: Quad, table: nat)
    requires table < 4 && AllLegal(kind, src) && FinestTable(kind, src, 3) == table && src[0] % 8 == 0
    ensures Encoded(kind, src) ==
            Packed(src[0], table, Chosen(kind, src, table, 1), Chosen(kind, src, table, 2), Chosen(kind, src, table, 3))
  {
    hide Packed, Chosen, FinestTable;
  }

  lemma PackedInBytes(start: int, table: nat, first: nat, second: nat, third: nat)
    requires start % 8 == 0 && table < 4 && first < 8 && second < 8 && third < 8
    ensures Packed(start, table, first, second, third) ==
            [start % 256 + 2 * table + third % 2, 32 * first + 4 * second + third / 2]
  {
  }

  lemma HitsSuffice(kind: Kind, src: Quad, table: nat, first: nat, second: nat, third: nat)
    requires 1 <= table < 4 && AllLegal(kind, src) && src[0] % 8 == 0
    requires first < 8 && second < 8 && third < 8
    requires src[0] + Correction(table, first) == src[1]
    requires src[1] + Correction(table, second) == src[2]
    requires src[2] + Correction(table, third) == src[3]
    ensures Suffices(kind, src, table, 4)
  {
    hide Closest, Correction, Corrected, Reaches;
    HitIsClosest(kind, src[0], src[1], table, first);
    HitIsClosest(kind, src[1], src[2], table, second);
    HitReaches(src[0], src[1], table, first);
    HitReaches(src[1], src[2], table, second);
    HitReaches(src[2], src[3], table, third);
  }

  lemma HitReaches(base: int, val: int, table: nat, i: nat)
    requires 1 <= table < 4 && i < 8 && base + Correction(table, i) == val
    ensures Reaches(base, val, table)
  {
    hide Correction, Reaches;
    CorrectionInNumbers(table, i);
    ReachInNumbers(base, val);
  }

  /** A step that is too large behind one that is hit. */
  lemma TooFar(kind: Kind, src: Quad, table: nat, first: nat)
    requires 1 <= table < 4 && AllLegal(kind, src) && src[0] % 8 == 0 && first < 8
    requires src[0] + Correction(table, first) == src[1] && !Reaches(src[1], src[2], table)
    ensures !Suffices(kind, src, table, 4)
  {
    hide Closest, Correction, Corrected, Reaches;
    HitIsClosest(kind, src[0], src[1], table, first);
  }

  const FALLING: Quad := [32, 20, 20, 20]
  const MIXED: Quad := [40, 48, 72, 64]
  const BELOW_ZERO: Quad := [-8, -12, -8, 0]

  lemma FallingSquare(src: Quad)
    requires src == FALLING
    ensures AllLegal(Luma, src) && FinestTable(Luma, src, 3) == 3 && Encoded(Luma, src) == [0x26, 0xA0]
    ensures Decoded(Luma, Encoded(Luma, src)) == src
  {
    hide Correction, Reaches, Suffices, FinestTable, Encoded, Decoded;
    SmallSteps(Luma, src);
    CorrectionInNumbers(3, 5);
    CorrectionInNumbers(3, 0);
    HitsComeBack(Luma, src, 3, 5, 0, 0);
  }

  lemma MixedSquare(src: Quad)
    requires src == MIXED
    ensures AllLegal(Luma, src) && FinestTable(Luma, src, 3) == 2 && Encoded(Luma, src) == [0x2D, 0x2F]
    ensures Decoded(Luma, Encoded(Luma, src)) == src
  {
    hide Correction, Reaches, Suffices, Encoded, Decoded;
    CorrectionInNumbers(3, 2);
    ReachInNumbers(src[1], src[2]);
    TooFar(Luma, src, 3, 2);
    CorrectionInNumbers(2, 1);
    CorrectionInNumbers(2, 3);
    CorrectionInNumbers(2, 7);
    HitsSuffice(Luma, src, 2, 1, 3, 7);
    HitsComeBack(Luma, src, 2, 1, 3, 7);
  }

  lemma SquareBelowZero(src: Quad)
    requires src == BELOW_ZERO
    ensures AllLegal(Chroma, src) && FinestTable(Chroma, src, 3) == 3 && Encoded(Chroma, src) == [0xFE, 0xE5]
    ensures Decoded(Chroma, Encoded(Chroma, src)) == src
  {
    hide Correction, Reaches, Suffices, FinestTable, Encoded, Decoded;
    SmallSteps(Chroma, src);
    CorrectionInNumbers(3, 7);
    CorrectionInNumbers(3, 1);
    CorrectionInNumbers(3, 2);
    HitsComeBack(Chroma, src, 3, 7, 1, 2);
  }

  // ----- Where the bytes stand -----

  /** The square with its upper left corner in row `r` and column `c`. */
  predicate HasSquare(p: Plane, r: nat, c: nat, q: Quad) {
    && r + 1 < |p| && c + 1 < |p[r]| && c + 1 < |p[r + 1]|
    && p[r][c] == q[0] && p[r][c + 1] == q[1] && p[r + 1][c] == q[2] && p[r + 1][c + 1] == q[3]
  }

  lemma BlockInNumbers(columns: nat, bc: nat, br: nat)
    ensures BlockAt(columns, bc, br) == 12 * (br * columns + bc)
  {
  }

  /** The first four bytes of a block are the blue and the red differences of its four 2x2 squares. */
  lemma ChromaBytes(picture: Picture, bytes: seq<byte>, bc: nat, br: nat, q: Quad, at: nat)
    requires picture.Valid() && bc < picture.width / 4 && br < picture.height / 4
    requires |bytes| == 12 * (picture.height / 4 * (picture.width / 4)) && at == 12 * (br * (picture.width / 4) + bc)
    requires HoldsBefore(picture, bytes, 0, picture.height / 4)
    ensures at + 12 <= |bytes|
    ensures HasSquare(picture.u, 2 * br, 2 * bc, q) ==> AllLegal(Chroma, q) && bytes[at..at + 2] == Encoded(Chroma, q)
    ensures HasSquare(picture.v, 2 * br, 2 * bc, q) ==>
      AllLegal(Chroma, q) && bytes[at + 2..at + 4] == Encoded(Chroma, q)
  {
    hide Encoded, BlockBytes, LumaQuad, Picture.Valid, BlockAt;
    BlockInNumbers(picture.width / 4, bc, br);
    assert HoldsBlock(picture, bytes, bc, br);
    BlockPart(picture, bytes, at, bc, br, 0);
    BlockPart(picture, bytes, at, bc, br, 1);
    assert HasSquare(picture.u, 2 * br, 2 * bc, q) ==> Part(picture, bc, br, 0) == q;
    assert HasSquare(picture.v, 2 * br, 2 * bc, q) ==> Part(picture, bc, br, 1) == q;
  }

  /** The other eight bytes are the four squares of luminance: left and right, the upper ones first. */
  lemma LumaBytes(picture: Picture, bytes: seq<byte>, bc: nat, br: nat, m: nat, n: nat, q: Quad, at: nat)
    requires picture.Valid() && bc < picture.width / 4 && br < picture.height / 4 && m < 2 && n < 2
    requires |bytes| == 12 * (picture.height / 4 * (picture.width / 4)) && at == 12 * (br * (picture.width / 4) + bc)
    requires HoldsBefore(picture, bytes, 0, picture.height / 4)
    requires HasSquare(picture.luma, 4 * br + 2 * m, 4 * bc + 2 * n, q)
    ensures at + 12 <= |bytes| && AllLegal(Luma, q)
    ensures bytes[at + 4 + 4 * m + 2 * n..at + 6 + 4 * m + 2 * n] == Encoded(Luma, q)
  {
    hide Encoded, BlockBytes, UQuad, VQuad, Picture.Valid, BlockAt;
    BlockInNumbers(picture.width / 4, bc, br);
    assert HoldsBlock(picture, bytes, bc, br);
    BlockPart(picture, bytes, at, bc, br, 2 + 2 * m + n);
    assert Part(picture, bc, br, 2 + 2 * m + n) == q;
  }

  /** The decoder shows these bytes at the same places. */
  lemma ChromaShown(d: Planes, bytes: seq<byte>, bc: nat, br: nat, at: nat)
    requires d.Valid() && bc < d.width / 4 && br < d.height / 4
    requires |bytes| == BlockAt(d.width / 4, 0, d.height / 4) && at == 12 * (br * (d.width / 4) + bc)
    requires ShowsBefore(d, bytes, 0, d.height / 4)
    ensures at + 12 <= |bytes|
    ensures HasSquare(d.u, 2 * br, 2 * bc, Decoded(Chroma, bytes[at..at + 2]))
    ensures HasSquare(d.v, 2 * br, 2 * bc, Decoded(Chroma, bytes[at + 2..at + 4]))
  {
    hide Decoded, Planes.Valid, BlockAt;
    BlockInNumbers(d.width / 4, bc, br);
    assert ShowsBlock(d, bytes, bc, br);
    BlockInside(d.width / 4, d.height / 4, bc, br);
    PartInside(d, bc, br, 0);
    PartInside(d, bc, br, 1);
    assert PartOf(d, bc, br, 0) == Decoded(Chroma, bytes[at..at + 2]);
    assert PartOf(d, bc, br, 1) == Decoded(Chroma, bytes[at + 2..at + 4]);
  }

  lemma LumaShown(d: Planes, bytes: seq<byte>, bc: nat, br: nat, m: nat, n: nat, at: nat)
    requires d.Valid() && bc < d.width / 4 && br < d.height / 4 && m < 2 && n < 2
    requires |bytes| == BlockAt(d.width / 4, 0, d.height / 4) && at == 12 * (br * (d.width / 4) + bc)
    requires ShowsBefore(d, bytes, 0, d.height / 4)
    ensures at + 12 <= |bytes|
    ensures HasSquare(d.luma, 4 * br + 2 * m, 4 * bc + 2 * n,
                      Decoded(Luma, bytes[at + 4 + 4 * m + 2 * n..at + 6 + 4 * m + 2 * n]))
  {
    hide Decoded, Planes.Valid, BlockAt;
    BlockInNumbers(d.width / 4, bc, br);
    assert ShowsBlock(d, bytes, bc, br);
    BlockInside(d.width / 4, d.height / 4, bc, br);
    PartInside(d, bc, br, 2 + 2 * m + n);
    assert PartOf(d, bc, br, 2 + 2 * m + n) == Decoded(Luma, bytes[at + 4 + 4 * m + 2 * n..at + 6 + 4 * m + 2 * n]);
  }
}
