/** What adaptive demosaicing does to pictures, in terms of their samples. */
module AhdLaws {
  import opened Bytes
  import opened Wrappers
  import opened AhdDemosaic

  // ----- Where the colours are -----

  /** The two corners of each layout: the last of the four letters names the first pixel. */
  lemma Corners()
    ensures SiteOf(RGGB, 0, 0) == BlueSite && SiteOf(RGGB, 1, 1) == RedSite
    ensures SiteOf(BGGR, 0, 0) == RedSite && SiteOf(BGGR, 1, 1) == BlueSite
    ensures SiteOf(GRBG, 1, 0) == BlueSite && SiteOf(GRBG, 0, 1) == RedSite
    ensures SiteOf(GBRG, 1, 0) == RedSite && SiteOf(GBRG, 0, 1) == BlueSite
  {
  }

  /** What the sensor has measured at a pixel. */
  function Measurement(f: Frame, img: seq<Row>, x: nat, y: nat): byte
    requires f.Is(img) && x < f.w && y < f.h
  {
    match SiteOf(f.tile, x, y)
    case RedSite => img[y][x].red
    case BlueSite => img[y][x].blue
    case _ => img[y][x].green
  }

  // ----- Formulas away from the border -----

  /** `n / 4` in C, kept within a byte. */
  predicate IsQuarter(v: int, n: int) {
    if n >= 1024 then v == 255
    else if n < 0 then v == 0
    else 4 * v <= n < 4 * v + 4
  }

  /** A missing green, two pixels away from the border or more: (2 S(x) + 2 G(x+1) + 2 G(x-1) - S(x-2) - S(x+2)) / 4,
      where S are the samples of the own colour; and the same from top to bottom. */
  lemma GreenInside(f: Frame, img: seq<Row>, x: nat, y: nat)
    requires f.Is(img) && x < f.w && y < f.h && SiteOf(f.tile, x, y) in {RedSite, BlueSite}
    ensures 2 <= x < f.w - 2 ==>
      IsQuarter(GreenAt(Horizontal, f, img, x, y),
                2 * Num(Measurement(f, img, x, y)) + 2 * Num(Measurement(f, img, x + 1, y)) +
                2 * Num(Measurement(f, img, x - 1, y)) -
                Num(Measurement(f, img, x - 2, y)) - Num(Measurement(f, img, x + 2, y)))
    ensures 2 <= y < f.h - 2 ==>
      IsQuarter(GreenAt(Vertical, f, img, x, y),
                2 * Num(Measurement(f, img, x, y)) + 2 * Num(Measurement(f, img, x, y + 1)) +
                2 * Num(Measurement(f, img, x, y - 1)) -
                Num(Measurement(f, img, x, y - 2)) - Num(Measurement(f, img, x, y + 2)))
  {
    SitesAround(f.tile, x, y);
  }

  function Num(b: byte): int {
    b as int
  }

  lemma SitesAround(tile: Tile, x: nat, y: nat)
    ensures SiteOf(tile, x + 2, y) == SiteOf(tile, x, y) == SiteOf(tile, x, y + 2)
    ensures SiteOf(tile, x + 1, y) == Beside(SiteOf(tile, x, y)) && SiteOf(tile, x, y + 1) == Beyond(SiteOf(tile, x, y))
    ensures x >= 1 ==> SiteOf(tile, x - 1, y) == Beside(SiteOf(tile, x, y))
    ensures y >= 1 ==> SiteOf(tile, x, y - 1) == Beyond(SiteOf(tile, x, y))
    ensures x >= 2 ==> SiteOf(tile, x - 2, y) == SiteOf(tile, x, y)
    ensures y >= 2 ==> SiteOf(tile, x, y - 2) == SiteOf(tile, x, y)
  {
  }

  /** How much a measured colour exceeds the green there. */
  function Excess(d: Direction, f: Frame, img: seq<Row>, x: nat, y: nat): int
    requires f.Is(img) && x < f.w && y < f.h
  {
    Measurement(f, img, x, y) - GreenAt(d, f, img, x, y)
  }

  /** A green and the mean of `n` such differences, rounded towards zero, kept within a byte. */
  predicate IsShifted(v: int, green: int, sum: int, n: int)
    requires n > 0
  {
    var mean := if sum >= 0 then sum / n else -((-sum) / n);
    v == if green + mean > 255 then 255 else if green + mean < 0 then 0 else green + mean
  }

  /** All colours of a pixel inside the border: what is measured stays, a missing red or blue is green plus the mean
      difference at the nearest sites that measure it: the four diagonal ones, or two beside, or two above and below. */
  lemma ColoursInside(d: Direction, f: Frame, img: seq<Row>, x: nat, y: nat)
    requires f.Valid() && f.Is(img) && 1 <= x < f.w - 1 && 1 <= y < f.h - 1
    ensures var p, m, g := FullRow(d, f, img, y)[x], Measurement(f, img, x, y), GreenAt(d, f, img, x, y);
            var beside := Excess(d, f, img, x - 1, y) + Excess(d, f, img, x + 1, y);
            var beyond := Excess(d, f, img, x, y - 1) + Excess(d, f, img, x, y + 1);
            var corners := Excess(d, f, img, x - 1, y - 1) + Excess(d, f, img, x + 1, y - 1) +
                           Excess(d, f, img, x - 1, y + 1) + Excess(d, f, img, x + 1, y + 1);
            match SiteOf(f.tile, x, y)
            case RedSite => p.red == m && p.green == g && IsShifted(p.blue, g, corners, 4)
            case BlueSite => p.blue == m && p.green == g && IsShifted(p.red, g, corners, 4)
            case GreenInRed => p.green == m && IsShifted(p.red, m, beside, 2) && IsShifted(p.blue, m, beyond, 2)
            case GreenInBlue => p.green == m && IsShifted(p.blue, m, beside, 2) && IsShifted(p.red, m, beyond, 2)
  {
    hide SiteOf, GreenAt, FullRow, Excess, IsShifted;
    GreensMeasured(d, f, img, x, y);
    ColourInside(d, f, img, x, y, Red);
    ColourInside(d, f, img, x, y, Blue);
  }

  /** Red or blue, by where it is taken from. */
  predicate ColourRule(d: Direction, f: Frame, img: seq<Row>, x: nat, y: nat, c: Colour, v: byte)
    requires f.Valid() && f.Is(img) && 1 <= x < f.w - 1 && 1 <= y < f.h - 1
  {
    var g := GreenAt(d, f, img, x, y);
    match SourceOf(SiteOf(f.tile, x, y), c)
    case Measured => v == Get(img[y][x], c)
    case Diagonals =>
      IsShifted(v, g, Excess(d, f, img, x - 1, y - 1) + Excess(d, f, img, x + 1, y - 1) +
                      Excess(d, f, img, x - 1, y + 1) + Excess(d, f, img, x + 1, y + 1), 4)
    case AboveBelow => IsShifted(v, g, Excess(d, f, img, x, y - 1) + Excess(d, f, img, x, y + 1), 2)
    case LeftRight => IsShifted(v, g, Excess(d, f, img, x - 1, y) + Excess(d, f, img, x + 1, y), 2)
  }

  lemma ColourInside(d: Direction, f: Frame, img: seq<Row>, x: nat, y: nat, c: Colour)
    requires f.Valid() && f.Is(img) && 1 <= x < f.w - 1 && 1 <= y < f.h - 1
    ensures FullRow(d, f, img, y)[x].green == GreenAt(d, f, img, x, y)
    ensures ColourRule(d, f, img, x, y, c, Get(FullRow(d, f, img, y)[x], c))
  {
    hide FullRow, SiteOf, GreenAt, Diff, Excess, GreenRow, Trunc, Clamp, IsShifted, ColourAt, SourceOf;
    PixelOfFullRow(d, f, img, x, y);
    GreensMeasured(d, f, img, x, y);
    match SourceOf(SiteOf(f.tile, x, y), c) {
      case Measured =>
        ColourOfRows(f, GreenRow(d, f, img, y - 1), GreenRow(d, f, img, y), GreenRow(d, f, img, y + 1), x, y, c);
      case Diagonals => DiagonalColour(d, f, img, x, y, c);
      case AboveBelow => VerticalColour(d, f, img, x, y, c);
      case LeftRight => HorizontalColour(d, f, img, x, y, c);
    }
  }

  lemma DiagonalColour(d: Direction, f: Frame, img: seq<Row>, x: nat, y: nat, c: Colour)
    requires f.Valid() && f.Is(img) && 1 <= x < f.w - 1 && 1 <= y < f.h - 1
    requires SourceOf(SiteOf(f.tile, x, y), c) == Diagonals
    ensures IsShifted(Get(FullRow(d, f, img, y)[x], c), GreenAt(d, f, img, x, y),
                      Excess(d, f, img, x - 1, y - 1) + Excess(d, f, img, x + 1, y - 1) +
                      Excess(d, f, img, x - 1, y + 1) + Excess(d, f, img, x + 1, y + 1), 4)
  {
    hide FullRow, SiteOf, GreenAt, Diff, Excess, GreenRow, Trunc, Clamp, IsShifted, ColourAt, SourceOf;
    var above, row, below := GreenRow(d, f, img, y - 1), GreenRow(d, f, img, y), GreenRow(d, f, img, y + 1);
    PixelOfFullRow(d, f, img, x, y);
    GreensMeasured(d, f, img, x, y);
    ColourOfRows(f, above, row, below, x, y, c);
    SourcesMeasure(f.tile, x, y, c);
    SourcesBehind(f.tile, x, y, c);
    MeasuredDiff(d, f, img, x - 1, y - 1, c);
    MeasuredDiff(d, f, img, x + 1, y - 1, c);
    MeasuredDiff(d, f, img, x - 1, y + 1, c);
    MeasuredDiff(d, f, img, x + 1, y + 1, c);
  }

  lemma VerticalColour(d: Direction, f: Frame, img: seq<Row>, x: nat, y: nat, c: Colour)
    requires f.Valid() && f.Is(img) && 1 <= x < f.w - 1 && 1 <= y < f.h - 1
    requires SourceOf(SiteOf(f.tile, x, y), c) == AboveBelow
    ensures IsShifted(Get(FullRow(d, f, img, y)[x], c), GreenAt(d, f, img, x, y),
                      Excess(d, f, img, x, y - 1) + Excess(d, f, img, x, y + 1), 2)
  {
    hide FullRow, SiteOf, GreenAt, Diff, Excess, GreenRow, Trunc, Clamp, IsShifted, ColourAt, SourceOf;
    var above, row, below := GreenRow(d, f, img, y - 1), GreenRow(d, f, img, y), GreenRow(d, f, img, y + 1);
    PixelOfFullRow(d, f, img, x, y);
    GreensMeasured(d, f, img, x, y);
    ColourOfRows(f, above, row, below, x, y, c);
    SourcesMeasure(f.tile, x, y, c);
    SourcesBehind(f.tile, x, y, c);
    MeasuredDiff(d, f, img, x, y - 1, c);
    MeasuredDiff(d, f, img, x, y + 1, c);
  }

  lemma HorizontalColour(d: Direction, f: Frame, img: seq<Row>, x: nat, y: nat, c: Colour)
    requires f.Valid() && f.Is(img) && 1 <= x < f.w - 1 && 1 <= y < f.h - 1
    requires SourceOf(SiteOf(f.tile, x, y), c) == LeftRight
    ensures IsShifted(Get(FullRow(d, f, img, y)[x], c), GreenAt(d, f, img, x, y),
                      Excess(d, f, img, x - 1, y) + Excess(d, f, img, x + 1, y), 2)
  {
    hide FullRow, SiteOf, GreenAt, Diff, Excess, GreenRow, Trunc, Clamp, IsShifted, ColourAt, SourceOf;
    var above, row, below := GreenRow(d, f, img, y - 1), GreenRow(d, f, img, y), GreenRow(d, f, img, y + 1);
    PixelOfFullRow(d, f, img, x, y);
    GreensMeasured(d, f, img, x, y);
    ColourOfRows(f, above, row, below, x, y, c);
    SourcesMeasure(f.tile, x, y, c);
    SourcesBehind(f.tile, x, y, c);
    MeasuredDiff(d, f, img, x - 1, y, c);
    MeasuredDiff(d, f, img, x + 1, y, c);
  }

  lemma PixelOfFullRow(d: Direction, f: Frame, img: seq<Row>, x: nat, y: nat)
    requires f.Valid() && f.Is(img) && x < f.w && y < f.h
    ensures FullRow(d, f, img, y)[x] ==
            Completed(f, GreenRow(d, f, img, y - 1), GreenRow(d, f, img, y), GreenRow(d, f, img, y + 1), x, y)
  {
    hide GreenRow, Completed;
  }

  lemma ColourOfRows(f: Frame, above: Row, row: Row, below: Row, x: nat, y: nat, c: Colour)
    requires f.Valid() && |above| == |row| == |below| == f.w && 1 <= x < f.w - 1 && 1 <= y < f.h - 1
    ensures var v, g := ColourAt(f, above, row, below, x, y, c), row[x].green;
            match SourceOf(SiteOf(f.tile, x, y), c)
            case Measured => v == Get(row[x], c)
            case Diagonals =>
              IsShifted(v, g, Diff(above, x - 1, c, true) + Diff(above, x + 1, c, true) +
                              Diff(below, x - 1, c, true) + Diff(below, x + 1, c, true), 4)
            case AboveBelow => IsShifted(v, g, Diff(above, x, c, true) + Diff(below, x, c, true), 2)
            case LeftRight => IsShifted(v, g, Diff(row, x - 1, c, true) + Diff(row, x + 1, c, true), 2)
  {
    hide SiteOf, Diff, Trunc, Clamp, IsShifted, SourceOf;
    var g := row[x].green;
    TruncShifts(g, Diff(above, x - 1, c, true) + Diff(below, x - 1, c, true) +
                   Diff(above, x + 1, c, true) + Diff(below, x + 1, c, true), 4);
    TruncShifts(g, Diff(above, x, c, true) + Diff(below, x, c, true), 2);
    TruncShifts(g, Diff(row, x - 1, c, true) + Diff(row, x + 1, c, true), 2);
  }

  lemma TruncShifts(green: int, sum: int, n: int)
    requires n > 0
    ensures IsShifted(Clamp(green + Trunc(sum, n)), green, sum, n)
  {
  }

  /** The sites below are like those above. */
  lemma SourcesBehind(tile: Tile, x: nat, y: nat, c: Colour)
    requires x >= 1 && y >= 1
    ensures SourceOf(SiteOf(tile, x, y + 1), c) == SourceOf(SiteOf(tile, x, y - 1), c)
    ensures SourceOf(SiteOf(tile, x - 1, y + 1), c) == SourceOf(SiteOf(tile, x - 1, y - 1), c)
    ensures SourceOf(SiteOf(tile, x + 1, y + 1), c) == SourceOf(SiteOf(tile, x + 1, y - 1), c)
  {
    hide SiteOf;
    SitesAround(tile, x, y + 1);
    SitesAround(tile, x - 1, y + 1);
    SitesAround(tile, x + 1, y + 1);
  }

  lemma MeasuredDiff(d: Direction, f: Frame, img: seq<Row>, x: nat, y: nat, c: Colour)
    requires f.Is(img) && x < f.w && y < f.h && SourceOf(SiteOf(f.tile, x, y), c) == Measured
    ensures Diff(GreenRow(d, f, img, y), x, c, true) == Excess(d, f, img, x, y)
  {
    hide SiteOf, GreenAt;
  }

  lemma GreensMeasured(d: Direction, f: Frame, img: seq<Row>, x: nat, y: nat)
    requires f.Is(img) && x < f.w && y < f.h
    ensures SiteOf(f.tile, x, y) in {GreenInRed, GreenInBlue} ==> GreenAt(d, f, img, x, y) == Measurement(f, img, x, y)
    ensures GreenRow(d, f, img, y)[x] == img[y][x].(green := GreenAt(d, f, img, x, y))
  {
    hide SiteOf;
  }

  // ----- Pictures of stripes -----

  /** Has every row one value? */
  ghost predicate Rows(f: Frame, img: seq<Row>, c: seq<byte>) {
    && f.Valid() && f.Is(img) && |c| == f.h
    && forall x: nat, y: nat :: x < f.w && y < f.h ==> Measurement(f, img, x, y) == c[y]
  }

  /** Has every column one value? */
  ghost predicate Columns(f: Frame, img: seq<Row>, c: seq<byte>) {
    && f.Valid() && f.Is(img) && |c| == f.w
    && forall x: nat, y: nat :: x < f.w && y < f.h ==> Measurement(f, img, x, y) == c[x]
  }

  function Grey(v: byte): Pixel {
    Pixel(v, v, v)
  }

  /** Weights that add up to the divisor keep a value. */
  lemma EstimateOfOne(v: byte, near1: bool, far1: bool, near2: bool, far2: bool)
    requires (far1 ==> near1) && (far2 ==> near2)
    ensures Estimate(v, Maybe(near1, v), Maybe(far1, v), Maybe(near2, v), Maybe(far2, v)) == v
  {
    var div := 2 + 2 * One(near1) - One(far1) + 2 * One(near2) - One(far2);
    TruncOfProduct(v, div);
    assert 2 <= div <= 6;
    assert v * div == 2 * v + 2 * (v * One(near1)) - v * One(far1) + 2 * (v * One(near2)) - v * One(far2);
  }

  function Maybe(there: bool, v: byte): Option<byte> {
    if there then Some(v) else None
  }

  lemma TruncOfProduct(v: nat, d: nat)
    requires d > 0
    ensures Trunc(v * d, d) == v
  {
  }

  /** Interpolated along its rows, a picture of rows is grey, up to the border. */
  lemma GreensOfRows(f: Frame, img: seq<Row>, c: seq<byte>, x: nat, y: nat)
    requires Rows(f, img, c) && x < f.w && y < f.h
    ensures GreenAt(Horizontal, f, img, x, y) == c[y]
  {
    hide SiteOf, Estimate;
    SitesAround(f.tile, x, y);
    assert Measurement(f, img, x, y) == c[y];
    if SiteOf(f.tile, x, y) in {RedSite, BlueSite} {
      var s := SiteOf(f.tile, x, y);
      assert x + 1 < f.w ==> Measurement(f, img, x + 1, y) == c[y];
      assert x + 2 < f.w ==> Measurement(f, img, x + 2, y) == c[y];
      assert x >= 1 ==> Measurement(f, img, x - 1, y) == c[y];
      assert x >= 2 ==> Measurement(f, img, x - 2, y) == c[y];
      EstimateOfOne(c[y], x + 1 < f.w, x + 2 < f.w, x >= 1, x >= 2);
    }
  }

  lemma GreensOfColumns(f: Frame, img: seq<Row>, c: seq<byte>, x: nat, y: nat)
    requires Columns(f, img, c) && x < f.w && y < f.h
    ensures GreenAt(Vertical, f, img, x, y) == c[x]
  {
    hide SiteOf, Estimate;
    SitesAround(f.tile, x, y);
    assert Measurement(f, img, x, y) == c[x];
    if SiteOf(f.tile, x, y) in {RedSite, BlueSite} {
      var s := SiteOf(f.tile, x, y);
      assert y + 1 < f.h ==> Measurement(f, img, x, y + 1) == c[x];
      assert y + 2 < f.h ==> Measurement(f, img, x, y + 2) == c[x];
      assert y >= 1 ==> Measurement(f, img, x, y - 1) == c[x];
      assert y >= 2 ==> Measurement(f, img, x, y - 2) == c[x];
      EstimateOfOne(c[x], y + 1 < f.h, y + 2 < f.h, y >= 1, y >= 2);
    }
  }

  lemma SourcesAllAround(tile: Tile, x: nat, y: nat, c: Colour)
    ensures match SourceOf(SiteOf(tile, x, y), c)
            case Measured => MeasuredAt(tile, x, y, c)
            case AboveBelow => MeasuredAt(tile, x, y + 1, c) && (y > 0 ==> MeasuredAt(tile, x, y - 1, c))
            case LeftRight => MeasuredAt(tile, x + 1, y, c) && (x > 0 ==> MeasuredAt(tile, x - 1, y, c))
            case Diagonals =>
              && MeasuredAt(tile, x + 1, y + 1, c) && (x > 0 ==> MeasuredAt(tile, x - 1, y + 1, c))
              && (y > 0 ==> MeasuredAt(tile, x + 1, y - 1, c) && (x > 0 ==> MeasuredAt(tile, x - 1, y - 1, c)))
  {
    hide SiteOf;
    SitesAround(tile, x, y);
    SitesAround(tile, x, y + 1);
    if y > 0 {
      SitesAround(tile, x, y - 1);
    }
  }

  predicate MeasuredAt(tile: Tile, x: nat, y: nat, c: Colour) {
    SourceOf(SiteOf(tile, x, y), c) == Measured
  }

  /** Where no measured colour differs from green, every pixel is grey. */
  ghost predicate Level(d: Direction, f: Frame, img: seq<Row>)
    requires f.Is(img)
  {
    forall x: nat, y: nat :: x < f.w && y < f.h ==> Excess(d, f, img, x, y) == 0
  }

  lemma NoDiff(d: Direction, f: Frame, img: seq<Row>, x: int, y: int, c: Colour, there: bool)
    requires f.Is(img) && Level(d, f, img)
    requires there ==> 0 <= x < f.w && 0 <= y < f.h && MeasuredAt(f.tile, x, y, c)
    ensures Diff(GreenRow(d, f, img, y), x, c, there) == 0
  {
    hide SiteOf, GreenAt, GreenRow, SourceOf;
    if there {
      MeasuredDiff(d, f, img, x, y, c);
    }
  }

  lemma LevelColour(d: Direction, f: Frame, img: seq<Row>, x: nat, y: nat, c: Colour)
    requires f.Valid() && f.Is(img) && x < f.w && y < f.h && Level(d, f, img)
    ensures Get(FullRow(d, f, img, y)[x], c) == GreenAt(d, f, img, x, y)
  {
    hide FullRow, SiteOf, GreenAt, GreenRow, Diff, Excess, Level, SourceOf;
    PixelOfFullRow(d, f, img, x, y);
    GreensMeasured(d, f, img, x, y);
    LevelAround(d, f, img, x, y, c);
  }

  /** The sites that a colour comes from differ from their green by nothing. */
  lemma LevelAround(d: Direction, f: Frame, img: seq<Row>, x: nat, y: nat, c: Colour)
    requires f.Valid() && f.Is(img) && x < f.w && y < f.h && Level(d, f, img)
    ensures var up, down, left, right := y > 0, y < f.h - 1, x > 0, x < f.w - 1;
            var above, row, below := GreenRow(d, f, img, y - 1), GreenRow(d, f, img, y), GreenRow(d, f, img, y + 1);
            match SourceOf(SiteOf(f.tile, x, y), c)
            case Measured => Get(row[x], c) == GreenAt(d, f, img, x, y)
            case AboveBelow => Diff(above, x, c, up) == 0 && Diff(below, x, c, down) == 0
            case LeftRight => Diff(row, x - 1, c, left) == 0 && Diff(row, x + 1, c, right) == 0
            case Diagonals =>
              && Diff(above, x - 1, c, left && up) == 0 && Diff(below, x - 1, c, left && down) == 0
              && Diff(above, x + 1, c, right && up) == 0 && Diff(below, x + 1, c, right && down) == 0
  {
    hide FullRow, SiteOf, GreenAt, GreenRow, Diff, Excess, Level, MeasuredAt, SourceOf;
    var up, down, left, right := y > 0, y < f.h - 1, x > 0, x < f.w - 1;
    SourcesAllAround(f.tile, x, y, c);
    match SourceOf(SiteOf(f.tile, x, y), c) {
      case Measured => MeasuredIsGreen(d, f, img, x, y, c);
      case AboveBelow =>
        NoDiff(d, f, img, x, y - 1, c, up);
        NoDiff(d, f, img, x, y + 1, c, down);
      case LeftRight =>
        NoDiff(d, f, img, x - 1, y, c, left);
        NoDiff(d, f, img, x + 1, y, c, right);
      case Diagonals =>
        NoDiff(d, f, img, x - 1, y - 1, c, left && up);
        NoDiff(d, f, img, x - 1, y + 1, c, left && down);
        NoDiff(d, f, img, x + 1, y - 1, c, right && up);
        NoDiff(d, f, img, x + 1, y + 1, c, right && down);
    }
  }

  lemma MeasuredIsGreen(d: Direction, f: Frame, img: seq<Row>, x: nat, y: nat, c: Colour)
    requires f.Is(img) && x < f.w && y < f.h && Level(d, f, img) && MeasuredAt(f.tile, x, y, c)
    ensures Get(GreenRow(d, f, img, y)[x], c) == GreenAt(d, f, img, x, y)
  {
    hide SiteOf, GreenAt;
    assert Excess(d, f, img, x, y) == 0;
  }

  /** A picture of rows, interpolated along the rows, and one of columns, interpolated along the columns, come out
      grey. */
  lemma RowsAreGrey(f: Frame, img: seq<Row>, c: seq<byte>, x: nat, y: nat)
    requires Rows(f, img, c) && x < f.w && y < f.h
    ensures FullRow(Horizontal, f, img, y)[x] == Grey(c[y])
  {
    hide FullRow, GreenAt;
    forall u: nat, v: nat | u < f.w && v < f.h ensures Excess(Horizontal, f, img, u, v) == 0 {
      GreensOfRows(f, img, c, u, v);
    }
    GreensOfRows(f, img, c, x, y);
    hide Rows;
    LevelPixel(Horizontal, f, img, x, y, c[y]);
  }

  lemma ColumnsAreGrey(f: Frame, img: seq<Row>, c: seq<byte>, x: nat, y: nat)
    requires Columns(f, img, c) && x < f.w && y < f.h
    ensures FullRow(Vertical, f, img, y)[x] == Grey(c[x])
  {
    hide FullRow, GreenAt;
    forall u: nat, v: nat | u < f.w && v < f.h ensures Excess(Vertical, f, img, u, v) == 0 {
      GreensOfColumns(f, img, c, u, v);
    }
    GreensOfColumns(f, img, c, x, y);
    hide Columns;
    LevelPixel(Vertical, f, img, x, y, c[x]);
  }

  lemma LevelPixel(d: Direction, f: Frame, img: seq<Row>, x: nat, y: nat, v: byte)
    requires f.Valid() && f.Is(img) && x < f.w && y < f.h && Level(d, f, img) && GreenAt(d, f, img, x, y) == v
    ensures FullRow(d, f, img, y)[x] == Grey(v)
  {
    hide FullRow, GreenAt, Level;
    LevelColour(d, f, img, x, y, Red);
    LevelColour(d, f, img, x, y, Blue);
    GreenOfFullRow(d, f, img, x, y);
  }

  lemma GreenOfFullRow(d: Direction, f: Frame, img: seq<Row>, x: nat, y: nat)
    requires f.Valid() && f.Is(img) && x < f.w && y < f.h
    ensures FullRow(d, f, img, y)[x].green == GreenAt(d, f, img, x, y)
  {
    hide GreenAt, ColourAt;
  }

  // ----- Scores and the choice -----

  /** The square of a Euclidean distance, written with the scalar product. */
  lemma DistanceIsEuclidean(p: Pixel, q: Pixel)
    ensures Distance(p, q) == Norm(p) + Norm(q) - 2 * Product(p, q)
    ensures Distance(p, q) == Distance(q, p) && (Distance(p, q) == 0 <==> p == q)
  {
    SquareOfDifference(p.red, q.red);
    SquareOfDifference(p.green, q.green);
    SquareOfDifference(p.blue, q.blue);
  }

  function Product(p: Pixel, q: Pixel): int {
    p.red as int * q.red as int + p.green as int * q.green as int + p.blue as int * q.blue as int
  }

  function Norm(p: Pixel): int {
    Product(p, p)
  }

  lemma SquareOfDifference(a: int, b: int)
    ensures (a - b) * (a - b) == a * a + b * b - 2 * (a * b) >= 0
    ensures (a - b) * (a - b) == (b - a) * (b - a) && ((a - b) * (a - b) == 0 <==> a == b)
  {
  }

  /** Close enough to count: not farther than one of the two neighbours in the row, in the picture interpolated along
      rows, and not farther than one of those above and below, in that interpolated along columns. */
  predicate Close(f: Frame, img: seq<Row>, x: nat, y: nat, distance: nat)
    requires f.Valid() && f.Is(img) && 1 <= x < f.w - 1
  {
    var h, v := FullRow(Horizontal, f, img, y), FullRow(Vertical, f, img, y);
    var above, below := FullRow(Vertical, f, img, y - 1), FullRow(Vertical, f, img, y + 1);
    && (distance <= Distance(h[x], h[x - 1]) || distance <= Distance(h[x], h[x + 1]))
    && (distance <= Distance(v[x], above[x]) || distance <= Distance(v[x], below[x]))
  }

  /** The score counts the close ones of the four neighbours, in the picture of its direction. */
  lemma ScoreCountsClose(d: Direction, f: Frame, img: seq<Row>, x: nat, y: nat)
    requires f.Valid() && f.Is(img) && 1 <= x < f.w - 1 && y > 0
    ensures var row, above, below := FullRow(d, f, img, y), FullRow(d, f, img, y - 1), FullRow(d, f, img, y + 1);
            Score(d, f, img, x, y) ==
            One(Close(f, img, x, y, Distance(row[x], row[x - 1]))) +
            One(Close(f, img, x, y, Distance(row[x], row[x + 1]))) +
            One(Close(f, img, x, y, Distance(row[x], above[x]))) +
            One(Close(f, img, x, y, Distance(row[x], below[x])))
  {
    hide FullRow, Distance;
  }

  /** So one of the two directions always has two points at least. */
  lemma OneScoreIsTwo(f: Frame, img: seq<Row>, x: nat, y: nat)
    requires f.Valid() && f.Is(img) && 1 <= x < f.w - 1 && y > 0
    ensures Score(Horizontal, f, img, x, y) >= 2 || Score(Vertical, f, img, x, y) >= 2
  {
    hide FullRow, Distance;
  }

  /** The better score decides; a tie gives the mean of each colour, rounded down. */
  predicate Decided(scoreH: nat, scoreV: nat, h: Pixel, v: Pixel, p: Pixel) {
    && (scoreH > scoreV ==> p == h)
    && (scoreV > scoreH ==> p == v)
    && (scoreH == scoreV ==>
          IsHalf(p.red, h.red + v.red as int) && IsHalf(p.green, h.green + v.green as int) &&
          IsHalf(p.blue, h.blue + v.blue as int))
  }

  predicate IsHalf(v: int, sum: int) {
    2 * v == sum || 2 * v + 1 == sum
  }

  lemma ChoiceDecides(scoreH: nat, scoreV: nat, h: Pixel, v: Pixel)
    ensures Decided(scoreH, scoreV, h, v, Choose(scoreH, scoreV, h, v))
  {
  }

  /** A picture of rows comes out grey, each row with its value, wherever the rows score better than the columns. */
  lemma RowsStay(f: Frame, img: seq<Row>, c: seq<byte>, x: nat, y: nat, p: Pixel)
    requires Rows(f, img, c) && x < f.w && y < f.h
    requires Decided(Homogeneity(Horizontal, f, img, x, y), Homogeneity(Vertical, f, img, x, y),
                     FullRow(Horizontal, f, img, y)[x], FullRow(Vertical, f, img, y)[x], p)
    ensures Homogeneity(Horizontal, f, img, x, y) > Homogeneity(Vertical, f, img, x, y) ==> p == Grey(c[y])
  {
    hide FullRow, Homogeneity;
    RowsAreGrey(f, img, c, x, y);
  }

  lemma ColumnsStay(f: Frame, img: seq<Row>, c: seq<byte>, x: nat, y: nat, p: Pixel)
    requires Columns(f, img, c) && x < f.w && y < f.h
    requires Decided(Homogeneity(Horizontal, f, img, x, y), Homogeneity(Vertical, f, img, x, y),
                     FullRow(Horizontal, f, img, y)[x], FullRow(Vertical, f, img, y)[x], p)
    ensures Homogeneity(Vertical, f, img, x, y) > Homogeneity(Horizontal, f, img, x, y) ==> p == Grey(c[x])
  {
    hide FullRow, Homogeneity;
    ColumnsAreGrey(f, img, c, x, y);
  }

  /** In a picture of rows, the rows have two points at least wherever there are scores. */
  lemma RowsScoreTwo(f: Frame, img: seq<Row>, c: seq<byte>, x: nat, y: nat)
    requires Rows(f, img, c) && 1 <= x < f.w - 1 && 1 <= y < f.h
    ensures Score(Horizontal, f, img, x, y) >= 2
  {
    hide FullRow, Score, Distance;
    RowsAreGrey(f, img, c, x - 1, y);
    RowsAreGrey(f, img, c, x, y);
    RowsAreGrey(f, img, c, x + 1, y);
    ScoreCountsClose(Horizontal, f, img, x, y);
    DistanceIsEuclidean(Grey(c[y]), Grey(c[y]));
  }

  // ----- An example -----

  const STRIPES := [Stripe(0), Stripe(200), Stripe(0), Stripe(200)]

  function Stripe(v: byte): Row {
    [Grey(v), Grey(v), Grey(v), Grey(v)]
  }

  const SMALL := Frame(4, 4, RGGB)

  /** A row of two alternating pixels. */
  function Twice(p: Pixel, q: Pixel): Row {
    [p, q, p, q]
  }

  lemma FirstGreens()
    ensures GreenRow(Vertical, SMALL, STRIPES, 0) == Twice(Pixel(0, 133, 0), Pixel(0, 0, 0))
  {
  }

  lemma SecondGreens()
    ensures GreenRow(Vertical, SMALL, STRIPES, 1) == Twice(Pixel(200, 200, 200), Pixel(200, 40, 200))
  {
  }

  lemma ThirdGreens()
    ensures GreenRow(Vertical, SMALL, STRIPES, 2) == Twice(Pixel(0, 160, 0), Pixel(0, 0, 0))
  {
  }

  lemma LastGreens()
    ensures GreenRow(Vertical, SMALL, STRIPES, 3) == Twice(Pixel(200, 200, 200), Pixel(200, 66, 200))
  {
  }

  lemma FirstColumns()
    ensures FullRow(Vertical, SMALL, STRIPES, 0) == Twice(Pixel(255, 133, 0), Pixel(160, 0, 0))
  {
    hide GreenRow;
    FirstGreens();
    SecondGreens();
  }

  lemma SecondColumns()
    ensures FullRow(Vertical, SMALL, STRIPES, 1) == Twice(Pixel(255, 200, 54), Pixel(200, 40, 0))
  {
    hide GreenRow, FullRow;
    SecondEvenColumn(0);
    SecondOddColumn(1);
    SecondEvenColumn(2);
    SecondOddColumn(3);
  }

  lemma SecondEvenColumn(x: nat)
    requires x == 0 || x == 2
    ensures FullRow(Vertical, SMALL, STRIPES, 1)[x] == Pixel(255, 200, 54)
  {
    hide GreenRow;
    FirstGreens();
    SecondGreens();
    ThirdGreens();
  }

  lemma SecondOddColumn(x: nat)
    requires x == 1 || x == 3
    ensures FullRow(Vertical, SMALL, STRIPES, 1)[x] == Pixel(200, 40, 0)
  {
    hide GreenRow;
    FirstGreens();
    SecondGreens();
    ThirdGreens();
  }

  lemma ThirdColumns()
    ensures FullRow(Vertical, SMALL, STRIPES, 2) == Twice(Pixel(255, 160, 0), Pixel(147, 0, 0))
  {
    hide GreenRow;
    SecondGreens();
    ThirdGreens();
    LastGreens();
  }

  lemma LastColumns()
    ensures FullRow(Vertical, SMALL, STRIPES, 3) == Twice(Pixel(255, 200, 40), Pixel(200, 66, 0))
  {
    hide GreenRow;
    ThirdGreens();
    LastGreens();
  }

  lemma RowsOfStripes(x: nat, y: nat)
    requires x < 4 && y < 4
    ensures FullRow(Horizontal, SMALL, STRIPES, y)[x] == Grey(if y % 2 == 1 then 200 else 0)
  {
    RowsAreGrey(SMALL, STRIPES, [0, 200, 0, 200], x, y);
  }

  lemma ScoresOfStripes(x: nat, y: nat)
    requires 1 <= x <= 2 && 1 <= y <= 2
    ensures Score(Horizontal, SMALL, STRIPES, x, y) == 2 && Score(Vertical, SMALL, STRIPES, x, y) == 0
  {
    hide FullRow, GreenRow, Score, Distance;
    FirstColumns();
    SecondColumns();
    ThirdColumns();
    LastColumns();
    RowsOfStripes(x, y);
    RowsOfStripes(x - 1, y);
    RowsOfStripes(x + 1, y);
    RowsOfStripes(x, y - 1);
    RowsOfStripes(x, y + 1);
    ScoreCountsClose(Horizontal, SMALL, STRIPES, x, y);
    ScoreCountsClose(Vertical, SMALL, STRIPES, x, y);
    forall p, q ensures Distance(p, q) == 0 <==> p == q {
      DistanceIsEuclidean(p, q);
    }
  }

  /** Rows of 0 and 200 in turn: at the second pixel of the second row, the rows score 8 and the columns 0, so that the
      pixel is white and not what the columns would give. */
  lemma StripesStay(f: Frame, img: seq<Row>, p: Pixel)
    requires f == SMALL && img == STRIPES && p == Demosaiced(f, img, 1, 1)
    ensures Homogeneity(Horizontal, f, img, 1, 1) == 8 && Homogeneity(Vertical, f, img, 1, 1) == 0
    ensures p == Pixel(200, 200, 200) && FullRow(Vertical, f, img, 1)[1] == Pixel(200, 40, 0)
  {
    hide FullRow, Score, Homogeneity, GreenRow;
    SecondColumns();
    RowsOfStripes(1, 1);
    ScoresOfStripes(1, 1);
    ScoresOfStripes(2, 1);
    ScoresOfStripes(1, 2);
    ScoresOfStripes(2, 2);
    forall d ensures Homogeneity(d, f, img, 1, 1) ==
                     Score(d, f, img, 1, 1) + Score(d, f, img, 2, 1) + Score(d, f, img, 1, 2) + Score(d, f, img, 2, 2)
    {
      NineScores(d, f, img, 1, 1);
      NoScores(d, f, img, 0, 0);
      NoScores(d, f, img, 1, 1);
      NoScores(d, f, img, 2, 2);
    }
  }

  lemma NineScores(d: Direction, f: Frame, img: seq<Row>, x: nat, y: nat)
    requires f.Valid() && f.Is(img)
    ensures Homogeneity(d, f, img, x, y) ==
            Score(d, f, img, x - 1, y - 1) + Score(d, f, img, x, y - 1) + Score(d, f, img, x + 1, y - 1) +
            Score(d, f, img, x - 1, y) + Score(d, f, img, x, y) + Score(d, f, img, x + 1, y) +
            Score(d, f, img, x - 1, y + 1) + Score(d, f, img, x, y + 1) + Score(d, f, img, x + 1, y + 1)
  {
    hide Score;
  }

  /** There are no scores in the first row, and in the first column. */
  lemma NoScores(d: Direction, f: Frame, img: seq<Row>, x: nat, y: nat)
    requires f.Valid() && f.Is(img)
    ensures Score(d, f, img, x, 0) == 0 == Score(d, f, img, 0, y)
  {
  }
}
