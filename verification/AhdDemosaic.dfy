/** Adaptive homogeneity-directed demosaicing, stated for whole images: green is interpolated everywhere in one
    direction, then red and blue, then every pixel gets a score, and the better direction is chosen. */
module AhdDemosaic {
  import opened Bytes
  import opened Wrappers

  datatype Pixel = Pixel(red: byte, green: byte, blue: byte)

  const BLACK := Pixel(0, 0, 0)

  type Row = seq<Pixel>

  datatype Colour = Red | Blue

  function Get(p: Pixel, c: Colour): byte {
    if c.Red? then p.red else p.blue
  }

  // ----- The sensor -----

  /** The layouts; the interlaced ones have the same positions. */
  datatype Tile = RGGB | GRBG | BGGR | GBRG

  function Positions(tile: Tile): (p: seq<nat>)
    ensures |p| == 4
  {
    match tile
    case RGGB => [0, 1, 2, 3]
    case GRBG => [1, 0, 3, 2]
    case BGGR => [3, 2, 1, 0]
    case GBRG => [2, 3, 0, 1]
  }

  function Bayer(x: nat, y: nat): nat {
    (if x % 2 == 1 then 0 else 1) + (if y % 2 == 1 then 0 else 2)
  }

  /** What the sensor measures: red, green between reds, green between blues, or blue. */
  datatype Site = RedSite | GreenInRed | GreenInBlue | BlueSite

  function SiteOf(tile: Tile, x: nat, y: nat): Site {
    var bayer, p := Bayer(x, y), Positions(tile);
    if bayer == p[0] then RedSite else if bayer == p[1] then GreenInRed else if bayer == p[2] then GreenInBlue
    else BlueSite
  }

  function Beside(s: Site): Site {
    match s
    case RedSite => GreenInRed
    case GreenInRed => RedSite
    case GreenInBlue => BlueSite
    case BlueSite => GreenInBlue
  }

  function Beyond(s: Site): Site {
    match s
    case RedSite => GreenInBlue
    case GreenInRed => BlueSite
    case GreenInBlue => RedSite
    case BlueSite => GreenInRed
  }

  lemma Neighbours(tile: Tile, x: nat, y: nat)
    ensures SiteOf(tile, x + 1, y) == Beside(SiteOf(tile, x, y))
    ensures SiteOf(tile, x, y + 1) == Beyond(SiteOf(tile, x, y))
  {
  }

  /** Do two pixels at a site agree in green and in what is measured there? */
  predicate Agree(s: Site, p: Pixel, q: Pixel) {
    p.green == q.green && (s == RedSite ==> p.red == q.red) && (s == BlueSite ==> p.blue == q.blue)
  }

  /** Do two pixels at a site agree in what is measured there? */
  predicate SameSample(s: Site, p: Pixel, q: Pixel) {
    match s
    case RedSite => p.red == q.red
    case BlueSite => p.blue == q.blue
    case _ => p.green == q.green
  }

  // ----- Arithmetic -----

  /** C division, which truncates towards zero. */
  function Trunc(n: int, d: int): int
    requires d > 0
  {
    if n < 0 then -(-n / d) else n / d
  }

  function Clamp(v: int): byte {
    if v > 0xff then 0xff else if v < 0 then 0 else v
  }

  function If(condition: bool, v: int): int {
    if condition then v else 0
  }

  // ----- Green -----

  datatype Direction = Horizontal | Vertical

  datatype Frame = Frame(w: nat, h: nat, tile: Tile) {
    predicate Valid() {
      w >= 3 && h >= 3
    }

    predicate Is(img: seq<Row>) {
      |img| == h && forall y :: 0 <= y < h ==> |img[y]| == w
    }
  }

  /** The red or blue that is measured at a site of such a colour. */
  function Sample(s: Site, p: Pixel): byte {
    if s == RedSite then p.red else p.blue
  }

  /** Twice the sample, twice the greens next to it, less the samples behind those, as far as there are any. */
  function Estimate(own: byte, near1: Option<byte>, far1: Option<byte>, near2: Option<byte>, far2: Option<byte>): byte
    requires (far1.Some? ==> near1.Some?) && (far2.Some? ==> near2.Some?)
  {
    var value := 2 * own + 2 * Or0(near1) - Or0(far1) + 2 * Or0(near2) - Or0(far2);
    var div := 2 + 2 * Or1(near1) - Or1(far1) + 2 * Or1(near2) - Or1(far2);
    Clamp(Trunc(value, div))
  }

  function Or0(v: Option<byte>): int {
    if v.Some? then v.value else 0
  }

  function Or1(v: Option<byte>): int {
    if v.Some? then 1 else 0
  }

  function GreenOf(f: Frame, img: seq<Row>, x: int, y: int): Option<byte>
    requires f.Is(img)
  {
    if 0 <= x < f.w && 0 <= y < f.h then Some(img[y][x].green) else None
  }

  function SampleOf(f: Frame, img: seq<Row>, s: Site, x: int, y: int): Option<byte>
    requires f.Is(img)
  {
    if 0 <= x < f.w && 0 <= y < f.h then Some(Sample(s, img[y][x])) else None
  }

  /** The green of a pixel, interpolated in one direction where it is not measured. */
  function GreenAt(d: Direction, f: Frame, img: seq<Row>, x: nat, y: nat): byte
    requires f.Is(img) && x < f.w && y < f.h
  {
    var s := SiteOf(f.tile, x, y);
    if s != RedSite && s != BlueSite then img[y][x].green
    else if d == Horizontal then
      Estimate(Sample(s, img[y][x]), GreenOf(f, img, x + 1, y), SampleOf(f, img, s, x + 2, y),
               GreenOf(f, img, x - 1, y), SampleOf(f, img, s, x - 2, y))
    else
      Estimate(Sample(s, img[y][x]), GreenOf(f, img, x, y + 1), SampleOf(f, img, s, x, y + 2),
               GreenOf(f, img, x, y - 1), SampleOf(f, img, s, x, y - 2))
  }

  function BlackRow(w: nat): (r: Row)
    ensures |r| == w
  {
    seq(w, _ => BLACK)
  }

  /** A row with all greens; black outside the image. */
  function GreenRow(d: Direction, f: Frame, img: seq<Row>, y: int): (r: Row)
    requires f.Is(img)
    ensures |r| == f.w
  {
    if 0 <= y < f.h then seq(f.w, x requires 0 <= x < f.w => img[y][x].(green := GreenAt(d, f, img, x, y)))
    else BlackRow(f.w)
  }

  // ----- Red and blue -----

  /** Where a colour that is not measured at a site is taken from. */
  datatype Source = Measured | Diagonals | AboveBelow | LeftRight

  function SourceOf(s: Site, c: Colour): Source {
    match s
    case RedSite => if c == Red then Measured else Diagonals
    case BlueSite => if c == Blue then Measured else Diagonals
    case GreenInRed => if c == Red then LeftRight else AboveBelow
    case GreenInBlue => if c == Red then AboveBelow else LeftRight
  }

  /** The difference between a colour and green, in a row. */
  function Diff(r: Row, x: int, c: Colour, there: bool): int
    requires there ==> 0 <= x < |r|
  {
    if there then Get(r[x], c) - r[x].green else 0
  }

  /** A colour of a pixel, from its row and the rows above and below it: green plus the mean difference around. */
  function ColourAt(f: Frame, above: Row, row: Row, below: Row, x: nat, y: nat, c: Colour): byte
    requires f.Valid() && |above| == |row| == |below| == f.w && x < f.w && y < f.h
  {
    var up, down, left, right := y > 0, y < f.h - 1, x > 0, x < f.w - 1;
    match SourceOf(SiteOf(f.tile, x, y), c)
    case Measured => Get(row[x], c)
    case Diagonals =>
      var value := Diff(above, x - 1, c, left && up) + Diff(below, x - 1, c, left && down) +
                   Diff(above, x + 1, c, right && up) + Diff(below, x + 1, c, right && down);
      var div := If(left && up, 1) + If(left && down, 1) + If(right && up, 1) + If(right && down, 1);
      Clamp(row[x].green + Trunc(value, div))
    case AboveBelow =>
      Clamp(row[x].green + Trunc(Diff(above, x, c, up) + Diff(below, x, c, down), If(up, 1) + If(down, 1)))
    case LeftRight =>
      Clamp(row[x].green + Trunc(Diff(row, x - 1, c, left) + Diff(row, x + 1, c, right), If(left, 1) + If(right, 1)))
  }

  function Completed(f: Frame, above: Row, row: Row, below: Row, x: nat, y: nat): Pixel
    requires f.Valid() && |above| == |row| == |below| == f.w && x < f.w && y < f.h
  {
    Pixel(ColourAt(f, above, row, below, x, y, Red), row[x].green, ColourAt(f, above, row, below, x, y, Blue))
  }

  /** A row with all colours; black outside the image. */
  function FullRow(d: Direction, f: Frame, img: seq<Row>, y: int): (r: Row)
    requires f.Valid() && f.Is(img)
    ensures |r| == f.w
  {
    if 0 <= y < f.h then
      seq(f.w, x requires 0 <= x < f.w =>
        Completed(f, GreenRow(d, f, img, y - 1), GreenRow(d, f, img, y), GreenRow(d, f, img, y + 1), x, y))
    else BlackRow(f.w)
  }

  /** Do two rows agree, pixel by pixel, in green and in what is measured? */
  ghost predicate RowsAgree(f: Frame, y: nat, a: Row, b: Row) {
    |a| == |b| == f.w && forall x: nat :: x < f.w ==> Agree(SiteOf(f.tile, x, y), a[x], b[x])
  }

  /** A colour is taken only from sites that measure it. */
  lemma SourcesMeasure(tile: Tile, x: nat, y: nat, c: Colour)
    ensures match SourceOf(SiteOf(tile, x, y), c)
            case Measured => true
            case AboveBelow => y > 0 ==> SourceOf(SiteOf(tile, x, y - 1), c) == Measured
            case LeftRight => SourceOf(SiteOf(tile, x + 1, y), c) == Measured &&
              (x > 0 ==> SourceOf(SiteOf(tile, x - 1, y), c) == Measured)
            case Diagonals => y > 0 ==>
                SourceOf(SiteOf(tile, x + 1, y - 1), c) == Measured &&
                (x > 0 ==> SourceOf(SiteOf(tile, x - 1, y - 1), c) == Measured)
  {
    hide SiteOf;
    Neighbours(tile, x, y);
    if x > 0 {
      Neighbours(tile, x - 1, y);
    }
    if y > 0 {
      Neighbours(tile, x, y - 1);
      if x > 0 {
        Neighbours(tile, x - 1, y - 1);
      }
    }
  }

  lemma DiffAgrees(f: Frame, y: nat, a: Row, b: Row, x: int, c: Colour, there: bool)
    requires RowsAgree(f, y, a, b)
    requires there ==> 0 <= x < f.w && SourceOf(SiteOf(f.tile, x, y), c) == Measured
    ensures Diff(a, x, c, there) == Diff(b, x, c, there)
  {
    hide SiteOf;
    if there {
      assert Agree(SiteOf(f.tile, x, y), a[x], b[x]);
    }
  }

  /** So rows that agree give the same. */
  lemma ColourFromMeasured(f: Frame, above: Row, row: Row, below: Row, above': Row, row': Row, x: nat, y: nat,
                           c: Colour)
    requires f.Valid() && |above| == |row| == |below| == |above'| == |row'| == f.w && x < f.w && y < f.h
    requires y > 0 ==> RowsAgree(f, y - 1, above, above')
    requires RowsAgree(f, y, row, row')
    ensures ColourAt(f, above, row, below, x, y, c) == ColourAt(f, above', row', below, x, y, c)
  {
    hide SiteOf, Trunc, Clamp, Diff;
    assert Agree(SiteOf(f.tile, x, y), row[x], row'[x]);
    SourcesMeasure(f.tile, x, y, c);
    match SourceOf(SiteOf(f.tile, x, y), c) {
      case Measured =>
      case AboveBelow => AboveAgrees(f, y, above, above', x, c, y > 0);
      case LeftRight =>
        DiffAgrees(f, y, row, row', x - 1, c, x > 0);
        DiffAgrees(f, y, row, row', x + 1, c, x < f.w - 1);
      case Diagonals =>
        AboveAgrees(f, y, above, above', x - 1, c, x > 0 && y > 0);
        AboveAgrees(f, y, above, above', x + 1, c, x < f.w - 1 && y > 0);
    }
  }

  lemma AboveAgrees(f: Frame, y: nat, a: Row, b: Row, x: int, c: Colour, there: bool)
    requires y > 0 ==> RowsAgree(f, y - 1, a, b)
    requires there ==> y > 0 && 0 <= x < f.w && SourceOf(SiteOf(f.tile, x, y - 1), c) == Measured
    ensures Diff(a, x, c, there) == Diff(b, x, c, there)
  {
    hide SiteOf, RowsAgree, SourceOf;
    if there {
      DiffAgrees(f, y - 1, a, b, x, c, there);
    }
  }

  /** Completing a row changes nothing that is measured. */
  lemma FullAgreesWithGreen(d: Direction, f: Frame, img: seq<Row>, y: nat)
    requires f.Valid() && f.Is(img) && y < f.h
    ensures RowsAgree(f, y, FullRow(d, f, img, y), GreenRow(d, f, img, y))
  {
    hide SiteOf, Trunc, Clamp, GreenAt;
  }

  // ----- Scores -----

  function Distance(p: Pixel, q: Pixel): nat {
    var r, g, b := p.red - q.red, p.green - q.green, p.blue - q.blue;
    SquareNotNegative(r);
    SquareNotNegative(g);
    SquareNotNegative(b);
    r * r + g * g + b * b
  }

  lemma SquareNotNegative(v: int)
    ensures v * v >= 0
  {
  }

  function Max(a: nat, b: nat): nat {
    if a < b then b else a
  }

  function Min(a: nat, b: nat): nat {
    if a > b then b else a
  }

  /** Three rows of an image that has been interpolated in one direction. */
  datatype Band = Band(above: Row, row: Row, below: Row) {
    predicate Is(w: nat) {
      |above| == |row| == |below| == w
    }
  }

  /** The distance that counts as similar: horizontally in one image, vertically in the other, the smaller one. */
  function Epsilon(h: Band, v: Band, w: nat, x: nat): nat
    requires h.Is(w) && v.Is(w) && 1 <= x < w - 1
  {
    Min(Max(Distance(h.row[x], h.row[x - 1]), Distance(h.row[x], h.row[x + 1])),
        Max(Distance(v.row[x], v.above[x]), Distance(v.row[x], v.below[x])))
  }

  function One(condition: bool): nat {
    if condition then 1 else 0
  }

  /** How many of the four neighbours are similar. */
  function Similar(b: Band, w: nat, x: nat, epsilon: nat): (n: nat)
    requires b.Is(w) && 1 <= x < w - 1
    ensures n <= 4
  {
    One(Distance(b.row[x], b.row[x - 1]) <= epsilon) + One(Distance(b.row[x], b.row[x + 1]) <= epsilon) +
    One(Distance(b.row[x], b.above[x]) <= epsilon) + One(Distance(b.row[x], b.below[x]) <= epsilon)
  }

  function BandOf(d: Direction, f: Frame, img: seq<Row>, y: int): (b: Band)
    requires f.Valid() && f.Is(img)
    ensures b.Is(f.w)
  {
    Band(FullRow(d, f, img, y - 1), FullRow(d, f, img, y), FullRow(d, f, img, y + 1))
  }

  /** The score of a pixel; none in row 0 and above it, and none in the first and the last column. Below the last row,
      the score is that of a black pixel. */
  function Score(d: Direction, f: Frame, img: seq<Row>, x: int, y: int): (n: nat)
    requires f.Valid() && f.Is(img)
    ensures n <= 4
  {
    if y <= 0 || x < 1 || x >= f.w - 1 then 0
    else
      var h, v := BandOf(Horizontal, f, img, y), BandOf(Vertical, f, img, y);
      Similar(if d == Horizontal then h else v, f.w, x, Epsilon(h, v, f.w, x))
  }

  function ColumnScore(d: Direction, f: Frame, img: seq<Row>, x: int, y: int): (n: nat)
    requires f.Valid() && f.Is(img)
    ensures n <= 12
  {
    Score(d, f, img, x, y - 1) + Score(d, f, img, x, y) + Score(d, f, img, x, y + 1)
  }

  /** The score of a pixel and its eight neighbours. */
  function Homogeneity(d: Direction, f: Frame, img: seq<Row>, x: int, y: int): (n: nat)
    requires f.Valid() && f.Is(img)
    ensures n <= 36
  {
    ColumnScore(d, f, img, x - 1, y) + ColumnScore(d, f, img, x, y) + ColumnScore(d, f, img, x + 1, y)
  }

  // ----- The choice -----

  function Mean(p: Pixel, q: Pixel): Pixel {
    Pixel((p.red + q.red) / 2, (p.green + q.green) / 2, (p.blue + q.blue) / 2)
  }

  function Choose(scoreH: nat, scoreV: nat, h: Pixel, v: Pixel): Pixel {
    if scoreH > scoreV then h else if scoreH < scoreV then v else Mean(v, h)
  }

  /** A pixel of the demosaiced image. */
  function Demosaiced(f: Frame, img: seq<Row>, x: nat, y: nat): Pixel
    requires f.Valid() && f.Is(img) && x < f.w && y < f.h
  {
    Choose(Homogeneity(Horizontal, f, img, x, y), Homogeneity(Vertical, f, img, x, y),
           FullRow(Horizontal, f, img, y)[x], FullRow(Vertical, f, img, y)[x])
  }

  /** Whatever the scores are, what was measured stays as it was. */
  lemma SampleKept(f: Frame, img: seq<Row>, x: nat, y: nat, scoreH: nat, scoreV: nat)
    requires f.Valid() && f.Is(img) && x < f.w && y < f.h
    ensures SameSample(SiteOf(f.tile, x, y), img[y][x],
                       Choose(scoreH, scoreV, FullRow(Horizontal, f, img, y)[x], FullRow(Vertical, f, img, y)[x]))
  {
    hide SiteOf, Trunc, Clamp, Estimate;
    SampleInRow(Horizontal, f, img, x, y);
    SampleInRow(Vertical, f, img, x, y);
    SampleOfChoice(SiteOf(f.tile, x, y), img[y][x], scoreH, scoreV, FullRow(Horizontal, f, img, y)[x],
                   FullRow(Vertical, f, img, y)[x]);
  }

  lemma SampleOfChoice(s: Site, p: Pixel, scoreH: nat, scoreV: nat, h: Pixel, v: Pixel)
    requires SameSample(s, p, h) && SameSample(s, p, v)
    ensures SameSample(s, p, Choose(scoreH, scoreV, h, v))
  {
  }

  lemma SampleInRow(d: Direction, f: Frame, img: seq<Row>, x: nat, y: nat)
    requires f.Valid() && f.Is(img) && x < f.w && y < f.h
    ensures SameSample(SiteOf(f.tile, x, y), img[y][x], FullRow(d, f, img, y)[x])
  {
    hide SiteOf, Trunc, Clamp, Estimate;
  }
}
