/** The demosaicing as it is done: in place, with two sliding windows of six rows, one for each direction. A window is
    an array of rows, so that moving it by one row moves its entries. */
module AhdWindow {
  import opened Bytes
  import opened AhdDemosaic
  import opened AhdLaws

  const WINDOW_ROWS: nat := 6

  /** Greens depend on five rows only. */
  lemma GreenLocal(d: Direction, f: Frame, img: seq<Row>, img': seq<Row>, x: nat, y: nat)
    requires f.Is(img) && f.Is(img') && x < f.w && y < f.h
    requires forall r :: 0 <= r < f.h && y - 2 <= r <= y + 2 ==> img[r] == img'[r]
    ensures GreenAt(d, f, img, x, y) == GreenAt(d, f, img', x, y)
  {
    hide Estimate, SiteOf;
  }

  ghost predicate IsWindow(win: array<Row>, f: Frame)
    reads win
  {
    win.Length == WINDOW_ROWS && forall k :: 0 <= k < WINDOW_ROWS ==> |win[k]| == f.w
  }

  /** Are these the rows of the image, from row `y` on? Earlier ones may have been overwritten. */
  ghost predicate Intact(image: array<Row>, f: Frame, img: seq<Row>, y: nat)
    reads image
  {
    f.Is(image[..]) && f.Is(img) && forall r :: y <= r < f.h ==> image[r] == img[r]
  }

  /** A row that has been replaced up to column `x`. */
  function Mixed(done: Row, was: Row, x: nat): (r: Row)
    requires x <= |done| == |was|
    ensures |r| == |was|
    ensures x == 0 ==> r == was
    ensures x == |was| ==> r == done
  {
    done[..x] + was[x..]
  }

  lemma MixedNext(done: Row, was: Row, x: nat)
    requires x < |done| == |was|
    ensures Mixed(done, was, x)[x] == was[x]
    ensures Mixed(done, was, x)[x := done[x]] == Mixed(done, was, x + 1)
  {
  }

  lemma GreenRowAt(d: Direction, f: Frame, img: seq<Row>, x: nat, y: nat)
    requires f.Is(img) && x < f.w && y < f.h
    ensures GreenRow(d, f, img, y)[x] == img[y][x].(green := GreenAt(d, f, img, x, y))
  {
  }

  /** The missing greens of row `y`, which is row `k` of both windows. */
  method DoGreenRow(image: array<Row>, winH: array<Row>, winV: array<Row>, k: nat, f: Frame, y: nat,
                    ghost img: seq<Row>)
    requires f.Valid() && IsWindow(winH, f) && IsWindow(winV, f) && winH != winV && image != winH && image != winV
    requires k < WINDOW_ROWS && y < f.h && Intact(image, f, img, if y < 2 then 0 else y - 2)
    requires winH[k] == img[y] && winV[k] == img[y]
    modifies winH, winV
    ensures winH[..] == old(winH[..])[k := GreenRow(Horizontal, f, img, y)]
    ensures winV[..] == old(winV[..])[k := GreenRow(Vertical, f, img, y)]
  {
    hide GreenAt, GreenRow, Mixed;
    ghost var h, v := GreenRow(Horizontal, f, img, y), GreenRow(Vertical, f, img, y);
    for x := 0 to f.w
      invariant winH[..] == old(winH[..])[k := Mixed(h, img[y], x)]
      invariant winV[..] == old(winV[..])[k := Mixed(v, img[y], x)]
    {
      GreenLocal(Horizontal, f, image[..], img, x, y);
      GreenLocal(Vertical, f, image[..], img, x, y);
      GreenRowAt(Horizontal, f, img, x, y);
      GreenRowAt(Vertical, f, img, x, y);
      MixedNext(h, img[y], x);
      MixedNext(v, img[y], x);
      assert winH[k] == Mixed(h, img[y], x) && winV[k] == Mixed(v, img[y], x);
      winH[k] := winH[k][x := winH[k][x].(green := GreenAt(Horizontal, f, image[..], x, y))];
      winV[k] := winV[k][x := winV[k][x].(green := GreenAt(Vertical, f, image[..], x, y))];
    }
  }

  lemma FullRowAt(d: Direction, f: Frame, img: seq<Row>, x: nat, y: nat)
    requires f.Valid() && f.Is(img) && x < f.w && y < f.h
    ensures FullRow(d, f, img, y)[x] ==
            Completed(f, GreenRow(d, f, img, y - 1), GreenRow(d, f, img, y), GreenRow(d, f, img, y + 1), x, y)
  {
    hide Completed, GreenRow;
  }

  lemma MixedAgrees(f: Frame, y: nat, done: Row, was: Row, x: nat)
    requires RowsAgree(f, y, done, was) && x <= f.w
    ensures RowsAgree(f, y, Mixed(done, was, x), was)
  {
    hide SiteOf;
    forall i: nat | i < f.w ensures Agree(SiteOf(f.tile, i, y), Mixed(done, was, x)[i], was[i]) {
      assert Agree(SiteOf(f.tile, i, y), done[i], was[i]);
    }
  }

  /** Below the last row there is nothing that counts. */
  lemma BelowUnused(f: Frame, above: Row, row: Row, below: Row, below': Row, x: nat, y: nat)
    requires f.Valid() && |above| == |row| == |below| == |below'| == f.w && x < f.w && y < f.h
    requires y < f.h - 1 ==> below == below'
    ensures Completed(f, above, row, below, x, y) == Completed(f, above, row, below', x, y)
  {
    hide SiteOf, Trunc, Clamp;
  }

  /** A pixel of a row under construction becomes the one of the whole image. */
  lemma CompletedInWindow(d: Direction, f: Frame, img: seq<Row>, above: Row, row: Row, below: Row, x: nat, y: nat)
    requires f.Valid() && f.Is(img) && |above| == |row| == |below| == f.w && x < f.w && y < f.h
    requires y > 0 ==> RowsAgree(f, y - 1, above, GreenRow(d, f, img, y - 1))
    requires RowsAgree(f, y, row, GreenRow(d, f, img, y))
    requires y < f.h - 1 ==> below == GreenRow(d, f, img, y + 1)
    ensures Completed(f, above, row, below, x, y) == FullRow(d, f, img, y)[x]
  {
    hide ColourAt, GreenRow, SiteOf;
    FullRowAt(d, f, img, x, y);
    BelowUnused(f, above, row, below, GreenRow(d, f, img, y + 1), x, y);
    var below' := GreenRow(d, f, img, y + 1);
    ColourFromMeasured(f, above, row, below', GreenRow(d, f, img, y - 1), GreenRow(d, f, img, y), x, y, Red);
    ColourFromMeasured(f, above, row, below', GreenRow(d, f, img, y - 1), GreenRow(d, f, img, y), x, y, Blue);
    assert Agree(SiteOf(f.tile, x, y), row[x], GreenRow(d, f, img, y)[x]);
  }

  /** The missing reds and blues of row `y`, which is row `k` of a window. The row above it is complete already. */
  method DoColourRow(win: array<Row>, k: nat, f: Frame, y: nat, ghost d: Direction, ghost img: seq<Row>)
    requires f.Valid() && f.Is(img) && IsWindow(win, f) && 0 < k < WINDOW_ROWS - 1 && y < f.h
    requires y > 0 ==> RowsAgree(f, y - 1, win[k - 1], GreenRow(d, f, img, y - 1))
    requires win[k] == GreenRow(d, f, img, y)
    requires y < f.h - 1 ==> win[k + 1] == GreenRow(d, f, img, y + 1)
    modifies win
    ensures win[..] == old(win[..])[k := FullRow(d, f, img, y)]
  {
    hide Completed, GreenRow, FullRow, Mixed, SiteOf, RowsAgree;
    ghost var full, green := FullRow(d, f, img, y), GreenRow(d, f, img, y);
    FullAgreesWithGreen(d, f, img, y);
    for x := 0 to f.w
      invariant win[..] == old(win[..])[k := Mixed(full, green, x)]
    {
      MixedNext(full, green, x);
      MixedAgrees(f, y, full, green, x);
      assert win[k] == Mixed(full, green, x) && win[k - 1] == old(win[k - 1]) && win[k + 1] == old(win[k + 1]);
      CompletedInWindow(d, f, img, win[k - 1], win[k], win[k + 1], x, y);
      win[k] := win[k][x := Completed(f, win[k - 1], win[k], win[k + 1], x, y)];
    }
  }

  // ----- Scores -----

  /** Is the byte behind `at` the score of column `x`? */
  ghost predicate ScoreIs(hom: seq<nat>, at: nat, d: Direction, f: Frame, img: seq<Row>, x: nat, y: int)
    requires f.Valid() && f.Is(img)
  {
    at + x < |hom| && hom[at + x] == Score(d, f, img, x, y)
  }

  /** Are the bytes behind `at` the scores of row `y`, in columns `lo` to `hi`? */
  ghost predicate HoldsRow(hom: seq<nat>, at: nat, d: Direction, f: Frame, img: seq<Row>, y: int, lo: nat, hi: nat)
    requires f.Valid() && f.Is(img)
  {
    forall x: nat :: lo <= x < hi ==> ScoreIs(hom, at, d, f, img, x, y)
  }

  /** Do the scores begin with those of rows `y - 1` and `y`? In the third row, the first and the last column have
      never been written. */
  ghost predicate HoldsScores(hom: seq<nat>, d: Direction, f: Frame, img: seq<Row>, y: nat)
    requires f.Valid() && f.Is(img)
  {
    && |hom| == 3 * f.w && hom[2 * f.w] == 0 && hom[3 * f.w - 1] == 0
    && HoldsRow(hom, 0, d, f, img, y - 1, 0, f.w) && HoldsRow(hom, f.w, d, f, img, y, 0, f.w)
  }

  lemma ScoreWritten(hom: seq<nat>, d: Direction, f: Frame, img: seq<Row>, y: nat, j: nat, score: nat)
    requires f.Valid() && f.Is(img) && HoldsScores(hom, d, f, img, y)
    requires 1 <= j < f.w - 1 && HoldsRow(hom, 2 * f.w, d, f, img, y + 1, 1, j) && score == Score(d, f, img, j, y + 1)
    ensures var next := hom[2 * f.w + j := score];
            HoldsScores(next, d, f, img, y) && HoldsRow(next, 2 * f.w, d, f, img, y + 1, 1, j + 1)
  {
    hide Score;
    var next, at, above, below := hom[2 * f.w + j := score], 2 * f.w, y - 1, y + 1;
    forall x: nat | x < f.w ensures ScoreIs(next, 0, d, f, img, x, above) {
      assert ScoreIs(hom, 0, d, f, img, x, above);
    }
    forall x: nat | x < f.w ensures ScoreIs(next, f.w, d, f, img, x, y) {
      assert ScoreIs(hom, f.w, d, f, img, x, y);
    }
    forall x: nat | 1 <= x < j + 1 ensures ScoreIs(next, at, d, f, img, x, below) {
      if x < j {
        assert ScoreIs(hom, at, d, f, img, x, below);
      }
    }
  }

  /** Scores the pixels of row 3 of the windows, which is row `y + 1` of the image, with rows 2 and 4. */
  method GetDiffs(homH: array<nat>, homV: array<nat>, winH: array<Row>, winV: array<Row>, f: Frame, y: nat,
                  ghost img: seq<Row>)
    requires f.Valid() && f.Is(img) && IsWindow(winH, f) && IsWindow(winV, f) && homH != homV
    requires HoldsScores(homH[..], Horizontal, f, img, y) && HoldsScores(homV[..], Vertical, f, img, y)
    requires Band(winH[2], winH[3], winH[4]) == BandOf(Horizontal, f, img, y + 1)
    requires Band(winV[2], winV[3], winV[4]) == BandOf(Vertical, f, img, y + 1)
    modifies homH, homV
    ensures HoldsScores(homH[..], Horizontal, f, img, y) &&
            HoldsRow(homH[..], 2 * f.w, Horizontal, f, img, y + 1, 0, f.w)
    ensures HoldsScores(homV[..], Vertical, f, img, y) && HoldsRow(homV[..], 2 * f.w, Vertical, f, img, y + 1, 0, f.w)
  {
    hide Similar, Epsilon, BandOf, FullRow, Score, HoldsRow;
    var h, v := Band(winH[2], winH[3], winH[4]), Band(winV[2], winV[3], winV[4]);
    var at := 2 * f.w;
    NoScores(homH[..], at, Horizontal, f, img, y + 1);
    NoScores(homV[..], at, Vertical, f, img, y + 1);
    for j := 1 to f.w - 1
      invariant HoldsScores(homH[..], Horizontal, f, img, y) && HoldsRow(homH[..], at, Horizontal, f, img, y + 1, 1, j)
      invariant HoldsScores(homV[..], Vertical, f, img, y) && HoldsRow(homV[..], at, Vertical, f, img, y + 1, 1, j)
    {
      ScoreInside(f, img, j, y + 1);
      var epsilon := Epsilon(h, v, f.w, j);
      ScoreWritten(homH[..], Horizontal, f, img, y, j, Similar(h, f.w, j, epsilon));
      ScoreWritten(homV[..], Vertical, f, img, y, j, Similar(v, f.w, j, epsilon));
      ghost var wasH, wasV := homH[..], homV[..];
      homH[at + j] := Similar(h, f.w, j, epsilon);
      homV[at + j] := Similar(v, f.w, j, epsilon);
      assert homH[..] == wasH[at + j := Similar(h, f.w, j, epsilon)];
      assert homV[..] == wasV[at + j := Similar(v, f.w, j, epsilon)];
    }
    EdgesHeld(homH[..], Horizontal, f, img, y);
    EdgesHeld(homV[..], Vertical, f, img, y);
  }

  lemma NoScores(hom: seq<nat>, at: nat, d: Direction, f: Frame, img: seq<Row>, y: nat)
    requires f.Valid() && f.Is(img)
    ensures HoldsRow(hom, at, d, f, img, y, 1, 1)
  {
  }

  lemma EdgesHeld(hom: seq<nat>, d: Direction, f: Frame, img: seq<Row>, y: nat)
    requires f.Valid() && f.Is(img) && HoldsScores(hom, d, f, img, y) &&
             HoldsRow(hom, 2 * f.w, d, f, img, y + 1, 1, f.w - 1)
    ensures HoldsRow(hom, 2 * f.w, d, f, img, y + 1, 0, f.w)
  {
    hide Score;
    var at, below := 2 * f.w, y + 1;
    forall x: nat | x < f.w ensures ScoreIs(hom, at, d, f, img, x, below) {
      if 1 <= x < f.w - 1 {
        assert ScoreIs(hom, at, d, f, img, x, below);
      } else {
        ScoreAtEdge(d, f, img, x, below);
      }
    }
  }

  lemma ScoreAtEdge(d: Direction, f: Frame, img: seq<Row>, x: nat, y: nat)
    requires f.Valid() && f.Is(img) && (x == 0 || x == f.w - 1)
    ensures Score(d, f, img, x, y) == 0
  {
  }

  lemma ScoreInside(f: Frame, img: seq<Row>, x: nat, y: nat)
    requires f.Valid() && f.Is(img) && 1 <= x < f.w - 1 && y > 0
    ensures var h, v := BandOf(Horizontal, f, img, y), BandOf(Vertical, f, img, y);
            && Score(Horizontal, f, img, x, y) == Similar(h, f.w, x, Epsilon(h, v, f.w, x))
            && Score(Vertical, f, img, x, y) == Similar(v, f.w, x, Epsilon(h, v, f.w, x))
  {
    hide Similar, Epsilon, BandOf;
  }

  /** A byte of the scores; outside them, any byte. */
  method ReadScore(hom: array<nat>, j: int) returns (v: nat)
    ensures if 0 <= j < hom.Length then v == hom[j] else v < 256
  {
    if 0 <= j < hom.Length {
      v := hom[j];
    } else {
      v := *;
      v := v % 256;
    }
  }

  /** The sum of nine scores, in a byte. In the first and the last column, one of them is a byte that lies outside. */
  method SumScores(hom: array<nat>, f: Frame, x: nat, ghost d: Direction, ghost img: seq<Row>, ghost y: nat)
      returns (sum: nat, ghost outside: nat)
    requires f.Valid() && f.Is(img) && x < f.w && HoldsScores(hom[..], d, f, img, y)
    requires HoldsRow(hom[..], 2 * f.w, d, f, img, y + 1, 0, f.w)
    ensures outside < 256 && (1 <= x < f.w - 1 ==> outside == 0)
    ensures 1 <= x < f.w - 1 ==> sum == Homogeneity(d, f, img, x, y)
    ensures sum == (Homogeneity(d, f, img, x, y) + outside) % 256
  {
    hide Score, ColumnScore, HoldsRow, HoldsScores, Homogeneity, SumBefore;
    sum, outside := 0, 0;
    SumOfColumns(d, f, img, x, y);
    for i := -1 to 2
      invariant outside < 256 && (i == -1 || (x > 0 && i < 2) || 1 <= x < f.w - 1 ==> outside == 0)
      invariant sum == (SumBefore(d, f, img, x, y, i) + outside) % 256
    {
      var read;
      ghost var more;
      read, more := ReadColumn(hom, f, x + i, d, img, y);
      SumInByte(SumBefore(d, f, img, x, y, i), ColumnScore(d, f, img, x + i, y), read, sum, outside, more);
      NextColumn(d, f, img, x, y, i);
      sum, outside := (sum + read) % 256, outside + more;
    }
  }

  /** The three bytes of a column. Outside the image, two of them are zero. */
  method ReadColumn(hom: array<nat>, f: Frame, x: int, ghost d: Direction, ghost img: seq<Row>, ghost y: nat)
      returns (read: nat, ghost outside: nat)
    requires f.Valid() && f.Is(img) && -1 <= x <= f.w && HoldsScores(hom[..], d, f, img, y)
    requires HoldsRow(hom[..], 2 * f.w, d, f, img, y + 1, 0, f.w)
    ensures read == ColumnScore(d, f, img, x, y) + outside
    ensures outside < 256 && (0 <= x < f.w ==> outside == 0)
  {
    hide Score, ColumnScore, HoldsRow, HoldsScores;
    var a := ReadScore(hom, x);
    var b := ReadScore(hom, x + f.w);
    var c := ReadScore(hom, x + 2 * f.w);
    outside := 0;
    if 0 <= x < f.w {
      ColumnHeld(hom[..], d, f, img, x, y);
    } else {
      ColumnOutside(hom[..], d, f, img, x, y);
      outside := if x < 0 then a else c;
    }
    return a + b + c, outside;
  }

  /** Of the three bytes that are read for a column outside, two are scores of the opposite edge. */
  lemma ColumnOutside(hom: seq<nat>, d: Direction, f: Frame, img: seq<Row>, x: int, y: nat)
    requires f.Valid() && f.Is(img) && HoldsScores(hom, d, f, img, y) &&
             HoldsRow(hom, 2 * f.w, d, f, img, y + 1, 0, f.w)
    requires x == -1 || x == f.w
    ensures |hom| == 3 * f.w && ColumnScore(d, f, img, x, y) == 0
    ensures x == -1 ==> hom[x + f.w] == 0 && hom[x + 2 * f.w] == 0
    ensures x == f.w ==> hom[x] == 0 && hom[x + f.w] == 0
  {
    if x == -1 {
      assert ScoreIs(hom, 0, d, f, img, f.w - 1, y - 1) && ScoreIs(hom, f.w, d, f, img, f.w - 1, y);
    } else {
      assert ScoreIs(hom, f.w, d, f, img, 0, y) && ScoreIs(hom, 2 * f.w, d, f, img, 0, y + 1);
    }
  }

  lemma SumInByte(before: nat, column: nat, read: nat, sum: nat, outside: nat, more: nat)
    requires read == column + more && sum == (before + outside) % 256
    ensures (sum + read) % 256 == (before + column + (outside + more)) % 256
  {
  }

  lemma SumOfColumns(d: Direction, f: Frame, img: seq<Row>, x: nat, y: nat)
    requires f.Valid() && f.Is(img)
    ensures SumBefore(d, f, img, x, y, -1) == 0 && SumBefore(d, f, img, x, y, 2) == Homogeneity(d, f, img, x, y)
  {
    hide ColumnScore;
  }

  lemma NextColumn(d: Direction, f: Frame, img: seq<Row>, x: nat, y: nat, i: int)
    requires f.Valid() && f.Is(img) && -1 <= i < 2
    ensures SumBefore(d, f, img, x, y, i + 1) == SumBefore(d, f, img, x, y, i) + ColumnScore(d, f, img, x + i, y)
  {
    hide ColumnScore;
  }

  /** The scores of the columns from the one on the left, up to column `i` relative to `x`. */
  function SumBefore(d: Direction, f: Frame, img: seq<Row>, x: nat, y: nat, i: int): nat
    requires f.Valid() && f.Is(img)
  {
    (if i > -1 then ColumnScore(d, f, img, x - 1, y) else 0) +
    (if i > 0 then ColumnScore(d, f, img, x, y) else 0) +
    (if i > 1 then ColumnScore(d, f, img, x + 1, y) else 0)
  }

  lemma ColumnHeld(hom: seq<nat>, d: Direction, f: Frame, img: seq<Row>, x: nat, y: nat)
    requires f.Valid() && f.Is(img) && x < f.w && HoldsScores(hom, d, f, img, y) &&
             HoldsRow(hom, 2 * f.w, d, f, img, y + 1, 0, f.w)
    ensures |hom| == 3 * f.w && hom[x] + hom[x + f.w] + hom[x + 2 * f.w] == ColumnScore(d, f, img, x, y)
  {
    hide Score;
    assert ScoreIs(hom, 0, d, f, img, x, y - 1) && ScoreIs(hom, f.w, d, f, img, x, y) &&
           ScoreIs(hom, 2 * f.w, d, f, img, x, y + 1);
  }

  /** Moves the scores up by one row. */
  method MoveScores(hom: array<nat>, f: Frame, ghost d: Direction, ghost img: seq<Row>, ghost y: nat)
    requires f.Valid() && f.Is(img) && HoldsScores(hom[..], d, f, img, y) &&
             HoldsRow(hom[..], 2 * f.w, d, f, img, y + 1, 0, f.w)
    modifies hom
    ensures HoldsScores(hom[..], d, f, img, y + 1)
  {
    ScoresMoved(hom[..], d, f, img, y);
    ghost var was := hom[..];
    forall x | 0 <= x < 2 * f.w {
      hom[x] := hom[f.w + x];
    }
    assert hom[..] == was[f.w..] + was[2 * f.w..];
  }

  lemma ScoresMoved(hom: seq<nat>, d: Direction, f: Frame, img: seq<Row>, y: nat)
    requires f.Valid() && f.Is(img) && HoldsScores(hom, d, f, img, y) &&
             HoldsRow(hom, 2 * f.w, d, f, img, y + 1, 0, f.w)
    ensures HoldsScores(hom[f.w..] + hom[2 * f.w..], d, f, img, y + 1)
  {
    hide Score;
    var next, at, below := hom[f.w..] + hom[2 * f.w..], 2 * f.w, y + 1;
    forall x: nat | x < f.w ensures ScoreIs(next, 0, d, f, img, x, y) {
      assert ScoreIs(hom, f.w, d, f, img, x, y);
    }
    forall x: nat | x < f.w ensures ScoreIs(next, f.w, d, f, img, x, below) {
      assert ScoreIs(hom, at, d, f, img, x, below);
    }
  }

  /** Moves a window down the image by one row; its last row stays. */
  method MoveWindow(win: array<Row>, f: Frame)
    requires IsWindow(win, f)
    modifies win
    ensures win[..] == Moved(old(win[..]))
    ensures win[0] == old(win[1]) && win[1] == old(win[2]) && win[2] == old(win[3]) && win[3] == old(win[4])
    ensures win[4] == win[5] == old(win[5])
  {
    forall k | 0 <= k < WINDOW_ROWS - 1 {
      win[k] := win[k + 1];
    }
  }

  function Moved(rows: seq<Row>): (r: seq<Row>)
    requires |rows| == WINDOW_ROWS
    ensures |r| == WINDOW_ROWS
  {
    rows[1..] + [rows[5]]
  }

  // ----- The whole image -----

  /** Does the window hold four complete rows of the image from row `y - 2` on, and a fifth with its greens? */
  ghost predicate Holds(win: array<Row>, d: Direction, f: Frame, img: seq<Row>, y: nat)
    requires f.Valid() && f.Is(img)
    reads win
  {
    && IsWindow(win, f)
    && win[0] == FullRow(d, f, img, y - 2) && win[1] == FullRow(d, f, img, y - 1)
    && win[2] == FullRow(d, f, img, y) && win[3] == FullRow(d, f, img, y + 1)
    && win[4] == GreenRow(d, f, img, y + 2)
  }

  /** Row `y` of the result: as specified in the inner columns; in the first and the last one, of either direction or in
      between; and with every sample as it was measured. */
  ghost predicate RowDone(f: Frame, img: seq<Row>, y: nat, row: Row)
    requires f.Valid() && f.Is(img) && y < f.h
  {
    |row| == f.w && forall x: nat :: x < f.w ==> PixelDone(f, img, x, y, row[x])
  }

  /** Is the pixel chosen by its scores plus these bytes from outside, as sums in a byte? */
  ghost predicate ChosenWith(f: Frame, img: seq<Row>, x: nat, y: nat, p: Pixel, a: nat, b: nat)
    requires f.Valid() && f.Is(img) && x < f.w && y < f.h
  {
    && a < 256 && b < 256 && (1 <= x < f.w - 1 ==> a == b == 0)
    && Decided((Homogeneity(Horizontal, f, img, x, y) + a) % 256, (Homogeneity(Vertical, f, img, x, y) + b) % 256,
               FullRow(Horizontal, f, img, y)[x], FullRow(Vertical, f, img, y)[x], p)
  }

  ghost predicate PixelDone(f: Frame, img: seq<Row>, x: nat, y: nat, p: Pixel)
    requires f.Valid() && f.Is(img) && x < f.w && y < f.h
  {
    && (1 <= x < f.w - 1 ==> p == Demosaiced(f, img, x, y))
    && (exists a: nat, b: nat :: ChosenWith(f, img, x, y, p, a, b))
    && SameSample(SiteOf(f.tile, x, y), img[y][x], p)
  }

  /** The choice for row `y`, which is row 2 of the windows. */
  method ChooseRow(image: array<Row>, winH: array<Row>, winV: array<Row>, homH: array<nat>, homV: array<nat>,
                   f: Frame, y: nat, ghost img: seq<Row>)
    requires f.Valid() && f.Is(img) && y < f.h && Intact(image, f, img, y) && IsWindow(winH, f) && IsWindow(winV, f)
    requires image != winH && image != winV
    requires winH[2] == FullRow(Horizontal, f, img, y) && winV[2] == FullRow(Vertical, f, img, y)
    requires HoldsScores(homH[..], Horizontal, f, img, y) &&
             HoldsRow(homH[..], 2 * f.w, Horizontal, f, img, y + 1, 0, f.w)
    requires HoldsScores(homV[..], Vertical, f, img, y) && HoldsRow(homV[..], 2 * f.w, Vertical, f, img, y + 1, 0, f.w)
    modifies image
    ensures |image[y]| == f.w && RowDone(f, img, y, image[y])
    ensures image[..] == old(image[..])[y := image[y]]
  {
    hide FullRow, HoldsScores, HoldsRow, Homogeneity, PixelDone, Choose;
    for x := 0 to f.w
      invariant |image[y]| == f.w && image[..] == old(image[..])[y := image[y]]
      invariant forall i: nat :: i < x ==> PixelDone(f, img, i, y, image[y][i])
    {
      ghost var a, b;
      var scoreH, scoreV;
      scoreH, a := SumScores(homH, f, x, Horizontal, img, y);
      scoreV, b := SumScores(homV, f, x, Vertical, img, y);
      ChosenIsDone(f, img, x, y, scoreH, scoreV, a, b);
      image[y] := image[y][x := Choose(scoreH, scoreV, winH[2][x], winV[2][x])];
    }
  }

  lemma ChosenIsDone(f: Frame, img: seq<Row>, x: nat, y: nat, scoreH: nat, scoreV: nat, a: nat, b: nat)
    requires f.Valid() && f.Is(img) && x < f.w && y < f.h
    requires a < 256 && b < 256 && (1 <= x < f.w - 1 ==> a == b == 0)
    requires scoreH == (Homogeneity(Horizontal, f, img, x, y) + a) % 256
    requires scoreV == (Homogeneity(Vertical, f, img, x, y) + b) % 256
    ensures PixelDone(f, img, x, y,
                      Choose(scoreH, scoreV, FullRow(Horizontal, f, img, y)[x], FullRow(Vertical, f, img, y)[x]))
  {
    hide FullRow, Homogeneity, Choose, SiteOf, SameSample, Decided;
    SampleKept(f, img, x, y, scoreH, scoreV);
    ChoiceDecides(scoreH, scoreV, FullRow(Horizontal, f, img, y)[x], FullRow(Vertical, f, img, y)[x]);
    assert ChosenWith(f, img, x, y,
                      Choose(scoreH, scoreV, FullRow(Horizontal, f, img, y)[x], FullRow(Vertical, f, img, y)[x]), a, b);
  }

  /** Reads row `r` of the image into row 5 of both windows, with its greens; black behind the last row. */
  method ReadRow(image: array<Row>, winH: array<Row>, winV: array<Row>, f: Frame, r: nat, ghost img: seq<Row>)
    requires f.Valid() && IsWindow(winH, f) && IsWindow(winV, f) && winH != winV && image != winH && image != winV
    requires Intact(image, f, img, if r < 2 then 0 else r - 2)
    modifies winH, winV
    ensures winH[..] == old(winH[..])[5 := GreenRow(Horizontal, f, img, r)]
    ensures winV[..] == old(winV[..])[5 := GreenRow(Vertical, f, img, r)]
  {
    hide GreenAt;
    if r < f.h {
      winH[5], winV[5] := image[r], image[r];
      DoGreenRow(image, winH, winV, 5, f, r, img);
    } else {
      winH[5], winV[5] := BlackRow(f.w), BlackRow(f.w);
    }
  }

  lemma FullRowAgrees(d: Direction, f: Frame, img: seq<Row>, y: nat)
    requires f.Valid() && f.Is(img) && y < f.h
    ensures RowsAgree(f, y, FullRow(d, f, img, y), GreenRow(d, f, img, y))
  {
    FullAgreesWithGreen(d, f, img, y);
  }

  lemma BlackOutside(d: Direction, f: Frame, img: seq<Row>, y: int)
    requires f.Valid() && f.Is(img) && !(0 <= y < f.h)
    ensures FullRow(d, f, img, y) == GreenRow(d, f, img, y) == BlackRow(f.w)
  {
  }

  /** Completes row 4 of a window, which is row `r` of the image, or black behind it. */
  method CompleteRow(win: array<Row>, f: Frame, r: nat, ghost d: Direction, ghost img: seq<Row>)
    requires f.Valid() && f.Is(img) && IsWindow(win, f)
    requires 0 < r < f.h ==> win[3] == FullRow(d, f, img, r - 1)
    requires win[4] == GreenRow(d, f, img, r) && win[5] == GreenRow(d, f, img, r + 1)
    modifies win
    ensures win[..] == old(win[..])[4 := FullRow(d, f, img, r)]
  {
    hide FullRow, GreenRow, RowsAgree;
    if r < f.h {
      if r > 0 {
        FullRowAgrees(d, f, img, r - 1);
      }
      DoColourRow(win, 4, f, r, d, img);
    } else {
      BlackOutside(d, f, img, r);
    }
  }

  /** Completes row `r` of the image and reads the one behind it, as rows 4 and 5 of both windows. */
  method NextRow(image: array<Row>, winH: array<Row>, winV: array<Row>, f: Frame, r: nat, ghost img: seq<Row>)
    requires f.Valid() && IsWindow(winH, f) && IsWindow(winV, f) && winH != winV && image != winH && image != winV
    requires Intact(image, f, img, if r < 1 then 0 else r - 1)
    requires 0 < r < f.h ==>
      winH[3] == FullRow(Horizontal, f, img, r - 1) && winV[3] == FullRow(Vertical, f, img, r - 1)
    requires winH[4] == GreenRow(Horizontal, f, img, r) && winV[4] == GreenRow(Vertical, f, img, r)
    modifies winH, winV
    ensures winH[..] == old(winH[..])[4 := FullRow(Horizontal, f, img, r)][5 := GreenRow(Horizontal, f, img, r + 1)]
    ensures winV[..] == old(winV[..])[4 := FullRow(Vertical, f, img, r)][5 := GreenRow(Vertical, f, img, r + 1)]
  {
    hide FullRow, GreenRow;
    ReadRow(image, winH, winV, f, r + 1, img);
    CompleteRow(winH, f, r, Horizontal, img);
    CompleteRow(winV, f, r, Vertical, img);
  }

  /** Has the window taken in row 0 of the image, and the greens of row 1? */
  ghost predicate Begun(win: array<Row>, d: Direction, f: Frame, img: seq<Row>)
    requires f.Valid() && f.Is(img)
    reads win
  {
    && IsWindow(win, f)
    && win[1] == FullRow(d, f, img, -2) && win[2] == FullRow(d, f, img, -1)
    && win[3] == FullRow(d, f, img, 0) && win[4] == GreenRow(d, f, img, 1)
  }

  method Begin(image: array<Row>, winH: array<Row>, winV: array<Row>, f: Frame, ghost img: seq<Row>)
    requires f.Valid() && Intact(image, f, img, 0) && winH != winV && image != winH && image != winV
    requires winH.Length == winV.Length == WINDOW_ROWS
    requires forall k :: 0 <= k < WINDOW_ROWS ==> winH[k] == winV[k] == BlackRow(f.w)
    modifies winH, winV
    ensures Begun(winH, Horizontal, f, img) && Begun(winV, Vertical, f, img)
  {
    hide FullRow, GreenRow, GreenAt, BlackRow;
    BlackOutside(Horizontal, f, img, -1);
    BlackOutside(Horizontal, f, img, -2);
    BlackOutside(Vertical, f, img, -1);
    BlackOutside(Vertical, f, img, -2);
    winH[4], winV[4] := image[0], image[0];
    DoGreenRow(image, winH, winV, 4, f, 0, img);
    NextRow(image, winH, winV, f, 0, img);
    MoveWindow(winH, f);
    MoveWindow(winV, f);
  }

  /** The windows before the first row is written: rows 0 to 2 of the image have been read. */
  method Start(image: array<Row>, f: Frame, ghost img: seq<Row>) returns (winH: array<Row>, winV: array<Row>)
    requires f.Valid() && Intact(image, f, img, 0)
    ensures fresh(winH) && fresh(winV) && winH != winV
    ensures Holds(winH, Horizontal, f, img, 0) && Holds(winV, Vertical, f, img, 0)
  {
    hide FullRow, GreenRow, BlackRow;
    winH := new Row[WINDOW_ROWS](_ => BlackRow(f.w));
    winV := new Row[WINDOW_ROWS](_ => BlackRow(f.w));
    Begin(image, winH, winV, f, img);
    NextRow(image, winH, winV, f, 1, img);
    MoveWindow(winH, f);
    MoveWindow(winV, f);
  }

  /** One cycle: reads row `y + 3`, completes row `y + 2`, scores row `y + 1`, writes row `y`, and moves on. */
  method Cycle(image: array<Row>, winH: array<Row>, winV: array<Row>, homH: array<nat>, homV: array<nat>,
               f: Frame, y: nat, ghost img: seq<Row>)
    requires f.Valid() && f.Is(img) && y < f.h && Intact(image, f, img, y)
    requires winH != winV && image != winH && image != winV && homH != homV
    requires Holds(winH, Horizontal, f, img, y) && Holds(winV, Vertical, f, img, y)
    requires HoldsScores(homH[..], Horizontal, f, img, y) && HoldsScores(homV[..], Vertical, f, img, y)
    modifies image, winH, winV, homH, homV
    ensures image[..] == old(image[..])[y := image[y]] && RowDone(f, img, y, image[y])
    ensures Holds(winH, Horizontal, f, img, y + 1) && Holds(winV, Vertical, f, img, y + 1)
    ensures HoldsScores(homH[..], Horizontal, f, img, y + 1) && HoldsScores(homV[..], Vertical, f, img, y + 1)
  {
    hide FullRow, GreenRow, RowDone, HoldsScores, HoldsRow;
    NextRow(image, winH, winV, f, y + 2, img);
    GetDiffs(homH, homV, winH, winV, f, y, img);
    ChooseRow(image, winH, winV, homH, homV, f, y, img);
    MoveWindow(winV, f);
    MoveWindow(winH, f);
    MoveScores(homH, f, Horizontal, img, y);
    MoveScores(homV, f, Vertical, img, y);
  }

  /** Demosaics an image in place. */
  method Interpolate(image: array<Row>, f: Frame)
    requires f.Valid() && f.Is(image[..])
    modifies image
    ensures image.Length == f.h && forall y: nat :: y < f.h ==> RowDone(f, old(image[..]), y, image[y])
  {
    hide FullRow, GreenRow, RowDone, HoldsScores, HoldsRow, Holds;
    ghost var img := image[..];
    var winH, winV := Start(image, f, img);
    var homH := new nat[3 * f.w](_ => 0);
    var homV := new nat[3 * f.w](_ => 0);
    NoScoresYet(homH[..], Horizontal, f, img);
    NoScoresYet(homV[..], Vertical, f, img);
    for y := 0 to f.h
      invariant Intact(image, f, img, y)
      invariant forall r: nat :: r < y ==> RowDone(f, img, r, image[r])
      invariant Holds(winH, Horizontal, f, img, y) && Holds(winV, Vertical, f, img, y)
      invariant HoldsScores(homH[..], Horizontal, f, img, y) && HoldsScores(homV[..], Vertical, f, img, y)
    {
      ghost var before := image[..];
      Cycle(image, winH, winV, homH, homV, f, y, img);
      assert forall r :: 0 <= r < f.h && r != y ==> image[r] == before[r];
      RowWide(f, img, y, image[y]);
    }
  }

  lemma RowWide(f: Frame, img: seq<Row>, y: nat, row: Row)
    requires f.Valid() && f.Is(img) && y < f.h && RowDone(f, img, y, row)
    ensures |row| == f.w
  {
  }

  lemma NoScoresYet(hom: seq<nat>, d: Direction, f: Frame, img: seq<Row>)
    requires f.Valid() && f.Is(img) && |hom| == 3 * f.w && forall j :: 0 <= j < |hom| ==> hom[j] == 0
    ensures HoldsScores(hom, d, f, img, 0)
  {
  }

  /** What comes out of a picture whose rows have one value each: grey with that value wherever rows score better. */
  lemma RowsComeOut(f: Frame, img: seq<Row>, c: seq<byte>, x: nat, y: nat, row: Row)
    requires Rows(f, img, c) && y < f.h && RowDone(f, img, y, row) && 1 <= x < f.w - 1
    ensures Homogeneity(Horizontal, f, img, x, y) > Homogeneity(Vertical, f, img, x, y) ==> row[x] == Grey(c[y])
  {
    hide FullRow, Homogeneity, Decided, SameSample;
    assert PixelDone(f, img, x, y, row[x]);
    var a: nat, b: nat :| ChosenWith(f, img, x, y, row[x], a, b);
    RowsStay(f, img, c, x, y, row[x]);
  }

  lemma ColumnsComeOut(f: Frame, img: seq<Row>, c: seq<byte>, x: nat, y: nat, row: Row)
    requires Columns(f, img, c) && y < f.h && RowDone(f, img, y, row) && 1 <= x < f.w - 1
    ensures Homogeneity(Vertical, f, img, x, y) > Homogeneity(Horizontal, f, img, x, y) ==> row[x] == Grey(c[x])
  {
    hide FullRow, Homogeneity, Decided, SameSample;
    assert PixelDone(f, img, x, y, row[x]);
    var a: nat, b: nat :| ChosenWith(f, img, x, y, row[x], a, b);
    ColumnsStay(f, img, c, x, y, row[x]);
  }
}
