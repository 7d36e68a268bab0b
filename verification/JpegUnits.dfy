/** The units of an image with their components named: blue chrominance, red chrominance, and one or four luminances. */
module JpegUnits {
  import opened Bytes
  import opened BitString
  import opened Huffman
  import opened HuffmanDecoder
  import opened JpegBlock
  import opened JpegMcu
  import opened Wrappers

  /** Blocks in zigzag order, with their DC coefficients first. */
  datatype Unit = Unit(cb: seq<int>, cr: seq<int>, ys: Blocks) {
    predicate Valid() {
      |cb| == |cr| == 64 && ys != [] && forall i :: 0 <= i < |ys| ==> |ys[i]| == 64
    }

    function InOrder(): (r: Blocks)
      ensures |r| == 2 + |ys| && r[0] == cb && r[1] == cr && forall i :: 0 <= i < |ys| ==> r[2 + i] == ys[i]
    {
      [cb, cr] + ys
    }

    /** The coefficients to which those of the next unit are differences. */
    function Next(): (r: seq<int>)
      requires Valid()
      ensures |r| == 3
    {
      [ys[|ys| - 1][0], cb[0], cr[0]]
    }
  }

  /** How many luminance blocks a unit has, and how many pixels it is wide and high. */
  lemma SamplingInNumbers(hfactor: nat, vfactor: nat)
    ensures SamplingOf(hfactor, vfactor).Some? <==> (hfactor, vfactor) in {(0, 1), (1, 0), (1, 1), (2, 2)}
    ensures SamplingOf(hfactor, vfactor).Some? ==>
              var sampling := SamplingOf(hfactor, vfactor).value;
              && sampling.Stride() == (if hfactor == 2 then 16 else 8)
              && Lumas(sampling) == if hfactor == 2 then 4 else 1
  {
  }

  function Lumas(sampling: Sampling): nat {
    match sampling
    case OneByOne => 1
    case TwoByTwo => 4
  }

  // ----- Decoding -----

  /** `n` luminance blocks one behind the other, each with the DC coefficient of the one before. */
  ghost function DecodeLumas(k: Codings, n: nat, s: seq<bool>, p: nat, previous: int): (r: Option<(Blocks, nat)>)
    requires k.Usable()
    ensures r.Some? ==> |r.value.0| == n && forall i :: 0 <= i < n ==> |r.value.0[i]| == 64
    decreases n
  {
    if n == 0 then Some(([], p))
    else
      match DecodeBlock(k.dc[0], k.ac[0], s, p, previous)
      case None => None
      case Some((y, q)) =>
        match DecodeLumas(k, n - 1, s, q, y[0])
        case None => None
        case Some((ys, end)) => Some(([y] + ys, end))
  }

  /** A unit with `n` luminance blocks: first Cb with the second pair of codes, then Cr with the third, then Y with the
      first. */
  ghost function DecodeUnit(k: Codings, n: nat, s: seq<bool>, p: nat, previous: seq<int>): (r: Option<(Unit, nat)>)
    requires k.Usable() && |previous| == 3 && n > 0
    ensures r.Some? ==> r.value.0.Valid() && |r.value.0.ys| == n
  {
    match DecodeBlock(k.dc[1], k.ac[1], s, p, previous[1])
    case None => None
    case Some((cb, q)) =>
      match DecodeBlock(k.dc[2], k.ac[2], s, q, previous[2])
      case None => None
      case Some((cr, e)) =>
        match DecodeLumas(k, n, s, e, previous[0])
        case None => None
        case Some((ys, end)) => Some((Unit(cb, cr, ys), end))
  }

  /** `count` units, each from the next whole byte on. */
  ghost function DecodeImage(k: Codings, n: nat, count: nat, s: seq<bool>, p: nat, previous: seq<int>)
      : (r: Option<(seq<Unit>, nat)>)
    requires k.Usable() && |previous| == 3 && n > 0
    ensures r.Some? ==> |r.value.0| == count && forall i :: 0 <= i < count ==> r.value.0[i].Valid()
    decreases count
  {
    if count == 0 then Some(([], p))
    else
      match DecodeUnit(k, n, s, (p + 7) / 8 * 8, previous)
      case None => None
      case Some((unit, q)) =>
        match DecodeImage(k, n, count - 1, s, q, unit.Next())
        case None => None
        case Some((units, end)) => Some(([unit] + units, end))
  }

  function AllBlocks(units: seq<Unit>): (r: Blocks)
    ensures (forall u :: 0 <= u < |units| ==> units[u].Valid()) ==> forall i :: 0 <= i < |r| ==> |r[i]| == 64
  {
    if units == [] then [] else units[0].InOrder() + AllBlocks(units[1..])
  }

  function Repeat(n: nat): (order: seq<nat>)
    ensures |order| == n && forall i :: 0 <= i < n ==> order[i] == 0
  {
    seq(n, _ => 0)
  }

  lemma OverwrittenTwice(previous: seq<int>, v: int, w: int)
    requires |previous| == 3
    ensures previous[0 := v][0 := w] == previous[0 := w]
  {
  }

  lemma {:induction false} LumasInOrder(k: Codings, n: nat, s: seq<bool>, p: nat, previous: seq<int>)
    requires k.Usable() && |previous| == 3
    ensures var r, d := DecodeLumas(k, n, s, p, previous[0]), DecodeUnits(k, Repeat(n), s, p, previous);
            if r.None? then d.None?
            else
              var (ys, end) := r.value;
              d == Some(Decoded(ys, if n == 0 then previous else previous[0 := ys[n - 1][0]], end))
    decreases n
  {
    hide DecodeBlock, Total;
    if n > 0 {
      var r := DecodeBlock(k.dc[0], k.ac[0], s, p, previous[0]);
      assert Repeat(n)[1..] == Repeat(n - 1);
      if r.Some? {
        var updated := previous[0 := r.value.0[0]];
        LumasInOrder(k, n - 1, s, r.value.1, updated);
        var lumas := DecodeLumas(k, n - 1, s, r.value.1, updated[0]);
        if lumas.Some? && n > 1 {
          OverwrittenTwice(previous, updated[0], lumas.value.0[n - 2][0]);
        }
      }
    }
  }

  /** The blocks of a unit come in this order. */
  lemma UnitInOrder(k: Codings, sampling: Sampling, s: seq<bool>, p: nat, previous: seq<int>)
    requires k.Usable() && |previous| == 3
    ensures DecodeUnits(k, sampling.Order(), s, p, previous) ==
            match DecodeUnit(k, Lumas(sampling), s, p, previous)
            case None => None
            case Some((unit, end)) => Some(Decoded(unit.InOrder(), unit.Next(), end))
  {
    hide DecodeBlock, Total, DecodeUnits;
    var n := Lumas(sampling);
    OrderIs(sampling);
    OneUnit(k, 1, [2] + Repeat(n), s, p, previous);
    var first := DecodeBlock(k.dc[1], k.ac[1], s, p, previous[1]);
    if first.Some? {
      var (cb, q) := first.value;
      var between := previous[1 := cb[0]];
      OneUnit(k, 2, Repeat(n), s, q, between);
      var second := DecodeBlock(k.dc[2], k.ac[2], s, q, previous[2]);
      if second.Some? {
        var (cr, e) := second.value;
        LumasInOrder(k, n, s, e, between[2 := cr[0]]);
        var lumas := DecodeLumas(k, n, s, e, previous[0]);
        if lumas.Some? {
          var ys := lumas.value.0;
          assert between[2 := cr[0]][0 := ys[n - 1][0]] == [ys[n - 1][0], cb[0], cr[0]];
          assert [cb] + ([cr] + ys) == [cb, cr] + ys;
        }
      }
    }
  }

  lemma OrderIs(sampling: Sampling)
    ensures sampling.Order() == [1] + ([2] + Repeat(Lumas(sampling)))
  {
  }

  lemma OneUnit(k: Codings, c: nat, rest: seq<nat>, s: seq<bool>, p: nat, previous: seq<int>)
    requires k.Usable() && |previous| == 3 && c < 3 && forall i :: 0 <= i < |rest| ==> rest[i] < 3
    ensures DecodeUnits(k, [c] + rest, s, p, previous) ==
            match DecodeBlock(k.dc[c], k.ac[c], s, p, previous[c])
            case None => None
            case Some((zz, q)) => Behind([zz], DecodeUnits(k, rest, s, q, previous[c := zz[0]]))
  {
    hide DecodeBlock, Total;
    assert ([c] + rest)[1..] == rest;
  }

  /** And so do those of an image. */
  lemma {:induction false} ImageInOrder(k: Codings, sampling: Sampling, count: nat, s: seq<bool>, p: nat,
                                        previous: seq<int>)
    requires k.Usable() && |previous| == 3
    ensures var r := DecodeImage(k, Lumas(sampling), count, s, p, previous);
            var d := DecodeMcus(k, sampling.Order(), count, s, p, previous);
            if r.None? then d.None?
            else d.Some? && d.value.blocks == AllBlocks(r.value.0) && d.value.pos == r.value.1
    decreases count
  {
    hide DecodeUnits, DecodeUnit, DecodeImage, DecodeMcus, Sampling.Order, Codings.Usable, Unit.Next, Unit.Valid;
    ImageStep(k, Lumas(sampling), count, s, p, previous);
    McusUnfold(k, sampling.Order(), count, s, p, previous);
    if count > 0 {
      var at := ByteBoundary(p);
      UnitInOrder(k, sampling, s, at, previous);
      var first := DecodeUnit(k, Lumas(sampling), s, at, previous);
      if first.Some? {
        ImageInOrder(k, sampling, count - 1, s, first.value.1, first.value.0.Next());
      }
    }
  }

  lemma ImageStep(k: Codings, n: nat, count: nat, s: seq<bool>, p: nat, previous: seq<int>)
    requires k.Usable() && |previous| == 3 && n > 0
    ensures var r := DecodeImage(k, n, count, s, p, previous);
            if count == 0 then r == Some(([], p)) && AllBlocks([]) == []
            else
              match DecodeUnit(k, n, s, ByteBoundary(p), previous)
              case None => r == None
              case Some((unit, q)) =>
                match DecodeImage(k, n, count - 1, s, q, unit.Next())
                case None => r == None
                case Some((units, end)) =>
                  r == Some(([unit] + units, end)) && AllBlocks([unit] + units) == unit.InOrder() + AllBlocks(units)
  {
    hide DecodeUnit, Codings.Usable, Unit.Next, Unit.Valid;
    var r := DecodeImage(k, n, count, s, p, previous);
    if count > 0 && r.Some? {
      assert r.value.0 == [r.value.0[0]] + r.value.0[1..];
      var first := DecodeUnit(k, n, s, ByteBoundary(p), previous);
      var rest := DecodeImage(k, n, count - 1, s, first.value.1, first.value.0.Next());
      assert ([first.value.0] + rest.value.0)[1..] == rest.value.0;
    }
  }

  lemma McusUnfold(k: Codings, order: seq<nat>, count: nat, s: seq<bool>, p: nat, previous: seq<int>)
    requires k.Usable() && |previous| == 3 && forall i :: 0 <= i < |order| ==> order[i] < 3
    ensures var d := DecodeMcus(k, order, count, s, p, previous);
            if count == 0 then d == Some(Decoded([], previous, p))
            else
              match DecodeUnits(k, order, s, ByteBoundary(p), previous)
              case None => d == None
              case Some(first) =>
                d == Behind(first.blocks, DecodeMcus(k, order, count - 1, s, first.pos, first.previous))
  {
    hide DecodeUnits, Codings.Usable, ByteBoundary;
  }

  /** Where block `j` of unit `i` stands among all blocks, if each unit has `m` of them. */
  lemma {:induction false} BlockOfUnit(units: seq<Unit>, m: nat, i: nat, j: nat)
    requires forall u :: 0 <= u < |units| ==> |units[u].ys| == m - 2
    requires i < |units| && j < m && m > 2
    ensures m * i + j < |AllBlocks(units)|
    ensures AllBlocks(units)[m * i + j] == if j == 0 then units[i].cb else if j == 1 then units[i].cr
                                           else units[i].ys[j - 2]
  {
    if i == 0 {
      assert units[0].InOrder()[j] == AllBlocks(units)[j];
      assert m * 0 == 0;
    } else {
      hide AllBlocks;
      BlockOfUnit(units[1..], m, i - 1, j);
      OneFurther(m, i, j);
      BlocksBehind(units, m * (i - 1) + j);
    }
  }

  lemma BlocksBehind(units: seq<Unit>, k: nat)
    requires units != [] && k < |AllBlocks(units[1..])|
    ensures 2 + |units[0].ys| + k < |AllBlocks(units)|
    ensures AllBlocks(units)[2 + |units[0].ys| + k] == AllBlocks(units[1..])[k]
  {
  }

  lemma OneFurther(m: nat, i: nat, j: nat)
    requires i > 0
    ensures m * i + j == m + (m * (i - 1) + j)
  {
  }

  // ----- Encoding -----

  ghost predicate HasLumas(k: Codings, ys: Blocks, previous: int)
    requires k.Valid()
  {
    ys != [] ==> HasBlock(k.dc[0], k.ac[0], ys[0], previous) && HasLumas(k, ys[1..], ys[0][0])
  }

  ghost function EncodeLumas(k: Codings, ys: Blocks, previous: int): seq<bool>
    requires k.Valid() && HasLumas(k, ys, previous)
  {
    if ys == [] then []
    else EncodeBlock(k.dc[0], k.ac[0], ys[0], previous) + EncodeLumas(k, ys[1..], ys[0][0])
  }

  ghost predicate HasUnit(k: Codings, unit: Unit, previous: seq<int>)
    requires k.Valid() && |previous| == 3
  {
    && unit.Valid()
    && HasBlock(k.dc[1], k.ac[1], unit.cb, previous[1]) && HasBlock(k.dc[2], k.ac[2], unit.cr, previous[2])
    && HasLumas(k, unit.ys, previous[0])
  }

  ghost function EncodeUnit(k: Codings, unit: Unit, previous: seq<int>): seq<bool>
    requires k.Valid() && |previous| == 3 && HasUnit(k, unit, previous)
  {
    EncodeBlock(k.dc[1], k.ac[1], unit.cb, previous[1]) +
    EncodeBlock(k.dc[2], k.ac[2], unit.cr, previous[2]) +
    EncodeLumas(k, unit.ys, previous[0])
  }

  ghost predicate HasImage(k: Codings, n: nat, units: seq<Unit>, previous: seq<int>)
    requires k.Valid() && |previous| == 3
  {
    units != [] ==>
      HasUnit(k, units[0], previous) && |units[0].ys| == n && HasImage(k, n, units[1..], units[0].Next())
  }

  /** The units of an image, each padded with zeros to whole bytes. */
  ghost function EncodeImage(k: Codings, n: nat, units: seq<Unit>, previous: seq<int>): seq<byte>
    requires k.Valid() && |previous| == 3 && HasImage(k, n, units, previous)
  {
    if units == [] then []
    else Pack(EncodeUnit(k, units[0], previous)) + EncodeImage(k, n, units[1..], units[0].Next())
  }

  // ----- The way back -----

  lemma {:induction false} LumasRoundTrip(k: Codings, ys: Blocks, previous: int, s: seq<bool>, p: nat)
    requires k.Valid() && HasLumas(k, ys, previous) && StartsAt(s, p, EncodeLumas(k, ys, previous))
    requires p + |EncodeLumas(k, ys, previous)| + 8 <= |s|
    ensures DecodeLumas(k, |ys|, s, p, previous) == Some((ys, p + |EncodeLumas(k, ys, previous)|))
  {
    hide EncodeBlock, DecodeBlock, StartsAt, HasAC, Coding.Has, Coding.Valid;
    if ys != [] {
      var first := EncodeBlock(k.dc[0], k.ac[0], ys[0], previous);
      StartsInPieces(s, p, first, EncodeLumas(k, ys[1..], ys[0][0]));
      BlockRoundTrip(k.dc[0], k.ac[0], ys[0], previous, s, p);
      LumasRoundTrip(k, ys[1..], ys[0][0], s, p + |first|);
      assert [ys[0]] + ys[1..] == ys;
    }
  }

  /** A unit decodes to what was encoded, if eight more bits follow it. */
  lemma UnitRoundTrip(k: Codings, unit: Unit, previous: seq<int>, s: seq<bool>, p: nat)
    requires k.Valid() && |previous| == 3 && HasUnit(k, unit, previous)
    requires StartsAt(s, p, EncodeUnit(k, unit, previous)) && p + |EncodeUnit(k, unit, previous)| + 8 <= |s|
    ensures DecodeUnit(k, |unit.ys|, s, p, previous) == Some((unit, p + |EncodeUnit(k, unit, previous)|))
  {
    hide HasBlock, EncodeBlock, DecodeBlock, StartsAt, DecodeLumas, EncodeLumas, HasLumas, Coding.Valid;
    var cb := EncodeBlock(k.dc[1], k.ac[1], unit.cb, previous[1]);
    var cr := EncodeBlock(k.dc[2], k.ac[2], unit.cr, previous[2]);
    StartsInPieces(s, p, cb + cr, EncodeLumas(k, unit.ys, previous[0]));
    StartsInPieces(s, p, cb, cr);
    BlockRoundTrip(k.dc[1], k.ac[1], unit.cb, previous[1], s, p);
    BlockRoundTrip(k.dc[2], k.ac[2], unit.cr, previous[2], s, p + |cb|);
    LumasRoundTrip(k, unit.ys, previous[0], s, p + |cb| + |cr|);
  }

  /** What is encoded decodes to what it was, with at least one byte behind it. */
  lemma {:induction false} UnitsOfImage(k: Codings, n: nat, units: seq<Unit>, previous: seq<int>, front: seq<byte>,
                                        back: seq<byte>, p: nat)
    requires k.Valid() && |previous| == 3 && n > 0 && HasImage(k, n, units, previous) && back != []
    requires ByteBoundary(p) == 8 * |front|
    ensures var e := EncodeImage(k, n, units, previous);
            var r := DecodeImage(k, n, |units|, StreamBits(front + e + back), p, previous);
            r.Some? && r.value.0 == units && ByteBoundary(r.value.1) == 8 * |front + e|
    decreases |units|
  {
    hide HasBlock, HasLumas, EncodeUnit, DecodeUnit, StreamBits, Pack, Codings.Valid, DecodeImage;
    var e := EncodeImage(k, n, units, previous);
    var s := StreamBits(front + e + back);
    ImageStep(k, n, |units|, s, p, previous);
    if units != [] {
      var bits := EncodeUnit(k, units[0], previous);
      var first, rest := Pack(bits), EncodeImage(k, n, units[1..], units[0].Next());
      PackedBits(front, bits, rest + back);
      assert front + first + (rest + back) == front + (first + rest) + back == (front + first) + rest + back;
      UnitRoundTrip(k, units[0], previous, s, 8 * |front|);
      UnitsOfImage(k, n, units[1..], units[0].Next(), front + first, back, 8 * |front| + |bits|);
      assert [units[0]] + units[1..] == units;
    }
  }
}
