/** The decoder of images: its methods do what is specified for blocks, units and images. */
module JpegDecoder {
  import opened Bytes
  import opened BitString
  import opened Huffman
  import opened HuffmanTable
  import opened HuffmanDecoder
  import opened BitReader
  import opened JpegBlock
  import opened JpegMcu
  import opened JpegUnits
  import opened Wrappers

  function AllNatural(blocks: Blocks): (r: Blocks)
    requires forall i :: 0 <= i < |blocks| ==> |blocks[i]| == BLOCK_SIZE
    ensures |r| == |blocks| && forall i :: 0 <= i < |r| ==> r[i] == Natural(blocks[i])
  {
    seq(|blocks|, i requires 0 <= i < |blocks| => Natural(blocks[i]))
  }

  /** The blocks of a unit in natural order. */
  ghost predicate HasDecoded(output: Blocks, unit: Unit) {
    unit.Valid() && output == AllNatural(unit.InOrder())
  }

  /** The DC coefficients of the last block of each component. */
  ghost predicate RemainsOf(previous: seq<int>, unit: Unit) {
    unit.Valid() && previous == unit.Next()
  }

  /** The blocks of all units of an image, in natural order. */
  ghost predicate ImageDecoded(output: Blocks, units: seq<Unit>) {
    (forall u :: 0 <= u < |units| ==> units[u].Valid()) && output == AllNatural(AllBlocks(units))
  }

  lemma UnitsStart(k: Codings, order: seq<nat>, s: seq<bool>, p: nat, previous: seq<int>)
    requires k.Usable() && |previous| == 3 && forall i :: 0 <= i < |order| ==> order[i] < 3
    ensures Behind([], DecodeUnits(k, order[0..], s, p, previous)) == DecodeUnits(k, order, s, p, previous)
  {
    hide DecodeUnits;
    assert order[0..] == order;
    var r := DecodeUnits(k, order, s, p, previous);
    if r.Some? {
      assert [] + r.value.blocks == r.value.blocks;
    }
  }

  lemma UnitsEnd(k: Codings, s: seq<bool>, p: nat, previous: seq<int>, blocks: Blocks)
    requires k.Usable() && |previous| == 3
    ensures Behind(blocks, DecodeUnits(k, [], s, p, previous)) == Some(Decoded(blocks, previous, p))
  {
    assert blocks + [] == blocks;
  }

  /** What the blocks behind the first `i` still add to the result. */
  lemma UnitStep(k: Codings, order: seq<nat>, i: nat, s: seq<bool>, p: nat, previous: seq<int>, blocks: Blocks)
      returns (zz: seq<int>)
    requires k.Usable() && |previous| == 3 && (forall i :: 0 <= i < |order| ==> order[i] < 3) && i < |order|
    ensures |zz| == BLOCK_SIZE
    ensures var result, c := Behind(blocks, DecodeUnits(k, order[i..], s, p, previous)), order[i];
            match DecodeBlock(k.dc[c], k.ac[c], s, p, previous[c])
            case None => result == None
            case Some((v, q)) =>
              zz == v && result == Behind(blocks + [zz], DecodeUnits(k, order[i + 1..], s, q, previous[c := zz[0]]))
  {
    hide DecodeBlock, Total;
    assert order[i..][1..] == order[i + 1..];
    var c := order[i];
    var r := DecodeBlock(k.dc[c], k.ac[c], s, p, previous[c]);
    zz := ZeroBlock();
    if r.Some? {
      zz := r.value.0;
      BehindBehind(blocks, [zz], DecodeUnits(k, order[i + 1..], s, r.value.1, previous[c := zz[0]]));
    }
  }

  /** What the units behind some blocks still add to the result. */
  lemma McusStep(k: Codings, sampling: Sampling, n: nat, s: seq<bool>, p: nat, previous: seq<int>, blocks: Blocks)
      returns (first: Blocks)
    requires k.Usable() && |previous| == 3 && n > 0
    ensures forall i :: 0 <= i < |first| ==> |first[i]| == BLOCK_SIZE
    ensures var result := Behind(blocks, DecodeMcus(k, sampling.Order(), n, s, p, previous));
            match DecodeUnit(k, Lumas(sampling), s, ByteBoundary(p), previous)
            case None => result == None
            case Some((unit, end)) =>
              first == unit.InOrder() &&
              result == Behind(blocks + first, DecodeMcus(k, sampling.Order(), n - 1, s, end, unit.Next()))
  {
    hide DecodeUnits, DecodeUnit, ByteBoundary, Codings.Usable, Sampling.Order, Unit.Next;
    UnitInOrder(k, sampling, s, ByteBoundary(p), previous);
    var r := DecodeUnit(k, Lumas(sampling), s, ByteBoundary(p), previous);
    first := [];
    if r.Some? {
      var (unit, end) := r.value;
      first := unit.InOrder();
      BehindBehind(blocks, first, DecodeMcus(k, sampling.Order(), n - 1, s, end, unit.Next()));
    }
  }

  lemma McusStart(k: Codings, order: seq<nat>, n: nat, s: seq<bool>, p: nat, previous: seq<int>)
    requires k.Usable() && |previous| == 3 && forall i :: 0 <= i < |order| ==> order[i] < 3
    ensures Behind([], DecodeMcus(k, order, n, s, p, previous)) == DecodeMcus(k, order, n, s, p, previous)
  {
    hide DecodeMcus;
    var r := DecodeMcus(k, order, n, s, p, previous);
    if r.Some? {
      assert [] + r.value.blocks == r.value.blocks;
    }
  }

  lemma McusEnd(k: Codings, order: seq<nat>, s: seq<bool>, p: nat, previous: seq<int>, blocks: Blocks)
    requires k.Usable() && |previous| == 3 && forall i :: 0 <= i < |order| ==> order[i] < 3
    ensures Behind(blocks, DecodeMcus(k, order, 0, s, p, previous)) == Some(Decoded(blocks, previous, p))
  {
    assert blocks + [] == blocks;
  }

  lemma BehindNone(blocks: Blocks)
    ensures Behind(blocks, None) == None
  {
  }

  /** The product, as a count of rows. */
  function Times(rows: nat, columns: nat): (n: nat)
    ensures n == rows * columns
  {
    if rows == 0 then 0 else Times(rows - 1, columns) + columns
  }

  lemma AllNaturalOfNothing()
    ensures AllNatural([]) == []
  {
  }

  lemma AllNaturalOfBoth(a: Blocks, b: Blocks)
    requires forall i :: 0 <= i < |a| ==> |a[i]| == BLOCK_SIZE
    requires forall i :: 0 <= i < |b| ==> |b[i]| == BLOCK_SIZE
    ensures AllNatural(a + b) == AllNatural(a) + AllNatural(b)
  {
    hide Natural;
  }

  class Decoder {
    const reader: Reader
    const components: seq<Component>

    constructor (reader: Reader, components: seq<Component>)
      ensures this.reader == reader && this.components == components
    {
      this.reader, this.components := reader, components;
    }

    ghost function Valid(k: Codings): (v: bool)
      ensures v ==> reader.Valid() && k.Usable() && |components| == 3
      reads this, reader, components,
        set c <- components :: c.dcTable.lookup, set c <- components :: c.dcTable.codeSize,
        set c <- components :: c.dcTable.slowtable, set c <- components :: c.acTable.lookup,
        set c <- components :: c.acTable.codeSize, set c <- components :: c.acTable.slowtable
    {
      && reader.Valid() && k.Usable() && |components| == 3
      && (forall i, j :: 0 <= i < j < 3 ==> components[i] != components[j] && components[i].dct != components[j].dct)
      && (forall i, j :: 0 <= i < 3 && 0 <= j < 3 ==>
            components[i].dct != components[j].dcTable.lookup && components[i].dct != components[j].acTable.lookup)
      && (forall i :: 0 <= i < 3 ==> components[i].Uses(k.dc[i], k.ac[i]))
    }

    ghost function Previous(): (r: seq<int>)
      reads components
      requires |components| == 3
      ensures |r| == 3
    {
      [components[0].previousDC, components[1].previousDC, components[2].previousDC]
    }

    ghost function Changed(): set<object>
      reads this
    {
      (set c <- components :: c as object) + (set c <- components :: c.dct as object)
    }

    lemma IsChanged(c: nat)
      requires c < |components|
      ensures components[c] in Changed() && components[c].dct in Changed()
    {
      var component := components[c];
      assert component in components;
      assert component as object in (set d <- components :: d as object);
    }

    method Align(ghost k: Codings)
      requires Valid(k)
      modifies reader
      ensures Valid(k) && reader.BitPos() == ByteBoundary(old(reader.BitPos())) && Previous() == old(Previous())
    {
      reader.Realign();
    }

    /** One block of component `c`, in natural order. */
    method DecodeBlockOf(c: nat, ghost k: Codings) returns (ok: bool, block: seq<int>)
      requires Valid(k) && c < 3
      modifies reader, Changed()
      ensures Valid(k)
      ensures var r :=
                DecodeBlock(k.dc[c], k.ac[c], StreamBits(reader.stream), old(reader.BitPos()), old(Previous())[c]);
              (ok <==> r.Some?) &&
              (ok ==>
                 block == Natural(r.value.0) && reader.BitPos() == r.value.1 &&
                 Previous() == old(Previous())[c := r.value.0[0]])
    {
      hide TableFor, DecodeBlock, Natural, StreamBits, Total;
      IsChanged(c);
      ok := components[c].ProcessHuffmanDataUnit(reader, k.dc[c], k.ac[c]);
      block := components[c].dct[..];
    }

    /** Decodes one unit from the next whole byte on, for any input: first Cb, then Cr, then one or four Y, each in
        natural order. */
    method DecodeMcu(sampling: Sampling, ghost k: Codings) returns (ok: bool, output: Blocks)
      requires Valid(k)
      modifies reader, Changed()
      ensures Valid(k)
      ensures var r :=
                DecodeUnit(k, Lumas(sampling), StreamBits(reader.stream),
                           ByteBoundary(old(reader.BitPos())), old(Previous()));
              (ok <==> r.Some?) &&
              (ok ==>
                 HasDecoded(output, r.value.0) && reader.BitPos() == r.value.1 && RemainsOf(Previous(), r.value.0))
    {
      hide Valid, Previous, DecodeUnit, DecodeUnits, StreamBits, Natural, Codings.Usable, AllNatural, Sampling.Order,
           Lumas, ByteBoundary, Unit.Next, Unit.InOrder;
      UnitInOrder(k, sampling, StreamBits(reader.stream), ByteBoundary(reader.BitPos()), Previous());
      ok, output := DecodeOrdered(sampling, k);
    }

    method DecodeOrdered(sampling: Sampling, ghost k: Codings) returns (ok: bool, output: Blocks)
      requires Valid(k)
      modifies reader, Changed()
      ensures Valid(k)
      ensures var r :=
                DecodeUnits(k, sampling.Order(), StreamBits(reader.stream), ByteBoundary(old(reader.BitPos())),
                            old(Previous()));
              (ok <==> r.Some?) &&
              (ok ==>
                 output == AllNatural(r.value.blocks) && reader.BitPos() == r.value.pos &&
                 Previous() == r.value.previous)
    {
      hide Valid, Previous, DecodeBlock, DecodeUnits, StreamBits, Natural, Behind, Codings.Usable;
      ghost var s := StreamBits(reader.stream);
      Align(k);
      ghost var result := DecodeUnits(k, sampling.Order(), s, reader.BitPos(), Previous());
      ghost var blocks: Blocks := [];
      output := [];
      UnitsStart(k, sampling.Order(), s, reader.BitPos(), Previous());
      var order := sampling.Order();
      for i := 0 to |order|
        invariant Valid(k) && order == sampling.Order()
        invariant |blocks| == i && forall j :: 0 <= j < i ==> |blocks[j]| == BLOCK_SIZE
        invariant output == AllNatural(blocks)
        invariant result == Behind(blocks, DecodeUnits(k, order[i..], s, reader.BitPos(), Previous()))
      {
        var block;
        ghost var zz := UnitStep(k, order, i, s, reader.BitPos(), Previous(), blocks);
        ok, block := DecodeBlockOf(order[i], k);
        if !ok {
          return;
        }
        output, blocks := output + [block], blocks + [zz];
      }
      assert order[|order|..] == [];
      UnitsEnd(k, s, reader.BitPos(), Previous(), blocks);
      ok := true;
    }

    /** Starts an image: no differences yet, and no bits. */
    method Resync(ghost k: Codings)
      requires Valid(k)
      modifies reader, Changed()
      ensures Valid(k) && Previous() == [0, 0, 0] && reader.BitPos() == 8 * old(reader.pos)
    {
      hide Component.Uses, TableFor, Total;
      ClearPrevious(k);
      reader.Drop();
    }

    method ClearPrevious(ghost k: Codings)
      requires Valid(k)
      modifies Changed()
      ensures Valid(k) && Previous() == [0, 0, 0]
    {
      hide TableFor, Total, Changed;
      IsChanged(Y);
      IsChanged(CB);
      IsChanged(CR);
      components[Y].previousDC := 0;
      components[CB].previousDC := 0;
      components[CR].previousDC := 0;
    }

    /** The next units of an image of which `left` are missing. */
    method DecodeRow(sampling: Sampling, columns: nat, ghost k: Codings, ghost left: nat)
        returns (ok: bool, output: Blocks, ghost blocks: Blocks)
      requires Valid(k) && columns <= left
      modifies reader, Changed()
      ensures Valid(k)
      ensures forall i :: 0 <= i < |blocks| ==> |blocks[i]| == BLOCK_SIZE
      ensures output == AllNatural(blocks)
      ensures DecodeMcus(k, sampling.Order(), left, StreamBits(reader.stream), old(reader.BitPos()), old(Previous())) ==
              if !ok then None
              else Behind(blocks,
                          DecodeMcus(k, sampling.Order(), left - columns, StreamBits(reader.stream), reader.BitPos(),
                                     Previous()))
    {
      hide Valid, Previous, DecodeUnit, DecodeUnits, DecodeMcus, StreamBits, Natural, Behind, Codings.Usable,
           AllNatural, Sampling.Order, Lumas, ByteBoundary, Unit.Next;
      ghost var s, order := StreamBits(reader.stream), sampling.Order();
      ghost var result := DecodeMcus(k, order, left, s, reader.BitPos(), Previous());
      output, blocks := [], [];
      AllNaturalOfNothing();
      McusStart(k, order, left, s, reader.BitPos(), Previous());
      for x := 0 to columns
        invariant Valid(k)
        invariant forall i :: 0 <= i < |blocks| ==> |blocks[i]| == BLOCK_SIZE
        invariant output == AllNatural(blocks)
        invariant result == Behind(blocks, DecodeMcus(k, order, left - x, s, reader.BitPos(), Previous()))
      {
        ghost var first := McusStep(k, sampling, left - x, s, reader.BitPos(), Previous(), blocks);
        var more;
        ok, more := DecodeMcu(sampling, k);
        if !ok {
          return;
        }
        AllNaturalOfBoth(blocks, first);
        output, blocks := output + more, blocks + first;
      }
      ok := true;
    }

    /** All units of an image. */
    method DecodeRows(sampling: Sampling, rows: nat, columns: nat, ghost k: Codings) returns (ok: bool, output: Blocks)
      requires Valid(k)
      modifies reader, Changed()
      ensures Valid(k)
      ensures var r :=
                DecodeMcus(k, sampling.Order(), Times(rows, columns), StreamBits(reader.stream), old(reader.BitPos()),
                           old(Previous()));
              (ok <==> r.Some?) && (ok ==> output == AllNatural(r.value.blocks) && reader.BitPos() == r.value.pos)
    {
      hide Valid, Previous, DecodeUnits, DecodeMcus, StreamBits, Natural, Behind, Codings.Usable, AllNatural,
           Sampling.Order;
      ghost var s, order, left := StreamBits(reader.stream), sampling.Order(), Times(rows, columns);
      ghost var result := DecodeMcus(k, order, left, s, reader.BitPos(), Previous());
      ghost var blocks: Blocks := [];
      output := [];
      AllNaturalOfNothing();
      McusStart(k, order, left, s, reader.BitPos(), Previous());
      for y := 0 to rows
        invariant Valid(k) && left == Times(rows - y, columns)
        invariant forall i :: 0 <= i < |blocks| ==> |blocks[i]| == BLOCK_SIZE
        invariant output == AllNatural(blocks)
        invariant result == Behind(blocks, DecodeMcus(k, order, left, s, reader.BitPos(), Previous()))
      {
        var row;
        ghost var more;
        ok, row, more := DecodeRow(sampling, columns, k, left);
        if !ok {
          BehindNone(blocks);
          return;
        }
        left := left - columns;
        AllNaturalOfBoth(blocks, more);
        BehindBehind(blocks, more, DecodeMcus(k, order, left, s, reader.BitPos(), Previous()));
        output, blocks := output + row, blocks + more;
      }
      McusEnd(k, order, s, reader.BitPos(), Previous(), blocks);
      ok := true;
    }

    /** Decodes an image, for any input. At most one byte may be left behind it, and behind what the reservoir still
        holds. */
    method Decode(hfactor: nat, vfactor: nat, width: nat, height: nat, ghost k: Codings)
        returns (ok: bool, output: Blocks)
      requires Valid(k)
      modifies reader, Changed()
      ensures (hfactor, vfactor) !in {(0, 1), (1, 0), (1, 1), (2, 2)} ==> !ok
      ensures (hfactor, vfactor) in {(0, 1), (1, 0), (1, 1), (2, 2)} ==>
                var lumas, stride, size := if hfactor == 2 then 4 else 1, if hfactor == 2 then 16
                                           else 8, |reader.stream|;
                var n := Times(height / stride, width / stride);
                var r := DecodeImage(k, lumas, n, StreamBits(reader.stream), 8 * old(reader.pos), [0, 0, 0]);
                && (ok ==> r.Some? && ImageDecoded(output, r.value.0) && 8 * size < r.value.1 + 40)
                && (r.Some? && 8 * size <= ByteBoundary(r.value.1) + 8 ==> ok)
                && (r.Some? ==> 8 * reader.pos == r.value.1 + reader.nbits)
                && (ok <==> r.Some? && size <= reader.pos + 1)
    {
      hide Valid, DecodeMcus, DecodeImage, StreamBits, AllNatural, Sampling.Order, Window, Codings.Usable, Lumas,
           AllBlocks;
      output := [];
      SamplingInNumbers(hfactor, vfactor);
      if SamplingOf(hfactor, vfactor).None? {
        return false, output;
      }
      var sampling := SamplingOf(hfactor, vfactor).value;
      Resync(k);
      ImageInOrder(k, sampling, Times(height / sampling.Stride(), width / sampling.Stride()),
                   StreamBits(reader.stream), reader.BitPos(), [0, 0, 0]);
      ok, output := DecodeRows(sampling, height / sampling.Stride(), width / sampling.Stride(), k);
      if ok {
        ok := |reader.stream| - reader.pos <= 1;
      }
    }
  }
}
