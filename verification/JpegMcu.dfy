/** Minimum coded units: the blocks of one 8x8 or 16x16 square, padded to whole bytes. */
module JpegMcu {
  import opened Bytes
  import opened BitString
  import opened Huffman
  import opened HuffmanDecoder
  import opened JpegBlock
  import opened Wrappers

  const Y: nat := 0
  const CB: nat := 1
  const CR: nat := 2

  datatype Sampling = OneByOne | TwoByTwo {
    /** The components of the blocks of a unit, in stream order. */
    function Order(): (order: seq<nat>)
      ensures order != [] && forall i :: 0 <= i < |order| ==> order[i] < 3
    {
      match this
      case OneByOne => [CB, CR, Y]
      case TwoByTwo => [CB, CR, Y, Y, Y, Y]
    }

    function Stride(): nat {
      match this
      case OneByOne => 8
      case TwoByTwo => 16
    }
  }

  /** The DC and AC codes of the three components. */
  datatype Codings = Codings(dc: seq<Coding>, ac: seq<Coding>) {
    ghost function Valid(): (v: bool)
      ensures v ==> Usable()
    {
      |dc| == |ac| == 3 && forall i :: 0 <= i < 3 ==> dc[i].Valid() && ac[i].Valid()
    }

    ghost predicate Usable() {
      |dc| == |ac| == 3 && forall i :: 0 <= i < 3 ==> Total(dc[i].c) <= |dc[i].vals| && Total(ac[i].c) <= |ac[i].vals|
    }
  }

  type Blocks = seq<seq<int>>

  function ByteBoundary(p: nat): (q: nat)
    ensures p <= q < p + 8 && q % 8 == 0
  {
    (p + 7) / 8 * 8
  }

  // ----- Decoding -----

  datatype Decoded = Decoded(blocks: Blocks, previous: seq<int>, pos: nat)

  /** A result with some blocks in front. */
  function Behind(blocks: Blocks, r: Option<Decoded>): (d: Option<Decoded>) {
    match r
    case None => None
    case Some(rest) => Some(rest.(blocks := blocks + rest.blocks))
  }

  lemma BehindBehind(a: Blocks, b: Blocks, r: Option<Decoded>)
    ensures Behind(a, Behind(b, r)) == Behind(a + b, r)
  {
    if r.Some? {
      assert a + (b + r.value.blocks) == (a + b) + r.value.blocks;
    }
  }

  /** Decodes one block after another; `previous` are the last DC coefficients of the components. */
  ghost function DecodeUnits(k: Codings, order: seq<nat>, s: seq<bool>, p: nat,
                             previous: seq<int>): (r: Option<Decoded>)
    requires k.Usable() && |previous| == 3 && forall i :: 0 <= i < |order| ==> order[i] < 3
    ensures r.Some? ==> |r.value.blocks| == |order| && |r.value.previous| == 3
    ensures r.Some? ==> forall i :: 0 <= i < |r.value.blocks| ==> |r.value.blocks[i]| == BLOCK_SIZE
  {
    if order == [] then Some(Decoded([], previous, p))
    else
      var c := order[0];
      match DecodeBlock(k.dc[c], k.ac[c], s, p, previous[c])
      case None => None
      case Some((zz, q)) => Behind([zz], DecodeUnits(k, order[1..], s, q, previous[c := zz[0]]))
  }

  /** `n` units, each on a byte boundary. */
  ghost function DecodeMcus(k: Codings, order: seq<nat>, n: nat, s: seq<bool>, p: nat,
                            previous: seq<int>): (r: Option<Decoded>)
    requires k.Usable() && |previous| == 3 && forall i :: 0 <= i < |order| ==> order[i] < 3
    ensures r.Some? ==> |r.value.previous| == 3
    ensures r.Some? ==> forall i :: 0 <= i < |r.value.blocks| ==> |r.value.blocks[i]| == BLOCK_SIZE
  {
    if n == 0 then Some(Decoded([], previous, p))
    else
      match DecodeUnits(k, order, s, ByteBoundary(p), previous)
      case None => None
      case Some(first) => Behind(first.blocks, DecodeMcus(k, order, n - 1, s, first.pos, first.previous))
  }

  // ----- Encoding -----

  ghost function HasUnits(k: Codings, order: seq<nat>, blocks: Blocks, previous: seq<int>): (b: bool)
    requires k.Valid() && |previous| == 3 && forall i :: 0 <= i < |order| ==> order[i] < 3
    ensures b ==> |blocks| == |order| && forall i :: 0 <= i < |blocks| ==> |blocks[i]| == BLOCK_SIZE
  {
    |blocks| == |order| &&
    (order != [] ==>
       var c := order[0];
       HasBlock(k.dc[c], k.ac[c], blocks[0], previous[c]) &&
       HasUnits(k, order[1..], blocks[1..], previous[c := blocks[0][0]]))
  }

  ghost function EncodeUnits(k: Codings, order: seq<nat>, blocks: Blocks, previous: seq<int>): (s: seq<bool>)
    requires k.Valid() && |previous| == 3 && forall i :: 0 <= i < |order| ==> order[i] < 3
    requires HasUnits(k, order, blocks, previous)
    ensures order != [] ==> |s| > 0
  {
    if order == [] then []
    else
      var c := order[0];
      EncodeBlock(k.dc[c], k.ac[c], blocks[0], previous[c]) +
      EncodeUnits(k, order[1..], blocks[1..], previous[c := blocks[0][0]])
  }

  /** The last DC coefficients behind some blocks. */
  ghost function PreviousAfter(order: seq<nat>, blocks: Blocks, previous: seq<int>): (r: seq<int>)
    requires |previous| == 3 && |blocks| == |order| && forall i :: 0 <= i < |order| ==>
      order[i] < 3 && |blocks[i]| == BLOCK_SIZE
    ensures |r| == 3
  {
    if order == [] then previous else PreviousAfter(order[1..], blocks[1..], previous[order[0] := blocks[0][0]])
  }

  lemma {:induction false} UnitsRoundTrip(k: Codings, order: seq<nat>, blocks: Blocks, previous: seq<int>, s: seq<bool>,
                                          p: nat)
    requires k.Valid() && |previous| == 3 && forall i :: 0 <= i < |order| ==> order[i] < 3
    requires HasUnits(k, order, blocks, previous)
    requires StartsAt(s, p, EncodeUnits(k, order, blocks, previous))
    requires p + |EncodeUnits(k, order, blocks, previous)| + 8 <= |s|
    ensures DecodeUnits(k, order, s, p, previous) ==
            Some(Decoded(blocks, PreviousAfter(order, blocks, previous), p + |EncodeUnits(k, order, blocks, previous)|))
  {
    hide StartsAt, HasBlock, EncodeBlock, DecodeBlock, Start;
    if order != [] {
      var c := order[0];
      var first := EncodeBlock(k.dc[c], k.ac[c], blocks[0], previous[c]);
      var updated := previous[c := blocks[0][0]];
      StartsInPieces(s, p, first, EncodeUnits(k, order[1..], blocks[1..], updated));
      BlockRoundTrip(k.dc[c], k.ac[c], blocks[0], previous[c], s, p);
      UnitsRoundTrip(k, order[1..], blocks[1..], updated, s, p + |first|);
      assert [blocks[0]] + blocks[1..] == blocks;
    }
  }

  /** Do the bytes hold the units `mcus` from byte `at` to `end`, each in whole bytes with any padding? */
  ghost predicate HoldsMcus(k: Codings, order: seq<nat>, mcus: seq<Blocks>, previous: seq<int>, bytes: seq<byte>,
                            at: nat, end: nat)
    requires k.Valid() && |previous| == 3 && forall i :: 0 <= i < |order| ==> order[i] < 3
    decreases |mcus|
  {
    if mcus == [] then at == end
    else
      && HasUnits(k, order, mcus[0], previous)
      && StartsAt(StreamBits(bytes), 8 * at, EncodeUnits(k, order, mcus[0], previous))
      && HoldsMcus(k, order, mcus[1..], PreviousAfter(order, mcus[0], previous), bytes,
                   at + (|EncodeUnits(k, order, mcus[0], previous)| + 7) / 8, end)
  }

  function Concat(mcus: seq<Blocks>): Blocks {
    if mcus == [] then [] else mcus[0] + Concat(mcus[1..])
  }

  lemma {:induction false} HoldsMcusForward(k: Codings, order: seq<nat>, mcus: seq<Blocks>, previous: seq<int>,
                                           bytes: seq<byte>, at: nat, end: nat)
    requires k.Valid() && |previous| == 3 && forall i :: 0 <= i < |order| ==> order[i] < 3
    requires HoldsMcus(k, order, mcus, previous, bytes, at, end)
    ensures at <= end
    decreases |mcus|
  {
    hide StartsAt, HasUnits, EncodeUnits, PreviousAfter, Codings.Valid;
    if mcus != [] {
      HoldsMcusForward(k, order, mcus[1..], PreviousAfter(order, mcus[0], previous), bytes,
                       at + (|EncodeUnits(k, order, mcus[0], previous)| + 7) / 8, end);
    }
  }

  /** Units in whole bytes decode back; one byte behind them is all that looking ahead needs. */
  lemma {:induction false} McusRoundTrip(k: Codings, order: seq<nat>, mcus: seq<Blocks>, previous: seq<int>,
                                         bytes: seq<byte>, at: nat, end: nat, p: nat)
    requires k.Valid() && |previous| == 3 && forall i :: 0 <= i < |order| ==> order[i] < 3
    requires HoldsMcus(k, order, mcus, previous, bytes, at, end) && end < |bytes| && ByteBoundary(p) == 8 * at
    ensures var r := DecodeMcus(k, order, |mcus|, StreamBits(bytes), p, previous);
            r.Some? && r.value.blocks == Concat(mcus) && ByteBoundary(r.value.pos) == 8 * end
    decreases |mcus|
  {
    hide StartsAt, HasUnits, EncodeUnits, DecodeUnits, PreviousAfter, Codings.Valid, StreamBits;
    if mcus != [] {
      var s, e := StreamBits(bytes), EncodeUnits(k, order, mcus[0], previous);
      var next, after := at + (|e| + 7) / 8, PreviousAfter(order, mcus[0], previous);
      HoldsMcusForward(k, order, mcus[1..], after, bytes, next, end);
      UnitsRoundTrip(k, order, mcus[0], previous, s, 8 * at);
      McusRoundTrip(k, order, mcus[1..], after, bytes, next, end, 8 * at + |e|);
    }
  }

  ghost predicate HasMcus(k: Codings, order: seq<nat>, mcus: seq<Blocks>, previous: seq<int>)
    requires k.Valid() && |previous| == 3 && forall i :: 0 <= i < |order| ==> order[i] < 3
  {
    mcus != [] ==>
      HasUnits(k, order, mcus[0], previous) && HasMcus(k, order, mcus[1..], PreviousAfter(order, mcus[0], previous))
  }

  /** The units of an image, each padded with zeros to whole bytes. */
  ghost function EncodeMcus(k: Codings, order: seq<nat>, mcus: seq<Blocks>, previous: seq<int>): (bytes: seq<byte>)
    requires k.Valid() && |previous| == 3 && forall i :: 0 <= i < |order| ==> order[i] < 3
    requires HasMcus(k, order, mcus, previous)
  {
    if mcus == [] then []
    else
      Pack(EncodeUnits(k, order, mcus[0], previous)) +
      EncodeMcus(k, order, mcus[1..], PreviousAfter(order, mcus[0], previous))
  }

  lemma {:induction false} EncodedHolds(k: Codings, order: seq<nat>, mcus: seq<Blocks>, previous: seq<int>,
                                       front: seq<byte>, back: seq<byte>)
    requires k.Valid() && |previous| == 3 && forall i :: 0 <= i < |order| ==> order[i] < 3
    requires HasMcus(k, order, mcus, previous)
    ensures var e := EncodeMcus(k, order, mcus, previous);
            HoldsMcus(k, order, mcus, previous, front + e + back, |front|, |front + e|)
    decreases |mcus|
  {
    hide Codings.Valid, HasUnits, EncodeUnits, PreviousAfter, StreamBits, Pack;
    if mcus != [] {
      var first, after := Pack(EncodeUnits(k, order, mcus[0], previous)), PreviousAfter(order, mcus[0], previous);
      var rest := EncodeMcus(k, order, mcus[1..], after);
      EncodedHolds(k, order, mcus[1..], after, front + first, back);
      PackedBits(front, EncodeUnits(k, order, mcus[0], previous), rest + back);
      assert front + first + (rest + back) == front + (first + rest) + back == (front + first) + rest + back;
    }
  }

  /** The sampling for the factors of the luminance component; the others are unknown. */
  function SamplingOf(hfactor: nat, vfactor: nat): Option<Sampling> {
    if hfactor <= 1 && vfactor <= 1 && hfactor + vfactor > 0 then Some(OneByOne)
    else if hfactor == 2 && vfactor == 2 then Some(TwoByTwo)
    else None
  }

  /** An image that ends one byte before the bytes do decodes to its blocks, and passes the check for leftovers. */
  lemma HeldImagePasses(k: Codings, sampling: Sampling, mcus: seq<Blocks>, bytes: seq<byte>)
    requires k.Valid() && |bytes| > 0 && HoldsMcus(k, sampling.Order(), mcus, [0, 0, 0], bytes, 0, |bytes| - 1)
    ensures var r := DecodeMcus(k, sampling.Order(), |mcus|, StreamBits(bytes), 0, [0, 0, 0]);
            r.Some? && r.value.blocks == Concat(mcus) && 8 * |bytes| <= ByteBoundary(r.value.pos) + 8
  {
    hide HoldsMcus, DecodeMcus;
    McusRoundTrip(k, sampling.Order(), mcus, [0, 0, 0], bytes, 0, |bytes| - 1, 0);
  }

  /** What is encoded, with any byte behind it, decodes to what it was. */
  lemma ImageRoundTrip(k: Codings, sampling: Sampling, mcus: seq<Blocks>, last: byte)
    requires k.Valid() && HasMcus(k, sampling.Order(), mcus, [0, 0, 0])
    ensures var bytes := EncodeMcus(k, sampling.Order(), mcus, [0, 0, 0]) + [last];
            var r := DecodeMcus(k, sampling.Order(), |mcus|, StreamBits(bytes), 0, [0, 0, 0]);
            r.Some? && r.value.blocks == Concat(mcus) && 8 * |bytes| <= ByteBoundary(r.value.pos) + 8
  {
    hide HoldsMcus, DecodeMcus, HasMcus, EncodeMcus, Codings.Valid;
    var e := EncodeMcus(k, sampling.Order(), mcus, [0, 0, 0]);
    EncodedHolds(k, sampling.Order(), mcus, [0, 0, 0], [], [last]);
    assert [] + e + [last] == e + [last];
    HeldImagePasses(k, sampling, mcus, e + [last]);
  }
}
