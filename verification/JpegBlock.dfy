/** One block of 64 coefficients: decoding as in sections F.2.2.1 and F.2.2.2 of ITU-T T.81, encoding
    as in section F.1.2, and the way back. */
module JpegBlock {
  import opened Bytes
  import opened BitString
  import opened Huffman
  import opened HuffmanTable
  import opened HuffmanDecoder
  import opened BitReader
  import opened Wrappers

  const BLOCK_SIZE: nat := 64

  /** A Huffman code with its symbols. */
  datatype Coding = Coding(c: Counts, vals: seq<byte>) {
    ghost predicate Valid() {
      Kraft(c) && Total(c) <= 256 && DistinctSymbols(c, vals) && Start(c, 10) > 0
    }

    /** The symbol for number categories of DC differences is the number of bits that follow; a `short` holds
        sixteen. */
    ghost predicate IsDC() {
      forall e :: 0 <= e < Total(c) && e < |vals| ==> vals[e] <= 16
    }

    ghost predicate Has(symbol: nat) {
      exists e :: 0 <= e < Total(c) && e < |vals| && vals[e] == symbol
    }

    ghost function Index(symbol: nat): (e: nat)
      requires Has(symbol)
      ensures e < Total(c) && e < |vals| && vals[e] == symbol
    {
      var e :| 0 <= e < Total(c) && e < |vals| && vals[e] == symbol;
      e
    }

    /** The code of a symbol. */
    ghost function CodeOf(symbol: nat): (s: seq<bool>)
      requires Has(symbol)
      ensures |s| > 0
    {
      Bits(Code(c, Index(symbol)), Size(c, Index(symbol)))
    }
  }

  /** A C `short`. */
  function Wrap16(v: int): (r: int)
    ensures -0x8000 <= r < 0x8000
    ensures -0x8000 <= v < 0x8000 ==> r == v
    ensures (v - r) % 0x1_0000 == 0
  {
    (v + 0x8000) % 0x1_0000 - 0x8000
  }

  // ----- Decoding, for any input -----

  /** AC coefficients from index `j` on; the result is the block in zigzag order and the position
      behind it. Symbols with neither a size nor a meaning as a run are skipped. */
  ghost function DecodeAC(k: Coding, s: seq<bool>, p: nat, j: nat, zz: seq<int>): (r: Option<(seq<int>, nat)>)
    requires |zz| == BLOCK_SIZE && Total(k.c) <= |k.vals|
    ensures r.Some? ==> |r.value.0| == BLOCK_SIZE
    decreases |s| - p
  {
    if j >= BLOCK_SIZE then Some((zz, p))
    else match SymbolAt(k.c, s, p)
      case None => None
      case Some(e) =>
        var size, run, q := k.vals[e] % 16, k.vals[e] / 16, p + Size(k.c, e);
        if size == 0 then
          if run == 0 then Some((zz, q)) else DecodeAC(k, s, q, if run == 15 then j + 16 else j, zz)
        else if j + run < BLOCK_SIZE then
          if q + size > |s| then None
          else DecodeAC(k, s, q + size, j + run + 1, zz[j + run := Extend(Window(s, q, size), size)])
        else Some((zz, q))
  }

  /** The DC coefficient: a difference to the previous one. */
  ghost function DecodeDC(k: Coding, s: seq<bool>, p: nat, previous: int): Option<(int, nat)>
    requires Total(k.c) <= |k.vals|
  {
    match SymbolAt(k.c, s, p)
    case None => None
    case Some(e) =>
      var size, q := k.vals[e], p + Size(k.c, e);
      if size == 0 then Some((previous, q))
      else if q + size > |s| then None
      else Some((Wrap16(Extend(Window(s, q, size), size) + previous), q + size))
  }

  function ZeroBlock(): (zz: seq<int>)
    ensures |zz| == BLOCK_SIZE && forall k :: 0 <= k < BLOCK_SIZE ==> zz[k] == 0
  {
    seq(BLOCK_SIZE, _ => 0)
  }

  /** A block in zigzag order, and the position behind it. */
  ghost function DecodeBlock(dc: Coding, ac: Coding, s: seq<bool>, p: nat, previous: int): (r: Option<(seq<int>, nat)>)
    requires Total(dc.c) <= |dc.vals| && Total(ac.c) <= |ac.vals|
    ensures r.Some? ==> |r.value.0| == BLOCK_SIZE
  {
    match DecodeDC(dc, s, p, previous)
    case None => None
    case Some((v, q)) => DecodeAC(ac, s, q, 1, ZeroBlock()[0 := v])
  }

  // ----- Encoding -----

  function Abs(v: int): nat {
    if v < 0 then -v else v
  }

  /** The number of magnitude bits of a value. */
  function Category(v: int): (n: nat)
    ensures Abs(v) < Pow2(n)
    ensures n > 0 ==> Pow2(n - 1) <= Abs(v)
    ensures n == 0 <==> v == 0
  {
    CategoryOf(Abs(v))
  }

  function CategoryOf(a: nat): (n: nat)
    ensures a < Pow2(n)
    ensures n > 0 ==> Pow2(n - 1) <= a
    ensures n == 0 <==> a == 0
  {
    if a == 0 then 0 else 1 + CategoryOf(a / 2)
  }

  function Magnitude(v: int): (s: seq<bool>)
    ensures |s| == Category(v)
  {
    Bits(if v < 0 then v + Pow2(Category(v)) - 1 else v, Category(v))
  }

  lemma MagnitudeRoundTrip(v: int, s: seq<bool>, p: nat)
    requires v != 0 && p + Category(v) <= |s| && s[p..p + Category(v)] == Magnitude(v)
    ensures Extend(Window(s, p, Category(v)), Category(v)) == v
  {
    var n := Category(v);
    var m := if v < 0 then v + Pow2(n) - 1 else v;
    assert Magnitude(v)[0..0 + n] == Magnitude(v);
    WindowEqual(s, p, Magnitude(v), 0, n);
    WindowOfBits(m, n);
  }

  function NextNonzero(zz: seq<int>, i: nat): (n: nat)
    requires i <= |zz|
    ensures i <= n <= |zz| && (forall k :: i <= k < n ==> zz[k] == 0) && (n < |zz| ==> zz[n] != 0)
    decreases |zz| - i
  {
    if i < |zz| && zz[i] == 0 then NextNonzero(zz, i + 1) else i
  }

  const END_OF_BLOCK: nat := 0x00
  const SIXTEEN_ZEROS: nat := 0xF0

  /** Does the code have all symbols for the coefficients from index `i` on? */
  ghost predicate HasAC(k: Coding, zz: seq<int>, i: nat)
    requires i <= |zz|
    decreases |zz| - i
  {
    var n := NextNonzero(zz, i);
    if n == |zz| then i == n || k.Has(END_OF_BLOCK)
    else if n - i >= 16 then k.Has(SIXTEEN_ZEROS) && HasAC(k, zz, i + 16)
    else k.Has(16 * (n - i) + Category(zz[n])) && Category(zz[n]) <= 15 && HasAC(k, zz, n + 1)
  }

  ghost function EncodeAC(k: Coding, zz: seq<int>, i: nat): seq<bool>
    requires i <= |zz| && HasAC(k, zz, i)
    decreases |zz| - i
  {
    var n := NextNonzero(zz, i);
    if n == |zz| then if i == n then [] else k.CodeOf(END_OF_BLOCK)
    else if n - i >= 16 then k.CodeOf(SIXTEEN_ZEROS) + EncodeAC(k, zz, i + 16)
    else k.CodeOf(16 * (n - i) + Category(zz[n])) + Magnitude(zz[n]) + EncodeAC(k, zz, n + 1)
  }

  ghost predicate HasBlock(dc: Coding, ac: Coding, zz: seq<int>, previous: int) {
    && |zz| == BLOCK_SIZE
    && -0x8000 <= zz[0] < 0x8000
    && dc.Has(Category(zz[0] - previous))
    && HasAC(ac, zz, 1)
  }

  ghost function EncodeBlock(dc: Coding, ac: Coding, zz: seq<int>, previous: int): (s: seq<bool>)
    requires HasBlock(dc, ac, zz, previous)
    ensures |s| > 0
  {
    dc.CodeOf(Category(zz[0] - previous)) + Magnitude(zz[0] - previous) + EncodeAC(ac, zz, 1)
  }

  // ----- The way back -----

  lemma SymbolRoundTrip(k: Coding, symbol: nat, s: seq<bool>, p: nat)
    requires k.Valid() && k.Has(symbol) && StartsAt(s, p, k.CodeOf(symbol)) && p + HASH_BITS <= |s|
    ensures SymbolAt(k.c, s, p) == Some(k.Index(symbol))
    ensures Size(k.c, k.Index(symbol)) == |k.CodeOf(symbol)|
  {
    CodeFound(k.c, k.Index(symbol), s, p);
  }

  /** A block of which the coefficients below index `i` have been decoded. */
  function Partial(zz: seq<int>, i: nat): (r: seq<int>)
    requires |zz| == BLOCK_SIZE && i <= BLOCK_SIZE
    ensures |r| == BLOCK_SIZE && forall k :: 0 <= k < BLOCK_SIZE ==> r[k] == if k < i then zz[k] else 0
  {
    zz[..i] + seq(BLOCK_SIZE - i, _ => 0)
  }

  lemma {:induction false} ACRoundTrip(k: Coding, zz: seq<int>, i: nat, s: seq<bool>, p: nat)
    requires k.Valid() && |zz| == BLOCK_SIZE && i <= BLOCK_SIZE && HasAC(k, zz, i)
    requires StartsAt(s, p, EncodeAC(k, zz, i)) && p + |EncodeAC(k, zz, i)| + 8 <= |s|
    ensures DecodeAC(k, s, p, i, Partial(zz, i)) == Some((zz, p + |EncodeAC(k, zz, i)|))
    decreases BLOCK_SIZE - i
  {
    hide Window, Extend, CategoryOf, Category, Magnitude, SymbolAt, Coding.CodeOf, Coding.Index, Coding.Has,
         Coding.Valid, Size, StartsAt, DecodeAC, Partial, NextNonzero;
    var n := NextNonzero(zz, i);
    if n == BLOCK_SIZE {
      EndRoundTrip(k, zz, i, s, p);
    } else if n - i >= 16 {
      var code, rest := k.CodeOf(SIXTEEN_ZEROS), EncodeAC(k, zz, i + 16);
      StartsInPieces(s, p, code, rest);
      ZerosRoundTrip(k, zz, i, n, s, p);
      ACRoundTrip(k, zz, i + 16, s, p + |code|);
    } else {
      var size := Category(zz[n]);
      var code, rest := k.CodeOf(16 * (n - i) + size), EncodeAC(k, zz, n + 1);
      StartsInPieces(s, p, code + Magnitude(zz[n]), rest);
      CoefficientRoundTrip(k, zz, i, n, s, p);
      ACRoundTrip(k, zz, n + 1, s, p + |code| + size);
    }
  }

  lemma EndRoundTrip(k: Coding, zz: seq<int>, i: nat, s: seq<bool>, p: nat)
    requires k.Valid() && |zz| == BLOCK_SIZE && i <= BLOCK_SIZE && NextNonzero(zz, i) == BLOCK_SIZE && HasAC(k, zz, i)
    requires StartsAt(s, p, EncodeAC(k, zz, i)) && p + |EncodeAC(k, zz, i)| + 8 <= |s|
    ensures DecodeAC(k, s, p, i, Partial(zz, i)) == Some((zz, p + |EncodeAC(k, zz, i)|))
  {
    hide Window, Extend, CategoryOf, Category, Magnitude, SymbolAt, Coding.CodeOf, Coding.Index, Coding.Valid,
         Size, StartsAt;
    assert Partial(zz, i) == zz;
    if i < BLOCK_SIZE {
      SymbolRoundTrip(k, END_OF_BLOCK, s, p);
    }
  }

  lemma ZerosRoundTrip(k: Coding, zz: seq<int>, i: nat, n: nat, s: seq<bool>, p: nat)
    requires k.Valid() && |zz| == BLOCK_SIZE && i <= n < BLOCK_SIZE && n == NextNonzero(zz, i) && n - i >= 16
    requires k.Has(SIXTEEN_ZEROS) && StartsAt(s, p, k.CodeOf(SIXTEEN_ZEROS)) && p + HASH_BITS <= |s|
    ensures DecodeAC(k, s, p, i, Partial(zz, i)) ==
            DecodeAC(k, s, p + |k.CodeOf(SIXTEEN_ZEROS)|, i + 16, Partial(zz, i + 16))
  {
    hide Window, Extend, CategoryOf, Category, Magnitude, SymbolAt, Coding.CodeOf, Coding.Index, Coding.Valid,
         Size, StartsAt;
    SymbolRoundTrip(k, SIXTEEN_ZEROS, s, p);
    assert Partial(zz, i) == Partial(zz, i + 16);
  }

  /** A run of zeros and the coefficient behind it. */
  lemma CoefficientRoundTrip(k: Coding, zz: seq<int>, i: nat, n: nat, s: seq<bool>, p: nat)
    requires k.Valid() && |zz| == BLOCK_SIZE && i <= n < BLOCK_SIZE && n - i < 16 && n == NextNonzero(zz, i) &&
             Category(zz[n]) <= 15
    requires k.Has(16 * (n - i) + Category(zz[n])) && HasAC(k, zz, n + 1)
    requires StartsAt(s, p, k.CodeOf(16 * (n - i) + Category(zz[n])) + Magnitude(zz[n]) + EncodeAC(k, zz, n + 1))
    requires p + |k.CodeOf(16 * (n - i) + Category(zz[n]))| + Category(zz[n]) + 8 <= |s|
    ensures var code, size := k.CodeOf(16 * (n - i) + Category(zz[n])), Category(zz[n]);
            DecodeAC(k, s, p, i, Partial(zz, i)) == DecodeAC(k, s, p + |code| + size, n + 1, Partial(zz, n + 1))
  {
    hide Window, Extend, CategoryOf, EncodeAC, HasAC, Category, Magnitude, SymbolAt, Coding.CodeOf,
         Coding.Index, Coding.Has, Coding.Valid, Size, StartsAt;
    var size := Category(zz[n]);
    var symbol := 16 * (n - i) + size;
    var code := k.CodeOf(symbol);
    StartsInPieces(s, p, code + Magnitude(zz[n]), EncodeAC(k, zz, n + 1));
    StartsInPieces(s, p, code, Magnitude(zz[n]));
    SymbolRoundTrip(k, symbol, s, p);
    MagnitudeRoundTrip(zz[n], s, p + |code|);
    assert symbol % 16 == size && symbol / 16 == n - i;
    assert Partial(zz, i)[n := zz[n]] == Partial(zz, n + 1);
  }

  /** A block decodes to what was encoded, if eight more bits follow it. */
  lemma BlockRoundTrip(dc: Coding, ac: Coding, zz: seq<int>, previous: int, s: seq<bool>, p: nat)
    requires dc.Valid() && ac.Valid() && HasBlock(dc, ac, zz, previous)
    requires StartsAt(s, p, EncodeBlock(dc, ac, zz, previous)) && p + |EncodeBlock(dc, ac, zz, previous)| + 8 <= |s|
    ensures DecodeBlock(dc, ac, s, p, previous) == Some((zz, p + |EncodeBlock(dc, ac, zz, previous)|))
  {
    hide Window, Extend, CategoryOf, EncodeAC, HasAC, DecodeAC, Partial, ZeroBlock, Category, Magnitude,
         SymbolAt, Coding.CodeOf, Coding.Index, Coding.Has, Coding.Valid, Size, StartsAt;
    var diff := zz[0] - previous;
    var code, rest := dc.CodeOf(Category(diff)), EncodeAC(ac, zz, 1);
    StartsInPieces(s, p, code + Magnitude(diff), rest);
    StartsInPieces(s, p, code, Magnitude(diff));
    SymbolRoundTrip(dc, Category(diff), s, p);
    if diff != 0 {
      MagnitudeRoundTrip(diff, s, p + |code|);
    }
    assert ZeroBlock()[0 := zz[0]] == Partial(zz, 1);
    ACRoundTrip(ac, zz, 1, s, p + |code| + Category(diff));
  }

  // ----- The decoder -----

  /** The position in zigzag order of coefficient `j` of the natural order. */
  function Zigzag(j: nat): (k: nat)
    requires j < BLOCK_SIZE
    ensures k < BLOCK_SIZE
  {
    var column := j % 8;
    match j / 8
    case 0 => [ 0,  1,  5,  6, 14, 15, 27, 28][column]
    case 1 => [ 2,  4,  7, 13, 16, 26, 29, 42][column]
    case 2 => [ 3,  8, 12, 17, 25, 30, 41, 43][column]
    case 3 => [ 9, 11, 18, 24, 31, 40, 44, 53][column]
    case 4 => [10, 19, 23, 32, 39, 45, 52, 54][column]
    case 5 => [20, 22, 33, 38, 46, 51, 55, 60][column]
    case 6 => [21, 34, 37, 47, 50, 56, 59, 61][column]
    case _ => [35, 36, 48, 49, 57, 58, 62, 63][column]
  }

  /** The way a block is scanned: the coefficient at position `k` of the zigzag order. */
  function Scan(k: nat): (j: nat)
    requires k < BLOCK_SIZE
    ensures j < BLOCK_SIZE
  {
    var column := k % 8;
    match k / 8
    case 0 => [ 0,  1,  8, 16,  9,  2,  3, 10][column]
    case 1 => [17, 24, 32, 25, 18, 11,  4,  5][column]
    case 2 => [12, 19, 26, 33, 40, 48, 41, 34][column]
    case 3 => [27, 20, 13,  6,  7, 14, 21, 28][column]
    case 4 => [35, 42, 49, 56, 57, 50, 43, 36][column]
    case 5 => [29, 22, 15, 23, 30, 37, 44, 51][column]
    case 6 => [58, 59, 52, 45, 38, 31, 39, 46][column]
    case _ => [53, 60, 61, 54, 47, 55, 62, 63][column]
  }

  lemma ScanOfZigzag(j: nat)
    requires j < BLOCK_SIZE
    ensures Scan(Zigzag(j)) == j
  {
    if j < 32 {
      ScanOfUpperHalf(j);
    } else {
      ScanOfLowerHalf(j);
    }
  }

  lemma ScanOfUpperHalf(j: nat)
    requires j < 32
    ensures Scan(Zigzag(j)) == j
  {
    assert j == 8 * (j / 8) + j % 8;
  }

  lemma ScanOfLowerHalf(j: nat)
    requires 32 <= j < BLOCK_SIZE
    ensures Scan(Zigzag(j)) == j
  {
    assert j == 8 * (j / 8) + j % 8;
  }

  /** A block in natural order, from one in zigzag order ... */
  function Natural(zz: seq<int>): (r: seq<int>)
    requires |zz| == BLOCK_SIZE
    ensures |r| == BLOCK_SIZE
  {
    seq(BLOCK_SIZE, j requires 0 <= j < BLOCK_SIZE => zz[Zigzag(j)])
  }

  /** ... and back. */
  function Scanned(block: seq<int>): (r: seq<int>)
    requires |block| == BLOCK_SIZE
    ensures |r| == BLOCK_SIZE
  {
    seq(BLOCK_SIZE, k requires 0 <= k < BLOCK_SIZE => block[Scan(k)])
  }

  lemma NaturalOfScanned(block: seq<int>)
    requires |block| == BLOCK_SIZE
    ensures Natural(Scanned(block)) == block
  {
    forall j | 0 <= j < BLOCK_SIZE ensures Natural(Scanned(block))[j] == block[j] {
      ScanOfZigzag(j);
    }
  }

  class Component {
    const dcTable: Table
    const acTable: Table
    // the coefficients of the last block, in natural order
    const dct: array<int>
    var previousDC: int

    constructor (dcTable: Table, acTable: Table)
      ensures this.dcTable == dcTable && this.acTable == acTable && previousDC == 0
      ensures fresh(dct) && dct.Length == BLOCK_SIZE
    {
      this.dcTable, this.acTable, previousDC := dcTable, acTable, 0;
      dct := new int[BLOCK_SIZE];
    }

    /** Are these the codes behind the tables? */
    ghost predicate Uses(dc: Coding, ac: Coding)
      reads dcTable.lookup, dcTable.codeSize, dcTable.slowtable, acTable.lookup, acTable.codeSize, acTable.slowtable
    {
      && TableFor(dcTable, dc.c, dc.vals) && TableFor(acTable, ac.c, ac.vals)
      && Total(dc.c) <= |dc.vals| && Total(ac.c) <= |ac.vals| && dc.IsDC()
      && dct.Length == BLOCK_SIZE
    }

    method DecodeDifference(reader: Reader, ghost dc: Coding, ghost ac: Coding) returns (ok: bool, value: int)
      requires reader.Valid() && Uses(dc, ac)
      modifies reader
      ensures reader.Valid()
      ensures var r := DecodeDC(dc, StreamBits(reader.stream), old(reader.BitPos()), previousDC);
              (ok <==> r.Some?) && (ok ==> (value, reader.BitPos()) == r.value)
    {
      hide Window, Extend, Represents, SymbolAt, Size, ReadAsDecoded;
      var size;
      ok, size := GetNextHuffmanCode(reader, dcTable, dc.c, dc.vals);
      value := previousDC;
      if ok && size != 0 {
        ok, value := reader.GetNbits(size);
        value := Wrap16(value + previousDC);
      }
    }

    method DecodeCoefficients(reader: Reader, block: array<int>, ghost dc: Coding, ghost ac: Coding) returns (ok: bool)
      requires reader.Valid() && Uses(dc, ac) && block.Length == BLOCK_SIZE
      requires block != acTable.lookup && block != dcTable.lookup
      modifies reader, block
      ensures reader.Valid()
      ensures var r := DecodeAC(ac, StreamBits(reader.stream), old(reader.BitPos()), 1, old(block[..]));
              (ok <==> r.Some?) && (ok ==> (block[..], reader.BitPos()) == r.value)
    {
      hide Window, Extend, TableFor, Size, SymbolAt, DecodeAC, ReadAsDecoded;
      ghost var s, zz := StreamBits(reader.stream), block[..];
      ghost var result := DecodeAC(ac, s, reader.BitPos(), 1, zz);
      var j := 1;
      while j < BLOCK_SIZE
        invariant 1 <= j && reader.Valid() && Uses(dc, ac) && block[..] == zz
        invariant DecodeAC(ac, s, reader.BitPos(), j, zz) == result
        decreases |s| - reader.BitPos()
      {
        DecodeACUnfolds(ac, s, reader.BitPos(), j, zz);
        var code;
        ok, code := GetNextHuffmanCode(reader, acTable, ac.c, ac.vals);
        if !ok {
          return;
        }
        var size, run := code % 16, code / 16;
        if size == 0 {
          if run == 0 {
            return;
          } else if run == 15 {
            j := j + 16;
          }
        } else {
          j := j + run;
          if j < BLOCK_SIZE {
            var value;
            ok, value := reader.GetNbits(size);
            if !ok {
              return;
            }
            block[j], zz := value, zz[j := value];
            j := j + 1;
          }
        }
      }
      DecodeACEnds(ac, s, reader.BitPos(), j, zz);
      ok := true;
    }

    /** Decodes a block exactly as specified, for any input. */
    method ProcessHuffmanDataUnit(reader: Reader, ghost dc: Coding, ghost ac: Coding) returns (ok: bool)
      requires reader.Valid() && Uses(dc, ac) && dct != dcTable.lookup && dct != acTable.lookup
      modifies reader, this`previousDC, dct
      ensures reader.Valid() && Uses(dc, ac)
      ensures var r := DecodeBlock(dc, ac, StreamBits(reader.stream), old(reader.BitPos()), old(previousDC));
              (ok <==> r.Some?) && (ok ==> BlockDecoded(reader, r.value.0, r.value.1))
    {
      hide DecodeAC, DecodeDC, TableFor, SymbolAt, Window, Natural, ReadAsDecoded;
      var value;
      ok, value := DecodeDifference(reader, dc, ac);
      if !ok {
        return;
      }
      previousDC := value;
      var block := new int[BLOCK_SIZE](_ => 0);
      block[0] := value;
      assert block[..] == ZeroBlock()[0 := value];
      ghost var start := reader.BitPos();
      ok := DecodeCoefficients(reader, block, dc, ac);
      if !ok {
        return;
      }
      DecodeACKeepsDC(ac, StreamBits(reader.stream), start, 1, ZeroBlock()[0 := value]);
      CopyNatural(block);
    }

    ghost predicate BlockDecoded(reader: Reader, zz: seq<int>, q: nat)
      reads this, dct, reader
      requires |zz| == BLOCK_SIZE && reader.Valid()
    {
      reader.BitPos() == q && previousDC == zz[0] && dct[..] == Natural(zz)
    }

    method CopyNatural(block: array<int>)
      requires block.Length == dct.Length == BLOCK_SIZE && block != dct
      modifies dct
      ensures dct[..] == Natural(block[..])
    {
      forall j | 0 <= j < BLOCK_SIZE {
        dct[j] := block[Zigzag(j)];
      }
    }
  }

  lemma {:induction false} DecodeACKeepsDC(k: Coding, s: seq<bool>, p: nat, j: nat, zz: seq<int>)
    requires |zz| == BLOCK_SIZE && 1 <= j && Total(k.c) <= |k.vals| && DecodeAC(k, s, p, j, zz).Some?
    ensures DecodeAC(k, s, p, j, zz).value.0[0] == zz[0]
    decreases |s| - p
  {
    hide Window, Extend, SymbolAt, DecodeAC, Size;
    if j >= BLOCK_SIZE {
      DecodeACEnds(k, s, p, j, zz);
    } else {
      DecodeACUnfolds(k, s, p, j, zz);
      var e := SymbolAt(k.c, s, p).value;
      var size, run, q := k.vals[e] % 16, k.vals[e] / 16, p + Size(k.c, e);
      if size == 0 {
        if run != 0 {
          DecodeACKeepsDC(k, s, q, if run == 15 then j + 16 else j, zz);
        }
      } else if j + run < BLOCK_SIZE {
        DecodeACKeepsDC(k, s, q + size, j + run + 1, zz[j + run := Extend(Window(s, q, size), size)]);
      } else {
        DecodeACKeepsDC(k, s, q, j + run, zz);
      }
    }
  }

  lemma DecodeACEnds(k: Coding, s: seq<bool>, p: nat, j: nat, zz: seq<int>)
    requires |zz| == BLOCK_SIZE <= j && Total(k.c) <= |k.vals|
    ensures DecodeAC(k, s, p, j, zz) == Some((zz, p))
  {
  }

  lemma DecodeACUnfolds(k: Coding, s: seq<bool>, p: nat, j: nat, zz: seq<int>)
    requires |zz| == BLOCK_SIZE > j && Total(k.c) <= |k.vals|
    ensures var e := SymbolAt(k.c, s, p);
            if e.None? then DecodeAC(k, s, p, j, zz) == None
            else
              var size, run, q := k.vals[e.value] % 16, k.vals[e.value] / 16, p + Size(k.c, e.value);
              q <= |s| &&
              if size == 0 then
                DecodeAC(k, s, p, j, zz) == if run == 0 then Some((zz, q))
                                            else DecodeAC(k, s, q, if run == 15 then j + 16 else j, zz)
              else if j + run >= BLOCK_SIZE then DecodeAC(k, s, p, j, zz) == DecodeAC(k, s, q, j + run, zz)
              else if q + size > |s| then DecodeAC(k, s, p, j, zz) == None
              else DecodeAC(k, s, p, j, zz) ==
                   DecodeAC(k, s, q + size, j + run + 1, zz[j + run := Extend(Window(s, q, size), size)])
  {
    hide Window, Extend, SymbolAt, Size;
  }
}
