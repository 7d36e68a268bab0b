/** What the codes of JPEG images look like, in numbers and bits. */
module JpegLaws {
  import opened Bytes
  import opened BitString
  import opened Huffman
  import opened BitReader
  import opened JpegBlock

  // ----- Bits -----

  /** The most significant bit comes first. */
  lemma {:induction false} BitsInNumbers(v: nat, n: nat, i: nat)
    requires i < n
    ensures Bits(v, n)[i] <==> v / Pow2(n - 1 - i) % 2 == 1
  {
    if i < n - 1 {
      BitsInNumbers(v / 2, n - 1, i);
      HalfThenMore(v, Pow2(n - 2 - i));
    }
  }

  lemma HalfThenMore(v: nat, d: nat)
    requires d > 0
    ensures v / 2 / d == v / (2 * d)
  {
    var q, r := v / 2 / d, v / 2 % d;
    assert v / 2 == q * d + r;
    assert v == q * (2 * d) + (2 * r + v % 2);
    DivModUnique(v, 2 * d, q, 2 * r + v % 2);
  }

  lemma StreamInNumbers(bytes: seq<byte>, k: nat, j: nat)
    requires k < |bytes| && j < 8
    ensures StreamBits(bytes)[8 * k + j] <==> bytes[k] / Pow2(7 - j) % 2 == 1
  {
    hide Bits;
    assert (8 * k + j) / 8 == k && (8 * k + j) % 8 == j;
    BitsInNumbers(bytes[k], 8, j);
  }

  // ----- Codes -----

  /** The codes as section C.2 assigns them: they start with zeros, and each is the one before it plus one, extended by
      zeros. */
  lemma CodeFollows(c: Counts, e: nat)
    requires e < Total(c)
    ensures e == 0 ==> Code(c, e) == 0
    ensures e > 0 ==> Code(c, e) == (Code(c, e - 1) + 1) * Pow2(Size(c, e) - Size(c, e - 1))
    ensures e > 0 ==> Size(c, e - 1) <= Size(c, e)
  {
    hide SizeFrom, First;
    if e == 0 {
      NothingBefore(c, Size(c, 0));
    } else {
      SizeMonotonic(c, e - 1, e);
      LastOfLength(c, e - 1, e);
    }
  }

  /** With no shorter codes, a length starts with zeros. */
  lemma {:induction false} NothingBefore(c: Counts, l: nat)
    requires 1 <= l <= 17 && Start(c, l) == 0
    ensures First(c, l) == 0
  {
    if l > 1 {
      NothingBefore(c, l - 1);
    }
  }

  lemma LastOfLength(c: Counts, k: nat, e: nat)
    requires e == k + 1 < Total(c) && Size(c, k) <= Size(c, e)
    ensures Code(c, e) == (Code(c, k) + 1) * Pow2(Size(c, e) - Size(c, k))
  {
    hide SizeFrom, First, Size;
    var l, m := Size(c, k), Size(c, e);
    if l < m {
      StartMonotonic(c, l + 1, m);
      assert Start(c, m) == e == Start(c, l + 1);
      NoneBetween(c, l, m);
    }
  }

  lemma {:induction false} NoneBetween(c: Counts, l: nat, m: nat)
    requires 1 <= l < m <= 16 && Start(c, l + 1) == Start(c, m)
    ensures First(c, m) == (First(c, l) + c[l]) * Pow2(m - l)
    decreases m - l
  {
    if l + 1 < m {
      StartMonotonic(c, l + 1, m - 1);
      NoneBetween(c, l, m - 1);
      DoubleProduct(First(c, l) + c[l], Pow2(m - 1 - l), Pow2(m - l));
    } else {
      assert Pow2(m - l) == 2 * Pow2(0);
    }
  }

  // ----- Values -----

  /** The first bit of a magnitude tells the sign, and that of the negative value has all bits the other way. */
  lemma MagnitudeSigns(v: int, i: nat)
    requires v > 0 && i < Category(v)
    ensures Category(-v) == Category(v)
    ensures Magnitude(v) == Bits(v, Category(v)) && Magnitude(v)[0]
    ensures Magnitude(-v)[i] == !Magnitude(v)[i]
  {
    hide CategoryOf, Category;
    var n := Category(v);
    assert Category(-v) == n by {
      SameCategory(v);
    }
    Complement(v, n, i);
    BitsInNumbers(v, n, 0);
    DivModUnique(v, Pow2(n - 1), 1, v - Pow2(n - 1));
  }

  lemma SameCategory(v: int)
    ensures Category(-v) == Category(v)
  {
    hide CategoryOf;
  }

  lemma {:induction false} Complement(v: nat, n: nat, i: nat)
    requires v < Pow2(n) && i < n
    ensures Bits(Pow2(n) - 1 - v, n)[i] == !Bits(v, n)[i]
  {
    var w := Pow2(n) - 1 - v;
    assert w / 2 == Pow2(n - 1) - 1 - v / 2 && w % 2 == 1 - v % 2;
    if i < n - 1 {
      Complement(v / 2, n - 1, i);
    }
  }

  lemma MagnitudesOfFive()
    ensures Magnitude(5) == [true, false, true] && Magnitude(-5) == [false, true, false]
    ensures Magnitude(1) == [true] && Magnitude(-1) == [false]
  {
  }

  // ----- Blocks -----

  /** Five behind two zeros, minus one, and three behind 35 zeros. */
  predicate IsKnown(zz: seq<int>) {
    && |zz| == 64 && zz[3] == 5 && zz[4] == -1 && zz[40] == 3
    && forall i :: 1 <= i < 64 && i !in {3, 4, 40} ==> zz[i] == 0
  }

  /** How such a block is written: runs in the high and categories in the low half of the symbols, with one symbol for
      sixteen zeros and one for the end. */
  lemma KnownBlock(k: Coding, zz: seq<int>)
    requires IsKnown(zz) && HasAC(k, zz, 1)
    ensures k.Has(0x23) && k.Has(0x01) && k.Has(0xF0) && k.Has(0x32) && k.Has(0x00)
    ensures EncodeAC(k, zz, 1) ==
            k.CodeOf(0x23) + [true, false, true] + (k.CodeOf(0x01) + [false] +
            (k.CodeOf(0xF0) + (k.CodeOf(0xF0) + (k.CodeOf(0x32) + [true, true] + k.CodeOf(0x00)))))
  {
    hide Coding.Has, Coding.CodeOf, HasAC, EncodeAC, Category, Magnitude;
    SmallMagnitudes();
    Value(k, zz, 1, 3, 3);
    Value(k, zz, 4, 4, 1);
    Sixteen(k, zz, 5, 40);
    Sixteen(k, zz, 21, 40);
    Value(k, zz, 37, 40, 2);
    TheEnd(k, zz, 41);
  }

  lemma SmallMagnitudes()
    ensures Category(5) == 3 && Category(3) == 2 && Category(-1) == 1
    ensures Magnitude(5) == [true, false, true] && Magnitude(3) == [true, true] && Magnitude(-1) == [false]
  {
    MagnitudesOfFive();
  }

  lemma Value(k: Coding, zz: seq<int>, i: nat, n: nat, size: nat)
    requires i <= n < |zz| && n - i < 16 && zz[n] != 0 && HasAC(k, zz, i) && size == Category(zz[n])
    requires forall j :: i <= j < n ==> zz[j] == 0
    ensures k.Has(16 * (n - i) + size) && HasAC(k, zz, n + 1)
    ensures EncodeAC(k, zz, i) == k.CodeOf(16 * (n - i) + size) + Magnitude(zz[n]) + EncodeAC(k, zz, n + 1)
  {
    hide Category, Magnitude, Coding.Has, Coding.CodeOf;
    assert NextNonzero(zz, i) == n;
  }

  lemma Sixteen(k: Coding, zz: seq<int>, i: nat, n: nat)
    requires i + 16 <= n < |zz| && zz[n] != 0 && HasAC(k, zz, i) && forall j :: i <= j < n ==> zz[j] == 0
    ensures k.Has(0xF0) && HasAC(k, zz, i + 16) && EncodeAC(k, zz, i) == k.CodeOf(0xF0) + EncodeAC(k, zz, i + 16)
  {
    hide Category, Magnitude, Coding.Has, Coding.CodeOf;
    assert NextNonzero(zz, i) == n;
  }

  lemma TheEnd(k: Coding, zz: seq<int>, i: nat)
    requires i < |zz| && HasAC(k, zz, i) && forall j :: i <= j < |zz| ==> zz[j] == 0
    ensures k.Has(0x00) && EncodeAC(k, zz, i) == k.CodeOf(0x00)
  {
    hide Category, Magnitude, Coding.Has, Coding.CodeOf;
    assert NextNonzero(zz, i) == |zz|;
  }

  /** The first coefficient is written as what it is more than the one before. */
  lemma KnownDifference(dc: Coding, ac: Coding, zz: seq<int>, previous: int)
    requires HasBlock(dc, ac, zz, previous) && zz[0] == previous + 5
    ensures dc.Has(3) && EncodeBlock(dc, ac, zz, previous) == dc.CodeOf(3) + [true, false, true] + EncodeAC(ac, zz, 1)
  {
    hide Coding.Has, Coding.CodeOf, HasAC, EncodeAC, Category, Magnitude;
    SmallMagnitudes();
  }

  // ----- The zigzag -----

  /** Antidiagonals are scanned one after another, upwards and downwards in turn, and the lower right half is the upper
      left one turned round. */
  function Rank(r: nat, c: nat): int {
    var d := r + c;
    d * (d + 1) / 2 + if d % 2 == 0 then c else r
  }

  lemma ZigzagInNumbers(r: nat, c: nat)
    requires r < 8 && c < 8
    ensures Zigzag(8 * r + c) == if r + c < 8 then Rank(r, c) else 63 - Rank(7 - r, 7 - c)
  {
    assert (8 * r + c) / 8 == r && (8 * r + c) % 8 == c;
  }
}
