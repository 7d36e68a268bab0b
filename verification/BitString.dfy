/** Bit strings, most significant bit first, and the numbers that stretches of them denote. */
module BitString {
  import opened Bytes

  function Pow2(n: nat): (p: nat)
    ensures p > 0
  {
    if n == 0 then 1 else 2 * Pow2(n - 1)
  }

  function Bit(b: bool): nat {
    if b then 1 else 0
  }

  /** The number denoted by the `n` bits from position `p` on. */
  function Window(s: seq<bool>, p: nat, n: nat): nat
    requires p + n <= |s|
  {
    if n == 0 then 0 else 2 * Window(s, p, n - 1) + Bit(s[p + n - 1])
  }

  /** The `n`-bit string that denotes `v`. */
  function Bits(v: nat, n: nat): (s: seq<bool>)
    ensures |s| == n
  {
    if n == 0 then [] else Bits(v / 2, n - 1) + [v % 2 == 1]
  }

  /** The bits of a byte string. */
  function StreamBits(bytes: seq<byte>): (s: seq<bool>)
    ensures |s| == 8 * |bytes|
  {
    seq(8 * |bytes|, i requires 0 <= i < 8 * |bytes| => Bits(bytes[i / 8], 8)[i % 8])
  }

  lemma {:induction false} PowAdd(a: nat, b: nat)
    ensures Pow2(a + b) == Pow2(a) * Pow2(b)
  {
    if b > 0 {
      PowAdd(a, b - 1);
    }
  }

  lemma {:induction false} WindowBound(s: seq<bool>, p: nat, n: nat)
    requires p + n <= |s|
    ensures Window(s, p, n) < Pow2(n)
  {
    if n > 0 {
      WindowBound(s, p, n - 1);
    }
  }

  lemma DoubleProduct(w: int, d: int, dd: int)
    requires dd == 2 * d
    ensures w * dd == 2 * (w * d)
  {
  }

  lemma {:induction false} WindowConcat(s: seq<bool>, p: nat, a: nat, b: nat)
    requires p + a + b <= |s|
    ensures Window(s, p, a + b) == Window(s, p, a) * Pow2(b) + Window(s, p + a, b)
  {
    if b > 0 {
      WindowConcat(s, p, a, b - 1);
      DoubleProduct(Window(s, p, a), Pow2(b - 1), Pow2(b));
    }
  }

  /** Shifting and masking a window gives its two parts. */
  lemma WindowSplit(s: seq<bool>, p: nat, a: nat, b: nat)
    requires p + a + b <= |s|
    ensures Window(s, p, a + b) / Pow2(b) == Window(s, p, a)
    ensures Window(s, p, a + b) % Pow2(b) == Window(s, p + a, b)
  {
    WindowConcat(s, p, a, b);
    WindowBound(s, p + a, b);
    DivModUnique(Window(s, p, a + b), Pow2(b), Window(s, p, a), Window(s, p + a, b));
  }

  lemma DivModUnique(n: int, d: nat, q: int, r: int)
    requires d > 0 && n == q * d + r && 0 <= r < d
    ensures n / d == q && n % d == r
  {
    SmallMultiple(q - n / d, d);
    assert (q - n / d) * d == n % d - r;
  }

  lemma SmallMultiple(k: int, d: int)
    requires d > 0
    ensures -d < k * d < d ==> k == 0
  {
  }

  /** Windows of equal bits are equal. */
  lemma {:induction false} WindowEqual(s: seq<bool>, p: nat, t: seq<bool>, q: nat, n: nat)
    requires p + n <= |s| && q + n <= |t| && s[p..p + n] == t[q..q + n]
    ensures Window(s, p, n) == Window(t, q, n)
  {
    if n > 0 {
      assert s[p..p + n][..n - 1] == s[p..p + (n - 1)] && t[q..q + n][..n - 1] == t[q..q + (n - 1)];
      WindowEqual(s, p, t, q, n - 1);
      assert s[p + n - 1] == s[p..p + n][n - 1] && t[q + n - 1] == t[q..q + n][n - 1];
    }
  }

  /** Does the string `e` start at `p`? */
  ghost predicate StartsAt(s: seq<bool>, p: nat, e: seq<bool>) {
    p + |e| <= |s| && s[p..p + |e|] == e
  }

  lemma StartsInPieces(s: seq<bool>, p: nat, a: seq<bool>, b: seq<bool>)
    requires StartsAt(s, p, a + b)
    ensures StartsAt(s, p, a) && StartsAt(s, p + |a|, b)
  {
    assert s[p..p + |a + b|][..|a|] == s[p..p + |a|];
    assert s[p..p + |a + b|][|a|..] == s[p + |a|..p + |a| + |b|];
  }

  lemma {:induction false} WindowOfBits(v: nat, n: nat)
    requires v < Pow2(n)
    ensures Window(Bits(v, n), 0, n) == v
  {
    if n > 0 {
      WindowOfBits(v / 2, n - 1);
      assert Bits(v, n)[0..0 + (n - 1)] == Bits(v / 2, n - 1);
      assert Bits(v / 2, n - 1)[0..0 + (n - 1)] == Bits(v / 2, n - 1);
      WindowEqual(Bits(v, n), 0, Bits(v / 2, n - 1), 0, n - 1);
    }
  }

  /** Eight bits of a stream, on a byte boundary, are a byte. */
  lemma WindowOfByte(bytes: seq<byte>, k: nat)
    requires k < |bytes|
    ensures Window(StreamBits(bytes), 8 * k, 8) == bytes[k]
  {
    hide Window, Bits;
    var s, b := StreamBits(bytes), Bits(bytes[k], 8);
    assert Pow2(8) == 256;
    WindowOfBits(bytes[k], 8);
    assert s[8 * k..8 * k + 8] == b by {
      forall i | 0 <= i < 8 ensures s[8 * k..8 * k + 8][i] == b[i] {
        assert (8 * k + i) / 8 == k && (8 * k + i) % 8 == i;
      }
    }
    assert b[0..0 + 8] == b;
    WindowEqual(s, 8 * k, b, 0, 8);
  }

  lemma {:induction false} BitsOfWindow(s: seq<bool>, p: nat, n: nat)
    requires p + n <= |s|
    ensures Bits(Window(s, p, n), n) == s[p..p + n]
  {
    if n > 0 {
      BitsOfWindow(s, p, n - 1);
      assert s[p..p + n] == s[p..p + (n - 1)] + [s[p + n - 1]];
    }
  }

  /** Bits in whole bytes, padded with zeros. */
  function Pack(bits: seq<bool>): (bytes: seq<byte>)
    ensures |bytes| == (|bits| + 7) / 8
  {
    seq((|bits| + 7) / 8, i requires 0 <= i < (|bits| + 7) / 8 => PackedByte(bits, i))
  }

  function PackedByte(bits: seq<bool>, i: nat): byte
    requires i < (|bits| + 7) / 8
  {
    var padded := bits + seq(7, _ => false);
    WindowBound(padded, 8 * i, 8);
    assert Pow2(8) == 256;
    Window(padded, 8 * i, 8)
  }

  /** Packed bits can be read back from any place in a stream. */
  lemma PackedBits(front: seq<byte>, bits: seq<bool>, back: seq<byte>)
    ensures 8 * |front| + |bits| <= |StreamBits(front + Pack(bits) + back)|
    ensures StreamBits(front + Pack(bits) + back)[8 * |front|..8 * |front| + |bits|] == bits
  {
    hide Window, Bits;
    var stream, at := StreamBits(front + Pack(bits) + back), 8 * |front|;
    forall i | 0 <= i < |bits| ensures stream[at + i] == bits[i] {
      var padded, k := bits + seq(7, _ => false), i / 8;
      assert (at + i) / 8 == |front| + k && (at + i) % 8 == i % 8;
      BitsOfWindow(padded, 8 * k, 8);
      assert padded[8 * k..8 * k + 8][i % 8] == bits[i];
    }
  }
}
