/** Bytes, byte strings and the little arithmetic on them that the drivers use. */
module Bytes {

  type byte = x: int | 0 <= x < 256

  /** `dst` after `memcpy (dst + offset, data, |data|)`. */
  function Splice(dst: seq<byte>, offset: nat, data: seq<byte>): (r: seq<byte>)
    requires offset + |data| <= |dst|
    ensures |r| == |dst|
    ensures forall i :: 0 <= i < |r| ==> r[i] == if offset <= i < offset + |data| then data[i - offset] else dst[i]
  {
    dst[..offset] + data + dst[offset + |data|..]
  }

  lemma SpliceSplice(dst: seq<byte>, offset: nat, a: seq<byte>, b: seq<byte>)
    requires offset + |a| + |b| <= |dst|
    ensures Splice(Splice(dst, offset, a), offset + |a|, b) == Splice(dst, offset, a + b)
  {
  }

  /** The sum of the bytes of `s`, the quantity behind the device's checksum command. */
  function Sum(s: seq<byte>): nat {
    if s == [] then 0 else Sum(s[..|s| - 1]) + s[|s| - 1]
  }

  lemma {:induction false} SumInPieces(a: seq<byte>, b: seq<byte>)
    ensures Sum(a + b) == Sum(a) + Sum(b)
    ensures |a| == 1 ==> Sum(a) == a[0]
  {
    if |a| == 1 {
      assert a[..0] == [];
    }
    if b == [] {
      assert a + b == a;
    } else {
      SumInPieces(a, b[..|b| - 1]);
      assert (a + b)[..|a + b| - 1] == a + b[..|b| - 1];
    }
  }

  /** Bitwise AND of two `n`-bit numbers. */
  function And(n: nat, a: nat, b: nat): (r: nat)
    ensures r <= b
  {
    if n == 0 then 0 else 2 * And(n - 1, a / 2, b / 2) + (a % 2) * (b % 2)
  }

  /** Bit `k` of a number, from the least significant one on. */
  function BitAt(a: nat, k: nat): nat {
    if k == 0 then a % 2 else BitAt(a / 2, k - 1)
  }

  lemma {:induction false} AndBitwise(n: nat, a: nat, b: nat, k: nat)
    requires k < n
    ensures BitAt(And(n, a, b), k) == BitAt(a, k) * BitAt(b, k)
  {
    var rest := And(n - 1, a / 2, b / 2);
    if k == 0 {
      LastBits(a % 2, b % 2, rest);
    } else {
      AndBitwise(n - 1, a / 2, b / 2, k - 1);
      LastBits(a % 2, b % 2, rest);
    }
  }

  lemma LastBits(x: nat, y: nat, rest: nat)
    requires x < 2 && y < 2
    ensures (2 * rest + x * y) % 2 == x * y && (2 * rest + x * y) / 2 == rest
  {
    assert x * y == 0 || x * y == 1;
  }

  function Ones(n: nat): nat {
    if n == 0 then 0 else 2 * Ones(n - 1) + 1
  }

  lemma {:induction false} AndWithOnes(n: nat, b: nat)
    requires b <= Ones(n)
    ensures And(n, Ones(n), b) == b
  {
    if n > 0 {
      AndWithOnes(n - 1, b / 2);
    }
  }

  lemma AndWithErasedByte(b: byte)
    ensures And(8, 255, b) == b
  {
    assert Ones(8) == 255;
    AndWithOnes(8, b);
  }
}
