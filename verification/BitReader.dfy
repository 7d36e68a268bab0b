/** The bit reservoir of the JPEG decoder. */
module BitReader {
  import opened Bytes
  import opened BitString

  // more would overflow the 32-bit reservoir while it is refilled
  const MAX_WANTED: nat := 24

  /** The number that `n` magnitude bits stand for (EXTEND): those below the middle are negative. */
  function Extend(v: nat, n: nat): int
    requires n > 0
  {
    if v < Pow2(n - 1) then v - Pow2(n) + 1 else v
  }

  lemma ByteBehindWindow(stream: seq<byte>, pos: nat, nbits: nat)
    requires pos < |stream| && nbits <= 8 * pos
    ensures Window(StreamBits(stream), 8 * pos - nbits, nbits + 8) ==
            Window(StreamBits(stream), 8 * pos - nbits, nbits) * 256 + stream[pos]
  {
    hide Window, StreamBits;
    WindowConcat(StreamBits(stream), 8 * pos - nbits, nbits, 8);
    WindowOfByte(stream, pos);
    assert Pow2(8) == 256;
  }

  class Reader {
    const stream: seq<byte>
    var pos: nat
    var reservoir: nat
    var nbits: nat

    ghost predicate Valid()
      reads this
    {
      && pos <= |stream| && nbits <= 8 * pos && nbits < 32
      && reservoir == Window(StreamBits(stream), 8 * pos - nbits, nbits)
    }

    /** The position of the next unread bit. */
    ghost function BitPos(): (p: nat)
      requires Valid()
      reads this
      ensures p <= 8 * |stream|
    {
      8 * pos - nbits
    }

    constructor (stream: seq<byte>)
      ensures Valid() && BitPos() == 0 && this.stream == stream
    {
      this.stream, pos, reservoir, nbits := stream, 0, 0, 0;
    }

    /** Puts at least `wanted` bits into the reservoir; fails exactly if the stream does not have them. */
    method FillNbits(wanted: nat) returns (ok: bool)
      requires Valid() && wanted <= MAX_WANTED
      modifies this
      ensures Valid() && BitPos() == old(BitPos())
      ensures ok <==> BitPos() + wanted <= 8 * |stream|
      ensures ok ==> nbits >= wanted
    {
      while nbits < wanted
        invariant Valid() && BitPos() == old(BitPos())
        decreases wanted - nbits
      {
        if pos >= |stream| {
          return false;
        }
        PullByte();
      }
      return true;
    }

    method PullByte()
      requires Valid() && pos < |stream| && nbits < MAX_WANTED
      modifies this
      ensures Valid() && pos == old(pos) + 1 && nbits == old(nbits) + 8
    {
      hide Window, StreamBits;
      ByteBehindWindow(stream, pos, nbits);
      reservoir := reservoir * 256 + stream[pos];
      pos, nbits := pos + 1, nbits + 8;
    }

    method LookNbits(wanted: nat) returns (ok: bool, result: nat)
      requires Valid() && wanted <= MAX_WANTED
      modifies this
      ensures Valid() && BitPos() == old(BitPos())
      ensures ok <==> BitPos() + wanted <= 8 * |stream|
      ensures ok ==> nbits >= wanted && result == Window(StreamBits(stream), BitPos(), wanted)
    {
      hide Window, StreamBits, Pow2;
      ok := FillNbits(wanted);
      result := 0;
      if ok {
        WindowSplit(StreamBits(stream), BitPos(), wanted, nbits - wanted);
        result := reservoir / Pow2(nbits - wanted);
      }
    }

    /** Drops bits that are in the reservoir. */
    method SkipNbits(n: nat)
      requires Valid() && n <= nbits
      modifies this
      ensures Valid() && BitPos() == old(BitPos()) + n
    {
      hide Window, StreamBits, Pow2;
      WindowSplit(StreamBits(stream), BitPos(), n, nbits - n);
      nbits := nbits - n;
      reservoir := reservoir % Pow2(nbits);
    }

    method GetNbits(wanted: nat) returns (ok: bool, result: int)
      requires Valid() && 0 < wanted <= MAX_WANTED
      modifies this
      ensures Valid()
      ensures ok <==> old(BitPos()) + wanted <= 8 * |stream|
      ensures ok ==> result == Extend(Window(StreamBits(stream), old(BitPos()), wanted), wanted)
      ensures BitPos() == old(BitPos()) + if ok then wanted else 0
    {
      ok, result := LookNbits(wanted);
      if ok {
        SkipNbits(wanted);
        if result < Pow2(wanted - 1) {
          result := result - Pow2(wanted) + 1;
        }
      }
    }

    /** Forgets the rest of the byte that has been started, and gives whole bytes back. */
    method Realign()
      requires Valid()
      modifies this
      ensures Valid() && BitPos() == (old(BitPos()) + 7) / 8 * 8 && nbits == 0
    {
      pos := pos - nbits / 8;
      nbits := 0;
      reservoir := 0;
    }

    /** Forgets the bits in the reservoir. */
    method Drop()
      requires Valid()
      modifies this
      ensures Valid() && BitPos() == 8 * pos && pos == old(pos)
    {
      nbits := 0;
      reservoir := 0;
    }
  }
}
