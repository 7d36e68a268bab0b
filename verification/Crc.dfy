/** The checksum of the Canon serial protocol. The table method of RFC 1662 section C.2 is proved
    against the division bit by bit, and the division is proved to lose nothing. */
module Crc {
  import opened Wrappers

  /** One bit: division by the reversed polynomial x^16 + x^12 + x^5 + 1. */
  function Shift(x: bv16): bv16 {
    if x & 1 == 1 then (x >> 1) ^ 0x8408 else x >> 1
  }

  function Unshift(x: bv16): bv16 {
    if x & 0x8000 != 0 then ((x ^ 0x8408) << 1) | 1 else x << 1
  }

  function Shift8(x: bv16): bv16 {
    Shift(Shift(Shift(Shift(Shift(Shift(Shift(Shift(x))))))))
  }

  function Unshift8(x: bv16): bv16 {
    Unshift(Unshift(Unshift(Unshift(Unshift(Unshift(Unshift(Unshift(x))))))))
  }

  function Low(x: bv16): (l: bv16)
    ensures l <= 0xff
  {
    x & 0xff
  }

  function High(x: bv16): bv16 {
    x >> 8
  }

  function Xor(x: bv16, y: bv16): bv16 {
    x ^ y
  }

  /** One byte of a message. */
  function Step(crc: bv16, b: bv8): bv16 {
    Shift8(Xor(crc, b as bv16))
  }

  function Unstep(crc: bv16, b: bv8): bv16 {
    Xor(Unshift8(crc), b as bv16)
  }

  /** The checksum of a message, bit by bit, from an initial value. */
  function Checksum(init: bv16, s: seq<bv8>): bv16 {
    if s == [] then init else Step(Checksum(init, s[..|s| - 1]), s[|s| - 1])
  }

  /** The initial value that leads to a checksum. */
  function Origin(crc: bv16, s: seq<bv8>): bv16
    decreases |s|
  {
    if s == [] then crc else Origin(Unstep(crc, s[|s| - 1]), s[..|s| - 1])
  }

  // ----- The division can be undone -----

  lemma UnshiftShift(x: bv16)
    ensures Unshift(Shift(x)) == x
  {
  }

  lemma ShiftUnshift(x: bv16)
    ensures Shift(Unshift(x)) == x
  {
    if x & 0x8000 != 0 {
      ShiftBackOdd(x);
    } else {
      ShiftBackEven(x);
    }
  }

  lemma ShiftBackOdd(x: bv16)
    requires x & 0x8000 != 0
    ensures (((x ^ 0x8408) << 1) | 1) >> 1 == x ^ 0x8408 && (((x ^ 0x8408) << 1) | 1) & 1 == 1
    ensures x ^ 0x8408 ^ 0x8408 == x
  {
  }

  lemma ShiftBackEven(x: bv16)
    requires x & 0x8000 == 0
    ensures (x << 1) >> 1 == x && (x << 1) & 1 == 0
  {
  }

  lemma Unshift8Shift8(x: bv16)
    ensures Unshift8(Shift8(x)) == x
  {
    hide Shift, Unshift;
    var a := Shift(x);
    var b := Shift(a);
    var c := Shift(b);
    var d := Shift(c);
    var e := Shift(d);
    var f := Shift(e);
    var g := Shift(f);
    UnshiftShift(x);
    UnshiftShift(a);
    UnshiftShift(b);
    UnshiftShift(c);
    UnshiftShift(d);
    UnshiftShift(e);
    UnshiftShift(f);
    UnshiftShift(g);
  }

  lemma Shift8Unshift8(x: bv16)
    ensures Shift8(Unshift8(x)) == x
  {
    hide Shift, Unshift;
    var a := Unshift(x);
    var b := Unshift(a);
    var c := Unshift(b);
    var d := Unshift(c);
    var e := Unshift(d);
    var f := Unshift(e);
    var g := Unshift(f);
    ShiftUnshift(x);
    ShiftUnshift(a);
    ShiftUnshift(b);
    ShiftUnshift(c);
    ShiftUnshift(d);
    ShiftUnshift(e);
    ShiftUnshift(f);
    ShiftUnshift(g);
  }

  lemma XorTwice(x: bv16, y: bv16)
    ensures Xor(Xor(x, y), y) == x
  {
  }

  lemma UnstepStep(crc: bv16, b: bv8)
    ensures Unstep(Step(crc, b), b) == crc
  {
    hide Shift8, Unshift8, Xor;
    Unshift8Shift8(Xor(crc, b as bv16));
    XorTwice(crc, b as bv16);
  }

  lemma StepUnstep(crc: bv16, b: bv8)
    ensures Step(Unstep(crc, b), b) == crc
  {
    hide Shift8, Unshift8, Xor;
    XorTwice(Unshift8(crc), b as bv16);
    Shift8Unshift8(crc);
  }

  /** For each message, the map from initial values to checksums is a bijection: it can be undone ... */
  lemma {:induction false} OriginOfChecksum(init: bv16, s: seq<bv8>)
    ensures Origin(Checksum(init, s), s) == init
    decreases |s|
  {
    hide Step, Unstep;
    if s != [] {
      var front, b := s[..|s| - 1], s[|s| - 1];
      UnstepStep(Checksum(init, front), b);
      OriginOfChecksum(init, front);
    }
  }

  /** ... and every checksum is reached. */
  lemma {:induction false} ChecksumOfOrigin(crc: bv16, s: seq<bv8>)
    ensures Checksum(Origin(crc, s), s) == crc
    decreases |s|
  {
    hide Step, Unstep;
    if s != [] {
      var front, b := s[..|s| - 1], s[|s| - 1];
      ChecksumOfOrigin(Unstep(crc, b), front);
      StepUnstep(crc, b);
    }
  }

  // ----- Errors that are found -----

  lemma {:induction false} ChecksumInPieces(init: bv16, s: seq<bv8>, t: seq<bv8>)
    ensures Checksum(init, s + t) == Checksum(Checksum(init, s), t)
  {
    hide Step;
    if t == [] {
      assert s + t == s;
    } else {
      ChecksumInPieces(init, s, t[..|t| - 1]);
      assert (s + t)[..|s + t| - 1] == s + t[..|t| - 1];
    }
  }

  /** Two bytes of a message, as they meet the checksum so far. */
  function Pair(a: bv8, b: bv8): bv16 {
    (a as bv16) ^ ((b as bv16) << 8)
  }

  predicate Odd(x: bv16) {
    x & 1 != 0
  }

  function Half(x: bv16): bv16 {
    x >> 1
  }

  lemma ShiftHalves(x: bv16)
    ensures Shift(x) == if Odd(x) then Xor(Half(x), 0x8408) else Half(x)
  {
  }

  lemma XorHalves(x: bv16, y: bv16)
    ensures Half(Xor(x, y)) == Xor(Half(x), Half(y))
    ensures !Odd(y) ==> Odd(Xor(x, y)) == Odd(x)
  {
  }

  lemma XorSwaps(x: bv16, y: bv16, z: bv16)
    ensures Xor(Xor(x, y), z) == Xor(Xor(x, z), y)
  {
  }

  /** A summand that is even is shifted along. */
  lemma ShiftAlong(x: bv16, y: bv16, z: bv16)
    requires y & 1 == 0 && z == y >> 1
    ensures Shift(Xor(x, y)) == Xor(Shift(x), z)
  {
    assert !Odd(y) && z == Half(y);
    hide Shift, Xor, Half, Odd;
    ShiftHalves(x);
    ShiftHalves(Xor(x, y));
    XorHalves(x, y);
    XorSwaps(Half(x), z, 0x8408);
  }

  /** The high byte in its place. */
  function Raised(x: bv16): bv16 {
    x & 0xff00
  }

  lemma RaisedEven(x: bv16)
    ensures Xor(Low(x), Raised(x)) == x && Raised(x) >> 8 == High(x)
    ensures Raised(x) & 0xff == 0
  {
  }

  /** No bit of the high byte reaches the end in eight steps. */
  lemma RaisedMoves(y: bv16)
    requires y & 0xff == 0
    ensures y & 1 == (y >> 1) & 1 == (y >> 2) & 1 == (y >> 3) & 1 == 0
    ensures (y >> 4) & 1 == (y >> 5) & 1 == (y >> 6) & 1 == (y >> 7) & 1 == 0
  {
  }

  lemma ShiftsAddUp(y: bv16)
    ensures (y >> 1) >> 1 == y >> 2 && (y >> 2) >> 1 == y >> 3 && (y >> 3) >> 1 == y >> 4 && (y >> 4) >> 1 == y >> 5
    ensures (y >> 5) >> 1 == y >> 6 && (y >> 6) >> 1 == y >> 7 && (y >> 7) >> 1 == y >> 8
  {
  }

  lemma SplitByte(x: bv16)
    ensures Shift8(x) == Xor(Shift8(Low(x)), High(x))
  {
    hide Shift, Xor, Low, High, Raised;
    var l, y := Low(x), Raised(x);
    RaisedEven(x);
    RaisedMoves(y);
    ShiftsAddUp(y);
    var a := Shift(l);
    var b := Shift(a);
    var c := Shift(b);
    var d := Shift(c);
    var e := Shift(d);
    var f := Shift(e);
    var g := Shift(f);
    ShiftAlong(l, y, y >> 1);
    ShiftAlong(a, y >> 1, y >> 2);
    ShiftAlong(b, y >> 2, y >> 3);
    ShiftAlong(c, y >> 3, y >> 4);
    ShiftAlong(d, y >> 4, y >> 5);
    ShiftAlong(e, y >> 5, y >> 6);
    ShiftAlong(f, y >> 6, y >> 7);
    ShiftAlong(g, y >> 7, y >> 8);
  }

  lemma PairParts(crc: bv16, a: bv8, b: bv8)
    ensures Low(Xor(crc, Pair(a, b))) == Low(Xor(crc, a as bv16))
    ensures High(Xor(crc, Pair(a, b))) == Xor(High(Xor(crc, a as bv16)), b as bv16)
  {
  }

  lemma XorAssociates(x: bv16, y: bv16, z: bv16)
    ensures Xor(x, Xor(y, z)) == Xor(Xor(x, y), z)
  {
  }

  /** Two bytes are sixteen shifts of their sum with the checksum so far. */
  lemma TwoBytes(crc: bv16, a: bv8, b: bv8)
    ensures Checksum(crc, [a, b]) == Shift8(Shift8(Xor(crc, Pair(a, b))))
  {
    hide Shift8, Low, High, Xor, Pair;
    var x, y := Xor(crc, a as bv16), Xor(crc, Pair(a, b));
    PairParts(crc, a, b);
    SplitByte(x);
    SplitByte(y);
    XorAssociates(Shift8(Low(x)), High(x), b as bv16);
    assert [a, b][..1] == [a] && [a][..0] == [];
    assert Checksum(crc, [a]) == Step(crc, a);
  }

  lemma PairInjective(crc: bv16, a: bv8, b: bv8, c: bv8, d: bv8)
    requires Xor(crc, Pair(a, b)) == Xor(crc, Pair(c, d))
    ensures a == c && b == d
  {
    var x, y := Pair(a, b), Pair(c, d);
    XorCancels(crc, x, y);
    assert x & 0xff == (a as bv16) && x >> 8 == (b as bv16);
    assert y & 0xff == (c as bv16) && y >> 8 == (d as bv16);
  }

  lemma XorCancels(x: bv16, y: bv16, z: bv16)
    requires x ^ y == x ^ z
    ensures y == z
  {
  }

  lemma Shift8Injective(x: bv16, y: bv16)
    requires Shift8(x) == Shift8(y)
    ensures x == y
  {
    hide Shift8, Unshift8;
    Unshift8Shift8(x);
    Unshift8Shift8(y);
  }

  /** Messages that differ only within two adjacent bytes have different checksums. */
  lemma AdjacentErrorsFound(init: bv16, front: seq<bv8>, a: bv8, b: bv8, c: bv8, d: bv8, back: seq<bv8>)
    requires Checksum(init, front + [a, b] + back) == Checksum(init, front + [c, d] + back)
    ensures a == c && b == d
  {
    hide Checksum, Shift8, Xor, Pair;
    var crc := Checksum(init, front);
    ChecksumInPieces(init, front, [a, b]);
    ChecksumInPieces(init, front, [c, d]);
    ChecksumInPieces(init, front + [a, b], back);
    ChecksumInPieces(init, front + [c, d], back);
    OriginOfChecksum(Checksum(crc, [a, b]), back);
    OriginOfChecksum(Checksum(crc, [c, d]), back);
    TwoBytes(crc, a, b);
    TwoBytes(crc, c, d);
    var x, y := Xor(crc, Pair(a, b)), Xor(crc, Pair(c, d));
    Shift8Injective(Shift8(x), Shift8(y));
    Shift8Injective(x, y);
    PairInjective(crc, a, b, c, d);
  }

  // ----- The table method -----

  function Pick(j: bv16, a: bv16, b: bv16, c: bv16, d: bv16, e: bv16, f: bv16, g: bv16, h: bv16): bv16 {
    if j == 0 then a else if j == 1 then b else if j == 2 then c else if j == 3 then d
    else if j == 4 then e else if j == 5 then f else if j == 6 then g else h
  }

  /** The table of the source, eight entries a row. */
  function TableEntry(i: bv16): bv16
    requires i <= 0xff
  {
    match i & 0xf8
    case 0x00 => Pick(i & 7, 0x0000, 0x1189, 0x2312, 0x329b, 0x4624, 0x57ad, 0x6536, 0x74bf)
    case 0x08 => Pick(i & 7, 0x8c48, 0x9dc1, 0xaf5a, 0xbed3, 0xca6c, 0xdbe5, 0xe97e, 0xf8f7)
    case 0x10 => Pick(i & 7, 0x1081, 0x0108, 0x3393, 0x221a, 0x56a5, 0x472c, 0x75b7, 0x643e)
    case 0x18 => Pick(i & 7, 0x9cc9, 0x8d40, 0xbfdb, 0xae52, 0xdaed, 0xcb64, 0xf9ff, 0xe876)
    case 0x20 => Pick(i & 7, 0x2102, 0x308b, 0x0210, 0x1399, 0x6726, 0x76af, 0x4434, 0x55bd)
    case 0x28 => Pick(i & 7, 0xad4a, 0xbcc3, 0x8e58, 0x9fd1, 0xeb6e, 0xfae7, 0xc87c, 0xd9f5)
    case 0x30 => Pick(i & 7, 0x3183, 0x200a, 0x1291, 0x0318, 0x77a7, 0x662e, 0x54b5, 0x453c)
    case 0x38 => Pick(i & 7, 0xbdcb, 0xac42, 0x9ed9, 0x8f50, 0xfbef, 0xea66, 0xd8fd, 0xc974)
    case 0x40 => Pick(i & 7, 0x4204, 0x538d, 0x6116, 0x709f, 0x0420, 0x15a9, 0x2732, 0x36bb)
    case 0x48 => Pick(i & 7, 0xce4c, 0xdfc5, 0xed5e, 0xfcd7, 0x8868, 0x99e1, 0xab7a, 0xbaf3)
    case 0x50 => Pick(i & 7, 0x5285, 0x430c, 0x7197, 0x601e, 0x14a1, 0x0528, 0x37b3, 0x263a)
    case 0x58 => Pick(i & 7, 0xdecd, 0xcf44, 0xfddf, 0xec56, 0x98e9, 0x8960, 0xbbfb, 0xaa72)
    case 0x60 => Pick(i & 7, 0x6306, 0x728f, 0x4014, 0x519d, 0x2522, 0x34ab, 0x0630, 0x17b9)
    case 0x68 => Pick(i & 7, 0xef4e, 0xfec7, 0xcc5c, 0xddd5, 0xa96a, 0xb8e3, 0x8a78, 0x9bf1)
    case 0x70 => Pick(i & 7, 0x7387, 0x620e, 0x5095, 0x411c, 0x35a3, 0x242a, 0x16b1, 0x0738)
    case 0x78 => Pick(i & 7, 0xffcf, 0xee46, 0xdcdd, 0xcd54, 0xb9eb, 0xa862, 0x9af9, 0x8b70)
    case 0x80 => Pick(i & 7, 0x8408, 0x9581, 0xa71a, 0xb693, 0xc22c, 0xd3a5, 0xe13e, 0xf0b7)
    case 0x88 => Pick(i & 7, 0x0840, 0x19c9, 0x2b52, 0x3adb, 0x4e64, 0x5fed, 0x6d76, 0x7cff)
    case 0x90 => Pick(i & 7, 0x9489, 0x8500, 0xb79b, 0xa612, 0xd2ad, 0xc324, 0xf1bf, 0xe036)
    case 0x98 => Pick(i & 7, 0x18c1, 0x0948, 0x3bd3, 0x2a5a, 0x5ee5, 0x4f6c, 0x7df7, 0x6c7e)
    case 0xa0 => Pick(i & 7, 0xa50a, 0xb483, 0x8618, 0x9791, 0xe32e, 0xf2a7, 0xc03c, 0xd1b5)
    case 0xa8 => Pick(i & 7, 0x2942, 0x38cb, 0x0a50, 0x1bd9, 0x6f66, 0x7eef, 0x4c74, 0x5dfd)
    case 0xb0 => Pick(i & 7, 0xb58b, 0xa402, 0x9699, 0x8710, 0xf3af, 0xe226, 0xd0bd, 0xc134)
    case 0xb8 => Pick(i & 7, 0x39c3, 0x284a, 0x1ad1, 0x0b58, 0x7fe7, 0x6e6e, 0x5cf5, 0x4d7c)
    case 0xc0 => Pick(i & 7, 0xc60c, 0xd785, 0xe51e, 0xf497, 0x8028, 0x91a1, 0xa33a, 0xb2b3)
    case 0xc8 => Pick(i & 7, 0x4a44, 0x5bcd, 0x6956, 0x78df, 0x0c60, 0x1de9, 0x2f72, 0x3efb)
    case 0xd0 => Pick(i & 7, 0xd68d, 0xc704, 0xf59f, 0xe416, 0x90a9, 0x8120, 0xb3bb, 0xa232)
    case 0xd8 => Pick(i & 7, 0x5ac5, 0x4b4c, 0x79d7, 0x685e, 0x1ce1, 0x0d68, 0x3ff3, 0x2e7a)
    case 0xe0 => Pick(i & 7, 0xe70e, 0xf687, 0xc41c, 0xd595, 0xa12a, 0xb0a3, 0x8238, 0x93b1)
    case 0xe8 => Pick(i & 7, 0x6b46, 0x7acf, 0x4854, 0x59dd, 0x2d62, 0x3ceb, 0x0e70, 0x1ff9)
    case 0xf0 => Pick(i & 7, 0xf78f, 0xe606, 0xd49d, 0xc514, 0xb1ab, 0xa022, 0x92b9, 0x8330)
    case _ => Pick(i & 7, 0x7bc7, 0x6a4e, 0x58d5, 0x495c, 0x3de3, 0x2c6a, 0x1ef1, 0x0f78)
  }

  /** The table holds eight steps of the division. */
  lemma EntryShifts(i: bv16)
    requires i <= 0xff
    ensures TableEntry(i) == Shift8(i)
  {
    hide TableEntry, Shift8;
    if i < 0x40 {
      FirstEntryShifts(i);
    } else if i < 0x80 {
      SecondEntryShifts(i);
    } else if i < 0xc0 {
      ThirdEntryShifts(i);
    } else {
      LastEntryShifts(i);
    }
  }

  lemma FirstEntryShifts(i: bv16)
    requires i < 0x40
    ensures TableEntry(i) == Shift8(i)
  {
  }

  lemma SecondEntryShifts(i: bv16)
    requires 0x40 <= i < 0x80
    ensures TableEntry(i) == Shift8(i)
  {
  }

  lemma ThirdEntryShifts(i: bv16)
    requires 0x80 <= i < 0xc0
    ensures TableEntry(i) == Shift8(i)
  {
  }

  lemma LastEntryShifts(i: bv16)
    requires 0xc0 <= i <= 0xff
    ensures TableEntry(i) == Shift8(i)
  {
  }

  function TableStep(crc: bv16, b: bv8): bv16 {
    Xor(TableEntry(Low(Xor(crc, b as bv16))), High(crc))
  }

  lemma HighOfStep(crc: bv16, b: bv8)
    ensures High(Xor(crc, b as bv16)) == High(crc)
  {
  }

  /** The step of the source is eight steps of the division. */
  lemma StepShifts(crc: bv16, b: bv8)
    ensures TableStep(crc, b) == Step(crc, b)
  {
    hide Shift8, TableEntry, Low, High, Xor;
    EntryShifts(Low(Xor(crc, b as bv16)));
    SplitByte(Xor(crc, b as bv16));
    HighOfStep(crc, b);
  }

  method Chksum(init: bv16, s: seq<bv8>) returns (crc: bv16)
    ensures crc == Checksum(init, s)
  {
    hide Step, TableStep;
    crc := init;
    for n := 0 to |s|
      invariant crc == Checksum(init, s[..n])
    {
      StepShifts(crc, s[n]);
      assert s[..n + 1][..n] == s[..n];
      crc := TableStep(crc, s[n]);
    }
    assert s[..|s|] == s;
  }

  function Value(i: nat): bv16
    requires i < 0x1_0000
  {
    i as bv16
  }

  lemma ValueReached(x: bv16) returns (i: nat)
    ensures i < 0x1_0000 && Value(i) == x
  {
    i := x as nat;
  }

  lemma OnlyOrigin(m: seq<bv8>, init: bv16)
    ensures forall i :: Checksum(i, m) == Checksum(init, m) <==> i == init
  {
    hide Checksum, Origin;
    forall i | Checksum(i, m) == Checksum(init, m) ensures i == init {
      OriginOfChecksum(i, m);
      OriginOfChecksum(init, m);
    }
  }

  /** Searches the initial value for a checksum; there is exactly one, so the search does not fail. */
  method Guess(m: seq<bv8>, crc: bv16) returns (init: bv16)
    ensures forall i :: Checksum(i, m) == crc <==> i == init
  {
    hide Value, Checksum, Origin;
    ghost var last := ValueReached(Origin(crc, m));
    ChecksumOfOrigin(crc, m);
    var i := 0;
    while i < 0x1_0000
      invariant 0 <= i <= last
    {
      init := Value(i);
      var sum := Chksum(init, m);
      if sum == crc {
        OnlyOrigin(m, init);
        return;
      }
      i := i + 1;
    }
    assert false;
  }
}
