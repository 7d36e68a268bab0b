/** The delta code of 4x4 pictures blocks: four component values in two bytes, as a start value and three
    corrections. Bytes are combined from separate bits, so that `|=` is written as addition. */
module YuvDelta {
  import opened Bytes

  /** Luminance values are unsigned bytes, chrominance values signed ones; both have a legal range. */
  datatype Kind = Luma | Chroma {
    function Lo(): int {
      if Luma? then 16 else -112
    }

    function Hi(): int {
      if Luma? then 235 else 111
    }

    function Min(): int {
      if Luma? then 0 else -128
    }

    function Max(): int {
      Min() + 255
    }

    /** What a C byte makes of a number. */
    function Wrap(v: int): (r: int)
      ensures Min() <= r <= Max()
      ensures Min() <= v <= Max() ==> r == v
    {
      (v - Min()) % 256 + Min()
    }

    predicate Legal(v: int) {
      Lo() <= v <= Hi()
    }
  }

  const TABLES: nat := 4
  const CORRECTIONS: nat := 8

  function Correction(table: nat, i: nat): (c: int)
    requires table < TABLES && i < CORRECTIONS
    ensures c % 4 == 0
  {
    match table
    case 0 => [0, 32, 64, 96, 128, 160, 192, 224][i]
    case 1 => [0, 16, 32, 48, -64, -48, -32, -16][i]
    case 2 => [0, 8, 16, 24, -32, -24, -16, -8][i]
    case _ => [0, 4, 8, 12, -16, -12, -8, -4][i]
  }

  function Corrected(kind: Kind, base: int, table: nat, i: nat): int
    requires table < TABLES && i < CORRECTIONS
  {
    kind.Wrap(base + Correction(table, i))
  }

  /** Only table 0 may wrap around, and no correction may leave the legal range. */
  predicate Allowed(kind: Kind, base: int, table: nat, i: nat)
    requires table < TABLES && i < CORRECTIONS
  {
    && (table == 0 || kind.Min() <= base + Correction(table, i) <= kind.Max())
    && kind.Legal(Corrected(kind, base, table, i))
  }

  function Distance(a: int, b: int): nat {
    if a < b then b - a else a - b
  }

  // ----- The closest correction -----

  /** The best of the first `n` corrections. */
  function Best(kind: Kind, base: int, val: int, table: nat, n: nat): (i: nat)
    requires table < TABLES && kind.Legal(base) && 0 < n <= CORRECTIONS
    ensures i < n && Allowed(kind, base, table, i)
  {
    if n == 1 then 0
    else
      var b := Best(kind, base, val, table, n - 1);
      if Allowed(kind, base, table, n - 1) &&
         Distance(Corrected(kind, base, table, n - 1), val) < Distance(Corrected(kind, base, table, b), val)
      then n - 1 else b
  }

  function Closest(kind: Kind, base: int, val: int, table: nat): (i: nat)
    requires table < TABLES && kind.Legal(base)
    ensures i < CORRECTIONS && Allowed(kind, base, table, i)
  {
    Best(kind, base, val, table, CORRECTIONS)
  }

  lemma {:induction false} BestIsBest(kind: Kind, base: int, val: int, table: nat, n: nat, i: nat)
    requires table < TABLES && kind.Legal(base) && i < n <= CORRECTIONS && Allowed(kind, base, table, i)
    ensures Distance(Corrected(kind, base, table, Best(kind, base, val, table, n)),
                     val) <= Distance(Corrected(kind, base, table, i), val)
  {
    hide Correction;
    if n > 1 && i < n - 1 {
      BestIsBest(kind, base, val, table, n - 1, i);
    } else if n > 1 {
      var b := Best(kind, base, val, table, n - 1);
    }
  }

  lemma BestOfOne(kind: Kind, base: int, val: int, table: nat)
    requires table < TABLES && kind.Legal(base) && kind.Legal(val)
    ensures Allowed(kind, base, table, 0) && Distance(Corrected(kind, base, table, 0), val) < 256
  {
  }

  method FindClosestCorrection(kind: Kind, base: int, val: int, table: nat) returns (closest: nat)
    requires table < TABLES && kind.Legal(base) && kind.Legal(val)
    ensures closest == Closest(kind, base, val, table)
  {
    hide Correction, Distance, Kind.Wrap, Kind.Legal;
    BestOfOne(kind, base, val, table);
    var closestDelta := 256;
    closest := 0;
    for i := 0 to CORRECTIONS
      invariant i == 0 ==> closest == 0 && closestDelta == 256
      invariant i > 0 ==> closest == Best(kind, base, val, table, i)
      invariant i > 0 ==> closestDelta == Distance(Corrected(kind, base, table, closest), val)
    {
      if table == 0 || kind.Min() <= base + Correction(table, i) <= kind.Max() {
        var corrected := kind.Wrap(base + Correction(table, i));
        if kind.Legal(corrected) {
          var delta := Distance(corrected, val);
          if delta < closestDelta {
            closestDelta, closest := delta, i;
          }
        }
      }
    }
  }

  /** The table reaches the value from the base, give or take four. */
  predicate Reaches(base: int, val: int, table: nat)
    requires table < TABLES
  {
    Correction(table, 4) - 4 <= val - base <= Correction(table, 3) + 4
  }

  /** How far the closest correction can be away. */
  function Bound(table: nat): nat {
    match table
    case 0 => 31
    case 1 => 15
    case 2 => 7
    case _ => 4
  }

  /** The step of `width` next to a distance, from the side of zero; four steps up, four down. */
  function StepTowards(d: int, width: nat): (i: nat)
    requires width > 0 && -4 * width - 4 <= d <= 3 * width + 4
    ensures i < CORRECTIONS
  {
    if d >= 3 * width then 3
    else if d >= 0 then d / width
    else if d <= -4 * width then 4
    else (8 * width + width - 1 + d) / width % 8
  }

  function Width(table: nat): (w: nat)
    requires 1 <= table < TABLES
    ensures w > 0
  {
    Correction(table, 1)
  }

  lemma StepBetween(table: nat, d: int)
    requires 1 <= table < TABLES && Reaches(0, d, table)
    ensures var c := Correction(table, StepTowards(d, Width(table)));
            (0 <= c <= d || d <= c <= 0) && Distance(c, d) <= Bound(table)
  {
  }

  lemma StepClose(kind: Kind, base: int, val: int, table: nat)
    requires 1 <= table < TABLES && kind.Legal(base) && kind.Legal(val) && Reaches(base, val, table)
    ensures var i := StepTowards(val - base, Width(table));
            Allowed(kind, base, table, i) && Distance(Corrected(kind, base, table, i), val) <= Bound(table)
  {
    hide Correction, Width, StepTowards;
    StepBetween(table, val - base);
  }

  /** A legal value at a multiple of 32 from the base. */
  function WrapTarget(kind: Kind, base: int, val: int): int {
    var below := val - (val - base) % 32;
    if below < kind.Lo() then below + 32 else below
  }

  lemma WrapClose(kind: Kind, base: int, val: int) returns (i: nat)
    requires kind.Legal(base) && kind.Legal(val)
    ensures i < CORRECTIONS && Allowed(kind, base, 0, i) && Distance(Corrected(kind, base, 0, i), val) <= Bound(0)
  {
    hide Correction;
    var target := WrapTarget(kind, base, val);
    var m := (target - base) / 32;
    assert target == base + 32 * m;
    i := m % 8;
    WrapAround(kind, base + 32 * i, target, m / 8);
    CorrectionOfWrapTable(i);
  }

  lemma CorrectionOfWrapTable(i: nat)
    requires i < CORRECTIONS
    ensures Correction(0, i) == 32 * i
  {
  }

  lemma WrapAround(kind: Kind, v: int, target: int, q: int)
    requires v + 256 * q == target && kind.Min() <= target <= kind.Max()
    ensures kind.Wrap(v) == target
  {
  }

  /** The closest correction is within the bound of the table: always for table 0, within its reach for another. */
  lemma ClosestWithinBound(kind: Kind, base: int, val: int, table: nat)
    requires table < TABLES && kind.Legal(base) && kind.Legal(val) && (table == 0 || Reaches(base, val, table))
    ensures Distance(Corrected(kind, base, table, Closest(kind, base, val, table)), val) <= Bound(table)
  {
    hide Correction, Corrected, Allowed, Best, Reaches, StepTowards, Width;
    if table == 0 {
      var i := WrapClose(kind, base, val);
      BestIsBest(kind, base, val, 0, CORRECTIONS, i);
    } else {
      StepFits(base, val, table);
      StepClose(kind, base, val, table);
      BestIsBest(kind, base, val, table, CORRECTIONS, StepTowards(val - base, Width(table)));
    }
  }

  lemma StepFits(base: int, val: int, table: nat)
    requires 1 <= table < TABLES && Reaches(base, val, table)
    ensures -4 * Width(table) - 4 <= val - base <= 3 * Width(table) + 4
  {
  }

  // ----- Four values -----

  type Quad = q: seq<int> | |q| == 4 witness [0, 0, 0, 0]

  predicate AllLegal(kind: Kind, src: Quad) {
    forall k :: 0 <= k < 4 ==> kind.Legal(src[k])
  }

  function Start(v: int): (r: int)
    ensures r <= v < r + 8 && r % 8 == 0
    ensures forall kind: Kind :: kind.Legal(v) ==> kind.Legal(r)
  {
    v - v % 8
  }

  /** The value that the encoder, and the decoder, have reached at value `j`. */
  function Tracked(kind: Kind, src: Quad, table: nat, j: nat): (base: int)
    requires table < TABLES && j < 4 && AllLegal(kind, src)
    ensures kind.Legal(base)
  {
    if j == 0 then Start(src[0]) else
      var base := Tracked(kind, src, table, j - 1);
      Corrected(kind, base, table, Closest(kind, base, src[j], table))
  }

  /** The correction that leads to value `j`. */
  function Chosen(kind: Kind, src: Quad, table: nat, j: nat): (i: nat)
    requires table < TABLES && 0 < j < 4 && AllLegal(kind, src)
    ensures i < CORRECTIONS
  {
    Closest(kind, Tracked(kind, src, table, j - 1), src[j], table)
  }

  /** Does the table reach the first `n` values, one after another? */
  predicate Suffices(kind: Kind, src: Quad, table: nat, n: nat)
    requires table < TABLES && n <= 4 && AllLegal(kind, src)
  {
    forall j :: 1 <= j < n ==> Reaches(Tracked(kind, src, table, j - 1), src[j], table)
  }

  /** The finest table up to `n` that suffices; table 0 if none does. */
  function FinestTable(kind: Kind, src: Quad, n: nat): (table: nat)
    requires n < TABLES && AllLegal(kind, src)
    ensures table <= n && (table > 0 ==> Suffices(kind, src, table, 4))
    ensures forall finer :: table < finer <= n ==> !Suffices(kind, src, finer, 4)
  {
    hide Tracked, Reaches;
    if n == 0 || Suffices(kind, src, n, 4) then n else FinestTable(kind, src, n - 1)
  }

  /** The two bytes: five bits of the start value, two of the table, and three times three bits of corrections. */
  function Packed(start: int, table: nat, first: nat, second: nat, third: nat): (bytes: seq<byte>)
    requires start % 8 == 0 && table < TABLES && first < 8 && second < 8 && third < 8
    ensures |bytes| == 2
  {
    [start % 256 + 2 * table + third % 2, 32 * first + 4 * second + third / 2]
  }

  function Encoded(kind: Kind, src: Quad): (bytes: seq<byte>)
    requires AllLegal(kind, src)
    ensures |bytes| == 2
  {
    var table := FinestTable(kind, src, TABLES - 1);
    Packed(Start(src[0]), table, Chosen(kind, src, table, 1), Chosen(kind, src, table, 2), Chosen(kind, src, table, 3))
  }

  /** Tries the tables from the finest one, each until it does not reach a value. */
  method SelectTable(kind: Kind, src: Quad) returns (table: nat)
    requires AllLegal(kind, src)
    ensures table == FinestTable(kind, src, TABLES - 1)
  {
    hide Correction, Corrected, Allowed, Best, Closest, Reaches;
    table := TABLES - 1;
    while table > 0
      invariant table < TABLES && FinestTable(kind, src, table) == FinestTable(kind, src, TABLES - 1)
    {
      var base, j := Start(src[0]), 1;
      while j < 4 && Reaches(base, src[j], table)
        invariant 1 <= j <= 4 && base == Tracked(kind, src, table, j - 1)
        invariant Suffices(kind, src, table, j)
      {
        var corr := FindClosestCorrection(kind, base, src[j], table);
        base, j := Corrected(kind, base, table, corr), j + 1;
      }
      if j == 4 {
        break;
      }
      table := table - 1;
    }
  }

  method EncodeComponentValues(kind: Kind, src: Quad, dest: array<byte>, at: nat)
    requires AllLegal(kind, src) && at + 2 <= dest.Length
    modifies dest
    ensures dest[..] == Splice(old(dest[..]), at, Encoded(kind, src))
  {
    hide Splice, Packed, Chosen, FinestTable;
    var table := SelectTable(kind, src);
    WriteComponentValues(kind, src, table, dest, at);
  }

  /** Stores the values with a table. */
  method WriteComponentValues(kind: Kind, src: Quad, table: nat, dest: array<byte>, at: nat)
    requires AllLegal(kind, src) && at + 2 <= dest.Length && table < TABLES
    modifies dest
    ensures dest[..] == Splice(old(dest[..]), at,
                               Packed(Start(src[0]), table, Chosen(kind, src, table, 1), Chosen(kind, src, table, 2),
                                      Chosen(kind, src, table, 3)))
  {
    hide Correction, Corrected, Allowed, Best, Closest;
    var base := Start(src[0]);
    var first, second := base % 256 + 2 * table, 0;
    for i := 1 to 4
      invariant base == Tracked(kind, src, table, i - 1)
      invariant first == Start(src[0]) % 256 + 2 * table + if i < 4 then 0 else Chosen(kind, src, table, 3) % 2
      invariant second == (if i > 1 then 32 * Chosen(kind, src, table, 1) else 0) +
                          (if i > 2 then 4 * Chosen(kind, src, table, 2) else 0) +
                          (if i > 3 then Chosen(kind, src, table, 3) / 2 else 0)
      invariant dest[..] == old(dest[..])
    {
      var corr := FindClosestCorrection(kind, base, src[i], table);
      match i {
        case 1 => second := second + 32 * corr;
        case 2 => second := second + 4 * corr;
        case _ => first, second := first + corr % 2, second + corr / 2;
      }
      base := Corrected(kind, base, table, corr);
    }
    ghost var before := dest[..];
    dest[at], dest[at + 1] := first, second;
    assert dest[..] == Splice(before, at, [first, second]);
  }

  // ----- Decoding -----

  function TableOf(bytes: seq<byte>): (table: nat)
    requires |bytes| == 2
    ensures table < TABLES
  {
    bytes[0] / 2 % 4
  }

  function CorrectionOf(bytes: seq<byte>, j: nat): (i: nat)
    requires |bytes| == 2 && 1 <= j < 4
    ensures i < CORRECTIONS
  {
    match j
    case 1 => bytes[1] / 32 % 8
    case 2 => bytes[1] / 4 % 8
    case _ => bytes[1] % 4 * 2 + bytes[0] % 2
  }

  /** Value `j` of the two bytes. */
  function DecodedAt(kind: Kind, bytes: seq<byte>, j: nat): int
    requires |bytes| == 2 && j < 4
  {
    if j == 0 then kind.Wrap(bytes[0] - bytes[0] % 8)
    else Corrected(kind, DecodedAt(kind, bytes, j - 1), TableOf(bytes), CorrectionOf(bytes, j))
  }

  function Decoded(kind: Kind, bytes: seq<byte>): Quad
    requires |bytes| == 2
  {
    [DecodedAt(kind, bytes, 0), DecodedAt(kind, bytes, 1), DecodedAt(kind, bytes, 2), DecodedAt(kind, bytes, 3)]
  }

  method DecodeComponentValues(kind: Kind, src: seq<byte>) returns (dest: Quad)
    requires |src| == 2
    ensures dest == Decoded(kind, src)
  {
    hide Correction, Corrected;
    var table := src[0] / 2 % 4;
    dest := [kind.Wrap(src[0] - src[0] % 8), 0, 0, 0];
    for i := 1 to 4
      invariant forall j :: 0 <= j < i ==> dest[j] == DecodedAt(kind, src, j)
    {
      dest := dest[i := Corrected(kind, dest[i - 1], table, CorrectionOf(src, i))];
    }
  }

  lemma PackedParts(start: int, table: nat, first: nat, second: nat, third: nat)
    requires start % 8 == 0 && table < TABLES && first < 8 && second < 8 && third < 8
    ensures var bytes := Packed(start, table, first, second, third);
            && bytes[0] - bytes[0] % 8 == start % 256 && TableOf(bytes) == table
            && CorrectionOf(bytes, 1) == first && CorrectionOf(bytes, 2) == second && CorrectionOf(bytes, 3) == third
  {
    LowBits(start % 256, table, third % 2);
    HighBits(first, second, third / 2);
  }

  lemma LowBits(s: nat, t: nat, u: nat)
    requires s % 8 == 0 && t < 4 && u < 2
    ensures (s + 2 * t + u) % 8 == 2 * t + u && (s + 2 * t + u) / 2 % 4 == t && (s + 2 * t + u) % 2 == u
  {
    var m := s / 8;
    assert s == 8 * m;
    assert (s + 2 * t + u) / 2 == 4 * m + t;
  }

  lemma HighBits(f: nat, s: nat, h: nat)
    requires f < 8 && s < 8 && h < 4
    ensures (32 * f + 4 * s + h) / 32 % 8 == f && (32 * f + 4 * s + h) / 4 % 8 == s && (32 * f + 4 * s + h) % 4 == h
  {
    assert (32 * f + 4 * s + h) / 4 == 8 * f + s;
  }

  /** No drift: the decoder reaches what the encoder has tracked. */
  lemma {:induction false} NoDrift(kind: Kind, src: Quad, j: nat)
    requires AllLegal(kind, src) && j < 4
    ensures DecodedAt(kind, Encoded(kind, src), j) == Tracked(kind, src, FinestTable(kind, src, TABLES - 1), j)
  {
    hide Correction, Corrected, Allowed, Best, Closest, CorrectionOf, TableOf, Packed, FinestTable;
    var table := FinestTable(kind, src, TABLES - 1);
    PackedParts(Start(src[0]), table, Chosen(kind, src, table, 1), Chosen(kind, src, table, 2),
                Chosen(kind, src, table, 3));
    if j == 0 {
      WrapOfByte(kind, Start(src[0]));
    } else {
      NoDrift(kind, src, j - 1);
    }
  }

  lemma WrapOfByte(kind: Kind, v: int)
    requires kind.Legal(v)
    ensures kind.Wrap(v % 256) == v
  {
  }

  /** How far a decoded value can be from what was encoded. */
  function Error(table: nat): nat
    requires table < TABLES
  {
    if table == 3 then 7 else Bound(table)
  }

  /** Decoding what was encoded gives legal values: within 7 with the two finest tables, within 15 with the
      next, and within 31 always. */
  lemma DecodedWithinError(kind: Kind, src: Quad, j: nat)
    requires AllLegal(kind, src) && j < 4
    ensures var v := Decoded(kind, Encoded(kind, src))[j];
            kind.Legal(v) && Distance(v, src[j]) <= Error(FinestTable(kind, src, TABLES - 1))
    ensures Decoded(kind, Encoded(kind, src))[0] == Start(src[0])
  {
    hide Correction, Corrected, Best, Closest, DecodedAt, Encoded, FinestTable;
    var table := FinestTable(kind, src, TABLES - 1);
    NoDrift(kind, src, 0);
    NoDrift(kind, src, j);
    if j > 0 {
      ClosestWithinBound(kind, Tracked(kind, src, table, j - 1), src[j], table);
    }
  }
}
