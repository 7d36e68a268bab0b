/** Decoding one Huffman code: nine bits at once, and bit by bit beyond. */
module HuffmanDecoder {
  import opened Bytes
  import opened BitString
  import opened Huffman
  import opened HuffmanTable
  import opened BitReader
  import opened Wrappers

  /** A list that starts with the code 0 reads as empty, so the codes of its length are not found. */
  predicate Visible(c: Counts, e: nat)
    requires e < Total(c)
  {
    Size(c, e) <= HASH_BITS || First(c, Size(c, e)) > 0
  }

  /** All codes are found exactly if some code has at most nine bits (or there are none at all). */
  lemma AllVisible(c: Counts)
    ensures (forall e :: 0 <= e < Total(c) ==> Visible(c, e)) <==> (Total(c) == 0 || Start(c, 10) > 0)
  {
    if Start(c, 10) > 0 {
      forall e | 0 <= e < Total(c) ensures Visible(c, e) {
        if Size(c, e) > HASH_BITS {
          StartMonotonic(c, 10, Size(c, e));
          FirstPositive(c, Size(c, e));
        }
      }
    } else if Total(c) > 0 {
      NothingBeforeFirst(c, Size(c, 0));
      if Size(c, 0) <= HASH_BITS {
        StartMonotonic(c, Size(c, 0) + 1, 10);
      }
      assert !Visible(c, 0);
    }
  }

  lemma {:induction false} FirstPositive(c: Counts, l: nat)
    requires 1 <= l <= 17 && Start(c, l) > 0
    ensures First(c, l) > 0
  {
    if l > 1 && c[l - 1] == 0 {
      FirstPositive(c, l - 1);
    }
  }

  /** The nine bits at `p` are covered by a short code exactly if that code starts there. */
  lemma CoversIsCode(c: Counts, s: seq<bool>, p: nat, k: nat)
    requires p + HASH_BITS <= |s| && k < Total(c) && Size(c, k) <= HASH_BITS
    ensures Covers(c, k, Window(s, p, HASH_BITS)) <==> IsCodeAt(c, s, p, k)
  {
    var n := Size(c, k);
    WindowConcat(s, p, n, HASH_BITS - n);
    WindowBound(s, p + n, HASH_BITS - n);
    SameQuotient(Window(s, p, n), Code(c, k), Pow2(HASH_BITS - n), Window(s, p + n, HASH_BITS - n));
  }

  lemma SameQuotient(a: nat, b: nat, d: nat, r: nat)
    requires r < d
    ensures b * d <= a * d + r < b * d + d <==> a == b
  {
    SmallMultiple(a - b, d);
    assert (a - b) * d == a * d - b * d;
  }

  /** What decoding at `p` finds: a visible code, provided nine bits can be looked at. */
  ghost predicate Found(c: Counts, s: seq<bool>, p: nat, e: nat) {
    p + HASH_BITS <= |s| && IsCodeAt(c, s, p, e) && Visible(c, e)
  }

  ghost function SymbolAt(c: Counts, s: seq<bool>, p: nat): (r: Option<nat>)
    ensures r.Some? ==> r.value < Total(c) && Found(c, s, p, r.value)
  {
    if exists e :: Found(c, s, p, e) then
      var e :| Found(c, s, p, e);
      Some(e)
    else None
  }

  lemma FoundIsSymbol(c: Counts, s: seq<bool>, p: nat, e: nat)
    requires Found(c, s, p, e)
    ensures SymbolAt(c, s, p) == Some(e)
  {
    CodeAtUnique(c, s, p, e, SymbolAt(c, s, p).value);
  }

  /** The index of the code of `n` bits that is read at `p`: that of the first one, and as many behind as its value
      is. */
  ghost function Index(c: Counts, s: seq<bool>, p: nat, n: nat): int
    requires 1 <= n <= 16 && p + n <= |s|
  {
    Start(c, n) + Window(s, p, n) - First(c, n)
  }

  /** Fast decoding in terms of DECODE: the code is visible unless it is longer than nine bits, and zeros. */
  lemma SymbolIsDecoded(c: Counts, s: seq<bool>, p: nat)
    ensures var symbol, length := SymbolAt(c, s, p), Decode(c, s, p, 1);
            && (symbol.Some? <==>
                  p + HASH_BITS <= |s| && length.Some? && (length.value <= HASH_BITS || First(c, length.value) > 0))
            && (symbol.Some? ==> symbol.value == Index(c, s, p, length.value) && Size(c, symbol.value) == length.value)
  {
    DecodeFindsTheCode(c, s, p);
    if Decode(c, s, p, 1).Some? {
      var e := DecodesACode(c, s, p, 1);
      if SymbolAt(c, s, p).Some? {
        CodeAtUnique(c, s, p, e, SymbolAt(c, s, p).value);
      }
      assert IsCodeAt(c, s, p, e);
      assert p + HASH_BITS <= |s| && Visible(c, e) ==> Found(c, s, p, e);
    }
  }

  /** With a code of nine bits or less, fast decoding fails only where DECODE does, or with fewer than nine bits
      left. */
  lemma FastIsCanonical(c: Counts, s: seq<bool>, p: nat)
    requires Start(c, 10) > 0
    ensures SymbolAt(c, s, p).Some? <==> p + 9 <= |s| && Decode(c, s, p, 1).Some?
  {
    SymbolIsDecoded(c, s, p);
    if p + HASH_BITS <= |s| && Decode(c, s, p, 1).Some? {
      var e := DecodesACode(c, s, p, 1);
      AllVisible(c);
      assert Found(c, s, p, e);
    }
  }

  /** A symbol has been read at `p`, and the position moved to `q`; or there was none. */
  ghost predicate ReadsSymbol(c: Counts, vals: seq<byte>, s: seq<bool>, p: nat, ok: bool, value: nat, q: nat) {
    var symbol := SymbolAt(c, s, p);
    && (ok <==> symbol.Some?)
    && (ok ==> symbol.value < |vals| && value == vals[symbol.value] && q == p + Size(c, symbol.value))
  }

  /** The same in terms of DECODE. */
  ghost predicate ReadAsDecoded(c: Counts, vals: seq<byte>, s: seq<bool>, p: nat, ok: bool, value: nat, q: nat) {
    var length := Decode(c, s, p, 1);
    && (ok <==> p + HASH_BITS <= |s| && length.Some? && (length.value <= HASH_BITS || First(c, length.value) > 0))
    && (Start(c, HASH_BITS + 1) > 0 ==> (ok <==> p + HASH_BITS <= |s| && length.Some?))
    && (ok ==> 0 <= Index(c, s, p, length.value) < |vals| && value == vals[Index(c, s, p, length.value)] &&
               q == p + length.value)
  }

  lemma ReadsAsDecoded(c: Counts, vals: seq<byte>, s: seq<bool>, p: nat)
    ensures forall ok, value, q | ReadsSymbol(c, vals, s, p, ok, value, q) :: ReadAsDecoded(c, vals, s, p, ok, value, q)
  {
    hide Decode, SymbolAt, Index, Size;
    SymbolIsDecoded(c, s, p);
    if Start(c, HASH_BITS + 1) > 0 {
      FastIsCanonical(c, s, p);
    }
  }

  // ----- Lists of codes -----

  ghost function EncodeSymbols(c: Counts, es: seq<nat>): seq<bool>
    requires forall i :: 0 <= i < |es| ==> es[i] < Total(c)
  {
    if es == [] then [] else Bits(Code(c, es[0]), Size(c, es[0])) + EncodeSymbols(c, es[1..])
  }

  /** Decodes `n` symbols one after another. */
  ghost function DecodeSymbols(c: Counts, s: seq<bool>, p: nat, n: nat): Option<(seq<nat>, nat)>
    decreases n
  {
    if n == 0 then Some(([], p))
    else
      match SymbolAt(c, s, p)
      case None => None
      case Some(e) =>
        match DecodeSymbols(c, s, p + Size(c, e), n - 1)
        case None => None
        case Some(rest) => Some(([e] + rest.0, rest.1))
  }

  lemma CodeFound(c: Counts, e: nat, s: seq<bool>, p: nat)
    requires Kraft(c) && Start(c, HASH_BITS + 1) > 0 && e < Total(c)
    requires StartsAt(s, p, Bits(Code(c, e), Size(c, e))) && p + HASH_BITS <= |s|
    ensures SymbolAt(c, s, p) == Some(e)
  {
    var n, code := Size(c, e), Bits(Code(c, e), Size(c, e));
    CodeBound(c, e);
    WindowOfBits(Code(c, e), n);
    assert code[0..0 + n] == code;
    WindowEqual(s, p, code, 0, n);
    AllVisible(c);
    FoundIsSymbol(c, s, p, e);
  }

  lemma FirstOfList(c: Counts, s: seq<bool>, p: nat, e: nat, rest: seq<nat>, q: nat)
    requires e < Total(c) && SymbolAt(c, s, p) == Some(e)
    requires DecodeSymbols(c, s, p + Size(c, e), |rest|) == Some((rest, q))
    ensures DecodeSymbols(c, s, p, |rest| + 1) == Some(([e] + rest, q))
  {
    hide SymbolAt, Size, Total;
  }

  lemma NoSymbols(c: Counts, s: seq<bool>, p: nat)
    ensures EncodeSymbols(c, []) == [] && DecodeSymbols(c, s, p, 0) == Some(([], p))
  {
  }

  /** Any list of codes with at least eight bits behind it is decoded as it was encoded. */
  lemma {:induction false} SymbolsRoundTrip(c: Counts, es: seq<nat>, s: seq<bool>, p: nat)
    requires Kraft(c) && Start(c, HASH_BITS + 1) > 0
    requires forall i :: 0 <= i < |es| ==> es[i] < Total(c)
    requires StartsAt(s, p, EncodeSymbols(c, es)) && p + |EncodeSymbols(c, es)| + 8 <= |s|
    ensures DecodeSymbols(c, s, p, |es|) == Some((es, p + |EncodeSymbols(c, es)|))
  {
    hide Bits, SymbolAt, Code, Size, First, Start, Total, DecodeSymbols, Window, SizeFrom;
    if es == [] {
      NoSymbols(c, s, p);
      return;
    }
    var code := Bits(Code(c, es[0]), Size(c, es[0]));
    StartsInPieces(s, p, code, EncodeSymbols(c, es[1..]));
    CodeFound(c, es[0], s, p);
    SymbolsRoundTrip(c, es[1..], s, p + |code|);
    FirstOfList(c, s, p, es[0], es[1..], p + |EncodeSymbols(c, es)|);
    assert [es[0]] + es[1..] == es;
  }

  /** The table stands for the code `c` with the symbols `vals`. */
  ghost predicate TableFor(t: Table, c: Counts, vals: seq<byte>)
    reads t.lookup, t.codeSize, t.slowtable
  {
    t.Valid() && Represents(c, vals, t.lookup[..], t.codeSize[..], t.slowtable[..])
  }

  lemma LookupFinds(c: Counts, vals: seq<byte>, lookup: seq<int>, sizes: seq<nat>, slow: seq<nat>,
                    s: seq<bool>, p: nat) returns (k: nat)
    requires Represents(c, vals, lookup, sizes, slow) && p + HASH_BITS <= |s|
    requires Window(s, p, HASH_BITS) < HASH_SIZE && lookup[Window(s, p, HASH_BITS)] >= 0
    ensures Found(c, s, p, k) && k < |vals|
    ensures lookup[Window(s, p, HASH_BITS)] == vals[k] && sizes[vals[k]] == Size(c, k) <= HASH_BITS
  {
    var h := Window(s, p, HASH_BITS);
    k :| 0 <= k < Total(c) && Covers(c, k, h);
    CoversIsCode(c, s, p, k);
  }

  lemma LookupMisses(c: Counts, vals: seq<byte>, lookup: seq<int>, s: seq<bool>, p: nat)
    requires LookupHolds(c, vals, Total(c), lookup) && p + HASH_BITS <= |s|
    requires Window(s, p, HASH_BITS) < HASH_SIZE && lookup[Window(s, p, HASH_BITS)] < 0
    ensures forall k :: IsCodeAt(c, s, p, k) ==> Size(c, k) > HASH_BITS
  {
    forall k | IsCodeAt(c, s, p, k) ensures Size(c, k) > HASH_BITS {
      if Size(c, k) <= HASH_BITS {
        CoversIsCode(c, s, p, k);
      }
    }
  }

  /** What a list holds at pair `j`. */
  lemma PairOfList(c: Counts, vals: seq<byte>, n: nat, j: nat, slow: seq<nat>)
    requires 10 <= n <= 16 && |slow| == SLOW_TABLES * SLOW_SIZE && ListHolds(c, vals, n - 10, slow) && j < c[n]
    ensures var at, e := (n - 10) * SLOW_SIZE + 2 * j, Start(c, n) + j;
            && at + 1 < |slow| && e < |vals| && slow[at] == First(c, n) + j && slow[at + 1] == vals[e]
            && e < Total(c) && Size(c, e) == n && Code(c, e) == First(c, n) + j
  {
    assert SlowPair(c, vals, n - 10, j, slow);
    SizeUnique(c, Start(c, n) + j, n);
  }

  /** Searches the list of codes of length `n`; stops at the first zero. */
  method SearchList(t: Table, hcode: nat, n: nat, ghost c: Counts, ghost vals: seq<byte>)
      returns (found: bool, value: nat, ghost e: nat)
    requires t.Valid() && 10 <= n <= 16 && ListHolds(c, vals, n - 10, t.slowtable[..]) && Total(c) <= |vals|
    ensures found ==> e < Total(c) && Size(c, e) == n && Code(c, e) == hcode && Visible(c, e) && value == vals[e]
    ensures !found ==> forall k :: 0 <= k < Total(c) && Size(c, k) == n && Visible(c, k) ==> Code(c, k) != hcode
  {
    hide SlowPair, SizeFrom;
    var base, j := (n - HASH_BITS - 1) * SLOW_SIZE, 0;
    e, value := 0, 0;
    while t.slowtable[base + 2 * j] != 0
      invariant 0 <= j <= c[n] && (j > 0 ==> First(c, n) > 0)
      invariant !(First(c, n) <= hcode < First(c, n) + j)
      decreases c[n] - j
    {
      PairOfList(c, vals, n, j, t.slowtable[..]);
      if t.slowtable[base + 2 * j] == hcode {
        return true, t.slowtable[base + 2 * j + 1], Start(c, n) + j;
      }
      j := j + 1;
    }
    if j < c[n] {
      PairOfList(c, vals, n, j, t.slowtable[..]);
    }
    found := false;
  }

  /** Fast decoding finds what canonical decoding finds, and consumes the same bits. It fails where that fails, with
      fewer than nine bits left, and, if there are only longer codes, at a code of zeros. */
  method GetNextHuffmanCode(reader: Reader, t: Table, ghost c: Counts, ghost vals: seq<byte>)
      returns (ok: bool, value: nat)
    requires reader.Valid() && TableFor(t, c, vals)
    modifies reader
    ensures reader.Valid() && TableFor(t, c, vals)
    ensures ReadsSymbol(c, vals, StreamBits(reader.stream), old(reader.BitPos()), ok, value, reader.BitPos())
    ensures ReadAsDecoded(c, vals, StreamBits(reader.stream), old(reader.BitPos()), ok, value, reader.BitPos())
  {
    ghost var s, p := StreamBits(reader.stream), reader.BitPos();
    hide ReadAsDecoded, Decode;
    ReadsAsDecoded(c, vals, s, p);
    var hcode;
    ok, hcode := reader.LookNbits(HASH_BITS);
    value := 0;
    if !ok {
      return;
    }
    WindowBound(s, p, HASH_BITS);
    assert Pow2(9) == 512;
    if t.lookup[hcode] >= 0 {
      ghost var k := LookupFinds(c, vals, t.lookup[..], t.codeSize[..], t.slowtable[..], s, p);
      FoundIsSymbol(c, s, p, k);
      value := t.lookup[hcode];
      reader.SkipNbits(t.codeSize[value]);
      return;
    }
    LookupMisses(c, vals, t.lookup[..], s, p);
    ok, value := GetLongCode(reader, t, c, vals);
  }

  /** The same beyond nine bits, one list after another. */
  method GetLongCode(reader: Reader, t: Table, ghost c: Counts, ghost vals: seq<byte>) returns (ok: bool, value: nat)
    requires reader.Valid() && TableFor(t, c, vals) && reader.BitPos() + HASH_BITS <= |StreamBits(reader.stream)|
    requires forall k :: IsCodeAt(c, StreamBits(reader.stream), reader.BitPos(), k) ==> Size(c, k) > HASH_BITS
    modifies reader
    ensures reader.Valid() && TableFor(t, c, vals)
    ensures ReadsSymbol(c, vals, StreamBits(reader.stream), old(reader.BitPos()), ok, value, reader.BitPos())
  {
    ghost var s, p := StreamBits(reader.stream), reader.BitPos();
    value := 0;
    var hcode;
    var n := HASH_BITS + 1;
    while n <= 16
      invariant 10 <= n <= 17
      invariant reader.Valid() && reader.BitPos() == p && TableFor(t, c, vals)
      invariant forall k :: IsCodeAt(c, s, p, k) && Visible(c, k) ==> Size(c, k) >= n
    {
      ok, hcode := reader.LookNbits(n);
      if !ok {
        return;
      }
      ghost var e;
      var found;
      assert ListHolds(c, vals, n - 10, t.slowtable[..]);
      found, value, e := SearchList(t, hcode, n, c, vals);
      if found {
        FoundIsSymbol(c, s, p, e);
        reader.SkipNbits(n);
        return;
      }
      n := n + 1;
    }
    ok := false;
  }
}
