/** The decoding tables of the JPEG decoder: one lookup for short codes, lists for long ones. */
module HuffmanTable {
  import opened Bytes
  import opened BitString
  import opened Huffman
  import opened Wrappers

  const HASH_BITS: nat := 9
  const HASH_SIZE: nat := 512
  const SLOW_TABLES: nat := 7
  const SLOW_SIZE: nat := 256

  /** `huffsize`: the length of every code, closed by a zero. */
  method CodeSizes(bits: Counts) returns (huffsize: array<nat>)
    requires Total(bits) <= 256
    ensures fresh(huffsize) && huffsize.Length == 257
    ensures forall e :: 0 <= e < Total(bits) ==> huffsize[e] == Size(bits, e)
    ensures huffsize[Total(bits)] == 0
  {
    hide Size, SizeFrom;
    huffsize := new nat[257];
    var hz, i := 0, 1;
    while i <= 16
      invariant 1 <= i <= 17 && hz == Start(bits, i) <= Total(bits)
      invariant forall e :: 0 <= e < hz ==> huffsize[e] == Size(bits, e)
    {
      StartMonotonic(bits, i + 1, 17);
      var j := 1;
      while j <= bits[i]
        invariant 1 <= j <= bits[i] + 1 && hz == Start(bits, i) + j - 1
        invariant forall e :: 0 <= e < hz ==> huffsize[e] == Size(bits, e)
      {
        SizeUnique(bits, hz, i);
        huffsize[hz] := i;
        hz, j := hz + 1, j + 1;
      }
      i := i + 1;
    }
    huffsize[hz] := 0;
  }

  /** `huffcode`: codes of one length count up, a longer length appends a zero bit. */
  method CodeValues(bits: Counts, huffsize: array<nat>) returns (huffcode: array<nat>)
    requires Total(bits) <= 256 && huffsize.Length == 257
    requires forall e :: 0 <= e < Total(bits) ==> huffsize[e] == Size(bits, e)
    requires huffsize[Total(bits)] == 0
    ensures fresh(huffcode) && huffcode.Length == 257
    ensures forall e :: 0 <= e < Total(bits) ==> huffcode[e] == Code(bits, e)
  {
    huffcode := new nat[257];
    var code, h, nbits := 0, 0, huffsize[0];
    if Total(bits) > 0 {
      NothingBeforeFirst(bits, nbits);
    }
    while huffsize[h] != 0
      invariant 0 <= h <= Total(bits) && nbits <= 17
      invariant h < Total(bits) ==> 1 <= nbits <= 16 && h == Start(bits, nbits) && code == First(bits, nbits)
      invariant forall e :: 0 <= e < h ==> huffcode[e] == Code(bits, e)
      decreases 17 - nbits
    {
      while huffsize[h] == nbits
        invariant Start(bits, nbits) <= h <= Total(bits)
        invariant h <= Start(bits, nbits + 1) && code == First(bits, nbits) + h - Start(bits, nbits)
        invariant forall e :: 0 <= e < h ==> huffcode[e] == Code(bits, e)
        decreases Total(bits) - h
      {
        huffcode[h] := code;
        code, h := code + 1, h + 1;
      }
      if h < Start(bits, nbits + 1) {
        SizeUnique(bits, h, nbits);
      }
      assert h == Start(bits, nbits + 1);
      code := code * 2;
      nbits := nbits + 1;
    }
  }

  lemma {:induction false} NothingBeforeFirst(bits: Counts, l: nat)
    requires Total(bits) > 0 && l == Size(bits, 0)
    ensures Start(bits, l) == 0 && First(bits, l) == 0
  {
    EmptyFirst(bits, l);
  }

  lemma {:induction false} EmptyFirst(bits: Counts, l: nat)
    requires 1 <= l <= 17 && Start(bits, l) == 0
    ensures First(bits, l) == 0
  {
    if l > 1 {
      EmptyFirst(bits, l - 1);
    }
  }

  /** The 9-bit strings that start with the short code `k` lie from here ... */
  function Low(c: Counts, k: nat): nat
    requires k < Total(c) && Size(c, k) <= HASH_BITS
  {
    Code(c, k) * Pow2(HASH_BITS - Size(c, k))
  }

  /** ... up to here. */
  function High(c: Counts, k: nat): nat
    requires k < Total(c) && Size(c, k) <= HASH_BITS
  {
    Low(c, k) + Pow2(HASH_BITS - Size(c, k))
  }

  ghost predicate Covers(c: Counts, k: nat, h: nat) {
    k < Total(c) && Size(c, k) <= HASH_BITS && Low(c, k) <= h < High(c, k)
  }

  /** The strings covered by codes are disjoint, and in the order of the codes. */
  lemma CoversOrdered(c: Counts, k: nat, e: nat)
    requires k < e < Total(c) && Size(c, e) <= HASH_BITS
    ensures Size(c, k) <= HASH_BITS && High(c, k) <= Low(c, e)
  {
    CodesOrdered(c, k, e);
    WidenOrdered(Code(c, k) + 1, Code(c, e), Size(c, e) - Size(c, k), HASH_BITS - Size(c, e));
    Distributes(Code(c, k), Pow2(HASH_BITS - Size(c, k)));
  }

  lemma WidenOrdered(x: nat, y: nat, a: nat, b: nat)
    requires x * Pow2(a) <= y
    ensures x * Pow2(a + b) <= y * Pow2(b)
  {
    PowAdd(a, b);
    MulMonotonic(x * Pow2(a), y, Pow2(b));
    MulAssociates(x, Pow2(a), Pow2(b));
  }

  lemma MulAssociates(x: nat, y: nat, z: nat)
    ensures x * (y * z) == (x * y) * z
  {
  }

  lemma Distributes(x: nat, y: nat)
    ensures (x + 1) * y == x * y + y
  {
  }

  lemma CoversInRange(c: Counts, e: nat)
    requires Kraft(c) && e < Total(c) && Size(c, e) <= HASH_BITS
    ensures High(c, e) <= HASH_SIZE
  {
    var a, b := Size(c, e), HASH_BITS - Size(c, e);
    CodeBound(c, e);
    PowAdd(a, b);
    MulMonotonic(Code(c, e) + 1, Pow2(a), Pow2(b));
    Distributes(Code(c, e), Pow2(b));
    assert Pow2(9) == 512;
  }

  /** The lookup holds the symbols of the first `n` codes where these are short, else -1. */
  ghost predicate LookupHolds(c: Counts, vals: seq<byte>, n: nat, lookup: seq<int>) {
    && n <= Total(c) <= |vals| && |lookup| == HASH_SIZE
    && (forall k, h :: 0 <= k < n && 0 <= h < HASH_SIZE && Covers(c, k, h) ==> lookup[h] == vals[k])
    && (forall h :: 0 <= h < HASH_SIZE ==> lookup[h] == -1 || exists k :: 0 <= k < n && Covers(c, k, h))
  }

  lemma ShortEntered(c: Counts, vals: seq<byte>, e: nat, before: seq<int>, after: seq<int>)
    requires e < Total(c) && Size(c, e) <= HASH_BITS && LookupHolds(c, vals, e, before)
    requires |after| == HASH_SIZE
    requires forall h :: 0 <= h < HASH_SIZE ==> after[h] == if Low(c, e) <= h < High(c, e) then vals[e] else before[h]
    ensures LookupHolds(c, vals, e + 1, after)
  {
    forall k, h | 0 <= k < e && 0 <= h < HASH_SIZE && Covers(c, k, h) ensures after[h] == vals[k] {
      CoversOrdered(c, k, e);
    }
    forall h | 0 <= h < HASH_SIZE && after[h] != -1 ensures exists k :: 0 <= k < e + 1 && Covers(c, k, h) {
      if Low(c, e) <= h < High(c, e) {
        assert Covers(c, e, h);
      } else {
        assert before[h] == after[h];
      }
    }
  }

  /** A long code leaves the lookup alone. */
  lemma LongPassed(c: Counts, vals: seq<byte>, e: nat, lookup: seq<int>)
    requires e < Total(c) && Size(c, e) > HASH_BITS && LookupHolds(c, vals, e, lookup)
    ensures LookupHolds(c, vals, e + 1, lookup)
  {
  }

  /** How many of the first `e` codes have length `n`. */
  function Seen(c: Counts, e: nat, n: nat): (m: nat)
    requires 1 <= n <= 16
    ensures m <= c[n]
  {
    if e <= Start(c, n) then 0 else if e < Start(c, n + 1) then e - Start(c, n) else c[n]
  }

  lemma SeenNext(c: Counts, e: nat, n: nat)
    requires e < Total(c) && 1 <= n <= 16
    ensures Seen(c, e + 1, n) == Seen(c, e, n) + if Size(c, e) == n then 1 else 0
    ensures Size(c, e) == n ==> e == Start(c, n) + Seen(c, e, n) && Seen(c, e, n) < c[n]
  {
    if Start(c, n) <= e < Start(c, n + 1) {
      SizeUnique(c, e, n);
    }
  }

  /** List `l` holds those of the first `e` codes that have length `l + 10`, with their symbols. */
  ghost predicate SlowHolds(c: Counts, vals: seq<byte>, e: nat, l: nat, slow: seq<nat>)
    requires l < SLOW_TABLES
  {
    && e <= Total(c) <= |vals| && |slow| == SLOW_TABLES * SLOW_SIZE
    && 2 * Seen(c, e, l + 10) <= SLOW_SIZE - 2
    && forall i :: 0 <= i < Seen(c, e, l + 10) ==> SlowPair(c, vals, l, i, slow)
  }

  /** Pair `i` of list `l` is the code number `i` of its length, with its symbol. */
  predicate SlowPair(c: Counts, vals: seq<byte>, l: nat, i: nat, slow: seq<nat>)
    requires l < SLOW_TABLES
  {
    var at, k := l * SLOW_SIZE + 2 * i, Start(c, l + 10) + i;
    at + 1 < |slow| && k < |vals| && slow[at] == First(c, l + 10) + i && slow[at + 1] == vals[k]
  }

  ghost predicate AllSlowHold(c: Counts, vals: seq<byte>, e: nat, slow: seq<nat>) {
    forall l :: 0 <= l < SLOW_TABLES ==> SlowHolds(c, vals, e, l, slow)
  }

  lemma LongEntered(c: Counts, vals: seq<byte>, e: nat, before: seq<nat>, after: seq<nat>, at: nat)
    requires e < Total(c) && Size(c, e) > HASH_BITS && AllSlowHold(c, vals, e, before)
    requires Seen(c, e, Size(c, e)) <= 126 && at == (Size(c, e) - 10) * SLOW_SIZE + 2 * Seen(c, e, Size(c, e))
    requires |before| == SLOW_TABLES * SLOW_SIZE && Total(c) <= |vals|
    requires after == before[at := Code(c, e)][at + 1 := vals[e]]
    ensures AllSlowHold(c, vals, e + 1, after)
  {
    var next := e + 1;
    forall l | 0 <= l < SLOW_TABLES ensures SlowHolds(c, vals, next, l, after) {
      assert SlowHolds(c, vals, e, l, before);
      LongEnteredInList(c, vals, e, l, before, after, at);
    }
  }

  lemma LongEnteredInList(c: Counts, vals: seq<byte>, e: nat, l: nat, before: seq<nat>, after: seq<nat>, at: nat)
    requires e < Total(c) && Size(c, e) > HASH_BITS && l < SLOW_TABLES && SlowHolds(c, vals, e, l, before)
    requires Seen(c, e, Size(c, e)) <= 126 && at == (Size(c, e) - 10) * SLOW_SIZE + 2 * Seen(c, e, Size(c, e))
    requires |before| == SLOW_TABLES * SLOW_SIZE && Total(c) <= |vals|
    requires after == before[at := Code(c, e)][at + 1 := vals[e]]
    ensures SlowHolds(c, vals, e + 1, l, after)
  {
    SeenNext(c, e, l + 10);
    var m := Seen(c, e + 1, l + 10);
    forall i | 0 <= i < m ensures SlowPair(c, vals, l, i, after) {
      if i < Seen(c, e, l + 10) {
        assert SlowPair(c, vals, l, i, before);
      }
    }
  }

  /** A short code leaves the lists alone. */
  lemma ShortPassed(c: Counts, vals: seq<byte>, e: nat, slow: seq<nat>)
    requires e < Total(c) && Size(c, e) <= HASH_BITS && AllSlowHold(c, vals, e, slow)
    ensures AllSlowHold(c, vals, e + 1, slow)
  {
    var next := e + 1;
    forall l | 0 <= l < SLOW_TABLES ensures SlowHolds(c, vals, next, l, slow) {
      assert SlowHolds(c, vals, e, l, slow);
      SeenNext(c, e, l + 10);
    }
  }

  class Table {
    const lookup: array<int>
    const codeSize: array<nat>
    // seven lists of 256 entries
    const slowtable: array<nat>

    ghost predicate Valid() {
      && lookup.Length == HASH_SIZE
      && codeSize.Length == 256
      && slowtable.Length == SLOW_TABLES * SLOW_SIZE
      && codeSize != slowtable
    }

    constructor ()
      ensures Valid() && fresh(lookup) && fresh(codeSize) && fresh(slowtable)
    {
      lookup := new int[HASH_SIZE];
      codeSize := new nat[256];
      slowtable := new nat[SLOW_TABLES * SLOW_SIZE];
    }

    /** Enters the short code `e` for every 9-bit string that starts with it. */
    method EnterShort(c: Counts, vals: seq<byte>, e: nat, code: nat, size: nat)
      requires Valid() && Kraft(c) && e < Total(c) <= |vals|
      requires code == Code(c, e) && size == Size(c, e) <= HASH_BITS
      requires LookupHolds(c, vals, e, lookup[..])
      modifies lookup
      ensures LookupHolds(c, vals, e + 1, lookup[..])
    {
      CoversInRange(c, e);
      var repeat := Pow2(HASH_BITS - size);
      Fill(code * repeat, repeat, vals[e]);
      ShortEntered(c, vals, e, old(lookup[..]), lookup[..]);
    }

    method Fill(start: nat, count: nat, val: int)
      requires Valid() && start + count <= HASH_SIZE
      modifies lookup
      ensures forall h :: 0 <= h < HASH_SIZE ==> lookup[h] == if start <= h < start + count then val else old(lookup[h])
    {
      var code, repeat := start, count;
      while repeat > 0
        invariant start <= code && 0 <= repeat && code + repeat == start + count
        invariant forall h :: 0 <= h < HASH_SIZE ==> lookup[h] == if start <= h < code then val else old(lookup[h])
      {
        lookup[code] := val;
        code, repeat := code + 1, repeat - 1;
      }
    }

    /** Enters the long code `e` into the list of codes of its length. */
    method EnterLong(c: Counts, vals: seq<byte>, e: nat, code: nat, size: nat, used: nat)
      requires Valid() && e < Total(c) <= |vals|
      requires code == Code(c, e) && size == Size(c, e) > HASH_BITS
      requires used == 2 * Seen(c, e, size) <= 252
      requires AllSlowHold(c, vals, e, slowtable[..])
      modifies slowtable
      ensures AllSlowHold(c, vals, e + 1, slowtable[..])
    {
      var list := size - HASH_BITS - 1;
      slowtable[list * SLOW_SIZE + used] := code;
      slowtable[list * SLOW_SIZE + used + 1] := vals[e];
      LongEntered(c, vals, e, old(slowtable[..]), slowtable[..], list * SLOW_SIZE + used);
    }

    /** Enters one code; fails if the list for its length is full. */
    method Enter(c: Counts, vals: seq<byte>, e: nat, code: nat, size: nat, used: array<nat>) returns (r: Status)
      requires Valid() && Kraft(c) && DistinctSymbols(c, vals)
      requires e < Total(c) && code == Code(c, e) && size == Size(c, e)
      requires Entered(c, vals, e, lookup[..], codeSize[..], slowtable[..], used[..])
      requires used != codeSize && used != slowtable
      modifies lookup, codeSize, slowtable, used
      ensures r == OK || r == Failure(NoSpace)
      ensures r == OK ==> Entered(c, vals, e + 1, lookup[..], codeSize[..], slowtable[..], used[..])
      ensures r == OK <==> size <= HASH_BITS || Seen(c, e, size) < 127
    {
      hide SlowHolds, AllSlowHold, LookupHolds, SizesHold;
      codeSize[vals[e]] := size;
      SizeEntered(c, vals, e, old(codeSize[..]), codeSize[..]);
      if size <= HASH_BITS {
        EnterShort(c, vals, e, code, size);
        ShortPassed(c, vals, e, slowtable[..]);
      } else {
        var list := size - HASH_BITS - 1;
        assert UsedEntry(c, e, list, used[list]);
        if used[list] == 254 {
          return Failure(NoSpace);
        }
        EnterLong(c, vals, e, code, size, used[list]);
        LongPassed(c, vals, e, lookup[..]);
        used[list] := used[list] + 2;
      }
      UsedNext(c, e, old(used[..]), used[..]);
      return OK;
    }

    /** Builds the tables. The only limit is the length of the lists for long codes. */
    method Build(bits: Counts, vals: seq<byte>) returns (r: Status)
      requires Valid() && Kraft(bits) && Total(bits) <= 256 && DistinctSymbols(bits, vals)
      modifies lookup, codeSize, slowtable
      ensures r == OK || r == Failure(NoSpace)
      ensures r == OK <==> ListsSuffice(bits)
      ensures r == OK ==> Represents(bits, vals, lookup[..], codeSize[..], slowtable[..])
    {
      hide LookupHolds, SizesHold, AllSlowHold, UsedHolds, Represents, ListsSuffice;
      var huffsize := CodeSizes(bits);
      var huffcode := CodeValues(bits, huffsize);
      forall h | 0 <= h < HASH_SIZE {
        lookup[h] := -1;
      }
      var used := new nat[SLOW_TABLES](_ => 0);
      NothingEntered(bits, vals, lookup[..], codeSize[..], slowtable[..], used[..]);
      var _ :- EnterAll(bits, vals, huffsize, huffcode, used);
      UsedBound(bits, Total(bits), used[..]);
      ghost var slow := slowtable[..];
      Terminate(used);
      AllEntered(bits, vals, lookup[..], codeSize[..], slow, used[..], slowtable[..]);
      return OK;
    }

    method EnterAll(bits: Counts, vals: seq<byte>, huffsize: array<nat>, huffcode: array<nat>, used: array<nat>)
        returns (r: Status)
      requires Valid() && Kraft(bits) && Total(bits) <= 256 && DistinctSymbols(bits, vals)
      requires huffsize.Length == huffcode.Length == 257 && huffsize[Total(bits)] == 0
      requires forall e :: 0 <= e < Total(bits) ==> huffsize[e] == Size(bits, e) && huffcode[e] == Code(bits, e)
      requires huffsize !in {codeSize, slowtable, used} && huffcode !in {codeSize, slowtable, used}
      requires used != codeSize && used != slowtable
      requires Entered(bits, vals, 0, lookup[..], codeSize[..], slowtable[..], used[..])
      modifies lookup, codeSize, slowtable, used
      ensures r == OK || (r == Failure(NoSpace) && !ListsSuffice(bits))
      ensures r == OK ==> Entered(bits, vals, Total(bits), lookup[..], codeSize[..], slowtable[..], used[..])
    {
      hide LookupHolds, SizesHold, AllSlowHold, Entered, ListsSuffice;
      var i := 0;
      while huffsize[i] != 0
        invariant 0 <= i <= Total(bits)
        invariant forall e :: 0 <= e < Total(bits) ==> huffsize[e] == Size(bits, e) && huffcode[e] == Code(bits, e)
        invariant huffsize[Total(bits)] == 0
        invariant Entered(bits, vals, i, lookup[..], codeSize[..], slowtable[..], used[..])
        decreases Total(bits) - i
      {
        r := Enter(bits, vals, i, huffcode[i], huffsize[i], used);
        if r.Failure? {
          ListTooLong(bits, i);
          return;
        }
        i := i + 1;
      }
      return OK;
    }

    method Terminate(used: array<nat>)
      requires Valid() && used.Length == SLOW_TABLES && forall l :: 0 <= l < SLOW_TABLES ==> used[l] <= 254
      requires used != slowtable
      modifies slowtable
      ensures Terminated(used[..], old(slowtable[..]), slowtable[..])
    {
      var i := 0;
      while i < SLOW_TABLES
        invariant 0 <= i <= SLOW_TABLES
        invariant forall l :: 0 <= l < i ==> slowtable[l * SLOW_SIZE + used[l]] == 0
        invariant forall at :: 0 <= at < SLOW_TABLES * SLOW_SIZE && !Terminator(used[..i], at) ==>
          slowtable[at] == old(slowtable[at])
      {
        slowtable[i * SLOW_SIZE + used[i]] := 0;
        i := i + 1;
      }
    }
  }

  predicate DistinctSymbols(c: Counts, vals: seq<byte>) {
    Total(c) <= |vals| && forall j, k :: 0 <= j < k < Total(c) ==> vals[j] != vals[k]
  }

  ghost predicate SizesHold(c: Counts, vals: seq<byte>, n: nat, sizes: seq<nat>) {
    n <= Total(c) <= |vals| && |sizes| == 256 && forall k :: 0 <= k < n ==> sizes[vals[k]] == Size(c, k)
  }

  lemma SizeEntered(c: Counts, vals: seq<byte>, e: nat, before: seq<nat>, after: seq<nat>)
    requires e < Total(c) && DistinctSymbols(c, vals) && SizesHold(c, vals, e, before)
    requires after == before[vals[e] := Size(c, e)]
    ensures SizesHold(c, vals, e + 1, after)
  {
  }

  ghost predicate UsedHolds(c: Counts, e: nat, used: seq<nat>) {
    |used| == SLOW_TABLES && forall l :: 0 <= l < SLOW_TABLES ==> UsedEntry(c, e, l, used[l])
  }

  ghost predicate UsedEntry(c: Counts, e: nat, l: nat, n: nat)
    requires l < SLOW_TABLES
  {
    n == 2 * Seen(c, e, l + 10) <= 254
  }

  lemma UsedNext(c: Counts, e: nat, before: seq<nat>, after: seq<nat>)
    requires e < Total(c) && UsedHolds(c, e, before)
    requires Size(c, e) <= HASH_BITS || Seen(c, e, Size(c, e)) < 127
    requires after == if Size(c, e) <= HASH_BITS then before else before[Size(c, e) - 10 := before[Size(c, e) - 10] + 2]
    ensures UsedHolds(c, e + 1, after)
  {
    var next := e + 1;
    forall l | 0 <= l < SLOW_TABLES ensures UsedEntry(c, next, l, after[l]) {
      assert UsedEntry(c, e, l, before[l]);
      SeenNext(c, e, l + 10);
    }
  }

  /** The state of the tables after the first `e` codes. */
  ghost predicate Entered(c: Counts, vals: seq<byte>, e: nat, lookup: seq<int>, sizes: seq<nat>, slow: seq<nat>,
                          used: seq<nat>) {
    && LookupHolds(c, vals, e, lookup)
    && SizesHold(c, vals, e, sizes)
    && AllSlowHold(c, vals, e, slow)
    && UsedHolds(c, e, used)
  }

  ghost predicate Terminator(used: seq<nat>, at: nat) {
    exists l :: 0 <= l < |used| && at == l * SLOW_SIZE + used[l]
  }

  /** The lists after each got its closing zero. */
  ghost predicate Terminated(used: seq<nat>, before: seq<nat>, after: seq<nat>) {
    && |before| == |after| == SLOW_TABLES * SLOW_SIZE
    && (forall l :: 0 <= l < |used| ==> l * SLOW_SIZE + used[l] < |after| && after[l * SLOW_SIZE + used[l]] == 0)
    && (forall at :: 0 <= at < |after| && !Terminator(used, at) ==> after[at] == before[at])
  }

  /** Each list of 256 entries takes 127 codes and the closing zero. */
  predicate ListsSuffice(c: Counts) {
    forall n :: 10 <= n <= 16 ==> c[n] <= 127
  }

  /** The tables stand for this code. */
  ghost predicate Represents(c: Counts, vals: seq<byte>, lookup: seq<int>, sizes: seq<nat>, slow: seq<nat>) {
    && LookupHolds(c, vals, Total(c), lookup)
    && SizesHold(c, vals, Total(c), sizes)
    && |slow| == SLOW_TABLES * SLOW_SIZE
    && forall l :: 0 <= l < SLOW_TABLES ==> ListHolds(c, vals, l, slow)
  }

  /** List `l` consists of all codes of length `l + 10` with their symbols, and a closing zero. */
  ghost predicate ListHolds(c: Counts, vals: seq<byte>, l: nat, slow: seq<nat>)
    requires l < SLOW_TABLES && |slow| == SLOW_TABLES * SLOW_SIZE
  {
    && c[l + 10] <= 127
    && (forall i :: 0 <= i < c[l + 10] ==> SlowPair(c, vals, l, i, slow))
    && slow[l * SLOW_SIZE + 2 * c[l + 10]] == 0
  }

  lemma NothingEntered(c: Counts, vals: seq<byte>, lookup: seq<int>, sizes: seq<nat>, slow: seq<nat>, used: seq<nat>)
    requires Total(c) <= |vals| && |lookup| == HASH_SIZE && |sizes| == 256 && |slow| == SLOW_TABLES * SLOW_SIZE
    requires forall h :: 0 <= h < HASH_SIZE ==> lookup[h] == -1
    requires |used| == SLOW_TABLES && forall l :: 0 <= l < SLOW_TABLES ==> used[l] == 0
    ensures Entered(c, vals, 0, lookup, sizes, slow, used)
  {
  }

  lemma ListTooLong(c: Counts, e: nat)
    requires e < Total(c) && Size(c, e) > HASH_BITS && Seen(c, e, Size(c, e)) >= 127
    ensures !ListsSuffice(c)
  {
    SeenNext(c, e, Size(c, e));
  }

  lemma SeenAll(c: Counts, n: nat)
    requires 1 <= n <= 16
    ensures Seen(c, Total(c), n) == c[n]
  {
    StartMonotonic(c, n + 1, 17);
  }

  lemma UsedBound(c: Counts, e: nat, used: seq<nat>)
    requires UsedHolds(c, e, used)
    ensures |used| == SLOW_TABLES && forall l :: 0 <= l < SLOW_TABLES ==> used[l] <= 254
  {
    forall l | 0 <= l < SLOW_TABLES ensures used[l] <= 254 {
      assert UsedEntry(c, e, l, used[l]);
    }
  }

  lemma TerminatorsBehind(used: seq<nat>, l: nat, j: nat)
    requires |used| == SLOW_TABLES && forall l :: 0 <= l < SLOW_TABLES ==> used[l] <= 254
    requires l < SLOW_TABLES && j < used[l]
    ensures !Terminator(used, l * SLOW_SIZE + j)
  {
  }

  lemma PairSurvives(c: Counts, vals: seq<byte>, l: nat, i: nat, used: seq<nat>, slow: seq<nat>, after: seq<nat>)
    requires l < SLOW_TABLES && SlowPair(c, vals, l, i, slow) && Terminated(used, slow, after)
    requires |used| == SLOW_TABLES && forall l :: 0 <= l < SLOW_TABLES ==> used[l] <= 254
    requires 2 * i + 1 < used[l]
    ensures SlowPair(c, vals, l, i, after)
  {
    TerminatorsBehind(used, l, 2 * i);
    TerminatorsBehind(used, l, 2 * i + 1);
  }

  lemma ListEntered(c: Counts, vals: seq<byte>, l: nat, slow: seq<nat>, used: seq<nat>, after: seq<nat>)
    requires AllSlowHold(c, vals, Total(c), slow) && UsedHolds(c, Total(c), used) && Terminated(used, slow, after)
    requires l < SLOW_TABLES
    ensures ListHolds(c, vals, l, after)
  {
    hide SlowPair, Terminated, Terminator;
    UsedBound(c, Total(c), used);
    SeenAll(c, l + 10);
    assert UsedEntry(c, Total(c), l, used[l]);
    assert SlowHolds(c, vals, Total(c), l, slow);
    forall i | 0 <= i < c[l + 10] ensures SlowPair(c, vals, l, i, after) {
      PairSurvives(c, vals, l, i, used, slow, after);
    }
    ClosedByZero(used, slow, after, l);
  }

  lemma ClosedByZero(used: seq<nat>, slow: seq<nat>, after: seq<nat>, l: nat)
    requires Terminated(used, slow, after) && l < |used|
    ensures |after| == SLOW_TABLES * SLOW_SIZE && l * SLOW_SIZE + used[l] < |after| &&
            after[l * SLOW_SIZE + used[l]] == 0
  {
  }

  lemma AllEntered(c: Counts, vals: seq<byte>, lookup: seq<int>, sizes: seq<nat>, slow: seq<nat>, used: seq<nat>,
                   after: seq<nat>)
    requires Entered(c, vals, Total(c), lookup, sizes, slow, used) && Terminated(used, slow, after)
    ensures Represents(c, vals, lookup, sizes, after) && ListsSuffice(c)
  {
    forall l | 0 <= l < SLOW_TABLES ensures ListHolds(c, vals, l, after) {
      ListEntered(c, vals, l, slow, used, after);
    }
    forall n | 10 <= n <= 16 ensures c[n] <= 127 {
      assert ListHolds(c, vals, n - 10, after);
    }
  }
}
