/** The dirty sectors of the cache: which of them a commit programs, and what is left when it fails. */
module DirtySectors {
  import opened Bytes
  import opened Eeprom

  const MAX_SECTORS: nat := 1024
  const SECTORS_PER_BLOCK: nat := 16
  // from this many dirty sectors on, erasing the whole block is faster
  const WHOLE_BLOCK_THRESHOLD: nat := 12

  /** How many of the `n` flags from `start` on are set. */
  function DirtyCount(dirty: seq<bool>, start: nat, n: nat): nat
    requires start + n <= |dirty|
  {
    if n == 0 then 0 else DirtyCount(dirty, start, n - 1) + if dirty[start + n - 1] then 1 else 0
  }

  lemma {:induction false} DirtyCountZero(dirty: seq<bool>, start: nat, n: nat)
    requires start + n <= |dirty|
    ensures DirtyCount(dirty, start, n) == 0 <==> forall s :: start <= s < start + n ==> !dirty[s]
  {
    if n > 0 {
      DirtyCountZero(dirty, start, n - 1);
    }
  }

  /** The first sector of the 64 KiB block around `sector`. */
  function BlockStart(sector: nat): (bss: nat)
    ensures bss <= sector < bss + SECTORS_PER_BLOCK && bss % SECTORS_PER_BLOCK == 0
  {
    sector / SECTORS_PER_BLOCK * SECTORS_PER_BLOCK
  }

  lemma {:induction false} DirtyCountFrame(a: seq<bool>, b: seq<bool>, start: nat, n: nat)
    requires start + n <= |a| == |b|
    requires forall s :: start <= s < start + n ==> a[s] == b[s]
    ensures DirtyCount(a, start, n) == DirtyCount(b, start, n)
  {
    if n > 0 {
      DirtyCountFrame(a, b, start, n - 1);
    }
  }

  /** Does a commit starting from these dirty flags program this sector of the block from `bss` on? */
  predicate ProgramsInBlock(dirty: seq<bool>, has4kSectors: bool, pp64k: bool, bss: nat, sector: nat)
    requires bss <= sector < bss + SECTORS_PER_BLOCK <= |dirty|
  {
    var count := DirtyCount(dirty, bss, SECTORS_PER_BLOCK);
    count > 0 && (dirty[sector] || pp64k || !has4kSectors || count >= WHOLE_BLOCK_THRESHOLD)
  }

  predicate Programs(dirty: seq<bool>, has4kSectors: bool, pp64k: bool, sector: nat)
    requires BlockStart(sector) + SECTORS_PER_BLOCK <= |dirty|
  {
    ProgramsInBlock(dirty, has4kSectors, pp64k, BlockStart(sector), sector)
  }

  /** The dirty sectors of the 64 KiB block around a byte. */
  function DirtyAround(dirty: seq<bool>, i: nat): set<nat> {
    set s: nat | i / 65536 * 16 <= s < i / 65536 * 16 + 16 && s < |dirty| && dirty[s]
  }

  lemma {:induction false} DirtyCountIs(dirty: seq<bool>, start: nat, n: nat)
    requires start + n <= |dirty|
    ensures DirtyCount(dirty, start, n) == |set s: nat | start <= s < start + n && dirty[s]|
  {
    if n > 0 {
      DirtyCountIs(dirty, start, n - 1);
      var before, now := set s: nat | start <= s < start + (n - 1) && dirty[s], set s: nat | start <= s < start + n &&
      dirty[s];
      assert now == if dirty[start + n - 1] then before + {start + n - 1} else before;
    }
  }

  /** What a commit programs, in numbers: blocks with a dirty sector, in whole if there are twelve, if the device
      programs whole blocks, or if it cannot erase sectors of 4 KiB; otherwise the dirty sectors. */
  lemma ProgramsInNumbers(dirty: seq<bool>, has4kSectors: bool, pp64k: bool, i: nat)
    requires |dirty| == 1024 && i < 0x40_0000
    ensures Programs(dirty, has4kSectors, pp64k, i / 4096) <==>
            DirtyAround(dirty, i) != {} &&
            (dirty[i / 4096] || pp64k || !has4kSectors || |DirtyAround(dirty, i)| >= 12)
  {
    hide DirtyCount;
    var start := BlockStart(i / 4096);
    assert start == i / 65536 * 16;
    DirtyCountIs(dirty, start, 16);
    assert DirtyAround(dirty, i) == set s: nat | start <= s < start + 16 && dirty[s];
    assert DirtyAround(dirty, i) == {} <==> |DirtyAround(dirty, i)| == 0;
  }

  /** Does every byte that a commit will not program already read the same from the flash? */
  ghost predicate RestInSync(dirty: seq<bool>, has4kSectors: bool, pp64k: bool, cells: seq<byte>, contents: seq<byte>)
    requires |dirty| == MAX_SECTORS && |cells| == |contents| <= MAX_SECTORS * SECTOR_SIZE
  {
    forall i :: 0 <= i < |cells| && !Programs(dirty, has4kSectors, pp64k, i / SECTOR_SIZE) ==> cells[i] == contents[i]
  }

  /** The flash below `end` after a commit. */
  ghost predicate CommitEffect(dirty: seq<bool>, has4kSectors: bool, pp64k: bool,
                               before: seq<byte>, after: seq<byte>, contents: seq<byte>, end: nat)
    requires |dirty| == MAX_SECTORS && end <= |before| == |after| == |contents| <= MAX_SECTORS * SECTOR_SIZE
  {
    forall i :: 0 <= i < end ==>
      after[i] == if Programs(dirty, has4kSectors, pp64k, i / SECTOR_SIZE) then contents[i] else before[i]
  }

  /** The flash of one block after it has been committed. */
  ghost predicate BlockEffect(dirty: seq<bool>, has4kSectors: bool, pp64k: bool,
                              before: seq<byte>, after: seq<byte>, contents: seq<byte>, bss: nat)
    requires |dirty| == MAX_SECTORS && |before| == |after| == |contents| <= MAX_SECTORS * SECTOR_SIZE
    requires (bss + SECTORS_PER_BLOCK) * SECTOR_SIZE <= |contents|
  {
    forall i :: bss * SECTOR_SIZE <= i < (bss + SECTORS_PER_BLOCK) * SECTOR_SIZE ==>
      after[i] == if ProgramsInBlock(dirty, has4kSectors, pp64k, bss, i / SECTOR_SIZE) then contents[i] else before[i]
  }

  lemma CommitNextBlock(was: seq<bool>, dirty: seq<bool>, has4kSectors: bool, pp64k: bool, before: seq<byte>,
                        middle: seq<byte>, after: seq<byte>, contents: seq<byte>, bss: nat)
    requires |was| == |dirty| == MAX_SECTORS && |before| == |middle| == |contents| <= MAX_SECTORS * SECTOR_SIZE
    requires bss % SECTORS_PER_BLOCK == 0 && (bss + SECTORS_PER_BLOCK) * SECTOR_SIZE <= |contents|
    requires forall s :: bss <= s < MAX_SECTORS ==> dirty[s] == was[s]
    requires CommitEffect(was, has4kSectors, pp64k, before, middle, contents, bss * SECTOR_SIZE)
    requires forall i :: bss * SECTOR_SIZE <= i < |before| ==> middle[i] == before[i]
    requires SameOutside(middle, after, bss * SECTOR_SIZE, BLOCK_SIZE)
    requires BlockEffect(dirty, has4kSectors, pp64k, middle, after, contents, bss)
    ensures CommitEffect(was, has4kSectors, pp64k, before, after, contents, (bss + SECTORS_PER_BLOCK) * SECTOR_SIZE)
  {
    DirtyCountFrame(was, dirty, bss, SECTORS_PER_BLOCK);
  }

  lemma CommitInNumbers(dirty: seq<bool>, has4kSectors: bool, pp64k: bool, before: seq<byte>, after: seq<byte>,
                        contents: seq<byte>, end: nat, i: nat)
    requires |dirty| == 1024 && i < end <= |before| == |after| == |contents| <= 0x40_0000
    requires CommitEffect(dirty, has4kSectors, pp64k, before, after, contents, end)
    ensures after[i] == if DirtyAround(dirty, i) != {} &&
                           (dirty[i / 4096] || pp64k || !has4kSectors || |DirtyAround(dirty, i)| >= 12)
                          then contents[i] else before[i]
  {
    hide Programs, DirtyAround;
    ProgramsInNumbers(dirty, has4kSectors, pp64k, i);
  }

  /** Is the byte at `i` in a block without dirty sectors? */
  predicate InCleanBlock(dirty: seq<bool>, i: nat)
    requires |dirty| == MAX_SECTORS && i < MAX_SECTORS * SECTOR_SIZE
  {
    DirtyCount(dirty, BlockStart(i / SECTOR_SIZE), SECTORS_PER_BLOCK) == 0
  }

  /** Blocks without dirty sectors are as they were. */
  ghost predicate CleanBlocksKept(dirty: seq<bool>, before: seq<byte>, after: seq<byte>)
    requires |dirty| == MAX_SECTORS && |before| == |after| <= MAX_SECTORS * SECTOR_SIZE
  {
    forall i :: 0 <= i < |before| && InCleanBlock(dirty, i) ==> after[i] == before[i]
  }

  lemma NothingChanged(dirty: seq<bool>, cells: seq<byte>)
    requires |dirty| == MAX_SECTORS && |cells| <= MAX_SECTORS * SECTOR_SIZE
    ensures CleanBlocksKept(dirty, cells, cells)
    ensures forall contents: seq<byte>, has4kSectors, pp64k | |contents| == |cells| ::
              CommitEffect(dirty, has4kSectors, pp64k, cells, cells, contents, 0)
  {
  }

  lemma CleanBlocksStay(dirty: seq<bool>, before: seq<byte>, middle: seq<byte>, after: seq<byte>, bss: nat)
    requires |dirty| == MAX_SECTORS && |before| == |middle| <= MAX_SECTORS * SECTOR_SIZE
    requires bss % SECTORS_PER_BLOCK == 0 && (bss + SECTORS_PER_BLOCK) * SECTOR_SIZE <= |before|
    requires CleanBlocksKept(dirty, before, middle) && SameOutside(middle, after, bss * SECTOR_SIZE, BLOCK_SIZE)
    requires DirtyCount(dirty, bss, SECTORS_PER_BLOCK) == 0 ==> after == middle
    ensures CleanBlocksKept(dirty, before, after)
  {
    hide InCleanBlock, DirtyCount;
    forall i | 0 <= i < |before| && InCleanBlock(dirty, i) ensures after[i] == before[i] {
      if bss * SECTOR_SIZE <= i < bss * SECTOR_SIZE + BLOCK_SIZE {
        InBlock(dirty, i, bss);
      }
    }
  }

  lemma InBlock(dirty: seq<bool>, i: nat, bss: nat)
    requires |dirty| == MAX_SECTORS && i < MAX_SECTORS * SECTOR_SIZE
    requires bss % SECTORS_PER_BLOCK == 0 && bss * SECTOR_SIZE <= i < bss * SECTOR_SIZE + BLOCK_SIZE
    ensures bss + SECTORS_PER_BLOCK <= MAX_SECTORS &&
            InCleanBlock(dirty, i) == (DirtyCount(dirty, bss, SECTORS_PER_BLOCK) == 0)
  {
    hide DirtyCount;
    var block := bss / 16;
    assert bss == 16 * block && i / 0x1000 - bss < 16 && bss <= i / 0x1000;
  }

  lemma CommitSynchronizes(dirty: seq<bool>, has4kSectors: bool, pp64k: bool,
                           before: seq<byte>, after: seq<byte>, contents: seq<byte>)
    requires |dirty| == MAX_SECTORS && |before| == |after| == |contents| <= MAX_SECTORS * SECTOR_SIZE
    requires CommitEffect(dirty, has4kSectors, pp64k, before, after, contents, |before|)
    ensures after == contents <==> RestInSync(dirty, has4kSectors, pp64k, before, contents)
    ensures (forall i :: 0 <= i < |before| && !dirty[i / SECTOR_SIZE] ==> before[i] == contents[i]) ==>
      after == contents
  {
    forall i | 0 <= i < |before| && dirty[i / SECTOR_SIZE] ensures after[i] == contents[i] {
      DirtyCountZero(dirty, BlockStart(i / SECTOR_SIZE), SECTORS_PER_BLOCK);
    }
  }

  // ----- Commits that fail and are repeated -----

  /** From this many dirty sectors on, a block is erased and programmed as a whole. */
  function Threshold(has4kSectors: bool): (n: nat)
    ensures n > 0
  {
    if has4kSectors then WHOLE_BLOCK_THRESHOLD else 1
  }

  /** How many sectors are dirty from `s` to the end of its block. */
  function Rest(dirty: seq<bool>, bss: nat, s: nat): nat
    requires bss <= s < bss + SECTORS_PER_BLOCK <= |dirty|
  {
    DirtyCount(dirty, s, bss + SECTORS_PER_BLOCK - s)
  }

  /** A guard of a commit that may fail, on the dirty flags alone: either the block is programmed with one command, or
      only its dirty sectors are erased, or behind every clean sector there are enough dirty ones for the block to be
      programmed as a whole again. */
  predicate SafeBlock(dirty: seq<bool>, has4kSectors: bool, pp64k: bool, bss: nat)
    requires bss + SECTORS_PER_BLOCK <= |dirty|
  {
    || pp64k
    || DirtyCount(dirty, bss, SECTORS_PER_BLOCK) < Threshold(has4kSectors)
    || forall s :: bss <= s < bss + SECTORS_PER_BLOCK && !dirty[s] ==> Rest(dirty, bss, s) >= Threshold(has4kSectors)
  }

  predicate SafeToFail(dirty: seq<bool>, has4kSectors: bool, pp64k: bool) {
    forall bss :: 0 <= bss && bss + SECTORS_PER_BLOCK <= |dirty| && bss % SECTORS_PER_BLOCK == 0 ==>
                    SafeBlock(dirty, has4kSectors, pp64k, bss)
  }

  /** Without erasable 4 KiB sectors, a block is safe exactly if it is clean or its last sector is dirty. */
  lemma SafeWithout4k(dirty: seq<bool>, bss: nat)
    requires bss + SECTORS_PER_BLOCK <= |dirty|
    ensures SafeBlock(dirty, false, false, bss) <==>
              dirty[bss + SECTORS_PER_BLOCK - 1] || forall s :: bss <= s < bss + SECTORS_PER_BLOCK ==> !dirty[s]
  {
    DirtyCountZero(dirty, bss, SECTORS_PER_BLOCK);
    forall s | bss <= s < bss + SECTORS_PER_BLOCK
      ensures Rest(dirty, bss, s) == 0 <==> forall t :: s <= t < bss + SECTORS_PER_BLOCK ==> !dirty[t]
    {
      DirtyCountZero(dirty, s, bss + SECTORS_PER_BLOCK - s);
    }
    assert Rest(dirty, bss, bss + 15) == 0 <==> !dirty[bss + 15];
  }

  /** Does the flash hold what this sector reads as? */
  ghost predicate InSync(cells: seq<byte>, contents: seq<byte>, s: nat)
    requires |cells| == |contents| && (s + 1) * SECTOR_SIZE <= |cells|
  {
    forall i :: s * SECTOR_SIZE <= i < (s + 1) * SECTOR_SIZE ==> cells[i] == contents[i]
  }

  /** Which sectors of the flash are in sync. */
  ghost function Synced(cells: seq<byte>, contents: seq<byte>): (sync: seq<bool>)
    requires |cells| == |contents|
    ensures |sync| == |cells| / SECTOR_SIZE
    ensures forall s :: 0 <= s < |sync| ==> sync[s] == InSync(cells, contents, s)
  {
    seq(|cells| / SECTOR_SIZE, s requires 0 <= s < |cells| / SECTOR_SIZE => InSync(cells, contents, s))
  }

  /** The clean sectors of a block that are not in sync will be programmed by the next commit, and still be programmed
      after it has failed. */
  predicate RescuedBlock(dirty: seq<bool>, sync: seq<bool>, has4kSectors: bool, pp64k: bool, bss: nat)
    requires bss + SECTORS_PER_BLOCK <= |dirty| && bss + SECTORS_PER_BLOCK <= |sync|
  {
    forall s :: bss <= s < bss + SECTORS_PER_BLOCK && !dirty[s] && !sync[s] ==>
      if pp64k then DirtyCount(dirty, bss, SECTORS_PER_BLOCK) > 0
      else Rest(dirty, bss, s) >= Threshold(has4kSectors)
  }

  predicate Recoverable(dirty: seq<bool>, sync: seq<bool>, has4kSectors: bool, pp64k: bool)
    requires |sync| <= |dirty|
  {
    forall bss :: 0 <= bss && bss + SECTORS_PER_BLOCK <= |sync| && bss % SECTORS_PER_BLOCK == 0 ==>
                    RescuedBlock(dirty, sync, has4kSectors, pp64k, bss)
  }

  /** What a commit of one block may leave, whether it fails or not. */
  predicate BlockStep(dirty: seq<bool>, sync: seq<bool>, dirty': seq<bool>, sync': seq<bool>,
                      has4kSectors: bool, pp64k: bool, bss: nat)
    requires |dirty| == |dirty'| && |sync| == |sync'| <= |dirty| && bss + SECTORS_PER_BLOCK <= |sync|
  {
    var count := DirtyCount(dirty, bss, SECTORS_PER_BLOCK);
    if count == 0 then KeptBlock(dirty, sync, dirty', sync', bss)
    else if pp64k then BlockAtOnce(dirty, dirty', sync', bss)
    else if count < Threshold(has4kSectors) then SectorBySector(dirty, sync, dirty', sync', bss)
    else exists done :: 0 <= done <= SECTORS_PER_BLOCK && Interrupted(dirty, dirty', sync', bss, done)
  }

  predicate KeptBlock(dirty: seq<bool>, sync: seq<bool>, dirty': seq<bool>, sync': seq<bool>, bss: nat)
    requires |dirty| == |dirty'| && |sync| == |sync'| <= |dirty| && bss + SECTORS_PER_BLOCK <= |sync|
  {
    forall s :: bss <= s < bss + SECTORS_PER_BLOCK ==> dirty'[s] == dirty[s] && sync'[s] == sync[s]
  }

  /** The block is clean and in sync, or the dirty flags are as they were. */
  predicate BlockAtOnce(dirty: seq<bool>, dirty': seq<bool>, sync': seq<bool>, bss: nat)
    requires |dirty| == |dirty'| && bss + SECTORS_PER_BLOCK <= |sync'| <= |dirty|
  {
    || (forall s :: bss <= s < bss + SECTORS_PER_BLOCK ==> dirty'[s] == dirty[s])
    || (forall s :: bss <= s < bss + SECTORS_PER_BLOCK ==> !dirty'[s] && sync'[s])
  }

  /** Clean sectors are left alone, and those that have become clean are in sync. */
  predicate SectorBySector(dirty: seq<bool>, sync: seq<bool>, dirty': seq<bool>, sync': seq<bool>, bss: nat)
    requires |dirty| == |dirty'| && |sync| == |sync'| <= |dirty| && bss + SECTORS_PER_BLOCK <= |sync|
  {
    forall s :: bss <= s < bss + SECTORS_PER_BLOCK ==>
      if dirty[s] then dirty'[s] || sync'[s] else !dirty'[s] && sync'[s] == sync[s]
  }

  /** The block has been erased or not, and `done` of its sectors have been programmed; anything may be in the
      others. */
  predicate Interrupted(dirty: seq<bool>, dirty': seq<bool>, sync': seq<bool>, bss: nat, done: nat)
    requires |dirty| == |dirty'| && bss + SECTORS_PER_BLOCK <= |sync'| <= |dirty| && done <= SECTORS_PER_BLOCK
  {
    && (forall s :: bss <= s < bss + done ==> !dirty'[s] && sync'[s])
    && (forall s :: bss + done <= s < bss + SECTORS_PER_BLOCK ==> dirty'[s] == dirty[s])
  }

  lemma {:induction false} DirtyCountSplit(dirty: seq<bool>, start: nat, k: nat, n: nat)
    requires k <= n && start + n <= |dirty|
    ensures DirtyCount(dirty, start, n) == DirtyCount(dirty, start, k) + DirtyCount(dirty, start + k, n - k)
  {
    if k < n {
      DirtyCountSplit(dirty, start, k, n - 1);
    }
  }

  /** More flags, more dirty sectors. */
  lemma {:induction false} DirtyCountMonotonic(a: seq<bool>, b: seq<bool>, start: nat, n: nat)
    requires start + n <= |a| == |b|
    requires forall s :: start <= s < start + n && a[s] ==> b[s]
    ensures DirtyCount(a, start, n) <= DirtyCount(b, start, n)
  {
    if n > 0 {
      DirtyCountMonotonic(a, b, start, n - 1);
    }
  }

  /** In a safe block, whatever a failing or succeeding commit leaves is safe and recoverable again. */
  lemma StepKeepsRecoverable(dirty: seq<bool>, sync: seq<bool>, dirty': seq<bool>, sync': seq<bool>,
                             has4kSectors: bool, pp64k: bool, bss: nat)
    requires |dirty| == |dirty'| && |sync| == |sync'| <= |dirty| && bss + SECTORS_PER_BLOCK <= |sync|
    requires BlockStep(dirty, sync, dirty', sync', has4kSectors, pp64k, bss)
    requires SafeBlock(dirty, has4kSectors, pp64k, bss) && RescuedBlock(dirty, sync, has4kSectors, pp64k, bss)
    ensures SafeBlock(dirty', has4kSectors, pp64k, bss) && RescuedBlock(dirty', sync', has4kSectors, pp64k, bss)
  {
    hide DirtyCount;
    forall s | bss <= s < bss + SECTORS_PER_BLOCK
      ensures Rest(dirty, bss, s) <= DirtyCount(dirty, bss, SECTORS_PER_BLOCK) {
      DirtyCountSplit(dirty, bss, s - bss, SECTORS_PER_BLOCK);
    }
    var count := DirtyCount(dirty, bss, SECTORS_PER_BLOCK);
    if count == 0 || (pp64k && forall s :: bss <= s < bss + SECTORS_PER_BLOCK ==> dirty'[s] == dirty[s]) {
      SameFlags(dirty, dirty', bss, bss);
    } else if !pp64k && count < Threshold(has4kSectors) {
      DirtyCountMonotonic(dirty', dirty, bss, SECTORS_PER_BLOCK);
    } else if !pp64k {
      var done :| 0 <= done <= SECTORS_PER_BLOCK && Interrupted(dirty, dirty', sync', bss, done);
      SameFlags(dirty, dirty', bss, bss + done);
      NothingInFront(dirty', bss, done);
    }
  }

  /** Flags that agree from some place on leave the same number of dirty sectors from there. */
  lemma SameFlags(a: seq<bool>, b: seq<bool>, bss: nat, from: nat)
    requires bss <= from <= bss + SECTORS_PER_BLOCK <= |a| == |b|
    requires forall s :: from <= s < bss + SECTORS_PER_BLOCK ==> a[s] == b[s]
    ensures forall s :: from <= s < bss + SECTORS_PER_BLOCK ==> Rest(a, bss, s) == Rest(b, bss, s)
    ensures from == bss ==> DirtyCount(a, bss, SECTORS_PER_BLOCK) == DirtyCount(b, bss, SECTORS_PER_BLOCK)
  {
    forall s | from <= s < bss + SECTORS_PER_BLOCK ensures Rest(a, bss, s) == Rest(b, bss, s) {
      DirtyCountFrame(a, b, s, bss + SECTORS_PER_BLOCK - s);
    }
    if from == bss {
      DirtyCountFrame(a, b, bss, SECTORS_PER_BLOCK);
    }
  }

  /** Sectors with nothing dirty in front of them have all dirty sectors of the block behind them. */
  lemma NothingInFront(dirty: seq<bool>, bss: nat, done: nat)
    requires done <= SECTORS_PER_BLOCK && bss + SECTORS_PER_BLOCK <= |dirty|
    requires forall s :: bss <= s < bss + done ==> !dirty[s]
    ensures forall s :: bss <= s < bss + SECTORS_PER_BLOCK && s <= bss + done ==>
      Rest(dirty, bss, s) == DirtyCount(dirty, bss, SECTORS_PER_BLOCK)
  {
    forall s | bss <= s < bss + SECTORS_PER_BLOCK && s <= bss + done
      ensures Rest(dirty, bss, s) == DirtyCount(dirty, bss, SECTORS_PER_BLOCK)
    {
      DirtyCountZero(dirty, bss, s - bss);
      DirtyCountSplit(dirty, bss, s - bss, SECTORS_PER_BLOCK);
    }
  }

  /** Blocks are safe and recoverable independently of each other. */
  lemma OtherBlocks(dirty: seq<bool>, sync: seq<bool>, dirty': seq<bool>, sync': seq<bool>,
                    has4kSectors: bool, pp64k: bool, bss: nat)
    requires |dirty| == |dirty'| && |sync| == |sync'| <= |dirty| && bss + SECTORS_PER_BLOCK <= |dirty|
    requires forall s :: bss <= s < bss + SECTORS_PER_BLOCK ==> dirty'[s] == dirty[s]
    requires forall s :: bss <= s < bss + SECTORS_PER_BLOCK && s < |sync| ==> sync'[s] == sync[s]
    ensures SafeBlock(dirty', has4kSectors, pp64k, bss) == SafeBlock(dirty, has4kSectors, pp64k, bss)
    ensures bss + SECTORS_PER_BLOCK <= |sync| ==>
      RescuedBlock(dirty', sync', has4kSectors, pp64k, bss) == RescuedBlock(dirty, sync, has4kSectors, pp64k, bss)
  {
    hide DirtyCount;
    SameFlags(dirty, dirty', bss, bss);
  }

  predicate OthersKept(dirty: seq<bool>, sync: seq<bool>, dirty': seq<bool>, sync': seq<bool>, bss: nat) {
    && |dirty| == |dirty'| && |sync| == |sync'|
    && (forall s :: 0 <= s < |dirty| && !(bss <= s < bss + SECTORS_PER_BLOCK) ==> dirty'[s] == dirty[s])
    && (forall s :: 0 <= s < |sync| && !(bss <= s < bss + SECTORS_PER_BLOCK) ==> sync'[s] == sync[s])
  }

  /** The whole memory stays safe and recoverable, whatever becomes of the block. */
  lemma MemoryKeepsRecoverable(dirty: seq<bool>, sync: seq<bool>, dirty': seq<bool>, sync': seq<bool>,
                               has4kSectors: bool, pp64k: bool, bss: nat)
    requires |dirty| == |dirty'| && |sync| == |sync'| <= |dirty| && bss + SECTORS_PER_BLOCK <= |sync|
    requires bss % SECTORS_PER_BLOCK == 0
    requires BlockStep(dirty, sync, dirty', sync', has4kSectors, pp64k, bss)
    requires OthersKept(dirty, sync, dirty', sync', bss)
    requires SafeToFail(dirty, has4kSectors, pp64k) && Recoverable(dirty, sync, has4kSectors, pp64k)
    ensures SafeToFail(dirty', has4kSectors, pp64k) && Recoverable(dirty', sync', has4kSectors, pp64k)
  {
    hide BlockStep, SafeBlock, RescuedBlock;
    StepKeepsRecoverable(dirty, sync, dirty', sync', has4kSectors, pp64k, bss);
    forall other | 0 <= other && other + SECTORS_PER_BLOCK <= |dirty| && other % SECTORS_PER_BLOCK == 0 && other != bss
      ensures SafeBlock(dirty', has4kSectors, pp64k, other)
      ensures other + SECTORS_PER_BLOCK <= |sync| ==> RescuedBlock(dirty', sync', has4kSectors, pp64k, other)
    {
      Apart(bss, other);
      OtherBlocks(dirty, sync, dirty', sync', has4kSectors, pp64k, other);
    }
  }

  lemma Apart(a: nat, b: nat)
    requires a % SECTORS_PER_BLOCK == 0 && b % SECTORS_PER_BLOCK == 0 && a != b
    ensures a + SECTORS_PER_BLOCK <= b || b + SECTORS_PER_BLOCK <= a
  {
  }

  /** A commit of everything programs all clean sectors that are not in sync. */
  predicate Repairs(dirty: seq<bool>, sync: seq<bool>, has4kSectors: bool, pp64k: bool, bss: nat)
    requires bss + SECTORS_PER_BLOCK <= |dirty| && bss + SECTORS_PER_BLOCK <= |sync|
  {
    forall s :: bss <= s < bss + SECTORS_PER_BLOCK && !sync[s] ==> ProgramsInBlock(dirty, has4kSectors, pp64k, bss, s)
  }

  lemma RescuedIsRepaired(dirty: seq<bool>, sync: seq<bool>, has4kSectors: bool, pp64k: bool, bss: nat)
    requires bss + SECTORS_PER_BLOCK <= |dirty| && bss + SECTORS_PER_BLOCK <= |sync|
    requires RescuedBlock(dirty, sync, has4kSectors, pp64k, bss)
    ensures Repairs(dirty, sync, has4kSectors, pp64k, bss)
  {
    hide DirtyCount;
    DirtyCountZero(dirty, bss, SECTORS_PER_BLOCK);
    forall s | bss <= s < bss + SECTORS_PER_BLOCK
      ensures Rest(dirty, bss, s) <= DirtyCount(dirty, bss, SECTORS_PER_BLOCK) {
      DirtyCountSplit(dirty, bss, s - bss, SECTORS_PER_BLOCK);
    }
  }

  /** Is every clean sector of the block in sync? */
  predicate CoherentBlock(dirty: seq<bool>, sync: seq<bool>, bss: nat)
    requires bss + SECTORS_PER_BLOCK <= |dirty| && bss + SECTORS_PER_BLOCK <= |sync|
  {
    forall s :: bss <= s < bss + SECTORS_PER_BLOCK && !dirty[s] ==> sync[s]
  }

  /** The guard is exact: a block is safe if and only if the next successful commit repairs whatever a failed one may
      leave of a block whose clean sectors were in sync. */
  lemma SafeExactly(dirty: seq<bool>, sync: seq<bool>, has4kSectors: bool, pp64k: bool, bss: nat)
    requires |sync| <= |dirty| && bss + SECTORS_PER_BLOCK <= |sync| && CoherentBlock(dirty, sync, bss)
    ensures SafeBlock(dirty, has4kSectors, pp64k, bss) <==>
            forall dirty', sync' | |dirty'| == |dirty| && |sync'| == |sync| &&
              BlockStep(dirty, sync, dirty', sync', has4kSectors, pp64k, bss) ::
              Repairs(dirty', sync', has4kSectors, pp64k, bss)
  {
    if SafeBlock(dirty, has4kSectors, pp64k, bss) {
      forall dirty', sync' | |dirty'| == |dirty| && |sync'| == |sync| &&
          BlockStep(dirty, sync, dirty', sync', has4kSectors, pp64k, bss)
        ensures Repairs(dirty', sync', has4kSectors, pp64k, bss)
      {
        hide BlockStep, SafeBlock, DirtyCount, Repairs;
        StepKeepsRecoverable(dirty, sync, dirty', sync', has4kSectors, pp64k, bss);
        RescuedIsRepaired(dirty', sync', has4kSectors, pp64k, bss);
      }
    } else {
      var dirty', sync' := UnsafeStep(dirty, sync, has4kSectors, bss);
    }
  }

  /** In a block that is not safe, programming may fail at a clean sector with too few dirty ones behind it. */
  lemma UnsafeStep(dirty: seq<bool>, sync: seq<bool>, has4kSectors: bool, bss: nat)
      returns (dirty': seq<bool>, sync': seq<bool>)
    requires |sync| <= |dirty| && bss + SECTORS_PER_BLOCK <= |sync|
    requires !SafeBlock(dirty, has4kSectors, false, bss)
    ensures |dirty'| == |dirty| && |sync'| == |sync|
    ensures BlockStep(dirty, sync, dirty', sync', has4kSectors, false, bss)
    ensures !Repairs(dirty', sync', has4kSectors, false, bss)
  {
    hide DirtyCount;
    var s :| bss <= s < bss + SECTORS_PER_BLOCK && !dirty[s] && Rest(dirty, bss, s) < Threshold(has4kSectors);
    dirty' := seq(|dirty|, i requires 0 <= i < |dirty| => dirty[i] && !(bss <= i < s));
    sync' := seq(|sync|, i => bss <= i < s);
    assert Interrupted(dirty, dirty', sync', bss, s - bss);
    SameFlags(dirty, dirty', bss, s);
    NothingInFront(dirty', bss, s - bss);
    assert !ProgramsInBlock(dirty', has4kSectors, false, bss, s);
  }

  /** What the dirty flags tell behind a block that was to be programmed as a whole and failed after `done` sectors: the
      next successful commit certainly repairs it exactly if there are still enough dirty sectors for the whole block
      (one, or twelve where 4 KiB sectors can be erased), or no sector behind those that are done was clean. */
  lemma RepairedAfterInterruption(dirty: seq<bool>, dirty': seq<bool>, has4kSectors: bool, bss: nat, done: nat)
    requires |dirty'| == |dirty| && bss + SECTORS_PER_BLOCK <= |dirty| && done < SECTORS_PER_BLOCK
    requires forall s :: bss <= s < bss + done ==> !dirty'[s]
    requires forall s :: bss + done <= s < bss + SECTORS_PER_BLOCK ==> dirty'[s] == dirty[s]
    ensures (forall sync' | |sync'| == |dirty| && Interrupted(dirty, dirty', sync', bss, done) ::
               Repairs(dirty', sync', has4kSectors, false, bss)) <==>
            || DirtyCount(dirty', bss, SECTORS_PER_BLOCK) >= Threshold(has4kSectors)
            || forall s :: bss + done <= s < bss + SECTORS_PER_BLOCK ==> dirty[s]
  {
    DirtyCountZero(dirty', bss, SECTORS_PER_BLOCK);
    hide DirtyCount;
    var sync' := seq(|dirty|, i => bss <= i < bss + done);
    assert Interrupted(dirty, dirty', sync', bss, done);
    if DirtyCount(dirty', bss, SECTORS_PER_BLOCK) < Threshold(has4kSectors) &&
       exists s :: bss + done <= s < bss + SECTORS_PER_BLOCK && !dirty[s]
    {
      var s :| bss + done <= s < bss + SECTORS_PER_BLOCK && !dirty[s];
      assert !ProgramsInBlock(dirty', has4kSectors, false, bss, s);
    }
  }

  /** The smallest example: no 4 KiB sectors, the first sector of a block is dirty, and the second cannot be programmed.
      Then nothing is dirty any more, so the next commit succeeds without a command, and fifteen sectors are lost. */
  lemma FailureThatStays()
    ensures var dirty, dirty' := seq(SECTORS_PER_BLOCK, i => i == 0), seq(SECTORS_PER_BLOCK, _ => false);
            var sync, sync' := seq(SECTORS_PER_BLOCK, i => i != 0), seq(SECTORS_PER_BLOCK, i => i == 0);
            && CoherentBlock(dirty, sync, 0) && BlockStep(dirty, sync, dirty', sync', false, false, 0)
            && DirtyCount(dirty', 0, SECTORS_PER_BLOCK) == 0 && !Repairs(dirty', sync', false, false, 0)
  {
    var dirty, dirty' := seq(SECTORS_PER_BLOCK, i => i == 0), seq(SECTORS_PER_BLOCK, _ => false);
    var sync' := seq(SECTORS_PER_BLOCK, i => i == 0);
    DirtyCountZero(dirty, 0, SECTORS_PER_BLOCK);
    DirtyCountZero(dirty', 0, SECTORS_PER_BLOCK);
    hide DirtyCount;
    assert dirty[0] && Interrupted(dirty, dirty', sync', 0, 1);
    assert !sync'[1] && !ProgramsInBlock(dirty', false, false, 0, 1);
  }

  // ----- From sectors to bytes -----

  /** Does the flash agree with the contents wherever a sector is clean? */
  ghost predicate CleanInSync(dirty: seq<bool>, cells: seq<byte>, contents: seq<byte>)
    requires |dirty| == MAX_SECTORS && |cells| == |contents| <= MAX_SECTORS * SECTOR_SIZE
  {
    forall i :: 0 <= i < |cells| && !dirty[i / SECTOR_SIZE] ==> cells[i] == contents[i]
  }

  lemma CoherentIsRecoverable(dirty: seq<bool>, cells: seq<byte>, contents: seq<byte>, has4kSectors: bool, pp64k: bool)
    requires |dirty| == MAX_SECTORS && |cells| == |contents| <= MAX_SECTORS * SECTOR_SIZE
    requires CleanInSync(dirty, cells, contents)
    ensures Recoverable(dirty, Synced(cells, contents), has4kSectors, pp64k)
  {
    var sync := Synced(cells, contents);
    forall s | 0 <= s < |sync| && !dirty[s] ensures sync[s] {
      CleanSectorInSync(dirty, cells, contents, s);
    }
  }

  lemma CleanSectorInSync(dirty: seq<bool>, cells: seq<byte>, contents: seq<byte>, s: nat)
    requires |dirty| == MAX_SECTORS && |cells| == |contents| <= MAX_SECTORS * SECTOR_SIZE
    requires CleanInSync(dirty, cells, contents) && (s + 1) * SECTOR_SIZE <= |cells| && !dirty[s]
    ensures InSync(cells, contents, s)
  {
    forall i | s * SECTOR_SIZE <= i < (s + 1) * SECTOR_SIZE ensures cells[i] == contents[i] {
      assert i / SECTOR_SIZE == s;
    }
  }

  /** A successful commit of recoverable memory leaves the contents in the flash. */
  lemma RecoverableIsRepaired(dirty: seq<bool>, has4kSectors: bool, pp64k: bool, cells: seq<byte>, contents: seq<byte>)
    requires |dirty| == MAX_SECTORS && |cells| == |contents| <= MAX_SECTORS * SECTOR_SIZE && |cells| % BLOCK_SIZE == 0
    requires Recoverable(dirty, Synced(cells, contents), has4kSectors, pp64k)
    ensures RestInSync(dirty, has4kSectors, pp64k, cells, contents)
  {
    hide RescuedBlock, Repairs, RestInSync;
    var sync := Synced(cells, contents);
    forall bss | 0 <= bss && bss + SECTORS_PER_BLOCK <= |sync| && bss % SECTORS_PER_BLOCK == 0
      ensures Repairs(dirty, sync, has4kSectors, pp64k, bss)
    {
      RescuedIsRepaired(dirty, sync, has4kSectors, pp64k, bss);
    }
    RepairedBlockByBlock(dirty, has4kSectors, pp64k, cells, contents);
  }

  /** The bytes that a commit does not program are right exactly if it programs, in every block, what is not in sync. */
  lemma RepairedBlockByBlock(dirty: seq<bool>, has4kSectors: bool, pp64k: bool, cells: seq<byte>, contents: seq<byte>)
    requires |dirty| == MAX_SECTORS && |cells| == |contents| <= MAX_SECTORS * SECTOR_SIZE && |cells| % BLOCK_SIZE == 0
    ensures RestInSync(dirty, has4kSectors, pp64k, cells, contents) <==>
            forall bss ::
              0 <= bss && bss + SECTORS_PER_BLOCK <= |cells| / SECTOR_SIZE && bss % SECTORS_PER_BLOCK == 0 ==>
              Repairs(dirty, Synced(cells, contents), has4kSectors, pp64k, bss)
  {
    hide DirtyCount, Repairs, ProgramsInBlock;
    var sync := Synced(cells, contents);
    if RestInSync(dirty, has4kSectors, pp64k, cells, contents) {
      forall bss | 0 <= bss && bss + SECTORS_PER_BLOCK <= |sync| && bss % SECTORS_PER_BLOCK == 0
        ensures Repairs(dirty, sync, has4kSectors, pp64k, bss)
      {
        forall s | bss <= s < bss + SECTORS_PER_BLOCK && !sync[s]
          ensures ProgramsInBlock(dirty, has4kSectors, pp64k, bss, s) {
          var i :| s * SECTOR_SIZE <= i < (s + 1) * SECTOR_SIZE && cells[i] != contents[i];
          OneBlock(bss, s, i);
        }
        RepairsAll(dirty, sync, has4kSectors, pp64k, bss);
      }
    } else {
      var i :| 0 <= i < |cells| && !Programs(dirty, has4kSectors, pp64k, i / SECTOR_SIZE) && cells[i] != contents[i];
      BlockInside(|cells|, i);
      assert !InSync(cells, contents, i / SECTOR_SIZE);
      var bss := BlockStart(i / SECTOR_SIZE);
      if Repairs(dirty, sync, has4kSectors, pp64k, bss) {
        NotProgrammed(dirty, sync, has4kSectors, pp64k, bss, i / SECTOR_SIZE);
      }
    }
  }

  lemma RepairsAll(dirty: seq<bool>, sync: seq<bool>, has4kSectors: bool, pp64k: bool, bss: nat)
    requires bss + SECTORS_PER_BLOCK <= |dirty| && bss + SECTORS_PER_BLOCK <= |sync|
    requires forall s :: bss <= s < bss + SECTORS_PER_BLOCK && !sync[s] ==>
      ProgramsInBlock(dirty, has4kSectors, pp64k, bss, s)
    ensures Repairs(dirty, sync, has4kSectors, pp64k, bss)
  {
  }

  lemma OneBlock(bss: nat, s: nat, i: nat)
    requires bss % SECTORS_PER_BLOCK == 0 && bss <= s < bss + SECTORS_PER_BLOCK
    requires s * SECTOR_SIZE <= i < (s + 1) * SECTOR_SIZE
    ensures i / SECTOR_SIZE == s && BlockStart(s) == bss
  {
  }

  lemma NotProgrammed(dirty: seq<bool>, sync: seq<bool>, has4kSectors: bool, pp64k: bool, bss: nat, s: nat)
    requires bss <= s < bss + SECTORS_PER_BLOCK <= |dirty| && bss + SECTORS_PER_BLOCK <= |sync|
    requires Repairs(dirty, sync, has4kSectors, pp64k, bss) && !ProgramsInBlock(dirty, has4kSectors, pp64k, bss, s)
    ensures sync[s]
  {
  }

  lemma BlockInside(size: nat, i: nat)
    requires size % BLOCK_SIZE == 0 && i < size
    ensures BlockStart(i / SECTOR_SIZE) + SECTORS_PER_BLOCK <= size / SECTOR_SIZE
    ensures i / SECTOR_SIZE * SECTOR_SIZE <= i < (i / SECTOR_SIZE + 1) * SECTOR_SIZE
  {
    var blocks := size / BLOCK_SIZE;
    assert size == blocks * 0x1_0000 && size / 0x1000 == blocks * 16;
  }

  /** Work on one block leaves all others as they were. */
  lemma OtherBlocksSynced(cells: seq<byte>, cells': seq<byte>, contents: seq<byte>, bss: nat)
    requires |cells| == |contents| && SameOutside(cells, cells', bss * SECTOR_SIZE, BLOCK_SIZE)
    ensures forall s :: 0 <= s < |cells| / SECTOR_SIZE && !(bss <= s < bss + SECTORS_PER_BLOCK) ==>
      Synced(cells', contents)[s] == Synced(cells, contents)[s]
  {
    forall s | 0 <= s < |cells| / SECTOR_SIZE && !(bss <= s < bss + SECTORS_PER_BLOCK)
      ensures InSync(cells', contents, s) == InSync(cells, contents, s)
    {
      assert forall i :: s * SECTOR_SIZE <= i < (s + 1) * SECTOR_SIZE ==> cells'[i] == cells[i];
    }
  }

  /** A write changes what one sector reads as, and makes it dirty: memory that was recoverable stays so. */
  lemma WriteKeepsRecoverable(dirty: seq<bool>, dirty': seq<bool>, cells: seq<byte>, contents: seq<byte>,
                              contents': seq<byte>, has4kSectors: bool, pp64k: bool, sector: nat)
    requires |dirty| == MAX_SECTORS && sector < MAX_SECTORS && dirty' == dirty[sector := true]
    requires |cells| == |contents| <= MAX_SECTORS * SECTOR_SIZE
    requires SameOutside(contents, contents', sector * SECTOR_SIZE, SECTOR_SIZE)
    requires Recoverable(dirty, Synced(cells, contents), has4kSectors, pp64k)
    ensures Recoverable(dirty', Synced(cells, contents'), has4kSectors, pp64k)
  {
    hide DirtyCount;
    var sync, sync' := Synced(cells, contents), Synced(cells, contents');
    forall s | 0 <= s < |sync| && s != sector ensures sync'[s] == sync[s] {
      assert forall i :: s * SECTOR_SIZE <= i < (s + 1) * SECTOR_SIZE ==> contents'[i] == contents[i];
    }
    forall bss | 0 <= bss && bss + SECTORS_PER_BLOCK <= |sync| && bss % SECTORS_PER_BLOCK == 0
      ensures RescuedBlock(dirty', sync', has4kSectors, pp64k, bss)
    {
      DirtyCountMonotonic(dirty, dirty', bss, SECTORS_PER_BLOCK);
      forall s | bss <= s < bss + SECTORS_PER_BLOCK ensures Rest(dirty, bss, s) <= Rest(dirty', bss, s) {
        DirtyCountMonotonic(dirty, dirty', s, bss + SECTORS_PER_BLOCK - s);
      }
      assert RescuedBlock(dirty, sync, has4kSectors, pp64k, bss);
    }
  }

  /** The bytes of the first `done` sectors are those of the contents. */
  lemma InterruptedAt(dirty: seq<bool>, dirty': seq<bool>, cells': seq<byte>, contents: seq<byte>, bss: nat, done: nat)
    requires |dirty| == |dirty'| && |cells'| == |contents| && done <= SECTORS_PER_BLOCK
    requires (bss + SECTORS_PER_BLOCK) * SECTOR_SIZE <= |contents| <= |dirty| * SECTOR_SIZE
    requires forall s :: bss <= s < bss + done ==> !dirty'[s]
    requires forall s :: bss + done <= s < bss + SECTORS_PER_BLOCK ==> dirty'[s] == dirty[s]
    requires forall i :: bss * SECTOR_SIZE <= i < (bss + done) * SECTOR_SIZE ==> cells'[i] == contents[i]
    ensures Interrupted(dirty, dirty', Synced(cells', contents), bss, done)
  {
    forall s | bss <= s < bss + done ensures InSync(cells', contents, s) {
    }
  }

  /** Each byte of the clean sectors is from the contents if the sector was dirty, and as before if it was not. */
  lemma SectorBySectorAt(dirty: seq<bool>, dirty': seq<bool>, cells: seq<byte>, cells': seq<byte>, contents: seq<byte>,
                         bss: nat)
    requires |dirty| == |dirty'| && |cells| == |cells'| == |contents|
    requires (bss + SECTORS_PER_BLOCK) * SECTOR_SIZE <= |contents| <= |dirty| * SECTOR_SIZE
    requires forall s :: bss <= s < bss + SECTORS_PER_BLOCK && dirty'[s] ==> dirty[s]
    requires forall i ::
      bss * SECTOR_SIZE <= i < (bss + SECTORS_PER_BLOCK) * SECTOR_SIZE && !dirty'[i / SECTOR_SIZE] ==>
      cells'[i] == if dirty[i / SECTOR_SIZE] then contents[i] else cells[i]
    ensures SectorBySector(dirty, Synced(cells, contents), dirty', Synced(cells', contents), bss)
  {
    forall s | bss <= s < bss + SECTORS_PER_BLOCK && !dirty'[s]
      ensures InSync(cells', contents, s) == (dirty[s] || InSync(cells, contents, s))
    {
      forall i | s * SECTOR_SIZE <= i < (s + 1) * SECTOR_SIZE
        ensures cells'[i] == if dirty[s] then contents[i] else cells[i]
      {
        assert i / SECTOR_SIZE == s;
      }
    }
  }
}
