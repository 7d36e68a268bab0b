/** Whole sessions with a frame, against a store that is just a map from slots to bytes. */
module StoreRun {
  import opened Bytes
  import opened Wrappers
  import opened FileTable
  import opened Allocation
  import opened PictureStore
  import opened SectorCache
  import opened DirtySectors
  import opened PictureFrame

  datatype Op =
    | Read(idx: int)
    | Write(data: seq<byte>)
    | WriteAt(slot: nat, data: seq<byte>)
    | Delete(idx: int)
    | DeleteEverything
    | Defragment
    | Commit

  /** `Broken` is the answer to a read or a commit during which a device command has failed. */
  datatype Reply = Data(bytes: seq<byte>) | Done | Refused | Broken

  type FileMap = map<nat, seq<byte>>

  /** The summed sizes of the files below slot `n`. */
  ghost function TotalBelow(files: FileMap, n: nat): nat {
    if n == 0 then 0 else TotalBelow(files, n - 1) + FileSize(files, n - 1)
  }

  ghost predicate HasSpace(g: Geometry, files: FileMap, size: nat) {
    size <= g.End() - g.Reserved() - TotalBelow(files, g.version.MaxFileCount())
  }

  ghost predicate ValidOp(g: Geometry, op: Op) {
    match op
    case Write(data) => SizeFits(g, |data|)
    case WriteAt(slot, data) => slot < g.version.MaxFileCount() && SizeFits(g, |data|)
    case _ => true
  }

  /** The lowest slot from `i` on that holds no file. */
  function FirstMissing(files: FileMap, i: nat, max: nat): (n: nat)
    requires i <= max
    ensures i <= n <= max && (forall k :: i <= k < n ==> k in files) && (n < max ==> n !in files)
    decreases max - i
  {
    if i < max && i in files then FirstMissing(files, i + 1, max) else i
  }

  lemma FirstMissingIsFree(g: Geometry, files: FileMap)
    ensures var slot := FirstMissing(files, 0, g.version.MaxFileCount());
            && (slot == g.version.MaxFileCount() <==> NoFreeSlot(g, files))
            && forall i :: IsFreeSlot(g, files, i) ==> i == slot
  {
  }

  /** One operation on the map. */
  ghost function Step(g: Geometry, files: FileMap, op: Op): (FileMap, Reply) {
    match op
    case Read(idx) => (files, if idx in files then Data(files[idx]) else Refused)
    case Write(data) =>
      var slot := FirstMissing(files, 0, g.version.MaxFileCount());
      if slot < g.version.MaxFileCount() && HasSpace(g, files, |data|) && Aligned(g, |data|)
        then (files[slot := data], Done)
      else (files, Refused)
    case WriteAt(slot, data) =>
      if HasSpace(g, files, |data|) && Aligned(g, |data|) then (files[slot := data], Done) else (files, Refused)
    case Delete(idx) => if idx in files then (files - {idx}, Done) else (files, Refused)
    case DeleteEverything => (map[], Done)
    case Defragment => (files, Done)
    case Commit => (files, Done)
  }

  /** A run of operations: the final map, and the replies. */
  ghost function Steps(g: Geometry, files: FileMap, ops: seq<Op>): (FileMap, seq<Reply>) {
    if ops == [] then (files, [])
    else
      var (mid, replies) := Steps(g, files, ops[..|ops| - 1]);
      var (last, reply) := Step(g, mid, ops[|ops| - 1]);
      (last, replies + [reply])
  }

  /** The pictures of this frame can be stored one right behind the other. */
  predicate PicturesAligned(g: Geometry) {
    g.version.AX203? ==> g.pictureSize % 256 == 0
  }

  lemma {:induction false} UsedBytesAreTotals(g: Geometry, memory: seq<byte>, n: nat)
    requires WellFormed(g, memory) && n <= g.version.MaxFileCount()
    ensures UsedBytes(TableOf(g, memory)[..n]) == TotalBelow(Files(g, memory), n)
  {
    var t := TableOf(g, memory);
    if n > 0 {
      UsedBytesAreTotals(g, memory, n - 1);
      FileSizeIsPresentSize(g, memory, n - 1);
      assert t[..n][..n - 1] == t[..n - 1];
    }
  }

  /** Which writes succeed depends on the files alone, not on where they lie. */
  lemma WritesDependOnFiles(g: Geometry, memory: seq<byte>, size: nat)
    requires WellFormed(g, memory) && PicturesAligned(g) && SizeFits(g, size)
    ensures WriteSucceeds(g, TableOf(g, memory), size) <==> HasSpace(g, Files(g, memory), size) && Aligned(g, size)
    ensures !LosesFiles(g, TableOf(g, memory), size)
  {
    hide Slot, WriteSucceeds, Sound, Fits, FreeAt;
    var t, max := TableOf(g, memory), g.version.MaxFileCount();
    TablesFit(g, memory);
    WhichWritesSucceed(g, t, size);
    UsedBytesAreTotals(g, memory, max);
    assert t[..max] == t;
  }

  // ----- Frames whose pictures cannot be stored right behind each other -----

  ghost predicate AtMostOne(files: FileMap) {
    forall i, j :: i in files && j in files ==> i == j
  }

  /** Storing a picture in a slot of such a frame: it is stored; or it is refused, and if there are two files or more,
      and space for another, all but the first one may be lost. The first picture is always stored. */
  ghost predicate MayStore(g: Geometry, files: FileMap, slot: nat, data: seq<byte>, after: FileMap, reply: Reply) {
    if reply == Done then HasSpace(g, files, |data|) && after == files[slot := data]
    else
      && reply == Refused && (files == map[] ==> !HasSpace(g, files, |data|))
      && (after == files || (HasSpace(g, files, |data|) && !AtMostOne(files) && after == FirstFile(files)))
  }

  /** One operation on the map, for all frames: what becomes of the files, and the reply. */
  ghost predicate MayStep(g: Geometry, files: FileMap, op: Op, after: FileMap, reply: Reply) {
    if reply == Broken then (op.Read? || op.Commit?) && after == files
    else if PicturesAligned(g) || !(op.Write? || op.WriteAt? || op.Defragment?)
           then (after, reply) == Step(g, files, op)
    else
      match op
      case Write(data) =>
        var slot := FirstMissing(files, 0, g.version.MaxFileCount());
        if slot == g.version.MaxFileCount() then after == files && reply == Refused
        else MayStore(g, files, slot, data, after, reply)
      case WriteAt(slot, data) => MayStore(g, files, slot, data, after, reply)
      case _ => if AtMostOne(files) then after == files && reply == Done
                else after == FirstFile(files) && reply == Refused
  }

  /** Whether all files can be written back one behind the other depends on the files alone. */
  lemma RepackDependsOnFiles(g: Geometry, memory: seq<byte>)
    requires WellFormed(g, memory)
    ensures CanRepack(g, TableOf(g, memory)) <==> PicturesAligned(g) || AtMostOne(Files(g, memory))
  {
    hide Slot, Sound;
    var t, files := TableOf(g, memory), Files(g, memory);
    assert forall i: nat :: i in files <==> i < |t| && t[i].present;
    if AtMostOne(files) {
      forall i, j | 0 <= i < j < |t| ensures !(t[i].present && t[j].present) {
        assert i in files && j in files ==> i == j;
      }
    }
  }

  /** On such a frame, a write that succeeds or loses files has space; the only file is never lost; and the first
      picture is stored. */
  lemma UnalignedWrites(g: Geometry, memory: seq<byte>, size: nat)
    requires WellFormed(g, memory) && SizeFits(g, size)
    ensures var t, files := TableOf(g, memory), Files(g, memory);
            && (WriteSucceeds(g, t, size) || LosesFiles(g, t, size) ==> HasSpace(g, files, size))
            && (LosesFiles(g, t, size) ==> !AtMostOne(files))
            && (!PicturesAligned(g) && files == map[] && HasSpace(g, files, size) ==> WriteSucceeds(g, t, size))
  {
    hide Slot, Sound, Fits, FreeAt;
    var t, max := TableOf(g, memory), g.version.MaxFileCount();
    TablesFit(g, memory);
    WhichWritesSucceed(g, t, size);
    UsedBytesAreTotals(g, memory, max);
    assert t[..max] == t;
    RepackDependsOnFiles(g, memory);
    if Files(g, memory) == map[] {
      forall i | 0 <= i < |t| ensures !t[i].present {
        assert i !in Files(g, memory);
      }
      NothingInTheWay(g, t, size);
    }
  }

  lemma NothingInTheWay(g: Geometry, t: Table, size: nat)
    requires forall i :: 0 <= i < |t| ==> !t[i].present
    ensures size <= FreeBytes(AreaOf(g), t) ==> FreeAt(AreaOf(g), t, g.Reserved(), size)
  {
    NothingUsed(t);
  }

  /** What the driver's status means to its caller. */
  function ReplyOf(r: Status): Reply {
    if r.Success? then Done else Refused
  }

  /** Executes one operation. The status tells of device commands that fail while the store is changed; a failing read
      or commit is a reply, because the store is still what it was. */
  method Execute(frame: Frame, op: Op) returns (sent: Status, reply: Reply)
    requires frame.ValidStore() && ValidOp(frame.g, op)
    modifies frame.cache`contents, frame.cache`blockProtectionRemoved, frame.cache.mem, frame.cache.sectorIsPresent,
             frame.cache.sectorDirty, frame.cache.device
    ensures frame.Valid() && frame.cache.device.faults >= old(frame.cache.device.faults)
    ensures frame.cache.Locked() == old(frame.cache.Locked())
    ensures sent.Failure? ==> sent == Failure(Io) && frame.cache.device.faults > old(frame.cache.device.faults)
    ensures FixedKept(frame.g, old(frame.cache.contents), frame.cache.contents)
    ensures sent.Success? ==> frame.ValidStore()
    ensures sent.Success? ==> (reply == Broken <==> frame.cache.device.faults > old(frame.cache.device.faults))
    ensures sent.Success? ==>
      MayStep(frame.g, Files(frame.g, old(frame.cache.contents)), op, Files(frame.g, frame.cache.contents), reply)
    ensures sent.Success? && !(op.Commit? && (reply == Broken || frame.cache.Locked())) ==> frame.cache.StaysInSync()
    ensures sent.Success? && op.Commit? && reply == Done && old(frame.cache.Coherent() || frame.cache.Repairable()) &&
            !frame.cache.Locked() ==>
      frame.cache.device.cells == frame.cache.contents
    ensures sent.Success? && old(frame.cache.Repairable() && frame.cache.FailsSafely()) && op.Commit? &&
            !frame.cache.Locked() ==>
      frame.cache.Repairable()
  {
    hide IsFixed, Slot, Sound, Cache.Valid, Cache.Coherent, Cache.Repairable, Cache.FailsSafely, WriteSucceeds,
         LosesFiles, Files, UsedBytes, AtMostOne, CanRepack, HasSpace, DirtyCount;
    var r: Status := OK;
    reply := Done;
    ghost var files := Files(frame.g, frame.cache.contents);
    match op {
    case Read(idx) =>
      reply := ExecuteRead(frame, idx);
    case Write(data) =>
      if PicturesAligned(frame.g) {
        WritesDependOnFiles(frame.g, frame.cache.contents, |data|);
      }
      UnalignedWrites(frame.g, frame.cache.contents, |data|);
      FirstMissingIsFree(frame.g, files);
      r := frame.WriteFile(data);
      reply := ReplyOf(r);
    case WriteAt(slot, data) =>
      if PicturesAligned(frame.g) {
        WritesDependOnFiles(frame.g, frame.cache.contents, |data|);
      }
      UnalignedWrites(frame.g, frame.cache.contents, |data|);
      r := frame.WriteRawFile(slot, data);
      reply := ReplyOf(r);
    case Delete(idx) =>
      r := frame.DeleteFile(idx);
      reply := ReplyOf(r);
    case DeleteEverything =>
      r := frame.DeleteAll();
    case Defragment =>
      RepackDependsOnFiles(frame.g, frame.cache.contents);
      r := frame.Defrag();
      reply := ReplyOf(r);
    case Commit =>
      var committed := frame.cache.Commit();
      reply := if committed.Success? then Done else Broken;
    }
    sent := if r == Failure(Io) then r else OK;
  }

  method ExecuteRead(frame: Frame, idx: int) returns (reply: Reply)
    requires frame.ValidStore()
    modifies frame.cache.mem, frame.cache.sectorIsPresent, frame.cache.device`faults
    ensures frame.ValidStore() && frame.cache.StaysInSync()
    ensures frame.cache.device.faults >= old(frame.cache.device.faults)
    ensures reply == Broken <==> frame.cache.device.faults > old(frame.cache.device.faults)
    ensures var files := Files(frame.g, frame.cache.contents);
            reply != Broken ==> reply == if idx in files then Data(files[idx]) else Refused
  {
    hide IsFixed, Slot, Sound, Cache.Valid, Cache.Coherent, Cache.Repairable, Files;
    if 0 <= idx < frame.g.version.MaxFileCount() {
      ReadReturnsFile(frame.g, frame.cache.contents, idx);
    } else {
      SlotsHoldFiles(frame.g, frame.cache.contents, idx);
    }
    var read := frame.ReadRawFile(idx);
    reply := if read.Success? then Data(read.value) else if read.error == Io then Broken else Refused;
  }

  // ----- Sessions -----

  /** A run of operations with all maps on the way, for all frames. */
  ghost predicate MaySteps(g: Geometry, maps: seq<FileMap>, ops: seq<Op>, replies: seq<Reply>) {
    |maps| == |ops| + 1 && |replies| == |ops| &&
    forall i :: 0 <= i < |ops| ==> MayStep(g, maps[i], ops[i], maps[i + 1], replies[i])
  }

  lemma StepsLong(g: Geometry, maps: seq<FileMap>, ops: seq<Op>, replies: seq<Reply>)
    requires MaySteps(g, maps, ops, replies)
    ensures |maps| == |ops| + 1 && |replies| == |ops|
  {
  }

  lemma NoSteps(g: Geometry, files: FileMap)
    ensures MaySteps(g, [files], [], [])
  {
  }

  lemma MoreSteps(g: Geometry, maps: seq<FileMap>, ops: seq<Op>, replies: seq<Reply>, after: FileMap, reply: Reply,
                  n: nat)
    requires n < |ops| && MaySteps(g, maps, ops[..n], replies) && MayStep(g, maps[n], ops[n], after, reply)
    ensures MaySteps(g, maps + [after], ops[..n + 1], replies + [reply])
  {
    hide MayStep;
    var longer := maps + [after];
    forall i | 0 <= i <= n ensures MayStep(g, longer[i], ops[..n + 1][i], longer[i + 1], (replies + [reply])[i]) {
      if i < n {
        assert MayStep(g, maps[i], ops[..n][i], maps[i + 1], replies[i]);
      }
    }
  }

  /** On most frames these are the steps of the map, and so are the replies, but for reads and commits that fail. */
  lemma {:induction false} AlignedRuns(g: Geometry, maps: seq<FileMap>, ops: seq<Op>, replies: seq<Reply>)
    requires PicturesAligned(g) && MaySteps(g, maps, ops, replies)
    ensures var (files, expected) := Steps(g, maps[0], ops);
            && maps[|ops|] == files && |expected| == |ops|
            && forall i :: 0 <= i < |ops| ==> replies[i] in {expected[i], Broken}
  {
    if ops != [] {
      var n := |ops| - 1;
      AlignedRuns(g, maps[..|ops|], ops[..n], replies[..n]);
      StepOrBroken(g, maps[n], ops[n], maps[n + 1], replies[n]);
    }
  }

  lemma StepOrBroken(g: Geometry, files: FileMap, op: Op, after: FileMap, reply: Reply)
    requires PicturesAligned(g) && MayStep(g, files, op, after, reply)
    ensures after == Step(g, files, op).0 && reply in {Step(g, files, op).1, Broken}
  {
  }

  /** Did all commits that failed start from dirty flags on which failing is safe? */
  predicate AllSafe(ops: seq<Op>, replies: seq<Reply>, flags: seq<seq<bool>>, has4kSectors: bool, pp64k: bool)
    requires |ops| == |replies| == |flags|
  {
    forall i :: 0 <= i < |ops| && ops[i].Commit? && replies[i] == Broken ==> SafeToFail(flags[i], has4kSectors, pp64k)
  }

  lemma AllSafeBefore(ops: seq<Op>, replies: seq<Reply>, flags: seq<seq<bool>>, has4kSectors: bool, pp64k: bool)
    requires |ops| == |replies| == |flags| > 0
    ensures var n := |ops| - 1;
            AllSafe(ops, replies, flags, has4kSectors, pp64k) ==>
              AllSafe(ops[..n], replies[..n], flags[..n], has4kSectors, pp64k) &&
              (ops[n].Commit? && replies[n] == Broken ==> SafeToFail(flags[n], has4kSectors, pp64k))
  {
    hide SafeToFail;
  }

  lemma AtOnceIsAllSafe(ops: seq<Op>, replies: seq<Reply>, flags: seq<seq<bool>>, has4kSectors: bool)
    requires |ops| == |replies| == |flags|
    ensures AllSafe(ops, replies, flags, has4kSectors, true)
  {
  }

  /** On all frames, a file that is neither written to nor deleted is there after an operation as it was before, unless
      two files or more met an operation that was refused. */
  lemma FilesSurvive(g: Geometry, files: FileMap, op: Op, after: FileMap, reply: Reply, idx: nat)
    requires MayStep(g, files, op, after, reply) && idx in files
    requires !op.DeleteEverything? && !(op.Delete? && op.idx == idx) && !(op.WriteAt? && op.slot == idx)
    ensures (idx in after && after[idx] == files[idx]) || (reply == Refused && !PicturesAligned(g) && !AtMostOne(files))
  {
  }

  /** Every session refines the map: the final files and all replies are those of the map. It goes on after reads and
      commits that fail. A commit that succeeds leaves the files in the flash, if the flash was in sync or repairable in
      the beginning, and the commits that failed before started from safe dirty flags. */
  method Run(frame: Frame, ops: seq<Op>)
      returns (sent: Status, replies: seq<Reply>, ghost maps: seq<FileMap>, flags: seq<seq<bool>>)
    requires frame.ValidStore() && forall i :: 0 <= i < |ops| ==> ValidOp(frame.g, ops[i])
    modifies frame.cache`contents, frame.cache`blockProtectionRemoved, frame.cache.mem, frame.cache.sectorIsPresent,
             frame.cache.sectorDirty, frame.cache.device
    ensures frame.Valid()
    ensures FixedKept(frame.g, old(frame.cache.contents), frame.cache.contents)
    ensures sent.Failure? ==> frame.cache.device.faults > old(frame.cache.device.faults)
    ensures sent.Success? ==> frame.ValidStore() && MaySteps(frame.g, maps, ops, replies) && |flags| == |ops|
    ensures sent.Success? ==> (Broken !in replies <==> frame.cache.device.faults == old(frame.cache.device.faults))
    ensures sent.Success? ==>
      maps[0] == Files(frame.g, old(frame.cache.contents)) && maps[|ops|] == Files(frame.g, frame.cache.contents)
    ensures sent.Success? && PicturesAligned(frame.g) ==>
              var (files, expected) := Steps(frame.g, Files(frame.g, old(frame.cache.contents)), ops);
              && Files(frame.g, frame.cache.contents) == files && |expected| == |ops|
              && forall i :: 0 <= i < |ops| ==> replies[i] in {expected[i], Broken}
    ensures frame.cache.Locked() == old(frame.cache.Locked())
    ensures sent.Success? && Broken !in replies && !frame.cache.Locked() ==> frame.cache.StaysInSync()
    ensures sent.Success? && old(frame.cache.Coherent() || frame.cache.Repairable()) && !frame.cache.Locked() &&
            AllSafe(ops, replies, flags, frame.cache.has4kSectors, frame.cache.pp64k) ==>
              && frame.cache.Repairable()
              && (Committed(ops, replies) ==> frame.cache.device.cells == frame.cache.contents)
    ensures sent.Success? && frame.cache.pp64k ==> AllSafe(ops, replies, flags, frame.cache.has4kSectors, true)
  {
    hide IsFixed, Slot, Sound, Cache.Valid, Cache.Coherent, Cache.Repairable, Files, MayStep, AllSafe, SafeToFail,
         Committed, Steps;
    sent, replies, maps, flags := RunSteps(frame, ops);
    if sent.Success? {
      StepsLong(frame.g, maps, ops, replies);
      AtOnceIsAllSafe(ops, replies, flags, frame.cache.has4kSectors);
      if PicturesAligned(frame.g) {
        AlignedRuns(frame.g, maps, ops, replies);
      }
    }
  }

  /** The loop of a session. */
  method RunSteps(frame: Frame, ops: seq<Op>)
      returns (sent: Status, replies: seq<Reply>, ghost maps: seq<FileMap>, flags: seq<seq<bool>>)
    requires frame.ValidStore() && forall i :: 0 <= i < |ops| ==> ValidOp(frame.g, ops[i])
    modifies frame.cache`contents, frame.cache`blockProtectionRemoved, frame.cache.mem, frame.cache.sectorIsPresent,
             frame.cache.sectorDirty, frame.cache.device
    ensures frame.Valid()
    ensures FixedKept(frame.g, old(frame.cache.contents), frame.cache.contents)
    ensures sent.Failure? ==> frame.cache.device.faults > old(frame.cache.device.faults)
    ensures sent.Success? ==> frame.ValidStore() && MaySteps(frame.g, maps, ops, replies) && |flags| == |ops|
    ensures sent.Success? ==> (Broken !in replies <==> frame.cache.device.faults == old(frame.cache.device.faults))
    ensures sent.Success? ==>
      maps[0] == Files(frame.g, old(frame.cache.contents)) && maps[|ops|] == Files(frame.g, frame.cache.contents)
    ensures frame.cache.Locked() == old(frame.cache.Locked())
    ensures sent.Success? && Broken !in replies && !frame.cache.Locked() ==> frame.cache.StaysInSync()
    ensures sent.Success? && old(frame.cache.Coherent() || frame.cache.Repairable()) && !frame.cache.Locked() &&
            AllSafe(ops, replies, flags, frame.cache.has4kSectors, frame.cache.pp64k) ==>
              && frame.cache.Repairable()
              && (Committed(ops, replies) ==> frame.cache.device.cells == frame.cache.contents)
  {
    hide FixedKept, Slot, Sound, Cache.Valid, Cache.Coherent, Cache.Repairable, Files, MayStep, AllSafe, SafeToFail,
         MaySteps;
    replies, flags := [], [];
    maps := [Files(frame.g, frame.cache.contents)];
    var i := 0;
    ghost var c := frame.cache;
    NoSteps(frame.g, Files(frame.g, frame.cache.contents));
    FixedKeptTwice(frame.g, c.contents, c.contents, c.contents);
    assert ops[..0] == [];
    if c.Coherent() {
      c.CoherentIsRepairable();
    }
    while i < |ops|
      invariant 0 <= i == |replies| == |flags| <= |ops| && |maps| == i + 1 && frame.ValidStore()
      invariant Broken !in replies <==> c.device.faults == old(c.device.faults)
      invariant c.device.faults >= old(c.device.faults)
      invariant FixedKept(frame.g, old(c.contents), c.contents)
      invariant MaySteps(frame.g, maps, ops[..i], replies)
      invariant maps[0] == Files(frame.g, old(c.contents)) && maps[i] == Files(frame.g, c.contents)
      invariant c.Locked() == old(c.Locked()) && (Broken !in replies && !c.Locked() ==> c.StaysInSync())
      invariant old(c.Coherent() || c.Repairable()) && !c.Locked() &&
                AllSafe(ops[..i], replies, flags, c.has4kSectors, c.pp64k) ==>
                  && c.Repairable()
                  && (Committed(ops[..i], replies) ==> c.device.cells == c.contents)
    {
      ghost var were, safe, image := replies, c.Repairable(), c.contents;
      var dirty := frame.cache.sectorDirty[..];
      var reply;
      sent, reply := Execute(frame, ops[i]);
      FixedKeptTwice(frame.g, old(c.contents), image, c.contents);
      if sent.Failure? {
        return;
      }
      MoreSteps(frame.g, maps, ops, replies, Files(frame.g, frame.cache.contents), reply, i);
      maps := maps + [Files(frame.g, frame.cache.contents)];
      flags, replies, i := flags + [dirty], replies + [reply], i + 1;
      AllSafeBefore(ops[..i], replies, flags, c.has4kSectors, c.pp64k);
      assert ops[..i][..i - 1] == ops[..i - 1] && replies[..i - 1] == were;
    }
    assert ops[..i] == ops;
    StepsLong(frame.g, maps, ops, replies);
    sent := OK;
  }

  /** Did the last operation commit? */
  predicate Committed(ops: seq<Op>, replies: seq<Reply>)
    requires |ops| == |replies|
  {
    ops != [] && ops[|ops| - 1].Commit? && replies[|ops| - 1] == Done
  }
}
