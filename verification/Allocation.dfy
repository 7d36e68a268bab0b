/** Where files lie in the picture area, and where the next one goes. */
module Allocation {
  import opened FileTable

  /** The picture area: files lie between the reserved memory and the end of the usable memory. */
  datatype Area = Area(reserved: int, end: int)

  /** The entries of all slots of a file table. */
  type Table = seq<FileInfo>

  predicate Disjoint(a: FileInfo, b: FileInfo) {
    a.End() <= b.address || b.End() <= a.address
  }

  predicate InArea(area: Area, f: FileInfo) {
    area.reserved <= f.address && 0 < f.size && f.End() <= area.end
  }

  /** A well-formed store: files lie in the picture area and do not overlap. */
  ghost predicate Sound(area: Area, table: Table) {
    && 0 < area.reserved <= area.end
    && (forall i :: 0 <= i < |table| && table[i].present ==> InArea(area, table[i]))
    && (forall i, j :: 0 <= i < j < |table| && table[i].present && table[j].present ==> Disjoint(table[i], table[j]))
  }

  function PresentSize(f: FileInfo): int {
    if f.present then f.size else 0
  }

  /** The summed sizes of all files. */
  function UsedBytes(table: Table): int {
    if table == [] then 0 else UsedBytes(table[..|table| - 1]) + PresentSize(table[|table| - 1])
  }

  function FreeBytes(area: Area, table: Table): int {
    area.end - area.reserved - UsedBytes(table)
  }

  lemma {:induction false} NothingUsed(t: Table)
    requires forall i :: 0 <= i < |t| ==> !t[i].present
    ensures UsedBytes(t) == 0
  {
    if t != [] {
      NothingUsed(t[..|t| - 1]);
    }
  }

  /** Could a file of this size be stored at this address? */
  ghost predicate FreeAt(area: Area, table: Table, address: int, size: int) {
    && area.reserved <= address && address + size <= area.end
    && forall i :: 0 <= i < |table| && table[i].present ==> Disjoint(FileInfo(address, true, size), table[i])
  }

  ghost predicate Fits(area: Area, table: Table, size: int) {
    exists a :: FreeAt(area, table, a, size)
  }

  /** First fit: the lowest address at which there is room. */
  ghost predicate FirstFree(area: Area, table: Table, address: int, size: int) {
    && FreeAt(area, table, address, size)
    && forall a :: FreeAt(area, table, a, size) ==> address <= a
  }

  /** No holes between the files: they fill the start of the picture area. */
  ghost predicate Packed(area: Area, table: Table) {
    forall i :: 0 <= i < |table| && table[i].present ==> table[i].End() <= area.reserved + UsedBytes(table)
  }

  // ----- Lists of used regions, sorted by address -----

  function SizeSum(s: seq<FileInfo>): int {
    if s == [] then 0 else SizeSum(s[..|s| - 1]) + s[|s| - 1].size
  }

  lemma {:induction false} SizeSumPrepend(x: FileInfo, s: seq<FileInfo>)
    ensures SizeSum([x] + s) == x.size + SizeSum(s)
  {
    if s == [] {
      assert [x] + s == [x];
    } else {
      assert ([x] + s)[..|s|] == [x] + s[..|s| - 1];
      SizeSumPrepend(x, s[..|s| - 1]);
    }
  }

  function Insert(x: FileInfo, s: seq<FileInfo>): seq<FileInfo> {
    if s == [] || x.address <= s[0].address then [x] + s else [s[0]] + Insert(x, s[1..])
  }

  function SortByAddress(s: seq<FileInfo>): seq<FileInfo> {
    if s == [] then [] else Insert(s[|s| - 1], SortByAddress(s[..|s| - 1]))
  }

  ghost predicate PairwiseDisjoint(s: seq<FileInfo>) {
    forall i, j :: 0 <= i < j < |s| ==> Disjoint(s[i], s[j])
  }

  /** Regions in memory order. */
  ghost predicate Chain(s: seq<FileInfo>) {
    && (forall i :: 0 <= i < |s| ==> s[i].size > 0)
    && forall i, j :: 0 <= i < j < |s| ==> s[i].End() <= s[j].address
  }

  lemma {:induction false} InsertKeepsAll(x: FileInfo, s: seq<FileInfo>)
    ensures |Insert(x, s)| == |s| + 1
    ensures SizeSum(Insert(x, s)) == x.size + SizeSum(s)
    ensures forall y :: y in Insert(x, s) <==> y == x || y in s
  {
    if s == [] || x.address <= s[0].address {
      SizeSumPrepend(x, s);
    } else {
      InsertKeepsAll(x, s[1..]);
      SizeSumPrepend(s[0], Insert(x, s[1..]));
      SizeSumPrepend(s[0], s[1..]);
      assert s == [s[0]] + s[1..];
    }
  }

  lemma {:induction false} SortKeepsLength(s: seq<FileInfo>)
    ensures |SortByAddress(s)| == |s|
  {
    if s != [] {
      SortKeepsLength(s[..|s| - 1]);
      InsertKeepsAll(s[|s| - 1], SortByAddress(s[..|s| - 1]));
    }
  }

  lemma {:induction false} InsertIntoChain(x: FileInfo, s: seq<FileInfo>)
    requires Chain(s) && x.size > 0 && forall i :: 0 <= i < |s| ==> Disjoint(x, s[i])
    ensures Chain(Insert(x, s))
  {
    if s == [] || x.address <= s[0].address {
      forall j | 0 <= j < |s| ensures x.End() <= s[j].address {
        assert Disjoint(x, s[j]);
      }
      ChainPrepend(x, s);
    } else {
      var t := Insert(x, s[1..]);
      InsertIntoChain(x, s[1..]);
      InsertKeepsAll(x, s[1..]);
      assert Disjoint(x, s[0]);
      forall j | 0 <= j < |t| ensures s[0].End() <= t[j].address {
        assert t[j] == x || t[j] in s[1..];
      }
      ChainPrepend(s[0], t);
    }
  }

  lemma ChainPrepend(x: FileInfo, s: seq<FileInfo>)
    requires Chain(s) && x.size > 0 && forall j :: 0 <= j < |s| ==> x.End() <= s[j].address
    ensures Chain([x] + s)
  {
  }

  /** Sorting disjoint regions puts them into memory order and keeps them all. */
  lemma {:induction false} SortedIsChain(s: seq<FileInfo>)
    requires PairwiseDisjoint(s) && forall i :: 0 <= i < |s| ==> s[i].size > 0
    ensures Chain(SortByAddress(s))
    ensures |SortByAddress(s)| == |s|
    ensures SizeSum(SortByAddress(s)) == SizeSum(s)
    ensures forall y :: y in SortByAddress(s) <==> y in s
  {
    if s != [] {
      var x, rest := s[|s| - 1], s[..|s| - 1];
      SortedIsChain(rest);
      var t := SortByAddress(rest);
      forall i | 0 <= i < |t| ensures Disjoint(x, t[i]) {
        assert t[i] in rest;
      }
      InsertIntoChain(x, t);
      InsertKeepsAll(x, t);
      assert s == rest + [x];
    }
  }

  function Hole(u: seq<FileInfo>, k: nat): int
    requires 0 < k < |u|
  {
    u[k].address - u[k - 1].End()
  }

  /** The summed holes before the first `n` regions. */
  function HoleSum(u: seq<FileInfo>, n: nat): int
    requires 0 < n <= |u|
  {
    if n == 1 then 0 else HoleSum(u, n - 1) + Hole(u, n - 1)
  }

  lemma {:induction false} HolesTelescope(u: seq<FileInfo>, n: nat)
    requires 0 < n <= |u|
    ensures HoleSum(u, n) == u[n - 1].address - u[0].address - SizeSum(u[..n - 1])
  {
    if n > 1 {
      HolesTelescope(u, n - 1);
      assert u[..n - 1][..n - 2] == u[..n - 2];
    }
  }

  lemma {:induction false} HolesNonNegative(u: seq<FileInfo>, n: nat)
    requires 0 < n <= |u| && forall k :: 0 < k < n ==> Hole(u, k) >= 0
    ensures HoleSum(u, n) >= 0
    ensures forall k :: 0 < k < n ==> Hole(u, k) <= HoleSum(u, n)
  {
    if n > 1 {
      HolesNonNegative(u, n - 1);
    }
  }

  // ----- The used regions of a store -----

  /** The entries of the files, in slot order. */
  function Entries(table: Table): seq<FileInfo> {
    if table == [] then []
    else Entries(table[..|table| - 1]) + if table[|table| - 1].present then [table[|table| - 1]] else []
  }

  function ReservedRegion(area: Area): FileInfo {
    FileInfo(0, true, area.reserved)
  }

  function EndRegion(area: Area): FileInfo {
    FileInfo(area.end, true, 0)
  }

  /** The reserved memory and the files, in memory order. */
  function FileRegions(area: Area, table: Table): seq<FileInfo> {
    SortByAddress([ReservedRegion(area)] + Entries(table))
  }

  /** All used regions in memory order, closed by one that starts at the end. */
  function UsedRegions(area: Area, table: Table): seq<FileInfo> {
    FileRegions(area, table) + [EndRegion(area)]
  }

  lemma {:induction false} EntriesKeepFiles(table: Table)
    ensures forall y :: y in Entries(table) <==> y in table && y.present
    ensures |Entries(table)| <= |table|
    ensures SizeSum(Entries(table)) == UsedBytes(table)
  {
    if table != [] {
      var rest, x := table[..|table| - 1], table[|table| - 1];
      EntriesKeepFiles(rest);
      assert table == rest + [x];
      if x.present {
        assert (Entries(rest) + [x])[..|Entries(rest)|] == Entries(rest);
      } else {
        assert Entries(table) == Entries(rest);
      }
    }
  }

  lemma {:induction false} EntriesDisjoint(area: Area, table: Table)
    requires Sound(area, table)
    ensures PairwiseDisjoint([ReservedRegion(area)] + Entries(table))
  {
    if table != [] {
      var rest, x := table[..|table| - 1], table[|table| - 1];
      EntriesDisjoint(area, rest);
      EntriesKeepFiles(rest);
      var e := [ReservedRegion(area)] + Entries(rest);
      if x.present {
        forall i | 0 <= i < |e| ensures Disjoint(e[i], x) {
          if i > 0 {
            assert e[i] in Entries(rest);
          }
        }
        assert [ReservedRegion(area)] + Entries(table) == e + [x];
      } else {
        assert [ReservedRegion(area)] + Entries(table) == e;
      }
    }
  }

  lemma FileRegionsShape(area: Area, table: Table)
    requires Sound(area, table)
    ensures Chain(FileRegions(area, table))
    ensures 0 < |FileRegions(area, table)| <= |table| + 1
    ensures forall y :: y in FileRegions(area, table) <==> y == ReservedRegion(area) || (y in table && y.present)
    ensures SizeSum(FileRegions(area, table)) == area.reserved + UsedBytes(table)
  {
    EntriesKeepFiles(table);
    EntriesDisjoint(area, table);
    SizeSumPrepend(ReservedRegion(area), Entries(table));
    var r := [ReservedRegion(area)] + Entries(table);
    forall i | 0 <= i < |r| ensures r[i].size > 0 {
      assert i > 0 ==> r[i] in Entries(table);
    }
    SortedIsChain(r);
    assert forall y :: y in r <==> y == ReservedRegion(area) || y in Entries(table);
  }

  lemma ReservedComesFirst(area: Area, table: Table)
    requires Sound(area, table)
    ensures |FileRegions(area, table)| > 0 && FileRegions(area, table)[0] == ReservedRegion(area)
    ensures forall k :: 0 < k < |FileRegions(area, table)| ==>
              FileRegions(area, table)[k] in table && FileRegions(area, table)[k].present
  {
    FileRegionsShape(area, table);
    var t := FileRegions(area, table);
    assert ReservedRegion(area) in t;
    assert t[0] in t;
    forall k | 0 < k < |t| ensures t[k] in table && t[k].present {
      assert t[k] in t;
      assert t[0].End() <= t[k].address;
    }
  }

  /** What the driver relies on in its list of used regions. */
  ghost predicate UsedRegionsOf(area: Area, table: Table, u: seq<FileInfo>) {
    && 2 <= |u| <= |table| + 2
    && u[0] == ReservedRegion(area)
    && u[|u| - 1] == EndRegion(area)
    && (forall k :: 0 < k < |u| - 1 ==> u[k] in table && u[k].present)
    && (forall k :: 0 < k < |u| ==> Hole(u, k) >= 0)
    && SizeSum(u[..|u| - 1]) == area.reserved + UsedBytes(table)
  }

  lemma UsedRegionsShape(area: Area, table: Table)
    requires Sound(area, table)
    ensures UsedRegionsOf(area, table, UsedRegions(area, table))
  {
    FileRegionsShape(area, table);
    ReservedComesFirst(area, table);
    var t, u := FileRegions(area, table), UsedRegions(area, table);
    assert u[..|u| - 1] == t;
  }

  /** The holes add up to the free memory. */
  lemma HolesAreFreeBytes(area: Area, table: Table)
    requires Sound(area, table)
    ensures |UsedRegions(area, table)| >= 2
    ensures HoleSum(UsedRegions(area, table), |UsedRegions(area, table)|) == FreeBytes(area, table)
    ensures FreeBytes(area, table) >= 0
  {
    UsedRegionsShape(area, table);
    var u := UsedRegions(area, table);
    HolesTelescope(u, |u|);
    HolesNonNegative(u, |u|);
  }

  // ----- First fit -----

  lemma {:induction false} RoomLiesBehindSmallHoles(area: Area, table: Table, a: int, size: int, k: nat)
    requires Sound(area, table) && 0 < size && FreeAt(area, table, a, size)
    requires 0 < k <= |UsedRegions(area, table)|
    requires forall j :: 0 < j < k ==> Hole(UsedRegions(area, table), j) < size
    ensures UsedRegions(area, table)[k - 1].End() <= a
  {
    UsedRegionsShape(area, table);
    var u := UsedRegions(area, table);
    if k > 1 {
      RoomLiesBehindSmallHoles(area, table, a, size, k - 1);
      assert Hole(u, k - 1) < size;
      if k < |u| {
        assert u[k - 1] in table;
      }
    }
  }

  /** A hole that is large enough has room, whatever lies around it. */
  lemma HoleHasRoom(area: Area, table: Table, k: nat, size: int)
    requires Sound(area, table) && 0 < size
    requires 0 < k < |UsedRegions(area, table)| && size <= Hole(UsedRegions(area, table), k)
    ensures FreeAt(area, table, UsedRegions(area, table)[k - 1].End(), size)
  {
    UsedRegionsShape(area, table);
    FileRegionsShape(area, table);
    var t, u := FileRegions(area, table), UsedRegions(area, table);
    var a := t[k - 1].End();
    assert t[0].End() <= a;
    assert k < |t| ==> u[k] in table;
    forall i | 0 <= i < |table| && table[i].present ensures Disjoint(FileInfo(a, true, size), table[i]) {
      assert table[i] in t;
      var m :| 0 <= m < |t| && t[m] == table[i];
      if m < k {
        assert t[m].End() <= a;
      } else {
        assert a + size <= u[k].address <= t[m].address;
      }
    }
  }

  /** The first hole that is large enough starts at the lowest address with room. */
  lemma FirstHoleIsFirstFree(area: Area, table: Table, k: nat, size: int)
    requires Sound(area, table) && 0 < size
    requires 0 < k < |UsedRegions(area, table)| && size <= Hole(UsedRegions(area, table), k)
    requires forall j :: 0 < j < k ==> Hole(UsedRegions(area, table), j) < size
    ensures FirstFree(area, table, UsedRegions(area, table)[k - 1].End(), size)
  {
    HoleHasRoom(area, table, k, size);
    forall a | FreeAt(area, table, a, size) ensures UsedRegions(area, table)[k - 1].End() <= a {
      RoomLiesBehindSmallHoles(area, table, a, size, k);
    }
  }

  lemma SmallHolesHaveNoRoom(area: Area, table: Table, size: int)
    requires Sound(area, table) && 0 < size
    requires forall j :: 0 < j < |UsedRegions(area, table)| ==> Hole(UsedRegions(area, table), j) < size
    ensures !Fits(area, table, size)
  {
    UsedRegionsShape(area, table);
    forall a ensures !FreeAt(area, table, a, size) {
      if FreeAt(area, table, a, size) {
        RoomLiesBehindSmallHoles(area, table, a, size, |UsedRegions(area, table)|);
      }
    }
  }

  /** Room for a file implies that much free memory; the converse needs the memory in one piece. */
  lemma FitsNeedsFreeBytes(area: Area, table: Table, size: int)
    requires Sound(area, table) && 0 < size && Fits(area, table, size)
    ensures size <= FreeBytes(area, table)
  {
    HolesAreFreeBytes(area, table);
    UsedRegionsShape(area, table);
    var u := UsedRegions(area, table);
    HolesNonNegative(u, |u|);
    if forall k :: 0 < k < |u| ==> Hole(u, k) < size {
      SmallHolesHaveNoRoom(area, table, size);
    }
  }

  // ----- Packed stores -----

  /** The only hole of a packed store is the last one. */
  lemma PackedHasOneHole(area: Area, table: Table, k: nat)
    requires Sound(area, table) && Packed(area, table)
    requires 0 < k < |UsedRegions(area, table)| - 1
    ensures Hole(UsedRegions(area, table), k) == 0
  {
    UsedRegionsShape(area, table);
    var u := UsedRegions(area, table);
    var last := |u| - 2;
    HolesTelescope(u, last + 1);
    HolesNonNegative(u, last + 1);
    assert u[last] in table;
    assert u[..last + 1][..last] == u[..last];
  }

  /** In a packed store there is room only behind the files, and all of it. */
  lemma PackedFirstFree(area: Area, table: Table, size: int)
    requires Sound(area, table) && Packed(area, table) && 0 < size
    ensures forall a :: FreeAt(area, table, a, size) ==> area.reserved + UsedBytes(table) <= a
    ensures size <= FreeBytes(area, table) <==> Fits(area, table, size)
    ensures size <= FreeBytes(area, table) ==> FirstFree(area, table, area.reserved + UsedBytes(table), size)
  {
    HolesAreFreeBytes(area, table);
    UsedRegionsShape(area, table);
    UsedBytesNonNegative(area, table);
    var u := UsedRegions(area, table);
    var last := |u| - 2;
    forall k | 0 < k < |u| - 1 ensures Hole(u, k) < size {
      PackedHasOneHole(area, table, k);
    }
    PackedEnd(area, table);
    forall a | FreeAt(area, table, a, size) ensures area.reserved + UsedBytes(table) <= a {
      RoomLiesBehindSmallHoles(area, table, a, size, |u| - 1);
    }
    if size <= FreeBytes(area, table) {
      assert FreeAt(area, table, area.reserved + UsedBytes(table), size);
    }
  }

  lemma {:induction false} UsedBytesNonNegative(area: Area, table: Table)
    requires forall i :: 0 <= i < |table| && table[i].present ==> InArea(area, table[i])
    ensures UsedBytes(table) >= 0
    ensures UsedBytes(table) == 0 <==> forall i :: 0 <= i < |table| ==> !table[i].present
  {
    if table != [] {
      UsedBytesNonNegative(area, table[..|table| - 1]);
    }
  }

  /** The files of a packed store end where their summed sizes say. */
  lemma PackedEnd(area: Area, table: Table)
    requires Sound(area, table) && Packed(area, table)
    ensures |UsedRegions(area, table)| >= 2
    ensures UsedRegions(area, table)[|UsedRegions(area, table)| - 2].End() == area.reserved + UsedBytes(table)
  {
    UsedRegionsShape(area, table);
    var u := UsedRegions(area, table);
    var last := |u| - 2;
    HolesTelescope(u, last + 1);
    HolesNonNegative(u, last + 1);
    assert last > 0 ==> u[last] in table;
    assert u[..last + 1][..last] == u[..last];
  }

  // ----- Changing one slot -----

  lemma {:induction false} UsedBytesUpdate(table: Table, idx: nat, entry: FileInfo)
    requires idx < |table|
    ensures UsedBytes(table[idx := entry]) == UsedBytes(table) - PresentSize(table[idx]) + PresentSize(entry)
  {
    var rest := table[..|table| - 1];
    var updated := table[idx := entry];
    if idx < |table| - 1 {
      UsedBytesUpdate(rest, idx, entry);
      assert updated[..|updated| - 1] == rest[idx := entry];
    } else {
      assert updated[..|updated| - 1] == rest;
    }
  }

  lemma StoreKeepsSound(area: Area, table: Table, idx: nat, address: int, size: int)
    requires Sound(area, table) && idx < |table| && 0 < size && FreeAt(area, table, address, size)
    ensures Sound(area, table[idx := FileInfo(address, true, size)])
  {
    var updated := table[idx := FileInfo(address, true, size)];
    forall i, j | 0 <= i < j < |updated| && updated[i].present && updated[j].present
      ensures Disjoint(updated[i], updated[j]) {
      if i != idx && j != idx {
        assert Disjoint(table[i], table[j]);
      }
    }
  }

  lemma RemoveKeepsSound(area: Area, table: Table, idx: nat, entry: FileInfo)
    requires Sound(area, table) && idx < |table| && !entry.present
    ensures Sound(area, table[idx := entry])
  {
    var updated := table[idx := entry];
    forall i, j | 0 <= i < j < |updated| && updated[i].present && updated[j].present
      ensures Disjoint(updated[i], updated[j]) {
      assert Disjoint(table[i], table[j]);
    }
  }

  lemma StoreKeepsPacked(area: Area, table: Table, idx: nat, address: int, size: int)
    requires Sound(area, table) && Packed(area, table) && idx < |table| && !table[idx].present && 0 < size
    requires FirstFree(area, table, address, size)
    ensures Packed(area, table[idx := FileInfo(address, true, size)])
  {
    PackedFirstFree(area, table, size);
    assert Fits(area, table, size);
    UsedBytesUpdate(table, idx, FileInfo(address, true, size));
  }
}
