/** The SPI flash memory behind the picture frame, as its data sheet commands see it. */
module Eeprom {
  import opened Bytes
  import opened Wrappers

  const SECTOR_SIZE: nat := 4096
  const BLOCK_SIZE: nat := 65536
  const PAGE_SIZE: nat := 256

  /** Programming a flash cell can only clear bits. */
  function ProgramByte(cell: byte, data: byte): (r: byte)
    ensures r <= data
    ensures cell == 255 ==> r == data
  {
    AndWithErasedByte(data);
    And(8, cell, data)
  }

  /** A bit is set behind it if it was set, and is set in the data. */
  lemma ProgrammedBits(cell: byte, data: byte, k: nat)
    requires k < 8
    ensures BitAt(ProgramByte(cell, data), k) == BitAt(cell, k) * BitAt(data, k)
  {
    AndBitwise(8, cell, data, k);
  }

  ghost predicate SameOutside(before: seq<byte>, after: seq<byte>, start: nat, size: nat) {
    && |before| == |after|
    && forall i :: 0 <= i < |before| && !(start <= i < start + size) ==> after[i] == before[i]
  }

  /** A command either takes effect and reports success, or counts a fault. A failing erase or
      program command leaves arbitrary bytes in the range it addressed. */
  class Device {
    var cells: seq<byte>
    // the write enable latch: set by WREN, cleared by every command that writes
    var writeEnabled: bool
    // the block protection bits of the status register
    var isProtected: bool
    ghost var faults: nat

    constructor (content: seq<byte>, locked: bool)
      ensures cells == content && isProtected == locked && !writeEnabled && faults == 0
    {
      cells, isProtected, writeEnabled, faults := content, locked, false, 0;
    }

    method Read(address: nat, size: nat) returns (r: Result<seq<byte>>)
      requires address + size <= |cells|
      modifies this`faults
      ensures if r.Success? then faults == old(faults) else r == Failure(Io) && faults > old(faults)
      ensures r.Success? ==> r.value == cells[address..address + size]
    {
      var sent := Attempt();
      if sent.Failure? {
        faults := faults + 1;
        return Failure(Io);
      }
      return Success(cells[address..address + size]);
    }

    method WriteEnable() returns (r: Status)
      modifies this`writeEnabled, this`faults
      ensures if r.Success? then writeEnabled && faults == old(faults) else r == Failure(Io) && faults > old(faults)
    {
      r := Attempt();
      if r.Success? {
        writeEnabled := true;
      } else {
        faults := faults + 1;
      }
    }

    method WaitReady() returns (r: Status)
      modifies this`faults
      ensures if r.Success? then faults == old(faults) else r == Failure(Io) && faults > old(faults)
    {
      r := Attempt();
      if r.Failure? {
        faults := faults + 1;
      }
    }

    method ClearBlockProtection() returns (r: Status)
      modifies this`isProtected, this`writeEnabled, this`faults
      ensures if r.Success? then faults == old(faults)
              else r == Failure(Io) && faults > old(faults) && isProtected == old(isProtected)
      ensures r.Success? ==> isProtected == (old(isProtected) && !old(writeEnabled))
    {
      r := Attempt();
      if r.Success? {
        isProtected := isProtected && !writeEnabled;
        writeEnabled := false;
      } else {
        faults := faults + 1;
      }
    }

    /** ERASE_4K and ERASE_64K. */
    method Erase(address: nat, size: nat) returns (r: Status)
      requires size == SECTOR_SIZE || size == BLOCK_SIZE
      requires address % size == 0 && address + size <= |cells|
      modifies this`cells, this`writeEnabled, this`faults
      ensures if r.Success? then faults == old(faults) else r == Failure(Io) && faults > old(faults)
      ensures SameOutside(old(cells), cells, address, size)
      ensures r.Success? && old(writeEnabled) && !isProtected ==>
        forall i :: address <= i < address + size ==> cells[i] == 255
      ensures r.Success? && !(old(writeEnabled) && !isProtected) ==> cells == old(cells)
    {
      r := Attempt();
      if r.Failure? {
        faults := faults + 1;
        var garbage := Garbage(size);
        cells := Splice(cells, address, garbage);
      } else if writeEnabled && !isProtected {
        cells := Splice(cells, address, seq(size, _ => 255));
      }
      writeEnabled := false;
    }

    /** PP: program one page, or a whole block on the devices that can. */
    method ProgramPage(address: nat, data: seq<byte>) returns (r: Status)
      requires |data| == PAGE_SIZE || |data| == BLOCK_SIZE
      requires address % |data| == 0 && address + |data| <= |cells|
      modifies this`cells, this`writeEnabled, this`faults
      ensures if r.Success? then faults == old(faults) else r == Failure(Io) && faults > old(faults)
      ensures SameOutside(old(cells), cells, address, |data|)
      ensures r.Success? && old(writeEnabled) && !isProtected ==>
        forall i :: address <= i < address + |data| ==> cells[i] == ProgramByte(old(cells[i]), data[i - address])
      ensures r.Success? && !(old(writeEnabled) && !isProtected) ==> cells == old(cells)
    {
      r := Attempt();
      if r.Failure? {
        faults := faults + 1;
        var garbage := Garbage(|data|);
        cells := Splice(cells, address, garbage);
      } else if writeEnabled && !isProtected {
        var was := cells;
        cells := Splice(cells, address,
                        seq(|data|, k requires 0 <= k < |data| => ProgramByte(was[address + k], data[k])));
      }
      writeEnabled := false;
    }

    /** The bridge adds up the bytes of a range; a faulty one reports something else. */
    method GetChecksum(address: nat, size: nat) returns (ok: bool, checksum: int)
      requires address + size <= |cells|
      modifies this`faults
      ensures faults >= old(faults)
      ensures faults == old(faults) <==> ok && checksum == Sum(cells[address..address + size]) % 0x10000
    {
      ok := *;
      checksum := *;
      if !ok || checksum != Sum(cells[address..address + size]) % 0x10000 {
        faults := faults + 1;
      }
    }
  }

  /** The outcome of sending one command to the device. */
  method Attempt() returns (r: Status)
    ensures r == OK || r == Failure(Io)
  {
    var sent: bool := *;
    r := if sent then OK else Failure(Io);
  }

  method Garbage(size: nat) returns (data: seq<byte>)
    ensures |data| == size
  {
    data := *;
    if |data| != size {
      data := seq(size, _ => 0);
    }
  }
}
