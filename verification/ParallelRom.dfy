/** The NOR device behind src/storage/parallel_rom_programmer.cpp, reduced to what its
  * commands do: a sector erases to $FF, programming a byte clears bits, reads verify. */
module ParallelRom {
  import opened Bytes

  const SECTOR: nat := 0x2_0000
  const MAX_CAPACITY: nat := 0x100_0000
  const INVALID_ADDRESS: nat := 0xFFFF_FFFF

  // CFI accepts size powers 20 through 24.
  predicate IsCapacity(c: nat) {
    c == 0x10_0000 || c == 0x20_0000 || c == 0x40_0000 || c == 0x80_0000 || c == 0x100_0000
  }

  function SectorOf(address: nat): nat {
    address / SECTOR
  }

  // The addresses of one sector are exactly the SECTOR addresses from its base on.
  lemma SectorRange(base: nat)
    requires base % SECTOR == 0
    ensures forall i: nat :: base <= i < base + SECTOR <==> SectorOf(i) == SectorOf(base)
  {}

  // All addresses of one sector hold $FF afterwards, every other cell is kept.
  ghost predicate SectorErased(before: seq<byte>, after: seq<byte>, base: nat) {
    && |after| == |before| && base + SECTOR <= |before|
    && (forall i :: base <= i < base + SECTOR ==> after[i] == ERASED)
    && (forall i :: 0 <= i < |before| && !(base <= i < base + SECTOR) ==> after[i] == before[i])
  }

  // One sector holds exactly data afterwards, every other cell is kept.
  ghost predicate SectorHolds(before: seq<byte>, after: seq<byte>, base: nat, data: seq<byte>) {
    && |after| == |before| && base + SECTOR <= |before| && |data| == SECTOR
    && (forall i :: 0 <= i < SECTOR ==> after[base + i] == data[i])
    && (forall i :: 0 <= i < |before| && !(base <= i < base + SECTOR) ==> after[i] == before[i])
  }

  class Device {
    const cells: array<byte>
    // How many flash commands and host polls succeed before the upload is cancelled or the device dies;
    // None is a device that works.
    const failAt: Option<nat>
    var steps: nat

    ghost predicate Valid() {
      IsCapacity(cells.Length)
    }

    // Nothing succeeds any more.
    predicate Dead()
      reads this
    {
      failAt.Some? && failAt.value <= steps
    }

    constructor (capacity: nat, failAt: Option<nat>)
      requires IsCapacity(capacity)
      ensures Valid() && cells.Length == capacity && this.failAt == failAt && steps == 0 && fresh(cells)
    {
      cells := new byte[capacity](_ => ERASED);
      this.failAt, steps := failAt, 0;
    }

    // The USB-mode poll that every long operation repeats.
    method Active() returns (ok: bool)
      modifies this
      ensures (ok <==> !old(Dead())) && (!ok ==> Dead())
      ensures steps == old(steps) + if ok then 1 else 0
    {
      ok := !Dead();
      if ok {
        steps := steps + 1;
      }
    }

    method EraseSector(address: nat) returns (ok: bool)
      requires Valid() && address < cells.Length
      modifies this, cells
      ensures (ok <==> !old(Dead())) && (!ok ==> Dead())
      ensures steps == old(steps) + if ok then 1 else 0
      ensures if ok then SectorErased(old(cells[..]), cells[..], address - address % SECTOR) else cells[..] == old(cells[..])
    {
      ok := Active();
      if !ok {
        return;
      }
      var base := address - address % SECTOR;
      assert base + SECTOR <= cells.Length;
      forall i | base <= i < base + SECTOR {
        cells[i] := ERASED;
      }
    }

    // Programming clears bits; it succeeds on a live device exactly when the byte asked for comes out.
    // A $FF is only looked at.
    method ProgramByte(address: nat, data: byte) returns (ok: bool)
      requires Valid() && address < cells.Length
      modifies this, cells
      ensures ok <==> (data == ERASED || !old(Dead())) && Programmed(old(cells[address]), data) == data
      ensures !ok ==> Dead() || Programmed(old(cells[address]), data) != data
      ensures cells[address] == if data == ERASED || old(Dead()) then old(cells[address]) else Programmed(old(cells[address]), data)
      ensures forall i :: 0 <= i < cells.Length && i != address ==> cells[i] == old(cells[i])
      ensures steps == old(steps) + if data == ERASED || old(Dead()) then 0 else 1
    {
      if data == 0xFF {
        ProgramErased(cells[address]);
        ok := cells[address] == ERASED;
        return;
      }
      ok := Active();
      if !ok {
        return;
      }
      cells[address] := Programmed(cells[address], data);
      ok := cells[address] == data;
    }

    method Verify(address: nat, data: seq<byte>) returns (ok: bool)
      requires Valid() && address + |data| <= cells.Length
      ensures ok <==> cells[address..address + |data|] == data
    {
      var index := 0;
      while index < |data|
        invariant index <= |data| && cells[address..address + index] == data[..index]
      {
        if cells[address + index] != data[index] {
          assert cells[address..address + |data|][index] != data[index];
          return false;
        }
        index := index + 1;
      }
      return true;
    }

    // Erase one sector, program every byte that is not $FF, and read the sector back: the
    // sequence shared by flushing the staging sector, sliding the image and installing.
    method WriteSector(base: nat, data: array<byte>) returns (ok: bool)
      requires Valid() && base % SECTOR == 0 && base < cells.Length
      requires data.Length == SECTOR && data != cells
      modifies this, cells
      ensures !ok ==> Dead()
      ensures ok ==> SectorHolds(old(cells[..]), cells[..], base, data[..])
    {
      ok := EraseSector(base);
      if !ok {
        return;
      }
      var index := 0;
      while index < SECTOR
        invariant index <= SECTOR && base + SECTOR <= cells.Length
        invariant forall i :: base <= i < base + index ==> cells[i] == data[i - base]
        invariant forall i :: base + index <= i < base + SECTOR ==> cells[i] == ERASED
        invariant forall i :: 0 <= i < cells.Length && !(base <= i < base + SECTOR) ==>
                              cells[i] == old(cells[i])
      {
        ok := Active();
        if !ok {
          return;
        }
        if data[index] != 0xFF {
          ProgramErased(data[index]);
          ok := ProgramByte(base + index, data[index]);
          if !ok {
            return;
          }
        }
        index := index + 1;
      }
      ok := Verify(base, data[..]);
      assert cells[base..base + SECTOR] == data[..];
    }
  }
}
