/** What the coprocessor reads as ROM (src/fx/fx_memory.cpp:42-58) on a cartridge with an installed FX3 ROM: at
  * every bus address the byte the SNES sees there. */
module FxRom {
  import opened Bytes
  import opened RomLayout
  import opened RomInstaller
  import FxMemory

  // The last bank the coprocessor can run from.
  const LAST_BANK := 0x6F

  // A byte as the coprocessor's memory holds it.
  function Cell(b: byte): bv8 {
    b as bv8
  }

  // The FX window as the coprocessor's ROM.
  function Rom(info: RomInfo, src: seq<byte>): nat -> bv8
    requires 0 < info.size == |src|
  {
    (o: nat) => WindowCell(info, src, o)
  }

  function WindowCell(info: RomInfo, src: seq<byte>, o: nat): bv8
    requires 0 < info.size == |src|
  {
    if o < FX_WINDOW then Cell(src[MirrorOffset(info.size, o)]) else FxMemory.OPEN_BUS
  }

  lemma CellOfWindow(info: RomInfo, src: seq<byte>, o: nat)
    requires 0 < info.size == |src| && o < FX_WINDOW
    ensures Rom(info, src)(o) == Cell(FxWindow(info, src)[o])
  {
    hide MirrorOffset;
  }

  // Banks below $40 are 32 KiB each and repeat in both halves, so bank $40 + b shows banks 2 b and 2 b + 1.
  lemma BanksAgree(rom: nat -> bv8, b: nat, address: nat)
    requires b < 0x20 && address < 0x1_0000
    ensures FxMemory.RomAt(rom, LAST_BANK, 0x40 + b, address) ==
            FxMemory.RomAt(rom, LAST_BANK, if address < 0x8000 then 2 * b else 2 * b + 1, address)
    ensures FxMemory.RomAt(rom, LAST_BANK, b, address) == FxMemory.RomAt(rom, LAST_BANK, b, (address + 0x8000) % 0x1_0000)
  {}

  // Beyond its last bank nothing answers.
  lemma OpenAbove(rom: nat -> bv8, bank: nat, address: nat)
    requires LAST_BANK < bank
    ensures FxMemory.RomAt(rom, LAST_BANK, bank, address) == 0xFF
  {}

  // Coprocessor and SNES see the same byte.
  lemma SeesTheSame(info: RomInfo, src: seq<byte>, bank: nat, address: nat)
    requires info.mapping == Fx3 && 0 < info.size == |src| && bank <= LAST_BANK && address < 0x1_0000
    ensures var source := SourceOffset(info, bank * 0x1_0000 + address);
            source.Some? && FxMemory.RomAt(Rom(info, src), LAST_BANK, bank, address) == Cell(src[source.value])
  {
    hide MirrorOffset, SourceOffset, FxWindow, Linear, FxMemory.RomAt;
    SourceInBank(info, bank, address, bank * 0x1_0000 + address);
    LinearRom(Rom(info, src), bank, address);
  }

  // The coprocessor's map is the SNES's.
  lemma LinearRom(rom: nat -> bv8, bank: nat, address: nat)
    requires bank <= LAST_BANK && address < 0x1_0000
    ensures Mapped(Fx3, bank, address) && Linear(Fx3, bank, address) < FX_WINDOW
    ensures FxMemory.RomAt(rom, LAST_BANK, bank, address) == rom(Linear(Fx3, bank, address))
  {}
}
