/** The coprocessor's delayed memory (src/fx/fx_memory.cpp, FX3): stores reach RAM and R14 fetches reach the
  * ROM buffer some cycles after they are issued, and a program cannot tell. */
module FxMemory {
  const RAM_SIZE := 0x2_0000
  const BANK_SIZE := 0x1_0000
  const OPEN_BUS: bv8 := 0xFF

  // What a program sees, with every operation taking effect at once.
  datatype Ideal = Ideal(ram: seq<bv8>, ramBank: nat, romBank: nat, r14: nat, buffer: bv8)

  datatype Op =
    | Tick(cycles: nat)                      // time passes: fetches, arithmetic, cache fills
    | StoreByte(address: nat, value: bv8)
    | StoreWord(address: nat, low: bv8, high: bv8)
    | LoadByte(address: nat)
    | LoadWord(address: nat)
    | SetRamBank(bank: nat)
    | SetRomBank(bank: nat)
    | SetR14(pointer: nat)
    | GetByte

  predicate InRange(op: Op) {
    match op
    case StoreByte(address, _) => address < BANK_SIZE
    case StoreWord(address, _, _) => address < BANK_SIZE
    case LoadByte(address) => address < BANK_SIZE
    case LoadWord(address) => address < BANK_SIZE
    case SetR14(value) => value < BANK_SIZE
    case _ => true
  }

  // The other byte of the word an address is in.
  function Other(address: nat): (r: nat)
    ensures address < BANK_SIZE ==> r < BANK_SIZE
  {
    if address % 2 == 0 then address + 1 else address - 1
  }

  // Banks below $40 are 32 KiB and mirrored, those up to the last program bank are linear.
  function RomAt(rom: nat -> bv8, lastBank: nat, bank: nat, address: nat): bv8 {
    if bank <= 0x3F then rom(bank * 0x8000 + address % 0x8000)
    else if bank <= lastBank then rom((bank - 0x40) * BANK_SIZE + address)
    else OPEN_BUS
  }

  function Cell(bank: nat, address: nat): nat {
    bank * BANK_SIZE + address
  }

  predicate IdealShape(i: Ideal) {
    |i.ram| == RAM_SIZE && i.ramBank <= 1 && i.r14 < BANK_SIZE
  }

  function IdealNext(i: Ideal, rom: nat -> bv8, lastBank: nat, op: Op): (r: Ideal)
    requires IdealShape(i) && InRange(op)
    ensures IdealShape(r)
  {
    match op
    case StoreByte(address, value) => i.(ram := i.ram[Cell(i.ramBank, address) := value])
    case StoreWord(address, low, high) =>
      i.(ram := i.ram[Cell(i.ramBank, address) := low][Cell(i.ramBank, Other(address)) := high])
    case SetRamBank(bank) => i.(ramBank := bank % 2)
    case SetRomBank(bank) => i.(romBank := bank % 0x80)
    case SetR14(value) => i.(r14 := value, buffer := RomAt(rom, lastBank, i.romBank, value))
    case _ => i
  }

  function IdealResult(i: Ideal, op: Op): seq<bv8>
    requires IdealShape(i) && InRange(op)
  {
    match op
    case LoadByte(address) => [i.ram[Cell(i.ramBank, address)]]
    case LoadWord(address) => [i.ram[Cell(i.ramBank, address)], i.ram[Cell(i.ramBank, Other(address))]]
    case GetByte => [i.buffer]
    case _ => []
  }

  // A whole program: the state it ends in, and the results on the way.
  function IdealRun(i: Ideal, rom: nat -> bv8, lastBank: nat, ops: seq<Op>): (r: (Ideal, seq<seq<bv8>>))
    requires IdealShape(i) && forall op <- ops :: InRange(op)
    ensures IdealShape(r.0) && |r.1| == |ops|
  {
    if ops == [] then (i, [])
    else
      var before, op := IdealRun(i, rom, lastBank, ops[..|ops| - 1]), ops[|ops| - 1];
      (IdealNext(before.0, rom, lastBank, op), before.1 + [IdealResult(before.0, op)])
  }

  class Memory {
    const ram: array<bv8>
    const rom: nat -> bv8
    const lastBank: nat
    var ramBank: nat
    var romBank: nat
    var r14: nat
    var fast: bool // the doubled clock
    var romDelay: nat
    var ramDelay: nat
    var storeAddress: nat
    var storeValue: bv8
    var romBuffer: bv8
    var fetchPending: bool

    predicate Valid()
      reads this
    {
      && ram.Length == RAM_SIZE && ramBank <= 1 && romBank < 0x80 && r14 < BANK_SIZE && storeAddress < BANK_SIZE
      && (fetchPending <==> 0 < romDelay)
    }

    // RAM with the pending store already in it.
    ghost function View(): (v: seq<bv8>)
      requires Valid()
      reads this, ram
      ensures |v| == RAM_SIZE
    {
      if ramDelay == 0 then ram[..] else ram[..][Cell(ramBank, storeAddress) := storeValue]
    }

    // The ROM buffer with the pending fetch already in it.
    ghost function Buffer(): bv8
      reads this
    {
      if romDelay == 0 then romBuffer else RomAt(rom, lastBank, romBank, r14)
    }

    // What the program is entitled to see.
    ghost function Seen(): (i: Ideal)
      requires Valid()
      reads this, ram
      ensures IdealShape(i)
    {
      Ideal(View(), ramBank, romBank, r14, Buffer())
    }

    constructor (ram: array<bv8>, rom: nat -> bv8, lastBank: nat)
      requires ram.Length == RAM_SIZE
      ensures Valid() && this.ram == ram && this.rom == rom && this.lastBank == lastBank && ramDelay == 0 && romDelay == 0
    {
      this.ram, this.rom, this.lastBank := ram, rom, lastBank;
      ramBank, romBank, r14, fast, romDelay, ramDelay := 0, 0, 0, false, 0, 0;
      storeAddress, storeValue, romBuffer, fetchPending := 0, 0, 0, false;
    }

    // Let cycles pass; a store or a fetch whose time has come retires.
    method Step(cycles: nat)
      requires Valid()
      modifies `romDelay, `ramDelay, `romBuffer, `fetchPending, ram
      ensures Valid() && Seen() == old(Seen())
      ensures ramDelay == (if cycles < old(ramDelay) then old(ramDelay) - cycles else 0)
      ensures romDelay == (if cycles < old(romDelay) then old(romDelay) - cycles else 0)
      ensures old(ramDelay) == 0 ==> unchanged(ram)
    {
      if romDelay != 0 {
        romDelay := romDelay - (if cycles < romDelay then cycles else romDelay);
        if romDelay == 0 {
          romBuffer := RomAt(rom, lastBank, romBank, r14);
          fetchPending := false;
        }
      }
      if ramDelay != 0 {
        ramDelay := ramDelay - (if cycles < ramDelay then cycles else ramDelay);
        if ramDelay == 0 {
          ram[Cell(ramBank, storeAddress)] := storeValue;
        }
      }
    }

    method WaitRam()
      requires Valid()
      modifies `romDelay, `ramDelay, `romBuffer, `fetchPending, ram
      ensures Valid() && Seen() == old(Seen()) && ramDelay == 0
      ensures old(ramDelay) == 0 ==> unchanged(this) && unchanged(ram)
    {
      if ramDelay != 0 {
        Step(ramDelay);
      }
    }

    method WaitRom()
      requires Valid()
      modifies `romDelay, `ramDelay, `romBuffer, `fetchPending, ram
      ensures Valid() && Seen() == old(Seen()) && romDelay == 0
      ensures old(ramDelay) == 0 ==> ramDelay == 0 && unchanged(ram)
    {
      if romDelay != 0 {
        Step(romDelay);
      }
    }

    method WriteRam(address: nat, value: bv8)
      requires Valid() && address < BANK_SIZE
      modifies `romDelay, `ramDelay, `romBuffer, `fetchPending, `storeAddress, `storeValue, ram
      ensures Valid() && Seen() == old(Seen()).(ram := old(View())[Cell(old(ramBank), address) := value])
      ensures ramDelay == if fast then 5 else 6
    {
      WaitRam();
      ramDelay := if fast then 5 else 6;
      storeAddress, storeValue := address, value;
    }

    method ReadRam(address: nat) returns (value: bv8)
      requires Valid() && address < BANK_SIZE
      modifies `romDelay, `ramDelay, `romBuffer, `fetchPending, ram
      ensures Valid() && Seen() == old(Seen()) && value == old(View())[Cell(old(ramBank), address)]
    {
      WaitRam();
      value := ram[Cell(ramBank, address)];
    }

    // Writing R14 starts a fetch; one still on its way is superseded.
    method WriteR14(value: nat)
      requires Valid() && value < BANK_SIZE
      modifies `r14, `romDelay, `fetchPending
      ensures Valid() && Seen() == old(Seen()).(r14 := value, buffer := RomAt(rom, lastBank, old(romBank), value))
      ensures romDelay == if fast then 5 else 6
    {
      r14, fetchPending, romDelay := value, true, if fast then 5 else 6;
    }

    method ReadRomBuffer() returns (value: bv8)
      requires Valid()
      modifies `romDelay, `ramDelay, `romBuffer, `fetchPending, ram
      ensures Valid() && Seen() == old(Seen()) && value == old(Buffer())
    {
      WaitRom();
      value := romBuffer;
    }

    // A bank only changes once the store or fetch issued under the old one has retired.
    method SelectRamBank(bank: nat)
      requires Valid()
      modifies `romDelay, `ramDelay, `romBuffer, `fetchPending, `ramBank, ram
      ensures Valid() && Seen() == old(Seen()).(ramBank := bank % 2)
    {
      WaitRam();
      ramBank := bank % 2;
    }

    method SelectRomBank(bank: nat)
      requires Valid()
      modifies `romDelay, `ramDelay, `romBuffer, `fetchPending, `romBank, ram
      ensures Valid() && Seen() == old(Seen()).(romBank := bank % 0x80)
    {
      WaitRom();
      romBank := bank % 0x80;
    }

    // One operation, delayed, is the ideal operation.
    method Execute(op: Op) returns (result: seq<bv8>)
      requires Valid() && InRange(op)
      modifies this, ram
      ensures Valid() && Seen() == IdealNext(old(Seen()), rom, lastBank, op) && result == IdealResult(old(Seen()), op)
    {
      result := [];
      match op {
        case Tick(cycles) => Step(cycles);
        case StoreByte(address, value) => WriteRam(address, value);
        case StoreWord(address, low, high) =>
          WriteRam(address, low);
          WriteRam(Other(address), high);
        case LoadByte(address) =>
          var value := ReadRam(address);
          result := [value];
        case LoadWord(address) =>
          var low := ReadRam(address);
          var high := ReadRam(Other(address));
          result := [low, high];
        case SetRamBank(bank) => SelectRamBank(bank);
        case SetRomBank(bank) => SelectRomBank(bank);
        case SetR14(value) => WriteR14(value);
        case GetByte =>
          var value := ReadRomBuffer();
          result := [value];
      }
    }

    // Over any program, whatever cycles pass in between, every load and every fetched byte is the one the
    // immediate machine gives.
    method Run(ops: seq<Op>) returns (results: seq<seq<bv8>>)
      requires Valid() && forall op <- ops :: InRange(op)
      modifies this, ram
      ensures Valid() && (Seen(), results) == IdealRun(old(Seen()), rom, lastBank, ops)
    {
      results := [];
      var i := 0;
      while i < |ops|
        invariant 0 <= i <= |ops| && Valid() && (Seen(), results) == IdealRun(old(Seen()), rom, lastBank, ops[..i])
      {
        assert ops[..i + 1][..i] == ops[..i];
        var result := Execute(ops[i]);
        results := results + [result];
        i := i + 1;
      }
      assert ops[..i] == ops;
    }
  }

  // A byte stored under a bank lies at that place of the RAM; it is what is loaded from there, and every other
  // place loads what it held before. Banks are told apart by their lowest bit alone.
  lemma StoreLoads(i: Ideal, rom: nat -> bv8, lastBank: nat, bank: nat, address: nat, value: bv8, bank': nat, address': nat)
    requires IdealShape(i) && address < BANK_SIZE && address' < BANK_SIZE
    ensures var stored := IdealRun(i, rom, lastBank, [SetRamBank(bank), StoreByte(address, value)]).0;
            && stored.ram[0x1_0000 * (bank % 2) + address] == value
            && IdealRun(stored, rom, lastBank, [SetRamBank(bank'), LoadByte(address')]).1 ==
               if bank % 2 == bank' % 2 && address == address' then [[], [value]]
               else IdealRun(i, rom, lastBank, [SetRamBank(bank'), LoadByte(address')]).1
  {
    hide RomAt;
    RunTwo(i, rom, lastBank, SetRamBank(bank), StoreByte(address, value));
    var stored := IdealRun(i, rom, lastBank, [SetRamBank(bank), StoreByte(address, value)]).0;
    RunTwo(stored, rom, lastBank, SetRamBank(bank'), LoadByte(address'));
    RunTwo(i, rom, lastBank, SetRamBank(bank'), LoadByte(address'));
  }

  lemma RunTwo(i: Ideal, rom: nat -> bv8, lastBank: nat, a: Op, b: Op)
    requires IdealShape(i) && InRange(a) && InRange(b)
    ensures var j := IdealNext(i, rom, lastBank, a);
            IdealRun(i, rom, lastBank, [a, b]) == (IdealNext(j, rom, lastBank, b), [IdealResult(i, a), IdealResult(j, b)])
  {
    hide IdealNext, IdealResult;
    assert [a, b][..1] == [a] && [a][..0] == [];
    var none: seq<seq<bv8>> := [];
    assert IdealRun(i, rom, lastBank, []) == (i, none);
    assert none + [IdealResult(i, a)] == [IdealResult(i, a)];
    assert [a][0] == a && [a, b][1] == b;
    assert IdealRun(i, rom, lastBank, [a]) == (IdealNext(i, rom, lastBank, a), [IdealResult(i, a)]);
    var j := IdealNext(i, rom, lastBank, a);
    assert [IdealResult(i, a)] + [IdealResult(j, b)] == [IdealResult(i, a), IdealResult(j, b)];
  }

  // Setting R14 fetches the byte it addresses in the ROM bank of the moment, and GETB reads it.
  lemma FetchReads(i: Ideal, rom: nat -> bv8, lastBank: nat, bank: nat, pointer: nat)
    requires IdealShape(i) && pointer < BANK_SIZE
    ensures var fetched := IdealRun(i, rom, lastBank, [SetRomBank(bank), SetR14(pointer)]).0;
            IdealResult(fetched, GetByte) == [RomAt(rom, lastBank, bank % 128, pointer)]
  {
    RunTwo(i, rom, lastBank, SetRomBank(bank), SetR14(pointer));
    hide RomAt;
  }

  // A word stored is the word loaded, whichever of its two bytes the address names.
  lemma WordRoundTrip(i: Ideal, rom: nat -> bv8, lastBank: nat, address: nat, low: bv8, high: bv8)
    requires IdealShape(i) && address < BANK_SIZE
    ensures IdealResult(IdealNext(i, rom, lastBank, StoreWord(address, low, high)), LoadWord(address)) == [low, high]
    ensures IdealResult(IdealNext(i, rom, lastBank, StoreWord(address, low, high)), LoadWord(Other(address))) == [high, low]
  {}
}
