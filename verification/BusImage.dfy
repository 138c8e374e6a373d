/** What a mapped cartridge image is: the byte each physical NOR address has to hold, for which ROMs
  * that is well defined, and in which order the sectors may be rewritten in place. */
module BusImage {
  import opened Arithmetic
  import opened Bytes
  import opened RomLayout
  import opened ParallelRom

  function Bank(x: nat): nat {
    x / 0x1_0000
  }

  function Low(x: nat): (r: nat)
    ensures r < 0x1_0000
  {
    x % 0x1_0000
  }

  lemma BankLow(b: nat, low: nat)
    requires low < 0x1_0000
    ensures Bank(b * 0x1_0000 + low) == b && Low(b * 0x1_0000 + low) == low
  {}

  function BankCount(c: nat): nat
    requires IsCapacity(c)
  {
    if c == 0x10_0000 then 0x10
    else if c == 0x20_0000 then 0x20
    else if c == 0x40_0000 then 0x40
    else if c == 0x80_0000 then 0x80
    else 0x100
  }

  function PhysicalBank(c: nat, bank: nat): (r: nat)
    requires IsCapacity(c)
    ensures r < BankCount(c) && r <= bank && (bank < BankCount(c) ==> r == bank)
  {
    bank % BankCount(c)
  }

  // The NOR address behind a bus address: the device ignores the bits above its capacity.
  function Physical(c: nat, x: nat): (a: nat)
    requires IsCapacity(c)
    ensures a < c && a <= x && (x < c ==> a == x)
  {
    PhysicalBank(c, Bank(x)) * 0x1_0000 + Low(x)
  }

  lemma PhysicalBankStep(c: nat, bank: nat)
    requires IsCapacity(c)
    ensures PhysicalBank(c, bank + BankCount(c)) == PhysicalBank(c, bank)
  {
    var n := BankCount(c);
    var q, r := bank / n, bank % n;
    assert bank == q * n + r && bank + n == (q + 1) * n + r;
    DivModUnique(n, q + 1, r);
  }

  lemma PhysicalStep(c: nat, x: nat)
    requires IsCapacity(c)
    ensures Physical(c, x + c) == Physical(c, x)
  {
    hide PhysicalBank;
    PhysicalBankStep(c, Bank(x));
    assert c == BankCount(c) * 0x1_0000;
    BankLow(Bank(x) + BankCount(c), Low(x));
    assert x + c == (Bank(x) + BankCount(c)) * 0x1_0000 + Low(x);
  }

  // A page of bus addresses is a page of NOR addresses.
  lemma PhysicalPage(c: nat, x: nat, i: nat)
    requires IsCapacity(c) && x % PAGE == 0 && i < PAGE
    ensures Physical(c, x) % PAGE == 0 && Physical(c, x + i) == Physical(c, x) + i
  {
    BankLow(Bank(x), Low(x) + i);
  }

  // The byte shown by the first mapped alias at or above a bus address.
  function AliasByte(info: RomInfo, c: nat, src: seq<byte>, alias: nat): byte
    requires IsCapacity(c) && |src| == info.size
    decreases BUS - alias
  {
    if alias >= BUS then ERASED
    else match SourceOffset(info, alias)
      case Some(s) => src[s]
      case None => AliasByte(info, c, src, alias + c)
  }

  // What NOR address a of an installed image holds.
  function ImageByte(info: RomInfo, c: nat, src: seq<byte>, a: nat): byte
    requires IsCapacity(c) && |src| == info.size
  {
    AliasByte(info, c, src, a)
  }

  // No two bus addresses that share a NOR address want different bytes there.
  ghost predicate Consistent(info: RomInfo, c: nat, src: seq<byte>)
    requires IsCapacity(c) && |src| == info.size
  {
    forall x: nat :: x < BUS && SourceOffset(info, x).Some? ==>
      src[SourceOffset(info, x).value] == ImageByte(info, c, src, Physical(c, x))
  }

  function LinearAt(mapping: RomMap, x: nat): nat
    requires x < BUS
  {
    Linear(mapping, Bank(x), Low(x))
  }

  // The maps and sizes that install whatever the bytes are.
  predicate Installable(info: RomInfo, c: nat) {
    && IsCapacity(c) && 0 < info.size && info.size % 0x8000 == 0
    && match info.mapping
       case LoRom => info.size <= c / 2
       case HiRom => info.size <= 0x40_0000 && info.size <= c
       case ExLoRom => 0x40_0000 < info.size <= 0x80_0000 && c == 0x100_0000
       case ExHiRom => 0x40_0000 < info.size <= 0x80_0000 && c == 0x100_0000
       case Fx3 => info.size <= 0x40_0000 && 0x80_0000 <= c
       case Fx3Physical => false
  }

  lemma Reduced(x: nat, m: nat, k: nat)
    requires k * m <= x < k * m + m
    ensures x % m == x - k * m
  {
    DivModUnique(m, k, x - k * m);
  }

  // Bank b of a device with n banks is j times n banks above bank r, within the banks of the map.
  lemma BankGap(n: nat, b: nat, q: nat, r: nat, m: nat) returns (j: nat)
    requires (m == 0x80 && (n == 0x10 || n == 0x20 || n == 0x40)) || (m == 0x40 && (n == 0x10 || n == 0x20))
    requires b == q * n + r < 0x100 && r < n
    ensures b % m == r + j * n && r % m == r
  {
    var k := if b < m then 0 else if b < 2 * m then 1 else if b < 3 * m then 2 else 3;
    Reduced(b, m, k);
    Reduced(r, m, 0);
    if n == 0x10 {
      j := q - k * (m / 0x10);
    } else if n == 0x20 {
      j := q - k * (m / 0x20);
    } else {
      j := q - k * (m / 0x40);
    }
  }

  lemma Spans(r: nat, j: nat, n: nat, size: nat, period: nat)
    requires period == n * size
    ensures (r + j * n) * size == r * size + j * period
  {
    assert (j * n) * size == j * (n * size);
  }

  // Aliases of one NOR address differ by whole periods of the map: LoRom halves the distance
  // between banks, HiRom keeps it.
  lemma LoRomAlias(n: nat, b: nat, q: nat, r: nat, low: nat, period: nat)
    requires (n == 0x10 || n == 0x20 || n == 0x40) && b == q * n + r < 0x100 && r < n && low < 0x1_0000 && period == n * 0x8000
    ensures Linear(LoRom, r, low) < period
    ensures exists j: nat :: Linear(LoRom, b, low) == Linear(LoRom, r, low) + j * period
  {
    var j := BankGap(n, b, q, r, 0x80);
    Spans(r, j, n, 0x8000, period);
    assert Linear(LoRom, b, low) == Linear(LoRom, r, low) + j * period;
  }

  lemma HiRomAlias(n: nat, b: nat, q: nat, r: nat, low: nat, period: nat)
    requires (n == 0x10 || n == 0x20) && b == q * n + r < 0x100 && r < n && low < 0x1_0000 && period == n * 0x1_0000
    ensures Linear(HiRom, r, low) < period
    ensures exists j: nat :: Linear(HiRom, b, low) == Linear(HiRom, r, low) + j * period
  {
    var j := BankGap(n, b, q, r, 0x40);
    Spans(r, j, n, 0x1_0000, period);
    assert Linear(HiRom, b, low) == Linear(HiRom, r, low) + j * period;
  }

  lemma Repeats(size: nat, period: nat, l: nat, m: nat)
    requires (period == 0x8_0000 || period == 0x10_0000 || period == 0x20_0000) && 0 < size <= period && l < period
    requires exists j: nat :: m == l + j * period
    ensures MirrorOffset(size, m) == MirrorOffset(size, l)
  {
    hide MirrorOffset;
    assert Pow2(10) == 0x400;
    assert Pow2(19) == 0x8_0000;
    var j: nat :| m == l + j * period;
    MirrorPeriod(size, if period == 0x8_0000 then 19 else if period == 0x10_0000 then 20 else 21, l, j);
  }

  lemma BankSplit(c: nat, b: nat) returns (q: nat)
    requires IsCapacity(c)
    ensures b == q * BankCount(c) + PhysicalBank(c, b)
  {
    q := b / BankCount(c);
  }

  lemma BankRemainder(n: nat, b: nat, r: nat, m: nat)
    requires ((n == 0x80 && m == 0x80) || (n == 0x80 && m == 0x40) || (n == 0x40 && m == 0x40)) && b < 0x100 && r == b % n
    ensures r % m == b % m
  {
    var k := if r < m then 0 else 1;
    Reduced(r, m, k);
    var w := if b < m then 0 else if b < 2 * m then 1 else if b < 3 * m then 2 else 3;
    Reduced(b, m, w);
    Reduced(b, n, if b < n then 0 else if b < 2 * n then 1 else if b < 3 * n then 2 else 3);
  }

  lemma LinearBank(mapping: RomMap, b: nat, r: nat, low: nat)
    requires b < 0x100 && r < 0x100 && low < 0x1_0000
    requires mapping == LoRom || mapping == HiRom || mapping == Fx3
    requires r % (if mapping == HiRom then 0x40 else 0x80) == b % (if mapping == HiRom then 0x40 else 0x80)
    ensures Linear(mapping, r, low) == Linear(mapping, b, low)
  {}

  // From 128 banks on LoRom banks repeat as the map does, and so do HiRom banks from 64 on.
  lemma WideBank(mapping: RomMap, c: nat, b: nat, low: nat)
    requires IsCapacity(c) && b < 0x100 && low < 0x1_0000
    requires (mapping == LoRom && 0x80_0000 <= c) || (mapping == HiRom && 0x40_0000 <= c) || (mapping == Fx3 && 0x80_0000 <= c)
    ensures Linear(mapping, PhysicalBank(c, b), low) == Linear(mapping, b, low)
  {
    hide Linear;
    if c < 0x100_0000 {
      BankRemainder(BankCount(c), b, PhysicalBank(c, b), if mapping == HiRom then 0x40 else 0x80);
      LinearBank(mapping, b, PhysicalBank(c, b), low);
    }
  }

  lemma LoRomSame(size: nat, c: nat, b: nat, low: nat)
    requires IsCapacity(c) && 0 < size <= c / 2 && b < 0x100 && low < 0x1_0000
    ensures MirrorOffset(size, Linear(LoRom, b, low)) == MirrorOffset(size, Linear(LoRom, PhysicalBank(c, b), low))
  {
    hide MirrorOffset, Linear, PhysicalBank;
    if c < 0x80_0000 {
      var r := PhysicalBank(c, b);
      var q := BankSplit(c, b);
      LoRomAlias(BankCount(c), b, q, r, low, c / 2);
      Repeats(size, c / 2, Linear(LoRom, r, low), Linear(LoRom, b, low));
    } else {
      WideBank(LoRom, c, b, low);
    }
  }

  lemma HiRomSame(size: nat, c: nat, b: nat, low: nat)
    requires IsCapacity(c) && 0 < size <= c && b < 0x100 && low < 0x1_0000
    ensures MirrorOffset(size, Linear(HiRom, b, low)) == MirrorOffset(size, Linear(HiRom, PhysicalBank(c, b), low))
  {
    hide MirrorOffset, Linear, PhysicalBank;
    if c < 0x40_0000 {
      var r := PhysicalBank(c, b);
      var q := BankSplit(c, b);
      HiRomAlias(BankCount(c), b, q, r, low, c);
      Repeats(size, c, Linear(HiRom, r, low), Linear(HiRom, b, low));
    } else {
      WideBank(HiRom, c, b, low);
    }
  }

  lemma PhysicalLinear(mapping: RomMap, c: nat, x: nat)
    requires IsCapacity(c) && x < BUS
    ensures LinearAt(mapping, Physical(c, x)) == Linear(mapping, PhysicalBank(c, Bank(x)), Low(x))
  {
    hide Linear, PhysicalBank;
    BankLow(PhysicalBank(c, Bank(x)), Low(x));
  }

  // On a device that holds the ROM, all aliases of a NOR address show the same source byte.
  lemma AliasSame(info: RomInfo, c: nat, x: nat)
    requires Installable(info, c) && x < BUS
    ensures MirrorOffset(info.size, LinearAt(info.mapping, x)) ==
            MirrorOffset(info.size, LinearAt(info.mapping, Physical(c, x)))
  {
    hide MirrorOffset, Linear;
    if c < 0x100_0000 {
      PhysicalLinear(info.mapping, c, x);
      match info.mapping {
        case LoRom => LoRomSame(info.size, c, Bank(x), Low(x));
        case HiRom => HiRomSame(info.size, c, Bank(x), Low(x));
        case _ => WideBank(Fx3, c, Bank(x), Low(x));
      }
    }
  }

  lemma SourceIs(info: RomInfo, x: nat)
    requires x < BUS && SourceOffset(info, x).Some?
    ensures SourceOffset(info, x).value == MirrorOffset(info.size, LinearAt(info.mapping, x))
  {
    hide MirrorOffset, Linear, Mapped;
  }

  // Two bus addresses with the same NOR address are whole capacities apart.
  lemma AliasGap(c: nat, x: nat, y: nat)
    requires IsCapacity(c) && Physical(c, x) == Physical(c, y) && x < y
    ensures x + c <= y
  {
    var n := BankCount(c);
    var p, q, r := Bank(x) / n, Bank(y) / n, PhysicalBank(c, Bank(x));
    assert Low(x) == Low(y) && r == PhysicalBank(c, Bank(y));
    assert Bank(x) == p * n + r && Bank(y) == q * n + r;
    assert c == n * 0x1_0000;
    MulLess(p, q, n, 0);
    MulLess(p + 1, q, n, 0);
    assert (p + 1) * n == p * n + n;
  }

  lemma {:induction false} AliasByteIs(info: RomInfo, c: nat, src: seq<byte>, alias: nat, x: nat)
    requires Installable(info, c) && |src| == info.size && alias <= x < BUS
    requires Physical(c, alias) == Physical(c, x) && SourceOffset(info, x).Some?
    ensures AliasByte(info, c, src, alias) == src[SourceOffset(info, x).value]
    decreases x - alias
  {
    hide MirrorOffset, SourceOffset, LinearAt, Physical;
    AliasSame(info, c, x);
    AliasSame(info, c, alias);
    SourceIs(info, x);
    if SourceOffset(info, alias).Some? {
      SourceIs(info, alias);
    } else {
      AliasGap(c, alias, x);
      PhysicalStep(c, alias);
      AliasByteIs(info, c, src, alias + c, x);
    }
  }

  // Every ROM the device can hold has a consistent image.
  lemma InstallableConsistent(info: RomInfo, c: nat, src: seq<byte>)
    requires Installable(info, c) && |src| == info.size
    ensures Consistent(info, c, src)
  {
    forall x: nat | x < BUS && SourceOffset(info, x).Some?
      ensures src[SourceOffset(info, x).value] == ImageByte(info, c, src, Physical(c, x))
    {
      var a := Physical(c, x);
      assert a <= x;
      assert Physical(c, a) == a;
      AliasByteIs(info, c, src, a, x);
    }
  }
}
