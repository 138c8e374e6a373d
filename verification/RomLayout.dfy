/** The SNES address maps (src/storage/snes_rom_layout.cpp): which canonical source
  * byte each physical bus address shows. */
module RomLayout {
  import opened Arithmetic
  import opened Bytes

  const KIB: nat := 0x400
  const MIB: nat := 0x10_0000
  const PAGE: nat := 0x1000
  const BUS: nat := 0x100_0000

  datatype RomMap = LoRom | HiRom | ExLoRom | ExHiRom | Fx3Physical | Fx3

  datatype RomInfo = RomInfo(mapping: RomMap, size: nat, dataOffset: nat, ramSize: nat, cartridgeType: byte)

  // The largest of m, 2m, 4m, ... that does not exceed n.
  function HighBitFrom(m: nat, n: nat): (r: nat)
    requires 0 < m <= n
    ensures m <= r <= n < 2 * r
    decreases n - m
  {
    if n < 2 * m then m else HighBitFrom(2 * m, n)
  }

  // The highest set bit of n, as a mask.
  function HighBit(n: nat): (r: nat)
    requires 0 < n
    ensures 0 < r <= n < 2 * r
  {
    HighBitFrom(1, n)
  }

  // The mirroring rule: a ROM that is not a power of two repeats its tail.
  function MirrorOffset(size: nat, offset: nat): (r: nat)
    requires 0 < size
    ensures r < size && r <= offset
    decreases offset
  {
    if offset < size then offset
    else
      var mask := HighBit(offset);
      if size <= mask then MirrorOffset(size, offset - mask)
      else mask + MirrorOffset(size - mask, offset - mask)
  }

  // The search for the highest bit may start from any power of two within n.
  lemma {:induction false} HighBitStart(k: nat, n: nat)
    requires Pow2(k) <= n
    ensures HighBit(n) == HighBitFrom(Pow2(k), n)
  {
    if k > 0 {
      HighBitStart(k - 1, n);
    }
  }

  // (offset & mask) != 0 for a mask of one bit.
  predicate BitSet(offset: nat, mask: nat)
    requires 0 < mask
  {
    offset / mask % 2 == 1
  }

  lemma QuotientBelowTwo(offset: nat, mask: nat)
    requires 0 < mask && offset < 2 * mask
    ensures BitSet(offset, mask) <==> mask <= offset
  {
    var q := offset / mask;
    assert q * mask <= offset < q * mask + mask;
    assert q < 2 by {
      if q >= 2 {
        MulMono(2, q, mask);
        assert false;
      }
    }
    assert q * mask == if q == 1 then mask else 0;
  }

  lemma Pow2Of31()
    ensures Pow2(31) == 0x8000_0000
  {
    assert Pow2(10) == 0x400;
    assert Pow2(20) == 0x10_0000;
    assert Pow2(30) == 0x4000_0000;
  }

  // The firmware searches downward from bit 31 for the highest set bit.
  method MirrorByShift(size: nat, offset: nat) returns (r: nat)
    requires 0 < size && offset < 0x1_0000_0000
    ensures r == MirrorOffset(size, offset)
    decreases offset
  {
    if offset < size {
      return offset;
    }
    var mask := 0x8000_0000;
    ghost var k: nat := 31;
    Pow2Of31();
    while !BitSet(offset, mask)
      invariant mask == Pow2(k) && 0 < offset < 2 * mask
      decreases k
    {
      QuotientBelowTwo(offset, mask);
      assert 0 < k;
      mask := mask / 2;
      k := k - 1;
    }
    QuotientBelowTwo(offset, mask);
    HighBitStart(k, offset);
    if size <= mask {
      r := MirrorByShift(size, offset - mask);
    } else {
      var tail := MirrorByShift(size - mask, offset - mask);
      r := mask + tail;
    }
  }

  lemma MulDouble(j: nat, q: nat)
    ensures (2 * j) * q == 2 * (j * q)
  {}

  lemma {:induction false} HighBitFromScale(m: nat, n: nat, p: nat, x: nat)
    requires 0 < m <= n && x < p
    ensures 0 < m * p <= x + n * p && HighBitFrom(m * p, x + n * p) == HighBitFrom(m, n) * p
    decreases n - m
  {
    MulLess(m, n, p, x);
    MulLess(2 * m, n, p, x);
    MulDouble(m, p);
    MulMono(1, m, p);
    if 2 * m <= n {
      HighBitFromScale(2 * m, n, p, x);
    }
  }

  // The highest bit of x + j*p is decided by j alone when x < p and p is a power of two.
  lemma HighBitScale(k: nat, x: nat, j: nat)
    requires x < Pow2(k) && 0 < j
    ensures Pow2(k) <= x + j * Pow2(k)
    ensures HighBit(x + j * Pow2(k)) == HighBit(j) * Pow2(k)
  {
    var p := Pow2(k);
    MulMono(1, j, p);
    HighBitStart(k, x + j * p);
    HighBitFromScale(1, j, p, x);
  }

  lemma MulMinus(j: nat, i: nat, p: nat)
    requires i <= j
    ensures (j - i) * p == j * p - i * p
  {}

  // An image no longer than a power of two p repeats every p bytes.
  lemma {:induction false} MirrorPeriod(size: nat, k: nat, x: nat, j: nat)
    requires 0 < size <= Pow2(k) && x < Pow2(k)
    ensures MirrorOffset(size, x + j * Pow2(k)) == MirrorOffset(size, x)
    decreases j
  {
    var p := Pow2(k);
    if j > 0 {
      var i := HighBit(j);
      HighBitScale(k, x, j);
      MulMono(1, i, p);
      MulMinus(j, i, p);
      MirrorPeriod(size, k, x, j - i);
    } else {
      assert j * p == 0;
    }
  }

  lemma HighBitPage(j: nat, x: nat)
    requires 0 < j && x < 0x1000
    ensures HighBit(j * 0x1000 + x) == HighBit(j) * 0x1000
  {
    assert Pow2(12) == 0x1000;
    HighBitScale(12, x, j);
  }

  // Mirroring moves whole pages: on an image of n pages it acts on page numbers.
  lemma {:induction false} MirrorPages(n: nat, j: nat, x: nat)
    requires 0 < n && x < 0x1000
    ensures MirrorOffset(n * 0x1000, j * 0x1000 + x) == MirrorOffset(n, j) * 0x1000 + x
    decreases j
  {
    hide HighBit;
    if n <= j {
      HighBitPage(j, x);
      var i := HighBit(j);
      if n <= i {
        MirrorPages(n, j - i, x);
      } else {
        MirrorPages(n - i, j - i, x);
      }
    }
  }

  lemma MirrorWithinPage(size: nat, offset: nat, i: nat)
    requires 0 < size && size % PAGE == 0 && offset % PAGE == 0 && i < PAGE
    ensures MirrorOffset(size, offset + i) == MirrorOffset(size, offset) + i
    ensures MirrorOffset(size, offset) % PAGE == 0 && MirrorOffset(size, offset) + PAGE <= size
  {
    hide MirrorOffset;
    MirrorPages(size / PAGE, offset / PAGE, i);
    MirrorPages(size / PAGE, offset / PAGE, 0);
  }

  // The linear source offset behind a bus address, before mirroring.
  function Linear(mapping: RomMap, bank: nat, address: nat): (r: nat)
    requires bank < 0x100 && address < 0x1_0000
  {
    match mapping
    case LoRom => bank % 0x80 * 0x8000 + address % 0x8000
    case HiRom => bank % 0x40 * 0x1_0000 + address
    case ExLoRom => (if bank < 0x80 then bank + 0x80 else bank - 0x80) * 0x8000 + address % 0x8000
    case Fx3 =>
      var mirrored := bank % 0x80;
      if mirrored < 0x40 then mirrored * 0x8000 + address % 0x8000
      else (mirrored - 0x40) * 0x1_0000 + address
    case _ => bank % 0x40 * 0x1_0000 + address + if bank < 0x80 then 4 * MIB else 0
  }

  // WRAM banks never show ROM; system banks show it only in their upper half.
  predicate Mapped(mapping: RomMap, bank: nat, address: nat) {
    && bank != 0x7E && bank != 0x7F
    && (mapping == Fx3 || !((bank <= 0x3F || 0x80 <= bank <= 0xBF) && address < 0x8000))
  }

  function SourceOffset(info: RomInfo, busAddress: nat): (r: Option<nat>)
    ensures r.Some? ==> r.value < info.size
  {
    if busAddress >= BUS || info.size == 0 then None
    else
      var bank, address := busAddress / 0x1_0000, busAddress % 0x1_0000;
      if !Mapped(info.mapping, bank, address) then None
      else Some(MirrorOffset(info.size, Linear(info.mapping, bank, address)))
  }

  // Where the maps of the SNES lie, address by address: 4 MiB of LoRom, HiRom and FX3, and 8 MiB of the
  // extended maps.
  lemma MapVectors(info: RomInfo)
    ensures info.mapping == LoRom && info.size == 0x40_0000 ==>
              && SourceOffset(info, 0x00_8000) == Some(0) && SourceOffset(info, 0x01_8000) == Some(0x8000)
              && SourceOffset(info, 0x40_0000) == Some(0x20_0000) && SourceOffset(info, 0x80_8000) == Some(0)
              && SourceOffset(info, 0x00_7FFF) == None && SourceOffset(info, 0x7E_8000) == None
    ensures info.mapping == HiRom && info.size == 0x40_0000 ==>
              && SourceOffset(info, 0xC0_0000) == Some(0) && SourceOffset(info, 0x40_0000) == Some(0)
              && SourceOffset(info, 0x00_8000) == Some(0x8000) && SourceOffset(info, 0xFF_FFFF) == Some(0x3F_FFFF)
              && SourceOffset(info, 0x7E_8000) == None && SourceOffset(info, 0x80_7FFF) == None
    ensures info.mapping == ExLoRom && info.size == 0x80_0000 ==>
              && SourceOffset(info, 0x80_8000) == Some(0) && SourceOffset(info, 0xC0_0000) == Some(0x20_0000)
              && SourceOffset(info, 0x00_8000) == Some(0x40_0000) && SourceOffset(info, 0x40_0000) == Some(0x60_0000)
    ensures info.mapping == ExHiRom && info.size == 0x80_0000 ==>
              && SourceOffset(info, 0xC0_0000) == Some(0) && SourceOffset(info, 0x00_8000) == Some(0x40_8000)
              && SourceOffset(info, 0x40_0000) == Some(0x40_0000) && SourceOffset(info, 0xFF_FFFF) == Some(0x3F_FFFF)
    ensures info.mapping == Fx3 && info.size == 0x40_0000 ==>
              && SourceOffset(info, 0x00_0000) == Some(0) && SourceOffset(info, 0x00_8000) == Some(0)
              && SourceOffset(info, 0x01_0000) == Some(0x8000) && SourceOffset(info, 0x40_1234) == Some(0x1234)
              && SourceOffset(info, 0xFF_FFFF) == Some(0x3F_FFFF) && SourceOffset(info, 0x7F_0000) == None
  {
    hide HighBit;
  }

  // Within a page of a bank each map counts up from a page of the source.
  ghost predicate PageMoves(mapping: RomMap, bank: nat, page: nat, i: nat)
    requires bank < 0x100 && page + i < 0x1_0000
  {
    Linear(mapping, bank, page) % PAGE == 0 && Linear(mapping, bank, page + i) == Linear(mapping, bank, page) + i
  }

  lemma WholePages(k: nat, r: nat)
    requires r % PAGE == 0
    ensures (k * 0x8000 + r) % PAGE == 0 && (k * 0x1_0000 + r) % PAGE == 0
  {}

  lemma LoRomPage(bank: nat, q: nat, i: nat)
    requires bank < 0x100 && q < 0x10 && i < PAGE
    ensures PageMoves(LoRom, bank, q * PAGE, i) && PageMoves(ExLoRom, bank, q * PAGE, i)
  {
    HalfBank(q, i);
    HalfBank(q, 0);
    WholePages(bank % 0x80, q * PAGE % 0x8000);
    WholePages(if bank < 0x80 then bank + 0x80 else bank - 0x80, q * PAGE % 0x8000);
  }

  lemma HiRomPage(bank: nat, q: nat, i: nat)
    requires bank < 0x100 && q < 0x10 && i < PAGE
    ensures PageMoves(HiRom, bank, q * PAGE, i) && PageMoves(ExHiRom, bank, q * PAGE, i) && PageMoves(Fx3Physical, bank, q * PAGE, i)
  {
    WholePages(bank % 0x40, q * PAGE);
  }

  lemma Fx3Page(bank: nat, q: nat, i: nat)
    requires bank < 0x100 && q < 0x10 && i < PAGE
    ensures PageMoves(Fx3, bank, q * PAGE, i)
  {
    if bank % 0x80 < 0x40 {
      HalfBank(q, i);
      HalfBank(q, 0);
      WholePages(bank % 0x80, q * PAGE % 0x8000);
    } else {
      WholePages(bank % 0x80 - 0x40, q * PAGE);
    }
  }

  lemma MappedPage(mapping: RomMap, bank: nat, q: nat, i: nat)
    requires bank < 0x100 && q < 0x10 && i < PAGE
    ensures Mapped(mapping, bank, q * PAGE + i) == Mapped(mapping, bank, q * PAGE)
  {
    HalfBank(q, i);
    HalfBank(q, 0);
  }

  lemma LinearPage(mapping: RomMap, bank: nat, q: nat, i: nat)
    requires bank < 0x100 && q < 0x10 && i < PAGE
    ensures PageMoves(mapping, bank, q * PAGE, i)
  {
    hide PageMoves;
    LoRomPage(bank, q, i);
    HiRomPage(bank, q, i);
    Fx3Page(bank, q, i);
  }

  // A page lies in one half of a bank.
  lemma HalfBank(q: nat, i: nat)
    requires q < 0x10 && i < PAGE
    ensures var r := (if q < 8 then q else q - 8) * PAGE;
            (q * PAGE + i) % 0x8000 == r + i && r % PAGE == 0 && (q * PAGE + i < 0x8000 <==> q < 8)
  {
    if q < 8 {
      DivModUnique(0x8000, 0, q * PAGE + i);
    } else {
      DivModUnique(0x8000, 1, (q - 8) * PAGE + i);
    }
  }

  // The source offset by bank and address.
  lemma SourceInBank(info: RomInfo, bank: nat, address: nat, x: nat)
    requires bank < 0x100 && address < 0x1_0000 && 0 < info.size && x == bank * 0x1_0000 + address
    ensures SourceOffset(info, x) ==
            if Mapped(info.mapping, bank, address) then Some(MirrorOffset(info.size, Linear(info.mapping, bank, address))) else None
  {
    hide MirrorOffset, Linear, Mapped;
    DivModUnique(0x1_0000, bank, address);
  }

  lemma PageInBank(info: RomInfo, bank: nat, q: nat, i: nat, page: nat)
    requires info.size % PAGE == 0 && 0 < info.size && bank < 0x100 && q < 0x10 && i < PAGE && page == bank * 0x1_0000 + q * PAGE
    ensures SourceMoves(info, page, i)
  {
    hide MirrorOffset, SourceOffset, Linear, Mapped;
    SourceInBank(info, bank, q * PAGE, page);
    SourceInBank(info, bank, q * PAGE + i, page + i);
    LinearPage(info.mapping, bank, q, i);
    MappedPage(info.mapping, bank, q, i);
    MirrorWithinPage(info.size, Linear(info.mapping, bank, q * PAGE), i);
  }

  ghost predicate SourceMoves(info: RomInfo, page: nat, i: nat) {
    var s := SourceOffset(info, page);
    && SourceOffset(info, page + i).Some? == s.Some?
    && (s.Some? ==> s.value % PAGE == 0 && s.value + PAGE <= info.size && SourceOffset(info, page + i) == Some(s.value + i))
  }

  lemma PageSplit(page: nat) returns (bank: nat, q: nat)
    requires page % PAGE == 0 && page < BUS
    ensures bank < 0x100 && q < 0x10 && page == bank * 0x1_0000 + q * PAGE
  {
    bank, q := page / 0x1_0000, page / PAGE % 0x10;
  }

  // Within one page of bus addresses the source offset just counts up.
  lemma SourcePage(info: RomInfo, page: nat, i: nat)
    requires info.size % PAGE == 0 && page % PAGE == 0 && i < PAGE
    ensures SourceOffset(info, page + i).Some? == SourceOffset(info, page).Some?
    ensures SourceOffset(info, page).Some? ==>
      var s := SourceOffset(info, page).value;
      s % PAGE == 0 && s + PAGE <= info.size && SourceOffset(info, page + i) == Some(s + i)
  {
    hide SourceOffset;
    if page < BUS && 0 < info.size {
      var bank, q := PageSplit(page);
      PageInBank(info, bank, q, i, page);
    } else {
      NoSource(info, page);
      NoSource(info, page + i);
    }
  }

  lemma NoSource(info: RomInfo, x: nat)
    requires BUS <= x || info.size == 0
    ensures SourceOffset(info, x).None?
  {}
}
