/** Why the installer may rewrite the flash its own source lies in: for each map, the order in which
  * src/storage/snes_rom_installer.cpp:468-494 sweeps the sectors never destroys a source page that is
  * still needed and has not already been emitted somewhere. */
module SweepOrder {
  import opened Arithmetic
  import opened Bytes
  import opened RomLayout
  import opened ParallelRom
  import opened BusImage

  // Bus page x shows the given source page, and its NOR page lies in a finished sector.
  ghost predicate Homed(info: RomInfo, c: nat, final: set<nat>, page: nat, x: nat)
    requires IsCapacity(c)
  {
    && x < BUS && x % PAGE == 0 && SectorOf(Physical(c, x)) in final
    && SourceOffset(info, x) == Some(page * PAGE)
  }

  ghost predicate Emitted(info: RomInfo, c: nat, final: set<nat>, page: nat)
    requires IsCapacity(c)
  {
    exists x: nat :: Homed(info, c, final, page, x)
  }

  // Source byte s can still be read: it is beyond the flash, or not overwritten, or emitted.
  ghost predicate Available(info: RomInfo, c: nat, final: set<nat>, s: nat)
    requires IsCapacity(c)
  {
    c <= info.dataOffset + s || SectorOf(info.dataOffset + s) !in final || Emitted(info, c, final, s / PAGE)
  }

  // Everything that sector t shows, under any of its bus addresses, can still be read.
  ghost predicate SectorSafe(info: RomInfo, c: nat, final: set<nat>, t: nat)
    requires IsCapacity(c)
  {
    forall x: nat :: x < BUS && SectorOf(Physical(c, x)) == t && SourceOffset(info, x).Some? ==>
      Available(info, c, final, SourceOffset(info, x).value)
  }

  predicate NotBefore(t: nat, begin: nat) {
    begin / SECTOR <= t
  }

  // The sectors of an address range.
  ghost function Span(begin: nat, end: nat): set<nat> {
    set t: nat | t < end / SECTOR && NotBefore(t, begin)
  }

  // The sectors finished when the sweep of a range arrives at sector t.
  ghost function Done(final: set<nat>, begin: nat, end: nat, descending: bool, t: nat): set<nat> {
    final + if descending then Span((t + 1) * SECTOR, end) else Span(begin, t * SECTOR)
  }

  // Sweeping a range keeps every sector readable until its turn comes.
  ghost predicate RangeSafe(info: RomInfo, c: nat, final: set<nat>, begin: nat, end: nat, descending: bool)
    requires IsCapacity(c)
  {
    forall t: nat :: begin / SECTOR <= t < end / SECTOR ==> SectorSafe(info, c, Done(final, begin, end, descending, t), t)
  }

  // Nothing of the source has been overwritten yet.
  lemma Untouched(info: RomInfo, c: nat, final: set<nat>, begin: nat, end: nat, limit: nat)
    requires IsCapacity(c) && info.dataOffset + info.size <= limit && limit % SECTOR == 0 && begin % SECTOR == 0
    requires (limit <= begin || end <= info.dataOffset) && info.dataOffset % SECTOR == 0
    requires forall t :: t in final ==> limit <= t * SECTOR || (t + 1) * SECTOR <= info.dataOffset
    ensures RangeSafe(info, c, final, begin, end, false)
  {
    forall t: nat, x: nat | begin / SECTOR <= t < end / SECTOR && x < BUS && SourceOffset(info, x).Some?
      ensures SectorOf(info.dataOffset + SourceOffset(info, x).value) !in Done(final, begin, end, false, t)
    {
      var s := info.dataOffset + SourceOffset(info, x).value;
      var q := SectorOf(s);
      assert q * SECTOR <= s < limit && info.dataOffset < (q + 1) * SECTOR;
    }
  }

  lemma MirrorInside(size: nat, o: nat)
    requires o < size
    ensures MirrorOffset(size, o) == o
  {}

  // Where the linear window of banks $C0-$FF lies in the NOR.
  function WindowBase(c: nat): nat {
    if c == 0x80_0000 then 0x40_0000 else if c == 0x100_0000 then 0xC0_0000 else 0
  }

  lemma WindowPhysical(c: nat, o: nat)
    requires IsCapacity(c) && o < 0x40_0000 && o < c
    ensures Physical(c, 0xC0_0000 + o) == WindowBase(c) + o
  {
    var b := Bank(o);
    BankLow(0xC0 + b, Low(o));
    if c == 0x10_0000 {
      DivModUnique(0x10, 12, b);
    } else if c == 0x20_0000 {
      DivModUnique(0x20, 6, b);
    } else if c == 0x40_0000 {
      DivModUnique(0x40, 3, b);
    } else if c == 0x80_0000 {
      DivModUnique(0x80, 1, 0x40 + b);
    }
  }

  // The window shows every source page up to 4 MiB.
  lemma WindowSource(info: RomInfo, page: nat)
    requires info.mapping == HiRom || info.mapping == Fx3 || info.mapping == ExHiRom
    requires page * PAGE < info.size && page * PAGE < 0x40_0000
    ensures SourceOffset(info, 0xC0_0000 + page * PAGE) == Some(page * PAGE)
  {
    hide SourceOffset, MirrorOffset, Linear, Mapped;
    var o := page * PAGE;
    var b, low := Bank(o), Low(o);
    assert o == b * 0x1_0000 + low;
    WindowLinear(info.mapping, b, low);
    SourceInBank(info, 0xC0 + b, low, 0xC0_0000 + o);
    MirrorInside(info.size, o);
  }

  lemma WindowLinear(mapping: RomMap, b: nat, low: nat)
    requires (mapping == HiRom || mapping == Fx3 || mapping == ExHiRom) && b < 0x40 && low < 0x1_0000
    ensures Mapped(mapping, 0xC0 + b, low) && Linear(mapping, 0xC0 + b, low) == b * 0x1_0000 + low
  {
    DivModUnique(0x40, 3, b);
    DivModUnique(0x80, 1, 0x40 + b);
  }

  // A page lies within one sector.
  lemma PageSector(base: nat, s: nat)
    requires base % SECTOR == 0
    ensures SectorOf(base + s / PAGE * PAGE) == SectorOf(base + s)
  {
    var n, p := base / SECTOR, s / PAGE;
    var q, u := p / 32, p % 32;
    assert s == q * SECTOR + (u * PAGE + s % PAGE) && p * PAGE == q * SECTOR + u * PAGE;
    DivModUnique(SECTOR, n + q, u * PAGE + s % PAGE);
    DivModUnique(SECTOR, n + q, u * PAGE);
    assert (n + q) * SECTOR == base + q * SECTOR;
  }

  lemma WindowEmits(info: RomInfo, c: nat, final: set<nat>, s: nat)
    requires IsCapacity(c) && info.size <= 0x40_0000 && info.size <= c
    requires (info.mapping == HiRom || info.mapping == Fx3) && s < info.size
    requires SectorOf(WindowBase(c) + s) in final
    ensures Emitted(info, c, final, s / PAGE)
  {
    hide SourceOffset, Physical;
    var page := s / PAGE;
    WindowSource(info, page);
    WindowPhysical(c, page * PAGE);
    PageSector(WindowBase(c), s);
    assert Homed(info, c, final, page, 0xC0_0000 + page * PAGE);
  }

  lemma InWindow(c: nat, s: nat)
    requires IsCapacity(c) && 0x80_0000 <= c && s < 0x40_0000
    ensures SectorOf(WindowBase(c) + s) in Span(WindowBase(c), WindowBase(c) + 0x40_0000)
  {
    assert NotBefore(SectorOf(WindowBase(c) + s), WindowBase(c));
  }

  // Once the window has been written, no later sector can miss its source.
  lemma AfterWindow(info: RomInfo, c: nat, final: set<nat>, begin: nat, end: nat)
    requires Installable(info, c) && (info.mapping == HiRom || info.mapping == Fx3) && 0x80_0000 <= c
    requires Span(WindowBase(c), WindowBase(c) + 0x40_0000) <= final
    ensures RangeSafe(info, c, final, begin, end, false)
  {
    hide SourceOffset, Physical, Emitted, SectorOf, Span;
    forall t: nat, x: nat | x < BUS && SourceOffset(info, x).Some?
      ensures Available(info, c, Done(final, begin, end, false, t), SourceOffset(info, x).value)
    {
      var s := SourceOffset(info, x).value;
      InWindow(c, s);
      WindowEmits(info, c, Done(final, begin, end, false, t), s);
    }
  }

  // On chips up to 4 MiB the window is the chip itself: every page is emitted where it lies, in whatever
  // order the sectors are written.
  lemma InPlaceOrder(info: RomInfo, c: nat, final: set<nat>, begin: nat, end: nat)
    requires IsCapacity(c) && c <= 0x40_0000 && info.size <= c && info.dataOffset == 0
    requires info.mapping == HiRom || info.mapping == Fx3
    ensures RangeSafe(info, c, final, begin, end, false)
  {
    hide SourceOffset, Physical, Emitted, SectorOf, Done;
    forall t: nat, x: nat | x < BUS && SectorOf(Physical(c, x)) == t && SourceOffset(info, x).Some?
      ensures Available(info, c, Done(final, begin, end, false, t), SourceOffset(info, x).value)
    {
      var s := SourceOffset(info, x).value;
      if SectorOf(s) in Done(final, begin, end, false, t) {
        WindowEmits(info, c, Done(final, begin, end, false, t), s);
      }
    }
  }

  // Above a power of two within the image, only the rest of the image is mirrored.
  lemma TopMirror(k: nat, size: nat, z: nat)
    requires Pow2(k) < size && z < Pow2(k)
    ensures MirrorOffset(size, Pow2(k) + z) == Pow2(k) + MirrorOffset(size - Pow2(k), z)
  {
    var o := Pow2(k) + z;
    HighBitStart(k, o);
    if o < size {
      MirrorInside(size - Pow2(k), z);
    }
  }

  lemma UpperMirror(size: nat, z: nat)
    requires 0x40_0000 < size && z < 0x40_0000
    ensures MirrorOffset(size, 0x40_0000 + z) == 0x40_0000 + MirrorOffset(size - 0x40_0000, z)
  {
    assert Pow2(11) == 0x800;
    assert Pow2(22) == 0x40_0000;
    TopMirror(22, size, z);
  }

  // The lower banks of the extended maps all show the upper half of the image.
  lemma ExtendedLower(info: RomInfo, x: nat, z: nat)
    requires Installable(info, 0x100_0000) && (info.mapping == ExLoRom || info.mapping == ExHiRom)
    requires x < 0x80_0000 && SourceOffset(info, x).Some? && z < 0x40_0000
    requires LinearAt(info.mapping, x) == 0x40_0000 + z
    ensures 0x40_0000 <= SourceOffset(info, x).value <= 0x40_0000 + z
  {
    hide MirrorOffset;
    UpperMirror(info.size, z);
    assert SourceOffset(info, x).value == MirrorOffset(info.size, 0x40_0000 + z);
    assert MirrorOffset(info.size - 0x40_0000, z) <= z;
  }

  // A page of the upper half shown by ExLoRom, at its first bus address: about twice its offset.
  lemma ExLoRomHome(info: RomInfo, page: nat) returns (y: nat)
    requires info.mapping == ExLoRom && 0x40_0000 <= page * PAGE < info.size && page * PAGE < 0x40_0000 + 0x7E * 0x8000
    ensures y < page * PAGE && y % PAGE == 0 && SourceOffset(info, y) == Some(page * PAGE)
  {
    hide MirrorOffset, SourceOffset, Linear, Mapped;
    var b, r := HalfBanks(page * PAGE - 0x40_0000);
    y := b * 0x1_0000 + (0x8000 + r);
    SourceInBank(info, b, 0x8000 + r, y);
    ExLoRomLinear(b, r);
    MirrorInside(info.size, page * PAGE);
  }

  lemma HalfBanks(o: nat) returns (b: nat, r: nat)
    ensures o == b * 0x8000 + r && r < 0x8000 && (o % PAGE == 0 ==> (b * 0x1_0000 + (0x8000 + r)) % PAGE == 0)
  {
    b, r := o / 0x8000, o % 0x8000;
  }

  lemma ExLoRomLinear(b: nat, r: nat)
    requires b < 0x7E && r < 0x8000
    ensures Mapped(ExLoRom, b, 0x8000 + r) && Linear(ExLoRom, b, 0x8000 + r) == 0x40_0000 + b * 0x8000 + r
  {
    DivModUnique(0x8000, 1, r);
  }

  // What the sweep of the lower half has finished of the source lies below the sector it is at.
  lemma DoneBelow(s: nat, x: nat, t: nat)
    requires s < 0x80_0000 && SectorOf(x) == t && SectorOf(s) in Done(Span(0x80_0000, 0x100_0000), 0, 0x80_0000, false, t)
    ensures SectorOf(s) < t && s < x
  {}

  lemma ExLoRomAvailable(info: RomInfo, done: set<nat>, t: nat, x: nat)
    requires Installable(info, 0x100_0000) && info.mapping == ExLoRom && info.dataOffset == 0
    requires t < 0x40 && x < 0x80_0000 && SectorOf(x) == t && SourceOffset(info, x).Some?
    requires done == Done(Span(0x80_0000, 0x100_0000), 0, 0x80_0000, false, t)
    ensures Available(info, 0x100_0000, done, SourceOffset(info, x).value)
  {
    hide SourceOffset, Physical, SectorOf, Done;
    var s := SourceOffset(info, x).value;
    ExLoRomSource(info, x);
    if SectorOf(s) in done {
      var page := s / PAGE;
      DoneBelow(s, x, t);
      var y := ExLoRomHome(info, page);
      BelowDone(y, s, t);
      PhysicalSelf(y);
      assert Homed(info, 0x100_0000, done, page, y);
    }
  }

  lemma BelowDone(y: nat, s: nat, t: nat)
    requires y <= s && SectorOf(s) < t < 0x40
    ensures SectorOf(y) in Done(Span(0x80_0000, 0x100_0000), 0, 0x80_0000, false, t)
  {
    assert NotBefore(SectorOf(y), 0);
  }

  lemma PhysicalSelf(y: nat)
    requires y < BUS
    ensures Physical(0x100_0000, y) == y
  {
    hide PhysicalBank;
  }

  lemma ExLoRomSource(info: RomInfo, x: nat)
    requires Installable(info, 0x100_0000) && info.mapping == ExLoRom && x < 0x80_0000 && SourceOffset(info, x).Some?
    ensures 0x40_0000 <= SourceOffset(info, x).value < 0x40_0000 + 0x7E * 0x8000
  {
    hide MirrorOffset;
    assert Bank(x) < 0x7E;
    ExtendedLower(info, x, Bank(x) * 0x8000 + Low(x) % 0x8000);
  }

  lemma ExLoRomOrder(info: RomInfo)
    requires Installable(info, 0x100_0000) && info.mapping == ExLoRom && info.dataOffset == 0
    ensures RangeSafe(info, 0x100_0000, Span(0x80_0000, 0x100_0000), 0, 0x80_0000, false)
  {
    hide SourceOffset, Available;
    forall t: nat, x: nat | t < 0x40 && x < BUS && SectorOf(Physical(0x100_0000, x)) == t && SourceOffset(info, x).Some?
      ensures Available(info, 0x100_0000, Done(Span(0x80_0000, 0x100_0000), 0, 0x80_0000, false, t), SourceOffset(info, x).value)
    {
      ExLoRomAvailable(info, Done(Span(0x80_0000, 0x100_0000), 0, 0x80_0000, false, t), t, x);
    }
  }

  lemma ExHiRomHome(info: RomInfo, page: nat)
    requires info.mapping == ExHiRom && 0x40_0000 <= page * PAGE < info.size && page * PAGE < 0x7E_0000
    ensures SourceOffset(info, page * PAGE) == Some(page * PAGE)
  {
    hide MirrorOffset;
    MirrorInside(info.size, page * PAGE);
  }

  lemma ExHiRomSource(info: RomInfo, x: nat)
    requires Installable(info, 0x100_0000) && info.mapping == ExHiRom && x < 0x80_0000 && SourceOffset(info, x).Some?
    ensures x < 0x7E_0000 && 0x40_0000 <= SourceOffset(info, x).value
  {
    hide MirrorOffset;
    assert Bank(x) < 0x7E;
    ExtendedLower(info, x, if x < 0x40_0000 then x else x - 0x40_0000);
  }

  lemma ExHiRomAvailable(info: RomInfo, done: set<nat>, t: nat, x: nat)
    requires Installable(info, 0x100_0000) && info.mapping == ExHiRom && info.dataOffset == 0
    requires t < 0x40 && x < 0x80_0000 && SectorOf(x) == t && SourceOffset(info, x).Some?
    requires done == Done(Span(0x80_0000, 0x100_0000), 0, 0x80_0000, false, t)
    ensures Available(info, 0x100_0000, done, SourceOffset(info, x).value)
  {
    hide SourceOffset, Physical, SectorOf, Done;
    var s := SourceOffset(info, x).value;
    ExHiRomSource(info, x);
    if SectorOf(s) in done {
      var page := s / PAGE;
      DoneBelow(s, x, t);
      ExHiRomHome(info, page);
      PageSector(0, s);
      PhysicalSelf(page * PAGE);
      assert Homed(info, 0x100_0000, done, page, page * PAGE);
    }
  }

  lemma ExHiRomOrder(info: RomInfo)
    requires Installable(info, 0x100_0000) && info.mapping == ExHiRom && info.dataOffset == 0
    ensures RangeSafe(info, 0x100_0000, Span(0x80_0000, 0x100_0000), 0, 0x80_0000, false)
  {
    hide SourceOffset, Available;
    forall t: nat, x: nat | t < 0x40 && x < BUS && SectorOf(Physical(0x100_0000, x)) == t && SourceOffset(info, x).Some?
      ensures Available(info, 0x100_0000, Done(Span(0x80_0000, 0x100_0000), 0, 0x80_0000, false, t), SourceOffset(info, x).value)
    {
      ExHiRomAvailable(info, Done(Span(0x80_0000, 0x100_0000), 0, 0x80_0000, false, t), t, x);
    }
  }

  // On 8 MiB the extended maps show both halves of the image in every half of the chip. ExLoRom cannot be
  // swept there: the page at 128 KiB is shown only in the sector after its own.
  lemma ExLoRomNever(info: RomInfo)
    requires info.mapping == ExLoRom && 0x40_0000 < info.size <= 0x80_0000 && info.dataOffset == 0
    ensures !RangeSafe(info, 0x80_0000, Span(0x40_0000, 0x80_0000), 0, 0x40_0000, false)
  {
    var c, done := 0x80_0000, Done(Span(0x40_0000, 0x80_0000), 0, 0x40_0000, false, 2);
    ExLoRomSecond(info);
    hide SourceOffset, Physical;
    assert SectorOf(0x2_0000) in done && 2 !in done by {
      assert NotBefore(1, 0);
    }
    forall x: nat
      ensures !Homed(info, c, done, 0x20, x)
    {
      if x < BUS && SourceOffset(info, x) == Some(0x2_0000) {
        ExLoRomOnly(info, x);
      }
    }
    assert !Available(info, c, done, 0x2_0000);
    assert !SectorSafe(info, c, done, 2);
  }

  lemma ExLoRomSecond(info: RomInfo)
    requires info.mapping == ExLoRom && 0x40_0000 < info.size
    ensures SourceOffset(info, 0x84_8000) == Some(0x2_0000) && SectorOf(Physical(0x80_0000, 0x84_8000)) == 2
  {
    MirrorInside(info.size, 0x2_0000);
  }

  lemma ExLoRomOnly(info: RomInfo, x: nat)
    requires info.mapping == ExLoRom && 0x40_0000 < info.size && x < BUS && SourceOffset(info, x) == Some(0x2_0000)
    ensures SectorOf(Physical(0x80_0000, x)) == 2
  {
    var bank, l := Bank(x), Low(x) % 0x8000;
    var linear := Linear(ExLoRom, bank, Low(x));
    hide MirrorOffset;
    if linear < info.size {
      MirrorInside(info.size, linear);
    } else {
      UpperMirror(info.size, linear - 0x40_0000);
    }
  }

  // ExHiRom can be, as long as its upper half ends below bank $7E.
  lemma ExHiRomExact(info: RomInfo)
    requires info.mapping == ExHiRom && 0x40_0000 < info.size <= 0x80_0000 && info.size % 0x8000 == 0 && info.dataOffset == 0
    ensures (&& RangeSafe(info, 0x80_0000, {}, 0x40_0000, 0x80_0000, false)
             && RangeSafe(info, 0x80_0000, Span(0x40_0000, 0x80_0000), 0, 0x40_0000, false)) <==> info.size <= 0x7E_0000
  {
    if info.size <= 0x7E_0000 {
      ExHiRomSafe(info);
    } else {
      ExHiRomLost(info);
    }
  }

  // Below bank $7E every page of the upper half is shown where it lies, and the lower half is shown by the
  // upper half of the chip.
  lemma ExHiRomPlace(info: RomInfo, page: nat) returns (y: nat)
    requires info.mapping == ExHiRom && 0x40_0000 < info.size <= 0x7E_0000 && page * PAGE < info.size
    ensures y < BUS && y % PAGE == 0 && SourceOffset(info, y) == Some(page * PAGE)
    ensures Physical(0x80_0000, y) == if page * PAGE < 0x40_0000 then 0x40_0000 + page * PAGE else page * PAGE
  {
    hide SourceOffset, Physical;
    if page * PAGE < 0x40_0000 {
      WindowSource(info, page);
      WindowPhysical(0x80_0000, page * PAGE);
      y := 0xC0_0000 + page * PAGE;
    } else {
      ExHiRomHome(info, page);
      y := page * PAGE;
    }
  }

  // What the sweep has finished when it is at a sector of the upper half, or of the lower half after it.
  ghost predicate ExHiRomDone(done: set<nat>, t: nat) {
    if 0x20 <= t then done <= Span(0x40_0000, 0x80_0000) else Span(0x40_0000, 0x80_0000) <= done
  }

  lemma ExHiRomAt(info: RomInfo, done: set<nat>, t: nat, s: nat)
    requires info.mapping == ExHiRom && 0x40_0000 < info.size <= 0x7E_0000 && info.dataOffset == 0
    requires ExHiRomDone(done, t) && s < info.size
    ensures Available(info, 0x80_0000, done, s)
  {
    hide SourceOffset, Physical, SectorOf;
    if SectorOf(s) in done {
      var y := ExHiRomPlace(info, s / PAGE);
      PageSector(0, s);
      PageSector(0x40_0000, s);
      UpperSectors(s);
      assert Homed(info, 0x80_0000, done, s / PAGE, y);
    }
  }

  lemma UpperSectors(s: nat)
    ensures s < 0x40_0000 ==> SectorOf(s) !in Span(0x40_0000, 0x80_0000) && SectorOf(0x40_0000 + s) in Span(0x40_0000, 0x80_0000)
    ensures s / PAGE * PAGE < 0x40_0000 <==> s < 0x40_0000
  {
    assert NotBefore(SectorOf(0x40_0000 + s), 0x40_0000);
  }

  lemma ExHiRomSafe(info: RomInfo)
    requires info.mapping == ExHiRom && 0x40_0000 < info.size <= 0x7E_0000 && info.dataOffset == 0
    ensures RangeSafe(info, 0x80_0000, {}, 0x40_0000, 0x80_0000, false)
    ensures RangeSafe(info, 0x80_0000, Span(0x40_0000, 0x80_0000), 0, 0x40_0000, false)
  {
    hide SourceOffset, Physical, Available;
    forall t: nat, x: nat | 0x20 <= t < 0x40 && x < BUS && SourceOffset(info, x).Some?
      ensures Available(info, 0x80_0000, Done({}, 0x40_0000, 0x80_0000, false, t), SourceOffset(info, x).value)
    {
      ExHiRomAt(info, Done({}, 0x40_0000, 0x80_0000, false, t), t, SourceOffset(info, x).value);
    }
    forall t: nat, x: nat | t < 0x20 && x < BUS && SourceOffset(info, x).Some?
      ensures Available(info, 0x80_0000, Done(Span(0x40_0000, 0x80_0000), 0, 0x40_0000, false, t), SourceOffset(info, x).value)
    {
      ExHiRomAt(info, Done(Span(0x40_0000, 0x80_0000), 0, 0x40_0000, false, t), t, SourceOffset(info, x).value);
    }
  }

  // What lies in the banks of the WRAM is shown by banks $3E and $3F alone, too late.
  lemma ExHiRomLost(info: RomInfo)
    requires info.mapping == ExHiRom && 0x7E_0000 < info.size <= 0x80_0000 && info.size % 0x8000 == 0 && info.dataOffset == 0
    ensures !RangeSafe(info, 0x80_0000, Span(0x40_0000, 0x80_0000), 0, 0x40_0000, false)
  {
    var c, done := 0x80_0000, Done(Span(0x40_0000, 0x80_0000), 0, 0x40_0000, false, 0x1F);
    var s := ExHiRomTop(info);
    hide SourceOffset, Physical;
    assert SectorOf(s) in done && 0x1F !in done by {
      assert NotBefore(0x3F, 0x40_0000);
    }
    forall x: nat
      ensures !Homed(info, c, done, s / PAGE, x)
    {
      if x < BUS && SourceOffset(info, x) == Some(s / PAGE * PAGE) {
        ExHiRomOnly(info, x);
      }
    }
    assert !Available(info, c, done, s);
    assert !SectorSafe(info, c, done, 0x1F);
  }

  lemma ExHiRomTop(info: RomInfo) returns (s: nat)
    requires info.mapping == ExHiRom && 0x7E_0000 < info.size <= 0x80_0000 && info.size % 0x8000 == 0
    ensures SourceOffset(info, 0x3E_8000) == Some(s) && 0x7E_0000 <= s < 0x80_0000 && s % PAGE == 0 && SectorOf(s) == 0x3F
    ensures SectorOf(Physical(0x80_0000, 0x3E_8000)) == 0x1F
  {
    hide MirrorOffset;
    s := if info.size == 0x7E_8000 then 0x7E_0000 else 0x7E_8000;
    if info.size == 0x7E_8000 {
      TopWraps();
    } else {
      MirrorInside(info.size, 0x7E_8000);
    }
  }

  // An image that ends with the first half of bank $7E repeats that half.
  lemma TopWraps()
    ensures MirrorOffset(0x7E_8000, 0x7E_8000) == 0x7E_0000
  {
    hide MirrorOffset;
    assert Pow2(10) == 0x400;
    assert Pow2(15) == 0x8000;
    assert Pow2(20) == 0x10_0000;
    UpperMirror(0x7E_8000, 0x3E_8000);
    TopMirror(21, 0x3E_8000, 0x1E_8000);
    TopMirror(20, 0x1E_8000, 0xE_8000);
    TopMirror(19, 0xE_8000, 0x6_8000);
    TopMirror(18, 0x6_8000, 0x2_8000);
    TopMirror(17, 0x2_8000, 0x8000);
    MirrorPeriod(0x8000, 15, 0, 1);
    MirrorInside(0x8000, 0);
  }

  lemma ExHiRomOnly(info: RomInfo, x: nat)
    requires info.mapping == ExHiRom && 0 < info.size && x < BUS && SourceOffset(info, x).Some? && 0x7E_0000 <= SourceOffset(info, x).value
    ensures SectorOf(Physical(0x80_0000, x)) == 0x1F
  {
    hide MirrorOffset;
    assert SourceOffset(info, x).value <= Linear(ExHiRom, Bank(x), Low(x));
  }

  // An 8 MiB device that holds an FX3 dump: the source sits in the upper half it is spread over.
  lemma Fx3UpperOrder(info: RomInfo)
    requires Installable(info, 0x80_0000) && info.mapping == Fx3 && info.dataOffset == 0x40_0000
    ensures RangeSafe(info, 0x80_0000, Span(0, 0x40_0000), 0x40_0000, 0x80_0000, false)
  {
    hide SourceOffset, Physical, Emitted, SectorOf, Done;
    forall t: nat, x: nat | x < BUS && SectorOf(Physical(0x80_0000, x)) == t && SourceOffset(info, x).Some?
      ensures Available(info, 0x80_0000, Done(Span(0, 0x40_0000), 0x40_0000, 0x80_0000, false, t), SourceOffset(info, x).value)
    {
      var done := Done(Span(0, 0x40_0000), 0x40_0000, 0x80_0000, false, t);
      var s := SourceOffset(info, x).value;
      if SectorOf(info.dataOffset + s) in done {
        WindowEmits(info, 0x80_0000, done, s);
      }
    }
  }
}
