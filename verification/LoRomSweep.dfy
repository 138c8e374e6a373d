/** The LoRom sweep (src/storage/snes_rom_installer.cpp:469-471): the whole device, downwards. LoRom shows
  * 32 KiB in a 64 KiB bank, so an image fits twice over; for larger ones this is exactly when it works. And
  * with it, for every map, when the sweep the map calls for works. */
module LoRomSweep {
  import opened Arithmetic
  import opened Bytes
  import opened RomLayout
  import opened ParallelRom
  import opened BusImage
  import opened SweepOrder

  // Bus page y shows the page of source byte s, and its NOR page is in that byte's sector or a later one.
  ghost predicate HomeAbove(info: RomInfo, c: nat, s: nat, y: nat)
    requires IsCapacity(c)
  {
    && y < BUS && y % PAGE == 0 && SourceOffset(info, y) == Some(s / PAGE * PAGE)
    && SectorOf(s) <= SectorOf(Physical(c, y))
  }

  // A downward sweep copies the page of s out before it reaches it.
  ghost predicate Kept(info: RomInfo, c: nat, s: nat)
    requires IsCapacity(c)
  {
    exists y: nat :: HomeAbove(info, c, s, y)
  }

  // Everything a downward sweep has finished.
  lemma DoneAbove(c: nat, t: nat, u: nat)
    requires IsCapacity(c)
    ensures u in Done({}, 0, c, true, t) <==> t < u < c / SECTOR
  {
    assert NotBefore(u, (t + 1) * SECTOR) <==> t < u;
  }

  lemma HomedFrom(info: RomInfo, c: nat, t: nat, s: nat)
    requires IsCapacity(c) && s < c && Kept(info, c, s) && info.dataOffset == 0
    ensures Available(info, c, Done({}, 0, c, true, t), s)
  {
    hide SourceOffset, Physical, SectorOf, Done;
    var y: nat :| HomeAbove(info, c, s, y);
    var done, h := Done({}, 0, c, true, t), SectorOf(Physical(c, y));
    SectorBelow(c, Physical(c, y));
    DoneAbove(c, t, h);
    DoneAbove(c, t, SectorOf(s));
    if t < h {
      assert Homed(info, c, done, s / PAGE, y);
    }
  }

  lemma SectorBelow(c: nat, a: nat)
    requires IsCapacity(c) && a < c
    ensures SectorOf(a) < c / SECTOR
  {}

  // If the sweep is safe, whatever sector needs s below its own was served by a later one.
  lemma {:induction false} Climb(info: RomInfo, c: nat, s: nat, y: nat)
    requires IsCapacity(c) && s < c && info.dataOffset == 0 && RangeSafe(info, c, {}, 0, c, true)
    requires y < BUS && y % PAGE == 0 && SourceOffset(info, y) == Some(s / PAGE * PAGE)
    ensures Kept(info, c, s)
    decreases c / SECTOR - SectorOf(Physical(c, y))
  {
    hide SourceOffset, Physical, SectorOf, Done;
    var t, page := SectorOf(Physical(c, y)), s / PAGE;
    SectorBelow(c, Physical(c, y));
    SectorBelow(c, s);
    if SectorOf(s) <= t {
      assert HomeAbove(info, c, s, y);
    } else {
      PageOfPage(s);
      DoneAbove(c, t, SectorOf(s));
      assert SectorSafe(info, c, Done({}, 0, c, true, t), t);
      assert Available(info, c, Done({}, 0, c, true, t), page * PAGE);
      var y': nat :| Homed(info, c, Done({}, 0, c, true, t), page, y');
      DoneAbove(c, t, SectorOf(Physical(c, y')));
      Climb(info, c, s, y');
    }
  }

  lemma PageOfPage(s: nat)
    ensures s / PAGE * PAGE / PAGE == s / PAGE && SectorOf(s / PAGE * PAGE) == SectorOf(s)
  {
    DivModUnique(PAGE, s / PAGE, 0);
    PageSector(0, s);
  }

  // A downward sweep is safe exactly when every page shown has a home no lower than itself.
  lemma DownwardExact(info: RomInfo, c: nat)
    requires IsCapacity(c) && info.dataOffset == 0 && info.size <= c && info.size % PAGE == 0
    ensures RangeSafe(info, c, {}, 0, c, true) <==>
            forall x: nat :: x < BUS && SourceOffset(info, x).Some? ==> Kept(info, c, SourceOffset(info, x).value)
  {
    hide SourceOffset, Physical, Kept, Available, SectorOf, Done;
    if RangeSafe(info, c, {}, 0, c, true) {
      forall x: nat | x < BUS && SourceOffset(info, x).Some?
        ensures Kept(info, c, SourceOffset(info, x).value)
      {
        PageHome(info, x);
        Climb(info, c, SourceOffset(info, x).value, x / PAGE * PAGE);
      }
    }
    if forall x: nat :: x < BUS && SourceOffset(info, x).Some? ==> Kept(info, c, SourceOffset(info, x).value) {
      forall t: nat, x: nat | x < BUS && SourceOffset(info, x).Some?
        ensures Available(info, c, Done({}, 0, c, true, t), SourceOffset(info, x).value)
      {
        HomedFrom(info, c, t, SourceOffset(info, x).value);
      }
    }
  }

  // The page of a bus address shows the page of its source byte.
  lemma PageHome(info: RomInfo, x: nat)
    requires x < BUS && SourceOffset(info, x).Some? && info.size % PAGE == 0
    ensures var y, s := x / PAGE * PAGE, SourceOffset(info, x).value;
            y < BUS && y % PAGE == 0 && SourceOffset(info, y) == Some(s / PAGE * PAGE)
  {
    hide SourceOffset;
    var y, i := x / PAGE * PAGE, x % PAGE;
    assert x == y + i;
    DivModUnique(PAGE, x / PAGE, 0);
    SourcePage(info, y, i);
    SourcePage(info, y, 0);
    var s := SourceOffset(info, y).value;
    assert s == s / PAGE * PAGE;
    DivModUnique(PAGE, s / PAGE, i);
  }

  // A LoRom of whole banks that the chip can hold at all.
  predicate Fits(info: RomInfo, c: nat) {
    && info.mapping == LoRom && info.dataOffset == 0 && IsCapacity(c)
    && 0 < info.size <= c && info.size % 0x8000 == 0
  }

  // The exact condition: up to three quarters of a chip of at most 4 MiB; a larger chip shows LoRom only once.
  predicate Roomy(info: RomInfo, c: nat) {
    0x80_0000 <= c || 4 * info.size <= 3 * c
  }

  // The maps and sizes the header detection can come to: whole banks, the extended maps from 4 MiB on,
  // HiRom and FX3 up to there.
  predicate Served(info: RomInfo) {
    && 0 < info.size && info.size % 0x8000 == 0
    && match info.mapping
       case LoRom => true
       case HiRom => info.size <= 0x40_0000
       case Fx3 => info.size <= 0x40_0000
       case ExLoRom => 0x40_0000 < info.size <= 0x80_0000
       case ExHiRom => 0x40_0000 < info.size <= 0x80_0000
       case Fx3Physical => false
  }

  // When the sweep of a map finds every page it needs: LoRom up to three quarters of a small chip, ExLoRom on
  // 16 MiB only, ExHiRom on 8 MiB when it ends below the banks of the WRAM, the others always.
  predicate Ordered(info: RomInfo, c: nat) {
    match info.mapping
    case LoRom => Roomy(info, c)
    case ExLoRom => c == 0x100_0000
    case ExHiRom => c == 0x100_0000 || info.size <= 0x7E_0000
    case _ => true
  }

  // One half of the device after the other, the half that holds the source last.
  ghost predicate HalvesSafe(info: RomInfo, c: nat)
    requires IsCapacity(c)
  {
    var half := c / 2;
    if info.mapping == Fx3 && half <= info.dataOffset then RangeSafe(info, c, {}, 0, half, false) && RangeSafe(info, c, Span(0, half), half, c, false)
    else RangeSafe(info, c, {}, half, c, false) && RangeSafe(info, c, Span(half, c), 0, half, false)
  }

  // The window of banks $C0-$FF first, then what shows it again.
  ghost predicate WindowSafe(info: RomInfo, c: nat)
    requires IsCapacity(c) && 0x40_0000 < c
  {
    var window := Span(0x40_0000, 0x80_0000) + if 0x80_0000 < c then Span(0xC0_0000, c) else {};
    && RangeSafe(info, c, {}, 0x40_0000, 0x80_0000, false)
    && (0x80_0000 < c ==> RangeSafe(info, c, Span(0x40_0000, 0x80_0000), 0xC0_0000, c, false))
    && RangeSafe(info, c, window, 0, 0x40_0000, false)
    && (0x80_0000 < c ==> RangeSafe(info, c, window + Span(0, 0x40_0000), 0x80_0000, 0xC0_0000, false))
  }

  // Every range of the sweep, in the order the map calls for, finds its sectors readable.
  ghost predicate Sweepable(info: RomInfo, c: nat)
    requires IsCapacity(c)
  {
    if info.mapping == LoRom then RangeSafe(info, c, {}, 0, c, true)
    else if info.mapping == HiRom && 0x40_0000 < c then WindowSafe(info, c)
    else if info.mapping == ExLoRom || info.mapping == ExHiRom || info.mapping == Fx3 then HalvesSafe(info, c)
    else RangeSafe(info, c, {}, 0, c, false)
  }

  // For every map the detection knows, on every chip that can hold the ROM, the order is safe exactly when
  // its size says so.
  lemma SweepableExact(info: RomInfo, c: nat)
    requires Served(info) && IsCapacity(c) && info.dataOffset + info.size <= c
    requires info.dataOffset == 0 || (info.mapping == Fx3 && info.dataOffset == 0x40_0000)
    ensures Sweepable(info, c) <==> Ordered(info, c)
  {
    hide RangeSafe, Span;
    match info.mapping {
      case LoRom => LoRomExact(info, c);
      case HiRom =>
        if 0x40_0000 < c {
          HiRomWindow(info, c);
        } else {
          InPlaceOrder(info, c, {}, 0, c);
        }
      case Fx3 => Fx3Halves(info, c);
      case ExLoRom => ExtendedHalves(info, c);
      case ExHiRom => ExtendedHalves(info, c);
      case Fx3Physical =>
    }
  }

  lemma HiRomWindow(info: RomInfo, c: nat)
    requires Installable(info, c) && info.mapping == HiRom && info.dataOffset == 0 && 0x40_0000 < c
    ensures WindowSafe(info, c)
  {
    hide RangeSafe;
    var window := Span(0x40_0000, 0x80_0000) + if 0x80_0000 < c then Span(0xC0_0000, c) else {};
    Untouched(info, c, {}, 0x40_0000, 0x80_0000, 0x40_0000);
    if 0x80_0000 < c {
      Untouched(info, c, Span(0x40_0000, 0x80_0000), 0xC0_0000, c, 0x40_0000);
      AfterWindow(info, c, window + Span(0, 0x40_0000), 0x80_0000, 0xC0_0000);
    }
    AfterWindow(info, c, window, 0, 0x40_0000);
  }

  lemma ExtendedHalves(info: RomInfo, c: nat)
    requires Served(info) && (info.mapping == ExLoRom || info.mapping == ExHiRom) && info.dataOffset == 0
    requires c == 0x80_0000 || c == 0x100_0000
    ensures HalvesSafe(info, c) <==> Ordered(info, c)
  {
    hide RangeSafe, Span;
    if c == 0x80_0000 {
      if info.mapping == ExLoRom {
        ExLoRomNever(info);
      } else {
        ExHiRomExact(info);
      }
    } else {
      Untouched(info, 0x100_0000, {}, 0x80_0000, 0x100_0000, 0x80_0000);
      if info.mapping == ExLoRom {
        ExLoRomOrder(info);
      } else {
        ExHiRomOrder(info);
      }
    }
  }

  lemma Fx3Halves(info: RomInfo, c: nat)
    requires Served(info) && IsCapacity(c) && info.mapping == Fx3 && info.dataOffset + info.size <= c
    requires info.dataOffset == 0 || info.dataOffset == 0x40_0000
    ensures HalvesSafe(info, c)
  {
    hide RangeSafe;
    if c <= 0x40_0000 {
      InPlaceOrder(info, c, {}, c / 2, c);
      InPlaceOrder(info, c, Span(c / 2, c), 0, c / 2);
    } else if c / 2 <= info.dataOffset {
      Untouched(info, c, {}, 0, 0x40_0000, 0x80_0000);
      Fx3UpperOrder(info);
    } else {
      Untouched(info, c, {}, c / 2, c, c / 2);
      AfterWindow(info, c, Span(c / 2, c), 0, c / 2);
    }
  }

  lemma LoRomExact(info: RomInfo, c: nat)
    requires Fits(info, c)
    ensures RangeSafe(info, c, {}, 0, c, true) <==> Roomy(info, c)
  {
    hide SourceOffset, Kept, RangeSafe;
    DownwardExact(info, c);
    if Roomy(info, c) {
      forall x: nat | x < BUS && SourceOffset(info, x).Some?
        ensures Kept(info, c, SourceOffset(info, x).value)
      {
        RoomyKept(info, c, x);
      }
    } else {
      TightShown(info, c);
      TightLost(info, c);
    }
  }

  // Where the upper banks show a linear offset,
  function HomeAddress(l: nat): nat {
    (0x80 + l / 0x8000) * 0x1_0000 + (0x8000 + l % 0x8000)
  }

  lemma HomeShows(info: RomInfo, l: nat)
    requires info.mapping == LoRom && 0 < info.size && l < 0x40_0000 && l % PAGE == 0
    ensures var y := HomeAddress(l); y < BUS && y % PAGE == 0 && SourceOffset(info, y) == Some(MirrorOffset(info.size, l))
  {
    hide SourceOffset, MirrorOffset;
    var b, r := l / 0x8000, l % 0x8000;
    assert l == b * 0x8000 + r && b < 0x80 && r % PAGE == 0;
    LoRomShows(info, b, r);
  }

  lemma LoRomShows(info: RomInfo, b: nat, r: nat)
    requires info.mapping == LoRom && 0 < info.size && b < 0x80 && r < 0x8000
    ensures SourceOffset(info, (0x80 + b) * 0x1_0000 + (0x8000 + r)) == Some(MirrorOffset(info.size, b * 0x8000 + r))
  {
    hide MirrorOffset, SourceOffset;
    SourceInBank(info, 0x80 + b, 0x8000 + r, (0x80 + b) * 0x1_0000 + (0x8000 + r));
  }

  // and the NOR address of that place.
  lemma HomePhysical(c: nat, l: nat)
    requires IsCapacity(c) && l < 0x40_0000
    ensures Physical(c, HomeAddress(l)) == PhysicalBank(c, 0x80 + l / 0x8000) * 0x1_0000 + (0x8000 + l % 0x8000)
  {
    hide PhysicalBank;
    BankLow(0x80 + l / 0x8000, 0x8000 + l % 0x8000);
  }

  lemma SectorMono(a: nat, b: nat)
    requires a <= b
    ensures SectorOf(a) <= SectorOf(b)
  {}

  lemma RoomyKept(info: RomInfo, c: nat, x: nat)
    requires Fits(info, c) && Roomy(info, c) && x < BUS && SourceOffset(info, x).Some?
    ensures Kept(info, c, SourceOffset(info, x).value)
  {
    var s := SourceOffset(info, x).value;
    assert s < 0x40_0000 && s < info.size;
    hide SourceOffset;
    var p := s / PAGE * PAGE;
    var l := if c < 0x80_0000 && c / 2 <= s then c / 4 + p else p;
    PageOfPage(s);
    RoomyHome(info, c, p, l);
    HomeShows(info, l);
    hide Physical, SectorOf, HomeAddress, MirrorOffset;
    assert HomeAbove(info, c, s, HomeAddress(l));
  }

  // The lower half of the image is shown by its own offset, the rest again by the last quarter.
  lemma RoomyHome(info: RomInfo, c: nat, p: nat, l: nat)
    requires Fits(info, c) && Roomy(info, c) && p < info.size && p < 0x40_0000 && p % PAGE == 0
    requires l == if c < 0x80_0000 && c / 2 <= p then c / 4 + p else p
    ensures l < 0x40_0000 && l % PAGE == 0 && MirrorOffset(info.size, l) == p
    ensures SectorOf(p) <= SectorOf(Physical(c, HomeAddress(l)))
  {
    hide Physical, PhysicalBank, MirrorOffset, HomeAddress, SectorOf;
    LowerPhysical(c, l);
    if l == p {
      MirrorInside(info.size, p);
    } else {
      LastQuarter(info.size, c, p - c / 2);
    }
    SectorMono(p, Physical(c, HomeAddress(l)));
  }

  lemma LowerPhysical(c: nat, l: nat)
    requires IsCapacity(c) && l < 0x40_0000 && (0x80_0000 <= c || l < c)
    ensures var a := Physical(c, HomeAddress(l));
            && (0x80_0000 <= c || l < c / 2 ==> l <= a) && (c < 0x80_0000 && 3 * (c / 4) <= l ==> l - c / 4 <= a)
  {
    hide PhysicalBank, Physical, HomeAddress;
    var b := l / 0x8000;
    HomePhysical(c, l);
    assert l == b * 0x8000 + l % 0x8000;
    UpperBankHome(c, b);
  }

  // The upper banks start over in the NOR, the image goes on.
  lemma UpperBankHome(c: nat, b: nat)
    requires IsCapacity(c) && b < 0x80
    ensures var n := BankCount(c);
            if n <= b < 2 * n then PhysicalBank(c, 0x80 + b) == b - n else b < n ==> b <= PhysicalBank(c, 0x80 + b)
  {
    var n := BankCount(c);
    var q := 0x80 / n;
    if b < n {
      DivModUnique(n, q, b);
    } else if b < 2 * n {
      DivModUnique(n, q + 1, b - n);
    }
  }

  lemma QuarterPower(c: nat) returns (k: nat)
    requires c == 0x10_0000 || c == 0x20_0000 || c == 0x40_0000
    ensures Pow2(k) == c / 4 && Pow2(k + 1) == c / 2 && Pow2(k + 2) == c
  {
    assert Pow2(9) == 0x200;
    assert Pow2(18) == 0x4_0000;
    k := if c == 0x10_0000 then 18 else if c == 0x20_0000 then 19 else 20;
  }

  lemma LastQuarter(size: nat, c: nat, v: nat)
    requires c == 0x10_0000 || c == 0x20_0000 || c == 0x40_0000
    requires c / 2 < size && 4 * size <= 3 * c && v < size - c / 2
    ensures MirrorOffset(size, 3 * (c / 4) + v) == c / 2 + v
  {
    hide MirrorOffset, Pow2;
    var k := QuarterPower(c);
    var q := c / 4;
    assert c == 4 * q;
    TopMirror(k + 1, size, q + v);
    MirrorPeriod(size - 2 * q, k, v, 1);
    MirrorInside(size - 2 * q, v);
    assert v + 1 * Pow2(k) == q + v;
  }

  // In a larger image the middle page is shown,
  lemma TightShown(info: RomInfo, c: nat)
    requires Fits(info, c) && !Roomy(info, c)
    ensures HomeAddress(c / 2) < BUS && SourceOffset(info, HomeAddress(c / 2)) == Some(c / 2)
  {
    HomeShows(info, c / 2);
    MirrorInside(info.size, c / 2);
  }

  // but only in the lowest sector, which comes last.
  lemma TightLost(info: RomInfo, c: nat)
    requires Fits(info, c) && !Roomy(info, c)
    ensures !Kept(info, c, c / 2)
  {
    hide SourceOffset, Physical;
    forall y: nat | y < BUS && SourceOffset(info, y) == Some(c / 2)
      ensures SectorOf(Physical(c, y)) == 0
    {
      TightHome(info, c, y);
    }
    assert 0 < SectorOf(c / 2) && c / 2 / PAGE * PAGE == c / 2;
  }

  lemma TightHome(info: RomInfo, c: nat, y: nat)
    requires Fits(info, c) && !Roomy(info, c) && y < BUS && SourceOffset(info, y) == Some(c / 2)
    ensures SectorOf(Physical(c, y)) == 0
  {
    var bank, linear, l := Bank(y), LinearAt(LoRom, y), Low(y) % 0x8000;
    assert linear == bank % 0x80 * 0x8000 + l;
    assert MirrorOffset(info.size, linear) == c / 2;
    TightMirror(info.size, c, linear);
    Divided(linear, c);
    hide SourceOffset, MirrorOffset, LinearAt;
    HomeBank(c, linear / c, bank, l);
  }

  lemma TightMirror(size: nat, c: nat, l: nat)
    requires (c == 0x10_0000 || c == 0x20_0000 || c == 0x40_0000) && 3 * c < 4 * size <= 4 * c
    requires MirrorOffset(size, l) == c / 2
    ensures l % c == c / 2
  {
    var k := QuarterPower(c);
    var r := l % c;
    Divided(l, c);
    MirrorPeriod(size, k + 2, r, l / c);
    hide MirrorOffset, Pow2;
    if r < size {
      MirrorInside(size, r);
    } else {
      BeyondQuarter(size, c, r);
    }
  }

  lemma BeyondQuarter(size: nat, c: nat, r: nat)
    requires (c == 0x10_0000 || c == 0x20_0000 || c == 0x40_0000) && 3 * c < 4 * size && size <= r < c
    ensures 3 * (c / 4) <= MirrorOffset(size, r)
  {
    hide MirrorOffset, Pow2;
    var k := QuarterPower(c);
    var q := c / 4;
    assert c == 4 * q;
    TopMirror(k + 1, size, r - 2 * q);
    TopMirror(k, size - 2 * q, r - 3 * q);
  }

  lemma Divided(n: nat, d: nat)
    requires 0 < d
    ensures n == n / d * d + n % d
  {}

  lemma HomeBank(c: nat, q: nat, bank: nat, l: nat)
    requires c == 0x10_0000 || c == 0x20_0000 || c == 0x40_0000
    requires l < 0x8000 && bank < 0x100 && bank % 0x80 * 0x8000 + l == q * c + c / 2
    ensures l == 0 && PhysicalBank(c, bank) == 0
  {
    var high, m := bank / 0x80, bank % 0x80;
    assert bank == high * 0x80 + m;
    if c == 0x10_0000 {
      DivModUnique(0x10, high * 8 + 2 * q + 1, 0);
    } else if c == 0x20_0000 {
      DivModUnique(0x20, high * 4 + 2 * q + 1, 0);
    } else {
      DivModUnique(0x40, high * 2 + 2 * q + 1, 0);
    }
  }

  // The content check alone does not keep such images out: a LoRom as large as its chip
  predicate WholeChip(info: RomInfo, c: nat) {
    Fits(info, c) && info.size == c && c < 0x80_0000
  }

  // A power-of-two image simply repeats.
  lemma PowerMirror(size: nat, l: nat)
    requires size == 0x8_0000 || size == 0x10_0000 || size == 0x20_0000 || size == 0x40_0000
    ensures MirrorOffset(size, l) == l % size
  {
    hide MirrorOffset, Pow2;
    SizePowers();
    var k := if size == 0x8_0000 then 19 else if size == 0x10_0000 then 20 else if size == 0x20_0000 then 21 else 22;
    MirrorPeriod(size, k, l % size, l / size);
    MirrorInside(size, l % size);
    assert l == l % size + l / size * size;
  }

  lemma SizePowers()
    ensures Pow2(19) == 0x8_0000 && Pow2(20) == 0x10_0000 && Pow2(21) == 0x20_0000 && Pow2(22) == 0x40_0000
  {
    assert Pow2(10) == 0x400;
    assert Pow2(19) == 0x8_0000;
  }

  // whose halves are equal shows no two bus addresses that disagree.
  lemma EqualHalvesConsistent(info: RomInfo, c: nat, src: seq<byte>)
    requires WholeChip(info, c) && |src| == c && src[..c / 2] == src[c / 2..]
    ensures Consistent(info, c, src)
  {
    var half := info.(size := c / 2);
    InstallableConsistent(half, c, src[..c / 2]);
    forall x: nat | x < BUS && SourceOffset(info, x).Some?
      ensures src[SourceOffset(info, x).value] == ImageByte(info, c, src, Physical(c, x))
    {
      HalfByte(info, c, src, x);
      HalvesAlias(info, c, src, Physical(c, x));
    }
  }

  lemma HalfByte(info: RomInfo, c: nat, src: seq<byte>, x: nat)
    requires WholeChip(info, c) && |src| == c && src[..c / 2] == src[c / 2..] && x < BUS
    ensures var half := info.(size := c / 2);
            && (SourceOffset(info, x).Some? <==> SourceOffset(half, x).Some?)
            && (SourceOffset(info, x).Some? ==> src[SourceOffset(info, x).value] == src[..c / 2][SourceOffset(half, x).value])
  {
    var l := LinearAt(LoRom, x);
    PowerMirror(c, l);
    PowerMirror(c / 2, l);
    hide MirrorOffset;
    HalfOf(c, c / 2, l);
    assert src[c / 2..][l % (c / 2)] == src[c / 2 + l % (c / 2)];
  }

  lemma HalfOf(n: nat, h: nat, l: nat)
    requires 0 < h && n == 2 * h
    ensures l % n == l % h || l % n == h + l % h
  {
    var q, r := Quotient(l, n);
    DivModUnique(n, q, r);
    if r < h {
      assert q * n + r == 2 * q * h + r;
      DivModUnique(h, 2 * q, r);
    } else {
      assert q * n + r == (2 * q + 1) * h + (r - h);
      DivModUnique(h, 2 * q + 1, r - h);
    }
  }

  lemma {:induction false} HalvesAlias(info: RomInfo, c: nat, src: seq<byte>, alias: nat)
    requires WholeChip(info, c) && |src| == c && src[..c / 2] == src[c / 2..]
    ensures AliasByte(info, c, src, alias) == AliasByte(info.(size := c / 2), c, src[..c / 2], alias)
    decreases BUS - alias
  {
    if alias < BUS {
      HalfByte(info, c, src, alias);
      HalvesAlias(info, c, src, alias + c);
    }
  }
}
