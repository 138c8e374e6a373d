/** Plotting (src/fx/fx_graphics.cpp, src/fx/fx3_graphics.cpp): two write-back row caches over bit-planar
  * RAM, which together must look like a flat map of pixels. */
module FxGraphics {
  import opened FxScreen
  import FxMemory

  // Eight pixels of one row, kept in bit order; valid has a bit for each one plotted.
  datatype PixelCache = PixelCache(x: nat, y: nat, pixels: seq<bv8>, valid: bv8)

  // The bit of a plane byte a pixel occupies.
  function Slot(x: nat): (k: nat)
    ensures k < 8
  {
    7 - x % 8
  }

  predicate CacheGood(s: Screen, c: PixelCache) {
    |c.pixels| == 8 && c.x % 8 == 0 && (c.valid != 0 ==> OnScreen(s, c.x, c.y))
  }

  predicate InRow(c: PixelCache, x: nat, y: nat) {
    c.x == x / 8 * 8 && c.y == y
  }

  predicate Covers(c: PixelCache, x: nat, y: nat) {
    InRow(c, x, y) && Bit(c.valid, Slot(x))
  }

  // A bit of a pixel as RAM alone has it.
  predicate RamBit(ram: seq<bv8>, s: Screen, x: nat, y: nat, p: nat)
    requires |ram| == RAM_SIZE && Proper(s) && Fits(s) && OnScreen(s, x, y) && p < s.bpp
  {
    PlaneInside(s, x, y, p);
    Bit(ram[PlaneAddress(s, x, y, p)], Slot(x))
  }

  // The leftmost of eight pixels is the highest bit of its plane bytes, the rightmost the lowest.
  lemma LeftIsHigh(ram: seq<bv8>, s: Screen, x: nat, y: nat, p: nat)
    requires |ram| == RAM_SIZE && Proper(s) && Fits(s) && OnScreen(s, x, y) && p < s.bpp
    ensures PlaneAddress(s, x, y, p) < RAM_SIZE
    ensures x % 8 == 0 ==> (RamBit(ram, s, x, y, p) <==> 0x80 <= ram[PlaneAddress(s, x, y, p)] as nat)
    ensures x % 8 == 7 ==> (RamBit(ram, s, x, y, p) <==> ram[PlaneAddress(s, x, y, p)] as nat % 2 == 1)
  {
    hide PlaneAddress, Proper, Fits;
    PlaneInside(s, x, y, p);
    BitIsDigit(ram[PlaneAddress(s, x, y, p)]);
  }

  // The byte is one of the cached row's first n planes.
  ghost predicate Hit(s: Screen, c: PixelCache, a: nat, n: nat) {
    exists p: nat :: p < n && a == PlaneAddress(s, c.x, c.y, p)
  }

  // The plane byte that a cached row turns a byte of RAM into.
  ghost predicate PlaneWritten(c: PixelCache, p: nat, was: bv8, now: bv8)
    requires |c.pixels| == 8 && p < 8
  {
    forall j: nat :: j < 8 ==> (Bit(now, j) <==> if Bit(c.valid, j) then Bit(c.pixels[j], p) else Bit(was, j))
  }

  // The first n planes of a cached row have been written, and nothing else.
  ghost predicate RowWritten(s: Screen, c: PixelCache, was: seq<bv8>, now: seq<bv8>, n: nat)
    requires Proper(s) && Fits(s) && OnScreen(s, c.x, c.y) && |c.pixels| == 8 && n <= s.bpp
  {
    && |was| == |now| == RAM_SIZE
    && (forall p: nat :: p < n ==>
          (var at := PlaneAddress(s, c.x, c.y, p); at < RAM_SIZE && PlaneWritten(c, p, was[at], now[at])))
    && (forall a: nat :: a < RAM_SIZE && !Hit(s, c, a, n) ==> now[a] == was[a])
  }

  lemma RowNext(s: Screen, c: PixelCache, was: seq<bv8>, now: seq<bv8>, n: nat, value: bv8)
    requires Proper(s) && Fits(s) && OnScreen(s, c.x, c.y) && |c.pixels| == 8 && n < s.bpp
    requires RowWritten(s, c, was, now, n) && PlaneAddress(s, c.x, c.y, n) < RAM_SIZE
    requires PlaneWritten(c, n, now[PlaneAddress(s, c.x, c.y, n)], value)
    ensures RowWritten(s, c, was, now[PlaneAddress(s, c.x, c.y, n) := value], n + 1)
  {
    hide PlaneAddress, Bit, PlaneWritten;
    var at := PlaneAddress(s, c.x, c.y, n);
    if Hit(s, c, at, n) {
      var p: nat :| p < n && at == PlaneAddress(s, c.x, c.y, p);
      PlanesApart(s, c.x, c.y, p, c.x, c.y, n);
    }
    var next := now[at := value];
    forall p: nat | p < n + 1
      ensures PlaneAddress(s, c.x, c.y, p) < RAM_SIZE &&
              PlaneWritten(c, p, was[PlaneAddress(s, c.x, c.y, p)], next[PlaneAddress(s, c.x, c.y, p)])
    {
      if p < n && PlaneAddress(s, c.x, c.y, p) == at {
        PlanesApart(s, c.x, c.y, p, c.x, c.y, n);
      }
    }
    forall a: nat | a < RAM_SIZE && !Hit(s, c, a, n + 1)
      ensures next[a] == was[a]
    {
      assert a != at;
      assert !Hit(s, c, a, n);
    }
  }

  // A written row shows its cached pixels, and every other pixel is as it was.
  lemma RowShows(s: Screen, c: PixelCache, was: seq<bv8>, now: seq<bv8>, x: nat, y: nat, p: nat)
    requires Proper(s) && Fits(s) && OnScreen(s, c.x, c.y) && CacheGood(s, c) && RowWritten(s, c, was, now, s.bpp)
    requires OnScreen(s, x, y) && p < s.bpp
    ensures RamBit(now, s, x, y, p) <==> if Covers(c, x, y) then Bit(c.pixels[Slot(x)], p) else RamBit(was, s, x, y, p)
  {
    PlaneInside(s, x, y, p);
    var at := PlaneAddress(s, x, y, p);
    if InRow(c, x, y) {
      SameRow(s, x, y, p);
      assert PlaneWritten(c, p, was[at], now[at]);
    } else {
      hide PlaneAddress, Bit;
      if Hit(s, c, at, s.bpp) {
        var p': nat :| p' < s.bpp && at == PlaneAddress(s, c.x, c.y, p');
        PlanesApart(s, x, y, p, c.x, c.y, p');
        RowStart(c.x, x);
      }
    }
  }

  lemma RowStart(start: nat, x: nat)
    requires start % 8 == 0 && x / 8 == start / 8
    ensures start == x / 8 * 8
  {}

  class Graphics {
    const memory: FxMemory.Memory
    var screen: Screen
    var primary: PixelCache
    var secondary: PixelCache
    var color: bv8
    var plotTransparent: bool
    var freezeHigh: bool
    var dither: bool
    var r15: nat
    var running: bool
    var saveFailed: bool

    ghost predicate Shape()
      reads this, memory
    {
      && memory.Valid() && memory.ramDelay <= Access() && Proper(screen) && Fits(screen)
      && CacheGood(screen, primary) && CacheGood(screen, secondary)
    }

    // No store is on its way: what RAM holds is what RAM shows.
    ghost predicate Valid()
      reads this, memory
    {
      Shape() && memory.ramDelay == 0
    }

    // What a read relies on: no store is on its way, or a cached row will be written back first.
    predicate Settled()
      reads `primary, `secondary, memory`ramDelay
    {
      memory.ramDelay == 0 || primary.valid != 0 || secondary.valid != 0
    }

    // Cycles of one memory access.
    function Access(): nat
      reads memory
    {
      if memory.fast then 5 else 6
    }

    // One bit of a pixel as the program is to see it: the newer cache first, then the older one, then RAM
    // with the store on its way.
    ghost predicate Flat(x: nat, y: nat, p: nat)
      requires Shape() && OnScreen(screen, x, y) && p < screen.bpp
      reads this, memory, memory.ram
    {
      if Covers(primary, x, y) then Bit(primary.pixels[Slot(x)], p)
      else if Covers(secondary, x, y) then Bit(secondary.pixels[Slot(x)], p)
      else RamBit(memory.View(), screen, x, y, p)
    }

    constructor (memory: FxMemory.Memory, screen: Screen)
      requires memory.Valid() && memory.ramDelay == 0 && Proper(screen) && Fits(screen)
      ensures Valid() && this.memory == memory && this.screen == screen
    {
      this.memory, this.screen := memory, screen;
      primary := PixelCache(0, 0, [0, 0, 0, 0, 0, 0, 0, 0], 0);
      secondary := PixelCache(0, 0, [0, 0, 0, 0, 0, 0, 0, 0], 0);
      color, plotTransparent, freezeHigh, dither, r15, running, saveFailed := 0, false, false, false, 0, false, false;
    }

    // Transpose one plane of a cached row.
    static method PackPlane(c: PixelCache, plane: nat) returns (value: bv8)
      requires |c.pixels| == 8 && plane < 8
      ensures forall j: nat :: j < 8 ==> (Bit(value, j) <==> Bit(c.pixels[j], plane))
    {
      hide Bit, Mask;
      value := 0;
      var bit: nat := 0;
      NoneSet();
      while bit < 8
        invariant bit <= 8 && forall j: nat :: j < 8 ==> (Bit(value, j) <==> j < bit && Bit(c.pixels[j], plane))
      {
        if Bit(c.pixels[bit], plane) {
          ghost var before := value;
          value := value | Mask(bit);
          forall j: nat | j < 8
            ensures Bit(value, j) <==> j == bit || Bit(before, j)
          {
            BitSet(before, bit, j);
          }
        }
        bit := bit + 1;
      }
    }

    // Write a cached row to RAM, plane by plane; a partly valid row keeps the pixels it does not have. A store
    // on its way reaches RAM before the row is read or written.
    method WriteRow(c: PixelCache)
      requires Shape() && CacheGood(screen, c) && c.valid != 0
      modifies memory`romDelay, memory`ramDelay, memory`romBuffer, memory`fetchPending, memory.ram
      ensures Valid() && RowWritten(screen, c, old(memory.View()), memory.ram[..], screen.bpp)
    {
      hide Bit, PlaneAddress, PlaneWritten, Hit, Merge;
      ghost var was := memory.View();
      NothingWritten(screen, c, was);
      var plane := 0;
      while plane < screen.bpp
        invariant 0 <= plane <= screen.bpp && Shape() && RowWritten(screen, c, was, memory.View(), plane)
        invariant 0 < plane ==> memory.ramDelay == 0
      {
        PlaneInside(screen, c.x, c.y, plane);
        var address := PlaneAddress(screen, c.x, c.y, plane);
        var value := PackPlane(c, plane);
        PlaneMerged(c, plane, memory.View()[address], value);
        if c.valid != 0xFF {
          memory.Step(Access());
          value := Merge(value, memory.ram[address], c.valid);
        }
        memory.Step(Access());
        RowNext(screen, c, was, memory.ram[..], plane, value);
        memory.ram[address] := value;
        plane := plane + 1;
      }
    }

    // No pixel looks different from before.
    twostate predicate SamePicture()
      requires old(Shape()) && Shape()
      reads this, memory, memory.ram
    {
      screen == old(screen) &&
      forall x: nat, y: nat, p: nat :: OnScreen(screen, x, y) && p < screen.bpp ==> (Flat(x, y, p) <==> old(Flat(x, y, p)))
    }

    // Write the older cache back.
    method WriteSecondary()
      requires Shape()
      modifies `secondary, memory`romDelay, memory`ramDelay, memory`romBuffer, memory`fetchPending, memory.ram
      ensures Shape() && SamePicture() && secondary == old(secondary).(valid := 0)
      ensures old(secondary.valid) == 0 ==> unchanged(memory) && unchanged(memory.ram)
      ensures old(secondary.valid) != 0 ==> Valid()
    {
      hide Bit, PlaneAddress, RowWritten, RamBit;
      if secondary.valid == 0 {
        return;
      }
      WriteRow(secondary);
      forall x: nat, y: nat, p: nat | OnScreen(screen, x, y) && p < screen.bpp
        ensures RamBit(memory.ram[..], screen, x, y, p) <==>
                if Covers(secondary, x, y) then Bit(secondary.pixels[Slot(x)], p) else RamBit(old(memory.View()), screen, x, y, p)
      {
        RowShows(screen, secondary, old(memory.View()), memory.ram[..], x, y, p);
      }
      secondary := secondary.(valid := 0);
      EmptyCovers(secondary);
    }

    // Write the newer cache back, once the older one is empty.
    method WritePrimary()
      requires Shape() && secondary.valid == 0
      modifies `primary, memory`romDelay, memory`ramDelay, memory`romBuffer, memory`fetchPending, memory.ram
      ensures Shape() && SamePicture() && primary == old(primary).(valid := 0)
      ensures old(primary.valid) == 0 ==> unchanged(memory) && unchanged(memory.ram)
      ensures old(primary.valid) != 0 ==> Valid()
    {
      hide Bit, PlaneAddress, RowWritten, RamBit;
      EmptyCovers(secondary);
      if primary.valid == 0 {
        return;
      }
      WriteRow(primary);
      forall x: nat, y: nat, p: nat | OnScreen(screen, x, y) && p < screen.bpp
        ensures RamBit(memory.ram[..], screen, x, y, p) <==>
                if Covers(primary, x, y) then Bit(primary.pixels[Slot(x)], p) else RamBit(old(memory.View()), screen, x, y, p)
      {
        RowShows(screen, primary, old(memory.View()), memory.ram[..], x, y, p);
      }
      primary := primary.(valid := 0);
      EmptyCovers(primary);
    }

    // Hand the newer cache over to the older slot and start a row.
    method FlushPrimary(x: nat, y: nat)
      requires Shape() && OnScreen(screen, x, y)
      modifies `primary, `secondary, memory`romDelay, memory`ramDelay, memory`romBuffer, memory`fetchPending, memory.ram
      ensures Shape() && SamePicture() && primary.valid == 0 && InRow(primary, x, y)
      ensures secondary == old(primary)
    {
      hide Bit, PlaneAddress, RamBit;
      WriteSecondary();
      EmptyCovers(secondary);
      primary, secondary := primary.(x := x / 8 * 8, y := y, valid := 0), primary;
      EmptyCovers(primary);
    }

    predicate Transparent()
      reads this
    {
      Blank(screen.bpp, freezeHigh, color)
    }

    // The colour a plot at this place leaves, if it leaves one.
    function Plotted(x: nat, y: nat): bv8
      reads this
    {
      Dithered(screen.bpp, dither, color, x, y)
    }

    // This pixel has this colour, and every other pixel is as it was.
    twostate predicate OnlyPixel(x: nat, y: nat, value: bv8)
      requires old(Shape()) && Shape()
      reads this, memory, memory.ram
    {
      screen == old(screen) &&
      forall x': nat, y': nat, p: nat :: OnScreen(screen, x', y') && p < screen.bpp ==>
        (Flat(x', y', p) <==> if x' == x && y' == y then Bit(value, p) else old(Flat(x', y', p)))
    }

    // PLOT: this pixel takes the colour, no other pixel changes.
    method DrawPixel(x: nat, y: nat)
      requires Shape() && OnScreen(screen, x, y)
      modifies `primary, `secondary, memory`romDelay, memory`ramDelay, memory`romBuffer, memory`fetchPending, memory.ram
      ensures old(plotTransparent || !Transparent()) ==> InRow(primary, x, y) && primary.valid != 0xFF
      ensures Shape() && (old(Settled()) ==> Settled()) && if old(!plotTransparent && Transparent()) then SamePicture() else OnlyPixel(x, y, old(Plotted(x, y)))
    {
      hide Bit, Flat, CacheGood, Proper, Fits, Height, Transparent, Plotted;
      if !plotTransparent && Transparent() {
        return;
      }
      var value := Plotted(x, y);
      StartRow(x, y);
      Put(x, y, value);
      EndRow(x, y);
    }

    method StartRow(x: nat, y: nat)
      requires Shape() && OnScreen(screen, x, y)
      modifies `primary, `secondary, memory`romDelay, memory`ramDelay, memory`romBuffer, memory`fetchPending, memory.ram
      ensures Shape() && SamePicture() && InRow(primary, x, y)
    {
      hide Bit, Flat, CacheGood, Proper, Fits, Height;
      if primary.x != x / 8 * 8 || primary.y != y {
        FlushPrimary(x, y);
      }
    }

    method EndRow(x: nat, y: nat)
      requires Shape() && OnScreen(screen, x, y) && primary.valid != 0
      modifies `primary, `secondary, memory`romDelay, memory`ramDelay, memory`romBuffer, memory`fetchPending, memory.ram
      ensures Shape() && SamePicture() && (primary.valid != 0 || secondary.valid != 0)
      ensures if old(primary.valid) == 0xFF then primary.valid == 0 && InRow(primary, x, y) && secondary == old(primary) else unchanged(this) && unchanged(memory)
    {
      hide Bit, Flat, CacheGood, Proper, Fits, Height;
      if primary.valid == 0xFF {
        FlushPrimary(x, y);
      }
    }

    method Put(x: nat, y: nat, value: bv8)
      requires Shape() && OnScreen(screen, x, y) && InRow(primary, x, y)
      modifies `primary
      ensures Shape() && OnlyPixel(x, y, value) && primary.valid != 0 && InRow(primary, x, y)
    {
      hide Bit, PlaneAddress, RamBit, Mask;
      ghost var before := primary;
      primary := primary.(pixels := primary.pixels[Slot(x) := value], valid := primary.valid | Mask(Slot(x)));
      forall x': nat, y': nat | OnScreen(screen, x', y')
        ensures Covers(primary, x', y') <==> (x' == x && y' == y) || Covers(before, x', y')
        ensures InRow(before, x', y') && Slot(x') == Slot(x) ==> x' == x && y' == y
      {
        BitSet(before.valid, Slot(x), Slot(x'));
      }
      NoneSet();
      assert Covers(primary, x, y);
    }

    // RPIX: both caches are written back, older first, and the pixel is read from its planes. With nothing
    // cached the first plane misses a store still on its way; so what is read is the pixel the program is to
    // see exactly when something was cached or that store leaves the pixel's lowest plane alone.
    method ReadPixel(x: nat, y: nat) returns (value: bv8)
      requires Shape() && OnScreen(screen, x, y)
      modifies `primary, `secondary, memory`romDelay, memory`ramDelay, memory`romBuffer, memory`fetchPending, memory.ram
      ensures Valid() && SamePicture() && primary.valid == 0 && secondary.valid == 0
      ensures forall p: nat :: 0 < p < 8 ==> (Bit(value, p) <==> p < screen.bpp && old(Flat(x, y, p)))
      ensures (Bit(value, 0) <==> old(Flat(x, y, 0))) <==>
              old(primary.valid != 0 || secondary.valid != 0 ||
                  (RamBit(memory.ram[..], screen, x, y, 0) <==> RamBit(memory.View(), screen, x, y, 0)))
    {
      hide Bit, PlaneAddress, RamBit;
      WriteSecondary();
      WritePrimary();
      EmptyCovers(primary);
      EmptyCovers(secondary);
      ghost var ram, seen := memory.ram[..], memory.View();
      assert RamBit(seen, screen, x, y, 0) <==> old(Flat(x, y, 0)) by {
        assert Flat(x, y, 0) <==> old(Flat(x, y, 0));
      }
      assert if old(primary.valid != 0 || secondary.valid != 0) then ram == seen
             else ram == old(memory.ram[..]) && seen == old(memory.View());
      value := ReadPlanes(x, y);
      assert memory.ram[..] == seen;
    }

    // The planes of a pixel, each read before its access time passes: a store still on its way is missed by
    // the first plane and seen by the others.
    method ReadPlanes(x: nat, y: nat) returns (value: bv8)
      requires Shape() && OnScreen(screen, x, y)
      modifies memory`romDelay, memory`ramDelay, memory`romBuffer, memory`fetchPending, memory.ram
      ensures Valid() && memory.ram[..] == old(memory.View())
      ensures forall p: nat :: p < 8 ==>
                (Bit(value, p) <==> p < screen.bpp && RamBit(if p == 0 then old(memory.ram[..]) else old(memory.View()), screen, x, y, p))
    {
      hide Bit, PlaneAddress, Mask;
      ghost var was, view := memory.ram[..], memory.View();
      value := 0;
      NoneSet();
      var plane: nat := 0;
      while plane < screen.bpp
        invariant plane <= screen.bpp && Shape()
        invariant if plane == 0 then memory.ram[..] == was && memory.View() == view else memory.ram[..] == view && memory.ramDelay == 0
        invariant forall p: nat :: p < 8 ==>
                    (Bit(value, p) <==> p < plane && RamBit(if p == 0 then was else view, screen, x, y, p))
      {
        PlaneInside(screen, x, y, plane);
        ghost var ram := memory.ram[..];
        if Bit(memory.ram[PlaneAddress(screen, x, y, plane)], Slot(x)) {
          assert RamBit(ram, screen, x, y, plane);
          ghost var before := value;
          value := value | Mask(plane);
          forall p: nat | p < 8
            ensures Bit(value, p) <==> p == plane || Bit(before, p)
          {
            BitSet(before, plane, p);
          }
        }
        memory.Step(Access());
        plane := plane + 1;
      }
    }

    // STOP: stores on their way reach RAM first, and a save drains the caches too; only then is the
    // program counter cleared, which is what the host polls. A save that fails leaves it nonzero.
    method Stop(save: bool, saved: bool)
      requires Shape()
      modifies this, memory`romDelay, memory`ramDelay, memory`romBuffer, memory`fetchPending, memory.ram
      ensures Valid() && !running && (r15 == 0 <==> !save || saved) && (saveFailed <==> save && !saved)
      ensures saveFailed ==> r15 == if old(r15) != 0 then old(r15) else 0xFFFF
      ensures !save ==> memory.ram[..] == old(memory.View()) && primary == old(primary) && secondary == old(secondary)
      ensures save ==> primary.valid == 0 && secondary.valid == 0 && memory.romDelay == 0
      ensures SamePicture()
    {
      hide Bit, PlaneAddress, RamBit;
      memory.WaitRam();
      assert SamePicture();
      if save {
        Drain();
        assert SamePicture();
      }
      Halt(save && !saved);
    }

    method Drain()
      requires Valid()
      modifies `primary, `secondary, memory`romDelay, memory`ramDelay, memory`romBuffer, memory`fetchPending, memory.ram
      ensures Valid() && SamePicture() && primary.valid == 0 && secondary.valid == 0 && memory.romDelay == 0
    {
      hide Bit, PlaneAddress, RamBit;
      WriteSecondary();
      WritePrimary();
      memory.WaitRam();
      ghost var ram := memory.ram[..];
      memory.WaitRom();
      assert memory.ram[..] == ram;
    }

    method Halt(failed: bool)
      modifies `running, `saveFailed, `r15
      ensures !running && saveFailed == failed && (r15 == 0 <==> !failed)
      ensures failed ==> r15 == if old(r15) != 0 then old(r15) else 0xFFFF
    {
      running, saveFailed := false, failed;
      r15 := if !failed then 0 else if r15 != 0 then r15 else 0xFFFF;
    }

    // Fill one tile with the clear pattern.
    method FillTile(column: nat, row: nat)
      requires memory.Valid() && column < CLEAR_COLUMNS && row < STRIDE
      modifies memory.ram
      ensures memory.Valid() && memory.ram[..] == Filled(old(memory.ram[..]), column, row)
    {
      var i := 0;
      while i < TILE_SIZE
        invariant 0 <= i <= TILE_SIZE
        invariant forall a :: 0 <= a < RAM_SIZE ==>
                    memory.ram[a] == if TileBase(column, row) <= a < TileBase(column, row) + i then ClearByte(a - TileBase(column, row))
                                     else old(memory.ram[a])
      {
        memory.ram[TileBase(column, row) + i] := ClearByte(i);
        i := i + 1;
      }
    }

    // The tiles of the chosen columns, row by row.
    method FillColumns(first: nat, last: nat)
      requires memory.Valid() && first <= last < CLEAR_COLUMNS
      modifies memory.ram
      ensures memory.Valid()
      ensures forall column: nat, row: nat, i: nat :: column < COLUMNS && row < STRIDE && i < TILE_SIZE ==>
                memory.ram[Byte(column, row, i)] == if first <= column <= last && row < CLEAR_ROWS then ClearByte(i)
                                                    else old(memory.ram[Byte(column, row, i)])
    {
      hide ClearByte;
      var row := 0;
      while row < CLEAR_ROWS
        invariant 0 <= row <= CLEAR_ROWS && memory.Valid()
        invariant FilledTo(old(memory.ram[..]), memory.ram[..], first, last, row, first)
      {
        var column := first;
        while column <= last
          invariant first <= column <= last + 1 && memory.Valid()
          invariant FilledTo(old(memory.ram[..]), memory.ram[..], first, last, row, column)
        {
          FillNext(old(memory.ram[..]), memory.ram[..], first, last, row, column);
          FillTile(column, row);
          column := column + 1;
        }
        row := row + 1;
      }
    }

    // CLEAR: everything pending is written first; then exactly the chosen columns of the visible rows take
    // colour $81, and no other pixel changes.
    method Clear(first: nat, last: nat)
      requires Shape() && screen == Screen(1, 8, 64)
      modifies `primary, `secondary, memory`romDelay, memory`ramDelay, memory`romBuffer, memory`fetchPending, memory.ram
      ensures Shape() && screen == old(screen) && (old(Settled()) ==> Settled())
      ensures !(first <= last < 27) ==> SamePicture()
      ensures first <= last < 27 ==>
                forall x: nat, y: nat, p: nat :: OnScreen(screen, x, y) && p < screen.bpp ==>
                  (Flat(x, y, p) <==> if first <= x / 8 <= last && y < 144 then Bit(0x81, p) else old(Flat(x, y, p)))
    {
      hide Bit, ClearByte, PlaneAddress;
      if first >= CLEAR_COLUMNS || last >= CLEAR_COLUMNS || first > last {
        return;
      }
      memory.WaitRam();
      WriteSecondary();
      WritePrimary();
      EmptyCovers(primary);
      EmptyCovers(secondary);
      ghost var was := memory.ram[..];
      forall x: nat, y: nat, p: nat | OnScreen(screen, x, y) && p < screen.bpp
        ensures RamBit(was, screen, x, y, p) <==> old(Flat(x, y, p))
      {
        assert Flat(x, y, p) <==> old(Flat(x, y, p));
      }
      FillColumns(first, last);
      ghost var now := memory.ram[..];
      forall x: nat, y: nat, p: nat | OnScreen(screen, x, y) && p < screen.bpp
        ensures Flat(x, y, p) <==> if first <= x / 8 <= last && y < CLEAR_ROWS * 8 then Bit(0x81, p) else old(Flat(x, y, p))
      {
        ClearedBit(was, now, x, y, p, first, last);
        assert Flat(x, y, p) <==> RamBit(now, screen, x, y, p);
      }
    }

    // The canvas agrees with what the program is to see.
    ghost predicate Shows(canvas: Canvas)
      requires Shape()
      reads this, memory, memory.ram
    {
      && |canvas.pixels| == WIDTH * WIDTH && canvas.color == color
      && forall x: nat, y: nat, p: nat :: OnScreen(screen, x, y) && p < screen.bpp ==>
           (Flat(x, y, p) <==> Bit(canvas.pixels[Pixel(x, y)], p))
    }

    ghost function Rules(): Settings
      reads this
    {
      Settings(screen, plotTransparent, freezeHigh, dither)
    }

    method ChangeColor(value: bv8)
      requires Shape()
      modifies `color
      ensures Shape() && SamePicture() && color == value
    {
      color := value;
    }

    method PlotOn(x: nat, y: nat, ghost canvas: Canvas)
      requires Shape() && OnScreen(screen, x, y) && Shows(canvas)
      modifies `primary, `secondary, memory`romDelay, memory`ramDelay, memory`romBuffer, memory`fetchPending, memory.ram
      ensures Shape() && Shows(CanvasNext(Rules(), canvas, Plot(x, y))) && (old(Settled()) ==> Settled())
    {
      hide Bit, Flat, Blank, Dithered, Mask, Pixel, Proper, Fits, CacheGood;
      PixelsApart();
      DrawPixel(x, y);
    }

    method ClearOn(first: nat, last: nat, ghost canvas: Canvas)
      requires Shape() && screen == Screen(1, 8, 64) && Shows(canvas)
      modifies `primary, `secondary, memory`romDelay, memory`ramDelay, memory`romBuffer, memory`fetchPending, memory.ram
      ensures Shape() && Shows(CanvasNext(Rules(), canvas, ClearColumns(first, last))) && (old(Settled()) ==> Settled())
    {
      hide Bit, Flat, Mask, Pixel, Proper, Fits, CacheGood, Painted;
      ClearedCanvas(canvas.pixels, first, last);
      Clear(first, last);
    }

    // A read of this pixel sees it as the program is to see it.
    ghost predicate ReadsTrue(x: nat, y: nat)
      requires Shape() && OnScreen(screen, x, y)
      reads this, memory, memory.ram
    {
      Settled() || (RamBit(memory.ram[..], screen, x, y, 0) <==> RamBit(memory.View(), screen, x, y, 0))
    }

    // A read with nothing cached may miss a store that was on its way; every other one sees the canvas.
    method ReadOn(x: nat, y: nat, ghost canvas: Canvas) returns (value: bv8)
      requires Shape() && OnScreen(screen, x, y) && Shows(canvas)
      modifies `primary, `secondary, memory`romDelay, memory`ramDelay, memory`romBuffer, memory`fetchPending, memory.ram
      ensures Valid() && Shows(canvas)
      ensures value == Masked(canvas.pixels[Pixel(x, y)], screen.bpp) <==> old(ReadsTrue(x, y))
    {
      hide Bit, Flat, Blank, Dithered, Mask, Pixel, Fits, CacheGood, RamBit, Masked;
      value := ReadPixel(x, y);
      ReadIs(screen, canvas.pixels[Pixel(x, y)], value);
    }

    // One operation on the caches and RAM is one operation on the canvas.
    method Execute(op: Op, ghost canvas: Canvas) returns (result: seq<bv8>)
      requires Shape() && OpGood(screen, op) && Shows(canvas)
      modifies this, memory`romDelay, memory`ramDelay, memory`romBuffer, memory`fetchPending, memory.ram
      ensures Shape() && Rules() == old(Rules()) && Shows(CanvasNext(old(Rules()), canvas, op))
      ensures result == CanvasResult(old(Rules()), canvas, op) <==> (op.Read? ==> old(ReadsTrue(op.x, op.y)))
      ensures old(Settled()) || op.Read? ==> Settled()
    {
      hide Bit, Flat, Blank, Dithered, Mask, Pixel, Fits, CacheGood;
      result := [];
      match op {
        case SetColor(value) => ChangeColor(value);
        case Plot(x, y) => PlotOn(x, y, canvas);
        case Read(x, y) =>
          var value := ReadOn(x, y, canvas);
          result := [value];
        case ClearColumns(first, last) => ClearOn(first, last, canvas);
      }
    }

    // Over any run the caches, the bit planes and the clears behave as one flat map of pixels. Only a store
    // still on its way when the run begins, with nothing cached, can be missed by the first read.
    method Run(ops: seq<Op>, ghost canvas: Canvas) returns (results: seq<seq<bv8>>)
      requires Shape() && Shows(canvas) && forall op <- ops :: OpGood(screen, op)
      modifies this, memory`romDelay, memory`ramDelay, memory`romBuffer, memory`fetchPending, memory.ram
      ensures Shape() && Rules() == old(Rules()) && Shows(CanvasRun(old(Rules()), canvas, ops).0)
      ensures old(Settled()) ==> Settled() && results == CanvasRun(old(Rules()), canvas, ops).1
    {
      hide Flat, CanvasNext, CanvasResult;
      results := [];
      var i := 0;
      while i < |ops|
        invariant 0 <= i <= |ops| && Shape() && Rules() == old(Rules())
        invariant Shows(CanvasRun(old(Rules()), canvas, ops[..i]).0)
        invariant old(Settled()) ==> Settled() && results == CanvasRun(old(Rules()), canvas, ops[..i]).1
      {
        assert ops[..i + 1][..i] == ops[..i];
        var result := Execute(ops[i], CanvasRun(old(Rules()), canvas, ops[..i]).0);
        results := results + [result];
        i := i + 1;
      }
      assert ops[..i] == ops;
    }
  }

  // Colours a plot leaves out.
  predicate Blank(bpp: nat, freezeHigh: bool, color: bv8) {
    var c := if freezeHigh then color & 0x0F else color;
    if bpp == 2 then c & 0x03 == 0 else if bpp == 4 then c & 0x0F == 0 else c == 0
  }

  // Dithering takes one nibble or the other, as on a chess board.
  function Dithered(bpp: nat, dither: bool, color: bv8, x: nat, y: nat): bv8 {
    if dither && bpp != 8 then (if (x + y) % 2 == 1 then color >> 4 else color) & 0x0F else color
  }

  // Even places of the chess board take the lower nibble of the colour, odd ones the upper.
  lemma DitherBoard(bpp: nat, dither: bool, color: bv8, x: nat, y: nat)
    ensures Dithered(bpp, dither, color, x, y) as nat ==
            if !dither || bpp == 8 then color as nat
            else if x % 2 == y % 2 then color as nat % 16 else color as nat / 16
  {
    Nibbles(color);
  }

  lemma Nibbles(color: bv8)
    ensures (color & 0x0F) as nat == color as nat % 16 && ((color >> 4) & 0x0F) as nat == color as nat / 16
  {}

  // Transparent are the colours whose visible bits are zero; with the upper nibble frozen only the lower one counts.
  lemma BlankColors(bpp: nat, freezeHigh: bool, color: bv8)
    requires bpp == 2 || bpp == 4 || bpp == 8
    ensures Blank(bpp, freezeHigh, color) <==>
            color as nat % (if bpp == 2 then 4 else if bpp == 4 || freezeHigh then 16 else 256) == 0
  {
    Nibbles(color);
    TwoBits(color);
  }

  lemma TwoBits(color: bv8)
    ensures (color & 0x03) as nat == color as nat % 4 && (color & 0x0F) & 0x03 == color & 0x03
    ensures (color & 0x0F) & 0x0F == color & 0x0F
  {}

  // The flat picture: one colour a pixel.
  datatype Canvas = Canvas(pixels: seq<bv8>, color: bv8)
  datatype Settings = Settings(screen: Screen, plotTransparent: bool, freezeHigh: bool, dither: bool)
  datatype Op = SetColor(color: bv8) | Plot(x: nat, y: nat) | Read(x: nat, y: nat) | ClearColumns(first: nat, last: nat)

  predicate OpGood(s: Screen, op: Op) {
    match op
    case SetColor(_) => true
    case Plot(x, y) => OnScreen(s, x, y)
    case Read(x, y) => OnScreen(s, x, y)
    case ClearColumns(_, _) => s == Screen(1, 8, 64)
  }

  function Pixel(x: nat, y: nat): (i: nat)
    ensures x < WIDTH && y < WIDTH ==> i < WIDTH * WIDTH
  {
    y * WIDTH + x
  }

  lemma PixelsApart()
    ensures forall x: nat, y: nat, x': nat, y': nat :: x < WIDTH && x' < WIDTH && Pixel(x, y) == Pixel(x', y') ==> x == x' && y == y'
  {}

  // The depth's share of a colour.
  function Masked(color: bv8, bpp: nat): bv8 {
    if bpp == 2 then color & 0x03 else if bpp == 4 then color & 0x0F else color
  }

  ghost function Painted(pixels: seq<bv8>, first: nat, last: nat): (r: seq<bv8>)
    ensures |r| == |pixels|
  {
    if first <= last < 27 then
      seq(|pixels|, i requires 0 <= i < |pixels| =>
        if first <= i % WIDTH / 8 <= last && i / WIDTH < 144 then 0x81 else pixels[i])
    else pixels
  }

  ghost function CanvasNext(rules: Settings, canvas: Canvas, op: Op): (r: Canvas)
    requires |canvas.pixels| == WIDTH * WIDTH && OpGood(rules.screen, op)
    ensures |r.pixels| == WIDTH * WIDTH
  {
    match op
    case SetColor(color) => canvas.(color := color)
    case Plot(x, y) =>
      if !rules.plotTransparent && Blank(rules.screen.bpp, rules.freezeHigh, canvas.color) then canvas
      else canvas.(pixels := canvas.pixels[Pixel(x, y) := Dithered(rules.screen.bpp, rules.dither, canvas.color, x, y)])
    case Read(_, _) => canvas
    case ClearColumns(first, last) => canvas.(pixels := Painted(canvas.pixels, first, last))
  }

  ghost function CanvasResult(rules: Settings, canvas: Canvas, op: Op): seq<bv8>
    requires |canvas.pixels| == WIDTH * WIDTH && OpGood(rules.screen, op)
  {
    if op.Read? then [Masked(canvas.pixels[Pixel(op.x, op.y)], rules.screen.bpp)] else []
  }

  ghost function CanvasRun(rules: Settings, canvas: Canvas, ops: seq<Op>): (r: (Canvas, seq<seq<bv8>>))
    requires |canvas.pixels| == WIDTH * WIDTH && forall op <- ops :: OpGood(rules.screen, op)
    ensures |r.0.pixels| == WIDTH * WIDTH
  {
    if ops == [] then (canvas, [])
    else
      var before, op := CanvasRun(rules, canvas, ops[..|ops| - 1]), ops[|ops| - 1];
      (CanvasNext(rules, before.0, op), before.1 + [CanvasResult(rules, before.0, op)])
  }

  lemma ReadIs(s: Screen, color: bv8, value: bv8)
    requires Proper(s)
    requires forall p: nat :: 0 < p < 8 ==> (Bit(value, p) <==> p < s.bpp && Bit(color, p))
    ensures value == Masked(color, s.bpp) <==> (Bit(value, 0) <==> Bit(color, 0))
  {
    hide Bit, Masked;
    forall p: nat | p < 8
      ensures Bit(Masked(color, s.bpp), p) <==> p < s.bpp && Bit(color, p)
    {
      MaskedBit(color, s.bpp, p);
    }
    if Bit(value, 0) <==> Bit(color, 0) {
      SameBits(value, Masked(color, s.bpp));
    }
  }

  lemma MaskedBit(color: bv8, bpp: nat, p: nat)
    requires (bpp == 2 || bpp == 4 || bpp == 8) && p < 8
    ensures Bit(Masked(color, bpp), p) <==> p < bpp && Bit(color, p)
  {}

  lemma ClearedCanvas(pixels: seq<bv8>, first: nat, last: nat)
    requires |pixels| == WIDTH * WIDTH
    ensures forall x: nat, y: nat :: x < WIDTH && y < WIDTH ==>
              Painted(pixels, first, last)[Pixel(x, y)] ==
              if first <= last < 27 && first <= x / 8 <= last && y < 144 then 0x81 else pixels[Pixel(x, y)]
  {
    forall x: nat, y: nat | x < WIDTH && y < WIDTH
      ensures Pixel(x, y) % WIDTH == x && Pixel(x, y) / WIDTH == y
    {}
  }

  const STRIDE := 20
  const COLUMNS := 32
  const CLEAR_COLUMNS := 27
  const CLEAR_ROWS := 18
  const TILE_SIZE := 64
  const PLANAR_BASE := 0x1_0000

  // The clear pattern: planes 0 and 7 set, the others clear.
  function ClearByte(i: nat): bv8 {
    if i < 16 then (if i % 2 == 0 then 0xFF else 0)
    else if i < 48 then 0
    else if i % 2 == 0 then 0 else 0xFF
  }

  function TileBase(column: nat, row: nat): nat {
    PLANAR_BASE + (column * STRIDE + row) * TILE_SIZE
  }

  function Byte(column: nat, row: nat, i: nat): (a: nat)
    requires column < COLUMNS && row < STRIDE && i < TILE_SIZE
    ensures a < RAM_SIZE
  {
    TileBase(column, row) + i
  }

  ghost function Filled(ram: seq<bv8>, column: nat, row: nat): (r: seq<bv8>)
    requires |ram| == RAM_SIZE
    ensures |r| == RAM_SIZE
  {
    seq(RAM_SIZE, a requires 0 <= a < RAM_SIZE && |ram| == RAM_SIZE =>
      if TileBase(column, row) <= a < TileBase(column, row) + TILE_SIZE then ClearByte(a - TileBase(column, row)) else ram[a])
  }

  // The rows above row are filled in the chosen columns, and row itself up to column end.
  ghost predicate FilledTo(was: seq<bv8>, now: seq<bv8>, first: nat, last: nat, row: nat, end: nat) {
    && |was| == |now| == RAM_SIZE
    && forall c: nat, r: nat, i: nat :: c < COLUMNS && r < STRIDE && i < TILE_SIZE ==>
         now[Byte(c, r, i)] == if first <= c <= last && (r < row || (r == row && c < end)) then ClearByte(i) else was[Byte(c, r, i)]
  }

  lemma TilesApart(c: nat, r: nat, i: nat, c': nat, r': nat)
    requires c < COLUMNS && r < STRIDE && i < TILE_SIZE && c' < COLUMNS && r' < STRIDE
    requires TileBase(c', r') <= Byte(c, r, i) < TileBase(c', r') + TILE_SIZE
    ensures c == c' && r == r'
  {}

  lemma FillNext(was: seq<bv8>, now: seq<bv8>, first: nat, last: nat, row: nat, column: nat)
    requires FilledTo(was, now, first, last, row, column) && first <= column <= last < CLEAR_COLUMNS && row < CLEAR_ROWS
    ensures FilledTo(was, Filled(now, column, row), first, last, row, column + 1)
  {
    hide ClearByte;
    var next := Filled(now, column, row);
    forall c: nat, r: nat, i: nat | c < COLUMNS && r < STRIDE && i < TILE_SIZE
      ensures next[Byte(c, r, i)] == if c == column && r == row then ClearByte(i) else now[Byte(c, r, i)]
    {
      if TileBase(column, row) <= Byte(c, r, i) < TileBase(column, row) + TILE_SIZE {
        TilesApart(c, r, i, column, row);
      }
    }
  }

  // Where a plane byte of the cleared screen sits in its tile, and what the pattern puts there.
  lemma PatternBit(row: nat, p: nat, k: nat)
    requires row < 8 && p < 8 && k < 8
    ensures row * 2 + p / 2 * 16 + p % 2 < TILE_SIZE
    ensures Bit(ClearByte(row * 2 + p / 2 * 16 + p % 2), k) <==> Bit(0x81, p)
  {
    NoBits(k);
    hide Bit;
    assert Bit(0x81, p) <==> p == 0 || p == 7 by {
      PatternColor(p);
    }
  }

  lemma PatternColor(p: nat)
    requires p < 8
    ensures Bit(0x81, p) <==> p == 0 || p == 7
  {}

  lemma ClearedBit(was: seq<bv8>, now: seq<bv8>, x: nat, y: nat, p: nat, first: nat, last: nat)
    requires |was| == |now| == RAM_SIZE && OnScreen(Screen(1, 8, 64), x, y) && p < 8
    requires forall column: nat, row: nat, i: nat :: column < COLUMNS && row < STRIDE && i < TILE_SIZE ==>
               now[Byte(column, row, i)] == if first <= column <= last && row < CLEAR_ROWS then ClearByte(i) else was[Byte(column, row, i)]
    ensures RamBit(now, Screen(1, 8, 64), x, y, p) <==>
            if first <= x / 8 <= last && y < CLEAR_ROWS * 8 then Bit(0x81, p) else RamBit(was, Screen(1, 8, 64), x, y, p)
  {
    PatternBit(y % 8, p, Slot(x));
    var i := y % 8 * 2 + p / 2 * 16 + p % 2;
    assert PlaneAddress(Screen(1, 8, 64), x, y, p) == Byte(x / 8, y / 8, i);
    hide Bit, ClearByte;
  }

  lemma EmptyCovers(c: PixelCache)
    requires c.valid == 0
    ensures forall x: nat, y: nat :: !Covers(c, x, y)
  {
    forall x: nat, y: nat
      ensures !Covers(c, x, y)
    {
      NoBits(Slot(x));
    }
  }

  lemma PlaneMerged(c: PixelCache, p: nat, was: bv8, value: bv8)
    requires |c.pixels| == 8 && p < 8 && forall j: nat :: j < 8 ==> (Bit(value, j) <==> Bit(c.pixels[j], p))
    ensures PlaneWritten(c, p, was, if c.valid != 0xFF then Merge(value, was, c.valid) else value)
  {
    hide Bit, Merge;
    forall j: nat | j < 8
      ensures Bit(Merge(value, was, c.valid), j) <==> if Bit(c.valid, j) then Bit(value, j) else Bit(was, j)
      ensures Bit(0xFF, j)
    {
      NoBits(j);
      MergeBit(value, was, c.valid, j);
    }
  }

  lemma NoneSet()
    ensures forall j: nat :: j < 8 ==> !Bit(0, j)
  {
    forall j: nat | j < 8
      ensures !Bit(0, j)
    {
      NoBits(j);
    }
  }

  lemma NothingWritten(s: Screen, c: PixelCache, was: seq<bv8>)
    requires Proper(s) && Fits(s) && OnScreen(s, c.x, c.y) && |c.pixels| == 8 && |was| == RAM_SIZE
    ensures RowWritten(s, c, was, was, 0)
  {}
}
