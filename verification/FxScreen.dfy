/** Where the coprocessor's pixels live (src/fx/fx_graphics.cpp): bit-planar rows of eight pixels in tiles,
  * laid out by screen mode. */
module FxScreen {
  import opened Arithmetic

  const RAM_SIZE := 0x2_0000
  const WIDTH := 256

  // The byte with only bit k set.
  function Mask(k: nat): bv8
    requires k < 8
  {
    if k == 0 then 1 else if k == 1 then 2 else if k == 2 then 4 else if k == 3 then 8
    else if k == 4 then 16 else if k == 5 then 32 else if k == 6 then 64 else 128
  }

  predicate Bit(v: bv8, k: nat)
    requires k < 8
  {
    v & Mask(k) != 0
  }

  lemma BitSet(v: bv8, k: nat, j: nat)
    requires k < 8 && j < 8
    ensures Bit(v | Mask(k), j) <==> j == k || Bit(v, j)
  {}

  lemma NoBits(j: nat)
    requires j < 8
    ensures !Bit(0, j) && Bit(0xFF, j)
  {}

  // What valid bits select from a new byte, and the others keep.
  function Merge(value: bv8, kept: bv8, valid: bv8): bv8 {
    (value & valid) | (kept & !valid)
  }

  lemma MergeBit(value: bv8, kept: bv8, valid: bv8, j: nat)
    requires j < 8
    ensures Bit(Merge(value, kept, valid), j) <==> if Bit(valid, j) then Bit(value, j) else Bit(kept, j)
  {}

  lemma SameBits(a: bv8, b: bv8)
    requires forall j: nat :: j < 8 ==> (Bit(a, j) <==> Bit(b, j))
    ensures a == b
  {
    assert Bit(a, 0) <==> Bit(b, 0);
    assert Bit(a, 1) <==> Bit(b, 1);
    assert Bit(a, 2) <==> Bit(b, 2);
    assert Bit(a, 3) <==> Bit(b, 3);
    assert Bit(a, 4) <==> Bit(b, 4);
    assert Bit(a, 5) <==> Bit(b, 5);
    assert Bit(a, 6) <==> Bit(b, 6);
    assert Bit(a, 7) <==> Bit(b, 7);
  }

  // Screen height mode (3 is object mode), depth, and base in kilobytes.
  datatype Screen = Screen(mode: nat, bpp: nat, base: nat)

  predicate Proper(s: Screen) {
    s.mode <= 3 && (s.bpp == 2 || s.bpp == 4 || s.bpp == 8)
  }

  function Height(s: Screen): nat {
    match s.mode case 0 => 128 case 1 => 160 case 2 => 192 case _ => 256
  }

  function Tiles(s: Screen): nat {
    match s.mode case 0 => 512 case 1 => 640 case 2 => 768 case _ => 1024
  }

  // The tile of a pixel; column and row count tiles.
  function TileIndex(s: Screen, x: nat, y: nat): nat {
    var column, row := x / 8, y / 8;
    match s.mode
    case 0 => column * 16 + row
    case 1 => column * 20 + row
    case 2 => column * 24 + row
    case _ => row / 16 * 512 + column / 16 * 256 + row % 16 * 16 + column % 16
  }

  function TileAddress(s: Screen, x: nat, y: nat): nat {
    s.base * 1024 + TileIndex(s, x, y) * (s.bpp * 8) + y % 8 * 2
  }

  // The byte of one bit plane of a row of eight pixels.
  function PlaneAddress(s: Screen, x: nat, y: nat, plane: nat): nat {
    TileAddress(s, x, y) + plane / 2 * 16 + plane % 2
  }

  predicate OnScreen(s: Screen, x: nat, y: nat) {
    x < WIDTH && y < Height(s)
  }

  // Bit 0 is the lowest, bit 7 the highest.
  lemma BitIsDigit(v: bv8)
    ensures var n := v as nat;
            && (Bit(v, 0) <==> n % 2 == 1) && (Bit(v, 1) <==> n / 2 % 2 == 1)
            && (Bit(v, 2) <==> n / 4 % 2 == 1) && (Bit(v, 3) <==> n / 8 % 2 == 1)
            && (Bit(v, 4) <==> n / 16 % 2 == 1) && (Bit(v, 5) <==> n / 32 % 2 == 1)
            && (Bit(v, 6) <==> n / 64 % 2 == 1) && (Bit(v, 7) <==> n / 128 % 2 == 1)
  {
    hide Bit, Mask;
    BitsSpell(v);
    BitsOf(v, v as nat);
  }

  lemma BitsOf(v: bv8, n: nat)
    requires n == Digit(v, 0) + 2 * Digit(v, 1) + 4 * Digit(v, 2) + 8 * Digit(v, 3) +
                  16 * Digit(v, 4) + 32 * Digit(v, 5) + 64 * Digit(v, 6) + 128 * Digit(v, 7)
    ensures (Bit(v, 0) <==> n % 2 == 1) && (Bit(v, 1) <==> n / 2 % 2 == 1)
    ensures (Bit(v, 2) <==> n / 4 % 2 == 1) && (Bit(v, 3) <==> n / 8 % 2 == 1)
    ensures (Bit(v, 4) <==> n / 16 % 2 == 1) && (Bit(v, 5) <==> n / 32 % 2 == 1)
    ensures (Bit(v, 6) <==> n / 64 % 2 == 1) && (Bit(v, 7) <==> n / 128 % 2 == 1)
  {
    hide Bit, Mask;
    DigitsOf(n, Digit(v, 0), Digit(v, 1), Digit(v, 2), Digit(v, 3), Digit(v, 4), Digit(v, 5), Digit(v, 6), Digit(v, 7));
  }

  lemma DigitsOf(n: nat, a: nat, b: nat, c: nat, d: nat, e: nat, f: nat, g: nat, h: nat)
    requires a < 2 && b < 2 && c < 2 && d < 2 && e < 2 && f < 2 && g < 2 && h < 2
    requires n == a + 2 * b + 4 * c + 8 * d + 16 * e + 32 * f + 64 * g + 128 * h
    ensures n / 1 % 2 == a && n / 2 % 2 == b && n / 4 % 2 == c && n / 8 % 2 == d
    ensures n / 16 % 2 == e && n / 32 % 2 == f && n / 64 % 2 == g && n / 128 % 2 == h
  {
    PlaceOf(n, 0, 1, a, b + 2 * c + 4 * d + 8 * e + 16 * f + 32 * g + 64 * h);
    PlaceOf(n, a, 2, b, c + 2 * d + 4 * e + 8 * f + 16 * g + 32 * h);
    PlaceOf(n, a + 2 * b, 4, c, d + 2 * e + 4 * f + 8 * g + 16 * h);
    PlaceOf(n, a + 2 * b + 4 * c, 8, d, e + 2 * f + 4 * g + 8 * h);
    PlaceOf(n, a + 2 * b + 4 * c + 8 * d, 16, e, f + 2 * g + 4 * h);
    PlaceOf(n, a + 2 * b + 4 * c + 8 * d + 16 * e, 32, f, g + 2 * h);
    PlaceOf(n, a + 2 * b + 4 * c + 8 * d + 16 * e + 32 * f, 64, g, h);
    PlaceOf(n, a + 2 * b + 4 * c + 8 * d + 16 * e + 32 * f + 64 * g, 128, h, 0);
  }

  // The binary digit that counts p.
  lemma PlaceOf(n: nat, low: nat, p: nat, digit: nat, high: nat)
    requires low < p && digit < 2 && n == low + p * digit + 2 * p * high
    ensures n / p % 2 == digit
  {
    var q := digit + 2 * high;
    assert q * p == p * digit + 2 * p * high;
    DivModUnique(p, q, low);
  }

  function Digit(v: bv8, k: nat): nat
    requires k < 8
  {
    if Bit(v, k) then 1 else 0
  }

  lemma BitsSpell(v: bv8)
    ensures v as nat == Digit(v, 0) + 2 * Digit(v, 1) + 4 * Digit(v, 2) + 8 * Digit(v, 3) +
                        16 * Digit(v, 4) + 32 * Digit(v, 5) + 64 * Digit(v, 6) + 128 * Digit(v, 7)
  {}

  // The tiles of a column follow each other, and the next column begins where the mode's height ends; in object
  // mode the rows of a quarter of 16 by 16 tiles follow each other, and so do the quarters.
  lemma TileOrder(s: Screen, column: nat, row: nat)
    requires Proper(s) && column < 32 && row < Height(s) / 8
    ensures TileIndex(s, 0, 0) == 0
    ensures s.mode < 3 ==> TileIndex(s, 8 * column, 8 * (row + 1)) == TileIndex(s, 8 * column, 8 * row) + 1
    ensures s.mode < 3 ==> TileIndex(s, 8 * (column + 1), 8 * row) == TileIndex(s, 8 * column, 8 * row) + Height(s) / 8
    ensures s.mode == 3 && column % 16 < 15 ==> TileIndex(s, 8 * (column + 1), 8 * row) == TileIndex(s, 8 * column, 8 * row) + 1
    ensures s.mode == 3 && row % 16 < 15 ==> TileIndex(s, 8 * column, 8 * (row + 1)) == TileIndex(s, 8 * column, 8 * row) + 16
    ensures s.mode == 3 ==> TileIndex(s, 8 * (column + 16), 8 * row) == TileIndex(s, 8 * column, 8 * row) + 256
    ensures s.mode == 3 ==> TileIndex(s, 8 * column, 8 * (row + 16)) == TileIndex(s, 8 * column, 8 * row) + 512
  {
    TileAt(s, column, row);
    TileAt(s, column + 1, row);
    TileAt(s, column, row + 1);
    TileAt(s, column + 16, row);
    TileAt(s, column, row + 16);
    hide TileIndex;
    if s.mode == 3 {
      Quarter(column);
      Quarter(row);
    }
  }

  lemma TileAt(s: Screen, column: nat, row: nat)
    ensures TileIndex(s, 8 * column, 8 * row) ==
            match s.mode
            case 0 => column * 16 + row
            case 1 => column * 20 + row
            case 2 => column * 24 + row
            case _ => row / 16 * 512 + column / 16 * 256 + row % 16 * 16 + column % 16
  {
    assert 8 * column / 8 == column && 8 * row / 8 == row;
  }

  lemma Quarter(n: nat)
    ensures (n + 16) / 16 == n / 16 + 1 && (n + 16) % 16 == n % 16
    ensures n % 16 < 15 ==> (n + 1) / 16 == n / 16 && (n + 1) % 16 == n % 16 + 1
  {}

  // The bytes of a tile: two planes of a row side by side, the rows of a pair of planes in sixteen bytes, as the
  // picture processor of the SNES reads them.
  lemma TileBytes(s: Screen, x: nat, y: nat, plane: nat)
    ensures PlaneAddress(s, 0, 0, 0) == s.base * 1024 + TileIndex(s, 0, 0) * (s.bpp * 8)
    ensures y % 8 < 7 && TileIndex(s, x, y + 1) == TileIndex(s, x, y) ==> PlaneAddress(s, x, y + 1, plane) == PlaneAddress(s, x, y, plane) + 2
    ensures plane % 2 == 0 ==> PlaneAddress(s, x, y, plane + 1) == PlaneAddress(s, x, y, plane) + 1
    ensures PlaneAddress(s, x, y, plane + 2) == PlaneAddress(s, x, y, plane) + 16
  {
    hide TileIndex;
  }

  // The frame of FX3: columns of twenty tiles of eight planes from $10000 on.
  lemma Fx3Frame(x: nat, y: nat, plane: nat)
    requires x < WIDTH && y < 160 && plane < 8
    ensures PlaneAddress(Screen(1, 8, 64), x, y, plane) ==
            0x1_0000 + (x / 8 * 20 + y / 8) * 64 + y % 8 * 2 + plane / 2 * 16 + plane % 2
  {}

  // The whole frame lies in RAM.
  predicate Fits(s: Screen) {
    s.base * 1024 + Tiles(s) * (s.bpp * 8) <= RAM_SIZE
  }

  lemma TileInside(s: Screen, x: nat, y: nat)
    requires Proper(s) && OnScreen(s, x, y)
    ensures TileIndex(s, x, y) < Tiles(s)
  {}

  // Below the mode's height, a tile belongs to one column and one row,
  lemma TileApart(s: Screen, x: nat, y: nat, x': nat, y': nat)
    requires Proper(s) && OnScreen(s, x, y) && OnScreen(s, x', y') && TileIndex(s, x, y) == TileIndex(s, x', y')
    ensures x / 8 == x' / 8 && y / 8 == y' / 8
  {
    if s.mode == 3 {
      ObjectApart(x / 8, y / 8, x' / 8, y' / 8);
    }
  }

  lemma ObjectApart(column: nat, row: nat, column': nat, row': nat)
    requires column < 32 && row < 32 && column' < 32 && row' < 32
    requires row / 16 * 512 + column / 16 * 256 + row % 16 * 16 + column % 16 ==
             row' / 16 * 512 + column' / 16 * 256 + row' % 16 * 16 + column' % 16
    ensures column == column' && row == row'
  {
    Digits(row / 16, column / 16, row % 16, column % 16, row' / 16, column' / 16, row' % 16, column' % 16);
  }

  lemma Digits(a: nat, b: nat, c: nat, d: nat, a': nat, b': nat, c': nat, d': nat)
    requires b < 2 && b' < 2 && c < 16 && c' < 16 && d < 16 && d' < 16
    requires a * 512 + b * 256 + c * 16 + d == a' * 512 + b' * 256 + c' * 16 + d'
    ensures a == a' && b == b' && c == c' && d == d'
  {}

  // a byte of a tile to one row of it and one plane,
  lemma PlaceApart(bpp: nat, t: nat, row: nat, plane: nat, t': nat, row': nat, plane': nat)
    requires bpp == 2 || bpp == 4 || bpp == 8
    requires row < 8 && row' < 8 && plane < bpp && plane' < bpp
    requires t * (bpp * 8) + row * 2 + plane / 2 * 16 + plane % 2 == t' * (bpp * 8) + row' * 2 + plane' / 2 * 16 + plane' % 2
    ensures t == t' && row == row' && plane == plane'
  {
    RowApart(row, plane, row', plane');
    InTile(bpp, row, plane);
    InTile(bpp, row', plane');
    SplitApart(bpp * 8, t, row * 2 + plane / 2 * 16 + plane % 2, t', row' * 2 + plane' / 2 * 16 + plane' % 2);
  }

  lemma InTile(bpp: nat, row: nat, plane: nat)
    requires (bpp == 2 || bpp == 4 || bpp == 8) && row < 8 && plane < bpp
    ensures row * 2 + plane / 2 * 16 + plane % 2 < bpp * 8
  {}

  lemma SplitApart(n: nat, t: nat, low: nat, t': nat, low': nat)
    requires low < n && low' < n && t * n + low == t' * n + low'
    ensures t == t' && low == low'
  {
    DivModUnique(n, t, low);
    DivModUnique(n, t', low');
  }

  lemma RowApart(row: nat, plane: nat, row': nat, plane': nat)
    requires row < 8 && row' < 8 && plane < 8 && plane' < 8
    ensures row * 2 + plane / 2 * 16 + plane % 2 == row' * 2 + plane' / 2 * 16 + plane' % 2 ==> row == row' && plane == plane'
  {}

  // and so a byte of the frame to one row of eight pixels and one plane.
  lemma PlanesApart(s: Screen, x: nat, y: nat, plane: nat, x': nat, y': nat, plane': nat)
    requires Proper(s) && OnScreen(s, x, y) && OnScreen(s, x', y') && plane < s.bpp && plane' < s.bpp
    requires PlaneAddress(s, x, y, plane) == PlaneAddress(s, x', y', plane')
    ensures x / 8 == x' / 8 && y == y' && plane == plane'
  {
    PlaceApart(s.bpp, TileIndex(s, x, y), y % 8, plane, TileIndex(s, x', y'), y' % 8, plane');
    TileApart(s, x, y, x', y');
  }

  lemma PlaneInside(s: Screen, x: nat, y: nat, plane: nat)
    requires Proper(s) && Fits(s) && OnScreen(s, x, y) && plane < s.bpp
    ensures PlaneAddress(s, x, y, plane) < RAM_SIZE
  {
    hide TileIndex, Tiles;
    TileInside(s, x, y);
    var t, n := TileIndex(s, x, y), Tiles(s);
    assert t * (s.bpp * 8) + s.bpp * 8 <= n * (s.bpp * 8);
  }

  // Only the row of eight a pixel is in matters to its address.
  lemma SameRow(s: Screen, x: nat, y: nat, plane: nat)
    ensures PlaneAddress(s, x / 8 * 8, y, plane) == PlaneAddress(s, x, y, plane)
  {}
}
