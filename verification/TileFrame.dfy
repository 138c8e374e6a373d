/** How src/tools/make_fx3_video.py turns a picture of sixteen colours into a frame: tiles of eight by eight
  * pixels in four bit planes, no tile twice, not even mirrored, and a map that says which goes where. What the
  * console draws from the frame is the picture. */
module TileFrame {
  import opened Bytes
  import opened LittleEndian
  import opened Movie
  import FxScreen

  const WIDTH := 256
  const HEIGHT := 224
  const COLUMNS := 32
  const ROWS := 28

  // Eight rows of eight pixels, each a colour number.
  type Tile = t: seq<nat> | |t| == 64 && forall i :: 0 <= i < 64 ==> t[i] < 16
    witness seq(64, _ => 0)

  // Bit k of a number.
  function Bit(v: nat, k: nat): (b: nat)
    ensures b < 2
  {
    if k == 0 then v % 2 else Bit(v / 2, k - 1)
  }

  // What a pixel counts in its row of a plane: the leftmost is the highest bit.
  function Weight(x: nat): nat
    requires x < 8
  {
    if x == 0 then 128 else Weight(x - 1) / 2
  }

  // One plane of the first n pixels of a row.
  function RowBits(t: Tile, y: nat, plane: nat, n: nat): nat
    requires y < 8 && n <= 8
  {
    if n == 0 then 0 else RowBits(t, y, plane, n - 1) + Bit(t[y * 8 + n - 1], plane) * Weight(n - 1)
  }

  // What the console makes of 32 tile bytes at a pixel: a bit of every plane.
  function Shown(bytes: seq<byte>, x: nat, y: nat): nat
    requires |bytes| == 32 && x < 8 && y < 8
  {
    Bit(bytes[y * 2], 7 - x) + 2 * Bit(bytes[y * 2 + 1], 7 - x)
    + 4 * Bit(bytes[y * 2 + 16], 7 - x) + 8 * Bit(bytes[y * 2 + 17], 7 - x)
  }

  lemma Weights()
    ensures Weight(0) == 128 && Weight(1) == 64 && Weight(2) == 32 && Weight(3) == 16
    ensures Weight(4) == 8 && Weight(5) == 4 && Weight(6) == 2 && Weight(7) == 1
  {
    assert Weight(4) == 8;
  }

  lemma {:induction false} RowBelow(t: Tile, y: nat, plane: nat, n: nat)
    requires y < 8 && n <= 8
    ensures RowBits(t, y, plane, n) <= 256 - Left(n)
  {
    hide Bit;
    if n > 0 {
      RowBelow(t, y, plane, n - 1);
      Halving(n);
      assert Bit(t[y * 8 + n - 1], plane) * Weight(n - 1) <= Weight(n - 1);
    }
  }

  // What the rest of a row can count, and one.
  function Left(n: nat): nat
    requires n <= 8
  {
    if n == 0 then 256 else Weight(n - 1)
  }

  lemma Halving(n: nat)
    requires 0 < n <= 8
    ensures Left(n - 1) == 2 * Weight(n - 1) && 0 < Left(n)
  {
    Weights();
  }

  // The row and the plane of tile byte i.
  function RowOf(i: nat): nat {
    i % 16 / 2
  }

  function PlaneOf(i: nat): nat {
    i / 16 * 2 + i % 2
  }

  // How many pixels of its row byte i has, once all rows before y are done, and x pixels of row y in all
  // planes, and one more in the first planes.
  function Done(i: nat, y: nat, x: nat, planes: nat): nat {
    if RowOf(i) < y then 8 else if RowOf(i) > y then 0 else if PlaneOf(i) < planes then x + 1 else x
  }

  ghost predicate Packed(out: seq<byte>, t: Tile, y: nat, x: nat, planes: nat)
    requires x <= 8 && (x == 8 ==> planes == 0)
  {
    |out| == 32 && forall i: nat :: i < 32 ==> out[i] as nat == RowBits(t, RowOf(i), PlaneOf(i), Done(i, y, x, planes))
  }

  // The tile as the console keeps it. A bit is set where none has been, so setting it adds its weight.
  method Planar(t: Tile) returns (out: seq<byte>)
    ensures Packed(out, t, 8, 0, 0)
  {
    hide RowBits, Bit, Weight;
    out := Repeat(0, 32);
    var y := 0;
    Nothing(out, t);
    while y < 8
      invariant 0 <= y <= 8 && Packed(out, t, y, 0, 0)
    {
      var x := 0;
      while x < 8
        invariant 0 <= x <= 8 && Packed(out, t, y, x, 0)
      {
        var plane := 0;
        while plane < 4
          invariant 0 <= plane <= 4 && Packed(out, t, y, x, plane)
        {
          out := SetBit(out, t, y, x, plane);
          plane := plane + 1;
        }
        x := x + 1;
      }
      y := y + 1;
    }
  }

  method SetBit(out: seq<byte>, t: Tile, y: nat, x: nat, plane: nat) returns (out': seq<byte>)
    requires y < 8 && x < 8 && plane < 4 && Packed(out, t, y, x, plane)
    ensures Packed(out', t, y, x, plane + 1)
  {
    hide RowBits, Weight, Bit, RowOf, PlaneOf;
    var k := plane / 2 * 16 + y * 2 + plane % 2;
    OneMore(t, y, plane, x);
    Places(y, plane);
    assert out[k] as nat == RowBits(t, y, plane, x);
    out' := out[k := out[k] + Bit(t[y * 8 + x], plane) * Weight(x)];
  }

  // The byte of one row and plane, and no other.
  lemma Places(y: nat, plane: nat)
    requires y < 8 && plane < 4
    ensures var k := plane / 2 * 16 + y * 2 + plane % 2;
            k < 32 && forall i: nat :: i < 32 ==> (RowOf(i) == y && PlaneOf(i) == plane <==> i == k)
  {}

  lemma OneMore(t: Tile, y: nat, plane: nat, x: nat)
    requires y < 8 && x < 8
    ensures RowBits(t, y, plane, x + 1) == RowBits(t, y, plane, x) + Bit(t[y * 8 + x], plane) * Weight(x) < 256
  {
    RowBelow(t, y, plane, x + 1);
    Halving(x + 1);
  }

  lemma Nothing(out: seq<byte>, t: Tile)
    requires out == Repeat(0, 32)
    ensures Packed(out, t, 0, 0, 0)
  {}

  // A row byte is the eight bits.
  lemma RowSpelled(t: Tile, y: nat, plane: nat)
    requires y < 8
    ensures var r := y * 8;
            RowBits(t, y, plane, 8) == 128 * Bit(t[r], plane) + 64 * Bit(t[r + 1], plane) + 32 * Bit(t[r + 2], plane)
                                       + 16 * Bit(t[r + 3], plane) + 8 * Bit(t[r + 4], plane) + 4 * Bit(t[r + 5], plane)
                                       + 2 * Bit(t[r + 6], plane) + Bit(t[r + 7], plane)
  {
    hide Bit, Weight;
    Weights();
    assert RowBits(t, y, plane, 4) == RowBits(t, y, plane, 3) + Bit(t[y * 8 + 3], plane) * Weight(3);
    assert RowBits(t, y, plane, 3) == RowBits(t, y, plane, 2) + Bit(t[y * 8 + 2], plane) * Weight(2);
    assert RowBits(t, y, plane, 2) == RowBits(t, y, plane, 1) + Bit(t[y * 8 + 1], plane) * Weight(1);
    assert RowBits(t, y, plane, 1) == RowBits(t, y, plane, 0) + Bit(t[y * 8 + 0], plane) * Weight(0);
    assert RowBits(t, y, plane, 8) == RowBits(t, y, plane, 7) + Bit(t[y * 8 + 7], plane) * Weight(7);
    assert RowBits(t, y, plane, 7) == RowBits(t, y, plane, 6) + Bit(t[y * 8 + 6], plane) * Weight(6);
    assert RowBits(t, y, plane, 6) == RowBits(t, y, plane, 5) + Bit(t[y * 8 + 5], plane) * Weight(5);
    assert RowBits(t, y, plane, 5) == RowBits(t, y, plane, 4) + Bit(t[y * 8 + 4], plane) * Weight(4);
  }

  lemma BitIs(v: nat)
    ensures Bit(v, 0) == v / 1 % 2 && Bit(v, 1) == v / 2 % 2 && Bit(v, 2) == v / 4 % 2 && Bit(v, 3) == v / 8 % 2
    ensures Bit(v, 4) == v / 16 % 2 && Bit(v, 5) == v / 32 % 2 && Bit(v, 6) == v / 64 % 2 && Bit(v, 7) == v / 128 % 2
  {
    hide Bit;
    var w := v / 16;
    Quarters(v);
    Quarters(w);
    Sixteenth(v);
    FourBits(v);
    FourBits(w);
    assert Bit(v, 0 + 4) == Bit(w, 0) && Bit(v, 1 + 4) == Bit(w, 1) && Bit(v, 2 + 4) == Bit(w, 2) && Bit(v, 3 + 4) == Bit(w, 3);
  }

  lemma Quarters(v: nat)
    ensures v / 2 / 2 == v / 4 && v / 2 / 2 / 2 == v / 8 && v / 2 / 2 / 2 / 2 == v / 16
  {}

  lemma Sixteenth(v: nat)
    ensures v / 16 / 2 == v / 32 && v / 16 / 4 == v / 64 && v / 16 / 8 == v / 128
  {}

  lemma FourBits(v: nat)
    ensures Bit(v, 0) == v % 2 && Bit(v, 1) == v / 2 % 2 && Bit(v, 2) == v / 2 / 2 % 2 && Bit(v, 3) == v / 2 / 2 / 2 % 2
    ensures forall k: nat :: Bit(v, k + 4) == Bit(v / 2 / 2 / 2 / 2, k)
  {
    assert Bit(v, 1) == Bit(v / 2, 0);
    assert Bit(v, 2) == Bit(v / 2, 1) == Bit(v / 2 / 2, 0);
    assert Bit(v, 3) == Bit(v / 2, 2) == Bit(v / 2 / 2, 1) == Bit(v / 2 / 2 / 2, 0);
    forall k: nat
      ensures Bit(v, k + 4) == Bit(v / 2 / 2 / 2 / 2, k)
    {
      assert Bit(v, k + 4) == Bit(v / 2, k + 3) == Bit(v / 2 / 2, k + 2) == Bit(v / 2 / 2 / 2, k + 1);
    }
  }

  lemma RowBit(t: Tile, y: nat, plane: nat, x: nat, v: nat)
    requires y < 8 && x < 8 && v == RowBits(t, y, plane, 8)
    ensures Bit(v, 7 - x) == Bit(t[y * 8 + x], plane)
  {
    hide Bit;
    RowSpelled(t, y, plane);
    hide RowBits;
    var r := y * 8;
    FxScreen.DigitsOf(v, Bit(t[r + 7], plane), Bit(t[r + 6], plane), Bit(t[r + 5], plane), Bit(t[r + 4], plane),
                      Bit(t[r + 3], plane), Bit(t[r + 2], plane), Bit(t[r + 1], plane), Bit(t[r], plane));
    BitIs(v);
  }

  // What is drawn from the bytes of a tile is the tile.
  lemma PlanarShows(out: seq<byte>, t: Tile, x: nat, y: nat)
    requires Packed(out, t, 8, 0, 0) && x < 8 && y < 8
    ensures Shown(out, x, y) == t[y * 8 + x]
  {
    hide Bit, RowBits;
    Places(y, 0);
    Places(y, 1);
    Places(y, 2);
    Places(y, 3);
    RowBit(t, y, 0, x, out[y * 2]);
    RowBit(t, y, 1, x, out[y * 2 + 1]);
    RowBit(t, y, 2, x, out[y * 2 + 16]);
    RowBit(t, y, 3, x, out[y * 2 + 17]);
    NibbleSpelled(t[y * 8 + x]);
  }

  lemma NibbleSpelled(v: nat)
    requires v < 16
    ensures v == Bit(v, 0) + 2 * Bit(v, 1) + 4 * Bit(v, 2) + 8 * Bit(v, 3)
  {
    FourBits(v);
  }

  // A tile mirrored left to right, or top to bottom, or both.
  function Flip(t: Tile, h: bool, v: bool): (r: Tile) {
    seq(64, i requires 0 <= i < 64 => t[(if v then 7 - i / 8 else i / 8) * 8 + (if h then 7 - i % 8 else i % 8)])
  }

  // What the console draws at a pixel for a map entry: ten bits of tile number, and two that mirror.
  function Drawn(tiles: seq<byte>, entry: nat, x: nat, y: nat): nat
    requires entry % 0x400 * 32 + 32 <= |tiles| && x < 8 && y < 8
  {
    var number, h, v := entry % 0x400, entry / 0x4000 % 2 == 1, entry / 0x8000 % 2 == 1;
    Shown(tiles[number * 32..number * 32 + 32], if h then 7 - x else x, if v then 7 - y else y)
  }

  // The entry draws this tile, in the first palette and without priority.
  ghost predicate Draws(tiles: seq<byte>, entry: nat, t: Tile) {
    && entry < 0x1_0000 && entry / 0x400 % 0x10 == 0 && entry % 0x400 * 32 + 32 <= |tiles|
    && forall x: nat, y: nat :: x < 8 && y < 8 ==> Drawn(tiles, entry, x, y) == t[y * 8 + x]
  }

  function Mirror(h: bool, v: bool): nat {
    (if h then 0x4000 else 0) + if v then 0x8000 else 0
  }

  lemma EntryParts(number: nat, h: bool, v: bool)
    requires number < 0x400
    ensures var e := number + Mirror(h, v);
            && e < 0x1_0000 && e % 0x400 == number && e / 0x400 % 0x10 == 0
            && (e / 0x4000 % 2 == 1 <==> h) && (e / 0x8000 % 2 == 1 <==> v)
  {}

  // A tile added draws itself and its mirror images,
  lemma NewDraws(tiles: seq<byte>, t: Tile, out: seq<byte>, number: nat, h: bool, v: bool)
    requires Packed(out, t, 8, 0, 0) && |out| == 32 && |tiles| == number * 32 && number < 0x400
    ensures Draws(tiles + out, number + Mirror(h, v), Flip(t, h, v))
  {
    hide Mirror, Packed, Flip, Drawn, Draws;
    EntryParts(number, h, v);
    NewEntry(tiles, t, out, number + Mirror(h, v), h, v);
  }

  lemma NewEntry(tiles: seq<byte>, t: Tile, out: seq<byte>, entry: nat, h: bool, v: bool)
    requires Packed(out, t, 8, 0, 0) && |out| == 32 && |tiles| == entry % 0x400 * 32
    requires entry < 0x1_0000 && entry / 0x400 % 0x10 == 0
    requires (entry / 0x4000 % 2 == 1 <==> h) && (entry / 0x8000 % 2 == 1 <==> v)
    ensures Draws(tiles + out, entry, Flip(t, h, v))
  {
    hide Packed, Flip, Drawn;
    forall x: nat, y: nat | x < 8 && y < 8
      ensures Drawn(tiles + out, entry, x, y) == Flip(t, h, v)[y * 8 + x]
    {
      NewPixel(tiles, t, out, entry, h, v, x, y);
    }
  }

  lemma NewPixel(tiles: seq<byte>, t: Tile, out: seq<byte>, entry: nat, h: bool, v: bool, x: nat, y: nat)
    requires Packed(out, t, 8, 0, 0) && |out| == 32 && |tiles| == entry % 0x400 * 32 && x < 8 && y < 8
    requires (entry / 0x4000 % 2 == 1 <==> h) && (entry / 0x8000 % 2 == 1 <==> v)
    ensures Drawn(tiles + out, entry, x, y) == Flip(t, h, v)[y * 8 + x]
  {
    hide Shown, Packed, Flip;
    var fx, fy := if h then 7 - x else x, if v then 7 - y else y;
    assert (tiles + out)[|tiles|..|tiles| + 32] == out;
    PlanarShows(out, t, fx, fy);
    FlipAt(t, h, v, x, y);
  }

  lemma FlipAt(t: Tile, h: bool, v: bool, x: nat, y: nat)
    requires x < 8 && y < 8
    ensures Flip(t, h, v)[y * 8 + x] == t[(if v then 7 - y else y) * 8 + if h then 7 - x else x]
  {
    assert (y * 8 + x) / 8 == y && (y * 8 + x) % 8 == x;
  }

  // and changes nothing about the ones before it.
  lemma OldDraws(tiles: seq<byte>, out: seq<byte>, entry: nat, t: Tile)
    requires Draws(tiles, entry, t)
    ensures Draws(tiles + out, entry, t)
  {
    hide Shown;
    var number := entry % 0x400;
    assert (tiles + out)[number * 32..number * 32 + 32] == tiles[number * 32..number * 32 + 32];
    assert forall x: nat, y: nat :: x < 8 && y < 8 ==> Drawn(tiles + out, entry, x, y) == Drawn(tiles, entry, x, y);
  }

  // Tiles seen so far, and the map entry of each.
  ghost predicate AllDrawn(tiles: seq<byte>, known: map<Tile, nat>) {
    forall t :: t in known ==> Draws(tiles, known[t], t)
  }

  // The tiles stored are these, one behind the other, and all their mirror images are known.
  ghost predicate Stored(tiles: seq<byte>, known: map<Tile, nat>, kept: seq<Tile>) {
    && |tiles| == |kept| * 32 <= 0x400 * 32 && AllDrawn(tiles, known) && (kept == [] ==> known == map[])
    && (forall n: nat :: n < |kept| ==> Draws(tiles, n, kept[n]))
    && (forall n: nat, h: bool, v: bool :: n < |kept| ==> Flip(kept[n], h, v) in known)
  }

  // None of the tiles is another one, or its mirror image.
  ghost predicate Different(kept: seq<Tile>) {
    forall m: nat, n: nat, h: bool, v: bool :: m < n < |kept| ==> kept[n] != Flip(kept[m], h, v)
  }

  function SetDefault(known: map<Tile, nat>, t: Tile, entry: nat): map<Tile, nat> {
    if t in known then known else known[t := entry]
  }

  // One more tile is stored if it is new.
  method PackTile(t: Tile, tiles: seq<byte>, known: map<Tile, nat>, ghost kept: seq<Tile>)
    returns (tiles': seq<byte>, known': map<Tile, nat>, ghost kept': seq<Tile>)
    requires Stored(tiles, known, kept) && Different(kept) && |kept| < 0x400
    ensures Stored(tiles', known', kept') && Different(kept') && t in known'
    ensures |kept| <= |kept'| <= |kept| + 1 && tiles <= tiles'
  {
    tiles', known', kept' := tiles, known, kept;
    if t !in known {
      hide Draws, Flip;
      var number := |tiles| / 32;
      var out := Planar(t);
      tiles' := tiles + out;
      known' := SetDefault(known', Flip(t, false, false), number);
      known' := SetDefault(known', Flip(t, true, false), number + 0x4000);
      known' := SetDefault(known', Flip(t, false, true), number + 0x8000);
      known' := SetDefault(known', Flip(t, true, true), number + 0xC000);
      kept' := kept + [t];
      Added(t, out, tiles, known, kept, known');
    }
  }

  lemma Added(t: Tile, out: seq<byte>, tiles: seq<byte>, known: map<Tile, nat>, kept: seq<Tile>, known': map<Tile, nat>)
    requires Stored(tiles, known, kept) && Different(kept) && |kept| < 0x400 && t !in known && Packed(out, t, 8, 0, 0)
    requires var n := |kept|;
             known' == SetDefault(SetDefault(SetDefault(SetDefault(known, Flip(t, false, false), n), Flip(t, true, false), n + 0x4000),
                                             Flip(t, false, true), n + 0x8000), Flip(t, true, true), n + 0xC000)
    ensures Stored(tiles + out, known', kept + [t]) && Different(kept + [t]) && t in known'
  {
    hide Draws, Flip, Mirror;
    var n, all := |kept|, tiles + out;
    forall k | k in known
      ensures Draws(all, known[k], k)
    {
      OldDraws(tiles, out, known[k], k);
    }
    Unflipped(t);
    NewDraws(tiles, t, out, n, false, false);
    NewDraws(tiles, t, out, n, true, false);
    NewDraws(tiles, t, out, n, false, true);
    NewDraws(tiles, t, out, n, true, true);
    Mirrors();
    forall k: nat | k < n
      ensures Draws(all, k, kept[k])
    {
      OldDraws(tiles, out, k, kept[k]);
    }
    PackedSize(out, t);
    forall k: nat, h: bool, v: bool | k < n + 1
      ensures Flip((kept + [t])[k], h, v) in known'
    {
      assert k < n ==> Flip(kept[k], h, v) in known;
    }
  }

  lemma Mirrors()
    ensures Mirror(false, false) == 0 && Mirror(true, false) == 0x4000 && Mirror(false, true) == 0x8000 && Mirror(true, true) == 0xC000
  {}

  lemma PackedSize(out: seq<byte>, t: Tile)
    requires Packed(out, t, 8, 0, 0)
    ensures |out| == 32
  {}

  lemma Unflipped(t: Tile)
    ensures Flip(t, false, false) == t
  {
    assert forall i :: 0 <= i < 64 ==> i / 8 * 8 + i % 8 == i;
  }

  // A picture, row by row.
  predicate IsPicture(pixels: seq<nat>) {
    |pixels| == WIDTH * HEIGHT && forall i :: 0 <= i < |pixels| ==> pixels[i] < 16
  }

  function TileAt(pixels: seq<nat>, column: nat, row: nat): Tile
    requires IsPicture(pixels) && column < COLUMNS && row < ROWS
  {
    assert forall i: nat :: i < 64 ==> (row * 8 + i / 8) * WIDTH + column * 8 + i % 8 < |pixels|;
    seq(64, i requires 0 <= i < 64 => pixels[(row * 8 + i / 8) * WIDTH + column * 8 + i % 8])
  }

  // The first k map entries draw the first k tiles of the picture, row by row.
  ghost predicate Mapped(tilemap: seq<byte>, tiles: seq<byte>, pixels: seq<nat>, k: nat)
    requires IsPicture(pixels) && k <= COLUMNS * ROWS
  {
    |tilemap| == 2 * k && forall j: nat :: j < k ==> Draws(tiles, Le16(tilemap, 2 * j), TileAt(pixels, j % COLUMNS, j / COLUMNS))
  }

  lemma MapNext(tilemap: seq<byte>, tiles: seq<byte>, tiles': seq<byte>, pixels: seq<nat>, k: nat, entry: nat)
    requires IsPicture(pixels) && k < COLUMNS * ROWS && Mapped(tilemap, tiles, pixels, k) && tiles <= tiles'
    requires Draws(tiles', entry, TileAt(pixels, k % COLUMNS, k / COLUMNS))
    ensures Mapped(tilemap + HalfBytes(entry), tiles', pixels, k + 1)
  {
    hide TileAt, Drawn, Le16, HalfBytes;
    var more := tilemap + HalfBytes(entry);
    forall j: nat | j < k + 1
      ensures Draws(tiles', Le16(more, 2 * j), TileAt(pixels, j % COLUMNS, j / COLUMNS))
    {
      MapEntry(tilemap, entry, k, j);
      if j < k {
        assert tiles + tiles'[|tiles|..] == tiles';
        OldDraws(tiles, tiles'[|tiles|..], Le16(tilemap, 2 * j), TileAt(pixels, j % COLUMNS, j / COLUMNS));
      }
    }
  }

  lemma MapEntry(tilemap: seq<byte>, entry: nat, k: nat, j: nat)
    requires |tilemap| == 2 * k && j <= k && entry < 0x1_0000
    ensures |tilemap + HalfBytes(entry)| == 2 * k + 2
    ensures Le16(tilemap + HalfBytes(entry), 2 * j) == if j < k then Le16(tilemap, 2 * j) else entry
  {}

  datatype Rgb = Rgb(red: byte, green: byte, blue: byte)

  // Fifteen bits of a colour, red the lowest.
  function Colour(c: Rgb): nat {
    c.red / 8 + c.green / 8 * 0x20 + c.blue / 8 * 0x400
  }

  lemma FifteenBits(c: Rgb)
    ensures Colour(c) < 0x8000
    ensures Colour(Rgb(0xFF, 0, 0)) == 0x1F && Colour(Rgb(0, 0xFF, 0)) == 0x3E0 && Colour(Rgb(0, 0, 0xFF)) == 0x7C00
  {}

  ghost predicate Coloured(colours: seq<byte>, palette: seq<Rgb>, n: nat)
    requires n <= |palette|
  {
    |colours| == 2 * n && forall i: nat :: i < n ==> Le16(colours, 2 * i) == Colour(palette[i])
  }

  method PackColours(palette: seq<Rgb>) returns (colours: seq<byte>)
    ensures Coloured(colours, palette, |palette|)
  {
    hide Le16, HalfBytes, Colour;
    colours := [];
    var i := 0;
    while i < |palette|
      invariant 0 <= i <= |palette| && Coloured(colours, palette, i)
    {
      FifteenBits(palette[i]);
      forall j: nat | j <= i
        ensures Le16(colours + HalfBytes(Colour(palette[i])), 2 * j) == Colour(palette[j])
      {
        MapEntry(colours, Colour(palette[i]), i, j);
      }
      MapEntry(colours, Colour(palette[i]), i, i);
      colours, i := colours + HalfBytes(Colour(palette[i])), i + 1;
    }
  }

  // The frame's parts: tiles, map, colours.
  function EntryAt(frame: seq<byte>, tiles: nat, x: nat, y: nat): nat
    requires |frame| == FrameBytes(tiles) && x < WIDTH && y < HEIGHT
  {
    Le16(frame, tiles * 32 + 2 * (y / 8 * COLUMNS + x / 8))
  }

  // The colour number that the console draws at a pixel of the screen,
  function DrawnAt(frame: seq<byte>, tiles: nat, x: nat, y: nat): nat
    requires |frame| == FrameBytes(tiles) && x < WIDTH && y < HEIGHT && EntryAt(frame, tiles, x, y) % 0x400 < tiles
  {
    Drawn(frame[..tiles * 32], EntryAt(frame, tiles, x, y), x % 8, y % 8)
  }

  // and the colour of a number.
  function ColourAt(frame: seq<byte>, tiles: nat, i: nat): nat
    requires |frame| == FrameBytes(tiles) && i < 16
  {
    Le16(frame, tiles * 32 + MAP_SIZE + 2 * i)
  }

  // What a picture becomes can be shown, looks like the picture everywhere, and has no tile more than it needs.
  ghost predicate Depicts(frame: seq<byte>, tiles: nat, pixels: seq<nat>, palette: seq<Rgb>)
    requires IsPicture(pixels) && |palette| == 16
  {
    && 0 < tiles <= MAX_TILES && FrameGood(frame, tiles)
    && (forall x: nat, y: nat :: x < WIDTH && y < HEIGHT ==>
          EntryAt(frame, tiles, x, y) % 0x400 < tiles && DrawnAt(frame, tiles, x, y) == pixels[y * WIDTH + x])
    && (forall i: nat :: i < 16 ==> ColourAt(frame, tiles, i) == Colour(palette[i]))
  }

  method PackPicture(pixels: seq<nat>, palette: seq<Rgb>) returns (frame: seq<byte>, count: nat, ghost kept: seq<Tile>)
    requires IsPicture(pixels) && |palette| == 16
    ensures Depicts(frame, count, pixels, palette)
    ensures |kept| == count && Different(kept) && forall n: nat :: n < count ==> Draws(frame[..count * 32], n, kept[n])
  {
    var tiles, tilemap, known: map<Tile, nat> := [], [], map[];
    kept := [];
    var row := 0;
    hide Draws, Flip, TileAt;
    while row < ROWS
      invariant 0 <= row <= ROWS && Stored(tiles, known, kept) && Different(kept)
      invariant |kept| <= row * COLUMNS && Mapped(tilemap, tiles, pixels, row * COLUMNS)
      invariant 0 < row ==> 0 < |kept|
    {
      var column := 0;
      while column < COLUMNS
        invariant 0 <= column <= COLUMNS && Stored(tiles, known, kept) && Different(kept)
        invariant |kept| <= row * COLUMNS + column && Mapped(tilemap, tiles, pixels, row * COLUMNS + column)
        invariant 0 < row + column ==> 0 < |kept|
      {
        var tile := TileAt(pixels, column, row);
        ghost var before := tiles;
        tiles, known, kept := PackTile(tile, tiles, known, kept);
        MapNext(tilemap, before, tiles, pixels, row * COLUMNS + column, known[tile]);
        tilemap := tilemap + HalfBytes(known[tile]);
        column := column + 1;
      }
      row := row + 1;
    }
    var colours := PackColours(palette);
    frame, count := tiles + tilemap + colours, |tiles| / 32;
    Assembled(tiles, tilemap, colours, count, pixels, palette);
    assert frame[..count * 32] == tiles;
  }

  lemma Assembled(tiles: seq<byte>, tilemap: seq<byte>, colours: seq<byte>, count: nat, pixels: seq<nat>, palette: seq<Rgb>)
    requires IsPicture(pixels) && |palette| == 16 && 0 < count <= MAX_TILES && |tiles| == count * 32
    requires Mapped(tilemap, tiles, pixels, COLUMNS * ROWS) && Coloured(colours, palette, 16)
    ensures Depicts(tiles + tilemap + colours, count, pixels, palette)
  {
    hide Draws, EntryGood, ColorGood, Mapped, Coloured, DrawnAt, EntryAt, ColourAt;
    var frame := tiles + tilemap + colours;
    MapSize(tilemap, tiles, colours, pixels, palette);
    forall k: nat | k < COLUMNS * ROWS
      ensures EntryGood(frame, count, k)
    {
      MapPart(tiles, tilemap, colours, count, pixels, k);
    }
    forall i: nat | i < 16
      ensures ColorGood(frame, count, i) && ColourAt(frame, count, i) == Colour(palette[i])
    {
      ColourPart(tiles, tilemap, colours, count, palette, i);
    }
    forall x: nat, y: nat | x < WIDTH && y < HEIGHT
      ensures EntryAt(frame, count, x, y) % 0x400 < count && DrawnAt(frame, count, x, y) == pixels[y * WIDTH + x]
    {
      PixelPart(tiles, tilemap, colours, count, pixels, x, y);
    }
  }

  lemma MapSize(tilemap: seq<byte>, tiles: seq<byte>, colours: seq<byte>, pixels: seq<nat>, palette: seq<Rgb>)
    requires IsPicture(pixels) && |palette| == 16 && Mapped(tilemap, tiles, pixels, COLUMNS * ROWS) && Coloured(colours, palette, 16)
    ensures |tilemap| == 1792 && |colours| == 32
  {}

  lemma MapPart(tiles: seq<byte>, tilemap: seq<byte>, colours: seq<byte>, count: nat, pixels: seq<nat>, k: nat)
    requires IsPicture(pixels) && |tiles| == count * 32 && |tilemap| == 1792 && |colours| == 32
    requires Mapped(tilemap, tiles, pixels, COLUMNS * ROWS) && k < COLUMNS * ROWS
    ensures var frame, entry := tiles + tilemap + colours, Le16(tilemap, 2 * k);
            && Le16(frame, count * 32 + 2 * k) == entry && entry % 0x400 < count
            && EntryGood(frame, count, k) && Draws(tiles, entry, TileAt(pixels, k % COLUMNS, k / COLUMNS))
  {
    hide TileAt, Drawn;
    var frame := tiles + tilemap + colours;
    assert frame[count * 32 + 2 * k] == tilemap[2 * k] && frame[count * 32 + 2 * k + 1] == tilemap[2 * k + 1];
  }

  lemma ColourPart(tiles: seq<byte>, tilemap: seq<byte>, colours: seq<byte>, count: nat, palette: seq<Rgb>, i: nat)
    requires |palette| == 16 && |tiles| == count * 32 && |tilemap| == 1792 && |colours| == 32 && Coloured(colours, palette, 16) && i < 16
    ensures var frame := tiles + tilemap + colours;
            ColorGood(frame, count, i) && ColourAt(frame, count, i) == Colour(palette[i])
  {
    var frame := tiles + tilemap + colours;
    var at := count * 32 + 1792 + 2 * i;
    assert frame[at] == colours[2 * i] && frame[at + 1] == colours[2 * i + 1];
    assert Le16(colours, 2 * i) < 0x8000;
  }

  lemma PixelPart(tiles: seq<byte>, tilemap: seq<byte>, colours: seq<byte>, count: nat, pixels: seq<nat>, x: nat, y: nat)
    requires IsPicture(pixels) && |tiles| == count * 32 && |tilemap| == 1792 && |colours| == 32
    requires Mapped(tilemap, tiles, pixels, COLUMNS * ROWS) && x < WIDTH && y < HEIGHT
    ensures var frame := tiles + tilemap + colours;
            EntryAt(frame, count, x, y) % 0x400 < count && DrawnAt(frame, count, x, y) == pixels[y * WIDTH + x]
  {
    hide Mapped, Drawn, Le16;
    var frame, k := tiles + tilemap + colours, y / 8 * COLUMNS + x / 8;
    MapIndex(x, y);
    MapPart(tiles, tilemap, colours, count, pixels, k);
    assert frame[..count * 32] == tiles;
    PixelOfTile(pixels, x, y);
  }

  lemma MapIndex(x: nat, y: nat)
    requires x < WIDTH && y < HEIGHT
    ensures var k := y / 8 * COLUMNS + x / 8;
            k < COLUMNS * ROWS && k % COLUMNS == x / 8 && k / COLUMNS == y / 8
  {}

  lemma PixelOfTile(pixels: seq<nat>, x: nat, y: nat)
    requires IsPicture(pixels) && x < WIDTH && y < HEIGHT
    ensures TileAt(pixels, x / 8, y / 8)[y % 8 * 8 + x % 8] == pixels[y * WIDTH + x]
  {
    var i := y % 8 * 8 + x % 8;
    assert i / 8 == y % 8 && i % 8 == x % 8;
    assert (y / 8 * 8 + y % 8) * WIDTH + x / 8 * 8 + x % 8 == y * WIDTH + x;
  }
}
