/** The offline packer (src/tools/make_snes_rom_image.py), and that the in-place installer writes the
  * image it would have produced. */
module ChipImage {
  import opened Arithmetic
  import opened Bytes
  import opened RomLayout
  import opened ParallelRom
  import opened BusImage
  import opened RomInstaller
  import D = RomDescriptor
  import LittleEndian
  import RomStaging

  function BitLength(n: nat): nat {
    if n == 0 then 0 else 1 + BitLength(n / 2)
  }

  // The packer's mirroring rule, with the mask taken from the bit length.
  function PackerMirror(size: nat, offset: nat): nat
    requires 0 < size
    decreases offset
  {
    if offset < size then offset
    else
      BitLengthMask(offset);
      var mask := Pow2(BitLength(offset) - 1);
      if size <= mask then PackerMirror(size, offset - mask)
      else mask + PackerMirror(size - mask, offset - mask)
  }

  lemma {:induction false} BitLengthRange(n: nat)
    requires 0 < n
    ensures 0 < BitLength(n) && Pow2(BitLength(n) - 1) <= n < 2 * Pow2(BitLength(n) - 1)
  {
    if 1 < n {
      BitLengthRange(n / 2);
      assert Pow2(BitLength(n) - 1) == 2 * Pow2(BitLength(n / 2) - 1);
    }
  }

  lemma BitLengthMask(n: nat)
    requires 0 < n
    ensures 0 < BitLength(n) && Pow2(BitLength(n) - 1) == HighBit(n)
  {
    BitLengthRange(n);
    HighBitStart(BitLength(n) - 1, n);
  }

  lemma {:induction false} SameMirror(size: nat, offset: nat)
    requires 0 < size
    ensures PackerMirror(size, offset) == MirrorOffset(size, offset)
    decreases offset
  {
    hide PackerMirror, MirrorOffset, HighBit;
    if size <= offset {
      var mask := HighBit(offset);
      PackerStep(size, offset, mask);
      MirrorStep(size, offset, mask);
      if size <= mask {
        SameMirror(size, offset - mask);
      } else {
        SameMirror(size - mask, offset - mask);
      }
    } else {
      MirrorNothing(size, offset);
    }
  }

  lemma PackerStep(size: nat, offset: nat, mask: nat)
    requires 0 < size <= offset && mask == HighBit(offset)
    ensures PackerMirror(size, offset) ==
            if size <= mask then PackerMirror(size, offset - mask) else mask + PackerMirror(size - mask, offset - mask)
  {
    hide HighBit;
    BitLengthMask(offset);
  }

  lemma MirrorStep(size: nat, offset: nat, mask: nat)
    requires 0 < size <= offset && mask == HighBit(offset)
    ensures MirrorOffset(size, offset) ==
            if size <= mask then MirrorOffset(size, offset - mask) else mask + MirrorOffset(size - mask, offset - mask)
  {
    hide HighBit;
  }

  lemma MirrorNothing(size: nat, offset: nat)
    requires offset < size
    ensures PackerMirror(size, offset) == offset == MirrorOffset(size, offset)
  {}

  predicate StandardRomWindow(address: nat) {
    var bank, low := Bank(address) % 0x100, Low(address);
    if bank == 0x7E || bank == 0x7F then false
    else if bank <= 0x3F || 0x80 <= bank <= 0xBF then low >= 0x8000
    else true
  }

  function StandardLinearOffset(mapping: RomMap, address: nat): nat
    requires mapping !in {Fx3, Fx3Physical}
  {
    var bank, low := Bank(address) % 0x100, Low(address);
    match mapping
    case LoRom => bank % 0x80 * 0x8000 + low % 0x8000
    case HiRom => bank % 0x40 * 0x1_0000 + low
    case ExLoRom => (if bank < 0x80 then bank + 0x80 else bank - 0x80) * 0x8000 + low % 0x8000
    case ExHiRom => bank % 0x40 * 0x1_0000 + low + if bank < 0x80 then 0x40_0000 else 0
  }

  function RomOffset(mapping: RomMap, address: nat, size: nat): Option<nat>
    requires 0 < size && mapping != Fx3Physical
  {
    if address >= BUS then None
    else if mapping == Fx3 then
      if Bank(address) == 0x7E || Bank(address) == 0x7F then None
      else
        var bank := Bank(address) % 0x80;
        Some(PackerMirror(size, if bank < 0x40 then bank * 0x8000 + Low(address) % 0x8000
                                else (bank - 0x40) * 0x1_0000 + Low(address)))
    else if !StandardRomWindow(address) then None
    else Some(PackerMirror(size, StandardLinearOffset(mapping, address)))
  }

  // Packer and firmware agree on what every bus address shows.
  lemma SameMap(info: RomInfo, address: nat)
    requires 0 < info.size && info.mapping != Fx3Physical
    ensures RomOffset(info.mapping, address, info.size) == SourceOffset(info, address)
  {
    hide PackerMirror, MirrorOffset, Linear, StandardLinearOffset, Mapped, StandardRomWindow;
    if address < BUS {
      var bank, low := Bank(address), Low(address);
      assert bank < 0x100;
      if info.mapping != Fx3 {
        SameLinear(info.mapping, address, bank, low);
      } else {
        Fx3Linear(bank, low);
      }
      SameMirror(info.size, Linear(info.mapping, bank, low));
    }
  }

  lemma SameLinear(mapping: RomMap, address: nat, bank: nat, low: nat)
    requires bank == Bank(address) < 0x100 && low == Low(address) && mapping !in {Fx3, Fx3Physical}
    ensures StandardRomWindow(address) == Mapped(mapping, bank, low)
    ensures StandardLinearOffset(mapping, address) == Linear(mapping, bank, low)
  {
    assert bank % 0x100 == bank;
    hide Bank, Low;
  }

  lemma Fx3Linear(bank: nat, low: nat)
    requires bank < 0x100 && low < 0x1_0000
    ensures Mapped(Fx3, bank, low) == (bank != 0x7E && bank != 0x7F)
    ensures Linear(Fx3, bank, low) ==
            if bank % 0x80 < 0x40 then bank % 0x80 * 0x8000 + low % 0x8000 else (bank % 0x80 - 0x40) * 0x1_0000 + low
  {}

  datatype Packed = Image(bytes: seq<byte>) | Conflict | BadSource | BadChip

  function SourceLimit(mapping: RomMap): nat {
    if mapping == ExLoRom || mapping == ExHiRom then 0x80_0000 else 0x40_0000
  }

  predicate SourceAccepted(rom: seq<byte>, mapping: RomMap) {
    0 < |rom| <= SourceLimit(mapping) && |rom| % 0x8000 == 0
  }

  // The SRAM and type a header declares, and what is assumed without one.
  function DeclaredSram(header: Option<D.Header>): (r: (nat, byte)) {
    match header
    case None => (128 * KIB, 0x18)
    case Some(h) =>
      var code := if 0x13 <= h.cartridgeType <= 0x18 && h.expansion <= 7 then h.expansion else h.ramCode;
      (if code == 0 then 0 else if code <= 7 then Pow2(code + 10) else 128 * KIB, h.cartridgeType)
  }

  const MAPS: seq<Option<RomMap>> := [Some(LoRom), Some(HiRom), Some(ExLoRom), Some(ExHiRom), None, Some(Fx3)]

  // The first place of a map in the list.
  function IndexOf(maps: seq<Option<RomMap>>, mapping: RomMap): nat {
    if maps == [] || maps[0] == Some(mapping) then 0 else 1 + IndexOf(maps[1..], mapping)
  }

  // count bytes of a number, the lowest first.
  function Pack(v: nat, count: nat): (s: seq<byte>)
    ensures |s| == count
  {
    if count == 0 then [] else [v % 0x100] + Pack(v / 0x100, count - 1)
  }

  // Among bits binary digits, those in which an even number of the three words has a one.
  function EvenDigits(bits: nat, a: nat, b: nat, c: nat): nat {
    if bits == 0 then 0
    else (if (a + b + c) % 2 == 0 then 1 else 0) + 2 * EvenDigits(bits - 1, a / 2, b / 2, c / 2)
  }

  function PackedAttributes(mapping: RomMap, sram: (nat, byte)): nat {
    var ramCode := if sram.0 == 0 || BitLength(sram.0) < 11 then 0 else BitLength(sram.0) - 11;
    0x8000_0000 + sram.1 as nat * 0x1_0000 + ramCode * 0x100 + IndexOf(MAPS, mapping)
  }

  // The map descriptor: four packed words, the last one the inverted parity of the others.
  function PackedDescriptor(mapping: RomMap, size: nat, sram: (nat, byte)): (r: seq<byte>)
    ensures |r| == 16
  {
    var attributes := PackedAttributes(mapping, sram);
    Pack(0x504D_3353, 4) + Pack(attributes, 4) + Pack(size, 4) + Pack(EvenDigits(32, 0x504D_3353, attributes, size), 4)
  }

  // A 16 MiB image gets its descriptor in the WRAM bank.
  function AddDescriptor(image: seq<byte>, mapping: RomMap, size: nat, sram: (nat, byte)): (r: seq<byte>)
    ensures |r| == |image|
    ensures forall a :: 0 <= a < |image| ==>
              r[a] == if |image| == 0x100_0000 && 0x7E_0000 <= a < 0x7E_0010 then PackedDescriptor(mapping, size, sram)[a - 0x7E_0000]
                      else image[a]
  {
    if |image| == 0x100_0000 then
      image[..0x7E_0000] + PackedDescriptor(mapping, size, sram) + image[0x7E_0010..]
    else image
  }

  lemma {:induction false} PackSpells(v: nat, count: nat)
    requires v < Pow2(8 * count)
    ensures LittleEndian.Base256(Pack(v, count)) == v
    decreases count
  {
    if 0 < count {
      PowerOfByte(8 * (count - 1));
      PackSpells(v / 0x100, count - 1);
      assert Pack(v, count)[1..] == Pack(v / 0x100, count - 1);
    }
  }

  lemma PowerOfByte(k: nat)
    ensures Pow2(k + 8) == 0x100 * Pow2(k)
  {
    assert Pow2(k + 4) == 16 * Pow2(k) by {
      assert Pow2(k + 2) == 4 * Pow2(k);
    }
    assert Pow2(k + 6) == 4 * Pow2(k + 4);
  }

  lemma WordsPower()
    ensures Pow2(32) == LittleEndian.WORDS
  {
    assert Pow2(10) == 0x400;
    assert Pow2(20) == 0x10_0000;
    assert Pow2(30) == 0x4000_0000;
  }

  // Packed and written words are the same bytes.
  lemma SameWord(v: nat)
    requires v < LittleEndian.WORDS
    ensures Pack(v, 4) == LittleEndian.WordBytes(v)
  {
    WordsPower();
    PackSpells(v, 4);
    LittleEndian.WritesLowestFirst(v);
    LittleEndian.SpellingUnique(Pack(v, 4), LittleEndian.WordBytes(v));
  }

  lemma {:induction false} EvenIsInverted(bits: nat, a: nat, b: nat, c: nat)
    requires a < Pow2(bits) && b < Pow2(bits) && c < Pow2(bits)
    ensures EvenDigits(bits, a, b, c) + D.Xor(D.Xor(a, b), c) == Pow2(bits) - 1
  {
    hide D.Xor;
    if bits > 0 {
      XorOfThree(a, b, c);
      EvenIsInverted(bits - 1, a / 2, b / 2, c / 2);
    } else {
      XorOfNothing();
    }
  }

  lemma XorOfNothing()
    ensures D.Xor(D.Xor(0, 0), 0) == 0
  {}

  lemma XorOfThree(a: nat, b: nat, c: nat)
    ensures D.Xor(D.Xor(a, b), c) == (a + b + c) % 2 + 2 * D.Xor(D.Xor(a / 2, b / 2), c / 2)
  {
    hide D.Xor;
    D.XorDigits(a, b);
    D.XorDigits(D.Xor(a, b), c);
    Parity(D.Xor(a, b), a + b, c);
    Digits(D.Xor(D.Xor(a, b), c), (a + b + c) % 2);
  }

  lemma Digits(y: nat, r: nat)
    requires y % 2 == r
    ensures y == r + 2 * (y / 2)
  {}

  lemma Parity(x: nat, y: nat, c: nat)
    requires x % 2 == y % 2
    ensures (x + c) % 2 == (y + c) % 2
  {}

  lemma {:induction false} PowerLength(k: nat)
    ensures BitLength(Pow2(k)) == k + 1
  {
    if k > 0 {
      PowerLength(k - 1);
      TwiceLength(Pow2(k - 1));
    }
  }

  lemma TwiceLength(n: nat)
    requires 0 < n
    ensures BitLength(2 * n) == 1 + BitLength(n)
  {
    assert 2 * n / 2 == n;
  }

  // Firmware and packer read the same SRAM size, and give it the same code.
  lemma SameSram(header: D.Header)
    ensures DeclaredSram(Some(header)) == (D.HeaderRamSize(header), header.cartridgeType)
    ensures var ram := D.HeaderRamSize(header);
            D.RamSizeCode(ram) == if ram == 0 || BitLength(ram) < 11 then 0 else BitLength(ram) - 11
  {
    hide D.RamSizeCode, D.HeaderRamSize, DeclaredSram;
    var code := D.HeaderRamCode(header);
    assert DeclaredSram(Some(header)) == (D.HeaderRamSize(header), header.cartridgeType) by {
      SramRead(header);
    }
    if 0 < code {
      D.RamCodeBack(code);
      PowerLength(code + 10);
    } else {
      NoSram();
    }
  }

  lemma SramRead(header: D.Header)
    ensures DeclaredSram(Some(header)) == (D.HeaderRamSize(header), header.cartridgeType)
  {}

  lemma NoSram()
    ensures D.RamSizeCode(0) == 0
  {}

  lemma SameMapCode(mapping: RomMap)
    requires mapping != Fx3Physical
    ensures IndexOf(MAPS, mapping) == D.MapCode(mapping)
  {
    assert MAPS[1..] == [Some(HiRom), Some(ExLoRom), Some(ExHiRom), None, Some(Fx3)];
    assert MAPS[1..][1..] == [Some(ExLoRom), Some(ExHiRom), None, Some(Fx3)];
    assert MAPS[1..][1..][1..] == [Some(ExHiRom), None, Some(Fx3)];
    assert MAPS[1..][1..][1..][1..] == [None, Some(Fx3)];
    assert MAPS[1..][1..][1..][1..][1..] == [Some(Fx3)];
  }

  // The descriptor of an installed device is the packer's, byte for byte.
  lemma SameDescriptor(info: RomInfo, header: D.Header)
    requires info.mapping != Fx3Physical && info.size < LittleEndian.WORDS
    requires info.ramSize == D.HeaderRamSize(header) && info.cartridgeType == header.cartridgeType
    ensures D.Descriptor(info) == PackedDescriptor(info.mapping, info.size, DeclaredSram(Some(header)))
    ensures D.DESCRIPTOR_ADDRESS == 0x7E_0000 && D.DESCRIPTOR_SIZE == 16
  {
    hide D.RamSizeCode, D.HeaderRamSize, DeclaredSram, D.MapCode, IndexOf, Pack, EvenDigits, D.CheckWord, BitLength;
    SameSram(header);
    SameMapCode(info.mapping);
    var a := D.Attributes(info);
    assert a == PackedAttributes(info.mapping, DeclaredSram(Some(header)));
    D.AttributeFields(info);
    SameCheck(a, info.size);
    SameWord(D.MAGIC);
    SameWord(a);
    SameWord(info.size);
  }

  lemma SameCheck(a: nat, size: nat)
    requires a < LittleEndian.WORDS && size < LittleEndian.WORDS
    ensures Pack(EvenDigits(32, D.MAGIC, a, size), 4) == LittleEndian.WordBytes(D.CheckWord(D.MAGIC, a, size))
  {
    hide D.Xor, EvenDigits, Pack, LittleEndian.WordBytes;
    D.CheckWordExact(D.MAGIC, a, size);
    D.CheckWordBound(a, size);
    WordsPower();
    EvenIsInverted(32, D.MAGIC, a, size);
    SameWord(D.CheckWord(D.MAGIC, a, size));
  }

  function Info(mapping: RomMap, rom: seq<byte>): RomInfo {
    RomInfo(mapping, |rom|, 0, 0, 0)
  }

  // Every page of bus addresses is placed at its NOR page; the first disagreement is an error.
  method BuildChipImage(rom: seq<byte>, mapping: RomMap, chipSize: nat, header: Option<D.Header>) returns (r: Packed)
    requires mapping != Fx3Physical
    ensures r.BadSource? <==> !SourceAccepted(rom, mapping)
    ensures r.BadChip? <==> SourceAccepted(rom, mapping) && !IsCapacity(chipSize)
    ensures r.Conflict? <==> SourceAccepted(rom, mapping) && IsCapacity(chipSize) &&
                             !Consistent(Info(mapping, rom), chipSize, rom)
    ensures r.Image? ==> |r.bytes| == chipSize
    ensures r.Image? ==> forall a :: 0 <= a < chipSize ==>
              r.bytes[a] == if chipSize == 0x100_0000 && 0x7E_0000 <= a < 0x7E_0010
                            then PackedDescriptor(mapping, |rom|, DeclaredSram(header))[a - 0x7E_0000]
                            else ImageByte(Info(mapping, rom), chipSize, rom, a)
  {
    if !SourceAccepted(rom, mapping) {
      return BadSource;
    }
    if !IsCapacity(chipSize) {
      return BadChip;
    }
    ghost var info := Info(mapping, rom);
    var image := Repeat(ERASED, chipSize);
    var placed: map<nat, seq<byte>> := map[];
    var address := 0;
    hide IsCapacity, Placing, Consistent, ImageByte;
    PlacingStart(info, chipSize, rom, image);
    while address < BUS
      invariant 0 <= address <= BUS && address % PAGE == 0
      invariant |image| == chipSize && Placing(info, chipSize, rom, address, image, placed)
    {
      var ok;
      image, placed, ok := PlacePage(rom, mapping, chipSize, address, image, placed);
      if !ok {
        return Conflict;
      }
      address := address + PAGE;
    }
    PlacingDone(info, chipSize, rom, image, placed);
    hide PackedDescriptor, DeclaredSram;
    r := Image(AddDescriptor(image, mapping, |rom|, DeclaredSram(header)));
  }

  method PlacePage(rom: seq<byte>, mapping: RomMap, chipSize: nat, address: nat, image: seq<byte>, placed: map<nat, seq<byte>>)
    returns (image': seq<byte>, placed': map<nat, seq<byte>>, ok: bool)
    requires mapping != Fx3Physical && SourceAccepted(rom, mapping) && IsCapacity(chipSize)
    requires address < BUS && address % PAGE == 0 && Placing(Info(mapping, rom), chipSize, rom, address, image, placed)
    ensures ok ==> Placing(Info(mapping, rom), chipSize, rom, address + PAGE, image', placed')
    ensures !ok ==> !Consistent(Info(mapping, rom), chipSize, rom)
  {
    hide SourceOffset, RomOffset, Physical, IsCapacity, Placing, Consistent, Shows, ImageByte;
    image', placed', ok := image, placed, true;
    ghost var info := Info(mapping, rom);
    var offset := RomOffset(mapping, address, |rom|);
    SameMap(info, address);
    if offset.None? {
      PlacingGap(info, chipSize, rom, address, image, placed);
      return;
    }
    SourcePage(info, address, 0);
    PlacingSize(info, chipSize, rom, address, image, placed);
    ShowsHere(info, chipSize, rom, address);
    var physical := Physical(chipSize, address);
    var page := rom[offset.value..offset.value + PAGE];
    var key := physical / PAGE;
    if key in placed && placed[key] != page {
      PlacingConflict(info, chipSize, rom, address, image, placed);
      ok := false;
      return;
    }
    PlacingPage(info, chipSize, rom, address, image, placed, key, page);
    placed' := placed[key := page];
    image' := image[..physical] + page + image[physical + PAGE..];
  }

  lemma ShowsHere(info: RomInfo, c: nat, src: seq<byte>, x: nat)
    requires IsCapacity(c) && |src| == info.size && x < BUS && x % PAGE == 0
    requires SourceOffset(info, x).Some? && SourceOffset(info, x).value + PAGE <= info.size
    ensures var q := Physical(c, x) / PAGE;
            && Physical(c, x) == q * PAGE && (q + 1) * PAGE <= c
            && Shows(info, c, src, x, q, PageShown(info, src, x))
  {
    hide SourceOffset, Physical, IsCapacity;
    PhysicalPage(c, x, PAGE - 1);
  }

  // The source page shown at a mapped bus page.
  ghost function PageShown(info: RomInfo, src: seq<byte>, x: nat): seq<byte>
    requires |src| == info.size && SourceOffset(info, x).Some? && SourceOffset(info, x).value + PAGE <= info.size
  {
    src[SourceOffset(info, x).value..SourceOffset(info, x).value + PAGE]
  }

  ghost predicate Shows(info: RomInfo, c: nat, src: seq<byte>, x: nat, p: nat, page: seq<byte>)
    requires IsCapacity(c) && |src| == info.size
  {
    && x < BUS && x % PAGE == 0 && Physical(c, x) == p * PAGE && SourceOffset(info, x).Some?
    && SourceOffset(info, x).value + PAGE <= info.size && PageShown(info, src, x) == page
  }

  ghost predicate Seen(info: RomInfo, c: nat, src: seq<byte>, address: nat, p: nat, page: seq<byte>)
    requires IsCapacity(c) && |src| == info.size
  {
    exists x: nat :: x < address && Shows(info, c, src, x, p, page)
  }

  // Every page placed so far is shown by a bus page below address,
  ghost predicate PlacedSound(info: RomInfo, c: nat, src: seq<byte>, address: nat, placed: map<nat, seq<byte>>)
    requires IsCapacity(c) && |src| == info.size
  {
    forall p :: p in placed ==> (p + 1) * PAGE <= c && |placed[p]| == PAGE && Seen(info, c, src, address, p, placed[p])
  }

  // every page such a bus page shows has been placed,
  ghost predicate PlacedComplete(info: RomInfo, c: nat, src: seq<byte>, address: nat, placed: map<nat, seq<byte>>)
    requires IsCapacity(c) && |src| == info.size
  {
    forall x: nat, p: nat, page: seq<byte> :: x < address && Shows(info, c, src, x, p, page) ==>
      p in placed && placed[p] == page
  }

  // and the image holds the placed pages and is erased elsewhere.
  ghost predicate PlacedImage(image: seq<byte>, placed: map<nat, seq<byte>>) {
    forall p: nat :: (p + 1) * PAGE <= |image| ==>
      RomStaging.PageAt(image, p) == if p in placed then placed[p] else Repeat(ERASED, PAGE)
  }

  ghost predicate Placing(info: RomInfo, c: nat, src: seq<byte>, address: nat, image: seq<byte>, placed: map<nat, seq<byte>>)
    requires IsCapacity(c) && |src| == info.size
  {
    && |image| == c
    && PlacedSound(info, c, src, address, placed)
    && PlacedComplete(info, c, src, address, placed)
    && PlacedImage(image, placed)
  }

  lemma PlacingSize(info: RomInfo, c: nat, src: seq<byte>, address: nat, image: seq<byte>, placed: map<nat, seq<byte>>)
    requires IsCapacity(c) && |src| == info.size && Placing(info, c, src, address, image, placed)
    ensures |image| == c
  {}

  lemma PlacingStart(info: RomInfo, c: nat, src: seq<byte>, image: seq<byte>)
    requires IsCapacity(c) && |src| == info.size && image == Repeat(ERASED, c)
    ensures Placing(info, c, src, 0, image, map[])
  {
    forall p: nat | (p + 1) * PAGE <= c
      ensures RomStaging.PageAt(image, p) == Repeat(ERASED, PAGE)
    {}
  }

  lemma PlacingGap(info: RomInfo, c: nat, src: seq<byte>, address: nat, image: seq<byte>, placed: map<nat, seq<byte>>)
    requires IsCapacity(c) && |src| == info.size && address % PAGE == 0 && SourceOffset(info, address).None?
    requires Placing(info, c, src, address, image, placed)
    ensures Placing(info, c, src, address + PAGE, image, placed)
  {
    hide SourceOffset, Physical, IsCapacity, PlacedImage;
    forall p | p in placed
      ensures Seen(info, c, src, address + PAGE, p, placed[p])
    {
      SeenLater(info, c, src, address, p, placed[p]);
    }
    forall x: nat, p: nat, page: seq<byte> | x < address + PAGE && Shows(info, c, src, x, p, page)
      ensures p in placed && placed[p] == page
    {
      assert x < address;
    }
  }

  lemma SeenLater(info: RomInfo, c: nat, src: seq<byte>, address: nat, p: nat, page: seq<byte>)
    requires IsCapacity(c) && |src| == info.size && Seen(info, c, src, address, p, page)
    ensures Seen(info, c, src, address + PAGE, p, page)
  {
    hide Shows;
    var x: nat :| x < address && Shows(info, c, src, x, p, page);
  }

  lemma SoundNext(info: RomInfo, c: nat, src: seq<byte>, address: nat, placed: map<nat, seq<byte>>, q: nat, page: seq<byte>)
    requires IsCapacity(c) && |src| == info.size && (q + 1) * PAGE <= c && |page| == PAGE
    requires Shows(info, c, src, address, q, page) && PlacedSound(info, c, src, address, placed)
    ensures PlacedSound(info, c, src, address + PAGE, placed[q := page])
  {
    hide Shows, Seen, IsCapacity;
    assert Seen(info, c, src, address + PAGE, q, page) by {
      SeenHere(info, c, src, address, q, page);
    }
    forall p | p in placed
      ensures Seen(info, c, src, address + PAGE, p, placed[p])
    {
      SeenLater(info, c, src, address, p, placed[p]);
    }
  }

  lemma SeenHere(info: RomInfo, c: nat, src: seq<byte>, address: nat, p: nat, page: seq<byte>)
    requires IsCapacity(c) && |src| == info.size && Shows(info, c, src, address, p, page)
    ensures Seen(info, c, src, address + PAGE, p, page)
  {
    hide Shows, IsCapacity;
  }

  lemma CompleteNext(info: RomInfo, c: nat, src: seq<byte>, address: nat, placed: map<nat, seq<byte>>, q: nat, page: seq<byte>)
    requires IsCapacity(c) && |src| == info.size && address % PAGE == 0
    requires Shows(info, c, src, address, q, page) && PlacedComplete(info, c, src, address, placed)
    requires q in placed ==> placed[q] == page
    ensures PlacedComplete(info, c, src, address + PAGE, placed[q := page])
  {
    hide SourceOffset, Physical, IsCapacity;
    forall x: nat, p: nat, shown: seq<byte> | x < address + PAGE && Shows(info, c, src, x, p, shown)
      ensures p in placed[q := page] && placed[q := page][p] == shown
    {
      if x < address {
        assert placed[p] == shown;
      } else {
        assert x == address && p == q;
      }
    }
  }

  lemma PlacingPage(info: RomInfo, c: nat, src: seq<byte>, address: nat, image: seq<byte>, placed: map<nat, seq<byte>>,
                    q: nat, page: seq<byte>)
    requires IsCapacity(c) && |src| == info.size && address % PAGE == 0 && (q + 1) * PAGE <= c && |page| == PAGE
    requires Shows(info, c, src, address, q, page) && Placing(info, c, src, address, image, placed)
    requires q in placed ==> placed[q] == page
    ensures Placing(info, c, src, address + PAGE, Overlay(image, q * PAGE, page), placed[q := page])
  {
    hide Shows, IsCapacity, PlacedSound, PlacedComplete, PlacedImage;
    SoundNext(info, c, src, address, placed, q, page);
    CompleteNext(info, c, src, address, placed, q, page);
    PlacingImage(image, placed, q, page);
  }

  lemma PlacingImage(image: seq<byte>, placed: map<nat, seq<byte>>, q: nat, page: seq<byte>)
    requires |page| == PAGE && (q + 1) * PAGE <= |image| && PlacedImage(image, placed)
    ensures PlacedImage(Overlay(image, q * PAGE, page), placed[q := page])
  {
    var image', placed' := Overlay(image, q * PAGE, page), placed[q := page];
    forall p: nat | (p + 1) * PAGE <= |image|
      ensures RomStaging.PageAt(image', p) == if p in placed' then placed'[p] else Repeat(ERASED, PAGE)
    {
      RomStaging.PageOverlay(image, q, page, p);
    }
  }

  lemma PlacingConflict(info: RomInfo, c: nat, src: seq<byte>, address: nat, image: seq<byte>, placed: map<nat, seq<byte>>)
    requires IsCapacity(c) && |src| == info.size && info.size % PAGE == 0 && address % PAGE == 0 && address < BUS
    requires SourceOffset(info, address).Some? && SourceOffset(info, address).value + PAGE <= info.size
    requires Placing(info, c, src, address, image, placed)
    requires Physical(c, address) / PAGE in placed && placed[Physical(c, address) / PAGE] != PageShown(info, src, address)
    ensures !Consistent(info, c, src)
  {
    hide SourceOffset, Physical, IsCapacity, AliasByte;
    PhysicalPage(c, address, 0);
    var q := Physical(c, address) / PAGE;
    var x: nat :| x < address && Shows(info, c, src, x, q, placed[q]);
    if Consistent(info, c, src) {
      SameConsistentPage(info, c, src, x, address);
    }
  }

  lemma SameConsistentPage(info: RomInfo, c: nat, src: seq<byte>, x: nat, y: nat)
    requires IsCapacity(c) && |src| == info.size && info.size % PAGE == 0 && Consistent(info, c, src)
    requires x < BUS && x % PAGE == 0 && SourceOffset(info, x).Some? && SourceOffset(info, x).value + PAGE <= info.size
    requires y < BUS && y % PAGE == 0 && SourceOffset(info, y).Some? && SourceOffset(info, y).value + PAGE <= info.size
    requires Physical(c, x) == Physical(c, y)
    ensures PageShown(info, src, x) == PageShown(info, src, y)
  {
    hide SourceOffset, Physical, IsCapacity, AliasByte, Consistent;
    forall i: nat | i < PAGE
      ensures PageShown(info, src, x)[i] == PageShown(info, src, y)[i]
    {
      ConsistentByte(info, c, src, x, i);
      ConsistentByte(info, c, src, y, i);
    }
  }

  lemma ConsistentByte(info: RomInfo, c: nat, src: seq<byte>, x: nat, i: nat)
    requires IsCapacity(c) && |src| == info.size && info.size % PAGE == 0 && Consistent(info, c, src)
    requires x < BUS && x % PAGE == 0 && i < PAGE && SourceOffset(info, x).Some? && SourceOffset(info, x).value + PAGE <= info.size
    ensures PageShown(info, src, x)[i] == ImageByte(info, c, src, Physical(c, x) + i)
  {
    hide SourceOffset, Physical, IsCapacity, AliasByte;
    SourcePage(info, x, i);
    PhysicalPage(c, x, i);
    PageBelowBus(x, i);
  }

  // The aliases from one bus page up: either some alias is the one whose page is shown, or none is mapped.
  lemma {:induction false} FirstAlias(info: RomInfo, c: nat, src: seq<byte>, alias: nat) returns (found: bool, x: nat)
    requires IsCapacity(c) && |src| == info.size && info.size % PAGE == 0 && alias % PAGE == 0
    ensures found ==> Shows(info, c, src, x, Physical(c, alias) / PAGE, AliasPage(info, c, src, alias))
    ensures !found ==> AliasPage(info, c, src, alias) == Repeat(ERASED, PAGE)
    ensures !found ==> forall y: nat :: alias <= y < BUS && Physical(c, y) == Physical(c, alias) ==> SourceOffset(info, y).None?
    decreases BUS - alias
  {
    PhysicalPage(c, alias, 0);
    PhysicalStep(c, alias);
    PageStep(c, alias);
    if alias >= BUS {
      found, x := false, 0;
      forall i: nat | i < PAGE
        ensures AliasPage(info, c, src, alias)[i] == ERASED
      {
        assert AliasByte(info, c, src, alias + i) == ERASED;
      }
    } else {
      AliasPageStep(info, c, src, alias);
      if SourceOffset(info, alias).Some? {
        found, x := true, alias;
      } else {
        hide SourceOffset, Physical, IsCapacity, AliasByte;
        found, x := FirstAlias(info, c, src, alias + c);
        forall y: nat | !found && alias <= y < BUS && Physical(c, y) == Physical(c, alias)
          ensures SourceOffset(info, y).None?
        {
          if alias < y {
            AliasGap(c, alias, y);
          }
        }
      }
    }
  }

  lemma PlacedPage(info: RomInfo, c: nat, src: seq<byte>, image: seq<byte>, placed: map<nat, seq<byte>>, p: nat)
    requires IsCapacity(c) && |src| == info.size && info.size % PAGE == 0 && (p + 1) * PAGE <= c
    requires Placing(info, c, src, BUS, image, placed)
    ensures RomStaging.PageAt(image, p) == AliasPage(info, c, src, p * PAGE)
  {
    hide SourceOffset, IsCapacity, AliasByte;
    assert Physical(c, p * PAGE) == p * PAGE;
    var found, x := FirstAlias(info, c, src, p * PAGE);
  }

  lemma PlacedAgrees(info: RomInfo, c: nat, src: seq<byte>, image: seq<byte>, placed: map<nat, seq<byte>>, x: nat)
    requires IsCapacity(c) && |src| == info.size && info.size % PAGE == 0 && Placing(info, c, src, BUS, image, placed)
    requires x < BUS && x % PAGE == 0
    ensures PageAgrees(info, c, src, x)
  {
    hide SourceOffset, Physical, IsCapacity, AliasByte, Shows;
    if SourceOffset(info, x).Some? {
      SourcePage(info, x, 0);
      ShowsHere(info, c, src, x);
      PlacedPage(info, c, src, image, placed, Physical(c, x) / PAGE);
    }
  }

  lemma PlacedBytes(info: RomInfo, c: nat, src: seq<byte>, image: seq<byte>, placed: map<nat, seq<byte>>, a: nat)
    requires IsCapacity(c) && |src| == info.size && info.size % PAGE == 0 && Placing(info, c, src, BUS, image, placed)
    requires a < c
    ensures image[a] == ImageByte(info, c, src, a)
  {
    hide Placing, IsCapacity, AliasByte;
    CapacityPages(c);
    var p := a / PAGE;
    assert a < (p + 1) * PAGE <= c;
    PlacingSize(info, c, src, BUS, image, placed);
    PlacedPage(info, c, src, image, placed, p);
    assert image[a] == RomStaging.PageAt(image, p)[a % PAGE];
  }

  lemma PlacingDone(info: RomInfo, c: nat, src: seq<byte>, image: seq<byte>, placed: map<nat, seq<byte>>)
    requires IsCapacity(c) && |src| == info.size && info.size % PAGE == 0 && Placing(info, c, src, BUS, image, placed)
    ensures Consistent(info, c, src)
    ensures forall a :: 0 <= a < c ==> image[a] == ImageByte(info, c, src, a)
  {
    hide Placing, IsCapacity, ImageByte, PageAgrees;
    PlacingSize(info, c, src, BUS, image, placed);
    forall x: nat | x < BUS && x % PAGE == 0
      ensures PageAgrees(info, c, src, x)
    {
      PlacedAgrees(info, c, src, image, placed, x);
    }
    PagesAgree(info, c, src);
    forall a: nat | a < c
      ensures image[a] == ImageByte(info, c, src, a)
    {
      PlacedBytes(info, c, src, image, placed, a);
    }
  }

  lemma CapacityPages(c: nat)
    requires IsCapacity(c)
    ensures c % PAGE == 0
  {}

  // The FX-visible partition, page by page.
  method Fx3Payload(rom: seq<byte>) returns (image: seq<byte>)
    requires SourceAccepted(rom, Fx3)
    ensures image == FxWindow(Info(Fx3, rom), rom)
  {
    hide FxWindow, SourceOffset, MirrorOffset;
    ghost var info := Info(Fx3, rom);
    image := [];
    var offset := 0;
    while offset < FX_WINDOW
      invariant 0 <= offset <= FX_WINDOW && offset % PAGE == 0
      invariant image == FxWindow(info, rom)[..offset]
    {
      var source := PackerMirror(|rom|, offset);
      SameMirror(|rom|, offset);
      FxWindowSource(info, offset);
      FxWindowPage(info, rom, offset);
      NextPiece(FxWindow(info, rom), offset, offset + PAGE);
      image := image + rom[source..source + PAGE];
      offset := offset + PAGE;
    }
  }

  // The installer and the packer: an installed device holds, byte for byte, what the packer emits for the same
  // ROM, map, header and capacity; and the packer accepts every ROM that the installer installs.
  method InstalledIsPacked(installer: Installer, info: RomInfo, src: seq<byte>, header: D.Header) returns (r: Packed)
    requires installer.Shape() && |src| == info.size && installer.Installed(info, src)
    requires Staged(info, installer.rom.cells.Length) && info.size <= SourceLimit(info.mapping) && info.mapping != Fx3Physical
    requires Consistent(info, installer.rom.cells.Length, src)
    requires info.ramSize == D.HeaderRamSize(header) && info.cartridgeType == header.cartridgeType
    ensures r.Image? && r.bytes == installer.rom.cells[..]
  {
    hide Consistent, D.Descriptor, PackedDescriptor, DeclaredSram, D.HeaderRamSize, AliasByte;
    ConsistentShown(info, Info(info.mapping, src), installer.rom.cells.Length, src);
    SameDescriptor(info, header);
    r := BuildChipImage(src, info.mapping, installer.rom.cells.Length, Some(header));
    forall a: nat | a < installer.rom.cells.Length
      ensures ImageByte(Info(info.mapping, src), installer.rom.cells.Length, src, a) ==
              ImageByte(info, installer.rom.cells.Length, src, a)
    {
      SameShown(info, Info(info.mapping, src), installer.rom.cells.Length, src, a);
    }
  }

  lemma ConsistentShown(info: RomInfo, other: RomInfo, c: nat, src: seq<byte>)
    requires IsCapacity(c) && |src| == info.size == other.size && info.mapping == other.mapping && Consistent(info, c, src)
    ensures Consistent(other, c, src)
  {
    hide Physical;
    forall x: nat | x < BUS && SourceOffset(other, x).Some?
      ensures src[SourceOffset(other, x).value] == ImageByte(other, c, src, Physical(c, x))
    {
      SameShown(info, other, c, src, Physical(c, x));
      assert SourceOffset(info, x) == SourceOffset(other, x);
    }
  }

  lemma {:induction false} SameShown(info: RomInfo, other: RomInfo, c: nat, src: seq<byte>, alias: nat)
    requires IsCapacity(c) && |src| == info.size == other.size && info.mapping == other.mapping
    ensures AliasByte(other, c, src, alias) == AliasByte(info, c, src, alias)
    decreases BUS - alias
  {
    if alias < BUS {
      SameShown(info, other, c, src, alias + c);
    }
  }
}
