/** The 16-byte map descriptor of an installed 128-Mbit image (src/storage/snes_rom_layout.cpp:235-291). */
module RomDescriptor {
  import opened Arithmetic
  import opened Bytes
  import opened LittleEndian
  import opened RomLayout

  const DESCRIPTOR_ADDRESS: nat := 0x7E_0000
  const DESCRIPTOR_SIZE: nat := 16
  const MAGIC: nat := 0x504D_3353
  const EXTENDED: nat := 0x8000_0000

  // Bitwise exclusive or, written out on the binary digits.
  function Xor(a: nat, b: nat): nat
    decreases a + b
  {
    if a == 0 && b == 0 then 0 else (a + b) % 2 + 2 * Xor(a / 2, b / 2)
  }

  function Word(bytes: seq<byte>, i: nat): (w: nat)
    requires 4 * i + 4 <= |bytes|
    ensures w < WORDS
  {
    Le32(bytes, 4 * i)
  }

  function MapCode(mapping: RomMap): nat {
    match mapping
    case LoRom => 0
    case HiRom => 1
    case ExLoRom => 2
    case ExHiRom => 3
    case Fx3Physical => 4
    case Fx3 => 5
  }

  function MapOfCode(code: nat): Option<RomMap> {
    if code == 0 then Some(LoRom)
    else if code == 1 then Some(HiRom)
    else if code == 2 then Some(ExLoRom)
    else if code == 3 then Some(ExHiRom)
    else if code == 5 then Some(Fx3)
    else None
  }

  function RamBytes(code: nat): nat
    requires code <= 7
  {
    if code == 0 then 0 else Pow2(code + 10)
  }

  // The smallest code from the given one on whose size covers the SRAM, stopping at 128 KiB.
  function RamSizeCodeFrom(size: nat, code: nat): (r: nat)
    requires 1 <= code <= 7
    ensures code <= r <= 7
    ensures size <= Pow2(r + 10) || r == 7
    ensures code < r ==> Pow2(r + 9) < size
    decreases 7 - code
  {
    if Pow2(code + 10) < size && code < 7 then RamSizeCodeFrom(size, code + 1) else code
  }

  // The least code whose RAM covers the SRAM, 0 for none, and 7 for anything larger than that covers.
  function RamSizeCode(size: nat): (r: nat)
    ensures r <= 7 && (r == 0 <==> size == 0)
    ensures size <= RamBytes(r) || r == 7
    ensures 1 < r ==> RamBytes(r - 1) < size
  {
    if size == 0 then 0 else RamSizeCodeFrom(size, 1)
  }

  // What an SNES header says about the cartridge: its type, its SRAM size code, and the code of the
  // expansion RAM in front of the header, which counts for SuperFX cartridges.
  datatype Header = Header(cartridgeType: byte, ramCode: byte, expansion: byte)

  // The SRAM size the firmware reads from a header.
  function HeaderRamSize(header: Header): nat {
    var code := if 0x13 <= header.cartridgeType <= 0x18 && header.expansion <= 7 then header.expansion else header.ramCode;
    if code == 0 then 0 else if code <= 7 then Pow2(code + 10) else 128 * KIB
  }

  // It is one of the sizes that have a code.
  lemma HeaderRamCode(header: Header) returns (code: nat)
    ensures code <= 7 && HeaderRamSize(header) == RamBytes(code)
  {
    var read: nat := if 0x13 <= header.cartridgeType <= 0x18 && header.expansion <= 7 then header.expansion else header.ramCode;
    code := if read <= 7 then read else 7;
    assert Pow2(10) == 0x400;
    assert Pow2(17) == 128 * KIB;
  }

  method ComputeRamSizeCode(size: nat) returns (code: nat)
    ensures code == RamSizeCode(size)
    ensures code <= 7 && (code == 0 <==> size == 0)
    ensures size <= RamBytes(code) || code == 7
    ensures forall smaller: nat :: 0 < smaller < code ==> RamBytes(smaller) < size
  {
    LeastCode(size);
    if size == 0 {
      return 0;
    }
    code := 1;
    var bytes := 2 * KIB;
    assert Pow2(11) == 0x800;
    while bytes < size && code < 7
      invariant 1 <= code <= 7 && bytes == Pow2(code + 10)
      invariant RamSizeCodeFrom(size, code) == RamSizeCode(size)
      decreases 7 - code
    {
      bytes, code := bytes * 2, code + 1;
    }
  }

  // Every smaller code covers less.
  lemma LeastCode(size: nat)
    ensures forall smaller: nat :: 0 < smaller < RamSizeCode(size) ==> RamBytes(smaller) < size
  {
    hide RamSizeCode, RamBytes;
    forall smaller: nat | 0 < smaller < RamSizeCode(size)
      ensures RamBytes(smaller) < size
    {
      BytesGrow(smaller, RamSizeCode(size) - 1);
    }
  }

  lemma BytesGrow(i: nat, j: nat)
    requires 0 < i <= j <= 7
    ensures RamBytes(i) <= RamBytes(j)
  {
    Pow2Grows(i + 10, j + 10);
  }

  function Attributes(info: RomInfo): nat {
    EXTENDED + info.cartridgeType as int * 0x1_0000 + RamSizeCode(info.ramSize) * 0x100 + MapCode(info.mapping)
  }

  function CheckWord(w0: nat, w1: nat, w2: nat): nat {
    var x := Xor(Xor(w0, w1), w2);
    if x <= 0xFFFF_FFFF then 0xFFFF_FFFF - x else 0
  }

  function Descriptor(info: RomInfo): (r: seq<byte>)
    ensures |r| == DESCRIPTOR_SIZE
  {
    WordBytes(MAGIC) + WordBytes(Attributes(info)) + WordBytes(info.size) +
    WordBytes(CheckWord(MAGIC, Attributes(info), info.size))
  }

  datatype Installed = Installed(mapping: RomMap, size: nat, ramSize: nat, cartridgeType: nat)

  // What the firmware reads back at boot; None falls back to the physical FX3 profile.
  function InstalledInfo(bytes: seq<byte>): Option<Installed>
    requires |bytes| == DESCRIPTOR_SIZE
  {
    var w0, w1, w2, w3 := Word(bytes, 0), Word(bytes, 1), Word(bytes, 2), Word(bytes, 3);
    var extended := EXTENDED <= w1;
    var code := if extended then w1 % 0x100 else w1;
    var mapping := MapOfCode(code);
    var ramCode := w1 / 0x100 % 0x100;
    if w0 == MAGIC && mapping.Some? && 0 < w2 <= 0x80_0000 && w2 % 0x8000 == 0 &&
       (mapping.value == Fx3 ==> w2 <= 0x40_0000) && (extended ==> ramCode <= 7) && w3 == CheckWord(w0, w1, w2)
    then
      Some(if extended then Installed(mapping.value, w2, RamBytes(ramCode), w1 / 0x1_0000 % 0x100)
           else Installed(mapping.value, w2, 128 * KIB, 0x18))
    else None
  }

  lemma {:induction false} RamCodeBack(code: nat)
    requires 1 <= code <= 7
    ensures RamSizeCode(RamBytes(code)) == code
  {
    RamCodeFromBack(code, 1);
    assert 0 < Pow2(code + 10);
  }

  lemma {:induction false} RamCodeFromBack(code: nat, from: nat)
    requires 1 <= from <= code <= 7
    ensures RamSizeCodeFrom(Pow2(code + 10), from) == code
    decreases code - from
  {
    Pow2Grows(from + 10, code + 10);
    if from < code {
      RamCodeFromBack(code, from + 1);
    }
  }

  lemma {:induction false} Pow2Grows(i: nat, j: nat)
    requires i <= j
    ensures Pow2(i) <= Pow2(j) && (i < j ==> Pow2(i) < Pow2(j))
    decreases j
  {
    if i < j {
      Pow2Grows(i, j - 1);
    }
  }

  lemma {:induction false} XorBound(bits: nat, a: nat, b: nat)
    requires a < Pow2(bits) && b < Pow2(bits)
    ensures Xor(a, b) < Pow2(bits)
  {
    if bits > 0 {
      XorBound(bits - 1, a / 2, b / 2);
    }
  }

  lemma AttributeFields(info: RomInfo)
    ensures var a := Attributes(info);
            && EXTENDED <= a < WORDS && a % 0x100 == MapCode(info.mapping)
            && a / 0x100 % 0x100 == RamSizeCode(info.ramSize) && a / 0x1_0000 % 0x100 == info.cartridgeType
  {
    hide RamSizeCode, RamBytes;
    var t, r, m := info.cartridgeType as int, RamSizeCode(info.ramSize), MapCode(info.mapping);
    assert Attributes(info) / 0x100 == 0x80_0000 + t * 0x100 + r;
    assert Attributes(info) / 0x1_0000 == 0x8000 + t;
  }

  lemma DescriptorWords(info: RomInfo)
    requires info.size < WORDS
    ensures var d, a := Descriptor(info), Attributes(info);
            && Word(d, 0) == MAGIC && Word(d, 1) == a && Word(d, 2) == info.size
            && Word(d, 3) == CheckWord(MAGIC, a, info.size)
  {
    hide Attributes, CheckWord, WordBytes;
    var d, a, w3 := Descriptor(info), Attributes(info), CheckWord(MAGIC, Attributes(info), info.size);
    var m, b, z, k := WordBytes(MAGIC), WordBytes(a), WordBytes(info.size), WordBytes(w3);
    assert d == m + b + z + k;
    FourWords(m, b, z, k, d);
    AttributeFields(info);
    CheckWordBound(a, info.size);
    WordAt(d, 0, MAGIC);
    WordAt(d, 4, a);
    WordAt(d, 8, info.size);
    WordAt(d, 12, w3);
  }

  lemma FourWords(m: seq<byte>, b: seq<byte>, z: seq<byte>, k: seq<byte>, d: seq<byte>)
    requires |m| == |b| == |z| == |k| == 4 && d == m + b + z + k
    ensures d[0..4] == m && d[4..8] == b && d[8..12] == z && d[12..16] == k
  {}

  lemma CheckWordBound(a: nat, size: nat)
    ensures CheckWord(MAGIC, a, size) < WORDS
  {}

  // The bytes of a descriptor: the characters S3MP, the number of the map, the SRAM code, the cartridge type,
  // the mark of the extended form, and the size.
  lemma DescriptorBytes(info: RomInfo)
    requires info.size < WORDS
    ensures var d := Descriptor(info);
            && d[0..4] == [0x53, 0x33, 0x4D, 0x50] && d[5] == RamSizeCode(info.ramSize) && d[6] == info.cartridgeType
            && d[7] == 0x80 && Base256(d[8..12]) == info.size
            && d[4] == match info.mapping
                       case LoRom => 0
                       case HiRom => 1
                       case ExLoRom => 2
                       case ExHiRom => 3
                       case Fx3Physical => 4
                       case Fx3 => 5
  {
    hide Descriptor, Attributes, WordBytes, RamSizeCode, Base256;
    DescriptorParts(info);
    MagicBytes();
    AttributeBytes(info);
    var d := Descriptor(info);
    assert d[4] == d[4..8][0] && d[5] == d[4..8][1] && d[6] == d[4..8][2] && d[7] == d[4..8][3];
    WritesLowestFirst(info.size);
  }

  lemma DescriptorParts(info: RomInfo)
    ensures var d := Descriptor(info);
            d[0..4] == WordBytes(MAGIC) && d[4..8] == WordBytes(Attributes(info)) && d[8..12] == WordBytes(info.size)
  {
    hide Attributes, CheckWord, WordBytes;
  }

  lemma MagicBytes()
    ensures WordBytes(MAGIC) == [0x53, 0x33, 0x4D, 0x50]
  {}

  lemma AttributeBytes(info: RomInfo)
    ensures WordBytes(Attributes(info)) == [MapCode(info.mapping), RamSizeCode(info.ramSize), info.cartridgeType, 0x80]
  {
    hide RamSizeCode;
    AttributeFields(info);
    var t, r, m := info.cartridgeType as int, RamSizeCode(info.ramSize), MapCode(info.mapping);
    assert Attributes(info) / 0x100_0000 == 0x80;
  }

  // The firmware finds the map, the size, the SRAM size and the cartridge type it installed.
  lemma DescriptorRoundTrip(info: RomInfo, code: nat)
    requires 0 < info.size <= 0x80_0000 && info.size % 0x8000 == 0 && info.mapping != Fx3Physical
    requires info.mapping == Fx3 ==> info.size <= 0x40_0000
    requires code <= 7 && info.ramSize == RamBytes(code)
    ensures InstalledInfo(Descriptor(info)) ==
            Some(Installed(info.mapping, info.size, info.ramSize, info.cartridgeType))
  {
    hide Descriptor, Attributes, CheckWord, Word;
    if 0 < code {
      RamCodeBack(code);
    }
    DescriptorWords(info);
    AttributeFields(info);
  }

  lemma XorDigits(a: nat, b: nat)
    ensures Xor(a, b) % 2 == (a + b) % 2 && Xor(a, b) / 2 == Xor(a / 2, b / 2)
  {
    var r, h := (a + b) % 2, Xor(a / 2, b / 2);
    assert Xor(a, b) == r + 2 * h by {
      assert a + b == 0 ==> h == 0;
    }
    hide Xor;
    HalfDigit(r, h);
  }

  lemma HalfDigit(r: nat, h: nat)
    requires r < 2
    ensures (r + 2 * h) % 2 == r && (r + 2 * h) / 2 == h
  {}

  lemma SameParity(a: nat, b: nat, c: nat)
    requires (a + c) % 2 == (b + c) % 2 && a / 2 == b / 2
    ensures a == b
  {}

  lemma {:induction false} XorCancel(a: nat, b: nat, c: nat)
    requires Xor(a, c) == Xor(b, c)
    ensures a == b
    decreases a + b + c
  {
    XorDigits(a, c);
    XorDigits(b, c);
    if a + b + c > 0 {
      XorCancel(a / 2, b / 2, c / 2);
      SameParity(a, b, c);
    }
  }

  lemma {:induction false} XorSwap(a: nat, b: nat)
    ensures Xor(a, b) == Xor(b, a)
    decreases a + b
  {
    if a + b > 0 {
      XorSwap(a / 2, b / 2);
    }
  }

  lemma CheckWordExact(w0: nat, w1: nat, w2: nat)
    requires w0 < WORDS && w1 < WORDS && w2 < WORDS
    ensures CheckWord(w0, w1, w2) == 0xFFFF_FFFF - Xor(Xor(w0, w1), w2)
  {
    assert Pow2(10) == 0x400;
    assert Pow2(20) == 0x10_0000;
    assert Pow2(30) == 0x4000_0000;
    assert Pow2(32) == WORDS;
    XorBound(32, w0, w1);
    XorBound(32, Xor(w0, w1), w2);
  }

  // Damage confined to one of the four words is always noticed.
  lemma DamagedWordRejected(good: seq<byte>, bad: seq<byte>, i: nat)
    requires |good| == |bad| == DESCRIPTOR_SIZE && i < 4 && InstalledInfo(good).Some?
    requires Word(good, i) != Word(bad, i)
    requires forall j: nat :: j < 4 && j != i ==> Word(good, j) == Word(bad, j)
    ensures InstalledInfo(bad) == None
  {
    if InstalledInfo(bad).Some? && 0 < i < 3 {
      var w0 := Word(good, 0);
      CheckWordExact(w0, Word(good, 1), Word(good, 2));
      CheckWordExact(w0, Word(bad, 1), Word(bad, 2));
      assert Word(good, 3) == Word(bad, 3);
      if i == 1 {
        XorCancel(Xor(w0, Word(good, 1)), Xor(w0, Word(bad, 1)), Word(good, 2));
        XorSwap(w0, Word(good, 1));
        XorSwap(w0, Word(bad, 1));
        XorCancel(Word(good, 1), Word(bad, 1), w0);
      } else {
        XorSwap(Xor(w0, Word(good, 1)), Word(good, 2));
        XorSwap(Xor(w0, Word(good, 1)), Word(bad, 2));
        XorCancel(Word(good, 2), Word(bad, 2), Xor(w0, Word(good, 1)));
      }
    }
  }
}
