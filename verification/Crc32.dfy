/** The checksum of src/storage/fx3_save_journal.cpp (CRC-32/ISO-HDLC, section 8 of RFC 1952), and the
  * errors it always detects. */
module Crc32 {
  import opened Arithmetic
  import opened Bytes

  const POLYNOMIAL: bv32 := 0xEDB8_8320
  const ALL_ONES: bv32 := 0xFFFF_FFFF

  function Xor(x: bv32, y: bv32): bv32 {
    x ^ y
  }

  function Half(c: bv32): bv32 {
    c >> 1
  }

  // The polynomial when the bit shifted out is set.
  function Tap(c: bv32): bv32 {
    POLYNOMIAL & (0 - (c & 1))
  }

  function StepBit(c: bv32): bv32 {
    Xor(Half(c), Tap(c))
  }

  function Step8(c: bv32): bv32 {
    StepBit(StepBit(StepBit(StepBit(StepBit(StepBit(StepBit(StepBit(c))))))))
  }

  // The binary digits of n, highest first, shifted into a word.
  function Word(n: nat): bv32 {
    if n == 0 then 0 else ShiftIn(Word(n / 2), n % 2 == 1)
  }

  function ShiftIn(x: bv32, bit: bool): bv32 {
    (x << 1) | (if bit then 1 else 0)
  }

  // The register after shifting in the bytes of s.
  function Register(c: bv32, s: seq<byte>): bv32 {
    if s == [] then c else Step8(Xor(Register(c, s[..|s| - 1]), Word(s[|s| - 1])))
  }

  function Checksum(s: seq<byte>): bv32 {
    Xor(Register(ALL_ONES, s), ALL_ONES)
  }

  method Compute(data: seq<byte>) returns (word: nat)
    ensures word == ChecksumWord(data)
  {
    hide Xor, StepBit, Step8, Word, Value;
    var crc := ALL_ONES;
    var i := 0;
    while i < |data|
      invariant 0 <= i <= |data| && crc == Register(ALL_ONES, data[..i])
    {
      ghost var shifted := data[..i + 1];
      assert shifted[..i] == data[..i] && shifted[i] == data[i];
      crc := Xor(crc, Word(data[i]));
      ghost var before := crc;
      var bit := 0;
      while bit < 8
        invariant 0 <= bit <= 8 && crc == Steps(before, bit)
      {
        crc := StepBit(crc);
        bit := bit + 1;
      }
      EightSteps(before);
      i := i + 1;
    }
    assert data[..i] == data;
    word := Value(Xor(crc, ALL_ONES), 32);
  }

  function Steps(c: bv32, n: nat): bv32 {
    if n == 0 then c else StepBit(Steps(c, n - 1))
  }

  lemma EightSteps(c: bv32)
    ensures Steps(c, 8) == Step8(c)
  {
    hide StepBit;
    assert Steps(c, 1) == StepBit(c);
    assert Steps(c, 2) == StepBit(StepBit(c));
    assert Steps(c, 4) == StepBit(StepBit(Steps(c, 2)));
    assert Steps(c, 6) == StepBit(StepBit(Steps(c, 4)));
  }

  // One register step is a bijection: the polynomial's top bit tells which way it went.
  lemma StepBitInjective(x: bv32, y: bv32)
    requires StepBit(x) == StepBit(y)
    ensures x == y
  {}

  lemma Step8Injective(x: bv32, y: bv32)
    requires Step8(x) == Step8(y)
    ensures x == y
  {
    hide StepBit;
    var x2, y2 := StepBit(StepBit(x)), StepBit(StepBit(y));
    var x4, y4 := StepBit(StepBit(x2)), StepBit(StepBit(y2));
    var x6, y6 := StepBit(StepBit(x4)), StepBit(StepBit(y4));
    StepBitInjective(StepBit(x6), StepBit(y6));
    StepBitInjective(x6, y6);
    StepBitInjective(StepBit(x4), StepBit(y4));
    StepBitInjective(x4, y4);
    StepBitInjective(StepBit(x2), StepBit(y2));
    StepBitInjective(x2, y2);
    StepBitInjective(StepBit(x), StepBit(y));
    StepBitInjective(x, y);
  }

  lemma SameTap(z: bv32, h: bv32)
    requires h & 1 == 0
    ensures Tap(Xor(z, h)) == Tap(z)
  {
    SameLow(z, h);
  }

  lemma SameLow(z: bv32, h: bv32)
    requires h & 1 == 0
    ensures (z ^ h) & 1 == z & 1
  {}

  lemma HalfXor(z: bv32, h: bv32)
    ensures Half(Xor(z, h)) == Xor(Half(z), Half(h))
  {}

  lemma XorSwap(x: bv32, y: bv32, p: bv32)
    ensures Xor(Xor(x, y), p) == Xor(Xor(x, p), y)
  {
    hide Xor;
    XorAssociates(x, y, p);
    XorAssociates(x, p, y);
    XorCommutes(y, p);
  }

  // A difference above the low bit moves through a step unchanged,
  lemma StepBitShifts(z: bv32, h: bv32)
    requires h & 1 == 0
    ensures StepBit(Xor(z, h)) == Xor(StepBit(z), Half(h))
  {
    hide Xor, Half, Tap;
    SameTap(z, h);
    HalfXor(z, h);
    XorSwap(Half(z), Half(h), Tap(z));
  }

  function Low(h: bv32): bv32 {
    h & 1
  }

  lemma StepTwice(z: bv32, h: bv32)
    requires Low(h) == 0 && Low(Half(h)) == 0
    ensures StepBit(StepBit(Xor(z, h))) == Xor(StepBit(StepBit(z)), Half(Half(h)))
  {
    StepBitShifts(z, h);
    StepBitShifts(StepBit(z), Half(h));
    hide StepBit, Xor, Half, Low;
  }

  function Quarter(h: bv32): bv32 {
    Half(Half(h))
  }

  // so a difference above the low byte moves through eight.
  lemma Step8Shifts(z: bv32, h: bv32)
    requires h & 0xFF == 0
    ensures Step8(Xor(z, h)) == Xor(Step8(z), h >> 8)
  {
    LowBits(h);
    hide StepBit, Xor, Half, Low;
    StepTwice(z, h);
    StepTwice(StepBit(StepBit(z)), Quarter(h));
    StepTwice(StepBit(StepBit(StepBit(StepBit(z)))), Quarter(Quarter(h)));
    StepTwice(StepBit(StepBit(StepBit(StepBit(StepBit(StepBit(z)))))), Quarter(Quarter(Quarter(h))));
  }

  lemma LowBits(h: bv32)
    requires h & 0xFF == 0
    ensures Low(h) == 0 && Low(Half(h)) == 0
    ensures Low(Quarter(h)) == 0 && Low(Half(Quarter(h))) == 0
    ensures Low(Quarter(Quarter(h))) == 0 && Low(Half(Quarter(Quarter(h)))) == 0
    ensures Low(Quarter(Quarter(Quarter(h)))) == 0 && Low(Half(Quarter(Quarter(Quarter(h))))) == 0
    ensures Quarter(Quarter(Quarter(Quarter(h)))) == h >> 8
  {}

  lemma {:induction false} RegisterSplit(c: bv32, s: seq<byte>, t: seq<byte>)
    ensures Register(c, s + t) == Register(Register(c, s), t)
  {
    hide Xor, Word, Step8;
    if t == [] {
      assert s + t == s;
    } else {
      var last := |t| - 1;
      RegisterSplit(c, s, t[..last]);
      assert (s + t)[..|s + t| - 1] == s + t[..last];
    }
  }

  lemma {:induction false} RegisterInjective(x: bv32, y: bv32, s: seq<byte>)
    requires Register(x, s) == Register(y, s)
    ensures x == y
  {
    hide Xor, Word, Step8;
    if s != [] {
      var last := |s| - 1;
      var rx, ry, w := Register(x, s[..last]), Register(y, s[..last]), Word(s[last]);
      Step8Injective(Xor(rx, w), Xor(ry, w));
      XorCancels(rx, ry, w);
      RegisterInjective(x, y, s[..last]);
    }
  }

  lemma XorCancels(x: bv32, y: bv32, w: bv32)
    requires Xor(x, w) == Xor(y, w)
    ensures x == y
  {}

  lemma XorCommutes(x: bv32, y: bv32)
    ensures Xor(x, y) == Xor(y, x)
  {}

  // The two strings differ at most inside one window of w bytes at p.
  ghost predicate DifferWithin(s: seq<byte>, t: seq<byte>, p: nat, w: nat) {
    |s| == |t| && p + w <= |s| && s[..p] == t[..p] && s[p + w..] == t[p + w..]
  }

  // Two windows from the same register state that reach the same state are equal.
  lemma WindowInjective(c: bv32, u: seq<byte>, v: seq<byte>)
    requires |u| == |v| <= 4 && Register(c, u) == Register(c, v)
    ensures u == v
  {
    hide Step8, Register, Xor, Word, At, Rounds;
    WindowWord(c, u);
    WindowWord(c, v);
    RoundsInjective(Xor(c, LittleEndian(u)), Xor(c, LittleEndian(v)), |u|);
    XorCommutes(c, LittleEndian(u));
    XorCommutes(c, LittleEndian(v));
    XorCancels(LittleEndian(u), LittleEndian(v), c);
    LittleEndianInjective(u, v);
  }

  // The bytes as one word, the first byte lowest.
  function LittleEndian(u: seq<byte>): bv32
    requires |u| <= 4
  {
    if |u| == 0 then 0 else Xor(LittleEndian(u[..|u| - 1]), At(Word(u[|u| - 1]), |u| - 1))
  }

  function At(b: bv32, k: nat): bv32
    requires k < 4
  {
    if k == 0 then b else if k == 1 then b << 8 else if k == 2 then b << 16 else b << 24
  }

  function Rounds(c: bv32, n: nat): bv32 {
    if n == 0 then c else Step8(Rounds(c, n - 1))
  }

  lemma {:induction false} RoundsInjective(x: bv32, y: bv32, n: nat)
    requires Rounds(x, n) == Rounds(y, n)
    ensures x == y
  {
    hide Step8;
    if n > 0 {
      Step8Injective(Rounds(x, n - 1), Rounds(y, n - 1));
      RoundsInjective(x, y, n - 1);
    }
  }

  predicate FitsByte(b: bv32) {
    b & 0xFF == b
  }

  lemma RoundShift(z: bv32, b: bv32, k: nat)
    requires k < 3 && FitsByte(b)
    ensures Step8(Xor(z, At(b, k + 1))) == Xor(Step8(z), At(b, k))
  {
    AtFacts(b, k);
    Step8Shifts(z, At(b, k + 1));
    hide Step8, Xor;
  }

  lemma AtFacts(b: bv32, k: nat)
    requires k < 3 && FitsByte(b)
    ensures At(b, k + 1) & 0xFF == 0 && At(b, k + 1) >> 8 == At(b, k)
  {}

  // A byte entering after k rounds could have entered k bytes higher at the start.
  lemma {:induction false} RoundsShift(z: bv32, b: bv32, k: nat)
    requires k < 4 && FitsByte(b)
    ensures Rounds(Xor(z, At(b, k)), k) == Xor(Rounds(z, k), b)
  {
    RoundsPartly(z, b, k, k);
    hide Step8, Xor, FitsByte;
  }

  lemma {:induction false} RoundsPartly(z: bv32, b: bv32, k: nat, n: nat)
    requires n <= k < 4 && FitsByte(b)
    ensures Rounds(Xor(z, At(b, k)), n) == Xor(Rounds(z, n), At(b, k - n))
  {
    hide Step8, Xor, At, FitsByte;
    if n > 0 {
      RoundsPartly(z, b, k, n - 1);
      RoundShift(Rounds(z, n - 1), b, k - n);
    }
  }

  function LowMask(k: nat): bv32 {
    if k == 0 then 0 else ShiftIn(LowMask(k - 1), true)
  }

  function Masked(x: bv32, m: bv32): bv32 {
    x & m
  }

  lemma MaskShifts(x: bv32, m: bv32, bit: bool)
    requires Masked(x, m) == x
    ensures Masked(ShiftIn(x, bit), ShiftIn(m, true)) == ShiftIn(x, bit)
  {}

  lemma {:induction false} WordBelow(n: nat, k: nat)
    requires n < Pow2(k)
    ensures Masked(Word(n), LowMask(k)) == Word(n)
  {
    hide ShiftIn, Masked;
    if n == 0 {
      MaskZero(LowMask(k));
    } else {
      WordBelow(n / 2, k - 1);
      MaskShifts(Word(n / 2), LowMask(k - 1), n % 2 == 1);
    }
  }

  lemma MaskZero(m: bv32)
    ensures Masked(0, m) == 0
  {}

  lemma ByteMask()
    ensures LowMask(7) == 0x7F && LowMask(8) == 0xFF
  {
    assert LowMask(1) == 1;
    assert LowMask(2) == 3;
    assert LowMask(3) == 7;
    assert LowMask(4) == 0xF;
    assert LowMask(5) == 0x1F;
    assert LowMask(6) == 0x3F;
    assert LowMask(7) == 0x7F;
  }

  lemma BytePowers()
    ensures Pow2(7) == 128 && Pow2(8) == 256
  {
    assert Pow2(2) == 4;
    assert Pow2(4) == 16;
    assert Pow2(6) == 64;
  }

  lemma WordFits(b: byte)
    ensures FitsByte(Word(b))
  {
    ByteMask();
    BytePowers();
    WordBelow(b, 8);
    hide Word, LowMask;
  }

  lemma {:induction false} WindowWord(c: bv32, u: seq<byte>)
    requires |u| <= 4
    ensures Register(c, u) == Rounds(Xor(c, LittleEndian(u)), |u|)
  {
    hide Step8, Xor, Word, At, FitsByte;
    if |u| == 0 {
      XorZero(c);
    } else {
      var last := |u| - 1;
      var low, b := LittleEndian(u[..last]), Word(u[last]);
      WindowWord(c, u[..last]);
      WordFits(u[last]);
      RoundsShift(Xor(c, low), b, last);
      XorAssociates(c, low, At(b, last));
    }
  }

  lemma XorZero(x: bv32)
    ensures Xor(x, 0) == x
  {}

  lemma XorAssociates(x: bv32, y: bv32, z: bv32)
    ensures Xor(Xor(x, y), z) == Xor(x, Xor(y, z))
  {}

  // x needs at most k bytes.
  predicate Fits(x: bv32, k: nat) {
    && (k == 0 ==> x == 0)
    && (k == 1 ==> x & 0xFF == x)
    && (k == 2 ==> x & 0xFFFF == x)
    && (k == 3 ==> x & 0xFF_FFFF == x)
  }

  lemma FitsNext(x: bv32, b: bv32, k: nat)
    requires k < 3 && Fits(x, k) && FitsByte(b)
    ensures Fits(Xor(x, At(b, k)), k + 1)
  {}

  lemma {:induction false} LittleEndianFits(u: seq<byte>)
    requires |u| <= 3
    ensures Fits(LittleEndian(u), |u|)
  {
    if |u| > 0 {
      hide Fits, Xor, At, FitsByte, Word;
      LittleEndianFits(u[..|u| - 1]);
      WordFits(u[|u| - 1]);
      FitsNext(LittleEndian(u[..|u| - 1]), Word(u[|u| - 1]), |u| - 1);
    }
  }

  lemma SplitTop(x: bv32, y: bv32, a: bv32, b: bv32)
    requires FitsByte(a) && FitsByte(b) && Fits(x, 3) && Fits(y, 3) && Xor(x, a << 24) == Xor(y, b << 24)
    ensures x == y && a == b
  {}

  lemma SplitHigh(x: bv32, y: bv32, a: bv32, b: bv32)
    requires FitsByte(a) && FitsByte(b) && Fits(x, 2) && Fits(y, 2) && Xor(x, a << 16) == Xor(y, b << 16)
    ensures x == y && a == b
  {}

  lemma SplitMiddle(x: bv32, y: bv32, a: bv32, b: bv32)
    requires FitsByte(a) && FitsByte(b) && Fits(x, 1) && Fits(y, 1) && Xor(x, a << 8) == Xor(y, b << 8)
    ensures x == y && a == b
  {}

  lemma SplitWord(x: bv32, y: bv32, a: bv32, b: bv32, k: nat)
    requires k < 4 && FitsByte(a) && FitsByte(b) && Fits(x, k) && Fits(y, k)
    requires Xor(x, At(a, k)) == Xor(y, At(b, k))
    ensures x == y && a == b
  {
    if k == 0 {
      XorCommutes(0, a);
      XorCommutes(0, b);
      XorCancels(a, b, 0);
    } else {
      hide Xor, Fits, FitsByte;
      if k == 1 {
        SplitMiddle(x, y, a, b);
      } else if k == 2 {
        SplitHigh(x, y, a, b);
      } else {
        SplitTop(x, y, a, b);
      }
    }
  }

  lemma ShiftInInjective(x: bv32, y: bv32, p: bool, q: bool)
    requires Masked(x, 0x7F) == x && Masked(y, 0x7F) == y && ShiftIn(x, p) == ShiftIn(y, q)
    ensures x == y && p == q
  {}

  lemma {:induction false} WordInjective(a: byte, b: byte)
    requires Word(a) == Word(b)
    ensures a == b
  {
    if a != 0 || b != 0 {
      ByteMask();
      BytePowers();
      WordBelow(a / 2, 7);
      WordBelow(b / 2, 7);
      ZeroShifted();
      hide ShiftIn, Masked, LowMask;
      ShiftInInjective(Word(a / 2), Word(b / 2), a % 2 == 1, b % 2 == 1);
      WordInjective(a / 2, b / 2);
    }
  }

  lemma ZeroShifted()
    ensures Word(0) == ShiftIn(Word(0 / 2), 0 % 2 == 1)
  {}

  lemma {:induction false} LittleEndianInjective(u: seq<byte>, v: seq<byte>)
    requires |u| == |v| <= 4 && LittleEndian(u) == LittleEndian(v)
    ensures u == v
  {
    if |u| > 0 {
      hide Fits, Xor, At, FitsByte, Word;
      var last := |u| - 1;
      LittleEndianFits(u[..last]);
      LittleEndianFits(v[..last]);
      WordFits(u[last]);
      WordFits(v[last]);
      SplitWord(LittleEndian(u[..last]), LittleEndian(v[..last]), Word(u[last]), Word(v[last]), last);
      WordInjective(u[last], v[last]);
      LittleEndianInjective(u[..last], v[..last]);
      assert u == u[..last] + [u[last]] && v == v[..last] + [v[last]];
    }
  }

  // The low k bits of a word, read as a number.
  function Value(x: bv32, k: nat): (v: nat)
    ensures v < Pow2(k)
    decreases k, x
  {
    if k == 0 then 0 else (if Low(x) == 1 then 1 else 0) + 2 * Value(Half(x), k - 1)
  }

  lemma {:induction false} ValueInjective(x: bv32, y: bv32, k: nat)
    requires Masked(x, LowMask(k)) == x && Masked(y, LowMask(k)) == y && Value(x, k) == Value(y, k)
    ensures x == y
    decreases k
  {
    hide Masked, ShiftIn, Half, Low;
    if k == 0 {
      MaskNothing(x);
      MaskNothing(y);
    } else {
      LowIsBit(x);
      LowIsBit(y);
      HalfMasked(x, LowMask(k - 1));
      HalfMasked(y, LowMask(k - 1));
      ValueInjective(Half(x), Half(y), k - 1);
      HalfInjective(x, y);
    }
  }

  lemma MaskNothing(x: bv32)
    requires Masked(x, 0) == x
    ensures x == 0
  {}

  lemma LowIsBit(x: bv32)
    ensures Low(x) == 0 || Low(x) == 1
  {}

  lemma HalfMasked(x: bv32, m: bv32)
    requires Masked(x, ShiftIn(m, true)) == x
    ensures Masked(Half(x), m) == Half(x)
  {}

  lemma HalfInjective(x: bv32, y: bv32)
    requires Half(x) == Half(y) && Low(x) == Low(y)
    ensures x == y
  {}

  lemma WordMask()
    ensures LowMask(32) == ALL_ONES && Pow2(32) == 0x1_0000_0000
  {
    ByteMask();
    BytePowers();
    assert LowMask(10) == 0x3FF && LowMask(12) == 0xFFF && LowMask(14) == 0x3FFF && LowMask(16) == 0xFFFF;
    assert LowMask(18) == 0x3_FFFF && LowMask(20) == 0xF_FFFF && LowMask(22) == 0x3F_FFFF && LowMask(24) == 0xFF_FFFF;
    assert LowMask(26) == 0x3FF_FFFF && LowMask(28) == 0xFFF_FFFF && LowMask(30) == 0x3FFF_FFFF;
    assert Pow2(10) == 0x400 && Pow2(12) == 0x1000 && Pow2(14) == 0x4000 && Pow2(16) == 0x1_0000;
    assert Pow2(18) == 0x4_0000 && Pow2(20) == 0x10_0000 && Pow2(22) == 0x40_0000 && Pow2(24) == 0x100_0000;
    assert Pow2(26) == 0x400_0000 && Pow2(28) == 0x1000_0000 && Pow2(30) == 0x4000_0000;
  }

  // The checksum as the 32-bit number that is stored and compared.
  function ChecksumWord(s: seq<byte>): (v: nat)
    ensures v < 0x1_0000_0000
  {
    WordMask();
    Value(Checksum(s), 32)
  }

  lemma ChecksumWordInjective(s: seq<byte>, t: seq<byte>)
    requires ChecksumWord(s) == ChecksumWord(t)
    ensures Checksum(s) == Checksum(t)
  {
    hide Checksum;
    WordMask();
    MaskAll(Checksum(s));
    MaskAll(Checksum(t));
    ValueInjective(Checksum(s), Checksum(t), 32);
  }

  lemma MaskAll(x: bv32)
    ensures Masked(x, ALL_ONES) == x
  {}

  // Every error confined to four consecutive bytes changes the checksum.
  lemma WindowDetected(s: seq<byte>, t: seq<byte>, p: nat, w: nat)
    requires w <= 4 && DifferWithin(s, t, p, w)
    ensures Checksum(s) == Checksum(t) <==> s == t
  {
    if Checksum(s) == Checksum(t) {
      var u, v, tail := s[p..p + w], t[p..p + w], s[p + w..];
      var start := Register(ALL_ONES, s[..p]);
      XorCancels(Register(ALL_ONES, s), Register(ALL_ONES, t), ALL_ONES);
      hide Register, Xor;
      assert s == s[..p] + (u + tail) && t == s[..p] + (v + tail);
      RegisterSplit(ALL_ONES, s[..p], u + tail);
      RegisterSplit(ALL_ONES, s[..p], v + tail);
      RegisterSplit(start, u, tail);
      RegisterSplit(start, v, tail);
      RegisterInjective(Register(start, u), Register(start, v), tail);
      WindowInjective(start, u, v);
    }
  }

  lemma DigitWords()
    ensures Word(0x31) == 0x31 && Word(0x32) == 0x32 && Word(0x33) == 0x33 && Word(0x34) == 0x34 && Word(0x35) == 0x35
    ensures Word(0x36) == 0x36 && Word(0x37) == 0x37 && Word(0x38) == 0x38 && Word(0x39) == 0x39
  {
    assert Word(1) == 1 && Word(3) == 3 && Word(6) == 6;
    assert Word(0xC) == 0xC && Word(0xD) == 0xD && Word(0xE) == 0xE;
    assert Word(0x18) == 0x18 && Word(0x19) == 0x19 && Word(0x1A) == 0x1A && Word(0x1B) == 0x1B && Word(0x1C) == 0x1C;
  }

  lemma DigitSteps()
    ensures Step8(Xor(0xFFFF_FFFF, 0x31)) == 0x7C23_1048
    ensures Step8(Xor(0x7C23_1048, 0x32)) == 0xB0AC_BB32
    ensures Step8(Xor(0xB0AC_BB32, 0x33)) == 0x77B7_9C2D
    ensures Step8(Xor(0x77B7_9C2D, 0x34)) == 0x641C_1F5C
    ensures Step8(Xor(0x641C_1F5C, 0x35)) == 0x340A_C5E3
    ensures Step8(Xor(0x340A_C5E3, 0x36)) == 0xF68D_2C9E
    ensures Step8(Xor(0xF68D_2C9E, 0x37)) == 0xAFFC_9660
    ensures Step8(Xor(0xAFFC_9660, 0x38)) == 0x651F_2550
    ensures Step8(Xor(0x651F_2550, 0x39)) == 0x340B_C6D9
  {}

  lemma RegisterNext(s: seq<byte>, k: nat, before: bv32, value: bv32, after: bv32)
    requires k < |s| && Register(ALL_ONES, s[..k]) == before && Word(s[k]) == value && Step8(Xor(before, value)) == after
    ensures Register(ALL_ONES, s[..k + 1]) == after
  {
    hide Word, Step8, Xor;
    assert s[..k + 1][..k] == s[..k];
  }

  // The published check value: the checksum of the nine digits 1 to 9.
  lemma CheckValue()
    ensures Checksum([0x31, 0x32, 0x33, 0x34, 0x35, 0x36, 0x37, 0x38, 0x39]) == 0xCBF4_3926
  {
    hide Word, Step8, Register;
    var digits: seq<byte> := [0x31, 0x32, 0x33, 0x34, 0x35, 0x36, 0x37, 0x38, 0x39];
    DigitWords();
    DigitSteps();
    RegisterNothing(digits[..0]);
    RegisterNext(digits, 0, ALL_ONES, 0x31, 0x7C23_1048);
    RegisterNext(digits, 1, 0x7C23_1048, 0x32, 0xB0AC_BB32);
    RegisterNext(digits, 2, 0xB0AC_BB32, 0x33, 0x77B7_9C2D);
    RegisterNext(digits, 3, 0x77B7_9C2D, 0x34, 0x641C_1F5C);
    RegisterNext(digits, 4, 0x641C_1F5C, 0x35, 0x340A_C5E3);
    RegisterNext(digits, 5, 0x340A_C5E3, 0x36, 0xF68D_2C9E);
    RegisterNext(digits, 6, 0xF68D_2C9E, 0x37, 0xAFFC_9660);
    RegisterNext(digits, 7, 0xAFFC_9660, 0x38, 0x651F_2550);
    RegisterNext(digits, 8, 0x651F_2550, 0x39, 0x340B_C6D9);
    assert digits[..9] == digits;
  }

  // A word made of the digits of a number is read back as that number.
  lemma {:induction false} ValueOfWord(n: nat, k: nat)
    requires n < Pow2(k) && k <= 32
    ensures Value(Word(n), k) == n
  {
    hide Low, Half, ShiftIn, Masked;
    if k == 0 {
      assert n == 0;
    } else {
      ValueOfWord(n / 2, k - 1);
      Pow2Mono(k - 1, 31);
      WordBelow(n / 2, 31);
      WordStep(n);
      HalfShift(Word(n / 2), n % 2 == 1);
    }
  }

  lemma WordStep(n: nat)
    ensures Word(n) == ShiftIn(Word(n / 2), n % 2 == 1)
  {
    if n == 0 {
      ZeroShifted();
    }
  }

  lemma HalfShift(x: bv32, bit: bool)
    requires Masked(x, LowMask(31)) == x
    ensures Half(ShiftIn(x, bit)) == x && Low(ShiftIn(x, bit)) == if bit then 1 else 0
  {
    assert LowMask(10) == 0x3FF;
    assert LowMask(20) == 0xF_FFFF;
    assert LowMask(30) == 0x3FFF_FFFF;
    assert LowMask(31) == 0x7FFF_FFFF;
  }

  lemma {:induction false} Pow2Mono(i: nat, j: nat)
    requires i <= j
    ensures Pow2(i) <= Pow2(j)
    decreases j
  {
    if i < j {
      Pow2Mono(i, j - 1);
    }
  }

  // The check value as the number that is stored and compared.
  lemma CheckNumber()
    ensures ChecksumWord([0x31, 0x32, 0x33, 0x34, 0x35, 0x36, 0x37, 0x38, 0x39]) == 0xCBF4_3926
  {
    CheckValue();
    WordMask();
    ValueOfWord(0xCBF4_3926, 32);
    CheckDigits();
    hide Checksum, Word, Value, LowMask;
  }

  lemma CheckDigits()
    ensures Word(0xCBF4_3926) == 0xCBF4_3926
  {
    hide Word;
    assert Word(0) == 0 by {
      ZeroWord();
    }
    WordNibble(0, 0, true, true, false, false);
    WordNibble(0xC, 0xC, true, false, true, true);
    WordNibble(0xCB, 0xCB, true, true, true, true);
    WordNibble(0xCBF, 0xCBF, false, true, false, false);
    WordNibble(0xCBF4, 0xCBF4, false, false, true, true);
    WordNibble(0xC_BF43, 0xC_BF43, true, false, false, true);
    WordNibble(0xCB_F439, 0xCB_F439, false, false, true, false);
    WordNibble(0xCBF_4392, 0xCBF_4392, false, true, true, false);
  }

  lemma ZeroWord()
    ensures Word(0) == 0
  {}

  lemma WordNibble(n: nat, x: bv32, a: bool, b: bool, c: bool, d: bool)
    requires Word(n) == x
    ensures Word(16 * n + (if a then 8 else 0) + (if b then 4 else 0) + (if c then 2 else 0) + if d then 1 else 0) ==
            ShiftIn(ShiftIn(ShiftIn(ShiftIn(x, a), b), c), d)
  {
    hide Word, ShiftIn;
    WordDigit(n, a);
    WordDigit(2 * n + if a then 1 else 0, b);
    WordDigit(4 * n + (if a then 2 else 0) + if b then 1 else 0, c);
    WordDigit(8 * n + (if a then 4 else 0) + (if b then 2 else 0) + if c then 1 else 0, d);
  }

  lemma WordDigit(n: nat, bit: bool)
    ensures Word(2 * n + if bit then 1 else 0) == ShiftIn(Word(n), bit)
  {
    hide ShiftIn;
    var m := 2 * n + if bit then 1 else 0;
    WordStep(m);
    assert m / 2 == n;
  }

  lemma RegisterNothing(s: seq<byte>)
    requires s == []
    ensures Register(ALL_ONES, s) == ALL_ONES
  {}
}
