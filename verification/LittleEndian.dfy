/** Little-endian numbers in byte strings. */
module LittleEndian {
  import opened Bytes

  const WORDS := 0x1_0000_0000

  function Le16(s: seq<byte>, k: nat): (v: nat)
    requires k + 2 <= |s|
    ensures v < 0x1_0000
  {
    s[k] as nat + 0x100 * s[k + 1] as nat
  }

  function Le32(s: seq<byte>, k: nat): (v: nat)
    requires k + 4 <= |s|
    ensures v < WORDS
  {
    s[k] as nat + 0x100 * s[k + 1] as nat + 0x1_0000 * s[k + 2] as nat + 0x100_0000 * s[k + 3] as nat
  }

  function HalfBytes(v: nat): (s: seq<byte>)
    ensures |s| == 2
  {
    [v % 0x100, v / 0x100 % 0x100]
  }

  function WordBytes(v: nat): (s: seq<byte>)
    ensures |s| == 4
  {
    [v % 0x100, v / 0x100 % 0x100, v / 0x1_0000 % 0x100, v / 0x100_0000 % 0x100]
  }

  // The number that bytes spell in base 256, the lowest first.
  function Base256(s: seq<byte>): nat {
    if s == [] then 0 else s[0] as nat + 0x100 * Base256(s[1..])
  }

  // Words and half words are read as the numbers their bytes spell,
  lemma ReadsLowestFirst(s: seq<byte>, k: nat)
    requires k + 2 <= |s|
    ensures Le16(s, k) == Base256(s[k..k + 2])
    ensures k + 4 <= |s| ==> Le32(s, k) == Base256(s[k..k + 4])
  {
    hide Le16, Le32;
    Spelled16(s[k], s[k + 1]);
    assert s[k..k + 2] == [s[k], s[k + 1]];
    ReadBytes(s, k);
    if k + 4 <= |s| {
      Spelled32(s[k], s[k + 1], s[k + 2], s[k + 3]);
      assert s[k..k + 4] == [s[k], s[k + 1], s[k + 2], s[k + 3]];
    }
  }

  lemma ReadBytes(s: seq<byte>, k: nat)
    requires k + 2 <= |s|
    ensures Le16(s, k) == Le16([s[k], s[k + 1]], 0)
    ensures k + 4 <= |s| ==> Le32(s, k) == Le32([s[k], s[k + 1], s[k + 2], s[k + 3]], 0)
  {}

  lemma Spelled16(a: byte, b: byte)
    ensures Base256([a, b]) == Le16([a, b], 0)
  {
    assert Base256([]) == 0 && Base256([b]) == b as nat by {
      assert [b][1..] == [];
    }
    assert [a, b][1..] == [b];
  }

  lemma Spelled32(a: byte, b: byte, c: byte, d: byte)
    ensures Base256([a, b, c, d]) == Le32([a, b, c, d], 0)
  {
    assert [a, b, c, d][1..] == [b, c, d] && [b, c, d][1..] == [c, d];
    Spelled16(c, d);
  }

  // and words and half words are written as the bytes that spell them.
  lemma WritesLowestFirst(v: nat)
    requires v < WORDS
    ensures Base256(WordBytes(v)) == v
    ensures v < 0x1_0000 ==> Base256(HalfBytes(v)) == v
  {
    if v < 0x1_0000 {
      Spelled16(v % 0x100, v / 0x100);
    }
    hide Le32, Le16, WordBytes;
    WordRoundTrip(v);
    ReadsLowestFirst(WordBytes(v), 0);
    assert WordBytes(v)[0..4] == WordBytes(v);
  }

  // The bytes that spell a number are unique.
  lemma {:induction false} SpellingUnique(s: seq<byte>, t: seq<byte>)
    requires |s| == |t| && Base256(s) == Base256(t)
    ensures s == t
  {
    if s != [] {
      SpellingUnique(s[1..], t[1..]);
      assert s == [s[0]] + s[1..] && t == [t[0]] + t[1..];
    }
  }

  // The first byte counts once, the next 256 times.
  lemma LowestFirst()
    ensures Le16([0x34, 0x12], 0) == 0x1234 && Le32([0x78, 0x56, 0x34, 0x12], 0) == 0x1234_5678
    ensures WordBytes(0x1234_5678) == [0x78, 0x56, 0x34, 0x12]
  {}

  // A word written is the word read.
  lemma WordRoundTrip(v: nat)
    requires v < WORDS
    ensures Le32(WordBytes(v), 0) == v
  {
    assert v / 0x1_0000 == v / 0x100 / 0x100;
    assert v / 0x100_0000 == v / 0x1_0000 / 0x100;
  }

  lemma ShiftedWord(s: seq<byte>, k: nat, w: seq<byte>)
    requires k + 4 <= |s| && |w| == 4 && s[k..k + 4] == w
    ensures Le32(s, k) == Le32(w, 0)
  {
    assert s[k] == w[0] && s[k + 1] == w[1] && s[k + 2] == w[2] && s[k + 3] == w[3];
  }

  lemma WordAt(s: seq<byte>, k: nat, v: nat)
    requires k + 4 <= |s| && v < WORDS && s[k..k + 4] == WordBytes(v)
    ensures Le32(s, k) == v
  {
    WordRoundTrip(v);
    hide Le32, WordBytes;
    ShiftedWord(s, k, WordBytes(v));
  }
}
