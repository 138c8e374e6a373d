/** The resumable frame decoder of src/video/fx3_video_stream.cpp: it may be starved of input after any
  * byte and stops after 4096 output bytes a service, and must still decode what PackBits means. */
module FrameDecoder {
  import opened Bytes
  import opened PackBits
  import Crc32

  const WORK := 4096

  // Where decoding stands inside a chunk.
  datatype Chunk = Fresh | Literal(left: nat) | Awaiting(left: nat) | Repeating(left: nat, value: byte)

  // What the rest of the stored bytes means from there.
  function Resume(c: Chunk, r: seq<byte>): Option<seq<byte>> {
    match c
    case Fresh => Unpack(r)
    case Literal(n) => if |r| < n then None else Prepend(r[..n], Unpack(r[n..]))
    case Awaiting(n) => if r == [] then None else Prepend(Repeat(r[0], n), Unpack(r[1..]))
    case Repeating(n, b) => Prepend(Repeat(b, n), Unpack(r))
  }

  // Having consumed this much and written out, any rest means out followed by what resuming yields.
  ghost predicate Tracks(consumed: seq<byte>, out: seq<byte>, c: Chunk) {
    forall r :: Unpack(consumed + r) == Prepend(out, Resume(c, r))
  }

  lemma TrackStart()
    ensures Tracks([], [], Fresh)
  {
    forall r: seq<byte>
      ensures Unpack([] + r) == Prepend([], Resume(Fresh, r))
    {
      assert [] + r == r;
      PrependNothing(Unpack(r));
    }
  }

  function AfterTag(tag: byte): Chunk
    requires tag != FORBIDDEN_TAG
  {
    if tag < 128 then Literal(Count(tag)) else Awaiting(Count(tag))
  }

  lemma ResumeTag(tag: byte, r: seq<byte>)
    ensures tag == FORBIDDEN_TAG ==> Unpack([tag] + r).None?
    ensures tag != FORBIDDEN_TAG ==> Unpack([tag] + r) == Resume(AfterTag(tag), r)
  {
    var d := [tag] + r;
    if tag != FORBIDDEN_TAG && ChunkSize(tag) <= |d| {
      assert d[ChunkSize(tag)..] == r[ChunkSize(tag) - 1..];
      assert tag < 128 ==> d[1..1 + Count(tag)] == r[..Count(tag)];
    }
  }

  lemma TrackTag(consumed: seq<byte>, out: seq<byte>, tag: byte)
    requires Tracks(consumed, out, Fresh)
    ensures tag != FORBIDDEN_TAG ==> Tracks(consumed + [tag], out, AfterTag(tag))
    ensures tag == FORBIDDEN_TAG ==> forall r :: Unpack(consumed + [tag] + r).None?
  {
    forall r: seq<byte>
      ensures tag != FORBIDDEN_TAG ==> Unpack(consumed + [tag] + r) == Prepend(out, Resume(AfterTag(tag), r))
      ensures tag == FORBIDDEN_TAG ==> Unpack(consumed + [tag] + r).None?
    {
      ResumeTag(tag, r);
      assert consumed + [tag] + r == consumed + ([tag] + r);
      assert Unpack(consumed + ([tag] + r)) == Prepend(out, Resume(Fresh, [tag] + r));
    }
  }

  lemma TrackRepeat(consumed: seq<byte>, out: seq<byte>, n: nat, b: byte)
    requires Tracks(consumed, out, Awaiting(n))
    ensures Tracks(consumed + [b], out, Repeating(n, b))
  {
    forall r: seq<byte>
      ensures Unpack(consumed + [b] + r) == Prepend(out, Resume(Repeating(n, b), r))
    {
      assert consumed + [b] + r == consumed + ([b] + r);
      assert Unpack(consumed + ([b] + r)) == Prepend(out, Resume(Awaiting(n), [b] + r));
      assert ([b] + r)[1..] == r;
    }
  }

  function Shorter(c: Chunk): Chunk
    requires c.Literal? || c.Repeating?
    requires 0 < c.left
  {
    if c.left == 1 then Fresh
    else if c.Literal? then Literal(c.left - 1)
    else Repeating(c.left - 1, c.value)
  }

  lemma ResumeRepeating(n: nat, b: byte, r: seq<byte>)
    requires 0 < n
    ensures Resume(Repeating(n, b), r) == Prepend([b], Resume(Shorter(Repeating(n, b)), r))
  {
    assert Repeat(b, n) == [b] + Repeat(b, n - 1);
    if n == 1 {
      assert Repeat(b, 1) == [b];
    } else {
      PrependTwice([b], Repeat(b, n - 1), Unpack(r));
    }
  }

  lemma TrackRepeated(consumed: seq<byte>, out: seq<byte>, n: nat, b: byte)
    requires 0 < n && Tracks(consumed, out, Repeating(n, b))
    ensures Tracks(consumed, out + [b], Shorter(Repeating(n, b)))
  {
    forall r: seq<byte>
      ensures Unpack(consumed + r) == Prepend(out + [b], Resume(Shorter(Repeating(n, b)), r))
    {
      ResumeRepeating(n, b, r);
      PrependTwice(out, [b], Resume(Shorter(Repeating(n, b)), r));
    }
  }

  lemma ResumeLiteral(n: nat, b: byte, r: seq<byte>)
    requires 0 < n
    ensures Resume(Literal(n), [b] + r) == Prepend([b], Resume(Shorter(Literal(n)), r))
  {
    var d := [b] + r;
    if n <= |d| {
      assert d[n..] == r[n - 1..];
      if n == 1 {
        assert d[..1] == [b] && r[0..] == r;
      } else {
        assert d[..n] == [b] + r[..n - 1];
        PrependTwice([b], r[..n - 1], Unpack(r[n - 1..]));
      }
    }
  }

  lemma TrackLiteral(consumed: seq<byte>, out: seq<byte>, n: nat, b: byte)
    requires 0 < n && Tracks(consumed, out, Literal(n))
    ensures Tracks(consumed + [b], out + [b], Shorter(Literal(n)))
  {
    forall r: seq<byte>
      ensures Unpack(consumed + [b] + r) == Prepend(out + [b], Resume(Shorter(Literal(n)), r))
    {
      assert consumed + [b] + r == consumed + ([b] + r);
      assert Unpack(consumed + ([b] + r)) == Prepend(out, Resume(Literal(n), [b] + r));
      ResumeLiteral(n, b, r);
      PrependTwice(out, [b], Resume(Shorter(Literal(n)), r));
    }
  }

  // What a complete frame's stored bytes mean under its codec.
  function Meaning(codec: nat, stored: seq<byte>): Option<seq<byte>> {
    if codec == 0 then Some(stored) else Unpack(stored)
  }

  // The stored bytes decode to exactly the declared number of bytes.
  predicate Accepts(codec: nat, stored: seq<byte>, decoded: nat) {
    Meaning(codec, stored).Some? && |Meaning(codec, stored).value| == decoded
  }

  ghost predicate Hopeless(codec: nat, consumed: seq<byte>, rest: nat, decoded: nat) {
    forall r :: |r| == rest ==> !Accepts(codec, consumed + r, decoded)
  }

  ghost predicate Follows(codec: nat, consumed: seq<byte>, out: seq<byte>, c: Chunk) {
    if codec == 0 then consumed == out && c == Fresh else Tracks(consumed, out, c)
  }

  // Outputs that must still come before the next chunk.
  function Left(c: Chunk): nat {
    if c.Fresh? then 0 else c.left
  }

  lemma ResumeAtLeast(c: Chunk, r: seq<byte>)
    ensures Resume(c, r).Some? ==> Left(c) <= |Resume(c, r).value|
    ensures c.Fresh? && Resume(c, r).Some? && r != [] ==> 1 <= |Resume(c, r).value|
  {}

  // A chunk that is too long for the declared size cannot be rescued.
  lemma TooLong(consumed: seq<byte>, out: seq<byte>, c: Chunk, rest: nat, decoded: nat)
    requires Tracks(consumed, out, c)
    requires decoded < |out| + Left(c) || (decoded == |out| && 0 < rest && c.Fresh?)
    ensures Hopeless(1, consumed, rest, decoded)
  {
    forall r: seq<byte> | |r| == rest
      ensures !Accepts(1, consumed + r, decoded)
    {
      ResumeAtLeast(c, r);
      assert Unpack(consumed + r) == Prepend(out, Resume(c, r));
    }
  }

  lemma Forbidden(consumed: seq<byte>, rest: nat, decoded: nat)
    requires forall r :: Unpack(consumed + r).None?
    ensures Hopeless(1, consumed, rest, decoded)
  {}

  // Nor can one that needs input when none is left.
  lemma TooShort(consumed: seq<byte>, out: seq<byte>, c: Chunk, decoded: nat)
    requires Tracks(consumed, out, c) && |out| < decoded && !c.Repeating? && (c.Fresh? || 0 < c.left)
    ensures Hopeless(1, consumed, 0, decoded)
  {
    forall r: seq<byte> | |r| == 0
      ensures !Accepts(1, consumed + r, decoded)
    {
      assert Unpack(consumed + r) == Prepend(out, Resume(c, r));
    }
  }

  lemma Finished(codec: nat, consumed: seq<byte>, out: seq<byte>)
    requires Follows(codec, consumed, out, Fresh)
    ensures Meaning(codec, consumed) == Some(out)
  {
    assert consumed + [] == consumed && out + [] == out;
    if codec != 0 {
      assert Unpack(consumed + []) == Prepend(out, Resume(Fresh, []));
    }
  }

  datatype Outcome = More | Complete | Rejected

  class Decoder {
    const ram: array<byte>
    var base: nat
    var codec: nat
    var stored: nat // stored bytes of the frame still to be read
    var decoded: nat
    var written: nat
    var crc: bv32
    var run: nat
    var repeat: bool
    var needRepeat: bool
    var repeatByte: byte
    ghost var consumed: seq<byte>

    constructor (ram: array<byte>)
      ensures this.ram == ram && decoded == 0
    {
      this.ram := ram;
      base, codec, stored, decoded, written, run, repeatByte := 0, 0, 0, 0, 0, 0, 0;
      repeat, needRepeat, crc, consumed := false, false, Crc32.ALL_ONES, [];
    }

    function Stand(): Chunk
      reads this
    {
      if run == 0 then Fresh
      else if !repeat then Literal(run)
      else if needRepeat then Awaiting(run)
      else Repeating(run, repeatByte)
    }

    ghost function Out(): seq<byte>
      requires base + written <= ram.Length
      reads this, ram
    {
      ram[base..base + written]
    }

    predicate Shape()
      reads this
    {
      && base + decoded <= ram.Length && written + run <= decoded && codec <= 1
      && (needRepeat ==> repeat && 0 < run)
      && (codec == 0 ==> run == 0 && stored + written == decoded)
    }

    ghost predicate Valid()
      reads this, ram
    {
      && Shape()
      && crc == Crc32.Register(Crc32.ALL_ONES, Out())
      && Follows(codec, consumed, Out(), Stand())
    }

    // What a service may touch: its own counters, and its page from the first unwritten byte on.
    twostate predicate Within()
      reads this, ram
    {
      && base == old(base) && codec == old(codec) && decoded == old(decoded) && old(written) <= written
      && forall i :: 0 <= i < ram.Length && !(base + old(written) <= i < base + decoded) ==> ram[i] == old(ram[i])
    }

    method Start(base: nat, codec: nat, stored: nat, decoded: nat)
      requires base + decoded <= ram.Length && codec <= 1 && (codec == 0 ==> stored == decoded)
      modifies this
      ensures Valid() && this.base == base && this.codec == codec && this.stored == stored && this.decoded == decoded
      ensures written == 0 && run == 0 && consumed == []
    {
      this.base, this.codec, this.stored, this.decoded := base, codec, stored, decoded;
      written, run, crc, needRepeat, consumed := 0, 0, Crc32.ALL_ONES, false, [];
      TrackStart();
      assert ram[base..base] == [];
    }

    // Store one byte of the page and fold it into the checksum.
    method Output(value: byte)
      requires base + written < ram.Length && crc == Crc32.Register(Crc32.ALL_ONES, Out())
      modifies this`written, this`crc, ram
      ensures written == old(written) + 1 && base + written <= ram.Length
      ensures Out() == old(Out()) + [value] && crc == Crc32.Register(Crc32.ALL_ONES, Out())
      ensures forall i :: 0 <= i < ram.Length && i != base + old(written) ==> ram[i] == old(ram[i])
    {
      hide Crc32.Word, Crc32.Step8, Crc32.StepBit, Crc32.Xor;
      ghost var before := Out();
      ram[base + written] := value;
      written := written + 1;
      var register := Crc32.Xor(crc, Crc32.Word(value));
      ghost var mixed := register;
      var bit := 0;
      while bit < 8
        invariant 0 <= bit <= 8 && register == Crc32.Steps(mixed, bit)
      {
        register := Crc32.StepBit(register);
        bit := bit + 1;
      }
      Crc32.EightSteps(mixed);
      crc := register;
      assert Out() == before + [value] && Out()[..|Out()| - 1] == before;
    }

    // The next stored byte, if the frame has one left and it has arrived.
    method Next(input: seq<byte>, used: nat) returns (ok: bool, value: byte, used': nat)
      requires used <= |input|
      modifies this`stored, this`consumed
      ensures ok <==> 0 < old(stored) && used < |input|
      ensures used <= used' <= |input| && consumed == old(consumed) + input[used..used'] && stored == old(stored) - (used' - used)
      ensures ok ==> used' == used + 1 && value == input[used] && consumed == old(consumed) + [value]
      ensures !ok ==> used' == used && consumed == old(consumed)
    {
      ok, value, used' := 0 < stored && used < |input|, 0, used;
      if ok {
        value, used' := input[used], used + 1;
        stored := stored - 1;
        consumed := consumed + [value];
      }
    }

    // One uncompressed byte.
    method StepRaw(input: seq<byte>, used: nat) returns (moved: bool, used': nat)
      requires Valid() && codec == 0 && written < decoded && used <= |input|
      modifies this, ram
      ensures Valid() && Within() && used <= used' <= |input|
      ensures consumed == old(consumed) + input[used..used'] && stored == old(stored) - (used' - used)
      ensures moved ==> written == old(written) + 1
      ensures !moved ==> written == old(written) && used' == |input|
    {
      hide Tracks, Crc32.Register;
      var value;
      moved, value, used' := Next(input, used);
      if moved {
        Output(value);
      }
    }

    // A new chunk's tag.
    method ReadTag(input: seq<byte>, used: nat) returns (moved: bool, good: bool, used': nat)
      requires Valid() && codec == 1 && run == 0 && written < decoded && used <= |input|
      modifies this
      ensures Within() && unchanged(ram) && written == old(written) && used <= used' <= |input|
      ensures consumed == old(consumed) + input[used..used'] && stored == old(stored) - (used' - used)
      ensures good ==> Valid() && (moved ==> 0 < run)
      ensures !moved ==> good && run == 0 && used' == used && (stored == 0 || used == |input|)
      ensures !good ==> Hopeless(codec, consumed, stored, decoded)
    {
      hide Tracks, Hopeless, Crc32.Register;
      var value;
      good := true;
      ghost var before := consumed;
      moved, value, used' := Next(input, used);
      if !moved {
        return;
      }
      TrackTag(before, Out(), value);
      if value == FORBIDDEN_TAG {
        good := false;
        Forbidden(consumed, stored, decoded);
        return;
      }
      repeat := value > 128;
      needRepeat := repeat;
      run := if repeat then 257 - value as nat else value as nat + 1;
      if run > decoded - written {
        good := false;
        TooLong(consumed, Out(), AfterTag(value), stored, decoded);
      }
    }

    // The byte a repeat chunk repeats.
    method ReadRepeat(input: seq<byte>, used: nat) returns (moved: bool, used': nat)
      requires Valid() && codec == 1 && needRepeat && used <= |input|
      modifies this
      ensures Valid() && Within() && unchanged(ram) && written == old(written) && run == old(run) && used <= used' <= |input|
      ensures consumed == old(consumed) + input[used..used'] && stored == old(stored) - (used' - used)
      ensures repeat && needRepeat == !moved && (!moved ==> stored == 0 || used' == |input|)
    {
      hide Tracks, Crc32.Register;
      ghost var before := consumed;
      var value;
      moved, value, used' := Next(input, used);
      if moved {
        TrackRepeat(before, Out(), run, value);
        repeatByte, needRepeat := value, false;
      }
    }

    // One output byte of a chunk that has everything but, at most, this literal byte.
    method StepByte(input: seq<byte>, used: nat) returns (moved: bool, used': nat)
      requires Valid() && codec == 1 && 0 < run && !needRepeat && used <= |input|
      modifies this, ram
      ensures Valid() && Within() && used <= used' <= |input|
      ensures consumed == old(consumed) + input[used..used'] && stored == old(stored) - (used' - used)
      ensures moved ==> written == old(written) + 1
      ensures !moved ==> written == old(written) && 0 < run && Stand().Literal? && (stored == 0 || used' == |input|)
    {
      hide Tracks, Crc32.Register;
      var value;
      ghost var from := consumed;
      moved, used' := true, used;
      if repeat {
        value := repeatByte;
        TrackRepeated(consumed, Out(), run, value);
      } else {
        moved, value, used' := Next(input, used);
        if !moved {
          return;
        }
        TrackLiteral(from, Out(), run, value);
      }
      Output(value);
      run := run - 1;
    }

    // One output byte of the chunk at hand, reading what it needs.
    method StepChunk(input: seq<byte>, used: nat) returns (moved: bool, used': nat)
      requires Valid() && codec == 1 && 0 < run && used <= |input|
      modifies this, ram
      ensures Valid() && Within() && used <= used' <= |input|
      ensures consumed == old(consumed) + input[used..used'] && stored == old(stored) - (used' - used)
      ensures moved ==> written == old(written) + 1
      ensures !moved ==> written == old(written) && 0 < run && !Stand().Repeating? && (stored == 0 || used' == |input|)
    {
      hide Tracks, Follows, Crc32.Register;
      moved, used' := true, used;
      if needRepeat {
        moved, used' := ReadRepeat(input, used);
      }
      if moved {
        moved, used' := StepByte(input, used');
      }
    }

    // One turn of the loop: at most one output byte.
    method Step(input: seq<byte>, used: nat) returns (moved: bool, good: bool, used': nat)
      requires Valid() && written < decoded && used <= |input|
      modifies this, ram
      ensures Within() && used <= used' <= |input|
      ensures consumed == old(consumed) + input[used..used'] && stored == old(stored) - (used' - used)
      ensures good ==> Valid() && written == old(written) + if moved then 1 else 0
      ensures good && !moved ==> !Stand().Repeating? && (stored == 0 || used' == |input|)
      ensures !good ==> written == old(written) && Hopeless(codec, consumed, stored, decoded)
    {
      hide Tracks, Follows, Hopeless, Crc32.Register;
      good := true;
      if codec == 0 {
        moved, used' := StepRaw(input, used);
        return;
      }
      moved, used' := true, used;
      if run == 0 {
        moved, good, used' := ReadTag(input, used);
      }
      if moved && good {
        moved, used' := StepChunk(input, used');
      }
    }

    // One service: decode what has arrived, up to the work limit.
    method Service(input: seq<byte>, used: nat) returns (outcome: Outcome, used': nat)
      requires Valid() && used <= |input|
      modifies this, ram
      ensures Within() && used <= used' <= |input| && written <= old(written) + WORK
      ensures consumed == old(consumed) + input[used..used'] && stored == old(stored) - (used' - used)
      ensures outcome != Rejected ==> Valid()
      ensures outcome == Complete ==> written == decoded && stored == 0 && Meaning(codec, consumed) == Some(Out())
      ensures outcome == Rejected ==> Hopeless(codec, consumed, stored, decoded)
      ensures outcome == More ==> written < decoded && (0 < stored || Stand().Repeating?)
      ensures outcome == More ==> written == old(written) + WORK || (used' == |input| && 0 < stored)
    {
      hide Tracks, Follows, Hopeless, Crc32.Register;
      var work, moved, good := 0, true, true;
      used' := used;
      while work < WORK && written < decoded && moved
        invariant Valid() && Within() && used <= used' <= |input|
        invariant consumed == old(consumed) + input[used..used'] && stored == old(stored) - (used' - used)
        invariant moved ==> written == old(written) + work
        invariant work <= WORK && written <= old(written) + work
        invariant !moved ==> written < decoded && !Stand().Repeating? && (stored == 0 || used' == |input|)
        decreases WORK - work, moved
      {
        moved, good, used' := Step(input, used');
        if !good {
          return Rejected, used';
        }
        if moved {
          work := work + 1;
        }
      }
      outcome := Verdict();
    }

    // What the counters say after a service.
    method Verdict() returns (outcome: Outcome)
      requires Valid()
      ensures outcome == Complete ==> written == decoded && stored == 0 && Meaning(codec, consumed) == Some(Out())
      ensures outcome == Rejected ==> Hopeless(codec, consumed, stored, decoded)
      ensures outcome == More ==> written < decoded && (0 < stored || Stand().Repeating?)
    {
      hide Tracks, Hopeless, Crc32.Register, Meaning;
      if written != decoded {
        if stored == 0 && (run == 0 || !repeat || needRepeat) {
          if codec != 0 {
            TooShort(consumed, Out(), Stand(), decoded);
          }
          return Rejected;
        }
        return More;
      }
      if stored != 0 || run != 0 {
        if codec != 0 {
          TooLong(consumed, Out(), Stand(), stored, decoded);
        }
        return Rejected;
      }
      Finished(codec, consumed, Out());
      outcome := Complete;
    }
  }

  ghost function Concat(pieces: seq<seq<byte>>): seq<byte> {
    if pieces == [] then [] else pieces[0] + Concat(pieces[1..])
  }

  // However a frame's bytes and what follows them are split into reads, and wherever the work limit falls:
  // the stream reads before every service that finds its input used up, and the end of the file stops it.
  // If anything follows the frame, decoding completes exactly when its stored bytes mean as many bytes as
  // declared, and then leaves those bytes in the page. If nothing does, the one thing that can keep an
  // acceptable frame from completing is a last repeat chunk with outputs still to come; LastService says when.
  method DecodeSplit(d: Decoder, pieces: seq<seq<byte>>) returns (complete: bool)
    requires d.Valid() && d.written == 0 && d.consumed == [] && 0 < d.stored <= |Concat(pieces)|
    requires forall piece :: piece in pieces ==> piece != []
    modifies d, d.ram
    ensures var frame := Concat(pieces)[..old(d.stored)];
            && (complete ==> Accepts(old(d.codec), frame, old(d.decoded)))
            && (complete ==> Meaning(old(d.codec), frame) == Some(d.ram[old(d.base)..old(d.base) + old(d.decoded)]))
            && (Accepts(old(d.codec), frame, old(d.decoded)) ==>
                  complete || (old(d.stored) == |Concat(pieces)| && d.stored == 0 && d.written < d.decoded && d.Stand().Repeating?))
    ensures forall i :: 0 <= i < d.ram.Length && !(old(d.base) <= i < old(d.base) + old(d.decoded)) ==> d.ram[i] == old(d.ram[i])
  {
    hide Tracks, Follows, Hopeless, Meaning, Accepts, Crc32.Register;
    var input: seq<byte>, used, i, outcome, ended := [], 0, 0, More, false;
    ghost var whole, size := Concat(pieces), d.stored;
    assert pieces[0..] == pieces;
    assert Rest(input, used, pieces, i) == whole;
    while outcome == More && !ended
      invariant 0 <= used <= |input| && 0 <= i <= |pieces|
      invariant d.base == old(d.base) && d.codec == old(d.codec) && d.decoded == old(d.decoded)
      invariant whole == d.consumed + Rest(input, used, pieces, i) && d.stored + |d.consumed| == size
      invariant outcome != Rejected ==> d.Valid()
      invariant outcome == Complete ==> d.written == d.decoded && d.stored == 0 && Meaning(d.codec, d.consumed) == Some(d.Out())
      invariant outcome == Rejected ==> Hopeless(d.codec, d.consumed, d.stored, d.decoded)
      invariant outcome == More ==> 0 < d.stored || (d.written < d.decoded && d.Stand().Repeating?)
      invariant ended ==> Rest(input, used, pieces, i) == [] && outcome == More
      invariant forall k :: 0 <= k < d.ram.Length && !(d.base <= k < d.base + d.decoded) ==> d.ram[k] == old(d.ram[k])
      decreases outcome == More && !ended, d.stored + d.decoded - d.written
    {
      if used == |input| && i == |pieces| {
        RestAtLeast(input, used, pieces, i);
        ended := true;
      } else {
        if used == |input| {
          RestLoads(input, pieces, i);
          assert pieces[i] in pieces;
          input, used, i := pieces[i], 0, i + 1;
        }
        ghost var before, from := d.consumed, used;
        outcome, used := d.Service(input, used);
        RestNext(before, input, from, used, pieces, i);
      }
    }
    complete := outcome == Complete;
    SplitDecided(d.codec, d.consumed, Rest(input, used, pieces, i), size, d.decoded);
  }

  // What is still to be decoded: the unread part of the current piece, and the pieces after it.
  ghost function Rest(input: seq<byte>, used: nat, pieces: seq<seq<byte>>, i: nat): seq<byte>
    requires used <= |input| && i <= |pieces|
  {
    input[used..] + Concat(pieces[i..])
  }

  lemma RestLoads(input: seq<byte>, pieces: seq<seq<byte>>, i: nat)
    requires i < |pieces|
    ensures Rest(input, |input|, pieces, i) == Rest(pieces[i], 0, pieces, i + 1)
  {
    assert pieces[i..][1..] == pieces[i + 1..];
  }

  lemma RestAtLeast(input: seq<byte>, used: nat, pieces: seq<seq<byte>>, i: nat)
    requires used <= |input| && i <= |pieces|
    ensures |input| - used <= |Rest(input, used, pieces, i)|
    ensures used == |input| && i == |pieces| ==> Rest(input, used, pieces, i) == []
  {}

  lemma RestNext(consumed: seq<byte>, input: seq<byte>, from: nat, used: nat, pieces: seq<seq<byte>>, i: nat)
    requires from <= used <= |input| && i <= |pieces|
    ensures consumed + Rest(input, from, pieces, i) == consumed + input[from..used] + Rest(input, used, pieces, i)
    ensures |Rest(input, from, pieces, i)| == used - from + |Rest(input, used, pieces, i)|
  {
    assert input[from..] == input[from..used] + input[used..];
  }

  lemma SplitDecided(codec: nat, consumed: seq<byte>, rest: seq<byte>, size: nat, decoded: nat)
    requires |consumed| <= size <= |consumed + rest|
    ensures |consumed| == size ==> (consumed + rest)[..size] == consumed
    ensures Hopeless(codec, consumed, size - |consumed|, decoded) ==> !Accepts(codec, (consumed + rest)[..size], decoded)
    ensures Meaning(codec, consumed).Some? ==>
              (Accepts(codec, consumed, decoded) <==> |Meaning(codec, consumed).value| == decoded)
  {
    var r := rest[..size - |consumed|];
    assert (consumed + rest)[..size] == consumed + r;
    if Accepts(codec, consumed + r, decoded) {
      NotHopeless(codec, consumed, r, decoded);
    }
  }

  // A service that has the rest of an acceptable frame before it completes the frame exactly when it owes
  // no more output than the work limit allows; otherwise the frame stays pending.
  method LastService(d: Decoder, input: seq<byte>, used: nat) returns (outcome: Outcome, used': nat)
    requires d.Valid() && used + d.stored <= |input|
    requires Accepts(d.codec, d.consumed + input[used..used + d.stored], d.decoded)
    modifies d, d.ram
    ensures d.Valid() && d.Within() && used <= used' <= |input| && d.consumed == old(d.consumed) + input[used..used']
    ensures outcome == if old(d.decoded - d.written) <= 4096 then Complete else More
    ensures outcome == Complete ==> d.stored == 0 && Meaning(d.codec, d.consumed) == Some(d.Out())
    ensures outcome == More ==> d.written == old(d.written) + WORK < d.decoded
  {
    hide Tracks, Hopeless, Accepts, Unpack, Crc32.Register;
    ghost var rest, before := input[used..used + d.stored], d.consumed;
    outcome, used' := d.Service(input, used);
    if outcome == Rejected {
      ghost var r := input[used'..used + old(d.stored)];
      assert before + rest == d.consumed + r;
      NotHopeless(d.codec, d.consumed, r, d.decoded);
    }
  }

  // A final repeat chunk that runs past the work limit leaves the frame unfinished although every stored
  // byte of it has been consumed; the next service will want input that this frame no longer has.
  method RunPastWorkLimit(d: Decoder, a: seq<byte>, tag: byte, b: byte) returns (outcome: Outcome)
    requires d.Valid() && d.codec == 1 && d.written == 0 && d.consumed == [] && d.stored == |a| + 2
    requires 128 < tag && Unpack(a).Some? && |Unpack(a).value| < WORK < |Unpack(a).value| + Count(tag) == d.decoded
    modifies d, d.ram
    ensures Accepts(1, a + [tag, b], old(d.decoded)) && outcome == More && d.stored == 0 && d.consumed == a + [tag, b]
  {
    hide Tracks, Hopeless, Accepts, Unpack, Crc32.Register;
    var s := a + [tag, b];
    WholeAccepted(a, tag, b);
    var used;
    outcome, used := d.Service(s, 0);
    assert s[0..used] == s[..used] && [] + s[..used] == s[..used];
    assert s[..used] + s[used..] == s;
    if outcome == Rejected {
      NotHopeless(1, d.consumed, s[used..], d.decoded);
    } else if used < |s| {
      TooMuchOut(a, tag, b, used, d.Out(), d.Stand());
    }
  }

  lemma NotHopeless(codec: nat, consumed: seq<byte>, r: seq<byte>, decoded: nat)
    requires Accepts(codec, consumed + r, decoded)
    ensures !Hopeless(codec, consumed, |r|, decoded)
  {}

  lemma ChunkAfter(a: seq<byte>, tag: byte, b: byte)
    requires 128 < tag && Unpack(a).Some?
    ensures Unpack(a + [tag, b]) == Some(Unpack(a).value + Repeat(b, Count(tag)))
  {
    AppendChunk(a, Unpack(a).value, [tag, b]);
  }

  lemma WholeAccepted(a: seq<byte>, tag: byte, b: byte)
    requires 128 < tag && Unpack(a).Some?
    ensures Accepts(1, a + [tag, b], |Unpack(a).value| + Count(tag))
  {
    ChunkAfter(a, tag, b);
  }

  // Consuming less than the final chunk cannot have produced more than the chunks before it hold.
  lemma TooMuchOut(a: seq<byte>, tag: byte, b: byte, used: nat, out: seq<byte>, c: Chunk)
    requires 128 < tag && Unpack(a).Some? && used < |a| + 2 && Tracks((a + [tag, b])[..used], out, c)
    ensures |out| <= |Unpack(a).value|
  {
    hide Unpack, Resume;
    var s, x := a + [tag, b], Unpack(a).value;
    if used <= |a| {
      assert s[..used] + a[used..] == a;
      assert Unpack(s[..used] + a[used..]) == Prepend(out, Resume(c, a[used..]));
    } else if |x| < |out| {
      var other: byte := (b + 1) % 256;
      ChunkAfter(a, tag, b);
      ChunkAfter(a, tag, other);
      assert s[..used] + [b] == s && s[..used] + [other] == a + [tag, other];
      assert Unpack(s[..used] + [b]) == Prepend(out, Resume(c, [b]));
      assert Unpack(s[..used] + [other]) == Prepend(out, Resume(c, [other]));
      FirstRepeated(x, b, Count(tag), out, Resume(c, [b]));
      FirstRepeated(x, other, Count(tag), out, Resume(c, [other]));
    }
  }

  lemma FirstRepeated(x: seq<byte>, b: byte, n: nat, out: seq<byte>, tail: Option<seq<byte>>)
    requires 0 < n && Some(x + Repeat(b, n)) == Prepend(out, tail) && |x| < |out|
    ensures out[|x|] == b
  {
    assert (x + Repeat(b, n))[|x|] == b == (out + tail.value)[|x|];
  }
}
