/** The source FIFO of src/audio/fx3_audio_stream.cpp, a ring of bytes. */
module AudioFifo {
  import opened Bytes

  const FIFO_SIZE := 32 * 1024
  const LOW_WATER := 8 * 1024
  const HIGH_WATER := 24 * 1024
  const BURST := 4096

  // An index that has run past the end starts over.
  function Wrap(at: nat): (r: nat)
    ensures r < FIFO_SIZE
  {
    at % FIFO_SIZE
  }

  function Least(a: int, b: int): int {
    if a <= b then a else b
  }

  class Fifo {
    const bytes: array<byte>
    var read: nat
    var write: nat
    var count: nat

    ghost predicate Valid()
      reads this
    {
      bytes.Length == FIFO_SIZE && read < FIFO_SIZE && count <= FIFO_SIZE && write == Wrap(read + count)
    }

    // The queued bytes, oldest first.
    ghost function Contents(): (s: seq<byte>)
      requires Valid()
      reads this, bytes
      ensures |s| == count
    {
      seq(count, i requires 0 <= i < count && bytes.Length == FIFO_SIZE reads this, bytes => bytes[Wrap(read + i)])
    }

    constructor ()
      ensures Valid() && Contents() == [] && fresh(bytes)
    {
      bytes := new byte[FIFO_SIZE](_ => 0);
      read, write, count := 0, 0, 0;
    }

    method Clear()
      requires Valid()
      modifies this
      ensures Valid() && Contents() == []
    {
      read, write, count := 0, 0, 0;
    }

    // Throw away what is queued, as at the end of the source.
    method Drop()
      requires Valid()
      modifies this
      ensures Valid() && Contents() == []
    {
      count, read := 0, write;
    }

    // The largest read that is contiguous, stays below the high-water mark, and is no longer than a burst.
    ghost function Most(): int
      reads this
    {
      Least(0x1000, Least(0x8000 - write, 0x6000 - count))
    }

    // How much one refill may ask for: contiguous room, and no further than the high-water mark.
    method Room() returns (size: nat)
      requires Valid() && count < HIGH_WATER
      ensures size == Most()
      ensures 0 < size <= BURST && write + size <= FIFO_SIZE && count + size <= HIGH_WATER
    {
      size := FIFO_SIZE - write;
      var free, wanted := FIFO_SIZE - count, HIGH_WATER - count;
      size := if size > free then free else size;
      size := if size > wanted then wanted else size;
      size := if size > BURST then BURST else size;
    }

    // The source stored data at the write index.
    method Fill(data: seq<byte>)
      requires Valid() && write + |data| <= FIFO_SIZE && count + |data| <= FIFO_SIZE
      modifies this, bytes
      ensures Valid() && Contents() == old(Contents()) + data
    {
      hide Wrap;
      ghost var before := Contents();
      var i := 0;
      while i < |data|
        invariant 0 <= i <= |data| && Valid()
        invariant read == old(read) && write == old(write) && count == old(count)
        invariant forall k :: 0 <= k < FIFO_SIZE ==> bytes[k] == if write <= k < write + i then data[k - write] else old(bytes[k])
      {
        bytes[write + i] := data[i];
        i := i + 1;
      }
      write := Wrap(write + |data|);
      count := count + |data|;
      WrapAdds(read, old(count), |data|);
      forall k | 0 <= k < count
        ensures Contents()[k] == (before + data)[k]
      {
        WrapApart(read, old(count), |data|, k);
      }
    }

    method Pop(size: nat) returns (data: seq<byte>)
      requires Valid() && size <= count
      modifies `read, `count
      ensures Valid() && data == old(Contents())[..size] && Contents() == old(Contents())[size..]
    {
      hide Wrap;
      ghost var before := Contents();
      data := [];
      WrapInside(read);
      var i, at := 0, read;
      while i < size
        invariant read == old(read) && count == old(count)
        invariant 0 <= i <= size && at < FIFO_SIZE && at == Wrap(read + i) && data == before[..i]
      {
        WrapAdds(read, i, 1);
        assert bytes[at] == before[i];
        data := data + [bytes[at]];
        at := Wrap(at + 1);
        i := i + 1;
      }
      WrapAdds(read, size, count - size);
      ghost var start := read;
      read, count := at, count - size;
      forall k | 0 <= k < count
        ensures Contents()[k] == before[size..][k]
      {
        WrapAdds(start, size, k);
        assert before[size + k] == bytes[Wrap(start + (size + k))];
      }
    }
  }

  lemma WrapInside(at: nat)
    requires at < FIFO_SIZE
    ensures Wrap(at) == at
  {}

  lemma WrapAdds(a: nat, b: nat, c: nat)
    ensures Wrap(Wrap(a + b) + c) == Wrap(a + b + c)
  {}

  // The bytes stored by a fill are the ones after the queue, and no queued byte is one of them.
  lemma WrapApart(read: nat, count: nat, added: nat, k: nat)
    requires read < FIFO_SIZE && count + added <= FIFO_SIZE && k < count + added
    requires Wrap(read + count) + added <= FIFO_SIZE
    ensures var write, at := Wrap(read + count), Wrap(read + k);
            if k < count then !(write <= at < write + added) else at == write + (k - count)
  {}
}
