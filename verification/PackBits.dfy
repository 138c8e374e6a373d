/** The frame codec of src/tools/make_fx3_video.py: PackBits (TIFF 6.0, section 9), with tag 128 an error. */
module PackBits {
  import opened Bytes

  const FORBIDDEN_TAG: byte := 128

  // How many bytes a tag stands for.
  function Count(tag: byte): (count: nat)
    requires tag != FORBIDDEN_TAG
    ensures 1 <= count <= 128
  {
    if tag < 128 then tag + 1 else 257 - tag
  }

  // How many stored bytes a chunk with this tag takes, the tag included.
  function ChunkSize(tag: byte): nat
    requires tag != FORBIDDEN_TAG
  {
    if tag < 128 then 1 + Count(tag) else 2
  }

  // What a complete chunk at the head of d stands for.
  function ChunkBytes(d: seq<byte>): seq<byte>
    requires d != [] && d[0] != FORBIDDEN_TAG && ChunkSize(d[0]) <= |d|
  {
    if d[0] < 128 then d[1..1 + Count(d[0])] else Repeat(d[1], Count(d[0]))
  }

  function Prepend(head: seq<byte>, tail: Option<seq<byte>>): Option<seq<byte>> {
    if tail.None? then None else Some(head + tail.value)
  }

  // The meaning of a stored string, None when it is malformed.
  function Unpack(d: seq<byte>): Option<seq<byte>> {
    if d == [] then Some([])
    else if d[0] == FORBIDDEN_TAG || |d| < ChunkSize(d[0]) then None
    else Prepend(ChunkBytes(d), Unpack(d[ChunkSize(d[0])..]))
  }

  lemma PrependTwice(a: seq<byte>, b: seq<byte>, tail: Option<seq<byte>>)
    ensures Prepend(a, Prepend(b, tail)) == Prepend(a + b, tail)
  {
    if tail.Some? {
      assert a + (b + tail.value) == a + b + tail.value;
    }
  }

  lemma PrependNothing(tail: Option<seq<byte>>)
    ensures Prepend([], tail) == tail
  {
    if tail.Some? {
      assert [] + tail.value == tail.value;
    }
  }

  method Unpackbits(data: seq<byte>) returns (r: Option<seq<byte>>)
    ensures r == Unpack(data)
  {
    var out: seq<byte> := [];
    var i := 0;
    assert data[0..] == data;
    PrependNothing(Unpack(data));
    while i < |data|
      invariant 0 <= i <= |data|
      invariant Unpack(data) == Prepend(out, Unpack(data[i..]))
    {
      var tag := data[i];
      ghost var rest := data[i..];
      i := i + 1;
      if tag == FORBIDDEN_TAG {
        return None;
      }
      var count := if tag < 128 then tag as nat + 1 else 257 - tag as nat;
      if i + (if tag < 128 then count else 1) > |data| {
        return None;
      }
      ghost var chunk := ChunkBytes(rest);
      PrependTwice(out, chunk, Unpack(rest[ChunkSize(tag)..]));
      if tag < 128 {
        assert data[i..i + count] == chunk;
        out := out + data[i..i + count];
        i := i + count;
      } else {
        out := out + Repeat(data[i], count);
        i := i + 1;
      }
      assert data[i..] == rest[ChunkSize(tag)..];
    }
    assert out + [] == out;
    r := Some(out);
  }

  // A complete stored string followed by another means one after the other.
  lemma {:induction false} UnpackAppend(a: seq<byte>, b: seq<byte>)
    requires Unpack(a).Some?
    ensures Unpack(a + b) == Prepend(Unpack(a).value, Unpack(b))
  {
    if a == [] {
      assert a + b == b;
      PrependNothing(Unpack(b));
    } else {
      var k := ChunkSize(a[0]);
      UnpackAppend(a[k..], b);
      ChunkAppend(a, b);
      hide ChunkBytes, Prepend;
      PrependTwice(ChunkBytes(a), Unpack(a[k..]).value, Unpack(b));
      PrependSome(ChunkBytes(a), Unpack(a[k..]));
    }
  }

  lemma PrependSome(head: seq<byte>, tail: Option<seq<byte>>)
    ensures Prepend(head, tail).Some? <==> tail.Some?
    ensures tail.Some? ==> Prepend(head, tail) == Some(head + tail.value)
  {}

  lemma ChunkAppend(a: seq<byte>, b: seq<byte>)
    requires a != [] && a[0] != FORBIDDEN_TAG && ChunkSize(a[0]) <= |a|
    ensures var k := ChunkSize(a[0]);
            (a + b)[0] == a[0] && k <= |a + b| && (a + b)[k..] == a[k..] + b && ChunkBytes(a + b) == ChunkBytes(a)
  {
    assert (a + b)[1..ChunkSize(a[0])] == a[1..ChunkSize(a[0])];
  }

  lemma UnpackOne(d: seq<byte>)
    requires d != [] && d[0] != FORBIDDEN_TAG && |d| == ChunkSize(d[0])
    ensures Unpack(d) == Some(ChunkBytes(d))
  {
    assert d[ChunkSize(d[0])..] == [];
    assert ChunkBytes(d) + [] == ChunkBytes(d);
  }

  lemma AppendChunk(before: seq<byte>, data: seq<byte>, chunk: seq<byte>)
    requires Unpack(before) == Some(data)
    requires chunk != [] && chunk[0] != FORBIDDEN_TAG && |chunk| == ChunkSize(chunk[0])
    ensures Unpack(before + chunk) == Some(data + ChunkBytes(chunk))
  {
    UnpackAppend(before, chunk);
    UnpackOne(chunk);
  }

  lemma UnpackEmpty()
    ensures Unpack([]) == Some([])
  {}

  // Three equal bytes from i on.
  predicate RunAt(data: seq<byte>, i: nat) {
    i + 3 <= |data| && data[i] == data[i + 1] == data[i + 2]
  }

  // The run of equal bytes at i, counted up to a limit.
  method CountRun(data: seq<byte>, i: nat, limit: nat) returns (run: nat)
    requires i < |data| && 1 <= limit
    ensures 1 <= run <= limit && i + run <= |data|
    ensures forall k :: i <= k < i + run ==> data[k] == data[i]
    ensures run < limit ==> i + run == |data| || data[i + run] != data[i]
    ensures 3 <= limit ==> (3 <= run <==> RunAt(data, i))
  {
    run := 1;
    while run < limit && i + run < |data| && data[i + run] == data[i]
      invariant 1 <= run <= limit && i + run <= |data|
      invariant forall k :: i <= k < i + run ==> data[k] == data[i]
    {
      run := run + 1;
    }
  }

  // The end of the literal that starts at start: 128 bytes, or up to the next run of three or the end.
  method LiteralEnd(data: seq<byte>, start: nat, first: nat) returns (i: nat)
    requires start + first <= |data| && 1 <= first <= 2
    ensures start < i <= |data| && i - start <= 128
    ensures i - start < 128 ==> i == |data| || RunAt(data, i)
    ensures forall k :: start + first <= k < i ==> !RunAt(data, k)
  {
    i := start + first;
    while i < |data| && i - start < 128
      invariant start < i <= |data| && i - start <= 128
      invariant forall k :: start + first <= k < i ==> !RunAt(data, k)
    {
      var run := CountRun(data, i, 3);
      if run == 3 {
        break;
      }
      i := i + (if run < 128 - (i - start) then run else 128 - (i - start));
    }
  }

  // Where the run of data[i] that has reached j ends, and where the literal does.
  function RunEnd(data: seq<byte>, i: nat, j: nat): (end: nat)
    requires i < j <= |data| && j - i <= 128
    ensures j <= end <= |data| && end - i <= 128
    decreases |data| - j
  {
    if j < |data| && j - i < 128 && data[j] == data[i] then RunEnd(data, i, j + 1) else j
  }

  function LiteralStop(data: seq<byte>, i: nat, j: nat): (end: nat)
    requires i < j <= |data| && j - i <= 128
    ensures j <= end <= |data| && end - i <= 128
    ensures end - i < 128 ==> end == |data| || RunAt(data, end)
    decreases |data| - j
  {
    if j < |data| && j - i < 128 && !RunAt(data, j) then LiteralStop(data, i, j + 1) else j
  }

  // The packed form from i on: a run of three or more in two bytes, and what lies before the next one as it is.
  function Packed(data: seq<byte>, i: nat): seq<byte>
    requires i <= |data|
    decreases |data| - i
  {
    if i == |data| then []
    else if RunAt(data, i) then
      var end := RunEnd(data, i, i + 1);
      [257 - (end - i) as int, data[i]] + Packed(data, end)
    else
      var end := LiteralStop(data, i, i + 1);
      [(end - i - 1) as int] + data[i..end] + Packed(data, end)
  }

  lemma {:induction false} RunEndIs(data: seq<byte>, i: nat, j: nat, end: nat)
    requires i < j <= end <= |data| && end - i <= 128 && forall k :: i <= k < end ==> data[k] == data[i]
    requires end - i < 128 ==> end == |data| || data[end] != data[i]
    ensures RunEnd(data, i, j) == end
    decreases end - j
  {
    if j < end {
      RunEndIs(data, i, j + 1, end);
    }
  }

  lemma {:induction false} LiteralStopIs(data: seq<byte>, i: nat, j: nat, end: nat)
    requires i < j <= end <= |data| && end - i <= 128 && forall k :: j <= k < end ==> !RunAt(data, k)
    requires end - i < 128 ==> end == |data| || RunAt(data, end)
    ensures LiteralStop(data, i, j) == end
    decreases end - j
  {
    if j < end {
      LiteralStopIs(data, i, j + 1, end);
    }
  }

  lemma {:induction false} RunIsEqual(data: seq<byte>, i: nat, j: nat)
    requires i < j <= |data| && j - i <= 128 && forall k :: i <= k < j ==> data[k] == data[i]
    ensures forall k :: i <= k < RunEnd(data, i, j) ==> data[k] == data[i]
    ensures RunAt(data, i) ==> i + 3 <= RunEnd(data, i, j)
    decreases |data| - j
  {
    if j < |data| && j - i < 128 && data[j] == data[i] {
      RunIsEqual(data, i, j + 1);
    }
  }

  // Unpacking the packed form gives the string back,
  lemma {:induction false} PackedUnpacks(data: seq<byte>, i: nat)
    requires i <= |data|
    ensures Unpack(Packed(data, i)) == Some(data[i..])
    decreases |data| - i
  {
    hide Unpack, RunEnd, LiteralStop;
    if i == |data| {
      UnpackEmpty();
      assert data[i..] == [];
    } else if RunAt(data, i) {
      var end := RunEnd(data, i, i + 1);
      RunIsEqual(data, i, i + 1);
      PackedUnpacks(data, end);
      RunUnpacks(data, i, end, Packed(data, end));
    } else {
      var end := LiteralStop(data, i, i + 1);
      PackedUnpacks(data, end);
      LiteralUnpacks(data, i, end, Packed(data, end));
    }
  }

  lemma RunUnpacks(data: seq<byte>, i: nat, end: nat, rest: seq<byte>)
    requires i + 3 <= end <= |data| && end - i <= 128 && forall k :: i <= k < end ==> data[k] == data[i]
    requires Unpack(rest) == Some(data[end..])
    ensures Unpack([257 - (end - i), data[i]] + rest) == Some(data[i..])
  {
    hide Unpack, ChunkBytes, ChunkSize;
    RunChunk(data, i, end);
    UnpackFirst([257 - (end - i), data[i]], rest);
    assert data[i..] == data[i..end] + data[end..];
  }

  lemma LiteralUnpacks(data: seq<byte>, i: nat, end: nat, rest: seq<byte>)
    requires i < end <= |data| && end - i <= 128 && Unpack(rest) == Some(data[end..])
    ensures Unpack([end - i - 1] + data[i..end] + rest) == Some(data[i..])
  {
    hide Unpack, ChunkBytes, ChunkSize;
    LiteralChunk(data, i, end);
    UnpackFirst([end - i - 1] + data[i..end], rest);
    assert data[i..] == data[i..end] + data[end..];
  }

  lemma UnpackFirst(chunk: seq<byte>, rest: seq<byte>)
    requires chunk != [] && chunk[0] != FORBIDDEN_TAG && |chunk| == ChunkSize(chunk[0]) && Unpack(rest).Some?
    ensures Unpack(chunk + rest) == Some(ChunkBytes(chunk) + Unpack(rest).value)
  {
    UnpackOne(chunk);
    UnpackAppend(chunk, rest);
  }

  lemma RunChunk(data: seq<byte>, i: nat, end: nat)
    requires i + 3 <= end <= |data| && end - i <= 128 && forall k :: i <= k < end ==> data[k] == data[i]
    ensures var chunk := [257 - (end - i), data[i]];
            chunk[0] != FORBIDDEN_TAG && |chunk| == ChunkSize(chunk[0]) && ChunkBytes(chunk) == data[i..end]
  {}

  lemma LiteralChunk(data: seq<byte>, i: nat, end: nat)
    requires i < end <= |data| && end - i <= 128
    ensures var chunk := [end - i - 1] + data[i..end];
            chunk[0] != FORBIDDEN_TAG && |chunk| == ChunkSize(chunk[0]) && ChunkBytes(chunk) == data[i..end]
  {}

  // and it is longer by at most one byte in 128 and one more.
  lemma {:induction false} PackedSize(data: seq<byte>, i: nat)
    requires i <= |data|
    ensures |Packed(data, i)| <= |data| - i + (|data| - i) / 128 + 1
    ensures i == |data| || RunAt(data, i) ==> |Packed(data, i)| <= |data| - i + (|data| - i) / 128
    decreases |data| - i
  {
    hide RunEnd, LiteralStop;
    if i < |data| && RunAt(data, i) {
      RunIsEqual(data, i, i + 1);
      PackedSize(data, RunEnd(data, i, i + 1));
    } else if i < |data| {
      PackedSize(data, LiteralStop(data, i, i + 1));
    }
  }

  // Packing round-trips, so no forbidden tag is ever emitted, and grows a string by at most one byte in
  // 128 and one more.
  method Packbits(data: seq<byte>) returns (out: seq<byte>)
    ensures out == Packed(data, 0)
    ensures Unpack(out) == Some(data)
    ensures |out| <= |data| + |data| / 128 + 1
  {
    hide Unpack, Packed;
    out := [];
    var i := 0;
    while i < |data|
      invariant 0 <= i <= |data| && out + Packed(data, i) == Packed(data, 0)
    {
      var run := CountRun(data, i, 128);
      if run >= 3 {
        PackedRun(data, i, run);
        out := out + [(257 - run) as byte, data[i]];
        i := i + run;
      } else {
        var start := i;
        i := LiteralEnd(data, start, run);
        PackedLiteral(data, start, run, i);
        out := out + [(i - start - 1) as byte] + data[start..i];
      }
    }
    PackedEnd(data);
    PackedUnpacks(data, 0);
    PackedSize(data, 0);
    assert data[0..] == data;
  }

  lemma PackedEnd(data: seq<byte>)
    ensures Packed(data, |data|) == []
  {}

  lemma PackedRun(data: seq<byte>, i: nat, run: nat)
    requires 3 <= run <= 128 && i + run <= |data| && forall k :: i <= k < i + run ==> data[k] == data[i]
    requires run < 128 ==> i + run == |data| || data[i + run] != data[i]
    ensures Packed(data, i) == [257 - run, data[i]] + Packed(data, i + run)
  {
    RunEndIs(data, i, i + 1, i + run);
  }

  // Behind a run of two no run of three begins inside it.
  lemma PackedLiteral(data: seq<byte>, i: nat, run: nat, end: nat)
    requires 1 <= run <= 2 && i + run <= end <= |data| && end - i <= 128 && forall k :: i <= k < i + run ==> data[k] == data[i]
    requires i + run == |data| || data[i + run] != data[i]
    requires end - i < 128 ==> end == |data| || RunAt(data, end)
    requires forall k :: i + run <= k < end ==> !RunAt(data, k)
    ensures Packed(data, i) == [end - i - 1] + data[i..end] + Packed(data, end)
  {
    NoRunInside(data, i, run, end);
    LiteralStopIs(data, i, i + 1, end);
    LiteralFirst(data, i, end);
  }

  lemma NoRunInside(data: seq<byte>, i: nat, run: nat, end: nat)
    requires 1 <= run <= 2 && i + run <= end <= |data| && forall k :: i <= k < i + run ==> data[k] == data[i]
    requires i + run == |data| || data[i + run] != data[i]
    requires forall k :: i + run <= k < end ==> !RunAt(data, k)
    ensures forall k :: i <= k < end ==> !RunAt(data, k)
  {
    assert !RunAt(data, i);
    assert run == 2 ==> !RunAt(data, i + 1);
  }

  lemma LiteralFirst(data: seq<byte>, i: nat, end: nat)
    requires i < end <= |data| && end - i <= 128 && !RunAt(data, i) && LiteralStop(data, i, i + 1) == end
    ensures Packed(data, i) == [end - i - 1] + data[i..end] + Packed(data, end)
  {
    hide RunAt, RunEnd;
  }
}
