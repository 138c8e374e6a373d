/** How src/tools/make_fx3_video.py writes a movie: frames of a given rate, each packed if that makes it shorter,
  * behind one file header. What it writes is what the video stream plays. */
module MovieFile {
  import opened Arithmetic
  import opened Bytes
  import opened LittleEndian
  import opened Movie
  import Crc32
  import FrameDecoder
  import PackBits
  import TileFrame
  import VideoRun
  import VideoStream

  // A picture as tiles, map and colours.
  datatype Still = Still(payload: seq<byte>, tiles: nat)

  ghost predicate Showable(still: Still) {
    0 < still.tiles <= MAX_TILES && FrameGood(still.payload, still.tiles)
  }

  // Frames per second, as a fraction.
  datatype Rate = Rate(frames: nat, seconds: nat)

  predicate Positive(rate: Rate) {
    0 < rate.frames && 0 < rate.seconds
  }

  // The whole number nearest to p / q, the even one of two.
  function Rounded(p: nat, q: nat): nat
    requires 0 < q
  {
    var whole, rest := p / q, p % q;
    if 2 * rest < q then whole else if q < 2 * rest then whole + 1 else whole + whole % 2
  }

  // When frame n starts, in milliseconds.
  function Time(rate: Rate, n: nat): nat
    requires Positive(rate)
  {
    Rounded(n * (1000 * rate.seconds), rate.frames)
  }

  // Every frame is on show for some time.
  ghost predicate Lasting(rate: Rate, count: nat)
    requires Positive(rate)
  {
    forall n: nat :: n < count ==> Time(rate, n) < Time(rate, n + 1)
  }

  function FrameHeader(pts: nat, tiles: nat, codec: byte, stored: nat, size: nat, crc: nat, time: nat): (h: seq<byte>)
    ensures |h| == FRAME_HEADER
  {
    WordBytes(pts) + HalfBytes(tiles) + [codec, 0] + WordBytes(stored) + WordBytes(size) + WordBytes(crc) + WordBytes(time)
  }

  function FileHeader(audio: bool, frames: nat, duration: nat): (h: seq<byte>)
    ensures |h| == FILE_HEADER
  {
    [0x53, 0x46, 0x58, 0x56, 1, if audio then 1 else 0] + HalfBytes(256) + HalfBytes(224) + HalfBytes(32)
    + WordBytes(frames) + WordBytes(duration) + WordBytes(if audio then 16000 else 0) + WordBytes(0) + WordBytes(0)
  }

  lemma HalfAt(s: seq<byte>, k: nat, v: nat)
    requires k + 2 <= |s| && v < 0x1_0000 && s[k..k + 2] == HalfBytes(v)
    ensures Le16(s, k) == v
  {
    assert s[k] == s[k..k + 2][0] && s[k + 1] == s[k..k + 2][1];
  }

  lemma FrameHeaderRead(pts: nat, tiles: nat, codec: byte, stored: nat, size: nat, crc: nat, time: nat)
    requires pts < WORDS && tiles < 0x1_0000 && stored < WORDS && size < WORDS && crc < WORDS && time < WORDS
    ensures HeadOf(FrameHeader(pts, tiles, codec, stored, size, crc, time)) == Head(pts, tiles, codec, 0, stored, size, crc, time)
  {
    hide WordBytes, HalfBytes, Le16, Le32;
    var h := FrameHeader(pts, tiles, codec, stored, size, crc, time);
    WordAt(h, 0, pts);
    HalfAt(h, 4, tiles);
    WordAt(h, 8, stored);
    WordAt(h, 12, size);
    WordAt(h, 16, crc);
    WordAt(h, 20, time);
  }

  lemma FileHeaderRead(audio: bool, frames: nat, duration: nat)
    requires frames < WORDS && duration < WORDS
    ensures var h := FileHeader(audio, frames, duration);
            && Le32(h, 12) == frames && Le32(h, 16) == duration
            && (FileHeaderGood(h) <==> 0 < frames && 0 < duration)
  {
    hide WordBytes, HalfBytes, Le16, Le32;
    var h := FileHeader(audio, frames, duration);
    var hz := if audio then 16000 else 0;
    assert h[20..24] == WordBytes(hz);
    FirstWord(h);
    HalfAt(h, 6, 256);
    HalfAt(h, 8, 224);
    HalfAt(h, 10, 32);
    WordAt(h, 12, frames);
    WordAt(h, 16, duration);
    WordAt(h, 20, hz);
    WordAt(h, 24, 0);
    WordAt(h, 28, 0);
  }

  lemma FirstWord(h: seq<byte>)
    requires 4 <= |h| && h[0] == 0x53 && h[1] == 0x46 && h[2] == 0x58 && h[3] == 0x56
    ensures Le32(h, 0) == FILE_MAGIC
  {}

  // A frame of the file is this picture, from one time to another.
  ghost predicate Records(record: seq<byte>, still: Still, from: nat, to: nat) {
    && FRAME_HEADER <= |record| && from <= to
    && var h := HeadOf(record[..FRAME_HEADER]);
       && h == Head(from, still.tiles, h.codec, 0, |record| - FRAME_HEADER, |still.payload|, Crc32.ChecksumWord(still.payload), to - from)
       && h.codec <= 1 && 0 < h.stored <= |still.payload| && (h.codec == 0 ==> h.stored == h.size)
       && FrameDecoder.Meaning(h.codec, record[FRAME_HEADER..]) == Some(still.payload)
       && record[FRAME_HEADER..] == Shorter(still.payload)
  }

  // What is stored of a picture: its packed form where that is shorter.
  function Shorter(payload: seq<byte>): seq<byte> {
    var packed := PackBits.Packed(payload, 0);
    if |packed| < |payload| then packed else payload
  }

  method PackFrame(still: Still, from: nat, to: nat) returns (record: seq<byte>)
    requires Showable(still) && from <= to < WORDS
    ensures Records(record, still, from, to)
  {
    hide FrameHeader, Records, Showable;
    SizeOf(still);
    var packed := PackBits.Packbits(still.payload);
    var codec: byte := if |packed| < |still.payload| then 1 else 0;
    var stored := if codec == 1 then packed else still.payload;
    var crc := Crc32.Compute(still.payload);
    record := FrameHeader(from, still.tiles, codec, |stored|, |still.payload|, crc, to - from) + stored;
    NothingPacked(still.payload, packed);
    Recorded(still, from, to, codec, stored, crc);
  }

  lemma SizeOf(still: Still)
    requires Showable(still)
    ensures 0 < still.tiles <= MAX_TILES && |still.payload| == still.tiles * 32 + 1824 <= 30496
  {}

  lemma NothingPacked(payload: seq<byte>, packed: seq<byte>)
    requires PackBits.Unpack(packed) == Some(payload) && payload != []
    ensures packed != []
  {}

  lemma Recorded(still: Still, from: nat, to: nat, codec: byte, stored: seq<byte>, crc: nat)
    requires still.tiles <= MAX_TILES && |still.payload| <= 30496 && from <= to < WORDS && crc == Crc32.ChecksumWord(still.payload)
    requires codec <= 1 && 0 < |stored| <= |still.payload| && FrameDecoder.Meaning(codec, stored) == Some(still.payload)
    requires stored == Shorter(still.payload)
    ensures Records(FrameHeader(from, still.tiles, codec, |stored|, |still.payload|, crc, to - from) + stored, still, from, to)
  {
    hide HeadOf, FrameHeader, PackBits.Unpack, PackBits.Packed, Crc32.ChecksumWord;
    var h := FrameHeader(from, still.tiles, codec, |stored|, |still.payload|, crc, to - from);
    FrameHeaderRead(from, still.tiles, codec, |stored|, |still.payload|, crc, to - from);
    assert (h + stored)[..FRAME_HEADER] == h && (h + stored)[FRAME_HEADER..] == stored;
  }

  // Records one behind the other.
  function Concat(records: seq<seq<byte>>): seq<byte> {
    if records == [] then [] else Concat(records[..|records| - 1]) + records[|records| - 1]
  }

  lemma ConcatNext(records: seq<seq<byte>>, record: seq<byte>)
    ensures Concat(records + [record]) == Concat(records) + record
  {
    assert (records + [record])[..|records|] == records;
  }

  // Record n lies behind the ones before it.
  lemma {:induction false} RecordAt(records: seq<seq<byte>>, n: nat)
    requires n < |records|
    ensures var p := |Concat(records[..n])|;
            p + |records[n]| == |Concat(records[..n + 1])| <= |Concat(records)| && Concat(records)[p..p + |records[n]|] == records[n]
  {
    var last := |records| - 1;
    assert records[..n + 1][..n] == records[..n];
    if n == last {
      assert records[..n + 1] == records;
    } else {
      RecordAt(records[..last], n);
      assert records[..last][..n] == records[..n] && records[..last][..n + 1] == records[..n + 1];
    }
  }

  // Frame n of the file is record n.
  ghost predicate Chronicle(records: seq<seq<byte>>, stills: seq<Still>, rate: Rate)
    requires Positive(rate)
  {
    |records| == |stills| && forall n: nat :: n < |stills| ==> Records(records[n], stills[n], Time(rate, n), Time(rate, n + 1))
  }

  ghost predicate Behind(file: seq<byte>, records: seq<seq<byte>>) {
    FILE_HEADER <= |file| && file[FILE_HEADER..] == Concat(records)
  }

  lemma RecordInFile(file: seq<byte>, records: seq<seq<byte>>, n: nat)
    requires Behind(file, records) && n < |records|
    ensures var p := FILE_HEADER + |Concat(records[..n])|;
            && p + |records[n]| == FILE_HEADER + |Concat(records[..n + 1])| <= |file|
            && file[p..p + |records[n]|] == records[n]
  {
    hide Concat;
    RecordAt(records, n);
    SliceBehind(file, FILE_HEADER, |Concat(records[..n])|, |records[n]|);
  }

  lemma SliceBehind(s: seq<byte>, a: nat, q: nat, n: nat)
    requires a + q + n <= |s|
    ensures s[a + q..a + q + n] == s[a..][q..q + n]
  {}

  lemma RecordSize(record: seq<byte>, still: Still, from: nat, to: nat)
    requires Records(record, still, from, to)
    ensures FRAME_HEADER < |record| && HeadOf(record[..FRAME_HEADER]).stored == |record| - FRAME_HEADER
  {
    hide HeadOf;
  }

  lemma {:induction false} StartOfRecord(file: seq<byte>, records: seq<seq<byte>>, stills: seq<Still>, rate: Rate, n: nat)
    requires Positive(rate) && Chronicle(records, stills, rate) && Behind(file, records) && n <= |stills|
    ensures Start(file, n) == FILE_HEADER + |Concat(records[..n])|
  {
    hide Records, HeadOf, Time, Behind;
    if n == 0 {
      assert Concat(records[..0]) == [];
    } else {
      hide Concat;
      StartOfRecord(file, records, stills, rate, n - 1);
      RecordInFile(file, records, n - 1);
      RecordSize(records[n - 1], stills[n - 1], Time(rate, n - 1), Time(rate, n));
      var p := Start(file, n - 1);
      assert file[p..p + FRAME_HEADER] == file[p..p + |records[n - 1]|][..FRAME_HEADER];
    }
  }

  lemma FrameIsRecord(file: seq<byte>, records: seq<seq<byte>>, stills: seq<Still>, rate: Rate, n: nat)
    requires Positive(rate) && Chronicle(records, stills, rate) && Behind(file, records) && n < |stills|
    ensures FRAME_HEADER <= |records[n]| && Whole(file, n) && HasHead(file, n) && HeadAt(file, n) == HeadOf(records[n][..FRAME_HEADER])
    ensures StoredBytes(file, n) == records[n][FRAME_HEADER..]
  {
    hide Records, HeadOf, Time, Behind, Concat, Start;
    StartOfRecord(file, records, stills, rate, n);
    StartOfRecord(file, records, stills, rate, n + 1);
    RecordInFile(file, records, n);
    RecordSize(records[n], stills[n], Time(rate, n), Time(rate, n + 1));
    var p := Start(file, n);
    assert file[p..p + FRAME_HEADER] == file[p..p + |records[n]|][..FRAME_HEADER];
    assert file[p + FRAME_HEADER..p + |records[n]|] == file[p..p + |records[n]|][FRAME_HEADER..];
  }

  // So the frame's header and picture are the ones that were packed.
  lemma FramePacked(file: seq<byte>, records: seq<seq<byte>>, stills: seq<Still>, rate: Rate, n: nat)
    requires Positive(rate) && Chronicle(records, stills, rate) && Behind(file, records) && n < |stills|
    ensures Whole(file, n) && HasHead(file, n) && Picture(file, n) == Some(stills[n].payload)
    ensures var h := HeadAt(file, n);
            && h == Head(Time(rate, n), stills[n].tiles, h.codec, 0, h.stored, |stills[n].payload|,
                         Crc32.ChecksumWord(stills[n].payload), Time(rate, n + 1) - Time(rate, n))
            && h.codec <= 1 && 0 < h.stored <= |stills[n].payload| && (h.codec == 0 ==> h.stored == h.size)
  {
    FrameIsRecord(file, records, stills, rate, n);
    hide HeadOf, Time, Behind, Concat, Start, HeadAt, StoredBytes, FrameDecoder.Meaning, Crc32.ChecksumWord;
    assert Records(records[n], stills[n], Time(rate, n), Time(rate, n + 1));
  }

  lemma EndIs(file: seq<byte>, records: seq<seq<byte>>, stills: seq<Still>, rate: Rate, n: nat)
    requires Positive(rate) && Chronicle(records, stills, rate) && Behind(file, records) && n <= |stills|
    ensures EndBefore(file, n) == Time(rate, n)
  {
    if n > 0 {
      FramePacked(file, records, stills, rate, n - 1);
    } else {
      assert 0 * (1000 * rate.seconds) == 0;
      assert Rounded(0, rate.frames) == 0;
    }
  }

  lemma EndOfFile(file: seq<byte>, records: seq<seq<byte>>, stills: seq<Still>, rate: Rate)
    requires Positive(rate) && Chronicle(records, stills, rate) && Behind(file, records)
    ensures Start(file, |stills|) == |file|
  {
    StartOfRecord(file, records, stills, rate, |stills|);
    assert records[..|stills|] == records;
  }

  // A frame of the file is good exactly when it is on show for some time.
  lemma FrameGoodExactly(file: seq<byte>, records: seq<seq<byte>>, stills: seq<Still>, rate: Rate, n: nat)
    requires Positive(rate) && Chronicle(records, stills, rate) && Behind(file, records) && n < |stills|
    requires Showable(stills[n]) && Duration(file) == Time(rate, |stills|) && Time(rate, n + 1) <= Time(rate, |stills|)
    ensures FrameOk(file, n) <==> Time(rate, n) < Time(rate, n + 1)
  {
    hide Start, HeadOf, HeadAt, Whole, HasHead, Picture, Time, Chronicle, Behind, FrameGood, Duration, EndBefore, Crc32.ChecksumWord;
    FramePacked(file, records, stills, rate, n);
    EndIs(file, records, stills, rate, n);
    SizeOf(stills[n]);
  }

  lemma RoundedBounds(p: nat, q: nat, more: nat)
    requires 0 < q
    ensures Rounded(p, q) <= Rounded(p + more, q)
    ensures q < more || (q == more && p % q == 0) ==> Rounded(p, q) < Rounded(p + more, q)
  {
    var d, r := Quotient(p, q);
    var e, t := Quotient(p + more, q);
    DivModUnique(q, d, r);
    DivModUnique(q, e, t);
    MulGap(d, e, q);
    MulGap(e, d, q);
    MulGap(d + 1, e, q);
    assert (d + 1) * q == d * q + q;
  }

  // At up to a thousand frames a second every frame is on show for at least a millisecond,
  lemma SlowEnough(rate: Rate, count: nat)
    requires Positive(rate) && rate.frames <= 1000 * rate.seconds
    ensures Lasting(rate, count)
  {
    forall n: nat | n < count
      ensures Time(rate, n) < Time(rate, n + 1)
    {
      var step := 1000 * rate.seconds;
      assert (n + 1) * step == n * step + step;
      if rate.frames == step {
        DivModUnique(step, n, 0);
      }
      RoundedBounds(n * step, rate.frames, step);
    }
  }

  // and beyond that, in a movie of one frame more than there are milliseconds, some frame is not.
  lemma TooFast(rate: Rate)
    requires Positive(rate) && 1000 * rate.seconds < rate.frames
    ensures !Lasting(rate, rate.frames)
  {
    if Lasting(rate, rate.frames) {
      AtLeastOneEach(rate, rate.frames);
      var step := 1000 * rate.seconds;
      assert rate.frames * step == step * rate.frames;
      DivModUnique(rate.frames, step, 0);
      assert false;
    }
  }

  lemma {:induction false} AtLeastOneEach(rate: Rate, count: nat)
    requires Positive(rate) && Lasting(rate, count)
    ensures count <= Time(rate, count)
  {
    if count > 0 {
      AtLeastOneEach(rate, count - 1);
      assert Time(rate, count - 1) < Time(rate, count);
    }
  }

  lemma {:induction false} TimesGrow(rate: Rate, n: nat, m: nat)
    requires Positive(rate) && n <= m
    ensures Time(rate, n) <= Time(rate, m)
  {
    var step := 1000 * rate.seconds;
    MulMono(n, m, step);
    RoundedBounds(n * step, rate.frames, m * step - n * step);
  }

  // What a movie says that was made of these pictures.
  ghost predicate Shows(file: seq<byte>, stills: seq<Still>) {
    && FrameCount(file) == |stills| && Start(file, |stills|) == |file|
    && forall n: nat :: n < |stills| ==> Whole(file, n) && Picture(file, n) == Some(stills[n].payload)
  }

  // A movie of some pictures. There is one exactly when there are pictures and all numbers fit their fields; it
  // shows these pictures, and can be played from start to end exactly when every one is on show for some time.
  method MakeMovie(stills: seq<Still>, rate: Rate, audio: bool) returns (file: Option<seq<byte>>)
    requires Positive(rate) && forall n: nat :: n < |stills| ==> Showable(stills[n])
    ensures file.Some? <==> stills != [] && |stills| < WORDS && Time(rate, |stills|) < WORDS
    ensures file.Some? ==> Shows(file.value, stills) && (GoodMovie(file.value) <==> Lasting(rate, |stills|))
    ensures file.Some? ==> |file.value| > FILE_HEADER && file.value[..FILE_HEADER] == FileHeader(audio, |stills|, Time(rate, |stills|))
  {
    if stills == [] || |stills| >= WORDS || Time(rate, |stills|) >= WORDS {
      return None;
    }
    hide Records, Showable, Time, Concat, Shows, GoodMovie, Lasting, FileHeader;
    ghost var records := [];
    var body, n := [], 0;
    NoRecords();
    while n < |stills|
      invariant 0 <= n <= |stills| && |records| == n && body == Concat(records)
      invariant forall k: nat :: k < n ==> Records(records[k], stills[k], Time(rate, k), Time(rate, k + 1))
    {
      TimesGrow(rate, n, n + 1);
      TimesGrow(rate, n + 1, |stills|);
      var record := PackFrame(stills[n], Time(rate, n), Time(rate, n + 1));
      ConcatNext(records, record);
      records, body, n := records + [record], body + record, n + 1;
    }
    var header := FileHeader(audio, |stills|, Time(rate, |stills|));
    Made(header, audio, records, stills, rate);
    file := Some(header + body);
  }

  lemma NoRecords()
    ensures Concat([]) == []
  {}

  lemma Made(header: seq<byte>, audio: bool, records: seq<seq<byte>>, stills: seq<Still>, rate: Rate)
    requires Positive(rate) && Chronicle(records, stills, rate) && stills != [] && |stills| < WORDS && Time(rate, |stills|) < WORDS
    requires header == FileHeader(audio, |stills|, Time(rate, |stills|)) && forall n: nat :: n < |stills| ==> Showable(stills[n])
    ensures Shows(header + Concat(records), stills)
    ensures GoodMovie(header + Concat(records)) <==> Lasting(rate, |stills|)
  {
    hide Chronicle, Time, Showable, Concat, FileHeader, FileHeaderGood, FrameOk, Picture, Whole, EndBefore, Le32;
    var file := header + Concat(records);
    assert file[FILE_HEADER..] == Concat(records) && file[..FILE_HEADER] == header;
    FileHeaderRead(audio, |stills|, Time(rate, |stills|));
    HeaderStays(header, Concat(records));
    forall n: nat | n < |stills|
      ensures Whole(file, n) && Picture(file, n) == Some(stills[n].payload)
      ensures FrameOk(file, n) <==> Time(rate, n) < Time(rate, n + 1)
    {
      FramePacked(file, records, stills, rate, n);
      TimesGrow(rate, n + 1, |stills|);
      FrameGoodExactly(file, records, stills, rate, n);
    }
    EndIs(file, records, stills, rate, |stills|);
    EndOfFile(file, records, stills, rate);
    if Lasting(rate, |stills|) {
      AtLeastOneEach(rate, |stills|);
      forall n: nat | n < |stills|
        ensures FrameOk(file, n)
      {
        assert Time(rate, n) < Time(rate, n + 1);
      }
    }
  }

  // A picture of the source.
  datatype Image = Image(pixels: seq<nat>, palette: seq<TileFrame.Rgb>)

  predicate IsSource(p: Image) {
    TileFrame.IsPicture(p.pixels) && |p.palette| == 16
  }

  // The still looks like the picture when it is drawn.
  ghost predicate LooksLike(still: Still, p: Image)
    requires IsSource(p)
  {
    TileFrame.Depicts(still.payload, still.tiles, p.pixels, p.palette)
  }

  method PackAll(pictures: seq<Image>) returns (stills: seq<Still>)
    requires forall n: nat :: n < |pictures| ==> IsSource(pictures[n])
    ensures |stills| == |pictures| && forall n: nat :: n < |stills| ==> Showable(stills[n]) && LooksLike(stills[n], pictures[n])
  {
    stills := [];
    while |stills| < |pictures|
      invariant |stills| <= |pictures|
      invariant forall n: nat :: n < |stills| ==> Showable(stills[n]) && LooksLike(stills[n], pictures[n])
    {
      var p := pictures[|stills|];
      var payload, tiles, kept := TileFrame.PackPicture(p.pixels, p.palette);
      stills := stills + [Still(payload, tiles)];
      hide Showable, LooksLike;
    }
  }

  // From pictures to the screen: the tool makes a movie of them, the card delivers it piece by piece, core 1 decodes
  // it, and the host shows the pages it is offered. Every page shown looks like the picture whose turn it is; a
  // movie whose pictures all last is shown to its end, unless its last frame still owes more than one service's
  // work when the card has delivered everything; and one with a picture that does not last ends in an error.
  method Film(stream: VideoStream.Stream, pictures: seq<Image>, rate: Rate, audio: bool, patience: nat)
    returns (made: bool, shown: seq<seq<byte>>, ghost stills: seq<Still>)
    requires stream.Valid() && stream.open && stream.claimed == 0 && stream.delivered == []
    requires Positive(rate) && forall n: nat :: n < |pictures| ==> IsSource(pictures[n])
    modifies stream, stream.decoder, stream.ram
    ensures made <==> pictures != [] && |pictures| < WORDS && Time(rate, |pictures|) < WORDS
    ensures |stills| == |pictures| && forall n: nat :: n < |stills| ==> LooksLike(stills[n], pictures[n])
    ensures made ==> |shown| <= |pictures| && forall n: nat :: n < |shown| ==> shown[n] == stills[n].payload
    ensures made ==> stream.status == if Lasting(rate, |pictures|) && stream.owed <= 4096 then VideoStream.Eof
                                      else VideoStream.Error
    ensures made && stream.status == VideoStream.Eof ==> |shown| == |pictures|
  {
    hide VideoStream.Stream.Valid, Showable, LooksLike, Shows, GoodMovie, VideoRun.InSequence, FrameCount, VideoStream.Complete;
    var packed := PackAll(pictures);
    stills, shown := packed, [];
    var file := MakeMovie(packed, rate, audio);
    made := file.Some?;
    if made {
      shown := VideoRun.Watch(stream, file.value, patience);
      ShownInOrder(file.value, stills, shown);
    }
  }

  lemma ShownInOrder(file: seq<byte>, stills: seq<Still>, shown: seq<seq<byte>>)
    requires Shows(file, stills) && VideoRun.InSequence(file, shown)
    ensures FrameCount(file) == |stills| && VideoStream.Complete(file)
    ensures |shown| <= |stills| && forall n: nat :: n < |shown| ==> shown[n] == stills[n].payload
  {
    hide Start, FrameOk, Picture, FrameCount;
    forall n: nat | n < |shown|
      ensures n < |stills| && shown[n] == stills[n].payload
    {
      ShownIs(file, stills, shown, n);
    }
    if |shown| > 0 {
      ShownIs(file, stills, shown, |shown| - 1);
    }
  }

  lemma ShownIs(file: seq<byte>, stills: seq<Still>, shown: seq<seq<byte>>, n: nat)
    requires Shows(file, stills) && VideoRun.InSequence(file, shown) && n < |shown|
    ensures n < |stills| && shown[n] == stills[n].payload
  {
    hide Start, FrameOk, Picture, FrameCount;
    assert VideoRun.Seen(file, n, shown[n]);
    OkWhole(file, n);
    if |stills| <= n {
      StartMono(file, |stills|, n + 1);
      assert false;
    }
  }
}
