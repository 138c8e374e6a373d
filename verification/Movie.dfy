/** The movie file that src/video/fx3_video_stream.cpp plays, as one byte string: a file header, then
  * frames, each a header and its stored bytes. */
module Movie {
  import opened Bytes
  import opened LittleEndian
  import Crc32
  import FrameDecoder

  const PAGE_SIZE := 0x8000
  const MAP_SIZE := 32 * 28 * 2
  const PALETTE_SIZE := 32
  const MAX_TILES := 896
  const FILE_HEADER := 32
  const FRAME_HEADER := 24
  const FILE_MAGIC := 0x5658_4653

  predicate FileHeaderGood(h: seq<byte>)
    requires |h| == FILE_HEADER
  {
    && Le32(h, 0) == FILE_MAGIC && h[4] == 1 && h[5] <= 1
    && Le16(h, 6) == 256 && Le16(h, 8) == 224 && Le16(h, 10) == 32
    && Le32(h, 12) != 0 && Le32(h, 16) != 0
    && Le32(h, 20) == (if h[5] != 0 then 16000 else 0)
    && Le32(h, 24) == 0 && Le32(h, 28) == 0
  }

  function FrameBytes(tiles: nat): nat {
    tiles * 32 + MAP_SIZE + PALETTE_SIZE
  }

  // What a frame header declares.
  datatype Head = Head(pts: nat, tiles: nat, codec: nat, unused: nat, stored: nat, size: nat, crc: nat, time: nat)

  function HeadOf(h: seq<byte>): Head
    requires |h| == FRAME_HEADER
  {
    Head(Le32(h, 0), Le16(h, 4), h[6], h[7], Le32(h, 8), Le32(h, 12), Le32(h, 16), Le32(h, 20))
  }

  predicate HeadGood(h: Head, previousEnd: nat, duration: nat) {
    && 0 < h.tiles <= MAX_TILES && h.codec <= 1 && h.unused == 0
    && h.size == FrameBytes(h.tiles) && 0 < h.stored <= PAGE_SIZE * 2
    && (h.codec == 0 ==> h.stored == h.size) && h.time != 0
    && h.pts == previousEnd && h.pts < duration && h.time <= duration - h.pts
  }

  // A map entry names a tile of this frame and no palette but the first.
  predicate EntryGood(frame: seq<byte>, tiles: nat, k: nat)
    requires tiles * 32 + 2 * k + 2 <= |frame|
  {
    var entry := Le16(frame, tiles * 32 + 2 * k);
    entry % 0x400 < tiles && entry / 0x400 % 0x10 == 0
  }

  predicate ColorGood(frame: seq<byte>, tiles: nat, k: nat)
    requires tiles * 32 + MAP_SIZE + 2 * k + 2 <= |frame|
  {
    frame[tiles * 32 + MAP_SIZE + 2 * k + 1] < 0x80
  }

  // What the host may be shown: every map entry inside the tile set, every colour fifteen bits.
  ghost predicate FrameGood(frame: seq<byte>, tiles: nat) {
    && |frame| == FrameBytes(tiles)
    && (forall k: nat :: k < MAP_SIZE / 2 ==> EntryGood(frame, tiles, k))
    && (forall k: nat :: k < PALETTE_SIZE / 2 ==> ColorGood(frame, tiles, k))
  }

  function FrameCount(f: seq<byte>): nat {
    if FILE_HEADER <= |f| then Le32(f, 12) else 0
  }

  function Duration(f: seq<byte>): nat {
    if FILE_HEADER <= |f| then Le32(f, 16) else 0
  }

  // Where frame n starts: behind the stored bytes of the one before it.
  function Start(f: seq<byte>, n: nat): (p: nat)
    ensures FILE_HEADER <= p
  {
    if n == 0 then FILE_HEADER
    else
      var p := Start(f, n - 1);
      p + FRAME_HEADER + if p + FRAME_HEADER <= |f| then HeadOf(f[p..p + FRAME_HEADER]).stored else 0
  }

  // The header of frame n is there.
  predicate HasHead(f: seq<byte>, n: nat) {
    Start(f, n) + FRAME_HEADER <= |f|
  }

  function HeadAt(f: seq<byte>, n: nat): Head
    requires HasHead(f, n)
  {
    HeadOf(f[Start(f, n)..Start(f, n) + FRAME_HEADER])
  }

  // All of frame n is there,
  predicate Whole(f: seq<byte>, n: nat) {
    Start(f, n + 1) <= |f|
  }

  // with its stored bytes, and what they decode to.
  function StoredBytes(f: seq<byte>, n: nat): seq<byte>
    requires Whole(f, n)
  {
    f[Start(f, n) + FRAME_HEADER..Start(f, n + 1)]
  }

  function Picture(f: seq<byte>, n: nat): Option<seq<byte>>
    requires Whole(f, n)
  {
    FrameDecoder.Meaning(HeadAt(f, n).codec, StoredBytes(f, n))
  }

  // When the frames before frame n end.
  function EndBefore(f: seq<byte>, n: nat): nat {
    if n == 0 || !HasHead(f, n - 1) then 0 else HeadAt(f, n - 1).pts + HeadAt(f, n - 1).time
  }

  // Frame n decodes to a picture of the declared size and checksum that may be shown.
  ghost predicate FrameOk(f: seq<byte>, n: nat) {
    && Whole(f, n) && HeadGood(HeadAt(f, n), EndBefore(f, n), Duration(f))
    && Picture(f, n).Some? && |Picture(f, n).value| == HeadAt(f, n).size
    && Crc32.ChecksumWord(Picture(f, n).value) == HeadAt(f, n).crc
    && FrameGood(Picture(f, n).value, HeadAt(f, n).tiles)
  }

  ghost predicate FramesOk(f: seq<byte>, count: nat) {
    forall n: nat :: n < count ==> FrameOk(f, n)
  }

  // A movie that can be played from the start to its end; bytes after its last frame do not matter.
  ghost predicate GoodMovie(f: seq<byte>) {
    && FILE_HEADER <= |f| && FileHeaderGood(f[..FILE_HEADER])
    && FramesOk(f, FrameCount(f)) && EndBefore(f, FrameCount(f)) == Duration(f)
  }

  // Nothing that could follow makes a good movie of this.
  ghost predicate Spoiled(f: seq<byte>) {
    forall r: seq<byte> :: !GoodMovie(f + r)
  }

  lemma SpoiledNow(f: seq<byte>)
    ensures Spoiled(f) ==> !GoodMovie(f)
  {
    assert f + [] == f;
  }

  lemma StartGrows(f: seq<byte>, n: nat)
    ensures Start(f, n) + FRAME_HEADER <= Start(f, n + 1)
  {}

  lemma StartNext(f: seq<byte>, n: nat)
    requires HasHead(f, n)
    ensures Start(f, n + 1) == Start(f, n) + FRAME_HEADER + HeadAt(f, n).stored
  {
    hide HeadOf;
  }

  lemma Inside(f: seq<byte>, r: seq<byte>, a: nat, b: nat)
    requires a <= b <= |f|
    ensures (f + r)[a..b] == f[a..b]
  {}

  // More bytes at the end change nothing that is already there.
  lemma {:induction false} StartStays(f: seq<byte>, r: seq<byte>, n: nat)
    requires n == 0 || Start(f, n) <= |f|
    ensures Start(f + r, n) == Start(f, n)
  {
    hide HeadOf;
    if 0 < n {
      StartGrows(f, n - 1);
      StartStays(f, r, n - 1);
      Inside(f, r, Start(f, n - 1), Start(f, n - 1) + FRAME_HEADER);
    }
  }

  lemma HeadStays(f: seq<byte>, r: seq<byte>, n: nat)
    requires HasHead(f, n)
    ensures HasHead(f + r, n) && HeadAt(f + r, n) == HeadAt(f, n) && Start(f + r, n) == Start(f, n)
    ensures Start(f + r, n + 1) == Start(f, n + 1)
  {
    hide HeadOf, Start;
    StartStays(f, r, n);
    Inside(f, r, Start(f, n), Start(f, n) + FRAME_HEADER);
    StartNext(f, n);
    StartNext(f + r, n);
  }

  lemma EndStays(f: seq<byte>, r: seq<byte>, n: nat)
    requires n == 0 || HasHead(f, n - 1)
    ensures EndBefore(f + r, n) == EndBefore(f, n)
  {
    if 0 < n {
      HeadStays(f, r, n - 1);
    }
  }

  // A whole frame has its header, and the headers of all frames before it.
  lemma WholeHead(f: seq<byte>, n: nat)
    requires Whole(f, n)
    ensures HasHead(f, n)
  {
    StartGrows(f, n);
  }

  lemma {:induction false} HeadBefore(f: seq<byte>, m: nat, n: nat)
    requires HasHead(f, n) && m <= n
    ensures HasHead(f, m) && Start(f, m) <= Start(f, n) && (m < n ==> Whole(f, m))
    decreases n - m
  {
    hide Start;
    if m < n {
      StartGrows(f, n - 1);
      HeadBefore(f, m, n - 1);
    }
  }

  lemma HeadAndEndStay(d: seq<byte>, r: seq<byte>, n: nat)
    requires FILE_HEADER <= |d| && HasHead(d, n)
    ensures HasHead(d + r, n) && HeadAt(d + r, n) == HeadAt(d, n) && Start(d + r, n) == Start(d, n)
    ensures Start(d + r, n + 1) == Start(d, n + 1) && EndBefore(d + r, n) == EndBefore(d, n) && Duration(d + r) == Duration(d)
  {
    hide Start, HeadOf;
    HeadStays(d, r, n);
    if 0 < n {
      HeadBefore(d, n - 1, n);
    }
    EndStays(d, r, n);
    HeaderStays(d, r);
  }

  lemma FrameStays(f: seq<byte>, r: seq<byte>, n: nat)
    requires Whole(f, n)
    ensures Whole(f + r, n) && HeadAt(f + r, n) == HeadAt(f, n) && Picture(f + r, n) == Picture(f, n)
    ensures FrameOk(f + r, n) <==> FrameOk(f, n)
  {
    hide Start, HeadGood, HeadOf, Duration, EndBefore, FrameGood, FrameDecoder.Meaning, Crc32.ChecksumWord;
    WholeHead(f, n);
    HeadAndEndStay(f, r, n);
    StartGrows(f, n);
    Inside(f, r, Start(f, n) + FRAME_HEADER, Start(f, n + 1));
  }

  lemma HeaderStays(f: seq<byte>, r: seq<byte>)
    requires FILE_HEADER <= |f|
    ensures (f + r)[..FILE_HEADER] == f[..FILE_HEADER] && FrameCount(f + r) == FrameCount(f) && Duration(f + r) == Duration(f)
  {
    Inside(f, r, 0, FILE_HEADER);
    Inside(f, r, 12, 16);
    Inside(f, r, 16, 20);
    ShiftedWord(f + r, 12, f[12..16]);
    ShiftedWord(f, 12, f[12..16]);
    ShiftedWord(f + r, 16, f[16..20]);
    ShiftedWord(f, 16, f[16..20]);
    hide Le32;
  }

  lemma {:induction false} StartMono(f: seq<byte>, m: nat, n: nat)
    requires m <= n
    ensures Start(f, m) + (n - m) * FRAME_HEADER <= Start(f, n)
    decreases n - m
  {
    if m < n {
      StartGrows(f, n - 1);
      StartMono(f, m, n - 1);
    }
  }

  // Reading: what was delivered of a movie, what of that is still unread, and what was made of the rest.
  datatype Body = FileHead | FrameHead | Content(head: Head, consumed: seq<byte>)
  datatype Parse = Parse(delivered: seq<byte>, pending: seq<byte>, header: seq<byte>, frames: nat, body: Body)

  function HeaderSize(m: Parse): nat {
    if m.body.FileHead? then FILE_HEADER else FRAME_HEADER
  }

  // How far the movie has been read.
  function Position(m: Parse): int {
    |m.delivered| - |m.pending|
  }

  // The file header and the frames before this one have been read and were good.
  ghost predicate Opened(d: seq<byte>, frames: nat) {
    && FILE_HEADER <= |d| && FileHeaderGood(d[..FILE_HEADER]) && frames < FrameCount(d)
    && FramesOk(d, frames) && Start(d, frames) <= |d|
  }

  ghost predicate Parsed(m: Parse) {
    var d, at := m.delivered, Position(m);
    && 0 <= at && d[at..] == m.pending
    && match m.body
       case FileHead => m.frames == 0 && |m.header| <= FILE_HEADER && m.header == d[..at]
       case FrameHead =>
         && Opened(d, m.frames) && |m.header| <= FRAME_HEADER
         && Start(d, m.frames) <= at && m.header == d[Start(d, m.frames)..at]
       case Content(head, consumed) =>
         && Opened(d, m.frames) && m.header == [] && HasHead(d, m.frames) && head == HeadAt(d, m.frames)
         && HeadGood(head, EndBefore(d, m.frames), Duration(d)) && |consumed| <= head.stored
         && Start(d, m.frames) + FRAME_HEADER <= at && consumed == d[Start(d, m.frames) + FRAME_HEADER..at]
  }

  lemma OpenedStays(d: seq<byte>, r: seq<byte>, frames: nat)
    requires Opened(d, frames)
    ensures Opened(d + r, frames) && Start(d + r, frames) == Start(d, frames)
  {
    hide Start, FrameOk, FileHeaderGood, FrameCount, Duration;
    HeaderStays(d, r);
    StartStays(d, r, frames);
    forall n: nat | n < frames
      ensures FrameOk(d + r, n)
    {
      OkWhole(d, n);
      FrameStays(d, r, n);
    }
  }

  lemma OkWhole(f: seq<byte>, n: nat)
    requires FrameOk(f, n)
    ensures Whole(f, n)
  {}

  // A read appends.
  lemma ParseLoad(m: Parse, bytes: seq<byte>)
    requires Parsed(m) && m.pending == []
    ensures Parsed(m.(delivered := m.delivered + bytes, pending := bytes))
  {
    hide Start, FrameOk, FileHeaderGood, HeadGood, HeadOf, FrameCount, Duration, EndBefore, FramesOk;
    var d, r := m.delivered, bytes;
    assert (d + r)[|d|..] == r && (d + r)[..|d|] == d && d[..|d|] == d;
    assert d[|d|..] == [];
    if !m.body.FileHead? {
      OpenedStays(d, r, m.frames);
      var p := Start(d, m.frames);
      Inside(d, r, p, |d|);
      if m.body.Content? {
        HeadAndEndStay(d, r, m.frames);
        Inside(d, r, p + FRAME_HEADER, |d|);
      }
    }
  }

  // Unread bytes go into the header,
  lemma ParseTake(m: Parse, k: nat)
    requires Parsed(m) && !m.body.Content? && k <= |m.pending| && |m.header| + k <= HeaderSize(m)
    ensures Parsed(m.(header := m.header + m.pending[..k], pending := m.pending[k..]))
  {
    hide Opened, Start;
    var d, at := m.delivered, Position(m);
    TakenFrom(d, if m.body.FileHead? then 0 else Start(d, m.frames), at, k);
  }

  lemma TakenFrom(d: seq<byte>, p: nat, at: nat, k: nat)
    requires p <= at && at + k <= |d|
    ensures d[p..at] + d[at..][..k] == d[p..at + k] && d[at..][k..] == d[at + k..]
  {
    assert d[at..][..k] == d[at..at + k];
  }

  // or to the decoder.
  lemma ParseConsume(m: Parse, k: nat)
    requires Parsed(m) && m.body.Content? && k <= |m.pending| && |m.body.consumed| + k <= m.body.head.stored
    ensures Parsed(m.(body := Content(m.body.head, m.body.consumed + m.pending[..k]), pending := m.pending[k..]))
  {
    hide Opened, Start, HeadGood, HeadAt, EndBefore, Duration;
    TakenFrom(m.delivered, Start(m.delivered, m.frames) + FRAME_HEADER, Position(m), k);
  }

  lemma ParseFileHeader(m: Parse)
    requires Parsed(m) && m.body.FileHead? && |m.header| == FILE_HEADER
    ensures FileHeaderGood(m.header) ==>
              && Parsed(m.(header := [], body := FrameHead)) && FrameCount(m.delivered) == Le32(m.header, 12)
              && Duration(m.delivered) == Le32(m.header, 16)
    ensures !FileHeaderGood(m.header) ==> Spoiled(m.delivered)
  {
    var d := m.delivered;
    assert m.header == d[..FILE_HEADER];
    assert m.header[12..16] == d[12..16] && m.header[16..20] == d[16..20];
    if !FileHeaderGood(m.header) {
      forall r: seq<byte>
        ensures !GoodMovie(d + r)
      {
        HeaderStays(d, r);
      }
    }
  }

  // One frame that cannot become good spoils the movie.
  lemma SpoiledFrame(d: seq<byte>, n: nat)
    requires FILE_HEADER <= |d| && n < FrameCount(d) && forall r: seq<byte> :: !FrameOk(d + r, n)
    ensures Spoiled(d)
  {
    forall r: seq<byte>
      ensures !GoodMovie(d + r)
    {
      HeaderStays(d, r);
      assert !FrameOk(d + r, n);
    }
  }

  lemma ParseFrameHeader(m: Parse)
    requires Parsed(m) && m.body.FrameHead? && |m.header| == FRAME_HEADER
    ensures HasHead(m.delivered, m.frames) && HeadAt(m.delivered, m.frames) == HeadOf(m.header)
    ensures HeadGood(HeadOf(m.header), EndBefore(m.delivered, m.frames), Duration(m.delivered)) ==>
              Parsed(m.(header := [], body := Content(HeadOf(m.header), [])))
    ensures !HeadGood(HeadOf(m.header), EndBefore(m.delivered, m.frames), Duration(m.delivered)) ==> Spoiled(m.delivered)
  {
    hide Start, FileHeaderGood, HeadGood, HeadOf, Duration, EndBefore, FramesOk;
    var d, n := m.delivered, m.frames;
    if !HeadGood(HeadOf(m.header), EndBefore(d, n), Duration(d)) {
      forall r: seq<byte>
        ensures !FrameOk(d + r, n)
      {
        HeadAndEndStay(d, r, n);
      }
      SpoiledFrame(d, n);
    }
  }

  // The stored bytes of a frame begin with what was consumed of them.
  lemma BeginsWith(m: Parse, r: seq<byte>)
    requires Parsed(m) && m.body.Content? && Whole(m.delivered + r, m.frames)
    ensures HasHead(m.delivered + r, m.frames) && HeadAt(m.delivered + r, m.frames) == m.body.head
    ensures var stored, consumed := StoredBytes(m.delivered + r, m.frames), m.body.consumed;
            |stored| == m.body.head.stored && stored == consumed + stored[|consumed|..]
  {
    hide Start, FrameOk, FileHeaderGood, HeadGood, HeadOf, FrameCount, Duration, EndBefore, FramesOk;
    var d, p, at := m.delivered, Start(m.delivered, m.frames) + FRAME_HEADER, Position(m);
    HeadAndEndStay(d, r, m.frames);
    StartNext(d + r, m.frames);
    Inside(d, r, p, at);
  }

  lemma ParseHopeless(m: Parse)
    requires Parsed(m) && m.body.Content?
    requires FrameDecoder.Hopeless(m.body.head.codec, m.body.consumed, m.body.head.stored - |m.body.consumed|, m.body.head.size)
    ensures Spoiled(m.delivered)
  {
    hide Start, FrameOk, FileHeaderGood, HeadGood, HeadAt, Duration, EndBefore, FramesOk, FrameDecoder.Hopeless;
    forall r: seq<byte>
      ensures !FrameOk(m.delivered + r, m.frames)
    {
      HopelessFrame(m, r);
    }
    SpoiledFrame(m.delivered, m.frames);
  }

  lemma HopelessFrame(m: Parse, r: seq<byte>)
    requires Parsed(m) && m.body.Content?
    requires FrameDecoder.Hopeless(m.body.head.codec, m.body.consumed, m.body.head.stored - |m.body.consumed|, m.body.head.size)
    ensures !FrameOk(m.delivered + r, m.frames)
  {
    hide Start, FileHeaderGood, HeadGood, HeadAt, Duration, EndBefore, FramesOk, Parsed, FrameDecoder.Meaning;
    if Whole(m.delivered + r, m.frames) {
      BeginsWith(m, r);
    }
  }

  // All stored bytes of a frame have been consumed.
  lemma ParseWhole(m: Parse)
    requires Parsed(m) && m.body.Content? && |m.body.consumed| == m.body.head.stored
    ensures Whole(m.delivered, m.frames) && Picture(m.delivered, m.frames) == FrameDecoder.Meaning(m.body.head.codec, m.body.consumed)
    ensures EndBefore(m.delivered, m.frames + 1) == m.body.head.pts + m.body.head.time
    ensures Start(m.delivered, m.frames + 1) == Position(m) && m.frames < FrameCount(m.delivered)
    ensures !FrameOk(m.delivered, m.frames) ==> Spoiled(m.delivered)
  {
    hide Start, FrameOk, FramesOk, FileHeaderGood, HeadGood, HeadOf, FrameCount, Duration, FrameDecoder.Meaning;
    var d := m.delivered;
    StartNext(d, m.frames);
    if !FrameOk(d, m.frames) {
      forall r: seq<byte>
        ensures !FrameOk(d + r, m.frames)
      {
        FrameStays(d, r, m.frames);
      }
      SpoiledFrame(d, m.frames);
    }
  }

  // A good frame leads to the next one, or to the end of the movie.
  lemma ParsePublish(m: Parse)
    requires Parsed(m) && m.body.Content? && |m.body.consumed| == m.body.head.stored && FrameOk(m.delivered, m.frames)
    ensures m.frames + 1 < FrameCount(m.delivered) ==> Parsed(m.(frames := m.frames + 1, body := FrameHead))
    ensures m.frames + 1 == FrameCount(m.delivered) ==>
              if EndBefore(m.delivered, m.frames + 1) == Duration(m.delivered) then GoodMovie(m.delivered) else Spoiled(m.delivered)
  {
    hide Start, FrameOk, FileHeaderGood, HeadGood, HeadOf, FrameCount, Duration, EndBefore, FrameDecoder.Meaning;
    var d := m.delivered;
    ParseWhole(m);
    forall n: nat | n < m.frames + 1
      ensures FrameOk(d, n)
    {}
    if m.frames + 1 == FrameCount(d) && EndBefore(d, m.frames + 1) != Duration(d) {
      forall r: seq<byte>
        ensures !GoodMovie(d + r)
      {
        HeaderStays(d, r);
        EndStays(d, r, m.frames + 1);
      }
    }
  }

  lemma GoodCount(f: seq<byte>)
    requires FILE_HEADER <= |f| && FileHeaderGood(f[..FILE_HEADER])
    ensures 0 < FrameCount(f)
  {
    ShiftedWord(f, 12, f[..FILE_HEADER][12..16]);
    ShiftedWord(f[..FILE_HEADER], 12, f[..FILE_HEADER][12..16]);
  }

  // A good movie has a frame, and all of its frames are there.
  lemma GoodWhole(f: seq<byte>)
    requires GoodMovie(f)
    ensures 0 < FrameCount(f) && Start(f, FrameCount(f)) <= |f|
  {
    hide Start, FrameOk, FileHeaderGood, FrameCount, EndBefore, Duration;
    GoodCount(f);
    OkWhole(f, FrameCount(f) - 1);
  }

  // What follows its last frame does not matter to a good movie.
  lemma GoodStays(f: seq<byte>, r: seq<byte>)
    requires GoodMovie(f)
    ensures GoodMovie(f + r) && FrameCount(f + r) == FrameCount(f)
    ensures Start(f + r, FrameCount(f)) == Start(f, FrameCount(f)) <= |f|
  {
    hide Start, FrameOk, FileHeaderGood, HeadOf, FrameCount, Duration;
    HeaderStays(f, r);
    var n := FrameCount(f);
    GoodWhole(f);
    StartStays(f, r, n);
    assert FrameOk(f, n - 1);
    OkWhole(f, n - 1);
    WholeHead(f, n - 1);
    EndStays(f, r, n);
    forall k: nat | k < n
      ensures FrameOk(f + r, k)
    {
      OkWhole(f, k);
      FrameStays(f, r, k);
    }
  }

  // With a good movie delivered and nothing unread, only the last frame can be unfinished, its stored bytes
  // have all been consumed, and nothing follows it.
  lemma ParseEnd(m: Parse)
    requires Parsed(m) && m.pending == [] && |m.header| < HeaderSize(m) && GoodMovie(m.delivered)
    ensures Start(m.delivered, FrameCount(m.delivered)) == |m.delivered|
    ensures m.body.Content? && m.frames + 1 == FrameCount(m.delivered) && |m.body.consumed| == m.body.head.stored
  {
    hide Start, FrameOk, FramesOk, FileHeaderGood, HeadGood, HeadOf, FrameCount, Duration, EndBefore;
    var d, n := m.delivered, m.frames;
    if !m.body.FileHead? {
      GoodWhole(d);
      StartMono(d, n + 1, FrameCount(d));
      StartGrows(d, n);
      if m.body.Content? {
        StartNext(d, n);
      }
    }
  }

  lemma TimesStay(m: Parse, r: seq<byte>)
    requires Parsed(m)
    ensures EndBefore(m.delivered + r, m.frames) == EndBefore(m.delivered, m.frames)
    ensures !m.body.FileHead? ==>
              FrameCount(m.delivered + r) == FrameCount(m.delivered) && Duration(m.delivered + r) == Duration(m.delivered)
  {
    hide Start, FrameOk, FileHeaderGood, HeadGood, HeadOf, FrameCount, Duration;
    if !m.body.FileHead? {
      HeaderStays(m.delivered, r);
      if 0 < m.frames {
        assert FrameOk(m.delivered, m.frames - 1);
        OkWhole(m.delivered, m.frames - 1);
        WholeHead(m.delivered, m.frames - 1);
      }
    }
    EndStays(m.delivered, r, m.frames);
  }
}
