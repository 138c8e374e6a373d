/** A whole movie played through the video stream (src/video/fx3_video_stream.cpp): core 1 serves, the SD card
  * delivers the file piece by piece, and the host claims the pages it is offered. */
module VideoRun {
  import opened Bytes
  import opened Movie
  import opened VideoStream
  import FrameDecoder

  // The picture of frame n of a file.
  ghost predicate Seen(file: seq<byte>, n: nat, picture: seq<byte>) {
    FrameOk(file, n) && Picture(file, n) == Some(picture)
  }

  // The pictures shown so far, in the order of the file.
  ghost predicate InSequence(file: seq<byte>, shown: seq<seq<byte>>) {
    forall n: nat :: n < |shown| ==> Seen(file, n, shown[n])
  }

  // How playing a file ends.
  ghost predicate Outcome(file: seq<byte>, status: Status, owed: int) {
    if GoodMovie(file) && (Complete(file) ==> owed <= FrameDecoder.WORK) then status == Eof else status == Error
  }

  // The next bytes of the file, as many as the card cares to deliver; none at its end.
  function Piece(file: seq<byte>, at: nat, size: nat): (read: Read)
    requires at <= |file|
    ensures Usable(read) <==> at < |file| && 0 < size
    ensures read.Data? && at + |read.bytes| <= |file| && read.bytes == file[at..at + |read.bytes|]
  {
    var room := |file| - at;
    var want := if size <= INPUT_SIZE then size else INPUT_SIZE;
    Data(file[at..at + if want <= room then want else room])
  }

  // The bytes the host has not seen yet are still to come.
  lemma Bounds(stream: Stream)
    requires stream.Valid() && stream.open
    ensures !stream.dropped && |stream.pages| == 2 && stream.inputUsed <= |stream.input|
    ensures stream.claimed <= stream.frames <= stream.frameCount
    ensures !stream.fileHeader ==> stream.frames < stream.frameCount
    ensures stream.InBody() ==> stream.decoder.written < stream.decoder.decoded
  {
    hide Holds, Owned, Stream.BodyGood, Stream.Ending, FrameCount, Movie.Duration, EndBefore, Opened;
    if !stream.fileHeader {
      stream.MoreFrames();
    }
  }

  // A picture of the bytes read so far is one of the file.
  lemma SeenInFile(stream: Stream, page: nat, file: seq<byte>)
    requires page < 2 && |stream.pages| == 2 && Shown(stream.pages[page]) && stream.delivered <= file
    requires Holds(stream.ram, PageBase(page), stream.pages[page], stream.delivered)
    ensures PageBase(page) + stream.pages[page].bytes <= stream.ram.Length
    ensures Seen(file, stream.pages[page].number, stream.ram[PageBase(page)..PageBase(page) + stream.pages[page].bytes])
  {
    hide FrameOk, Picture, HeadAt;
    var d, n := stream.delivered, stream.pages[page].number;
    assert file == d + file[|d|..];
    OkWhole(d, n);
    FrameStays(d, file[|d|..], n);
  }

  // The host claims the page on offer, if there is one. If there is none, core 1 has a page to build in.
  method Claim(stream: Stream, file: seq<byte>, shown: seq<seq<byte>>) returns (shown': seq<seq<byte>>)
    requires stream.Valid() && !stream.dropped && stream.delivered <= file
    requires |shown| == stream.claimed && InSequence(file, shown)
    modifies stream`pages, stream`active, stream`claimed
    ensures stream.Valid() && |shown'| == stream.claimed && InSequence(file, shown')
    ensures stream.claimed == old(stream.claimed) || stream.claimed == old(stream.claimed) + 1
    ensures stream.claimed == old(stream.claimed) ==>
              && stream.pages == old(stream.pages) && |stream.pages| == 2 && !stream.pages[0].state.Ready? && !stream.pages[1].state.Ready?
              && (stream.building != NO_PAGE || stream.pages[0].state.Free? || stream.pages[1].state.Free?)
  {
    hide Holds, Stream.Valid, Seen;
    stream.RangedAlways();
    var page := stream.Offered();
    if page == NO_PAGE {
      RoomToBuild(stream);
      return shown;
    }
    stream.HostClaim(page);
    stream.RangedAlways();
    SeenInFile(stream, page, file);
    shown' := shown + [stream.ram[PageBase(page)..PageBase(page) + stream.pages[page].bytes]];
  }

  lemma RoomToBuild(stream: Stream)
    requires stream.Valid() && |stream.pages| == 2 && !stream.pages[0].state.Ready? && !stream.pages[1].state.Ready?
    ensures stream.building != NO_PAGE || stream.pages[0].state.Free? || stream.pages[1].state.Free?
  {
    hide Holds, Stream.Reading, Stream.BodyGood, Stream.Ending;
  }

  // The unclaimed frames are the pages on offer.
  lemma AllShown(stream: Stream)
    requires stream.Valid() && !stream.dropped
    ensures |stream.pages| == 2 && stream.claimed <= stream.frames
    ensures stream.claimed < stream.frames ==> stream.pages[0].state.Ready? || stream.pages[1].state.Ready?
  {
    hide Holds, Owned, Stream.Reading, Stream.BodyGood, Stream.Ending;
  }

  // What the end of the stream says about the file.
  lemma Judged(file: seq<byte>, delivered: seq<byte>, status: Status, owed: int)
    requires delivered <= file && (status == Eof || status == Error)
    requires status == Eof ==> Ended(delivered, owed)
    requires status == Error ==>
               Spoiled(delivered) || (delivered == file && !(GoodMovie(file) && (Complete(file) ==> owed <= FrameDecoder.WORK)))
    ensures Outcome(file, status, owed) && (status == Eof ==> FrameCount(file) == FrameCount(delivered))
  {
    hide GoodMovie, FrameCount, Start;
    var rest := file[|delivered|..];
    assert file == delivered + rest;
    if status == Eof {
      GoodStays(delivered, rest);
      if Complete(file) {
        assert delivered == file;
      }
    }
  }

  lemma Closing(stream: Stream, file: seq<byte>)
    requires stream.Valid() && !stream.open && stream.delivered <= file
    requires stream.status == Eof || (stream.dropped && stream.status == Error)
    requires stream.status == Error ==>
               || Spoiled(stream.delivered)
               || (stream.delivered == file && !(GoodMovie(file) && (Complete(file) ==> stream.owed <= FrameDecoder.WORK)))
    ensures Outcome(file, stream.status, stream.owed) && (stream.status == Eof ==> stream.frames == FrameCount(file))
  {
    hide Stream.Shape, Stream.Shots, Stream.Queue, Stream.BodyGood, Stream.Waiting, Ended, Outcome, Spoiled, FrameCount, GoodMovie, Complete;
    Judged(file, stream.delivered, stream.status, stream.owed);
  }

  // What a play has still to do for the frame it is at: bytes to read, bytes to output, pictures to show.
  ghost function Rest(stream: Stream, file: seq<byte>): int
    reads stream, stream.decoder
  {
    |file| - stream.At() + (if stream.InBody() then stream.decoder.decoded - stream.decoder.written else 0) + stream.frames - stream.claimed
  }

  // A service has brought the end of the movie closer,
  twostate predicate Closer(stream: Stream, file: seq<byte>)
    reads stream, stream.decoder
  {
    if old(stream.fileHeader) != stream.fileHeader then old(stream.fileHeader)
    else if old(stream.frameCount - stream.frames) != stream.frameCount - stream.frames then
      stream.frameCount - stream.frames < old(stream.frameCount - stream.frames)
    else if old(stream.InBody()) != stream.InBody() then stream.InBody()
    else Rest(stream, file) < old(Rest(stream, file))
  }

  // or left it where it was.
  twostate predicate Level(stream: Stream, file: seq<byte>)
    reads stream, stream.decoder
  {
    && old(stream.fileHeader) == stream.fileHeader && old(stream.frameCount - stream.frames) == stream.frameCount - stream.frames
    && old(stream.InBody()) == stream.InBody() && Rest(stream, file) == old(Rest(stream, file))
  }

  // A service of a stream that plays this file.
  method Turn(stream: Stream, file: seq<byte>, at: nat, read: Read) returns (at': nat)
    requires stream.Valid() && stream.open && at <= |file| && stream.delivered == file[..at]
    requires read.Data? ==> at + |read.bytes| <= |file| && read.bytes == file[at..at + |read.bytes|]
    requires read.Retry? || Usable(read) || (read.Data? && at == |file|)
    modifies stream, stream.decoder, stream.ram
    ensures stream.Valid() && at <= at' <= |file| && stream.delivered == file[..at'] && stream.claimed == old(stream.claimed)
    ensures |old(stream.pages)| == 2
    ensures stream.open && old(stream.Works(read)) ==> Closer(stream, file)
    ensures stream.open && !old(stream.Works(read)) ==> Level(stream, file)
    ensures !old(stream.Works(read)) && old(stream.Reads()) && !read.Retry? ==> !stream.open
    ensures stream.open || Closed(stream, file)
  {
    hide Stream.Valid, Stream.Preserved, Spoiled, GoodMovie, Complete, Outcome, FrameCount;
    stream.RangedAlways();
    var loads := stream.Reads() && Usable(read);
    stream.Serve(read);
    stream.RangedAlways();
    at' := if loads then at + |read.bytes| else at;
    if !stream.open {
      assert file[..|file|] == file;
      Closing(stream, file);
    }
  }

  // The stream has closed, and as the file demands.
  ghost predicate Closed(stream: Stream, file: seq<byte>)
    reads stream
  {
    && !stream.open && Outcome(file, stream.status, stream.owed)
    && (stream.status == Eof ==> !stream.dropped && stream.frames == FrameCount(file))
  }

  // The pages left on offer when a movie has ended.
  method ShowRest(stream: Stream, file: seq<byte>, shown: seq<seq<byte>>) returns (shown': seq<seq<byte>>)
    requires stream.Valid() && Closed(stream, file) && stream.delivered <= file
    requires |shown| == stream.claimed && InSequence(file, shown)
    modifies stream`pages, stream`active, stream`claimed
    ensures stream.Valid() && InSequence(file, shown') && (stream.status == Eof ==> |shown'| == FrameCount(file))
  {
    hide Stream.Valid, Seen, Outcome, FrameCount;
    shown' := shown;
    stream.RangedAlways();
    while stream.status == Eof && stream.Offered() != NO_PAGE
      invariant stream.Valid() && |stream.pages| == 2 && |shown'| == stream.claimed && InSequence(file, shown')
      decreases stream.frames - stream.claimed
    {
      AllShown(stream);
      shown' := Claim(stream, file, shown');
      stream.RangedAlways();
    }
    if stream.status == Eof {
      AllShown(stream);
    }
  }

  // Play a file from its start. The card delivers it in pieces of any size, and the host shows every page it
  // is offered, but up to `patience` times before a service the card may have nothing yet or the host may be
  // late. The movie ends, and it ends as the file demands: with every picture of a good movie shown once and
  // in order, or with an error.
  method Watch(stream: Stream, file: seq<byte>, patience: nat) returns (shown: seq<seq<byte>>)
    requires stream.Valid() && stream.open && stream.claimed == 0 && stream.delivered == []
    modifies stream, stream.decoder, stream.ram
    ensures stream.Valid() && !stream.open && InSequence(file, shown)
    ensures Outcome(file, stream.status, stream.owed)
    ensures stream.status == Eof ==> |shown| == FrameCount(file)
  {
    hide Stream.Valid, Stream.Preserved, Stream.Undisturbed, Seen, GoodMovie, Complete, FrameCount, Outcome;
    shown := [];
    var at, left := 0, patience;
    while stream.open
      invariant stream.Valid() && at <= |file| && stream.delivered == file[..at]
      invariant |shown| == stream.claimed && InSequence(file, shown)
      invariant stream.open || Closed(stream, file)
      decreases left, stream.open, stream.fileHeader, stream.frameCount - stream.frames, !stream.InBody(), Rest(stream, file)
    {
      Bounds(stream);
      var late: bool, stalled: bool := *, *;
      if 0 < left && (late || stalled) {
        left := left - 1;
      } else {
        late, stalled := false, false;
      }
      if !late {
        shown := Claim(stream, file, shown);
      }
      var size: nat :| 0 < size;
      at := Turn(stream, file, at, if stalled then Retry else Piece(file, at, size));
    }
    shown := ShowRest(stream, file, shown);
  }
}
