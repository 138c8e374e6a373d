/** Video streaming (src/video/fx3_video_stream.cpp): core 1 builds frames into two RAM pages, the host
  * claims them. */
module VideoStream {
  import opened Bytes
  import opened LittleEndian
  import opened Movie
  import Crc32
  import FrameDecoder

  const RAM_OFFSET := 0x1_0000
  const NO_PAGE := 0xFF
  const INPUT_SIZE := 512
  datatype PageState = Free | Building | Ready | Active
  datatype Page = Page(state: PageState, pts: nat, duration: nat, number: nat, tiles: nat, bytes: nat)
  datatype Status = Idle | Opening | Streaming | Eof | Error
  datatype Fault = NoFault | Busy | OpenFailed | ReadFailed | InvalidFormat | BadCrc
  datatype Command = Stop | Play | Release

  // What the SD source answers: nothing yet, a failure, or bytes (none at the end of the file).
  datatype Read = Retry | Failed | Data(bytes: seq<byte>)

  function PageBase(page: nat): nat {
    RAM_OFFSET + page * PAGE_SIZE
  }

  // What a page shows is the picture of its frame of the movie, with that frame's times.
  ghost predicate Genuine(frame: seq<byte>, page: Page, movie: seq<byte>) {
    && FrameOk(movie, page.number) && Picture(movie, page.number) == Some(frame)
    && var head := HeadAt(movie, page.number);
       page.bytes == head.size && page.tiles == head.tiles && page.pts == head.pts && page.duration == head.time
  }

  // A page the host may see holds a genuine frame.
  ghost predicate Holds(ram: array<byte>, base: nat, page: Page, movie: seq<byte>)
    reads ram
  {
    Shown(page) ==> base + page.bytes <= ram.Length && Genuine(ram[base..base + page.bytes], Facts(page), movie)
  }

  // What a page is, whoever may see it.
  function Facts(page: Page): Page {
    page.(state := Free)
  }

  // Reading on does not change what a page is.
  lemma HoldsOn(ram: array<byte>, base: nat, page: Page, movie: seq<byte>, bytes: seq<byte>)
    requires Holds(ram, base, page, movie)
    ensures Holds(ram, base, page, movie + bytes)
  {
    hide Genuine;
    if Shown(page) {
      GenuineOn(ram[base..base + page.bytes], Facts(page), movie, bytes);
    }
  }

  lemma GenuineOn(frame: seq<byte>, page: Page, movie: seq<byte>, bytes: seq<byte>)
    requires Genuine(frame, page, movie)
    ensures Genuine(frame, page, movie + bytes)
  {
    hide FrameOk, Start, HeadAt, Picture;
    OkWhole(movie, page.number);
    FrameStays(movie, bytes, page.number);
  }

  // A movie played to its end; with nothing after it the last service was not asked for too much.
  ghost predicate Ended(movie: seq<byte>, owed: int) {
    && GoodMovie(movie)
    && (Complete(movie) ==> owed <= FrameDecoder.WORK)
  }

  // Nothing follows the last frame.
  ghost predicate Complete(movie: seq<byte>) {
    Start(movie, FrameCount(movie)) == |movie|
  }

  lemma KeptHolds(ram: array<byte>, base: nat, page: Page, movie: seq<byte>, i: nat, building: nat, active: nat)
    requires Holds(ram, base, page, movie) && Owned(page, i, building, active) && i < 2
    ensures Holds(ram, base, Kept(page), movie) && Holds(ram, base, page.(state := Free), movie)
    ensures Owned(Kept(page), i, NO_PAGE, active) && Owned(page.(state := Free), i, NO_PAGE, NO_PAGE)
    ensures page.state.Free? ==> Kept(page).state.Free?
  {
    hide Genuine;
  }

  predicate Shown(page: Page) {
    page.state.Ready? || page.state.Active?
  }

  // What stopping leaves of a page: only the one on show is kept.
  function Kept(page: Page): Page {
    if page.state.Active? then page else page.(state := Free)
  }

  // Exactly the page being built is Building, and exactly the one on show is Active.
  predicate Owned(page: Page, i: nat, building: nat, active: nat) {
    && (page.state.Building? <==> building == i) && (page.state.Active? <==> active == i)
    && (Shown(page) ==> page.bytes <= PAGE_SIZE)
  }

  function Count(page: Page): nat {
    if page.state.Ready? then 1 else 0
  }

  // The Ready pages are exactly the finished frames not yet claimed.
  predicate InOrder(a: Page, b: Page, claimed: nat, frames: nat) {
    && claimed + Count(a) + Count(b) == frames
    && (a.state.Ready? ==> claimed <= a.number < frames) && (b.state.Ready? ==> claimed <= b.number < frames)
    && (a.state.Ready? && b.state.Ready? ==> a.number != b.number)
  }

  // A frame whose header has been read is being decoded into the page at base.
  ghost predicate Decoding(decoder: FrameDecoder.Decoder, base: nat, page: Page, frames: nat)
    reads decoder, decoder.ram
  {
    && decoder.Valid() && decoder.base == base && decoder.decoded == page.bytes <= PAGE_SIZE
    && decoder.decoded == FrameBytes(page.tiles) && page.number == frames
  }

  class Stream {
    const ram: array<byte>
    const decoder: FrameDecoder.Decoder
    var pages: seq<Page>
    var open: bool
    var locked: bool
    var status: Status
    var error: Fault
    var active: nat
    var duration: nat
    var frameCount: nat
    var header: seq<byte>
    var input: seq<byte>
    var inputUsed: nat
    var frames: nat
    var previousEnd: nat
    var expectedCrc: nat
    var building: nat
    var fileHeader: bool
    ghost var delivered: seq<byte> // every byte read since the last play
    ghost var claimed: nat  // frames the host has claimed since the last play
    ghost var owed: int     // what was still to be output when the latest service with stored bytes to come began
    ghost var dropped: bool // a stop or a failure threw frames away since then

    ghost predicate Shape()
      reads `pages, `building, `active, `input, `inputUsed, `fileHeader, `open, `dropped, `locked
    {
      && decoder.ram == ram && RAM_OFFSET + 2 * PAGE_SIZE <= ram.Length
      && Ranged() && |input| <= INPUT_SIZE
      && Owned(pages[0], 0, building, active) && Owned(pages[1], 1, building, active)
      && (building == NO_PAGE || (building < 2 && !fileHeader && open)) && (active == NO_PAGE || active < 2)
      && (open ==> !dropped)
      && (!locked ==> !open && pages[0].state.Free? && pages[1].state.Free?)
    }

    // The pages the host may see are frames of the movie.
    ghost predicate Shots()
      requires |pages| == 2
      reads `pages, `delivered, ram
    {
      Holds(ram, PageBase(0), pages[0], delivered) && Holds(ram, PageBase(1), pages[1], delivered)
    }

    // Unless frames were thrown away, the Ready ones are all that is unclaimed.
    ghost predicate Queue()
      requires |pages| == 2
      reads `pages, `dropped, `claimed, `frames
    {
      !dropped ==> InOrder(pages[0], pages[1], claimed, frames)
    }

    ghost predicate Ending()
      reads `status, `open, `delivered, `frames, `owed
    {
      status == Eof ==> !open && frames == FrameCount(delivered) && Ended(delivered, owed)
    }

    // Everything but the frame under construction, which a failure throws away.
    ghost predicate Sound()
      reads this, ram
    {
      Shape() && Shots() && Queue() && Ending()
    }

    predicate Chosen()
      reads `pages, `building
    {
      |pages| == 2 && (building == NO_PAGE || building < 2)
    }

    predicate Ranged()
      reads `pages, `building, `input, `inputUsed
    {
      Chosen() && inputUsed <= |input|
    }

    // What reading has made of the movie so far.
    ghost function Part(): Body
      requires Chosen()
      reads `pages, `building, `fileHeader, `expectedCrc, decoder
    {
      if fileHeader then FileHead
      else if building == NO_PAGE || decoder.decoded == 0 then FrameHead
      else
        var page := pages[building];
        Content(Head(page.pts, page.tiles, decoder.codec, 0, decoder.stored + |decoder.consumed|, decoder.decoded, expectedCrc,
                     page.duration), decoder.consumed)
    }

    ghost function Progress(): Parse
      requires Ranged()
      reads `pages, `building, `input, `inputUsed, `fileHeader, `expectedCrc, `delivered, `header, `frames, decoder
    {
      Parse(delivered, input[inputUsed..], header, frames, Part())
    }

    // An open movie is being read in order.
    ghost predicate Reading()
      requires Ranged()
      reads `pages, `building, `input, `inputUsed, `fileHeader, `expectedCrc, `delivered, `header, `frames, decoder
      reads `previousEnd, `frameCount, `duration
    {
      && Parsed(Progress()) && |header| < HeaderSize(Progress()) && previousEnd == EndBefore(delivered, frames)
      && (!fileHeader ==> frameCount == FrameCount(delivered) && duration == Movie.Duration(delivered))
    }

    ghost predicate BodyGood()
      requires Chosen()
      reads `pages, `building, `frames, decoder, decoder.ram
    {
      building != NO_PAGE && decoder.decoded != 0 ==> Decoding(decoder, PageBase(building), pages[building], frames)
    }

    // A frame's stored bytes are being decoded.
    predicate InBody()
      reads `open, `fileHeader, `building, decoder`decoded
    {
      open && !fileHeader && building != NO_PAGE && decoder.decoded != 0
    }

    ghost predicate Tracking()
      reads this, decoder, ram, decoder.ram
    {
      Sound() && (open ==> Reading()) && BodyGood()
    }

    // A frame that waits between services has output to come; if it waits for output alone it owed too much.
    ghost predicate Waiting()
      reads `open, `fileHeader, `building, `input, `inputUsed, `owed, decoder
    {
      InBody() ==> decoder.written < decoder.decoded && (decoder.stored == 0 && inputUsed == |input| ==> FrameDecoder.WORK < owed)
    }

    ghost predicate Valid()
      reads this, decoder, ram, decoder.ram
    {
      Tracking() && Waiting()
    }

    // A frame left in its body took all the service allows, or all the bytes there were and wants more.
    predicate Pressed(before: nat)
      reads `input, `inputUsed, decoder`written, decoder`stored
    {
      before <= decoder.written && (decoder.written == before + FrameDecoder.WORK || (inputUsed == |input| && 0 < decoder.stored))
    }

    // How far the file has been read.
    ghost function At(): int
      reads `delivered, `input, `inputUsed
    {
      |delivered| - |input| + inputUsed
    }

    // The same movie is still being read, from the same input.
    twostate predicate Onward()
      reads `open, `input, `inputUsed, `frameCount, `fileHeader
    {
      open ==> input == old(input) && old(inputUsed) <= inputUsed && frameCount == old(frameCount) && fileHeader == old(fileHeader)
    }

    // What a service that works on a byte achieves while the movie goes on: a header is complete, or a frame
    // is published, or all bytes are taken, or a frame has been given the whole work limit.
    twostate predicate Moved()
      reads `open, `input, `inputUsed, `delivered, `frameCount, `fileHeader, `frames, `building, decoder
    {
      open ==>
        && old(At()) <= At() && (fileHeader ==> old(fileHeader)) && (old(fileHeader) ==> frames == old(frames) && !InBody())
        && (fileHeader || !old(fileHeader) ==> frameCount == old(frameCount))
        && (fileHeader ==> inputUsed == |input|)
        && (!old(fileHeader) ==>
              if InBody() then
                && frames == old(frames) && Pressed(if old(InBody()) then old(decoder.written) else 0)
                && (old(InBody()) ==> decoder.decoded == old(decoder.decoded))
              else frames == old(frames) + 1 || (frames == old(frames) && !old(InBody()) && inputUsed == |input|))
    }

    // The last frame of a good movie, with the rest of its stored bytes there and no more than the work limit
    // still to be output, ends the movie at once.
    twostate predicate Concludes()
      reads `delivered, `status
    {
      var length := |delivered|;
      GoodMovie(delivered) && old(LastOf(length)) ==> status == Eof
    }

    // The last frame is in its body, all its stored bytes are within this many bytes of the movie, and it owes
    // no more than the work limit.
    ghost predicate LastOf(length: nat)
      reads `open, `fileHeader, `building, `frames, `frameCount, `delivered, `input, `inputUsed, decoder
    {
      && InBody() && frames + 1 == frameCount && decoder.stored <= length - |delivered| + |input| - inputUsed
      && decoder.decoded - decoder.written <= FrameDecoder.WORK
    }

    // A service with no byte to work on leaves an open movie as it was.
    twostate predicate Still()
      reads `open, `input, `inputUsed, `delivered, `frameCount, `fileHeader, `frames, `building, decoder
    {
      open ==>
        && delivered == old(delivered) && At() == old(At()) && frameCount == old(frameCount) && fileHeader == old(fileHeader)
        && frames == old(frames) && InBody() == old(InBody())
        && (InBody() ==> decoder.written == old(decoder.written) && decoder.decoded == old(decoder.decoded))
    }

    // Shown pages keep their bytes, and nothing outside the two pages changes.
    twostate predicate Preserved()
      requires |old(pages)| == 2
      reads this, ram
    {
      forall i :: 0 <= i < ram.Length && !OpenTo(old(pages[0]), old(pages[1]), i) ==> ram[i] == old(ram[i])
    }

    // The page on show is neither changed nor replaced, and a frame is only dropped by a reported error.
    twostate predicate Undisturbed()
      requires |old(pages)| == 2
      reads this
    {
      && |pages| == 2 && active == old(active) && (active < 2 ==> pages[active] == old(pages[active]))
      && locked == old(locked) && claimed == old(claimed)
      && (dropped ==> old(dropped) || (!open && status == Error))
      && (error == old(error) || (!open && status == Error))
    }

    constructor (ram: array<byte>)
      requires RAM_OFFSET + 2 * PAGE_SIZE <= ram.Length
      ensures Valid() && this.ram == ram && fresh(decoder) && !open && !locked
    {
      this.ram := ram;
      decoder := new FrameDecoder.Decoder(ram);
      pages := seq(2, _ => Page(Free, 0, 0, 0, 0, 0));
      open, locked, status, error, active, duration, frameCount := false, false, Idle, NoFault, NO_PAGE, 0, 0;
      header, input, inputUsed, frames, previousEnd, expectedCrc := [], [], 0, 0, 0, 0;
      building, fileHeader := NO_PAGE, true;
      delivered, claimed, owed, dropped := [], 0, 0, true;
    }

    method ClearInput()
      modifies `header, `input, `inputUsed, `status, decoder`run
      ensures header == [] && input == [] && inputUsed == 0 && decoder.run == 0 && status == Idle
    {
      header, input, inputUsed, decoder.run, status := [], [], 0, 0, Idle;
    }

    method DropPages()
      requires |pages| == 2
      modifies `open, `pages, `building, `dropped
      ensures !open && building == NO_PAGE && dropped && pages == [Kept(old(pages)[0]), Kept(old(pages)[1])]
    {
      open, building, dropped := false, NO_PAGE, true;
      pages := [Kept(pages[0]), Kept(pages[1])];
    }

    // Drop everything the host is not showing.
    method Stop()
      requires Sound()
      modifies this, decoder`run
      ensures Valid() && dropped && !open && status == Idle && active == old(active) && locked == old(locked)
      ensures error == old(error) && claimed == old(claimed)
      ensures delivered == old(delivered) && owed == old(owed) && frames == old(frames)
      ensures pages == [Kept(old(pages)[0]), Kept(old(pages)[1])]
    {
      hide Holds, InOrder, Decoding, Owned, Kept, Parsed, Ended;
      KeptHolds(ram, PageBase(0), pages[0], delivered, 0, building, active);
      KeptHolds(ram, PageBase(1), pages[1], delivered, 1, building, active);
      DropPages();
      ClearInput();
    }

    method Release()
      requires Sound()
      modifies this, decoder`run
      ensures Valid() && AtRest()
      ensures delivered == old(delivered) && error == old(error)
    {
      hide Shots, Queue, Ending, Reading, BodyGood, Waiting;
      Stop();
      FreeAll();
    }

    // Nothing is shown, nothing is built, and the coprocessor is free.
    predicate AtRest()
      reads `pages, `open, `locked, `active, `status
    {
      !open && !locked && active == NO_PAGE && status == Idle && |pages| == 2 && pages[0].state.Free? && pages[1].state.Free?
    }

    method FreeAll()
      requires Valid() && !open
      modifies `pages, `active, `building, `dropped, `locked
      ensures Valid() && !locked && active == NO_PAGE && pages == [Facts(old(pages)[0]), Facts(old(pages)[1])]
    {
      hide Genuine, InOrder, Decoding, Reading, Ending;
      pages := [Facts(pages[0]), Facts(pages[1])];
      active, building, dropped, locked := NO_PAGE, NO_PAGE, true, false;
    }

    method Fail(fault: Fault)
      requires Sound()
      modifies this, decoder`run
      ensures Valid() && dropped && !open && status == Error && error == fault && active == old(active)
      ensures locked == old(locked) && claimed == old(claimed)
      ensures delivered == old(delivered) && owed == old(owed) && frames == old(frames)
      ensures |pages| == 2 && (active < 2 ==> pages[active] == old(pages[active]))
    {
      hide Shots, Queue, BodyGood, Reading, Ended;
      Stop();
      error, status := fault, Error;
    }

    method Play(acquired: bool, found: bool)
      requires Valid()
      modifies this, decoder
      ensures Valid()
      ensures old(locked) ==> error == Busy && unchanged(decoder) && Refused()
      ensures delivered == old(delivered) || delivered == []
      ensures !old(locked) && acquired && found ==>
                && open && fileHeader && locked && frames == 0 && claimed == 0 && !dropped && delivered == []
                && status == Opening && error == NoFault && active == NO_PAGE && input == [] && inputUsed == 0
      ensures !old(locked) ==> active == NO_PAGE && (!(acquired && found) ==> !open && status == Error)
      ensures !old(locked) && !acquired ==> error == Busy && !locked
      ensures !old(locked) && acquired && !found ==> error == OpenFailed && locked
    {
      hide Shots, BodyGood, Queue, Ending, Reading;
      if !locked {
        NothingShown();
      }
      if locked {
        error := Busy;
      } else if !acquired {
        Fail(Busy);
      } else {
        Lock();
        if found {
          Begin();
        } else {
          Fail(OpenFailed);
        }
      }
    }

    // Unlocked, nothing is on show.
    lemma NothingShown()
      requires Valid() && !locked
      ensures active == NO_PAGE && pages[0].state.Free? && pages[1].state.Free? && building == NO_PAGE
    {
      hide Shots, BodyGood, Queue, Ending, Reading;
    }

    // A refused play changes nothing but the error register.
    twostate predicate Refused()
      reads this
    {
      && pages == old(pages) && open == old(open) && locked == old(locked) && status == old(status) && active == old(active)
      && duration == old(duration) && frameCount == old(frameCount) && header == old(header) && input == old(input)
      && inputUsed == old(inputUsed) && frames == old(frames) && previousEnd == old(previousEnd) && expectedCrc == old(expectedCrc)
      && building == old(building) && fileHeader == old(fileHeader) && delivered == old(delivered) && claimed == old(claimed)
      && owed == old(owed) && dropped == old(dropped)
    }

    method Lock()
      requires Valid() && !locked
      modifies `locked, `status, `error
      ensures Valid() && locked && error == NoFault && status == Opening
    {
      hide Shots, Reading, BodyGood, Queue, Ended;
      error, locked, status := NoFault, true, Opening;
    }

    method ClearCounters()
      modifies `frames, `previousEnd, `header, `input, `inputUsed, `duration, `frameCount, `claimed, `dropped, `delivered
      ensures frames == claimed == previousEnd == duration == frameCount == 0 && header == [] && input == [] && inputUsed == 0 && !dropped && delivered == []
    {
      frames, previousEnd, header, input, inputUsed, duration, frameCount := 0, 0, [], [], 0, 0, 0;
      claimed, dropped, delivered := 0, false, [];
    }

    method Begin()
      requires Valid() && !open && locked && status == Opening && pages[0].state.Free? && pages[1].state.Free?
      modifies `open, `fileHeader, `frames, `previousEnd, `header, `input, `inputUsed, `duration, `frameCount, `claimed, `dropped, `delivered
      ensures Valid() && open && fileHeader && frames == 0 && claimed == 0 && !dropped && delivered == []
      ensures input == [] && inputUsed == 0
    {
      hide Decoding, Ended, Genuine, FrameOk, FramesOk;
      ClearCounters();
      open, fileHeader := true, true;
    }

    // The finished page the host may claim: the oldest.
    function Offered(): nat
      requires |pages| == 2
      reads `pages
    {
      if pages[0].state.Ready? && !(pages[1].state.Ready? && pages[1].number < pages[0].number) then 0
      else if pages[1].state.Ready? then 1
      else NO_PAGE
    }

    // The host's page register: claim the offered page, or none, in exchange for the one on show.
    method HostClaim(value: nat)
      requires Valid()
      modifies `pages, `active, `claimed
      ensures Valid()
      ensures value == NO_PAGE ==> active == NO_PAGE && pages[0] == Released(old(pages[0])) && pages[1] == Released(old(pages[1]))
      ensures value < 2 && old(Offered()) == value ==>
                && active == value && pages[value] == old(pages[value]).(state := Active)
                && pages[1 - value] == Released(old(pages[1 - value]))
      ensures value < 2 && old(Offered()) == value ==> Holds(ram, PageBase(value), pages[value], delivered)
      ensures value < 2 && old(Offered()) == value && !dropped ==> pages[value].number == old(claimed) && claimed == old(claimed) + 1
      ensures value != NO_PAGE && old(Offered()) != value ==> unchanged(this)
    {
      hide Reading, Waiting, BodyGood, Queue, Ending, Holds;
      assert |pages| == 2;
      if value == NO_PAGE {
        GiveUp();
      } else if value < 2 && Offered() == value {
        GiveUp();
        Show(value);
      }
    }

    method GiveUp()
      requires Valid()
      modifies `pages, `active
      ensures Valid() && active == NO_PAGE && pages[0] == Released(old(pages[0])) && pages[1] == Released(old(pages[1]))
    {
      hide Reading, BodyGood, Ending, Waiting, Holds, Owned;
      ReleasedOwned(pages, building, active);
      ReleasedHolds(ram, PageBase(0), pages[0], delivered);
      ReleasedHolds(ram, PageBase(1), pages[1], delivered);
      pages, active := [Released(pages[0]), Released(pages[1])], NO_PAGE;
      BuildingKept();
    }

    // A change to the other pages is none to the one being built, nor to what reading has made of the movie.
    twostate lemma BuildingKept()
      requires old(Tracking()) && Ranged() && building == old(building) && (building < 2 ==> pages[building] == old(pages[building]))
      requires unchanged(`input) && unchanged(`inputUsed) && unchanged(`fileHeader) && unchanged(`expectedCrc) && unchanged(`delivered)
      requires unchanged(`header) && unchanged(`frames) && unchanged(`previousEnd) && unchanged(`frameCount) && unchanged(`duration)
      requires unchanged(`open) && unchanged(decoder) && unchanged(ram)
      ensures (open ==> Reading()) && BodyGood()
    {
      hide Shots, Queue, Ending, Decoding, Parsed, Holds, EndBefore, FrameCount, Movie.Duration;
      assert old(Tracking());
      assert Progress() == old(Progress());
    }

    // Put the oldest finished page on show; nothing is on show before.
    method Show(value: nat)
      requires Valid() && value < 2 && Offered() == value && active == NO_PAGE
      modifies `pages, `active, `claimed
      ensures Valid() && active == value && pages == old(pages)[value := old(pages)[value].(state := Active)]
      ensures !dropped ==> pages[value].number == old(claimed) && claimed == old(claimed) + 1
    {
      hide Reading, BodyGood, Ending, Waiting, Holds, InOrder;
      ReleasedHolds(ram, PageBase(value), pages[value], delivered);
      if !dropped {
        ShowOrder(pages, value, claimed, frames);
      }
      pages, active, claimed := pages[value := pages[value].(state := Active)], value, claimed + 1;
      BuildingKept();
    }

    // The first free page, if any, becomes the one being built.
    method Allocate()
      requires Valid() && open && !fileHeader && building == NO_PAGE
      modifies this, decoder
      ensures Valid() && Undisturbed() && open && !fileHeader && input == old(input) && inputUsed == old(inputUsed)
      ensures delivered == old(delivered) && owed == old(owed) && frames == old(frames) && frameCount == old(frameCount)
      ensures Ranged() && (building != NO_PAGE ==> decoder.decoded == 0)
      ensures building == NO_PAGE <==> !old(pages[0]).state.Free? && !old(pages[1]).state.Free?
      ensures Shown(old(pages[0])) ==> pages[0] == old(pages[0])
      ensures Shown(old(pages[1])) ==> pages[1] == old(pages[1])
    {
      hide Decoding, Parsed, Ending, Genuine;
      if pages[0].state.Free? {
        pages, building := pages[0 := pages[0].(state := Building)], 0;
        decoder.decoded := 0;
      } else if pages[1].state.Free? {
        pages, building := pages[1 := pages[1].(state := Building)], 1;
        decoder.decoded := 0;
      }
    }

    // Move input bytes into the header until it has size bytes.
    method FillHeader(size: nat)
      requires inputUsed <= |input| && |header| <= size
      modifies `header, `inputUsed
      ensures old(inputUsed) <= inputUsed <= |input| && |header| <= size
      ensures header == old(header) + input[old(inputUsed)..inputUsed]
      ensures |header| < size ==> inputUsed == |input|
    {
      while |header| < size && inputUsed < |input|
        invariant old(inputUsed) <= inputUsed <= |input| && |header| <= size
        invariant header == old(header) + input[old(inputUsed)..inputUsed]
      {
        header := header + [input[inputUsed]];
        inputUsed := inputUsed + 1;
      }
    }

    // Header bytes that have arrived; what reading has made of the movie includes them.
    method TakeHeader() returns (full: bool)
      requires Valid() && open && !InBody() && (fileHeader || building != NO_PAGE)
      modifies `header, `inputUsed
      ensures Sound() && Parsed(Progress()) && (full <==> |header| == HeaderSize(Progress()))
      ensures Part() == old(Part()) && BodyGood()
      ensures !full ==> Valid() && inputUsed == |input|
      ensures old(inputUsed) <= inputUsed <= |input|
    {
      hide Shots, BodyGood, Queue, Ending, Parsed;
      ghost var before, from := Progress(), inputUsed;
      FillHeader(if fileHeader then 32 else 24);
      assert input[inputUsed..] == before.pending[inputUsed - from..] && input[from..inputUsed] == before.pending[..inputUsed - from];
      ParseTake(before, inputUsed - from);
      full := |header| == if fileHeader then 32 else 24;
    }

    method ReadFileHeader()
      requires Valid() && open && fileHeader
      modifies this, decoder
      ensures Valid() && Undisturbed() && delivered == old(delivered) && owed == old(owed)
      ensures dropped ==> old(dropped) || (error == InvalidFormat && Spoiled(delivered))
      ensures open || dropped
      ensures open && !fileHeader ==> status == Streaming
      ensures decoder.decoded == old(decoder.decoded)
      ensures open ==> input == old(input) && old(inputUsed) <= inputUsed && frames == old(frames) && building == NO_PAGE
      ensures open && fileHeader ==> inputUsed == |input| && frameCount == old(frameCount)
    {
      hide Shots, BodyGood, Queue, FileHeaderGood, Ended, Parsed, Spoiled;
      var full := TakeHeader();
      if full {
        OpenMovie();
      }
    }

    // The file header is complete.
    method OpenMovie()
      requires Sound() && BodyGood() && open && fileHeader && Parsed(Progress()) && |header| == FILE_HEADER
      requires previousEnd == EndBefore(delivered, frames)
      modifies this, decoder`run
      ensures Valid() && Undisturbed() && delivered == old(delivered) && owed == old(owed)
      ensures dropped ==> old(dropped) || (error == InvalidFormat && Spoiled(delivered))
      ensures open || dropped
      ensures open ==> !fileHeader && status == Streaming && building == NO_PAGE
      ensures open ==> input == old(input) && inputUsed == old(inputUsed) && frames == old(frames)
    {
      hide Shots, BodyGood, Queue, FileHeaderGood, Ended, Parsed, Spoiled, Owned;
      ParseFileHeader(Progress());
      if !FileHeaderGood(header) {
        Fail(InvalidFormat);
      } else {
        StartFrames(Le32(header, 12), Le32(header, 16));
      }
    }

    method StartFrames(count: nat, time: nat)
      requires Sound() && BodyGood() && open && fileHeader && FrameCount(delivered) == count && Movie.Duration(delivered) == time
      requires Parsed(Progress().(header := [], body := FrameHead)) && previousEnd == EndBefore(delivered, frames)
      modifies `header, `frameCount, `duration, `fileHeader, `status
      ensures Valid() && !fileHeader && status == Streaming
    {
      hide Shots, BodyGood, Queue, Ended, Parsed, Owned, FrameCount, Movie.Duration, EndBefore;
      header, frameCount, duration, fileHeader, status := [], count, time, false, Streaming;
      assert Progress() == old(Progress()).(header := [], body := FrameHead);
    }

    // A frame's header: what it declares must fit the movie and the page before a byte is decoded.
    method ReadFrameHeader() returns (ok: bool)
      requires Valid() && open && !fileHeader && building != NO_PAGE && decoder.decoded == 0
      modifies this, decoder
      ensures Valid() && Undisturbed() && delivered == old(delivered) && owed == old(owed)
      ensures dropped ==> old(dropped) || (error == InvalidFormat && Spoiled(delivered))
      ensures open || dropped
      ensures ok ==> InBody() && building == old(building) && decoder.written == 0 && decoder.consumed == [] && 0 < decoder.stored
      ensures ok ==> HasHead(delivered, frames) && HeadGood(HeadAt(delivered, frames), EndBefore(delivered, frames), Movie.Duration(delivered))
      ensures ok ==> Shown(pages[0]) == Shown(old(pages[0])) && Shown(pages[1]) == Shown(old(pages[1]))
      ensures !ok ==> decoder.decoded == 0
      ensures Onward() && frames == old(frames) && (open && !ok ==> inputUsed == |input|)
    {
      hide Shots, Queue, HeadGood, BodyGood, Ending, Parsed, Spoiled;
      ok := TakeHeader();
      if ok {
        ok := OpenFrame();
      }
    }

    // A frame header is complete.
    method OpenFrame() returns (ok: bool)
      requires Sound() && BodyGood() && open && !fileHeader && building != NO_PAGE && decoder.decoded == 0
      requires Parsed(Progress()) && |header| == FRAME_HEADER && previousEnd == EndBefore(delivered, frames)
      requires frameCount == FrameCount(delivered) && duration == Movie.Duration(delivered)
      modifies this, decoder
      ensures Valid() && Undisturbed() && delivered == old(delivered) && owed == old(owed)
      ensures dropped ==> old(dropped) || (error == InvalidFormat && Spoiled(delivered))
      ensures open || dropped
      ensures ok ==> InBody() && building == old(building) && decoder.written == 0 && decoder.consumed == [] && 0 < decoder.stored
      ensures ok ==> HasHead(delivered, frames) && HeadGood(HeadAt(delivered, frames), EndBefore(delivered, frames), Movie.Duration(delivered))
      ensures ok ==> Shown(pages[0]) == Shown(old(pages[0])) && Shown(pages[1]) == Shown(old(pages[1]))
      ensures !ok ==> decoder.decoded == 0 && !open
      ensures Onward() && frames == old(frames)
    {
      hide Shots, Queue, HeadGood, BodyGood, Ending, Parsed, Spoiled, Owned;
      ParseFrameHeader(Progress());
      var h := HeadOf(header);
      ok := HeadGood(h, previousEnd, duration);
      if !ok {
        Fail(InvalidFormat);
      } else {
        HeadFits(h, previousEnd, duration);
        BeginFrame(h);
      }
    }

    method BeginFrame(h: Head)
      requires Sound() && open && !fileHeader && building != NO_PAGE && decoder.decoded == 0
      requires 0 < h.size == FrameBytes(h.tiles) <= PAGE_SIZE && h.codec <= 1 && (h.codec == 0 ==> h.stored == h.size)
      requires h.unused == 0 && 0 < h.stored
      requires Parsed(Progress().(header := [], body := Content(h, []))) && previousEnd == EndBefore(delivered, frames)
      requires frameCount == FrameCount(delivered) && duration == Movie.Duration(delivered)
      modifies `header, `pages, `expectedCrc, decoder
      ensures Valid() && Undisturbed() && InBody()
      ensures pages[building] == Page(Building, h.pts, h.time, frames, h.tiles, h.size) && pages[1 - building] == old(pages[1 - building])
      ensures Shown(pages[0]) == Shown(old(pages[0])) && Shown(pages[1]) == Shown(old(pages[1]))
      ensures decoder.decoded == h.size && decoder.written == 0 && decoder.consumed == [] && decoder.stored == h.stored
    {
      hide Shots, Queue, FrameDecoder.Decoder.Valid, Ending, Parsed;
      DescribePage(h);
      decoder.Start(PageBase(building), h.codec, h.stored, h.size);
    }

    // The page being built is to hold the frame with this header.
    method DescribePage(h: Head)
      requires Sound() && building != NO_PAGE && h.size <= PAGE_SIZE
      modifies `header, `pages, `expectedCrc
      ensures Sound() && Undisturbed() && header == [] && expectedCrc == h.crc
      ensures pages == old(pages)[building := Page(Building, h.pts, h.time, frames, h.tiles, h.size)]
      ensures Shown(pages[0]) == Shown(old(pages[0])) && Shown(pages[1]) == Shown(old(pages[1]))
    {
      hide Genuine, Ended;
      header := [];
      pages := pages[building := Page(Building, h.pts, h.time, frames, h.tiles, h.size)];
      expectedCrc := h.crc;
    }

    // Every map entry and colour of the page being built.
    method ValidateFrame(base: nat, tiles: nat) returns (good: bool)
      requires base + FrameBytes(tiles) <= ram.Length
      ensures good <==> FrameGood(ram[base..base + FrameBytes(tiles)], tiles)
    {
      ghost var frame := ram[base..base + FrameBytes(tiles)];
      var k := 0;
      while k < MAP_SIZE / 2
        invariant 0 <= k <= MAP_SIZE / 2 && forall j: nat :: j < k ==> EntryGood(frame, tiles, j)
      {
        var at := base + tiles * 32 + 2 * k;
        var entry := ram[at] as nat + 0x100 * ram[at + 1] as nat;
        assert entry == Le16(frame, tiles * 32 + 2 * k);
        if entry % 0x400 >= tiles || entry / 0x400 % 0x10 != 0 {
          assert !EntryGood(frame, tiles, k);
          return false;
        }
        k := k + 1;
      }
      k := 0;
      while k < PALETTE_SIZE / 2
        invariant 0 <= k <= PALETTE_SIZE / 2 && forall j: nat :: j < k ==> ColorGood(frame, tiles, j)
      {
        assert ram[base + tiles * 32 + MAP_SIZE + 2 * k + 1] == frame[tiles * 32 + MAP_SIZE + 2 * k + 1];
        if ram[base + tiles * 32 + MAP_SIZE + 2 * k + 1] >= 0x80 {
          assert !ColorGood(frame, tiles, k);
          return false;
        }
        k := k + 1;
      }
      good := true;
    }

    // The page that was being built is on offer as the next frame.
    twostate predicate Published()
      requires old(building) < |pages|
      reads this
    {
      && building == NO_PAGE && pages[old(building)].state.Ready? && pages[old(building)].number == old(frames)
      && frames == old(frames) + 1
    }

    // One service of the frame decoder, and what its outcome means for the page.
    method Advance()
      requires Valid() && InBody() && (inputUsed < |input| || 0 < decoder.stored)
      modifies this, decoder, ram
      ensures Valid() && Undisturbed() && Preserved() && delivered == old(delivered)
      ensures dropped ==> Spoiled(delivered)
      ensures !dropped ==> (Published() && (open || status == Eof)) || (InBody() && building == old(building) && pages == old(pages))
      ensures decoder.decoded == old(decoder.decoded)
      ensures owed == if 0 < old(decoder.stored) then old(decoder.decoded - decoder.written) else old(owed)
      ensures Onward() && (InBody() ==> frames == old(frames) && Pressed(old(decoder.written)))
      ensures InBody() ==> decoder.stored == old(decoder.stored) - (inputUsed - old(inputUsed))
    {
      hide Shots, Queue, BodyGood, FrameDecoder.Hopeless, FrameDecoder.Meaning, Ending, Parsed, Spoiled;
      var outcome := Decode();
      if outcome.Rejected? {
        Fail(InvalidFormat);
      } else if outcome.Complete? {
        Finish();
      }
    }

    // Decode what has arrived, and account for the bytes taken.
    method Decode() returns (outcome: FrameDecoder.Outcome)
      requires Valid() && InBody() && (inputUsed < |input| || 0 < decoder.stored)
      modifies `inputUsed, `owed, decoder, ram
      ensures Sound() && Preserved() && decoder.decoded == old(decoder.decoded)
      ensures owed == if 0 < old(decoder.stored) then old(decoder.decoded - decoder.written) else old(owed)
      ensures !outcome.Rejected? ==> Tracking() && (outcome.More? ==> Waiting())
      ensures outcome.Rejected? ==> Spoiled(delivered)
      ensures outcome.Complete? ==> decoder.written == decoder.decoded && decoder.stored == 0
      ensures outcome.Complete? ==> decoder.Valid() && FrameDecoder.Meaning(decoder.codec, decoder.consumed) == Some(decoder.Out())
      ensures outcome.Complete? ==> inputUsed < |input| || owed <= FrameDecoder.WORK
      ensures old(inputUsed) <= inputUsed && decoder.stored == old(decoder.stored) - (inputUsed - old(inputUsed))
      ensures outcome.More? ==> Pressed(old(decoder.written))
    {
      hide Shots, Queue, BodyGood, Ended, FrameDecoder.Hopeless, FrameDecoder.Meaning, FrameDecoder.Decoder.Valid, Parsed, Spoiled;
      if 0 < decoder.stored {
        owed := decoder.decoded - decoder.written;
      }
      outcome := TakeBytes();
      if outcome.Rejected? {
        HopelessNow();
      }
    }

    // One service of the decoder over the input that has arrived.
    method TakeBytes() returns (outcome: FrameDecoder.Outcome)
      requires Shape() && Shots() && BodyGood() && InBody() && Parsed(Progress())
      modifies `inputUsed, decoder, ram
      ensures Shape() && Shots() && Preserved() && (!outcome.Rejected? ==> BodyGood()) && Parsed(Progress())
      ensures decoder.decoded == old(decoder.decoded)
      ensures outcome.Rejected? ==> FrameDecoder.Hopeless(decoder.codec, decoder.consumed, decoder.stored, decoder.decoded)
      ensures outcome.Complete? ==> decoder.written == decoder.decoded && decoder.stored == 0
      ensures outcome.Complete? ==> decoder.Valid() && FrameDecoder.Meaning(decoder.codec, decoder.consumed) == Some(decoder.Out())
      ensures old(decoder.written) <= decoder.written <= old(decoder.written) + FrameDecoder.WORK
      ensures old(inputUsed) <= inputUsed <= |input| && decoder.stored == old(decoder.stored) - (inputUsed - old(inputUsed))
      ensures outcome.More? ==> decoder.written < decoder.decoded
      ensures outcome.More? ==> decoder.written == old(decoder.written) + FrameDecoder.WORK || (inputUsed == |input| && 0 < decoder.stored)
    {
      hide Shots, Owned, BodyGood, FrameDecoder.Hopeless, FrameDecoder.Meaning, FrameDecoder.Decoder.Valid, Parsed;
      ghost var before, from, was := Progress(), inputUsed, decoder.consumed;
      var used;
      outcome, used := RunDecoder();
      inputUsed := used;
      ConsumedOn(before, was, from);
    }

    // What reading has made of the movie includes the bytes the decoder took.
    lemma ConsumedOn(before: Parse, was: seq<byte>, from: nat)
      requires Ranged() && building != NO_PAGE && !fileHeader && decoder.decoded != 0 && from <= inputUsed
      requires Parsed(before) && before == Parse(delivered, input[from..], header, frames, Content(Progress().body.head, was))
      requires decoder.consumed == was + input[from..inputUsed]
      ensures Parsed(Progress())
    {
      hide Parsed;
      var k := inputUsed - from;
      assert input[inputUsed..] == before.pending[k..] && input[from..inputUsed] == before.pending[..k];
      ParseConsume(before, k);
    }

    lemma HopelessNow()
      requires Ranged() && building != NO_PAGE && !fileHeader && decoder.decoded != 0 && Parsed(Progress())
      requires FrameDecoder.Hopeless(decoder.codec, decoder.consumed, decoder.stored, decoder.decoded)
      ensures Spoiled(delivered)
    {
      hide Parsed, FrameDecoder.Hopeless, Spoiled;
      ParseHopeless(Progress());
    }

    // The pages on show are out of the decoder's reach.
    method RunDecoder() returns (outcome: FrameDecoder.Outcome, used: nat)
      requires Shape() && Shots() && BodyGood() && InBody()
      modifies decoder, ram
      ensures Shots() && Preserved() && (!outcome.Rejected? ==> BodyGood())
      ensures inputUsed <= used <= |input| && decoder.decoded == old(decoder.decoded) && decoder.codec == old(decoder.codec)
      ensures decoder.consumed == old(decoder.consumed) + input[inputUsed..used]
      ensures decoder.stored == old(decoder.stored) - (used - inputUsed)
      ensures outcome.Rejected? ==> FrameDecoder.Hopeless(decoder.codec, decoder.consumed, decoder.stored, decoder.decoded)
      ensures outcome.Complete? ==> decoder.written == decoder.decoded && decoder.stored == 0
      ensures outcome.Complete? ==> decoder.Valid() && FrameDecoder.Meaning(decoder.codec, decoder.consumed) == Some(decoder.Out())
      ensures old(decoder.written) <= decoder.written <= old(decoder.written) + FrameDecoder.WORK
      ensures outcome.More? ==> decoder.written < decoder.decoded
      ensures outcome.More? ==> decoder.written == old(decoder.written) + FrameDecoder.WORK || (used == |input| && 0 < decoder.stored)
    {
      hide Genuine, FrameDecoder.Decoder.Valid, FrameDecoder.Hopeless, FrameDecoder.Meaning;
      outcome, used := decoder.Service(input, inputUsed);
      assert Shown(pages[0]) ==> ram[PageBase(0)..PageBase(0) + pages[0].bytes] == old(ram[PageBase(0)..PageBase(0) + pages[0].bytes]);
      assert Shown(pages[1]) ==> ram[PageBase(1)..PageBase(1) + pages[1].bytes] == old(ram[PageBase(1)..PageBase(1) + pages[1].bytes]);
    }

    method ChecksumMatches() returns (same: bool)
      requires decoder.Valid()
      ensures same <==> Crc32.ChecksumWord(decoder.Out()) == expectedCrc
    {
      hide FrameDecoder.Follows, Crc32.Register, Crc32.Value, Crc32.Xor;
      same := Crc32.Value(Crc32.Xor(decoder.crc, Crc32.ALL_ONES), 32) == expectedCrc;
    }

    // The frame is decoded: check it, then offer it.
    method Finish()
      requires Tracking() && InBody() && decoder.written == decoder.decoded && decoder.stored == 0
      requires FrameDecoder.Meaning(decoder.codec, decoder.consumed) == Some(decoder.Out())
      requires inputUsed < |input| || owed <= FrameDecoder.WORK
      modifies this, decoder`run
      ensures Valid() && Undisturbed() && delivered == old(delivered) && owed == old(owed)
      ensures dropped ==> Spoiled(delivered) && (error == BadCrc <==> Crc32.ChecksumWord(old(decoder.Out())) != old(expectedCrc))
      ensures !dropped ==> Published() && (open || status == Eof)
      ensures Onward()
    {
      hide Shots, Queue, FrameDecoder.Meaning, Crc32.ChecksumWord, BodyGood;
      hide Ending, Reading, Spoiled, FrameOk, GoodMovie, Complete;
      var fault := Judge();
      if fault != NoFault {
        Fail(fault);
        return;
      }
      Publish();
      if frames == frameCount {
        EndMovie();
      }
    }

    // The checks on a decoded frame: its checksum, then its map and colours.
    method Judge() returns (fault: Fault)
      requires Tracking() && InBody() && decoder.written == decoder.decoded && decoder.stored == 0
      requires FrameDecoder.Meaning(decoder.codec, decoder.consumed) == Some(decoder.Out())
      ensures fault == NoFault <==> FrameOk(delivered, frames)
      ensures fault != NoFault ==> Spoiled(delivered)
      ensures fault == BadCrc <==> Crc32.ChecksumWord(decoder.Out()) != expectedCrc
    {
      hide FrameDecoder.Meaning, FrameGood, Crc32.ChecksumWord, Spoiled, FrameOk, FrameDecoder.Decoder.Valid;
      hide Shots, Queue, Ending, Reading;
      FrameJudged();
      fault := CheckPicture(pages[building].tiles);
    }

    method CheckPicture(tiles: nat) returns (fault: Fault)
      requires decoder.Valid() && decoder.ram == ram && decoder.written == FrameBytes(tiles)
      requires decoder.base + decoder.written <= ram.Length
      ensures fault == NoFault <==> Crc32.ChecksumWord(decoder.Out()) == expectedCrc && FrameGood(decoder.Out(), tiles)
      ensures fault == BadCrc <==> Crc32.ChecksumWord(decoder.Out()) != expectedCrc
    {
      hide FrameGood, Crc32.ChecksumWord, FrameDecoder.Decoder.Valid;
      var same := ChecksumMatches();
      if !same {
        return BadCrc;
      }
      var good := ValidateFrame(decoder.base, tiles);
      fault := if good then NoFault else InvalidFormat;
    }

    // The decoded page is its frame's picture; the frame is good exactly when checksum and content are,
    // and otherwise the movie is spoiled.
    lemma FrameJudged()
      requires Tracking() && InBody() && decoder.written == decoder.decoded && decoder.stored == 0
      requires FrameDecoder.Meaning(decoder.codec, decoder.consumed) == Some(decoder.Out())
      ensures Whole(delivered, frames) && Picture(delivered, frames) == Some(decoder.Out())
      ensures FrameOk(delivered, frames) <==>
              Crc32.ChecksumWord(decoder.Out()) == expectedCrc && FrameGood(decoder.Out(), pages[building].tiles)
      ensures (FrameOk(delivered, frames) || Spoiled(delivered)) && frames < FrameCount(delivered)
      ensures var head := HeadAt(delivered, frames);
              && head.size == decoder.decoded && head.tiles == pages[building].tiles
              && head.pts == pages[building].pts && head.time == pages[building].duration
    {
      hide Shots, Queue, FrameDecoder.Meaning, FrameGood, Crc32.ChecksumWord, FrameDecoder.Follows, Crc32.Register;
      hide Ending, Spoiled, Opened, HeadGood, Start, EndBefore, Movie.Duration;
      ParseWhole(Progress());
    }

    lemma FrameGenuine()
      requires Tracking() && InBody() && decoder.written == decoder.decoded && decoder.stored == 0
      requires FrameDecoder.Meaning(decoder.codec, decoder.consumed) == Some(decoder.Out()) && FrameOk(delivered, frames)
      ensures Genuine(decoder.Out(), Facts(pages[building]), delivered)
    {
      hide FrameDecoder.Meaning, FrameGood, Crc32.ChecksumWord, FrameDecoder.Follows, Crc32.Register;
      hide Ending, Parsed, Spoiled, GoodMovie, FrameOk, Start, EndBefore, HeadAt;
      FrameJudged();
    }

    // Offer the finished page as the next frame.
    method Publish()
      requires Tracking() && InBody() && decoder.written == decoder.decoded && decoder.stored == 0
      requires FrameDecoder.Meaning(decoder.codec, decoder.consumed) == Some(decoder.Out()) && FrameOk(delivered, frames)
      modifies `pages, `building, `frames, `previousEnd
      ensures Sound() && Undisturbed() && Published()
      ensures frames < frameCount ==> Valid()
      ensures frames == frameCount ==> if previousEnd == duration then GoodMovie(delivered) else Spoiled(delivered)
      ensures frames == frameCount ==> frames == FrameCount(delivered) && (Complete(delivered) ==> inputUsed == |input|)
      ensures frames <= frameCount && pages[1 - old(building)] == old(pages[1 - building])
    {
      hide FrameDecoder.Meaning, FrameGood, Crc32.ChecksumWord, FrameDecoder.Follows, Crc32.Register;
      hide Ended, Parsed, Spoiled, GoodMovie, FrameOk, Start, EndBefore, HeadAt, FrameCount;
      hide Genuine;
      FrameJudged();
      FrameGenuine();
      ParseWhole(Progress());
      ParsePublish(Progress());
      ghost var m := Progress();
      var page := pages[building];
      pages := pages[building := page.(state := Ready)];
      previousEnd, building, frames := page.pts + page.duration, NO_PAGE, frames + 1;
    }

    // The last frame: the host still shows it, and the declared duration must have been reached exactly.
    method EndMovie()
      requires Sound() && open && building == NO_PAGE && !dropped
      requires if previousEnd == duration then GoodMovie(delivered) else Spoiled(delivered)
      requires (Complete(delivered) ==> owed <= FrameDecoder.WORK) && frames == FrameCount(delivered)
      modifies this, decoder`run
      ensures Valid() && Undisturbed() && !open && delivered == old(delivered) && owed == old(owed)
      ensures status == (if old(previousEnd) == old(duration) then Eof else Error)
      ensures old(previousEnd) == old(duration) ==> pages == old(pages) && !dropped
      ensures old(previousEnd) != old(duration) ==> error == InvalidFormat && dropped && Spoiled(delivered)
      ensures building == NO_PAGE && frames == old(frames)
    {
      hide Shots, Queue, Spoiled, GoodMovie, Complete;
      open := false;
      if previousEnd != duration {
        status := Streaming;
        Fail(InvalidFormat);
        return;
      }
      status := Eof;
    }

    // The service will read: it has work for a byte and none left.
    predicate Reads()
      requires |pages| == 2
      reads this
    {
      open && inputUsed == |input| && (fileHeader || building != NO_PAGE || pages[0].state.Free? || pages[1].state.Free?)
    }

    // The service works on a byte, one it has or one it reads.
    predicate Works(read: Read)
      requires |pages| == 2
      reads this
    {
      open && (fileHeader || building != NO_PAGE || pages[0].state.Free? || pages[1].state.Free?) && (inputUsed == |input| ==> Usable(read))
    }

    // One service of core 1 with an open movie: at most one read, and one piece of work. It drops the movie
    // only if nothing that could follow would make it a good one, or for want of a byte; a good movie that
    // closes has come to its end exactly when something follows its last frame or the last service that had
    // stored bytes to come owed no more than the work limit; and a byte to work on moves the movie on.
    method Serve(read: Read)
      requires Valid()
      modifies this, decoder, ram
      ensures Valid() && Undisturbed() && Preserved() && ClosesRight()
      ensures !old(open) || old(fileHeader) ==> unchanged(ram)
      ensures !old(open) || (old(fileHeader) && old(Reads()) && read.Retry?) ==> unchanged(this) && unchanged(decoder)
      ensures delivered == if old(Reads()) && Usable(read) then old(delivered) + read.bytes else old(delivered)
      ensures dropped && !old(dropped) ==>
                Spoiled(delivered) || (error == ReadFailed && old(Reads()) && !read.Retry? && !Usable(read))
      ensures old(Reads()) && !read.Retry? && !Usable(read) ==> !open && status == Error && error == ReadFailed
      ensures old(InBody()) && old(Works(read)) && 0 < old(decoder.stored) ==> owed == old(decoder.decoded - decoder.written)
      ensures old(open) && !old(fileHeader) && !old(InBody()) && old(Works(read)) && decoder.decoded != 0 ==> owed == decoder.decoded
      ensures !old(Works(read)) || old(fileHeader) ==> owed == old(owed)
      ensures if old(InBody()) then old(decoder.stored) == 0 ==> owed == old(owed) else decoder.decoded == 0 ==> owed == old(owed)
      ensures if old(Works(read)) then Moved() && Concludes() else Still()
      ensures old(open) ==> open || dropped || status == Eof
    {
      hide Valid, Spoiled, GoodMovie, Complete;
      RangedAlways();
      if !open {
        return;
      }
      if !fileHeader && building == NO_PAGE {
        Allocate();
        if building == NO_PAGE {
          return;
        }
      }
      Feed(read);
    }

    // A good movie closes at its end exactly when something follows its last frame or the last service with
    // stored bytes to come owed no more than the work limit.
    twostate predicate ClosesRight()
      reads `open, `delivered, `status, `owed
    {
      old(open) && !open && GoodMovie(delivered) ==> (status == Eof <==> (Complete(delivered) ==> owed <= FrameDecoder.WORK))
    }

    lemma RangedAlways()
      requires Valid()
      ensures Ranged() && |pages| == 2 && (open ==> !dropped)
    {}

    method Feed(read: Read)
      requires Valid() && open && (fileHeader || building != NO_PAGE)
      modifies this, decoder, ram
      ensures Valid() && Undisturbed() && Preserved() && ClosesRight()
      ensures old(fileHeader) ==> unchanged(ram) && owed == old(owed)
      ensures old(inputUsed) == |old(input)| && read.Retry? ==> unchanged(this) && unchanged(decoder)
      ensures delivered == if old(inputUsed) == |old(input)| && Usable(read) then old(delivered) + read.bytes else old(delivered)
      ensures dropped && !old(dropped) ==>
                Spoiled(delivered) || (error == ReadFailed && old(inputUsed) == |old(input)| && !read.Retry? && !Usable(read))
      ensures old(inputUsed) == |old(input)| && !read.Retry? && !Usable(read) ==> !open && status == Error && error == ReadFailed
      ensures old(inputUsed) == |old(input)| && !Usable(read) ==> owed == old(owed) && decoder.decoded == old(decoder.decoded)
      ensures old(inputUsed) < |old(input)| || Usable(read) ==>
                if old(InBody()) then owed == if 0 < old(decoder.stored) then old(decoder.decoded - decoder.written) else old(owed)
                else !old(fileHeader) ==> owed == if decoder.decoded == 0 then old(owed) else decoder.decoded
      ensures if old(inputUsed) < |old(input)| || Usable(read) then Moved() && Concludes() else Still()
      ensures open || dropped || status == Eof
    {
      hide Valid, Spoiled, GoodMovie, Complete;
      RangedAlways();
      if inputUsed == |input| {
        var loaded := Load(read);
        if !loaded {
          return;
        }
      }
      Work();
      SpoiledNow(delivered);
    }

    // A read delivers 1 to 512 bytes, or nothing yet, or fails; the end of the file is a failure too.
    method Load(read: Read) returns (loaded: bool)
      requires Valid() && open && inputUsed == |input| && (fileHeader || building != NO_PAGE)
      modifies this, decoder
      ensures Valid() && Undisturbed()
      ensures loaded ==> open && fileHeader == old(fileHeader) && building == old(building) && pages == old(pages) && Ranged()
      ensures loaded <==> Usable(read)
      ensures delivered == if loaded then old(delivered) + read.bytes else old(delivered)
      ensures loaded ==> inputUsed < |input| && frames == old(frames) && frameCount == old(frameCount) && At() == old(At())
      ensures unchanged(decoder) || (!open && decoder.decoded == old(decoder.decoded))
      ensures owed == old(owed) && (read.Retry? ==> unchanged(this) && unchanged(decoder))
      ensures !loaded && !read.Retry? ==> status == Error && error == ReadFailed && !open && dropped
      ensures GoodMovie(delivered) && !loaded && !read.Retry? ==> Complete(delivered) && FrameDecoder.WORK < owed
    {
      hide Holds, InOrder, BodyGood, Ended, Parsed, GoodMovie, Complete;
      if read.Retry? {
        return false;
      }
      if !Usable(read) {
        StuckAtEnd();
        Fail(ReadFailed);
        return false;
      }
      HoldsOn(ram, PageBase(0), pages[0], delivered, read.bytes);
      HoldsOn(ram, PageBase(1), pages[1], delivered, read.bytes);
      ParseLoad(Progress(), read.bytes);
      ReadingOn(read.bytes);
      input, inputUsed, loaded := read.bytes, 0, true;
      delivered := delivered + read.bytes;
    }

    // A good movie that has been read to the end and wants a byte has nothing after its last frame and owes
    // too many outputs.
    lemma StuckAtEnd()
      requires Valid() && open && inputUsed == |input| && (fileHeader || building != NO_PAGE)
      ensures GoodMovie(delivered) ==> Complete(delivered) && FrameDecoder.WORK < owed
    {
      hide Shots, Queue, BodyGood, Ending, Parsed, GoodMovie;
      if GoodMovie(delivered) {
        ParseEnd(Progress());
      }
    }

    // More bytes leave the movie's times and counts as they are.
    lemma ReadingOn(bytes: seq<byte>)
      requires Shape() && Reading()
      ensures EndBefore(delivered + bytes, frames) == EndBefore(delivered, frames)
      ensures !fileHeader ==> FrameCount(delivered + bytes) == FrameCount(delivered) && Movie.Duration(delivered + bytes) == Movie.Duration(delivered)
    {
      hide Start, FrameOk, FramesOk, HeadOf, FileHeaderGood, HeadGood;
      TimesStay(Progress(), bytes);
    }

    method Work()
      requires Valid() && open && (fileHeader || building != NO_PAGE) && inputUsed < |input|
      modifies this, decoder, ram
      ensures Valid() && Undisturbed() && Preserved() && delivered == old(delivered)
      ensures old(fileHeader) ==> unchanged(ram) && owed == old(owed)
      ensures dropped ==> old(dropped) || Spoiled(delivered)
      ensures (open || dropped || status == Eof) && Ending()
      ensures old(InBody()) ==> owed == if 0 < old(decoder.stored) then old(decoder.decoded - decoder.written) else old(owed)
      ensures !old(fileHeader) && !old(InBody()) ==> owed == if decoder.decoded == 0 then old(owed) else decoder.decoded
      ensures old(InBody()) ==> decoder.decoded == old(decoder.decoded)
      ensures Moved() && Concludes()
    {
      hide Shots, Queue, BodyGood, Reading, Ending, Spoiled;
      if fileHeader {
        ReadFileHeader();
        return;
      }
      if decoder.decoded == 0 {
        var ok := ReadFrameHeader();
        if !ok {
          return;
        }
      }
      Advance();
      LastFrame(|delivered|);
    }

    twostate lemma LastFrame(length: nat)
      requires Valid() && delivered == old(delivered) && length == |delivered| && Onward()
      requires dropped ==> Spoiled(delivered)
      requires !dropped ==> (old(building) < |pages| && Published() && (open || status == Eof)) || InBody()
      requires InBody() && old(InBody()) ==>
                 && Pressed(old(decoder.written)) && decoder.stored == old(decoder.stored) - (inputUsed - old(inputUsed))
                 && decoder.decoded == old(decoder.decoded)
      ensures GoodMovie(delivered) && old(LastOf(length)) ==> status == Eof
    {
      hide Shots, Queue, BodyGood, Ending, Spoiled, GoodMovie, Owned, FrameCount, Parsed;
      SpoiledNow(delivered);
      if open && old(LastOf(length)) {
        MoreFrames();
      }
    }

    // An open movie has a frame to come.
    lemma MoreFrames()
      requires Valid() && open && !fileHeader
      ensures frames < frameCount == FrameCount(delivered)
    {
      hide Shots, Queue, BodyGood, Ending, Owned, FrameCount;
    }

    // Stopped: what is not on show is gone, and the host keeps the page it shows and the coprocessor.
    twostate predicate Halted()
      requires |old(pages)| == 2
      reads `pages, `open, `status, `active, `locked, `error, `claimed
    {
      && !open && status == Idle && active == old(active) && locked == old(locked) && error == old(error) && claimed == old(claimed)
      && pages == [Kept(old(pages)[0]), Kept(old(pages)[1])]
    }

    // A play was accepted, and its first service has been run.
    predicate Started(found: bool, read: Read)
      reads `open, `locked, `status, `error, `active, `fileHeader
    {
      && locked && active == NO_PAGE
      && (!found ==> !open && status == Error && error == OpenFailed)
      && (found && read.Retry? ==> open && fileHeader && status == Opening && error == NoFault)
      && (found && !read.Retry? && !Usable(read) ==> !open && status == Error && error == ReadFailed)
      && (found && Usable(read) && open ==> error == NoFault)
    }

    // One call of the core 1 task: a reset request, then a command, then a service.
    method Task(reset: bool, command: Option<Command>, acquired: bool, found: bool, read: Read)
      requires Valid()
      modifies this, decoder, ram
      ensures Valid() && Preserved()
      ensures !reset && command.None? ==>
                Undisturbed() && ClosesRight() && if old(Works(read)) then Moved() && Concludes() else Still()
      ensures !reset && command == Some(Command.Stop) ==> Halted() && unchanged(ram)
      ensures command == Some(Command.Release) || (reset && command != Some(Command.Play)) ==> AtRest() && unchanged(ram)
      ensures command == Some(Command.Play) && !reset && old(locked) ==>
                && (error == Busy || (!open && status == Error)) && locked && active == old(active) && claimed == old(claimed)
                && if old(Works(read)) then Moved() && Concludes() else Still()
      ensures command == Some(Command.Play) && (reset || !old(locked)) && !acquired ==>
                !open && !locked && status == Error && error == Busy && active == NO_PAGE
      ensures command == Some(Command.Play) && (reset || !old(locked)) && acquired ==> Started(found, read)
      ensures command == Some(Command.Play) && (reset || !old(locked)) && acquired && found ==>
                claimed == 0 && delivered == if Usable(read) then read.bytes else []
      ensures !reset && command.None? ==>
                delivered == if old(Reads()) && Usable(read) then old(delivered) + read.bytes else old(delivered)
      ensures !reset && command.None? && dropped && !old(dropped) ==>
                Spoiled(delivered) || (error == ReadFailed && old(Reads()) && !read.Retry? && !Usable(read))
      ensures delivered == old(delivered) || delivered == [] ||
              (Usable(read) && (delivered == old(delivered) + read.bytes || delivered == read.bytes))
    {
      hide Valid, GoodMovie, Complete, Spoiled;
      Obey(reset, command, acquired, found);
      Serve(read);
    }

    // The requests that came since the last call.
    method Obey(reset: bool, command: Option<Command>, acquired: bool, found: bool)
      requires Valid()
      modifies this, decoder
      ensures Valid()
      ensures !reset && command.None? ==> unchanged(this) && unchanged(decoder)
      ensures !reset && command == Some(Command.Stop) ==> Halted()
      ensures command == Some(Command.Release) || (reset && command != Some(Command.Play)) ==> AtRest()
      ensures command == Some(Command.Play) && !reset && old(locked) ==> error == Busy && Refused() && unchanged(decoder)
      ensures command == Some(Command.Play) && (reset || !old(locked)) && !acquired ==>
                !open && !locked && status == Error && error == Busy && active == NO_PAGE
      ensures command == Some(Command.Play) && (reset || !old(locked)) && acquired ==> locked && active == NO_PAGE
      ensures command == Some(Command.Play) && (reset || !old(locked)) && acquired && !found ==>
                !open && status == Error && error == OpenFailed
      ensures command == Some(Command.Play) && (reset || !old(locked)) && acquired && found ==>
                && open && fileHeader && claimed == 0 && delivered == [] && status == Opening && error == NoFault
                && input == [] && inputUsed == 0
      ensures delivered == old(delivered) || delivered == []
      ensures open && !fileHeader ==> pages == old(pages)
    {
      hide Sound, Reading, BodyGood, Waiting;
      if reset {
        Release();
      }
      if command.Some? {
        if command.value.Stop? {
          Stop();
        } else if command.value.Release? {
          Release();
        } else {
          Play(acquired, found);
        }
      }
    }
  }

  // A read the decoder can use.
  predicate Usable(read: Read) {
    read.Data? && 0 < |read.bytes| <= 512
  }

  lemma HeadFits(h: Head, previousEnd: nat, duration: nat)
    requires HeadGood(h, previousEnd, duration)
    ensures 0 < h.size == FrameBytes(h.tiles) <= PAGE_SIZE && h.codec <= 1 && (h.codec == 0 ==> h.stored == h.size)
    ensures h.unused == 0 && 0 < h.stored
  {}

  // What giving up the page on show leaves of a page.
  function Released(page: Page): Page {
    if page.state.Active? then page.(state := Free) else page
  }

  // Showing the oldest finished page takes the next unclaimed frame.
  lemma ShowOrder(pages: seq<Page>, value: nat, claimed: nat, frames: nat)
    requires |pages| == 2 && value < 2 && pages[value].state.Ready? && InOrder(pages[0], pages[1], claimed, frames)
    requires pages[1 - value].state.Ready? ==> pages[value].number <= pages[1 - value].number
    ensures pages[value].number == claimed
    ensures var shown := pages[value := pages[value].(state := Active)];
            InOrder(shown[0], shown[1], claimed + 1, frames)
  {}

  lemma ReleasedOwned(pages: seq<Page>, building: nat, active: nat)
    requires |pages| == 2 && Owned(pages[0], 0, building, active) && Owned(pages[1], 1, building, active)
    ensures Owned(Released(pages[0]), 0, building, NO_PAGE) && Owned(Released(pages[1]), 1, building, NO_PAGE)
    ensures building < 2 ==> Released(pages[building]) == pages[building]
  {}

  lemma ReleasedHolds(ram: array<byte>, base: nat, page: Page, movie: seq<byte>)
    requires Holds(ram, base, page, movie)
    ensures Holds(ram, base, Released(page), movie)
    ensures page.state.Ready? ==> Holds(ram, base, page.(state := Active), movie)
  {
    hide Genuine;
  }

  // RAM bytes a service may write: those of a page the host is neither offered nor showing.
  predicate OpenTo(a: Page, b: Page, i: int) {
    || (PageBase(0) <= i < PageBase(1) && !Shown(a))
    || (PageBase(1) <= i < PageBase(2) && !Shown(b))
  }
}
