/** The audio stream on core 1 (src/audio/fx3_audio_stream.cpp): it reads the source into the FIFO, packs
  * tables into free pages while the host claims others, and must neither lose, repeat nor reorder a byte. */
module AudioStream {
  import opened Bytes
  import opened AudioTable
  import opened AudioPages
  import opened AudioFifo

  const BLOCK_SIZE := 9
  const PRIMING_SEGMENTS := 4

  datatype Fault = NoFault | Unavailable | OpenFailed | ReadFailed | PartialBlock | Busy | FifoUnderrun

  // What the source answers: nothing yet, a failure, or bytes (none at the end).
  datatype Read = Retry | Failed | Data(bytes: seq<byte>)

  // The source bytes a run of tables carries.
  ghost function Payload(built: seq<Table>): seq<byte> {
    if built == [] then []
    else
      var last := built[|built| - 1];
      Payload(built[..|built| - 1]) + if last.silent then [] else last.payload
  }

  // The sequence number after a run of tables.
  ghost function NextFirst(built: seq<Table>): nat {
    if built == [] then 0
    else (built[|built| - 1].first + built[|built| - 1].packets) % 0x100
  }

  // Every table is well sized and continues the sequence numbers of the one before it.
  ghost predicate Contiguous(built: seq<Table>) {
    forall g: nat :: g < |built| ==> Sized(built[g]) && built[g].first == NextFirst(built[..g])
  }

  lemma ContiguousNext(built: seq<Table>, t: Table)
    requires Contiguous(built) && Sized(t) && t.first == NextFirst(built)
    ensures Contiguous(built + [t]) && NextFirst(built + [t]) == (t.first + t.packets) % 0x100
    ensures Payload(built + [t]) == Payload(built) + if t.silent then [] else t.payload
  {
    var more := built + [t];
    assert more[..|built|] == built;
    forall g: nat | g < |more|
      ensures Sized(more[g]) && more[g].first == NextFirst(more[..g])
    {
      if g < |built| {
        assert more[..g] == built[..g];
      }
    }
  }

  // Tables carry whole blocks.
  lemma {:induction false} PayloadAligned(built: seq<Table>)
    requires Contiguous(built)
    ensures |Payload(built)| % BLOCK_SIZE == 0
  {
    if built != [] {
      var rest, last := built[..|built| - 1], built[|built| - 1];
      ContiguousPrefix(built, |built| - 1);
      SizedAligned(last);
      hide Sized, Contiguous;
      PayloadAligned(rest);
      AddAligned(|Payload(rest)|, if last.silent then 0 else |last.payload|);
    }
  }

  lemma AddAligned(a: nat, b: nat)
    requires a % BLOCK_SIZE == 0 && b % BLOCK_SIZE == 0
    ensures (a + b) % BLOCK_SIZE == 0
  {}

  lemma SizedAligned(t: Table)
    requires Sized(t)
    ensures |t.payload| % BLOCK_SIZE == 0
  {}

  lemma ContiguousPrefix(built: seq<Table>, n: nat)
    requires Contiguous(built) && n <= |built|
    ensures Contiguous(built[..n])
  {
    hide Sized, NextFirst;
    forall g: nat | g < n
      ensures Sized(built[..n][g]) && built[..n][g].first == NextFirst(built[..n][..g])
    {
      assert built[..n][..g] == built[..g];
    }
  }

  lemma {:induction false} PayloadPrefix(built: seq<Table>, n: nat)
    requires n <= |built|
    ensures Payload(built[..n]) <= Payload(built)
  {
    if n == |built| {
      assert built[..n] == built;
    } else {
      PayloadPrefix(built[..|built| - 1], n);
      assert built[..|built| - 1][..n] == built[..n];
    }
  }

  // Packets built before table g.
  function PacketsBefore(built: seq<Table>, g: nat): nat
    requires g <= |built|
  {
    if g == 0 then 0 else PacketsBefore(built, g - 1) + built[g - 1].packets
  }

  // Packets are numbered from zero on, modulo 256, through all tables: the number that a page carries for
  // packet k of table g is how many packets there were before it.
  lemma PacketNumber(built: seq<Table>, g: nat, page: seq<byte>, k: nat)
    requires Contiguous(built) && g < |built| && TableHolds(page, built[g]) && k < built[g].packets
    ensures 5 * k + 4 < |page| && page[5 * k + 4] as int == (PacketsBefore(built, g) + k) % 0x100
  {
    hide TableHolds, Contiguous, PacketsBefore;
    FirstNumber(built, g);
    EntryNumber(page, built[g], k);
    AddModulo(PacketsBefore(built, g), built[g].first, k, page[5 * k + 4] as int, (PacketsBefore(built, g) + k) % 0x100);
  }

  lemma EntryNumber(page: seq<byte>, t: Table, k: nat)
    requires TableHolds(page, t) && k < t.packets
    ensures k * 5 + 4 < |page| && page[5 * k + 4] as int == (t.first + k) % 0x100
  {
    hide LinesAt;
    assert EntryHolds(page, t, k);
  }

  lemma {:induction false} FirstNumber(built: seq<Table>, g: nat)
    requires Contiguous(built) && g < |built|
    ensures built[g].first == PacketsBefore(built, g) % 0x100
  {
    if g > 0 {
      FirstNumber(built, g - 1);
      assert built[..g][|built[..g]| - 1] == built[g - 1];
      AddModulo(PacketsBefore(built, g - 1), built[g - 1].first, built[g - 1].packets, built[g].first, PacketsBefore(built, g) % 0x100);
    }
  }

  lemma AddModulo(n: nat, first: nat, k: nat, r: int, wanted: nat)
    requires first == n % 0x100 && r == (first + k) % 0x100 && wanted == (n + k) % 0x100
    ensures r == wanted
  {}

  // A prefix of the source made of whole blocks; at the end, every whole block of it.
  predicate Exact(sent: seq<byte>, got: seq<byte>, ended: bool) {
    && sent <= got && |sent| % BLOCK_SIZE == 0
    && (ended ==> sent == got[..|got| - |got| % BLOCK_SIZE])
  }

  // Whether the last table built since then was silence.
  function LastSilent(built: seq<Table>, since: nat, before: bool): bool {
    if |built| <= since then before else built[|built| - 1].silent
  }

  class Stream {
    const pages: Pages
    const fifo: Fifo
    var generation: nat
    var sequence: nat
    var ratePhase: nat
    var sourceOpen: bool
    var sourceEof: bool
    var paused: bool
    var refilling: bool
    var started: bool
    var starved: bool
    var pal: bool
    var error: Fault
    ghost var got: seq<byte>  // what the source has delivered since the stream started
    ghost var lost: seq<byte> // the incomplete last block, dropped at the end

    ghost predicate Shape()
      reads this, pages, fifo
    {
      && pages.data != fifo.bytes
      && generation == |pages.log.built| && sequence == NextFirst(pages.log.built)
      && Contiguous(pages.log.built)
    }

    // Every byte the source delivered is in a table, in the FIFO, or in the dropped incomplete block.
    ghost predicate Conserved()
      requires fifo.Valid()
      reads this, pages, fifo, fifo.bytes
    {
      && got == Payload(pages.log.built) + fifo.Contents() + lost
      && (lost != [] ==> sourceEof && fifo.count == 0 && |lost| < BLOCK_SIZE)
      && (pages.status.Eof? ==> (sourceEof || got == []) && fifo.count == 0 && pages.log.claimed == |pages.log.built|)
    }

    // The invariant while core 1 is building a page, or none.
    ghost predicate Going(building: nat)
      reads this, pages, fifo, pages.data, fifo.bytes
    {
      pages.Valid() && fifo.Valid() && Shape() && Conserved() && pages.building == building
    }

    ghost predicate Valid()
      reads this, pages, fifo, pages.data, fifo.bytes
    {
      Going(NO_PAGE)
    }

    constructor ()
      ensures Valid() && fresh(pages) && fresh(fifo) && fresh(pages.data) && fresh(fifo.bytes)
      ensures got == [] && pages.log.built == [] && !sourceOpen
    {
      pages := new Pages();
      fifo := new Fifo();
      generation, sequence, ratePhase := 0, 0, 0;
      sourceOpen, sourceEof, paused, refilling, started, starved, pal := false, false, false, false, false, false, false;
      error, got, lost := NoFault, [], [];
    }

    // Start over: nothing queued, nothing built, only the page on show kept.
    method ResetStream()
      requires Valid()
      modifies this, pages`pages, pages`offered, pages`log, pages`status, fifo
      ensures Valid() && !sourceOpen && !sourceEof && !paused && !started && got == [] && pages.log.built == []
    {
      hide TableHolds, PageHolds, Ordered, Owned, Offers;
      fifo.Clear();
      pages.ClearPages();
      ClearFlags();
    }

    method ClearFlags()
      modifies this
      ensures generation == 0 && sequence == 0 && got == [] && lost == [] && pal == old(pal) && error == old(error)
      ensures !sourceOpen && !sourceEof && !paused && !refilling && !started && !starved
    {
      sourceOpen, sourceEof, paused, refilling, started, starved := false, false, false, false, false, false;
      generation, sequence, ratePhase, got, lost := 0, 0, 0, [], [];
    }

    method Fail(fault: Fault)
      requires Valid()
      modifies this, pages`pages, pages`offered, pages`log, pages`status, fifo
      ensures Valid() && !sourceOpen && error == fault && got == [] && pages.status == Status.Error && pages.log.built == []
      ensures !paused && !started
    {
      hide TableHolds, PageHolds, Ordered, Owned, Offers, Contiguous;
      ResetStream();
      error := fault;
      pages.status := Status.Error;
    }

    method Stop()
      requires Valid()
      modifies this, pages`pages, pages`offered, pages`log, pages`status, fifo
      ensures Valid() && !sourceOpen && error == NoFault && pages.status.Idle? && pages.log.built == []
    {
      hide TableHolds, PageHolds, Ordered, Owned, Offers, Contiguous;
      ResetStream();
      error := NoFault;
      pages.status := Idle;
    }

    method Play(found: bool)
      requires Valid()
      modifies this, pages`pages, pages`offered, pages`log, pages`status, fifo
      ensures Valid()
      ensures !(old(pages.status).Idle? || old(pages.status).Eof? || old(pages.status).Error?) ==>
                error == Busy && unchanged(pages, fifo, `got, `sourceOpen, `sourceEof, `paused, `refilling, `started, `starved)
      ensures old(pages.status).Idle? || old(pages.status).Eof? || old(pages.status).Error? ==>
                && got == [] && pages.log.built == [] && sourceOpen == found && !paused && !started
                && error == (if found then NoFault else OpenFailed)
                && pages.status == if found then Priming else Status.Error
    {
      hide TableHolds, PageHolds, Ordered, Owned, Offers, Contiguous;
      if !(pages.status.Idle? || pages.status.Eof? || pages.status.Error?) {
        error := Busy;
        return;
      }
      ResetStream();
      error, pages.status := NoFault, Opening;
      if !found {
        Fail(OpenFailed);
        return;
      }
      sourceOpen, pages.status := true, Priming;
    }

    method Pause()
      requires Valid()
      modifies `paused, pages`status
      ensures Valid()
      ensures if sourceOpen || (sourceEof && !old(pages.status).Eof?) then paused && pages.status.Paused?
              else paused == old(paused) && pages.status == old(pages.status)
    {
      hide TableHolds, PageHolds, Ordered, Owned, Offers, Contiguous;
      if sourceOpen || (sourceEof && !pages.status.Eof?) {
        paused, pages.status := true, Paused;
      }
    }

    // The next service takes the stream up where it was.
    method Resume()
      requires Valid()
      modifies `paused
      ensures Valid() && !paused
    {
      hide Pages.Valid, Fifo.Valid, Contiguous, Payload, NextFirst;
      paused := false;
    }

    // Whether a service does anything,
    predicate Serving(): (r: bool)
      reads `paused, pages`status
      ensures r <==> !paused && (pages.status in {Priming, Playing, Draining, Underrun} || pages.status.Paused?)
    {
      !pages.status.Idle? && !pages.status.Opening? && !pages.status.Error? && !pages.status.Eof? && !paused
    }

    // what makes its read a failure,
    ghost predicate Rejects(read: Read)
      reads `sourceEof, `sourceOpen, `refilling, fifo
    {
      Reading() && (read.Failed? || (read.Data? && |read.bytes| > fifo.Most()))
    }

    // and whether it reads the source: once below the low mark, until the high one is reached.
    predicate Reading()
      reads `sourceEof, `sourceOpen, `refilling, fifo`count
    {
      !sourceEof && sourceOpen && (refilling || fifo.count < 0x2000) && fifo.count < 0x6000
    }

    // At most one bounded read; a retry changes nothing, and the end of the source closes it.
    method Refill(read: Read) returns (ok: bool)
      requires Valid() && !pages.status.Eof?
      modifies this, pages`pages, pages`offered, pages`log, pages`status, fifo, fifo.bytes
      ensures Valid() && !pages.status.Eof?
      ensures ok <==> !old(Rejects(read))
      ensures ok ==> pages.log == old(pages.log) && pages.pages == old(pages.pages) && pages.status == old(pages.status)
      ensures ok ==> got == if old(Reading()) && read.Data? then old(got) + read.bytes else old(got)
      ensures ok ==> (sourceEof <==> old(sourceEof) || (old(Reading()) && read == Data([])))
      ensures ok ==> sourceOpen == (old(sourceOpen) && (old(sourceEof) || !sourceEof))
      ensures ok ==> refilling == if old(sourceEof) || !old(sourceOpen) then old(refilling)
                                  else !sourceEof && (old(refilling) || old(fifo.count) < 0x2000) && fifo.count < 0x6000
      ensures ok ==> old(fifo.count) <= fifo.count && starved == old(starved) && started == old(started) && paused == old(paused)
      ensures !ok ==> pages.status == Status.Error && error == ReadFailed && pages.log.built == []
    {
      hide Pages.Valid, Contiguous, Fifo.Most, Payload;
      if sourceEof || !sourceOpen {
        return true;
      }
      refilling := refilling || fifo.count < LOW_WATER;
      if !refilling {
        return true;
      }
      if fifo.count < HIGH_WATER {
        var size := fifo.Room();
        if read.Retry? {
          return true;
        }
        if read.Failed? || |read.bytes| > size {
          Fail(ReadFailed);
          return false;
        }
        if |read.bytes| == 0 {
          sourceOpen, sourceEof, refilling := false, true, false;
          return true;
        }
        Receive(read.bytes);
      }
      if fifo.count >= HIGH_WATER {
        refilling := false;
      }
      ok := true;
    }

    method Receive(data: seq<byte>)
      requires Valid() && !sourceEof && !pages.status.Eof? && fifo.write + |data| <= FIFO_SIZE && fifo.count + |data| <= FIFO_SIZE
      modifies `got, fifo, fifo.bytes
      ensures Valid() && got == old(got) + data
    {
      hide TableHolds, PageHolds, Ordered, Owned, Offers, Contiguous, Payload;
      ghost var queued := fifo.Contents();
      fifo.Fill(data);
      got := got + data;
      assert lost == [];
      assert old(got) + data == Payload(pages.log.built) + (queued + data) + lost;
    }

    // The tables the host has claimed, in the order it claimed them,
    ghost function ClaimedTables(): seq<Table>
      requires pages.Valid()
      reads this, pages, pages.data
    {
      pages.log.built[..pages.log.claimed]
    }

    // and the source bytes they carried.
    ghost function Sent(): seq<byte>
      requires pages.Valid()
      reads this, pages, pages.data
    {
      Payload(ClaimedTables())
    }

    // What the host has been given is always a prefix of the source made of whole blocks, and at the end
    // it is every whole block of the source.
    lemma Delivered()
      requires Valid()
      ensures Exact(Sent(), got, pages.status.Eof?) && Contiguous(ClaimedTables())
      ensures pages.status.Eof? ==> sourceEof || got == []
    {
      hide PageHolds, Waiting, InQueue, Owned, Offers, Contiguous, Payload, NextFirst;
      DeliveredFrom(pages.log.built, pages.log.claimed, got, fifo.Contents(), lost);
      assert pages.log.built[..|pages.log.built|] == pages.log.built;
    }

    // How many packets the next table carries; the rate follows the sound processor's fill level.
    method PacketsPerPage() returns (packets: nat)
      modifies `ratePhase
      ensures packets in {48, 51, 57, 60, 63}
      ensures pages.level <= 2 ==> packets == if pal then 63 else 51
      ensures pages.level >= 6 ==> packets == if pal then 57 else 48
      ensures 2 < pages.level < 6 ==> packets == if pal then 60 else if old(ratePhase) == 2 then 48 else 51
      ensures ratePhase == if !pal && 2 < pages.level < 6 then (old(ratePhase) + 1) % 3 else old(ratePhase)
      ensures packets == old(Wanted())
    {
      var fill := pages.level;
      if pal {
        return if fill <= 2 then 63 else if fill >= 6 then 57 else 60;
      }
      if fill <= 2 {
        return 51;
      }
      if fill >= 6 {
        return 48;
      }
      packets := if ratePhase == 2 then 48 else 51;
      ratePhase := (ratePhase + 1) % 3;
    }

    // The step of the 51, 51, 48 cycle that comes next,
    function NextPhase(): nat
      reads `pal, `ratePhase, pages`level
    {
      if !pal && 2 < pages.level < 6 then (ratePhase + 1) % 3 else ratePhase
    }

    // and the size of the next table.
    function Wanted(): nat
      reads `pal, `ratePhase, pages`level
    {
      if pal then (if pages.level <= 2 then 63 else if pages.level >= 6 then 57 else 60)
      else if pages.level <= 2 then 51 else if pages.level >= 6 || ratePhase == 2 then 48 else 51
    }

    // whether there is something to put into it when the host leaves things alone,
    ghost predicate Fillable()
      reads this, pages, fifo
    {
      if sourceEof then BLOCK_SIZE <= fifo.count
      else Wanted() * PACKET_SIZE <= fifo.count || (started && |pages.pages| == PAGES && NoneReadyNow())
    }

    ghost predicate NoneReadyNow()
      requires |pages.pages| == PAGES
      reads pages
    {
      forall j: nat :: j < PAGES ==> !pages.pages[j].state.Ready?
    }

    // and whatever the host does.
    ghost predicate Plenty()
      reads `sourceEof, fifo`count
    {
      (if sourceEof then BLOCK_SIZE else MAX_PACKETS * PACKET_SIZE) <= fifo.count
    }

    // Find a free page and take it; the host may move before every try.
    method Reserve() returns (selected: nat)
      requires pages.Valid() && pages.building == NO_PAGE
      modifies pages
      ensures pages.Valid() && pages.AllBut(selected) && pages.building == selected && (selected == NO_PAGE || selected < PAGES)
      ensures selected < PAGES ==> pages.pages[selected].state.Building?
      ensures selected < PAGES && old(pages.script) == [] ==> old(pages.pages)[selected].state.Free?
      ensures 0 < FreeCount(old(pages.pages)) ==> selected < PAGES
      ensures selected < PAGES ==> pages.pages[selected].(state := Free) == old(pages.pages)[selected].(state := Free)
      ensures old(pages.script) != [] ==> |pages.script| < |old(pages.script)|
    {
      hide Pages.Valid;
      PagesFour();
      var i := 0;
      while i < PAGES
        invariant 0 <= i <= PAGES && pages.Valid() && pages.AllBut(NO_PAGE) && pages.building == NO_PAGE
        invariant 0 < i && old(pages.script) != [] ==> |pages.script| < |old(pages.script)|
        invariant forall j: nat :: j < i ==> !old(pages.pages)[j].state.Free?
      {
        pages.Interleave();
        var ok := pages.TryReserve(i);
        if ok {
          return i;
        }
        i := i + 1;
      }
      selected := NO_PAGE;
    }

    // Whether some page is Ready, looked at one by one.
    method SomeReady(selected: nat) returns (ready: bool)
      requires pages.Valid() && pages.building == selected
      modifies pages
      ensures pages.Valid() && pages.AllBut(NO_PAGE) && pages.building == selected
      ensures !ready ==> NoneReadyNow()
      ensures old(pages.script) == [] ==> (ready <==> !old(NoneReadyNow()))
    {
      hide Waiting, InQueue, Offers, PageHolds, Owned;
      ready := false;
      var i := 0;
      while i < PAGES
        invariant 0 <= i <= PAGES && pages.Valid() && pages.AllBut(NO_PAGE) && pages.building == selected
        invariant !ready ==> forall j: nat :: j < i ==> !pages.pages[j].state.Ready?
        invariant ready && old(pages.script) == [] ==> exists j: nat :: j < PAGES && old(pages.pages)[j].state.Ready?
      {
        pages.Interleave();
        ready := ready || pages.pages[i].state.Ready?;
        i := i + 1;
      }
    }

    // The bytes of one packet.
    method PutPacket(i: nat, k: nat, lines: byte, payload: seq<byte>, number: byte)
      requires pages.Valid() && i == pages.building < PAGES && k < MAX_PACKETS && |payload| == PACKET_SIZE
      modifies pages.data
      ensures pages.Valid() && pages.Shown() && pages.Slice(i) == Overlay(old(pages.Slice(i)), k * ENTRY_SIZE, [lines] + payload + [number])
    {
      hide Pages.Valid, Overlay;
      PagesFour();
      var offset := k * ENTRY_SIZE;
      FiveStores(pages.Slice(i), offset, lines, payload, number);
      pages.Put(i, offset, lines);
      pages.Put(i, offset + 1, payload[0]);
      pages.Put(i, offset + 2, payload[1]);
      pages.Put(i, offset + 3, payload[2]);
      pages.Put(i, offset + 4, number);
    }

    // The payload of the next packet: source bytes, or zeros that are not the source's.
    method NextPayload(silent: bool) returns (payload: seq<byte>)
      requires fifo.Valid() && (silent || PACKET_SIZE <= fifo.count)
      modifies fifo`read, fifo`count
      ensures fifo.Valid() && |payload| == PACKET_SIZE
      ensures silent ==> payload == [0, 0, 0] && fifo.Contents() == old(fifo.Contents())
      ensures !silent ==> payload == old(fifo.Contents())[..PACKET_SIZE] && fifo.Contents() == old(fifo.Contents())[PACKET_SIZE..]
    {
      payload := [0, 0, 0];
      if !silent {
        payload := fifo.Pop(PACKET_SIZE);
      }
    }

    // One packet: its payload, its entry, the next sequence number.
    method FillPacket(i: nat, k: nat, lines: nat, silent: bool, ghost t: Table, ghost queued: seq<byte>)
      requires pages.Valid() && fifo.Valid() && i == pages.building < PAGES && pages.data != fifo.bytes
      requires EntriesHold(pages.Slice(i), t, k) && k < t.packets && silent == t.silent
      requires lines == LinesAt(t.packets, k) && lines <= 0xFF && sequence == (t.first + k) % 0x100
      requires silent ==> t.payload == Repeat(0, t.packets * PACKET_SIZE) && fifo.Contents() == queued
      requires !silent ==> t.payload <= queued && fifo.Contents() == queued[k * PACKET_SIZE..]
      modifies `sequence, pages.data, fifo`read, fifo`count
      ensures pages.Valid() && pages.Shown() && fifo.Valid()
      ensures EntriesHold(pages.Slice(i), t, k + 1) && sequence == (t.first + k + 1) % 0x100
      ensures fifo.Contents() == if silent then queued else queued[(k + 1) * PACKET_SIZE..]
    {
      hide Pages.Valid, LinesAt, EntryIs, EntriesHold;
      PagesFour();
      EntriesSized(pages.Slice(i), t, k);
      var payload := NextPayload(silent);
      Dropped(queued, k);
      NextNumber(t.first + k);
      PayloadAt(t, queued, k, payload);
      EntryMade(t, k, lines, payload, sequence);
      EntryAdded(pages.Slice(i), t, k, [lines] + payload + [sequence]);
      PutPacket(i, k, lines, payload, sequence);
      sequence := (sequence + 1) % 0x100;
    }

    // The host may move before every packet.
    method NextPacket(i: nat, k: nat, after: nat, lines: nat, silent: bool, ghost t: Table, ghost queued: seq<byte>)
      requires pages.Valid() && fifo.Valid() && i == pages.building < PAGES && pages.data != fifo.bytes
      requires after == k + 1 && EntriesHold(pages.Slice(i), t, k) && k < t.packets && silent == t.silent
      requires lines == LinesAt(t.packets, k) && lines <= 0xFF && sequence == (t.first + k) % 0x100
      requires silent ==> t.payload == Repeat(0, t.packets * PACKET_SIZE) && fifo.Contents() == queued
      requires !silent ==> t.payload <= queued && fifo.Contents() == queued[k * PACKET_SIZE..]
      modifies `sequence, pages, pages.data, fifo`read, fifo`count
      ensures pages.Valid() && fifo.Valid() && pages.AllBut(NO_PAGE) && pages.building == i
      ensures EntriesHold(pages.Slice(i), t, after) && sequence == (t.first + after) % 0x100
      ensures fifo.Contents() == if silent then queued else queued[after * PACKET_SIZE..]
    {
      hide Waiting, InQueue, Offers, PageHolds, Owned, LinesAt, EntryHolds;
      pages.Interleave();
      FillPacket(i, k, lines, silent, t, queued);
    }

    // The packets of a table, one after the other.
    method FillPackets(i: nat, packets: nat, silent: bool, ghost t: Table)
      requires pages.Valid() && fifo.Valid() && i == pages.building < PAGES && pages.data != fifo.bytes
      requires Sized(t) && t.first == sequence && t.packets == packets && t.silent == silent
      requires if silent then t.payload == Repeat(0, packets * PACKET_SIZE) else t.payload <= fifo.Contents()
      modifies `sequence, pages, pages.data, fifo`read, fifo`count
      ensures pages.Valid() && fifo.Valid() && pages.AllBut(NO_PAGE) && pages.building == i
      ensures EntriesHold(pages.Slice(i), t, packets) && sequence == (t.first + packets) % 0x100
      ensures fifo.Contents() == if silent then old(fifo.Contents()) else old(fifo.Contents())[packets * PACKET_SIZE..]
    {
      hide Pages.Valid, LinesAt, EntryHolds, Spread, BaseLines, ExtraLines, EntriesHold, TableHolds;
      PagesFour();
      NoEntries(pages.Slice(i), t);
      ghost var queued := fifo.Contents();
      var base, extra := BaseLines(packets), ExtraLines(packets);
      SpreadStarts(packets);
      var accumulator: nat, k: nat := 0, 0;
      ghost var total: nat := 0;
      while k < packets
        invariant 0 <= k <= packets && pages.Valid() && fifo.Valid() && pages.AllBut(NO_PAGE) && pages.building == i
        invariant Spread(packets, k, total, accumulator)
        invariant sequence == (t.first + k) % 0x100
        invariant fifo.Contents() == if silent then queued else queued[k * PACKET_SIZE..]
        invariant EntriesHold(pages.Slice(i), t, k)
      {
        var lines;
        var after := k + 1;
        lines, accumulator, total := StepLines(packets, k, after, base, extra, accumulator, total);
        NextPacket(i, k, after, lines, silent, t, queued);
        k := after;
      }
    }

    // Fill the reserved page with packets from the FIFO, or with silence, while the host carries on.
    method FillTable(i: nat, packets: nat, silent: bool, ghost t: Table)
      requires pages.Valid() && fifo.Valid() && i == pages.building < PAGES && pages.data != fifo.bytes
      requires Sized(t) && t.first == sequence && t.packets == packets && t.silent == silent
      requires if silent then t.payload == Repeat(0, packets * PACKET_SIZE) else t.payload <= fifo.Contents()
      modifies `sequence, pages, pages.data, fifo`read, fifo`count
      ensures pages.Valid() && fifo.Valid() && pages.AllBut(NO_PAGE) && pages.building == i
      ensures TableHolds(pages.Slice(i), t) && sequence == (t.first + packets) % 0x100
      ensures fifo.Contents() == if silent then old(fifo.Contents()) else old(fifo.Contents())[packets * PACKET_SIZE..]
    {
      hide Pages.Valid, EntriesHold, TableHolds;
      PagesFour();
      FillPackets(i, packets, silent, t);
      TableEnded(pages.Slice(i), t);
      pages.Put(i, packets * ENTRY_SIZE, 0);
    }

    // A full table of the wanted size, or at the end of the source the whole blocks that are left.
    static function Least(wanted: nat, ended: bool, count: nat): nat {
      if ended && count / BLOCK_SIZE * 3 < wanted then count / BLOCK_SIZE * 3 else wanted
    }

    // At the end of the source a table is smaller only when no further whole block is left for it.
    static lemma LeastFits(wanted: nat, ended: bool, count: nat)
      requires wanted in {48, 51, 57, 60, 63}
      ensures var packets := Least(wanted, ended, count);
              && packets <= wanted && packets % 3 == 0 && (!ended ==> packets == wanted)
              && (ended && BLOCK_SIZE <= count ==> 3 <= packets && packets * PACKET_SIZE <= count)
              && (packets < wanted ==> count < packets * PACKET_SIZE + BLOCK_SIZE)
    {}

    // The size of the table that is to be built next,
    function Due(): nat
      reads `pal, `ratePhase, `sourceEof, pages`level, fifo`count
    {
      Least(Wanted(), sourceEof, fifo.count)
    }

    // and whether it is one of silence.
    function DueSilent(): bool
      reads `pal, `ratePhase, `sourceEof, pages`level, fifo`count
    {
      !sourceEof && fifo.count < Wanted() * PACKET_SIZE
    }

    // How much the reserved page gets: whole blocks at the end of the source, a full table while the FIFO
    // has one, silence only when playback would run dry with nothing Ready, else nothing.
    method Choose(i: nat, wanted: nat) returns (build: bool, packets: nat, silent: bool)
      requires Going(i) && i < PAGES && !pages.status.Eof? && wanted in {48, 51, 57, 60, 63}
      modifies `lost, `error, `starved, pages, fifo
      ensures Going(i) && pages.AllBut(NO_PAGE) && got == old(got) && generation == old(generation) && sequence == old(sequence)
      ensures sourceEof == old(sourceEof) && started == old(started)
      ensures build ==> 3 <= packets <= wanted && packets % 3 == 0 && (silent || packets * PACKET_SIZE <= fifo.count)
      ensures build && silent ==> started && !sourceEof && fifo.count < packets * PACKET_SIZE
      ensures build && silent ==> NoneReadyNow()
      ensures build ==> packets == Least(wanted, sourceEof, old(fifo.count)) && fifo.count == old(fifo.count)
      ensures build && !silent ==> (sourceEof || wanted * PACKET_SIZE <= fifo.count) && error == old(error)
      ensures starved == (old(starved) || (build && silent)) && (build && silent ==> error == FifoUnderrun)
      ensures !build && sourceEof ==> fifo.count == 0 && error == if 0 < old(fifo.count) then PartialBlock else old(error)
      ensures !build && !sourceEof ==> error == old(error)
      ensures old(Plenty()) ==> build
      ensures !build ==> fifo.count <= old(fifo.count)
      ensures old(pages.script) == [] ==>
                (build <==> if sourceEof then BLOCK_SIZE <= old(fifo.count)
                            else wanted * PACKET_SIZE <= old(fifo.count) || (started && old(NoneReadyNow())))
    {
      hide Pages.Valid, Pages.AllBut, Pages.Others, Pages.Shown, Contiguous, Payload, NextFirst, Least;
      PagesFour();
      LeastFits(wanted, sourceEof, fifo.count);
      build, packets, silent := true, wanted, false;
      if sourceEof {
        build, packets := ChooseAtEnd(i, wanted);
        pages.Unmoved();
      } else if fifo.count < packets * PACKET_SIZE {
        build := ChooseSilence(i);
        silent := build;
      } else {
        pages.Unmoved();
      }
    }

    // At the end of the source: the whole blocks that are left, up to a full table.
    method ChooseAtEnd(i: nat, wanted: nat) returns (build: bool, packets: nat)
      requires Going(i) && i < PAGES && !pages.status.Eof? && sourceEof && wanted in {48, 51, 57, 60, 63}
      modifies `lost, `error, fifo
      ensures Going(i)
      ensures build <==> BLOCK_SIZE <= old(fifo.count)
      ensures build ==> packets == Least(wanted, true, fifo.count) && unchanged(fifo) && error == old(error)
      ensures !build ==> fifo.count == 0 && error == if 0 < old(fifo.count) then PartialBlock else old(error)
    {
      hide Pages.Valid, Contiguous, Payload, NextFirst;
      build, packets := true, wanted;
      var blocks := fifo.count / BLOCK_SIZE;
      if blocks == 0 {
        DropPartial();
        build := false;
      } else if blocks * 3 < packets {
        packets := blocks * 3;
      }
    }

    // The queue does not fill a table: silence is inserted only if playback has begun and nothing is Ready.
    method ChooseSilence(i: nat) returns (build: bool)
      requires Going(i) && i < PAGES && !pages.status.Eof? && !sourceEof
      modifies `error, `starved, pages
      ensures Going(i) && pages.AllBut(NO_PAGE)
      ensures if build then started && starved && error == FifoUnderrun else starved == old(starved) && error == old(error)
      ensures build ==> NoneReadyNow()
      ensures old(pages.script) == [] ==> (build <==> started && old(NoneReadyNow()))
    {
      hide Waiting, InQueue, Offers, PageHolds, Owned, Contiguous, Payload, NextFirst;
      var ready := SomeReady(i);
      build := started && !ready;
      if build {
        starved, error := true, FifoUnderrun;
      }
    }

    // What goes into the reserved page, at the rate of the moment.
    method Plan(i: nat) returns (build: bool, packets: nat, silent: bool)
      requires Going(i) && i < PAGES && !pages.status.Eof?
      modifies `lost, `error, `starved, `ratePhase, pages, fifo
      ensures Going(i) && pages.AllBut(NO_PAGE) && got == old(got) && sourceEof == old(sourceEof)
      ensures build ==> 3 <= packets <= MAX_PACKETS && packets % 3 == 0 && (silent || packets * PACKET_SIZE <= fifo.count)
      ensures build && silent ==> started && !sourceEof && NoneReadyNow()
      ensures build ==> packets == old(Due()) && silent == old(DueSilent()) && fifo.count == old(fifo.count)
      ensures starved == (old(starved) || (build && silent))
      ensures ratePhase == old(NextPhase())
      ensures old(Plenty()) ==> build
      ensures !build ==> fifo.count <= old(fifo.count)
      ensures old(pages.script) == [] ==> (build <==> old(Fillable()))
    {
      hide Pages.Valid, Contiguous, Payload, NextFirst;
      PagesFour();
      var wanted := PacketsPerPage();
      build, packets, silent := Choose(i, wanted);
    }

    // What is left at the end is less than a block and is given up.
    method DropPartial()
      requires Going(pages.building) && sourceEof && fifo.count < BLOCK_SIZE && !pages.status.Eof?
      modifies `lost, `error, fifo
      ensures Going(pages.building) && fifo.count == 0 && error == if 0 < old(fifo.count) then PartialBlock else old(error)
    {
      hide Pages.Valid, Contiguous, Payload, NextFirst;
      if 0 < fifo.count {
        assert lost == [];
        lost := fifo.Contents();
        fifo.Drop();
        error := PartialBlock;
        assert got == Payload(pages.log.built) + fifo.Contents() + lost;
      }
    }

    // Fill and publish the reserved page.
    method PackTable(i: nat, packets: nat, silent: bool)
      requires Going(i) && i < PAGES && !pages.status.Eof? && |pages.log.built| < UINT32_MAX
      requires 3 <= packets <= MAX_PACKETS && packets % 3 == 0 && (silent || packets * PACKET_SIZE <= fifo.count)
      modifies `sequence, `generation, `starved, pages, pages.data, fifo`read, fifo`count
      ensures Valid() && pages.Others(i) && pages.pages[i].state.Ready? && pages.pages[i].generation == |old(pages.log.built)|
      ensures exists t: Table :: pages.log.built == old(pages.log.built) + [t] && t.silent == silent && t.packets == packets
      ensures starved == (old(starved) && silent)
    {
      hide Pages.Valid, Contiguous, Payload, NextFirst, TableHolds, Sized;
      PagesFour();
      ghost var queued, built, rest := fifo.Contents(), pages.log.built, lost;
      ghost var t := Table(sequence, packets, if silent then Repeat(0, packets * PACKET_SIZE) else queued[..packets * PACKET_SIZE], silent);
      TableSized(built, t);
      ContiguousNext(built, t);
      TableTaken(built, t, queued, rest);
      var first := sequence;
      FillTable(i, packets, silent, t);
      PublishTable(i, first, packets, silent, t);
      assert pages.log.built == built + [t];
    }

    // The finished table becomes the next one of the stream.
    method PublishTable(i: nat, first: nat, packets: nat, silent: bool, ghost t: Table)
      requires pages.Valid() && fifo.Valid() && i == pages.building < PAGES && pages.data != fifo.bytes && !pages.status.Eof?
      requires generation == |pages.log.built| < UINT32_MAX && TableHolds(pages.Slice(i), t)
      requires first == t.first && packets == t.packets
      requires Contiguous(pages.log.built + [t]) && sequence == NextFirst(pages.log.built + [t])
      requires got == Payload(pages.log.built + [t]) + fifo.Contents() + lost
      requires lost != [] ==> sourceEof && fifo.count == 0 && |lost| < BLOCK_SIZE
      modifies `generation, `starved, pages`pages, pages`building, pages`log
      ensures Valid() && pages.log.built == old(pages.log.built) + [t] && pages.log.claimed == old(pages.log.claimed)
      ensures forall j: nat :: j < PAGES && j != i ==> pages.pages[j] == old(pages.pages)[j]
      ensures |pages.pages| == PAGES && pages.pages[i] == Page(Ready, first, packets, old(generation))
      ensures starved == (old(starved) && silent)
    {
      hide Pages.Valid, Contiguous, Payload, NextFirst, TableHolds, Sized;
      pages.Publish(i, first, packets, generation, t);
      generation, starved := generation + 1, starved && silent;
    }

    // The same, then the host may move, then the offer is refreshed.
    method BuildTable(i: nat, packets: nat, silent: bool)
      requires Going(i) && i < PAGES && !pages.status.Eof? && |pages.log.built| < UINT32_MAX
      requires 3 <= packets <= MAX_PACKETS && packets % 3 == 0 && (silent || packets * PACKET_SIZE <= fifo.count)
      modifies `sequence, `generation, `starved, pages, pages.data, fifo`read, fifo`count
      ensures Valid() && pages.Others(i) && (old(pages.script) == [] ==> pages.pages[i].state.Ready?)
      ensures pages.pages[i].generation == |old(pages.log.built)|
      ensures exists t: Table :: pages.log.built == old(pages.log.built) + [t] && t.silent == silent && t.packets == packets
      ensures starved == (old(starved) && silent)
    {
      hide Pages.Valid, Contiguous, Payload, NextFirst;
      PagesFour();
      PackTable(i, packets, silent);
      pages.Interleave();
      pages.RefreshOffer();
    }

    // Nothing to put in the reserved page.
    method GiveUp(i: nat)
      requires Going(i) && i < PAGES
      modifies pages`pages, pages`building
      ensures Valid() && pages.pages == old(pages.pages)[i := old(pages.pages)[i].(state := Free)]
    {
      hide Ordered, Offers, PageHolds, Owned, Contiguous, Payload, NextFirst;
      pages.Abandon(i);
    }

    // A table in the reserved page, or the page given up.
    method BuildIn(selected: nat) returns (built: bool)
      requires Going(selected) && selected < PAGES && !pages.status.Eof? && |pages.log.built| < UINT32_MAX
      modifies `lost, `error, `starved, `ratePhase, `sequence, `generation, pages, pages.data, fifo
      ensures Valid() && pages.Others(selected) && got == old(got) && sourceEof == old(sourceEof)
      ensures !built ==> pages.log.built == old(pages.log.built)
      ensures built ==> exists t: Table :: pages.log.built == old(pages.log.built) + [t] && (t.silent ==> Dry(|old(pages.log.built)|)) &&
                          t.packets == old(Due()) && t.silent == old(DueSilent())
      ensures ratePhase == old(NextPhase()) && starved == LastSilent(pages.log.built, |old(pages.log.built)|, old(starved))
      ensures built && old(pages.script) == [] ==> pages.pages[selected].state.Ready?
      ensures old(Plenty()) ==> built
      ensures !built ==> fifo.count <= old(fifo.count) && pages.pages[selected] == old(pages.pages)[selected].(state := Free)
      ensures old(pages.script) == [] ==> (built <==> old(Fillable()))
    {
      hide Pages.Valid, Shape, Conserved;
      PagesFour();
      var build, packets, silent := Plan(selected);
      built := build;
      if build {
        BuildTable(selected, packets, silent);
      } else {
        GiveUp(selected);
      }
    }

    // Playback has run dry: nothing is Ready but, at most, the silence just built.
    ghost predicate Dry(number: nat)
      requires |pages.pages| == PAGES
      reads this, pages
    {
      && started && !sourceEof
      && forall j: nat :: j < PAGES && pages.pages[j].state.Ready? ==> pages.pages[j].generation == number
    }

    // Before the source has ended a table has one of the sizes of its television standard.
    predicate AtRate(t: Table)
      reads `pal, `sourceEof
    {
      sourceEof || (if pal then t.packets in {57, 60, 63} else t.packets in {48, 51})
    }

    predicate AllAtRate(built: seq<Table>, from: nat)
      reads `pal, `sourceEof
    {
      forall k: nat :: from <= k < |built| ==> AtRate(built[k])
    }

    // One table, if there is a free page and something to put in it. Every success uses up a moment of the
    // host's, or a free page.
    method BuildPage() returns (built: bool)
      requires Valid() && !pages.status.Eof? && |pages.log.built| < UINT32_MAX
      modifies `lost, `error, `starved, `ratePhase, `sequence, `generation, pages, pages.data, fifo
      ensures Valid() && got == old(got) && pages.status == old(pages.status) && sourceEof == old(sourceEof) && pages.Shown()
      ensures |pages.script| <= |old(pages.script)| && |pages.pages| == PAGES == |old(pages.pages)|
      ensures !built ==> pages.log.built == old(pages.log.built)
      ensures built ==> exists t: Table :: pages.log.built == old(pages.log.built) + [t] && (t.silent ==> Dry(|old(pages.log.built)|)) &&
                          AtRate(t) && (old(pages.script) == [] ==> t.packets == old(Due()) && t.silent == old(DueSilent()))
      ensures old(pages.script) == [] ==> ratePhase == if 0 < FreeCount(old(pages.pages)) then old(NextPhase()) else old(ratePhase)
      ensures starved == LastSilent(pages.log.built, |old(pages.log.built)|, old(starved))
      ensures built && old(pages.script) == [] ==> FreeCount(pages.pages) < FreeCount(old(pages.pages))
      ensures built && old(pages.script) != [] ==> |pages.script| < |old(pages.script)|
      ensures 0 < FreeCount(old(pages.pages)) && old(Plenty()) ==> built
      ensures old(pages.script) == [] ==> (built <==> 0 < FreeCount(old(pages.pages)) && old(Fillable()))
      ensures old(pages.script) == [] && !built ==> pages.pages == old(pages.pages) && (FreeCount(pages.pages) == 0 || !Plenty())
    {
      hide Pages.Valid, Contiguous, Payload, NextFirst, Dry;
      PagesFour();
      var selected := Reserve();
      built := false;
      if selected != NO_PAGE {
        assert old(pages.script) == [] ==> (Fillable() <==> old(Fillable()));
        built := BuildIn(selected);
      }
      assert old(pages.script) == [] && !built ==> pages.pages == old(pages.pages);
    }

    // Build for as long as there is anything to build.
    method BuildAll()
      requires Valid() && !pages.status.Eof? && |pages.log.built| + (PAGES + 1) * |pages.script| + PAGES < UINT32_MAX
      modifies `lost, `error, `starved, `ratePhase, `sequence, `generation, pages, pages.data, fifo
      ensures Valid() && got == old(got) && pages.status == old(pages.status) && sourceEof == old(sourceEof) && pages.Shown()
      ensures old(pages.log.built) <= pages.log.built && AllAtRate(pages.log.built, |old(pages.log.built)|)
      ensures starved == LastSilent(pages.log.built, |old(pages.log.built)|, old(starved))
      ensures 0 < FreeCount(old(pages.pages)) && old(Plenty()) ==> |old(pages.log.built)| < |pages.log.built|
      ensures old(pages.script) == [] ==> pages.script == [] && (FreeCount(pages.pages) == 0 || !Plenty())
    {
      hide Pages.Valid, Shape, Conserved, Plenty;
      PagesFour();
      var more := true;
      ghost var first := true;
      while more
        invariant Valid() && got == old(got) && pages.status == old(pages.status) && sourceEof == old(sourceEof) && pages.Shown()
        invariant |pages.pages| == PAGES && old(pages.log.built) <= pages.log.built
        invariant AllAtRate(pages.log.built, |old(pages.log.built)|)
        invariant starved == LastSilent(pages.log.built, |old(pages.log.built)|, old(starved))
        invariant first ==> more && pages.pages == old(pages.pages) && pages.log == old(pages.log) && Plenty() == old(Plenty())
        invariant !first && 0 < FreeCount(old(pages.pages)) && old(Plenty()) ==> |old(pages.log.built)| < |pages.log.built|
        invariant old(pages.script) == [] ==> pages.script == [] && (!more ==> FreeCount(pages.pages) == 0 || !Plenty())
        invariant more ==> |pages.log.built| + (PAGES + 1) * |pages.script| + FreeCount(pages.pages) < UINT32_MAX
        decreases more, |pages.script|, FreeCount(pages.pages)
      {
        more := BuildPage();
        first := false;
      }
    }

    lemma PagesFour()
      requires pages.Valid()
      ensures |pages.pages| == PAGES && pages.data.Length == PAGES * PAGE_SIZE
    {}

    // Whether any page is still in use, looked at one by one: a page seen free stays free.
    method PagesPending() returns (pending: bool)
      requires pages.Valid() && pages.building == NO_PAGE
      modifies pages
      ensures pages.Valid() && pages.AllBut(NO_PAGE) && pages.building == NO_PAGE
      ensures !pending ==> pages.log.claimed == |pages.log.built|
      ensures old(pages.script) == [] ==> unchanged(pages) && (pending <==> FreeCount(old(pages.pages)) < PAGES)
    {
      hide Waiting, InQueue, Offers, PageHolds, Owned;
      var i := 0;
      while i < PAGES
        invariant 0 <= i <= PAGES && pages.Valid() && pages.AllBut(NO_PAGE) && pages.building == NO_PAGE
        invariant forall j: nat :: j < i ==> pages.pages[j].state.Free?
        invariant old(pages.script) == [] ==> unchanged(pages)
      {
        pages.Interleave();
        if !pages.pages[i].state.Free? {
          return true;
        }
        i := i + 1;
      }
      NoneReady(pages.pages, pages.log);
      pending := false;
    }

    // What the host is told; the end only once the source, the FIFO, the pages and the sound processor are done.
    method UpdateStatus()
      requires Valid() && !pages.status.Eof?
      modifies pages
      ensures Valid() && pages.log.built == old(pages.log.built) && pages.Shown() && !pages.status.Error?
      ensures pages.status.Eof? ==> !paused && sourceEof && pages.level == 0
      ensures paused ==> pages.status.Paused?
      ensures !paused && sourceEof ==> pages.status.Eof? || pages.status.Draining?
      ensures !paused && !sourceEof ==> pages.status == if !started then Priming else if starved then Underrun else Playing
      ensures old(pages.script) == [] ==> unchanged(pages`pages) && unchanged(pages`log) && unchanged(pages`offered) && unchanged(pages`script)
      ensures |pages.pages| == PAGES
      ensures old(pages.script) == [] && !paused && sourceEof ==>
                (pages.status.Eof? <==> fifo.count == 0 && FreeCount(pages.pages) == PAGES && pages.level == 0)
    {
      hide Waiting, InQueue, Offers, PageHolds, Owned, Contiguous, Payload, NextFirst;
      if paused {
        pages.status := Paused;
        return;
      }
      if sourceEof {
        var pending := true;
        if fifo.count == 0 {
          pending := PagesPending();
        }
        pages.status := if !pending && pages.level == 0 then Eof else Draining;
        return;
      }
      pages.status := if !started then Priming else if starved then Underrun else Playing;
    }

    // A page is free, and the queue alone fills a table.
    ghost predicate Stocked()
      reads this, pages, fifo
    {
      |pages.pages| == PAGES && 0 < FreeCount(pages.pages) && Plenty()
    }

    // One service of core 1 between commands.
    method Service(read: Read)
      requires Valid() && |pages.log.built| + (PAGES + 1) * |pages.script| + PAGES < UINT32_MAX
      modifies this, pages, pages.data, fifo, fifo.bytes
      ensures Valid()
      ensures !old(Serving()) ==> got == old(got) && pages.log == old(pages.log) && pages.status == old(pages.status)
      ensures old(Serving()) ==> (pages.status.Error? <==> old(Rejects(read)))
      ensures old(Serving()) && !pages.status.Error? ==>
                got == if old(Reading()) && read.Data? then old(got) + read.bytes else old(got)
      ensures !pages.status.Error? ==> old(pages.log.built) <= pages.log.built && pages.Shown()
      ensures !pages.status.Error? ==> AllAtRate(pages.log.built, |old(pages.log.built)|)
      ensures pages.active == old(pages.active) < PAGES && pages.log.claimed == old(pages.log.claimed) ==>
                pages.Slice(pages.active) == old(pages.Slice(pages.active))
      ensures pages.status.Eof? && !old(pages.status).Eof? ==> sourceEof && Exact(Sent(), got, true)
      ensures pages.ShowsClaimed()
      ensures old(Serving()) && !pages.status.Error? ==> (started <==> old(started) || 4 <= old(pages.level))
      ensures old(Serving()) && !pages.status.Error? ==>
                starved == LastSilent(pages.log.built, |old(pages.log.built)|, old(starved)) &&
                (!sourceEof ==> pages.status == if !started then Priming else if starved then Underrun else Playing)
      ensures old(Serving()) && !pages.status.Error? && old(Stocked()) ==> |old(pages.log.built)| < |pages.log.built|
      ensures old(Serving()) && !pages.status.Error? && old(pages.script) == [] ==>
                Settled() && (sourceEof ==> (pages.status.Eof? <==> Finished()))
    {
      hide Pages.Valid, Pages.ShowsClaimed, Contiguous, NextFirst, Payload, Exact, Settled, Finished;
      PagesFour();
      if Serving() {
        var ok := Refill(read);
        if ok {
          Work();
          Delivered();
        }
      }
      pages.OnShow();
    }

    // A service with a quiet host builds what it can, and has a page on offer while one is ready.
    ghost predicate Settled()
      reads this, pages, fifo
    {
      |pages.pages| == PAGES && (FreeCount(pages.pages) == 0 || !Plenty()) && (pages.offered == NO_PAGE ==> pages.log.queue == [])
    }

    // The queue is empty, every page is free, and the sound processor has played what it had.
    ghost predicate Finished()
      reads this, pages, fifo
    {
      fifo.count == 0 && |pages.pages| == PAGES && FreeCount(pages.pages) == PAGES && pages.level == 0
    }

    // The service after its read: build, offer, report.
    method Work()
      requires Valid() && !pages.status.Eof? && |pages.log.built| + (PAGES + 1) * |pages.script| + PAGES < UINT32_MAX
      modifies `lost, `error, `starved, `started, `ratePhase, `sequence, `generation, pages, pages.data, fifo
      ensures Valid() && got == old(got) && !pages.status.Error? && old(pages.log.built) <= pages.log.built && pages.Shown()
      ensures pages.status.Eof? ==> sourceEof
      ensures starved == LastSilent(pages.log.built, |old(pages.log.built)|, old(starved))
      ensures !paused && !sourceEof ==> pages.status == if !started then Priming else if starved then Underrun else Playing
      ensures AllAtRate(pages.log.built, |old(pages.log.built)|)
      ensures started <==> old(started) || 4 <= old(pages.level)
      ensures 0 < FreeCount(old(pages.pages)) && old(Plenty()) ==> |old(pages.log.built)| < |pages.log.built|
      ensures old(pages.script) == [] ==> Settled() && (!paused && sourceEof ==> (pages.status.Eof? <==> Finished()))
    {
      hide Pages.Valid, Contiguous, NextFirst, Payload;
      PagesFour();
      if pages.level >= PRIMING_SEGMENTS {
        started := true;
      }
      BuildAll();
      pages.RefreshOffer();
      UpdateStatus();
    }
  }

  lemma NoneReady(pages: seq<Page>, log: Log)
    requires Ordered(pages, log) && forall j: nat :: j < PAGES ==> pages[j].state.Free?
    ensures log.claimed == |log.built|
  {
    assert log.queue != [] ==> Waiting(pages, log, 0);
  }

  lemma TableSized(built: seq<Table>, t: Table)
    requires 3 <= t.packets <= MAX_PACKETS && t.packets % 3 == 0 && |t.payload| == t.packets * PACKET_SIZE && t.first == NextFirst(built)
    ensures Sized(t)
  {}

  lemma TableTaken(built: seq<Table>, t: Table, queued: seq<byte>, rest: seq<byte>)
    requires t.silent || (|t.payload| <= |queued| && t.payload == queued[..|t.payload|])
    ensures Payload(built + [t]) + (if t.silent then queued else queued[|t.payload|..]) + rest == Payload(built) + queued + rest
  {
    assert (built + [t])[..|built|] == built;
    if !t.silent {
      assert queued == t.payload + queued[|t.payload|..];
    }
  }

  function Free(page: Page): nat {
    if page.state.Free? then 1 else 0
  }

  function FreeCount(pages: seq<Page>): nat
    requires |pages| == PAGES
  {
    Free(pages[0]) + Free(pages[1]) + Free(pages[2]) + Free(pages[3])
  }

  lemma FiveStores(page: seq<byte>, at: nat, lines: byte, payload: seq<byte>, number: byte)
    requires at + ENTRY_SIZE <= |page| && |payload| == PACKET_SIZE
    ensures page[at := lines][at + 1 := payload[0]][at + 2 := payload[1]][at + 3 := payload[2]][at + 4 := number] ==
            Overlay(page, at, [lines] + payload + [number])
  {}

  lemma NoEntries(page: seq<byte>, t: Table)
    requires |page| == PAGE_SIZE && Sized(t)
    ensures EntriesHold(page, t, 0)
  {}

  lemma EntriesSized(page: seq<byte>, t: Table, k: nat)
    requires EntriesHold(page, t, k)
    ensures |page| == PAGE_SIZE && Sized(t)
  {}

  lemma Dropped(queued: seq<byte>, k: nat)
    ensures (k + 1) * PACKET_SIZE <= |queued| ==> queued[k * PACKET_SIZE..][PACKET_SIZE..] == queued[(k + 1) * PACKET_SIZE..]
  {}

  lemma NextNumber(n: nat)
    ensures (n % 0x100 + 1) % 0x100 == (n + 1) % 0x100
  {}

  lemma PayloadAt(t: Table, queued: seq<byte>, k: nat, payload: seq<byte>)
    requires Sized(t) && k < t.packets
    requires if t.silent then t.payload == Repeat(0, t.packets * PACKET_SIZE) && payload == [0, 0, 0]
             else t.payload <= queued && payload == queued[k * PACKET_SIZE..][..PACKET_SIZE]
    ensures payload == t.payload[k * PACKET_SIZE..k * PACKET_SIZE + PACKET_SIZE]
  {}

  lemma EntryMade(t: Table, k: nat, lines: byte, payload: seq<byte>, number: byte)
    requires Sized(t) && k < t.packets && payload == t.payload[k * PACKET_SIZE..k * PACKET_SIZE + PACKET_SIZE]
    requires lines as int == LinesAt(t.packets, k) && number as int == (t.first + k) % 0x100
    ensures EntryIs([lines] + payload + [number], t, k)
  {
    assert ([lines] + payload + [number])[1..4] == payload;
  }

  lemma DeliveredFrom(built: seq<Table>, claimed: nat, got: seq<byte>, queued: seq<byte>, lost: seq<byte>)
    requires Contiguous(built) && claimed <= |built| && got == Payload(built) + queued + lost
    ensures Contiguous(built[..claimed]) && Payload(built[..claimed]) <= got && |Payload(built[..claimed])| % BLOCK_SIZE == 0
    ensures claimed == |built| && queued == [] && |lost| < BLOCK_SIZE ==>
              Payload(built[..claimed]) == got[..|got| - |got| % BLOCK_SIZE]
  {
    hide Contiguous, Payload;
    ContiguousPrefix(built, claimed);
    PayloadAligned(built[..claimed]);
    PayloadPrefix(built, claimed);
    if claimed == |built| && queued == [] && |lost| < BLOCK_SIZE {
      assert built[..claimed] == built;
      assert got == Payload(built) + lost;
      Remainder(|Payload(built)|, |lost|);
    }
  }

  lemma Remainder(n: nat, r: nat)
    requires n % BLOCK_SIZE == 0 && r < BLOCK_SIZE
    ensures n + r - (n + r) % BLOCK_SIZE == n
  {}
}
