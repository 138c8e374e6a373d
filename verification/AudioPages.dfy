/** The four HDMA pages that the two cores share (src/audio/fx3_audio_stream.cpp). Every method is one
  * atomic step: a compare-and-swap, a store, or a whole critical section. */
module AudioPages {
  import opened Bytes
  import opened AudioTable

  const PAGES := 4
  const NO_PAGE := 0xFF
  const SEGMENT := 252
  const UINT32_MAX := 0xFFFF_FFFF

  datatype PageState = Free | Building | Ready | Active
  datatype Page = Page(state: PageState, first: nat, packets: nat, generation: nat)
  datatype Status = Idle | Opening | Priming | Playing | Draining | Eof | Error | Underrun | Paused

  // What the host may do at any moment.
  datatype HostAction = Claim(page: nat) | Report(level: nat)

  // The stream so far: every table built, how many were claimed, the pages that hold the others in order,
  // and what each page holds.
  datatype Log = Log(built: seq<Table>, claimed: nat, queue: seq<nat>, tables: seq<Table>)

  predicate Visible(page: Page) {
    page.state.Ready? || page.state.Active?
  }

  // A page the host may read is the complete table recorded for it.
  ghost predicate PageHolds(data: array<byte>, i: nat, page: Page, t: Table)
    reads data
  {
    Visible(page) ==>
      && (i + 1) * PAGE_SIZE <= data.Length && TableHolds(data[i * PAGE_SIZE..(i + 1) * PAGE_SIZE], t)
      && page.first == t.first && page.packets == t.packets
  }

  predicate Waiting(pages: seq<Page>, log: Log, k: nat)
    requires |pages| == PAGES == |log.tables| && k < |log.queue| && log.claimed + |log.queue| == |log.built|
  {
    var i := log.queue[k];
    && i < PAGES && pages[i].state.Ready? && pages[i].generation == log.claimed + k
    && log.tables[i] == log.built[log.claimed + k]
  }

  predicate InQueue(pages: seq<Page>, log: Log, i: nat)
    requires |pages| == PAGES && i < PAGES
  {
    log.claimed <= pages[i].generation < log.claimed + |log.queue| && log.queue[pages[i].generation - log.claimed] == i
  }

  // The Ready pages are exactly the built tables not yet claimed, in the order they were built.
  ghost predicate Ordered(pages: seq<Page>, log: Log) {
    && |pages| == PAGES == |log.tables| && log.claimed + |log.queue| == |log.built| <= UINT32_MAX
    && (forall k: nat :: k < |log.queue| ==> Waiting(pages, log, k))
    && (forall i: nat :: i < PAGES && pages[i].state.Ready? ==> InQueue(pages, log, i))
  }

  ghost predicate Owned(pages: seq<Page>, active: nat, building: nat)
    requires |pages| == PAGES
  {
    && (active == NO_PAGE || active < PAGES) && (building == NO_PAGE || building < PAGES)
    && forall i: nat :: i < PAGES ==> (pages[i].state.Active? <==> active == i) && (pages[i].state.Building? <==> building == i)
  }

  predicate Offers(offered: nat, log: Log) {
    offered == NO_PAGE || (|log.queue| > 0 && offered == log.queue[0])
  }

  // What the host can have done to a page meanwhile: claimed it, or given it back.
  predicate HostMoved(a: Page, b: Page) {
    && b.(state := Free) == a.(state := Free)
    && (b.state == a.state || (a.state.Ready? && !b.state.Building?) || (a.state.Active? && b.state.Free?))
  }

  lemma WholeTable(page: seq<byte>, t: Table)
    requires TableHolds(page, t)
    ensures |t.payload| == t.packets * PACKET_SIZE
  {}

  class Pages {
    const data: array<byte>
    var pages: seq<Page>
    var offered: nat
    var active: nat
    var status: Status
    var level: nat
    var credit: nat
    var script: seq<seq<HostAction>> // what the host does at each of the coming moments
    ghost var log: Log
    ghost var building: nat
    ghost var grant: nat // bytes granted by the last fill report
    ghost var spent: nat // bytes claimed since then

    // The bytes of one page.
    ghost function Slice(i: nat): seq<byte>
      requires data.Length == PAGES * PAGE_SIZE && i < PAGES
      reads data
    {
      data[i * PAGE_SIZE..(i + 1) * PAGE_SIZE]
    }

    ghost predicate Valid()
      reads `pages, `offered, `active, `credit, `log, `building, `grant, `spent, data
    {
      && data.Length == PAGES * PAGE_SIZE
      && Ordered(pages, log) && Owned(pages, active, building) && Offers(offered, log)
      && (forall i: nat :: i < PAGES ==> PageHolds(data, i, pages[i], log.tables[i]))
      && (0 < log.claimed && active < PAGES ==> log.tables[active] == log.built[log.claimed - 1])
      && credit + spent == grant
    }

    // What the host reads from the page on show is, byte for byte, the table it claimed last.
    ghost predicate ShowsClaimed()
      reads `active, `log, data
    {
      active < PAGES && 0 < log.claimed ==>
        && data.Length == PAGES * PAGE_SIZE && log.claimed <= |log.built|
        && TableHolds(Slice(active), log.built[log.claimed - 1])
    }

    lemma OnShow()
      requires Valid()
      ensures ShowsClaimed()
    {
      hide TableHolds, Waiting, InQueue;
      assert active < PAGES ==> PageHolds(data, active, pages[active], log.tables[active]);
    }

    // As long as the host claims nothing, what is on show stays on show until it gives it back, with every
    // byte as it was.
    twostate predicate Shown()
      requires data.Length == PAGES * PAGE_SIZE
      reads `active, `log, data
    {
      && old(log.claimed) <= log.claimed
      && (log.claimed == old(log.claimed) ==> active == NO_PAGE || active == old(active))
      && (log.claimed == old(log.claimed) && active < PAGES ==> Slice(active) == old(Slice(active)))
    }

    // What core 1 may rely on while the host runs.
    twostate predicate HostOnly()
      requires |old(pages)| == PAGES && data.Length == PAGES * PAGE_SIZE
      reads this, data
    {
      && |pages| == PAGES && (forall i: nat :: i < PAGES ==> HostMoved(old(pages)[i], pages[i]))
      && log.built == old(log.built) && log.tables == old(log.tables) && Shown()
      && building == old(building) && status == old(status)
    }

    // The pages other than i moved as the host moves them; with nothing left in the script, not at all.
    twostate predicate Others(i: nat)
      requires |old(pages)| == PAGES && data.Length == PAGES * PAGE_SIZE
      reads this, data
    {
      && |pages| == PAGES && (forall j: nat :: j < PAGES && j != i ==> HostMoved(old(pages)[j], pages[j]))
      && Shown() && status == old(status) && |script| <= |old(script)|
      && (old(script) == [] ==> forall j: nat :: j < PAGES && j != i ==> pages[j] == old(pages)[j])
      && (old(script) == [] ==> level == old(level) && active == old(active) && log.claimed == old(log.claimed))
    }

    twostate predicate AllBut(i: nat)
      requires |old(pages)| == PAGES && data.Length == PAGES * PAGE_SIZE
      reads this, data
    {
      Others(i) && log.built == old(log.built)
    }

    twostate lemma Unmoved()
      requires old(Valid()) && unchanged(this) && unchanged(data)
      ensures AllBut(NO_PAGE)
    {
      hide TableHolds, PageHolds, Waiting, InQueue;
    }

    constructor ()
      ensures Valid() && fresh(data) && log.built == [] && building == NO_PAGE && active == NO_PAGE && status.Idle?
    {
      data := new byte[PAGES * PAGE_SIZE](_ => 0);
      pages := seq(PAGES, _ => Page(Free, 0, 0, 0));
      offered, active, status, level, credit, script := NO_PAGE, NO_PAGE, Idle, 0, 7 * SEGMENT, [];
      log := Log([], 0, [], seq(PAGES, _ => Table(0, 0, [], true)));
      building, grant, spent := NO_PAGE, 7 * SEGMENT, 0;
    }

    // The page the host is told about.
    function OfferedPage(): nat
      requires |pages| == PAGES
      reads this
    {
      if offered >= PAGES || !(status.Priming? || status.Playing? || status.Draining? || status.Underrun?) ||
         !pages[offered].state.Ready? || credit < pages[offered].packets * PACKET_SIZE
      then NO_PAGE else offered
    }

    // With a page on offer, the host is told about the oldest table it has not claimed yet, exactly while a stream
    // is running and the grant of the last report still covers that table.
    lemma OffersNext()
      requires Valid() && offered != NO_PAGE
      ensures log.claimed < |log.built| && log.queue != [] && log.queue[0] < PAGES == |log.tables|
      ensures log.tables[log.queue[0]] == log.built[log.claimed]
      ensures OfferedPage() == if !(status.Idle? || status.Opening? || status.Eof? || status.Error? || status.Paused?) &&
                                  spent + |log.built[log.claimed].payload| <= grant
                               then log.queue[0] else NO_PAGE
    {
      hide TableHolds;
      assert Waiting(pages, log, 0) && PageHolds(data, offered, pages[offered], log.tables[offered]);
      assert Visible(pages[offered]);
      WholeTable(data[offered * PAGE_SIZE..(offered + 1) * PAGE_SIZE], log.tables[offered]);
    }

    // The host gives the active page back.
    method ReleaseActive()
      requires Valid()
      modifies `pages, `active
      ensures Valid() && HostOnly() && active == NO_PAGE
      ensures old(active) < PAGES ==> pages == old(pages)[old(active) := old(pages)[old(active)].(state := Free)]
      ensures old(active) == NO_PAGE ==> pages == old(pages)
    {
      hide PageHolds, Ordered, Owned, Offers;
      OwnedPages(pages, active, building, log);
      ReleaseOrdered(pages, log, active, building);
      MovedHolds(data, pages, Given(pages, active), log.tables);
      var previous := active;
      active := NO_PAGE;
      if previous < PAGES {
        pages := pages[previous := pages[previous].(state := Free)];
      }
    }

    // The host claims a page: only the oldest one built, and only within its credit.
    method ClaimPage(index: nat) returns (ok: bool)
      requires Valid()
      modifies `pages, `active, `offered, `credit, `log, `spent
      ensures Valid() && HostOnly()
      ensures index == NO_PAGE ==> ok && active == NO_PAGE && log == old(log) && spent == old(spent)
      ensures index != NO_PAGE ==> (ok <==> old(OfferedPage()) == index)
      ensures ok && index != NO_PAGE ==>
                && active == index < PAGES && log.claimed == old(log.claimed) + 1 && old(log.queue) == [index] + log.queue
                && log.tables[index] == log.built[old(log.claimed)]
                && spent == old(spent) + log.tables[index].packets * PACKET_SIZE <= grant
      ensures !ok ==> unchanged(this)
    {
      if index == NO_PAGE {
        ReleaseActive();
        return true;
      }
      if OfferedPage() != index {
        return false;
      }
      TakeOffered();
      ok := true;
    }

    method TakeOffered()
      requires Valid() && OfferedPage() != NO_PAGE
      modifies `pages, `active, `offered, `credit, `log, `spent
      ensures Valid() && HostOnly() && active == old(offered) < PAGES
      ensures log.claimed == old(log.claimed) + 1 && old(log.queue) == [active] + log.queue
      ensures log.tables[active] == log.built[old(log.claimed)]
      ensures spent == old(spent) + log.tables[active].packets * PACKET_SIZE <= grant
    {
      hide PageHolds, Owned, TableHolds, Claimed, Waiting, InQueue;
      TableAt(data, pages, log, offered);
      ClaimOrdered(pages, log, active, building);
      MovedHolds(data, pages, Claimed(pages, active, offered), log.tables);
      var bytes := pages[offered].packets * PACKET_SIZE;
      pages := Claimed(pages, active, offered);
      active, offered, credit := offered, NO_PAGE, credit - bytes;
      log, spent := log.(claimed := log.claimed + 1, queue := log.queue[1..]), spent + bytes;
    }

    // The host reports how many sound-processor segments are queued.
    method ReportLevel(value: nat)
      requires Valid()
      modifies `level, `credit, `grant, `spent
      ensures Valid() && HostOnly() && spent == 0 && grant == if value >= 7 then 0 else (7 - value) * 252
      ensures level == if value > 8 then 8 else value
    {
      level := if value > 8 then 8 else value;
      credit := if value >= 7 then 0 else (7 - value) * SEGMENT;
      grant, spent := credit, 0;
    }

    // Core 1 takes a page to build in, if it is free.
    method TryReserve(i: nat) returns (ok: bool)
      requires Valid() && building == NO_PAGE && i < PAGES
      modifies `pages, `building
      ensures Valid() && (ok <==> old(pages)[i].state.Free?)
      ensures ok ==> building == i && pages == old(pages)[i := old(pages)[i].(state := Building)]
      ensures !ok ==> building == NO_PAGE && pages == old(pages)
    {
      ok := pages[i].state.Free?;
      if ok {
        hide TableHolds;
        ChangedPage(pages, log, i, pages[i].(state := Building));
        pages, building := pages[i := pages[i].(state := Building)], i;
      }
    }

    // Core 1 gives the reservation up.
    method Abandon(i: nat)
      requires Valid() && i == building < PAGES
      modifies `pages, `building
      ensures Valid() && building == NO_PAGE && pages == old(pages)[i := old(pages)[i].(state := Free)]
    {
      hide TableHolds;
      ChangedPage(pages, log, i, pages[i].(state := Free));
      pages, building := pages[i := pages[i].(state := Free)], NO_PAGE;
    }

    // One byte of the table being built; the host cannot see it yet.
    method Put(i: nat, offset: nat, value: byte)
      requires Valid() && i == building < PAGES && offset < PAGE_SIZE
      modifies data
      ensures Valid() && Slice(i) == old(Slice(i))[offset := value]
      ensures (forall j: nat :: j < PAGES && j != i ==> Slice(j) == old(Slice(j))) && Shown()
    {
      assert pages[i].state.Building? && active != i;
      hide TableHolds, Ordered, Offers;
      PageCount(pages, log);
      data[i * PAGE_SIZE + offset] := value;
      forall j: nat | j < PAGES && j != i
        ensures Slice(j) == old(Slice(j))
      {
        Apart(i, j);
      }
      forall j: nat | j < PAGES
        ensures PageHolds(data, j, pages[j], log.tables[j])
      {
        assert old(PageHolds(data, j, pages[j], log.tables[j]));
        assert j == i ==> !Visible(pages[j]);
        assert j != i ==> Slice(j) == old(Slice(j));
      }
    }

    // Core 1 makes the finished table visible, as the next one to offer.
    method Publish(i: nat, first: nat, packets: nat, generation: nat, ghost t: Table)
      requires Valid() && i == building < PAGES && generation == |log.built| < UINT32_MAX
      requires TableHolds(Slice(i), t) && first == t.first && packets == t.packets
      modifies `pages, `building, `log
      ensures Valid() && building == NO_PAGE && log.built == old(log.built) + [t] && log.claimed == old(log.claimed)
      ensures forall j: nat :: j < PAGES && j != i ==> pages[j] == old(pages)[j]
      ensures |pages| == PAGES && pages[i] == Page(Ready, first, packets, generation)
    {
      hide TableHolds;
      PublishOrdered(pages, log, i, t);
      pages := pages[i := Page(Ready, first, packets, generation)];
      log := Published(log, i, t);
      building := NO_PAGE;
    }

    // Offer the oldest Ready page, unless one is on offer.
    method RefreshOffer()
      requires Valid()
      modifies `offered
      ensures Valid() && offered == if old(offered) != NO_PAGE then old(offered) else if log.queue == [] then NO_PAGE else log.queue[0]
      ensures offered == NO_PAGE ==> log.queue == []
    {
      hide PageHolds, TableHolds;
      if offered != NO_PAGE {
        return;
      }
      var selected: nat, generation: nat, i: nat := NO_PAGE, UINT32_MAX, 0;
      while i < PAGES
        invariant 0 <= i <= PAGES
        invariant selected == NO_PAGE ==> generation == UINT32_MAX && forall j: nat :: j < i ==> !pages[j].state.Ready?
        invariant selected != NO_PAGE ==> selected < i && pages[selected].state.Ready? && pages[selected].generation == generation
        invariant forall j: nat :: j < i && pages[j].state.Ready? ==> generation <= pages[j].generation
      {
        assert pages[i].state.Ready? ==> InQueue(pages, log, i);
        if pages[i].state.Ready? && pages[i].generation < generation {
          selected, generation := i, pages[i].generation;
        }
        i := i + 1;
      }
      OldestFirst(pages, log, selected);
      assert log.queue != [] ==> Waiting(pages, log, 0);
      offered := selected;
    }

    // Everything but the active page is free again, and the stream starts over.
    method ClearPages()
      requires Valid() && building == NO_PAGE
      modifies `pages, `offered, `log
      ensures Valid() && offered == NO_PAGE && log == Log([], 0, [], old(log.tables))
      ensures forall i: nat :: i < PAGES ==> pages[i] == if old(pages)[i].state.Active? then old(pages)[i] else old(pages)[i].(state := Free)
    {
      hide TableHolds;
      PageCount(pages, log);
      pages := seq(PAGES, Cleared(pages));
      offered := NO_PAGE;
      log := Log([], 0, [], log.tables);
    }

    // What the host sees at a page offset.
    method HdmaRead(page: nat, offset: nat) returns (value: byte)
      requires Valid() && page < PAGES && offset < PAGE_SIZE
      ensures value == if Visible(pages[page]) then data[page * PAGE_SIZE + offset] else 0
    {
      value := if Visible(pages[page]) then data[page * PAGE_SIZE + offset] else 0;
    }

    // Whatever the host does at this moment.
    method Host(actions: seq<HostAction>)
      requires Valid()
      modifies `pages, `active, `offered, `credit, `log, `spent, `level, `grant
      ensures Valid() && HostOnly()
    {
      hide PageHolds, Waiting, InQueue, Owned, Offers;
      var i := 0;
      while i < |actions|
        invariant 0 <= i <= |actions| && Valid() && HostOnly()
      {
        match actions[i] {
          case Claim(page) => var ok := ClaimPage(page);
          case Report(value) => ReportLevel(value);
        }
        i := i + 1;
      }
    }

    // A moment between two steps of core 1.
    method Interleave()
      requires Valid()
      modifies `pages, `active, `offered, `credit, `log, `spent, `level, `grant, `script
      ensures Valid() && HostOnly()
      ensures old(script) == [] ==> unchanged(this)
      ensures old(script) != [] ==> script == old(script)[1..]
    {
      if script != [] {
        var actions := script[0];
        script := script[1..];
        Host(actions);
      }
    }
  }

  lemma PageCount(pages: seq<Page>, log: Log)
    requires Ordered(pages, log)
    ensures |pages| == PAGES && |log.tables| == PAGES
  {}

  lemma Apart(i: nat, j: nat)
    requires i != j
    ensures (i + 1) * PAGE_SIZE <= j * PAGE_SIZE || (j + 1) * PAGE_SIZE <= i * PAGE_SIZE
  {}

  // A page that is not Ready is in no queue, so it may change freely.
  lemma ChangedPage(pages: seq<Page>, log: Log, i: nat, page: Page)
    requires Ordered(pages, log) && i < PAGES && !pages[i].state.Ready? && !page.state.Ready?
    ensures Ordered(pages[i := page], log)
  {
    var pages' := pages[i := page];
    forall k: nat | k < |log.queue|
      ensures Waiting(pages', log, k)
    {
      assert Waiting(pages, log, k);
    }
    forall j: nat | j < PAGES && pages'[j].state.Ready?
      ensures InQueue(pages', log, j)
    {
      assert InQueue(pages, log, j);
    }
  }

  function Published(log: Log, i: nat, t: Table): Log
    requires i < |log.tables|
  {
    Log(log.built + [t], log.claimed, log.queue + [i], log.tables[i := t])
  }

  lemma PublishOrdered(pages: seq<Page>, log: Log, i: nat, t: Table)
    requires Ordered(pages, log) && i < PAGES && pages[i].state.Building? && |log.built| < UINT32_MAX
    ensures Ordered(pages[i := Page(Ready, t.first, t.packets, |log.built|)], Published(log, i, t))
  {
    var pages', log' := pages[i := Page(Ready, t.first, t.packets, |log.built|)], Published(log, i, t);
    forall k: nat | k < |log'.queue|
      ensures Waiting(pages', log', k)
    {
      assert k < |log.queue| ==> Waiting(pages, log, k);
    }
    forall j: nat | j < PAGES && pages'[j].state.Ready?
      ensures InQueue(pages', log', j)
    {
      assert j != i ==> InQueue(pages, log, j);
    }
  }

  lemma OldestFirst(pages: seq<Page>, log: Log, selected: nat)
    requires Ordered(pages, log) && (selected == NO_PAGE || selected < PAGES)
    requires selected == NO_PAGE ==> forall j: nat :: j < PAGES ==> !pages[j].state.Ready?
    requires selected != NO_PAGE ==> pages[selected].state.Ready?
    requires selected != NO_PAGE ==> forall j: nat :: j < PAGES && pages[j].state.Ready? ==> pages[selected].generation <= pages[j].generation
    ensures selected == if log.queue == [] then NO_PAGE else log.queue[0]
  {
    assert selected < PAGES && pages[selected].state.Ready? ==> InQueue(pages, log, selected);
    assert log.queue != [] ==> Waiting(pages, log, 0);
  }

  function Cleared(pages: seq<Page>): (nat --> Page) {
    i requires 0 <= i < |pages| => if pages[i].state.Active? then pages[i] else pages[i].(state := Free)
  }

  // The pages after a claim: the claimed one active, the one before it free.
  function Claimed(pages: seq<Page>, active: nat, index: nat): (r: seq<Page>)
    requires |pages| == PAGES && index < PAGES
    ensures |r| == PAGES
  {
    var shown := pages[index := pages[index].(state := Active)];
    if active < PAGES && active != index then shown[active := shown[active].(state := Free)] else shown
  }

  function Given(pages: seq<Page>, active: nat): (r: seq<Page>)
    requires |pages| == PAGES
    ensures |r| == PAGES
  {
    if active < PAGES then pages[active := pages[active].(state := Free)] else pages
  }

  lemma OwnedPages(pages: seq<Page>, active: nat, building: nat, log: Log)
    requires Ordered(pages, log) && Owned(pages, active, building)
    ensures |pages| == PAGES && |log.tables| == PAGES && (active == NO_PAGE || active < PAGES)
  {}

  lemma ReleaseOrdered(pages: seq<Page>, log: Log, active: nat, building: nat)
    requires Ordered(pages, log) && Owned(pages, active, building)
    ensures Ordered(Given(pages, active), log) && Owned(Given(pages, active), NO_PAGE, building)
    ensures forall i: nat :: i < PAGES ==> HostMoved(pages[i], Given(pages, active)[i])
  {
    var pages' := Given(pages, active);
    forall k: nat | k < |log.queue|
      ensures Waiting(pages', log, k)
    {
      assert Waiting(pages, log, k);
    }
    forall i: nat | i < PAGES && pages'[i].state.Ready?
      ensures InQueue(pages', log, i)
    {
      assert InQueue(pages, log, i);
    }
  }

  // What a page holds does not depend on what the host did to it.
  lemma MovedHolds(data: array<byte>, pages: seq<Page>, pages': seq<Page>, tables: seq<Table>)
    requires |pages| == PAGES == |pages'| == |tables| && forall i: nat :: i < PAGES ==> HostMoved(pages[i], pages'[i])
    requires forall i: nat :: i < PAGES ==> PageHolds(data, i, pages[i], tables[i])
    ensures forall i: nat :: i < PAGES ==> PageHolds(data, i, pages'[i], tables[i])
  {
    hide TableHolds;
    forall i: nat | i < PAGES
      ensures PageHolds(data, i, pages'[i], tables[i])
    {
      assert HostMoved(pages[i], pages'[i]);
    }
  }

  lemma TableAt(data: array<byte>, pages: seq<Page>, log: Log, index: nat)
    requires Ordered(pages, log) && |log.queue| > 0 && index == log.queue[0]
    requires forall i: nat :: i < PAGES ==> PageHolds(data, i, pages[i], log.tables[i])
    ensures index < PAGES && log.tables[index] == log.built[log.claimed] && pages[index].packets == log.tables[index].packets
  {
    hide TableHolds;
    assert Waiting(pages, log, 0);
    assert PageHolds(data, index, pages[index], log.tables[index]);
  }

  lemma ClaimOrdered(pages: seq<Page>, log: Log, active: nat, building: nat)
    requires Ordered(pages, log) && Owned(pages, active, building) && |log.queue| > 0
    ensures var index := log.queue[0];
            && index < PAGES
            && Ordered(Claimed(pages, active, index), log.(claimed := log.claimed + 1, queue := log.queue[1..]))
            && Owned(Claimed(pages, active, index), index, building)
            && Claimed(pages, active, index)[index].packets == pages[index].packets
            && forall i: nat :: i < PAGES ==> HostMoved(pages[i], Claimed(pages, active, index)[i])
  {
    assert Waiting(pages, log, 0);
    var index, log' := log.queue[0], log.(claimed := log.claimed + 1, queue := log.queue[1..]);
    var pages' := Claimed(pages, active, index);
    forall k: nat | k < |log'.queue|
      ensures Waiting(pages', log', k)
    {
      assert Waiting(pages, log, k + 1);
    }
    forall i: nat | i < PAGES && pages'[i].state.Ready?
      ensures InQueue(pages', log', i)
    {
      assert InQueue(pages, log, i);
    }
  }
}
