/** One frame of audio as an HDMA table (src/audio/fx3_audio_stream.cpp): a line count, three payload bytes
  * and a sequence number for every packet, then a zero count. */
module AudioTable {
  import opened Arithmetic
  import opened Bytes

  const VISIBLE_LINES := 224
  const PACKET_SIZE := 3
  const ENTRY_SIZE := 5
  const PAGE_SIZE := 1024
  const MAX_PACKETS := 63

  // What a table was built from; a silent one carries zeros that belong to no source byte.
  datatype Table = Table(first: nat, packets: nat, payload: seq<byte>, silent: bool)

  predicate Sized(t: Table) {
    3 <= t.packets <= MAX_PACKETS && t.packets % 3 == 0 && |t.payload| == t.packets * PACKET_SIZE && t.first < 0x100
  }

  // Lines shown by the first k packets: the screen, spread evenly.
  function LinesThrough(packets: nat, k: nat): nat
    requires 0 < packets
  {
    k * VISIBLE_LINES / packets
  }

  function LinesAt(packets: nat, k: nat): int
    requires 0 < packets
  {
    LinesThrough(packets, k + 1) - LinesThrough(packets, k)
  }

  predicate EntryHolds(page: seq<byte>, t: Table, k: nat)
    requires |page| == PAGE_SIZE && Sized(t) && k < t.packets
  {
    && page[k * ENTRY_SIZE] as int == LinesAt(t.packets, k)
    && page[k * ENTRY_SIZE + 1] == t.payload[k * PACKET_SIZE]
    && page[k * ENTRY_SIZE + 2] == t.payload[k * PACKET_SIZE + 1]
    && page[k * ENTRY_SIZE + 3] == t.payload[k * PACKET_SIZE + 2]
    && page[k * ENTRY_SIZE + 4] as int == (t.first + k) % 0x100
  }

  // The first n entries of the table are in the page.
  ghost predicate EntriesHold(page: seq<byte>, t: Table, n: nat) {
    |page| == PAGE_SIZE && Sized(t) && n <= t.packets && forall k: nat :: k < n ==> EntryHolds(page, t, k)
  }

  // The page is the complete table, its terminator inside the page.
  ghost predicate TableHolds(page: seq<byte>, t: Table) {
    EntriesHold(page, t, t.packets) && page[t.packets * ENTRY_SIZE] == 0
  }

  // A frame of three packets, byte by byte: 224 lines are 74, 75 and 75.
  lemma TableOfThree(page: seq<byte>, t: Table)
    requires TableHolds(page, t) && t.packets == 3 && t.first == 0xFE
    ensures page[..16] == [74, t.payload[0], t.payload[1], t.payload[2], 0xFE, 75, t.payload[3], t.payload[4], t.payload[5], 0xFF,
                           75, t.payload[6], t.payload[7], t.payload[8], 0, 0]
  {
    assert EntryHolds(page, t, 0) && EntryHolds(page, t, 1) && EntryHolds(page, t, 2);
    assert LinesThrough(3, 1) == 74 && LinesThrough(3, 2) == 149 && LinesThrough(3, 3) == 224 && LinesThrough(3, 0) == 0;
  }

  // What one entry is made of.
  predicate EntryIs(entry: seq<byte>, t: Table, k: nat)
    requires Sized(t) && k < t.packets
  {
    && |entry| == ENTRY_SIZE && entry[0] as int == LinesAt(t.packets, k)
    && entry[1..4] == t.payload[k * PACKET_SIZE..k * PACKET_SIZE + PACKET_SIZE]
    && entry[4] as int == (t.first + k) % 0x100
  }

  lemma EntryAdded(page: seq<byte>, t: Table, k: nat, entry: seq<byte>)
    requires EntriesHold(page, t, k) && k < t.packets && EntryIs(entry, t, k)
    ensures EntriesHold(Overlay(page, k * ENTRY_SIZE, entry), t, k + 1)
  {
    hide LinesAt;
    var page' := Overlay(page, k * ENTRY_SIZE, entry);
    assert entry[1] == entry[1..4][0] && entry[2] == entry[1..4][1] && entry[3] == entry[1..4][2];
    forall j: nat | j < k + 1
      ensures EntryHolds(page', t, j)
    {
      assert j < k ==> EntryHolds(page, t, j);
    }
  }

  lemma TableEnded(page: seq<byte>, t: Table)
    requires EntriesHold(page, t, t.packets)
    ensures TableHolds(page[t.packets * ENTRY_SIZE := 0], t)
  {
    hide LinesAt;
    var page' := page[t.packets * ENTRY_SIZE := 0];
    forall j: nat | j < t.packets
      ensures EntryHolds(page', t, j)
    {
      assert EntryHolds(page, t, j);
    }
  }

  // One step of the line accumulator: whole lines so far times packets, plus what is carried, is exact.
  lemma LineStep(packets: nat, k: nat, total: nat, carried: nat)
    requires 0 < packets <= MAX_PACKETS && carried < packets && total * packets + carried == k * VISIBLE_LINES
    ensures var sum := carried + VISIBLE_LINES % packets;
            var lines := VISIBLE_LINES / packets + if sum >= packets then 1 else 0;
            var next := if sum >= packets then sum - packets else sum;
            && next < packets && (total + lines) * packets + next == (k + 1) * VISIBLE_LINES
            && lines == LinesAt(packets, k)
  {
    var sum := carried + VISIBLE_LINES % packets;
    var base := VISIBLE_LINES / packets;
    var lines := base + if sum >= packets then 1 else 0;
    var next := if sum >= packets then sum - packets else sum;
    assert base * packets + VISIBLE_LINES % packets == VISIBLE_LINES;
    assert (total + lines) * packets == total * packets + lines * packets;
    assert lines * packets == base * packets + if sum >= packets then packets else 0;
    DivModUnique(packets, total, carried);
    DivModUnique(packets, total + lines, next);
  }

  // So much of the screen is spread over the first k packets, in whole lines and a carried rest.
  ghost predicate Spread(packets: nat, k: nat, total: nat, carried: nat) {
    carried < packets && total * packets + carried == k * VISIBLE_LINES
  }

  lemma SpreadStarts(packets: nat)
    requires 0 < packets
    ensures Spread(packets, 0, 0, 0)
  {}

  // The lines every packet gets, and how many packets get one more.
  function BaseLines(packets: nat): nat
    requires 0 < packets <= MAX_PACKETS
  {
    VISIBLE_LINES / packets
  }

  function ExtraLines(packets: nat): nat
    requires 0 < packets <= MAX_PACKETS
  {
    VISIBLE_LINES % packets
  }

  method StepLines(packets: nat, k: nat, after: nat, base: nat, extra: nat, accumulator: nat, ghost total: nat)
    returns (lines: nat, next: nat, ghost shown: nat)
    requires after == k + 1
    requires 3 <= packets <= MAX_PACKETS && base == BaseLines(packets) && extra == ExtraLines(packets)
    requires Spread(packets, k, total, accumulator)
    ensures Spread(packets, after, shown, next) && shown == total + lines && lines == LinesAt(packets, k) && lines <= 0xFF
  {
    LineStep(packets, k, total, accumulator);
    LineBounds(packets, k);
    lines, next := base, accumulator + extra;
    if next >= packets {
      next, lines := next - packets, lines + 1;
    }
    shown := total + lines;
  }

  // The line counts of the first k packets, added up.
  ghost function LineSum(page: seq<byte>, k: nat): int
    requires |page| == PAGE_SIZE && k <= MAX_PACKETS
  {
    if k == 0 then 0 else LineSum(page, k - 1) + page[(k - 1) * ENTRY_SIZE] as int
  }

  lemma {:induction false} LineSums(page: seq<byte>, t: Table, k: nat)
    requires TableHolds(page, t) && k <= t.packets
    ensures LineSum(page, k) == LinesThrough(t.packets, k)
  {
    if k > 0 {
      LineSums(page, t, k - 1);
      assert EntryHolds(page, t, k - 1);
    }
  }

  lemma LineBounds(packets: nat, k: nat)
    requires 3 <= packets <= MAX_PACKETS
    ensures 3 <= LinesAt(packets, k) <= 75
  {
    var n := k * VISIBLE_LINES;
    var q, r := n / packets, n % packets;
    assert n == q * packets + r;
    var q2, r2 := (n + VISIBLE_LINES) / packets, (n + VISIBLE_LINES) % packets;
    assert n + VISIBLE_LINES == q2 * packets + r2;
    assert (k + 1) * VISIBLE_LINES == n + VISIBLE_LINES;
    var d := q2 - q;
    assert d * packets == VISIBLE_LINES + r - r2;
    MulGap(d, 3, packets);
    MulGap(75, d, packets);
  }

  // A table hands the display exactly the visible lines, in counts the hardware accepts, then stops.
  lemma TableFits(page: seq<byte>, t: Table)
    requires TableHolds(page, t)
    ensures LineSum(page, t.packets) == VISIBLE_LINES
    ensures forall k :: 0 <= k < t.packets ==> 1 <= page[k * ENTRY_SIZE] <= 127
    ensures t.packets * ENTRY_SIZE < PAGE_SIZE && page[t.packets * ENTRY_SIZE] == 0
  {
    LineSums(page, t, t.packets);
    DivModUnique(t.packets, VISIBLE_LINES, 0);
    forall k: nat | k < t.packets
      ensures 1 <= page[k * ENTRY_SIZE] <= 127
    {
      assert EntryHolds(page, t, k);
      LineBounds(t.packets, k);
    }
  }
}
