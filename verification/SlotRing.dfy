/** The four journal slots seen as states: which record is the newest, where the next one goes, and why
  * sequence numbers that wrap at 2^32 still order them (src/storage/fx3_save_journal.cpp). */
module SlotRing {
  import opened Arithmetic
  import opened LittleEndian

  const SLOTS := 4
  const HALF_TURN := 0x8000_0000
  const MARGIN := 0x7FFF_FFFF

  datatype Slot = Erased | Junk | Valid(sequence: nat)

  datatype Newest = NoRecord | Record(sequence: nat, slot: nat)

  // Modular distance from b up to a.
  function Distance(a: nat, b: nat): (d: nat)
    ensures d < WORDS
  {
    (a - b) % WORDS
  }

  // The signed 32-bit difference is positive.
  predicate Newer(a: nat, b: nat) {
    0 < Distance(a, b) < HALF_TURN
  }

  // The record the scan holds after the first k slots.
  function Best(slots: seq<Slot>, k: nat): (best: Newest)
    requires k <= |slots|
    ensures best.Record? ==> best.slot < k && slots[best.slot] == Valid(best.sequence)
    ensures best.NoRecord? <==> forall q :: 0 <= q < k ==> !slots[q].Valid?
  {
    if k == 0 then NoRecord
    else
      var best := Best(slots, k - 1);
      match slots[k - 1]
      case Valid(sequence) => if best.NoRecord? || Newer(sequence, best.sequence) then Record(sequence, k - 1) else best
      case _ => best
  }

  function At(slot: nat, step: nat): nat {
    (slot + step) % SLOTS
  }

  function FirstSlot(newest: Newest): (slot: nat)
    ensures slot < SLOTS
  {
    if newest.NoRecord? then 0 else At(newest.slot, 1)
  }

  function NextSequence(newest: Newest): nat {
    if newest.NoRecord? then 0 else (newest.sequence + 1) % WORDS
  }

  // The first erased slot from first on, trying steps step, step + 1, ... 3.
  function ErasedFrom(slots: seq<Slot>, first: nat, step: nat): (found: nat)
    requires |slots| == SLOTS && step <= SLOTS
    ensures step <= found <= SLOTS
    ensures found < SLOTS ==> slots[At(first, found)].Erased?
    ensures forall i :: step <= i < found ==> !slots[At(first, i)].Erased?
    decreases SLOTS - step
  {
    if step == SLOTS then SLOTS
    else if slots[At(first, step)].Erased? then step
    else ErasedFrom(slots, first, step + 1)
  }

  // Where the next record goes: the slot, and whether it must be reclaimed first.
  function Target(slots: seq<Slot>): (r: (nat, bool))
    requires |slots| == SLOTS
    ensures r.0 < SLOTS
    ensures !r.1 <==> slots[r.0].Erased?
    ensures r.1 ==> forall q :: 0 <= q < SLOTS ==> !slots[q].Erased?
  {
    var first := FirstSlot(Best(slots, SLOTS));
    var step := ErasedFrom(slots, first, 0);
    if step < SLOTS then (At(first, step), false)
    else
      Around(slots, first);
      (first, true)
  }

  lemma Around(slots: seq<Slot>, first: nat)
    requires |slots| == SLOTS && first < SLOTS
    requires forall i :: 0 <= i < SLOTS ==> !slots[At(first, i)].Erased?
    ensures forall q :: 0 <= q < SLOTS ==> !slots[q].Erased?
  {
    forall q: nat | q < SLOTS
      ensures !slots[q].Erased?
    {
      assert q == At(first, (q + SLOTS - first) % SLOTS);
    }
  }

  // The record at p is ahead of every other one, by less than limit steps.
  ghost predicate Leads(slots: seq<Slot>, p: nat, limit: nat)
    requires |slots| == SLOTS
  {
    && p < SLOTS && slots[p].Valid?
    && forall q :: 0 <= q < SLOTS && q != p && slots[q].Valid? ==>
         1 <= Distance(slots[p].sequence, slots[q].sequence) < limit
  }

  ghost predicate Words(slots: seq<Slot>) {
    forall q :: 0 <= q < |slots| && slots[q].Valid? ==> slots[q].sequence < WORDS
  }

  ghost predicate NoneValid(slots: seq<Slot>) {
    forall q :: 0 <= q < |slots| ==> !slots[q].Valid?
  }

  // Some record leads by less than half a turn with room for one more, or there is none.
  ghost predicate Ordered(slots: seq<Slot>)
    requires |slots| == SLOTS
  {
    Words(slots) && (NoneValid(slots) || exists p: nat :: Leads(slots, p, MARGIN))
  }

  lemma NewerIsStrict(a: nat, b: nat)
    requires a < WORDS && b < WORDS && Newer(a, b)
    ensures !Newer(b, a) && a != b
  {
    assert (b - a) % WORDS == WORDS - (a - b) % WORDS;
  }

  // The scan finds the leading record.
  lemma {:induction false} BestLeads(slots: seq<Slot>, p: nat, k: nat)
    requires |slots| == SLOTS && k <= SLOTS && Words(slots) && Leads(slots, p, HALF_TURN)
    ensures p < k ==> Best(slots, k) == Record(slots[p].sequence, p)
    ensures k <= p ==> Best(slots, k).NoRecord? || Newer(slots[p].sequence, Best(slots, k).sequence)
  {
    if k > 0 {
      BestLeads(slots, p, k - 1);
      if p < k - 1 && slots[k - 1].Valid? {
        NewerIsStrict(slots[p].sequence, slots[k - 1].sequence);
      }
    }
  }

  lemma NextDistance(n: nat, b: nat)
    requires n < WORDS && b < WORDS && Distance(n, b) < WORDS - 1
    ensures Distance((n + 1) % WORDS, b) == Distance(n, b) + 1
  {
    var d := (n - b) % WORDS;
    assert n - b == d || n - b == d - WORDS;
  }

  ghost predicate CommitsTo(slots: seq<Slot>, slots': seq<Slot>)
    requires |slots| == SLOTS
  {
    slots' == slots[Target(slots).0 := Valid(NextSequence(Best(slots, SLOTS)))]
  }

  lemma CommitLeads(slots: seq<Slot>, slots': seq<Slot>, p: nat, limit: nat)
    requires |slots| == SLOTS && Words(slots) && Leads(slots, p, limit) && 0 < limit < HALF_TURN && CommitsTo(slots, slots')
    ensures Words(slots') && Leads(slots', Target(slots).0, limit + 1)
  {
    hide Best, Target, Distance;
    var newest, t := Best(slots, SLOTS), Target(slots).0;
    BestLeads(slots, p, SLOTS);
    SelfDistance(newest.sequence);
    forall q | 0 <= q < SLOTS && q != t && slots'[q].Valid?
      ensures 1 <= Distance(slots'[t].sequence, slots'[q].sequence) < limit + 1
    {
      NextDistance(newest.sequence, slots[q].sequence);
    }
  }

  lemma SelfDistance(n: nat)
    ensures Distance(n, n) == 0
  {}

  // A committed record is the one the next scan finds, whatever it replaces.
  lemma CommitFound(slots: seq<Slot>, slots': seq<Slot>)
    requires |slots| == SLOTS && Ordered(slots) && CommitsTo(slots, slots')
    ensures Words(slots') && Best(slots', SLOTS) == Record(NextSequence(Best(slots, SLOTS)), Target(slots).0)
  {
    hide Best, Target, Distance;
    if NoneValid(slots) {
      BestLeads(slots', Target(slots).0, SLOTS);
    } else {
      var p: nat :| Leads(slots, p, MARGIN);
      CommitLeads(slots, slots', p, MARGIN);
      BestLeads(slots', Target(slots).0, SLOTS);
    }
  }

  // A slot that lost its record, or never had one, does not change what the scan finds.
  lemma CutFound(slots: seq<Slot>, t: nat, left: Slot)
    requires |slots| == SLOTS && Ordered(slots) && t == Target(slots).0 && !left.Valid?
    ensures Ordered(slots[t := left]) && Best(slots[t := left], SLOTS) == Best(slots, SLOTS)
  {
    hide Best, Target, Distance;
    var slots' := slots[t := left];
    if NoneValid(slots) {
      assert NoneValid(slots');
    } else {
      var p: nat :| Leads(slots, p, MARGIN);
      BestLeads(slots, p, SLOTS);
      TargetSpares(slots);
      assert Leads(slots', p, MARGIN);
      BestLeads(slots', p, SLOTS);
    }
  }

  // The newest record is never the one written over.
  lemma TargetSpares(slots: seq<Slot>)
    requires |slots| == SLOTS && Best(slots, SLOTS).Record?
    ensures Target(slots).0 != Best(slots, SLOTS).slot
  {}

  // The scan ends with the record at p exactly when that is newer than what the scan holds before it, and no
  // record after it is newer.
  predicate Outranks(slots: seq<Slot>, p: nat, sequence: nat, k: nat)
    requires p < k <= |slots|
  {
    && (Best(slots, p).NoRecord? || Newer(sequence, Best(slots, p).sequence))
    && forall q :: p < q < k && slots[q].Valid? ==> !Newer(slots[q].sequence, sequence)
  }

  lemma {:induction false} Wins(slots: seq<Slot>, p: nat, k: nat)
    requires p < k <= |slots| && slots[p].Valid?
    ensures Best(slots, k) == Record(slots[p].sequence, p) <==> Outranks(slots, p, slots[p].sequence, k)
    decreases k
  {
    if p < k - 1 {
      Wins(slots, p, k - 1);
    }
  }

  lemma {:induction false} SamePrefix(slots: seq<Slot>, slots': seq<Slot>, k: nat)
    requires k <= |slots| && k <= |slots'|
    requires forall q :: 0 <= q < k ==> slots[q] == slots'[q] || (!slots[q].Valid? && !slots'[q].Valid?)
    ensures Best(slots, k) == Best(slots', k)
  {
    if k > 0 {
      SamePrefix(slots, slots', k - 1);
    }
  }

  // On any ring, in order or not: the record just committed is the one found exactly when it outranks the rest.
  lemma CommitExact(slots: seq<Slot>, t: nat, sequence: nat)
    requires |slots| == SLOTS && t < SLOTS
    ensures Best(slots[t := Valid(sequence)], SLOTS) == Record(sequence, t) <==> Outranks(slots, t, sequence, SLOTS)
  {
    hide Best;
    var slots' := slots[t := Valid(sequence)];
    Wins(slots', t, SLOTS);
    SamePrefix(slots, slots', t);
    assert forall q :: t < q < SLOTS ==> slots'[q] == slots[q];
  }

  // The loss of slot t can be told only if the newest record lies after it and does not outrank what is left.
  predicate Survives(slots: seq<Slot>, t: nat)
    requires |slots| == SLOTS && t < SLOTS
  {
    var best := Best(slots, SLOTS);
    best.NoRecord? || best.slot <= t || Outranks(slots[t := Junk], best.slot, best.sequence, SLOTS)
  }

  // On any ring: losing a slot other than the newest changes what is found exactly when that can be told.
  lemma LossExact(slots: seq<Slot>, t: nat, left: Slot)
    requires |slots| == SLOTS && t < SLOTS && !left.Valid? && (Best(slots, SLOTS).Record? ==> Best(slots, SLOTS).slot != t)
    ensures Best(slots[t := left], SLOTS) == Best(slots, SLOTS) <==> Survives(slots, t)
  {
    hide Best;
    var best, slots' := Best(slots, SLOTS), slots[t := left];
    if best.Record? {
      Wins(slots, best.slot, SLOTS);
      Wins(slots', best.slot, SLOTS);
      SamePrefix(slots', if best.slot < t then slots else slots[t := Junk], best.slot);
    } else {
      SamePrefix(slots, slots', SLOTS);
    }
  }

  // The slot j steps after the newest: its record is at most 4 - j behind, and only if it is erased may
  // the search stop there, so everything before it is already gone.
  ghost predicate Behind(slots: seq<Slot>, p: nat, j: nat)
    requires |slots| == SLOTS && p < SLOTS && slots[p].Valid?
  {
    var slot := slots[At(p, j)];
    && (slot.Valid? ==> 1 <= Distance(slots[p].sequence, slot.sequence) <= SLOTS - j)
    && (slot.Erased? ==> forall i :: 1 <= i < j ==> !slots[At(p, i)].Valid?)
  }

  ghost predicate Rolls(slots: seq<Slot>, p: nat)
    requires |slots| == SLOTS
  {
    p < SLOTS && slots[p].Valid? && Behind(slots, p, 1) && Behind(slots, p, 2) && Behind(slots, p, 3)
  }

  // What every run from an erased journal keeps.
  ghost predicate Rolling(slots: seq<Slot>)
    requires |slots| == SLOTS
  {
    Words(slots) && (NoneValid(slots) || exists p: nat :: Rolls(slots, p))
  }

  // Every valid record is at most three steps behind the newest.
  lemma RollsLeads(slots: seq<Slot>, p: nat)
    requires |slots| == SLOTS && Rolls(slots, p)
    ensures Leads(slots, p, SLOTS)
  {
    forall q: nat | q < SLOTS && q != p && slots[q].Valid?
      ensures 1 <= Distance(slots[p].sequence, slots[q].sequence) < SLOTS
    {
      var j := (q + SLOTS - p) % SLOTS;
      assert q == At(p, j) && (j == 1 || j == 2 || j == 3);
    }
  }

  lemma RollingOrdered(slots: seq<Slot>)
    requires |slots| == SLOTS && Rolling(slots)
    ensures Ordered(slots)
  {
    if !NoneValid(slots) {
      var p: nat :| Rolls(slots, p);
      RollsLeads(slots, p);
      assert Leads(slots, p, MARGIN);
    }
  }

  lemma AtApart(p: nat, i: nat, j: nat)
    requires p < SLOTS && i < SLOTS && j < SLOTS
    ensures At(p, i) < SLOTS && (At(p, i) == At(p, j) ==> i == j)
  {}

  lemma BehindCut(slots: seq<Slot>, p: nat, t: nat, left: Slot, j: nat)
    requires |slots| == SLOTS && p < SLOTS && slots[p].Valid? && t < SLOTS && t != p && !left.Valid? && 1 <= j < SLOTS
    requires Behind(slots, p, j) && (slots[t].Erased? || t == At(p, 1))
    ensures Behind(slots[t := left], p, j)
  {
    AtApart(p, 1, j);
    hide Distance, At;
  }

  lemma CutRolls(slots: seq<Slot>, t: nat, left: Slot)
    requires |slots| == SLOTS && Rolling(slots) && t == Target(slots).0 && !left.Valid?
    ensures Rolling(slots[t := left])
  {
    var slots' := slots[t := left];
    if NoneValid(slots) {
      assert NoneValid(slots');
    } else {
      var p: nat :| Rolls(slots, p);
      TargetOf(slots, p);
      hide Best, Target, Distance, Behind, At;
      BehindCut(slots, p, t, left, 1);
      BehindCut(slots, p, t, left, 2);
      BehindCut(slots, p, t, left, 3);
      assert Rolls(slots', p);
    }
  }

  lemma TargetOf(slots: seq<Slot>, p: nat)
    requires |slots| == SLOTS && Words(slots) && Rolls(slots, p)
    ensures Best(slots, SLOTS) == Record(slots[p].sequence, p)
    ensures Target(slots).0 != p && (slots[Target(slots).0].Erased? || Target(slots).0 == At(p, 1))
  {
    hide Behind, At, Distance;
    RollsLeads(slots, p);
    BestLeads(slots, p, SLOTS);
    TargetSpares(slots);
  }

  lemma AtIs(p: nat, i: nat)
    requires p < SLOTS
    ensures i < SLOTS ==> At(p, i) == if p + i < SLOTS then p + i else p + i - SLOTS
    ensures SLOTS <= i < 2 * SLOTS ==> At(p, i) == At(p, i - SLOTS)
  {}

  lemma AtTwice(p: nat, i: nat, j: nat)
    requires p < SLOTS && i < SLOTS && j < SLOTS
    ensures At(At(p, i), j) == At(p, i + j) && At(p, 0) == p
    ensures SLOTS <= i + j ==> At(p, i + j) == At(p, i + j - SLOTS)
  {
    hide At;
    AtIs(p, 0);
    AtIs(p, i);
    AtIs(p, i + j);
    AtIs(At(p, i), j);
    if SLOTS <= i + j {
      AtIs(p, i + j - SLOTS);
    }
  }

  // Seen from the new record at step i, the slot k steps on.
  lemma BehindNext(slots: seq<Slot>, p: nat, i: nat, n: nat, k: nat)
    requires |slots| == SLOTS && Rolls(slots, p) && Words(slots) && n == (slots[p].sequence + 1) % WORDS
    requires 1 <= i < SLOTS && 1 <= k < SLOTS && forall h :: 1 <= h < i ==> slots[At(p, h)].Junk?
    ensures var slots' := slots[At(p, i) := Valid(n)]; Behind(slots', At(p, i), k)
  {
    var slots' := slots[At(p, i) := Valid(n)];
    var far := i + k;
    AtTwice(p, i, k);
    AtApart(At(p, i), 0, k);
    AtTwice(p, i, 0);
    if far < SLOTS {
      AtApart(p, i, far);
      assert Behind(slots, p, far);
      if slots[At(p, far)].Valid? {
        NextDistance(slots[p].sequence, slots[At(p, far)].sequence);
      }
      forall h | 1 <= h < k && slots'[At(p, far)].Erased?
        ensures !slots'[At(At(p, i), h)].Valid?
      {
        AtTwice(p, i, h);
        AtApart(p, i, i + h);
        assert !slots[At(p, i + h)].Valid?;
      }
    } else if far == SLOTS {
      SelfDistance(slots[p].sequence);
      NextDistance(slots[p].sequence, slots[p].sequence);
    } else {
      AtApart(p, i, far - SLOTS);
      assert slots[At(p, far - SLOTS)].Junk?;
    }
  }

  lemma CommitRollsFrom(slots: seq<Slot>, slots': seq<Slot>, p: nat)
    requires |slots| == SLOTS && Words(slots) && Rolls(slots, p) && CommitsTo(slots, slots')
    ensures Words(slots') && Rolls(slots', Target(slots).0)
  {
    TargetOf(slots, p);
    TargetStep(slots, p);
    hide Best, Target, Behind, At, Distance;
    var t := Target(slots).0;
    var i :| 1 <= i < SLOTS && t == At(p, i) && forall k :: 1 <= k < i ==> slots[At(p, k)].Junk?;
    var n := NextSequence(Best(slots, SLOTS));
    BehindNext(slots, p, i, n, 1);
    BehindNext(slots, p, i, n, 2);
    BehindNext(slots, p, i, n, 3);
  }

  // A committed record keeps the ring rolling: everything the search skipped held no record.
  lemma CommitRolls(slots: seq<Slot>, slots': seq<Slot>)
    requires |slots| == SLOTS && Rolling(slots) && CommitsTo(slots, slots')
    ensures Rolling(slots')
  {
    hide Best, Target, Behind, At, Distance;
    if NoneValid(slots) {
      assert Rolls(slots', Target(slots).0) by {
        BehindNothing(slots', Target(slots).0, 1);
        BehindNothing(slots', Target(slots).0, 2);
        BehindNothing(slots', Target(slots).0, 3);
      }
    } else {
      var p: nat :| Rolls(slots, p);
      CommitRollsFrom(slots, slots', p);
    }
  }

  lemma BehindNothing(slots: seq<Slot>, p: nat, j: nat)
    requires |slots| == SLOTS && p < SLOTS && slots[p].Valid? && 1 <= j < SLOTS
    requires forall q :: 0 <= q < SLOTS && q != p ==> !slots[q].Valid?
    ensures Behind(slots, p, j)
  {
    forall i: nat | 1 <= i < SLOTS
      ensures At(p, i) < SLOTS && At(p, i) != p
    {
      AtApart(p, 0, i);
    }
  }

  lemma TargetStep(slots: seq<Slot>, p: nat)
    requires |slots| == SLOTS && Rolls(slots, p) && Best(slots, SLOTS) == Record(slots[p].sequence, p)
    ensures exists i :: 1 <= i < SLOTS && Target(slots).0 == At(p, i) && forall k :: 1 <= k < i ==> slots[At(p, k)].Junk?
  {
  }

  // Record k of a journal that has only seen completed appends lies in slot k modulo 4, under its own number.
  function Turns(n: nat): (slots: seq<Slot>)
    ensures |slots| == SLOTS
  {
    seq(SLOTS, q requires 0 <= q < SLOTS => if q < n then Valid(Latest(n, q) % WORDS) else Erased)
  }

  // The last of the first n records that slot q took.
  function Latest(n: nat, q: nat): (k: nat)
    requires q < n && q < SLOTS
    ensures n - SLOTS <= k < n && k % SLOTS == q
  {
    var d := (n - 1 - q) % SLOTS;
    LatestIn(n - 1, q, d);
    n - 1 - d
  }

  lemma LatestIn(m: nat, q: nat, d: nat)
    requires q <= m && q < SLOTS && d == (m - q) % SLOTS
    ensures d <= m && (m - d) % SLOTS == q
  {}

  lemma LatestOnly(n: nat, q: nat, k: nat)
    requires q < n && q < SLOTS && n - SLOTS <= k < n && k % SLOTS == q
    ensures Latest(n, q) == k
  {}

  lemma SequenceGap(a: nat, b: nat)
    requires b < a < b + SLOTS
    ensures Distance(a % WORDS, b % WORDS) == a - b
  {
    var m := a % WORDS - b % WORDS;
    var k := a / WORDS - b / WORDS;
    assert a - b == k * WORDS + m;
    assert k == 0 || k == 1;
  }

  // The scan finds the last record, and the next append takes the slot after it: an erased one at first, then
  // the oldest.
  lemma NextInTurn(n: nat)
    ensures Best(Turns(n), SLOTS) == if n == 0 then NoRecord else Record((n - 1) % WORDS, (n - 1) % 4)
    ensures Target(Turns(n)) == (n % 4, 4 <= n) && NextSequence(Best(Turns(n), SLOTS)) == n % WORDS
    ensures Turns(n + 1) == Turns(n)[n % 4 := Valid(n % WORDS)]
  {
    hide Best, Latest, Distance;
    var slots := Turns(n);
    TurnsStep(n);
    if n == 0 {
      assert Best(slots, SLOTS).NoRecord?;
      assert slots[At(0, 0)].Erased?;
    } else {
      var p := (n - 1) % SLOTS;
      TurnsLead(n);
      BestLeads(slots, p, SLOTS);
      SuccessorTurn(n - 1, WORDS);
      AfterNewest(n);
    }
  }

  lemma SuccessorTurn(m: nat, w: nat)
    requires 1 < w
    ensures (m % w + 1) % w == (m + 1) % w
  {
    var q, r := m / w, m % w;
    assert m == q * w + r;
    if r + 1 < w {
      DivModUnique(w, q, r + 1);
      DivModUnique(w, 0, r + 1);
    } else {
      assert m + 1 == (q + 1) * w;
      DivModUnique(w, q + 1, 0);
      DivModUnique(w, 1, 0);
    }
  }

  lemma TurnsLead(n: nat)
    requires 0 < n
    ensures Words(Turns(n)) && Leads(Turns(n), (n - 1) % SLOTS, HALF_TURN)
    ensures Turns(n)[(n - 1) % SLOTS] == Valid((n - 1) % WORDS)
  {
    hide Latest, Distance;
    var p := (n - 1) % SLOTS;
    LatestOnly(n, p, n - 1);
    forall q | 0 <= q < SLOTS && q != p && Turns(n)[q].Valid?
      ensures 1 <= Distance(Turns(n)[p].sequence, Turns(n)[q].sequence) < HALF_TURN
    {
      assert Latest(n, q) % SLOTS == q;
      SequenceGap(n - 1, Latest(n, q));
    }
  }

  lemma AfterNewest(n: nat)
    requires 0 < n && Best(Turns(n), SLOTS) == Record((n - 1) % WORDS, (n - 1) % SLOTS)
    ensures Target(Turns(n)) == (n % SLOTS, SLOTS <= n)
  {
    hide Best, Latest;
    SuccessorTurn(n - 1, SLOTS);
    assert FirstSlot(Best(Turns(n), SLOTS)) == n % SLOTS;
    if n < SLOTS {
      assert Turns(n)[At(n, 0)].Erased?;
    }
  }

  lemma TurnsStep(n: nat)
    ensures Turns(n + 1) == Turns(n)[n % SLOTS := Valid(n % WORDS)]
  {
    hide Latest;
    var next, stepped := Turns(n + 1), Turns(n)[n % SLOTS := Valid(n % WORDS)];
    forall q: nat | q < SLOTS
      ensures next[q] == stepped[q]
    {
      if q == n % SLOTS {
        LatestOnly(n + 1, q, n);
      } else if q < n {
        LatestStays(n, q);
      }
    }
  }

  lemma LatestStays(n: nat, q: nat)
    requires q < n && q < SLOTS && q != n % SLOTS
    ensures Latest(n + 1, q) == Latest(n, q)
  {
    var k := Latest(n, q);
    assert k % SLOTS == q;
    LatestOnly(n + 1, q, k);
  }

  // Without the margin a half turn away, the scan is not an order: the record just committed loses to
  // one that the previous scan had ranked below the old newest.
  lemma HalfTurnConfuses()
    ensures var slots := [Valid(0), Erased, Valid(HALF_TURN), Junk];
            && Best(slots, SLOTS) == Record(0, 0) && Target(slots) == (1, false)
            && Best(slots[1 := Valid(1)], SLOTS) == Record(HALF_TURN, 2)
  {
    var slots := [Valid(0), Erased, Valid(HALF_TURN), Junk];
    assert Best(slots, 1) == Record(0, 0) && Best(slots, 3) == Record(0, 0);
    var slots' := slots[1 := Valid(1)];
    assert Best(slots', 1) == Record(0, 0);
    assert Best(slots', 2) == Record(1, 1);
    assert Best(slots', 3) == Record(HALF_TURN, 2);
    assert ErasedFrom(slots, 1, 0) == 0;
  }
}
