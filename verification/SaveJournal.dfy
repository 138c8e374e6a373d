/** The power-safe save journal (src/storage/fx3_save_journal.cpp): four slots in the QSPI save
  * partition, payload programmed first and header last, and a cut possible after every sector erase
  * and every byte. */
module SaveJournal {
  import opened Bytes
  import opened SlotRing
  import opened LittleEndian
  import Crc32

  const SAVE_OFFSET := 496 * 1024
  const SECTOR := 4096
  const HEADER_SIZE := 256
  const PAYLOAD_SIZE := 128 * 1024
  const RECORD_SIZE := HEADER_SIZE + PAYLOAD_SIZE
  const SLOT_SECTORS := 33
  const SLOT_SIZE := SLOT_SECTORS * SECTOR
  const SAVE_SIZE := SLOTS * SLOT_SIZE

  const MAGIC := 0x3358_4653
  const FORMAT_VERSION := 1
  const COMMITTED := 0x5449_4D43

  const MAGIC_OFFSET := 0
  const VERSION_OFFSET := 4
  const HEADER_SIZE_OFFSET := 8
  const SEQUENCE_OFFSET := 12
  const PAYLOAD_SIZE_OFFSET := 16
  const CRC_OFFSET := 20
  const COMMIT_OFFSET := 24
  const COMMIT_END := 28

  function SlotOffset(slot: nat): nat {
    SAVE_OFFSET + slot * SLOT_SIZE
  }

  function PayloadOf(record: seq<byte>): seq<byte>
    requires |record| == RECORD_SIZE
  {
    record[HEADER_SIZE..]
  }

  // The header fields match and the payload carries its checksum.
  predicate Committed(record: seq<byte>)
    requires |record| == RECORD_SIZE
  {
    && Le32(record, MAGIC_OFFSET) == MAGIC
    && Le32(record, VERSION_OFFSET) == FORMAT_VERSION
    && Le32(record, HEADER_SIZE_OFFSET) == HEADER_SIZE
    && Le32(record, PAYLOAD_SIZE_OFFSET) == PAYLOAD_SIZE
    && Le32(record, COMMIT_OFFSET) == COMMITTED
    && Crc32.ChecksumWord(PayloadOf(record)) == Le32(record, CRC_OFFSET)
  }

  function RecordBytes(image: seq<byte>, slot: nat): seq<byte>
    requires SlotOffset(slot) + RECORD_SIZE <= |image|
  {
    image[SlotOffset(slot)..SlotOffset(slot) + RECORD_SIZE]
  }

  predicate ValidRecord(image: seq<byte>, slot: nat) {
    SlotOffset(slot) + RECORD_SIZE <= |image| && Committed(RecordBytes(image, slot))
  }

  predicate SlotErased(image: seq<byte>, slot: nat) {
    && SlotOffset(slot) + SLOT_SIZE <= |image|
    && forall i :: SlotOffset(slot) <= i < SlotOffset(slot) + SLOT_SIZE ==> image[i] == ERASED
  }

  function SlotState(image: seq<byte>, slot: nat): Slot {
    if ValidRecord(image, slot) then Valid(Le32(RecordBytes(image, slot), SEQUENCE_OFFSET))
    else if SlotErased(image, slot) then Erased
    else Junk
  }

  function SlotsOf(image: seq<byte>): (slots: seq<Slot>)
    ensures |slots| == SLOTS && forall q :: 0 <= q < SLOTS ==> slots[q] == SlotState(image, q)
  {
    seq(SLOTS, q requires 0 <= q < SLOTS => SlotState(image, q))
  }

  // An erased slot holds no record.
  lemma ErasedState(image: seq<byte>, slot: nat)
    ensures SlotState(image, slot).Erased? <==> SlotErased(image, slot)
  {
    if SlotErased(image, slot) {
      hide Committed;
      BlankHeader(RecordBytes(image, slot));
    }
  }

  lemma BlankHeader(record: seq<byte>)
    requires |record| == RECORD_SIZE && record[0] == ERASED
    ensures !Committed(record)
  {
    hide Crc32.ChecksumWord;
  }

  // What a restore hands back.
  function Restored(image: seq<byte>): Option<seq<byte>> {
    var best := Best(SlotsOf(image), SLOTS);
    if best.NoRecord? then None else Some(PayloadOf(RecordBytes(image, best.slot)))
  }

  function Min(a: nat, b: nat): nat {
    if a < b then a else b
  }

  function Header(sequence: nat, snapshot: seq<byte>): (header: seq<byte>)
    ensures |header| == HEADER_SIZE
  {
    WordBytes(MAGIC) + WordBytes(FORMAT_VERSION) + WordBytes(HEADER_SIZE) + WordBytes(sequence) +
    WordBytes(PAYLOAD_SIZE) + WordBytes(Crc32.ChecksumWord(snapshot)) + WordBytes(COMMITTED) +
    Repeat(ERASED, HEADER_SIZE - COMMIT_END)
  }

  predicate HasJournal(image: seq<byte>) {
    SAVE_OFFSET + SAVE_SIZE <= |image|
  }

  // Sector erases an append starts with.
  function EraseSteps(image: seq<byte>): (steps: nat)
    ensures steps <= SLOT_SECTORS
  {
    if Target(SlotsOf(image)).1 then SLOT_SECTORS else 0
  }

  function AppendSteps(image: seq<byte>): nat {
    EraseSteps(image) + PAYLOAD_SIZE + HEADER_SIZE
  }

  // Enough steps to reach the last byte of the commit word.
  predicate Commits(image: seq<byte>, budget: nat) {
    EraseSteps(image) + PAYLOAD_SIZE + COMMIT_END <= budget
  }

  function TargetSlot(image: seq<byte>): (slot: nat)
    ensures slot < SLOTS
  {
    Target(SlotsOf(image)).0
  }

  lemma SlotInside(image: seq<byte>, slot: nat)
    requires HasJournal(image) && slot < SLOTS
    ensures SAVE_OFFSET <= SlotOffset(slot) && SlotOffset(slot) + SLOT_SIZE <= |image|
  {}

  function TargetOffset(image: seq<byte>): (at: nat)
    requires HasJournal(image)
    ensures at == SlotOffset(TargetSlot(image)) && at + SLOT_SIZE <= |image|
  {
    SlotInside(image, TargetSlot(image));
    SlotOffset(TargetSlot(image))
  }

  // The target slot with its first sectors erased.
  function Cleared(image: seq<byte>, sectors: nat): (r: seq<byte>)
    requires HasJournal(image) && sectors <= SLOT_SECTORS
    ensures |r| == |image|
  {
    Overlay(image, TargetOffset(image), Repeat(ERASED, sectors * SECTOR))
  }

  // A slot at offset at after the first steps bytes of its record were programmed, payload first.
  function Recorded(image: seq<byte>, at: nat, snapshot: seq<byte>, header: seq<byte>, steps: nat): (r: seq<byte>)
    requires at + RECORD_SIZE <= |image| && |snapshot| == PAYLOAD_SIZE && |header| == HEADER_SIZE
    ensures |r| == |image|
  {
    var m := Min(steps, PAYLOAD_SIZE);
    var h := Min(steps - m, HEADER_SIZE);
    Overlay(Overlay(image, at + HEADER_SIZE, snapshot[..m]), at, header[..h])
  }

  function NextHeader(image: seq<byte>, snapshot: seq<byte>): (header: seq<byte>)
    ensures |header| == HEADER_SIZE
  {
    Header(NextSequence(Best(SlotsOf(image), SLOTS)), snapshot)
  }

  // The device after an append that is cut after budget steps.
  function Outcome(image: seq<byte>, snapshot: seq<byte>, budget: nat): (r: seq<byte>)
    requires HasJournal(image) && |snapshot| == PAYLOAD_SIZE
    ensures |r| == |image|
  {
    if budget < EraseSteps(image) then Cleared(image, budget)
    else Recorded(Cleared(image, EraseSteps(image)), TargetOffset(image), snapshot, NextHeader(image, snapshot),
                  budget - EraseSteps(image))
  }

  // Programming clears bits.
  function ProgramOver(image: seq<byte>, offset: nat, data: seq<byte>): (r: seq<byte>)
    requires offset + |data| <= |image|
    ensures |r| == |image|
    ensures forall i :: 0 <= i < |image| ==>
              r[i] == if offset <= i < offset + |data| then Programmed(image[i], data[i - offset]) else image[i]
  {
    seq(|image|, i requires 0 <= i < |image| =>
      if offset <= i < offset + |data| then Programmed(image[i], data[i - offset]) else image[i])
  }

  lemma ProgramErasedRange(image: seq<byte>, offset: nat, data: seq<byte>)
    requires offset + |data| <= |image|
    requires forall i :: offset <= i < offset + |data| ==> image[i] == ERASED
    ensures ProgramOver(image, offset, data) == Overlay(image, offset, data)
  {
    forall i | 0 <= i < |image|
      ensures ProgramOver(image, offset, data)[i] == Overlay(image, offset, data)[i]
    {
      if offset <= i < offset + |data| {
        ProgramErased(data[i - offset]);
      }
    }
  }

  // Reclaimed or not, the target slot is erased before it is programmed.
  lemma TargetCleared(image: seq<byte>)
    requires HasJournal(image)
    ensures SlotErased(Cleared(image, EraseSteps(image)), TargetSlot(image))
  {
    hide Best, SlotState, Target;
    var t, at := TargetSlot(image), TargetOffset(image);
    ErasedState(image, t);
    var cleared := Cleared(image, EraseSteps(image));
    forall i | at <= i < at + SLOT_SIZE
      ensures cleared[i] == ERASED
    {
      assert EraseSteps(image) == 0 ==> image[i] == ERASED;
    }
  }

  lemma OutcomeStages(image: seq<byte>, snapshot: seq<byte>, budget: nat)
    requires HasJournal(image) && |snapshot| == PAYLOAD_SIZE
    ensures budget < EraseSteps(image) ==> Outcome(image, snapshot, budget) == Cleared(image, budget)
    ensures EraseSteps(image) <= budget ==>
              Outcome(image, snapshot, budget) == Recorded(Cleared(image, EraseSteps(image)), TargetOffset(image), snapshot,
                                                           NextHeader(image, snapshot), budget - EraseSteps(image))
    ensures AppendSteps(image) <= budget <==> EraseSteps(image) + PAYLOAD_SIZE + HEADER_SIZE <= budget
  {}

  // Cleared already, with so many steps left.
  lemma OutcomeRest(image: seq<byte>, snapshot: seq<byte>, budget: nat, rest: nat)
    requires HasJournal(image) && |snapshot| == PAYLOAD_SIZE && budget == EraseSteps(image) + rest
    ensures Outcome(image, snapshot, budget) ==
            Recorded(Cleared(image, EraseSteps(image)), TargetOffset(image), snapshot, NextHeader(image, snapshot), rest)
    ensures AppendSteps(image) <= budget <==> PAYLOAD_SIZE + HEADER_SIZE <= rest
  {}

  lemma SlotSectors()
    ensures SLOT_SIZE / SECTOR == SLOT_SECTORS
  {}

  function NextRecord(image: seq<byte>): Newest {
    Record(NextSequence(Best(SlotsOf(image), SLOTS)), TargetSlot(image))
  }

  // A record after its first steps bytes were programmed into an erased slot, payload first.
  function RecordPart(snapshot: seq<byte>, header: seq<byte>, steps: nat): (r: seq<byte>)
    requires |snapshot| == PAYLOAD_SIZE && |header| == HEADER_SIZE
    ensures |r| == RECORD_SIZE
  {
    var m := Min(steps, PAYLOAD_SIZE);
    var h := Min(steps - m, HEADER_SIZE);
    header[..h] + Repeat(ERASED, HEADER_SIZE - h) + snapshot[..m] + Repeat(ERASED, PAYLOAD_SIZE - m)
  }

  lemma RecordedIs(image: seq<byte>, slot: nat, snapshot: seq<byte>, header: seq<byte>, steps: nat)
    requires |snapshot| == PAYLOAD_SIZE && |header| == HEADER_SIZE && SlotErased(image, slot)
    ensures RecordBytes(Recorded(image, SlotOffset(slot), snapshot, header, steps), slot) == RecordPart(snapshot, header, steps)
  {
    var at := SlotOffset(slot);
    var after, part := Recorded(image, at, snapshot, header, steps), RecordPart(snapshot, header, steps);
    forall i | 0 <= i < RECORD_SIZE
      ensures after[at + i] == part[i]
    {
      assert image[at + i] == ERASED;
    }
  }

  lemma SameWord(s: seq<byte>, t: seq<byte>, k: nat)
    requires k + 4 <= |t| <= |s| && s[..|t|] == t
    ensures Le32(s, k) == Le32(t, k)
  {
    assert forall i :: k <= i < k + 4 ==> s[i] == t[i];
  }

  lemma HeaderWords(sequence: nat, snapshot: seq<byte>)
    requires sequence < WORDS
    ensures var header := Header(sequence, snapshot);
            && Le32(header, MAGIC_OFFSET) == MAGIC
            && Le32(header, VERSION_OFFSET) == FORMAT_VERSION
            && Le32(header, HEADER_SIZE_OFFSET) == HEADER_SIZE
            && Le32(header, SEQUENCE_OFFSET) == sequence
            && Le32(header, PAYLOAD_SIZE_OFFSET) == PAYLOAD_SIZE
            && Le32(header, CRC_OFFSET) == Crc32.ChecksumWord(snapshot)
            && Le32(header, COMMIT_OFFSET) == COMMITTED
            && header[COMMIT_END..] == Repeat(ERASED, HEADER_SIZE - COMMIT_END)
  {
    var header := Header(sequence, snapshot);
    hide Le32, WordBytes, Crc32.ChecksumWord;
    WordAt(header, MAGIC_OFFSET, MAGIC);
    WordAt(header, VERSION_OFFSET, FORMAT_VERSION);
    WordAt(header, HEADER_SIZE_OFFSET, HEADER_SIZE);
    WordAt(header, SEQUENCE_OFFSET, sequence);
    WordAt(header, PAYLOAD_SIZE_OFFSET, PAYLOAD_SIZE);
    WordAt(header, CRC_OFFSET, Crc32.ChecksumWord(snapshot));
    WordAt(header, COMMIT_OFFSET, COMMITTED);
  }

  // The record is committed exactly from the last byte of the commit word on.
  lemma PartCommitted(snapshot: seq<byte>, sequence: nat, steps: nat)
    requires |snapshot| == PAYLOAD_SIZE && sequence < WORDS
    ensures var record := RecordPart(snapshot, Header(sequence, snapshot), steps);
            && (Committed(record) <==> PAYLOAD_SIZE + COMMIT_END <= steps)
            && (Committed(record) ==> PayloadOf(record) == snapshot && Le32(record, SEQUENCE_OFFSET) == sequence)
  {
    var header := Header(sequence, snapshot);
    var record := RecordPart(snapshot, header, steps);
    if PAYLOAD_SIZE + COMMIT_END <= steps {
      PartComplete(snapshot, sequence, steps);
      HeaderWords(sequence, snapshot);
      hide RecordPart, Header, Le32, Crc32.ChecksumWord;
      SameWord(record, header, MAGIC_OFFSET);
      SameWord(record, header, VERSION_OFFSET);
      SameWord(record, header, HEADER_SIZE_OFFSET);
      SameWord(record, header, SEQUENCE_OFFSET);
      SameWord(record, header, PAYLOAD_SIZE_OFFSET);
      SameWord(record, header, CRC_OFFSET);
      SameWord(record, header, COMMIT_OFFSET);
    } else {
      assert record[COMMIT_END - 1] == ERASED;
      hide RecordPart, Header;
      BlankCommit(record);
    }
  }

  lemma PartComplete(snapshot: seq<byte>, sequence: nat, steps: nat)
    requires |snapshot| == PAYLOAD_SIZE && PAYLOAD_SIZE + COMMIT_END <= steps
    ensures var record := RecordPart(snapshot, Header(sequence, snapshot), steps);
            PayloadOf(record) == snapshot && record[..HEADER_SIZE] == Header(sequence, snapshot)
  {
    var header := Header(sequence, snapshot);
    hide Crc32.ChecksumWord, WordBytes;
    assert header[COMMIT_END..] == Repeat(ERASED, HEADER_SIZE - COMMIT_END);
    hide Header;
    var record := RecordPart(snapshot, header, steps);
    assert forall i :: COMMIT_END <= i < HEADER_SIZE ==> header[i] == header[COMMIT_END..][i - COMMIT_END];
    assert record[..HEADER_SIZE] == header;
  }

  lemma BlankCommit(record: seq<byte>)
    requires |record| == RECORD_SIZE && record[COMMIT_END - 1] == ERASED
    ensures !Committed(record)
  {
    hide Crc32.ChecksumWord;
  }

  lemma NextIsWord(image: seq<byte>)
    ensures NextSequence(Best(SlotsOf(image), SLOTS)) < WORDS
  {}

  // The target slot after an append of which steps program bytes happened.
  lemma RecordedValid(image: seq<byte>, snapshot: seq<byte>, steps: nat)
    requires HasJournal(image) && |snapshot| == PAYLOAD_SIZE
    ensures var after := Recorded(Cleared(image, EraseSteps(image)), TargetOffset(image), snapshot, NextHeader(image, snapshot), steps);
            && (ValidRecord(after, TargetSlot(image)) <==> PAYLOAD_SIZE + COMMIT_END <= steps)
            && (ValidRecord(after, TargetSlot(image)) ==>
                  && PayloadOf(RecordBytes(after, TargetSlot(image))) == snapshot
                  && Le32(RecordBytes(after, TargetSlot(image)), SEQUENCE_OFFSET) == NextSequence(Best(SlotsOf(image), SLOTS)))
  {
    TargetCleared(image);
    NextIsWord(image);
    hide Cleared, Recorded, Best, NextSequence, SlotsOf, Committed, RecordPart, Header, TargetSlot;
    RecordedIs(Cleared(image, EraseSteps(image)), TargetSlot(image), snapshot, NextHeader(image, snapshot), steps);
    PartCommitted(snapshot, NextSequence(Best(SlotsOf(image), SLOTS)), steps);
  }

  class Journal {
    const bytes: array<byte>
    var budget: nat // flash steps still to happen before power fails or the flash stops answering

    constructor (flash: array<byte>, budget: nat)
      ensures bytes == flash && this.budget == budget
    {
      bytes := flash;
      this.budget := budget;
    }

    method IsValidRecord(slot: nat) returns (sequence: Option<nat>)
      ensures sequence.Some? <==> ValidRecord(bytes[..], slot)
      ensures sequence.Some? ==> sequence.value == Le32(RecordBytes(bytes[..], slot), SEQUENCE_OFFSET)
    {
      var offset := SlotOffset(slot);
      if bytes.Length < offset + RECORD_SIZE {
        return None;
      }
      hide Le32, Committed;
      var record := bytes[offset..offset + RECORD_SIZE];
      assert record == RecordBytes(bytes[..], slot);
      var committed := IsCommitted(record);
      sequence := if committed then Some(Le32(record, SEQUENCE_OFFSET)) else None;
    }

    static method IsCommitted(record: seq<byte>) returns (ok: bool)
      requires |record| == RECORD_SIZE
      ensures ok == Committed(record)
    {
      hide Le32, Crc32.ChecksumWord;
      if Le32(record, MAGIC_OFFSET) != MAGIC || Le32(record, VERSION_OFFSET) != FORMAT_VERSION ||
         Le32(record, HEADER_SIZE_OFFSET) != HEADER_SIZE || Le32(record, PAYLOAD_SIZE_OFFSET) != PAYLOAD_SIZE ||
         Le32(record, COMMIT_OFFSET) != COMMITTED {
        return false;
      }
      var crc := Crc32.Compute(PayloadOf(record));
      ok := crc == Le32(record, CRC_OFFSET);
    }

    method IsSlotErased(slot: nat) returns (erased: bool)
      ensures erased == SlotErased(bytes[..], slot)
    {
      var offset := SlotOffset(slot);
      if bytes.Length < offset + SLOT_SIZE {
        return false;
      }
      var i := 0;
      while i < SLOT_SIZE
        invariant 0 <= i <= SLOT_SIZE
        invariant forall k :: offset <= k < offset + i ==> bytes[k] == ERASED
      {
        if bytes[offset + i] != ERASED {
          return false;
        }
        i := i + 1;
      }
      erased := true;
    }

    method Scan() returns (newest: Newest)
      ensures newest == Best(SlotsOf(bytes[..]), SLOTS)
    {
      hide ValidRecord, RecordBytes, Le32, SlotErased, SlotsOf;
      ghost var slots := SlotsOf(bytes[..]);
      newest := NoRecord;
      var slot := 0;
      while slot < SLOTS
        invariant 0 <= slot <= SLOTS && newest == Best(slots, slot)
      {
        var candidate := IsValidRecord(slot);
        assert slots[slot] == SlotState(bytes[..], slot);
        if candidate.Some? && (newest.NoRecord? || Newer(candidate.value, newest.sequence)) {
          newest := Record(candidate.value, slot);
        }
        slot := slot + 1;
      }
    }

    method Restore(destinationSize: nat) returns (snapshot: Option<seq<byte>>)
      ensures snapshot == if destinationSize == PAYLOAD_SIZE then Restored(bytes[..]) else None
    {
      if destinationSize != PAYLOAD_SIZE {
        return None;
      }
      var record := Scan();
      if record.NoRecord? {
        return None;
      }
      var payload := SlotOffset(record.slot) + HEADER_SIZE;
      assert ValidRecord(bytes[..], record.slot);
      assert bytes[payload..payload + PAYLOAD_SIZE] == PayloadOf(RecordBytes(bytes[..], record.slot));
      snapshot := Some(bytes[payload..payload + PAYLOAD_SIZE]);
    }

    method Erase(offset: nat, size: nat) returns (ok: bool)
      requires size % SECTOR == 0 && offset + size <= bytes.Length
      modifies bytes, `budget
      ensures bytes[..] == Overlay(old(bytes[..]), offset, Repeat(ERASED, Min(old(budget), size / SECTOR) * SECTOR))
      ensures budget == old(budget) - Min(old(budget), size / SECTOR) && (ok <==> size / SECTOR <= old(budget))
    {
      var done := 0;
      while done < size / SECTOR && 0 < budget
        invariant 0 <= done <= size / SECTOR && done <= old(budget) && budget == old(budget) - done
        invariant bytes[..] == Overlay(old(bytes[..]), offset, Repeat(ERASED, done * SECTOR))
      {
        EraseSector(offset + done * SECTOR);
        budget := budget - 1;
        done := done + 1;
      }
      ok := done == size / SECTOR;
    }

    method EraseSector(at: nat)
      requires at + SECTOR <= bytes.Length
      modifies bytes
      ensures bytes[..] == Overlay(old(bytes[..]), at, Repeat(ERASED, SECTOR))
    {
      var i := 0;
      while i < SECTOR
        invariant 0 <= i <= SECTOR && bytes[..] == Overlay(old(bytes[..]), at, Repeat(ERASED, i))
      {
        bytes[at + i] := ERASED;
        i := i + 1;
      }
    }

    method Program(offset: nat, data: seq<byte>) returns (ok: bool)
      requires offset + |data| <= bytes.Length
      modifies bytes, `budget
      ensures bytes[..] == ProgramOver(old(bytes[..]), offset, data[..Min(old(budget), |data|)])
      ensures budget == old(budget) - Min(old(budget), |data|) && (ok <==> |data| <= old(budget))
    {
      var i := 0;
      while i < |data| && 0 < budget
        invariant 0 <= i <= |data| && i <= old(budget) && budget == old(budget) - i
        invariant bytes[..] == ProgramOver(old(bytes[..]), offset, data[..i])
      {
        assert bytes[..][offset + i] == old(bytes[..])[offset + i];
        bytes[offset + i] := Programmed(bytes[offset + i], data[i]);
        budget := budget - 1;
        i := i + 1;
      }
      ok := i == |data|;
    }

    method FindTarget(previous: Newest) returns (target: nat, reclaim: bool)
      requires previous == Best(SlotsOf(bytes[..]), SLOTS)
      ensures (target, reclaim) == Target(SlotsOf(bytes[..]))
    {
      ghost var slots := SlotsOf(bytes[..]);
      var first := FirstSlot(previous);
      var step := 0;
      while step < SLOTS
        invariant 0 <= step <= SLOTS && ErasedFrom(slots, first, 0) == ErasedFrom(slots, first, step)
      {
        var erased := IsSlotErased(At(first, step));
        ErasedState(bytes[..], At(first, step));
        hide SlotErased, ValidRecord, Best;
        if erased {
          return At(first, step), false;
        }
        step := step + 1;
      }
      target, reclaim := first, true;
    }

    // The append: find room, clear it if it must be reclaimed, payload, header, read back.
    method Append(snapshot: seq<byte>) returns (written: Newest)
      modifies bytes, `budget
      ensures |snapshot| != PAYLOAD_SIZE || !HasJournal(old(bytes[..])) ==> written.NoRecord? && bytes[..] == old(bytes[..])
      ensures |snapshot| == PAYLOAD_SIZE && HasJournal(old(bytes[..])) ==>
                bytes[..] == Outcome(old(bytes[..]), snapshot, old(budget))
      ensures |snapshot| == PAYLOAD_SIZE && HasJournal(old(bytes[..])) ==>
                written == if AppendSteps(old(bytes[..])) <= old(budget) then NextRecord(old(bytes[..])) else NoRecord
    {
      if |snapshot| != PAYLOAD_SIZE || bytes.Length < SAVE_OFFSET + SAVE_SIZE {
        return NoRecord;
      }
      hide Outcome, AppendSteps, NextRecord, SlotsOf;
      written := AppendInside(snapshot);
    }

    method AppendInside(snapshot: seq<byte>) returns (written: Newest)
      requires |snapshot| == PAYLOAD_SIZE && HasJournal(bytes[..])
      modifies bytes, `budget
      ensures bytes[..] == Outcome(old(bytes[..]), snapshot, old(budget))
      ensures written == if AppendSteps(old(bytes[..])) <= old(budget) then NextRecord(old(bytes[..])) else NoRecord
    {
      hide Best, SlotsOf, SlotState, Target, Outcome, AppendSteps, NextRecord;
      var previous := Scan();
      var target, reclaim := FindTarget(previous);
      written := AppendAt(bytes[..], snapshot, previous, target, reclaim);
    }

    method AppendAt(ghost before: seq<byte>, snapshot: seq<byte>, previous: Newest, target: nat, reclaim: bool)
      returns (written: Newest)
      requires before == bytes[..] && |snapshot| == PAYLOAD_SIZE && HasJournal(before)
      requires previous == Best(SlotsOf(before), SLOTS) && (target, reclaim) == Target(SlotsOf(before))
      modifies bytes, `budget
      ensures bytes[..] == Outcome(before, snapshot, old(budget))
      ensures written == if AppendSteps(before) <= old(budget) then NextRecord(before) else NoRecord
    {
      hide Best, SlotsOf, Target, Cleared, Recorded, EraseSteps, NextHeader, TargetOffset, Outcome, AppendSteps, NextRecord;
      var cleared := Reclaim(before, target, reclaim);
      if !cleared {
        OutcomeStages(before, snapshot, old(budget));
        return NoRecord;
      }
      OutcomeRest(before, snapshot, old(budget), budget);
      written := WriteRecord(before, snapshot, previous, target);
    }

    // Only a reclaimed slot is erased.
    method Reclaim(ghost before: seq<byte>, target: nat, reclaim: bool) returns (ok: bool)
      requires before == bytes[..] && HasJournal(before) && (target, reclaim) == Target(SlotsOf(before))
      modifies bytes, `budget
      ensures ok <==> EraseSteps(before) <= old(budget)
      ensures ok ==> bytes[..] == Cleared(before, EraseSteps(before)) && budget == old(budget) - EraseSteps(before)
      ensures !ok ==> bytes[..] == Cleared(before, old(budget))
    {
      hide Best, SlotsOf, Target, Overlay, Repeat;
      SlotInside(before, target);
      if reclaim {
        SlotSectors();
        ok := Erase(SlotOffset(target), SLOT_SIZE);
      } else {
        OverlayNothing(before, SlotOffset(target));
        ok := true;
      }
    }

    method WriteRecord(ghost before: seq<byte>, snapshot: seq<byte>, previous: Newest, target: nat) returns (written: Newest)
      requires |snapshot| == PAYLOAD_SIZE && HasJournal(before) && bytes.Length == |before|
      requires previous == Best(SlotsOf(before), SLOTS) && target == TargetSlot(before)
      requires bytes[..] == Cleared(before, EraseSteps(before))
      modifies bytes, `budget
      ensures bytes[..] == Recorded(Cleared(before, EraseSteps(before)), TargetOffset(before), snapshot,
                                    NextHeader(before, snapshot), old(budget))
      ensures written == if PAYLOAD_SIZE + HEADER_SIZE <= old(budget) then NextRecord(before) else NoRecord
    {
      hide Best, SlotsOf, Target, Header, Cleared;
      written := NoRecord;
      var sequence := NextSequence(previous);
      var offset := SlotOffset(target);
      TargetCleared(before);
      SlotInside(before, target);
      var header := Header(sequence, snapshot);
      var ok := WritePayloadThenHeader(offset, snapshot, header);
      if !ok {
        return;
      }
      RecordedValid(before, snapshot, PAYLOAD_SIZE + HEADER_SIZE);
      var verified := IsValidRecord(target);
      if verified.None? || verified.value != sequence {
        return;
      }
      written := Record(sequence, target);
    }

    method WritePayloadThenHeader(offset: nat, snapshot: seq<byte>, header: seq<byte>) returns (ok: bool)
      requires |snapshot| == PAYLOAD_SIZE && |header| == HEADER_SIZE && offset + RECORD_SIZE <= bytes.Length
      requires forall i :: offset <= i < offset + RECORD_SIZE ==> bytes[i] == ERASED
      modifies bytes, `budget
      ensures bytes[..] == Recorded(old(bytes[..]), offset, snapshot, header, old(budget))
      ensures ok <==> PAYLOAD_SIZE + HEADER_SIZE <= old(budget)
    {
      ghost var m := Min(budget, PAYLOAD_SIZE);
      ProgramErasedRange(bytes[..], offset + HEADER_SIZE, snapshot[..m]);
      ok := Program(offset + HEADER_SIZE, snapshot);
      ghost var h := Min(budget, HEADER_SIZE);
      if !ok {
        OverlayNothing(bytes[..], offset);
        return;
      }
      ProgramErasedRange(bytes[..], offset, header[..h]);
      ok := Program(offset, header);
    }
  }

  // An append touches its target slot only.
  lemma OutcomeElsewhere(image: seq<byte>, snapshot: seq<byte>, budget: nat)
    requires HasJournal(image) && |snapshot| == PAYLOAD_SIZE
    ensures var at := TargetOffset(image);
            forall i :: 0 <= i < |image| && !(at <= i < at + SLOT_SIZE) ==> Outcome(image, snapshot, budget)[i] == image[i]
  {}

  lemma SameSlot(image: seq<byte>, image': seq<byte>, slot: nat)
    requires |image| == |image'| && SlotOffset(slot) + SLOT_SIZE <= |image|
    requires forall i :: SlotOffset(slot) <= i < SlotOffset(slot) + SLOT_SIZE ==> image[i] == image'[i]
    ensures RecordBytes(image, slot) == RecordBytes(image', slot) && SlotState(image, slot) == SlotState(image', slot)
  {
    hide Committed, Le32;
    assert RecordBytes(image, slot) == RecordBytes(image', slot);
  }

  ghost predicate SameRecord(image: seq<byte>, image': seq<byte>, slot: nat) {
    SlotOffset(slot) + RECORD_SIZE <= |image| == |image'| && RecordBytes(image, slot) == RecordBytes(image', slot)
  }

  lemma OtherSlots(image: seq<byte>, snapshot: seq<byte>, budget: nat)
    requires HasJournal(image) && |snapshot| == PAYLOAD_SIZE
    ensures var after, t := Outcome(image, snapshot, budget), TargetSlot(image);
            && SlotsOf(after) == SlotsOf(image)[t := SlotState(after, t)]
            && forall q: nat :: q < SLOTS && q != t ==> SameRecord(image, after, q)
  {
    hide Outcome, SlotState, Target, RecordBytes, Best;
    var after, t := Outcome(image, snapshot, budget), TargetSlot(image);
    OutcomeElsewhere(image, snapshot, budget);
    forall q: nat | q < SLOTS && q != t
      ensures SameRecord(image, after, q) && SlotState(after, q) == SlotState(image, q)
    {
      SlotsApart(q, t);
      SlotInside(image, q);
      SameSlot(image, after, q);
    }
  }

  lemma SlotsApart(q: nat, t: nat)
    requires q != t
    ensures SlotOffset(q) + SLOT_SIZE <= SlotOffset(t) || SlotOffset(t) + SLOT_SIZE <= SlotOffset(q)
  {}

  // The target slot after a cut: nothing happened, or its record is gone, or it is the new one.
  lemma TargetAfter(image: seq<byte>, snapshot: seq<byte>, budget: nat)
    requires HasJournal(image) && |snapshot| == PAYLOAD_SIZE
    ensures var after, t := Outcome(image, snapshot, budget), TargetSlot(image);
            && (Commits(image, budget) ==> && SlotState(after, t) == Valid(NextSequence(Best(SlotsOf(image), SLOTS)))
                                           && PayloadOf(RecordBytes(after, t)) == snapshot)
            && (!Commits(image, budget) ==> after == image || !SlotState(after, t).Valid?)
  {
    OutcomeStages(image, snapshot, budget);
    hide Outcome;
    if EraseSteps(image) <= budget {
      RecordedState(image, snapshot, budget - EraseSteps(image));
    } else if budget == 0 {
      ClearedNothing(image);
    } else {
      ClearedBlank(image, budget);
    }
    hide Cleared, Recorded, EraseSteps, SlotState, TargetSlot, NextHeader, SlotsOf, RecordBytes;
  }

  lemma RecordedState(image: seq<byte>, snapshot: seq<byte>, steps: nat)
    requires HasJournal(image) && |snapshot| == PAYLOAD_SIZE
    ensures var after := Recorded(Cleared(image, EraseSteps(image)), TargetOffset(image), snapshot, NextHeader(image, snapshot), steps);
            && (PAYLOAD_SIZE + COMMIT_END <= steps ==>
                  && SlotState(after, TargetSlot(image)) == Valid(NextSequence(Best(SlotsOf(image), SLOTS)))
                  && PayloadOf(RecordBytes(after, TargetSlot(image))) == snapshot)
            && (steps < PAYLOAD_SIZE + COMMIT_END ==> !SlotState(after, TargetSlot(image)).Valid?)
  {
    hide Recorded, Cleared, Best, EraseSteps, Committed, Le32, TargetSlot, NextHeader, SlotErased;
    RecordedValid(image, snapshot, steps);
  }

  lemma ClearedNothing(image: seq<byte>)
    requires HasJournal(image)
    ensures Cleared(image, 0) == image
  {
    hide TargetOffset;
    OverlayNothing(image, TargetOffset(image));
    assert Repeat(ERASED, 0 * SECTOR) == [];
  }

  // The header goes with the first sector.
  lemma ClearedBlank(image: seq<byte>, sectors: nat)
    requires HasJournal(image) && 1 <= sectors <= SLOT_SECTORS
    ensures !SlotState(Cleared(image, sectors), TargetSlot(image)).Valid?
  {
    hide Best, Committed, TargetSlot, SlotErased;
    BlankHeader(RecordBytes(Cleared(image, sectors), TargetSlot(image)));
  }

  // Whatever the cut, a restore finds the complete new snapshot or what it found before.
  lemma CutSafe(image: seq<byte>, snapshot: seq<byte>, budget: nat)
    requires HasJournal(image) && |snapshot| == PAYLOAD_SIZE && Ordered(SlotsOf(image))
    ensures Restored(Outcome(image, snapshot, budget)) == if Commits(image, budget) then Some(snapshot) else Restored(image)
  {
    hide Outcome, Best, EraseSteps, Commits, SlotState, Ordered, RecordBytes, Target, Committed;
    var after, t := Outcome(image, snapshot, budget), TargetSlot(image);
    var slots, slots' := SlotsOf(image), SlotsOf(after);
    OtherSlots(image, snapshot, budget);
    TargetAfter(image, snapshot, budget);
    if Commits(image, budget) {
      CommitFound(slots, slots');
    } else if after != image {
      CutFound(slots, t, SlotState(after, t));
      var best := Best(slots, SLOTS);
      if best.Record? {
        TargetSpares(slots);
        assert SameRecord(image, after, best.slot);
      }
    }
  }

  // On any image, whatever its sequence numbers: after a commit the new record is the one found exactly when
  // it outranks the rest, and after a cut the old one is still found exactly when the lost slot cannot be told.
  lemma CutExact(image: seq<byte>, snapshot: seq<byte>, budget: nat)
    requires HasJournal(image) && |snapshot| == PAYLOAD_SIZE
    ensures var after, slots, t := Outcome(image, snapshot, budget), SlotsOf(image), TargetSlot(image);
            var n := NextSequence(Best(slots, SLOTS));
            if Commits(image, budget) then
              && (Best(SlotsOf(after), SLOTS) == Record(n, t) <==> Outranks(slots, t, n, SLOTS))
              && (Outranks(slots, t, n, SLOTS) ==> Restored(after) == Some(snapshot))
            else
              after != image ==>
                && (Best(SlotsOf(after), SLOTS) == Best(slots, SLOTS) <==> Survives(slots, t))
                && (Survives(slots, t) ==> Restored(after) == Restored(image))
  {
    hide Outcome, Best, EraseSteps, Commits, SlotState, RecordBytes, Target, Committed, Outranks, Survives;
    var after, slots, t := Outcome(image, snapshot, budget), SlotsOf(image), TargetSlot(image);
    OtherSlots(image, snapshot, budget);
    TargetAfter(image, snapshot, budget);
    var best := Best(slots, SLOTS);
    if best.Record? {
      TargetSpares(slots);
      assert SameRecord(image, after, best.slot);
    }
    if Commits(image, budget) {
      CommitExact(slots, t, NextSequence(best));
    } else if after != image {
      LossExact(slots, t, SlotState(after, t));
    }
  }

  // One save attempt: a snapshot, and how many flash steps it was given.
  datatype Attempt = Attempt(snapshot: seq<byte>, budget: nat)

  ghost predicate WholeSnapshots(attempts: seq<Attempt>) {
    forall a <- attempts :: |a.snapshot| == PAYLOAD_SIZE
  }

  // The device after a run of attempts, each completed or cut short.
  ghost function Run(image: seq<byte>, attempts: seq<Attempt>): (r: seq<byte>)
    requires HasJournal(image) && WholeSnapshots(attempts)
    ensures |r| == |image|
  {
    if attempts == [] then image
    else
      var last := |attempts| - 1;
      Outcome(Run(image, attempts[..last]), attempts[last].snapshot, attempts[last].budget)
  }

  // The snapshot of the last attempt that got as far as its commit word.
  ghost function LastCommitted(image: seq<byte>, attempts: seq<Attempt>): Option<seq<byte>>
    requires HasJournal(image) && WholeSnapshots(attempts)
  {
    if attempts == [] then None
    else
      var last := |attempts| - 1;
      if Commits(Run(image, attempts[..last]), attempts[last].budget) then Some(attempts[last].snapshot)
      else LastCommitted(image, attempts[..last])
  }

  ghost predicate JournalErased(image: seq<byte>) {
    HasJournal(image) && forall q :: 0 <= q < SLOTS ==> SlotErased(image, q)
  }

  lemma AttemptRolls(image: seq<byte>, snapshot: seq<byte>, budget: nat)
    requires HasJournal(image) && |snapshot| == PAYLOAD_SIZE && Rolling(SlotsOf(image))
    ensures Rolling(SlotsOf(Outcome(image, snapshot, budget)))
  {
    var after, t := Outcome(image, snapshot, budget), TargetSlot(image);
    OtherSlots(image, snapshot, budget);
    TargetAfter(image, snapshot, budget);
    hide Outcome, Best, EraseSteps, Commits, SlotState, Rolling, RecordBytes, Target;
    if Commits(image, budget) {
      CommitRolls(SlotsOf(image), SlotsOf(after));
    } else if after != image {
      CutRolls(SlotsOf(image), t, SlotState(after, t));
    }
  }

  // From an erased journal, after any run of completed, failed and interrupted saves, the records are at
  // most three steps behind the newest,
  lemma {:induction false} RunRolls(image: seq<byte>, attempts: seq<Attempt>)
    requires JournalErased(image) && WholeSnapshots(attempts)
    ensures Rolling(SlotsOf(Run(image, attempts)))
  {
    if attempts == [] {
      forall q: nat | q < SLOTS
        ensures SlotState(image, q).Erased?
      {
        ErasedState(image, q);
      }
    } else {
      var last := |attempts| - 1;
      hide Outcome, Rolling, JournalErased;
      RunRolls(image, attempts[..last]);
      AttemptRolls(Run(image, attempts[..last]), attempts[last].snapshot, attempts[last].budget);
    }
  }

  // and a restore yields exactly the last snapshot that was committed, whatever came after it.
  lemma {:induction false} RunRestores(image: seq<byte>, attempts: seq<Attempt>)
    requires JournalErased(image) && WholeSnapshots(attempts)
    ensures Restored(Run(image, attempts)) == LastCommitted(image, attempts)
  {
    hide Rolling, Outcome, Commits;
    RunRolls(image, attempts);
    if attempts == [] {
      forall q: nat | q < SLOTS
        ensures SlotState(image, q).Erased?
      {
        ErasedState(image, q);
      }
    } else {
      hide Restored, SlotState, JournalErased;
      var last := |attempts| - 1;
      RunRestores(image, attempts[..last]);
      RunRolls(image, attempts[..last]);
      RollingOrdered(SlotsOf(Run(image, attempts[..last])));
      CutSafe(Run(image, attempts[..last]), attempts[last].snapshot, attempts[last].budget);
    }
  }

  // Completed saves alone: record k is in slot k modulo 4 under sequence number k, wrapped at 2^32, and the
  // first slot is reclaimed when the fifth one comes.
  lemma {:induction false} RunTurns(image: seq<byte>, attempts: seq<Attempt>)
    requires JournalErased(image) && WholeSnapshots(attempts)
    requires forall a <- attempts :: SLOT_SECTORS + PAYLOAD_SIZE + HEADER_SIZE <= a.budget
    ensures SlotsOf(Run(image, attempts)) == Turns(|attempts|)
  {
    hide Outcome, SlotState, SlotErased, Turns, Commits, Target, Best;
    if attempts == [] {
      ErasedTurns(image);
    } else {
      var last := |attempts| - 1;
      var before := Run(image, attempts[..last]);
      RunTurns(image, attempts[..last]);
      OtherSlots(before, attempts[last].snapshot, attempts[last].budget);
      TargetAfter(before, attempts[last].snapshot, attempts[last].budget);
      EnoughCommits(before, attempts[last].budget);
      NextInTurn(last);
    }
  }

  lemma EnoughCommits(image: seq<byte>, budget: nat)
    requires SLOT_SECTORS + PAYLOAD_SIZE + HEADER_SIZE <= budget
    ensures Commits(image, budget)
  {
    hide SlotsOf, Target;
  }

  lemma ErasedTurns(image: seq<byte>)
    requires JournalErased(image)
    ensures SlotsOf(image) == Turns(0)
  {
    hide SlotState;
    forall q: nat | q < SLOTS
      ensures SlotState(image, q).Erased?
    {
      ErasedState(image, q);
    }
  }

  // A valid record whose payload is then damaged inside four consecutive bytes is no longer valid.
  lemma DamageRejected(record: seq<byte>, damaged: seq<byte>, p: nat, w: nat)
    requires |record| == RECORD_SIZE == |damaged| && w <= 4 && Committed(record)
    requires record[..HEADER_SIZE] == damaged[..HEADER_SIZE]
    requires Crc32.DifferWithin(PayloadOf(record), PayloadOf(damaged), p, w)
    ensures Committed(damaged) <==> damaged == record
  {
    hide Le32;
    Crc32.WindowDetected(PayloadOf(record), PayloadOf(damaged), p, w);
    SameWord(record, record[..HEADER_SIZE], CRC_OFFSET);
    SameWord(damaged, damaged[..HEADER_SIZE], CRC_OFFSET);
    if Committed(damaged) {
      Crc32.ChecksumWordInjective(PayloadOf(record), PayloadOf(damaged));
      assert record == record[..HEADER_SIZE] + PayloadOf(record);
      assert damaged == damaged[..HEADER_SIZE] + PayloadOf(damaged);
    }
  }

  // A record as it lies in the flash, byte for byte: the characters SFX3, version 1, header size 256, the
  // sequence number, payload size 128 KiB, the checksum, the characters CMIT, and the payload after 256 bytes.
  ghost predicate Written(image: seq<byte>, slot: nat, sequence: nat, snapshot: seq<byte>) {
    var at := 0x7_C000 + slot * 0x2_1000;
    && at + 0x2_0100 <= |image|
    && Spells(image[at..at + 0x2_0100], sequence, snapshot)
  }

  ghost predicate Spells(record: seq<byte>, sequence: nat, snapshot: seq<byte>)
    requires |record| == 0x2_0100
  {
    && record[0..4] == [0x53, 0x46, 0x58, 0x33] && record[4..8] == [1, 0, 0, 0] && record[8..12] == [0, 1, 0, 0]
    && Base256(record[12..16]) == sequence && record[16..20] == [0, 0, 2, 0]
    && Base256(record[20..24]) == Crc32.ChecksumWord(snapshot) && record[24..28] == [0x43, 0x4D, 0x49, 0x54]
    && record[0x100..] == snapshot
  }

  // Words are equal exactly when their bytes are.
  lemma WordIs(record: seq<byte>, k: nat, word: nat, bytes: seq<byte>)
    requires k + 4 <= |record| && |bytes| == 4 && Base256(bytes) == word
    ensures Le32(record, k) == word <==> record[k..k + 4] == bytes
  {
    hide Le32, Base256;
    ReadsLowestFirst(record, k);
    if Le32(record, k) == word {
      SpellingUnique(record[k..k + 4], bytes);
    }
  }

  // The constants of the format as bytes.
  lemma FormatBytes()
    ensures Base256([0x53, 0x46, 0x58, 0x33]) == MAGIC && Base256([1, 0, 0, 0]) == FORMAT_VERSION
    ensures Base256([0, 1, 0, 0]) == HEADER_SIZE && Base256([0, 0, 2, 0]) == PAYLOAD_SIZE
    ensures Base256([0x43, 0x4D, 0x49, 0x54]) == COMMITTED
  {
    Spelled32(0x53, 0x46, 0x58, 0x33);
    Spelled32(1, 0, 0, 0);
    Spelled32(0, 1, 0, 0);
    Spelled32(0, 0, 2, 0);
    Spelled32(0x43, 0x4D, 0x49, 0x54);
    hide Base256;
  }

  lemma CommittedBytes(record: seq<byte>)
    requires |record| == RECORD_SIZE
    ensures Committed(record) <==>
            && record[0..4] == [0x53, 0x46, 0x58, 0x33] && record[4..8] == [1, 0, 0, 0] && record[8..12] == [0, 1, 0, 0]
            && record[16..20] == [0, 0, 2, 0] && record[24..28] == [0x43, 0x4D, 0x49, 0x54]
            && Base256(record[20..24]) == Crc32.ChecksumWord(record[0x100..])
    ensures Le32(record, SEQUENCE_OFFSET) == Base256(record[12..16])
  {
    hide Le32, Base256, Crc32.ChecksumWord;
    FormatBytes();
    WordIs(record, 0, MAGIC, [0x53, 0x46, 0x58, 0x33]);
    WordIs(record, 4, FORMAT_VERSION, [1, 0, 0, 0]);
    WordIs(record, 8, HEADER_SIZE, [0, 1, 0, 0]);
    WordIs(record, 16, PAYLOAD_SIZE, [0, 0, 2, 0]);
    WordIs(record, 24, COMMITTED, [0x43, 0x4D, 0x49, 0x54]);
    ReadsLowestFirst(record, 20);
    ReadsLowestFirst(record, 12);
  }

  // What the scan takes for a record is exactly such bytes,
  lemma RecordOnFlash(image: seq<byte>, slot: nat, sequence: nat, snapshot: seq<byte>)
    ensures Written(image, slot, sequence, snapshot) <==>
            && ValidRecord(image, slot) && Le32(RecordBytes(image, slot), SEQUENCE_OFFSET) == sequence
            && PayloadOf(RecordBytes(image, slot)) == snapshot
  {
    hide Committed, Le32, Spells;
    var at := 0x7_C000 + slot * 0x2_1000;
    assert at == SlotOffset(slot) && RECORD_SIZE == 0x2_0100;
    if at + 0x2_0100 <= |image| {
      SpelledCommitted(RecordBytes(image, slot), sequence, snapshot);
    }
  }

  lemma SpelledCommitted(record: seq<byte>, sequence: nat, snapshot: seq<byte>)
    requires |record| == RECORD_SIZE
    ensures Spells(record, sequence, snapshot) <==>
            Committed(record) && Le32(record, SEQUENCE_OFFSET) == sequence && PayloadOf(record) == snapshot
  {
    hide Committed, Le32, Base256, Crc32.ChecksumWord;
    CommittedBytes(record);
  }

  // a restore hands back the payload of one of them, and none only if there is none,
  lemma RestoredIsWritten(image: seq<byte>)
    ensures Restored(image).Some? ==>
              exists slot: nat, sequence: nat :: slot < SLOTS && Written(image, slot, sequence, Restored(image).value)
    ensures Restored(image).None? ==>
              forall slot: nat, sequence: nat, snapshot: seq<byte> :: slot < SLOTS ==> !Written(image, slot, sequence, snapshot)
  {
    hide Written, ValidRecord, RecordBytes, Le32, SlotErased;
    var best := Best(SlotsOf(image), SLOTS);
    if best.Record? {
      assert SlotState(image, best.slot).Valid?;
      RecordOnFlash(image, best.slot, best.sequence, Restored(image).value);
    } else {
      forall slot: nat, sequence: nat, snapshot: seq<byte> | slot < SLOTS
        ensures !Written(image, slot, sequence, snapshot)
      {
        RecordOnFlash(image, slot, sequence, snapshot);
        assert SlotsOf(image)[slot] == SlotState(image, slot);
      }
    }
  }

  // and a committed append leaves them in its slot.
  lemma AppendWrites(image: seq<byte>, snapshot: seq<byte>, budget: nat)
    requires HasJournal(image) && |snapshot| == PAYLOAD_SIZE && Commits(image, budget)
    ensures Written(Outcome(image, snapshot, budget), TargetSlot(image), NextSequence(Best(SlotsOf(image), SLOTS)), snapshot)
  {
    hide Written, ValidRecord, RecordBytes, Le32, SlotErased, Best, SlotsOf, NextSequence, TargetSlot, Recorded, Cleared, NextHeader;
    RecordedValid(image, snapshot, budget - EraseSteps(image));
    RecordOnFlash(Outcome(image, snapshot, budget), TargetSlot(image), NextSequence(Best(SlotsOf(image), SLOTS)), snapshot);
  }
}
