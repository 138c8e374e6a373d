/** The staging half of the ROM installer (src/storage/snes_rom_installer.cpp): uploaded pages are
  * kept in the NOR flash and four RAM pages behind a one-sector write-back buffer, then put into
  * file order and slid over a copier header in place. */
module RomStaging {
  import opened Bytes
  import opened RomLayout
  import opened ParallelRom

  // Four RAM pages hold what the flash has no room for.
  const SPILL: nat := 0x4000

  datatype Status = Idle | Receiving | Ready | Programming | Complete
                  | InvalidFile | UnsupportedFlash | FlashError | Aborted

  // The start of the sector that follows the last byte below end.
  function SectorCeil(end: nat): (r: nat)
    ensures end <= r < end + SECTOR && r % SECTOR == 0
  {
    (end + SECTOR - 1) / SECTOR * SECTOR
  }

  lemma CeilCovers(sectorAddress: nat, end: nat)
    requires sectorAddress % SECTOR == 0 && sectorAddress < end
    ensures sectorAddress + SECTOR <= SectorCeil(end)
  {}

  // size bytes moved from source to destination; what else the rewritten sectors held is gone.
  function Slide(image: seq<byte>, source: nat, size: nat, destination: nat): (r: seq<byte>)
    requires source + size <= |image|
    ensures |r| == |image|
  {
    seq(|image|, i requires 0 <= i < |image| =>
      if destination <= i < destination + size then image[source + i - destination]
      else if destination - destination % SECTOR <= i < SectorCeil(destination + size) then 0xFF
      else image[i])
  }

  lemma SlideLands(image: seq<byte>, source: nat, size: nat, destination: nat)
    requires source + size <= |image| && destination + size <= |image|
    ensures Slide(image, source, size, destination)[destination..destination + size] == image[source..source + size]
  {}

  // The region rewritten after some steps of the move over sectorCount sectors.
  ghost predicate Moved(firstSector: nat, sectorCount: nat, step: nat, descending: bool, i: int) {
    if descending then firstSector + (sectorCount - step) * SECTOR <= i < firstSector + sectorCount * SECTOR
    else firstSector <= i < firstSector + step * SECTOR
  }

  function SectorAt(firstSector: nat, sectorCount: nat, step: nat, descending: bool): nat
    requires step < sectorCount
  {
    firstSector + (if descending then sectorCount - 1 - step else step) * SECTOR
  }

  ghost predicate SlideProgress(before: seq<byte>, now: seq<byte>, slid: seq<byte>, firstSector: nat, sectorCount: nat,
                                step: nat, descending: bool)
  {
    && |now| == |before| == |slid|
    && forall i :: 0 <= i < |now| ==>
         now[i] == if Moved(firstSector, sectorCount, step, descending, i) then slid[i] else before[i]
  }

  lemma SlideNext(before: seq<byte>, now: seq<byte>, slid: seq<byte>, firstSector: nat, sectorCount: nat, step: nat,
                  descending: bool)
    requires step < sectorCount && firstSector + sectorCount * SECTOR <= |now|
    requires SlideProgress(before, now, slid, firstSector, sectorCount, step, descending)
    ensures var s := SectorAt(firstSector, sectorCount, step, descending);
            SlideProgress(before, Overlay(now, s, slid[s..s + SECTOR]), slid, firstSector, sectorCount, step + 1, descending)
  {
    var s := SectorAt(firstSector, sectorCount, step, descending);
    forall i | 0 <= i < |now|
      ensures Moved(firstSector, sectorCount, step + 1, descending, i) <==>
              Moved(firstSector, sectorCount, step, descending, i) || s <= i < s + SECTOR
    {}
  }

  // One page of a flat image.
  function PageAt(image: seq<byte>, page: nat): (r: seq<byte>)
    requires (page + 1) * PAGE <= |image|
    ensures |r| == PAGE
  {
    image[page * PAGE..(page + 1) * PAGE]
  }

  ghost predicate Distinct(pages: seq<nat>) {
    forall i, j :: 0 <= i < j < |pages| ==> pages[i] != pages[j]
  }

  // After pages destination and pages[destination] changed places, a later reference to the
  // overwritten destination has to follow its bytes.
  function Redirect(pages: seq<nat>, destination: nat): (r: seq<nat>)
    requires destination < |pages|
    ensures |r| == |pages|
  {
    seq(|pages|, i requires 0 <= i < |pages| =>
      if destination < i && pages[i] == destination then pages[destination] else pages[i])
  }

  // The references still to be served stay distinct and never fall below the next destination.
  lemma RedirectKeeps(pages: seq<nat>, destination: nat)
    requires destination < |pages|
    requires Distinct(pages[destination..])
    requires forall i :: destination <= i < |pages| ==> destination <= pages[i]
    ensures Distinct(Redirect(pages, destination)[destination + 1..])
    ensures forall i :: destination < i < |pages| ==> destination < Redirect(pages, destination)[i]
  {
    var r, tail := Redirect(pages, destination), pages[destination..];
    forall i | destination < i < |pages|
      ensures r[i] != destination && destination <= r[i]
    {
      assert tail[0] == pages[destination] && tail[i - destination] == pages[i];
    }
    forall i, j | destination < i < j < |pages|
      ensures r[i] != r[j]
    {
      assert tail[i - destination] == pages[i] && tail[j - destination] == pages[j] && tail[0] == pages[destination];
    }
    var rest := r[destination + 1..];
    assert forall k :: 0 <= k < |rest| ==> rest[k] == r[destination + 1 + k];
  }

  // Two pages of an image changed places.
  ghost predicate PagesSwapped(before: seq<byte>, after: seq<byte>, a: nat, b: nat) {
    && |after| == |before| && (a + 1) * PAGE <= |before| && (b + 1) * PAGE <= |before|
    && PageAt(after, a) == PageAt(before, b) && PageAt(after, b) == PageAt(before, a)
    && forall p: nat :: p != a && p != b && (p + 1) * PAGE <= |before| ==> PageAt(after, p) == PageAt(before, p)
  }

  // Page i of the file is the page that was staged at pages[i].
  ghost predicate FileOrdered(staged: seq<byte>, file: seq<byte>, pages: seq<nat>) {
    && |file| == |staged| && |pages| * PAGE <= |staged|
    && forall i :: 0 <= i < |pages| ==>
         (pages[i] + 1) * PAGE <= |staged| && PageAt(file, i) == PageAt(staged, pages[i])
  }

  // The first d pages of the file are in place, and the references from there on still lead to
  // the bytes they named at the start without pointing below d.
  ghost predicate Placed(staged: seq<byte>, image: seq<byte>, refs: seq<nat>, pages: seq<nat>, d: nat) {
    && d <= |refs| == |pages| && FileOrdered(staged, image, pages[..d]) && Distinct(refs[d..])
    && forall i :: d <= i < |pages| ==>
         && d <= refs[i] && (refs[i] + 1) * PAGE <= |image| && (pages[i] + 1) * PAGE <= |staged|
         && PageAt(image, refs[i]) == PageAt(staged, pages[i])
  }

  lemma PlaceNext(staged: seq<byte>, before: seq<byte>, after: seq<byte>, refs: seq<nat>, pages: seq<nat>, d: nat)
    requires d < |refs| && Placed(staged, before, refs, pages, d) && |pages| * PAGE <= |staged|
    requires if refs[d] == d then after == before else PagesSwapped(before, after, d, refs[d])
    ensures Placed(staged, after, Redirect(refs, d), pages, d + 1)
  {
    RedirectKeeps(refs, d);
    var source, next := refs[d], Redirect(refs, d);
    forall i | 0 <= i <= d
      ensures (pages[i] + 1) * PAGE <= |staged| && PageAt(after, i) == PageAt(staged, pages[i])
    {
      if i < d {
        assert pages[..d][i] == pages[i];
      }
    }
    forall i | d < i < |pages|
      ensures (next[i] + 1) * PAGE <= |after| && PageAt(after, next[i]) == PageAt(staged, pages[i])
    {
      assert refs[d..][i - d] == refs[i] && refs[d..][0] == source;
      assert refs[i] != source;
      if refs[i] != d {
        assert next[i] == refs[i];
        assert source == d || PageAt(after, refs[i]) == PageAt(before, refs[i]);
      }
    }
    assert forall i :: 0 <= i < d + 1 ==> pages[..d + 1][i] == pages[i];
  }

  lemma PageOverlay(image: seq<byte>, at: nat, data: seq<byte>, p: nat)
    requires |data| == PAGE && (at + 1) * PAGE <= |image| && (p + 1) * PAGE <= |image|
    ensures PageAt(Overlay(image, at * PAGE, data), p) == if p == at then data else PageAt(image, p)
  {
    assert p < at ==> (p + 1) * PAGE <= at * PAGE;
    assert p > at ==> p * PAGE >= (at + 1) * PAGE;
  }

  // What a rewritten sector does not take from the source is erased.
  lemma SlideErases(image: seq<byte>, source: nat, size: nat, destination: nat, sectorAddress: nat, begin: nat, end: nat, goal: seq<byte>)
    requires source + size <= |image| && sectorAddress % SECTOR == 0 && sectorAddress + SECTOR <= |image|
    requires destination - destination % SECTOR <= sectorAddress < destination + size
    requires begin == if sectorAddress > destination then sectorAddress else destination
    requires end == if sectorAddress + SECTOR < destination + size then sectorAddress + SECTOR else destination + size
    requires goal == Slide(image, source, size, destination)[sectorAddress..sectorAddress + SECTOR]
    ensures forall i :: 0 <= i < SECTOR && !(begin - sectorAddress <= i < end - sectorAddress) ==> goal[i] == ERASED
  {
    CeilCovers(sectorAddress, destination + size);
    forall i | 0 <= i < SECTOR && !(begin - sectorAddress <= i < end - sectorAddress)
      ensures goal[i] == ERASED
    {
      assert goal[i] == Slide(image, source, size, destination)[sectorAddress + i];
    }
  }

  lemma SwapByOverlays(image: seq<byte>, a: nat, b: nat)
    requires a != b && (a + 1) * PAGE <= |image| && (b + 1) * PAGE <= |image|
    ensures PagesSwapped(image, Overlay(Overlay(image, a * PAGE, PageAt(image, b)), b * PAGE, PageAt(image, a)), a, b)
  {
    var first := Overlay(image, a * PAGE, PageAt(image, b));
    var after := Overlay(first, b * PAGE, PageAt(image, a));
    forall p: nat | (p + 1) * PAGE <= |image|
      ensures PageAt(after, p) ==
              if p == b then PageAt(image, a) else if p == a then PageAt(image, b) else PageAt(image, p)
    {
      PageOverlay(image, a, PageAt(image, b), p);
      PageOverlay(first, b, PageAt(image, a), p);
    }
  }

  class StagingArea {
    const rom: Device
    const spill: array<byte>
    const sectorBuffer: array<byte>
    const swap0: array<byte>
    const swap1: array<byte>
    var status: Status
    var fileSize: nat
    var uploadPages: seq<nat>
    var erasedSectors: set<nat>
    var stagingSector: nat
    var stagingDirty: bool
    // What a reader of the staging area sees: flash, spill pages and write-back buffer as one array.
    ghost var contents: seq<byte>
    // Flash sectors that some staged byte was written to.
    ghost var touched: set<nat>

    ghost predicate Shape() {
      && rom.Valid()
      && spill.Length == SPILL && sectorBuffer.Length == SECTOR
      && swap0.Length == PAGE && swap1.Length == PAGE
      && spill != rom.cells && sectorBuffer != rom.cells && swap0 != rom.cells && swap1 != rom.cells
      && spill != sectorBuffer && spill != swap0 && spill != swap1
      && sectorBuffer != swap0 && sectorBuffer != swap1 && swap0 != swap1
    }

    // The byte behind an offset when its sector is not the one being buffered.
    function Backed(offset: nat): byte
      requires Shape() && offset < rom.cells.Length
      reads `erasedSectors, rom.cells
    {
      if SectorOf(offset) in erasedSectors then rom.cells[offset] else 0xFF
    }

    function ReadStaged(offset: nat): byte
      requires Shape()
      reads `erasedSectors, `stagingSector, rom.cells, spill, sectorBuffer
    {
      if offset >= rom.cells.Length then
        if offset < rom.cells.Length + SPILL then spill[offset - rom.cells.Length] else 0xFF
      else if stagingSector != INVALID_ADDRESS && stagingSector <= offset < stagingSector + SECTOR then
        sectorBuffer[offset - stagingSector]
      else
        Backed(offset)
    }

    ghost predicate Valid()
      reads this, rom.cells, spill, sectorBuffer
    {
      && Shape()
      && |contents| == rom.cells.Length + SPILL
      && (forall i :: 0 <= i < |contents| ==> contents[i] == ReadStaged(i))
      && (forall t :: t in touched ==> t in erasedSectors || (stagingDirty && t == SectorOf(stagingSector)))
      && (stagingSector == INVALID_ADDRESS ==> !stagingDirty)
      && (stagingSector != INVALID_ADDRESS ==>
            && stagingSector % SECTOR == 0 && stagingSector < rom.cells.Length
            && (!stagingDirty ==> forall i :: stagingSector <= i < stagingSector + SECTOR ==>
                                              contents[i] == Backed(i)))
    }

    // The area while no sector is buffered: the buffer may hold anything.
    ghost predicate Quiet()
      reads this, rom.cells, spill
    {
      && Shape() && stagingSector == INVALID_ADDRESS && !stagingDirty && |contents| == rom.cells.Length + SPILL
      && (forall i :: 0 <= i < rom.cells.Length ==> contents[i] == Backed(i))
      && (forall i :: 0 <= i < SPILL ==> contents[rom.cells.Length + i] == spill[i])
      && (forall t :: t in touched ==> t in erasedSectors)
    }

    lemma ValidQuiet()
      requires Valid() && stagingSector == INVALID_ADDRESS
      ensures Quiet() && Shape() && |contents| == rom.cells.Length + SPILL
    {
      hide Backed;
      forall i | 0 <= i < SPILL
        ensures contents[rom.cells.Length + i] == spill[i]
      {
        assert contents[rom.cells.Length + i] == ReadStaged(rom.cells.Length + i);
      }
      forall i | 0 <= i < rom.cells.Length
        ensures contents[i] == Backed(i)
      {
        assert contents[i] == ReadStaged(i);
      }
    }

    lemma QuietReads(offset: nat)
      requires Quiet() && offset < |contents|
      ensures ReadStaged(offset) == contents[offset]
    {
      hide Backed;
      if offset >= rom.cells.Length {
        assert contents[rom.cells.Length + (offset - rom.cells.Length)] == spill[offset - rom.cells.Length];
      }
    }

    lemma QuietValid()
      requires Quiet()
      ensures Valid()
    {
      hide Backed, ReadStaged;
      forall i | 0 <= i < |contents|
        ensures contents[i] == ReadStaged(i)
      {
        QuietReads(i);
      }
    }

    constructor (rom: Device)
      requires rom.Valid()
      ensures Shape() && this.rom == rom && status == Idle
      ensures fresh(spill) && fresh(sectorBuffer) && fresh(swap0) && fresh(swap1)
    {
      this.rom := rom;
      spill := new byte[SPILL](_ => ERASED);
      sectorBuffer := new byte[SECTOR](_ => ERASED);
      swap0 := new byte[PAGE](_ => ERASED);
      swap1 := new byte[PAGE](_ => ERASED);
      status, fileSize, uploadPages := Idle, 0, [];
      erasedSectors, stagingSector, stagingDirty := {}, INVALID_ADDRESS, false;
      contents, touched := [], {};
    }

    method Fail(reason: Status)
      modifies `status, `stagingSector, `stagingDirty
      ensures status == reason && stagingSector == INVALID_ADDRESS && !stagingDirty
    {
      status, stagingSector, stagingDirty := reason, INVALID_ADDRESS, false;
    }

    // A new upload sees an empty staging area whatever the flash still holds.
    method Begin() returns (ok: bool)
      requires Shape()
      modifies this, rom, spill
      ensures Shape() && (!ok ==> rom.Dead())
      ensures ok ==> Valid() && status == Receiving && touched == {} && fileSize == 0 && uploadPages == []
      ensures ok ==> contents == Repeat(ERASED, rom.cells.Length + SPILL)
    {
      ok := rom.Active();
      if !ok {
        Fail(Aborted);
        return;
      }
      status, fileSize, uploadPages := Receiving, 0, [];
      erasedSectors, stagingSector, stagingDirty := {}, INVALID_ADDRESS, false;
      forall i | 0 <= i < SPILL {
        spill[i] := ERASED;
      }
      contents, touched := Repeat(ERASED, rom.cells.Length + SPILL), {};
    }

    // Writing the buffered sector back changes nothing a reader can see.
    method Flush() returns (ok: bool)
      requires Shape() && (!rom.Dead() ==> Valid())
      modifies this, rom, rom.cells
      ensures Shape() && (if ok then !old(rom.Dead()) else rom.Dead())
      ensures ok ==> Valid() && contents == old(contents) && !stagingDirty
      ensures ok ==> stagingSector == old(stagingSector) && status == old(status)
      ensures unchanged(`fileSize, `uploadPages, `touched)
    {
      ok := rom.Active();
      if !ok {
        Fail(Aborted);
        return;
      }
      ok := true;
      if stagingDirty {
        ok := WriteBack();
      }
    }

    method WriteBack() returns (ok: bool)
      requires Valid() && stagingDirty
      modifies this, rom, rom.cells
      ensures Shape() && (!ok ==> rom.Dead())
      ensures ok ==> Valid() && contents == old(contents) && !stagingDirty
      ensures ok ==> stagingSector == old(stagingSector) && status == old(status)
      ensures unchanged(`fileSize, `uploadPages, `touched)
    {
      SectorRange(stagingSector);
      ok := rom.WriteSector(stagingSector, sectorBuffer);
      if !ok {
        Fail(FlashError);
        return;
      }
      erasedSectors := erasedSectors + {SectorOf(stagingSector)};
      stagingDirty := false;
    }

    method LoadStagingSector(address: nat) returns (ok: bool)
      requires Valid() && address < rom.cells.Length
      modifies this, rom, rom.cells, sectorBuffer
      ensures Shape() && (!ok ==> rom.Dead())
      ensures ok ==> Valid() && contents == old(contents) && status == old(status)
      ensures ok ==> stagingSector == address - address % SECTOR
      ensures unchanged(`fileSize, `uploadPages, `touched)
    {
      var base := address - address % SECTOR;
      if base == stagingSector {
        return true;
      }
      ok := Flush();
      if !ok {
        return;
      }
      BufferSector(base);
    }

    // The buffer takes over a sector as a reader sees it.
    method BufferSector(base: nat)
      requires Valid() && !stagingDirty && base % SECTOR == 0 && base < rom.cells.Length
      modifies `stagingSector, sectorBuffer
      ensures Valid() && stagingSector == base
    {
      SectorRange(base);
      stagingSector := base;
      if SectorOf(base) in erasedSectors {
        forall i | 0 <= i < SECTOR {
          sectorBuffer[i] := rom.cells[base + i];
        }
      } else {
        forall i | 0 <= i < SECTOR {
          sectorBuffer[i] := ERASED;
        }
      }
    }

    // One byte into the loaded sector; the buffer is then ahead of the flash.
    method BufferByte(address: nat, value: byte)
      requires Valid() && address < rom.cells.Length && stagingSector == address - address % SECTOR
      modifies sectorBuffer, `stagingDirty, `contents, `touched
      ensures Valid() && contents == old(contents)[address := value]
      ensures touched == old(touched) + {SectorOf(address)}
    {
      SectorRange(stagingSector);
      sectorBuffer[address - stagingSector] := value;
      stagingDirty := true;
      touched := touched + {SectorOf(address)};
      contents := contents[address := value];
    }

    method SpillByte(address: nat, value: byte)
      requires Valid() && rom.cells.Length <= address < rom.cells.Length + SPILL
      modifies spill, `contents
      ensures Valid() && contents == old(contents)[address := value]
    {
      spill[address - rom.cells.Length] := value;
      contents := contents[address := value];
    }

    method StageByte(address: nat, value: byte) returns (ok: bool)
      requires Valid() && address < rom.cells.Length + SPILL
      modifies this, rom, rom.cells, sectorBuffer, spill
      ensures Shape() && (!ok ==> rom.Dead())
      ensures ok ==> Valid() && status == old(status) && contents == old(contents)[address := value]
      ensures ok ==> touched == old(touched) + if address < rom.cells.Length then {SectorOf(address)} else {}
      ensures unchanged(`fileSize, `uploadPages)
    {
      ok := rom.Active();
      if !ok {
        Fail(Aborted);
        return;
      }
      if address >= rom.cells.Length {
        SpillByte(address, value);
      } else {
        ok := LoadStagingSector(address);
        if ok {
          BufferByte(address, value);
        }
      }
    }

    // Staging a block updates the flat view at its offset and nowhere else.
    method WriteStaged(fileOffset: nat, data: seq<byte>) returns (ok: bool)
      requires Valid()
      modifies this, rom, rom.cells, sectorBuffer, spill
      ensures Shape()
      ensures !ok ==> rom.Dead() || (fileOffset + |data| > rom.cells.Length + SPILL && status == InvalidFile)
      ensures ok ==> fileOffset + |data| <= rom.cells.Length + SPILL
      ensures ok ==> Valid() && status == old(status)
      ensures ok ==> contents == Overlay(old(contents), fileOffset, data)
      ensures ok ==> touched == old(touched) + SectorsOf(fileOffset, |data|)
      ensures unchanged(`fileSize, `uploadPages)
    {
      var limit := rom.cells.Length + SPILL;
      if fileOffset > limit || |data| > limit - fileOffset {
        Fail(InvalidFile);
        return false;
      }
      ok := WriteBytes(fileOffset, data);
    }

    method WriteBytes(fileOffset: nat, data: seq<byte>) returns (ok: bool)
      requires Valid() && fileOffset + |data| <= rom.cells.Length + SPILL
      modifies this, rom, rom.cells, sectorBuffer, spill
      ensures Shape() && (!ok ==> rom.Dead())
      ensures ok ==> Valid() && status == old(status)
      ensures ok ==> contents == Overlay(old(contents), fileOffset, data)
      ensures ok ==> touched == old(touched) + SectorsOf(fileOffset, |data|)
      ensures unchanged(`fileSize, `uploadPages)
    {
      hide Valid, SectorsOf, Overlay;
      AreaLength();
      assert data[..0] == [];
      OverlayNothing(contents, fileOffset);
      NoSectors(fileOffset);
      var index := 0;
      while index < |data|
        invariant 0 <= index <= |data| && Valid() && status == old(status)
        invariant contents == Overlay(old(contents), fileOffset, data[..index])
        invariant touched == old(touched) + SectorsOf(fileOffset, index)
        invariant unchanged(`fileSize, `uploadPages)
      {
        ok := StageByte(fileOffset + index, data[index]);
        if !ok {
          return;
        }
        SectorsOfNext(fileOffset, index);
        OverlayNext(old(contents), fileOffset, data, index);
        index := index + 1;
      }
      assert data[..index] == data;
      return true;
    }

    lemma AreaLength()
      requires Valid()
      ensures Shape() && |contents| == rom.cells.Length + SPILL
    {}

    lemma NoSectors(offset: nat)
      ensures SectorsOf(offset, 0) == {}
    {}

    // What holds between two blocks of an upload: a live device that is still receiving is in order.
    ghost predicate Uploading()
      reads this, rom, rom.cells, spill, sectorBuffer
    {
      Shape() && (!rom.Dead() && status == Receiving ==> Valid())
    }

    // One block of the upload; refused once the upload has ended or been given up.
    method Stage(fileOffset: nat, data: seq<byte>) returns (ok: bool)
      requires Uploading()
      modifies this, rom, rom.cells, sectorBuffer, spill
      ensures Uploading() && (ok ==> !old(rom.Dead()) && Valid() && old(Valid()) && status == old(status) == Receiving)
      ensures ok ==> fileOffset + |data| <= rom.cells.Length + SPILL
      ensures ok ==> contents == Overlay(old(contents), fileOffset, data)
      ensures ok ==> touched == old(touched) + SectorsOf(fileOffset, |data|)
      ensures !ok ==> rom.Dead() || (!old(rom.Dead()) && old(status) != Receiving) || fileOffset + |data| > rom.cells.Length + SPILL
      ensures rom.failAt.None? ==> (ok <==> old(status) == Receiving && fileOffset + |data| <= rom.cells.Length + SPILL)
    {
      ok := rom.Active();
      if !ok {
        Fail(Aborted);
        return;
      }
      if status != Receiving {
        return false;
      }
      ok := WriteStaged(fileOffset, data);
    }

    // Ejecting hands over the FAT chain: which staged page holds page i of the file.
    method Finish(raw: bool, fileSize: nat, pages: seq<nat>) returns (ok: bool)
      requires Valid()
      modifies this, rom
      ensures Shape()
      ensures ok ==> Valid() && unchanged(`contents, `touched, `stagingSector) && this.fileSize == fileSize
      ensures ok ==> status == Ready && uploadPages == pages
      ensures ok ==> ChainAccepted(old(status), raw, fileSize, pages)
      ensures !ok ==> rom.Dead() || !ChainAccepted(old(status), raw, fileSize, pages)
      ensures rom.failAt.None? ==> (ok <==> ChainAccepted(old(status), raw, fileSize, pages))
      ensures !ok && !rom.Dead() ==> Valid() && unchanged(this)
    {
      ok := rom.Active();
      if !ok {
        Fail(Aborted);
        return;
      }
      var limit := if raw then rom.cells.Length else rom.cells.Length + SPILL;
      if status != Receiving || fileSize == 0 || fileSize > limit || |pages| != (fileSize + PAGE - 1) / PAGE {
        return false;
      }
      var i := 0;
      while i < |pages|
        invariant 0 <= i <= |pages| && Distinct(pages[..i])
        invariant forall k :: 0 <= k < i ==> pages[k] < rom.cells.Length / PAGE + 4
      {
        if pages[i] >= rom.cells.Length / PAGE + 4 {
          return false;
        }
        var j := 0;
        while j < i
          invariant 0 <= j <= i && forall k :: 0 <= k < j ==> pages[k] != pages[i]
        {
          if pages[i] == pages[j] {
            return false;
          }
          j := j + 1;
        }
        assert forall a, b :: 0 <= a < b < i ==> pages[a] == pages[..i][a] && pages[b] == pages[..i][b];
        i := i + 1;
      }
      assert pages[..i] == pages;
      uploadPages, this.fileSize, status := pages, fileSize, Ready;
    }

    ghost predicate ChainAccepted(status: Status, raw: bool, fileSize: nat, pages: seq<nat>) {
      && status == Receiving && 0 < fileSize
      && fileSize <= rom.cells.Length + (if raw then 0 else SPILL)
      && |pages| == (fileSize + PAGE - 1) / PAGE
      && PagesInRange(pages) && Distinct(pages)
    }

    ghost predicate PagesInRange(pages: seq<nat>) {
      forall i :: 0 <= i < |pages| ==> pages[i] < rom.cells.Length / PAGE + 4
    }

    ghost predicate PageTouched(page: nat)
      reads `touched
    {
      page * PAGE < rom.cells.Length ==> SectorOf(page * PAGE) in touched
    }

    method FillSwap(a: nat, b: nat)
      requires Valid()
      requires (a + 1) * PAGE <= |contents| && (b + 1) * PAGE <= |contents|
      modifies swap0, swap1
      ensures Valid() && swap0[..] == PageAt(contents, a) && swap1[..] == PageAt(contents, b)
    {
      var i := 0;
      while i < PAGE
        invariant 0 <= i <= PAGE && Valid()
        invariant forall k :: 0 <= k < i ==> swap0[k] == contents[a * PAGE + k] && swap1[k] == contents[b * PAGE + k]
      {
        swap0[i] := ReadStaged(a * PAGE + i);
        swap1[i] := ReadStaged(b * PAGE + i);
        i := i + 1;
      }
    }

    // Exchange two staged pages through the two page buffers.
    method SwapPages(a: nat, b: nat) returns (ok: bool)
      requires Valid() && a != b
      requires (a + 1) * PAGE <= |contents| && (b + 1) * PAGE <= |contents|
      modifies this, rom, rom.cells, sectorBuffer, spill, swap0, swap1
      ensures Shape() && (!ok ==> rom.Dead())
      ensures ok ==> Valid() && PagesSwapped(old(contents), contents, a, b) && status == old(status)
      ensures ok ==> old(touched) <= touched && PageTouched(a) && PageTouched(b)
      ensures unchanged(`fileSize, `uploadPages)
    {
      FillSwap(a, b);
      SwapByOverlays(contents, a, b);
      ok := WriteStaged(a * PAGE, swap1[..]);
      if !ok {
        return;
      }
      SectorsOfFirst(a * PAGE, PAGE);
      ok := WriteStaged(b * PAGE, swap0[..]);
      SectorsOfFirst(b * PAGE, PAGE);
    }

    lemma SectorsOfFirst(offset: nat, count: nat)
      requires 0 < count
      ensures offset < rom.cells.Length ==> SectorOf(offset) in SectorsOf(offset, count)
    {}

    method Place(destination: nat, ghost staged: seq<byte>, ghost pages: seq<nat>) returns (ok: bool)
      requires Valid() && Placed(staged, contents, uploadPages, pages, destination)
      requires destination < |uploadPages| && |uploadPages| * PAGE <= |staged|
      requires forall i :: 0 <= i < destination ==> PageTouched(i)
      requires forall i :: destination <= i < |pages| ==> PageTouched(uploadPages[i])
      modifies this, rom, rom.cells, sectorBuffer, spill, swap0, swap1
      ensures Shape() && (!ok ==> rom.Dead())
      ensures ok ==> Valid() && Placed(staged, contents, uploadPages, pages, destination + 1)
      ensures ok ==> status == old(status) && unchanged(`fileSize)
      ensures ok ==> forall i :: 0 <= i <= destination ==> PageTouched(i)
      ensures ok ==> forall i :: destination < i < |pages| ==> PageTouched(uploadPages[i])
    {
      var source := uploadPages[destination];
      ok := true;
      if source != destination {
        ok := SwapPages(destination, source);
        if !ok {
          return;
        }
      }
      PlaceNext(staged, old(contents), contents, uploadPages, pages, destination);
      uploadPages := Redirect(uploadPages, destination);
      assert forall p: nat :: old(PageTouched(p)) ==> PageTouched(p);
    }

    // Every staged page is moved to its place in the file. A chain that is already in order is
    // left alone; otherwise the page in the way takes the place of the one it makes room for.
    method MaterializeUpload() returns (ok: bool)
      requires Valid() && PagesInRange(uploadPages) && Distinct(uploadPages)
      requires forall i :: 0 <= i < |uploadPages| ==> PageTouched(uploadPages[i])
      requires |uploadPages| <= rom.cells.Length / PAGE + 4
      modifies this, rom, rom.cells, sectorBuffer, spill, swap0, swap1
      ensures Shape() && (!ok ==> rom.Dead())
      ensures ok ==> Valid() && stagingSector == INVALID_ADDRESS && status == old(status)
      ensures ok ==> FileOrdered(old(contents), contents, old(uploadPages)) && unchanged(`fileSize)
      ensures ok ==> forall i :: 0 <= i < |old(uploadPages)| ==> PageTouched(i)
    {
      ghost var staged, pages := contents, uploadPages;
      var destination := 0;
      assert uploadPages[0..] == pages;
      while destination < |uploadPages|
        invariant 0 <= destination <= |uploadPages| && Valid()
        invariant Placed(staged, contents, uploadPages, pages, destination)
        invariant forall i :: 0 <= i < destination ==> PageTouched(i)
        invariant forall i :: destination <= i < |pages| ==> PageTouched(uploadPages[i])
        invariant status == old(status) && unchanged(`fileSize)
      {
        ok := Place(destination, staged, pages);
        if !ok {
          return;
        }
        destination := destination + 1;
      }
      assert pages[..destination] == pages;
      ok := Flush();
      if ok {
        stagingSector := INVALID_ADDRESS;
      }
    }

    // The bytes of one sector of the moved image that come from the source are still unchanged.
    ghost predicate SourceKept(slid: seq<byte>, sectorAddress: nat, source: nat, size: nat, destination: nat)
      reads `contents
    {
      && source + size <= |contents| == |slid| && destination + size <= |slid|
      && forall a :: sectorAddress <= a < sectorAddress + SECTOR && destination <= a < destination + size ==>
           slid[a] == contents[source + (a - destination)]
    }

    // Rebuild one sector of the moved image in the buffer.
    method GatherSector(sectorAddress: nat, source: nat, size: nat, destination: nat, ghost before: seq<byte>)
      requires Valid() && stagingSector == INVALID_ADDRESS
      requires sectorAddress % SECTOR == 0 && destination - destination % SECTOR <= sectorAddress < destination + size
      requires destination + size <= rom.cells.Length && source + size <= |before| == |contents|
      requires SourceKept(Slide(before, source, size, destination), sectorAddress, source, size, destination)
      modifies sectorBuffer
      ensures Valid()
      ensures sectorBuffer[..] == Slide(before, source, size, destination)[sectorAddress..sectorAddress + SECTOR]
    {
      hide Quiet, Valid, SourceKept, Slide, ReadStaged;
      ValidQuiet();
      var copyBegin := if sectorAddress > destination then sectorAddress else destination;
      var end := destination + size;
      var copyEnd := if sectorAddress + SECTOR < end then sectorAddress + SECTOR else end;
      ghost var slid := Slide(before, source, size, destination);
      ghost var goal := slid[sectorAddress..sectorAddress + SECTOR];
      SlideErases(before, source, size, destination, sectorAddress, copyBegin, copyEnd, goal);
      forall i | 0 <= i < SECTOR {
        sectorBuffer[i] := ERASED;
      }
      var index := copyBegin - sectorAddress;
      while sectorAddress + index < copyEnd
        invariant copyBegin - sectorAddress <= index && sectorAddress + index <= copyEnd && Quiet()
        invariant forall i :: copyBegin - sectorAddress <= i < index ==> sectorBuffer[i] == goal[i]
        invariant forall i :: 0 <= i < SECTOR && !(copyBegin - sectorAddress <= i < index) ==> sectorBuffer[i] == ERASED
      {
        var from := source + (sectorAddress + index - destination);
        KeptAt(slid, sectorAddress, source, size, destination, index, from);
        QuietReads(from);
        sectorBuffer[index] := ReadStaged(from);
        index := index + 1;
      }
      QuietValid();
      assert sectorBuffer[..] == goal;
    }

    lemma KeptAt(slid: seq<byte>, sectorAddress: nat, source: nat, size: nat, destination: nat, i: nat, from: nat)
      requires SourceKept(slid, sectorAddress, source, size, destination)
      requires i < SECTOR && destination <= sectorAddress + i < destination + size && sectorAddress + SECTOR <= |slid|
      requires from == source + (sectorAddress + i - destination)
      ensures from < |contents| && slid[sectorAddress..sectorAddress + SECTOR][i] == contents[from]
    {
      assert slid[sectorAddress + i] == contents[source + ((sectorAddress + i) - destination)];
    }

    // Write the gathered sector back in place of what was there.
    method CommitSector(sectorAddress: nat) returns (ok: bool)
      requires Valid() && stagingSector == INVALID_ADDRESS
      requires sectorAddress % SECTOR == 0 && sectorAddress < rom.cells.Length
      modifies this, rom, rom.cells
      ensures Shape() && (!ok ==> rom.Dead())
      ensures ok ==> Valid() && unchanged(`stagingSector, `status, `fileSize)
      ensures ok ==> touched == old(touched) + {SectorOf(sectorAddress)}
      ensures ok ==> contents == Overlay(old(contents), sectorAddress, sectorBuffer[..])
    {
      SectorRange(sectorAddress);
      ok := rom.WriteSector(sectorAddress, sectorBuffer);
      if ok {
        erasedSectors, touched := erasedSectors + {SectorOf(sectorAddress)}, touched + {SectorOf(sectorAddress)};
        contents := Overlay(contents, sectorAddress, sectorBuffer[..]);
      }
    }

    ghost predicate MovedTouched(firstSector: nat, sectorCount: nat, step: nat, descending: bool)
      reads `touched
    {
      forall i: nat :: Moved(firstSector, sectorCount, step, descending, i) ==> SectorOf(i) in touched
    }

    method CopyStep(source: nat, size: nat, destination: nat, descending: bool, firstSector: nat, sectorCount: nat,
                    step: nat, ghost before: seq<byte>)
      returns (ok: bool)
      requires Valid() && stagingSector == INVALID_ADDRESS && |before| == |contents|
      requires destination + size <= rom.cells.Length && source + size <= |contents|
      requires if descending then source <= destination else destination <= source
      requires step < sectorCount && firstSector == destination - destination % SECTOR
      requires firstSector + sectorCount * SECTOR == SectorCeil(destination + size)
      requires SlideProgress(before, contents, Slide(before, source, size, destination), firstSector, sectorCount, step, descending)
      requires MovedTouched(firstSector, sectorCount, step, descending)
      modifies this, rom, rom.cells, sectorBuffer
      ensures Shape() && (!ok ==> rom.Dead())
      ensures ok ==> Valid() && unchanged(`stagingSector, `status, `fileSize) && old(touched) <= touched
      ensures ok ==> SlideProgress(before, contents, Slide(before, source, size, destination), firstSector, sectorCount, step + 1, descending)
      ensures ok ==> MovedTouched(firstSector, sectorCount, step + 1, descending)
    {
      ghost var slid := Slide(before, source, size, destination);
      var sectorAddress := SectorAt(firstSector, sectorCount, step, descending);
      forall a | sectorAddress <= a < sectorAddress + SECTOR && destination <= a < destination + size
        ensures slid[a] == contents[source + (a - destination)]
      {
        assert !Moved(firstSector, sectorCount, step, descending, source + (a - destination));
      }
      GatherSector(sectorAddress, source, size, destination, before);
      SlideNext(before, contents, slid, firstSector, sectorCount, step, descending);
      MovedSectors(firstSector, sectorCount, step, descending);
      ok := CommitSector(sectorAddress);
    }

    // The in-place move: sector by sector, from the end that cannot overwrite unread source
    // bytes, it equals a move through a separate copy of the image.
    method CopyToTemp(source: nat, size: nat, destination: nat, descending: bool) returns (ok: bool)
      requires Valid() && stagingSector == INVALID_ADDRESS
      requires destination + size <= rom.cells.Length && source + size <= rom.cells.Length + SPILL
      requires if descending then source <= destination else destination <= source
      modifies this, rom, rom.cells, sectorBuffer
      ensures Shape() && (!ok ==> rom.Dead())
      ensures ok ==> Valid() && unchanged(`stagingSector, `status, `fileSize)
      ensures ok && 0 < size ==> contents == Slide(old(contents), source, size, destination)
      ensures ok && size == 0 ==> unchanged(`contents)
      ensures ok ==> old(touched) + SectorsOf(destination, size) <= touched
    {
      if size == 0 {
        return true;
      }
      var firstSector := destination - destination % SECTOR;
      var end := destination + size;
      var sectorCount := (end - firstSector + SECTOR - 1) / SECTOR;
      ghost var before, slid := contents, Slide(contents, source, size, destination);
      assert firstSector + sectorCount * SECTOR == SectorCeil(end);
      var step := 0;
      while step < sectorCount
        invariant 0 <= step <= sectorCount && Valid() && unchanged(`stagingSector, `status, `fileSize)
        invariant SlideProgress(before, contents, slid, firstSector, sectorCount, step, descending)
        invariant old(touched) <= touched && MovedTouched(firstSector, sectorCount, step, descending)
      {
        ok := CopyStep(source, size, destination, descending, firstSector, sectorCount, step, before);
        if !ok {
          return;
        }
        step := step + 1;
      }
      assert contents == slid;
      ok := true;
    }

    lemma MovedSectors(firstSector: nat, sectorCount: nat, step: nat, descending: bool)
      requires step < sectorCount && firstSector % SECTOR == 0
      ensures forall i: nat :: Moved(firstSector, sectorCount, step + 1, descending, i) ==>
        Moved(firstSector, sectorCount, step, descending, i) ||
        SectorOf(i) == SectorOf(SectorAt(firstSector, sectorCount, step, descending))
    {
      SectorRange(SectorAt(firstSector, sectorCount, step, descending));
    }

    // The flash sectors under a range of the staging area.
    ghost function SectorsOf(offset: nat, count: nat): set<nat> {
      set i | offset <= i < offset + count && i < rom.cells.Length :: SectorOf(i)
    }

    lemma SectorsOfNext(offset: nat, count: nat)
      ensures SectorsOf(offset, count + 1) ==
              SectorsOf(offset, count) + if offset + count < rom.cells.Length then {SectorOf(offset + count)} else {}
    {
      var next := SectorsOf(offset, count + 1);
      forall t | t in SectorsOf(offset, count) + if offset + count < rom.cells.Length then {SectorOf(offset + count)} else {}
        ensures t in next
      {
        if t in SectorsOf(offset, count) {
          var i :| offset <= i < offset + count && i < rom.cells.Length && SectorOf(i) == t;
        }
      }
    }
  }
}
