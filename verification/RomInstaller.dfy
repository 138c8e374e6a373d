/** The remapping half of the ROM installer (src/storage/snes_rom_installer.cpp): the canonical image
  * staged in the flash is spread over the bus map, sector by sector, in that same flash. */
module RomInstaller {
  import opened Arithmetic
  import opened Bytes
  import opened RomLayout
  import opened ParallelRom
  import opened RomStaging
  import opened BusImage
  import opened SweepOrder
  import opened LoRomSweep
  import opened RomDescriptor

  // Source pages a map can name: 8 MiB.
  const MAX_SOURCE_PAGES: nat := 0x800

  // The GSU sees the first 3 MiB of an FX3 ROM.
  const FX_WINDOW: nat := 0x30_0000

  class Installer {
    const area: StagingArea
    const rom: Device
    // The FX-visible partition of the QSPI device; absent when no programming hook is installed.
    const fxRom: array?<byte>
    var finalSectors: set<nat>
    var representative: seq<nat>
    var copierHeader: seq<byte>

    ghost predicate Shape() {
      && area.Shape() && area.rom == rom
      && (fxRom != null ==> fxRom.Length == FX_WINDOW && fxRom != rom.cells && fxRom != area.spill && fxRom != area.sectorBuffer)
    }

    constructor (area: StagingArea, fxRom: array?<byte>)
      requires area.Shape()
      requires fxRom != null ==> fxRom.Length == FX_WINDOW && fxRom != area.rom.cells && fxRom != area.spill && fxRom != area.sectorBuffer
      ensures Shape() && this.area == area && this.fxRom == fxRom && Fresh()
    {
      this.area, this.rom, this.fxRom := area, area.rom, fxRom;
      finalSectors, representative, copierHeader := {}, seq(MAX_SOURCE_PAGES, _ => INVALID_ADDRESS), [];
    }

    // No sector has been finished since the upload began.
    ghost predicate Fresh()
      reads `finalSectors, `representative
    {
      finalSectors == {} && |representative| == MAX_SOURCE_PAGES &&
      forall p :: 0 <= p < MAX_SOURCE_PAGES ==> representative[p] == INVALID_ADDRESS
    }

    // The staging area is quiet (nothing buffered) and holds the canonical image from dataOffset on.
    ghost predicate Sweeping(info: RomInfo, src: seq<byte>)
      reads this, area, rom.cells, area.spill
    {
      && Shape() && area.stagingSector == INVALID_ADDRESS
      && 0 < info.size == |src| <= MAX_SOURCE_PAGES * PAGE && info.size % PAGE == 0
      && info.dataOffset + info.size <= rom.cells.Length + SPILL
      && |representative| == MAX_SOURCE_PAGES
      && Consistent(info, rom.cells.Length, src)
      && Finished(info, rom.cells.Length, src, finalSectors, rom.cells[..])
      && SourceKept(info, src, finalSectors, rom.cells[..], area.spill[..])
      && RepresentativesSound(info, rom.cells.Length, finalSectors, representative)
    }

    // The canonical image inside the staged file.
    ghost function Source(info: RomInfo): (r: seq<byte>)
      requires info.dataOffset + info.size <= |area.contents|
      reads area`contents
      ensures |r| == info.size
    {
      area.contents[info.dataOffset..info.dataOffset + info.size]
    }

    // Whether bus addresses that share a NOR page agree on its content.
    method MappingFits(info: RomInfo) returns (ok: bool)
      requires Shape() && area.Valid() && area.stagingSector == INVALID_ADDRESS
      requires info.size % PAGE == 0 && info.dataOffset + info.size <= |area.contents|
      modifies area.sectorBuffer
      ensures area.Valid() && area.contents == old(area.contents)
      ensures ok <==> Consistent(info, rom.cells.Length, Source(info))
    {
      hide SourceOffset, Physical, AliasByte, IsCapacity;
      ghost var src, c := Source(info), rom.cells.Length;
      var physical := 0;
      assert IsCapacity(c) by { assert rom.Valid(); }
      while physical < rom.cells.Length
        invariant 0 <= physical && physical % PAGE == 0 && area.Valid() && src == Source(info)
        invariant forall x: nat :: x < BUS && x % PAGE == 0 && Physical(c, x) < physical ==> PageAgrees(info, c, src, x)
        decreases rom.cells.Length - physical
      {
        ok := PageFits(info, physical);
        if !ok {
          return;
        }
        forall x: nat | x < BUS && x % PAGE == 0 && Physical(c, x) < physical + PAGE
          ensures PageAgrees(info, c, src, x)
        {
          PhysicalPage(c, x, 0);
        }
        physical := physical + PAGE;
      }
      PagesAgree(info, c, src);
      ok := true;
    }

    method PageFits(info: RomInfo, physical: nat) returns (ok: bool)
      requires Shape() && area.Valid() && area.stagingSector == INVALID_ADDRESS
      requires info.size % PAGE == 0 && info.dataOffset + info.size <= |area.contents|
      requires physical % PAGE == 0 && physical < rom.cells.Length
      modifies area.sectorBuffer
      ensures area.Valid()
      ensures ok ==> forall x: nat :: x < BUS && x % PAGE == 0 && Physical(rom.cells.Length, x) == physical ==>
                       PageAgrees(info, rom.cells.Length, Source(info), x)
      ensures !ok ==> !Consistent(info, rom.cells.Length, Source(info))
    {
      hide SourceOffset, Physical, AliasByte, IsCapacity, PageMerged;
      ghost var src, c := Source(info), rom.cells.Length;
      assert IsCapacity(c) && 0 < c && Physical(c, physical) == physical;
      var found, address := false, physical;
      MergeStart(info, c, src, physical, area.sectorBuffer[..PAGE]);
      while address < MAX_CAPACITY
        invariant area.Valid() && address % PAGE == 0 && Physical(c, address) == physical
        invariant PageMerged(info, c, src, physical, address, found, area.sectorBuffer[..PAGE])
        decreases MAX_CAPACITY - address
      {
        var source := SourceOffset(info, address);
        SourcePage(info, address, 0);
        ghost var before := area.sectorBuffer[..PAGE];
        ghost var seen := found;
        if source.Some? && !found {
          FillPage(info, source.value);
          found := true;
        } else if source.Some? {
          var same := SamePage(info, source.value);
          if !same {
            MergeConflict(info, c, src, physical, address, before);
            return false;
          }
        }
        MergeNext(info, c, src, physical, address, seen, before, area.sectorBuffer[..PAGE]);
        PhysicalStep(c, address);
        PageStep(c, address);
        address := address + rom.cells.Length;
      }
      MergeEnd(info, c, src, physical, address, found, area.sectorBuffer[..PAGE]);
      ok := true;
    }

    method FillPage(info: RomInfo, source: nat)
      requires Shape() && area.Valid() && area.stagingSector == INVALID_ADDRESS
      requires info.dataOffset + info.size <= |area.contents| && source + PAGE <= info.size
      modifies area.sectorBuffer
      ensures area.Valid() && area.sectorBuffer[..PAGE] == Source(info)[source..source + PAGE]
    {
      hide StagingArea.Valid, StagingArea.Quiet, StagingArea.ReadStaged, Source;
      ghost var goal := Source(info)[source..source + PAGE];
      area.ValidQuiet();
      var i := 0;
      while i < PAGE
        invariant 0 <= i <= PAGE && area.Quiet()
        invariant forall k :: 0 <= k < i ==> area.sectorBuffer[k] == goal[k]
      {
        var at := info.dataOffset + source + i;
        SourceAt(info, source, goal, i, at);
        area.QuietReads(at);
        area.sectorBuffer[i] := area.ReadStaged(at);
        i := i + 1;
      }
      area.QuietValid();
      assert area.sectorBuffer[..PAGE] == goal;
    }

    lemma SourceAt(info: RomInfo, source: nat, goal: seq<byte>, i: nat, at: nat)
      requires info.dataOffset + info.size <= |area.contents| && source + PAGE <= info.size && i < PAGE
      requires goal == Source(info)[source..source + PAGE] && at == info.dataOffset + source + i
      ensures goal[i] == area.contents[at]
    {}

    method SamePage(info: RomInfo, source: nat) returns (same: bool)
      requires Shape() && area.Valid() && area.stagingSector == INVALID_ADDRESS
      requires info.dataOffset + info.size <= |area.contents| && source + PAGE <= info.size
      ensures same <==> area.sectorBuffer[..PAGE] == Source(info)[source..source + PAGE]
    {
      hide StagingArea.Valid, StagingArea.Quiet, StagingArea.ReadStaged, Source;
      ghost var goal := Source(info)[source..source + PAGE];
      area.ValidQuiet();
      var i := 0;
      while i < PAGE
        invariant 0 <= i <= PAGE
        invariant forall k :: 0 <= k < i ==> area.sectorBuffer[k] == goal[k]
      {
        var at := info.dataOffset + source + i;
        SourceAt(info, source, goal, i, at);
        area.QuietReads(at);
        if area.sectorBuffer[i] != area.ReadStaged(at) {
          assert area.sectorBuffer[..PAGE][i] != goal[i];
          return false;
        }
        i := i + 1;
      }
      assert area.sectorBuffer[..PAGE] == goal;
      same := true;
    }

    // An ordered, quiet staging area holds the source where the sweep expects it.
    lemma SweepStarts(info: RomInfo)
      requires Shape() && area.Valid() && area.stagingSector == INVALID_ADDRESS && Fresh()
      requires Whole(info) && info.dataOffset + info.size <= rom.cells.Length
      requires Consistent(info, rom.cells.Length, Source(info))
      requires area.SectorsOf(info.dataOffset, info.size) <= area.touched
      ensures Sweeping(info, Source(info))
    {
      var src := Source(info);
      hide SourceOffset, Consistent, AliasByte;
      forall s | 0 <= s < info.size
        ensures rom.cells[info.dataOffset + s] == src[s]
      {
        var staged := info.dataOffset + s;
        assert SectorOf(staged) in area.SectorsOf(info.dataOffset, info.size);
        assert area.contents[staged] == area.ReadStaged(staged);
      }
    }

    // The GSU window of the FX3 map, filled page by page from the unmodified source.
    method ProgramFxWindow(info: RomInfo, ghost src: seq<byte>) returns (ok: bool)
      requires Sweeping(info, src) && finalSectors == {} && info.mapping == Fx3 && fxRom != null
      modifies rom, area.sectorBuffer, fxRom
      ensures Sweeping(info, src) && (!ok ==> rom.Dead())
      ensures ok ==> fxRom[..] == FxWindow(info, src)
    {
      hide FxWindow, Consistent, Finished, SourceKept, RepresentativesSound;
      var offset := 0;
      while offset < FX_WINDOW
        invariant 0 <= offset <= FX_WINDOW && offset % PAGE == 0 && Sweeping(info, src)
        invariant fxRom[..offset] == FxWindow(info, src)[..offset]
      {
        ok := rom.Active();
        if !ok {
          return;
        }
        ok := ProgramFxPage(info, offset, src);
        if !ok {
          return;
        }
        NextPiece(fxRom[..], offset, offset + PAGE);
        NextPiece(FxWindow(info, src), offset, offset + PAGE);
        offset := offset + PAGE;
      }
      ok := true;
    }

    method ProgramFxPage(info: RomInfo, offset: nat, ghost src: seq<byte>) returns (ok: bool)
      requires Sweeping(info, src) && finalSectors == {} && info.mapping == Fx3 && fxRom != null
      requires offset % PAGE == 0 && offset < FX_WINDOW
      modifies rom, area.sectorBuffer, fxRom
      ensures Sweeping(info, src) && (!ok ==> rom.Dead())
      ensures ok ==> fxRom[offset..offset + PAGE] == FxWindow(info, src)[offset..offset + PAGE]
      ensures ok ==> fxRom[..offset] == old(fxRom[..offset])
    {
      ok := GatherFxPage(info, offset, src);
      if !ok {
        return;
      }
      ok := rom.Active();
      if ok {
        StoreFxPage(offset);
      }
    }

    // One erased and reprogrammed page of the QSPI device.
    method StoreFxPage(offset: nat)
      requires Shape() && fxRom != null && offset + PAGE <= FX_WINDOW
      modifies fxRom
      ensures fxRom[offset..offset + PAGE] == area.sectorBuffer[..PAGE] && fxRom[..offset] == old(fxRom[..offset])
    {
      forall k | 0 <= k < PAGE {
        fxRom[offset + k] := area.sectorBuffer[k];
      }
    }

    method GatherFxPage(info: RomInfo, offset: nat, ghost src: seq<byte>) returns (ok: bool)
      requires Sweeping(info, src) && finalSectors == {} && info.mapping == Fx3
      requires offset % PAGE == 0 && offset < FX_WINDOW
      modifies area.sectorBuffer
      ensures ok && Sweeping(info, src)
      ensures area.sectorBuffer[..PAGE] == FxWindow(info, src)[offset..offset + PAGE]
    {
      hide SourceOffset, FxWindow;
      FxWindowPage(info, src, offset);
      var window := SourceOffset(info, 0x40_0000 + offset);
      if window.None? {
        ok := false;
        return;
      }
      var source := window.value;
      var i := 0;
      while i < PAGE
        invariant 0 <= i <= PAGE && Sweeping(info, src)
        invariant forall k :: 0 <= k < i ==> area.sectorBuffer[k] == src[source + k]
      {
        var value;
        ok, value := ReadInstallSource(info, source + i, src);
        if !ok {
          return;
        }
        area.sectorBuffer[i] := value;
        i := i + 1;
      }
      ok := true;
    }

    // The sweep over the whole device, in the order each map calls for: it gets to the end exactly when that
    // order is safe.
    method SweepMap(info: RomInfo, ghost src: seq<byte>) returns (ok: bool)
      requires Sweeping(info, src) && finalSectors == {}
      modifies `finalSectors, `representative, area`erasedSectors, rom, rom.cells, area.sectorBuffer
      ensures !ok ==> rom.Dead() || !Sweepable(info, rom.cells.Length)
      ensures rom.failAt.None? ==> (ok <==> Sweepable(info, rom.cells.Length))
      ensures ok ==> Sweepable(info, rom.cells.Length) && Sweeping(info, src) && finalSectors == Span(0, rom.cells.Length)
    {
      hide RangeSafe, Span, Sweeping, WindowSafe, HalvesSafe;
      var capacity := rom.cells.Length;
      SweepingCapacity(info, src);
      if info.mapping == LoRom {
        ok := ProgramRange(info, 0, capacity, true, src);
      } else if info.mapping == HiRom && capacity > 4 * MIB {
        ok := SweepHiRom(info, src);
      } else if info.mapping == ExLoRom || info.mapping == ExHiRom {
        ok := SweepExtended(info, src);
      } else if info.mapping == Fx3 {
        ok := SweepFx3(info, src);
      } else {
        ok := ProgramRange(info, 0, capacity, false, src);
      }
      EmptySpan(finalSectors);
    }

    method SweepHiRom(info: RomInfo, ghost src: seq<byte>) returns (ok: bool)
      requires Sweeping(info, src) && finalSectors == {} && info.mapping == HiRom && rom.cells.Length > 0x40_0000
      modifies `finalSectors, `representative, area`erasedSectors, rom, rom.cells, area.sectorBuffer
      ensures !ok ==> rom.Dead() || !Sweepable(info, rom.cells.Length)
      ensures rom.failAt.None? ==> (ok <==> Sweepable(info, rom.cells.Length))
      ensures ok ==> Sweepable(info, rom.cells.Length) && Sweeping(info, src) && finalSectors == Span(0, rom.cells.Length)
    {
      hide RangeSafe, Span, Sweeping;
      var capacity := rom.cells.Length;
      SweepingCapacity(info, src);
      ok := ProgramRange(info, 4 * MIB, 8 * MIB, false, src);
      if ok && capacity > 8 * MIB {
        ok := ProgramRange(info, 12 * MIB, capacity, false, src);
      }
      if ok {
        ok := ProgramRange(info, 0, 4 * MIB, false, src);
      }
      if ok && capacity > 8 * MIB {
        ok := ProgramRange(info, 8 * MIB, 12 * MIB, false, src);
      }
      WindowSpans(capacity);
    }

    method SweepExtended(info: RomInfo, ghost src: seq<byte>) returns (ok: bool)
      requires Sweeping(info, src) && finalSectors == {} && (info.mapping == ExLoRom || info.mapping == ExHiRom)
      modifies `finalSectors, `representative, area`erasedSectors, rom, rom.cells, area.sectorBuffer
      ensures !ok ==> rom.Dead() || !Sweepable(info, rom.cells.Length)
      ensures rom.failAt.None? ==> (ok <==> Sweepable(info, rom.cells.Length))
      ensures ok ==> Sweepable(info, rom.cells.Length) && Sweeping(info, src) && finalSectors == Span(0, rom.cells.Length)
    {
      hide RangeSafe, Span, Sweeping;
      var capacity := rom.cells.Length;
      SweepingCapacity(info, src);
      var half := capacity / 2;
      ok := ProgramRange(info, half, capacity, false, src);
      if ok {
        ok := ProgramRange(info, 0, half, false, src);
      }
      HalfSpans(capacity);
    }

    method SweepFx3(info: RomInfo, ghost src: seq<byte>) returns (ok: bool)
      requires Sweeping(info, src) && finalSectors == {} && info.mapping == Fx3
      modifies `finalSectors, `representative, area`erasedSectors, rom, rom.cells, area.sectorBuffer
      ensures !ok ==> rom.Dead() || !Sweepable(info, rom.cells.Length)
      ensures rom.failAt.None? ==> (ok <==> Sweepable(info, rom.cells.Length))
      ensures ok ==> Sweepable(info, rom.cells.Length) && Sweeping(info, src) && finalSectors == Span(0, rom.cells.Length)
    {
      hide RangeSafe, Span, Sweeping;
      var capacity := rom.cells.Length;
      SweepingCapacity(info, src);
      var half := capacity / 2;
      var sourceUpper := info.dataOffset >= half;
      ok := ProgramRange(info, if sourceUpper then 0 else half, if sourceUpper then half else capacity, false, src);
      if ok {
        ok := ProgramRange(info, if sourceUpper then half else 0, if sourceUpper then capacity else half, false, src);
      }
      HalfSpans(capacity);
    }

    lemma SweepingCapacity(info: RomInfo, src: seq<byte>)
      requires Sweeping(info, src)
      ensures IsCapacity(rom.cells.Length) && rom.cells.Length % SECTOR == 0 && rom.cells.Length / 2 % SECTOR == 0
    {
      hide Consistent, Finished, SourceKept, RepresentativesSound;
      CapacitySectors(rom.cells.Length);
    }

    // The map descriptor goes into the WRAM banks of a 128-Mbit image, its magic word last.
    method ProgramDescriptor(info: RomInfo) returns (ok: bool)
      requires Shape() && rom.cells.Length == MAX_CAPACITY
      requires forall a :: InDescriptor(a) ==> rom.cells[a] == ERASED
      modifies rom, rom.cells
      ensures !ok ==> rom.Dead()
      ensures ok ==> forall a :: InDescriptor(a) ==> rom.cells[a] == Descriptor(info)[a - DESCRIPTOR_ADDRESS]
      ensures ok ==> forall a :: 0 <= a < rom.cells.Length && !InDescriptor(a) ==>
                rom.cells[a] == old(rom.cells[a])
    {
      hide Descriptor, Turn;
      TurnBound();
      var descriptor := Descriptor(info);
      var step := 0;
      while step < DESCRIPTOR_SIZE
        invariant 0 <= step <= DESCRIPTOR_SIZE
        invariant forall a :: InDescriptor(a) ==>
          rom.cells[a] == if Turn(a - DESCRIPTOR_ADDRESS) < step then descriptor[a - DESCRIPTOR_ADDRESS] else ERASED
        invariant forall a :: 0 <= a < rom.cells.Length && !InDescriptor(a) ==>
                    rom.cells[a] == old(rom.cells[a])
      {
        var index := (step + 4) % DESCRIPTOR_SIZE;
        TurnOf(step);
        ok := ProgramFresh(DESCRIPTOR_ADDRESS + index, descriptor[index]);
        if !ok {
          return;
        }
        step := step + 1;
      }
      ok := rom.Verify(DESCRIPTOR_ADDRESS, descriptor);
      assert rom.cells[DESCRIPTOR_ADDRESS..DESCRIPTOR_ADDRESS + DESCRIPTOR_SIZE] == descriptor;
    }

    // One byte of an erased place.
    method ProgramFresh(address: nat, data: byte) returns (ok: bool)
      requires Shape() && address < rom.cells.Length && rom.cells[address] == ERASED
      modifies rom, rom.cells
      ensures !ok ==> rom.Dead()
      ensures ok ==> rom.cells[address] == data
      ensures forall a :: 0 <= a < rom.cells.Length && a != address ==> rom.cells[a] == old(rom.cells[a])
    {
      ok := rom.Active();
      if ok {
        ProgramErased(data);
        ok := rom.ProgramByte(address, data);
      }
    }

    // What the finished device holds at every address.
    ghost predicate Installed(info: RomInfo, src: seq<byte>)
      requires |src| == info.size && rom.Valid()
      reads rom.cells
    {
      forall a :: 0 <= a < rom.cells.Length ==>
        rom.cells[a] == if rom.cells.Length == MAX_CAPACITY && InDescriptor(a) then Descriptor(info)[a - DESCRIPTOR_ADDRESS]
                        else ImageByte(info, rom.cells.Length, src, a)
    }

    // After the last sweep every page is looked up afresh.
    method BuildRepresentatives(info: RomInfo, ghost src: seq<byte>)
      requires Sweeping(info, src) && finalSectors == Span(0, rom.cells.Length)
      modifies `representative
      ensures Sweeping(info, src) && finalSectors == Span(0, rom.cells.Length)
    {
      hide SourceOffset, Physical, SectorOf, Homed, Consistent, Finished, SourceKept;
      representative := seq(MAX_SOURCE_PAGES, _ => INVALID_ADDRESS);
      var address := 0;
      CapacitySectors(rom.cells.Length);
      NoHomes(info, rom.cells.Length, representative);
      while address < rom.cells.Length
        invariant 0 <= address <= rom.cells.Length && address % SECTOR == 0 && |representative| == MAX_SOURCE_PAGES
        invariant RepresentativesSound(info, rom.cells.Length, Span(0, address), representative)
      {
        RecordHomes(info, address, Span(0, address));
        SpanNext(address);
        address := address + SECTOR;
      }
    }

    // The whole installation. Besides a dying device or a cancelled upload only bus addresses that
    // disagree or a size that its map's sweep cannot spread in place can make it fail (SpreadsExact).
    method Install(info: RomInfo) returns (ok: bool)
      requires Shape() && area.Valid() && area.stagingSector == INVALID_ADDRESS && Fresh()
      requires Staged(info, rom.cells.Length) && area.SectorsOf(0, info.dataOffset + info.size) <= area.touched
      modifies this, area, rom, rom.cells, area.sectorBuffer
      modifies if fxRom == null then {} else {fxRom}
      ensures !ok ==> rom.Dead() || (info.mapping == Fx3 && fxRom == null) || !Spreads(info, rom.cells.Length, old(Source(info)))
      ensures ok ==> Spreads(info, rom.cells.Length, old(Source(info)))
      ensures rom.failAt.None? ==>
                (ok <==> Spreads(info, rom.cells.Length, old(Source(info))) && (info.mapping == Fx3 ==> fxRom != null))
      ensures ok ==> Installed(info, old(Source(info)))
      ensures ok && info.mapping == Fx3 ==> fxRom != null && fxRom[..] == FxWindow(info, old(Source(info)))
      ensures ok ==> RepresentativesSound(info, rom.cells.Length, Span(0, rom.cells.Length), representative)
      ensures ok && info.dataOffset != 0 ==> copierHeader == old(area.contents[..512])
    {
      ghost var src := Source(info);
      if info.mapping == Fx3 && fxRom == null {
        return false;
      }
      if info.dataOffset != 0 {
        HeaderStaged(info);
        copierHeader := rom.cells[..512];
      }
      ok := MappingFits(info);
      if !ok {
        return;
      }
      var sourceInfo;
      ok, sourceInfo := StripHeader(info, src);
      if !ok {
        return;
      }
      if info.mapping == Fx3 {
        ok := ProgramFxWindow(sourceInfo, src);
        if !ok {
          return;
        }
      }
      ok := SweepMap(sourceInfo, src);
      if !ok {
        return;
      }
      BuildRepresentatives(sourceInfo, src);
      ok := Commit(info, sourceInfo, src);
    }

    // The whole job after an eject: put the chain into file order, then install the detected ROM,
    // or leave a full raw image where it is. Detection itself is a parameter.
    method Process(raw: bool, detected: Option<RomInfo>) returns (ok: bool)
      requires Shape() && area.Valid() && area.status == Ready && Fresh()
      requires area.PagesInRange(area.uploadPages) && Distinct(area.uploadPages)
      requires |area.uploadPages| == (area.fileSize + PAGE - 1) / PAGE && area.fileSize <= rom.cells.Length + SPILL
      requires forall i :: 0 <= i < |area.uploadPages| ==> area.PageTouched(area.uploadPages[i])
      requires detected.Some? ==> Staged(detected.value, rom.cells.Length) &&
                                  detected.value.dataOffset + detected.value.size <= area.fileSize
      modifies this, area, rom, rom.cells, area.sectorBuffer, area.spill, area.swap0, area.swap1
      modifies if fxRom == null then {} else {fxRom}
      ensures ok <==> area.status == Complete
      ensures rom.failAt.None? && !ok ==> area.status == if raw || detected.None? then InvalidFile else FlashError
      ensures !ok ==> rom.Dead() || (if raw then old(area.fileSize) != rom.cells.Length
                                        else detected.None? || (detected.value.mapping == Fx3 && fxRom == null) ||
                                             !Spreads(detected.value, rom.cells.Length,
                                                      FileSlice(old(area.contents), old(area.uploadPages),
                                                                detected.value.dataOffset, detected.value.size)))
      ensures rom.failAt.None? ==>
                (ok <==> if raw then old(area.fileSize) == rom.cells.Length
                         else && detected.Some? && (detected.value.mapping == Fx3 ==> fxRom != null)
                              && Spreads(detected.value, rom.cells.Length,
                                         FileSlice(old(area.contents), old(area.uploadPages),
                                                   detected.value.dataOffset, detected.value.size)))
      ensures ok && raw ==> rom.cells[..] == FileSlice(old(area.contents), old(area.uploadPages), 0, old(area.fileSize))
      ensures ok && !raw ==> detected.Some? && Spreads(detected.value, rom.cells.Length,
                                                       FileSlice(old(area.contents), old(area.uploadPages),
                                                                 detected.value.dataOffset, detected.value.size))
      ensures ok && !raw ==> Installed(detected.value, FileSlice(old(area.contents), old(area.uploadPages),
                                                                detected.value.dataOffset, detected.value.size))
    {
      ghost var staged, pages, size := area.contents, area.uploadPages, area.fileSize;
      area.status := Programming;
      ok := area.MaterializeUpload();
      if !ok {
        area.Fail(FlashError);
        return;
      }
      if raw {
        ok := VerifyRaw();
        if !ok {
          area.Fail(InvalidFile);
          return;
        }
        RawInPlace(staged, pages);
      } else {
        if detected.None? {
          area.Fail(InvalidFile);
          return false;
        }
        FileStaged(detected.value, staged, pages, size);
        ok := Install(detected.value);
        if !ok {
          area.Fail(FlashError);
          return;
        }
      }
      area.status := Complete;
    }

    method VerifyRaw() returns (ok: bool)
      requires Shape()
      modifies rom
      ensures ok ==> area.fileSize == rom.cells.Length
      ensures !ok ==> rom.Dead() || area.fileSize != rom.cells.Length
    {
      if area.fileSize != rom.cells.Length {
        return false;
      }
      var address := 0;
      while address < area.fileSize
      {
        ok := rom.Active();
        if !ok {
          return;
        }
        address := address + 1;
      }
      ok := true;
    }

    lemma FileStaged(info: RomInfo, staged: seq<byte>, pages: seq<nat>, fileSize: nat)
      requires Shape() && area.Valid() && info.dataOffset + info.size <= fileSize <= rom.cells.Length + SPILL
      requires |pages| == (fileSize + PAGE - 1) / PAGE && FileOrdered(staged, area.contents, pages)
      requires forall i :: 0 <= i < |pages| ==> area.PageTouched(i)
      ensures area.SectorsOf(0, info.dataOffset + info.size) <= area.touched
      ensures Source(info) == FileSlice(staged, pages, info.dataOffset, info.size)
    {
      hide StagingArea.Valid, FileByte, SectorOf;
      AreaSize();
      forall o: nat | o < fileSize && o < rom.cells.Length
        ensures SectorOf(o) in area.touched
      {
        PageSector(0, o);
        assert area.PageTouched(o / PAGE);
      }
      SourceOrdered(info, staged, pages);
    }

    lemma AreaSize()
      requires Shape() && area.Valid()
      ensures |area.contents| == rom.cells.Length + SPILL
    {}

    lemma SourceOrdered(info: RomInfo, staged: seq<byte>, pages: seq<nat>)
      requires info.dataOffset + info.size <= |area.contents| && info.dataOffset + info.size <= |pages| * PAGE
      requires FileOrdered(staged, area.contents, pages)
      ensures Source(info) == FileSlice(staged, pages, info.dataOffset, info.size)
    {
      hide FileByte;
      forall i: nat | i < info.size
        ensures Source(info)[i] == FileSlice(staged, pages, info.dataOffset, info.size)[i]
      {
        FileByteAt(staged, area.contents, pages, info.dataOffset + i);
      }
    }

    lemma RawInPlace(staged: seq<byte>, pages: seq<nat>)
      requires Shape() && area.Valid() && area.stagingSector == INVALID_ADDRESS
      requires |pages| == rom.cells.Length / PAGE && FileOrdered(staged, area.contents, pages)
      requires forall i :: 0 <= i < |pages| ==> area.PageTouched(i)
      ensures rom.cells[..] == FileSlice(staged, pages, 0, rom.cells.Length)
    {
      CapacitySectors(rom.cells.Length);
      forall a: nat | a < rom.cells.Length
        ensures rom.cells[a] == FileByte(staged, pages, a)
      {
        FileByteAt(staged, area.contents, pages, a);
        PageSector(0, a);
        assert area.PageTouched(a / PAGE);
        assert area.contents[a] == area.ReadStaged(a);
      }
    }

    lemma HeaderStaged(info: RomInfo)
      requires Shape() && area.Valid() && area.stagingSector == INVALID_ADDRESS && 512 <= info.dataOffset
      requires area.SectorsOf(0, info.dataOffset + info.size) <= area.touched
      ensures rom.cells[..512] == area.contents[..512]
    {
      forall i: nat | i < 512
        ensures rom.cells[i] == area.contents[i]
      {
        assert SectorOf(i) in area.SectorsOf(0, info.dataOffset + info.size);
        assert area.contents[i] == area.ReadStaged(i);
      }
    }

    // A copier header is removed by sliding the image over it in place.
    method StripHeader(info: RomInfo, ghost src: seq<byte>) returns (ok: bool, sourceInfo: RomInfo)
      requires Shape() && area.Valid() && area.stagingSector == INVALID_ADDRESS && Fresh()
      requires Staged(info, rom.cells.Length) && area.SectorsOf(info.dataOffset, info.size) <= area.touched
      requires src == Source(info) && Consistent(info, rom.cells.Length, src)
      modifies area, rom, rom.cells, area.sectorBuffer
      ensures !ok ==> rom.Dead()
      ensures ok ==> sourceInfo == Landed(info)
      ensures ok ==> Sweeping(sourceInfo, src)
    {
      sourceInfo := info;
      ok := true;
      var headerSize := if info.dataOffset >= 4 * MIB then info.dataOffset - 4 * MIB else info.dataOffset;
      if headerSize == 512 {
        SlideLands(area.contents, info.dataOffset, info.size, info.dataOffset - headerSize);
        hide Slide;
        ok := area.CopyToTemp(info.dataOffset, info.size, info.dataOffset - headerSize, false);
        if !ok {
          return;
        }
        sourceInfo := info.(dataOffset := info.dataOffset - headerSize);
        assert Source(sourceInfo) == src;
      }
      SameConsistent(info, sourceInfo, rom.cells.Length, src);
      SweepStarts(sourceInfo);
    }

    // Only a completely verified 128-Mbit image gets its descriptor.
    method Commit(info: RomInfo, sourceInfo: RomInfo, ghost src: seq<byte>) returns (ok: bool)
      requires Sweeping(sourceInfo, src) && finalSectors == Span(0, rom.cells.Length)
      requires sourceInfo == info.(dataOffset := sourceInfo.dataOffset)
      modifies rom, rom.cells
      ensures !ok ==> rom.Dead()
      ensures ok ==> Installed(info, src)
      ensures ok ==> RepresentativesSound(info, rom.cells.Length, Span(0, rom.cells.Length), representative)
    {
      SweptImage(info, sourceInfo, rom.cells.Length, src, finalSectors, rom.cells[..]);
      SameHomes(info, sourceInfo, rom.cells.Length, finalSectors, representative);
      hide AliasByte, SourceOffset, RepresentativesSound;
      ok := true;
      if rom.cells.Length == MAX_CAPACITY {
        ok := ProgramDescriptor(info);
      }
    }

    // One source byte, wherever it lives by now.
    method ReadInstallSource(info: RomInfo, offset: nat, ghost src: seq<byte>) returns (ok: bool, value: byte)
      requires Sweeping(info, src) && offset < info.size
      ensures ok ==> value == src[offset]
      ensures ok <==> Available(info, rom.cells.Length, finalSectors, offset)
    {
      var staged := info.dataOffset + offset;
      if staged >= rom.cells.Length {
        value := area.ReadStaged(staged);
        return true, value;
      }
      if SectorOf(staged) !in finalSectors {
        return true, rom.cells[staged];
      }
      var home := representative[offset / PAGE];
      if home == INVALID_ADDRESS {
        return false, 0;
      }
      HomeHolds(info, rom.cells.Length, src, finalSectors, rom.cells[..], offset, home);
      return true, rom.cells[home + offset % PAGE];
    }

    // The byte of one NOR address: all its aliases are read and have to agree, and they do.
    method MergeAliases(info: RomInfo, a: nat, ghost src: seq<byte>) returns (ok: bool, value: byte)
      requires Sweeping(info, src) && a < rom.cells.Length
      ensures ok <==> ReadableBelow(info, rom.cells.Length, finalSectors, a, MAX_CAPACITY)
      ensures ok ==> value == ImageByte(info, rom.cells.Length, src, a)
    {
      ghost var c := rom.cells.Length;
      hide Physical, SourceOffset, IsCapacity, Consistent, ReadableBelow, Available, Sweeping, AliasByte, ImageByte, Shape;
      SweepingHas(info, a, src);
      ImageFirst(info, c, src, a);
      ReadableStart(info, c, finalSectors, a);
      var found, alias := false, a;
      value := ERASED;
      while alias < MAX_CAPACITY
        invariant Physical(c, alias) == a && ReadableBelow(info, c, finalSectors, a, alias)
        invariant if found then value == ImageByte(info, c, src, a)
                  else value == ERASED && ImageByte(info, c, src, a) == AliasByte(info, c, src, alias)
        decreases MAX_CAPACITY - alias
      {
        var source, next := SourceOffset(info, alias), alias + rom.cells.Length;
        AliasNext(info, c, src, alias, next);
        if source.Some? {
          AliasShows(info, c, src, a, alias);
          var read, candidate := ReadInstallSource(info, source.value, src);
          if !read || (found && candidate != value) {
            ReadableMisses(info, c, finalSectors, a, alias);
            return false, value;
          }
          value, found := candidate, true;
        }
        ReadableNext(info, c, finalSectors, a, alias, next);
        alias := next;
      }
      NoneAbove(info, c, src, alias);
      ReadableAll(info, c, finalSectors, a, alias);
      ok := true;
    }

    lemma SweepingHas(info: RomInfo, a: nat, src: seq<byte>)
      requires Sweeping(info, src) && a < rom.cells.Length
      ensures IsCapacity(rom.cells.Length) && |src| == info.size && Consistent(info, rom.cells.Length, src)
      ensures Physical(rom.cells.Length, a) == a
    {
      hide SourceOffset, Consistent, PhysicalBank;
    }

    method BuildSector(info: RomInfo, address: nat, ghost src: seq<byte>) returns (ok: bool)
      requires Sweeping(info, src) && address % SECTOR == 0 && address < rom.cells.Length
      modifies area.sectorBuffer
      ensures Sweeping(info, src) && (ok <==> SectorSafe(info, rom.cells.Length, finalSectors, SectorOf(address)))
      ensures ok ==> forall i :: 0 <= i < SECTOR ==>
                area.sectorBuffer[i] == ImageByte(info, rom.cells.Length, src, address + i)
    {
      SectorRange(address);
      SectorReadable(info, rom.cells.Length, finalSectors, address);
      hide Consistent, Finished, SourceKept, RepresentativesSound, SectorSafe, IsCapacity, ImageByte, ReadableBelow;
      var index := 0;
      while index < SECTOR
        invariant 0 <= index <= SECTOR && Sweeping(info, src)
        invariant forall a: nat :: address <= a < address + index ==> ReadableBelow(info, rom.cells.Length, finalSectors, a, MAX_CAPACITY)
        invariant forall i :: 0 <= i < index ==>
                    area.sectorBuffer[i] == ImageByte(info, rom.cells.Length, src, address + i)
      {
        var value;
        ok, value := MergeAliases(info, address + index, src);
        if !ok {
          return;
        }
        area.sectorBuffer[index] := value;
        index := index + 1;
      }
      ok := true;
    }

    method ProgramSector(info: RomInfo, address: nat, ghost src: seq<byte>) returns (ok: bool)
      requires Sweeping(info, src) && address % SECTOR == 0 && address < rom.cells.Length
      modifies `finalSectors, `representative, area`erasedSectors, rom, rom.cells, area.sectorBuffer
      ensures !ok ==> rom.Dead() || !SectorSafe(info, rom.cells.Length, old(finalSectors), SectorOf(address))
      ensures ok ==> SectorSafe(info, rom.cells.Length, old(finalSectors), SectorOf(address))
      ensures rom.failAt.None? ==> (ok <==> SectorSafe(info, rom.cells.Length, old(finalSectors), SectorOf(address)))
      ensures ok ==> Sweeping(info, src) && finalSectors == old(finalSectors) + {SectorOf(address)}
      ensures ok ==> area.erasedSectors == old(area.erasedSectors) + {SectorOf(address)}
    {
      ok := BuildSector(info, address, src);
      if !ok {
        return;
      }
      ghost var before := rom.cells[..];
      ok := rom.WriteSector(address, area.sectorBuffer);
      if !ok {
        return;
      }
      AfterSector(info, src, finalSectors, before, rom.cells[..], area.spill[..], address, area.sectorBuffer[..]);
      area.erasedSectors := area.erasedSectors + {SectorOf(address)};
      RecordHomes(info, address, finalSectors);
      finalSectors := finalSectors + {SectorOf(address)};
    }

    // One sweep over a range of sectors, in the order the map calls for.
    method ProgramRange(info: RomInfo, begin: nat, end: nat, descending: bool, ghost src: seq<byte>) returns (ok: bool)
      requires Sweeping(info, src) && begin % SECTOR == 0 && end % SECTOR == 0 && begin <= end <= rom.cells.Length
      modifies `finalSectors, `representative, area`erasedSectors, rom, rom.cells, area.sectorBuffer
      ensures !ok ==> rom.Dead() || !RangeSafe(info, rom.cells.Length, old(finalSectors), begin, end, descending)
      ensures ok ==> RangeSafe(info, rom.cells.Length, old(finalSectors), begin, end, descending)
      ensures rom.failAt.None? ==> (ok <==> RangeSafe(info, rom.cells.Length, old(finalSectors), begin, end, descending))
      ensures ok ==> Sweeping(info, src) && finalSectors == old(finalSectors) + Span(begin, end)
    {
      hide Sweep, SweepAddress, SectorOf, Span, Done, SectorSafe, RangeSafe, StepsSafe, IsCapacity, Sweeping;
      SweepingCapacity(info, src);
      ghost var start, c := finalSectors, rom.cells.Length;
      var count := (end - begin) / SECTOR;
      var step := 0;
      SweepEnds(begin, end, descending);
      RangeSteps(info, c, start, begin, end, descending);
      while step < count
        invariant 0 <= step <= count && Sweeping(info, src)
        invariant finalSectors == start + Sweep(begin, end, descending, step)
        invariant StepsSafe(info, c, start, begin, end, descending, step)
      {
        ok := ProgramStep(info, begin, end, descending, step, start, src);
        if !ok {
          return;
        }
        step := step + 1;
      }
      ok := true;
    }

    method ProgramStep(info: RomInfo, begin: nat, end: nat, descending: bool, step: nat, ghost start: set<nat>,
                       ghost src: seq<byte>) returns (ok: bool)
      requires Sweeping(info, src) && begin % SECTOR == 0 && end % SECTOR == 0 && begin <= end <= rom.cells.Length
      requires step < (end - begin) / SECTOR && finalSectors == start + Sweep(begin, end, descending, step)
      modifies `finalSectors, `representative, area`erasedSectors, rom, rom.cells, area.sectorBuffer
      requires StepsSafe(info, rom.cells.Length, start, begin, end, descending, step)
      ensures !ok ==> rom.Dead() || !RangeSafe(info, rom.cells.Length, start, begin, end, descending)
      ensures ok ==> StepsSafe(info, rom.cells.Length, start, begin, end, descending, step + 1)
      ensures ok ==> Sweeping(info, src) && finalSectors == start + Sweep(begin, end, descending, step + 1)
    {
      SweepNext(start, begin, end, descending, step);
      StepsNext(info, rom.cells.Length, start, begin, end, descending, step);
      hide Sweep, SweepAddress, SectorOf, Span, Done, SectorSafe, RangeSafe, StepsSafe, IsCapacity, Consistent, Finished,
           SourceKept, RepresentativesSound;
      ok := ProgramSector(info, SweepAddress(begin, end, descending, step), src);
    }

    // Record the pages a freshly written sector shows.
    method RecordHomes(info: RomInfo, address: nat, ghost finished: set<nat>)
      requires Shape() && address % SECTOR == 0 && address < rom.cells.Length
      requires |representative| == MAX_SOURCE_PAGES && info.size % PAGE == 0 && info.size <= MAX_SOURCE_PAGES * PAGE
      requires RepresentativesSound(info, rom.cells.Length, finished, representative)
      modifies `representative
      ensures |representative| == MAX_SOURCE_PAGES
      ensures RepresentativesSound(info, rom.cells.Length, finished + {SectorOf(address)}, representative)
    {
      hide SourceOffset, Physical, SectorOf;
      ghost var c, t := rom.cells.Length, SectorOf(address);
      ghost var final := finished + {t};
      HomesStart(info, c, finished, address, representative);
      var pageAddress := address;
      while pageAddress < address + SECTOR
        invariant address <= pageAddress <= address + SECTOR && pageAddress % PAGE == 0
        invariant |representative| == MAX_SOURCE_PAGES
        invariant HomesRecorded(info, c, final, t, pageAddress, 0, representative)
      {
        RecordPage(info, address, pageAddress, finished);
        HomesNextPage(info, c, final, t, pageAddress, representative);
        pageAddress := pageAddress + PAGE;
      }
      HomesEnd(info, c, final, address, representative);
    }

    method RecordPage(info: RomInfo, ghost address: nat, pageAddress: nat, ghost finished: set<nat>)
      requires Shape() && |representative| == MAX_SOURCE_PAGES
      requires info.size % PAGE == 0 && info.size <= MAX_SOURCE_PAGES * PAGE
      requires address % SECTOR == 0 && address <= pageAddress < address + SECTOR <= rom.cells.Length && pageAddress % PAGE == 0
      requires HomesRecorded(info, rom.cells.Length, finished + {SectorOf(address)}, SectorOf(address), pageAddress, 0, representative)
      modifies `representative
      ensures |representative| == MAX_SOURCE_PAGES
      ensures HomesRecorded(info, rom.cells.Length, finished + {SectorOf(address)}, SectorOf(address), pageAddress, BUS, representative)
    {
      hide SourceOffset, Physical, SectorOf, HomesRecorded, IsCapacity;
      ghost var c, t := rom.cells.Length, SectorOf(address);
      ghost var final := finished + {t};
      SectorRange(address);
      var alias := pageAddress;
      assert Physical(c, alias) == pageAddress;
      HomesNextAlias(info, c, final, t, pageAddress, 0, pageAddress, representative);
      while alias < MAX_CAPACITY
        invariant |representative| == MAX_SOURCE_PAGES && alias % PAGE == 0 && Physical(c, alias) == pageAddress
        invariant HomesRecorded(info, c, final, t, pageAddress, alias, representative)
        decreases MAX_CAPACITY - alias
      {
        HomesAdd(info, c, final, t, pageAddress, alias, representative);
        var source := SourceOffset(info, alias);
        if source.Some? {
          representative := representative[source.value / PAGE := pageAddress];
        }
        HomesNextAlias(info, c, final, t, pageAddress, alias + 1, alias + rom.cells.Length, representative);
        PhysicalStep(c, alias);
        PageStep(c, alias);
        alias := alias + rom.cells.Length;
      }
      HomesPastBus(info, c, final, t, pageAddress, alias, representative);
    }
  }

  // All aliases of NOR address a below a bus address can be read.
  ghost predicate ReadableBelow(info: RomInfo, c: nat, final: set<nat>, a: nat, limit: nat)
    requires IsCapacity(c)
  {
    forall x: nat :: x < limit && x < BUS && Physical(c, x) == a && SourceOffset(info, x).Some? ==>
      Available(info, c, final, SourceOffset(info, x).value)
  }

  lemma ReadableStart(info: RomInfo, c: nat, final: set<nat>, a: nat)
    requires IsCapacity(c)
    ensures ReadableBelow(info, c, final, a, a)
  {}

  lemma ImageFirst(info: RomInfo, c: nat, src: seq<byte>, a: nat)
    requires IsCapacity(c) && |src| == info.size
    ensures ImageByte(info, c, src, a) == AliasByte(info, c, src, a)
  {}

  // The next alias decides when this one is not mapped, and above the bus there is none.
  lemma AliasNext(info: RomInfo, c: nat, src: seq<byte>, alias: nat, next: nat)
    requires IsCapacity(c) && |src| == info.size && alias < BUS && next == alias + c
    ensures SourceOffset(info, alias).None? ==> AliasByte(info, c, src, alias) == AliasByte(info, c, src, next)
  {
    hide SourceOffset;
  }

  lemma NoneAbove(info: RomInfo, c: nat, src: seq<byte>, alias: nat)
    requires IsCapacity(c) && |src| == info.size && BUS <= alias
    ensures AliasByte(info, c, src, alias) == ERASED
  {}

  lemma ReadableNext(info: RomInfo, c: nat, final: set<nat>, a: nat, alias: nat, next: nat)
    requires IsCapacity(c) && next == alias + c && ReadableBelow(info, c, final, a, alias) && Physical(c, alias) == a
    requires alias < BUS && SourceOffset(info, alias).Some? ==> Available(info, c, final, SourceOffset(info, alias).value)
    ensures ReadableBelow(info, c, final, a, next) && Physical(c, next) == a
  {
    hide Physical, SourceOffset, Available;
    PhysicalStep(c, alias);
    forall x: nat | alias < x && Physical(c, x) == a
      ensures alias + c <= x
    {
      AliasGap(c, alias, x);
    }
  }

  lemma ReadableAll(info: RomInfo, c: nat, final: set<nat>, a: nat, limit: nat)
    requires IsCapacity(c) && MAX_CAPACITY <= limit && ReadableBelow(info, c, final, a, limit)
    ensures ReadableBelow(info, c, final, a, MAX_CAPACITY)
  {}

  lemma ReadableMisses(info: RomInfo, c: nat, final: set<nat>, a: nat, alias: nat)
    requires IsCapacity(c) && alias < BUS && Physical(c, alias) == a && SourceOffset(info, alias).Some?
    requires !Available(info, c, final, SourceOffset(info, alias).value)
    ensures !ReadableBelow(info, c, final, a, MAX_CAPACITY)
  {}

  // A sector can be built exactly when all its addresses can be read.
  lemma SectorReadable(info: RomInfo, c: nat, final: set<nat>, address: nat)
    requires IsCapacity(c) && address % SECTOR == 0
    ensures SectorSafe(info, c, final, SectorOf(address)) <==>
            forall a: nat :: address <= a < address + SECTOR ==> ReadableBelow(info, c, final, a, MAX_CAPACITY)
  {
    hide Physical, SourceOffset, Available;
    SectorRange(address);
    if forall a: nat :: address <= a < address + SECTOR ==> ReadableBelow(info, c, final, a, MAX_CAPACITY) {
      forall x: nat | x < BUS && SectorOf(Physical(c, x)) == SectorOf(address) && SourceOffset(info, x).Some?
        ensures Available(info, c, final, SourceOffset(info, x).value)
      {
        assert ReadableBelow(info, c, final, Physical(c, x), MAX_CAPACITY);
      }
    }
  }

  lemma AliasShows(info: RomInfo, c: nat, src: seq<byte>, a: nat, alias: nat)
    requires IsCapacity(c) && |src| == info.size && Consistent(info, c, src)
    requires alias < BUS && Physical(c, alias) == a && SourceOffset(info, alias).Some?
    ensures src[SourceOffset(info, alias).value] == ImageByte(info, c, src, a)
  {}

  // The page shown by the first mapped alias at or above a bus page.
  ghost function AliasPage(info: RomInfo, c: nat, src: seq<byte>, address: nat): (r: seq<byte>)
    requires IsCapacity(c) && |src| == info.size
    ensures |r| == PAGE
  {
    seq<byte>(PAGE, i requires 0 <= i < PAGE => AliasByte(info, c, src, address + i))
  }

  lemma AliasPageStep(info: RomInfo, c: nat, src: seq<byte>, address: nat)
    requires IsCapacity(c) && |src| == info.size && info.size % PAGE == 0 && address < BUS && address % PAGE == 0
    ensures var source := SourceOffset(info, address);
            && (source.Some? ==> source.value % PAGE == 0 && source.value + PAGE <= info.size)
            && AliasPage(info, c, src, address) ==
               if source.Some? then src[source.value..source.value + PAGE] else AliasPage(info, c, src, address + c)
  {
    hide IsCapacity;
    SourcePage(info, address, 0);
    var source := SourceOffset(info, address);
    var page := AliasPage(info, c, src, address);
    forall i: nat | i < PAGE
      ensures page[i] == if source.Some? then src[source.value..source.value + PAGE][i] else AliasPage(info, c, src, address + c)[i]
    {
      SourcePage(info, address, i);
      PageBelowBus(address, i);
      assert page[i] == AliasByte(info, c, src, address + i);
      if source.Some? {
        assert SourceOffset(info, address + i) == Some(source.value + i);
      } else {
        assert AliasByte(info, c, src, address + i) == AliasByte(info, c, src, address + c + i);
      }
    }
  }

  // The page shown at bus page x is the one the image holds there.
  ghost predicate PageAgrees(info: RomInfo, c: nat, src: seq<byte>, x: nat)
    requires IsCapacity(c) && |src| == info.size
  {
    x < BUS && SourceOffset(info, x).Some? ==>
      var s := SourceOffset(info, x).value;
      s + PAGE <= info.size && src[s..s + PAGE] == AliasPage(info, c, src, Physical(c, x))
  }

  lemma PagesAgree(info: RomInfo, c: nat, src: seq<byte>)
    requires IsCapacity(c) && |src| == info.size && info.size % PAGE == 0
    requires forall x: nat :: x < BUS && x % PAGE == 0 ==> PageAgrees(info, c, src, x)
    ensures Consistent(info, c, src)
  {
    hide SourceOffset, Physical, AliasByte, IsCapacity;
    forall x: nat | x < BUS && SourceOffset(info, x).Some?
      ensures src[SourceOffset(info, x).value] == ImageByte(info, c, src, Physical(c, x))
    {
      var i := x % PAGE;
      SourcePage(info, x - i, i);
      PhysicalPage(c, x - i, i);
      assert PageAgrees(info, c, src, x - i);
      var s := SourceOffset(info, x - i).value;
      assert src[s..s + PAGE][i] == AliasPage(info, c, src, Physical(c, x - i))[i];
    }
  }

  // What is known about NOR page physical when its aliases below address have been merged.
  ghost predicate PageMerged(info: RomInfo, c: nat, src: seq<byte>, physical: nat, address: nat, found: bool, page: seq<byte>)
    requires IsCapacity(c) && |src| == info.size
  {
    && AliasPage(info, c, src, physical) == (if found then page else AliasPage(info, c, src, address))
    && forall x: nat :: x < address && x % PAGE == 0 && Physical(c, x) == physical ==> PageAgrees(info, c, src, x)
  }

  lemma MergeStart(info: RomInfo, c: nat, src: seq<byte>, physical: nat, page: seq<byte>)
    requires IsCapacity(c) && |src| == info.size && physical < c
    ensures PageMerged(info, c, src, physical, physical, false, page)
  {
    hide PageAgrees;
    assert forall x: nat :: x < physical ==> Physical(c, x) == x;
  }

  lemma MergeEnd(info: RomInfo, c: nat, src: seq<byte>, physical: nat, address: nat, found: bool, page: seq<byte>)
    requires IsCapacity(c) && |src| == info.size && BUS <= address
    requires PageMerged(info, c, src, physical, address, found, page)
    ensures forall x: nat :: x < BUS && x % PAGE == 0 && Physical(c, x) == physical ==> PageAgrees(info, c, src, x)
  {}

  // One alias further: either unmapped, or the first one seen, or equal to the first one seen.
  lemma MergeNext(info: RomInfo, c: nat, src: seq<byte>, physical: nat, address: nat, found: bool, before: seq<byte>,
                  after: seq<byte>)
    requires IsCapacity(c) && |src| == info.size && info.size % PAGE == 0 && address < BUS && address % PAGE == 0
    requires Physical(c, address) == physical && PageMerged(info, c, src, physical, address, found, before)
    requires var source := SourceOffset(info, address);
             if source.Some? then source.value + PAGE <= |src| && after == src[source.value..source.value + PAGE] && (found ==> after == before)
             else after == before
    ensures PageMerged(info, c, src, physical, address + c, found || SourceOffset(info, address).Some?, after)
  {
    AliasPageStep(info, c, src, address);
    hide Physical, IsCapacity, SourceOffset, AliasByte;
    assert PageAgrees(info, c, src, address);
    forall x: nat | x < address + c && x % PAGE == 0 && Physical(c, x) == physical
      ensures PageAgrees(info, c, src, x)
    {
      if address < x {
        AliasGap(c, address, x);
      }
    }
  }

  lemma MergeConflict(info: RomInfo, c: nat, src: seq<byte>, physical: nat, address: nat, page: seq<byte>)
    requires IsCapacity(c) && |src| == info.size && info.size % PAGE == 0 && address < BUS && address % PAGE == 0
    requires Physical(c, address) == physical && SourceOffset(info, address).Some?
    requires PageMerged(info, c, src, physical, address, true, page)
    requires SourceOffset(info, address).value + PAGE <= |src|
    requires page != src[SourceOffset(info, address).value..SourceOffset(info, address).value + PAGE]
    ensures !Consistent(info, c, src)
  {
    hide Physical, IsCapacity, SourceOffset;
    var s := SourceOffset(info, address).value;
    assert |page| == PAGE;
    var i: nat :| i < PAGE && page[i] != src[s..s + PAGE][i];
    SourcePage(info, address, i);
    PhysicalPage(c, address, i);
    PageBelowBus(address, i);
    assert SourceOffset(info, address + i) == Some(s + i);
  }

  // Byte o of the uploaded file: the chain says which staged page it is in.
  function FileByte(staged: seq<byte>, pages: seq<nat>, o: nat): byte
    requires o / PAGE < |pages| && (pages[o / PAGE] + 1) * PAGE <= |staged|
  {
    PageAt(staged, pages[o / PAGE])[o % PAGE]
  }

  function FileSlice(staged: seq<byte>, pages: seq<nat>, offset: nat, count: nat): (r: seq<byte>)
    requires offset + count <= |pages| * PAGE
    requires forall i :: 0 <= i < |pages| ==> (pages[i] + 1) * PAGE <= |staged|
    ensures |r| == count
  {
    seq<byte>(count, i requires 0 <= i < count => FileByte(staged, pages, offset + i))
  }

  lemma FileByteAt(staged: seq<byte>, file: seq<byte>, pages: seq<nat>, o: nat)
    requires FileOrdered(staged, file, pages) && o < |pages| * PAGE
    ensures file[o] == FileByte(staged, pages, o)
  {
    assert file[o] == PageAt(file, o / PAGE)[o % PAGE];
  }

  // What header detection accepts, staged completely: no header, a copier header, and for an FX3
  // dump the striped copy of the ROM in front of the canonical one.
  predicate Staged(info: RomInfo, c: nat) {
    && IsCapacity(c) && Whole(info)
    && (info.dataOffset == 0 || info.dataOffset == 512 ||
        (info.mapping == Fx3 && (info.dataOffset == 0x40_0000 || info.dataOffset == 0x40_0200)))
    && info.dataOffset + info.size <= c + info.dataOffset % 0x40_0000
  }

  // When the byte at an index of the descriptor is programmed: from index 4 on, wrapping around.
  function Turn(index: nat): nat {
    (index + 12) % DESCRIPTOR_SIZE
  }

  lemma TurnBound()
    ensures forall k: nat :: Turn(k) < DESCRIPTOR_SIZE
  {}

  lemma TurnOf(step: nat)
    requires step < DESCRIPTOR_SIZE
    ensures forall k: nat :: k < DESCRIPTOR_SIZE ==> (Turn(k) == step <==> k == (step + 4) % DESCRIPTOR_SIZE)
  {}

  lemma NoHomes(info: RomInfo, c: nat, representative: seq<nat>)
    requires IsCapacity(c) && forall p :: 0 <= p < |representative| ==> representative[p] == INVALID_ADDRESS
    ensures RepresentativesSound(info, c, Span(0, 0), representative)
  {}

  lemma SpanNext(address: nat)
    requires address % SECTOR == 0
    ensures Span(0, address) + {SectorOf(address)} == Span(0, address + SECTOR)
  {}

  // Where the source was does not matter for what is shown.
  lemma {:induction false} SameAliasByte(info: RomInfo, other: RomInfo, c: nat, src: seq<byte>, alias: nat)
    requires IsCapacity(c) && |src| == info.size && other == info.(dataOffset := other.dataOffset)
    ensures AliasByte(info, c, src, alias) == AliasByte(other, c, src, alias)
    decreases BUS - alias
  {
    if alias < BUS {
      SameAliasByte(info, other, c, src, alias + c);
    }
  }

  lemma SameConsistent(info: RomInfo, other: RomInfo, c: nat, src: seq<byte>)
    requires IsCapacity(c) && |src| == info.size && other == info.(dataOffset := other.dataOffset) && Consistent(info, c, src)
    ensures Consistent(other, c, src)
  {
    hide Physical;
    forall x: nat | x < BUS && SourceOffset(other, x).Some?
      ensures src[SourceOffset(other, x).value] == ImageByte(other, c, src, Physical(c, x))
    {
      SameAliasByte(info, other, c, src, Physical(c, x));
      assert SourceOffset(info, x) == SourceOffset(other, x);
    }
  }

  lemma SameHomes(info: RomInfo, other: RomInfo, c: nat, final: set<nat>, representative: seq<nat>)
    requires IsCapacity(c) && other == info.(dataOffset := other.dataOffset)
    requires RepresentativesSound(other, c, final, representative)
    ensures RepresentativesSound(info, c, final, representative)
  {
    forall p: nat, x: nat
      ensures Homed(info, c, final, p, x) == Homed(other, c, final, p, x)
    {}
    forall p: nat | p < |representative| && representative[p] != INVALID_ADDRESS
      ensures HomeOf(info, c, final, p, representative[p])
    {
      var x: nat :| Homed(other, c, final, p, x) && Physical(c, x) == representative[p];
      assert Homed(info, c, final, p, x);
    }
  }

  lemma SweptImage(info: RomInfo, other: RomInfo, c: nat, src: seq<byte>, final: set<nat>, cells: seq<byte>)
    requires IsCapacity(c) && |src| == info.size && other == info.(dataOffset := other.dataOffset) && |cells| == c
    requires final == Span(0, c) && Finished(other, c, src, final, cells)
    ensures forall a :: 0 <= a < c ==> cells[a] == ImageByte(info, c, src, a)
    ensures c == MAX_CAPACITY ==> forall a :: InDescriptor(a) ==> cells[a] == ERASED
  {
    forall a: nat | a < c
      ensures cells[a] == ImageByte(info, c, src, a)
    {
      assert SectorOf(a) < c / SECTOR && NotBefore(SectorOf(a), 0);
      SameAliasByte(info, other, c, src, a);
    }
    if c == MAX_CAPACITY {
      forall a: nat | InDescriptor(a)
        ensures ImageByte(info, c, src, a) == ERASED
      {
        assert SourceOffset(info, a).None?;
        assert AliasByte(info, c, src, a + c) == ERASED;
      }
    }
  }

  predicate InDescriptor(a: int) {
    DESCRIPTOR_ADDRESS <= a < DESCRIPTOR_ADDRESS + DESCRIPTOR_SIZE
  }

  lemma CapacitySectors(c: nat)
    requires IsCapacity(c)
    ensures c % SECTOR == 0 && 0 < c
  {}

  // A ROM of whole banks, as detection reports it.
  predicate Whole(info: RomInfo) {
    0 < info.size <= MAX_SOURCE_PAGES * PAGE && info.size % 0x8000 == 0
  }

  // Where the source lies once a copier header is gone.
  function Landed(info: RomInfo): RomInfo {
    info.(dataOffset := if info.dataOffset >= 0x40_0000 then 0x40_0000 else 0)
  }

  // The ROM can be spread over the flash it is staged in: its bus addresses agree, and the order is safe.
  ghost predicate Spreads(info: RomInfo, c: nat, src: seq<byte>) {
    IsCapacity(c) && |src| == info.size && Consistent(info, c, src) && Sweepable(Landed(info), c)
  }

  lemma EmptySpan(s: set<nat>)
    ensures {} + s == s
  {}

  lemma HalfSpans(c: nat)
    requires IsCapacity(c)
    ensures {} + Span(0, c / 2) == Span(0, c / 2) && {} + Span(c / 2, c) == Span(c / 2, c)
    ensures Span(0, c / 2) + Span(c / 2, c) == Span(0, c) == Span(c / 2, c) + Span(0, c / 2)
  {
    SpanSplit(0, c / 2, c);
  }

  lemma SpanSplit(a: nat, b: nat, c: nat)
    requires a <= b <= c && b % SECTOR == 0
    ensures Span(a, b) + Span(b, c) == Span(a, c)
  {
    forall t: nat
      ensures t in Span(a, b) || t in Span(b, c) <==> t in Span(a, c)
    {
      assert NotBefore(t, a) || !NotBefore(t, b);
    }
  }

  lemma WindowSpans(c: nat)
    requires IsCapacity(c) && 0x40_0000 < c
    ensures {} + Span(0x40_0000, 0x80_0000) == Span(0x40_0000, 0x80_0000)
    ensures Span(0x40_0000, 0x80_0000) + Span(0, 0x40_0000) == Span(0, 0x80_0000)
    ensures c == 0x100_0000 ==> Span(0x40_0000, 0x80_0000) + Span(0xC0_0000, c) + Span(0, 0x40_0000) + Span(0x80_0000, 0xC0_0000) == Span(0, c)
    ensures Span(0x40_0000, 0x80_0000) + {} == Span(0x40_0000, 0x80_0000)
  {
    SpanSplit(0, 0x40_0000, 0x80_0000);
    SpanSplit(0x80_0000, 0xC0_0000, 0x100_0000);
    SpanSplit(0, 0x80_0000, 0x100_0000);
  }

  // The two conditions of an installation for every ROM the header detection can come to: its bus addresses
  // agree, and its size suits the sweep of its map.
  lemma SpreadsExact(info: RomInfo, c: nat, src: seq<byte>)
    requires Served(info) && Staged(info, c) && |src| == info.size
    ensures Spreads(info, c, src) <==> Consistent(info, c, src) && Ordered(info, c)
  {
    hide Consistent, AliasByte, Sweepable;
    SweepableExact(Landed(info), c);
  }

  // Of the sizes the maps allow, LoRom up to half the chip and all others install whatever their bytes are.
  lemma Undisturbed(info: RomInfo, c: nat, src: seq<byte>)
    requires Installable(info, c) && Staged(info, c) && |src| == info.size
    ensures Spreads(info, c, src)
  {
    hide Consistent, AliasByte, Sweepable;
    InstallableConsistent(info, c, src);
    SpreadsExact(info, c, src);
  }

  // What the GSU sees: the start of the ROM, mirrored when it is smaller.
  function FxWindow(info: RomInfo, src: seq<byte>): (r: seq<byte>)
    requires 0 < info.size == |src|
    ensures |r| == FX_WINDOW
  {
    seq<byte>(FX_WINDOW, o requires 0 <= o < FX_WINDOW => src[MirrorOffset(info.size, o)])
  }

  // Banks $40 and up show an FX3 ROM linearly, so a window page is a source page.
  lemma FxWindowPage(info: RomInfo, src: seq<byte>, offset: nat)
    requires info.mapping == Fx3 && 0 < info.size == |src| && info.size % PAGE == 0
    requires offset % PAGE == 0 && offset < FX_WINDOW
    ensures var source := SourceOffset(info, 0x40_0000 + offset);
            && source.Some? && source.value + PAGE <= info.size
            && FxWindow(info, src)[offset..offset + PAGE] == src[source.value..source.value + PAGE]
  {
    hide SourceOffset, MirrorOffset;
    FxWindowSource(info, offset);
    var s := MirrorOffset(info.size, offset);
    var page := FxWindow(info, src)[offset..offset + PAGE];
    forall i: nat | i < PAGE
      ensures page[i] == src[s..s + PAGE][i]
    {
      MirrorWithinPage(info.size, offset, i);
      assert page[i] == src[MirrorOffset(info.size, offset + i)];
    }
  }

  lemma FxWindowSource(info: RomInfo, offset: nat)
    requires info.mapping == Fx3 && 0 < info.size && info.size % PAGE == 0 && offset % PAGE == 0 && offset < FX_WINDOW
    ensures SourceOffset(info, 0x40_0000 + offset) == Some(MirrorOffset(info.size, offset))
    ensures MirrorOffset(info.size, offset) + PAGE <= info.size
  {
    hide MirrorOffset;
    hide SourceOffset;
    var bank, low := offset / 0x1_0000, offset % 0x1_0000;
    assert offset == bank * 0x1_0000 + low;
    UpperBank(info, bank, low);
    SourcePage(info, 0x40_0000 + offset, 0);
  }

  lemma UpperBank(info: RomInfo, bank: nat, low: nat)
    requires info.mapping == Fx3 && 0 < info.size && bank < 0x30 && low < 0x1_0000
    ensures SourceOffset(info, 0x40_0000 + bank * 0x1_0000 + low) == Some(MirrorOffset(info.size, bank * 0x1_0000 + low))
  {
    hide MirrorOffset, SourceOffset;
    SourceInBank(info, 0x40 + bank, low, 0x40_0000 + bank * 0x1_0000 + low);
  }

  // The sectors a sweep has finished after some steps.
  ghost function Sweep(begin: nat, end: nat, descending: bool, step: nat): set<nat>
    requires step <= (end - begin) / SECTOR && begin <= end
  {
    if descending then Span(end - step * SECTOR, end) else Span(begin, begin + step * SECTOR)
  }

  lemma SweepEnds(begin: nat, end: nat, descending: bool)
    requires begin % SECTOR == 0 && end % SECTOR == 0 && begin <= end
    ensures Sweep(begin, end, descending, 0) == {}
    ensures Sweep(begin, end, descending, (end - begin) / SECTOR) == Span(begin, end)
  {}

  lemma SweepNext(start: set<nat>, begin: nat, end: nat, descending: bool, step: nat)
    requires begin % SECTOR == 0 && end % SECTOR == 0 && begin <= end && step < (end - begin) / SECTOR
    ensures var address := SweepAddress(begin, end, descending, step);
            var t := SectorOf(address);
            && address % SECTOR == 0 && address < end && begin / SECTOR <= t < end / SECTOR
            && start + Sweep(begin, end, descending, step) == Done(start, begin, end, descending, t)
            && Sweep(begin, end, descending, step + 1) == Sweep(begin, end, descending, step) + {t}
  {}

  // Step k of a sweep can read what it needs.
  ghost predicate StepSafe(info: RomInfo, c: nat, start: set<nat>, begin: nat, end: nat, descending: bool, k: nat)
    requires IsCapacity(c) && begin <= end && k < (end - begin) / SECTOR
  {
    SectorSafe(info, c, start + Sweep(begin, end, descending, k), SectorOf(SweepAddress(begin, end, descending, k)))
  }

  ghost predicate StepsSafe(info: RomInfo, c: nat, start: set<nat>, begin: nat, end: nat, descending: bool, n: nat)
    requires IsCapacity(c) && begin <= end && n <= (end - begin) / SECTOR
  {
    forall k: nat :: k < n ==> StepSafe(info, c, start, begin, end, descending, k)
  }

  // A range is safe exactly when all its steps are.
  lemma RangeSteps(info: RomInfo, c: nat, start: set<nat>, begin: nat, end: nat, descending: bool)
    requires IsCapacity(c) && begin % SECTOR == 0 && end % SECTOR == 0 && begin <= end
    ensures RangeSafe(info, c, start, begin, end, descending) <==>
            StepsSafe(info, c, start, begin, end, descending, (end - begin) / SECTOR)
    ensures StepsSafe(info, c, start, begin, end, descending, 0)
  {
    hide SectorSafe, IsCapacity, Sweep, Done, SweepAddress, SectorOf;
    var count := (end - begin) / SECTOR;
    forall k: nat | k < count && RangeSafe(info, c, start, begin, end, descending)
      ensures StepSafe(info, c, start, begin, end, descending, k)
    {
      SweepNext(start, begin, end, descending, k);
    }
    if StepsSafe(info, c, start, begin, end, descending, count) {
      forall t: nat | begin / SECTOR <= t < end / SECTOR
        ensures SectorSafe(info, c, Done(start, begin, end, descending, t), t)
      {
        var k := StepOf(begin, end, descending, t);
        SweepNext(start, begin, end, descending, k);
        assert StepSafe(info, c, start, begin, end, descending, k);
      }
    }
  }

  lemma StepsNext(info: RomInfo, c: nat, start: set<nat>, begin: nat, end: nat, descending: bool, step: nat)
    requires IsCapacity(c) && begin % SECTOR == 0 && end % SECTOR == 0 && begin <= end && step < (end - begin) / SECTOR
    requires StepsSafe(info, c, start, begin, end, descending, step)
    ensures var safe := SectorSafe(info, c, start + Sweep(begin, end, descending, step),
                                   SectorOf(SweepAddress(begin, end, descending, step)));
            && (safe ==> StepsSafe(info, c, start, begin, end, descending, step + 1))
            && (!safe ==> !RangeSafe(info, c, start, begin, end, descending))
  {
    hide SectorSafe, RangeSafe, IsCapacity, Sweep, SweepAddress, SectorOf;
    RangeSteps(info, c, start, begin, end, descending);
    assert StepSafe(info, c, start, begin, end, descending, step) <==>
           SectorSafe(info, c, start + Sweep(begin, end, descending, step), SectorOf(SweepAddress(begin, end, descending, step)));
  }

  lemma StepOf(begin: nat, end: nat, descending: bool, t: nat) returns (k: nat)
    requires begin % SECTOR == 0 && end % SECTOR == 0 && begin / SECTOR <= t < end / SECTOR
    ensures begin <= end && k < (end - begin) / SECTOR && SectorOf(SweepAddress(begin, end, descending, k)) == t
  {
    k := if descending then end / SECTOR - 1 - t else t - begin / SECTOR;
  }

  function SweepAddress(begin: nat, end: nat, descending: bool, step: nat): nat
    requires begin <= end && step < (end - begin) / SECTOR
  {
    begin + (if descending then (end - begin) / SECTOR - 1 - step else step) * SECTOR
  }

  // Writing the image of one more sector keeps what the sweep relies on.
  lemma AfterSector(info: RomInfo, src: seq<byte>, final: set<nat>, before: seq<byte>, after: seq<byte>, spill: seq<byte>,
                    address: nat, data: seq<byte>)
    requires IsCapacity(|before|) && |src| == info.size && info.dataOffset + info.size <= |before| + |spill|
    requires address % SECTOR == 0 && SectorHolds(before, after, address, data)
    requires forall i :: 0 <= i < SECTOR ==> data[i] == ImageByte(info, |before|, src, address + i)
    requires Finished(info, |before|, src, final, before) && SourceKept(info, src, final, before, spill)
    ensures Finished(info, |before|, src, final + {SectorOf(address)}, after)
    ensures SourceKept(info, src, final + {SectorOf(address)}, after, spill)
  {
    SectorRange(address);
    hide SectorOf, AliasByte;
    forall a | 0 <= a < |after| && SectorOf(a) in final + {SectorOf(address)}
      ensures after[a] == ImageByte(info, |before|, src, a)
    {
      if address <= a < address + SECTOR {
        assert after[address + (a - address)] == data[a - address];
      }
    }
  }

  // Whether the recording of sector t has passed bus page x: all of the earlier sectors, and in t
  // the pages below pageAddress and the aliases of pageAddress below alias.
  ghost predicate Passed(c: nat, t: nat, pageAddress: nat, alias: nat, x: nat)
    requires IsCapacity(c)
  {
    SectorOf(Physical(c, x)) == t ==> Physical(c, x) < pageAddress || (Physical(c, x) == pageAddress && x < alias)
  }

  ghost predicate HomesRecorded(info: RomInfo, c: nat, final: set<nat>, t: nat, pageAddress: nat, alias: nat,
                                representative: seq<nat>)
    requires IsCapacity(c)
  {
    && (forall p :: 0 <= p < |representative| && representative[p] != INVALID_ADDRESS ==>
          HomeOf(info, c, final, p, representative[p]))
    && (forall p: nat, x: nat :: p < |representative| && Homed(info, c, final, p, x) && Passed(c, t, pageAddress, alias, x) ==>
          representative[p] != INVALID_ADDRESS)
  }

  lemma HomesStart(info: RomInfo, c: nat, final: set<nat>, address: nat, representative: seq<nat>)
    requires IsCapacity(c) && address % SECTOR == 0 && RepresentativesSound(info, c, final, representative)
    ensures HomesRecorded(info, c, final + {SectorOf(address)}, SectorOf(address), address, 0, representative)
  {
    SectorRange(address);
    var final' := final + {SectorOf(address)};
    forall p | 0 <= p < |representative| && representative[p] != INVALID_ADDRESS
      ensures HomeOf(info, c, final', p, representative[p])
    {
      var x: nat :| Homed(info, c, final, p, x) && Physical(c, x) == representative[p];
      assert Homed(info, c, final', p, x);
    }
    forall p: nat, x: nat | p < |representative| && Homed(info, c, final', p, x) && Passed(c, SectorOf(address), address, 0, x)
      ensures representative[p] != INVALID_ADDRESS
    {
      assert Homed(info, c, final, p, x);
    }
  }

  lemma HomesAdd(info: RomInfo, c: nat, final: set<nat>, t: nat, pageAddress: nat, alias: nat, representative: seq<nat>)
    requires IsCapacity(c) && HomesRecorded(info, c, final, t, pageAddress, alias, representative)
    requires alias < BUS && alias % PAGE == 0 && Physical(c, alias) == pageAddress && SectorOf(pageAddress) in final
    requires info.size % PAGE == 0 && info.size <= |representative| * PAGE
    ensures var source := SourceOffset(info, alias);
            HomesRecorded(info, c, final, t, pageAddress, alias + 1,
                          if source.Some? then representative[source.value / PAGE := pageAddress] else representative)
  {
    hide Physical, SectorOf, SourceOffset;
    SourcePage(info, alias, 0);
    var source := SourceOffset(info, alias);
    var after := if source.Some? then representative[source.value / PAGE := pageAddress] else representative;
    assert source.Some? ==> Homed(info, c, final, source.value / PAGE, alias);
    forall p: nat, x: nat | p < |after| && Homed(info, c, final, p, x) && Passed(c, t, pageAddress, alias + 1, x)
      ensures after[p] != INVALID_ADDRESS
    {
      if x != alias {
        assert Passed(c, t, pageAddress, alias, x);
      } else {
        assert source == Some(p * PAGE);
      }
    }
  }

  // Between two consecutive aliases of a NOR address there is no third.
  lemma HomesNextAlias(info: RomInfo, c: nat, final: set<nat>, t: nat, pageAddress: nat, from: nat, to: nat,
                       representative: seq<nat>)
    requires IsCapacity(c) && HomesRecorded(info, c, final, t, pageAddress, from, representative)
    requires from <= to && pageAddress < c
    requires (from == 0 && to == pageAddress) || (0 < from && to == from - 1 + c && Physical(c, from - 1) == pageAddress)
    ensures HomesRecorded(info, c, final, t, pageAddress, to, representative)
  {
    hide SourceOffset, SectorOf;
    forall p: nat, x: nat | p < |representative| && Homed(info, c, final, p, x) && Passed(c, t, pageAddress, to, x)
      ensures representative[p] != INVALID_ADDRESS
    {
      if Physical(c, x) == pageAddress && from <= x < to {
        if 0 < from {
          AliasGap(c, from - 1, x);
        }
        assert false;
      }
      assert Passed(c, t, pageAddress, from, x);
    }
  }

  lemma PageStep(c: nat, alias: nat)
    requires IsCapacity(c) && alias % PAGE == 0
    ensures 0 < c && (alias + c) % PAGE == 0
  {}

  lemma HomesPastBus(info: RomInfo, c: nat, final: set<nat>, t: nat, pageAddress: nat, alias: nat, representative: seq<nat>)
    requires IsCapacity(c) && BUS <= alias && HomesRecorded(info, c, final, t, pageAddress, alias, representative)
    ensures HomesRecorded(info, c, final, t, pageAddress, BUS, representative)
  {
    hide SourceOffset, SectorOf, Physical;
    forall p: nat, x: nat | p < |representative| && Homed(info, c, final, p, x) && Passed(c, t, pageAddress, BUS, x)
      ensures representative[p] != INVALID_ADDRESS
    {
      assert Passed(c, t, pageAddress, alias, x);
    }
  }

  lemma HomesNextPage(info: RomInfo, c: nat, final: set<nat>, t: nat, pageAddress: nat, representative: seq<nat>)
    requires IsCapacity(c) && pageAddress % PAGE == 0
    requires HomesRecorded(info, c, final, t, pageAddress, BUS, representative)
    ensures HomesRecorded(info, c, final, t, pageAddress + PAGE, 0, representative)
  {
    hide SourceOffset, SectorOf, Physical;
    forall p: nat, x: nat | p < |representative| && Homed(info, c, final, p, x) && Passed(c, t, pageAddress + PAGE, 0, x)
      ensures representative[p] != INVALID_ADDRESS
    {
      PhysicalPage(c, x, 0);
      assert Passed(c, t, pageAddress, BUS, x);
    }
  }

  lemma HomesEnd(info: RomInfo, c: nat, final: set<nat>, address: nat, representative: seq<nat>)
    requires IsCapacity(c) && address % SECTOR == 0
    requires HomesRecorded(info, c, final, SectorOf(address), address + SECTOR, 0, representative)
    ensures RepresentativesSound(info, c, final, representative)
  {
    SectorRange(address);
    hide SourceOffset, Physical, SectorOf;
    forall p: nat, x: nat | p < |representative| && Homed(info, c, final, p, x)
      ensures representative[p] != INVALID_ADDRESS
    {
      assert Passed(c, SectorOf(address), address + SECTOR, 0, x);
    }
  }

  // Finished sectors hold the image.
  ghost predicate Finished(info: RomInfo, c: nat, src: seq<byte>, final: set<nat>, cells: seq<byte>)
    requires IsCapacity(c) && |src| == info.size && |cells| == c
  {
    forall a :: 0 <= a < c && SectorOf(a) in final ==> cells[a] == ImageByte(info, c, src, a)
  }

  // Source bytes outside the finished sectors are where they were staged.
  ghost predicate SourceKept(info: RomInfo, src: seq<byte>, final: set<nat>, cells: seq<byte>, spill: seq<byte>)
    requires |src| == info.size && info.dataOffset + info.size <= |cells| + |spill|
  {
    forall s :: 0 <= s < info.size ==>
      var staged := info.dataOffset + s;
      if staged < |cells| then SectorOf(staged) !in final ==> cells[staged] == src[s]
      else spill[staged - |cells|] == src[s]
  }

  ghost predicate HomeOf(info: RomInfo, c: nat, final: set<nat>, page: nat, home: nat)
    requires IsCapacity(c)
  {
    exists x: nat :: Homed(info, c, final, page, x) && Physical(c, x) == home
  }

  // A recorded home shows its page, and every page shown by a finished sector has a home.
  ghost predicate RepresentativesSound(info: RomInfo, c: nat, final: set<nat>, representative: seq<nat>)
    requires IsCapacity(c)
  {
    && (forall p :: 0 <= p < |representative| && representative[p] != INVALID_ADDRESS ==>
          HomeOf(info, c, final, p, representative[p]))
    && (forall p: nat, x: nat :: p < |representative| && Homed(info, c, final, p, x) ==> representative[p] != INVALID_ADDRESS)
  }

  lemma HomeHolds(info: RomInfo, c: nat, src: seq<byte>, final: set<nat>, cells: seq<byte>, offset: nat, home: nat)
    requires IsCapacity(c) && |src| == info.size && |cells| == c && offset < info.size && info.size % PAGE == 0
    requires Consistent(info, c, src) && Finished(info, c, src, final, cells)
    requires HomeOf(info, c, final, offset / PAGE, home)
    ensures home + PAGE <= c && cells[home + offset % PAGE] == src[offset]
  {
    hide SourceOffset, Physical, AliasByte;
    var x: nat :| Homed(info, c, final, offset / PAGE, x) && Physical(c, x) == home;
    var i := offset % PAGE;
    PhysicalPage(c, x, i);
    PhysicalPage(c, x, PAGE - 1);
    SourcePage(info, x, i);
    PageInSector(home, i);
    assert x + i < BUS by { PageBelowBus(x, i); }
  }

  lemma PageBelowBus(x: nat, i: nat)
    requires x < BUS && x % PAGE == 0 && i < PAGE
    ensures x + i < BUS
  {}

  lemma PageInSector(home: nat, i: nat)
    requires home % PAGE == 0 && i < PAGE
    ensures SectorOf(home + i) == SectorOf(home)
  {
    var q := home / SECTOR;
    var r := home % SECTOR;
    assert r % PAGE == 0 && r + i < SECTOR;
    DivModUnique(SECTOR, q, r + i);
    assert home + i == q * SECTOR + (r + i);
  }
}
