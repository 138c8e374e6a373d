/** A whole upload (src/usb/usb_rom_loader.cpp): blocks in any order, the eject, the installation. */
module UsbInstall {
  import opened Arithmetic
  import opened Bytes
  import opened RomLayout
  import opened ParallelRom
  import opened RomStaging
  import opened BusImage
  import opened LoRomSweep
  import opened RomInstaller
  import opened UsbVolume

  // A file of the volume: where its chain starts, and its size.
  ghost predicate FileGood(d: Disk, c: nat, first: nat, size: nat) {
    IsCapacity(c) && Sized(d, c) && 0 < size && ChainGood(d, c, first, size)
  }

  ghost function Pages(d: Disk, c: nat, first: nat, size: nat): (pages: seq<nat>)
    requires FileGood(d, c, first, size)
    ensures |pages| == PageCount(size) && size <= |pages| * PAGE
    ensures forall i :: 0 <= i < |pages| ==> (pages[i] + 1) * PAGE <= |d.data|
  {
    PagesInside(d, c, first, size);
    ChainPages(d, c, first, PageCount(size))
  }

  // Its bytes.
  ghost function FileOf(d: Disk, c: nat, first: nat, size: nat): (file: seq<byte>)
    requires FileGood(d, c, first, size)
    ensures |file| == size
  {
    FileSlice(d.data, Pages(d, c, first, size), 0, size)
  }

  lemma PagesInside(d: Disk, c: nat, first: nat, size: nat)
    requires FileGood(d, c, first, size)
    ensures size <= PageCount(size) * PAGE
    ensures forall i :: 0 <= i < PageCount(size) ==> (ChainPages(d, c, first, PageCount(size))[i] + 1) * PAGE <= |d.data|
  {
    PagesGood(d, c, first, size);
    var pages := ChainPages(d, c, first, PageCount(size));
    forall i | 0 <= i < |pages|
      ensures (pages[i] + 1) * PAGE <= |d.data|
    {
      assert pages[i] + 1 <= StagingPages(c);
    }
  }

  lemma FilePart(d: Disk, c: nat, first: nat, size: nat, offset: nat, count: nat)
    requires FileGood(d, c, first, size) && offset + count <= size
    ensures FileSlice(d.data, Pages(d, c, first, size), offset, count) == FileOf(d, c, first, size)[offset..][..count]
  {
    hide Pages, FileByte, FileGood;
  }

  lemma WholeFile(d: Disk, c: nat, first: nat, size: nat)
    requires FileGood(d, c, first, size)
    ensures FileSlice(d.data, Pages(d, c, first, size), 0, size) == FileOf(d, c, first, size)
  {}

  // Byte o of the file comes from a block that the host has written: block o / 512 of its page, byte o % 512.
  lemma FileFromBlocks(d: Disk, c: nat, first: nat, size: nat, o: nat)
    requires FileGood(d, c, first, size) && o < size
    ensures var b := PageOf(ClusterAt(d.fat, Fat12(c), first, o / PAGE)) * PAGE_BLOCKS + o % PAGE / BLOCK;
            b in d.received && |BlockAt(d.data, b)| == BLOCK && FileOf(d, c, first, size)[o] == BlockAt(d.data, b)[o % BLOCK]
  {
    hide ClusterAt, Blocks, PageCount, Pages, FileGood, ChainGood, FileOf, BlockAt;
    var page := BlockOfByte(d, c, first, size, o);
    FileByteOf(d, c, first, size, o, page);
  }

  // The page of the chain that byte o lies in, and the block of it.
  lemma BlockOfByte(d: Disk, c: nat, first: nat, size: nat, o: nat) returns (page: nat)
    requires FileGood(d, c, first, size) && o < size
    ensures o / PAGE < PageCount(size) && page == Pages(d, c, first, size)[o / PAGE] && |d.data| % BLOCK == 0
    ensures page == PageOf(ClusterAt(d.fat, Fat12(c), first, o / PAGE)) && page * PAGE_BLOCKS + o % PAGE / BLOCK in d.received
  {
    hide ClusterAt, Blocks, PageCount;
    PageIndex(size, o);
    assert LinkGood(d, c, first, size, o / PAGE);
    page := Pages(d, c, first, size)[o / PAGE];
    DataWhole(c);
  }

  lemma FileByteOf(d: Disk, c: nat, first: nat, size: nat, o: nat, page: nat)
    requires FileGood(d, c, first, size) && o < size && o / PAGE < PageCount(size) && page == Pages(d, c, first, size)[o / PAGE]
    requires |d.data| % BLOCK == 0
    ensures var b := page * PAGE_BLOCKS + o % PAGE / BLOCK;
            |BlockAt(d.data, b)| == BLOCK && FileOf(d, c, first, size)[o] == BlockAt(d.data, b)[o % BLOCK]
  {
    hide Pages, FileGood, BlockAt;
    assert FileOf(d, c, first, size)[o] == d.data[page * PAGE + o % PAGE];
    BlockIndex(page, o);
    BlockByte(d.data, page * PAGE + o % PAGE);
  }

  lemma DataWhole(c: nat)
    requires IsCapacity(c)
    ensures StagingPages(c) * PAGE % BLOCK == 0
  {}

  lemma PageIndex(size: nat, o: nat)
    requires o < size
    ensures o / PAGE < PageCount(size) && o % PAGE / BLOCK < Blocks(size, o / PAGE)
  {}

  // A page is eight blocks.
  lemma BlockIndex(page: nat, o: nat)
    ensures var at := page * PAGE + o % PAGE;
            at / BLOCK == page * PAGE_BLOCKS + o % PAGE / BLOCK && at % BLOCK == o % BLOCK
  {
    var q, m := o / PAGE, o % PAGE;
    var b, i := m / BLOCK, m % BLOCK;
    assert o == (q * PAGE_BLOCKS + b) * BLOCK + i && page * PAGE + m == (page * PAGE_BLOCKS + b) * BLOCK + i;
    DivModUnique(BLOCK, q * PAGE_BLOCKS + b, i);
    DivModUnique(BLOCK, page * PAGE_BLOCKS + b, i);
  }

  // A run of writes, as the host sends them.
  method Transfer(volume: Volume, writes: seq<Write>) returns (ok: bool)
    requires volume.Valid() && !volume.completed && forall w :: w in writes ==> InVolume(w, volume.Capacity())
    modifies volume, volume.fat, volume.root
    modifies volume.area, volume.area.rom, volume.area.rom.cells, volume.area.sectorBuffer, volume.area.spill
    ensures volume.Valid() && !volume.completed && (!ok ==> volume.area.rom.Dead())
    ensures ok ==> volume.disk == Run(old(volume.disk), volume.Capacity(), writes)
  {
    var i := 0;
    while i < |writes|
      invariant 0 <= i <= |writes| && volume.Valid() && !volume.completed
      invariant volume.disk == Run(old(volume.disk), volume.Capacity(), writes[..i])
    {
      ok := volume.WriteBlock(writes[i].lba, writes[i].block);
      if !ok {
        return;
      }
      assert writes[..i + 1][..i] == writes[..i];
      i := i + 1;
    }
    assert writes[..i] == writes;
    ok := true;
  }

  // After the eject: the installation of the file that directory entry k describes.
  method InstallEjected(volume: Volume, installer: Installer, k: nat, detected: Option<RomInfo>) returns (ok: bool)
    requires volume.Valid() && Ejectable(volume.disk, volume.Capacity(), k) && volume.HandedOver(k)
    requires installer.Shape() && installer.area == volume.area && installer.Fresh()
    requires detected.Some? ==> Staged(detected.value, volume.Capacity()) &&
                                detected.value.dataOffset + detected.value.size <= SizeAt(volume.disk.root, k)
    modifies installer, installer.area, installer.rom, installer.rom.cells
    modifies installer.area.sectorBuffer, installer.area.spill, installer.area.swap0, installer.area.swap1
    modifies if installer.fxRom == null then {} else {installer.fxRom}
    ensures var d, c := volume.disk, volume.Capacity();
            var file := FileOf(d, c, FirstAt(d.root, k), SizeAt(d.root, k));
            && (ok && IsRaw(d.root, k) ==> installer.rom.cells[..] == file)
            && (ok && !IsRaw(d.root, k) ==>
                  detected.Some? && installer.Installed(detected.value, file[detected.value.dataOffset..][..detected.value.size]))
            && (installer.rom.failAt.None? ==>
                  (ok <==> if IsRaw(d.root, k) then |file| == c
                           else && detected.Some? && (detected.value.mapping == Fx3 ==> installer.fxRom != null)
                                && Spreads(detected.value, c, file[detected.value.dataOffset..][..detected.value.size])))
            && (!ok ==> installer.rom.Dead() ||
                        (if IsRaw(d.root, k) then |file| != c
                         else detected.None? || (detected.value.mapping == Fx3 && installer.fxRom == null) ||
                              !Spreads(detected.value, c, file[detected.value.dataOffset..][..detected.value.size])))
  {
    ghost var d, c := volume.disk, volume.Capacity();
    ghost var first, size := FirstAt(d.root, k), SizeAt(d.root, k);
    ghost var file := FileOf(d, c, first, size);
    WholeFile(d, c, first, size);
    if detected.Some? {
      FilePart(d, c, first, size, detected.value.dataOffset, detected.value.size);
    }
    var raw := IsRaw(volume.root[..], k);
    hide FileSlice, FileOf, ChainGood, Only, Staged, IsRaw, SizeAt, FirstAt, Spreads;
    ok := installer.Process(raw, detected);
  }
}
