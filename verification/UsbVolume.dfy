/** The drive the host copies a ROM to (src/storage/usb_rom_volume.cpp): a small FAT volume whose blocks
  * arrive in any order, with the file known only once its directory entry and chain are complete. */
module UsbVolume {
  import opened Bytes
  import opened LittleEndian
  import opened RomLayout
  import opened ParallelRom
  import opened RomStaging

  const BLOCK: nat := 512
  const PAGE_BLOCKS: nat := 8
  const FAT_BLOCKS: nat := 32
  const ROOT_BLOCKS: nat := 16
  const FAT1_START: nat := 1
  const FAT2_START: nat := 33
  const ROOT_START: nat := 65
  const FIRST_UPLOAD_BLOCK: nat := 89
  const FIRST_CLUSTER: nat := 3
  const ENTRY: nat := 32
  const ENTRIES: nat := 256
  const OVERHEAD: nat := 768

  // Pages the area behind a device of capacity c can hold, and the blocks the volume shows.
  function StagingPages(c: nat): nat {
    c / PAGE + 4
  }

  function BlockCount(c: nat): nat {
    FIRST_UPLOAD_BLOCK + StagingPages(c) * PAGE_BLOCKS
  }

  predicate Fat12(c: nat) {
    StagingPages(c) + 1 < 4085
  }

  // The text of the readme, in bytes.
  const README_BYTES: nat := 451

  function Text(s: string): (r: seq<byte>)
    requires forall i :: 0 <= i < |s| ==> s[i] <= '~'
    ensures |r| == |s|
  {
    seq(|s|, i requires 0 <= i < |s| => s[i] as int)
  }

  // What the host reads of the first block: where the tables lie, and what the drive is called.
  function BootGeometry(c: nat): (s: seq<byte>)
    ensures |s| == 25
  {
    HalfBytes(BLOCK) + [PAGE_BLOCKS] + HalfBytes(FAT1_START) + [2] + HalfBytes(ENTRIES) + HalfBytes(0) + [0xF8]
    + HalfBytes(FAT_BLOCKS) + HalfBytes(32) + HalfBytes(64) + WordBytes(0) + WordBytes(BlockCount(c))
  }

  function BootName(c: nat): (s: seq<byte>)
    ensures |s| == 26
  {
    [0x80, 0, 0x29] + WordBytes(0x5333_5833) + Text("SUPERFX3   ") + (if Fat12(c) then Text("FAT12   ") else Text("FAT16   "))
  }

  function BootBlock(c: nat): (s: seq<byte>)
    ensures |s| == BLOCK
  {
    [0xEB, 0x3C, 0x90] + Text("SUPERFX3") + BootGeometry(c) + BootName(c) + Repeat(0, 448) + [0x55, 0xAA]
  }

  // What the volume keeps of the blocks written to it.
  datatype Disk = Disk(fat: seq<byte>, root: seq<byte>, data: seq<byte>, received: set<nat>)

  ghost predicate Sized(d: Disk, c: nat) {
    |d.fat| == FAT_BLOCKS * BLOCK && |d.root| == ROOT_BLOCKS * BLOCK && |d.data| == StagingPages(c) * PAGE
  }

  // Where a block is kept; both copies of the FAT share one place, the boot sector and the readme have none.
  datatype Place = Fat(block: nat) | Root(block: nat) | Ignored | Data(block: nat)

  function PlaceOf(lba: nat): (p: Place)
    ensures p.Fat? ==> p.block < FAT_BLOCKS
    ensures p.Root? ==> p.block < ROOT_BLOCKS
  {
    if FAT1_START <= lba < FAT1_START + FAT_BLOCKS then Fat(lba - FAT1_START)
    else if FAT2_START <= lba < FAT2_START + FAT_BLOCKS then Fat(lba - FAT2_START)
    else if ROOT_START <= lba < ROOT_START + ROOT_BLOCKS then Root(lba - ROOT_START)
    else if lba < FIRST_UPLOAD_BLOCK then Ignored
    else Data(lba - FIRST_UPLOAD_BLOCK)
  }

  datatype Write = Write(lba: nat, block: seq<byte>)

  predicate InVolume(w: Write, c: nat) {
    w.lba < BlockCount(c) && |w.block| == BLOCK
  }

  function Written(d: Disk, c: nat, w: Write): (r: Disk)
    requires Sized(d, c) && InVolume(w, c)
    ensures Sized(r, c)
  {
    match PlaceOf(w.lba)
    case Fat(b) => d.(fat := Overlay(d.fat, b * BLOCK, w.block))
    case Root(b) => d.(root := Overlay(d.root, b * BLOCK, w.block))
    case Ignored => d
    case Data(b) => d.(data := Overlay(d.data, b * BLOCK, w.block), received := d.received + {b})
  }

  function BlockAt(s: seq<byte>, b: nat): seq<byte> {
    if (b + 1) * BLOCK <= |s| then s[b * BLOCK..(b + 1) * BLOCK] else []
  }

  // What a place holds.
  function Held(d: Disk, p: Place): seq<byte> {
    match p
    case Fat(b) => BlockAt(d.fat, b)
    case Root(b) => BlockAt(d.root, b)
    case Ignored => []
    case Data(b) => BlockAt(d.data, b)
  }

  // One write sets its own place and no other.
  lemma WrittenHolds(d: Disk, c: nat, w: Write, p: Place)
    requires Sized(d, c) && InVolume(w, c)
    ensures Held(Written(d, c, w), p) == if p == PlaceOf(w.lba) && !p.Ignored? then w.block else Held(d, p)
  {
    match (PlaceOf(w.lba), p)
    case (Fat(b), Fat(q)) => OverlayBlock(d.fat, b, w.block, q);
    case (Root(b), Root(q)) => OverlayBlock(d.root, b, w.block, q);
    case (Data(b), Data(q)) => OverlayBlock(d.data, b, w.block, q);
    case _ =>
  }

  lemma OverlayBlock(s: seq<byte>, b: nat, block: seq<byte>, q: nat)
    requires |block| == BLOCK && (b + 1) * BLOCK <= |s|
    ensures BlockAt(Overlay(s, b * BLOCK, block), q) == if q == b then block else BlockAt(s, q)
  {
    assert q < b ==> (q + 1) * BLOCK <= b * BLOCK;
    assert b < q ==> (b + 1) * BLOCK <= q * BLOCK;
  }

  // A run of writes, and the last block written to a place.
  function Run(d: Disk, c: nat, writes: seq<Write>): (r: Disk)
    requires Sized(d, c) && forall w :: w in writes ==> InVolume(w, c)
    ensures Sized(r, c)
  {
    if writes == [] then d else Written(Run(d, c, writes[..|writes| - 1]), c, writes[|writes| - 1])
  }

  function Last(writes: seq<Write>, p: Place): Option<seq<byte>> {
    if writes == [] then None
    else if PlaceOf(writes[|writes| - 1].lba) == p then Some(writes[|writes| - 1].block)
    else Last(writes[..|writes| - 1], p)
  }

  // Whatever the order of a run, every place holds its last block, and exactly the data blocks that were
  // written count as received.
  lemma {:induction false} RunHolds(d: Disk, c: nat, writes: seq<Write>, p: Place)
    requires Sized(d, c) && (forall w :: w in writes ==> InVolume(w, c)) && !p.Ignored?
    ensures Held(Run(d, c, writes), p) == if Last(writes, p).Some? then Last(writes, p).value else Held(d, p)
    ensures p.Data? ==> (p.block in Run(d, c, writes).received <==> p.block in d.received || Last(writes, p).Some?)
  {
    if writes != [] {
      var before, w := writes[..|writes| - 1], writes[|writes| - 1];
      RunHolds(d, c, before, p);
      WrittenHolds(Run(d, c, before), c, w, p);
    }
  }

  // So two runs that end with the same block in every place leave the same disk.
  lemma OrderDoesNotMatter(d: Disk, c: nat, writes: seq<Write>, writes': seq<Write>)
    requires Sized(d, c) && forall w :: w in writes || w in writes' ==> InVolume(w, c)
    requires forall p: Place :: !p.Ignored? ==> Last(writes, p) == Last(writes', p)
    ensures Run(d, c, writes) == Run(d, c, writes')
  {
    var r, r' := Run(d, c, writes), Run(d, c, writes');
    forall p: Place | !p.Ignored?
      ensures Held(r, p) == Held(r', p)
      ensures p.Data? ==> (p.block in r.received <==> p.block in r'.received)
    {
      RunHolds(d, c, writes, p);
      RunHolds(d, c, writes', p);
    }
    hide Run, Last;
    forall b: nat
      ensures b in r.received <==> b in r'.received
    {
      assert Data(b).Data?;
    }
    SameDisk(r, r', c);
  }

  lemma SameDisk(r: Disk, r': Disk, c: nat)
    requires Sized(r, c) && Sized(r', c) && forall p: Place :: !p.Ignored? ==> Held(r, p) == Held(r', p)
    requires forall b: nat :: b in r.received <==> b in r'.received
    ensures r == r'
  {
    forall b: nat
      ensures BlockAt(r.fat, b) == BlockAt(r'.fat, b)
      ensures BlockAt(r.root, b) == BlockAt(r'.root, b)
      ensures BlockAt(r.data, b) == BlockAt(r'.data, b)
    {
      assert Held(r, Fat(b)) == Held(r', Fat(b)) && Held(r, Root(b)) == Held(r', Root(b)) && Held(r, Data(b)) == Held(r', Data(b));
    }
    hide BlockAt;
    SameBlocks(r.fat, r'.fat);
    SameBlocks(r.root, r'.root);
    SameBlocks(r.data, r'.data);
  }

  lemma SameBlocks(s: seq<byte>, t: seq<byte>)
    requires |s| == |t| && |s| % BLOCK == 0 && forall b: nat :: BlockAt(s, b) == BlockAt(t, b)
    ensures s == t
  {
    forall i: nat | i < |s|
      ensures s[i] == t[i]
    {
      BlockByte(s, i);
      BlockByte(t, i);
    }
  }

  lemma BlockByte(s: seq<byte>, i: nat)
    requires i < |s| && |s| % BLOCK == 0
    ensures |BlockAt(s, i / BLOCK)| == BLOCK && s[i] == BlockAt(s, i / BLOCK)[i % BLOCK]
  {
    assert i == i / BLOCK * BLOCK + i % BLOCK;
    assert |s| == |s| / BLOCK * BLOCK;
  }

  // The FAT entry of a cluster; past the end of the table it reads as zero.
  function FatEntry(fat: seq<byte>, fat12: bool, cluster: nat): nat {
    var offset := if fat12 then cluster + cluster / 2 else cluster * 2;
    if offset + 1 >= |fat| then 0
    else
      var value := Le16(fat, offset);
      if !fat12 then value else if cluster % 2 == 1 then value / 0x10 else value % 0x1000
  }

  // A FAT with one entry set: two whole bytes, or one byte and the half of another.
  function SetFatEntry(fat: seq<byte>, fat12: bool, cluster: nat, value: nat): (r: seq<byte>)
    requires (if fat12 then cluster + cluster / 2 else cluster * 2) + 2 <= |fat|
    ensures |r| == |fat|
  {
    if !fat12 then fat[cluster * 2 := value % 0x100][cluster * 2 + 1 := value / 0x100 % 0x100]
    else
      var offset := cluster + cluster / 2;
      if cluster % 2 == 1
      then fat[offset := fat[offset] % 0x10 + value % 0x10 * 0x10][offset + 1 := value / 0x10 % 0x100]
      else fat[offset := value % 0x100][offset + 1 := fat[offset + 1] / 0x10 * 0x10 + value / 0x100 % 0x10]
  }

  // The tables of a fresh mount: nothing but a label and a readme of one cluster.
  function MountedFat(c: nat): (s: seq<byte>)
    ensures |s| == FAT_BLOCKS * BLOCK
  {
    var empty := Repeat(0, FAT_BLOCKS * BLOCK);
    SetFatEntry(Overlay(empty, 0, if Fat12(c) then [0xF8, 0xFF, 0xFF] else [0xF8, 0xFF, 0xFF, 0xFF]),
                Fat12(c), 2, if Fat12(c) then 0xFFF else 0xFFFF)
  }

  function MountedRoot(): (s: seq<byte>)
    ensures |s| == ROOT_BLOCKS * BLOCK
  {
    Text("SUPERFX3    ")[..11] + [0x08] + Repeat(0, 20)
    + Text("README  TXT") + [0x21] + Repeat(0, 14) + HalfBytes(2) + WordBytes(README_BYTES)
    + Repeat(0, ROOT_BLOCKS * BLOCK - 2 * ENTRY)
  }

  ghost function Mounted(c: nat): (d: Disk)
    ensures Sized(d, c)
  {
    Disk(MountedFat(c), MountedRoot(), Repeat(ERASED, StagingPages(c) * PAGE), {})
  }

  function EndMark(fat12: bool): nat {
    if fat12 then 0xFF8 else 0xFFF8
  }

  // Cluster i of the chain that starts at first.
  function ClusterAt(fat: seq<byte>, fat12: bool, first: nat, i: nat): nat {
    if i == 0 then first else FatEntry(fat, fat12, ClusterAt(fat, fat12, first, i - 1))
  }

  // Clusters 0 to 2 are not pages of the area.
  function PageOf(cluster: nat): nat {
    if FIRST_CLUSTER <= cluster then cluster - FIRST_CLUSTER else 0
  }

  ghost function ChainPages(d: Disk, c: nat, first: nat, n: nat): (pages: seq<nat>)
    ensures |pages| == n
  {
    seq(n, i requires 0 <= i < n => PageOf(ClusterAt(d.fat, Fat12(c), first, i)))
  }

  function PageCount(size: nat): nat {
    (size + PAGE - 1) / PAGE
  }

  // Blocks of page i that a file of this size covers.
  function Blocks(size: nat, i: nat): nat
    requires i < PageCount(size)
  {
    var rest := size - i * PAGE;
    ((if rest < PAGE then rest else PAGE) + BLOCK - 1) / BLOCK
  }

  predicate Present(received: set<nat>, page: nat, blocks: nat) {
    forall b :: page * PAGE_BLOCKS <= b < page * PAGE_BLOCKS + blocks ==> b in received
  }

  ghost predicate LinkGood(d: Disk, c: nat, first: nat, size: nat, i: nat)
    requires i < PageCount(size)
  {
    var cluster := ClusterAt(d.fat, Fat12(c), first, i);
    && FIRST_CLUSTER <= cluster < FIRST_CLUSTER + StagingPages(c)
    && Present(d.received, cluster - FIRST_CLUSTER, Blocks(size, i))
    && cluster - FIRST_CLUSTER !in ChainPages(d, c, first, i)
  }

  // The chain of a file: its pages are in the volume, never twice, completely received, and then it ends.
  ghost predicate ChainGood(d: Disk, c: nat, first: nat, size: nat) {
    && (forall i: nat :: i < PageCount(size) ==> LinkGood(d, c, first, size, i))
    && EndMark(Fat12(c)) <= ClusterAt(d.fat, Fat12(c), first, PageCount(size))
  }

  function Named(root: seq<byte>, k: nat, a: byte, b: byte, e: byte): bool
    requires |root| == ROOT_BLOCKS * BLOCK && k < ENTRIES
  {
    root[k * ENTRY + 8] == a && root[k * ENTRY + 9] == b && root[k * ENTRY + 10] == e
  }

  predicate IsSfc(root: seq<byte>, k: nat)
    requires |root| == ROOT_BLOCKS * BLOCK && k < ENTRIES
  {
    Named(root, k, 0x53, 0x46, 0x43)
  }

  predicate IsSmc(root: seq<byte>, k: nat)
    requires |root| == ROOT_BLOCKS * BLOCK && k < ENTRIES
  {
    Named(root, k, 0x53, 0x4D, 0x43)
  }

  // A file entry with one of the four ROM extensions: not deleted, no long name, no label, no directory.
  predicate RomEntry(root: seq<byte>, k: nat)
    requires |root| == ROOT_BLOCKS * BLOCK && k < ENTRIES
  {
    && root[k * ENTRY] != 0xE5 && root[k * ENTRY + 11] != 0x0F && root[k * ENTRY + 11] / 8 % 4 == 0
    && (IsSfc(root, k) || IsSmc(root, k) || Named(root, k, 0x42, 0x49, 0x4E) || Named(root, k, 0x52, 0x4F, 0x4D))
  }

  ghost predicate Candidate(root: seq<byte>, k: nat)
    requires |root| == ROOT_BLOCKS * BLOCK
  {
    k < ENTRIES && RomEntry(root, k) && forall j: nat :: j <= k ==> root[j * ENTRY] != 0
  }

  // One ROM per mount.
  ghost predicate Only(root: seq<byte>, k: nat)
    requires |root| == ROOT_BLOCKS * BLOCK
  {
    Candidate(root, k) && forall j: nat :: Candidate(root, j) ==> j == k
  }

  function SizeAt(root: seq<byte>, k: nat): nat
    requires |root| == ROOT_BLOCKS * BLOCK && k < ENTRIES
  {
    Le32(root, k * ENTRY + 28)
  }

  function FirstAt(root: seq<byte>, k: nat): nat
    requires |root| == ROOT_BLOCKS * BLOCK && k < ENTRIES
  {
    Le16(root, k * ENTRY + 26)
  }

  predicate IsRaw(root: seq<byte>, k: nat)
    requires |root| == ROOT_BLOCKS * BLOCK && k < ENTRIES
  {
    !IsSmc(root, k) && !IsSfc(root, k)
  }

  // Entry k is the one ROM, and all of it is there.
  ghost predicate Ejectable(d: Disk, c: nat, k: nat)
    requires Sized(d, c)
  {
    && Only(d.root, k)
    && 0 < SizeAt(d.root, k) <= c + (if IsRaw(d.root, k) then 0 else OVERHEAD)
    && ChainGood(d, c, FirstAt(d.root, k), SizeAt(d.root, k))
  }

  class Volume {
    const area: StagingArea
    const fat: array<byte>
    const root: array<byte>
    var received: set<nat>
    var started: bool
    var completed: bool
    // What the host has stored.
    ghost var disk: Disk

    ghost predicate Shape() {
      && area.Shape() && fat.Length == FAT_BLOCKS * BLOCK && root.Length == ROOT_BLOCKS * BLOCK && fat != root
      && fat !in Arrays() && root !in Arrays()
    }

    ghost function Arrays(): set<object> {
      {area.rom.cells, area.spill, area.sectorBuffer, area.swap0, area.swap1}
    }

    function Capacity(): nat {
      area.rom.cells.Length
    }

    // The flash sectors behind received blocks hold staged bytes.
    ghost predicate Touched()
      reads this, area`touched
    {
      forall b :: b in received && b * BLOCK < area.rom.cells.Length ==> SectorOf(b * BLOCK) in area.touched
    }

    ghost predicate Valid()
      reads this, fat, root, area, area.rom, area.rom.cells, area.spill, area.sectorBuffer
    {
      && Shape() && Sized(disk, Capacity())
      && fat[..] == disk.fat && root[..] == disk.root && received == disk.received
      && (!started ==> !completed && received == {} && disk.data == Repeat(ERASED, StagingPages(Capacity()) * PAGE))
      && (started && !completed && !area.rom.Dead() ==>
            area.Valid() && area.status == Receiving && area.contents == disk.data && Touched())
    }

    // A freshly mounted volume: no upload, and the tables of an empty drive.
    constructor (area: StagingArea, fat: array<byte>, root: array<byte>)
      requires area.Shape() && fat.Length == FAT_BLOCKS * BLOCK && root.Length == ROOT_BLOCKS * BLOCK && fat != root
      requires fat !in {area.rom.cells, area.spill, area.sectorBuffer, area.swap0, area.swap1}
      requires root !in {area.rom.cells, area.spill, area.sectorBuffer, area.swap0, area.swap1}
      modifies fat, root
      ensures Valid() && !started && !completed && this.area == area && this.fat == fat && this.root == root
      ensures disk == Mounted(Capacity())
    {
      var c := area.rom.cells.Length;
      this.area, this.fat, this.root := area, fat, root;
      received, started, completed := {}, false, false;
      disk := Mounted(c);
      new;
      hide MountedFat, MountedRoot;
      Store(fat, 0, MountedFat(c));
      Store(root, 0, MountedRoot());
    }

    // One block from the host. It is refused after the eject, outside the volume, or by a dying device.
    method WriteBlock(lba: nat, block: seq<byte>) returns (ok: bool)
      requires Valid()
      modifies this, fat, root, area, area.rom, area.rom.cells, area.sectorBuffer, area.spill
      ensures Valid() && completed == old(completed)
      ensures ok ==> !completed && InVolume(Write(lba, block), Capacity())
      ensures disk == if ok then Written(old(disk), Capacity(), Write(lba, block)) else old(disk)
      ensures !ok ==> area.rom.Dead() || old(completed) || !InVolume(Write(lba, block), Capacity())
      ensures area.rom.failAt.None? ==> (ok <==> !old(completed) && InVolume(Write(lba, block), Capacity()))
    {
      if |block| != BLOCK || lba >= BlockCount(Capacity()) || completed {
        return false;
      }
      ok := true;
      if FAT1_START <= lba < FAT1_START + FAT_BLOCKS {
        StoreFat(lba - FAT1_START, block);
      } else if FAT2_START <= lba < FAT2_START + FAT_BLOCKS {
        StoreFat(lba - FAT2_START, block);
      } else if ROOT_START <= lba < ROOT_START + ROOT_BLOCKS {
        StoreRoot(lba - ROOT_START, block);
      } else if FIRST_UPLOAD_BLOCK <= lba {
        ok := Upload(lba - FIRST_UPLOAD_BLOCK, block);
      }
    }

    method StoreFat(b: nat, block: seq<byte>)
      requires Valid() && |block| == BLOCK && b < FAT_BLOCKS
      modifies `disk, fat
      ensures Valid() && disk == old(disk).(fat := Overlay(old(disk).fat, b * BLOCK, block))
    {
      Store(fat, b * BLOCK, block);
      disk := disk.(fat := Overlay(disk.fat, b * BLOCK, block));
    }

    method StoreRoot(b: nat, block: seq<byte>)
      requires Valid() && |block| == BLOCK && b < ROOT_BLOCKS
      modifies `disk, root
      ensures Valid() && disk == old(disk).(root := Overlay(old(disk).root, b * BLOCK, block))
    {
      Store(root, b * BLOCK, block);
      disk := disk.(root := Overlay(disk.root, b * BLOCK, block));
    }

    method Store(table: array<byte>, at: nat, block: seq<byte>)
      requires at + |block| <= table.Length
      modifies table
      ensures table[..] == Overlay(old(table[..]), at, block)
    {
      forall i | 0 <= i < |block| {
        table[at + i] := block[i];
      }
    }

    // The first data block begins the upload.
    method Upload(b: nat, block: seq<byte>) returns (ok: bool)
      requires Valid() && !completed && |block| == BLOCK && b < StagingPages(Capacity()) * PAGE_BLOCKS
      modifies this, area, area.rom, area.rom.cells, area.sectorBuffer, area.spill
      ensures Valid() && !completed && (!ok ==> area.rom.Dead())
      ensures disk == if ok then old(disk).(data := Overlay(old(disk).data, b * BLOCK, block), received := old(disk).received + {b})
                      else old(disk)
    {
      VolumeEnd(Capacity());
      if !started {
        ok := area.Begin();
        started := ok;
        if !ok {
          return;
        }
      }
      ok := area.Stage(b * BLOCK, block);
      if ok {
        forall r | r in received + {b} && r * BLOCK < area.rom.cells.Length
          ensures SectorOf(r * BLOCK) in area.touched
        {
          if r == b {
            assert SectorOf(b * BLOCK) in area.SectorsOf(b * BLOCK, |block|);
          }
        }
        received := received + {b};
        disk := disk.(data := Overlay(disk.data, b * BLOCK, block), received := disk.received + {b});
      }
    }

    // The only ROM entry of the root directory, if there is exactly one.
    method FindEntry() returns (selected: Option<nat>)
      requires Valid()
      ensures selected.Some? ==> Only(disk.root, selected.value)
      ensures selected.None? ==> forall k: nat :: !Only(disk.root, k)
    {
      selected := None;
      var k := 0;
      while k < ENTRIES
        invariant 0 <= k <= ENTRIES && forall j: nat :: j < k ==> disk.root[j * ENTRY] != 0
        invariant selected.Some? ==> selected.value < k && Candidate(disk.root, selected.value)
        invariant forall j: nat :: j < k && Candidate(disk.root, j) ==> selected == Some(j)
      {
        assert root[..] == disk.root;
        if root[k * ENTRY] == 0 {
          break;
        }
        if RomEntry(root[..], k) {
          if selected.Some? {
            assert Candidate(disk.root, k) && Candidate(disk.root, selected.value);
            return None;
          }
          selected := Some(k);
        }
        k := k + 1;
      }
    }

    // Follow the chain, one page of the file after the other.
    method WalkChain(first: nat, size: nat) returns (ok: bool, pages: seq<nat>)
      requires Valid()
      ensures ok <==> ChainGood(disk, Capacity(), first, size)
      ensures ok ==> pages == ChainPages(disk, Capacity(), first, PageCount(size))
    {
      hide FatEntry, Blocks, LinkGood;
      ghost var d, c := disk, Capacity();
      var fat12, count := Fat12(Capacity()), PageCount(size);
      var cluster, page := first, 0;
      pages := [];
      while page < count
        invariant 0 <= page <= count && cluster == ClusterAt(d.fat, fat12, first, page)
        invariant forall i: nat :: i < page ==> LinkGood(d, c, first, size, i)
        invariant pages == ChainPages(d, c, first, page)
      {
        ok := TakePage(first, size, page, cluster, pages);
        if !ok {
          return;
        }
        pages := pages + [cluster - FIRST_CLUSTER];
        cluster, page := FatEntry(fat[..], fat12, cluster), page + 1;
      }
      ok := cluster >= EndMark(fat12);
    }

    // Whether a cluster may be the next page: in the volume, new, and received as far as the file reaches.
    method TakePage(ghost first: nat, size: nat, page: nat, cluster: nat, pages: seq<nat>) returns (ok: bool)
      requires Valid() && page < PageCount(size) && cluster == ClusterAt(disk.fat, Fat12(Capacity()), first, page)
      requires pages == ChainPages(disk, Capacity(), first, page)
      ensures ok <==> LinkGood(disk, Capacity(), first, size, page)
      ensures ok ==> FIRST_CLUSTER <= cluster
    {
      hide ClusterAt, Blocks, Present;
      if cluster < FIRST_CLUSTER || cluster >= FIRST_CLUSTER + StagingPages(Capacity()) {
        return false;
      }
      var physical := cluster - FIRST_CLUSTER;
      var twice := Contains(pages, physical);
      ok := !twice && Present(received, physical, Blocks(size, page));
    }

    method Contains(pages: seq<nat>, page: nat) returns (found: bool)
      ensures found <==> page in pages
    {
      var previous := 0;
      while previous < |pages|
        invariant 0 <= previous <= |pages| && page !in pages[..previous]
      {
        if pages[previous] == page {
          return true;
        }
        previous := previous + 1;
      }
      found := false;
    }

    // Ejecting ends the upload: exactly when one ROM is listed and all of it has arrived, the staging area
    // gets its page list and everything the installer needs holds.
    method Eject() returns (ok: bool)
      requires Valid()
      modifies this, area, area.rom, area.rom.cells
      ensures Valid() && disk == old(disk) && completed == ok && (old(completed) ==> ok)
      ensures ok && !old(completed) ==> exists k: nat :: Ejectable(disk, Capacity(), k) && HandedOver(k)
      ensures !ok ==> area.rom.Dead() || forall k: nat :: !Ejectable(disk, Capacity(), k)
      ensures area.rom.failAt.None? && !old(completed) ==> (ok <==> exists k: nat :: Ejectable(disk, Capacity(), k))
    {
      if completed {
        return true;
      }
      forall k: nat | Ejectable(disk, Capacity(), k)
        ensures started
      {
        PagesGood(disk, Capacity(), FirstAt(disk.root, k), SizeAt(disk.root, k));
        assert ChainPages(disk, Capacity(), FirstAt(disk.root, k), PageCount(SizeAt(disk.root, k)))[0] * PAGE_BLOCKS in received;
      }
      var selected := FindEntry();
      if selected.None? || !started {
        return false;
      }
      var k := selected.value;
      var size := SizeAt(root[..], k);
      if size == 0 || size > Capacity() + OVERHEAD {
        return false;
      }
      var pages;
      ok, pages := WalkChain(FirstAt(root[..], k), size);
      if !ok {
        return;
      }
      ok := HandOver(k, pages);
    }

    // The area holds what the disk holds, and the list and size of entry k.
    ghost predicate HandedOver(k: nat)
      requires Shape() && Sized(disk, Capacity()) && k < ENTRIES && ChainGood(disk, Capacity(), FirstAt(disk.root, k), SizeAt(disk.root, k))
      reads this, area, area.rom.cells, area.spill, area.sectorBuffer
    {
      && area.Valid() && area.status == Ready && area.contents == disk.data && area.fileSize == SizeAt(disk.root, k)
      && area.uploadPages == ChainPages(disk, Capacity(), FirstAt(disk.root, k), PageCount(SizeAt(disk.root, k)))
      && area.PagesInRange(area.uploadPages) && Distinct(area.uploadPages)
      && forall i :: 0 <= i < |area.uploadPages| ==> area.PageTouched(area.uploadPages[i])
    }

    lemma PagesTouched(pages: seq<nat>)
      requires Touched() && forall i :: 0 <= i < |pages| ==> pages[i] * PAGE_BLOCKS in received
      ensures forall i :: 0 <= i < |pages| ==> area.PageTouched(pages[i])
    {
      forall i | 0 <= i < |pages|
        ensures area.PageTouched(pages[i])
      {
        assert pages[i] * PAGE_BLOCKS * BLOCK == pages[i] * PAGE;
      }
    }

    method HandOver(k: nat, pages: seq<nat>) returns (ok: bool)
      requires Valid() && started && !completed && Only(disk.root, k)
      requires 0 < SizeAt(disk.root, k) <= Capacity() + OVERHEAD
      requires ChainGood(disk, Capacity(), FirstAt(disk.root, k), SizeAt(disk.root, k))
      requires pages == ChainPages(disk, Capacity(), FirstAt(disk.root, k), PageCount(SizeAt(disk.root, k)))
      modifies this, area, area.rom, area.rom.cells
      ensures Valid() && disk == old(disk) && completed == ok
      ensures ok ==> Ejectable(disk, Capacity(), k) && HandedOver(k)
      ensures !ok ==> area.rom.Dead() || !Ejectable(disk, Capacity(), k)
    {
      ok := area.Flush();
      if !ok {
        return;
      }
      PagesGood(disk, Capacity(), FirstAt(disk.root, k), SizeAt(disk.root, k));
      PagesTouched(pages);
      hide ChainGood, ChainPages, Only, SizeAt, FirstAt, IsRaw;
      ok := area.Finish(IsRaw(root[..], k), SizeAt(root[..], k), pages);
      completed := ok;
    }
  }

  lemma VolumeEnd(c: nat)
    requires IsCapacity(c)
    ensures StagingPages(c) * PAGE_BLOCKS * BLOCK == StagingPages(c) * PAGE == c + SPILL
  {}

  // A good chain names distinct pages of the area, each with at least its first block received.
  lemma PagesGood(d: Disk, c: nat, first: nat, size: nat)
    requires ChainGood(d, c, first, size) && 0 < size
    ensures var pages := ChainPages(d, c, first, PageCount(size));
            && Distinct(pages)
            && forall i :: 0 <= i < |pages| ==> pages[i] < StagingPages(c) && pages[i] * PAGE_BLOCKS in d.received
  {
    var pages := ChainPages(d, c, first, PageCount(size));
    hide ClusterAt;
    forall i: nat | i < |pages|
      ensures pages[i] < StagingPages(c) && pages[i] * PAGE_BLOCKS in d.received
      ensures pages[i] !in pages[..i]
    {
      assert LinkGood(d, c, first, size, i);
      SomeBlock(size, i);
      assert pages[..i] == ChainPages(d, c, first, i);
    }
  }

  lemma SomeBlock(size: nat, i: nat)
    requires i < PageCount(size)
    ensures 0 < Blocks(size, i)
  {}
}
