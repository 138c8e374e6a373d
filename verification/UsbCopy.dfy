/** A host that copies a file onto the drive, going by nothing but the boot sector and the FAT format
  * (src/storage/usb_rom_volume.cpp): what it stores is what the drive ejects and the installer programs. */
module UsbCopy {
  import opened Arithmetic
  import opened Bytes
  import opened LittleEndian
  import opened ParallelRom
  import opened RomLayout
  import opened RomStaging
  import opened BusImage
  import opened LoRomSweep
  import opened RomInstaller
  import opened UsbVolume
  import opened UsbInstall

  // Half-byte n of a table, the low half of a byte first.
  function Digit(s: seq<byte>, n: nat): (d: nat)
    requires n < 2 * |s|
    ensures d < 0x10
  {
    if n % 2 == 0 then s[n / 2] as nat % 0x10 else s[n / 2] as nat / 0x10
  }

  // The number that digits n to n + count spell, the lowest first.
  function Digits(s: seq<byte>, n: nat, count: nat): nat
    requires n + count <= 2 * |s|
    decreases count
  {
    if count == 0 then 0 else Digit(s, n) + 0x10 * Digits(s, n + 1, count - 1)
  }

  // An entry is three or four digits wide.
  function Width(fat12: bool): nat {
    if fat12 then 3 else 4
  }

  // Digit i of a number.
  function ValueDigit(v: nat, i: nat): nat {
    if i == 0 then v % 0x10 else ValueDigit(v / 0x10, i - 1)
  }

  lemma ThreeDigits(s: seq<byte>, n: nat)
    requires n + 3 <= 2 * |s|
    ensures Digits(s, n, 3) == Digit(s, n) + 0x10 * Digit(s, n + 1) + 0x100 * Digit(s, n + 2)
  {
    hide Digit;
    assert Digits(s, n, 3) == Digit(s, n) + 0x10 * Digits(s, n + 1, 2);
    assert Digits(s, n + 1, 2) == Digit(s, n + 1) + 0x10 * Digits(s, n + 2, 1);
    assert Digits(s, n + 2, 1) == Digit(s, n + 2) + 0x10 * Digits(s, n + 3, 0);
  }

  lemma FourDigits(s: seq<byte>, n: nat)
    requires n + 4 <= 2 * |s|
    ensures Digits(s, n, 4) == Digit(s, n) + 0x10 * Digit(s, n + 1) + 0x100 * Digit(s, n + 2) + 0x1000 * Digit(s, n + 3)
  {
    hide Digit;
    ThreeDigits(s, n + 1);
    assert Digits(s, n, 4) == Digit(s, n) + 0x10 * Digits(s, n + 1, 3);
  }

  lemma DigitsOfByte(s: seq<byte>, k: nat)
    requires k < |s|
    ensures Digit(s, 2 * k) == s[k] as nat % 0x10 && Digit(s, 2 * k + 1) == s[k] as nat / 0x10
  {}

  // Where an entry lies: its first byte, and whether it starts with the high half.
  lemma EntryAt(cluster: nat)
    ensures 3 * cluster == 2 * (cluster + cluster / 2) + cluster % 2
  {}

  // The FAT entry of a cluster is the number that its digits spell,
  lemma EntryDigits(fat: seq<byte>, fat12: bool, cluster: nat)
    requires Width(fat12) * (cluster + 1) <= 2 * |fat|
    ensures FatEntry(fat, fat12, cluster) == Digits(fat, Width(fat12) * cluster, Width(fat12))
  {
    hide Digits, Digit;
    if fat12 {
      EntryAt(cluster);
      ThreeDigits(fat, 3 * cluster);
      DigitsOfByte(fat, cluster + cluster / 2);
      DigitsOfByte(fat, cluster + cluster / 2 + 1);
    } else {
      FourDigits(fat, 4 * cluster);
      DigitsOfByte(fat, 2 * cluster);
      DigitsOfByte(fat, 2 * cluster + 1);
    }
  }

  // A byte is two digits.
  lemma Halves(lo: nat, hi: nat)
    requires lo < 0x10
    ensures (lo + hi * 0x10) % 0x10 == lo && (lo + hi * 0x10) / 0x10 == hi
  {}

  lemma LowByte(v: nat)
    ensures v % 0x100 == v % 0x10 + v / 0x10 % 0x10 * 0x10
  {
    var q, lo, hi := v / 0x100, v % 0x100 % 0x10, v % 0x100 / 0x10;
    assert v == (q * 0x10 + hi) * 0x10 + lo;
    DivModUnique(0x10, q * 0x10 + hi, lo);
    DivModUnique(0x10, q, hi);
  }

  lemma ValueDigits(v: nat)
    ensures ValueDigit(v, 0) == v % 0x10 && ValueDigit(v, 1) == v / 0x10 % 0x10
    ensures ValueDigit(v, 2) == v / 0x100 % 0x10 && ValueDigit(v, 3) == v / 0x100 / 0x10 % 0x10
  {
    assert v / 0x10 / 0x10 == v / 0x100;
    assert ValueDigit(v, 1) == ValueDigit(v / 0x10, 0);
    assert ValueDigit(v, 2) == ValueDigit(v / 0x10, 1) == ValueDigit(v / 0x10 / 0x10, 0);
    assert ValueDigit(v, 3) == ValueDigit(v / 0x10, 2) == ValueDigit(v / 0x10 / 0x10, 1) == ValueDigit(v / 0x100 / 0x10, 0);
  }

  // The halves of the bytes of a number and of its rest.
  lemma ValueBytes(v: nat)
    ensures v % 0x100 % 0x10 == ValueDigit(v, 0) && v % 0x100 / 0x10 == ValueDigit(v, 1)
    ensures v / 0x10 % 0x100 % 0x10 == ValueDigit(v, 1) && v / 0x10 % 0x100 / 0x10 == ValueDigit(v, 2)
    ensures v / 0x100 % 0x100 % 0x10 == ValueDigit(v, 2) && v / 0x100 % 0x100 / 0x10 == ValueDigit(v, 3)
  {
    hide ValueDigit;
    ValueDigits(v);
    LowByte(v);
    Halves(v % 0x10, v / 0x10 % 0x10);
    var a := v / 0x10;
    assert a / 0x10 == v / 0x100;
    LowByte(a);
    Halves(a % 0x10, a / 0x10 % 0x10);
    var b := v / 0x100;
    LowByte(b);
    Halves(b % 0x10, b / 0x10 % 0x10);
  }

  // The first byte of an entry and the second.
  function ByteOf(fat12: bool, cluster: nat): nat {
    if fat12 then cluster + cluster / 2 else cluster * 2
  }

  lemma SetBytes(fat: seq<byte>, fat12: bool, cluster: nat, v: nat)
    requires ByteOf(fat12, cluster) + 2 <= |fat|
    ensures var (r, at, half) := (SetFatEntry(fat, fat12, cluster, v), ByteOf(fat12, cluster), fat12 && cluster % 2 == 1);
            && (forall k: nat :: k < |fat| && k != at && k != at + 1 ==> r[k] == fat[k])
            && r[at] % 0x10 == (if half then fat[at] % 0x10 else ValueDigit(v, 0))
            && r[at] / 0x10 == ValueDigit(v, if half then 0 else 1)
            && r[at + 1] % 0x10 == ValueDigit(v, if half then 1 else 2)
            && r[at + 1] / 0x10 == (if fat12 && !half then fat[at + 1] / 0x10 else ValueDigit(v, if half then 2 else 3))
  {
    hide ValueDigit;
    ValueDigits(v);
    ValueBytes(v);
    var at := ByteOf(fat12, cluster);
    if fat12 {
      Halves(fat[at] % 0x10, v % 0x10);
      Halves(v / 0x100 % 0x10, fat[at + 1] / 0x10);
    }
  }

  // and setting an entry sets these digits and no others.
  lemma SetDigits(fat: seq<byte>, fat12: bool, cluster: nat, v: nat, n: nat)
    requires Width(fat12) * (cluster + 1) <= 2 * |fat| && n < 2 * |fat|
    ensures ByteOf(fat12, cluster) + 2 <= |fat|
    ensures var w := Width(fat12);
            Digit(SetFatEntry(fat, fat12, cluster, v), n) ==
              if w * cluster <= n < w * (cluster + 1) then ValueDigit(v, n - w * cluster) else Digit(fat, n)
  {
    hide Digit, ValueDigit, SetFatEntry;
    EntryAt(cluster);
    var k := n / 2;
    SetBytes(fat, fat12, cluster, v);
    DigitsOfByte(SetFatEntry(fat, fat12, cluster, v), k);
    DigitsOfByte(fat, k);
    assert n == 2 * k || n == 2 * k + 1;
  }

  lemma SameDigits(s: seq<byte>, t: seq<byte>, n: nat, w: nat)
    requires 3 <= w <= 4 && n + w <= 2 * |s| && |s| == |t| && forall k: nat :: n <= k < n + w ==> Digit(s, k) == Digit(t, k)
    ensures Digits(s, n, w) == Digits(t, n, w)
  {
    hide Digit, Digits;
    if w == 3 {
      ThreeDigits(s, n);
      ThreeDigits(t, n);
    } else {
      FourDigits(s, n);
      FourDigits(t, n);
    }
  }

  lemma DigitsOfValue(s: seq<byte>, n: nat, w: nat, v: nat)
    requires 3 <= w <= 4 && n + w <= 2 * |s| && forall k: nat :: n <= k < n + w ==> Digit(s, k) == ValueDigit(v, k - n)
    ensures Digits(s, n, w) == v % (if w == 3 then 0x1000 else 0x1_0000)
  {
    hide Digit, Digits, ValueDigit;
    ValueDigits(v);
    var b := v / 0x100;
    LowByte(v);
    LowByte(b);
    if w == 3 {
      ThreeDigits(s, n);
      assert b % 0x10 == b - b / 0x10 * 0x10 && v == v % 0x100 + b * 0x100;
      DivModUnique(0x1000, b / 0x10, v % 0x100 + b % 0x10 * 0x100);
    } else {
      FourDigits(s, n);
      assert v == v % 0x100 + b * 0x100;
      DivModUnique(0x1_0000, b / 0x100, v % 0x100 + b % 0x100 * 0x100);
    }
  }

  // What is set is read, cut to the width of an entry, and every other entry reads as before.
  lemma SetThenGet(fat: seq<byte>, fat12: bool, cluster: nat, v: nat, other: nat)
    requires Width(fat12) * (cluster + 1) <= 2 * |fat|
    ensures ByteOf(fat12, cluster) + 2 <= |fat|
    ensures FatEntry(SetFatEntry(fat, fat12, cluster, v), fat12, other) ==
              if other == cluster then v % (if fat12 then 0x1000 else 0x1_0000) else FatEntry(fat, fat12, other)
  {
    EntryAt(cluster);
    EntryAt(other);
    if Width(fat12) * (other + 1) <= 2 * |fat| {
      InsideTable(fat, fat12, cluster, v, other);
    }
  }

  lemma InsideTable(fat: seq<byte>, fat12: bool, cluster: nat, v: nat, other: nat)
    requires Width(fat12) * (cluster + 1) <= 2 * |fat| && Width(fat12) * (other + 1) <= 2 * |fat| && ByteOf(fat12, cluster) + 2 <= |fat|
    ensures FatEntry(SetFatEntry(fat, fat12, cluster, v), fat12, other) ==
              if other == cluster then v % (if fat12 then 0x1000 else 0x1_0000) else FatEntry(fat, fat12, other)
  {
    hide Digit, Digits, ValueDigit, FatEntry, SetFatEntry;
    var w, r := Width(fat12), SetFatEntry(fat, fat12, cluster, v);
    EntryDigits(fat, fat12, other);
    EntryDigits(r, fat12, other);
    Apart(w, cluster, other);
    forall k: nat | w * other <= k < w * other + w
      ensures Digit(r, k) == if other == cluster then ValueDigit(v, k - w * other) else Digit(fat, k)
    {
      SetDigits(fat, fat12, cluster, v, k);
    }
    if other == cluster {
      DigitsOfValue(r, w * other, w, v);
    } else {
      SameDigits(r, fat, w * other, w);
    }
  }

  lemma Apart(w: nat, a: nat, b: nat)
    ensures w * (a + 1) == w * a + w && w * (b + 1) == w * b + w
    ensures a < b ==> w * a + w <= w * b
    ensures b < a ==> w * b + w <= w * a
  {
    if a < b {
      assert w * (a + 1) <= w * b;
    } else if b < a {
      assert w * (b + 1) <= w * a;
    }
  }

  // The chain of a file as the host stores it: every cluster names the next one, the last one the end.
  function Linked(fat: seq<byte>, fat12: bool, clusters: seq<nat>): (r: seq<byte>)
    requires forall x :: x in clusters ==> ByteOf(fat12, x) + 2 <= |fat|
    ensures |r| == |fat|
  {
    if clusters == [] then fat
    else
      var rest := Linked(fat, fat12, clusters[1..]);
      assert clusters[0] in clusters && ByteOf(fat12, clusters[0]) + 2 <= |rest|;
      SetFatEntry(rest, fat12, clusters[0], NextOf(fat12, clusters, 0))
  }

  function NextOf(fat12: bool, clusters: seq<nat>, i: nat): nat
    requires i < |clusters|
  {
    if i + 1 < |clusters| then clusters[i + 1] else if fat12 then 0xFFF else 0xFFFF
  }

  predicate Once(clusters: seq<nat>) {
    forall i, j :: 0 <= i < j < |clusters| ==> clusters[i] != clusters[j]
  }

  // Cluster numbers that the table has an entry for, none of which looks like the end of a chain.
  predicate InTable(fat: seq<byte>, fat12: bool, clusters: seq<nat>) {
    forall x :: x in clusters ==> Width(fat12) * (x + 1) <= 2 * |fat| && x < EndMark(fat12)
  }

  lemma TableBytes(fat: seq<byte>, fat12: bool, clusters: seq<nat>)
    requires InTable(fat, fat12, clusters)
    ensures forall x :: x in clusters ==> ByteOf(fat12, x) + 2 <= |fat|
  {
    forall x | x in clusters
      ensures ByteOf(fat12, x) + 2 <= |fat|
    {
      EntryAt(x);
    }
  }

  lemma TableRest(fat: seq<byte>, fat12: bool, clusters: seq<nat>)
    requires InTable(fat, fat12, clusters) && clusters != []
    ensures InTable(fat, fat12, clusters[1..]) && Width(fat12) * (clusters[0] + 1) <= 2 * |fat|
    ensures NextOf(fat12, clusters, 0) < if fat12 then 0x1000 else 0x1_0000
  {
    assert clusters[0] in clusters;
    assert forall x :: x in clusters[1..] ==> x in clusters;
    if |clusters| > 1 {
      assert clusters[1] in clusters;
    }
  }

  // In the stored table every cluster of the chain leads to the next, and no other entry has changed.
  lemma {:induction false} LinkedEntry(fat: seq<byte>, fat12: bool, clusters: seq<nat>, x: nat)
    requires InTable(fat, fat12, clusters) && Once(clusters)
    ensures forall y :: y in clusters ==> ByteOf(fat12, y) + 2 <= |fat|
    ensures forall i: nat :: i < |clusters| && clusters[i] == x ==>
              FatEntry(Linked(fat, fat12, clusters), fat12, x) == NextOf(fat12, clusters, i)
    ensures x !in clusters ==> FatEntry(Linked(fat, fat12, clusters), fat12, x) == FatEntry(fat, fat12, x)
  {
    TableBytes(fat, fat12, clusters);
    if clusters != [] {
      TableRest(fat, fat12, clusters);
      assert Once(clusters[1..]) && clusters[0] !in clusters[1..];
      var rest := clusters[1..];
      LinkedEntry(fat, fat12, rest, x);
      LinkedStep(fat, fat12, clusters, x);
      hide FatEntry, Linked, InTable, Once;
      if x != clusters[0] && x in clusters {
        var i: nat :| i < |clusters| && clusters[i] == x;
        assert rest[i - 1] == x && NextOf(fat12, rest, i - 1) == NextOf(fat12, clusters, i);
      }
    }
  }

  lemma LinkedStep(fat: seq<byte>, fat12: bool, clusters: seq<nat>, x: nat)
    requires InTable(fat, fat12, clusters) && clusters != []
    ensures forall y :: y in clusters ==> ByteOf(fat12, y) + 2 <= |fat|
    ensures FatEntry(Linked(fat, fat12, clusters), fat12, x) ==
              if x == clusters[0] then NextOf(fat12, clusters, 0) else FatEntry(Linked(fat, fat12, clusters[1..]), fat12, x)
  {
    hide FatEntry, SetFatEntry, ByteOf;
    TableBytes(fat, fat12, clusters);
    TableRest(fat, fat12, clusters);
    hide InTable, Width;
    var rest := Linked(fat, fat12, clusters[1..]);
    SetThenGet(rest, fat12, clusters[0], NextOf(fat12, clusters, 0), x);
    assert Linked(fat, fat12, clusters) == SetFatEntry(rest, fat12, clusters[0], NextOf(fat12, clusters, 0));
  }

  // Following the chain visits the clusters in their order and then meets the end.
  lemma {:induction false} FollowLinked(fat: seq<byte>, fat12: bool, clusters: seq<nat>, i: nat)
    requires InTable(fat, fat12, clusters) && Once(clusters) && i <= |clusters| && clusters != []
    ensures forall y :: y in clusters ==> ByteOf(fat12, y) + 2 <= |fat|
    ensures i < |clusters| ==> ClusterAt(Linked(fat, fat12, clusters), fat12, clusters[0], i) == clusters[i]
    ensures i == |clusters| ==> EndMark(fat12) <= ClusterAt(Linked(fat, fat12, clusters), fat12, clusters[0], i)
  {
    hide FatEntry, InTable, Linked;
    TableBytes(fat, fat12, clusters);
    if i > 0 {
      FollowLinked(fat, fat12, clusters, i - 1);
      LinkedEntry(fat, fat12, clusters, clusters[i - 1]);
    }
  }

  // What a host reads off the boot sector of a FAT drive.
  datatype Layout = Layout(fat: int, copies: int, fatBlocks: int, root: int, rootBlocks: int, data: int,
                           perCluster: int, fat12: bool)

  function LayoutOf(boot: seq<byte>): Layout
    requires |boot| == 512 && boot[13] > 0 && Le16(boot, 11) > 0
  {
    var fat, copies, fatBlocks := Le16(boot, 14), boot[16] as int, Le16(boot, 22);
    var root, rootBlocks := fat + copies * fatBlocks, Le16(boot, 17) * 32 / Le16(boot, 11);
    Layout(fat, copies, fatBlocks, root, rootBlocks, root + rootBlocks, boot[13],
           (Le32(boot, 32) - root - rootBlocks) / boot[13] as int < 4085)
  }

  function HostsLayout(c: nat): Layout
    requires IsCapacity(c)
  {
    HostLayout(c);
    LayoutOf(BootBlock(c))
  }

  function BlockOf(l: Layout, cluster: nat, k: nat): int
  {
    l.data + l.perCluster * (cluster - 2) + k
  }

  // The boot sector describes the drive as it is: both tables, the directory, and the data area are found
  // where the drive keeps them, and the host takes the entries to be as wide as the drive does.
  lemma HostLayout(c: nat)
    requires IsCapacity(c)
    ensures var boot := BootBlock(c);
            && |boot| == 512 && boot[13] > 0 && Le16(boot, 11) == BLOCK
            && LayoutOf(boot) == Layout(FAT1_START, 2, FAT_BLOCKS, ROOT_START, ROOT_BLOCKS, 81, PAGE_BLOCKS, Fat12(c))
            && Le32(boot, 32) == BlockCount(c)
  {
    hide LayoutOf;
    GeometryFields(c);
    hide BootGeometry, Le32, Le16;
    var boot, g := BootBlock(c), BootGeometry(c);
    assert boot[11..36] == g;
    SameFields(boot, g);
    hide BootBlock;
    ReadLayout(boot, c);
  }

  lemma ReadLayout(boot: seq<byte>, c: nat)
    requires IsCapacity(c) && |boot| == 512 && boot[13] == 8 && boot[16] == 2 && Le16(boot, 11) == 512
    requires Le16(boot, 14) == 1 && Le16(boot, 17) == 256 && Le16(boot, 22) == 32 && Le32(boot, 32) == BlockCount(c)
    ensures LayoutOf(boot) == Layout(1, 2, 32, 65, 16, 81, 8, Fat12(c))
  {
    hide Le16, Le32;
  }

  lemma SameFields(boot: seq<byte>, g: seq<byte>)
    requires |g| == 25 && |boot| == 512 && boot[11..36] == g
    ensures boot[13] == g[2] && boot[16] == g[5] && Le32(boot, 32) == Le32(g, 21)
    ensures Le16(boot, 11) == Le16(g, 0) && Le16(boot, 14) == Le16(g, 3) && Le16(boot, 17) == Le16(g, 6) && Le16(boot, 22) == Le16(g, 11)
  {
    assert forall i :: 0 <= i < 25 ==> boot[11 + i] == boot[11..36][i];
  }

  lemma GeometryFields(c: nat)
    requires IsCapacity(c)
    ensures var g := BootGeometry(c);
            && g[2] == 8 && g[5] == 2 && Le16(g, 0) == 512 && Le16(g, 3) == 1 && Le16(g, 6) == 256 && Le16(g, 11) == 32
            && Le32(g, 21) == BlockCount(c)
  {
    var g := BootGeometry(c);
    assert g[21..25] == WordBytes(BlockCount(c));
    WordAt(g, 21, BlockCount(c));
  }

  // The last block sent to an address.
  function Sent(writes: seq<Write>, lba: int): Option<seq<byte>> {
    if writes == [] then None
    else if writes[|writes| - 1].lba == lba then Some(writes[|writes| - 1].block)
    else Sent(writes[..|writes| - 1], lba)
  }

  // A block of a table is left out only where nothing changes.
  predicate Updates(writes: seq<Write>, lba: int, before: seq<byte>, after: seq<byte>) {
    Sent(writes, lba) == Some(after) || (Sent(writes, lba).None? && before == after)
  }

  // What a place holds last was sent to one of its addresses.
  lemma {:induction false} LastSent(writes: seq<Write>, p: Place)
    ensures Last(writes, p).None? ==> forall lba: nat :: PlaceOf(lba) == p ==> Sent(writes, lba).None?
    ensures Last(writes, p).Some? ==> exists lba: nat :: PlaceOf(lba) == p && Sent(writes, lba) == Last(writes, p)
  {
    if writes != [] {
      var w := writes[|writes| - 1];
      if PlaceOf(w.lba) == p {
        assert Sent(writes, w.lba) == Last(writes, p);
      } else {
        LastSent(writes[..|writes| - 1], p);
        hide PlaceOf;
        assert Last(writes, p) == Last(writes[..|writes| - 1], p);
        assert forall lba: nat :: PlaceOf(lba) == p ==> Sent(writes, lba) == Sent(writes[..|writes| - 1], lba);
      }
    }
  }

  // So a table block is as the host wants it,
  lemma TableBlock(d: Disk, c: nat, writes: seq<Write>, p: Place, after: seq<byte>)
    requires Sized(d, c) && (forall w :: w in writes ==> InVolume(w, c)) && !p.Ignored?
    requires forall lba: nat :: PlaceOf(lba) == p ==> Updates(writes, lba, Held(d, p), after)
    requires exists lba: nat :: PlaceOf(lba) == p
    ensures Held(Run(d, c, writes), p) == after
  {
    hide PlaceOf, Sent, Run, Held;
    RunHolds(d, c, writes, p);
    LastSent(writes, p);
    var lba: nat :| PlaceOf(lba) == p;
    assert Updates(writes, lba, Held(d, p), after);
  }

  // and a data block is the one sent last.
  lemma DataBlock(d: Disk, c: nat, writes: seq<Write>, b: nat)
    requires Sized(d, c) && (forall w :: w in writes ==> InVolume(w, c)) && Sent(writes, FIRST_UPLOAD_BLOCK + b).Some?
    ensures BlockAt(Run(d, c, writes).data, b) == Sent(writes, FIRST_UPLOAD_BLOCK + b).value && b in Run(d, c, writes).received
  {
    hide Sent, Run;
    RunHolds(d, c, writes, Data(b));
    LastSent(writes, Data(b));
    assert PlaceOf(FIRST_UPLOAD_BLOCK + b) == Data(b);
  }

  datatype Kind = Sfc | Smc | Bin | Rom

  function Extension(kind: Kind): (s: seq<byte>)
    ensures |s| == 3
  {
    match kind
    case Sfc => Text("SFC")
    case Smc => Text("SMC")
    case Bin => Text("BIN")
    case Rom => Text("ROM")
  }

  // A directory entry as FAT has it: the name, an archive attribute, the first cluster at 26 and the size at 28.
  function DirectoryEntry(name: seq<byte>, kind: Kind, first: nat, size: nat): (s: seq<byte>)
    requires |name| == 8
    ensures |s| == 32
  {
    name + Extension(kind) + [0x20] + Repeat(0, 14) + HalfBytes(first) + WordBytes(size)
  }

  // The directory with the file behind the label and the readme.
  function Listed(name: seq<byte>, kind: Kind, first: nat, size: nat): (s: seq<byte>)
    requires |name| == 8
    ensures |s| == ROOT_BLOCKS * BLOCK
  {
    Overlay(MountedRoot(), 2 * 32, DirectoryEntry(name, kind, first, size))
  }

  lemma EntryFields(name: seq<byte>, kind: Kind, first: nat, size: nat)
    requires |name| == 8 && first < 0x1_0000 && size < WORDS
    ensures var e := DirectoryEntry(name, kind, first, size);
            && e[0] == name[0] && e[8..11] == Extension(kind) && e[11] == 0x20 && Le16(e, 26) == first && Le32(e, 28) == size
  {
    var e := DirectoryEntry(name, kind, first, size);
    assert e[28..32] == WordBytes(size);
    WordAt(e, 28, size);
    assert e[26] == HalfBytes(first)[0] && e[27] == HalfBytes(first)[1];
  }

  lemma ListedEntry(name: seq<byte>, kind: Kind, first: nat, size: nat)
    requires |name| == 8 && first < 0x1_0000 && size < WORDS
    ensures var root := Listed(name, kind, first, size);
            && root[64] == name[0] && root[75] == 0x20 && FirstAt(root, 2) == first && SizeAt(root, 2) == size
            && root[72] == Extension(kind)[0] && root[73] == Extension(kind)[1] && root[74] == Extension(kind)[2]
  {
    EntryFields(name, kind, first, size);
    hide DirectoryEntry, MountedRoot, Extension, Le16, Le32;
    var root, e := Listed(name, kind, first, size), DirectoryEntry(name, kind, first, size);
    assert forall i :: 0 <= i < 32 ==> root[64 + i] == e[i];
    assert e[8..11][0] == e[8] && e[8..11][1] == e[9] && e[8..11][2] == e[10];
    Shifted(root, e);
  }

  lemma Shifted(root: seq<byte>, e: seq<byte>)
    requires |e| == 32 && |root| == ROOT_BLOCKS * BLOCK && forall i :: 0 <= i < 32 ==> root[64 + i] == e[i]
    ensures FirstAt(root, 2) == Le16(e, 26) && SizeAt(root, 2) == Le32(e, 28)
  {
    assert root[90] == e[26] && root[91] == e[27];
    assert root[92] == e[28] && root[93] == e[29] && root[94] == e[30] && root[95] == e[31];
  }

  // The two entries of the mount are no ROM, and the directory ends behind the file.
  lemma OtherEntries(name: seq<byte>, kind: Kind, first: nat, size: nat)
    requires |name| == 8
    ensures var root := Listed(name, kind, first, size);
            root[0] != 0 && root[32] != 0 && !RomEntry(root, 0) && !RomEntry(root, 1) && root[96] == 0
  {
    hide DirectoryEntry;
    var root, m := Listed(name, kind, first, size), MountedRoot();
    MountedEntries();
    hide MountedRoot;
    assert forall i :: 0 <= i < 64 ==> root[i] == m[i];
  }

  lemma MountedEntries()
    ensures var m := MountedRoot();
            m[0] != 0 && m[11] == 8 && m[32] != 0 && m[40] == 0x54 && m[96] == 0
  {}

  // The file is the one ROM of the directory, and a raw image exactly when its extension says so.
  lemma OneRom(name: seq<byte>, kind: Kind, first: nat, size: nat)
    requires |name| == 8 && name[0] != 0 && name[0] != 0xE5 && first < 0x1_0000 && size < WORDS
    ensures Only(Listed(name, kind, first, size), 2) && (IsRaw(Listed(name, kind, first, size), 2) <==> kind.Bin? || kind.Rom?)
  {
    hide RomEntry, IsRaw, SizeAt, FirstAt;
    ListedEntry(name, kind, first, size);
    OtherEntries(name, kind, first, size);
    hide Listed;
    var root := Listed(name, kind, first, size);
    KindOfEntry(root, kind);
    OnlyThird(root);
  }

  lemma KindOfEntry(root: seq<byte>, kind: Kind)
    requires |root| == ROOT_BLOCKS * BLOCK && root[64] != 0xE5 && root[75] == 0x20
    requires root[72] == Extension(kind)[0] && root[73] == Extension(kind)[1] && root[74] == Extension(kind)[2]
    ensures RomEntry(root, 2) && (IsRaw(root, 2) <==> kind.Bin? || kind.Rom?)
  {}

  lemma OnlyThird(root: seq<byte>)
    requires |root| == ROOT_BLOCKS * BLOCK && RomEntry(root, 2) && !RomEntry(root, 0) && !RomEntry(root, 1)
    requires root[0] != 0 && root[32] != 0 && root[64] != 0 && root[96] == 0
    ensures Only(root, 2)
  {
    hide RomEntry;
    forall j: nat
      ensures Candidate(root, j) ==> j == 2
    {
      if j > 2 {
        DirectoryEnds(root, j);
      }
    }
  }

  lemma DirectoryEnds(root: seq<byte>, j: nat)
    requires |root| == ROOT_BLOCKS * BLOCK && root[3 * ENTRY] == 0 && 3 <= j
    ensures !Candidate(root, j)
  {}

  // The host, having read the boot sector, copies a file: into any free clusters in any order, with both
  // tables and the directory brought up to date, in a run of writes as it likes it.
  ghost predicate Copying(c: nat, name: seq<byte>, kind: Kind, file: seq<byte>, clusters: seq<nat>, writes: seq<Write>)
    requires IsCapacity(c)
  {
    HostLayout(c);
    var l := HostsLayout(c);
    && |name| == 8 && name[0] != 0 && name[0] != 0xE5
    && 0 < |file| < WORDS && (|clusters| - 1) * PAGE < |file| <= |clusters| * PAGE
    && OnDrive(c, clusters) && Once(clusters)
    && (forall w :: w in writes ==> InVolume(w, c))
    && (forall copy: nat :: copy < l.copies ==> CopySent(l, copy, writes, MountedFat(c), ChainedFat(c, clusters)))
    && TableSent(writes, l.root, l.rootBlocks, MountedRoot(), Listed(name, kind, clusters[0], |file|))
    && forall i: nat, k: nat :: i < |clusters| && k < l.perCluster && i * PAGE + k * BLOCK < |file| ==>
         PieceSent(writes, BlockOf(l, clusters[i], k), file, i * PAGE + k * BLOCK)
  }

  // Clusters that the drive has, apart from the readme's.
  predicate OnDrive(c: nat, clusters: seq<nat>)
    requires IsCapacity(c)
  {
    var l := HostsLayout(c);
    forall x :: x in clusters ==> 3 <= x < 2 + (Le32(BootBlock(c), 32) - l.data) / l.perCluster
  }

  // All of them have entries in the tables, and pages of the staging area behind them.
  lemma ClustersOnDrive(c: nat, clusters: seq<nat>)
    requires IsCapacity(c) && OnDrive(c, clusters)
    ensures InTable(MountedFat(c), Fat12(c), clusters)
    ensures forall x :: x in clusters ==> FIRST_CLUSTER <= x < FIRST_CLUSTER + StagingPages(c)
  {
    hide LayoutOf, BootBlock, MountedFat;
    HostLayout(c);
    assert (BlockCount(c) - 81) / PAGE_BLOCKS == StagingPages(c) + 1;
  }

  // The FAT that the host wants, with the file's chain in it.
  function ChainedFat(c: nat, clusters: seq<nat>): (r: seq<byte>)
    requires IsCapacity(c) && OnDrive(c, clusters)
    ensures |r| == FAT_BLOCKS * BLOCK
  {
    ClustersOnDrive(c, clusters);
    TableBytes(MountedFat(c), Fat12(c), clusters);
    Linked(MountedFat(c), Fat12(c), clusters)
  }

  // A table of some blocks is sent, from an address on.
  ghost predicate TableSent(writes: seq<Write>, start: int, blocks: int, before: seq<byte>, after: seq<byte>) {
    forall b: nat :: b < blocks ==> Updates(writes, start + b, BlockAt(before, b), BlockAt(after, b))
  }

  ghost predicate CopySent(l: Layout, copy: nat, writes: seq<Write>, before: seq<byte>, after: seq<byte>) {
    TableSent(writes, l.fat + copy * l.fatBlocks, l.fatBlocks, before, after)
  }

  // A block holds the piece of a file that starts at o; past the end of the file it may hold anything.
  ghost predicate PieceSent(writes: seq<Write>, lba: int, file: seq<byte>, o: nat) {
    && Sent(writes, lba).Some?
    && var block := Sent(writes, lba).value;
       |block| == BLOCK && HasPiece(block, file, o)
  }

  ghost predicate HasPiece(block: seq<byte>, file: seq<byte>, o: nat)
    requires |block| == BLOCK
  {
    forall t: nat :: t < BLOCK && o + t < |file| ==> block[t] == file[o + t]
  }

  // What the drive then holds of the tables and the directory is what the host wanted.
  lemma FatArrives(c: nat, writes: seq<Write>, after: seq<byte>)
    requires IsCapacity(c) && (forall w :: w in writes ==> InVolume(w, c)) && |after| == FAT_BLOCKS * BLOCK
    requires TableSent(writes, FAT1_START, FAT_BLOCKS, MountedFat(c), after)
    requires TableSent(writes, FAT2_START, FAT_BLOCKS, MountedFat(c), after)
    ensures Run(Mounted(c), c, writes).fat == after
  {
    hide MountedFat, MountedRoot, Run, BlockAt;
    var d := Run(Mounted(c), c, writes);
    forall b: nat
      ensures BlockAt(d.fat, b) == BlockAt(after, b)
    {
      if b < FAT_BLOCKS {
        FatBlockArrives(c, writes, after, b);
      } else {
        BeyondTable(d.fat, b);
        BeyondTable(after, b);
      }
    }
    SameBlocks(d.fat, after);
  }

  lemma BeyondTable(s: seq<byte>, b: nat)
    requires |s| <= b * BLOCK
    ensures BlockAt(s, b) == []
  {}

  lemma FatBlockArrives(c: nat, writes: seq<Write>, after: seq<byte>, b: nat)
    requires IsCapacity(c) && (forall w :: w in writes ==> InVolume(w, c)) && b < FAT_BLOCKS
    requires TableSent(writes, FAT1_START, FAT_BLOCKS, MountedFat(c), after)
    requires TableSent(writes, FAT2_START, FAT_BLOCKS, MountedFat(c), after)
    ensures BlockAt(Run(Mounted(c), c, writes).fat, b) == BlockAt(after, b)
  {
    hide MountedFat, MountedRoot, Run, BlockAt, Updates;
    assert Updates(writes, FAT1_START + b, BlockAt(MountedFat(c), b), BlockAt(after, b));
    assert Updates(writes, FAT2_START + b, BlockAt(MountedFat(c), b), BlockAt(after, b));
    assert PlaceOf(FAT1_START + b) == Fat(b);
    TableBlock(Mounted(c), c, writes, Fat(b), BlockAt(after, b));
  }

  lemma RootArrives(c: nat, writes: seq<Write>, after: seq<byte>)
    requires IsCapacity(c) && (forall w :: w in writes ==> InVolume(w, c)) && |after| == ROOT_BLOCKS * BLOCK
    requires TableSent(writes, ROOT_START, ROOT_BLOCKS, MountedRoot(), after)
    ensures Run(Mounted(c), c, writes).root == after
  {
    var d := Run(Mounted(c), c, writes);
    hide MountedFat, MountedRoot, Run;
    forall b: nat
      ensures BlockAt(d.root, b) == BlockAt(after, b)
    {
      if b < ROOT_BLOCKS {
        hide Updates, BlockAt;
        assert PlaceOf(ROOT_START + b) == Root(b);
        TableBlock(Mounted(c), c, writes, Root(b), BlockAt(after, b));
      }
    }
    SameBlocks(d.root, after);
  }

  lemma TablesArrive(c: nat, name: seq<byte>, kind: Kind, file: seq<byte>, clusters: seq<nat>, writes: seq<Write>)
    requires IsCapacity(c) && Copying(c, name, kind, file, clusters, writes)
    ensures Run(Mounted(c), c, writes).fat == ChainedFat(c, clusters)
    ensures Run(Mounted(c), c, writes).root == Listed(name, kind, clusters[0], |file|)
  {
    hide Run, LayoutOf, BootBlock, MountedFat, MountedRoot, Listed, ChainedFat, OnDrive, Once, TableSent, Sent, Mounted;
    HostLayout(c);
    var l := HostsLayout(c);
    assert CopySent(l, 0, writes, MountedFat(c), ChainedFat(c, clusters));
    assert CopySent(l, 1, writes, MountedFat(c), ChainedFat(c, clusters));
    FatArrives(c, writes, ChainedFat(c, clusters));
    RootArrives(c, writes, Listed(name, kind, clusters[0], |file|));
  }

  // The pieces of the file are in the staging area, where the chain leads.
  lemma PieceArrives(c: nat, name: seq<byte>, kind: Kind, file: seq<byte>, clusters: seq<nat>, writes: seq<Write>, i: nat, k: nat)
    requires IsCapacity(c) && Copying(c, name, kind, file, clusters, writes)
    requires i < |clusters| && k < PAGE_BLOCKS && i * PAGE + k * BLOCK < |file|
    ensures FIRST_CLUSTER <= clusters[i] < FIRST_CLUSTER + StagingPages(c)
    ensures var (d, b) := (Run(Mounted(c), c, writes), (clusters[i] - FIRST_CLUSTER) * PAGE_BLOCKS + k);
            b in d.received && |BlockAt(d.data, b)| == BLOCK && HasPiece(BlockAt(d.data, b), file, i * PAGE + k * BLOCK)
  {
    hide Run, LayoutOf, BootBlock, MountedFat, MountedRoot, Listed, ChainedFat, OnDrive, Once, TableSent, Sent, Mounted, HasPiece, BlockAt;
    HostLayout(c);
    ClustersOnDrive(c, clusters);
    assert clusters[i] in clusters;
    assert PieceSent(writes, BlockOf(HostsLayout(c), clusters[i], k), file, i * PAGE + k * BLOCK);
    assert BlockOf(HostsLayout(c), clusters[i], k) == FIRST_UPLOAD_BLOCK + ((clusters[i] - FIRST_CLUSTER) * PAGE_BLOCKS + k);
    DataBlock(Mounted(c), c, writes, (clusters[i] - FIRST_CLUSTER) * PAGE_BLOCKS + k);
  }

  // The drive can follow the chain that the host has stored.
  lemma ChainArrives(c: nat, clusters: seq<nat>, d: Disk, i: nat)
    requires IsCapacity(c) && OnDrive(c, clusters) && Once(clusters) && clusters != [] && d.fat == ChainedFat(c, clusters) && i <= |clusters|
    ensures i < |clusters| ==> ClusterAt(d.fat, Fat12(c), clusters[0], i) == clusters[i]
    ensures i == |clusters| ==> EndMark(Fat12(c)) <= ClusterAt(d.fat, Fat12(c), clusters[0], i)
  {
    hide ClusterAt, Linked, InTable, MountedFat, OnDrive, Once;
    ClustersOnDrive(c, clusters);
    FollowLinked(MountedFat(c), Fat12(c), clusters, i);
  }

  lemma PagesNeeded(size: nat, n: nat)
    requires 0 < size && (n - 1) * PAGE < size <= n * PAGE
    ensures PageCount(size) == n
  {}

  lemma LinkArrives(c: nat, name: seq<byte>, kind: Kind, file: seq<byte>, clusters: seq<nat>, writes: seq<Write>, i: nat)
    requires IsCapacity(c) && Copying(c, name, kind, file, clusters, writes) && PageCount(|file|) == |clusters| && i < |clusters|
    requires forall k: nat :: k < |clusters| ==> ClusterAt(Run(Mounted(c), c, writes).fat, Fat12(c), clusters[0], k) == clusters[k]
    ensures LinkGood(Run(Mounted(c), c, writes), c, clusters[0], |file|, i)
  {
    hide Run, Mounted, ClusterAt, Fat12, OnDrive, TableSent, CopySent, PieceSent, ChainedFat, Listed, LayoutOf, BootBlock, Blocks, PageCount;
    var d := Run(Mounted(c), c, writes);
    PieceZero(|file|, |clusters|, i);
    PieceArrives(c, name, kind, file, clusters, writes, i, 0);
    forall b | (clusters[i] - FIRST_CLUSTER) * PAGE_BLOCKS <= b < (clusters[i] - FIRST_CLUSTER) * PAGE_BLOCKS + Blocks(|file|, i)
      ensures b in d.received
    {
      var k := b - (clusters[i] - FIRST_CLUSTER) * PAGE_BLOCKS;
      PieceNeeded(|file|, i, k);
      PieceArrives(c, name, kind, file, clusters, writes, i, k);
    }
    forall k: nat | k < i
      ensures ChainPages(d, c, clusters[0], i)[k] != clusters[i] - FIRST_CLUSTER
    {
      PieceZero(|file|, |clusters|, k);
      PieceArrives(c, name, kind, file, clusters, writes, k, 0);
    }
  }

  lemma PieceZero(size: nat, n: nat, i: nat)
    requires i < n && (n - 1) * PAGE < size
    ensures i * PAGE + 0 * BLOCK < size
  {}

  lemma PieceNeeded(size: nat, i: nat, k: nat)
    requires i < PageCount(size) && k < Blocks(size, i)
    ensures k < PAGE_BLOCKS && i * PAGE + k * BLOCK < size
  {}

  // However the host goes about it, the copied file is what the drive finds when it is ejected,
  lemma CopyArrives(c: nat, name: seq<byte>, kind: Kind, file: seq<byte>, clusters: seq<nat>, writes: seq<Write>)
    requires IsCapacity(c) && Copying(c, name, kind, file, clusters, writes)
    ensures var d := Run(Mounted(c), c, writes);
            && Only(d.root, 2) && (IsRaw(d.root, 2) <==> kind.Bin? || kind.Rom?)
            && FirstAt(d.root, 2) == clusters[0] && SizeAt(d.root, 2) == |file|
            && ChainGood(d, c, clusters[0], |file|)
            && (Ejectable(d, c, 2) <==> |file| <= c + if kind.Bin? || kind.Rom? then 0 else 768)
  {
    var d := Run(Mounted(c), c, writes);
    TablesArrive(c, name, kind, file, clusters, writes);
    FirstFits(c, clusters);
    OneRom(name, kind, clusters[0], |file|);
    ListedEntry(name, kind, clusters[0], |file|);
    hide Run, Mounted, ClusterAt, Fat12, TableSent, CopySent, PieceSent, ChainedFat, Listed, LayoutOf, BootBlock, OnDrive, Once, LinkGood;
    hide Ejectable, ChainGood, Only, IsRaw, FirstAt, SizeAt, EndMark, PageCount;
    PagesNeeded(|file|, |clusters|);
    forall i: nat | i <= |clusters|
      ensures i < |clusters| ==> ClusterAt(d.fat, Fat12(c), clusters[0], i) == clusters[i]
      ensures i == |clusters| ==> EndMark(Fat12(c)) <= ClusterAt(d.fat, Fat12(c), clusters[0], i)
    {
      ChainArrives(c, clusters, d, i);
    }
    forall i: nat | i < |clusters|
      ensures LinkGood(d, c, clusters[0], |file|, i)
    {
      LinkArrives(c, name, kind, file, clusters, writes, i);
    }
    EjectableSize(d, c, clusters[0], |file|);
  }

  lemma EjectableSize(d: Disk, c: nat, first: nat, size: nat)
    requires Sized(d, c) && Only(d.root, 2) && FirstAt(d.root, 2) == first && SizeAt(d.root, 2) == size > 0 && PageCount(size) > 0
    requires forall i: nat :: i < PageCount(size) ==> LinkGood(d, c, first, size, i)
    requires EndMark(Fat12(c)) <= ClusterAt(d.fat, Fat12(c), first, PageCount(size))
    ensures ChainGood(d, c, first, size)
    ensures Ejectable(d, c, 2) <==> size <= c + if IsRaw(d.root, 2) then 0 else 768
  {
    hide LinkGood, Only, SizeAt, FirstAt, IsRaw, ClusterAt, EndMark;
  }

  lemma FirstFits(c: nat, clusters: seq<nat>)
    requires IsCapacity(c) && OnDrive(c, clusters) && clusters != []
    ensures clusters[0] < 0x1_0000
  {
    hide LayoutOf, BootBlock, MountedFat, OnDrive;
    ClustersOnDrive(c, clusters);
    assert clusters[0] in clusters;
  }

  // and its bytes are the file's.
  lemma CopyIsTheFile(c: nat, name: seq<byte>, kind: Kind, file: seq<byte>, clusters: seq<nat>, writes: seq<Write>)
    requires IsCapacity(c) && Copying(c, name, kind, file, clusters, writes)
    ensures FileGood(Run(Mounted(c), c, writes), c, clusters[0], |file|)
    ensures FileOf(Run(Mounted(c), c, writes), c, clusters[0], |file|) == file
  {
    var d := Run(Mounted(c), c, writes);
    CopyArrives(c, name, kind, file, clusters, writes);
    hide Run, Mounted, ChainGood, FileOf, Copying;
    forall o: nat | o < |file|
      ensures FileOf(d, c, clusters[0], |file|)[o] == file[o]
    {
      CopiedByte(c, name, kind, file, clusters, writes, o);
    }
  }

  lemma CopiedByte(c: nat, name: seq<byte>, kind: Kind, file: seq<byte>, clusters: seq<nat>, writes: seq<Write>, o: nat)
    requires IsCapacity(c) && Copying(c, name, kind, file, clusters, writes) && o < |file|
    requires FileGood(Run(Mounted(c), c, writes), c, clusters[0], |file|)
    ensures FileOf(Run(Mounted(c), c, writes), c, clusters[0], |file|)[o] == file[o]
  {
    hide Run, Mounted, ClusterAt, TableSent, CopySent, PieceSent, ChainedFat, Listed, LayoutOf, BootBlock, OnDrive, Once, LinkGood;
    hide FileGood, FileOf, BlockAt, IsCapacity;
    var d, i, k, t := Run(Mounted(c), c, writes), o / PAGE, o % PAGE / BLOCK, o % BLOCK;
    Whereabouts(|file|, |clusters|, o);
    TablesArrive(c, name, kind, file, clusters, writes);
    ChainArrives(c, clusters, d, i);
    PieceArrives(c, name, kind, file, clusters, writes, i, k);
    FileFromBlocks(d, c, clusters[0], |file|, o);
    hide Copying;
    PieceByte(BlockAt(d.data, (clusters[i] - FIRST_CLUSTER) * PAGE_BLOCKS + k), file, i * PAGE + k * BLOCK, t, o);
  }

  lemma PieceByte(block: seq<byte>, file: seq<byte>, from: nat, t: nat, o: nat)
    requires |block| == BLOCK && HasPiece(block, file, from) && t < BLOCK && o == from + t && o < |file|
    ensures block[t] == file[o]
  {}

  lemma Whereabouts(size: nat, n: nat, o: nat)
    requires o < size <= n * PAGE
    ensures o / PAGE < n && o % PAGE / BLOCK < PAGE_BLOCKS && o % BLOCK < BLOCK
    ensures o / PAGE * PAGE + o % PAGE / BLOCK * BLOCK + o % BLOCK == o
  {
    BlockIndex(0, o);
  }

  // The simplest of these hosts: the file in the first free clusters, and every block from the tables to the end
  // of the file written once, one after the other.
  function FirstClusters(n: nat): (clusters: seq<nat>)
    ensures |clusters| == n
  {
    seq(n, i requires 0 <= i < n => 3 + i)
  }

  function Padded(file: seq<byte>, o: nat): (block: seq<byte>)
    ensures |block| == BLOCK
  {
    seq(BLOCK, t requires 0 <= t < BLOCK => if o + t < |file| then file[o + t] else 0)
  }

  function Contents(c: nat, name: seq<byte>, kind: Kind, file: seq<byte>, lba: nat): (block: seq<byte>)
    requires IsCapacity(c) && |name| == 8 && OnDrive(c, FirstClusters(PageCount(|file|)))
    ensures |block| == BLOCK
  {
    var fat, root := ChainedFat(c, FirstClusters(PageCount(|file|))), Listed(name, kind, 3, |file|);
    if 1 <= lba < 33 then WholeBlock(fat, lba - 1); BlockAt(fat, lba - 1)
    else if 33 <= lba < 65 then WholeBlock(fat, lba - 33); BlockAt(fat, lba - 33)
    else if 65 <= lba < 81 then WholeBlock(root, lba - 65); BlockAt(root, lba - 65)
    else if lba < 89 then Repeat(0, BLOCK)
    else Padded(file, (lba - 89) * BLOCK)
  }

  lemma WholeBlock(s: seq<byte>, b: nat)
    requires (b + 1) * BLOCK <= |s|
    ensures |BlockAt(s, b)| == BLOCK
  {}

  function OneByOne(c: nat, name: seq<byte>, kind: Kind, file: seq<byte>): (writes: seq<Write>)
    requires IsCapacity(c) && |name| == 8 && OnDrive(c, FirstClusters(PageCount(|file|)))
    ensures |writes| == 88 + PageCount(|file|) * 8
    ensures forall i: nat :: i < |writes| ==> writes[i] == Write(i + 1, Contents(c, name, kind, file, i + 1))
  {
    seq(88 + PageCount(|file|) * 8, i requires 0 <= i < 88 + PageCount(|file|) * 8 => Write(i + 1, Contents(c, name, kind, file, i + 1)))
  }

  lemma {:induction false} SentOnce(writes: seq<Write>, lba: nat)
    requires 1 <= lba <= |writes| && forall i: nat :: i < |writes| ==> writes[i].lba == i + 1
    ensures Sent(writes, lba) == Some(writes[lba - 1].block)
  {
    if lba < |writes| {
      SentOnce(writes[..|writes| - 1], lba);
    }
  }

  lemma FirstOnDrive(c: nat, n: nat)
    requires IsCapacity(c) && n <= StagingPages(c)
    ensures OnDrive(c, FirstClusters(n)) && Once(FirstClusters(n))
  {
    hide LayoutOf, BootBlock;
    HostLayout(c);
    assert (BlockCount(c) - 81) / 8 == StagingPages(c) + 1;
  }

  // It copies any file that there is room for.
  lemma CopyIsPossible(c: nat, name: seq<byte>, kind: Kind, file: seq<byte>)
    requires IsCapacity(c) && |name| == 8 && name[0] != 0 && name[0] != 0xE5 && 0 < |file| <= StagingPages(c) * PAGE
    ensures OnDrive(c, FirstClusters(PageCount(|file|)))
    ensures Copying(c, name, kind, file, FirstClusters(PageCount(|file|)), OneByOne(c, name, kind, file))
  {
    var n := PageCount(|file|);
    RoomFor(c, |file|);
    FirstOnDrive(c, n);
    var clusters, writes := FirstClusters(n), OneByOne(c, name, kind, file);
    hide OnDrive, Once, Sent, TableSent, PieceSent, ChainedFat, Listed, MountedFat, MountedRoot, Contents, OneByOne, PageCount, StagingPages, Copying;
    TablesOneByOne(c, name, kind, file);
    forall i: nat, k: nat | i < n && k < 8 && i * PAGE + k * BLOCK < |file|
      ensures PieceSent(writes, DataAddress(clusters[i], k), file, i * PAGE + k * BLOCK)
    {
      PieceOneByOne(c, name, kind, file, i, k);
    }
    WritesFit(c, name, kind, file);
    SuchAHost(c, name, kind, file, clusters, writes);
  }

  lemma WritesFit(c: nat, name: seq<byte>, kind: Kind, file: seq<byte>)
    requires IsCapacity(c) && |name| == 8 && OnDrive(c, FirstClusters(PageCount(|file|))) && PageCount(|file|) <= StagingPages(c)
    ensures forall w :: w in OneByOne(c, name, kind, file) ==> InVolume(w, c)
  {
    hide Contents, OnDrive, PageCount, StagingPages;
  }

  function DataAddress(cluster: nat, k: nat): int {
    81 + 8 * (cluster - 2) + k
  }

  // With the places read off the boot sector.
  lemma SuchAHost(c: nat, name: seq<byte>, kind: Kind, file: seq<byte>, clusters: seq<nat>, writes: seq<Write>)
    requires IsCapacity(c) && |name| == 8 && name[0] != 0 && name[0] != 0xE5
    requires 0 < |file| < WORDS && (|clusters| - 1) * PAGE < |file| <= |clusters| * PAGE && OnDrive(c, clusters) && Once(clusters)
    requires forall w :: w in writes ==> InVolume(w, c)
    requires TableSent(writes, 1, 32, MountedFat(c), ChainedFat(c, clusters)) && TableSent(writes, 33, 32, MountedFat(c), ChainedFat(c, clusters))
    requires TableSent(writes, 65, 16, MountedRoot(), Listed(name, kind, clusters[0], |file|))
    requires forall i: nat, k: nat :: i < |clusters| && k < 8 && i * PAGE + k * BLOCK < |file| ==>
               PieceSent(writes, DataAddress(clusters[i], k), file, i * PAGE + k * BLOCK)
    ensures Copying(c, name, kind, file, clusters, writes)
  {
    hide LayoutOf, BootBlock, OnDrive, Once, TableSent, PieceSent, ChainedFat, Listed, MountedFat, MountedRoot, StagingPages;
    HostLayout(c);
    var l := HostsLayout(c);
    forall copy: nat | copy < l.copies
      ensures CopySent(l, copy, writes, MountedFat(c), ChainedFat(c, clusters))
    {
      assert l.fat + copy * l.fatBlocks == if copy == 0 then 1 else 33;
    }
    forall i: nat, k: nat | i < |clusters| && k < l.perCluster && i * PAGE + k * BLOCK < |file|
      ensures PieceSent(writes, BlockOf(l, clusters[i], k), file, i * PAGE + k * BLOCK)
    {
      assert BlockOf(l, clusters[i], k) == DataAddress(clusters[i], k);
    }
  }

  lemma RoomFor(c: nat, size: nat)
    requires IsCapacity(c) && 0 < size <= StagingPages(c) * PAGE
    ensures 0 < PageCount(size) <= StagingPages(c) && (PageCount(size) - 1) * PAGE < size <= PageCount(size) * PAGE && size < WORDS
  {}

  lemma OneSent(c: nat, name: seq<byte>, kind: Kind, file: seq<byte>, lba: nat)
    requires IsCapacity(c) && |name| == 8 && OnDrive(c, FirstClusters(PageCount(|file|))) && 1 <= lba <= 88 + PageCount(|file|) * 8
    ensures Sent(OneByOne(c, name, kind, file), lba) == Some(Contents(c, name, kind, file, lba))
  {
    hide Contents, OnDrive, PageCount;
    SentOnce(OneByOne(c, name, kind, file), lba);
  }

  lemma TablesOneByOne(c: nat, name: seq<byte>, kind: Kind, file: seq<byte>)
    requires IsCapacity(c) && |name| == 8 && OnDrive(c, FirstClusters(PageCount(|file|)))
    ensures var writes, fat := OneByOne(c, name, kind, file), ChainedFat(c, FirstClusters(PageCount(|file|)));
            && TableSent(writes, 1, 32, MountedFat(c), fat) && TableSent(writes, 33, 32, MountedFat(c), fat)
            && TableSent(writes, 65, 16, MountedRoot(), Listed(name, kind, 3, |file|))
  {
    hide OnDrive, PageCount, OneByOne, Sent, ChainedFat, Listed, MountedFat, MountedRoot, BlockAt;
    forall b: nat | b < 32
      ensures Sent(OneByOne(c, name, kind, file), 1 + b) == Some(BlockAt(ChainedFat(c, FirstClusters(PageCount(|file|))), b))
      ensures Sent(OneByOne(c, name, kind, file), 33 + b) == Some(BlockAt(ChainedFat(c, FirstClusters(PageCount(|file|))), b))
    {
      OneSent(c, name, kind, file, 1 + b);
      OneSent(c, name, kind, file, 33 + b);
    }
    forall b: nat | b < 16
      ensures Sent(OneByOne(c, name, kind, file), 65 + b) == Some(BlockAt(Listed(name, kind, 3, |file|), b))
    {
      OneSent(c, name, kind, file, 65 + b);
    }
  }

  lemma PieceOneByOne(c: nat, name: seq<byte>, kind: Kind, file: seq<byte>, i: nat, k: nat)
    requires IsCapacity(c) && |name| == 8 && OnDrive(c, FirstClusters(PageCount(|file|)))
    requires i < PageCount(|file|) && k < 8
    ensures PieceSent(OneByOne(c, name, kind, file), 89 + i * 8 + k, file, i * PAGE + k * BLOCK)
  {
    hide OnDrive, PageCount, OneByOne, Sent, ChainedFat, Listed;
    OneSent(c, name, kind, file, 89 + i * 8 + k);
    assert (i * 8 + k) * BLOCK == i * PAGE + k * BLOCK;
  }

  function Image(file: seq<byte>, info: RomInfo): seq<byte>
    requires info.dataOffset + info.size <= |file|
  {
    file[info.dataOffset..][..info.size]
  }

  // The files that get onto the device: a whole image of it, or a ROM whose map it can show.
  ghost predicate Installable(kind: Kind, file: seq<byte>, c: nat, detected: Option<RomInfo>, fx: bool)
    requires IsCapacity(c)
    requires detected.Some? ==> Staged(detected.value, c) && detected.value.dataOffset + detected.value.size <= |file|
  {
    if kind.Bin? || kind.Rom? then |file| == c
    else |file| <= c + 768 && detected.Some? && (detected.value.mapping == Fx3 ==> fx)
         && Spreads(detected.value, c, Image(file, detected.value))
  }

  // From a file on the host to the programmed device: mounting, copying, ejecting, installing.
  method CopyAndInstall(volume: Volume, installer: Installer, ghost name: seq<byte>, ghost kind: Kind, ghost file: seq<byte>,
                        ghost clusters: seq<nat>, writes: seq<Write>, detected: Option<RomInfo>) returns (ok: bool)
    requires volume.Valid() && !volume.completed && volume.disk == Mounted(volume.Capacity())
    requires installer.Shape() && installer.area == volume.area && installer.Fresh()
    requires Copying(volume.Capacity(), name, kind, file, clusters, writes)
    requires detected.Some? ==> Staged(detected.value, volume.Capacity()) &&
                                detected.value.dataOffset + detected.value.size <= |file|
    modifies volume, volume.fat, volume.root, installer, installer.area, installer.rom, installer.rom.cells
    modifies installer.area.sectorBuffer, installer.area.spill, installer.area.swap0, installer.area.swap1
    modifies if installer.fxRom == null then {} else {installer.fxRom}
    ensures ok && (kind.Bin? || kind.Rom?) ==> installer.rom.cells[..] == file
    ensures ok && (kind.Sfc? || kind.Smc?) ==>
              detected.Some? && installer.Installed(detected.value, Image(file, detected.value))
    ensures installer.rom.failAt.None? ==>
              (ok <==> Installable(kind, file, volume.Capacity(), detected, installer.fxRom != null))
  {
    hide Copying, Ejectable, FileOf, FileGood, Run, Mounted, Only, IsRaw, FirstAt, SizeAt, Installable, Staged, Image, Volume.HandedOver, Volume.Valid;
    CopyIsTheFile(volume.Capacity(), name, kind, file, clusters, writes);
    ok := CopyAndEject(volume, name, kind, file, clusters, writes);
    if ok {
      ok := InstallCopy(volume, installer, kind, file, detected);
    } else {
      TooLarge(kind, file, volume.Capacity(), detected, installer.fxRom != null);
    }
  }

  lemma TooLarge(kind: Kind, file: seq<byte>, c: nat, detected: Option<RomInfo>, fx: bool)
    requires IsCapacity(c)
    requires detected.Some? ==> Staged(detected.value, c) && detected.value.dataOffset + detected.value.size <= |file|
    ensures c + (if kind.Bin? || kind.Rom? then 0 else 768) < |file| ==> !Installable(kind, file, c, detected, fx)
  {}

  // From the eject on.
  method InstallCopy(volume: Volume, installer: Installer, ghost kind: Kind, ghost file: seq<byte>,
                     detected: Option<RomInfo>) returns (ok: bool)
    requires volume.Valid() && Ejectable(volume.disk, volume.Capacity(), 2) && volume.HandedOver(2)
    requires FileGood(volume.disk, volume.Capacity(), FirstAt(volume.disk.root, 2), SizeAt(volume.disk.root, 2))
    requires FileOf(volume.disk, volume.Capacity(), FirstAt(volume.disk.root, 2), SizeAt(volume.disk.root, 2)) == file
    requires IsRaw(volume.disk.root, 2) <==> kind.Bin? || kind.Rom?
    requires |file| <= volume.Capacity() + if kind.Bin? || kind.Rom? then 0 else 768
    requires installer.Shape() && installer.area == volume.area && installer.Fresh()
    requires detected.Some? ==> Staged(detected.value, volume.Capacity()) &&
                                detected.value.dataOffset + detected.value.size <= |file|
    modifies installer, installer.area, installer.rom, installer.rom.cells
    modifies installer.area.sectorBuffer, installer.area.spill, installer.area.swap0, installer.area.swap1
    modifies if installer.fxRom == null then {} else {installer.fxRom}
    ensures ok && (kind.Bin? || kind.Rom?) ==> installer.rom.cells[..] == file
    ensures ok && (kind.Sfc? || kind.Smc?) ==>
              detected.Some? && installer.Installed(detected.value, Image(file, detected.value))
    ensures installer.rom.failAt.None? ==>
              (ok <==> Installable(kind, file, volume.Capacity(), detected, installer.fxRom != null))
  {
    hide FileOf, FileGood, Ejectable, Only, IsRaw, FirstAt, SizeAt, Staged, Spreads;
    ok := InstallEjected(volume, installer, 2, detected);
  }

  // Up to the eject, which succeeds exactly when the drive takes files of this size.
  method CopyAndEject(volume: Volume, ghost name: seq<byte>, ghost kind: Kind, ghost file: seq<byte>, ghost clusters: seq<nat>,
                      writes: seq<Write>) returns (ok: bool)
    requires volume.Valid() && !volume.completed && volume.disk == Mounted(volume.Capacity())
    requires IsCapacity(volume.Capacity()) && Copying(volume.Capacity(), name, kind, file, clusters, writes)
    modifies volume, volume.fat, volume.root
    modifies volume.area, volume.area.rom, volume.area.rom.cells, volume.area.sectorBuffer, volume.area.spill
    ensures volume.Valid() && (!ok ==> volume.area.rom.Dead() || volume.Capacity() + (if kind.Bin? || kind.Rom? then 0 else 768) < |file|)
    ensures ok ==> |file| <= volume.Capacity() + (if kind.Bin? || kind.Rom? then 0 else 768)
    ensures ok ==> volume.disk == Run(Mounted(volume.Capacity()), volume.Capacity(), writes)
    ensures ok ==> Ejectable(volume.disk, volume.Capacity(), 2) && volume.HandedOver(2)
    ensures ok ==> (IsRaw(volume.disk.root, 2) <==> kind.Bin? || kind.Rom?)
    ensures ok ==> FirstAt(volume.disk.root, 2) == clusters[0] && SizeAt(volume.disk.root, 2) == |file|
  {
    hide ChainGood, FileOf, Run, Mounted, Only, IsRaw, FirstAt, SizeAt, Ejectable;
    ghost var c := volume.Capacity();
    CopyArrives(c, name, kind, file, clusters, writes);
    OnlyOne(Run(Mounted(c), c, writes), c, 2);
    ok := Transfer(volume, writes);
    hide Copying;
    if ok {
      ok := volume.Eject();
    }
  }

  // At most one entry can be ejected.
  lemma OnlyOne(d: Disk, c: nat, k: nat)
    requires Sized(d, c) && Only(d.root, k)
    ensures forall j: nat :: Ejectable(d, c, j) ==> j == k
  {
    hide ChainGood, SizeAt, FirstAt, IsRaw, RomEntry;
  }
}
