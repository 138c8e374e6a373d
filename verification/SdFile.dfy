/** Reading a file from the SD card's FAT volume (src/platform/rp2350/sd_audio_source.cpp), one sector
  * buffer for two files, with transfers that may have to be retried. */
module SdFile {
  import opened Arithmetic
  import opened Bytes
  import opened LittleEndian

  const SECTOR := 512
  const READ_LIMIT := 4096
  const ERROR_LIMIT := 3

  datatype Volume = Volume(fat: nat, data: nat, clusters: nat, sectorsPerCluster: nat, fat32: bool)
  datatype File = File(cluster: nat, size: nat, position: nat, clusterPosition: nat, anchor: nat, power: nat, steps: nat)

  // What a card transfer comes to.
  datatype Reply = Fine | Busy | Garbled | Broken

  datatype Result = Ok | Retry | Error
  datatype Outcome = Bytes(data: seq<byte>) | RetryLater | Failure

  // Why a read stopped early.
  datatype Reason = Nothing | CardFault | BadLink | Loop

  function ClusterBytes(v: Volume): nat {
    v.sectorsPerCluster * SECTOR
  }

  predicate ValidCluster(v: Volume, cluster: nat) {
    2 <= cluster && cluster - 2 < v.clusters
  }

  function LinkSector(v: Volume, cluster: nat): nat {
    v.fat + cluster * (if v.fat32 then 4 else 2) / SECTOR
  }

  // The FAT entry of a cluster, in the sector that holds it.
  function Entry(v: Volume, sector: seq<byte>, cluster: nat): nat
    requires |sector| == SECTOR
  {
    if v.fat32 then (Le16(sector, cluster * 4 % SECTOR) + 0x1_0000 * Le16(sector, cluster * 4 % SECTOR + 2)) % 0x1000_0000
    else Le16(sector, cluster * 2 % SECTOR)
  }

  ghost predicate Card(sectors: seq<seq<byte>>) {
    forall s <- sectors :: |s| == SECTOR
  }

  // A file's first cluster on a card.
  datatype Chain = Chain(volume: Volume, sectors: seq<seq<byte>>, start: nat)

  ghost predicate Sound(c: Chain) {
    Card(c.sectors) && 0 < c.volume.sectorsPerCluster
  }

  // The cluster after this one; past the end of the card there is none.
  ghost function Link(c: Chain, cluster: nat): nat
    requires Sound(c)
  {
    var at := LinkSector(c.volume, cluster);
    if at < |c.sectors| then Entry(c.volume, c.sectors[at], cluster) else 0
  }

  // The k-th cluster of the chain.
  ghost function ClusterAt(c: Chain, k: nat): nat
    requires Sound(c)
  {
    if k == 0 then c.start else Link(c, ClusterAt(c, k - 1))
  }

  function DataSector(v: Volume, cluster: nat, offset: nat): nat
    requires 2 <= cluster
  {
    v.data + (cluster - 2) * v.sectorsPerCluster + offset / SECTOR
  }

  // Which cluster of a chain a position of its file is in.
  function ClusterOf(v: Volume, p: nat): nat
    requires 0 < v.sectorsPerCluster
  {
    QuotientNat(p, ClusterBytes(v));
    p / ClusterBytes(v)
  }

  // The byte at a place in a cluster,
  ghost function ByteIn(c: Chain, cluster: nat, offset: nat): byte
    requires Sound(c)
  {
    if 2 <= cluster && DataSector(c.volume, cluster, offset) < |c.sectors|
    then c.sectors[DataSector(c.volume, cluster, offset)][offset % SECTOR] else 0
  }

  // the byte of the file at a position, following the chain,
  ghost function ByteAt(c: Chain, p: nat): byte
    requires Sound(c)
  {
    ByteIn(c, ClusterAt(c, ClusterOf(c.volume, p)), p % ClusterBytes(c.volume))
  }

  // and the bytes between two positions.
  ghost function Content(c: Chain, from: nat, to: nat): (s: seq<byte>)
    requires Sound(c) && from <= to
    ensures |s| == to - from && forall i :: 0 <= i < to - from ==> s[i] == ByteAt(c, from + i)
  {
    seq<byte>(to - from, i requires 0 <= i < to - from && Sound(c) => ByteAt(c, from + i))
  }

  // The card as one string of bytes.
  ghost function CardByte(c: Chain, a: nat): byte
    requires Sound(c)
  {
    if a / SECTOR < |c.sectors| then c.sectors[a / SECTOR][a % SECTOR] else 0
  }

  // A FAT entry is the little-endian number at its place in the table: two bytes a cluster, or the lower 28 bits
  // of four.
  lemma LinkSpelled(c: Chain, cluster: nat)
    requires Sound(c) && LinkSector(c.volume, cluster) < |c.sectors|
    ensures !c.volume.fat32 ==>
              var a := c.volume.fat * 512 + cluster * 2;
              Link(c, cluster) == Base256([CardByte(c, a), CardByte(c, a + 1)])
    ensures c.volume.fat32 ==>
              var a := c.volume.fat * 512 + cluster * 4;
              Link(c, cluster) == Base256([CardByte(c, a), CardByte(c, a + 1), CardByte(c, a + 2), CardByte(c, a + 3)]) % 0x1000_0000
  {
    hide CardByte, Base256;
    var width := if c.volume.fat32 then 4 else 2;
    var sector, k := c.sectors[LinkSector(c.volume, cluster)], cluster * width % SECTOR;
    EntryInside(cluster, width);
    InSector(c, c.volume.fat, cluster * width, 0);
    InSector(c, c.volume.fat, cluster * width, 1);
    if c.volume.fat32 {
      InSector(c, c.volume.fat, cluster * width, 2);
      InSector(c, c.volume.fat, cluster * width, 3);
      Spelled32(sector[k], sector[k + 1], sector[k + 2], sector[k + 3]);
    } else {
      Spelled16(sector[k], sector[k + 1]);
    }
  }

  // An entry does not cross the end of its sector.
  lemma EntryInside(cluster: nat, width: nat)
    requires width == 2 || width == 4
    ensures cluster * width % SECTOR + width <= SECTOR
  {}

  lemma InSector(c: Chain, base: nat, o: nat, i: nat)
    requires Sound(c) && o % SECTOR + i < SECTOR && base + o / SECTOR < |c.sectors|
    ensures CardByte(c, base * 512 + o + i) == c.sectors[base + o / SECTOR][o % SECTOR + i]
  {
    var q, r := o / SECTOR, o % SECTOR + i;
    assert base * 512 + o + i == (base + q) * SECTOR + r;
    DivModUnique(SECTOR, base + q, r);
  }

  // Clusters lie one behind the other from the data area on, each in its own sectors,
  lemma ClustersTile(v: Volume, cluster: nat, offset: nat)
    requires 2 <= cluster && offset < ClusterBytes(v)
    ensures DataSector(v, 2, 0) == v.data && DataSector(v, cluster + 1, 0) == DataSector(v, cluster, 0) + v.sectorsPerCluster
    ensures DataSector(v, cluster, 0) <= DataSector(v, cluster, offset) < DataSector(v, cluster + 1, 0)
    ensures ValidCluster(v, cluster) <==> DataSector(v, cluster + 1, 0) <= v.data + v.clusters * v.sectorsPerCluster
  {
    var n := cluster - 2;
    assert (n + 1) * v.sectorsPerCluster == n * v.sectorsPerCluster + v.sectorsPerCluster;
    assert offset / SECTOR < v.sectorsPerCluster;
    LastCluster(n, v.clusters, v.sectorsPerCluster);
  }

  lemma LastCluster(n: nat, clusters: nat, size: nat)
    requires 0 < size
    ensures n < clusters <==> n * size + size <= clusters * size
  {
    MulLess(n + 1, clusters, size, 0);
    MulLess(clusters, n, size, 0);
    assert (n + 1) * size == n * size + size;
  }

  // and a byte of a cluster is that byte of the card.
  lemma ByteOnCard(c: Chain, cluster: nat, offset: nat)
    requires Sound(c) && 2 <= cluster
    ensures ByteIn(c, cluster, offset) == CardByte(c, (c.volume.data + (cluster - 2) * c.volume.sectorsPerCluster) * 512 + offset)
  {
    var base, q, r := c.volume.data + (cluster - 2) * c.volume.sectorsPerCluster, offset / SECTOR, offset % SECTOR;
    assert base * 512 + offset == (base + q) * SECTOR + r;
    DivModUnique(SECTOR, base + q, r);
  }

  // Which cluster of the chain the file is in: the anchor's index plus the steps since.
  function Index(f: File): int {
    f.power - 1 + f.steps
  }

  // No cluster after index a up to index k is the one at a.
  ghost predicate Unseen(c: Chain, a: nat, k: int)
    requires Sound(c)
  {
    forall j: nat :: a < j <= k ==> ClusterAt(c, j) != ClusterAt(c, a)
  }

  // Brent's bookkeeping: the anchor sits at a power of two less one, and neither this round nor the last
  // has met its anchor again.
  ghost predicate Tracked(c: Chain, f: File)
    requires Sound(c)
  {
    && 0 < f.power && f.steps < f.power
    && f.cluster == ClusterAt(c, f.power - 1 + f.steps) && f.anchor == ClusterAt(c, f.power - 1)
    && Unseen(c, f.power - 1, Index(f))
    && (1 < f.power ==> f.power % 2 == 0 && Unseen(c, f.power / 2 - 1, f.power - 1))
  }

  // The position is what the chain index and the place in the cluster say.
  ghost predicate Placed(v: Volume, f: File) {
    && f.clusterPosition <= ClusterBytes(v)
    && f.position == Index(f) * ClusterBytes(v) + f.clusterPosition && f.position <= f.size
  }

  // One step along the chain, past the loop checks.
  function Advanced(f: File, next: nat): File {
    if f.steps + 1 == f.power
    then f.(cluster := next, clusterPosition := 0, anchor := next, steps := 0, power := f.power * 2)
    else f.(cluster := next, clusterPosition := 0, steps := f.steps + 1)
  }

  lemma NextCluster(c: Chain, k: nat)
    requires Sound(c)
    ensures ClusterAt(c, k + 1) == Link(c, ClusterAt(c, k))
  {}

  lemma AdvancedTracked(c: Chain, f: File, next: nat)
    requires Sound(c) && Tracked(c, f) && next == Link(c, f.cluster) && next != f.anchor
    ensures Tracked(c, Advanced(f, next)) && Index(Advanced(f, next)) == Index(f) + 1
  {
    hide Link, ClusterAt, Unseen;
    NextCluster(c, f.power - 1 + f.steps);
    UnseenNext(c, f.power - 1, f.power - 1 + f.steps);
    if f.steps + 1 == f.power {
      Reanchored(c, Advanced(f, next), f.power);
    } else {
      SteppedOn(c, f, Advanced(f, next));
    }
  }

  lemma UnseenNext(c: Chain, a: nat, k: nat)
    requires Sound(c) && Unseen(c, a, k) && ClusterAt(c, k + 1) != ClusterAt(c, a)
    ensures Unseen(c, a, k + 1)
  {
    hide ClusterAt;
  }

  lemma SteppedOn(c: Chain, f: File, g: File)
    requires Sound(c) && Tracked(c, f) && f.steps + 1 < f.power
    requires g.cluster == ClusterAt(c, f.power - 1 + f.steps + 1) && Unseen(c, f.power - 1, Index(f) + 1)
    requires g.power == f.power && g.anchor == f.anchor && g.steps == f.steps + 1
    ensures Tracked(c, g)
  {
    assert Index(g) == Index(f) + 1;
    assert f.power - 1 + g.steps == f.power - 1 + f.steps + 1;
    hide ClusterAt, Unseen, Index;
  }

  lemma Reanchored(c: Chain, f: File, p: nat)
    requires Sound(c) && 0 < p && f.power == p * 2 && f.steps == 0
    requires f.cluster == f.anchor == ClusterAt(c, 2 * p - 1) && Unseen(c, p - 1, 2 * p - 1)
    ensures Tracked(c, f)
  {
    hide ClusterAt;
    assert f.power / 2 == p && f.power - 1 == 2 * p - 1 && f.power % 2 == 0;
  }

  lemma AdvancedPlaced(v: Volume, f: File, next: nat)
    requires Placed(v, f) && f.clusterPosition == ClusterBytes(v)
    ensures Placed(v, Advanced(f, next))
  {
    hide ClusterBytes;
    assert Index(Advanced(f, next)) == Index(f) + 1;
  }

  ghost predicate Same(c: Chain, i: nat, j: nat)
    requires Sound(c)
  {
    i < j && ClusterAt(c, i) == ClusterAt(c, j)
  }

  // The chain visits some cluster twice.
  ghost predicate Loops(c: Chain)
    requires Sound(c)
  {
    exists i: nat, j: nat :: Same(c, i, j)
  }

  // A link rejected as a loop really closes one.
  lemma LoopIsReal(c: Chain, f: File, next: nat)
    requires Sound(c) && Tracked(c, f) && next == Link(c, f.cluster) && (next == f.cluster || next == f.anchor)
    ensures Loops(c)
  {
    hide Link, ClusterAt;
    var k := f.power - 1 + f.steps;
    NextCluster(c, k);
    assert Same(c, if next == f.cluster then k else f.power - 1, k + 1);
  }

  // A chain with a tail of the given length and a cycle of the given length.
  ghost predicate Cyclic(c: Chain, tail: nat, cycle: nat)
    requires Sound(c)
  {
    0 < cycle && Same(c, tail, tail + cycle)
  }

  lemma {:induction false} CycleRepeats(c: Chain, tail: nat, cycle: nat, i: nat)
    requires Sound(c) && Cyclic(c, tail, cycle) && tail <= i
    ensures ClusterAt(c, i + cycle) == ClusterAt(c, i)
  {
    hide Link;
    if tail < i {
      CycleRepeats(c, tail, cycle, i - 1);
      NextCluster(c, i - 1);
      NextCluster(c, i - 1 + cycle);
    }
  }

  // On a cyclic chain a file never gets four times as far as the tail and the cycle together reach.
  lemma LoopIsFound(c: Chain, f: File, tail: nat, cycle: nat)
    requires Sound(c) && Tracked(c, f) && Cyclic(c, tail, cycle)
    ensures Index(f) < 4 * (tail + cycle)
  {
    hide Link, ClusterAt;
    var half := f.power / 2;
    if tail < half {
      CycleRepeats(c, tail, cycle, half - 1);
    }
  }

  // Everything a reader needs of the chain up to a cluster is on the card, and no cluster comes twice.
  ghost predicate Healthy(c: Chain, last: nat)
    requires Sound(c)
  {
    && (forall k: nat :: k <= last ==> OnCard(c, k)) && (forall k: nat :: k < last ==> LinkOnCard(c, k))
    && (forall i: nat, j: nat :: j <= last ==> !Same(c, i, j))
  }

  ghost predicate OnCard(c: Chain, k: nat)
    requires Sound(c)
  {
    var cluster := ClusterAt(c, k);
    ValidCluster(c.volume, cluster) && DataSector(c.volume, cluster, 0) + c.volume.sectorsPerCluster <= |c.sectors|
  }

  ghost predicate LinkOnCard(c: Chain, k: nat)
    requires Sound(c)
  {
    LinkSector(c.volume, ClusterAt(c, k)) < |c.sectors|
  }

  lemma HealthyBefore(c: Chain, k: nat, last: nat)
    requires Sound(c) && Healthy(c, last) && k <= last
    ensures Healthy(c, k)
  {}

  lemma OnCardAt(c: Chain, k: nat, offset: nat)
    requires Sound(c) && OnCard(c, k) && offset < ClusterBytes(c.volume)
    ensures DataSector(c.volume, ClusterAt(c, k), offset) < |c.sectors|
  {
    hide ClusterAt;
    assert offset / SECTOR < c.volume.sectorsPerCluster;
  }

  // A link that is refused spoils the chain at the next cluster.
  lemma RefusedLink(c: Chain, f: File, next: nat) returns (why: Reason)
    requires Sound(c) && Tracked(c, f) && next == Link(c, f.cluster)
    requires !ValidCluster(c.volume, next) || next == f.cluster || next == f.anchor
    ensures !Healthy(c, Index(f) + 1)
    ensures if ValidCluster(c.volume, next) then why.Loop? && Loops(c) else why.BadLink?
  {
    hide Link, ClusterAt, Loops;
    var k := f.power - 1 + f.steps;
    why := if ValidCluster(c.volume, next) then Loop else BadLink;
    if why.Loop? {
      LoopIsReal(c, f, next);
    }
    NextCluster(c, k);
    if next == f.cluster || next == f.anchor {
      assert Same(c, if next == f.cluster then k else f.power - 1, k + 1);
    } else {
      assert !OnCard(c, k + 1);
    }
  }

  lemma LinkMissing(c: Chain, f: File)
    requires Sound(c) && Tracked(c, f) && LinkSector(c.volume, f.cluster) >= |c.sectors|
    ensures !Healthy(c, Index(f) + 1)
  {
    hide ClusterAt;
    assert !LinkOnCard(c, f.power - 1 + f.steps);
  }

  lemma DataMissing(c: Chain, f: File)
    requires Sound(c) && Tracked(c, f) && f.clusterPosition < ClusterBytes(c.volume) && 2 <= f.cluster
    requires DataSector(c.volume, f.cluster, f.clusterPosition) >= |c.sectors|
    ensures !Healthy(c, Index(f))
  {
    var k := f.power - 1 + f.steps;
    hide ClusterAt, DataSector, ClusterBytes;
    if OnCard(c, k) {
      OnCardAt(c, k, f.clusterPosition);
    }
  }

  // The cluster a position is in; at the end of a cluster it is the next one.
  lemma PlacedIn(v: Volume, f: File)
    requires Placed(v, f) && 0 < v.sectorsPerCluster && 0 <= Index(f)
    ensures ClusterOf(v, f.position) == if f.clusterPosition < ClusterBytes(v) then Index(f) else Index(f) + 1
  {
    var size := ClusterBytes(v);
    assert 0 < size;
    hide ClusterBytes;
    if f.clusterPosition < size {
      DivModUnique(size, Index(f), f.clusterPosition);
    } else {
      assert (Index(f) + 1) * size == Index(f) * size + size;
      DivModUnique(size, Index(f) + 1, 0);
    }
  }

  // The replies a piece of work took are the first of those that were to come.
  ghost predicate Took(before: seq<Reply>, after: seq<Reply>) {
    |after| <= |before| && after == before[|before| - |after|..]
  }

  ghost predicate AllFine(before: seq<Reply>, after: seq<Reply>) {
    forall i :: 0 <= i < |before| - |after| ==> before[i].Fine?
  }

  // The last reply taken ends reading: the transfer broke, or it is the third garbled one in a row.
  ghost predicate Fatal(before: seq<Reply>, after: seq<Reply>, errors: nat) {
    |after| < |before| && Ends(before[|before| - |after| - 1], errors)
  }

  predicate Ends(last: Reply, errors: nat) {
    last.Broken? || (last.Garbled? && 3 <= errors)
  }

  // The replies taken end in one that may be tried again: a busy card, or garbled bytes for the first or second time.
  ghost predicate Delayed(before: seq<Reply>, after: seq<Reply>, errors: nat) {
    !AllFine(before, after) && !Fatal(before, after, errors)
  }

  // The first reply taken was a garbled one.
  ghost predicate Garbles(before: seq<Reply>, after: seq<Reply>) {
    |after| < |before| && before[0].Garbled?
  }

  lemma TookOn(a: seq<Reply>, b: seq<Reply>, c: seq<Reply>, errors: nat)
    requires Took(a, b) && Took(b, c)
    ensures Took(a, c) && (AllFine(a, c) <==> AllFine(a, b) && AllFine(b, c))
    ensures Fatal(b, c, errors) ==> Fatal(a, c, errors)
    ensures AllFine(a, b) && Fatal(a, c, errors) ==> Fatal(b, c, errors)
    ensures AllFine(a, b) && Delayed(b, c, errors) ==> Delayed(a, c, errors)
  {
    var n, m := |a| - |b|, |b| - |c|;
    assert forall i :: 0 <= i < |b| ==> b[i] == a[n + i];
    if AllFine(a, c) {
      forall i | 0 <= i < m
        ensures b[i].Fine?
      {
        assert a[n + i].Fine?;
      }
    }
    if AllFine(a, b) && AllFine(b, c) {
      forall i | 0 <= i < n + m
        ensures a[i].Fine?
      {
        assert i < n || a[i] == b[i - n];
      }
    }
  }

  // Two files share one mounted volume and one sector buffer.
  class Reader {
    const sectors: seq<seq<byte>> // what the card holds
    const volume: Volume
    var cached: Option<nat>
    var buffer: seq<byte>
    var errors: nat
    var mounted: bool
    var open: seq<bool>
    var files: seq<File>
    var replies: seq<Reply>       // how the coming transfers turn out
    ghost var starts: seq<nat>    // the first cluster of each file

    ghost function ChainOf(slot: nat): Chain
      requires slot < |starts|
      reads `starts
    {
      Chain(volume, sectors, starts[slot])
    }

    // The buffer holds the cached sector.
    ghost predicate Cached()
      reads `cached, `buffer
    {
      cached.Some? ==> cached.value < |sectors| && buffer == sectors[cached.value]
    }

    ghost predicate FileGood(slot: nat)
      requires slot < |starts| && slot < |files|
      reads `starts, `files
    {
      && Sound(ChainOf(slot)) && Tracked(ChainOf(slot), files[slot]) && Placed(volume, files[slot])
      && (0 < files[slot].size ==> ValidCluster(volume, files[slot].cluster))
    }

    ghost predicate Valid()
      reads `cached, `buffer, `open, `files, `starts
    {
      && Card(sectors) && 0 < volume.sectorsPerCluster && Cached()
      && |open| == |files| == |starts| == 2 && FileGood(0) && FileGood(1)
    }

    constructor (sectors: seq<seq<byte>>, volume: Volume)
      requires Card(sectors) && 0 < volume.sectorsPerCluster
      ensures Valid() && this.sectors == sectors && this.volume == volume && mounted
    {
      this.sectors, this.volume := sectors, volume;
      cached, buffer, errors, mounted, replies := None, [], 0, true, [];
      open, files, starts := [false, false], [Fresh(0, 0), Fresh(0, 0)], [0, 0];
    }

    // Open a file whose directory entry names its first cluster and its size.
    method Open(slot: nat, cluster: nat, size: nat)
      requires Valid() && slot < 2 && (ValidCluster(volume, cluster) || size == 0)
      modifies `open, `files, `starts
      ensures Valid() && open == old(open)[slot := true] && starts == old(starts)[slot := cluster]
      ensures files == old(files)[slot := Fresh(cluster, size)]
    {
      hide Tracked, Placed;
      FreshGood(Chain(volume, sectors, cluster), Fresh(cluster, size));
      open, files, starts := open[slot := true], files[slot := Fresh(cluster, size)], starts[slot := cluster];
    }

    // How the next transfer turns out.
    method Transfer() returns (reply: Reply)
      modifies `replies
      ensures Took(old(replies), replies) && |replies| == if old(replies) == [] then 0 else |old(replies)| - 1
      ensures reply == if old(replies) == [] then Fine else old(replies)[0]
      ensures AllFine(old(replies), replies) <==> reply.Fine?
      ensures Garbles(old(replies), replies) <==> reply.Garbled?
      ensures forall e: nat :: Fatal(old(replies), replies, e) <==> Ends(reply, e)
    {
      reply := Fine;
      if replies != [] {
        reply, replies := replies[0], replies[1..];
      }
    }

    // Bring a sector into the buffer. A busy or cancelled transfer is retried without limit, a garbled one
    // until the third in a row.
    method ReadSector(sector: nat) returns (result: Result)
      requires Card(sectors) && Cached()
      modifies `cached, `buffer, `errors, `replies
      ensures Cached() && (result.Ok? ==> sector < |sectors| && buffer == sectors[sector] && |buffer| == SECTOR)
      ensures Took(old(replies), replies) && (result.Ok? <==> sector < |sectors| && AllFine(old(replies), replies))
      ensures result.Error? <==> |sectors| <= sector || Fatal(old(replies), replies, errors)
      ensures errors == if result.Ok? && old(cached) != Some(sector) then 0
                        else if Garbles(old(replies), replies) then old(errors) + 1 else old(errors)
      ensures errors <= if result.Ok? then old(errors) else old(errors) + 1
      ensures result.Retry? ==> Delayed(old(replies), replies, errors)
      ensures if |sectors| <= sector || old(cached) == Some(sector) then unchanged(this) else cached == if result.Ok? then Some(sector) else None
    {
      hide Took, AllFine, Fatal, Garbles;
      TookNothing(replies, errors);
      if sector >= |sectors| {
        return Error;
      }
      if cached == Some(sector) {
        return Ok;
      }
      cached := None;
      var reply := Transfer();
      match reply {
        case Busy => return Retry;
        case Garbled =>
          errors := errors + 1;
          return if errors < ERROR_LIMIT then Retry else Error;
        case Broken => return Error;
        case Fine =>
          errors, cached, buffer := 0, Some(sector), sectors[sector];
          return Ok;
      }
    }

    method NextLink(ghost c: Chain, cluster: nat) returns (result: Result, next: nat)
      requires Sound(c) && c.volume == volume && c.sectors == sectors && Cached()
      modifies `cached, `buffer, `errors, `replies
      ensures Cached() && (result.Ok? ==> next == Link(c, cluster)) && Took(old(replies), replies)
      ensures errors <= if result.Ok? then old(errors) else old(errors) + 1
      ensures result.Retry? ==> Delayed(old(replies), replies, errors)
      ensures result.Ok? <==>
                ValidCluster(volume, cluster) && LinkSector(volume, cluster) < |sectors| && AllFine(old(replies), replies)
      ensures result.Error? <==>
                !ValidCluster(volume, cluster) || |sectors| <= LinkSector(volume, cluster) || Fatal(old(replies), replies, errors)
    {
      next := 0;
      if !ValidCluster(volume, cluster) {
        return Error, 0;
      }
      result := ReadSector(LinkSector(volume, cluster));
      if result.Ok? {
        next := Entry(volume, buffer, cluster);
      }
    }

    // A sector the file's place needs is not on the card.
    predicate Outside(slot: nat)
      requires slot < |files|
      reads `files
    {
      var f := files[slot];
      |sectors| <= LinkSector(volume, f.cluster) || (2 <= f.cluster && |sectors| <= DataSector(volume, f.cluster, f.clusterPosition))
    }

    // The reason a read gives for failing is true of the chain, the card or the last transfer.
    ghost predicate Excused(slot: nat, why: Reason, before: seq<Reply>)
      requires slot < |files| && slot < |starts| && Sound(ChainOf(slot))
      reads `files, `starts, `replies, `errors
    {
      match why {
        case Nothing => true
        case CardFault => Outside(slot) || Fatal(before, replies, errors)
        case BadLink => !ValidCluster(volume, Link(ChainOf(slot), files[slot].cluster))
        case Loop => Loops(ChainOf(slot))
      }
    }

    // Follow the chain at the end of a cluster, unless the next link is bad or closes a loop.
    method Follow(slot: nat) returns (result: Result, ghost why: Reason)
      requires Valid() && slot < 2 && files[slot].clusterPosition == ClusterBytes(volume) && 0 < files[slot].size
      modifies `cached, `buffer, `errors, `replies, `files
      ensures Valid() && (result.Ok? ==> files[slot].clusterPosition == 0) && (!result.Ok? ==> files == old(files))
      ensures files[1 - slot] == old(files)[1 - slot]
      ensures files[slot].position == old(files)[slot].position && files[slot].size == old(files)[slot].size
      ensures Excused(slot, why, old(replies))
      ensures result.Error? <==> !why.Nothing?
      ensures Took(old(replies), replies) && errors <= if result.Ok? then old(errors) else old(errors) + 1
      ensures !result.Ok? ==> !AllFine(old(replies), replies) || !Healthy(ChainOf(slot), Index(old(files)[slot]) + 1)
      ensures result.Retry? ==> Delayed(old(replies), replies, errors)
      ensures result.Error? ==> Fatal(old(replies), replies, errors) || !Healthy(ChainOf(slot), Index(old(files)[slot]) + 1)
      ensures result.Ok? ==> AllFine(old(replies), replies) && Index(files[slot]) == Index(old(files)[slot]) + 1
    {
      hide Healthy, Loops, Took, AllFine, Fatal, Cached, ClusterBytes, LinkSector, Tracked, Link, ClusterAt;
      var f := files[slot];
      var next;
      ghost var c := ChainOf(slot);
      why := Nothing;
      result, next := NextLink(c, f.cluster);
      if !result.Ok? {
        why := if result.Error? then CardFault else Nothing;
        if |sectors| <= LinkSector(volume, f.cluster) {
          LinkMissing(c, f);
        }
      } else if !ValidCluster(volume, next) || next == f.cluster || next == f.anchor {
        why := RefusedLink(c, f, next);
        result := Error;
      } else {
        MoveOn(slot, next);
      }
    }

    // Go on to the next cluster, past the loop checks.
    method MoveOn(slot: nat, next: nat)
      requires Valid() && slot < 2 && files[slot].clusterPosition == ClusterBytes(volume) && ValidCluster(volume, next)
      requires next == Link(ChainOf(slot), files[slot].cluster) && next != files[slot].anchor
      modifies `files
      ensures Valid() && files == old(files)[slot := Advanced(old(files)[slot], next)]
      ensures Index(files[slot]) == Index(old(files)[slot]) + 1
    {
      hide Tracked, Placed, Link, ClusterAt, ClusterBytes, Cached;
      AdvancedTracked(ChainOf(slot), files[slot], next);
      AdvancedPlaced(volume, files[slot], next);
      files := files[slot := Advanced(files[slot], next)];
    }

    // The sector that holds the current position, following the chain first where a cluster ends.
    method Locate(slot: nat) returns (result: Result, ghost why: Reason)
      requires Valid() && slot < 2 && files[slot].position < files[slot].size
      modifies `cached, `buffer, `errors, `replies, `files
      ensures Valid() && files[1 - slot] == old(files)[1 - slot]
      ensures files[slot].position == old(files)[slot].position && files[slot].size == old(files)[slot].size
      ensures Excused(slot, why, old(replies))
      ensures result.Error? <==> !why.Nothing?
      ensures result.Ok? ==> Loaded(slot) && AllFine(old(replies), replies)
      ensures Took(old(replies), replies) && errors <= if result.Ok? then old(errors) else old(errors) + 1
      ensures !result.Ok? ==>
                !AllFine(old(replies), replies) || !Healthy(ChainOf(slot), ClusterOf(volume, old(files)[slot].position))
      ensures result.Retry? ==> Delayed(old(replies), replies, errors)
      ensures result.Error? ==>
                Fatal(old(replies), replies, errors) || !Healthy(ChainOf(slot), ClusterOf(volume, old(files)[slot].position))
    {
      hide Tracked, Healthy, Link, Loops, ClusterBytes, ClusterOf, DataSector, LinkSector, Took, AllFine, Fatal, Cached;
      why := Nothing;
      result := Ok;
      InsidePlace(slot);
      PlacedIn(volume, files[slot]);
      TookNothing(replies, errors);
      ghost var start := replies;
      if files[slot].clusterPosition == ClusterBytes(volume) {
        result, why := Follow(slot);
      }
      if result.Ok? {
        ghost var mid := replies;
        result := ReadSector(DataSector(volume, files[slot].cluster, files[slot].clusterPosition));
        TookOn(start, mid, replies, errors);
        if result.Error? {
          why := CardFault;
        }
        if |sectors| <= DataSector(volume, files[slot].cluster, files[slot].clusterPosition) {
          DataMissing(ChainOf(slot), files[slot]);
        }
      }
    }

    lemma InsidePlace(slot: nat)
      requires Valid() && slot < 2
      ensures files[slot].position <= files[slot].size && 0 <= Index(files[slot])
      ensures files[slot].clusterPosition <= ClusterBytes(volume) && 0 < ClusterBytes(volume)
      ensures Sound(ChainOf(slot)) && Placed(volume, files[slot]) && Tracked(ChainOf(slot), files[slot])
    {}

    // The buffer holds the sector of the file's current place.
    predicate Loaded(slot: nat)
      requires slot < |files|
      reads `files, `buffer
    {
      var f := files[slot];
      && 2 <= f.cluster && f.clusterPosition < ClusterBytes(volume)
      && DataSector(volume, f.cluster, f.clusterPosition) < |sectors|
      && buffer == sectors[DataSector(volume, f.cluster, f.clusterPosition)] && |buffer| == SECTOR
    }

    // Copy from the buffer as much as it holds, the caller wants, and the file has.
    method Copy(slot: nat, wanted: nat) returns (data: seq<byte>)
      requires Valid() && slot < 2 && Loaded(slot) && 0 < wanted && files[slot].position < files[slot].size
      modifies `files
      ensures Valid() && files[1 - slot] == old(files)[1 - slot] && files[slot].size == old(files)[slot].size
      ensures 0 < |data| <= wanted && files[slot].position == old(files)[slot].position + |data| <= files[slot].size
      ensures data == Content(ChainOf(slot), old(files)[slot].position, files[slot].position)
    {
      hide Tracked, ByteAt, Placed, ClusterBytes, DataSector;
      var f := files[slot];
      var offset := f.clusterPosition % SECTOR;
      var count := SECTOR - offset;
      count := if count > wanted then wanted else count;
      count := if count > f.size - f.position then f.size - f.position else count;
      data := buffer[offset..offset + count];
      ghost var moved := f.(position := f.position + count, clusterPosition := f.clusterPosition + count);
      BytesHere(ChainOf(slot), f, data);
      MovedOn(ChainOf(slot), f, moved, count);
      files := files[slot := f.(position := f.position + count, clusterPosition := f.clusterPosition + count)];
    }

    // One turn of a read: find the sector and copy from it.
    method Turn(slot: nat, wanted: nat) returns (result: Result, data: seq<byte>, ghost why: Reason)
      requires Valid() && slot < 2 && 0 < wanted && files[slot].position < files[slot].size
      modifies `cached, `buffer, `errors, `replies, `files
      ensures Valid() && files[1 - slot] == old(files)[1 - slot] && files[slot].size == old(files)[slot].size
      ensures files[slot].position == old(files)[slot].position + |data| <= files[slot].size && |data| <= wanted
      ensures result.Ok? ==> AllFine(old(replies), replies) && 0 < |data|
      ensures data == Content(ChainOf(slot), old(files)[slot].position, files[slot].position)
      ensures Excused(slot, why, old(replies))
      ensures result.Error? <==> !why.Nothing?
      ensures !result.Ok? ==> data == []
      ensures Took(old(replies), replies) && errors <= if result.Ok? then old(errors) else old(errors) + 1
      ensures !result.Ok? ==>
                !AllFine(old(replies), replies) || !Healthy(ChainOf(slot), ClusterOf(volume, old(files)[slot].position))
      ensures result.Retry? ==> Delayed(old(replies), replies, errors)
      ensures result.Error? ==>
                Fatal(old(replies), replies, errors) || !Healthy(ChainOf(slot), ClusterOf(volume, old(files)[slot].position))
    {
      hide Tracked, Placed, FileGood, Cached, Loops, Loaded, ByteAt, Healthy, Outside, Link, Fatal, AllFine, Delayed, Took;
      InsidePlace(slot);
      result, why := Locate(slot);
      data := [];
      if result.Ok? {
        data := Copy(slot, wanted);
      }
    }

    // Turn after turn until the caller has enough, the file ends, or a turn finds no sector.
    method Gather(slot: nat, size: nat) returns (result: Result, data: seq<byte>, ghost why: Reason)
      requires Valid() && slot < 2
      modifies `cached, `buffer, `errors, `replies, `files
      ensures Valid() && files[1 - slot] == old(files)[1 - slot] && files[slot].size == old(files)[slot].size
      ensures files[slot].position == old(files)[slot].position + |data|
      ensures data == Content(ChainOf(slot), old(files)[slot].position, files[slot].position)
      ensures |data| <= Due(old(files)[slot], size) && (result.Ok? ==> |data| == Due(old(files)[slot], size))
      ensures result.Ok? ==> AllFine(old(replies), replies)
      ensures Excused(slot, why, old(replies))
      ensures result.Error? <==> !why.Nothing?
      ensures Took(old(replies), replies) && errors <= if result.Ok? then old(errors) else old(errors) + 1
      ensures !result.Ok? && AllFine(old(replies), replies) ==>
                0 < Due(old(files)[slot], size) && !Healthy(ChainOf(slot), LastCluster(old(files)[slot], size))
      ensures result.Retry? ==> Delayed(old(replies), replies, errors)
      ensures result.Error? ==>
                Fatal(old(replies), replies, errors) ||
                (0 < Due(old(files)[slot], size) && !Healthy(ChainOf(slot), LastCluster(old(files)[slot], size)))
    {
      hide Tracked, Placed, FileGood, Cached, Loops, Loaded, ByteAt, Healthy, Outside, Link, Fatal, AllFine, Delayed, Took, LastCluster;
      InsidePlace(slot);
      TookNothing(replies, errors);
      result, data, why := Ok, [], Nothing;
      ghost var from := files[slot].position;
      ghost var c := ChainOf(slot);
      while |data| < size && files[slot].position < files[slot].size
        invariant Valid() && ChainOf(slot) == c && files[1 - slot] == old(files)[1 - slot]
        invariant files[slot].size == old(files)[slot].size && files[slot].position == from + |data|
        invariant |data| <= size && data == Content(c, from, files[slot].position)
        invariant result.Ok? && why.Nothing? && files[slot].position <= files[slot].size
        invariant Took(old(replies), replies) && AllFine(old(replies), replies) && errors <= old(errors)
        decreases files[slot].size - files[slot].position
      {
        ghost var mid, at := replies, files[slot].position;
        var more;
        result, more, why := Turn(slot, size - |data|);
        TookOn(old(replies), mid, replies, errors);
        ContentJoins(c, from, at, files[slot].position);
        data := data + more;
        if !result.Ok? {
          StillDue(c, old(files)[slot], at, size);
          return;
        }
      }
    }

    // One read: consecutive bytes of the file from where the last one stopped.
    method ReadFile(slot: nat, size: nat) returns (outcome: Outcome, ghost why: Reason)
      requires Valid() && slot < 2
      modifies `cached, `buffer, `errors, `replies, `files, `open, `mounted
      ensures Valid() && files[1 - slot] == old(files)[1 - slot] && files[slot].size == old(files)[slot].size
      ensures !old(mounted) || !old(open)[slot] || !(0 < size <= 4096) ==> outcome == Failure && unchanged(this)
      ensures outcome.Bytes? ==>
                && |outcome.data| <= size && files[slot].position == old(files)[slot].position + |outcome.data|
                && outcome.data == Content(ChainOf(slot), old(files)[slot].position, files[slot].position)
      ensures outcome == Bytes([]) ==> files[slot].position == files[slot].size
      ensures !outcome.Bytes? ==> files[slot].position == old(files)[slot].position
      ensures outcome.RetryLater? ==> why.Nothing?
      ensures Excused(slot, why, old(replies))
      ensures if why.Nothing? then open == old(open) && mounted == old(mounted) else open == old(open)[slot := false] && !mounted
      ensures Took(old(replies), replies) && errors <= old(errors) + 1
      ensures old(mounted) && old(open)[slot] && 0 < size <= 4096 && AllFine(old(replies), replies) &&
              (0 < Due(old(files)[slot], size) ==> Healthy(ChainOf(slot), LastCluster(old(files)[slot], size))) ==>
                outcome.Bytes? && |outcome.data| == Due(old(files)[slot], size)
      ensures outcome.RetryLater? ==> Delayed(old(replies), replies, errors)
      ensures old(mounted) && old(open)[slot] && 0 < size <= 4096 && outcome.Failure? ==> !why.Nothing?
      ensures outcome.Bytes? && |outcome.data| < Due(old(files)[slot], size) ==>
                !why.Nothing? || Delayed(old(replies), replies, errors)
      ensures !why.Nothing? ==>
                Fatal(old(replies), replies, errors) ||
                (0 < Due(old(files)[slot], size) && !Healthy(ChainOf(slot), LastCluster(old(files)[slot], size)))
    {
      hide FileGood, Cached, Loops, Healthy, Outside, Link, Fatal, AllFine, Delayed, Took, LastCluster;
      InsidePlace(slot);
      if !mounted || !open[slot] || size == 0 || size > READ_LIMIT {
        TookNothing(replies, errors);
        return Failure, Nothing;
      }
      var result, data;
      result, data, why := Gather(slot, size);
      outcome := if result.Ok? || data != [] then Bytes(data) else if result.Retry? then RetryLater else Failure;
      if result.Error? {
        open, mounted := open[slot := false], false;
      }
    }

    // A file read to its end, read after read, as long as the reader keeps it open: however the transfers turn
    // out this comes to an end, with the rest of the file or with the file closed for a true reason. A healthy
    // chain is closed for a fatal transfer alone; and a file that is longer than four times what the tail and the
    // cycle of its chain hold together is always closed, after no more than that.
    method ReadThrough(slot: nat) returns (data: seq<byte>, ghost why: Reason)
      requires Valid() && slot < 2 && mounted && open[slot]
      modifies `cached, `buffer, `errors, `replies, `files, `open, `mounted
      ensures Valid() && files[1 - slot] == old(files)[1 - slot] && files[slot].size == old(files)[slot].size
      ensures files[slot].position == old(files)[slot].position + |data|
      ensures data == Content(ChainOf(slot), old(files)[slot].position, files[slot].position)
      ensures if why.Nothing? then open == old(open) && mounted && files[slot].position == files[slot].size
              else open == old(open)[slot := false] && !mounted
      ensures Took(old(replies), replies) && Excused(slot, why, old(replies))
      ensures !why.Nothing? ==>
                Fatal(old(replies), replies, errors) ||
                (0 < files[slot].size && !Healthy(ChainOf(slot), ClusterOf(volume, files[slot].size - 1)))
      ensures forall tail: nat, cycle: nat :: Cyclic(ChainOf(slot), tail, cycle) ==>
                && files[slot].position <= 4 * (tail + cycle) * ClusterBytes(volume)
                && (4 * (tail + cycle) * ClusterBytes(volume) < files[slot].size ==> !why.Nothing?)
    {
      hide Tracked, Placed, FileGood, Cached, Loops, ByteAt, Healthy, Outside, Link, Fatal, Delayed, Took, LastCluster, ClusterOf, Cyclic,
           ClusterBytes;
      InsidePlace(slot);
      TookNothing(replies, errors);
      data, why := [], Nothing;
      ghost var c, from := ChainOf(slot), files[slot].position;
      while files[slot].position < files[slot].size
        invariant Valid() && ChainOf(slot) == c && files[1 - slot] == old(files)[1 - slot]
        invariant files[slot].size == old(files)[slot].size && files[slot].position == from + |data| <= files[slot].size
        invariant data == Content(c, from, files[slot].position)
        invariant why.Nothing? && open == old(open) && mounted && Took(old(replies), replies)
        decreases |replies| + (files[slot].size - files[slot].position)
      {
        ghost var mid, was, at := replies, files[slot], files[slot].position;
        var outcome;
        outcome, why := ReadFile(slot, READ_LIMIT);
        InsidePlace(slot);
        TookOn(old(replies), mid, replies, errors);
        DelayedTakes(mid, replies, errors);
        if outcome.Bytes? {
          ContentJoins(c, from, at, files[slot].position);
          data := data + outcome.data;
        }
        if !mounted {
          EndDue(c, was, READ_LIMIT);
          break;
        }
      }
      forall tail: nat, cycle: nat | Cyclic(ChainOf(slot), tail, cycle)
        ensures files[slot].position <= 4 * (tail + cycle) * ClusterBytes(volume)
      {
        CyclicIsBounded(slot, tail, cycle);
      }
    }

    // The last cluster a read needs is no later than the last one of the file.
    lemma EndDue(c: Chain, f: File, size: nat)
      requires Sound(c) && c.volume == volume && 0 < volume.sectorsPerCluster && 0 < Due(f, size)
      ensures Healthy(c, ClusterOf(volume, f.size - 1)) ==> Healthy(c, LastCluster(f, size))
    {
      hide Healthy;
      QuotientGrows(f.position + Due(f, size) - 1, f.size - 1, ClusterBytes(volume));
      if Healthy(c, ClusterOf(volume, f.size - 1)) {
        HealthyBefore(c, LastCluster(f, size), ClusterOf(volume, f.size - 1));
      }
    }

    // How many bytes a read is due, and the cluster the last of them is in.
    function Due(f: File, size: nat): nat {
      if size <= f.size - f.position then size else if f.position <= f.size then f.size - f.position else 0
    }

    function LastCluster(f: File, size: nat): nat
      requires 0 < volume.sectorsPerCluster && 0 < Due(f, size)
    {
      ClusterOf(volume, f.position + Due(f, size) - 1)
    }

    // A position before the end of a read is in a cluster the read needs.
    lemma StillDue(c: Chain, f: File, at: nat, size: nat)
      requires Sound(c) && c.volume == volume && 0 < volume.sectorsPerCluster && f.position <= at < f.position + Due(f, size)
      ensures Healthy(c, LastCluster(f, size)) ==> Healthy(c, ClusterOf(volume, at))
    {
      hide Healthy;
      QuotientGrows(at, f.position + Due(f, size) - 1, ClusterBytes(volume));
      if Healthy(c, LastCluster(f, size)) {
        HealthyBefore(c, ClusterOf(volume, at), LastCluster(f, size));
      }
    }

    // However often a file on a cyclic chain is read, it delivers a bounded part of it.
    lemma CyclicIsBounded(slot: nat, tail: nat, cycle: nat)
      requires Valid() && slot < 2 && Cyclic(ChainOf(slot), tail, cycle)
      ensures files[slot].position <= 4 * (tail + cycle) * ClusterBytes(volume)
    {
      var f, size := files[slot], ClusterBytes(volume);
      LoopIsFound(ChainOf(slot), f, tail, cycle);
      MulGap(Index(f), 4 * (tail + cycle), size);
      hide Tracked, Cyclic, ClusterBytes;
    }
  }

  lemma DelayedTakes(before: seq<Reply>, after: seq<Reply>, errors: nat)
    requires Took(before, after)
    ensures Delayed(before, after, errors) ==> |after| < |before|
    ensures |after| <= |before|
  {}

  lemma TookNothing(replies: seq<Reply>, errors: nat)
    ensures Took(replies, replies) && AllFine(replies, replies)
    ensures !Garbles(replies, replies) && !Fatal(replies, replies, errors)
  {}

  lemma CopyInside(v: Volume, f: File, count: nat)
    requires f.clusterPosition < ClusterBytes(v) && f.clusterPosition % SECTOR + count <= SECTOR
    ensures f.clusterPosition + count <= ClusterBytes(v)
  {}

  // The bytes of the current sector are the file's bytes at the current position.
  lemma ByteHere(c: Chain, f: File, i: nat)
    requires Sound(c) && Tracked(c, f) && Placed(c.volume, f) && 2 <= f.cluster
    requires f.clusterPosition < ClusterBytes(c.volume) && f.clusterPosition % SECTOR + i < SECTOR
    requires DataSector(c.volume, f.cluster, f.clusterPosition) < |c.sectors|
    ensures ByteAt(c, f.position + i) == c.sectors[DataSector(c.volume, f.cluster, f.clusterPosition)][f.clusterPosition % SECTOR + i]
  {
    var place := f.clusterPosition + i;
    CopyInside(c.volume, f, i + 1);
    SameSector(f.clusterPosition, i);
    assert DataSector(c.volume, f.cluster, place) == DataSector(c.volume, f.cluster, f.clusterPosition);
    DivModUnique(ClusterBytes(c.volume), Index(f), place);
    hide ClusterAt, Link, DataSector, ClusterBytes;
    assert f.position + i == Index(f) * ClusterBytes(c.volume) + place;
  }

  lemma SameSector(at: nat, i: nat)
    requires at % SECTOR + i < SECTOR
    ensures (at + i) / SECTOR == at / SECTOR && (at + i) % SECTOR == at % SECTOR + i
  {}

  lemma BytesHere(c: Chain, f: File, data: seq<byte>)
    requires Sound(c) && Tracked(c, f) && Placed(c.volume, f) && 2 <= f.cluster
    requires f.clusterPosition < ClusterBytes(c.volume) && f.clusterPosition % SECTOR + |data| <= SECTOR
    requires DataSector(c.volume, f.cluster, f.clusterPosition) < |c.sectors|
    requires var offset := f.clusterPosition % SECTOR;
             data == c.sectors[DataSector(c.volume, f.cluster, f.clusterPosition)][offset..offset + |data|]
    ensures data == Content(c, f.position, f.position + |data|)
  {
    forall i: nat | i < |data|
      ensures data[i] == Content(c, f.position, f.position + |data|)[i]
    {
      ByteHere(c, f, i);
    }
  }

  lemma ContentJoins(c: Chain, from: nat, at: nat, to: nat)
    requires Sound(c) && from <= at <= to
    ensures Content(c, from, at) + Content(c, at, to) == Content(c, from, to)
  {
    hide ByteAt;
  }

  lemma MovedOn(c: Chain, f: File, g: File, count: nat)
    requires Sound(c) && Tracked(c, f) && Placed(c.volume, f) && f.clusterPosition < ClusterBytes(c.volume)
    requires f.clusterPosition % SECTOR + count <= SECTOR && f.position + count <= f.size
    requires g == f.(position := f.position + count, clusterPosition := f.clusterPosition + count)
    ensures Tracked(c, g) && Placed(c.volume, g)
  {
    CopyInside(c.volume, f, count);
    MovedTracked(c, f, g);
    hide Tracked, ClusterBytes;
  }

  lemma MovedTracked(c: Chain, f: File, g: File)
    requires Sound(c) && Tracked(c, f) && g == f.(position := g.position, clusterPosition := g.clusterPosition)
    ensures Tracked(c, g)
  {
    hide ClusterAt, Unseen;
  }

  // A file just opened: at its first cluster, anchored there.
  function Fresh(cluster: nat, size: nat): File {
    File(cluster, size, 0, 0, cluster, 1, 0)
  }

  lemma FreshGood(c: Chain, f: File)
    requires Sound(c) && f == Fresh(c.start, f.size)
    ensures Tracked(c, f) && Placed(c.volume, f)
  {}
}
