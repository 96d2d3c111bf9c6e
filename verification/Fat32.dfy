/** FAT32 file reads and writes over a cluster chain (fs/fat32.c), with one sector per cluster. */
module Fat32Files {
  import opened Words

  const SECTOR: nat := 512

  type Byte = x: nat | x < 256

  type Disk = map<nat, seq<Byte>>

  /** Little-endian 32-bit word at byte i. */
  function Le32(b: seq<Byte>, i: nat): (r: nat)
    requires i + 4 <= |b|
    ensures r < 0x1_0000_0000
  {
    b[i] as int + 0x100 * b[i + 1] as int + 0x1_0000 * b[i + 2] as int + 0x100_0000 * b[i + 3] as int
  }

  /** Byte k of the word, counted from the lowest, is the k-th byte in memory. */
  lemma Le32Bytes(b: seq<Byte>, i: nat)
    requires i + 4 <= |b|
    ensures Le32(b, i) % 0x100 == b[i] && Le32(b, i) / 0x100 % 0x100 == b[i + 1]
    ensures Le32(b, i) / 0x1_0000 % 0x100 == b[i + 2] && Le32(b, i) / 0x100_0000 == b[i + 3]
  {
    var b0: nat, b1: nat, b2: nat, b3: nat := b[i] as nat, b[i + 1] as nat, b[i + 2] as nat, b[i + 3] as nat;
    var w: nat, y: nat, z: nat := Le32(b, i), 0x100 * b3 + b2, 0x1_0000 * b3 + 0x100 * b2 + b1;
    DivUnique(w, 0x100_0000, b3, 0x1_0000 * b2 + 0x100 * b1 + b0);
    DivUnique(w, 0x1_0000, y, 0x100 * b1 + b0);
    DivUnique(w, 0x100, z, b0);
    DivUnique(y, 0x100, b3, b2);
    DivUnique(z, 0x100, y, b1);
  }

  /** The fields of the BIOS parameter block that fat32_init uses. */
  datatype Bpb = Bpb(rsvdSecCnt: nat, numFats: nat, fatSz32: nat, secPerClus: nat)

  /** fat32_volume, as fat32_init fills it in. */
  datatype Volume = Volume(firstFatSec: nat, firstDataSec: nat, secPerCluster: nat)

  ghost predicate OnDisk(disk: Disk, sector: nat) { sector in disk && |disk[sector]| == SECTOR }

  /** cluster_to_sector. */
  function DataSector(vol: Volume, cluster: nat): nat
    requires cluster >= 2
  {
    (cluster - 2) * vol.secPerCluster + vol.firstDataSec
  }

  /** fat32_init: the tables follow the reserved sectors, the data follows the tables. */
  function VolumeOf(lba: nat, bpb: Bpb): Volume {
    var firstFatSec := lba + bpb.rsvdSecCnt;
    Volume(firstFatSec, firstFatSec + bpb.numFats * bpb.fatSz32, bpb.secPerClus)
  }

  /** sector_to_cluster. */
  function ClusterOf(vol: Volume, sector: nat): nat
    requires vol.secPerCluster > 0 && sector >= vol.firstDataSec
  {
    (sector - vol.firstDataSec) / vol.secPerCluster + 2
  }

  /** Cluster 2 starts the data region, and the clusters follow one another without a gap. */
  lemma ClustersInOrder(vol: Volume, c: nat)
    requires c >= 2
    ensures DataSector(vol, 2) == vol.firstDataSec && DataSector(vol, c + 1) == DataSector(vol, c) + vol.secPerCluster
  {
    assert (c - 2 + 1) * vol.secPerCluster == (c - 2) * vol.secPerCluster + vol.secPerCluster;
  }

  /** sector_to_cluster gives, for every data sector, the one cluster that it belongs to. */
  lemma ClusterOfIff(vol: Volume, sector: nat, c: nat)
    requires vol.secPerCluster > 0 && sector >= vol.firstDataSec && c >= 2
    ensures ClusterOf(vol, sector) == c <==> DataSector(vol, c) <= sector < DataSector(vol, c) + vol.secPerCluster
  {
    var d, n := vol.secPerCluster, sector - vol.firstDataSec;
    var q := n / d;
    assert n == q * d + n % d;
    if DataSector(vol, c) <= sector < DataSector(vol, c) + d {
      DivUnique(n, d, c - 2, n - (c - 2) * d);
    }
  }

  function FatSector(vol: Volume, cluster: nat): nat { vol.firstFatSec + cluster * 4 / SECTOR }

  /** The cluster that next_cluster reads: its offset within the sector is taken modulo 128 bytes. */
  function Next(vol: Volume, disk: Disk, cluster: nat): nat
    requires OnDisk(disk, FatSector(vol, cluster))
  {
    Le32(disk[FatSector(vol, cluster)], cluster * 4 % (SECTOR / 4))
  }

  /** The file allocation table's entry for a cluster: four bytes each, 128 of them in a sector. */
  function FatEntry(vol: Volume, disk: Disk, cluster: nat): nat
    requires OnDisk(disk, vol.firstFatSec + cluster / 128)
  {
    Le32(disk[vol.firstFatSec + cluster / 128], cluster % 128 * 4)
  }

  lemma FatSectorIs(vol: Volume, cluster: nat)
    ensures FatSector(vol, cluster) == vol.firstFatSec + cluster / 128
  {
  }

  lemma Slots(cluster: nat)
    ensures var read := cluster - cluster % 128 + cluster % 32;
      && read >= 0 && read / 128 == cluster / 128 && cluster * 4 % 128 == read % 128 * 4
      && (read == cluster <==> cluster % 128 < 32)
  {
    var q, m, r := cluster / 128, cluster % 128, cluster % 128 % 32;
    assert cluster == (4 * q + m / 32) * 32 + r;
    DivUnique(cluster, 32, 4 * q + m / 32, r);
    DivUnique(cluster * 4, 128, 4 * q + m / 32, r * 4);
    DivUnique(q * 128 + r, 128, q, r);
  }

  /** next_cluster reads the entry of the cluster with the same remainder by 32 among the first 32 of each 128; that
      is the cluster's own entry exactly if the cluster is one of those. */
  lemma NextIs(vol: Volume, disk: Disk, cluster: nat)
    requires OnDisk(disk, FatSector(vol, cluster))
    ensures var read := cluster - cluster % 128 + cluster % 32;
      && OnDisk(disk, vol.firstFatSec + read / 128) && Next(vol, disk, cluster) == FatEntry(vol, disk, read)
      && (read == cluster <==> cluster % 128 < 32)
  {
    hide Le32;
    FatSectorIs(vol, cluster);
    Slots(cluster);
  }

  /** Each table covers its clusters with sectors in front of the data. */
  lemma TablesBelowData(lba: nat, bpb: Bpb, cluster: nat)
    requires bpb.numFats >= 1 && cluster < bpb.fatSz32 * 128
    ensures FatSector(VolumeOf(lba, bpb), cluster) < VolumeOf(lba, bpb).firstDataSec
  {
    FatSectorIs(VolumeOf(lba, bpb), cluster);
    assert bpb.numFats * bpb.fatSz32 >= bpb.fatSz32 by { AtLeastFactor(bpb.numFats, bpb.fatSz32); }
  }

  ghost predicate ClusterOk(vol: Volume, disk: Disk, c: nat) {
    && c >= 2 && OnDisk(disk, DataSector(vol, c)) && OnDisk(disk, FatSector(vol, c))
    && FatSector(vol, c) < vol.firstDataSec
  }

  ghost predicate LinkTo(vol: Volume, disk: Disk, c: nat, d: nat)
    requires OnDisk(disk, FatSector(vol, c))
  {
    Next(vol, disk, c) == d
  }

  /** chain is what next_cluster walks from its first cluster, without repetition. */
  ghost predicate Chain(vol: Volume, disk: Disk, chain: seq<nat>) {
    && vol.secPerCluster == 1 && chain != []
    && (forall k | 0 <= k < |chain| :: ClusterOk(vol, disk, chain[k]))
    && (forall k | 0 <= k < |chain| - 1 :: LinkTo(vol, disk, chain[k], chain[k + 1]))
    && forall k, l | 0 <= k < l < |chain| :: chain[k] != chain[l]
  }

  /** The file as one byte string: its clusters' sectors one after another. */
  ghost function FileBytes(vol: Volume, disk: Disk, chain: seq<nat>): (s: seq<Byte>)
    requires forall k | 0 <= k < |chain| :: ClusterOk(vol, disk, chain[k])
    ensures |s| == |chain| * SECTOR
  {
    if chain == [] then []
    else
      var last := chain[|chain| - 1];
      assert ClusterOk(vol, disk, last);
      FileBytes(vol, disk, chain[..|chain| - 1]) + disk[DataSector(vol, last)]
  }

  lemma {:induction false} FileByte(vol: Volume, disk: Disk, chain: seq<nat>, k: nat, i: nat)
    requires (forall k | 0 <= k < |chain| :: ClusterOk(vol, disk, chain[k])) && k < |chain| && i < SECTOR
    ensures FileBytes(vol, disk, chain)[k * SECTOR + i] == disk[DataSector(vol, chain[k])][i]
  {
    if k < |chain| - 1 { FileByte(vol, disk, chain[..|chain| - 1], k, i); }
  }

  /** A stretch within one cluster is a slice of that cluster's sector. */
  lemma FileSlice(vol: Volume, disk: Disk, chain: seq<nat>, k: nat, lo: nat, n: nat)
    requires (forall k | 0 <= k < |chain| :: ClusterOk(vol, disk, chain[k])) && k < |chain| && lo + n <= SECTOR
    ensures FileBytes(vol, disk, chain)[k * SECTOR + lo..k * SECTOR + lo + n] == disk[DataSector(vol, chain[k])][lo..lo + n]
  {
    var at := k * SECTOR + lo;
    var xs, ys := FileBytes(vol, disk, chain)[at..at + n], disk[DataSector(vol, chain[k])][lo..lo + n];
    forall i | 0 <= i < n ensures xs[i] == ys[i] {
      FileByte(vol, disk, chain, k, lo + i);
    }
  }

  /** s with the bytes from `at` on replaced by data. */
  function Overwrite(s: seq<Byte>, at: nat, data: seq<Byte>): (r: seq<Byte>)
    requires at + |data| <= |s|
    ensures |r| == |s|
  {
    s[..at] + data + s[at + |data|..]
  }

  /** Every sector but the chain's data sectors is as it was. */
  ghost predicate OnlyChain(vol: Volume, disk: Disk, disk': Disk, chain: seq<nat>)
    requires forall k | 0 <= k < |chain| :: chain[k] >= 2
  {
    && disk'.Keys == disk.Keys
    && forall s <- disk :: (forall k | 0 <= k < |chain| :: s != DataSector(vol, chain[k])) ==> disk'[s] == disk[s]
  }

  /** A new data sector leaves the chain. */
  lemma ChainKept(vol: Volume, disk: Disk, chain: seq<nat>, k: nat, sector: seq<Byte>)
    requires Chain(vol, disk, chain) && k < |chain| && |sector| == SECTOR
    ensures var disk' := disk[DataSector(vol, chain[k]) := sector]; Chain(vol, disk', chain) && OnlyChain(vol, disk, disk', chain)
  {
    var disk' := disk[DataSector(vol, chain[k]) := sector];
    assert ClusterOk(vol, disk, chain[k]);
    forall l | 0 <= l < |chain| ensures ClusterOk(vol, disk', chain[l]) && disk'[FatSector(vol, chain[l])] == disk[FatSector(vol, chain[l])] {
      assert ClusterOk(vol, disk, chain[l]);
    }
    forall l | 0 <= l < |chain| - 1 ensures LinkTo(vol, disk', chain[l], chain[l + 1]) {
      assert LinkTo(vol, disk, chain[l], chain[l + 1]);
    }
  }

  lemma OverwriteAt(s: seq<Byte>, at: nat, data: seq<Byte>, i: nat)
    requires at + |data| <= |s| && i < |s|
    ensures Overwrite(s, at, data)[i] == if at <= i < at + |data| then data[i - at] else s[i]
  {
  }

  /** One byte of the file, when part of cluster k's sector has been overwritten. */
  lemma ByteWritten(vol: Volume, disk: Disk, chain: seq<nat>, k: nat, lo: nat, data: seq<Byte>, l: nat, i: nat)
    requires Chain(vol, disk, chain) && k < |chain| && lo + |data| <= SECTOR && l < |chain| && i < SECTOR
    requires OnDisk(disk, DataSector(vol, chain[k]))
    requires Chain(vol, disk[DataSector(vol, chain[k]) := Overwrite(disk[DataSector(vol, chain[k])], lo, data)], chain)
    ensures var disk' := disk[DataSector(vol, chain[k]) := Overwrite(disk[DataSector(vol, chain[k])], lo, data)];
      FileBytes(vol, disk', chain)[l * SECTOR + i] == Overwrite(FileBytes(vol, disk, chain), k * SECTOR + lo, data)[l * SECTOR + i]
  {
    hide Overwrite, FileBytes, LinkTo;
    var disk' := disk[DataSector(vol, chain[k]) := Overwrite(disk[DataSector(vol, chain[k])], lo, data)];
    FileByte(vol, disk, chain, l, i);
    FileByte(vol, disk', chain, l, i);
    OverwriteAt(disk[DataSector(vol, chain[k])], lo, data, i);
    OverwriteAt(FileBytes(vol, disk, chain), k * SECTOR + lo, data, l * SECTOR + i);
    assert l != k ==> DataSector(vol, chain[l]) != DataSector(vol, chain[k]);
  }

  /** Overwriting part of one data sector overwrites that part of the file, and leaves the chain. */
  lemma ChunkWritten(vol: Volume, disk: Disk, chain: seq<nat>, k: nat, lo: nat, data: seq<Byte>)
    requires Chain(vol, disk, chain) && k < |chain| && lo + |data| <= SECTOR
    ensures var s := DataSector(vol, chain[k]);
      var disk' := disk[s := Overwrite(disk[s], lo, data)];
      && Chain(vol, disk', chain) && OnlyChain(vol, disk, disk', chain)
      && FileBytes(vol, disk', chain) == Overwrite(FileBytes(vol, disk, chain), k * SECTOR + lo, data)
  {
    hide Overwrite, FileBytes, LinkTo, OnlyChain;
    var s := DataSector(vol, chain[k]);
    assert ClusterOk(vol, disk, chain[k]);
    var disk' := disk[s := Overwrite(disk[s], lo, data)];
    ChainKept(vol, disk, chain, k, Overwrite(disk[s], lo, data));
    var before, after := FileBytes(vol, disk, chain), FileBytes(vol, disk', chain);
    forall i | 0 <= i < |before| ensures after[i] == Overwrite(before, k * SECTOR + lo, data)[i] {
      ByteWritten(vol, disk, chain, k, lo, data, i / SECTOR, i % SECTOR);
    }
  }

  lemma OverwriteMore(s: seq<Byte>, at: nat, xs: seq<Byte>, ys: seq<Byte>)
    requires at + |xs| + |ys| <= |s|
    ensures Overwrite(Overwrite(s, at, xs), at + |xs|, ys) == Overwrite(s, at, xs + ys)
  {
  }

  lemma OverwriteNothing(s: seq<Byte>, at: nat)
    requires at <= |s|
    ensures Overwrite(s, at, []) == s
  {
  }

  // ----- the length that fat32_read settles on

  /** `if (cfo + len > size) len = size - cfo`, on 64-bit unsigned numbers. */
  function Clip(cfo: nat, len: nat, size: nat): nat {
    if (cfo + len) % WORD > size then (size - cfo) % WORD else len
  }

  /** For all words: the read ends within the recorded size exactly when it starts within it and the sum in the
      test does not wrap; then the length is what is left. Past the end the subtraction wraps around to almost
      2^64, which is longer than asked unless the sum has wrapped too. */
  lemma ClipInBounds(cfo: nat, len: nat, size: nat)
    requires cfo < WORD && len < WORD && size < WORD
    ensures cfo + Clip(cfo, len, size) <= size <==> cfo <= size && cfo + len < WORD
    ensures Clip(cfo, len, size) <= len <==> cfo <= size || cfo + len >= WORD
    ensures cfo <= size && cfo + len < WORD ==> Clip(cfo, len, size) == if len <= size - cfo then len else size - cfo
    ensures cfo > size && cfo + len < WORD ==> Clip(cfo, len, size) == WORD - (cfo - size)
  {
  }

  /** One byte past the end of a one-sector file, a read of 16 bytes becomes one of 2^64 - 1; and at position 1 a
      read of 2^64 - 1 bytes is not clipped at all. */
  lemma ClipWraps()
    ensures Clip(513, 16, 512) == WORD - 1
    ensures Clip(1, WORD - 1, 512) == WORD - 1
  {
  }

  class File {
    const cluster: nat
    const dirCluster: nat
    const dirIndex: nat
    var cfo: nat

    constructor (cluster: nat, dirCluster: nat, dirIndex: nat)
      ensures this.cluster == cluster && this.dirCluster == dirCluster && this.dirIndex == dirIndex && cfo == 0
    {
      this.cluster, this.dirCluster, this.dirIndex, this.cfo := cluster, dirCluster, dirIndex, 0;
    }
  }

  /** Where `size` stands in a sector of 32-byte directory entries. */
  function SizeAt(dirIndex: nat): nat { dirIndex * 32 + 28 }

  /** In an entry it comes last, behind name, extension, three single bytes and seven half-words; the entries follow
      one another, and those of a sector are the first 16. */
  lemma SizesInOrder(dirIndex: nat)
    ensures SizeAt(0) == 8 + 3 + 3 * 1 + 7 * 2 && SizeAt(0) + 4 == 32 && SizeAt(dirIndex + 1) == SizeAt(dirIndex) + 32
    ensures SizeAt(dirIndex) + 4 <= SECTOR <==> dirIndex < 16
  {
  }

  method CopyBytes(dst: array<Byte>, at: nat, src: array<Byte>, from: nat, n: nat)
    requires dst != src && at + n <= dst.Length && from + n <= src.Length
    modifies dst
    ensures dst[..] == Overwrite(old(dst[..]), at, src[from..from + n])
  {
    var i := 0;
    while i < n
      invariant 0 <= i <= n
      invariant forall j | 0 <= j < dst.Length :: dst[j] == if at <= j < at + i then src[from + j - at] else old(dst[j])
    {
      dst[at + i] := src[from + i];
      i := i + 1;
    }
  }

  lemma ChainFacts(vol: Volume, disk: Disk, chain: seq<nat>, k: nat)
    requires Chain(vol, disk, chain)
    ensures vol.secPerCluster == 1 && chain != []
    ensures forall l | 0 <= l < |chain| :: ClusterOk(vol, disk, chain[l]) && chain[l] >= 2
    ensures k < |chain| ==> chain[k] >= 2 && OnDisk(disk, DataSector(vol, chain[k]))
  {
  }

  lemma NothingWritten(vol: Volume, disk: Disk, chain: seq<nat>)
    requires forall k | 0 <= k < |chain| :: chain[k] >= 2
    ensures OnlyChain(vol, disk, disk, chain)
  {
  }

  lemma SliceMore(s: seq<Byte>, lo: nat, mid: nat, hi: nat)
    requires lo <= mid <= hi <= |s|
    ensures s[lo..mid] + s[mid..hi] == s[lo..hi]
  {
  }

  lemma OnlyChainAgain(vol: Volume, disk0: Disk, disk1: Disk, disk2: Disk, chain: seq<nat>)
    requires forall k | 0 <= k < |chain| :: chain[k] >= 2
    requires OnlyChain(vol, disk0, disk1, chain) && OnlyChain(vol, disk1, disk2, chain)
    ensures OnlyChain(vol, disk0, disk2, chain)
  {
  }

  lemma WordOfBytes(size: nat)
    ensures size % 0x100 + 0x100 * (size / 0x100 % 0x100) + 0x1_0000 * (size / 0x1_0000 % 0x100) + 0x100_0000 * (size / 0x100_0000 % 0x100)
      == size % 0x1_0000_0000
  {
    var a, b, c, d := size / 0x100, size / 0x1_0000, size / 0x100_0000, size / 0x1_0000_0000;
    assert size == a * 0x100 + size % 0x100;
    assert a / 0x100 == b && b / 0x100 == c && c / 0x100 == d;
    assert a == b * 0x100 + a % 0x100 && b == c * 0x100 + b % 0x100 && c == d * 0x100 + c % 0x100;
    DivUnique(size, 0x1_0000_0000, d, size - d * 0x1_0000_0000);
  }

  class Fat32 {
    const vol: Volume
    var disk: Disk
    const fat32Buf: array<Byte>
    const fat32TableBuf: array<Byte>

    ghost predicate BuffersOk() {
      fat32Buf.Length == SECTOR && fat32TableBuf.Length == SECTOR && fat32Buf != fat32TableBuf
    }

    constructor (vol: Volume, disk: Disk)
      ensures this.vol == vol && this.disk == disk && BuffersOk() && fresh(fat32Buf) && fresh(fat32TableBuf)
    {
      this.vol, this.disk := vol, disk;
      fat32Buf := new Byte[SECTOR](_ => 0);
      fat32TableBuf := new Byte[SECTOR](_ => 0);
    }

    /** The file's chain is `chain` and its directory entry is on the disk, outside the chain. */
    ghost predicate FileOk(file: File, chain: seq<nat>)
      reads this
    {
      && BuffersOk() && Chain(vol, disk, chain) && chain[0] == file.cluster
      && file.dirCluster >= 2 && file.dirIndex < 16 && OnDisk(disk, DataSector(vol, file.dirCluster))
      && file.dirCluster !in chain
    }

    /** The size in the file's directory entry. */
    ghost function RecordedSize(file: File): nat
      requires file.dirCluster >= 2 && file.dirIndex < 16 && OnDisk(disk, DataSector(vol, file.dirCluster))
      reads this
    {
      Le32(disk[DataSector(vol, file.dirCluster)], SizeAt(file.dirIndex))
    }

    ghost function Bytes(chain: seq<nat>): seq<Byte>
      requires Chain(vol, disk, chain)
      reads this
    {
      FileBytes(vol, disk, chain)
    }

    method ReadSector(sector: nat, buf: array<Byte>)
      requires OnDisk(disk, sector) && buf.Length == SECTOR
      modifies buf
      ensures buf[..] == disk[sector]
    {
      var i := 0;
      while i < SECTOR
        invariant 0 <= i <= SECTOR && buf[..i] == disk[sector][..i]
      {
        buf[i] := disk[sector][i];
        i := i + 1;
      }
    }

    method WriteSector(sector: nat, buf: array<Byte>)
      requires buf.Length == SECTOR
      modifies this`disk
      ensures disk == old(disk)[sector := buf[..]]
    {
      disk := disk[sector := buf[..]];
    }

    method NextCluster(cluster: nat) returns (next: nat)
      requires BuffersOk() && OnDisk(disk, FatSector(vol, cluster))
      modifies fat32TableBuf
      ensures next == Next(vol, disk, cluster)
    {
      var fatOffset := cluster * 4;
      var fatSector := vol.firstFatSec + fatOffset / SECTOR;
      ReadSector(fatSector, fat32TableBuf);
      var indexInSector := fatOffset % (SECTOR / 4);
      next := Le32(fat32TableBuf[..], indexInSector);
    }

    /** cluster and cfo stand for byte `pos` of the file. */
    ghost predicate Stands(chain: seq<nat>, k: nat, cluster: nat, cfo: nat, pos: nat) {
      pos == k * SECTOR + cfo && cfo < SECTOR && (k < |chain| ==> cluster == chain[k])
    }

    /** The loop with which reading and writing find the cluster of the file offset. */
    method SkipClusters(first: nat, pos: nat, ghost chain: seq<nat>) returns (cluster: nat, cfo: nat, ghost k: nat)
      requires BuffersOk() && Chain(vol, disk, chain) && chain[0] == first && pos < |chain| * SECTOR
      modifies fat32TableBuf
      ensures k < |chain| && Stands(chain, k, cluster, cfo, pos)
    {
      cluster, cfo, k := first, pos, 0;
      while cfo >= vol.secPerCluster * SECTOR
        invariant pos == k * SECTOR + cfo && k < |chain| && cluster == chain[k]
        decreases cfo
      {
        assert ClusterOk(vol, disk, chain[k]) && LinkTo(vol, disk, chain[k], chain[k + 1]);
        cluster := NextCluster(cluster);
        cfo := cfo - vol.secPerCluster * SECTOR;
        k := k + 1;
      }
    }

    /** The end of each round: on to the next cluster when this one is used up. */
    method Advance(cluster: nat, cfo: nat, ghost chain: seq<nat>, ghost k: nat) returns (cluster': nat, cfo': nat, ghost k': nat)
      requires BuffersOk() && Chain(vol, disk, chain) && k < |chain| && cluster == chain[k] && cfo <= SECTOR
      modifies fat32TableBuf
      ensures Stands(chain, k', cluster', cfo', k * SECTOR + cfo)
    {
      cluster', cfo', k' := cluster, cfo, k;
      if cfo >= vol.secPerCluster * SECTOR {
        assert ClusterOk(vol, disk, chain[k]);
        assert k < |chain| - 1 ==> LinkTo(vol, disk, chain[k], chain[k + 1]);
        cluster' := NextCluster(cluster);
        cfo' := cfo - vol.secPerCluster * SECTOR;
        k' := k + 1;
      }
    }

    method ClusterToSector(cluster: nat) returns (sector: nat)
      requires cluster >= 2
      ensures sector == DataSector(vol, cluster)
    {
      sector := (cluster - 2) * vol.secPerCluster + vol.firstDataSec;
    }

    method SectorToCluster(sector: nat) returns (cluster: nat)
      requires vol.secPerCluster > 0 && sector >= vol.firstDataSec
      ensures cluster == ClusterOf(vol, sector)
    {
      cluster := (sector - vol.firstDataSec) / vol.secPerCluster + 2;
    }

    /** One round of fat32_read's loop. */
    method ReadChunk(buf: array<Byte>, len: nat, done: nat, cluster: nat, cfo: nat, ghost chain: seq<nat>, ghost k: nat,
                     ghost start: nat, ghost buf0: seq<Byte>)
      returns (done': nat, cluster': nat, cfo': nat, ghost k': nat)
      requires BuffersOk() && Chain(vol, disk, chain) && Stands(chain, k, cluster, cfo, start + done)
      requires done < len <= buf.Length == |buf0| && start + len <= |chain| * SECTOR && buf != fat32Buf && buf != fat32TableBuf
      requires buf[..] == Overwrite(buf0, 0, Bytes(chain)[start..start + done])
      modifies buf, fat32Buf, fat32TableBuf
      ensures done < done' <= len && Stands(chain, k', cluster', cfo', start + done')
      ensures buf[..] == Overwrite(buf0, 0, Bytes(chain)[start..start + done'])
    {
      hide Chain, ClusterOk, FileBytes, LinkTo, Overwrite;
      ChainFacts(vol, disk, chain, k);
      var sector := ClusterToSector(cluster);
      var n := vol.secPerCluster * SECTOR - cfo;
      n := if done + n > len then len - done else n;
      ReadSector(sector, fat32Buf);
      ghost var all, piece := Bytes(chain), disk[sector][cfo..cfo + n];
      CopyBytes(buf, done, fat32Buf, cfo, n);
      FileSlice(vol, disk, chain, k, cfo, n);
      SliceMore(all, start, start + done, start + done + n);
      OverwriteMore(buf0, 0, all[start..start + done], piece);
      done' := done + n;
      cluster', cfo', k' := Advance(cluster, cfo + n, chain, k);
    }

    /** fat32_read: the slice of the file from cfo on, cut off at the recorded size. */
    method Read(file: File, buf: array<Byte>, len: nat, ghost chain: seq<nat>) returns (readLen: nat)
      requires FileOk(file, chain) && file.cfo <= RecordedSize(file) <= |chain| * SECTOR
      requires file.cfo + len < WORD && len <= buf.Length && buf != fat32Buf && buf != fat32TableBuf
      modifies file`cfo, buf, fat32Buf, fat32TableBuf
      ensures readLen == if len <= RecordedSize(file) - old(file.cfo) then len else RecordedSize(file) - old(file.cfo)
      ensures file.cfo == old(file.cfo) + readLen <= |Bytes(chain)|
      ensures buf[..] == Overwrite(old(buf[..]), 0, Bytes(chain)[old(file.cfo)..old(file.cfo) + readLen])
    {
      hide Chain, ClusterOk, FileBytes, LinkTo, Le32, Overwrite, Clip;
      ChainFacts(vol, disk, chain, 0);
      OverwriteNothing(buf[..], 0);
      assert Bytes(chain)[file.cfo..file.cfo] == [];
      var sector := ClusterToSector(file.dirCluster);
      ReadSector(sector, fat32Buf);
      var fileSz := Le32(fat32Buf[..], SizeAt(file.dirIndex));
      ClipInBounds(file.cfo, len, fileSz);
      var len' := Clip(file.cfo, len, fileSz);
      if len' <= 0 {
        return 0;
      }
      readLen := 0;
      ghost var start, all, buf0 := file.cfo, Bytes(chain), buf[..];
      var cluster, cfo, k := SkipClusters(file.cluster, file.cfo, chain);
      while readLen < len'
        invariant readLen <= len' && file.cfo == start && Stands(chain, k, cluster, cfo, start + readLen)
        invariant buf[..] == Overwrite(buf0, 0, all[start..start + readLen])
      {
        readLen, cluster, cfo, k := ReadChunk(buf, len', readLen, cluster, cfo, chain, k, start, buf0);
      }
      file.cfo := file.cfo + readLen;
    }

    method WriteChunk(buf: array<Byte>, len: nat, done: nat, cluster: nat, cfo: nat, ghost chain: seq<nat>, ghost k: nat,
                      ghost start: nat, ghost all: seq<Byte>, ghost disk0: Disk)
      returns (done': nat, cluster': nat, cfo': nat, ghost k': nat)
      requires BuffersOk() && Chain(vol, disk, chain) && Stands(chain, k, cluster, cfo, start + done)
      requires done < len <= buf.Length && start + len <= |chain| * SECTOR == |all| && buf != fat32Buf && buf != fat32TableBuf
      requires OnlyChain(vol, disk0, disk, chain) && Bytes(chain) == Overwrite(all, start, buf[..done])
      modifies this`disk, fat32Buf, fat32TableBuf
      ensures done < done' <= len && Stands(chain, k', cluster', cfo', start + done')
      ensures Chain(vol, disk, chain) && OnlyChain(vol, disk0, disk, chain)
      ensures Bytes(chain) == Overwrite(all, start, buf[..done'])
    {
      hide Chain, ClusterOk, FileBytes, LinkTo, OnlyChain, Overwrite;
      ChainFacts(vol, disk, chain, k);
      ghost var disk1 := disk;
      var sector := ClusterToSector(cluster);
      ReadSector(sector, fat32Buf);
      var n := vol.secPerCluster * SECTOR - cfo;
      n := if done + n > len then len - done else n;
      CopyBytes(fat32Buf, cfo, buf, done, n);
      WriteSector(sector, fat32Buf);
      ChunkWritten(vol, disk1, chain, k, cfo, buf[done..done + n]);
      OnlyChainAgain(vol, disk0, disk1, disk, chain);
      OverwriteMore(all, start, buf[..done], buf[done..done + n]);
      assert buf[..done] + buf[done..done + n] == buf[..done + n];
      done' := done + n;
      cluster', cfo', k' := Advance(cluster, cfo + n, chain, k);
    }

    /** fat32_write's last store goes to the sector buffer alone. */
    method StoreSize(dirIndex: nat, size: nat)
      requires BuffersOk() && dirIndex < 16
      modifies fat32Buf
      ensures Le32(fat32Buf[..], SizeAt(dirIndex)) == size % 0x1_0000_0000
      ensures forall i | 0 <= i < SECTOR && !(SizeAt(dirIndex) <= i < SizeAt(dirIndex) + 4) :: fat32Buf[i] == old(fat32Buf[i])
    {
      WordOfBytes(size);
      var at := SizeAt(dirIndex);
      fat32Buf[at] := size % 0x100;
      fat32Buf[at + 1] := size / 0x100 % 0x100;
      fat32Buf[at + 2] := size / 0x1_0000 % 0x100;
      fat32Buf[at + 3] := size / 0x100_0000 % 0x100;
    }

    lemma DirectoryKept(disk0: Disk, chain: seq<nat>, dirCluster: nat)
      requires Chain(vol, disk, chain) && OnlyChain(vol, disk0, disk, chain)
      requires dirCluster >= 2 && dirCluster !in chain && OnDisk(disk0, DataSector(vol, dirCluster))
      ensures OnDisk(disk, DataSector(vol, dirCluster)) && disk[DataSector(vol, dirCluster)] == disk0[DataSector(vol, dirCluster)]
    {
      forall k | 0 <= k < |chain| ensures DataSector(vol, dirCluster) != DataSector(vol, chain[k]) {
        assert ClusterOk(vol, disk, chain[k]);
      }
    }

    /** fat32_write: it returns 0, and leaves the size recorded in the directory alone. */
    method Write(file: File, buf: array<Byte>, len: nat, ghost chain: seq<nat>) returns (res: nat)
      requires FileOk(file, chain) && file.cfo + len <= |chain| * SECTOR
      requires len <= buf.Length && buf != fat32Buf && buf != fat32TableBuf
      modifies file`cfo, this`disk, fat32Buf, fat32TableBuf
      ensures res == 0 && file.cfo == old(file.cfo) + len
      ensures FileOk(file, chain) && OnlyChain(vol, old(disk), disk, chain)
      ensures Bytes(chain) == Overwrite(old(Bytes(chain)), old(file.cfo), buf[..len])
      ensures RecordedSize(file) == old(RecordedSize(file))
    {
      hide Chain, ClusterOk, FileBytes, LinkTo, OnlyChain, Le32;
      ChainFacts(vol, disk, chain, 0);
      var sector := ClusterToSector(file.dirCluster);
      ReadSector(sector, fat32Buf);
      var fileSz := Le32(fat32Buf[..], SizeAt(file.dirIndex));
      NothingWritten(vol, disk, chain);
      if len <= 0 {
        return 0;
      }
      var done := 0;
      ghost var start, all, disk0 := file.cfo, Bytes(chain), disk;
      var cluster, cfo, k := SkipClusters(file.cluster, file.cfo, chain);
      while done < len
        invariant done <= len && file.cfo == start && Stands(chain, k, cluster, cfo, start + done)
        invariant Chain(vol, disk, chain) && OnlyChain(vol, disk0, disk, chain)
        invariant Bytes(chain) == Overwrite(all, start, buf[..done])
      {
        done, cluster, cfo, k := WriteChunk(buf, len, done, cluster, cfo, chain, k, start, all, disk0);
      }
      file.cfo := file.cfo + done;
      if file.cfo > fileSz {
        StoreSize(file.dirIndex, file.cfo);
      }
      DirectoryKept(disk0, chain, file.dirCluster);
      return 0;
    }
  }

  /** What is written within the recorded size is read back. */
  method WriteThenRead(fs: Fat32, file: File, data: array<Byte>, out: array<Byte>, chain: seq<nat>) returns (n: nat)
    requires fs.FileOk(file, chain) && data != out && out.Length == data.Length
    requires data != fs.fat32Buf && data != fs.fat32TableBuf && out != fs.fat32Buf && out != fs.fat32TableBuf
    requires file.cfo + data.Length <= fs.RecordedSize(file) <= |chain| * SECTOR < WORD
    modifies file`cfo, fs`disk, fs.fat32Buf, fs.fat32TableBuf, out
    ensures n == data.Length && out[..] == data[..]
  {
    var start := file.cfo;
    var res := fs.Write(file, data, data.Length, chain);
    file.cfo := start;
    n := fs.Read(file, out, data.Length, chain);
    assert data[..data.Length] == data[..];
  }

  /** Appending takes the position past the recorded size, which stays; from there every read is clipped to a
      length that has wrapped. */
  method WritePastEnd(fs: Fat32, file: File, data: array<Byte>, chain: seq<nat>)
    requires fs.FileOk(file, chain) && data != fs.fat32Buf && data != fs.fat32TableBuf
    requires fs.RecordedSize(file) < file.cfo + data.Length <= |chain| * SECTOR < WORD
    modifies file`cfo, fs`disk, fs.fat32Buf, fs.fat32TableBuf
    ensures fs.FileOk(file, chain) && file.cfo > fs.RecordedSize(file)
    ensures forall len: nat | file.cfo + len < WORD ::
      Clip(file.cfo, len, fs.RecordedSize(file)) == WORD - (file.cfo - fs.RecordedSize(file)) > len
  {
    hide Chain, ClusterOk, LinkTo, FileBytes, Clip, Le32, OnlyChain, Overwrite;
    var res := fs.Write(file, data, data.Length, chain);
    forall len: nat | file.cfo + len < WORD
      ensures Clip(file.cfo, len, fs.RecordedSize(file)) == WORD - (file.cfo - fs.RecordedSize(file)) > len
    {
      ClipInBounds(file.cfo, len, fs.RecordedSize(file));
    }
  }
}
