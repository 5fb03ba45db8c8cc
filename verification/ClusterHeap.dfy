/** Where the clusters of a volume lie on the disk, byte by byte, and what the sector-wise reads
    of the exFAT and FAT32 scanners see of them. */
module ClusterHeap {
  import opened Bytes
  import opened ExfatDir

  const LIMIT := 0x1_0000_0000_0000_0000

  // ── Addresses ─────────────────────────────────────────────────────────

  /** Byte of the disk at which cluster `c` begins: cluster 2 is the first one of the heap. */
  function ClusterAt(v: Volume, c: u32): nat
    requires c >= 2
  {
    (v.heapStart as int + (c as int - 2) * v.spc as int) * SECTOR
  }

  lemma Wrap(x: nat, y: nat)
    ensures (x % LIMIT + y) % LIMIT == (x + y) % LIMIT
  {
  }

  lemma NextCluster(h: nat, k: nat, n: nat)
    ensures h + (k + 1) * n == h + k * n + n && k * n >= 0
  {
  }

  lemma LbaOf(v: Volume, c: u32, k: int, x: int)
    requires k == c as int - 2 && x == v.heapStart as int + k * v.spc as int
    ensures Lba(v, c, 0) == x % LIMIT
  {
  }

  /** Cluster 2 begins the heap, and each cluster begins where the one before ends. */
  lemma ClustersTile(v: Volume, c: u32)
    requires 2 <= c < 0xFFFF_FFFF
    ensures Lba(v, 2, 0) == v.heapStart
    ensures Lba(v, c + 1, 0) == (Lba(v, c, 0) + v.spc as int) % LIMIT
  {
    hide Lba;
    var k := c as int - 2;
    var x := v.heapStart as int + k * v.spc as int;
    NextCluster(v.heapStart, k, v.spc);
    LbaOf(v, 2, 0, v.heapStart);
    LbaOf(v, c, k, x);
    LbaOf(v, c + 1, k + 1, x + v.spc as int);
    Wrap(x, v.spc);
  }

  lemma LbaIs(v: Volume, c: u32, si: nat)
    requires c >= 2 && ClusterAt(v, c) / SECTOR + si < LIMIT
    ensures Lba(v, c, si) * SECTOR == ClusterAt(v, c) + si * SECTOR
  {
    assert (c as int - 2) * v.spc as int >= 0;
  }

  /** Below 2^64 different sectors of clusters have different addresses. */
  lemma AddressesDiffer(v: Volume, a: u32, i: nat, b: u32, j: nat)
    requires a >= 2 && b >= 2 && i < v.spc && j < v.spc
    requires ClusterAt(v, a) / SECTOR + i < LIMIT && ClusterAt(v, b) / SECTOR + j < LIMIT
    ensures Lba(v, a, i) == Lba(v, b, j) <==> a == b && i == j
  {
    LbaIs(v, a, i);
    LbaIs(v, b, j);
    Digits(v.spc as int, a as int - 2, i, b as int - 2, j);
  }

  lemma Digits(n: nat, a: nat, i: nat, b: nat, j: nat)
    requires i < n && j < n
    ensures a * n + i == b * n + j <==> a == b && i == j
  {
    if a < b {
      assert (a + 1) * n <= b * n;
    } else if b < a {
      assert (b + 1) * n <= a * n;
    }
  }

  // ── A volume on a disk ────────────────────────────────────────────────

  /** The sectors that can be read are those of the disk `d`. */
  ghost predicate IsDisk(v: Volume, d: seq<byte>) {
    && |d| <= LIMIT * SECTOR
    && (forall k :: k in v.disk <==> (k + 1) * SECTOR <= |d|)
    && (forall k :: k in v.disk ==> v.disk[k] == d[k * SECTOR..(k + 1) * SECTOR])
  }

  /** The allocation table says that `next` follows cluster `c`. */
  predicate Follows(v: Volume, d: seq<byte>, c: u32, next: u32) {
    var at := v.fatStart as int * SECTOR + c as int * 4;
    (at / SECTOR + 1) * SECTOR <= |d| && at + 4 <= |d| && d[at..at + 4] == Le32(next)
  }

  lemma FatPlace(f: nat, c: nat)
    ensures var at := f * SECTOR + c * 4;
            at / SECTOR == f + c * 4 / SECTOR && at == at / SECTOR * SECTOR + c * 4 % SECTOR &&
              c * 4 % SECTOR + 4 <= SECTOR
  {
  }

  lemma FatEntryIs(v: Volume, d: seq<byte>, c: u32, next: u32)
    requires IsDisk(v, d) && Follows(v, d, c, next)
    ensures FatEntry(v, c) == next
  {
    hide FromLe32, Le32;
    var (k, off) := (v.fatStart as int + c as int * 4 / SECTOR, c as int * 4 % SECTOR);
    var at := v.fatStart as int * SECTOR + c as int * 4;
    FatPlace(v.fatStart, c);
    assert (k + 1) * SECTOR <= |d|;
    SectorIs(v, d, k, off, next);
    assert k % LIMIT == k;
    assert FatEntry(v, c) == FromLe32(v.disk[k], off);
  }

  lemma SectorIs(v: Volume, d: seq<byte>, k: nat, off: nat, next: u32)
    requires IsDisk(v, d) && (k + 1) * SECTOR <= |d| && off + 4 <= SECTOR
    requires d[k * SECTOR + off..k * SECTOR + off + 4] == Le32(next)
    ensures k < LIMIT && k in v.disk && FromLe32(v.disk[k], off) == next
  {
    hide FromLe32, Le32;
    var (sec, at) := (v.disk[k], k * SECTOR + off);
    assert sec == d[k * SECTOR..(k + 1) * SECTOR];
    assert sec[off..off + 4] == d[at..at + 4];
    Le32RoundTrip(next, sec, off);
  }

  /** The whole cluster lies on the disk. */
  predicate OnDisk(v: Volume, d: seq<byte>, c: u32) { c >= 2 && ClusterAt(v, c) + v.spc as int * SECTOR <= |d| }

  function ClusterData(v: Volume, d: seq<byte>, c: u32): (s: seq<byte>)
    requires OnDisk(v, d, c)
    ensures |s| == v.spc as int * SECTOR
  {
    d[ClusterAt(v, c)..ClusterAt(v, c) + v.spc as int * SECTOR]
  }

  lemma SliceOfSlice(d: seq<byte>, at: nat, n: nat, i: nat, j: nat)
    requires at + n <= |d| && i <= j <= n
    ensures d[at..at + n][i..j] == d[at + i..at + j]
  {
    var s := d[at..at + n];
    forall k | i <= k < j ensures s[k] == d[at + k] { assert s[k] == d[at..at + n][k]; }
  }

  lemma SectorOfCluster(v: Volume, d: seq<byte>, c: u32, si: nat)
    requires IsDisk(v, d) && OnDisk(v, d, c) && si < v.spc
    ensures Lba(v, c, si) in v.disk
    ensures v.disk[Lba(v, c, si)] == ClusterData(v, d, c)[si * SECTOR..(si + 1) * SECTOR]
  {
    hide Lba, ClusterAt;
    var at := ClusterAt(v, c);
    assert at + v.spc as int * SECTOR <= LIMIT * SECTOR;
    LbaIs(v, c, si);
    var k := Lba(v, c, si);
    SliceOfSlice(d, at, v.spc as int * SECTOR, si * SECTOR, (si + 1) * SECTOR);
    DiskSector(v, d, k, at + si * SECTOR);
  }

  lemma DiskSector(v: Volume, d: seq<byte>, k: nat, at: nat)
    requires IsDisk(v, d) && k * SECTOR == at && at + SECTOR <= |d|
    ensures k in v.disk && v.disk[k] == d[at..at + SECTOR]
  {
  }

  /** Sector of the disk at which a file's data begins; the code computes one for an empty file, too. */
  function FirstSector(v: Volume, start: u32): nat {
    if start >= 2 then ClusterAt(v, start) / SECTOR else Lba(v, start, 0)
  }

  lemma FirstSectorIs(v: Volume, d: seq<byte>, start: u32)
    requires IsDisk(v, d) && v.spc > 0 && (start >= 2 ==> OnDisk(v, d, start))
    ensures FirstSector(v, start) == Lba(v, start, 0)
  {
    hide Lba, ClusterAt;
    if start >= 2 {
      assert ClusterAt(v, start) + v.spc as int * SECTOR <= LIMIT * SECTOR;
      LbaIs(v, start, 0);
    }
  }

  // ── Cluster chains ────────────────────────────────────────────────────

  predicate AllOnDisk(v: Volume, d: seq<byte>, cs: seq<u32>) { forall i :: 0 <= i < |cs| ==> OnDisk(v, d, cs[i]) }

  /** The contents of the clusters `cs`, one after the other. */
  function ChainData(v: Volume, d: seq<byte>, cs: seq<u32>): seq<byte>
    requires AllOnDisk(v, d, cs)
  {
    if cs == [] then [] else ClusterData(v, d, cs[0]) + ChainData(v, d, cs[1..])
  }

  /** The clusters are linked in the allocation table; the entry of the last one is `last`. */
  predicate Linked(v: Volume, d: seq<byte>, cs: seq<u32>, last: u32) {
    && cs != [] && AllOnDisk(v, d, cs) && Follows(v, d, cs[|cs| - 1], last)
    && forall i :: 0 <= i < |cs| - 1 ==> Follows(v, d, cs[i], cs[i + 1])
  }

  lemma LinkedRest(v: Volume, d: seq<byte>, cs: seq<u32>, last: u32)
    requires Linked(v, d, cs, last) && |cs| > 1
    ensures Follows(v, d, cs[0], cs[1]) && Linked(v, d, cs[1..], last) && OnDisk(v, d, cs[0])
  {
    hide Follows, OnDisk;
    var rest := cs[1..];
    forall i | 0 <= i < |rest| - 1 ensures Follows(v, d, rest[i], rest[i + 1]) {
      assert rest[i] == cs[i + 1] && rest[i + 1] == cs[i + 2];
    }
  }

  // ── exFAT ─────────────────────────────────────────────────────────────

  lemma {:induction false} StreamOfCluster(v: Volume, d: seq<byte>, c: u32, si: nat, n: nat)
    requires IsDisk(v, d) && OnDisk(v, d, c) && Ends(v, c, n) && si <= v.spc
    ensures Stream(v, c, si, n) == ClusterData(v, d, c)[si * SECTOR..] + Stream(v, c, v.spc, n)
    decreases v.spc - si
  {
    hide IsDisk, OnDisk, Ends, Lba, FatEntry, ClusterData, Stream;
    var data := ClusterData(v, d, c);
    if si < v.spc {
      SectorOfCluster(v, d, c, si);
      StreamStep(v, c, si, n, []);
      StreamOfCluster(v, d, c, si + 1, n);
      var sec := v.disk[Lba(v, c, si)];
      assert (si + 1) * SECTOR <= |data|;
      assert data[si * SECTOR..] == sec + data[(si + 1) * SECTOR..];
      assert [] + Stream(v, c, si, n) == Stream(v, c, si, n) && [] + sec == sec;
    } else {
      assert data[si * SECTOR..] == [];
    }
  }

  /** What counts as the number of an exFAT cluster; the eight numbers behind are marks that end a chain. */
  predicate ExfatCluster(c: u32) { 2 <= c <= 0xFFFF_FFF7 }

  /** An exFAT directory is the contents of the clusters of its chain. */
  lemma {:induction false} DirIsChain(v: Volume, d: seq<byte>, cs: seq<u32>, last: u32, n: nat)
    requires IsDisk(v, d) && Linked(v, d, cs, last) && !ExfatCluster(last) && |cs| <= n
    requires forall i :: 0 <= i < |cs| ==> ExfatCluster(cs[i])
    ensures Ends(v, cs[0], n) && DirBytes(v, cs[0], n) == ChainData(v, d, cs)
    decreases |cs|
  {
    hide IsDisk, OnDisk, Lba, FatEntry, ClusterData, Stream, Follows;
    var c, data := cs[0], ClusterData(v, d, cs[0]);
    if |cs| == 1 {
      FatEntryIs(v, d, c, last);
      StreamNext(v, c, n);
      assert cs[1..] == [];
    } else {
      LinkedRest(v, d, cs, last);
      FatEntryIs(v, d, c, cs[1]);
      DirIsChain(v, d, cs[1..], last, n - 1);
      StreamNext(v, c, n);
    }
    StreamOfCluster(v, d, c, 0, n);
    assert data[0..] == data;
  }
}
