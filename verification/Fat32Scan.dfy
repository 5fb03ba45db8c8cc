/** The UEFI program's scan of a FAT32 directory tree. */
module Fat32Scan {
  import opened Bytes
  import opened DirWalk
  import Exfat = ExfatDir
  import opened ClusterHeap
  import opened Fat32Names

  type Volume = Exfat.Volume

  const ATTR_DIR := 16

  // ── The entries of a directory ────────────────────────────────────────

  function SectorEntries(buf: seq<byte>, k: nat): (es: seq<Entry>)
    requires |buf| == SECTOR && k <= PER_SECTOR
    decreases PER_SECTOR - k
  {
    if k == PER_SECTOR then [] else [buf[k * ENTRY..(k + 1) * ENTRY]] + SectorEntries(buf, k + 1)
  }

  /** The upper four bits of a FAT entry do not belong to the cluster number. */
  function Next(v: Volume, cluster: u32): u32 { Exfat.FatEntry(v, cluster) % 0x1000_0000 }

  predicate GoesOn(next: u32) { 2 <= next < 0x0FFF_FFF0 }

  /** The chain of `cluster` ends within `n` clusters. */
  predicate Ends(v: Volume, cluster: u32, n: nat)
    decreases n
  {
    n > 0 && (GoesOn(Next(v, cluster)) ==> Ends(v, Next(v, cluster), n - 1))
  }

  /** The entries from sector `si` of `cluster` on, up to the first sector that cannot be read. */
  function Entries(v: Volume, cluster: u32, si: nat, n: nat): seq<Entry>
    requires Ends(v, cluster, n) && si <= v.spc
    decreases n, v.spc - si
  {
    if si < v.spc then
      if Exfat.Lba(v, cluster, si) !in v.disk then []
      else SectorEntries(v.disk[Exfat.Lba(v, cluster, si)], 0) + Entries(v, cluster, si + 1, n)
    else if GoesOn(Next(v, cluster)) then Entries(v, Next(v, cluster), 0, n - 1)
    else []
  }

  function DirRecords(v: Volume, cluster: u32, n: nat): seq<Record>
    requires Ends(v, cluster, n)
  {
    Records(NoName(), Entries(v, cluster, 0, n))
  }

  // ── The tree ──────────────────────────────────────────────────────────

  predicate IsDot(name: seq<byte>) { name == [DOT] || name == [DOT, DOT] }

  predicate IsDir(rec: Record) { rec.attr as int / ATTR_DIR % 2 == 1 }

  /** The directory bit of the attributes. */
  lemma DirMask(rec: Record)
    ensures IsDir(rec) <==> rec.attr as bv8 & 0x10 != 0
  {
  }

  function NodeOf(v: Volume, rec: Record): Node {
    Node(rec.name, IsDir(rec) && !IsDot(rec.name), rec.cluster, Exfat.Lba(v, rec.cluster, 0), rec.size)
  }

  function NodesOf(v: Volume, recs: seq<Record>): seq<Node> {
    if recs == [] then [] else [NodeOf(v, recs[0])] + NodesOf(v, recs[1..])
  }

  /** Cluster chains end within `n` clusters and each subdirectory ranks below its parent;
      cluster 0 stands for a directory without contents. */
  predicate DirTree(v: Volume, n: nat, rank: map<u32, nat>) {
    forall c :: c in rank && c != 0 ==> Ends(v, c, n) && Below(NodesOf(v, DirRecords(v, c, n)), rank, rank[c])
  }

  function DirsOf(v: Volume, n: nat, rank: map<u32, nat>): (dirs: Dirs)
    requires DirTree(v, n, rank)
    ensures Tree(dirs, rank)
  {
    map c | c in rank :: if c == 0 then [] else NodesOf(v, DirRecords(v, c, n))
  }

  // ── The scanner ───────────────────────────────────────────────────────

  /** From state `st` on, the entries `es` lead from `files` to `goal`. */
  ghost predicate Leads(v: Volume, dirs: Dirs, rank: map<u32, nat>, r: nat, prefix: seq<byte>, st: Lfn, es: seq<Entry>,
                        files: seq<FileEntry>, goal: seq<FileEntry>)
    requires Tree(dirs, rank) && |prefix| <= MAX_PATH && st.Valid()
  {
    var nodes := NodesOf(v, Records(st, es));
    Below(nodes, rank, r) && VisitAll(dirs, rank, r, nodes, prefix, files) == goal
  }

  lemma LeadsEnd(v: Volume, dirs: Dirs, rank: map<u32, nat>, r: nat, prefix: seq<byte>, st: Lfn, es: seq<Entry>,
                 files: seq<FileEntry>, goal: seq<FileEntry>)
    requires Tree(dirs, rank) && |prefix| <= MAX_PATH && st.Valid() &&
             Leads(v, dirs, rank, r, prefix, st, es, files, goal)
    requires es == [] || es[0][0] == 0
    ensures files == goal
  {
    hide Tree;
  }

  lemma LeadsSkip(v: Volume, dirs: Dirs, rank: map<u32, nat>, r: nat, prefix: seq<byte>, st: Lfn, e: Entry,
                  rest: seq<Entry>,
                  files: seq<FileEntry>, goal: seq<FileEntry>)
    requires Tree(dirs, rank) && |prefix| <= MAX_PATH && st.Valid()
    requires e[0] != 0 && !Names(e) && Leads(v, dirs, rank, r, prefix, st, [e] + rest, files, goal)
    ensures Leads(v, dirs, rank, r, prefix, Step(st, e), rest, files, goal)
  {
    hide Tree, NodesOf, VisitAll, Below, Step;
    assert ([e] + rest)[1..] == rest;
    assert [] + Records(Step(st, e), rest) == Records(Step(st, e), rest);
  }

  lemma LeadsRecord(v: Volume, dirs: Dirs, rank: map<u32, nat>, r: nat, prefix: seq<byte>, st: Lfn, e: Entry,
                    rest: seq<Entry>,
                    files: seq<FileEntry>, goal: seq<FileEntry>)
    requires Tree(dirs, rank) && |prefix| <= MAX_PATH && st.Valid()
    requires e[0] != 0 && Names(e) && Leads(v, dirs, rank, r, prefix, st, [e] + rest, files, goal)
    ensures var node := NodeOf(v, RecordOf(st, e));
            && Below([node], rank, r)
            && Leads(v, dirs, rank, r, prefix, Step(st, e), rest, Visit(dirs, rank, r, node, prefix, files), goal)
  {
    assert Step(st, e) == st.(len := 0);
    RecordFound(st, e, rest);
    hide Tree, Visit, RecordOf, NodeOf, Names, Records;
    var recs := Records(st, [e] + rest);
    assert recs[1..] == Records(Step(st, e), rest);
    var nodes := NodesOf(v, recs);
    assert nodes[1..] == NodesOf(v, recs[1..]);
    assert Below([nodes[0]], rank, r) && Below(nodes[1..], rank, r);
  }

  lemma SectorStep(buf: seq<byte>, k: nat, rest: seq<Entry>)
    requires |buf| == SECTOR && k <= PER_SECTOR
    ensures SectorEntries(buf, k) + rest ==
            if k == PER_SECTOR then rest else [buf[k * ENTRY..(k + 1) * ENTRY]] + (SectorEntries(buf, k + 1) + rest)
  {
  }

  lemma EntriesStep(v: Volume, cluster: u32, si: nat, n: nat)
    requires Ends(v, cluster, n) && si < v.spc
    ensures var lba := Exfat.Lba(v, cluster, si);
            Entries(v, cluster, si, n) ==
            if lba in v.disk then SectorEntries(v.disk[lba], 0) + Entries(v, cluster, si + 1, n) else []
  {
    hide Next, SectorEntries;
  }

  lemma EntriesNext(v: Volume, cluster: u32, n: nat)
    requires Ends(v, cluster, n)
    ensures var next := Next(v, cluster);
            if GoesOn(next) then
              n > 0 && Ends(v, next, n - 1) && Entries(v, cluster, v.spc, n) == Entries(v, next, 0, n - 1)
            else Entries(v, cluster, v.spc, n) == []
  {
    hide Next, SectorEntries;
  }

  /** The UEFI scanner with its list of files found so far. */
  class Fat32Scanner {
    const v: Volume
    var files: seq<FileEntry>

    constructor (v: Volume)
      ensures this.v == v && files == []
    {
      this.v := v;
      files := [];
    }

    method ScanFat32Dir(root: u32, prefix: seq<byte>, ghost n: nat, ghost rank: map<u32, nat>)
      requires DirTree(v, n, rank) && root in rank && |prefix| <= MAX_PATH
      modifies this`files
      ensures files == Walk(DirsOf(v, n, rank), rank, root, prefix, old(files))
      decreases rank[root], 3
    {
      hide Tree, Entries, Records, Next, NodesOf, Leads;
      if root == 0 || |files| >= SLOTS {
        NothingAtZero(v, n, rank, root, prefix, files);
        return;
      }
      var names := new LongNameScanner();
      var cluster: u32 := root;
      ghost var left, goal := n, Walk(DirsOf(v, n, rank), rank, root, prefix, files);
      WalkLeads(v, n, rank, root, prefix, files);
      while true
        invariant fresh(names) && fresh(names.lfnBuf) && names.Valid() && Ends(v, cluster, left)
        invariant Leads(v, DirsOf(v, n, rank), rank, rank[root], prefix, names.State(), Entries(v, cluster, 0, left),
                        files, goal)
        decreases left
      {
        var stop := ScanCluster(names, cluster, prefix, rank[root], n, rank, left, goal);
        if stop { return; }
        EntriesNext(v, cluster, left);
        var next := Exfat.FatEntry(v, cluster) % 0x1000_0000;
        NextIs(v, cluster);
        if next < 2 || next >= 0x0FFF_FFF0 {
          LeadsEnd(v, DirsOf(v, n, rank), rank, rank[root], prefix, names.State(), [], files, goal);
          return;
        }
        cluster, left := next, left - 1;
      }
    }

    /** The sectors of one cluster. */
    method ScanCluster(names: LongNameScanner, cluster: u32, prefix: seq<byte>, ghost r: nat, ghost n: nat,
                       ghost rank: map<u32, nat>,
                       ghost left: nat, ghost goal: seq<FileEntry>)
      returns (stop: bool)
      requires DirTree(v, n, rank) && |prefix| <= MAX_PATH && Ends(v, cluster, left) && names.Valid()
      requires Leads(v, DirsOf(v, n, rank), rank, r, prefix, names.State(), Entries(v, cluster, 0, left), files, goal)
      modifies this`files, names, names.lfnBuf
      ensures names.Valid()
      ensures if stop then files == goal
              else Leads(v, DirsOf(v, n, rank), rank, r, prefix, names.State(), Entries(v, cluster, v.spc, left), files,
                         goal)
      decreases r, 2
    {
      hide Tree, Entries, Records, Next, NodesOf, Leads, DirTree;
      for si := 0 to v.spc
        invariant names.Valid()
        invariant Leads(v, DirsOf(v, n, rank), rank, r, prefix, names.State(), Entries(v, cluster, si, left), files,
                        goal)
      {
        var lba := Exfat.Lba(v, cluster, si);
        EntriesStep(v, cluster, si, left);
        if lba !in v.disk {
          LeadsEnd(v, DirsOf(v, n, rank), rank, r, prefix, names.State(), [], files, goal);
          return true;
        }
        stop := ScanSector(names, v.disk[lba], prefix, r, n, rank, Entries(v, cluster, si + 1, left), goal);
        if stop { return; }
      }
      stop := false;
    }

    /** The entries of one sector. */
    method ScanSector(names: LongNameScanner, buf: seq<byte>, prefix: seq<byte>, ghost r: nat, ghost n: nat,
                      ghost rank: map<u32, nat>,
                      ghost rest: seq<Entry>, ghost goal: seq<FileEntry>)
      returns (stop: bool)
      requires DirTree(v, n, rank) && |prefix| <= MAX_PATH && |buf| == SECTOR && names.Valid()
      requires Leads(v, DirsOf(v, n, rank), rank, r, prefix, names.State(), SectorEntries(buf, 0) + rest, files, goal)
      modifies this`files, names, names.lfnBuf
      ensures names.Valid()
      ensures if stop then files == goal
              else Leads(v, DirsOf(v, n, rank), rank, r, prefix, names.State(), rest, files, goal)
      decreases r, 1
    {
      hide Tree, Records, NodesOf, NodeOf, RecordOf, Names, Step, Leads, DirTree, SectorEntries;
      ghost var dirs := DirsOf(v, n, rank);
      for k := 0 to PER_SECTOR
        invariant names.Valid()
        invariant Leads(v, dirs, rank, r, prefix, names.State(), SectorEntries(buf, k) + rest, files, goal)
      {
        var e: Entry := buf[k * ENTRY..(k + 1) * ENTRY];
        ghost var st, more := names.State(), SectorEntries(buf, k + 1) + rest;
        SectorStep(buf, k, rest);
        if e[0] == 0 {
          LeadsEnd(v, dirs, rank, r, prefix, st, [e] + more, files, goal);
          return true;
        }
        var found := names.ScanEntry(e);
        if found.Some? {
          LeadsRecord(v, dirs, rank, r, prefix, st, e, more, files, goal);
          VisitRecord(found.value, prefix, r, n, rank);
        } else {
          LeadsSkip(v, dirs, rank, r, prefix, st, e, more, files, goal);
        }
      }
      SectorStep(buf, PER_SECTOR, rest);
      stop := false;
    }

    /** A record is entered, listed or passed over. */
    method VisitRecord(rec: Record, prefix: seq<byte>, ghost r: nat, ghost n: nat, ghost rank: map<u32, nat>)
      requires DirTree(v, n, rank) && Below([NodeOf(v, rec)], rank, r) && |prefix| <= MAX_PATH
      modifies this`files
      ensures files == Visit(DirsOf(v, n, rank), rank, r, NodeOf(v, rec), prefix, old(files))
      decreases r, 0
    {
      hide DirTree, DirsOf, Bootable, FullPath, Classify, Walk;
      assert [NodeOf(v, rec)][0] == NodeOf(v, rec);
      if IsDir(rec) && !IsDot(rec.name) && |files| < SLOTS && Depth(prefix) < MAX_DEPTH {
        var sub := BuildFullPath(prefix, rec.name);
        ScanFat32Dir(rec.cluster, sub, n, rank);
      } else if Bootable(rec.name) && |files| < SLOTS {
        var path := BuildFullPath(prefix, rec.name);
        files := files + [FileEntry(path, Exfat.Lba(v, rec.cluster, 0), rec.size, Classify(rec.name))];
      }
    }
  }

  lemma NextIs(v: Volume, cluster: u32)
    ensures Next(v, cluster) == Exfat.FatEntry(v, cluster) % 0x1000_0000
  {
  }

  lemma NothingAtZero(v: Volume, n: nat, rank: map<u32, nat>, root: u32, prefix: seq<byte>, files: seq<FileEntry>)
    requires DirTree(v, n, rank) && root in rank && |prefix| <= MAX_PATH && (root == 0 || |files| >= SLOTS)
    ensures Walk(DirsOf(v, n, rank), rank, root, prefix, files) == files
  {
    hide Visit, NodesOf;
  }

  lemma WalkLeads(v: Volume, n: nat, rank: map<u32, nat>, root: u32, prefix: seq<byte>, files: seq<FileEntry>)
    requires DirTree(v, n, rank) && root in rank && root != 0 && |prefix| <= MAX_PATH && |files| < SLOTS
    ensures Ends(v, root, n)
    ensures Leads(v, DirsOf(v, n, rank), rank, rank[root], prefix, NoName(), Entries(v, root, 0, n), files,
                  Walk(DirsOf(v, n, rank), rank, root, prefix, files))
  {
    hide VisitAll, NodesOf, Records, Entries;
  }

  // ── A directory as it is written ──────────────────────────────────────

  /** The entries of a directory are these items, followed by nothing or an end mark. */
  predicate Holds(es: seq<Entry>, items: seq<Item>) {
    && (forall i :: 0 <= i < |items| ==> WellWritten(items[i])) && Settled(items, false)
    && Written32(items) <= es && (|Written32(items)| < |es| ==> es[|Written32(items)|][0] == 0)
  }

  lemma HeldRecords(es: seq<Entry>, items: seq<Item>)
    requires Holds(es, items)
    ensures Records(NoName(), es) == Files(items)
  {
    hide Step, RecordOf, Settled, WellWritten, EntriesOf, FilesOf;
    var w := Written32(items);
    NoEndMark(items);
    RecordsSplit(NoName(), w, es[|w|..]);
    assert es == w + es[|w|..];
    DirectoryFound(NoName(), items);
    assert Records(After(NoName(), w), es[|w|..]) == [];
  }

  lemma {:induction false} NoEndMark(items: seq<Item>)
    requires forall i :: 0 <= i < |items| ==> WellWritten(items[i])
    ensures forall k :: 0 <= k < |Written32(items)| ==> Written32(items)[k][0] != 0
  {
    hide WellWritten, EntriesOf, Records;
    if items != [] {
      ItemRecords(NoName(), items[0]);
      NoEndMark(items[1..]);
    }
  }

  // ── A volume as it is written ─────────────────────────────────────────

  /** A directory's bytes as entries. */
  function EntriesIn(data: seq<byte>): seq<Entry> {
    if |data| < ENTRY then [] else [data[..ENTRY]] + EntriesIn(data[ENTRY..])
  }

  lemma {:induction false} EntriesInJoin(a: seq<byte>, b: seq<byte>)
    requires |a| % ENTRY == 0
    ensures EntriesIn(a + b) == EntriesIn(a) + EntriesIn(b)
    decreases |a|
  {
    if a == [] {
      assert a + b == b;
    } else {
      assert (a + b)[..ENTRY] == a[..ENTRY] && (a + b)[ENTRY..] == a[ENTRY..] + b;
      EntriesInJoin(a[ENTRY..], b);
    }
  }

  lemma {:induction false} SectorIsEntries(buf: seq<byte>, k: nat)
    requires |buf| == SECTOR && k <= PER_SECTOR
    ensures SectorEntries(buf, k) == EntriesIn(buf[k * ENTRY..])
    decreases PER_SECTOR - k
  {
    if k < PER_SECTOR {
      SectorIsEntries(buf, k + 1);
      var t := buf[k * ENTRY..];
      assert t[..ENTRY] == buf[k * ENTRY..(k + 1) * ENTRY] && t[ENTRY..] == buf[(k + 1) * ENTRY..];
    }
  }

  lemma {:induction false} EntriesOfCluster(v: Volume, d: seq<byte>, c: u32, si: nat, n: nat)
    requires IsDisk(v, d) && OnDisk(v, d, c) && Ends(v, c, n) && si <= v.spc
    ensures Entries(v, c, si, n) == EntriesIn(ClusterData(v, d, c)[si * SECTOR..]) + Entries(v, c, v.spc, n)
    decreases v.spc - si
  {
    hide IsDisk, OnDisk, Ends, Exfat.Lba, ClusterData, Entries, SectorEntries, EntriesIn;
    var data := ClusterData(v, d, c);
    if si < v.spc {
      SectorOfCluster(v, d, c, si);
      EntriesStep(v, c, si, n);
      EntriesOfCluster(v, d, c, si + 1, n);
      var sec := v.disk[Exfat.Lba(v, c, si)];
      SectorIsEntries(sec, 0);
      assert sec[0..] == sec && (si + 1) * SECTOR <= |data|;
      assert data[si * SECTOR..] == sec + data[(si + 1) * SECTOR..];
      EntriesInJoin(sec, data[(si + 1) * SECTOR..]);
    } else {
      assert data[si * SECTOR..] == [];
      NoEntries();
    }
  }

  lemma NoEntries()
    ensures EntriesIn([]) == []
  {
  }

  /** The clusters of a directory and their entries in the allocation table, whose upper four bits
      do not count. */
  datatype Chain = Chain(clusters: seq<u32>, links: seq<u32>)

  /** What counts as the number of a FAT32 cluster; the sixteen numbers behind are marks that end a chain. */
  predicate DataCluster(c: u32) { 2 <= c <= 0x0FFF_FFEF }

  predicate GoodChain(v: Volume, d: seq<byte>, ch: Chain) {
    && ch.clusters != [] && |ch.links| == |ch.clusters| && AllOnDisk(v, d, ch.clusters)
    && !DataCluster(ch.links[|ch.links| - 1] % 0x1000_0000)
    && (forall i :: 0 <= i < |ch.clusters| ==> Follows(v, d, ch.clusters[i], ch.links[i]))
    && (forall i :: 0 <= i < |ch.clusters| - 1 ==> ch.links[i] % 0x1000_0000 == ch.clusters[i + 1])
    && forall i :: 0 <= i < |ch.clusters| ==> DataCluster(ch.clusters[i])
  }

  function Rest(ch: Chain): Chain
    requires |ch.clusters| > 1 && |ch.links| > 1
  {
    Chain(ch.clusters[1..], ch.links[1..])
  }

  lemma GoodRest(v: Volume, d: seq<byte>, ch: Chain)
    requires GoodChain(v, d, ch) && |ch.clusters| > 1
    ensures GoodChain(v, d, Rest(ch)) && OnDisk(v, d, ch.clusters[0])
  {
    hide Follows, OnDisk, DataCluster;
    var r := Rest(ch);
    forall i | 0 <= i < |r.clusters| ensures Follows(v, d, r.clusters[i], r.links[i]) {
      assert r.clusters[i] == ch.clusters[i + 1] && r.links[i] == ch.links[i + 1];
    }
    forall i | 0 <= i < |r.clusters| - 1 ensures r.links[i] % 0x1000_0000 == r.clusters[i + 1] {
      assert r.links[i] == ch.links[i + 1] && r.clusters[i + 1] == ch.clusters[i + 2];
    }
  }

  /** A FAT32 directory is the contents of the clusters of its chain. */
  lemma {:induction false} DirIsEntries(v: Volume, d: seq<byte>, ch: Chain, n: nat)
    requires IsDisk(v, d) && GoodChain(v, d, ch) && |ch.clusters| <= n
    ensures Ends(v, ch.clusters[0], n)
    ensures Entries(v, ch.clusters[0], 0, n) == EntriesIn(ChainData(v, d, ch.clusters))
    decreases |ch.clusters|
  {
    hide IsDisk, OnDisk, Exfat.Lba, Exfat.FatEntry, ClusterData, Entries, EntriesIn, Follows;
    var (c, data) := (ch.clusters[0], ClusterData(v, d, ch.clusters[0]));
    FatEntryIs(v, d, c, ch.links[0]);
    NextIs(v, c);
    if |ch.clusters| == 1 {
      EntriesNext(v, c, n);
      assert ch.clusters[1..] == [];
      NoEntries();
    } else {
      GoodRest(v, d, ch);
      DirIsEntries(v, d, Rest(ch), n - 1);
      EntriesNext(v, c, n);
    }
    EntriesOfCluster(v, d, c, 0, n);
    assert data[0..] == data;
    WholeEntries(v.spc);
    EntriesInJoin(data, ChainData(v, d, ch.clusters[1..]));
  }

  lemma WholeEntries(spc: nat)
    ensures spc * SECTOR % ENTRY == 0
  {
    assert spc * SECTOR == spc * 16 * ENTRY;
  }

  function NodeFor(v: Volume, rec: Record): Node {
    Node(rec.name, IsDir(rec) && rec.name != [46] && rec.name != [46, 46], rec.cluster,
         FirstSector(v, rec.cluster), rec.size)
  }

  function NodesFor(v: Volume, recs: seq<Record>): seq<Node> {
    if recs == [] then [] else [NodeFor(v, recs[0])] + NodesFor(v, recs[1..])
  }

  predicate StartsOnDisk(v: Volume, d: seq<byte>, recs: seq<Record>) {
    forall i :: 0 <= i < |recs| && recs[i].cluster >= 2 ==> OnDisk(v, d, recs[i].cluster)
  }

  predicate HoldsDir(v: Volume, d: seq<byte>, c: u32, ch: Chain, items: seq<Item>, n: nat) {
    && GoodChain(v, d, ch) && ch.clusters[0] == c && |ch.clusters| <= n
    && Holds(EntriesIn(ChainData(v, d, ch.clusters)), items) && StartsOnDisk(v, d, Files(items))
  }

  /** The disk `d` holds the volume: for each directory a linked chain of clusters with its items.
      Cluster 0 stands for a directory without contents. */
  ghost predicate HoldsVolume(v: Volume, d: seq<byte>, n: nat, rank: map<u32, nat>, chains: map<u32, Chain>,
                              items: map<u32, seq<Item>>) {
    && IsDisk(v, d) && rank.Keys == chains.Keys == items.Keys && v.spc > 0
    && forall c :: c in rank && c != 0 ==>
      HoldsDir(v, d, c, chains[c], items[c], n) && Below(NodesFor(v, Files(items[c])), rank, rank[c])
  }

  /** The tree as it was meant: the files and directories of the items under their own names. */
  function TreeOf(v: Volume, rank: map<u32, nat>, items: map<u32, seq<Item>>): Dirs
    requires rank.Keys == items.Keys
  {
    map c | c in rank :: if c == 0 then [] else NodesFor(v, Files(items[c]))
  }

  lemma {:induction false} NodesAre(v: Volume, d: seq<byte>, recs: seq<Record>)
    requires IsDisk(v, d) && StartsOnDisk(v, d, recs) && v.spc > 0
    ensures NodesOf(v, recs) == NodesFor(v, recs)
  {
    hide IsDisk, OnDisk, Exfat.Lba, FirstSector, IsDir;
    if recs != [] {
      FirstSectorIs(v, d, recs[0].cluster);
      NodesAre(v, d, recs[1..]);
    }
  }

  lemma HeldDir(v: Volume, d: seq<byte>, c: u32, ch: Chain, items: seq<Item>, n: nat)
    requires IsDisk(v, d) && HoldsDir(v, d, c, ch, items, n) && v.spc > 0
    ensures Ends(v, c, n) && NodesOf(v, DirRecords(v, c, n)) == NodesFor(v, Files(items))
  {
    hide IsDisk, GoodChain, Holds, StartsOnDisk, Entries, EntriesIn, ChainData, Records, Files, NodesOf, NodesFor, Ends;
    DirIsEntries(v, d, ch, n);
    HeldRecords(Entries(v, c, 0, n), items);
    NodesAre(v, d, Files(items));
  }

  lemma HeldTree(v: Volume, d: seq<byte>, n: nat, rank: map<u32, nat>, chains: map<u32, Chain>,
                 items: map<u32, seq<Item>>)
    requires HoldsVolume(v, d, n, rank, chains, items)
    ensures DirTree(v, n, rank) && DirsOf(v, n, rank) == TreeOf(v, rank, items)
  {
    hide HoldsDir, Files, DirRecords, NodesOf, NodesFor, IsDisk, Ends;
    forall c | c in rank && c != 0
      ensures Ends(v, c, n) && NodesOf(v, DirRecords(v, c, n)) == NodesFor(v, Files(items[c]))
    {
      HeldDir(v, d, c, chains[c], items[c], n);
    }
  }

  /** Scanning a FAT32 volume lists the first 64 bootable files of the tree written on the disk, long
      names and short ones, under their full paths and with the sectors where their data begin,
      whatever lies between the records. */
  lemma WrittenTreeIsListed(v: Volume, d: seq<byte>, n: nat, rank: map<u32, nat>, chains: map<u32, Chain>,
                            items: map<u32, seq<Item>>, root: u32, prefix: seq<byte>, files: seq<FileEntry>)
    requires HoldsVolume(v, d, n, rank, chains, items) && root in rank && |prefix| <= MAX_PATH && |files| <= SLOTS
    ensures DirTree(v, n, rank) && Tree(TreeOf(v, rank, items), rank)
    ensures Walk(DirsOf(v, n, rank), rank, root, prefix, files) ==
            First(files + Listing(TreeOf(v, rank, items), rank, root, prefix))
  {
    HeldTree(v, d, n, rank, chains, items);
    hide HoldsDir, Files, NodesFor, DirsOf, DirTree, Walk, Listing, First;
    WalkIsFirst(DirsOf(v, n, rank), rank, root, prefix, files);
  }
}
