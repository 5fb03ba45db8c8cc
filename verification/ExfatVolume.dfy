/** An exFAT volume as it is written to a disk, and what the UEFI scan lists of it. */
module ExfatVolume {
  import opened Bytes
  import opened DirWalk
  import opened ExfatDir
  import opened ExfatScan
  import opened ExfatAgree
  import opened ClusterHeap
  import Overlay

  // ── A file set as it is written ───────────────────────────────────────

  /** What a file set says. */
  datatype Meta = Meta(name: seq<byte>, isDir: bool, start: u32, size: u64)

  predicate GoodName(name: seq<byte>) { 1 <= |name| <= 255 && forall i :: 0 <= i < |name| ==> 0 < name[i] < 0x80 }

  /** Byte of the set that holds the low byte of character `j` of the name: fifteen characters of
      two bytes follow the first two bytes of each name entry. */
  function CharPlace(j: nat): nat { (2 + j / 15) * 32 + 2 + j % 15 * 2 }

  /** Sections 7.4, 7.6 and 7.7 of the exFAT specification, by byte position: a file entry with
      its attributes, a stream entry with name length, first cluster and data length, and name
      entries. Checksums, times and the valid data length do not matter here. */
  predicate SetBytes(fs: FileSet, m: Meta) {
    && GoodName(m.name) && fs[0] == 0x85 && fs[1] <= 18 && |fs| >= CharPlace(|m.name| - 1) + 2
    && (fs[4] as int / 16 % 2 == 1 <==> m.isDir)
    && fs[32] == 0xC0 && fs[35] as int == |m.name| && fs[52..56] == Le32(m.start) && fs[56..64] == Le64(m.size)
    && (forall k :: 2 <= k < 2 + (|m.name| + 14) / 15 && k * 32 < |fs| ==> fs[k * 32] == 0xC1)
    && forall j :: 0 <= j < |m.name| ==> fs[CharPlace(j)] == m.name[j] && fs[CharPlace(j) + 1] == 0
  }

  lemma FieldsReadBack(fs: FileSet, m: Meta)
    requires SetBytes(fs, m)
    ensures Start(fs) == m.start && Size(fs) == m.size && (IsDir(fs) <==> m.isDir) && NameLength(fs) == |m.name|
    ensures FileSetStarts(fs) && HasStream(fs)
  {
    hide CharPlace, Le32, Le64, FromLe32, FromLe64;
    Le32RoundTrip(m.start, fs, 52);
    Le64RoundTrip(m.size, fs, 56);
    Attribute(fs[4], fs[5]);
  }

  lemma Attribute(lo: byte, hi: byte)
    ensures (lo as int + hi as int * 0x100) / 16 % 2 == lo as int / 16 % 2
  {
    assert (lo as int + hi as int * 0x100) / 16 == lo as int / 16 + 16 * hi as int;
  }

  /** Name entry `k` holds characters `15 * k` to `15 * k + 14`. */
  lemma CharOfEntry(fs: FileSet, m: Meta, k: nat, j: nat)
    requires SetBytes(fs, m) && j < 15 && 15 * k + j < |m.name|
    ensures (k + 3) * 32 <= |fs| && NameEntry(fs, k)[0] == 0xC1 &&
            CodePoint(NameEntry(fs, k), j) == m.name[15 * k + j] as int
  {
    var i := 15 * k + j;
    assert i / 15 == k && i % 15 == j;
    assert CharPlace(i) == (k + 2) * 32 + 2 + j * 2;
    EntriesWhole(fs, m, k);
    var e := NameEntry(fs, k);
    assert e[2 + j * 2] == fs[CharPlace(i)] && e[3 + j * 2] == fs[CharPlace(i) + 1] && e[0] == fs[(k + 2) * 32];
  }

  lemma EntriesWhole(fs: FileSet, m: Meta, k: nat)
    requires SetBytes(fs, m) && 15 * k < |m.name|
    ensures (k + 3) * 32 <= |fs|
  {
    var last := |m.name| - 1;
    assert last / 15 >= k;
    assert |fs| >= (2 + last / 15) * 32 + 2;
    assert |fs| == (1 + fs[1] as int) * 32;
  }

  lemma {:induction false} CharsReadBack(e: seq<byte>, j: nat, part: seq<byte>)
    requires |e| == ENTRY && j <= |part| <= 15
    requires forall i :: 0 <= i < |part| ==> CodePoint(e, i) == part[i] as int && 0 < part[i] < 0x80
    ensures EfiChars(e, j, |part|) == part[j..]
    decreases |part| - j
  {
    hide CodePoint;
    if j < |part| {
      assert CodePoint(e, j) == part[j] as int;
      CharsReadBack(e, j + 1, part);
    }
  }

  lemma EntryReadBack(fs: FileSet, m: Meta, k: nat, count: nat)
    requires SetBytes(fs, m) && GoodName(m.name) && count <= 15 && 15 * k + count <= |m.name| && 15 * k < |m.name|
    ensures (k + 3) * 32 <= |fs| && EfiChars(NameEntry(fs, k), 0, count) == m.name[15 * k..15 * k + count]
  {
    EntriesWhole(fs, m, k);
    hide SetBytes, NameEntry, CodePoint, EfiChars;
    var (e, part) := (NameEntry(fs, k), m.name[15 * k..15 * k + count]);
    forall i | 0 <= i < count ensures CodePoint(e, i) == part[i] as int && 0 < part[i] < 0x80 {
      CharOfEntry(fs, m, k, i);
    }
    CharsReadBack(e, 0, part);
  }

  lemma NameGoesOn(fs: FileSet, m: Meta, k: nat, len: nat)
    requires SetBytes(fs, m) && len == 15 * k < |m.name|
    ensures MoreName(fs, k, len) && ToCopy(fs, len) == Least(|m.name| - len, 15)
  {
    FieldsReadBack(fs, m);
    CharOfEntry(fs, m, k, 0);
    hide NameEntry;
  }

  lemma NameStops(fs: FileSet, m: Meta, k: nat)
    requires SetBytes(fs, m)
    ensures !MoreName(fs, k, |m.name|)
  {
    FieldsReadBack(fs, m);
  }

  lemma {:induction false} NameFromReadBack(fs: FileSet, m: Meta, k: nat, done: seq<byte>)
    requires SetBytes(fs, m) && GoodName(m.name) && done == m.name[..Least(15 * k, |m.name|)]
    ensures EfiNameFrom(fs, k, done) == m.name
    decreases |m.name| - |done|
  {
    hide SetBytes, NameEntry, EfiChars, MoreName, ToCopy;
    if 15 * k < |m.name| {
      var count := Least(|m.name| - 15 * k, 15);
      NameGoesOn(fs, m, k, |done|);
      EntryReadBack(fs, m, k, count);
      var next := done + EfiChars(NameEntry(fs, k), 0, count);
      assert next == m.name[..15 * k + count];
      NameFromReadBack(fs, m, k + 1, next);
    } else {
      NameStops(fs, m, k);
      assert done == m.name;
    }
  }

  /** A written set is read back by both programs: its name, kind, first cluster and length. */
  lemma SetReadBack(fs: FileSet, m: Meta)
    requires SetBytes(fs, m)
    ensures EfiName(fs) == m.name && BiosName(fs) == m.name
    ensures Start(fs) == m.start && Size(fs) == m.size && (IsDir(fs) <==> m.isDir)
  {
    FieldsReadBack(fs, m);
    NameFromReadBack(fs, m, 0, []);
    assert NoZero(m.name);
    NamesAgree(fs);
  }

  // ── A directory as it is written ──────────────────────────────────────

  /** A file set, or an entry that starts none: the label, a bitmap, or a deleted one. */
  datatype Item = File(fileSet: FileSet, meta: Meta) | Other(entry: seq<byte>)

  predicate WellWritten(it: Item) {
    match it
    case File(fs, meta) => SetBytes(fs, meta)
    case Other(e) => |e| == ENTRY && e[0] != 0 && e[0] != 0x85
  }

  predicate AllWritten(items: seq<Item>) { forall i :: 0 <= i < |items| ==> WellWritten(items[i]) }

  function BytesOf(it: Item): seq<byte> { if it.File? then it.fileSet else it.entry }

  function Written(items: seq<Item>): seq<byte> {
    if items == [] then [] else BytesOf(items[0]) + Written(items[1..])
  }

  function SetsOf(items: seq<Item>): seq<FileSet> {
    if items == [] then [] else (if items[0].File? then [items[0].fileSet] else []) + SetsOf(items[1..])
  }

  function MetasOf(items: seq<Item>): seq<Meta> {
    if items == [] then [] else (if items[0].File? then [items[0].meta] else []) + MetasOf(items[1..])
  }

  /** What follows the written entries: nothing, or an end mark. */
  predicate Ended(tail: seq<byte>) { tail == [] || tail[0] == 0 }

  /** Reading a written directory as one stream gives its file sets, each with at most 18 secondary entries. */
  lemma {:induction false} DirReadBack(items: seq<Item>, tail: seq<byte>)
    requires AllWritten(items) && Ended(tail)
    ensures Sets(Written(items) + tail) == SetsOf(items) && AtMost(Written(items) + tail, 19)
    decreases |items|
  {
    hide SetBytes;
    if items == [] {
      assert Written(items) + tail == tail;
    } else {
      var it, b, rest := items[0], BytesOf(items[0]), Written(items[1..]) + tail;
      var t := Written(items) + tail;
      assert t == b + rest;
      DirReadBack(items[1..], tail);
      hide Sets, AtMost, FileSetStarts, HasStream;
      if it.File? {
        FieldsReadBack(it.fileSet, it.meta);
        FewSecondaries(it.fileSet, it.meta);
        FirstSet(it.fileSet, rest);
      } else {
        FirstOther(b, rest);
        assert [] + SetsOf(items[1..]) == SetsOf(items[1..]);
      }
    }
  }

  lemma FirstOther(e: seq<byte>, rest: seq<byte>)
    requires |e| == ENTRY && e[0] != 0 && e[0] != 0x85
    ensures Sets(e + rest) == Sets(rest) && (AtMost(e + rest, 19) <==> AtMost(rest, 19))
  {
    var t := e + rest;
    assert t[0] == e[0] && t[ENTRY..] == rest;
  }

  lemma FewSecondaries(fs: FileSet, m: Meta)
    requires SetBytes(fs, m)
    ensures fs[1] <= 18
  {
  }

  lemma FirstSet(fs: FileSet, rest: seq<byte>)
    requires FileSetStarts(fs) && HasStream(fs) && fs[1] <= 19
    ensures var t := fs + rest;
            && Sets(t) == [fs] + Sets(rest) && (AtMost(rest, 19) ==> AtMost(t, 19))
  {
    var t := fs + rest;
    assert t[0] == fs[0] && t[1] == fs[1] && t[ENTRY] == fs[ENTRY];
    assert SetEntries(t) * ENTRY == |fs| && t[..|fs|] == fs && t[|fs|..] == rest;
  }

  // ── A volume as it is written ─────────────────────────────────────────

  function NodeFor(v: Volume, m: Meta): Node {
    Node(m.name, m.isDir && m.start >= 2, m.start, FirstSector(v, m.start), m.size)
  }

  function NodesFor(v: Volume, ms: seq<Meta>): seq<Node> {
    if ms == [] then [] else [NodeFor(v, ms[0])] + NodesFor(v, ms[1..])
  }

  /** The clusters of a directory and the mark that ends their chain. */
  datatype Chain = Chain(clusters: seq<u32>, mark: u32)

  predicate GoodChain(v: Volume, d: seq<byte>, c: u32, ch: Chain, n: nat) {
    && ch.clusters != [] && ch.clusters[0] == c && |ch.clusters| <= n
    && (forall i :: 0 <= i < |ch.clusters| ==> ExfatCluster(ch.clusters[i]))
    && !ExfatCluster(ch.mark) && Linked(v, d, ch.clusters, ch.mark)
  }

  predicate Holds(data: seq<byte>, items: seq<Item>) {
    AllWritten(items) && Written(items) <= data && Ended(data[|Written(items)|..])
  }

  predicate StartsOnDisk(v: Volume, d: seq<byte>, ms: seq<Meta>) {
    forall i :: 0 <= i < |ms| && ms[i].start >= 2 ==> OnDisk(v, d, ms[i].start)
  }

  predicate HoldsDir(v: Volume, d: seq<byte>, c: u32, ch: Chain, items: seq<Item>, n: nat) {
    && GoodChain(v, d, c, ch, n) && Holds(ChainData(v, d, ch.clusters), items) && StartsOnDisk(v, d, MetasOf(items))
  }

  /** The disk `d` holds the volume: for each directory a linked chain of clusters with its items. */
  ghost predicate HoldsVolume(v: Volume, d: seq<byte>, n: nat, rank: map<u32, nat>, chains: map<u32, Chain>,
                              items: map<u32, seq<Item>>) {
    && IsDisk(v, d) && rank.Keys == chains.Keys == items.Keys && v.spc > 0
    && forall c :: c in rank ==>
      HoldsDir(v, d, c, chains[c], items[c], n) && Below(NodesFor(v, MetasOf(items[c])), rank, rank[c])
  }

  function TreeOf(v: Volume, rank: map<u32, nat>, items: map<u32, seq<Item>>): Dirs
    requires rank.Keys == items.Keys
  {
    map c | c in rank :: NodesFor(v, MetasOf(items[c]))
  }

  lemma NodeIs(v: Volume, d: seq<byte>, fs: FileSet, m: Meta)
    requires IsDisk(v, d) && SetBytes(fs, m) && v.spc > 0 && (m.start >= 2 ==> OnDisk(v, d, m.start))
    ensures NodeOf(v, fs) == NodeFor(v, m)
  {
    hide SetBytes, EfiName, BiosName, Lba, FirstSector, IsDir, Start, Size, IsDisk, OnDisk;
    SetReadBack(fs, m);
    FirstSectorIs(v, d, m.start);
  }

  lemma {:induction false} NodesAre(v: Volume, d: seq<byte>, items: seq<Item>)
    requires IsDisk(v, d) && AllWritten(items) && StartsOnDisk(v, d, MetasOf(items)) && v.spc > 0
    ensures NodesOf(v, SetsOf(items)) == NodesFor(v, MetasOf(items))
  {
    hide IsDisk, SetBytes, NodeOf, NodeFor, OnDisk;
    if items != [] {
      var rest := items[1..];
      if items[0].File? {
        var (m, ms) := (items[0].meta, MetasOf(items));
        assert ms == [m] + MetasOf(rest) && ms[1..] == MetasOf(rest);
        assert SetsOf(items) == [items[0].fileSet] + SetsOf(rest) && SetsOf(items)[1..] == SetsOf(rest);
        forall i | 0 <= i < |MetasOf(rest)| && MetasOf(rest)[i].start >= 2
          ensures OnDisk(v, d, MetasOf(rest)[i].start)
        {
          assert ms[i + 1] == MetasOf(rest)[i];
        }
        assert ms[0] == m && (m.start >= 2 ==> OnDisk(v, d, ms[0].start));
        NodeIs(v, d, items[0].fileSet, m);
      } else {
        assert [] + SetsOf(rest) == SetsOf(rest) && [] + MetasOf(rest) == MetasOf(rest);
      }
      NodesAre(v, d, rest);
    }
  }

  lemma HeldDir(v: Volume, d: seq<byte>, c: u32, ch: Chain, items: seq<Item>, n: nat)
    requires IsDisk(v, d) && HoldsDir(v, d, c, ch, items, n) && v.spc > 0
    ensures Ends(v, c, n) && AtMost(DirBytes(v, c, n), 19)
    ensures NodesOf(v, Sets(DirBytes(v, c, n))) == NodesFor(v, MetasOf(items))
    ensures NodesOf(v, DirSets(v, c, n)) == NodesFor(v, MetasOf(items))
  {
    hide IsDisk, DirBytes, Sets, AtMost, ReadSets, NodesOf, NodesFor, Written, Ends, HoldsDir, WellWritten, SetBytes,
         MetasOf;
    var tail := HeldBytes(v, d, c, ch, items, n);
    DirReadBack(items, tail);
    NodesAre(v, d, items);
    ReadSetsAreSets(v, c, n);
  }

  lemma HeldBytes(v: Volume, d: seq<byte>, c: u32, ch: Chain, items: seq<Item>, n: nat) returns (tail: seq<byte>)
    requires IsDisk(v, d) && HoldsDir(v, d, c, ch, items, n) && v.spc > 0
    ensures Ends(v, c, n) && DirBytes(v, c, n) == Written(items) + tail
    ensures Ended(tail) && AllWritten(items) && StartsOnDisk(v, d, MetasOf(items))
  {
    hide IsDisk, WellWritten, DirBytes, Written, Ends, ChainData, Follows, OnDisk, MetasOf;
    DirIsChain(v, d, ch.clusters, ch.mark, n);
    var data, w := ChainData(v, d, ch.clusters), Written(items);
    tail := data[|w|..];
    assert data == w + tail;
  }

  lemma HeldTree(v: Volume, d: seq<byte>, n: nat, rank: map<u32, nat>, chains: map<u32, Chain>,
                 items: map<u32, seq<Item>>)
    requires HoldsVolume(v, d, n, rank, chains, items)
    ensures DirTree(v, n, rank) && (forall c :: c in rank ==> AtMost(DirBytes(v, c, n), 19))
    ensures WholeDirs(v, n, rank) == TreeOf(v, rank, items)
  {
    hide HoldsDir, DirBytes, Sets, AtMost, NodesOf, NodesFor, IsDisk, DirSets, Ends;
    forall c | c in rank
      ensures Ends(v, c, n) && AtMost(DirBytes(v, c, n), 19) && SubdirsBelow(DirSets(v, c, n), rank, rank[c])
      ensures NodesOf(v, Sets(DirBytes(v, c, n))) == NodesFor(v, MetasOf(items[c]))
    {
      HeldDir(v, d, c, chains[c], items[c], n);
      BelowIs(v, DirSets(v, c, n), rank, rank[c]);
    }
  }

  lemma BelowIs(v: Volume, sets: seq<FileSet>, rank: map<u32, nat>, r: nat)
    requires Below(NodesOf(v, sets), rank, r)
    ensures SubdirsBelow(sets, rank, r)
  {
    hide EfiName, Lba, Enters;
    var nodes := NodesOf(v, sets);
    forall i | 0 <= i < |sets| && Enters(sets[i]) ensures Start(sets[i]) in rank && rank[Start(sets[i])] < r {
      assert nodes[i] == NodeOf(v, sets[i]);
    }
  }

  /** Scanning an exFAT volume lists the first 64 bootable files of the tree written on the disk,
      under their full paths and with the sectors where their data begin. */
  lemma WrittenTreeIsListed(v: Volume, d: seq<byte>, n: nat, rank: map<u32, nat>, chains: map<u32, Chain>,
                            items: map<u32, seq<Item>>, root: u32, prefix: seq<byte>, files: seq<FileEntry>)
    requires HoldsVolume(v, d, n, rank, chains, items) && root in rank && |prefix| <= MAX_PATH && |files| <= SLOTS
    ensures DirTree(v, n, rank) && Tree(TreeOf(v, rank, items), rank)
    ensures Scan(v, n, rank, root, prefix, files) == First(files + Listing(TreeOf(v, rank, items), rank, root, prefix))
  {
    hide HoldsVolume, DirTree, AtMost, DirBytes;
    assert rank.Keys == items.Keys by { SameKeys(v, d, n, rank, chains, items); }
    HeldTree(v, d, n, rank, chains, items);
    TreeIsListed(v, n, rank, root, prefix, files);
  }

  lemma SameKeys(v: Volume, d: seq<byte>, n: nat, rank: map<u32, nat>, chains: map<u32, Chain>,
                 items: map<u32, seq<Item>>)
    requires HoldsVolume(v, d, n, rank, chains, items)
    ensures rank.Keys == items.Keys
  {
  }

  /** A file listed with that sector and stored in one piece is what the virtual CD-ROM reads there. */
  lemma ListedFileIsServed(v: Volume, d: seq<byte>, m: Meta, b: nat)
    requires m.start >= 2 && ClusterAt(v, m.start) + (b + 1) * 2048 <= |d|
    ensures Overlay.RawMedium(d, NodeFor(v, m).lba)(b) == Some(d[ClusterAt(v, m.start)..][b * 2048..(b + 1) * 2048])
  {
    var at := ClusterAt(v, m.start);
    assert NodeFor(v, m).lba * 512 == at;
    assert d[at..][b * 2048..(b + 1) * 2048] == d[at + b * 2048..at + b * 2048 + 2048];
  }
}
