/** The two exFAT scanners: the UEFI one walks all directories for bootable files, the BIOS
    one lists the ISO files of the root directory. */
module ExfatScan {
  import opened Bytes
  import opened DirWalk
  import opened ExfatDir

  // ── Fields of a file set ──────────────────────────────────────────────

  predicate IsDir(fs: FileSet) { FromLe16(fs, 4) as int / 16 % 2 == 1 }

  /** The directory bit of the file attributes. */
  lemma DirMask(fs: FileSet)
    ensures IsDir(fs) <==> FromLe16(fs, 4) as bv16 & 0x10 != 0
  {
  }

  function Start(fs: FileSet): u32 { FromLe32(fs, ENTRY + 20) }

  function Size(fs: FileSet): u64 { FromLe64(fs, ENTRY + 24) }

  function NameLength(fs: FileSet): nat { fs[ENTRY + 3] as int }

  function CodePoint(e: seq<byte>, j: nat): nat
    requires |e| == ENTRY && j < 15
  {
    e[2 + j * 2] as int + 256 * e[3 + j * 2] as int
  }

  function Ascii7(cp: nat): byte { if cp < 0x80 then cp else 63 }

  // ── Names ─────────────────────────────────────────────────────────────

  /** `count` characters of a name entry; a NUL leaves the rest of the buffer zero. */
  function EfiChars(e: seq<byte>, j: nat, count: nat): (s: seq<byte>)
    requires |e| == ENTRY && j <= count <= 15
    ensures |s| == count - j
    decreases count - j
  {
    if j == count then []
    else if CodePoint(e, j) == 0 then seq(count - j, i => 0)
    else [Ascii7(CodePoint(e, j))] + EfiChars(e, j + 1, count)
  }

  /** The same characters up to the first NUL. */
  function BiosChars(e: seq<byte>, j: nat, count: nat): (s: seq<byte>)
    requires |e| == ENTRY && j <= count <= 15
    ensures |s| <= count - j
    decreases count - j
  {
    if j == count || CodePoint(e, j) == 0 then []
    else [Ascii7(CodePoint(e, j))] + BiosChars(e, j + 1, count)
  }

  /** Characters still wanted from the next name entry. */
  function ToCopy(fs: FileSet, len: nat): (k: nat)
    requires len <= 256
    ensures k <= 15 && len + k <= 256
  {
    Least(Least(if len < NameLength(fs) then NameLength(fs) - len else 0, 15), 256 - len)
  }

  function NameEntry(fs: FileSet, k: nat): (e: seq<byte>)
    requires (k + 3) * ENTRY <= |fs|
    ensures |e| == ENTRY
  {
    fs[(k + 2) * ENTRY..(k + 3) * ENTRY]
  }

  predicate MoreName(fs: FileSet, k: nat, len: nat)
    requires len <= 256
  {
    (k + 3) * ENTRY <= |fs| && NameEntry(fs, k)[0] == 0xC1 && ToCopy(fs, len) > 0
  }

  function EfiNameFrom(fs: FileSet, k: nat, name: seq<byte>): (r: seq<byte>)
    requires |name| <= 256
    ensures |r| <= 256
    decreases |fs| - k * ENTRY
  {
    if !MoreName(fs, k, |name|) then name
    else EfiNameFrom(fs, k + 1, name + EfiChars(NameEntry(fs, k), 0, ToCopy(fs, |name|)))
  }

  function BiosNameFrom(fs: FileSet, k: nat, name: seq<byte>): (r: seq<byte>)
    requires |name| <= 256
    ensures |r| <= 256
    decreases |fs| - k * ENTRY
  {
    if !MoreName(fs, k, |name|) then name
    else BiosNameFrom(fs, k + 1, name + BiosChars(NameEntry(fs, k), 0, ToCopy(fs, |name|)))
  }

  function EfiName(fs: FileSet): (r: seq<byte>)
    ensures |r| <= 256
  {
    EfiNameFrom(fs, 0, [])
  }

  function BiosName(fs: FileSet): (r: seq<byte>)
    ensures |r| <= 256
  {
    BiosNameFrom(fs, 0, [])
  }

  // ── The UEFI walk ─────────────────────────────────────────────────────

  /** A directory record that leads to another directory. */
  predicate Enters(fs: FileSet) { IsDir(fs) && Start(fs) >= 2 }

  predicate SubdirsBelow(sets: seq<FileSet>, rank: map<u32, nat>, r: nat) {
    forall i :: 0 <= i < |sets| && Enters(sets[i]) ==> Start(sets[i]) in rank && rank[Start(sets[i])] < r
  }

  function DirSets(v: Volume, cluster: u32, n: nat): seq<FileSet>
    requires Ends(v, cluster, n)
  {
    ReadSets(DirBytes(v, cluster, n), 0)
  }

  function NodeOf(v: Volume, fs: FileSet): Node {
    Node(EfiName(fs), Enters(fs), Start(fs), Lba(v, Start(fs), 0), Size(fs))
  }

  function NodesOf(v: Volume, sets: seq<FileSet>): (r: seq<Node>)
    ensures |r| == |sets| && forall i :: 0 <= i < |r| ==> r[i] == NodeOf(v, sets[i])
  {
    if sets == [] then [] else [NodeOf(v, sets[0])] + NodesOf(v, sets[1..])
  }

  /** The directories reached form a tree: chains end within `n` clusters and each
      subdirectory ranks below its parent. */
  predicate DirTree(v: Volume, n: nat, rank: map<u32, nat>) {
    forall c :: c in rank ==> Ends(v, c, n) && SubdirsBelow(DirSets(v, c, n), rank, rank[c])
  }

  function DirsOf(v: Volume, n: nat, rank: map<u32, nat>): (dirs: Dirs)
    requires DirTree(v, n, rank)
    ensures Tree(dirs, rank)
  {
    map c | c in rank :: NodesOf(v, DirSets(v, c, n))
  }

  /** The files the UEFI program finds below `cluster`, added to those it has. */
  function Scan(v: Volume, n: nat, rank: map<u32, nat>, cluster: u32, prefix: seq<byte>,
                files: seq<FileEntry>): seq<FileEntry>
    requires DirTree(v, n, rank) && cluster in rank && |prefix| <= MAX_PATH
  {
    Walk(DirsOf(v, n, rank), rank, cluster, prefix, files)
  }

  // ── The BIOS listing ──────────────────────────────────────────────────

  datatype IsoFile = IsoFile(name: seq<byte>, lba: nat, size: u64)

  function ListIsos(v: Volume, sets: seq<FileSet>, files: seq<IsoFile>, max: nat): seq<IsoFile>
    decreases |sets|
  {
    if sets == [] then files else ListIsos(v, sets[1..], ListIso(v, sets[0], files, max), max)
  }

  function ListIso(v: Volume, fs: FileSet, files: seq<IsoFile>, max: nat): seq<IsoFile> {
    if HasExt(BiosName(fs), DOT_ISO) && |files| < max then
      files + [IsoFile(BiosName(fs), Lba(v, Start(fs), 0), Size(fs))]
    else files
  }

  // ── The scanners ──────────────────────────────────────────────────────

  method ReadEfiName(fs: FileSet) returns (name: seq<byte>)
    ensures name == EfiName(fs)
  {
    var nameEnts := fs[1] as int - 1;
    name := [];
    for ne := 0 to nameEnts
      invariant |name| <= 256 && EfiNameFrom(fs, ne, name) == EfiName(fs)
    {
      var e := NameEntry(fs, ne);
      if e[0] != 0xC1 { return; }
      var toCopy := ToCopy(fs, |name|);
      if toCopy == 0 { return; }
      var part := CopyEfiChars(e, toCopy);
      name := name + part;
    }
  }

  method CopyEfiChars(e: seq<byte>, count: nat) returns (part: seq<byte>)
    requires |e| == ENTRY && count <= 15
    ensures part == EfiChars(e, 0, count)
  {
    var buf: seq<byte> := seq(count, i => 0);
    var j := 0;
    while j < count
      invariant j <= count && |buf| == count && buf[..j] + EfiChars(e, j, count) == EfiChars(e, 0, count)
      invariant forall i :: j <= i < count ==> buf[i] == 0
    {
      var cp := CodePoint(e, j);
      if cp == 0 {
        assert buf == buf[..j] + seq(count - j, i => 0);
        return buf;
      }
      ghost var rest := EfiChars(e, j + 1, count);
      assert buf[..j] + ([Ascii7(cp)] + rest) == buf[..j] + [Ascii7(cp)] + rest;
      assert buf[j := Ascii7(cp)][..j + 1] == buf[..j] + [Ascii7(cp)];
      buf := buf[j := Ascii7(cp)];
      j := j + 1;
    }
    assert buf[..count] == buf;
    return buf;
  }

  method ReadBiosName(fs: FileSet) returns (name: seq<byte>)
    ensures name == BiosName(fs)
  {
    var nameEnts := fs[1] as int - 1;
    name := [];
    for ne := 0 to nameEnts
      invariant |name| <= 256 && BiosNameFrom(fs, ne, name) == BiosName(fs)
    {
      var e := NameEntry(fs, ne);
      if e[0] != 0xC1 { return; }
      var toCopy := ToCopy(fs, |name|);
      if toCopy == 0 { return; }
      var part := Utf16LeToAscii(e, toCopy);
      name := name + part;
    }
  }

  method Utf16LeToAscii(e: seq<byte>, count: nat) returns (part: seq<byte>)
    requires |e| == ENTRY && count <= 15
    ensures part == BiosChars(e, 0, count)
  {
    part := [];
    var j := 0;
    while j < count
      invariant j <= count && part + BiosChars(e, j, count) == BiosChars(e, 0, count)
    {
      var cp := CodePoint(e, j);
      if cp == 0 { return; }
      ghost var rest := BiosChars(e, j + 1, count);
      assert part + ([Ascii7(cp)] + rest) == part + [Ascii7(cp)] + rest;
      part := part + [Ascii7(cp)];
      j := j + 1;
    }
  }

  /** The UEFI scanner with its list of files found so far. */
  class EfiScanner {
    const v: Volume
    var files: seq<FileEntry>

    constructor (v: Volume)
      ensures this.v == v && files == []
    {
      this.v := v;
      files := [];
    }

    method ScanExfatDir(cluster: u32, prefix: seq<byte>, ghost n: nat, ghost rank: map<u32, nat>)
      requires DirTree(v, n, rank) && cluster in rank && |prefix| <= MAX_PATH
      modifies this`files
      ensures files == Scan(v, n, rank, cluster, prefix, old(files))
      decreases rank[cluster], 1
    {
      hide DirSets, EfiName, DirTree, Tree, FullPath, Visit, NodeOf, NodesOf;
      ghost var dirs := DirsOf(v, n, rank);
      ChainEnds(v, n, rank, cluster);
      if |files| >= SLOTS { return; }
      var sets := ReadDirSets(v, cluster, n);
      ghost var nodes := NodesOf(v, sets);
      assert dirs[cluster] == nodes;
      Rooted(dirs, rank, cluster);
      ghost var goal := VisitAll(dirs, rank, rank[cluster], nodes, prefix, files);
      for i := 0 to |sets|
        invariant Below(nodes[i..], rank, rank[cluster])
        invariant VisitAll(dirs, rank, rank[cluster], nodes[i..], prefix, files) == goal
      {
        assert nodes[i..][1..] == nodes[i + 1..] && nodes[i..][0] == NodeOf(v, sets[i]);
        VisitFileSet(sets[i], prefix, rank[cluster], n, rank);
      }
    }

    method VisitFileSet(fs: FileSet, prefix: seq<byte>, ghost r: nat, ghost n: nat, ghost rank: map<u32, nat>)
      requires DirTree(v, n, rank) && Below([NodeOf(v, fs)], rank, r) && |prefix| <= MAX_PATH
      modifies this`files
      ensures files == Visit(DirsOf(v, n, rank), rank, r, NodeOf(v, fs), prefix, old(files))
      decreases r, 0
    {
      hide EfiName, DirTree, DirsOf, Bootable, FullPath, Classify, Walk;
      assert [NodeOf(v, fs)][0] == NodeOf(v, fs);
      var name := ReadEfiName(fs);
      if IsDir(fs) && Start(fs) >= 2 && |files| < SLOTS && Depth(prefix) < MAX_DEPTH {
        var sub := BuildFullPath(prefix, name);
        ScanExfatDir(Start(fs), sub, n, rank);
      } else if Bootable(name) && |files| < SLOTS {
        var path := BuildFullPath(prefix, name);
        files := files + [FileEntry(path, Lba(v, Start(fs), 0), Size(fs), Classify(name))];
      }
    }
  }

  lemma ChainEnds(v: Volume, n: nat, rank: map<u32, nat>, cluster: u32)
    requires DirTree(v, n, rank) && cluster in rank
    ensures Ends(v, cluster, n) && DirSets(v, cluster, n) == ReadSets(DirBytes(v, cluster, n), 0)
  {
  }

  /** The directories as they are on the disk, each read as one sequence of entries. */
  function WholeDirs(v: Volume, n: nat, rank: map<u32, nat>): Dirs
    requires forall c :: c in rank ==> Ends(v, c, n)
  {
    map c | c in rank :: NodesOf(v, Sets(DirBytes(v, c, n)))
  }

  /** On a volume whose sets have at most 19 secondary entries (the format allows 18) the scan
      lists the first 64 bootable files of the whole tree, wherever sets straddle sectors. */
  lemma TreeIsListed(v: Volume, n: nat, rank: map<u32, nat>, root: u32, prefix: seq<byte>, files: seq<FileEntry>)
    requires DirTree(v, n, rank) && root in rank && |prefix| <= MAX_PATH && |files| <= SLOTS
    requires forall c :: c in rank ==> AtMost(DirBytes(v, c, n), 19)
    ensures Tree(WholeDirs(v, n, rank), rank)
    ensures Scan(v, n, rank, root, prefix, files) == First(files + Listing(WholeDirs(v, n, rank), rank, root, prefix))
  {
    hide DirBytes, AtMost, NodesOf, ReadSets, Sets;
    var dirs := DirsOf(v, n, rank);
    forall c | c in rank ensures NodesOf(v, DirSets(v, c, n)) == NodesOf(v, Sets(DirBytes(v, c, n))) {
      ReadSetsAreSets(v, c, n);
    }
    assert dirs == WholeDirs(v, n, rank);
    WalkIsFirst(dirs, rank, root, prefix, files);
  }

  lemma DirSetsAre(v: Volume, cluster: u32, n: nat)
    requires Ends(v, cluster, n)
    ensures DirSets(v, cluster, n) == ReadSets(DirBytes(v, cluster, n), 0)
  {
  }

  /** The BIOS scanner fills the caller's table of `max` entries. */
  method ScanExfatRoot(v: Volume, root: u32, files0: seq<IsoFile>, max: nat, ghost n: nat) returns (files: seq<IsoFile>)
    requires Ends(v, root, n)
    ensures files == ListIsos(v, DirSets(v, root, n), files0, max)
  {
    hide DirSets, BiosName, HasExt;
    files := files0;
    var sets := ReadDirSets(v, root, n);
    assert sets == DirSets(v, root, n) by { DirSetsAre(v, root, n); }
    assert sets[0..] == sets;
    for i := 0 to |sets|
      invariant ListIsos(v, sets[i..], files, max) == ListIsos(v, sets, files0, max)
    {
      assert sets[i..][1..] == sets[i + 1..];
      var name := ReadBiosName(sets[i]);
      if HasExt(name, DOT_ISO) && |files| < max {
        files := files + [IsoFile(name, Lba(v, Start(sets[i]), 0), Size(sets[i]))];
      }
    }
  }
}
