/** The recursive walk both UEFI directory scanners make, on any file system: it enters
    directories, lists bootable files under their full paths, and stops at 64 of them. */
module DirWalk {
  import opened Bytes

  const SLOTS := 64
  const MAX_DEPTH := 12
  const MAX_PATH := 256
  const SLASH: byte := 47

  // ── File types ────────────────────────────────────────────────────────

  datatype Payload = Iso | Wim | Vhd | Vhdx | Img | Efi

  predicate HasExt(name: seq<byte>, ext: seq<byte>) {
    |name| >= |ext| && Upper(name[|name| - |ext|..]) == Upper(ext)
  }

  const DOT_ISO: seq<byte> := Ascii(".iso")
  const DOT_WIM: seq<byte> := Ascii(".wim")
  const DOT_VHD: seq<byte> := Ascii(".vhd")
  const DOT_IMG: seq<byte> := Ascii(".img")
  const DOT_EFI: seq<byte> := Ascii(".efi")
  const DOT_VHDX: seq<byte> := Ascii(".vhdx")

  predicate Bootable(name: seq<byte>) {
    || HasExt(name, DOT_ISO) || HasExt(name, DOT_WIM) || HasExt(name, DOT_VHD)
    || HasExt(name, DOT_IMG) || HasExt(name, DOT_EFI) || HasExt(name, DOT_VHDX)
  }

  function Classify(name: seq<byte>): Payload {
    if HasExt(name, DOT_ISO) then Iso
    else if HasExt(name, DOT_WIM) then Wim
    else if HasExt(name, DOT_VHD) && !HasExt(name, DOT_VHDX) then Vhd
    else if HasExt(name, DOT_VHDX) then Vhdx
    else if HasExt(name, DOT_IMG) then Img
    else if HasExt(name, DOT_EFI) then Efi
    else Iso
  }

  predicate Extension(s: seq<byte>) { 4 <= |s| <= 5 && forall i :: 0 <= i < |s| ==> (s[i] == 46 <==> i == 0) }

  /** An extension of the same length is told from its capitals; one of another length is not
      confused with it, since the dot stands elsewhere. */
  lemma ExtensionIs(stem: seq<byte>, ext: seq<byte>, dot: seq<byte>)
    requires Extension(ext) && Extension(dot)
    ensures HasExt(stem + ext, dot) <==> Upper(ext) == Upper(dot)
  {
    var name := stem + ext;
    assert name[|name| - |ext|..] == ext;
    if |ext| < |dot| && |name| >= |dot| {
      var t := name[|name| - |dot|..];
      assert t[1] == ext[0] && Upper(t)[1] == 46 != Upper(dot)[1];
    } else if |dot| < |ext| {
      var t := name[|name| - |dot|..];
      assert t[0] == ext[1] && Upper(t)[0] != 46 == Upper(dot)[0];
    }
  }

  /** The kind of a bootable file is told by its extension, in either case. */
  lemma PayloadByExtension(stem: seq<byte>, ext: seq<byte>)
    requires Extension(ext)
    ensures var (name, e) := (stem + ext, Upper(ext));
            && (e == Ascii(".ISO") ==> Classify(name) == Iso && Bootable(name))
            && (e == Ascii(".WIM") ==> Classify(name) == Wim && Bootable(name))
            && (e == Ascii(".VHD") ==> Classify(name) == Vhd && Bootable(name))
            && (e == Ascii(".VHDX") ==> Classify(name) == Vhdx && Bootable(name))
            && (e == Ascii(".IMG") ==> Classify(name) == Img && Bootable(name))
            && (e == Ascii(".EFI") ==> Classify(name) == Efi && Bootable(name))
            && (Bootable(name) ==>
                e in {Ascii(".ISO"), Ascii(".WIM"), Ascii(".VHD"), Ascii(".VHDX"), Ascii(".IMG"), Ascii(".EFI")})
  {
    DotsFirst();
    ThreeUpper();
    OtherUpper();
    CapitalsDiffer();
    hide HasExt, Ascii, Upper, Extension, DOT_ISO, DOT_WIM, DOT_VHD, DOT_VHDX, DOT_IMG, DOT_EFI;
    ExtensionIs(stem, ext, DOT_ISO);
    ExtensionIs(stem, ext, DOT_WIM);
    ExtensionIs(stem, ext, DOT_VHD);
    ExtensionIs(stem, ext, DOT_VHDX);
    ExtensionIs(stem, ext, DOT_IMG);
    ExtensionIs(stem, ext, DOT_EFI);
  }

  lemma DotsFirst()
    ensures Extension(DOT_ISO) && Extension(DOT_WIM) && Extension(DOT_VHD) && Extension(DOT_VHDX)
    ensures Extension(DOT_IMG) && Extension(DOT_EFI)
  {
  }

  lemma ThreeUpper()
    ensures Upper(DOT_ISO) == Ascii(".ISO") && Upper(DOT_WIM) == Ascii(".WIM") && Upper(DOT_VHD) == Ascii(".VHD")
  {
  }

  lemma OtherUpper()
    ensures Upper(DOT_VHDX) == Ascii(".VHDX") && Upper(DOT_IMG) == Ascii(".IMG") && Upper(DOT_EFI) == Ascii(".EFI")
  {
  }

  lemma CapitalsDiffer()
    ensures var (a, b, c, d, e, f) :=
              (Ascii(".ISO"), Ascii(".WIM"), Ascii(".VHD"), Ascii(".VHDX"), Ascii(".IMG"), Ascii(".EFI"));
            && a != b && a != c && a != d && a != e && a != f && b != c && b != d && b != e && b != f
            && c != d && c != e && c != f && d != e && d != f && e != f
  {
    assert Ascii(".ISO")[1] == 73 && Ascii(".ISO")[2] == 83 && Ascii(".WIM")[1] == 87 && Ascii(".VHD")[1] == 86;
    assert Ascii(".IMG")[1] == 73 && Ascii(".IMG")[2] == 77 && Ascii(".EFI")[1] == 69 && |Ascii(".VHDX")| == 5;
  }

  // ── Paths ─────────────────────────────────────────────────────────────

  function Depth(path: seq<byte>): nat {
    if path == [] then 0 else (if path[0] == SLASH then 1 else 0) + Depth(path[1..])
  }

  function FullPath(prefix: seq<byte>, name: seq<byte>): (p: seq<byte>)
    requires |prefix| <= MAX_PATH
    ensures |p| <= MAX_PATH
  {
    var dir := prefix + if prefix != [SLASH] && |prefix| < MAX_PATH then [SLASH] else [];
    dir + name[..Least(|name|, MAX_PATH - |dir|)]
  }

  method BuildFullPath(prefix: seq<byte>, name: seq<byte>) returns (path: seq<byte>)
    requires |prefix| <= MAX_PATH
    ensures path == FullPath(prefix, name)
  {
    path := prefix;
    if |prefix| != 1 || prefix[0] != SLASH {
      if |path| < MAX_PATH { path := path + [SLASH]; }
    }
    path := path + name[..Least(|name|, MAX_PATH - |path|)];
  }

  /** The path of a directory as the walk writes it: the root, or names behind slashes. */
  predicate DirPath(p: seq<byte>) { p == [SLASH] || (p != [] && p[|p| - 1] != SLASH) }

  /** A path tells its directory and its name apart, and two files share one only if both are
      the same, as long as names are free of slashes and nothing is cut at 256 bytes. */
  lemma PathsDiffer(p1: seq<byte>, n1: seq<byte>, p2: seq<byte>, n2: seq<byte>)
    requires DirPath(p1) && DirPath(p2) && SLASH !in n1 && SLASH !in n2
    requires |p1| + 1 + |n1| <= MAX_PATH && |p2| + 1 + |n2| <= MAX_PATH
    ensures FullPath(p1, n1) == FullPath(p2, n2) <==> p1 == p2 && n1 == n2
  {
    if FullPath(p1, n1) == FullPath(p2, n2) {
      var p := FullPath(p1, n1);
      LastSlash(p1, n1);
      LastSlash(p2, n2);
      var a, b := |p| - |n1|, |p| - |n2|;
      assert a == b;
      assert p1 == if p1 == [SLASH] then p[..a] else p[..a - 1];
      assert p2 == if p2 == [SLASH] then p[..a] else p[..a - 1];
    }
  }

  /** The name begins right behind the last slash of the path, and what lies before that slash
      is the directory. */
  lemma LastSlash(prefix: seq<byte>, name: seq<byte>)
    requires DirPath(prefix) && SLASH !in name && |prefix| + 1 + |name| <= MAX_PATH
    ensures var p, at := FullPath(prefix, name), |FullPath(prefix, name)| - |name|;
            && at >= 1 && p[at - 1] == SLASH && p[at..] == name && SLASH !in p[at..]
            && p[..at] == (if prefix == [SLASH] then prefix else prefix + [SLASH])
  {
    assert [SLASH] + [] == [SLASH];
  }

  /** Each level adds one slash, while the path is not cut; the root and its own directories both have one. */
  lemma {:induction false} DepthGrows(prefix: seq<byte>, name: seq<byte>)
    requires DirPath(prefix) && SLASH !in name && |prefix| + 1 + |name| <= MAX_PATH
    ensures Depth(FullPath(prefix, name)) == if prefix == [SLASH] then 1 else Depth(prefix) + 1
  {
    LastSlash(prefix, name);
    var p, at := FullPath(prefix, name), |FullPath(prefix, name)| - |name|;
    assert p == p[..at] + name;
    DepthJoin(p[..at], name);
    NoSlashNoDepth(name);
    if prefix != [SLASH] { DepthJoin(prefix, [SLASH]); }
    assert [SLASH][1..] == [];
  }

  lemma {:induction false} DepthJoin(a: seq<byte>, b: seq<byte>)
    ensures Depth(a + b) == Depth(a) + Depth(b)
  {
    if a == [] {
      assert a + b == b;
    } else {
      assert (a + b)[1..] == a[1..] + b;
      DepthJoin(a[1..], b);
    }
  }

  lemma {:induction false} NoSlashNoDepth(s: seq<byte>)
    requires SLASH !in s
    ensures Depth(s) == 0
  {
    if s != [] { NoSlashNoDepth(s[1..]); }
  }

  // ── The walk ──────────────────────────────────────────────────────────

  /** A directory record: `enter` says that it leads to another directory. */
  datatype Node = Node(name: seq<byte>, enter: bool, cluster: u32, lba: nat, size: u64)

  datatype FileEntry = FileEntry(path: seq<byte>, lba: nat, size: u64, kind: Payload)

  type Dirs = map<u32, seq<Node>>

  predicate Below(nodes: seq<Node>, rank: map<u32, nat>, r: nat) {
    forall i :: 0 <= i < |nodes| && nodes[i].enter ==> nodes[i].cluster in rank && rank[nodes[i].cluster] < r
  }

  /** The directories form a tree: each one entered ranks below its parent. */
  predicate Tree(dirs: Dirs, rank: map<u32, nat>) {
    dirs.Keys == rank.Keys && forall c :: c in dirs ==> Below(dirs[c], rank, rank[c])
  }

  lemma Rooted(dirs: Dirs, rank: map<u32, nat>, cluster: u32)
    requires Tree(dirs, rank) && cluster in rank
    ensures cluster in dirs && Below(dirs[cluster], rank, rank[cluster])
  {
  }

  function EntryAt(prefix: seq<byte>, node: Node): FileEntry
    requires |prefix| <= MAX_PATH
  {
    FileEntry(FullPath(prefix, node.name), node.lba, node.size, Classify(node.name))
  }

  function Walk(dirs: Dirs, rank: map<u32, nat>, cluster: u32, prefix: seq<byte>, files: seq<FileEntry>): seq<FileEntry>
    requires Tree(dirs, rank) && cluster in dirs && |prefix| <= MAX_PATH
    decreases rank[cluster], 2, 0
  {
    if |files| >= SLOTS then files else VisitAll(dirs, rank, rank[cluster], dirs[cluster], prefix, files)
  }

  function VisitAll(dirs: Dirs, rank: map<u32, nat>, r: nat, nodes: seq<Node>, prefix: seq<byte>, files: seq<FileEntry>)
    : seq<FileEntry>
    requires Tree(dirs, rank) && Below(nodes, rank, r) && |prefix| <= MAX_PATH
    decreases r, 1, |nodes|
  {
    if nodes == [] then files
    else
      assert Below(nodes[1..], rank, r);
      VisitAll(dirs, rank, r, nodes[1..], prefix, Visit(dirs, rank, r, nodes[0], prefix, files))
  }

  function Visit(dirs: Dirs, rank: map<u32, nat>, r: nat, node: Node, prefix: seq<byte>,
                 files: seq<FileEntry>): seq<FileEntry>
    requires Tree(dirs, rank) && Below([node], rank, r) && |prefix| <= MAX_PATH
    decreases r, 0, 0
  {
    if node.enter && |files| < SLOTS && Depth(prefix) < MAX_DEPTH then
      assert [node][0] == node;
      Walk(dirs, rank, node.cluster, FullPath(prefix, node.name), files)
    else if Bootable(node.name) && |files| < SLOTS then files + [EntryAt(prefix, node)]
    else files
  }

  // ── What the walk finds ───────────────────────────────────────────────

  /** All bootable files of a directory tree, in the order of its records and without a limit;
      a directory below level 12 counts as a file. */
  function Listing(dirs: Dirs, rank: map<u32, nat>, cluster: u32, prefix: seq<byte>): seq<FileEntry>
    requires Tree(dirs, rank) && cluster in dirs && |prefix| <= MAX_PATH
    decreases rank[cluster], 2, 0
  {
    ListAll(dirs, rank, rank[cluster], dirs[cluster], prefix)
  }

  function ListAll(dirs: Dirs, rank: map<u32, nat>, r: nat, nodes: seq<Node>, prefix: seq<byte>): seq<FileEntry>
    requires Tree(dirs, rank) && Below(nodes, rank, r) && |prefix| <= MAX_PATH
    decreases r, 1, |nodes|
  {
    if nodes == [] then []
    else
      assert Below(nodes[1..], rank, r);
      ListNode(dirs, rank, r, nodes[0], prefix) + ListAll(dirs, rank, r, nodes[1..], prefix)
  }

  function ListNode(dirs: Dirs, rank: map<u32, nat>, r: nat, node: Node, prefix: seq<byte>): seq<FileEntry>
    requires Tree(dirs, rank) && Below([node], rank, r) && |prefix| <= MAX_PATH
    decreases r, 0, 0
  {
    if node.enter && Depth(prefix) < MAX_DEPTH then
      assert [node][0] == node;
      Listing(dirs, rank, node.cluster, FullPath(prefix, node.name))
    else if Bootable(node.name) then [EntryAt(prefix, node)]
    else []
  }

  /** The first 64 entries of a list. */
  function First(files: seq<FileEntry>): seq<FileEntry> { files[..Least(|files|, SLOTS)] }

  lemma FirstOfMore(files: seq<FileEntry>, a: seq<FileEntry>, b: seq<FileEntry>)
    ensures First(First(files + a) + b) == First(files + (a + b))
  {
  }

  lemma FullAlready(files: seq<FileEntry>, a: seq<FileEntry>)
    requires |files| == SLOTS
    ensures First(files + a) == files
  {
  }

  /** Counting while it walks, the scanner lists exactly the first 64 of all bootable files of
      the tree: a full table cuts the list off and changes nothing before that. */
  lemma {:induction false} WalkIsFirst(dirs: Dirs, rank: map<u32, nat>, cluster: u32, prefix: seq<byte>,
                                       files: seq<FileEntry>)
    requires Tree(dirs, rank) && cluster in dirs && |prefix| <= MAX_PATH && |files| <= SLOTS
    ensures Walk(dirs, rank, cluster, prefix, files) == First(files + Listing(dirs, rank, cluster, prefix))
    decreases rank[cluster], 2, 0
  {
    hide Visit, ListNode;
    if |files| < SLOTS {
      VisitAllIsFirst(dirs, rank, rank[cluster], dirs[cluster], prefix, files);
    } else {
      FullAlready(files, Listing(dirs, rank, cluster, prefix));
    }
  }

  lemma {:induction false} VisitAllIsFirst(dirs: Dirs, rank: map<u32, nat>, r: nat, nodes: seq<Node>, prefix: seq<byte>,
                                           files: seq<FileEntry>)
    requires Tree(dirs, rank) && Below(nodes, rank, r) && |prefix| <= MAX_PATH && |files| <= SLOTS
    ensures VisitAll(dirs, rank, r, nodes, prefix, files) == First(files + ListAll(dirs, rank, r, nodes, prefix))
    decreases r, 1, |nodes|
  {
    hide Tree, Visit, ListNode;
    if nodes == [] {
      assert files + [] == files;
    } else {
      assert Below(nodes[1..], rank, r);
      var next, here := Visit(dirs, rank, r, nodes[0], prefix, files), ListNode(dirs, rank, r, nodes[0], prefix);
      VisitIsFirst(dirs, rank, r, nodes[0], prefix, files);
      VisitAllIsFirst(dirs, rank, r, nodes[1..], prefix, next);
      FirstOfMore(files, here, ListAll(dirs, rank, r, nodes[1..], prefix));
    }
  }

  lemma {:induction false} VisitIsFirst(dirs: Dirs, rank: map<u32, nat>, r: nat, node: Node, prefix: seq<byte>,
                                        files: seq<FileEntry>)
    requires Tree(dirs, rank) && Below([node], rank, r) && |prefix| <= MAX_PATH && |files| <= SLOTS
    ensures Visit(dirs, rank, r, node, prefix, files) == First(files + ListNode(dirs, rank, r, node, prefix))
    decreases r, 0, 0
  {
    hide Tree, Walk, Listing, Bootable, FullPath, Depth, EntryAt;
    if |files| == SLOTS {
      FullAlready(files, ListNode(dirs, rank, r, node, prefix));
    } else if node.enter && Depth(prefix) < MAX_DEPTH {
      assert [node][0] == node;
      Rooted(dirs, rank, node.cluster);
      WalkIsFirst(dirs, rank, node.cluster, FullPath(prefix, node.name), files);
    }
  }

  // ── Paths below a directory ───────────────────────────────────────────

  /** Every path built from `prefix` starts with `base`. */
  predicate LeadsTo(prefix: seq<byte>, base: seq<byte>) {
    base <= prefix || (|prefix| < MAX_PATH && prefix != [SLASH] && base == prefix + [SLASH])
  }

  predicate AllUnder(files: seq<FileEntry>, from: nat, base: seq<byte>) {
    forall i :: from <= i < |files| ==> base <= files[i].path
  }

  lemma PathUnder(prefix: seq<byte>, name: seq<byte>, base: seq<byte>)
    requires |prefix| <= MAX_PATH && LeadsTo(prefix, base)
    ensures base <= FullPath(prefix, name)
  {
  }

  predicate Extends(files: seq<FileEntry>, more: seq<FileEntry>, base: seq<byte>) {
    files <= more && AllUnder(more, |files|, base)
  }

  lemma {:induction false} WalkUnder(dirs: Dirs, rank: map<u32, nat>, cluster: u32, prefix: seq<byte>,
                                     files: seq<FileEntry>,
                                     base: seq<byte>)
    requires Tree(dirs, rank) && cluster in dirs && |prefix| <= MAX_PATH && LeadsTo(prefix, base)
    ensures Extends(files, Walk(dirs, rank, cluster, prefix, files), base)
    decreases rank[cluster], 2, 0
  {
    hide LeadsTo, Visit;
    if |files| < SLOTS {
      VisitAllUnder(dirs, rank, rank[cluster], dirs[cluster], prefix, files, base);
    }
  }

  lemma {:induction false} VisitAllUnder(dirs: Dirs, rank: map<u32, nat>, r: nat, nodes: seq<Node>, prefix: seq<byte>,
                                         files: seq<FileEntry>, base: seq<byte>)
    requires Tree(dirs, rank) && Below(nodes, rank, r) && |prefix| <= MAX_PATH && LeadsTo(prefix, base)
    ensures Extends(files, VisitAll(dirs, rank, r, nodes, prefix, files), base)
    decreases r, 1, |nodes|
  {
    hide Tree, LeadsTo, Visit;
    if nodes != [] {
      assert Below(nodes[1..], rank, r);
      var more := Visit(dirs, rank, r, nodes[0], prefix, files);
      VisitUnder(dirs, rank, r, nodes[0], prefix, files, base);
      VisitAllUnder(dirs, rank, r, nodes[1..], prefix, more, base);
    }
  }

  lemma {:induction false} VisitUnder(dirs: Dirs, rank: map<u32, nat>, r: nat, node: Node, prefix: seq<byte>,
                                      files: seq<FileEntry>, base: seq<byte>)
    requires Tree(dirs, rank) && Below([node], rank, r) && |prefix| <= MAX_PATH && LeadsTo(prefix, base)
    ensures Extends(files, Visit(dirs, rank, r, node, prefix, files), base)
    decreases r, 0, 0
  {
    hide Tree, Bootable, FullPath, Depth, LeadsTo, Walk;
    PathUnder(prefix, node.name, base);
    if node.enter && |files| < SLOTS && Depth(prefix) < MAX_DEPTH {
      assert [node][0] == node;
      PrefixLeads(FullPath(prefix, node.name), base);
      Rooted(dirs, rank, node.cluster);
      WalkUnder(dirs, rank, node.cluster, FullPath(prefix, node.name), files, base);
    }
  }

  lemma PrefixLeads(p: seq<byte>, base: seq<byte>)
    requires base <= p
    ensures LeadsTo(p, base)
  {
  }
}
