/** Two programs, one directory: the BIOS listing is the root part of the UEFI scan. */
module ExfatAgree {
  import opened Bytes
  import opened DirWalk
  import opened ExfatDir
  import opened ExfatScan

  // ── Names ─────────────────────────────────────────────────────────────

  predicate NoZero(s: seq<byte>) { forall i :: 0 <= i < |s| ==> s[i] != 0 }

  lemma {:induction false} BiosCharsNoZero(e: seq<byte>, j: nat, count: nat)
    requires |e| == ENTRY && j <= count <= 15
    ensures NoZero(BiosChars(e, j, count))
    decreases count - j
  {
    if j < count && CodePoint(e, j) != 0 { BiosCharsNoZero(e, j + 1, count); }
  }

  lemma {:induction false} SameChars(e: seq<byte>, j: nat, count: nat)
    requires |e| == ENTRY && j <= count <= 15 && NoZero(EfiChars(e, j, count))
    ensures BiosChars(e, j, count) == EfiChars(e, j, count)
    decreases count - j
  {
    var s := EfiChars(e, j, count);
    if j < count {
      assert s[0] != 0;
      assert CodePoint(e, j) != 0;
      assert EfiChars(e, j + 1, count) == s[1..];
      SameChars(e, j + 1, count);
    }
  }

  lemma {:induction false} EfiNameGrows(fs: FileSet, k: nat, name: seq<byte>)
    requires |name| <= 256
    ensures name <= EfiNameFrom(fs, k, name)
    decreases |fs| - k * ENTRY
  {
    hide ToCopy;
    if MoreName(fs, k, |name|) {
      EfiNameGrows(fs, k + 1, name + EfiChars(NameEntry(fs, k), 0, ToCopy(fs, |name|)));
    }
  }

  lemma {:induction false} SameNames(fs: FileSet, k: nat, name: seq<byte>)
    requires |name| <= 256 && NoZero(EfiNameFrom(fs, k, name))
    ensures BiosNameFrom(fs, k, name) == EfiNameFrom(fs, k, name)
    decreases |fs| - k * ENTRY
  {
    hide ToCopy;
    if MoreName(fs, k, |name|) {
      var part := EfiChars(NameEntry(fs, k), 0, ToCopy(fs, |name|));
      EfiNameGrows(fs, k + 1, name + part);
      assert forall i :: 0 <= i < |part| ==> part[i] == EfiNameFrom(fs, k, name)[|name| + i];
      SameChars(NameEntry(fs, k), 0, ToCopy(fs, |name|));
      SameNames(fs, k + 1, name + part);
    }
  }

  lemma {:induction false} BiosNameNoZero(fs: FileSet, k: nat, name: seq<byte>)
    requires |name| <= 256 && NoZero(name)
    ensures NoZero(BiosNameFrom(fs, k, name))
    decreases |fs| - k * ENTRY
  {
    hide ToCopy;
    if MoreName(fs, k, |name|) {
      BiosCharsNoZero(NameEntry(fs, k), 0, ToCopy(fs, |name|));
      BiosNameNoZero(fs, k + 1, name + BiosChars(NameEntry(fs, k), 0, ToCopy(fs, |name|)));
    }
  }

  /** The two programs read the same name if and only if no NUL lies within it. */
  lemma NamesAgree(fs: FileSet)
    ensures BiosName(fs) == EfiName(fs) <==> NoZero(EfiName(fs))
  {
    if NoZero(EfiName(fs)) { SameNames(fs, 0, []); }
    BiosNameNoZero(fs, 0, []);
  }

  lemma {:induction false} NameWithinLength(fs: FileSet, k: nat, name: seq<byte>)
    requires |name| <= 256 && |name| <= NameLength(fs)
    ensures |EfiNameFrom(fs, k, name)| <= NameLength(fs)
    decreases |fs| - k * ENTRY
  {
    if MoreName(fs, k, |name|) {
      NameWithinLength(fs, k + 1, name + EfiChars(NameEntry(fs, k), 0, ToCopy(fs, |name|)));
    }
  }

  // ── The root part ─────────────────────────────────────────────────────

  predicate InRoot(path: seq<byte>) { path != [] && path[0] == SLASH && SLASH !in path[1..] }

  /** The ISO files directly in the root directory, as the BIOS program would list them. */
  function RootIsos(files: seq<FileEntry>): seq<IsoFile> {
    if files == [] then []
    else
      (if files[0].kind == Iso && InRoot(files[0].path) then [IsoFile(files[0].path[1..], files[0].lba, files[0].size)]
       else [])
      + RootIsos(files[1..])
  }

  lemma {:induction false} RootIsosJoin(a: seq<FileEntry>, b: seq<FileEntry>)
    ensures RootIsos(a + b) == RootIsos(a) + RootIsos(b)
  {
    hide InRoot;
    if a == [] {
      assert a + b == b;
    } else {
      assert (a + b)[1..] == a[1..] + b;
      RootIsosJoin(a[1..], b);
    }
  }

  lemma {:induction false} NothingInRoot(files: seq<FileEntry>, name: seq<byte>)
    requires name != [] && AllUnder(files, 0, [SLASH] + name + [SLASH])
    ensures RootIsos(files) == []
  {
    if files != [] {
      var path, base := files[0].path, [SLASH] + name + [SLASH];
      assert path[|name| + 1] == base[|name| + 1];
      assert path[1..][|name|] == SLASH;
      NothingInRoot(files[1..], name);
    }
  }

  /** A root record both programs treat alike: no NUL or slash in its name, and as a
      directory neither nameless, nor too long for a path below it, nor called *.iso. */
  predicate Tame(fs: FileSet) {
    var name := EfiName(fs);
    NoZero(name) && SLASH !in name && (IsDir(fs) ==> 1 <= |name| <= 254 && !HasExt(name, DOT_ISO))
  }

  predicate AllTame(sets: seq<FileSet>) { forall i :: 0 <= i < |sets| ==> Tame(sets[i]) }

  lemma RootEntry(v: Volume, fs: FileSet)
    requires Tame(fs) && Bootable(EfiName(fs))
    ensures var name := EfiName(fs);
            RootIsos([EntryAt([SLASH], NodeOf(v, fs))]) ==
            if HasExt(name, DOT_ISO) then [IsoFile(name, Lba(v, Start(fs), 0), Size(fs))] else []
  {
    hide HasExt, IsDir, Start, Size, Lba;
    NameWithinLength(fs, 0, []);
    var name := EfiName(fs);
    hide EfiName, NameLength;
    assert [SLASH] + [] == [SLASH] && name[..|name|] == name;
    assert FullPath([SLASH], name) == [SLASH] + name;
    assert ([SLASH] + name)[1..] == name;
  }

  lemma {:induction false} RootIsosFewer(files: seq<FileEntry>)
    ensures |RootIsos(files)| <= |files|
  {
    if files != [] { RootIsosFewer(files[1..]); }
  }

  lemma {:induction false} VisitRoot(v: Volume, dirs: Dirs, rank: map<u32, nat>, r: nat, sets: seq<FileSet>,
                                     files: seq<FileEntry>,
                                     max: nat)
    requires Tree(dirs, rank) && Below(NodesOf(v, sets), rank, r) && AllTame(sets) && max >= SLOTS
    requires |VisitAll(dirs, rank, r, NodesOf(v, sets), [SLASH], files)| < SLOTS
    ensures ListIsos(v, sets, RootIsos(files), max) ==
            RootIsos(VisitAll(dirs, rank, r, NodesOf(v, sets), [SLASH], files))
    decreases |sets|
  {
    hide Tree, Tame, NodeOf, RootIsos, Visit, ListIso, LeadsTo;
    if sets != [] {
      var nodes := NodesOf(v, sets);
      assert nodes[1..] == NodesOf(v, sets[1..]);
      assert Below(nodes[1..], rank, r) && Below([nodes[0]], rank, r);
      LeadsRoot();
      VisitAllUnder(dirs, rank, r, nodes, [SLASH], files, [SLASH]);
      VisitRootEntry(v, dirs, rank, r, sets[0], files, max);
      VisitRoot(v, dirs, rank, r, sets[1..], Visit(dirs, rank, r, nodes[0], [SLASH], files), max);
    }
  }

  /** One root record in both programs. */
  lemma VisitRootEntry(v: Volume, dirs: Dirs, rank: map<u32, nat>, r: nat, fs: FileSet, files: seq<FileEntry>, max: nat)
    requires Tree(dirs, rank) && Below([NodeOf(v, fs)], rank, r) && Tame(fs) && |files| < SLOTS <= max
    ensures ListIso(v, fs, RootIsos(files), max) == RootIsos(Visit(dirs, rank, r, NodeOf(v, fs), [SLASH], files))
  {
    NamesAgree(fs);
    RootIsosFewer(files);
    assert Depth([SLASH]) == 1 by { assert [SLASH][1..] == []; }
    assert HasExt(EfiName(fs), DOT_ISO) ==> Bootable(EfiName(fs));
    assert [NodeOf(v, fs)][0] == NodeOf(v, fs);
    hide Tree, RootIsos, HasExt, Bootable, FullPath, EfiName, BiosName, IsDir, EntryAt, DOT_ISO, Walk;
    if Enters(fs) {
      SubdirNotInRoot(v, dirs, rank, fs, files);
    } else if Bootable(EfiName(fs)) {
      RootIsosJoin(files, [EntryAt([SLASH], NodeOf(v, fs))]);
      RootEntry(v, fs);
    }
  }

  lemma LeadsRoot()
    ensures LeadsTo([SLASH], [SLASH])
  {
  }

  lemma SubdirNotInRoot(v: Volume, dirs: Dirs, rank: map<u32, nat>, fs: FileSet, files: seq<FileEntry>)
    requires Tree(dirs, rank) && Tame(fs) && Enters(fs) && Start(fs) in rank
    ensures Start(fs) in dirs
    ensures var more := Walk(dirs, rank, Start(fs), FullPath([SLASH], EfiName(fs)), files);
            files <= more && RootIsos(more) == RootIsos(files) && !HasExt(EfiName(fs), DOT_ISO)
  {
    Rooted(dirs, rank, Start(fs));
    hide Tree, RootIsos, HasExt, Start, EfiName;
    var name := EfiName(fs);
    var prefix, base := FullPath([SLASH], name), [SLASH] + name + [SLASH];
    assert prefix == [SLASH] + name by { assert [SLASH] + [] == [SLASH] && name[..|name|] == name; }
    assert LeadsTo(prefix, base) by { assert prefix != [SLASH]; }
    WalkUnder(dirs, rank, Start(fs), prefix, files, base);
    var more := Walk(dirs, rank, Start(fs), prefix, files);
    assert more == files + more[|files|..];
    RootIsosJoin(files, more[|files|..]);
    NothingInRoot(more[|files|..], name);
  }

  /** The BIOS listing of a volume equals the root ISO files of its UEFI scan: same order,
      names, addresses and sizes. */
  lemma BiosListsTheRoot(v: Volume, n: nat, rank: map<u32, nat>, root: u32, max: nat)
    requires DirTree(v, n, rank) && root in rank && AllTame(DirSets(v, root, n)) && max >= SLOTS
    requires |Scan(v, n, rank, root, [SLASH], [])| < SLOTS
    ensures ListIsos(v, DirSets(v, root, n), [], max) == RootIsos(Scan(v, n, rank, root, [SLASH], []))
  {
    hide DirSets, AllTame, NodesOf;
    var dirs := DirsOf(v, n, rank);
    Rooted(dirs, rank, root);
    assert RootIsos([]) == [];
    VisitRoot(v, dirs, rank, rank[root], DirSets(v, root, n), [], max);
  }
}
