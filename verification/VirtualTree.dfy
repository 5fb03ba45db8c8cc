/** The main result about the virtual CD-ROM: the file tree it presents is the tree
    of the ISO file with exactly the two intended changes. */
module VirtualTree {
  import opened Bytes
  import opened IsoDirectory
  import opened IsoWalkers
  import opened Overlay
  import opened OverlayTree
  import opened VirtualVolume

  /** The file at `path`, read from the root directory `root` on. */
  function ReadFile(m: Medium, root: Dir, path: seq<seq<byte>>): Option<seq<byte>>
    requires path != []
  {
    match Resolve(m, root, path)
    case None => None
    case Some(r) => if r.IsDir() then None else Some(ExtentBytes(m, r.extent, r.size))
  }

  /** The root directory as the served descriptor announces it. */
  function RootView(o: Disc, v: Volume): Dir {
    (v.root.0, if o.premountEntry.Injected? && o.premountEntry.rootSize > 0 then o.premountEntry.rootSize else v.root.1)
  }

  // ── The volume descriptor ─────────────────────────────────────────────

  /** The served descriptor announces the extended volume and a root directory of the same extent
      and sector count, long enough for the injected record. */
  lemma ServedPvd(o: Disc, v: Volume, size: u32)
    requires v.WellFormed() && EditsOf(o, v, size)
    ensures View(o)(16).Some? && IsPvd(View(o)(16).value)
    ensures FromLe32(View(o)(16).value, 80) == o.lastBlock + 1
    ensures var root := PvdRoot(View(o)(16).value); root.0 == v.root.0 && Sectors(root.1) == Sectors(v.root.1)
    ensures PvdRoot(View(o)(16).value) == RootView(o, v)
    ensures o.premountEntry.Injected? ==>
              (o.premountEntry.sector - v.root.0) * 2048 + o.premountEntry.off + 46 <= PvdRoot(View(o)(16).value).1
  {
    forall d | d in v.dirs ensures !InDir(16, d) { assert v.DirOk(d); }
    if HasEdit(o, 16) { EditsInDirs(o, v, size, 16); }
    assert !o.premount.Holds(16) && !o.config.Holds(16);
    PatchedPvdFields(o, v.m(16).value);
  }

  lemma PatchedPvdFields(o: Disc, sec: Sector)
    requires IsPvd(sec) && o.lastBlock + 1 < 0x1_0000_0000
    ensures var t := PatchedPvd(o, sec);
            && IsPvd(t) && FromLe32(t, 80) == o.lastBlock + 1 && FromLe32(t, 158) == FromLe32(sec, 158)
            && FromLe32(t, 166) ==
               if o.premountEntry.Injected? && o.premountEntry.rootSize > 0 then o.premountEntry.rootSize
               else FromLe32(sec, 166)
  {
    hide Le32, Be32, FromLe32, VolumeLabel;
    var t := PatchedPvd(o, sec);
    assert t[1..6] == sec[1..6];
    assert t[80..84] == Le32(o.lastBlock + 1);
    Le32RoundTrip(o.lastBlock + 1, t, 80);
    assert t[158..162] == sec[158..162];
    FromLe32Slice(t, sec, 158, 158);
    if o.premountEntry.Injected? && o.premountEntry.rootSize > 0 {
      assert t[166..170] == Le32(o.premountEntry.rootSize);
      Le32RoundTrip(o.premountEntry.rootSize, t, 166);
    } else {
      assert t[166..170] == sec[166..170];
      FromLe32Slice(t, sec, 166, 166);
    }
  }

  // ── The tree ──────────────────────────────────────────────────────────

  /** A resolved record belongs to the edited list of some directory of the volume. */
  lemma {:induction false} ResolvedInListing(o: Disc, v: Volume, size: u32, d: Dir, path: seq<seq<byte>>)
    returns (e: Dir)
    requires v.WellFormed() && EditsOf(o, v, size) && d in v.dirs && path != []
    requires ResolveEdited(o, v, size, d, path).Some?
    ensures e in v.dirs && ResolveEdited(o, v, size, d, path).value in EditedListing(o, v, size, e)
    decreases |path|
  {
    hide Volume.WellFormed, EditsOf, EditedListing, Listing, EditRec, FirstNamed;
    var f := FirstNamed(EditedListing(o, v, size, d), path[0]);
    FirstNamedFinds(EditedListing(o, v, size, d), path[0]);
    if |path| == 1 { return d; }
    EditedListingOrigin(o, v, size, d, f.value);
    var x :| x in Listing(v.m, d) && f.value == EditRec(o, x);
    EditKeepsDirs(o, v, size, d, x);
    e := ResolvedInListing(o, v, size, (x.extent, x.size), path[1..]);
  }

  /** Reading any path through the virtual CD-ROM, whichever way the archive got its
      record: resolve it over the edited lists, then read what is expected there. */
  lemma TreeView(o: Disc, v: Volume, size: u32, path: seq<seq<byte>>)
    requires v.WellFormed() && EditsOf(o, v, size) && path != []
    ensures View(o)(16).Some?
    ensures ReadFile(View(o), PvdRoot(View(o)(16).value), path)
         == match ResolveEdited(o, v, size, v.root, path)
            case None => None
            case Some(r) => if r.IsDir() then None else Some(Expected(o, v, size, r))
  {
    hide Volume.WellFormed, EditsOf, ExtentBytes, Expected, View, PvdRoot;
    ServedPvd(o, v, size);
    var root := PvdRoot(View(o)(16).value);
    SameListing(View(o), root, v.root);
    ResolveFromSame(View(o), root, v.root, path);
    assert v.root in v.dirs by { RootIsDir(v); }
    ResolveView(o, v, size, v.root, path);
    var r := ResolveEdited(o, v, size, v.root, path);
    if r.Some? && !r.value.IsDir() {
      var e := ResolvedInListing(o, v, size, v.root, path);
      FileView(o, v, size, e, r.value);
    }
  }

  lemma RootIsDir(v: Volume)
    requires v.WellFormed()
    ensures v.root in v.dirs
  {
  }

  lemma SameListing(m: Medium, d: Dir, e: Dir)
    requires d.0 == e.0 && Sectors(d.1) == Sectors(e.1)
    ensures Listing(m, d) == Listing(m, e)
  {
  }

  lemma ResolveFromSame(m: Medium, d: Dir, e: Dir, path: seq<seq<byte>>)
    requires Listing(m, d) == Listing(m, e) && path != []
    ensures Resolve(m, d, path) == Resolve(m, e, path)
  {
  }

  // ── With an injected record: the tree of the ISO plus two changes ─────

  /** All but the last name of `path` lead from `d` to the root directory. */
  predicate ParentIsRoot(v: Volume, d: Dir, path: seq<seq<byte>>)
    requires path != []
    decreases |path|
  {
    if |path| == 1 then d == v.root
    else
      match FirstNamed(Listing(v.m, d), path[0])
      case None => false
      case Some(r) => r.IsDir() && ParentIsRoot(v, (r.extent, r.size), path[1..])
  }

  predicate ArchiveName(name: seq<byte>) { Upper(name) == PREMOUNT_NAME }

  lemma ArchiveNamed(r: Rec, name: seq<byte>)
    requires r.name == PREMOUNT_NAME
    ensures Named(r, name) <==> ArchiveName(name)
  {
    assert Upper(PREMOUNT_NAME) == PREMOUNT_NAME;
  }

  lemma {:induction false} FirstNamedEdited(o: Disc, rs: seq<Rec>, name: seq<byte>)
    requires !o.premountEntry.Replaced?
    ensures FirstNamed(EditList(o, rs), name)
         == match FirstNamed(rs, name) case None => None case Some(r) => Some(EditRec(o, r))
  {
    if rs != [] {
      hide EditRec, Named;
      assert Named(EditRec(o, rs[0]), name) == Named(rs[0], name) by { EditKeepsName(o, rs[0], name); }
      assert EditList(o, rs)[1..] == EditList(o, rs[1..]);
      FirstNamedEdited(o, rs[1..], name);
    }
  }

  lemma EditKeepsName(o: Disc, r: Rec, name: seq<byte>)
    requires !o.premountEntry.Replaced?
    ensures Named(EditRec(o, r), name) == Named(r, name)
  {
  }

  /** Resolution with an injected record: the original records, edited, and the
      archive where the root directory had no record of that name. */
  lemma {:induction false} ResolveInjected(o: Disc, v: Volume, size: u32, d: Dir, path: seq<seq<byte>>)
    requires v.WellFormed() && EditsOf(o, v, size) && d in v.dirs && path != [] && !o.premountEntry.Replaced?
    ensures ResolveEdited(o, v, size, d, path)
         == match Resolve(v.m, d, path)
            case Some(r) => Some(EditRec(o, r))
            case None =>
              if o.premountEntry.Injected? && ParentIsRoot(v, d, path) && ArchiveName(path[|path| - 1])
              then Some(PremountRec(o.premountEntry.sector, o.premountEntry.off, o.premount.sector % 0x1_0000_0000,
                                    size)) else None
    decreases |path|
  {
    hide Volume.WellFormed, EditsOf, Listing, EditRec, EditList, ArchiveName, Named;
    var rs := Listing(v.m, d);
    FirstNamedEdited(o, rs, path[0]);
    if o.premountEntry.Injected? && d == v.root {
      var extra := PremountRec(o.premountEntry.sector, o.premountEntry.off, o.premount.sector % 0x1_0000_0000, size);
      FirstNamedConcat(EditList(o, rs), [extra], path[0]);
      ArchiveNamed(extra, path[0]);
    } else {
      assert EditedListing(o, v, size, d) == EditList(o, rs);
    }
    var f := FirstNamed(rs, path[0]);
    if f.Some? {
      FirstNamedFinds(rs, path[0]);
      EditKeepsDirs(o, v, size, d, f.value);
      if |path| > 1 && f.value.IsDir() {
        ResolveInjected(o, v, size, (f.value.extent, f.value.size), path[1..]);
      }
    }
  }

  /** For every path: the rewritten config at the redirected record, the archive at
      /PREMOUNT.CPIO unless the image has a record of that name, and the original
      bytes of every other file. */
  lemma PatchedTree(o: Disc, v: Volume, size: u32, path: seq<seq<byte>>)
    requires v.WellFormed() && EditsOf(o, v, size) && path != [] && !o.premountEntry.Replaced?
    ensures View(o)(16).Some?
    ensures ReadFile(View(o), PvdRoot(View(o)(16).value), path)
         == match Resolve(v.m, v.root, path)
            case Some(r) =>
              if r.IsDir() then None
              else if IsConfig(o, r) then Some(ConfigText(o))
              else Some(ExtentBytes(v.m, r.extent, r.size))
            case None =>
              if o.premountEntry.Injected? && ParentIsRoot(v, v.root, path) && ArchiveName(path[|path| - 1])
              then Some(Archive(o, size)) else None
  {
    hide ExtentBytes, View, PvdRoot, ParentIsRoot, ArchiveName, Volume.WellFormed, EditsOf, Listing, EditedListing,
         EditRec, Expected, IsConfig, Archive, ConfigText, Resolve, ResolveEdited, ReadFile;
    TreeView(o, v, size, path);
    RootIsDir(v);
    ResolveInjected(o, v, size, v.root, path);
    var r := Resolve(v.m, v.root, path);
    if r.Some? {
      var e := ResolvedOriginal(v, v.root, path);
      EditKeepsDirs(o, v, size, e, r.value);
      ExpectedOriginal(o, v, size, e, r.value);
    } else if o.premountEntry.Injected? {
      ExpectedArchive(o, v, size);
    }
  }

  lemma ExpectedOriginal(o: Disc, v: Volume, size: u32, d: Dir, x: Rec)
    requires v.WellFormed() && EditsOf(o, v, size) && d in v.dirs && x in Listing(v.m, d) && !o.premountEntry.Replaced?
    ensures Expected(o, v, size, EditRec(o, x)) == if IsConfig(o, x) then ConfigText(o)
                                                   else ExtentBytes(v.m, x.extent, x.size)
  {
    NotInjected(o, v, size, d, x);
    hide Volume.WellFormed, EditsOf, ExtentBytes, Listing;
  }

  lemma ExpectedArchive(o: Disc, v: Volume, size: u32)
    requires o.premountEntry.Injected?
    ensures Expected(o, v, size,
                     PremountRec(o.premountEntry.sector, o.premountEntry.off, o.premount.sector % 0x1_0000_0000,
                                 size)) == Archive(o, size)
  {
  }

  lemma {:induction false} ResolvedOriginal(v: Volume, d: Dir, path: seq<seq<byte>>) returns (e: Dir)
    requires v.WellFormed() && d in v.dirs && path != [] && Resolve(v.m, d, path).Some?
    ensures e in v.dirs && Resolve(v.m, d, path).value in Listing(v.m, e)
    decreases |path|
  {
    var f := FirstNamed(Listing(v.m, d), path[0]);
    FirstNamedFinds(Listing(v.m, d), path[0]);
    if |path| == 1 { return d; }
    e := ResolvedOriginal(v, (f.value.extent, f.value.size), path[1..]);
  }

  /** An injected archive resolves at /PREMOUNT.CPIO if and only if the image has no
      root record of that name: the injected record comes last. */
  lemma ArchiveVisibleIff(o: Disc, v: Volume, size: u32)
    requires v.WellFormed() && EditsOf(o, v, size) && o.premountEntry.Injected?
    ensures (ResolveEdited(o, v, size, v.root, [PREMOUNT_NAME])
              == Some(PremountRec(o.premountEntry.sector, o.premountEntry.off, o.premount.sector % 0x1_0000_0000,
                                  size)))
       <==> Resolve(v.m, v.root, [PREMOUNT_NAME]) == None
  {
    hide Volume.WellFormed, EditsOf, Listing, EditRec, ResolveEdited, Resolve;
    RootIsDir(v);
    ResolveInjected(o, v, size, v.root, [PREMOUNT_NAME]);
    assert Upper(PREMOUNT_NAME) == PREMOUNT_NAME;
    var r := Resolve(v.m, v.root, [PREMOUNT_NAME]);
    if r.Some? {
      var e := ResolvedOriginal(v, v.root, [PREMOUNT_NAME]);
      NotInjected(o, v, size, e, r.value);
      EditKeepsPlace(o, r.value);
    }
  }

  lemma EditKeepsPlace(o: Disc, r: Rec)
    ensures EditRec(o, r).sector == r.sector && EditRec(o, r).off == r.off
  {
  }

  // ── With a reused record: the victim becomes the archive ──────────────

  /** The first record of that name when the record at `t` goes by the archive's name. */
  function FirstReused(rs: seq<Rec>, t: Redirect, name: seq<byte>): (r: Option<Rec>)
    ensures r.Some? ==> r.value in rs
  {
    if rs == [] then None
    else if (if At(rs[0], t) then ArchiveName(name) else Named(rs[0], name)) then Some(rs[0])
    else FirstReused(rs[1..], t, name)
  }

  /** Path resolution in the original directories with that one record renamed. */
  function ResolveReused(v: Volume, t: Redirect, d: Dir, path: seq<seq<byte>>): Option<Rec>
    requires path != []
    decreases |path|
  {
    match FirstReused(Listing(v.m, d), t, path[0])
    case None => None
    case Some(r) =>
      if |path| == 1 then Some(r) else if r.IsDir() then ResolveReused(v, t, (r.extent, r.size), path[1..]) else None
  }

  lemma EditedName(o: Disc, r: Rec, name: seq<byte>)
    requires o.premountEntry.Replaced?
    ensures Named(EditRec(o, r), name) == if At(r, o.premountEntry.target) then ArchiveName(name) else Named(r, name)
  {
    if At(r, o.premountEntry.target) { ArchiveNamed(EditRec(o, r), name); }
  }

  lemma {:induction false} FirstNamedRenamed(o: Disc, rs: seq<Rec>, name: seq<byte>)
    requires o.premountEntry.Replaced?
    ensures FirstNamed(EditList(o, rs), name)
         == match FirstReused(rs, o.premountEntry.target, name) case None => None case Some(r) => Some(EditRec(o, r))
  {
    hide ArchiveName, Named, EditRec;
    if rs != [] {
      EditedName(o, rs[0], name);
      assert EditList(o, rs)[1..] == EditList(o, rs[1..]);
      FirstNamedRenamed(o, rs[1..], name);
    }
  }

  /** With a reused record, paths resolve as in the original directories with that
      record renamed. */
  lemma {:induction false} ResolveReplaced(o: Disc, v: Volume, size: u32, d: Dir, path: seq<seq<byte>>)
    requires v.WellFormed() && EditsOf(o, v, size) && d in v.dirs && path != [] && o.premountEntry.Replaced?
    ensures ResolveEdited(o, v, size, d, path)
         == match ResolveReused(v, o.premountEntry.target, d,
                                path) case None => None case Some(r) => Some(EditRec(o, r))
    decreases |path|
  {
    hide Volume.WellFormed, EditsOf, Listing, EditRec, EditList, ArchiveName, Named, FirstNamed;
    var rs := Listing(v.m, d);
    var f := FirstReused(rs, o.premountEntry.target, path[0]);
    FirstNamedRenamed(o, rs, path[0]);
    assert EditedListing(o, v, size, d) == EditList(o, rs);
    if f.Some? {
      EditKeepsDirs(o, v, size, d, f.value);
      if |path| > 1 && f.value.IsDir() {
        ResolveReplaced(o, v, size, (f.value.extent, f.value.size), path[1..]);
      }
    }
  }

  lemma {:induction false} ReusedInListing(v: Volume, t: Redirect, d: Dir, path: seq<seq<byte>>) returns (e: Dir)
    requires v.WellFormed() && d in v.dirs && path != [] && ResolveReused(v, t, d, path).Some?
    ensures e in v.dirs && ResolveReused(v, t, d, path).value in Listing(v.m, e)
    decreases |path|
  {
    hide Listing, ArchiveName, Named;
    var r := FirstReused(Listing(v.m, d), t, path[0]).value;
    e := d;
    if |path| > 1 { e := ReusedInListing(v, t, (r.extent, r.size), path[1..]); }
  }

  lemma DirNotReused(o: Disc, v: Volume, size: u32, d: Dir, x: Rec)
    requires v.WellFormed() && EditsOf(o, v, size) && d in v.dirs && x in Listing(v.m, d) && x.IsDir() &&
             o.premountEntry.Replaced?
    ensures !At(x, o.premountEntry.target)
  {
    DirRecsSound(v.m, d.0, 0, Sectors(d.1), x);
  }

  /** With a reused record, for every path: the record's place reads as the archive, under
      the archive's name alone; everything else reads as before (or as the rewritten config). */
  lemma ReusedTree(o: Disc, v: Volume, size: u32, path: seq<seq<byte>>)
    requires v.WellFormed() && EditsOf(o, v, size) && path != [] && o.premountEntry.Replaced?
    ensures View(o)(16).Some?
    ensures ReadFile(View(o), PvdRoot(View(o)(16).value), path)
         == match ResolveReused(v, o.premountEntry.target, v.root, path)
            case None => None
            case Some(r) =>
              if r.IsDir() then None
              else if At(r, o.premountEntry.target) then Some(Archive(o, size))
              else if IsConfig(o, r) then Some(ConfigText(o))
              else Some(ExtentBytes(v.m, r.extent, r.size))
  {
    hide ExtentBytes, View, PvdRoot, Volume.WellFormed, EditsOf, Listing, EditedListing, EditRec, Expected, IsConfig,
         ConfigText, ResolveReused, ResolveEdited, ReadFile, Archive;
    TreeView(o, v, size, path);
    RootIsDir(v);
    ResolveReplaced(o, v, size, v.root, path);
    var r := ResolveReused(v, o.premountEntry.target, v.root, path);
    if r.Some? {
      var e := ReusedInListing(v, o.premountEntry.target, v.root, path);
      EditKeepsDirs(o, v, size, e, r.value);
      ExpectedReused(o, v, size, r.value);
    }
  }

  lemma ExpectedReused(o: Disc, v: Volume, size: u32, x: Rec)
    requires o.premountEntry.Replaced?
    ensures Expected(o, v, size, EditRec(o, x))
         == if At(x, o.premountEntry.target) then Archive(o, size)
            else if IsConfig(o, x) then ConfigText(o) else ExtentBytes(v.m, x.extent, x.size)
  {
    EditKeepsPlace(o, x);
  }

  /** Paths without the archive's name that led to another record than the reused one
      still lead there. */
  lemma {:induction false} ReusedKeepsPaths(o: Disc, v: Volume, size: u32, d: Dir, path: seq<seq<byte>>)
    requires v.WellFormed() && EditsOf(o, v, size) && d in v.dirs && path != [] && o.premountEntry.Replaced?
    requires forall i :: 0 <= i < |path| ==> !ArchiveName(path[i])
    requires Resolve(v.m, d, path).Some? && !At(Resolve(v.m, d, path).value, o.premountEntry.target)
    ensures ResolveReused(v, o.premountEntry.target, d, path) == Resolve(v.m, d, path)
    decreases |path|
  {
    hide Volume.WellFormed, EditsOf, Listing, EditRec, ArchiveName, Named, FirstNamed;
    var f := FirstNamed(Listing(v.m, d), path[0]);
    FirstNamedFinds(Listing(v.m, d), path[0]);
    EditKeepsDirs(o, v, size, d, f.value);
    if |path| > 1 { DirNotReused(o, v, size, d, f.value); }
    FirstUnused(Listing(v.m, d), o.premountEntry.target, path[0]);
    if |path| > 1 { ReusedKeepsPaths(o, v, size, (f.value.extent, f.value.size), path[1..]); }
  }

  lemma {:induction false} FirstUnused(rs: seq<Rec>, t: Redirect, name: seq<byte>)
    requires !ArchiveName(name) && (FirstNamed(rs, name).Some? ==> !At(FirstNamed(rs, name).value, t))
    ensures FirstReused(rs, t, name) == FirstNamed(rs, name)
  {
    hide ArchiveName, Named;
    if rs != [] && !Named(rs[0], name) { FirstUnused(rs[1..], t, name); }
  }

  lemma {:induction false} ChainInRecs(sec: Sector, sector: nat, off: nat, p: nat)
    requires OnChain(sec, off, p) && ValidRecord(sec, p)
    ensures RecAt(sec, sector, p) in RecsFrom(sec, sector, off)
    decreases 2048 - off
  {
    hide RecAt;
    if p != off { ChainInRecs(sec, sector, off + sec[off], p); }
  }

  lemma {:induction false} RecsInDir(m: Medium, lba: nat, s: nat, total: nat, b: nat, r: Rec)
    requires lba + s <= b < lba + total && forall c :: lba <= c < lba + total ==> m(c).Some?
    requires r in RecsFrom(m(b).value, b, 0)
    ensures r in DirRecs(m, lba, s, total)
    decreases total - s
  {
    hide RecsFrom;
    if b != lba + s { RecsInDir(m, lba, s + 1, total, b, r); }
  }

  lemma {:induction false} FirstArchive(o: Disc, rs: seq<Rec>, x: Rec)
    requires o.premountEntry.Replaced? && FirstNamed(rs, PREMOUNT_NAME).None? && x in rs &&
             At(x, o.premountEntry.target)
    ensures var f := FirstNamed(EditList(o, rs), PREMOUNT_NAME);
            f.Some? && At(f.value, o.premountEntry.target)
  {
    assert Upper(PREMOUNT_NAME) == PREMOUNT_NAME;
    assert EditList(o, rs)[1..] == EditList(o, rs[1..]);
    if At(rs[0], o.premountEntry.target) {
      ArchiveNamed(EditRec(o, rs[0]), PREMOUNT_NAME);
    } else {
      hide Named;
      FirstArchive(o, rs[1..], x);
    }
  }

  /** With a reused record, /PREMOUNT.CPIO reads as the archive whenever the image
      has no root record of that name. */
  lemma ReusedArchive(o: Disc, v: Volume, size: u32)
    requires v.WellFormed() && EditsOf(o, v, size) && o.premountEntry.Replaced?
    requires FirstNamed(Listing(v.m, v.root), PREMOUNT_NAME).None?
    ensures View(o)(16).Some?
    ensures ReadFile(View(o), PvdRoot(View(o)(16).value), [PREMOUNT_NAME]) == Some(Archive(o, size))
  {
    TreeView(o, v, size, [PREMOUNT_NAME]);
    ReusedInRoot(o, v, size);
    hide View, ExtentBytes, EditsOf, Volume.WellFormed, PvdRoot, ReadFile, Listing, EditList;
    RootIsDir(v);
    var rs := EditList(o, Listing(v.m, v.root));
    var f := FirstNamed(rs, PREMOUNT_NAME);
    assert EditedListing(o, v, size, v.root) == rs;
    FirstNamedFinds(rs, PREMOUNT_NAME);
    EditedListingOrigin(o, v, size, v.root, f.value);
    var y :| y in Listing(v.m, v.root) && f.value == EditRec(o, y);
    EditKeepsDirs(o, v, size, v.root, y);
    EditKeepsPlace(o, y);
    if y.IsDir() { DirNotReused(o, v, size, v.root, y); }
  }

  lemma ReusedInRoot(o: Disc, v: Volume, size: u32)
    requires v.WellFormed() && EditsOf(o, v, size) && o.premountEntry.Replaced?
    requires FirstNamed(Listing(v.m, v.root), PREMOUNT_NAME).None?
    ensures var f := FirstNamed(EditList(o, Listing(v.m, v.root)), PREMOUNT_NAME);
            f.Some? && At(f.value, o.premountEntry.target)
  {
    hide FirstNamed, EditList, RecsFrom, Tiled, Volume.FileOk;
    var t := o.premountEntry.target;
    var sec := v.m(t.sector).value;
    var x := RecAt(sec, t.sector, t.off);
    assert v.DirOk(v.root);
    ChainInRecs(sec, t.sector, 0, t.off);
    RecsInDir(v.m, v.root.0, 0, Sectors(v.root.1), t.sector, x);
    FirstArchive(o, Listing(v.m, v.root), x);
  }
}
