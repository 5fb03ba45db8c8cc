/** Files and directories read through the virtual CD-ROM, against those of the
    ISO file itself. */
module VirtualVolume {
  import opened Bytes
  import opened IsoDirectory
  import opened IsoWalkers
  import opened Overlay
  import opened OverlayTree

  type Dir = (u32, u32)

  predicate InDir(b: nat, d: Dir) { d.0 <= b < d.0 + Sectors(d.1) }

  /** The records of a whole directory. */
  function Listing(m: Medium, d: Dir): seq<Rec> { DirRecs(m, d.0, 0, Sectors(d.1)) }

  /** A well-formed ISO 9660 image of `blocks` blocks: `dirs` are its directories. */
  datatype Volume = Volume(m: Medium, blocks: nat, root: Dir, dirs: set<Dir>) {

    predicate DirOk(d: Dir) { WellFormedDir(m, d.0, d.1) && 16 < d.0 && d.0 + Sectors(d.1) <= blocks }

    /** A file extent: readable blocks of the image that hold no directory and no descriptor. */
    predicate FileOk(extent: nat, size: nat) {
      forall b :: extent <= b < extent + Sectors(size) ==>
        16 < b < blocks && m(b).Some? && forall d :: d in dirs ==> !InDir(b, d)
    }

    ghost predicate WellFormed() {
      && m(16).Some? && IsPvd(m(16).value) && PvdRoot(m(16).value) == root && 16 < blocks
      && root in dirs
      && (forall d :: d in dirs ==> DirOk(d))
      && (forall d, e, b :: d in dirs && e in dirs && InDir(b, d) && InDir(b, e) ==> d == e)
      && (forall d, r :: d in dirs && r in Listing(m, d) ==>
          if r.IsDir() then (r.extent, r.size) in dirs else FileOk(r.extent, r.size))
    }
  }

  /** Blocks 0..lastBlock are the image and behind it the memory files, in either order. */
  predicate Tiled(o: Disc, blocks: nat) {
    && o.config.Filled() && o.premount.Filled()
    && blocks + o.premount.sectors + o.config.sectors == o.lastBlock + 1 < 0x1_0000_0000
    && (|| (o.premount.StartsAt(blocks) && o.config.StartsAt(blocks + o.premount.sectors))
        || (o.config.StartsAt(blocks) && o.premount.StartsAt(blocks + o.config.sectors)))
  }

  /** Every block belongs to the image or to exactly one memory file, and there is no other. */
  lemma TilesEveryBlock(o: Disc, blocks: nat, b: nat)
    requires Tiled(o, blocks)
    ensures b < blocks ==> b <= o.lastBlock && !o.premount.Holds(b) && !o.config.Holds(b)
    ensures blocks <= b <= o.lastBlock ==> o.premount.Holds(b) != o.config.Holds(b)
    ensures o.lastBlock < b ==> !o.premount.Holds(b) && !o.config.Holds(b)
  {
  }

  /** The edits of the overlay are those the premount and config steps make on volume `v`. */
  ghost predicate EditsOf(o: Disc, v: Volume, size: u32) {
    && o.raw == v.m && Tiled(o, v.blocks)
    && (o.configEntry.Some? ==>
          var c := o.configEntry.value;
          && (exists d :: d in v.dirs && InDir(c.sector, d)) && v.m(c.sector).Some?
          && OnChain(v.m(c.sector).value, 0, c.off) && ValidRecord(v.m(c.sector).value, c.off)
          && !RecAt(v.m(c.sector).value, c.sector, c.off).IsDir()
          && o.config.sector == c.extent && c.size <= |o.config.buf| && Sectors(c.size) <= o.config.sectors)
    && (!o.premountEntry.NoSlot? ==> size <= |o.premount.buf| && Sectors(size) <= o.premount.sectors)
    && (o.premountEntry.Injected? ==>
          var p := o.premountEntry;
          && p.sector + 1 == v.root.0 + Sectors(v.root.1) && v.m(p.sector).Some?
          && p.off == ChainEnd(v.m(p.sector).value, 0) && p.off + 47 <= 2048
          && p.blob == PremountBlob(o.premount.sector % 0x1_0000_0000, size)
          && Sectors(p.rootSize) == Sectors(v.root.1)
          && (Sectors(v.root.1) - 1) * 2048 + p.off + 46 <= p.rootSize)
    && (o.premountEntry.Replaced? ==>
          var t := o.premountEntry.target;
          && InDir(t.sector, v.root) && v.m(t.sector).Some?
          && OnChain(v.m(t.sector).value, 0, t.off) && ValidRecord(v.m(t.sector).value, t.off)
          && v.m(t.sector).value[t.off] >= 46
          && !RecAt(v.m(t.sector).value, t.sector, t.off).IsDir()
          && t.extent == o.premount.sector && t.size == size
          && !(o.configEntry.Some? && o.configEntry.value.sector == t.sector && o.configEntry.value.off == t.off))
  }

  /** The record list of directory `d` after the edits. */
  function EditedListing(o: Disc, v: Volume, size: u32, d: Dir): seq<Rec> {
    EditList(o, Listing(v.m, d))
    + if o.premountEntry.Injected? && d == v.root
      then [PremountRec(o.premountEntry.sector, o.premountEntry.off, o.premount.sector % 0x1_0000_0000, size)] else []
  }

  // ── Blocks ────────────────────────────────────────────────────────────

  /** Every edit lies in a directory sector. */
  lemma EditsInDirs(o: Disc, v: Volume, size: u32, b: nat)
    requires v.WellFormed() && EditsOf(o, v, size) && HasEdit(o, b)
    ensures exists d :: d in v.dirs && InDir(b, d)
  {
    hide Volume.FileOk, Listing, Tiled, OnChain;
    if !(o.configEntry.Some? && o.configEntry.value.sector == b) {
      assert v.DirOk(v.root);
      assert InDir(b, v.root);
    }
  }

  /** A directory sector is served from the image, with its edits. */
  lemma ServedDirSector(o: Disc, v: Volume, size: u32, d: Dir, b: nat)
    requires v.WellFormed() && EditsOf(o, v, size) && d in v.dirs && InDir(b, d)
    ensures v.m(b).Some? && View(o)(b) == Some(Edited(o, b, v.m(b).value))
    ensures GoodEdits(o, b, v.m(b).value, size)
  {
    assert v.DirOk(d) && v.DirOk(v.root);
  }

  /** Any other block of the image but the volume descriptor is served unchanged. */
  lemma ServedPlainBlock(o: Disc, v: Volume, size: u32, b: nat)
    requires v.WellFormed() && EditsOf(o, v, size) && b < v.blocks && b != 16 &&
             forall d :: d in v.dirs ==> !InDir(b, d)
    ensures View(o)(b) == v.m(b)
  {
    if HasEdit(o, b) { EditsInDirs(o, v, size, b); }
  }

  // ── Directories ───────────────────────────────────────────────────────

  /** The injected record sits in the last sector of the root directory. */
  function Tail(o: Disc, v: Volume, size: u32, d: Dir, s: nat): seq<Rec> {
    if o.premountEntry.Injected? && d == v.root && s < Sectors(d.1)
    then [PremountRec(o.premountEntry.sector, o.premountEntry.off, o.premount.sector % 0x1_0000_0000, size)] else []
  }

  lemma TailStep(o: Disc, v: Volume, size: u32, d: Dir, s: nat)
    requires v.WellFormed() && EditsOf(o, v, size) && d in v.dirs && s < Sectors(d.1)
    ensures Tail(o, v, size, d, s) == Extra(o, d.0 + s, size) + Tail(o, v, size, d, s + 1)
    ensures Tail(o, v, size, d, s + 1) != [] ==> Extra(o, d.0 + s, size) == []
    ensures Extra(o, d.0 + s, size) != [] ==> s + 1 == Sectors(d.1)
  {
    hide Tiled, Volume.FileOk, Listing, OnChain, ChainEnd;
    assert v.DirOk(v.root) && InDir(d.0 + s, d);
    assert o.premountEntry.Injected? && o.premountEntry.sector == d.0 + s ==> InDir(d.0 + s, v.root);
  }

  lemma {:induction false} DirRecsView(o: Disc, v: Volume, size: u32, d: Dir, s: nat)
    requires v.WellFormed() && EditsOf(o, v, size) && d in v.dirs && s <= Sectors(d.1)
    ensures DirRecs(View(o), d.0, s, Sectors(d.1)) ==
            EditList(o, DirRecs(v.m, d.0, s, Sectors(d.1))) + Tail(o, v, size, d, s)
    decreases Sectors(d.1) - s
  {
    hide Edited, RecsFrom, EditsOf, Volume.WellFormed, EditList, Tail, Extra, Sectors;
    var b, total := d.0 + s, Sectors(d.1);
    if s < total {
      ServedDirSector(o, v, size, d, b);
      var recs, later := RecsFrom(v.m(b).value, b, 0), DirRecs(v.m, d.0, s + 1, total);
      SectorRecs(o, b, v.m(b).value, size);
      DirRecsView(o, v, size, d, s + 1);
      EditListConcat(o, recs, later);
      TailStep(o, v, size, d, s);
      assert Extra(o, b, size) != [] ==> later == [] && EditList(o, later) == [];
      assert EditList(o, recs) + Extra(o, b, size) + (EditList(o, later) + Tail(o, v, size, d, s + 1))
          == EditList(o, recs + later) + Tail(o, v, size, d, s);
    } else {
      assert EditList(o, []) == [];
      TailEnd(o, v, size, d, s);
    }
  }

  lemma TailEnd(o: Disc, v: Volume, size: u32, d: Dir, s: nat)
    requires s >= Sectors(d.1)
    ensures Tail(o, v, size, d, s) == []
  {
  }

  /** Through the virtual CD-ROM a directory holds its edited records and, if it is
      the root, the injected one; its sector count is unchanged. */
  lemma ListingView(o: Disc, v: Volume, size: u32, d: Dir)
    requires v.WellFormed() && EditsOf(o, v, size) && d in v.dirs
    ensures Listing(View(o), d) == EditedListing(o, v, size, d)
  {
    assert v.DirOk(d);
    DirRecsView(o, v, size, d, 0);
  }

  lemma {:induction false} DirRecsSound(m: Medium, lba: nat, s: nat, total: nat, r: Rec)
    requires r in DirRecs(m, lba, s, total)
    ensures lba <= r.sector < lba + total && m(r.sector).Some?
    ensures ValidRecord(m(r.sector).value, r.off) && r == RecAt(m(r.sector).value, r.sector, r.off)
    decreases total - s
  {
    hide RecsFrom, RecAt, ValidRecord, OnChain;
    if m(lba + s).Some? {
      RecsBeyond(m(lba + s).value, lba + s, 0);
      RecsSector(m(lba + s).value, lba + s, 0);
      if r !in RecsFrom(m(lba + s).value, lba + s, 0) { DirRecsSound(m, lba, s + 1, total, r); }
    }
  }

  /** Directories are never edited: an edited record that is a directory is an original one. */
  lemma EditKeepsDirs(o: Disc, v: Volume, size: u32, d: Dir, x: Rec)
    requires v.WellFormed() && EditsOf(o, v, size) && d in v.dirs && x in Listing(v.m, d)
    ensures EditRec(o, x).IsDir() == x.IsDir()
    ensures x.IsDir() ==> EditRec(o, x) == x && (x.extent, x.size) in v.dirs
  {
    DirRecsSound(v.m, d.0, 0, Sectors(d.1), x);
  }

  // ── Paths ─────────────────────────────────────────────────────────────

  function Resolve(m: Medium, d: Dir, path: seq<seq<byte>>): Option<Rec>
    requires path != []
    decreases |path|
  {
    match FirstNamed(Listing(m, d), path[0])
    case None => None
    case Some(r) =>
      if |path| == 1 then Some(r) else if r.IsDir() then Resolve(m, (r.extent, r.size), path[1..]) else None
  }

  /** Path resolution over the edited record lists. */
  function ResolveEdited(o: Disc, v: Volume, size: u32, d: Dir, path: seq<seq<byte>>): Option<Rec>
    requires path != []
    decreases |path|
  {
    match FirstNamed(EditedListing(o, v, size, d), path[0])
    case None => None
    case Some(r) =>
      if |path| == 1 then Some(r) else if r.IsDir() then ResolveEdited(o, v, size, (r.extent, r.size), path[1..])
      else None
  }

  lemma {:induction false} FirstNamedFinds(rs: seq<Rec>, name: seq<byte>)
    ensures var r := FirstNamed(rs, name);
            if r.Some? then r.value in rs && Named(r.value, name) else forall x :: x in rs ==> !Named(x, name)
  {
    hide Named;
    if rs != [] && !Named(rs[0], name) { FirstNamedFinds(rs[1..], name); }
  }

  /** A record of the edited list is the injected one or the edit of an original one. */
  lemma EditedListingOrigin(o: Disc, v: Volume, size: u32, d: Dir, r: Rec)
    requires r in EditedListing(o, v, size, d)
    ensures (o.premountEntry.Injected? && d == v.root
              && r == PremountRec(o.premountEntry.sector, o.premountEntry.off, o.premount.sector % 0x1_0000_0000, size))
         || exists x :: x in Listing(v.m, d) && r == EditRec(o, x)
  {
    hide EditRec, Listing;
    var l := Listing(v.m, d);
    var i :| 0 <= i < |EditedListing(o, v, size, d)| && EditedListing(o, v, size, d)[i] == r;
    if i < |l| { assert l[i] in l && r == EditRec(o, l[i]); }
  }

  /** Paths resolve through the virtual CD-ROM as they do over the edited lists. */
  lemma {:induction false} ResolveView(o: Disc, v: Volume, size: u32, d: Dir, path: seq<seq<byte>>)
    requires v.WellFormed() && EditsOf(o, v, size) && d in v.dirs && path != []
    ensures Resolve(View(o), d, path) == ResolveEdited(o, v, size, d, path)
    decreases |path|
  {
    hide Volume.WellFormed, EditsOf, EditedListing, Listing, EditRec, FirstNamed;
    ListingView(o, v, size, d);
    var f := FirstNamed(EditedListing(o, v, size, d), path[0]);
    FirstNamedFinds(EditedListing(o, v, size, d), path[0]);
    if f.Some? && |path| > 1 && f.value.IsDir() {
      EditedListingOrigin(o, v, size, d, f.value);
      var x :| x in Listing(v.m, d) && f.value == EditRec(o, x);
      EditKeepsDirs(o, v, size, d, x);
      ResolveView(o, v, size, (x.extent, x.size), path[1..]);
    }
  }

  // ── File contents ─────────────────────────────────────────────────────

  /** The bytes of an extent, up to its length or the first unreadable block. */
  function ExtentBytes(m: Medium, lba: nat, size: nat): (r: seq<byte>)
    ensures |r| <= size
    decreases size
  {
    if size == 0 then [] else
    match m(lba)
    case None => []
    case Some(sec) => if size <= 2048 then sec[..size] else sec + ExtentBytes(m, lba + 1, size - 2048)
  }

  lemma {:induction false} SameExtent(m: Medium, w: Medium, lba: nat, size: nat)
    requires forall b :: lba <= b < lba + Sectors(size) ==> m(b) == w(b)
    ensures ExtentBytes(m, lba, size) == ExtentBytes(w, lba, size)
    decreases size
  {
    if size > 2048 { SameExtent(m, w, lba + 1, size - 2048); }
  }

  lemma {:induction false} MemoryExtent(m: Medium, f: MemFile, k: nat, size: nat)
    requires f.Filled() && k + Sectors(size) <= f.sectors
    requires forall b :: f.Holds(b) ==> m(b) == ServeMemory(f, b)
    ensures k * 2048 + size <= |f.buf|
    ensures ExtentBytes(m, f.sector + k, size) == f.buf[k * 2048..k * 2048 + size]
    decreases size
  {
    if size > 0 {
      assert f.Holds(f.sector + k);
      if size > 2048 { MemoryExtent(m, f, k + 1, size - 2048); }
    }
  }

  predicate IsArchive(o: Disc, r: Rec) {
    match o.premountEntry
    case NoSlot => false
    case Injected(sector, off, _, _) => r.sector == sector && r.off == off
    case Replaced(t) => At(r, t)
  }

  predicate IsConfig(o: Disc, r: Rec) { o.configEntry.Some? && At(r, o.configEntry.value) }

  function Archive(o: Disc, size: u32): seq<byte> { if size <= |o.premount.buf| then o.premount.buf[..size] else [] }

  function ConfigText(o: Disc): seq<byte> {
    if o.configEntry.Some? && o.configEntry.value.size <= |o.config.buf| then o.config.buf[..o.configEntry.value.size]
    else []
  }

  /** What a file record of the edited tree must read as. */
  function Expected(o: Disc, v: Volume, size: u32, r: Rec): seq<byte> {
    if IsArchive(o, r) then Archive(o, size)
    else if IsConfig(o, r) then ConfigText(o)
    else ExtentBytes(v.m, r.extent, r.size)
  }

  lemma MemoryView(o: Disc, v: Volume, size: u32, b: nat)
    requires v.WellFormed() && EditsOf(o, v, size)
    ensures o.premount.Holds(b) ==> View(o)(b) == ServeMemory(o.premount, b)
    ensures o.config.Holds(b) ==> View(o)(b) == ServeMemory(o.config, b)
  {
    if HasEdit(o, b) {
      EditsInDirs(o, v, size, b);
      var d :| d in v.dirs && InDir(b, d);
      assert v.DirOk(d);
    }
  }

  lemma ArchiveBytes(o: Disc, v: Volume, size: u32)
    requires v.WellFormed() && EditsOf(o, v, size) && !o.premountEntry.NoSlot?
    ensures ExtentBytes(View(o), o.premount.sector, size) == Archive(o, size)
  {
    forall b | o.premount.Holds(b) ensures View(o)(b) == ServeMemory(o.premount, b) { MemoryView(o, v, size, b); }
    hide Volume.WellFormed, ServeMemory;
    MemoryExtent(View(o), o.premount, 0, size);
  }

  lemma ConfigBytes(o: Disc, v: Volume, size: u32)
    requires v.WellFormed() && EditsOf(o, v, size) && o.configEntry.Some?
    ensures ExtentBytes(View(o), o.configEntry.value.extent, o.configEntry.value.size) == ConfigText(o)
  {
    forall b | o.config.Holds(b) ensures View(o)(b) == ServeMemory(o.config, b) { MemoryView(o, v, size, b); }
    hide Volume.WellFormed, ServeMemory;
    MemoryExtent(View(o), o.config, 0, o.configEntry.value.size);
  }

  lemma OriginalBytes(o: Disc, v: Volume, size: u32, extent: nat, len: nat)
    requires v.WellFormed() && EditsOf(o, v, size) && v.FileOk(extent, len)
    ensures ExtentBytes(View(o), extent, len) == ExtentBytes(v.m, extent, len)
  {
    forall b | extent <= b < extent + Sectors(len) ensures View(o)(b) == v.m(b) {
      assert v.m(b).Some?;
      ServedPlainBlock(o, v, size, b);
    }
    hide *;
    SameExtent(View(o), v.m, extent, len);
  }

  lemma ArchiveSectorFits(o: Disc, v: Volume, size: u32)
    requires EditsOf(o, v, size) && o.premountEntry.Injected? && size > 0
    ensures o.premount.sector % 0x1_0000_0000 == o.premount.sector
  {
    assert o.premount.Holds(o.premount.sector);
  }

  lemma ReplacedTarget(o: Disc, v: Volume, size: u32)
    requires EditsOf(o, v, size) && o.premountEntry.Replaced?
    ensures o.premountEntry.target.extent == o.premount.sector && o.premountEntry.target.size == size
  {
  }

  lemma FileOfDir(v: Volume, d: Dir, x: Rec)
    requires v.WellFormed() && d in v.dirs && x in Listing(v.m, d) && !x.IsDir()
    ensures v.FileOk(x.extent, x.size)
  {
    hide Listing, Volume.FileOk, Volume.DirOk;
  }

  /** Where an edited record points: to the archive, to the rewritten config, or where it did. */
  lemma EditedPlace(o: Disc, x: Rec)
    requires o.premountEntry.Injected? ==> !IsArchive(o, x)
    ensures var r := EditRec(o, x);
            && IsArchive(o, r) == IsArchive(o, x) && IsConfig(o, r) == IsConfig(o, x)
            && (r.extent, r.size) ==
               (if IsArchive(o, x) then (o.premountEntry.target.extent, o.premountEntry.target.size)
                                      else if IsConfig(o, x) then (o.configEntry.value.extent, o.configEntry.value.size)
                                      else (x.extent, x.size))
  {
  }

  lemma EditedFile(o: Disc, v: Volume, size: u32, d: Dir, x: Rec)
    requires v.WellFormed() && EditsOf(o, v, size) && d in v.dirs && x in Listing(v.m, d) && !x.IsDir()
    ensures var r := EditRec(o, x); ExtentBytes(View(o), r.extent, r.size) == Expected(o, v, size, r)
  {
    hide EditRec, IsConfig, View, Volume.WellFormed, EditsOf, ExtentBytes, Listing, Archive, ConfigText;
    NotInjected(o, v, size, d, x);
    EditedPlace(o, x);
    if IsArchive(o, x) {
      ReplacedTarget(o, v, size);
      ArchiveBytes(o, v, size);
    } else if IsConfig(o, x) {
      ConfigOnly(o, x);
      ConfigBytes(o, v, size);
    } else {
      FileOfDir(v, d, x);
      OriginalBytes(o, v, size, x.extent, x.size);
    }
  }

  lemma ConfigOnly(o: Disc, x: Rec)
    requires IsConfig(o, x)
    ensures o.configEntry.Some?
  {
  }

  /** An original record never lies where the archive's record is injected. */
  lemma NotInjected(o: Disc, v: Volume, size: u32, d: Dir, x: Rec)
    requires v.WellFormed() && EditsOf(o, v, size) && d in v.dirs && x in Listing(v.m, d)
    ensures o.premountEntry.Injected? ==> !IsArchive(o, x)
  {
    DirRecsSound(v.m, d.0, 0, Sectors(d.1), x);
  }

  /** Every file of the edited tree reads as expected: the archive, the rewritten
      config, or the original bytes. */
  lemma FileView(o: Disc, v: Volume, size: u32, d: Dir, r: Rec)
    requires v.WellFormed() && EditsOf(o, v, size) && d in v.dirs
    requires r in EditedListing(o, v, size, d) && !r.IsDir()
    ensures ExtentBytes(View(o), r.extent, r.size) == Expected(o, v, size, r)
  {
    hide EditedListing, Volume.WellFormed, Listing, Tiled;
    EditedListingOrigin(o, v, size, d, r);
    if x :| x in Listing(v.m, d) && r == EditRec(o, x) {
      EditKeepsDirs(o, v, size, d, x);
      EditedFile(o, v, size, d, x);
    } else if size > 0 {
      ArchiveBytes(o, v, size);
      ArchiveSectorFits(o, v, size);
    }
  }
}
