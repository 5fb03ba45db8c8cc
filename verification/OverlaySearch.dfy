/** The config search on the virtual device: the edited directories are well-formed again, and
    the search finds in them what it finds in the image, and the archive. */
module OverlaySearch {
  import opened Bytes
  import opened IsoDirectory
  import opened IsoWalkers
  import opened Overlay
  import opened OverlayTree
  import opened VirtualVolume
  import opened VirtualTree

  // ── Sectors ───────────────────────────────────────────────────────────

  lemma {:induction false} EndBehind(sec: Sector, off: nat, p: nat)
    requires off <= 2048 && OnChain(sec, off, p)
    ensures p + 34 <= 2048 && p + sec[p] <= ChainEnd(sec, off)
    decreases 2048 - off
  {
    if p != off { EndBehind(sec, off + sec[off], p); }
  }

  /** Rewriting a record keeps the end of the records and the byte there. */
  lemma RetargetedEnd(sec: Sector, p: nat, extent: u32, size: u32)
    requires OnChain(sec, 0, p)
    ensures var (t, e) := (Retargeted(sec, p, extent, size), ChainEnd(sec, 0));
            ChainEnd(t, 0) == e && (e < 2048 ==> t[e] == sec[e])
  {
    RetargetChain(sec, 0, p, extent, size);
    RetargetedAt(sec, 0, p, extent, size);
    EndBehind(sec, 0, p);
    hide Retargeted, ChainEnd, RecsFrom, OnChain;
  }

  lemma RenamedEnd(sec: Sector, p: nat)
    requires OnChain(sec, 0, p) && p < 2048 && sec[p] >= 46
    ensures var (t, e) := (RenamedToPremount(sec, p), ChainEnd(sec, 0));
            ChainEnd(t, 0) == e && (e < 2048 ==> t[e] == sec[e])
  {
    RenameChain(sec, 0, p);
    RenamedAt(sec, 0, p);
    EndBehind(sec, 0, p);
    hide RenamedToPremount, ChainEnd, RecsFrom, OnChain;
  }

  /** An edited sector is well-formed again; only the injection moves the end of its records. */
  lemma EditedEnd(o: Disc, b: nat, sec: Sector, size: u32)
    requires GoodEdits(o, b, sec, size) && WellFormedSector(sec)
    ensures var t := Edited(o, b, sec);
            WellFormedSector(t) && ChainEnd(t, 0) == ChainEnd(sec, 0) + if Extra(o, b, size) != [] then 46 else 0
  {
    hide ChainEnd, OnChain, Retargeted, RenamedToPremount, PremountBlob, RecsFrom;
    var c := o.configEntry;
    if o.premountEntry.Injected? {
      var sec1 := PremountIn(o.premountEntry, b, sec);
      if o.premountEntry.sector == b { InjectChain(sec, b, 0, o.premount.sector % 0x1_0000_0000, size); }
      if c.Some? && c.value.sector == b { RetargetedEnd(sec1, c.value.off, c.value.extent, c.value.size); }
    } else {
      var sec1 := RedirectIn(c, b, sec);
      if c.Some? && c.value.sector == b { RetargetedEnd(sec, c.value.off, c.value.extent, c.value.size); }
      if o.premountEntry.Replaced? &&
        o.premountEntry.target.sector == b { ReplacedEnd(o.premountEntry.target, c, b, sec); }
    }
  }

  lemma ReplacedEnd(t: Redirect, c: Option<Redirect>, b: nat, sec: Sector)
    requires OnChain(sec, 0, t.off) && t.off < 2048 && sec[t.off] >= 46
    requires c.Some? && c.value.sector == b ==> OnChain(sec, 0, c.value.off)
    ensures var sec1 := RedirectIn(c, b, sec);
            var r := RenamedToPremount(Retargeted(sec1, t.off, t.extent, t.size), t.off);
            var e := ChainEnd(sec1, 0);
            ChainEnd(r, 0) == e && (e < 2048 ==> r[e] == sec1[e])
  {
    hide ChainEnd, OnChain, Retargeted, RenamedToPremount, RecsFrom;
    var sec1 := RedirectIn(c, b, sec);
    if c.Some? && c.value.sector == b { RedirectSector(c.value, sec); }
    assert OnChain(sec1, 0, t.off) && sec1[t.off] == sec[t.off];
    RedirectSector(t, sec1);
    RetargetedEnd(sec1, t.off, t.extent, t.size);
    RenamedEnd(Retargeted(sec1, t.off, t.extent, t.size), t.off);
  }

  // ── Directories ───────────────────────────────────────────────────────

  /** A directory as the virtual device announces it. */
  function DirView(o: Disc, v: Volume, d: Dir): Dir { if d == v.root then RootView(o, v) else d }

  /** Through the virtual device every directory is well-formed, so that what holds of the two
      walkers on an image also holds on the device. */
  lemma DirsStayWellFormed(o: Disc, v: Volume, size: u32, d: Dir)
    requires v.WellFormed() && EditsOf(o, v, size) && d in v.dirs
    ensures var w := DirView(o, v, d);
            w.0 == d.0 && Sectors(w.1) == Sectors(d.1) && WellFormedDir(View(o), w.0, w.1)
  {
    hide View, EditsOf, Volume.WellFormed, WellFormedSector, ChainEnd, Extra;
    LastSector(o, v, size, d);
    forall b | d.0 <= b < d.0 + Sectors(d.1)
      ensures View(o)(b).Some? && WellFormedSector(View(o)(b).value)
    {
      SectorView(o, v, size, d, b);
    }
    SectorView(o, v, size, d, d.0 + Sectors(d.1) - 1);
  }

  lemma SectorView(o: Disc, v: Volume, size: u32, d: Dir, b: nat)
    requires v.WellFormed() && EditsOf(o, v, size) && d in v.dirs && InDir(b, d)
    ensures v.m(b).Some? && View(o)(b).Some? && WellFormedSector(View(o)(b).value)
    ensures ChainEnd(View(o)(b).value, 0) == ChainEnd(v.m(b).value, 0) + if Extra(o, b, size) != [] then 46 else 0
  {
    assert v.DirOk(d) && WellFormedDir(v.m, d.0, d.1);
    hide EditsOf, Volume.WellFormed, WellFormedSector, ChainEnd, Extra;
    ServedDirSector(o, v, size, d, b);
    EditedEnd(o, b, v.m(b).value, size);
  }

  /** The announced length covers the last sector's records, the injected one included. */
  lemma LastSector(o: Disc, v: Volume, size: u32, d: Dir)
    requires v.WellFormed() && EditsOf(o, v, size) && d in v.dirs
    ensures v.DirOk(d)
    ensures var (w, last) := (DirView(o, v, d), d.0 + Sectors(d.1) - 1);
            && w.1 > 0 && Sectors(w.1) == Sectors(d.1)
            && (Sectors(d.1) - 1) * 2048 + ChainEnd(v.m(last).value, 0) +
               (if Extra(o, last, size) != [] then 46 else 0) <= w.1
  {
    hide ChainEnd, Tiled, Volume.FileOk, OnChain, Listing, PremountBlob, PremountRec;
    assert v.DirOk(d) && v.DirOk(v.root);
    var last := d.0 + Sectors(d.1) - 1;
    if o.premountEntry.Injected? && o.premountEntry.sector == last {
      assert InDir(last, d) && InDir(last, v.root);
    }
  }

  // ── The search ────────────────────────────────────────────────────────

  /** The first record that the config search takes for `name`. */
  function FirstLoose(rs: seq<Rec>, name: seq<byte>): Option<Rec> {
    if rs == [] then None else if NamedNoDots(rs[0], name) then Some(rs[0]) else FirstLoose(rs[1..], name)
  }

  lemma {:induction false} FirstLooseConcat(a: seq<Rec>, b: seq<Rec>, name: seq<byte>)
    ensures FirstLoose(a + b, name) == if FirstLoose(a, name).Some? then FirstLoose(a, name) else FirstLoose(b, name)
  {
    hide NamedNoDots;
    if a != [] {
      assert (a + b)[1..] == a[1..] + b;
      if !NamedNoDots(a[0], name) { FirstLooseConcat(a[1..], b, name); }
    } else {
      assert a + b == b;
    }
  }

  lemma {:induction false} FindLooseIsFirst(sec: Sector, sector: nat, off: nat, limit: int, name: seq<byte>)
    requires off <= 2048 && WellFormedSector(sec) && ChainEnd(sec, off) == ChainEnd(sec, 0) <= limit
    ensures FindLoose(sec, sector, off, limit, name) == FirstLoose(RecsFrom(sec, sector, off), name)
    decreases 2048 - off
  {
    hide NamedNoDots, RecAt;
    if ValidRecord(sec, off) {
      assert Visited(sec, off, limit);
      FindLooseIsFirst(sec, sector, off + sec[off], limit, name);
    } else {
      assert !Visited(sec, off, limit);
    }
  }

  /** On a well-formed directory the config search finds the first record of that name. */
  lemma {:induction false} SearchIsFirst(m: Medium, lba: nat, size: nat, s: nat, name: seq<byte>)
    requires WellFormedDir(m, lba, size)
    ensures LooseLookup(m, lba, size, s, Sectors(size), name) == FirstLoose(DirRecs(m, lba, s, Sectors(size)), name)
    decreases Sectors(size) - s
  {
    hide FindLoose, RecsFrom, FirstLoose, WellFormedSector;
    if s < Sectors(size) {
      FindLooseIsFirst(m(lba + s).value, lba + s, 0, size - s * 2048, name);
      SearchIsFirst(m, lba, size, s + 1, name);
      FirstLooseConcat(RecsFrom(m(lba + s).value, lba + s, 0), DirRecs(m, lba, s + 1, Sectors(size)), name);
    } else {
      assert FirstLoose([], name) == None by { NothingLoose(name); }
    }
  }

  lemma NothingLoose(name: seq<byte>)
    ensures FirstLoose([], name) == None
  {
  }

  lemma {:induction false} FirstLooseEdited(o: Disc, rs: seq<Rec>, name: seq<byte>)
    requires !o.premountEntry.Replaced?
    ensures FirstLoose(EditList(o, rs), name) ==
            match FirstLoose(rs, name) case None => None case Some(r) => Some(EditRec(o, r))
  {
    if rs != [] {
      assert EditRec(o, rs[0]).name == rs[0].name;
      hide NamedNoDots, EditRec;
      assert EditList(o, rs)[1..] == EditList(o, rs[1..]);
      FirstLooseEdited(o, rs[1..], name);
    }
  }

  lemma ArchiveLoose(r: Rec, name: seq<byte>)
    requires r.name == PREMOUNT_NAME
    ensures NamedNoDots(r, name) <==> ArchiveName(name)
  {
    assert DotlessLen(PREMOUNT_NAME, 13) == 13;
    assert Upper(PREMOUNT_NAME) == PREMOUNT_NAME;
  }

  /** The config search over the device finds, in every directory and for every name, what it
      finds in the image with the edits applied, and in the root also the injected archive. */
  lemma SearchView(o: Disc, v: Volume, size: u32, d: Dir, name: seq<byte>)
    requires v.WellFormed() && EditsOf(o, v, size) && d in v.dirs && !o.premountEntry.Replaced?
    ensures var w := DirView(o, v, d);
            LooseLookup(View(o), w.0, w.1, 0, Sectors(w.1), name)
            == match LooseLookup(v.m, d.0, d.1, 0, Sectors(d.1), name)
               case Some(r) => Some(EditRec(o, r))
               case None =>
                 if o.premountEntry.Injected? && d == v.root && ArchiveName(name)
                 then Some(PremountRec(o.premountEntry.sector, o.premountEntry.off, o.premount.sector % 0x1_0000_0000,
                                       size)) else None
  {
    hide EditsOf, View, EditRec, EditList, FirstLoose, ArchiveName, LooseLookup, DirRecs, NamedNoDots;
    var w := DirView(o, v, d);
    assert v.DirOk(d);
    DirsStayWellFormed(o, v, size, d);
    SearchIsFirst(View(o), w.0, w.1, 0, name);
    SearchIsFirst(v.m, d.0, d.1, 0, name);
    ListingView(o, v, size, d);
    var edited := EditList(o, Listing(v.m, d));
    FirstLooseEdited(o, Listing(v.m, d), name);
    if o.premountEntry.Injected? && d == v.root {
      var extra := PremountRec(o.premountEntry.sector, o.premountEntry.off, o.premount.sector % 0x1_0000_0000, size);
      FirstLooseConcat(edited, [extra], name);
      ArchiveLoose(extra, name);
      OneLoose(extra, name);
    } else {
      assert EditedListing(o, v, size, d) == edited;
    }
  }

  lemma OneLoose(r: Rec, name: seq<byte>)
    ensures FirstLoose([r], name) == if NamedNoDots(r, name) then Some(r) else None
  {
    assert [r][1..] == [];
  }
}
