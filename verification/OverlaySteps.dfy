/** Every overlay the boot loader can build from a well-formed image satisfies the
    conditions under which the virtual tree is the patched tree. */
module OverlaySteps {
  import opened Bytes
  import opened IsoDirectory
  import opened IsoWalkers
  import opened Overlay
  import opened OverlayTree
  import opened VirtualVolume
  import opened VirtualTree

  /** A fresh device presents the image and nothing else. */
  lemma FreshIsTiled(v: Volume, size: u32)
    requires v.WellFormed() && v.blocks < 0x1_0000_0000
    ensures EditsOf(Fresh(v.m, v.blocks), v, size)
  {
  }

  // ── The premount step ─────────────────────────────────────────────────

  lemma FreeSlotOfDir(m: Medium, lba: nat, size: nat)
    requires WellFormedDir(m, lba, size)
    ensures var total := Sectors(size);
            var e := ChainEnd(m(lba + total - 1).value, 0);
            && FreeSlot(m, lba, size) ==
               (if e + 47 <= 2048 then Some((lba + total - 1, e, (total - 1) * 2048 + e)) else None)
            && (e + 47 <= 2048 ==> Sectors((total - 1) * 2048 + e + 47) == total)
  {
    var last := lba + Sectors(size) - 1;
    assert WellFormedSector(m(last).value);
    ScanEndIsChainEnd(m(last).value, 0, size - (Sectors(size) - 1) * 2048);
  }

  lemma {:induction false} ReplaceableOnChain(sec: Sector, sector: nat, off: nat, limit: int,
                                              ignore: seq<(seq<byte>, bool)>)
    requires off <= 2048 && WellFormedSector(sec) && ChainEnd(sec, off) == ChainEnd(sec, 0) <= limit
    ensures var r := FirstReplaceableFrom(sec, sector, off, limit, ignore);
            r.Some? ==> r.value.sector == sector && OnChain(sec, off, r.value.off) && ValidRecord(sec, r.value.off)
                        && r.value == RecAt(sec, sector, r.value.off) && Replaceable(r.value, ignore)
    decreases 2048 - off
  {
    hide Replaceable;
    if ValidRecord(sec, off) {
      ReplaceableOnChain(sec, sector, off + sec[off], limit, ignore);
    } else {
      assert !Visited(sec, off, limit);
    }
  }

  lemma {:induction false} ReplaceableInDir(m: Medium, lba: nat, size: nat, s: nat, ignore: seq<(seq<byte>, bool)>)
    requires WellFormedDir(m, lba, size)
    ensures var r := FirstReplaceable(m, lba, size, s, Sectors(size), ignore);
            r.Some? ==> lba <= r.value.sector < lba + Sectors(size) && m(r.value.sector).Some?
                        && OnChain(m(r.value.sector).value, 0, r.value.off) &&
                           ValidRecord(m(r.value.sector).value, r.value.off)
                        && r.value == RecAt(m(r.value.sector).value, r.value.sector, r.value.off) &&
                           Replaceable(r.value, ignore)
    decreases Sectors(size) - s
  {
    hide FirstReplaceableFrom, Replaceable, RecAt, ValidRecord, OnChain;
    if s < Sectors(size) {
      assert WellFormedSector(m(lba + s).value);
      ReplaceableOnChain(m(lba + s).value, lba + s, 0, size - s * 2048, ignore);
      ReplaceableInDir(m, lba, size, s + 1, ignore);
    }
  }

  lemma TiledPremount(v: Volume, buf: seq<byte>, size: u32, victim: Option<Rec>)
    requires v.WellFormed() && v.blocks + Sectors(|buf|) < 0x1_0000_0000 && |buf| % 2048 == 0
    ensures Tiled(WithPremount(Fresh(v.m, v.blocks), buf, size, victim), v.blocks)
  {
    hide FreeSlot, PremountSlot;
  }

  /** The premount step on a fresh device, in each of its outcomes. */
  lemma AfterPremount(v: Volume, buf: seq<byte>, size: u32, ignore: seq<(seq<byte>, bool)>)
    requires v.WellFormed() && v.blocks + Sectors(|buf|) < 0x1_0000_0000
    requires |buf| % 2048 == 0 && size <= |buf|
    ensures var victim := FirstReplaceable(v.m, v.root.0, v.root.1, 0, Sectors(v.root.1), ignore);
            var o := WithPremount(Fresh(v.m, v.blocks), buf, size, victim);
            && EditsOf(o, v, size) && o.config == NO_FILE && o.configEntry == None && Archive(o, size) == buf[..size]
            && o.lastBlock + 1 == v.blocks + Sectors(|buf|)
            && (o.premountEntry.Injected? <==> ChainEnd(v.m(v.root.0 + Sectors(v.root.1) - 1).value, 0) + 47 <= 2048)
            && (!o.premountEntry.Injected? && victim.Some? ==>
                o.premountEntry.Replaced? && At(victim.value, o.premountEntry.target))
  {
    hide WithPremount, Fresh, FreeSlot, FirstReplaceable, PremountBlob, ChainEnd, Tiled, WellFormedDir,
         Volume.WellFormed, Volume.DirOk, EditsOf;
    hide Archive, Sectors, PvdRoot;
    RootOk(v);
    var victim := FirstReplaceable(v.m, v.root.0, v.root.1, 0, Sectors(v.root.1), ignore);
    FreeSlotOfDir(v.m, v.root.0, v.root.1);
    PremountPlaced(v, buf, size, victim);
    if FreeSlot(v.m, v.root.0, v.root.1).Some? {
      AfterInjection(v, buf, size, victim);
    } else {
      AfterReuse(v, buf, size, ignore);
    }
  }

  /** Without a free slot a replaceable root file, if there is one, is reused. */
  lemma AfterReuse(v: Volume, buf: seq<byte>, size: u32, ignore: seq<(seq<byte>, bool)>)
    requires v.WellFormed() && v.blocks + Sectors(|buf|) < 0x1_0000_0000 && |buf| % 2048 == 0 && size <= |buf|
    requires FreeSlot(v.m, v.root.0, v.root.1).None?
    ensures v.m(16).Some?
    ensures var victim := FirstReplaceable(v.m, v.root.0, v.root.1, 0, Sectors(v.root.1), ignore);
            var o := WithPremount(Fresh(v.m, v.blocks), buf, size, victim);
            && EditsOf(o, v, size) && !o.premountEntry.Injected?
            && (victim.Some? ==> o.premountEntry.Replaced? && At(victim.value, o.premountEntry.target))
  {
    var victim := FirstReplaceable(v.m, v.root.0, v.root.1, 0, Sectors(v.root.1), ignore);
    RootOk(v);
    ReplaceableInDir(v.m, v.root.0, v.root.1, 0, ignore);
    TiledPremount(v, buf, size, victim);
    BufferHolds(buf, size);
    if victim.Some? { ReplaceableFits(victim.value, ignore); }
    hide FirstReplaceable, FreeSlot, Replaceable, Tiled, Volume.WellFormed, WellFormedDir, Volume.DirOk, OnChain,
         Sectors, ValidRecord;
  }

  lemma PremountPlaced(v: Volume, buf: seq<byte>, size: u32, victim: Option<Rec>)
    requires v.blocks > 0 && v.blocks + Sectors(|buf|) < 0x1_0000_0000 && v.m(16).Some? && size <= |buf|
    ensures var o := WithPremount(Fresh(v.m, v.blocks), buf, size, victim);
            && o.config == NO_FILE && o.configEntry == None && Archive(o, size) == buf[..size]
            && o.lastBlock + 1 == v.blocks + Sectors(|buf|)
  {
    hide PremountSlot;
  }

  lemma RootOk(v: Volume)
    requires v.WellFormed()
    ensures v.blocks > 0 && WellFormedDir(v.m, v.root.0, v.root.1) && v.root.1 > 0 &&
            v.m(v.root.0 + Sectors(v.root.1) - 1).Some?
    ensures v.m(16).Some? && PvdRoot(v.m(16).value) == v.root && v.root in v.dirs && v.DirOk(v.root)
  {
  }

  lemma GrownRootFits(size: u32, e: nat)
    requires size > 0 && e + 47 <= 2048
    ensures var total := Sectors(size);
            var grown := Saturate32((total - 1) * 2048 + e + 47);
            Sectors(grown) == total && (total - 1) * 2048 + e + 46 <= grown
  {
  }

  lemma AfterInjection(v: Volume, buf: seq<byte>, size: u32, victim: Option<Rec>)
    requires v.WellFormed() && v.blocks + Sectors(|buf|) < 0x1_0000_0000 && |buf| % 2048 == 0 && size <= |buf|
    requires FreeSlot(v.m, v.root.0, v.root.1).Some?
    ensures v.m(16).Some?
    ensures var o := WithPremount(Fresh(v.m, v.blocks), buf, size, victim);
            EditsOf(o, v, size) && o.premountEntry.Injected?
  {
    hide Volume.WellFormed, Volume.DirOk, WellFormedDir, ChainEnd, PremountBlob, PvdRoot, FreeSlot, WithPremount, Fresh;
    RootOk(v);
    FreeSlotOfDir(v.m, v.root.0, v.root.1);
    TiledPremount(v, buf, size, victim);
    GrownRootFits(v.root.1, ChainEnd(v.m(v.root.0 + Sectors(v.root.1) - 1).value, 0));
    BufferHolds(buf, size);
    InjectedDisc(v, buf, size, victim);
    hide Tiled, Sectors, Saturate32;
  }

  lemma InjectedDisc(v: Volume, buf: seq<byte>, size: u32, victim: Option<Rec>)
    requires v.blocks > 0 && v.blocks + Sectors(|buf|) < 0x1_0000_0000 && v.m(16).Some? &&
             PvdRoot(v.m(16).value) == v.root
    requires FreeSlot(v.m, v.root.0, v.root.1).Some?
    ensures var o := WithPremount(Fresh(v.m, v.blocks), buf, size, victim);
            var (sector, off, walked) := FreeSlot(v.m, v.root.0, v.root.1).value;
            && o.raw == v.m && o.configEntry == None && o.premount == MemFile(v.blocks, Sectors(|buf|), buf)
            && o.premountEntry ==
               Injected(sector, off, PremountBlob(v.blocks % 0x1_0000_0000, size), Saturate32(walked + 47))
  {
    hide PvdRoot, FreeSlot, PremountBlob;
  }

  lemma BufferHolds(buf: seq<byte>, size: u32)
    requires size <= |buf|
    ensures Sectors(size) <= Sectors(|buf|)
  {
  }

  lemma ReplaceableFits(r: Rec, ignore: seq<(seq<byte>, bool)>)
    requires Replaceable(r, ignore)
    ensures r.len >= 46 && !r.IsDir() && !HasSuffix(Upper(StripDots(BaseName(r.name))), Ascii(".CFG"))
  {
  }

  // ── The config step ───────────────────────────────────────────────────

  lemma {:induction false} LooseOnChain(sec: Sector, sector: nat, off: nat, limit: int, name: seq<byte>)
    requires off <= 2048 && WellFormedSector(sec) && ChainEnd(sec, off) == ChainEnd(sec, 0) <= limit
    ensures var r := FindLoose(sec, sector, off, limit, name);
            r.Some? ==> r.value.sector == sector && OnChain(sec, off, r.value.off) && ValidRecord(sec, r.value.off)
                        && r.value == RecAt(sec, sector, r.value.off) && NamedNoDots(r.value, name)
    decreases 2048 - off
  {
    hide NamedNoDots;
    if ValidRecord(sec, off) {
      LooseOnChain(sec, sector, off + sec[off], limit, name);
    } else {
      assert !Visited(sec, off, limit);
    }
  }

  /** A record the config search returns is a record of the directory, at its location. */
  lemma {:induction false} LooseInDir(m: Medium, lba: nat, size: nat, s: nat, name: seq<byte>)
    requires WellFormedDir(m, lba, size)
    ensures var r := LooseLookup(m, lba, size, s, Sectors(size), name);
            r.Some? ==> lba <= r.value.sector < lba + Sectors(size) && m(r.value.sector).Some?
                        && OnChain(m(r.value.sector).value, 0, r.value.off) &&
                           ValidRecord(m(r.value.sector).value, r.value.off)
                        && r.value == RecAt(m(r.value.sector).value, r.value.sector, r.value.off) &&
                           NamedNoDots(r.value, name)
    decreases Sectors(size) - s
  {
    hide FindLoose, NamedNoDots, RecAt, ValidRecord, OnChain;
    if s < Sectors(size) {
      assert WellFormedSector(m(lba + s).value);
      LooseOnChain(m(lba + s).value, lba + s, 0, size - s * 2048, name);
      LooseInDir(m, lba, size, s + 1, name);
    }
  }

  lemma TiledConfig(o: Disc, blocks: nat, sector: nat, off: nat, content: seq<byte>)
    requires Tiled(o, blocks) && o.config == NO_FILE && |content| < 0x1_0000_0000
    requires o.lastBlock + 1 + Sectors(|content|) < 0x1_0000_0000
    ensures Tiled(WithConfig(o, sector, off, content), blocks)
  {
  }

  /** The config step for a file record the search returned from a directory. */
  lemma AfterConfig(o: Disc, v: Volume, size: u32, d: Dir, name: seq<byte>, content: seq<byte>)
    requires v.WellFormed() && EditsOf(o, v, size) && o.config == NO_FILE && o.configEntry == None && d in v.dirs
    requires o.lastBlock + 1 + Sectors(|content|) < 0x1_0000_0000 && |content| < 0x1_0000_0000
    requires LooseLookup(v.m, d.0, d.1, 0, Sectors(d.1), name).Some?
    requires var r := LooseLookup(v.m, d.0, d.1, 0, Sectors(d.1), name).value;
             !r.IsDir() && !(o.premountEntry.Replaced? && At(r, o.premountEntry.target))
    ensures var r := LooseLookup(v.m, d.0, d.1, 0, Sectors(d.1), name).value;
            var p := WithConfig(o, r.sector, r.off, content);
            EditsOf(p, v, size) && ConfigText(p) == content && p.premountEntry == o.premountEntry
            && p.configEntry.Some? && p.configEntry.value.sector == r.sector && p.configEntry.value.off == r.off
            && Archive(p, size) == Archive(o, size)
  {
    hide Tiled, OnChain, ValidRecord, ChainEnd, RecAt, LooseLookup, Volume.FileOk, PremountBlob;
    assert v.DirOk(d);
    LooseInDir(v.m, d.0, d.1, 0, name);
    var r := LooseLookup(v.m, d.0, d.1, 0, Sectors(d.1), name).value;
    TiledConfig(o, v.blocks, r.sector, r.off, content);
    assert InDir(r.sector, d);
  }

  /** A .CFG file is never the root file that the premount step overwrites. */
  lemma ConfigNeverReplaced(r: Rec, name: seq<byte>, ignore: seq<(seq<byte>, bool)>)
    requires NamedNoDots(r, name) && HasSuffix(Upper(name), Ascii(".CFG"))
    ensures !Replaceable(r, ignore)
  {
  }

  // ── The whole boot preparation ────────────────────────────────────────

  /** An image with room in its root directory, after the premount step and a
      config patch: for every path, the rewritten text at the config's record, the
      archive at /PREMOUNT.CPIO, and the image's own bytes everywhere else. */
  lemma PatchedImage(v: Volume, buf: seq<byte>, size: u32, ignore: seq<(seq<byte>, bool)>,
                     d: Dir, name: seq<byte>, content: seq<byte>, path: seq<seq<byte>>)
    requires v.WellFormed() && |buf| % 2048 == 0 && size <= |buf| && |content| < 0x1_0000_0000
    requires v.blocks + Sectors(|buf|) + Sectors(|content|) < 0x1_0000_0000
    requires ChainEnd(v.m(v.root.0 + Sectors(v.root.1) - 1).value, 0) + 47 <= 2048
    requires d in v.dirs && path != []
    requires LooseLookup(v.m, d.0, d.1, 0, Sectors(d.1), name).Some? &&
             !LooseLookup(v.m, d.0, d.1, 0, Sectors(d.1), name).value.IsDir()
    ensures v.m(16).Some?
    ensures var cfg := LooseLookup(v.m, d.0, d.1, 0, Sectors(d.1), name).value;
            var victim := FirstReplaceable(v.m, v.root.0, v.root.1, 0, Sectors(v.root.1), ignore);
            var o := WithConfig(WithPremount(Fresh(v.m, v.blocks), buf, size, victim), cfg.sector, cfg.off, content);
            && View(o)(16).Some?
            && ReadFile(View(o), PvdRoot(View(o)(16).value), path)
               == match Resolve(v.m, v.root, path)
                  case Some(r) =>
                    if r.IsDir() then None
                    else if r.sector == cfg.sector && r.off == cfg.off then Some(content)
                    else Some(ExtentBytes(v.m, r.extent, r.size))
                  case None =>
                    if ParentIsRoot(v, v.root, path) && ArchiveName(path[|path| - 1]) then Some(buf[..size]) else None
  {
    hide Volume.WellFormed, EditsOf, ReadFile, Resolve, ParentIsRoot, ArchiveName, ExtentBytes, LooseLookup,
         FirstReplaceable, FreeSlot, View, ChainEnd, RecAt, PvdRoot,
      WithConfig, WithPremount, Archive, ConfigText;
    var victim := FirstReplaceable(v.m, v.root.0, v.root.1, 0, Sectors(v.root.1), ignore);
    AfterPremount(v, buf, size, ignore);
    PvdReadable(v);
    var o1 := WithPremount(Fresh(v.m, v.blocks), buf, size, victim);
    AfterConfig(o1, v, size, d, name, content);
    var cfg := LooseLookup(v.m, d.0, d.1, 0, Sectors(d.1), name).value;
    PatchedTree(WithConfig(o1, cfg.sector, cfg.off, content), v, size, path);
  }

  /** An image without that room: `victim`, a file nothing in the boot path needs, gives
      its record to the archive. For every path, the rewritten text at the config's record,
      the archive at the victim's, and the image's own bytes everywhere else. */
  lemma PatchedImageReused(v: Volume, buf: seq<byte>, size: u32, ignore: seq<(seq<byte>, bool)>,
                           d: Dir, name: seq<byte>, content: seq<byte>, path: seq<seq<byte>>)
    requires v.WellFormed() && |buf| % 2048 == 0 && size <= |buf| && |content| < 0x1_0000_0000
    requires v.blocks + Sectors(|buf|) + Sectors(|content|) < 0x1_0000_0000
    requires ChainEnd(v.m(v.root.0 + Sectors(v.root.1) - 1).value, 0) + 47 > 2048
    requires d in v.dirs && path != []
    requires LooseLookup(v.m, d.0, d.1, 0, Sectors(d.1), name).Some? &&
             !LooseLookup(v.m, d.0, d.1, 0, Sectors(d.1), name).value.IsDir()
    requires var victim := FirstReplaceable(v.m, v.root.0, v.root.1, 0, Sectors(v.root.1), ignore);
             var cfg := LooseLookup(v.m, d.0, d.1, 0, Sectors(d.1), name).value;
             victim.Some? && !(cfg.sector == victim.value.sector && cfg.off == victim.value.off)
    ensures v.m(16).Some?
    ensures var cfg := LooseLookup(v.m, d.0, d.1, 0, Sectors(d.1), name).value;
            var victim := FirstReplaceable(v.m, v.root.0, v.root.1, 0, Sectors(v.root.1), ignore);
            var o := WithConfig(WithPremount(Fresh(v.m, v.blocks), buf, size, victim), cfg.sector, cfg.off, content);
            && View(o)(16).Some? && o.premountEntry.Replaced? && At(victim.value, o.premountEntry.target)
            && ReadFile(View(o), PvdRoot(View(o)(16).value), path)
               == match ResolveReused(v, o.premountEntry.target, v.root, path)
                  case None => None
                  case Some(r) =>
                    if r.IsDir() then None
                    else if r.sector == victim.value.sector && r.off == victim.value.off then Some(buf[..size])
                    else if r.sector == cfg.sector && r.off == cfg.off then Some(content)
                    else Some(ExtentBytes(v.m, r.extent, r.size))
  {
    hide Volume.WellFormed, EditsOf, ReadFile, ResolveReused, ExtentBytes, LooseLookup, FirstReplaceable, FreeSlot,
         View, ChainEnd, RecAt, PvdRoot,
      WithConfig, WithPremount, Archive, ConfigText;
    var victim := FirstReplaceable(v.m, v.root.0, v.root.1, 0, Sectors(v.root.1), ignore);
    AfterPremount(v, buf, size, ignore);
    PvdReadable(v);
    var o1 := WithPremount(Fresh(v.m, v.blocks), buf, size, victim);
    AfterConfig(o1, v, size, d, name, content);
    var cfg := LooseLookup(v.m, d.0, d.1, 0, Sectors(d.1), name).value;
    ReusedTree(WithConfig(o1, cfg.sector, cfg.off, content), v, size, path);
  }

  /** The config record is never the replaceable file when its name ends in .CFG. */
  lemma ConfigIsNotVictim(v: Volume, ignore: seq<(seq<byte>, bool)>, d: Dir, name: seq<byte>)
    requires v.WellFormed() && d in v.dirs && HasSuffix(Upper(name), Ascii(".CFG"))
    requires LooseLookup(v.m, d.0, d.1, 0, Sectors(d.1), name).Some?
    requires FirstReplaceable(v.m, v.root.0, v.root.1, 0, Sectors(v.root.1), ignore).Some?
    ensures var victim := FirstReplaceable(v.m, v.root.0, v.root.1, 0, Sectors(v.root.1), ignore).value;
            var cfg := LooseLookup(v.m, d.0, d.1, 0, Sectors(d.1), name).value;
            !(cfg.sector == victim.sector && cfg.off == victim.off)
  {
    assert v.DirOk(d) && v.DirOk(v.root);
    hide LooseLookup, FirstReplaceable, Replaceable, NamedNoDots, HasSuffix, RecAt, OnChain, ValidRecord,
         Volume.WellFormed, WellFormedDir;
    LooseInDir(v.m, d.0, d.1, 0, name);
    ReplaceableInDir(v.m, v.root.0, v.root.1, 0, ignore);
    ConfigNeverReplaced(LooseLookup(v.m, d.0, d.1, 0, Sectors(d.1), name).value, name, ignore);
  }

  /** So for a .CFG file the whole preparation needs only a replaceable root file. */
  lemma PatchedCfgReused(v: Volume, buf: seq<byte>, size: u32, ignore: seq<(seq<byte>, bool)>,
                         d: Dir, name: seq<byte>, content: seq<byte>, path: seq<seq<byte>>)
    requires v.WellFormed() && |buf| % 2048 == 0 && size <= |buf| && |content| < 0x1_0000_0000
    requires v.blocks + Sectors(|buf|) + Sectors(|content|) < 0x1_0000_0000
    requires ChainEnd(v.m(v.root.0 + Sectors(v.root.1) - 1).value, 0) + 47 > 2048
    requires d in v.dirs && path != [] && HasSuffix(Upper(name), Ascii(".CFG"))
    requires LooseLookup(v.m, d.0, d.1, 0, Sectors(d.1), name).Some? &&
             !LooseLookup(v.m, d.0, d.1, 0, Sectors(d.1), name).value.IsDir()
    requires FirstReplaceable(v.m, v.root.0, v.root.1, 0, Sectors(v.root.1), ignore).Some?
    ensures v.m(16).Some?
    ensures var cfg := LooseLookup(v.m, d.0, d.1, 0, Sectors(d.1), name).value;
            var victim := FirstReplaceable(v.m, v.root.0, v.root.1, 0, Sectors(v.root.1), ignore);
            var o := WithConfig(WithPremount(Fresh(v.m, v.blocks), buf, size, victim), cfg.sector, cfg.off, content);
            && View(o)(16).Some? && o.premountEntry.Replaced? && At(victim.value, o.premountEntry.target)
            && ReadFile(View(o), PvdRoot(View(o)(16).value), path)
               == match ResolveReused(v, o.premountEntry.target, v.root, path)
                  case None => None
                  case Some(r) =>
                    if r.IsDir() then None
                    else if r.sector == victim.value.sector && r.off == victim.value.off then Some(buf[..size])
                    else if r.sector == cfg.sector && r.off == cfg.off then Some(content)
                    else Some(ExtentBytes(v.m, r.extent, r.size))
  {
    hide Volume.WellFormed, ReadFile, ResolveReused, ExtentBytes, LooseLookup, FirstReplaceable, View, ChainEnd,
         PvdRoot, WithConfig, WithPremount, HasSuffix;
    ConfigIsNotVictim(v, ignore, d, name);
    PatchedImageReused(v, buf, size, ignore, d, name, content, path);
  }

  lemma PvdReadable(v: Volume)
    requires v.WellFormed()
    ensures v.m(16).Some?
  {
  }
}
