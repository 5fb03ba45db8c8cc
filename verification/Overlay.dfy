/** What the virtual CD-ROM serves: the blocks of the ISO file with the edits of
    the premount and config steps applied on the fly. */
module Overlay {
  import opened Bytes
  import opened IsoDirectory
  import opened IsoWalkers

  /** A file held in memory and served as blocks from `sector` on. */
  datatype MemFile = MemFile(sector: nat, sectors: nat, buf: seq<byte>) {
    predicate Holds(b: nat) { sector <= b < sector + sectors }

    predicate StartsAt(b: nat) { sectors > 0 ==> sector == b }
    predicate Filled() { |buf| == sectors * 2048 }
  }

  /** A directory record, by location, with its new extent and length. */
  datatype Redirect = Redirect(sector: nat, off: nat, extent: u32, size: u32)

  /** How /PREMOUNT.CPIO got its directory record. */
  datatype Slot =
    | NoSlot
    | Injected(sector: nat, off: nat, blob: seq<byte>, rootSize: u32)
    | Replaced(target: Redirect)

  /** The state of the virtual device: `raw` are the blocks of the ISO file. */
  datatype Disc = Disc(
    raw: Medium, lastBlock: nat,
    config: MemFile, configEntry: Option<Redirect>,
    premount: MemFile, premountEntry: Slot)

  const NO_FILE := MemFile(0, 0, [])

  /** The ISO file as an extent of a disk with 512-byte sectors. */
  function RawMedium(disk: seq<byte>, isoLba: nat): Medium {
    (b: nat) =>
      var at := (isoLba + b * 4) * 512;
      if at + 2048 <= |disk| then Some(disk[at..at + 2048]) else None
  }

  // ── One block ─────────────────────────────────────────────────────────

  function ServeMemory(f: MemFile, b: nat): Option<Sector> {
    if f.Holds(b) && (b - f.sector + 1) * 2048 <= |f.buf|
    then Some(f.buf[(b - f.sector) * 2048..(b - f.sector + 1) * 2048])
    else None
  }

  /** "CHOOSABLE" padded with blanks to the 32 bytes of a volume identifier. */
  function VolumeLabel(): (l: seq<byte>)
    ensures |l| == 32
  {
    [67, 72, 79, 79, 83, 65, 66, 76, 69] + seq(23, _ => 32)
  }

  /** ECMA-119 section 8.4: volume space size, root directory length and label. */
  function PatchedPvd(o: Disc, sec: Sector): Sector {
    var volume := (o.lastBlock + 1) % 0x1_0000_0000;
    var s1 := Splice(sec, 80, Le32(volume) + Be32(volume));
    var s2 := if o.premountEntry.Injected? && o.premountEntry.rootSize > 0
              then Splice(s1, 166, Le32(o.premountEntry.rootSize) + Be32(o.premountEntry.rootSize)) else s1;
    Splice(s2, 40, VolumeLabel())
  }

  lemma PatchedPvdIs(o: Disc, sec: Sector)
    ensures var volume := (o.lastBlock + 1) % 0x1_0000_0000;
            var s1 := Splice(sec, 80, Le32(volume) + Be32(volume));
            PatchedPvd(o, sec) ==
            if o.premountEntry.Injected? && o.premountEntry.rootSize > 0
            then Splice(Splice(s1, 166, Le32(o.premountEntry.rootSize) + Be32(o.premountEntry.rootSize)), 40,
                        VolumeLabel())
            else Splice(s1, 40, VolumeLabel())
  {
    hide Splice, Le32, Be32, VolumeLabel;
  }

  function RedirectIn(r: Option<Redirect>, b: nat, sec: Sector): Sector {
    if r.Some? && r.value.sector == b then Retargeted(sec, r.value.off, r.value.extent, r.value.size) else sec
  }

  function PremountIn(p: Slot, b: nat, sec: Sector): Sector {
    match p
    case NoSlot => sec
    case Injected(sector, off, blob, _) => if sector == b && off + |blob| <= 2048 then Splice(sec, off, blob) else sec
    case Replaced(t) => if t.sector == b then RenamedToPremount(Retargeted(sec, t.off, t.extent, t.size), t.off)
                        else sec
  }

  /** A directory sector with the edits in the order the read path applies them. */
  function Edited(o: Disc, b: nat, sec: Sector): Sector {
    if o.premountEntry.Injected?
    then RedirectIn(o.configEntry, b, PremountIn(o.premountEntry, b, sec))
    else PremountIn(o.premountEntry, b, RedirectIn(o.configEntry, b, sec))
  }

  predicate HasEdit(o: Disc, b: nat) {
    || (o.configEntry.Some? && o.configEntry.value.sector == b)
    || (o.premountEntry.Injected? && o.premountEntry.sector == b)
    || (o.premountEntry.Replaced? && o.premountEntry.target.sector == b)
  }

  function Served(o: Disc, b: nat): Option<Sector> {
    if HasEdit(o, b) then
      match o.raw(b)
      case None => None
      case Some(sec) => Some(Edited(o, b, sec))
    else if ServeMemory(o.premount, b).Some? then ServeMemory(o.premount, b)
    else if ServeMemory(o.config, b).Some? then ServeMemory(o.config, b)
    else
      match o.raw(b)
      case None => None
      case Some(sec) => Some(if b == 16 then PatchedPvd(o, sec) else sec)
  }

  /** The virtual device as a medium. */
  function View(o: Disc): Medium { (b: nat) => Served(o, b) }

  // ── The steps that build an overlay ───────────────────────────────────

  /** A fresh device over an ISO file of `blocks` blocks. */
  function Fresh(raw: Medium, blocks: nat): Disc
    requires blocks > 0
  {
    Disc(raw, blocks - 1, NO_FILE, None, NO_FILE, NoSlot)
  }

  function PvdRoot(sec: Sector): (u32, u32) { (FromLe32(sec, 158), FromLe32(sec, 166)) }

  predicate IsPvd(sec: Sector) { sec[0] == 1 && sec[1..6] == [67, 68, 48, 48, 49] }

  function Saturate32(n: nat): u32 { if n < 0x1_0000_0000 then n else 0xFFFF_FFFF }

  /** A free slot takes a new record; otherwise `victim` is redirected and renamed; without either
      the slot stays as it was. */
  function PremountSlot(raw: Medium, rootLba: u32, rootSize: u32, sector: u32, size: u32, victim: Option<Rec>,
                        slot: Slot): Slot {
    match FreeSlot(raw, rootLba, rootSize)
    case Some((s, off, walked)) => Injected(s, off, PremountBlob(sector, size), Saturate32(walked + 47))
    case None => if victim.Some? then Replaced(Redirect(victim.value.sector, victim.value.off, sector, size)) else slot
  }

  /** Appending the archive and giving it a root directory record. */
  function WithPremount(o: Disc, buf: seq<byte>, size: u32, victim: Option<Rec>): Disc
    requires o.raw(16).Some?
  {
    var sector := (o.lastBlock + 1) % 0x1_0000_0000;
    var (rootLba, rootSize) := PvdRoot(o.raw(16).value);
    o.(premount := MemFile(sector, Sectors(|buf|), buf), lastBlock := o.lastBlock + Sectors(|buf|),
       premountEntry := PremountSlot(o.raw, rootLba, rootSize, sector, size, victim, o.premountEntry))
  }

  /** Appending a rewritten config file and redirecting its directory record. */
  function WithConfig(o: Disc, sector: nat, off: nat, content: seq<byte>): Disc
    requires |content| < 0x1_0000_0000
  {
    var at := (o.lastBlock + 1) % 0x1_0000_0000;
    var sectors := Sectors(|content|);
    var buf := content + seq(sectors * 2048 - |content|, _ => 0);
    o.(config := MemFile(at, sectors, buf), lastBlock := o.lastBlock + sectors,
       configEntry := Some(Redirect(sector, off, at, |content|)))
  }
}
