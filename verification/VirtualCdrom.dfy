/** The virtual CD-ROM device: the fields the boot loader updates, the steps that
    update them, and the read path that serves patched blocks. */
module VirtualCdrom {
  import opened Bytes
  import opened IsoDirectory
  import opened IsoWalkers
  import opened Overlay

  datatype Status = Success | BadBufferSize | DeviceError

  /** A block-aligned write into a longer buffer, seen from inside the block. */
  lemma SpliceInBlock(s: seq<byte>, base: nat, sec: Sector, at: nat, data: seq<byte>)
    requires base + 2048 <= |s| && at + |data| <= 2048
    ensures Splice(Splice(s, base, sec), base + at, data) == Splice(s, base, Splice(sec, at, data))
  {
  }

  /** How many of the `n` blocks from `lba` on are served before the first failure. */
  function ServedRun(o: Disc, lba: nat, n: nat): (k: nat)
    ensures k <= n
    decreases n
  {
    if n == 0 || Served(o, lba).None? then 0 else 1 + ServedRun(o, lba + 1, n - 1)
  }

  /** A buffer `s` after its first `k` blocks were served from `lba` on. */
  function Filled(o: Disc, lba: nat, s: seq<byte>, k: nat): (r: seq<byte>)
    requires k * 2048 <= |s|
    ensures |r| == |s|
  {
    if k == 0 then s
    else
      var before := Filled(o, lba, s, k - 1);
      match Served(o, lba + k - 1)
      case Some(sec) => Splice(before, (k - 1) * 2048, sec)
      case None => before
  }

  lemma NextServed(o: Disc, lba: nat, s: seq<byte>, n: nat, b: nat)
    requires b < n && n * 2048 <= |s|
    ensures b * 2048 + 2048 <= |s|
    ensures ServedRun(o, lba + b, n - b) ==
            if Served(o, lba + b).Some? then 1 + ServedRun(o, lba + (b + 1), n - (b + 1)) else 0
    ensures Served(o, lba + b).Some? ==>
            Filled(o, lba, s, b + 1) == Splice(Filled(o, lba, s, b), b * 2048, Served(o, lba + b).value)
  {
    hide Served, Splice;
    assert lba + (b + 1) - 1 == lba + b && lba + b + 1 == lba + (b + 1);
  }

  lemma NothingServed(o: Disc, lba: nat, s: seq<byte>)
    ensures Filled(o, lba, s, 0) == s && ServedRun(o, lba, 0) == 0
  {
  }

  /** A read of n blocks is the concatenation of n one-block reads. */
  lemma {:induction false} FilledIsBlocks(o: Disc, lba: nat, s: seq<byte>, n: nat, k: nat, c: nat)
    requires n * 2048 <= |s| && k <= ServedRun(o, lba, n)
    ensures c < k ==>
            Served(o, lba + c).Some? &&
            Filled(o, lba, s, k)[c * 2048..(c + 1) * 2048] == Served(o, lba + c).value
    ensures Filled(o, lba, s, k)[k * 2048..] == s[k * 2048..]
  {
    hide Served, Filled, ServedRun, Splice;
    NothingServed(o, lba, s);
    if k > 0 {
      var at := (k - 1) * 2048;
      RunServed(o, lba, n, k - 1);
      NextServed(o, lba, s, n, k - 1);
      FilledIsBlocks(o, lba, s, n, k - 1, c);
      SpliceAround(Filled(o, lba, s, k - 1), at, Served(o, lba + (k - 1)).value, at, at + 2048);
      SpliceAround(Filled(o, lba, s, k - 1), at, Served(o, lba + (k - 1)).value, at + 2048, |s|);
      if c < k - 1 {
        assert (c + 1) * 2048 <= at;
        SpliceAround(Filled(o, lba, s, k - 1), at, Served(o, lba + (k - 1)).value, c * 2048, (c + 1) * 2048);
      }
      assert Filled(o, lba, s, k - 1)[at + 2048..] == Filled(o, lba, s, k - 1)[at..][2048..];
    }
  }

  /** A write of one block, seen from that block and from ranges before and after it. */
  lemma SpliceAround(s: seq<byte>, at: nat, sec: Sector, lo: nat, hi: nat)
    requires at + 2048 <= |s| && lo <= hi <= |s|
    ensures lo == at && hi == at + 2048 ==> Splice(s, at, sec)[lo..hi] == sec
    ensures hi <= at || at + 2048 <= lo ==> Splice(s, at, sec)[lo..hi] == s[lo..hi]
  {
  }

  lemma {:induction false} RunServed(o: Disc, lba: nat, n: nat, c: nat)
    requires c < ServedRun(o, lba, n)
    ensures Served(o, lba + c).Some?
    decreases c
  {
    hide Served;
    if c > 0 { RunServed(o, lba + 1, n - 1, c - 1); }
  }

  class VirtualBlockIo {
    const disk: seq<byte>
    const isoLba: nat
    var lastBlock: nat
    /** Rewritten grub.cfg: start sector, sector count, buffer (`patched_file_*`). */
    var config: MemFile
    /** The directory record redirected to it, when patched (`dir_entry_*`). */
    var configEntry: Option<Redirect>
    /** The premount archive (`premount_file_*`). */
    var premount: MemFile
    /** How its directory record is made: injected, or patched and renamed (`premount_entry_*`,
        `premount_new_root_size`). */
    var premountEntry: Slot

    ghost function Raw(): Medium { RawMedium(disk, isoLba) }

    /** The root directory of the image has room for an injected record. */
    ghost predicate RootHasRoom() {
      Raw()(16).Some? && var (rootLba, rootSize) := PvdRoot(Raw()(16).value); FreeSlot(Raw(), rootLba, rootSize).Some?
    }

    /** Each memory file's buffer covers exactly its sectors, and a record is injected only into a
        root directory with room. */
    ghost predicate Valid()
      reads this
    {
      config.Filled() && premount.Filled() && (premountEntry.Injected? ==> RootHasRoom())
    }

    ghost function State(): Disc
      reads this
    {
      Disc(Raw(), lastBlock, config, configEntry, premount, premountEntry)
    }

    constructor (disk: seq<byte>, isoLba: nat, isoSectors: nat)
      requires isoSectors > 0
      ensures Valid()
      ensures this.disk == disk && this.isoLba == isoLba
      ensures State() == Fresh(RawMedium(disk, isoLba), isoSectors)
    {
      this.disk, this.isoLba, lastBlock := disk, isoLba, isoSectors - 1;
      config, configEntry := NO_FILE, None;
      premount, premountEntry := NO_FILE, NoSlot;
    }

    /** Creates the device over an ISO file; there is none for an empty file. */
    static method CreateVirtualCdrom(disk: seq<byte>, isoLba: nat, isoSizeBytes: u64) returns (v: VirtualBlockIo?)
      ensures v == null <==> isoSizeBytes == 0
      ensures v != null ==> fresh(v) && v.Valid()
      ensures v != null ==> v.State() == Fresh(RawMedium(disk, isoLba),
                (if isoSizeBytes + 2047 < 0x1_0000_0000_0000_0000 then isoSizeBytes + 2047
                 else 0xFFFF_FFFF_FFFF_FFFF) / 2048)
    {
      var rounded: int := isoSizeBytes + 2047;
      var isoSectors := (if rounded < 0x1_0000_0000_0000_0000 then rounded else 0xFFFF_FFFF_FFFF_FFFF) / 2048;
      if isoSectors == 0 { return null; }
      v := new VirtualBlockIo(disk, isoLba, isoSectors);
    }

    // ── Reading ─────────────────────────────────────────────────────────

    static method PatchDirEntry(dst: array<byte>, base: nat, off: nat, extent: u32, size: u32, ghost before: seq<byte>,
                                ghost sec: Sector)
      requires base + 2048 <= dst.Length && |before| == dst.Length && dst[..] == Splice(before, base, sec)
      modifies dst
      ensures dst[..] == Splice(before, base, Retargeted(sec, off, extent, size))
    {
      if off + 18 > 2048 { return; }
      var data := Le32(extent) + Be32(extent) + Le32(size) + Be32(size);
      SpliceInBlock(before, base, sec, off + 2, data);
      CopyInto(dst, base + off + 2, data);
    }

    static method RenameDirEntryToPremount(dst: array<byte>, base: nat, off: nat, ghost before: seq<byte>,
                                           ghost sec: Sector)
      requires base + 2048 <= dst.Length && |before| == dst.Length && dst[..] == Splice(before, base, sec)
      modifies dst
      ensures dst[..] == Splice(before, base, RenamedToPremount(sec, off))
    {
      if off + 33 + |PREMOUNT_NAME| > 2048 { return; }
      assert dst[..][base + off] == sec[off];
      if dst[base + off] < 46 { return; }
      SpliceInBlock(before, base, sec, off + 32, [13] + PREMOUNT_NAME);
      CopyInto(dst, base + off + 32, [13] + PREMOUNT_NAME);
    }

    method ReadRealIsoSector(b: nat, dst: array<byte>, base: nat) returns (ok: bool)
      requires base + 2048 <= dst.Length
      modifies dst
      ensures ok <==> Raw()(b).Some?
      ensures dst[..] == if ok then Splice(old(dst[..]), base, Raw()(b).value) else old(dst[..])
    {
      var at := (isoLba + b * 4) * 512;
      if at + 2048 > |disk| { return false; }
      CopyInto(dst, base, disk[at..at + 2048]);
      return true;
    }

    static method ServeMemorySector(f: MemFile, b: nat, dst: array<byte>, base: nat) returns (ok: bool)
      requires base + 2048 <= dst.Length && f.Filled()
      modifies dst
      ensures ok <==> ServeMemory(f, b).Some?
      ensures dst[..] == if ok then Splice(old(dst[..]), base, ServeMemory(f, b).value) else old(dst[..])
    {
      if f.sectors == 0 { return false; }
      if b < f.sector || b >= f.sector + f.sectors { return false; }
      var off := (b - f.sector) * 2048;
      CopyInto(dst, base, f.buf[off..off + 2048]);
      return true;
    }

    /** One iteration of the read loop: block `b` into dst[base..base + 2048]. */
    method ServeBlock(b: nat, dst: array<byte>, base: nat) returns (ok: bool)
      requires Valid() && base + 2048 <= dst.Length
      modifies dst
      ensures Valid()
      ensures ok <==> Served(State(), b).Some?
      ensures dst[..] == if ok then Splice(old(dst[..]), base, Served(State(), b).value) else old(dst[..])
    {
      hide Splice, Retargeted, RenamedToPremount, PatchedPvd, ServeMemory, RawMedium;
      ghost var before := dst[..];
      ghost var o := State();
      var needsGrubPatch := configEntry.Some? && b == configEntry.value.sector;
      var needsPremountPatch := premountEntry.Replaced? && b == premountEntry.target.sector;
      var needsPremountInjected := premountEntry.Injected? && b == premountEntry.sector;

      if needsPremountInjected {
        ok := ReadRealIsoSector(b, dst, base);
        if !ok { return; }
        ghost var sec := o.raw(b).value;
        var off, blob := premountEntry.off, premountEntry.blob;
        if off + |blob| <= 2048 {
          SpliceInBlock(before, base, sec, off, blob);
          CopyInto(dst, base + off, blob);
          sec := Splice(sec, off, blob);
        }
        if needsGrubPatch {
          PatchDirEntry(dst, base, configEntry.value.off, configEntry.value.extent, configEntry.value.size, before,
                        sec);
        }
        return true;
      }

      if needsGrubPatch || needsPremountPatch {
        ok := ReadRealIsoSector(b, dst, base);
        if !ok { return; }
        ghost var sec := o.raw(b).value;
        if needsGrubPatch {
          PatchDirEntry(dst, base, configEntry.value.off, configEntry.value.extent, configEntry.value.size, before,
                        sec);
          sec := Retargeted(sec, configEntry.value.off, configEntry.value.extent, configEntry.value.size);
        }
        if needsPremountPatch {
          var t := premountEntry.target;
          PatchDirEntry(dst, base, t.off, t.extent, t.size, before, sec);
          RenameDirEntryToPremount(dst, base, t.off, before, Retargeted(sec, t.off, t.extent, t.size));
        }
        return true;
      }

      ok := ServeMemorySector(premount, b, dst, base);
      if ok { return; }
      ok := ServeMemorySector(config, b, dst, base);
      if ok { return; }

      ok := ReadRealIsoSector(b, dst, base);
      if ok && b == 16 { PatchPvd(dst, base, before, o.raw(b).value); }
    }

    method PatchPvd(dst: array<byte>, base: nat, ghost before: seq<byte>, ghost sec: Sector)
      requires Valid() && base + 2048 <= dst.Length
      requires |before| == dst.Length && dst[..] == Splice(before, base, sec)
      modifies dst
      ensures Valid() && dst[..] == Splice(before, base, PatchedPvd(State(), sec))
    {
      hide Splice, Le32, Be32, VolumeLabel, PatchedPvd;
      ghost var goal := PatchedPvd(State(), sec);
      var newVolSize := (lastBlock + 1) % 0x1_0000_0000;
      var volume := Le32(newVolSize) + Be32(newVolSize);
      SpliceInBlock(before, base, sec, 80, volume);
      CopyInto(dst, base + 80, volume);
      ghost var s1 := Splice(sec, 80, volume);
      if premountEntry.Injected? && premountEntry.rootSize > 0 {
        var root := Le32(premountEntry.rootSize) + Be32(premountEntry.rootSize);
        SpliceInBlock(before, base, s1, 166, root);
        CopyInto(dst, base + 166, root);
        s1 := Splice(s1, 166, root);
      }
      SpliceInBlock(before, base, s1, 40, VolumeLabel());
      CopyInto(dst, base + 40, VolumeLabel());
      assert goal == Splice(s1, 40, VolumeLabel()) by { PatchedPvdIs(State(), sec); }
    }

    /** A read fills the buffer block by block and stops at the first block that cannot be served. */
    method VblockRead(lba: nat, dst: array<byte>) returns (status: Status)
      requires Valid()
      modifies dst
      ensures dst.Length % 2048 != 0 ==> status == BadBufferSize && dst[..] == old(dst[..])
      ensures dst.Length % 2048 == 0 ==>
                var n := dst.Length / 2048;
                var k := ServedRun(State(), lba, n);
                status == (if k == n then Success else DeviceError) && dst[..] == Filled(State(), lba, old(dst[..]), k)
    {
      hide Served, Splice, Filled, ServedRun, Valid, State;
      if dst.Length % 2048 != 0 { return BadBufferSize; }
      var n := dst.Length / 2048;
      ghost var o, before := State(), dst[..];
      NothingServed(o, lba, before);
      for b := 0 to n
        invariant Valid() && State() == o
        invariant ServedRun(o, lba, n) == b + ServedRun(o, lba + b, n - b)
        invariant dst[..] == Filled(o, lba, before, b)
      {
        NextServed(o, lba, before, n, b);
        var ok := ServeBlock(lba + b, dst, b * 2048);
        if !ok { return DeviceError; }
      }
      NothingServed(o, lba + n, before);
      return Success;
    }

    // ── The premount and config steps ───────────────────────────────────

    /** Appends the archive and exposes it as /PREMOUNT.CPIO in the root directory. */
    method PreparePremountIsoFile(cpio: array<byte>, cpioSize: u32, ignore: seq<(seq<byte>, bool)>) returns (ok: bool)
      requires Valid() && cpio.Length % 2048 == 0
      modifies this, cpio
      ensures Valid()
      ensures var o := old(State());
              if cpio.Length == 0 || cpioSize > cpio.Length then !ok && State() == o && cpio[..] == old(cpio[..])
              else if o.raw(16).None? || !IsPvd(o.raw(16).value) then
                !ok && State() == o && cpio[..] == old(cpio[..cpioSize]) + seq(cpio.Length - cpioSize, _ => 0)
              else var (rootLba, rootSize) := PvdRoot(o.raw(16).value);
                   var victim := FirstReplaceable(o.raw, rootLba, rootSize, 0, Sectors(rootSize), ignore);
                   && State() == WithPremount(o, cpio[..], cpioSize, victim)
                   && (ok <==> FreeSlot(o.raw, rootLba, rootSize).Some? || victim.Some?)
                   && cpio[..] == old(cpio[..cpioSize]) + seq(cpio.Length - cpioSize, _ => 0)
    {
      hide FreeSlot, FirstReplaceable, PremountBlob, RawMedium, IsPvd, FromLe32;
      var allocSize := cpio.Length;
      if allocSize == 0 || cpioSize > allocSize { return false; }
      forall i | cpioSize <= i < allocSize { cpio[i] := 0; }
      assert cpio[..] == old(cpio[..cpioSize]) + seq(cpio.Length - cpioSize, _ => 0);
      var fileSectors := (allocSize + 2047) / 2048;

      var m := RawMedium(disk, isoLba);
      var pvd := m(16);
      if pvd.None? || !IsPvd(pvd.value) { return false; }
      var fileSector := (lastBlock + 1) % 0x1_0000_0000;
      premount := MemFile(fileSector, fileSectors, cpio[..]);
      lastBlock := lastBlock + fileSectors;
      var rootLba, rootSize := FromLe32(pvd.value, 158), FromLe32(pvd.value, 166);

      var slot := FindEodInDir(m, rootLba, rootSize);
      if slot.Some? {
        var (entrySector, entryOffset, newRootSize) := slot.value;
        premountEntry := Injected(entrySector, entryOffset, PremountBlob(fileSector, cpioSize),
                                  Saturate32(newRootSize + 47));
        return true;
      }
      var victim := FindFirstFileInDir(m, rootLba, rootSize, ignore);
      if victim.Some? {
        premountEntry := Replaced(Redirect(victim.value.sector, victim.value.off, fileSector, cpioSize));
        return true;
      }
      return false;
    }

    /** Appends a rewritten config file and redirects its directory record. */
    method ApplyConfigPatch(dirSector: nat, dirOffset: nat, patched: seq<byte>)
      requires Valid() && |patched| < 0x1_0000_0000
      modifies this
      ensures Valid()
      ensures State() == WithConfig(old(State()), dirSector, dirOffset, patched)
    {
      hide RawMedium;
      var aligned := (|patched| + 2047) / 2048 * 2048;
      var block := new byte[aligned](i => 0);
      forall i | 0 <= i < |patched| { block[i] := patched[i]; }
      assert block[..] == patched + seq(aligned - |patched|, _ => 0);
      var origEndSector := lastBlock + 1;
      config := MemFile(origEndSector % 0x1_0000_0000, aligned / 2048, block[..]);
      configEntry := Some(Redirect(dirSector, dirOffset, config.sector, |patched|));
      lastBlock := origEndSector + config.sectors - 1;
    }
  }
}
