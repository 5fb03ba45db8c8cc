/** The ISO file as it lies on the disk: what blocks, extents and the volume descriptor of the
    virtual device are in terms of the file's own bytes. */
module IsoImage {
  import opened Bytes
  import opened IsoDirectory
  import opened IsoWalkers
  import opened Overlay
  import opened OverlaySteps
  import opened VirtualCdrom
  import opened VirtualTree
  import opened VirtualVolume

  /** `n` bytes of the ISO file that starts at sector `isoLba` of the disk, from byte `at` of the file on. */
  function FileBytes(disk: seq<byte>, isoLba: nat, at: nat, n: nat): (s: seq<byte>)
    requires isoLba * 512 + at + n <= |disk|
    ensures |s| == n
  {
    disk[isoLba * 512 + at..][..n]
  }

  // ── Blocks and extents ────────────────────────────────────────────────

  /** An extent of the image is that stretch of the ISO file. */
  lemma {:induction false} ExtentIsFile(disk: seq<byte>, isoLba: nat, lba: nat, size: nat)
    requires isoLba * 512 + (lba + Sectors(size)) * 2048 <= |disk|
    ensures ExtentBytes(RawMedium(disk, isoLba), lba, size) == FileBytes(disk, isoLba, lba * 2048, size)
    decreases size
  {
    var at := isoLba * 512 + lba * 2048;
    if size > 2048 {
      ExtentIsFile(disk, isoLba, lba + 1, size - 2048);
      assert disk[at..][..size] == disk[at..at + 2048] + disk[at + 2048..][..size - 2048];
    } else if size > 0 {
      assert disk[at..at + 2048][..size] == disk[at..][..size];
    }
  }

  /** The bytes of the volume descriptor that the device replaces on its own: the label and the volume size. */
  predicate Relabelled(at: nat) { 16 * 2048 + 40 <= at < 16 * 2048 + 72 || 16 * 2048 + 80 <= at < 16 * 2048 + 88 }

  /** The descriptor served, byte by byte. */
  lemma DescriptorByte(o: Disc, sec: Sector, i: nat)
    requires i < 2048
    ensures var (volume, p) := ((o.lastBlock + 1) % 0x1_0000_0000, o.premountEntry);
            PatchedPvd(o, sec)[i] ==
            if 40 <= i < 72 then VolumeLabel()[i - 40]
            else if 80 <= i < 88 then (Le32(volume) + Be32(volume))[i - 80]
            else if p.Injected? && p.rootSize > 0 && 166 <= i < 174 then (Le32(p.rootSize) + Be32(p.rootSize))[i - 166]
            else sec[i]
  {
    hide Le32, Be32, VolumeLabel;
  }

  lemma FreshBlock(disk: seq<byte>, isoLba: nat, blocks: nat, b: nat)
    requires blocks > 0 && isoLba * 512 + (b + 1) * 2048 <= |disk|
    ensures var r := Served(Fresh(RawMedium(disk, isoLba), blocks), b);
            r.Some? && forall i :: 0 <= i < 2048 && !Relabelled(b * 2048 + i) ==>
              r.value[i] == disk[isoLba * 512 + b * 2048 + i]
  {
    hide PatchedPvd;
    var o, at := Fresh(RawMedium(disk, isoLba), blocks), isoLba * 512 + b * 2048;
    assert o.raw(b) == Some(disk[at..at + 2048]);
    var sec := o.raw(b).value;
    forall i | 0 <= i < 2048 && !Relabelled(b * 2048 + i) ensures Served(o, b).value[i] == disk[at + i] {
      assert disk[at + i] == sec[i];
      DescriptorByte(o, sec, i);
    }
  }

  lemma {:induction false} AllServed(disk: seq<byte>, isoLba: nat, blocks: nat, lba: nat, n: nat)
    requires blocks > 0 && isoLba * 512 + (lba + n) * 2048 <= |disk|
    ensures ServedRun(Fresh(RawMedium(disk, isoLba), blocks), lba, n) == n
    decreases n
  {
    hide Served, RawMedium;
    if n > 0 {
      FreshBlock(disk, isoLba, blocks, lba);
      AllServed(disk, isoLba, blocks, lba + 1, n - 1);
    }
  }

  /** Reading from a fresh device fills the buffer with the ISO file's own bytes from that block on,
      but for the label and the volume size. */
  lemma FreshRead(disk: seq<byte>, isoLba: nat, blocks: nat, lba: nat, s: seq<byte>, n: nat, i: nat)
    requires blocks > 0 && isoLba * 512 + (lba + n) * 2048 <= |disk| && |s| == n * 2048 && i < |s|
    ensures var o := Fresh(RawMedium(disk, isoLba), blocks);
            && ServedRun(o, lba, n) == n
            && (!Relabelled(lba * 2048 + i) ==> Filled(o, lba, s, n)[i] == disk[isoLba * 512 + lba * 2048 + i])
  {
    hide Served, RawMedium, Filled, ServedRun;
    var o, c := Fresh(RawMedium(disk, isoLba), blocks), i / 2048;
    AllServed(disk, isoLba, blocks, lba, n);
    FilledIsBlocks(o, lba, s, n, n, c);
    FreshBlock(disk, isoLba, blocks, lba + c);
    assert Filled(o, lba, s, n)[i] == Filled(o, lba, s, n)[c * 2048..(c + 1) * 2048][i - c * 2048];
  }

  // ── The volume descriptor ─────────────────────────────────────────────

  /** Sections 8.4.1 and 8.4.2 of ECMA-119: a primary volume descriptor has type 1 and identifier CD001. */
  lemma DescriptorKnown(sec: Sector)
    ensures IsPvd(sec) <==> sec[0] == 1 && sec[1..6] == Ascii("CD001")
  {
    assert Ascii("CD001") == [67, 68, 48, 48, 49];
  }

  /** Section 8.4 of ECMA-119: the root directory record lies at byte 156 of the descriptor. */
  lemma RootOfDescriptor(sec: Sector, s: seq<byte>, e: Entry)
    requires 156 + |s| <= 2048 && sec[156..156 + |s|] == s && RecordBytes(s, e)
    ensures PvdRoot(sec) == (e.extent, e.size)
  {
    RecordReadBack(sec, 16, 156, s, e);
  }

  /** The descriptor served instead: the volume size and, with an injected record, the root length
      are recorded in both byte orders, and the label reads CHOOSABLE. */
  lemma ServedDescriptor(o: Disc, sec: Sector, s: seq<byte>, e: Entry)
    requires 156 + |s| <= 2048 && sec[156..156 + |s|] == s && RecordBytes(s, e) && o.lastBlock + 1 < 0x1_0000_0000
    ensures var (t, p) := (PatchedPvd(o, sec), o.premountEntry);
            && t[80..84] == Le32(o.lastBlock + 1) && t[84..88] == Reversed(t[80..84])
            && t[40..72] == Ascii("CHOOSABLE                       ")
            && RecordBytes(t[156..156 + |s|], e.(size := if p.Injected? && p.rootSize > 0 then p.rootSize else e.size))
  {
    hide Le32, Be32, Reversed;
    var (t, p) := (PatchedPvd(o, sec), o.premountEntry);
    LabelText();
    hide VolumeLabel, PatchedPvd;
    forall i | 0 <= i < 2048 { DescriptorByte(o, sec, i); }
    Be32IsReversed(o.lastBlock + 1);
    assert t[40..72] == VolumeLabel();
    assert t[80..84] == Le32(o.lastBlock + 1) && t[84..88] == Be32(o.lastBlock + 1);
    RootServed(o, sec, t, s, e);
  }

  lemma RootServed(o: Disc, sec: Sector, t: Sector, s: seq<byte>, e: Entry)
    requires 156 + |s| <= 2048 && sec[156..156 + |s|] == s && RecordBytes(s, e) && t == PatchedPvd(o, sec)
    ensures var p := o.premountEntry;
            RecordBytes(t[156..156 + |s|], e.(size := if p.Injected? && p.rootSize > 0 then p.rootSize else e.size))
  {
    hide Le32, Be32, Reversed, PatchedPvd, VolumeLabel;
    var p, u := o.premountEntry, t[156..156 + |s|];
    var grown := p.Injected? && p.rootSize > 0;
    forall i | 0 <= i < |s| && !(grown && 10 <= i < 18) ensures u[i] == s[i] {
      DescriptorByte(o, sec, 156 + i);
      assert u[i] == t[156 + i] && s[i] == sec[156 + i];
    }
    assert u[2..6] == s[2..6] && u[6..10] == s[6..10] && u[33..33 + |e.name|] == s[33..33 + |e.name|];
    if grown {
      Be32IsReversed(p.rootSize);
      var data := Le32(p.rootSize) + Be32(p.rootSize);
      forall k | 0 <= k < 8 ensures u[10 + k] == data[k] { DescriptorByte(o, sec, 166 + k); }
      assert u[10..14] == data[0..4] && u[14..18] == data[4..8];
    } else {
      assert u[10..14] == s[10..14] && u[14..18] == s[14..18];
    }
  }

  lemma LabelText()
    ensures VolumeLabel() == Ascii("CHOOSABLE                       ")
  {
  }

  // ── Files of the disk ─────────────────────────────────────────────────

  /** The prepared device over an ISO file on the disk: every file that is neither the config nor
      the archive reads as the bytes of the ISO file at its extent. */
  lemma DiskFilesUnchanged(disk: seq<byte>, isoLba: nat, v: Volume, buf: seq<byte>, size: u32,
                           ignore: seq<(seq<byte>, bool)>, d: Dir, name: seq<byte>, content: seq<byte>,
                           path: seq<seq<byte>>)
    requires v.m == RawMedium(disk, isoLba) && isoLba * 512 + v.blocks * 2048 <= |disk|
    requires v.WellFormed() && |buf| % 2048 == 0 && size <= |buf| && |content| < 0x1_0000_0000
    requires v.blocks + Sectors(|buf|) + Sectors(|content|) < 0x1_0000_0000
    requires ChainEnd(v.m(v.root.0 + Sectors(v.root.1) - 1).value, 0) + 47 <= 2048
    requires d in v.dirs && path != []
    requires LooseLookup(v.m, d.0, d.1, 0, Sectors(d.1), name).Some? &&
             !LooseLookup(v.m, d.0, d.1, 0, Sectors(d.1), name).value.IsDir()
    requires var (r, cfg) := (Resolve(v.m, v.root, path), LooseLookup(v.m, d.0, d.1, 0, Sectors(d.1), name).value);
             r.Some? && !r.value.IsDir() && !(r.value.sector == cfg.sector && r.value.off == cfg.off)
    ensures var cfg := LooseLookup(v.m, d.0, d.1, 0, Sectors(d.1), name).value;
            var victim := FirstReplaceable(v.m, v.root.0, v.root.1, 0, Sectors(v.root.1), ignore);
            var o := WithConfig(WithPremount(Fresh(v.m, v.blocks), buf, size, victim), cfg.sector, cfg.off, content);
            var r := Resolve(v.m, v.root, path).value;
            && View(o)(16).Some? && (r.size > 0 ==> isoLba * 512 + r.extent * 2048 + r.size <= |disk|)
            && ReadFile(View(o), PvdRoot(View(o)(16).value), path)
               == Some(if r.size == 0 then [] else FileBytes(disk, isoLba, r.extent * 2048, r.size))
  {
    var r := Resolve(v.m, v.root, path).value;
    hide LooseLookup, FirstReplaceable, ReadFile, View, WithConfig, WithPremount, ExtentBytes, Resolve, ChainEnd,
         PvdRoot, RawMedium, Volume.WellFormed, ParentIsRoot, ArchiveName;
    PatchedImage(v, buf, size, ignore, d, name, content, path);
    FileInImage(v, path);
    NothingThere(v.m, r.extent);
    if r.size > 0 { ExtentIsFile(disk, isoLba, r.extent, r.size); }
  }

  lemma NothingThere(m: Medium, lba: nat)
    ensures ExtentBytes(m, lba, 0) == []
  {
  }

  lemma FileInImage(v: Volume, path: seq<seq<byte>>)
    requires v.WellFormed() && path != [] && Resolve(v.m, v.root, path).Some? &&
             !Resolve(v.m, v.root, path).value.IsDir()
    ensures var r := Resolve(v.m, v.root, path).value; r.size > 0 ==> r.extent + Sectors(r.size) <= v.blocks
  {
    hide Resolve, Listing;
    RootIsDir(v);
    var e := ResolvedOriginal(v, v.root, path);
    var r := Resolve(v.m, v.root, path).value;
    assert v.FileOk(r.extent, r.size);
    if r.size > 0 {
      var last := r.extent + Sectors(r.size) - 1;
      assert v.m(last).Some?;
    }
  }
}
