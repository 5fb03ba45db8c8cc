/** What a disk boots after each way of writing it: the boot code in its first sector and the
    second stage behind the partition table. */
module BootChain {
  import opened Bytes
  import opened PartitionTables
  import opened Installer
  import opened TableUpdate
  import opened AlongsideInstall
  import opened RawUpdate
  import opened InstalledDisk
  import BootImage

  /** The second stage lies on the disk from sector `first` on, up to `sectors` sectors of it. */
  predicate HasStage2(r: seq<byte>, stage2: seq<byte>, first: nat, sectors: nat) {
    var n := Least(|stage2|, sectors * 512);
    first * 512 + n <= |r| && r[first * 512..first * 512 + n] == stage2[..n]
  }

  /** The first sector holds the boot code, up to 440 bytes of it, with the disk's GUID in its place. */
  predicate HasCode(r: seq<byte>, code: seq<byte>) {
    |r| >= 440 && forall i :: 0 <= i < Least(|code|, 440) && !(384 <= i < 400) ==> r[i] == code[i]
  }

  /** The boot image with the sector it reads from set to 34, at its first searched instruction. */
  function ReadsFrom34(img: seq<byte>, p: nat): (code: seq<byte>)
    requires p + 8 <= |img|
  {
    Splice(img, p + 4, Le32(34))
  }

  /** The searched instruction lies before the GUID, and none comes before it. */
  predicate FirstAt(img: seq<byte>, p: nat) {
    |img| >= 440 && p + 8 <= 384 && NeedleAt(img, p) && forall k :: 0 <= k < p ==> !NeedleAt(img, k)
  }

  /** The program's own image is such an image. */
  lemma OwnImage()
    ensures FirstAt(BootImage.Image(), BootImage.NEEDLE_AT)
  {
    BootImage.ImageNeedle();
    hide BootImage.Image, NeedleAt;
  }

  // ── The boot sector ───────────────────────────────────────────────────

  /** A sector with the boot image in it, patched: the image reads from sector 34. */
  lemma PatchedCode(s: seq<byte>, img: seq<byte>, p: nat)
    requires |s| == SECTOR_SIZE && FirstAt(img, p) && s[..384] == img[..384]
    requires forall i :: 400 <= i < 440 ==> s[i] == img[i]
    ensures HasCode(LbaPatched(s, 0, PatchRange(img)), ReadsFrom34(img, p))
  {
    hide LbaPatched, NEEDLE;
    forall k | 0 <= k <= p ensures NeedleAt(s, k) == NeedleAt(img, k) { SameNeedle(s, img, 384, k); }
    NeedleFirst(s, 0, PatchRange(img), p);
    hide NeedleAt;
    var (t, code) := (Splice(s, p + 4, Le32(34)), ReadsFrom34(img, p));
    forall i | 0 <= i < 440 && !(384 <= i < 400) ensures t[i] == code[i] {
      assert i < 384 ==> s[i] == s[..384][i] && img[i] == img[..384][i];
    }
  }

  /** Stage 2 and whatever is written elsewhere. */
  lemma Stage2Here(d: seq<byte>, stage2: seq<byte>, first: nat, sectors: nat)
    requires (first + sectors) * 512 <= |d|
    ensures HasStage2(Splice(d, first * 512, Stage2(stage2, sectors)), stage2, first, sectors)
  {
    SpliceHere(d, first * 512, Stage2(stage2, sectors));
    hide Splice;
  }

  lemma Stage2Stays(d: seq<byte>, r: seq<byte>, stage2: seq<byte>, first: nat, sectors: nat)
    requires HasStage2(d, stage2, first, sectors) && |r| == |d| && (first + sectors) * 512 <= |d|
    requires r[first * 512..(first + sectors) * 512] == d[first * 512..(first + sectors) * 512]
    ensures HasStage2(r, stage2, first, sectors)
  {
    var n := Least(|stage2|, sectors * 512);
    SameInside(r, d, first * 512, (first + sectors) * 512, first * 512, first * 512 + n);
  }

  lemma StampedBytes(s: seq<byte>, img: seq<byte>, guid: seq<byte>, i: nat)
    requires |s| == SECTOR_SIZE && |guid| == 16 && i < 440
    ensures Stamped(s, img, guid)[i] == if 384 <= i < 400 then guid[i - 384] else if i < |img| then img[i] else s[i]
  {
  }

  // ── Fresh installations ───────────────────────────────────────────────

  /** After a fresh MBR installation the disk boots the image, and stage 2 lies from sector 1 on. */
  lemma MbrInstallBoots(d: seq<byte>, img: seq<byte>, stage2: seq<byte>, guid: seq<byte>, part2: nat)
    requires |guid| == 16 && PART1_START <= part2 < 0x1_0000_0000 && |d| >= DATA_START
    ensures var r := MbrInstalled(d, img, stage2, guid, part2);
            HasCode(r, img) && r[384..400] == guid && HasStage2(r, stage2, 1, 2047)
  {
    var (zero: seq<byte>, sector) := (seq(SECTOR_SIZE, i => 0), MbrSector(img, guid, part2));
    hide Stamped, MbrTableFor, EncodeMbrTable;
    forall i | 0 <= i < 440 ensures sector[i] == Stamped(zero, img, guid)[i] {}
    forall i | 0 <= i < 440 { StampedBytes(zero, img, guid, i); }
    hide MbrSector;
    var d1 := Splice(d, 0, sector);
    Stage2Here(d1, stage2, 1, 2047);
    var r := MbrInstalled(d, img, stage2, guid, part2);
    forall i | 0 <= i < 440 ensures r[i] == sector[i] {}
  }

  /** After a fresh GPT installation it boots the image, set to read from sector 34, where stage 2 lies. */
  lemma GptInstallBoots(d: seq<byte>, img: seq<byte>, stage2: seq<byte>, g: Gpt, crc: Crc, p: nat)
    requires g.Valid() && g.header.headerSize == 92 && Placed(g, |d|) && g.header.tableStart == 2
    requires |d| >= DATA_START && DATA_START <= BackupTableAt(g.header) && FirstAt(img, p)
    ensures var r := GptInstalled(d, img, stage2, g, crc);
            HasCode(r, ReadsFrom34(img, p)) && r[384..400] == g.header.diskGuid && HasStage2(r, stage2, 34, 2014)
  {
    FinalizedPlaced(g, |d|, crc);
    assert Finalized(g, crc).header.tableStart == 2 && Finalized(g, crc).header.backupLba == g.header.backupLba;
    var d1 := Splice(d, 34 * 512, Stage2(stage2, 2014));
    Stage2Here(d, stage2, 34, 2014);
    hide Splice, Stage2, WithGpt, Finalized, HasStage2, FirstAt, HasCode;
    var b := GptBase(d, stage2, g, crc);
    GptElsewhere(d1, Finalized(g, crc), crc, 34 * 512, DATA_START);
    Stage2Stays(d1, b, stage2, 34, 2014);
    BootSectorBoots(b, img, stage2, g.header.diskGuid, p);
  }

  /** So does every GPT disk as the installer composes it. */
  lemma FreshGptBoots(d: seq<byte>, img: seq<byte>, stage2: seq<byte>, crc: Crc, part2: nat, diskGuid: seq<byte>,
                      guid1: seq<byte>, guid2: seq<byte>, p: nat)
    requires 69632 * SECTOR_SIZE <= |d| < 0x1_0000_0000_0000_0000 && PART1_START < part2 <= |d| / SECTOR_SIZE
    requires |diskGuid| == |guid1| == |guid2| == 16 && FirstAt(img, p)
    ensures var g := NewGpt(|d| / SECTOR_SIZE, part2, diskGuid, guid1, guid2);
            && g.Valid() && g.header.headerSize == 92 && Placed(g, |d|)
            && var r := GptInstalled(d, img, stage2, g, crc);
               HasCode(r, ReadsFrom34(img, p)) && r[384..400] == diskGuid && HasStage2(r, stage2, 34, 2014)
  {
    NewGptPlaced(|d|, part2, diskGuid, guid1, guid2);
    NewGptShape(|d| / SECTOR_SIZE, part2, diskGuid, guid1, guid2);
    hide NewGpt, GptInstalled, HasCode, HasStage2, FirstAt, ReadsFrom34, Placed;
    GptInstallBoots(d, img, stage2, NewGpt(|d| / SECTOR_SIZE, part2, diskGuid, guid1, guid2), crc, p);
  }

  /** Rewriting the boot sector of a disk that holds stage 2. */
  lemma BootSectorBoots(b: seq<byte>, img: seq<byte>, stage2: seq<byte>, guid: seq<byte>, p: nat)
    requires |b| >= DATA_START && |guid| == 16 && FirstAt(img, p) && HasStage2(b, stage2, 34, 2014)
    ensures var r := Splice(b, 0, BootSector(b[..SECTOR_SIZE], img, guid));
            HasCode(r, ReadsFrom34(img, p)) && r[384..400] == guid && HasStage2(r, stage2, 34, 2014)
  {
    var s := Stamped(b[..SECTOR_SIZE], img, guid);
    forall i | 0 <= i < 440 { StampedBytes(b[..SECTOR_SIZE], img, guid, i); }
    hide Stamped, LbaPatched, PatchRange, HasStage2, ReadsFrom34;
    PatchedCode(s, img, p);
    GuidInSector(s, img, guid, p);
    var (sector, r) := (BootSector(b[..SECTOR_SIZE], img, guid), Splice(b, 0, BootSector(b[..SECTOR_SIZE], img, guid)));
    SpliceElsewhere(b, 0, sector, 34 * 512, DATA_START);
    Stage2Stays(b, r, stage2, 34, 2014);
    forall i | 0 <= i < SECTOR_SIZE ensures r[i] == sector[i] {}
    assert r[384..400] == sector[384..400];
  }

  lemma GuidInSector(s: seq<byte>, img: seq<byte>, guid: seq<byte>, p: nat)
    requires |s| == SECTOR_SIZE && FirstAt(img, p) && s[..384] == img[..384] && s[384..400] == guid
    ensures LbaPatched(s, 0, PatchRange(img))[384..400] == guid
  {
    hide LbaPatched, NEEDLE;
    forall k | 0 <= k <= p ensures NeedleAt(s, k) == NeedleAt(img, k) { SameNeedle(s, img, 384, k); }
    NeedleFirst(s, 0, PatchRange(img), p);
    hide NeedleAt;
    SpliceElsewhere(s, p + 4, Le32(34), 384, 400);
  }

  // ── Next to other partitions ──────────────────────────────────────────

  lemma StampBoots(b: seq<byte>, guid: seq<byte>, code: seq<byte>, stage2: seq<byte>, first: nat, sectors: nat)
    requires |b| >= DATA_START && |guid| == 16 && HasCode(b, code) && HasStage2(b, stage2, first, sectors)
    requires 1 <= first && (first + sectors) * 512 <= |b|
    ensures var r := GuidStamped(b, guid);
            HasCode(r, code) && r[384..400] == guid && HasStage2(r, stage2, first, sectors)
  {
    var r := GuidStamped(b, guid);
    GuidStays(b, guid);
    assert forall i :: 0 <= i < 440 && !(384 <= i < 400) ==> r[i] == b[i];
    assert r[first * 512..(first + sectors) * 512] == b[first * 512..(first + sectors) * 512];
    hide GuidStamped, HasStage2;
    Stage2Stays(b, r, stage2, first, sectors);
  }

  lemma MbrAlongsideBoots(d: seq<byte>, m: Mbr, img: seq<byte>, stage2: seq<byte>, guid: seq<byte>)
    requires |d| >= DATA_START && m.Valid() && |guid| == 16
    ensures var r := MbrAlongside(d, m, img, stage2, guid);
            HasCode(r, img) && r[384..400] == guid && HasStage2(r, stage2, 1, 2047)
  {
    hide EncodeMbr, GuidStamped;
    var d1 := Splice(d, 0, EncodeMbr(m));
    var d2 := Splice(d1, 0, BootCode(img));
    Stage2Here(d2, stage2, 1, 2047);
    var b := BootImagesMbr(d1, img, stage2);
    forall i | 0 <= i < Least(|img|, 440) ensures b[i] == img[i] {}
    StampBoots(b, guid, img, stage2, 1, 2047);
  }

  lemma GptAlongsideBoots(d: seq<byte>, g: Gpt, crc: Crc, img: seq<byte>, stage2: seq<byte>, guid: seq<byte>, p: nat)
    requires |d| >= DATA_START && g.Valid() && Placed(g, |d|) && |guid| == 16 && FirstAt(img, p)
    ensures var r := GptAlongside(d, g, crc, img, stage2, guid);
            HasCode(r, ReadsFrom34(img, p)) && r[384..400] == guid && HasStage2(r, stage2, 34, 2014)
  {
    hide WithGpt, GuidStamped;
    var d0 := WithGpt(d, g, crc);
    var d1 := Splice(d0, 34 * 512, Stage2(stage2, 2014));
    Stage2Here(d0, stage2, 34, 2014);
    RecodedBoots(d1, img, stage2, p);
    StampBoots(BootImagesGpt(d0, img, stage2), guid, ReadsFrom34(img, p), stage2, 34, 2014);
  }

  lemma RecodedBoots(d1: seq<byte>, img: seq<byte>, stage2: seq<byte>, p: nat)
    requires |d1| >= DATA_START && FirstAt(img, p) && HasStage2(d1, stage2, 34, 2014)
    ensures var r := Splice(d1, 0, Recoded(d1[..SECTOR_SIZE], img));
            HasCode(r, ReadsFrom34(img, p)) && HasStage2(r, stage2, 34, 2014)
  {
    var s := Splice(Splice(d1[..SECTOR_SIZE], 0, BootCode(img)), 510, [0x55, 0xAA]);
    assert forall i :: 0 <= i < 440 ==> s[i] == img[i];
    assert s[..384] == img[..384];
    hide LbaPatched, PatchRange, HasStage2, ReadsFrom34, BootCode;
    PatchedCode(s, img, p);
    var (sector, r) := (Recoded(d1[..SECTOR_SIZE], img), Splice(d1, 0, Recoded(d1[..SECTOR_SIZE], img)));
    SpliceElsewhere(d1, 0, sector, 34 * 512, DATA_START);
    Stage2Stays(d1, r, stage2, 34, 2014);
    forall i | 0 <= i < SECTOR_SIZE ensures r[i] == sector[i] {}
  }

  // ── Updates ───────────────────────────────────────────────────────────

  /** An update of an MBR disk leaves the new image and all of the new stage 2: the end of the gap
      is saved after stage 2 has been written, so writing it back undoes nothing. */
  lemma MbrUpdateBoots(d: seq<byte>, img: seq<byte>, stage2: seq<byte>)
    requires |d| >= DATA_START
    ensures var r := MbrUpdated(d, img, stage2);
            HasCode(r, img) && r[384..400] == d[384..400] && HasStage2(r, stage2, 1, 2047)
  {
    MbrUpdateKeeps(d, img, stage2);
    hide ActiveFixed;
    var d1 := ActiveFixed(d);
    var d2 := Splice(d1, SECTOR_SIZE, Stage2(stage2, 2047));
    var d3 := Splice(d2, 0, BootCode(img));
    var d4 := Splice(d3, 384, d2[384..400]);
    Stage2Here(d1, stage2, 1, 2047);
    GapWriteBack(d2, img, d2[384..400]);
    assert MbrUpdated(d, img, stage2) == d4;
    hide MbrUpdated, Stage2;
    forall i | 0 <= i < Least(|img|, 440) && !(384 <= i < 400) ensures d4[i] == img[i] {}
    assert d4[512..2048 * 512] == d2[512..2048 * 512];
    hide HasStage2;
    Stage2Stays(d2, d4, stage2, 1, 2047);
  }

  lemma RewrittenBoots(d2: seq<byte>, img: seq<byte>, stage2: seq<byte>, p: nat)
    requires |d2| >= DATA_START && FirstAt(img, p) && HasStage2(d2, stage2, 34, 2014)
    ensures var r := BootRewritten(d2, img);
            HasCode(r, ReadsFrom34(img, p)) && HasStage2(r, stage2, 34, 2014)
  {
    hide Splice, HasStage2, FirstAt, HasCode, ReadsFrom34, BootSector;
    BootSectorBoots(d2, img, stage2, d2[384..400], p);
    var sector := BootSector(d2[..SECTOR_SIZE], img, d2[384..400]);
    SpliceElsewhere(d2, 0, sector, GAP_TAIL, DATA_START);
    SpliceSame(Splice(d2, 0, sector), GAP_TAIL, DATA_START);
  }

  /** So does an update of a GPT disk. */
  lemma GptUpdateBoots(d: seq<byte>, g: Gpt, img: seq<byte>, stage2: seq<byte>, crc: Crc, p: nat)
    requires ReadGpt(d) == Ok(g) && UsualPlace(g, |d|) && FirstAt(img, p)
    ensures var r := GptUpdated(d, g, img, stage2, crc);
            HasCode(r, ReadsFrom34(img, p)) && HasStage2(r, stage2, 34, 2014)
  {
    var d1 := WithStage2(d, stage2);
    Stage2Here(d, stage2, 34, 2014);
    RepairedDisk(d, g, stage2, crc);
    UsualIsRewritable(g, |d|);
    var (d2, hi) := (AttributesFixed(d1, g, crc), BackupTableAt(g.header));
    assert GptUpdated(d, g, img, stage2, crc) == BootRewritten(d2, img);
    hide ReadGpt, WithStage2, AttributesFixed, GptUpdated, BootRewritten, HasStage2, FirstAt, HasCode, ReadsFrom34,
         UsualPlace, Rewritable, After;
    SameInside(d2, d1, 34 * 512, hi, 34 * 512, DATA_START);
    Stage2Stays(d1, d2, stage2, 34, 2014);
    RewrittenBoots(d2, img, stage2, p);
  }
}
