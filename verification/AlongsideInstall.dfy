/** The non-destructive installation on the disk: the table with the new partition, the boot
    images around it, and a fresh GUID in the boot sector. */
module AlongsideInstall {
  import opened Bytes
  import opened PartitionTables
  import opened Installer
  import opened TableUpdate

  // ── What is written ───────────────────────────────────────────────────

  function BootImagesMbr(d: seq<byte>, img: seq<byte>, stage2: seq<byte>): (r: seq<byte>)
    requires |d| >= DATA_START
    ensures |r| == |d|
  {
    Splice(Splice(d, 0, BootCode(img)), SECTOR_SIZE, Stage2(stage2, 2047))
  }

  /** A boot sector with new boot code, its sector operand patched. */
  function Recoded(sector: seq<byte>, img: seq<byte>): (r: seq<byte>)
    requires |sector| == SECTOR_SIZE
    ensures |r| == SECTOR_SIZE
  {
    LbaPatched(Splice(Splice(sector, 0, BootCode(img)), 510, [0x55, 0xAA]), 0, PatchRange(img))
  }

  function BootImagesGpt(d: seq<byte>, img: seq<byte>, stage2: seq<byte>): (r: seq<byte>)
    requires |d| >= DATA_START
    ensures |r| == |d|
  {
    var d1 := Splice(d, 34 * SECTOR_SIZE, Stage2(stage2, 2014));
    Splice(d1, 0, Recoded(d1[..SECTOR_SIZE], img))
  }

  function GuidStamped(d: seq<byte>, guid: seq<byte>): (r: seq<byte>)
    requires |d| >= SECTOR_SIZE && |guid| == 16
    ensures |r| == |d|
  {
    Splice(Splice(d, 384, guid), 440, guid[12..16])
  }

  function MbrAlongside(d: seq<byte>, m: Mbr, img: seq<byte>, stage2: seq<byte>, guid: seq<byte>): (r: seq<byte>)
    requires |d| >= DATA_START && m.Valid() && |guid| == 16
    ensures |r| == |d|
  {
    GuidStamped(BootImagesMbr(Splice(d, 0, EncodeMbr(m)), img, stage2), guid)
  }

  function GptAlongside(d: seq<byte>, g: Gpt, crc: Crc, img: seq<byte>, stage2: seq<byte>,
                        guid: seq<byte>): (r: seq<byte>)
    requires |d| >= DATA_START && g.Valid() && Placed(g, |d|) && |guid| == 16
    ensures |r| == |d|
  {
    GuidStamped(BootImagesGpt(WithGpt(d, g, crc), img, stage2), guid)
  }

  // ── The writers ───────────────────────────────────────────────────────

  method WriteBootImages(disk: array<byte>, isGpt: bool, img: seq<byte>, stage2: seq<byte>)
    requires disk.Length >= DATA_START
    modifies disk
    ensures disk[..] == if isGpt then BootImagesGpt(old(disk[..]), img, stage2)
                        else BootImagesMbr(old(disk[..]), img, stage2)
  {
    hide Splice, LbaPatched;
    if isGpt {
      CopyInto(disk, 34 * SECTOR_SIZE, Stage2(stage2, 2014));
      ghost var d1 := disk[..];
      var mbrBytes := disk[..SECTOR_SIZE];
      assert mbrBytes == d1[..SECTOR_SIZE];
      mbrBytes := Splice(Splice(mbrBytes, 0, BootCode(img)), 510, [0x55, 0xAA]);
      mbrBytes := PatchLba(mbrBytes, PatchRange(img));
      CopyInto(disk, 0, mbrBytes);
    } else {
      CopyInto(disk, 0, BootCode(img));
      CopyInto(disk, SECTOR_SIZE, Stage2(stage2, 2047));
    }
  }

  method StampGuid(disk: array<byte>, guid: seq<byte>)
    requires disk.Length >= SECTOR_SIZE && |guid| == 16
    modifies disk
    ensures disk[..] == GuidStamped(old(disk[..]), guid)
  {
    hide Splice;
    CopyInto(disk, 384, guid);
    CopyInto(disk, 440, guid[12..16]);
  }

  /** Installs behind partition 1 of an MBR disk; without a free slot nothing changes. */
  method InstallAlongsideMbr(disk: array<byte>, mbr: Mbr, part2: u64, img: seq<byte>, stage2: seq<byte>,
                             guid: seq<byte>)
    returns (r: Result<nat>)
    requires disk.Length >= DATA_START && mbr.Valid() && |guid| == 16
    modifies disk
    ensures r.Ok? <==> FirstFree(MbrExtents(mbr), 1).Some?
    ensures r.Ok? ==> FirstFree(MbrExtents(mbr), 1) == Some(r.value)
                      && disk[..] == MbrAlongside(old(disk[..]), NewMbr(mbr, r.value, part2), img, stage2, guid)
    ensures r.Err? ==> disk[..] == old(disk[..])
  {
    hide Splice, EncodeMbr, NewMbr, BootImagesMbr, GuidStamped;
    r := UpdateMbrTable(disk, mbr, part2);
    if r.Err? { return; }
    WriteBootImages(disk, false, img, stage2);
    StampGuid(disk, guid);
  }

  /** The same on a GPT disk. */
  method InstallAlongsideGpt(disk: array<byte>, part2: u64, partGuid: seq<byte>, crc: Crc, img: seq<byte>,
                             stage2: seq<byte>, guid: seq<byte>)
    returns (r: Result<nat>)
    requires disk.Length >= DATA_START && 0 < part2 <= LAST_START && |partGuid| == |guid| == 16
    requires ReadGpt(disk[..]).Ok? ==> Rewritable(ReadGpt(disk[..]).value, disk.Length)
    modifies disk
    ensures r.Ok? <==>
            ReadGpt(old(disk[..])).Ok? && FirstFree(GptExtents(ReadGpt(old(disk[..])).value.partitions), 1).Some?
    ensures r.Ok? ==> var g := ReadGpt(old(disk[..])).value;
                      && FirstFree(GptExtents(g.partitions), 1) == Some(r.value)
                      && var f := Grown(g, r.value, part2, partGuid, crc);
                         Placed(f, disk.Length) && disk[..] == GptAlongside(old(disk[..]), f, crc, img, stage2, guid)
    ensures r.Err? ==> disk[..] == old(disk[..])
  {
    hide ReadGpt, WithGpt, NewEntries, Finalized, BootImagesGpt, GuidStamped, Rewritable, Placed;
    r := UpdateGptTable(disk, part2, partGuid, crc);
    if r.Err? { return; }
    WriteBootImages(disk, true, img, stage2);
    StampGuid(disk, guid);
  }

  /** The finished GPT with the new entry. */
  function Grown(g: Gpt, slot: nat, part2: u64, partGuid: seq<byte>, crc: Crc): (f: Gpt)
    requires g.Valid() && g.header.headerSize <= SECTOR_SIZE
    requires 0 < slot < ENTRIES && 0 < part2 <= LAST_START && |partGuid| == 16
    ensures f.Valid()
  {
    Finalized(g.(partitions := NewEntries(g.partitions, slot, part2, partGuid)), crc)
  }

  // ── What the boot images and the GUID leave alone ─────────────────────

  lemma GuidStays(d: seq<byte>, guid: seq<byte>)
    requires |d| >= SECTOR_SIZE && |guid| == 16
    ensures var r := GuidStamped(d, guid);
            r[384..400] == guid && r[440..444] == guid[12..16] && r[444..] == d[444..]
  {
    hide Splice;
    var d1 := Splice(d, 384, guid);
    SpliceHere(d, 384, guid);
    SpliceHere(d1, 440, guid[12..16]);
    SpliceElsewhere(d1, 440, guid[12..16], 384, 400);
    SpliceElsewhere(d, 384, guid, 444, |d|);
    SpliceElsewhere(d1, 440, guid[12..16], 444, |d|);
  }

  lemma MbrImagesKeep(d: seq<byte>, img: seq<byte>, stage2: seq<byte>, guid: seq<byte>)
    requires |d| >= DATA_START && |guid| == 16
    ensures var r := GuidStamped(BootImagesMbr(d, img, stage2), guid);
            && r[444..SECTOR_SIZE] == d[444..SECTOR_SIZE] && r[DATA_START..] == d[DATA_START..]
            && r[384..400] == guid && r[440..444] == guid[12..16]
  {
    hide Splice, GuidStamped, BootCode, Stage2;
    var (d1, b) := (Splice(d, 0, BootCode(img)), BootImagesMbr(d, img, stage2));
    GuidStays(b, guid);
    SpliceElsewhere(d, 0, BootCode(img), 444, SECTOR_SIZE);
    SpliceElsewhere(d1, SECTOR_SIZE, Stage2(stage2, 2047), 444, SECTOR_SIZE);
    SpliceElsewhere(d, 0, BootCode(img), DATA_START, |d|);
    SpliceElsewhere(d1, SECTOR_SIZE, Stage2(stage2, 2047), DATA_START, |d|);
    var r := GuidStamped(b, guid);
    assert r[444..SECTOR_SIZE] == r[444..][..68] && b[444..SECTOR_SIZE] == b[444..][..68];
    assert r[DATA_START..] == r[444..][DATA_START - 444..] && b[DATA_START..] == b[444..][DATA_START - 444..];
  }

  lemma RecodedKeeps(sector: seq<byte>, img: seq<byte>)
    requires |sector| == SECTOR_SIZE
    ensures Recoded(sector, img)[446..510] == sector[446..510] && Recoded(sector, img)[510..512] == [0x55, 0xAA]
  {
    hide Splice, BootCode, LbaPatched, PatchRange;
    var s1 := Splice(sector, 0, BootCode(img));
    var s := Splice(s1, 510, [0x55, 0xAA]);
    SpliceElsewhere(sector, 0, BootCode(img), 446, 510);
    SpliceElsewhere(s1, 510, [0x55, 0xAA], 446, 510);
    SpliceHere(s1, 510, [0x55, 0xAA]);
    LbaPatchedTail(s, 0, PatchRange(img));
    var r := Recoded(sector, img);
    assert r[446..510] == r[440..][6..70] && s[446..510] == s[440..][6..70];
    assert r[510..512] == r[440..][70..] && s[510..512] == s[440..][70..];
  }

  lemma GptImagesKeep(d: seq<byte>, img: seq<byte>, stage2: seq<byte>, guid: seq<byte>)
    requires |d| >= DATA_START && |guid| == 16
    ensures var r := GuidStamped(BootImagesGpt(d, img, stage2), guid);
            && r[446..510] == d[446..510] && r[510..512] == [0x55, 0xAA]
            && r[SECTOR_SIZE..34 * SECTOR_SIZE] == d[SECTOR_SIZE..34 * SECTOR_SIZE] &&
               r[DATA_START..] == d[DATA_START..]
            && r[384..400] == guid && r[440..444] == guid[12..16]
  {
    hide Splice, GuidStamped, Stage2, Recoded;
    var d1 := Splice(d, 34 * SECTOR_SIZE, Stage2(stage2, 2014));
    var (sector, b) := (Recoded(d1[..SECTOR_SIZE], img), BootImagesGpt(d, img, stage2));
    GuidStays(b, guid);
    RecodedKeeps(d1[..SECTOR_SIZE], img);
    SpliceHere(d1, 0, sector);
    Inside(b, 0, sector, 446, 510);
    Inside(b, 0, sector, 510, 512);
    SpliceElsewhere(d, 34 * SECTOR_SIZE, Stage2(stage2, 2014), 446, 510);
    assert d1[..SECTOR_SIZE][446..510] == d1[446..510];
    KeptAround(d, d1, b, Stage2(stage2, 2014), sector);
    SameFrom(GuidStamped(b, guid), b);
  }

  lemma KeptAround(d: seq<byte>, d1: seq<byte>, b: seq<byte>, stage2: seq<byte>, sector: seq<byte>)
    requires |d| >= DATA_START && |stage2| <= 2014 * SECTOR_SIZE && |sector| == SECTOR_SIZE
    requires d1 == Splice(d, 34 * SECTOR_SIZE, stage2) && b == Splice(d1, 0, sector)
    ensures |b| == |d| && b[SECTOR_SIZE..34 * SECTOR_SIZE] == d[SECTOR_SIZE..34 * SECTOR_SIZE] &&
            b[DATA_START..] == d[DATA_START..]
  {
    hide Splice;
    SpliceElsewhere(d, 34 * SECTOR_SIZE, stage2, SECTOR_SIZE, 34 * SECTOR_SIZE);
    SpliceElsewhere(d1, 0, sector, SECTOR_SIZE, 34 * SECTOR_SIZE);
    SpliceElsewhere(d, 34 * SECTOR_SIZE, stage2, DATA_START, |d|);
    SpliceElsewhere(d1, 0, sector, DATA_START, |d|);
  }

  lemma SameFrom(r: seq<byte>, b: seq<byte>)
    requires |r| == |b| >= DATA_START && r[444..] == b[444..]
    ensures r[446..510] == b[446..510] && r[510..512] == b[510..512]
    ensures r[SECTOR_SIZE..34 * SECTOR_SIZE] == b[SECTOR_SIZE..34 * SECTOR_SIZE] && r[DATA_START..] == b[DATA_START..]
  {
    assert r[444..|r|] == r[444..] && b[444..|b|] == b[444..];
    SameInside(r, b, 444, |r|, 446, 510);
    SameInside(r, b, 444, |r|, 510, 512);
    SameInside(r, b, 444, |r|, SECTOR_SIZE, 34 * SECTOR_SIZE);
    SameInside(r, b, 444, |r|, DATA_START, |r|);
  }

  // ── MBR ───────────────────────────────────────────────────────────────

  /** The plan for a table: a free slot and a start behind an aligned partition 1. */
  predicate Planned(t: seq<Extent>, limit: nat, slot: nat, part2: nat) {
    && Sound(t, limit) && FirstFree(t, 1) == Some(slot) && PlannedStart(t[0].len, NextStart(t, limit)) == Some(part2)
    && Part1End(t) % 8 == 0
  }

  /** A planned installation next to what is on an MBR disk: the disk reads back with a sound
      table in which only the first entry and the new one differ, everything from sector 2048 on
      is untouched, the GUID is in place, and the installer recognises the new partition if and
      only if the second entry was free. */
  lemma MbrAlongsideWorks(d: seq<byte>, slot: nat, part2: u64, img: seq<byte>, stage2: seq<byte>, guid: seq<byte>)
    requires |d| >= DATA_START && d[510] == 0x55 && d[511] == 0xAA && |guid| == 16 && part2 < 0x1_0000_0000
    requires Planned(MbrExtents(DecodeMbr(d)), |d| / SECTOR_SIZE, slot, part2 as int)
    ensures var (m, n) := (DecodeMbr(d), NewMbr(DecodeMbr(d), slot, part2));
            var r := MbrAlongside(d, n, img, stage2, guid);
            && DecodeMbr(r).partitions == n.partitions && r[510..512] == [0x55, 0xAA]
            && Sound(MbrExtents(DecodeMbr(r)), |d| / SECTOR_SIZE) &&
               MbrExtents(DecodeMbr(r))[slot] == Extent(true, part2 as int, EFI_SECTORS)
            && (forall k :: 0 < k < 4 && k != slot ==> DecodeMbr(r).partitions[k] == m.partitions[k])
            && r[DATA_START..] == d[DATA_START..] && r[384..400] == guid && r[440..444] == guid[12..16]
            && (Detect(r) == Ok(Some(part2 as int * SECTOR_SIZE)) <==> slot == 1)
  {
    var (m, n, limit) := (DecodeMbr(d), NewMbr(DecodeMbr(d), slot, part2), |d| / SECTOR_SIZE);
    var t := MbrExtents(m);
    AlignedUpdateIsSound(t, limit, slot, part2 as int);
    PlanBounds(t, limit, part2 as int);
    NewMbrExtentsIff(m, slot, part2);
    assert n.sig55 == 0x55 && n.sigAA == 0xAA;
    hide NewMbr, Sound, DecodeMbr, MbrExtents, Detect, Planned, Splice, MbrAlongside, Updated, PlannedStart, FirstFree,
         Lowest;
    MbrAlongsideReads(d, n, img, stage2, guid);
    var r := MbrAlongside(d, n, img, stage2, guid);
    SameExtents(DecodeMbr(r), n);
    MbrDetectedIff(r, m, slot, part2);
  }

  lemma SameExtents(a: Mbr, b: Mbr)
    requires a.Valid() && b.Valid() && a.partitions == b.partitions
    ensures MbrExtents(a) == MbrExtents(b)
  {
  }

  lemma MbrAlongsideReads(d: seq<byte>, n: Mbr, img: seq<byte>, stage2: seq<byte>, guid: seq<byte>)
    requires |d| >= DATA_START && n.Valid() && n.sig55 == 0x55 && n.sigAA == 0xAA && |guid| == 16
    ensures var r := MbrAlongside(d, n, img, stage2, guid);
            && DecodeMbr(r).partitions == n.partitions && r[510..512] == [0x55, 0xAA] &&
               r[DATA_START..] == d[DATA_START..]
            && r[384..400] == guid && r[440..444] == guid[12..16]
  {
    hide Splice, EncodeMbr, EncodeMbrTable, GuidStamped, BootImagesMbr, DecodeMbrTable;
    var (s, d1) := (EncodeMbr(n), Splice(d, 0, EncodeMbr(n)));
    EncodedMbrParts(n);
    SpliceHere(d, 0, s);
    SpliceElsewhere(d, 0, s, DATA_START, |d|);
    Inside(d1, 0, s, 446, 510);
    Inside(d1, 0, s, 510, 512);
    MbrImagesKeep(d1, img, stage2, guid);
    var r := MbrAlongside(d, n, img, stage2, guid);
    SameInside(r, d1, 444, SECTOR_SIZE, 446, 510);
    SameInside(r, d1, 444, SECTOR_SIZE, 510, 512);
    MbrTableRoundTrip(n.partitions, r, 446);
  }

  lemma EncodedMbrParts(n: Mbr)
    requires n.Valid() && n.sig55 == 0x55 && n.sigAA == 0xAA
    ensures EncodeMbr(n)[446..510] == EncodeMbrTable(n.partitions) && EncodeMbr(n)[510..512] == [0x55, 0xAA]
  {
    hide EncodeMbrTable;
  }

  lemma MbrDetectedIff(r: seq<byte>, m: Mbr, slot: nat, part2: u64)
    requires |r| >= SECTOR_SIZE && r[510..512] == [0x55, 0xAA] && m.Valid() && 0 < slot < 4 &&
             PART1_START < part2 < 0x1_0000_0000
    requires DecodeMbr(r).partitions == NewMbr(m, slot, part2).partitions
    requires Disjoint(MbrExtents(DecodeMbr(r))) &&
             MbrExtents(DecodeMbr(r))[slot] == Extent(true, part2 as int, EFI_SECTORS)
    ensures Detect(r) == Ok(Some(part2 as int * SECTOR_SIZE)) <==> slot == 1
  {
    var n := DecodeMbr(r);
    assert r[510] == r[510..512][0] && r[511] == r[510..512][1];
    NewMbrDetectedIff(n, m, slot, part2);
    hide NewMbr, MbrExtents, DecodeMbr, DetectMbr, ReadGpt;
  }

  lemma NewMbrDetectedIff(n: Mbr, m: Mbr, slot: nat, part2: u64)
    requires n.Valid() && m.Valid() && 0 < slot < 4 && PART1_START < part2 < 0x1_0000_0000
    requires n.partitions == NewMbr(m, slot, part2).partitions
    requires Disjoint(MbrExtents(n)) && MbrExtents(n)[slot] == Extent(true, part2 as int, EFI_SECTORS)
    ensures !n.IsGptProtective() && (DetectMbr(n) == Some(part2 as int * SECTOR_SIZE) <==> slot == 1)
  {
    hide ToChs, PackChs, EndLba;
    var t := MbrExtents(n);
    assert n.partitions[0].fsFlag == 0x07 && n.partitions[0].startLba == PART1_START;
    assert n.partitions[0].sectorCount as int == part2 as int - PART1_START;
    if slot == 1 {
      assert n.partitions[1].startLba as int == part2 as int && n.partitions[1].sectorCount == EFI_SECTORS;
    } else {
      assert t[1].used && t[slot].used ==> Apart(t[1], t[slot]);
    }
  }

  // ── GPT ───────────────────────────────────────────────────────────────

  /** A planned installation next to what is on a GPT disk: the disk reads back with the grown
      table, which is sound and equals the old one but for partition 1's end and the new entry;
      both copies agree; everything from sector 2048 to the backup table is untouched; the GUID is
      in place; and the installer recognises the new partition if and only if the second entry
      was free. */
  lemma GptAlongsideWorks(d: seq<byte>, g: Gpt, slot: nat, part2: u64, partGuid: seq<byte>, crc: Crc,
                          img: seq<byte>, stage2: seq<byte>, guid: seq<byte>)
    requires ReadGpt(d) == Ok(g) && UsualPlace(g, |d|) && |partGuid| == |guid| == 16 && partGuid != NO_UNIQUE
    requires 0 < slot < ENTRIES && 0 < part2 <= LAST_START
    requires Planned(GptExtents(g.partitions), g.header.areaEnd as int + 1, slot, part2 as int)
    ensures Placed(Grown(g, slot, part2, partGuid, crc), |d|) && |d| >= DATA_START
    ensures var f := Grown(g, slot, part2, partGuid, crc);
            var r, end := GptAlongside(d, f, crc, img, stage2, guid), BackupTableAt(f.header);
            && ReadGpt(r) == Ok(Gpt(Mbr(r[..446], g.mbr.partitions, 0x55, 0xAA), f.header, f.partitions))
            && Sound(GptExtents(f.partitions), f.header.areaEnd as int + 1) && f.header.areaEnd == g.header.areaEnd
            && f.partitions[0] == g.partitions[0].(endLba := part2 - 1)
            && f.partitions[slot] == GptEntry(EFI_TYPE, partGuid, part2, part2 + EFI_SECTORS - 1, EFI_ATTR, CzName())
            && (forall k :: 0 < k < ENTRIES && k != slot ==> f.partitions[k] == g.partitions[k])
            && AgreeingCopies(r, f.header, crc) && DATA_START <= end <= |d| && r[DATA_START..end] == d[DATA_START..end]
            && r[384..400] == guid && r[440..444] == guid[12..16]
            && (g.mbr.IsGptProtective() ==> (Detect(r) == Ok(Some(part2 as int * SECTOR_SIZE)) <==> slot == 1))
  {
    hide ReadGpt, DecodeMbr, Grown, NewEntries, UsualPlace, Placed, Splice, GptAlongside, AgreeingCopies, Detect,
         NO_UNIQUE;
    hide Finalized, Sound, Disjoint, GPT_SIGNATURE;
    UsualIsRewritable(g, |d|);
    var f := Grown(g, slot, part2, partGuid, crc);
    GrownShape(g, slot, part2, partGuid, crc, |d|);
    GrownEntries(g, slot, part2, partGuid);
    MbrOfGpt(d, g);
    GptAlongsideReads(d, g, f, crc, img, stage2, guid);
    hide GptExtents, Planned;
    GrownDetectedIff(GptAlongside(d, f, crc, img, stage2, guid), g, f, slot, part2);
  }

  lemma GrownEntries(g: Gpt, slot: nat, part2: u64, partGuid: seq<byte>)
    requires g.Valid() && 0 < slot < ENTRIES && 0 < part2 <= LAST_START && |partGuid| == 16 && partGuid != NO_UNIQUE
    requires Planned(GptExtents(g.partitions), g.header.areaEnd as int + 1, slot, part2 as int)
    ensures var p := NewEntries(g.partitions, slot, part2, partGuid);
            && PART1_START < part2 && Sound(GptExtents(p), g.header.areaEnd as int + 1) && Disjoint(GptExtents(p))
            && p[0] == g.partitions[0].(endLba := part2 - 1) && p[0].startLba == PART1_START
            && p[slot] == GptEntry(EFI_TYPE, partGuid, part2, part2 + EFI_SECTORS - 1, EFI_ATTR, CzName())
            && (forall k :: 0 < k < ENTRIES && k != slot ==> p[k] == g.partitions[k])
            && Occupied(p[slot]) && (slot != 1 ==> Occupied(p[1]))
  {
    PlanFacts(GptExtents(g.partitions), g.header.areaEnd as int + 1, slot, part2 as int);
    hide NO_UNIQUE, Planned, Sound;
    assert Occupied(g.partitions[0]) && g.partitions[0].startLba == PART1_START &&
           (slot != 1 ==> Occupied(g.partitions[1]));
    NewEntriesExtents(g.partitions, slot, part2, partGuid);
  }

  lemma PlanFacts(t: seq<Extent>, limit: nat, slot: nat, part2: nat)
    requires Planned(t, limit, slot, part2) && |t| > 1
    ensures 0 < slot < |t| && PART1_START < part2 && t[0].used && t[0].start == PART1_START && (slot != 1 ==> t[1].used)
    ensures Sound(Updated(t, slot, part2), limit) && Disjoint(Updated(t, slot, part2))
  {
    AlignedUpdateIsSound(t, limit, slot, part2);
    PlanBounds(t, limit, part2);
  }

  lemma GrownShape(g: Gpt, slot: nat, part2: u64, partGuid: seq<byte>, crc: Crc, size: nat)
    requires UsualPlace(g, size) && 0 < slot < ENTRIES && 0 < part2 <= LAST_START && |partGuid| == 16
    ensures var f := Grown(g, slot, part2, partGuid, crc);
            && UsualPlace(f, size) && Placed(f, size) && size >= DATA_START && f.mbr == g.mbr
            && f.partitions == NewEntries(g.partitions, slot, part2, partGuid)
            && f.header.areaEnd == g.header.areaEnd && f.header.signature == g.header.signature
            && f == Finalized(g.(partitions := f.partitions), crc)
  {
    hide NewEntries;
  }

  lemma GptAlongsideReads(d: seq<byte>, g: Gpt, f: Gpt, crc: Crc, img: seq<byte>, stage2: seq<byte>, guid: seq<byte>)
    requires UsualPlace(g, |d|) && UsualPlace(f, |d|) && Placed(f, |d|) && |d| >= DATA_START && |guid| == 16
    requires f.header.signature == GPT_SIGNATURE && f.mbr == g.mbr &&
             f == Finalized(g.(partitions := f.partitions), crc)
    ensures var r, end := GptAlongside(d, f, crc, img, stage2, guid), BackupTableAt(f.header);
            && ReadGpt(r) == Ok(Gpt(Mbr(r[..446], f.mbr.partitions, 0x55, 0xAA), f.header, f.partitions))
            && DecodeMbr(r) == Mbr(r[..446], f.mbr.partitions, 0x55, 0xAA)
            && AgreeingCopies(r, f.header, crc) && DATA_START <= end <= |d| && r[DATA_START..end] == d[DATA_START..end]
            && r[384..400] == guid && r[440..444] == guid[12..16] && r[510..512] == [0x55, 0xAA]
  {
    hide ReadGpt, DecodeMbr, WithGpt, EncodeMbr, EncodeMbrTable, EncodeHeader, EncodeTable, BootImagesGpt, GuidStamped,
         BackupHeader;
    hide AgreeingCopies, Finalized, GPT_SIGNATURE, Carries;
    var (b, r) := (WithGpt(d, f, crc), GptAlongside(d, f, crc, img, stage2, guid));
    GptPieces(d, f, crc);
    GptCarried(d, f, crc);
    GptImagesKeep(b, img, stage2, guid);
    EncodedTable(f.mbr);
    Inside(b, 0, EncodeMbr(f.mbr), 446, 510);
    GptElsewhere(d, f, crc, DATA_START, BackupTableAt(f.header));
    StillCarries(b, r, f, crc);
    SameData(d, b, r, BackupTableAt(f.header));
    ReadsCarried(r, f, crc);
    CarriedCopiesAgree(r, g.(partitions := f.partitions), crc);
  }

  lemma EncodedTable(n: Mbr)
    requires n.Valid()
    ensures EncodeMbr(n)[446..510] == EncodeMbrTable(n.partitions)
  {
    hide EncodeMbrTable;
  }

  lemma SameData(d: seq<byte>, b: seq<byte>, r: seq<byte>, end: nat)
    requires |d| == |b| == |r| && DATA_START <= end <= |d| && r[DATA_START..] == b[DATA_START..]
    requires b[DATA_START..end] == d[DATA_START..end]
    ensures r[DATA_START..end] == d[DATA_START..end]
  {
    assert r[DATA_START..|d|] == r[DATA_START..] && b[DATA_START..|d|] == b[DATA_START..];
    SameInside(r, b, DATA_START, |d|, DATA_START, end);
  }

  lemma StillCarries(b: seq<byte>, r: seq<byte>, f: Gpt, crc: Crc)
    requires |b| == |r| && UsualPlace(f, |b|)
    requires r[SECTOR_SIZE..34 * SECTOR_SIZE] == b[SECTOR_SIZE..34 * SECTOR_SIZE] && r[DATA_START..] == b[DATA_START..]
    requires Carries(b, f.header, f.partitions, crc)
    ensures Carries(r, f.header, f.partitions, crc)
  {
    hide EncodeHeader, EncodeTable, BackupHeader;
    var h := f.header;
    assert r[DATA_START..|b|] == r[DATA_START..] && b[DATA_START..|b|] == b[DATA_START..];
    SameInside(r, b, DATA_START, |b|, BackupTableAt(h), BackupTableAt(h) + TABLE_BYTES);
    SameInside(r, b, DATA_START, |b|, BackupHeaderAt(h), BackupHeaderAt(h) + SECTOR_SIZE);
    SameInside(r, b, SECTOR_SIZE, 34 * SECTOR_SIZE, SECTOR_SIZE, 2 * SECTOR_SIZE);
    SameInside(r, b, SECTOR_SIZE, 34 * SECTOR_SIZE, TableAt(h), TableAt(h) + TABLE_BYTES);
  }

  lemma ReadsCarried(r: seq<byte>, f: Gpt, crc: Crc)
    requires f.Valid() && Carries(r, f.header, f.partitions, crc) && f.header.signature == GPT_SIGNATURE &&
             f.header.entrySize == ENTRY_BYTES
    requires r[446..510] == EncodeMbrTable(f.mbr.partitions) && r[510..512] == [0x55, 0xAA]
    ensures ReadGpt(r) == Ok(Gpt(Mbr(r[..446], f.mbr.partitions, 0x55, 0xAA), f.header, f.partitions))
    ensures DecodeMbr(r) == Mbr(r[..446], f.mbr.partitions, 0x55, 0xAA)
  {
    hide ReadGpt, DecodeMbr, EncodeMbrTable, EncodeHeader, EncodeTable, BackupHeader, GPT_SIGNATURE;
    ReadsAs(r, f.mbr.partitions, f.header, f.partitions);
  }

  lemma GrownDetectedIff(r: seq<byte>, g: Gpt, f: Gpt, slot: nat, part2: u64)
    requires |r| >= SECTOR_SIZE && r[510..512] == [0x55, 0xAA] && g.Valid() && f.Valid() && f.mbr == g.mbr
    requires ReadGpt(r) == Ok(Gpt(Mbr(r[..446], f.mbr.partitions, 0x55, 0xAA), f.header, f.partitions))
    requires DecodeMbr(r) == Mbr(r[..446], f.mbr.partitions, 0x55, 0xAA)
    requires 0 < slot < ENTRIES && PART1_START < part2 <= LAST_START && f.partitions[0].startLba == PART1_START &&
             f.partitions[0].endLba == part2 - 1
    requires f.partitions[slot].startLba == part2 && f.partitions[slot].endLba == part2 + EFI_SECTORS - 1 &&
             f.partitions[slot].name == CzName()
    requires Disjoint(GptExtents(f.partitions)) && Occupied(f.partitions[slot]) &&
             (slot != 1 ==> Occupied(f.partitions[1]))
    ensures g.mbr.IsGptProtective() ==> (Detect(r) == Ok(Some(part2 as int * SECTOR_SIZE)) <==> slot == 1)
  {
    hide ReadGpt, DecodeMbr, NO_UNIQUE;
    assert r[510] == r[510..512][0] && r[511] == r[510..512][1];
    var t := GptExtents(f.partitions);
    if slot != 1 {
      assert Apart(t[1], t[slot]);
    }
  }
}
