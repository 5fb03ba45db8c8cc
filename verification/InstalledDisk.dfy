/** A fresh installation as a whole: layout, recognition and both boot loaders. */
module InstalledDisk {
  import opened Bytes
  import opened PartitionTables
  import opened Installer
  import opened BootReaders

  /** MBR: on a large enough disk the partitions are aligned, disjoint and on the disk, the
      installer recognises its work, and both loaders find the data partition at sector 2048. */
  lemma MbrInstallWorks(d: seq<byte>, img: seq<byte>, stage2: seq<byte>, guid: seq<byte>, reserveMb: nat)
    requires Guards(|d|, reserveMb, false) && |d| / SECTOR_SIZE >= reserveMb * 2048 + 67592 && |guid| == 16
    ensures var part2 := MbrPart2(|d| / SECTOR_SIZE, reserveMb);
            && GoodLayout(part2, |d| / SECTOR_SIZE) && part2 < 0x1_0000_0000
            && var r := MbrInstalled(d, img, stage2, guid, part2);
               && Detect(r) == Ok(Some(part2 * SECTOR_SIZE))
               && BiosPartitions(r) ==
                  [BiosPartition(PART1_START, part2 - PART1_START, 0x07), BiosPartition(part2, EFI_SECTORS, EFI_SYSTEM)]
               && UefiPartition(r) == Some(DataPartition(PART1_START, MbrGuid(r), 1, true))
               && r[PART1_START * SECTOR_SIZE..] == d[PART1_START * SECTOR_SIZE..]
  {
    hide BiosPartitions, UefiPartition, Detect, MbrGuid, MbrInstalled, MbrPart2;
    var part2 := MbrPart2(|d| / SECTOR_SIZE, reserveMb);
    LayoutGoodIff(|d| / SECTOR_SIZE, reserveMb);
    MbrInstallDetected(d, img, stage2, guid, reserveMb);
    MbrLoaders(d, img, stage2, guid, part2);
    MbrDataUntouched(d, img, stage2, guid, part2);
  }

  lemma MbrLoaders(d: seq<byte>, img: seq<byte>, stage2: seq<byte>, guid: seq<byte>, part2: nat)
    requires |d| >= PART1_START * SECTOR_SIZE && PART1_START < part2 < 0x1_0000_0000 && |guid| == 16
    ensures var r := MbrInstalled(d, img, stage2, guid, part2);
            && BiosPartitions(r) ==
               [BiosPartition(PART1_START, part2 - PART1_START, 0x07), BiosPartition(part2, EFI_SECTORS, EFI_SYSTEM)]
            && UefiPartition(r) == Some(DataPartition(PART1_START, MbrGuid(r), 1, true))
  {
    hide BiosPartitions, UefiPartition, DecodeMbr, MbrTableFor, MbrGuid, MbrInstalled;
    MbrInstalledReads(d, img, stage2, guid, part2);
    MbrInstallFound(MbrInstalled(d, img, stage2, guid, part2), part2);
  }

  lemma MbrDataUntouched(d: seq<byte>, img: seq<byte>, stage2: seq<byte>, guid: seq<byte>, part2: nat)
    requires |guid| == 16 && PART1_START <= part2 < 0x1_0000_0000 && |d| >= PART1_START * SECTOR_SIZE
    ensures MbrInstalled(d, img, stage2, guid, part2)[PART1_START * SECTOR_SIZE..] == d[PART1_START * SECTOR_SIZE..]
  {
    hide Splice, MbrSector;
    var d1 := Splice(d, 0, MbrSector(img, guid, part2));
    SpliceElsewhere(d, 0, MbrSector(img, guid, part2), PART1_START * SECTOR_SIZE, |d|);
    SpliceElsewhere(d1, SECTOR_SIZE, Stage2(stage2, 2047), PART1_START * SECTOR_SIZE, |d|);
  }

  /** GPT: the same, and the second partition ends before the backup table. */
  lemma GptInstallWorks(d: seq<byte>, img: seq<byte>, stage2: seq<byte>, crc: Crc, diskGuid: seq<byte>,
                        guid1: seq<byte>, guid2: seq<byte>, reserveMb: nat)
    requires Guards(|d|, reserveMb, true) && |d| < 0x1_0000_0000_0000_0000 && |diskGuid| == |guid1| == |guid2| == 16
    requires |d| / SECTOR_SIZE >= reserveMb * 2048 + 67626
    ensures var total := |d| / SECTOR_SIZE;
            var part2 := GptPart2(total, reserveMb);
            && GoodLayout(part2, total - 34)
            && var g := NewGpt(total, part2, diskGuid, guid1, guid2);
               && g.Valid() && g.header.headerSize == 92 && Placed(g, |d|)
               && var r := GptInstalled(d, img, stage2, g, crc);
                  && Detect(r) == Ok(Some(part2 * SECTOR_SIZE))
                  && BiosPartitions(r) == [BiosPartition(PART1_START, (part2 - PART1_START) % 0x1_0000_0000, 0x07)]
                  && UefiPartition(r) ==
                     Some(DataPartition(PART1_START, GuidAt(EncodeEntry(g.partitions[0]), 0), 1, false))
                  && var end := BackupTableAt(g.header);
                     PART1_START * SECTOR_SIZE <= end <= |d| &&
                       r[PART1_START * SECTOR_SIZE..end] == d[PART1_START * SECTOR_SIZE..end]
  {
    var total := |d| / SECTOR_SIZE;
    var part2 := GptPart2(total, reserveMb);
    LayoutGoodIff(total, reserveMb);
    hide GptPart2, Guards, NewGpt, BiosPartitions, UefiPartition, Detect, GptInstalled, Placed;
    NewGptShape(total, part2, diskGuid, guid1, guid2);
    GptInstallDetected(d, img, stage2, part2, diskGuid, guid1, guid2, crc);
    FreshGptFound(d, img, stage2, NewGpt(total, part2, diskGuid, guid1, guid2), crc);
    GptDataUntouched(d, img, stage2, NewGpt(total, part2, diskGuid, guid1, guid2), crc);
  }

  lemma GptDataUntouched(d: seq<byte>, img: seq<byte>, stage2: seq<byte>, g: Gpt, crc: Crc)
    requires g.Valid() && g.header.headerSize == 92 && Placed(g, |d|) && g.header.tableStart == 2
    requires |d| >= PART1_START * SECTOR_SIZE && PART1_START * SECTOR_SIZE <= BackupTableAt(g.header)
    ensures var (r, end) := (GptInstalled(d, img, stage2, g, crc), BackupTableAt(g.header));
            end <= |d| && r[PART1_START * SECTOR_SIZE..end] == d[PART1_START * SECTOR_SIZE..end]
  {
    FinalizedPlaced(g, |d|, crc);
    assert Finalized(g, crc).header.tableStart == 2 && Finalized(g, crc).header.backupLba == g.header.backupLba;
    hide Splice, Stage2, BootSector, WithGpt, Finalized;
    var (lo, end) := (PART1_START * SECTOR_SIZE, BackupTableAt(g.header));
    var b := GptBase(d, stage2, g, crc);
    SpliceElsewhere(d, 34 * SECTOR_SIZE, Stage2(stage2, 2014), lo, end);
    GptElsewhere(Splice(d, 34 * SECTOR_SIZE, Stage2(stage2, 2014)), Finalized(g, crc), crc, lo, end);
    SpliceElsewhere(b, 0, BootSector(b[..SECTOR_SIZE], img, g.header.diskGuid), lo, end);
  }

  lemma NewGptShape(total: nat, part2: nat, diskGuid: seq<byte>, guid1: seq<byte>, guid2: seq<byte>)
    requires 34 + EFI_SECTORS <= total < 0x80_0000_0000_0000 && PART1_START < part2 <= total &&
             |diskGuid| == |guid1| == |guid2| == 16
    ensures var g := NewGpt(total, part2, diskGuid, guid1, guid2);
            && g.Valid() && g.header.signature == GPT_SIGNATURE && g.header.entrySize == ENTRY_BYTES &&
               g.header.numEntries > 0
            && g.mbr.partitions == [PROTECTIVE, NO_MBR_ENTRY, NO_MBR_ENTRY, NO_MBR_ENTRY]
            && g.header.tableStart == 2 && g.header.backupLba as int == total - 1
            && g.partitions[0].typeGuid == BASIC_DATA && g.partitions[0].startLba == PART1_START &&
               g.partitions[0].endLba as int == part2 - 1
  {
  }

  lemma FreshGptFound(d: seq<byte>, img: seq<byte>, stage2: seq<byte>, g: Gpt, crc: Crc)
    requires g.Valid() && g.header.headerSize == 92 && Placed(g, |d|) && |d| >= PART1_START * SECTOR_SIZE
    requires g.header.signature == GPT_SIGNATURE && g.header.entrySize == ENTRY_BYTES && g.header.numEntries > 0
    requires g.mbr.partitions == [PROTECTIVE, NO_MBR_ENTRY, NO_MBR_ENTRY, NO_MBR_ENTRY]
    requires var e := g.partitions[0];
             e.typeGuid == BASIC_DATA && e.startLba == PART1_START && PART1_START <= e.endLba < 0xFFFF_FFFF_FFFF_FFFF
    ensures var r := GptInstalled(d, img, stage2, g, crc);
            && BiosPartitions(r) ==
               [BiosPartition(PART1_START, (g.partitions[0].endLba as int - PART1_START + 1) % 0x1_0000_0000, 0x07)]
            && UefiPartition(r) == Some(DataPartition(PART1_START, GuidAt(EncodeEntry(g.partitions[0]), 0), 1, false))
  {
    var (r, f) := (GptInstalled(d, img, stage2, g, crc), Finalized(g, crc));
    assert f.header.signature == GPT_SIGNATURE && f.header.entrySize == ENTRY_BYTES && f.header.numEntries > 0 &&
           TableAt(f.header) == TableAt(g.header);
    assert TableAt(g.header) + TABLE_BYTES <= |r| by { PlacedTable(g, |d|); }
    GptInstalledReads(d, img, stage2, g, crc);
    hide GptInstalled, DecodeMbr, EncodeTable, EncodeEntry, BiosPartitions, UefiPartition, GuidAt, GPT_SIGNATURE,
         ReadGpt, CarriesGpt, Finalized, Placed, TableAt;
    ReadCarries(r, Gpt(Mbr(r[..446], g.mbr.partitions, 0x55, 0xAA), f.header, g.partitions));
    GptInstallFound(r, f.header, g.partitions);
  }

  lemma PlacedTable(g: Gpt, disk: nat)
    requires g.Valid() && Placed(g, disk)
    ensures TableAt(g.header) + TABLE_BYTES <= disk
  {
  }

  lemma ReadCarries(r: seq<byte>, g: Gpt)
    requires g.Valid() && ReadGpt(r) == Ok(g) && g.header.signature == GPT_SIGNATURE &&
             g.header.entrySize == ENTRY_BYTES && g.header.numEntries > 0
    requires TableAt(g.header) + TABLE_BYTES <= |r| &&
             r[TableAt(g.header)..TableAt(g.header) + TABLE_BYTES] == EncodeTable(g.partitions)
    requires g.mbr.partitions == [PROTECTIVE, NO_MBR_ENTRY, NO_MBR_ENTRY, NO_MBR_ENTRY]
    ensures CarriesGpt(r, g.header, g.partitions)
  {
    hide DecodeHeader, DecodeMbr, DecodeTable, EncodeTable, GPT_SIGNATURE;
  }
}
