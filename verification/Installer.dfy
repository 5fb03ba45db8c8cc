/** A fresh installation: the partition tables the installer writes, and what its own check
    and the two boot loaders make of them. */
module Installer {
  import opened Bytes
  import opened PartitionTables

  const EFI_SECTORS := 65536
  const PART1_START := 2048
  const TIB2 := 0x200_0000_0000
  const BASIC_DATA: seq<byte> :=
      [0xA2, 0xA0, 0xD0, 0xEB, 0xE5, 0xB9, 0x33, 0x44, 0x87, 0xC0, 0x68, 0xB6, 0xB7, 0x26, 0x99, 0xC7]
  const EFI_TYPE: seq<byte> :=
      [0x28, 0x73, 0x2A, 0xC1, 0x1F, 0xF8, 0xD2, 0x11, 0xBA, 0x4B, 0x00, 0xA0, 0xC9, 0x3E, 0xC9, 0x3B]
  const CZBLEFI: seq<u16> := [67, 90, 66, 76, 69, 70, 73]
  const EFI_ATTR: u64 := 1

  // ── Where the partitions go ───────────────────────────────────────────

  function Align8(n: int): int { n - n % 8 }

  /** Start of the second partition of an MBR disk. */
  function MbrPart2(total: nat, reserveMb: nat): int { Align8(total - EFI_SECTORS - reserveMb * 2048) }

  /** The same on a GPT disk, which keeps its last 34 sectors clear. */
  function GptPart2(total: nat, reserveMb: nat): int { Align8(total - 34 - EFI_SECTORS - reserveMb * 2048) }

  /** What the installer checks before it writes. */
  predicate Guards(sizeBytes: nat, reserveMb: nat, gpt: bool) {
    && (gpt || sizeBytes <= TIB2)
    && sizeBytes >= (PART1_START + 33 * 2048) * SECTOR_SIZE
    && (reserveMb > 0 ==> sizeBytes / SECTOR_SIZE > (reserveMb + 33) * 2048)
  }

  /** Two aligned partitions, the first not empty and both before `end`. */
  predicate GoodLayout(part2: int, end: int) {
    part2 % 8 == 0 && PART1_START + 8 <= part2 && part2 + EFI_SECTORS <= end
  }

  /** Exactly how large a disk must be for the layout to come out right. */
  lemma LayoutGoodIff(total: nat, reserveMb: nat)
    ensures GoodLayout(MbrPart2(total, reserveMb), total) <==> total >= reserveMb * 2048 + 67592
    ensures GoodLayout(GptPart2(total, reserveMb), total - 34) <==> total >= reserveMb * 2048 + 67626
  {
  }

  /** Without reserved space the installer's own check is enough. */
  lemma GuardsSuffice(sizeBytes: nat, gpt: bool)
    requires Guards(sizeBytes, 0, gpt)
    ensures var total := sizeBytes / SECTOR_SIZE;
            if gpt then GoodLayout(GptPart2(total, 0), total - 34) else GoodLayout(MbrPart2(total, 0), total)
  {
    LayoutGoodIff(sizeBytes / SECTOR_SIZE, 0);
  }

  /** With reserved space it is not: just above its bound the first partition is empty on an
      MBR disk and ends before it starts on a GPT disk. */
  lemma GuardsDoNotSuffice(reserveMb: nat, gpt: bool)
    requires 1 <= reserveMb < 1_000_000
    ensures var total := (reserveMb + 33) * 2048 + 1;
            && Guards(total * SECTOR_SIZE, reserveMb, gpt)
            && MbrPart2(total, reserveMb) == PART1_START && GptPart2(total, reserveMb) < PART1_START
  {
  }

  // ── MBR entries ───────────────────────────────────────────────────────

  const CHS_LIMIT := 16450560

  datatype Chs = Chs(cylinder: nat, head: nat, sector: nat)

  function ToChs(lba: nat): Chs {
    if lba >= CHS_LIMIT then Chs(1023, 254, 63) else Chs(lba / 255 / 63, lba / 63 % 255, lba % 63 + 1)
  }

  function PackChs(c: Chs): u16 { c.cylinder % 256 * 256 + c.cylinder / 256 % 4 * 64 + c.sector % 64 }

  /** The inverse of the packed form, with the head byte beside it. */
  function UnpackChs(packed: u16, head: byte): Chs { Chs(packed / 256 + packed / 64 % 4 * 256, head, packed % 64) }

  function FromChs(c: Chs): int { (c.cylinder * 255 + c.head) * 63 + c.sector - 1 }

  function EndLba(start: u32, count: u32): u32 {
    (start as int + if count > 0 then count as int - 1 else 0) % 0x1_0000_0000
  }

  function FillEntry(e: MbrEntry, start: u32, count: u32): MbrEntry {
    var (first, last) := (ToChs(start), ToChs(EndLba(start, count)));
    e.(startLba := start, sectorCount := count, startHead := first.head % 256, startChs := PackChs(first),
       endHead := last.head % 256, endChs := PackChs(last))
  }

  lemma ChsBounds(lba: nat)
    ensures var c := ToChs(lba); c.cylinder <= 1023 && c.head <= 254 && 1 <= c.sector <= 63
  {
  }

  lemma PackRoundTrip(c: Chs)
    requires c.cylinder <= 1023 && c.head <= 254 && c.sector <= 63
    ensures UnpackChs(PackChs(c), c.head) == c
  {
    var (low, high) := (c.cylinder % 256, c.cylinder / 256);
    assert c.cylinder == high * 256 + low;
    assert PackChs(c) / 256 == low;
    assert PackChs(c) / 64 == low * 4 + high;
  }

  /** Below the limit of cylinder addressing the packed addresses name the same sectors. */
  lemma ChsDecodes(start: u32, count: u32, e: MbrEntry)
    requires start as int + count as int <= CHS_LIMIT && count > 0
    ensures var f := FillEntry(e, start, count);
            && FromChs(UnpackChs(f.startChs, f.startHead)) == start as int
            && FromChs(UnpackChs(f.endChs, f.endHead)) == start as int + count as int - 1
  {
    hide PackChs, UnpackChs, ToChs, FromChs;
    ChsBounds(start);
    ChsBounds(EndLba(start, count));
    PackRoundTrip(ToChs(start));
    PackRoundTrip(ToChs(EndLba(start, count)));
    ChsInverse(start);
    ChsInverse(EndLba(start, count));
  }

  lemma ChsInverse(lba: nat)
    requires lba < CHS_LIMIT
    ensures FromChs(ToChs(lba)) == lba
  {
    var tracks := lba / 63;
    assert lba / 255 / 63 == tracks / 255;
  }

  // ── The boot sector ───────────────────────────────────────────────────

  function BootCode(img: seq<byte>): (s: seq<byte>)
    ensures |s| <= 440
  {
    img[..Least(|img|, 440)]
  }

  /** A boot sector with the boot code and the disk's GUID put into it. */
  function Stamped(sector: seq<byte>, img: seq<byte>, guid: seq<byte>): (r: seq<byte>)
    requires |sector| == SECTOR_SIZE && |guid| == 16
    ensures |r| == SECTOR_SIZE
  {
    Splice(Splice(Splice(Splice(sector, 0, BootCode(img)), 384, guid), 440, guid[12..16]), 510, [0x55, 0xAA])
  }

  const NEEDLE: seq<byte> := [0xC7, 0x06, 0xC8, 0x07]

  /** The boot code's LBA operand, after the first needle at or after `i`, set to 34. */
  function LbaPatched(sector: seq<byte>, i: nat, n: nat): (r: seq<byte>)
    requires |sector| == SECTOR_SIZE && n <= 432
    ensures |r| == SECTOR_SIZE
    decreases n - i
  {
    if i >= n then sector
    else if sector[i..i + 4] == NEEDLE then Splice(sector, i + 4, Le32(34))
    else LbaPatched(sector, i + 1, n)
  }

  predicate NeedleAt(sector: seq<byte>, k: nat)
    requires k + 4 <= |sector|
  {
    sector[k..k + 4] == NEEDLE
  }

  lemma {:induction false} NeedleFirst(sector: seq<byte>, i: nat, n: nat, p: nat)
    requires |sector| == SECTOR_SIZE && n <= 432 && i <= p < n && NeedleAt(sector, p)
    requires forall k :: i <= k < p ==> !NeedleAt(sector, k)
    ensures LbaPatched(sector, i, n) == Splice(sector, p + 4, Le32(34))
    decreases p - i
  {
    assert NeedleAt(sector, i) == (i == p);
    if i < p { NeedleFirst(sector, i + 1, n, p); }
  }

  /** Below the GUID a stamped sector holds the boot code. */
  lemma StampedCode(sector: seq<byte>, img: seq<byte>, guid: seq<byte>)
    requires |sector| == SECTOR_SIZE && |guid| == 16 && |img| >= 440
    ensures Stamped(sector, img, guid)[..384] == img[..384]
  {
  }

  lemma SameNeedle(s: seq<byte>, t: seq<byte>, n: nat, k: nat)
    requires k + 4 <= n <= |s| && n <= |t| && s[..n] == t[..n]
    ensures NeedleAt(s, k) == NeedleAt(t, k)
  {
    assert s[k..k + 4] == s[..n][k..k + 4] && t[k..k + 4] == t[..n][k..k + 4];
  }

  function PatchRange(img: seq<byte>): (n: nat)
    ensures n <= 432
  {
    if |BootCode(img)| < 8 then 0 else |BootCode(img)| - 8
  }

  lemma {:induction false} LbaPatchedTail(sector: seq<byte>, i: nat, n: nat)
    requires |sector| == SECTOR_SIZE && n <= 432
    ensures LbaPatched(sector, i, n)[440..] == sector[440..]
    decreases n - i
  {
    if i < n && sector[i..i + 4] != NEEDLE { LbaPatchedTail(sector, i + 1, n); }
  }

  // ── MBR installation ──────────────────────────────────────────────────

  function MbrTableFor(part2: nat): (t: seq<MbrEntry>)
    requires PART1_START <= part2 < 0x1_0000_0000
    ensures |t| == 4
  {
    [FillEntry(NO_MBR_ENTRY, PART1_START, part2 - PART1_START).(active := ACTIVE, fsFlag := 0x07),
     FillEntry(NO_MBR_ENTRY, part2, EFI_SECTORS).(fsFlag := EFI_SYSTEM), NO_MBR_ENTRY, NO_MBR_ENTRY]
  }

  function MbrSector(img: seq<byte>, guid: seq<byte>, part2: nat): (s: seq<byte>)
    requires |guid| == 16 && PART1_START <= part2 < 0x1_0000_0000
    ensures |s| == SECTOR_SIZE
  {
    Splice(Stamped(seq(SECTOR_SIZE, i => 0), img, guid), 446, EncodeMbrTable(MbrTableFor(part2)))
  }

  function Stage2(stage2: seq<byte>, sectors: nat): (s: seq<byte>)
    ensures |s| <= sectors * SECTOR_SIZE
  {
    stage2[..Least(|stage2|, sectors * SECTOR_SIZE)]
  }

  function MbrInstalled(d: seq<byte>, img: seq<byte>, stage2: seq<byte>, guid: seq<byte>, part2: nat): (r: seq<byte>)
    requires |guid| == 16 && PART1_START <= part2 < 0x1_0000_0000 && |d| >= PART1_START * SECTOR_SIZE
    ensures |r| == |d|
  {
    Splice(Splice(d, 0, MbrSector(img, guid, part2)), SECTOR_SIZE, Stage2(stage2, 2047))
  }

  lemma Part2InRange(sizeBytes: nat, reserveMb: nat, gpt: bool)
    requires Guards(sizeBytes, reserveMb, gpt)
    ensures var total := sizeBytes / SECTOR_SIZE;
            && total >= 69632 && (!gpt ==> PART1_START <= MbrPart2(total, reserveMb) < 0x1_0000_0000 - EFI_SECTORS + 1)
            && (gpt ==> 2008 <= GptPart2(total, reserveMb) <= total - 34 - EFI_SECTORS)
  {
  }

  method WriteMbr(disk: array<byte>, reserveMb: nat, img: seq<byte>, stage2: seq<byte>, guid: seq<byte>)
    returns (part2Byte: nat)
    requires Guards(disk.Length, reserveMb, false) && |guid| == 16
    modifies disk
    ensures part2Byte == MbrPart2(disk.Length / SECTOR_SIZE, reserveMb) * SECTOR_SIZE
    ensures part2Byte / SECTOR_SIZE < 0x1_0000_0000 && part2Byte / SECTOR_SIZE >= PART1_START
    ensures disk[..] == MbrInstalled(old(disk[..]), img, stage2, guid, part2Byte / SECTOR_SIZE)
  {
    hide Splice, EncodeMbrTable, MbrTableFor;
    Part2InRange(disk.Length, reserveMb, false);
    var totalSectors := disk.Length / SECTOR_SIZE;
    var part2Start := totalSectors - EFI_SECTORS - reserveMb * 2048;
    part2Start := part2Start - part2Start % 8;
    var mbrBytes := Stamped(seq(SECTOR_SIZE, i => 0), img, guid);
    mbrBytes := Splice(mbrBytes, 446, EncodeMbrTable(MbrTableFor(part2Start)));
    CopyInto(disk, 0, mbrBytes);
    CopyInto(disk, SECTOR_SIZE, Stage2(stage2, 2047));
    return part2Start * SECTOR_SIZE;
  }

  // ── GPT installation ──────────────────────────────────────────────────

  function CzName(): seq<u16> { CZBLEFI + seq(29, i => 0) }

  const NO_ENTRY := GptEntry(seq(16, i => 0), seq(16, i => 0), 0, 0, 0, seq(36, i => 0))

  function NewHeader(total: nat, diskGuid: seq<byte>): GptHeader
    requires 34 <= total <= 0x1_0000_0000_0000_0000
  {
    GptHeader(GPT_SIGNATURE, [0, 0, 1, 0], 92, 0, [0, 0, 0, 0], 1, total - 1, PART1_START, total - 34, diskGuid, 2, 128,
              128, 0, seq(420, i => 0))
  }

  const PROTECTIVE := NO_MBR_ENTRY.(fsFlag := GPT_PROTECTIVE, startLba := 1, sectorCount := 0xFFFF_FFFF)

  /** The GPT of a fresh installation before its checksums are computed. */
  function NewGpt(total: nat, part2: nat, diskGuid: seq<byte>, guid1: seq<byte>, guid2: seq<byte>): Gpt
    requires 34 + EFI_SECTORS <= total < 0x80_0000_0000_0000 && 0 < part2 <= total &&
             |diskGuid| == |guid1| == |guid2| == 16
  {
    Gpt(Mbr(seq(446, i => 0), [PROTECTIVE, NO_MBR_ENTRY, NO_MBR_ENTRY, NO_MBR_ENTRY], 0x55, 0xAA),
        NewHeader(total, diskGuid),
        [GptEntry(BASIC_DATA, guid1, PART1_START, part2 - 1, 0, CzName()),
         GptEntry(EFI_TYPE, guid2, part2, part2 + EFI_SECTORS - 1, EFI_ATTR, CzName())] + seq(126, i => NO_ENTRY))
  }

  function GptBase(d: seq<byte>, stage2: seq<byte>, g: Gpt, crc: Crc): (r: seq<byte>)
    requires g.Valid() && g.header.headerSize == 92 && Placed(g, |d|) && |d| >= PART1_START * SECTOR_SIZE
    ensures |r| == |d|
  {
    WithGpt(Splice(d, 34 * SECTOR_SIZE, Stage2(stage2, 2014)), Finalized(g, crc), crc)
  }

  function BootSector(sector: seq<byte>, img: seq<byte>, guid: seq<byte>): (r: seq<byte>)
    requires |sector| == SECTOR_SIZE && |guid| == 16
    ensures |r| == SECTOR_SIZE
  {
    LbaPatched(Stamped(sector, img, guid), 0, PatchRange(img))
  }

  function GptInstalled(d: seq<byte>, img: seq<byte>, stage2: seq<byte>, g: Gpt, crc: Crc): (r: seq<byte>)
    requires g.Valid() && g.header.headerSize == 92 && Placed(g, |d|) && |d| >= PART1_START * SECTOR_SIZE
    ensures |r| == |d|
  {
    var b := GptBase(d, stage2, g, crc);
    Splice(b, 0, BootSector(b[..SECTOR_SIZE], img, g.header.diskGuid))
  }

  lemma NewGptPlaced(disk: nat, part2: nat, diskGuid: seq<byte>, guid1: seq<byte>, guid2: seq<byte>)
    requires 69632 * SECTOR_SIZE <= disk < 0x1_0000_0000_0000_0000 && 0 < part2 <= disk / SECTOR_SIZE &&
             |diskGuid| == |guid1| == |guid2| == 16
    ensures var g := NewGpt(disk / SECTOR_SIZE, part2, diskGuid, guid1, guid2);
            g.Valid() && g.header.headerSize == 92 && Placed(g, disk) && g.header.diskGuid == diskGuid
  {
  }

  method WriteGptInstall(disk: array<byte>, reserveMb: nat, img: seq<byte>, stage2: seq<byte>, crc: Crc,
                         diskGuid: seq<byte>, guid1: seq<byte>, guid2: seq<byte>) returns (part2Byte: nat)
    requires Guards(disk.Length, reserveMb, true) && disk.Length < 0x1_0000_0000_0000_0000 &&
             |diskGuid| == |guid1| == |guid2| == 16
    modifies disk
    ensures part2Byte == GptPart2(disk.Length / SECTOR_SIZE, reserveMb) * SECTOR_SIZE && part2Byte > 0 &&
            part2Byte <= disk.Length
    ensures var g := NewGpt(disk.Length / SECTOR_SIZE, part2Byte / SECTOR_SIZE, diskGuid, guid1, guid2);
            g.Valid() && g.header.headerSize == 92 && Placed(g, disk.Length) &&
              disk[..] == GptInstalled(old(disk[..]), img, stage2, g, crc)
  {
    hide Splice, NewGpt, Finalized, WithGpt, Stamped, Placed;
    Part2InRange(disk.Length, reserveMb, true);
    var totalSectors := disk.Length / SECTOR_SIZE;
    var part2End := totalSectors - 34;
    var part2Start: nat := part2End - EFI_SECTORS - reserveMb * 2048;
    part2Start := part2Start - part2Start % 8;
    var g := NewGpt(totalSectors, part2Start, diskGuid, guid1, guid2);
    NewGptPlaced(disk.Length, part2Start, diskGuid, guid1, guid2);
    ghost var before := disk[..];
    CopyInto(disk, 34 * SECTOR_SIZE, Stage2(stage2, 2014));
    FinalizedPlaced(g, disk.Length, crc);
    WriteGpt(disk, Finalized(g, crc), crc);
    assert disk[..] == GptBase(before, stage2, g, crc);
    var mbrBytes := Stamped(disk[..SECTOR_SIZE], img, diskGuid);
    mbrBytes := PatchLba(mbrBytes, PatchRange(img));
    assert disk[..][..SECTOR_SIZE] == disk[..SECTOR_SIZE];
    CopyInto(disk, 0, mbrBytes);
    return part2Start * SECTOR_SIZE;
  }

  lemma FinalizedPlaced(g: Gpt, disk: nat, crc: Crc)
    requires g.Valid() && g.header.headerSize == 92 && Placed(g, disk)
    ensures Finalized(g, crc).Valid() && Placed(Finalized(g, crc), disk)
  {
  }

  method PatchLba(sector: seq<byte>, n: nat) returns (r: seq<byte>)
    requires |sector| == SECTOR_SIZE && n <= 432
    ensures r == LbaPatched(sector, 0, n)
  {
    for i := 0 to n
      invariant LbaPatched(sector, i, n) == LbaPatched(sector, 0, n)
    {
      if sector[i..i + 4] == NEEDLE { return Splice(sector, i + 4, Le32(34)); }
    }
    return sector;
  }

  // ── The installer's own check ─────────────────────────────────────────

  /** Where the second partition starts if the disk carries this layout; reading the version
      file from that partition is left out. */
  function Detect(d: seq<byte>): Result<Option<nat>> {
    if |d| < SECTOR_SIZE then Err
    else if d[510] != 0x55 || d[511] != 0xAA then Ok(None)
    else
      var mbr := DecodeMbr(d);
      if mbr.IsGptProtective() then
        match ReadGpt(d)
        case Err => Err
        case Ok(g) => Ok(DetectGpt(g))
      else Ok(DetectMbr(mbr))
  }

  function DetectGpt(g: Gpt): Option<nat>
    requires g.Valid()
  {
    var (p1, p2) := (g.partitions[0], g.partitions[1]);
    if p1.startLba != PART1_START then None
    else if p2.startLba as int != (p1.endLba as int + 1) % 0x1_0000_0000_0000_0000
         || (p2.endLba as int + 1 - p2.startLba as int) % 0x1_0000_0000_0000_0000 != EFI_SECTORS then None
    else if p2.name[..7] != CZBLEFI then None
    else Some(p2.startLba as int * SECTOR_SIZE)
  }

  function DetectMbr(m: Mbr): Option<nat>
    requires m.Valid()
  {
    var (p1, p2) := (m.partitions[0], m.partitions[1]);
    if p1.startLba != PART1_START then None
    else if p2.startLba as int != (p1.startLba as int + p1.sectorCount as int) % 0x1_0000_0000 ||
      p2.sectorCount != EFI_SECTORS then None
    else Some(p2.startLba as int * SECTOR_SIZE)
  }

  // ── What an installed disk reads as ───────────────────────────────────

  /** The parts of a boot sector that stamping and patching leave alone. */
  lemma StampedKeeps(sector: seq<byte>, img: seq<byte>, guid: seq<byte>)
    requires |sector| == SECTOR_SIZE && |guid| == 16
    ensures var r := Stamped(sector, img, guid);
            r[444..510] == sector[444..510] && r[440..444] == guid[12..16] && r[384..400] == guid &&
              r[510..512] == [0x55, 0xAA]
  {
    hide Splice;
    var code := BootCode(img);
    var s1 := Splice(sector, 0, code);
    var s2 := Splice(s1, 384, guid);
    var s3 := Splice(s2, 440, guid[12..16]);
    SpliceElsewhere(sector, 0, code, 444, 510);
    SpliceElsewhere(s1, 384, guid, 444, 510);
    SpliceElsewhere(s2, 440, guid[12..16], 444, 510);
    SpliceElsewhere(s3, 510, [0x55, 0xAA], 444, 510);
    SpliceHere(s1, 384, guid);
    SpliceElsewhere(s2, 440, guid[12..16], 384, 400);
    SpliceElsewhere(s3, 510, [0x55, 0xAA], 384, 400);
    SpliceHere(s2, 440, guid[12..16]);
    SpliceElsewhere(s3, 510, [0x55, 0xAA], 440, 444);
    SpliceHere(s3, 510, [0x55, 0xAA]);
  }

  /** The partition table of an MBR installation and its signature. */
  lemma MbrInstalledReads(d: seq<byte>, img: seq<byte>, stage2: seq<byte>, guid: seq<byte>, part2: nat)
    requires |guid| == 16 && PART1_START <= part2 < 0x1_0000_0000 && |d| >= PART1_START * SECTOR_SIZE
    ensures var r := MbrInstalled(d, img, stage2, guid, part2);
            r[510] == 0x55 && r[511] == 0xAA && DecodeMbr(r).partitions == MbrTableFor(part2) &&
              r[440..444] == guid[12..16]
  {
    hide Splice, Stamped, EncodeMbrTable, MbrTableFor, DecodeMbrTable;
    var zero: seq<byte> := seq(SECTOR_SIZE, i => 0);
    var (stamped, table) := (Stamped(zero, img, guid), EncodeMbrTable(MbrTableFor(part2)));
    var sector := MbrSector(img, guid, part2);
    StampedKeeps(zero, img, guid);
    SpliceHere(stamped, 446, table);
    SpliceElsewhere(stamped, 446, table, 510, 512);
    SpliceElsewhere(stamped, 446, table, 440, 444);
    var d1 := Splice(d, 0, sector);
    var r := MbrInstalled(d, img, stage2, guid, part2);
    SpliceHere(d, 0, sector);
    SpliceElsewhere(d1, SECTOR_SIZE, Stage2(stage2, 2047), 0, SECTOR_SIZE);
    Inside(r, 0, sector, 446, 510);
    Inside(r, 0, sector, 440, 444);
    Inside(r, 0, sector, 510, 512);
    assert r[510..512] == [0x55, 0xAA];
    assert r[510] == r[510..512][0] && r[511] == r[510..512][1];
    MbrTableRoundTrip(MbrTableFor(part2), r, 446);
  }

  lemma MbrTableDetected(m: Mbr, part2: nat)
    requires m.Valid() && PART1_START <= part2 < 0x1_0000_0000 && m.partitions == MbrTableFor(part2)
    ensures DetectMbr(m) == Some(part2 * SECTOR_SIZE) && !m.IsGptProtective()
  {
    hide ToChs, PackChs, EndLba;
  }

  /** An MBR installation is recognised, at the place the installer reports. */
  lemma MbrInstallDetected(d: seq<byte>, img: seq<byte>, stage2: seq<byte>, guid: seq<byte>, reserveMb: nat)
    requires Guards(|d|, reserveMb, false) && |guid| == 16
    ensures var part2 := MbrPart2(|d| / SECTOR_SIZE, reserveMb);
            PART1_START <= part2 < 0x1_0000_0000 &&
              Detect(MbrInstalled(d, img, stage2, guid, part2)) == Ok(Some(part2 * SECTOR_SIZE))
  {
    Part2InRange(|d|, reserveMb, false);
    var part2 := MbrPart2(|d| / SECTOR_SIZE, reserveMb);
    hide DecodeMbr, MbrInstalled, MbrTableFor, DetectMbr, MbrPart2, Guards;
    MbrInstalledReads(d, img, stage2, guid, part2);
    MbrTableDetected(DecodeMbr(MbrInstalled(d, img, stage2, guid, part2)), part2);
  }

  /** What reading a GPT needs of a disk. */
  lemma ReadsAs(r: seq<byte>, table: seq<MbrEntry>, h: GptHeader, p: seq<GptEntry>)
    requires h.Valid() && |table| == 4 && |p| == ENTRIES && ValidTable(p) && h.signature == GPT_SIGNATURE &&
             h.entrySize == ENTRY_BYTES
    requires |r| >= 2 * SECTOR_SIZE && TableAt(h) + TABLE_BYTES <= |r|
    requires r[446..510] == EncodeMbrTable(table) && r[510..512] == [0x55, 0xAA]
    requires r[SECTOR_SIZE..2 * SECTOR_SIZE] == EncodeHeader(h) &&
             r[TableAt(h)..TableAt(h) + TABLE_BYTES] == EncodeTable(p)
    ensures ReadGpt(r) == Ok(Gpt(Mbr(r[..446], table, 0x55, 0xAA), h, p)) &&
            DecodeMbr(r) == Mbr(r[..446], table, 0x55, 0xAA)
  {
    hide DecodeHeader, DecodeTable, EncodeHeader, EncodeTable, EncodeMbrTable, DecodeMbrTable, GPT_SIGNATURE;
    assert r[510] == r[510..512][0] && r[511] == r[510..512][1];
    MbrTableRoundTrip(table, r, 446);
    HeaderRoundTrip(h, r, SECTOR_SIZE);
    TableRoundTrip(p, r, TableAt(h));
  }

  /** The boot sector's edits reach neither the partition table nor the sectors after it. */
  lemma BootSectorKeeps(sector: seq<byte>, img: seq<byte>, guid: seq<byte>)
    requires |sector| == SECTOR_SIZE && |guid| == 16
    ensures var r := BootSector(sector, img, guid);
            r[446..510] == sector[446..510] && r[510..512] == [0x55, 0xAA] && r[440..444] == guid[12..16]
  {
    hide Stamped, LbaPatched;
    var s := Stamped(sector, img, guid);
    var r := BootSector(sector, img, guid);
    StampedKeeps(sector, img, guid);
    LbaPatchedTail(s, 0, PatchRange(img));
    assert r[440..] == s[440..];
    assert r[446..510] == r[440..][6..70] && s[446..510] == s[440..][6..70];
    assert r[440..444] == r[440..][..4] && r[510..512] == r[440..][70..];
    assert s[440..444] == s[440..][..4] && s[510..512] == s[440..][70..];
    assert s[446..510] == s[444..510][2..] && sector[446..510] == sector[444..510][2..];
  }

  /** A disk whose boot sector was edited after a GPT was written to it still reads as that GPT. */
  lemma StampedGptReads(b: seq<byte>, sector: seq<byte>, d: seq<byte>, g: Gpt, crc: Crc)
    requires g.Valid() && Placed(g, |d|) && b == WithGpt(d, g, crc) && |sector| == SECTOR_SIZE
    requires g.header.signature == GPT_SIGNATURE && g.header.entrySize == ENTRY_BYTES
    requires sector[446..510] == b[446..510] && sector[510..512] == [0x55, 0xAA]
    ensures var r := Splice(b, 0, sector);
            ReadGpt(r) == Ok(Gpt(Mbr(r[..446], g.mbr.partitions, 0x55, 0xAA), g.header, g.partitions))
            && DecodeMbr(r) == Mbr(r[..446], g.mbr.partitions, 0x55, 0xAA)
            && r[TableAt(g.header)..TableAt(g.header) + TABLE_BYTES] == EncodeTable(g.partitions)
  {
    hide WithGpt, EncodeHeader, EncodeTable, EncodeMbrTable, GPT_SIGNATURE, Splice, ReadGpt, DecodeMbr, BackupHeader;
    var r, h := Splice(b, 0, sector), g.header;
    GptPieces(d, g, crc);
    SpliceHere(b, 0, sector);
    SpliceElsewhere(b, 0, sector, SECTOR_SIZE, 2 * SECTOR_SIZE);
    SpliceElsewhere(b, 0, sector, TableAt(h), TableAt(h) + TABLE_BYTES);
    Inside(r, 0, sector, 446, 510);
    Inside(r, 0, sector, 510, 512);
    Inside(b, 0, EncodeMbr(g.mbr), 446, 510);
    assert EncodeMbr(g.mbr)[446..510] == EncodeMbrTable(g.mbr.partitions);
    hide EncodeMbr;
    ReadsAs(r, g.mbr.partitions, h, g.partitions);
  }

  /** A GPT installation reads back as the GPT that was composed, and is recognised. */
  lemma GptInstalledReads(d: seq<byte>, img: seq<byte>, stage2: seq<byte>, g: Gpt, crc: Crc)
    requires g.Valid() && g.header.headerSize == 92 && Placed(g, |d|) && |d| >= PART1_START * SECTOR_SIZE
    requires g.header.signature == GPT_SIGNATURE && g.header.entrySize == ENTRY_BYTES
    ensures var r := GptInstalled(d, img, stage2, g, crc);
            && ReadGpt(r) == Ok(Gpt(Mbr(r[..446], g.mbr.partitions, 0x55, 0xAA), Finalized(g, crc).header,
                                    g.partitions))
            && DecodeMbr(r).partitions == g.mbr.partitions && r[510] == 0x55 && r[511] == 0xAA
            && r[TableAt(g.header)..TableAt(g.header) + TABLE_BYTES] == EncodeTable(g.partitions)
  {
    hide WithGpt, Splice, BootSector, ReadGpt, DecodeMbr, GPT_SIGNATURE;
    var d1 := Splice(d, 34 * SECTOR_SIZE, Stage2(stage2, 2014));
    var b, f := GptBase(d, stage2, g, crc), Finalized(g, crc);
    var sector := BootSector(b[..SECTOR_SIZE], img, g.header.diskGuid);
    FinalizedPlaced(g, |d|, crc);
    BootSectorKeeps(b[..SECTOR_SIZE], img, g.header.diskGuid);
    assert b[..SECTOR_SIZE][446..510] == b[446..510];
    StampedGptReads(b, sector, d1, f, crc);
    SignatureBytes(b, sector);
  }

  lemma SignatureBytes(b: seq<byte>, sector: seq<byte>)
    requires |sector| == SECTOR_SIZE <= |b| && sector[510..512] == [0x55, 0xAA]
    ensures Splice(b, 0, sector)[510] == 0x55 && Splice(b, 0, sector)[511] == 0xAA
  {
    assert sector[510] == sector[510..512][0] && sector[511] == sector[510..512][1];
  }

  lemma NewGptDetected(g: Gpt, part2: nat, total: nat, diskGuid: seq<byte>, guid1: seq<byte>, guid2: seq<byte>)
    requires 34 + EFI_SECTORS <= total < 0x80_0000_0000_0000 && 0 < part2 <= total &&
             |diskGuid| == |guid1| == |guid2| == 16
    requires g.Valid() && g.partitions == NewGpt(total, part2, diskGuid, guid1, guid2).partitions
    ensures DetectGpt(g) == Some(part2 * SECTOR_SIZE)
  {
  }

  lemma GptInstallDetected(d: seq<byte>, img: seq<byte>, stage2: seq<byte>, part2: nat, diskGuid: seq<byte>,
                           guid1: seq<byte>, guid2: seq<byte>, crc: Crc)
    requires 69632 * SECTOR_SIZE <= |d| < 0x1_0000_0000_0000_0000 && 0 < part2 <= |d| / SECTOR_SIZE &&
             |diskGuid| == |guid1| == |guid2| == 16
    ensures var g := NewGpt(|d| / SECTOR_SIZE, part2, diskGuid, guid1, guid2);
            g.Valid() && g.header.headerSize == 92 && Placed(g, |d|) &&
              Detect(GptInstalled(d, img, stage2, g, crc)) == Ok(Some(part2 * SECTOR_SIZE))
  {
    var g := NewGpt(|d| / SECTOR_SIZE, part2, diskGuid, guid1, guid2);
    NewGptPlaced(|d|, part2, diskGuid, guid1, guid2);
    assert g.mbr.partitions[0].fsFlag == GPT_PROTECTIVE;
    var r := GptInstalled(d, img, stage2, g, crc);
    hide ReadGpt, DecodeMbr, GptInstalled, DetectGpt;
    GptInstalledReads(d, img, stage2, g, crc);
    NewGptDetected(ReadGpt(r).value, part2, |d| / SECTOR_SIZE, diskGuid, guid1, guid2);
  }
}
