/** Updating an installed disk: boot code, stage 2 and the GPT attributes are rewritten around
    the partitions. */
module RawUpdate {
  import opened Bytes
  import opened PartitionTables
  import opened Installer
  import BootImage

  const GAP_TAIL := 1044480

  // ── Reading depends on the table bytes alone ──────────────────────────

  lemma FromLe16Same(s: seq<byte>, t: seq<byte>, at: nat)
    requires at + 2 <= |s| && at + 2 <= |t| && s[at..at + 2] == t[at..at + 2]
    ensures FromLe16(s, at) == FromLe16(t, at)
  {
    var (u, w) := (s[at..at + 2], t[at..at + 2]);
    assert u[0] == s[at] && u[1] == s[at + 1] && w[0] == t[at] && w[1] == t[at + 1];
  }

  lemma FromLe64Same(s: seq<byte>, t: seq<byte>, at: nat)
    requires at + 8 <= |s| && at + 8 <= |t| && s[at..at + 8] == t[at..at + 8]
    ensures FromLe64(s, at) == FromLe64(t, at)
  {
    SameInside(s, t, at, at + 8, at, at + 4);
    SameInside(s, t, at, at + 8, at + 4, at + 8);
    FromLe32Slice(s, t, at, at);
    FromLe32Slice(s, t, at + 4, at + 4);
  }

  lemma SameMbrEntry(s: seq<byte>, t: seq<byte>, at: nat)
    requires at + 16 <= |s| && at + 16 <= |t| && s[at + 1..at + 16] == t[at + 1..at + 16]
    ensures DecodeMbrEntry(s, at).(active := 0) == DecodeMbrEntry(t, at).(active := 0)
  {
    hide FromLe16, FromLe32;
    SameInside(s, t, at + 1, at + 16, at + 2, at + 4);
    SameInside(s, t, at + 1, at + 16, at + 6, at + 8);
    SameInside(s, t, at + 1, at + 16, at + 8, at + 12);
    SameInside(s, t, at + 1, at + 16, at + 12, at + 16);
    SameInside(s, t, at + 1, at + 16, at + 1, at + 2);
    SameInside(s, t, at + 1, at + 16, at + 4, at + 6);
    assert s[at + 1] == s[at + 1..at + 2][0] && t[at + 1] == t[at + 1..at + 2][0];
    assert s[at + 4] == s[at + 4..at + 6][0] && t[at + 4] == t[at + 4..at + 6][0] &&
           s[at + 5] == s[at + 4..at + 6][1] && t[at + 5] == t[at + 4..at + 6][1];
    FromLe16Same(s, t, at + 2);
    FromLe16Same(s, t, at + 6);
    FromLe32Slice(s, t, at + 8, at + 8);
    FromLe32Slice(s, t, at + 12, at + 12);
  }

  lemma SameHeader(s: seq<byte>, t: seq<byte>, at: nat)
    requires at + SECTOR_SIZE <= |s| && at + SECTOR_SIZE <= |t| && s[at..at + SECTOR_SIZE] == t[at..at + SECTOR_SIZE]
    ensures DecodeHeader(s, at) == DecodeHeader(t, at)
  {
    hide FromLe32, FromLe64;
    var hi := at + SECTOR_SIZE;
    SameInside(s, t, at, hi, at, at + 8);
    SameInside(s, t, at, hi, at + 8, at + 12);
    SameInside(s, t, at, hi, at + 20, at + 24);
    SameInside(s, t, at, hi, at + 56, at + 72);
    SameInside(s, t, at, hi, at + 92, at + 512);
    Same32(s, t, at, hi, 12);
    Same32(s, t, at, hi, 16);
    Same32(s, t, at, hi, 80);
    Same32(s, t, at, hi, 84);
    Same32(s, t, at, hi, 88);
    Same64(s, t, at, hi, 24);
    Same64(s, t, at, hi, 32);
    Same64(s, t, at, hi, 40);
    Same64(s, t, at, hi, 48);
    Same64(s, t, at, hi, 72);
  }

  lemma Same32(s: seq<byte>, t: seq<byte>, lo: nat, hi: nat, i: nat)
    requires lo + i + 4 <= hi && hi <= |s| && hi <= |t| && s[lo..hi] == t[lo..hi]
    ensures FromLe32(s, lo + i) == FromLe32(t, lo + i)
  {
    SameInside(s, t, lo, hi, lo + i, lo + i + 4);
    FromLe32Slice(s, t, lo + i, lo + i);
  }

  lemma Same64(s: seq<byte>, t: seq<byte>, lo: nat, hi: nat, i: nat)
    requires lo + i + 8 <= hi && hi <= |s| && hi <= |t| && s[lo..hi] == t[lo..hi]
    ensures FromLe64(s, lo + i) == FromLe64(t, lo + i)
  {
    SameInside(s, t, lo, hi, lo + i, lo + i + 8);
    FromLe64Same(s, t, lo + i);
  }

  lemma SameEntry(s: seq<byte>, t: seq<byte>, at: nat)
    requires at + ENTRY_BYTES <= |s| && at + ENTRY_BYTES <= |t| && s[at..at + ENTRY_BYTES] == t[at..at + ENTRY_BYTES]
    ensures DecodeEntry(s, at) == DecodeEntry(t, at)
  {
    hide FromLe64, FromLe16;
    var hi := at + ENTRY_BYTES;
    SameInside(s, t, at, hi, at, at + 16);
    SameInside(s, t, at, hi, at + 16, at + 32);
    SameInside(s, t, at, hi, at + 32, at + 40);
    SameInside(s, t, at, hi, at + 40, at + 48);
    SameInside(s, t, at, hi, at + 48, at + 56);
    FromLe64Same(s, t, at + 32);
    FromLe64Same(s, t, at + 40);
    FromLe64Same(s, t, at + 48);
    forall i | 0 <= i < 36 ensures FromLe16(s, at + 56 + 2 * i) == FromLe16(t, at + 56 + 2 * i) {
      SameInside(s, t, at, hi, at + 56 + 2 * i, at + 58 + 2 * i);
      FromLe16Same(s, t, at + 56 + 2 * i);
    }
  }

  lemma {:induction false} SameTable(s: seq<byte>, t: seq<byte>, at: nat, n: nat)
    requires n > 0 && at + n * ENTRY_BYTES <= |s| && at + n * ENTRY_BYTES <= |t| &&
             s[at..at + n * ENTRY_BYTES] == t[at..at + n * ENTRY_BYTES]
    ensures DecodeTable(s, at, ENTRY_BYTES, n) == DecodeTable(t, at, ENTRY_BYTES, n)
    decreases n
  {
    hide DecodeEntry;
    SameInside(s, t, at, at + n * ENTRY_BYTES, at, at + ENTRY_BYTES);
    SameEntry(s, t, at);
    if n > 1 {
      SameInside(s, t, at, at + n * ENTRY_BYTES, at + ENTRY_BYTES, at + n * ENTRY_BYTES);
      SameTable(s, t, at + ENTRY_BYTES, n - 1);
    }
  }

  lemma {:induction false} SameMbrTable(s: seq<byte>, t: seq<byte>, at: nat, n: nat)
    requires at + 16 * n <= |s| && at + 16 * n <= |t| && s[at..at + 16 * n] == t[at..at + 16 * n]
    ensures DecodeMbrTable(s, at, n) == DecodeMbrTable(t, at, n)
    decreases n
  {
    hide DecodeMbrEntry;
    if n > 0 {
      SameInside(s, t, at, at + 16 * n, at + 1, at + 16);
      SameInside(s, t, at, at + 16 * n, at, at + 1);
      assert s[at] == s[at..at + 1][0] && t[at] == t[at..at + 1][0];
      SameMbrEntry(s, t, at);
      ActiveByte(s, at);
      ActiveByte(t, at);
      SameInside(s, t, at, at + 16 * n, at + 16, at + 16 * n);
      SameMbrTable(s, t, at + 16, n - 1);
    }
  }

  lemma ActiveByte(s: seq<byte>, at: nat)
    requires at + 16 <= |s|
    ensures DecodeMbrEntry(s, at).active == s[at]
  {
  }

  /** Two disks that agree from the MBR's table to the end of a GPT table in its usual place
      read as the same GPT, boot code aside. */
  lemma SameGpt(s: seq<byte>, t: seq<byte>, g: Gpt)
    requires ReadGpt(s) == Ok(g) && g.header.tableStart == 2 && g.header.entrySize == ENTRY_BYTES
    requires |s| == |t| >= 34 * SECTOR_SIZE && s[446..34 * SECTOR_SIZE] == t[446..34 * SECTOR_SIZE]
    ensures ReadGpt(t) == Ok(Gpt(Mbr(t[..446], g.mbr.partitions, 0x55, 0xAA), g.header, g.partitions))
    ensures DecodeMbr(t).partitions == g.mbr.partitions && t[510] == 0x55 && t[511] == 0xAA
  {
    hide DecodeHeader, DecodeTable, DecodeMbrTable, GPT_SIGNATURE;
    var hi := 34 * SECTOR_SIZE;
    SameInside(s, t, 446, hi, 446, 510);
    SameInside(s, t, 446, hi, 510, 512);
    assert s[510] == s[510..512][0] && t[510] == t[510..512][0] && s[511] == s[510..512][1] && t[511] == t[510..512][1];
    SameMbrTable(s, t, 446, 4);
    SameInside(s, t, 446, hi, SECTOR_SIZE, 2 * SECTOR_SIZE);
    SameHeader(s, t, SECTOR_SIZE);
    SameInside(s, t, 446, hi, 2 * SECTOR_SIZE, hi);
    SameTable(s, t, 2 * SECTOR_SIZE, ENTRIES);
  }

  // ── MBR disks ─────────────────────────────────────────────────────────

  /** The active flag moves to the first partition when only the second one has it. */
  function ActiveFixed(d: seq<byte>): (r: seq<byte>)
    requires |d| >= SECTOR_SIZE
    ensures |r| == |d|
  {
    if d[446] == 0 && d[462] == ACTIVE then Splice(Splice(d, 446, [ACTIVE]), 462, [0]) else d
  }

  function MbrUpdated(d: seq<byte>, img: seq<byte>, stage2: seq<byte>): (r: seq<byte>)
    requires |d| >= DATA_START
    ensures |r| == |d|
  {
    var d2 := Splice(ActiveFixed(d), SECTOR_SIZE, Stage2(stage2, 2047));
    var d3 := Splice(d2, 0, BootCode(img));
    var d4 := Splice(d3, 384, d2[384..400]);
    Splice(d4, GAP_TAIL, d2[GAP_TAIL..DATA_START])
  }

  method UpdateMbr(disk: array<byte>, img: seq<byte>, stage2: seq<byte>)
    requires disk.Length >= DATA_START
    modifies disk
    ensures disk[..] == MbrUpdated(old(disk[..]), img, stage2)
  {
    hide Splice, Stage2, BootCode;
    ghost var before := disk[..];
    if disk[446] == 0 && disk[462] == ACTIVE {
      CopyInto(disk, 446, [ACTIVE]);
      CopyInto(disk, 462, [0]);
    }
    assert disk[..] == ActiveFixed(before);
    CopyInto(disk, SECTOR_SIZE, Stage2(stage2, 2047));
    ghost var d2 := disk[..];
    var diskUuid := disk[384..400];
    var rsvData := disk[GAP_TAIL..DATA_START];
    assert diskUuid == d2[384..400] && rsvData == d2[GAP_TAIL..DATA_START];
    CopyInto(disk, 0, BootCode(img));
    CopyInto(disk, 384, diskUuid);
    CopyInto(disk, GAP_TAIL, rsvData);
  }

  /** Writing back what is there changes nothing. */
  lemma SpliceSame(d: seq<byte>, lo: nat, hi: nat)
    requires lo <= hi <= |d|
    ensures Splice(d, lo, d[lo..hi]) == d
  {
  }

  /** The gap's last sectors are written back as they were. */
  lemma GapWriteBack(d2: seq<byte>, img: seq<byte>, uuid: seq<byte>)
    requires |d2| >= DATA_START && |uuid| == 16
    ensures var d4 := Splice(Splice(d2, 0, BootCode(img)), 384, uuid);
            Splice(d4, GAP_TAIL, d2[GAP_TAIL..DATA_START]) == d4
  {
    hide Splice;
    var d3 := Splice(d2, 0, BootCode(img));
    var d4 := Splice(d3, 384, uuid);
    SpliceElsewhere(d2, 0, BootCode(img), GAP_TAIL, DATA_START);
    SpliceElsewhere(d3, 384, uuid, GAP_TAIL, DATA_START);
    SpliceSame(d4, GAP_TAIL, DATA_START);
  }

  /** An update touches neither the partitions nor the disk's GUID and signature, and of the
      partition table only the two active flags. */
  lemma MbrUpdateKeeps(d: seq<byte>, img: seq<byte>, stage2: seq<byte>)
    requires |d| >= DATA_START
    ensures var r := MbrUpdated(d, img, stage2);
            && r[DATA_START..] == d[DATA_START..] && r[384..400] == d[384..400] && r[440..446] == d[440..446] &&
               r[510..512] == d[510..512]
            && r[447..462] == d[447..462] && r[463..510] == d[463..510]
  {
    hide Splice, Stage2, ActiveFixed, BootCode;
    var d1 := ActiveFixed(d);
    var d2 := Splice(d1, SECTOR_SIZE, Stage2(stage2, 2047));
    var d3 := Splice(d2, 0, BootCode(img));
    var d4 := Splice(d3, 384, d2[384..400]);
    GapWriteBack(d2, img, d2[384..400]);
    ActiveKeeps(d, DATA_START, |d|);
    ActiveKeeps(d, 384, 400);
    ActiveKeeps(d, 440, 446);
    ActiveKeeps(d, 447, 462);
    ActiveKeeps(d, 463, 510);
    ActiveKeeps(d, 510, 512);
    MbrWritesKeep(d1, img, stage2, DATA_START, |d|);
    MbrWritesKeep(d1, img, stage2, 440, 446);
    MbrWritesKeep(d1, img, stage2, 447, 462);
    MbrWritesKeep(d1, img, stage2, 463, 510);
    MbrWritesKeep(d1, img, stage2, 510, 512);
    SpliceElsewhere(d1, SECTOR_SIZE, Stage2(stage2, 2047), 384, 400);
    SpliceHere(d3, 384, d2[384..400]);
    var r := MbrUpdated(d, img, stage2);
    assert r == d4;
    assert r[DATA_START..] == r[DATA_START..|d|] && d[DATA_START..] == d[DATA_START..|d|];
  }

  /** The two active flags are at most exchanged, and of two proper flags the first is set afterwards
      whenever one was. */
  lemma MbrUpdateFlags(d: seq<byte>, img: seq<byte>, stage2: seq<byte>)
    requires |d| >= DATA_START
    ensures var r := MbrUpdated(d, img, stage2);
            && multiset{r[446], r[462]} == multiset{d[446], d[462]}
            && (d[446] != 0 || d[462] != 0x80 ==> r[446] == d[446] && r[462] == d[462])
            && (d[446] == 0 && d[462] == 0x80 ==> r[446] == 0x80 && r[462] == 0)
  {
    var d1 := ActiveFixed(d);
    FixedFlags(d);
    hide Splice, Stage2, ActiveFixed, BootCode;
    MbrWritesKeep(d1, img, stage2, 440, 512);
    var d2 := Splice(d1, SECTOR_SIZE, Stage2(stage2, 2047));
    GapWriteBack(d2, img, d2[384..400]);
    var r := MbrUpdated(d, img, stage2);
    assert r[440..512] == d1[440..512];
    assert r[446] == r[440..512][6] && r[462] == r[440..512][22] && d1[446] == d1[440..512][6] &&
           d1[462] == d1[440..512][22];
  }

  lemma FixedFlags(d: seq<byte>)
    requires |d| >= SECTOR_SIZE
    ensures var r := ActiveFixed(d);
            if d[446] == 0 && d[462] == 0x80 then r[446] == 0x80 && r[462] == 0 else r == d
  {
  }

  lemma ActiveKeeps(d: seq<byte>, lo: nat, hi: nat)
    requires SECTOR_SIZE <= |d| && lo <= hi <= |d| && (hi <= 446 || 447 <= lo) && (hi <= 462 || 463 <= lo)
    ensures ActiveFixed(d)[lo..hi] == d[lo..hi]
  {
    hide Splice;
    SpliceElsewhere(d, 446, [ACTIVE], lo, hi);
    SpliceElsewhere(Splice(d, 446, [ACTIVE]), 462, [0], lo, hi);
  }

  lemma MbrWritesKeep(d1: seq<byte>, img: seq<byte>, stage2: seq<byte>, lo: nat, hi: nat)
    requires |d1| >= DATA_START && lo <= hi <= |d1| && 440 <= lo && (hi <= 512 || DATA_START <= lo)
    ensures var d2 := Splice(d1, SECTOR_SIZE, Stage2(stage2, 2047));
            Splice(Splice(d2, 0, BootCode(img)), 384, d2[384..400])[lo..hi] == d1[lo..hi]
  {
    hide Splice;
    var d2 := Splice(d1, SECTOR_SIZE, Stage2(stage2, 2047));
    var d3 := Splice(d2, 0, BootCode(img));
    SpliceElsewhere(d1, SECTOR_SIZE, Stage2(stage2, 2047), lo, hi);
    SpliceElsewhere(d2, 0, BootCode(img), lo, hi);
    SpliceElsewhere(d3, 384, d2[384..400], lo, hi);
  }

  /** The installer finds the second partition where it was. */
  lemma MbrUpdateDetected(d: seq<byte>, img: seq<byte>, stage2: seq<byte>)
    requires |d| >= DATA_START && d[510] == 0x55 && d[511] == 0xAA && !DecodeMbr(d).IsGptProtective()
    ensures Detect(MbrUpdated(d, img, stage2)) == Detect(d)
  {
    hide MbrUpdated, FromLe16, FromLe32;
    var r := MbrUpdated(d, img, stage2);
    MbrUpdateKeeps(d, img, stage2);
    assert r[510] == r[510..512][0] && r[511] == r[510..512][1] && d[510] == d[510..512][0] && d[511] == d[510..512][1];
    SameMbrEntry(r, d, 446);
    SameInside(r, d, 463, 510, 463, 478);
    SameMbrEntry(r, d, 462);
    TwoEntries(r);
    TwoEntries(d);
    hide DecodeMbrEntry, DecodeMbr;
  }

  lemma TwoEntries(d: seq<byte>)
    requires |d| >= SECTOR_SIZE
    ensures DecodeMbr(d).partitions[0] == DecodeMbrEntry(d, 446) && DecodeMbr(d).partitions[1] == DecodeMbrEntry(d, 462)
  {
    hide DecodeMbrEntry;
  }

  // ── GPT disks ─────────────────────────────────────────────────────────

  /** The second entry carries the name of Choosable's own partition. */
  predicate NamedCzbl(g: Gpt)
    requires g.Valid()
  {
    g.partitions[1].name[..4] == CZBLEFI[..4]
  }

  predicate NeedsRewrite(g: Gpt)
    requires g.Valid()
  {
    NamedCzbl(g) && (g.partitions[1].attributes != EFI_ATTR || g.mbr.partitions[0].fsFlag != GPT_PROTECTIVE ||
                     g.mbr.partitions[0].sectorCount == 0)
  }

  /** The repaired structure: the required attribute and a protective MBR entry. */
  function Repaired(g: Gpt): (r: Gpt)
    requires g.Valid()
    ensures r.Valid()
  {
    var p0 := g.mbr.partitions[0].(fsFlag := GPT_PROTECTIVE, startLba := 1, sectorCount := 0xFFFF_FFFF);
    g.(mbr := g.mbr.(partitions := g.mbr.partitions[0 := p0]),
       partitions := g.partitions[1 := g.partitions[1].(attributes := EFI_ATTR)])
  }

  function AttributesFixed(d: seq<byte>, g: Gpt, crc: Crc): (r: seq<byte>)
    requires Rewritable(g, |d|) && |d| >= 446
    ensures |r| == |d|
  {
    if NeedsRewrite(g) then Splice(WithGpt(d, Finalized(Repaired(g), crc), crc), 0, d[..446]) else d
  }

  /** Stage 2 in the gap behind the table. */
  function WithStage2(d: seq<byte>, stage2: seq<byte>): (r: seq<byte>)
    requires |d| >= DATA_START
    ensures |r| == |d|
  {
    Splice(d, 34 * SECTOR_SIZE, Stage2(stage2, 2014))
  }

  /** The boot sector rewritten, and the end of the gap written back. */
  function BootRewritten(d: seq<byte>, img: seq<byte>): (r: seq<byte>)
    requires |d| >= DATA_START
    ensures |r| == |d|
  {
    Splice(Splice(d, 0, BootSector(d[..SECTOR_SIZE], img, d[384..400])), GAP_TAIL, d[GAP_TAIL..DATA_START])
  }

  function GptUpdated(d: seq<byte>, g: Gpt, img: seq<byte>, stage2: seq<byte>, crc: Crc): (r: seq<byte>)
    requires UsualPlace(g, |d|)
    ensures |r| == |d|
  {
    BootRewritten(AttributesFixed(WithStage2(d, stage2), g, crc), img)
  }

  /** Stage 2 lies behind the table: the disk still carries the same GPT. */
  lemma Stage2Keeps(d: seq<byte>, g: Gpt, stage2: seq<byte>)
    requires ReadGpt(d) == Ok(g) && UsualPlace(g, |d|)
    ensures ReadGpt(WithStage2(d, stage2)) == Ok(g)
  {
    MbrOfGpt(d, g);
    hide Splice, Stage2, ReadGpt, DecodeMbr;
    var d1 := WithStage2(d, stage2);
    SpliceElsewhere(d, 34 * SECTOR_SIZE, Stage2(stage2, 2014), 446, 34 * SECTOR_SIZE);
    SpliceElsewhere(d, 34 * SECTOR_SIZE, Stage2(stage2, 2014), 0, 446);
    SameGpt(d, d1, g);
    assert d1[..446] == d1[0..446] && d[..446] == d[0..446];
  }

  /** Repairs the GPT where needed; a disk that reads as none is left alone. */
  method FixGptAttributes(disk: array<byte>, crc: Crc) returns (ok: bool)
    requires ReadGpt(disk[..]).Ok? ==> Rewritable(ReadGpt(disk[..]).value, disk.Length)
    modifies disk
    ensures ok <==> ReadGpt(old(disk[..])).Ok?
    ensures ok ==> disk.Length >= 446 && disk[..] == AttributesFixed(old(disk[..]), ReadGpt(old(disk[..])).value, crc)
    ensures !ok ==> disk[..] == old(disk[..])
  {
    var read := ReadGptFromDisk(disk);
    if read.Err? { return false; }
    var gpt := read.value;
    MbrOfGpt(disk[..], gpt);
    RepairedPlaced(gpt, disk.Length, crc);
    hide ReadGpt, WithGpt, Finalized, Repaired, Splice, NeedsRewrite;
    if NeedsRewrite(gpt) {
      var savedBootCode := disk[..446];
      ghost var before := disk[..];
      assert savedBootCode == before[..446];
      WriteGpt(disk, Finalized(Repaired(gpt), crc), crc);
      CopyInto(disk, 0, savedBootCode);
    }
    return true;
  }

  lemma RepairedPlaced(g: Gpt, disk: nat, crc: Crc)
    requires Rewritable(g, disk)
    ensures Repaired(g).header == g.header && Finalized(Repaired(g), crc).Valid() &&
            Placed(Finalized(Repaired(g), crc), disk)
  {
  }

  method RewriteBootSector(disk: array<byte>, img: seq<byte>)
    requires disk.Length >= DATA_START
    modifies disk
    ensures disk[..] == BootRewritten(old(disk[..]), img)
  {
    hide Splice, Stamped, LbaPatched;
    ghost var d2 := disk[..];
    var diskUuid := disk[384..400];
    var rsvData := disk[GAP_TAIL..DATA_START];
    var mbrBytes := disk[..SECTOR_SIZE];
    assert diskUuid == d2[384..400] && rsvData == d2[GAP_TAIL..DATA_START] && mbrBytes == d2[..SECTOR_SIZE];
    mbrBytes := Stamped(mbrBytes, img, diskUuid);
    mbrBytes := PatchLba(mbrBytes, PatchRange(img));
    CopyInto(disk, 0, mbrBytes);
    CopyInto(disk, GAP_TAIL, rsvData);
  }

  /** Writes stage 2, repairs the attributes and rewrites the boot sector; when the disk no longer
      reads as a GPT it stops before the repair. */
  method UpdateGpt(disk: array<byte>, img: seq<byte>, stage2: seq<byte>, crc: Crc) returns (ok: bool)
    requires disk.Length >= DATA_START
    requires var read := ReadGpt(WithStage2(disk[..], stage2)); read.Ok? ==> Rewritable(read.value, disk.Length)
    modifies disk
    ensures var d1 := WithStage2(old(disk[..]), stage2);
            && (ok <==> ReadGpt(d1).Ok?)
            && disk[..] == if ok then BootRewritten(AttributesFixed(d1, ReadGpt(d1).value, crc), img) else d1
    ensures var read := ReadGpt(old(disk[..]));
            read.Ok? && UsualPlace(read.value, disk.Length)
            ==> ok && disk[..] == GptUpdated(old(disk[..]), read.value, img, stage2, crc)
  {
    if ReadGpt(disk[..]).Ok? && UsualPlace(ReadGpt(disk[..]).value, disk.Length) {
      Stage2Keeps(disk[..], ReadGpt(disk[..]).value, stage2);
    }
    hide UsualPlace;
    hide Splice, Stage2, AttributesFixed, BootRewritten, ReadGpt;
    CopyInto(disk, 34 * SECTOR_SIZE, Stage2(stage2, 2014));
    ok := FixGptAttributes(disk, crc);
    if ok { RewriteBootSector(disk, img); }
  }

  // ── What a GPT update keeps ───────────────────────────────────────────

  lemma RewrittenReads(d: seq<byte>, g: Gpt, f: Gpt, crc: Crc)
    requires ReadGpt(d) == Ok(g) && UsualPlace(g, |d|) && f == Finalized(Repaired(g), crc) && f.Valid() &&
             Placed(f, |d|)
    ensures var r := Splice(WithGpt(d, f, crc), 0, d[..446]);
            && r[..446] == d[..446] && r[34 * SECTOR_SIZE..BackupTableAt(g.header)] ==
               d[34 * SECTOR_SIZE..BackupTableAt(g.header)]
            && ReadGpt(r) == Ok(f)
  {
    MbrOfGpt(d, g);
    assert f.header.tableStart == 2 && f.header.entrySize == ENTRY_BYTES && f.header.signature == GPT_SIGNATURE &&
           f.header.backupLba == g.header.backupLba;
    assert f.mbr.bootCode == d[..446] && f.mbr.sig55 == 0x55 && f.mbr.sigAA == 0xAA;
    hide ReadGpt, WithGpt, Splice, Finalized, Repaired, EncodeHeader, EncodeTable, EncodeMbr, GPT_SIGNATURE, DecodeMbr;
    var w := WithGpt(d, f, crc);
    GptElsewhere(d, f, crc, 34 * SECTOR_SIZE, BackupTableAt(g.header));
    GptReadBack(d, f, crc);
    MbrOfGpt(w, f);
    SpliceSame(w, 0, 446);
    assert w[0..446] == w[..446] == d[..446];
  }

  /** What the GPT reads as after an update. */
  function After(g: Gpt, crc: Crc): (f: Gpt)
    requires g.Valid() && g.header.headerSize == 92
    ensures f.Valid()
  {
    if NeedsRewrite(g) then Finalized(Repaired(g), crc) else g
  }

  /** The disk after the attribute repair: the same boot code, the repaired GPT, the same data. */
  lemma AttributesFixedReads(d: seq<byte>, g: Gpt, crc: Crc)
    requires ReadGpt(d) == Ok(g) && UsualPlace(g, |d|)
    ensures var r := AttributesFixed(d, g, crc);
            && r[..446] == d[..446] && r[34 * SECTOR_SIZE..BackupTableAt(g.header)] ==
               d[34 * SECTOR_SIZE..BackupTableAt(g.header)]
            && ReadGpt(r) == Ok(After(g, crc))
  {
    RepairedPlaced(g, |d|, crc);
    hide ReadGpt, WithGpt, Finalized, Repaired, Splice, NeedsRewrite;
    if NeedsRewrite(g) { RewrittenReads(d, g, Finalized(Repaired(g), crc), crc); }
  }

  /** The repaired disk before its boot sector is rewritten. */
  lemma RepairedDisk(d: seq<byte>, g: Gpt, stage2: seq<byte>, crc: Crc)
    requires ReadGpt(d) == Ok(g) && UsualPlace(g, |d|)
    ensures var (d1, d2, hi) :=
            (WithStage2(d, stage2), AttributesFixed(WithStage2(d, stage2), g, crc), BackupTableAt(g.header));
            && DATA_START <= hi <= |d| && d2[..446] == d1[..446] && d2[34 * SECTOR_SIZE..hi] == d1[34 * SECTOR_SIZE..hi]
            && ReadGpt(d2) == Ok(After(g, crc)) && d2[510] == 0x55 && d2[511] == 0xAA
  {
    Stage2Keeps(d, g, stage2);
    var d1 := WithStage2(d, stage2);
    AttributesFixedReads(d1, g, crc);
    MbrOfGpt(AttributesFixed(d1, g, crc), After(g, crc));
    hide ReadGpt, AttributesFixed, Splice, After, DecodeMbr, Stage2;
  }

  /** Every byte of the partitions is kept: all that lies between the gap and the backup table. */
  lemma GptUpdateKeepsData(d: seq<byte>, g: Gpt, img: seq<byte>, stage2: seq<byte>, crc: Crc)
    requires ReadGpt(d) == Ok(g) && UsualPlace(g, |d|)
    ensures var hi := BackupTableAt(g.header);
            DATA_START <= hi <= |d| && GptUpdated(d, g, img, stage2, crc)[DATA_START..hi] == d[DATA_START..hi]
  {
    RepairedDisk(d, g, stage2, crc);
    var d1 := WithStage2(d, stage2);
    hide ReadGpt, AttributesFixed, Splice, After, DecodeMbr, Stage2, BootRewritten;
    GptUpdateParts(d, d1, AttributesFixed(d1, g, crc), BackupTableAt(g.header), img, stage2);
  }

  /** The disk carries the same table: the extents of all partitions stay, and only the second
      partition's attributes and the protective entry may have been repaired. */
  lemma GptUpdateReads(d: seq<byte>, g: Gpt, img: seq<byte>, stage2: seq<byte>, crc: Crc)
    requires ReadGpt(d) == Ok(g) && UsualPlace(g, |d|)
    ensures var (r, f) := (GptUpdated(d, g, img, stage2, crc), After(g, crc));
            && ReadGpt(r) == Ok(Gpt(Mbr(r[..446], f.mbr.partitions, 0x55, 0xAA), f.header, f.partitions))
            && DecodeMbr(r).partitions == f.mbr.partitions && r[510] == 0x55 && r[511] == 0xAA
  {
    RepairedDisk(d, g, stage2, crc);
    AfterHeader(g, crc);
    var d1 := WithStage2(d, stage2);
    var (d2, f) := (AttributesFixed(d1, g, crc), After(g, crc));
    hide ReadGpt, AttributesFixed, Splice, After, DecodeMbr, Stage2, BootRewritten, UsualPlace;
    GptUpdateParts(d, d1, d2, BackupTableAt(g.header), img, stage2);
    SameGpt(d2, GptUpdated(d, g, img, stage2, crc), f);
  }

  /** Stage 2 and the attribute repair leave the disk's GUID alone. */
  lemma RepairKeepsGuid(d: seq<byte>, g: Gpt, stage2: seq<byte>, crc: Crc)
    requires ReadGpt(d) == Ok(g) && UsualPlace(g, |d|)
    ensures AttributesFixed(WithStage2(d, stage2), g, crc)[384..400] == d[384..400]
  {
    RepairedDisk(d, g, stage2, crc);
    var d1 := WithStage2(d, stage2);
    hide ReadGpt, AttributesFixed, Splice, After, DecodeMbr, Stage2, BootRewritten;
    GptUpdateParts(d, d1, AttributesFixed(d1, g, crc), BackupTableAt(g.header), [], stage2);
  }

  /** The update of a disk whose second entry is Choosable's own leaves it the required attribute
      and a protective entry that is not empty, and repairs nothing a second time. Any other disk's
      table is left as it is, and so is one that needs no repair. */
  lemma RepairIs(g: Gpt, crc: Crc)
    requires g.Valid() && g.header.headerSize == 92
    ensures var (f, own) := (After(g, crc), g.partitions[1].name[..4] == [67, 90, 66, 76]);
            && (own ==> f.partitions[1].attributes == 1 && f.mbr.partitions[0].fsFlag == 0xEE &&
                        f.mbr.partitions[0].sectorCount > 0)
            && (f != g ==> own && (g.partitions[1].attributes != 1 || g.mbr.partitions[0].fsFlag != 0xEE ||
                                   g.mbr.partitions[0].sectorCount == 0))
            && (f != g ==> f.mbr.partitions[0].startLba == 1 && f.mbr.partitions[0].sectorCount == 0xFFFF_FFFF)
            && (forall i :: 0 <= i < ENTRIES && i != 1 ==> f.partitions[i] == g.partitions[i])
            && (forall i :: 1 <= i < 4 ==> f.mbr.partitions[i] == g.mbr.partitions[i])
            && f.header.headerSize == 92 && After(f, crc) == f
  {
    hide HeaderBytes;
    var f := After(g, crc);
    assert CZBLEFI[..4] == [67, 90, 66, 76];
    if NeedsRewrite(g) {
      assert f.partitions == Repaired(g).partitions && f.mbr == Repaired(g).mbr;
      assert !NeedsRewrite(f);
    }
  }

  lemma AfterExtents(g: Gpt, crc: Crc)
    requires g.Valid() && g.header.headerSize == 92
    ensures var f := After(g, crc);
            && (forall i :: 0 <= i < ENTRIES ==> f.partitions[i].(attributes := 0) == g.partitions[i].(attributes := 0))
            && (g.mbr.IsGptProtective() ==> f.mbr.IsGptProtective())
  {
  }

  /** A recognised GPT disk is recognised after the update, with the same second partition. */
  lemma GptUpdateDetected(d: seq<byte>, g: Gpt, img: seq<byte>, stage2: seq<byte>, crc: Crc)
    requires ReadGpt(d) == Ok(g) && UsualPlace(g, |d|) && g.mbr.IsGptProtective()
    ensures Detect(GptUpdated(d, g, img, stage2, crc)) == Detect(d)
  {
    GptUpdateReads(d, g, img, stage2, crc);
    AfterExtents(g, crc);
    MbrOfGpt(d, g);
    var r := GptUpdated(d, g, img, stage2, crc);
    hide ReadGpt, GptUpdated, DecodeMbr, After, UsualPlace, DetectGpt;
    SameDetection(g, ReadGpt(r).value);
  }

  lemma SameDetection(g: Gpt, h: Gpt)
    requires g.Valid() && h.Valid() &&
             forall i :: 0 <= i < ENTRIES ==> h.partitions[i].(attributes := 0) == g.partitions[i].(attributes := 0)
    ensures DetectGpt(h) == DetectGpt(g)
  {
    assert h.partitions[0].(attributes := 0) == g.partitions[0].(attributes := 0);
    assert h.partitions[1].(attributes := 0) == g.partitions[1].(attributes := 0);
  }

  lemma AfterHeader(g: Gpt, crc: Crc)
    requires g.Valid() && g.header.headerSize == 92
    ensures var h := After(g, crc).header; h.tableStart == g.header.tableStart && h.entrySize == g.header.entrySize
  {
  }

  /** What the boot sector and the write-back leave alone. */
  lemma GptUpdateParts(d: seq<byte>, d1: seq<byte>, d2: seq<byte>, hi: nat, img: seq<byte>, stage2: seq<byte>)
    requires DATA_START <= hi <= |d| && d1 == WithStage2(d, stage2) && |d2| == |d|
    requires d2[..446] == d1[..446] && d2[34 * SECTOR_SIZE..hi] == d1[34 * SECTOR_SIZE..hi] && d2[510] == 0x55 &&
             d2[511] == 0xAA
    ensures var r := BootRewritten(d2, img);
            && r[446..34 * SECTOR_SIZE] == d2[446..34 * SECTOR_SIZE]
            && r[DATA_START..hi] == d[DATA_START..hi] && d2[384..400] == d[384..400]
  {
    hide Splice, BootSector, Stage2;
    var sector := BootSector(d2[..SECTOR_SIZE], img, d2[384..400]);
    var d3 := Splice(d2, 0, sector);
    BootSectorKeeps(d2[..SECTOR_SIZE], img, d2[384..400]);
    SpliceHere(d2, 0, sector);
    SpliceElsewhere(d2, 0, sector, SECTOR_SIZE, |d|);
    SpliceElsewhere(d2, 0, sector, GAP_TAIL, DATA_START);
    SpliceSame(d3, GAP_TAIL, DATA_START);
    SameInside(d3, d2, SECTOR_SIZE, |d|, SECTOR_SIZE, 34 * SECTOR_SIZE);
    SameInside(d3, d2, SECTOR_SIZE, |d|, DATA_START, hi);
    SameInside(d2, d1, 34 * SECTOR_SIZE, hi, DATA_START, hi);
    SpliceElsewhere(d, 34 * SECTOR_SIZE, Stage2(stage2, 2014), DATA_START, hi);
    TailOfSector(d3, d2, sector);
    SpliceElsewhere(d, 34 * SECTOR_SIZE, Stage2(stage2, 2014), 384, 400);
    assert d2[384..400] == d2[..446][384..400] && d1[384..400] == d1[..446][384..400];
  }

  lemma TailOfSector(d3: seq<byte>, d2: seq<byte>, sector: seq<byte>)
    requires |d3| == |d2| >= 34 * SECTOR_SIZE && |sector| == SECTOR_SIZE && d3[0..SECTOR_SIZE] == sector
    requires sector[446..510] == d2[..SECTOR_SIZE][446..510] && sector[510..512] == [0x55, 0xAA] && d2[510] == 0x55 &&
             d2[511] == 0xAA
    requires d3[SECTOR_SIZE..34 * SECTOR_SIZE] == d2[SECTOR_SIZE..34 * SECTOR_SIZE]
    ensures d3[446..34 * SECTOR_SIZE] == d2[446..34 * SECTOR_SIZE]
  {
    Inside(d3, 0, sector, 446, 510);
    Inside(d3, 0, sector, 510, 512);
    assert d2[446..510] == d2[..SECTOR_SIZE][446..510];
    assert d2[510..512] == [0x55, 0xAA];
    assert d3[446..34 * SECTOR_SIZE] == d3[446..510] + d3[510..512] + d3[SECTOR_SIZE..34 * SECTOR_SIZE];
    assert d2[446..34 * SECTOR_SIZE] == d2[446..510] + d2[510..512] + d2[SECTOR_SIZE..34 * SECTOR_SIZE];
  }

  // ── The disk's GUID ───────────────────────────────────────────────────

  /** Where the search for the instruction to patch ends. */
  function FirstNeedle(sector: seq<byte>, i: nat, n: nat): (p: Option<nat>)
    requires |sector| == SECTOR_SIZE && n <= 432
    ensures p.Some? ==> i <= p.value < n && NeedleAt(sector, p.value)
    decreases n - i
  {
    if i >= n then None else if NeedleAt(sector, i) then Some(i) else FirstNeedle(sector, i + 1, n)
  }

  lemma {:induction false} NeedlePatched(sector: seq<byte>, i: nat, n: nat)
    requires |sector| == SECTOR_SIZE && n <= 432
    ensures LbaPatched(sector, i, n)
         == match FirstNeedle(sector, i, n) case None => sector case Some(p) => Splice(sector, p + 4, Le32(34))
    decreases n - i
  {
    hide Splice;
    if i < n && !NeedleAt(sector, i) { NeedlePatched(sector, i + 1, n); }
  }

  /** No byte that the patch changes lies where the GUID does. */
  predicate SparesGuid(sector: seq<byte>, n: nat)
    requires |sector| == SECTOR_SIZE && n <= 432
  {
    match FirstNeedle(sector, 0, n)
    case None => true
    case Some(p) => forall j :: 384 <= j < 400 && p + 4 <= j < p + 8 ==> sector[j] == Le32(34)[j - p - 4]
  }

  lemma PatchGuidIff(sector: seq<byte>, n: nat)
    requires |sector| == SECTOR_SIZE && n <= 432
    ensures LbaPatched(sector, 0, n)[384..400] == sector[384..400] <==> SparesGuid(sector, n)
  {
    NeedlePatched(sector, 0, n);
    var r := LbaPatched(sector, 0, n);
    hide FirstNeedle, LbaPatched, Le32;
    assert r[384..400] == sector[384..400] <==> forall j :: 384 <= j < 400 ==> r[j] == sector[j] by {
      assert forall j :: 384 <= j < 400 ==> r[384..400][j - 384] == r[j] && sector[384..400][j - 384] == sector[j];
    }
  }

  /** The GUID survives in the new boot sector exactly when the patch spares it. */
  lemma BootGuidIff(d: seq<byte>, img: seq<byte>)
    requires |d| >= DATA_START
    ensures BootRewritten(d, img)[384..400] == d[384..400]
       <==> SparesGuid(Stamped(d[..SECTOR_SIZE], img, d[384..400]), PatchRange(img))
  {
    hide Splice, SparesGuid, Stamped, LbaPatched;
    var (guid, s) := (d[384..400], Stamped(d[..SECTOR_SIZE], img, d[384..400]));
    var sector := BootSector(d[..SECTOR_SIZE], img, guid);
    var r := BootRewritten(d, img);
    StampedKeeps(d[..SECTOR_SIZE], img, guid);
    PatchGuidIff(s, PatchRange(img));
    SpliceHere(d, 0, sector);
    SpliceElsewhere(Splice(d, 0, sector), GAP_TAIL, d[GAP_TAIL..DATA_START], 0, SECTOR_SIZE);
    Inside(r, 0, sector, 384, 400);
  }

  lemma {:induction false} SameFirstNeedle(s: seq<byte>, t: seq<byte>, i: nat, n: nat)
    requires |s| == |t| == SECTOR_SIZE && n <= 432 && s[..440] == t[..440]
    ensures FirstNeedle(s, i, n) == FirstNeedle(t, i, n)
    decreases n - i
  {
    if i < n {
      SameNeedle(s, t, 440, i);
      hide NeedleAt;
      SameFirstNeedle(s, t, i + 1, n);
    }
  }

  lemma SameSpared(s: seq<byte>, t: seq<byte>, n: nat)
    requires |s| == |t| == SECTOR_SIZE && n <= 432 && s[..440] == t[..440]
    ensures SparesGuid(s, n) == SparesGuid(t, n)
  {
    SameFirstNeedle(s, t, 0, n);
    hide FirstNeedle;
    assert forall j :: 384 <= j < 400 ==> s[j] == s[..440][j] && t[j] == t[..440][j];
  }

  lemma StampedAlike(s: seq<byte>, t: seq<byte>, img: seq<byte>, guid: seq<byte>)
    requires |s| == |t| == SECTOR_SIZE && |guid| == 16 && s[..440] == t[..440]
    ensures Stamped(s, img, guid)[..440] == Stamped(t, img, guid)[..440]
  {
    hide BootCode;
    assert forall i :: 0 <= i < 440 ==> s[i] == s[..440][i] && t[i] == t[..440][i];
  }

  /** The same, seen from the disk before the update. */
  predicate ImageSparesGuid(d: seq<byte>, img: seq<byte>)
    requires |d| >= SECTOR_SIZE
  {
    SparesGuid(Stamped(d[..SECTOR_SIZE], img, d[384..400]), PatchRange(img))
  }

  lemma SameImageSpares(d: seq<byte>, d2: seq<byte>, img: seq<byte>)
    requires |d| >= SECTOR_SIZE && |d2| >= SECTOR_SIZE && d[..440] == d2[..440]
    ensures ImageSparesGuid(d, img) == ImageSparesGuid(d2, img)
  {
    hide Stamped, SparesGuid;
    var s, t, guid := d[..SECTOR_SIZE], d2[..SECTOR_SIZE], d[384..400];
    assert guid == d[..440][384..400] == d2[..440][384..400] == d2[384..400];
    assert s[..440] == d[..440] && t[..440] == d2[..440];
    StampedAlike(s, t, img, guid);
    SameSpared(Stamped(s, img, guid), Stamped(t, img, guid), PatchRange(img));
  }

  lemma RepairKeepsCode(d: seq<byte>, g: Gpt, stage2: seq<byte>, crc: Crc)
    requires ReadGpt(d) == Ok(g) && UsualPlace(g, |d|)
    ensures |d| >= DATA_START && AttributesFixed(WithStage2(d, stage2), g, crc)[..440] == d[..440]
  {
    hide ReadGpt, AttributesFixed, WithStage2, UsualPlace, Splice, After, BackupTableAt, DecodeMbr, Rewritable;
    UsualIsRewritable(g, |d|);
    RepairedDisk(d, g, stage2, crc);
    CodeBeforeStage2(d, stage2, AttributesFixed(WithStage2(d, stage2), g, crc));
  }

  lemma CodeBeforeStage2(d: seq<byte>, stage2: seq<byte>, d2: seq<byte>)
    requires |d| == |d2| && |d| >= DATA_START && d2[..446] == WithStage2(d, stage2)[..446]
    ensures d2[..440] == d[..440]
  {
    hide Splice, Stage2;
    var d1 := WithStage2(d, stage2);
    SpliceElsewhere(d, 34 * SECTOR_SIZE, Stage2(stage2, 2014), 0, 440);
    assert d2[..440] == d2[..446][..440] && d1[..446][..440] == d1[0..440];
  }

  /** For a boot image of any content: the update keeps the disk's GUID if and only if the patch
      spares the GUID's bytes. */
  lemma GptUpdateGuidIff(d: seq<byte>, g: Gpt, img: seq<byte>, stage2: seq<byte>, crc: Crc)
    requires |d| >= SECTOR_SIZE && ReadGpt(d) == Ok(g) && UsualPlace(g, |d|)
    ensures GptUpdated(d, g, img, stage2, crc)[384..400] == d[384..400] <==> ImageSparesGuid(d, img)
  {
    hide ReadGpt, AttributesFixed, Splice, BootRewritten, UsualPlace, SparesGuid, Stamped, WithStage2, NeedsRewrite,
         Rewritable;
    UsualIsRewritable(g, |d|);
    var d2 := AttributesFixed(WithStage2(d, stage2), g, crc);
    assert GptUpdated(d, g, img, stage2, crc) == BootRewritten(d2, img);
    RepairKeepsCode(d, g, stage2, crc);
    BootGuidIff(d2, img);
    SameImageSpares(d, d2, img);
    assert ImageSparesGuid(d2, img) == SparesGuid(Stamped(d2[..SECTOR_SIZE], img, d2[384..400]), PatchRange(img));
    assert d2[384..400] == d2[..440][384..400] && d[384..400] == d[..440][384..400];
  }

  /** With the instruction to patch in the boot code before the GUID, as in the program's own
      boot image, every update keeps the 16-byte GUID. */
  lemma GptUpdateKeepsGuid(d: seq<byte>, g: Gpt, img: seq<byte>, stage2: seq<byte>, crc: Crc, p: nat)
    requires |d| >= SECTOR_SIZE && ReadGpt(d) == Ok(g) && UsualPlace(g, |d|)
    requires |img| >= 440 && p + 8 <= 384 && NeedleAt(img, p)
    ensures GptUpdated(d, g, img, stage2, crc)[384..400] == d[384..400]
  {
    GptUpdateGuidIff(d, g, img, stage2, crc);
    EarlyNeedleSpares(d, img, p);
  }

  lemma EarlyNeedleSpares(d: seq<byte>, img: seq<byte>, p: nat)
    requires |d| >= SECTOR_SIZE && |img| >= 440 && p + 8 <= 384 && NeedleAt(img, p)
    ensures ImageSparesGuid(d, img)
  {
    hide Stamped, NeedleAt, FirstNeedle;
    var s := Stamped(d[..SECTOR_SIZE], img, d[384..400]);
    StampedCode(d[..SECTOR_SIZE], img, d[384..400]);
    SameNeedle(s, img, 384, p);
    FoundBy(s, 0, PatchRange(img), p);
  }

  lemma {:induction false} FoundBy(sector: seq<byte>, i: nat, n: nat, p: nat)
    requires |sector| == SECTOR_SIZE && n <= 432 && i <= p < n && NeedleAt(sector, p)
    ensures FirstNeedle(sector, i, n).Some? && FirstNeedle(sector, i, n).value <= p
    decreases p - i
  {
    hide NeedleAt;
    if i < p && !NeedleAt(sector, i) { FoundBy(sector, i + 1, n, p); }
  }

  /** The update with the program's own boot image keeps the disk's GUID. */
  lemma OwnUpdateKeepsGuid(d: seq<byte>, g: Gpt, stage2: seq<byte>, crc: Crc)
    requires |d| >= SECTOR_SIZE && ReadGpt(d) == Ok(g) && UsualPlace(g, |d|)
    ensures GptUpdated(d, g, BootImage.Image(), stage2, crc)[384..400] == d[384..400]
  {
    BootImage.ImageNeedle();
    hide ReadGpt, UsualPlace, GptUpdated, NeedleAt, BootImage.Image;
    GptUpdateKeepsGuid(d, g, BootImage.Image(), stage2, crc, BootImage.NEEDLE_AT);
  }

  /** A hypothetical boot image without the instruction: a GUID that starts like it is damaged. */
  lemma BlankImageLosesGuid(d: seq<byte>, g: Gpt, stage2: seq<byte>, crc: Crc)
    requires |d| >= SECTOR_SIZE && ReadGpt(d) == Ok(g) && UsualPlace(g, |d|) && d[384..388] == NEEDLE && d[388] != 34
    ensures GptUpdated(d, g, seq(440, i => 0), stage2, crc)[384..400] != d[384..400]
  {
    GptUpdateGuidIff(d, g, seq(440, i => 0), stage2, crc);
    BlankImageStrikes(d);
  }

  lemma BlankImageStrikes(d: seq<byte>)
    requires |d| >= SECTOR_SIZE && d[384..388] == NEEDLE && d[388] != 34
    ensures !ImageSparesGuid(d, seq(440, i => 0))
  {
    hide Stamped, NEEDLE, FirstNeedle;
    var img: seq<byte> := seq(440, i => 0);
    var (sector, guid) := (d[..SECTOR_SIZE], d[384..400]);
    var s := Stamped(sector, img, guid);
    StampedCode(sector, img, guid);
    StampedKeeps(sector, img, guid);
    assert s[388] == s[384..400][4] == d[388];
    assert s[384..388] == s[384..400][..4] == d[384..388];
    BlankNeedle(s, 0);
  }

  lemma {:induction false} BlankNeedle(s: seq<byte>, i: nat)
    requires |s| == SECTOR_SIZE && i <= 384 && s[..384] == seq(384, k => 0) && s[384..388] == NEEDLE
    ensures FirstNeedle(s, i, 432) == Some(384)
    decreases 384 - i
  {
    if i < 384 {
      assert s[i..i + 4][0] == s[..384][i] == 0;
      BlankNeedle(s, i + 1);
    }
  }
}
