/** How the two boot loaders find the data partition on a disk. */
module BootReaders {
  import opened Bytes
  import opened PartitionTables
  import opened Installer
  import BootArgs

  predicate Readable(d: seq<byte>, lba: nat) { (lba + 1) * SECTOR_SIZE <= |d| }

  function SectorAt(d: seq<byte>, lba: nat): (s: seq<byte>)
    requires Readable(d, lba)
    ensures |s| == SECTOR_SIZE
  {
    d[lba * SECTOR_SIZE..(lba + 1) * SECTOR_SIZE]
  }

  function MbrEntryOf(d: seq<byte>, i: nat): MbrEntry
    requires |d| >= SECTOR_SIZE && i < 4
  {
    DecodeMbrEntry(d, 446 + 16 * i)
  }

  function GuidAt(s: seq<byte>, at: nat): (g: BootArgs.Guid)
    requires at + 32 <= |s|
    ensures g.Valid()
  {
    BootArgs.Guid(FromLe32(s, at + 16), FromLe16(s, at + 20), FromLe16(s, at + 22), s[at + 24..at + 32])
  }

  /** The disk signature as the tail of a GUID. */
  function MbrGuid(d: seq<byte>): (g: BootArgs.Guid)
    requires |d| >= SECTOR_SIZE
    ensures g.Valid()
  {
    BootArgs.Guid(0, 0, 0, [0, 0, 0, 0] + d[440..444])
  }

  // ── Searching the GPT ─────────────────────────────────────────────────

  datatype Query = BasicData | AtLba(lba: u64)

  datatype Hit = Hit(index: nat, start: u64, end: u64, guid: BootArgs.Guid)

  function EntryOffset(i: nat, size: nat): nat { i * size }

  predicate Matches(q: Query, s: seq<byte>, at: nat)
    requires at + 40 <= |s|
  {
    match q case BasicData => s[at..at + 16] == BASIC_DATA case AtLba(lba) => FromLe64(s, at + 32) == lba
  }

  predicate Unused(s: seq<byte>, at: nat)
    requires at + 16 <= |s|
  {
    forall j :: at <= j < at + 16 ==> s[j] == 0
  }

  /** The first entry at or after `i` that answers the query; `need` bytes of an entry must lie
      within one sector, and entries without a type are passed over when `skipUnused`. */
  function Search(d: seq<byte>, q: Query, table: nat, size: nat, n: nat, i: nat, need: nat,
                  skipUnused: bool): Option<Hit>
    requires 40 <= need <= 48
    decreases n - i
  {
    if i >= n then None
    else
      var offset := EntryOffset(i, size);
      var (lba, at) := (table + offset / SECTOR_SIZE, offset % SECTOR_SIZE);
      if at + need > SECTOR_SIZE then Search(d, q, table, size, n, i + 1, need, skipUnused)
      else if !Readable(d, lba) then None
      else
        var s := SectorAt(d, lba);
        if (skipUnused && Unused(s, at)) || !Matches(q, s, at) then
          Search(d, q, table, size, n, i + 1, need, skipUnused)
        else Some(Hit(i, FromLe64(s, at + 32), if at + 48 <= SECTOR_SIZE then FromLe64(s, at + 40) else 0,
                      GuidAt(s, at)))
  }

  function SearchGpt(d: seq<byte>, q: Query, need: nat, skipUnused: bool): Option<Hit>
    requires 40 <= need <= 48
  {
    if !Readable(d, 1) then None
    else
      var h := DecodeHeader(d, SECTOR_SIZE);
      if h.signature != GPT_SIGNATURE || h.entrySize == 0 || h.numEntries == 0 then None
      else Search(d, q, h.tableStart as int, h.entrySize as int, Least(h.numEntries as int, 128), 0, need, skipUnused)
  }

  method FindEntry(d: seq<byte>, q: Query, need: nat, skipUnused: bool) returns (r: Option<Hit>)
    requires 40 <= need <= 48
    ensures r == SearchGpt(d, q, need, skipUnused)
  {
    hide DecodeHeader, Matches, Unused, GuidAt, GPT_SIGNATURE, EntryOffset;
    if !Readable(d, 1) { return None; }
    var h := DecodeHeader(d, SECTOR_SIZE);
    if h.signature != GPT_SIGNATURE || h.entrySize == 0 || h.numEntries == 0 { return None; }
    r := SearchEntries(d, q, h.tableStart as int, h.entrySize as int, Least(h.numEntries as int, 128), need,
                       skipUnused);
  }

  /** The entry loop keeps the sector it read last. */
  method SearchEntries(d: seq<byte>, q: Query, table: nat, size: nat, n: nat, need: nat, skipUnused: bool)
    returns (r: Option<Hit>)
    requires 40 <= need <= 48
    ensures r == Search(d, q, table, size, n, 0, need, skipUnused)
  {
    hide Matches, Unused, GuidAt, EntryOffset;
    var sec: seq<byte>, currentLba: nat, loaded := [], 0, false;
    for i := 0 to n
      invariant loaded ==> Readable(d, currentLba) && sec == SectorAt(d, currentLba)
      invariant Search(d, q, table, size, n, 0, need, skipUnused) == Search(d, q, table, size, n, i, need, skipUnused)
    {
      var offset := EntryOffset(i, size);
      var lba, at := table + offset / SECTOR_SIZE, offset % SECTOR_SIZE;
      if at + need > SECTOR_SIZE { continue; }
      if !loaded || lba != currentLba {
        if !Readable(d, lba) { return None; }
        sec := SectorAt(d, lba);
        currentLba, loaded := lba, true;
      }
      if skipUnused && Unused(sec, at) { continue; }
      if Matches(q, sec, at) {
        return Some(Hit(i, FromLe64(sec, at + 32), if at + 48 <= SECTOR_SIZE then FromLe64(sec, at + 40) else 0,
                        GuidAt(sec, at)));
      }
    }
    return None;
  }

  // ── The BIOS loader ───────────────────────────────────────────────────

  /** Addresses and counts are cut to 32 bits. */
  datatype BiosPartition = BiosPartition(start: nat, count: nat, fsType: byte)

  function MbrParts(d: seq<byte>, i: nat): seq<BiosPartition>
    requires |d| >= SECTOR_SIZE && i <= 4
    decreases 4 - i
  {
    if i == 4 then []
    else
      var e := MbrEntryOf(d, i);
      (if e.sectorCount > 0 then [BiosPartition(e.startLba as int, e.sectorCount as int, e.fsFlag)] else []) +
        MbrParts(d, i + 1)
  }

  predicate HasGpt(d: seq<byte>)
    requires |d| >= SECTOR_SIZE
  {
    exists i :: 0 <= i < 4 && MbrEntryOf(d, i).fsFlag == GPT_PROTECTIVE
  }

  function GptParts(hit: Option<Hit>): seq<BiosPartition> {
    if hit.None? then []
    else
      var sectors := (hit.value.end as int + 1) % 0x1_0000_0000_0000_0000 - hit.value.start as int;
      if sectors > 0 then [BiosPartition(hit.value.start as int % 0x1_0000_0000, sectors % 0x1_0000_0000, 0x07)] else []
  }

  function BiosPartitions(d: seq<byte>): seq<BiosPartition> {
    if !Readable(d, 0) then [] else if HasGpt(d) then GptParts(SearchGpt(d, BasicData, 48, false)) else MbrParts(d, 0)
  }

  method ReadPartitions(d: seq<byte>) returns (parts: seq<BiosPartition>)
    ensures parts == BiosPartitions(d)
  {
    hide SearchGpt, MbrEntryOf, HasGpt, GptParts, MbrParts;
    if !Readable(d, 0) { return []; }
    if HasGpt(d) {
      var hit := FindEntry(d, BasicData, 48, false);
      return GptParts(hit);
    }
    parts := [];
    for i := 0 to 4
      invariant parts + MbrParts(d, i) == MbrParts(d, 0)
    {
      var e := MbrEntryOf(d, i);
      PartsStep(d, i, parts);
      if e.sectorCount > 0 { parts := parts + [BiosPartition(e.startLba as int, e.sectorCount as int, e.fsFlag)]; }
    }
    NoPartsLeft(d, parts);
  }

  lemma PartsStep(d: seq<byte>, i: nat, parts: seq<BiosPartition>)
    requires |d| >= SECTOR_SIZE && i < 4
    ensures var e := MbrEntryOf(d, i);
            var found := if e.sectorCount > 0 then
                parts + [BiosPartition(e.startLba as int, e.sectorCount as int, e.fsFlag)] else parts;
            parts + MbrParts(d, i) == found + MbrParts(d, i + 1)
  {
    hide MbrEntryOf;
  }

  lemma NoPartsLeft(d: seq<byte>, parts: seq<BiosPartition>)
    requires |d| >= SECTOR_SIZE
    ensures parts + MbrParts(d, 4) == parts
  {
  }

  // ── The UEFI loader ───────────────────────────────────────────────────

  datatype DataPartition = DataPartition(lba: nat, guid: BootArgs.Guid, number: nat, isMbr: bool)

  const NO_GUID := BootArgs.Guid(0, 0, 0, [0, 0, 0, 0, 0, 0, 0, 0])

  /** What the four MBR entries say: a protective entry seen before the first real one, and its address. */
  function MbrScan(d: seq<byte>, i: nat, isGpt: bool): (bool, nat)
    requires |d| >= SECTOR_SIZE && i <= 4
    decreases 4 - i
  {
    if i == 4 then (isGpt, 0)
    else
      var e := MbrEntryOf(d, i);
      var gpt := isGpt || (e.fsFlag == GPT_PROTECTIVE && e.sectorCount > 0);
      if e.sectorCount == 0 || e.fsFlag == GPT_PROTECTIVE then MbrScan(d, i + 1, gpt) else (gpt, e.startLba as int)
  }

  /** The data partition, or nothing when the loader stops. */
  function UefiPartition(d: seq<byte>): Option<DataPartition> {
    if !Readable(d, 0) then None
    else
      var (isGpt, lba) := MbrScan(d, 0, false);
      var found :=
        if !isGpt && lba != 0 then DataPartition(lba, MbrGuid(d), 1, true)
        else
          var byLba := if lba > 0 then SearchGpt(d, AtLba(lba), 40, true) else None;
          if byLba.Some? then DataPartition(lba, byLba.value.guid, byLba.value.index + 1, false)
          else
            var basic := SearchGpt(d, BasicData, 40, true);
            if basic.Some? then DataPartition(basic.value.start as int, basic.value.guid, basic.value.index + 1, false)
            else DataPartition(lba, NO_GUID, 0, false);
      if found.lba == 0 then None else Some(found)
  }

  method DiscoverPartition(d: seq<byte>) returns (r: Option<DataPartition>)
    ensures r == UefiPartition(d)
  {
    hide SearchGpt, MbrEntryOf, MbrGuid;
    if !Readable(d, 0) { return None; }
    var part1Lba, isGpt, i := 0, false, 0;
    var guid, number, isMbr := NO_GUID, 0, false;
    while i < 4
      invariant i <= 4 && part1Lba == 0 && MbrScan(d, i, isGpt) == MbrScan(d, 0, false)
    {
      var e := MbrEntryOf(d, i);
      if e.fsFlag == GPT_PROTECTIVE && e.sectorCount > 0 { isGpt := true; }
      if e.sectorCount == 0 || e.fsFlag == GPT_PROTECTIVE {
        i := i + 1;
        continue;
      }
      part1Lba := e.startLba as int;
      break;
    }
    if isGpt || part1Lba == 0 {
      var hit: Option<Hit> := None;
      if part1Lba > 0 { hit := FindEntry(d, AtLba(part1Lba), 40, true); }
      if hit.Some? {
        guid, number := hit.value.guid, hit.value.index + 1;
      } else {
        hit := FindEntry(d, BasicData, 40, true);
        if hit.Some? { part1Lba, guid, number := hit.value.start as int, hit.value.guid, hit.value.index + 1; }
      }
    } else {
      guid, number, isMbr := MbrGuid(d), 1, true;
    }
    if part1Lba == 0 { return None; }
    return Some(DataPartition(part1Lba, guid, number, isMbr));
  }

  // ── Agreement with the installer ──────────────────────────────────────

  lemma {:induction false} MbrEntryIs(d: seq<byte>, at: nat, n: nat, i: nat)
    requires at + 16 * n <= |d| && i < n
    ensures DecodeMbrTable(d, at, n)[i] == DecodeMbrEntry(d, at + 16 * i)
    decreases n
  {
    hide DecodeMbrEntry;
    if i > 0 { MbrEntryIs(d, at + 16, n - 1, i - 1); }
  }

  lemma EntriesAre(d: seq<byte>, table: seq<MbrEntry>)
    requires |d| >= SECTOR_SIZE && DecodeMbr(d).partitions == table
    ensures |table| == 4 && forall i :: 0 <= i < 4 ==> MbrEntryOf(d, i) == table[i]
  {
    hide DecodeMbrTable, DecodeMbrEntry;
    forall i | 0 <= i < 4 ensures MbrEntryOf(d, i) == table[i] { MbrEntryIs(d, 446, 4, i); }
  }

  /** After an MBR installation both loaders find the data partition at sector 2048. */
  lemma MbrInstallFound(d: seq<byte>, part2: nat)
    requires |d| >= SECTOR_SIZE && PART1_START < part2 < 0x1_0000_0000 && DecodeMbr(d).partitions == MbrTableFor(part2)
    ensures BiosPartitions(d) ==
            [BiosPartition(PART1_START, part2 - PART1_START, 0x07), BiosPartition(part2, EFI_SECTORS, EFI_SYSTEM)]
    ensures UefiPartition(d) == Some(DataPartition(PART1_START, MbrGuid(d), 1, true))
  {
    EntriesAre(d, MbrTableFor(part2));
    TableFields(part2);
    hide MbrTableFor, DecodeMbr;
    TwoParts(d, part2);
  }

  lemma TwoParts(d: seq<byte>, part2: nat)
    requires |d| >= SECTOR_SIZE && PART1_START < part2
    requires var (e, f) := (MbrEntryOf(d, 0), MbrEntryOf(d, 1));
             && e.startLba == PART1_START && e.sectorCount as int == part2 - PART1_START && e.fsFlag == 0x07
             && f.startLba as int == part2 && f.sectorCount == EFI_SECTORS && f.fsFlag == EFI_SYSTEM
    requires forall i :: 2 <= i < 4 ==> MbrEntryOf(d, i).sectorCount == 0 && MbrEntryOf(d, i).fsFlag == 0
    ensures BiosPartitions(d) ==
            [BiosPartition(PART1_START, part2 - PART1_START, 0x07), BiosPartition(part2, EFI_SECTORS, EFI_SYSTEM)]
    ensures UefiPartition(d) == Some(DataPartition(PART1_START, MbrGuid(d), 1, true))
  {
    hide MbrEntryOf, MbrGuid, SearchGpt, GptParts, Search;
    assert MbrParts(d, 4) == [] && MbrParts(d, 3) == [] && MbrParts(d, 2) == [];
    assert MbrParts(d, 1) == [BiosPartition(part2, EFI_SECTORS, EFI_SYSTEM)];
  }

  lemma TableFields(part2: nat)
    requires PART1_START <= part2 < 0x1_0000_0000
    ensures var t := MbrTableFor(part2);
            && t[0].startLba == PART1_START && t[0].sectorCount as int == part2 - PART1_START && t[0].fsFlag == 0x07
            && t[1].startLba as int == part2 && t[1].sectorCount == EFI_SECTORS && t[1].fsFlag == EFI_SYSTEM
            && t[2].sectorCount == 0 && t[3].sectorCount == 0 && t[2].fsFlag == 0 && t[3].fsFlag == 0
  {
    hide ToChs, PackChs, EndLba;
  }

  /** The PARTUUID handed to the early-init program is the disk signature the installer wrote. */
  lemma MbrPartUuid(d: seq<byte>, number: u32)
    requires |d| >= SECTOR_SIZE
    ensures BootArgs.MbrText(MbrGuid(d), number) ==
            BootArgs.HexText(FromLe32(d, 440), 8) + BootArgs.DASH + BootArgs.HexText(number, 2)
  {
    var g := MbrGuid(d);
    assert g.d4[4..8] == d[440..444];
    FromLe32Slice(g.d4, d, 4, 440);
  }

  /** The first table entry, as any reader of the GPT sees it. */
  lemma FirstEntry(d: seq<byte>, h: GptHeader, e: GptEntry, q: Query, need: nat, skipUnused: bool)
    requires 40 <= need <= 48 && h.Valid() && e.Valid() && h.signature == GPT_SIGNATURE && h.entrySize == ENTRY_BYTES &&
             h.numEntries > 0
    requires |d| >= 2 * SECTOR_SIZE && DecodeHeader(d, SECTOR_SIZE) == h && TableAt(h) + SECTOR_SIZE <= |d|
    requires d[TableAt(h)..TableAt(h) + ENTRY_BYTES] == EncodeEntry(e) && e.typeGuid == BASIC_DATA
    requires q == BasicData || q == AtLba(e.startLba)
    ensures SearchGpt(d, q, need, skipUnused) == Some(Hit(0, e.startLba, e.endLba, GuidAt(EncodeEntry(e), 0)))
  {
    hide DecodeHeader, EncodeEntry, DecodeEntry, GPT_SIGNATURE, Unused, GuidAt, FromLe64, Search;
    var lba: nat := h.tableStart as int;
    var s := SectorAt(d, lba);
    assert s[0..ENTRY_BYTES] == EncodeEntry(e) by {
      assert lba * SECTOR_SIZE == TableAt(h);
      assert s[0..ENTRY_BYTES] == d[TableAt(h)..TableAt(h) + ENTRY_BYTES];
    }
    EntryRoundTrip(e, s, 0);
    DecodedFields(s, e);
    SameGuid(s, EncodeEntry(e));
    assert !Unused(s, 0) by { InUse(s); }
    SearchFirst(d, q, lba, Least(h.numEntries as int, 128), need, skipUnused);
  }

  lemma DecodedFields(s: seq<byte>, e: GptEntry)
    requires |s| >= ENTRY_BYTES && DecodeEntry(s, 0) == e
    ensures s[0..16] == e.typeGuid && FromLe64(s, 32) == e.startLba && FromLe64(s, 40) == e.endLba
  {
  }

  lemma InUse(s: seq<byte>)
    requires |s| >= 16 && s[0..16] == BASIC_DATA
    ensures !Unused(s, 0)
  {
    assert s[0] == s[0..16][0] == 0xA2;
  }

  lemma SameGuid(s: seq<byte>, t: seq<byte>)
    requires |s| >= |t| == ENTRY_BYTES && s[0..ENTRY_BYTES] == t
    ensures GuidAt(s, 0) == GuidAt(t, 0)
  {
    assert forall k :: 0 <= k < ENTRY_BYTES ==> s[k] == t[k];
    assert s[24..32] == t[24..32];
  }

  lemma SearchFirst(d: seq<byte>, q: Query, table: nat, n: nat, need: nat, skipUnused: bool)
    requires 40 <= need <= 48 && n > 0 && Readable(d, table) && !Unused(SectorAt(d, table), 0) &&
             Matches(q, SectorAt(d, table), 0)
    ensures var s := SectorAt(d, table);
            Search(d, q, table, ENTRY_BYTES, n, 0, need, skipUnused) ==
              Some(Hit(0, FromLe64(s, 32), FromLe64(s, 40), GuidAt(s, 0)))
  {
    hide Unused, Matches, GuidAt, FromLe64, SectorAt;
    assert EntryOffset(0, ENTRY_BYTES) == 0;
  }

  lemma ProtectiveOnly(d: seq<byte>)
    requires |d| >= SECTOR_SIZE && DecodeMbr(d).partitions == [PROTECTIVE, NO_MBR_ENTRY, NO_MBR_ENTRY, NO_MBR_ENTRY]
    ensures HasGpt(d) && MbrScan(d, 0, false) == (true, 0)
  {
    EntriesAre(d, [PROTECTIVE, NO_MBR_ENTRY, NO_MBR_ENTRY, NO_MBR_ENTRY]);
    hide MbrEntryOf, DecodeMbr;
    assert MbrEntryOf(d, 0).fsFlag == GPT_PROTECTIVE;
    assert MbrScan(d, 4, true) == (true, 0) && MbrScan(d, 3, true) == (true, 0) && MbrScan(d, 2, true) == (true, 0);
  }

  /** A disk that reads as a GPT with the given header and table, nothing else in its MBR. */
  predicate CarriesGpt(d: seq<byte>, h: GptHeader, p: seq<GptEntry>) {
    && h.Valid() && h.signature == GPT_SIGNATURE && h.entrySize == ENTRY_BYTES && h.numEntries > 0
    && |p| == ENTRIES && ValidTable(p) && |d| >= 2 * SECTOR_SIZE && DecodeHeader(d, SECTOR_SIZE) == h
    && TableAt(h) + TABLE_BYTES <= |d| && d[TableAt(h)..TableAt(h) + TABLE_BYTES] == EncodeTable(p)
    && DecodeMbr(d).partitions == [PROTECTIVE, NO_MBR_ENTRY, NO_MBR_ENTRY, NO_MBR_ENTRY]
  }

  lemma PartsOfHit(start: u64, end: u64, guid: BootArgs.Guid)
    requires 0 < start as int <= end as int < 0xFFFF_FFFF_FFFF_FFFF
    ensures GptParts(Some(Hit(0, start, end, guid))) ==
            [BiosPartition(start as int % 0x1_0000_0000, (end as int - start as int + 1) % 0x1_0000_0000, 0x07)]
  {
  }

  lemma BiosTakesHit(d: seq<byte>, hit: Option<Hit>)
    requires Readable(d, 0) && HasGpt(d) && SearchGpt(d, BasicData, 48, false) == hit
    ensures BiosPartitions(d) == GptParts(hit)
  {
  }

  lemma UefiTakesHit(d: seq<byte>, hit: Hit)
    requires Readable(d, 0) && MbrScan(d, 0, false) == (true, 0) && SearchGpt(d, BasicData, 40, true) == Some(hit) &&
             hit.start > 0
    ensures UefiPartition(d) == Some(DataPartition(hit.start as int, hit.guid, hit.index + 1, false))
  {
    hide SearchGpt, MbrScan;
  }

  /** Both loaders take the first basic data partition of such a disk; the UEFI loader also
      learns its GUID and number. */
  lemma GptInstallFound(d: seq<byte>, h: GptHeader, p: seq<GptEntry>)
    requires CarriesGpt(d, h, p)
    requires p[0].typeGuid == BASIC_DATA && 0 < p[0].startLba as int <= p[0].endLba as int < 0xFFFF_FFFF_FFFF_FFFF
    ensures BiosPartitions(d) ==
            [BiosPartition(p[0].startLba as int % 0x1_0000_0000,
                           (p[0].endLba as int - p[0].startLba as int + 1) % 0x1_0000_0000, 0x07)]
    ensures UefiPartition(d) == Some(DataPartition(p[0].startLba as int, GuidAt(EncodeEntry(p[0]), 0), 1, false))
  {
    hide SearchGpt, HasGpt, MbrScan, EncodeEntry, GuidAt, GptParts, BiosPartitions, UefiPartition, EncodeTable,
         DecodeMbr, DecodeHeader, GPT_SIGNATURE;
    ProtectiveOnly(d);
    FirstOfTable(d, h, p);
    var e := p[0];
    var hit := Hit(0, e.startLba, e.endLba, GuidAt(EncodeEntry(e), 0));
    hide CarriesGpt;
    BiosTakesHit(d, Some(hit));
    PartsOfHit(e.startLba, e.endLba, hit.guid);
    UefiTakesHit(d, hit);
  }

  lemma FirstOfTable(d: seq<byte>, h: GptHeader, p: seq<GptEntry>)
    requires CarriesGpt(d, h, p) && p[0].typeGuid == BASIC_DATA
    ensures var hit := Some(Hit(0, p[0].startLba, p[0].endLba, GuidAt(EncodeEntry(p[0]), 0)));
            SearchGpt(d, BasicData, 48, false) == hit && SearchGpt(d, BasicData, 40, true) == hit
  {
    hide EncodeEntry, DecodeHeader, GPT_SIGNATURE, GuidAt, DecodeMbr, SearchGpt;
    Inside(d, TableAt(h), EncodeTable(p), 0, ENTRY_BYTES);
    assert EncodeTable(p)[0..ENTRY_BYTES] == EncodeEntry(p[0]);
    hide EncodeTable;
    FirstEntry(d, h, p[0], BasicData, 48, false);
    FirstEntry(d, h, p[0], BasicData, 40, true);
  }
}
