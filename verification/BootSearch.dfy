/** What the loaders' search finds in any GPT: the first entry that answers. */
module BootSearch {
  import opened Bytes
  import opened PartitionTables
  import opened Installer
  import opened BootArgs
  import opened BootReaders
  import opened PartitionIdentity

  const NO_TYPE: seq<byte> := [0, 0, 0, 0, 0, 0, 0, 0, 0, 0, 0, 0, 0, 0, 0, 0]

  /** An entry that is asked for; without a type it answers only where unused entries are not passed over. */
  predicate Answers(q: Query, e: GptEntry, skipUnused: bool) {
    (skipUnused ==> e.typeGuid != NO_TYPE) &&
    match q case BasicData => e.typeGuid == BASIC_DATA case AtLba(lba) => e.startLba == lba
  }

  /** A hit is the first entry from `i` on that answers, with its extent and its own GUID in the
      standard form; no hit means that none answers. */
  predicate FirstAnswer(r: Option<Hit>, q: Query, p: seq<GptEntry>, i: nat, skipUnused: bool)
    requires ValidTable(p)
  {
    match r
    case None => forall k :: i <= k < |p| ==> !Answers(q, p[k], skipUnused)
    case Some(h) =>
      && i <= h.index < |p| && Answers(q, p[h.index], skipUnused)
      && h.start == p[h.index].startLba && h.end == p[h.index].endLba
      && h.guid.Valid() && GuidText(h.guid) == Standard(p[h.index].uniqueGuid)
      && forall k :: i <= k < h.index ==> !Answers(q, p[k], skipUnused)
  }

  /** The table lies in whole readable sectors from `table` on. */
  predicate Lies(d: seq<byte>, table: nat, p: seq<GptEntry>) {
    && ValidTable(p) && (table + (|p| + 3) / 4) * SECTOR_SIZE <= |d|
    && forall k :: 0 <= k < |p| ==> DecodeEntry(d, table * SECTOR_SIZE + ENTRY_BYTES * k) == p[k]
  }

  lemma Slot(d: seq<byte>, table: nat, i: nat, n: nat)
    requires i < n && (table + (n + 3) / 4) * SECTOR_SIZE <= |d|
    ensures var (offset, lba, at) := (EntryOffset(i, ENTRY_BYTES), table + i / 4, i % 4 * ENTRY_BYTES);
            && offset / SECTOR_SIZE == i / 4 && offset % SECTOR_SIZE == at && at + ENTRY_BYTES <= SECTOR_SIZE
            && Readable(d, lba) && lba * SECTOR_SIZE + at == table * SECTOR_SIZE + ENTRY_BYTES * i
            && SectorAt(d, lba)[at..at + ENTRY_BYTES] ==
               d[lba * SECTOR_SIZE + at..lba * SECTOR_SIZE + at + ENTRY_BYTES]
  {
    assert i / 4 + 1 <= (n + 3) / 4;
    assert i == 4 * (i / 4) + i % 4;
    var (from, at) := ((table + i / 4) * SECTOR_SIZE, i % 4 * ENTRY_BYTES);
    assert from + SECTOR_SIZE <= |d|;
    Inside(d, from, d[from..from + SECTOR_SIZE], at, at + ENTRY_BYTES);
  }

  /** One entry as the search sees it in its sector `s`. */
  lemma Seen(d: seq<byte>, pos: nat, s: seq<byte>, at: nat, e: GptEntry, q: Query)
    requires pos + ENTRY_BYTES <= |d| && at + ENTRY_BYTES <= |s| &&
             s[at..at + ENTRY_BYTES] == d[pos..pos + ENTRY_BYTES] && DecodeEntry(d, pos) == e
    ensures Unused(s, at) <==> e.typeGuid == NO_TYPE
    ensures Matches(q, s, at) <==> Answers(q, e, false)
    ensures FromLe64(s, at + 32) == e.startLba && FromLe64(s, at + 40) == e.endLba
    ensures e.Valid() && GuidText(GuidAt(s, at)) == Standard(e.uniqueGuid)
  {
    hide FromLe64, FromUnits, GuidText, GuidAt, Standard, BASIC_DATA;
    SameEntryAt(d, pos, s, at);
    GuidTextIsStandard(s, at);
    var t := s[at..at + 16];
    assert e.typeGuid == t && e.uniqueGuid == s[at + 16..at + 32];
    if t == NO_TYPE {
      forall j | at <= j < at + 16 ensures s[j] == 0 { assert s[j] == t[j - at]; }
    }
  }

  lemma SameEntryAt(d: seq<byte>, pos: nat, s: seq<byte>, at: nat)
    requires pos + ENTRY_BYTES <= |d| && at + ENTRY_BYTES <= |s| &&
             s[at..at + ENTRY_BYTES] == d[pos..pos + ENTRY_BYTES]
    ensures DecodeEntry(d, pos) == DecodeEntry(s, at)
  {
    EntryAlone(d, pos);
    EntryAlone(s, at);
  }

  lemma EntryAlone(s: seq<byte>, at: nat)
    requires at + ENTRY_BYTES <= |s|
    ensures DecodeEntry(s, at) == DecodeEntry(s[at..at + ENTRY_BYTES], 0)
  {
    hide FromLe64, FromLe16;
    var t := s[at..at + ENTRY_BYTES];
    Inside(s, at, t, 0, 16);
    Inside(s, at, t, 16, 32);
    Alone64(s, at, t, 32);
    Alone64(s, at, t, 40);
    Alone64(s, at, t, 48);
    forall k | 0 <= k < 36 ensures FromLe16(s, at + 56 + 2 * k) == FromLe16(t, 56 + 2 * k) {
      Alone16(s, at, t, 56 + 2 * k);
    }
  }

  lemma Alone16(s: seq<byte>, at: nat, t: seq<byte>, i: nat)
    requires at + |t| <= |s| && t == s[at..at + |t|] && i + 2 <= |t|
    ensures FromLe16(s, at + i) == FromLe16(t, i)
  {
    assert t[i] == s[at + i] && t[i + 1] == s[at + (i + 1)];
  }

  lemma Alone64(s: seq<byte>, at: nat, t: seq<byte>, i: nat)
    requires at + |t| <= |s| && t == s[at..at + |t|] && i + 8 <= |t|
    ensures FromLe64(s, at + i) == FromLe64(t, i)
  {
    Inside(s, at, t, i, i + 4);
    Inside(s, at, t, i + 4, i + 8);
    FromLe32Slice(s, t, at + i, i);
    FromLe32Slice(s, t, at + i + 4, i + 4);
  }

  /** The loop body for the entry at `at` of sector `lba`. */
  lemma SearchBody(d: seq<byte>, q: Query, table: nat, n: nat, i: nat, need: nat, skipUnused: bool, lba: nat, at: nat)
    requires i < n && 40 <= need <= 48 && at + ENTRY_BYTES <= SECTOR_SIZE && Readable(d, lba)
    requires lba == table + EntryOffset(i, ENTRY_BYTES) / SECTOR_SIZE && at == EntryOffset(i, ENTRY_BYTES) % SECTOR_SIZE
    ensures var s := SectorAt(d, lba);
            Search(d, q, table, ENTRY_BYTES, n, i, need, skipUnused) ==
            if (skipUnused && Unused(s, at)) || !Matches(q, s, at) then
              Search(d, q, table, ENTRY_BYTES, n, i + 1, need, skipUnused)
            else Some(Hit(i, FromLe64(s, at + 32), FromLe64(s, at + 40), GuidAt(s, at)))
  {
    hide Unused, Matches, FromLe64, GuidAt, SectorAt, Readable, EntryOffset;
  }

  /** One step: the entry at `i` if it answers, otherwise the search from the next one on. */
  lemma SearchStep(d: seq<byte>, q: Query, table: nat, p: seq<GptEntry>, i: nat, need: nat, skipUnused: bool)
    requires Lies(d, table, p) && i < |p| && 40 <= need <= 48
    ensures var r := Search(d, q, table, ENTRY_BYTES, |p|, i, need, skipUnused);
            if Answers(q, p[i], skipUnused) then
              r.Some? && r.value.index == i && r.value.start == p[i].startLba && r.value.end == p[i].endLba &&
              r.value.guid.Valid() && GuidText(r.value.guid) == Standard(p[i].uniqueGuid)
            else r == Search(d, q, table, ENTRY_BYTES, |p|, i + 1, need, skipUnused)
  {
    hide Search, Unused, Matches, FromLe64, GuidAt, GuidText, Standard, SectorAt, Readable, EntryOffset, DecodeEntry,
         BASIC_DATA;
    var (lba, at) := (table + i / 4, i % 4 * ENTRY_BYTES);
    Slot(d, table, i, |p|);
    Seen(d, table * SECTOR_SIZE + ENTRY_BYTES * i, SectorAt(d, lba), at, p[i], q);
    SearchBody(d, q, table, |p|, i, need, skipUnused, lba, at);
  }

  /** The search of a table. */
  lemma {:induction false} SearchIsFirst(d: seq<byte>, q: Query, table: nat, p: seq<GptEntry>, i: nat, need: nat,
                                         skipUnused: bool)
    requires Lies(d, table, p) && ValidTable(p) && i <= |p| && 40 <= need <= 48
    ensures FirstAnswer(Search(d, q, table, ENTRY_BYTES, |p|, i, need, skipUnused), q, p, i, skipUnused)
    decreases |p| - i
  {
    hide Lies, Answers, GuidText, Standard, Search;
    if i == |p| {
      SearchEnd(d, q, table, |p|, need, skipUnused);
    } else {
      SearchStep(d, q, table, p, i, need, skipUnused);
      SearchIsFirst(d, q, table, p, i + 1, need, skipUnused);
    }
  }

  lemma SearchEnd(d: seq<byte>, q: Query, table: nat, n: nat, need: nat, skipUnused: bool)
    requires 40 <= need <= 48
    ensures Search(d, q, table, ENTRY_BYTES, n, n, need, skipUnused) == None
  {
  }

  // ── A whole GPT ───────────────────────────────────────────────────────

  lemma {:induction false} TableEntryAt(d: seq<byte>, at: nat, n: nat, k: nat)
    requires k < n && at + ENTRY_BYTES * n <= |d|
    ensures DecodeTable(d, at, ENTRY_BYTES, n)[k] == DecodeEntry(d, at + ENTRY_BYTES * k)
    decreases n
  {
    hide DecodeEntry;
    if k > 0 {
      TableEntryAt(d, at + ENTRY_BYTES, n - 1, k - 1);
      assert DecodeTable(d, at, ENTRY_BYTES, n)[k] == DecodeTable(d, at + ENTRY_BYTES, ENTRY_BYTES, n - 1)[k - 1];
    }
  }

  /** A readable GPT with entries of 128 bytes. */
  predicate UsualGpt(d: seq<byte>, g: Gpt) {
    ReadGpt(d) == Ok(g) && g.Valid() && g.header.entrySize == ENTRY_BYTES && g.header.numEntries > 0
  }

  /** The entries the loaders look at: at most 128. */
  function Looked(g: Gpt): (p: seq<GptEntry>)
    requires g.Valid()
    ensures ValidTable(p) && |p| == Least(g.header.numEntries as int, ENTRIES)
    ensures forall i :: 0 <= i < |p| ==> p[i] == g.partitions[i]
  {
    g.partitions[..Least(g.header.numEntries as int, ENTRIES)]
  }

  lemma GptIsTable(d: seq<byte>, g: Gpt)
    requires UsualGpt(d, g)
    ensures |d| >= 2 * SECTOR_SIZE && TableAt(g.header) + TABLE_BYTES <= |d|
    ensures g.partitions == DecodeTable(d, TableAt(g.header), ENTRY_BYTES, ENTRIES)
    ensures g.header == DecodeHeader(d, SECTOR_SIZE) && g.header.signature == GPT_SIGNATURE && g.mbr == DecodeMbr(d)
  {
    hide DecodeTable, DecodeHeader, DecodeMbr, GPT_SIGNATURE;
  }

  lemma GptLies(d: seq<byte>, g: Gpt)
    requires UsualGpt(d, g)
    ensures Lies(d, g.header.tableStart as int, Looked(g)) && g.mbr == DecodeMbr(d)
  {
    GptIsTable(d, g);
    TableLies(d, g.header.tableStart as int, g.partitions, |Looked(g)|);
    hide UsualGpt, Lies, DecodeTable, DecodeHeader, DecodeMbr, GPT_SIGNATURE;
  }

  lemma TableLies(d: seq<byte>, table: nat, p: seq<GptEntry>, n: nat)
    requires table * SECTOR_SIZE + TABLE_BYTES <= |d| && n <= ENTRIES
    requires p == DecodeTable(d, table * SECTOR_SIZE, ENTRY_BYTES, ENTRIES)
    ensures Lies(d, table, p[..n])
  {
    hide DecodeTable, DecodeEntry;
    assert (table + (n + 3) / 4) * SECTOR_SIZE <= table * SECTOR_SIZE + TABLE_BYTES;
    forall k | 0 <= k < n ensures DecodeEntry(d, table * SECTOR_SIZE + ENTRY_BYTES * k) == p[k] {
      TableEntryAt(d, table * SECTOR_SIZE, ENTRIES, k);
    }
  }

  /** The search of a disk is the first entry of its GPT that answers. */
  lemma GptSearch(d: seq<byte>, g: Gpt, q: Query, need: nat, skipUnused: bool)
    requires UsualGpt(d, g) && 40 <= need <= 48
    ensures FirstAnswer(SearchGpt(d, q, need, skipUnused), q, Looked(g), 0, skipUnused)
  {
    GptLies(d, g);
    GptIsTable(d, g);
    var table: nat := g.header.tableStart as int;
    SearchIsFirst(d, q, table, Looked(g), 0, need, skipUnused);
    hide UsualGpt, DecodeHeader, DecodeMbr, GPT_SIGNATURE, Search, Lies, FirstAnswer;
  }

  predicate Data(e: GptEntry) { e.typeGuid == BASIC_DATA }

  /** The first data partition, as the loaders learn it. */
  predicate FirstData(p: seq<GptEntry>, k: nat) { k < |p| && Data(p[k]) && forall i :: 0 <= i < k ==> !Data(p[i]) }

  lemma DataAnswers(e: GptEntry, skipUnused: bool)
    ensures Answers(BasicData, e, skipUnused) <==> Data(e)
  {
    assert BASIC_DATA[0] != NO_TYPE[0];
  }

  lemma DataHit(r: Option<Hit>, p: seq<GptEntry>, k: nat, skipUnused: bool)
    requires ValidTable(p) && FirstData(p, k) && FirstAnswer(r, BasicData, p, 0, skipUnused)
    ensures r.Some? && r.value.index == k && r.value.start == p[k].startLba && r.value.end == p[k].endLba
    ensures r.value.guid.Valid() && GuidText(r.value.guid) == Standard(p[k].uniqueGuid)
  {
    hide Answers, Data, GuidText, Standard;
    forall i | 0 <= i < |p| ensures Answers(BasicData, p[i], skipUnused) <==> Data(p[i]) {
      DataAnswers(p[i], skipUnused);
    }
  }

  lemma NoDataHit(r: Option<Hit>, p: seq<GptEntry>, skipUnused: bool)
    requires ValidTable(p) && FirstAnswer(r, BasicData, p, 0, skipUnused) && forall i :: 0 <= i < |p| ==> !Data(p[i])
    ensures r == None
  {
    hide Answers, Data, GuidText, Standard;
    if r.Some? { DataAnswers(p[r.value.index], skipUnused); }
  }

  /** On every GPT disk with a plain protective MBR, wherever its first data partition stands in the
      table, both loaders take that one, and the UEFI loader learns its number and its own GUID. */
  lemma LoadersFindData(d: seq<byte>, g: Gpt, k: nat) returns (found: DataPartition)
    requires UsualGpt(d, g) && g.mbr.partitions == [PROTECTIVE, NO_MBR_ENTRY, NO_MBR_ENTRY, NO_MBR_ENTRY]
    requires FirstData(Looked(g), k)
    requires 0 < g.partitions[k].startLba as int <= g.partitions[k].endLba as int < 0xFFFF_FFFF_FFFF_FFFF
    ensures UefiPartition(d) == Some(found) && found.lba == g.partitions[k].startLba as int
    ensures found.number == k + 1 && !found.isMbr && found.guid.Valid() &&
            GuidText(found.guid) == Standard(g.partitions[k].uniqueGuid)
    ensures var (from, to) := (g.partitions[k].startLba as int, g.partitions[k].endLba as int);
            BiosPartitions(d) == [BiosPartition(from % 0x1_0000_0000, (to - from + 1) % 0x1_0000_0000, 0x07)]
  {
    hide UsualGpt, GuidText, Standard, BiosPartitions, UefiPartition;
    found := UefiFindsData(d, g, k);
    BiosFindsData(d, g, k);
  }

  lemma UefiFindsData(d: seq<byte>, g: Gpt, k: nat) returns (found: DataPartition)
    requires UsualGpt(d, g) && g.mbr.partitions == [PROTECTIVE, NO_MBR_ENTRY, NO_MBR_ENTRY, NO_MBR_ENTRY]
    requires FirstData(Looked(g), k) && Looked(g)[k].startLba > 0
    ensures UefiPartition(d) == Some(found) && found.lba == Looked(g)[k].startLba as int
    ensures found.number == k + 1 && !found.isMbr && found.guid.Valid() &&
            GuidText(found.guid) == Standard(Looked(g)[k].uniqueGuid)
  {
    GptIsTable(d, g);
    GptSearch(d, g, BasicData, 40, true);
    hide UsualGpt, DecodeTable, DecodeHeader, DecodeMbr, GPT_SIGNATURE;
    ProtectiveOnly(d);
    var hit := SearchGpt(d, BasicData, 40, true);
    hide FirstAnswer, FirstData, SearchGpt, HasGpt, MbrScan, GuidText, Standard, UefiPartition, Looked;
    DataHit(hit, Looked(g), k, true);
    UefiTakesHit(d, hit.value);
    found := DataPartition(hit.value.start as int, hit.value.guid, hit.value.index + 1, false);
  }

  lemma BiosFindsData(d: seq<byte>, g: Gpt, k: nat)
    requires UsualGpt(d, g) && g.mbr.partitions == [PROTECTIVE, NO_MBR_ENTRY, NO_MBR_ENTRY, NO_MBR_ENTRY]
    requires FirstData(Looked(g), k)
    requires 0 < Looked(g)[k].startLba as int <= Looked(g)[k].endLba as int < 0xFFFF_FFFF_FFFF_FFFF
    ensures var (from, to) := (Looked(g)[k].startLba as int, Looked(g)[k].endLba as int);
            BiosPartitions(d) == [BiosPartition(from % 0x1_0000_0000, (to - from + 1) % 0x1_0000_0000, 0x07)]
  {
    hide UsualGpt, HasGpt, SearchGpt, BiosPartitions, FirstData, DecodeMbr, Looked;
    var hit := BiosHit(d, g, k);
    BiosOfHit(d, hit);
  }

  lemma BiosHit(d: seq<byte>, g: Gpt, k: nat) returns (hit: Hit)
    requires UsualGpt(d, g) && g.mbr.partitions == [PROTECTIVE, NO_MBR_ENTRY, NO_MBR_ENTRY, NO_MBR_ENTRY]
    requires FirstData(Looked(g), k)
    ensures Readable(d, 0) && HasGpt(d) && SearchGpt(d, BasicData, 48, false) == Some(hit)
    ensures hit.start == Looked(g)[k].startLba && hit.end == Looked(g)[k].endLba
  {
    GptIsTable(d, g);
    GptSearch(d, g, BasicData, 48, false);
    hide UsualGpt, DecodeTable, DecodeHeader, DecodeMbr, GPT_SIGNATURE;
    ProtectiveOnly(d);
    var r := SearchGpt(d, BasicData, 48, false);
    hide FirstAnswer, FirstData, SearchGpt, HasGpt, MbrScan, GuidText, Standard, Looked;
    DataHit(r, Looked(g), k, false);
    hit := r.value;
  }

  lemma BiosOfHit(d: seq<byte>, hit: Hit)
    requires Readable(d, 0) && HasGpt(d) && SearchGpt(d, BasicData, 48, false) == Some(hit)
    requires 0 < hit.start as int <= hit.end as int < 0xFFFF_FFFF_FFFF_FFFF
    ensures BiosPartitions(d) == [BiosPartition(hit.start as int % 0x1_0000_0000,
                                                (hit.end as int - hit.start as int + 1) % 0x1_0000_0000, 0x07)]
  {
    hide HasGpt, SearchGpt, BiosPartitions, GptParts;
    BiosTakesHit(d, Some(hit));
    SameParts(hit);
    PartsOfHit(hit.start, hit.end, hit.guid);
  }

  /** The BIOS loader does not care where in the table an entry stands. */
  lemma SameParts(hit: Hit)
    ensures GptParts(Some(hit)) == GptParts(Some(Hit(0, hit.start, hit.end, hit.guid)))
  {
  }

  /** Without a data partition among the entries they look at, both find nothing. */
  lemma LoadersFindNone(d: seq<byte>, g: Gpt)
    requires UsualGpt(d, g) && g.mbr.partitions == [PROTECTIVE, NO_MBR_ENTRY, NO_MBR_ENTRY, NO_MBR_ENTRY]
    requires forall i :: 0 <= i < |Looked(g)| ==> !Data(Looked(g)[i])
    ensures UefiPartition(d) == None && BiosPartitions(d) == []
  {
    GptIsTable(d, g);
    GptSearch(d, g, BasicData, 40, true);
    GptSearch(d, g, BasicData, 48, false);
    ProtectiveOnly(d);
    NoDataHit(SearchGpt(d, BasicData, 40, true), Looked(g), true);
    NoDataHit(SearchGpt(d, BasicData, 48, false), Looked(g), false);
    hide UsualGpt, Lies, FirstAnswer, SearchGpt, HasGpt, MbrScan, DecodeMbr, DecodeHeader, GPT_SIGNATURE, Data;
  }
}
