/** MBR and GPT structures, their packed on-disk forms, and the code that reads and writes them. */
module PartitionTables {
  import opened Bytes

  const SECTOR_SIZE := 512
  const ENTRIES := 128
  const ENTRY_BYTES := 128
  const TABLE_SECTORS := 32
  const TABLE_BYTES := 16384
  const GPT_PROTECTIVE: byte := 0xEE
  const EFI_SYSTEM: byte := 0xEF
  const ACTIVE: byte := 0x80
  /** Where the partitions start, in bytes. */
  const DATA_START := 1048576
  const GPT_SIGNATURE: seq<byte> := Ascii("EFI PART")

  /** An uninterpreted 32-bit checksum. */
  type Crc = seq<byte> -> u32

  // ── Field codecs ──────────────────────────────────────────────────────

  /** What lies at `i` in `t` lies at `at + i` in `s` when `t` lies at `at`. */
  lemma Inside(s: seq<byte>, at: nat, t: seq<byte>, i: nat, j: nat)
    requires at + |t| <= |s| && s[at..at + |t|] == t && i <= j <= |t|
    ensures s[at + i..at + j] == t[i..j]
  {
    forall k | 0 <= k < j - i ensures s[at + i..at + j][k] == t[i..j][k] {
      assert s[at..at + |t|][i + k] == s[at + i + k];
    }
  }

  /** Ranges that agree agree in every part. */
  lemma SameInside(s: seq<byte>, t: seq<byte>, lo: nat, hi: nat, i: nat, j: nat)
    requires lo <= i <= j <= hi && hi <= |s| && hi <= |t| && s[lo..hi] == t[lo..hi]
    ensures s[i..j] == t[i..j]
  {
    forall k | 0 <= k < j - i ensures s[i..j][k] == t[i..j][k] {
      assert s[lo..hi][i - lo + k] == t[lo..hi][i - lo + k];
    }
  }

  lemma Le16RoundTrip(v: u16, s: seq<byte>, at: nat)
    requires at + 2 <= |s| && s[at..at + 2] == Le16(v)
    ensures FromLe16(s, at) == v
  {
    var t := s[at..at + 2];
    assert t[0] == s[at] && t[1] == s[at + 1];
  }

  // ── MBR ───────────────────────────────────────────────────────────────

  datatype MbrEntry = MbrEntry(active: byte, startHead: byte, startChs: u16, fsFlag: byte, endHead: byte, endChs: u16,
                               startLba: u32, sectorCount: u32)

  const NO_MBR_ENTRY := MbrEntry(0, 0, 0, 0, 0, 0, 0, 0)

  function EncodeMbrEntry(e: MbrEntry): (s: seq<byte>)
    ensures |s| == 16
  {
    [e.active, e.startHead] + Le16(e.startChs) + [e.fsFlag, e.endHead] + Le16(e.endChs) + Le32(e.startLba) +
      Le32(e.sectorCount)
  }

  function DecodeMbrEntry(s: seq<byte>, at: nat): MbrEntry
    requires at + 16 <= |s|
  {
    MbrEntry(s[at], s[at + 1], FromLe16(s, at + 2), s[at + 4], s[at + 5], FromLe16(s, at + 6), FromLe32(s, at + 8),
             FromLe32(s, at + 12))
  }

  lemma MbrEntryRoundTrip(e: MbrEntry, s: seq<byte>, at: nat)
    requires at + 16 <= |s| && s[at..at + 16] == EncodeMbrEntry(e)
    ensures DecodeMbrEntry(s, at) == e
  {
    hide Le32, FromLe32, FromLe16, Le16;
    var t := s[at..at + 16];
    assert s[at] == t[0] && s[at + 1] == t[1] && s[at + 4] == t[4] && s[at + 5] == t[5];
    Inside(s, at, t, 2, 4);
    Inside(s, at, t, 6, 8);
    Inside(s, at, t, 8, 12);
    Inside(s, at, t, 12, 16);
    assert t[2..4] == Le16(e.startChs) && t[6..8] == Le16(e.endChs) && t[8..12] == Le32(e.startLba) &&
           t[12..16] == Le32(e.sectorCount);
    Le16RoundTrip(e.startChs, s, at + 2);
    Le16RoundTrip(e.endChs, s, at + 6);
    Le32RoundTrip(e.startLba, s, at + 8);
    Le32RoundTrip(e.sectorCount, s, at + 12);
  }

  datatype Mbr = Mbr(bootCode: seq<byte>, partitions: seq<MbrEntry>, sig55: byte, sigAA: byte) {
    predicate Valid() { |bootCode| == 446 && |partitions| == 4 }

    predicate IsGptProtective()
      requires Valid()
    {
      partitions[0].fsFlag == GPT_PROTECTIVE
    }
  }

  function EncodeMbrTable(p: seq<MbrEntry>): (s: seq<byte>)
    ensures |s| == 16 * |p|
  {
    if p == [] then [] else EncodeMbrEntry(p[0]) + EncodeMbrTable(p[1..])
  }

  function EncodeMbr(m: Mbr): (s: seq<byte>)
    requires m.Valid()
    ensures |s| == SECTOR_SIZE
  {
    m.bootCode + EncodeMbrTable(m.partitions) + [m.sig55, m.sigAA]
  }

  /** The fields of entry `k` of a written MBR by byte position, as section 5.2.1 of the UEFI
      specification has them. */
  lemma MbrFields(m: Mbr, k: nat)
    requires m.Valid() && k < 4
    ensures var (s, at, e) := (EncodeMbr(m), 446 + 16 * k, m.partitions[k]);
            && s[at] == e.active && s[at + 4] == e.fsFlag && s[at + 8..at + 12] == Le32(e.startLba)
            && s[at + 12..at + 16] == Le32(e.sectorCount) && s[510] == m.sig55 && s[511] == m.sigAA
  {
    hide Le32, Le16;
    var (s, p) := (EncodeMbr(m), m.partitions);
    EntryOfTable(p, k);
    var (e, t) := (EncodeMbrEntry(p[k]), EncodeMbrTable(p));
    assert s[446..510] == t;
    hide EncodeMbr, EncodeMbrTable;
    Inside(s, 446, t, 16 * k, 16 * k + 16);
    assert s[446 + 16 * k..446 + 16 * k + 16] == e;
    Inside(s, 446 + 16 * k, e, 8, 12);
    Inside(s, 446 + 16 * k, e, 12, 16);
    assert s[446 + 16 * k] == s[446 + 16 * k..446 + 16 * k + 16][0] == e[0];
    assert s[446 + 16 * k + 4] == s[446 + 16 * k..446 + 16 * k + 16][4] == e[4];
  }

  lemma {:induction false} EntryOfTable(p: seq<MbrEntry>, k: nat)
    requires k < |p|
    ensures EncodeMbrTable(p)[16 * k..16 * k + 16] == EncodeMbrEntry(p[k])
  {
    hide EncodeMbrEntry;
    if k > 0 {
      EntryOfTable(p[1..], k - 1);
      assert EncodeMbrTable(p)[16 * k..16 * k + 16] == EncodeMbrTable(p[1..])[16 * (k - 1)..16 * (k - 1) + 16];
    }
  }

  function DecodeMbrTable(s: seq<byte>, at: nat, n: nat): (p: seq<MbrEntry>)
    requires at + 16 * n <= |s|
    ensures |p| == n
    decreases n
  {
    if n == 0 then [] else [DecodeMbrEntry(s, at)] + DecodeMbrTable(s, at + 16, n - 1)
  }

  function DecodeMbr(s: seq<byte>): (m: Mbr)
    requires |s| >= SECTOR_SIZE
    ensures m.Valid()
  {
    Mbr(s[..446], DecodeMbrTable(s, 446, 4), s[510], s[511])
  }

  lemma {:induction false} MbrTableRoundTrip(p: seq<MbrEntry>, s: seq<byte>, at: nat)
    requires at + 16 * |p| <= |s| && s[at..at + 16 * |p|] == EncodeMbrTable(p)
    ensures DecodeMbrTable(s, at, |p|) == p
    decreases |p|
  {
    hide EncodeMbrEntry, DecodeMbrEntry;
    if p != [] {
      var t := s[at..at + 16 * |p|];
      assert s[at..at + 16] == t[..16] && s[at + 16..at + 16 * |p|] == t[16..];
      MbrEntryRoundTrip(p[0], s, at);
      MbrTableRoundTrip(p[1..], s, at + 16);
    }
  }

  lemma MbrRoundTrip(m: Mbr, s: seq<byte>)
    requires m.Valid() && |s| >= SECTOR_SIZE && s[..SECTOR_SIZE] == EncodeMbr(m)
    ensures DecodeMbr(s) == m
  {
    hide EncodeMbrTable, DecodeMbrTable;
    var t := s[..SECTOR_SIZE];
    assert s[..446] == t[..446] && s[446..510] == t[446..510] && s[510] == t[510] && s[511] == t[511];
    MbrTableRoundTrip(m.partitions, s, 446);
  }

  // ── GPT header ────────────────────────────────────────────────────────

  datatype GptHeader = GptHeader(
    signature: seq<byte>, revision: seq<byte>, headerSize: u32, headerCrc: u32, reserved1: seq<byte>,
    startLba: u64, backupLba: u64, areaStart: u64, areaEnd: u64,
    diskGuid: seq<byte>, tableStart: u64, numEntries: u32, entrySize: u32, tableCrc: u32, reserved2: seq<byte>)
  {
    predicate Valid() { |signature| == 8 && |revision| == 4 && |reserved1| == 4 && |diskGuid| == 16 &&
                       |reserved2| == 420 }
  }

  function HeaderIds(h: GptHeader): (s: seq<byte>)
    requires h.Valid()
    ensures |s| == 24
  {
    h.signature + h.revision + Le32(h.headerSize) + Le32(h.headerCrc) + h.reserved1
  }

  function HeaderLbas(h: GptHeader): (s: seq<byte>)
    requires h.Valid()
    ensures |s| == 32
  {
    Le64(h.startLba) + Le64(h.backupLba) + Le64(h.areaStart) + Le64(h.areaEnd)
  }

  function HeaderTable(h: GptHeader): (s: seq<byte>)
    requires h.Valid()
    ensures |s| == 36
  {
    h.diskGuid + Le64(h.tableStart) + Le32(h.numEntries) + Le32(h.entrySize) + Le32(h.tableCrc)
  }

  function EncodeHeader(h: GptHeader): (s: seq<byte>)
    requires h.Valid()
    ensures |s| == SECTOR_SIZE
  {
    HeaderIds(h) + HeaderLbas(h) + HeaderTable(h) + h.reserved2
  }

  function DecodeHeader(s: seq<byte>, at: nat): (h: GptHeader)
    requires at + SECTOR_SIZE <= |s|
    ensures h.Valid()
  {
    GptHeader(s[at..at + 8], s[at + 8..at + 12], FromLe32(s, at + 12), FromLe32(s, at + 16), s[at + 20..at + 24],
              FromLe64(s, at + 24), FromLe64(s, at + 32), FromLe64(s, at + 40), FromLe64(s, at + 48),
              s[at + 56..at + 72], FromLe64(s, at + 72), FromLe32(s, at + 80), FromLe32(s, at + 84),
                FromLe32(s, at + 88), s[at + 92..at + 512])
  }

  lemma HeaderRoundTrip(h: GptHeader, s: seq<byte>, at: nat)
    requires h.Valid() && at + SECTOR_SIZE <= |s| && s[at..at + SECTOR_SIZE] == EncodeHeader(h)
    ensures DecodeHeader(s, at) == h
  {
    HeaderParts(h, s, at);
    hide EncodeHeader, FromLe32, FromLe64, Le32, Le64;
    HeaderIdsBack(h, s, at);
    HeaderLbasBack(h, s, at + 24);
    HeaderTableBack(h, s, at + 56);
  }

  lemma HeaderParts(h: GptHeader, s: seq<byte>, at: nat)
    requires h.Valid() && at + SECTOR_SIZE <= |s| && s[at..at + SECTOR_SIZE] == EncodeHeader(h)
    ensures s[at..at + 24] == HeaderIds(h) && s[at + 24..at + 56] == HeaderLbas(h) &&
            s[at + 56..at + 92] == HeaderTable(h) && s[at + 92..at + 512] == h.reserved2
  {
    hide HeaderIds, HeaderLbas, HeaderTable;
    var t := EncodeHeader(h);
    Inside(s, at, t, 0, 24);
    Inside(s, at, t, 24, 56);
    Inside(s, at, t, 56, 92);
    Inside(s, at, t, 92, 512);
    assert t[0..24] == HeaderIds(h) && t[24..56] == HeaderLbas(h) && t[56..92] == HeaderTable(h) &&
           t[92..512] == h.reserved2;
  }

  lemma HeaderIdsBack(h: GptHeader, s: seq<byte>, at: nat)
    requires h.Valid() && at + 24 <= |s| && s[at..at + 24] == HeaderIds(h)
    ensures s[at..at + 8] == h.signature && s[at + 8..at + 12] == h.revision && s[at + 20..at + 24] == h.reserved1
    ensures FromLe32(s, at + 12) == h.headerSize && FromLe32(s, at + 16) == h.headerCrc
  {
    hide FromLe32, Le32;
    var t := HeaderIds(h);
    Inside(s, at, t, 0, 8);
    Inside(s, at, t, 8, 12);
    Inside(s, at, t, 12, 16);
    Inside(s, at, t, 16, 20);
    Inside(s, at, t, 20, 24);
    Le32RoundTrip(h.headerSize, s, at + 12);
    Le32RoundTrip(h.headerCrc, s, at + 16);
  }

  lemma HeaderLbasBack(h: GptHeader, s: seq<byte>, at: nat)
    requires h.Valid() && at + 32 <= |s| && s[at..at + 32] == HeaderLbas(h)
    ensures FromLe64(s, at) == h.startLba && FromLe64(s, at + 8) == h.backupLba &&
            FromLe64(s, at + 16) == h.areaStart && FromLe64(s, at + 24) == h.areaEnd
  {
    hide FromLe64, Le64;
    var t := HeaderLbas(h);
    Inside(s, at, t, 0, 8);
    Inside(s, at, t, 8, 16);
    Inside(s, at, t, 16, 24);
    Inside(s, at, t, 24, 32);
    Le64RoundTrip(h.startLba, s, at);
    Le64RoundTrip(h.backupLba, s, at + 8);
    Le64RoundTrip(h.areaStart, s, at + 16);
    Le64RoundTrip(h.areaEnd, s, at + 24);
  }

  lemma HeaderTableBack(h: GptHeader, s: seq<byte>, at: nat)
    requires h.Valid() && at + 36 <= |s| && s[at..at + 36] == HeaderTable(h)
    ensures s[at..at + 16] == h.diskGuid && FromLe64(s, at + 16) == h.tableStart
    ensures FromLe32(s, at + 24) == h.numEntries && FromLe32(s, at + 28) == h.entrySize &&
            FromLe32(s, at + 32) == h.tableCrc
  {
    hide FromLe64, Le64, FromLe32, Le32;
    var t := HeaderTable(h);
    Inside(s, at, t, 0, 16);
    Inside(s, at, t, 16, 24);
    Inside(s, at, t, 24, 28);
    Inside(s, at, t, 28, 32);
    Inside(s, at, t, 32, 36);
    Le64RoundTrip(h.tableStart, s, at + 16);
    Le32RoundTrip(h.numEntries, s, at + 24);
    Le32RoundTrip(h.entrySize, s, at + 28);
    Le32RoundTrip(h.tableCrc, s, at + 32);
  }

  /** The fields of a written header by byte position, as section 5.3.2 of the UEFI specification has them. */
  lemma HeaderFields(h: GptHeader)
    requires h.Valid()
    ensures var s := EncodeHeader(h);
            && s[0..8] == h.signature && s[8..12] == h.revision && s[12..16] == Le32(h.headerSize)
            && s[16..20] == Le32(h.headerCrc) && s[24..32] == Le64(h.startLba) && s[32..40] == Le64(h.backupLba)
            && s[40..48] == Le64(h.areaStart) && s[48..56] == Le64(h.areaEnd) && s[56..72] == h.diskGuid
            && s[72..80] == Le64(h.tableStart) && s[80..84] == Le32(h.numEntries) && s[84..88] == Le32(h.entrySize)
            && s[88..92] == Le32(h.tableCrc)
  {
    hide Le32, Le64;
    var s := EncodeHeader(h);
    HeaderParts(h, s, 0);
    var (ids, lbas, table) := (HeaderIds(h), HeaderLbas(h), HeaderTable(h));
    hide EncodeHeader;
    Inside(s, 0, ids, 0, 8);
    Inside(s, 0, ids, 8, 12);
    Inside(s, 0, ids, 12, 16);
    Inside(s, 0, ids, 16, 20);
    Inside(s, 24, lbas, 0, 8);
    Inside(s, 24, lbas, 8, 16);
    Inside(s, 24, lbas, 16, 24);
    Inside(s, 24, lbas, 24, 32);
    Inside(s, 56, table, 0, 16);
    Inside(s, 56, table, 16, 24);
    Inside(s, 56, table, 24, 28);
    Inside(s, 56, table, 28, 32);
    Inside(s, 56, table, 32, 36);
  }

  // ── GPT entries ───────────────────────────────────────────────────────

  datatype GptEntry = GptEntry(typeGuid: seq<byte>, uniqueGuid: seq<byte>, startLba: u64, endLba: u64, attributes: u64,
                               name: seq<u16>) {
    predicate Valid() { |typeGuid| == 16 && |uniqueGuid| == 16 && |name| == 36 }
  }

  function Units(name: seq<u16>): (s: seq<byte>)
    ensures |s| == 2 * |name|
  {
    seq(2 * |name|, i requires 0 <= i < 2 * |name| => if i % 2 == 0 then name[i / 2] % 256 else name[i / 2] / 256)
  }

  function FromUnits(s: seq<byte>, at: nat, n: nat): (name: seq<u16>)
    requires at + 2 * n <= |s|
    ensures |name| == n
  {
    seq(n, i requires 0 <= i < n => FromLe16(s, at + 2 * i))
  }

  function EncodeEntry(e: GptEntry): (s: seq<byte>)
    requires e.Valid()
    ensures |s| == ENTRY_BYTES
  {
    e.typeGuid + e.uniqueGuid + Le64(e.startLba) + Le64(e.endLba) + Le64(e.attributes) + Units(e.name)
  }

  function DecodeEntry(s: seq<byte>, at: nat): (e: GptEntry)
    requires at + ENTRY_BYTES <= |s|
    ensures e.Valid()
  {
    GptEntry(s[at..at + 16], s[at + 16..at + 32], FromLe64(s, at + 32), FromLe64(s, at + 40), FromLe64(s, at + 48),
             FromUnits(s, at + 56, 36))
  }

  lemma UnitsRoundTrip(name: seq<u16>, s: seq<byte>, at: nat)
    requires at + 2 * |name| <= |s| && s[at..at + 2 * |name|] == Units(name)
    ensures FromUnits(s, at, |name|) == name
  {
    forall i | 0 <= i < |name| ensures FromLe16(s, at + 2 * i) == name[i] {
      var t := s[at..at + 2 * |name|];
      assert s[at + 2 * i] == t[2 * i] && s[at + 2 * i + 1] == t[2 * i + 1];
    }
  }

  lemma EntryRoundTrip(e: GptEntry, s: seq<byte>, at: nat)
    requires e.Valid() && at + ENTRY_BYTES <= |s| && s[at..at + ENTRY_BYTES] == EncodeEntry(e)
    ensures DecodeEntry(s, at) == e
  {
    hide FromLe64, Le64, Units, FromUnits, EncodeEntry;
    var t := EncodeEntry(e);
    EntryParts(e);
    Inside(s, at, t, 0, 16);
    Inside(s, at, t, 16, 32);
    Inside(s, at, t, 32, 40);
    Inside(s, at, t, 40, 48);
    Inside(s, at, t, 48, 56);
    Inside(s, at, t, 56, 128);
    Le64RoundTrip(e.startLba, s, at + 32);
    Le64RoundTrip(e.endLba, s, at + 40);
    Le64RoundTrip(e.attributes, s, at + 48);
    UnitsRoundTrip(e.name, s, at + 56);
  }

  lemma EntryParts(e: GptEntry)
    requires e.Valid()
    ensures var t := EncodeEntry(e);
            && t[0..16] == e.typeGuid && t[16..32] == e.uniqueGuid && t[32..40] == Le64(e.startLba)
            && t[40..48] == Le64(e.endLba) && t[48..56] == Le64(e.attributes) && t[56..128] == Units(e.name)
  {
    hide Le64, Units;
  }

  predicate ValidTable(p: seq<GptEntry>) { forall i :: 0 <= i < |p| ==> p[i].Valid() }

  function EncodeTable(p: seq<GptEntry>): (s: seq<byte>)
    requires ValidTable(p)
    ensures |s| == ENTRY_BYTES * |p|
  {
    if p == [] then [] else EncodeEntry(p[0]) + EncodeTable(p[1..])
  }

  /** Entries at `at`, `size` bytes apart. */
  function DecodeTable(s: seq<byte>, at: nat, size: nat, n: nat): (p: seq<GptEntry>)
    requires n > 0 ==> at + (n - 1) * size + ENTRY_BYTES <= |s|
    ensures |p| == n && ValidTable(p)
    decreases n
  {
    if n == 0 then []
    else
      assert at + ENTRY_BYTES <= |s| by { StrideFits(at, size, n, |s|); }
      [DecodeEntry(s, at)] + DecodeTable(s, at + size, size, n - 1)
  }

  lemma StrideFits(at: nat, size: nat, n: nat, len: nat)
    requires n > 0 && at + (n - 1) * size + ENTRY_BYTES <= len
    ensures at + ENTRY_BYTES <= len
    ensures n > 1 ==> at + size + (n - 2) * size + ENTRY_BYTES <= len
  {
    if n > 1 { assert (n - 1) * size == size + (n - 2) * size; }
  }

  lemma {:induction false} TableRoundTrip(p: seq<GptEntry>, s: seq<byte>, at: nat)
    requires ValidTable(p) && p != [] && at + ENTRY_BYTES * |p| <= |s| &&
             s[at..at + ENTRY_BYTES * |p|] == EncodeTable(p)
    ensures DecodeTable(s, at, ENTRY_BYTES, |p|) == p
    decreases |p|
  {
    hide EncodeEntry, DecodeEntry;
    var t := EncodeTable(p);
    Inside(s, at, t, 0, ENTRY_BYTES);
    Inside(s, at, t, ENTRY_BYTES, |t|);
    EntryRoundTrip(p[0], s, at);
    if |p| > 1 { TableRoundTrip(p[1..], s, at + ENTRY_BYTES); }
  }

  // ── GPT on disk ───────────────────────────────────────────────────────

  datatype Gpt = Gpt(mbr: Mbr, header: GptHeader, partitions: seq<GptEntry>) {
    predicate Valid() { mbr.Valid() && header.Valid() && |partitions| == ENTRIES && ValidTable(partitions) }
  }

  datatype Result<+T> = Ok(value: T) | Err

  function HeaderBytes(h: GptHeader, n: nat): seq<byte>
    requires h.Valid() && n <= SECTOR_SIZE
  {
    EncodeHeader(h)[..n]
  }

  /** The header of the backup table: the two addresses swapped, its own table, its own checksum. */
  function BackupHeader(h: GptHeader, crc: Crc): (b: GptHeader)
    requires h.Valid() && h.backupLba >= TABLE_SECTORS
    ensures b.Valid()
  {
    var swapped := h.(startLba := h.backupLba, backupLba := h.startLba, tableStart := h.backupLba - TABLE_SECTORS,
                      headerCrc := 0);
    swapped.(headerCrc := crc(HeaderBytes(swapped, 92)))
  }

  /** Both checksums made up to date. */
  function Finalized(g: Gpt, crc: Crc): (r: Gpt)
    requires g.Valid() && g.header.headerSize <= SECTOR_SIZE
    ensures r.Valid()
  {
    var h := g.header.(tableCrc := crc(EncodeTable(g.partitions)), headerCrc := 0);
    g.(header := h.(headerCrc := crc(HeaderBytes(h, h.headerSize))))
  }

  /** A header whose checksum is that of its own bytes with the checksum field zero. */
  predicate CrcValid(h: GptHeader, crc: Crc)
    requires h.Valid()
  {
    h.headerSize <= SECTOR_SIZE && h.headerCrc == crc(HeaderBytes(h.(headerCrc := 0), h.headerSize))
  }

  /** The five areas a GPT occupies fit the disk and do not overlap. */
  predicate Placed(g: Gpt, disk: nat)
    requires g.Valid()
  {
    && 2 <= g.header.tableStart &&
       g.header.tableStart as int + TABLE_SECTORS <= g.header.backupLba as int - TABLE_SECTORS
    && (g.header.backupLba as int + 1) * SECTOR_SIZE <= disk
  }

  /** A GPT that can be written back to a disk of `size` bytes. */
  predicate Rewritable(g: Gpt, size: nat) {
    g.Valid() && Placed(g, size) && g.header.headerSize <= SECTOR_SIZE
  }

  function TableAt(h: GptHeader): nat { h.tableStart as int * SECTOR_SIZE }

  function BackupTableAt(h: GptHeader): nat
    requires h.backupLba >= TABLE_SECTORS
  {
    (h.backupLba as int - TABLE_SECTORS) * SECTOR_SIZE
  }

  function BackupHeaderAt(h: GptHeader): nat { h.backupLba as int * SECTOR_SIZE }

  /** A GPT in its usual place on a disk of `size` bytes, with 92-byte headers. */
  predicate UsualPlace(g: Gpt, size: nat) {
    && g.Valid() && g.header.tableStart == 2 && g.header.entrySize == ENTRY_BYTES && g.header.headerSize == 92
    && Placed(g, size) && size >= DATA_START && (g.header.backupLba as int - TABLE_SECTORS) * SECTOR_SIZE >= DATA_START
  }

  lemma UsualIsRewritable(g: Gpt, size: nat)
    requires UsualPlace(g, size)
    ensures Rewritable(g, size) && size >= DATA_START
  {
  }

  /** The disk after a GPT has been written to it. */
  function WithGpt(d: seq<byte>, g: Gpt, crc: Crc): (r: seq<byte>)
    requires g.Valid() && Placed(g, |d|)
    ensures |r| == |d|
  {
    var d1 := Splice(d, 0, EncodeMbr(g.mbr));
    var d2 := Splice(d1, SECTOR_SIZE, EncodeHeader(g.header));
    var d3 := Splice(d2, TableAt(g.header), EncodeTable(g.partitions));
    var d4 := Splice(d3, BackupHeaderAt(g.header), EncodeHeader(BackupHeader(g.header, crc)));
    Splice(d4, BackupTableAt(g.header), EncodeTable(g.partitions))
  }

  method WriteGpt(disk: array<byte>, g: Gpt, crc: Crc)
    requires g.Valid() && Placed(g, disk.Length)
    modifies disk
    ensures disk[..] == WithGpt(old(disk[..]), g, crc)
  {
    hide EncodeMbr, EncodeHeader, EncodeTable, Splice;
    CopyInto(disk, 0, EncodeMbr(g.mbr));
    CopyInto(disk, SECTOR_SIZE, EncodeHeader(g.header));
    CopyInto(disk, TableAt(g.header), EncodeTable(g.partitions));
    var backup := g.header.(startLba := g.header.backupLba, backupLba := g.header.startLba,
                            tableStart := g.header.backupLba - TABLE_SECTORS, headerCrc := 0);
    backup := backup.(headerCrc := crc(HeaderBytes(backup, 92)));
    CopyInto(disk, BackupHeaderAt(g.header), EncodeHeader(backup));
    CopyInto(disk, BackupTableAt(g.header), EncodeTable(g.partitions));
  }

  /** Reading back: a missing signature or a table beyond the end of the disk is an error. */
  function ReadGpt(d: seq<byte>): (r: Result<Gpt>)
    ensures r.Ok? ==> r.value.Valid()
  {
    if |d| < 2 * SECTOR_SIZE || d[510] != 0x55 || d[511] != 0xAA then Err
    else
      var h := DecodeHeader(d, SECTOR_SIZE);
      if h.signature != GPT_SIGNATURE then Err
      else if TableAt(h) + (ENTRIES - 1) * h.entrySize as int + ENTRY_BYTES > |d| then Err
      else Ok(Gpt(DecodeMbr(d), h, DecodeTable(d, TableAt(h), h.entrySize as int, ENTRIES)))
  }

  lemma MbrOfGpt(d: seq<byte>, g: Gpt)
    requires ReadGpt(d) == Ok(g)
    ensures |d| >= 2 * SECTOR_SIZE && g.Valid() && g.mbr == Mbr(d[..446], g.mbr.partitions, 0x55, 0xAA) &&
            g.header.signature == GPT_SIGNATURE
    ensures g.mbr == DecodeMbr(d) && d[510] == 0x55 && d[511] == 0xAA
  {
    hide DecodeMbrTable, DecodeHeader, DecodeTable;
  }

  method ReadGptFromDisk(disk: array<byte>) returns (r: Result<Gpt>)
    ensures r == ReadGpt(disk[..])
  {
    hide DecodeMbr, DecodeHeader, DecodeEntry;
    var d := disk[..];
    if |d| < SECTOR_SIZE || d[510] != 0x55 || d[511] != 0xAA { return Err; }
    if |d| < 2 * SECTOR_SIZE { return Err; }
    var mbr := DecodeMbr(d);
    var header := DecodeHeader(d, SECTOR_SIZE);
    if header.signature != GPT_SIGNATURE { return Err; }
    var ok, partitions := ReadEntries(d, TableAt(header), header.entrySize as int);
    if !ok { return Err; }
    return Ok(Gpt(mbr, header, partitions));
  }

  method ReadEntries(d: seq<byte>, start: nat, size: nat) returns (ok: bool, p: seq<GptEntry>)
    ensures ok == (start + (ENTRIES - 1) * size + ENTRY_BYTES <= |d|)
    ensures ok ==> p == DecodeTable(d, start, size, ENTRIES)
  {
    hide DecodeEntry, DecodeTable;
    p := [];
    for i := 0 to ENTRIES
      invariant |p| == i && (i > 0 ==> start + (i - 1) * size + ENTRY_BYTES <= |d|)
      invariant i > 0 ==> p == DecodeTable(d, start, size, i)
    {
      var offset := start + i * size;
      if offset + ENTRY_BYTES > |d| {
        FurtherOut(start, size, i);
        return false, p;
      }
      TableGrows(d, start, size, i);
      p := p + [DecodeEntry(d, offset)];
    }
    ok := true;
  }

  lemma FurtherOut(start: nat, size: nat, i: nat)
    requires i < ENTRIES
    ensures start + i * size <= start + (ENTRIES - 1) * size
  {
  }

  lemma {:induction false} TableGrows(d: seq<byte>, start: nat, size: nat, i: nat)
    requires start + i * size + ENTRY_BYTES <= |d|
    ensures i > 0 ==> start + (i - 1) * size + ENTRY_BYTES <= |d|
    ensures DecodeTable(d, start, size, i + 1) ==
            (if i == 0 then [] else DecodeTable(d, start, size, i)) + [DecodeEntry(d, start + i * size)]
    decreases i
  {
    hide DecodeEntry;
    if i > 0 {
      assert i * size == size + (i - 1) * size;
      TableGrows(d, start + size, size, i - 1);
    }
  }

  // ── What a written GPT reads back as ──────────────────────────────────

  /** A write leaves what lies before and after it alone. */
  lemma SpliceElsewhere(d: seq<byte>, at: nat, data: seq<byte>, lo: nat, hi: nat)
    requires at + |data| <= |d| && lo <= hi <= |d| && (hi <= at || at + |data| <= lo)
    ensures Splice(d, at, data)[lo..hi] == d[lo..hi]
  {
  }

  lemma SpliceHere(d: seq<byte>, at: nat, data: seq<byte>)
    requires at + |data| <= |d|
    ensures Splice(d, at, data)[at..at + |data|] == data
  {
  }

  /** Where each piece of a written GPT lies. */
  lemma GptPieces(d: seq<byte>, g: Gpt, crc: Crc)
    requires g.Valid() && Placed(g, |d|)
    ensures var (r, h) := (WithGpt(d, g, crc), g.header);
            && r[0..SECTOR_SIZE] == EncodeMbr(g.mbr) && r[SECTOR_SIZE..2 * SECTOR_SIZE] == EncodeHeader(h)
            && r[TableAt(h)..TableAt(h) + TABLE_BYTES] == EncodeTable(g.partitions)
            && r[BackupTableAt(h)..BackupTableAt(h) + TABLE_BYTES] == EncodeTable(g.partitions)
            && r[BackupHeaderAt(h)..BackupHeaderAt(h) + SECTOR_SIZE] == EncodeHeader(BackupHeader(h, crc))
  {
    hide EncodeMbr, EncodeHeader, EncodeTable, Splice, BackupHeader;
    var h := g.header;
    var (mbr, head, table, back) :=
        (EncodeMbr(g.mbr), EncodeHeader(h), EncodeTable(g.partitions), EncodeHeader(BackupHeader(h, crc)));
    var (t, b, bt) := (TableAt(h), BackupHeaderAt(h), BackupTableAt(h));
    var d1 := Splice(d, 0, mbr);
    var d2 := Splice(d1, SECTOR_SIZE, head);
    var d3 := Splice(d2, t, table);
    var d4 := Splice(d3, b, back);
    SpliceHere(d, 0, mbr);
    SpliceElsewhere(d1, SECTOR_SIZE, head, 0, SECTOR_SIZE);
    SpliceElsewhere(d2, t, table, 0, SECTOR_SIZE);
    SpliceElsewhere(d3, b, back, 0, SECTOR_SIZE);
    SpliceElsewhere(d4, bt, table, 0, SECTOR_SIZE);
    SpliceHere(d1, SECTOR_SIZE, head);
    SpliceElsewhere(d2, t, table, SECTOR_SIZE, 2 * SECTOR_SIZE);
    SpliceElsewhere(d3, b, back, SECTOR_SIZE, 2 * SECTOR_SIZE);
    SpliceElsewhere(d4, bt, table, SECTOR_SIZE, 2 * SECTOR_SIZE);
    SpliceHere(d2, t, table);
    SpliceElsewhere(d3, b, back, t, t + TABLE_BYTES);
    SpliceElsewhere(d4, bt, table, t, t + TABLE_BYTES);
    SpliceHere(d3, b, back);
    SpliceElsewhere(d4, bt, table, b, b + SECTOR_SIZE);
    SpliceHere(d4, bt, table);
  }

  /** Outside the areas of the GPT itself a rewritten disk is the same. */
  lemma GptElsewhere(d: seq<byte>, g: Gpt, crc: Crc, lo: nat, hi: nat)
    requires g.Valid() && Placed(g, |d|) && g.header.tableStart == 2 &&
             34 * SECTOR_SIZE <= lo <= hi <= BackupTableAt(g.header)
    ensures hi <= |d| && WithGpt(d, g, crc)[lo..hi] == d[lo..hi]
  {
    hide Splice, EncodeMbr, EncodeHeader, EncodeTable, BackupHeader;
    var h := g.header;
    var (mbr, head, table, back) :=
        (EncodeMbr(g.mbr), EncodeHeader(h), EncodeTable(g.partitions), EncodeHeader(BackupHeader(h, crc)));
    var d1 := Splice(d, 0, mbr);
    var d2 := Splice(d1, SECTOR_SIZE, head);
    var d3 := Splice(d2, TableAt(h), table);
    var d4 := Splice(d3, BackupHeaderAt(h), back);
    SpliceElsewhere(d, 0, mbr, lo, hi);
    SpliceElsewhere(d1, SECTOR_SIZE, head, lo, hi);
    SpliceElsewhere(d2, TableAt(h), table, lo, hi);
    SpliceElsewhere(d3, BackupHeaderAt(h), back, lo, hi);
    SpliceElsewhere(d4, BackupTableAt(h), table, lo, hi);
  }

  /** Writing a GPT and reading it back is the identity on the protective MBR, the header and
      all 128 entries. */
  lemma GptReadBack(d: seq<byte>, g: Gpt, crc: Crc)
    requires g.Valid() && Placed(g, |d|) && g.header.signature == GPT_SIGNATURE && g.header.entrySize == ENTRY_BYTES
    requires g.mbr.sig55 == 0x55 && g.mbr.sigAA == 0xAA
    ensures ReadGpt(WithGpt(d, g, crc)) == Ok(g)
  {
    hide WithGpt, DecodeHeader, DecodeTable, EncodeHeader, EncodeTable, GPT_SIGNATURE;
    var r := WithGpt(d, g, crc);
    GptPieces(d, g, crc);
    HeaderRoundTrip(g.header, r, SECTOR_SIZE);
    TableRoundTrip(g.partitions, r, TableAt(g.header));
    assert r[..SECTOR_SIZE] == r[0..SECTOR_SIZE];
    MbrRoundTrip(g.mbr, r);
    assert DecodeMbr(r).sig55 == r[510] && DecodeMbr(r).sigAA == r[511];
    hide DecodeMbr, EncodeMbr;
  }

  /** A disk on which header, table and their backups lie in their places. */
  predicate Carries(r: seq<byte>, h: GptHeader, p: seq<GptEntry>, crc: Crc) {
    && h.Valid() && |p| == ENTRIES && ValidTable(p) && h.backupLba >= TABLE_SECTORS
    && 2 * SECTOR_SIZE <= |r| && TableAt(h) + TABLE_BYTES <= |r| && BackupHeaderAt(h) + SECTOR_SIZE <= |r|
    && r[SECTOR_SIZE..2 * SECTOR_SIZE] == EncodeHeader(h)
    && r[TableAt(h)..TableAt(h) + TABLE_BYTES] == EncodeTable(p)
    && r[BackupTableAt(h)..BackupTableAt(h) + TABLE_BYTES] == EncodeTable(p)
    && r[BackupHeaderAt(h)..BackupHeaderAt(h) + SECTOR_SIZE] == EncodeHeader(BackupHeader(h, crc))
  }

  lemma GptCarried(d: seq<byte>, g: Gpt, crc: Crc)
    requires g.Valid() && Placed(g, |d|)
    ensures Carries(WithGpt(d, g, crc), g.header, g.partitions, crc)
  {
    GptPieces(d, g, crc);
    hide WithGpt, EncodeHeader, EncodeTable, BackupHeader;
  }

  /** The two copies of a GPT: both checksums hold, each header names the other's sector, and both
      tables hold the same bytes, which both headers' table checksum covers. */
  predicate AgreeingCopies(r: seq<byte>, h: GptHeader, crc: Crc)
    requires h.Valid() && h.backupLba >= TABLE_SECTORS && 2 * SECTOR_SIZE <= |r|
    requires TableAt(h) + TABLE_BYTES <= |r| && BackupHeaderAt(h) + SECTOR_SIZE <= |r|
  {
    var b := DecodeHeader(r, BackupHeaderAt(h));
    && DecodeHeader(r, SECTOR_SIZE) == h && b == BackupHeader(h, crc) && CrcValid(h, crc) && CrcValid(b, crc)
    && b.startLba == h.backupLba && b.backupLba == h.startLba &&
       b.tableStart as int == h.backupLba as int - TABLE_SECTORS
    && r[TableAt(h)..TableAt(h) + TABLE_BYTES] == r[TableAt(b)..TableAt(b) + TABLE_BYTES]
    && h.tableCrc == b.tableCrc == crc(r[TableAt(b)..TableAt(b) + TABLE_BYTES])
  }

  /** Wherever a finished GPT lies on a disk, its two copies agree. */
  lemma CarriedCopiesAgree(r: seq<byte>, g0: Gpt, crc: Crc)
    requires g0.Valid() && g0.header.headerSize == 92
    requires var g := Finalized(g0, crc); Carries(r, g.header, g.partitions, crc)
    ensures AgreeingCopies(r, Finalized(g0, crc).header, crc)
  {
    hide DecodeHeader, EncodeHeader, EncodeTable;
    var h := Finalized(g0, crc).header;
    HeaderRoundTrip(h, r, SECTOR_SIZE);
    HeaderRoundTrip(BackupHeader(h, crc), r, BackupHeaderAt(h));
  }

  /** So do the copies of a finished GPT just written to a disk. */
  lemma CopiesAgree(d: seq<byte>, g0: Gpt, crc: Crc)
    requires g0.Valid() && Placed(g0, |d|) && g0.header.headerSize == 92
    ensures AgreeingCopies(WithGpt(d, Finalized(g0, crc), crc), Finalized(g0, crc).header, crc)
  {
    GptCarried(d, Finalized(g0, crc), crc);
    hide WithGpt, Finalized, AgreeingCopies, Carries;
    CarriedCopiesAgree(WithGpt(d, Finalized(g0, crc), crc), g0, crc);
  }
}
