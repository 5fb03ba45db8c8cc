/** The PARTUUID handed to the early-init program, in terms of the bytes on the disk. */
module PartitionIdentity {
  import opened Bytes
  import opened BootArgs
  import opened PartitionTables
  import opened Installer
  import opened BootReaders

  /** A lower-case hexadecimal digit. */
  function Digit(v: nat): byte
    requires v < 16
  {
    Ascii("0123456789abcdef")[v]
  }

  /** Bytes as pairs of lower-case hexadecimal digits. */
  function Pairs(s: seq<byte>): (t: seq<byte>)
    ensures |t| == 2 * |s|
  {
    if s == [] then [] else [Digit(s[0] as int / 16), Digit(s[0] as int % 16)] + Pairs(s[1..])
  }

  /** Appendix A of the UEFI specification: the text form of the sixteen bytes of a GUID. The
      first three fields are stored in little-endian byte order. */
  function Standard(u: seq<byte>): (t: seq<byte>)
    requires |u| == 16
    ensures |t| == 36
  {
    Pairs(Reversed(u[0..4])) + DASH + Pairs(Reversed(u[4..6])) + DASH + Pairs(Reversed(u[6..8])) + DASH
    + Pairs(u[8..10]) + DASH + Pairs(u[10..16])
  }

  // ── Hexadecimal text ──────────────────────────────────────────────────

  lemma DigitIs(v: nat)
    requires v < 16
    ensures HexDigit(v) == Digit(v)
  {
    assert Ascii("0123456789abcdef") == [48, 49, 50, 51, 52, 53, 54, 55, 56, 57, 97, 98, 99, 100, 101, 102];
  }

  lemma NibbleHigh(v: nat, b: byte, w: nat, i: nat)
    requires w == 256 * v + b as int
    ensures Nibble(w, i + 2) == Nibble(v, i)
  {
    assert w / 16 / 16 == v;
    assert Nibble(w, i + 2) == Nibble(w / 16, i + 1) == Nibble(w / 16 / 16, i);
  }

  lemma PairOf(b: byte)
    ensures Pairs([b]) == [HexDigit(b as int / 16), HexDigit(b as int % 16)]
  {
    DigitIs(b as int / 16);
    DigitIs(b as int % 16);
    hide Digit, HexDigit;
    assert [b][1..] == [];
  }

  lemma LowDigits(v: nat, b: byte)
    ensures (256 * v + b) % 16 == b as int % 16 && (256 * v + b) / 16 == 16 * v + b as int / 16
    ensures (16 * v + b as int / 16) % 16 == b as int / 16
  {
  }

  lemma LastPair(v: nat, b: byte)
    ensures HexText(256 * v + b, 2) == Pairs([b])
  {
    PairOf(b);
    LowDigits(v, b);
    LastDigits(256 * v + b as int);
    hide HexDigit, Pairs, HexText;
  }

  lemma LastDigits(w: nat)
    ensures HexText(w, 2) == [HexDigit(w / 16 % 16), HexDigit(w % 16)]
  {
    hide HexDigit;
    assert Nibble(w, 1) == Nibble(w / 16, 0) && Nibble(w, 0) == w % 16;
    assert HexText(w, 2) == [HexDigit(Nibble(w, 1))] + HexText(w, 1);
    assert HexText(w, 1) == [HexDigit(Nibble(w, 0))] + HexText(w, 0);
  }

  /** The low byte of a number is its last pair of digits. */
  lemma {:induction false} HexShift(v: nat, b: byte, w: nat, n: nat)
    requires w == 256 * v + b as int
    ensures HexText(w, n + 2) == HexText(v, n) + Pairs([b])
    decreases n
  {
    hide HexDigit, Pairs, Nibble;
    if n == 0 {
      LastPair(v, b);
      assert HexText(v, 0) + Pairs([b]) == Pairs([b]);
    } else {
      NibbleHigh(v, b, w, n - 1);
      HexShift(v, b, w, n - 1);
      HexFirst(w, n + 2);
      HexFirst(v, n);
      hide HexText;
      var x := [HexDigit(Nibble(v, n - 1))];
      assert x + (HexText(v, n - 1) + Pairs([b])) == x + HexText(v, n - 1) + Pairs([b]);
    }
  }

  lemma HexFirst(v: nat, n: nat)
    requires n > 0
    ensures HexText(v, n) == [HexDigit(Nibble(v, n - 1))] + HexText(v, n - 1)
  {
  }

  lemma {:induction false} PairsJoin(a: seq<byte>, b: seq<byte>)
    ensures Pairs(a + b) == Pairs(a) + Pairs(b)
  {
    hide Digit;
    if a == [] {
      assert a + b == b;
    } else {
      assert (a + b)[1..] == a[1..] + b;
      PairsJoin(a[1..], b);
    }
  }

  /** A little-endian field as text: its bytes in reverse. */
  lemma Hex32(s: seq<byte>, at: nat)
    requires at + 4 <= |s|
    ensures HexText(FromLe32(s, at), 8) == Pairs(Reversed(s[at..at + 4]))
  {
    hide Pairs, HexText;
    var (a, b, c, d) := (s[at], s[at + 1], s[at + 2], s[at + 3]);
    HexOfPair(d, c);
    var v := d as int * 256 + c as int;
    HexShift(v, b, v * 256 + b as int, 4);
    HexShift(v * 256 + b as int, a, FromLe32(s, at), 6);
    PairsJoin([d, c], [b]);
    PairsJoin([d, c, b], [a]);
    assert [d, c] + [b] == [d, c, b] && [d, c, b] + [a] == [d, c, b, a];
    assert Reversed(s[at..at + 4]) == [d, c, b, a];
  }

  lemma HexOfPair(hi: byte, lo: byte)
    ensures HexText(hi as int * 256 + lo as int, 4) == Pairs([hi, lo])
  {
    hide Pairs, HexText;
    NoDigits();
    HexShift(0, hi, hi, 0);
    HexShift(hi, lo, hi as int * 256 + lo as int, 2);
    PairsJoin([hi], [lo]);
    assert [hi] + [lo] == [hi, lo];
    assert [] + Pairs([hi]) == Pairs([hi]);
  }

  lemma NoDigits()
    ensures HexText(0, 0) == []
  {
  }

  lemma Hex16(s: seq<byte>, at: nat)
    requires at + 2 <= |s|
    ensures HexText(FromLe16(s, at), 4) == Pairs(Reversed(s[at..at + 2]))
  {
    hide Pairs, HexText;
    HexOfPair(s[at + 1], s[at]);
    assert Reversed(s[at..at + 2]) == [s[at + 1], s[at]];
  }

  lemma HexByte(b: byte)
    ensures HexText(b, 2) == Pairs([b])
  {
    hide Pairs, HexText;
    NoDigits();
    HexShift(0, b, b, 0);
    assert [] + Pairs([b]) == Pairs([b]);
  }

  lemma {:induction false} HexOfBytes(s: seq<byte>)
    ensures HexBytes(s) == Pairs(s)
  {
    hide HexText;
    if s != [] {
      HexByte(s[0]);
      PairsJoin([s[0]], s[1..]);
      assert [s[0]] + s[1..] == s;
      HexOfBytes(s[1..]);
    }
  }

  // ── Partitions ────────────────────────────────────────────────────────

  /** The text of a GPT partition is the standard form of the unique GUID in its table entry. */
  lemma GuidTextIsStandard(s: seq<byte>, at: nat)
    requires at + 32 <= |s|
    ensures GuidText(GuidAt(s, at)) == Standard(s[at + 16..at + 32])
  {
    hide Pairs, HexText, HexBytes, FromLe32, FromLe16, Reversed;
    var u := s[at + 16..at + 32];
    Hex32(s, at + 16);
    Hex16(s, at + 20);
    Hex16(s, at + 22);
    Inside(s, at + 16, u, 0, 4);
    Inside(s, at + 16, u, 4, 6);
    Inside(s, at + 16, u, 6, 8);
    var d4 := s[at + 24..at + 32];
    Inside(s, at + 24, d4, 0, 2);
    Inside(s, at + 24, d4, 2, 8);
    Inside(s, at + 16, u, 8, 10);
    Inside(s, at + 16, u, 10, 16);
    assert d4[..2] == u[8..10] && d4[2..] == u[10..16];
    HexOfBytes(d4[..2]);
    HexOfBytes(d4[2..]);
  }

  /** The text of an MBR partition is its disk signature, most significant byte first, and its number. */
  lemma MbrTextIsSignature(d: seq<byte>, number: byte)
    requires |d| >= SECTOR_SIZE
    ensures MbrText(MbrGuid(d), number) == Pairs(Reversed(d[440..444])) + DASH + Pairs([number])
  {
    hide Pairs, HexText, FromLe32, Reversed, MbrGuid, MbrText;
    MbrPartUuid(d, number);
    Hex32(d, 440);
    HexByte(number);
  }

  lemma EntryGuidText(e: GptEntry)
    requires e.Valid()
    ensures GuidText(GuidAt(EncodeEntry(e), 0)) == Standard(e.uniqueGuid)
  {
    hide GuidText, GuidAt, EncodeEntry, Standard;
    GuidTextIsStandard(EncodeEntry(e), 0);
    EntryParts(e);
  }

  /** On every GPT disk that begins with a data partition, as the installer writes it, the UEFI
      loader hands that partition's own GUID on, in the standard form. */
  lemma GptIdentity(d: seq<byte>, h: GptHeader, p: seq<GptEntry>) returns (found: DataPartition)
    requires CarriesGpt(d, h, p)
    requires p[0].typeGuid == BASIC_DATA && 0 < p[0].startLba as int <= p[0].endLba as int < 0xFFFF_FFFF_FFFF_FFFF
    ensures UefiPartition(d) == Some(found) && p[0].Valid() && found.guid.Valid()
    ensures !found.isMbr && GuidText(found.guid) == Standard(p[0].uniqueGuid)
  {
    var e := p[0];
    assert e.Valid();
    hide UefiPartition, BiosPartitions, Standard, GuidText, GuidAt, EncodeEntry, CarriesGpt;
    GptInstallFound(d, h, p);
    EntryGuidText(e);
    found := DataPartition(e.startLba as int, GuidAt(EncodeEntry(e), 0), 1, false);
  }

  /** On an installed MBR disk it hands the disk signature on that the installer drew. */
  lemma MbrIdentity(d: seq<byte>, img: seq<byte>, stage2: seq<byte>, guid: seq<byte>, part2: nat)
    requires |d| >= DATA_START && PART1_START < part2 < 0x1_0000_0000 && |guid| == 16
    ensures var r := MbrInstalled(d, img, stage2, guid, part2);
            MbrText(MbrGuid(r), 1) == Pairs(Reversed(guid[12..16])) + Ascii("-01")
  {
    var r := MbrInstalled(d, img, stage2, guid, part2);
    hide MbrInstalled, MbrText, MbrGuid, MbrTableFor, DecodeMbr, Reversed;
    MbrTextIsSignature(r, 1);
    MbrInstalledReads(d, img, stage2, guid, part2);
    One();
    hide Pairs;
  }

  lemma One()
    ensures DASH + Pairs([1]) == Ascii("-01")
  {
    assert [1 as byte][1..] == [];
    assert Ascii("-01") == [45, 48, 49];
    DigitIs(0);
    DigitIs(1);
  }

  /** Flags, types, starts and lengths in a fresh MBR table, by byte position: an active data partition
      at sector 2048, the EFI system partition of 32 MiB behind it, and no other. */
  lemma MbrInstallTable(d: seq<byte>, img: seq<byte>, stage2: seq<byte>, guid: seq<byte>, part2: nat)
    requires |guid| == 16 && PART1_START <= part2 < 0x1_0000_0000 && |d| >= DATA_START
    ensures var r := MbrInstalled(d, img, stage2, guid, part2);
            && r[446] == 0x80 && r[450] == 0x07 && FromLe32(r, 454) == 2048 && FromLe32(r, 458) == part2 - 2048
            && r[462] == 0 && r[466] == 0xEF && FromLe32(r, 470) == part2 && FromLe32(r, 474) == 65536
            && FromLe32(r, 490) == 0 && FromLe32(r, 506) == 0
  {
    MbrInstalledReads(d, img, stage2, guid, part2);
    var r := MbrInstalled(d, img, stage2, guid, part2);
    FourEntries(r);
    hide FromLe32, FromLe16, ToChs, PackChs, EndLba, MbrInstalled, DecodeMbr;
    var t := MbrTableFor(part2);
    assert t[2] == t[3] == NO_MBR_ENTRY;
  }

  lemma FourEntries(r: seq<byte>)
    requires |r| >= SECTOR_SIZE
    ensures var p := DecodeMbr(r).partitions;
            && p[0] == DecodeMbrEntry(r, 446) && p[1] == DecodeMbrEntry(r, 462) && p[2] == DecodeMbrEntry(r, 478)
            && p[3] == DecodeMbrEntry(r, 494)
  {
    hide DecodeMbrEntry;
    assert DecodeMbrTable(r, 494, 1) == [DecodeMbrEntry(r, 494)] + DecodeMbrTable(r, 510, 0);
    assert DecodeMbrTable(r, 478, 2) == [DecodeMbrEntry(r, 478)] + DecodeMbrTable(r, 494, 1);
    assert DecodeMbrTable(r, 462, 3) == [DecodeMbrEntry(r, 462)] + DecodeMbrTable(r, 478, 2);
  }

  /** The name CZBLEFI in UTF-16, followed by zeros. */
  lemma NameOnDisk(e: GptEntry)
    requires e.Valid() && e.name == CzName()
    ensures EncodeEntry(e)[56..70] == [67, 0, 90, 0, 66, 0, 76, 0, 69, 0, 70, 0, 73, 0]
    ensures EncodeEntry(e)[70..128] == seq(58, i => 0)
  {
    hide EncodeEntry;
    EntryParts(e);
    var (t, u) := (EncodeEntry(e), Units(e.name));
    assert u[..14] == [67, 0, 90, 0, 66, 0, 76, 0, 69, 0, 70, 0, 73, 0];
    assert t[56..70] == t[56..128][..14] && t[70..128] == t[56..128][14..];
    forall i | 14 <= i < 72 ensures u[i] == 0 { assert e.name[i / 2] == 0; }
  }

  /** The partition types are C12A7328-F81F-11D2-BA4B-00A0C93EC93B and
      EBD0A0A2-B9E5-4433-87C0-68B6B72699C7. */
  lemma TypeGuids()
    ensures var t := EFI_TYPE;
            && Reversed(t[0..4]) == [0xC1, 0x2A, 0x73, 0x28] && Reversed(t[4..6]) == [0xF8, 0x1F]
            && Reversed(t[6..8]) == [0x11, 0xD2] && t[8..10] == [0xBA, 0x4B]
            && t[10..16] == [0x00, 0xA0, 0xC9, 0x3E, 0xC9, 0x3B]
    ensures var t := BASIC_DATA;
            && Reversed(t[0..4]) == [0xEB, 0xD0, 0xA0, 0xA2] && Reversed(t[4..6]) == [0xB9, 0xE5]
            && Reversed(t[6..8]) == [0x44, 0x33] && t[8..10] == [0x87, 0xC0]
            && t[10..16] == [0x68, 0xB6, 0xB7, 0x26, 0x99, 0xC7]
  {
  }
}
