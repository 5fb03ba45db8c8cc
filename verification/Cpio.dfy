/** The archive of early-init files in the "New ASCII" cpio format: its writer, and a reader
    that follows the format description. */
module Cpio {
  import opened Bytes

  datatype File = File(name: seq<byte>, data: seq<byte>, mode: u32)

  const MAGIC: seq<byte> := Ascii("070701")
  const TRAILER: seq<byte> := Ascii("TRAILER!!!")
  const HEADER := 110
  const EXECUTABLE: u32 := 33261

  /** A name and contents whose lengths fit the header's 32-bit fields. */
  predicate Storable(f: File) { |f.name| + 1 < 0x1_0000_0000 && |f.data| < 0x1_0000_0000 &&
                               forall i :: 0 <= i < |f.name| ==> f.name[i] != 0 }

  // ── Text of an archive ────────────────────────────────────────────────

  function HexNibble(n: nat): byte
    requires n < 16
  {
    if n < 10 then 48 + n else 65 + (n - 10)
  }

  function Hex(v: nat, n: nat): (s: seq<byte>)
    ensures |s| == n
  {
    if n == 0 then [] else Hex(v / 16, n - 1) + [HexNibble(v % 16)]
  }

  function PadTo4(n: nat): (p: nat)
    ensures p < 4 && (n + p) % 4 == 0
  {
    (4 - n % 4) % 4
  }

  function Zeros(n: nat): (s: seq<byte>)
    ensures |s| == n
  {
    seq(n, i => 0)
  }

  function Fields(f: File): seq<nat> { [1, f.mode, 0, 0, 1, 0, |f.data|, 0, 0, 0, 0, |f.name| + 1, 0] }

  function HexFields(fields: seq<nat>): (s: seq<byte>)
    ensures |s| == 8 * |fields|
  {
    if fields == [] then [] else Hex(fields[0], 8) + HexFields(fields[1..])
  }

  /** Header, name and their padding. */
  function Header(f: File): (s: seq<byte>)
    ensures |s| % 4 == 0 && |s| >= HEADER + |f.name| + 1
  {
    MAGIC + HexFields(Fields(f)) + f.name + [0] + Zeros(PadTo4(HEADER + |f.name| + 1))
  }

  function EntryText(f: File): seq<byte> { Header(f) + f.data + Zeros(PadTo4(|f.data|)) }

  function Archive(files: seq<File>): seq<byte> {
    if files == [] then EntryText(File(TRAILER, [], 0)) else EntryText(files[0]) + Archive(files[1..])
  }

  // ── Reading the format ────────────────────────────────────────────────

  function DigitValue(c: byte): Option<nat> {
    if 48 <= c <= 57 then Some(c - 48) else if 65 <= c <= 70 then Some(c - 55) else if 97 <= c <= 102 then Some(c - 87)
    else None
  }

  function FromHex(s: seq<byte>): Option<nat> {
    if s == [] then Some(0)
    else
      var (high, low) := (FromHex(s[..|s| - 1]), DigitValue(s[|s| - 1]));
      if high.Some? && low.Some? then Some(high.value * 16 + low.value) else None
  }

  /** Header field `k`, a number of eight hexadecimal digits. */
  function Field(s: seq<byte>, k: nat): Option<nat>
    requires HEADER <= |s| && k < 13
  {
    FromHex(s[6 + 8 * k..14 + 8 * k])
  }

  function CString(s: seq<byte>): (r: seq<byte>)
    ensures |r| <= |s|
  {
    if s == [] || s[0] == 0 then [] else [s[0]] + CString(s[1..])
  }

  /** The entry at the start of `s` and where the next one starts. */
  function ReadEntry(s: seq<byte>): Option<(File, nat)> {
    if |s| < HEADER || s[..6] != MAGIC then None
    else
      var (mode, size, nameSize) := (Field(s, 1), Field(s, 6), Field(s, 11));
      if mode.None? || size.None? || nameSize.None? || mode.value >= 0x1_0000_0000 then None
      else
        var dataAt := HEADER + nameSize.value + PadTo4(HEADER + nameSize.value);
        var next := dataAt + size.value + PadTo4(dataAt + size.value);
        if next > |s| then None
        else Some((File(CString(s[HEADER..HEADER + nameSize.value]), s[dataAt..dataAt + size.value], mode.value), next))
  }

  /** The files before the trailer. */
  function ReadArchive(s: seq<byte>): Option<seq<File>>
    decreases |s|
  {
    match ReadEntry(s)
    case None => None
    case Some((f, next)) =>
      if f.name == TRAILER then Some([])
      else if next == 0 || next > |s| then None
      else match ReadArchive(s[next..]) case None => None case Some(more) => Some([f] + more)
  }

  // ── Round trip ────────────────────────────────────────────────────────

  function Pow16(n: nat): nat { if n == 0 then 1 else 16 * Pow16(n - 1) }

  lemma {:induction false} HexReadBack(v: nat, n: nat)
    requires v < Pow16(n)
    ensures FromHex(Hex(v, n)) == Some(v)
  {
    if n > 0 {
      HexReadBack(v / 16, n - 1);
      var s := Hex(v, n);
      assert s[..n - 1] == Hex(v / 16, n - 1) && s[n - 1] == HexNibble(v % 16);
    }
  }

  lemma {:induction false} FieldAt(fields: seq<nat>, k: nat)
    requires k < |fields|
    ensures HexFields(fields)[8 * k..8 * k + 8] == Hex(fields[k], 8)
  {
    var s := HexFields(fields);
    if k > 0 {
      FieldAt(fields[1..], k - 1);
      assert s[8..] == HexFields(fields[1..]);
      assert s[8 * k..8 * k + 8] == s[8..][8 * (k - 1)..8 * (k - 1) + 8];
    }
  }

  lemma HeaderField(f: File, rest: seq<byte>, k: nat)
    requires k < 13 && Fields(f)[k] < 0x1_0000_0000
    ensures Field(Header(f) + rest, k) == Some(Fields(f)[k])
  {
    hide Hex, FromHex, Fields, MAGIC;
    var s := Header(f) + rest;
    assert |MAGIC| == 6 && |Fields(f)| == 13 by { ThirteenFields(f); }
    FieldAt(Fields(f), k);
    assert s[6..110] == HexFields(Fields(f));
    assert s[6 + 8 * k..14 + 8 * k] == s[6..110][8 * k..8 * k + 8];
    assert Pow16(8) == 0x1_0000_0000;
    HexReadBack(Fields(f)[k], 8);
  }

  lemma ThirteenFields(f: File)
    ensures |MAGIC| == 6 && |Fields(f)| == 13
  {
  }

  lemma {:induction false} NameUpToNul(name: seq<byte>, rest: seq<byte>)
    requires forall i :: 0 <= i < |name| ==> name[i] != 0
    ensures CString(name + [0] + rest) == name
  {
    var s := name + [0] + rest;
    if name != [] {
      NameUpToNul(name[1..], rest);
      assert s[1..] == name[1..] + [0] + rest;
    }
  }

  lemma EntryReadBack(f: File, rest: seq<byte>)
    requires Storable(f)
    ensures ReadEntry(EntryText(f) + rest) == Some((f, |EntryText(f)|))
  {
    hide Fields, HexFields, Field, MAGIC, FromHex, CString, PadTo4;
    var s, h := EntryText(f) + rest, Header(f);
    var tail := f.data + Zeros(PadTo4(|f.data|)) + rest;
    assert s == h + tail;
    assert Fields(f)[1] == f.mode as int && Fields(f)[6] == |f.data| && Fields(f)[11] == |f.name| + 1 &&
           |Fields(f)| == 13 by { FieldValues(f); }
    HeaderField(f, tail, 1);
    HeaderField(f, tail, 6);
    HeaderField(f, tail, 11);
    assert |MAGIC| == 6 by { ThirteenFields(f); }
    assert s[..6] == MAGIC;
    assert s[HEADER..HEADER + (|f.name| + 1)] == f.name + [0] + [];
    NameUpToNul(f.name, []);
    assert s[|h|..|h| + |f.data|] == f.data;
    SamePad(|h|, |f.data|);
  }

  lemma FieldValues(f: File)
    ensures Fields(f)[1] == f.mode as int && Fields(f)[6] == |f.data| && Fields(f)[11] == |f.name| + 1 &&
            |Fields(f)| == 13
  {
  }

  lemma SamePad(a: nat, b: nat)
    requires a % 4 == 0
    ensures PadTo4(a + b) == PadTo4(b)
  {
  }

  /** Reading an archive returns the files it was built from, whatever follows it. */
  lemma {:induction false} ArchiveReadBack(files: seq<File>, rest: seq<byte>)
    requires forall i :: 0 <= i < |files| ==> Storable(files[i]) && files[i].name != TRAILER
    ensures ReadArchive(Archive(files) + rest) == Some(files)
    decreases |files|
  {
    hide EntryText, ReadEntry, TRAILER;
    if files == [] {
      TrailerStorable();
      EntryReadBack(File(TRAILER, [], 0), rest);
    } else {
      var f, more := files[0], Archive(files[1..]) + rest;
      EntryReadBack(f, more);
      assert Archive(files) + rest == EntryText(f) + more;
      assert (EntryText(f) + more)[|EntryText(f)|..] == more;
      EntryNonempty(f);
      ArchiveReadBack(files[1..], rest);
      assert [f] + files[1..] == files;
    }
  }

  lemma EntryNonempty(f: File)
    ensures |EntryText(f)| > 0
  {
  }

  lemma TrailerStorable()
    ensures Storable(File(TRAILER, [], 0))
  {
  }

  lemma EntryAligned(f: File)
    ensures |Header(f)| % 4 == 0 && |EntryText(f)| % 4 == 0 && |Header(f)| + |f.data| <= |EntryText(f)|
    ensures EntryText(f)[|Header(f)|..|Header(f)| + |f.data|] == f.data
  {
    hide Header, PadTo4;
    MultipleSum(|Header(f)|, |f.data| + PadTo4(|f.data|));
  }

  lemma MultipleSum(a: nat, b: nat)
    requires a % 4 == 0 && b % 4 == 0
    ensures (a + b) % 4 == 0
  {
  }

  /** Where entry `k` of an archive starts. */
  function Offset(files: seq<File>, k: nat): nat
    requires k <= |files|
    decreases k
  {
    if k == 0 then 0 else |EntryText(files[0])| + Offset(files[1..], k - 1)
  }

  lemma Shifted(a: seq<byte>, t: seq<byte>, i: nat, j: nat)
    requires i <= j <= |t|
    ensures (a + t)[|a| + i..|a| + j] == t[i..j]
  {
  }

  predicate PlacedAt(archive: seq<byte>, at: nat, entry: seq<byte>) {
    at % 4 == 0 && at + |entry| <= |archive| && archive[at..at + |entry|] == entry
  }

  lemma PlacedBehind(first: seq<byte>, rest: seq<byte>, at: nat, entry: seq<byte>)
    requires |first| % 4 == 0 && PlacedAt(rest, at, entry)
    ensures PlacedAt(first + rest, |first| + at, entry)
  {
    MultipleSum(|first|, at);
    Shifted(first, rest, at, at + |entry|);
  }

  lemma {:induction false} EntryPlace(files: seq<File>, k: nat)
    requires k < |files|
    ensures PlacedAt(Archive(files), Offset(files, k), EntryText(files[k]))
    decreases k
  {
    hide EntryText, PlacedAt;
    EntryAligned(files[0]);
    if k > 0 {
      EntryPlace(files[1..], k - 1);
      PlacedBehind(EntryText(files[0]), Archive(files[1..]), Offset(files[1..], k - 1), EntryText(files[k]));
    } else {
      PlacedFirst(EntryText(files[0]), Archive(files[1..]));
    }
  }

  lemma PlacedFirst(first: seq<byte>, rest: seq<byte>)
    ensures PlacedAt(first + rest, 0, first)
  {
  }

  /** Headers and contents start at multiples of four. */
  lemma Aligned(files: seq<File>, k: nat)
    requires k < |files|
    ensures var (at, f) := (Offset(files, k), files[k]);
            && at % 4 == 0 && (at + |Header(f)|) % 4 == 0 && at + |Header(f)| + |f.data| <= |Archive(files)|
            && Archive(files)[at..at + |Header(f)|] == Header(f)
            && Archive(files)[at + |Header(f)|..at + |Header(f)| + |f.data|] == f.data
  {
    hide Header, PadTo4, Archive, Offset;
    EntryPlace(files, k);
    EntryAligned(files[k]);
    var (at, f, s) := (Offset(files, k), files[k], Archive(files));
    var h, n := |Header(f)|, |EntryText(f)|;
    MultipleSum(at, h);
    SubSlice(s, at, at + n, 0, h);
    SubSlice(s, at, at + n, h, h + |f.data|);
    assert EntryText(f)[0..h] == Header(f);
  }

  lemma SubSlice(s: seq<byte>, i: nat, j: nat, a: nat, b: nat)
    requires i <= j <= |s| && a <= b <= j - i
    ensures s[i..j][a..b] == s[i + a..i + b]
  {
    assert forall k :: 0 <= k < b - a ==> s[i..j][a..b][k] == s[i..j][a + k];
  }

  // ── The writer ────────────────────────────────────────────────────────

  lemma {:induction false} HexDigitAt(v: nat, n: nat, k: nat)
    requires k < n
    ensures Hex(v, n)[k] == HexNibble(Nibble(v, n - 1 - k))
  {
    if k < n - 1 { HexDigitAt(v / 16, n - 1, k); }
  }

  method PutHex8(buf: array<byte>, pos: nat, v: nat)
    requires pos + 8 <= buf.Length
    modifies buf
    ensures buf[..] == Splice(old(buf[..]), pos, Hex(v, 8))
  {
    hide HexNibble, Hex, Nibble;
    for i := 0 to 8
      invariant buf[..] == Splice(old(buf[..]), pos, Hex(v, 8)[..i])
    {
      HexDigitAt(v, 8, i);
      buf[pos + i] := HexNibble(Nibble(v, 7 - i));
    }
    assert Hex(v, 8)[..8] == Hex(v, 8);
  }

  method PutFields(buf: array<byte>, pos: nat, fields: seq<nat>)
    requires pos + 8 * |fields| <= buf.Length
    modifies buf
    ensures buf[..] == Splice(old(buf[..]), pos, HexFields(fields))
  {
    hide Hex;
    ghost var before := buf[..];
    for k := 0 to |fields|
      invariant buf[..] == Splice(before, pos, HexFields(fields[..k]))
    {
      PutHex8(buf, pos + 8 * k, fields[k]);
      FieldsGrow(fields, k);
      SpliceMore(before, pos, HexFields(fields[..k]), Hex(fields[k], 8));
    }
    assert fields[..|fields|] == fields;
  }

  lemma {:induction false} FieldsJoin(a: seq<nat>, b: seq<nat>)
    ensures HexFields(a + b) == HexFields(a) + HexFields(b)
  {
    hide Hex;
    if a == [] {
      assert a + b == b;
    } else {
      assert (a + b)[1..] == a[1..] + b;
      FieldsJoin(a[1..], b);
    }
  }

  lemma FieldsGrow(fields: seq<nat>, k: nat)
    requires k < |fields|
    ensures HexFields(fields[..k + 1]) == HexFields(fields[..k]) + Hex(fields[k], 8)
  {
    hide Hex;
    assert fields[..k + 1] == fields[..k] + [fields[k]];
    FieldsJoin(fields[..k], [fields[k]]);
    assert [fields[k]][1..] == [] && Hex(fields[k], 8) + [] == Hex(fields[k], 8);
  }

  lemma SpliceMore(s: seq<byte>, pos: nat, a: seq<byte>, b: seq<byte>)
    requires pos + |a| + |b| <= |s|
    ensures Splice(Splice(s, pos, a), pos + |a|, b) == Splice(s, pos, a + b)
  {
  }

  method NewcHeader(buf: array<byte>, at: nat, f: File) returns (n: nat)
    requires at + |Header(f)| <= buf.Length
    modifies buf
    ensures n == |Header(f)| && buf[..] == Splice(old(buf[..]), at, Header(f))
  {
    hide HexFields, Fields, PadTo4, MAGIC, Splice, Zeros;
    ghost var before := buf[..];
    ThirteenFields(f);
    HeaderLength(f);
    CopyInto(buf, at, MAGIC);
    PutFields(buf, at + 6, Fields(f));
    SpliceMore(before, at, MAGIC, HexFields(Fields(f)));
    CopyInto(buf, at + HEADER, f.name);
    SpliceMore(before, at, MAGIC + HexFields(Fields(f)), f.name);
    var pad := PadTo4(HEADER + |f.name| + 1);
    CopyInto(buf, at + HEADER + |f.name|, [0]);
    SpliceMore(before, at, MAGIC + HexFields(Fields(f)) + f.name, [0]);
    CopyInto(buf, at + HEADER + |f.name| + 1, Zeros(pad));
    SpliceMore(before, at, MAGIC + HexFields(Fields(f)) + f.name + [0], Zeros(pad));
    n := HEADER + |f.name| + 1 + pad;
  }

  /** Appends one entry if there is room for all of it. */
  method AppendEntry(cpio: array<byte>, off: nat, f: File) returns (ok: bool, newOff: nat)
    requires off <= cpio.Length && off % 4 == 0
    modifies cpio
    ensures ok == (off + |EntryText(f)| <= cpio.Length)
    ensures ok ==> newOff == off + |EntryText(f)| && cpio[..newOff] == old(cpio[..off]) + EntryText(f)
  {
    hide Header, PadTo4;
    var nlen := |f.name| + 1;
    var hlen := HEADER + nlen + PadTo4(HEADER + nlen);
    HeaderLength(f);
    var pad := PadTo4(off + hlen + |f.data|);
    EntryPad(off, hlen, |f.data|);
    assert EntryText(f) == Header(f) + f.data + Zeros(pad);
    hide EntryText, Splice, Zeros;
    if off + hlen + |f.data| + pad > cpio.Length { return false, off; }
    ghost var before := cpio[..];
    var n := NewcHeader(cpio, off, f);
    CopyInto(cpio, off + n, f.data);
    SpliceMore(before, off, Header(f), f.data);
    CopyInto(cpio, off + n + |f.data|, Zeros(pad));
    SpliceMore(before, off, Header(f) + f.data, Zeros(pad));
    ok, newOff := true, off + n + |f.data| + pad;
    SplicedTail(before, off, EntryText(f));
  }

  lemma HeaderLength(f: File)
    ensures |Header(f)| == HEADER + (|f.name| + 1) + PadTo4(HEADER + (|f.name| + 1)) && |Header(f)| % 4 == 0
  {
    hide Fields, HexFields, MAGIC, PadTo4;
    ThirteenFields(f);
  }

  lemma EntryPad(off: nat, hlen: nat, size: nat)
    requires off % 4 == 0 && hlen % 4 == 0
    ensures PadTo4(off + hlen + size) == PadTo4(size)
  {
    MultipleSum(off, hlen);
    SamePad(off + hlen, size);
  }

  lemma SplicedTail(s: seq<byte>, at: nat, data: seq<byte>)
    requires at + |data| <= |s|
    ensures Splice(s, at, data)[..at + |data|] == s[..at] + data
  {
  }

  // ── The whole archive ─────────────────────────────────────────────────

  /** The writer's upper bound for one entry. */
  function EntrySize(nameLen: nat, dataLen: nat): nat {
    HEADER + (nameLen + 1 + PadTo4(HEADER + nameLen + 1)) + dataLen + 3
  }

  function Estimate(files: seq<File>): nat {
    if files == [] then EntrySize(10, 0) + 8 else EntrySize(|files[0].name|, |files[0].data|) + 8 + Estimate(files[1..])
  }

  function RoundUp2048(n: nat): (r: nat)
    ensures n <= r < n + 2048 && r % 2048 == 0
  {
    (n + 2047) / 2048 * 2048
  }

  lemma {:induction false} EstimateSuffices(files: seq<File>)
    ensures |Archive(files)| <= Estimate(files)
  {
    hide Header, PadTo4, TRAILER;
    if files == [] {
      assert |TRAILER| == 10 by { TrailerLength(); }
      HeaderLength(File(TRAILER, [], 0));
    } else {
      HeaderLength(files[0]);
      EstimateSuffices(files[1..]);
    }
  }

  lemma TrailerLength()
    ensures |TRAILER| == 10
  {
  }

  /** Builds the archive in a buffer of the estimated size; it always fits. */
  method BuildArchive(files: seq<File>) returns (cpio: array<byte>, size: nat)
    ensures fresh(cpio) && size <= cpio.Length && cpio.Length % 2048 == 0 && cpio[..size] == Archive(files)
  {
    hide EntryText, Archive, Estimate, TRAILER;
    cpio := new byte[RoundUp2048(Estimate(files))](i => 0);
    EstimateSuffices(files);
    size := 0;
    assert files[0..] == files && cpio[..0] + Archive(files) == Archive(files);
    for i := 0 to |files|
      invariant size <= cpio.Length && size % 4 == 0 && |Archive(files)| <= cpio.Length
      invariant cpio[..size] + Archive(files[i..]) == Archive(files)
    {
      ArchiveStep(files, i);
      EntryAligned(files[i]);
      assert |cpio[..size] + (EntryText(files[i]) + Archive(files[i + 1..]))| <= cpio.Length;
      assert cpio[..size] + (EntryText(files[i]) + Archive(files[i + 1..])) ==
             cpio[..size] + EntryText(files[i]) + Archive(files[i + 1..]);
      var ok, newSize := AppendEntry(cpio, size, files[i]);
      MultipleSum(size, |EntryText(files[i])|);
      size := newSize;
    }
    ArchiveEnd(files[|files|..]);
    var ok, newSize := AppendEntry(cpio, size, File(TRAILER, [], 0));
    size := newSize;
  }

  lemma ArchiveStep(files: seq<File>, i: nat)
    requires i < |files|
    ensures Archive(files[i..]) == EntryText(files[i]) + Archive(files[i + 1..])
  {
    hide EntryText;
    assert files[i..][1..] == files[i + 1..];
  }

  lemma ArchiveEnd(files: seq<File>)
    requires files == []
    ensures Archive(files) == EntryText(File(TRAILER, [], 0))
  {
  }

  /** The archive with the early-init program: its only file before the trailer. */
  method BuildPremountCpio(init: seq<byte>) returns (cpio: array<byte>, size: nat)
    requires |init| < 0x1_0000_0000
    ensures fresh(cpio) && size <= cpio.Length &&
            ReadArchive(cpio[..size]) == Some([File(Ascii("init.choosable"), init, EXECUTABLE)])
  {
    hide Ascii, Archive, ReadArchive, Storable, TRAILER;
    var f := File(Ascii("init.choosable"), init, EXECUTABLE);
    InitStorable(init);
    cpio, size := BuildArchive([f]);
    ArchiveReadBack([f], []);
    assert Archive([f]) + [] == Archive([f]);
  }

  lemma InitStorable(init: seq<byte>)
    requires |init| < 0x1_0000_0000
    ensures Storable(File(Ascii("init.choosable"), init, EXECUTABLE)) && Ascii("init.choosable") != TRAILER
  {
    assert |Ascii("init.choosable")| == 14 && |TRAILER| == 10;
  }
}
