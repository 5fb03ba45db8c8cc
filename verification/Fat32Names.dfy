/** Long file names of a FAT32 directory: fragments of 13 characters, last one first. */
module Fat32Names {
  import opened Bytes

  const ENTRY := 32
  const SECTOR := 512
  const PER_SECTOR := 16
  const LONG_NAME: byte := 0x0F
  const DELETED: byte := 0xE5
  const DOT: byte := 46
  const BLANK: byte := 32

  type Entry = e: seq<byte> | |e| == ENTRY witness seq(ENTRY, i => 0)

  /** Low bytes of the 13 characters of a fragment. */
  function Chars(e: Entry): (c: seq<byte>)
    ensures |c| == 13
  {
    [e[1], e[3], e[5], e[7], e[9], e[14], e[16], e[18], e[20], e[22], e[24], e[28], e[30]]
  }

  predicate EndMark(c: byte) { c == 0 || c == 0xFF }

  function CharCount(chars: seq<byte>): (n: nat)
    ensures n <= |chars|
  {
    if chars == [] || EndMark(chars[0]) then 0 else 1 + CharCount(chars[1..])
  }

  function Plain(c: byte): byte { if c < 0x80 then c else 63 }

  /** The scanner's memory of the fragments seen so far. */
  datatype Lfn = Lfn(buf: seq<byte>, len: nat, seqNo: nat, checksum: byte) {
    predicate Valid() { |buf| == 256 && len <= 255 && seqNo <= 20 }
  }

  /** The state a directory scan begins with. */
  function NoName(): Lfn { Lfn(seq(256, i => 0), 0, 0, 0) }

  /** Copies a fragment into the name buffer; only the first 255 places are used. */
  function WriteChars(buf: seq<byte>, at: nat, chars: seq<byte>): (r: seq<byte>)
    requires |buf| == 256
    ensures |r| == 256
    decreases |chars|
  {
    if chars == [] || EndMark(chars[0]) then buf
    else if at < 255 then WriteChars(buf[at := Plain(chars[0])], at + 1, chars[1..])
    else WriteChars(buf, at, chars[1..])
  }

  function SeqNo(e: Entry): nat { e[0] as int % 32 }

  predicate LastFlag(e: Entry) { e[0] as int / 64 % 2 == 1 }

  /** One fragment: a flagged one starts a name, the others must follow in order. */
  function TakeFragment(st: Lfn, e: Entry): (r: Lfn)
    requires st.Valid()
    ensures r.Valid()
  {
    if SeqNo(e) == 0 || SeqNo(e) > 20 then st
    else
      var started := if LastFlag(e)
                     then Lfn(st.buf, Least((SeqNo(e) - 1) * 13 + CharCount(Chars(e)), 255), SeqNo(e), e[13])
                     else st;
      if SeqNo(e) != started.seqNo || e[13] != started.checksum then started
      else started.(seqNo := started.seqNo - 1, buf := WriteChars(started.buf, (SeqNo(e) - 1) * 13, Chars(e)))
  }

  /** The 8.3 name in the directory entry itself. */
  function BasePart(e: Entry, j: nat, end: nat): seq<byte>
    requires j <= end <= 11
    decreases end - j
  {
    if j == end || e[j] == BLANK then [] else [e[j]] + BasePart(e, j + 1, end)
  }

  function ShortName(e: Entry): seq<byte> {
    BasePart(e, 0, 8) + if e[8] != BLANK then [DOT] + BasePart(e, 8, 11) else []
  }

  datatype Record = Record(name: seq<byte>, attr: byte, cluster: u32, size: u32)

  function NameOf(st: Lfn, e: Entry): seq<byte>
    requires st.Valid()
  {
    if st.len > 0 && st.buf[0] != 0 then st.buf[..st.len] else ShortName(e)
  }

  function ClusterOf(e: Entry): u32 { FromLe16(e, 26) as int + FromLe16(e, 20) as int * 0x1_0000 }

  function RecordOf(st: Lfn, e: Entry): Record
    requires st.Valid()
  {
    Record(NameOf(st, e), e[11], ClusterOf(e), FromLe32(e, 28))
  }

  predicate VolumeLabel(attr: byte) { attr as int / 8 % 2 == 1 }

  /** Sequence number, flag of the last fragment and label flag are the bits 0x1F, 0x40 and 0x08. */
  lemma Masks(e: Entry)
    ensures SeqNo(e) == (e[0] as bv8 & 0x1F) as int
    ensures LastFlag(e) <==> e[0] as bv8 & 0x40 != 0
    ensures VolumeLabel(e[11]) <==> e[11] as bv8 & 0x08 != 0
  {
  }

  /** A record of a file or directory, not a fragment, a label or a deleted record. */
  predicate Names(e: Entry) { e[0] != DELETED && e[11] != LONG_NAME && !VolumeLabel(e[11]) }

  function Step(st: Lfn, e: Entry): (r: Lfn)
    requires st.Valid()
    ensures r.Valid()
  {
    if e[0] != DELETED && e[11] == LONG_NAME then TakeFragment(st, e) else st.(len := 0)
  }

  /** The records the scanner finds in a run of directory entries. */
  function Records(st: Lfn, es: seq<Entry>): seq<Record>
    requires st.Valid()
    decreases |es|
  {
    if es == [] || es[0][0] == 0 then []
    else (if Names(es[0]) then [RecordOf(st, es[0])] else []) + Records(Step(st, es[0]), es[1..])
  }

  // ── How a name is written ─────────────────────────────────────────────

  /** An ASCII name. */
  predicate Named(name: seq<byte>) {
    1 <= |name| <= 255 && forall i :: 0 <= i < |name| ==> 0 < name[i] < 0x80
  }

  function FragmentCount(name: seq<byte>): nat { (|name| + 12) / 13 }

  /** Low byte at place `pos` of the written name: the name, a NUL, then FFh. */
  function LowByte(name: seq<byte>, pos: nat): byte {
    if pos < |name| then name[pos] else if pos == |name| then 0 else 0xFF
  }

  /** Byte of a fragment that holds the low byte of its character `j`: five characters from byte 1
      on, six from byte 14 and two from byte 28, two bytes each. */
  function CharPlace(j: nat): (p: nat)
    requires j < 13
    ensures p < ENTRY
  {
    if j < 5 then 1 + j * 2 else if j < 11 then 14 + (j - 5) * 2 else 28 + (j - 11) * 2
  }

  /** `e` is fragment `i` of a name, counted from 1; the high character bytes do not matter here. */
  predicate IsFragment(e: Entry, name: seq<byte>, checksum: byte, i: nat) {
    && i > 0 && e[0] as int == (if i == FragmentCount(name) then 0x40 + i else i)
    && e[11] == LONG_NAME && e[13] == checksum
    && forall j :: 0 <= j < 13 ==> e[CharPlace(j)] == LowByte(name, (i - 1) * 13 + j)
  }

  /** Fragments `i` down to 1, in the order they are written. */
  predicate AreFragments(es: seq<Entry>, name: seq<byte>, checksum: byte, i: nat)
    decreases i
  {
    |es| == i && (i > 0 ==> IsFragment(es[0], name, checksum, i) && AreFragments(es[1..], name, checksum, i - 1))
  }

  // ── Reading it back ───────────────────────────────────────────────────

  lemma {:induction false} CountIs(chars: seq<byte>, m: nat)
    requires m <= |chars| && (forall j :: 0 <= j < m ==> !EndMark(chars[j])) && (m < |chars| ==> EndMark(chars[m]))
    ensures CharCount(chars) == m
  {
    if m > 0 { CountIs(chars[1..], m - 1); }
  }

  lemma {:induction false} Written(buf: seq<byte>, at: nat, chars: seq<byte>, m: nat)
    requires |buf| == 256 && CharCount(chars) == m && at + m <= 255
    ensures forall p :: 0 <= p < 256 ==> WriteChars(buf, at, chars)[p] == if at <= p < at + m then Plain(chars[p - at])
                                                                          else buf[p]
    decreases |chars|
  {
    hide EndMark, Plain;
    if m > 0 { Written(buf[at := Plain(chars[0])], at + 1, chars[1..], m - 1); }
  }

  /** After the fragments above `i` the tail of the name is in place. */
  predicate Filled(st: Lfn, name: seq<byte>, checksum: byte, i: nat) {
    && st.Valid() && st.len == |name| <= 255 && st.seqNo == i && st.checksum == checksum
    && forall p :: i * 13 <= p < |name| ==> st.buf[p] == name[p]
  }

  /** Characters of fragment `i` that belong to the name. */
  function CharsIn(name: seq<byte>, i: nat): nat
    requires i > 0
  {
    if |name| <= (i - 1) * 13 then 0 else Least(13, |name| - (i - 1) * 13)
  }

  lemma CharsAt(e: Entry)
    ensures forall j :: 0 <= j < 13 ==> Chars(e)[j] == e[CharPlace(j)]
  {
  }

  lemma FragmentChars(e: Entry, name: seq<byte>, checksum: byte, i: nat)
    requires Named(name) && i <= FragmentCount(name) && IsFragment(e, name, checksum, i)
    ensures CharCount(Chars(e)) == CharsIn(name, i) > 0 &&
            forall j :: 0 <= j < CharsIn(name, i) ==> Plain(Chars(e)[j]) == name[(i - 1) * 13 + j]
  {
    CharsAt(e);
    hide Chars, CharPlace;
    CountIs(Chars(e), CharsIn(name, i));
  }

  lemma FragmentHeader(e: Entry, name: seq<byte>, checksum: byte, i: nat)
    requires Named(name) && i <= FragmentCount(name) && IsFragment(e, name, checksum, i)
    ensures 0 < SeqNo(e) == i <= 20 && (LastFlag(e) <==> i == FragmentCount(name))
    ensures e[0] != DELETED && e[11] == LONG_NAME && e[13] == checksum
    ensures |name| <= 255 && (i - 1) * 13 + CharsIn(name, i) == if i == FragmentCount(name) then |name| else i * 13
    ensures i < FragmentCount(name) ==> i * 13 <= |name|
  {
  }

  /** Any state takes up the first, flagged fragment: nothing of an earlier name remains in use. */
  lemma StartsName(st: Lfn, e: Entry, name: seq<byte>, checksum: byte)
    requires st.Valid() && Named(name) && IsFragment(e, name, checksum, FragmentCount(name))
    ensures Filled(Step(st, e), name, checksum, FragmentCount(name) - 1)
  {
    var k := FragmentCount(name);
    FragmentChars(e, name, checksum, k);
    FragmentHeader(e, name, checksum, k);
    hide Chars, CharCount, WriteChars, SeqNo, LastFlag, IsFragment, FragmentCount, CharsIn, Plain, Named;
    Written(st.buf, (k - 1) * 13, Chars(e), CharsIn(name, k));
  }

  lemma ContinuesName(st: Lfn, e: Entry, name: seq<byte>, checksum: byte, i: nat)
    requires Named(name) && 0 < i < FragmentCount(name) && IsFragment(e, name, checksum, i) &&
             Filled(st, name, checksum, i)
    ensures Filled(Step(st, e), name, checksum, i - 1)
  {
    FragmentChars(e, name, checksum, i);
    FragmentHeader(e, name, checksum, i);
    hide Chars, CharCount, WriteChars, SeqNo, LastFlag, IsFragment, FragmentCount, CharsIn, Plain, Named;
    Written(st.buf, (i - 1) * 13, Chars(e), CharsIn(name, i));
  }

  lemma FragmentSilent(st: Lfn, e: Entry, rest: seq<Entry>)
    requires st.Valid() && e[0] != 0 && e[11] == LONG_NAME
    ensures Records(st, [e] + rest) == Records(Step(st, e), rest)
  {
    hide TakeFragment;
    assert ([e] + rest)[1..] == rest;
  }

  lemma {:induction false} RestOfName(st: Lfn, es: seq<Entry>, name: seq<byte>, checksum: byte, i: nat,
                                      rest: seq<Entry>) returns (done: Lfn)
    requires Named(name) && i < FragmentCount(name) && AreFragments(es, name, checksum, i) &&
             Filled(st, name, checksum, i)
    ensures Filled(done, name, checksum, 0) && Records(st, es + rest) == Records(done, rest)
    decreases i
  {
    hide Step, Records, Filled;
    if i == 0 {
      assert es + rest == rest;
      return st;
    }
    FilledValid(st, name, checksum, i);
    ContinuesName(st, es[0], name, checksum, i);
    FragmentSilent(st, es[0], es[1..] + rest);
    assert [es[0]] + (es[1..] + rest) == es + rest;
    done := RestOfName(Step(st, es[0]), es[1..], name, checksum, i - 1, rest);
  }

  lemma FilledValid(st: Lfn, name: seq<byte>, checksum: byte, i: nat)
    requires Filled(st, name, checksum, i)
    ensures st.Valid()
  {
  }

  /** A name written as fragments is read back exactly, whatever the scanner remembers. */
  lemma LongNameReadBack(st: Lfn, es: seq<Entry>, name: seq<byte>, checksum: byte, e: Entry, rest: seq<Entry>)
    returns (after: Lfn)
    requires st.Valid() && Named(name) && AreFragments(es, name, checksum, FragmentCount(name)) && Names(e) && e[0] != 0
    ensures after.Valid() && after.len == 0
    ensures Records(st, es + [e] + rest) == [Record(name, e[11], ClusterOf(e), FromLe32(e, 28))] + Records(after, rest)
  {
    hide Records, TakeFragment, ClusterOf;
    var k := FragmentCount(name);
    StartsName(st, es[0], name, checksum);
    FragmentSilent(st, es[0], es[1..] + ([e] + rest));
    assert es + [e] + rest == [es[0]] + (es[1..] + ([e] + rest));
    var done := RestOfName(Step(st, es[0]), es[1..], name, checksum, k - 1, [e] + rest);
    after := done.(len := 0);
    RecordFound(done, e, rest);
    assert done.buf[..done.len] == name;
  }

  lemma RecordFound(st: Lfn, e: Entry, rest: seq<Entry>)
    requires st.Valid() && Names(e) && e[0] != 0
    ensures Records(st, [e] + rest) == [RecordOf(st, e)] + Records(st.(len := 0), rest)
  {
    hide RecordOf;
    assert ([e] + rest)[1..] == rest;
  }

  // ── Short names ───────────────────────────────────────────────────────

  /** The scanner has a name for the next record. */
  predicate HoldsName(st: Lfn)
    requires st.Valid()
  {
    st.len > 0 && st.buf[0] != 0
  }

  /** A record gets its own 8.3 name if and only if the scanner holds no name, or by chance that one. */
  lemma ShortNameIff(st: Lfn, e: Entry)
    requires st.Valid()
    ensures NameOf(st, e) == ShortName(e) <==> (HoldsName(st) ==> st.buf[..st.len] == ShortName(e))
  {
  }

  /** The eleven bytes of a base name and an extension, padded with blanks. */
  function Padded(part: seq<byte>, n: nat): (s: seq<byte>)
    requires |part| <= n
    ensures |s| == n
  {
    part + seq(n - |part|, i => BLANK)
  }

  lemma {:induction false} BasePartBack(e: Entry, j: nat, end: nat, part: seq<byte>)
    requires j <= end <= 11 && |part| <= end - j && e[j..end] == Padded(part, end - j)
    requires forall i :: 0 <= i < |part| ==> part[i] != BLANK
    ensures BasePart(e, j, end) == part
    decreases end - j
  {
    if j < end {
      assert e[j] == e[j..end][0];
      if part == [] {
        assert e[j] == BLANK;
      } else {
        assert e[j + 1..end] == e[j..end][1..] == Padded(part[1..], end - j - 1);
        BasePartBack(e, j + 1, end, part[1..]);
      }
    }
  }

  /** The name field of a record: base name and extension, each padded with blanks. */
  predicate NameField(e: Entry, base: seq<byte>, ext: seq<byte>) {
    && |base| <= 8 && |ext| <= 3 && e[0..8] == Padded(base, 8) && e[8..11] == Padded(ext, 3)
    && (forall i :: 0 <= i < |base| ==> base[i] != BLANK) && forall i :: 0 <= i < |ext| ==> ext[i] != BLANK
  }

  function DotName(base: seq<byte>, ext: seq<byte>): seq<byte> { base + if ext != [] then [DOT] + ext else [] }

  /** An 8.3 name written with blanks around it is read back with the dot, or without one when
      there is no extension. */
  lemma ShortNameReadBack(e: Entry, base: seq<byte>, ext: seq<byte>)
    requires NameField(e, base, ext)
    ensures ShortName(e) == DotName(base, ext)
  {
    BasePartBack(e, 0, 8, base);
    BasePartBack(e, 8, 11, ext);
    assert e[8] == e[8..11][0];
  }

  // ── The other fields ──────────────────────────────────────────────────

  /** What a record says besides its name. */
  datatype Meta = Meta(attr: byte, cluster: u32, size: u32)

  /** Section 6 of the Microsoft FAT specification, by byte position: attributes at 11, the halves of
      the first cluster at 20 and 26, the length at 28. */
  predicate Fields(e: Entry, m: Meta) {
    && e[11] == m.attr && e[20..22] == Le16(m.cluster / 0x1_0000) && e[26..28] == Le16(m.cluster % 0x1_0000)
    && e[28..32] == Le32(m.size)
  }

  lemma FieldsReadBack(e: Entry, m: Meta)
    requires Fields(e, m)
    ensures ClusterOf(e) == m.cluster && FromLe32(e, 28) == m.size
  {
    Le32RoundTrip(m.size, e, 28);
    hide Le32, FromLe32;
    HalfBack(e, 20, m.cluster / 0x1_0000);
    HalfBack(e, 26, m.cluster % 0x1_0000);
  }

  lemma HalfBack(e: Entry, at: nat, v: u16)
    requires at + 2 <= ENTRY && e[at..at + 2] == Le16(v)
    ensures FromLe16(e, at) == v
  {
    assert e[at] == e[at..at + 2][0] && e[at + 1] == e[at..at + 2][1];
  }

  // ── Whole directories ─────────────────────────────────────────────────

  /** What a directory is made of: records with a long name, records with an 8.3 name only, and
      left-overs that name nothing. */
  datatype Item =
    | File(fragments: seq<Entry>, name: seq<byte>, checksum: byte, entry: Entry, meta: Meta)
    | Short(base: seq<byte>, ext: seq<byte>, entry: Entry, meta: Meta)
    | LeftOver(entry: Entry)

  predicate WellWritten(it: Item) {
    it.entry[0] != 0 &&
    match it
    case File(fragments, name, checksum, entry, meta) =>
      && Named(name) && AreFragments(fragments, name, checksum, FragmentCount(name))
      && Names(entry) && Fields(entry, meta)
    case Short(base, ext, entry, meta) => Names(entry) && NameField(entry, base, ext) && Fields(entry, meta)
    case LeftOver(entry) => !Names(entry)
  }

  function EntriesOf(it: Item): seq<Entry> { if it.File? then it.fragments + [it.entry] else [it.entry] }

  function Written32(items: seq<Item>): seq<Entry> {
    if items == [] then [] else EntriesOf(items[0]) + Written32(items[1..])
  }

  function RecordFor(name: seq<byte>, m: Meta): Record { Record(name, m.attr, m.cluster, m.size) }

  function FilesOf(it: Item): seq<Record> {
    match it
    case File(_, name, _, _, meta) => [RecordFor(name, meta)]
    case Short(base, ext, _, meta) => [RecordFor(DotName(base, ext), meta)]
    case LeftOver(_) => []
  }

  function Files(items: seq<Item>): seq<Record> {
    if items == [] then [] else FilesOf(items[0]) + Files(items[1..])
  }

  function After(st: Lfn, es: seq<Entry>): (r: Lfn)
    requires st.Valid()
    ensures r.Valid()
    decreases |es|
  {
    if es == [] then st else After(Step(st, es[0]), es[1..])
  }

  /** Wherever a record has no long name, the scanner holds none, or by chance the right one. */
  predicate Clear(st: Lfn, items: seq<Item>)
    requires st.Valid()
    decreases |items|
  {
    items == [] ||
    (&& (items[0].Short? && HoldsName(st) ==> st.buf[..st.len] == DotName(items[0].base, items[0].ext))
     && Clear(After(st, EntriesOf(items[0])), items[1..]))
  }

  lemma {:induction false} RecordsSplit(st: Lfn, a: seq<Entry>, b: seq<Entry>)
    requires st.Valid() && forall i :: 0 <= i < |a| ==> a[i][0] != 0
    ensures Records(st, a + b) == Records(st, a) + Records(After(st, a), b)
    decreases |a|
  {
    hide Step, RecordOf, Names;
    if a == [] {
      assert a + b == b;
    } else {
      assert (a + b)[1..] == a[1..] + b;
      RecordsSplit(Step(st, a[0]), a[1..], b);
    }
  }

  lemma {:induction false} FragmentsGoOn(es: seq<Entry>, name: seq<byte>, checksum: byte, i: nat)
    requires Named(name) && i <= FragmentCount(name) && AreFragments(es, name, checksum, i)
    ensures forall k :: 0 <= k < |es| ==> es[k][0] != 0
  {
    if i > 0 {
      FragmentHeader(es[0], name, checksum, i);
      FragmentsGoOn(es[1..], name, checksum, i - 1);
      forall k | 0 <= k < |es| ensures es[k][0] != 0 { assert k > 0 ==> es[k] == es[1..][k - 1]; }
    }
  }

  lemma ItemRecords(st: Lfn, it: Item)
    requires st.Valid() && WellWritten(it)
    ensures forall k :: 0 <= k < |EntriesOf(it)| ==> EntriesOf(it)[k][0] != 0
    ensures Records(st, EntriesOf(it)) == if it.Short? then [RecordOf(st, it.entry)] else FilesOf(it)
  {
    match it
    case File(fragments, name, checksum, entry, meta) =>
      FieldsReadBack(entry, meta);
      FragmentsGoOn(fragments, name, checksum, FragmentCount(name));
      hide Records, ClusterOf, FromLe32, Fields;
      var after := LongNameReadBack(st, fragments, name, checksum, entry, []);
      NothingThere(after);
      assert fragments + [entry] + [] == fragments + [entry];
      assert Fields(entry, meta) ==> entry[11] == meta.attr by { AttrIs(entry, meta); }
    case Short(_, _, entry, _) =>
      RecordFound(st, entry, []);
      NothingThere(st.(len := 0));
    case LeftOver(entry) =>
      hide TakeFragment;
  }

  lemma AttrIs(e: Entry, m: Meta)
    ensures Fields(e, m) ==> e[11] == m.attr
  {
  }

  lemma NothingThere(st: Lfn)
    requires st.Valid()
    ensures Records(st, []) == []
  {
  }

  /** Every file of a directory is found under its own name, between any deleted records, labels
      and stray fragments, if and only if the scanner is clear wherever a record has no long name. */
  lemma {:induction false} DirectoryReadBack(st: Lfn, items: seq<Item>)
    requires st.Valid() && forall i :: 0 <= i < |items| ==> WellWritten(items[i])
    ensures Records(st, Written32(items)) == Files(items) <==> Clear(st, items)
    ensures |Records(st, Written32(items))| == |Files(items)|
    decreases |items|
  {
    if items == [] {
      NothingThere(st);
      return;
    }
    hide Records, WellWritten, EntriesOf, After, HoldsName, ShortName, ClusterOf;
    var it, es, rest := items[0], EntriesOf(items[0]), Written32(items[1..]);
    ItemRecords(st, it);
    RecordsSplit(st, es, rest);
    DirectoryReadBack(After(st, es), items[1..]);
    var head := Records(st, es);
    if it.Short? { ShortRecord(st, it); }
    assert |head| == |FilesOf(it)|;
    SameConcat(head, Records(After(st, es), rest), FilesOf(it), Files(items[1..]));
  }

  lemma ShortRecord(st: Lfn, it: Item)
    requires st.Valid() && it.Short? && WellWritten(it)
    ensures [RecordOf(st, it.entry)] == FilesOf(it) <==>
            (HoldsName(st) ==> st.buf[..st.len] == DotName(it.base, it.ext))
  {
    FieldsReadBack(it.entry, it.meta);
    AttrIs(it.entry, it.meta);
    ShortNameReadBack(it.entry, it.base, it.ext);
    ShortNameIff(st, it.entry);
    hide ShortName, ClusterOf, NameOf, HoldsName, DotName, FromLe32;
  }

  lemma SameConcat(a: seq<Record>, b: seq<Record>, c: seq<Record>, d: seq<Record>)
    requires |a| == |c|
    ensures a + b == c + d <==> a == c && b == d
  {
    if a + b == c + d {
      assert a == (a + b)[..|a|] && c == (c + d)[..|c|];
      assert b == (a + b)[|a|..] && d == (c + d)[|c|..];
    }
  }

  /** No stray fragment lies between a record without a long name and the record, label or
      deleted record before it. */
  predicate Settled(items: seq<Item>, pending: bool)
    decreases |items|
  {
    items == [] ||
    (&& (items[0].Short? ==> !pending)
     && Settled(items[1..], items[0].LeftOver? && items[0].entry[0] != DELETED && items[0].entry[11] == LONG_NAME))
  }

  lemma {:induction false} SettledIsClear(st: Lfn, items: seq<Item>, pending: bool)
    requires st.Valid() && Settled(items, pending) && (st.len == 0 || pending)
    requires forall i :: 0 <= i < |items| ==> WellWritten(items[i])
    ensures Clear(st, items)
    decreases |items|
  {
    if items != [] {
      hide Records, ShortName, AreFragments;
      var it, es := items[0], EntriesOf(items[0]);
      AfterLast(st, it);
      SettledIsClear(After(st, es), items[1..], it.LeftOver? && it.entry[0] != DELETED && it.entry[11] == LONG_NAME);
    }
  }

  lemma AfterLast(st: Lfn, it: Item)
    requires st.Valid() && WellWritten(it)
    ensures var e := it.entry; !(it.LeftOver? && e[0] != DELETED && e[11] == LONG_NAME) ==>
            After(st, EntriesOf(it)).len == 0
  {
    hide TakeFragment;
    var e := it.entry;
    if it.File? {
      AfterJoin(st, it.fragments, [e]);
    }
  }

  lemma {:induction false} AfterJoin(st: Lfn, a: seq<Entry>, b: seq<Entry>)
    requires st.Valid()
    ensures After(st, a + b) == After(After(st, a), b)
    decreases |a|
  {
    hide Step;
    if a == [] {
      assert a + b == b;
    } else {
      assert (a + b)[1..] == a[1..] + b;
      AfterJoin(Step(st, a[0]), a[1..], b);
    }
  }

  /** A directory scanned from its start: dot entries, 8.3 names and long names are all found. */
  lemma DirectoryFound(st: Lfn, items: seq<Item>)
    requires st.Valid() && st.len == 0 && Settled(items, false) &&
             forall i :: 0 <= i < |items| ==> WellWritten(items[i])
    ensures Records(st, Written32(items)) == Files(items)
  {
    SettledIsClear(st, items, false);
    DirectoryReadBack(st, items);
  }

  /** A stray fragment right before a record without a long name gives the record its name. */
  lemma StrayFragmentMisnames(st: Lfn, stray: Entry, name: seq<byte>, short: Item)
    requires st.Valid() && Named(name) && |name| <= 13 && IsFragment(stray, name, stray[13], 1)
    requires short.Short? && WellWritten(short) && name != DotName(short.base, short.ext)
    ensures var items := [LeftOver(stray), short];
            && WellWritten(items[0]) && WellWritten(items[1]) && !Clear(st, items)
            && Records(st, Written32(items)) == [RecordFor(name, short.meta)]
  {
    var (items, e) := ([LeftOver(stray), short], short.entry);
    FieldsReadBack(e, short.meta);
    AttrIs(e, short.meta);
    hide TakeFragment, ShortName, ClusterOf, FromLe32, DotName, Fields, NameField;
    FragmentHeader(stray, name, stray[13], 1);
    assert items[1..] == [short] && [short][1..] == [];
    assert Written32([short]) == [e] + Written32([]) == [e];
    assert Written32(items) == [stray] + [e];
    assert [stray][1..] == [];
    assert AreFragments([stray], name, stray[13], 1);
    var after := LongNameReadBack(st, [stray], name, stray[13], e, []);
    NothingThere(after);
    assert [stray] + [e] + [] == [stray] + [e];
    assert Files(items) == FilesOf(items[0]) + Files(items[1..]);
    assert Files([short]) == FilesOf(short) + Files([]) == FilesOf(short);
    assert Files(items) == FilesOf(short);
    assert Records(st, Written32(items))[0].name == name != Files(items)[0].name;
    forall i | 0 <= i < |items| ensures WellWritten(items[i]) {}
    DirectoryReadBack(st, items);
  }

  // ── The scanner ───────────────────────────────────────────────────────

  /** The long-name state of one directory scan. */
  class LongNameScanner {
    const lfnBuf: array<byte>
    var lfnLen: nat
    var lfnSeq: nat
    var lfnChecksum: byte

    ghost predicate Valid()
      reads this, lfnBuf
    {
      lfnBuf.Length == 256 && State().Valid()
    }

    ghost function State(): Lfn
      reads this, lfnBuf
    {
      Lfn(lfnBuf[..], lfnLen, lfnSeq, lfnChecksum)
    }

    constructor ()
      ensures Valid() && fresh(lfnBuf) && State() == NoName()
    {
      lfnBuf := new byte[256](i => 0);
      lfnLen, lfnSeq, lfnChecksum := 0, 0, 0;
    }

    /** Counts the characters before the end mark. */
    method CountChars(chars: seq<byte>) returns (n: nat)
      ensures n == CharCount(chars)
    {
      n := 0;
      assert chars[0..] == chars;
      while n < |chars| && !EndMark(chars[n])
        invariant n <= |chars| && n + CharCount(chars[n..]) == CharCount(chars)
      {
        assert chars[n..][1..] == chars[n + 1..];
        n := n + 1;
      }
    }

    method CopyChars(writeStart: nat, chars: seq<byte>)
      requires lfnBuf.Length == 256
      modifies lfnBuf
      ensures lfnBuf[..] == WriteChars(old(lfnBuf[..]), writeStart, chars)
    {
      var charIdx, i := 0, 0;
      ghost var goal := WriteChars(lfnBuf[..], writeStart, chars);
      assert chars[0..] == chars;
      while i < |chars| && !EndMark(chars[i])
        invariant i <= |chars| && WriteChars(lfnBuf[..], writeStart + charIdx, chars[i..]) == goal
      {
        assert chars[i..][1..] == chars[i + 1..];
        if writeStart + charIdx < 255 {
          ghost var before := lfnBuf[..];
          lfnBuf[writeStart + charIdx] := Plain(chars[i]);
          assert lfnBuf[..] == before[writeStart + charIdx := Plain(chars[i])];
          charIdx := charIdx + 1;
        }
        i := i + 1;
      }
    }

    method Fragment(e: Entry)
      requires Valid()
      modifies this, lfnBuf
      ensures Valid() && State() == TakeFragment(old(State()), e)
    {
      hide Chars, CharCount, WriteChars, EndMark;
      var seqNo, isLast, checksum := SeqNo(e), LastFlag(e), e[13];
      if seqNo == 0 || seqNo > 20 { return; }
      var chars := Chars(e);
      if isLast {
        var numChars := CountChars(chars);
        lfnSeq, lfnChecksum := seqNo, checksum;
        lfnLen := Least((seqNo - 1) * 13 + numChars, 255);
      }
      if seqNo != lfnSeq || checksum != lfnChecksum { return; }
      lfnSeq := lfnSeq - 1;
      CopyChars((seqNo - 1) * 13, chars);
    }

    /** One directory entry: updates the collected name, and finds a record in one that names
        a file or directory. */
    method ScanEntry(e: Entry) returns (found: Option<Record>)
      requires Valid() && e[0] != 0
      modifies this, lfnBuf
      ensures Valid() && State() == Step(old(State()), e)
      ensures found == if Names(e) then Some(RecordOf(old(State()), e)) else None
    {
      hide TakeFragment, ShortName, ClusterOf;
      found := None;
      if e[0] == DELETED {
        lfnLen := 0;
      } else if e[11] == LONG_NAME {
        Fragment(e);
      } else if VolumeLabel(e[11]) {
        lfnLen := 0;
      } else {
        var name;
        if lfnLen > 0 && lfnBuf[0] != 0 {
          name := lfnBuf[..lfnLen];
        } else {
          name := ReadShortName(e);
        }
        lfnLen := 0;
        found := Some(Record(name, e[11], ClusterOf(e), FromLe32(e, 28)));
      }
    }
  }

  method ReadShortName(e: Entry) returns (name: seq<byte>)
    ensures name == ShortName(e)
  {
    name := ReadPart(e, 0, 8);
    if e[8] != BLANK {
      var ext := ReadPart(e, 8, 11);
      name := name + ([DOT] + ext);
    }
  }

  method ReadPart(e: Entry, from: nat, end: nat) returns (part: seq<byte>)
    requires from <= end <= 11
    ensures part == BasePart(e, from, end)
  {
    part := [];
    var j := from;
    while j < end && e[j] != BLANK
      invariant from <= j <= end && part + BasePart(e, j, end) == BasePart(e, from, end)
    {
      assert part + ([e[j]] + BasePart(e, j + 1, end)) == part + [e[j]] + BasePart(e, j + 1, end);
      part := part + [e[j]];
      j := j + 1;
    }
  }
}
