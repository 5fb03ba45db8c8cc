/** The kernel arguments that tell the early-init program where the ISO file lies. */
module BootArgs {
  import opened Bytes
  import opened GrubText

  /** A GUID in its mixed-endian fields. */
  datatype Guid = Guid(d1: u32, d2: u16, d3: u16, d4: seq<byte>) {
    predicate Valid() { |d4| == 8 }
  }

  /** Where an ISO file lies on a partitioned disk; LBAs count 512-byte sectors. */
  datatype IsoLocation = IsoLocation(guid: Guid, number: u32, isMbr: bool, path: seq<byte>, size: u64, part1Lba: u64,
                                     isoLba: u64) {
    predicate Valid() {
      guid.Valid() && |path| <= 256 && part1Lba <= isoLba &&
        (isoLba as int - part1Lba as int) * 512 < 0x1_0000_0000_0000_0000
    }

    function OffsetBytes(): u64
      requires Valid()
    {
      (isoLba as int - part1Lba as int) * 512
    }

    function PathWithoutLeadingSlash(): seq<byte> {
      if path != [] && path[0] == 47 then path[1..] else path
    }
  }

  datatype BootKind = Casper | DebianLive | FedoraLive | ArchIso | Alpine | AlpinePremount | WindowsPE | Unknown

  // ── Numbers as text ───────────────────────────────────────────────────

  function Dec(v: nat): (s: seq<byte>)
    ensures |s| > 0 && forall i :: 0 <= i < |s| ==> 48 <= s[i] <= 57
  {
    if v < 10 then [48 + v] else Dec(v / 10) + [48 + v % 10]
  }

  function HexDigit(v: nat): (c: byte)
    requires v < 16
  {
    if v < 10 then 48 + v else 87 + v
  }

  /** The `n` low hexadecimal digits of `v`, most significant first. */
  function HexText(v: nat, n: nat): (s: seq<byte>)
    ensures |s| == n
  {
    if n == 0 then [] else [HexDigit(Nibble(v, n - 1))] + HexText(v, n - 1)
  }

  function HexBytes(s: seq<byte>): (t: seq<byte>)
    ensures |t| == 2 * |s|
  {
    if s == [] then [] else HexText(s[0], 2) + HexBytes(s[1..])
  }

  const DASH: seq<byte> := [45]

  /** PARTUUID of a GPT partition. */
  function GuidText(g: Guid): (t: seq<byte>)
    requires g.Valid()
    ensures |t| == 36
  {
    HexText(g.d1, 8) + DASH + HexText(g.d2, 4) + DASH + HexText(g.d3, 4) + DASH + HexBytes(g.d4[..2]) + DASH +
      HexBytes(g.d4[2..])
  }

  /** PARTUUID of an MBR partition: the disk signature, kept in the last four GUID bytes, and the number. */
  function MbrText(g: Guid, number: u32): (t: seq<byte>)
    requires g.Valid()
    ensures |t| == 11
  {
    HexText(FromLe32(g.d4, 4), 8) + DASH + HexText(number, 2)
  }

  function PartUuid(loc: IsoLocation): (t: seq<byte>)
    requires loc.Valid()
    ensures |t| == if loc.isMbr then 11 else 36
  {
    if loc.isMbr then MbrText(loc.guid, loc.number) else GuidText(loc.guid)
  }

  // ── The argument text ─────────────────────────────────────────────────

  /** Arguments as they are written: each one after a blank. */
  function ArgText(words: seq<seq<byte>>): seq<byte> {
    if words == [] then [] else [SPACE] + words[0] + ArgText(words[1..])
  }

  const INIT: seq<byte> := Ascii("init=/init.choosable")
  const CASPER_WORDS: seq<seq<byte>> :=
      [Ascii("boot=casper"), Ascii("live-media=/dev/choosable-live"), Ascii("maybe-ubiquity"), INIT]
  const DEBIAN_WORDS: seq<seq<byte>> :=
      [Ascii("boot=live"), Ascii("live-media=/dev/choosable-live"), Ascii("live-media-path=/live"), INIT]
  const FEDORA_WORDS: seq<seq<byte>> :=
      [Ascii("root=live:/dev/choosable-live"), Ascii("rd.live.image"), Ascii("rd.live.dir=/LiveOS"),
                                         Ascii("rd.live.squashimg=squashfs.img"), Ascii("rootdelay=10"), INIT]
  const ARCH_WORDS: seq<seq<byte>> := [Ascii("archisobasedir=arch"), Ascii("copytoram"), INIT]
  const UNKNOWN_WORDS: seq<seq<byte>> := [Ascii("boot=casper"), Ascii("maybe-ubiquity"), INIT]
  const BY_PARTUUID: seq<byte> := Ascii("archisodevice=/dev/disk/by-partuuid/")

  /** What a boot kind needs besides the location. */
  function KindWords(kind: BootKind, loc: Option<IsoLocation>): seq<seq<byte>>
    requires loc.Some? ==> loc.value.Valid()
  {
    match kind
    case Casper => CASPER_WORDS
    case DebianLive => DEBIAN_WORDS
    case FedoraLive => FEDORA_WORDS
    case ArchIso => [if loc.Some? then BY_PARTUUID + PartUuid(loc.value) else Ascii("archisodevice=LABEL=CHOOSABLE")] +
      ARCH_WORDS
    case Alpine => [INIT]
    case AlpinePremount => [INIT]
    case WindowsPE => []
    case Unknown => UNKNOWN_WORDS
  }

  const PART_GUID: seq<byte> := Ascii("choosable.part_guid")
  const PART_NUM: seq<byte> := Ascii("choosable.part_num")
  const ISO_OFFSET: seq<byte> := Ascii("choosable.iso_offset")
  const ISO_PATH: seq<byte> := Ascii("choosable.iso_path")
  const ISO_SIZE: seq<byte> := Ascii("choosable.iso_size")

  function Key(name: seq<byte>): seq<byte> { [SPACE] + name + [61] }

  function KindText(kind: BootKind, loc: Option<IsoLocation>): seq<byte>
    requires loc.Some? ==> loc.value.Valid()
  {
    ArgText(KindWords(kind, loc))
  }

  function PathText(path: seq<byte>): seq<byte> {
    if path == [] then [] else Key(ISO_PATH) + path
  }

  /** The location arguments up to the value of the last one. */
  function LocationHead(loc: IsoLocation): seq<byte>
    requires loc.Valid()
  {
    Key(PART_GUID) + PartUuid(loc) + Key(PART_NUM) + Dec(loc.number) + Key(ISO_OFFSET) + Dec(loc.OffsetBytes())
    + PathText(loc.PathWithoutLeadingSlash()) + Key(ISO_SIZE)
  }

  function LocationText(loc: IsoLocation): (t: seq<byte>)
    requires loc.Valid()
    ensures t != []
  {
    LocationHead(loc) + Dec(loc.size)
  }

  function Extra(kind: BootKind, loc: Option<IsoLocation>): seq<byte>
    requires loc.Some? ==> loc.value.Valid()
  {
    KindText(kind, loc) + if loc.Some? then LocationText(loc.value) else []
  }

  /** Room the writer insists on: twenty digits for the size, however short it is. */
  function Needed(kind: BootKind, loc: Option<IsoLocation>): nat
    requires loc.Some? ==> loc.value.Valid()
  {
    |KindText(kind, loc)| + if loc.Some? then |LocationHead(loc.value)| + 20 else 0
  }

  // ── Bounds ────────────────────────────────────────────────────────────

  function Pow10(n: nat): (p: nat)
    ensures p > 0
  {
    if n == 0 then 1 else 10 * Pow10(n - 1)
  }

  lemma {:induction false} DecLength(v: nat, n: nat)
    requires n > 0 && v < Pow10(n)
    ensures |Dec(v)| <= n
  {
    if v >= 10 { DecLength(v / 10, n - 1); }
  }

  lemma DecBounds(v: u64)
    ensures |Dec(v)| <= 20 && (v < 0x1_0000_0000 ==> |Dec(v)| <= 10)
  {
    assert Pow10(10) == 10_000_000_000;
    assert Pow10(20) == 100_000_000_000_000_000_000;
    DecLength(v, 20);
    if v < 0x1_0000_0000 { DecLength(v, 10); }
  }

  // ── Writing into a buffer ─────────────────────────────────────────────

  /** What fits of `s` into `cap` bytes. */
  function Cut(s: seq<byte>, cap: nat): (r: seq<byte>) {
    if |s| <= cap then s else s[..cap]
  }

  lemma CutMore(p: seq<byte>, a: seq<byte>, b: seq<byte>, cap: nat)
    ensures Cut(Cut(p + a, cap) + b, cap) == Cut(p + (a + b), cap)
  {
    assert p + a + b == p + (a + b);
  }

  /** `buf[..pos]` after a write that stops at the end of the buffer. */
  twostate predicate Wrote(buf: array<byte>, before: nat, text: seq<byte>, pos: nat)
    requires before <= buf.Length
    reads buf
  {
    pos <= buf.Length && buf[..pos] == Cut(old(buf[..before]) + text, buf.Length)
  }

  method CopyAt(buf: array<byte>, pos: nat, src: seq<byte>) returns (n: nat)
    requires pos <= buf.Length
    modifies buf
    ensures Wrote(buf, pos, src, pos + n)
  {
    var avail := buf.Length - pos;
    n := if |src| < avail then |src| else avail;
    forall i | 0 <= i < n { buf[pos + i] := src[i]; }
  }

  /** The guarded byte store of every writer, after `text` has been written from `start` on. */
  method PutByte(buf: array<byte>, pos: nat, c: byte, ghost start: seq<byte>, ghost text: seq<byte>)
    returns (newPos: nat)
    requires pos <= buf.Length && buf[..pos] == Cut(start + text, buf.Length)
    modifies buf
    ensures pos <= newPos <= buf.Length && buf[..newPos] == Cut(start + (text + [c]), buf.Length)
  {
    newPos := pos;
    if pos < buf.Length {
      buf[pos] := c;
      newPos := pos + 1;
      assert buf[..newPos] == old(buf[..pos]) + [c];
    }
    CutMore(start, text, [c], buf.Length);
  }

  lemma DecDigit(w: nat)
    requires w > 0
    ensures Dec(w) == (if w >= 10 then Dec(w / 10) else []) + [48 + w % 10]
  {
  }

  /** Decimal digits are produced last one first and stored in reverse. */
  method WriteU64Decimal(buf: array<byte>, pos: nat, v: u64) returns (n: nat)
    requires pos <= buf.Length
    modifies buf
    ensures Wrote(buf, pos, Dec(v), pos + n)
  {
    hide Dec, Cut;
    ghost var start, text := buf[..pos], Dec(v);
    assert buf[..pos] == Cut(start + [], buf.Length) by { WholeFits(start, buf.Length); }
    if v == 0 {
      ZeroText();
      var p := PutByte(buf, pos, 48, start, []);
      return p - pos;
    }
    var digits := ReverseDigits(v);
    var p, i := pos, |digits|;
    while i > 0
      invariant 0 <= i <= |digits| && pos <= p <= buf.Length
      invariant buf[..p] == Cut(start + text[..|digits| - i], buf.Length)
    {
      i := i - 1;
      p := PutByte(buf, p, digits[i], start, text[..|digits| - 1 - i]);
      assert text[..|digits| - i] == text[..|digits| - 1 - i] + [digits[i]];
    }
    assert text[..|digits|] == text;
    n := p - pos;
  }

  lemma WholeFits(s: seq<byte>, cap: nat)
    requires |s| <= cap
    ensures Cut(s + [], cap) == s
  {
  }

  lemma ZeroText()
    ensures Dec(0) == [] + [48]
  {
  }

  method ReverseDigits(v: u64) returns (digits: seq<byte>)
    requires v > 0
    ensures |digits| == |Dec(v)| && forall k :: 0 <= k < |digits| ==> digits[k] == Dec(v)[|digits| - 1 - k]
  {
    hide Dec;
    DecBounds(v);
    digits := [];
    var w: u64 := v;
    ghost var front := Dec(v);
    while w > 0 && |digits| < 20
      invariant front == (if w > 0 then Dec(w) else []) && |front| + |digits| == |Dec(v)|
      invariant forall k :: 0 <= k < |front| ==> Dec(v)[k] == front[k]
      invariant forall k :: 0 <= k < |digits| ==> digits[k] == Dec(v)[|Dec(v)| - 1 - k]
      decreases w
    {
      DecDigit(w);
      front := if w >= 10 then Dec(w / 10) else [];
      digits := digits + [48 + w % 10];
      w := w / 10;
    }
  }

  // ── GUIDs as text ─────────────────────────────────────────────────────

  /** Hexadecimal digits, most significant first. */
  method PutHex(buf: array<byte>, pos: nat, v: nat, n: nat, ghost start: seq<byte>, ghost text: seq<byte>)
    returns (newPos: nat)
    requires pos <= buf.Length && buf[..pos] == Cut(start + text, buf.Length)
    modifies buf
    ensures pos <= newPos <= buf.Length && buf[..newPos] == Cut(start + (text + HexText(v, n)), buf.Length)
  {
    hide Cut, HexDigit;
    var i := n;
    newPos := pos;
    ghost var done := text;
    while i > 0
      invariant 0 <= i <= n && pos <= newPos <= buf.Length
      invariant buf[..newPos] == Cut(start + done, buf.Length) && done + HexText(v, i) == text + HexText(v, n)
    {
      i := i - 1;
      newPos := PutByte(buf, newPos, HexDigit(Nibble(v, i)), start, done);
      HexStep(done, v, i);
      done := done + [HexDigit(Nibble(v, i))];
    }
    assert done + HexText(v, 0) == done;
  }

  lemma HexStep(done: seq<byte>, v: nat, i: nat)
    ensures done + HexText(v, i + 1) == done + [HexDigit(Nibble(v, i))] + HexText(v, i)
  {
  }

  method PutHexBytes(buf: array<byte>, pos: nat, d: seq<byte>, ghost start: seq<byte>, ghost text: seq<byte>)
    returns (newPos: nat)
    requires pos <= buf.Length && buf[..pos] == Cut(start + text, buf.Length)
    modifies buf
    ensures pos <= newPos <= buf.Length && buf[..newPos] == Cut(start + (text + HexBytes(d)), buf.Length)
  {
    hide Cut, HexText;
    newPos := pos;
    ghost var done := text;
    assert d[0..] == d;
    for j := 0 to |d|
      invariant pos <= newPos <= buf.Length
      invariant buf[..newPos] == Cut(start + done, buf.Length) && done + HexBytes(d[j..]) == text + HexBytes(d)
    {
      newPos := PutHex(buf, newPos, d[j], 2, start, done);
      HexByteStep(done, d, j);
      done := done + HexText(d[j], 2);
    }
    assert done + HexBytes([]) == done;
  }

  lemma HexByteStep(done: seq<byte>, d: seq<byte>, j: nat)
    requires j < |d|
    ensures done + HexBytes(d[j..]) == done + HexText(d[j], 2) + HexBytes(d[j + 1..])
  {
    assert d[j..][1..] == d[j + 1..];
  }

  method GuidToPartUuidBytes(buf: array<byte>, pos: nat, g: Guid) returns (n: nat)
    requires pos <= buf.Length && g.Valid()
    modifies buf
    ensures Wrote(buf, pos, GuidText(g), pos + n)
  {
    hide Cut, HexText, HexBytes;
    ghost var start := buf[..pos];
    WholeFits(start, buf.Length);
    var p := PutHex(buf, pos, g.d1, 8, start, []);
    p := PutByte(buf, p, 45, start, [] + HexText(g.d1, 8));
    p := PutHex(buf, p, g.d2, 4, start, [] + HexText(g.d1, 8) + DASH);
    p := PutByte(buf, p, 45, start, [] + HexText(g.d1, 8) + DASH + HexText(g.d2, 4));
    p := PutHex(buf, p, g.d3, 4, start, [] + HexText(g.d1, 8) + DASH + HexText(g.d2, 4) + DASH);
    p := PutByte(buf, p, 45, start, [] + HexText(g.d1, 8) + DASH + HexText(g.d2, 4) + DASH + HexText(g.d3, 4));
    ghost var head := [] + HexText(g.d1, 8) + DASH + HexText(g.d2, 4) + DASH + HexText(g.d3, 4) + DASH;
    p := PutHexBytes(buf, p, g.d4[..2], start, head);
    p := PutByte(buf, p, 45, start, head + HexBytes(g.d4[..2]));
    p := PutHexBytes(buf, p, g.d4[2..], start, head + HexBytes(g.d4[..2]) + DASH);
    assert [] + HexText(g.d1, 8) == HexText(g.d1, 8);
    n := p - pos;
  }

  method MbrGuidToPartUuidBytes(buf: array<byte>, pos: nat, g: Guid, number: u32) returns (n: nat)
    requires pos <= buf.Length && g.Valid()
    modifies buf
    ensures Wrote(buf, pos, MbrText(g, number), pos + n)
  {
    hide Cut, HexText;
    ghost var start := buf[..pos];
    WholeFits(start, buf.Length);
    var diskSig := FromLe32(g.d4, 4);
    var p := PutHex(buf, pos, diskSig, 8, start, []);
    p := PutByte(buf, p, 45, start, [] + HexText(diskSig, 8));
    p := PutHex(buf, p, number, 2, start, [] + HexText(diskSig, 8) + DASH);
    assert [] + HexText(diskSig, 8) == HexText(diskSig, 8);
    n := p - pos;
  }

  // ── The writers ───────────────────────────────────────────────────────

  /** Writes `chunk` after `old + text` if it fits with `spare` bytes to go. */
  method TryChunk(buf: array<byte>, pos: nat, chunk: seq<byte>, spare: nat, ghost head: seq<byte>,
                  ghost text: seq<byte>) returns (ok: bool, newPos: nat)
    requires pos <= buf.Length && buf[..pos] == head + text
    modifies buf
    ensures ok == (pos + |chunk| + spare <= buf.Length)
    ensures if ok then newPos == pos + |chunk| && buf[..newPos] == head + (text + chunk)
            else newPos == pos && buf[..pos] == head + text
  {
    if pos + |chunk| + spare > buf.Length { return false, pos; }
    var n := CopyAt(buf, pos, chunk);
    newPos := pos + n;
    ok := true;
    assert |buf[..newPos]| == newPos;
    assert head + text + chunk == head + (text + chunk);
  }

  method PutPartUuid(buf: array<byte>, pos: nat, loc: IsoLocation, ghost head: seq<byte>, ghost text: seq<byte>)
    returns (newPos: nat)
    requires loc.Valid() && pos + |PartUuid(loc)| <= buf.Length && buf[..pos] == head + text
    modifies buf
    ensures newPos == pos + |PartUuid(loc)| && buf[..newPos] == head + (text + PartUuid(loc))
  {
    hide MbrText, GuidText;
    var n;
    if loc.isMbr {
      n := MbrGuidToPartUuidBytes(buf, pos, loc.guid, loc.number);
    } else {
      n := GuidToPartUuidBytes(buf, pos, loc.guid);
    }
    newPos := pos + n;
    assert |buf[..newPos]| == newPos;
    assert head + text + PartUuid(loc) == head + (text + PartUuid(loc));
  }

  method PutDecimal(buf: array<byte>, pos: nat, v: u64, ghost head: seq<byte>, ghost text: seq<byte>)
    returns (newPos: nat)
    requires pos + |Dec(v)| <= buf.Length && buf[..pos] == head + text
    modifies buf
    ensures newPos == pos + |Dec(v)| && buf[..newPos] == head + (text + Dec(v))
  {
    hide Dec;
    var n := WriteU64Decimal(buf, pos, v);
    newPos := pos + n;
    assert |buf[..newPos]| == newPos;
    assert head + text + Dec(v) == head + (text + Dec(v));
  }

  /** The head of the buffer survives a write after it. */
  lemma HeadStays(buf: array<byte>, pos: nat, head: seq<byte>, text: seq<byte>)
    requires pos <= buf.Length && buf[..pos] == head + text
    ensures |head| <= pos && buf[..|head|] == head
  {
    assert buf[..pos][..|head|] == buf[..|head|];
  }

  /** The arguments before the path. */
  function PlaceText(loc: IsoLocation): seq<byte>
    requires loc.Valid()
  {
    Key(PART_GUID) + PartUuid(loc) + Key(PART_NUM) + Dec(loc.number) + Key(ISO_OFFSET) + Dec(loc.OffsetBytes())
  }

  method AppendPlace(buf: array<byte>, start: nat, loc: IsoLocation, ghost head: seq<byte>) returns (ok: bool, pos: nat)
    requires start <= buf.Length && loc.Valid() && buf[..start] == head
    modifies buf
    ensures start + |PlaceText(loc)| + 20 <= buf.Length ==> ok
    ensures if ok then pos == start + |PlaceText(loc)| && pos <= buf.Length && buf[..pos] == head + PlaceText(loc)
            else buf[..start] == head
  {
    hide Dec, PartUuid, Key;
    DecBounds(loc.number);
    DecBounds(loc.OffsetBytes());
    ghost var text: seq<byte> := [];
    assert head + text == head;
    ok, pos := TryChunk(buf, start, Key(PART_GUID), if loc.isMbr then 11 else 36, head, text);
    if !ok { return; }
    text := text + Key(PART_GUID);
    pos := PutPartUuid(buf, pos, loc, head, text);
    text := text + PartUuid(loc);
    ok, pos := TryChunk(buf, pos, Key(PART_NUM), 10, head, text);
    if !ok { HeadStays(buf, pos, head, text); return; }
    text := text + Key(PART_NUM);
    pos := PutDecimal(buf, pos, loc.number, head, text);
    text := text + Dec(loc.number);
    ok, pos := TryChunk(buf, pos, Key(ISO_OFFSET), 20, head, text);
    if !ok { HeadStays(buf, pos, head, text); return; }
    text := text + Key(ISO_OFFSET);
    pos := PutDecimal(buf, pos, loc.OffsetBytes(), head, text);
    text := text + Dec(loc.OffsetBytes());
    assert [] + Key(PART_GUID) == Key(PART_GUID);
  }

  method AppendPathAndSize(buf: array<byte>, start: nat, loc: IsoLocation, ghost head: seq<byte>)
    returns (ok: bool, pos: nat)
    requires start <= buf.Length && loc.Valid() && buf[..start] == head
    modifies buf
    ensures var tail := PathText(loc.PathWithoutLeadingSlash()) + Key(ISO_SIZE);
            && ok == (start + |tail| + 20 <= buf.Length)
            && if ok then pos == start + |tail + Dec(loc.size)| && pos <= buf.Length &&
               buf[..pos] == head + (tail + Dec(loc.size)) else buf[..start] == head
  {
    hide Dec, Key;
    DecBounds(loc.size);
    ghost var text: seq<byte> := [];
    assert head + text == head;
    var path := loc.PathWithoutLeadingSlash();
    pos := start;
    if path != [] {
      ok, pos := TryChunk(buf, pos, Key(ISO_PATH), |path|, head, text);
      if !ok { return; }
      assert [] + Key(ISO_PATH) == Key(ISO_PATH);
      text := Key(ISO_PATH);
      ok, pos := TryChunk(buf, pos, path, 0, head, text);
      text := text + path;
    }
    ok, pos := TryChunk(buf, pos, Key(ISO_SIZE), 20, head, text);
    if !ok { HeadStays(buf, pos, head, text); return; }
    text := text + Key(ISO_SIZE);
    pos := PutDecimal(buf, pos, loc.size, head, text);
  }

  /** The whole location in argument form, or nothing. */
  method AppendChoosableParams(buf: array<byte>, start: nat, loc: IsoLocation) returns (pos: nat)
    requires start <= buf.Length && loc.Valid()
    modifies buf
    ensures pos <= buf.Length
    ensures pos == if start + |LocationHead(loc)| + 20 <= buf.Length then start + |LocationText(loc)| else start
    ensures buf[..pos] == old(buf[..start]) + if start + |LocationHead(loc)| + 20 <= buf.Length then LocationText(loc)
                                              else []
  {
    hide Dec, PartUuid, PlaceText, PathText, Key;
    ghost var head, tail := buf[..start], PathText(loc.PathWithoutLeadingSlash()) + Key(ISO_SIZE);
    ParamsSplit(loc);
    var ok, p := AppendPlace(buf, start, loc, head);
    if !ok { return start; }
    ok, p := AppendPathAndSize(buf, p, loc, head + PlaceText(loc));
    if !ok {
      HeadStays(buf, start + |PlaceText(loc)|, head, PlaceText(loc));
      return start;
    }
    assert head + PlaceText(loc) + (tail + Dec(loc.size)) == head + (PlaceText(loc) + (tail + Dec(loc.size)));
    pos := p;
  }

  lemma ParamsSplit(loc: IsoLocation)
    requires loc.Valid()
    ensures var tail := PathText(loc.PathWithoutLeadingSlash()) + Key(ISO_SIZE);
            && LocationHead(loc) == PlaceText(loc) + tail
            && LocationText(loc) == PlaceText(loc) + (tail + Dec(loc.size))
  {
    hide Dec, PartUuid, PathText, Key;
  }

  method Chunk(buf: array<byte>, chunk: seq<byte>) returns (ok: bool, pos: nat)
    modifies buf
    ensures ok == (|chunk| <= buf.Length) && (ok ==> pos == |chunk| && buf[..pos] == chunk)
  {
    ok, pos := TryChunk(buf, 0, chunk, 0, [], []);
  }

  /** Arch Linux finds its medium by the partition's PARTUUID. */
  method ArchArgs(buf: array<byte>, loc: IsoLocation) returns (ok: bool, pos: nat)
    requires loc.Valid()
    modifies buf
    ensures var text := [SPACE] + BY_PARTUUID + PartUuid(loc) + ArgText(ARCH_WORDS);
            ok == (|text| <= buf.Length) && (ok ==> pos == |text| && buf[..pos] == text)
  {
    hide BY_PARTUUID, ARCH_WORDS, PartUuid, ArgText;
    ghost var device := [SPACE] + BY_PARTUUID;
    assert [] + device == device;
    ok, pos := TryChunk(buf, 0, [SPACE] + BY_PARTUUID, if loc.isMbr then 11 else 36, [], []);
    if !ok { return; }
    pos := PutPartUuid(buf, pos, loc, [], device);
    ok, pos := TryChunk(buf, pos, ArgText(ARCH_WORDS), 0, [], device + PartUuid(loc));
  }

  lemma ArchText(loc: IsoLocation)
    requires loc.Valid()
    ensures KindText(ArchIso, Some(loc)) == [SPACE] + BY_PARTUUID + PartUuid(loc) + ArgText(ARCH_WORDS)
  {
    hide BY_PARTUUID, ARCH_WORDS, PartUuid;
    var w := BY_PARTUUID + PartUuid(loc);
    assert ([w] + ARCH_WORDS)[1..] == ARCH_WORDS;
    assert [SPACE] + w == [SPACE] + BY_PARTUUID + PartUuid(loc);
  }

  method KindArgs(kind: BootKind, loc: Option<IsoLocation>, buf: array<byte>) returns (ok: bool, pos: nat)
    requires loc.Some? ==> loc.value.Valid()
    modifies buf
    ensures ok == (|KindText(kind, loc)| <= buf.Length)
    ensures ok ==> pos == |KindText(kind, loc)| && buf[..pos] == KindText(kind, loc)
  {
    if kind == ArchIso && loc.Some? {
      ArchText(loc.value);
      hide KindText, BY_PARTUUID, ARCH_WORDS, PartUuid, ArgText;
      ok, pos := ArchArgs(buf, loc.value);
    } else {
      hide KindWords, ArgText;
      ok, pos := Chunk(buf, ArgText(KindWords(kind, loc)));
    }
  }

  /** The arguments of a boot kind followed by the location, complete or absent. */
  method LinuxExtra(kind: BootKind, loc: Option<IsoLocation>, buf: array<byte>) returns (r: Option<nat>)
    requires loc.Some? ==> loc.value.Valid()
    modifies buf
    ensures r.Some? <==> Needed(kind, loc) <= buf.Length
    ensures r.Some? ==> r.value <= buf.Length && buf[..r.value] == Extra(kind, loc)
  {
    hide LocationHead, LocationText, KindText;
    var ok, pos := KindArgs(kind, loc, buf);
    if !ok { return None; }
    if loc.Some? {
      var newPos := AppendChoosableParams(buf, pos, loc.value);
      if newPos == pos { return None; }
      pos := newPos;
    }
    return Some(pos);
  }
}
