/** The directory walkers of the boot loader: by-name lookup (with and without
    the record's location), the search for a free slot at the end of a
    directory, and the search for a file that may be overwritten. */
module IsoWalkers {
  import opened Bytes
  import opened IsoDirectory

  function Sectors(size: nat): nat { (size + 2047) / 2048 }

  /** Every sector is readable and zero-filled after its records, and the
      recorded length covers all records. */
  predicate WellFormedDir(m: Medium, lba: nat, size: nat) {
    && 0 < size
    && (forall b :: lba <= b < lba + Sectors(size) ==> m(b).Some? && WellFormedSector(m(b).value))
    && var last := lba + Sectors(size) - 1;
       m(last).Some? && (Sectors(size) - 1) * 2048 + ChainEnd(m(last).value, 0) <= size
  }

  // ── Names ─────────────────────────────────────────────────────────────

  /** A record name without its ";1" version suffix. */
  function BaseName(name: seq<byte>): seq<byte> {
    if |name| >= 2 && name[|name| - 2] == 59 then name[..|name| - 2] else name
  }

  /** Length of the first `n` bytes of `name` without trailing dots. */
  function DotlessLen(name: seq<byte>, n: nat): (len: nat)
    requires n <= |name|
    ensures len <= n
  {
    if n > 0 && name[n - 1] == 46 then DotlessLen(name, n - 1) else n
  }

  function StripDots(name: seq<byte>): seq<byte> { name[..DotlessLen(name, |name|)] }

  predicate Named(r: Rec, name: seq<byte>) { Upper(BaseName(r.name)) == Upper(name) }

  /** The comparison of the config search, which also drops trailing dots. */
  predicate NamedNoDots(r: Rec, name: seq<byte>) { Upper(StripDots(BaseName(r.name))) == Upper(name) }

  function NulPos(name: seq<u16>): (n: nat)
    ensures n <= |name| && (n < |name| ==> name[n] == 0) && forall i :: 0 <= i < n ==> name[i] != 0
  {
    if name == [] || name[0] == 0 then 0 else 1 + NulPos(name[1..])
  }

  /** A UTF-16 name as the file system protocol compares it: cut at NUL and at
      255 characters, non-ASCII characters replaced by '?'. */
  function NameKey(name: seq<u16>): (r: seq<byte>) {
    var n := if NulPos(name) < 255 then NulPos(name) else 255;
    seq(n, i requires 0 <= i < n => if name[i] < 0x80 then name[i] else 63)
  }

  method Ucs2ToBytes(name: seq<u16>) returns (r: seq<byte>)
    ensures r == NameKey(name)
  {
    r := [];
    var i := 0;
    while i < |name| && i < 256 && name[i] != 0
      invariant i == |r| <= NulPos(name) && i <= 256
      invariant forall k :: 0 <= k < i ==> r[k] == if name[k] < 0x80 then name[k] else 63
    {
      r := r + [if name[i] < 0x80 then name[i] else 63];
      i := i + 1;
    }
    r := if |r| < 255 then r else r[..255];
    assert |r| == |NameKey(name)|;
  }

  method EqualIgnoringCase(a: seq<byte>, b: seq<byte>) returns (same: bool)
    ensures same <==> Upper(a) == Upper(b)
  {
    if |a| != |b| {
      assert |Upper(a)| != |Upper(b)|;
      return false;
    }
    for j := 0 to |a|
      invariant forall k :: 0 <= k < j ==> UpperByte(a[k]) == UpperByte(b[k])
    {
      if UpperByte(a[j]) != UpperByte(b[j]) {
        assert Upper(a)[j] != Upper(b)[j];
        return false;
      }
    }
    return true;
  }

  method MatchIsoName(isoName: seq<byte>, name: seq<u16>) returns (b: bool)
    ensures b <==> Upper(BaseName(isoName)) == Upper(NameKey(name))
  {
    var effLen := if |isoName| >= 2 && isoName[|isoName| - 2] == 59 then |isoName| - 2 else |isoName|;
    var key := Ucs2ToBytes(name);
    assert isoName[..effLen] == BaseName(isoName);
    b := EqualIgnoringCase(isoName[..effLen], key);
  }

  /** A name is matched with any version suffix behind it and without one, in either case: GRUB.CFG;1
      is found as grub.cfg. */
  lemma VersionIgnored(plain: Rec, versioned: Rec, name: seq<byte>, v: byte)
    requires versioned.name == plain.name + [59, v] && !(|plain.name| >= 2 && plain.name[|plain.name| - 2] == 59)
    ensures Named(versioned, name) <==> Upper(plain.name) == Upper(name)
    ensures Named(plain, name) <==> Upper(plain.name) == Upper(name)
  {
    var s := versioned.name;
    assert s[..|s| - 2] == plain.name;
  }

  // ── Lookup through the file system protocol ───────────────────────────

  /** The first record of that name on the record chain. */
  function FindFrom(sec: Sector, sector: nat, off: nat, name: seq<byte>): Option<Rec>
    decreases 2048 - off
  {
    if !ValidRecord(sec, off) then None
    else if Named(RecAt(sec, sector, off), name) then Some(RecAt(sec, sector, off))
    else FindFrom(sec, sector, off + sec[off], name)
  }

  /** The first record of that name in the directory, up to the first unreadable sector. */
  function Lookup(m: Medium, lba: nat, s: nat, total: nat, name: seq<byte>): Option<Rec>
    decreases total - s
  {
    if s >= total then None else
    match m(lba + s)
    case None => None
    case Some(sec) =>
      match FindFrom(sec, lba + s, 0, name)
      case Some(r) => Some(r)
      case None => Lookup(m, lba, s + 1, total, name)
  }

  method MatchInSector(scratch: Sector, sector: nat, name: seq<u16>) returns (r: Option<Rec>)
    ensures r == FindFrom(scratch, sector, 0, NameKey(name))
  {
    ghost var found := FindFrom(scratch, sector, 0, NameKey(name));
    var offset := 0;
    while offset + 34 <= 2048
      invariant 0 <= offset <= 2048
      invariant found == FindFrom(scratch, sector, offset, NameKey(name))
      decreases 2048 - offset
    {
      var recordLen: int := scratch[offset];
      var nameLen: int := scratch[offset + 32];
      if recordLen == 0 || recordLen < 34 || offset + recordLen > 2048 || 33 + nameLen > recordLen { break; }
      var rec := RecAt(scratch, sector, offset);
      var matched := MatchIsoName(rec.name, name);
      if matched { return Some(rec); }
      offset := offset + recordLen;
    }
    assert !ValidRecord(scratch, offset);
    return None;
  }

  method LookupInDir(m: Medium, lba: nat, size: u32, name: seq<u16>) returns (r: Option<Rec>)
    ensures r == Lookup(m, lba, 0, Sectors(size), NameKey(name))
  {
    hide FindFrom, NameKey;
    var total := Sectors(size);
    ghost var found := Lookup(m, lba, 0, total, NameKey(name));
    for s := 0 to total
      invariant found == Lookup(m, lba, s, total, NameKey(name))
    {
      var read := m(lba + s);
      if read.None? { return None; }
      r := MatchInSector(read.value, lba + s, name);
      if r.Some? { return r; }
    }
    return None;
  }

  // ── Lookup with location, on the raw disc ─────────────────────────────

  /** The config search's weaker record test; the directory still has `limit` bytes from this sector on. */
  predicate Visited(sec: Sector, off: nat, limit: int) {
    off + 34 <= 2048 && off < limit && sec[off] != 0 && off + sec[off] <= 2048 && off + 33 + sec[off + 32] <= 2048
  }

  function FindLoose(sec: Sector, sector: nat, off: nat, limit: int, name: seq<byte>): Option<Rec>
    decreases 2048 - off
  {
    if !Visited(sec, off, limit) then None
    else if NamedNoDots(RecAt(sec, sector, off), name) then Some(RecAt(sec, sector, off))
    else FindLoose(sec, sector, off + sec[off], limit, name)
  }

  function LooseLookup(m: Medium, lba: nat, size: nat, s: nat, total: nat, name: seq<byte>): Option<Rec>
    decreases total - s
  {
    if s >= total then None else
    match m(lba + s)
    case None => None
    case Some(sec) =>
      match FindLoose(sec, lba + s, 0, size - s * 2048, name)
      case Some(r) => Some(r)
      case None => LooseLookup(m, lba, size, s + 1, total, name)
  }

  method EffectiveNameLen(name: seq<byte>) returns (len: nat)
    ensures len <= |name| && name[..len] == StripDots(BaseName(name))
  {
    len := |name|;
    if len >= 2 && name[len - 2] == 59 { len := len - 2; }
    ghost var base := BaseName(name);
    assert name[..len] == base;
    while len > 0 && name[len - 1] == 46
      invariant len <= |base| && DotlessLen(base, len) == DotlessLen(base, |base|)
    {
      len := len - 1;
    }
    assert name[..len] == base[..len];
  }

  method MatchInSectorWithLoc(scratch: Sector, sector: nat, limit: int, name: seq<byte>) returns (r: Option<Rec>)
    ensures r == FindLoose(scratch, sector, 0, limit, name)
  {
    ghost var found := FindLoose(scratch, sector, 0, limit, name);
    var offset := 0;
    while offset + 34 <= 2048 && offset < limit
      invariant 0 <= offset <= 2048
      invariant found == FindLoose(scratch, sector, offset, limit, name)
      decreases 2048 - offset
    {
      var recordLen: int := scratch[offset];
      var nameLen: int := scratch[offset + 32];
      if recordLen == 0 || offset + recordLen > 2048 || offset + 33 + nameLen > 2048 { break; }
      var rec := RecAt(scratch, sector, offset);
      var effLen := EffectiveNameLen(rec.name);
      var matched := EqualIgnoringCase(rec.name[..effLen], name);
      if matched { return Some(rec); }
      offset := offset + recordLen;
    }
    assert !Visited(scratch, offset, limit);
    return None;
  }

  /** The config search returns the first record of that name, with its location. */
  method FindInDirWithLoc(m: Medium, lba: nat, size: u32, name: seq<byte>) returns (r: Option<Rec>)
    ensures r == LooseLookup(m, lba, size, 0, Sectors(size), name)
  {
    hide FindLoose;
    var total := Sectors(size);
    ghost var found := LooseLookup(m, lba, size, 0, total, name);
    for s := 0 to total
      invariant found == LooseLookup(m, lba, size, s, total, name)
    {
      var read := m(lba + s);
      if read.None? { return None; }
      r := MatchInSectorWithLoc(read.value, lba + s, size - s * 2048, name);
      if r.Some? { return r; }
    }
    return None;
  }

  // ── A directory as a list of records ──────────────────────────────────

  /** The records of sectors lba+s .. lba+total, up to the first unreadable sector. */
  function DirRecs(m: Medium, lba: nat, s: nat, total: nat): seq<Rec>
    decreases total - s
  {
    if s >= total then [] else
    match m(lba + s)
    case None => []
    case Some(sec) => RecsFrom(sec, lba + s, 0) + DirRecs(m, lba, s + 1, total)
  }

  function FirstNamed(rs: seq<Rec>, name: seq<byte>): Option<Rec> {
    if rs == [] then None else if Named(rs[0], name) then Some(rs[0]) else FirstNamed(rs[1..], name)
  }

  lemma {:induction false} FirstNamedConcat(a: seq<Rec>, b: seq<Rec>, name: seq<byte>)
    ensures FirstNamed(a + b, name) == if FirstNamed(a, name).Some? then FirstNamed(a, name) else FirstNamed(b, name)
  {
    hide Named;
    if a == [] {
      assert a + b == b;
    } else {
      assert (a + b)[1..] == a[1..] + b;
      FirstNamedConcat(a[1..], b, name);
    }
  }

  lemma {:induction false} FindFromIsFirstNamed(sec: Sector, sector: nat, off: nat, name: seq<byte>)
    ensures FindFrom(sec, sector, off, name) == FirstNamed(RecsFrom(sec, sector, off), name)
    decreases 2048 - off
  {
    hide Named, RecAt;
    if ValidRecord(sec, off) {
      var r, rest := RecAt(sec, sector, off), RecsFrom(sec, sector, off + sec[off]);
      assert ([r] + rest)[1..] == rest;
      FindFromIsFirstNamed(sec, sector, off + sec[off], name);
    }
  }

  /** Looking a name up finds the first record of that name in the record list. */
  lemma {:induction false} LookupIsFirstNamed(m: Medium, lba: nat, s: nat, total: nat, name: seq<byte>)
    ensures Lookup(m, lba, s, total, name) == FirstNamed(DirRecs(m, lba, s, total), name)
    decreases total - s
  {
    hide FindFrom, RecsFrom, Named;
    if s < total && m(lba + s).Some? {
      var sec := m(lba + s).value;
      FindFromIsFirstNamed(sec, lba + s, 0, name);
      FirstNamedConcat(RecsFrom(sec, lba + s, 0), DirRecs(m, lba, s + 1, total), name);
      LookupIsFirstNamed(m, lba, s + 1, total, name);
    }
  }

  // ── The two lookups agree exactly on directories without trailing dots ──

  /** A name that some UTF-16 request is compared as. */
  predicate Askable(name: seq<byte>) { |name| <= 255 && forall i :: 0 <= i < |name| ==> 0 < name[i] < 0x80 }

  lemma KeyIsAskable(u: seq<u16>)
    ensures Askable(NameKey(u))
  {
  }

  lemma AskedBy(name: seq<byte>) returns (u: seq<u16>)
    requires Askable(name)
    ensures NameKey(u) == name
  {
    u := seq(|name|, i requires 0 <= i < |name| => name[i]);
    assert NulPos(u) == |name|;
  }

  /** The record cannot be asked for, or its name does not end in a dot. */
  predicate DotFreeName(name: seq<byte>) {
    var b := BaseName(name);
    b != [] && Askable(b) ==> b[|b| - 1] != 46
  }

  /** A request matches askable names only. */
  lemma SameUpper(b: seq<byte>, name: seq<byte>)
    requires Askable(name) && Upper(b) == Upper(name)
    ensures Askable(b)
  {
    assert |b| == |Upper(b)| == |name|;
    forall i | 0 <= i < |b| ensures 0 < b[i] < 0x80 {
      assert UpperByte(b[i]) == Upper(b)[i] == Upper(name)[i] == UpperByte(name[i]);
    }
  }

  lemma {:induction false} DotsAreAskable(name: seq<byte>, n: nat)
    requires n <= |name| && Askable(name[..DotlessLen(name, n)]) && |name| <= 255
    ensures Askable(name[..n])
  {
    if n > 0 && name[n - 1] == 46 { DotsAreAskable(name, n - 1); }
  }

  lemma SameMatch(r: Rec, name: seq<byte>)
    requires Askable(name) && DotFreeName(r.name) && |r.name| <= 255
    ensures Named(r, name) <==> NamedNoDots(r, name)
  {
    var b := BaseName(r.name);
    if Upper(b) == Upper(name) { SameUpper(b, name); }
    if NamedNoDots(r, name) {
      SameUpper(StripDots(b), name);
      DotsAreAskable(b, |b|);
      assert b[..|b|] == b;
    }
  }

  predicate DotFreeFrom(sec: Sector, sector: nat, off: nat)
    decreases 2048 - off
  {
    ValidRecord(sec, off) ==> DotFreeName(RecAt(sec, sector, off).name) && DotFreeFrom(sec, sector, off + sec[off])
  }

  /** No record name of the directory that can be asked for ends in a dot (version suffix aside). */
  predicate DotFree(m: Medium, lba: nat, total: nat) {
    forall b :: lba <= b < lba + total && m(b).Some? ==> DotFreeFrom(m(b).value, b, 0)
  }

  lemma {:induction false} FindAgrees(sec: Sector, sector: nat, off: nat, limit: int, name: seq<byte>)
    requires off <= 2048 && WellFormedSector(sec) && ChainEnd(sec, off) == ChainEnd(sec, 0) <= limit
    requires DotFreeFrom(sec, sector, off) && Askable(name)
    ensures FindLoose(sec, sector, off, limit, name) == FindFrom(sec, sector, off, name)
    decreases 2048 - off
  {
    if ValidRecord(sec, off) {
      assert Visited(sec, off, limit);
      SameMatch(RecAt(sec, sector, off), name);
      hide Named, NamedNoDots, Askable;
      FindAgrees(sec, sector, off + sec[off], limit, name);
    } else {
      assert !Visited(sec, off, limit);
    }
  }

  lemma {:induction false} LookupAgrees(m: Medium, lba: nat, size: nat, s: nat, name: seq<byte>)
    requires WellFormedDir(m, lba, size) && DotFree(m, lba, Sectors(size)) && Askable(name)
    ensures LooseLookup(m, lba, size, s, Sectors(size), name) == Lookup(m, lba, s, Sectors(size), name)
    decreases Sectors(size) - s
  {
    hide FindLoose, FindFrom, WellFormedSector, DotFreeFrom;
    if s < Sectors(size) {
      FindAgrees(m(lba + s).value, lba + s, 0, size - s * 2048, name);
      LookupAgrees(m, lba, size, s + 1, name);
    }
  }

  lemma {:induction false} UndottedWitness(sec: Sector, sector: nat, off: nat) returns (p: nat)
    requires !DotFreeFrom(sec, sector, off)
    ensures OnChain(sec, off, p) && ValidRecord(sec, p) && !DotFreeName(RecAt(sec, sector, p).name)
    decreases 2048 - off
  {
    hide Askable;
    if !DotFreeName(RecAt(sec, sector, off).name) { return off; }
    p := UndottedWitness(sec, sector, off + sec[off]);
  }

  lemma {:induction false} FindFromFinds(sec: Sector, sector: nat, off: nat, p: nat, name: seq<byte>)
    requires OnChain(sec, off, p) && ValidRecord(sec, p) && Named(RecAt(sec, sector, p), name)
    ensures FindFrom(sec, sector, off, name).Some?
    decreases 2048 - off
  {
    if p != off && !Named(RecAt(sec, sector, off), name) { FindFromFinds(sec, sector, off + sec[off], p, name); }
  }

  lemma {:induction false} LookupFinds(m: Medium, lba: nat, s: nat, total: nat, b: nat, name: seq<byte>)
    requires lba + s <= b < lba + total && forall c :: lba <= c < lba + total ==> m(c).Some?
    requires FindFrom(m(b).value, b, 0, name).Some?
    ensures Lookup(m, lba, s, total, name).Some?
    decreases total - s
  {
    hide FindFrom;
    if b != lba + s { LookupFinds(m, lba, s + 1, total, b, name); }
  }

  lemma UndottedNeverDotted(r: Rec, name: seq<byte>)
    requires name != [] && name[|name| - 1] == 46
    ensures !NamedNoDots(r, name)
  {
    var b := BaseName(r.name);
    DotlessLast(b, |b|);
    var u := StripDots(b);
    if |u| == |name| {
      assert Upper(u)[|name| - 1] != Upper(name)[|name| - 1];
    }
  }

  lemma {:induction false} DotlessLast(name: seq<byte>, n: nat)
    requires n <= |name|
    ensures var k := DotlessLen(name, n); k > 0 ==> name[k - 1] != 46
  {
    if n > 0 && name[n - 1] == 46 { DotlessLast(name, n - 1); }
  }

  lemma {:induction false} LooseNeverFindsDotted(m: Medium, lba: nat, size: nat, s: nat, total: nat, name: seq<byte>)
    requires name != [] && name[|name| - 1] == 46
    ensures LooseLookup(m, lba, size, s, total, name).None?
    decreases total - s
  {
    hide FindLoose;
    if s < total {
      if m(lba + s).Some? { SectorNeverFindsDotted(m(lba + s).value, lba + s, 0, size - s * 2048, name); }
      LooseNeverFindsDotted(m, lba, size, s + 1, total, name);
    }
  }

  lemma {:induction false} SectorNeverFindsDotted(sec: Sector, sector: nat, off: nat, limit: int, name: seq<byte>)
    requires name != [] && name[|name| - 1] == 46
    ensures FindLoose(sec, sector, off, limit, name).None?
    decreases 2048 - off
  {
    if Visited(sec, off, limit) {
      UndottedNeverDotted(RecAt(sec, sector, off), name);
      SectorNeverFindsDotted(sec, sector, off + sec[off], limit, name);
    }
  }

  /** The two walkers find the same record for every name a caller can ask for if and only if
      no record with such a name has one that ends in a dot. */
  lemma WalkersAgreeIff(m: Medium, lba: nat, size: nat)
    requires WellFormedDir(m, lba, size)
    ensures (forall u: seq<u16> ::
              LooseLookup(m, lba, size, 0, Sectors(size), NameKey(u)) == Lookup(m, lba, 0, Sectors(size), NameKey(u)))
       <==> DotFree(m, lba, Sectors(size))
  {
    hide FindLoose, FindFrom, LooseLookup, Lookup, NameKey, Askable;
    if DotFree(m, lba, Sectors(size)) {
      forall u: seq<u16>
        ensures LooseLookup(m, lba, size, 0, Sectors(size), NameKey(u)) == Lookup(m, lba, 0, Sectors(size), NameKey(u))
      {
        KeyIsAskable(u);
        LookupAgrees(m, lba, size, 0, NameKey(u));
      }
    } else {
      var b :| lba <= b < lba + Sectors(size) && m(b).Some? && !DotFreeFrom(m(b).value, b, 0);
      var p := UndottedWitness(m(b).value, b, 0);
      var name := BaseName(RecAt(m(b).value, b, p).name);
      var u := AskedBy(name);
      FindFromFinds(m(b).value, b, 0, p, name);
      LookupFinds(m, lba, 0, Sectors(size), b, name);
      LooseNeverFindsDotted(m, lba, size, 0, Sectors(size), name);
      assert LooseLookup(m, lba, size, 0, Sectors(size), NameKey(u)) != Lookup(m, lba, 0, Sectors(size), NameKey(u));
    }
  }

  // ── The free slot at the end of a directory ───────────────────────────

  /** Where the end-of-directory search stops in a sector. */
  function ScanEnd(sec: Sector, off: nat, limit: int): (e: nat)
    requires off <= 2048
    ensures off <= e <= 2048
    decreases 2048 - off
  {
    if off < 2048 && off < limit && 34 <= sec[off] && off + sec[off] <= 2048 then ScanEnd(sec, off + sec[off], limit)
    else off
  }

  /** The free slot after the last record of a directory, if 47 bytes are left there. */
  function FreeSlot(m: Medium, lba: nat, size: nat): Option<(nat, nat, nat)> {
    var total := Sectors(size);
    if total == 0 || (exists b :: lba <= b < lba + total && m(b).None?) then None
    else
      var e := ScanEnd(m(lba + total - 1).value, 0, size - (total - 1) * 2048);
      if e + 47 <= 2048 then Some((lba + total - 1, e, (total - 1) * 2048 + e)) else None
  }

  /** Finds that slot: its sector, its offset, and the directory length up to it. */
  method FindEodInDir(m: Medium, lba: nat, size: u32) returns (r: Option<(nat, nat, nat)>)
    ensures r == FreeSlot(m, lba, size)
  {
    var total := Sectors(size);
    var walked := 0;
    for s := 0 to total
      invariant walked == s * 2048 && (s == total ==> total == 0)
      invariant forall b :: lba <= b < lba + s ==> m(b).Some?
    {
      var read := m(lba + s);
      if read.None? { return None; }
      var scratch := read.value;
      var off := 0;
      while off < 2048 && walked < size
        invariant off <= 2048 && walked == s * 2048 + off
        invariant ScanEnd(scratch, off, size - s * 2048) == ScanEnd(scratch, 0, size - s * 2048)
        decreases 2048 - off
      {
        var recordLen: int := scratch[off];
        if recordLen == 0 {
          if s + 1 == total {
            if off + 47 <= 2048 { return Some((lba + s, off, walked)); }
            return None;
          }
          break;
        }
        if recordLen < 34 || off + recordLen > 2048 { break; }
        walked := walked + recordLen;
        off := off + recordLen;
      }
      if s + 1 == total {
        if off + 47 <= 2048 { return Some((lba + s, off, walked)); }
        return None;
      }
      walked := (s + 1) * 2048;
    }
    return None;
  }

  lemma {:induction false} ScanEndIsChainEnd(sec: Sector, off: nat, limit: int)
    requires off <= 2048 && WellFormedSector(sec) && ChainEnd(sec, off) == ChainEnd(sec, 0) <= limit
    ensures ScanEnd(sec, off, limit) == ChainEnd(sec, 0)
    decreases 2048 - off
  {
    if ValidRecord(sec, off) { ScanEndIsChainEnd(sec, off + sec[off], limit); }
  }

  // ── A file that may be overwritten ────────────────────────────────────

  const BOOT_CATALOG := [Ascii("BOOT.CATALOG"), Ascii("BOOT.CAT")]
  const KERNELS := [Ascii("MACH_KERNEL"), Ascii("VMLINUZ"), Ascii("VMLINUX")]
  const INITRDS := [Ascii("INITRD"), Ascii("INITRD.IMG"), Ascii("INITRAMFS.IMG")]
  const KNOWN_DIRS := [Ascii("CASPER"), Ascii("LIVE"), Ascii("LIVEOS"), Ascii("ARCH"), Ascii("APKS"),
                       Ascii("DISTROS"), Ascii("POP-OS"), Ascii("SYSTEM"), Ascii("SOURCES"),
                       Ascii("BOOT"), Ascii("EFI"), Ascii("GRUB"), Ascii("GRUB2"), Ascii("FEDORA"),
                       Ascii("ISOLINUX"), Ascii("SYSLINUX")]

  predicate HasSuffix(name: seq<byte>, suffix: seq<byte>) {
    |name| >= |suffix| && name[|name| - |suffix|..] == suffix
  }

  predicate KernelLike(n: seq<byte>) {
    n in KERNELS || (|n| > 6 && n[..6] == Ascii("VMLINU") && (n[6] == 90 || n[6] == 88 || 48 <= n[6] <= 57))
  }

  predicate InitrdLike(n: seq<byte>) {
    n in INITRDS || (|n| > 6 && n[..6] == Ascii("INITRD") && (n[6] == 46 || n[6] == 45))
  }

  /** The ignore list holds exact names and, when flagged, name prefixes. */
  predicate Ignored(n: seq<byte>, ignore: seq<(seq<byte>, bool)>) {
    exists p :: p in ignore && if p.1 then p.0 <= n else p.0 == n
  }

  /** A plain root file nothing in the boot path needs, with room for the new name. */
  predicate Replaceable(r: Rec, ignore: seq<(seq<byte>, bool)>) {
    var n := Upper(StripDots(BaseName(r.name)));
    && !(|r.name| == 1 && r.name[0] <= 1) && !r.IsDir()
    && |n| <= 15 && r.len >= 46
    && n !in BOOT_CATALOG && !HasSuffix(n, Ascii(".CFG")) && !HasSuffix(n, Ascii(".EFI"))
    && !KernelLike(n) && !InitrdLike(n) && n !in KNOWN_DIRS && !Ignored(n, ignore)
  }

  /** Files the boot path needs: boot loaders, kernels and initial ramdisks under their usual names. */
  predicate BootFile(n: seq<byte>) {
    || HasSuffix(n, Ascii(".EFI")) || HasSuffix(n, Ascii(".CFG"))
    || Ascii("VMLINUZ") <= n || Ascii("VMLINUX") <= n || n == Ascii("MACH_KERNEL")
    || n == Ascii("INITRD") || Ascii("INITRD.") <= n || Ascii("INITRD-") <= n || n == Ascii("INITRAMFS.IMG")
    || n == Ascii("BOOT.CATALOG") || n == Ascii("BOOT.CAT")
  }

  /** They are never overwritten, whatever the case of their names, their version suffix or trailing dots. */
  lemma BootFilesNeverReplaced(r: Rec, name: seq<byte>, ignore: seq<(seq<byte>, bool)>)
    requires NamedNoDots(r, name) && BootFile(Upper(name))
    ensures !Replaceable(r, ignore)
  {
    var n := Upper(name);
    KernelPrefix(n);
    InitrdPrefix(n);
    assert n in KERNELS || n in INITRDS || n in BOOT_CATALOG || HasSuffix(n, Ascii(".EFI")) ||
           HasSuffix(n, Ascii(".CFG"))
        || KernelLike(n) || InitrdLike(n) by { hide Ascii, HasSuffix; }
    hide Ascii, HasSuffix, Ignored;
  }

  lemma KernelPrefix(n: seq<byte>)
    ensures Ascii("VMLINUZ") <= n || Ascii("VMLINUX") <= n ==> KernelLike(n)
  {
    assert Ascii("VMLINUZ")[..6] == Ascii("VMLINU") && Ascii("VMLINUX")[..6] == Ascii("VMLINU");
    assert Ascii("VMLINUZ")[6] == 90 && Ascii("VMLINUX")[6] == 88;
    if Ascii("VMLINUZ") <= n { assert n[..7] == Ascii("VMLINUZ") && n[..6] == n[..7][..6] && n[6] == n[..7][6]; }
    if Ascii("VMLINUX") <= n { assert n[..7] == Ascii("VMLINUX") && n[..6] == n[..7][..6] && n[6] == n[..7][6]; }
  }

  lemma InitrdPrefix(n: seq<byte>)
    ensures Ascii("INITRD.") <= n || Ascii("INITRD-") <= n ==> InitrdLike(n)
  {
    assert Ascii("INITRD.")[..6] == Ascii("INITRD") && Ascii("INITRD-")[..6] == Ascii("INITRD");
    assert Ascii("INITRD.")[6] == 46 && Ascii("INITRD-")[6] == 45;
    if Ascii("INITRD.") <= n { assert n[..7] == Ascii("INITRD.") && n[..6] == n[..7][..6] && n[6] == n[..7][6]; }
    if Ascii("INITRD-") <= n { assert n[..7] == Ascii("INITRD-") && n[..6] == n[..7][..6] && n[6] == n[..7][6]; }
  }

  function FirstReplaceableFrom(sec: Sector, sector: nat, off: nat, limit: int,
                                ignore: seq<(seq<byte>, bool)>): Option<Rec>
    decreases 2048 - off
  {
    if !Visited(sec, off, limit) then None
    else if Replaceable(RecAt(sec, sector, off), ignore) then Some(RecAt(sec, sector, off))
    else FirstReplaceableFrom(sec, sector, off + sec[off], limit, ignore)
  }

  function FirstReplaceable(m: Medium, lba: nat, size: nat, s: nat, total: nat,
                            ignore: seq<(seq<byte>, bool)>): Option<Rec>
    decreases total - s
  {
    if s >= total then None else
    match m(lba + s)
    case None => None
    case Some(sec) =>
      match FirstReplaceableFrom(sec, lba + s, 0, size - s * 2048, ignore)
      case Some(r) => Some(r)
      case None => FirstReplaceable(m, lba, size, s + 1, total, ignore)
  }

  method FindFirstFileInSector(scratch: Sector, sector: nat, limit: int, ignore: seq<(seq<byte>, bool)>)
    returns (r: Option<Rec>)
    ensures r == FirstReplaceableFrom(scratch, sector, 0, limit, ignore)
  {
    hide Replaceable, RecAt;
    ghost var found := FirstReplaceableFrom(scratch, sector, 0, limit, ignore);
    var offset := 0;
    while offset + 34 <= 2048 && offset < limit
      invariant 0 <= offset <= 2048
      invariant found == FirstReplaceableFrom(scratch, sector, offset, limit, ignore)
      decreases 2048 - offset
    {
      var recordLen: int := scratch[offset];
      var nameLen: int := scratch[offset + 32];
      if recordLen == 0 || offset + recordLen > 2048 || offset + 33 + nameLen > 2048 { break; }
      var rec := RecAt(scratch, sector, offset);
      if Replaceable(rec, ignore) { return Some(rec); }
      offset := offset + recordLen;
    }
    assert !Visited(scratch, offset, limit);
    return None;
  }

  method FindFirstFileInDir(m: Medium, lba: nat, size: u32, ignore: seq<(seq<byte>, bool)>) returns (r: Option<Rec>)
    ensures r == FirstReplaceable(m, lba, size, 0, Sectors(size), ignore)
  {
    hide FirstReplaceableFrom;
    var total := Sectors(size);
    ghost var found := FirstReplaceable(m, lba, size, 0, total, ignore);
    for s := 0 to total
      invariant found == FirstReplaceable(m, lba, size, s, total, ignore)
    {
      var read := m(lba + s);
      if read.None? { return None; }
      r := FindFirstFileInSector(read.value, lba + s, size - s * 2048, ignore);
      if r.Some? { return r; }
    }
    return None;
  }
}
