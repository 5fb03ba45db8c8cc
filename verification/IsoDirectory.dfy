/** ISO 9660 directories: the record chain of a sector, the record list of a
    directory, and what the record-level edits of the overlay do to them. */
module IsoDirectory {
  import opened Bytes

  type Sector = s: seq<byte> | |s| == 2048 witness seq(2048, _ => 0)

  /** A medium maps a block number to its 2048 bytes, or to None on a read error. */
  type Medium = nat -> Option<Sector>

  datatype Rec = Rec(sector: nat, off: nat, len: byte, extent: u32, size: u32, flags: byte, name: seq<byte>) {
    predicate IsDir() { flags / 2 % 2 == 1 }
  }

  /** ECMA-119 section 9.1.6: bit 1 of the flags. */
  lemma DirMask(r: Rec)
    ensures r.IsDir() <==> r.flags as bv8 & 0x02 != 0
  {
  }

  /** ECMA-119 section 9.1: a record lies within its sector and holds its name. */
  predicate ValidRecord(sec: Sector, off: nat) {
    off + 34 <= 2048 && 34 <= sec[off] && off + sec[off] <= 2048 && sec[off + 32] as int + 33 <= sec[off]
  }

  function RecAt(sec: Sector, sector: nat, off: nat): Rec
    requires off + 34 <= 2048 && off + 33 + sec[off + 32] <= 2048
  {
    Rec(sector, off, sec[off], FromLe32(sec, off + 2), FromLe32(sec, off + 10), sec[off + 25],
        sec[off + 33..off + 33 + sec[off + 32]])
  }

  /** The records of a sector from byte `off` on, up to the first byte that starts none. */
  function RecsFrom(sec: Sector, sector: nat, off: nat): seq<Rec>
    decreases 2048 - off
  {
    if ValidRecord(sec, off) then [RecAt(sec, sector, off)] + RecsFrom(sec, sector, off + sec[off]) else []
  }

  function ChainEnd(sec: Sector, off: nat): (e: nat)
    requires off <= 2048
    ensures off <= e <= 2048 && !ValidRecord(sec, e)
    decreases 2048 - off
  {
    if ValidRecord(sec, off) then ChainEnd(sec, off + sec[off]) else off
  }

  /** A record starts at `p` on the chain from `off`. */
  predicate OnChain(sec: Sector, off: nat, p: nat)
    decreases 2048 - off
  {
    ValidRecord(sec, off) && (p == off || OnChain(sec, off + sec[off], p))
  }

  /** ECMA-119 section 6.8.1: after the last record a sector is zero-filled. */
  predicate WellFormedSector(sec: Sector) {
    var e := ChainEnd(sec, 0);
    e == 2048 || sec[e] == 0
  }

  // ── Records as they are written ───────────────────────────────────────

  /** What a directory record says. */
  datatype Entry = Entry(extent: u32, size: u32, flags: byte, name: seq<byte>)

  /** ECMA-119 section 9.1, by byte position: the bytes of the record of `e`. Extent and length
      are recorded in both byte orders; the date and the interleave fields do not matter here. */
  predicate RecordBytes(s: seq<byte>, e: Entry) {
    && 34 <= |s| <= 255 && s[0] as int == |s| && 33 + |e.name| <= |s|
    && s[2..6] == Le32(e.extent) && s[6..10] == Reversed(s[2..6])
    && s[10..14] == Le32(e.size) && s[14..18] == Reversed(s[10..14])
    && s[25] == e.flags && s[32] as int == |e.name| && s[33..33 + |e.name|] == e.name
  }

  /** A written record is read back, wherever it lies in its sector. */
  lemma RecordReadBack(sec: Sector, sector: nat, off: nat, s: seq<byte>, e: Entry)
    requires off + |s| <= 2048 && sec[off..off + |s|] == s && RecordBytes(s, e)
    ensures ValidRecord(sec, off) && sec[off] as int == |s|
    ensures RecAt(sec, sector, off) == Rec(sector, off, |s|, e.extent, e.size, e.flags, e.name)
  {
    hide Le32, FromLe32, Reversed;
    forall i | 0 <= i < |s| ensures sec[off + i] == s[i] { assert sec[off..off + |s|][i] == s[i]; }
    assert sec[off + 2..off + 6] == s[2..6] && sec[off + 10..off + 14] == s[10..14];
    Le32RoundTrip(e.extent, sec, off + 2);
    Le32RoundTrip(e.size, sec, off + 10);
    assert sec[off + 33..off + 33 + |e.name|] == s[33..33 + |e.name|];
  }

  /** Records written one after the other. */
  function Joined(recs: seq<seq<byte>>): seq<byte> { if recs == [] then [] else recs[0] + Joined(recs[1..]) }

  predicate AllRecords(recs: seq<seq<byte>>, es: seq<Entry>) {
    |recs| == |es| && forall i :: 0 <= i < |recs| ==> RecordBytes(recs[i], es[i])
  }

  /** The records of `es` as a sector lists them, from byte `off` on. */
  function RecsOf(recs: seq<seq<byte>>, es: seq<Entry>, sector: nat, off: nat): seq<Rec>
    requires AllRecords(recs, es)
    decreases |recs|
  {
    if recs == [] then []
    else [Rec(sector, off, |recs[0]|, es[0].extent, es[0].size, es[0].flags, es[0].name)]
         + RecsOf(recs[1..], es[1..], sector, off + |recs[0]|)
  }

  /** The records written into a sector, up to its end or a zero byte, are the records it lists. */
  lemma {:induction false} SectorReadBack(sec: Sector, sector: nat, off: nat, recs: seq<seq<byte>>, es: seq<Entry>)
    requires AllRecords(recs, es) && off + |Joined(recs)| <= 2048 && sec[off..off + |Joined(recs)|] == Joined(recs)
    requires off + |Joined(recs)| < 2048 ==> sec[off + |Joined(recs)|] == 0
    ensures RecsFrom(sec, sector, off) == RecsOf(recs, es, sector, off)
    ensures ChainEnd(sec, off) == off + |Joined(recs)|
    decreases |recs|
  {
    hide RecAt, RecordBytes;
    if recs != [] {
      var s, rest := recs[0], Joined(recs[1..]);
      assert sec[off..off + |s|] == Joined(recs)[..|s|];
      assert sec[off + |s|..off + |s| + |rest|] == Joined(recs)[|s|..];
      RecordReadBack(sec, sector, off, s, es[0]);
      SectorReadBack(sec, sector, off + |s|, recs[1..], es[1..]);
    } else {
      assert !ValidRecord(sec, off);
    }
  }

  // ── Record-level edits ────────────────────────────────────────────────

  ghost predicate Agree(a: Sector, b: Sector, lo: nat, hi: nat)
    requires hi <= 2048
  {
    forall i :: lo <= i < hi ==> a[i] == b[i]
  }

  /** `rs` with the record at byte `p` replaced by `r`. */
  function ReplaceRec(rs: seq<Rec>, p: nat, r: Rec): (q: seq<Rec>)
    ensures |q| == |rs|
  {
    seq(|rs|, i requires 0 <= i < |rs| => if rs[i].off == p then r else rs[i])
  }

  lemma SameRec(a: Sector, b: Sector, sector: nat, off: nat)
    requires ValidRecord(a, off) && Agree(a, b, off, off + a[off])
    ensures ValidRecord(b, off) && RecAt(a, sector, off) == RecAt(b, sector, off)
  {
    assert b[off] == a[off];
    assert a[off + 33..off + 33 + a[off + 32]] == b[off + 33..off + 33 + b[off + 32]];
  }

  lemma {:induction false} SameTail(a: Sector, b: Sector, sector: nat, off: nat)
    requires off <= 2048 && Agree(a, b, off, 2048)
    ensures RecsFrom(a, sector, off) == RecsFrom(b, sector, off)
    ensures ChainEnd(a, off) == ChainEnd(b, off)
    decreases 2048 - off
  {
    if ValidRecord(a, off) {
      SameRec(a, b, sector, off);
      SameTail(a, b, sector, off + a[off]);
    } else {
      assert !ValidRecord(b, off);
    }
  }

  /** A record on the chain from `off` is itself valid and lies at or after `off`. */
  lemma {:induction false} OnChainFits(sec: Sector, off: nat, p: nat)
    requires OnChain(sec, off, p)
    ensures ValidRecord(sec, off) && off <= p && ValidRecord(sec, p) && (p == off || off + sec[off] <= p)
    decreases 2048 - off
  {
    if p != off { OnChainFits(sec, off + sec[off], p); }
  }

  lemma {:induction false} RecsBeyond(sec: Sector, sector: nat, off: nat)
    ensures forall r :: r in RecsFrom(sec, sector, off)
              ==> off <= r.off && OnChain(sec, off, r.off) && ValidRecord(sec, r.off) && r == RecAt(sec, sector, r.off)
    decreases 2048 - off
  {
    if ValidRecord(sec, off) { RecsBeyond(sec, sector, off + sec[off]); }
  }

  lemma ReplaceCons(r0: Rec, rest: seq<Rec>, p: nat, r: Rec)
    ensures ReplaceRec([r0] + rest, p, r) == [if r0.off == p then r else r0] + ReplaceRec(rest, p, r)
  {
  }

  lemma ReplaceNone(sec: Sector, sector: nat, off: nat, p: nat, r: Rec)
    requires p < off
    ensures ReplaceRec(RecsFrom(sec, sector, off), p, r) == RecsFrom(sec, sector, off)
  {
    RecsBeyond(sec, sector, off);
  }

  lemma ChainStep(sec: Sector, sector: nat, off: nat, p: nat)
    requires ValidRecord(sec, off)
    ensures RecsFrom(sec, sector, off) == [RecAt(sec, sector, off)] + RecsFrom(sec, sector, off + sec[off])
    ensures RecAt(sec, sector, off).off == off && ChainEnd(sec, off) == ChainEnd(sec, off + sec[off])
    ensures OnChain(sec, off, p) <==> p == off || OnChain(sec, off + sec[off], p)
  {
  }

  lemma EditFirst(sec: Sector, t: Sector, sector: nat, p: nat)
    requires ValidRecord(sec, p) && ValidRecord(t, p) && t[p] == sec[p] && Agree(sec, t, p + sec[p], 2048)
    ensures RecsFrom(t, sector, p) == ReplaceRec(RecsFrom(sec, sector, p), p, RecAt(t, sector, p))
    ensures ChainEnd(t, p) == ChainEnd(sec, p) && OnChain(t, p, p)
  {
    hide RecAt, ReplaceRec, RecsFrom, ChainEnd, OnChain, Agree;
    var next := p + sec[p];
    ChainStep(sec, sector, p, p);
    ChainStep(t, sector, p, p);
    ReplaceCons(RecAt(sec, sector, p), RecsFrom(sec, sector, next), p, RecAt(t, sector, p));
    SameTail(sec, t, sector, next);
    ReplaceNone(sec, sector, next, p, RecAt(t, sector, p));
  }

  /** Rewriting the inside of one record, keeping its length, rewrites exactly that list element. */
  lemma {:induction false} EditChain(sec: Sector, t: Sector, sector: nat, off: nat, p: nat)
    requires OnChain(sec, off, p)
    requires ValidRecord(t, p) && t[p] == sec[p] && Agree(sec, t, 0, p) && Agree(sec, t, p + sec[p], 2048)
    ensures RecsFrom(t, sector, off) == ReplaceRec(RecsFrom(sec, sector, off), p, RecAt(t, sector, p))
    ensures ChainEnd(t, off) == ChainEnd(sec, off)
    ensures OnChain(t, off, p)
    decreases 2048 - off
  {
    hide RecAt, ReplaceRec, RecsFrom, ChainEnd, OnChain;
    OnChainFits(sec, off, p);
    if p == off {
      EditFirst(sec, t, sector, p);
    } else {
      var next := off + sec[off];
      ChainStep(sec, sector, off, p);
      SameRec(sec, t, sector, off);
      ChainStep(t, sector, off, p);
      ReplaceCons(RecAt(sec, sector, off), RecsFrom(sec, sector, next), p, RecAt(t, sector, p));
      EditChain(sec, t, sector, next, p);
    }
  }

  function Retargeted(sec: Sector, off: nat, extent: u32, size: u32): Sector {
    if off + 18 > 2048 then sec
    else Splice(sec, off + 2, Le32(extent) + Be32(extent) + Le32(size) + Be32(size))
  }

  function RenamedToPremount(sec: Sector, off: nat): Sector {
    if off + 33 + |PREMOUNT_NAME| > 2048 || sec[off] < 46 then sec
    else Splice(sec, off + 32, [13] + PREMOUNT_NAME)
  }

  /** The 46-byte record of /PREMOUNT.CPIO followed by an end-of-directory byte. */
  function PremountBlob(extent: u32, size: u32): (b: seq<byte>)
    ensures |b| == 47
  {
    [46, 0] + Le32(extent) + Be32(extent) + Le32(size) + Be32(size)
    + [0, 0, 0, 0, 0, 0, 0, 0, 0, 0, 1, 0, 0, 1, 13] + PREMOUNT_NAME + [0]
  }

  /** It is a record of ECMA-119 section 9.1 for a plain file. */
  lemma PremountIsRecord(extent: u32, size: u32)
    ensures RecordBytes(PremountBlob(extent, size)[..46], Entry(extent, size, 0, PREMOUNT_NAME))
  {
    hide Le32, Be32, Reversed;
    var b := PremountBlob(extent, size)[..46];
    Be32IsReversed(extent);
    Be32IsReversed(size);
    assert b[2..6] == Le32(extent) && b[6..10] == Be32(extent);
    assert b[10..14] == Le32(size) && b[14..18] == Be32(size);
    assert b[33..46] == PREMOUNT_NAME;
  }

  /** A redirected record is a record with the new extent and length, in both byte orders. */
  lemma RetargetedIsRecord(sec: Sector, p: nat, s: seq<byte>, e: Entry, extent: u32, size: u32)
    requires p + |s| <= 2048 && sec[p..p + |s|] == s && RecordBytes(s, e)
    ensures RecordBytes(Retargeted(sec, p, extent, size)[p..p + |s|], e.(extent := extent, size := size))
  {
    hide Le32, Be32, Reversed;
    var t, data := Retargeted(sec, p, extent, size), Le32(extent) + Be32(extent) + Le32(size) + Be32(size);
    var u := t[p..p + |s|];
    Be32IsReversed(extent);
    Be32IsReversed(size);
    assert t[p + 2..p + 18] == data;
    forall k | 0 <= k < 16 ensures u[2 + k] == data[k] { assert u[2 + k] == t[p + 2..p + 18][k]; }
    assert u[2..6] == data[0..4] && u[6..10] == data[4..8] && u[10..14] == data[8..12] && u[14..18] == data[12..16];
    forall i | 0 <= i < 2 || 18 <= i < |s| ensures u[i] == s[i] { assert u[i] == t[p + i] == sec[p + i] == s[i]; }
    assert u[33..33 + |e.name|] == s[33..33 + |e.name|];
  }

  function PremountRec(sector: nat, off: nat, extent: u32, size: u32): Rec {
    Rec(sector, off, 46, extent, size, 0, PREMOUNT_NAME)
  }

  lemma RetargetedAt(sec: Sector, sector: nat, p: nat, extent: u32, size: u32)
    requires ValidRecord(sec, p)
    ensures var t := Retargeted(sec, p, extent, size);
            && ValidRecord(t, p) && t[p] == sec[p] && Agree(sec, t, 0, p) && Agree(sec, t, p + sec[p], 2048)
            && RecAt(t, sector, p) == RecAt(sec, sector, p).(extent := extent, size := size)
  {
    hide Le32, Be32, FromLe32;
    var t := Retargeted(sec, p, extent, size);
    assert t[p + 33..p + 33 + t[p + 32]] == sec[p + 33..p + 33 + sec[p + 32]];
    assert t[p + 2..p + 6] == Le32(extent);
    assert t[p + 10..p + 14] == Le32(size);
    Le32RoundTrip(extent, t, p + 2);
    Le32RoundTrip(size, t, p + 10);
  }

  /** A redirected record list: only extent and length of one record change. */
  lemma RetargetChain(sec: Sector, sector: nat, p: nat, extent: u32, size: u32)
    requires OnChain(sec, 0, p)
    ensures ValidRecord(sec, p)
    ensures var t := Retargeted(sec, p, extent, size);
            && RecsFrom(t, sector, 0)
               == ReplaceRec(RecsFrom(sec, sector, 0), p, RecAt(sec, sector, p).(extent := extent, size := size))
            && ChainEnd(t, 0) == ChainEnd(sec, 0) && OnChain(t, 0, p)
  {
    OnChainFits(sec, 0, p);
    RetargetedAt(sec, sector, p, extent, size);
    EditChain(sec, Retargeted(sec, p, extent, size), sector, 0, p);
  }

  lemma RenamedAt(sec: Sector, sector: nat, p: nat)
    requires ValidRecord(sec, p) && sec[p] >= 46
    ensures var t := RenamedToPremount(sec, p);
            && ValidRecord(t, p) && t[p] == sec[p] && Agree(sec, t, 0, p) && Agree(sec, t, p + sec[p], 2048)
            && RecAt(t, sector, p) == RecAt(sec, sector, p).(name := PREMOUNT_NAME)
  {
    var t := RenamedToPremount(sec, p);
    assert t[p + 33..p + 33 + t[p + 32]] == PREMOUNT_NAME;
  }

  /** A renamed record list: only the name of one record changes. */
  lemma RenameChain(sec: Sector, sector: nat, p: nat)
    requires OnChain(sec, 0, p) && p < 2048 && sec[p] >= 46
    ensures ValidRecord(sec, p)
    ensures var t := RenamedToPremount(sec, p);
            && RecsFrom(t, sector, 0)
               == ReplaceRec(RecsFrom(sec, sector, 0), p, RecAt(sec, sector, p).(name := PREMOUNT_NAME))
            && ChainEnd(t, 0) == ChainEnd(sec, 0) && OnChain(t, 0, p)
  {
    OnChainFits(sec, 0, p);
    RenamedAt(sec, sector, p);
    EditChain(sec, RenamedToPremount(sec, p), sector, 0, p);
  }

  lemma InjectedAt(sec: Sector, sector: nat, e: nat, extent: u32, size: u32)
    requires e + 47 <= 2048
    ensures var t := Splice(sec, e, PremountBlob(extent, size));
            && ValidRecord(t, e) && t[e] == 46 && t[e + 46] == 0 && !ValidRecord(t, e + 46)
            && RecAt(t, sector, e) == PremountRec(sector, e, extent, size)
  {
    hide Le32, Be32, FromLe32;
    var b := PremountBlob(extent, size);
    var t := Splice(sec, e, b);
    assert b[2..6] == Le32(extent);
    assert b[10..14] == Le32(size);
    assert b[33..46] == PREMOUNT_NAME;
    assert t[e..e + 47] == b;
    assert t[e + 2..e + 6] == b[2..6];
    assert t[e + 10..e + 14] == b[10..14];
    assert t[e + 33..e + 46] == b[33..46];
    Le32RoundTrip(extent, t, e + 2);
    Le32RoundTrip(size, t, e + 10);
  }

  /** Writing the blob at the end of the records appends exactly one record. */
  lemma {:induction false} InjectChain(sec: Sector, sector: nat, off: nat, extent: u32, size: u32)
    requires off <= 2048 && ChainEnd(sec, off) + 47 <= 2048
    ensures var e := ChainEnd(sec, off);
            var t := Splice(sec, e, PremountBlob(extent, size));
            && RecsFrom(t, sector, off) == RecsFrom(sec, sector, off) + [PremountRec(sector, e, extent, size)]
            && ChainEnd(t, off) == e + 46 && t[e + 46] == 0
            && (forall p :: OnChain(sec, off, p) ==> OnChain(t, off, p))
    decreases 2048 - off
  {
    hide RecAt, PremountBlob, PremountRec;
    var e := ChainEnd(sec, off);
    var t := Splice(sec, e, PremountBlob(extent, size));
    if ValidRecord(sec, off) {
      assert ChainEnd(sec, off + sec[off]) == e;
      SameRec(sec, t, sector, off);
      InjectChain(sec, sector, off + sec[off], extent, size);
    } else {
      InjectedAt(sec, sector, e, extent, size);
    }
  }
}
