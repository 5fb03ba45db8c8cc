/** The directory tree seen through the virtual CD-ROM: every directory keeps its
    records, except for the redirected config record and the premount record. */
module OverlayTree {
  import opened Bytes
  import opened IsoDirectory
  import opened IsoWalkers
  import opened Overlay

  // ── Edits of a record list ────────────────────────────────────────────

  predicate At(r: Rec, t: Redirect) { r.sector == t.sector && r.off == t.off }

  /** What the config step does to one record. */
  function Redirected(r: Rec, t: Option<Redirect>): Rec {
    if t.Some? && At(r, t.value) then r.(extent := t.value.extent, size := t.value.size) else r
  }

  /** What the premount step does to one record when it had to reuse a root file. */
  function Renamed(r: Rec, p: Slot): Rec {
    if p.Replaced? && At(r, p.target)
    then r.(extent := p.target.extent, size := p.target.size, name := PREMOUNT_NAME) else r
  }

  function RedirectList(rs: seq<Rec>, t: Option<Redirect>): (q: seq<Rec>)
    ensures |q| == |rs|
  {
    seq(|rs|, i requires 0 <= i < |rs| => Redirected(rs[i], t))
  }

  function RenameList(rs: seq<Rec>, p: Slot): (q: seq<Rec>)
    ensures |q| == |rs|
  {
    seq(|rs|, i requires 0 <= i < |rs| => Renamed(rs[i], p))
  }

  function EditRec(o: Disc, r: Rec): Rec { Renamed(Redirected(r, o.configEntry), o.premountEntry) }

  function EditList(o: Disc, rs: seq<Rec>): (q: seq<Rec>)
    ensures |q| == |rs|
  {
    seq(|rs|, i requires 0 <= i < |rs| => EditRec(o, rs[i]))
  }

  lemma EditListConcat(o: Disc, a: seq<Rec>, b: seq<Rec>)
    ensures EditList(o, a + b) == EditList(o, a) + EditList(o, b)
  {
  }

  // ── What the steps guarantee about the edits of a sector ──────────────

  /** The edits of sector `b` are edits of records: the redirected and renamed
      records start on its chain, and the injected one lies at its end. */
  predicate GoodEdits(o: Disc, b: nat, sec: Sector, size: u32) {
    && (o.configEntry.Some? && o.configEntry.value.sector == b ==> OnChain(sec, 0, o.configEntry.value.off))
    && (o.premountEntry.Injected? && o.premountEntry.sector == b ==>
          && o.premountEntry.off == ChainEnd(sec, 0) && o.premountEntry.off + 47 <= 2048
          && o.premountEntry.blob == PremountBlob(o.premount.sector % 0x1_0000_0000, size))
    && (o.premountEntry.Replaced? && o.premountEntry.target.sector == b ==>
          && OnChain(sec, 0, o.premountEntry.target.off) && o.premountEntry.target.off < 2048 &&
             sec[o.premountEntry.target.off] >= 46)
  }

  /** The record that the injection appends to its sector, if `b` is that sector. */
  function Extra(o: Disc, b: nat, size: u32): seq<Rec> {
    if o.premountEntry.Injected? && o.premountEntry.sector == b
    then [PremountRec(b, o.premountEntry.off, o.premount.sector % 0x1_0000_0000, size)] else []
  }

  lemma {:induction false} EditKeepsChain(sec: Sector, t: Sector, off: nat, p: nat, q: nat)
    requires OnChain(sec, off, p) && OnChain(sec, off, q)
    requires ValidRecord(t, p) && t[p] == sec[p] && Agree(sec, t, 0, p) && Agree(sec, t, p + sec[p], 2048)
    ensures q < 2048 && OnChain(t, off, q) && t[q] == sec[q]
    decreases 2048 - off
  {
    if p != off {
      OnChainFits(sec, off, p);
      SameRec(sec, t, 0, off);
      if q != off { EditKeepsChain(sec, t, off + sec[off], p, q); }
    } else if q != off {
      SameChain(sec, t, off + sec[off], q);
    }
  }

  lemma {:induction false} SameChain(a: Sector, b: Sector, off: nat, q: nat)
    requires off <= 2048 && Agree(a, b, off, 2048) && OnChain(a, off, q)
    ensures q < 2048 && OnChain(b, off, q) && a[q] == b[q]
    decreases 2048 - off
  {
    SameRec(a, b, 0, off);
    if q != off { SameChain(a, b, off + a[off], q); }
  }

  lemma ReplaceIsRedirect(sec: Sector, t: Redirect)
    requires ValidRecord(sec, t.off)
    ensures ReplaceRec(RecsFrom(sec, t.sector, 0), t.off,
                       RecAt(sec, t.sector, t.off).(extent := t.extent, size := t.size))
         == RedirectList(RecsFrom(sec, t.sector, 0), Some(t))
  {
    RecsBeyond(sec, t.sector, 0);
    hide RecsFrom, OnChain;
    forall r | r in RecsFrom(sec, t.sector, 0) ensures r.sector == t.sector {}
  }

  /** Redirecting a record of sector `b` redirects it in the record list and moves no record. */
  lemma RedirectSector(t: Redirect, sec: Sector)
    requires OnChain(sec, 0, t.off)
    ensures RecsFrom(Retargeted(sec, t.off, t.extent, t.size), t.sector, 0)
         == RedirectList(RecsFrom(sec, t.sector, 0), Some(t))
    ensures forall q: nat :: OnChain(sec, 0, q) && q < 2048 ==>
              OnChain(Retargeted(sec, t.off, t.extent, t.size), 0, q) &&
                Retargeted(sec, t.off, t.extent, t.size)[q] == sec[q]
  {
    RetargetChain(sec, t.sector, t.off, t.extent, t.size);
    ReplaceIsRedirect(sec, t);
    RetargetedAt(sec, t.sector, t.off, t.extent, t.size);
    hide Retargeted, RecsFrom, RecAt, ReplaceRec, RedirectList;
    forall q: nat | OnChain(sec, 0, q) && q < 2048
      ensures OnChain(Retargeted(sec, t.off, t.extent, t.size), 0, q) &&
              Retargeted(sec, t.off, t.extent, t.size)[q] == sec[q]
    {
      EditKeepsChain(sec, Retargeted(sec, t.off, t.extent, t.size), 0, t.off, q);
    }
  }

  lemma ReplaceIsRename(sec: Sector, t: Redirect, rs: seq<Rec>)
    requires ValidRecord(sec, t.off)
    requires RecsFrom(sec, t.sector, 0) == RedirectList(rs, Some(t))
    ensures ReplaceRec(RecsFrom(sec, t.sector, 0), t.off, RecAt(sec, t.sector, t.off).(name := PREMOUNT_NAME))
         == RenameList(rs, Replaced(t))
  {
    RecsBeyond(sec, t.sector, 0);
    hide RecsFrom, OnChain;
    var q := RecsFrom(sec, t.sector, 0);
    forall i | 0 <= i < |rs| ensures q[i] in q && q[i].sector == t.sector {}
  }

  lemma RenameSector(t: Redirect, sec: Sector)
    requires OnChain(sec, 0, t.off) && t.off < 2048 && sec[t.off] >= 46
    ensures RecsFrom(RenamedToPremount(Retargeted(sec, t.off, t.extent, t.size), t.off), t.sector, 0)
         == RenameList(RecsFrom(sec, t.sector, 0), Replaced(t))
  {
    hide Retargeted, RenamedToPremount;
    var sec1 := Retargeted(sec, t.off, t.extent, t.size);
    RedirectSector(t, sec);
    RenameChain(sec1, t.sector, t.off);
    ReplaceIsRename(sec1, t, RecsFrom(sec, t.sector, 0));
  }

  lemma InjectedSectorRecs(o: Disc, b: nat, sec: Sector, size: u32)
    requires GoodEdits(o, b, sec, size) && o.premountEntry.Injected?
    ensures RecsFrom(Edited(o, b, sec), b, 0) == EditList(o, RecsFrom(sec, b, 0)) + Extra(o, b, size)
  {
    hide RecsFrom, Retargeted, PremountBlob, OnChain, EditRec, Redirected;
    var c := o.configEntry;
    var rs, extra := RecsFrom(sec, b, 0), Extra(o, b, size);
    var sec1 := PremountIn(o.premountEntry, b, sec);
    if o.premountEntry.sector == b { InjectChain(sec, b, 0, o.premount.sector % 0x1_0000_0000, size); }
    assert RecsFrom(sec1, b, 0) == rs + extra;
    if c.Some? && c.value.sector == b {
      OnChainFits(sec, 0, c.value.off);
      RedirectSector(c.value, sec1);
    } else {
      RecsSector(sec, b, 0);
      RedirectElsewhere(rs + extra, c, b);
    }
    RedirectAppend(rs, extra, c);
    EditIsRedirect(o, rs);
  }

  lemma RedirectAppend(rs: seq<Rec>, extra: seq<Rec>, c: Option<Redirect>)
    requires c.Some? ==> forall r :: r in extra ==> !At(r, c.value)
    ensures RedirectList(rs + extra, c) == RedirectList(rs, c) + extra
  {
    assert RedirectList(rs + extra, c) == RedirectList(rs, c) + RedirectList(extra, c);
    forall i | 0 <= i < |extra| ensures Redirected(extra[i], c) == extra[i] { assert extra[i] in extra; }
  }

  lemma RedirectElsewhere(rs: seq<Rec>, c: Option<Redirect>, b: nat)
    requires !(c.Some? && c.value.sector == b) && forall r :: r in rs ==> r.sector == b
    ensures RedirectList(rs, c) == rs
  {
    forall i | 0 <= i < |rs| ensures Redirected(rs[i], c) == rs[i] { assert rs[i] in rs; }
  }

  lemma EditIsRedirect(o: Disc, rs: seq<Rec>)
    requires !o.premountEntry.Replaced?
    ensures EditList(o, rs) == RedirectList(rs, o.configEntry)
  {
  }

  /** A served directory sector holds the edited records, plus the injected one. */
  lemma SectorRecs(o: Disc, b: nat, sec: Sector, size: u32)
    requires GoodEdits(o, b, sec, size)
    ensures RecsFrom(Edited(o, b, sec), b, 0) == EditList(o, RecsFrom(sec, b, 0)) + Extra(o, b, size)
  {
    hide RecsFrom, RenamedToPremount, Retargeted, PremountBlob, OnChain;
    if o.premountEntry.Injected? {
      InjectedSectorRecs(o, b, sec, size);
      return;
    }
    var c := o.configEntry;
    var rs := RecsFrom(sec, b, 0);
    RecsSector(sec, b, 0);
    var sec1 := RedirectIn(c, b, sec);
    if c.Some? && c.value.sector == b { RedirectSector(c.value, sec); }
    assert RecsFrom(sec1, b, 0) == RedirectList(rs, c);
    if o.premountEntry.Replaced? && o.premountEntry.target.sector == b {
      RenameSector(o.premountEntry.target, sec1);
    }
  }

  lemma {:induction false} RecsSector(sec: Sector, sector: nat, off: nat)
    ensures forall r :: r in RecsFrom(sec, sector, off) ==> r.sector == sector
    decreases 2048 - off
  {
    if ValidRecord(sec, off) { RecsSector(sec, sector, off + sec[off]); }
  }
}
