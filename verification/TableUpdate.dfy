/** Non-destructive installation: room for the second partition is found behind the first one
    or cut from its end, and one entry is added to the existing table. */
module TableUpdate {
  import opened Bytes
  import opened PartitionTables
  import opened Installer

  // ── Tables as extents ─────────────────────────────────────────────────

  /** A table entry in sectors. */
  datatype Extent = Extent(used: bool, start: nat, len: nat)

  predicate Apart(a: Extent, b: Extent) { a.start + a.len <= b.start || b.start + b.len <= a.start }

  predicate Disjoint(t: seq<Extent>) {
    forall i, j :: 0 <= i < j < |t| && t[i].used && t[j].used ==> Apart(t[i], t[j])
  }

  predicate Within(t: seq<Extent>, limit: nat) {
    forall i :: 0 <= i < |t| && t[i].used ==> t[i].len > 0 && t[i].start + t[i].len <= limit
  }

  function FirstFree(t: seq<Extent>, i: nat): (r: Option<nat>)
    ensures r.Some? ==> i <= r.value < |t| && !t[r.value].used && forall k :: i <= k < r.value ==> t[k].used
    ensures r.None? ==> forall k :: i <= k < |t| ==> t[k].used
    decreases |t| - i
  {
    if i >= |t| then None else if !t[i].used then Some(i) else FirstFree(t, i + 1)
  }

  /** The lowest start among the used entries from `i` on that start at `from` or later, `limit` if none is lower. */
  function Lowest(t: seq<Extent>, i: nat, from: nat, limit: nat): (r: nat)
    ensures r <= limit && forall k :: i <= k < |t| && t[k].used && from <= t[k].start ==> r <= t[k].start
    ensures r == limit || exists k :: i <= k < |t| && t[k].used && from <= t[k].start && t[k].start == r
    decreases |t| - i
  {
    if i >= |t| then limit
    else
      var rest := Lowest(t, i + 1, from, limit);
      if t[i].used && from <= t[i].start < rest then t[i].start else rest
  }

  /** What the installer takes for the start of the next partition, wherever it lies. */
  function NextStart(t: seq<Extent>, limit: nat): nat { Lowest(t, 1, 0, limit) }

  // ── Where the new partition goes ──────────────────────────────────────

  function AlignUp(sector: nat): nat { if sector % 8 > 0 then sector + (8 - sector % 8) else sector }

  function Pad(sector: nat): (p: nat)
    ensures p < 8 && AlignUp(sector) == sector + p && (p == 0 <==> sector % 8 == 0)
  {
    if sector % 8 > 0 then 8 - sector % 8 else 0
  }

  predicate FreeBehind(part1End: nat, next: nat) { next >= part1End + EFI_SECTORS }

  /** Start of the new partition; nothing when partition 1 is too small to be shrunk. */
  function PlannedStart(part1Sectors: nat, next: nat): Option<nat> {
    var part1End := PART1_START + part1Sectors;
    if FreeBehind(part1End, next) then Some(AlignUp(part1End))
    else if part1Sectors / 2048 <= 32 then None
    else Some(AlignUp(part1End - EFI_SECTORS))
  }

  function Updated(t: seq<Extent>, slot: nat, part2: nat): seq<Extent>
    requires slot < |t| && t != [] && part2 >= PART1_START
  {
    t[0 := Extent(true, PART1_START, part2 - PART1_START)][slot := Extent(true, part2, EFI_SECTORS)]
  }

  /** The table before the update: partition 1 starts at sector 2048, all entries are disjoint and on the disk. */
  predicate Sound(t: seq<Extent>, limit: nat) {
    t != [] && t[0].used && t[0].start == PART1_START && Disjoint(t) && Within(t, limit)
  }

  function Part1End(t: seq<Extent>): nat
    requires t != []
  {
    t[0].start + t[0].len
  }

  /** The new partition ends before whatever follows partition 1. */
  predicate Fits(t: seq<Extent>, limit: nat, part2: nat)
    requires t != []
  {
    part2 + EFI_SECTORS <= Lowest(t, 1, Part1End(t), limit)
  }

  lemma PlanBounds(t: seq<Extent>, limit: nat, part2: nat)
    requires Sound(t, limit) && PlannedStart(t[0].len, NextStart(t, limit)) == Some(part2)
    ensures PART1_START < part2 < Lowest(t, 1, Part1End(t), limit) && part2 <= Part1End(t) + Pad(Part1End(t))
    ensures part2 < Part1End(t) || FreeBehind(Part1End(t), NextStart(t, limit))
    ensures part2 % 8 == 0
  {
    Later(t, limit);
  }

  /** Partition 1 keeps its size if and only if the new partition fits between it and whatever comes
      next; it is too small to be cut exactly below 33 MiB. The new start is the first multiple of
      eight sectors from there on. */
  lemma PlanIff(part1Sectors: nat, next: nat)
    ensures var (end, plan) := (2048 + part1Sectors, PlannedStart(part1Sectors, next));
            && (plan.None? <==> next - end < 65536 && part1Sectors < 33 * 2048)
            && (plan.Some? ==> (plan.value >= end <==> next - end >= 65536) && plan.value % 8 == 0 &&
                               0 <= plan.value - (if next - end >= 65536 then end else end - 65536) < 8)
  {
  }

  /** Nothing behind partition 1 starts before the overall next start. */
  lemma Later(t: seq<Extent>, limit: nat)
    requires Sound(t, limit)
    ensures Part1End(t) <= Lowest(t, 1, Part1End(t), limit) && NextStart(t, limit) <= Lowest(t, 1, Part1End(t), limit)
  {
    assert t[0].start + t[0].len <= limit;
  }

  lemma OthersApart(t: seq<Extent>, limit: nat, k: nat)
    requires Sound(t, limit) && 1 <= k < |t| && t[k].used
    ensures t[k].start + t[k].len <= PART1_START || Lowest(t, 1, Part1End(t), limit) <= t[k].start
  {
    assert Apart(t[0], t[k]);
    assert t[0].len > 0 && t[k].len > 0;
  }

  /** If the new partition fits, the updated table is disjoint and on the disk. */
  lemma FittingIsDisjoint(t: seq<Extent>, limit: nat, slot: nat, part2: nat)
    requires Sound(t, limit) && FirstFree(t, 1) == Some(slot) &&
             PlannedStart(t[0].len, NextStart(t, limit)) == Some(part2) && Fits(t, limit, part2)
    ensures var u := Updated(t, slot, part2); Disjoint(u) && Within(u, limit)
  {
    PlanBounds(t, limit, part2);
    hide PlannedStart, AlignUp, Pad;
    var u := Updated(t, slot, part2);
    forall i, j | 0 <= i < j < |u| && u[i].used && u[j].used ensures Apart(u[i], u[j]) {
      if i != 0 && i != slot && j != slot {
        assert Apart(t[i], t[j]);
      } else {
        if i != 0 && i != slot { OthersApart(t, limit, i); }
        if j != slot { OthersApart(t, limit, j); }
      }
    }
  }

  /** If it does not fit, it overlaps the entry that follows or runs off the disk. */
  lemma NotFittingOverlaps(t: seq<Extent>, limit: nat, slot: nat, part2: nat)
    requires Sound(t, limit) && FirstFree(t, 1) == Some(slot) &&
             PlannedStart(t[0].len, NextStart(t, limit)) == Some(part2) && !Fits(t, limit, part2)
    ensures var u := Updated(t, slot, part2); !(Disjoint(u) && Within(u, limit))
  {
    PlanBounds(t, limit, part2);
    var f, u := Lowest(t, 1, Part1End(t), limit), Updated(t, slot, part2);
    assert u[slot] == Extent(true, part2, EFI_SECTORS);
    hide PlannedStart, AlignUp, Pad, Lowest;
    if f == limit {
      assert u[slot].start + u[slot].len > limit;
    } else {
      var k :| 1 <= k < |t| && t[k].used && Part1End(t) <= t[k].start && t[k].start == f;
      assert u[k] == t[k] && u[k].len > 0;
      assert !Apart(u[k], u[slot]);
      if k < slot { assert !Disjoint(u); } else { assert slot < k; }
    }
  }

  /** The update keeps a sound table sound exactly when the padding to the next multiple of
      eight sectors leaves room. */
  lemma UpdateSoundIff(t: seq<Extent>, limit: nat, slot: nat, part2: nat)
    requires Sound(t, limit) && FirstFree(t, 1) == Some(slot) &&
             PlannedStart(t[0].len, NextStart(t, limit)) == Some(part2)
    ensures Sound(Updated(t, slot, part2), limit) <==> Fits(t, limit, part2)
    ensures Fits(t, limit, part2) <==>
            Part1End(t) + Pad(Part1End(t)) +
              (if FreeBehind(Part1End(t), NextStart(t, limit)) then EFI_SECTORS else 0) <=
                Lowest(t, 1, Part1End(t), limit)
  {
    hide Lowest, Disjoint, Within;
    if Fits(t, limit, part2) { FittingIsDisjoint(t, limit, slot, part2); }
    else { NotFittingOverlaps(t, limit, slot, part2); }
    hide Fits;
    RoomForUpdate(t, limit, part2);
  }

  lemma RoomForUpdate(t: seq<Extent>, limit: nat, part2: nat)
    requires Sound(t, limit) && PlannedStart(t[0].len, NextStart(t, limit)) == Some(part2)
    ensures Fits(t, limit, part2) <==>
            Part1End(t) + Pad(Part1End(t)) +
              (if FreeBehind(Part1End(t), NextStart(t, limit)) then EFI_SECTORS else 0) <=
                Lowest(t, 1, Part1End(t), limit)
  {
    hide Lowest, Disjoint, Within;
    PlanBounds(t, limit, part2);
  }

  /** A partition 1 that ends on a boundary of eight sectors always leaves room, and no entry
      but the first and the new one changes. */
  lemma AlignedUpdateIsSound(t: seq<Extent>, limit: nat, slot: nat, part2: nat)
    requires Sound(t, limit) && FirstFree(t, 1) == Some(slot) &&
             PlannedStart(t[0].len, NextStart(t, limit)) == Some(part2)
    requires Part1End(t) % 8 == 0
    ensures var u := Updated(t, slot, part2);
            && Sound(u, limit) && |u| == |t| && u[slot] == Extent(true, part2, EFI_SECTORS)
            && forall k :: 1 <= k < |t| && k != slot ==> u[k] == t[k]
  {
    UpdateSoundIff(t, limit, slot, part2);
    Later(t, limit);
  }

  /** The new partition 1 holds the shrunk file system, which is counted in whole mebibytes. */
  lemma ShrunkFilesystemFits(part1Sectors: nat, next: nat, part2: nat)
    requires PlannedStart(part1Sectors, next) == Some(part2) && !FreeBehind(PART1_START + part1Sectors, next)
    ensures (part1Sectors / 2048 - 32) * 2048 <= part2 - PART1_START
  {
  }

  /** Without that boundary the new partition can run into its neighbour. */
  lemma UnalignedOverlaps()
    ensures var t := [Extent(true, 2048, 200_001), Extent(false, 0, 0), Extent(true, 202_049, 100)];
            && Sound(t, 300_000) && FirstFree(t, 1) == Some(1) &&
               PlannedStart(200_001, NextStart(t, 300_000)) == Some(136_520)
            && !Sound(Updated(t, 1, 136_520), 300_000)
  {
    var t := [Extent(true, 2048, 200_001), Extent(false, 0, 0), Extent(true, 202_049, 100)];
    assert Lowest(t, 3, 0, 300_000) == 300_000 && Lowest(t, 2, 0, 300_000) == 202_049 &&
           Lowest(t, 1, 0, 300_000) == 202_049;
    var u := Updated(t, 1, 136_520);
    assert u[1] == Extent(true, 136_520, EFI_SECTORS) && u[2] == t[2] && !Apart(u[1], u[2]);
  }

  // ── MBR ───────────────────────────────────────────────────────────────

  function MbrExtents(m: Mbr): (t: seq<Extent>)
    requires m.Valid()
    ensures |t| == 4
  {
    seq(4, i requires 0 <=
        i < 4 => Extent(m.partitions[i].sectorCount > 0, m.partitions[i].startLba as int,
                        m.partitions[i].sectorCount as int))
  }

  /** The table with partition 1 cut at `part2` and the new entry in `slot`; sector numbers are cut
      to 32 bits. */
  function NewMbr(m: Mbr, slot: nat, part2: u64): (r: Mbr)
    requires m.Valid() && 0 < slot < 4
    ensures r.Valid()
  {
    var start: u32 := part2 % 0x1_0000_0000;
    var count: u32 := (start as int - PART1_START) % 0x1_0000_0000;
    var p0 := FillEntry(m.partitions[0], PART1_START, count).(active := ACTIVE, fsFlag := 0x07);
    var p1 := FillEntry(m.partitions[slot], start, EFI_SECTORS).(active := 0, fsFlag := EFI_SYSTEM);
    m.(partitions := m.partitions[0 := p0][slot := p1])
  }

  /** The written table has the planned extents if and only if the new partition's start fits an
      MBR entry; every other entry is the same. */
  lemma NewMbrExtentsIff(m: Mbr, slot: nat, part2: u64)
    requires m.Valid() && 0 < slot < 4 && part2 > PART1_START
    ensures MbrExtents(NewMbr(m, slot, part2)) == Updated(MbrExtents(m), slot, part2 as int) <==> part2 < 0x1_0000_0000
    ensures forall k :: 0 < k < 4 && k != slot ==> NewMbr(m, slot, part2).partitions[k] == m.partitions[k]
  {
    hide ToChs, PackChs, EndLba;
    var r, t := NewMbr(m, slot, part2), Updated(MbrExtents(m), slot, part2 as int);
    assert r.partitions[slot].startLba as int == part2 as int % 0x1_0000_0000 &&
           r.partitions[slot].sectorCount == EFI_SECTORS;
    assert forall k :: 0 < k < 4 && k != slot ==> r.partitions[k] == m.partitions[k];
    if part2 < 0x1_0000_0000 {
      assert r.partitions[0].startLba == PART1_START &&
             r.partitions[0].sectorCount as int == part2 as int - PART1_START;
      assert MbrExtents(r)[0] == t[0];
    } else {
      assert MbrExtents(r)[slot].start != t[slot].start;
    }
  }

  /** Partition 1 is the active data partition, the new one an inactive EFI partition. */
  lemma NewMbrFlags(m: Mbr, slot: nat, part2: u64)
    requires m.Valid() && 0 < slot < 4
    ensures var p := NewMbr(m, slot, part2).partitions;
            p[0].active == 0x80 && p[0].fsFlag == 7 && p[slot].active == 0 && p[slot].fsFlag == 0xEF
  {
    hide ToChs, PackChs, EndLba;
  }

  /** Start of the next partition of an MBR disk of `sectors` sectors, in bytes. */
  method FindNextMbrPartition(m: Mbr, sectors: nat) returns (next: nat)
    requires m.Valid()
    ensures next == NextStart(MbrExtents(m), sectors) * SECTOR_SIZE
  {
    ghost var t := MbrExtents(m);
    ghost var nextSector: nat := sectors;
    next := sectors * SECTOR_SIZE;
    for i := 1 to 4
      invariant next == nextSector * SECTOR_SIZE
      invariant nextSector <= sectors &&
                (nextSector == sectors || exists k :: 1 <= k < i && t[k].used && t[k].start == nextSector)
      invariant forall k :: 1 <= k < i && t[k].used ==> nextSector <= t[k].start
    {
      if m.partitions[i].sectorCount > 0 {
        var start := m.partitions[i].startLba as int * SECTOR_SIZE;
        if start < next {
          next, nextSector := start, m.partitions[i].startLba as int;
          assert t[i].used && t[i].start == nextSector;
        }
      }
    }
    hide MbrExtents;
  }

  method UpdateMbrTable(disk: array<byte>, mbr: Mbr, part2: u64) returns (r: Result<nat>)
    requires mbr.Valid() && disk.Length >= SECTOR_SIZE
    modifies disk
    ensures r.Ok? <==> FirstFree(MbrExtents(mbr), 1).Some?
    ensures r.Ok? ==>
            FirstFree(MbrExtents(mbr), 1) == Some(r.value) &&
            disk[..] == Splice(old(disk[..]), 0, EncodeMbr(NewMbr(mbr, r.value, part2)))
    ensures r.Err? ==> disk[..] == old(disk[..])
  {
    hide Splice, EncodeMbr, NewMbr;
    var slot := 1;
    while slot < 4 && mbr.partitions[slot].sectorCount != 0
      invariant 1 <= slot <= 4 && FirstFree(MbrExtents(mbr), 1) == FirstFree(MbrExtents(mbr), slot)
    {
      slot := slot + 1;
    }
    if slot == 4 { return Err; }
    CopyInto(disk, 0, EncodeMbr(NewMbr(mbr, slot, part2)));
    return Ok(slot);
  }

  // ── GPT ───────────────────────────────────────────────────────────────

  /** The last sector a new partition can start at without passing the end of 64-bit addresses. */
  const LAST_START: u64 := 0xFFFF_FFFF_FFFF_0000
  const NO_UNIQUE: seq<byte> := [0, 0, 0, 0, 0, 0, 0, 0, 0, 0, 0, 0, 0, 0, 0, 0]

  predicate Occupied(e: GptEntry) { e.uniqueGuid != NO_UNIQUE }

  /** An entry that ends before it starts has no sectors. */
  function GptExtents(p: seq<GptEntry>): (t: seq<Extent>)
    ensures |t| == |p|
  {
    seq(|p|, i requires 0 <= i < |p| =>
      Extent(Occupied(p[i]), p[i].startLba as int,
             if Occupied(p[i]) && p[i].startLba <= p[i].endLba then p[i].endLba as int - p[i].startLba as int + 1
             else 0))
  }

  function NewEntries(p: seq<GptEntry>, slot: nat, part2: u64, guid: seq<byte>): (r: seq<GptEntry>)
    requires 0 < slot < |p| && 0 < part2 <= LAST_START && |guid| == 16 && ValidTable(p)
    ensures |r| == |p| && ValidTable(r)
  {
    p[0 := p[0].(endLba := part2 - 1)]
     [slot := GptEntry(EFI_TYPE, guid, part2, part2 + EFI_SECTORS - 1, EFI_ATTR, CzName())]
  }

  /** The written entries have the planned extents, and every other entry is the same. */
  lemma NewEntriesExtents(p: seq<GptEntry>, slot: nat, part2: u64, guid: seq<byte>)
    requires 0 < slot < |p| && PART1_START < part2 <= LAST_START && |guid| == 16 && guid != NO_UNIQUE && ValidTable(p)
    requires Occupied(p[0]) && p[0].startLba == PART1_START
    ensures GptExtents(NewEntries(p, slot, part2, guid)) == Updated(GptExtents(p), slot, part2 as int)
    ensures forall k :: 0 < k < |p| && k != slot ==> NewEntries(p, slot, part2, guid)[k] == p[k]
  {
    var r := NewEntries(p, slot, part2, guid);
    assert forall k :: 0 < k < |p| && k != slot ==> r[k] == p[k];
    hide NO_UNIQUE;
  }

  method FreeEntry(p: seq<GptEntry>) returns (slot: Option<nat>)
    requires |p| == ENTRIES
    ensures slot == FirstFree(GptExtents(p), 1)
  {
    hide NO_UNIQUE;
    var i := 1;
    while i < ENTRIES && p[i].uniqueGuid != NO_UNIQUE
      invariant 1 <= i <= ENTRIES && FirstFree(GptExtents(p), 1) == FirstFree(GptExtents(p), i)
    {
      i := i + 1;
    }
    if i == ENTRIES { return None; }
    return Some(i);
  }

  /** Start of the next partition of a GPT disk, in sectors. */
  method FindNextPartition(g: Gpt) returns (next: nat)
    requires g.Valid()
    ensures next == NextStart(GptExtents(g.partitions), g.header.areaEnd as int + 1)
  {
    hide NO_UNIQUE;
    var limit := g.header.areaEnd as int + 1;
    ghost var t := GptExtents(g.partitions);
    next := limit;
    for i := 1 to ENTRIES
      invariant next <= limit && (next == limit || exists k :: 1 <= k < i && t[k].used && t[k].start == next)
      invariant forall k :: 1 <= k < i && t[k].used ==> next <= t[k].start
    {
      if g.partitions[i].uniqueGuid != NO_UNIQUE && g.partitions[i].startLba as int < next {
        next := g.partitions[i].startLba as int;
        assert t[i].used && t[i].start == next;
      }
    }
    hide GptExtents;
  }

  method UpdateGptTable(disk: array<byte>, part2: u64, guid: seq<byte>, crc: Crc) returns (r: Result<nat>)
    requires 0 < part2 <= LAST_START && |guid| == 16
    requires ReadGpt(disk[..]).Ok? ==> Rewritable(ReadGpt(disk[..]).value, disk.Length)
    modifies disk
    ensures r.Ok? <==>
            ReadGpt(old(disk[..])).Ok? && FirstFree(GptExtents(ReadGpt(old(disk[..])).value.partitions), 1).Some?
    ensures r.Ok? ==> var g := ReadGpt(old(disk[..])).value;
                      && FirstFree(GptExtents(g.partitions), 1) == Some(r.value)
                      && var h := Finalized(g.(partitions := NewEntries(g.partitions, r.value, part2, guid)), crc);
                         Placed(h, disk.Length) && disk[..] == WithGpt(old(disk[..]), h, crc)
    ensures r.Err? ==> disk[..] == old(disk[..])
  {
    hide ReadGpt, WithGpt, NewEntries, Finalized;
    var read := ReadGptFromDisk(disk);
    if read.Err? { return Err; }
    var g := read.value;
    var slot := FreeEntry(g.partitions);
    if slot.None? { return Err; }
    var changed := g.(partitions := NewEntries(g.partitions, slot.value, part2, guid));
    FinalizedStaysPlaced(changed, disk.Length, crc);
    WriteGpt(disk, Finalized(changed, crc), crc);
    return Ok(slot.value);
  }

  lemma FinalizedStaysPlaced(g: Gpt, disk: nat, crc: Crc)
    requires Rewritable(g, disk)
    ensures Placed(Finalized(g, crc), disk)
  {
  }

  /** A new entry in the second place makes the disk one the installer recognises. */
  lemma SecondEntryDetected(g: Gpt, part2: u64, guid: seq<byte>)
    requires g.Valid() && PART1_START < part2 <= LAST_START && |guid| == 16 && g.partitions[0].startLba == PART1_START
    ensures DetectGpt(g.(partitions := NewEntries(g.partitions, 1, part2, guid))) == Some(part2 as int * SECTOR_SIZE)
  {
  }
}
