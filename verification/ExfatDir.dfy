/** Directory entry sets of an exFAT volume: read sector by sector with a small carry
    buffer, or parsed from the whole directory at once. */
module ExfatDir {
  import opened Bytes

  const SECTOR := 512
  const ENTRY := 32
  const PER_SECTOR := 16
  const CARRY := 608

  type Disk = d: map<nat, seq<byte>> | forall k :: k in d ==> |d[k]| == SECTOR

  datatype Volume = Volume(disk: Disk, spc: u32, fatStart: u64, heapStart: u64)

  /** 64-bit address arithmetic wraps, also for clusters 0 and 1. */
  function Lba(v: Volume, cluster: u32, si: nat): nat {
    (v.heapStart as int + (cluster as int - 2) * v.spc as int + si) % 0x1_0000_0000_0000_0000
  }

  function FatEntry(v: Volume, cluster: u32): u32 {
    var lba: nat := (v.fatStart as int + cluster as int * 4 / SECTOR) % 0x1_0000_0000_0000_0000;
    if lba in v.disk then FromLe32(v.disk[lba], cluster as int * 4 % SECTOR) else 0xFFFF_FFFF
  }

  predicate ChainGoesOn(next: u32) { 2 <= next < 0xFFFF_FFF8 }

  /** The chain of `cluster` ends within `n` clusters. */
  predicate Ends(v: Volume, cluster: u32, n: nat)
    decreases n
  {
    n > 0 && (ChainGoesOn(FatEntry(v, cluster)) ==> Ends(v, FatEntry(v, cluster), n - 1))
  }

  /** The bytes of a directory from sector `si` of `cluster` on, up to the first sector that cannot be read. */
  function Stream(v: Volume, cluster: u32, si: nat, n: nat): (s: seq<byte>)
    requires Ends(v, cluster, n) && si <= v.spc
    decreases n, v.spc - si
  {
    if si < v.spc then
      if Lba(v, cluster, si) in v.disk then v.disk[Lba(v, cluster, si)] + Stream(v, cluster, si + 1, n) else []
    else if ChainGoesOn(FatEntry(v, cluster)) then Stream(v, FatEntry(v, cluster), 0, n - 1)
    else []
  }

  lemma {:induction false} StreamWholeSectors(v: Volume, cluster: u32, si: nat, n: nat)
    requires Ends(v, cluster, n) && si <= v.spc
    ensures |Stream(v, cluster, si, n)| % SECTOR == 0
    decreases n, v.spc - si
  {
    hide Lba, FatEntry;
    if si < v.spc {
      StreamWholeSectors(v, cluster, si + 1, n);
    } else if ChainGoesOn(FatEntry(v, cluster)) {
      StreamWholeSectors(v, FatEntry(v, cluster), 0, n - 1);
    }
  }

  function DirBytes(v: Volume, cluster: u32, n: nat): seq<byte>
    requires Ends(v, cluster, n)
  {
    Stream(v, cluster, 0, n)
  }

  // ── Entry sets ────────────────────────────────────────────────────────

  /** A file entry with all its secondary entries. */
  type FileSet = s: seq<byte> | |s| >= 2 * ENTRY && |s| == (1 + s[1] as int) * ENTRY
    witness [0x85, 1] + seq(62, i => 0)

  predicate FileSetStarts(t: seq<byte>) { |t| >= 2 && t[0] == 0x85 && t[1] >= 1 }

  function SetEntries(t: seq<byte>): (n: nat)
    requires FileSetStarts(t)
    ensures 2 <= n <= 256
  {
    1 + t[1] as int
  }

  predicate HasStream(t: seq<byte>) { |t| > ENTRY && t[ENTRY] == 0xC0 }

  function Emit(t: seq<byte>, n: nat): seq<FileSet>
    requires n * ENTRY <= |t| && FileSetStarts(t) && n == SetEntries(t)
  {
    if HasStream(t) then [t[..n * ENTRY]] else []
  }

  /** The file sets of a directory, read as one sequence of entries. */
  function Sets(t: seq<byte>): seq<FileSet>
    decreases |t|
  {
    if |t| < ENTRY || t[0] == 0 then []
    else if !FileSetStarts(t) then Sets(t[ENTRY..])
    else
      var n := SetEntries(t);
      if n * ENTRY > |t| then [] else Emit(t, n) + Sets(t[n * ENTRY..])
  }

  /** How many entries a set may have when it starts `at` entries into a sector: the reader
      keeps at most 19 entries (608 bytes) back while it fetches one more sector. */
  function Window(at: nat): nat
    requires at < PER_SECTOR
  {
    if PER_SECTOR - at >= 4 then 2 * PER_SECTOR - at else 3 * PER_SECTOR - at
  }

  /** The sets the sector-wise reader finds: a set beyond its window is given up, and reading
      goes on at the next sector. */
  function ReadSets(t: seq<byte>, at: nat): seq<FileSet>
    requires at < PER_SECTOR
    decreases |t|
  {
    if |t| < ENTRY || t[0] == 0 then []
    else if !FileSetStarts(t) then ReadSets(t[ENTRY..], (at + 1) % PER_SECTOR)
    else
      var n := SetEntries(t);
      if n > Window(at) then if Window(at) * ENTRY <= |t| then ReadSets(t[Window(at) * ENTRY..], 0) else []
      else if n * ENTRY > |t| then []
      else Emit(t, n) + ReadSets(t[n * ENTRY..], (at + n) % PER_SECTOR)
  }

  /** Every file set met from here on fits its window. */
  predicate AllFit(t: seq<byte>, at: nat)
    requires at < PER_SECTOR
    decreases |t|
  {
    if |t| < ENTRY || t[0] == 0 then true
    else if !FileSetStarts(t) then AllFit(t[ENTRY..], (at + 1) % PER_SECTOR)
    else
      var n := SetEntries(t);
      n <= Window(at) && (n * ENTRY <= |t| ==> AllFit(t[n * ENTRY..], (at + n) % PER_SECTOR))
  }

  /** Every file set met has at most `max` secondary entries. */
  predicate AtMost(t: seq<byte>, max: nat)
    decreases |t|
  {
    if |t| < ENTRY || t[0] == 0 then true
    else if !FileSetStarts(t) then AtMost(t[ENTRY..], max)
    else t[1] as int <= max && (SetEntries(t) * ENTRY <= |t| ==> AtMost(t[SetEntries(t) * ENTRY..], max))
  }

  lemma {:induction false} FittingSetsAreRead(t: seq<byte>, at: nat)
    requires at < PER_SECTOR && AllFit(t, at)
    ensures ReadSets(t, at) == Sets(t)
    decreases |t|
  {
    hide Emit;
    if |t| >= ENTRY && t[0] != 0 {
      if !FileSetStarts(t) {
        FittingSetsAreRead(t[ENTRY..], (at + 1) % PER_SECTOR);
      } else if SetEntries(t) * ENTRY <= |t| {
        FittingSetsAreRead(t[SetEntries(t) * ENTRY..], (at + SetEntries(t)) % PER_SECTOR);
      }
    }
  }

  lemma {:induction false} SmallSetsFit(t: seq<byte>, at: nat)
    requires at < PER_SECTOR && AtMost(t, 19)
    ensures AllFit(t, at)
    decreases |t|
  {
    if |t| >= ENTRY && t[0] != 0 {
      if !FileSetStarts(t) {
        SmallSetsFit(t[ENTRY..], (at + 1) % PER_SECTOR);
      } else if SetEntries(t) * ENTRY <= |t| {
        SmallSetsFit(t[SetEntries(t) * ENTRY..], (at + SetEntries(t)) % PER_SECTOR);
      }
    }
  }

  /** With at most 19 secondary entries a set (the format allows 18) the carry buffer loses
      nothing, wherever sets straddle sectors or clusters. */
  lemma ReadSetsAreSets(v: Volume, cluster: u32, n: nat)
    requires Ends(v, cluster, n) && AtMost(DirBytes(v, cluster, n), 19)
    ensures ReadSets(DirBytes(v, cluster, n), 0) == Sets(DirBytes(v, cluster, n))
  {
    hide DirBytes, AtMost, ReadSets, Sets, AllFit;
    SmallSetsFit(DirBytes(v, cluster, n), 0);
    FittingSetsAreRead(DirBytes(v, cluster, n), 0);
  }

  // ── Sets that do not fit ──────────────────────────────────────────────

  /** Entries 1 to `k` of `t` are secondary ones: neither an end mark nor the start of a set. */
  predicate Secondary(t: seq<byte>, k: nat) {
    forall i :: 1 <= i < k && (i + 1) * ENTRY <= |t| ==> t[i * ENTRY] != 0 && t[i * ENTRY] != 0x85
  }

  /** Every file set met is made of one file entry and secondary entries, as the format has it. */
  predicate WellFormed(t: seq<byte>)
    decreases |t|
  {
    if |t| < ENTRY || t[0] == 0 then true
    else if !FileSetStarts(t) then WellFormed(t[ENTRY..])
    else Secondary(t, SetEntries(t)) && (SetEntries(t) * ENTRY <= |t| ==> WellFormed(t[SetEntries(t) * ENTRY..]))
  }

  /** The sets of a directory that fit their window. */
  function FittingSets(t: seq<byte>, at: nat): seq<FileSet>
    requires at < PER_SECTOR
    decreases |t|
  {
    if |t| < ENTRY || t[0] == 0 then []
    else if !FileSetStarts(t) then FittingSets(t[ENTRY..], (at + 1) % PER_SECTOR)
    else
      var n := SetEntries(t);
      if n * ENTRY > |t| then []
      else (if n <= Window(at) then Emit(t, n) else []) + FittingSets(t[n * ENTRY..], (at + n) % PER_SECTOR)
  }

  /** Every set of the directory that names a file fits its window. */
  predicate FilesFit(t: seq<byte>, at: nat)
    requires at < PER_SECTOR
    decreases |t|
  {
    if |t| < ENTRY || t[0] == 0 then true
    else if !FileSetStarts(t) then FilesFit(t[ENTRY..], (at + 1) % PER_SECTOR)
    else
      var n := SetEntries(t);
      n * ENTRY <= |t| ==> (HasStream(t) ==> n <= Window(at)) && FilesFit(t[n * ENTRY..], (at + n) % PER_SECTOR)
  }

  /** Secondary entries are passed over, one by one. */
  lemma {:induction false} SkipSecondary(t: seq<byte>, from: nat, k: nat, at: nat)
    requires at < PER_SECTOR && 1 <= from <= k && Secondary(t, k) && from * ENTRY <= |t|
    ensures if k * ENTRY <= |t| then
            ReadSets(t[from * ENTRY..], at) == ReadSets(t[k * ENTRY..], (at + (k - from)) % PER_SECTOR)
            else ReadSets(t[from * ENTRY..], at) == []
    decreases k - from
  {
    var u := t[from * ENTRY..];
    if from < k && |u| >= ENTRY {
      assert u[0] == t[from * ENTRY];
      assert u[ENTRY..] == t[(from + 1) * ENTRY..];
      SkipSecondary(t, from + 1, k, (at + 1) % PER_SECTOR);
      assert ((at + 1) % PER_SECTOR + (k - (from + 1))) % PER_SECTOR == (at + (k - from)) % PER_SECTOR;
    }
  }

  /** A set beyond its window is lost; the sets behind it are found all the same. */
  lemma LargeSetIsSkipped(t: seq<byte>, at: nat)
    requires at < PER_SECTOR && |t| >= ENTRY && FileSetStarts(t) && Window(at) < SetEntries(t) &&
             Secondary(t, SetEntries(t))
    ensures var n := SetEntries(t);
            ReadSets(t, at) == if n * ENTRY <= |t| then ReadSets(t[n * ENTRY..], (at + n) % PER_SECTOR) else []
  {
    var n, w := SetEntries(t), Window(at);
    assert t[0] == 0x85;
    if w * ENTRY <= |t| {
      SkipSecondary(t, w, n, 0);
      assert (n - w) % PER_SECTOR == (at + n) % PER_SECTOR;
    }
  }

  /** In a well-formed directory the carry buffer finds exactly the sets that fit their window. */
  lemma {:induction false} ReadSetsAreFitting(t: seq<byte>, at: nat)
    requires at < PER_SECTOR && WellFormed(t)
    ensures ReadSets(t, at) == FittingSets(t, at)
    decreases |t|
  {
    if |t| >= ENTRY && t[0] != 0 {
      if !FileSetStarts(t) {
        ReadSetsAreFitting(t[ENTRY..], (at + 1) % PER_SECTOR);
      } else {
        var n := SetEntries(t);
        if n > Window(at) { LargeSetIsSkipped(t, at); }
        hide Emit, Window, Secondary;
        if n * ENTRY <= |t| { ReadSetsAreFitting(t[n * ENTRY..], (at + n) % PER_SECTOR); }
      }
    }
  }

  lemma {:induction false} FittingAreFewer(t: seq<byte>, at: nat)
    requires at < PER_SECTOR
    ensures |FittingSets(t, at)| <= |Sets(t)|
    ensures |FittingSets(t, at)| == |Sets(t)| <==> FilesFit(t, at)
    ensures FilesFit(t, at) ==> FittingSets(t, at) == Sets(t)
    decreases |t|
  {
    hide Window;
    if |t| >= ENTRY && t[0] != 0 {
      if !FileSetStarts(t) {
        FittingAreFewer(t[ENTRY..], (at + 1) % PER_SECTOR);
      } else if SetEntries(t) * ENTRY <= |t| {
        FittingAreFewer(t[SetEntries(t) * ENTRY..], (at + SetEntries(t)) % PER_SECTOR);
      }
    }
  }

  /** A well-formed directory is read completely if and only if each of its files fits the
      window at its place in the sector. */
  lemma ReadSetsAreSetsIff(t: seq<byte>, at: nat)
    requires at < PER_SECTOR && WellFormed(t)
    ensures ReadSets(t, at) == Sets(t) <==> FilesFit(t, at)
  {
    hide ReadSets, FittingSets, Sets, FilesFit, WellFormed;
    ReadSetsAreFitting(t, at);
    FittingAreFewer(t, at);
  }

  // ── The reader ────────────────────────────────────────────────────────

  /** What the reader holds back: nothing, or the start of a set that does not fit yet. */
  predicate Pending(carry: seq<byte>, at: nat)
    requires at < PER_SECTOR
  {
    if carry == [] then at == 0
    else
      var left := PER_SECTOR - at;
      && (|carry| == left * ENTRY || (left <= 3 && |carry| == (left + PER_SECTOR) * ENTRY))
      && FileSetStarts(carry) && SetEntries(carry) * ENTRY > |carry|
  }

  /** One step over `all` from entry `pos` on, which lies `(at + pos) % 16` entries into its sector. */
  lemma SkipEntry(all: seq<byte>, pos: nat, at: nat)
    requires at < PER_SECTOR && (pos + 1) * ENTRY <= |all| && all[pos * ENTRY] != 0 &&
             !FileSetStarts(all[pos * ENTRY..])
    ensures ReadSets(all[pos * ENTRY..], (at + pos) % PER_SECTOR) ==
            ReadSets(all[(pos + 1) * ENTRY..], (at + (pos + 1)) % PER_SECTOR)
  {
    var t := all[pos * ENTRY..];
    assert t[0] == all[pos * ENTRY] && t[ENTRY..] == all[(pos + 1) * ENTRY..];
    assert ((at + pos) % PER_SECTOR + 1) % PER_SECTOR == (at + (pos + 1)) % PER_SECTOR;
    hide Emit;
  }

  lemma Shift(at: nat, pos: nat, n: nat)
    ensures ((at + pos) % PER_SECTOR + n) % PER_SECTOR == (at + (pos + n)) % PER_SECTOR
  {
  }

  lemma CompleteSet(all: seq<byte>, pos: nat, at: nat, n: nat)
    requires at < PER_SECTOR && (pos + n) * ENTRY <= |all| && FileSetStarts(all[pos * ENTRY..]) &&
             n == SetEntries(all[pos * ENTRY..])
    requires n <= Window((at + pos) % PER_SECTOR)
    ensures ReadSets(all[pos * ENTRY..], (at + pos) % PER_SECTOR)
         == (if all[(pos + 1) * ENTRY] == 0xC0 then [all[pos * ENTRY..(pos + n) * ENTRY]] else [])
            + ReadSets(all[(pos + n) * ENTRY..], (at + (pos + n)) % PER_SECTOR)
  {
    var t := all[pos * ENTRY..];
    assert t[0] == all[pos * ENTRY] && t[ENTRY] == all[(pos + 1) * ENTRY] && t[n * ENTRY..] == all[(pos + n) * ENTRY..];
    assert t[..n * ENTRY] == all[pos * ENTRY..(pos + n) * ENTRY];
    Shift(at, pos, n);
    hide Window;
  }

  lemma SetFound(entries: seq<byte>, rest: seq<byte>, pos: nat, at: nat, n: nat, sets: seq<FileSet>)
    requires at < PER_SECTOR && (pos + n) * ENTRY <= |entries| && FileSetStarts((entries + rest)[pos * ENTRY..])
    requires n == SetEntries((entries + rest)[pos * ENTRY..]) && n <= Window((at + pos) % PER_SECTOR)
    ensures var all := entries + rest;
            sets + ReadSets(all[pos * ENTRY..], (at + pos) % PER_SECTOR) ==
            (if entries[(pos + 1) * ENTRY] == 0xC0 then sets + [entries[pos * ENTRY..(pos + n) * ENTRY]] else sets)
            + ReadSets(all[(pos + n) * ENTRY..], (at + (pos + n)) % PER_SECTOR)
  {
    hide ReadSets, Window;
    var all := entries + rest;
    CompleteSet(all, pos, at, n);
    assert all[pos * ENTRY..(pos + n) * ENTRY] == entries[pos * ENTRY..(pos + n) * ENTRY];
  }

  /** Entries left in the buffer: what is left of the sector `pos` lies in, or, for the set
      carried over, the carry and one more sector. */
  lemma LeftInBuffer(carry: seq<byte>, at: nat, pos: nat)
    requires at < PER_SECTOR && Pending(carry, at) && (pos == 0 || |carry| <= pos * ENTRY) &&
             pos * ENTRY < |carry| + SECTOR
    ensures |carry| % ENTRY == 0
    ensures var left := (|carry| + SECTOR) / ENTRY - pos;
            if pos == 0 && carry != [] then left == |carry| / ENTRY + PER_SECTOR
            else left == PER_SECTOR - (at + pos) % PER_SECTOR
  {
    var c := |carry| / ENTRY;
    if carry == [] {
      assert (at + pos) % PER_SECTOR == pos;
    } else if pos > 0 {
      assert (at + c) % PER_SECTOR == 0;
      assert (at + pos) % PER_SECTOR == pos - c;
    }
  }

  lemma GivenUp(t: seq<byte>, at: nat, rest: seq<byte>)
    requires at < PER_SECTOR && FileSetStarts(t) && SetEntries(t) > Window(at) && |t| == Window(at) * ENTRY
    ensures ReadSets(t + rest, at) == ReadSets(rest, 0)
  {
    assert (t + rest)[|t|..] == rest;
    hide Emit, Window;
  }

  /** A set that does not end within the buffer is kept back, or given up when that takes more than the carry. */
  lemma HoldBack(carry: seq<byte>, buf: seq<byte>, rest: seq<byte>, at: nat, pos: nat)
    requires at < PER_SECTOR && Pending(carry, at) && |buf| == SECTOR && (pos == 0 || |carry| <= pos * ENTRY) &&
             pos * ENTRY < |carry| + SECTOR
    requires var kept := (carry + buf)[pos * ENTRY..]; FileSetStarts(kept) && SetEntries(kept) * ENTRY > |kept|
    ensures var all, kept := carry + buf + rest, (carry + buf)[pos * ENTRY..];
            if |kept| <= CARRY then Pending(kept, (at + pos) % PER_SECTOR) && all[pos * ENTRY..] == kept + rest
            else ReadSets(all[pos * ENTRY..], (at + pos) % PER_SECTOR) == ReadSets(rest, 0)
  {
    hide ReadSets;
    var all, kept := carry + buf + rest, (carry + buf)[pos * ENTRY..];
    LeftInBuffer(carry, at, pos);
    assert all[pos * ENTRY..] == kept + rest;
    if |kept| > CARRY {
      assert pos == 0 && kept == carry + buf;
      GivenUp(kept, at, rest);
    }
  }

  lemma WithinWindow(carry: seq<byte>, at: nat, pos: nat, n: nat)
    requires at < PER_SECTOR && Pending(carry, at) && (pos == 0 || |carry| <= pos * ENTRY) &&
             (pos + n) * ENTRY <= |carry| + SECTOR && n > 0
    ensures n <= Window((at + pos) % PER_SECTOR)
  {
    LeftInBuffer(carry, at, pos);
  }

  /** One sector: finds the sets completed in `carry + buf`. */
  method ReadSector(carry: seq<byte>, buf: seq<byte>, ghost at: nat, ghost rest: seq<byte>)
    returns (sets: seq<FileSet>, newCarry: seq<byte>, ghost newAt: nat, stop: bool)
    requires at < PER_SECTOR && Pending(carry, at) && |buf| == SECTOR && |rest| % SECTOR == 0
    ensures newAt < PER_SECTOR && (!stop ==> Pending(newCarry, newAt))
    ensures ReadSets(carry + buf + rest, at) == sets + (if stop then [] else ReadSets(newCarry + rest, newAt))
  {
    hide ReadSets, Window, Pending;
    var total := |carry| + SECTOR;
    var entries := carry + buf;
    ghost var all := entries + rest;
    var nEntries := total / ENTRY;
    var pos := 0;
    sets, newCarry, newAt, stop := [], [], 0, false;
    LeftInBuffer(carry, at, 0);
    NothingPending();
    assert all[0..] == all;
    while pos < nEntries
      invariant pos <= nEntries && (pos == 0 || |carry| <= pos * ENTRY)
      invariant ReadSets(all, at) == sets + ReadSets(all[pos * ENTRY..], (at + pos) % PER_SECTOR)
    {
      var eType := entries[pos * ENTRY];
      if eType == 0 {
        stop := true;
        NoMoreSets(all[pos * ENTRY..], (at + pos) % PER_SECTOR);
        return;
      }
      var secCount := entries[pos * ENTRY + 1] as int;
      LeftInBuffer(carry, at, pos);
      if carry != [] { PastCarry(carry, buf, at); }
      if eType == 0x85 && secCount >= 1 {
        var totalEnts := 1 + secCount;
        assert FileSetStarts(all[pos * ENTRY..]);
        if pos + totalEnts > nEntries {
          HoldBack(carry, buf, rest, at, pos);
          if total - pos * ENTRY <= CARRY {
            newCarry := entries[pos * ENTRY..];
            newAt := (at + pos) % PER_SECTOR;
          }
          assert newCarry == [] ==> newCarry + rest == rest;
          return;
        }
        WithinWindow(carry, at, pos, totalEnts);
        SetFound(carry + buf, rest, pos, at, totalEnts, sets);
        if entries[(pos + 1) * ENTRY] == 0xC0 { sets := sets + [entries[pos * ENTRY..(pos + totalEnts) * ENTRY]]; }
        pos := pos + totalEnts;
      } else {
        SkipEntry(all, pos, at);
        pos := pos + 1;
      }
    }
    assert all[pos * ENTRY..] == newCarry + rest;
    assert (at + pos) % PER_SECTOR == 0 by { BufferEnds(carry, at, pos); }
  }

  /** The reader never stands inside the carry. */
  lemma PastCarry(carry: seq<byte>, buf: seq<byte>, at: nat)
    requires at < PER_SECTOR && Pending(carry, at) && carry != []
    ensures var entries := carry + buf; FileSetStarts(entries) && SetEntries(entries) * ENTRY > |carry|
  {
  }

  lemma NothingPending()
    ensures Pending([], 0)
  {
  }

  lemma BufferEnds(carry: seq<byte>, at: nat, pos: nat)
    requires at < PER_SECTOR && Pending(carry, at) && pos == (|carry| + SECTOR) / ENTRY
    ensures (at + pos) % PER_SECTOR == 0
  {
  }

  lemma NoMoreSets(t: seq<byte>, at: nat)
    requires at < PER_SECTOR && (t == [] || t[0] == 0)
    ensures ReadSets(t, at) == []
  {
  }

  /** A set that never ends is not found. */
  lemma PendingAlone(carry: seq<byte>, at: nat)
    requires at < PER_SECTOR && Pending(carry, at)
    ensures ReadSets(carry + [], at) == []
  {
    assert carry + [] == carry;
  }

  lemma StreamStep(v: Volume, cluster: u32, si: nat, n: nat, carry: seq<byte>)
    requires Ends(v, cluster, n) && si < v.spc
    ensures var lba := Lba(v, cluster, si);
            if lba in v.disk then
              carry + Stream(v, cluster, si, n) == carry + v.disk[lba] + Stream(v, cluster, si + 1, n) &&
                |v.disk[lba]| == SECTOR
            else Stream(v, cluster, si, n) == []
  {
    hide Lba, FatEntry;
  }

  lemma StreamNext(v: Volume, cluster: u32, n: nat)
    requires Ends(v, cluster, n)
    ensures var next := FatEntry(v, cluster);
            if ChainGoesOn(next) then
              n > 0 && Ends(v, next, n - 1) && Stream(v, cluster, v.spc, n) == Stream(v, next, 0, n - 1)
            else Stream(v, cluster, v.spc, n) == []
  {
    hide Lba, FatEntry;
  }

  /** Reads a directory along its cluster chain, one sector at a time. */
  method ReadDirSets(v: Volume, root: u32, ghost n: nat) returns (sets: seq<FileSet>)
    requires Ends(v, root, n)
    ensures sets == ReadSets(DirBytes(v, root, n), 0)
  {
    hide ReadSets, Pending, Lba, FatEntry, Stream, Ends;
    var cluster, carry := root, [];
    ghost var at: nat, left: nat, goal := 0, n, ReadSets(DirBytes(v, root, n), 0);
    sets := [];
    NothingPending();
    assert carry + DirBytes(v, root, n) == DirBytes(v, root, n);
    while true
      invariant at < PER_SECTOR && Pending(carry, at) && Ends(v, cluster, left)
      invariant sets + ReadSets(carry + Stream(v, cluster, 0, left), at) == goal
      decreases left
    {
      var stop;
      sets, carry, at, stop := ReadCluster(v, cluster, carry, at, left, sets, goal);
      if stop { return; }
      StreamNext(v, cluster, left);
      var next := FatEntry(v, cluster);
      if next < 2 || next >= 0xFFFF_FFF8 {
        PendingAlone(carry, at);
        return;
      }
      cluster, left := next, left - 1;
    }
  }

  /** The sectors of one cluster. */
  method ReadCluster(v: Volume, cluster: u32, carry0: seq<byte>, ghost at0: nat, ghost n: nat, sets0: seq<FileSet>,
                     ghost goal: seq<FileSet>)
      returns (sets: seq<FileSet>, carry: seq<byte>, ghost at: nat, stop: bool)
    requires at0 < PER_SECTOR && Pending(carry0, at0) && Ends(v, cluster, n)
    requires sets0 + ReadSets(carry0 + Stream(v, cluster, 0, n), at0) == goal
    ensures if stop then sets == goal
            else
              at < PER_SECTOR && Pending(carry, at) && sets + ReadSets(carry + Stream(v, cluster, v.spc, n), at) == goal
  {
    hide ReadSets, Pending, Lba, FatEntry, Stream, Ends;
    sets, carry, at, stop := sets0, carry0, at0, false;
    for si := 0 to v.spc
      invariant at < PER_SECTOR && Pending(carry, at)
      invariant sets + ReadSets(carry + Stream(v, cluster, si, n), at) == goal
    {
      var lba := Lba(v, cluster, si);
      StreamStep(v, cluster, si, n, carry);
      if lba !in v.disk {
        PendingAlone(carry, at);
        stop := true;
        return;
      }
      StreamWholeSectors(v, cluster, si + 1, n);
      var found;
      found, carry, at, stop := ReadSector(carry, v.disk[lba], at, Stream(v, cluster, si + 1, n));
      sets := sets + found;
      if stop { return; }
    }
  }
}
