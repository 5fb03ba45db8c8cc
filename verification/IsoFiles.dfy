/** The file system protocol on top of a medium: path resolution, extent reads and
    open files with a position. */
module IsoFiles {
  import opened Bytes
  import opened IsoDirectory
  import opened IsoWalkers
  import opened VirtualVolume

  // ── Paths ─────────────────────────────────────────────────────────────

  const BACKSLASH: u16 := 92
  const CLOSE_PAREN: u16 := 41

  /** Index after the last ")\\" of `path` before `n` (a device prefix), 0 if there is none. */
  function AfterDevice(path: seq<u16>, n: nat): (i: nat)
    requires n <= |path|
    ensures i <= n
  {
    if n < 2 then 0
    else if path[n - 2] == CLOSE_PAREN && path[n - 1] == BACKSLASH then n - 1
    else AfterDevice(path, n - 1)
  }

  function SkipSlashes(path: seq<u16>, i: nat): (j: nat)
    requires i <= |path|
    ensures i <= j <= |path| && (j < |path| ==> path[j] != BACKSLASH)
    decreases |path| - i
  {
    if i < |path| && path[i] == BACKSLASH then SkipSlashes(path, i + 1) else i
  }

  function NextSlash(path: seq<u16>, i: nat): (j: nat)
    requires i <= |path|
    ensures i <= j <= |path| && (j < |path| ==> path[j] == BACKSLASH) && forall k :: i <= k < j ==> path[k] != BACKSLASH
    decreases |path| - i
  {
    if i < |path| && path[i] != BACKSLASH then NextSlash(path, i + 1) else i
  }

  /** The names of `path` from `i` on, as the directory lookup compares them. */
  function Components(path: seq<u16>, i: nat): (names: seq<seq<byte>>)
    requires i < |path|
    ensures names != []
    decreases |path| - i
  {
    var j := NextSlash(path, i);
    var next := if j < |path| then j + 1 else j;
    [NameKey(path[i..j])] + if next < |path| && path[next] != 0 then Components(path, next) else []
  }

  /** Names behind backslashes. */
  function JoinedPath(names: seq<seq<u16>>): (p: seq<u16>)
    ensures names != [] ==> |p| > |names[0]| && p[0] == BACKSLASH && p[1..1 + |names[0]|] == names[0]
  {
    if names == [] then [] else [BACKSLASH] + names[0] + JoinedPath(names[1..])
  }

  predicate PathName(name: seq<u16>) { name != [] && BACKSLASH !in name && 0 !in name }

  function Keys(names: seq<seq<u16>>): seq<seq<byte>> {
    if names == [] then [] else [NameKey(names[0])] + Keys(names[1..])
  }

  lemma NextSlashIs(path: seq<u16>, i: nat, e: nat)
    requires i <= e <= |path| && (forall k :: i <= k < e ==> path[k] != BACKSLASH) &&
             (e < |path| ==> path[e] == BACKSLASH)
    ensures NextSlash(path, i) == e
    decreases e - i
  {
    if i < e { NextSlashIs(path, i + 1, e); }
  }

  lemma ComponentsFrom(path: seq<u16>, i: nat, e: nat)
    requires i < |path| && i <= e <= |path|
    requires (forall k :: i <= k < e ==> path[k] != BACKSLASH) && (e < |path| ==> path[e] == BACKSLASH)
    ensures Components(path, i) ==
            [NameKey(path[i..e])] + if e + 1 < |path| && path[e + 1] != 0 then Components(path, e + 1) else []
  {
    hide NameKey, NextSlash;
    NextSlashIs(path, i, e);
  }

  lemma {:induction false} JoinedComponents(pre: seq<u16>, names: seq<seq<u16>>)
    requires names != [] && names[0] != [] && forall i :: 0 <= i < |names| ==> PathName(names[i])
    ensures Components(pre + JoinedPath(names), |pre| + 1) == Keys(names)
    decreases |names|
  {
    hide NameKey, Components;
    var path, at, name, rest := pre + JoinedPath(names), |pre| + 1, names[0], JoinedPath(names[1..]);
    var pre2 := pre + [BACKSLASH] + name;
    assert path == pre2 + rest;
    assert pre2[at..] == name;
    assert names[1..] == [] ==> rest == [];
    hide JoinedPath;
    assert path[at..|pre2|] == name;
    forall k | at <= k < |pre2| ensures path[k] != BACKSLASH { assert path[k] == name[k - at]; }
    if |names| > 1 {
      assert names[1..][0] == names[1] && rest[1] == rest[1..1 + |names[1]|][0] == names[1][0];
      assert path[|pre2|] == rest[0] && path[|pre2| + 1] == rest[1];
      JoinedComponents(pre2, names[1..]);
    } else {
      assert names[1..] == [];
    }
    ComponentsFrom(path, at, |pre2|);
  }

  /** A device prefix ends at `k`. */
  predicate DeviceAt(path: seq<u16>, k: nat) {
    k + 1 < |path| && path[k] == CLOSE_PAREN && path[k + 1] == BACKSLASH
  }

  /** No device prefix ends behind `from`. */
  lemma {:induction false} DeviceEndsAt(path: seq<u16>, from: nat, n: nat)
    requires from + 1 <= n <= |path| && (from > 0 ==> path[from - 1] == CLOSE_PAREN && path[from] == BACKSLASH)
    requires forall k :: from <= k < n ==> !DeviceAt(path[..n], k)
    ensures AfterDevice(path, n) == from
    decreases n
  {
    if n > from + 1 {
      assert !DeviceAt(path[..n], n - 2);
      var shorter := path[..n - 1];
      forall k | from <= k < n - 1 ensures !DeviceAt(shorter, k) { assert !DeviceAt(path[..n], k); }
      DeviceEndsAt(path, from, n - 1);
    }
  }

  /** A path of names behind a device prefix, or without one, is resolved name by name, as long as
      no directory's name ends in a closing parenthesis. */
  lemma PathOfNames(device: seq<u16>, names: seq<seq<u16>>)
    requires device == [] || device[|device| - 1] == CLOSE_PAREN
    requires names != [] && forall i :: 0 <= i < |names| ==> PathName(names[i])
    requires forall k :: 0 <= k < |JoinedPath(names)| ==> !DeviceAt(JoinedPath(names), k)
    ensures var path := device + JoinedPath(names);
            var i := SkipSlashes(path, AfterDevice(path, |path|));
            i < |path| && Components(path, i) == Keys(names)
  {
    hide Components, Keys;
    var p := JoinedPath(names);
    var path := device + p;
    assert path[..|path|] == path;
    forall k | |device| <= k < |path| ensures !DeviceAt(path, k) {
      assert !DeviceAt(p, k - |device|);
    }
    DeviceEndsAt(path, |device|, |path|);
    assert path[|device|] == p[0] == BACKSLASH && path[|device| + 1] == p[1] == p[1..1 + |names[0]|][0] == names[0][0];
    assert SkipSlashes(path, |device|) == |device| + 1;
    JoinedComponents(device, names);
  }

  function Answer(r: Option<Rec>): Option<(u32, u32, bool)> {
    match r
    case None => None
    case Some(rec) => Some((rec.extent, rec.size, rec.IsDir()))
  }

  lemma ResolveStep(m: Medium, d: Dir, path: seq<u16>, i: nat)
    requires i < |path|
    ensures var j := NextSlash(path, i);
            var next := if j < |path| then j + 1 else j;
            var child := Lookup(m, d.0, 0, Sectors(d.1), NameKey(path[i..j]));
            Answer(Resolve(m, d, Components(path, i))) ==
            if child.None? then None
            else if next < |path| && path[next] != 0 then
              if child.value.IsDir() then
                Answer(Resolve(m, (child.value.extent, child.value.size), Components(path, next))) else None
            else Answer(child)
  {
    hide NameKey, Lookup, FirstNamed, Listing;
    LookupIsListing(m, d, NameKey(path[i..NextSlash(path, i)]));
  }

  method WalkComponents(m: Medium, lba: u32, size: u32, path: seq<u16>, start: nat)
    returns (r: Option<(u32, u32, bool)>)
    requires start < |path|
    ensures r == Answer(Resolve(m, (lba, size), Components(path, start)))
  {
    hide NameKey, Lookup, Resolve, Components, NextSlash, Answer;
    var pos, curLba, curSize := start, lba, size;
    while pos < |path|
      invariant pos < |path|
      invariant Answer(Resolve(m, (lba, size), Components(path, start))) ==
                Answer(Resolve(m, (curLba, curSize), Components(path, pos)))
      decreases |path| - pos
    {
      ResolveStep(m, (curLba, curSize), path, pos);
      var compStart := pos;
      pos := ComponentEnd(path, pos);
      var child := LookupInDir(m, curLba, curSize, path[compStart..pos]);
      if child.None? { return None; }
      if pos < |path| && path[pos] == BACKSLASH { pos := pos + 1; }
      var hasMore := pos < |path| && path[pos] != 0;
      if hasMore && !child.value.IsDir() { return None; }
      if !hasMore { return Answer(child); }
      curLba, curSize := child.value.extent, child.value.size;
    }
  }

  /** Resolving a backslash path finds what resolving its names one by one finds. */
  method ResolvePath(m: Medium, startLba: u32, startSize: u32, path: seq<u16>) returns (r: Option<(u32, u32, bool)>)
    ensures var i := SkipSlashes(path, AfterDevice(path, |path|));
            r == if i >= |path| then Some((startLba, startSize, true))
                 else Answer(Resolve(m, (startLba, startSize), Components(path, i)))
  {
    hide Resolve, Components, Answer;
    var pos := DeviceEnd(path);
    pos := LeadingSlashes(path, pos);
    if pos >= |path| { return Some((startLba, startSize, true)); }
    r := WalkComponents(m, startLba, startSize, path, pos);
  }

  method LeadingSlashes(path: seq<u16>, start: nat) returns (pos: nat)
    requires start <= |path|
    ensures pos == SkipSlashes(path, start)
  {
    pos := start;
    while pos < |path| && path[pos] == BACKSLASH
      invariant pos <= |path| && SkipSlashes(path, pos) == SkipSlashes(path, start)
    {
      pos := pos + 1;
    }
  }

  method ComponentEnd(path: seq<u16>, start: nat) returns (pos: nat)
    requires start <= |path|
    ensures pos == NextSlash(path, start)
  {
    pos := start;
    while pos < |path| && path[pos] != BACKSLASH
      invariant start <= pos <= |path| && NextSlash(path, pos) == NextSlash(path, start)
    {
      pos := pos + 1;
    }
  }

  lemma LookupIsListing(m: Medium, d: Dir, name: seq<byte>)
    ensures Lookup(m, d.0, 0, Sectors(d.1), name) == FirstNamed(Listing(m, d), name)
  {
    LookupIsFirstNamed(m, d.0, 0, Sectors(d.1), name);
  }

  /** The scan for the last device prefix. */
  method DeviceEnd(path: seq<u16>) returns (start: nat)
    ensures start == AfterDevice(path, |path|)
  {
    start := 0;
    var i := 0;
    while i + 1 < |path|
      invariant i <= |path| && (|path| > 0 ==> i < |path| && start == AfterDevice(path, i + 1)) &&
                (|path| == 0 ==> start == 0)
    {
      if path[i] == CLOSE_PAREN && path[i + 1] == BACKSLASH { start := i + 1; }
      i := i + 1;
    }
  }

  // ── Extent reads ──────────────────────────────────────────────────────

  /** What a read of `n` bytes delivers that starts `skip` bytes into block `b`. */
  function ReadRun(m: Medium, b: nat, skip: nat, n: nat): (r: seq<byte>)
    requires skip < 2048
    ensures |r| <= n
    decreases n
  {
    if n == 0 then [] else
    match m(b)
    case None => []
    case Some(sec) =>
      if n <= 2048 - skip then sec[skip..skip + n] else sec[skip..] + ReadRun(m, b + 1, 0, n - (2048 - skip))
  }

  /** A read at `offset` of an extent, into a buffer of `n` bytes. */
  function ReadAt(m: Medium, lba: nat, size: nat, offset: nat, n: nat): (r: seq<byte>)
    ensures |r| <= n
  {
    if offset >= size then []
    else ReadRun(m, lba + offset / 2048, offset % 2048, if size - offset < n then size - offset else n)
  }

  lemma ReadAtWithin(m: Medium, lba: nat, size: nat, offset: nat, n: nat)
    ensures offset + |ReadAt(m, lba, size, offset, n)| <= if offset < size then size else offset
  {
  }

  method ReadExtentData(m: Medium, lba: nat, extentSize: u32, offset: u64, buf: array<byte>) returns (n: nat)
    modifies buf
    ensures n == |ReadAt(m, lba, extentSize, offset, buf.Length)|
    ensures buf[..] == Splice(old(buf[..]), 0, ReadAt(m, lba, extentSize, offset, buf.Length))
  {
    hide Splice, ReadRun;
    SpliceNothing(buf[..]);
    if offset >= extentSize { return 0; }
    var maxRead := if extentSize - offset < buf.Length then extentSize - offset else buf.Length;
    var remaining: nat := maxRead;
    var dstOff: nat := 0;
    var curSector: nat := lba + offset / 2048;
    var srcOff: nat := offset % 2048;
    ghost var whole := ReadRun(m, curSector, srcOff, maxRead);
    ghost var before, done: seq<byte> := buf[..], [];
    while remaining > 0
      invariant dstOff + remaining == maxRead <= buf.Length && srcOff < 2048 && |done| == dstOff
      invariant whole == done + ReadRun(m, curSector, srcOff, remaining)
      invariant buf[..] == Splice(before, 0, done)
      decreases remaining
    {
      var read := m(curSector);
      if read.None? { ReadRunFails(m, curSector, srcOff, remaining); break; }
      var scratch := read.value;
      var copy := if remaining < 2048 - srcOff then remaining else 2048 - srcOff;
      var chunk := scratch[srcOff..srcOff + copy];
      SpliceOnward(before, done, chunk);
      ReadRunStep(m, curSector, srcOff, remaining);
      CopyInto(buf, dstOff, chunk);
      done := done + chunk;
      dstOff, remaining, curSector, srcOff := dstOff + copy, remaining - copy, curSector + 1, 0;
    }
    if remaining == 0 { ReadRunFails(m, curSector, srcOff, remaining); }
    return dstOff;
  }

  lemma ReadRunFails(m: Medium, b: nat, skip: nat, n: nat)
    requires skip < 2048 && (n == 0 || m(b).None?)
    ensures ReadRun(m, b, skip, n) == []
  {
  }

  lemma SpliceOnward(s: seq<byte>, done: seq<byte>, chunk: seq<byte>)
    requires |done| + |chunk| <= |s|
    ensures Splice(Splice(s, 0, done), |done|, chunk) == Splice(s, 0, done + chunk)
  {
  }

  lemma SpliceNothing(s: seq<byte>)
    ensures Splice(s, 0, []) == s
  {
  }

  lemma ReadRunStep(m: Medium, b: nat, skip: nat, n: nat)
    requires skip < 2048 && n > 0 && m(b).Some?
    ensures var copy := if n < 2048 - skip then n else 2048 - skip;
            ReadRun(m, b, skip, n) == m(b).value[skip..skip + copy] + ReadRun(m, b + 1, 0, n - copy)
  {
    if n <= 2048 - skip {
      assert ReadRun(m, b + 1, 0, 0) == [];
    }
  }

  lemma ExtentStep(m: Medium, lba: nat, size: nat)
    requires size > 2048 && |ExtentBytes(m, lba, size)| == size
    ensures m(lba).Some? && ExtentBytes(m, lba, size) == m(lba).value + ExtentBytes(m, lba + 1, size - 2048)
  {
  }

  lemma ReadRunInBlock(m: Medium, lba: nat, size: nat, skip: nat, n: nat)
    requires 0 < size && |ExtentBytes(m, lba, size)| == size && skip + n <= size && skip + n <= 2048
    ensures skip < 2048 ==> ReadRun(m, lba, skip, n) == ExtentBytes(m, lba, size)[skip..skip + n]
  {
    if size > 2048 { ExtentStep(m, lba, size); }
  }

  /** On a fully readable extent every read delivers the slice of the file's bytes. */
  lemma {:induction false} ReadRunIsSlice(m: Medium, lba: nat, size: nat, k: nat, skip: nat, n: nat)
    requires 0 < size && |ExtentBytes(m, lba, size)| == size && k * 2048 + skip + n <= size && skip < 2048
    ensures ReadRun(m, lba + k, skip, n) == ExtentBytes(m, lba, size)[k * 2048 + skip..k * 2048 + skip + n]
    decreases size
  {
    hide ReadRun, ExtentBytes;
    var all := ExtentBytes(m, lba, size);
    var at := k * 2048 + skip;
    if n == 0 {
      ReadRunFails(m, lba + k, skip, 0);
    } else if k > 0 {
      ExtentStep(m, lba, size);
      ReadRunIsSlice(m, lba + 1, size - 2048, k - 1, skip, n);
      assert all[at..at + n] == ExtentBytes(m, lba + 1, size - 2048)[at - 2048..at - 2048 + n];
    } else if n <= 2048 - skip {
      ReadRunInBlock(m, lba, size, skip, n);
    } else {
      ExtentStep(m, lba, size);
      ReadRunStep(m, lba, skip, n);
      var left := n - (2048 - skip);
      ReadRunIsSlice(m, lba + 1, size - 2048, 0, 0, left);
      assert all[at..at + n] == m(lba).value[skip..] + ExtentBytes(m, lba + 1, size - 2048)[..left];
    }
  }

  lemma ReadAtIsSlice(m: Medium, lba: nat, size: nat, offset: nat, n: nat)
    requires |ExtentBytes(m, lba, size)| == size
    ensures ReadAt(m, lba, size, offset, n) == Slice(ExtentBytes(m, lba, size), offset, n)
  {
    hide ReadRun, ExtentBytes;
    if offset < size {
      var len := if size - offset < n then size - offset else n;
      ReadRunIsSlice(m, lba, size, offset / 2048, offset % 2048, len);
    }
  }

  /** At most `n` bytes of a file's contents from `pos` on. */
  function Slice(content: seq<byte>, pos: nat, n: nat): (r: seq<byte>)
    ensures |r| <= n
  {
    if pos >= |content| then [] else if |content| - pos < n then content[pos..] else content[pos..pos + n]
  }

  // ── Open files ────────────────────────────────────────────────────────

  datatype FileStatus = FileSuccess | Unsupported

  /** What callers do with an open file. */
  datatype FileOp = Seek(position: nat) | Read(size: nat)

  /** The contents of an open file behave like a byte string with a clamped position. */
  function Position(content: seq<byte>, pos: nat, op: FileOp): nat {
    match op
    case Seek(p) => if p > |content| then |content| else p
    case Read(n) => pos + |Slice(content, pos, n)|
  }

  function Output(content: seq<byte>, pos: nat, op: FileOp): seq<byte> {
    match op
    case Seek(_) => []
    case Read(n) => Slice(content, pos, n)
  }

  /** All bytes delivered by a run of operations. */
  function Outputs(content: seq<byte>, pos: nat, ops: seq<FileOp>): seq<byte>
    decreases |ops|
  {
    if ops == [] then [] else Output(content, pos, ops[0]) + Outputs(content, Position(content, pos, ops[0]), ops[1..])
  }

  function Total(ops: seq<FileOp>): nat {
    if ops == [] then 0 else (if ops[0].Read? then ops[0].size else 0) + Total(ops[1..])
  }

  // ── What backs an open file ───────────────────────────────────────────

  /** Bytes held in memory, or an extent of the image, any block of which may be unreadable. */
  datatype Backing = Memory(text: seq<byte>) | Extent(m: Medium, lba: nat, size: u32) {
    function Length(): nat { if Memory? then |text| else size }

    /** What one read of `n` bytes at `pos` delivers. */
    function At(pos: nat, n: nat): (r: seq<byte>)
      ensures |r| <= n
    {
      if Memory? then Slice(text, pos, n) else ReadAt(m, lba, size, pos, n)
    }

    function Content(): seq<byte> { if Memory? then text else ExtentBytes(m, lba, size) }

    /** Every block of the file can be read. */
    predicate Readable() { |Content()| == Length() }

    function Moved(pos: nat, op: FileOp): nat {
      match op
      case Seek(p) => Least(p, Length())
      case Read(n) => pos + |At(pos, n)|
    }

    function Got(pos: nat, op: FileOp): seq<byte> { if op.Read? then At(pos, op.size) else [] }

    /** All bytes delivered by a run of operations. */
    function Produced(pos: nat, ops: seq<FileOp>): seq<byte>
      decreases |ops|
    {
      if ops == [] then [] else Got(pos, ops[0]) + Produced(Moved(pos, ops[0]), ops[1..])
    }

    /** Where a run of operations ends. */
    function Reached(pos: nat, ops: seq<FileOp>): nat
      decreases |ops|
    {
      if ops == [] then pos else Reached(Moved(pos, ops[0]), ops[1..])
    }
  }

  lemma ReadableStep(b: Backing, pos: nat, op: FileOp)
    requires b.Readable()
    ensures b.Got(pos, op) == Output(b.Content(), pos, op) && b.Moved(pos, op) == Position(b.Content(), pos, op)
  {
    hide ExtentBytes, ReadAt;
    if b.Extent? && op.Read? { ReadAtIsSlice(b.m, b.lba, b.size, pos, op.size); }
  }

  /** When every block can be read, a run of seeks and reads cannot tell the file from a byte string. */
  lemma {:induction false} ProducedIsOutputs(b: Backing, pos: nat, ops: seq<FileOp>)
    requires b.Readable()
    ensures b.Produced(pos, ops) == Outputs(b.Content(), pos, ops)
    decreases |ops|
  {
    if ops != [] {
      ReadableStep(b, pos, ops[0]);
      ProducedIsOutputs(b, b.Moved(pos, ops[0]), ops[1..]);
    }
  }

  /** Consecutive reads deliver consecutive bytes: reads of any sizes concatenate to
      one read of their total size, so reads from zero eventually give the whole file. */
  lemma {:induction false} ReadsConcatenate(content: seq<byte>, pos: nat, ops: seq<FileOp>)
    requires pos <= |content| && forall op :: op in ops ==> op.Read?
    ensures Outputs(content, pos, ops) == Slice(content, pos, Total(ops))
    ensures pos == 0 && Total(ops) >= |content| ==> Outputs(content, pos, ops) == content
    decreases |ops|
  {
    hide Slice;
    SliceFits(content, pos, Total(ops));
    if ops == [] {
      SliceFits(content, pos, 0);
    } else {
      var n := ops[0].size;
      SliceFits(content, pos, n);
      var next := pos + |Slice(content, pos, n)|;
      assert Outputs(content, pos, ops) == Slice(content, pos, n) + Outputs(content, next, ops[1..]);
      assert Total(ops) == n + Total(ops[1..]);
      hide Outputs, Total;
      ReadsConcatenate(content, next, ops[1..]);
      SliceAppend(content, pos, n, Total(ops[1..]));
    }
  }

  lemma SliceAppend(content: seq<byte>, pos: nat, n: nat, k: nat)
    ensures var first := Slice(content, pos, n);
            first + Slice(content, pos + |first|, k) == Slice(content, pos, n + k)
  {
  }

  lemma SliceFits(content: seq<byte>, pos: nat, n: nat)
    requires pos <= |content|
    ensures pos + |Slice(content, pos, n)| <= |content|
    ensures n == 0 ==> Slice(content, pos, n) == []
    ensures pos == 0 && n >= |content| ==> Slice(content, pos, n) == content
  {
  }

  class VirtualFile {
    const m: Medium
    const isDir: bool
    const extentLba: nat
    const extentSize: u32
    var position: u64
    /** Replacement text held in memory (`patched_buf`). */
    var patched: Option<seq<byte>>
    /** The premount archive served from memory (`synthetic_buf`). */
    const synthetic: Option<seq<byte>>

    ghost predicate Valid()
      reads this
    {
      && !(patched.Some? && synthetic.Some?)
      && (patched.Some? ==> |patched.value| < 0x1_0000_0000) && (synthetic.Some? ==> |synthetic.value| < 0x1_0000_0000)
    }

    /** The memory buffers come before the extent. */
    ghost function Source(): Backing
      reads this
    {
      if synthetic.Some? then Memory(synthetic.value)
      else if patched.Some? then Memory(patched.value)
      else Extent(m, extentLba, extentSize)
    }

    constructor (m: Medium, isDir: bool, lba: nat, size: u32, synthetic: Option<seq<byte>>)
      requires synthetic.Some? ==> |synthetic.value| < 0x1_0000_0000
      ensures Valid() && position == 0 && this.isDir == isDir
      ensures Source() == if synthetic.Some? then Memory(synthetic.value) else Extent(m, lba, size)
    {
      this.m, this.isDir, extentLba, extentSize, position := m, isDir, lba, size, 0;
      patched, this.synthetic := None, synthetic;
    }

    /** Seeking clamps to the file's length; a directory only rewinds. */
    method SetPosition(pos: u64) returns (status: FileStatus)
      requires Valid()
      modifies this`position
      ensures Valid() && Source() == old(Source())
      ensures isDir ==> if pos != 0 then status == Unsupported && position == old(position)
                        else status == FileSuccess && position == 0
      ensures !isDir ==> status == FileSuccess && position == Source().Moved(old(position), Seek(pos))
    {
      if isDir {
        if pos != 0 { return Unsupported; }
        position := 0;
        return FileSuccess;
      }
      var max := if patched.Some? then |patched.value| else if synthetic.Some? then |synthetic.value| else extentSize;
      position := if pos > max then max else pos;
      return FileSuccess;
    }

    /** Reading delivers what the file has at the position and advances by that much. */
    method Read(buf: array<byte>) returns (status: FileStatus, n: nat)
      requires Valid()
      modifies this`position, buf
      ensures Valid() && Source() == old(Source())
      ensures isDir ==> status == Unsupported && n == 0 && position == old(position) && buf[..] == old(buf[..])
      ensures !isDir ==>
                var out := Source().At(old(position), buf.Length);
                && status == FileSuccess && n == |out|
                && buf[..] == Splice(old(buf[..]), 0, out)
                && position == old(position) + n
    {
      hide Splice, ReadAt, ExtentBytes;
      SpliceNothing(buf[..]);
      if isDir { return Unsupported, 0; }
      if buf.Length == 0 { return FileSuccess, 0; }
      if synthetic.Some? || patched.Some? {
        var src := if synthetic.Some? then synthetic.value else patched.value;
        if position >= |src| { return FileSuccess, 0; }
        var avail := |src| - position;
        var toCopy := if buf.Length < avail then buf.Length else avail;
        assert Source() == Memory(src) && src[position..position + toCopy] == Slice(src, position, buf.Length);
        CopyInto(buf, 0, src[position..position + toCopy]);
        position := position + toCopy;
        return FileSuccess, toCopy;
      }
      ReadAtWithin(m, extentLba, extentSize, position, buf.Length);
      n := ReadExtentData(m, extentLba, extentSize, position, buf);
      position := position + n;
      status := FileSuccess;
    }
  }

  /** Every run of seeks and reads on an open file delivers what its backing produces. */
  method Run(f: VirtualFile, ops: seq<FileOp>) returns (out: seq<byte>)
    requires f.Valid() && !f.isDir && forall op :: op in ops && op.Seek? ==> op.position < 0x1_0000_0000_0000_0000
    modifies f`position
    ensures f.Valid() && f.Source() == old(f.Source())
    ensures out == f.Source().Produced(old(f.position), ops) && f.position == f.Source().Reached(old(f.position), ops)
    ensures f.Source().Readable() ==> out == Outputs(f.Source().Content(), old(f.position), ops)
  {
    ghost var b, from := f.Source(), f.position;
    out := [];
    assert ops[0..] == ops && [] + b.Produced(from, ops) == b.Produced(from, ops);
    if b.Readable() { ProducedIsOutputs(b, from, ops); }
    hide Backing.Produced, Backing.Reached, Backing.Moved, Backing.Got, Backing.Readable, Outputs;
    for i := 0 to |ops|
      invariant f.Valid() && f.Source() == b
      invariant out + b.Produced(f.position, ops[i..]) == b.Produced(from, ops)
      invariant b.Reached(f.position, ops[i..]) == b.Reached(from, ops)
    {
      RunStep(b, f.position, ops, i, out);
      var got := Perform(f, ops[i]);
      out := out + got;
    }
    RunEnd(b, f.position, ops[|ops|..]);
  }

  /** One operation of a run. */
  method Perform(f: VirtualFile, op: FileOp) returns (got: seq<byte>)
    requires f.Valid() && !f.isDir && (op.Seek? ==> op.position < 0x1_0000_0000_0000_0000)
    modifies f`position
    ensures f.Valid() && f.Source() == old(f.Source())
    ensures got == f.Source().Got(old(f.position), op) && f.position == f.Source().Moved(old(f.position), op)
  {
    hide Splice, Slice, ReadAt;
    match op
    case Seek(p) =>
      var _ := f.SetPosition(p);
      return [];
    case Read(size) =>
      var buf := new byte[size](k => 0);
      ghost var blank, data := buf[..], f.Source().At(f.position, size);
      var _, n := f.Read(buf);
      SpliceFront(blank, data);
      return buf[..n];
  }

  lemma RunStep(b: Backing, pos: nat, ops: seq<FileOp>, i: nat, out: seq<byte>)
    requires i < |ops|
    ensures out + b.Produced(pos, ops[i..]) == out + b.Got(pos, ops[i]) + b.Produced(b.Moved(pos, ops[i]), ops[i + 1..])
    ensures b.Reached(pos, ops[i..]) == b.Reached(b.Moved(pos, ops[i]), ops[i + 1..])
  {
    assert ops[i..][0] == ops[i] && ops[i..][1..] == ops[i + 1..];
  }

  lemma RunEnd(b: Backing, pos: nat, ops: seq<FileOp>)
    requires ops == []
    ensures b.Produced(pos, ops) == [] && b.Reached(pos, ops) == pos
  {
  }

  lemma SpliceFront(s: seq<byte>, data: seq<byte>)
    requires |data| <= |s|
    ensures Splice(s, 0, data)[..|data|] == data
  {
  }
}
