/** A partition of a disk as a file of its own: `PartitionSlice` against a plain byte file
    with a clamping cursor. */
module DiskSlice {
  import opened Bytes

  const SEEK_LIMIT := 0x8000_0000_0000_0000

  datatype SeekFrom = FromStart(offset: u64) | FromCurrent(delta: int) | FromEnd(delta: int)

  datatype Outcome = Bytes(data: seq<byte>) | Count(n: nat) | Position(pos: nat) | Failed

  // ── The reference: a fixed-size byte file ─────────────────────────────

  datatype ByteFile = ByteFile(data: seq<byte>, pos: nat) {
    /** Bytes moved by one call: what was asked for, what is left, what the device grants. */
    function Moved(asked: nat, grant: nat): (n: nat)
      ensures pos < |data| ==> pos + n <= |data|
    {
      if pos >= |data| then 0 else Least(grant, Least(asked, |data| - pos))
    }

    function Read(len: nat, grant: nat): (ByteFile, Outcome) {
      if pos >= |data| then (this, Bytes([]))
      else (ByteFile(data, pos + Moved(len, grant)), Bytes(data[pos..pos + Moved(len, grant)]))
    }

    function Write(buf: seq<byte>, grant: nat): (ByteFile, Outcome) {
      if pos >= |data| then (this, Failed)
      else
        var n := Moved(|buf|, grant);
        (ByteFile(Splice(data, pos, buf[..n]), pos + n), Count(n))
    }

    /** A seek to before the file stops at its start when it lands within `slack` bytes of it, and fails beyond. */
    function Seek(from: SeekFrom, slack: nat): (ByteFile, Outcome) {
      var target: int := match from case FromStart(o) => o case FromCurrent(d) => pos + d case FromEnd(d) => |data| + d;
      if target + slack < 0 || target + slack >= SEEK_LIMIT then (this, Failed)
      else
        var p := if target < 0 then 0 else target;
        (ByteFile(data, p), Position(p))
    }
  }

  /** The three ways to name a position lead to the same one, also behind the end. */
  lemma SeeksAgree(f: ByteFile, p: u64, slack: nat)
    requires p as int + slack < SEEK_LIMIT
    ensures var there := (ByteFile(f.data, p as int), Position(p as int));
            && f.Seek(FromStart(p), slack) == there
            && f.Seek(FromCurrent(p as int - f.pos), slack) == there
            && f.Seek(FromEnd(p as int - |f.data|), slack) == there
  {
  }

  /** `back` bytes before the start is the start, or a failure when they lie before the disk. */
  lemma SeekBefore(f: ByteFile, back: nat, slack: nat)
    requires slack < SEEK_LIMIT
    ensures var r := if back <= slack then (ByteFile(f.data, 0), Position(0)) else (f, Failed);
            f.Seek(FromCurrent(-(f.pos as int) - back), slack) == r &&
              f.Seek(FromEnd(-(|f.data| as int) - back), slack) == r
  {
  }

  /** From its end on a file reads as nothing and takes nothing; before it, at least one byte moves. */
  lemma EndOfFile(f: ByteFile, buf: seq<byte>, grant: nat)
    requires buf != [] && grant > 0
    ensures f.pos >= |f.data| ==>
              f.Read(|buf|, grant) == (f, Bytes([])) && f.Write(buf, grant) == (f, Failed)
    ensures f.pos < |f.data| ==>
              f.Read(|buf|, grant).1 != Bytes([]) && f.Write(buf, grant).1 !in {Failed, Count(0)}
  {
  }

  // ── The disk file under the slice ─────────────────────────────────────

  /** A disk device: fixed contents size, one position shared by all its users. */
  class DiskFile {
    const disk: array<byte>
    var pos: nat

    constructor (disk: array<byte>)
      ensures this.disk == disk && pos == 0
    {
      this.disk := disk;
      pos := 0;
    }

    method SeekTo(target: nat) returns (ok: bool)
      modifies this`pos
      ensures ok == (target < SEEK_LIMIT) && pos == if ok then target else old(pos)
    {
      ok := target < SEEK_LIMIT;
      if ok { pos := target; }
    }

    /** A read may return fewer bytes than asked for. */
    method Read(len: nat, grant: nat) returns (data: seq<byte>)
      requires pos + len <= disk.Length
      modifies this`pos
      ensures data == disk[old(pos)..old(pos) + Least(grant, len)] && pos == old(pos) + |data|
    {
      var n := Least(grant, len);
      data := disk[pos..pos + n];
      pos := pos + n;
    }

    method Write(buf: seq<byte>, grant: nat) returns (n: nat)
      requires pos + |buf| <= disk.Length
      modifies this`pos, disk
      ensures n == Least(grant, |buf|) && pos == old(pos) + n && disk[..] == Splice(old(disk[..]), old(pos), buf[..n])
    {
      n := Least(grant, |buf|);
      CopyInto(disk, pos, buf[..n]);
      pos := pos + n;
    }
  }

  // ── The slice ─────────────────────────────────────────────────────────

  class PartitionSlice {
    const inner: DiskFile
    const startOffset: nat
    const size: nat
    var currentPos: nat

    ghost predicate Valid()
      reads this
    {
      startOffset + size <= inner.disk.Length < SEEK_LIMIT && startOffset + currentPos < SEEK_LIMIT
    }

    /** The partition as a file of its own. */
    ghost function View(): ByteFile
      requires Valid()
      reads this, inner.disk
    {
      ByteFile(inner.disk[startOffset..startOffset + size], currentPos)
    }

    constructor (inner: DiskFile, startOffset: nat, size: nat)
      requires startOffset + size <= inner.disk.Length < SEEK_LIMIT
      ensures Valid() && this.inner == inner && this.startOffset == startOffset && this.size == size
      ensures View() == ByteFile(inner.disk[startOffset..startOffset + size], 0)
    {
      this.inner, this.startOffset, this.size, currentPos := inner, startOffset, size, 0;
    }

    method Read(len: nat, grant: nat) returns (r: Outcome)
      requires Valid()
      modifies this`currentPos, inner`pos
      ensures Valid() && (View(), r) == old(View()).Read(len, grant)
    {
      if currentPos >= size { return Bytes([]); }
      var target := startOffset + currentPos;
      var ok := inner.SeekTo(target);
      var maxToRead := size - currentPos;
      var data := inner.Read(if len > maxToRead then maxToRead else len, grant);
      assert View().data[currentPos..currentPos + |data|] == data;
      currentPos := currentPos + |data|;
      r := Bytes(data);
    }

    /** Seeks the disk file to the cursor and writes there. */
    method WriteInside(part: seq<byte>, grant: nat) returns (n: nat)
      requires Valid() && currentPos + |part| <= size
      modifies inner`pos, inner.disk
      ensures n == Least(grant, |part|)
      ensures inner.disk[startOffset..startOffset + size] ==
              Splice(old(inner.disk[startOffset..startOffset + size]), currentPos, part[..n])
      ensures inner.disk[..startOffset] == old(inner.disk[..startOffset])
      ensures inner.disk[startOffset + size..] == old(inner.disk[startOffset + size..])
    {
      var target := startOffset + currentPos;
      var ok := inner.SeekTo(target);
      ghost var before := inner.disk[..];
      n := inner.Write(part, grant);
      SpliceWithin(before, startOffset, size, currentPos, part[..n]);
      assert inner.disk[..][..startOffset] == inner.disk[..startOffset] &&
             before[..startOffset] == old(inner.disk[..startOffset]);
      hide Splice;
    }

    method Write(buf: seq<byte>, grant: nat) returns (r: Outcome)
      requires Valid()
      modifies this`currentPos, inner`pos, inner.disk
      ensures Valid() && (View(), r) == old(View()).Write(buf, grant)
      ensures inner.disk[..startOffset] == old(inner.disk[..startOffset])
      ensures inner.disk[startOffset + size..] == old(inner.disk[startOffset + size..])
    {
      if currentPos >= size { return Failed; }
      var maxToWrite := size - currentPos;
      var part := if |buf| > maxToWrite then buf[..maxToWrite] else buf;
      var n := WriteInside(part, grant);
      assert part[..n] == buf[..n];
      currentPos := currentPos + n;
      r := Count(n);
    }

    method Seek(from: SeekFrom) returns (r: Outcome)
      requires Valid() && (from.FromStart? ==> startOffset + from.offset < 0x1_0000_0000_0000_0000)
      modifies this`currentPos, inner`pos
      ensures Valid() && (View(), r) == old(View()).Seek(from, startOffset)
    {
      var target: int;
      match from {
        case FromStart(offset) => target := startOffset + offset;
        case FromCurrent(delta) => target := startOffset + currentPos + delta;
        case FromEnd(delta) => target := startOffset + size + delta;
      }
      if target < 0 { return Failed; }
      var ok := inner.SeekTo(target);
      if !ok { return Failed; }
      currentPos := if inner.pos < startOffset then 0 else inner.pos - startOffset;
      r := Position(currentPos);
    }
  }

  /** Writing inside a range of the disk changes that range as it would a file of its own. */
  lemma SpliceWithin(s: seq<byte>, start: nat, size: nat, at: nat, data: seq<byte>)
    requires start + size <= |s| && at + |data| <= size
    ensures var t := Splice(s, start + at, data);
            t[..start] == s[..start] && t[start + size..] == s[start + size..]
            && t[start..start + size] == Splice(s[start..start + size], at, data)
  {
  }

  // ── Runs ──────────────────────────────────────────────────────────────

  /** One step of a run; other users of the disk file may move its position in between. */
  datatype Op = DoRead(len: nat, grant: nat) | DoWrite(buf: seq<byte>, grant: nat) | DoSeek(from: SeekFrom)
      | MoveInner(pos: nat)

  predicate Addressable(op: Op, start: nat) {
    op.DoSeek? && op.from.FromStart? ==> start + op.from.offset < 0x1_0000_0000_0000_0000
  }

  function StepFile(f: ByteFile, op: Op, slack: nat): (ByteFile, Outcome) {
    match op
    case DoRead(len, grant) => f.Read(len, grant)
    case DoWrite(buf, grant) => f.Write(buf, grant)
    case DoSeek(from) => f.Seek(from, slack)
    case MoveInner(pos) => (f, Position(pos))
  }

  function RunFile(f: ByteFile, ops: seq<Op>, slack: nat): (ByteFile, seq<Outcome>)
    decreases |ops|
  {
    if ops == [] then (f, [])
    else
      var (next, r) := StepFile(f, ops[0], slack);
      var (end, rs) := RunFile(next, ops[1..], slack);
      (end, [r] + rs)
  }

  method Step(slice: PartitionSlice, op: Op) returns (r: Outcome)
    requires slice.Valid() && Addressable(op, slice.startOffset)
    modifies slice`currentPos, slice.inner`pos, slice.inner.disk
    ensures slice.Valid() && (slice.View(), r) == StepFile(old(slice.View()), op, slice.startOffset)
    ensures slice.inner.disk[..slice.startOffset] == old(slice.inner.disk[..slice.startOffset])
    ensures slice.inner.disk[slice.startOffset + slice.size..] ==
            old(slice.inner.disk[slice.startOffset + slice.size..])
  {
    match op {
      case DoRead(len, grant) => r := slice.Read(len, grant);
      case DoWrite(buf, grant) => r := slice.Write(buf, grant);
      case DoSeek(from) => r := slice.Seek(from);
      case MoveInner(pos) =>
        slice.inner.pos := pos;
        r := Position(pos);
    }
  }

  /** Every run over the slice gives the results of the same run over a file of its own, and
      leaves the rest of the disk alone. */
  method Run(slice: PartitionSlice, ops: seq<Op>) returns (results: seq<Outcome>)
    requires slice.Valid() && forall i :: 0 <= i < |ops| ==> Addressable(ops[i], slice.startOffset)
    modifies slice`currentPos, slice.inner`pos, slice.inner.disk
    ensures slice.Valid() && (slice.View(), results) == RunFile(old(slice.View()), ops, slice.startOffset)
    ensures slice.inner.disk[..slice.startOffset] == old(slice.inner.disk[..slice.startOffset])
    ensures slice.inner.disk[slice.startOffset + slice.size..] ==
            old(slice.inner.disk[slice.startOffset + slice.size..])
  {
    hide Addressable, StepFile, RunFile;
    ghost var goal := RunFile(slice.View(), ops, slice.startOffset);
    results := [];
    assert ops[0..] == ops && [] + goal.1 == goal.1;
    for i := 0 to |ops|
      invariant slice.Valid()
      invariant goal.0 == RunFile(slice.View(), ops[i..], slice.startOffset).0
      invariant goal.1 == results + RunFile(slice.View(), ops[i..], slice.startOffset).1
      invariant slice.inner.disk[..slice.startOffset] == old(slice.inner.disk[..slice.startOffset])
      invariant slice.inner.disk[slice.startOffset + slice.size..] ==
                old(slice.inner.disk[slice.startOffset + slice.size..])
    {
      RunStep(slice.View(), ops, i, slice.startOffset);
      ghost var rest := RunFile(StepFile(slice.View(), ops[i], slice.startOffset).0, ops[i + 1..], slice.startOffset).1;
      var r := Step(slice, ops[i]);
      assert results + ([r] + rest) == results + [r] + rest;
      results := results + [r];
    }
    RunEnd(slice.View(), ops[|ops|..], slice.startOffset);
    assert results + [] == results;
  }

  lemma RunEnd(f: ByteFile, ops: seq<Op>, slack: nat)
    requires ops == []
    ensures RunFile(f, ops, slack) == (f, [])
  {
  }

  lemma RunStep(f: ByteFile, ops: seq<Op>, i: nat, slack: nat)
    requires i < |ops|
    ensures var (next, r) := StepFile(f, ops[i], slack);
            RunFile(f, ops[i..], slack) ==
              (RunFile(next, ops[i + 1..], slack).0, [r] + RunFile(next, ops[i + 1..], slack).1)
  {
    hide StepFile;
    assert ops[i..][1..] == ops[i + 1..];
  }

  /** What a full write puts into the file is what a read from the same place returns. */
  lemma WriteThenRead(f: ByteFile, buf: seq<byte>, slack: nat)
    requires f.pos + |buf| <= |f.data| < SEEK_LIMIT - slack && f.pos + slack < 0x1_0000_0000_0000_0000 &&
             f.pos < |f.data|
    ensures var run := RunFile(f, [DoWrite(buf, |buf|), DoSeek(FromStart(f.pos)), DoRead(|buf|, |buf|)], slack);
            run.1 == [Count(|buf|), Position(f.pos), Bytes(buf)] && |run.0.data| == |f.data|
  {
    var ops := [DoWrite(buf, |buf|), DoSeek(FromStart(f.pos)), DoRead(|buf|, |buf|)];
    var g := f.Write(buf, |buf|).0;
    var h := g.Seek(FromStart(f.pos), slack).0;
    assert ops[1..] == [ops[1], ops[2]] && ops[1..][1..] == [ops[2]] && [ops[2]][1..] == [];
    assert buf[..|buf|] == buf && g.data[f.pos..f.pos + |buf|] == buf;
    RunStep(f, ops, 0, slack);
    RunStep(g, ops, 1, slack);
    RunStep(h, ops, 2, slack);
    assert ops[0..] == ops && ops[3..] == [];
    hide Splice;
  }
}
