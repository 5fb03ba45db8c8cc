/** The config rewriter as it runs: one pass over the original, shifting and
    compacting text inside one pre-sized buffer. */
module GrubPatcher {
  import opened Bytes
  import opened GrubText

  // ── The pre-pass ──────────────────────────────────────────────────────

  lemma IndentWithBreak(line: seq<byte>, i: nat)
    requires i <= |line|
    ensures Indent(line + [LF], i) == Indent(line, i)
    decreases |line| - i
  {
    if i < |line| && Blank(line[i]) { IndentWithBreak(line, i + 1); }
  }

  lemma CommandWithBreak(t: seq<byte>, word: seq<byte>)
    ensures Command(t + [LF], word) == Command(t, word)
  {
    if |word| <= |t| { assert (t + [LF])[..|word|] == t[..|word|]; }
    if |word| == |t| { assert (t + [LF])[|word|] == LF; }
  }

  /** The line break at the end of a line does not change what the line is. */
  lemma SameKindWithBreak(line: seq<byte>)
    ensures IsLinux(line + [LF]) == IsLinux(line) && IsInitrd(line + [LF]) == IsInitrd(line)
  {
    IndentWithBreak(line, 0);
    assert Trimmed(line + [LF]) == Trimmed(line) + [LF];
    CommandWithBreak(Trimmed(line), Ascii("linux"));
    CommandWithBreak(Trimmed(line), Ascii("linuxefi"));
    CommandWithBreak(Trimmed(line), Ascii("initrd"));
    CommandWithBreak(Trimmed(line), Ascii("initrdefi"));
  }

  lemma {:induction false} FirstLineAt(s: seq<byte>, n: nat)
    requires n <= |s| && s != [] && (forall k :: 0 <= k < n ==> s[k] != LF) && (n < |s| ==> s[n] == LF)
    ensures FirstLine(s) == if n < |s| then n + 1 else n
    decreases n
  {
    if n > 1 || (n == 1 && |s| > 1) { FirstLineAt(s[1..], n - 1); }
  }

  lemma CountStep(orig: seq<byte>, start: nat, pos: nat)
    requires start < |orig| && start <= pos <= |orig| && (forall k :: start <= k < pos ==> orig[k] != LF) &&
             (pos < |orig| ==> orig[pos] == LF)
    ensures var next := if pos < |orig| then pos + 1 else pos;
            && LinuxCount(orig[start..]) == (if IsLinux(orig[start..pos]) then 1 else 0) + LinuxCount(orig[next..])
            && InitrdCount(orig[start..]) == (if IsInitrd(orig[start..pos]) then 1 else 0) + InitrdCount(orig[next..])
  {
    hide IsLinux, IsInitrd;
    var s, line := orig[start..], orig[start..pos];
    var next := if pos < |orig| then pos + 1 else pos;
    FirstLineAt(s, pos - start);
    assert s[..FirstLine(s)] == if pos < |orig| then line + [LF] else line;
    assert s[FirstLine(s)..] == orig[next..];
    SameKindWithBreak(line);
  }

  method CountMatchingLines(orig: seq<byte>) returns (linuxCount: nat, initrdCount: nat)
    ensures linuxCount == LinuxCount(orig) && initrdCount == InitrdCount(orig)
  {
    hide IsLinux, IsInitrd, LinuxCount, InitrdCount;
    linuxCount, initrdCount := 0, 0;
    var pos := 0;
    assert orig[0..] == orig;
    while pos < |orig|
      invariant pos <= |orig|
      invariant linuxCount + LinuxCount(orig[pos..]) == LinuxCount(orig)
      invariant initrdCount + InitrdCount(orig[pos..]) == InitrdCount(orig)
    {
      var start := pos;
      while pos < |orig| && orig[pos] != LF
        invariant start <= pos <= |orig| && forall k :: start <= k < pos ==> orig[k] != LF
      {
        pos := pos + 1;
      }
      var line := orig[start..pos];
      CountStep(orig, start, pos);
      LinuxNotInitrd(line);
      if IsLinux(line) {
        linuxCount := linuxCount + 1;
      } else if IsInitrd(line) {
        initrdCount := initrdCount + 1;
      }
      if pos < |orig| { pos := pos + 1; }
    }
    NoLinesLeft(orig[pos..]);
  }

  lemma NoLinesLeft(s: seq<byte>)
    requires s == []
    ensures LinuxCount(s) == 0 && InitrdCount(s) == 0
  {
  }

  lemma LinuxNotInitrd(line: seq<byte>)
    ensures !(IsLinux(line) && IsInitrd(line))
  {
    var t := Trimmed(line);
    if IsLinux(line) { assert t[0] == 108; }
    if IsInitrd(line) { assert t[0] == 105; }
  }

  // ── Edits inside the buffer ───────────────────────────────────────────

  method SkipBlanks(out: array<byte>, base: nat, at: nat, dst: nat) returns (pos: nat)
    requires base <= at <= dst <= out.Length
    ensures pos == base + Indent(out[base..dst], at - base)
  {
    ghost var s := out[base..dst];
    pos := at;
    while pos < dst && Blank(out[pos])
      invariant at <= pos <= dst && Indent(s, pos - base) == Indent(s, at - base)
    {
      assert s[pos - base] == out[pos];
      pos := pos + 1;
    }
    assert pos < dst ==> s[pos - base] == out[pos];
  }

  method SkipWord(out: array<byte>, base: nat, at: nat, dst: nat) returns (pos: nat)
    requires base <= at <= dst <= out.Length
    ensures pos == base + WordEnd(out[base..dst], at - base)
  {
    ghost var s := out[base..dst];
    pos := at;
    while pos < dst && !Separator(out[pos])
      invariant at <= pos <= dst && WordEnd(s, pos - base) == WordEnd(s, at - base)
    {
      assert s[pos - base] == out[pos];
      pos := pos + 1;
    }
    assert pos < dst ==> s[pos - base] == out[pos];
  }

  method FindSecondArgEnd(lineStart: nat, out: array<byte>, dst: nat) returns (pos: nat)
    requires lineStart <= dst <= out.Length
    ensures pos == lineStart + SecondArgEnd(out[lineStart..dst])
  {
    hide Indent, WordEnd;
    pos := SkipBlanks(out, lineStart, lineStart, dst);
    pos := SkipWord(out, lineStart, pos, dst);
    pos := SkipBlanks(out, lineStart, pos, dst);
    pos := SkipWord(out, lineStart, pos, dst);
  }

  /** Makes room at `at` by moving the suffix up, last byte first, and copies `data` in. */
  method ShiftAndInject(out: array<byte>, at: nat, dst: nat, data: seq<byte>) returns (newDst: nat)
    requires at <= dst && dst + |data| <= out.Length
    modifies out
    ensures newDst == dst + |data| && out[..newDst] == Insert(old(out[..dst]), at, data)
  {
    ghost var before := out[..];
    var suffixLen := dst - at;
    var i := suffixLen;
    while i > 0
      invariant 0 <= i <= suffixLen
      invariant forall k :: 0 <= k < at + i ==> out[k] == before[k]
      invariant forall k :: at + |data| + i <= k < dst + |data| ==> out[k] == before[k - |data|]
    {
      i := i - 1;
      out[at + |data| + i] := out[at + i];
    }
    forall k | 0 <= k < |data| { out[at + k] := data[k]; }
    newDst := dst + |data|;
    assert out[..newDst] == Insert(before[..dst], at, data);
  }

  method PatternAt(out: array<byte>, pos: nat, dst: nat, patterns: seq<seq<byte>>) returns (len: nat)
    requires pos <= dst <= out.Length
    ensures len == PrefixLen(out[pos..dst], patterns)
  {
    ghost var s := out[pos..dst];
    for p := 0 to |patterns|
      invariant PrefixLen(s, patterns) == PrefixLen(s, patterns[p..])
    {
      var pattern := patterns[p];
      assert pos + |pattern| <= dst ==> out[pos..pos + |pattern|] == s[..|pattern|];
      if pos + |pattern| <= dst && out[pos..pos + |pattern|] == pattern {
        return |pattern|;
      }
    }
    return 0;
  }

  method LocatorAt(out: array<byte>, pos: nat, dst: nat) returns (len: nat)
    requires pos <= dst <= out.Length
    ensures len == LocatorLen(out[pos..dst])
  {
    hide LOCATORS, PrefixLen;
    len := PatternAt(out, pos, dst, LOCATORS);
  }

  /** Compacts the line in place, dropping every locator argument. */
  method RemoveIsoLocatorArgs(out: array<byte>, lineStart: nat, dst: nat) returns (newDst: nat)
    requires lineStart <= dst <= out.Length
    modifies out
    ensures lineStart <= newDst <= dst
    ensures out[..newDst] == old(out[..lineStart]) + Stripped(old(out[lineStart..dst]))
  {
    hide Stripped, AfterLocator, LocatorLen;
    ghost var before := out[..dst];
    ghost var line, kept: seq<byte> := out[lineStart..dst], [];
    var pos, writePos := lineStart, lineStart;
    assert line == before[lineStart..];
    while pos < dst
      invariant lineStart <= writePos <= pos <= dst
      invariant forall k :: pos <= k < dst ==> out[k] == before[k]
      invariant out[..writePos] == before[..lineStart] + kept
      invariant kept + Stripped(before[pos..]) == Stripped(line)
      decreases dst - pos
    {
      ghost var rest := before[pos..];
      assert out[pos..dst] == rest;
      StrippedStep(before, pos);
      var len := LocatorAt(out, pos, dst);
      if len > 0 {
        pos := SkipArgument(out, pos, len, dst);
      } else {
        kept := kept + [before[pos]];
        if writePos != pos { out[writePos] := out[pos]; }
        writePos, pos := writePos + 1, pos + 1;
      }
    }
    newDst := writePos;
    StrippedNothing(before[pos..]);
  }

  method SkipArgument(out: array<byte>, at: nat, len: nat, dst: nat) returns (pos: nat)
    requires at <= dst <= out.Length && len == LocatorLen(out[at..dst])
    ensures pos == at + AfterLocator(out[at..dst])
  {
    hide Indent, WordEnd, LocatorLen;
    pos := SkipWord(out, at, at + len, dst);
    pos := SkipBlanks(out, at, pos, dst);
  }

  lemma StrippedStep(s: seq<byte>, pos: nat)
    requires pos < |s|
    ensures LocatorLen(s[pos..]) > 0 ==> Stripped(s[pos..]) == Stripped(s[pos + AfterLocator(s[pos..])..])
    ensures LocatorLen(s[pos..]) == 0 ==> Stripped(s[pos..]) == [s[pos]] + Stripped(s[pos + 1..])
  {
    hide LocatorLen, AfterLocator;
    assert s[pos..][1..] == s[pos + 1..];
    assert s[pos..][AfterLocator(s[pos..])..] == s[pos + AfterLocator(s[pos..])..];
  }

  lemma StrippedNothing(s: seq<byte>)
    requires s == []
    ensures Stripped(s) == []
  {
  }

  // ── One line in place ─────────────────────────────────────────────────

  lemma InsertAfter(p: seq<byte>, l: seq<byte>, at: nat, data: seq<byte>)
    requires at <= |l|
    ensures Insert(p + l, |p| + at, data) == p + Insert(l, at, data)
  {
    assert (p + l)[..|p| + at] == p + l[..at];
    assert (p + l)[|p| + at..] == l[at..];
  }

  lemma InsertTwice(l: seq<byte>, at: nat, a: seq<byte>, b: seq<byte>)
    requires at <= |l|
    ensures Insert(Insert(l, at, a), at + |a|, b) == Insert(l, at, a + b)
  {
    assert Insert(l, at, a)[..at + |a|] == l[..at] + a;
    assert Insert(l, at, a)[at + |a|..] == l[at..];
  }

  method PatchLinux(out: array<byte>, lineStart: nat, dst: nat, j: Injection) returns (newDst: nat)
    requires lineStart <= dst && dst + |j.linux| + |j.eol| <= out.Length
    modifies out
    ensures newDst <= out.Length
    ensures out[..newDst] == old(out[..lineStart]) + LinuxText(old(out[lineStart..dst]), j)
  {
    hide Stripped, SecondArgEnd, Insert;
    ghost var done, line := out[..lineStart], out[lineStart..dst];
    assert out[..dst] == done + line;
    newDst := dst;
    if j.eol != [] || j.strips { newDst := RemoveIsoLocatorArgs(out, lineStart, newDst); }
    ghost var l := if j.eol != [] || j.strips then Stripped(line) else line;
    assert out[..newDst] == done + l;
    assert out[lineStart..newDst] == l;
    var injectAt := FindSecondArgEnd(lineStart, out, newDst);
    ghost var at := injectAt - lineStart;
    InsertAfter(done, l, at, j.linux);
    newDst := ShiftAndInject(out, injectAt, newDst, j.linux);
    InsertTwice(l, at, j.linux, j.eol);
    if j.eol != [] {
      InsertAfter(done, Insert(l, at, j.linux), at + |j.linux|, j.eol);
      newDst := ShiftAndInject(out, injectAt + |j.linux|, newDst, j.eol);
    } else {
      assert j.linux + j.eol == j.linux;
    }
  }

  /** Rewrites the line that ends the text written so far. */
  method PatchLineInPlace(out: array<byte>, lineStart: nat, dst: nat, j: Injection, bls: bool) returns (newDst: nat)
    requires lineStart <= dst <= out.Length && dst + Budget(out[lineStart..dst], j) <= out.Length
    requires lineStart > 0 ==> out[lineStart - 1] == LF
    requires |j.linux| <= 512 && (j.linux != [] ==> j.linux[0] == SPACE)
    modifies out
    ensures newDst <= out.Length
    ensures out[..newDst] == old(out[..lineStart]) + PatchLine(old(out[lineStart..dst]), j, bls)
  {
    hide IsLinux, IsBlscfg, IsOptions, IsInitrd, Contains, Stripped, SecondArgEnd, LineEnd, OptionsEnd, BlsLine, Insert;
    var line := out[lineStart..dst];
    ghost var done := out[..lineStart];
    assert out[..dst] == done + line;
    newDst := dst;
    if IsLinux(line) && !Contains(line, j.linux) && j.linux != [] {
      newDst := PatchLinux(out, lineStart, dst, j);
    } else if bls && IsBlscfg(line) && j.linux != [] {
      newDst := InjectBlsLine(out, lineStart, dst, j.linux);
    } else if IsOptions(line) {
      newDst := PatchOptions(out, lineStart, dst, j.linux);
    } else if IsInitrd(line) && |j.dedup| <= |line| && !Contains(line, j.dedup) {
      var injectAt := lineStart + LineEnd(line);
      InsertAfter(done, line, LineEnd(line), j.initrd);
      newDst := ShiftAndInject(out, injectAt, dst, j.initrd);
    }
  }

  method InjectBlsLine(out: array<byte>, lineStart: nat, dst: nat, linux: seq<byte>) returns (newDst: nat)
    requires lineStart <= dst && dst + |SET_KERNELOPTS| + |linux| + 2 <= out.Length
    modifies out
    ensures newDst <= out.Length && out[..newDst] == old(out[..lineStart]) + (BlsLine(linux) + old(out[lineStart..dst]))
  {
    ghost var done, line := out[..lineStart], out[lineStart..dst];
    var blsLine := SET_KERNELOPTS;
    var cl := if |linux| < 1024 - |blsLine| - 2 then |linux| else 1024 - |blsLine| - 2;
    blsLine := blsLine + linux[..cl];
    blsLine := blsLine + [34, LF];
    assert blsLine == BlsLine(linux);
    assert out[..dst] == done + line;
    newDst := ShiftAndInject(out, lineStart, dst, blsLine);
    assert out[..newDst] == done + (blsLine + line);
  }

  /** No locator pattern starts with a blank or with the `o` of `options`. */
  lemma OptionsNotStripped(line: seq<byte>)
    requires IsOptions(line)
    ensures Stripped(line) != []
  {
    hide Ascii;
    var c := line[0];
    assert c == 111 || Blank(c) by {
      OptionsInitial(line);
    }
    LocatorInitials();
    if LocatorLen(line) > 0 { FirstOfPrefix(line, LOCATORS); }
  }

  lemma OptionsInitial(line: seq<byte>)
    requires IsOptions(line)
    ensures line != [] && (line[0] == 111 || Blank(line[0]))
  {
    var i := Indent(line, 0);
    assert line[i..][0] == Ascii("options")[0] == 111;
  }

  lemma LocatorInitials()
    ensures forall k :: 0 <= k < |LOCATORS| ==> LOCATORS[k] != [] && LOCATORS[k][0] in {102, 105, 99, 114, 97}
  {
  }

  lemma {:induction false} FirstOfPrefix(s: seq<byte>, pats: seq<seq<byte>>)
    requires PrefixLen(s, pats) > 0
    ensures s != [] && exists k :: 0 <= k < |pats| && pats[k] != [] && pats[k][0] == s[0]
  {
    if pats[0] <= s {
      assert pats[0] != [] && pats[0][0] == s[0];
    } else {
      FirstOfPrefix(s, pats[1..]);
      var k :| 0 <= k < |pats[1..]| && pats[1..][k] != [] && pats[1..][k][0] == s[0];
      assert pats[k + 1] == pats[1..][k];
    }
  }

  method PatchOptions(out: array<byte>, lineStart: nat, dst: nat, linux: seq<byte>) returns (newDst: nat)
    requires lineStart <= dst && dst + |linux| <= out.Length && |linux| <= 512 && (linux != [] ==> linux[0] == SPACE)
    requires IsOptions(out[lineStart..dst]) && (lineStart > 0 ==> out[lineStart - 1] == LF)
    modifies out
    ensures newDst <= out.Length &&
            out[..newDst] == old(out[..lineStart]) + OptionsText(old(out[lineStart..dst]), linux)
  {
    hide Stripped, Insert, IsOptions, OptionsText;
    ghost var done, line := out[..lineStart], out[lineStart..dst];
    OptionsNotStripped(line);
    newDst := RemoveIsoLocatorArgs(out, lineStart, dst);
    newDst := AddOptions(out, lineStart, newDst, linux, done, line);
  }

  /** Puts the arguments before the line break of the stripped line. */
  method AddOptions(out: array<byte>, lineStart: nat, dst: nat, linux: seq<byte>, ghost done: seq<byte>,
                    ghost line: seq<byte>)
    returns (newDst: nat)
    requires lineStart < dst && dst + |linux| <= out.Length && (lineStart > 0 ==> out[lineStart - 1] == LF)
    requires out[..dst] == done + Stripped(line) && |done| == lineStart && (linux != [] ==> linux[0] == SPACE)
    modifies out
    ensures newDst <= out.Length && out[..newDst] == done + OptionsText(line, linux)
  {
    hide Stripped, Insert, OptionsText, OptionsEnd;
    ghost var l := Stripped(line);
    assert out[lineStart..dst] == l;
    newDst := dst;
    var extraContent := if linux != [] && linux[0] == SPACE then linux[1..] else linux;
    if extraContent != [] {
      var injectAt := OptionsInjectAt(out, lineStart, newDst);
      var needSpace := injectAt > lineStart && out[injectAt - 1] != SPACE && out[injectAt - 1] != TAB;
      var data := (if needSpace then [SPACE] else []) + extraContent;
      InsertAfter(done, l, injectAt - lineStart, data);
      OptionsWith(line, linux, extraContent, needSpace, injectAt - lineStart);
      newDst := ShiftAndInject(out, injectAt, newDst, data);
    } else {
      OptionsAlone(line, linux);
    }
  }

  lemma OptionsWith(line: seq<byte>, linux: seq<byte>, content: seq<byte>, needSpace: bool, at: nat)
    requires at == OptionsEnd(Stripped(line)) && content != []
    requires content == if linux != [] && linux[0] == SPACE then linux[1..] else linux
    requires needSpace <==> at > 0 && !Blank(Stripped(line)[at - 1])
    ensures OptionsText(line, linux) == Insert(Stripped(line), at, (if needSpace then [SPACE] else []) + content)
  {
    hide Insert, Stripped, OptionsEnd;
  }

  lemma OptionsAlone(line: seq<byte>, linux: seq<byte>)
    requires linux == [] || linux == [SPACE]
    ensures OptionsText(line, linux) == Stripped(line)
  {
    hide Insert, Stripped, OptionsEnd;
  }

  method OptionsInjectAt(out: array<byte>, lineStart: nat, dst: nat) returns (injectAt: nat)
    requires lineStart < dst <= out.Length && (lineStart > 0 ==> out[lineStart - 1] == LF)
    ensures lineStart <= injectAt <= dst && injectAt - lineStart == OptionsEnd(out[lineStart..dst])
  {
    injectAt := dst;
    if dst > 0 && out[dst - 1] == LF {
      injectAt := injectAt - 1;
      if dst > 1 && out[dst - 2] == CR { injectAt := injectAt - 1; }
    } else if dst > 0 && out[dst - 1] == CR {
      injectAt := injectAt - 1;
    }
  }

  // ── The pass ──────────────────────────────────────────────────────────

  /** Start of the line that ends at `dst`. */
  method LineStart(out: array<byte>, dst: nat, ghost start: nat) returns (ls: nat)
    requires start < dst <= out.Length && (start > 0 ==> out[start - 1] == LF)
    requires forall k :: start <= k < dst - 1 ==> out[k] != LF
    ensures ls == start
  {
    ls := dst - 1;
    while ls > 0 && out[ls - 1] != LF
      invariant start <= ls < dst
    {
      ls := ls - 1;
    }
  }

  lemma TextStep(orig: seq<byte>, lineBeg: nat, src: nat, j: Injection, bls: bool)
    requires lineBeg < src <= |orig| && (forall k :: lineBeg <= k < src - 1 ==> orig[k] != LF)
    requires orig[src - 1] == LF || src == |orig|
    ensures PatchedText(orig[lineBeg..], j, bls) ==
            PatchLine(orig[lineBeg..src], j, bls) + PatchedText(orig[src..], j, bls)
    ensures BudgetSum(orig[lineBeg..], j) == Budget(orig[lineBeg..src], j) + BudgetSum(orig[src..], j)
  {
    hide PatchLine, Budget;
    FirstLineHere(orig, lineBeg, src);
  }

  /** The rewriter: prefix line, then every line rewritten, in one buffer of
      original length + reserve + 256 bytes. */
  method PatchGrubCfgImpl(orig: seq<byte>, prefix: seq<byte>, j: Injection) returns (patched: seq<byte>)
    requires |j.linux| <= 512 && (j.linux != [] ==> j.linux[0] == SPACE)
    requires j.linux == [] ==> LinuxCount(orig) == 0
    requires |prefix| <= 256 && (prefix != [] ==> EndsLine(prefix))
    ensures patched == prefix + PatchedText(orig, j, BlscfgCount(orig) > 0)
  {
    hide Reserve, BlscfgCount, PatchedText, BudgetSum, Splice, LinuxCount;
    var out := new byte[|orig| + Reserve(orig, j) + 256](i => 0);
    ReserveCoversBudget(orig, j);
    SplicePrefix(out[..], prefix);
    CopyInto(out, 0, prefix);
    var dst := RewriteLines(orig, out, |prefix|, j, BlscfgCount(orig) > 0);
    return out[..dst];
  }

  /** The pass after `src` bytes: `done` is finished text, `line` the bytes of the current line. */
  ghost predicate Midway(orig: seq<byte>, j: Injection, bls: bool, goal: seq<byte>, room: nat, done: seq<byte>,
                         line: seq<byte>, src: nat) {
    && |line| <= src <= |orig| && line == orig[src - |line|..src] && (src == |orig| ==> line == [])
    && (forall k :: 0 <= k < |line| ==> line[k] != LF)
    && (src < |orig| && done != [] ==> EndsLine(done))
    && |done| + |line| + |orig| - src + BudgetSum(orig[src - |line|..], j) <= room
    && goal == done + PatchedText(orig[src - |line|..], j, bls)
  }

  lemma MidwayStart(orig: seq<byte>, j: Injection, bls: bool, room: nat, done: seq<byte>)
    requires |done| + |orig| + BudgetSum(orig, j) <= room && (done != [] ==> EndsLine(done))
    ensures Midway(orig, j, bls, done + PatchedText(orig, j, bls), room, done, [], 0)
  {
    hide PatchedText, BudgetSum, EndsLine;
    assert orig[0..] == orig;
  }

  /** The next byte extends the current line, and a line break or the end of the text completes it. */
  lemma MidwayByte(orig: seq<byte>, j: Injection, bls: bool, goal: seq<byte>, room: nat, done: seq<byte>,
                   line: seq<byte>, src: nat)
    requires Midway(orig, j, bls, goal, room, done, line, src) && src < |orig|
    requires j.linux != [] ==> j.linux[0] == SPACE
    ensures |done| + |line| < room && (done != [] ==> EndsLine(done)) && forall k :: 0 <= k < |line| ==> line[k] != LF
    ensures var l := line + [orig[src]];
            if orig[src] == LF || src + 1 == |orig| then
              |done| + |l| + Budget(l, j) <= room &&
                Midway(orig, j, bls, goal, room, done + PatchLine(l, j, bls), [], src + 1)
            else
              Midway(orig, j, bls, goal, room, done, l, src + 1)
  {
    hide PatchLine, Budget, PatchedText, BudgetSum, EndsLine;
    var l, lineBeg := line + [orig[src]], src - |line|;
    assert l == orig[lineBeg..src + 1];
    if orig[src] == LF || src + 1 == |orig| {
      forall k | lineBeg <= k < src ensures orig[k] != LF { assert orig[k] == line[k - lineBeg]; }
      TextStep(orig, lineBeg, src + 1, j, bls);
      LineWithinBudget(l, j, bls);
      DoneEndsLine(done, l, j, bls);
    }
  }

  lemma MidwayDone(orig: seq<byte>, j: Injection, bls: bool, goal: seq<byte>, room: nat, done: seq<byte>,
                   line: seq<byte>, src: nat)
    requires Midway(orig, j, bls, goal, room, done, line, src) && src >= |orig|
    ensures line == [] && goal == done
  {
  }

  /** The single pass: copies byte by byte and rewrites each line once it is complete. */
  method RewriteLines(orig: seq<byte>, out: array<byte>, start: nat, j: Injection, bls: bool) returns (dst: nat)
    requires |j.linux| <= 512 && (j.linux != [] ==> j.linux[0] == SPACE)
    requires start + |orig| + BudgetSum(orig, j) <= out.Length && (start > 0 ==> out[start - 1] == LF)
    modifies out
    ensures dst <= out.Length && out[..dst] == old(out[..start]) + PatchedText(orig, j, bls)
  {
    hide PatchLine, Budget, PatchedText, BudgetSum, Midway;
    StartEndsLine(out, start);
    hide EndsLine;
    var src := 0;
    dst := start;
    ghost var done, line: seq<byte> := out[..start], [];
    ghost var goal, room := done + PatchedText(orig, j, bls), out.Length;
    MidwayStart(orig, j, bls, room, done);
    while src < |orig|
      invariant src <= |orig| && Midway(orig, j, bls, goal, room, done, line, src)
      invariant dst == |done| + |line| <= out.Length && out[..dst] == done + line
    {
      MidwayByte(orig, j, bls, goal, room, done, line, src);
      var ch := orig[src];
      dst := PutByte(out, dst, ch, done, line);
      line := line + [ch];
      src := src + 1;
      if ch == LF || src == |orig| {
        dst := FinishLine(out, dst, j, bls, done, line);
        done, line := done + PatchLine(line, j, bls), [];
      }
    }
    MidwayDone(orig, j, bls, goal, room, done, line, src);
  }

  lemma StartEndsLine(out: array<byte>, start: nat)
    requires start <= out.Length && (start > 0 ==> out[start - 1] == LF)
    ensures out[..start] != [] ==> EndsLine(out[..start])
  {
  }

  method PutByte(out: array<byte>, dst: nat, ch: byte, ghost done: seq<byte>, ghost line: seq<byte>)
    returns (newDst: nat)
    requires dst < out.Length && out[..dst] == done + line
    modifies out
    ensures newDst == dst + 1 && out[..newDst] == done + (line + [ch])
  {
    out[dst] := ch;
    newDst := dst + 1;
    assert out[..newDst] == old(out[..dst]) + [ch];
  }

  lemma DoneEndsLine(done: seq<byte>, line: seq<byte>, j: Injection, bls: bool)
    requires line != []
    ensures line[|line| - 1] == LF ==> EndsLine(done + PatchLine(line, j, bls))
  {
    hide PatchLine;
    if EndsLine(line) { PatchedEndsLine(line, j, bls); }
  }

  lemma SplicePrefix(s: seq<byte>, prefix: seq<byte>)
    requires |prefix| <= |s|
    ensures Splice(s, 0, prefix)[..|prefix|] == prefix
  {
  }

  /** At a line break: finds the line's start and rewrites the line. */
  method FinishLine(out: array<byte>, dst: nat, j: Injection, bls: bool, ghost done: seq<byte>, ghost line: seq<byte>)
    returns (newDst: nat)
    requires dst <= out.Length && out[..dst] == done + line && line != []
    requires (done != [] ==> EndsLine(done)) && forall k :: 0 <= k < |line| - 1 ==> line[k] != LF
    requires |done| + |line| + Budget(line, j) <= out.Length
    requires |j.linux| <= 512 && (j.linux != [] ==> j.linux[0] == SPACE)
    modifies out
    ensures newDst <= out.Length && out[..newDst] == done + PatchLine(line, j, bls)
  {
    hide PatchLine, Budget;
    assert forall k :: |done| <= k < dst ==> out[k] == out[..dst][k] && out[..dst][k] == line[k - |done|];
    assert done != [] ==> out[|done| - 1] == out[..dst][|done| - 1];
    var lineStart := LineStart(out, dst, |done|);
    assert out[lineStart..dst] == line && out[..lineStart] == done;
    newDst := PatchLineInPlace(out, lineStart, dst, j, bls);
  }

  lemma FirstLineHere(orig: seq<byte>, lineBeg: nat, src: nat)
    requires lineBeg < src <= |orig| && (forall k :: lineBeg <= k < src - 1 ==> orig[k] != LF)
    requires orig[src - 1] == LF || src == |orig|
    ensures FirstLine(orig[lineBeg..]) == src - lineBeg
    ensures orig[lineBeg..][..src - lineBeg] == orig[lineBeg..src] && orig[lineBeg..][src - lineBeg..] == orig[src..]
  {
    var s := orig[lineBeg..];
    if orig[src - 1] == LF { FirstLineAt(s, src - 1 - lineBeg); } else { FirstLineAt(s, src - lineBeg); }
  }
}
