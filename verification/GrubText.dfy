/** The GRUB and systemd-boot config rewriter as a function on text: what each line
    becomes, and how much room the size pre-pass reserves. */
module GrubText {
  import opened Bytes

  const SPACE: byte := 32
  const TAB: byte := 9
  const LF: byte := 10
  const CR: byte := 13

  predicate Blank(c: byte) { c == SPACE || c == TAB }
  predicate Separator(c: byte) { c == SPACE || c == TAB || c == LF || c == CR }

  // ── Line classification ───────────────────────────────────────────────

  /** `t` is the command `word` followed by a blank. */
  predicate Command(t: seq<byte>, word: seq<byte>) {
    word <= t && |word| < |t| && Blank(t[|word|])
  }

  function Indent(line: seq<byte>, i: nat): (j: nat)
    requires i <= |line|
    ensures i <= j <= |line| && (j < |line| ==> !Blank(line[j])) && forall k :: i <= k < j ==> Blank(line[k])
    decreases |line| - i
  {
    if i < |line| && Blank(line[i]) then Indent(line, i + 1) else i
  }

  function Trimmed(line: seq<byte>): seq<byte> { line[Indent(line, 0)..] }

  predicate IsLinux(line: seq<byte>) {
    Command(Trimmed(line), Ascii("linux")) || Command(Trimmed(line), Ascii("linuxefi"))
  }

  predicate IsInitrd(line: seq<byte>) {
    Command(Trimmed(line), Ascii("initrd")) || Command(Trimmed(line), Ascii("initrdefi"))
  }

  predicate IsOptions(line: seq<byte>) { Command(Trimmed(line), Ascii("options")) }

  predicate IsBlscfgWord(t: seq<byte>) { Ascii("blscfg") <= t || Ascii("BLSCFG") <= t }

  predicate IsBlscfg(line: seq<byte>) { IsBlscfgWord(Trimmed(line)) }

  predicate Contains(s: seq<byte>, w: seq<byte>)
    decreases |s|
  {
    w <= s || (s != [] && Contains(s[1..], w))
  }

  // ── Stale ISO locator arguments ───────────────────────────────────────

  const LOCATORS: seq<seq<byte>> := [
    Ascii("findiso="), Ascii("iso-scan/filename="), Ascii("choosable.iso_offset="),
    Ascii("choosable.part_guid="), Ascii("choosable.part_num="), Ascii("choosable.iso_path="),
      Ascii("choosable.iso_size="),
    Ascii("root=live:"), Ascii("archisosearchuuid="), Ascii("archisosearchfilename=")]

  /** Length of the first of `pats` that `s` starts with, 0 if there is none. */
  function PrefixLen(s: seq<byte>, pats: seq<seq<byte>>): (n: nat)
    ensures n <= |s|
  {
    if pats == [] then 0 else if pats[0] <= s then |pats[0]| else PrefixLen(s, pats[1..])
  }

  function LocatorLen(s: seq<byte>): (n: nat)
    ensures n <= |s|
  {
    PrefixLen(s, LOCATORS)
  }

  function WordEnd(s: seq<byte>, i: nat): (j: nat)
    requires i <= |s|
    ensures i <= j <= |s| && (j < |s| ==> Separator(s[j])) && forall k :: i <= k < j ==> !Separator(s[k])
    decreases |s| - i
  {
    if i < |s| && !Separator(s[i]) then WordEnd(s, i + 1) else i
  }

  /** Where the text continues after the locator argument at the start of `s`. */
  function AfterLocator(s: seq<byte>): (n: nat)
    ensures n <= |s| && LocatorLen(s) <= n
  {
    Indent(s, WordEnd(s, LocatorLen(s)))
  }

  /** A line without its locator arguments: the pattern, its value and the blanks after it. */
  function Stripped(s: seq<byte>): (r: seq<byte>)
    ensures |r| <= |s|
  {
    if s == [] then []
    else if LocatorLen(s) > 0 then Stripped(s[AfterLocator(s)..])
    else [s[0]] + Stripped(s[1..])
  }

  // ── One line ──────────────────────────────────────────────────────────

  /** End of the second word of a line. */
  function SecondArgEnd(s: seq<byte>): (n: nat)
    ensures n <= |s|
  {
    WordEnd(s, Indent(s, WordEnd(s, Indent(s, 0))))
  }

  /** Where text is appended to a line: before its LF or CR LF. */
  function LineEnd(s: seq<byte>): (n: nat)
    ensures n <= |s|
  {
    if |s| > 0 && s[|s| - 1] == LF then if |s| > 1 && s[|s| - 2] == CR then |s| - 2 else |s| - 1 else |s|
  }

  /** The same, with a CR at the very end of the text also kept last. */
  function OptionsEnd(s: seq<byte>): (n: nat)
    ensures n <= |s|
  {
    if |s| > 0 && s[|s| - 1] == CR then |s| - 1 else LineEnd(s)
  }

  /** What the rewriter injects. */
  datatype Injection = Injection(
    linux: seq<byte>,     // kernel arguments, with a leading blank
    eol: seq<byte>,       // the distribution's own ISO argument, or nothing
    initrd: seq<byte>,    // the archive as a further initrd input
    dedup: seq<byte>,     // its absolute path, to recognise an already patched line
    strips: bool)         // the boot kind strips stale locator arguments from linux lines

  const SET_KERNELOPTS: seq<byte> := Ascii("set kernelopts=\"$kernelopts")

  /** The line put before `blscfg`; the rewriter's line buffer holds 1024 bytes. */
  function BlsLine(linux: seq<byte>): seq<byte> {
    SET_KERNELOPTS + (if |linux| < 995 then linux else linux[..995]) + [34, LF]
  }

  function Insert(s: seq<byte>, at: nat, data: seq<byte>): (r: seq<byte>)
    requires at <= |s|
    ensures |r| == |s| + |data|
  {
    s[..at] + data + s[at..]
  }

  function OptionsText(line: seq<byte>, linux: seq<byte>): seq<byte> {
    var l := Stripped(line);
    var content := if linux != [] && linux[0] == SPACE then linux[1..] else linux;
    if content == [] then l
    else
      var at := OptionsEnd(l);
      Insert(l, at, (if at > 0 && !Blank(l[at - 1]) then [SPACE] else []) + content)
  }

  function LinuxText(line: seq<byte>, j: Injection): seq<byte> {
    var l := if j.eol != [] || j.strips then Stripped(line) else line;
    Insert(l, SecondArgEnd(l), j.linux + j.eol)
  }

  /** What one line, with its line break, becomes. */
  function PatchLine(line: seq<byte>, j: Injection, bls: bool): seq<byte> {
    if IsLinux(line) && !Contains(line, j.linux) && j.linux != [] then LinuxText(line, j)
    else if bls && IsBlscfg(line) && j.linux != [] then BlsLine(j.linux) + line
    else if IsOptions(line) then OptionsText(line, j.linux)
    else if IsInitrd(line) && |j.dedup| <= |line| && !Contains(line, j.dedup) then Insert(line, LineEnd(line), j.initrd)
    else line
  }

  // ── The whole text ────────────────────────────────────────────────────

  /** End of the first line of `s`, including its line break. */
  function FirstLine(s: seq<byte>): (n: nat)
    requires s != []
    ensures 0 < n <= |s|
    ensures (forall k :: 0 <= k < n - 1 ==> s[k] != LF) && (n < |s| ==> s[n - 1] == LF)
  {
    if s[0] == LF || |s| == 1 then 1 else 1 + FirstLine(s[1..])
  }

  function PatchedText(s: seq<byte>, j: Injection, bls: bool): seq<byte> {
    if s == [] then [] else PatchLine(s[..FirstLine(s)], j, bls) + PatchedText(s[FirstLine(s)..], j, bls)
  }

  /** Occurrences of `blscfg` or `BLSCFG` anywhere in the text. */
  function BlscfgCount(s: seq<byte>): nat {
    if s == [] then 0 else (if IsBlscfgWord(s) then 1 else 0) + BlscfgCount(s[1..])
  }

  function LinesWhere(s: seq<byte>, p: seq<byte> -> bool): nat {
    if s == [] then 0 else (if p(s[..FirstLine(s)]) then 1 else 0) + LinesWhere(s[FirstLine(s)..], p)
  }

  function LinuxCount(s: seq<byte>): nat { LinesWhere(s, l => IsLinux(l)) }
  function InitrdCount(s: seq<byte>): nat { LinesWhere(s, l => IsInitrd(l)) }
  function OptionsCount(s: seq<byte>): nat { LinesWhere(s, l => IsOptions(l)) }

  function Times(n: nat, k: nat): nat { n * k }

  /** The extra room the pre-pass reserves. */
  function Reserve(s: seq<byte>, j: Injection): nat {
    Times(LinuxCount(s), |j.linux| + |j.eol|) + Times(InitrdCount(s), |j.initrd|)
    + Times(BlscfgCount(s), |SET_KERNELOPTS| + |j.linux| + 2)
    + Times(OptionsCount(s), |j.linux|)
  }

  // ── The pre-pass is a sound bound ─────────────────────────────────────

  /** The room the pre-pass reserves for one line. */
  function Budget(line: seq<byte>, j: Injection): nat {
    (if IsLinux(line) then |j.linux| + |j.eol| else 0) + (if IsInitrd(line) then |j.initrd| else 0)
    + (if IsBlscfg(line) then |SET_KERNELOPTS| + |j.linux| + 2 else 0) + (if IsOptions(line) then |j.linux| else 0)
  }

  function BudgetSum(s: seq<byte>, j: Injection): nat {
    if s == [] then 0 else Budget(s[..FirstLine(s)], j) + BudgetSum(s[FirstLine(s)..], j)
  }

  /** Rewriting a line adds at most its budget. */
  lemma LineWithinBudget(line: seq<byte>, j: Injection, bls: bool)
    requires j.linux != [] ==> j.linux[0] == SPACE
    ensures |PatchLine(line, j, bls)| <= |line| + Budget(line, j)
  {
    hide Stripped, SecondArgEnd, IsLinux, IsInitrd, IsBlscfg, IsOptions, Contains, OptionsEnd, LineEnd;
  }

  lemma TimesNext(n: nat, k: nat)
    ensures Times(n + 1, k) == Times(n, k) + k
  {
  }

  lemma TimesMonotone(n: nat, m: nat, k: nat)
    requires n <= m
    ensures Times(n, k) <= Times(m, k)
  {
  }

  lemma {:induction false} BlscfgSplit(a: seq<byte>, b: seq<byte>)
    ensures BlscfgCount(a + b) >= BlscfgCount(a) + BlscfgCount(b)
  {
    if a == [] {
      assert a + b == b;
    } else {
      assert (a + b)[1..] == a[1..] + b;
      BlscfgSplit(a[1..], b);
    }
  }

  lemma {:induction false} BlscfgCounted(s: seq<byte>, i: nat)
    requires i <= |s| && IsBlscfgWord(s[i..])
    ensures BlscfgCount(s) >= 1
    decreases i
  {
    if i > 0 {
      assert s[1..][i - 1..] == s[i..];
      BlscfgCounted(s[1..], i - 1);
    }
  }

  lemma {:induction false} ReserveCoversBudget(s: seq<byte>, j: Injection)
    ensures BudgetSum(s, j) <= Reserve(s, j)
    decreases |s|
  {
    hide Times, IsLinux, IsInitrd, IsOptions, IsBlscfgWord, SET_KERNELOPTS;
    if s != [] {
      var line, rest := s[..FirstLine(s)], s[FirstLine(s)..];
      assert s == line + rest;
      BlscfgSplit(line, rest);
      if IsBlscfg(line) { BlscfgCounted(line, Indent(line, 0)); }
      ReserveCoversBudget(rest, j);
      TimesNext(LinuxCount(rest), |j.linux| + |j.eol|);
      TimesNext(InitrdCount(rest), |j.initrd|);
      TimesNext(BlscfgCount(rest), |SET_KERNELOPTS| + |j.linux| + 2);
      TimesMonotone(BlscfgCount(rest), BlscfgCount(s), |SET_KERNELOPTS| + |j.linux| + 2);
      if IsBlscfg(line) { TimesMonotone(BlscfgCount(rest) + 1, BlscfgCount(s), |SET_KERNELOPTS| + |j.linux| + 2); }
      TimesNext(OptionsCount(rest), |j.linux|);
    }
  }

  /** The rewritten text never outgrows the original plus the reserve. */
  lemma {:induction false} PatchedWithinReserve(s: seq<byte>, j: Injection, bls: bool)
    requires j.linux != [] ==> j.linux[0] == SPACE
    ensures |PatchedText(s, j, bls)| <= |s| + BudgetSum(s, j)
    decreases |s|
  {
    hide PatchLine, Budget;
    if s != [] {
      LineWithinBudget(s[..FirstLine(s)], j, bls);
      PatchedWithinReserve(s[FirstLine(s)..], j, bls);
    }
  }

  // ── Lines stay lines ──────────────────────────────────────────────────

  predicate EndsLine(s: seq<byte>) { s != [] && s[|s| - 1] == LF }

  predicate Plain(p: seq<byte>) { forall i :: 0 <= i < |p| ==> !Separator(p[i]) }

  lemma PlainAscii(s: string)
    requires forall i :: 0 <= i < |s| ==> s[i] > ' ' && s[i] < '~'
    ensures Plain(Ascii(s))
  {
  }

  lemma LocatorPlain(k: nat)
    requires k < |LOCATORS|
    ensures Plain(LOCATORS[k])
  {
    var names := ["findiso=", "iso-scan/filename=", "choosable.iso_offset=", "choosable.part_guid=",
                  "choosable.part_num=",
                  "choosable.iso_path=", "choosable.iso_size=", "root=live:", "archisosearchuuid=",
                    "archisosearchfilename="];
    assert LOCATORS[k] == Ascii(names[k]);
    PlainAscii(names[k]);
  }

  /** No locator pattern holds a separator. */
  lemma LocatorText(s: seq<byte>)
    ensures forall i :: 0 <= i < LocatorLen(s) ==> !Separator(s[i])
  {
    hide LOCATORS, Plain;
    forall k | 0 <= k < |LOCATORS| ensures Plain(LOCATORS[k]) { LocatorPlain(k); }
    PrefixText(s, LOCATORS);
  }

  lemma {:induction false} PrefixText(s: seq<byte>, pats: seq<seq<byte>>)
    requires forall k :: 0 <= k < |pats| ==> Plain(pats[k])
    ensures forall i :: 0 <= i < PrefixLen(s, pats) ==> !Separator(s[i])
  {
    if pats != [] {
      if pats[0] <= s {
        assert Plain(pats[0]);
        forall i | 0 <= i < |pats[0]| ensures !Separator(s[i]) { assert s[i] == pats[0][i]; }
      } else {
        PrefixText(s, pats[1..]);
      }
    }
  }

  lemma IndentStops(s: seq<byte>, i: nat, stop: nat)
    requires i <= stop < |s| && !Blank(s[stop])
    ensures Indent(s, i) <= stop
    decreases stop - i
  {
    if i < stop && Blank(s[i]) { IndentStops(s, i + 1, stop); }
  }

  lemma WordEndStops(s: seq<byte>, i: nat, stop: nat)
    requires i <= stop < |s| && Separator(s[stop])
    ensures WordEnd(s, i) <= stop
    decreases stop - i
  {
    if i < stop && !Separator(s[i]) { WordEndStops(s, i + 1, stop); }
  }

  lemma {:induction false} StrippedEndsLine(s: seq<byte>)
    requires EndsLine(s)
    ensures EndsLine(Stripped(s))
    decreases |s|
  {
    hide LocatorLen;
    if LocatorLen(s) > 0 {
      LocatorText(s);
      WordEndStops(s, LocatorLen(s), |s| - 1);
      IndentStops(s, WordEnd(s, LocatorLen(s)), |s| - 1);
      StrippedEndsLine(s[AfterLocator(s)..]);
    } else if |s| > 1 {
      StrippedEndsLine(s[1..]);
    }
  }

  lemma SecondArgBeforeBreak(s: seq<byte>)
    requires EndsLine(s)
    ensures SecondArgEnd(s) < |s|
  {
    IndentStops(s, 0, |s| - 1);
    WordEndStops(s, Indent(s, 0), |s| - 1);
    IndentStops(s, WordEnd(s, Indent(s, 0)), |s| - 1);
    WordEndStops(s, Indent(s, WordEnd(s, Indent(s, 0))), |s| - 1);
  }

  lemma PatchedEndsLine(line: seq<byte>, j: Injection, bls: bool)
    requires EndsLine(line)
    ensures EndsLine(PatchLine(line, j, bls))
  {
    hide Stripped, SecondArgEnd, IsLinux, IsInitrd, IsBlscfg, IsOptions, Contains;
    StrippedEndsLine(line);
    SecondArgBeforeBreak(line);
    SecondArgBeforeBreak(Stripped(line));
  }
}
