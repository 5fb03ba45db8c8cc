/** What the rewriter does to a config line of each kind, told from the words of the line. */
module GrubLines {
  import opened Bytes
  import opened BootArgs
  import opened GrubText
  import opened GrubWords
  import opened ConfigHandOff

  // ── Which lines are rewritten ─────────────────────────────────────────

  /** The first byte of a line that is no blank. */
  predicate Initial(line: seq<byte>, c: byte) {
    Indent(line, 0) < |line| && line[Indent(line, 0)] == c
  }

  lemma Initials(line: seq<byte>)
    ensures IsLinux(line) ==> Initial(line, 108)
    ensures IsInitrd(line) ==> Initial(line, 105)
    ensures IsOptions(line) ==> Initial(line, 111)
    ensures IsBlscfg(line) ==> Initial(line, 98) || Initial(line, 66)
  {
    var t := Trimmed(line);
    assert Ascii("linux")[0] == 108 && Ascii("linuxefi")[0] == 108 && Ascii("initrd")[0] == 105;
    assert Ascii("initrdefi")[0] == 105 && Ascii("options")[0] == 111 && Ascii("blscfg")[0] == 98 &&
           Ascii("BLSCFG")[0] == 66;
    hide Ascii;
    if t != [] { assert t[0] == line[Indent(line, 0)]; }
  }

  /** A line belongs to one kind at most. */
  lemma KindsApart(line: seq<byte>)
    ensures IsLinux(line) ==> !IsInitrd(line) && !IsOptions(line) && !IsBlscfg(line)
    ensures IsInitrd(line) ==> !IsOptions(line) && !IsBlscfg(line)
    ensures IsOptions(line) ==> !IsBlscfg(line)
  {
    Initials(line);
    hide IsLinux, IsInitrd, IsOptions, IsBlscfg;
  }

  lemma TrimmedIs(indent: seq<byte>, t: seq<byte>)
    requires (forall i :: 0 <= i < |indent| ==> Blank(indent[i])) && (t == [] || !Blank(t[0]))
    ensures Trimmed(indent + t) == t
    decreases |indent|
  {
    IndentAt(indent + t, 0, |indent|);
    assert (indent + t)[|indent|..] == t;
  }

  lemma IndentAt(s: seq<byte>, i: nat, e: nat)
    requires i <= e <= |s| && (forall k :: i <= k < e ==> Blank(s[k])) && (e < |s| ==> !Blank(s[e]))
    ensures Indent(s, i) == e
    decreases e - i
  {
    if i < e { IndentAt(s, i + 1, e); }
  }

  lemma CommandIs(word: seq<byte>, c: byte, rest: seq<byte>, w: seq<byte>)
    requires word != [] && Plain(word) && Plain(w) && Blank(c)
    ensures Command(word + [c] + rest, w) <==> word == w
  {
    var t := word + [c] + rest;
    assert t[..|word|] == word && t[|word|] == c;
    if Command(t, w) {
      assert t[..|w|] == w && |w| == |word|;
    }
  }

  /** The kind of a line is told by its first word, when a blank follows it. */
  lemma KindOfWord(indent: seq<byte>, word: seq<byte>, c: byte, rest: seq<byte>)
    requires (forall i :: 0 <= i < |indent| ==> Blank(indent[i])) && word != [] && Plain(word) && Blank(c)
    ensures var line := indent + (word + [c] + rest);
            && (IsLinux(line) <==> word == Ascii("linux") || word == Ascii("linuxefi"))
            && (IsInitrd(line) <==> word == Ascii("initrd") || word == Ascii("initrdefi"))
            && (IsOptions(line) <==> word == Ascii("options"))
  {
    var t := word + [c] + rest;
    assert t[0] == word[0];
    TrimmedIs(indent, t);
    PlainAscii("linux");
    PlainAscii("linuxefi");
    PlainAscii("initrd");
    PlainAscii("initrdefi");
    PlainAscii("options");
    hide Ascii, Trimmed, Plain, Command;
    CommandIs(word, c, rest, Ascii("linux"));
    CommandIs(word, c, rest, Ascii("linuxefi"));
    CommandIs(word, c, rest, Ascii("initrd"));
    CommandIs(word, c, rest, Ascii("initrdefi"));
    CommandIs(word, c, rest, Ascii("options"));
  }

  // ── Linux lines ───────────────────────────────────────────────────────

  /** A linux line that does not hold the arguments yet gets them behind the kernel path; any other
      linux line stays. */
  lemma LinuxPatched(line: seq<byte>, j: Injection, bls: bool)
    requires IsLinux(line) && (j.linux != [] ==> j.linux[0] == SPACE)
    ensures var l := if j.eol != [] || j.strips then Stripped(line) else line;
            var ws, k := Words(l), if CrBeforeSecondWord(l) then 1 else Least(2, |Words(l)|);
            if j.linux != [] && !Contains(line, j.linux)
            then k <= |ws| && Words(PatchLine(line, j, bls)) == ws[..k] + Words(j.linux + j.eol) + ws[k..]
            else PatchLine(line, j, bls) == line
  {
    KindsApart(line);
    hide IsLinux, IsInitrd, IsOptions, IsBlscfg, LinuxText, Stripped, Contains, Words, CrBeforeSecondWord;
    if j.linux != [] { LinuxLineWords(line, j); }
  }

  lemma {:induction false} ContainsInside(a: seq<byte>, w: seq<byte>, b: seq<byte>)
    ensures Contains(a + w + b, w)
    decreases |a|
  {
    if a == [] {
      assert a + w + b == w + b;
    } else {
      assert (a + w + b)[1..] == a[1..] + w + b;
      ContainsInside(a[1..], w, b);
    }
  }

  lemma InsertedHolds(l: seq<byte>, at: nat, a: seq<byte>, w: seq<byte>, b: seq<byte>)
    requires at <= |l|
    ensures Contains(Insert(l, at, a + w + b), w)
  {
    ContainsInside(l[..at] + a, w, b + l[at..]);
    assert l[..at] + (a + w + b) + l[at..] == l[..at] + a + w + (b + l[at..]);
  }

  /** Inserting behind the first letter keeps it. */
  lemma InitialKept(l: seq<byte>, at: nat, data: seq<byte>, c: byte)
    requires at <= |l| && Initial(l, c) && Indent(l, 0) < at
    ensures Initial(Insert(l, at, data), c)
  {
    var a := Indent(l, 0);
    IndentAt(Insert(l, at, data), 0, a);
  }

  lemma LinuxStrippedInitial(line: seq<byte>)
    requires IsLinux(line)
    ensures Initial(Stripped(line), 108)
  {
    hide Stripped, LocatorLen, Ascii, IsLinux;
    var a, n := LinuxCommand(line);
    IndentKept(line, a);
    StrippedWordStays(line[a..], n);
    IndentAt(Stripped(line), 0, a);
  }

  lemma SecondArgBehind(l: seq<byte>, c: byte)
    requires Initial(l, c) && !Separator(c)
    ensures Indent(l, 0) < SecondArgEnd(l)
  {
    var a := Indent(l, 0);
    assert WordEnd(l, a) > a;
  }

  /** A line that begins with an l and holds the arguments is left alone. */
  lemma LinuxAgain(p: seq<byte>, j: Injection, bls: bool)
    requires Initial(p, 108) && Contains(p, j.linux)
    ensures PatchLine(p, j, bls) == p
  {
    Initials(p);
    hide IsLinux, IsInitrd, IsOptions, IsBlscfg, Contains, LinuxText, OptionsText, BlsLine, Insert, LineEnd;
  }

  lemma LinuxTextHolds(line: seq<byte>, j: Injection)
    requires IsLinux(line)
    ensures Initial(LinuxText(line, j), 108) && Contains(LinuxText(line, j), j.linux)
  {
    Initials(line);
    LinuxStrippedInitial(line);
    var l := if j.eol != [] || j.strips then Stripped(line) else line;
    hide Stripped, IsLinux, IsInitrd, IsOptions, IsBlscfg, Insert, Contains, SecondArgEnd, Initial;
    assert LinuxText(line, j) == Insert(l, SecondArgEnd(l), [] + j.linux + j.eol) by { NothingBefore(j.linux, j.eol); }
    InsertedHolds(l, SecondArgEnd(l), [], j.linux, j.eol);
    InsertedBehind(l, [] + j.linux + j.eol);
  }

  lemma NothingBefore(a: seq<byte>, b: seq<byte>)
    ensures [] + a + b == a + b
  {
  }

  lemma InsertedBehind(l: seq<byte>, data: seq<byte>)
    requires Initial(l, 108)
    ensures Initial(Insert(l, SecondArgEnd(l), data), 108)
  {
    SecondArgBehind(l, 108);
    InitialKept(l, SecondArgEnd(l), data, 108);
  }

  /** Rewriting a linux line again changes nothing. */
  lemma LinuxOnce(line: seq<byte>, j: Injection, bls: bool)
    requires IsLinux(line) && j.linux != []
    ensures PatchLine(PatchLine(line, j, bls), j, bls) == PatchLine(line, j, bls)
  {
    KindsApart(line);
    LinuxTextHolds(line, j);
    hide IsLinux, IsInitrd, IsOptions, IsBlscfg, Contains, LinuxText, Initial;
    if !Contains(line, j.linux) {
      assert PatchLine(line, j, bls) == LinuxText(line, j);
      LinuxAgain(LinuxText(line, j), j, bls);
    } else {
      assert PatchLine(line, j, bls) == line;
    }
  }

  // ── Initrd lines ──────────────────────────────────────────────────────

  /** An initrd line that does not name the archive gets it as its last word, unless the line is
      shorter than the archive's path; any other initrd line stays. */
  lemma InitrdPatched(line: seq<byte>, j: Injection, bls: bool)
    requires IsInitrd(line) && j.initrd != [] && j.initrd[0] == SPACE
    ensures if |j.dedup| <= |line| && !Contains(line, j.dedup)
            then Words(PatchLine(line, j, bls)) == Words(line) + Words(j.initrd)
            else PatchLine(line, j, bls) == line
  {
    KindsApart(line);
    hide IsLinux, IsInitrd, IsOptions, IsBlscfg, Contains, Words, Insert, LineEnd;
    InitrdLineWords(line, j.initrd);
  }

  lemma InitrdEnds(line: seq<byte>)
    requires IsInitrd(line)
    ensures Indent(line, 0) < LineEnd(line) && Initial(line, 105)
  {
    Initials(line);
    var a := Indent(line, 0);
    hide Ascii;
    assert line[a] == 105;
  }

  lemma {:induction false} TooShort(s: seq<byte>, w: seq<byte>)
    requires |s| < |w|
    ensures !Contains(s, w)
  {
    if s != [] { TooShort(s[1..], w); }
  }

  /** The archive's path as the rewriter writes it. */
  function ArchivePath(target: seq<byte>): seq<byte> {
    var name := if target == [] then PREMOUNT_NAME else target;
    [47] + if |name| <= 30 then name else name[..30]
  }

  /** A rewritten initrd line names the archive if and only if the line was at least as long as its path. */
  lemma InitrdNamesArchive(line: seq<byte>, kind: BootKind, loc: Option<IsoLocation>, target: seq<byte>, bls: bool)
    requires IsInitrd(line) && (loc.Some? ==> loc.value.Valid())
    ensures Contains(PatchLine(line, InjectionFor(kind, loc, target), bls), ArchivePath(target)) <==>
            |ArchivePath(target)| <= |line|
  {
    KindsApart(line);
    hide Needed, Extra, EolText, PREMOUNT_NAME;
    var j, w := InjectionFor(kind, loc, target), ArchivePath(target);
    assert j.dedup == w && j.initrd == [SPACE] + w + [];
    hide IsLinux, IsInitrd, IsOptions, IsBlscfg, Contains, Insert, ArchivePath, InjectionFor;
    if |w| > |line| { TooShort(line, w); }
    InsertedHolds(line, LineEnd(line), [SPACE], w, []);
  }

  lemma InitrdAgain(p: seq<byte>, j: Injection, bls: bool)
    requires Initial(p, 105) && Contains(p, j.dedup)
    ensures PatchLine(p, j, bls) == p
  {
    Initials(p);
    hide IsLinux, IsInitrd, IsOptions, IsBlscfg, Contains, LinuxText, OptionsText, BlsLine, Insert, LineEnd;
  }

  /** Rewriting an initrd line again changes nothing. */
  lemma InitrdOnce(line: seq<byte>, kind: BootKind, loc: Option<IsoLocation>, target: seq<byte>, bls: bool)
    requires IsInitrd(line) && (loc.Some? ==> loc.value.Valid())
    ensures var j := InjectionFor(kind, loc, target);
            PatchLine(PatchLine(line, j, bls), j, bls) == PatchLine(line, j, bls)
  {
    KindsApart(line);
    InitrdEnds(line);
    hide Needed, Extra, EolText, PREMOUNT_NAME;
    var j, w := InjectionFor(kind, loc, target), ArchivePath(target);
    assert j.dedup == w && j.initrd == [SPACE] + w + [];
    hide IsLinux, IsInitrd, IsOptions, IsBlscfg, Contains, Insert, ArchivePath, InjectionFor, LineEnd, Initial;
    if |w| <= |line| && !Contains(line, w) {
      var p := Insert(line, LineEnd(line), j.initrd);
      assert PatchLine(line, j, bls) == p;
      InsertedHolds(line, LineEnd(line), [SPACE], w, []);
      InitialKept(line, LineEnd(line), j.initrd, 105);
      InitrdAgain(p, j, bls);
    } else {
      assert PatchLine(line, j, bls) == line;
    }
  }

  // ── The other kinds ───────────────────────────────────────────────────

  /** A blscfg line begins with that word in small or in capital letters, whatever follows it. */
  lemma KindOfBlscfg(indent: seq<byte>, t: seq<byte>)
    requires (forall i :: 0 <= i < |indent| ==> Blank(indent[i])) && t != [] && !Blank(t[0])
    ensures IsBlscfg(indent + t) <==> |t| >= 6 && t[..6] in {Ascii("blscfg"), Ascii("BLSCFG")}
  {
    TrimmedIs(indent, t);
    hide Trimmed;
    var (small, large) := (Ascii("blscfg"), Ascii("BLSCFG"));
    assert |small| == |large| == 6;
    assert small <= t ==> t[..6] == small;
    assert large <= t ==> t[..6] == large;
    hide Ascii;
  }

  /** The line before it fits the rewriter's buffer of 1024 bytes and is cut only to fit it; a quote and
      a line feed end it in any case. */
  lemma BlsLineFits(linux: seq<byte>)
    ensures var l := BlsLine(linux);
            |l| == Least(29 + |linux|, 1024) && l[|l| - 2..] == [34, LF] && l[..|l| - 2] <= SET_KERNELOPTS + linux
  {
    assert |SET_KERNELOPTS| == 27;
    hide SET_KERNELOPTS;
  }

  /** Before a blscfg line the kernel options are extended by the arguments, where the config is
      known to have such lines; a buffer of 512 bytes of arguments is never cut. */
  lemma BlscfgPatched(line: seq<byte>, j: Injection, bls: bool)
    requires IsBlscfg(line) && j.linux != [] && j.linux[0] == SPACE && |j.linux| <= 512
    ensures if !bls then PatchLine(line, j, bls) == line
            else Words(PatchLine(line, j, bls)) ==
                 [Ascii("set"), Ascii("kernelopts=\"$kernelopts")] + Words(j.linux + [34]) + Words(line)
  {
    KindsApart(line);
    hide IsLinux, IsInitrd, IsOptions, IsBlscfg;
    if bls {
      hide BlsLine;
      assert PatchLine(line, j, bls) == BlsLine(j.linux) + line;
      BlsLineWords(j.linux, line);
    }
  }

  lemma BlsLineWords(linux: seq<byte>, line: seq<byte>)
    requires linux != [] && linux[0] == SPACE && |linux| <= 512
    ensures Words(BlsLine(linux) + line) ==
            [Ascii("set"), Ascii("kernelopts=\"$kernelopts")] + Words(linux + [34]) + Words(line)
  {
    SetWords();
    hide SET_KERNELOPTS, Ascii, Words;
    var opts, rest := linux + [34], [LF] + line;
    assert BlsLine(linux) + line == SET_KERNELOPTS + (opts + rest);
    WordsJoin([LF], line);
    WordsOfSeparators([LF]);
    WordsJoin(opts, rest);
    WordsJoin(SET_KERNELOPTS, opts + rest);
    assert [] + Words(line) == Words(line);
  }

  lemma SetWords()
    ensures Words(SET_KERNELOPTS) == [Ascii("set"), Ascii("kernelopts=\"$kernelopts")]
  {
    SetText();
    PlainAscii("set");
    PlainAscii("kernelopts=\"$kernelopts");
    hide Ascii, Words, SET_KERNELOPTS;
    TwoWords(Ascii("set"), Ascii("kernelopts=\"$kernelopts"));
  }

  lemma SetText()
    ensures SET_KERNELOPTS == Ascii("set") + [SPACE] + Ascii("kernelopts=\"$kernelopts")
  {
    var s := "set kernelopts=\"$kernelopts";
    assert s[..3] == "set" && s[3] == ' ' && s[4..] == "kernelopts=\"$kernelopts";
    forall i | 0 <= i < 23 ensures Ascii(s)[4 + i] == Ascii(s[4..])[i] {}
    assert Ascii(s)[4..] == Ascii(s[4..]) && Ascii(s)[..3] == Ascii(s[..3]);
  }

  lemma TwoWords(a: seq<byte>, b: seq<byte>)
    requires a != [] && b != [] && Plain(a) && Plain(b)
    ensures Words(a + [SPACE] + b) == [a, b]
  {
    OneWord(a);
    OneWord(b);
    WordsOfSeparators([SPACE]);
    WordsJoin([SPACE], b);
    WordsJoin(a, [SPACE] + b);
    assert a + [SPACE] + b == a + ([SPACE] + b);
    hide Words;
  }

  /** An options line gets the arguments as its last words; a line of no kind stays. */
  lemma OptionsPatched(line: seq<byte>, j: Injection, bls: bool)
    requires j.linux != [] ==> j.linux[0] == SPACE
    ensures IsOptions(line) ==> Words(PatchLine(line, j, bls)) == Words(Stripped(line)) + Words(j.linux)
    ensures !IsLinux(line) && !IsInitrd(line) && !IsOptions(line) && !IsBlscfg(line) ==> PatchLine(line, j, bls) == line
  {
    KindsApart(line);
    hide IsLinux, IsInitrd, IsOptions, IsBlscfg, Words, Stripped, OptionsText;
    OptionsLineWords(line, j.linux);
  }

  /** Text put at the end of an initrd line goes before its line break, which stays as it was. */
  lemma BreakKept(l: seq<byte>, b: seq<byte>, data: seq<byte>)
    requires b in {[], [LF], [CR, LF]} && (l == [] || (l[|l| - 1] != LF && l[|l| - 1] != CR))
    ensures Insert(l + b, LineEnd(l + b), data) == l + data + b
    ensures OptionsEnd(l + b) == |l|
  {
    var s := l + b;
    assert LineEnd(s) == |l|;
    assert s[..|l|] == l && s[|l|..] == b;
  }
}
