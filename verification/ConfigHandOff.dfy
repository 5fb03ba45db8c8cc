/** Patched config lines, read back by the early-init program. */
module ConfigHandOff {
  import opened Bytes
  import opened GrubText
  import opened GrubWords
  import opened BootArgs
  import opened InitCmdline
  import opened HandOff
  import opened GrubPatcher

  // ── What the patcher injects for a boot kind ──────────────────────────

  const FINDISO: seq<byte> := Ascii("findiso=")
  const ISO_SCAN: seq<byte> := Ascii("iso-scan/filename=")
  const LINUX_CAP := 512

  /** The distribution's own way to name the ISO file. */
  function EolWord(kind: BootKind, loc: Option<IsoLocation>): seq<byte> {
    match (kind, loc)
    case (Casper, Some(l)) => ISO_SCAN + l.path
    case (DebianLive, Some(l)) => FINDISO + l.path
    case _ => []
  }

  function EolText(kind: BootKind, loc: Option<IsoLocation>): seq<byte> {
    if EolWord(kind, loc) == [] then [] else [SPACE] + EolWord(kind, loc)
  }

  function InjectionFor(kind: BootKind, loc: Option<IsoLocation>, target: seq<byte>): Injection
    requires loc.Some? ==> loc.value.Valid()
  {
    var name := if target == [] then PREMOUNT_NAME else target;
    var shown := if |name| <= 30 then name else name[..30];
    Injection(
      if Needed(kind, loc) <= LINUX_CAP then Extra(kind, loc) else [],
      EolText(kind, loc),
      [SPACE, 47] + shown,
      [47] + shown,
      kind == FedoraLive || kind == ArchIso)
  }

  /** Each distribution's live system is told by its own words, and by no other one's; all but
      Windows PE start the early-init program. */
  lemma KindIsTold(kind: BootKind, loc: IsoLocation)
    requires loc.Valid()
    ensures var ws := KindWords(kind, Some(loc));
            && (Ascii("boot=casper") in ws <==> kind == Casper || kind == Unknown)
            && (Ascii("boot=live") in ws <==> kind == DebianLive)
            && (Ascii("rd.live.image") in ws <==> kind == FedoraLive)
            && (Ascii("archisobasedir=arch") in ws <==> kind == ArchIso)
            && (Ascii("init=/init.choosable") in ws <==> kind != WindowsPE)
  {
    WordLengths();
    hide PartUuid;
    var first := BY_PARTUUID + PartUuid(loc);
    assert |first| > 40;
    hide Ascii, BY_PARTUUID;
  }

  /** The words differ in length or in their first letters. */
  lemma WordLengths()
    ensures |Ascii("boot=casper")| == 11 && |Ascii("boot=live")| == 9 && |Ascii("rd.live.image")| == 13
    ensures |Ascii("archisobasedir=arch")| == 19 && |Ascii("init=/init.choosable")| == 20
    ensures |Ascii("live-media=/dev/choosable-live")| == 30 && |Ascii("maybe-ubiquity")| == 14
    ensures |Ascii("live-media-path=/live")| == 21 && |Ascii("root=live:/dev/choosable-live")| == 29
    ensures |Ascii("rd.live.dir=/LiveOS")| == 19 && Ascii("rd.live.dir=/LiveOS")[0] == 114
    ensures |Ascii("rd.live.squashimg=squashfs.img")| == 30 && |Ascii("rootdelay=10")| == 12
    ensures |Ascii("copytoram")| == 9 && Ascii("copytoram")[0] == 99 && Ascii("boot=live")[0] == 98
    ensures Ascii("archisobasedir=arch")[0] == 97
  {
  }

  /** Ubuntu's and Debian's live systems are told the ISO file's path in their own way, others are not. */
  lemma OwnArgument(kind: BootKind, loc: IsoLocation)
    requires loc.Valid()
    ensures var w := EolWord(kind, Some(loc));
            && (Ascii("iso-scan/filename=") <= w <==> kind == Casper) &&
               (Ascii("findiso=") <= w <==> kind == DebianLive)
            && (kind == Casper ==> w[18..] == loc.path) && (kind == DebianLive ==> w[8..] == loc.path)
  {
    assert Ascii("iso-scan/filename=")[0] == 105 && Ascii("findiso=")[0] == 102;
    hide Ascii;
  }

  /** Kinds whose linux lines lose their stale locator arguments. */
  predicate Strips(kind: BootKind) { kind in {Casper, DebianLive, FedoraLive, ArchIso} }

  lemma StripsIff(kind: BootKind, loc: IsoLocation, target: seq<byte>)
    requires loc.Valid()
    ensures var j := InjectionFor(kind, Some(loc), target); (j.eol != [] || j.strips) <==> Strips(kind)
  {
    assert |ISO_SCAN| > 0 && |FINDISO| > 0;
    hide Needed, Extra, ISO_SCAN, FINDISO, PREMOUNT_NAME;
  }

  // ── Room for the arguments ────────────────────────────────────────────

  lemma ArgTextLengths(ws: seq<seq<byte>>)
    requires 1 <= |ws| <= 6
    ensures |ArgText(ws)| == |ws| + |ws[0]| + (if |ws| > 1 then |ws[1]| else 0) + (if |ws| > 2 then |ws[2]| else 0)
                             + (if |ws| > 3 then |ws[3]| else 0) + (if |ws| > 4 then |ws[4]| else 0) +
                               (if |ws| > 5 then |ws[5]| else 0)
  {
    if |ws| > 1 { ArgTextLengths(ws[1..]); } else { assert ArgText(ws[1..]) == []; }
  }

  lemma KindTextLength(kind: BootKind, loc: IsoLocation)
    requires loc.Valid()
    ensures |KindText(kind, Some(loc))| <= 129 && (kind == FedoraLive ==> |KindText(kind, Some(loc))| == 129)
  {
    hide PartUuid, ArgText;
    if kind == WindowsPE { NoArgs(); } else { ArgTextLengths(KindWords(kind, Some(loc))); }
  }

  lemma NoArgs()
    ensures ArgText([]) == []
  {
  }

  /** The 512-byte buffer takes every location whose path has at most 194 bytes. */
  lemma ShortPathsFit(kind: BootKind, loc: IsoLocation)
    requires loc.Valid() && |loc.PathWithoutLeadingSlash()| <= 194
    ensures Needed(kind, Some(loc)) <= LINUX_CAP
  {
    hide KindText, Dec, PartUuid;
    KindTextLength(kind, loc);
    DecBounds(loc.number);
    DecBounds(loc.OffsetBytes());
  }

  /** On Fedora a longer path makes all the arguments disappear. */
  lemma LongPathDropsAll(loc: IsoLocation, target: seq<byte>)
    requires loc.Valid() && !loc.isMbr && |loc.PathWithoutLeadingSlash()| > 222
    ensures InjectionFor(FedoraLive, Some(loc), target).linux == []
  {
    hide KindText, Dec, PartUuid, Extra, PREMOUNT_NAME;
    KindTextLength(FedoraLive, loc);
  }

  // ── Stripped text says nothing about a location ───────────────────────

  predicate NoLocators(ws: seq<seq<byte>>) { forall i :: 0 <= i < |ws| ==> !StartsLocator(ws[i]) }

  lemma {:induction false} KeptIsClean(ws: seq<seq<byte>>)
    ensures NoLocators(Kept(ws))
  {
    hide StartsLocator;
    if ws != [] { KeptIsClean(ws[1..]); }
  }

  lemma {:induction false} PrefixFound(s: seq<byte>, pats: seq<seq<byte>>, k: nat)
    requires k < |pats| && pats[k] <= s && forall i :: 0 <= i < |pats| ==> pats[i] != []
    ensures PrefixLen(s, pats) > 0
  {
    if !(pats[0] <= s) { PrefixFound(s, pats[1..], k - 1); }
  }

  lemma AsciiJoin(a: string, b: string)
    ensures Ascii(a + b) == Ascii(a) + Ascii(b)
  {
  }

  lemma NamesAreLocators(k: nat)
    requires k < |NAMES|
    ensures exists i :: 0 <= i < |LOCATORS| && LOCATORS[i] == NAMES[k] + [61]
  {
    var names := ["choosable.iso_offset", "choosable.part_guid", "choosable.part_num", "choosable.iso_path",
                  "choosable.iso_size"];
    assert NAMES[k] == Ascii(names[k]);
    assert Ascii("=") == [61];
    AsciiJoin(names[k], "=");
    var i := match k case 0 => 2 case 1 => 3 case 2 => 4 case 3 => 5 case _ => 6;
    assert LOCATORS[i] == Ascii(names[k] + "=");
  }

  lemma TellingIsLocator(w: seq<byte>)
    requires Telling(w)
    ensures StartsLocator(w)
  {
    var k :| 0 <= k < |NAMES| && NAMES[k] + [61] <= w;
    NamesAreLocators(k);
    assert forall i :: 0 <= i < |LOCATORS| ==> LOCATORS[i] != [];
    hide LOCATORS, NAMES;
    var i :| 0 <= i < |LOCATORS| && LOCATORS[i] == NAMES[k] + [61];
    PrefixFound(w, LOCATORS, i);
  }

  lemma TokenSaysNothing(t: seq<byte>)
    requires NoLocators(Words(t))
    ensures !Telling(t)
  {
    hide StartsLocator;
    if Telling(t) {
      TellingIsLocator(t);
      FirstWordStarts(t);
    }
  }

  lemma FirstWordStarts(t: seq<byte>)
    requires StartsLocator(t)
    ensures Words(t) != [] && StartsLocator(Words(t)[0])
  {
    LocatorText(t);
    var e := WordEnd(t, 0);
    LocatorWithin(t, e);
    hide LocatorLen;
  }

  /** Text without locator words has no location argument among its tokens. */
  lemma {:induction false} CleanWordsMute(s: seq<byte>)
    requires NoLocators(Words(s))
    ensures Mute(Tokens(s))
    decreases |s|
  {
    hide Telling, StartsLocator, Words;
    if s != [] {
      if Gap(s[0]) {
        GapWords(s);
        CleanWordsMute(s[1..]);
      } else {
        var e := TokenEnd(s, 0);
        assert e > 0;
        WordsCut(s, e);
        assert NoLocators(Words(s[..e])) by { CleanParts(Words(s[..e]), Words(s[e..])); }
        assert NoLocators(Words(s[e..])) by { CleanParts(Words(s[..e]), Words(s[e..])); }
        TokenSaysNothing(s[..e]);
        CleanWordsMute(s[e..]);
      }
    }
  }

  lemma GapWords(s: seq<byte>)
    requires s != [] && Separator(s[0])
    ensures Words(s) == Words(s[1..])
  {
  }

  lemma CleanParts(a: seq<seq<byte>>, b: seq<seq<byte>>)
    requires NoLocators(a + b)
    ensures NoLocators(a) && NoLocators(b)
  {
    hide StartsLocator;
    assert forall i :: 0 <= i < |a| ==> a[i] == (a + b)[i];
    assert forall i :: 0 <= i < |b| ==> b[i] == (a + b)[|a| + i];
  }

  /** Both sides of the injection point of a stripped line are mute. */
  lemma StrippedSidesMute(line: seq<byte>, at: nat)
    requires NoneGlued(Words(line)) && at <= |Stripped(line)|
    requires var l := Stripped(line); (at < |l| ==> Separator(l[at])) || (at > 0 && Separator(l[at - 1]))
    ensures Mute(Tokens(Stripped(line)[..at])) && Mute(Tokens(Stripped(line)[at..]))
  {
    hide Stripped, Words, NoneGlued, Mute, Tokens, NoLocators;
    var l := Stripped(line);
    StripsWholeWords(line);
    KeptIsClean(Words(line));
    WordsJoin(l[..at], l[at..]);
    assert l == l[..at] + l[at..];
    CleanParts(Words(l[..at]), Words(l[at..]));
    CleanWordsMute(l[..at]);
    CleanWordsMute(l[at..]);
  }

  // ── Linux lines ───────────────────────────────────────────────────────

  lemma OtherWordMute(w: seq<byte>)
    requires w != [] && w[0] != 99
    ensures !Telling(w)
  {
    forall k | 0 <= k < |NAMES| ensures !(NAMES[k] + [61] <= w) {
      assert (NAMES[k] + [61])[0] == NAMES[k][0] == 99;
    }
  }

  lemma NoGapJoin(a: seq<byte>, b: seq<byte>)
    requires a != [] && NoGap(a) && NoGap(b)
    ensures NoGap(a + b) && (a + b)[0] == a[0]
  {
  }

  lemma EolNames()
    ensures FINDISO != [] && NoGap(FINDISO) && FINDISO[0] != 99 && ISO_SCAN != [] && NoGap(ISO_SCAN) &&
            ISO_SCAN[0] != 99
  {
    HarmlessAscii("findiso=");
    HarmlessAscii("iso-scan/filename=");
    hide Ascii;
  }

  lemma EolWordShape(kind: BootKind, loc: IsoLocation)
    requires Usable(loc) && EolWord(kind, Some(loc)) != []
    ensures var w := EolWord(kind, Some(loc)); NoGap(w) && w[0] != 99
  {
    hide FINDISO, ISO_SCAN, NoGap, Utf8;
    EolNames();
    NoGapJoin(FINDISO, loc.path);
    NoGapJoin(ISO_SCAN, loc.path);
  }

  lemma MuteFirst(w: seq<byte>, ws: seq<seq<byte>>)
    requires !Telling(w)
    ensures Mute(ws) ==> Mute([w] + ws)
  {
    hide Telling;
  }

  /** The distribution's own argument never hides or adds a location. */
  lemma EolMute(kind: BootKind, loc: IsoLocation, post: seq<byte>)
    requires Usable(loc) && Mute(Tokens(post)) && (post == [] || Separator(post[0]))
    ensures Mute(Tokens(EolText(kind, Some(loc)) + post))
  {
    hide Telling, EolWord, TokenEnd, Mute, Tokens;
    var w, e := EolWord(kind, Some(loc)), TokenEnd(post, 0);
    if w == [] {
      assert [] + post == post;
    } else {
      EolWordShape(kind, loc);
      assert [SPACE] + w + post == [SPACE] + (w + post);
      SpaceFirst(w + post);
      TokenAt(w, post);
      OtherWordMute(w + post[..e]);
      MuteFirst(w + post[..e], Tokens(post[e..]));
      if post != [] && post[0] == CR {
        CrFirst(post);
        MuteRest(Tokens(post));
      } else {
        GapFirst(post);
      }
    }
  }

  /** What follows the location arguments on a rewritten linux line. */
  function AfterArgs(line: seq<byte>, j: Injection): seq<byte> {
    var l := if j.eol != [] || j.strips then Stripped(line) else line;
    j.eol + l[SecondArgEnd(l)..]
  }

  function BeforeArgs(line: seq<byte>, j: Injection): seq<byte> {
    var l := if j.eol != [] || j.strips then Stripped(line) else line;
    l[..SecondArgEnd(l)]
  }

  lemma LinuxTextParts(line: seq<byte>, j: Injection)
    ensures LinuxText(line, j) == BeforeArgs(line, j) + j.linux + AfterArgs(line, j)
    ensures (j.eol == [] || j.eol[0] == SPACE) ==> AfterArgs(line, j) == [] || Separator(AfterArgs(line, j)[0])
  {
    hide Stripped, WordEnd;
    var l := if j.eol != [] || j.strips then Stripped(line) else line;
    var at := SecondArgEnd(l);
    assert l[..at] + (j.linux + j.eol) + l[at..] == l[..at] + j.linux + (j.eol + l[at..]);
    assert at < |l| ==> Separator(l[at]) by { SecondArgStops(l); }
  }

  lemma SecondArgStops(l: seq<byte>)
    ensures var at := SecondArgEnd(l); at < |l| ==> Separator(l[at])
  {
  }

  /** On every linux line, of every kind, the early-init program learns the ISO's location if and
      only if nothing behind the arguments contradicts it and, where a CR follows them directly,
      the rest of the line tells the size. */
  lemma LinuxHandOff(line: seq<byte>, kind: BootKind, loc: IsoLocation, target: seq<byte>)
    requires Usable(loc) && Needed(kind, Some(loc)) <= LINUX_CAP
    ensures var j := InjectionFor(kind, Some(loc), target);
            Parse(LinuxText(line, j)) == Expected(loc) <==>
              Learns(BeforeArgs(line, j), AfterArgs(line, j), Expected(loc))
  {
    var j := InjectionFor(kind, Some(loc), target);
    assert j.linux == Extra(kind, Some(loc)) && (j.eol == [] || j.eol[0] == SPACE);
    hide AfterArgs, BeforeArgs, Extra, Parse, Expected, LinuxText, InjectionFor, Needed, Learns;
    LinuxTextParts(line, j);
    LandedIff(BeforeArgs(line, j), kind, loc, AfterArgs(line, j));
  }

  lemma MuteParse(s: seq<byte>)
    requires Mute(Tokens(s))
    ensures Parse(s) == NOTHING
  {
    MuteFold(NOTHING, Tokens(s));
  }

  /** The arguments put into stripped text are read back exactly, unless a CR follows them. */
  lemma StrippedParse(line: seq<byte>, at: nat, kind: BootKind, loc: IsoLocation, eol: seq<byte>)
    requires Usable(loc) && NoneGlued(Words(line)) && at <= |Stripped(line)| &&
             (at < |Stripped(line)| ==> Separator(Stripped(line)[at]))
    requires eol == [] || (eol == EolText(kind, Some(loc)) && eol[0] == SPACE)
    ensures var l := Stripped(line);
            Parse(l[..at] + Extra(kind, Some(loc)) + (eol + l[at..])) == Expected(loc) <==>
              !(eol == [] && at < |l| && l[at] == CR)
  {
    hide Extra, Parse, Expected, Stripped, EolText, Mute, Tokens, NoneGlued, Usable;
    var l := Stripped(line);
    var post := eol + l[at..];
    StrippedSidesMute(line, at);
    if eol != [] { EolMute(kind, loc, l[at..]); } else { assert post == l[at..]; }
    LandedIff(l[..at], kind, loc, post);
    UsableValid(loc);
    AllSome(loc);
    MuteParse(post);
    MuteParse(l[..at]);
  }

  lemma UsableValid(loc: IsoLocation)
    requires Usable(loc)
    ensures loc.Valid()
  {
  }

  lemma InjectionParts(kind: BootKind, loc: IsoLocation, target: seq<byte>)
    requires loc.Valid() && Needed(kind, Some(loc)) <= LINUX_CAP
    ensures var j := InjectionFor(kind, Some(loc), target);
            j.linux == Extra(kind, Some(loc)) && j.eol == EolText(kind, Some(loc)) && (j.eol == [] || j.eol[0] == SPACE)
    ensures Extra(kind, Some(loc)) != [] && Extra(kind, Some(loc))[0] == SPACE
  {
    ArgStarts(KindWords(kind, Some(loc)));
    hide Extra, EolWord, Needed, PREMOUNT_NAME;
    ExtraStarts(kind, loc);
  }

  lemma ArgStarts(ws: seq<seq<byte>>)
    ensures ArgText(ws) == [] || ArgText(ws)[0] == SPACE
  {
  }

  lemma ExtraStarts(kind: BootKind, loc: IsoLocation)
    requires loc.Valid()
    ensures |Extra(kind, Some(loc))| > 1 && Extra(kind, Some(loc))[0] == SPACE
  {
    hide ArgText, Dec, PartUuid, PART_GUID, PathText, PART_NUM, ISO_OFFSET, ISO_SIZE, KindWords;
    ArgStarts(KindWords(kind, Some(loc)));
    var head := Key(PART_GUID);
    assert head[0] == SPACE;
  }

  /** For the kinds that strip stale arguments only a CR can spoil the hand-off: one right after
      the kernel path, on a line that gets no argument of the distribution's own. */
  lemma StrippingHandOff(line: seq<byte>, kind: BootKind, loc: IsoLocation, target: seq<byte>)
    requires Usable(loc) && Needed(kind, Some(loc)) <= LINUX_CAP && Strips(kind) && NoneGlued(Words(line))
    ensures var j, l := InjectionFor(kind, Some(loc), target), Stripped(line);
            var at := SecondArgEnd(l);
            Parse(LinuxText(line, j)) == Expected(loc) <==> !(j.eol == [] && at < |l| && l[at] == CR)
  {
    hide Extra, Parse, Expected, LinuxText, InjectionFor, Needed, Stripped, SecondArgEnd, EolText, NoneGlued;
    var j, l := InjectionFor(kind, Some(loc), target), Stripped(line);
    InjectionParts(kind, loc, target);
    StripsIff(kind, loc, target);
    var at := SecondArgEnd(l);
    SecondArgStops(l);
    LinuxTextParts(line, j);
    StrippedParse(line, at, kind, loc, j.eol);
  }

  // ── Options lines ─────────────────────────────────────────────────────

  /** An options line reads as if the arguments were inserted as they are. */
  lemma OptionsTokens(l: seq<byte>, at: nat, linux: seq<byte>)
    requires at <= |l| && linux != [] && linux[0] == SPACE
    ensures var data := (if at > 0 && !Blank(l[at - 1]) then [SPACE] else []) + linux[1..];
            Tokens(Insert(l, at, data)) == Tokens(l[..at] + linux + l[at..])
  {
    hide Tokens;
    var pre, post, content := l[..at], l[at..], linux[1..];
    assert [SPACE] + content == linux;
    if !(at > 0 && !Blank(l[at - 1])) {
      assert [] + content == content;
      assert pre + content + post == pre + (content + post);
      TokensJoin(pre, content + post);
      assert pre + linux + post == pre + ([SPACE] + (content + post));
      TokensJoin(pre, [SPACE] + (content + post));
      SpaceFirst(content + post);
    }
  }

  /** On every options line the location is learnt under the same condition. */
  lemma OptionsHandOff(line: seq<byte>, kind: BootKind, loc: IsoLocation)
    requires Usable(loc)
    ensures var l := Stripped(line);
            var at := OptionsEnd(l);
            Parse(OptionsText(line, Extra(kind, Some(loc)))) == Expected(loc) <==>
              Learns(l[..at], l[at..], Expected(loc))
  {
    ExtraStarts(kind, loc);
    hide Extra, Expected, Stripped, Tokens, Usable, Fold, Insert, Learns;
    var l, linux := Stripped(line), Extra(kind, Some(loc));
    var at := OptionsEnd(l);
    OptionsTokens(l, at, linux);
    LandedIff(l[..at], kind, loc, l[at..]);
  }

  /** Without hidden locator patterns the location goes last on an options line, before the line
      break, and only a CR there spoils it. */
  lemma CleanOptionsHandOff(line: seq<byte>, kind: BootKind, loc: IsoLocation)
    requires Usable(loc) && NoneGlued(Words(line))
    ensures var l := Stripped(line);
            var at := OptionsEnd(l);
            Parse(OptionsText(line, Extra(kind, Some(loc)))) == Expected(loc) <==> !(at < |l| && l[at] == CR)
  {
    ExtraStarts(kind, loc);
    hide Extra, Expected, Stripped, NoneGlued, Tokens, Usable, Fold, Insert;
    var l, linux := Stripped(line), Extra(kind, Some(loc));
    var at := OptionsEnd(l);
    OptionsTokens(l, at, linux);
    StrippedParse(line, at, kind, loc, []);
    assert [] + l[at..] == l[at..];
  }

  // ── Config lines ──────────────────────────────────────────────────────

  lemma OptionsKind(line: seq<byte>)
    requires IsOptions(line)
    ensures !IsLinux(line) && !IsBlscfg(line)
  {
    var t := Trimmed(line);
    assert t[0] == 111;
    assert Ascii("linux")[0] == Ascii("linuxefi")[0] == 108 && Ascii("blscfg")[0] == 98 && Ascii("BLSCFG")[0] == 66;
  }

  /** One rewritten line of a config: a linux line not yet carrying the arguments, or an
      options line. Without hidden locator patterns only a CR after the arguments spoils it. */
  lemma ConfigLineHandOff(line: seq<byte>, kind: BootKind, loc: IsoLocation, target: seq<byte>, bls: bool)
    requires Usable(loc) && Needed(kind, Some(loc)) <= LINUX_CAP && Strips(kind) && NoneGlued(Words(line))
    requires (IsLinux(line) && !Contains(line, Extra(kind, Some(loc)))) || IsOptions(line)
    ensures var j, l := InjectionFor(kind, Some(loc), target), Stripped(line);
            var at := if IsLinux(line) then SecondArgEnd(l) else OptionsEnd(l);
            Parse(PatchLine(line, j, bls)) == Expected(loc) <==>
              !((IsOptions(line) || j.eol == []) && at < |l| && l[at] == CR)
  {
    if IsOptions(line) { OptionsKind(line); }
    hide IsLinux, IsOptions, IsBlscfg, IsInitrd, Contains, Extra, Parse, Expected, InjectionFor, Needed, Stripped,
         SecondArgEnd, OptionsEnd;
    hide NoneGlued, Usable, LinuxText, OptionsText, EolText;
    UsableValid(loc);
    InjectionParts(kind, loc, target);
    if IsLinux(line) {
      StrippingHandOff(line, kind, loc, target);
    } else {
      CleanOptionsHandOff(line, kind, loc);
    }
  }

  // ── The entry point ───────────────────────────────────────────────────

  method BuildInjection(kind: BootKind, loc: Option<IsoLocation>, target: seq<byte>) returns (j: Injection)
    requires loc.Some? ==> loc.value.Valid()
    ensures j == InjectionFor(kind, loc, target)
  {
    hide Needed, Extra, EolText, PREMOUNT_NAME;
    var buf := new byte[LINUX_CAP](i => 0);
    var r := LinuxExtra(kind, loc, buf);
    var linux := if r.Some? then buf[..r.value] else [];
    var name := if target == [] then PREMOUNT_NAME else target;
    var shown := if |name| <= 30 then name else name[..30];
    j := Injection(linux, EolText(kind, loc), [SPACE, 47] + shown, [47] + shown, kind == FedoraLive || kind == ArchIso);
  }

  /** Patches a config for a boot kind; without arguments to inject no linux line may occur,
      since the rewriter cannot search a line for an empty text. */
  method PatchGrubCfg(orig: seq<byte>, kind: BootKind, loc: Option<IsoLocation>, target: seq<byte>, prefix: seq<byte>)
    returns (patched: seq<byte>)
    requires loc.Some? ==> loc.value.Valid()
    requires InjectionFor(kind, loc, target).linux == [] ==> LinuxCount(orig) == 0
    requires |prefix| <= 256 && (prefix != [] ==> EndsLine(prefix))
    ensures patched == prefix + PatchedText(orig, InjectionFor(kind, loc, target), BlscfgCount(orig) > 0)
  {
    hide InjectionFor, LinuxCount, PatchedText, BlscfgCount;
    var j := BuildInjection(kind, loc, target);
    InjectionShape(kind, loc, target);
    patched := PatchGrubCfgImpl(orig, prefix, j);
  }

  lemma InjectionShape(kind: BootKind, loc: Option<IsoLocation>, target: seq<byte>)
    requires loc.Some? ==> loc.value.Valid()
    ensures var linux := InjectionFor(kind, loc, target).linux;
            |linux| <= LINUX_CAP && (linux != [] ==> linux[0] == SPACE)
  {
    ArgStarts(KindWords(kind, loc));
    if loc.Some? {
      ExtraStarts(kind, loc.value);
      DecBounds(loc.value.size);
    }
    hide ArgText, KindWords, LocationHead, Dec, EolText;
  }

  // ── Where the conditions bite ─────────────────────────────────────────

  /** A locator pattern inside another word: the rest of the word goes and the next word sticks to it. */
  lemma GluedExample()
    ensures var s := [120] + Ascii("findiso=/a"); Words(Stripped(s)) != Kept(Words(s))
  {
    var s := [120] + Ascii("findiso=/a");
    assert |s| == 11;
    HarmlessAscii("findiso=/a");
    assert Plain(s) by { PlainAscii("findiso=/a"); }
    OneWord(s);
    assert s[1..] == Ascii("findiso=/a");
    assert StartsLocator(s[1..]) by { FindisoStarts(); }
    LocatorInitials();
    if LocatorLen(s) > 0 { FirstOfPrefix(s, LOCATORS); }
    assert Glued(s);
    assert s in Words(s);
    StripsWholeWords(s);
  }

  lemma FindisoStarts()
    ensures StartsLocator(Ascii("findiso=/a"))
  {
    AsciiJoin("findiso=", "/a");
    assert "findiso=" + "/a" == "findiso=/a";
    assert LOCATORS[0] <= Ascii("findiso=/a");
  }

  /** A kind that does not strip leaves a stale argument after the new ones, and the stale one wins. */
  lemma StaleArgumentWins(loc: IsoLocation, target: seq<byte>)
    requires Usable(loc) && loc.number != 7 && Needed(Alpine, Some(loc)) <= LINUX_CAP
    ensures var line := Ascii("linux /k") + ([SPACE] + Arg(PART_NUM, [55]));
            IsLinux(line) && Parse(LinuxText(line, InjectionFor(Alpine, Some(loc), target))).num == Some(7)
  {
    var a, w := Ascii("linux /k"), Arg(PART_NUM, [55]);
    var j, line := InjectionFor(Alpine, Some(loc), target), a + ([SPACE] + w);
    StripsIff(Alpine, loc, target);
    InjectionParts(Alpine, loc, target);
    StaleLine(a, w);
    assert AfterArgs(line, j) == [] + ([SPACE] + w);
    assert [] + ([SPACE] + w) == [SPACE] + w;
    StaleToken();
    hide AfterArgs, BeforeArgs, Extra, Parse, LinuxText, InjectionFor, Needed, IsLinux, Arg, Ascii, Expected;
    LinuxTextParts(line, j);
    LandedParse(BeforeArgs(line, j), Alpine, loc, [SPACE] + w);
  }

  lemma StaleLine(a: seq<byte>, w: seq<byte>)
    requires a == Ascii("linux /k")
    ensures var line := a + ([SPACE] + w); IsLinux(line) && SecondArgEnd(line) == 8 && line[8..] == [SPACE] + w
  {
    var line := a + ([SPACE] + w);
    assert a[0] == 108 && a[1] == 105 && a[2] == 110 && a[3] == 117 && a[4] == 120 && a[5] == 32 && a[6] == 47 &&
           a[7] == 107;
    assert Indent(line, 0) == 0 && line[0..] == line;
    assert line[..5] == Ascii("linux");
    WordEndsAt(line, 0, 5);
    assert Indent(line, 5) == 6;
    WordEndsAt(line, 6, 8);
  }

  lemma StaleToken()
    ensures Parse([SPACE] + Arg(PART_NUM, [55])).num == Some(7)
  {
    var w := Arg(PART_NUM, [55]);
    NamesAreNames();
    NamesDiffer();
    EqualsAt(PART_NUM, [55]);
    hide PART_NUM, PART_GUID, ISO_OFFSET, ISO_PATH, ISO_SIZE, Equals, LowerGuid, Utf8;
    SpaceFirst(w);
    OneToken(w);
    assert Number([55], 0, MAX_U32) == 7;
    FoldFirst(NOTHING, w, []);
    assert [w] + [] == [w];
  }
}
