/** From the boot loader to the early-init program: the location written into a patched
    config line is the location read back from it. */
module HandOff {
  import opened Bytes
  import opened GrubText
  import opened GrubWords
  import opened BootArgs
  import opened InitCmdline

  // ── Tokens of written arguments ───────────────────────────────────────

  predicate NoGap(s: seq<byte>) { forall i :: 0 <= i < |s| ==> !Gap(s[i]) }

  predicate Spaced(a: seq<byte>, b: seq<byte>) { a == [] || b == [] || Gap(a[|a| - 1]) || Gap(b[0]) }

  lemma TokenEndJoin(a: seq<byte>, b: seq<byte>, i: nat)
    requires i <= |a| && Spaced(a, b) && (i < |a| || b == [] || Gap(b[0]))
    ensures TokenEnd(a + b, i) == TokenEnd(a, i)
    decreases |a| - i
  {
    if i < |a| && !Gap(a[i]) { TokenEndJoin(a, b, i + 1); }
  }

  lemma {:induction false} TokensJoin(a: seq<byte>, b: seq<byte>)
    requires Spaced(a, b)
    ensures Tokens(a + b) == Tokens(a) + Tokens(b)
    decreases |a|
  {
    if a == [] {
      assert a + b == b;
    } else if Gap(a[0]) {
      assert (a + b)[1..] == a[1..] + b;
      TokensJoin(a[1..], b);
    } else {
      TokenEndJoin(a, b, 0);
      var e := TokenEnd(a, 0);
      assert (a + b)[..e] == a[..e] && (a + b)[e..] == a[e..] + b;
      TokensJoin(a[e..], b);
    }
  }

  lemma TokenEndsAt(s: seq<byte>, i: nat, e: nat)
    requires i <= e <= |s| && (forall k :: i <= k < e ==> !Gap(s[k])) && (e < |s| ==> Gap(s[e]))
    ensures TokenEnd(s, i) == e
    decreases e - i
  {
    if i < e { TokenEndsAt(s, i + 1, e); }
  }

  /** A token runs on through text that does not start with a gap. */
  lemma TokenAt(w: seq<byte>, post: seq<byte>)
    requires w != [] && NoGap(w)
    ensures var e := TokenEnd(post, 0); Tokens(w + post) == [w + post[..e]] + Tokens(post[e..])
  {
    var e, s := TokenEnd(post, 0), w + post;
    forall k | 0 <= k < |w| + e ensures !Gap(s[k]) {
      if k < |w| { assert s[k] == w[k]; } else { assert s[k] == post[k - |w|]; }
    }
    TokenEndsAt(s, 0, |w| + e);
    assert s[0] == w[0];
    assert s[..|w| + e] == w + post[..e] && s[|w| + e..] == post[e..];
  }

  lemma OneToken(w: seq<byte>)
    requires w != [] && NoGap(w)
    ensures Tokens(w) == [w]
  {
    TokenAt(w, []);
    assert w + [] == w && w + [][..0] == w;
  }

  lemma {:induction false} ArgTokens(ws: seq<seq<byte>>)
    requires forall i :: 0 <= i < |ws| ==> ws[i] != [] && NoGap(ws[i])
    ensures Tokens(ArgText(ws)) == ws
  {
    if ws != [] {
      var rest := ArgText(ws[1..]);
      ArgTokens(ws[1..]);
      assert ArgText(ws) == [SPACE] + (ws[0] + rest);
      TokensJoin([SPACE], ws[0] + rest);
      TokensJoin(ws[0], rest);
      OneToken(ws[0]);
      assert Tokens([SPACE]) == [] by { assert [SPACE][1..] == []; }
    }
  }

  lemma {:induction false} ArgTextJoin(a: seq<seq<byte>>, b: seq<seq<byte>>)
    ensures ArgText(a + b) == ArgText(a) + ArgText(b)
  {
    if a == [] {
      assert a + b == b;
    } else {
      assert (a + b)[1..] == a[1..] + b;
      ArgTextJoin(a[1..], b);
    }
  }

  // ── What tokens say ───────────────────────────────────────────────────

  lemma {:induction false} FoldJoin(p: Params, a: seq<seq<byte>>, b: seq<seq<byte>>)
    ensures Fold(p, a + b) == Fold(Fold(p, a), b)
    decreases |a|
  {
    hide Apply;
    if a == [] {
      assert a + b == b;
    } else {
      assert (a + b)[1..] == a[1..] + b;
      FoldJoin(Apply(p, a[0]), a[1..], b);
    }
  }

  const NAMES: seq<seq<byte>> := [ISO_OFFSET, PART_GUID, PART_NUM, ISO_PATH, ISO_SIZE]

  /** `w` is one of the location arguments. */
  predicate Telling(w: seq<byte>) { exists k :: 0 <= k < |NAMES| && NAMES[k] + [61] <= w }

  predicate Mute(ws: seq<seq<byte>>) { forall i :: 0 <= i < |ws| ==> !Telling(ws[i]) }

  lemma MuteToken(p: Params, w: seq<byte>)
    requires !Telling(w)
    ensures Apply(p, w) == p
  {
    hide ISO_OFFSET, PART_GUID, PART_NUM, ISO_PATH, ISO_SIZE;
    var eq := Equals(w);
    if eq < |w| {
      assert w[..eq + 1] == w[..eq] + [61] && w[..eq + 1] <= w;
      forall k | 0 <= k < |NAMES| ensures w[..eq] != NAMES[k] { assert !(NAMES[k] + [61] <= w); }
      assert NAMES[0] == ISO_OFFSET && NAMES[1] == PART_GUID && NAMES[2] == PART_NUM && NAMES[3] == ISO_PATH &&
             NAMES[4] == ISO_SIZE;
    }
  }

  lemma {:induction false} MuteFold(p: Params, ws: seq<seq<byte>>)
    requires Mute(ws)
    ensures Fold(p, ws) == p
  {
    hide Apply, Telling;
    if ws != [] {
      MuteToken(p, ws[0]);
      MuteFold(p, ws[1..]);
    }
  }

  /** The fields of `q` on top of those of `p`. */
  function Override(p: Params, q: Params): Params {
    Params(if q.offset.Some? then q.offset else p.offset, if q.guid.Some? then q.guid else p.guid,
           if q.num.Some? then q.num else p.num,
           if q.path.Some? then q.path else p.path, if q.size.Some? then q.size else p.size)
  }

  lemma ApplyOverrides(p: Params, w: seq<byte>)
    ensures Apply(p, w) == Override(p, Apply(NOTHING, w))
  {
    hide ISO_OFFSET, PART_GUID, PART_NUM, ISO_PATH, ISO_SIZE, Number, LowerGuid, Utf8;
  }

  lemma {:induction false} FoldOverrides(p: Params, ws: seq<seq<byte>>)
    ensures Fold(p, ws) == Override(p, Fold(NOTHING, ws))
    decreases |ws|
  {
    hide Apply;
    if ws != [] {
      ApplyOverrides(p, ws[0]);
      FoldOverrides(Apply(p, ws[0]), ws[1..]);
      FoldOverrides(Apply(NOTHING, ws[0]), ws[1..]);
    }
  }

  // ── Values read back ──────────────────────────────────────────────────

  lemma {:induction false} DecNumber(v: nat, rest: seq<byte>, max: nat)
    requires v <= max && max >= 10
    ensures Number(Dec(v) + rest, 0, max) == Number(rest, v, max)
  {
    if v < 10 {
      assert (Dec(v) + rest)[1..] == rest;
    } else {
      var d: byte := 48 + v % 10;
      assert Dec(v) + rest == Dec(v / 10) + ([d] + rest);
      assert ([d] + rest)[1..] == rest;
      DecNumber(v / 10, [d] + rest, max);
    }
  }

  lemma DecReadBack(v: nat, max: nat)
    requires v <= max && max >= 10
    ensures Number(Dec(v), 0, max) == v
  {
    DecNumber(v, [], max);
    assert Dec(v) + [] == Dec(v);
  }

  lemma {:induction false} HexChars(v: nat, n: nat)
    ensures forall i :: 0 <= i < n ==> GuidChar(HexText(v, n)[i])
  {
    if n > 0 { HexChars(v, n - 1); }
  }

  lemma {:induction false} HexBytesChars(s: seq<byte>)
    ensures forall i :: 0 <= i < 2 * |s| ==> GuidChar(HexBytes(s)[i])
  {
    if s != [] {
      HexChars(s[0], 2);
      HexBytesChars(s[1..]);
    }
  }

  lemma PartUuidChars(loc: IsoLocation)
    requires loc.Valid()
    ensures forall i :: 0 <= i < |PartUuid(loc)| ==> GuidChar(PartUuid(loc)[i])
  {
    hide HexText, HexBytes;
    var g := loc.guid;
    if loc.isMbr {
      HexChars(FromLe32(g.d4, 4), 8);
      HexChars(loc.number, 2);
    } else {
      HexChars(g.d1, 8);
      HexChars(g.d2, 4);
      HexChars(g.d3, 4);
      HexBytesChars(g.d4[..2]);
      HexBytesChars(g.d4[2..]);
    }
  }

  lemma {:induction false} GuidReadBack(s: seq<byte>)
    requires forall i :: 0 <= i < |s| ==> GuidChar(s[i])
    ensures LowerGuid(s) == Some(s)
  {
    if s != [] {
      GuidReadBack(s[1..]);
      assert s == [s[0]] + s[1..];
    }
  }

  // ── The location arguments ────────────────────────────────────────────

  /** A location that can be told: a path without blanks and numbers the parser accepts. */
  predicate Usable(loc: IsoLocation) {
    && loc.Valid() && loc.number > 0 && loc.size > 0 && 0 < loc.OffsetBytes() <= MAX_OFFSET
    && loc.PathWithoutLeadingSlash() != [] && NoGap(loc.path) && Utf8(loc.PathWithoutLeadingSlash())
  }

  /** What the early-init program should learn. */
  function Expected(loc: IsoLocation): Params
    requires loc.Valid()
  {
    Params(Some(loc.OffsetBytes()), Some(PartUuid(loc)), Some(loc.number), Some(loc.PathWithoutLeadingSlash()),
           Some(loc.size))
  }

  /** What the early-init program is to learn: the ISO file begins that many bytes behind the start of
      the partition, and its path there lacks only a leading slash. */
  lemma ExpectedMeans(loc: IsoLocation)
    requires loc.Valid()
    ensures var e := Expected(loc);
            && loc.part1Lba as int * 512 + e.offset.value == loc.isoLba as int * 512
            && loc.path == (if loc.path != [] && loc.path[0] == 47 then [47] else []) + e.path.value
            && e.num == Some(loc.number) && e.size == Some(loc.size)
  {
    hide PartUuid;
  }

  function Arg(name: seq<byte>, val: seq<byte>): seq<byte> { name + [61] + val }

  function HeadWords(loc: IsoLocation): seq<seq<byte>>
    requires loc.Valid()
  {
    [Arg(PART_GUID, PartUuid(loc)), Arg(PART_NUM, Dec(loc.number)), Arg(ISO_OFFSET, Dec(loc.OffsetBytes())),
     Arg(ISO_PATH, loc.PathWithoutLeadingSlash())]
  }

  function SizeWord(loc: IsoLocation): seq<byte> { Arg(ISO_SIZE, Dec(loc.size)) }

  lemma NameChars(s: string)
    requires forall i :: 0 <= i < |s| ==> s[i] > ' ' && s[i] != '=' && s[i] < '~'
    ensures forall i :: 0 <= i < |Ascii(s)| ==> !Gap(Ascii(s)[i]) && Ascii(s)[i] != 61
  {
  }

  predicate NameLike(s: seq<byte>) { s != [] && NoGap(s) && forall i :: 0 <= i < |s| ==> s[i] != 61 }

  lemma NamesAreNames()
    ensures NameLike(ISO_OFFSET) && NameLike(PART_GUID) && NameLike(PART_NUM) && NameLike(ISO_PATH) &&
            NameLike(ISO_SIZE)
  {
    NameChars("choosable.iso_offset");
    NameChars("choosable.part_guid");
    NameChars("choosable.part_num");
    NameChars("choosable.iso_path");
    NameChars("choosable.iso_size");
    hide Ascii;
  }

  lemma NamesDiffer()
    ensures PART_GUID != ISO_OFFSET && PART_NUM !in {ISO_OFFSET, PART_GUID} &&
            ISO_PATH !in {ISO_OFFSET, PART_GUID, PART_NUM}
    ensures ISO_SIZE !in {ISO_OFFSET, PART_GUID, PART_NUM, ISO_PATH}
  {
    assert |ISO_OFFSET| == 20 && |PART_GUID| == 19 && |PART_NUM| == |ISO_PATH| == |ISO_SIZE| == 18;
    assert PART_NUM[10] == 112 && ISO_PATH[10] == 105 && ISO_SIZE[10] == 105;
    assert ISO_PATH[14] == 112 && ISO_SIZE[14] == 115;
  }

  lemma {:induction false} EqualsAt(name: seq<byte>, val: seq<byte>)
    requires forall i :: 0 <= i < |name| ==> name[i] != 61
    ensures |Arg(name, val)| == |name| + 1 + |val| && Equals(Arg(name, val)) == |name|
    ensures Arg(name, val)[..|name|] == name && Arg(name, val)[|name| + 1..] == val
  {
    var t := Arg(name, val);
    if name != [] {
      assert t[1..] == Arg(name[1..], val);
      EqualsAt(name[1..], val);
    }
  }

  predicate AllDigits(s: seq<byte>) { forall i :: 0 <= i < |s| ==> Digit(s[i]) }

  /** The number that the digits `s` say behind the digits of `v`, of any size. */
  function Value(s: seq<byte>, v: nat): nat
    requires AllDigits(s)
  {
    if s == [] then v else Value(s[1..], 10 * v + (s[0] as int - 48))
  }

  lemma SaturatedStep(v: nat, d: nat, max: nat)
    ensures Saturated(Saturated(Saturated(v, max) * 10, max) + d, max) == Saturated(10 * v + d, max)
  {
  }

  /** Saturating at every digit gives what saturating once at the end gives. */
  lemma {:induction false} SaturatesOnce(s: seq<byte>, v: nat, max: nat)
    requires AllDigits(s)
    ensures Number(s, Saturated(v, max), max) == Saturated(Value(s, v), max)
    decreases |s|
  {
    hide Saturated;
    if s != [] {
      SaturatedStep(v, s[0] as int - 48, max);
      SaturatesOnce(s[1..], 10 * v + (s[0] as int - 48), max);
    }
  }

  lemma {:induction false} NonDigitIsZero(s: seq<byte>, v: nat, max: nat)
    requires !AllDigits(s)
    ensures Number(s, v, max) == 0
    decreases |s|
  {
    hide Saturated;
    if Digit(s[0]) {
      assert !AllDigits(s[1..]) by {
        var i :| 0 <= i < |s| && !Digit(s[i]);
        assert s[1..][i - 1] == s[i];
      }
      NonDigitIsZero(s[1..], Saturated(Saturated(v * 10, max) + (s[0] as int - 48), max), max);
    }
  }

  /** The number a value says, 0 if it is none. */
  function Says(val: seq<byte>): nat { if AllDigits(val) then Value(val, 0) else 0 }

  lemma NumberIs(val: seq<byte>, max: nat)
    ensures Number(val, 0, max) == Saturated(Says(val), max)
  {
    hide Number, Value;
    if AllDigits(val) {
      SaturatesOnce(val, 0, max);
    } else {
      NonDigitIsZero(val, 0, max);
    }
  }

  /** An offset is learnt exactly from 1 to the largest, the other numbers from 1 on, and both of
      them as the largest of their width if they exceed it. */
  lemma NumberTokens(p: Params, val: seq<byte>)
    ensures var n := Says(val);
            && Apply(p, Arg(ISO_OFFSET, val)) == (if 1 <= n <= MAX_OFFSET then p.(offset := Some(n)) else p)
            && Apply(p, Arg(PART_NUM, val)) ==
               (if n == 0 then p else p.(num := Some(if n > MAX_U32 then MAX_U32 else n)))
            && Apply(p, Arg(ISO_SIZE, val)) ==
               (if n == 0 then p else p.(size := Some(if n > MAX_U64 then MAX_U64 else n)))
  {
    NumberIs(val, MAX_U32);
    NumberIs(val, MAX_U64);
    hide Number, Says, LowerGuid, Utf8, Arg, Equals, ISO_OFFSET, PART_GUID, PART_NUM, ISO_PATH, ISO_SIZE;
    NamesAreNames();
    NamesDiffer();
    EqualsAt(ISO_OFFSET, val);
    EqualsAt(PART_NUM, val);
    EqualsAt(ISO_SIZE, val);
  }

  lemma HeadToken(p: Params, loc: IsoLocation, k: nat)
    requires Usable(loc) && k < 4
    ensures Apply(p, HeadWords(loc)[k]) ==
            match k
            case 0 => p.(guid := Expected(loc).guid)
            case 1 => p.(num := Expected(loc).num)
            case 2 => p.(offset := Expected(loc).offset)
            case _ => p.(path := Expected(loc).path)
  {
    hide Dec, Number, LowerGuid, Utf8, PartUuid, Arg, Equals, ISO_OFFSET, PART_GUID, PART_NUM, ISO_PATH, ISO_SIZE;
    NamesAreNames();
    NamesDiffer();
    match k
    case 0 =>
      PartUuidChars(loc);
      GuidReadBack(PartUuid(loc));
      EqualsAt(PART_GUID, PartUuid(loc));
    case 1 =>
      DecReadBack(loc.number, MAX_U32);
      EqualsAt(PART_NUM, Dec(loc.number));
    case 2 =>
      DecReadBack(loc.OffsetBytes(), MAX_U64);
      EqualsAt(ISO_OFFSET, Dec(loc.OffsetBytes()));
    case _ =>
      EqualsAt(ISO_PATH, loc.PathWithoutLeadingSlash());
  }

  lemma HeadFold(p: Params, loc: IsoLocation)
    requires Usable(loc)
    ensures Fold(p, HeadWords(loc)) == Expected(loc).(size := p.size)
  {
    hide Apply, Expected, HeadWords;
    var ws := HeadWords(loc);
    assert |ws| == 4 by { FourWords(loc); }
    var p1 := Apply(p, ws[0]);
    var p2 := Apply(p1, ws[1]);
    var p3 := Apply(p2, ws[2]);
    var p4 := Apply(p3, ws[3]);
    HeadToken(p, loc, 0);
    HeadToken(p1, loc, 1);
    HeadToken(p2, loc, 2);
    HeadToken(p3, loc, 3);
    FoldFour(p, ws);
    AllSome(loc);
  }

  lemma FourWords(loc: IsoLocation)
    requires loc.Valid()
    ensures |HeadWords(loc)| == 4
  {
    hide Arg, Dec, PartUuid;
  }

  lemma AllSome(loc: IsoLocation)
    requires loc.Valid()
    ensures var e := Expected(loc);
            e.offset.Some? && e.guid.Some? && e.num.Some? && e.path.Some? && e.size == Some(loc.size)
  {
  }

  lemma FoldFour(p: Params, ws: seq<seq<byte>>)
    requires |ws| == 4
    ensures Fold(p, ws) == Apply(Apply(Apply(Apply(p, ws[0]), ws[1]), ws[2]), ws[3])
  {
    hide Apply;
    assert ws[1..][1..] == ws[2..] && ws[2..][1..] == ws[3..] && ws[3..][1..] == [];
    var p1 := Apply(p, ws[0]);
    var p2 := Apply(p1, ws[1]);
    var p3 := Apply(p2, ws[2]);
    assert Fold(p, ws) == Fold(p1, ws[1..]);
    assert Fold(p1, ws[1..]) == Fold(p2, ws[2..]);
    assert Fold(p2, ws[2..]) == Fold(p3, ws[3..]);
    assert Fold(p3, ws[3..]) == Fold(Apply(p3, ws[3]), []);
  }

  /** The size is read back unless a CR sticks to it, and then it is lost. */
  lemma SizeToken(p: Params, loc: IsoLocation, junk: seq<byte>)
    requires Usable(loc) && (junk != [] ==> junk[0] == CR)
    ensures Apply(p, SizeWord(loc) + junk) == if junk == [] then p.(size := Some(loc.size)) else p
  {
    hide Dec, Arg, Equals, LowerGuid, Utf8, ISO_OFFSET, PART_GUID, PART_NUM, ISO_PATH, ISO_SIZE;
    NamesAreNames();
    NamesDiffer();
    assert SizeWord(loc) + junk == Arg(ISO_SIZE, Dec(loc.size) + junk) by { ArgJoin(ISO_SIZE, Dec(loc.size), junk); }
    EqualsAt(ISO_SIZE, Dec(loc.size) + junk);
    DecNumber(loc.size, junk, MAX_U64);
  }

  lemma ArgJoin(name: seq<byte>, a: seq<byte>, b: seq<byte>)
    ensures Arg(name, a) + b == Arg(name, a + b)
  {
  }

  // ── The kind's own arguments ──────────────────────────────────────────

  predicate Harmless(w: seq<byte>) { w != [] && NoGap(w) && (w[0] != 99 || (|w| > 1 && w[1] != 104)) }

  lemma HarmlessAscii(s: string)
    requires s != "" && forall i :: 0 <= i < |s| ==> s[i] > ' ' && s[i] < '~'
    requires s[0] != 'c' || (|s| > 1 && s[1] != 'h')
    ensures Harmless(Ascii(s))
  {
  }

  lemma ArchDeviceHarmless(loc: IsoLocation)
    requires loc.Valid()
    ensures Harmless(BY_PARTUUID + PartUuid(loc))
  {
    HarmlessAscii("archisodevice=/dev/disk/by-partuuid/");
    PartUuidChars(loc);
    hide Ascii, PartUuid;
  }

  predicate AllHarmless(ws: seq<seq<byte>>) { forall k :: 0 <= k < |ws| ==> Harmless(ws[k]) }

  lemma ListsHarmless()
    ensures AllHarmless(CASPER_WORDS) && AllHarmless(UNKNOWN_WORDS) && AllHarmless(DEBIAN_WORDS) && AllHarmless([INIT])
  {
    HarmlessAscii("init=/init.choosable");
    HarmlessAscii("boot=casper");
    HarmlessAscii("live-media=/dev/choosable-live");
    HarmlessAscii("maybe-ubiquity");
    HarmlessAscii("boot=live");
    HarmlessAscii("live-media-path=/live");
    hide Harmless, Ascii;
  }

  lemma FedoraHarmless()
    ensures AllHarmless(FEDORA_WORDS)
  {
    HarmlessAscii("root=live:/dev/choosable-live");
    HarmlessAscii("rd.live.image");
    HarmlessAscii("rd.live.dir=/LiveOS");
    HarmlessAscii("rd.live.squashimg=squashfs.img");
    HarmlessAscii("rootdelay=10");
    HarmlessAscii("init=/init.choosable");
    hide Harmless, Ascii;
  }

  lemma ArchHarmless()
    ensures AllHarmless(ARCH_WORDS)
  {
    HarmlessAscii("archisobasedir=arch");
    HarmlessAscii("copytoram");
    HarmlessAscii("init=/init.choosable");
    hide Harmless, Ascii;
  }

  lemma KindWordsHarmless(kind: BootKind, loc: IsoLocation)
    requires loc.Valid()
    ensures AllHarmless(KindWords(kind, Some(loc)))
  {
    hide Harmless, CASPER_WORDS, UNKNOWN_WORDS, DEBIAN_WORDS, INIT, FEDORA_WORDS, ARCH_WORDS, BY_PARTUUID, PartUuid;
    ListsHarmless();
    FedoraHarmless();
    ArchHarmless();
    ArchDeviceHarmless(loc);
  }

  lemma HarmlessMute(w: seq<byte>)
    requires Harmless(w)
    ensures !Telling(w)
  {
    forall k | 0 <= k < |NAMES| ensures !(NAMES[k] + [61] <= w) {
      assert NAMES[k][0] == 99 && NAMES[k][1] == 104;
      assert (NAMES[k] + [61])[0] == 99 && (NAMES[k] + [61])[1] == 104;
    }
  }

  // ── A line with the arguments in it ───────────────────────────────────

  /** All the injected arguments but the size. */
  function LeadWords(kind: BootKind, loc: IsoLocation): seq<seq<byte>>
    requires loc.Valid()
  {
    KindWords(kind, Some(loc)) + HeadWords(loc)
  }

  lemma HeadWordsNoGap(loc: IsoLocation)
    requires Usable(loc)
    ensures forall k :: 0 <= k < 4 ==> HeadWords(loc)[k] != [] && NoGap(HeadWords(loc)[k])
    ensures SizeWord(loc) != [] && NoGap(SizeWord(loc))
  {
    hide ISO_OFFSET, PART_GUID, PART_NUM, ISO_PATH, ISO_SIZE, PartUuid, Dec;
    NamesAreNames();
    PartUuidChars(loc);
  }

  lemma LeadWordsNoGap(kind: BootKind, loc: IsoLocation)
    requires Usable(loc)
    ensures forall k :: 0 <= k < |LeadWords(kind, loc)| ==>
            LeadWords(kind, loc)[k] != [] && NoGap(LeadWords(kind, loc)[k])
  {
    hide KindWords, HeadWords;
    HeadWordsNoGap(loc);
    FourWords(loc);
    KindWordsHarmless(kind, loc);
  }

  lemma KeyArg(name: seq<byte>, val: seq<byte>)
    ensures Key(name) + val == [SPACE] + Arg(name, val)
  {
  }

  lemma Assoc(a: seq<byte>, b: seq<byte>, c: seq<byte>)
    ensures a + b + c == a + (b + c)
  {
  }

  lemma ParamsAreArgs(loc: IsoLocation)
    requires Usable(loc)
    ensures LocationText(loc) == ArgText(HeadWords(loc)) + ([SPACE] + SizeWord(loc))
  {
    var ws, path := HeadWords(loc), loc.PathWithoutLeadingSlash();
    FourArgs(ws[0], ws[1], ws[2], ws[3]);
    KeyArg(PART_GUID, PartUuid(loc));
    KeyArg(PART_NUM, Dec(loc.number));
    KeyArg(ISO_OFFSET, Dec(loc.OffsetBytes()));
    KeyArg(ISO_PATH, path);
    KeyArg(ISO_SIZE, Dec(loc.size));
    hide Key, Arg, ISO_OFFSET, PART_GUID, PART_NUM, ISO_PATH, ISO_SIZE, PartUuid, Dec;
    var a, b, c, d := [SPACE] + ws[0], [SPACE] + ws[1], [SPACE] + ws[2], [SPACE] + ws[3];
    Assoc(a, Key(PART_NUM), Dec(loc.number));
    Assoc(a + b, Key(ISO_OFFSET), Dec(loc.OffsetBytes()));
    Assoc(a + b + c + d, Key(ISO_SIZE), Dec(loc.size));
  }

  lemma ExtraIsArgs(kind: BootKind, loc: IsoLocation)
    requires Usable(loc)
    ensures Extra(kind, Some(loc)) == ArgText(LeadWords(kind, loc)) + ([SPACE] + SizeWord(loc))
  {
    hide KindWords, HeadWords, LocationText, SizeWord;
    ArgTextJoin(KindWords(kind, Some(loc)), HeadWords(loc));
    ParamsAreArgs(loc);
    Assoc(KindText(kind, Some(loc)), ArgText(HeadWords(loc)), [SPACE] + SizeWord(loc));
  }

  lemma FourArgs(a: seq<byte>, b: seq<byte>, c: seq<byte>, d: seq<byte>)
    ensures ArgText([a, b, c, d]) == [SPACE] + a + ([SPACE] + b) + ([SPACE] + c) + ([SPACE] + d)
  {
    assert [a, b, c, d][1..] == [b, c, d] && [b, c, d][1..] == [c, d] && [c, d][1..] == [d] && [d][1..] == [];
    assert ArgText([d]) == [SPACE] + d;
    assert ArgText([c, d]) == [SPACE] + c + ([SPACE] + d);
  }

  lemma Regroup(pre: seq<byte>, lead: seq<byte>, w: seq<byte>, post: seq<byte>)
    ensures pre + (lead + ([SPACE] + w)) + post == pre + lead + ([SPACE] + (w + post))
  {
  }

  lemma PlacedTokens(pre: seq<byte>, lead: seq<byte>, w: seq<byte>, post: seq<byte>)
    requires (lead == [] || lead[0] == SPACE) && w != [] && NoGap(w)
    ensures var e := TokenEnd(post, 0);
            Tokens(pre + (lead + ([SPACE] + w)) + post) ==
              Tokens(pre) + Tokens(lead) + ([w + post[..e]] + Tokens(post[e..]))
  {
    hide TokenEnd, NoGap;
    TokenAt(w, post);
    SpaceFirst(w + post);
    TokensJoin(pre, lead);
    hide Tokens;
    Regroup(pre, lead, w, post);
    TokensJoin(pre + lead, [SPACE] + (w + post));
  }

  /** Tokens of text around the injected arguments. */
  lemma LandedTokens(pre: seq<byte>, kind: BootKind, loc: IsoLocation, post: seq<byte>)
    requires Usable(loc)
    ensures var e := TokenEnd(post, 0);
            Tokens(pre + Extra(kind, Some(loc)) + post) ==
              Tokens(pre) + LeadWords(kind, loc) + ([SizeWord(loc) + post[..e]] + Tokens(post[e..]))
  {
    hide LeadWords, Extra, SizeWord, TokenEnd, Tokens, ArgText;
    ExtraIsArgs(kind, loc);
    HeadWordsNoGap(loc);
    LeadWordsNoGap(kind, loc);
    ArgTokens(LeadWords(kind, loc));
    LeadStarts(LeadWords(kind, loc));
    PlacedTokens(pre, ArgText(LeadWords(kind, loc)), SizeWord(loc), post);
  }

  lemma LeadStarts(ws: seq<seq<byte>>)
    ensures ArgText(ws) == [] || ArgText(ws)[0] == SPACE
  {
  }

  lemma SpaceFirst(s: seq<byte>)
    ensures Tokens([SPACE] + s) == Tokens(s)
  {
    assert ([SPACE] + s)[1..] == s;
  }

  lemma {:induction false} HarmlessListMute(ws: seq<seq<byte>>)
    requires AllHarmless(ws)
    ensures Mute(ws)
  {
    hide Harmless, Telling;
    forall i | 0 <= i < |ws| ensures !Telling(ws[i]) { HarmlessMute(ws[i]); }
  }

  lemma LeadFold(p: Params, kind: BootKind, loc: IsoLocation)
    requires Usable(loc)
    ensures Fold(p, LeadWords(kind, loc)) == Expected(loc).(size := p.size)
  {
    hide KindWords, HeadWords, AllHarmless, Mute, Expected;
    KindWordsHarmless(kind, loc);
    HarmlessListMute(KindWords(kind, Some(loc)));
    FoldJoin(p, KindWords(kind, Some(loc)), HeadWords(loc));
    MuteFold(p, KindWords(kind, Some(loc)));
    HeadFold(p, loc);
  }

  /** Later tokens leave alone what was told. */
  predicate Agrees(p: Params, told: Params) { Override(told, p) == told }

  predicate StartsWithCr(s: seq<byte>) { s != [] && s[0] == CR }

  /** The text around the arguments, read as a whole: what follows overrides what they tell, and
      with a CR right behind them the size is what the text before them tells. */
  lemma LandedParse(pre: seq<byte>, kind: BootKind, loc: IsoLocation, post: seq<byte>)
    requires Usable(loc) && (post == [] || Separator(post[0]))
    ensures var told := Expected(loc);
            Parse(pre + Extra(kind, Some(loc)) + post)
            == Override(if StartsWithCr(post) then told.(size := Parse(pre).size) else told, Parse(post))
  {
    hide LeadWords, Extra, SizeWord, TokenEnd, Apply, Expected, Mute, Telling;
    var e, told := TokenEnd(post, 0), Expected(loc);
    var lead, last, rest := LeadWords(kind, loc), SizeWord(loc) + post[..e], Tokens(post[e..]);
    LandedTokens(pre, kind, loc, post);
    var p := Parse(pre);
    FoldJoin(NOTHING, Tokens(pre) + lead, [last] + rest);
    FoldJoin(NOTHING, Tokens(pre), lead);
    LeadFold(p, kind, loc);
    var q := told.(size := p.size);
    FoldFirst(q, last, rest);
    AllSome(loc);
    if StartsWithCr(post) {
      CrFirst(post);
      SizeToken(q, loc, post[..e]);
      CrMute(post[..e]);
      FoldFirst(NOTHING, post[..e], rest);
      MuteToken(NOTHING, post[..e]);
      FoldOverrides(q, rest);
    } else {
      GapFirst(post);
      SizeToken(q, loc, []);
      assert SizeWord(loc) + [] == SizeWord(loc);
      FoldOverrides(told, rest);
    }
  }

  /** The early-init program learns `told` from arguments put between `pre` and `post`. */
  predicate Learns(pre: seq<byte>, post: seq<byte>, told: Params) {
    Agrees(Parse(post), told) && (StartsWithCr(post) ==> Parse(post).size.Some? || Parse(pre).size == told.size)
  }

  /** Exactly when the location is learnt: nothing behind the arguments contradicts it, and a
      size that a CR has spoilt is told by the rest of the text. */
  lemma LandedIff(pre: seq<byte>, kind: BootKind, loc: IsoLocation, post: seq<byte>)
    requires Usable(loc) && (post == [] || Separator(post[0]))
    ensures Parse(pre + Extra(kind, Some(loc)) + post) == Expected(loc) <==> Learns(pre, post, Expected(loc))
  {
    hide Extra, Expected, Parse;
    LandedParse(pre, kind, loc, post);
    AllSome(loc);
  }

  lemma CrMute(w: seq<byte>)
    requires StartsWithCr(w)
    ensures !Telling(w)
  {
    NamesDiffer();
    forall k | 0 <= k < |NAMES| ensures !(NAMES[k] + [61] <= w) {
      assert NAMES[k][0] == 99;
    }
  }

  lemma FoldFirst(p: Params, w: seq<byte>, rest: seq<seq<byte>>)
    ensures Fold(p, [w] + rest) == Fold(Apply(p, w), rest)
  {
    assert ([w] + rest)[1..] == rest;
  }

  lemma GapFirst(post: seq<byte>)
    requires post == [] || Gap(post[0])
    ensures TokenEnd(post, 0) == 0 && post[..0] == [] && post[0..] == post
  {
  }

  lemma CrFirst(post: seq<byte>)
    requires post != [] && post[0] == CR
    ensures var e := TokenEnd(post, 0); e > 0 && post[..e][0] == CR && Tokens(post) == [post[..e]] + Tokens(post[e..])
  {
  }

  lemma MuteRest(ws: seq<seq<byte>>)
    requires ws != [] && Mute(ws)
    ensures Mute(ws[1..])
  {
  }
}
