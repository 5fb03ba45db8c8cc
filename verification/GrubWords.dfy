/** What rewriting a config line means for its words. */
module GrubWords {
  import opened Bytes
  import opened GrubText

  /** The maximal runs of bytes other than blank, CR and LF. */
  function Words(s: seq<byte>): seq<seq<byte>>
    decreases |s|
  {
    if s == [] then []
    else if Separator(s[0]) then Words(s[1..])
    else [s[..WordEnd(s, 0)]] + Words(s[WordEnd(s, 0)..])
  }

  predicate StartsLocator(w: seq<byte>) { LocatorLen(w) > 0 }

  /** Position of the first locator pattern in a word, its length if there is none. */
  function FirstLocator(w: seq<byte>): (n: nat)
    ensures n <= |w|
  {
    if w == [] || StartsLocator(w) then 0 else 1 + FirstLocator(w[1..])
  }

  /** A word with a locator pattern in it that does not start with one. */
  predicate Glued(w: seq<byte>) { 0 < FirstLocator(w) < |w| }

  predicate NoneGlued(ws: seq<seq<byte>>) { forall w :: w in ws ==> !Glued(w) }

  /** The words that are not locator arguments. */
  function Kept(ws: seq<seq<byte>>): seq<seq<byte>> {
    if ws == [] then [] else (if StartsLocator(ws[0]) then [] else [ws[0]]) + Kept(ws[1..])
  }

  // ── Words of a concatenation ──────────────────────────────────────────

  predicate Apart(a: seq<byte>, b: seq<byte>) {
    a == [] || b == [] || Separator(a[|a| - 1]) || Separator(b[0])
  }

  lemma WordEndJoin(a: seq<byte>, b: seq<byte>, i: nat)
    requires i <= |a| && Apart(a, b) && (i < |a| || b == [] || Separator(b[0]))
    ensures WordEnd(a + b, i) == WordEnd(a, i)
    decreases |a| - i
  {
    if i < |a| && !Separator(a[i]) { WordEndJoin(a, b, i + 1); }
  }

  lemma {:induction false} WordsJoin(a: seq<byte>, b: seq<byte>)
    requires Apart(a, b)
    ensures Words(a + b) == Words(a) + Words(b)
    decreases |a|
  {
    if a == [] {
      assert a + b == b;
    } else if Separator(a[0]) {
      assert (a + b)[1..] == a[1..] + b;
      WordsJoin(a[1..], b);
    } else {
      WordEndJoin(a, b, 0);
      var e := WordEnd(a, 0);
      assert (a + b)[..e] == a[..e] && (a + b)[e..] == a[e..] + b;
      WordsJoin(a[e..], b);
    }
  }

  lemma {:induction false} WordsOfSeparators(s: seq<byte>)
    requires forall i :: 0 <= i < |s| ==> Separator(s[i])
    ensures Words(s) == []
  {
    if s != [] { WordsOfSeparators(s[1..]); }
  }

  lemma WordEndsAt(s: seq<byte>, i: nat, e: nat)
    requires i <= e <= |s| && (forall k :: i <= k < e ==> !Separator(s[k])) && (e < |s| ==> Separator(s[e]))
    ensures WordEnd(s, i) == e
    decreases e - i
  {
    if i < e { WordEndsAt(s, i + 1, e); }
  }

  lemma OneWord(w: seq<byte>)
    requires w != [] && Plain(w)
    ensures Words(w) == [w]
  {
    WordEndsAt(w, 0, |w|);
    assert w[|w|..] == [] && w[..|w|] == w;
  }

  lemma SkipIndent(s: seq<byte>, i: nat)
    requires i <= |s|
    ensures Words(s[Indent(s, i)..]) == Words(s[i..])
    decreases |s| - i
  {
    if i < |s| && Blank(s[i]) {
      assert s[i..][1..] == s[i + 1..];
      SkipIndent(s, i + 1);
    }
  }

  // ── Stripping drops exactly the locator words ─────────────────────────

  lemma PlainPrefix(s: seq<byte>, e: nat, p: seq<byte>)
    requires e <= |s| && (e < |s| ==> Separator(s[e])) && Plain(p)
    ensures p <= s <==> p <= s[..e]
  {
    if p <= s {
      assert forall k :: 0 <= k < |p| ==> p[k] == s[k];
      assert |p| <= e;
      assert s[..e][..|p|] == s[..|p|];
    }
  }

  lemma {:induction false} PrefixWithin(s: seq<byte>, e: nat, pats: seq<seq<byte>>)
    requires e <= |s| && (e < |s| ==> Separator(s[e])) && forall k :: 0 <= k < |pats| ==> Plain(pats[k])
    ensures PrefixLen(s, pats) == PrefixLen(s[..e], pats)
  {
    hide Plain;
    if pats != [] {
      PlainPrefix(s, e, pats[0]);
      PrefixWithin(s, e, pats[1..]);
    }
  }

  /** A locator pattern found at a word's bytes lies within the word. */
  lemma LocatorWithin(s: seq<byte>, e: nat)
    requires e <= |s| && (e < |s| ==> Separator(s[e]))
    ensures LocatorLen(s) == LocatorLen(s[..e])
  {
    hide LOCATORS, Plain;
    forall k | 0 <= k < |LOCATORS| ensures Plain(LOCATORS[k]) { LocatorPlain(k); }
    PrefixWithin(s, e, LOCATORS);
  }

  lemma WordEndTail(s: seq<byte>, i: nat)
    requires 0 < i <= |s|
    ensures WordEnd(s, i) == WordEnd(s[1..], i - 1) + 1
    decreases |s| - i
  {
    if i < |s| && !Separator(s[i]) { WordEndTail(s, i + 1); }
  }

  lemma IndentTail(s: seq<byte>, i: nat)
    requires 0 < i <= |s|
    ensures Indent(s, i) == Indent(s[1..], i - 1) + 1
    decreases |s| - i
  {
    if i < |s| && Blank(s[i]) { IndentTail(s, i + 1); }
  }

  lemma WordEndFrom(s: seq<byte>, i: nat, k: nat)
    requires i <= |s| && i <= k <= WordEnd(s, i)
    ensures WordEnd(s, k) == WordEnd(s, i)
    decreases k - i
  {
    if i < k { WordEndFrom(s, i + 1, k); }
  }

  function AfterWord(s: seq<byte>, e: nat, clipped: bool): seq<byte>
    requires e <= |s|
  {
    if clipped then s[Indent(s, e)..] else s[e..]
  }

  lemma NextInWord(s: seq<byte>, e: nat, clipped: bool)
    requires s != [] && !Separator(s[0]) && e == WordEnd(s, 0)
    ensures e > 0 && WordEnd(s[1..], 0) == e - 1 && s[..e][1..] == s[1..][..e - 1]
    ensures AfterWord(s, e, clipped) == AfterWord(s[1..], e - 1, clipped)
  {
    WordEndTail(s, 1);
    IndentTail(s, e);
  }

  lemma StrippedKeeps(s: seq<byte>)
    requires s != [] && LocatorLen(s) == 0
    ensures Stripped(s) == [s[0]] + Stripped(s[1..])
  {
    hide LocatorLen;
  }

  lemma StrippedNext(s: seq<byte>, p: nat, rest: seq<byte>)
    requires p < |s| && LocatorLen(s) == 0 && Stripped(s[1..]) == s[1..][..p] + rest
    ensures Stripped(s) == s[..p + 1] + rest
  {
    hide LocatorLen, Stripped;
    StrippedKeeps(s);
    assert s[..p + 1] == [s[0]] + s[1..][..p];
  }

  lemma StrippedStart(s: seq<byte>, e: nat)
    requires LocatorLen(s) > 0 && e == WordEnd(s, 0)
    ensures Stripped(s) == Stripped(AfterWord(s, e, true))
  {
    LocatorText(s);
    LocatorInWord(s, LocatorLen(s), e);
    WordEndFrom(s, 0, LocatorLen(s));
    hide LocatorLen;
  }

  /** The first word is cut at its first locator pattern, and a cut also takes the blanks after the word. */
  lemma {:induction false} StrippedWord(s: seq<byte>)
    ensures var e := WordEnd(s, 0); var p := FirstLocator(s[..e]);
            p <= e && Stripped(s) == s[..p] + Stripped(AfterWord(s, e, p < e))
    decreases |s|
  {
    hide LocatorLen, Stripped, AfterWord;
    var e := WordEnd(s, 0);
    var p := FirstLocator(s[..e]);
    if e == 0 {
      assert AfterWord(s, 0, false) == s by { NothingAfter(s); }
      assert s[..0] + Stripped(s) == Stripped(s);
    } else {
      LocatorWithin(s, e);
      if StartsLocator(s[..e]) {
        StrippedStart(s, e);
        assert s[..0] + Stripped(AfterWord(s, e, true)) == Stripped(AfterWord(s, e, true));
      } else {
        NextInWord(s, e, p < e);
        StrippedWord(s[1..]);
        StrippedNext(s, p - 1, Stripped(AfterWord(s, e, p < e)));
      }
    }
  }

  lemma NothingAfter(s: seq<byte>)
    ensures AfterWord(s, 0, false) == s
  {
  }

  lemma LocatorInWord(s: seq<byte>, n: nat, e: nat)
    requires n <= |s| && e == WordEnd(s, 0) && forall i :: 0 <= i < n ==> !Separator(s[i])
    ensures n <= e
  {
  }

  lemma {:induction false} StrippedStartsApart(s: seq<byte>)
    requires s == [] || Separator(s[0])
    ensures Stripped(s) == [] || Separator(Stripped(s)[0])
  {
    hide LocatorLen;
    if s != [] { LocatorWithin(s, 0); NothingStripped(); }
  }

  lemma NothingStripped()
    ensures LocatorLen([]) == 0
  {
    LocatorText([]);
  }

  lemma SeparatorKept(s: seq<byte>)
    requires s != [] && Separator(s[0])
    ensures Stripped(s) == [s[0]] + Stripped(s[1..])
  {
    hide LocatorLen;
    LocatorWithin(s, 0);
    assert s[..0] == [];
    NothingStripped();
  }

  /** Without glued words, stripping a line removes its locator words and nothing else. */
  lemma {:induction false} StripsLocatorWords(s: seq<byte>)
    requires NoneGlued(Words(s))
    ensures Words(Stripped(s)) == Kept(Words(s))
    decreases |s|
  {
    hide LocatorLen, Stripped;
    if s == [] {
      StrippedWord(s);
      StrippedNone();
    } else if Separator(s[0]) {
      SeparatorKept(s);
      StripsLocatorWords(s[1..]);
      WordsJoin([s[0]], Stripped(s[1..]));
      WordsOfSeparators([s[0]]);
    } else {
      var e := WordEnd(s, 0);
      var w, p := s[..e], FirstLocator(s[..e]);
      StrippedWord(s);
      assert !Glued(w) by { assert w == Words(s)[0]; }
      var rest := AfterWord(s, e, p < e);
      SkipIndent(s, e);
      assert Words(rest) == Words(s[e..]) == Words(s)[1..];
      StripsLocatorWords(rest);
      if p == 0 {
        assert s[..0] + Stripped(rest) == Stripped(rest);
      } else {
        StrippedStartsApart(rest);
        WordsJoin(w, Stripped(rest));
        OneWord(w);
        NotStarting(w);
      }
    }
  }

  lemma StrippedNone()
    ensures Stripped([]) == []
  {
  }

  lemma NotStarting(w: seq<byte>)
    requires FirstLocator(w) > 0
    ensures !StartsLocator(w)
  {
  }

  // ── A glued word always loses text ────────────────────────────────────

  function Total(ws: seq<seq<byte>>): nat {
    if ws == [] then 0 else |ws[0]| + Total(ws[1..])
  }

  lemma {:induction false} TotalJoin(a: seq<seq<byte>>, b: seq<seq<byte>>)
    ensures Total(a + b) == Total(a) + Total(b)
  {
    if a == [] {
      assert a + b == b;
    } else {
      assert (a + b)[1..] == a[1..] + b;
      TotalJoin(a[1..], b);
    }
  }

  lemma KeptFirst(w: seq<byte>, ws: seq<seq<byte>>)
    ensures Total(Kept([w] + ws)) == (if StartsLocator(w) then 0 else |w|) + Total(Kept(ws))
  {
    hide StartsLocator;
    assert ([w] + ws)[1..] == ws;
    var head := if StartsLocator(w) then [] else [w];
    TotalJoin(head, Kept(ws));
  }

  /** The number of bytes in words. */
  function Solid(s: seq<byte>): nat {
    if s == [] then 0 else (if Separator(s[0]) then 0 else 1) + Solid(s[1..])
  }

  lemma {:induction false} SolidJoin(a: seq<byte>, b: seq<byte>)
    ensures Solid(a + b) == Solid(a) + Solid(b)
  {
    if a == [] {
      assert a + b == b;
    } else {
      assert (a + b)[1..] == a[1..] + b;
      SolidJoin(a[1..], b);
    }
  }

  lemma {:induction false} SolidPlain(w: seq<byte>)
    requires Plain(w)
    ensures Solid(w) == |w|
  {
    if w != [] { SolidPlain(w[1..]); }
  }

  lemma {:induction false} SolidIsTotal(s: seq<byte>)
    ensures Solid(s) == Total(Words(s))
    decreases |s|
  {
    if s != [] {
      if Separator(s[0]) {
        SolidIsTotal(s[1..]);
      } else {
        var e := WordEnd(s, 0);
        assert s == s[..e] + s[e..];
        SolidJoin(s[..e], s[e..]);
        SolidPlain(s[..e]);
        SolidIsTotal(s[e..]);
      }
    }
  }

  lemma {:induction false} StrippedShrinks(s: seq<byte>)
    ensures Solid(Stripped(s)) <= Total(Kept(Words(s)))
    ensures Solid(Stripped(s)) == Total(Kept(Words(s))) ==> NoneGlued(Words(s))
    decreases |s|
  {
    hide LocatorLen, Stripped, Solid, Total, Kept;
    if s == [] {
      NothingSolid();
    } else if Separator(s[0]) {
      SeparatorKept(s);
      SolidJoin([s[0]], Stripped(s[1..]));
      OneSeparator(s[0]);
      StrippedShrinks(s[1..]);
    } else {
      var e := WordEnd(s, 0);
      var w, p := s[..e], FirstLocator(s[..e]);
      StrippedWord(s);
      var rest := AfterWord(s, e, p < e);
      SkipIndent(s, e);
      assert Words(rest) == Words(s[e..]);
      StrippedShrinks(rest);
      SolidJoin(s[..p], Stripped(rest));
      SolidPlain(s[..p]);
      KeptFirst(w, Words(rest));
      if p > 0 { NotStarting(w); }
    }
  }

  lemma NothingSolid()
    ensures Solid(Stripped([])) == 0 && Total(Kept(Words([]))) == 0
  {
  }

  lemma OneSeparator(c: byte)
    requires Separator(c)
    ensures Solid([c]) == 0
  {
  }

  /** Stripping removes exactly the locator words if and only if no word hides a
      locator pattern after other text. */
  lemma StripsWholeWords(s: seq<byte>)
    ensures Words(Stripped(s)) == Kept(Words(s)) <==> NoneGlued(Words(s))
  {
    hide Stripped, Glued, Words, Kept, Solid, Total;
    if NoneGlued(Words(s)) {
      StripsLocatorWords(s);
    } else {
      StrippedShrinks(s);
      SolidIsTotal(Stripped(s));
    }
  }

  // ── What a rewritten line says ────────────────────────────────────────

  lemma WordsInsert(l: seq<byte>, at: nat, data: seq<byte>)
    requires at <= |l| && Apart(l[..at], data) && Apart(data, l[at..]) && Apart(l[..at], l[at..])
    ensures Words(Insert(l, at, data)) == Words(l[..at]) + Words(data) + Words(l[at..])
    ensures Words(l) == Words(l[..at]) + Words(l[at..])
  {
    if data == [] {
      assert Insert(l, at, data) == l;
    } else if l[at..] == [] {
      assert l[..at] + data + l[at..] == l[..at] + data;
      WordsJoin(l[..at], data);
    } else {
      WordsJoin(l[..at], data);
      WordsJoin(l[..at] + data, l[at..]);
    }
    WordsJoin(l[..at], l[at..]);
    assert l == l[..at] + l[at..];
  }

  /** A CR before the second word of a line stops the search for the injection point. */
  predicate CrBeforeSecondWord(l: seq<byte>) {
    var q := Indent(l, WordEnd(l, Indent(l, 0)));
    q < |l| && Separator(l[q]) && Words(l[q..]) != []
  }

  predicate StartsWithWord(l: seq<byte>) { Indent(l, 0) < |l| && !Separator(l[Indent(l, 0)]) }

  /** A word after blanks is the first word. */
  lemma WordAt(l: seq<byte>, a: nat, b: nat)
    requires a < b <= |l| && (forall k :: 0 <= k < a ==> Separator(l[k])) && forall k :: a <= k < b ==> !Separator(l[k])
    ensures Words(l[..b]) == [l[a..b]]
  {
    assert l[..b] == l[..a] + l[a..b];
    WordsOfSeparators(l[..a]);
    OneWord(l[a..b]);
    if a > 0 { WordsJoin(l[..a], l[a..b]); } else { assert l[..a] + l[a..b] == l[a..b]; }
  }

  lemma WordsCut(l: seq<byte>, i: nat)
    requires i <= |l| && (i < |l| ==> Separator(l[i]))
    ensures Words(l) == Words(l[..i]) + Words(l[i..])
  {
    WordsJoin(l[..i], l[i..]);
    assert l == l[..i] + l[i..];
  }

  lemma FirstWordSplit(l: seq<byte>)
    requires StartsWithWord(l)
    ensures var b := WordEnd(l, Indent(l, 0)); |Words(l[..b])| == 1 && Words(l) == Words(l[..b]) + Words(l[b..])
  {
    var a := Indent(l, 0);
    WordAt(l, a, WordEnd(l, a));
    WordsCut(l, WordEnd(l, a));
  }

  /** The injection point lies after two words, after one when there is no second or a CR precedes it. */
  lemma SecondArgWords(l: seq<byte>)
    requires StartsWithWord(l)
    ensures var at := SecondArgEnd(l);
            && |Words(l[..at])| == (if CrBeforeSecondWord(l) then 1 else Least(2, |Words(l)|))
            && Words(l) == Words(l[..at]) + Words(l[at..])
  {
    FirstWordSplit(l);
    var b := WordEnd(l, Indent(l, 0));
    var q := Indent(l, b);
    var at := WordEnd(l, q);
    hide Indent, WordEnd, Words;
    SkipIndent(l, b);
    WordsCut(l, at);
    assert l[..at][..b] == l[..b];
    forall k | b <= k < q ensures Separator(l[k]) { }
    FirstsUpTo(l, b, q, at);
    if at > q { WordsNonempty(l[q..]); }
  }

  lemma WordsNonempty(s: seq<byte>)
    requires s != [] && !Separator(s[0])
    ensures Words(s) != []
  {
  }

  lemma FirstsUpTo(l: seq<byte>, b: nat, q: nat, at: nat)
    requires b <= q <= at <= |l| && (b < q || at == q)
    requires (forall k :: b <= k < q ==> Separator(l[k])) && forall k :: q <= k < at ==> !Separator(l[k])
    ensures |Words(l[..at])| == |Words(l[..b])| + (if at > q then 1 else 0)
  {
    assert l[..at] == l[..b] + l[b..at];
    if b < q { WordsJoin(l[..b], l[b..at]); } else { assert l[..b] + l[b..at] == l[..b]; }
    if at > q {
      assert l[b..at][..at - b] == l[b..at];
      WordAt(l[b..at], q - b, at - b);
    } else {
      WordsOfSeparators(l[b..at]);
    }
  }

  // ── Linux lines stay linux lines ──────────────────────────────────────

  lemma {:induction false} LongPrefix(s: seq<byte>, pats: seq<seq<byte>>)
    requires forall k :: 0 <= k < |pats| ==> |pats[k]| >= 8 && pats[k][0] != 108
    ensures PrefixLen(s, pats) > 0 ==> |s| >= 8 && s[0] != 108
  {
    if pats != [] && !(pats[0] <= s) {
      LongPrefix(s, pats[1..]);
    } else if pats != [] {
      assert s[0] == pats[0][0];
    }
  }

  lemma {:induction false} NoLocatorIn(w: seq<byte>)
    requires |w| < 8 || (|w| == 8 && w[0] == 108)
    ensures FirstLocator(w) == |w|
  {
    assert forall k :: 0 <= k < |LOCATORS| ==> |LOCATORS[k]| >= 8 && LOCATORS[k][0] != 108;
    hide LOCATORS, PrefixLen;
    LongPrefix(w, LOCATORS);
    if w != [] { NoLocatorIn(w[1..]); }
  }

  lemma {:induction false} IndentKept(s: seq<byte>, i: nat)
    requires i <= |s| && forall k :: 0 <= k < i ==> Blank(s[k])
    ensures Stripped(s) == s[..i] + Stripped(s[i..])
  {
    hide Stripped, LocatorLen;
    if i == 0 {
      assert s[0..] == s && s[..0] + Stripped(s) == Stripped(s);
    } else {
      SeparatorKept(s);
      IndentKept(s[1..], i - 1);
      assert s[1..][i - 1..] == s[i..];
      assert s[..i] == [s[0]] + s[1..][..i - 1];
    }
  }

  /** Where the command of a linux line starts and ends. */
  lemma LinuxCommand(line: seq<byte>) returns (a: nat, n: nat)
    requires IsLinux(line)
    ensures a == Indent(line, 0) && 0 < n <= 8 && a + n < |line| && line[a] == 108 && Separator(line[a + n])
  {
    a := Indent(line, 0);
    var t := line[a..];
    n := if Command(t, Ascii("linux")) then 5 else 8;
    assert n + 1 <= |t| && Blank(t[n]) && t[..n] == Ascii(if n == 5 then "linux" else "linuxefi");
    assert t[0] == Ascii("linux")[0] == 108;
  }

  /** Stripping keeps the command of a linux line. */
  lemma LinuxStripped(line: seq<byte>)
    requires IsLinux(line)
    ensures StartsWithWord(line) && StartsWithWord(Stripped(line))
  {
    hide Stripped, LocatorLen, Ascii, IsLinux;
    var a, n := LinuxCommand(line);
    IndentKept(line, a);
    StrippedWordStays(line[a..], n);
    IndentEnds(Stripped(line), a);
  }

  lemma StrippedWordStays(t: seq<byte>, n: nat)
    requires n < |t| && n <= 8 && 0 < n && t[0] == 108 && Separator(t[n])
    ensures Stripped(t) != [] && Stripped(t)[0] == t[0]
  {
    WordEndStops(t, 0, n);
    var w := t[..WordEnd(t, 0)];
    NoLocatorIn(w);
    hide Stripped, LocatorLen, FirstLocator;
    StrippedWord(t);
  }

  lemma IndentEnds(s: seq<byte>, a: nat)
    requires a < |s| && (forall k :: 0 <= k < a ==> Blank(s[k])) && !Separator(s[a])
    ensures StartsWithWord(s)
  {
    IndentStops(s, 0, a);
  }

  /** A rewritten linux line: the words of the (stripped) line with the injected ones put
      after the kernel path, or after the command when there is no path to find. */
  lemma LinuxLineWords(line: seq<byte>, j: Injection)
    requires IsLinux(line) && j.linux != [] && j.linux[0] == SPACE
    ensures var l := if j.eol != [] || j.strips then Stripped(line) else line;
            var ws, k := Words(l), if CrBeforeSecondWord(l) then 1 else Least(2, |Words(l)|);
            k <= |ws| && Words(LinuxText(line, j)) == ws[..k] + Words(j.linux + j.eol) + ws[k..]
  {
    hide Stripped, IsLinux, CrBeforeSecondWord, Words;
    LinuxStripped(line);
    var l := if j.eol != [] || j.strips then Stripped(line) else line;
    SecondArgWords(l);
    WordsInsert(l, SecondArgEnd(l), j.linux + j.eol);
  }

  /** A rewritten options line: its words without locators, then the injected ones. */
  lemma OptionsLineWords(line: seq<byte>, linux: seq<byte>)
    requires linux != [] ==> linux[0] == SPACE
    ensures Words(OptionsText(line, linux)) == Words(Stripped(line)) + Words(linux)
  {
    hide Stripped, Words, Insert;
    var l := Stripped(line);
    var content := if linux != [] && linux[0] == SPACE then linux[1..] else linux;
    var at := OptionsEnd(l);
    var data := (if at > 0 && !Blank(l[at - 1]) then [SPACE] else []) + content;
    LeadingBlanks(linux, content, data);
    if content != [] {
      WordsInsert(l, at, data);
      WordsOfSeparators(l[at..]);
    }
  }

  lemma LeadingBlanks(linux: seq<byte>, content: seq<byte>, data: seq<byte>)
    requires linux == content || linux == [SPACE] + content
    requires data == content || data == [SPACE] + content
    ensures Words(linux) == Words(content) == Words(data) && (content == [] ==> Words(linux) == [])
  {
    assert ([SPACE] + content)[1..] == content;
  }

  /** A rewritten initrd line gains the archive as its last word. */
  lemma InitrdLineWords(line: seq<byte>, initrd: seq<byte>)
    requires initrd != [] && initrd[0] == SPACE
    ensures Words(Insert(line, LineEnd(line), initrd)) == Words(line) + Words(initrd)
  {
    hide Words;
    WordsInsert(line, LineEnd(line), initrd);
    WordsOfSeparators(line[LineEnd(line)..]);
  }
}
