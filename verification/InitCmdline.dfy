/** The early-init program's reading of the kernel command line. */
module InitCmdline {
  import opened Bytes
  import opened GrubText
  import opened BootArgs

  const MAX_OFFSET := 512 * 4_294_967_296
  const MAX_U32 := 0xFFFF_FFFF
  const MAX_U64 := 0xFFFF_FFFF_FFFF_FFFF

  /** What was found; a text is kept as its UTF-8 bytes. */
  datatype Params = Params(offset: Option<nat>, guid: Option<seq<byte>>, num: Option<nat>, path: Option<seq<byte>>,
                           size: Option<nat>)

  const NOTHING := Params(None, None, None, None, None)

  // ── Tokens ────────────────────────────────────────────────────────────

  /** Unlike a config line's words, tokens are not split at a CR. */
  predicate Gap(c: byte) { c == SPACE || c == TAB || c == LF }

  function TokenEnd(s: seq<byte>, i: nat): (j: nat)
    requires i <= |s|
    ensures i <= j <= |s| && (j < |s| ==> Gap(s[j])) && forall k :: i <= k < j ==> !Gap(s[k])
    decreases |s| - i
  {
    if i < |s| && !Gap(s[i]) then TokenEnd(s, i + 1) else i
  }

  function Tokens(s: seq<byte>): seq<seq<byte>>
    decreases |s|
  {
    if s == [] then []
    else if Gap(s[0]) then Tokens(s[1..])
    else [s[..TokenEnd(s, 0)]] + Tokens(s[TokenEnd(s, 0)..])
  }

  // ── Values ────────────────────────────────────────────────────────────

  predicate Digit(c: byte) { 48 <= c <= 57 }

  function Saturated(v: nat, max: nat): nat { if v < max then v else max }

  /** Saturating decimal value of `val` read after `v`; 0 when it holds a non-digit. */
  function Number(val: seq<byte>, v: nat, max: nat): nat {
    if val == [] then v
    else if !Digit(val[0]) then 0
    else Number(val[1..], Saturated(Saturated(v * 10, max) + (val[0] as int - 48), max), max)
  }

  predicate Continuation(c: byte) { 0x80 <= c < 0xC0 }

  /** Length of the UTF-8 character that `s` starts with, 0 if there is none. */
  function CharLen(s: seq<byte>): (n: nat)
    ensures n <= |s|
  {
    if s == [] then 0
    else if s[0] < 0x80 then 1
    else if 0xC2 <= s[0] < 0xE0 then if |s| >= 2 && Continuation(s[1]) then 2 else 0
    else if 0xE0 <= s[0] < 0xF0 then
      if |s| >= 3 && Continuation(s[1]) && Continuation(s[2]) && (s[0] == 0xE0 ==> s[1] >= 0xA0) &&
        (s[0] == 0xED ==> s[1] < 0xA0) then 3 else 0
    else if 0xF0 <= s[0] < 0xF5 then
      if |s| >= 4 && Continuation(s[1]) && Continuation(s[2]) && Continuation(s[3]) &&
        (s[0] == 0xF0 ==> s[1] >= 0x90) && (s[0] == 0xF4 ==> s[1] < 0x90)
      then 4 else 0
    else 0
  }

  predicate Utf8(s: seq<byte>) {
    s == [] || (CharLen(s) > 0 && Utf8(s[CharLen(s)..]))
  }

  /** A Unicode scalar value: no surrogate. */
  predicate Scalar(c: nat) { c < 0xD800 || 0xE000 <= c < 0x11_0000 }

  /** Section 3 of RFC 3629. */
  function Encoded(c: nat): (s: seq<byte>)
    requires Scalar(c)
    ensures 1 <= |s| <= 4
  {
    if c < 0x80 then [c]
    else if c < 0x800 then [0xC0 + c / 64, 0x80 + c % 64]
    else if c < 0x1_0000 then [0xE0 + c / 64 / 64, 0x80 + c / 64 % 64, 0x80 + c % 64]
    else [0xF0 + c / 64 / 64 / 64, 0x80 + c / 64 / 64 % 64, 0x80 + c / 64 % 64, 0x80 + c % 64]
  }

  /** Every encoded character is found, whatever follows it. */
  lemma EncodedFound(c: nat, rest: seq<byte>)
    requires Scalar(c)
    ensures CharLen(Encoded(c) + rest) == |Encoded(c)|
  {
    var (a, b) := (c / 64, c / 64 / 64);
    assert c == 64 * a + c % 64 && a == 64 * b + a % 64 && b == 64 * (b / 64) + b % 64;
    var s := Encoded(c) + rest;
    assert forall i :: 0 <= i < |Encoded(c)| ==> s[i] == Encoded(c)[i];
  }

  lemma Split(a: nat, r: nat)
    requires r < 64
    ensures (64 * a + r) / 64 == a && (64 * a + r) % 64 == r
  {
  }

  /** The text of the characters `cs`. */
  function Text(cs: seq<nat>): seq<byte>
    requires forall i :: 0 <= i < |cs| ==> Scalar(cs[i])
  {
    if cs == [] then [] else Encoded(cs[0]) + Text(cs[1..])
  }

  /** Whatever is found as a character is an encoded one. */
  lemma FoundEncoded(s: seq<byte>) returns (c: nat)
    requires CharLen(s) > 0
    ensures Scalar(c) && Encoded(c) == s[..CharLen(s)]
  {
    var n := CharLen(s);
    if n == 1 {
      c := s[0];
    } else if n == 2 {
      c := FoundTwo(s[0], s[1]);
    } else if n == 3 {
      c := FoundThree(s[0], s[1], s[2]);
    } else {
      c := FoundFour(s[0], s[1], s[2], s[3]);
    }
  }

  lemma FoundTwo(x: byte, y: byte) returns (c: nat)
    requires 0xC2 <= x < 0xE0 && Continuation(y)
    ensures Scalar(c) && Encoded(c) == [x, y]
  {
    c := 64 * (x as int - 0xC0) + (y as int - 0x80);
    Split(x as int - 0xC0, y as int - 0x80);
  }

  lemma FoundThree(x: byte, y: byte, z: byte) returns (c: nat)
    requires 0xE0 <= x < 0xF0 && Continuation(y) && Continuation(z)
    requires (x == 0xE0 ==> y >= 0xA0) && (x == 0xED ==> y < 0xA0)
    ensures Scalar(c) && Encoded(c) == [x, y, z]
  {
    var a := 64 * (x as int - 0xE0) + (y as int - 0x80);
    c := 64 * a + (z as int - 0x80);
    Split(x as int - 0xE0, y as int - 0x80);
    Split(a, z as int - 0x80);
  }

  lemma FoundFour(x: byte, y: byte, z: byte, w: byte) returns (c: nat)
    requires 0xF0 <= x < 0xF5 && Continuation(y) && Continuation(z) && Continuation(w)
    requires (x == 0xF0 ==> y >= 0x90) && (x == 0xF4 ==> y < 0x90)
    ensures Scalar(c) && Encoded(c) == [x, y, z, w]
  {
    var a := 64 * (x as int - 0xF0) + (y as int - 0x80);
    var b := 64 * a + (z as int - 0x80);
    c := 64 * b + (w as int - 0x80);
    Split(x as int - 0xF0, y as int - 0x80);
    Split(a, z as int - 0x80);
    Split(b, w as int - 0x80);
  }

  /** A text is accepted. */
  lemma {:induction false} TextIsUtf8(cs: seq<nat>)
    requires forall i :: 0 <= i < |cs| ==> Scalar(cs[i])
    ensures Utf8(Text(cs))
  {
    hide CharLen, Encoded, Scalar;
    if cs != [] {
      EncodedFound(cs[0], Text(cs[1..]));
      TextIsUtf8(cs[1..]);
      assert Text(cs)[|Encoded(cs[0])|..] == Text(cs[1..]);
    }
  }

  /** Whatever is accepted is a text. */
  lemma {:induction false} Utf8IsText(s: seq<byte>) returns (cs: seq<nat>)
    requires Utf8(s)
    ensures (forall i :: 0 <= i < |cs| ==> Scalar(cs[i])) && Text(cs) == s
    decreases |s|
  {
    hide CharLen, Encoded, Scalar;
    if s == [] {
      cs := [];
    } else {
      var c := FoundEncoded(s);
      var rest := Utf8IsText(s[CharLen(s)..]);
      cs := [c] + rest;
      assert cs[1..] == rest && s == s[..CharLen(s)] + s[CharLen(s)..];
    }
  }

  function Lower(c: byte): byte { if 65 <= c <= 90 then c + 32 else c }

  predicate GuidChar(c: byte) { Digit(c) || 97 <= c <= 122 || c == 45 }

  /** A value in lower case if that leaves only ASCII letters, digits and dashes. The Kelvin
      sign (E2 84 AA) is the one character outside ASCII whose lower case is an ASCII letter. */
  function LowerGuid(val: seq<byte>): Option<seq<byte>> {
    if val == [] then Some([])
    else if GuidChar(Lower(val[0])) then Prepend(Lower(val[0]), LowerGuid(val[1..]))
    else if [0xE2, 0x84, 0xAA] <= val then Prepend(107, LowerGuid(val[3..]))
    else None
  }

  function Prepend(c: byte, r: Option<seq<byte>>): Option<seq<byte>> {
    if r.Some? then Some([c] + r.value) else None
  }

  /** The characters a PARTUUID may be written in: ASCII letters, digits, dashes and the Kelvin sign. */
  predicate Accepted(c: nat) {
    48 <= c <= 57 || 65 <= c <= 90 || 97 <= c <= 122 || c == 45 || c == 0x212A
  }

  /** The capital of an accepted character, the Kelvin sign's being K. */
  function Capital(c: nat): byte
    requires Accepted(c)
  {
    if c == 0x212A then 75 else UpperByte(c)
  }

  lemma KelvinSign(c: nat, rest: seq<byte>)
    requires Scalar(c)
    ensures c >= 0x80 ==> Encoded(c)[0] >= 0xC2
    ensures [0xE2, 0x84, 0xAA] <= Encoded(c) + rest <==> c == 0x212A
    ensures c == 0x212A ==> |Encoded(c)| == 3
  {
    var s := Encoded(c) + rest;
    var (a, b) := (c / 64, c / 64 / 64);
    assert c == 64 * a + c % 64 && a == 64 * b + a % 64 && b == 64 * (b / 64) + b % 64;
    assert s[0] == Encoded(c)[0];
    if 0x800 <= c < 0x1_0000 {
      assert s[1] == Encoded(c)[1] && s[2] == Encoded(c)[2];
    }
  }

  lemma NoGuid()
    ensures LowerGuid([]) == Some([])
  {
  }

  lemma GuidStep(c: nat, rest: seq<byte>)
    requires Scalar(c)
    ensures LowerGuid(Encoded(c) + rest).Some? <==> Accepted(c) && LowerGuid(rest).Some?
    ensures LowerGuid(Encoded(c) + rest).Some? ==>
              exists d: byte :: GuidChar(d) && UpperByte(d) == Capital(c) &&
                                LowerGuid(Encoded(c) + rest).value == [d] + LowerGuid(rest).value
  {
    hide CharLen, Scalar;
    KelvinSign(c, rest);
    var s := Encoded(c) + rest;
    assert s[0] == Encoded(c)[0] && s[|Encoded(c)|..] == rest;
    if LowerGuid(s).Some? {
      var d: byte := if c < 0x80 then Lower(c) else 107;
      assert GuidChar(d) && UpperByte(d) == Capital(c);
    }
  }

  /** A value that is kept is UTF-8. */
  lemma {:induction false} GuidIsUtf8(s: seq<byte>)
    requires LowerGuid(s).Some?
    ensures Utf8(s)
    decreases |s|
  {
    if s != [] {
      GuidIsUtf8(if s[0] < 0x80 then s[1..] else s[3..]);
    }
  }

  /** A value is kept exactly if all its characters are accepted, and then it is equal up to case
      and in lower case. */
  lemma {:induction false} GuidOfText(cs: seq<nat>)
    requires forall i :: 0 <= i < |cs| ==> Scalar(cs[i])
    ensures LowerGuid(Text(cs)).Some? <==> forall i :: 0 <= i < |cs| ==> Accepted(cs[i])
    ensures LowerGuid(Text(cs)).Some? ==>
              var g := LowerGuid(Text(cs)).value;
              |g| == |cs| && forall i :: 0 <= i < |cs| ==> GuidChar(g[i]) && UpperByte(g[i]) == Capital(cs[i])
  {
    hide CharLen, Encoded, Scalar, LowerGuid, Accepted, Capital;
    if cs == [] {
      NoGuid();
    } else {
      GuidOfText(cs[1..]);
      GuidStep(cs[0], Text(cs[1..]));
      assert forall i :: 0 < i < |cs| ==> cs[i] == cs[1..][i - 1];
    }
  }

  // ── Parameters ────────────────────────────────────────────────────────

  function Equals(token: seq<byte>): (n: nat)
    ensures n <= |token| && (n < |token| ==> token[n] == 61) && forall k :: 0 <= k < n ==> token[k] != 61
  {
    if token == [] || token[0] == 61 then 0 else 1 + Equals(token[1..])
  }

  /** What one `key=value` token changes. */
  function Apply(p: Params, token: seq<byte>): Params {
    var eq := Equals(token);
    if eq == |token| then p
    else
      var key, val := token[..eq], token[eq + 1..];
      if key == ISO_OFFSET then
        var v := Number(val, 0, MAX_U64);
        if 0 < v <= MAX_OFFSET then p.(offset := Some(v)) else p
      else if key == PART_GUID then
        if LowerGuid(val).Some? then p.(guid := LowerGuid(val)) else p
      else if key == PART_NUM then
        var v := Number(val, 0, MAX_U32);
        if v > 0 then p.(num := Some(v)) else p
      else if key == ISO_PATH then
        if Utf8(val) then p.(path := Some(val)) else p
      else if key == ISO_SIZE then
        var v := Number(val, 0, MAX_U64);
        if v > 0 then p.(size := Some(v)) else p
      else p
  }

  function Fold(p: Params, tokens: seq<seq<byte>>): Params
    decreases |tokens|
  {
    if tokens == [] then p else Fold(Apply(p, tokens[0]), tokens[1..])
  }

  function Parse(s: seq<byte>): Params { Fold(NOTHING, Tokens(s)) }

  // ── The parser ────────────────────────────────────────────────────────

  method ParseNumber(val: seq<byte>, max: nat) returns (v: nat)
    ensures v == Number(val, 0, max)
  {
    v := 0;
    assert val[0..] == val;
    for i := 0 to |val|
      invariant Number(val[i..], v, max) == Number(val, 0, max)
    {
      var b := val[i];
      assert val[i..][1..] == val[i + 1..];
      if b < 48 || b > 57 { return 0; }
      v := Saturated(Saturated(v * 10, max) + (b as int - 48), max);
    }
  }

  method FindEquals(token: seq<byte>) returns (eq: nat)
    ensures eq == Equals(token)
  {
    eq := 0;
    while eq < |token| && token[eq] != 61
      invariant eq <= |token| && eq + Equals(token[eq..]) == Equals(token)
    {
      assert token[eq..][1..] == token[eq + 1..];
      eq := eq + 1;
    }
  }

  method ApplyToken(p: Params, token: seq<byte>) returns (r: Params)
    ensures r == Apply(p, token)
  {
    hide Equals, Number, LowerGuid, Utf8, ISO_OFFSET, PART_GUID, PART_NUM, ISO_PATH, ISO_SIZE;
    r := p;
    var eq := FindEquals(token);
    if eq == |token| { return; }
    var key, val := token[..eq], token[eq + 1..];
    if key == ISO_OFFSET {
      var v := ParseNumber(val, MAX_U64);
      if v > 0 && v <= MAX_OFFSET { r := r.(offset := Some(v)); }
    } else if key == PART_GUID {
      if LowerGuid(val).Some? { r := r.(guid := LowerGuid(val)); }
    } else if key == PART_NUM {
      var v := ParseNumber(val, MAX_U32);
      if v > 0 { r := r.(num := Some(v)); }
    } else if key == ISO_PATH {
      if Utf8(val) { r := r.(path := Some(val)); }
    } else if key == ISO_SIZE {
      var v := ParseNumber(val, MAX_U64);
      if v > 0 { r := r.(size := Some(v)); }
    }
  }

  method ParseCmdline(buf: seq<byte>) returns (params: Params)
    ensures params == Parse(buf)
  {
    hide Apply, TokenEnd;
    params := NOTHING;
    var i := 0;
    assert buf[0..] == buf;
    while i < |buf|
      invariant i <= |buf| && Fold(params, Tokens(buf[i..])) == Parse(buf)
      decreases |buf| - i
    {
      while i < |buf| && Gap(buf[i])
        invariant i <= |buf| && Fold(params, Tokens(buf[i..])) == Parse(buf)
      {
        assert buf[i..][1..] == buf[i + 1..];
        i := i + 1;
      }
      if i >= |buf| { break; }
      var tokenStart := i;
      i := EndOfToken(buf, tokenStart);
      TokenStep(buf, tokenStart, params);
      params := ApplyToken(params, buf[tokenStart..i]);
    }
    assert buf[i..] == [];
  }

  method EndOfToken(buf: seq<byte>, start: nat) returns (i: nat)
    requires start < |buf|
    ensures start <= i && i == start + TokenEnd(buf[start..], 0)
  {
    i := start;
    ghost var s := buf[start..];
    while i < |buf| && !Gap(buf[i])
      invariant start <= i <= |buf| && TokenEnd(s, i - start) == TokenEnd(s, 0)
    {
      assert s[i - start] == buf[i];
      i := i + 1;
    }
    assert i < |buf| ==> s[i - start] == buf[i];
  }

  lemma TokenStep(buf: seq<byte>, i: nat, p: Params)
    requires i < |buf| && !Gap(buf[i])
    ensures var e := i + TokenEnd(buf[i..], 0);
            i < e && Fold(p, Tokens(buf[i..])) == Fold(Apply(p, buf[i..e]), Tokens(buf[e..]))
  {
    hide Apply;
    var s := buf[i..];
    var n := TokenEnd(s, 0);
    assert s[..n] == buf[i..i + n] && s[n..] == buf[i + n..];
    assert Tokens(s)[1..] == Tokens(s[n..]);
  }
}
