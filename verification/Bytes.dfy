/** Bytes, fixed-width integers and their on-disk encodings. */
module Bytes {

  type byte = x: int | 0 <= x < 256
  type u16 = x: int | 0 <= x < 0x1_0000
  type u32 = x: int | 0 <= x < 0x1_0000_0000
  type u64 = x: int | 0 <= x < 0x1_0000_0000_0000_0000

  datatype Option<+T> = None | Some(value: T)

  function Least(a: nat, b: nat): nat { if a < b then a else b }

  /** PREMOUNT.CPIO */
  const PREMOUNT_NAME: seq<byte> := [80, 82, 69, 77, 79, 85, 78, 84, 46, 67, 80, 73, 79]

  /** Hexadecimal digit `i` of `v`, counted from the least significant one. */
  function Nibble(v: nat, i: nat): (d: nat)
    ensures d < 16
  {
    if i == 0 then v % 16 else Nibble(v / 16, i - 1)
  }

  function Le16(v: u16): (s: seq<byte>)
    ensures |s| == 2
  {
    [v % 256, v / 256]
  }

  function Le32(v: u32): (s: seq<byte>)
    ensures |s| == 4
  {
    [v % 256, v / 256 % 256, v / 256 / 256 % 256, v / 256 / 256 / 256]
  }

  function Be32(v: u32): (s: seq<byte>)
    ensures |s| == 4
  {
    [v / 256 / 256 / 256, v / 256 / 256 % 256, v / 256 % 256, v % 256]
  }

  function Le64(v: u64): (s: seq<byte>)
    ensures |s| == 8
  {
    Le32(v % 0x1_0000_0000) + Le32(v / 0x1_0000_0000)
  }

  function Reversed(s: seq<byte>): (r: seq<byte>)
    ensures |r| == |s| && forall i :: 0 <= i < |s| ==> r[i] == s[|s| - 1 - i]
  {
    if s == [] then [] else Reversed(s[1..]) + [s[0]]
  }

  /** Both byte orders hold the same four bytes. */
  lemma Be32IsReversed(v: u32)
    ensures Be32(v) == Reversed(Le32(v))
  {
    var r := Reversed(Le32(v));
    assert r == [r[0], r[1], r[2], r[3]];
  }

  function FromLe16(s: seq<byte>, at: nat): (v: u16)
    requires at + 2 <= |s|
  {
    s[at] as int + s[at + 1] as int * 0x100
  }

  function FromLe32(s: seq<byte>, at: nat): (v: u32)
    requires at + 4 <= |s|
  {
    s[at] as int + s[at + 1] as int * 0x100 + s[at + 2] as int * 0x1_0000 + s[at + 3] as int * 0x100_0000
  }

  function FromLe64(s: seq<byte>, at: nat): (v: u64)
    requires at + 8 <= |s|
  {
    FromLe32(s, at) as int + FromLe32(s, at + 4) as int * 0x1_0000_0000
  }

  lemma Digits256(v: u32)
    ensures v == v % 256 + v / 256 % 256 * 0x100 + v / 256 / 256 % 256 * 0x1_0000 + v / 256 / 256 / 256 * 0x100_0000
  {
    var a := v / 256;
    var b := a / 256;
    assert v == 256 * a + v % 256;
    assert a == 256 * b + a % 256;
    assert b == 256 * (b / 256) + b % 256;
  }

  lemma Le32RoundTrip(v: u32, s: seq<byte>, at: nat)
    requires at + 4 <= |s| && s[at..at + 4] == Le32(v)
    ensures FromLe32(s, at) == v
  {
    var t := s[at..at + 4];
    assert t[0] == s[at] && t[1] == s[at + 1] && t[2] == s[at + 2] && t[3] == s[at + 3];
    Digits256(v);
  }

  lemma Le64RoundTrip(v: u64, s: seq<byte>, at: nat)
    requires at + 8 <= |s| && s[at..at + 8] == Le64(v)
    ensures FromLe64(s, at) == v
  {
    hide Le32, FromLe32;
    var (low: u32, high: u32) := (v % 0x1_0000_0000, v / 0x1_0000_0000);
    assert s[at..at + 4] == s[at..at + 8][..4] == Le32(low);
    assert s[at + 4..at + 8] == s[at..at + 8][4..] == Le32(high);
    Le32RoundTrip(low, s, at);
    Le32RoundTrip(high, s, at + 4);
  }

  lemma FromLe32Slice(s: seq<byte>, t: seq<byte>, at: nat, bt: nat)
    requires at + 4 <= |s| && bt + 4 <= |t| && s[at..at + 4] == t[bt..bt + 4]
    ensures FromLe32(s, at) == FromLe32(t, bt)
  {
    var u, w := s[at..at + 4], t[bt..bt + 4];
    assert forall i :: 0 <= i < 4 ==> s[at + i] == u[i] && t[bt + i] == w[i];
  }

  /** `s` with the bytes from `at` on replaced by `data`. */
  function Splice(s: seq<byte>, at: nat, data: seq<byte>): (r: seq<byte>)
    requires at + |data| <= |s|
    ensures |r| == |s|
    ensures forall i :: 0 <= i < |s| ==> r[i] == if at <= i < at + |data| then data[i - at] else s[i]
  {
    s[..at] + data + s[at + |data|..]
  }

  /** Copies `src` into an array from index `at` on. */
  method CopyInto(dst: array<byte>, at: nat, src: seq<byte>)
    requires at + |src| <= dst.Length
    modifies dst
    ensures dst[..] == Splice(old(dst[..]), at, src)
  {
    forall i | 0 <= i < |src| { dst[at + i] := src[i]; }
  }

  /** The bytes of an ASCII literal. */
  function Ascii(s: string): (r: seq<byte>)
    ensures |r| == |s|
  {
    seq(|s|, i requires 0 <= i < |s| => s[i] as int % 256)
  }

  function UpperByte(c: byte): byte {
    if 97 <= c <= 122 then c - 32 else c
  }

  function Upper(s: seq<byte>): (r: seq<byte>)
    ensures |r| == |s|
  {
    seq(|s|, i requires 0 <= i < |s| => UpperByte(s[i]))
  }

  /** Only the letters a to z change, each to its capital. */
  lemma UpperLetters()
    ensures Upper(Ascii("abmyz`{@[09.")) == Ascii("ABMYZ`{@[09.")
  {
  }
}
