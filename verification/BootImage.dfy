/** The boot sector code that the installer writes: x86 real-mode code, assembled instruction by
    instruction into 440 bytes. */
module BootImage {
  import opened Bytes
  import opened PartitionTables
  import opened Installer

  // Cells that the code uses: the disk address packet, the drive number and a flag.
  const DRIVE: u16 := 0x07B0
  const EXTENDED: u16 := 0x07B1
  const MESSAGE: u16 := 0x07B2
  const PACKET: u16 := 0x07C0
  const PACKET_COUNT: u16 := 0x07C2
  const PACKET_OFFSET: u16 := 0x07C4
  const PACKET_SEGMENT: u16 := 0x07C6
  const PACKET_LBA: u16 := 0x07C8
  const PACKET_LBA_HIGH: u16 := 0x07CC
  const COOKIE: u16 := 0x7B00

  const NEEDLE_AT := 91

  // ── The instructions with operands ────────────────────────────────────

  function MovSi(v: u16): seq<byte> { [0xBE] + Le16(v) }
  function JmpFar(segment: u16, offset: u16): seq<byte> { [0xEA] + Le16(offset) + Le16(segment) }
  function MovMem8Dl(at: u16): seq<byte> { [0x88, 0x16] + Le16(at) }
  function MovDlMem(at: u16): seq<byte> { [0x8A, 0x16] + Le16(at) }
  function MovMem8(at: u16, v: byte): seq<byte> { [0xC6, 0x06] + Le16(at) + [v] }
  function MovMem16(at: u16, v: u16): seq<byte> { [0xC7, 0x06] + Le16(at) + Le16(v) }
  function MovMem32(at: u16, v: u32): seq<byte> { [0x66, 0xC7, 0x06] + Le16(at) + Le32(v) }
  function CmpMem8(at: u16, v: byte): seq<byte> { [0x80, 0x3E] + Le16(at) + [v] }

  // ── The code, jumps resolved ──────────────────────────────────────────

  /** Sets up segments and stack and moves on to the copy at 0600h. */
  function Start(): (s: seq<byte>)
    ensures |s| == 31
  {
    [0xFA, 0x31, 0xC0, 0x8E, 0xD0, 0xBC] + Le16(0x7C00) + [0x8E, 0xD8, 0x8E, 0xC0, 0xFC]
    + MovSi(0x7C00) + [0xBF] + Le16(0x0600) + [0xB9] + Le16(0x0100) + [0xF3, 0xA5]
    + JmpFar(0, 0x061E) + [0x90, 0xFB]
  }

  /** Hands over to a sector already loaded when the boot cookie is set. */
  function CookieCheck(): (s: seq<byte>)
    ensures |s| == 34
  {
    MovMem8Dl(DRIVE) + [0x66, 0xA1] + Le16(COOKIE) + [0x66, 0x3D] + Le32(0x544F_4F42) + [0x75, 18]
    + MovMem32(COOKIE, 0) + MovDlMem(DRIVE) + JmpFar(0, 0x7C00)
  }

  /** Notes whether the BIOS has the extended read. */
  function Probe(): (s: seq<byte>)
    ensures |s| == 25
  {
    [0xB4, 0x41, 0xBB] + Le16(0x55AA) + [0xCD, 0x13, 0x72, 16, 0x81, 0xFB] + Le16(0xAA55)
    + [0x75, 10, 0xF6, 0xC1, 1, 0x74, 5] + MovMem8(EXTENDED, 1)
  }

  /** Fills the disk address packet: 127 sectors from sector 1 to 7E00h. */
  function FillPacket(): (s: seq<byte>)
    ensures |s| == 42
    ensures s[..9] == [0x66, 0xC7, 0x06, 0xC8, 0x07, 1, 0, 0, 0]
  {
    MovMem32(PACKET_LBA, 1) + MovMem32(PACKET_LBA_HIGH, 0) + MovMem16(PACKET_COUNT, 127)
    + MovMem16(PACKET, 0x0010) + MovMem16(PACKET_OFFSET, 0x7E00) + MovMem16(PACKET_SEGMENT, 0)
  }

  /** Reads, halving the count on failure, and enters stage 2 or prints and stops. */
  function ReadAndEnter(): (s: seq<byte>)
    ensures |s| == 59
  {
    CmpMem8(EXTENDED, 1) + [0x75, 19, 0xB4, 0x42] + MovDlMem(DRIVE) + MovSi(PACKET) + [0xCD, 0x13, 0x73, 14]
    + [0xD1, 0x2E] + Le16(PACKET_COUNT) + [0x75, 8] + MovSi(MESSAGE) + [0xE8] + Le16(11) + [0xEB, 0xFE]
    + MovDlMem(DRIVE) + JmpFar(0, 0x7E00)
    + [0x60, 0xB4, 0x0E, 0x31, 0xDB, 0xAC, 0x08, 0xC0, 0x74, 6, 0xCD, 0x10, 0xEB, 0xF7, 0x61, 0xC3]
  }

  function Image(): (s: seq<byte>)
    ensures |s| == 440
  {
    Start() + CookieCheck() + Probe() + FillPacket() + ReadAndEnter() + seq(249, i => 0)
  }

  // ── Where the installer patches it ────────────────────────────────────

  lemma NoOpcode()
    ensures forall k :: 0 <= k < 31 ==> Start()[k] != 0xC7
    ensures forall k :: 0 <= k < 34 && k != 17 ==> CookieCheck()[k] != 0xC7
    ensures CookieCheck()[19] == 0
    ensures forall k :: 0 <= k < 25 ==> Probe()[k] != 0xC7
  {
  }

  lemma ImageParts()
    ensures var img := Image();
            && img[..31] == Start() && img[31..65] == CookieCheck() && img[65..90] == Probe() &&
               img[90..132] == FillPacket()
  {
    hide Start, CookieCheck, Probe, FillPacket, ReadAndEnter;
  }

  lemma NoEarlierNeedle(k: nat)
    requires k < NEEDLE_AT
    ensures !NeedleAt(Image(), k)
  {
    NoOpcode();
    ImageParts();
    assert FillPacket()[..9][0] == 0x66;
    hide Start, CookieCheck, Probe, FillPacket, Image;
    var img := Image();
    if k < 31 {
      assert img[k] == img[..31][k];
    } else if k < 65 {
      assert img[k] == img[31..65][k - 31];
      assert img[50] == img[31..65][19];
    } else if k < 90 {
      assert img[k] == img[65..90][k - 65];
    } else {
      assert img[90] == img[90..132][0];
    }
    assert img[k..k + 4][0] == img[k] && img[k..k + 4][2] == img[k + 2];
  }

  /** The first instruction of the searched form is the one that sets the sector to read from. */
  lemma ImageNeedle()
    ensures NeedleAt(Image(), NEEDLE_AT) && Image()[NEEDLE_AT + 4..NEEDLE_AT + 8] == Le32(1)
    ensures forall k :: 0 <= k < NEEDLE_AT ==> !NeedleAt(Image(), k)
  {
    forall k | 0 <= k < NEEDLE_AT ensures !NeedleAt(Image(), k) { NoEarlierNeedle(k); }
    ImageParts();
    hide Start, CookieCheck, Probe, Image, FillPacket;
    var fill := FillPacket();
    Inside(Image(), 90, fill, 1, 5);
    Inside(Image(), 90, fill, 5, 9);
    assert fill[1..5] == fill[..9][1..5] && fill[5..9] == fill[..9][5..9];
  }

  /** The boot sector of a GPT disk has exactly that sector changed, to the one where stage 2 is
      written, and carries the disk's GUID. */
  lemma GptImageReadsStage2(sector: seq<byte>, guid: seq<byte>)
    requires |sector| == SECTOR_SIZE && |guid| == 16
    ensures var r, img := BootSector(sector, Image(), guid), Image();
            && r[..384] == Splice(img, NEEDLE_AT + 4, Le32(34))[..384] && r[384..400] == guid
  {
    hide Image, LbaPatched, Splice, NeedleAt, Stamped;
    ImageNeedle();
    StampedCode(sector, Image(), guid);
    var s := Stamped(sector, Image(), guid);
    forall k | 0 <= k <= NEEDLE_AT ensures NeedleAt(s, k) == NeedleAt(Image(), k) { SameNeedle(s, Image(), 384, k); }
    NeedleFirst(s, 0, 432, NEEDLE_AT);
    SpliceElsewhere(s, NEEDLE_AT + 4, Le32(34), 384, 400);
    StampedKeeps(sector, Image(), guid);
    SplicePrefix(s, Image(), NEEDLE_AT + 4, Le32(34), 384);
  }

  lemma SplicePrefix(s: seq<byte>, t: seq<byte>, at: nat, data: seq<byte>, n: nat)
    requires at + |data| <= n <= |s| && n <= |t| && s[..n] == t[..n]
    ensures Splice(s, at, data)[..n] == Splice(t, at, data)[..n]
  {
    forall i | 0 <= i < n ensures Splice(s, at, data)[..n][i] == Splice(t, at, data)[..n][i] {
      assert s[i] == s[..n][i] && t[i] == t[..n][i];
    }
  }
}
