/** Bytes, fixed-width integers, and the endian readers and writers of the parsers and of their test encoders. */
module Bytes {
  type byte = b: int | 0 <= b < 0x100
  type u16 = x: int | 0 <= x < 0x1_0000
  type u32 = x: int | 0 <= x < 0x1_0000_0000
  type u64 = x: int | 0 <= x < 0x1_0000_0000_0000_0000

  const TWO32 := 0x1_0000_0000
  const TWO64 := 0x1_0000_0000_0000_0000

  /** The largest length that 32-bit rounding up to a multiple of four does not wrap to zero. */
  const MAX_ALIGNABLE := 0xFFFF_FFFC

  datatype Option<+T> = None | Some(value: T)

  /** Unsigned 32-bit addition. */
  function Add32(x: u32, y: u32): u32 {
    if x + y < TWO32 then x + y else x + y - TWO32
  }

  /** `y & ~3u`: the multiple of four at or just below `y`. */
  function Mask4(y: u32): nat {
    if y < 4 then 0 else 4 + Mask4(y - 4)
  }

  lemma {:induction false} Mask4ClearsTwoBits(y: u32)
    ensures Mask4(y) == y / 4 * 4
    decreases y
  {
    if y >= 4 {
      Mask4ClearsTwoBits(y - 4);
    }
  }

  /** `(x + 3u) & ~3u` in 32-bit unsigned arithmetic. */
  function Align4(x: u32): (r: u32)
    ensures x <= MAX_ALIGNABLE ==> x <= r
    ensures x > MAX_ALIGNABLE ==> r == 0
  {
    Mask4ClearsTwoBits(Add32(x, 3));
    Mask4(Add32(x, 3))
  }

  predicate Aligned(x: u32) {
    Align4(x) == x
  }

  lemma AlignedSum(x: u32, y: u32)
    requires Aligned(x) && Aligned(y) && x + y <= MAX_ALIGNABLE
    ensures Aligned(x + y)
  {
    Align4Is(x);
    Align4Is(y);
    Align4Is(x + y);
  }

  /** A block of `len` bytes takes `total` bytes: padded to a multiple of four, or less with nothing behind it. */
  predicate Padded(len: u32, total: nat, behind: seq<byte>) {
    len <= total && (total == Align4(len) || (total < Align4(len) && behind == []))
  }

  /** Both kinds of message put 20 bytes of headers before their attributes. */
  lemma AlignedBehindHeader(n: u32)
    requires Aligned(n) && n <= 0xFFFF
    ensures Aligned(20 + n)
  {
    Align4Is(20);
    AlignedSum(20, n);
  }

  lemma AlignIsAligned(x: u32)
    ensures Aligned(Align4(x))
  {
    Align4Is(x);
    Align4Is(Align4(x));
  }

  /** A multiple of four, the first one from `x` on unless the rounding wraps. */
  lemma Align4Is(x: u32)
    ensures Align4(x) == (x + 3) % 0x1_0000_0000 / 4 * 4 && Align4(x) % 4 == 0
    ensures x <= MAX_ALIGNABLE ==> x <= Align4(x) < x + 4
  {
    Mask4ClearsTwoBits(Add32(x, 3));
  }

  function Rd16Le(d: seq<byte>, off: nat): u16
    requires off + 2 <= |d|
  {
    d[off] as int + 0x100 * d[off + 1] as int
  }

  function Rd32Le(d: seq<byte>, off: nat): u32
    requires off + 4 <= |d|
  {
    Rd16Le(d, off) as int + 0x1_0000 * Rd16Le(d, off + 2) as int
  }

  function Rd16Be(d: seq<byte>, off: nat): u16
    requires off + 2 <= |d|
  {
    0x100 * d[off] as int + d[off + 1] as int
  }

  function Rd32Be(d: seq<byte>, off: nat): u32
    requires off + 4 <= |d|
  {
    0x1_0000 * Rd16Be(d, off) as int + Rd16Be(d, off + 2) as int
  }

  /** `v >> 8` for a 16-bit value. */
  function High8(v: u16): (q: byte)
    ensures 0x100 * q <= v < 0x100 * q + 0x100
  {
    v / 0x100
  }

  /** `v & 0xff` for a 16-bit value. */
  function Low8(v: u16): byte { v - 0x100 * High8(v) }

  /** `w >> 16` for a 32-bit value. */
  function High16(w: u32): (q: u16)
    ensures 0x1_0000 * q <= w < 0x1_0000 * q + 0x1_0000
  {
    w / 0x1_0000
  }

  /** `w & 0xffff` for a 32-bit value. */
  function Low16(w: u32): u16 { w - 0x1_0000 * High16(w) }

  function Le16(v: u16): seq<byte> { [Low8(v), High8(v)] }

  function Be16(v: u16): seq<byte> { [High8(v), Low8(v)] }

  function Le32(w: u32): seq<byte> { Le16(Low16(w)) + Le16(High16(w)) }

  function Be32(w: u32): seq<byte> { Be16(High16(w)) + Be16(Low16(w)) }

  lemma ReadLe16(x: seq<byte>, v: u16, y: seq<byte>)
    ensures Rd16Le(x + Le16(v) + y, |x|) == v
  {
  }

  lemma ReadBe16(v: u16)
    ensures Rd16Be(Be16(v), 0) == v
  {
  }

  lemma ReadLe32(w: u32, y: seq<byte>)
    ensures Rd32Le(Le32(w) + y, 0) == w
  {
    var d := Le32(w) + y;
    assert d[..2] == Le16(Low16(w)) && d[2..4] == Le16(High16(w));
    assert d[0] == d[..2][0] && d[1] == d[..2][1] && d[2] == d[2..4][0] && d[3] == d[2..4][1];
  }

  lemma ReadBe32(w: u32, y: seq<byte>)
    ensures Rd32Be(Be32(w) + y, 0) == w
  {
    var d := Be32(w) + y;
    assert d[..2] == Be16(High16(w)) && d[2..4] == Be16(Low16(w));
    assert d[0] == d[..2][0] && d[1] == d[..2][1] && d[2] == d[2..4][0] && d[3] == d[2..4][1];
  }

  /** The same anywhere in a buffer. */
  lemma ReadBe32At(d: seq<byte>, off: nat, w: u32)
    requires off + 4 <= |d| && d[off..off + 4] == Be32(w)
    ensures Rd32Be(d, off) == w
  {
    var e := d[off..off + 4];
    ReadBe32(w, []);
    assert e + [] == e;
    assert d[off] == e[0] && d[off + 1] == e[1] && d[off + 2] == e[2] && d[off + 3] == e[3];
  }

  lemma ReadBe16At(d: seq<byte>, off: nat, v: u16)
    requires off + 2 <= |d| && d[off..off + 2] == Be16(v)
    ensures Rd16Be(d, off) == v
  {
    var e := d[off..off + 2];
    assert d[off] == e[0] && d[off + 1] == e[1];
  }

  /** `(int8_t)b`: two's complement sign extension of one byte. */
  function SignExtend8(b: byte): (r: int)
    ensures -128 <= r < 128
  {
    if b < 0x80 then b else b - 0x100
  }

  /** `(uint8_t)v` for a value that fits a signed byte. */
  function Byte8(v: int): (b: byte)
    requires -128 <= v < 128
    ensures SignExtend8(b) == v
  {
    if v >= 0 then v else v + 0x100
  }

  /** `(int32_t)w`. */
  function SignExtend32(w: u32): int {
    if w < 0x8000_0000 then w else w - TWO32
  }

  /** `(uint32_t)v` for a value that fits a signed word. */
  function Word32(v: int): (w: u32)
    requires -0x8000_0000 <= v < 0x8000_0000
    ensures SignExtend32(w) == v
  {
    if v >= 0 then v else v + TWO32
  }

  function Zeros(n: nat): (z: seq<byte>)
    ensures |z| == n
  {
    seq(n, _ => 0)
  }
}
