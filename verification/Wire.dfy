/**
 Attributes as they travel: every byte spelled in numbers, without the readers, the encoders and the constants of the
 parsers.  An attribute is its length and its type, low bytes first, its payload, and zeros up to a multiple of four;
 the two highest bits of the type are flags.
 */
module Wire {
  import opened Bytes
  import opened Walk
  import opened Attributes

  type Flags = f: nat | f < 4

  /** The padding behind `n` bytes. */
  function PadOf(n: nat): nat {
    (4 - n % 4) % 4
  }

  function Raw(typ: byte, f: Flags, p: seq<byte>): seq<byte>
    requires |p| <= 0xFFFB
  {
    [(4 + |p|) % 0x100, (4 + |p|) / 0x100, typ, 0x40 * f] + p + Zeros(PadOf(|p|))
  }

  lemma Padding(n: nat)
    requires n <= 0xFFFB
    ensures Align4(4 + n) == 4 + n + PadOf(n)
  {
    Align4Is(4 + n);
  }

  /** The encoder writes just that. */
  lemma RawIsEncAttr(typ: byte, f: Flags, p: seq<byte>)
    requires |p| <= 0xFFFB
    ensures Raw(typ, f, p) == EncAttr(typ + 0x4000 * f, p)
  {
    Padding(|p|);
    assert Le16(4 + |p|) == [(4 + |p|) % 0x100, (4 + |p|) / 0x100];
    assert Le16(typ + 0x4000 * f) == [typ, 0x40 * f];
  }

  /** And the walker reads it, under its plain type. */
  lemma RawReads(typ: byte, f: Flags, p: seq<byte>)
    requires |p| <= 0xFFFB
    ensures Attrs(Raw(typ, f, p)) == [Attr(typ, p)] && Whole(AttrReader, Raw(typ, f, p), 0)
    ensures |Raw(typ, f, p)| == 4 + |p| + PadOf(|p|)
  {
    RawIsEncAttr(typ, f, p);
    FlagBitsAreStripped(typ, f, p);
  }

  /** Payloads of one to four bytes fill eight. */
  lemma ShortReads(typ: byte, f: Flags, p: seq<byte>)
    requires 1 <= |p| <= 4
    ensures Attrs(Raw(typ, f, p)) == [Attr(typ, p)] && Whole(AttrReader, Raw(typ, f, p), 0)
    ensures |Raw(typ, f, p)| == 8
  {
    RawReads(typ, f, p);
  }

  /** Words travel high byte first or low byte first. */
  lemma BigWord(w: u32)
    ensures var b := Be32(w);
            |b| == 4 && 0x100_0000 * b[0] as int + 0x1_0000 * b[1] as int + 0x100 * b[2] as int + b[3] as int == w
  {
  }

  lemma LittleWord(w: u32)
    ensures var b := Le32(w);
            |b| == 4 && b[0] as int + 0x100 * b[1] as int + 0x1_0000 * b[2] as int + 0x100_0000 * b[3] as int == w
  {
  }

  lemma BigHalf(v: u16)
    ensures var b := Be16(v); |b| == 2 && 0x100 * b[0] as int + b[1] as int == v
  {
  }

  lemma LittleHalf(v: u16)
    ensures var b := Le16(v); |b| == 2 && b[0] as int + 0x100 * b[1] as int == v
  {
  }

  /** Streams of two attributes, or of one and some more. */
  lemma Joined(x: seq<byte>, xs: seq<Attr>, y: seq<byte>, ys: seq<Attr>)
    requires Attrs(x) == xs && Whole(AttrReader, x, 0) && Attrs(y) == ys && Whole(AttrReader, y, 0)
    ensures Attrs(x + y) == xs + ys && Whole(AttrReader, x + y, 0)
  {
    AttrsAppend(x, y);
  }

  lemma TwoJoined(x: seq<byte>, a: Attr, y: seq<byte>, b: Attr)
    requires Attrs(x) == [a] && Whole(AttrReader, x, 0) && Attrs(y) == [b] && Whole(AttrReader, y, 0)
    ensures Attrs(x + y) == [a, b] && Whole(AttrReader, x + y, 0)
  {
    Joined(x, [a], y, [b]);
  }

  lemma ThreeJoined(x: seq<byte>, a: Attr, y: seq<byte>, b: Attr, z: seq<byte>, c: Attr)
    requires Attrs(x) == [a] && Whole(AttrReader, x, 0) && Attrs(y) == [b] && Whole(AttrReader, y, 0)
    requires Attrs(z) == [c] && Whole(AttrReader, z, 0)
    ensures Attrs(x + y + z) == [a, b, c] && Whole(AttrReader, x + y + z, 0)
  {
    TwoJoined(x, a, y, b);
    Joined(x + y, [a, b], z, [c]);
  }
}
