/**
  Octets as they appear in GStreamer buffers, and the nibble operations the
  20-bit conversion applies to them.  The masks and shifts of the C code are
  written as division and remainder by 16; MasksAsArithmetic checks the two
  readings agree on every byte.
 */
module Bytes {
  newtype byte = x: int | 0 <= x < 256

  /** b & 0xf0 */
  function HighNibble(b: byte): byte
  {
    b / 16 * 16
  }

  /** b & 0x0f */
  function LowNibble(b: byte): byte
  {
    b % 16
  }

  /** (b & 0x0f) << 4 */
  function LowNibbleUp(b: byte): byte
  {
    b % 16 * 16
  }

  /** b >> 4 */
  function HighNibbleDown(b: byte): byte
  {
    b / 16
  }

  /** The arithmetic forms agree with the bit operations of the C code on
      every 8-bit value. */
  lemma MasksAsArithmetic(x: bv8)
    ensures (x & 0xf0) as int == HighNibble(x as byte) as int
    ensures (x & 0x0f) as int == LowNibble(x as byte) as int
    ensures ((x & 0x0f) << 4) as int == LowNibbleUp(x as byte) as int
    ensures (x >> 4) as int == HighNibbleDown(x as byte) as int
  {
    HighNibbleMask(x);
    LowNibbleMask(x);
    LowNibbleUpMask(x);
    HighNibbleDownShift(x);
  }

  lemma HighNibbleMask(x: bv8)
    ensures (x & 0xf0) as int == x as int / 16 * 16
  {
  }

  lemma LowNibbleMask(x: bv8)
    ensures (x & 0x0f) as int == x as int % 16
  {
  }

  lemma LowNibbleUpMask(x: bv8)
    ensures ((x & 0x0f) << 4) as int == x as int % 16 * 16
  {
  }

  lemma HighNibbleDownShift(x: bv8)
    ensures (x >> 4) as int == x as int / 16
  {
  }
}

/**
  The 5-byte prefix of a DVD LPCM chunk: a big-endian 16-bit first-access
  offset followed by a big-endian 24-bit header word, and the decoding of
  that header word into the stream format (gst/dvdlpcmdec/gstdvdlpcmdec.c).
  The header word is a number below 2^24; the C code's mask tests
  (header & 2^n) are written as h / 2^n % 2 == 1.
 */
module LpcmHeader {
  import opened Bytes

  /** The stream parameters carried by a header word. */
  datatype HeaderFields = HeaderFields(
    dynamicRange: int,
    mute: bool,
    emphasis: bool,
    width: int,
    outWidth: int,
    rate: nat,
    channels: nat)

  /** Output sample width: 20-bit input is stored in 24 bits, the others keep their width. */
  function OutWidthFor(width: int): int
  {
    if width == 20 then 24 else width
  }

  /** What a header word can describe. */
  predicate ValidFields(f: HeaderFields)
  {
    && 0 <= f.dynamicRange < 256
    && f.width in {16, 20, 24}
    && f.outWidth == OutWidthFor(f.width)
    && f.rate in {48000, 96000}
    && 1 <= f.channels <= 8
  }

  /** parse_header: bits 0-7 dynamic range, bits 8-10 channels - 1, bit 12
      rate, bits 14-15 width selector (0b10 24-bit, 0b01 20-bit, otherwise
      16-bit), bit 22 mute, bit 23 emphasis. */
  function ParseHeader(h: nat): (f: HeaderFields)
    requires h < 0x1000000
    ensures ValidFields(f)
    ensures f.outWidth in {16, 24}
  {
    var sel := h / 0x4000 % 4;
    HeaderFields(
      dynamicRange := h % 0x100,
      mute := h / 0x400000 % 2 == 1,
      emphasis := h / 0x800000 % 2 == 1,
      width := if sel == 2 then 24 else if sel == 1 then 20 else 16,
      outWidth := if sel == 2 || sel == 1 then 24 else 16,
      rate := if h / 0x1000 % 2 == 1 then 96000 else 48000,
      channels := h / 0x100 % 8 + 1)
  }

  /** Reference encoder: packs valid fields back into a header word, with
      every bit ParseHeader does not read left at zero. */
  function EncodeHeader(f: HeaderFields): (h: nat)
    requires ValidFields(f)
    ensures h < 0x1000000
  {
    f.dynamicRange
    + (f.channels - 1) * 0x100
    + (if f.rate == 96000 then 0x1000 else 0)
    + (if f.width == 24 then 0x8000 else if f.width == 20 then 0x4000 else 0)
    + (if f.mute then 0x400000 else 0)
    + (if f.emphasis then 0x800000 else 0)
  }

  /** Quotient and remainder are unique. */
  lemma DivModUnique(a: int, d: int, q: int, r: int)
    requires d > 0 && 0 <= r < d && a == q * d + r
    ensures a / d == q && a % d == r
  {
    var k := q - a / d;
    assert k * d == q * d - (a / d) * d;
    assert k * d == a % d - r;
    MulBound(k, d);
  }

  /** A non-zero multiple of d is at least d away from zero. */
  lemma MulBound(k: int, d: int)
    requires d > 0
    ensures k >= 1 ==> k * d >= d
    ensures k <= -1 ==> k * d <= -d
  {
    if k >= 1 {
      assert k * d == (k - 1) * d + d;
      assert (k - 1) * d >= 0;
    } else if k <= -1 {
      assert k * d == (k + 1) * d - d;
      assert (k + 1) * d <= 0;
    }
  }

  /** Decoding an encoded header gives back every field: each field has a
      bit range of its own. */
  lemma ParseEncodeRoundTrip(f: HeaderFields)
    requires ValidFields(f)
    ensures ParseHeader(EncodeHeader(f)) == f
  {
    var h := EncodeHeader(f);
    var c := f.channels - 1;
    var m := if f.mute then 1 else 0;
    var e := if f.emphasis then 1 else 0;
    var rb := if f.rate == 96000 then 1 else 0;
    var sel := if f.width == 24 then 2 else if f.width == 20 then 1 else 0;
    var x := c + 16 * rb + 64 * sel + 0x4000 * m + 0x8000 * e;
    DivModUnique(h, 0x100, x, f.dynamicRange);
    DivModUnique(x, 8, 2 * rb + 8 * sel + 0x800 * m + 0x1000 * e, c);
    DivModUnique(h, 0x1000, rb + 4 * sel + 0x400 * m + 0x800 * e, f.dynamicRange + c * 0x100);
    DivModUnique(rb + 4 * sel + 0x400 * m + 0x800 * e, 2, 2 * sel + 0x200 * m + 0x400 * e, rb);
    DivModUnique(h, 0x4000, sel + 0x100 * m + 0x200 * e, f.dynamicRange + c * 0x100 + rb * 0x1000);
    DivModUnique(sel + 0x100 * m + 0x200 * e, 4, 0x40 * m + 0x80 * e, sel);
    DivModUnique(h, 0x400000, m + 2 * e, h - 0x400000 * (m + 2 * e));
    DivModUnique(m + 2 * e, 2, e, m);
    DivModUnique(h, 0x800000, e, h - 0x800000 * e);
    DivModUnique(e, 2, 0, e);
  }

  /** Every header word decodes to the fields of a canonical word (its
      decoded bits only), and every valid field combination is the decoding
      of some header word. */
  lemma EncodeParseCanonical(h: nat, f: HeaderFields)
    requires h < 0x1000000
    requires ValidFields(f)
    ensures ParseHeader(EncodeHeader(ParseHeader(h))) == ParseHeader(h)
    ensures exists w: nat :: w < 0x1000000 && ParseHeader(w) == f
  {
    ParseEncodeRoundTrip(ParseHeader(h));
    ParseEncodeRoundTrip(f);
  }

  /** The bits of a header word that parse_header reads: bits 0-10
      (dynamic range and channels), bit 12 (rate), the width selector when
      it is 0b01 or 0b10, and bits 22-23 (mute, emphasis). */
  function RelevantBits(h: nat): nat
    requires h < 0x1000000
  {
    var sel := h / 0x4000 % 4;
    h % 0x800 + h / 0x1000 % 2 * 0x1000 + (if sel == 3 then 0 else sel * 0x4000) + h / 0x400000 * 0x400000
  }

  /** Re-encoding the parse of any header word gives back exactly the bits
      parse_header reads: nothing it reads is lost, and bits 11, 13 and
      16-21 and the selector 0b11 are ignored. */
  lemma EncodeParseRelevantBits(h: nat)
    requires h < 0x1000000
    ensures EncodeHeader(ParseHeader(h)) == RelevantBits(h)
  {
    var r1 := h % 0x800;
    var q1 := h / 0x800;
    assert h == 0x800 * q1 + r1;
    DivModUnique(h, 0x100, 8 * q1 + r1 / 0x100, r1 % 0x100);
    DivModUnique(h / 0x100, 8, q1, r1 / 0x100);
    assert r1 == r1 / 0x100 * 0x100 + r1 % 0x100;
    var t := h / 0x400000;
    var low := h % 0x400000;
    assert h == 0x400000 * t + low;
    DivModUnique(h, 0x800000, t / 2, low + t % 2 * 0x400000);
    assert t < 4;
    assert t == 2 * (t / 2) + t % 2;
  }

  /** The unassigned width selector 0b11 falls back to 16-bit. */
  lemma SelectorThreeIs16Bit(h: nat)
    requires h < 0x1000000 && h / 0x4000 % 4 == 3
    ensures ParseHeader(h).width == 16 && ParseHeader(h).outWidth == 16
  {
  }

  /** Bytes 0..1 of a chunk, read big-endian: the first-access offset. */
  function FirstAccess(b: seq<byte>): (n: int)
    requires |b| >= 2
    ensures 0 <= n < 0x10000
  {
    b[0] as int * 0x100 + b[1] as int
  }

  /** Bytes 2..4 of a chunk, read big-endian: the 24-bit header word. */
  function HeaderWord(b: seq<byte>): (h: int)
    requires |b| >= 5
    ensures 0 <= h < 0x1000000
  {
    b[2] as int * 0x10000 + b[3] as int * 0x100 + b[4] as int
  }

  /** Reference encoder for the 5-byte chunk prefix. */
  function ChunkPrefix(firstAccess: nat, h: nat): (b: seq<byte>)
    requires firstAccess < 0x10000 && h < 0x1000000
    ensures |b| == 5
  {
    [(firstAccess / 0x100) as byte, (firstAccess % 0x100) as byte,
     (h / 0x10000) as byte, (h / 0x100 % 0x100) as byte, (h % 0x100) as byte]
  }

  /** Reading an encoded prefix gives back the offset and the header word,
      whatever payload follows. */
  lemma ChunkPrefixRoundTrip(firstAccess: nat, h: nat, payload: seq<byte>)
    requires firstAccess < 0x10000 && h < 0x1000000
    ensures FirstAccess(ChunkPrefix(firstAccess, h) + payload) == firstAccess
    ensures HeaderWord(ChunkPrefix(firstAccess, h) + payload) == h
  {
    var b := ChunkPrefix(firstAccess, h) + payload;
    assert b[..5] == ChunkPrefix(firstAccess, h);
    assert h / 0x100 == h / 0x10000 * 0x100 + h / 0x100 % 0x100;
  }

  /** Two chunks with the same 5-byte prefix values agree on those bytes:
      the big-endian reads lose nothing. */
  lemma PrefixReadsInjective(b: seq<byte>, c: seq<byte>)
    requires |b| >= 5 && |c| >= 5
    requires FirstAccess(b) == FirstAccess(c) && HeaderWord(b) == HeaderWord(c)
    ensures b[..5] == c[..5]
  {
    assert b[0] == c[0] && b[1] == c[1];
    assert b[2] == c[2];
    assert b[3] == c[3] && b[4] == c[4];
  }
}
