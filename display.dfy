/** The linear framebuffer and the two routines that draw into it:
    `plotPixels`, which stores one 32-bit pixel at a row/column position,
    and `putchar`, which samples one bit of a character's glyph in the
    embedded bitmap font and plots the matching colour. */
module Display {
  import opened CTypes

  // ---------------------------------------------------------------------
  // Pixel addressing

  /** The framebuffer handed over by the boot loader: its pixel memory,
      seen as 32-bit pixels, and its pitch, the number of bytes from the
      start of one scanline to the start of the next. */
  class Framebuffer {
    const address: array<bv32>
    const pitch: uint64

    /** The pixel memory lies within the 64-bit address space. */
    predicate Valid()
    {
      address.Length * 4 <= TWO_POW_64
    }

    constructor (address: array<bv32>, pitch: uint64)
      requires address.Length * 4 <= TWO_POW_64
      ensures this.address == address && this.pitch == pitch && Valid()
    {
      this.address := address;
      this.pitch := pitch;
    }
  }

  /** The number of 32-bit pixels from one scanline to the next. */
  function Stride(pitch: uint64): nat
  {
    pitch as int / 4
  }

  /** The pixel `plotPixels(x, y, ...)` addresses, as a signed offset from
      the start of the pixel memory: `x` is the row, scaled by the stride,
      and `y` the column. */
  function PixelIndex(x: int32, y: int32, pitch: uint64): int
  {
    x as int * Stride(pitch) + y as int
  }

  /** The offset the C expression `x * (fb->pitch / 4) + y` evaluates to:
      both `int` operands are converted to `uint64_t` and the arithmetic
      wraps modulo 2^64. */
  function COffset(x: int32, y: int32, pitch: uint64): (u: uint64)
  {
    ((ToUint64(x) as int * Stride(pitch) + ToUint64(y) as int) % TWO_POW_64) as uint64
  }

  /** Adding whole multiples of 2^64 does not change a residue. */
  lemma {:induction false} ModAddMultiple(a: int, k: nat)
    requires 0 <= a < TWO_POW_64
    ensures (a + TWO_POW_64 * k) % TWO_POW_64 == a
    decreases k
  {
    if k > 0 {
      ModAddMultiple(a, k - 1);
      assert a + TWO_POW_64 * k == (a + TWO_POW_64 * (k - 1)) + TWO_POW_64;
    }
  }

  /** Whenever the pixel addressed lies in the 64-bit address space, the
      wrapping C arithmetic yields exactly `PixelIndex`. */
  lemma COffsetIsPixelIndex(x: int32, y: int32, pitch: uint64)
    requires 0 <= PixelIndex(x, y, pitch) < TWO_POW_64
    ensures COffset(x, y, pitch) as int == PixelIndex(x, y, pitch)
  {
    var s := Stride(pitch);
    var kx: nat := if x < 0 then s else 0;
    var ky: nat := if y < 0 then 1 else 0;
    assert ToUint64(x) as int * s == x as int * s + TWO_POW_64 * kx by {
      if x < 0 {
        assert ToUint64(x) as int == x as int + TWO_POW_64;
      }
    }
    assert ToUint64(x) as int * s + ToUint64(y) as int
        == PixelIndex(x, y, pitch) + TWO_POW_64 * (kx + ky);
    ModAddMultiple(PixelIndex(x, y, pitch), kx + ky);
  }

  /** A multiple `d * s` of a positive `s` with `d >= 1` is at least `s`. */
  lemma {:induction false} MulAtLeast(d: nat, s: nat)
    requires d >= 1
    ensures d * s >= s
    decreases d
  {
    if d > 1 {
      MulAtLeast(d - 1, s);
      assert d * s == (d - 1) * s + s;
    }
  }

  /** Euclidean division recovers quotient and remainder from q * s + r. */
  lemma DivModOfSum(q: int, r: int, s: int)
    requires s > 0 && 0 <= r < s
    ensures (q * s + r) / s == q && (q * s + r) % s == r
  {
    var p := q * s + r;
    var q', r' := p / s, p % s;
    assert p == q' * s + r';
    assert (q' - q) * s == r - r';
    if q' > q {
      MulAtLeast(q' - q, s);
    } else if q' < q {
      MulAtLeast(q - q', s);
    }
  }

  /** Row-major addressing: within a row (0 <= y < stride) the index
      determines the row `x` and the column `y`. */
  lemma PixelIndexRowColumn(x: int32, y: int32, pitch: uint64)
    requires 0 <= y as int < Stride(pitch)
    ensures PixelIndex(x, y, pitch) / Stride(pitch) == x as int
    ensures PixelIndex(x, y, pitch) % Stride(pitch) == y as int
  {
    DivModOfSum(x as int, y as int, Stride(pitch));
  }

  /** Two in-row positions address the same pixel only if they are the
      same position. */
  lemma PixelIndexInjective(x1: int32, y1: int32, x2: int32, y2: int32, pitch: uint64)
    requires 0 <= y1 as int < Stride(pitch) && 0 <= y2 as int < Stride(pitch)
    requires PixelIndex(x1, y1, pitch) == PixelIndex(x2, y2, pitch)
    ensures x1 == x2 && y1 == y2
  {
    PixelIndexRowColumn(x1, y1, pitch);
    PixelIndexRowColumn(x2, y2, pitch);
  }

  /** With a pitch of 1024 bytes (256 pixels per scanline), row 2, column 5
      is pixel 517, and row 5, column 2 is pixel 1282. */
  lemma PixelIndexExample()
    ensures Stride(1024) == 256
    ensures PixelIndex(2, 5, 1024) == 517
    ensures PixelIndex(5, 2, 1024) == 1282
  {
  }

  /** `plotPixels(x, y, pixel, fb)`: stores `pixel` at row `x`, column `y`
      of the framebuffer and nowhere else.  There is no bounds check: the
      caller must keep the position inside the pixel memory. */
  method PlotPixels(x: int32, y: int32, pixel: bv32, fb: Framebuffer)
    requires fb.Valid()
    requires 0 <= PixelIndex(x, y, fb.pitch) < fb.address.Length
    modifies fb.address
    ensures fb.address[PixelIndex(x, y, fb.pitch)] == pixel
    ensures forall j :: 0 <= j < fb.address.Length && j != PixelIndex(x, y, fb.pitch)
                        ==> fb.address[j] == old(fb.address[j])
  {
    COffsetIsPixelIndex(x, y, fb.pitch);
    var offset := COffset(x, y, fb.pitch);
    fb.address[offset] := pixel;
  }

  // ---------------------------------------------------------------------
  // Glyph sampling

  /** 2 to the power `k`. */
  function Pow2(k: nat): (p: nat)
    ensures p >= 1
  {
    if k == 0 then 1 else 2 * Pow2(k - 1)
  }

  /** Whether column `cx` of a glyph row is lit: `(row >> (7 - cx)) & 1` on
      the row byte promoted to `int`, that is, bit `7 - cx` of the byte, so
      column 0 is the most significant bit. */
  function GlyphBit(row: uint8, cx: nat): bool
    requires cx < 8
  {
    (row as int / Pow2(7 - cx)) % 2 == 1
  }

  /** Column `cx` of `row` as the digit 0 or 1. */
  function Bit(row: uint8, cx: nat): (d: nat)
    requires cx < 8
    ensures d <= 1
  {
    if GlyphBit(row, cx) then 1 else 0
  }

  /** A byte is the sum of its eight binary digits, weighted by position. */
  lemma BinaryDigits(n: int)
    requires 0 <= n < 256
    ensures n == 128 * (n / 128 % 2) + 64 * (n / 64 % 2) + 32 * (n / 32 % 2) + 16 * (n / 16 % 2)
               + 8 * (n / 8 % 2) + 4 * (n / 4 % 2) + 2 * (n / 2 % 2) + n % 2
  {
    assert n / 128 == (n / 64) / 2;
    assert n / 64 == (n / 32) / 2;
    assert n / 32 == (n / 16) / 2;
    assert n / 16 == (n / 8) / 2;
    assert n / 8 == (n / 4) / 2;
    assert n / 4 == (n / 2) / 2;
  }

  /** The eight columns of a glyph row, read left to right as binary
      digits with column 0 the most significant, spell the row byte back. */
  lemma GlyphBitsSpellRow(row: uint8)
    ensures row as int == 128 * Bit(row, 0) + 64 * Bit(row, 1) + 32 * Bit(row, 2) + 16 * Bit(row, 3)
                        + 8 * Bit(row, 4) + 4 * Bit(row, 5) + 2 * Bit(row, 6) + Bit(row, 7)
  {
    var n := row as int;
    assert Bit(row, 0) == n / 128 % 2 by { assert Pow2(7) == 128; }
    assert Bit(row, 1) == n / 64 % 2 by { assert Pow2(6) == 64; }
    assert Bit(row, 2) == n / 32 % 2 by { assert Pow2(5) == 32; }
    assert Bit(row, 3) == n / 16 % 2 by { assert Pow2(4) == 16; }
    assert Bit(row, 4) == n / 8 % 2 by { assert Pow2(3) == 8; }
    assert Bit(row, 5) == n / 4 % 2 by { assert Pow2(2) == 4; }
    assert Bit(row, 6) == n / 2 % 2 by { assert Pow2(1) == 2; }
    assert Bit(row, 7) == n % 2 by { assert Pow2(0) == 1; }
    BinaryDigits(n);
  }

  /** Column 0 is lit exactly when the row byte is at least 0x80, its most
      significant bit. */
  lemma GlyphBitLeftmost(row: uint8)
    ensures GlyphBit(row, 0) <==> row >= 0x80
  {
    assert Pow2(7) == 128;
  }

  /** The row pattern 0b1011_0000 lights columns 0, 2 and 3 and no other. */
  lemma GlyphBitExample()
    ensures GlyphBit(0xB0, 0) && !GlyphBit(0xB0, 1) && GlyphBit(0xB0, 2) && GlyphBit(0xB0, 3)
    ensures !GlyphBit(0xB0, 4) && !GlyphBit(0xB0, 5) && !GlyphBit(0xB0, 6) && !GlyphBit(0xB0, 7)
  {
  }

  /** The colour `putchar` picks for column `cx` of row `cy` of the glyph of
      character `c`: the font's glyph table starts `headersize` bytes into
      the font, and the row byte is read at offset `c + cy` within it; the
      colour is `fg` when that column is lit and `bg` when it is not. */
  function GlyphPixel(font: seq<uint8>, headersize: nat, c: uint16, cx: nat, cy: nat, fg: bv32, bg: bv32): (p: bv32)
    requires cx < 8 && headersize + c as int + cy < |font|
    ensures p == fg || p == bg
    ensures cx == 0 ==> p == if font[headersize + c as int + cy] >= 0x80 then fg else bg
  {
    GlyphBitLeftmost(font[headersize + c as int + cy]);
    if GlyphBit(font[headersize + c as int + cy], cx) then fg else bg
  }

  /** `putchar(c, x, y, fg, bg, fb)` with the embedded font given as
      `font` and its header size as `headersize`: samples column 0 of
      row 0 of the glyph of `c`, that is, the most significant bit of font
      byte `headersize + c`, and plots `fg` at row `x`, column `y` if it is
      set and `bg` if it is not.  Exactly one pixel changes. */
  method Putchar(c: uint16, x: int32, y: int32, fg: bv32, bg: bv32, fb: Framebuffer,
                 font: seq<uint8>, headersize: nat)
    requires fb.Valid()
    requires headersize + c as int < |font|
    requires 0 <= PixelIndex(x, y, fb.pitch) < fb.address.Length
    modifies fb.address
    ensures fb.address[PixelIndex(x, y, fb.pitch)]
            == if font[headersize + c as int] >= 0x80 then fg else bg
    ensures forall j :: 0 <= j < fb.address.Length && j != PixelIndex(x, y, fb.pitch)
                        ==> fb.address[j] == old(fb.address[j])
  {
    var cy: nat := 0;
    var cx: nat := 0;
    var pixel := GlyphPixel(font, headersize, c, cx, cy, fg, bg);
    PlotPixels(x, y, pixel, fb);
  }
}
