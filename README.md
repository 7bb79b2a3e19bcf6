# LWD-OS early kernel: byte-memory primitives and framebuffer plotting

This project is a Dafny model of the C routines in the kernel's entry file, `kernel/src/main.c`, of LWD-OS, a hobby x86-64 kernel started by the Limine boot loader. It has two parts.

- **Freestanding memory primitives.** The compiler may emit calls to `memcpy`, `memset`, `memmove` and `memcmp` in a freestanding kernel, so the kernel defines them itself. Memory is modelled as an `array<uint8>`, where `uint8` is an integer newtype for C's `uint8_t`. `Memory.Memcpy` takes a destination array and a source array. `Memory.Memset` converts its `int` argument with C's `(uint8_t)` cast. `Memory.Memmove` works on one memory array with two offsets, so its ranges can overlap in either direction. `Memory.Memcmp` is an early-exit scan.
- **Framebuffer drawing.** `Display.Framebuffer` is the loader's framebuffer descriptor. It holds the pixel memory as an `array<bv32>` and the `pitch` in bytes. `Display.PlotPixels` stores one pixel at index `x * (pitch / 4) + y`, so `x` is the row and `y` the column. `Display.Putchar` reads one byte of the embedded bitmap font, at offset `headersize + c + cy` with `cy = 0`. It tests bit `7 - cx` of that byte, with `cx = 0`, computed as in C on the byte promoted to `int`, and plots `fg` if the bit is set and `bg` if it is clear.

Each in-place operation is proved against a specification function of the old memory:

- `Copied` for `memcpy`;
- `Filled` for `memset`;
- `Moved` for `memmove`;
- `Compare` for `memcmp`.

Lemmas then prove what those functions mean.

`memmove`'s two loops are modelled as the functions `ForwardCopy` and `BackwardCopy`. Each loop is proved to compute its function step by step. Lemmas then prove:

- `ForwardCopy` is a correct move when `src >= dest`;
- `BackwardCopy` is a correct move when `src <= dest`;
- each loop gives a wrong result on an overlap in the other direction, shown with a concrete three-byte memory.

Integer widths are spelled out in `CTypes`: `int` is `int32`, `unsigned short` is `uint16`, `uint8_t` is `uint8` and `uint64_t` is `uint64`. Every `size_t n` is a `nat`. It is bounded by the lengths of the arrays it indexes, so it never reaches the 64-bit limit. The plot index is computed the way C computes it. The `int` operands are converted to `uint64_t` and the arithmetic wraps modulo 2^64 (`COffset`). `COffsetIsPixelIndex` proves that this equals the plain mathematical index (`PixelIndex`) whenever the addressed pixel lies inside memory.

The functions `Bits32`, `Stride`, `PixelIndex`, `COffset` and `GlyphBit` have no contracts of their own. `Pow2` only promises a positive result, and `Bit`, which reads `GlyphBit` as a 0/1 digit, only promises a digit. The lemmas in the table below state their properties.

Notes on the code:

- `x` is the row. With a 1024-byte pitch, `plotPixels(5, 2, ...)` writes pixel `5 * 256 + 2 = 1282`, and `plotPixels(2, 5, ...)` writes pixel `2 * 256 + 5 = 517` (`PixelIndexExample`).
- `putchar` draws one pixel per call. It has no cursor, no control-character handling and no glyph loop. It reads byte `headersize + c + cy` without scaling `c` by the glyph size.

## Model

| member | source | states |
|---|---|---|
| CTypes.ToUint8 | kernel/src/main.c:56 | `(uint8_t)c` is the low byte of `c`'s two's-complement pattern, and equals `c` when 0 <= c < 256 |
| CTypes.ToUint64 | kernel/src/main.c:109 | an `int` operand converted to `uint64_t` is itself when non-negative and itself plus 2^64 when negative |
| Memory.Copied | kernel/src/main.c:41-50 | after the copy, bytes below `n` are the source's, bytes from `n` on are the destination's, and the length is unchanged |
| Memory.Memcpy | kernel/src/main.c:41-50 | `memcpy` returns `dest`, and its new contents are `Copied(old dest, old src, n)`, also when `dest` and `src` are the same array |
| Memory.Filled | kernel/src/main.c:52-60 | after the fill, bytes below `n` equal the fill byte, the other bytes are unchanged, and the length is the same |
| Memory.Memset | kernel/src/main.c:52-60 | `memset` returns `s`, and its new contents are `Filled(old s, (uint8_t)c, n)` |
| Memory.Moved | kernel/src/main.c:62-77 | after the move, byte `dest + k` holds the original byte `src + k` for every k < n, and every byte outside `[dest, dest + n)` is unchanged |
| Memory.MovedOntoItself | kernel/src/main.c:66-74 | moving a range onto itself (`src == dest`) leaves memory exactly as it was |
| Memory.ForwardCopy | kernel/src/main.c:67-69 | the forward loop as a function of the memory, iterating k = i .. n-1; it preserves the memory's length |
| Memory.BackwardCopy | kernel/src/main.c:71-73 | the backward loop as a function of the memory, iterating k = i .. 1; it preserves the memory's length |
| Memory.ForwardCopyFrom | kernel/src/main.c:66-69 | if `src >= dest` and the first `i` iterations are done, the remaining forward iterations finish the move |
| Memory.ForwardCopyMoves | kernel/src/main.c:66-69 | when `src >= dest`, copying forward from index 0 gives exactly `Moved`, even when the ranges overlap |
| Memory.BackwardCopyFrom | kernel/src/main.c:70-73 | if `src <= dest` and the iterations above `i` are done, the remaining backward iterations finish the move |
| Memory.BackwardCopyMoves | kernel/src/main.c:70-73 | when `src <= dest`, copying backward from index n-1 gives exactly `Moved`, even when the ranges overlap |
| Memory.ForwardCopyFailsBelow | kernel/src/main.c:66-73 | with the source just below an overlapping destination, forward copying gives [1,1,1] where the move gives [1,1,2], so the backward branch is needed |
| Memory.BackwardCopyFailsAbove | kernel/src/main.c:66-73 | with the source just above an overlapping destination, backward copying gives [3,3,3] where the move gives [2,3,3], so the forward branch is needed |
| Memory.Memmove | kernel/src/main.c:62-77 | `memmove` returns `dest`, its new memory is `Moved(old memory, dest, src, n)` in both overlap directions, and memory is unchanged when `src == dest` |
| Memory.Compare | kernel/src/main.c:83-89 | the `memcmp` ordering of two equal-length byte strings is always -1, 0 or 1 |
| Memory.CompareZeroIffEqual | kernel/src/main.c:83-89 | the comparison is 0 if and only if the two byte strings are equal |
| Memory.CompareAtFirstDifference | kernel/src/main.c:83-86 | at the first differing position, the comparison is -1 when the first string's byte is smaller and 1 when it is larger |
| Memory.CompareAntisymmetric | kernel/src/main.c:84-85 | swapping the operands negates the comparison |
| Memory.Memcmp | kernel/src/main.c:79-90 | `memcmp` returns -1, 0 or 1, returns 0 exactly when the first `n` bytes agree, and otherwise the sign comes from the first differing byte, compared unsigned |
| Display.Framebuffer.constructor | kernel/src/main.c:106-107 | a descriptor with the given pixel memory and pitch, whose memory fits in the 64-bit address space |
| Display.COffsetIsPixelIndex | kernel/src/main.c:109 | when the addressed pixel lies in the 64-bit address space, the wrapping `uint64_t` arithmetic of `x * (pitch / 4) + y` equals the mathematical index |
| Display.PixelIndexRowColumn | kernel/src/main.c:109 | for a column `y` inside the stride, dividing the index by `pitch / 4` gives back the row `x`, and the remainder gives back the column `y` |
| Display.PixelIndexInjective | kernel/src/main.c:109 | two distinct row/column positions with in-stride columns never address the same pixel |
| Display.PixelIndexExample | kernel/src/main.c:109 | with a 1024-byte pitch, row 2, column 5 is pixel 517, and row 5, column 2 is pixel 1282 |
| Display.PlotPixels | kernel/src/main.c:106-110 | `plotPixels` writes `pixel` at index `x * (pitch / 4) + y`, and every other pixel is unchanged |
| Display.GlyphBitsSpellRow | kernel/src/main.c:155 | read left to right, with column 0 as the most significant digit, the eight columns `(row >> (7 - cx)) & 1` are exactly the binary digits of the row byte |
| Display.GlyphBitLeftmost | kernel/src/main.c:155 | column 0 (`cx = 0`) is lit exactly when the row byte's most significant bit is set (byte >= 0x80) |
| Display.GlyphBitExample | kernel/src/main.c:155 | the row byte 0b1011_0000 lights columns 0, 2 and 3 and no other |
| Display.GlyphPixel | kernel/src/main.c:152-155 | the colour for glyph column `cx` and row `cy` is always `fg` or `bg`; for column 0 it is `fg` exactly when font byte `headersize + c + cy` has its most significant bit set |
| Display.Putchar | kernel/src/main.c:144-158 | `putchar` writes exactly one pixel, at the `plotPixels(x, y)` index: `fg` if the most significant bit of font byte `headersize + c` is set, else `bg`; no other pixel changes |

## Left out

- `hcf` (kernel/src/main.c:93-98) disables interrupts and executes `hlt` forever. It is inline assembly with no observable result.
- The Limine base-revision request, the framebuffer request, the request start and end markers (kernel/src/main.c:12-33) and `check_for_fb` (kernel/src/main.c:100-104) are not modelled. They are a handshake through structures the loader fills in before entry. A validated `Framebuffer` is simply given to the drawing routines.
- `_start` (kernel/src/main.c:163-182) is not modelled. It is a fixed sequence of calls ending in `hcf`.
- The commented-out glyph loop (kernel/src/main.c:112-140) is not modelled, because it is not compiled.
- `font.h`, `kernel_colors.h` and the linked font asset are not part of this model. The font is an arbitrary byte sequence, with its header size as a parameter rather than read from the header, and the colours are arbitrary `bv32` values.
- `volatile` stores to device memory are modelled as ordinary array writes; ordering and non-elision of stores have no counterpart here.
- Memory.Memcpy: its two operands are whole arrays, either distinct or identical. A partial overlap, which C leaves undefined for `memcpy`, cannot be expressed.
- Memory.Memmove and Memory.Memcmp: a pointer is an offset into one array, or a whole array for `memcmp`. Pointers into unrelated objects, and the ordering of their addresses, are not modelled.
- Display.PlotPixels and Display.Putchar: the C code does no bounds checking, so the pixel index and the font offset being in range are preconditions. Writes outside the array are not modelled.
