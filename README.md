# Pixoo-Max driver core in Dafny

A model of the two cooperating pieces of the Pixoo-Max display driver:

- **The canvas** (`canvas.dfy`, module `Canvas`): the 32×32 pixel buffer held
  as 1024 RGB cells in row-major order, where cell `(x, y)` has index
  `y * 32 + x`. It is a class over an `array<Color>`. `Set` and `Get` are
  bounds-checked, `TraverseByRowAndColumn` is a read-only walk with `y` in the
  outer loop and `x` in the inner one, and `TransformByRowAndColumn` rewrites
  every cell in place. The constructor fills the grid with black through the
  transform, as the source does.
- **The byte buffers** (`byte_buffers.dfy`, module `ByteBuffers`): the
  top-level helpers exported by `src/PixooMax.ts` (lines 3-26), kept in a
  module of their own beside the `PixooMax` class that uses them.
  `UInt16LE` and `UInt8` write values into a zero-filled buffer in a loop.
  `RollingSum16LE` adds up a payload and keeps the low 16 bits, little-endian.
  Each loop is a method proved equal to a pure function (`LE16`, the identity,
  `Checksum16`), and the properties are proved about those functions.
- **The command encoders** (`pixoo_max.dfy`, module `PixooMax`): the
  `PixooMax` class has no fields, so `CreateMessage`, `SetBrightness` and
  `SetStaticImage` are pure functions over byte sequences. `CreateMessage`
  builds the envelope `01 | length:u16LE | payload | checksum:u16LE | 02`.
  `ParseMessage` is its inverse, and the two are proved to round-trip in both
  directions.

`wrappers.dfy` holds the `Option` and `Result` types. A `Failure` stands for
an exception the source throws.

Two behaviours of the code are easy to misread, and the model states them
as the code has them:

- The bounds check rejects only `x < 0 || x > 32` and `y < 0 || y > 32`, so
  the coordinate 32 is accepted, although the grid's columns and rows run
  from 0 to 31. `Set(32, y)` for `y < 31` writes the cell at
  `(0, y + 1)` (`Column32AliasesNextRow`, `SetColumn32ThenGetNextRow`).
  `(32, 31)` and every `(x, 32)` give an index of 1024 or more
  (`AcceptedIndicesPastGrid`).
- The static image's frame-size field is
  `2 + 2 + 1 + 2 + |paletteBuffer| + |screenBuffer|`. It counts itself through
  the end of the screen buffer but not the `0xAA` header byte that starts
  the frame record (`FrameSizeExcludesHeader`).

## Model

| member | source | states |
|---|---|---|
| `Canvas.AssertBounds` | src/Canvas.ts:37-45 | the check passes exactly when `0 <= x <= 32 && 0 <= y <= 32`; `x` is checked first, so a failing `x` is reported even when `y` is also out of range |
| `Canvas.BoundsAcceptCoordinate32` | src/Canvas.ts:37-45 | every grid cell passes, column 32 and row 32 pass too, `(-1, 5)` fails on x and `(5, 33)` fails on y |
| `Canvas.Column32AliasesNextRow` | src/Canvas.ts:37-52 | for `0 <= y < 31`, `(32, y)` passes the check and has the same index as `(0, y + 1)`, which is inside the 1024 cells |
| `Canvas.AcceptedIndicesPastGrid` | src/Canvas.ts:37-52 | among accepted coordinates, the index reaches 1024 or more exactly when `y == 32` or `(x, y) == (32, 31)` |
| `Canvas.VisitsAreRowMajor` | src/Canvas.ts:15-24 | the k-th visit has `0 <= x, y < 32`, `y * 32 + x == k`, index `k` and the color stored in cell `k`; visits are ordered by `y` first and then by `x` |
| `Canvas.Canvas.constructor` | src/Canvas.ts:11-13 | after construction the grid has 1024 cells and every one is `(0, 0, 0)` |
| `Canvas.Canvas.TraverseByRowAndColumn` | src/Canvas.ts:15-24 | the visitor is called once per cell in row-major order, and the state it threads is the left fold over those visits; no cell is written |
| `Canvas.Canvas.TransformByRowAndColumn` | src/Canvas.ts:26-35 | afterwards cell `i` equals `fn(i % 32, i / 32, old cell i, i)`; each call sees its own cell's pre-transform color, and the grid keeps 1024 cells |
| `Canvas.Canvas.Set` | src/Canvas.ts:47-52 | on a failed check it returns that error and changes nothing; otherwise it returns the previous color at `y * 32 + x`, stores the new color there and leaves every other cell unchanged |
| `Canvas.Canvas.Get` | src/Canvas.ts:54-57 | it succeeds exactly when the check passes and then returns the color at `y * 32 + x`; on failure it returns the check's error; it changes nothing |
| `Canvas.SetColumn32ThenGetNextRow` | src/Canvas.ts:47-57 | `Set(32, y, c)` returns the old color of `(0, y + 1)`, and a following `Get(0, y + 1)` returns `c` |
| `ByteBuffers.LE16` | src/PixooMax.ts:3-9 | the buffer for n values has length 2n; byte `2i` is `v_i % 256` and byte `2i + 1` is `v_i / 256` |
| `ByteBuffers.DecodeLE16OfLE16` | src/PixooMax.ts:3-9 | reading the buffer back as little-endian pairs gives the original values |
| `ByteBuffers.LE16OfDecodeLE16` | src/PixooMax.ts:3-9 | every even-length buffer is the encoding of its own decoding, so the encoding is a bijection |
| `ByteBuffers.LE16Single` | src/PixooMax.ts:3-9 | one value is written as exactly the two bytes whose little-endian value it is |
| `ByteBuffers.UInt16LE` | src/PixooMax.ts:3-9 | filling the zero-initialised buffer pair by pair yields exactly `LE16(values)` |
| `ByteBuffers.UInt8` | src/PixooMax.ts:11-17 | the buffer has length n and byte `i` is value `i` |
| `ByteBuffers.Sum` | src/PixooMax.ts:20-23 | the byte sum of n bytes is at most `255 * n` |
| `ByteBuffers.SumAppend` | src/PixooMax.ts:20-23 | the sum of a concatenation is the sum of the sums |
| `ByteBuffers.SumPermutation` | src/PixooMax.ts:20-23 | two payloads with the same multiset of bytes have the same sum |
| `ByteBuffers.Checksum16` | src/PixooMax.ts:19-26 | the checksum is 2 bytes whose little-endian value is the byte sum mod 65536 |
| `ByteBuffers.Checksum16Empty` | src/PixooMax.ts:19-26 | the empty payload has checksum `[0, 0]` |
| `ByteBuffers.Checksum16Permutation` | src/PixooMax.ts:19-26 | reordering the payload does not change the checksum |
| `ByteBuffers.RollingSum16LE` | src/PixooMax.ts:19-26 | accumulating the bytes and masking to 16 bits yields exactly `Checksum16(payload)` |
| `PixooMax.CreateMessage` | src/PixooMax.ts:76-83 | for a payload of n bytes the message has `n + 6` bytes; it starts with `0x01` and ends with `0x02`; the length field reads `n + 2`; bytes `3 .. n + 3` are the payload; the checksum field is the 16-bit sum of the length bytes and the payload, without the markers |
| `PixooMax.ParseMessage` | src/PixooMax.ts:76-83 | a message that parses is 6 bytes longer than its payload |
| `PixooMax.ParseCreateMessage` | src/PixooMax.ts:76-83 | every message built from parts parses back to the concatenation of the parts |
| `PixooMax.CreateParseMessage` | src/PixooMax.ts:76-83 | every byte sequence that parses is exactly the message built from its payload |
| `PixooMax.SetBrightness` | src/PixooMax.ts:31-42 | it fails exactly when `b < 0` or `b > 100`; otherwise the message carries payload `[0x74, b]` and is `01 04 00 74 b (0x78+b) 00 02` |
| `PixooMax.Brightness100` | src/PixooMax.ts:31-42 | brightness 100 gives `01 04 00 74 64 DC 00 02` |
| `PixooMax.SetStaticImage` | src/PixooMax.ts:44-83 | the message parses to payload `44 00 0A 0A 04 AA`, then frameSize as u16LE, `00 00`, `03`, the palette count as u16LE, the palette bytes and the screen bytes; its length field is `frameSize + 8` |
| `PixooMax.StaticImagePayload` | src/PixooMax.ts:44-73 | concatenating the nine parts gives exactly that layout, with frameSize 7 plus the lengths of the palette bytes and the screen bytes |
| `PixooMax.FrameSizeExcludesHeader` | src/PixooMax.ts:54-61 | the frame record from the `0xAA` header to the end of the payload is `frameSize + 1` bytes long, so frameSize does not count the header |

## Left out

- Canvas.Canvas.Set: requires that an index the check accepts lies inside the 1024 cells. For `(x, 32)` and `(32, 31)` the JavaScript array grows past 1024 entries. That growth is not modelled, because the grid is a fixed 1024-cell array.
- Canvas.Canvas.Get: the same requires as `Set`. In JavaScript, reading one of those indices returns `undefined`, unless an earlier `set` wrote that index, in which case it returns the color written there. Transform and traverse never touch those entries, so a written one persists.
- Canvas.Canvas.TraverseByRowAndColumn: the visitor is a pure function that threads a state value. Arbitrary side effects of a JavaScript callback, including writes to the canvas during the walk, are not modelled.
- Canvas.Canvas.TransformByRowAndColumn: the mapper is a pure function of its four arguments. A mapper that reads other cells of the canvas while the transform runs is not modelled.
- Canvas.Canvas.constructor: the source starts from an empty array and lets the transform fill it. The model allocates 1024 cells first and then transforms them. Because the mapper ignores its color argument, the result is the same.
- `Color` is an immutable value. In the source an RGB color is a mutable JavaScript array: `set` stores the caller's own array, `get` and the traversal hand out the stored array, and a mapper that returns one shared array makes every cell the same object. Sharing a stored color array, and mutating it later so that the canvas changes without a `set`, are not modelled.
- `Color` channels are unbounded integers. The source declares them as `number` and never checks their range.
- `Canvas.toImageData`, which `setStaticImage` calls, is not part of this model. Its body is not available. `SetStaticImage` takes its result (palette, palette bytes, screen bytes) as an `ImageData` value, and no palette deduplication or bit packing is assumed.
- ByteBuffers.UInt16LE, ByteBuffers.UInt8: Node's `writeUInt16LE`/`writeUInt8` throw on values out of range. Here that range is the element type (`uint16`, `byte`), so the throw is not modelled.
- PixooMax.CreateMessage: requires `payload length + 2 < 65536`. Past that, `writeUInt16LE` would throw on the length field.
- PixooMax.SetStaticImage: requires a palette count and a length field (`frameSize + 8`) that fit in 16 bits. Past that, `writeUInt16LE` would throw.
- Non-integer and NaN arguments (JavaScript `number` quirks) are not modelled. Coordinates, brightness and bytes are integers.
- Error message strings and the unused `crypto` import of the canvas file are not modelled.
- `index.ts` is not part of this model. It is a serial-port script, and its checksum and envelope code repeat `rollingSum16LE` and `createMessage`.
- Animation chunking and the `0x49` command are not modelled. No code for them exists in the modelled files.
