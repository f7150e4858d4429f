# bmp-gradient: the 24-bit bitmap writer, in Dafny

The repository draws a four-corner colour gradient and saves it as a Windows
bitmap. Its one real piece of logic is the `Bitmap` class of `grad.py`. A
`Bitmap` is created with a width and a height, collects colours through
`set_pixel`, and on `flush` writes three blocks in this order:

- a 14-byte file header (`_bmp_header`);
- a 40-byte DIB header (`_dib_header`);
- the pixel rows (`_bmp`), whose length is `bmp_size`.

Beside it sits `blend`, the averaging helper the gradient uses for each
colour channel.

This project models that writer and proves what it produces, byte for byte:

- `struct.dfy`, module `Struct`: the `struct` packing the writer uses. 'i'
  and 'h' are packed little-endian in two's complement, 'x' is a zero byte.
  The 'i' and 'h' packers each have an unpacker, and each pair is proved
  inverse in both directions.
- `layout.dfy`, module `Layout`: the bytes as pure functions of the width,
  the height and the pixel map: `BmpSize`, `FileHeader`, `DibHeader`,
  `PixelData` (what `_bmp` returns) and `Image` (what `flush` writes). It
  also holds a reader (`ParseHeaders`, `ReadPixel`) and the lemmas that
  reading a written file gives back the declared headers and every pixel.
- `grad.dfy`, module `Grad`: the class `Bitmap`. Its `width` and `height`
  are fixed at construction and its `pixels` map is updated in place by
  `SetPixel`. `Bmp` builds the pixel block with the nested `for y` /
  `for x` loops of `_bmp` and is proved equal to `PixelData`. `Flush`
  returns the bytes in the order `flush` writes them. The module also
  holds `Blend` and its bounds.
- `wrappers.dfy`, module `Wrappers`: `Option` and `Result`.

## Behaviour as written

The model follows the code, including where the code departs from the
Windows bitmap format. Each such place is named below, followed by the row
order, which looks like a departure but is not one.

- **Row padding.** Each row gets `(3 * width) % 4` zero bytes
  (grad.py:21, grad.py:55). It does not get the pad up to the next multiple
  of four. Rows are 4-byte aligned exactly when the width is even, and a
  width of 1 gives 6-byte rows (`Layout.PadAlignedIffEvenWidth`). The
  Windows bitmap format pads each row to a multiple of four bytes.
- **File size field.** The header declares `bmp_size + 34` (grad.py:27).
  The file holds `54 + bmp_size` bytes, so the field is 20 short
  (`Layout.DeclaredFileSizeShort`). In the Windows bitmap format this field
  counts the whole file, `bmp_size + 54` here.
- **Row order is not a departure.** The height is written positive
  (grad.py:36) and the rows go out from y = 0 upward (grad.py:49). A reader
  that follows the Windows convention therefore shows y = 0 as the bottom
  row (`Layout.WindowsReaderBottomUp`). That matches grad.py, whose y axis
  points up: the lower-left weight peaks at y = 0 and the upper-left weight
  at y = height (grad.py:98-100). The image looks flipped only next to a
  top-down view with y = 0 at the top.
- **Unset pixels and bad channels.** `set_pixel` checks nothing
  (grad.py:68). Reading a pixel that was never set yields the integer 0,
  and indexing it raises. A channel outside [0, 255] makes
  `struct.pack('3B', ...)` raise. The model returns these as the errors
  `UnsetPixel` and `ChannelOutOfRange` of the first such pixel in write
  order. Both headers have already been written by then (grad.py:72-74), so
  `Flush` returns them together with the error. The docstring of
  `set_pixel` (grad.py:63-66) asks for x in [0, width) and channels in
  [0, 255], but nothing enforces it.

## Model

| member | source | states |
|---|---|---|
| Struct.PackInt32 | grad.py:25-29 | an 'i' field is four bytes, and its top byte is below 0x80 exactly when the value is non-negative |
| Struct.Int32RoundTrip | grad.py:33-44 | unpacking a packed 'i' field gives back the value |
| Struct.Int32Unpacked | grad.py:33-44 | every four bytes are the packing of the value they unpack to, so 'i' packing is a bijection on the int32 range |
| Struct.PackInt16 | grad.py:37-38 | an 'h' field is two bytes, and its top byte is below 0x80 exactly when the value is non-negative |
| Struct.Int16RoundTrip | grad.py:37-38 | unpacking a packed 'h' field gives back the value |
| Struct.Int16Unpacked | grad.py:37-38 | every two bytes are the packing of the value they unpack to |
| Struct.PadBytes | grad.py:55 | "%sx" packs exactly n bytes, all zero |
| Layout.Pad | grad.py:55 | the pad written after each row, (3 * width) % 4, is fewer than four bytes |
| Layout.PadByWidthMod4 | grad.py:55 | the pad is 0, 3, 2 or 1 bytes for widths 0, 1, 2 or 3 modulo four |
| Layout.Stride | grad.py:20-21 | a row holds its 3 * width colour bytes plus fewer than four pad bytes, and is empty exactly when the width is 0 |
| Layout.BmpSize | grad.py:17-21 | `bmp_size`, (3 * width + (3 * width) % 4) * height, is 0 exactly when the width or the height is 0, and otherwise at least one row long |
| Layout.FileHeader | grad.py:23-29 | the file header is 14 bytes and starts with "BM" |
| Layout.DibHeader | grad.py:31-44 | the DIB header is 40 bytes |
| Layout.Bgr | grad.py:51-54 | a colour is written as three bytes, blue, green, red, which a reader at offset 0 turns back into the colour |
| Layout.ErrorAt | grad.py:51-54 | the error at a bad pixel names that pixel, and is UnsetPixel (the TypeError of indexing the default 0) exactly when it was never set, otherwise ChannelOutOfRange (the `struct.error` of the byte packing) |
| Layout.HeadersRoundTrip | grad.py:23-44 | the reader finds, in order, file size bmp_size + 34, four zero reserved bytes, offset 54, header size 40, the width, the height, planes 1, 24 bits per pixel, compression 0, image size bmp_size, 2835 and 2835 pixels per metre, 0 and 0 colours |
| Layout.FileHeaderFields | grad.py:23-29 | in a file that starts with the file header, "BM" is at byte 0, the file size at 2, four zero bytes at 6 and the data offset at 10 |
| Layout.DibHeaderFields | grad.py:31-44 | in a file with the DIB header at byte 14, each of its eleven fields lies at its fixed offset, 'i' fields in four bytes and 'h' fields in two |
| Layout.PackPixel | grad.py:51-54 | packing one pixel gives three bytes when it succeeds |
| Layout.EncodeRow | grad.py:50-54 | a row of n pixels that packs is 3 * n bytes |
| Layout.EncodeRows | grad.py:49-55 | the first `rows` rows that pack are rows * (3 * width + (3 * width) % 4) bytes |
| Layout.PixelData | grad.py:46-58 | a pixel block that packs is exactly bmp_size bytes, the assertion at grad.py:57 |
| Layout.Image | grad.py:70-74 | a complete file is 54 + bmp_size bytes |
| Layout.RowFailurePersists | grad.py:50-54 | once a pixel of a row raises, the rest of the row is not packed and the error is unchanged |
| Layout.RowLayout | grad.py:50-54 | in a packed row, pixel x is at offset 3 * x as blue, green, red |
| Layout.RowSucceedsIff | grad.py:50-54 | a row packs exactly when each of its pixels is set and in range |
| Layout.RowFailure | grad.py:50-54 | a row that fails reports its first bad pixel, with UnsetPixel when it was never set and ChannelOutOfRange otherwise |
| Layout.RowsFailurePersists | grad.py:49-55 | once a row raises, later rows are not packed and the error is unchanged |
| Layout.PixelDataLayout | grad.py:49-54 | in the pixel block, pixel (x, y) is at y * stride + 3 * x as blue, green, red, for every pixel of the grid |
| Layout.PixelAt | grad.py:49-54 | after `rows` rows, pixel (x, y) of any row y < rows is set, in range, and stored at y * stride + 3 * x as blue, green, red |
| Layout.PixelDataPadding | grad.py:55 | every row ends in (3 * width) % 4 zero bytes, right after its 3 * width colour bytes |
| Layout.PadAt | grad.py:55 | after `rows` rows, row y < rows ends in (3 * width) % 4 zero bytes |
| Layout.PixelDataSucceedsIff | grad.py:49-54 | the pixel block is produced exactly when every pixel of the grid is set and in range |
| Layout.PixelDataFailure | grad.py:49-54 | a failure names the first bad pixel in write order (rows from y = 0, then x), with the error it raises; every earlier pixel is good |
| Layout.ImageRoundTrip | grad.py:70-74 | reading a written file back gives its length 54 + bmp_size, the declared headers, and every pixel exactly as set |
| Layout.ReadBackAt | grad.py:70-74 | one pixel (x, y) of a written file reads back as the colour set there |
| Layout.PadAlignedIffEvenWidth | grad.py:18-21 | the written pad equals the pad to a 4-byte boundary, and rows are a multiple of 4 bytes, exactly when the width is even; width 1 gives 6-byte rows |
| Layout.DeclaredFileSizeShort | grad.py:27 | the declared file size is the written length minus 20 |
| Layout.WindowsReaderBottomUp | grad.py:36-49 | with a positive height and rows written from y = 0, a Windows-convention reader shows pixel (x, height - 1 - r) on displayed row r counted from the top, so y = 0 is the bottom row (even widths) |
| Layout.TwoByOneExample | grad.py:49-55 | a 2 x 1 bitmap of red then green gives the pixel bytes 00 00 FF 00 FF 00 00 00 |
| Layout.OneByOneExample | grad.py:18-21 | a 1 x 1 bitmap is written as 60 bytes |
| Grad.Bitmap.constructor | grad.py:10-15 | a new bitmap has the given width and height and no pixels |
| Grad.Bitmap.SetPixel | grad.py:60-68 | (x, y) now maps to rgb, and every other entry of the map is unchanged |
| Grad.Bitmap.Bmp | grad.py:46-58 | the nested loops return PixelData: the pixel block when every grid pixel is set and in range, and then it is bmp_size bytes; otherwise the error of the first bad pixel |
| Grad.Bitmap.Flush | grad.py:70-75 | the output is the file header, then the DIB header, then the pixel block; it is Image, 54 + bmp_size bytes, when the pixels pack; otherwise only the 54 header bytes and the pixel error |
| Grad.FailsAt | grad.py:49-54 | a pixel that is not good, reached after every earlier pixel packed, is the error of the whole pixel block |
| Grad.SetPixelReadBack | grad.py:60-68 | after set_pixel(x, y, rgb) the written file reads back rgb at (x, y) and the earlier colour at every other pixel |
| Grad.Positives | grad.py:82 | the filter keeps exactly the positive arguments, each as many times as it occurs |
| Grad.SumPositive | grad.py:86 | `sum` of a non-empty sequence of positive values is positive |
| Grad.Mean | grad.py:86 | the true-division mean of positive values is positive, so `int()` truncation equals the floor |
| Grad.Blend | grad.py:78-86 | blend is 0 when no argument is positive |
| Grad.SumBetween | grad.py:86 | n values that lie in [lo, hi] sum to between n * lo and n * hi |
| Grad.MeanWithin | grad.py:86 | the mean `sum(args) / len(args)` of values in [lo, hi] lies in [lo, hi] |
| Grad.PositivesWithin | grad.py:82 | every argument the filter keeps satisfies the bounds given for the positive arguments |
| Grad.PositivesMeanBetween | grad.py:86 | the mean of the positive arguments lies between any bounds on them |
| Grad.BlendBetween | grad.py:78-86 | with a positive argument, blend lies between the floor of their minimum and their maximum, and is never negative |
| Grad.BlendIsChannel | grad.py:78-86 | when no argument exceeds 255, blend is in [0, 255], the range set_pixel documents at grad.py:65-66 |
| Grad.BlendExamples | grad.py:78-86 | blend(100, -5, 50) is 75, blend(-1, -2) is 0, and blend(9, 9, 1) is 6 |

## Left out

- File I/O is not modelled. The source's `Bitmap` subclasses the Python 2 `file` type and opens, writes, flushes and closes a file on disk (grad.py:7, grad.py:11, grad.py:72-75). `Flush` returns the bytes handed to `write`, in order.
- The `__main__` gradient composition (grad.py:88-123) is left out. It is floating-point presentation code with no stated contract.
- Reading an unset pixel through the `defaultdict` also inserts a default entry into `self.pixels` (grad.py:15, grad.py:52). The model does not record that insertion. It only reports the error that indexing the default raises.
- The '=' byte order is native in the source. The model fixes it as little-endian.
- Grad.Bitmap.constructor: requires non-negative dimensions whose header fields fit a signed 32-bit 'i'. The source accepts any width and height. With a field too large for 'i', `flush` fails with `struct.error`. With a negative width or height and the other dimension non-zero, the pixel block's length differs from `bmp_size` (for width -1 and height 1, `_bmp` writes one pad byte while `bmp_size` is -2), so the assertion at grad.py:57 fails. When the other dimension is 0, `bmp_size` is 0 and the source writes a 54-byte file declaring the negative dimension; the model excludes that case too.
- Layout.FileHeader: requires the same dimensions, so the `struct.error` the source raises on an overflowing field is not modelled as an error path.
- Layout.DibHeader: requires the same dimensions, for the same reason.
- Layout.WindowsReaderBottomUp: stated for even widths only. For odd widths a Windows reader also disagrees on the row length (see Layout.PadAlignedIffEvenWidth).
- A colour is modelled as an integer triple. The source takes any Python object, and the `IndexError` of a tuple shorter than three is not modelled.
- Blend is modelled over exact reals, with `int()` as the floor, which equals truncation because the mean of positive numbers is positive. Floating-point rounding in the sum and the division is not modelled.
