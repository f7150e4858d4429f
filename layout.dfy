/** The byte layout the `Bitmap` writer of grad.py produces, as functions of
    the width, the height and the pixel map: the size of the pixel block
    (`bmp_size`), the 14-byte file header (`_bmp_header`), the 40-byte DIB
    header (`_dib_header`) and the pixel block itself (`_bmp`), together with
    a reader that parses a written file back.

    The layout is the one the code writes, not the one the Windows bitmap
    format asks for: a row is padded with (3 * width) % 4 zero bytes, the file
    size field holds bmp_size + 34. Rows go out from y = 0 upward under a
    positive height, which is the bottom-up order the format expects for
    grad.py's y axis, where y = 0 is the bottom. The lemmas at the end state
    each of these. */
module Layout {
  import opened Struct
  import opened Wrappers

  /** The colour passed to `set_pixel`: (red, green, blue). `set_pixel` does
      not check it, so the channels are unbounded here. */
  datatype Rgb = Rgb(red: int, green: int, blue: int)

  /** The pixel store of grad.py:15: the colours stored so far, by (x, y). Nothing
      bounds the keys. */
  type Pixels = map<(int, int), Rgb>

  /** Why serialising the pixel block stops: indexing a pixel that was never
      set (the default entry is the integer 0, which cannot be indexed), or a
      channel that the unsigned-byte packing rejects. */
  datatype EncodeError = UnsetPixel(x: int, y: int) | ChannelOutOfRange(x: int, y: int)

  /** Size of the file header plus the DIB header: where the pixels start. */
  const HeadersSize: nat := 54

  const PixelsPerMeter: int := 2835

  /** A value one 'B' field accepts. */
  predicate IsChannel(c: int) {
    0 <= c < 256
  }

  predicate InRange(p: Rgb) {
    IsChannel(p.red) && IsChannel(p.green) && IsChannel(p.blue)
  }

  /** The pixel at (x, y) has been set to a colour the packer accepts. */
  predicate Good(pixels: Pixels, x: int, y: int) {
    (x, y) in pixels && InRange(pixels[(x, y)])
  }

  /** Every pixel of the grid is Good: what serialisation needs. */
  predicate Encodable(pixels: Pixels, width: int, height: int) {
    forall x, y :: 0 <= x < width && 0 <= y < height ==> Good(pixels, x, y)
  }

  /** The error raised at a pixel that is not Good. */
  function ErrorAt(pixels: Pixels, x: int, y: int): (r: EncodeError)
    ensures r.x == x && r.y == y
    ensures r.UnsetPixel? <==> (x, y) !in pixels
  {
    if (x, y) !in pixels then UnsetPixel(x, y) else ChannelOutOfRange(x, y)
  }

  /** Pad bytes after each row, as written: (3 * width) % 4. */
  function Pad(width: nat): (r: nat)
    ensures r < 4
  {
    (3 * width) % 4
  }

  /** Bytes per row: the colour bytes and their pad, fewer than four. */
  function Stride(width: nat): (r: nat)
    ensures 3 * width <= r < 3 * width + 4
    ensures r == 0 <==> width == 0
  {
    3 * width + Pad(width)
  }

  /** `bmp_size`: the size of the pixel block. */
  function BmpSize(width: nat, height: nat): (r: nat)
    ensures r == 0 <==> width == 0 || height == 0
    ensures height > 0 ==> Stride(width) <= r
  {
    AtLeastOneRow(Stride(width), height);
    Stride(width) * height
  }

  /** Where the bytes of pixel (x, y) start inside the pixel block. */
  function Offset(width: nat, x: nat, y: nat): nat {
    y * Stride(width) + 3 * x
  }

  /** The dimensions this model accepts: non-negative, and small enough that
      every header field fits its 'i' field. */
  predicate ValidDims(width: int, height: int) {
    0 <= width && 0 <= height && IsInt32(width) && IsInt32(height)
    && IsInt32(BmpSize(width, height) + 34)
  }

  /** `_bmp_header` (grad.py:23-29): the magic "BM", the file size field
      (bmp_size + 34), four zero bytes, then the pixel data offset 54. */
  function FileHeader(width: int, height: int): (r: seq<Byte>)
    requires ValidDims(width, height)
    ensures |r| == 14
    ensures r[..2] == [0x42, 0x4D]
  {
    [0x42, 0x4D] + PackInt32(BmpSize(width, height) + 34) + PadBytes(4) + PackInt32(HeadersSize)
  }

  /** `_dib_header` (grad.py:31-44): header size 40, the width, the
      height, one plane and 24 bits per pixel as 16-bit fields, no
      compression, the image size bmp_size, 2835 pixels per metre in both
      directions, and zero palette and important colours. */
  function DibHeader(width: int, height: int): (r: seq<Byte>)
    requires ValidDims(width, height)
    ensures |r| == 40
  {
    PackInt32(40) + PackInt32(width) + PackInt32(height)
    + PackInt16(1) + PackInt16(24)
    + PackInt32(0) + PackInt32(BmpSize(width, height))
    + PackInt32(PixelsPerMeter) + PackInt32(PixelsPerMeter)
    + PackInt32(0) + PackInt32(0)
  }

  /** The three bytes of a colour in the order they are written: blue, green, red. */
  function Bgr(p: Rgb): (r: seq<Byte>)
    requires InRange(p)
    ensures |r| == 3
    ensures Colour(r, 0) == p
  {
    [p.blue, p.green, p.red]
  }

  /** Packing one stored pixel as three unsigned bytes, blue first
      (grad.py:51-54); fails when it was never set or a channel is not a byte. */
  function PackPixel(pixels: Pixels, x: int, y: int): (r: Result<seq<Byte>, EncodeError>)
    ensures r.Success? ==> |r.value| == 3
  {
    if Good(pixels, x, y) then Success(Bgr(pixels[(x, y)])) else Failure(ErrorAt(pixels, x, y))
  }

  /** The bytes appended for x = 0 .. n - 1 of row y, or the error of the
      first pixel that cannot be packed. */
  function EncodeRow(pixels: Pixels, y: int, n: nat): (r: Result<seq<Byte>, EncodeError>)
    ensures r.Success? ==> |r.value| == 3 * n
  {
    if n == 0 then Success([])
    else
      match EncodeRow(pixels, y, n - 1)
      case Failure(e) => Failure(e)
      case Success(s) =>
        match PackPixel(pixels, n - 1, y)
        case Failure(e) => Failure(e)
        case Success(p) => Success(s + p)
  }

  /** The bytes appended for rows y = 0 .. rows - 1, each row followed by its
      pad, or the error of the first pixel that cannot be packed. */
  function EncodeRows(pixels: Pixels, width: nat, rows: nat): (r: Result<seq<Byte>, EncodeError>)
    ensures r.Success? ==> |r.value| == rows * Stride(width)
  {
    if rows == 0 then Success([])
    else
      match EncodeRows(pixels, width, rows - 1)
      case Failure(e) => Failure(e)
      case Success(s) =>
        match EncodeRow(pixels, rows - 1, width)
        case Failure(e) => Failure(e)
        case Success(row) => Success(s + row + PadBytes(Pad(width)))
  }

  /** `_bmp`: the pixel block of a width x height bitmap. */
  function PixelData(pixels: Pixels, width: nat, height: nat): (r: Result<seq<Byte>, EncodeError>)
    ensures r.Success? ==> |r.value| == BmpSize(width, height)
  {
    EncodeRows(pixels, width, height)
  }

  /** The whole file `flush` writes when serialisation succeeds. */
  function Image(pixels: Pixels, width: int, height: int): (r: Result<seq<Byte>, EncodeError>)
    requires ValidDims(width, height)
    ensures r.Success? ==> |r.value| == HeadersSize + BmpSize(width, height)
  {
    match PixelData(pixels, width, height)
    case Failure(e) => Failure(e)
    case Success(data) => Success(FileHeader(width, height) + DibHeader(width, height) + data)
  }

  // ---------------------------------------------------------------------
  // A reader for what was written
  // ---------------------------------------------------------------------

  /** Every field of the two headers, decoded. */
  datatype Headers = Headers(
    fileSize: int, reserved: seq<Byte>, dataOffset: int,
    dibSize: int, width: int, height: int, planes: int, bitCount: int,
    compression: int, imageSize: int, xPelsPerMeter: int, yPelsPerMeter: int,
    colorsUsed: int, colorsImportant: int)

  /** Parses the 54 header bytes of a file; None when the file is shorter or
      does not start with "BM". */
  function ParseHeaders(file: seq<Byte>): Option<Headers> {
    if |file| < 54 || file[..2] != [0x42, 0x4D] then None
    else
      Some(Headers(
        UnpackInt32(file[2..6]), file[6..10], UnpackInt32(file[10..14]),
        UnpackInt32(file[14..18]), UnpackInt32(file[18..22]), UnpackInt32(file[22..26]),
        UnpackInt16(file[26..28]), UnpackInt16(file[28..30]),
        UnpackInt32(file[30..34]), UnpackInt32(file[34..38]),
        UnpackInt32(file[38..42]), UnpackInt32(file[42..46]),
        UnpackInt32(file[46..50]), UnpackInt32(file[50..54])))
  }

  /** The headers the writer declares for a width x height bitmap. */
  function Declared(width: nat, height: nat): Headers {
    Headers(BmpSize(width, height) + 34, [0, 0, 0, 0], HeadersSize,
            40, width, height, 1, 24, 0, BmpSize(width, height),
            PixelsPerMeter, PixelsPerMeter, 0, 0)
  }

  /** The colour whose blue, green and red bytes start at offset o. */
  function Colour(bytes: seq<Byte>, o: nat): Rgb
    requires o + 3 <= |bytes|
  {
    Rgb(bytes[o + 2], bytes[o + 1], bytes[o])
  }

  /** Reads pixel (x, y) of a written file back. */
  function ReadPixel(file: seq<Byte>, width: nat, x: nat, y: nat): Rgb
    requires HeadersSize + Offset(width, x, y) + 3 <= |file|
  {
    Colour(file, HeadersSize + Offset(width, x, y))
  }

  // ---------------------------------------------------------------------
  // Serialising a row
  // ---------------------------------------------------------------------

  /** Once a row has failed, packing more of it changes nothing: the
      exception leaves the loop. */
  lemma {:induction false} RowFailurePersists(pixels: Pixels, y: int, n: nat, m: nat)
    requires n <= m && EncodeRow(pixels, y, n).Failure?
    ensures EncodeRow(pixels, y, m) == EncodeRow(pixels, y, n)
    decreases m
  {
    if n < m {
      RowFailurePersists(pixels, y, n, m - 1);
    }
  }

  /** A serialised row holds, for every x, the colour of (x, y) in blue,
      green, red order at offset 3 * x. */
  lemma {:induction false} RowLayout(pixels: Pixels, y: int, n: nat)
    requires EncodeRow(pixels, y, n).Success?
    ensures forall x :: 0 <= x < n ==>
      Good(pixels, x, y) && Colour(EncodeRow(pixels, y, n).value, 3 * x) == pixels[(x, y)]
  {
    if n > 0 {
      var s := EncodeRow(pixels, y, n - 1).value;
      var row := EncodeRow(pixels, y, n).value;
      RowLayout(pixels, y, n - 1);
      assert row == s + Bgr(pixels[(n - 1, y)]);
      forall x | 0 <= x < n
        ensures Good(pixels, x, y) && Colour(row, 3 * x) == pixels[(x, y)]
      {
        if x < n - 1 {
          assert Colour(s, 3 * x) == pixels[(x, y)];
          assert row[3 * x..3 * x + 3] == s[3 * x..3 * x + 3];
        }
      }
    }
  }

  /** A row serialises exactly when every one of its pixels is Good. */
  lemma {:induction false} RowSucceedsIff(pixels: Pixels, y: int, n: nat)
    ensures EncodeRow(pixels, y, n).Success? <==> forall x :: 0 <= x < n ==> Good(pixels, x, y)
  {
    if EncodeRow(pixels, y, n).Success? {
      RowLayout(pixels, y, n);
    } else if n > 0 {
      RowSucceedsIff(pixels, y, n - 1);
    }
  }

  /** A failed row names its first pixel that is not Good, with the error
      that pixel raises. */
  lemma {:induction false} RowFailure(pixels: Pixels, y: int, n: nat)
    requires EncodeRow(pixels, y, n).Failure?
    ensures var e := EncodeRow(pixels, y, n).error;
      && e == ErrorAt(pixels, e.x, y) && 0 <= e.x < n && !Good(pixels, e.x, y)
      && forall x :: 0 <= x < e.x ==> Good(pixels, x, y)
  {
    if EncodeRow(pixels, y, n - 1).Failure? {
      RowFailure(pixels, y, n - 1);
    } else {
      RowSucceedsIff(pixels, y, n - 1);
    }
  }

  // ---------------------------------------------------------------------
  // Serialising the pixel block
  // ---------------------------------------------------------------------

  lemma {:induction false} RowsFailurePersists(pixels: Pixels, width: nat, n: nat, m: nat)
    requires n <= m && EncodeRows(pixels, width, n).Failure?
    ensures EncodeRows(pixels, width, m) == EncodeRows(pixels, width, n)
    decreases m
  {
    if n < m {
      RowsFailurePersists(pixels, width, n, m - 1);
    }
  }

  /** The pixel block: pixel (x, y) is at Offset(width, x, y), in blue,
      green, red order. */
  lemma PixelDataLayout(pixels: Pixels, width: nat, height: nat)
    requires PixelData(pixels, width, height).Success?
    ensures var data := PixelData(pixels, width, height).value;
      forall x, y :: 0 <= x < width && 0 <= y < height ==>
        && Good(pixels, x, y) && Offset(width, x, y) + 3 <= |data|
        && Colour(data, Offset(width, x, y)) == pixels[(x, y)]
  {
    forall x, y | 0 <= x < width && 0 <= y < height {
      PixelAt(pixels, width, height, x, y);
    }
  }

  /** Pixel (x, y) in the first rows rows of the pixel block. */
  lemma {:induction false} PixelAt(pixels: Pixels, width: nat, rows: nat, x: nat, y: nat)
    requires EncodeRows(pixels, width, rows).Success? && x < width && y < rows
    ensures var data := EncodeRows(pixels, width, rows).value;
      && Good(pixels, x, y) && Offset(width, x, y) + 3 <= |data|
      && Colour(data, Offset(width, x, y)) == pixels[(x, y)]
    decreases rows
  {
    var data := EncodeRows(pixels, width, rows).value;
    var s := EncodeRows(pixels, width, rows - 1).value;
    var row := EncodeRow(pixels, rows - 1, width).value;
    assert data == s + row + PadBytes(Pad(width));
    var o := Offset(width, x, y);
    if y < rows - 1 {
      PixelAt(pixels, width, rows - 1, x, y);
      OffsetInRow(width, x, y, rows - 1);
      assert data[o] == s[o] && data[o + 1] == s[o + 1] && data[o + 2] == s[o + 2];
    } else {
      RowLayout(pixels, y, width);
      assert o == |s| + 3 * x;
      assert Colour(row, 3 * x) == pixels[(x, y)];
      assert data[o] == row[3 * x] && data[o + 1] == row[3 * x + 1] && data[o + 2] == row[3 * x + 2];
    }
  }

  /** Every row of the pixel block ends in Pad(width) zero bytes, right after
      its 3 * width colour bytes. */
  lemma PixelDataPadding(pixels: Pixels, width: nat, height: nat)
    requires PixelData(pixels, width, height).Success?
    ensures var data := PixelData(pixels, width, height).value;
      forall y :: 0 <= y < height ==>
        && Offset(width, width, y) + Pad(width) <= |data|
        && data[Offset(width, width, y)..Offset(width, width, y) + Pad(width)] == PadBytes(Pad(width))
  {
    forall y | 0 <= y < height {
      PadAt(pixels, width, height, y);
    }
  }

  /** The pad of row y in the first rows rows of the pixel block. */
  lemma {:induction false} PadAt(pixels: Pixels, width: nat, rows: nat, y: nat)
    requires EncodeRows(pixels, width, rows).Success? && y < rows
    ensures var data := EncodeRows(pixels, width, rows).value;
      && Offset(width, width, y) + Pad(width) <= |data|
      && data[Offset(width, width, y)..Offset(width, width, y) + Pad(width)] == PadBytes(Pad(width))
    decreases rows
  {
    var data := EncodeRows(pixels, width, rows).value;
    var s := EncodeRows(pixels, width, rows - 1).value;
    var row := EncodeRow(pixels, rows - 1, width).value;
    assert data == s + row + PadBytes(Pad(width));
    var o := Offset(width, width, y);
    if y < rows - 1 {
      PadAt(pixels, width, rows - 1, y);
      OffsetInRow(width, width, y, rows - 1);
      assert data[o..o + Pad(width)] == s[o..o + Pad(width)];
    } else {
      assert o == |s| + |row|;
      assert data[o..o + Pad(width)] == PadBytes(Pad(width));
    }
  }

  /** A byte range of row y < rows ends inside the first rows rows. */
  lemma OffsetInRow(width: nat, x: nat, y: nat, rows: nat)
    requires x <= width && y < rows
    ensures Offset(width, x, y) + Pad(width) <= rows * Stride(width)
    ensures x < width ==> Offset(width, x, y) + 3 <= rows * Stride(width)
  {
    assert (y + 1) * Stride(width) <= rows * Stride(width) by {
      MulMono(y + 1, rows, Stride(width));
    }
  }

  /** A positive number of rows holds at least one row. */
  lemma AtLeastOneRow(stride: nat, rows: nat)
    ensures rows > 0 ==> stride <= stride * rows
  {
    if rows > 0 {
      MulMono(1, rows, stride);
    }
  }

  lemma MulMono(a: nat, b: nat, c: nat)
    requires a <= b
    ensures a * c <= b * c
  {
  }

  /** The pixel block serialises exactly when every pixel of the grid is Good. */
  lemma {:induction false} PixelDataSucceedsIff(pixels: Pixels, width: nat, height: nat)
    ensures PixelData(pixels, width, height).Success? <==> Encodable(pixels, width, height)
  {
    if height > 0 {
      PixelDataSucceedsIff(pixels, width, height - 1);
      RowSucceedsIff(pixels, height - 1, width);
      if Encodable(pixels, width, height) {
        assert Encodable(pixels, width, height - 1);
        var last := height - 1;
        assert forall x :: 0 <= x < width ==> Good(pixels, x, last);
      } else if EncodeRows(pixels, width, height - 1).Success? {
        var x, y :| 0 <= x < width && 0 <= y < height && !Good(pixels, x, y);
      }
    }
  }

  /** A pixel block that fails names the first pixel, rows first and x
      within a row, that is not Good, with the error that pixel raises. */
  lemma {:induction false} PixelDataFailure(pixels: Pixels, width: nat, height: nat)
    requires PixelData(pixels, width, height).Failure?
    ensures var e := PixelData(pixels, width, height).error;
      && e == ErrorAt(pixels, e.x, e.y)
      && 0 <= e.x < width && 0 <= e.y < height && !Good(pixels, e.x, e.y)
      && (forall x :: 0 <= x < e.x ==> Good(pixels, x, e.y))
      && (forall x, y :: 0 <= x < width && 0 <= y < e.y ==> Good(pixels, x, y))
  {
    if EncodeRows(pixels, width, height - 1).Failure? {
      PixelDataFailure(pixels, width, height - 1);
    } else {
      PixelDataSucceedsIff(pixels, width, height - 1);
      RowFailure(pixels, height - 1, width);
    }
  }

  // ---------------------------------------------------------------------
  // Reading the file back
  // ---------------------------------------------------------------------

  /** The reader recovers every header field the writer packed. */
  lemma HeadersRoundTrip(width: int, height: int, rest: seq<Byte>)
    requires ValidDims(width, height)
    ensures ParseHeaders(FileHeader(width, height) + DibHeader(width, height) + rest)
         == Some(Declared(width, height))
  {
    var size := BmpSize(width, height);
    var f := FileHeader(width, height) + DibHeader(width, height) + rest;
    assert f[..14] == FileHeader(width, height);
    assert f[14..54] == DibHeader(width, height);
    FileHeaderFields(width, height, f);
    DibHeaderFields(width, height, f);
    Int32RoundTrip(size + 34);
    Int32RoundTrip(HeadersSize);
    Int32RoundTrip(40);
    Int32RoundTrip(width);
    Int32RoundTrip(height);
    Int16RoundTrip(1);
    Int16RoundTrip(24);
    Int32RoundTrip(0);
    Int32RoundTrip(size);
    Int32RoundTrip(PixelsPerMeter);
  }

  /** Where each field of the file header lies in a file that starts with it. */
  lemma FileHeaderFields(width: int, height: int, f: seq<Byte>)
    requires ValidDims(width, height) && |f| >= 14 && f[..14] == FileHeader(width, height)
    ensures f[..2] == [0x42, 0x4D]
    ensures f[2..6] == PackInt32(BmpSize(width, height) + 34)
    ensures f[6..10] == [0, 0, 0, 0]
    ensures f[10..14] == PackInt32(HeadersSize)
  {
    var h := FileHeader(width, height);
    assert f[2..6] == h[2..6];
    assert f[6..10] == h[6..10];
    assert f[10..14] == h[10..14];
  }

  /** Where each field of the DIB header lies in a file that has it at byte 14. */
  lemma DibHeaderFields(width: int, height: int, f: seq<Byte>)
    requires ValidDims(width, height) && |f| >= 54 && f[14..54] == DibHeader(width, height)
    ensures f[14..18] == PackInt32(40)
    ensures f[18..22] == PackInt32(width)
    ensures f[22..26] == PackInt32(height)
    ensures f[26..28] == PackInt16(1)
    ensures f[28..30] == PackInt16(24)
    ensures f[30..34] == PackInt32(0)
    ensures f[34..38] == PackInt32(BmpSize(width, height))
    ensures f[38..42] == PackInt32(PixelsPerMeter)
    ensures f[42..46] == PackInt32(PixelsPerMeter)
    ensures f[46..50] == PackInt32(0)
    ensures f[50..54] == PackInt32(0)
  {
    var size := BmpSize(width, height);
    var d1 := PackInt32(40) + PackInt32(width);
    var d2 := d1 + PackInt32(height);
    var d3 := d2 + PackInt16(1);
    var d4 := d3 + PackInt16(24);
    var d5 := d4 + PackInt32(0);
    var d6 := d5 + PackInt32(size);
    var d7 := d6 + PackInt32(PixelsPerMeter);
    var d8 := d7 + PackInt32(PixelsPerMeter);
    var d9 := d8 + PackInt32(0);
    assert f[14..54] == d9 + PackInt32(0);
    SplitAt(f, 14, d9, PackInt32(0));
    SplitAt(f, 14, d8, PackInt32(0));
    SplitAt(f, 14, d7, PackInt32(PixelsPerMeter));
    SplitAt(f, 14, d6, PackInt32(PixelsPerMeter));
    SplitAt(f, 14, d5, PackInt32(size));
    SplitAt(f, 14, d4, PackInt32(0));
    SplitAt(f, 14, d3, PackInt16(24));
    SplitAt(f, 14, d2, PackInt16(1));
    SplitAt(f, 14, d1, PackInt32(height));
    SplitAt(f, 14, PackInt32(40), PackInt32(width));
  }

  /** Bytes o .. o + |a| + |b| of f holding a then b: a is at o, b right after it. */
  lemma SplitAt(f: seq<Byte>, o: nat, a: seq<Byte>, b: seq<Byte>)
    requires o + |a| + |b| <= |f| && f[o..o + |a| + |b|] == a + b
    ensures f[o..o + |a|] == a
    ensures f[o + |a|..o + |a| + |b|] == b
  {
    assert f[o..o + |a|] == (a + b)[..|a|];
    assert f[o + |a|..o + |a| + |b|] == (a + b)[|a|..];
  }

  /** Reading a written file back gives the declared headers and every pixel
      of the grid as it was set. */
  lemma ImageRoundTrip(pixels: Pixels, width: int, height: int)
    requires ValidDims(width, height) && Image(pixels, width, height).Success?
    ensures var file := Image(pixels, width, height).value;
      && |file| == HeadersSize + BmpSize(width, height)
      && ParseHeaders(file) == Some(Declared(width, height))
      && forall x, y :: 0 <= x < width && 0 <= y < height ==>
           && Good(pixels, x, y) && HeadersSize + Offset(width, x, y) + 3 <= |file|
           && ReadPixel(file, width, x, y) == pixels[(x, y)]
  {
    HeadersRoundTrip(width, height, PixelData(pixels, width, height).value);
    forall x, y | 0 <= x < width && 0 <= y < height {
      ReadBackAt(pixels, width, height, x, y);
    }
  }

  /** One pixel of a written file, read back. */
  lemma ReadBackAt(pixels: Pixels, width: nat, height: nat, x: nat, y: nat)
    requires ValidDims(width, height) && Image(pixels, width, height).Success?
    requires x < width && y < height
    ensures var file := Image(pixels, width, height).value;
      && Good(pixels, x, y) && HeadersSize + Offset(width, x, y) + 3 <= |file|
      && ReadPixel(file, width, x, y) == pixels[(x, y)]
  {
    var data := PixelData(pixels, width, height).value;
    var file := Image(pixels, width, height).value;
    assert file == FileHeader(width, height) + DibHeader(width, height) + data;
    PixelAt(pixels, width, height, x, y);
    var o := Offset(width, x, y);
    assert file[HeadersSize + o] == data[o];
    assert file[HeadersSize + o + 1] == data[o + 1];
    assert file[HeadersSize + o + 2] == data[o + 2];
  }

  // ---------------------------------------------------------------------
  // Where the written layout departs from the Windows bitmap format
  // ---------------------------------------------------------------------

  /** The pad the Windows format asks for: up to the next multiple of four. */
  function AlignedPad(width: nat): (r: nat)
    ensures r < 4
  {
    (4 - (3 * width) % 4) % 4
  }

  /** The written pad agrees with the aligned pad, and rows are a multiple
      of four bytes long, exactly when the width is even; a width of one
      gives six-byte rows. */
  lemma PadAlignedIffEvenWidth(width: nat)
    ensures Pad(width) == AlignedPad(width) <==> width % 2 == 0
    ensures Stride(width) % 4 == 0 <==> width % 2 == 0
    ensures width == 1 ==> Stride(width) == 6
  {
    var p := Pad(width);
    PadByWidthMod4(width);
    ParityByMod4(width);
    StrideMod4(width);
    assert AlignedPad(width) == (4 - p) % 4;
    assert p == 0 || p == 2 <==> width % 2 == 0;
  }

  /** The written pad, by the width modulo four. */
  lemma PadByWidthMod4(width: nat)
    ensures var m := width % 4;
      Pad(width) == (if m == 0 then 0 else if m == 1 then 3 else if m == 2 then 2 else 1)
  {
    var k, m := width / 4, width % 4;
    assert width == 4 * k + m;
    if m == 0 {
      assert 3 * width == 4 * (3 * k);
    } else if m == 1 {
      assert 3 * width == 4 * (3 * k) + 3;
    } else if m == 2 {
      assert 3 * width == 4 * (3 * k + 1) + 2;
    } else {
      assert 3 * width == 4 * (3 * k + 2) + 1;
    }
  }

  /** The width is even exactly when it is 0 or 2 modulo four. */
  lemma ParityByMod4(width: nat)
    ensures width % 2 == 0 <==> width % 4 == 0 || width % 4 == 2
  {
    var q, m := width / 4, width % 4;
    if m < 2 {
      assert width == 2 * (2 * q) + m;
      assert width % 2 == m;
    } else {
      assert width == 2 * (2 * q + 1) + (m - 2);
      assert width % 2 == m - 2;
    }
  }

  lemma StrideMod4(width: nat)
    ensures Stride(width) % 4 == (2 * Pad(width)) % 4
  {
    var q, p := (3 * width) / 4, Pad(width);
    assert Stride(width) == 4 * q + 2 * p;
  }

  /** The file size field declares 20 bytes fewer than the file holds. */
  lemma DeclaredFileSizeShort(pixels: Pixels, width: int, height: int)
    requires ValidDims(width, height) && Image(pixels, width, height).Success?
    ensures ParseHeaders(Image(pixels, width, height).value).Some?
    ensures ParseHeaders(Image(pixels, width, height).value).value.fileSize
         == |Image(pixels, width, height).value| - 20
  {
    ImageRoundTrip(pixels, width, height);
  }

  /** Bytes per row in the Windows format. */
  function AlignedStride(width: nat): nat {
    3 * width + AlignedPad(width)
  }

  /** A reader that follows the Windows convention: rows are AlignedPad
      padded, and with a positive height the first stored row is the bottom
      one, so displayed row r (counted from the top) is stored row
      height - 1 - r. */
  function WindowsOffset(width: nat, height: nat, x: nat, r: nat): nat
    requires r < height
  {
    var stored: nat := height - 1 - r;
    stored * AlignedStride(width) + 3 * x
  }

  /** Rows are written from y = 0 upward under a positive height, so such a
      reader shows y = 0 as the bottom row: on displayed row r, counted from
      the top, it finds pixel (x, height - 1 - r). This matches grad.py's
      orientation, where y grows upward. Only even widths are stated, where
      the two row lengths agree. */
  lemma WindowsReaderBottomUp(pixels: Pixels, width: nat, height: nat, x: nat, r: nat)
    requires ValidDims(width, height) && Image(pixels, width, height).Success?
    requires width % 2 == 0 && x < width && r < height
    ensures var file := Image(pixels, width, height).value;
      && Good(pixels, x, height - 1 - r)
      && HeadersSize + WindowsOffset(width, height, x, r) + 3 <= |file|
      && Colour(file, HeadersSize + WindowsOffset(width, height, x, r)) == pixels[(x, height - 1 - r)]
  {
    var file := Image(pixels, width, height).value;
    var y := height - 1 - r;
    assert AlignedStride(width) == Stride(width) by {
      PadAlignedIffEvenWidth(width);
    }
    assert WindowsOffset(width, height, x, r) == Offset(width, x, y);
    ReadBackAt(pixels, width, height, x, y);
  }

  // ---------------------------------------------------------------------
  // Small bitmaps
  // ---------------------------------------------------------------------

  /** A 2 x 1 bitmap of a red then a green pixel: two blue-green-red
      triples, then (3 * 2) % 4 = 2 pad bytes. */
  lemma TwoByOneExample()
    ensures PixelData(map[(0, 0) := Rgb(255, 0, 0), (1, 0) := Rgb(0, 255, 0)], 2, 1)
         == Success([0, 0, 255, 0, 255, 0, 0, 0])
  {
    var pixels := map[(0, 0) := Rgb(255, 0, 0), (1, 0) := Rgb(0, 255, 0)];
    assert Good(pixels, 0, 0) && Good(pixels, 1, 0);
    assert PackPixel(pixels, 0, 0) == Success([0, 0, 255]);
    assert PackPixel(pixels, 1, 0) == Success([0, 255, 0]);
    assert EncodeRow(pixels, 0, 0) == Success([]);
    assert EncodeRow(pixels, 0, 1) == Success([] + [0, 0, 255]);
    assert [] + [0, 0, 255] == [0, 0, 255];
    assert EncodeRow(pixels, 0, 2) == Success([0, 0, 255] + [0, 255, 0]);
    assert EncodeRows(pixels, 2, 0) == Success([]);
    assert PadBytes(Pad(2)) == [0, 0];
    assert EncodeRows(pixels, 2, 1) == Success([] + ([0, 0, 255] + [0, 255, 0]) + [0, 0]);
    assert [] + ([0, 0, 255] + [0, 255, 0]) + [0, 0] == [0, 0, 255, 0, 255, 0, 0, 0];
  }

  /** A 1 x 1 bitmap is written as 54 header bytes and one 6-byte row:
      3 colour bytes and (3 * 1) % 4 = 3 pad bytes. */
  lemma OneByOneExample(c: Rgb)
    requires InRange(c)
    ensures Image(map[(0, 0) := c], 1, 1).Success?
    ensures |Image(map[(0, 0) := c], 1, 1).value| == 60
  {
    var pixels := map[(0, 0) := c];
    assert ValidDims(1, 1);
    assert Good(pixels, 0, 0);
    assert EncodeRow(pixels, 0, 0) == Success([]);
    assert EncodeRow(pixels, 0, 1) == Success([] + Bgr(c));
    assert EncodeRows(pixels, 1, 1).Success?;
  }
}
