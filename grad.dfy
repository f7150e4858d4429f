/** The `Bitmap` writer of grad.py and its `blend` helper.

    A `Bitmap` holds its width and height, fixed at construction, and the
    pixels set so far. `Bmp` serialises the pixel block with the two nested
    loops of `_bmp`; `Flush` returns the bytes `flush` hands to the file,
    in the order it writes them. The byte layout they produce is specified
    by the functions of module Layout. */
module Grad {
  import opened Struct
  import opened Wrappers
  import opened Layout

  class Bitmap {
    const width: int
    const height: int
    /** The colours stored so far, by (x, y). */
    var pixels: Pixels

    /** The dimensions the headers can hold. */
    predicate Valid() {
      ValidDims(width, height)
    }

    /** `Bitmap(fname, width, height)`, without the file it opens. */
    constructor (width: int, height: int)
      requires ValidDims(width, height)
      ensures Valid()
      ensures this.width == width && this.height == height
      ensures pixels == map[]
    {
      this.width := width;
      this.height := height;
      pixels := map[];
    }

    /** `set_pixel`: stores rgb at (x, y), with no check of the coordinates
        or of the channels. */
    method SetPixel(x: int, y: int, rgb: Rgb)
      modifies this
      ensures pixels == old(pixels)[(x, y) := rgb]
    {
      pixels := pixels[(x, y) := rgb];
    }

    /** `_bmp`: for y = 0 .. height - 1, for x = 0 .. width - 1, append the
        blue, green and red bytes of (x, y); after each row append its pad.
        Stops at the first pixel that was never set or whose channels do not
        fit a byte. */
    method Bmp() returns (res: Result<seq<Byte>, EncodeError>)
      requires Valid()
      ensures res == PixelData(pixels, width, height)
      ensures res.Success? <==> Encodable(pixels, width, height)
      ensures res.Success? ==> |res.value| == BmpSize(width, height)
    {
      PixelDataSucceedsIff(pixels, width, height);
      var b: seq<Byte> := [];
      var y := 0;
      while y < height
        invariant 0 <= y <= height
        invariant EncodeRows(pixels, width, y) == Success(b)
      {
        ghost var before := b;
        var x := 0;
        while x < width
          invariant 0 <= x <= width
          invariant EncodeRow(pixels, y, x).Success?
          invariant b == before + EncodeRow(pixels, y, x).value
        {
          if (x, y) !in pixels {
            FailsAt(pixels, width, height, x, y);
            return Failure(UnsetPixel(x, y));
          }
          var p := pixels[(x, y)];
          if !InRange(p) {
            FailsAt(pixels, width, height, x, y);
            return Failure(ChannelOutOfRange(x, y));
          }
          b := b + [p.blue, p.green, p.red];
          x := x + 1;
        }
        b := b + PadBytes(Pad(width));
        y := y + 1;
      }
      assert |b| == BmpSize(width, height);
      res := Success(b);
    }

    /** `flush`: the file header, then the DIB header, then the pixel block.
        Both headers are written before the pixel block is built, so when
        building it fails they are all that was written. */
    method Flush() returns (written: seq<Byte>, error: Option<EncodeError>)
      requires Valid()
      ensures |written| >= HeadersSize
      ensures written[..14] == FileHeader(width, height)
      ensures written[14..HeadersSize] == DibHeader(width, height)
      ensures error.None? <==> Encodable(pixels, width, height)
      ensures error.None? ==> Image(pixels, width, height) == Success(written)
      ensures error.None? ==> |written| == HeadersSize + BmpSize(width, height)
      ensures error.Some? ==> |written| == HeadersSize && PixelData(pixels, width, height) == Failure(error.value)
    {
      written := FileHeader(width, height);
      written := written + DibHeader(width, height);
      var data := Bmp();
      match data
      case Failure(e) =>
        error := Some(e);
      case Success(d) =>
        written := written + d;
        error := None;
    }
  }

  /** The pixel block fails at (x, y) when every earlier pixel was packed and
      (x, y) is not Good. */
  lemma FailsAt(pixels: Pixels, width: nat, height: nat, x: nat, y: nat)
    requires x < width && y < height
    requires EncodeRows(pixels, width, y).Success? && EncodeRow(pixels, y, x).Success?
    requires !Good(pixels, x, y)
    ensures PixelData(pixels, width, height) == Failure(ErrorAt(pixels, x, y))
  {
    assert EncodeRow(pixels, y, x + 1) == Failure(ErrorAt(pixels, x, y));
    RowFailurePersists(pixels, y, x + 1, width);
    assert EncodeRows(pixels, width, y + 1) == Failure(ErrorAt(pixels, x, y));
    RowsFailurePersists(pixels, width, y + 1, height);
  }

  /** What a pixel written after `set_pixel(x, y, rgb)` reads back as: rgb at
      (x, y), and the earlier colour everywhere else in the grid. */
  lemma SetPixelReadBack(pixels: Pixels, width: int, height: int, x: int, y: int, rgb: Rgb)
    requires ValidDims(width, height) && 0 <= x < width && 0 <= y < height
    requires Image(pixels[(x, y) := rgb], width, height).Success?
    ensures var file := Image(pixels[(x, y) := rgb], width, height).value;
      && HeadersSize + Offset(width, x, y) + 3 <= |file|
      && ReadPixel(file, width, x, y) == rgb
      && forall x', y' :: 0 <= x' < width && 0 <= y' < height && (x', y') != (x, y) ==>
           && Good(pixels, x', y') && HeadersSize + Offset(width, x', y') + 3 <= |file|
           && ReadPixel(file, width, x', y') == pixels[(x', y')]
  {
    var after := pixels[(x, y) := rgb];
    ImageRoundTrip(after, width, height);
    forall x', y' | 0 <= x' < width && 0 <= y' < height && (x', y') != (x, y)
      ensures Good(pixels, x', y')
    {
      assert Good(after, x', y');
    }
  }

  // ---------------------------------------------------------------------
  // blend
  // ---------------------------------------------------------------------

  /** The filter of grad.py:82: the positive arguments, in order, each as
      often as it occurs in args. */
  function Positives(args: seq<real>): (r: seq<real>)
    ensures |r| <= |args|
    ensures forall v :: v in r <==> v in args && v > 0.0
    ensures forall v :: multiset(r)[v] == if v > 0.0 then multiset(args)[v] else 0
  {
    if args == [] then []
    else
      assert args == [args[0]] + args[1..];
      if args[0] > 0.0 then [args[0]] + Positives(args[1..])
      else Positives(args[1..])
  }

  /** Every element of s is positive. */
  predicate AllPositive(s: seq<real>) {
    forall i :: 0 <= i < |s| ==> s[i] > 0.0
  }

  /** The sum of grad.py:86. */
  function Sum(s: seq<real>): real {
    if s == [] then 0.0 else s[0] + Sum(s[1..])
  }

  /** A non-empty sum of positive values is positive. */
  lemma {:induction false} SumPositive(s: seq<real>)
    ensures s != [] && AllPositive(s) ==> Sum(s) > 0.0
  {
    if |s| > 1 && AllPositive(s) {
      assert AllPositive(s[1..]) by {
        forall i | 0 <= i < |s| - 1
          ensures s[1..][i] > 0.0
        {
          assert s[1..][i] == s[i + 1];
        }
      }
      SumPositive(s[1..]);
    }
  }

  /** The mean of grad.py:86, with true division; positive when every
      term is, so `int()` truncating it is its floor. */
  function Mean(s: seq<real>): (r: real)
    requires s != []
    ensures AllPositive(s) ==> r > 0.0
  {
    SumPositive(s);
    Sum(s) / |s| as real
  }

  /** `blend(*args)`: 0 when no argument is positive, otherwise the mean of
      the positive ones, truncated toward zero (the floor, since the mean is
      positive). */
  function Blend(args: seq<real>): (r: int)
    ensures Positives(args) == [] ==> r == 0
  {
    var p := Positives(args);
    if p == [] then 0 else Mean(p).Floor
  }

  /** Every element of s lies in [lo, hi]. */
  predicate Within(s: seq<real>, lo: real, hi: real) {
    forall i :: 0 <= i < |s| ==> lo <= s[i] <= hi
  }

  /** n values in [lo, hi] sum to between n * lo and n * hi. */
  lemma {:induction false} SumBetween(s: seq<real>, lo: real, hi: real)
    requires Within(s, lo, hi)
    ensures |s| as real * lo <= Sum(s) <= |s| as real * hi
  {
    if s != [] {
      assert Within(s[1..], lo, hi) by {
        forall i | 0 <= i < |s| - 1
          ensures lo <= s[1..][i] <= hi
        {
          assert s[1..][i] == s[i + 1];
        }
      }
      SumBetween(s[1..], lo, hi);
      SumStep(s[0], Sum(s[1..]), (|s| - 1) as real, |s| as real, lo, hi);
    }
  }

  /** Adding one more value in [lo, hi] to a sum of n such values. */
  lemma SumStep(a: real, s: real, n: real, n': real, lo: real, hi: real)
    requires lo <= a <= hi && n * lo <= s <= n * hi && n' == n + 1.0
    ensures n' * lo <= a + s <= n' * hi
  {
  }

  /** The mean of values in [lo, hi] lies in [lo, hi]. */
  lemma MeanWithin(s: seq<real>, lo: real, hi: real)
    requires s != [] && Within(s, lo, hi)
    ensures lo <= Mean(s) <= hi
  {
    SumBetween(s, lo, hi);
    MeanBetween(Sum(s), |s| as real, lo, hi);
  }

  lemma MeanBetween(sum: real, n: real, lo: real, hi: real)
    requires n > 0.0 && n * lo <= sum <= n * hi
    ensures lo <= sum / n <= hi
  {
    assert sum / n - lo == (sum - n * lo) / n;
    assert hi - sum / n == (n * hi - sum) / n;
    QuotientNonNegative(sum - n * lo, n);
    QuotientNonNegative(n * hi - sum, n);
  }

  lemma QuotientNonNegative(a: real, n: real)
    requires a >= 0.0 && n > 0.0
    ensures a / n >= 0.0
  {
  }

  lemma FloorBetween(m: real, lo: real, hi: real)
    requires lo <= m <= hi && 0.0 <= m
    ensures lo.Floor <= m.Floor && m.Floor as real <= hi && m.Floor >= 0
  {
  }

  /** Bounds on the positive arguments are bounds on every element the
      filter keeps. */
  lemma PositivesWithin(args: seq<real>, lo: real, hi: real)
    requires forall i :: 0 <= i < |args| && args[i] > 0.0 ==> lo <= args[i] <= hi
    ensures Within(Positives(args), lo, hi)
  {
    var p := Positives(args);
    forall i | 0 <= i < |p|
      ensures lo <= p[i] <= hi
    {
      assert p[i] in args;
      var j :| 0 <= j < |args| && args[j] == p[i];
    }
  }

  /** The mean of the positive arguments lies between any lower and any
      upper bound on them. */
  lemma PositivesMeanBetween(args: seq<real>, lo: real, hi: real)
    requires Positives(args) != []
    requires forall i :: 0 <= i < |args| && args[i] > 0.0 ==> lo <= args[i] <= hi
    ensures lo <= Mean(Positives(args)) <= hi
  {
    PositivesWithin(args, lo, hi);
    MeanWithin(Positives(args), lo, hi);
  }

  /** When some argument is positive, blend lies between the floor of any
      lower bound and any upper bound on the positive arguments (their
      minimum and maximum, for instance), and is never negative. */
  lemma BlendBetween(args: seq<real>, lo: real, hi: real)
    requires Positives(args) != []
    requires forall i :: 0 <= i < |args| && args[i] > 0.0 ==> lo <= args[i] <= hi
    ensures lo.Floor <= Blend(args) && Blend(args) as real <= hi
    ensures Blend(args) >= 0
  {
    var p := Positives(args);
    PositivesMeanBetween(args, lo, hi);
    PositivesMeanBetween(args, 0.0, hi);
    FloorBetween(Mean(p), lo, hi);
  }

  /** When no argument exceeds 255, blend returns a channel value that
      `set_pixel` can store and `_bmp` can pack. */
  lemma BlendIsChannel(args: seq<real>)
    requires forall i :: 0 <= i < |args| ==> args[i] <= 255.0
    ensures IsChannel(Blend(args))
  {
    if Positives(args) != [] {
      BlendBetween(args, 0.0, 255.0);
    }
  }

  /** blend(100, -5, 50) drops -5 and averages the rest; blend(-1, -2) has
      nothing left to average; blend(9, 9, 1) counts the repeated 9 twice. */
  lemma BlendExamples()
    ensures Blend([100.0, -5.0, 50.0]) == 75
    ensures Blend([-1.0, -2.0]) == 0
    ensures Blend([9.0, 9.0, 1.0]) == 6
  {
  }
}
