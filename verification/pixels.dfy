/** Reading the RGBA byte buffer: where a pixel's channels live, what a read
    outside the buffer yields, and when a sample counts as bright enough to be
    an edge. */
module Pixels {
  import opened Model

  type Byte = b: int | 0 <= b < 256

  /** The parts of a browser ImageData the core reads: the RGBA bytes, row by
      row, and the picture's size in pixels. */
  datatype ImageData = ImageData(data: seq<Byte>, width: nat, height: nat)

  /** The buffer holds exactly four bytes per pixel. */
  predicate WellFormed(img: ImageData) {
    |img.data| == 4 * img.width * img.height
  }

  /** Index of the red byte of pixel (x, y) in a buffer whose rows are `width`
      pixels long. No bounds check: any x and y give an index. */
  function GetFirstColorIndexForCoord(x: int, y: int, width: int): int {
    y * (width * 4) + x * 4
  }

  /** The pixel whose red byte sits at `index`: the inverse of
      GetFirstColorIndexForCoord on pixels inside a row. */
  function PixelOf(index: int, width: int): Point
    requires width > 0
  {
    Point((index / 4) % width, (index / 4) / width)
  }

  /** The colour index is four times the pixel's row-major position, and a
      pixel inside a row is recovered from its index. */
  lemma {:induction false} ColorIndexDecodes(x: int, y: int, width: int)
    ensures GetFirstColorIndexForCoord(x, y, width) % 4 == 0
    ensures GetFirstColorIndexForCoord(x, y, width) / 4 == y * width + x
    ensures 0 <= x < width && 0 <= y ==> PixelOf(GetFirstColorIndexForCoord(x, y, width), width) == Point(x, y)
  {
    var n := y * width + x;
    assert y * (width * 4) + x * 4 == 4 * n;
    if 0 <= x < width && 0 <= y {
      assert (y * width + x) / width == y && (y * width + x) % width == x by {
        DivModOfRow(x, y, width);
      }
    }
  }

  lemma DivModOfRow(x: int, y: int, width: int)
    requires 0 <= x < width
    ensures (y * width + x) / width == y
    ensures (y * width + x) % width == x
  {
    var n := y * width + x;
    var q, r := n / width, n % width;
    assert n == width * q + r;
    var d := q - y;
    assert width * d == x - r by {
      assert width * q == width * y + width * d;
    }
    ProductBelowFactorIsZero(width, d);
  }

  lemma ProductBelowFactorIsZero(w: int, d: int)
    requires w > 0 && -w < w * d < w
    ensures d == 0
  {
  }

  /** A pixel just past the end of a row is the first pixel of the next row:
      a probe that leaves the picture sideways reads a neighbouring row. */
  lemma {:induction false} ColorIndexWrapsToNextRow(x: int, y: int, width: int)
    ensures GetFirstColorIndexForCoord(x + width, y, width) == GetFirstColorIndexForCoord(x, y + 1, width)
  {
    assert (x + width) * 4 == x * 4 + width * 4;
    assert (y + 1) * (width * 4) == y * (width * 4) + width * 4;
  }

  /** Every pixel of the picture has all of its colour bytes inside a
      well-formed buffer. */
  lemma {:induction false} PixelInsidePictureIsReadable(img: ImageData, x: int, y: int)
    requires WellFormed(img)
    requires 0 <= x < img.width && 0 <= y < img.height
    ensures 0 <= GetFirstColorIndexForCoord(x, y, img.width)
    ensures GetFirstColorIndexForCoord(x, y, img.width) + 3 < |img.data|
  {
    var w, h := img.width, img.height;
    ColorIndexDecodes(x, y, w);
    RowMajorBelowArea(x, y, w, h);
    assert GetFirstColorIndexForCoord(x, y, w) == 4 * (y * w + x);
  }

  /** A pixel inside a w x h picture has a row-major position below w * h. */
  lemma RowMajorBelowArea(x: int, y: int, w: int, h: int)
    requires 0 <= x < w && 0 <= y < h
    ensures 0 <= y * w + x < w * h
  {
    MulMonotonic(0, y, w);
    MulMonotonic(y + 1, h, w);
    assert (y + 1) * w == y * w + w;
    assert h * w == w * h;
  }

  lemma MulMonotonic(a: int, b: int, w: int)
    requires 0 <= a <= b && 0 <= w
    ensures a * w <= b * w
  {
    assert b * w - a * w == (b - a) * w;
  }

  /** The channel sum at `index`, when all three colour bytes are inside the buffer. */
  function ChannelSum(img: ImageData, index: int): int
    requires 0 <= index && index + 2 < |img.data|
  {
    img.data[index] as int + img.data[index + 1] as int + img.data[index + 2] as int
  }

  /** The mean of the red, green and blue bytes starting at `index`. A byte
      outside the buffer is undefined and turns the mean into NaN, modelled
      as `None`. */
  function NormColor(img: ImageData, index: int): (r: Option<real>)
    ensures r.Some? ==> 0.0 <= r.value <= 255.0
    ensures r.Some? <==> 0 <= index && index + 2 < |img.data|
  {
    if 0 <= index && index + 2 < |img.data| then
      Some(ChannelSum(img, index) as real / 3.0)
    else
      None
  }

  /** The brightness a sample must exceed for a given percentage. */
  function Limit(highPassLimit: real): real {
    255.0 * (highPassLimit / 100.0)
  }

  /** `c > limit` in JavaScript, where a NaN mean compares false. */
  function Above(c: Option<real>, limit: real): bool {
    c.Some? && c.value > limit
  }

  /** Whether the sample at `index` is brighter than the limit. NaN compares
      false, so a sample with a byte outside the buffer never counts. */
  function SampleExceeds(img: ImageData, index: int, highPassLimit: real): (hit: bool)
    ensures hit <==> 0 <= index && index + 2 < |img.data|
                     && 100.0 * ChannelSum(img, index) as real > 765.0 * highPassLimit
  {
    Above(NormColor(img, index), Limit(highPassLimit))
  }

  /** A limit of 100 percent or more can never be exceeded: the mean of three
      bytes is at most 255 and the comparison is strict. */
  lemma {:induction false} NoSampleExceedsFullLimit(img: ImageData, index: int, highPassLimit: real)
    requires highPassLimit >= 100.0
    ensures !SampleExceeds(img, index, highPassLimit)
  {
    if 0 <= index && index + 2 < |img.data| {
      assert ChannelSum(img, index) <= 765;
    }
  }

  /** Clamps a colour value into the byte range. */
  function TruncateColor(value: real): (r: real)
    ensures 0.0 <= r <= 255.0
    ensures 0.0 <= value <= 255.0 ==> r == value
  {
    if value < 0.0 then 0.0
    else if value > 255.0 then 255.0
    else value
  }

  function Abs(v: real): real {
    if v < 0.0 then -v else v
  }

  /** The clamped value is the byte-range value nearest to the input. */
  lemma TruncateColorIsNearest(value: real, c: real)
    requires 0.0 <= c <= 255.0
    ensures Abs(TruncateColor(value) - value) <= Abs(c - value)
  {
  }

  lemma TruncateColorIdempotent(value: real)
    ensures TruncateColor(TruncateColor(value)) == TruncateColor(value)
  {
  }

  lemma TruncateColorMonotonic(a: real, b: real)
    requires a <= b
    ensures TruncateColor(a) <= TruncateColor(b)
  {
  }
}
