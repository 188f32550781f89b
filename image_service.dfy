/**
 * The de-interleaving step of `extractColorMatrices`: a decoded row-major RGBA
 * buffer of `width * height` pixels is split into three `height` by `width`
 * planes of red, green and blue samples; alpha is dropped.
 */
module ImageService {
  import opened Samples

  /** The colour planes the loop fills, with their offset inside a pixel's four samples. */
  datatype Channel = Red | Green | Blue {
    function Offset(): (k: nat)
      ensures k < 3
    {
      match this
      case Red => 0
      case Green => 1
      case Blue => 2
    }
  }

  /** `(y * width + x) * 4 + offset`: where the buffer keeps sample `offset` of pixel `(x, y)`. */
  function PixelIndex(width: nat, y: nat, x: nat, offset: nat): nat {
    (y * width + x) * 4 + offset
  }

  /** Every pixel of a `width * height` image has its four samples inside a buffer of `width * height * 4`. */
  lemma IndexInBounds(width: nat, height: nat, y: nat, x: nat, offset: nat)
    requires y < height && x < width && offset < 4
    ensures PixelIndex(width, y, x, offset) < width * height * 4
  {
    assert y * width + width == (y + 1) * width;
    assert (y + 1) * width <= height * width by {
      MultiplyMonotone(y + 1, height, width);
    }
  }

  lemma MultiplyMonotone(a: nat, b: nat, n: nat)
    requires a <= b
    ensures a * n <= b * n
  {
    assert b * n - a * n == (b - a) * n;
  }

  /** Row `a` ends at or before row `b` starts when `a < b`. */
  lemma NextRowBelow(a: nat, b: nat, n: nat)
    requires a < b
    ensures a * n + n <= b * n
  {
    MultiplyMonotone(a + 1, b, n);
    assert (a + 1) * n == a * n + n;
  }

  /** The plane of `channel`: row `y`, column `x` holds the buffer sample at `PixelIndex(width, y, x, offset)`. */
  function Plane(data: seq<Sample>, width: nat, height: nat, channel: Channel): (p: seq<seq<Sample>>)
    requires |data| == width * height * 4
    ensures |p| == height
    ensures forall y :: 0 <= y < height ==> |p[y]| == width
  {
    seq(height, (y: int) requires 0 <= y < height =>
      seq(width, (x: int) requires 0 <= x < width =>
        IndexInBounds(width, height, y, x, channel.Offset());
        data[PixelIndex(width, y, x, channel.Offset())]))
  }

  /** The sample of `channel` at pixel `(x, y)` is the buffer sample at the pixel's base plus the channel offset. */
  lemma PlaneSample(data: seq<Sample>, width: nat, height: nat, channel: Channel, y: nat, x: nat)
    requires |data| == width * height * 4 && y < height && x < width
    ensures PixelIndex(width, y, x, channel.Offset()) < |data|
    ensures Plane(data, width, height, channel)[y][x] == data[PixelIndex(width, y, x, channel.Offset())]
  {
    IndexInBounds(width, height, y, x, channel.Offset());
  }

  /** Green and blue lie one and two past red, and none of the three is the alpha sample. */
  lemma ChannelsOfOnePixel(width: nat, y: nat, x: nat, channel: Channel)
    ensures PixelIndex(width, y, x, channel.Offset()) == PixelIndex(width, y, x, 0) + channel.Offset()
    ensures PixelIndex(width, y, x, channel.Offset()) % 4 == channel.Offset() != 3
  {
  }

  /** Two pixel-and-offset pairs inside the image share a buffer index only if they are the same pair. */
  lemma IndexInjective(width: nat, y1: nat, x1: nat, o1: nat, y2: nat, x2: nat, o2: nat)
    requires x1 < width && x2 < width && o1 < 4 && o2 < 4
    requires PixelIndex(width, y1, x1, o1) == PixelIndex(width, y2, x2, o2)
    ensures y1 == y2 && x1 == x2 && o1 == o2
  {
    var p1, p2 := y1 * width + x1, y2 * width + x2;
    assert p1 * 4 + o1 == p2 * 4 + o2;
    assert o1 == o2 && p1 == p2;
    if y1 < y2 {
      NextRowBelow(y1, y2, width);
    } else if y2 < y1 {
      NextRowBelow(y2, y1, width);
    }
  }

  /** Every buffer index belongs to some pixel of the image and some offset within it. */
  lemma IndexCovered(width: nat, height: nat, i: nat)
    requires i < width * height * 4
    ensures var p := i / 4;
      width > 0 && p / width < height && p % width < width
      && PixelIndex(width, p / width, p % width, i % 4) == i
  {
    var p := i / 4;
    assert p < width * height;
    assert width > 0;
    var y, x := p / width, p % width;
    assert p == y * width + x;
    if y >= height {
      MultiplyMonotone(height, y, width);
    }
  }

  /** Changing only alpha samples changes none of the three planes: alpha is never read. */
  lemma AlphaNeverRead(d1: seq<Sample>, d2: seq<Sample>, width: nat, height: nat, channel: Channel)
    requires |d1| == |d2| == width * height * 4
    requires forall i :: 0 <= i < |d1| && i % 4 != 3 ==> d1[i] == d2[i]
    ensures Plane(d1, width, height, channel) == Plane(d2, width, height, channel)
  {
    var p1, p2 := Plane(d1, width, height, channel), Plane(d2, width, height, channel);
    forall y | 0 <= y < height
      ensures p1[y] == p2[y]
    {
      forall x | 0 <= x < width
        ensures p1[y][x] == p2[y][x]
      {
        PlaneSample(d1, width, height, channel, y, x);
        PlaneSample(d2, width, height, channel, y, x);
        ChannelsOfOnePixel(width, y, x, channel);
      }
    }
  }

  /**
   * The nested loop of `extractColorMatrices`: for each row `y` and column `x`
   * it copies the samples at `(y * width + x) * 4` plus 0, 1 and 2 into the
   * red, green and blue planes.
   */
  method ExtractColorMatrices(data: array<Sample>, width: nat, height: nat)
    returns (r: seq<seq<Sample>>, g: seq<seq<Sample>>, b: seq<seq<Sample>>)
    requires data.Length == width * height * 4
    ensures r == Plane(data[..], width, height, Red)
    ensures g == Plane(data[..], width, height, Green)
    ensures b == Plane(data[..], width, height, Blue)
  {
    ghost var pr, pg, pb := Plane(data[..], width, height, Red), Plane(data[..], width, height, Green),
      Plane(data[..], width, height, Blue);
    r, g, b := [], [], [];
    var y := 0;
    while y < height
      invariant 0 <= y <= height
      invariant r == pr[..y] && g == pg[..y] && b == pb[..y]
    {
      var rowR, rowG, rowB := [], [], [];
      var x := 0;
      while x < width
        invariant 0 <= x <= width
        invariant rowR == pr[y][..x] && rowG == pg[y][..x] && rowB == pb[y][..x]
      {
        var idx := (y * width + x) * 4;
        IndexInBounds(width, height, y, x, 3);
        PlaneSample(data[..], width, height, Red, y, x);
        PlaneSample(data[..], width, height, Green, y, x);
        PlaneSample(data[..], width, height, Blue, y, x);
        rowR := rowR + [data[idx]];
        rowG := rowG + [data[idx + 1]];
        rowB := rowB + [data[idx + 2]];
        x := x + 1;
      }
      assert rowR == pr[y] && rowG == pg[y] && rowB == pb[y];
      r, g, b := r + [rowR], g + [rowG], b + [rowB];
      y := y + 1;
    }
    assert r == pr && g == pg && b == pb;
  }
}
