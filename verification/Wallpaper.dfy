/** Aspect-fill scaling with centre crop. */
module Wallpaper {

  /** `compute_aspect_fill_scale`, doubles as reals. */
  function Scale(imgW: int, imgH: int, outW: int, outH: int): real
    requires imgW > 0 && imgH > 0
  {
    var x, y := outW as real / imgW as real, outH as real / imgH as real;
    if x > y then x else y
  }

  /** How much of the scaled image lies beyond the output on each side of an axis. */
  function Offset(img: int, out: int, scale: real): real {
    (img as real * scale - out as real) / 2.0
  }

  /** The image coordinate that translate-then-scale puts at output coordinate `x`. */
  function SourceOf(img: int, out: int, scale: real, x: real): real
    requires scale > 0.0
  {
    (x + Offset(img, out, scale)) / scale
  }

  lemma RatioTimes(img: int, out: int, k: real)
    requires img > 0
    ensures img as real * (out as real / img as real) == out as real
    ensures k >= out as real / img as real <==> img as real * k >= out as real
  {
    var i, q := img as real, out as real / img as real;
    assert i * q == out as real;
    if k >= q {
      assert i * (k - q) >= 0.0;
    } else {
      assert i * (q - k) > 0.0;
    }
  }

  ghost predicate Covers(imgW: int, imgH: int, outW: int, outH: int, k: real) {
    imgW as real * k >= outW as real && imgH as real * k >= outH as real
  }

  /** The scaled image covers the output on both axes, exactly on one of them, and no smaller
      factor covers both; nothing has to be cropped by a negative amount. */
  lemma CoversTightly(imgW: int, imgH: int, outW: int, outH: int)
    requires imgW > 0 && imgH > 0 && outW > 0 && outH > 0
    ensures var k := Scale(imgW, imgH, outW, outH);
            && k > 0.0 && Covers(imgW, imgH, outW, outH, k)
            && (imgW as real * k == outW as real || imgH as real * k == outH as real)
            && Offset(imgW, outW, k) >= 0.0 && Offset(imgH, outH, k) >= 0.0
    ensures forall k: real :: Covers(imgW, imgH, outW, outH, k) ==> k >= Scale(imgW, imgH, outW, outH)
  {
    var k := Scale(imgW, imgH, outW, outH);
    RatioTimes(imgW, outW, k);
    RatioTimes(imgH, outH, k);
    forall j: real | Covers(imgW, imgH, outW, outH, j)
      ensures j >= k
    {
      RatioTimes(imgW, outW, j);
      RatioTimes(imgH, outH, j);
    }
  }

  lemma Centred(x: real, o: real, w: real)
    requires 0.0 <= x <= o <= w
    ensures 0.0 <= x + (w - o) / 2.0 <= w
  {
  }

  lemma Quotient(y: real, i: real, k: real)
    requires k > 0.0 && y <= i * k
    ensures y / k <= i && (y >= 0.0 ==> y / k >= 0.0) && (y == i * k ==> y / k == i)
  {
    var q := y / k;
    assert q * k == y;
    assert (i - q) * k >= 0.0;
  }

  /** On an axis that is covered, every output point shows a point of the image, and the centre of
      the output shows the centre of the image. */
  lemma ShowsTheImage(img: int, out: int, scale: real, x: real)
    requires scale > 0.0 && img as real * scale >= out as real && 0.0 <= x <= out as real
    ensures SourceOf(img, out, scale, x) * scale - Offset(img, out, scale) == x
    ensures 0.0 <= SourceOf(img, out, scale, x) <= img as real
    ensures SourceOf(img, out, scale, out as real / 2.0) == img as real / 2.0
  {
    var i, o := img as real, out as real;
    var y := x + (i * scale - o) / 2.0;
    assert Offset(img, out, scale) == (i * scale - o) / 2.0;
    assert SourceOf(img, out, scale, x) == y / scale;
    Centred(x, o, i * scale);
    Quotient(y, i, scale);
    assert o / 2.0 + (i * scale - o) / 2.0 == (i / 2.0) * scale;
    Quotient((i / 2.0) * scale, i / 2.0, scale);
  }
}
