/**
 * Thumbnail dimensions, lib/image-utils.ts `createThumbnail`: the size the
 * image is drawn at on the thumbnail canvas. Drawing, blurring and JPEG
 * encoding are not modelled.
 */
module Thumbnail {

  datatype Size = Size(width: nat, height: nat)

  /** `Math.round(a / b)` for non-negative operands: halves round up. */
  function RoundDiv(a: nat, b: nat): nat
    requires b > 0
  {
    (2 * a + b) / (2 * b)
  }

  /** The rounded quotient is the integer nearest `a / b`, ties going up. */
  lemma RoundDivNearest(a: nat, b: nat)
    requires b > 0
    ensures var q := RoundDiv(a, b);
      b * (2 * q - 1) <= 2 * a < b * (2 * q + 1)
  {
    var q := RoundDiv(a, b);
    var r := (2 * a + b) % (2 * b);
    assert 2 * a + b == 2 * b * q + r;
    assert 0 <= r < 2 * b;
  }

  /** Nearness pins the rounded quotient down. */
  lemma RoundDivUnique(a: nat, b: nat, q: int)
    requires b > 0
    requires b * (2 * q - 1) <= 2 * a < b * (2 * q + 1)
    ensures q == RoundDiv(a, b)
  {
    RoundDivNearest(a, b);
    NearestUnique(a, b, q, RoundDiv(a, b));
  }

  /** Two integers both nearest `a / b` in the sense of RoundDivNearest are equal. */
  lemma NearestUnique(a: nat, b: nat, q: int, p: int)
    requires b > 0
    requires b * (2 * q - 1) <= 2 * a < b * (2 * q + 1)
    requires b * (2 * p - 1) <= 2 * a < b * (2 * p + 1)
    ensures q == p
  {
    if q < p {
      MulMono(b, 2 * q + 1, 2 * p - 1);
    } else if q > p {
      MulMono(b, 2 * p + 1, 2 * q - 1);
    }
  }

  lemma MulMono(b: nat, x: int, y: int)
    requires x <= y
    ensures b * x <= b * y
  {
  }

  /** A quotient at most `n` rounds to at most `n`. */
  lemma RoundDivAtMost(a: nat, b: nat, n: nat)
    requires b > 0 && a <= b * n
    ensures RoundDiv(a, b) <= n
  {
    var q := RoundDiv(a, b);
    RoundDivNearest(a, b);
    if q > n {
      MulMono(b, 2 * n + 1, 2 * q - 1);
    }
  }

  // ---------------------------------------------------------------------
  // As written
  // ---------------------------------------------------------------------

  /**
   * The size as the source computes it: a landscape image wider than the
   * maximum width is scaled to that width, any other image taller than the
   * maximum height is scaled to that height, and everything else is drawn
   * at its own size.
   */
  function ThumbnailSize(w: nat, h: nat, maxW: nat, maxH: nat): (r: Size)
  {
    if w > h then
      if w > maxW then Size(maxW, RoundDiv(h * maxW, w)) else Size(w, h)
    else
      if h > maxH then Size(RoundDiv(w * maxH, h), maxH) else Size(w, h)
  }

  /** The orientation's own side is bounded and the thumbnail is never larger than the image. */
  lemma ThumbnailBounds(w: nat, h: nat, maxW: nat, maxH: nat)
    ensures var r := ThumbnailSize(w, h, maxW, maxH);
      && r.width <= w && r.height <= h
      && (w > h ==> r.width <= maxW)
      && (w <= h ==> r.height <= maxH)
  {
    if w > h && w > maxW {
      MulMono(h, maxW, w);
      RoundDivAtMost(h * maxW, w, h);
    } else if w <= h && h > maxH {
      MulMono(w, maxH, h);
      RoundDivAtMost(w * maxH, h, w);
    }
  }

  /** An image within its orientation's bound is drawn as is, and only such an image. */
  lemma ThumbnailKeeps(w: nat, h: nat, maxW: nat, maxH: nat)
    ensures ThumbnailSize(w, h, maxW, maxH) == Size(w, h)
        <==> (w > h && w <= maxW) || (w <= h && h <= maxH)
  {
    if w > h && w > maxW {
      WidthScaled(w, h, maxW, maxH);
    } else if w <= h && h > maxH {
      HeightScaled(w, h, maxW, maxH);
    }
  }

  /**
   * A landscape image wider than the maximum takes the maximum width, its
   * height the nearest integer to keep the aspect ratio.
   */
  lemma WidthScaled(w: nat, h: nat, maxW: nat, maxH: nat)
    requires w > h && w > maxW
    ensures var r := ThumbnailSize(w, h, maxW, maxH);
      r.width == maxW && w * (2 * r.height - 1) <= 2 * (h * maxW) < w * (2 * r.height + 1)
  {
    RoundDivNearest(h * maxW, w);
  }

  /** Any other image taller than the maximum takes the maximum height, its width rounded likewise. */
  lemma HeightScaled(w: nat, h: nat, maxW: nat, maxH: nat)
    requires w <= h && h > maxH
    ensures var r := ThumbnailSize(w, h, maxW, maxH);
      r.height == maxH && h * (2 * r.width - 1) <= 2 * (w * maxH) < h * (2 * r.width + 1)
  {
    RoundDivNearest(w * maxH, h);
  }

  /** A 100x90 image in a 100x75 box stays 100x90: its height is never checked. */
  lemma ThumbnailOrientationOnly()
    ensures ThumbnailSize(100, 90, 100, 75) == Size(100, 90)
  {
  }

  /** A 200x190 image becomes a 100x95 thumbnail, taller than the 75 allowed. */
  lemma ThumbnailOverflows()
    ensures ThumbnailSize(200, 190, 100, 75) == Size(100, 95)
  {
    assert RoundDiv(190 * 100, 200) == 95;
  }

  // ---------------------------------------------------------------------
  // Corrected: fit the whole box
  // ---------------------------------------------------------------------

  /**
   * Scale an image that does not fit in `maxW` by `maxH` down by the
   * binding side's ratio, rounding the other side to the nearest integer.
   */
  function FitSize(w: nat, h: nat, maxW: nat, maxH: nat): (r: Size)
  {
    if w <= maxW && h <= maxH then Size(w, h)
    else if w * maxH > h * maxW || h == 0 then Size(maxW, RoundDiv(h * maxW, w))
    else Size(RoundDiv(w * maxH, h), maxH)
  }

  /** The fitted thumbnail lies in the box and is never larger than the image. */
  lemma FitBounds(w: nat, h: nat, maxW: nat, maxH: nat)
    ensures var r := FitSize(w, h, maxW, maxH);
      r.width <= maxW && r.height <= maxH && r.width <= w && r.height <= h
  {
    if w <= maxW && h <= maxH {
    } else if w * maxH > h * maxW || h == 0 {
      WidthBinds(w, h, maxW, maxH);
      MulMono(h, maxW, w);
      RoundDivAtMost(h * maxW, w, h);
      RoundDivAtMost(h * maxW, w, maxH);
    } else {
      HeightBinds(w, h, maxW, maxH);
      MulMono(w, maxH, h);
      RoundDivAtMost(w * maxH, h, w);
      RoundDivAtMost(w * maxH, h, maxW);
    }
  }

  /** When the width binds, the image is wider than the box and no taller in proportion. */
  lemma WidthBinds(w: nat, h: nat, maxW: nat, maxH: nat)
    requires !(w <= maxW && h <= maxH)
    requires w * maxH > h * maxW || h == 0
    ensures w > maxW && h * maxW <= w * maxH
  {
    if w <= maxW {
      assert h > maxH;
      MulMono(maxW, h, maxH + 1);
      MulMono(maxH, w, maxW);
    }
  }

  /** When the height binds, the image is taller than the box and no wider in proportion. */
  lemma HeightBinds(w: nat, h: nat, maxW: nat, maxH: nat)
    requires !(w <= maxW && h <= maxH)
    requires !(w * maxH > h * maxW || h == 0)
    ensures h > maxH && w * maxH <= h * maxW
  {
    if h <= maxH {
      assert w > maxW;
      MulMono(maxH, maxW + 1, w);
      MulMono(maxW, h, maxH);
    }
  }

  /**
   * An image that does not fit and is wider than the box in proportion
   * takes the box's width, its height the nearest integer to keep the
   * aspect ratio.
   */
  lemma FitWidthScales(w: nat, h: nat, maxW: nat, maxH: nat)
    requires !(w <= maxW && h <= maxH)
    requires w * maxH > h * maxW || h == 0
    ensures var r := FitSize(w, h, maxW, maxH);
      r.width == maxW && w * (2 * r.height - 1) <= 2 * (h * maxW) < w * (2 * r.height + 1)
  {
    WidthBinds(w, h, maxW, maxH);
    RoundDivNearest(h * maxW, w);
  }

  /** Otherwise it takes the box's height, its width rounded likewise. */
  lemma FitHeightScales(w: nat, h: nat, maxW: nat, maxH: nat)
    requires !(w <= maxW && h <= maxH)
    requires !(w * maxH > h * maxW || h == 0)
    ensures var r := FitSize(w, h, maxW, maxH);
      r.height == maxH && h * (2 * r.width - 1) <= 2 * (w * maxH) < h * (2 * r.width + 1)
  {
    HeightBinds(w, h, maxW, maxH);
    RoundDivNearest(w * maxH, h);
  }

  /** An image that fits is drawn as is, and the corrected size agrees with the source on it. */
  lemma FitKeepsSmall(w: nat, h: nat, maxW: nat, maxH: nat)
    requires w <= maxW && h <= maxH
    ensures FitSize(w, h, maxW, maxH) == Size(w, h)
    ensures ThumbnailSize(w, h, maxW, maxH) == Size(w, h)
  {
  }

  /** The 200x190 image fits as 79x75. */
  lemma FitExample()
    ensures FitSize(200, 190, 100, 75) == Size(79, 75)
  {
    assert RoundDiv(200 * 75, 190) == 79;
  }
}
