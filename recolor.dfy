/**
  Recolouring of the built-in icon: the gray-range scan over the masked
  region of the origin image, and the per-pixel renderer that tints the
  masked region toward a target colour (colored_icon.hpp).

  Bitmaps are two-dimensional arrays indexed [x, y]; Length0 is the
  width and Length1 the height, as GetWidth and GetHeight return them.
 */
module Recolor {
  import opened Gdi

  /** ICON_MAX_LIGHTNESS: how far toward white the brightest gray may go. */
  const MaxLightness: real := 0.5

  predicate SameSize(a: array2<Pixel>, b: array2<Pixel>)
  {
    a.Length0 == b.Length0 && a.Length1 == b.Length1
  }

  /** Some pixel of the mask is ICON_MASK_COLOR. */
  ghost predicate AnyMasked(mask: array2<Pixel>)
    reads mask
  {
    exists x, y :: 0 <= x < mask.Length0 && 0 <= y < mask.Length1 && IsMask(mask[x, y])
  }

  /**
    (lo, hi) is what the gray-range scan leaves behind: every masked red
    value lies in [lo, hi], both bounds are attained by masked pixels, and
    with no masked pixel the bounds keep their initial values 255 and 0.
   */
  ghost predicate IsGrayRange(src: array2<Pixel>, mask: array2<Pixel>, lo: int, hi: int)
    reads src, mask
    requires SameSize(src, mask)
  {
    && (forall x, y :: 0 <= x < mask.Length0 && 0 <= y < mask.Length1 && IsMask(mask[x, y]) ==>
          lo <= src[x, y].r <= hi)
    && (AnyMasked(mask) ==>
          && (exists x, y :: 0 <= x < mask.Length0 && 0 <= y < mask.Length1 && IsMask(mask[x, y]) && src[x, y].r == lo)
          && (exists x, y :: 0 <= x < mask.Length0 && 0 <= y < mask.Length1 && IsMask(mask[x, y]) && src[x, y].r == hi))
    && (!AnyMasked(mask) ==> lo == 255 && hi == 0)
  }

  /**
    The renderer's demand on its inputs: every masked red value lies in
    [lo, hi] and hi is positive, so that the shade is a proper fraction
    (the source divides by hi, and converts the blended float to a byte).
   */
  ghost predicate Renderable(src: array2<Pixel>, mask: array2<Pixel>, lo: int, hi: int)
    reads src, mask
    requires SameSize(src, mask)
  {
    forall x, y :: 0 <= x < mask.Length0 && 0 <= y < mask.Length1 && IsMask(mask[x, y]) ==>
      0 < hi && lo <= src[x, y].r <= hi
  }

  /** get_image_gray_range: min and max red value over the masked pixels. */
  method GetImageGrayRange(src: array2<Pixel>, mask: array2<Pixel>) returns (grayMin: Byte, grayMax: Byte)
    requires SameSize(src, mask)
    ensures IsGrayRange(src, mask, grayMin, grayMax)
  {
    grayMin, grayMax := 255, 0;
    var width, height := src.Length0, src.Length1;
    // witnesses of the pixels where the current bounds were attained
    ghost var found := false;
    ghost var minX, minY, maxX, maxY := 0, 0, 0, 0;
    var x := 0;
    while x < width
      invariant 0 <= x <= width
      invariant forall i, j :: 0 <= i < x && 0 <= j < height && IsMask(mask[i, j]) ==>
                  grayMin <= src[i, j].r <= grayMax
      invariant found ==> 0 <= minX < width && 0 <= minY < height && IsMask(mask[minX, minY]) && src[minX, minY].r == grayMin
      invariant found ==> 0 <= maxX < width && 0 <= maxY < height && IsMask(mask[maxX, maxY]) && src[maxX, maxY].r == grayMax
      invariant !found ==> grayMin == 255 && grayMax == 0
      invariant !found ==> forall i, j :: 0 <= i < x && 0 <= j < height ==> !IsMask(mask[i, j])
    {
      var y := 0;
      while y < height
        invariant 0 <= y <= height
        invariant forall i, j :: 0 <= i < width && 0 <= j < height && (i < x || (i == x && j < y)) && IsMask(mask[i, j]) ==>
                    grayMin <= src[i, j].r <= grayMax
        invariant found ==> 0 <= minX < width && 0 <= minY < height && IsMask(mask[minX, minY]) && src[minX, minY].r == grayMin
        invariant found ==> 0 <= maxX < width && 0 <= maxY < height && IsMask(mask[maxX, maxY]) && src[maxX, maxY].r == grayMax
        invariant !found ==> grayMin == 255 && grayMax == 0
        invariant !found ==> forall i, j :: 0 <= i < width && 0 <= j < height && (i < x || (i == x && j < y)) ==> !IsMask(mask[i, j])
      {
        if IsMask(mask[x, y]) {
          var red := src[x, y].r;
          if !found {
            minX, minY, maxX, maxY := x, y, x, y;
          }
          if red > grayMax {
            grayMax := red;
            maxX, maxY := x, y;
          }
          if red < grayMin {
            grayMin := red;
            minX, minY := x, y;
          }
          found := true;
        }
        y := y + 1;
      }
      x := x + 1;
    }
  }

  /** shade = (red - gray_min) / gray_max * ICON_MAX_LIGHTNESS. */
  function Shade(red: Byte, grayMin: Byte, grayMax: Byte): (shade: real)
    requires 0 < grayMax && grayMin <= red <= grayMax
    ensures 0.0 <= shade <= MaxLightness
    ensures shade == 0.0 <==> red == grayMin
  {
    ShadeFractionBound(red - grayMin, grayMax);
    (red - grayMin) as real / grayMax as real * MaxLightness
  }

  lemma ShadeFractionBound(n: int, d: int)
    requires 0 <= n <= d && 0 < d
    ensures 0.0 <= n as real / d as real <= 1.0
    ensures n as real / d as real == 0.0 <==> n == 0
  {
    var q := n as real / d as real;
    assert q * d as real == n as real;
  }

  /**
    One channel of a masked pixel: the target channel c moved toward 255
    by the shade, truncated to a byte, as BYTE(c + (255 - c) * shade).
   */
  function Blend(c: Byte, red: Byte, grayMin: Byte, grayMax: Byte): (v: Byte)
    requires 0 < grayMax && grayMin <= red <= grayMax
    ensures c <= v <= c + (255 - c) / 2
    ensures red == grayMin ==> v == c
  {
    var lifted := Lift(255 - c, Shade(red, grayMin, grayMax));
    LiftBounds(c, lifted);
    (c as real + lifted).Floor
  }

  /** The part of the complement k added for a given shade: k * shade, at most k / 2. */
  function Lift(k: nat, shade: real): (lifted: real)
    requires 0.0 <= shade <= MaxLightness
    ensures 0.0 <= lifted <= k as real / 2.0
    ensures lifted == 0.0 <==> k == 0 || shade == 0.0
  {
    ScaleBound(k as real, shade);
    k as real * shade
  }

  lemma ScaleBound(k: real, s: real)
    requires 0.0 <= k && 0.0 <= s <= 0.5
    ensures 0.0 <= k * s <= k / 2.0
    ensures k * s == 0.0 <==> k == 0.0 || s == 0.0
  {
  }

  /** Adding at most half the complement to a channel and truncating stays within [c, c + (255 - c) / 2]. */
  lemma LiftBounds(c: Byte, lifted: real)
    requires 0.0 <= lifted <= (255 - c) as real / 2.0
    ensures c <= (c as real + lifted).Floor <= c + (255 - c) / 2
    ensures lifted == 0.0 ==> (c as real + lifted).Floor == c
  {
    var w := (c as real + lifted).Floor;
    assert w as real <= c as real + lifted < w as real + 1.0;
    assert 2 * w <= 2 * c + (255 - c);
  }

  /**
    The colour written for one pixel: an unmasked pixel gets the mask
    image's own pixel; a masked pixel gets the blended target colour with
    alpha 255.
   */
  function RenderPixel(src: Pixel, mask: Pixel, grayMin: Byte, grayMax: Byte, color: ColorRef): (p: Pixel)
    requires IsMask(mask) ==> 0 < grayMax && grayMin <= src.r <= grayMax
    ensures !IsMask(mask) ==> p == mask
    ensures IsMask(mask) ==> p.a == 255
    ensures IsMask(mask) ==> color.r <= p.r && color.g <= p.g && color.b <= p.b
    ensures IsMask(mask) ==> p.r <= color.r + (255 - color.r) / 2 && p.g <= color.g + (255 - color.g) / 2
                             && p.b <= color.b + (255 - color.b) / 2
    ensures IsMask(mask) && src.r == grayMin ==> ToColorRef(p) == color
  {
    if !IsMask(mask) then mask
    else Pixel(255, Blend(color.r, src.r, grayMin, grayMax), Blend(color.g, src.r, grayMin, grayMax),
               Blend(color.b, src.r, grayMin, grayMax))
  }

  /** render_colored_image: fills every pixel of out from the origin and the mask. */
  method RenderColoredImage(src: array2<Pixel>, mask: array2<Pixel>, out: array2<Pixel>,
                            grayMin: Byte, grayMax: Byte, color: ColorRef)
    requires SameSize(src, mask) && SameSize(src, out)
    requires out != src && out != mask
    requires Renderable(src, mask, grayMin, grayMax)
    modifies out
    ensures forall x, y :: 0 <= x < out.Length0 && 0 <= y < out.Length1 ==>
              out[x, y] == RenderPixel(src[x, y], mask[x, y], grayMin, grayMax, color)
  {
    var width, height := src.Length0, src.Length1;
    var x := 0;
    while x < width
      invariant 0 <= x <= width
      invariant forall i, j :: 0 <= i < x && 0 <= j < height ==>
                  out[i, j] == RenderPixel(src[i, j], mask[i, j], grayMin, grayMax, color)
    {
      var y := 0;
      while y < height
        invariant 0 <= y <= height
        invariant forall i, j :: 0 <= i < width && 0 <= j < height && (i < x || (i == x && j < y)) ==>
                    out[i, j] == RenderPixel(src[i, j], mask[i, j], grayMin, grayMax, color)
      {
        var pixel := mask[x, y];
        if !IsMask(pixel) {
          out[x, y] := pixel;
        } else {
          var red := src[x, y].r;
          out[x, y] := Pixel(255, Blend(color.r, red, grayMin, grayMax), Blend(color.g, red, grayMin, grayMax),
                             Blend(color.b, red, grayMin, grayMax));
        }
        y := y + 1;
      }
      x := x + 1;
    }
  }

  /** The bitmap out holds the colour-`color` rendering of the images, pixel for pixel. */
  ghost predicate IsRendering(out: array2<Pixel>, src: array2<Pixel>, mask: array2<Pixel>,
                              grayMin: Byte, grayMax: Byte, color: ColorRef)
    reads out, src, mask
    requires SameSize(src, mask) && Renderable(src, mask, grayMin, grayMax)
  {
    && SameSize(src, out)
    && forall x, y :: 0 <= x < out.Length0 && 0 <= y < out.Length1 ==>
         out[x, y] == RenderPixel(src[x, y], mask[x, y], grayMin, grayMax, color)
  }

  /** The scan's result is determined by the images: at most one pair satisfies it. */
  lemma GrayRangeUnique(src: array2<Pixel>, mask: array2<Pixel>, lo1: int, hi1: int, lo2: int, hi2: int)
    requires SameSize(src, mask)
    requires IsGrayRange(src, mask, lo1, hi1) && IsGrayRange(src, mask, lo2, hi2)
    ensures lo1 == lo2 && hi1 == hi2
  {
    if AnyMasked(mask) {
      var a, b :| 0 <= a < mask.Length0 && 0 <= b < mask.Length1 && IsMask(mask[a, b]) && src[a, b].r == lo1;
      var c, d :| 0 <= c < mask.Length0 && 0 <= d < mask.Length1 && IsMask(mask[c, d]) && src[c, d].r == lo2;
      var e, f :| 0 <= e < mask.Length0 && 0 <= f < mask.Length1 && IsMask(mask[e, f]) && src[e, f].r == hi1;
      var g, h :| 0 <= g < mask.Length0 && 0 <= h < mask.Length1 && IsMask(mask[g, h]) && src[g, h].r == hi2;
    }
  }

  /** Unmasked origin pixels never influence the gray range. */
  lemma GrayRangeIgnoresUnmasked(src1: array2<Pixel>, src2: array2<Pixel>, mask: array2<Pixel>, lo: int, hi: int)
    requires SameSize(src1, mask) && SameSize(src2, mask)
    requires forall x, y :: 0 <= x < mask.Length0 && 0 <= y < mask.Length1 && IsMask(mask[x, y]) ==>
               src1[x, y].r == src2[x, y].r
    ensures IsGrayRange(src1, mask, lo, hi) <==> IsGrayRange(src2, mask, lo, hi)
  {
  }

  /**
    The range the scan computes satisfies the renderer's demand, provided
    the masked region is not entirely black (otherwise gray_max is 0 and
    the shade divides by zero).
   */
  lemma GrayRangeRenderable(src: array2<Pixel>, mask: array2<Pixel>, lo: int, hi: int)
    requires SameSize(src, mask) && IsGrayRange(src, mask, lo, hi)
    requires AnyMasked(mask) ==>
               exists x, y :: 0 <= x < mask.Length0 && 0 <= y < mask.Length1 && IsMask(mask[x, y]) && src[x, y].r > 0
    ensures Renderable(src, mask, lo, hi)
  {
    if AnyMasked(mask) {
      var x, y :| 0 <= x < mask.Length0 && 0 <= y < mask.Length1 && IsMask(mask[x, y]) && src[x, y].r > 0;
      assert src[x, y].r <= hi;
    }
  }

  /** A brighter origin gray never gives a darker output channel. */
  lemma {:induction false} BlendMonotone(c: Byte, red1: Byte, red2: Byte, grayMin: Byte, grayMax: Byte)
    requires 0 < grayMax && grayMin <= red1 <= red2 <= grayMax
    ensures Blend(c, red1, grayMin, grayMax) <= Blend(c, red2, grayMin, grayMax)
  {
    var s1, s2 := Shade(red1, grayMin, grayMax), Shade(red2, grayMin, grayMax);
    assert s1 <= s2 by {
      QuotientMonotone(red1 - grayMin, red2 - grayMin, grayMax);
    }
    LiftMonotone(255 - c, s1, s2);
    FloorMonotone(c as real + Lift(255 - c, s1), c as real + Lift(255 - c, s2));
  }

  lemma LiftMonotone(k: nat, s1: real, s2: real)
    requires 0.0 <= s1 <= s2 <= MaxLightness
    ensures Lift(k, s1) <= Lift(k, s2)
  {
    var d := s2 - s1;
    ScaleBound(k as real, d);
    assert k as real * s2 == k as real * s1 + k as real * d;
  }

  lemma FloorMonotone(a: real, b: real)
    requires a <= b
    ensures a.Floor <= b.Floor
  {
    assert a.Floor as real <= a && b < b.Floor as real + 1.0;
  }

  lemma QuotientMonotone(n1: int, n2: int, d: int)
    requires 0 <= n1 <= n2 && 0 < d
    ensures n1 as real / d as real <= n2 as real / d as real
  {
    var q1, q2 := n1 as real / d as real, n2 as real / d as real;
    assert q1 * d as real == n1 as real;
    assert q2 * d as real == n2 as real;
  }

  /** An unmasked pixel is copied through whatever the target colour is. */
  lemma UnmaskedIgnoresColor(src: Pixel, mask: Pixel, grayMin: Byte, grayMax: Byte, c1: ColorRef, c2: ColorRef)
    requires !IsMask(mask)
    ensures RenderPixel(src, mask, grayMin, grayMax, c1) == RenderPixel(src, mask, grayMin, grayMax, c2) == mask
  {
  }

  /** Worked example: gray 128 in the range [50, 200], target RGB(100, 0, 0) gives RGB(130, 49, 49). */
  lemma BlendExample()
    ensures Blend(100, 128, 50, 200) == 130
    ensures Blend(0, 128, 50, 200) == 49
  {
  }
}
