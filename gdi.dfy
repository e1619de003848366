/**
  The platform types the icon subsystem works with: GDI+ pixels (ARGB),
  Win32 COLORREF values, icon handles (HICON), and the icon conversion
  service that turns a bitmap into a handle and later destroys it.
 */
module Gdi {

  /** An 8-bit channel value (BYTE). */
  type Byte = x: int | 0 <= x < 256

  /** A GDI+ colour as read by Bitmap::GetPixel: alpha, red, green, blue. */
  datatype Pixel = Pixel(a: Byte, r: Byte, g: Byte, b: Byte)

  /** A Win32 COLORREF: red, green and blue, no alpha. Used as the cache key. */
  datatype ColorRef = Rgb(r: Byte, g: Byte, b: Byte)

  /** Color::ToCOLORREF drops the alpha channel. */
  function ToColorRef(p: Pixel): ColorRef
  {
    Rgb(p.r, p.g, p.b)
  }

  /** ICON_MASK_COLOR: magenta marks the recolourable region of the icon. */
  const IconMaskColor: ColorRef := Rgb(255, 0, 255)

  /** A mask pixel is one whose colour, alpha ignored, is ICON_MASK_COLOR. */
  predicate IsMask(p: Pixel)
    ensures IsMask(p) <==> p.r == 255 && p.g == 0 && p.b == 255
  {
    ToColorRef(p) == IconMaskColor
  }

  /** Whether a pixel is a mask pixel does not depend on its alpha. */
  lemma MaskIgnoresAlpha(p: Pixel, a: Byte)
    ensures IsMask(p) <==> IsMask(p.(a := a))
    ensures ToColorRef(p) == ToColorRef(p.(a := a))
  {
  }

  /** An icon handle (HICON); Null is the null handle. */
  datatype Handle = Null | Icon(id: nat)

  /**
    The icon conversion service (Bitmap::GetHICON and DestroyIcon). It
    hands out fresh handles, may refuse a conversion, and records which
    handles are live (created and not yet destroyed). The ghost map
    `bitmaps` records, for every handle handed out, the bitmap it was
    converted from.
   */
  class IconService {
    var live: set<nat>
    var next: nat
    ghost var bitmaps: map<nat, array2<Pixel>>

    ghost predicate Valid()
      reads this
    {
      forall id :: id in live ==> id < next
    }

    constructor ()
      ensures Valid() && live == {}
    {
      live := {};
      next := 0;
      bitmaps := map[];
    }

    /**
      GetHICON: either fails with a null handle or returns a fresh live
      one converted from the bitmap.
     */
    method GetHIcon(img: array2<Pixel>) returns (icon: Handle)
      requires Valid()
      modifies this
      ensures Valid()
      ensures icon.Null? ==> live == old(live) && bitmaps == old(bitmaps)
      ensures icon.Icon? ==> icon.id !in old(live) && live == old(live) + {icon.id}
      ensures icon.Icon? ==> bitmaps == old(bitmaps)[icon.id := img]
    {
      var converted: bool :| true;
      if converted {
        icon := Icon(next);
        live := live + {next};
        bitmaps := bitmaps[next := img];
        next := next + 1;
      } else {
        icon := Null;
      }
    }

    /** DestroyIcon: releases a live handle. */
    method DestroyIcon(icon: Handle)
      requires Valid() && icon.Icon? && icon.id in live
      modifies this
      ensures Valid()
      ensures live == old(live) - {icon.id} && next == old(next) && bitmaps == old(bitmaps)
    {
      live := live - {icon.id};
    }
  }
}
