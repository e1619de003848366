/**
  ColoredIcon (colored_icon.hpp): the built-in palette, the origin and
  mask images with their gray range, and the icon cache whose map and
  insertion queue get_icon and release_cache_front update in place.
 */
module ColoredIcons {
  import opened Gdi
  import opened Recolor
  import opened IconCache

  /** Console text attributes (FOREGROUND_BLUE, _GREEN, _RED, _INTENSITY). */
  const ForegroundBlue: int := 1
  const ForegroundGreen: int := 2
  const ForegroundRed: int := 4
  const ForegroundIntensity: int := 8
  const ForegroundReset: int := ForegroundIntensity + ForegroundRed + ForegroundGreen + ForegroundBlue

  /** A palette entry: the switch name, its colour and its console attribute. */
  datatype BuildinItem = BuildinItem(name: string, ref: ColorRef, attr: int)

  /** The built-in palette, in the order the constructor lists it. */
  const Palette: seq<BuildinItem> := [
    BuildinItem("black", Rgb(0, 0, 0), ForegroundReset),
    BuildinItem("pink", Rgb(150, 0, 60), ForegroundIntensity + ForegroundRed),
    BuildinItem("red", Rgb(100, 0, 0), ForegroundRed),
    BuildinItem("green", Rgb(0, 100, 0), ForegroundGreen),
    BuildinItem("blue", Rgb(0, 0, 100), ForegroundBlue),
    BuildinItem("yellow", Rgb(100, 100, 0), ForegroundRed + ForegroundGreen),
    BuildinItem("purple", Rgb(100, 0, 100), ForegroundRed + ForegroundBlue),
    BuildinItem("cyan", Rgb(0, 100, 100), ForegroundGreen + ForegroundBlue)
  ]

  /** Palette names are distinct, so the first entry with a name is the only one. */
  lemma PaletteNamesDistinct()
    ensures forall i, j :: 0 <= i < j < |Palette| ==> Palette[i].name != Palette[j].name
  {
  }

  /** The origin and mask images fit together and (lo, hi) is their gray range. */
  ghost predicate ImagesReady(origin: array2<Pixel>, mask: array2<Pixel>, lo: int, hi: int)
    reads origin, mask
  {
    && SameSize(origin, mask)
    && IsGrayRange(origin, mask, lo, hi)
    && Renderable(origin, mask, lo, hi)
  }

  class ColoredIcon {
    const buildin: seq<BuildinItem>
    const foregroundReset: int
    /** The icon conversion service the icons come from and go back to. */
    const gdi: IconService

    var origin: array2?<Pixel>
    var mask: array2?<Pixel>
    var grayMin: Byte
    var grayMax: Byte

    var icons: map<ColorRef, Handle>
    var iconsQueue: seq<ColorRef>

    /** The cache as a value. */
    function State(): Cache
      reads this
    {
      Cache(icons, iconsQueue)
    }

    /**
      The cache invariant: the map and the queue agree, the queue holds at
      most MAX_CACHE_NUM + 1 colours, and every cached handle is live and
      held by one colour only.
     */
    ghost predicate Valid()
      reads this, gdi
    {
      && gdi.Valid()
      && Tracked(State(), gdi.live)
    }

    /** init succeeded: both images are loaded and the gray range is theirs. */
    ghost predicate Ready()
      reads this, origin, mask
    {
      origin != null && mask != null && ImagesReady(origin, mask, grayMin, grayMax)
    }

    constructor (gdi: IconService)
      requires gdi.Valid()
      ensures Valid() && this.gdi == gdi
      ensures buildin == Palette && foregroundReset == ForegroundReset
      ensures origin == null && mask == null && State() == EmptyCache
    {
      this.gdi := gdi;
      buildin := Palette;
      foregroundReset := ForegroundReset;
      origin, mask := null, null;
      grayMin, grayMax := 0, 0;
      icons, iconsQueue := map[], [];
    }

    /**
      init: the two images come from the resource loader, null when it
      failed. Loading stops at the first failure; the gray range is
      computed only when both loaded. The masked region of the embedded
      image is required not to be entirely black (gray_max would be 0).
     */
    method Init(loadedOrigin: array2?<Pixel>, loadedMask: array2?<Pixel>) returns (ok: bool)
      requires loadedOrigin != null && loadedMask != null ==> SameSize(loadedOrigin, loadedMask)
      requires loadedOrigin != null && loadedMask != null && AnyMasked(loadedMask) ==>
                 exists x, y :: 0 <= x < loadedMask.Length0 && 0 <= y < loadedMask.Length1 &&
                                IsMask(loadedMask[x, y]) && loadedOrigin[x, y].r > 0
      modifies this
      ensures ok <==> loadedOrigin != null && loadedMask != null
      ensures origin == loadedOrigin
      ensures mask == if loadedOrigin == null then old(mask) else loadedMask
      ensures ok ==> Ready()
      ensures !ok ==> grayMin == old(grayMin) && grayMax == old(grayMax)
      ensures icons == old(icons) && iconsQueue == old(iconsQueue)
    {
      origin := loadedOrigin;
      if origin == null {
        return false;
      }
      mask := loadedMask;
      if mask == null {
        return false;
      }
      grayMin, grayMax := GetImageGrayRange(origin, mask);
      GrayRangeRenderable(origin, mask, grayMin, grayMax);
      ok := true;
    }

    /**
      get_icon: a hit returns the cached handle; a miss renders and
      converts; a successful miss evicts the oldest colour when the queue
      holds more than MAX_CACHE_NUM, then caches the new handle. The live
      handle set changes exactly as the set of cached handles does.
     */
    method GetIcon(color: ColorRef) returns (icon: Handle)
      requires Valid() && Ready()
      modifies this, gdi
      ensures Valid() && Ready()
      ensures origin == old(origin) && mask == old(mask) && grayMin == old(grayMin) && grayMax == old(grayMax)
      ensures GetIconStep(old(State()), color, State(), icon)
      ensures color !in old(icons) && icon.Icon? ==> icon.id !in old(gdi.live)
      ensures gdi.live == old(gdi.live) - HandleIds(old(icons)) + HandleIds(icons)
      ensures color !in old(icons) && icon.Icon? ==>
                icon.id in gdi.bitmaps && IsRendering(gdi.bitmaps[icon.id], origin, mask, grayMin, grayMax, color)
    {
      if color in icons {
        icon := icons[color];
        return;
      }
      icon := Miss(color);
    }

    /**
      A miss of get_icon: render and convert; on success remember the new
      handle, which shows the colour's rendering.
     */
    method Miss(color: ColorRef) returns (icon: Handle)
      requires Valid() && Ready() && color !in icons
      modifies this, gdi
      ensures Valid() && Ready()
      ensures origin == old(origin) && mask == old(mask) && grayMin == old(grayMin) && grayMax == old(grayMax)
      ensures icon.Null? ==> State() == old(State()) && gdi.live == old(gdi.live)
      ensures icon.Icon? ==> State() == Insert(old(State()), color, icon) && icon.id !in old(gdi.live)
      ensures icon.Icon? ==>
                icon.id in gdi.bitmaps && IsRendering(gdi.bitmaps[icon.id], origin, mask, grayMin, grayMax, color)
      ensures gdi.live == old(gdi.live) - HandleIds(old(icons)) + HandleIds(icons)
    {
      icon := MakeIcon(color);
      if icon.Icon? {
        Remember(color, icon);
        assert color in icons && icons[color] == icon;
        assert icon.id in HandleIds(icons);
      }
    }

    /**
      The successful miss of get_icon: release the oldest colour when the
      queue holds more than MAX_CACHE_NUM, then queue the colour and map it
      to the new handle.
     */
    method Remember(color: ColorRef, icon: Handle)
      requires Valid() && color !in icons && icon.Icon? && icon.id in gdi.live && icon.id !in HandleIds(icons)
      modifies this, gdi
      ensures Valid()
      ensures origin == old(origin) && mask == old(mask) && grayMin == old(grayMin) && grayMax == old(grayMax)
      ensures State() == Insert(old(State()), color, icon)
      ensures gdi.live == old(gdi.live) - HandleIds(old(icons)) + HandleIds(icons)
      ensures gdi.bitmaps == old(gdi.bitmaps)
    {
      ghost var before, live := State(), gdi.live;
      if |iconsQueue| > MaxCacheNum {
        ReleaseCacheFront();
      }
      ghost var kept, live1 := State(), gdi.live;
      iconsQueue := iconsQueue + [color];
      icons := icons[color := icon];
      InsertTracksHandles(before, color, icon, live, kept, live1);
    }

    /**
      make_icon: render into a fresh bitmap of the origin's size and
      convert it; a new handle shows the colour-`color` rendering.
     */
    method MakeIcon(color: ColorRef) returns (icon: Handle)
      requires gdi.Valid() && origin != null && mask != null
      requires SameSize(origin, mask) && Renderable(origin, mask, grayMin, grayMax)
      modifies gdi
      ensures gdi.Valid()
      ensures icon.Null? ==> gdi.live == old(gdi.live) && gdi.bitmaps == old(gdi.bitmaps)
      ensures icon.Icon? ==> icon.id !in old(gdi.live) && gdi.live == old(gdi.live) + {icon.id}
      ensures icon.Icon? ==> icon.id in gdi.bitmaps && fresh(gdi.bitmaps[icon.id])
      ensures icon.Icon? ==> IsRendering(gdi.bitmaps[icon.id], origin, mask, grayMin, grayMax, color)
      ensures icon.Icon? ==> gdi.bitmaps == old(gdi.bitmaps)[icon.id := gdi.bitmaps[icon.id]]
    {
      var img := new Pixel[origin.Length0, origin.Length1];
      RenderColoredImage(origin, mask, img, grayMin, grayMax, color);
      icon := gdi.GetHIcon(img);
    }

    /** release_cache_front: destroy and forget the oldest cached icon, pop the queue. */
    method ReleaseCacheFront()
      requires Valid() && |iconsQueue| > 0
      modifies this, gdi
      ensures Valid()
      ensures origin == old(origin) && mask == old(mask) && grayMin == old(grayMin) && grayMax == old(grayMax)
      ensures State() == ReleaseFront(old(State()))
      ensures HandleIds(icons) <= HandleIds(old(icons))
      ensures gdi.live == old(gdi.live) - HandleIds(old(icons)) + HandleIds(icons)
      ensures gdi.bitmaps == old(gdi.bitmaps)
    {
      ReleaseFrontKeepsInv(State());
      var front := iconsQueue[0];
      if front in icons {
        HandleIdsRemove(icons, front);
        gdi.DestroyIcon(icons[front]);
        icons := icons - {front};
      }
      iconsQueue := iconsQueue[1..];
    }

    /**
      The destructor: drop the images, then release cached icons front
      first until the queue is empty; every cached handle is destroyed
      exactly once and nothing else is.
     */
    method Dispose()
      requires Valid()
      modifies this, gdi
      ensures Valid()
      ensures origin == null && mask == null && State() == EmptyCache
      ensures gdi.live == old(gdi.live) - HandleIds(old(icons))
    {
      origin := null;
      mask := null;
      while |iconsQueue| > 0
        invariant Valid() && origin == null && mask == null
        invariant HandleIds(icons) <= HandleIds(old(icons))
        invariant gdi.live == old(gdi.live) - (HandleIds(old(icons)) - HandleIds(icons))
        decreases |iconsQueue|
      {
        ReleaseCacheFront();
      }
      assert icons == map[];
    }
  }
}
