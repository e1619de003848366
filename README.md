# icmd: recoloured console icons, in Dafny

icmd starts a command in a new console window whose icon is recoloured.
The launcher reads the icon argument and the command from its command
line. The argument is either an image file or a `:name` switch naming one
of eight built-in colours, or `:browse`.

`ColoredIcon` owns an embedded origin image and a mask image. Pixels whose
mask colour is magenta are recolourable. For each target colour it
renders a bitmap from these images, converts the bitmap to an icon
handle and caches the handle in a FIFO cache. In browse mode the user
steps through the palette with the Up and Down arrow keys.

The project has five modules:

- `Gdi` holds pixels, `COLORREF` values and icon handles. It also holds
  an `IconService` class that hands out fresh handles (a conversion may
  fail), records which handles are live and keeps, as ghost state, the
  bitmap each handle was converted from.
- `Recolor` holds the gray-range scan and the per-pixel rendering over
  `array2<Pixel>` bitmaps, as loops proved against pixel functions.
- `IconCache` holds the cache as a value (map plus queue) with its
  invariant and the FIFO lemmas.
- `ColoredIcons` holds the `ColoredIcon` class. Its `icons` map and
  `iconsQueue` fields are updated in place by `GetIcon`, `ReleaseCacheFront`
  and `Dispose`. Each method is proved against the `IconCache` functions,
  and proved to destroy exactly the handles the cache drops.
- `App` holds the launcher logic of `main.cc`: command extraction,
  switch detection, argument parsing, switch resolution, icon loading
  and the key handling of the browser.

## Model

| member | source | states |
|---|---|---|
| Gdi.IsMask | src/colored_icon.hpp:70 | a pixel belongs to the recolourable region exactly when its red, green and blue are 255, 0 and 255 (ICON_MASK_COLOR) |
| Gdi.MaskIgnoresAlpha | src/colored_icon.hpp:108 | changing a pixel's alpha changes neither its COLORREF nor whether it is a mask pixel |
| Gdi.IconService.constructor | src/colored_icon.hpp:249-250 | the conversion service starts with no live handle |
| Gdi.IconService.GetHIcon | src/colored_icon.hpp:249-250 | a conversion returns null and changes nothing, or returns a handle not live before, adds exactly that handle, and records the bitmap it was converted from |
| Gdi.IconService.DestroyIcon | src/colored_icon.hpp:259 | destroying a live handle removes exactly that handle from the live set |
| Recolor.GetImageGrayRange | src/colored_icon.hpp:55-84 | the results are the least and greatest red value over the masked pixels (both attained); with no masked pixel they stay 255 and 0 |
| Recolor.GrayRangeUnique | src/colored_icon.hpp:55-84 | at most one (min, max) pair is the gray range of given images, so the scan's result is determined |
| Recolor.GrayRangeIgnoresUnmasked | src/colored_icon.hpp:69-73 | origin pixels outside the mask do not affect the gray range |
| Recolor.GrayRangeRenderable | src/colored_icon.hpp:195-196 | if some masked red is non-zero, the computed range makes every masked pixel renderable (positive max, red within [min, max]) |
| Recolor.Shade | src/colored_icon.hpp:116-117 | the shade lies in [0, ICON_MAX_LIGHTNESS] and is 0 exactly for the darkest masked red |
| Recolor.Blend | src/colored_icon.hpp:120-122 | a blended channel lies between the target channel and halfway to 255, and equals the target for the darkest red |
| Recolor.Lift | src/colored_icon.hpp:117-122 | the amount added to a channel, complement times shade, is between 0 and half the complement, and is 0 exactly for a zero complement or shade |
| Recolor.BlendMonotone | src/colored_icon.hpp:116-122 | a lighter origin red never gives a darker channel |
| Recolor.BlendExample | src/colored_icon.hpp:116-122 | concrete values: target 100 or 0, red 128, range 50..200 give 130 and 49 |
| Recolor.RenderPixel | src/colored_icon.hpp:107-123 | an unmasked pixel is copied from the mask image; a masked one is opaque, each channel between the target and halfway to white, and exactly the target colour for the darkest red |
| Recolor.UnmaskedIgnoresColor | src/colored_icon.hpp:107-111 | the target colour does not affect unmasked pixels |
| Recolor.RenderColoredImage | src/colored_icon.hpp:86-126 | every pixel of the output bitmap is the rendered pixel for its position |
| IconCache.ReleaseFront | src/colored_icon.hpp:255-264 | the queue loses one colour; the oldest colour leaves the map, every other colour keeps its handle, and no colour is added |
| IconCache.Insert | src/colored_icon.hpp:219-226 | the new colour maps to the new handle and is last in the queue; every other colour in the result was cached before with the same handle |
| IconCache.GetIconStep | src/colored_icon.hpp:213-229 | after a hit or a successful miss the colour maps to the returned handle; no step adds another colour or changes another colour's handle |
| IconCache.ReleaseFrontKeepsInv | src/colored_icon.hpp:255-264 | releasing the front keeps the cache invariant, removes the oldest colour, and keeps every other entry |
| IconCache.InsertKeepsInv | src/colored_icon.hpp:219-226 | a successful miss keeps the invariant; the queue grows by one until it holds MAX_CACHE_NUM + 1 colours, then stays there |
| IconCache.InsertEvictsOnlyOldest | src/colored_icon.hpp:219-226 | the new colour maps to its handle; only the oldest colour is evicted, and only when the queue held more than MAX_CACHE_NUM |
| IconCache.CacheSize | src/colored_icon.hpp:271-272 | the map has as many entries as the queue has colours |
| IconCache.GetIconStepKeepsInv | src/colored_icon.hpp:213-229 | any get_icon outcome keeps the invariant and at most MAX_CACHE_NUM + 1 entries |
| IconCache.GetIconIdempotent | src/colored_icon.hpp:215-217 | once a colour got a handle, asking again returns the same handle and changes nothing |
| IconCache.FifoWindow | src/colored_icon.hpp:219-226 | after distinct successful inserts into an empty cache, the queue is exactly the last MAX_CACHE_NUM + 1 colours in order, each with its own handle |
| IconCache.FirstEvictedOnFiftySecond | src/colored_icon.hpp:130 | 51 distinct colours all stay cached; the 52nd evicts the first |
| IconCache.InsertTracksHandles | src/colored_icon.hpp:219-226 | across a successful miss the live handles change exactly as the cached handles do, and cached handles stay distinct and live |
| ColoredIcons.PaletteNamesDistinct | src/colored_icon.hpp:151-160 | the built-in colour names are pairwise distinct |
| ColoredIcons.ColoredIcon.constructor | src/colored_icon.hpp:141-161 | the palette is the eight built-in colours with their console attributes; the cache is empty |
| ColoredIcons.ColoredIcon.Init | src/colored_icon.hpp:179-198 | succeeds exactly when both images load, stops at the first failure, on success stores the images' gray range, and on failure leaves the gray range as it was |
| ColoredIcons.ColoredIcon.GetIcon | src/colored_icon.hpp:213-229 | the cache moves by one GetIconStep (hit, failed miss, or insert with eviction past MAX_CACHE_NUM); the invariant holds; live handles change exactly as the cached ones; a handle made on a miss was converted from the colour's rendering of the images |
| ColoredIcons.ColoredIcon.Miss | src/colored_icon.hpp:219-228 | a failed conversion changes nothing; a successful one inserts the colour into the cache and returns a handle converted from the colour's rendering |
| ColoredIcons.ColoredIcon.Remember | src/colored_icon.hpp:220-226 | the cache becomes Insert of the old cache (eviction past MAX_CACHE_NUM, then append and map); live handles change exactly as the cached ones |
| ColoredIcons.ColoredIcon.MakeIcon | src/colored_icon.hpp:232-253 | a new handle was converted from a fresh bitmap of the origin's size holding, at every position, the rendered pixel for the colour; the only change to live handles and to the conversion record is the new handle, if any |
| ColoredIcons.ColoredIcon.ReleaseCacheFront | src/colored_icon.hpp:255-264 | the cache becomes ReleaseFront of the old cache, and exactly the oldest colour's handle is destroyed |
| ColoredIcons.ColoredIcon.Dispose | src/colored_icon.hpp:163-177 | drops both images and empties the cache, destroying exactly the cached handles |
| App.Find | src/main.cc:98 | returns the first occurrence of the needle at or after the offset, or nothing when there is none |
| App.DropQuote | src/main.cc:107-108 | the result is the text itself or the text without its first character, and it is shorter exactly when the text starts with a double quote |
| App.ExpectedCommand | src/main.cc:91-121 | a non-empty command is a suffix of the command line that is not all spaces |
| App.BlankToEmpty | src/main.cc:110-118 | the scan for a non-space character gives "" for an all-space tail and the tail itself otherwise |
| App.ExpectedCommandMeaning | src/main.cc:91-121 | no command exactly when there is no occurrence of the icon argument at or after the first occurrence of argv[0]; otherwise the text after the icon argument without one leading quote, and "" exactly when that text is all spaces |
| App.ParseArgCommand | src/main.cc:91-121 | the loop's result is ExpectedCommand |
| App.IsAppSwitch | src/main.cc:123-126 | an argument is a switch exactly when ":" is a prefix of it |
| App.AppSwitchRoundTrip | src/main.cc:123-126 | ":" + name is a switch, and dropping the ':' gives name back |
| App.ParseArg | src/main.cc:128-154 | usage exactly when there is no argument; an error exactly for a non-switch path that does not exist; otherwise the icon argument and a non-empty command, "cmd" when none was found or it was blank |
| App.FirstNamedInPalette | src/main.cc:185-191 | with the built-in palette, an entry with the switch's name is the first such entry and the only one |
| App.ParseAppSwitch | src/main.cc:177-194 | "browse" gives a null icon with nothing changed; otherwise success exactly when a palette entry has the name, with get_icon's result for the first such entry |
| App.LoadAppIcon | src/main.cc:196-212 | a switch is resolved without its ':' and gives usage exactly when unknown; a file gives its loaded icon, or the load error when that is null |
| App.KeyStep | src/main.cc:240-266 | Ctrl+C exits; the selection moves exactly on Up or Down after an arrow prefix and stays in range; the arrow latch never resets |
| App.CyclicSteps | src/main.cc:254-265 | the loop's `+= total - 1` or `+= 1` followed by `%= total` steps one entry back or forward, wrapping at the ends |
| App.UpDownInverse | src/main.cc:254-260 | Up then Down, or Down then Up, returns to the same selection |
| App.Run | src/main.cc:239-267 | every index the browser shows, and the final selection, is within the palette |
| App.RunExitsOnCtrlC | src/main.cc:247-248 | the browser ends by Ctrl+C exactly when Ctrl+C is among the keys |
| App.RunQuietBeforeArrow | src/main.cc:251-252 | without an arrow prefix no key moves the selection, so nothing is shown |
| App.DownsAdvance | src/main.cc:257-265 | n presses of Down show n entries and advance the selection by n modulo the palette size |
| App.Browse | src/main.cc:229-268 | the loop shows entry 0 first, then exactly the selections Run gives, and exits as Run says; every index is in range |

## Left out

- Loading the embedded PNG resources (`load_image_from_resource`) is not modelled. `Init` takes the two loaded bitmaps, or null, as parameters.
- `Gdi.IconService.GetHIcon` may fail or succeed freely. Whether GDI+ refuses a conversion is not modelled. The service records the converted bitmap in a ghost map. `make_icon` deletes that bitmap after conversion, and the model keeps it (nothing writes to it again).
- ColoredIcons.ColoredIcon.GetIcon: a handle returned on a hit is not proved to show the colour's rendering. Only a handle made by the same call is. The cache invariant does not carry the bitmaps of cached handles.
- Recolor.Blend: computed in exact real arithmetic and then floored, not in 32-bit floats. A float rounding step that crosses an integer boundary can differ by one.
- Recolor.RenderColoredImage: requires a positive gray maximum and masked reds within the range. With an all-black masked region the source divides 0 by 0 and converts NaN to BYTE, which is undefined. `Init` therefore requires the embedded image's masked region not to be entirely black.
- ColoredIcons.ColoredIcon.MakeIcon: the `new_img == NULL` branch is not modelled, since allocation in the model does not fail.
- `colored_print` (console text attributes), `show_usage`, `error()` output, console allocation and stdio redirection, the taskbar and window-icon calls, COM and GDI+ start-up, `_wsystem`, `entry` and `WinMain` are I/O and are not modelled.
- `browse_show_preview` is not modelled. `Browse` returns the sequence of indices it would preview, and the previews' own `get_icon` calls are not part of the model.
- `CommandLineToArgvW`, `PathFileExists` and `load_icon_from_file` are parameters of `ParseArg` and `LoadAppIcon`. The pre-parsed argv, an existence predicate and the loaded handle stand in for them.
- App.ParseAppSwitch: compares the switch to the palette names as Dafny strings. The `CW2A` wide-to-ANSI conversion, with its best-fit mapping of non-ASCII characters, is not modelled.
- `_getch` is replaced by the sequence of key codes `Browse` reads. Running out of keys ends the model's loop, whereas the source waits forever.
- The cache keeps up to MAX_CACHE_NUM + 1 = 51 colours, because eviction happens only when the queue already holds more than 50. So 51 distinct colours are all cached and the 52nd evicts the first. The code is followed here.
- src/base.hpp (the `DEFER` helper and `error()` stream) is not part of this model.
