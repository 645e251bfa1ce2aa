# colorz colour arithmetic in Dafny

colorz picks the dominant colours of an image and pairs each one with a
brighter "bold" twin, for terminal colour schemes. This project models the
colour arithmetic around the image decoder and the clustering step:

- `down_scale` / `up_scale`: fixed-point scaling by 256 between channels on
  the 0..255 scale and unit-interval floats. `up_scale` truncates with
  Python's `int()`, toward zero.
- `hexify`: an integer triple written as `#rrggbb`, the hex notation of
  section 5.2 of CSS Color Module Level 4. `ParseHex` reads back exactly what `hexify` writes.
- `clamp`: pins the HSV value between `min_v/256` and `max_v/256`. Hue and
  saturation pass through unchanged.
- `brighten`: adds `brightness/256` to the value with no clamp.
- `order_by_hue`: a stable sort of the colours' HSV triples by hue. The
  in-place `list.sort` becomes an in-place sort of an `array<Hsv>`.
- the body of `colorz` after decoding: clamp every observed colour, cluster,
  optionally order by hue, and pair each centroid with its brightened twin.

Modules, one per component:

| file | module | models |
|---|---|---|
| colorspace.dfy | `ColorSpace` | scaling, `clamp`, `brighten`, the colour types |
| colorsys.dfy | `ExactColorsys` | Python's `colorsys` conversions in exact arithmetic, to show that the bounds the gamut lemmas assume hold for them |
| hex.dfy | `Hex` | `hexify` and its inverse |
| hue_order.dfy | `HueOrder` | `order_by_hue`, the stable sort |
| colorz.dfy | `Palette` | the `colorz` pipeline |

The HSV conversions come from Python's `colorsys` module, which colorz
imports (colorz.py:10) and does not define. Every operation takes them as a
`ColorSys` value holding two total functions, and nothing is assumed about
them, except in the gamut lemmas. Those take a `ColorsysBounds` hypothesis:
`rgb_to_hsv` of a colour with channels in [0, 1] has its hue in [0, 1), its
saturation in [0, 1] and a non-negative value, and `hsv_to_rgb` with a
non-negative hue, a saturation in [0, 1] and a non-negative value v gives
channels in [0, v], one of them v. `ExactColorsys.ExactBounds` proves this of a
transcription of the two conversions. The hue guard matters: `hsv_to_rgb`
takes `int(h * 6.0)`, which truncates toward zero, so a hue of -0.1 gives a
green channel of -0.6 (`ExactColorsys.NegativeHueLeavesRange`). colorz only
passes `hsv_to_rgb` hues that `rgb_to_hsv` produced, and in exact arithmetic
those lie in [0, 1). With floats they can reach 1.0: for a slightly negative
`h`, Python's `(h / 6.0) % 1.0` rounds up to 1.0, and `hsv_to_rgb` then
reads sextant 6, which is sextant 0 again.

The k-means step enters `Colorz` as a function parameter. Channels are
`real`, so the arithmetic is exact. Dividing and multiplying by 256 is exact
in binary floating point as well, but the addition in `brighten` is not,
and this model does not follow its rounding (see "Left out").

Facts about the code that the model keeps:
- The code scales by 256 (`SCALE = 256.0`, colorz.py:20), not by 255.
- `clamp` does not reject `min_v > max_v`. It then returns `max_v/256` as
  the value (see `ClampValue` and `ClampInverted`).
- Nothing checks `n`, `min_v`, `max_v` or `bold_add`; there is no error
  path for them.

## Model

| member | source | states |
|---|---|---|
| ColorSpace.DownScale | colorz.py:24-25 | the result times 256 is the input; it lies in [0, 1) exactly when the input lies in [0, 256) |
| ColorSpace.Truncate | colorz.py:28 | Python's `int()` on a float: the whole number nearest zero that is not past y, below y by less than 1 for non-negative y and above it by less than 1 for negative y |
| ColorSpace.UpScale | colorz.py:27-28 | the result is `int(x * 256)`, x*256 truncated toward zero as above |
| ColorSpace.UpScaleDownScale | colorz.py:24-28 | `up_scale(down_scale(n)) == n` for every integer n |
| ColorSpace.UpScaleAtMost | colorz.py:27-28 | `up_scale` stays at or below a whole number b whenever x*256 < b + 1 |
| ColorSpace.UpScaleMonotone | colorz.py:27-28 | on non-negative inputs `up_scale` is non-negative and preserves order |
| ColorSpace.DownScaleRgb | colorz.py:40 | each unit-scale channel times 256 is the original channel |
| ColorSpace.UpScaleRgb | colorz.py:43 | `tuple(map(up_scale, rgb))`: each channel is the unit-scale channel times 256, truncated toward zero |
| ColorSpace.ToHsv | colorz.py:40 | `rgb_to_hsv(*map(down_scale, color))` is the conversion of every unit-scale colour whose channels times 256 are the input's; under `ColorsysBounds`, a colour on the 0..256 scale gets a hue in [0, 1), a saturation in [0, 1] and a non-negative value |
| ColorSpace.FromHsv | colorz.py:43 | `tuple(map(up_scale, hsv_to_rgb(h, s, v)))`: each channel is the converted channel times 256, truncated toward zero |
| ColorSpace.ClampValue | colorz.py:42 | `min(max(lo, v), hi)` lies in [lo, hi] for a proper range; it equals v exactly when v is already inside; it is lo below the range and hi above it; it is always hi when lo > hi |
| ColorSpace.ClampValueIdempotent | colorz.py:42 | clamping a clamped value changes nothing |
| ColorSpace.ClampValueMonotone | colorz.py:42 | clamping preserves the order of values |
| ColorSpace.ClampedHsv | colorz.py:40-42 | the triple `clamp` passes to `hsv_to_rgb` has the input's hue and saturation; when min_v <= max_v its value times 256 lies in [min_v, max_v], the value is unchanged exactly when it was already in range, and it is exactly min_v/256 below the range and max_v/256 above it; it is max_v/256 when min_v > max_v |
| ColorSpace.Clamp | colorz.py:38-43 | `clamp` converts back the input's hue and saturation with: the input's own value when it lies in [min_v/256, max_v/256]; min_v/256 below that range; max_v/256 above it, and max_v/256 whenever min_v > max_v |
| ColorSpace.ClampInRange | colorz.py:38-43 | for a colour whose value is already in range, `clamp` is a plain `hsv_to_rgb(rgb_to_hsv(...))` round trip |
| ColorSpace.ClampInverted | colorz.py:41-43 | with min_v > max_v, two colours with equal hue and saturation clamp to the same result whatever their values |
| ColorSpace.BrightenedHsv | colorz.py:53-54 | the triple `brighten` passes to `hsv_to_rgb` has the input's hue and saturation; its value is the input's value plus brightness/256, and it is lower exactly when brightness is negative |
| ColorSpace.Brighten | colorz.py:51-54 | `brighten` converts back the input's hue and saturation with the value moved by exactly brightness/256 |
| ColorSpace.BrightenZero | colorz.py:51-54 | `brighten` by 0 is a plain colorsys round trip |
| ColorSpace.BrightenUnbounded | colorz.py:54 | nothing caps the value: from a non-negative value, a brightness above 256 yields a value above 1.0 |
| ColorSpace.FromHsvChannels | colorz.py:43 | under `ColorsysBounds`, for a non-negative hue and value and a saturation in [0, 1], converting back gives channels in 0..up_scale(v), and the brightest channel is exactly up_scale(v) |
| ColorSpace.FromHsvInGamut | colorz.py:43 | under `ColorsysBounds`, for a non-negative hue and value and a saturation in [0, 1], converting back from a value below (b+1)/256 gives channels in 0..b |
| ColorSpace.ClampInGamut | colorz.py:38-43 | under `ColorsysBounds`, if 0 <= min_v <= max_v <= 255, clamping a colour on the 0..255 scale gives channels in 0..max_v, which `hexify` accepts, and a brightest channel (the clamped value on the 0..255 scale) of at least min_v |
| ColorSpace.BrightenInGamut | colorz.py:51-54 | under `ColorsysBounds`, for a colour on the 0..255 scale whose raised value is non-negative, `brighten` gives channels in 0..255 exactly when the raised value times 256 is below 256 |
| ExactColorsys.RgbToHsv | colorz.py:10 | Python's `rgb_to_hsv` in exact arithmetic: the hue always lies in [0, 1); for non-negative channels the value is the largest channel; for positive channels the saturation is 0 exactly when the colour is grey |
| ExactColorsys.HsvToRgb | colorz.py:10 | Python's `hsv_to_rgb` in exact arithmetic: one channel is always v, and a saturation of 0 gives the grey (v, v, v) |
| ExactColorsys.RgbToHsvBounds | colorz.py:40 | on channels in [0, 1], `rgb_to_hsv` gives a saturation in [0, 1] and a non-negative value |
| ExactColorsys.HsvToRgbBounds | colorz.py:43 | with a non-negative hue, a saturation in [0, 1] and a non-negative value v, `hsv_to_rgb` gives channels in [0, v] |
| ExactColorsys.ExactBounds | colorz.py:10 | the exact `colorsys` conversions satisfy `ColorsysBounds`, so the gamut lemmas apply to them |
| ExactColorsys.NegativeHueLeavesRange | colorz.py:43 | without the hue guard the bound fails: `hsv_to_rgb(-0.1, 1, 1)` is (1, -0.6, 0) |
| Hex.HexDigit | colorz.py:31 | each digit is a lowercase hexadecimal character; decimal digits serve 0..9 |
| Hex.DigitValue | colorz.py:31 | a character has a value exactly when it is a lowercase hex digit; the value is in 0..15 and writes back as that character |
| Hex.DigitRoundTrip | colorz.py:31 | reading a written digit gives its value back |
| Hex.HexByte | colorz.py:31 | `'%02x' % p` for p in 0..255 is exactly two hex digits |
| Hex.ParseByte | colorz.py:31 | two characters read as a channel exactly when both are hex digits; the channel is in 0..255 |
| Hex.ByteRoundTrip | colorz.py:31 | reading a written channel gives the channel back |
| Hex.ByteParsed | colorz.py:31 | a channel that was read writes back as the same two characters |
| Hex.Hexify | colorz.py:30-31 | the string is 7 characters: `#`, then lowercase hex digits, two per channel in r, g, b order |
| Hex.ParseHex | colorz.py:30-31 | a string is read only if it has 7 characters and starts with `#`; the triple it gives is in 0..255 |
| Hex.HexRoundTrip | colorz.py:30-31 | reading the string that `hexify` writes gives the triple back |
| Hex.ParseHexCanonical | colorz.py:30-31 | every string that can be read is exactly what `hexify` writes for the triple it gives |
| Hex.HexifyInjective | colorz.py:30-31 | distinct triples are written as distinct strings |
| HueOrder.Insert | colorz.py:48 | inserting one triple lengthens the sequence by one |
| HueOrder.InsertPermutes | colorz.py:48 | inserting adds exactly that triple to the multiset |
| HueOrder.InsertSorted | colorz.py:48 | inserting into a hue-sorted sequence keeps it sorted |
| HueOrder.InsertWithHue | colorz.py:48 | the inserted triple goes after every earlier triple of its hue; other hues are untouched |
| HueOrder.InsertAt | colorz.py:48 | the triple lands after the last triple of no greater hue and before the run of greater hues |
| HueOrder.StableSort | colorz.py:48 | the reference stable sort returns as many triples as it gets |
| HueOrder.StableSortSorted | colorz.py:48 | the sorted triples are non-decreasing by hue |
| HueOrder.StableSortPermutes | colorz.py:48 | the sorted triples are a permutation of the input |
| HueOrder.StableSortKeepsHueOrder | colorz.py:48 | stability: for every hue, the triples of that hue come out in their input order |
| HueOrder.SortedSameHuesEqual | colorz.py:48 | two hue-sorted sequences with the same triples of every hue, in the same order, are equal |
| HueOrder.StableSortUnique | colorz.py:48 | every hue-sorted arrangement that keeps each hue's input order is the reference sort, so any stable sort by hue gives the same result |
| HueOrder.StableSortIdempotent | colorz.py:48 | sorting twice is sorting once |
| HueOrder.SinkByHue | colorz.py:48 | one in-place step: the first i+1 slots become the reference insertion of slot i into slots 0..i-1, and the rest are untouched |
| HueOrder.SortByHue | colorz.py:48 | the array, sorted in place, equals the reference stable sort of its old contents |
| HueOrder.HsvsOf | colorz.py:47 | one HSV triple per colour |
| HueOrder.FromHsvs | colorz.py:49 | one integer colour per triple |
| HueOrder.HueOrdered | colorz.py:45-49 | `order_by_hue` returns as many colours as it gets |
| HueOrder.HueOrderedSortsHsvs | colorz.py:45-49 | the colours returned are the converted-back triples of a hue-sorted, stable permutation of the input colours' HSV triples, one per input colour |
| HueOrder.OrderByHue | colorz.py:45-49 | the method returns as many colours as it gets, and they are exactly what `HueOrdered` specifies |
| Palette.Widen | colorz.py:72 | one real-valued colour per integer triple |
| Palette.ClampAll | colorz.py:71 | one clamped colour per observed colour |
| Palette.ClampAllPinsValue | colorz.py:71 | each clamped observation is the conversion of its own hue and saturation with the value pinned into [min_v/256, max_v/256] |
| Palette.ClampAllInGamut | colorz.py:71 | under `ColorsysBounds`, with 0 <= min_v <= max_v <= 255, every clamped observation has channels in 0..max_v and a brightest channel of at least min_v |
| Palette.PairWithBold | colorz.py:74 | one pair per colour |
| Palette.PairWithBoldEntries | colorz.py:74 | pair i holds colour i and, as bold twin, its conversion with the same hue and saturation and the value raised by bold_add/256 |
| Palette.Colorz | colorz.py:56-74 | the palette has one pair per centroid that k-means returns on the clamped observations; the pairs are built from the hue-ordered centroids when `order_colors` is set and from the raw centroids otherwise |

## Left out

- Image decoding, thumbnailing and `get_colors` (colorz.py:33-36, 67-70) are not modelled. PIL is a foreign library, so the observed colours are an input sequence.
- scipy's `kmeans` (colorz.py:72) is a function parameter. It is randomised floating-point clustering in a library that is not part of this model.
- Palette.Colorz: does not promise n pairs (the docstring's 2*n colours). scipy's `kmeans` may return fewer centroids than requested. The model proves one pair per centroid returned.
- `colorsys.rgb_to_hsv` and `colorsys.hsv_to_rgb` are parameters of every operation and are not interpreted there. The gamut lemmas take `ColorsysBounds` as a hypothesis; `ExactColorsys.ExactBounds` proves it of an exact-arithmetic transcription, not of the floating-point library.
- ExactColorsys.RgbToHsv: returns black where Python raises ZeroDivisionError (a negative channel and a largest channel of 0). Only colours with channels in [0, 1] matter to `ColorsysBounds`, and they never reach that case.
- Floating point: channels are exact reals. IEEE rounding, NaN and infinities are not modelled.
- ColorSpace.BrightenedHsv: states the value as exactly v + brightness/256. The float addition at colorz.py:54 rounds when v is not a multiple of 1/256 (a raw k-means centroid, for one) or when the sum passes 1.0, so Python's value may differ from it in the last bits.
- ColorSpace.BrightenInGamut: says nothing when brightness pushes the value below 0. `ColorsysBounds` does not cover a negative value.
- Hex.Hexify: only accepts channels in 0..255. Python's `%02x` writes three digits or a minus sign outside that range, and `brighten` can push a channel there. Python also rejects floats in `%x`, and when `order_colors` is false the base colours are raw float centroids. `Hexify` only takes integer triples.
- `list.sort` is Python's merge-based stable sort. `SortByHue` is an insertion sort by adjacent swaps. `StableSortUnique` shows that both give the same result.
- `main`, `parse_args` and the printing of hex pairs (colorz.py:77-134) are not modelled: they are command-line and I/O plumbing.
- The unused imports and constants (colorz.py:1-5, 16-17) are not modelled because nothing uses them. `THUMB_SIZE` (colorz.py:19) belongs to the thumbnailing step above.
- The default arguments of `colorz` (colorz.py:12-15, 56-57) are not modelled: `Palette.Colorz` takes every parameter explicitly.
