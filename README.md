# procimag colour core in Dafny

This project models three small self-contained pieces of the procimag image editor:

- **`ConversorService`** converts colours. `rgbToHsl` maps an 8-bit red, green, blue triple to a hue in degrees, a saturation and a lightness. `hslToRgb` maps back to rounded 8-bit channels, using the six-sector chroma construction. It lives in module `Conversor` (`conversor.dfy`).
- **The `Color` component** holds three grayscale weights. Moving one slider clamps that weight. The other two are rescaled to fill what is left of one. All three are rounded to thousandths, and the rounding residual goes onto the first largest weight. The weights are then handed to the grayscale conversion if they sum to at most 1.001. It lives in module `GreyWeights` (`color.dfy`) as the class `GreyWeights.Color`.
- **The de-interleaving loop of `ImageService.extractColorMatrices`** splits a row-major RGBA buffer into red, green and blue planes and drops alpha. It lives in module `ImageService` (`image_service.dfy`).

`samples.dfy` defines the 8-bit sample type. `js_math.dfy` defines JavaScript's `Math.round`, which both the converter and the weight rounding use.

All arithmetic is on exact reals:

- `Math.round(x)` is `floor(x + 1/2)`.
- JavaScript's `%` is written out as a remainder with the sign of the dividend (`Conversor.Rem`).
- `Math.max`, `Math.min` and `Math.abs` are written as explicit comparisons.

Some details of how the code is modelled:

- **Weights as a record.** The weight fields `r`, `g`, `b` are read and written through the computed key `this[k]`. The model reads them as a `Weights` record (`Color.Current`) and writes them with `Color.SetWeight`.
- **Forwarding log.** The call into `imageService.toGrayscaleLinear` is recorded in the field `forwarded`, which lists every weight record handed on, oldest first.
- **Rebalancing step.** Lines 48-66 of `onSlider` (clamp, then refill the other two weights) are the helper method `Color.Rebalance`, which `Color.OnSlider` calls before the rounding, the normalisation and the forwarding. The `if (sumOldOthers === 0)` choice between an even split and a rescale is the function `GreyWeights.Refill`; `Color.Rebalance` computes the two new values with it and writes both with `Color.SetPair`.
- **Plane rows.** The source creates an empty row `r[y] = []` and then sets `r[y][x]` for increasing `x`. The model builds each row by appending and appends it to the plane. The resulting planes are the same.

## Model

| member | source | states |
|---|---|---|
| `Conversor.HslToRgb` | procimag/src/app/core/conversor.service.ts:7-24 | `hslToRgb`: chroma `c = (1 - abs(2l - 1)) s`, sector offset `(h % 360) / 60`, the six-branch sector table, offset `m = l - c/2`, and each channel `Math.round(255 (channel + m))` |
| `Conversor.Sector` | procimag/src/app/core/conversor.service.ts:12-17 | the if/else chain on the sector offset: which of red, green and blue gets the chroma, the secondary value `x` or zero |
| `Conversor.Place` | procimag/src/app/core/conversor.service.ts:10-18 | the secondary value `x = c (1 - abs(hp % 2 - 1))`, the sector table, and `m` added to every channel |
| `Conversor.RgbToHsl` | procimag/src/app/core/conversor.service.ts:26-43 | `rgbToHsl`: the channels divided by 255, then the wrapped hue, the saturation and the lightness of those values |
| `Conversor.Lightness` | procimag/src/app/core/conversor.service.ts:28-30 | `(max + min) / 2` of the three channels |
| `Conversor.Saturation` | procimag/src/app/core/conversor.service.ts:28-32 | `d / (1 - abs(2l - 1))` when the spread `d = max - min` is non-zero, and 0 otherwise |
| `Conversor.Hue` | procimag/src/app/core/conversor.service.ts:29-40 | 0 when the spread is zero, otherwise the hue of the branch the `switch (max)` takes, before the wrap |
| `Conversor.BranchHue` | procimag/src/app/core/conversor.service.ts:36-38 | the three `case` formulas: `60 ((g - b)/d % 6)`, `60 ((b - r)/d + 2)` and `60 ((r - g)/d + 4)` |
| `Conversor.Wrap` | procimag/src/app/core/conversor.service.ts:41 | `if (h < 0) h += 360` |
| `Conversor.Rem` | procimag/src/app/core/conversor.service.ts:9-10 | JavaScript `%`: a non-negative dividend leaves a remainder in [0, n), a negative one a remainder in (-n, 0] |
| `JsMath.Round` | procimag/src/app/core/conversor.service.ts:19-23 | `Math.round` returns the integer within one half of its argument, halves going up |
| `Conversor.Unit` | procimag/src/app/core/conversor.service.ts:27 | an 8-bit channel divided by 255 lies in [0, 1] |
| `Conversor.HueBranch` | procimag/src/app/core/conversor.service.ts:35-38 | the `switch (max)` picks red exactly when red is a maximum, green exactly when red is not and green is, and otherwise blue, which is then a maximum |
| `Conversor.DenominatorPositive` | procimag/src/app/core/conversor.service.ts:30-32 | when the largest and smallest channel differ, `1 - abs(2l - 1)` is strictly positive, so the saturation division is defined |
| `Conversor.LightnessIsMidrange` | procimag/src/app/core/conversor.service.ts:27-30 | lightness lies between the smallest and largest normalised channel, at equal distance from both, and in [0, 1] |
| `Conversor.SaturationInUnit` | procimag/src/app/core/conversor.service.ts:29-34 | saturation lies in [0, 1]; it is zero exactly when the three channels are equal, and then the hue is zero too |
| `Conversor.BranchHueBounds` | procimag/src/app/core/conversor.service.ts:34-39 | for a branch whose channel is a maximum, the unwrapped hue lies in [-60, 300], and it is negative exactly in the red branch with green below blue |
| `Conversor.HueInRange` | procimag/src/app/core/conversor.service.ts:34-41 | after the `+360` wrap the hue always lies in [0, 360) |
| `Conversor.TieBreakIrrelevant` | procimag/src/app/core/conversor.service.ts:35-41 | when channels tie for the maximum, any branch whose channel is a maximum gives the same wrapped hue as the branch the `switch` takes |
| `Conversor.GreyWhenUnsaturated` | procimag/src/app/core/conversor.service.ts:8-23 | with zero saturation `hslToRgb` returns the grey triple `round(255 l)` in all three channels, whatever the hue |
| `Conversor.SecondaryChroma` | procimag/src/app/core/conversor.service.ts:10 | for a sector offset in [0, 6), `c * (1 - abs(hp % 2 - 1))` rises linearly on even sectors and falls on odd ones |
| `Conversor.PlaceIsWheel` | procimag/src/app/core/conversor.service.ts:10-18 | the six-branch sector table plus the offset `m` equals the piecewise-linear hue wheel |
| `Conversor.WheelBetween` | procimag/src/app/core/conversor.service.ts:12-18 | for a sector offset in [0, 6) and a non-negative chroma, each wheel channel lies between `m` and `m + c` |
| `Conversor.SectorOfHue` | procimag/src/app/core/conversor.service.ts:9 | for a non-negative hue the sector offset `(h % 360) / 60` lies in [0, 6) |
| `Conversor.ChromaInUnit` | procimag/src/app/core/conversor.service.ts:8-18 | for saturation and lightness in [0, 1], the chroma is non-negative and `m` and `m + c` lie in [0, 1] |
| `Conversor.HslToRgbInRange` | procimag/src/app/core/conversor.service.ts:7-23 | for a non-negative hue and saturation and lightness in [0, 1], every output channel lies in [0, 255] |
| `Conversor.HueIsPeriodic` | procimag/src/app/core/conversor.service.ts:9 | a non-negative hue and the same hue plus 360 give the same colour |
| `Conversor.ChromaIsSpread` | procimag/src/app/core/conversor.service.ts:29-32 | the chroma that `hslToRgb` rebuilds from `rgbToHsl`'s saturation and lightness equals the spread `max - min` |
| `Conversor.RedRestores` | procimag/src/app/core/conversor.service.ts:36 | the red-branch hue, wrapped and placed on the wheel with the spread and the minimum, gives back the three channels |
| `Conversor.GreenRestores` | procimag/src/app/core/conversor.service.ts:37 | the same for the green branch |
| `Conversor.BlueRestores` | procimag/src/app/core/conversor.service.ts:38 | the same for the blue branch |
| `Conversor.HueRestores` | procimag/src/app/core/conversor.service.ts:33-41 | the hue `rgbToHsl` returns, placed with the spread and the minimum, gives back the channels |
| `Conversor.RestoresUnits` | procimag/src/app/core/conversor.service.ts:7-43 | `hslToRgb` of the hue, saturation and lightness `rgbToHsl` computes from channels in [0, 1] returns those channels scaled by 255 and rounded |
| `Conversor.RoundTrip` | procimag/src/app/core/conversor.service.ts:7-43 | `hslToRgb(rgbToHsl(r, g, b)) == (r, g, b)` exactly for every 8-bit triple |
| `GreyWeights.Normalized` | procimag/src/app/sections/color/color.ts:32-43 | `normalizeSumTo1` on a weight record: unchanged when `round3(1 - sum)` is zero, otherwise the first largest weight becomes `round3(clamp01(max + diff))` |
| `GreyWeights.Refill` | procimag/src/app/sections/color/color.ts:57-66 | the `sumOldOthers === 0` choice: half of the remainder each, or both old values scaled by `remaining / sumOldOthers` |
| `GreyWeights.Rebalanced` | procimag/src/app/sections/color/color.ts:48-66 | the moved weight clamped into [0, 1] and the other two refilled to `clamp01(1 - newValue)` |
| `GreyWeights.RoundEach` | procimag/src/app/sections/color/color.ts:68-70 | each of the three weights rounded with `round3` |
| `GreyWeights.Slid` | procimag/src/app/sections/color/color.ts:46-71 | the weights after a whole slider move: rebalanced, rounded, then normalised |
| `GreyWeights.Forwards` | procimag/src/app/sections/color/color.ts:79-83 | the weights are forwarded exactly when they sum to at most 1.001 |
| `GreyWeights.Weights.With` | procimag/src/app/sections/color/color.ts:42 | `this[k] = v` changes weight `k` to `v` and leaves the other two unchanged |
| `GreyWeights.Clamp01` | procimag/src/app/sections/color/color.ts:24-26 | `clamp01` returns a value in [0, 1]; it is the identity on [0, 1], gives 0 below it and 1 above it |
| `GreyWeights.Round3` | procimag/src/app/sections/color/color.ts:28-30 | `round3` returns a whole number of thousandths within half a thousandth of its argument |
| `GreyWeights.FirstLargest` | procimag/src/app/sections/color/color.ts:40-41 | the `reduce` with `>=` picks a largest weight, and every weight before it in r, g, b order is strictly smaller |
| `GreyWeights.Others` | procimag/src/app/sections/color/color.ts:50 | the filter yields two distinct keys, neither of them the moved one |
| `GreyWeights.RefillKeepsRatio` | procimag/src/app/sections/color/color.ts:57-66 | the refilled weights sum to the remainder; they keep the old ratio when the old sum is non-zero, get half each when it is zero, and are non-negative when the inputs are |
| `GreyWeights.RebalanceFillsRemainder` | procimag/src/app/sections/color/color.ts:48-66 | the moved weight is clamped into [0, 1], and the other two sum to one minus it, keeping their ratio or splitting it evenly when both were zero |
| `GreyWeights.RebalancedSumsToOne` | procimag/src/app/sections/color/color.ts:48-66 | before rounding the three weights sum to exactly one |
| `GreyWeights.RebalancedInUnit` | procimag/src/app/sections/color/color.ts:48-66 | if the two unmoved weights were non-negative, every weight lies in [0, 1] before rounding |
| `GreyWeights.Round3InUnit` | procimag/src/app/sections/color/color.ts:28-30 | `round3` of a value in [0, 1] stays in [0, 1], the rounded count of thousandths lying in [0, 1000] |
| `GreyWeights.NormalizedKeepsBalanced` | procimag/src/app/sections/color/color.ts:32-38 | `normalizeSumTo1` changes nothing when `round3(1 - sum)` is zero |
| `GreyWeights.NormalizedMovesFirstLargest` | procimag/src/app/sections/color/color.ts:32-43 | otherwise it sets only the first largest weight, to `round3(clamp01(max + diff))`, and leaves the other two untouched |
| `GreyWeights.ResidualAbsorbed` | procimag/src/app/sections/color/color.ts:32-43 | when three thousandths in [0, 1] miss one by one thousandth, `normalizeSumTo1` moves the first largest onto a thousandth in [0, 1] so that the three sum to exactly one |
| `GreyWeights.NormalizedSumsToOne` | procimag/src/app/sections/color/color.ts:32-43 | three thousandths in [0, 1] whose sum is within one thousandth of one are normalised to thousandths in [0, 1] summing to exactly one |
| `GreyWeights.SlidSumsToOne` | procimag/src/app/sections/color/color.ts:46-76 | when the unmoved weights are non-negative, a slider move ends with thousandths in [0, 1] summing to exactly one, so they always pass the 1.001 check |
| `GreyWeights.BasicForwards` | procimag/src/app/sections/color/color.ts:18-22 | the basic weights 0.299, 0.587, 0.114 lie in [0, 1] and sum to one |
| `GreyWeights.Color.constructor` | procimag/src/app/sections/color/color.ts:18-22 | the panel starts with the basic weights in both the fields and `colorsMat`, with nothing forwarded |
| `GreyWeights.Color.SetWeight` | procimag/src/app/sections/color/color.ts:42 | the computed-key write changes exactly one weight field |
| `GreyWeights.Color.NormalizeSumTo1` | procimag/src/app/sections/color/color.ts:32-43 | the new weights are the normalised old weights |
| `GreyWeights.Color.ToGreyScale` | procimag/src/app/sections/color/color.ts:78-84 | `mat` is appended to the forwarded records exactly when its weights sum to at most 1.001; otherwise nothing changes |
| `GreyWeights.Color.SetPair` | procimag/src/app/sections/color/color.ts:59-65 | the two computed-key writes change exactly the two named weight fields |
| `GreyWeights.Color.Rebalance` | procimag/src/app/sections/color/color.ts:48-66 | the new weights are the old ones with the moved weight clamped and the other two refilled |
| `GreyWeights.Color.OnSlider` | procimag/src/app/sections/color/color.ts:46-76 | the new weights are the slid old ones and `colorsMat` equals them; they are forwarded exactly when they pass the 1.001 check, and always when the unmoved weights were non-negative, in which case they lie in [0, 1] and sum to one |
| `GreyWeights.Color.BackToBasicGrey` | procimag/src/app/sections/color/color.ts:86-92 | the weights and `colorsMat` become 0.299, 0.587, 0.114 and that record is forwarded |
| `ImageService.PixelIndex` | procimag/src/app/core/image-service.ts:40-43 | `(y * width + x) * 4 + offset`, the buffer index the loop reads for channel `offset` of pixel `(x, y)` |
| `ImageService.IndexInBounds` | procimag/src/app/core/image-service.ts:35-43 | every index `(y * width + x) * 4 + offset` the loop reads is inside a buffer of `width * height * 4` samples |
| `ImageService.Plane` | procimag/src/app/core/image-service.ts:35-39 | a plane has `height` rows of `width` samples each |
| `ImageService.PlaneSample` | procimag/src/app/core/image-service.ts:40-43 | the plane sample at row `y`, column `x` is the buffer sample at the pixel's base plus the channel offset, copied unchanged |
| `ImageService.ChannelsOfOnePixel` | procimag/src/app/core/image-service.ts:40-43 | green and blue are read at one and two past the red sample, and no channel reads an index congruent to 3 modulo 4 |
| `ImageService.IndexInjective` | procimag/src/app/core/image-service.ts:40 | distinct pixel and offset pairs inside the image read distinct buffer indices |
| `ImageService.IndexCovered` | procimag/src/app/core/image-service.ts:35-40 | every buffer index is the index of some pixel of the image and some offset within it |
| `ImageService.AlphaNeverRead` | procimag/src/app/core/image-service.ts:40-43 | two buffers that differ only in alpha samples give the same three planes |
| `ImageService.ExtractColorMatrices` | procimag/src/app/core/image-service.ts:31-46 | the nested loop returns exactly the red, green and blue planes of the buffer |

## Left out

- Browser I/O is not part of this model. This covers `FileReader`, `Image`, the canvas and `getImageData`, and the Promise callbacks of `uploadPhoto` and `extractColorMatrices`. The decoded RGBA buffer and its width and height are parameters of `ImageService.ExtractColorMatrices`.
- The "Canvas context not available" rejection is an I/O failure before the loop starts, so it is not modelled.
- IEEE-754 rounding is not modelled; every quantity is an exact real. `Conversor.RoundTrip` is therefore exact. With doubles the conversion can be off by one per channel, and the `diff === 0` and `sum === 0` tests can compare values that are off by rounding error.
- NaN and infinite inputs are not modelled, for example a slider value that is not a number reaching `clamp01`.
- `Conversor.RgbToHsl`: the channels are 8-bit samples (0 to 255), not arbitrary numbers. With that range the saturation denominator is non-zero whenever the channels differ.
- `Conversor.HslToRgbInRange`: it assumes a non-negative hue. For a negative hue, `(h % 360) / 60` is negative and the source falls into its last branch.
- `imageService.toGrayscaleLinear` is not part of this model. The weights handed to it are recorded in `forwarded`.
- The template's two-way slider binding that writes the new value into `this[clr]` before `onSlider` runs lives in the component's HTML and is not modelled. `GreyWeights.Color.OnSlider` starts from whatever value the field holds.
- `GreyWeights.SlidSumsToOne` assumes that the two unmoved weights are non-negative. They are non-negative after construction and after `BackToBasicGrey`, and `GreyWeights.Color.OnSlider` keeps them in [0, 1] once they are. The class does not carry this as an invariant.
- The UI components that only forward to services (`spatial.ts`, `logic.ts`, `geometric.ts`, `morfologic.ts`, `aritmetica.ts`, `image/image.ts`, `app.ts`, `app.routes.ts`) and the `*.spec.ts` files are not part of this model.
- The filter, morphology, flip and logic-gate engine is not part of this model, because its source is not among the files modelled.
