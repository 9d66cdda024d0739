# Mandelbrot explorer: verified model of the render core

This project models the core of a small Rust desktop program that draws the
Mandelbrot set at an adjustable zoom with a selectable two-colour gradient
(`src/main.rs`). The model covers four things:

- **the escape-time loop** (module `Escape`). For each sample point `c`, the
  loop iterates `z := z*z + c` from `z = 0`. It stops when the budget
  `max_iter` is used up or when `|z| > 2`.
- **the colour mapping** (module `Colors`). This holds the `Gradient` record,
  the rainbow, purple and green presets, `interpolate` together with Rust's
  saturating `as u8` cast, and the choice between opaque black and the
  gradient colour.
- **the buffer fill** (module `Render`). This is `generate_mandelbrot`. It
  zeroes a `width*height*4` byte buffer. It then visits the pixels column by
  column (`x` outer, `y` inner) and copies each pixel's RGBA colour into its
  row-major slot `(y*width + x)*4`. The loop works on an `array` in place and
  is proved equal to `Image`, the row-major image given byte by byte. Loop
  invariants show that every slot not yet visited still holds 0 and every
  visited slot holds its colour, so each slot is written exactly once. The
  lemmas on `Slot`, `Column` and `Row` show that the slots are disjoint,
  stay inside the buffer and tile it.
- **the application state** (module `App`). `MandelbrotApp` keeps `pixels`,
  `zoom` and `selected_gradient`. Its invariant is that `pixels` is always
  the image of the current zoom and gradient. Construction sets it up, and
  every slider move or gradient click restores it.

Numbers are exact `real`s. Complex numbers are pairs of reals
(`ComplexNumbers`). The source's test `norm() <= 2.0` becomes
`re*re + im*im <= 4`, which is equivalent for exact reals.

The code shows a detail that an "escape count in `[0, max_iter)`" reading
hides. The first iterate is `z_0 = 0`, which is always inside the radius, so
the loop runs at least once whenever `max_iter >= 1`
(`Escape.EscapeCountPositive`). An escaped pixel therefore has
`t = iter/max_iter` in `(0, 1)`, never 0. So no escaped pixel is coloured at
`t = 0`: the case of `Colors.StartColorAtZero` never arises from the escape
loop. (Truncation can still give the start colour's bytes at a small positive
`t`, for example with a large budget or a gradient whose two ends agree.) A pixel whose
orbit leaves the radius exactly at the last allowed step has
`iter == max_iter` and is painted black. The model follows the code in both
cases.

## Model

| member | source | states |
|---|---|---|
| Escape.EscapeIteration | src/main.rs:104-110 | The `while` loop with mutable `z` and `iter` ends with `iter <= max_iter` and `z` the `iter`-th iterate of `z := z*z + c`. If it stopped before the budget, `|z|^2 > 4` (modulus above 2). The count equals `EscapeCount` |
| Escape.EscapeCountIsEscapeCount | src/main.rs:105-110 | The count meets the reference meaning. Every iterate before it lies within radius 2, it is at most `max_iter`, and if it is below `max_iter` the iterate it stops at lies outside the radius |
| Escape.EscapeCountUnique | src/main.rs:105-110 | That reference meaning fixes the count: any `n` that satisfies it equals `EscapeCount` |
| Escape.EscapeCountPositive | src/main.rs:104-107 | For `max_iter >= 1` the count is at least 1, because `z_0 = 0` always passes the loop test |
| Escape.OriginNeverEscapes | src/main.rs:104-110 | The point `0 + 0i` uses the whole budget for every `max_iter` |
| Escape.FarPointEscapesAtOnce | src/main.rs:104-110 | The point `2 + 2i` stops at count 1 for every budget of at least 1 |
| Escape.MinusHalfNeverEscapes | src/main.rs:104-110 | The point `-0.5 + 0i` uses the whole budget for every `max_iter`: its orbit stays on the real segment `[-0.5, 0]` |
| Escape.BoundedOrbitUsesBudget | src/main.rs:105-110 | A point whose iterates before the budget all stay within radius 2 ends the loop with `iter == max_iter` |
| Colors.CastU8 | src/main.rs:131 | `as u8` on a value in `[0, 256)` truncates it (`b <= v < b + 1`). It gives 0 below 0 and 255 from 256 up |
| Colors.InterpolateEndpoints | src/main.rs:130-132 | `interpolate(s, e, 0) == s` and `interpolate(s, e, 1) == e` |
| Colors.BlendBetween | src/main.rs:131 | For `t` in `[0, 1]`, the blend `s*(1-t) + e*t` lies between `min(s, e)` and `max(s, e)` |
| Colors.InterpolateBetween | src/main.rs:130-132 | For `t` in `[0, 1]`, the cast never saturates. The result is the truncated blend and lies between `min(s, e)` and `max(s, e)` |
| Colors.BlendApproachesEnd | src/main.rs:131 | The blend before the cast differs from the end value by `(s - e)*(1 - t)`, so the blend tends to the end value as `t` tends to 1 |
| Colors.InterpolateNearEnd | src/main.rs:130-132 | For `t` in `[0, 1)`: if `s < e` the byte is at most `e - 1`, so it never reaches the end value, and it is above `e - (e - s)*(1 - t) - 1`. If `s >= e` the byte is at least `e` and at most `e + (s - e)*(1 - t)` |
| Colors.Normalized | src/main.rs:114 | For `iter < max_iter`, `t = iter / max_iter` lies in `[0, 1)` and `t * max_iter == iter` |
| Colors.PixelColor | src/main.rs:113-121 | Every pixel colour has alpha 255. A pixel with `iter >= max_iter` is `[0, 0, 0, 255]` |
| Colors.EscapedColor | src/main.rs:113-118 | For an escaped pixel, channel `k` is `interpolate(start[k], end[k], t)` with `t` in `[0, 1)`, and it lies between the gradient's two values for `k` |
| Colors.ZeroBudgetIsBlack | src/main.rs:113-120 | With `max_iter == 0` every colour is opaque black, and the division at line 114 is never reached |
| Colors.StartColorAtZero | src/main.rs:114-118 | A count of 0 with `max_iter >= 1` would give exactly the gradient's start colour |
| Render.PointInWindow | src/main.rs:98-101 | Each pixel of the grid maps to a point in `[-0.5 - 1.75/zoom, -0.5 + 1.75/zoom) x [-1/zoom, 1/zoom)` |
| Render.ZoomScalesWindow | src/main.rs:100-101 | A sample point's offset from the centre `-0.5 + 0i` at a given zoom is its offset at zoom 1 divided by the zoom |
| Render.SlotInBounds | src/main.rs:96-99 | For `x < width` and `y < height`, the bytes `(y*width + x)*4 .. +4` lie inside the `width*height*4` buffer |
| Render.SlotOwner | src/main.rs:112 | Byte `i` lies in the slot of pixel `(x, y)` exactly when `(i/4) % width == x` and `(i/4) / width == y` |
| Render.ByteOwner | src/main.rs:96-99 | Every byte index below `width*height*4` lies in the slot of a pixel of the grid, at offset `i % 4`: the slots cover the buffer |
| Render.SlotsDisjoint | src/main.rs:112 | The slots of two different pixels do not overlap |
| Render.Image | src/main.rs:96 | The generated buffer has exactly `width*height*4` bytes |
| Render.ImageSlotByte | src/main.rs:112-123 | Byte `j < 4` of pixel `(x, y)`'s slot is channel `j` of that pixel's colour |
| Render.ImagePixel | src/main.rs:112-123 | The four bytes at `(y*width + x)*4` are the colour that the escape count of pixel `(x, y)`'s sample point selects |
| Render.ImageOpaque | src/main.rs:118-123 | Every alpha byte (index `4k+3`) of the buffer is 255 |
| Render.ImageBoundedBlack | src/main.rs:113-123 | A pixel whose loop ran the full budget is written as exactly `[0, 0, 0, 255]` |
| Render.ZeroBudgetImage | src/main.rs:107-123 | With `max_iter == 0` the whole buffer is opaque black |
| Render.ImageEscapedChannel | src/main.rs:113-123 | For an escaped pixel, the count is in `[1, max_iter)` and `t` is in `(0, 1)`. Byte `k < 3` of its slot is `interpolate` of the gradient's channel `k` at `t`, between the gradient's two values |
| Render.SmallImageCentre | src/main.rs:95-128 | A 4 x 4 image with budget 10 at zoom 1 has 64 bytes. Its pixel `(2, 2)` samples `-0.5 + 0i` and is opaque black |
| Render.FillPixel | src/main.rs:99-123 | Writing pixel `(x, y)`'s colour into its slot, and nothing else, takes the buffer from "pixels before `(x, y)` done, the rest 0" to the same with `(x, y)` done |
| Render.FillColumn | src/main.rs:98-124 | When the inner `y` loop has covered the whole column `x`, every pixel of columns up to `x` is done and the rest of the buffer is still 0 |
| Render.FillComplete | src/main.rs:98-127 | When the outer `x` loop has covered every column, the buffer equals the image byte for byte |
| Render.CopyPixel | src/main.rs:123 | `copy_from_slice` writes the four colour bytes at the slot and leaves every other byte unchanged |
| Render.GenerateMandelbrot | src/main.rs:95-128 | The in-place fill, `x` outer and `y` inner, returns exactly `Image`. Its invariants say each slot still holds 0 until its pixel is visited and holds the pixel's colour afterwards |
| App.MandelbrotApp.constructor | src/main.rs:44-48 | After `default`, `zoom == 1.0`, the gradient is the rainbow preset and `pixels` is the image generated for them |
| App.MandelbrotApp.SetZoom | src/main.rs:63-68 | A slider change sets the zoom and regenerates `pixels` for the new zoom. The gradient is unchanged |
| App.MandelbrotApp.SelectGradient | src/main.rs:77-88 | A radio click selects its gradient and regenerates `pixels`. The zoom is unchanged |
| App.MandelbrotApp.Update | src/main.rs:52-93 | One frame handles the slider, then the rainbow, purple and green buttons. Afterwards the zoom is the slider's value if it moved, the gradient is the last one clicked, and `pixels` is the image of both |

## Left out

- `main` and `eframe::run_native`: process and window start-up, not part of the computation.
- The egui plumbing in `update`: panels, windows, labels, texture creation and upload, and drawing the image. These are foreign GUI calls. Only the state changes they trigger are modelled, with the user's input given as a `FrameInput` parameter.
- App.MandelbrotApp.SetZoom: requires only `zoom > 0`. The slider's `0.1..=5.0` clamp is a widget concern and is not modelled.
- Render.GenerateMandelbrot: requires `zoom > 0`. The source would divide by a zero `f64` zoom and get infinities. The application never passes such a zoom.
- IEEE-754 `f64` arithmetic: the coordinate map, `z*z + c` and `interpolate` are computed on exact reals, so rounding is not modelled. Neither are NaN and infinities, nor `as u8` on NaN.
- `num_complex::Complex`: modelled as a pair of reals with the usual product. `norm()` (a square root) is replaced by comparing the squared modulus with 4.
- Machine integer widths: `width*height*4` and `(y*width + x)*4` are unbounded naturals. With the program's 800 x 800 image they fit in `usize` by a wide margin, and `iter` never exceeds `max_iter` (a `u32`).
- The polynomial "fire" palette of the program's other variant is not part of this model. Only the gradient colouring of `src/main.rs` is modelled.
