# wasm-mandelbrot, modelled in Dafny

This project models the discrete skeleton of an animated Mandelbrot-style renderer. The renderer has two parts:

- A WebAssembly evaluator (`src/lib.rs`). For every pixel of a `width × height` raster it iterates `z := z^power + c` from `z = 0`. It stops at the first step where `|z|` exceeds a threshold, and it uses that step number to index a colour table. The result is one colour word per pixel, in row-major order. When no step escapes, the index is `iterations - 1`. An index outside the table makes it panic.
- A page driver (`www/src/main.ts`). It sizes a 768 × 768 canvas from the plane window [-2, 1] × [-1.5, 1.5] at 256 pixels per unit. It paints a 64-entry colour table from a canvas gradient and fails fast if the canvas or its 2D context is missing. Then it renders frame after frame, raising the exponent `power` by 0.1 each time and copying each buffer into the canvas image data.

Floating point is abstracted away:

- The complex orbit is an `EscapeOracle`. It is an arbitrary predicate saying whether step `i` of the orbit of `a + bi`, at a given power and threshold, has escaped.
- `f64` and JavaScript numbers are read as exact reals.
- The browser's gradient rasteriser is a `paint` function that gives the colour painted into each column of the colour-table canvas.

Everything else is modelled as the code does it:

- the first-escape search;
- the pixel-to-plane mapping, including the vertical scale that is taken from the width;
- the nested row-major loop and its panic;
- the little-endian `Uint32Array` views over RGBA bytes;
- the typed-array copy loop;
- the ECMAScript `ToUint32` conversion of the canvas size;
- the start-up checks;
- the power sequence.

Modules:

- `Pixels` (`pixels.dfy`): `u8`/`u32`, RGBA packing and the `Uint32Array` views.
- `Escape` (`escape.dfy`): the bounded first-escape search.
- `Fractal` (`fractal.dfy`): the `Range` and `Mandelbrot` records, the plane coordinates, `compute_point_value` and `update`.
- `Driver` (`driver.dfy`): the canvas constants, `computeColors`, the copy loop, `render`, the power sequence and `main`.

## Model

| member | source | states |
|---|---|---|
| `Escape.PointValue` | src/lib.rs:37-45 | With a budget `n >= 1`, the result is below `n`. No earlier step escaped. Step `r` escaped or `r == n - 1`. Step `r` escaped iff some step below `n` escaped. When no step escapes, the result is `n - 1`. |
| `Escape.FirstEscape` | src/lib.rs:37-45 | The step-by-step loop, which returns at the first escape and falls back to `n - 1`, gives the same index as the reference search. |
| `Escape.SearchResultUnique` | src/lib.rs:37-45 | The first-escape characterisation picks out at most one index for a given budget. |
| `Escape.LastStepIrrelevant` | src/lib.rs:40-45 | Orbits that agree on all steps but the last get the same index. So escaping exactly at step `n - 1` cannot be told apart from never escaping. |
| `Escape.LaterStepsIrrelevant` | src/lib.rs:37-42 | Orbits that agree up to and including the returned step get the same index. Nothing after the first escape is looked at. |
| `Fractal.NewRange` | src/lib.rs:17-19 | Stores both ends verbatim and accepts every pair, including reversed or empty ranges. |
| `Fractal.NewMandelbrot` | src/lib.rs:74-82 | Stores width, height, iterations, threshold and colour table verbatim, with no validation. |
| `Fractal.ComputePointValue` | src/lib.rs:33-46 | The index of point `a + bi` is below `iterations`. No step before it escaped. It is the escaping step, or `iterations - 1`, which is also the result whenever nothing escapes. |
| `Fractal.PlaneCoordInRange` | src/lib.rs:51-60 | This lemma is the specification of `PlaneCoord`, the `cx`/`cy` computation. For an increasing range, pixel `k` of an axis scaled to `pixels` pixels maps inside the range iff `k < pixels`. Because `update` scales the y axis by the width, rows at or past `width` fall outside the y range. |
| `Fractal.PixelIndex` | src/lib.rs:55-62 | The escape index of pixel (x, y) is below the iteration budget. The definition, not the contract, scales both axes by `width`. |
| `Fractal.TableCoversBudget` | src/lib.rs:62-66 | When the colour table has at least `iterations` entries, every pixel's lookup hits the table. |
| `Fractal.BuildRow` | src/lib.rs:58-67 | The inner loop succeeds iff every column's index is in the table. On success it yields `width` words, with word `x` equal to `table[idx(x, y)]`. On a panic it reports the index of the leftmost miss, and every column before that one hit. |
| `Fractal.BuildFrame` | src/lib.rs:57-71 | The nested loop succeeds iff every pixel's index is in the table. On success the buffer has `w * h` words, word `y * w + x` holds pixel (x, y)'s colour, and every word is an element of the table. On a panic it reports the index of the first miss in row-major order. |
| `Fractal.Update` | src/lib.rs:48-72 | `update` returns a buffer iff no lookup misses. The buffer has `width * height` entries, laid out row-major with colours from `colors`. Otherwise it panics with the first missing index. A table with at least `iterations` entries never panics. |
| `Pixels.UnpackPack` | www/src/main.ts:32 | Reading a pixel's four bytes back through the 32-bit view returns the same bytes. |
| `Pixels.PackUnpack` | www/src/main.ts:36 | Splitting a word into bytes and packing them again returns the same word. |
| `Pixels.WordView` | www/src/main.ts:32 | The `Uint32Array` view of `n` pixels has `n` words, and word `i` unpacks to pixel `i`. |
| `Pixels.TexelView` | www/src/main.ts:36 | The pixel view of `n` words has `n` pixels, and pixel `i` packs to word `i`. |
| `Pixels.ViewsRoundTrip` | www/src/main.ts:32-36 | The word view and the pixel view of one buffer are mutually inverse. |
| `Driver.CanvasIs768Square` | www/src/main.ts:8-17 | The canvas is (1 - (-2)) · 256 = 768 by (1.5 - (-1.5)) · 256 = 768. Both sizes reach the evaluator as the `u32` 768. |
| `Driver.ToUint32` | www/src/main.ts:72 | The result is a `u32` congruent modulo 2^32 to the input truncated towards zero, and `Truncate`'s contract says that truncation drops the fraction towards zero. So a whole number in [0, 2^32) converts to itself, and a negative whole number above -2^32 wraps to itself plus 2^32. |
| `Driver.ComputeColors` | www/src/main.ts:19-33 | The colour table has exactly `width` entries, and entry `i` unpacks to the colour painted in column `i`. |
| `Driver.CopyFrame` | www/src/main.ts:46-48 | The image data keeps its length. Every index below both lengths gets the buffer's word. Indices at or beyond the buffer length are unchanged. Stores past the end of the image data are dropped. |
| `Driver.NextPower` | www/src/main.ts:52 | The next frame's power exceeds the current one by exactly 1/10. |
| `Driver.PowerAt` | www/src/main.ts:35-52 | The power of every frame is at least the first frame's power, 1. |
| `Driver.PowerClosedForm` | www/src/main.ts:35-52 | Frame `k` is rendered with power `1 + k/10`. |
| `Driver.PowerIncreasing` | www/src/main.ts:52 | A later frame always has a strictly larger power. |
| `Driver.DriverFrame` | www/src/main.ts:39-43 | `render` asks `update` for the window [-2, 1] × [-1.5, 1.5] at the current power. |
| `Driver.SquareCanvasHidesVerticalScale` | src/lib.rs:55-60 | On the 768-pixel canvas, row `y` maps inside [-1.5, 1.5) iff `y < 768`. The width-based vertical scale therefore has no visible effect on this page. |
| `Driver.Start` | www/src/main.ts:56-73 | Start-up succeeds iff the canvas, its 2D context and the colour canvas's context all exist. The first missing one, in that order, is the error. On success the evaluator is 768 × 768 with 64 iterations and threshold 2, the table has as many entries as the budget, entry `i` is gradient column `i`, and the image data has `width * height` transparent-black words. |
| `Driver.StartedNeverPanics` | www/src/main.ts:71-72 | A started page's evaluator has `iterations >= 1` and a table covering every index. So no frame's lookup misses, whatever the orbits and the power. |
| `Driver.Render` | www/src/main.ts:35-53 | A frame is shown iff every lookup hits the table (`FrameHits`). A shown frame keeps the evaluator and the image size, and schedules `power + 0.1`. Every pixel that fits in the image data holds its colour. Words past `width * height` are untouched. A crash reports the first missing index. |
| `Driver.Animate` | www/src/main.ts:35-53 | Tick `k` renders with `PowerAt(k)`, and no tick is skipped or repeated. Every rendered tick's lookups all hit. The loop halts only at the first tick whose lookup misses, so a crashed tick is never reported as rendered. The last image shows the last rendered frame, and nothing changes when no frame was rendered. |
| `Driver.ShownPixelIsPainted` | www/src/main.ts:36-50 | In image data that shows a frame, the pixel at (x, y) is the gradient colour of the table column chosen by that pixel's escape index. |
| `Driver.Page` | www/src/main.ts:56-76 | A page that fails start-up renders nothing. A page that starts never halts and renders tick `k` with `PowerAt(k)`. After the last tick, canvas pixel (x, y) carries the gradient colour of its escape index. |

## Left out

- The complex floating-point orbit (`Complex::powf`, `norm`, the comparison with the threshold) is replaced by the abstract `EscapeOracle`. No property of the orbit itself is stated.
- `f64` rounding in `range.0 + x / scale` is left out. `PlaneCoord` computes the exact real value. A zero-size range is handled as the infinite scale `f64` gives it. NaN and infinite range ends are not modelled.
- `Escape.PointValue`, `Fractal.ComputePointValue`, `Fractal.PixelIndex` and `Fractal.Update` require `iterations >= 1`. With `iterations == 0`, `self.iterations - 1` underflows a `u32` (src/lib.rs:45): a debug build panics and a release build yields `u32::MAX`, whose lookup then panics. Neither behaviour is modelled.
- The gradient rasteriser behind `computeColors` (the colour stops, `createLinearGradient`, `fillRect`) is a browser facility. It is the `paint` parameter. Only the table's length and its byte-exact readback are modelled. The code defines no colour stop at position 1, so the tail of the table repeats the last stop's colour.
- The `Uint32Array` views are little-endian, which is the byte order of WebAssembly and of the browsers that run it. Big-endian hosts are not modelled.
- The DOM and the host are parameters or are left out: `document.querySelector`, `getContext`, `putImageData`, `requestAnimationFrame` scheduling and `console.time`. Whether each lookup succeeds is a boolean parameter of `Driver.Start`.
- The animation is endless in the code. `Driver.Animate` and `Driver.Page` cover its first `frames` ticks, for any `frames`.
- The power step is exact: `0.1` is the real 1/10. IEEE double drift of the running sum is not modelled.
- `wasm_bindgen` attributes, the `wee_alloc` allocator and the `utils` module are left out. They carry no behaviour.
- The rule that a `Vec<u32>` or typed array is limited to 2^32 elements on wasm32 is not modelled.

## Behaviour of the code worth noting

- No size check is made when the frame buffer is copied into the image data. The copy loop writes the common prefix, and a typed-array store past the end is dropped (`Driver.CopyFrame`).
- The raster size is a plain product of the range span and the scale, with no rounding. It becomes a `u32` through `ToUint32` when it is passed to the evaluator.
- The colour table is read back from a `width × 1` canvas filled with a gradient that spans the canvas width.
- A panic in the evaluator surfaces as an exception inside `render`, before the next frame is scheduled. The animation therefore stops and leaves the last image in place (`Driver.Animate`).
- The 2D context inside `computeColors` is used without a null check. Its absence is a third start-up failure (`ColorContextUnavailable`).
