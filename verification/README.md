# BodyParticles: a Dafny model of the per-frame particle pipeline

`BodyParticles` turns each Kinect depth frame into particles. The raw 16-bit
depth samples are normalised; every depth pixel is then visited in row-major
order. A pixel spawns one particle when it passes three gates, in this order:

1. a random spawn-chance gate;
2. a gate that rejects a negative remapped display depth;
3. a silhouette test that looks the pixel up in the body-index mask.

The particle's position is the camera's image of the pixel's viewport point.

The Dafny project models that pipeline. It has one module per component:

| module | file | what it holds |
|---|---|---|
| `Numerics` | numerics.dfy | the tagged float of the mapped coordinates (`Finite`, `NaN`, `Infinity`), truncating `(int)` casts, 32-bit wrap-around, `Mathf.Min` |
| `GridIndex` | grid_index.dfy | the row-major depth index, the texture coordinate `uv`, the cross-resolution colour index, the row-major scan of a grid |
| `DepthNormalizer` | depth_normalizer.dfy | `RefreshData` and the unused 4 x 4 average `GetAvg` |
| `Silhouette` | silhouette.dfy | `IsSilhouette`: the OR-of-two-axes validity gate and the body-index lookup |
| `Projection` | projection.dfy | `remap` exactly as written, the display depth, the viewport point |
| `FrameEmitter` | frame_emitter.dfy | one pass of the `StartShow` loop: the gates per pixel, the emitting pixels, the emitted positions |

Modelling choices:

- **Floats.** Floats are `real`, without rounding. Only the coordinate-mapper output can be NaN or infinite, so only it uses the tagged `Float`.
- **Unspecified casts.** A C# `(int)` cast truncates toward zero. An unchecked cast of NaN, an infinity or a value outside `int` has no specified result; the model yields `None`, and the pixel counts as background.
- **Wrap-around.** The sum in the mask index wraps like a 32-bit `int` addition.
- **Mask lookup.** The source reads the body-index mask without a bounds check (line 180). The model checks the index instead: an index outside the mask classifies the pixel as background.
- **Random draws.** `Random.Range(0, 1)` becomes a supplied sequence of draws. Every pixel takes one draw, so the pixel with row-major index k takes draw k.
- **Camera and emission.** `Camera.ScreenToWorldPoint` is a function parameter. Emitting a particle appends its position to the pass's output sequence.

Behaviour of the code as written that the model keeps:

- **Mask stride.** The mask row stride is the literal 512. It is not the colour frame width. The mask is indexed by depth-space coordinates.
- **Spawn gate.** The gate skips a pixel only when its draw is greater than `spawnChance`. So a draw equal to the chance passes, and a chance of 0 still emits pixels whose draw is exactly 0 (`ZeroChanceAdmitsZeroDraws`).
- **Sentinel depth.** A zero raw sample normalises to the sentinel -1. With the default `remapMinDistance` of 10, `remap` sends -1 to 10 - 1/3.9, which is not negative. So the depth gate does not reject pixels without a depth reading (`SentinelKeptByDefault`).
- **`remap` formula.** `remap` divides by the product of the two range widths. It is not a linear rescale, and the model reproduces the formula as written.

## Model

| member | source | states |
|---|---|---|
| Numerics.Trunc | Assets/Scripts/BodyParticles.cs:99-100 | a C# `(int)` cast truncates toward zero: for r >= 0 the result is the largest integer not above r, for r < 0 the smallest not below it |
| Numerics.CastToInt | Assets/Scripts/BodyParticles.cs:180 | a cast has a value only for a finite operand whose truncation fits `int`, and that value lies within 1 of the operand; every finite operand whose truncation fits has one |
| Numerics.ScaleBy | Assets/Scripts/BodyParticles.cs:180 | multiplying the mapped Y by the positive 512 keeps it finite exactly when it was finite and NaN exactly when it was NaN |
| Numerics.Wrap32 | Assets/Scripts/BodyParticles.cs:180 | an `int` addition's result is the one 32-bit value congruent to the true sum modulo 2^32, so it equals the true sum whenever that sum fits |
| Numerics.Wrap32Overflow | Assets/Scripts/BodyParticles.cs:180 | an overflowing mask-index sum wraps: int.MaxValue + 1 gives int.MinValue, and int.MinValue + int.MinValue gives index 0, so line 180 would read `mask[0]` |
| Numerics.Min | Assets/Scripts/BodyParticles.cs:158-159 | `Mathf.Min` returns one of its arguments, and it is not above either |
| GridIndex.DepthIndex | Assets/Scripts/BodyParticles.cs:104 | the row-major depth index, also used by `RefreshData` at line 140. No contract of its own; DepthIndexInRange, DepthIndexInverse, DepthIndexInjective and DepthIndexOrder characterise it |
| GridIndex.DepthIndexInRange | Assets/Scripts/BodyParticles.cs:104 | for an in-grid pixel, `x + y*Width` lies in [0, Width*Height) |
| GridIndex.DepthIndexInverse | Assets/Scripts/BodyParticles.cs:140 | the depth index decodes back to the pixel: index % Width == x and index / Width == y |
| GridIndex.DepthIndexInjective | Assets/Scripts/BodyParticles.cs:104 | two in-row pixels get the same depth index exactly when they are the same pixel |
| GridIndex.DepthIndexOrder | Assets/Scripts/BodyParticles.cs:89-90 | the depth index increases exactly along the loop's row-major visiting order |
| GridIndex.UV | Assets/Scripts/BodyParticles.cs:95 | the texture coordinate of an in-grid pixel lies in [0, 1) on both axes |
| GridIndex.UVScalesBack | Assets/Scripts/BodyParticles.cs:95 | scaling the texture coordinate back by the frame size recovers the pixel |
| GridIndex.Cell | Assets/Scripts/BodyParticles.cs:99-100 | a texture coordinate in [0, 1) scaled to a positive size and truncated is a valid cell of that size |
| GridIndex.ColorIndex | Assets/Scripts/BodyParticles.cs:97-102 | for an in-grid pixel and positive colour sizes, the colour index lies in [0, cW*cH), so the coordinate-table read is in range |
| GridIndex.ColorIndexCoversPixel | Assets/Scripts/BodyParticles.cs:95-102 | the colour index decodes to a colour row inside the colour frame, and to the colour cell whose span on each axis contains the pixel's scaled position |
| GridIndex.CellCovers | Assets/Scripts/BodyParticles.cs:99-100 | along one axis, the truncated colour cell c of depth pixel x satisfies c <= x*cW/dW < c+1 |
| GridIndex.RowScan | Assets/Scripts/BodyParticles.cs:90 | walking one row left to right keeps exactly the kept pixels of that row, in increasing column order |
| GridIndex.GridScan | Assets/Scripts/BodyParticles.cs:89-90 | walking the rows top to bottom keeps exactly the kept pixels of the grid, in row-major order |
| DepthNormalizer.NormalizeSample | Assets/Scripts/BodyParticles.cs:145 | a zero sample becomes the sentinel -1; with a positive scale the result is -1 exactly when the sample is 0, and otherwise it is positive |
| DepthNormalizer.NormalizeSampleInverse | Assets/Scripts/BodyParticles.cs:145 | a non-zero sample is recovered by multiplying its normalised value by the scale |
| DepthNormalizer.RefreshData | Assets/Scripts/BodyParticles.cs:134-150 | the output is as long as the input; every in-grid entry is that sample's normalised value; every entry past Width*Height stays 0 |
| DepthNormalizer.RefreshTwoPixels | Assets/Scripts/BodyParticles.cs:134-150 | a 2 x 1 frame `[0, 500]` at scale 1000 normalises to `[-1, 0.5]` |
| DepthNormalizer.ClampedIndex | Assets/Scripts/BodyParticles.cs:158-161 | for a window position at or past the origin, the clamped index always lies in [0, width*height) |
| DepthNormalizer.ClampedIndexInGrid | Assets/Scripts/BodyParticles.cs:158-161 | inside the grid, clamping leaves the pixel's depth index unchanged |
| DepthNormalizer.WindowSample | Assets/Scripts/BodyParticles.cs:163-168 | each summed sample lies in [1, 65535], because a zero reading counts as 4500 |
| DepthNormalizer.RowSumBounds | Assets/Scripts/BodyParticles.cs:157-169 | k summed samples of a window row lie in [k, k*65535] |
| DepthNormalizer.WindowSumBounds | Assets/Scripts/BodyParticles.cs:156-170 | j summed window rows of four samples lie in [4j, 4j*65535] |
| DepthNormalizer.LoopBound | Assets/Scripts/BodyParticles.cs:156-157 | the unchecked loop bound `start + 4` is the true sum when it fits in `int`, and wraps to a negative value for a start within 4 of int.MaxValue |
| DepthNormalizer.GetAvg | Assets/Scripts/BodyParticles.cs:152-173 | when both `x + 4` and `y + 4` fit in `int`, the result is the sum of the 16 clamped window samples divided by 16, and so lies in [1, 65535]; when either bound wraps, the loops run zero times and the result is 0 |
| Silhouette.HasMapping | Assets/Scripts/BodyParticles.cs:177-178 | the validity gate: one axis finite and non-zero is enough. No contract of its own; UnmappedIsBackground and SilhouetteLookup pin its role on both sides of the gate |
| Silhouette.MaskIndex | Assets/Scripts/BodyParticles.cs:180 | the lookup index `(int)X + (int)(Y*512)` with the wrapping sum. No contract of its own; MaskIndexExact, Wrap32 and Wrap32Overflow characterise it |
| Silhouette.IsSilhouette | Assets/Scripts/BodyParticles.cs:175-186 | a pixel is a silhouette only if its mapped coordinate passes the validity gate and its lookup index is a valid index of the mask |
| Silhouette.UnmappedIsBackground | Assets/Scripts/BodyParticles.cs:177-185 | a coordinate that fails the gate classifies as background under any mask, so the mask is not read |
| Silhouette.SilhouetteLookup | Assets/Scripts/BodyParticles.cs:177-182 | past the gate, with casts that fit and an in-range index, the result is exactly `mask[trunc(X) + trunc(Y*512)] != 255` |
| Silhouette.MaskIndexExact | Assets/Scripts/BodyParticles.cs:180 | without overflow, the lookup index is the plain sum of the truncated X and the truncated Y*512 |
| Silhouette.SilhouetteReadsOneByte | Assets/Scripts/BodyParticles.cs:180-182 | two masks of equal length that agree at the lookup index classify alike |
| Silhouette.OutOfRangeIsBackground | Assets/Scripts/BodyParticles.cs:180 | a lookup index with no value, or one outside the mask, classifies as background |
| Projection.Remap | Assets/Scripts/BodyParticles.cs:188-191 | the source's `remap` formula as written. No contract of its own; RemapInverse, RemapAtOrigin and RemapMonotone characterise it |
| Projection.DisplayDepth | Assets/Scripts/BodyParticles.cs:106 | `remap(depth, 0, 0.01, remapMinDistance, 400)`. No contract of its own; DisplayDepthNegative and SentinelKeptByDefault characterise it |
| Projection.RemapInverse | Assets/Scripts/BodyParticles.cs:188-191 | (remap(s) - from2) times the denominator is s - from1; with a positive denominator remap(s) >= from2 exactly when s >= from1 |
| Projection.RemapAtOrigin | Assets/Scripts/BodyParticles.cs:188-191 | remap(from1) == from2 |
| Projection.RemapMonotone | Assets/Scripts/BodyParticles.cs:188-191 | remap is strictly increasing in s for a positive denominator and strictly decreasing for a negative one |
| Projection.DisplayDepthNegative | Assets/Scripts/BodyParticles.cs:106-115 | with a minimum distance under 400, the depth gate rejects exactly the normalised depths below -min*(400-min)/100 |
| Projection.SentinelKeptByDefault | Assets/Scripts/BodyParticles.cs:106-115 | under the default minimum distance 10, the sentinel -1 remaps to 10 - 1/3.9 >= 0 and passes the depth gate |
| Projection.ViewportPoint | Assets/Scripts/BodyParticles.cs:108-111 | the viewport depth is the display depth, and a texture coordinate in [0, 1) lands on the 1920 x 1080 display |
| Projection.ViewportInverse | Assets/Scripts/BodyParticles.cs:108-111 | the texture coordinate is recovered from the viewport point: x/1920 and (1080 - y)/1080 |
| FrameEmitter.PixelIndex | Assets/Scripts/BodyParticles.cs:104 | an in-grid pixel's depth index is a valid index of both the depth values and the draws |
| FrameEmitter.PixelColorIndex | Assets/Scripts/BodyParticles.cs:97-102 | an in-grid pixel's colour index is a valid index of the coordinate table |
| FrameEmitter.ProcessPixel | Assets/Scripts/BodyParticles.cs:91-119 | the loop body for one pixel, with its outcome. No contract of its own; GateOrder and EmittedIffAllGates characterise it |
| FrameEmitter.GateOrder | Assets/Scripts/BodyParticles.cs:91-119 | the gates apply in source order, and the first one failed names the outcome; an emitted pixel's viewport point lies on the display with depth >= 0 |
| FrameEmitter.EmittedPixels | Assets/Scripts/BodyParticles.cs:89-127 | the emitting pixels are exactly the in-grid pixels that pass all gates, listed in strictly row-major order |
| FrameEmitter.RowStep | Assets/Scripts/BodyParticles.cs:90-127 | visiting one more pixel extends the row's positions by that pixel's particle, if it emits, and by nothing otherwise |
| FrameEmitter.EmitRow | Assets/Scripts/BodyParticles.cs:90-127 | the loop over one row yields the camera images of that row's emitting pixels, left to right |
| FrameEmitter.GridStep | Assets/Scripts/BodyParticles.cs:89-128 | finishing one more row extends the pass's positions by that row's positions |
| FrameEmitter.EmitPass | Assets/Scripts/BodyParticles.cs:89-128 | the grid walk yields exactly the camera images of the emitting pixels, in emission order |
| FrameEmitter.RunPass | Assets/Scripts/BodyParticles.cs:86-128 | one pass normalises the frame as `RefreshData` does, then emits one particle per emitting pixel, in row-major order, at the camera's image of its viewport point |
| FrameEmitter.EmittedIffAllGates | Assets/Scripts/BodyParticles.cs:91-119 | a pixel emits exactly when its draw is <= spawnChance, its display depth is >= 0 and it is a silhouette |
| FrameEmitter.OneParticlePerPixel | Assets/Scripts/BodyParticles.cs:117-126 | the pass emits as many particles as there are emitting pixels; particle i is the camera's image of emitting pixel i's viewport point |
| FrameEmitter.EmissionOrder | Assets/Scripts/BodyParticles.cs:89-90 | emitting pixels come out in increasing depth index, so none emits twice and later rows come later |
| FrameEmitter.ZeroChanceAdmitsZeroDraws | Assets/Scripts/BodyParticles.cs:91-93 | with spawnChance 0 and draws in [0, 1], an emitting pixel's draw is exactly 0 |
| FrameEmitter.FullChanceKeepsValidPixels | Assets/Scripts/BodyParticles.cs:91-119 | with spawnChance >= 1 and draws in [0, 1], a pixel emits exactly when it passes the depth gate and the silhouette test |
| FrameEmitter.EmptyFrameEmitsNothing | Assets/Scripts/BodyParticles.cs:89-90 | an empty depth buffer admits only an empty grid, so nothing is emitted |

## Left out

- Sensor and component setup in `Start` (lines 46-77): Kinect SDK and Unity calls that the pipeline only receives buffers from.
- The coroutine (lines 82-84 and 130): the wait for `depthData`, the endless loop and `WaitForSeconds(delay)` are host scheduling. One pass is modelled, and `delay` is not read.
- `Random.Range`: randomness is replaced by a supplied sequence of draws.
- `Camera.ScreenToWorldPoint` and `ParticleSystem.Emit` (lines 121-126): foreign calls. The camera is an uninterpreted function parameter, and emission appends to a sequence.
- The producers of `depthPoints` and `bodyIndexPoints` (`CoordinateMapperManager`, `DepthSourceManager`) are not part of this model. Their buffers are inputs.
- The commented-out microphone code (lines 47-49) and the commented-out `GetAvg` call (lines 142-143).
- Single-precision rounding: all float arithmetic is exact real arithmetic, and the literal `0.01f` is taken as exactly 1/100.
- DepthNormalizer.RefreshData: requires a non-zero `depthScale`. With a zero scale, IEEE division gives infinities or NaN, which real arithmetic cannot express. It also requires `Width*Height <= depthData.Length`, where the source would throw on the short buffer.
- DepthNormalizer.NormalizeSample: requires a non-zero `depthScale`, for the same reason.
- Projection.RemapInverse: requires a non-zero denominator `(to1-from1)*(to2-from2)`, as do `Remap` and `DisplayDepth` themselves. In the source the public field `remapMinDistance` can be 400, and IEEE division would then give an infinity or NaN. The model's pass rules that case out through `RunPass`'s requires (`FrameReady`).
- FrameEmitter.RunPass: requires a non-zero `depthScale` and a `remapMinDistance` other than 400, for the reasons above. It also requires positive colour frame sizes, and depth data and a coordinate table at least as long as their frames. In the source a shorter `depthData` or `depthPoints` throws `IndexOutOfRangeException`, which is not modelled. It also requires at least Width*Height draws. That bound exists only because the model supplies the draws as a sequence; `Random.Range` in the source cannot run short.
- Silhouette.IsSilhouette: the source reads the mask without a bounds check and would throw `IndexOutOfRangeException`. The model returns background for an index outside the mask, and also for a cast whose result C# leaves unspecified (NaN, an infinity, a value beyond `int`).
- GridIndex.ColorIndex: computed with unbounded integers; the 32-bit overflow of `colorHeight * Width` for frame sizes beyond the sensor's is not modelled. Its range is promised only for positive colour sizes.
- DepthNormalizer.GetAvg: takes `x` and `y` as naturals within `int`. From a negative start the source either throws, when the clamped index is negative, or silently reads samples wrapped from the previous row. For example, x = -1 and y = 1 read index `width - 1`. Neither is modelled. The wrap of the loop bound near int.MaxValue is modelled: for a start within 4 of it, the source sums nothing and returns 0, and so does the model. The `double` sum is exact.
