# Halide scheduling semantics of the Python tutorials

The Python Halide tutorials explain each scheduling primitive by an
"equivalent Python" loop nest: the exact order in which a schedule visits
pixels, and which values of a producer stage are computed before a consumer
reads them. This project models that reference semantics and proves it
correct. Halide itself is a foreign library and is not part of this model.

The model has three parts.

- **Loop nests** (module `LoopNests`, tutorial5): the smooth gradient
  `x + y` realized under the default order, `reorder`, `split` (dividing
  and non-dividing), `fuse`, `tile`, fused parallel tiles, `vectorize`,
  `unroll` and the 256 x 256 "fast" schedule. Each loop nest is a method
  that appends the visited `Point`s to a sequence, and it is proved equal to
  a specification function. Lemmas about those functions prove coverage,
  bounds, multiplicity and order equality with the default nest. `Realize`
  is the output buffer as a map, and `SchedulesAgree` proves that every
  schedule yields the default schedule's image.
- **Producer/consumer schedules** (modules `Events`, `Schedules`, `BoxBlur`,
  `Convolution`; tutorial6, a11, tutorial10):
  - A schedule is the ordered list of `(stage, x, y)` triplets it computes,
    the list a11 asks for.
  - `Pipe` describes a vertical stencil: which producer values one consumer
    value reads.
  - `ReadsAvailable` says that no consumer value is computed before the
    producer values it reads.
  - Generic traces cover the root, inline (or `compute_at` x), tile
    (`compute_at` xo), tile-row (`compute_at` yo) and scanline
    (`compute_at` y) placements, with proofs of availability, consumer order,
    coverage and producer work (redundancy).
  - `BoxBlur` instantiates them for tutorial6's `blur_x -> blur_y` and
    writes the loop nests as methods.
  - `Convolution` instantiates them for tutorial10's `clampedBlurx -> blur`
    and its `indexOfSchedule` chain.
- **Footprints and clamping** (modules `Clamping`, `Gradient`,
  `Convolution`; tutorial3, tutorial4, tutorial10): the input pixels each
  stage reads, the `clamp` helper, and the realize sizes that keep every
  read inside the input.

`Sequences` holds `Concat(n, f)`, a loop of `n` iterations whose iteration
`i` emits `f(i)`, and `Geometry` holds points, boxes, row-major walks and
`CoversOnce` (every pixel of a box exactly once, nothing else).

## Model

| member | source | states |
|---|---|---|
| LoopNests.DefaultOrder | tutorial5_schedule_smoothGradient.py:44-46 | the default nest, y outer and x inner, emits the row-major walk of the w x h region |
| LoopNests.DefaultVisitsEachPixelOnce | tutorial5_schedule_smoothGradient.py:36-46 | the default walk visits each pixel of w x h exactly once, w * h visits, pixel (x, y) at step y * w + x |
| LoopNests.Realize | tutorial5_schedule_smoothGradient.py:34-40 | the realized buffer holds exactly the visited pixels, each with value x + y |
| LoopNests.SameImage | tutorial5_schedule_smoothGradient.py:306-312 | a pure Func gives the same image for any two visit lists over the same pixels, whatever the order or repetition |
| LoopNests.SchedulesAgree | tutorial5_schedule_smoothGradient.py:107-122 | reorder, tile, a (possibly non-dividing) split and the fast schedule all realize the default schedule's image |
| LoopNests.ReorderedOrder | tutorial5_schedule_smoothGradient.py:62-70 | after `reorder(y, x)` the nest emits the column-major walk |
| LoopNests.ColumnsCover | tutorial5_schedule_smoothGradient.py:68-70 | the column-major walk covers the w x h region exactly once |
| LoopNests.ReorderVisitsSamePixels | tutorial5_schedule_smoothGradient.py:56-70 | reordering visits the same pixels, each once, as a permutation of the default walk |
| LoopNests.ColumnMajorAt | tutorial5_schedule_smoothGradient.py:68-70 | after reordering, pixel (x, y) is visited at step x * h + y |
| LoopNests.ReorderChangesOrder | tutorial5_schedule_smoothGradient.py:56-62 | from 2 x 2 upward the reordered walk differs from the default one |
| LoopNests.SplitOrder | tutorial5_schedule_smoothGradient.py:84-110 | splitting x by a dividing factor, with x = x_outer * f + x_inner, leaves the visit order unchanged |
| LoopNests.FusedIndex | tutorial5_schedule_smoothGradient.py:130-132 | a fused index k < w * h splits into y = k / w < h and x = k % w, with k == y * w + x |
| LoopNests.FusedOrder | tutorial5_schedule_smoothGradient.py:123-133 | fusing x and y into one loop over [0, w * h) leaves the visit order unchanged |
| LoopNests.VectorizedOrder | tutorial5_schedule_smoothGradient.py:189-234 | split plus vectorize, evaluated lane vector by lane vector, leaves the visit order unchanged |
| LoopNests.UnrolledOrder | tutorial5_schedule_smoothGradient.py:249-270 | split by two plus unroll, with two copies of the body, leaves the visit order unchanged |
| LoopNests.TiledOrder | tutorial5_schedule_smoothGradient.py:152-170 | the y_outer, x_outer, y_inner, x_inner nest emits the tiled walk |
| LoopNests.TileRowWalk | tutorial5_schedule_smoothGradient.py:165-170 | one y_outer iteration emits one row of tiles |
| LoopNests.TileWalk | tutorial5_schedule_smoothGradient.py:166-170 | the two inner loops emit one tile row by row, at x_outer * tw + x_inner, y_outer * th + y_inner |
| LoopNests.TileRowCovers | tutorial5_schedule_smoothGradient.py:165-170 | n tiles of one tile row cover an n * tw x th band exactly once |
| LoopNests.TileRowsCover | tutorial5_schedule_smoothGradient.py:164-170 | n rows of tiles cover a ntx * tw x n * th region exactly once |
| LoopNests.TiledCovers | tutorial5_schedule_smoothGradient.py:141-170 | with tiles dividing the region, tiling visits every pixel exactly once and nothing else |
| LoopNests.TiledVisitsEachPixelOnce | tutorial5_schedule_smoothGradient.py:141-170 | the tiled walk is a permutation of the default walk, of length w * h |
| LoopNests.TiledAt | tutorial5_schedule_smoothGradient.py:164-170 | pixel (xi, yi) of tile (xo, yo) is visited at its tile-major position |
| LoopNests.TiledNotDefault | tutorial5_schedule_smoothGradient.py:141-150 | with two tiles across and tiles at least two rows high, the tiled order differs from the default |
| LoopNests.NoTilesAcross | tutorial5_schedule_smoothGradient.py:164-165 | a region narrower than one tile yields no tiles |
| LoopNests.TiledFused | tutorial5_schedule_smoothGradient.py:344-373 | fusing the tile loops (y_outer = t / ntx, x_outer = t % ntx) leaves the tiled order unchanged |
| LoopNests.FusedTileOrder | tutorial5_schedule_smoothGradient.py:344-374 | the serial fused-tile nest emits the tiled walk |
| LoopNests.FusedTilesLength | tutorial5_schedule_smoothGradient.py:367-373 | every fused tile iteration visits tw * th pixels |
| LoopNests.ClampedSplitOrder | tutorial5_schedule_smoothGradient.py:291-303 | the non-dividing split nest, with x = min(x_outer * f, extent - f) + x_inner + x_min, emits the clamped-split walk |
| LoopNests.ClampedScanline | tutorial5_schedule_smoothGradient.py:293-303 | one y iteration emits the clamped chunks of one scanline |
| LoopNests.ClampedSplitLength | tutorial5_schedule_smoothGradient.py:314-318 | x_outer runs (extent + f - 1) / f times and x_inner f times on each scanline |
| LoopNests.ClampedSplitInBounds | tutorial5_schedule_smoothGradient.py:296-302 | when f <= extent, every visited x lies in [x_min, x_min + extent) and every y in [0, h) |
| LoopNests.ClampedSplitCovers | tutorial5_schedule_smoothGradient.py:314-319 | every pixel of the region is visited at least once |
| LoopNests.ChunkOf | tutorial5_schedule_smoothGradient.py:317-319 | every offset of the extent is reached by some x_outer and x_inner in range |
| LoopNests.ClampedSplitRecomputes | tutorial5_schedule_smoothGradient.py:306-312 | when f does not divide the extent, pixel x_min + extent - f of every row is visited at least twice |
| LoopNests.ScanlineRecomputes | tutorial5_schedule_smoothGradient.py:306-312 | the same double visit within one scanline |
| LoopNests.LastTwoChunks | tutorial5_schedule_smoothGradient.py:314-319 | when f does not divide the extent, the last chunk starts at extent - f and overlaps the previous one |
| LoopNests.DividingChunks | tutorial5_schedule_smoothGradient.py:314-319 | when f divides the extent, the first k chunks are the first k * f pixels of the scanline |
| LoopNests.DividingChunkStart | tutorial5_schedule_smoothGradient.py:319 | when f divides the extent, no chunk start is shifted back |
| LoopNests.ClampedSplitDividing | tutorial5_schedule_smoothGradient.py:107-110 | when f divides the extent, the clamped split is the unsplit row-major walk |
| LoopNests.TileCountPositive | tutorial5_schedule_smoothGradient.py:416 | an extent of at least 256 has at least one tile |
| LoopNests.UnrolledVectors | tutorial5_schedule_smoothGradient.py:423-444 | the unrolled y_pairs body emits the 4-lane vector of row y_base, then of row y_base + 1 |
| LoopNests.FastTileOrder | tutorial5_schedule_smoothGradient.py:416-444 | one tile_index iteration emits the tile at (min(x_outer * 256, w - 256), min(y_outer * 256, h - 256)) |
| LoopNests.FastSubtileRow | tutorial5_schedule_smoothGradient.py:419-444 | one y_inner_outer iteration emits 64 subtiles across the tile |
| LoopNests.FastOrder | tutorial5_schedule_smoothGradient.py:384-444 | the serial fast nest emits the fast traversal |
| LoopNests.TileStartRange | tutorial5_schedule_smoothGradient.py:422-429 | every tile start lies in [0, extent - 256] |
| LoopNests.TileStartFits | tutorial5_schedule_smoothGradient.py:422-429 | the tile c / 256 exists and, once shifted back inside, still holds coordinate c |
| LoopNests.FastInBounds | tutorial5_schedule_smoothGradient.py:407-429 | every pixel the fast schedule evaluates lies inside the w x h output |
| LoopNests.FastTileBounds | tutorial5_schedule_smoothGradient.py:419-429 | a tile walk stays in the 256 x 256 square at its start |
| LoopNests.FastCovers | tutorial5_schedule_smoothGradient.py:407-444 | every pixel of the w x h output is evaluated by the fast schedule |
| LoopNests.InFastTile | tutorial5_schedule_smoothGradient.py:419-444 | every pixel of the 256 x 256 square at a tile start is visited by that tile |
| LoopNests.FastLength | tutorial5_schedule_smoothGradient.py:416-420 | the fast schedule makes tiles-across * tiles-down * 256 * 256 visits |
| LoopNests.Fast800x600 | tutorial5_schedule_smoothGradient.py:413-420 | 800 x 600 uses a 4 x 3 grid of tiles, evaluates exactly the 800 x 600 pixels, and some of them more than once |
| Events.Project | a11.py:36-38 | reading a trace back as one function's triplets gives exactly the pixels that function computed |
| Events.TapsMembership | tutorial6_3x3box_schedule.py:59 | a consumer value reads its own column, rows y + lo .. y + lo + halo |
| Events.TapsCover | tutorial6_3x3box_schedule.py:59 | the stencil is halo + 1 producer values of one column, each once |
| Events.ProjectTag | a11.py:36-38 | reading back the tagged stage gives the pixels in order; any other stage finds nothing |
| Events.UnitProjections | tutorial6_3x3box_schedule.py:197-212 | one iteration of the producer's loop reads back as the producer region and the consumer order |
| Events.UnitOrder | tutorial6_3x3box_schedule.py:199-212 | within one iteration, no producer value follows a consumer value |
| Events.UnitAvailable | tutorial6_3x3box_schedule.py:177-183 | a producer region holding everything the consumer order reads, computed first, makes every read available |
| Events.AppendAvailable | tutorial6_3x3box_schedule.py:197-198 | running available iterations one after another keeps every read available |
| Events.ConcatAvailable | tutorial6_3x3box_schedule.py:197-198 | a loop whose iterations are all available is available |
| Events.NeverProduced | tutorial6_3x3box_schedule.py:84-91 | a consumer value that reads a producer value the trace never computes breaks availability |
| Events.EmitBlock | tutorial6_3x3box_schedule.py:85-87 | a stage's own y-outer, x-inner loop over a box emits one triplet per pixel in row-major order |
| Schedules.FootprintCovers | tutorial6_3x3box_schedule.py:177-182 | the producer region of a consumer box spans its columns and its rows widened by the stencil, each value once, w * (h + halo) values |
| Schedules.FootprintHolds | tutorial6_3x3box_schedule.py:177-182 | every value a pixel of the box reads lies in the footprint |
| Schedules.FootprintExact | tutorial6_3x3box_schedule.py:177-182 | for a non-empty box, every footprint value is read by some pixel of the box |
| Schedules.BoxUnitAvailable | tutorial6_3x3box_schedule.py:177-183 | the producer over a box's footprint, then the consumer over the box, is available |
| Schedules.RootAvailable | tutorial6_3x3box_schedule.py:65-68 | computing both stages at root is available |
| Schedules.RootThenAvailable | tutorial10_convolutionSchedule.py:80-84 | the producer at root followed by the consumer in any order inside the output is available |
| Schedules.InlineAvailable | tutorial6_3x3box_schedule.py:113-135 | inlining the producer into the consumer is available |
| Schedules.TiledAvailable | tutorial6_3x3box_schedule.py:165-183 | the producer at the consumer's xo tile loop is available |
| Schedules.BandAvailable | a11.py:51-53 | the producer at the consumer's yo tile-row loop is available |
| Schedules.ScanlineAvailable | a11.py:63-65 | the producer at the consumer's y loop is available |
| Schedules.RootConsumer | tutorial6_3x3box_schedule.py:65-72 | at root, the producer walks its whole footprint, then the consumer walks the output row by row, and no producer value follows a consumer value |
| Schedules.InlineConsumer | tutorial6_3x3box_schedule.py:130-135 | inline leaves the consumer in row-major order |
| Schedules.TiledConsumer | tutorial6_3x3box_schedule.py:158-183 | at xo, the consumer walks the output in the consumer's tiled order |
| Schedules.BandConsumer | a11.py:51-53 | at yo, the consumer walks the output in the tiled order |
| Schedules.ScanlineConsumer | a11.py:63-65 | at y, the consumer walks the output row by row |
| Schedules.RootComputesOnce | tutorial6_3x3box_schedule.py:69-72 | root computes each producer value the output reads exactly once and no other, w * (h + halo) in all |
| Schedules.HitsClosed | tutorial6_3x3box_schedule.py:109-111 | the scanlines whose stencil reaches a producer row form a closed interval |
| Schedules.HitsBounds | tutorial6_3x3box_schedule.py:109-111 | a producer row is reached by halo + 1 scanlines away from the border, by none outside the footprint, and never by more |
| Schedules.InlineRowCovers | tutorial6_3x3box_schedule.py:130-135 | inline on one scanline of width n computes an n x (halo + 1) box of producer values, each once |
| Schedules.PixelTapsCover | tutorial6_3x3box_schedule.py:132-135 | inline computes the stencil of each consumer pixel, halo + 1 values, each once |
| Schedules.InlineRowLength | tutorial6_3x3box_schedule.py:132-135 | every consumer pixel computes halo + 1 producer values |
| Schedules.InlineCounts | tutorial6_3x3box_schedule.py:109-111 | over n scanlines, a producer value is computed once for every scanline whose stencil reaches it |
| Schedules.InlineRecomputes | tutorial6_3x3box_schedule.py:109-111 | inline recomputes a producer value once per consumer pixel that reads it |
| Schedules.InlineWork | tutorial6_3x3box_schedule.py:109-111 | inline computes h * w * (halo + 1) producer values |
| Schedules.TiledWork | tutorial6_3x3box_schedule.py:185-187 | at xo, each tile computes its footprint, tw * (th + halo) producer values |
| Schedules.BandWork | a11.py:51-53 | at yo, each row of tiles computes w * (th + halo) producer values |
| Schedules.ScanlineWork | a11.py:63-65 | at y, each scanline computes w * (halo + 1) producer values |
| Schedules.RootBelowTiled | tutorial6_3x3box_schedule.py:185-187 | with at least one row of tiles, tiling computes at least root's producer work |
| Schedules.TiledBelowInline | tutorial6_3x3box_schedule.py:185-187 | tiling computes at most inline's producer work |
| Schedules.Redundancy | tutorial6_3x3box_schedule.py:185-187 | producer work: root <= tiled at xo == tiled at yo <= inline == compute_at y |
| Schedules.RootWork | tutorial6_3x3box_schedule.py:69-72 | root computes w * (h + halo) producer values |
| Schedules.DividedWork | tutorial6_3x3box_schedule.py:185-187 | both tiled placements compute w * (h + (h / th) * halo) producer values: every row of tiles recomputes the halo |
| BoxBlur.InputFootprint | tutorial6_3x3box_schedule.py:52-59 | every input read of blur_y at p lies in the width x height input exactly when p lies in the (width - 2) x (height - 2) output |
| BoxBlur.RootSchedule | tutorial6_3x3box_schedule.py:65-68 | schedule 1 emits blur_x over the width x (height + 2) footprint, then blur_y row by row |
| BoxBlur.RootAsWrittenMissesRows | tutorial6_3x3box_schedule.py:84-91 | the root loops as written compute too few blur_x rows, so some read is unavailable |
| BoxBlur.InlineSchedule | tutorial6_3x3box_schedule.py:126-135 | schedule 2 (and a11's schedule 5) emits, for each output pixel in row-major order, its three blur_x values and then the pixel |
| BoxBlur.InlineRowSchedule | tutorial6_3x3box_schedule.py:130-135 | one y iteration emits the units of one output row |
| BoxBlur.PixelStep | tutorial6_3x3box_schedule.py:133-135 | one pixel's unit is the blur_x column y .. y + 2, then blur_y |
| BoxBlur.InlineOrderAt | a11.py:40-42 | each blur_y(x, y) triplet comes right after blur_x at (x, y), (x, y + 1), (x, y + 2), at position 4 * (y * width + x) |
| BoxBlur.PixelUnitEvents | a11.py:36-42 | the four triplets of one output pixel, in order |
| BoxBlur.InlineTriples | tutorial6_3x3box_schedule.py:109-111 | inline computes each interior blur_x value 3 times, none outside rows 0 .. height + 1, 3 * width * height in all |
| BoxBlur.TiledSchedule | tutorial6_3x3box_schedule.py:165-183 | schedule 3 emits, per tile in yo-xo order, blur_x over the tile widened by two rows, then blur_y over the tile |
| BoxBlur.TiledRowSchedule | tutorial6_3x3box_schedule.py:197-212 | one yo iteration emits the tile units of one row of tiles |
| BoxBlur.InAsWrittenRow | tutorial6_3x3box_schedule.py:203-205 | one row as written visits only a clamped x or the first 32 columns of a tile, and y <= height |
| BoxBlur.AsWrittenVisits | tutorial6_3x3box_schedule.py:197-212 | every triplet of the loops as written has a clamped x or one in the first 32 columns of a tile, and y <= height |
| BoxBlur.TiledAsWrittenMissesColumns | tutorial6_3x3box_schedule.py:204-205 | as written, a 256 x 32 output never computes blur_y at (32, 0) |
| BoxBlur.TiledAsWrittenOverruns | tutorial6_3x3box_schedule.py:205-212 | as written, a 10-wide output visits blur_y at x = 10, outside the output (`out[10, y]` is out of range) |
| BoxBlur.TiledAsWrittenMissesRows | tutorial6_3x3box_schedule.py:201-212 | as written, blur_y reads blur_x rows the tile loop never computes |
| BoxBlur.AsWrittenComputesRow31 | tutorial6_3x3box_schedule.py:208-212 | as written, blur_y at (0, 31) of a 256 x 32 output is computed |
| BoxBlur.TileRowSchedule | a11.py:51-53 | schedule 6 emits, per row of tiles, blur_x over the full width and rows yo * th .. yo * th + th + 1, then blur_y tile by tile |
| BoxBlur.BandStep | a11.py:51-53 | one row of tiles is blur_x over its band, then blur_y over its tiles |
| BoxBlur.TileRowOutputs | a11.py:51-53 | the xo, yi, xi loops of one row of tiles emit blur_y over its tiles in order |
| BoxBlur.ScanlineSchedule | a11.py:63-65 | schedule 7 emits, per output row y, blur_x over rows y .. y + 2, then row y of blur_y |
| BoxBlur.SplitRowOutputs | a11.py:63-65 | splitting x into chunks of f leaves blur_y's order on a row unchanged |
| BoxBlur.EveryScheduleIsCorrect | tutorial6_3x3box_schedule.py:291-304 | root, inline, tiled, tile-row and scanline schedules each compute every blur_y value exactly once, after the blur_x values it reads |
| Convolution.BlurTaps | tutorial10_convolutionSchedule.py:39-41 | blur reads clampedBlurx in its own column, rows y - 2 .. y + 2 |
| Convolution.InputReadsInBounds | tutorial10_convolutionSchedule.py:27-41 | at any pixel, every input value blur depends on lies inside the image |
| Convolution.InteriorFootprint | tutorial10_convolutionSchedule.py:27-44 | two pixels or more from the border, blur depends on exactly the 5 x 5 box centred on it |
| Convolution.InteriorReadInside | tutorial10_convolutionSchedule.py:31-41 | away from the border, every read lies in the 5 x 5 box |
| Convolution.InteriorRowRead | tutorial10_convolutionSchedule.py:31-33 | away from the left and right borders, blur_x reads columns x - 2 .. x + 2 of its own row |
| Convolution.InteriorPixelRead | tutorial10_convolutionSchedule.py:31-41 | away from the border, every pixel of the 5 x 5 box is read |
| Convolution.ScheduleCorrect | tutorial10_convolutionSchedule.py:46-84 | every indexOfSchedule computes each blur value exactly once, after the clampedBlurx values it reads |
| Convolution.RootProducesFirst | tutorial10_convolutionSchedule.py:50-84 | schedules 1 and 6 compute clampedBlurx once over the output's columns and rows -2 .. height + 1, before any blur |
| Convolution.TileFootprint | tutorial10_convolutionSchedule.py:56-78 | schedules 2 to 5 compute, per tile, clampedBlurx over the tile's columns with rows widened by 2 on each side, then blur over the tile |
| Convolution.ScheduleWork | tutorial10_convolutionSchedule.py:46-84 | clampedBlurx work: w * (h + 4) at root, (tx * (ty + 4)) per tile when tiled with tiles dividing the output, 5 per pixel by default |
| Clamping.Clamp | tutorial4_gradientClamped.py:93-96 | the result lies in [mini, maxi] when mini <= maxi, and is maxi when the bounds cross |
| Clamping.ClampCases | tutorial4_gradientClamped.py:93-96 | clamp gives mini below, maxi above, and a otherwise |
| Clamping.ClampIdempotent | tutorial4_gradientClamped.py:93-96 | clamping twice is clamping once |
| Clamping.ClampMonotone | tutorial4_gradientClamped.py:93-96 | clamp is monotone in a |
| Clamping.ClampPointInside | tutorial4_gradientClamped.py:51-54 | the clamped Func reads inside a non-empty image at any coordinate, and reads the pixel itself exactly when it is inside |
| Gradient.ForwardInBounds | tutorial3_gradient.py:45-62 | gradientMagnitude at p reads inside the width x height input exactly when p lies in the (width - 1) x (height - 1) output |
| Gradient.ForwardFullSizeOverruns | tutorial3_gradient.py:60-62 | the full-size output would read column width |
| Gradient.ForwardNeighbours | tutorial3_gradient.py:45-55 | gx and gy read the pixel and its right and lower neighbours, nothing else |
| Gradient.ClampAll | tutorial4_gradientClamped.py:51-54 | reading through clamped replaces each coordinate with its clamped one |
| Gradient.ClampedInBounds | tutorial4_gradientClamped.py:51-77 | at any pixel, every input read lies inside the image, so the full-size output is safe |
| Gradient.ClampedInterior | tutorial4_gradientClamped.py:62-64 | away from the top and left borders, gx and gy read the pixel and its left and upper neighbours |
| Gradient.ClampedBorder | tutorial4_gradientClamped.py:47-64 | on the left border the missing left neighbour is the pixel itself, and on the top border the missing upper one |
| Gradient.ClampPointAsWrittenOverruns | tutorial4_gradientClamped.py:97-99 | the numpy helper as written stays inside the image only for pixels left of column width and above row height |

## Left out

- Halide itself (`Func`, `compile_jit`, `realize`, code generation, bound inference) is a foreign library that is not part of this model. The model states the order and footprint semantics that the tutorials' equivalent loops and comments give.
- `parallel` and `vectorize` are modelled as serial orders: the serial equivalent loop that tutorial5 prints, and lane by lane for vectors. The "arbitrary" tile order of a parallel loop is not modelled.
- tutorial6's schedule 4 and tutorial10's schedules 3 to 5 add only parallelism and vectors. They share the serial trace of the schedule without them.
- Floating-point pixel values (`/3`, `/25`, `sqrt`, `**2`) are not modelled. Stages are modelled by the coordinates they read, and the tutorial5 gradient by its integer value x + y.
- The contents of the `tmp` and `out` arrays of tutorial6 are not modelled. Only the order of the writes is modelled, as triplets.
- Image I/O, `runAndMeasure` and timing are not modelled, and neither are channels (`c` only passes through every stage).
- tutorial10 schedule 6 also tiles clampedBlurx's own root computation. The model computes that root stage in row-major order, which does not change which values exist before blur runs.
- tutorial10's `blur_x` and `blur_y` are reductions with an update step (`+=` over an `RDom`). The model keeps the order of their reads, not the partial sums.
- tutorial4's `sobelMagnitude` exercise (101-119) is not modelled: it calls an undefined `pix` and uses floating point. It also writes `gx` in its second loop where `gy` is evidently meant.
- tutorial6's equivalent loops for schedules 1 and 3 (lines 91 and 212) read `blur_x` where the `tmp` just filled is meant. The model reads the producer stage's own values.
- BoxBlur.TiledAsWritten: records the coordinates the tiled loops of tutorial6 (197-212) visit, not the arrays they index. It does not model that `tmp` is allocated per tile as 256 x 32 (201) but indexed with global coordinates (206), out of range from `yo = 1` on, nor that writing `out` at x = `width` (211-212) raises an index error rather than computing a value.
- The tiled loop of tutorial6 (197-198) takes its trip counts from `ceil(height/32.0)` and `ceil(width/256.0)`. The model uses the integer ceiling division.
- BoxBlur.TiledSchedule: requires the tile size to divide the output. The exercises allow this assumption (tutorial6_3x3box_schedule.py:292), and Halide's shifted last tile is not modelled for producer/consumer traces.
- BoxBlur.TileRowSchedule: requires the tile size to divide the output, for the same reason.
- BoxBlur.ScanlineSchedule: requires the split factor to divide the width, for the same reason.
- BoxBlur.EveryScheduleIsCorrect: requires the tile size to divide the output, for the same reason.
- Convolution.Schedule: requires the tile size to divide the output for schedules 2 to 6. Halide's shifted last tile (ceil(w / tx) * ceil(h / ty) tiles, as in the fast schedule of tutorial5) is not modelled for producer/consumer traces, and tutorial10 runs 256 x 256 tiles on an image whose size is not shown (106-107).
- Convolution.ScheduleCorrect: requires the tile size to divide the output for schedules 2 to 6, for the same reason.
- Convolution.ScheduleWork: requires the tile size to divide the output for schedules 2 to 6, so its tile count is the exact (w / tx) * (h / ty).
- Convolution.RootProducesFirst: requires the tile size to divide the output for schedule 6, for the same reason.
- LoopNests.SplitOrder: requires the factor to divide the width. The non-dividing case is LoopNests.ClampedSplitOrder.
- LoopNests.VectorizedOrder: requires the vector width to divide the width, as in the 8 x 4 example.
- LoopNests.UnrolledOrder: requires an even width, as in the 4 x 4 example.
- LoopNests.TiledOrder: requires the tile size to divide the region, as in the 4 x 4 example. The shifted last tile is modelled only by the fast schedule.
- LoopNests.FusedTileOrder: requires the tile size to divide the region, as in the 4 x 4 example.
- LoopNests.FastOrder: requires an output of at least 256 x 256. For smaller extents `min(outer * 256, extent - 256)` is negative, and the equivalent loop would read outside the output.
- The context tutorials (1, 2, 7, 8, 9, 99 and the Harris files) are not part of this model.

## Findings

| source | as written | input that shows it | evidently intended | confidence | as-written member | corrected member |
|---|---|---|---|---|---|---|
| tutorial6_3x3box_schedule.py:84-91 | the root loop fills `tmp` for `height` rows only, yet `blur_y` at row y reads rows y + 1 and y + 2 | width = height = 1: blur_y(0, 0) reads blur_x(0, 1), which is never computed | compute blur_x over height + 2 rows before blur_y | not executed | BoxBlur.RootAsWrittenMissesRows | BoxBlur.RootSchedule |
| tutorial6_3x3box_schedule.py:197-212 | the tile loops run `xrange(256/8)` columns, clamp x and y to `width` and `height` themselves, and compute blur_x over the tile's own rows | width = 256, height = 32: (32, 0) is never computed, and blur_y on row 31 reads blur_x rows 32 and 33; width = 10: x = 10 is visited (`out[10, y]` is out of range) | 256 columns per tile and blur_x over the tile widened by two rows | not executed | BoxBlur.TiledAsWrittenMissesRows | BoxBlur.TiledSchedule |
| tutorial4_gradientClamped.py:97-99 | the numpy `clamped` helper clamps to `shape[0]` and `shape[1]`, one past the last index, and uses an undefined `lumi` | a 1 x 1 image at y = 5 is looked up at row 1 | clamp to `shape - 1` of the image passed in | not executed | Gradient.ClampPointAsWrittenOverruns | Clamping.ClampPointInside |
