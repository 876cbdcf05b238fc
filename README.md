# Span drawing and tile decomposition of a software rasterizer

This project models two parts of a CPU-only triangle rasterizer in Dafny and
proves properties of the model.

1. **The span-drawing layer** (`src/renderer/span.h`). The rasterizer hands
   the layer one horizontal run of interpolated fragment data, and the layer
   turns it into fragment-shader calls.
   - `perspective_span` cuts the run into affine chunks of 24 pixels. It
     divides by 1/w only at chunk boundaries.
   - The generic drawer calls the shader once per pixel.
   - The 16-bit colour-and-depth drawer does the same and also advances a
     colour cell and a depth cell per pixel.
   - The multisampling drawer folds every S x S block of sub-samples into one
     pixel cell of a reusable row buffer. The cell holds a coverage mask, and
     the first writer's fragment data and userdata. The drawer emits one
     shader call per covered cell when a pixel row is complete.
2. **The parallel rasterizer** (`src/renderer/rasterizer_parallel.h`). It
   owns a `rows x cols` grid of sub-rasterizers. It clips each one to its tile
   of the clip rectangle and forwards every setting and primitive to all of
   them.

Modules:
- `Fragment`: fragment data and the pure helpers `compute_step_al`,
  `compute_step` and `fd_from_fds`. C's truncating `/` is `CDiv`.
- `SpanDrawers`: `perspective_span` and the two direct drawers. Each is a
  method that returns the sequence of calls it makes into shader code.
- `Coverage`: the multisample bit layout, and the value-level specification
  of what one span does to the row buffer (`SpanEffect`) and what one
  emission produces (`EmitList`, `Cleared`).
- `Multisampling`: the three loops of the multisample `affine_span` and the
  loop of `emit_span_data`, each proved against `Coverage`. The class
  `MultisampleDrawer` holds the drawer's function-local statics as fields.
- `Parallel`: the tile arithmetic of `clip_rect` and the class
  `RasterizerParallel` over an array of sub-rasterizer records.

Modelling choices:
- The fixed-point helpers `fixmul<16>`, `invert` and `ceil28_4` have no
  bodies here. They are arbitrary total functions, the fields of an `Arith`
  value, so every property holds whatever they compute.
- The Duff's-device macros are plain loops that run their body `count` times.
- `FRAGMENTDATA_APPLY` is `AddScaled`. It acts on `z` only when the shader
  interpolates z, and on each of the `varying_count` varyings.
- Shader callbacks (`single_fragment`, `affine_span`, `color_pointer`,
  `depth_pointer`) are recorded as call values in order. Colour and depth
  pointers are integer cell offsets.
- The `userdata` pointer is an opaque integer.
- Coverage masks are sets of bit indices below 32. `Value` gives the
  unsigned number such a set stands for.
- Integers are unbounded. In the source, 32-bit signed overflow is undefined
  behaviour, so no wrap-around is modelled.

## Model

| member | source | states |
|---|---|---|
| `Fragment.ComputeStepAl` | src/renderer/span.h:56-72 | each varying's step is `(fdr - fdl) / 24` rounded toward zero; depth gets the same step only when the shader interpolates z |
| `Fragment.StepAlReachesRightEnd` | src/renderer/span.h:56-72 | stepping 24 times from the left end point stops short of the right end point by less than 24 in every interpolated channel, never beyond it |
| `Fragment.ComputeStep` | src/renderer/span.h:74-93 | every varying's step is the fixed-point product of its end-point difference with the one reciprocal `inv_delta`; depth is stepped the same way only when the shader interpolates z |
| `Fragment.ComputeStepGeneralises` | src/renderer/span.h:56-93 | a consistency check between the two step functions: if the fixed-point product with the reciprocal were exact truncating division by 24, `compute_step` would give the same step as `compute_step_al` |
| `Fragment.FdFromFds` | src/renderer/span.h:95-115 | depth is copied only when interpolated, otherwise it stays zero; with varyings, each is multiplied by the one factor `invert(oow)` |
| `Fragment.FdFromFdsReadsOnlyApplied` | src/renderer/span.h:95-115 | the result depends only on the members that FRAGMENTDATA_PERSPECTIVE_APPLY copies |
| `Fragment.AddScaledTwice` | src/renderer/span.h:396-402 | stepping a times and then b times equals stepping a + b times; this justifies the `jumpstep` catch-up |
| `SpanDrawers.PerspectiveSpan` | src/renderer/span.h:117-160 | calls `affine_span` n / 24 times with length 24 at x, x + 24, ..., then once with n % 24 when that is non-zero, all on row y; each chunk starts at the divided data of its left boundary and steps towards its right boundary |
| `SpanDrawers.ChunkingTotal` | src/renderer/span.h:133-159 | the chunk lengths sum to n, and n == 0 makes no call |
| `SpanDrawers.ChunkOfPixel` | src/renderer/span.h:133-159 | every pixel of the run lies in exactly one chunk, the one numbered (p - x) / 24 |
| `SpanDrawers.GenericAffineSpan` | src/renderer/span.h:195-209 | exactly n `single_fragment` calls; call k is at (x + k, y) with the fragment data stepped k times |
| `SpanDrawers.ColorDepthAffineSpan` | src/renderer/span.h:214-242 | exactly n calls; call k gets colour cell `color_pointer(x, y) + k`, depth cell `depth_pointer(x, y) + k` and the data stepped k times |
| `SpanDrawers.GenericPerspectiveSpan` | src/renderer/span.h:117-160 | with the generic drawer, every pixel of the run is shaded exactly once, left to right, from its chunk's boundary data |
| `Coverage.SpanMask` | src/renderer/span.h:371-373 | the OR loop builds the S lowest bits, worth 2^S - 1 |
| `Coverage.SpanMaskShifted` | src/renderer/span.h:407 | `span_mask << row_shift` sets the same bits as the S samples of the row set one by one |
| `Coverage.TwoByTwoLayout` | examples/multisample/colorwheel.cpp:133-141 | with S = 2 the sample bits are 0x01 top-left, 0x02 top-right, 0x04 bottom-left, 0x08 bottom-right, as the example shader decodes them |
| `Coverage.SpanEffectCoverage` | src/renderer/span.h:378-429 | a span of samples lo .. hi - 1 on sample row y adds to cell c exactly the bits `(p % S) + (y % S) * S` of its samples p with p / S == c; masks only gain bits |
| `Coverage.SpanEffectOutside` | src/renderer/span.h:378-429 | cells outside lo / S .. (hi - 1) / S are unchanged |
| `Coverage.SpanEffectFirstWriter` | src/renderer/span.h:379-421 | a cell that had coverage keeps its data and userdata; an empty cell takes `fd + (p - lo) * step` for the span's first sample p in it, and the span's userdata |
| `Coverage.FirstLoopOverrun` | src/renderer/span.h:378-392 | with S = 4, a one-sample span at column 1 sets the bit of column 3 too |
| `Coverage.EmitList` | src/renderer/span.h:343-354 | the emitted calls are in increasing cell order within the range, one per cell with a non-empty mask, each carrying that cell's data, userdata and mask |
| `Coverage.EmitListComplete` | src/renderer/span.h:346-352 | every cell in the range with a non-empty mask is emitted |
| `Coverage.EmitListShadesAll` | src/renderer/span.h:346-352 | when every covered cell lies in the emitted range, every covered cell gets a call, exactly once because the calls are in increasing cell order |
| `Coverage.SpanEffectRange` | src/renderer/span.h:364-431 | a span adds coverage only to cells x / S .. end / S, the range that `span_min_x` and `span_max_x` are widened to |
| `Multisampling.CoverFirstCell` | src/renderer/span.h:378-392 | the first loop runs to the next multiple of S and leaves the buffer as `SpanEffect` says, with `fd` behind by exactly `jumpstep` steps |
| `Multisampling.CoverFirstCellBounded` | src/renderer/span.h:378-392 | the first loop bounded by n stops after min(n, distance to the next cell) samples, with the same buffer and `jumpstep` guarantees |
| `Multisampling.CoverBlocks` | src/renderer/span.h:394-411 | the block loop covers whole cells and keeps the buffer equal to `SpanEffect`; `fd` lags by `jumpstep` |
| `Multisampling.CoverTail` | src/renderer/span.h:413-429 | the tail loop covers the last n < S samples and keeps the buffer equal to `SpanEffect` |
| `Multisampling.CatchUp` | src/renderer/span.h:396-399 | after the catch-up, `jumpstep` is 0 and the data has moved `jumpstep` steps |
| `Multisampling.CoverSpan` | src/renderer/span.h:364-429 | the three loops as written cover samples x .. SpanEnd(S, x, n) - 1 of row y |
| `Multisampling.CoverSpanIntended` | src/renderer/span.h:364-429 | with the bounded first loop, the three loops cover exactly samples x .. x + n - 1 |
| `Multisampling.EmitCells` | src/renderer/span.h:346-352 | the emission loop makes exactly the calls of `EmitList` and clears exactly the masks in the range |
| `Multisampling.MultisampleDrawer.constructor` | src/renderer/span.h:253-266 | 2048 value-initialised cells, `span_data_y == -1`, `span_min_x == INT_MAX`, `span_max_x == 0` |
| `Multisampling.MultisampleDrawer.Initialize` | src/renderer/span.h:268-282 | the buffer grows to at least `ceil28_4(m)` cells and never shrinks; every mask is 0; the other cell members are kept; the tracking state is -1, INT_MAX, 0, -1 |
| `Multisampling.MultisampleDrawer.EmitSpanData` | src/renderer/span.h:343-354 | with no pending row nothing changes; otherwise the calls of `EmitList` are appended and those masks cleared, and nothing else changes; it keeps the invariant that every covered cell belongs to the pending row, so afterwards no mask is set and every cell that was covered has been shaded |
| `Multisampling.MultisampleDrawer.EndSpan` | src/renderer/span.h:289-298 | emits and resets the tracking state iff y % S == 0 (C remainder) and a row is pending, after which no mask is set and every previously covered cell has been shaded; otherwise changes nothing |
| `Multisampling.MultisampleDrawer.DetectBeginEndSpan` | src/renderer/span.h:300-308 | acts only on a new y, which it records; it ends the pending row, shading every covered cell, only when y starts a pixel row |
| `Multisampling.MultisampleDrawer.BeginLine` | src/renderer/span.h:310-314 | initializes for `max(v1.x, v2.x) / S + 1` |
| `Multisampling.MultisampleDrawer.EndLine` | src/renderer/span.h:316-320 | emits iff a row is pending, otherwise changes nothing; afterwards no mask is set and every cell covered by the line has been shaded |
| `Multisampling.MultisampleDrawer.BeginTriangle` | src/renderer/span.h:322-331 | initializes for `max(vi.x + vi.w) / S + 1` |
| `Multisampling.MultisampleDrawer.EndTriangle` | src/renderer/span.h:333-341 | emits iff a row is pending, otherwise changes nothing; afterwards no mask is set and every cell covered by the triangle has been shaded |
| `Multisampling.MultisampleDrawer.AffineSpan` | src/renderer/span.h:356-432 | as written: a pending row ends first when y starts a pixel row; samples x .. SpanEnd(S, x, n) - 1 are covered as `SpanEffect` says; afterwards `span_data_y == y / S`, `span_min_x <= x / S` and `span_max_x >= (x + n) / S`, and every covered cell lies in that range |
| `Multisampling.MultisampleDrawer.AffineSpanIntended` | src/renderer/span.h:356-432 | the same with exactly the samples x .. x + n - 1 covered |
| `Parallel.TileIndex` | src/renderer/rasterizer_parallel.h:65 | tile (r, c) is stored at index r * cols + c, inside 0 .. rows * cols - 1, and the index determines r and c |
| `Parallel.SegmentsPartition` | src/renderer/rasterizer_parallel.h:60-66 | pieces of `length / parts` with the last one taking the remainder partition the range: each point lies in exactly one piece |
| `Parallel.ColumnsPartition` | src/renderer/rasterizer_parallel.h:66 | whatever the row count, the column widths partition the clip width exactly |
| `Parallel.TilesPartitionSquare` | src/renderer/rasterizer_parallel.h:58-72 | when rows == cols, the tiles as written partition the clip rectangle exactly |
| `Parallel.RowsOverlapAsWritten` | src/renderer/rasterizer_parallel.h:67 | when rows > cols, row cols - 1 takes the remaining height and overlaps the next row |
| `Parallel.RowsGapAsWritten` | src/renderer/rasterizer_parallel.h:67 | when rows < cols and rows does not divide h, the last pixel row lies in no tile |
| `Parallel.TilesPartitionIntended` | src/renderer/rasterizer_parallel.h:58-72 | with the last row taking the remaining height, the tiles partition the clip rectangle for any grid |
| `Parallel.RasterizerParallel.constructor` | src/renderer/rasterizer_parallel.h:24-29 | exactly rows * cols sub-rasterizers, all with perspective correction on and threshold 0 x 0; the thread count defaults to 4 |
| `Parallel.RasterizerParallel.SetThreadCount` | src/renderer/rasterizer_parallel.h:32-33 | records the count |
| `Parallel.RasterizerParallel.ThreadCount` | src/renderer/rasterizer_parallel.h:35-36 | returns the recorded count |
| `Parallel.RasterizerParallel.Broadcast` | src/renderer/rasterizer_parallel.h:41-42 | every sub-rasterizer gets the same update exactly once |
| `Parallel.RasterizerParallel.PerspectiveCorrection` | src/renderer/rasterizer_parallel.h:39-43 | every sub-rasterizer gets the flag, nothing else changes |
| `Parallel.RasterizerParallel.PerspectiveThreshold` | src/renderer/rasterizer_parallel.h:45-49 | every sub-rasterizer gets the threshold, nothing else changes |
| `Parallel.RasterizerParallel.FragmentShader` | src/renderer/rasterizer_parallel.h:51-56 | every sub-rasterizer gets the shader, nothing else changes |
| `Parallel.RasterizerParallel.SetUserdata` | src/renderer/rasterizer_parallel.h:113-117 | every sub-rasterizer gets the userdata, nothing else changes |
| `Parallel.RasterizerParallel.Userdata` | src/renderer/rasterizer_parallel.h:119-122 | returns sub-rasterizer 0's userdata, which after `SetUserdata(p)` is p |
| `Parallel.RasterizerParallel.ClipCell` | src/renderer/rasterizer_parallel.h:65-69 | one pass of the inner loop writes tile (r, c)'s rectangle at index r * cols + c |
| `Parallel.RasterizerParallel.ClipRect` | src/renderer/rasterizer_parallel.h:58-72 | sub-rasterizer k gets the clip rectangle of tile (k / cols, k % cols) as written, with row cols - 1 taking the remaining height; nothing else changes |
| `Parallel.RasterizerParallel.ClipRectIntended` | src/renderer/rasterizer_parallel.h:58-72 | the same with the last row taking the remaining height |
| `Parallel.RasterizerParallel.DrawTriangle` | src/renderer/rasterizer_parallel.h:74-78 | every sub-rasterizer receives the triangle exactly once, in index order |
| `Parallel.RasterizerParallel.DrawLine` | src/renderer/rasterizer_parallel.h:80-84 | every sub-rasterizer receives the line exactly once, in index order |
| `Parallel.RasterizerParallel.DrawPoint` | src/renderer/rasterizer_parallel.h:86-90 | every sub-rasterizer receives the point exactly once, in index order |
| `Parallel.RasterizerParallel.DrawTriangleList` | src/renderer/rasterizer_parallel.h:92-97 | every sub-rasterizer receives the list once; the parallel loop runs in index order |
| `Parallel.RasterizerParallel.DrawLineList` | src/renderer/rasterizer_parallel.h:99-104 | every sub-rasterizer receives the list once; the parallel loop runs in index order |
| `Parallel.RasterizerParallel.DrawPointList` | src/renderer/rasterizer_parallel.h:106-111 | every sub-rasterizer receives the list once; the parallel loop runs in index order |

## Left out

- The bodies of `fixmul<16>`, `invert` and `ceil28_4` live in headers that are not part of this model. They stay uninterpreted, so nothing is proved about the precision of the perspective division.
- `begin_span` has an empty body. `DetectBeginEndSpan` models its call as doing nothing.
- The empty base-class `begin_triangle`/`end_triangle`/`begin_line`/`end_line` callbacks of `SpanDrawerBase` (src/renderer/span.h:165-190) are not modelled. They do nothing.
- Multisampling.MultisampleDrawer.AffineSpan requires `0 <= x`, `0 <= y`, and a buffer with one cell beyond the covered samples. The source indexes the buffer with `x / S` and then reads cell `span_max_x`, and it relies on `initialize` having sized the buffer large enough.
- Multisampling.MultisampleDrawer.Initialize requires `ceil28_4(m) >= 0`. In the source a negative value converts to a huge `size_t` and the resize fails.
- The `#pragma omp parallel for` in `draw_*_list` runs in index order here. Concurrency and thread scheduling are not modelled, and `thread_count` is only recorded.
- One `MultisampleDrawer` object stands for one (fragment shader, sample count) instantiation of the drawer. In the source its statics are shared by every rasterizer using that instantiation, including the sub-rasterizers of a parallel rasterizer running on several threads. The model does not combine the parallel layer with the multisampling drawer, so that sharing and its races are not captured.
- Sub-rasterizers are records that store their settings and the primitives they received. Their own scan conversion is not part of this model.
- Pointer identity and raw pointer arithmetic are not modelled. Userdata is an opaque integer, and colour and depth cells are integer offsets.
- 32-bit overflow of the fixed-point arithmetic is not modelled. Integers are unbounded.
- `src/renderer/geometry_processor_parallel.h`, `src/util/objdata.h` and the SDL example programs are not part of this model. The example shaders serve only as evidence for the coverage-bit layout.
- Multisampling.CoverTail does not state the value of `fd` after its first store. The source's `else` branch does not advance `jumpstep` there, and the data is never stored again in that span, so the value is never observed.

## Findings

| source | as written | input that shows it | evidently intended | confidence | as-written member | corrected member |
|---|---|---|---|---|---|---|
| src/renderer/span.h:378 | the first loop of the multisample `affine_span` runs `while (x % S != 0)` without testing `n` | S = 4, x = 1, n = 1: samples 1, 2 and 3 of cell 0 are covered, not only sample 1 | stop after n samples: `while (n > 0 && x % S != 0)` | not executed; high for S >= 3 | `Coverage.FirstLoopOverrun` | `Multisampling.MultisampleDrawer.AffineSpanIntended` |
| src/renderer/rasterizer_parallel.h:67 | the remaining height goes to row `cols_ - 1` | rows = 3, cols = 2, h = 9: row 1 spans 3 .. 8 and overlaps row 2 (6 .. 8); rows = 2, cols = 3, h = 5: pixel row 4 lies in no tile | the last row takes the remainder: `r == rows_ - 1` | not executed; high when rows != cols | `Parallel.RowsOverlapAsWritten` | `Parallel.TilesPartitionIntended` |
