# Fractal-flame accumulation buffer in Dafny

A model of the core of a fractal-flame renderer. The renderer plays the "chaos
game": it draws random start points in a world rectangle, sends each point through
randomly chosen transformations, and deposits every orbit point into an
accumulation buffer of pixels. Optionally each point is deposited as several copies
rotated about the origin. Depositing a point raises the hit count of the pixel it
lands on by one, and raises that pixel's red, green and blue channels by 10, 5 and 5,
saturating at 255. Buffers rendered separately can then be merged: hit counts add
up and channels add with the same saturation.

The project models:

- the buffer (`Pixel`, `FractalImage`);
- its queries, and the world geometry (`Point`, `Rect`);
- the in-place sampler `render`, and `render_single`, which renders one
  configuration into a new buffer under the fixed seed 42;
- the in-place merge `merge_canvases`;
- the render configuration record.

Modules:

- `Domain` (domain.dfy): points, half-open rectangles and the `Error`/`Result` types.
  - `Pixel` is a class with the four mutable fields.
  - `FractalImage` is a class holding `height` rows of `width` distinct pixel
    objects, with `Contains` and the checked accessor `PixelAt`.
  - `Snapshot()` reads the buffer's current values as a grid, so that the methods
    that change pixels in place can be specified by values.
- `TransformationConfigs` (transformation_config.dfy): the immutable configuration
  record, whose symmetry order defaults to 1.
- `Plotting` (plotting.dfy): the sampler stated on values. This covers mapping a
  world point to a pixel, one deposit, the symmetric copies of one orbit point, one
  orbit, and all samples of a render call. It also proves the buffer invariants a
  render call keeps.
- `Merging` (merging.dfy): the merge stated on values. This covers one pass of one
  source in row-major order, where a pass stops, and all sources in order. It proves
  the closed form, order independence and range preservation.
- `Renderer` (renderer.dfy): the imperative sampler and merge on `FractalImage`.
  - Each loop level of the source is one method with its loop invariants.
  - Each method is proved to leave exactly the buffer that the value-level
    functions describe.

Things the sampler takes from outside become parameters:

- The transformations are opaque `Point -> Point` functions.
- The random generator is an oracle: `rng(seed)` stands for the draws of one call.
  It gives one record per sample, holding the two unit draws behind `random.uniform`
  and the index each `random.choice` returns.
- The rotation's cosine and sine are an oracle `trig(s, symmetry)`. It must give
  exactly (1, 0) for copy 0, as `np.cos`/`np.sin` do at angle 0.
- World coordinates are exact reals.

## Model

| member | source | states |
|---|---|---|
| Domain.ContainsImpliesPositive | src/domain.py:120 | a rectangle that contains any point has positive width and height, so a degenerate rectangle contains nothing |
| Domain.ContainsIsHalfOpen | src/domain.py:110-120 | the near corner is inside a non-degenerate rectangle; no point on the far vertical or far horizontal edge is inside |
| Domain.Rect.Contains | src/domain.py:110-120 | the half-open test `x <= p.x < x + width` and `y <= p.y < y + height`; its consequences are the two lemmas above |
| Domain.Pixel.constructor | src/domain.py:4-18 | a new pixel has r = g = b = hit count = 0 |
| Domain.NewRow | src/domain.py:44 | the inner comprehension: `max(width, 0)` fresh, pairwise distinct, black pixels |
| Domain.NewRows | src/domain.py:44 | the outer comprehension: `max(height, 0)` rows of `max(width, 0)` fresh black pixels, each filling exactly one cell |
| Domain.Blank | src/domain.py:44 | the value of a new buffer: `height` rows of `width` cells, all black |
| Domain.FractalImage.constructor | src/domain.py:34-44 | the new image has the given width and height; its pixels are all fresh and distinct, so writing one cell cannot change another; its values are the blank grid |
| Domain.FractalImage.Contains | src/domain.py:46-57 | true exactly when row `y` and column `x` exist in the stored data, i.e. `0 <= x < width` and `0 <= y < height` |
| Domain.FractalImage.PixelAt | src/domain.py:59-75 | in bounds: the pixel object at `data[y][x]`; any other coordinates, negative ones included: the out-of-bounds error carrying `(x, y)` |
| Plotting.Truncate | src/renderer.py:54-55 | `int()` on a float rounds toward zero, on both sides of 0 |
| Plotting.MapToPixel | src/renderer.py:54-55 | one coordinate mapped to a pixel index: its offset from the window's origin, scaled by `size / extent` and truncated toward zero; `Plotting.MapInRange` bounds it |
| Plotting.MapInRange | src/renderer.py:54-56 | in exact arithmetic a coordinate inside the window maps to a pixel index in `[0, size)`, so the `canvas.contains` guard passes |
| Plotting.Deposit | src/renderer.py:58-61 | one hit: hit count + 1, red `min(255, r + 10)`, green and blue `min(255, c + 5)`; `Plotting.DepositGrows` proves that it keeps the buffer in range and adds exactly one hit |
| Plotting.PlotPoint | src/renderer.py:50-61 | depositing one candidate keeps the buffer's `width × height` shape; the lemmas below say which cell changes and how |
| Plotting.PlotPointSkipsOutside | src/renderer.py:50-51 | a rotated candidate outside the world leaves the buffer unchanged |
| Plotting.PlotPointChangesOnePixel | src/renderer.py:50-61 | on a non-empty buffer a world-contained candidate passes the bounds guard and changes exactly one pixel: hit count + 1, r/g/b `min(255, c + 10/5/5)`; every other pixel is unchanged |
| Plotting.DepositGrows | src/renderer.py:57-61 | one deposit keeps channels in [0, 255] and loses no hits, and the total hit count rises by exactly one |
| Plotting.PlotPointGrows | src/renderer.py:50-61 | one candidate adds at most one hit and keeps the buffer invariants |
| Plotting.PlotCopiesGrows | src/renderer.py:43-61 | the `symmetry` copies of one orbit point add at most `symmetry` hits |
| Plotting.PlotOrbitStep | src/renderer.py:38-49 | the orbit point after step j + 1 is the chosen map applied to the orbit point after step j; rotation only affects the deposited copies, never the orbit |
| Plotting.PlotOrbitGrows | src/renderer.py:38-61 | one orbit of `iter_per_sample` steps adds at most `iter_per_sample * symmetry` hits |
| Plotting.PlotSamplesGrows | src/renderer.py:32-61 | `n` samples add at most `n * iter_per_sample * symmetry` hits and keep the buffer invariants |
| Plotting.PlotSamples | src/renderer.py:32-61 | the value of `n` samples of a render call, each an orbit deposited copy by copy, folded in order; the buffer keeps its shape |
| Plotting.RenderKeepsBufferInvariants | src/renderer.py:31-61 | across a whole render call: channels in [0, 255] stay so, no hit count decreases, and the total hit count grows by at most `samples * iter_per_sample * symmetry` |
| Plotting.FreshRenderBounds | src/renderer.py:77-86 | a render into a new buffer leaves every channel in [0, 255] and a total hit count between 0 and `samples * iterations * symmetry` |
| Plotting.FirstCopyIsOrbitPoint | src/renderer.py:43-49 | copy 0 is the orbit point itself when the rotation by angle 0 is exact |
| Plotting.SingleCopyIsOrbitPoint | src/renderer.py:43-61 | with one copy per orbit point, the copy deposited is the orbit point itself |
| Plotting.NoSymmetryPlotsOrbitPoints | src/renderer.py:38-61 | with symmetry 1 an orbit deposits exactly its orbit points, one per step and in order, and never the start point |
| Merging.PartialMergeStep | src/renderer.py:103-109 | merging the next cell in row-major order adds exactly that cell, which until then held the target's own value |
| Merging.Combine | src/renderer.py:106-109 | one source pixel added into a target pixel: hit counts add exactly, each channel `min(255, t + s)`; `Merging.MergeKeepsRange` and `Merging.CombineTwice` prove what this means for whole buffers |
| Merging.MergeGrid | src/renderer.py:102-109 | one whole source merged: same shape as the target, and each cell is the target's value combined with the source's value at the same coordinates |
| Merging.MergeAll | src/renderer.py:101-109 | the sources merged one after another in list order, a self-merge adding the target's values as they are by its turn; the target keeps its shape |
| Merging.PartialMergeComplete | src/renderer.py:102-103 | a pass that reached the end of the last row merged every cell of the target |
| Merging.FirstMisfit | src/renderer.py:101-105 | the first source lacking some target cell, with every earlier source covering the target |
| Merging.MergeAllStep | src/renderer.py:101 | merging source k adds that source, or the target's current values when the source is the target, into the result of the earlier sources |
| Merging.MergeStops | src/renderer.py:101-105 | a pass that fails after fitting sources ends the whole merge with that pass's error and partial state |
| Merging.MergeContinues | src/renderer.py:101-109 | a pass that succeeds makes one more source fit, and the buffer equals the merge of one more source |
| Merging.MergeFinishes | src/renderer.py:101 | getting through every source means the merge succeeded with every source merged |
| Merging.CombineTwice | src/renderer.py:106-109 | adding two non-negative values one after the other, with saturation, equals one saturated addition of their sum |
| Merging.MergeCellSum | src/renderer.py:101-109 | after merging other buffers, one cell holds the old hit count plus the sum of the sources' hit counts, and `min(255, old + sum)` per channel |
| Merging.MergeClosedForm | src/renderer.py:101-109 | the same closed form at every cell of the target |
| Merging.MergeOrderIndependent | src/renderer.py:101-109 | merging any permutation of the same other buffers gives the same target |
| Merging.SelfMergeOrderMatters | src/renderer.py:101-109 | order independence fails once the target is among the sources: at any cell, merging a source `a` and then the target doubles both hit counts (2·(t + a)), while the other order doubles only the target's (2·t + a); the orders differ wherever `a` has hits |
| Merging.MergeNothing | src/renderer.py:101 | merging an empty list of sources leaves the target unchanged |
| Merging.MergeCommutes | src/renderer.py:106-109 | merging two buffers of the same shape is commutative, whatever their channels hold |
| Merging.MergeGridAlgebra | src/renderer.py:106-109 | for equal-shaped buffers with no negative channel, merging is commutative and associative |
| Merging.MergeKeepsRange | src/renderer.py:101-109 | when the target and every source have channels in [0, 255] and non-negative hits, so does the result, and no target hit count decreases |
| Renderer.Render | src/renderer.py:7-61 | `symmetry` defaults to 1; the call fails, with the empty-choice error and the canvas untouched, exactly when `samples > 0`, `iter_per_sample > 0` and `variations` is empty; otherwise the canvas ends as the value-level plot of every sample, whose invariants the Plotting lemmas prove |
| Renderer.IterateSample | src/renderer.py:38-61 | one sample's orbit: fails, changing nothing, exactly when an iteration must choose from no variations; otherwise the canvas ends as the orbit plot through the chosen maps |
| Renderer.PlotSymmetricCopies | src/renderer.py:43-61 | the canvas ends as all `symmetry` rotated copies of the orbit point deposited in order |
| Renderer.PlotOneCopy | src/renderer.py:44-61 | one rotated copy: skipped outside the world, mapped to a pixel, deposited only behind the bounds guard |
| Renderer.HitPixel | src/renderer.py:56-61 | the pixel at `(x, y)` is deposited once and every other cell keeps its value |
| Renderer.RenderSingle | src/renderer.py:64-87 | returns a newly allocated valid buffer of the requested size, with all its pixels fresh; it holds the plot of the config's single transformation under seed 42, with channels in [0, 255] and at most `samples * iterations * symmetry` hits |
| Renderer.MergeSource | src/renderer.py:101-109 | one source pass: succeeds exactly when the source covers the target, and then the target is fully merged; otherwise it fails at the first missing cell in row-major order, with exactly the earlier cells merged |
| Renderer.MergeRow | src/renderer.py:103-109 | one row of a pass: advances the partial merge to the start of the next row, or stops at the first cell of the row that the source lacks |
| Renderer.MergeCell | src/renderer.py:104-109 | one cell: fails with that cell's coordinates, leaving the target untouched, exactly when the source lacks it; otherwise the partial merge advances by that cell |
| Renderer.AddPixel | src/renderer.py:106-109 | the target pixel at `(x, y)` becomes the saturating sum of itself and the source value, and every other cell keeps its value |
| Renderer.MergeCanvases | src/renderer.py:90-109 | succeeds exactly when every source covers the target, leaving all sources merged in list order, including a source that is the target itself; otherwise it stops at the first source that does not, with the error of the first cell it lacks and the merge state at that point |

## Left out

- The transformations (src/transformations.py) are not part of this model. `render` receives them as opaque `Point -> Point` functions.
- Python's random generator (Mersenne Twister) is not modelled. `random.uniform(a, b)` is `a + (b - a) * u` for an oracle draw `u`, and `random.choice` is an oracle index.
- `rng(seed)` stands for the draws of one call only. In Python one seed gives different start points to calls that differ in `iter_per_sample` or `len(variations)`, because the earlier choices consume draws. No lemma relates two calls.
- `np.cos`/`np.sin` of the rotation angle `s * 2 * pi / symmetry` are an oracle `trig(s, symmetry)`. Only the linear rotation formula is modelled. The oracle is required to give exactly (1, 0) for copy 0, which holds because that angle is exactly 0.0.
- Floating point is modelled as exact reals. `Plotting.MapInRange` holds only in exact arithmetic. Under rounding the mapped index could reach the buffer size, and then the `canvas.contains` guard, which the model keeps, skips the point.
- Renderer.Render: its requires that the draw oracle supply a record for every sample, and a pick for every iteration that indexes `variations`, describe the oracle only. Python's generator supplies these without limit.
- Renderer.RenderSingle: needs the same of the oracle for seed 42 and one variation.
- Renderer.MergeCanvases: requires each source to be the target itself or to share no pixel object with it. A source sharing only some pixel objects with the target is not modelled.
- Renderer.MergeCanvases: states the result in terms of the sources' values at the time of the call.
- Raising an exception is modelled as returning `Err` and stopping. This applies to `ValueError` from `FractalImage.pixel` and `IndexError` from `random.choice([])`. The state left at that point is part of each contract.
- `FractalImage.width`, `height` and `data` are modelled as constants, since nothing in the core reassigns them. The ghost map `cellOf`, from each pixel object to its cell, exists only to state that no object fills two cells.
- Tone mapping and gamma (src/processors.py) are not part of this model: they are floating-point work with a plotting library.
- Configuration files and prompting (src/config_utils.py) are not part of this model: they are I/O.
- The command line and image saving (src/main.py, src/cli.py, src/utils.py) are not part of this model: they are orchestration.
- The multiprocess renderer (src/renderer_multithread.py) is not part of this model: it is concurrency.
