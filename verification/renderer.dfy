/** The chaos-game renderer working in place on an accumulation buffer: the sampler
    that deposits hits, the single-configuration render, and the merge of several
    buffers into one. Each method is proved to leave the buffer holding exactly what
    the value models in modules Plotting and Merging compute. */
module Renderer {
  import opened Domain
  import opened Plotting
  import opened Merging
  import opened TransformationConfigs

  /** The scene a render call on `canvas` works in. */
  function SceneOf(canvas: FractalImage, world: Rect, symmetry: int,
                   trig: (int, int) -> (real, real)): Scene
  {
    Scene(world, canvas.width, canvas.height, symmetry, trig)
  }

  /** The chaos game. `rng(seed)` stands for the draws the seeded generator produces
      (a start point and one choice per iteration for every sample) and `trig` for the
      cosine and sine of the symmetry angles. Choosing from an empty list of
      variations fails on the first iteration, before anything is deposited;
      otherwise every sample, iteration and symmetric copy is deposited exactly as
      `PlotSamples` says. The symmetry order defaults to 1: one copy per orbit point. */
  method Render(canvas: FractalImage, world: Rect, variations: seq<Point -> Point>,
                samples: int, iterPerSample: int, seed: int, symmetry: int := 1,
                rng: int -> seq<SampleDraw>, trig: (int, int) -> (real, real))
    returns (r: Result<()>)
    requires canvas.Valid()
    requires trig(0, symmetry) == (1.0, 0.0)
    requires DrawsCover(rng(seed), samples, iterPerSample)
    requires |variations| > 0 ==> PicksBelow(rng(seed), samples, iterPerSample, |variations|)
    modifies canvas.Pixels()
    ensures r.Err? <==> samples > 0 && iterPerSample > 0 && |variations| == 0
    ensures r.Err? ==> r.error == EmptySequenceChoice && canvas.Snapshot() == old(canvas.Snapshot())
    ensures r.Ok? ==>
              canvas.Snapshot() ==
              PlotSamples(SceneOf(canvas, world, symmetry, trig), old(canvas.Snapshot()),
                          variations, rng(seed), iterPerSample, Max0(samples))
  {
    var draws := rng(seed);
    ghost var sc := SceneOf(canvas, world, symmetry, trig);
    ghost var g0 := canvas.Snapshot();
    var i := 0;
    while i < samples
      invariant 0 <= i <= Max0(samples)
      invariant i == 0 || |variations| > 0 || iterPerSample <= 0
      invariant DrawsCover(draws, i, iterPerSample) && PicksBelow(draws, i, iterPerSample, |variations|)
      invariant canvas.Snapshot() == PlotSamples(sc, g0, variations, draws, iterPerSample, i)
    {
      DrawsOfSample(draws, samples, iterPerSample, |variations|, i);
      var d := draws[i];
      var pw := Point(Uniform(world.x, world.x + world.width, d.u),
                      Uniform(world.y, world.y + world.height, d.v));
      assert pw == Start(sc.world, d);
      r := IterateSample(canvas, world, variations, d.picks, pw, iterPerSample, symmetry, trig);
      if r.Err? {
        return;
      }
      PlotSamplesStep(sc, g0, variations, draws, iterPerSample, i);
      i := i + 1;
    }
    return Ok(());
  }

  /** The iteration loop of one sample from start point `pw`: each iteration picks a
      variation, applies it to the orbit point and plots the symmetric copies of the
      result. `random.choice` on an empty list fails on the first iteration. */
  method IterateSample(canvas: FractalImage, world: Rect, variations: seq<Point -> Point>,
                       picks: seq<nat>, pw: Point, iterPerSample: int, symmetry: int,
                       trig: (int, int) -> (real, real))
    returns (r: Result<()>)
    requires canvas.Valid()
    requires Max0(iterPerSample) <= |picks|
    requires |variations| > 0 ==>
               forall j :: 0 <= j < |picks| && j < iterPerSample ==> picks[j] < |variations|
    modifies canvas.Pixels()
    ensures r.Err? <==> iterPerSample > 0 && |variations| == 0
    ensures r.Err? ==> r.error == EmptySequenceChoice && canvas.Snapshot() == old(canvas.Snapshot())
    ensures r.Ok? ==>
              canvas.Snapshot() ==
              PlotOrbit(SceneOf(canvas, world, symmetry, trig), old(canvas.Snapshot()),
                        pw, Chosen(variations, picks, iterPerSample))
  {
    ghost var sc := SceneOf(canvas, world, symmetry, trig);
    ghost var g := canvas.Snapshot();
    ghost var fs: seq<Point -> Point> := [];
    if |variations| > 0 || iterPerSample <= 0 {
      fs := Chosen(variations, picks, iterPerSample);
    }
    var p := pw;
    var j := 0;
    while j < iterPerSample
      invariant 0 <= j <= Max0(iterPerSample)
      invariant |variations| > 0 || iterPerSample <= 0 ==> fs == Chosen(variations, picks, iterPerSample)
      invariant |variations| == 0 ==> j == 0
      invariant j <= |fs|
      invariant p == OrbitEnd(pw, fs[..j])
      invariant canvas.Snapshot() == PlotOrbit(sc, g, pw, fs[..j])
    {
      if |variations| == 0 {
        return Err(EmptySequenceChoice);
      }
      var v := variations[picks[j]];
      assert v == fs[j];
      p := v(p);
      PlotOrbitStep(sc, g, pw, fs, j);
      ghost var prev := canvas.Snapshot();
      PlotSymmetricCopies(canvas, world, symmetry, trig, p);
      assert canvas.Snapshot() == PlotCopies(sc, prev, p, Max0(symmetry)) == PlotOrbit(sc, g, pw, fs[..j + 1]);
      j := j + 1;
    }
    assert fs[..j] == fs;
    return Ok(());
  }

  /** The symmetry loop: every rotated copy of orbit point `pw`, in order. */
  method PlotSymmetricCopies(canvas: FractalImage, world: Rect, symmetry: int,
                             trig: (int, int) -> (real, real), pw: Point)
    requires canvas.Valid()
    modifies canvas.Pixels()
    ensures canvas.Snapshot() ==
      PlotCopies(SceneOf(canvas, world, symmetry, trig), old(canvas.Snapshot()), pw, Max0(symmetry))
  {
    ghost var sc := SceneOf(canvas, world, symmetry, trig);
    ghost var g := canvas.Snapshot();
    var s := 0;
    while s < symmetry
      invariant 0 <= s <= Max0(symmetry)
      invariant canvas.Snapshot() == PlotCopies(sc, g, pw, s)
    {
      ghost var prev := canvas.Snapshot();
      PlotOneCopy(canvas, world, symmetry, trig, pw, s);
      assert canvas.Snapshot() == PlotPoint(sc, prev, Rotated(sc, pw, s)) == PlotCopies(sc, g, pw, s + 1);
      s := s + 1;
    }
  }

  /** The body of the symmetry loop: rotate, skip outside the world, map to a pixel
      and deposit a hit there if the canvas contains it. */
  method PlotOneCopy(canvas: FractalImage, world: Rect, symmetry: int,
                     trig: (int, int) -> (real, real), pw: Point, s: int)
    requires canvas.Valid()
    modifies canvas.Pixels()
    ensures canvas.Snapshot() ==
      PlotPoint(SceneOf(canvas, world, symmetry, trig), old(canvas.Snapshot()),
                Rotated(SceneOf(canvas, world, symmetry, trig), pw, s))
  {
    var sc := SceneOf(canvas, world, symmetry, trig);
    var pwr := Rotated(sc, pw, s);
    if !world.Contains(pwr) {
      return;
    }
    var x := MapToPixel(pwr.x, world.x, world.width, canvas.width);
    var y := MapToPixel(pwr.y, world.y, world.height, canvas.height);
    if canvas.Contains(x, y) {
      HitPixel(canvas, x, y);
    }
  }

  /** One hit on the pixel at `(x, y)`: its hit count goes up by one and its channels
      are saturating-incremented; no other pixel changes. */
  method HitPixel(canvas: FractalImage, x: int, y: int)
    requires canvas.Valid() && 0 <= x < canvas.width && 0 <= y < canvas.height
    modifies canvas.Pixels()
    ensures canvas.Snapshot() ==
      old(canvas.Snapshot())[y := old(canvas.Snapshot())[y][x := Deposit(old(canvas.Snapshot())[y][x])]]
  {
    ghost var before := canvas.Snapshot();
    var pixel := canvas.PixelAt(x, y).value;
    pixel.hitCount := pixel.hitCount + 1;
    pixel.r := Cap(pixel.r + 10);
    pixel.g := Cap(pixel.g + 5);
    pixel.b := Cap(pixel.b + 5);
    forall y', x' | InGrid(before, x', y') && (y' != y || x' != x)
      ensures canvas.Snapshot()[y'][x'] == before[y'][x']
    {
      assert canvas.data[y'][x'] != pixel;
    }
    OneCellDiffers(before, canvas.Snapshot(), x, y, Deposit(before[y][x]));
  }
  /** A new image of the requested size with one configuration rendered into it
      under the fixed seed 42. */
  method RenderSingle(config: TransformationConfig, width: int, height: int,
                      rng: int -> seq<SampleDraw>, trig: (int, int) -> (real, real))
    returns (canvas: FractalImage)
    requires DrawsCover(rng(42), config.samples, config.iterations)
    requires PicksBelow(rng(42), config.samples, config.iterations, 1)
    requires trig(0, config.symmetry) == (1.0, 0.0)
    ensures canvas.Valid() && canvas.width == width && canvas.height == height
    ensures fresh(canvas) && fresh(canvas.Pixels())
    ensures canvas.Snapshot() ==
      PlotSamples(Scene(config.world, width, height, config.symmetry, trig), Blank(width, height),
                  [config.transformation], rng(42), config.iterations, Max0(config.samples))
    ensures InRange(canvas.Snapshot())
    ensures TotalHits(canvas.Snapshot()) <= Max0(config.samples) * Max0(config.iterations) * Max0(config.symmetry)
  {
    canvas := new FractalImage(width, height);
    var r := Render(canvas, config.world, [config.transformation], config.samples, config.iterations,
                    42, symmetry := config.symmetry, rng := rng, trig := trig);
    FreshRenderBounds(Scene(config.world, width, height, config.symmetry, trig), [config.transformation],
                      rng(42), config.iterations, config.samples);
  }

  // ---------------------------------------------------------------------------
  // Merging canvases
  // ---------------------------------------------------------------------------

  /** A source as the target sees it when its turn comes. */
  ghost function View(target: FractalImage, canvas: FractalImage): Source
    requires canvas.Valid()
    reads canvas.Pixels()
  {
    if canvas == target then Itself else Other(canvas.Snapshot())
  }

  ghost function ImagesPixels(images: seq<FractalImage>): set<Pixel> {
    set k, p | 0 <= k < |images| && p in images[k].Pixels() :: p
  }

  ghost function Views(target: FractalImage, sources: seq<FractalImage>): (srcs: seq<Source>)
    requires forall k :: 0 <= k < |sources| ==> sources[k].Valid()
    reads ImagesPixels(sources)
    ensures |srcs| == |sources|
    ensures forall k :: 0 <= k < |sources| ==> srcs[k] == View(target, sources[k])
  {
    seq(|sources|, k requires 0 <= k < |sources| reads ImagesPixels(sources) => View(target, sources[k]))
  }

  /** One pass of the merge: `canvas` added into `target` cell by cell in row-major
      order. It fails with the coordinates of the first target cell the source does not
      have, leaving the earlier cells merged. */
  method MergeSource(target: FractalImage, canvas: FractalImage) returns (r: Result<()>)
    requires target.Valid() && canvas.Valid()
    requires canvas == target || canvas.Pixels() !! target.Pixels()
    modifies target.Pixels()
    ensures PassOutcome(old(target.Snapshot()), SourceGrid(old(View(target, canvas)), old(target.Snapshot())),
                        r, target.Snapshot())
  {
    ghost var t := target.Snapshot();
    ghost var s := SourceGrid(View(target, canvas), t);
    assert s == if canvas == target then t else canvas.Snapshot();
    PartialMergeStart(t, s);
    var y := 0;
    while y < target.height
      invariant 0 <= y <= Max0(target.height)
      invariant CoversBefore(s, t, 0, y)
      invariant target.Snapshot() == PartialMerge(t, s, 0, y)
      invariant canvas != target ==> canvas.Snapshot() == s
    {
      r := MergeRow(target, canvas, y, t, s);
      if r.Err? {
        return;
      }
      y := y + 1;
    }
    PartialMergeComplete(t, s);
    return Ok(());
  }

  /** Row `y` of one merge pass, from its first cell; `t` is the target before the
      pass and `s` the source's values. */
  method MergeRow(target: FractalImage, canvas: FractalImage, y: int, ghost t: Grid, ghost s: Grid)
    returns (r: Result<()>)
    requires target.Valid() && canvas.Valid()
    requires canvas == target || canvas.Pixels() !! target.Pixels()
    requires 0 <= y < target.height && HasShape(t, target.width, target.height)
    requires s == if canvas == target then t else canvas.Snapshot()
    requires CoversBefore(s, t, 0, y) && target.Snapshot() == PartialMerge(t, s, 0, y)
    modifies target.Pixels()
    ensures canvas != target ==> canvas.Snapshot() == s
    ensures r.Ok? ==> CoversBefore(s, t, 0, y + 1) && target.Snapshot() == PartialMerge(t, s, 0, y + 1)
    ensures r.Err? ==> StoppedAt(t, s, r.error, target.Snapshot()) && r.error.y == y
  {
    var x := 0;
    while x < target.width
      invariant 0 <= x <= Max0(target.width)
      invariant CoversBefore(s, t, x, y)
      invariant target.Snapshot() == PartialMerge(t, s, x, y)
      invariant canvas != target ==> canvas.Snapshot() == s
    {
      r := MergeCell(target, canvas, x, y, t, s);
      if r.Err? {
        return;
      }
      x := x + 1;
    }
    assert x == |t[y]|;
    PartialMergeNextRow(t, s, y);
    assert target.Snapshot() == PartialMerge(t, s, 0, y + 1);
    return Ok(());
  }

  /** Cell `(x, y)` of one merge pass: fetch both pixels, failing if the source has
      no such cell, then add the source pixel into the target pixel. */
  method MergeCell(target: FractalImage, canvas: FractalImage, x: int, y: int, ghost t: Grid, ghost s: Grid)
    returns (r: Result<()>)
    requires target.Valid() && canvas.Valid()
    requires canvas == target || canvas.Pixels() !! target.Pixels()
    requires 0 <= x < target.width && 0 <= y < target.height && HasShape(t, target.width, target.height)
    requires s == if canvas == target then t else canvas.Snapshot()
    requires CoversBefore(s, t, x, y) && target.Snapshot() == PartialMerge(t, s, x, y)
    modifies target.Pixels()
    ensures r.Ok? <==> InGrid(s, x, y)
    ensures r.Ok? ==> CoversBefore(s, t, x + 1, y) && target.Snapshot() == PartialMerge(t, s, x + 1, y)
    ensures r.Err? ==> r.error == CoordinatesOutOfBounds(x, y) && unchanged(target.Pixels())
    ensures r.Err? ==> StoppedAt(t, s, r.error, target.Snapshot())
  {
    var targetPixel := target.PixelAt(x, y).value;
    var found := canvas.PixelAt(x, y);
    if found.Err? {
      return Err(found.error);
    }
    var sourcePixel := found.value;
    PartialMergeStep(t, s, x, y);
    ghost var cur := target.Snapshot();
    var sv := sourcePixel.Value();
    assert sv == s[y][x] && cur[y][x] == t[y][x];
    AddPixel(target, targetPixel, sv, x, y);
    return Ok(());
  }

  /** The body of the merge loops: the source pixel's hit count (read as `sv`) added to
      the target pixel at `(x, y)` and its channels added with saturation. When a canvas
      is merged into itself, `sv` is the target pixel's own value. */
  method AddPixel(target: FractalImage, targetPixel: Pixel, sv: PixelValue, x: int, y: int)
    requires target.Valid() && 0 <= y < |target.data| && 0 <= x < |target.data[y]|
    requires targetPixel == target.data[y][x]
    modifies target.Pixels()
    ensures target.Snapshot() ==
      old(target.Snapshot())[y := old(target.Snapshot())[y][x := Combine(old(target.Snapshot())[y][x], sv)]]
  {
    ghost var before := target.Snapshot();
    var tv := targetPixel.Value();
    targetPixel.hitCount, targetPixel.r, targetPixel.g, targetPixel.b :=
      tv.hits + sv.hits, Cap(tv.r + sv.r), Cap(tv.g + sv.g), Cap(tv.b + sv.b);
    forall y', x' | InGrid(before, x', y') && (y' != y || x' != x)
      ensures target.Snapshot()[y'][x'] == before[y'][x']
    {
      assert target.data[y'][x'] != targetPixel;
    }
    OneCellDiffers(before, target.Snapshot(), x, y, Combine(before[y][x], sv));
  }

  /** Every source added into `target` in list order. A source may be the target
      itself, which then adds its current values to themselves. The merge stops at the
      first target cell some source lacks, with the coordinates of that cell. */
  method MergeCanvases(target: FractalImage, sources: seq<FractalImage>) returns (r: Result<()>)
    requires target.Valid()
    requires forall k :: 0 <= k < |sources| ==> sources[k].Valid()
    requires forall k :: 0 <= k < |sources| ==> sources[k] == target || sources[k].Pixels() !! target.Pixels()
    modifies target.Pixels()
    ensures MergeOutcome(old(target.Snapshot()), old(Views(target, sources)), r, target.Snapshot())
  {
    ghost var t := target.Snapshot();
    ghost var views := Views(target, sources);
    var k := 0;
    while k < |sources|
      invariant 0 <= k <= |sources|
      invariant forall k' :: 0 <= k' < k ==> Fits(t, views[k'])
      invariant target.Snapshot() == MergeAll(t, views[..k])
      invariant forall k' :: 0 <= k' < |sources| && sources[k'] != target ==>
                  sources[k'].Snapshot() == views[k'].grid
    {
      assert views[k] == View(target, sources[k]);
      r := MergeSource(target, sources[k]);
      if r.Err? {
        MergeStops(t, views, k, r, target.Snapshot());
        return;
      }
      MergeContinues(t, views, k, r, target.Snapshot());
      k := k + 1;
    }
    r := Ok(());
    MergeFinishes(t, views, target.Snapshot());
  }
}
