/** What the chaos-game sampler does to an accumulation buffer, stated on values:
    how one candidate point is mapped to a pixel and deposited, and how the samples,
    iterations and symmetric copies of one render call fold those deposits together.
    The in-place sampler in module Renderer is proved to produce exactly this. */
module Plotting {
  import opened Domain

  /** `min(255, v)`: the saturating cap of a colour channel. */
  function Cap(v: int): int {
    if v < 255 then v else 255
  }

  /** One hit: the hit count goes up by one, red by 10, green and blue by 5, each
      colour capped at 255. */
  function Deposit(p: PixelValue): PixelValue {
    PixelValue(Cap(p.r + 10), Cap(p.g + 5), Cap(p.b + 5), p.hits + 1)
  }

  /** Python's `int()` on a float: truncation toward zero. */
  function Truncate(v: real): (i: int)
    ensures 0.0 <= v ==> i as real <= v < i as real + 1.0
    ensures v < 0.0 ==> i as real - 1.0 < v <= i as real
  {
    if v >= 0.0 then v.Floor else -((-v).Floor)
  }

  /** The pixel index of world coordinate `c` along one axis of a window starting at
      `origin` with length `extent`, on a buffer with `size` pixels along that axis. */
  function MapToPixel(c: real, origin: real, extent: real, size: int): int
    requires extent != 0.0
  {
    Truncate((c - origin) / extent * size as real)
  }

  /** In exact arithmetic a coordinate inside the window always maps to a pixel
      inside the buffer. */
  lemma MapInRange(c: real, origin: real, extent: real, size: int)
    requires origin <= c < origin + extent
    requires size > 0
    ensures 0 <= MapToPixel(c, origin, extent, size) < size
  {
    var t := (c - origin) / extent;
    assert t * extent == c - origin;
    assert 0.0 <= t < 1.0;
    var v := t * size as real;
    assert 0.0 <= v < size as real;
    assert Truncate(v) == v.Floor;
  }

  /** Everything one render call needs besides the random draws: the world rectangle
      (both the sampling domain and the mapping window), the buffer's declared size, the
      symmetry order, and `trig(s, n)`, the (cos, sin) of the rotation angle 2*pi*s/n. */
  datatype Scene = Scene(
    world: Rect,
    width: int,
    height: int,
    symmetry: int,
    trig: (int, int) -> (real, real))

  /** Copy `s` of orbit point `pw`: `pw` rotated about the origin by 2*pi*s/symmetry. */
  function Rotated(sc: Scene, pw: Point, s: int): Point {
    var cs := sc.trig(s, sc.symmetry);
    Point(pw.x * cs.0 - pw.y * cs.1, pw.x * cs.1 + pw.y * cs.0)
  }

  /** The pixel a world-contained candidate maps to, as `(x, y)`. */
  function PixelOf(sc: Scene, p: Point): (int, int)
    requires sc.world.Contains(p)
  {
    (MapToPixel(p.x, sc.world.x, sc.world.width, sc.width),
     MapToPixel(p.y, sc.world.y, sc.world.height, sc.height))
  }

  /** Deposit candidate `p`: skipped outside the world, then mapped to a pixel and
      deposited there if the buffer contains that pixel. */
  function PlotPoint(sc: Scene, g: Grid, p: Point): (g': Grid)
    requires HasShape(g, sc.width, sc.height)
    ensures HasShape(g', sc.width, sc.height)
  {
    if !sc.world.Contains(p) then g
    else
      var x, y := PixelOf(sc, p).0, PixelOf(sc, p).1;
      if 0 <= x < sc.width && 0 <= y < sc.height then g[y := g[y][x := Deposit(g[y][x])]]
      else g
  }

  /** The first `n` symmetric copies of orbit point `pw`, deposited in order. */
  function PlotCopies(sc: Scene, g: Grid, pw: Point, n: nat): (g': Grid)
    requires HasShape(g, sc.width, sc.height)
    ensures HasShape(g', sc.width, sc.height)
  {
    if n == 0 then g else PlotPoint(sc, PlotCopies(sc, g, pw, n - 1), Rotated(sc, pw, n - 1))
  }

  /** The orbit point after applying the maps `fs` in order to `p`. */
  function OrbitEnd(p: Point, fs: seq<Point -> Point>): Point {
    if |fs| == 0 then p else fs[|fs| - 1](OrbitEnd(p, fs[..|fs| - 1]))
  }

  /** One orbit from start point `p` through the maps `fs`: after each step, all
      symmetric copies of the new orbit point are deposited. */
  function PlotOrbit(sc: Scene, g: Grid, p: Point, fs: seq<Point -> Point>): (g': Grid)
    requires HasShape(g, sc.width, sc.height)
    ensures HasShape(g', sc.width, sc.height)
  {
    if |fs| == 0 then g
    else PlotCopies(sc, PlotOrbit(sc, g, p, fs[..|fs| - 1]), OrbitEnd(p, fs), Max0(sc.symmetry))
  }

  /** The random draws of one sample: the two unit draws behind `random.uniform` for the
      start point, and the index each `random.choice` returns. */
  datatype SampleDraw = SampleDraw(u: real, v: real, picks: seq<nat>)

  /** `random.uniform(a, b)` for the unit draw `u`. */
  function Uniform(a: real, b: real, u: real): real {
    a + (b - a) * u
  }

  function Start(world: Rect, d: SampleDraw): Point {
    Point(Uniform(world.x, world.x + world.width, d.u), Uniform(world.y, world.y + world.height, d.v))
  }

  /** The draws hold a record for each sample and a pick for each iteration. */
  predicate DrawsCover(draws: seq<SampleDraw>, samples: int, iters: int) {
    Max0(samples) <= |draws| &&
    forall i :: 0 <= i < |draws| && i < samples ==> Max0(iters) <= |draws[i].picks|
  }

  /** Every pick the sampler uses is an index into a list of `n` variations. */
  predicate PicksBelow(draws: seq<SampleDraw>, samples: int, iters: int, n: nat) {
    forall i, j :: 0 <= i < |draws| && i < samples && 0 <= j < |draws[i].picks| && j < iters ==>
      draws[i].picks[j] < n
  }

  /** What the draws of sample `i` provide: a pick for every iteration, each an index
      into the `n` variations, and the draws of the first `i + 1` samples are complete. */
  lemma DrawsOfSample(draws: seq<SampleDraw>, samples: int, iters: int, n: nat, i: int)
    requires DrawsCover(draws, samples, iters)
    requires n > 0 ==> PicksBelow(draws, samples, iters, n)
    requires 0 <= i < samples
    ensures i < |draws| && Max0(iters) <= |draws[i].picks|
    ensures n > 0 ==> forall j :: 0 <= j < |draws[i].picks| && j < iters ==> draws[i].picks[j] < n
    ensures DrawsCover(draws, i + 1, iters)
    ensures n > 0 ==> PicksBelow(draws, i + 1, iters, n)
  {
  }

  /** The maps `random.choice` selects over the iterations of one sample. */
  function Chosen(variations: seq<Point -> Point>, picks: seq<nat>, iters: int): (fs: seq<Point -> Point>)
    requires Max0(iters) <= |picks|
    requires forall j :: 0 <= j < |picks| && j < iters ==> picks[j] < |variations|
    ensures |fs| == Max0(iters)
  {
    seq(Max0(iters), j requires 0 <= j < Max0(iters) => variations[picks[j]])
  }

  /** The first `n` samples of a render call, deposited in order. */
  function PlotSamples(sc: Scene, g: Grid, variations: seq<Point -> Point>,
                       draws: seq<SampleDraw>, iters: int, n: nat): (g': Grid)
    requires HasShape(g, sc.width, sc.height)
    requires DrawsCover(draws, n, iters) && PicksBelow(draws, n, iters, |variations|)
    ensures HasShape(g', sc.width, sc.height)
  {
    if n == 0 then g
    else
      var d := draws[n - 1];
      PlotOrbit(sc, PlotSamples(sc, g, variations, draws, iters, n - 1),
                Start(sc.world, d), Chosen(variations, d.picks, iters))
  }

  /** One more iteration of an orbit: the next orbit point is the next map applied to
      the current one, and its symmetric copies are deposited after the earlier ones. */
  lemma PlotOrbitStep(sc: Scene, g: Grid, p: Point, fs: seq<Point -> Point>, j: nat)
    requires HasShape(g, sc.width, sc.height) && j < |fs|
    ensures OrbitEnd(p, fs[..j + 1]) == fs[j](OrbitEnd(p, fs[..j]))
    ensures PlotOrbit(sc, g, p, fs[..j + 1]) ==
            PlotCopies(sc, PlotOrbit(sc, g, p, fs[..j]), OrbitEnd(p, fs[..j + 1]), Max0(sc.symmetry))
  {
    assert fs[..j + 1][..j] == fs[..j];
  }

  /** One more sample: its orbit is plotted after those of the earlier samples. */
  lemma PlotSamplesStep(sc: Scene, g: Grid, variations: seq<Point -> Point>,
                        draws: seq<SampleDraw>, iters: int, n: nat)
    requires HasShape(g, sc.width, sc.height)
    requires DrawsCover(draws, n + 1, iters) && PicksBelow(draws, n + 1, iters, |variations|)
    ensures DrawsCover(draws, n, iters) && PicksBelow(draws, n, iters, |variations|)
    ensures PlotSamples(sc, g, variations, draws, iters, n + 1) ==
            PlotOrbit(sc, PlotSamples(sc, g, variations, draws, iters, n),
                      Start(sc.world, draws[n]), Chosen(variations, draws[n].picks, iters))
  {
  }

  // ---------------------------------------------------------------------------
  // The buffer invariants a render call keeps
  // ---------------------------------------------------------------------------

  predicate SameShape(a: Grid, b: Grid) {
    |a| == |b| && forall y :: 0 <= y < |a| ==> |a[y]| == |b[y]|
  }

  /** Every colour channel lies in [0, 255] and no hit count is negative. */
  ghost predicate InRange(g: Grid) {
    forall y, x :: InGrid(g, x, y) ==> PixelInRange(g[y][x])
  }

  predicate PixelInRange(p: PixelValue) {
    0 <= p.r <= 255 && 0 <= p.g <= 255 && 0 <= p.b <= 255 && 0 <= p.hits
  }

  /** No cell's hit count went down from `a` to `b`. */
  ghost predicate NoHitsLost(a: Grid, b: Grid) {
    SameShape(a, b) && forall y, x :: InGrid(a, x, y) ==> a[y][x].hits <= b[y][x].hits
  }

  function RowHits(row: seq<PixelValue>): int {
    if |row| == 0 then 0 else RowHits(row[..|row| - 1]) + row[|row| - 1].hits
  }

  /** The total hit count of a buffer. */
  function TotalHits(g: Grid): int {
    if |g| == 0 then 0 else TotalHits(g[..|g| - 1]) + RowHits(g[|g| - 1])
  }

  lemma {:induction false} RowHitsUpdate(row: seq<PixelValue>, x: int, v: PixelValue)
    requires 0 <= x < |row|
    ensures RowHits(row[x := v]) == RowHits(row) - row[x].hits + v.hits
  {
    var n := |row| - 1;
    if x == n {
      assert row[x := v][..n] == row[..n];
    } else {
      assert row[x := v][..n] == row[..n][x := v];
      RowHitsUpdate(row[..n], x, v);
    }
  }

  lemma {:induction false} TotalHitsUpdate(g: Grid, y: int, row: seq<PixelValue>)
    requires 0 <= y < |g|
    ensures TotalHits(g[y := row]) == TotalHits(g) - RowHits(g[y]) + RowHits(row)
  {
    var n := |g| - 1;
    if y == n {
      assert g[y := row][..n] == g[..n];
    } else {
      assert g[y := row][..n] == g[..n][y := row];
      TotalHitsUpdate(g[..n], y, row);
    }
  }

  /** `b` is `a` after at most `k` deposits: same shape, channels still in range, no
      hit lost, and the total hit count grown by between 0 and `k`. */
  ghost predicate Grows(a: Grid, b: Grid, k: int) {
    && NoHitsLost(a, b)
    && (InRange(a) ==> InRange(b))
    && TotalHits(a) <= TotalHits(b) <= TotalHits(a) + k
  }

  lemma GrowsTrans(a: Grid, b: Grid, c: Grid, k1: int, k2: int, k: int)
    requires Grows(a, b, k1) && Grows(b, c, k2) && k1 + k2 <= k
    ensures Grows(a, c, k)
  {
  }

  lemma MulSucc(n: int, k: int)
    ensures (n - 1) * k + k == n * k
  {
  }

  // ---------------------------------------------------------------------------
  // Properties of one deposit
  // ---------------------------------------------------------------------------

  /** A candidate outside the world leaves the buffer unchanged. */
  lemma PlotPointSkipsOutside(sc: Scene, g: Grid, p: Point)
    requires HasShape(g, sc.width, sc.height)
    requires !sc.world.Contains(p)
    ensures PlotPoint(sc, g, p) == g
  {
  }

  /** A world-contained candidate on a non-empty buffer always passes the buffer's
      bounds check and changes exactly one pixel: its hit count goes up by one, its
      channels are saturating-incremented by 10/5/5, and every other pixel is as before. */
  lemma PlotPointChangesOnePixel(sc: Scene, g: Grid, p: Point)
    requires HasShape(g, sc.width, sc.height)
    requires sc.world.Contains(p) && sc.width > 0 && sc.height > 0
    ensures var x, y := PixelOf(sc, p).0, PixelOf(sc, p).1;
      && 0 <= x < sc.width && 0 <= y < sc.height
      && var g' := PlotPoint(sc, g, p);
      && SameShape(g, g')
      && g'[y][x] == PixelValue(Cap(g[y][x].r + 10), Cap(g[y][x].g + 5), Cap(g[y][x].b + 5), g[y][x].hits + 1)
      && forall y', x' :: InGrid(g, x', y') && (y', x') != (y, x) ==> g'[y'][x'] == g[y'][x']
  {
    MapInRange(p.x, sc.world.x, sc.world.width, sc.width);
    MapInRange(p.y, sc.world.y, sc.world.height, sc.height);
  }

  /** Depositing into one cell keeps the buffer invariants and adds exactly one hit. */
  lemma DepositGrows(g: Grid, x: int, y: int)
    requires InGrid(g, x, y)
    ensures Grows(g, g[y := g[y][x := Deposit(g[y][x])]], 1)
    ensures TotalHits(g[y := g[y][x := Deposit(g[y][x])]]) == TotalHits(g) + 1
  {
    var g': Grid := g[y := g[y][x := Deposit(g[y][x])]];
    forall y', x' | InGrid(g, x', y')
      ensures g[y'][x'].hits <= g'[y'][x'].hits
      ensures PixelInRange(g[y'][x']) ==> PixelInRange(g'[y'][x'])
    {
      if (y', x') != (y, x) {
        assert g'[y'][x'] == g[y'][x'];
      }
    }
    RowHitsUpdate(g[y], x, Deposit(g[y][x]));
    TotalHitsUpdate(g, y, g[y][x := Deposit(g[y][x])]);
  }

  /** One deposit keeps the buffer invariants and adds at most one hit. */
  lemma PlotPointGrows(sc: Scene, g: Grid, p: Point)
    requires HasShape(g, sc.width, sc.height)
    ensures Grows(g, PlotPoint(sc, g, p), 1)
  {
    if sc.world.Contains(p) {
      var x, y := PixelOf(sc, p).0, PixelOf(sc, p).1;
      if 0 <= x < sc.width && 0 <= y < sc.height {
        DepositGrows(g, x, y);
      }
    }
  }

  // ---------------------------------------------------------------------------
  // Properties of a whole render call
  // ---------------------------------------------------------------------------

  lemma {:induction false} PlotCopiesGrows(sc: Scene, g: Grid, pw: Point, n: nat)
    requires HasShape(g, sc.width, sc.height)
    ensures Grows(g, PlotCopies(sc, g, pw, n), n)
  {
    if n > 0 {
      var prev := PlotCopies(sc, g, pw, n - 1);
      PlotCopiesGrows(sc, g, pw, n - 1);
      PlotPointGrows(sc, prev, Rotated(sc, pw, n - 1));
      GrowsTrans(g, prev, PlotCopies(sc, g, pw, n), n - 1, 1, n);
    }
  }

  lemma {:induction false} PlotOrbitGrows(sc: Scene, g: Grid, p: Point, fs: seq<Point -> Point>)
    requires HasShape(g, sc.width, sc.height)
    ensures Grows(g, PlotOrbit(sc, g, p, fs), |fs| * Max0(sc.symmetry))
  {
    if |fs| > 0 {
      var n, m := |fs|, Max0(sc.symmetry);
      var prev := PlotOrbit(sc, g, p, fs[..n - 1]);
      PlotOrbitGrows(sc, g, p, fs[..n - 1]);
      PlotCopiesGrows(sc, prev, OrbitEnd(p, fs), m);
      MulSucc(n, m);
      GrowsTrans(g, prev, PlotOrbit(sc, g, p, fs), (n - 1) * m, m, n * m);
    }
  }

  /** One more sample adds at most `iters * symmetry` hits and keeps the invariants. */
  lemma SampleGrows(sc: Scene, g: Grid, variations: seq<Point -> Point>,
                    draws: seq<SampleDraw>, iters: int, n: nat)
    requires HasShape(g, sc.width, sc.height)
    requires DrawsCover(draws, n + 1, iters) && PicksBelow(draws, n + 1, iters, |variations|)
    ensures DrawsCover(draws, n, iters) && PicksBelow(draws, n, iters, |variations|)
    ensures Grows(PlotSamples(sc, g, variations, draws, iters, n),
                  PlotSamples(sc, g, variations, draws, iters, n + 1),
                  Max0(iters) * Max0(sc.symmetry))
  {
    PlotSamplesStep(sc, g, variations, draws, iters, n);
    var d := draws[n];
    PlotOrbitGrows(sc, PlotSamples(sc, g, variations, draws, iters, n), Start(sc.world, d),
                   Chosen(variations, d.picks, iters));
  }

  lemma {:induction false} PlotSamplesGrows(sc: Scene, g: Grid, variations: seq<Point -> Point>,
                                            draws: seq<SampleDraw>, iters: int, n: nat)
    requires HasShape(g, sc.width, sc.height)
    requires DrawsCover(draws, n, iters) && PicksBelow(draws, n, iters, |variations|)
    ensures Grows(g, PlotSamples(sc, g, variations, draws, iters, n),
                  n * (Max0(iters) * Max0(sc.symmetry)))
  {
    if n > 0 {
      var k := Max0(iters) * Max0(sc.symmetry);
      SampleGrows(sc, g, variations, draws, iters, n - 1);
      PlotSamplesGrows(sc, g, variations, draws, iters, n - 1);
      MulSucc(n, k);
      GrowsTrans(g, PlotSamples(sc, g, variations, draws, iters, n - 1),
                 PlotSamples(sc, g, variations, draws, iters, n), (n - 1) * k, k, n * k);
    }
  }

  /** Across a whole render call: colour channels stay in [0, 255] when they start
      there, no hit count decreases, and the total hit count grows by at most
      `samples * iterations * symmetry`. */
  lemma RenderKeepsBufferInvariants(sc: Scene, g: Grid, variations: seq<Point -> Point>,
                                    draws: seq<SampleDraw>, iters: int, samples: int)
    requires HasShape(g, sc.width, sc.height)
    requires DrawsCover(draws, samples, iters)
    requires PicksBelow(draws, samples, iters, |variations|)
    ensures var g' := PlotSamples(sc, g, variations, draws, iters, Max0(samples));
      && (InRange(g) ==> InRange(g'))
      && NoHitsLost(g, g')
      && TotalHits(g) <= TotalHits(g') <= TotalHits(g) + Max0(samples) * Max0(iters) * Max0(sc.symmetry)
  {
    var n, i, s := Max0(samples), Max0(iters), Max0(sc.symmetry);
    assert DrawsCover(draws, n, iters) && PicksBelow(draws, n, iters, |variations|);
    PlotSamplesGrows(sc, g, variations, draws, iters, n);
    MulAssoc(n, i, s);
  }

  lemma {:induction false} BlankRowHits(row: seq<PixelValue>)
    requires forall x :: 0 <= x < |row| ==> row[x] == Black
    ensures RowHits(row) == 0
  {
    if |row| > 0 {
      BlankRowHits(row[..|row| - 1]);
    }
  }

  lemma {:induction false} BlankTotalHits(g: Grid)
    requires forall y, x :: InGrid(g, x, y) ==> g[y][x] == Black
    ensures TotalHits(g) == 0
  {
    if |g| > 0 {
      var n := |g| - 1;
      assert forall y, x :: InGrid(g[..n], x, y) ==> InGrid(g, x, y);
      BlankTotalHits(g[..n]);
      assert forall x :: 0 <= x < |g[n]| ==> InGrid(g, x, n);
      BlankRowHits(g[n]);
    }
  }

  /** A render on a new black buffer leaves every channel in [0, 255] and a total
      hit count between 0 and `samples * iterations * symmetry`. */
  lemma FreshRenderBounds(sc: Scene, variations: seq<Point -> Point>,
                          draws: seq<SampleDraw>, iters: int, samples: int)
    requires DrawsCover(draws, samples, iters)
    requires PicksBelow(draws, samples, iters, |variations|)
    ensures var g := PlotSamples(sc, Blank(sc.width, sc.height), variations, draws, iters, Max0(samples));
      && InRange(g)
      && 0 <= TotalHits(g) <= Max0(samples) * Max0(iters) * Max0(sc.symmetry)
  {
    var b := Blank(sc.width, sc.height);
    BlankTotalHits(b);
    RenderKeepsBufferInvariants(sc, b, variations, draws, iters, samples);
  }

  lemma MulAssoc(a: int, b: int, c: int)
    ensures a * (b * c) == a * b * c
  {
  }

  /** The first symmetric copy is the orbit point itself when the rotation by angle 0
      is exact. */
  lemma FirstCopyIsOrbitPoint(sc: Scene, pw: Point)
    requires sc.trig(0, sc.symmetry) == (1.0, 0.0)
    ensures Rotated(sc, pw, 0) == pw
  {
  }

  /** With one copy per orbit point, the copy deposited is the orbit point itself. */
  lemma SingleCopyIsOrbitPoint(sc: Scene, g: Grid, pw: Point)
    requires HasShape(g, sc.width, sc.height)
    requires sc.trig(0, sc.symmetry) == (1.0, 0.0)
    ensures PlotCopies(sc, g, pw, 1) == PlotPoint(sc, g, pw)
  {
    FirstCopyIsOrbitPoint(sc, pw);
  }

  /** The orbit points of start point `p` under the maps `fs`: the point after each step. */
  function OrbitPoints(p: Point, fs: seq<Point -> Point>): (ps: seq<Point>)
    ensures |ps| == |fs| && forall j :: 0 <= j < |fs| ==> ps[j] == OrbitEnd(p, fs[..j + 1])
  {
    seq(|fs|, j requires 0 <= j < |fs| => OrbitEnd(p, fs[..j + 1]))
  }

  /** The candidates `ps` deposited one after another. */
  function PlotPoints(sc: Scene, g: Grid, ps: seq<Point>): (g': Grid)
    requires HasShape(g, sc.width, sc.height)
    ensures HasShape(g', sc.width, sc.height)
  {
    if |ps| == 0 then g else PlotPoint(sc, PlotPoints(sc, g, ps[..|ps| - 1]), ps[|ps| - 1])
  }

  /** Without symmetry (order 1, with the exact rotation by angle 0) an orbit deposits
      exactly its orbit points, one per step, in order: the start point itself is not
      deposited. */
  lemma {:induction false} NoSymmetryPlotsOrbitPoints(sc: Scene, g: Grid, p: Point, fs: seq<Point -> Point>)
    requires HasShape(g, sc.width, sc.height)
    requires sc.symmetry == 1 && sc.trig(0, 1) == (1.0, 0.0)
    ensures PlotOrbit(sc, g, p, fs) == PlotPoints(sc, g, OrbitPoints(p, fs))
  {
    if |fs| > 0 {
      var n := |fs| - 1;
      var ps := OrbitPoints(p, fs);
      NoSymmetryPlotsOrbitPoints(sc, g, p, fs[..n]);
      forall j | 0 <= j < n ensures ps[..n][j] == OrbitPoints(p, fs[..n])[j] {
        assert fs[..n][..j + 1] == fs[..j + 1];
      }
      assert ps[..n] == OrbitPoints(p, fs[..n]);
      assert fs[..n + 1] == fs;
      SingleCopyIsOrbitPoint(sc, PlotOrbit(sc, g, p, fs[..n]), OrbitEnd(p, fs));
    }
  }
}
