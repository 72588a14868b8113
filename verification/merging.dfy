/** What merging accumulation buffers does, stated on values: each source is added
    into the target cell by cell, hit counts exactly and colour channels saturating
    at 255. The in-place merge in module Renderer is proved to produce exactly this. */
module Merging {
  import opened Domain
  import opened Plotting

  /** A source pixel added into a target pixel. */
  function Combine(t: PixelValue, s: PixelValue): PixelValue {
    PixelValue(Cap(t.r + s.r), Cap(t.g + s.g), Cap(t.b + s.b), t.hits + s.hits)
  }

  /** Every cell of `t` is a cell of `s`, so the merge never asks `s` for a missing pixel. */
  ghost predicate Covers(s: Grid, t: Grid) {
    forall y, x :: InGrid(t, x, y) ==> InGrid(s, x, y)
  }

  /** Target `t` after one source `s` has been merged into every cell. */
  function MergeGrid(t: Grid, s: Grid): (m: Grid)
    requires Covers(s, t)
    ensures SameShape(t, m)
    ensures forall y, x :: InGrid(t, x, y) ==> m[y][x] == Combine(t[y][x], s[y][x])
  {
    seq(|t|, y requires 0 <= y < |t| =>
      seq(|t[y]|, x requires 0 <= x < |t[y]| =>
        assert InGrid(t, x, y); Combine(t[y][x], s[y][x])))
  }

  /** Cell `(x, y)` comes before cell `(x0, y0)` in row-major order. */
  predicate Before(x: int, y: int, x0: int, y0: int) {
    y < y0 || (y == y0 && x < x0)
  }

  /** Every cell of `t` before `(x0, y0)` is a cell of `s`. */
  ghost predicate CoversBefore(s: Grid, t: Grid, x0: int, y0: int) {
    forall y, x :: InGrid(t, x, y) && Before(x, y, x0, y0) ==> InGrid(s, x, y)
  }

  /** Target `t` after `s` has been merged into the cells before `(x0, y0)` only. */
  function PartialMerge(t: Grid, s: Grid, x0: int, y0: int): (m: Grid)
    requires CoversBefore(s, t, x0, y0)
    ensures SameShape(t, m)
  {
    seq(|t|, y requires 0 <= y < |t| =>
      seq(|t[y]|, x requires 0 <= x < |t[y]| =>
        if Before(x, y, x0, y0) then assert InGrid(t, x, y) && Before(x, y, x0, y0); Combine(t[y][x], s[y][x]) else t[y][x]))
  }

  /** A source of a merge as the target sees it when its turn comes: another buffer's
      values, or the target itself (whose values by then include the earlier merges). */
  datatype Source = Other(grid: Grid) | Itself

  ghost predicate Fits(t: Grid, src: Source) {
    src.Itself? || Covers(src.grid, t)
  }

  /** Target `t` after every source of `srcs` has been merged into it, in order. */
  function MergeAll(t: Grid, srcs: seq<Source>): (m: Grid)
    requires forall k :: 0 <= k < |srcs| ==> Fits(t, srcs[k])
    ensures SameShape(t, m)
  {
    if |srcs| == 0 then t
    else
      var prev := MergeAll(t, srcs[..|srcs| - 1]);
      var last := srcs[|srcs| - 1];
      assert last.Other? ==> Covers(last.grid, prev) by {
        assert Fits(t, last);
        if last.Other? {
          forall y, x | InGrid(prev, x, y) ensures InGrid(last.grid, x, y) {
            assert InGrid(t, x, y);
          }
        }
      }
      MergeGrid(prev, if last.Itself? then prev else last.grid)
  }

  // ---------------------------------------------------------------------------
  // Progress of one merge in row-major order, and where a merge stops
  // ---------------------------------------------------------------------------

  /** Before the first cell nothing is merged. */
  lemma PartialMergeStart(t: Grid, s: Grid)
    ensures CoversBefore(s, t, 0, 0)
    ensures PartialMerge(t, s, 0, 0) == t
  {
    var a := PartialMerge(t, s, 0, 0);
    forall y' | 0 <= y' < |a| ensures a[y'] == t[y'] {
      assert |a[y']| == |t[y']|;
    }
  }

  /** Merging cell `(x, y)` next: the partial merge grows by exactly that cell, which
      held the target's own value until then. */
  lemma PartialMergeStep(t: Grid, s: Grid, x: int, y: int)
    requires InGrid(t, x, y) && InGrid(s, x, y)
    requires CoversBefore(s, t, x, y)
    ensures CoversBefore(s, t, x + 1, y)
    ensures PartialMerge(t, s, x, y)[y][x] == t[y][x]
    ensures PartialMerge(t, s, x + 1, y) ==
            PartialMerge(t, s, x, y)[y := PartialMerge(t, s, x, y)[y][x := Combine(t[y][x], s[y][x])]]
  {
    var a, b := PartialMerge(t, s, x, y), PartialMerge(t, s, x + 1, y);
    var c := a[y := a[y][x := Combine(t[y][x], s[y][x])]];
    forall y' | 0 <= y' < |b| ensures b[y'] == c[y'] {
      assert |b[y']| == |c[y']|;
    }
  }

  /** Finishing row `y` is the same as starting row `y + 1`. */
  lemma PartialMergeNextRow(t: Grid, s: Grid, y: int)
    requires 0 <= y < |t|
    requires CoversBefore(s, t, |t[y]|, y)
    ensures CoversBefore(s, t, 0, y + 1)
    ensures PartialMerge(t, s, |t[y]|, y) == PartialMerge(t, s, 0, y + 1)
  {
    var a, b := PartialMerge(t, s, |t[y]|, y), PartialMerge(t, s, 0, y + 1);
    forall y' | 0 <= y' < |a| ensures a[y'] == b[y'] {
      assert |a[y']| == |b[y']|;
    }
  }

  /** A partial merge that has passed every row is the whole merge. */
  lemma PartialMergeComplete(t: Grid, s: Grid)
    requires CoversBefore(s, t, 0, |t|)
    ensures Covers(s, t)
    ensures PartialMerge(t, s, 0, |t|) == MergeGrid(t, s)
  {
    var a, b := PartialMerge(t, s, 0, |t|), MergeGrid(t, s);
    forall y' | 0 <= y' < |a| ensures a[y'] == b[y'] {
      assert |a[y']| == |b[y']|;
    }
  }

  /** Buffers of the same shape are covered by the same sources. */
  lemma CoversSameShape(s: Grid, t: Grid, m: Grid)
    requires SameShape(t, m)
    ensures Covers(s, t) <==> Covers(s, m)
  {
    assert forall y, x :: InGrid(t, x, y) <==> InGrid(m, x, y);
  }

  /** The first source that does not fit the target: the merge fails at it. */
  ghost function FirstMisfit(t: Grid, srcs: seq<Source>): (k: nat)
    requires exists k :: 0 <= k < |srcs| && !Fits(t, srcs[k])
    ensures k < |srcs| && !Fits(t, srcs[k])
    ensures forall k' :: 0 <= k' < k ==> Fits(t, srcs[k'])
  {
    if !Fits(t, srcs[0]) then 0
    else
      var k :| 0 <= k < |srcs| && !Fits(t, srcs[k]);
      assert !Fits(t, srcs[1..][k - 1]);
      1 + FirstMisfit(t, srcs[1..])
  }

  /** Merging one more source: the target so far is merged with that source, or with
      itself when the source is the target. */
  lemma MergeAllStep(t: Grid, srcs: seq<Source>, k: nat)
    requires k < |srcs| && forall k' :: 0 <= k' <= k ==> Fits(t, srcs[k'])
    ensures var m := MergeAll(t, srcs[..k]);
      && Covers(if srcs[k].Itself? then m else srcs[k].grid, m)
      && MergeAll(t, srcs[..k + 1]) == MergeGrid(m, if srcs[k].Itself? then m else srcs[k].grid)
  {
    assert srcs[..k + 1][..k] == srcs[..k];
    var m := MergeAll(t, srcs[..k]);
    if srcs[k].Other? {
      CoversSameShape(srcs[k].grid, t, m);
    }
  }

  /** The values a source adds into the buffer `m`: its own, or those of `m` itself. */
  function SourceGrid(src: Source, m: Grid): Grid {
    if src.Itself? then m else src.grid
  }

  /** A pass of `s` into `t` stopped with error `e` and left `final`: `e` names the
      first cell in row-major order that `t` has and `s` lacks, and exactly the cells
      before it are merged. */
  ghost predicate StoppedAt(t: Grid, s: Grid, e: Error, final: Grid) {
    && e.CoordinatesOutOfBounds?
    && InGrid(t, e.x, e.y) && !InGrid(s, e.x, e.y)
    && CoversBefore(s, t, e.x, e.y)
    && final == PartialMerge(t, s, e.x, e.y)
  }

  /** The outcome of one pass of `s` into `t` that returned `r` and left `final`: it
      succeeds exactly when `s` covers `t`, and then everything is merged. */
  ghost predicate PassOutcome(t: Grid, s: Grid, r: Result<()>, final: Grid) {
    && (r.Ok? <==> Covers(s, t))
    && (r.Ok? ==> final == MergeGrid(t, s))
    && (r.Err? ==> StoppedAt(t, s, r.error, final))
  }

  /** The outcome of merging `srcs` into `t` in order: it succeeds exactly when every
      source fits, and then all are merged; otherwise the first source that does not
      fit stopped its pass on the buffer the earlier sources produced. */
  ghost predicate MergeOutcome(t: Grid, srcs: seq<Source>, r: Result<()>, final: Grid) {
    && (r.Ok? <==> forall k :: 0 <= k < |srcs| ==> Fits(t, srcs[k]))
    && (r.Ok? ==> final == MergeAll(t, srcs))
    && (r.Err? ==>
          var k := FirstMisfit(t, srcs);
          StoppedAt(MergeAll(t, srcs[..k]), srcs[k].grid, r.error, final))
  }

  /** A pass that fails on the sources after a fitting prefix ends the whole merge. */
  lemma MergeStops(t: Grid, srcs: seq<Source>, k: nat, r: Result<()>, final: Grid)
    requires k < |srcs| && forall k' :: 0 <= k' < k ==> Fits(t, srcs[k'])
    requires PassOutcome(MergeAll(t, srcs[..k]), SourceGrid(srcs[k], MergeAll(t, srcs[..k])), r, final)
    requires r.Err?
    ensures MergeOutcome(t, srcs, r, final)
  {
    var m := MergeAll(t, srcs[..k]);
    if srcs[k].Itself? {
      assert Covers(m, m);
      assert false;
    }
    CoversSameShape(srcs[k].grid, t, m);
    assert !Fits(t, srcs[k]);
    var first := FirstMisfit(t, srcs);
    assert first == k;
  }

  /** A pass that succeeds merges one more source. */
  lemma MergeContinues(t: Grid, srcs: seq<Source>, k: nat, r: Result<()>, final: Grid)
    requires k < |srcs| && forall k' :: 0 <= k' < k ==> Fits(t, srcs[k'])
    requires PassOutcome(MergeAll(t, srcs[..k]), SourceGrid(srcs[k], MergeAll(t, srcs[..k])), r, final)
    requires r.Ok?
    ensures forall k' :: 0 <= k' <= k ==> Fits(t, srcs[k'])
    ensures final == MergeAll(t, srcs[..k + 1])
  {
    var m := MergeAll(t, srcs[..k]);
    if srcs[k].Other? {
      CoversSameShape(srcs[k].grid, t, m);
    }
    MergeAllStep(t, srcs, k);
  }

  /** A merge that got through every source is complete. */
  lemma MergeFinishes(t: Grid, srcs: seq<Source>, final: Grid)
    requires forall k :: 0 <= k < |srcs| ==> Fits(t, srcs[k])
    requires final == MergeAll(t, srcs[..|srcs|])
    ensures MergeOutcome(t, srcs, Ok(()), final)
  {
    assert srcs[..|srcs|] == srcs;
  }

  // ---------------------------------------------------------------------------
  // Merging other buffers: closed form and order independence
  // ---------------------------------------------------------------------------

  function Others(gs: seq<Grid>): (srcs: seq<Source>)
    ensures |srcs| == |gs| && forall k :: 0 <= k < |gs| ==> srcs[k] == Other(gs[k])
  {
    seq(|gs|, k requires 0 <= k < |gs| => Other(gs[k]))
  }

  ghost predicate AllCover(gs: seq<Grid>, t: Grid) {
    forall k :: 0 <= k < |gs| ==> Covers(gs[k], t)
  }

  /** No colour channel of any source is negative. */
  ghost predicate NonNegColours(gs: seq<Grid>) {
    forall k, y, x :: 0 <= k < |gs| && InGrid(gs[k], x, y) ==>
      gs[k][y][x].r >= 0 && gs[k][y][x].g >= 0 && gs[k][y][x].b >= 0
  }

  /** The values the sources hold at cell `(x, y)`, in source order. */
  function Column(gs: seq<Grid>, x: int, y: int): (col: seq<PixelValue>)
    requires forall k :: 0 <= k < |gs| ==> InGrid(gs[k], x, y)
    ensures |col| == |gs| && forall k :: 0 <= k < |gs| ==> InGrid(gs[k], x, y) && col[k] == gs[k][y][x]
  {
    seq(|gs|, k requires 0 <= k < |gs| => assert InGrid(gs[k], x, y); gs[k][y][x])
  }

  /** Cell `(x, y)` of `g`, black when `g` has no such cell. */
  function Cell(g: Grid, x: int, y: int): PixelValue {
    if InGrid(g, x, y) then g[y][x] else Black
  }

  function Add(p: PixelValue, q: PixelValue): PixelValue {
    PixelValue(p.r + q.r, p.g + q.g, p.b + q.b, p.hits + q.hits)
  }

  /** The channel-wise sum, without saturation. */
  function Sum(ps: seq<PixelValue>): PixelValue {
    if |ps| == 0 then PixelValue(0, 0, 0, 0) else Add(Sum(ps[..|ps| - 1]), ps[|ps| - 1])
  }

  lemma {:induction false} SumConcat(a: seq<PixelValue>, b: seq<PixelValue>)
    ensures Sum(a + b) == Add(Sum(a), Sum(b))
  {
    if |b| > 0 {
      assert (a + b)[..|a + b| - 1] == a + b[..|b| - 1];
      SumConcat(a, b[..|b| - 1]);
    } else {
      assert a + b == a;
    }
  }

  /** Adding a non-negative value after a capped addition is the same as one capped
      addition of the sum. */
  lemma CombineTwice(t: PixelValue, p: PixelValue, q: PixelValue)
    requires q.r >= 0 && q.g >= 0 && q.b >= 0
    ensures Combine(Combine(t, p), q) == Combine(t, Add(p, q))
  {
  }

  /** The closed form of the merge at one cell. */
  lemma {:induction false} MergeCellSum(t: Grid, gs: seq<Grid>, x: int, y: int)
    requires |gs| > 0 && InGrid(t, x, y)
    requires AllCover(gs, t) && NonNegColours(gs)
    ensures InGrid(MergeAll(t, Others(gs)), x, y)
    ensures MergeAll(t, Others(gs))[y][x] == Combine(t[y][x], Sum(Column(gs, x, y)))
  {
    var n := |gs| - 1;
    var col := Column(gs, x, y);
    assert Others(gs)[..n] == Others(gs[..n]);
    var prev := MergeAll(t, Others(gs[..n]));
    assert MergeAll(t, Others(gs)) == MergeGrid(prev, gs[n]);
    assert InGrid(gs[n], x, y) && InGrid(prev, x, y);
    var g := gs[n][y][x];
    assert col[..n] == Column(gs[..n], x, y);
    if n == 0 {
      assert Sum(col) == Add(PixelValue(0, 0, 0, 0), g);
    } else {
      MergeCellSum(t, gs[..n], x, y);
      assert g.r >= 0 && g.g >= 0 && g.b >= 0;
      CombineTwice(t[y][x], Sum(col[..n]), g);
    }
  }

  /** Merging one or more other buffers in order equals adding, per cell, the plain
      sum of all the sources' values at once: hit counts add up exactly, and each
      channel is `min(255, old + sum of the sources' channel)`. */
  lemma MergeClosedForm(t: Grid, gs: seq<Grid>)
    requires |gs| > 0
    requires AllCover(gs, t) && NonNegColours(gs)
    ensures forall y, x :: InGrid(t, x, y) ==>
      MergeAll(t, Others(gs))[y][x] == Combine(t[y][x], Sum(Column(gs, x, y)))
  {
    forall y, x | InGrid(t, x, y)
      ensures MergeAll(t, Others(gs))[y][x] == Combine(t[y][x], Sum(Column(gs, x, y)))
    {
      MergeCellSum(t, gs, x, y);
    }
  }

  lemma GridExtensionality(a: Grid, b: Grid)
    requires SameShape(a, b)
    requires forall y, x :: InGrid(a, x, y) ==> a[y][x] == b[y][x]
    ensures a == b
  {
    forall y | 0 <= y < |a| ensures a[y] == b[y] {
      assert |a[y]| == |b[y]|;
    }
  }

  lemma RemoveOne<T>(s: seq<T>, i: int)
    requires 0 <= i < |s|
    ensures multiset(s[..i] + s[i + 1..]) == multiset(s) - multiset{s[i]}
  {
    assert s == s[..i] + [s[i]] + s[i + 1..];
  }

  function MapSeq<T>(f: T -> PixelValue, s: seq<T>): (r: seq<PixelValue>)
    ensures |r| == |s| && forall k :: 0 <= k < |s| ==> r[k] == f(s[k])
  {
    seq(|s|, k requires 0 <= k < |s| => f(s[k]))
  }

  lemma SumMapMiddle<T>(f: T -> PixelValue, left: seq<T>, v: T, right: seq<T>)
    ensures Sum(MapSeq(f, left + [v] + right)) == Add(Sum(MapSeq(f, left + right)), f(v))
  {
    var l, r := MapSeq(f, left), MapSeq(f, right);
    assert MapSeq(f, left + [v] + right) == l + [f(v)] + r;
    assert MapSeq(f, left + right) == l + r;
    SumConcat(l + [f(v)], r);
    SumConcat(l, [f(v)]);
    SumConcat(l, r);
    assert Sum([f(v)]) == Add(PixelValue(0, 0, 0, 0), f(v));
  }

  /** A permutation of a non-empty sequence holds its last element at some index `i`;
      removing it from both leaves permutations of each other. */
  lemma PermutationSplit<T>(a: seq<T>, b: seq<T>) returns (i: nat)
    requires multiset(a) == multiset(b) && |a| > 0
    ensures i < |b| && b[i] == a[|a| - 1]
    ensures multiset(a[..|a| - 1]) == multiset(b[..i] + b[i + 1..])
  {
    var n := |a| - 1;
    assert a[n] in multiset(b);
    i :| 0 <= i < |b| && b[i] == a[n];
    RemoveOne(b, i);
    RemoveOne(a, n);
    assert a[..n] + a[n + 1..] == a[..n];
  }

  /** Summing the images of the elements does not depend on their order. */
  lemma {:induction false} SumMapPermutation<T>(f: T -> PixelValue, a: seq<T>, b: seq<T>)
    requires multiset(a) == multiset(b)
    ensures Sum(MapSeq(f, a)) == Sum(MapSeq(f, b))
    decreases |a|
  {
    if |a| == 0 {
      assert |b| == |multiset(b)| == 0;
      return;
    }
    var n := |a| - 1;
    var i := PermutationSplit(a, b);
    var left, right := b[..i], b[i + 1..];
    SumMapPermutation(f, a[..n], left + right);
    assert a == a[..n] + [a[n]] + [];
    assert a[..n] + [] == a[..n];
    SumMapMiddle(f, a[..n], a[n], []);
    assert b == left + [a[n]] + right;
    SumMapMiddle(f, left, a[n], right);
  }

  /** The result of merging other buffers does not depend on their order. */
  lemma MergeOrderIndependent(t: Grid, gs: seq<Grid>, hs: seq<Grid>)
    requires multiset(gs) == multiset(hs)
    requires AllCover(gs, t) && NonNegColours(gs)
    ensures AllCover(hs, t) && NonNegColours(hs)
    ensures MergeAll(t, Others(gs)) == MergeAll(t, Others(hs))
  {
    forall k | 0 <= k < |hs| ensures Covers(hs[k], t) {
      assert hs[k] in multiset(gs);
      var j :| 0 <= j < |gs| && gs[j] == hs[k];
    }
    forall k, y, x | 0 <= k < |hs| && InGrid(hs[k], x, y)
      ensures hs[k][y][x].r >= 0 && hs[k][y][x].g >= 0 && hs[k][y][x].b >= 0
    {
      assert hs[k] in multiset(gs);
      var j :| 0 <= j < |gs| && gs[j] == hs[k];
    }
    if |gs| == 0 {
      assert |hs| == |multiset(hs)| == 0;
      return;
    }
    assert |hs| == |multiset(hs)| == |gs|;
    var a, b := MergeAll(t, Others(gs)), MergeAll(t, Others(hs));
    MergeClosedForm(t, gs);
    MergeClosedForm(t, hs);
    forall y, x | InGrid(t, x, y) ensures a[y][x] == b[y][x] {
      var f := (g: Grid) => Cell(g, x, y);
      assert Column(gs, x, y) == MapSeq(f, gs);
      assert Column(hs, x, y) == MapSeq(f, hs);
      SumMapPermutation(f, gs, hs);
    }
    GridExtensionality(a, b);
  }

  /** Order independence needs the sources to be other buffers: with the target among
      them, its turn adds whatever it holds by then. Merging a source `a` and then the
      target into itself doubles both hit counts; the other order doubles only the
      target's, so the two orders differ at every cell where `a` has hits. */
  lemma SelfMergeOrderMatters(t: Grid, a: Grid, x: int, y: int)
    requires Covers(a, t) && InGrid(t, x, y)
    ensures MergeAll(t, [Other(a), Itself])[y][x].hits == 2 * (t[y][x].hits + a[y][x].hits)
    ensures MergeAll(t, [Itself, Other(a)])[y][x].hits == 2 * t[y][x].hits + a[y][x].hits
  {
    MergeTargetLast(t, a, x, y);
    MergeTargetFirst(t, a, x, y);
  }

  /** Source `a`, then the target itself: both hit counts doubled. */
  lemma MergeTargetLast(t: Grid, a: Grid, x: int, y: int)
    requires Covers(a, t) && InGrid(t, x, y)
    ensures MergeAll(t, [Other(a), Itself])[y][x].hits == 2 * (t[y][x].hits + a[y][x].hits)
  {
    var srcs: seq<Source> := [Other(a), Itself];
    MergeAllStep(t, srcs, 0);
    MergeAllStep(t, srcs, 1);
    assert srcs[..0] == [] && srcs[..2] == srcs;
  }

  /** The target itself, then source `a`: only the target's hit count doubled. */
  lemma MergeTargetFirst(t: Grid, a: Grid, x: int, y: int)
    requires Covers(a, t) && InGrid(t, x, y)
    ensures MergeAll(t, [Itself, Other(a)])[y][x].hits == 2 * t[y][x].hits + a[y][x].hits
  {
    var srcs: seq<Source> := [Itself, Other(a)];
    MergeAllStep(t, srcs, 0);
    MergeAllStep(t, srcs, 1);
    assert srcs[..0] == [] && srcs[..2] == srcs;
    assert InGrid(a, x, y);
  }

  /** Merging no sources leaves the target as it was. */
  lemma MergeNothing(t: Grid)
    ensures MergeAll(t, []) == t
  {
  }

  /** Merging buffers of one shape is commutative, whatever their channels hold. */
  lemma MergeCommutes(a: Grid, b: Grid)
    requires SameShape(a, b)
    ensures Covers(b, a) && Covers(a, b)
    ensures MergeGrid(a, b) == MergeGrid(b, a)
  {
    GridExtensionality(MergeGrid(a, b), MergeGrid(b, a));
  }

  /** Merging buffers of one shape is commutative, and associative when no colour
      channel is negative. */
  lemma MergeGridAlgebra(a: Grid, b: Grid, c: Grid)
    requires SameShape(a, b) && SameShape(b, c)
    requires NonNegColours([a, b, c])
    ensures Covers(b, a) && Covers(a, b) && Covers(c, a)
    ensures MergeGrid(a, b) == MergeGrid(b, a)
    ensures MergeGrid(MergeGrid(a, b), c) == MergeGrid(a, MergeGrid(b, c))
  {
    assert forall y, x :: InGrid(a, x, y) ==> InGrid([a, b, c][0], x, y) && InGrid([a, b, c][1], x, y) && InGrid([a, b, c][2], x, y);
    GridExtensionality(MergeGrid(a, b), MergeGrid(b, a));
    GridExtensionality(MergeGrid(MergeGrid(a, b), c), MergeGrid(a, MergeGrid(b, c)));
  }

  /** A merge keeps every channel in [0, 255] and every hit count non-negative when
      the target and all sources are so. */
  lemma {:induction false} MergeKeepsRange(t: Grid, srcs: seq<Source>)
    requires forall k :: 0 <= k < |srcs| ==> Fits(t, srcs[k])
    requires InRange(t)
    requires forall k :: 0 <= k < |srcs| && srcs[k].Other? ==> InRange(srcs[k].grid)
    ensures InRange(MergeAll(t, srcs))
    ensures NoHitsLost(t, MergeAll(t, srcs))
  {
    if |srcs| > 0 {
      var n := |srcs| - 1;
      MergeKeepsRange(t, srcs[..n]);
    }
  }
}
