/** Geometry primitives and the accumulation buffer of the fractal-flame renderer:
    points and half-open rectangles in world space, mutable pixels, and the
    fixed-size image whose cells are distinct pixel objects. */
module Domain {

  /** Python's `range(n)` is empty for a negative `n`; this is its length. */
  function Max0(n: int): nat {
    if n < 0 then 0 else n
  }

  /** Errors the core raises. */
  datatype Error =
    | CoordinatesOutOfBounds(x: int, y: int)   // ValueError from FractalImage.pixel
    | EmptySequenceChoice                      // IndexError from random.choice([])

  datatype Result<+T> = Ok(value: T) | Err(error: Error)

  // ---------------------------------------------------------------------------
  // World-space geometry (floats are modelled as exact reals)
  // ---------------------------------------------------------------------------

  datatype Point = Point(x: real, y: real)

  datatype Rect = Rect(x: real, y: real, width: real, height: real) {
    /** Half-open containment test on both axes. */
    predicate Contains(p: Point) {
      x <= p.x < x + width && y <= p.y < y + height
    }
  }

  /** A rectangle that contains some point has a positive width and height. */
  lemma ContainsImpliesPositive(rect: Rect, p: Point)
    requires rect.Contains(p)
    ensures rect.width > 0.0 && rect.height > 0.0
  {
  }

  /** The near corner is inside a non-degenerate rectangle, the far edges are outside. */
  lemma ContainsIsHalfOpen(rect: Rect, a: real, b: real)
    ensures rect.width > 0.0 && rect.height > 0.0 ==> rect.Contains(Point(rect.x, rect.y))
    ensures !rect.Contains(Point(rect.x + rect.width, b))
    ensures !rect.Contains(Point(a, rect.y + rect.height))
  {
  }

  // ---------------------------------------------------------------------------
  // Pixels and the image grid
  // ---------------------------------------------------------------------------

  /** The value held by one pixel at some moment. */
  datatype PixelValue = PixelValue(r: int, g: int, b: int, hits: int)

  const Black := PixelValue(0, 0, 0, 0)

  /** A row-major grid of pixel values: `g[y][x]`. */
  type Grid = seq<seq<PixelValue>>

  /** `g` is laid out as the image of the given width and height is. */
  predicate HasShape(g: Grid, width: int, height: int) {
    |g| == Max0(height) && forall y :: 0 <= y < |g| ==> |g[y]| == Max0(width)
  }

  /** Cell `(x, y)` of `g`. */
  predicate InGrid(g: Grid, x: int, y: int) {
    0 <= y < |g| && 0 <= x < |g[y]|
  }

  function Blank(width: int, height: int): (g: Grid)
    ensures HasShape(g, width, height)
    ensures forall y, x :: InGrid(g, x, y) ==> g[y][x] == Black
  {
    seq(Max0(height), _ => seq(Max0(width), _ => Black))
  }

  /** A mutable pixel; a new one is black with no hits. */
  class Pixel {
    var r: int
    var g: int
    var b: int
    var hitCount: int

    constructor ()
      ensures Value() == Black
    {
      r, g, b, hitCount := 0, 0, 0, 0;
    }

    function Value(): PixelValue
      reads this
    {
      PixelValue(r, g, b, hitCount)
    }
  }

  /** `[Pixel() for _ in range(width)]`: a row of fresh, distinct, black pixels. */
  method NewRow(width: int) returns (row: seq<Pixel>)
    ensures |row| == Max0(width)
    ensures forall x :: 0 <= x < |row| ==> fresh(row[x]) && row[x].Value() == Black
    ensures forall x, x' :: 0 <= x < |row| && 0 <= x' < |row| && row[x] == row[x'] ==> x == x'
  {
    row := [];
    var j := 0;
    while j < width
      invariant 0 <= j <= Max0(width) && |row| == j
      invariant forall x :: 0 <= x < j ==> fresh(row[x]) && row[x].Value() == Black
      invariant forall x, x' :: 0 <= x < j && 0 <= x' < j && row[x] == row[x'] ==> x == x'
    {
      var p := new Pixel();
      row := row + [p];
      j := j + 1;
    }
  }

  /** `cells` records the cell of every object of `rows`, and nothing else. */
  ghost predicate CellsOf<T>(rows: seq<seq<T>>, cells: map<T, (int, int)>) {
    && (forall y, x :: 0 <= y < |rows| && 0 <= x < |rows[y]| ==>
          rows[y][x] in cells && cells[rows[y][x]] == (y, x))
    && (forall p :: p in cells ==>
          0 <= cells[p].0 < |rows| && 0 <= cells[p].1 < |rows[cells[p].0]| &&
          rows[cells[p].0][cells[p].1] == p)
  }

  /** The cells of row `y`, one per object. */
  ghost function RowCells<T>(row: seq<T>, y: int): map<T, (int, int)>
    requires forall x, x' :: 0 <= x < |row| && 0 <= x' < |row| && row[x] == row[x'] ==> x == x'
  {
    map x | 0 <= x < |row| :: row[x] := (y, x)
  }

  /** Appending a row of distinct new objects extends the record by that row's cells. */
  lemma AddRowCells<T>(rows: seq<seq<T>>, cells: map<T, (int, int)>, row: seq<T>)
    requires CellsOf(rows, cells)
    requires forall x, x' :: 0 <= x < |row| && 0 <= x' < |row| && row[x] == row[x'] ==> x == x'
    requires forall x :: 0 <= x < |row| ==> row[x] !in cells
    ensures CellsOf(rows + [row], cells + RowCells(row, |rows|))
  {
    var n := |rows|;
    var added := RowCells(row, n);
    var rows', cells' := rows + [row], cells + added;
    forall y, x | 0 <= y < |rows'| && 0 <= x < |rows'[y]|
      ensures rows'[y][x] in cells' && cells'[rows'[y][x]] == (y, x)
    {
      if y == n {
        assert rows'[y][x] == row[x] && added[row[x]] == (n, x);
      } else {
        assert rows'[y][x] == rows[y][x] && rows[y][x] in cells;
        assert rows[y][x] !in added;
      }
    }
    forall p | p in cells'
      ensures 0 <= cells'[p].0 < |rows'| && 0 <= cells'[p].1 < |rows'[cells'[p].0]|
      ensures rows'[cells'[p].0][cells'[p].1] == p
    {
      if p in added {
        var x :| 0 <= x < |row| && row[x] == p;
        assert added[row[x]] == (n, x);
        assert cells'[p] == (n, x) && rows'[n] == row;
      } else {
        var c := cells[p];
        assert cells'[p] == c && rows'[c.0] == rows[c.0];
      }
    }
  }

  /** `[[Pixel() for _ in range(width)] for _ in range(height)]`: rows of fresh black
      pixels, together with the cell each pixel fills, which shows that no pixel fills
      two cells. */
  method NewRows(width: int, height: int) returns (rows: seq<seq<Pixel>>, ghost cells: map<Pixel, (int, int)>)
    ensures |rows| == Max0(height) && forall y :: 0 <= y < |rows| ==> |rows[y]| == Max0(width)
    ensures forall y, x :: 0 <= y < |rows| && 0 <= x < |rows[y]| ==> fresh(rows[y][x]) && rows[y][x].Value() == Black
    ensures CellsOf(rows, cells)
  {
    rows, cells := [], map[];
    var i := 0;
    while i < height
      invariant 0 <= i <= Max0(height) && |rows| == i
      invariant forall y :: 0 <= y < i ==> |rows[y]| == Max0(width)
      invariant forall y, x :: 0 <= y < i && 0 <= x < |rows[y]| ==> fresh(rows[y][x]) && rows[y][x].Value() == Black
      invariant CellsOf(rows, cells)
    {
      var row := NewRow(width);
      assert forall x :: 0 <= x < |row| ==> row[x] !in cells;
      AddRowCells(rows, cells, row);
      cells := cells + RowCells(row, i);
      rows := rows + [row];
      i := i + 1;
    }
  }

  /** The accumulation buffer: `height` rows of `width` distinct pixels. */
  class FractalImage {
    const width: int
    const height: int
    const data: seq<seq<Pixel>>
    /** The cell each pixel object fills, as `(y, x)`; it shows no object fills two. */
    ghost const cellOf: map<Pixel, (int, int)>

    /** Shape, and every pixel object fills exactly the cell `cellOf` records. */
    ghost predicate Valid() {
      && |data| == Max0(height)
      && (forall y :: 0 <= y < |data| ==> |data[y]| == Max0(width))
      && CellsOf(data, cellOf)
    }

    /** The pixel objects of the image. */
    ghost function Pixels(): set<Pixel> {
      cellOf.Keys
    }

    /** The values currently held by the image. */
    ghost function Snapshot(): (g: Grid)
      requires Valid()
      reads Pixels()
      ensures HasShape(g, width, height)
      ensures forall y, x :: InGrid(g, x, y) ==> g[y][x] == data[y][x].Value()
    {
      seq(|data|, y requires 0 <= y < |data| reads Pixels() =>
        seq(|data[y]|, x requires 0 <= x < |data[y]| reads Pixels() => data[y][x].Value()))
    }

    /** A new image of fresh black pixels. */
    constructor (width: int, height: int)
      ensures Valid() && this.width == width && this.height == height
      ensures fresh(Pixels())
      ensures Snapshot() == Blank(width, height)
    {
      var rows, cells := NewRows(width, height);
      this.width := width;
      this.height := height;
      data := rows;
      cellOf := cells;
      new;
      var g, blank := Snapshot(), Blank(width, height);
      assert |g| == |blank|;
      forall y | 0 <= y < |g| ensures g[y] == blank[y] {
        assert |g[y]| == |blank[y]|;
      }
    }

    /** Whether `(x, y)` is a cell of the image; exactly the cells that are stored. */
    predicate Contains(x: int, y: int): (inside: bool)
      requires Valid()
      ensures inside <==> 0 <= y < |data| && 0 <= x < |data[y]|
    {
      0 <= x < width && 0 <= y < height
    }

    /** The pixel at column `x` of row `y`, or the out-of-bounds error (also for negative
        coordinates, which plain list indexing would wrap around). */
    function PixelAt(x: int, y: int): (r: Result<Pixel>)
      requires Valid()
      ensures r.Ok? <==> 0 <= x < width && 0 <= y < height
      ensures r.Ok? ==> r.value == data[y][x] && r.value in Pixels()
      ensures r.Err? ==> r.error == CoordinatesOutOfBounds(x, y)
    {
      if Contains(x, y) then Ok(data[y][x]) else Err(CoordinatesOutOfBounds(x, y))
    }
  }

  /** Two grids of the same shape that differ at most in cell `(x, y)`, where the second
      holds `v`: the second is the first with that one cell replaced. */
  lemma OneCellDiffers(before: Grid, after: Grid, x: int, y: int, v: PixelValue)
    requires InGrid(before, x, y)
    requires |after| == |before| && forall y' :: 0 <= y' < |after| ==> |after[y']| == |before[y']|
    requires after[y][x] == v
    requires forall y', x' :: InGrid(before, x', y') && (y' != y || x' != x) ==> after[y'][x'] == before[y'][x']
    ensures after == before[y := before[y][x := v]]
  {
    var replaced := before[y := before[y][x := v]];
    forall y' | 0 <= y' < |after|
      ensures after[y'] == replaced[y']
    {
      assert |after[y']| == |replaced[y']|;
      forall x' | 0 <= x' < |after[y']|
        ensures after[y'][x'] == replaced[y'][x']
      {
        assert InGrid(before, x', y');
      }
    }
  }
}
