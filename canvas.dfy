/**
 * The 32x32 pixel buffer of the Pixoo-Max driver: 1024 RGB cells in row-major
 * order, cell (x, y) at index y * 32 + x, with bounds-checked set/get, a
 * read-only row-major walk and an in-place row-major transform.
 */
module Canvas {
  import opened Wrappers

  const Width: int := 32
  const Height: int := 32
  const Cells: int := 1024

  /**
   * An RGB triple, held as an immutable value: the source's colors are
   * mutable arrays that the canvas stores and hands out by reference, and
   * that sharing is not modelled. The source puts no range check on the
   * channels.
   */
  datatype Color = Color(r: int, g: int, b: int)

  const Black: Color := Color(0, 0, 0)

  datatype Axis = X | Y

  /** The error the bounds check throws, naming the first axis that failed. */
  datatype BoundsError = OutOfBounds(axis: Axis, coordinate: int)

  /** Row-major linear index of cell (x, y). */
  function Index(x: int, y: int): int
  {
    y * Width + x
  }

  /**
   * The bounds check as the source writes it: it rejects x < 0, x > 32,
   * y < 0 and y > 32, so the coordinate 32 itself is accepted on both axes.
   * x is checked before y.
   */
  function AssertBounds(x: int, y: int): (r: Option<BoundsError>)
    ensures r.None? <==> 0 <= x <= Width && 0 <= y <= Height
    ensures r.Some? && (x < 0 || x > Width) ==> r.value == OutOfBounds(X, x)
    ensures r.Some? && 0 <= x <= Width ==> r.value == OutOfBounds(Y, y)
  {
    if x < 0 || x > Width then Some(OutOfBounds(X, x))
    else if y < 0 || y > Height then Some(OutOfBounds(Y, y))
    else None
  }

  /**
   * Every cell of the grid passes the check, and so does the extra column
   * and row at coordinate 32; -1 and 33 fail.
   */
  lemma BoundsAcceptCoordinate32()
    ensures forall x, y :: 0 <= x < Width && 0 <= y < Height ==> AssertBounds(x, y).None?
    ensures forall k :: 0 <= k <= Width ==> AssertBounds(Width, k).None? && AssertBounds(k, Height).None?
    ensures AssertBounds(-1, 5) == Some(OutOfBounds(X, -1))
    ensures AssertBounds(5, 33) == Some(OutOfBounds(Y, 33))
  {
  }

  /**
   * Because 32 passes the check, column 32 of row y is the linear index of
   * column 0 of row y + 1, and that index is still inside the 1024 cells.
   */
  lemma Column32AliasesNextRow(y: int)
    requires 0 <= y < Height - 1
    ensures AssertBounds(Width, y).None? && AssertBounds(0, y + 1).None?
    ensures Index(Width, y) == Index(0, y + 1) < Cells
  {
  }

  /** The indices the bounds check admits that lie outside the 1024 cells. */
  lemma AcceptedIndicesPastGrid(x: int, y: int)
    requires AssertBounds(x, y).None?
    ensures Index(x, y) >= Cells <==> y == Height || (x == Width && y == Height - 1)
  {
  }

  /** One call of the traversal visitor: its arguments (x, y, color, index). */
  datatype Visit = Visit(x: int, y: int, color: Color, index: int)

  /** The visitor calls of a row-major walk over `cells`, in call order. */
  function Visits(cells: seq<Color>): (vs: seq<Visit>)
    ensures |vs| == |cells|
  {
    seq(|cells|, k requires 0 <= k < |cells| => Visit(k % Width, k / Width, cells[k], k))
  }

  /**
   * The walk is row-major: y in the outer loop and x in the inner one, each
   * visit carrying index y * 32 + x and the color stored there, and indices
   * strictly increasing from 0 to 1023.
   */
  lemma VisitsAreRowMajor(cells: seq<Color>)
    requires |cells| == Cells
    ensures forall k :: 0 <= k < Cells ==>
      var v := Visits(cells)[k];
      0 <= v.x < Width && 0 <= v.y < Height && v.index == k && Index(v.x, v.y) == k && v.color == cells[k]
    ensures forall j, k :: 0 <= j < k < Cells ==>
      Visits(cells)[j].y < Visits(cells)[k].y ||
      (Visits(cells)[j].y == Visits(cells)[k].y && Visits(cells)[j].x < Visits(cells)[k].x)
  {
  }

  /** The state threaded through the visitor calls, left to right. */
  function FoldVisits<A>(fn: (A, Visit) -> A, init: A, vs: seq<Visit>): A
  {
    if vs == [] then init else fn(FoldVisits(fn, init, vs[..|vs| - 1]), vs[|vs| - 1])
  }

  /** The visit of cell (x, y) in the walk. */
  lemma VisitAt(cells: seq<Color>, x: int, y: int)
    requires |cells| == Cells && 0 <= x < Width && 0 <= y < Height
    ensures 0 <= Index(x, y) < Cells
    ensures Visits(cells)[Index(x, y)] == Visit(x, y, cells[Index(x, y)], Index(x, y))
  {
  }

  /** One more visit extends the fold by one call. */
  lemma FoldVisitsStep<A>(fn: (A, Visit) -> A, init: A, vs: seq<Visit>, k: int)
    requires 0 <= k < |vs|
    ensures FoldVisits(fn, init, vs[..k + 1]) == fn(FoldVisits(fn, init, vs[..k]), vs[k])
  {
    assert vs[..k + 1][..k] == vs[..k];
  }

  class Canvas {
    var pixels: array<Color>

    ghost predicate Valid()
      reads this
    {
      pixels.Length == Cells
    }

    /** Fills all 1024 cells with black through the row-major transform. */
    constructor ()
      ensures Valid() && fresh(pixels)
      ensures forall i :: 0 <= i < Cells ==> pixels[i] == Black
    {
      pixels := new Color[Cells];
      new;
      TransformByRowAndColumn((x, y, color, index) => Black);
    }

    /**
     * Calls `fn` once per cell, y outer and x inner; the visitor's effects are
     * modelled as the state it threads from call to call. Nothing is written.
     */
    method TraverseByRowAndColumn<A>(fn: (A, Visit) -> A, init: A) returns (acc: A)
      requires Valid()
      ensures acc == FoldVisits(fn, init, Visits(pixels[..]))
    {
      ghost var vs := Visits(pixels[..]);
      acc := init;
      var y := 0;
      while y < Height
        invariant 0 <= y <= Height
        invariant acc == FoldVisits(fn, init, vs[..y * Width])
      {
        var x := 0;
        while x < Width
          invariant 0 <= x <= Width
          invariant acc == FoldVisits(fn, init, vs[..y * Width + x])
        {
          var index := y * Width + x;
          VisitAt(pixels[..], x, y);
          FoldVisitsStep(fn, init, vs, index);
          acc := fn(acc, Visit(x, y, pixels[index], index));
          x := x + 1;
        }
        y := y + 1;
      }
      assert vs[..Cells] == vs;
    }

    /**
     * Replaces every cell, row-major, by `fn` of its coordinates, its own
     * pre-transform color and its index; the grid keeps its 1024 cells.
     */
    method TransformByRowAndColumn(fn: (int, int, Color, int) -> Color)
      requires Valid()
      modifies pixels
      ensures Valid()
      ensures forall i :: 0 <= i < Cells ==> pixels[i] == fn(i % Width, i / Width, old(pixels[i]), i)
    {
      var y := 0;
      while y < Height
        invariant 0 <= y <= Height
        invariant forall i :: 0 <= i < y * Width ==> pixels[i] == fn(i % Width, i / Width, old(pixels[i]), i)
        invariant forall i :: y * Width <= i < Cells ==> pixels[i] == old(pixels[i])
      {
        var x := 0;
        while x < Width
          invariant 0 <= x <= Width
          invariant forall i :: 0 <= i < y * Width + x ==> pixels[i] == fn(i % Width, i / Width, old(pixels[i]), i)
          invariant forall i :: y * Width + x <= i < Cells ==> pixels[i] == old(pixels[i])
        {
          var index := y * Width + x;
          assert index % Width == x && index / Width == y;
          pixels[index] := fn(x, y, pixels[index], index);
          x := x + 1;
        }
        y := y + 1;
      }
    }

    /**
     * Stores `color` at (x, y) and returns the color that was there. When the
     * bounds check fails nothing changes and its error is returned.
     */
    method Set(x: int, y: int, color: Color) returns (r: Result<Color, BoundsError>)
      requires Valid()
      // The source does not guard this case: the check admits (x, 32) and
      // (32, 31), whose index lies past the 1024 cells, where the JavaScript
      // array would silently grow.
      requires AssertBounds(x, y).None? ==> Index(x, y) < Cells
      modifies pixels
      ensures Valid()
      ensures AssertBounds(x, y).Some? ==>
        r == Failure(AssertBounds(x, y).value) && pixels[..] == old(pixels[..])
      ensures AssertBounds(x, y).None? ==>
        r == Success(old(pixels[Index(x, y)])) && pixels[..] == old(pixels[..])[Index(x, y) := color]
    {
      var failed := AssertBounds(x, y);
      if failed.Some? {
        return Failure(failed.value);
      }
      var oldValue := pixels[y * Width + x];
      pixels[y * Width + x] := color;
      return Success(oldValue);
    }

    /** The color at (x, y), or the bounds check's error. */
    method Get(x: int, y: int) returns (r: Result<Color, BoundsError>)
      requires Valid()
      // Not guarded by the source either; see Set.
      requires AssertBounds(x, y).None? ==> Index(x, y) < Cells
      ensures r.Success? <==> 0 <= x <= Width && 0 <= y <= Height
      ensures r.Failure? ==> r.error == AssertBounds(x, y).value
      ensures r.Success? ==> r.value == pixels[Index(x, y)]
    {
      var failed := AssertBounds(x, y);
      if failed.Some? {
        return Failure(failed.value);
      }
      return Success(pixels[y * Width + x]);
    }
  }

  /**
   * A caller's view of the accepted coordinate 32: setting (32, y) and then
   * reading (0, y + 1) gives back the color just set.
   */
  method SetColumn32ThenGetNextRow(canvas: Canvas, y: int, color: Color)
    returns (previous: Result<Color, BoundsError>, read: Result<Color, BoundsError>)
    requires canvas.Valid()
    requires 0 <= y < Height - 1
    modifies canvas.pixels
    ensures previous == Success(old(canvas.pixels[Index(0, y + 1)]))
    ensures read == Success(color)
  {
    Column32AliasesNextRow(y);
    previous := canvas.Set(Width, y, color);
    read := canvas.Get(0, y + 1);
  }
}
