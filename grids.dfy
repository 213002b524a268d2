/** Two-dimensional rasters as values.

    A `Grid` plays the part of Go's `image.RGBA`, `image.Gray` and of the
    `[][]T` slices the pipeline allocates: `At` returns a caller-chosen zero
    outside the bounds (as `image.At` returns the zero colour) and `Set` drops
    writes outside the bounds (as `image.Set` does). Rows are indexed by y. */
module Grids {

  datatype Grid<T> = Grid(width: nat, height: nat, rows: seq<seq<T>>) {

    predicate Valid() {
      |rows| == height && forall y :: 0 <= y < height ==> |rows[y]| == width
    }

    predicate InBounds(x: int, y: int) {
      0 <= x < width && 0 <= y < height
    }

    function At(x: int, y: int, zero: T): T
      requires Valid()
    {
      if InBounds(x, y) then rows[y][x] else zero
    }

    /** A write that lands inside the bounds; any other write changes nothing. */
    function Set(x: int, y: int, v: T): (g: Grid<T>)
      requires Valid()
      ensures g.Valid() && g.width == width && g.height == height
      ensures forall j, i :: 0 <= j < height && 0 <= i < width ==>
        g.rows[j][i] == if i == x && j == y then v else rows[j][i]
    {
      if InBounds(x, y) then Grid(width, height, rows[y := rows[y][x := v]]) else this
    }
  }

  /** A freshly allocated `w` by `h` grid, every entry `v`. */
  function Fill<T>(w: nat, h: nat, v: T): (g: Grid<T>)
    ensures g.Valid() && g.width == w && g.height == h
    ensures forall j, i :: 0 <= j < h && 0 <= i < w ==> g.rows[j][i] == v
  {
    Grid(w, h, seq(h, _ => seq(w, _ => v)))
  }

  /** The `w` by `h` grid whose entry at `(x, y)` is `f(x, y)`. */
  function FromFunction<T>(w: nat, h: nat, f: (int, int) -> T): (g: Grid<T>)
    ensures g.Valid() && g.width == w && g.height == h
    ensures forall j, i :: 0 <= j < h && 0 <= i < w ==> g.rows[j][i] == f(i, j)
  {
    Grid(w, h, seq(h, j => seq(w, i => f(i, j))))
  }

  /** The loops `for y := 0; y < h; y++ { for x := 0; x < w; x++ { img.Set(x, y, f(x, y)) } }`
      over a fresh canvas whose every entry starts as `zero`. */
  method Paint<T>(w: nat, h: nat, zero: T, f: (int, int) -> T) returns (g: Grid<T>)
    ensures g == FromFunction(w, h, f)
  {
    g := Fill(w, h, zero);
    for y := 0 to h
      invariant g.Valid() && g.width == w && g.height == h
      invariant forall j, i :: 0 <= j < h && 0 <= i < w ==> g.rows[j][i] == if j < y then f(i, j) else zero
    {
      for x := 0 to w
        invariant g.Valid() && g.width == w && g.height == h
        invariant forall j, i :: 0 <= j < h && 0 <= i < w ==>
          g.rows[j][i] == if j < y || (j == y && i < x) then f(i, j) else zero
      {
        g := g.Set(x, y, f(x, y));
      }
    }
    Extensionality(g, FromFunction(w, h, f));
  }

  /** Two valid grids with the same shape and the same entries are equal. */
  lemma Extensionality<T>(a: Grid<T>, b: Grid<T>)
    requires a.Valid() && b.Valid() && a.width == b.width && a.height == b.height
    requires forall j, i :: 0 <= j < a.height && 0 <= i < a.width ==> a.rows[j][i] == b.rows[j][i]
    ensures a == b
  {
    forall j | 0 <= j < a.height
      ensures a.rows[j] == b.rows[j]
    {
    }
  }
}
