/** Cell grids: a rectangle of dead (false) and alive (true) cells, stored row by row.
    The program keeps its grid in a two-dimensional numeric array whose cells are only
    ever 0 or 1; here a cell is a `bool` and `Value` gives back its numeric reading. */
module Grids {

  type Grid = seq<seq<bool>>

  /** The numeric value a cell contributes to a sum: 1 when alive, 0 when dead. */
  function Value(alive: bool): int
  {
    if alive then 1 else 0
  }

  /** The number of columns, read from the first row (0 for a grid without rows). */
  function Cols(g: Grid): nat
  {
    if |g| == 0 then 0 else |g[0]|
  }

  /** `g` has exactly `rows` rows, each of exactly `cols` cells. */
  predicate Shaped(g: Grid, rows: nat, cols: nat)
  {
    |g| == rows && forall i :: 0 <= i < |g| ==> |g[i]| == cols
  }

  /** Every row is as long as the first one. */
  predicate Rectangular(g: Grid)
  {
    Shaped(g, |g|, Cols(g))
  }

  predicate AllDead(g: Grid)
  {
    forall i, j :: 0 <= i < |g| && 0 <= j < |g[i]| ==> !g[i][j]
  }

  /** A fresh all-dead grid of the given size (the zero-filled array). */
  function Empty(rows: nat, cols: nat): (g: Grid)
    ensures Shaped(g, rows, cols)
    ensures AllDead(g)
  {
    seq(rows, _ => seq(cols, _ => false))
  }

  /** Writes 1 into one cell; every other cell keeps its value. */
  function SetAlive(g: Grid, r: nat, c: nat): (g': Grid)
    requires r < |g| && c < |g[r]|
    ensures |g'| == |g|
    ensures forall i :: 0 <= i < |g| ==> |g'[i]| == |g[i]|
    ensures g'[r][c]
    ensures forall i, j :: 0 <= i < |g| && 0 <= j < |g[i]| && (i, j) != (r, c) ==> g'[i][j] == g[i][j]
  {
    g[r := g[r][c := true]]
  }
}
