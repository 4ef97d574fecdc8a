/** Known configurations under the program's step: the 2x2 block is a still life and the
    three-cell blinker oscillates with period 2, provided they stay off the first row and
    column (where the program's window is empty and every cell dies). */
module Shapes {
  import opened Grids
  import opened Life

  /** A `rows x cols` grid whose only live cells form the 2x2 block with top-left `(a, b)`. */
  function Block(rows: nat, cols: nat, a: int, b: int): Grid
  {
    seq(rows, i => seq(cols, j => a <= i <= a + 1 && b <= j <= b + 1))
  }

  /** Three live cells in row `a`, columns `b .. b+2`. */
  function Horizontal(rows: nat, cols: nat, a: int, b: int): Grid
  {
    seq(rows, i => seq(cols, j => i == a && b <= j <= b + 2))
  }

  /** Three live cells in column `b+1`, rows `a-1 .. a+1`: the other phase of the blinker. */
  function Vertical(rows: nat, cols: nat, a: int, b: int): Grid
  {
    seq(rows, i => seq(cols, j => a - 1 <= i <= a + 1 && j == b + 1))
  }

  /** Two grids of one shape are equal when every cell is. */
  lemma CellwiseEqual(g: Grid, h: Grid, rows: nat, cols: nat)
    requires Shaped(g, rows, cols) && Shaped(h, rows, cols)
    requires forall i, j :: 0 <= i < rows && 0 <= j < cols ==> g[i][j] == h[i][j]
    ensures g == h
  {
    forall i | 0 <= i < rows
      ensures g[i] == h[i]
    {
    }
  }

  /** On a grid of at least 3x3, a cell's next state is `expected` when the cell lies in the
      first row or column and `expected` is dead, or when it lies elsewhere and the rule on its
      clamped count gives `expected`. */
  lemma NextCell(g: Grid, rows: nat, cols: nat, r: nat, c: nat, expected: bool)
    requires Shaped(g, rows, cols) && 3 <= rows && 3 <= cols
    requires r < rows && c < cols
    requires r == 0 || c == 0 ==> !expected
    requires 1 <= r && 1 <= c ==> Rule(g[r][c], ClampedCount(g, r, c)) == expected
    ensures Step(g)[r][c] == expected
  {
    assert Cols(g) == cols;
    if 1 <= r && 1 <= c {
      InteriorRule(g, r, c);
    } else {
      EdgeDead(g);
    }
  }

  /** Around the block, the rule keeps exactly the block's cells alive. */
  lemma BlockCount(rows: nat, cols: nat, a: nat, b: nat, r: int, c: int)
    requires 1 <= a && a + 2 <= rows
    requires 1 <= b && b + 2 <= cols
    ensures var g := Block(rows, cols, a, b);
      Rule(a <= r <= a + 1 && b <= c <= b + 1, ClampedCount(g, r, c)) == (a <= r <= a + 1 && b <= c <= b + 1)
  {
  }

  /** Around the horizontal phase, the rule keeps the line's middle alive and brings the cells
      just above and below it to life; everything else is dead. */
  lemma HorizontalCount(rows: nat, cols: nat, a: nat, b: nat, r: int, c: int)
    requires 2 <= a && a + 2 <= rows
    requires 1 <= b && b + 3 <= cols
    ensures var g := Horizontal(rows, cols, a, b);
      Rule(r == a && b <= c <= b + 2, ClampedCount(g, r, c)) == (a - 1 <= r <= a + 1 && c == b + 1)
  {
  }

  /** Around the vertical phase, the rule keeps the line's middle alive and brings the cells
      just left and right of it to life; everything else is dead. */
  lemma VerticalCount(rows: nat, cols: nat, a: nat, b: nat, r: int, c: int)
    requires 2 <= a && a + 2 <= rows
    requires 1 <= b && b + 3 <= cols
    ensures var g := Vertical(rows, cols, a, b);
      Rule(a - 1 <= r <= a + 1 && c == b + 1, ClampedCount(g, r, c)) == (r == a && b <= c <= b + 2)
  {
  }

  /** The block off the first row and column is a fixed point of the step. */
  lemma BlockIsStill(rows: nat, cols: nat, a: nat, b: nat)
    requires 1 <= a && a + 2 <= rows
    requires 1 <= b && b + 2 <= cols
    ensures Step(Block(rows, cols, a, b)) == Block(rows, cols, a, b)
  {
    var g := Block(rows, cols, a, b);
    forall r, c | 0 <= r < rows && 0 <= c < cols
      ensures Step(g)[r][c] == g[r][c]
    {
      BlockCount(rows, cols, a, b, r, c);
      NextCell(g, rows, cols, r, c, a <= r <= a + 1 && b <= c <= b + 1);
    }
    CellwiseEqual(Step(g), g, rows, cols);
  }

  /** One step turns the horizontal phase into the vertical one. */
  lemma HorizontalToVertical(rows: nat, cols: nat, a: nat, b: nat)
    requires 2 <= a && a + 2 <= rows
    requires 1 <= b && b + 3 <= cols
    ensures Step(Horizontal(rows, cols, a, b)) == Vertical(rows, cols, a, b)
  {
    var g := Horizontal(rows, cols, a, b);
    var v := Vertical(rows, cols, a, b);
    forall r, c | 0 <= r < rows && 0 <= c < cols
      ensures Step(g)[r][c] == v[r][c]
    {
      HorizontalCount(rows, cols, a, b, r, c);
      NextCell(g, rows, cols, r, c, a - 1 <= r <= a + 1 && c == b + 1);
    }
    CellwiseEqual(Step(g), v, rows, cols);
  }

  /** One step turns the vertical phase back into the horizontal one. */
  lemma VerticalToHorizontal(rows: nat, cols: nat, a: nat, b: nat)
    requires 2 <= a && a + 2 <= rows
    requires 1 <= b && b + 3 <= cols
    ensures Step(Vertical(rows, cols, a, b)) == Horizontal(rows, cols, a, b)
  {
    var g := Vertical(rows, cols, a, b);
    var h := Horizontal(rows, cols, a, b);
    forall r, c | 0 <= r < rows && 0 <= c < cols
      ensures Step(g)[r][c] == h[r][c]
    {
      VerticalCount(rows, cols, a, b, r, c);
      NextCell(g, rows, cols, r, c, r == a && b <= c <= b + 2);
    }
    CellwiseEqual(Step(g), h, rows, cols);
  }

  /** The blinker has period exactly 2: it changes after one step and is back after two. */
  lemma BlinkerPeriodTwo(rows: nat, cols: nat, a: nat, b: nat)
    requires 2 <= a && a + 2 <= rows
    requires 1 <= b && b + 3 <= cols
    ensures Step(Horizontal(rows, cols, a, b)) != Horizontal(rows, cols, a, b)
    ensures Step(Step(Horizontal(rows, cols, a, b))) == Horizontal(rows, cols, a, b)
  {
    HorizontalToVertical(rows, cols, a, b);
    VerticalToHorizontal(rows, cols, a, b);
    assert Vertical(rows, cols, a, b)[a - 1][b + 1] != Horizontal(rows, cols, a, b)[a - 1][b + 1];
  }

  /** Stepping a still life twice gives the same grid both times. */
  lemma BlockStepTwice(rows: nat, cols: nat, a: nat, b: nat)
    requires 1 <= a && a + 2 <= rows
    requires 1 <= b && b + 2 <= cols
    ensures Step(Step(Block(rows, cols, a, b))) == Step(Block(rows, cols, a, b))
  {
    BlockIsStill(rows, cols, a, b);
  }

  /** The same block placed in the first row does not survive: on a grid of three or more rows
      the program clears that row. */
  lemma BlockInFirstRowDies(rows: nat, cols: nat, b: nat)
    requires 3 <= rows
    requires 1 <= b && b + 2 <= cols
    ensures Step(Block(rows, cols, 0, b)) != Block(rows, cols, 0, b)
  {
    var g := Block(rows, cols, 0, b);
    assert Cols(g) == cols;
    EdgeDead(g);
    assert !Step(g)[0][b] && g[0][b];
  }
}
