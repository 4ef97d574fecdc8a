/** One generation of Conway's Game of Life (birth on 3, survival on 2 or 3), computed the
    way the program computes it: each cell's neighbour count is the sum of the slice
    `cur[r-1:r+2, c-1:c+2]` minus the cell itself, and the next generation is written into
    a fresh all-dead grid of the same shape. */
module Life {
  import opened Grids
  import opened Slicing

  /** Sum of the cells `row[lo..hi]`: the number of live cells there. */
  function RowSum(row: seq<bool>, lo: nat, hi: nat): (s: int)
    requires lo <= hi <= |row|
    decreases hi
  {
    if lo == hi then 0 else RowSum(row, lo, hi - 1) + Value(row[hi - 1])
  }

  /** Sum of the rectangle of cells `[rlo, rhi) x [clo, chi)` (the `numpy.sum` of a 2-D slice). */
  function WindowSum(g: Grid, rlo: nat, rhi: nat, clo: nat, chi: nat): (s: int)
    requires rlo <= rhi <= |g|
    requires clo <= chi
    requires forall i :: rlo <= i < rhi ==> chi <= |g[i]|
    decreases rhi
  {
    if rlo == rhi then 0 else WindowSum(g, rlo, rhi - 1, clo, chi) + RowSum(g[rhi - 1], clo, chi)
  }

  /** A run of cells sums to at least 0 and at most its length, and to its length exactly
      when every cell of the run is alive. */
  lemma {:induction false} RowSumRange(row: seq<bool>, lo: nat, hi: nat)
    requires lo <= hi <= |row|
    ensures 0 <= RowSum(row, lo, hi) <= hi - lo
    ensures RowSum(row, lo, hi) == hi - lo <==> forall j :: lo <= j < hi ==> row[j]
    decreases hi
  {
    if lo < hi {
      RowSumRange(row, lo, hi - 1);
    }
  }

  /** A rectangle of cells sums to at least 0 and at most its number of cells. */
  lemma {:induction false} WindowSumRange(g: Grid, rlo: nat, rhi: nat, clo: nat, chi: nat)
    requires rlo <= rhi <= |g|
    requires clo <= chi
    requires forall i :: rlo <= i < rhi ==> chi <= |g[i]|
    ensures 0 <= WindowSum(g, rlo, rhi, clo, chi) <= (rhi - rlo) * (chi - clo)
    decreases rhi
  {
    if rlo < rhi {
      WindowSumRange(g, rlo, rhi - 1, clo, chi);
      RowSumRange(g[rhi - 1], clo, chi);
      assert (rhi - rlo) * (chi - clo) == (rhi - 1 - rlo) * (chi - clo) + (chi - clo);
    }
  }

  /** The neighbour count the program computes for cell `(r, c)`: the sum over the sliced
      3x3 window minus the cell's own value. On the first row or column of a grid with
      three or more rows or columns the window is empty and the count is minus the cell. */
  function SourceCount(g: Grid, r: nat, c: nat): int
    requires Rectangular(g)
    requires r < |g| && c < Cols(g)
  {
    var rows := Slice(r - 1, r + 2, |g|);
    var cols := Slice(c - 1, c + 2, Cols(g));
    WindowSum(g, rows.lo, rows.hi, cols.lo, cols.hi) - Value(g[r][c])
  }

  /** Conway's rule B3/S23: a live cell survives with two or three live neighbours, a dead
      cell is born with exactly three. */
  predicate Rule(alive: bool, n: int)
  {
    (alive && 2 <= n <= 3) || (!alive && n == 3)
  }

  /** The rule, branch for branch as the program writes it: a live cell with fewer than two
      neighbours, or any cell with more than three, is not carried over; a live cell with two or
      three, or a dead cell with exactly three, is alive next. */
  function NextState(alive: bool, n: int): (next: bool)
    ensures next == Rule(alive, n)
    ensures alive ==> (next <==> n == 2 || n == 3)
    ensures !alive ==> (next <==> n == 3)
  {
    if (alive && n < 2) || n > 3 then false
    else if (alive && 2 <= n <= 3) || (!alive && n == 3) then true
    else false
  }

  /** Colour of a cell on screen: the program draws only cells alive now, in the "about to
      die" colour when the rule's first branch fires and in the alive colour when it survives. */
  datatype Paint = Background | AboutToDie | AliveColour

  function CellPaint(alive: bool, n: int): (p: Paint)
    ensures p == Background <==> !alive
    ensures p == AboutToDie <==> alive && !NextState(alive, n)
    ensures p == AliveColour <==> alive && NextState(alive, n)
  {
    var col :=
      if (alive && n < 2) || n > 3 then AboutToDie
      else if (alive && 2 <= n <= 3) || (!alive && n == 3) then AliveColour
      else Background;
    if alive then col else Background
  }

  /** The next generation, as a pure function of the current grid. */
  function Step(g: Grid): (n: Grid)
    requires Rectangular(g)
    ensures Shaped(n, |g|, Cols(g))
  {
    seq(|g|, r requires 0 <= r < |g| =>
      seq(Cols(g), c requires 0 <= c < Cols(g) => NextState(g[r][c], SourceCount(g, r, c))))
  }

  /** The program's loop: start from an all-dead grid of the same shape, visit every cell in
      row-major order, and write 1 where the rule says alive. Nothing is ever written back
      into `cur`, so every count is taken from the grid as it was before the step. */
  method Update(cur: Grid) returns (nxt: Grid)
    requires Rectangular(cur)
    ensures nxt == Step(cur)
  {
    var rows, cols := |cur|, Cols(cur);
    ghost var next := Step(cur);
    var zero := Empty(rows, cols);
    nxt := zero;
    var r := 0;
    while r < rows
      invariant 0 <= r <= rows
      invariant Shaped(nxt, rows, cols)
      invariant forall i :: 0 <= i < rows ==> nxt[i] == if i < r then next[i] else zero[i]
    {
      nxt := UpdateRow(cur, nxt, r);
      r := r + 1;
    }
    assert forall i :: 0 <= i < rows ==> nxt[i] == next[i];
  }

  /** The visits of one row `r`, whose cells are all still 0: afterwards row `r` holds the next
      generation's row and every other row is untouched. */
  method UpdateRow(cur: Grid, nxt: Grid, r: nat) returns (nxt': Grid)
    requires Rectangular(cur) && Shaped(nxt, |cur|, Cols(cur))
    requires r < |cur|
    requires forall j :: 0 <= j < Cols(cur) ==> !nxt[r][j]
    ensures Shaped(nxt', |cur|, Cols(cur))
    ensures nxt'[r] == Step(cur)[r]
    ensures forall i :: 0 <= i < |cur| && i != r ==> nxt'[i] == nxt[i]
  {
    var cols := Cols(cur);
    var row := nxt[r];
    var c := 0;
    while c < cols
      invariant 0 <= c <= cols
      invariant |row| == cols
      invariant forall j :: 0 <= j < cols ==> row[j] == (j < c && NextState(cur[r][j], SourceCount(cur, r, j)))
    {
      if NextState(cur[r][c], SourceCount(cur, r, c)) {
        row := row[c := true];
      }
      c := c + 1;
    }
    StepRow(cur, r, row);
    nxt' := nxt[r := row];
  }

  lemma StepRow(cur: Grid, r: nat, row: seq<bool>)
    requires Rectangular(cur) && r < |cur| && |row| == Cols(cur)
    requires forall j :: 0 <= j < Cols(cur) ==> row[j] == NextState(cur[r][j], SourceCount(cur, r, j))
    ensures Step(cur)[r] == row
  {
  }

  // ---------------------------------------------------------------------------
  // Reference: the neighbour count with every position outside the grid counted as dead.

  /** Value of cell `(i, j)`, or 0 when the position lies outside the grid. */
  function At(g: Grid, i: int, j: int): int
  {
    if 0 <= i < |g| && 0 <= j < |g[i]| then Value(g[i][j]) else 0
  }

  /** Live cells among the eight neighbours of `(r, c)`, positions outside the grid counting 0. */
  function ClampedCount(g: Grid, r: int, c: int): int
  {
    At(g, r - 1, c - 1) + At(g, r - 1, c) + At(g, r - 1, c + 1) +
    At(g, r, c - 1) + At(g, r, c + 1) +
    At(g, r + 1, c - 1) + At(g, r + 1, c) + At(g, r + 1, c + 1)
  }

  /** The window sum over the cells `[c-1, c+2)` of one row, clipped at the row's end,
      is the three values around `c`. */
  lemma {:induction false} RowTriple(row: seq<bool>, c: nat, hi: nat)
    requires 1 <= c < |row|
    requires hi == if c + 2 <= |row| then c + 2 else |row|
    ensures RowSum(row, c - 1, hi) ==
      Value(row[c - 1]) + Value(row[c]) + (if c + 1 < |row| then Value(row[c + 1]) else 0)
  {
    assert RowSum(row, c - 1, c - 1) == 0;
    assert RowSum(row, c - 1, c) == Value(row[c - 1]);
    assert RowSum(row, c - 1, c + 1) == Value(row[c - 1]) + Value(row[c]);
    if c + 2 <= |row| {
      assert RowSum(row, c - 1, c + 2) == RowSum(row, c - 1, c + 1) + Value(row[c + 1]);
    }
  }

  /** Row sum over the three columns around `c` written with `At`. */
  lemma RowTripleAt(g: Grid, i: nat, c: nat, hi: nat)
    requires Rectangular(g)
    requires i < |g| && 1 <= c < Cols(g)
    requires hi == if c + 2 <= Cols(g) then c + 2 else Cols(g)
    ensures RowSum(g[i], c - 1, hi) == At(g, i, c - 1) + At(g, i, c) + At(g, i, c + 1)
  {
    RowTriple(g[i], c, hi);
  }

  /** For a cell off the first row and column, the program's count is the clamped count. */
  lemma {:induction false} InteriorCount(g: Grid, r: nat, c: nat)
    requires Rectangular(g)
    requires 1 <= r < |g| && 1 <= c < Cols(g)
    ensures SourceCount(g, r, c) == ClampedCount(g, r, c)
  {
    var rows := Slice(r - 1, r + 2, |g|);
    var cols := Slice(c - 1, c + 2, Cols(g));
    InnerWindow(r, |g|);
    InnerWindow(c, Cols(g));
    var chi := cols.hi;
    RowTripleAt(g, r - 1, c, chi);
    RowTripleAt(g, r, c, chi);
    var w0 := WindowSum(g, r - 1, r - 1, c - 1, chi);
    var w1 := WindowSum(g, r - 1, r, c - 1, chi);
    var w2 := WindowSum(g, r - 1, r + 1, c - 1, chi);
    assert w0 == 0;
    assert w1 == RowSum(g[r - 1], c - 1, chi);
    assert w2 == w1 + RowSum(g[r], c - 1, chi);
    if r + 2 <= |g| {
      RowTripleAt(g, r + 1, c, chi);
      assert rows.hi == r + 2;
      assert WindowSum(g, r - 1, r + 2, c - 1, chi) == w2 + RowSum(g[r + 1], c - 1, chi);
    } else {
      assert rows.hi == r + 1;
      assert At(g, r + 1, c - 1) == 0 && At(g, r + 1, c) == 0 && At(g, r + 1, c + 1) == 0;
    }
    assert Value(g[r][c]) == At(g, r, c);
  }

  /** Off the first row and column, one step applies the B3/S23 rule to the clamped count. */
  lemma InteriorRule(g: Grid, r: nat, c: nat)
    requires Rectangular(g)
    requires 1 <= r < |g| && 1 <= c < Cols(g)
    ensures Step(g)[r][c] == Rule(g[r][c], ClampedCount(g, r, c))
  {
    InteriorCount(g, r, c);
  }

  /** A window with no columns sums to 0. */
  lemma {:induction false} NoColumnsSum(g: Grid, rlo: nat, rhi: nat, k: nat)
    requires rlo <= rhi <= |g|
    requires forall i :: rlo <= i < rhi ==> k <= |g[i]|
    ensures WindowSum(g, rlo, rhi, k, k) == 0
    decreases rhi
  {
    if rlo < rhi {
      NoColumnsSum(g, rlo, rhi - 1, k);
    }
  }

  /** A cell whose count is computed on an empty window is dead after the step:
      its count is 0 or -1. */
  lemma EmptyWindowDead(g: Grid, r: nat, c: nat)
    requires Rectangular(g)
    requires r < |g| && c < Cols(g)
    requires Slice(r - 1, r + 2, |g|).lo == Slice(r - 1, r + 2, |g|).hi ||
             Slice(c - 1, c + 2, Cols(g)).lo == Slice(c - 1, c + 2, Cols(g)).hi
    ensures !Step(g)[r][c]
  {
    var rows := Slice(r - 1, r + 2, |g|);
    var cols := Slice(c - 1, c + 2, Cols(g));
    if cols.lo == cols.hi {
      NoColumnsSum(g, rows.lo, rows.hi, cols.lo);
    }
    assert SourceCount(g, r, c) == -Value(g[r][c]);
  }

  /** On a grid of three or more rows every cell of the first row is dead after a step, and
      on a grid of three or more columns every cell of the first column is. */
  lemma EdgeDead(g: Grid)
    requires Rectangular(g)
    ensures 3 <= |g| ==> forall c :: 0 <= c < Cols(g) ==> !Step(g)[0][c]
    ensures 3 <= Cols(g) ==> forall r :: 0 <= r < |g| ==> !Step(g)[r][0]
  {
    if 3 <= |g| {
      forall c | 0 <= c < Cols(g)
        ensures !Step(g)[0][c]
      {
        FirstWindowEmpty(|g|);
        EmptyWindowDead(g, 0, c);
      }
    }
    if 3 <= Cols(g) {
      forall r | 0 <= r < |g|
        ensures !Step(g)[r][0]
      {
        FirstWindowEmpty(Cols(g));
        EmptyWindowDead(g, r, 0);
      }
    }
  }

  /** Every window of an all-dead grid sums to 0. */
  lemma {:induction false} DeadWindowSum(g: Grid, rlo: nat, rhi: nat, clo: nat, chi: nat)
    requires AllDead(g)
    requires rlo <= rhi <= |g| && clo <= chi
    requires forall i :: rlo <= i < rhi ==> chi <= |g[i]|
    ensures WindowSum(g, rlo, rhi, clo, chi) == 0
    decreases rhi
  {
    if rlo < rhi {
      DeadWindowSum(g, rlo, rhi - 1, clo, chi);
      DeadRowSum(g[rhi - 1], clo, chi);
    }
  }

  lemma {:induction false} DeadRowSum(row: seq<bool>, lo: nat, hi: nat)
    requires forall j :: 0 <= j < |row| ==> !row[j]
    requires lo <= hi <= |row|
    ensures RowSum(row, lo, hi) == 0
    decreases hi
  {
    if lo < hi {
      DeadRowSum(row, lo, hi - 1);
    }
  }

  /** No spontaneous birth: an all-dead grid stays all dead. */
  lemma NoSpontaneousBirth(g: Grid)
    requires Rectangular(g)
    requires AllDead(g)
    ensures AllDead(Step(g))
  {
    forall r, c | 0 <= r < |g| && 0 <= c < Cols(g)
      ensures !Step(g)[r][c]
    {
      var rows := Slice(r - 1, r + 2, |g|);
      var cols := Slice(c - 1, c + 2, Cols(g));
      DeadWindowSum(g, rows.lo, rows.hi, cols.lo, cols.hi);
      assert !g[r][c];
      assert SourceCount(g, r, c) == 0;
    }
  }

  /** Two grids that agree on the cells of a window have the same window sum. */
  lemma {:induction false} WindowSumLocal(g: Grid, h: Grid, rlo: nat, rhi: nat, clo: nat, chi: nat)
    requires rlo <= rhi <= |g| && rhi <= |h| && clo <= chi
    requires forall i :: rlo <= i < rhi ==> chi <= |g[i]| && chi <= |h[i]|
    requires forall i, j :: rlo <= i < rhi && clo <= j < chi ==> g[i][j] == h[i][j]
    ensures WindowSum(g, rlo, rhi, clo, chi) == WindowSum(h, rlo, rhi, clo, chi)
    decreases rhi
  {
    if rlo < rhi {
      WindowSumLocal(g, h, rlo, rhi - 1, clo, chi);
      RowSumLocal(g[rhi - 1], h[rhi - 1], clo, chi);
    }
  }

  lemma {:induction false} RowSumLocal(a: seq<bool>, b: seq<bool>, lo: nat, hi: nat)
    requires lo <= hi <= |a| && hi <= |b|
    requires forall j :: lo <= j < hi ==> a[j] == b[j]
    ensures RowSum(a, lo, hi) == RowSum(b, lo, hi)
    decreases hi
  {
    if lo < hi {
      RowSumLocal(a, b, lo, hi - 1);
    }
  }

  /** The cells the step reads for `(r, c)`: the sliced window and the cell itself. */
  predicate InWindow(rows: nat, cols: nat, r: nat, c: nat, i: int, j: int)
  {
    var rs := Slice(r - 1, r + 2, rows);
    var cs := Slice(c - 1, c + 2, cols);
    (i, j) == (r, c) || (rs.lo <= i < rs.hi && cs.lo <= j < cs.hi)
  }

  /** The next state of a cell depends on the current grid only through the cells of its
      window: grids of one shape that agree there give the same next state, whatever the
      other cells hold (in particular, nothing already computed for this step is read). */
  lemma StepLocal(g: Grid, h: Grid, r: nat, c: nat)
    requires Rectangular(g) && Shaped(h, |g|, Cols(g))
    requires r < |g| && c < Cols(g)
    requires forall i, j :: 0 <= i < |g| && 0 <= j < Cols(g) && InWindow(|g|, Cols(g), r, c, i, j) ==>
      g[i][j] == h[i][j]
    ensures Step(g)[r][c] == Step(h)[r][c]
  {
    var rs := Slice(r - 1, r + 2, |g|);
    var cs := Slice(c - 1, c + 2, Cols(g));
    assert Cols(h) == Cols(g);
    WindowSumLocal(g, h, rs.lo, rs.hi, cs.lo, cs.hi);
    assert g[r][c] == h[r][c];
  }
}
