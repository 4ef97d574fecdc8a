/** Building a grid: all dead, with an optional pattern template copied in at its offset
    (the program's slice assignment `cells[top:top+h, left:left+w] = template`). */
module Setup {
  import opened Grids
  import opened Catalog

  /** `row` with the cells `[at, at + |t|)` replaced by `t`. */
  function PasteRow(row: seq<bool>, t: seq<bool>, at: nat): (r: seq<bool>)
    requires at + |t| <= |row|
    ensures |r| == |row|
    ensures forall j :: 0 <= j < |r| ==> r[j] == if at <= j < at + |t| then t[j - at] else row[j]
  {
    row[..at] + t + row[at + |t|..]
  }

  /** `g` with the rectangle of rows `t` (each `w` wide) written in from `(top, left)`,
      one template row at a time. */
  function Paste(g: Grid, t: Grid, w: nat, top: nat, left: nat): (r: Grid)
    requires forall k :: 0 <= k < |t| ==> |t[k]| == w
    requires top + |t| <= |g|
    requires forall i :: top <= i < top + |t| ==> left + w <= |g[i]|
    ensures |r| == |g|
    ensures forall i :: 0 <= i < |g| ==> |r[i]| == |g[i]|
    ensures forall i, j :: 0 <= i < |g| && 0 <= j < |g[i]| ==>
      r[i][j] == if top <= i < top + |t| && left <= j < left + w then t[i - top][j - left] else g[i][j]
    decreases |t|
  {
    if |t| == 0 then g
    else Paste(g[top := PasteRow(g[top], t[0], left)], t[1..], w, top + 1, left)
  }

  /** The grid the program starts from or resets to: all dead when no pattern is given,
      otherwise the template at its offset and dead everywhere else. */
  function InitGrid(rows: nat, cols: nat, p: Option<Pattern>): (g: Grid)
    requires p.Some? ==> Fits(p.value, rows, cols)
    ensures Shaped(g, rows, cols)
    ensures p.None? ==> AllDead(g)
    ensures p.Some? ==> forall i, j :: 0 <= i < rows && 0 <= j < cols ==>
      g[i][j] == if Covers(p.value, i, j) then p.value.template[i - p.value.top][j - p.value.left] else false
  {
    match p
    case None => Empty(rows, cols)
    case Some(pat) => Paste(Empty(rows, cols), pat.template, Cols(pat.template), pat.top, pat.left)
  }
}
