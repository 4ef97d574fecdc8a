/** The pattern catalog: an ordered table from pattern name to a template and the grid
    position of the template's top-left cell. The table itself comes from the program's
    settings and is a parameter here. */
module Catalog {
  import opened Grids

  datatype Option<T> = None | Some(value: T)

  /** A seed shape: rows of template cells, placed with its first cell at `(top, left)`. */
  datatype Pattern = Pattern(template: Grid, top: nat, left: nat)

  datatype Entry = Entry(name: string, pattern: Pattern)

  /** The template is a non-empty rectangle and, placed at its offset, lies inside a
      `rows x cols` grid (otherwise the program's slice assignment fails). */
  predicate Fits(p: Pattern, rows: nat, cols: nat)
  {
    && |p.template| >= 1
    && Rectangular(p.template)
    && p.top + |p.template| <= rows
    && p.left + Cols(p.template) <= cols
  }

  /** Grid cell `(i, j)` lies under the placed template. */
  predicate Covers(p: Pattern, i: int, j: int)
  {
    p.top <= i < p.top + |p.template| && p.left <= j < p.left + Cols(p.template)
  }

  /** The names in table order (the list of the table's keys). */
  function Names(catalog: seq<Entry>): seq<string>
  {
    seq(|catalog|, i requires 0 <= i < |catalog| => catalog[i].name)
  }

  /** The keys of the table are distinct, as in any dictionary. */
  predicate DistinctNames(catalog: seq<Entry>)
  {
    forall i, j :: 0 <= i < j < |catalog| ==> catalog[i].name != catalog[j].name
  }

  /** Looking a name up in the table; `None` stands for the missing-key error. */
  function Find(catalog: seq<Entry>, name: string): (p: Option<Pattern>)
    ensures p.None? <==> forall i :: 0 <= i < |catalog| ==> catalog[i].name != name
    ensures p.Some? ==> exists i :: 0 <= i < |catalog| && catalog[i].name == name && catalog[i].pattern == p.value &&
                                    forall k :: 0 <= k < i ==> catalog[k].name != name
  {
    if |catalog| == 0 then None
    else if catalog[0].name == name then Some(catalog[0].pattern)
    else Find(catalog[1..], name)
  }

  /** Looking up the `i`-th name yields the `i`-th pattern. */
  lemma {:induction false} FindByIndex(catalog: seq<Entry>, i: nat)
    requires DistinctNames(catalog)
    requires i < |catalog|
    ensures Find(catalog, Names(catalog)[i]) == Some(catalog[i].pattern)
  {
    if i > 0 {
      assert catalog[0].name != catalog[i].name;
      assert catalog[1..][i - 1] == catalog[i];
      FindByIndex(catalog[1..], i - 1);
    }
  }
}
