/** The interactive loop as a state machine: the state is the pause flag and the grid, each
    input event is applied in arrival order, and then one tick advances the grid unless
    the game is paused. */
module Controller {
  import opened Grids
  import opened Catalog
  import opened Life
  import opened Setup

  /** The settings the loop reads: grid size, cell size in pixels and the pattern table. */
  datatype Config = Config(rows: nat, cols: nat, cellSize: nat, catalog: seq<Entry>)

  predicate ValidConfig(cfg: Config)
  {
    && cfg.cellSize > 0
    && DistinctNames(cfg.catalog)
    && forall k :: 0 <= k < |cfg.catalog| ==> Fits(cfg.catalog[k].pattern, cfg.rows, cfg.cols)
  }

  /** Input events: a press of the space key, a press of the pattern key together with the
      index typed at the prompt, a press of any other key, and `Pointer` for every other
      event that is not a key press (key releases, mouse motion, window events), carrying
      the primary mouse button state and pointer position read at that moment. */
  datatype Event =
    | Space
    | ChoosePattern(choice: int)
    | OtherKey
    | Pointer(pressed: bool, x: nat, y: nat)

  /** A pressed pointer lies inside the window of `cols x rows` cells. */
  predicate OnScreen(cfg: Config, e: Event)
  {
    e.Pointer? && e.pressed ==> e.x < cfg.cols * cfg.cellSize && e.y < cfg.rows * cfg.cellSize
  }

  datatype State = State(paused: bool, cells: Grid)

  /** The program can handle `e` in state `s`: a press is only turned into a cell index while
      paused, so only such a press must lie inside the grid. A press while running is never
      indexed, wherever it is. */
  predicate Accepted(cfg: Config, s: State, e: Event)
  {
    s.paused ==> OnScreen(cfg, e)
  }

  /** The grid always has the configured size. */
  predicate Valid(cfg: Config, s: State)
  {
    Shaped(s.cells, cfg.rows, cfg.cols)
  }

  /** The loop starts paused on an empty grid. */
  function Initial(cfg: Config): (s: State)
    ensures s.paused
    ensures Valid(cfg, s) && AllDead(s.cells)
  {
    State(true, InitGrid(cfg.rows, cfg.cols, None))
  }

  /** The grid a pattern choice builds: the indexed pattern when the index is in range,
      the empty grid otherwise. */
  function Select(cfg: Config, choice: int): (g: Grid)
    requires ValidConfig(cfg)
    ensures Shaped(g, cfg.rows, cfg.cols)
  {
    if 0 <= choice < |cfg.catalog| then
      var p := Find(cfg.catalog, Names(cfg.catalog)[choice]);
      assert p.Some? && Fits(p.value, cfg.rows, cfg.cols);
      InitGrid(cfg.rows, cfg.cols, p)
    else
      InitGrid(cfg.rows, cfg.cols, None)
  }

  /** A pixel coordinate inside a window of `n` cells of `size` pixels falls in one of them. */
  lemma PixelToCell(p: nat, size: nat, n: nat)
    requires size > 0 && p < n * size
    ensures p / size < n
  {
  }

  /** The cell under pointer position `(x, y)`: row `y / size`, column `x / size`. */
  function ClickedCell(cfg: Config, x: nat, y: nat): (cell: (nat, nat))
    requires cfg.cellSize > 0
    requires x < cfg.cols * cfg.cellSize && y < cfg.rows * cfg.cellSize
    ensures cell.0 < cfg.rows && cell.1 < cfg.cols
  {
    PixelToCell(x, cfg.cellSize, cfg.cols);
    PixelToCell(y, cfg.cellSize, cfg.rows);
    (y / cfg.cellSize, x / cfg.cellSize)
  }

  /** Handling one event. */
  function Apply(cfg: Config, s: State, e: Event): (s': State)
    requires ValidConfig(cfg) && Valid(cfg, s) && Accepted(cfg, s, e)
    ensures Valid(cfg, s')
  {
    match e
    case Space => s.(paused := !s.paused)
    case ChoosePattern(i) => State(true, Select(cfg, i))
    case OtherKey => s
    case Pointer(pressed, x, y) =>
      if pressed && s.paused then
        var cell := ClickedCell(cfg, x, y);
        s.(cells := SetAlive(s.cells, cell.0, cell.1))
      else s
  }

  /** The per-frame update: one generation when running, nothing when paused. */
  function Tick(s: State): (s': State)
    requires Rectangular(s.cells)
    ensures s'.paused == s.paused
    ensures Shaped(s'.cells, |s.cells|, Cols(s.cells))
  {
    if s.paused then s else s.(cells := Step(s.cells))
  }

  /** Every event of a frame is accepted in the state it meets, in arrival order. */
  predicate Accepts(cfg: Config, s: State, events: seq<Event>)
    requires ValidConfig(cfg) && Valid(cfg, s)
    decreases |events|
  {
    |events| == 0 || (Accepted(cfg, s, events[0]) && Accepts(cfg, Apply(cfg, s, events[0]), events[1..]))
  }

  /** Handling a frame's events in arrival order. */
  function ApplyAll(cfg: Config, s: State, events: seq<Event>): (s': State)
    requires ValidConfig(cfg) && Valid(cfg, s)
    requires Accepts(cfg, s, events)
    ensures Valid(cfg, s')
    decreases |events|
  {
    if |events| == 0 then s else ApplyAll(cfg, Apply(cfg, s, events[0]), events[1..])
  }

  /** One pass of the loop: the frame's events, then the tick. */
  function Frame(cfg: Config, s: State, events: seq<Event>): (s': State)
    requires ValidConfig(cfg) && Valid(cfg, s)
    requires Accepts(cfg, s, events)
    ensures Valid(cfg, s')
  {
    var t := ApplyAll(cfg, s, events);
    assert cfg.rows > 0 ==> Cols(t.cells) == cfg.cols;
    Tick(t)
  }

  // ---------------------------------------------------------------------------
  // Properties of the transitions.

  /** Space flips the pause flag and leaves the grid alone; two presses restore the state. */
  lemma SpaceToggles(cfg: Config, s: State)
    requires ValidConfig(cfg) && Valid(cfg, s)
    ensures Apply(cfg, s, Space).paused == !s.paused
    ensures Apply(cfg, s, Space).cells == s.cells
    ensures Apply(cfg, Apply(cfg, s, Space), Space) == s
  {
  }

  /** A pattern choice always pauses. An index inside the table loads that pattern exactly:
      its template at its offset, dead everywhere else. */
  lemma ChooseInRange(cfg: Config, s: State, i: int)
    requires ValidConfig(cfg) && Valid(cfg, s)
    requires 0 <= i < |cfg.catalog|
    ensures var s' := Apply(cfg, s, ChoosePattern(i));
      var p := cfg.catalog[i].pattern;
      && s'.paused
      && Shaped(s'.cells, cfg.rows, cfg.cols)
      && forall r, c :: 0 <= r < cfg.rows && 0 <= c < cfg.cols ==>
           s'.cells[r][c] == if Covers(p, r, c) then p.template[r - p.top][c - p.left] else false
  {
    FindByIndex(cfg.catalog, i);
  }

  /** Any other index pauses on the empty grid. */
  lemma ChooseOutOfRange(cfg: Config, s: State, i: int)
    requires ValidConfig(cfg) && Valid(cfg, s)
    requires !(0 <= i < |cfg.catalog|)
    ensures Apply(cfg, s, ChoosePattern(i)) == State(true, Empty(cfg.rows, cfg.cols))
  {
  }

  /** A press while paused sets exactly the cell under the pointer alive and changes nothing
      else; in particular it never clears a cell. */
  lemma ClickWhilePaused(cfg: Config, s: State, x: nat, y: nat)
    requires ValidConfig(cfg) && Valid(cfg, s) && s.paused
    requires x < cfg.cols * cfg.cellSize && y < cfg.rows * cfg.cellSize
    ensures var s' := Apply(cfg, s, Pointer(true, x, y));
      && s'.paused
      && Valid(cfg, s')
      && s'.cells[y / cfg.cellSize][x / cfg.cellSize]
      && (forall r, c :: 0 <= r < cfg.rows && 0 <= c < cfg.cols && (r, c) != (y / cfg.cellSize, x / cfg.cellSize) ==>
            s'.cells[r][c] == s.cells[r][c])
      && (forall r, c :: 0 <= r < cfg.rows && 0 <= c < cfg.cols && s.cells[r][c] ==> s'.cells[r][c])
  {
  }

  /** While running, or without the button pressed, a pointer event changes nothing, wherever
      the pointer is. */
  lemma PointerIgnored(cfg: Config, s: State, e: Event)
    requires ValidConfig(cfg) && Valid(cfg, s)
    requires e.Pointer? && (!e.pressed || !s.paused)
    ensures Apply(cfg, s, e) == s
  {
  }

  /** A tick while paused leaves the state as it is; while running it replaces the grid by
      the next generation and keeps running. */
  lemma TickBehaviour(s: State)
    requires Rectangular(s.cells)
    ensures s.paused ==> Tick(s) == s
    ensures !s.paused ==> Tick(s) == State(false, Step(s.cells))
  {
  }

  /** Pattern choices, pointer events and other keys never unpause: only Space can. Since the
      game stays paused, a frame of such events is accepted when every press lies in the grid. */
  lemma {:induction false} OnlySpaceUnpauses(cfg: Config, s: State, events: seq<Event>)
    requires ValidConfig(cfg) && Valid(cfg, s) && s.paused
    requires forall k :: 0 <= k < |events| ==> OnScreen(cfg, events[k]) && !events[k].Space?
    ensures Accepts(cfg, s, events)
    ensures ApplyAll(cfg, s, events).paused
    ensures Frame(cfg, s, events) == ApplyAll(cfg, s, events)
    decreases |events|
  {
    if |events| > 0 {
      OnlySpaceUnpauses(cfg, Apply(cfg, s, events[0]), events[1..]);
    }
  }

  /** A paused frame whose events are all pointer events with the button up (or other keys)
      leaves the whole state unchanged: the grid does not evolve while paused. */
  lemma {:induction false} PausedFrameIdle(cfg: Config, s: State, events: seq<Event>)
    requires ValidConfig(cfg) && Valid(cfg, s) && s.paused
    requires forall k :: 0 <= k < |events| ==> events[k].OtherKey? || (events[k].Pointer? && !events[k].pressed)
    ensures Accepts(cfg, s, events)
    ensures Frame(cfg, s, events) == s
    decreases |events|
  {
    if |events| > 0 {
      PausedFrameIdle(cfg, Apply(cfg, s, events[0]), events[1..]);
    }
  }
}
