/**
  The state of the terminal app (lifegame-tui/src/app.rs): a run / pause / quit state
  machine around one world, a generation counter and the offsets of the rendered area.
  The world is kept as its cell buffer; a tick advances it with the engine's `Step`.
 */
module TuiApp {
  import opened Results
  import opened MachineInts
  import Life

  type Cell = Life.Cell

  /** Whether the simulation advances on ticks, waits, or the app is ending. */
  datatype AppState = Run | Pause | Quit

  /** The grid size the app starts with. */
  const DEFAULT_NX: usize := 120
  const DEFAULT_NY: usize := 60

  /**
    The fields of `App` other than the probability used to seed it: the generation,
    the state, the grid size, the world's cells and the rendering offsets.
   */
  datatype AppView = AppView(
    gen: u64,
    state: AppState,
    nx: usize,
    ny: usize,
    world: seq<Cell>,
    renderingIx: usize,
    renderingIy: usize)
  {
    /** The world holds one cell per coordinate of the app's grid. */
    predicate WellFormed() {
      |world| == nx * ny
    }
  }

  function Min(a: int, b: int): int {
    if a <= b then a else b
  }

  function Max(a: int, b: int): int {
    if a >= b then a else b
  }

  // ---------------------------------------------------------------------------
  // The transitions, on values
  // ---------------------------------------------------------------------------

  /** `App::default` with the seeded cells: a paused 120 x 60 world at generation zero. */
  function DefaultApp(cells: seq<Cell>): AppView {
    AppView(0, Pause, DEFAULT_NX, DEFAULT_NY, cells, 0, 0)
  }

  /** `can_reset`: a reset is allowed only while paused. */
  function CanReset(app: AppView): (allowed: bool)
    ensures allowed <==> !(app.state == Run || app.state == Quit)
  {
    app.state == Pause
  }

  /** `tick`: while running, one more generation (saturating) and one step of the world. */
  function Ticked(app: AppView): AppView
    requires app.WellFormed()
  {
    if app.state == Run then
      app.(gen := SaturatingAddU64(app.gen, 1), world := Life.Step(app.nx, app.ny, app.world))
    else app
  }

  /** `toggle`: pause a running app and run a paused one. */
  function Toggled(app: AppView): AppView {
    match app.state
    case Pause => app.(state := Run)
    case Run => app.(state := Pause)
    case Quit => app
  }

  /**
    `reset` with `cells` as the freshly sampled cells: while paused, a new world from
    them (failing as `World::new` does when their count is wrong) at generation zero
    and offset zero; otherwise nothing.
   */
  function ResetWith(app: AppView, cells: seq<Cell>): Result<AppView> {
    if CanReset(app) then
      if |cells| != app.nx * app.ny then Err(INVALID_CELL_SIZE)
      else Ok(app.(world := cells, gen := 0, renderingIx := 0, renderingIy := 0))
    else Ok(app)
  }

  /**
    `calculate_panned_index`: moves `current` by `shift`; a move left stops at zero and
    a move right stops at `upper_limit`.
   */
  function CalculatePannedIndex(current: usize, shift: isize, upperLimit: usize): (r: usize)
    ensures shift < 0 ==> r == Max(0, current + shift)
    ensures 0 <= shift ==> r == Min(current + shift, upperLimit)
    ensures 0 <= shift ==> current <= r || r == upperLimit
    ensures 0 <= shift ==> r <= upperLimit
  {
    if shift < 0 then SaturatingAddSigned(current, shift)
    else
      var moved := SaturatingAddSigned(current, shift);
      if moved <= upperLimit then moved else upperLimit
  }

  /** `pan_x`: pans the horizontal offset within `[0, nx]`. */
  function PannedX(app: AppView, shift: isize): AppView {
    app.(renderingIx := CalculatePannedIndex(app.renderingIx, shift, app.nx))
  }

  /** `pan_y`: pans the vertical offset within `[0, ny]`. */
  function PannedY(app: AppView, shift: isize): AppView {
    app.(renderingIy := CalculatePannedIndex(app.renderingIy, shift, app.ny))
  }

  /** `quit`: the app is ending. */
  function Quitted(app: AppView): AppView {
    app.(state := Quit)
  }

  // ---------------------------------------------------------------------------
  // What the transitions promise
  // ---------------------------------------------------------------------------

  /**
    A tick acts only in `Run`: there the generation goes up by one, stopping at
    `u64::MAX`, and the world takes one step of the rule; nothing else changes, and in
    `Pause` or `Quit` the tick changes nothing at all.
   */
  lemma TickOnlyWhenRunning(app: AppView)
    requires app.WellFormed()
    ensures app.state != Run ==> Ticked(app) == app
    ensures app.state == Run ==>
      && Ticked(app).gen == Min(app.gen + 1, U64_MAX)
      && Ticked(app).world == Life.Step(app.nx, app.ny, app.world)
      && Ticked(app) == app.(gen := Ticked(app).gen, world := Ticked(app).world)
    ensures app.gen <= Ticked(app).gen
    ensures Ticked(app).WellFormed()
  {
  }

  /** A tick while running is one generation of the engine: every cell follows B3/S23. */
  lemma TickFollowsRule(app: AppView)
    requires app.WellFormed() && app.state == Run
    ensures Life.IsStepOf(app.nx, app.ny, app.world, Ticked(app).world)
  {
    Life.StepRule(app.nx, app.ny, app.world);
  }

  /** Toggling swaps `Run` and `Pause`, leaves `Quit`, and touches no other field. */
  lemma ToggleSwapsRunAndPause(app: AppView)
    ensures app.state == Run ==> Toggled(app).state == Pause
    ensures app.state == Pause ==> Toggled(app).state == Run
    ensures app.state == Quit ==> Toggled(app).state == Quit
    ensures Toggled(app) == app.(state := Toggled(app).state)
  {
  }

  /** Toggling twice restores the app. */
  lemma ToggleTwiceIsIdentity(app: AppView)
    ensures Toggled(Toggled(app)) == app
  {
  }

  /** Quitting reaches `Quit` from every state, and neither toggles nor ticks leave it. */
  lemma QuitIsAbsorbing(app: AppView)
    requires app.WellFormed()
    ensures Quitted(app).state == Quit
    ensures Quitted(app) == app.(state := Quit)
    ensures Toggled(Quitted(app)) == Quitted(app)
    ensures Ticked(Quitted(app)) == Quitted(app)
    ensures Quitted(Quitted(app)) == Quitted(app)
  {
  }

  /** Outside `Pause` a reset is refused silently: the app stays as it is and no error is raised. */
  lemma ResetOnlyWhenPaused(app: AppView, cells: seq<Cell>)
    ensures CanReset(app) <==> app.state == Pause
    ensures !CanReset(app) ==> ResetWith(app, cells) == Ok(app)
  {
  }

  /**
    A reset while paused fails exactly when the cell count is not `nx * ny`; otherwise
    it installs those cells at generation zero and offset zero, still paused, on a grid
    of the same size.
   */
  lemma ResetWhilePaused(app: AppView, cells: seq<Cell>)
    requires app.state == Pause
    ensures ResetWith(app, cells).Err? <==> |cells| != app.nx * app.ny
    ensures ResetWith(app, cells).Err? ==> ResetWith(app, cells).msg == INVALID_CELL_SIZE
    ensures ResetWith(app, cells).Ok? ==>
      var reset := ResetWith(app, cells).value;
      && reset.WellFormed() && reset.world == cells
      && reset.gen == 0 && reset.renderingIx == 0 && reset.renderingIy == 0
      && reset.state == Pause && reset.nx == app.nx && reset.ny == app.ny
  {
  }

  /** Panning horizontally changes only the horizontal offset, and keeps it within `[0, nx]` when moving right. */
  lemma PanXChangesOnlyIx(app: AppView, shift: isize)
    ensures PannedX(app, shift) == app.(renderingIx := PannedX(app, shift).renderingIx)
    ensures 0 <= shift ==> PannedX(app, shift).renderingIx <= app.nx
    ensures shift < 0 ==> PannedX(app, shift).renderingIx <= app.renderingIx
  {
  }

  /** Panning vertically changes only the vertical offset, and keeps it within `[0, ny]` when moving down. */
  lemma PanYChangesOnlyIy(app: AppView, shift: isize)
    ensures PannedY(app, shift) == app.(renderingIy := PannedY(app, shift).renderingIy)
    ensures 0 <= shift ==> PannedY(app, shift).renderingIy <= app.ny
    ensures shift < 0 ==> PannedY(app, shift).renderingIy <= app.renderingIy
  {
  }

  /** Every transition keeps the grid size and a world of `nx * ny` cells. */
  lemma TransitionsKeepWellFormed(app: AppView, cells: seq<Cell>, shift: isize)
    requires app.WellFormed()
    ensures Ticked(app).WellFormed() && Toggled(app).WellFormed() && Quitted(app).WellFormed()
    ensures PannedX(app, shift).WellFormed() && PannedY(app, shift).WellFormed()
    ensures ResetWith(app, cells).Ok? ==> ResetWith(app, cells).value.WellFormed()
    ensures ResetWith(app, cells).Ok? ==>
      ResetWith(app, cells).value.nx == app.nx && ResetWith(app, cells).value.ny == app.ny
  {
  }

  // ---------------------------------------------------------------------------
  // The app object
  // ---------------------------------------------------------------------------

  /** `App`, whose methods update its fields in place. */
  class App {
    var gen: u64
    var state: AppState
    var nx: usize
    var ny: usize
    var world: seq<Cell>
    var renderingIx: usize
    var renderingIy: usize

    /** The current field values. */
    function View(): AppView
      reads this
    {
      AppView(gen, state, nx, ny, world, renderingIx, renderingIy)
    }

    ghost predicate Valid()
      reads this
    {
      View().WellFormed()
    }

    /**
      `App::default`, with the randomly sampled cells as an input; sampling yields
      exactly `nx * ny` of them, so the size check of `World::new` passes.
     */
    constructor Default(cells: seq<Cell>)
      requires |cells| == DEFAULT_NX * DEFAULT_NY
      ensures Valid() && View() == DefaultApp(cells)
      ensures state == Pause && gen == 0 && renderingIx == 0 && renderingIy == 0
      ensures nx == 120 && ny == 60
    {
      gen := 0;
      state := Pause;
      nx := DEFAULT_NX;
      ny := DEFAULT_NY;
      world := cells;
      renderingIx := 0;
      renderingIy := 0;
    }

    /** `tick`. */
    method Tick()
      requires Valid()
      modifies this
      ensures Valid() && View() == Ticked(old(View()))
    {
      if state == Run {
        gen := SaturatingAddU64(gen, 1);
        world := Life.Step(nx, ny, world);
      }
    }

    /** `toggle`. */
    method Toggle()
      requires Valid()
      modifies this
      ensures Valid() && View() == Toggled(old(View()))
    {
      match state {
        case Pause => state := Run;
        case Run => state := Pause;
        case Quit =>
      }
    }

    /**
      `reset`, with `cells` standing for the freshly sampled cells. A failed
      `World::new` returns its error before any field is assigned.
     */
    method Reset(cells: seq<Cell>) returns (r: Result<()>)
      requires Valid()
      modifies this
      ensures Valid()
      ensures r.Err? <==> ResetWith(old(View()), cells).Err?
      ensures r.Err? ==> r.msg == INVALID_CELL_SIZE && View() == old(View())
      ensures r.Ok? ==> View() == ResetWith(old(View()), cells).value
    {
      if CanReset(View()) {
        var newWorld := Life.World.New(nx, ny, cells);
        if newWorld.Err? {
          return Err(newWorld.msg);
        }
        world := newWorld.value.Contents();
        gen := 0;
        renderingIx := 0;
        renderingIy := 0;
      }
      return Ok(());
    }

    /** `pan_x`. */
    method PanX(shift: isize)
      requires Valid()
      modifies this
      ensures Valid() && View() == PannedX(old(View()), shift)
    {
      renderingIx := CalculatePannedIndex(renderingIx, shift, nx);
    }

    /** `pan_y`. */
    method PanY(shift: isize)
      requires Valid()
      modifies this
      ensures Valid() && View() == PannedY(old(View()), shift)
    {
      renderingIy := CalculatePannedIndex(renderingIy, shift, ny);
    }

    /** `quit`. */
    method Quit()
      requires Valid()
      modifies this
      ensures Valid() && View() == Quitted(old(View()))
    {
      state := AppState.Quit;
    }
  }
}
