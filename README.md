# Game of Life engine and terminal app: a Dafny model

This project models the core of `lifegame-rust`, which runs Conway's Game of Life on a
fixed-size grid:

- **`life.dfy`, module `Life`**: the current engine (`lifegame-core/src/lib.rs`).
  A `World` stores `nx * ny` cells row-major in one flat bit buffer.
  `next` computes every new cell from the current buffer into a fresh buffer and then
  swaps it in. A cell is born on three alive neighbours and survives on two or three
  (B3/S23). Every point outside the grid counts as dead.
  `World.Next` is proved to leave exactly `Step(old cells)` in the buffer.
  `Step` is the pure generation function; lemmas state the rule cell by cell, that
  `Step` is the only grid obeying it, that an all-dead grid stays dead, and the four
  scenarios of the unit tests.
- **`legacy.dfy`, module `Legacy`**: the earlier engine (`lifegame-core/src/legacy.rs`).
  It covers:
  - the signed cyclic index `get_index_with_cyclic_bound`;
  - the plane and torus locators, with the `Box<dyn CellLocatable>` trait object
    modelled as a two-variant datatype;
  - `make_cell_identifier`, `World::new`, `set_bound` and `World::get_cell`;
  - the padded `to_bitvec`, exactly as written;
  - the rule expression of its `next`.
- **`app.dfy`, module `TuiApp`**: the terminal app state (`lifegame-tui/src/app.rs`).
  It is a `Run` / `Pause` / `Quit` machine with a saturating generation counter, a
  reset allowed only while paused, and clamped panning offsets. The world is kept as
  its cell buffer, and a tick applies `Life.Step`. The methods of the `App` class are
  specified by pure transition functions on an `AppView` value, and the lemmas are
  stated about those functions.
- **`handler.dfy`, module `Handler`**: the key bindings (`lifegame-tui/src/handler.rs`).
  The key code and its modifier bits are small datatypes.
- **`machine_ints.dfy`, module `MachineInts`**: `u64` / `usize` / `isize` on a 64-bit
  target, plus the saturating operations the app calls.
- **`results.dfy`, module `Results`**: the `Result` type for the error returns.

Facts about the code worth knowing when reading the model:

- `lib.rs`'s `World` has no generation counter and no torus mode. Only the legacy
  engine has boundary modes, and only the app counts generations.
- Neither engine requires `nx, ny > 0`. The torus locator alone needs a non-empty grid,
  because it takes a remainder by the grid size.
- Below one grid extent outside the grid, the torus wrap of the legacy engine is not
  the true modulo. For `ix < -bound` it returns `(-ix) % bound`, and its own unit test
  pins `-21 ↦ 1` for a bound of 10. Neighbour lookups never reach that range; the
  model states both regimes.
- The unit test of the legacy locators goes through a padded `World` and calls a
  method `World` does not have. The model states the same expectations on a
  configuration holding the unpadded 2 x 2 grid.

## Model

| member | source | states |
|---|---|---|
| `Life.BitIndex` | lifegame-core/src/lib.rs:28-30 | an in-range coordinate `(ix, iy)` has its flat index `iy * nx + ix` inside the `nx * ny` buffer |
| `Life.BitIndexDecodes` | lifegame-core/src/lib.rs:28-30 | the flat index decodes back to the coordinate: column `k % nx`, row `k / nx` |
| `Life.BitIndexInjective` | lifegame-core/src/lib.rs:28-30 | distinct in-range coordinates occupy distinct bits, so each write of `next` hits its own cell |
| `Life.PlaneCell` | lifegame-core/src/lib.rs:71-77 | the lookup closure of `neighbours`: alive only inside `[0,nx) x [0,ny)`, where it is the stored cell |
| `Life.MooreNeighbourhood` | lifegame-core/src/lib.rs:79-88 | exactly eight distinct offsets are examined, all adjacent and none the cell itself |
| `Life.Neighbours` | lifegame-core/src/lib.rs:70-90 | the neighbour bitmap has one entry per Moore offset |
| `Life.CountAlive` | lifegame-core/src/lib.rs:41 | the filtered count is at most the length and is zero exactly when no cell is alive |
| `Life.CountAliveIsMultiplicity` | lifegame-core/src/lib.rs:41 | the filtered count is the number of `CELL_ALIVE` occurrences |
| `Life.AliveNeighbours` | lifegame-core/src/lib.rs:41 | a cell never has more than eight alive neighbours |
| `Life.NextState` | lifegame-core/src/lib.rs:42-63 | the four branches (born, underpopulated, survive, overpopulated) amount to: alive iff three neighbours, or two and alive |
| `Life.Step` | lifegame-core/src/lib.rs:36-67 | a generation has the same number of cells as the grid it came from |
| `Life.StepRule` | lifegame-core/src/lib.rs:37-67 | every in-range cell of `Step` is alive iff it had 3 alive neighbours, or 2 and was alive, all counted in the old grid |
| `Life.StepUnique` | lifegame-core/src/lib.rs:37-67 | any grid obeying that rule cell by cell equals `Step`, so the successor is determined |
| `Life.ToBitvec` | lifegame-core/src/lib.rs:93-99 | the loop leaves a fresh buffer holding exactly the given bits |
| `Life.World.New` | lifegame-core/src/lib.rs:17-26 | fails with "invalid cell size." iff the length is not `nx * ny` (so 1 and 5 cells fail for 2 x 2); on success stores the dimensions and cells as given, so `cell(ix, iy) == cells[iy * nx + ix]` |
| `Life.World.Cell` | lifegame-core/src/lib.rs:32-34 | an in-range read is the stored cell, the same value the neighbour lookup gives |
| `Life.World.Next` | lifegame-core/src/lib.rs:36-68 | keeps `nx`, `ny` and the cell count; the new buffer is fresh and equals `Step` of the old buffer |
| `Life.NoAliveNeighbours` | lifegame-core/src/lib.rs:70-89 | in an all-dead grid every point, in range or not, has zero alive neighbours |
| `Life.StepKeepsAllDead` | lifegame-core/src/lib.rs:42-50 | an all-dead grid stays all dead after a generation |
| `Life.AliveNeighboursIsSum` | lifegame-core/src/lib.rs:79-88 | the count of the neighbour bitmap is the sum of its eight lookups |
| `Life.StepFromRule` | lifegame-core/src/lib.rs:37-67 | a grid that passes the rule at every flat position, one by one, equals `Step` |
| `Life.RuleBorn` | lifegame-core/src/lib.rs:121-146 | `110/100/000` becomes `110/110/000` |
| `Life.RuleSurvive` | lifegame-core/src/lib.rs:148-175 | a 2 x 2 block in a dead 4 x 4 grid is unchanged |
| `Life.RuleDeadWithUnderpopulated` | lifegame-core/src/lib.rs:177-202 | `000/011/000` becomes all dead |
| `Life.RuleDeadWithOverpopulated` | lifegame-core/src/lib.rs:204-229 | `111/110/000` becomes `101/101/000` |
| `Legacy.Rem` | lifegame-core/src/legacy.rs:20-22 | Rust's signed `%`: smaller in magnitude than the divisor, with the sign of the dividend |
| `Legacy.RemLeavesMultiple` | lifegame-core/src/legacy.rs:20-22 | the dividend minus the truncated remainder is a multiple of the divisor |
| `Legacy.CyclicIndex` | lifegame-core/src/legacy.rs:17-26 | for a positive bound the result always lies in `[0, bound)` |
| `Legacy.CyclicIndexIsModulo` | lifegame-core/src/legacy.rs:18-26 | for `ix >= -bound` the result is `ix % bound`: `ix` in range, the remainder above, `ix + bound` in `[-bound, 0)` |
| `Legacy.CyclicIndexMirrorsFarBelow` | lifegame-core/src/legacy.rs:19-20 | for `ix < -bound` the result is `|(ix + bound) rem bound|`, which equals `(-ix) % bound`, not the true modulo |
| `Legacy.CyclicBoundTests` | lifegame-core/src/legacy.rs:176-184 | -21 ↦ 1, -1 ↦ 9, 0 ↦ 0, 9 ↦ 9, 10 ↦ 0, 21 ↦ 1 with bound 10 |
| `Legacy.CyclicIndexIsNotModuloFarBelow` | lifegame-core/src/legacy.rs:178 | the tested -21 ↦ 1 differs from the true modulo 9 |
| `Legacy.Locator.GetCellIndex` | lifegame-core/src/legacy.rs:36-39 | the default index is the row-major index of the current engine, inside the buffer for in-range points |
| `Legacy.Locator.GetCell` | lifegame-core/src/legacy.rs:41-45 | an exact in-range read is the stored cell of the row-major grid |
| `Legacy.Locator.GetNeighbourCell` | lifegame-core/src/legacy.rs:47-75 | both locators read in-range points as stored; the plane locator gives dead outside `[0,nx) x [0,ny)` and coincides with the current engine's lookup |
| `Legacy.TorusNeighbourIsModulo` | lifegame-core/src/legacy.rs:67-75 | within one extent outside the grid, the torus reads the stored cell at the coordinates taken modulo the grid size |
| `Legacy.TorusIsPeriodic` | lifegame-core/src/legacy.rs:67-75 | within that band, a shift by `nx` or by `ny` reads the same torus cell |
| `Legacy.TorusHasNoDeadBorder` | lifegame-core/src/legacy.rs:51-75 | on an all-alive grid the torus gives alive everywhere; the plane gives alive exactly in range |
| `Legacy.PlaneAndTorusDiverge` | lifegame-core/src/legacy.rs:51-75 | a lone alive corner is seen across the far corner on the torus but not on the plane |
| `Legacy.PlaneNeighbourTests` | lifegame-core/src/legacy.rs:187-198 | on the all-alive 2 x 2 grid, (-1,-1) and (-1,0) and (2,2) are dead, (0,0) and (1,1) alive |
| `Legacy.TorusNeighbourTests` | lifegame-core/src/legacy.rs:200-211 | on `10/01` under the torus, (-1,-1), (0,0), (1,1) and (2,2) are alive and (-1,0) dead; the diagonal wrap reaches (1,1) |
| `Legacy.MakeCellIdentifier` | lifegame-core/src/legacy.rs:77-82 | the locator made for a boundary condition implements that condition |
| `Legacy.MakeCellIdentifierOfBound` | lifegame-core/src/legacy.rs:77-82 | every locator is the one made for its own boundary condition, so the two are in one-to-one correspondence |
| `Legacy.SourcePosition` | lifegame-core/src/legacy.rs:150 | the input position `to_bitvec` reads for each buffer position it writes lies inside the input |
| `Legacy.PaddedBits` | lifegame-core/src/legacy.rs:146-154 | the padded buffer has `(nx + 2) * (ny + 2)` cells |
| `Legacy.ToBitvec` | lifegame-core/src/legacy.rs:146-154 | the nested loops leave a fresh buffer equal to `PaddedBits`: dead except at positions `nx + 1 ..= nx * (ny + 1)`, each holding the input bit of the written formula |
| `Legacy.PaddedBitsDropsLastCell` | lifegame-core/src/legacy.rs:146-154 | as written, the padded buffer of `00/01` is all dead: the formula never reads the last input cell |
| `Legacy.NextCellState` | lifegame-core/src/legacy.rs:116 | the boolean rule expression agrees with the branches of the current engine for every count |
| `Legacy.World.New` | lifegame-core/src/legacy.rs:92-104 | fails iff the length is not `nx * ny`; otherwise stores dimensions `nx + 2`, `ny + 2`, the padded buffer and the plane locator |
| `Legacy.World.SetBound` | lifegame-core/src/legacy.rs:106-108 | installs the locator of the given boundary condition and leaves the configuration unchanged |
| `Legacy.World.GetCell` | lifegame-core/src/legacy.rs:128-131 | reads through the locator's exact lookup: an in-range read is the stored cell |
| `MachineInts.SaturatingAddU64` | lifegame-tui/src/app.rs:80 | `u64::saturating_add`: the sum, or `u64::MAX` where it would overflow, never below either operand |
| `MachineInts.SaturatingAdd` | lifegame-tui/src/handler.rs:31 | `usize::saturating_add`: the sum, or `usize::MAX` where it would overflow |
| `MachineInts.SaturatingSub` | lifegame-tui/src/handler.rs:27 | `usize::saturating_sub`: the difference, or zero where it would underflow |
| `MachineInts.SaturatingAddSigned` | lifegame-tui/src/app.rs:118 | `usize::saturating_add_signed`: the signed sum clamped to `[0, usize::MAX]` |
| `TuiApp.CalculatePannedIndex` | lifegame-tui/src/app.rs:116-122 | a negative shift gives `max(0, current + shift)`; a non-negative one gives `min(current + shift, upper_limit)`, never above `upper_limit` |
| `TuiApp.TickOnlyWhenRunning` | lifegame-tui/src/app.rs:77-83 | in `Run` the generation goes up by one, saturating at `u64::MAX`, the world takes one `Step` and nothing else changes; in `Pause` and `Quit` nothing changes |
| `TuiApp.TickFollowsRule` | lifegame-tui/src/app.rs:78-83 | a running tick moves the world to its B3/S23 successor |
| `TuiApp.ToggleSwapsRunAndPause` | lifegame-tui/src/app.rs:85-92 | `Run` becomes `Pause`, `Pause` becomes `Run`, `Quit` stays; no other field changes |
| `TuiApp.ToggleTwiceIsIdentity` | lifegame-tui/src/app.rs:85-92 | toggling twice restores the app |
| `TuiApp.QuitIsAbsorbing` | lifegame-tui/src/app.rs:124-127 | quit reaches `Quit` from any state and changes nothing else; toggle, tick and quit leave a quit app unchanged |
| `TuiApp.CanReset` | lifegame-tui/src/app.rs:73-75 | `can_reset`: a reset is allowed in `Pause` and refused in both `Run` and `Quit` |
| `TuiApp.ResetOnlyWhenPaused` | lifegame-tui/src/app.rs:73-104 | `can_reset` holds iff paused; when not paused, reset succeeds and changes nothing |
| `TuiApp.ResetWhilePaused` | lifegame-tui/src/app.rs:95-104 | while paused, reset fails iff the cell count is not `nx * ny`; otherwise it installs the cells with generation and offsets zero, keeping state, `nx` and `ny` |
| `TuiApp.PanXChangesOnlyIx` | lifegame-tui/src/app.rs:106-109 | `pan_x` changes only the horizontal offset, which stays at most `nx` when moving right |
| `TuiApp.PanYChangesOnlyIy` | lifegame-tui/src/app.rs:111-114 | `pan_y` changes only the vertical offset, which stays at most `ny` when moving down |
| `TuiApp.TransitionsKeepWellFormed` | lifegame-tui/src/app.rs:77-127 | no transition changes the grid size or breaks the world's `nx * ny` cell count |
| `TuiApp.App.Default` | lifegame-tui/src/app.rs:48-65 | the default app is a paused 120 x 60 world at generation 0 with offsets 0 |
| `TuiApp.App.Tick` | lifegame-tui/src/app.rs:77-83 | the fields after `tick` are the `Ticked` transition of the fields before |
| `TuiApp.App.Toggle` | lifegame-tui/src/app.rs:85-92 | the fields after `toggle` are the `Toggled` transition of the fields before |
| `TuiApp.App.Reset` | lifegame-tui/src/app.rs:94-104 | returns the error of `World::new` with the app unchanged, or succeeds with the `ResetWith` transition applied |
| `TuiApp.App.PanX` | lifegame-tui/src/app.rs:106-109 | the fields after `pan_x` are the `PannedX` transition of the fields before |
| `TuiApp.App.PanY` | lifegame-tui/src/app.rs:111-114 | the fields after `pan_y` are the `PannedY` transition of the fields before |
| `TuiApp.App.Quit` | lifegame-tui/src/app.rs:124-127 | the fields after `quit` are the `Quitted` transition of the fields before |
| `Handler.HandleKeyEvents` | lifegame-tui/src/handler.rs:5-45 | the result and the app after dispatch are those of `KeyHandled`; the app stays well formed |
| `Handler.EscOrQQuits` | lifegame-tui/src/handler.rs:8-10 | `Esc` or `q` sets the state to `Quit`, changes nothing else and returns `Ok` |
| `Handler.CtrlCQuits` | lifegame-tui/src/handler.rs:12-16 | `c` or `C` quits iff the modifiers equal exactly `CONTROL`; otherwise the app is unchanged |
| `Handler.CtrlShiftCDoesNotQuit` | lifegame-tui/src/handler.rs:13 | Control with Shift held does not count as `CONTROL` |
| `Handler.SToggles` | lifegame-tui/src/handler.rs:18-20 | `s` behaves as `toggle` |
| `Handler.RResets` | lifegame-tui/src/handler.rs:22-24 | `r` behaves as `reset`, returning its error with the app unchanged |
| `Handler.OnlyResetFails` | lifegame-tui/src/handler.rs:5-45 | a key fails iff it is `r` pressed while paused with a wrong number of cells |
| `Handler.LeftAndUpStopAtZero` | lifegame-tui/src/handler.rs:26-36 | `Left` / `Up` set the offset to `max(0, offset - 1)` and change nothing else |
| `Handler.RightAndDownSaturate` | lifegame-tui/src/handler.rs:30-40 | `Right` / `Down` set the offset to `min(offset + 1, usize::MAX)` and change nothing else |
| `Handler.RightIsNotClampedToWidth` | lifegame-tui/src/handler.rs:30-32 | unlike `pan_x`, `Right` moves the offset past `nx` |
| `Handler.OtherKeysAreIgnored` | lifegame-tui/src/handler.rs:42 | any other key returns `Ok` and leaves the app unchanged |
| `Handler.KeysKeepWellFormed` | lifegame-tui/src/handler.rs:5-45 | no key changes the grid size or the world's cell count |

## Left out

- `lifegame-tui/src/ui.rs` (rendering through the terminal library) and
  `lifegame-tui/src/main.rs` (terminal setup and the event loop) are I/O and are not
  part of this model. `lifegame-core/benches/benchmark.rs` is a timing harness.
- `random_cells` and `alive_prob` (random sampling with a floating-point probability):
  the sampled cells are an input of `App.Default`, `App.Reset` and `HandleKeyEvents`.
  `App.Default` requires exactly `120 * 60` of them, as sampling always yields
  `nx * ny`; the panic of `expect` is therefore not modelled.
- The app's `World` object is modelled as its cell buffer. `tick` applies `Life.Step`
  directly, and `reset` checks the size through `Life.World.New` and keeps its
  contents.
- The legacy `World::next`, `World::get_cell_index` (`ix + iy`) and
  `count_alive_neighbours`: the padded write and read formulas do not fit together,
  and the neighbour count subtracts from unsigned coordinates. Only the rule
  expression of `next` is modelled, by `Legacy.NextCellState`.
- The legacy unit test `test_neighbour` calls `get_cell` with negative unsigned
  arguments and a `get_neighbour_cell` that `World` does not have. Its expectations
  are stated on the locators directly.
- Machine widths: `nx * ny` and the index arithmetic are unbounded naturals (no
  `usize` overflow), and the `as isize` / `as usize` casts are identities. Saturation
  of the generation counter and of the offsets is modelled with 64-bit bounds.
- `Legacy.CyclicIndex`: the `isize` overflow of `ix + bound` near `isize::MIN` is not
  modelled.
- The key event's `kind` and `state` fields, and the individual key codes the
  handler ignores, are collapsed into `OtherKey`.
