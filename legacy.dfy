/**
  The earlier engine (lifegame-core/src/legacy.rs): the grid is stored with a one-cell
  border, and out-of-grid neighbours are resolved by a swappable locator, either the
  plane (everything outside is dead) or the torus (coordinates wrap around).
 */
module Legacy {
  import opened Results
  import Life

  type Cell = Life.Cell

  const CELL_DEAD: Cell := Life.CELL_DEAD
  const CELL_ALIVE: Cell := Life.CELL_ALIVE

  /** The two boundary conditions a world can be given. */
  datatype WorldBound = Plane | Torus

  // ---------------------------------------------------------------------------
  // Cyclic indexing
  // ---------------------------------------------------------------------------

  function Abs(x: int): nat {
    if x < 0 then -x else x
  }

  /** Quotient and remainder are determined by `x == q * b + r` with `0 <= r < b`. */
  lemma DivModUnique(x: int, b: int, q: int, r: int)
    requires 0 < b && x == q * b + r && 0 <= r < b
    ensures x / b == q && x % b == r
  {
    var q', r' := x / b, x % b;
    assert x == q' * b + r' && 0 <= r' < b;
    if q > q' {
      Life.MulMonotone(1, q - q', b);
      assert false;
    } else if q < q' {
      Life.MulMonotone(1, q' - q, b);
      assert false;
    }
  }

  /** Shifting a number down by the modulus keeps its remainder. */
  lemma ModShiftDown(x: int, b: int)
    requires 0 < b
    ensures (x - b) % b == x % b
  {
    DivModUnique(x - b, b, x / b - 1, x % b);
  }

  /** A number in `[-b, 0)` has `x + b` as its remainder modulo `b`. */
  lemma ModOfNegativeAboveMinusBound(x: int, b: int)
    requires 0 < b && -b <= x < 0
    ensures x % b == x + b
  {
    DivModUnique(x, b, -1, x + b);
  }

  /** A number in `[0, b)` is its own remainder modulo `b`. */
  lemma ModOfInRange(x: int, b: int)
    requires 0 <= x < b
    ensures x % b == x
  {
    DivModUnique(x, b, 0, x);
  }

  /** Rust's `%` on signed integers: the remainder of division truncated toward zero. */
  function Rem(a: int, b: int): (r: int)
    requires b != 0
    ensures Abs(r) < Abs(b)
    ensures 0 <= a ==> 0 <= r
    ensures a < 0 ==> r <= 0
  {
    if a >= 0 then a % Abs(b) else -((-a) % Abs(b))
  }

  /** The truncated remainder leaves a multiple of the divisor: `a - Rem(a, b)` divides by `b`. */
  lemma RemLeavesMultiple(a: int, b: int)
    requires b != 0
    ensures (a - Rem(a, b)) % Abs(b) == 0
  {
    var m := Abs(b);
    if a >= 0 {
      DivModUnique(a - Rem(a, b), m, a / m, 0);
    } else {
      DivModUnique(a - Rem(a, b), m, -((-a) / m), 0);
    }
  }

  /**
    `get_index_with_cyclic_bound`: wraps `ix` into `[0, bound)`. Below zero it takes the
    absolute value of the truncated remainder of `ix + bound`; at or above `bound` the
    remainder of `ix`; in range, `ix` itself. A zero bound makes the remainder panic.
   */
  function CyclicIndex(ix: int, bound: int): (r: int)
    requires bound != 0
    ensures 0 < bound ==> 0 <= r < bound
  {
    if ix < 0 then Abs(Rem(ix + bound, bound))
    else if ix >= bound then Rem(ix, bound)
    else ix
  }

  /**
    From one bound below zero upwards the cyclic index is the true modulo: `ix` in range,
    `ix % bound` at or above the bound and `ix + bound` for `-bound <= ix < 0`.
   */
  lemma CyclicIndexIsModulo(ix: int, bound: int)
    requires 0 < bound && -bound <= ix
    ensures CyclicIndex(ix, bound) == ix % bound
    ensures 0 <= ix < bound ==> CyclicIndex(ix, bound) == ix
    ensures ix < 0 ==> CyclicIndex(ix, bound) == ix + bound
  {
    if ix < 0 {
      ModOfNegativeAboveMinusBound(ix, bound);
      ModOfInRange(ix + bound, bound);
    } else if ix < bound {
      ModOfInRange(ix, bound);
    }
  }

  /**
    More than one bound below zero the index is mirrored instead of wrapped: the result
    is `(-ix) % bound`, the remainder of the distance from zero, not `ix % bound`.
   */
  lemma CyclicIndexMirrorsFarBelow(ix: int, bound: int)
    requires 0 < bound && ix < -bound
    ensures CyclicIndex(ix, bound) == (-ix) % bound
  {
    ModShiftDown(-ix, bound);
  }

  /** The expectations of `test_cyclic_bound`, with a bound of ten. */
  lemma CyclicBoundTests()
    ensures CyclicIndex(-21, 10) == 1
    ensures CyclicIndex(-1, 10) == 9
    ensures CyclicIndex(0, 10) == 0
    ensures CyclicIndex(9, 10) == 9
    ensures CyclicIndex(10, 10) == 0
    ensures CyclicIndex(21, 10) == 1
  {
    CyclicIndexMirrorsFarBelow(-21, 10);
  }

  /** `-21` wraps to `1` where the modulo of a true torus would give `9`. */
  lemma CyclicIndexIsNotModuloFarBelow()
    ensures CyclicIndex(-21, 10) != (-21) % 10
  {
    CyclicIndexMirrorsFarBelow(-21, 10);
    DivModUnique(-21, 10, -3, 9);
  }

  // ---------------------------------------------------------------------------
  // Locating cells
  // ---------------------------------------------------------------------------

  /** `WorldConfig`: the stored width and height and the row-major bit buffer. */
  datatype WorldConfig = WorldConfig(nx: nat, ny: nat, cells: seq<Cell>) {
    /** The buffer holds one cell per stored coordinate. */
    predicate WellFormed() {
      |cells| == nx * ny
    }
  }

  /** The two `CellLocatable` implementations; the trait object becomes a tag. */
  datatype Locator = PlaneBoundedCellLocator | TorusBoundedCellLocator {

    /** `get_cell_index`: the row-major position, as in the current engine. */
    function GetCellIndex(config: WorldConfig, ix: nat, iy: nat): (k: nat)
      ensures k == Life.BitIndex(config.nx, config.ny, ix, iy)
      ensures ix < config.nx && iy < config.ny ==> k < config.nx * config.ny
    {
      iy * config.nx + ix
    }

    /** `get_cell`: the stored cell at an exact position; the bit vector panics past its end. */
    function GetCell(config: WorldConfig, ix: nat, iy: nat): (c: Cell)
      requires GetCellIndex(config, ix, iy) < |config.cells|
      ensures config.WellFormed() && ix < config.nx && iy < config.ny ==>
        c == Life.CellAt(config.nx, config.ny, config.cells, ix, iy)
    {
      config.cells[GetCellIndex(config, ix, iy)]
    }

    /**
      `get_neighbour_cell`: the cell at a point that may lie outside the grid. Both
      locators read an in-range point as stored; the plane one makes every other point
      dead, exactly like the lookup of the current engine. The torus locator needs a
      non-empty grid, since its remainder by zero panics.
     */
    function GetNeighbourCell(config: WorldConfig, ix: int, iy: int): (c: Cell)
      requires config.WellFormed()
      requires TorusBoundedCellLocator? ==> 0 < config.nx && 0 < config.ny
      ensures 0 <= ix < config.nx && 0 <= iy < config.ny ==> c == GetCell(config, ix, iy)
      ensures PlaneBoundedCellLocator? && !(0 <= ix < config.nx && 0 <= iy < config.ny) ==> c == CELL_DEAD
      ensures PlaneBoundedCellLocator? ==> c == Life.PlaneCell(config.nx, config.ny, config.cells, ix, iy)
    {
      match this
      case PlaneBoundedCellLocator =>
        if ix < 0 || iy < 0 || ix >= config.nx || iy >= config.ny then CELL_DEAD
        else GetCell(config, ix, iy)
      case TorusBoundedCellLocator =>
        GetCell(config, CyclicIndex(ix, config.nx), CyclicIndex(iy, config.ny))
    }
  }

  /** `make_cell_identifier`: the locator implementing a boundary condition. */
  function MakeCellIdentifier(wb: WorldBound): (locator: Locator)
    ensures BoundOf(locator) == wb
  {
    match wb
    case Torus => TorusBoundedCellLocator
    case Plane => PlaneBoundedCellLocator
  }

  /** The boundary condition a locator implements. */
  function BoundOf(locator: Locator): WorldBound {
    match locator
    case TorusBoundedCellLocator => Torus
    case PlaneBoundedCellLocator => Plane
  }

  /** Every locator is the one made for its own boundary condition. */
  lemma MakeCellIdentifierOfBound(locator: Locator)
    ensures MakeCellIdentifier(BoundOf(locator)) == locator
  {
  }

  /**
    Within one grid extent outside the grid, the torus locator reads the stored cell at
    the coordinates taken modulo the grid size.
   */
  lemma TorusNeighbourIsModulo(config: WorldConfig, ix: int, iy: int)
    requires config.WellFormed() && 0 < config.nx && 0 < config.ny
    requires 0 <= ix + config.nx && 0 <= iy + config.ny
    ensures 0 <= ix % config.nx < config.nx && 0 <= iy % config.ny < config.ny
    ensures TorusBoundedCellLocator.GetNeighbourCell(config, ix, iy)
      == Life.CellAt(config.nx, config.ny, config.cells, ix % config.nx, iy % config.ny)
  {
    CyclicIndexIsModulo(ix, config.nx);
    CyclicIndexIsModulo(iy, config.ny);
  }

  /** Within that band, shifting a point by one grid extent reads the same torus cell. */
  lemma TorusIsPeriodic(config: WorldConfig, ix: int, iy: int)
    requires config.WellFormed() && 0 < config.nx && 0 < config.ny
    requires 0 <= ix + config.nx && 0 <= iy + config.ny
    ensures TorusBoundedCellLocator.GetNeighbourCell(config, ix + config.nx, iy)
      == TorusBoundedCellLocator.GetNeighbourCell(config, ix, iy)
    ensures TorusBoundedCellLocator.GetNeighbourCell(config, ix, iy + config.ny)
      == TorusBoundedCellLocator.GetNeighbourCell(config, ix, iy)
  {
    TorusNeighbourIsModulo(config, ix, iy);
    TorusNeighbourIsModulo(config, ix + config.nx, iy);
    TorusNeighbourIsModulo(config, ix, iy + config.ny);
    ModShiftDown(ix + config.nx, config.nx);
    ModShiftDown(iy + config.ny, config.ny);
  }

  /**
    The torus never makes a point dead for lying outside the grid: on a grid of alive
    cells every point is alive there, while the plane kills every point outside.
   */
  lemma TorusHasNoDeadBorder(config: WorldConfig, ix: int, iy: int)
    requires config.WellFormed() && 0 < config.nx && 0 < config.ny
    requires forall k :: 0 <= k < |config.cells| ==> config.cells[k] == CELL_ALIVE
    ensures TorusBoundedCellLocator.GetNeighbourCell(config, ix, iy) == CELL_ALIVE
    ensures PlaneBoundedCellLocator.GetNeighbourCell(config, ix, iy) == CELL_ALIVE
      <==> 0 <= ix < config.nx && 0 <= iy < config.ny
  {
    var jx, jy := CyclicIndex(ix, config.nx), CyclicIndex(iy, config.ny);
    assert TorusBoundedCellLocator.GetCellIndex(config, jx, jy) < |config.cells|;
    if 0 <= ix < config.nx && 0 <= iy < config.ny {
      assert PlaneBoundedCellLocator.GetCellIndex(config, ix, iy) < |config.cells|;
    }
  }

  /** The expectations of the plane half of `test_neighbour`, on its 2 x 2 all-alive grid. */
  lemma PlaneNeighbourTests()
    ensures var config := WorldConfig(2, 2, [CELL_ALIVE, CELL_ALIVE, CELL_ALIVE, CELL_ALIVE]);
      && PlaneBoundedCellLocator.GetNeighbourCell(config, -1, -1) == CELL_DEAD
      && PlaneBoundedCellLocator.GetNeighbourCell(config, -1, 0) == CELL_DEAD
      && PlaneBoundedCellLocator.GetNeighbourCell(config, 0, 0) == CELL_ALIVE
      && PlaneBoundedCellLocator.GetNeighbourCell(config, 1, 1) == CELL_ALIVE
      && PlaneBoundedCellLocator.GetNeighbourCell(config, 2, 2) == CELL_DEAD
  {
  }

  /** The expectations of the torus half of `test_neighbour`, on the 2 x 2 grid `10/01`. */
  lemma TorusNeighbourTests()
    ensures var config := WorldConfig(2, 2, [CELL_ALIVE, CELL_DEAD, CELL_DEAD, CELL_ALIVE]);
      && TorusBoundedCellLocator.GetNeighbourCell(config, -1, -1) == CELL_ALIVE
      && TorusBoundedCellLocator.GetNeighbourCell(config, -1, 0) == CELL_DEAD
      && TorusBoundedCellLocator.GetNeighbourCell(config, 0, 0) == CELL_ALIVE
      && TorusBoundedCellLocator.GetNeighbourCell(config, 1, 1) == CELL_ALIVE
      && TorusBoundedCellLocator.GetNeighbourCell(config, 2, 2) == CELL_ALIVE
  {
    var config := WorldConfig(2, 2, [CELL_ALIVE, CELL_DEAD, CELL_DEAD, CELL_ALIVE]);
    TorusNeighbourIsModulo(config, -1, -1);
    TorusNeighbourIsModulo(config, -1, 0);
    TorusNeighbourIsModulo(config, 2, 2);
    ModOfNegativeAboveMinusBound(-1, 2);
    ModShiftDown(2, 2);
  }

  /**
    A single alive corner cell of a 3 x 3 grid is seen across the far corner on the
    torus but not on the plane.
   */
  lemma PlaneAndTorusDiverge()
    ensures var config := WorldConfig(3, 3, [CELL_ALIVE, CELL_DEAD, CELL_DEAD,
                                             CELL_DEAD, CELL_DEAD, CELL_DEAD,
                                             CELL_DEAD, CELL_DEAD, CELL_DEAD]);
      && PlaneBoundedCellLocator.GetNeighbourCell(config, 3, 3) == CELL_DEAD
      && TorusBoundedCellLocator.GetNeighbourCell(config, 3, 3) == CELL_ALIVE
  {
  }

  // ---------------------------------------------------------------------------
  // The padded bit buffer
  // ---------------------------------------------------------------------------

  /**
    The source position `to_bitvec` reads for the buffer position `p` it writes, as
    the formula `(nx - 1) * (iy - 1) + ix - 1` with `p == nx * iy + ix`. It lies inside
    the input.
   */
  function SourcePosition(nx: nat, ny: nat, p: nat): (k: nat)
    requires nx + 1 <= p <= nx * (ny + 1)
    ensures k < nx * ny
  {
    SourcePositionInRange(nx, ny, p);
    (nx - 1) * ((p - 1) / nx - 1) + (p - 1) % nx
  }

  /** The row `(p - 1) / nx` of a written position is in `1 ..= ny`, so the formula stays inside the input. */
  lemma SourcePositionInRange(nx: nat, ny: nat, p: nat)
    requires nx + 1 <= p <= nx * (ny + 1)
    ensures 0 < nx && 1 <= (p - 1) / nx <= ny
    ensures 0 <= (nx - 1) * ((p - 1) / nx - 1) + (p - 1) % nx < nx * ny
  {
    if nx == 0 {
      assert false;
    }
    var q, r := (p - 1) / nx, (p - 1) % nx;
    WrittenRow(nx, ny, p, q, r);
    SourceBound(nx, ny, q, r);
  }

  /** A written position `p == nx * q + r + 1` lies on a row `q` in `1 ..= ny`. */
  lemma WrittenRow(nx: nat, ny: nat, p: nat, q: int, r: int)
    requires nx + 1 <= p <= nx * (ny + 1)
    requires p - 1 == q * nx + r && 0 <= r < nx
    ensures 1 <= q <= ny
  {
    if q < 1 {
      Life.MulMonotone(q, 0, nx);
      assert false;
    }
    if q > ny {
      Life.MulMonotone(ny + 1, q, nx);
      assert false;
    }
  }

  /** Row `q` and column `r` of the padded formula pick a cell of an `nx * ny` input. */
  lemma SourceBound(nx: nat, ny: nat, q: int, r: int)
    requires 1 <= q <= ny && 0 <= r < nx
    ensures 0 <= (nx - 1) * (q - 1) + r < nx * ny
  {
    Life.MulMonotone(q - 1, ny - 1, nx - 1);
    assert (nx - 1) * (ny - 1) + nx - 1 == nx * ny - ny;
    Life.MulMonotone(0, q - 1, nx - 1);
  }

  /** The padded buffer is larger than the last position `to_bitvec` writes. */
  lemma PaddedSizeBound(nx: nat, ny: nat)
    ensures nx * (ny + 1) < (nx + 2) * (ny + 2)
  {
  }

  /**
    `to_bitvec` of the padded engine, exactly as written: a dead buffer of
    `(nx + 2) * (ny + 2)` cells in which position `p` from `nx + 1` to `nx * (ny + 1)`
    holds the input cell at `SourcePosition(nx, ny, p)`.
   */
  function PaddedBits(nx: nat, ny: nat, bits: seq<Cell>): (padded: seq<Cell>)
    requires |bits| == nx * ny
    ensures |padded| == (nx + 2) * (ny + 2)
  {
    seq((nx + 2) * (ny + 2), p requires 0 <= p < (nx + 2) * (ny + 2) =>
      if nx + 1 <= p <= nx * (ny + 1) then bits[SourcePosition(nx, ny, p)] else CELL_DEAD)
  }

  /** As written, the padded buffer of the 2 x 2 grid `00/01` loses its alive cell. */
  lemma PaddedBitsDropsLastCell()
    ensures var padded := PaddedBits(2, 2, [CELL_DEAD, CELL_DEAD, CELL_DEAD, CELL_ALIVE]);
      forall p :: 0 <= p < |padded| ==> padded[p] == CELL_DEAD
  {
    var bits := [CELL_DEAD, CELL_DEAD, CELL_DEAD, CELL_ALIVE];
    var padded := PaddedBits(2, 2, bits);
    forall p | 0 <= p < |padded|
      ensures padded[p] == CELL_DEAD
    {
      if 3 <= p <= 6 {
        assert SourcePosition(2, 2, p) < 3;
      }
    }
  }

  /**
    The write of `to_bitvec` at row `iy` and column `ix`, from `source` to `position`, is
    the one `PaddedBits` describes.
   */
  lemma PaddedBitsAt(nx: nat, ny: nat, bits: seq<Cell>, ix: nat, iy: nat, position: int, source: int)
    requires |bits| == nx * ny && 1 <= ix <= nx && 1 <= iy <= ny
    requires position == nx * iy + ix && source == (nx - 1) * (iy - 1) + ix - 1
    ensures nx + 1 <= position <= nx * (ny + 1) < (nx + 2) * (ny + 2)
    ensures 0 <= source < |bits|
    ensures PaddedBits(nx, ny, bits)[position] == bits[source]
  {
    Life.MulMonotone(iy + 1, ny + 1, nx);
    PaddedSizeBound(nx, ny);
    assert position - 1 == iy * nx + (ix - 1);
    Life.RowMajorDecode(nx, ix - 1, iy);
    assert source == SourcePosition(nx, ny, position);
  }

  /** `to_bitvec`: fills a fresh padded buffer row by row, as `PaddedBits` describes. */
  method ToBitvec(nx: nat, ny: nat, bits: seq<Cell>) returns (bitvec: array<Cell>)
    requires |bits| == nx * ny
    ensures fresh(bitvec)
    ensures bitvec[..] == PaddedBits(nx, ny, bits)
  {
    ghost var padded := PaddedBits(nx, ny, bits);
    PaddedSizeBound(nx, ny);
    bitvec := new Cell[(nx + 2) * (ny + 2)](_ => CELL_DEAD);
    ghost var rowEnd := nx;
    for iy := 1 to ny + 1
      invariant rowEnd == nx * iy
      invariant forall p :: 0 <= p < bitvec.Length ==>
        bitvec[p] == if nx + 1 <= p <= rowEnd then padded[p] else CELL_DEAD
    {
      for ix := 1 to nx + 1
        invariant forall p :: 0 <= p < bitvec.Length ==>
          bitvec[p] == if nx + 1 <= p < rowEnd + ix then padded[p] else CELL_DEAD
      {
        var position, source := nx * iy + ix, (nx - 1) * (iy - 1) + ix - 1;
        PaddedBitsAt(nx, ny, bits, ix, iy, position, source);
        bitvec[position] := bits[source];
      }
      assert nx * (iy + 1) == rowEnd + nx;
      rowEnd := rowEnd + nx;
    }
  }

  // ---------------------------------------------------------------------------
  // The world
  // ---------------------------------------------------------------------------

  /**
    The rule expression of the padded engine's `next`: alive on three neighbours, or on
    two when alive already. It agrees with the branches of the current engine.
   */
  function NextCellState(cell: Cell, numAliveNeighbours: nat): (next: Cell)
    ensures next == Life.NextState(cell, numAliveNeighbours)
  {
    numAliveNeighbours == 3 || (numAliveNeighbours == 2 && cell)
  }

  /** `World`: the padded configuration and the locator of its boundary condition. */
  class World {
    var config: WorldConfig
    var locator: Locator

    constructor FromConfig(config: WorldConfig, locator: Locator)
      ensures this.config == config && this.locator == locator
    {
      this.config := config;
      this.locator := locator;
    }

    /**
      `World::new`: fails when the cell count is not `nx * ny`; otherwise stores a
      grid two cells wider and higher, filled by `to_bitvec`, on the plane.
     */
    static method New(nx: nat, ny: nat, cells: seq<Cell>) returns (r: Result<World>)
      ensures r.Err? <==> |cells| != nx * ny
      ensures r.Err? ==> r.msg == INVALID_CELL_SIZE
      ensures r.Ok? ==> fresh(r.value)
      ensures r.Ok? ==> r.value.config == WorldConfig(nx + 2, ny + 2, PaddedBits(nx, ny, cells))
      ensures r.Ok? ==> r.value.config.WellFormed()
      ensures r.Ok? ==> r.value.locator == MakeCellIdentifier(Plane)
    {
      if |cells| != nx * ny {
        return Err(INVALID_CELL_SIZE);
      }
      var bitvec := ToBitvec(nx, ny, cells);
      var world := new World.FromConfig(
        WorldConfig(nx + 2, ny + 2, bitvec[..]), MakeCellIdentifier(Plane));
      return Ok(world);
    }

    /** `set_bound`: installs the locator of `wb` and leaves the configuration alone. */
    method SetBound(wb: WorldBound)
      modifies this`locator
      ensures locator == MakeCellIdentifier(wb)
      ensures BoundOf(locator) == wb
      ensures config == old(config)
    {
      locator := MakeCellIdentifier(wb);
    }

    /** `World::get_cell`: the stored cell at an exact position, through the locator. */
    function GetCell(ix: nat, iy: nat): (c: Cell)
      reads this
      requires locator.GetCellIndex(config, ix, iy) < |config.cells|
      ensures config.WellFormed() && ix < config.nx && iy < config.ny ==>
        c == Life.CellAt(config.nx, config.ny, config.cells, ix, iy)
    {
      locator.GetCell(config, ix, iy)
    }
  }
}
