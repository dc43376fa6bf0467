/**
  The current engine of the game (lifegame-core/src/lib.rs): a grid of `nx * ny`
  cells stored row-major in one flat bit buffer, advanced one generation at a time
  by the B3/S23 rule, with every point outside the grid counting as dead.
 */
module Life {
  import opened Results

  /** A cell is alive (`true`) or dead (`false`). */
  type Cell = bool

  const CELL_DEAD: Cell := false
  const CELL_ALIVE: Cell := true

  // ---------------------------------------------------------------------------
  // Row-major indexing
  // ---------------------------------------------------------------------------

  /** Products are monotone in the left factor, for a natural right factor. */
  lemma MulMonotone(a: int, b: int, c: nat)
    requires a <= b
    ensures a * c <= b * c
  {
  }

  /** Row-major index arithmetic: a column below the width decodes back from `iy * width + ix`. */
  lemma RowMajorDecode(width: nat, ix: nat, iy: nat)
    requires ix < width
    ensures (iy * width + ix) / width == iy
    ensures (iy * width + ix) % width == ix
  {
    var k := iy * width + ix;
    var q, r := k / width, k % width;
    assert k == q * width + r && 0 <= r < width;
    if q < iy {
      MulMonotone(q + 1, iy, width);
      assert false;
    } else if q > iy {
      MulMonotone(iy + 1, q, width);
      assert false;
    }
  }

  /** A coordinate inside an `nx` by `ny` grid has its row-major index inside the buffer. */
  lemma RowMajorBound(nx: nat, ny: nat, ix: nat, iy: nat)
    requires ix < nx && iy < ny
    ensures iy * nx + ix < nx * ny
  {
    assert iy * nx + ix < (iy + 1) * nx;
    assert (iy + 1) * nx <= ny * nx;
  }

  /** `bit_index`: the flat position of cell `(ix, iy)`; in-range cells land inside the buffer. */
  function BitIndex(nx: nat, ny: nat, ix: nat, iy: nat): (k: nat)
    ensures ix < nx && iy < ny ==> k < nx * ny
  {
    if ix < nx && iy < ny then
      RowMajorBound(nx, ny, ix, iy);
      iy * nx + ix
    else
      iy * nx + ix
  }

  /** The flat position decodes back to the coordinate: column `k % nx`, row `k / nx`. */
  lemma BitIndexDecodes(nx: nat, ny: nat, ix: nat, iy: nat)
    requires ix < nx
    ensures BitIndex(nx, ny, ix, iy) % nx == ix
    ensures BitIndex(nx, ny, ix, iy) / nx == iy
  {
    RowMajorDecode(nx, ix, iy);
  }

  /** Distinct in-range coordinates occupy distinct flat positions. */
  lemma BitIndexInjective(nx: nat, ny: nat, ix: nat, iy: nat, jx: nat, jy: nat)
    requires ix < nx && jx < nx
    ensures BitIndex(nx, ny, ix, iy) == BitIndex(nx, ny, jx, jy) ==> ix == jx && iy == jy
  {
    BitIndexDecodes(nx, ny, ix, iy);
    BitIndexDecodes(nx, ny, jx, jy);
  }

  /** A flat position of the buffer is the index of the coordinate it decodes to. */
  lemma FlatDecode(nx: nat, ny: nat, k: nat)
    requires k < nx * ny
    ensures 0 < nx && k % nx < nx && k / nx < ny
    ensures BitIndex(nx, ny, k % nx, k / nx) == k
  {
    if k / nx >= ny {
      MulMonotone(ny, k / nx, nx);
      assert false;
    }
  }

  /** Two grids that agree at every in-range coordinate are the same grid. */
  lemma GridExtensionality(nx: nat, ny: nat, a: seq<Cell>, b: seq<Cell>)
    requires |a| == nx * ny && |b| == nx * ny
    requires forall ix: nat, iy: nat | ix < nx && iy < ny ::
      a[BitIndex(nx, ny, ix, iy)] == b[BitIndex(nx, ny, ix, iy)]
    ensures a == b
  {
    forall k | 0 <= k < nx * ny
      ensures a[k] == b[k]
    {
      FlatDecode(nx, ny, k);
    }
  }

  /** `cell`: the stored state of an in-range cell; every caller reads in-range cells only. */
  function CellAt(nx: nat, ny: nat, cells: seq<Cell>, ix: nat, iy: nat): Cell
    requires |cells| == nx * ny && ix < nx && iy < ny
  {
    cells[BitIndex(nx, ny, ix, iy)]
  }

  // ---------------------------------------------------------------------------
  // Neighbours and the rule
  // ---------------------------------------------------------------------------

  /**
    The lookup closure of `neighbours`: a point outside `[0, nx) x [0, ny)` is dead,
    any other point is the stored cell.
   */
  function PlaneCell(nx: nat, ny: nat, cells: seq<Cell>, ix: int, iy: int): (c: Cell)
    requires |cells| == nx * ny
    ensures c ==> 0 <= ix < nx && 0 <= iy < ny
    ensures 0 <= ix < nx && 0 <= iy < ny ==> c == cells[BitIndex(nx, ny, ix, iy)]
  {
    if ix < 0 || iy < 0 || ix >= nx || iy >= ny then CELL_DEAD
    else CellAt(nx, ny, cells, ix, iy)
  }

  /** The Moore neighbourhood, in the order in which `neighbours` visits it. */
  const MOORE: seq<(int, int)> :=
    [(-1, -1), (-1, 0), (-1, 1), (0, -1), (0, 1), (1, -1), (1, 0), (1, 1)]

  /** The offsets `neighbours` examines are the eight distinct points adjacent to a cell, and never the cell itself. */
  lemma MooreNeighbourhood()
    ensures |MOORE| == 8
    ensures forall i, j :: 0 <= i < j < |MOORE| ==> MOORE[i] != MOORE[j]
    ensures forall i :: 0 <= i < |MOORE| ==>
      MOORE[i] != (0, 0) && -1 <= MOORE[i].0 <= 1 && -1 <= MOORE[i].1 <= 1
  {
  }

  /** `neighbours`: the states of the eight points of `MOORE` around `(ix, iy)`, in that order. */
  function Neighbours(nx: nat, ny: nat, cells: seq<Cell>, ix: int, iy: int): (bitmap: seq<Cell>)
    requires |cells| == nx * ny
    ensures |bitmap| == |MOORE|
  {
    seq(|MOORE|, k requires 0 <= k < |MOORE| =>
      PlaneCell(nx, ny, cells, ix + MOORE[k].0, iy + MOORE[k].1))
  }

  /** `iter().filter(|x| *x).count()`: the number of alive cells in `s`. */
  function CountAlive(s: seq<Cell>): (n: nat)
    ensures n <= |s|
    ensures n == 0 <==> forall i :: 0 <= i < |s| ==> !s[i]
  {
    if s == [] then 0
    else
      assert s == [s[0]] + s[1..];
      (if s[0] then 1 else 0) + CountAlive(s[1..])
  }

  /** The filtered count is the multiplicity of `CELL_ALIVE` in the multiset of the cells. */
  lemma {:induction false} CountAliveIsMultiplicity(s: seq<Cell>)
    ensures CountAlive(s) == multiset(s)[CELL_ALIVE]
  {
    if s != [] {
      assert s == [s[0]] + s[1..];
      CountAliveIsMultiplicity(s[1..]);
    }
  }

  /** The number of alive neighbours of `(ix, iy)`; never more than eight. */
  function AliveNeighbours(nx: nat, ny: nat, cells: seq<Cell>, ix: int, iy: int): (n: nat)
    requires |cells| == nx * ny
    ensures n <= 8
  {
    CountAlive(Neighbours(nx, ny, cells, ix, iy))
  }

  /**
    The branches of `next` for one cell: a dead cell is born on exactly three alive
    neighbours; an alive one dies on at most one, survives on two or three and dies
    on more. Together this is B3/S23.
   */
  function NextState(cell: Cell, numAliveNeighbours: nat): (next: Cell)
    ensures next <==> numAliveNeighbours == 3 || (numAliveNeighbours == 2 && cell)
  {
    if cell == CELL_DEAD then
      if numAliveNeighbours == 3 then CELL_ALIVE else CELL_DEAD
    else if numAliveNeighbours <= 1 then CELL_DEAD
    else if numAliveNeighbours == 2 || numAliveNeighbours == 3 then CELL_ALIVE
    else CELL_DEAD
  }

  /**
    One generation: the new grid has the same size, and its cell at flat position `k`
    is the rule applied to the old cell at `k` and that cell's neighbours in the old grid.
   */
  function Step(nx: nat, ny: nat, cells: seq<Cell>): (next: seq<Cell>)
    requires |cells| == nx * ny
    ensures |next| == nx * ny
  {
    seq(nx * ny, k requires 0 <= k < nx * ny =>
      NextState(cells[k], AliveNeighbours(nx, ny, cells, k % nx, k / nx)))
  }

  /**
    `next` is a successor grid of `cells`: same size, and every in-range cell `(ix, iy)`
    is alive exactly when it had three alive neighbours, or two and was alive itself,
    all counted in `cells`.
   */
  ghost predicate IsStepOf(nx: nat, ny: nat, cells: seq<Cell>, next: seq<Cell>)
    requires |cells| == nx * ny
  {
    && |next| == nx * ny
    && forall ix: nat, iy: nat | ix < nx && iy < ny ::
      next[BitIndex(nx, ny, ix, iy)] <==>
        (AliveNeighbours(nx, ny, cells, ix, iy) == 3 ||
         (AliveNeighbours(nx, ny, cells, ix, iy) == 2 && CellAt(nx, ny, cells, ix, iy)))
  }

  /** The rule of a generation, cell by cell: `Step` produces a successor grid. */
  lemma StepRule(nx: nat, ny: nat, cells: seq<Cell>)
    requires |cells| == nx * ny
    ensures IsStepOf(nx, ny, cells, Step(nx, ny, cells))
  {
    forall ix: nat, iy: nat | ix < nx && iy < ny {
      BitIndexDecodes(nx, ny, ix, iy);
    }
  }

  /** One position of a grid obeying the rule agrees with `Step`. */
  lemma StepAgreesAt(nx: nat, ny: nat, cells: seq<Cell>, next: seq<Cell>, k: nat)
    requires |cells| == nx * ny && IsStepOf(nx, ny, cells, next) && k < nx * ny
    ensures next[k] == Step(nx, ny, cells)[k]
  {
    FlatDecode(nx, ny, k);
    var ix, iy := k % nx, k / nx;
    assert CellAt(nx, ny, cells, ix, iy) == cells[k];
    assert next[k] <==>
      (AliveNeighbours(nx, ny, cells, ix, iy) == 3 ||
       (AliveNeighbours(nx, ny, cells, ix, iy) == 2 && cells[k]));
  }

  /** The rule determines the successor: any grid obeying it cell by cell is `Step`. */
  lemma StepUnique(nx: nat, ny: nat, cells: seq<Cell>, next: seq<Cell>)
    requires |cells| == nx * ny && IsStepOf(nx, ny, cells, next)
    ensures next == Step(nx, ny, cells)
  {
    forall k | 0 <= k < nx * ny
      ensures next[k] == Step(nx, ny, cells)[k]
    {
      StepAgreesAt(nx, ny, cells, next, k);
    }
  }

  /** Some successor grid exists (it is `Step`); the witness is handed out by its rule alone. */
  lemma SomeStep(nx: nat, ny: nat, cells: seq<Cell>) returns (next: seq<Cell>)
    requires |cells| == nx * ny
    ensures IsStepOf(nx, ny, cells, next)
  {
    StepRule(nx, ny, cells);
    next := Step(nx, ny, cells);
  }

  // ---------------------------------------------------------------------------
  // The World object
  // ---------------------------------------------------------------------------

  /** `to_bitvec`: a fresh bit buffer holding `bits`. */
  method ToBitvec(bits: seq<Cell>) returns (bitvec: array<Cell>)
    ensures fresh(bitvec)
    ensures bitvec[..] == bits
  {
    bitvec := new Cell[|bits|](_ => CELL_DEAD);
    for i := 0 to |bits|
      invariant forall j :: 0 <= j < i ==> bitvec[j] == bits[j]
    {
      bitvec[i] := bits[i];
    }
  }

  /** `World`: the grid dimensions and the buffer of its `nx * ny` cells. */
  class World {
    var nx: nat
    var ny: nat
    var cells: array<Cell>

    ghost predicate Valid()
      reads this
    {
      cells.Length == nx * ny
    }

    /** The cells of the grid, row-major. */
    function Contents(): seq<Cell>
      reads this, cells
    {
      cells[..]
    }

    constructor FromCells(nx: nat, ny: nat, cells: seq<Cell>)
      requires |cells| == nx * ny
      ensures Valid() && fresh(this.cells)
      ensures this.nx == nx && this.ny == ny && Contents() == cells
    {
      var bitvec := ToBitvec(cells);
      this.nx := nx;
      this.ny := ny;
      this.cells := bitvec;
    }

    /** `World::new`: fails when the cell count is not `nx * ny`, else stores the cells as given. */
    static method New(nx: nat, ny: nat, cells: seq<Cell>) returns (r: Result<World>)
      ensures r.Err? <==> |cells| != nx * ny
      ensures r.Err? ==> r.msg == INVALID_CELL_SIZE
      ensures r.Ok? ==> fresh(r.value) && fresh(r.value.cells) && r.value.Valid()
      ensures r.Ok? ==> r.value.nx == nx && r.value.ny == ny && r.value.Contents() == cells
      ensures r.Ok? ==> forall ix: nat, iy: nat | ix < nx && iy < ny ::
        r.value.Cell(ix, iy) == cells[BitIndex(nx, ny, ix, iy)]
    {
      if |cells| != nx * ny {
        return Err(INVALID_CELL_SIZE);
      }
      var world := new World.FromCells(nx, ny, cells);
      return Ok(world);
    }

    /** `cell`: the state of the in-range cell `(ix, iy)`. */
    function Cell(ix: nat, iy: nat): (c: Cell)
      reads this, cells
      requires Valid() && ix < nx && iy < ny
      ensures c == PlaneCell(nx, ny, Contents(), ix, iy)
    {
      CellAt(nx, ny, cells[..], ix, iy)
    }

    /**
      `next`: computes every new cell from the current buffer into a fresh one and then
      installs it; the dimensions and the cell count stay as they were.
     */
    method Next()
      requires Valid()
      modifies this
      ensures Valid() && fresh(cells)
      ensures nx == old(nx) && ny == old(ny) && cells.Length == old(cells.Length)
      ensures Contents() == Step(nx, ny, old(Contents()))
    {
      ghost var current := cells[..];
      ghost var target := SomeStep(nx, ny, current);
      var nextCells := new Cell[cells.Length](_ => CELL_DEAD);
      var iy := 0;
      while iy < ny
        invariant iy <= ny
        invariant forall x: nat, y: nat | x < nx && y < iy ::
          nextCells[BitIndex(nx, ny, x, y)] == target[BitIndex(nx, ny, x, y)]
        modifies nextCells
      {
        var ix := 0;
        while ix < nx
          invariant ix <= nx
          invariant forall x: nat, y: nat | x < nx && y < iy ::
            nextCells[BitIndex(nx, ny, x, y)] == target[BitIndex(nx, ny, x, y)]
          invariant forall x: nat | x < ix ::
            nextCells[BitIndex(nx, ny, x, iy)] == target[BitIndex(nx, ny, x, iy)]
          modifies nextCells
        {
          var cell := Cell(ix, iy);
          var numAliveNeighbours := CountAlive(Neighbours(nx, ny, cells[..], ix, iy));
          var next := NextState(cell, numAliveNeighbours);
          assert next == target[BitIndex(nx, ny, ix, iy)] by {
            assert cells[..] == current;
          }
          forall x: nat, y: nat | x < nx && y < ny
            ensures BitIndex(nx, ny, x, y) == BitIndex(nx, ny, ix, iy) ==> x == ix && y == iy
          {
            BitIndexInjective(nx, ny, x, y, ix, iy);
          }
          nextCells[BitIndex(nx, ny, ix, iy)] := next;
          ix := ix + 1;
        }
        forall x: nat, y: nat | x < nx && y < iy + 1
          ensures nextCells[BitIndex(nx, ny, x, y)] == target[BitIndex(nx, ny, x, y)]
        {
          if y == iy {
            assert x < ix;
          }
        }
        iy := iy + 1;
      }
      GridExtensionality(nx, ny, nextCells[..], target);
      StepUnique(nx, ny, current, target);
      cells := nextCells;
    }
  }

  // ---------------------------------------------------------------------------
  // Properties of a generation
  // ---------------------------------------------------------------------------

  /** Every cell of `s` is dead. */
  predicate AllDead(s: seq<Cell>) {
    forall k :: 0 <= k < |s| ==> !s[k]
  }

  /** In an all-dead grid every cell, in range or not, has no alive neighbour. */
  lemma NoAliveNeighbours(nx: nat, ny: nat, cells: seq<Cell>, ix: int, iy: int)
    requires |cells| == nx * ny && AllDead(cells)
    ensures AliveNeighbours(nx, ny, cells, ix, iy) == 0
  {
    var bitmap := Neighbours(nx, ny, cells, ix, iy);
    assert forall i :: 0 <= i < |bitmap| ==> !bitmap[i];
  }

  /** An all-dead grid stays all dead: with no alive neighbour nothing is born. */
  lemma StepKeepsAllDead(nx: nat, ny: nat, cells: seq<Cell>)
    requires |cells| == nx * ny && AllDead(cells)
    ensures AllDead(Step(nx, ny, cells))
  {
    var next := Step(nx, ny, cells);
    forall k | 0 <= k < |next|
      ensures !next[k]
    {
      FlatDecode(nx, ny, k);
      NoAliveNeighbours(nx, ny, cells, k % nx, k / nx);
    }
  }

  // ---------------------------------------------------------------------------
  // Counting a neighbourhood cell by cell
  // ---------------------------------------------------------------------------

  /** One alive cell counts as one, a dead cell as zero. */
  function Bit(c: Cell): nat {
    if c then 1 else 0
  }

  /** Counting peels off the first cell of any suffix. */
  lemma CountAliveUnfold(s: seq<Cell>, i: nat)
    requires i < |s|
    ensures CountAlive(s[i..]) == Bit(s[i]) + CountAlive(s[i + 1..])
  {
    assert s[i..][1..] == s[i + 1..];
  }

  /** The count of an eight-cell neighbourhood is the sum of its eight cells. */
  lemma {:induction false} CountAliveOfEight(s: seq<Cell>)
    requires |s| == 8
    ensures CountAlive(s) == Bit(s[0]) + Bit(s[1]) + Bit(s[2]) + Bit(s[3])
                           + Bit(s[4]) + Bit(s[5]) + Bit(s[6]) + Bit(s[7])
  {
    assert s[0..] == s;
    CountAliveUnfold(s, 0);
    CountAliveUnfold(s, 1);
    CountAliveUnfold(s, 2);
    CountAliveUnfold(s, 3);
    CountAliveUnfold(s, 4);
    CountAliveUnfold(s, 5);
    CountAliveUnfold(s, 6);
    CountAliveUnfold(s, 7);
    assert s[8..] == [];
  }

  /** The alive neighbours of `(ix, iy)` as a sum over the eight lookups of `neighbours`. */
  function NeighbourSum(nx: nat, ny: nat, cells: seq<Cell>, ix: int, iy: int): nat
    requires |cells| == nx * ny
  {
    Bit(PlaneCell(nx, ny, cells, ix - 1, iy - 1)) + Bit(PlaneCell(nx, ny, cells, ix - 1, iy))
    + Bit(PlaneCell(nx, ny, cells, ix - 1, iy + 1)) + Bit(PlaneCell(nx, ny, cells, ix, iy - 1))
    + Bit(PlaneCell(nx, ny, cells, ix, iy + 1)) + Bit(PlaneCell(nx, ny, cells, ix + 1, iy - 1))
    + Bit(PlaneCell(nx, ny, cells, ix + 1, iy)) + Bit(PlaneCell(nx, ny, cells, ix + 1, iy + 1))
  }

  /** The filtered count of `neighbours` is the sum of its eight lookups. */
  lemma AliveNeighboursIsSum(nx: nat, ny: nat, cells: seq<Cell>, ix: int, iy: int)
    requires |cells| == nx * ny
    ensures AliveNeighbours(nx, ny, cells, ix, iy) == NeighbourSum(nx, ny, cells, ix, iy)
  {
    var bitmap := Neighbours(nx, ny, cells, ix, iy);
    CountAliveOfEight(bitmap);
    assert bitmap[0] == PlaneCell(nx, ny, cells, ix - 1, iy - 1);
    assert bitmap[1] == PlaneCell(nx, ny, cells, ix - 1, iy);
    assert bitmap[2] == PlaneCell(nx, ny, cells, ix - 1, iy + 1);
    assert bitmap[3] == PlaneCell(nx, ny, cells, ix, iy - 1);
    assert bitmap[4] == PlaneCell(nx, ny, cells, ix, iy + 1);
    assert bitmap[5] == PlaneCell(nx, ny, cells, ix + 1, iy - 1);
    assert bitmap[6] == PlaneCell(nx, ny, cells, ix + 1, iy);
    assert bitmap[7] == PlaneCell(nx, ny, cells, ix + 1, iy + 1);
  }

  /** The new state at flat position `k`, with the neighbours summed one by one. */
  lemma StepAt(nx: nat, ny: nat, cells: seq<Cell>, k: nat)
    requires |cells| == nx * ny && k < nx * ny
    ensures Step(nx, ny, cells)[k] == NextState(cells[k], NeighbourSum(nx, ny, cells, k % nx, k / nx))
  {
    AliveNeighboursIsSum(nx, ny, cells, k % nx, k / nx);
  }

  /**
    `next` holds, at each of its first `n` flat positions, the rule applied to the
    old cell there and its summed neighbours: the successor checked one cell at a time.
   */
  predicate RuleHoldsBelow(nx: nat, ny: nat, cells: seq<Cell>, next: seq<Cell>, n: nat)
    requires |cells| == nx * ny && |next| == nx * ny && n <= nx * ny
  {
    n == 0 ||
    (RuleHoldsBelow(nx, ny, cells, next, n - 1) &&
     next[n - 1] == NextState(cells[n - 1], NeighbourSum(nx, ny, cells, (n - 1) % nx, (n - 1) / nx)))
  }

  /** The positions below `n` of a grid that passes the cell-by-cell check agree with `Step`. */
  lemma {:induction false} StepFromRuleBelow(nx: nat, ny: nat, cells: seq<Cell>, next: seq<Cell>, n: nat)
    requires |cells| == nx * ny && |next| == nx * ny && n <= nx * ny
    requires RuleHoldsBelow(nx, ny, cells, next, n)
    ensures forall k :: 0 <= k < n ==> Step(nx, ny, cells)[k] == next[k]
  {
    if n > 0 {
      StepFromRuleBelow(nx, ny, cells, next, n - 1);
      StepAt(nx, ny, cells, n - 1);
    }
  }

  /** A grid that passes the cell-by-cell check on every position is the successor `Step`. */
  lemma StepFromRule(nx: nat, ny: nat, cells: seq<Cell>, next: seq<Cell>)
    requires |cells| == nx * ny && |next| == nx * ny
    requires RuleHoldsBelow(nx, ny, cells, next, nx * ny)
    ensures Step(nx, ny, cells) == next
  {
    StepFromRuleBelow(nx, ny, cells, next, nx * ny);
  }

  // ---------------------------------------------------------------------------
  // The scenarios of the engine's unit tests
  // ---------------------------------------------------------------------------

  const A := CELL_ALIVE
  const D := CELL_DEAD

  /** The 3 x 3 grid `110/100/000` of the birth test. */
  const BORN_BEFORE: seq<Cell> := [A, A, D, A, D, D, D, D, D]

  /** A dead cell with exactly three alive neighbours is born; the three survive. */
  lemma RuleBorn()
    ensures Step(3, 3, BORN_BEFORE) == [A, A, D, A, A, D, D, D, D]
  {
    assert RuleHoldsBelow(3, 3, BORN_BEFORE, [A, A, D, A, A, D, D, D, D], 1);
    assert RuleHoldsBelow(3, 3, BORN_BEFORE, [A, A, D, A, A, D, D, D, D], 2);
    assert RuleHoldsBelow(3, 3, BORN_BEFORE, [A, A, D, A, A, D, D, D, D], 3);
    assert RuleHoldsBelow(3, 3, BORN_BEFORE, [A, A, D, A, A, D, D, D, D], 4);
    assert RuleHoldsBelow(3, 3, BORN_BEFORE, [A, A, D, A, A, D, D, D, D], 5);
    assert RuleHoldsBelow(3, 3, BORN_BEFORE, [A, A, D, A, A, D, D, D, D], 6);
    assert RuleHoldsBelow(3, 3, BORN_BEFORE, [A, A, D, A, A, D, D, D, D], 7);
    assert RuleHoldsBelow(3, 3, BORN_BEFORE, [A, A, D, A, A, D, D, D, D], 8);
    assert RuleHoldsBelow(3, 3, BORN_BEFORE, [A, A, D, A, A, D, D, D, D], 9);
    StepFromRule(3, 3, BORN_BEFORE, [A, A, D, A, A, D, D, D, D]);
  }

  /** The 3 x 3 grid `000/011/000` of the underpopulation test. */
  const LONELY_BEFORE: seq<Cell> := [D, D, D, D, A, A, D, D, D]

  /** Two adjacent alive cells each have one alive neighbour and both die. */
  lemma RuleDeadWithUnderpopulated()
    ensures Step(3, 3, LONELY_BEFORE) == [D, D, D, D, D, D, D, D, D]
  {
    assert RuleHoldsBelow(3, 3, LONELY_BEFORE, [D, D, D, D, D, D, D, D, D], 1);
    assert RuleHoldsBelow(3, 3, LONELY_BEFORE, [D, D, D, D, D, D, D, D, D], 2);
    assert RuleHoldsBelow(3, 3, LONELY_BEFORE, [D, D, D, D, D, D, D, D, D], 3);
    assert RuleHoldsBelow(3, 3, LONELY_BEFORE, [D, D, D, D, D, D, D, D, D], 4);
    assert RuleHoldsBelow(3, 3, LONELY_BEFORE, [D, D, D, D, D, D, D, D, D], 5);
    assert RuleHoldsBelow(3, 3, LONELY_BEFORE, [D, D, D, D, D, D, D, D, D], 6);
    assert RuleHoldsBelow(3, 3, LONELY_BEFORE, [D, D, D, D, D, D, D, D, D], 7);
    assert RuleHoldsBelow(3, 3, LONELY_BEFORE, [D, D, D, D, D, D, D, D, D], 8);
    assert RuleHoldsBelow(3, 3, LONELY_BEFORE, [D, D, D, D, D, D, D, D, D], 9);
    StepFromRule(3, 3, LONELY_BEFORE, [D, D, D, D, D, D, D, D, D]);
  }

  /** The 3 x 3 grid `111/110/000` of the overpopulation test. */
  const CROWDED_BEFORE: seq<Cell> := [A, A, A, A, A, D, D, D, D]

  /** Crowded cells with four or more alive neighbours die while a dead cell with three is born. */
  lemma RuleDeadWithOverpopulated()
    ensures Step(3, 3, CROWDED_BEFORE) == [A, D, A, A, D, A, D, D, D]
  {
    assert RuleHoldsBelow(3, 3, CROWDED_BEFORE, [A, D, A, A, D, A, D, D, D], 1);
    assert RuleHoldsBelow(3, 3, CROWDED_BEFORE, [A, D, A, A, D, A, D, D, D], 2);
    assert RuleHoldsBelow(3, 3, CROWDED_BEFORE, [A, D, A, A, D, A, D, D, D], 3);
    assert RuleHoldsBelow(3, 3, CROWDED_BEFORE, [A, D, A, A, D, A, D, D, D], 4);
    assert RuleHoldsBelow(3, 3, CROWDED_BEFORE, [A, D, A, A, D, A, D, D, D], 5);
    assert RuleHoldsBelow(3, 3, CROWDED_BEFORE, [A, D, A, A, D, A, D, D, D], 6);
    assert RuleHoldsBelow(3, 3, CROWDED_BEFORE, [A, D, A, A, D, A, D, D, D], 7);
    assert RuleHoldsBelow(3, 3, CROWDED_BEFORE, [A, D, A, A, D, A, D, D, D], 8);
    assert RuleHoldsBelow(3, 3, CROWDED_BEFORE, [A, D, A, A, D, A, D, D, D], 9);
    StepFromRule(3, 3, CROWDED_BEFORE, [A, D, A, A, D, A, D, D, D]);
  }

  /** A 2 x 2 block in the middle of a dead 4 x 4 grid, as in the survival test. */
  const BLOCK: seq<Cell> := [D, D, D, D, D, A, A, D, D, A, A, D, D, D, D, D]

  /** The upper half of the block grid passes the rule cell by cell. */
  lemma RuleSurviveUpperHalf()
    ensures RuleHoldsBelow(4, 4, BLOCK, BLOCK, 8)
  {
    assert RuleHoldsBelow(4, 4, BLOCK, BLOCK, 1);
    assert RuleHoldsBelow(4, 4, BLOCK, BLOCK, 2);
    assert RuleHoldsBelow(4, 4, BLOCK, BLOCK, 3);
    assert RuleHoldsBelow(4, 4, BLOCK, BLOCK, 4);
    assert RuleHoldsBelow(4, 4, BLOCK, BLOCK, 5);
    assert RuleHoldsBelow(4, 4, BLOCK, BLOCK, 6);
    assert RuleHoldsBelow(4, 4, BLOCK, BLOCK, 7);
  }

  /** The block is a still life: every block cell has three alive neighbours, no dead cell has three. */
  lemma RuleSurvive()
    ensures Step(4, 4, BLOCK) == BLOCK
  {
    RuleSurviveUpperHalf();
    assert RuleHoldsBelow(4, 4, BLOCK, BLOCK, 9);
    assert RuleHoldsBelow(4, 4, BLOCK, BLOCK, 10);
    assert RuleHoldsBelow(4, 4, BLOCK, BLOCK, 11);
    assert RuleHoldsBelow(4, 4, BLOCK, BLOCK, 12);
    assert RuleHoldsBelow(4, 4, BLOCK, BLOCK, 13);
    assert RuleHoldsBelow(4, 4, BLOCK, BLOCK, 14);
    assert RuleHoldsBelow(4, 4, BLOCK, BLOCK, 15);
    StepFromRule(4, 4, BLOCK, BLOCK);
  }
}
