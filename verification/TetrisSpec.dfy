/** The board as a value: cells, tetromino shapes, placements, and what one step may do. */
module TetrisSpec {
  import opened Wrappers

  const CELLS_PER_PIECE := 4
  const MAX_FALL_ROWS := 6
  const CATCHUP_BUFFER_CELLS := 16
  const SPAWN_ATTEMPTS := 12
  const FINISH_TAIL_CELLS := 12

  datatype Cell = Cell(r: int, c: int)

  datatype Shape = I | O | T | S | Z | J | L

  const SHAPES: seq<Shape> := [I, O, T, S, Z, J, L]

  lemma EveryShapeIsListed(shape: Shape)
    ensures shape in SHAPES
  {
    assert SHAPES[0] == I && SHAPES[1] == O && SHAPES[2] == T && SHAPES[3] == S;
    assert SHAPES[4] == Z && SHAPES[5] == J && SHAPES[6] == L;
  }

  function Rotations(shape: Shape): seq<seq<Cell>> {
    match shape
    case I => [[Cell(0, 0), Cell(0, 1), Cell(0, 2), Cell(0, 3)],
               [Cell(0, 0), Cell(1, 0), Cell(2, 0), Cell(3, 0)]]
    case O => [[Cell(0, 0), Cell(0, 1), Cell(1, 0), Cell(1, 1)]]
    case T => [[Cell(0, 1), Cell(1, 0), Cell(1, 1), Cell(1, 2)],
               [Cell(0, 0), Cell(1, 0), Cell(1, 1), Cell(2, 0)],
               [Cell(0, 0), Cell(0, 1), Cell(0, 2), Cell(1, 1)],
               [Cell(0, 1), Cell(1, 0), Cell(1, 1), Cell(2, 1)]]
    case S => [[Cell(0, 1), Cell(0, 2), Cell(1, 0), Cell(1, 1)],
               [Cell(0, 0), Cell(1, 0), Cell(1, 1), Cell(2, 1)]]
    case Z => [[Cell(0, 0), Cell(0, 1), Cell(1, 1), Cell(1, 2)],
               [Cell(0, 1), Cell(1, 0), Cell(1, 1), Cell(2, 0)]]
    case J => [[Cell(0, 0), Cell(1, 0), Cell(1, 1), Cell(1, 2)],
               [Cell(0, 0), Cell(0, 1), Cell(1, 0), Cell(2, 0)],
               [Cell(0, 0), Cell(0, 1), Cell(0, 2), Cell(1, 2)],
               [Cell(0, 1), Cell(1, 1), Cell(2, 0), Cell(2, 1)]]
    case L => [[Cell(0, 2), Cell(1, 0), Cell(1, 1), Cell(1, 2)],
               [Cell(0, 0), Cell(1, 0), Cell(2, 0), Cell(2, 1)],
               [Cell(0, 0), Cell(0, 1), Cell(0, 2), Cell(1, 0)],
               [Cell(0, 0), Cell(0, 1), Cell(1, 1), Cell(2, 1)]]
  }

  function MaxRow(cells: seq<Cell>): int
    requires |cells| > 0
  {
    if |cells| == 1 then cells[0].r else Max(cells[0].r, MaxRow(cells[1..]))
  }

  function MaxCol(cells: seq<Cell>): int
    requires |cells| > 0
  {
    if |cells| == 1 then cells[0].c else Max(cells[0].c, MaxCol(cells[1..]))
  }

  /** Four distinct cells whose box touches row 0 and column 0 and has no negative coordinate. */
  predicate TightFour(w: Cell, x: Cell, y: Cell, z: Cell) {
    && w != x && w != y && w != z && x != y && x != z && y != z
    && w.r >= 0 && x.r >= 0 && y.r >= 0 && z.r >= 0
    && w.c >= 0 && x.c >= 0 && y.c >= 0 && z.c >= 0
    && (w.r == 0 || x.r == 0 || y.r == 0 || z.r == 0)
    && (w.c == 0 || x.c == 0 || y.c == 0 || z.c == 0)
  }

  lemma RotationIsTight(shape: Shape, n: nat)
    requires n < |Rotations(shape)|
    ensures |Rotations(shape)[n]| == CELLS_PER_PIECE
    ensures var q := Rotations(shape)[n]; TightFour(q[0], q[1], q[2], q[3])
  {
    match shape
    case I =>
    case O =>
    case T =>
    case S =>
    case Z =>
    case J =>
    case L =>
  }

  /** Four distinct cells in a tight box at the origin. */
  ghost predicate TightBox(cells: seq<Cell>) {
    && |cells| == CELLS_PER_PIECE
    && NoDuplicates(cells)
    && (forall k :: 0 <= k < |cells| ==> 0 <= cells[k].r <= MaxRow(cells) && 0 <= cells[k].c <= MaxCol(cells))
    && (exists k :: 0 <= k < |cells| && cells[k].r == 0)
    && (exists k :: 0 <= k < |cells| && cells[k].c == 0)
    && (exists k :: 0 <= k < |cells| && cells[k].r == MaxRow(cells))
    && (exists k :: 0 <= k < |cells| && cells[k].c == MaxCol(cells))
  }

  lemma TightFourIsTightBox(cells: seq<Cell>)
    requires |cells| == CELLS_PER_PIECE && TightFour(cells[0], cells[1], cells[2], cells[3])
    ensures TightBox(cells)
  {
    MaxOfFour(cells);
  }

  /** What the placement search relies on: every rotation is such a box. */
  lemma RotationIsTightBox(shape: Shape, cells: seq<Cell>)
    requires cells in Rotations(shape)
    ensures TightBox(cells)
  {
    var n :| 0 <= n < |Rotations(shape)| && cells == Rotations(shape)[n];
    RotationIsTight(shape, n);
    TightFourIsTightBox(cells);
  }

  lemma MaxOfFour(cells: seq<Cell>)
    requires |cells| == 4
    ensures MaxRow(cells) == Max(cells[0].r, Max(cells[1].r, Max(cells[2].r, cells[3].r)))
    ensures MaxCol(cells) == Max(cells[0].c, Max(cells[1].c, Max(cells[2].c, cells[3].c)))
  {
    var t1, t2, t3 := cells[1..], cells[2..], cells[3..];
    assert t1[1..] == t2 && t2[1..] == t3;
    assert MaxRow(t3) == cells[3].r && MaxCol(t3) == cells[3].c;
    assert MaxRow(t2) == Max(cells[2].r, MaxRow(t3)) && MaxCol(t2) == Max(cells[2].c, MaxCol(t3));
    assert MaxRow(t1) == Max(cells[1].r, MaxRow(t2)) && MaxCol(t1) == Max(cells[1].c, MaxCol(t2));
  }

  // ------------------------------------------------------------------ cells

  ghost predicate InBoard(rows: nat, cols: nat, x: Cell) { 0 <= x.r < rows && 0 <= x.c < cols }

  /** Every cell of the board. */
  ghost function AllCells(rows: nat, cols: nat): (s: set<Cell>)
    ensures forall x :: x in s <==> InBoard(rows, cols, x)
  {
    set r, c | 0 <= r < rows && 0 <= c < cols :: Cell(r, c)
  }

  lemma {:induction false} RowCount(r: int, cols: nat, row: set<Cell>)
    requires forall x :: x in row <==> x.r == r && 0 <= x.c < cols
    ensures |row| == cols
  {
    if cols == 0 {
      assert row == {};
    } else {
      RowCount(r, cols - 1, row - {Cell(r, cols - 1)});
    }
  }

  /** A board has rows * cols cells. */
  lemma {:induction false} BoardCount(rows: nat, cols: nat, board: set<Cell>)
    requires forall x :: x in board <==> 0 <= x.r < rows && 0 <= x.c < cols
    ensures |board| == rows * cols
  {
    if rows == 0 {
      assert board == {};
    } else {
      var row := set x | x in board && x.r == rows - 1;
      RowCount(rows - 1, cols, row);
      BoardCount(rows - 1, cols, board - row);
      assert |board - row| == |board| - |row|;
      assert (rows - 1) * cols == rows * cols - cols;
    }
  }

  /** The board cells a shape covers when its box starts at (row, col). */
  function Landing(cells: seq<Cell>, row: int, col: int): (s: seq<Cell>)
    ensures |s| == |cells|
    ensures forall k :: 0 <= k < |s| ==> s[k] == Cell(row + cells[k].r, col + cells[k].c)
  {
    seq(|cells|, k requires 0 <= k < |cells| => Cell(row + cells[k].r, col + cells[k].c))
  }

  ghost predicate Fits(rows: nat, cols: nat, filled: set<Cell>, cells: seq<Cell>, row: int, col: int) {
    forall k :: 0 <= k < |cells| ==>
      && InBoard(rows, cols, Cell(row + cells[k].r, col + cells[k].c))
      && Cell(row + cells[k].r, col + cells[k].c) !in filled
  }

  datatype Placement = Placement(shape: Shape, cells: seq<Cell>, row: int, col: int)

  ghost predicate IsPlacement(rows: nat, cols: nat, filled: set<Cell>, p: Placement) {
    p.cells in Rotations(p.shape) && Fits(rows, cols, filled, p.cells, p.row, p.col)
  }

  // ------------------------------------------------------------------ where nothing fits

  ghost predicate FitsNowhereInRow(rows: nat, cols: nat, filled: set<Cell>, cells: seq<Cell>, row: int) {
    forall col :: !Fits(rows, cols, filled, cells, row, col)
  }

  ghost predicate FitsNowhere(rows: nat, cols: nat, filled: set<Cell>, cells: seq<Cell>) {
    forall row :: FitsNowhereInRow(rows, cols, filled, cells, row)
  }

  ghost predicate NoRotationFits(rows: nat, cols: nat, filled: set<Cell>, shape: Shape) {
    forall cells :: cells in Rotations(shape) ==> FitsNowhere(rows, cols, filled, cells)
  }

  /** A box that fits lies inside the board. */
  lemma FittingBoxIsInRange(rows: nat, cols: nat, filled: set<Cell>, cells: seq<Cell>, row: int, col: int)
    requires TightBox(cells) && Fits(rows, cols, filled, cells, row, col)
    ensures 0 <= row <= rows - (MaxRow(cells) + 1) && 0 <= col <= cols - (MaxCol(cells) + 1)
  {
    var top :| 0 <= top < |cells| && cells[top].r == 0;
    var left :| 0 <= left < |cells| && cells[left].c == 0;
    var bottom :| 0 <= bottom < |cells| && cells[bottom].r == MaxRow(cells);
    var right :| 0 <= right < |cells| && cells[right].c == MaxCol(cells);
    assert InBoard(rows, cols, Cell(row + cells[top].r, col + cells[top].c));
    assert InBoard(rows, cols, Cell(row + cells[left].r, col + cells[left].c));
    assert InBoard(rows, cols, Cell(row + cells[bottom].r, col + cells[bottom].c));
    assert InBoard(rows, cols, Cell(row + cells[right].r, col + cells[right].c));
  }

  lemma AllColumnsTried(rows: nat, cols: nat, filled: set<Cell>, cells: seq<Cell>, row: int, tried: seq<int>)
    requires TightBox(cells) && forall col :: 0 <= col <= cols - (MaxCol(cells) + 1) ==> col in tried
    requires forall k :: 0 <= k < |tried| ==> !Fits(rows, cols, filled, cells, row, tried[k])
    ensures FitsNowhereInRow(rows, cols, filled, cells, row)
  {
    forall col ensures !Fits(rows, cols, filled, cells, row, col) {
      if 0 <= col <= cols - (MaxCol(cells) + 1) {
        assert col in tried;
      } else if Fits(rows, cols, filled, cells, row, col) {
        FittingBoxIsInRange(rows, cols, filled, cells, row, col);
      }
    }
  }

  lemma AllRowsTried(rows: nat, cols: nat, filled: set<Cell>, cells: seq<Cell>, tried: seq<int>)
    requires TightBox(cells)
    requires MaxCol(cells) + 1 <= cols ==> forall row :: 0 <= row <= rows - (MaxRow(cells) + 1) ==> row in tried
    requires forall k :: 0 <= k < |tried| ==> FitsNowhereInRow(rows, cols, filled, cells, tried[k])
    ensures FitsNowhere(rows, cols, filled, cells)
  {
    forall row, col ensures !Fits(rows, cols, filled, cells, row, col) {
      if MaxCol(cells) + 1 <= cols && 0 <= row <= rows - (MaxRow(cells) + 1) {
        assert row in tried;
      } else if Fits(rows, cols, filled, cells, row, col) {
        FittingBoxIsInRange(rows, cols, filled, cells, row, col);
      }
    }
  }

  lemma AllShapesTried(rows: nat, cols: nat, filled: set<Cell>, tried: seq<Shape>)
    requires forall shape :: shape in SHAPES ==> shape in tried
    requires forall k :: 0 <= k < |tried| ==> NoRotationFits(rows, cols, filled, tried[k])
    ensures forall p :: !IsPlacement(rows, cols, filled, p)
  {
    forall p ensures !IsPlacement(rows, cols, filled, p) {
      EveryShapeIsListed(p.shape);
      var k :| 0 <= k < |tried| && tried[k] == p.shape;
      if p.cells in Rotations(p.shape) {
        assert FitsNowhereInRow(rows, cols, filled, p.cells, p.row);
      }
    }
  }

  /** Distinct empty cells of the board: what a batch to lock consists of. */
  ghost predicate FreshCells(rows: nat, cols: nat, filled: set<Cell>, batch: seq<Cell>) {
    && NoDuplicates(batch)
    && forall k :: 0 <= k < |batch| ==> InBoard(rows, cols, batch[k]) && batch[k] !in filled
  }

  /** A placement covers exactly four cells of the board, all empty. */
  lemma LandingIsFourEmptyCells(rows: nat, cols: nat, filled: set<Cell>, p: Placement)
    requires IsPlacement(rows, cols, filled, p)
    ensures p.row >= 0 && |p.cells| == CELLS_PER_PIECE
    ensures FreshCells(rows, cols, filled, Landing(p.cells, p.row, p.col))
  {
    RotationIsTightBox(p.shape, p.cells);
    TightBoxLands(rows, cols, filled, p.cells, p.row, p.col);
  }

  lemma TightBoxLands(rows: nat, cols: nat, filled: set<Cell>, cells: seq<Cell>, row: int, col: int)
    requires TightBox(cells) && Fits(rows, cols, filled, cells, row, col)
    ensures row >= 0
    ensures FreshCells(rows, cols, filled, Landing(cells, row, col))
  {
    assert row >= 0 by {
      var k :| 0 <= k < |cells| && cells[k].r == 0;
      assert InBoard(rows, cols, Cell(row + cells[k].r, col + cells[k].c));
    }
    ShiftKeepsDistinct(cells, row, col);
    FittingCellsAreEmpty(rows, cols, filled, cells, row, col);
  }

  lemma FittingCellsAreEmpty(rows: nat, cols: nat, filled: set<Cell>, cells: seq<Cell>, row: int, col: int)
    ensures Fits(rows, cols, filled, cells, row, col) <==>
              forall k :: 0 <= k < |cells| ==>
                InBoard(rows, cols, Landing(cells, row, col)[k]) && Landing(cells, row, col)[k] !in filled
  {
    var landing := Landing(cells, row, col);
    assert forall k :: 0 <= k < |cells| ==> landing[k] == Cell(row + cells[k].r, col + cells[k].c);
  }

  lemma ShiftKeepsDistinct(cells: seq<Cell>, row: int, col: int)
    requires NoDuplicates(cells)
    ensures NoDuplicates(Landing(cells, row, col))
  {
    var landing := Landing(cells, row, col);
    forall i, j | 0 <= i < j < |landing| ensures landing[i] != landing[j] {
      assert cells[i] != cells[j];
      assert landing[i] == Cell(row + cells[i].r, col + cells[i].c);
      assert landing[j] == Cell(row + cells[j].r, col + cells[j].c);
    }
  }

  // ------------------------------------------------------------------ boards

  datatype Piece = Piece(shape: Shape, cells: seq<Cell>, col: int, row: int, targetRow: int)

  /** The model's state, with the grid seen as the set of its true cells. */
  datatype Board = Board(
    rows: nat, cols: nat, totalCells: nat, filled: set<Cell>, target: int, piece: Option<Piece>)

  function Room(b: Board): int { b.target - |b.filled| }

  function FinishTail(b: Board): int {
    Min(FINISH_TAIL_CELLS, Max(CELLS_PER_PIECE, b.totalCells / 3))
  }

  predicate Finishing(b: Board) { b.totalCells - |b.filled| <= FinishTail(b) }

  /** A falling piece is above its landing row, and its landing cells are four empty board cells. */
  ghost predicate PieceOk(b: Board, p: Piece) {
    && IsPlacement(b.rows, b.cols, b.filled, Placement(p.shape, p.cells, p.targetRow, p.col))
    && 0 <= p.row <= p.targetRow <= p.row + MAX_FALL_ROWS
  }

  ghost predicate Inv(b: Board) {
    && |b.filled| <= b.totalCells
    && (forall x :: x in b.filled ==> InBoard(b.rows, b.cols, x))
    && 0 <= b.target <= b.totalCells
    && (b.piece.Some? ==> PieceOk(b, b.piece.value))
  }

  /** How many of `n` offered cells get locked: never past the target. */
  function LockCount(b: Board, n: nat): nat { Min(n, Max(0, Room(b))) }

  ghost predicate CanPlace(b: Board) {
    exists p :: IsPlacement(b.rows, b.cols, b.filled, p)
  }

  /** `after` is `b` with the first cells of `batch` locked, as many as the target allows. */
  ghost predicate Locks(b: Board, batch: seq<Cell>, after: Board) {
    after == b.(filled := b.filled + Elements(batch[..LockCount(b, |batch|)]))
  }

  /** One turn of `_advance` on a board still short of its target. */
  ghost predicate Advances(b: Board, instant: bool, after: Board) {
    if Finishing(b) || !CanPlace(b) then
      exists batch :: ScatterBatch(b, batch) && Locks(b, batch, after)
    else
      exists p :: Drops(b, instant, p, after)
  }

  /** Four empty cells anywhere, or all that are left. */
  ghost predicate ScatterBatch(b: Board, batch: seq<Cell>) {
    FreshCells(b.rows, b.cols, b.filled, batch) && |batch| == Min(CELLS_PER_PIECE, b.totalCells - |b.filled|)
  }

  ghost predicate Drops(b: Board, instant: bool, p: Placement, after: Board) {
    && IsPlacement(b.rows, b.cols, b.filled, p)
    && if instant then Locks(b, Landing(p.cells, p.row, p.col), after)
       else after == b.(piece := Some(Piece(p.shape, p.cells, p.col, Max(0, p.row - MAX_FALL_ROWS), p.row)))
  }

  /** The catch-up loop: instant turns until at most CATCHUP_BUFFER_CELLS are missing. */
  ghost predicate CatchesUp(b: Board, after: Board)
    decreases Room(b)
  {
    if Room(b) <= CATCHUP_BUFFER_CELLS then after == b
    else exists next :: CatchUpTurn(b, next) && CatchesUp(next, after)
  }

  ghost predicate CatchUpTurn(b: Board, next: Board) {
    Advances(b, true, next) && Room(next) < Room(b)
  }

  /** Everything one call of `Step` may do. */
  ghost predicate Steps(b: Board, after: Board) {
    match b.piece
    case Some(p) =>
      if p.row < p.targetRow then after == b.(piece := Some(p.(row := p.row + 1)))
      else Locks(b.(piece := None), Landing(p.cells, p.row, p.col), after)
    case None =>
      exists mid :: CatchesUp(b, mid) && (if Room(mid) <= 0 then after == mid else Advances(mid, false, after))
  }

  /** At rest: nothing falls and no cell is missing. */
  predicate Settled(b: Board) { b.piece.None? && Room(b) <= 0 }
}
