/** The board model, updated in place. Random draws are nondeterministic, so every contract
    here holds whatever they return. */
module Tetris {
  import opened Wrappers
  import opened TetrisSpec
  import opened TetrisRuns
  import opened TetrisShapes
  import opened Shuffling

  /** The integer nearest to `fraction` of the cells, clamped to the board. */
  ghost predicate RoundsFraction(fraction: real, total: nat, n: int) {
    && (fraction <= 0.0 ==> n == 0)
    && (fraction >= 1.0 ==> n == total)
    && (0.0 <= fraction <= 1.0 ==> fraction * total as real - 0.5 < n as real <= fraction * total as real + 0.5)
  }

  lemma ClampedFractionRounds(fraction: real, clamped: real, total: nat, n: int)
    requires clamped == if fraction < 0.0 then 0.0 else if fraction > 1.0 then 1.0 else fraction
    requires n == (clamped * total as real + 0.5).Floor
    ensures 0 <= n <= total && RoundsFraction(fraction, total, n)
  {
    var t := total as real;
    assert 0.0 <= clamped * t <= t;
  }

  class TetrisBoardModel {
    const rows: nat
    const cols: nat
    const totalCells: nat
    const finishTail: int
    const grid: array2<bool>
    var filledCount: int
    var targetFilledCount: int
    var currentPiece: Option<Piece>

    ghost function Filled(): (s: set<Cell>)
      reads grid
    {
      set x | x in AllCells(grid.Length0, grid.Length1) && grid[x.r, x.c]
    }

    ghost function View(): Board
      reads this, grid
    {
      Board(rows, cols, totalCells, Filled(), targetFilledCount, currentPiece)
    }

    /** Everything but the falling piece. */
    ghost predicate GridOk()
      reads this, grid
    {
      && grid.Length0 == rows && grid.Length1 == cols
      && totalCells == |AllCells(rows, cols)|
      && finishTail == FinishTail(View())
      && filledCount == |Filled()|
      && Inv(View().(piece := None))
    }

    ghost predicate Valid()
      reads this, grid
    {
      GridOk() && Inv(View())
    }

    constructor (rows: nat, cols: nat)
      ensures Valid() && fresh(grid)
      ensures View() == Board(rows, cols, rows * cols, {}, 0, None)
    {
      this.rows := rows;
      this.cols := cols;
      grid := new bool[rows, cols]((i, j) => false);
      filledCount := 0;
      targetFilledCount := 0;
      currentPiece := None;
      totalCells := rows * cols;
      finishTail := Min(FINISH_TAIL_CELLS, Max(CELLS_PER_PIECE, rows * cols / 3));
      new;
      BoardCount(rows, cols, AllCells(rows, cols));
      assert Filled() == {};
    }

    /** Clamps the fraction and rounds half up, as Math.round does. */
    method SetProgress(fraction: real)
      requires Valid()
      modifies this`targetFilledCount
      ensures Valid() && Retargets(old(View()), View())
      ensures RoundsFraction(fraction, totalCells, targetFilledCount)
    {
      var target := Nearest(fraction);
      RetargetKeepsInv(View(), target);
      targetFilledCount := target;
    }

    method Nearest(fraction: real) returns (target: int)
      ensures 0 <= target <= totalCells && RoundsFraction(fraction, totalCells, target)
    {
      var clamped := if fraction < 0.0 then 0.0 else if fraction > 1.0 then 1.0 else fraction;
      target := (clamped * totalCells as real + 0.5).Floor;
      ClampedFractionRounds(fraction, clamped, totalCells, target);
    }

    lemma FilledHas(x: Cell)
      requires grid.Length0 == rows && grid.Length1 == cols
      ensures x in Filled() <==> InBoard(rows, cols, x) && grid[x.r, x.c]
    {
    }

    lemma FilledInBoard()
      requires grid.Length0 == rows && grid.Length1 == cols
      ensures forall x :: x in Filled() ==> InBoard(rows, cols, x)
    {
    }

    method FitsAt(cells: seq<Cell>, row: int, col: int) returns (fits: bool)
      requires GridOk()
      ensures fits <==> Fits(rows, cols, Filled(), cells, row, col)
    {
      for k := 0 to |cells|
        invariant Fits(rows, cols, Filled(), cells[..k], row, col)
      {
        var r, c := row + cells[k].r, col + cells[k].c;
        FilledHas(Cell(r, c));
        if r < 0 || r >= rows || c < 0 || c >= cols {
          assert !InBoard(rows, cols, Cell(row + cells[k].r, col + cells[k].c));
          return false;
        }
        if grid[r, c] {
          return false;
        }
        assert cells[..k + 1] == cells[..k] + [cells[k]];
      }
      assert cells[..|cells|] == cells;
      return true;
    }

    lemma SetCell(x: Cell, before: set<Cell>)
      requires grid.Length0 == rows && grid.Length1 == cols
      requires InBoard(rows, cols, x) && grid[x.r, x.c]
      requires forall y :: InBoard(rows, cols, y) && y != x ==> (grid[y.r, y.c] <==> y in before)
      requires forall y :: y in before ==> InBoard(rows, cols, y)
      ensures Filled() == before + {x}
    {
      forall y ensures y in Filled() <==> y in before + {x} {
        FilledHas(y);
      }
    }

    lemma OneMoreElement(start: set<Cell>, cells: seq<Cell>, k: nat)
      requires k < |cells|
      ensures start + Elements(cells[..k + 1]) == start + Elements(cells[..k]) + {cells[k]}
    {
    }

    /** The loop body of `LockCells`: counts a cell only the first time it is filled. */
    method LockCell(x: Cell) returns (added: bool)
      requires grid.Length0 == rows && grid.Length1 == cols && InBoard(rows, cols, x)
      modifies this`filledCount, grid
      ensures added <==> x !in old(Filled())
      ensures Filled() == old(Filled()) + {x}
      ensures |Filled()| == |old(Filled())| + (if added then 1 else 0)
      ensures filledCount == old(filledCount) + (if added then 1 else 0)
    {
      ghost var before := Filled();
      forall y { FilledHas(y); }
      added := !grid[x.r, x.c];
      if added {
        grid[x.r, x.c] := true;
        filledCount := filledCount + 1;
      }
      SetCell(x, before);
    }

    /** Locks cells in order until the target is met, skipping filled ones; `taken` cells were looked at. */
    method LockCells(cells: seq<Cell>) returns (locked: nat, taken: nat)
      requires GridOk()
      requires forall k :: 0 <= k < |cells| ==> InBoard(rows, cols, cells[k])
      modifies this`filledCount, grid
      ensures GridOk() && taken <= |cells|
      ensures View() == old(View()).(filled := old(Filled()) + Elements(cells[..taken]))
      ensures locked == |Filled()| - |old(Filled())| && locked <= Max(0, old(Room(View())))
      ensures taken < |cells| ==> locked == Max(0, old(Room(View())))
    {
      var remaining := targetFilledCount - filledCount;
      locked := 0;
      taken := 0;
      ghost var start, now := Filled(), Filled();
      assert now == start + Elements(cells[..0]);
      while taken < |cells| && locked < remaining
        invariant 0 <= taken <= |cells| && locked <= Max(0, remaining)
        invariant filledCount == |now| && filledCount == |start| + locked
        invariant Filled() == now && now == start + Elements(cells[..taken])
      {
        var added := LockCell(cells[taken]);
        if added {
          locked := locked + 1;
        }
        OneMoreElement(start, cells, taken);
        now := now + {cells[taken]};
        taken := taken + 1;
      }
      FilledInBoard();
    }

    /** Up to `limit` empty cells, drawn at random without replacement. */
    method CollectEmptyCells(limit: nat) returns (batch: seq<Cell>)
      requires GridOk()
      ensures FreshCells(rows, cols, Filled(), batch) && |batch| == Min(limit, totalCells - |Filled()|)
    {
      var empty: seq<Cell> := [];
      for r := 0 to rows
        invariant NoDuplicates(empty)
        invariant forall x :: x in empty <==> InBoard(rows, cols, x) && x.r < r && !grid[x.r, x.c]
      {
        for c := 0 to cols
          invariant NoDuplicates(empty)
          invariant forall x :: x in empty <==>
                      InBoard(rows, cols, x) && (x.r < r || (x.r == r && x.c < c)) && !grid[x.r, x.c]
        {
          if !grid[r, c] {
            empty := empty + [Cell(r, c)];
          }
        }
      }
      forall y { FilledHas(y); }
      EmptyCellCount(empty);
      var a := new Cell[|empty|](i requires 0 <= i < |empty| => empty[i]);
      assert a[..] == empty;
      batch := PartialShuffle(a, limit);
      DrawIsDistinct(empty, a[..], |batch|);
    }

    lemma EmptyCellCount(empty: seq<Cell>)
      requires GridOk() && NoDuplicates(empty)
      requires forall x :: x in empty <==> InBoard(rows, cols, x) && x !in Filled()
      ensures |empty| == totalCells - |Filled()|
    {
      DistinctCardinality(empty);
      assert Elements(empty) == AllCells(rows, cols) - Filled();
    }

    /** Every column of one row, in random order. */
    method TryEveryColumn(cells: seq<Cell>, row: int) returns (spot: Option<int>)
      requires GridOk() && TightBox(cells) && MaxCol(cells) + 1 <= cols
      ensures spot.Some? ==> Fits(rows, cols, Filled(), cells, row, spot.value)
      ensures spot.None? ==> FitsNowhereInRow(rows, cols, Filled(), cells, row)
    {
      var width := MaxCol(cells) + 1;
      var shuffled := ShuffledRange(cols - width + 1);
      spot := FirstFit(cells, row, shuffled);
      if spot.None? {
        AllColumnsTried(rows, cols, Filled(), cells, row, shuffled);
      }
    }

    method FirstFit(cells: seq<Cell>, row: int, columns: seq<int>) returns (spot: Option<int>)
      requires GridOk()
      ensures spot.Some? ==> Fits(rows, cols, Filled(), cells, row, spot.value)
      ensures spot.None? ==> forall k :: 0 <= k < |columns| ==> !Fits(rows, cols, Filled(), cells, row, columns[k])
    {
      ghost var filled := Filled();
      for j := 0 to |columns|
        invariant forall k :: 0 <= k < j ==> !Fits(rows, cols, filled, cells, row, columns[k])
      {
        var fits := FitsAt(cells, row, columns[j]);
        if fits {
          return Some(columns[j]);
        }
      }
      spot := None;
    }

    /** Every position of one rotation, in random order. */
    method TryEverySpot(cells: seq<Cell>) returns (spot: Option<(int, int)>)
      requires GridOk() && TightBox(cells)
      ensures spot.Some? ==> Fits(rows, cols, Filled(), cells, spot.value.0, spot.value.1)
      ensures spot.None? ==> FitsNowhere(rows, cols, Filled(), cells)
    {
      ghost var filled := Filled();
      var width, height := MaxCol(cells) + 1, MaxRow(cells) + 1;
      var shuffled: seq<int> := [];
      if width <= cols && height <= rows {
        shuffled := ShuffledRange(rows - height + 1);
        for i := 0 to |shuffled|
          invariant forall k :: 0 <= k < i ==> FitsNowhereInRow(rows, cols, filled, cells, shuffled[k])
        {
          var col := TryEveryColumn(cells, shuffled[i]);
          if col.Some? {
            return Some((shuffled[i], col.value));
          }
        }
      }
      AllRowsTried(rows, cols, filled, cells, shuffled);
      spot := None;
    }

    /** Every rotation on offer, in random order. */
    method TryEveryRotation(table: seq<seq<Cell>>) returns (r: Option<(seq<Cell>, int, int)>)
      requires GridOk() && forall cells :: cells in table ==> TightBox(cells)
      ensures r.Some? ==> r.value.0 in table && Fits(rows, cols, Filled(), r.value.0, r.value.1, r.value.2)
      ensures r.None? ==> forall cells :: cells in table ==> FitsNowhere(rows, cols, Filled(), cells)
    {
      ghost var filled := Filled();
      var rotations := ShuffledCopy(table);
      for i := 0 to |rotations|
        invariant forall k :: 0 <= k < i ==> FitsNowhere(rows, cols, filled, rotations[k])
      {
        assert rotations[i] in table;
        var spot := TryEverySpot(rotations[i]);
        if spot.Some? {
          return Some((rotations[i], spot.value.0, spot.value.1));
        }
      }
      forall cells | cells in table ensures FitsNowhere(rows, cols, filled, cells) {
        assert cells in rotations;
      }
      r := None;
    }

    method TryShape(shape: Shape) returns (r: Option<Placement>)
      requires GridOk()
      ensures r.Some? ==> IsPlacement(rows, cols, Filled(), r.value)
      ensures r.None? ==> NoRotationFits(rows, cols, Filled(), shape)
    {
      forall cells | cells in Rotations(shape) ensures TightBox(cells) {
        RotationIsTightBox(shape, cells);
      }
      var found := TryEveryRotation(Rotations(shape));
      r := if found.None? then None else Some(Placement(shape, found.value.0, found.value.1, found.value.2));
    }

    /** A dozen random tries, then every shape, rotation and position: a placement is found exactly if four
        empty cells are joined at their edges. */
    method FindPlacement() returns (r: Option<Placement>)
      requires GridOk()
      ensures r.Some? ==> IsPlacement(rows, cols, Filled(), r.value)
      ensures r.Some? <==> HasRoomForAPiece(View())
    {
      r := SearchPlacement();
      CanPlaceIff(View());
    }

    method SearchPlacement() returns (r: Option<Placement>)
      requires GridOk()
      ensures r.Some? ==> IsPlacement(rows, cols, Filled(), r.value)
      ensures r.None? ==> !CanPlace(View())
    {
      for i := 0 to SPAWN_ATTEMPTS {
        r := TryAtRandom();
        if r.Some? {
          return;
        }
      }
      ghost var filled := Filled();
      var shapes := ShuffledCopy(SHAPES);
      for i := 0 to |shapes|
        invariant forall k :: 0 <= k < i ==> NoRotationFits(rows, cols, filled, shapes[k])
      {
        r := TryShape(shapes[i]);
        if r.Some? {
          return;
        }
      }
      AllShapesTried(rows, cols, filled, shapes);
      r := None;
    }

    method TryAtRandom() returns (r: Option<Placement>)
      requires GridOk()
      ensures r.Some? ==> IsPlacement(rows, cols, Filled(), r.value)
    {
      var shape := Choice(SHAPES);
      var cells := RandomRotation(shape);
      var width, height := MaxCol(cells) + 1, MaxRow(cells) + 1;
      r := None;
      if width <= cols && height <= rows {
        var row := RandInt(0, rows - height);
        var col := RandInt(0, cols - width);
        var fits := FitsAt(cells, row, col);
        if fits {
          r := Some(Placement(shape, cells, row, col));
        }
      }
    }

    method RandomRotation(shape: Shape) returns (cells: seq<Cell>)
      ensures cells in Rotations(shape) && TightBox(cells)
    {
      assert |Rotations(shape)| > 0 by {
        match shape case I => case O => case T => case S => case Z => case J => case L =>
      }
      cells := Choice(Rotations(shape));
      RotationIsTightBox(shape, cells);
    }

    method InFinishingMode() returns (finishing: bool)
      requires GridOk()
      ensures finishing <==> Finishing(View())
    {
      finishing := totalCells - filledCount <= finishTail;
    }

    /** Locks a batch of empty cells: its first cells, as many as the target allows. */
    method LockFresh(batch: seq<Cell>)
      requires GridOk() && FreshCells(rows, cols, Filled(), batch)
      modifies this`filledCount, grid
      ensures GridOk() && Locks(old(View()), batch, View())
    {
      ghost var before := View();
      var locked, taken := LockCells(batch);
      TakenIsLockCount(before, batch, locked, taken);
    }

    /** The fallback of a turn: four empty cells at random, or all that are left. */
    method LockScattered() returns (acted: bool)
      requires GridOk() && Room(View()) > 0
      modifies this`filledCount, grid
      ensures acted && GridOk()
      ensures exists batch :: ScatterBatch(old(View()), batch) && Locks(old(View()), batch, View())
    {
      var cells := CollectEmptyCells(CELLS_PER_PIECE);
      if |cells| == 0 {
        return false;
      }
      assert ScatterBatch(View(), cells);
      LockFresh(cells);
      return true;
    }

    /** One turn: scattered cells near the end or when nothing fits, else a tetromino, locked at once
        or starting to fall. */
    method Advance(instant: bool) returns (acted: bool)
      requires Valid() && currentPiece.None?
      modifies this, grid
      ensures GridOk()
      ensures acted <==> old(Room(View())) > 0
      ensures if acted then Advances(old(View()), instant, View()) else View() == old(View())
    {
      var remaining := targetFilledCount - filledCount;
      if remaining <= 0 {
        return false;
      }
      var finishing := InFinishingMode();
      if finishing {
        acted := LockScattered();
        return;
      }
      var placement := FindPlacement();
      CanPlaceIff(View());
      if placement.None? {
        acted := LockScattered();
        return;
      }
      var p := placement.value;
      Drop(instant, p);
      return true;
    }

    method Drop(instant: bool, p: Placement)
      requires GridOk() && currentPiece.None? && IsPlacement(rows, cols, Filled(), p)
      modifies this, grid
      ensures GridOk() && Drops(old(View()), instant, p, View())
    {
      LandingIsFourEmptyCells(rows, cols, Filled(), p);
      if instant {
        LockFresh(Landing(p.cells, p.row, p.col));
      } else {
        currentPiece := Some(Piece(p.shape, p.cells, p.col, Max(0, p.row - MAX_FALL_ROWS), p.row));
      }
    }

    /** The catch-up loop of `Step`. Its guard `Advance(true)` never refuses while it runs. */
    method CatchUp() returns (changed: bool)
      requires Valid() && currentPiece.None?
      modifies this, grid
      ensures Valid() && currentPiece.None? && CatchesUp(old(View()), View())
      ensures changed <==> old(Room(View())) > CATCHUP_BUFFER_CELLS
    {
      ghost var start := View();
      changed := false;
      while targetFilledCount - filledCount > CATCHUP_BUFFER_CELLS
        invariant Valid() && currentPiece.None?
        invariant forall mid :: CatchesUp(View(), mid) ==> CatchesUp(start, mid)
        invariant changed <==> View() != start
        invariant Room(View()) <= Room(start)
        invariant changed <==> Room(View()) < Room(start)
        invariant changed ==> Room(start) > CATCHUP_BUFFER_CELLS
        decreases targetFilledCount - filledCount
      {
        ghost var before := View();
        var acted := Advance(true);
        if !acted {
          break;
        }
        changed := true;
        AdvanceEffect(before, true, View());
        assert CatchUpTurn(before, View());
      }
    }

    /** The falling piece moves down a row, or locks on its target row. */
    method Fall()
      requires Valid() && currentPiece.Some?
      modifies this, grid
      ensures GridOk() && Steps(old(View()), View())
    {
      ghost var before := View();
      var piece := currentPiece.value;
      if piece.row < piece.targetRow {
        SetPiece(Some(piece.(row := piece.row + 1)));
      } else {
        PieceLandsOnEmptyCells(before);
        LockFresh(Landing(piece.cells, piece.row, piece.col));
        LocksBesidePiece(before, Landing(piece.cells, piece.row, piece.col), View());
        SetPiece(None);
      }
    }

    method SetPiece(piece: Option<Piece>)
      requires GridOk()
      modifies this`currentPiece
      ensures GridOk() && View() == old(View()).(piece := piece)
    {
      currentPiece := piece;
    }

    method Step() returns (changed: bool)
      requires Valid()
      modifies this, grid
      ensures Valid() && Steps(old(View()), View())
      ensures changed <==> View() != old(View())
    {
      ghost var before := View();
      if currentPiece.None? {
        changed := CatchUp();
        ghost var mid := View();
        var _ := CatchUpEffect(before, mid);
        if filledCount < targetFilledCount {
          var acted := Advance(false);
          if acted {
            changed := true;
          }
        }
        assert CatchesUp(before, mid) && (if Room(mid) <= 0 then View() == mid else Advances(mid, false, View()));
      } else {
        Fall();
        changed := true;
      }
      StepEffect(before, View());
    }
  }
}
