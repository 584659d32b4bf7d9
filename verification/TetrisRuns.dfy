/** What every run of the board keeps, and how fast it reaches its target. */
module TetrisRuns {
  import opened Wrappers
  import opened Runs
  import opened TetrisSpec
  import opened TetrisShapes

  // ------------------------------------------------------------------ one lock, one turn

  /** Locking fresh cells adds exactly as many as were allowed, all inside the board. */
  lemma LocksExactly(b: Board, batch: seq<Cell>, after: Board)
    requires Inv(b.(piece := None)) && FreshCells(b.rows, b.cols, b.filled, batch) && Locks(b, batch, after)
    ensures |after.filled| == |b.filled| + Min(|batch|, Max(0, b.target - |b.filled|))
    ensures after.filled <= b.filled + Elements(batch)
    ensures b.filled <= after.filled && forall x :: x in after.filled ==> InBoard(b.rows, b.cols, x)
  {
    var taken := batch[..LockCount(b, |batch|)];
    DistinctCardinality(taken);
    assert Elements(taken) !! b.filled;
  }

  /** `_lockCells` on fresh cells stops exactly where `LockCount` says. */
  lemma TakenIsLockCount(b: Board, batch: seq<Cell>, locked: nat, taken: nat)
    requires Inv(b.(piece := None)) && FreshCells(b.rows, b.cols, b.filled, batch) && taken <= |batch|
    requires locked == |b.filled + Elements(batch[..taken])| - |b.filled| && locked <= Max(0, Room(b))
    requires taken < |batch| ==> locked == Max(0, Room(b))
    ensures taken == locked == LockCount(b, |batch|)
  {
    var cells := batch[..taken];
    DistinctCardinality(cells);
    assert Elements(cells) !! b.filled;
  }

  lemma ScatterEffect(b: Board, batch: seq<Cell>, after: Board)
    requires Inv(b) && b.piece.None? && Room(b) > 0 && ScatterBatch(b, batch) && Locks(b, batch, after)
    ensures Inv(after) && after == b.(filled := after.filled) && b.filled <= after.filled
    ensures Room(after) == Max(0, Room(b) - CELLS_PER_PIECE)
  {
    LocksExactly(b, batch, after);
  }

  lemma DropEffect(b: Board, instant: bool, p: Placement, after: Board)
    requires Inv(b) && b.piece.None? && Room(b) > 0 && Drops(b, instant, p, after)
    ensures Inv(after) && after == b.(filled := after.filled, piece := after.piece) && b.filled <= after.filled
    ensures instant ==> after.piece.None? && Room(after) == Max(0, Room(b) - CELLS_PER_PIECE)
    ensures !instant ==> after.piece.Some? && after.filled == b.filled
  {
    LandingIsFourEmptyCells(b.rows, b.cols, b.filled, p);
    if instant {
      LocksExactly(b, Landing(p.cells, p.row, p.col), after);
    }
  }

  /** A turn either starts a fall or locks min(4, room) cells; an instant turn never starts a fall. */
  lemma AdvanceEffect(b: Board, instant: bool, after: Board)
    requires Inv(b) && b.piece.None? && Room(b) > 0 && Advances(b, instant, after)
    ensures Inv(after) && after == b.(filled := after.filled, piece := after.piece) && b.filled <= after.filled
    ensures after.piece.None? ==> Room(after) == Max(0, Room(b) - 4)
    ensures after.piece.Some? ==> !instant && !Finishing(b) && after.filled == b.filled
  {
    if Finishing(b) || !CanPlace(b) {
      var batch :| ScatterBatch(b, batch) && Locks(b, batch, after);
      ScatterEffect(b, batch, after);
    } else {
      var p :| Drops(b, instant, p, after);
      DropEffect(b, instant, p, after);
    }
  }

  /** A turn starts a fall exactly if it is not instant, the board is not finishing and four empty cells are
      joined at their edges. */
  lemma FallStartsIff(b: Board, instant: bool, after: Board)
    requires Inv(b) && b.piece.None? && Room(b) > 0 && Advances(b, instant, after)
    ensures after.piece.Some? <==> !instant && !Finishing(b) && HasRoomForAPiece(b)
  {
    CanPlaceIff(b);
    if !Finishing(b) && CanPlace(b) {
      var p :| Drops(b, instant, p, after);
      DropEffect(b, instant, p, after);
    }
  }

  /** A board of at least 36 cells is finishing exactly with at most twelve cells empty, one of fewer than 15
      with at most four, any other with at most a third. */
  lemma FinishingIff(b: Board)
    ensures Finishing(b) <==>
            b.totalCells - |b.filled| <=
            if b.totalCells >= 36 then 12 else if b.totalCells < 15 then 4 else b.totalCells / 3
  {
  }

  /** The catch-up loop locks four cells a turn and stops with 13 to 16 missing. */
  lemma {:induction false} CatchUpEffect(b: Board, mid: Board) returns (turns: nat)
    requires Inv(b) && b.piece.None? && CatchesUp(b, mid)
    ensures Inv(mid) && mid == b.(filled := mid.filled) && b.filled <= mid.filled
    ensures Room(b) <= 16 ==> mid == b
    ensures Room(mid) == Room(b) - 4 * turns
    ensures Room(b) > 16 ==> 13 <= Room(mid) <= 16
    decreases Room(b)
  {
    if Room(b) <= CATCHUP_BUFFER_CELLS {
      turns := 0;
    } else {
      var next :| CatchUpTurn(b, next) && CatchesUp(next, mid);
      AdvanceEffect(b, true, next);
      var rest := CatchUpEffect(next, mid);
      turns := rest + 1;
    }
  }

  /** While the catch-up loop still runs, finishing mode is out of reach. */
  lemma CatchUpNeverFinishes(b: Board)
    requires Inv(b) && Room(b) > 16
    ensures !Finishing(b)
  {
  }

  // ------------------------------------------------------------------ one step

  /** Pieces still to fall once `room` cells are missing and the catch-up loop has run. */
  function PiecesFor(room: int): nat {
    if room <= 0 then 0 else if room <= 4 then 1 else if room <= 8 then 2 else if room <= 12 then 3 else 4
  }

  /** An upper bound on the steps left: eight for a piece, up to seven for one already falling. */
  function Rank(b: Board): nat {
    match b.piece
    case Some(p) => Max(0, p.targetRow - p.row) + 1 + 8 * PiecesFor(Room(b) - CELLS_PER_PIECE)
    case None => 8 * PiecesFor(Room(b))
  }

  lemma RankBounds(b: Board)
    requires Inv(b)
    ensures Rank(b) <= 39
    ensures Rank(b) == 0 <==> Settled(b)
  {
  }

  lemma PieceStepEffect(b: Board, after: Board)
    requires Inv(b) && b.piece.Some? && Steps(b, after)
    ensures Inv(after) && after == b.(filled := after.filled, piece := after.piece) && b.filled <= after.filled
    ensures Rank(after) < Rank(b)
    ensures if after.piece.Some? then after.filled == b.filled
            else |after.filled| == |b.filled| + Min(CELLS_PER_PIECE, Max(0, Room(b)))
  {
    var p := b.piece.value;
    LandingIsFourEmptyCells(b.rows, b.cols, b.filled, Placement(p.shape, p.cells, p.targetRow, p.col));
    if p.row == p.targetRow {
      LocksExactly(b.(piece := None), Landing(p.cells, p.row, p.col), after);
    }
  }

  lemma SpawnStepEffect(b: Board, after: Board)
    requires Inv(b) && b.piece.None? && Steps(b, after)
    ensures Inv(after) && after == b.(filled := after.filled, piece := after.piece) && b.filled <= after.filled
    ensures |after.filled| <= Max(|b.filled|, b.target)
    ensures if Room(b) <= 0 then after == b else Rank(after) < Rank(b)
  {
    var mid :| CatchesUp(b, mid) && (if Room(mid) <= 0 then after == mid else Advances(mid, false, after));
    var _ := CatchUpEffect(b, mid);
    if Room(mid) > 0 {
      AdvanceEffect(mid, false, after);
      PiecesLeft(Room(b), Room(mid));
    }
  }

  /** A dropped piece takes four cells off what the catch-up loop left. */
  lemma PiecesLeft(before: int, mid: int)
    requires 0 < mid <= CATCHUP_BUFFER_CELLS && (before == mid || (before > CATCHUP_BUFFER_CELLS && 13 <= mid))
    ensures PiecesFor(mid - CELLS_PER_PIECE) + 1 == PiecesFor(before)
    ensures PiecesFor(Max(0, mid - CELLS_PER_PIECE)) == PiecesFor(mid - CELLS_PER_PIECE)
  {
  }

  /** One step keeps the invariant, clears no cell, never overshoots, and comes closer to rest. */
  lemma StepEffect(b: Board, after: Board)
    requires Inv(b) && Steps(b, after)
    ensures Inv(after)
    ensures after == b.(filled := after.filled, piece := after.piece) && b.filled <= after.filled
    ensures |after.filled| <= Max(|b.filled|, b.target)
    ensures b.piece.Some? && after.piece.None? ==>
              |after.filled| == |b.filled| + Min(4, Max(0, Room(b)))
    ensures b.piece.Some? && after.piece.Some? ==> after.filled == b.filled
    ensures if Settled(b) then after == b else Rank(after) < Rank(b)
  {
    if b.piece.Some? {
      PieceStepEffect(b, after);
    } else {
      SpawnStepEffect(b, after);
    }
  }

  lemma PieceLandsOnEmptyCells(b: Board)
    requires Inv(b) && b.piece.Some?
    ensures var p := b.piece.value; FreshCells(b.rows, b.cols, b.filled, Landing(p.cells, p.targetRow, p.col))
  {
    var p := b.piece.value;
    LandingIsFourEmptyCells(b.rows, b.cols, b.filled, Placement(p.shape, p.cells, p.targetRow, p.col));
  }

  lemma LocksBesidePiece(b: Board, batch: seq<Cell>, after: Board)
    requires Locks(b, batch, after)
    ensures Locks(b.(piece := None), batch, after.(piece := None))
  {
  }

  // ------------------------------------------------------------------ whole runs

  /** `setProgress` as a transition: any target a fraction in [0, 1] can round to. */
  ghost predicate Retargets(b: Board, after: Board) {
    after == b.(target := after.target) && 0 <= after.target <= b.totalCells
  }

  lemma RetargetKeepsInv(b: Board, target: int)
    requires Inv(b) && 0 <= target <= b.totalCells
    ensures Inv(b.(target := target)) && FinishTail(b.(target := target)) == FinishTail(b)
  {
  }

  ghost predicate StepsOrRetargets(b: Board, after: Board) {
    Steps(b, after) || Retargets(b, after)
  }

  /** Same board, no cell cleared. */
  ghost predicate Grows(b: Board, after: Board) {
    && after.rows == b.rows && after.cols == b.cols && after.totalCells == b.totalCells
    && b.filled <= after.filled
  }

  lemma AnyStepKeeps()
    ensures Preserves(Inv, StepsOrRetargets) && Tracks(Inv, StepsOrRetargets, Grows)
  {
    forall b, after | Inv(b) && StepsOrRetargets(b, after) ensures Inv(after) && Grows(b, after) {
      if Steps(b, after) {
        StepEffect(b, after);
      }
    }
  }

  /** Whatever mix of `setProgress` and `step`: the invariant holds, no cell is ever cleared,
      and the cell count never passes the larger of what it was and the target then in force. */
  lemma RunKeeps(run: seq<Board>, i: nat, j: nat)
    requires IsRun(run, StepsOrRetargets) && i <= j < |run| && Inv(run[i])
    ensures Inv(run[j]) && Grows(run[i], run[j])
    ensures j + 1 < |run| ==> |run[j + 1].filled| <= Max(|run[j].filled|, run[j].target)
  {
    AnyStepKeeps();
    PreorderAlongRun(run, Inv, StepsOrRetargets, Grows, i, j);
    if j + 1 < |run| {
      assert StepsOrRetargets(run[j], run[j + 1]);
      if Steps(run[j], run[j + 1]) {
        StepEffect(run[j], run[j + 1]);
      }
    }
  }

  ghost predicate Falling(b: Board) { Inv(b) && b.piece.Some? }

  function PieceAtTop(b: Board): Option<Piece> {
    if b.piece.None? then None else Some(b.piece.value.(row := 0))
  }

  /** No cell changed, and the piece is the same up to how far it has fallen. */
  ghost predicate FallStep(b: Board, after: Board) {
    after.filled == b.filled && PieceAtTop(after) == PieceAtTop(b)
  }

  ghost predicate StepsWhileFalling(b: Board, after: Board) {
    StepsOrRetargets(b, after) && after.piece.Some?
  }

  /** A falling piece keeps its landing cells empty until the step that locks it, even when the
      target changes on the way. */
  lemma FallingPieceKeepsItsCells(run: seq<Board>, i: nat, j: nat)
    requires IsRun(run, StepsWhileFalling) && i <= j < |run| && Falling(run[i])
    ensures Falling(run[j]) && run[j].filled == run[i].filled
    ensures run[j].piece.value == run[i].piece.value.(row := run[j].piece.value.row)
  {
    forall b, after | Falling(b) && StepsWhileFalling(b, after)
      ensures Falling(after) && FallStep(b, after)
    {
      if Steps(b, after) {
        StepEffect(b, after);
      }
    }
    PreorderAlongRun(run, Falling, StepsWhileFalling, FallStep, i, j);
  }

  /** With the target left alone, every run is at rest after 39 steps and stays there, with exactly
      max(cells at the start, target) cells: the bound does not depend on the board or the random choices. */
  lemma Converges(run: seq<Board>, n: nat)
    requires IsRun(run, Steps) && 39 <= n < |run| && Inv(run[0])
    ensures Settled(run[n]) && |run[n].filled| == Max(|run[0].filled|, run[0].target)
    ensures forall k :: n <= k < |run| ==> run[k] == run[n]
  {
    forall b, after | Inv(b) && Steps(b, after)
      ensures Inv(after) && SameGoal(b, after) && (if Rank(b) == 0 then after == b else Rank(after) < Rank(b))
    {
      StepEffect(b, after);
      RankBounds(b);
      SubsetCardinality(b.filled, after.filled);
    }
    RankAlongRun(run, Inv, Steps, Rank, n);
    PreorderAlongRun(run, Inv, Steps, SameGoal, 0, n);
    RankBounds(run[0]);
    RankBounds(run[n]);
  }

  /** The target stays, and the cell count lies between what it was and what it may become. */
  ghost predicate SameGoal(b: Board, after: Board) {
    after.target == b.target && |b.filled| <= |after.filled| <= Max(|b.filled|, b.target)
  }
}
