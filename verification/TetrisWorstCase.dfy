/** The bound of 39 steps is reached: a run of the default board that is not at rest after 38. */
module TetrisWorstCase {
  import opened Wrappers
  import opened Runs
  import opened TetrisSpec
  import opened TetrisRuns

  const ROWS := 8
  const COLS := 18
  const GOAL := 20

  /** `q` O-pieces side by side on the floor. */
  ghost function Stack(q: nat): (s: set<Cell>)
    ensures forall x :: x in s <==> 6 <= x.r < 8 && 0 <= x.c < 2 * q
  {
    set r, c | 6 <= r < 8 && 0 <= c < 2 * q :: Cell(r, c)
  }

  function OCells(): seq<Cell> { [Cell(0, 0), Cell(0, 1), Cell(1, 0), Cell(1, 1)] }

  function OLanding(q: nat): seq<Cell> {
    [Cell(6, 2 * q), Cell(6, 2 * q + 1), Cell(7, 2 * q), Cell(7, 2 * q + 1)]
  }

  lemma OLandsThere(q: nat)
    ensures Landing(OCells(), 6, 2 * q) == OLanding(q)
  {
    var landing := Landing(OCells(), 6, 2 * q);
    forall k | 0 <= k < 4 ensures landing[k] == OLanding(q)[k] {
      assert landing[k] == Cell(6 + OCells()[k].r, 2 * q + OCells()[k].c);
    }
  }

  lemma StackGrows(q: nat)
    ensures Stack(q + 1) == Stack(q) + Elements(OLanding(q))
  {
    var x := OLanding(q);
    assert Elements(x) == {x[0], x[1], x[2], x[3]};
  }

  lemma StackIsApart(q: nat)
    ensures Stack(q) !! Elements(OLanding(q)) && |Elements(OLanding(q))| == 4
  {
    var landing := OLanding(q);
    DistinctCardinality(landing);
    forall x | x in Elements(landing) ensures x.c >= 2 * q {
    }
  }

  lemma {:induction false} StackCount(q: nat)
    ensures |Stack(q)| == 4 * q
  {
    if q == 0 {
      assert Stack(0) == {};
    } else {
      StackCount(q - 1);
      StackGrows(q - 1);
      StackIsApart(q - 1);
      UnionCount(Stack(q - 1), Elements(OLanding(q - 1)));
    }
  }

  lemma UnionCount(s: set<Cell>, t: set<Cell>)
    requires s !! t
    ensures |s + t| == |s| + |t|
  {
  }

  ghost function Resting(q: nat): Board {
    Board(ROWS, COLS, 144, Stack(q), GOAL, None)
  }

  /** `q` pieces down, the next one `fallen` rows on its way. */
  ghost function Falling(q: nat, fallen: nat): Board {
    Resting(q).(piece := Some(Piece(O, OCells(), 2 * q, fallen, 6)))
  }

  /** The worst run: seven states of a fall, one at rest, five times over. */
  ghost function Slow(i: nat): Board {
    if i % 8 == 7 then Resting(i / 8 + 1) else Falling(i / 8, i % 8)
  }

  lemma OFits(q: nat)
    requires q < 9
    ensures IsPlacement(ROWS, COLS, Stack(q), Placement(O, OCells(), 6, 2 * q))
  {
    var cells := OCells();
    assert Rotations(O)[0] == cells;
    forall k | 0 <= k < |cells|
      ensures InBoard(ROWS, COLS, Cell(6 + cells[k].r, 2 * q + cells[k].c))
      ensures Cell(6 + cells[k].r, 2 * q + cells[k].c) !in Stack(q)
    {
    }
  }

  lemma LocksAll(q: nat)
    requires q < 5
    ensures Locks(Resting(q), OLanding(q), Resting(q + 1))
  {
    StackCount(q);
    StackGrows(q);
    assert LockCount(Resting(q), 4) == 4;
    assert OLanding(q)[..4] == OLanding(q);
  }

  lemma Lands(q: nat)
    requires q < 5
    ensures Steps(Falling(q, 6), Resting(q + 1))
  {
    LocksAll(q);
    OLandsThere(q);
    assert Falling(q, 6).(piece := None) == Resting(q);
  }

  lemma Spawns(q: nat, goal: nat)
    requires q < 9 && 4 * q < goal <= 4 * q + CATCHUP_BUFFER_CELLS
    ensures Steps(Resting(q).(target := goal), Falling(q, 0).(target := goal))
  {
    var b := Resting(q).(target := goal);
    StackCount(q);
    OFits(q);
    var p := Placement(O, OCells(), 6, 2 * q);
    assert Drops(b, false, p, Falling(q, 0).(target := goal));
    assert CatchesUp(b, b);
  }

  lemma SlowSteps(i: nat)
    requires i < 39
    ensures Steps(Slow(i), Slow(i + 1))
  {
    var q := i / 8;
    if i % 8 == 7 {
      Spawns(q + 1, GOAL);
      assert (i + 1) / 8 == q + 1 && (i + 1) % 8 == 0;
    } else if i % 8 == 6 {
      Lands(q);
      assert (i + 1) / 8 == q && (i + 1) % 8 == 7;
    } else {
      assert (i + 1) / 8 == q && (i + 1) % 8 == i % 8 + 1;
    }
  }

  lemma ReachesWorstStart() returns (start: seq<Board>)
    ensures |start| == 4 && IsRun(start, StepsOrRetargets)
    ensures start[0] == Board(ROWS, COLS, ROWS * COLS, {}, 0, None) && start[3] == Slow(0)
  {
    start := [Resting(0).(target := 0), Resting(0).(target := 4), Falling(0, 0).(target := 4), Falling(0, 0)];
    assert Stack(0) == {};
    Spawns(0, 4);
  }

  /** From a fresh board, three moves reach a state that then needs all 39 steps. */
  lemma BoundIsReached() returns (start: seq<Board>, run: seq<Board>)
    ensures |start| == 4 && start[0] == Board(8, 18, 144, {}, 0, None)
    ensures |run| == 40 && run[0] == start[3]
    ensures IsRun(start, StepsOrRetargets) && IsRun(run, Steps)
    ensures !Settled(run[38]) && Settled(run[39])
  {
    start := ReachesWorstStart();
    run := seq(39 + 1, i requires 0 <= i <= 39 => Slow(i));
    forall i | 0 <= i < |run| - 1 ensures Steps(run[i], run[i + 1]) {
      SlowSteps(i);
    }
    StackCount(5);
  }
}
