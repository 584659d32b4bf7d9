/** What the table of rotations holds, said without it: every way to join four cells edge to edge. */
module TetrisShapes {
  import opened Wrappers
  import opened TetrisSpec

  // ------------------------------------------------------------------ cells joined at their edges

  predicate Adjacent(x: Cell, y: Cell) {
    || (x.r == y.r && (x.c == y.c + 1 || y.c == x.c + 1))
    || (x.c == y.c && (x.r == y.r + 1 || y.r == x.r + 1))
  }

  predicate Joined(w: Cell, x: Cell, y: Cell) {
    w != y && x != y && Adjacent(w, x) && (Adjacent(w, y) || Adjacent(x, y))
  }

  /** Four distinct cells, each after the first at the edge of an earlier one. */
  predicate JoinedFour(w: Cell, x: Cell, y: Cell, z: Cell) {
    && Joined(w, x, y) && z != w && z != x && z != y
    && (Adjacent(w, z) || Adjacent(x, z) || Adjacent(y, z))
  }

  ghost predicate Free(b: Board, x: Cell) { InBoard(b.rows, b.cols, x) && x !in b.filled }

  ghost predicate FourFree(b: Board, w: Cell, x: Cell, y: Cell, z: Cell) {
    Free(b, w) && Free(b, x) && Free(b, y) && Free(b, z)
  }

  /** Somewhere on the board four empty cells are joined at their edges. */
  ghost predicate HasRoomForAPiece(b: Board) {
    exists w, x, y, z :: JoinedFour(w, x, y, z) && FourFree(b, w, x, y, z)
  }

  // ------------------------------------------------------------------ every listed rotation is joined

  function Shifted(x: Cell, row: int, col: int): Cell { Cell(row + x.r, col + x.c) }

  lemma ListedIsJoined(shape: Shape, n: nat) returns (i: nat, j: nat, k: nat, l: nat)
    requires n < |Rotations(shape)|
    ensures i < 4 && j < 4 && k < 4 && l < 4 && |Rotations(shape)[n]| == 4
    ensures var q := Rotations(shape)[n]; JoinedFour(q[i], q[j], q[k], q[l])
  {
    i, j, k, l := 0, 1, 2, 3;
    match shape
    case I =>
    case O =>
    case T =>
      if n == 0 || n == 3 {
        i, j, k, l := 0, 2, 1, 3;
      }
    case S =>
      if n == 0 {
        i, j, k, l := 0, 1, 3, 2;
      }
    case Z =>
      if n == 1 {
        i, j, k, l := 0, 2, 1, 3;
      }
    case J =>
      if n == 3 {
        i, j, k, l := 0, 1, 3, 2;
      }
    case L =>
      if n == 0 {
        i, j, k, l := 1, 2, 3, 0;
      }
  }

  lemma ShiftKeepsJoined(w: Cell, x: Cell, y: Cell, z: Cell, row: int, col: int)
    requires JoinedFour(w, x, y, z)
    ensures JoinedFour(Shifted(w, row, col), Shifted(x, row, col), Shifted(y, row, col), Shifted(z, row, col))
  {
  }

  lemma PlacementIsRoom(b: Board, p: Placement)
    requires IsPlacement(b.rows, b.cols, b.filled, p)
    ensures HasRoomForAPiece(b)
  {
    var n: nat :| n < |Rotations(p.shape)| && Rotations(p.shape)[n] == p.cells;
    var i, j, k, l := ListedIsJoined(p.shape, n);
    var q := p.cells;
    ShiftKeepsJoined(q[i], q[j], q[k], q[l], p.row, p.col);
    FittingCellIsFree(b, p, i);
    FittingCellIsFree(b, p, j);
    FittingCellIsFree(b, p, k);
    FittingCellIsFree(b, p, l);
    assert FourFree(b, Shifted(q[i], p.row, p.col), Shifted(q[j], p.row, p.col), Shifted(q[k], p.row, p.col),
                    Shifted(q[l], p.row, p.col));
  }

  lemma FittingCellIsFree(b: Board, p: Placement, k: nat)
    requires IsPlacement(b.rows, b.cols, b.filled, p) && k < |p.cells|
    ensures Free(b, Shifted(p.cells[k], p.row, p.col))
  {
  }

  // ------------------------------------------------------------------ whatever is joined is listed

  /** The listed rotation, with its box at (row, col), covers no cell but these four. */
  ghost predicate Covers(shape: Shape, n: nat, row: int, col: int, w: Cell, x: Cell, y: Cell, z: Cell) {
    && n < |Rotations(shape)| && |Rotations(shape)[n]| == 4
    && var q := Rotations(shape)[n];
       && Shifted(q[0], row, col) in [w, x, y, z] && Shifted(q[1], row, col) in [w, x, y, z]
       && Shifted(q[2], row, col) in [w, x, y, z] && Shifted(q[3], row, col) in [w, x, y, z]
  }

  predicate IsRow(a: Cell, b: Cell, c: Cell) { b == Cell(a.r, a.c + 1) && c == Cell(a.r, a.c + 2) }
  predicate IsColumn(a: Cell, b: Cell, c: Cell) { b == Cell(a.r + 1, a.c) && c == Cell(a.r + 2, a.c) }
  predicate IsCornerNW(a: Cell, b: Cell, c: Cell) { b == Cell(a.r, a.c + 1) && c == Cell(a.r + 1, a.c) }
  predicate IsCornerNE(a: Cell, b: Cell, c: Cell) { b == Cell(a.r, a.c + 1) && c == Cell(a.r + 1, a.c + 1) }
  predicate IsCornerSW(a: Cell, b: Cell, c: Cell) { b == Cell(a.r + 1, a.c) && c == Cell(a.r + 1, a.c + 1) }
  predicate IsCornerSE(a: Cell, b: Cell, c: Cell) { b == Cell(a.r + 1, a.c) && c == Cell(a.r + 1, a.c - 1) }

  predicate IsTriple(a: Cell, b: Cell, c: Cell) {
    IsRow(a, b, c) || IsColumn(a, b, c) || IsCornerNW(a, b, c) ||
    IsCornerNE(a, b, c) || IsCornerSW(a, b, c) || IsCornerSE(a, b, c)
  }

  /** A third cell at two cells one beside the other. */
  lemma TripleFromBeside(p: Cell, q: Cell, y: Cell) returns (a: Cell, b: Cell, c: Cell)
    requires q == Cell(p.r, p.c + 1) && y != p && y != q && (Adjacent(p, y) || Adjacent(q, y))
    ensures IsTriple(a, b, c)
    ensures (a, b, c) in Orders(p, q, y)
  {
    if y == Cell(p.r - 1, p.c) || y == Cell(p.r, p.c - 1) {
      a, b, c := y, p, q;
    } else if y == Cell(p.r - 1, p.c + 1) {
      a, b, c := y, q, p;
    } else {
      a, b, c := p, q, y;
    }
  }

  /** A third cell at two cells one above the other. */
  lemma TripleFromAbove(p: Cell, q: Cell, y: Cell) returns (a: Cell, b: Cell, c: Cell)
    requires q == Cell(p.r + 1, p.c) && y != p && y != q && (Adjacent(p, y) || Adjacent(q, y))
    ensures IsTriple(a, b, c)
    ensures (a, b, c) in Orders(p, q, y)
  {
    if y == Cell(p.r - 1, p.c) || y == Cell(p.r, p.c - 1) {
      a, b, c := y, p, q;
    } else if y == Cell(p.r, p.c + 1) {
      a, b, c := p, y, q;
    } else {
      a, b, c := p, q, y;
    }
  }

  function Orders(x: Cell, y: Cell, z: Cell): set<(Cell, Cell, Cell)> {
    {(x, y, z), (x, z, y), (y, x, z), (y, z, x), (z, x, y), (z, y, x)}
  }

  lemma TripleFromJoined(w: Cell, x: Cell, y: Cell) returns (a: Cell, b: Cell, c: Cell)
    requires Joined(w, x, y)
    ensures IsTriple(a, b, c)
    ensures (a, b, c) in Orders(w, x, y)
  {
    if x == Cell(w.r, w.c + 1) {
      a, b, c := TripleFromBeside(w, x, y);
    } else if w == Cell(x.r, x.c + 1) {
      a, b, c := TripleFromBeside(x, w, y);
    } else if x == Cell(w.r + 1, w.c) {
      a, b, c := TripleFromAbove(w, x, y);
    } else {
      a, b, c := TripleFromAbove(x, w, y);
    }
  }

  lemma FourFromRow(a: Cell, b: Cell, c: Cell, z: Cell) returns (shape: Shape, n: nat, row: int, col: int)
    requires IsRow(a, b, c) && z != a && z != b && z != c && (Adjacent(a, z) || Adjacent(b, z) || Adjacent(c, z))
    ensures Covers(shape, n, row, col, a, b, c, z)
  {
    if z == Cell(a.r - 1, a.c) {
      shape, n, row, col := J, 0, a.r - 1, a.c;
    } else if z == Cell(a.r - 1, a.c + 1) {
      shape, n, row, col := T, 0, a.r - 1, a.c;
    } else if z == Cell(a.r - 1, a.c + 2) {
      shape, n, row, col := L, 0, a.r - 1, a.c;
    } else if z == Cell(a.r, a.c - 1) {
      shape, n, row, col := I, 0, a.r, a.c - 1;
    } else if z == Cell(a.r, a.c + 3) {
      shape, n, row, col := I, 0, a.r, a.c;
    } else if z == Cell(a.r + 1, a.c) {
      shape, n, row, col := L, 2, a.r, a.c;
    } else if z == Cell(a.r + 1, a.c + 1) {
      shape, n, row, col := T, 2, a.r, a.c;
    } else {
      shape, n, row, col := J, 2, a.r, a.c;
    }
  }

  lemma FourFromColumn(a: Cell, b: Cell, c: Cell, z: Cell) returns (shape: Shape, n: nat, row: int, col: int)
    requires IsColumn(a, b, c) && z != a && z != b && z != c && (Adjacent(a, z) || Adjacent(b, z) || Adjacent(c, z))
    ensures Covers(shape, n, row, col, a, b, c, z)
  {
    if z == Cell(a.r - 1, a.c) {
      shape, n, row, col := I, 1, a.r - 1, a.c;
    } else if z == Cell(a.r, a.c - 1) {
      shape, n, row, col := L, 3, a.r, a.c - 1;
    } else if z == Cell(a.r, a.c + 1) {
      shape, n, row, col := J, 1, a.r, a.c;
    } else if z == Cell(a.r + 1, a.c - 1) {
      shape, n, row, col := T, 3, a.r, a.c - 1;
    } else if z == Cell(a.r + 1, a.c + 1) {
      shape, n, row, col := T, 1, a.r, a.c;
    } else if z == Cell(a.r + 2, a.c - 1) {
      shape, n, row, col := J, 3, a.r, a.c - 1;
    } else if z == Cell(a.r + 2, a.c + 1) {
      shape, n, row, col := L, 1, a.r, a.c;
    } else {
      shape, n, row, col := I, 1, a.r, a.c;
    }
  }

  lemma FourFromCornerNW(a: Cell, b: Cell, c: Cell, z: Cell) returns (shape: Shape, n: nat, row: int, col: int)
    requires IsCornerNW(a, b, c) && z != a && z != b && z != c && (Adjacent(a, z) || Adjacent(b, z) || Adjacent(c, z))
    ensures Covers(shape, n, row, col, a, b, c, z)
  {
    if z == Cell(a.r - 1, a.c) {
      shape, n, row, col := T, 1, a.r - 1, a.c;
    } else if z == Cell(a.r - 1, a.c + 1) {
      shape, n, row, col := Z, 1, a.r - 1, a.c;
    } else if z == Cell(a.r, a.c - 1) {
      shape, n, row, col := T, 2, a.r, a.c - 1;
    } else if z == Cell(a.r, a.c + 2) {
      shape, n, row, col := L, 2, a.r, a.c;
    } else if z == Cell(a.r + 1, a.c - 1) {
      shape, n, row, col := S, 0, a.r, a.c - 1;
    } else if z == Cell(a.r + 1, a.c + 1) {
      shape, n, row, col := O, 0, a.r, a.c;
    } else {
      shape, n, row, col := J, 1, a.r, a.c;
    }
  }

  lemma FourFromCornerNE(a: Cell, b: Cell, c: Cell, z: Cell) returns (shape: Shape, n: nat, row: int, col: int)
    requires IsCornerNE(a, b, c) && z != a && z != b && z != c && (Adjacent(a, z) || Adjacent(b, z) || Adjacent(c, z))
    ensures Covers(shape, n, row, col, a, b, c, z)
  {
    if z == Cell(a.r - 1, a.c) {
      shape, n, row, col := S, 1, a.r - 1, a.c;
    } else if z == Cell(a.r - 1, a.c + 1) {
      shape, n, row, col := T, 3, a.r - 1, a.c;
    } else if z == Cell(a.r, a.c - 1) {
      shape, n, row, col := J, 2, a.r, a.c - 1;
    } else if z == Cell(a.r, a.c + 2) {
      shape, n, row, col := T, 2, a.r, a.c;
    } else if z == Cell(a.r + 1, a.c) {
      shape, n, row, col := O, 0, a.r, a.c;
    } else if z == Cell(a.r + 1, a.c + 2) {
      shape, n, row, col := Z, 0, a.r, a.c;
    } else {
      shape, n, row, col := L, 3, a.r, a.c;
    }
  }

  lemma FourFromCornerSW(a: Cell, b: Cell, c: Cell, z: Cell) returns (shape: Shape, n: nat, row: int, col: int)
    requires IsCornerSW(a, b, c) && z != a && z != b && z != c && (Adjacent(a, z) || Adjacent(b, z) || Adjacent(c, z))
    ensures Covers(shape, n, row, col, a, b, c, z)
  {
    if z == Cell(a.r - 1, a.c) {
      shape, n, row, col := L, 1, a.r - 1, a.c;
    } else if z == Cell(a.r, a.c - 1) {
      shape, n, row, col := Z, 0, a.r, a.c - 1;
    } else if z == Cell(a.r, a.c + 1) {
      shape, n, row, col := O, 0, a.r, a.c;
    } else if z == Cell(a.r + 1, a.c - 1) {
      shape, n, row, col := T, 0, a.r, a.c - 1;
    } else if z == Cell(a.r + 1, a.c + 2) {
      shape, n, row, col := J, 0, a.r, a.c;
    } else if z == Cell(a.r + 2, a.c) {
      shape, n, row, col := T, 1, a.r, a.c;
    } else {
      shape, n, row, col := S, 1, a.r, a.c;
    }
  }

  lemma FourFromCornerSE(a: Cell, b: Cell, c: Cell, z: Cell) returns (shape: Shape, n: nat, row: int, col: int)
    requires IsCornerSE(a, b, c) && z != a && z != b && z != c && (Adjacent(a, z) || Adjacent(b, z) || Adjacent(c, z))
    ensures Covers(shape, n, row, col, a, b, c, z)
  {
    if z == Cell(a.r - 1, a.c) {
      shape, n, row, col := J, 3, a.r - 1, a.c - 1;
    } else if z == Cell(a.r, a.c - 1) {
      shape, n, row, col := O, 0, a.r, a.c - 1;
    } else if z == Cell(a.r, a.c + 1) {
      shape, n, row, col := S, 0, a.r, a.c - 1;
    } else if z == Cell(a.r + 1, a.c - 2) {
      shape, n, row, col := L, 0, a.r, a.c - 2;
    } else if z == Cell(a.r + 1, a.c + 1) {
      shape, n, row, col := T, 0, a.r, a.c - 1;
    } else if z == Cell(a.r + 2, a.c - 1) {
      shape, n, row, col := Z, 1, a.r, a.c - 1;
    } else {
      shape, n, row, col := T, 3, a.r, a.c - 1;
    }
  }

  lemma FourFromTriple(a: Cell, b: Cell, c: Cell, z: Cell) returns (shape: Shape, n: nat, row: int, col: int)
    requires IsTriple(a, b, c) && z != a && z != b && z != c
    requires Adjacent(a, z) || Adjacent(b, z) || Adjacent(c, z)
    ensures Covers(shape, n, row, col, a, b, c, z)
  {
    if IsRow(a, b, c) {
      shape, n, row, col := FourFromRow(a, b, c, z);
    } else if IsColumn(a, b, c) {
      shape, n, row, col := FourFromColumn(a, b, c, z);
    } else if IsCornerNW(a, b, c) {
      shape, n, row, col := FourFromCornerNW(a, b, c, z);
    } else if IsCornerNE(a, b, c) {
      shape, n, row, col := FourFromCornerNE(a, b, c, z);
    } else if IsCornerSW(a, b, c) {
      shape, n, row, col := FourFromCornerSW(a, b, c, z);
    } else {
      shape, n, row, col := FourFromCornerSE(a, b, c, z);
    }
  }

  lemma RoomIsPlacement(b: Board, w: Cell, x: Cell, y: Cell, z: Cell) returns (p: Placement)
    requires JoinedFour(w, x, y, z) && FourFree(b, w, x, y, z)
    ensures IsPlacement(b.rows, b.cols, b.filled, p)
  {
    var a, e, f := TripleFromJoined(w, x, y);
    var shape, n, row, col := FourFromTriple(a, e, f, z);
    p := Placement(shape, Rotations(shape)[n], row, col);
    CoveredIsFree(b, shape, n, row, col, a, e, f, z);
  }

  lemma CoveredIsFree(
    b: Board, shape: Shape, n: nat, row: int, col: int, w: Cell, x: Cell, y: Cell, z: Cell)
    requires Covers(shape, n, row, col, w, x, y, z) && FourFree(b, w, x, y, z)
    ensures Fits(b.rows, b.cols, b.filled, Rotations(shape)[n], row, col)
  {
    var q := Rotations(shape)[n];
    forall k | 0 <= k < |q| ensures Free(b, Shifted(q[k], row, col)) {
      assert k == 0 || k == 1 || k == 2 || k == 3;
    }
  }

  /** A piece can be placed exactly if four empty cells of the board are joined at their edges: no tetromino
      and none of its rotations is missing from the table. */
  lemma CanPlaceIff(b: Board)
    ensures CanPlace(b) <==> HasRoomForAPiece(b)
  {
    if CanPlace(b) {
      var p :| IsPlacement(b.rows, b.cols, b.filled, p);
      PlacementIsRoom(b, p);
    }
    if HasRoomForAPiece(b) {
      var w, x, y, z :| JoinedFour(w, x, y, z) && FourFree(b, w, x, y, z);
      var p := RoomIsPlacement(b, w, x, y, z);
    }
  }

  // ------------------------------------------------------------------ the rotations of one shape

  /** A quarter turn of a box with rows 0 to `height`. */
  function Turned(x: Cell, height: int): Cell { Cell(x.c, height - x.r) }

  /** Each rotation of a shape is a quarter turn of the one listed before it, all the way round. */
  lemma RotationsTurn(shape: Shape, n: nat)
    requires n < |Rotations(shape)|
    ensures var q, next := Rotations(shape)[n], Rotations(shape)[if n + 1 < |Rotations(shape)| then n + 1 else 0];
            |q| == 4 && |next| == 4 && exists height :: TurnsInto(q, next, height)
  {
    RotationIsTight(shape, n);
    var q, next := Rotations(shape)[n], Rotations(shape)[if n + 1 < |Rotations(shape)| then n + 1 else 0];
    var height := Max(Max(q[0].r, q[1].r), Max(q[2].r, q[3].r));
    match shape
    case I => assert TurnsInto(q, next, height);
    case O => assert TurnsInto(q, next, height);
    case T => assert TurnsInto(q, next, height);
    case S => assert TurnsInto(q, next, height);
    case Z => assert TurnsInto(q, next, height);
    case J => assert TurnsInto(q, next, height);
    case L => assert TurnsInto(q, next, height);
  }

  predicate TurnsInto(q: seq<Cell>, next: seq<Cell>, height: int)
    requires |q| == 4 && |next| == 4
  {
    && Turned(q[0], height) in next && Turned(q[1], height) in next
    && Turned(q[2], height) in next && Turned(q[3], height) in next
  }
}
