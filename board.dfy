/**
  The Tablut board as a mutable object: a 9x9 array of pieces indexed
  [row, col], the side to move, the winner, the move count and limit, the
  repetition flag and the stack of earlier states. Every operation is proved
  to act on Model() as the corresponding definition of module Rules says.
  Where the names differ, IsUnblockedMove follows IsUnblocked, CheckRepeated
  Repeats, CaptureRow CaptureAll, CaptureAround CaptureRows, MovePiece Moved,
  MoveAndCapture MoveCaptures, FinishMove the bookkeeping of Apply, RayMoves
  Ray, MovesFromSquare MovesFrom, RowMoves LegalMovesIn and EncodedBoard
  Encode; SetMoveLimit states its update directly.
 */
module TablutBoard {
  import opened Geometry
  import opened Rules

  /** The contents of a 9x9 array indexed [row, col] as a grid. */
  function GridOf(a: array2<Piece>): Grid
    reads a
    requires a.Length0 == 9 && a.Length1 == 9
  {
    seq(9, r requires 0 <= r < 9 reads a => seq(9, c requires 0 <= c < 9 reads a => a[r, c]))
  }

  lemma GetGridOf(a: array2<Piece>, s: Square)
    requires a.Length0 == 9 && a.Length1 == 9
    ensures Get(GridOf(a), s) == a[s.row, s.col]
  {
  }

  lemma GridOfAll(a: array2<Piece>)
    requires a.Length0 == 9 && a.Length1 == 9
    ensures forall s {:trigger Get(GridOf(a), s)} :: Get(GridOf(a), s) == a[s.row, s.col]
  {
    forall s
      ensures Get(GridOf(a), s) == a[s.row, s.col]
    {
      GetGridOf(a, s);
    }
  }

  /** Two arrays holding the same pieces hold the same grid. */
  lemma SameGrid(a: array2<Piece>, g: Grid)
    requires a.Length0 == 9 && a.Length1 == 9
    requires forall r: Coord, c: Coord {:trigger a[r, c]} :: a[r, c] == Get(g, Sq(c, r))
    ensures GridOf(a) == g
  {
    forall s
      ensures Get(GridOf(a), s) == Get(g, s)
    {
      assert a[s.row, s.col] == Get(g, Sq(s.col, s.row));
      GetGridOf(a, s);
    }
    GridExt(GridOf(a), g);
  }

  /** `copyContents`: a fresh array holding the pieces of grid g. */
  method CopyContents(g: Grid) returns (a: array2<Piece>)
    ensures fresh(a) && a.Length0 == 9 && a.Length1 == 9
    ensures forall r: Coord, c: Coord {:trigger a[r, c]} :: a[r, c] == Get(g, Sq(c, r))
  {
    a := new Piece[9, 9];
    var r := 0;
    while r < 9
      invariant 0 <= r <= 9
      invariant forall i: Coord, j: Coord {:trigger a[i, j]} :: i < r ==> a[i, j] == Get(g, Sq(j, i))
    {
      var c := 0;
      while c < 9
        invariant 0 <= c <= 9
        invariant forall i: Coord, j: Coord {:trigger a[i, j]} :: i < r || (i == r && j < c) ==>
                    a[i, j] == Get(g, Sq(j, i))
      {
        a[r, c] := Get(g, Sq(c, r));
        c := c + 1;
      }
      r := r + 1;
    }
  }

  /** The loop of `init`: every square, taken column by column as the table
      of squares lists them, gets the piece layout assigns to it. */
  method FillByColumns(layout: Square -> Piece) returns (a: array2<Piece>)
    ensures fresh(a) && a.Length0 == 9 && a.Length1 == 9
    ensures forall r: Coord, c: Coord {:trigger a[r, c]} :: a[r, c] == layout(Sq(c, r))
  {
    a := new Piece[9, 9];
    var i := 0;
    while i < 9
      invariant 0 <= i <= 9
      invariant forall r: Coord, c: Coord {:trigger a[r, c]} :: c < i ==> a[r, c] == layout(Sq(c, r))
    {
      var j := 0;
      while j < 9
        invariant 0 <= j <= 9
        invariant forall r: Coord, c: Coord {:trigger a[r, c]} :: c < i || (c == i && r < j) ==>
                    a[r, c] == layout(Sq(c, r))
      {
        a[j, i] := layout(Sq(i, j));
        j := j + 1;
      }
      i := i + 1;
    }
  }

  lemma InitialArray(a: array2<Piece>)
    requires a.Length0 == 9 && a.Length1 == 9
    requires forall r: Coord, c: Coord {:trigger a[r, c]} :: a[r, c] == InitialPiece(Sq(c, r))
    ensures GridOf(a) == InitialGrid()
  {
    forall r: Coord, c: Coord
      ensures a[r, c] == Get(InitialGrid(), Sq(c, r))
    {
      InitialGridAt(Sq(c, r));
    }
    SameGrid(a, InitialGrid());
  }

  /** The array `init` builds: the initial layout, square by square. */
  method InitialContents() returns (a: array2<Piece>)
    ensures fresh(a) && a.Length0 == 9 && a.Length1 == 9
    ensures GridOf(a) == InitialGrid()
  {
    a := FillByColumns(InitialPiece);
    InitialArray(a);
  }

  class Board {
    var contents: array2<Piece>
    var turn: Piece
    var winner: Option<Piece>
    var moveCount: nat
    var moveLimit: int
    var repeated: bool
    /** The snapshots of earlier states, bottom of the stack first. */
    var stateOfBoard: seq<Snapshot>

    ghost predicate Valid()
      reads this
    {
      contents.Length0 == 9 && contents.Length1 == 9 && (turn == Black || turn == White)
    }

    /** The position this board holds. */
    function Model(): Position
      reads this, contents
      requires Valid()
    {
      Position(GridOf(contents), turn, winner, moveCount, moveLimit, repeated, stateOfBoard)
    }

    /** `init`: the initial position with its state as the only entry of the stack. */
    constructor ()
      ensures Valid() && Model() == InitialPosition()
      ensures fresh(contents)
    {
      var a := InitialContents();
      contents := a;
      turn := Black;
      winner := None;
      moveCount := 0;
      moveLimit := 0;
      repeated := false;
      stateOfBoard := [Snapshot(InitialGrid(), Black)];
    }

    /** `Board(model)` / `copy`: the grid, side to move and stack of model,
        with a zero move count, no winner, no repetition and no move limit. */
    constructor Copy(model: Board)
      requires model.Valid()
      ensures Valid() && Model() == Rules.Copy(model.Model())
      ensures fresh(contents)
    {
      var a := CopyContents(GridOf(model.contents));
      SameGrid(a, GridOf(model.contents));
      contents := a;
      turn := model.turn;
      winner := None;
      moveCount := 0;
      moveLimit := 0;
      repeated := false;
      stateOfBoard := model.stateOfBoard;
    }

    /** `setMoveLimit`. */
    method SetMoveLimit(n: int)
      requires Valid()
      modifies this
      ensures Valid() && Model() == old(Model()).(moveLimit := n)
    {
      moveLimit := n;
    }

    /** `put` (and `revPut`): set square s to p. */
    method Put(p: Piece, s: Square)
      requires Valid()
      modifies contents
      ensures Valid() && GridOf(contents) == Rules.Put(old(GridOf(contents)), s, p)
    {
      contents[s.row, s.col] := p;
      GridExt(GridOf(contents), Rules.Put(old(GridOf(contents)), s, p));
    }

    /** `capture(sq0, sq2)`, for a piece that just moved to sq0. */
    method Capture(sq0: Square, sq2: Square)
      requires Valid()
      modifies this, contents
      ensures Valid() && contents == old(contents)
      ensures var c := Rules.Capture(old(GridOf(contents)), old(winner), sq0, sq2);
              Model() == old(Model()).(grid := c.grid, winner := c.winner)
    {
      if !CanCapture(sq0, sq2) {
        return;
      }
      var sq1 := Between(sq0, sq2);
      var type1 := contents[sq1.row, sq1.col];
      GetGridOf(contents, sq1);
      if NearThrone(sq1) && type1 == King {
        var sq3 := Diag1(sq0, sq1);
        var sq4 := Diag2(sq0, sq1);
        if Hostility(GridOf(contents), sq0, sq1, sq2) && Hostility(GridOf(contents), sq3, sq1, sq4) {
          Put(Empty, sq1);
          winner := Some(Black);
        }
        return;
      }
      if Hostility(GridOf(contents), sq0, sq1, sq2) {
        if type1 == King {
          winner := Some(Black);
        }
        Put(Empty, sq1);
      }
    }

    /** `checkRepeated`: when the grid and side to move equal a state on the
        stack, the position is a repetition and the side to move wins. */
    method CheckRepeated()
      requires Valid()
      modifies this
      ensures Valid() && contents == old(contents)
      ensures Model() ==
                if Repeats(old(stateOfBoard), old(GridOf(contents)), old(turn))
                then old(Model()).(repeated := true, winner := Some(old(turn)))
                else old(Model())
    {
      var i := 0;
      while i < |stateOfBoard|
        invariant 0 <= i <= |stateOfBoard|
        invariant forall j :: 0 <= j < i ==> stateOfBoard[j] != Snapshot(GridOf(contents), turn)
      {
        var b := stateOfBoard[i];
        if b.grid == GridOf(contents) && b.turn == turn {
          repeated := true;
          winner := Some(turn);
          return;
        }
        i := i + 1;
      }
    }

    /** One row of the capture loop of `makeMove`: capture(to, s) for every
        square s of row r that is in loc, in column order. */
    method CaptureRow(to: Square, loc: set<Square>, r: Coord)
      requires Valid()
      modifies this, contents
      ensures Valid() && contents == old(contents)
      ensures var c := CaptureAll(Captured(old(GridOf(contents)), old(winner)), to, loc, Rows()[r]);
              Model() == old(Model()).(grid := c.grid, winner := c.winner)
    {
      ghost var p := Model();
      ghost var target := CaptureAll(Captured(p.grid, p.winner), to, loc, Rows()[r]);
      assert Rows()[r][0..] == Rows()[r];
      var c := 0;
      while c < 9
        invariant 0 <= c <= 9
        invariant Valid() && contents == old(contents)
        invariant Model() == p.(grid := GridOf(contents), winner := winner)
        invariant CaptureAll(Captured(GridOf(contents), winner), to, loc, Rows()[r][c..]) == target
      {
        var sq := Sq(c, r);
        CaptureAllStep(Captured(GridOf(contents), winner), to, loc, sq);
        if sq in loc {
          Capture(to, sq);
        }
        c := c + 1;
      }
      assert Rows()[r][9..] == [];
    }

    /** The capture loop of `makeMove`: capture(to, s) for every square s of
        loc, row by row in index order. */
    method CaptureAround(to: Square, loc: set<Square>)
      requires Valid()
      modifies this, contents
      ensures Valid() && contents == old(contents)
      ensures var c := CaptureRows(Captured(old(GridOf(contents)), old(winner)), to, loc, Rows());
              GridOf(contents) == c.grid && winner == c.winner
      ensures turn == old(turn) && moveCount == old(moveCount) && moveLimit == old(moveLimit)
      ensures repeated == old(repeated) && stateOfBoard == old(stateOfBoard)
    {
      ghost var target := CaptureRows(Captured(GridOf(contents), winner), to, loc, Rows());
      assert Rows()[0..] == Rows();
      var r := 0;
      while r < 9
        invariant 0 <= r <= 9
        invariant Valid() && contents == old(contents)
        invariant turn == old(turn) && moveCount == old(moveCount) && moveLimit == old(moveLimit)
        invariant repeated == old(repeated) && stateOfBoard == old(stateOfBoard)
        invariant CaptureRows(Captured(GridOf(contents), winner), to, loc, Rows()[r..]) == target
      {
        CaptureRowsStep(Captured(GridOf(contents), winner), to, loc, r);
        CaptureRow(to, loc, r);
        r := r + 1;
      }
      assert Rows()[9..] == [];
    }

    /** The piece on from is put on to and from is emptied; loc is then the
        set of squares of the side to move, with the throne. */
    method MovePiece(from: Square, to: Square) returns (loc: set<Square>)
      requires Valid()
      modifies contents
      ensures Valid() && GridOf(contents) == Moved(old(GridOf(contents)), from, to)
      ensures loc == Rules.PieceLocations(GridOf(contents), turn) + {THRONE}
    {
      GetGridOf(contents, from);
      var piece := contents[from.row, from.col];
      Put(piece, to);
      Put(Empty, from);
      loc := PieceLocations(turn);
      loc := loc + {THRONE};
    }

    /** The first half of a move that is made: the piece on from is put on
        to and from emptied, the move is counted, and the captures around to
        are made against the pieces of the side to move and the throne. */
    method MoveAndCapture(from: Square, to: Square)
      requires Valid()
      modifies this, contents
      ensures Valid() && contents == old(contents)
      ensures var c := MoveCaptures(Moved(old(GridOf(contents)), from, to), old(winner), old(turn), to);
              GridOf(contents) == c.grid && winner == c.winner
      ensures turn == old(turn) && moveCount == old(moveCount) + 1 && moveLimit == old(moveLimit)
      ensures repeated == old(repeated) && stateOfBoard == old(stateOfBoard)
    {
      var loc := MovePiece(from, to);
      moveCount := moveCount + 1;
      CaptureAround(to, loc);
    }

    /** The second half of a move that is made: the turn passes, the
        repetition check runs, the new state is pushed, and a king on the
        edge makes WHITE the winner. */
    method FinishMove()
      requires Valid()
      modifies this
      ensures Valid() && contents == old(contents)
      ensures var next := Opponent(old(turn));
              var rep := Repeats(old(stateOfBoard), old(GridOf(contents)), next);
              var king := Rules.KingPosition(old(GridOf(contents)));
              && GridOf(contents) == old(GridOf(contents)) && turn == next
              && winner == (if king.Some? && IsEdge(king.value) then Some(White)
                            else if rep then Some(next) else old(winner))
              && moveCount == old(moveCount) && moveLimit == old(moveLimit)
              && repeated == (old(repeated) || rep)
              && stateOfBoard == old(stateOfBoard) + [Snapshot(old(GridOf(contents)), next)]
    {
      turn := Opponent(turn);
      CheckRepeated();
      stateOfBoard := stateOfBoard + [Snapshot(GridOf(contents), turn)];
      var king := KingPosition();
      if king.Some? && IsEdge(king.value) {
        winner := Some(White);
      }
    }

    /** `makeMove(from, to)`, for a move the caller has found legal: refused
        unless the piece on from plays for the side to move, a forfeit once a
        non-zero move limit is reached, and otherwise the move, the captures
        around its destination, the change of turn, the repetition check,
        the push of the new state and the king-on-edge win. */
    method MakeMove(from: Square, to: Square)
      requires Valid()
      modifies this, contents
      ensures Valid() && contents == old(contents)
      ensures Model() == Rules.MakeMove(old(Model()), from, to)
    {
      GetGridOf(contents, from);
      if Side(contents[from.row, from.col]) != turn {
        return;
      }
      if moveCount >= 2 * moveLimit && moveLimit != 0 {
        winner := Some(Opponent(turn));
        return;
      }
      MoveAndCapture(from, to);
      FinishMove();
    }

    /** `undoPosition`. Returns false where the source peeks an empty stack;
        the stack has then been emptied. */
    method UndoPosition() returns (ok: bool)
      requires Valid()
      modifies this
      ensures Valid() && (contents == old(contents) || fresh(contents))
      ensures ok == Rules.UndoPosition(old(Model())).Some?
      ensures ok ==> Model() == Rules.UndoPosition(old(Model())).value
      ensures !ok ==> stateOfBoard == [] && GridOf(contents) == old(GridOf(contents))
    {
      if !repeated {
        if |stateOfBoard| != 0 {
          stateOfBoard := stateOfBoard[..|stateOfBoard| - 1];
          if |stateOfBoard| == 0 {
            return false;
          }
          var a := CopyContents(stateOfBoard[|stateOfBoard| - 1].grid);
          SameGrid(a, stateOfBoard[|stateOfBoard| - 1].grid);
          contents := a;
        }
      }
      repeated := false;
      ok := true;
    }

    /** `undo`: no effect before the first move; otherwise undoPosition and a
        change of the side to move. Returns false where undoPosition fails. */
    method Undo() returns (ok: bool)
      requires Valid()
      modifies this
      ensures Valid() && (contents == old(contents) || fresh(contents))
      ensures ok == Rules.Undo(old(Model())).Some?
      ensures ok ==> Model() == Rules.Undo(old(Model())).value
    {
      ok := true;
      if moveCount > 0 {
        ok := UndoPosition();
        if !ok {
          return;
        }
        turn := Opponent(turn);
      }
    }

    /** `clearUndo`. */
    method ClearUndo()
      requires Valid()
      modifies this
      ensures Valid() && Model() == Rules.ClearUndo(old(Model()))
    {
      stateOfBoard := [Snapshot(GridOf(contents), turn)];
      moveCount := 1;
    }

    /** `isUnblockedMove`: scan the squares after from up to to. */
    method IsUnblockedMove(from: Square, to: Square) returns (r: bool)
      requires Valid()
      ensures r == IsUnblocked(GridOf(contents), from, to)
    {
      ghost var g := GridOf(contents);
      if from.row == to.row {
        var row := from.row;
        if from.col < to.col {
          var i := from.col + 1;
          while i <= to.col
            invariant from.col + 1 <= i <= to.col + 1
            invariant forall c: Coord :: from.col < c < i ==> Get(g, Sq(c, row)) == Empty
          {
            GetGridOf(contents, Sq(i, row));
            if contents[row, i] != Empty {
              assert OnPath(from, to, Sq(i, row));
              return false;
            }
            i := i + 1;
          }
        } else {
          var i := from.col - 1;
          while i >= to.col
            invariant to.col - 1 <= i <= from.col - 1
            invariant forall c: Coord :: i < c < from.col ==> Get(g, Sq(c, row)) == Empty
          {
            GetGridOf(contents, Sq(i, row));
            if contents[row, i] != Empty {
              assert OnPath(from, to, Sq(i, row));
              return false;
            }
            i := i - 1;
          }
        }
        return true;
      } else {
        var col := from.col;
        if from.row < to.row {
          var i := from.row + 1;
          while i <= to.row
            invariant from.row + 1 <= i <= to.row + 1
            invariant forall r: Coord :: from.row < r < i ==> Get(g, Sq(col, r)) == Empty
          {
            GetGridOf(contents, Sq(col, i));
            if contents[i, col] != Empty {
              assert OnPath(from, to, Sq(col, i));
              return false;
            }
            i := i + 1;
          }
        } else {
          var i := from.row - 1;
          while i >= to.row
            invariant to.row - 1 <= i <= from.row - 1
            invariant forall r: Coord :: i < r < from.row ==> Get(g, Sq(col, r)) == Empty
          {
            GetGridOf(contents, Sq(col, i));
            if contents[i, col] != Empty {
              assert OnPath(from, to, Sq(col, i));
              return false;
            }
            i := i - 1;
          }
        }
        return true;
      }
    }

    /** `isLegal(from, to)`. */
    method IsLegal(from: Square, to: Square) returns (r: bool)
      requires Valid()
      ensures r == Rules.IsLegal(GridOf(contents), turn, from, to)
    {
      GetGridOf(contents, from);
      if IsRookMove(from, to) {
        if to == THRONE && contents[from.row, from.col] != King {
          return false;
        }
        var unblocked := IsUnblockedMove(from, to);
        return unblocked && Side(contents[from.row, from.col]) == turn;
      }
      return false;
    }

    /** `pieceLocations(side)`: scan the table of squares column by column. */
    method PieceLocations(side: Piece) returns (loc: set<Square>)
      requires Valid()
      ensures loc == Rules.PieceLocations(GridOf(contents), side)
    {
      loc := {};
      var i := 0;
      while i < 9
        invariant 0 <= i <= 9
        invariant forall s {:trigger s in loc} :: s in loc <==> s.col < i && Side(contents[s.row, s.col]) == Side(side)
      {
        var j := 0;
        while j < 9
          invariant 0 <= j <= 9
          invariant forall s {:trigger s in loc} :: s in loc <==>
                      (s.col < i || (s.col == i && s.row < j)) && Side(contents[s.row, s.col]) == Side(side)
        {
          if Side(contents[j, i]) == Side(side) {
            loc := loc + {Sq(i, j)};
          }
          j := j + 1;
        }
        i := i + 1;
      }
      GridOfAll(contents);
    }

    /** `kingPosition`: the first KING met scanning the table of squares
        column by column. */
    method KingPosition() returns (k: Option<Square>)
      requires Valid()
      ensures k == Rules.KingPosition(GridOf(contents))
    {
      GridOfAll(contents);
      var i := 0;
      while i < 9
        invariant 0 <= i <= 9
        invariant forall s :: ColumnMajorBefore(s, i, 0) ==> contents[s.row, s.col] != King
      {
        var j := 0;
        while j < 9
          invariant 0 <= j <= 9
          invariant forall s :: ColumnMajorBefore(s, i, j) ==> contents[s.row, s.col] != King
        {
          if contents[j, i] == King {
            KingPositionSpec(GridOf(contents), Sq(i, j));
            return Some(Sq(i, j));
          }
          j := j + 1;
        }
        i := i + 1;
      }
      KingPositionSpec(GridOf(contents), Sq(0, 0));
      return None;
    }

    /** The moves isLegal accepts along one ray from `from`, nearest first,
        up to the edge of the board. */
    method RayMoves(from: Square, dir: int) returns (ms: seq<Move>)
      requires Valid() && 0 <= dir < 4
      ensures ms == Ray(GridOf(contents), turn, from, dir, 1)
    {
      ghost var g := GridOf(contents);
      ghost var whole := Ray(g, turn, from, dir, 1);
      ms := [];
      var dist := 1;
      var t := RookMove(from, dir, dist);
      while t.Some?
        invariant 1 <= dist <= 9 && t == RookMove(from, dir, dist)
        invariant ms + Ray(g, turn, from, dir, dist) == whole
        decreases 9 - dist
      {
        var legal := IsLegal(from, t.value);
        var next := if legal then ms + [Move(from, t.value)] else ms;
        RayStep(g, turn, from, dir, dist, t.value, legal, ms, next, whole);
        ms := next;
        dist := dist + 1;
        t := RookMove(from, dir, dist);
      }
      assert ms + [] == ms;
    }

    /** The moves isLegal accepts from `from`, direction by direction and
        distance by distance. */
    method MovesFromSquare(from: Square) returns (ms: seq<Move>)
      requires Valid()
      ensures ms == MovesFrom(GridOf(contents), turn, from, 0)
    {
      ghost var g := GridOf(contents);
      ghost var all := MovesFrom(g, turn, from, 0);
      ms := [];
      var dir := 0;
      while dir < 4
        invariant 0 <= dir <= 4
        invariant ms + MovesFrom(g, turn, from, dir) == all
      {
        var ray := RayMoves(from, dir);
        MovesFromStep(g, turn, from, dir, ray, ms, all);
        ms := ms + ray;
        dir := dir + 1;
      }
      assert ms + [] == ms;
    }

    /** One row of the loop of `legalMoves(side)`: the moves isLegal accepts
        from each square of row r that is in loc, the squares of side's pieces. */
    method RowMoves(side: Piece, loc: set<Square>, r: Coord) returns (ms: seq<Move>)
      requires Valid() && loc == Rules.PieceLocations(GridOf(contents), side)
      ensures ms == LegalMovesIn(GridOf(contents), turn, side, Rows()[r])
    {
      ghost var g := GridOf(contents);
      ghost var whole := LegalMovesIn(g, turn, side, Rows()[r]);
      assert Rows()[r][0..] == Rows()[r];
      ms := [];
      var c := 0;
      while c < 9
        invariant 0 <= c <= 9
        invariant ms + LegalMovesIn(g, turn, side, Rows()[r][c..]) == whole
      {
        var from := Sq(c, r);
        LegalMovesInStep(g, turn, side, from, ms, whole);
        if from in loc {
          var moves := MovesFromSquare(from);
          ms := ms + moves;
        }
        c := c + 1;
      }
      assert Rows()[r][9..] == [];
      assert ms + [] == ms;
    }

    /** `legalMoves(side)`: for each square of side's pieces, taken in index
        order, the moves isLegal accepts from it. */
    method LegalMoves(side: Piece) returns (moves: seq<Move>)
      requires Valid()
      ensures moves == Rules.LegalMoves(GridOf(contents), turn, side)
    {
      ghost var g := GridOf(contents);
      ghost var all := Rules.LegalMoves(g, turn, side);
      var loc := PieceLocations(side);
      assert Rows()[0..] == Rows();
      moves := [];
      var r := 0;
      while r < 9
        invariant 0 <= r <= 9
        invariant moves + LegalMovesRows(g, turn, side, Rows()[r..]) == all
      {
        var ms := RowMoves(side, loc, r);
        LegalMovesRowsStep(g, turn, side, r, moves, ms, all);
        moves := moves + ms;
        r := r + 1;
      }
      assert Rows()[9..] == [];
      assert moves + [] == moves;
    }

    /** `encodedBoard`: the side to move, then every square in index order. */
    method EncodedBoard() returns (r: string)
      requires Valid()
      ensures r == Encode(GridOf(contents), turn)
    {
      var result := new char[82];
      result[0] := PieceChar(turn);
      var k := 0;
      while k < 81
        invariant 0 <= k <= 81
        invariant result[0] == PieceChar(turn)
        invariant forall i :: 0 <= i < k ==> result[i + 1] == PieceChar(Get(GridOf(contents), SquareAt(i)))
      {
        var sq := SquareAt(k);
        result[k + 1] := PieceChar(contents[sq.row, sq.col]);
        k := k + 1;
      }
      r := result[..];
    }
  }
}
