/**
  The AI player: the counting loops of the static evaluation and the
  recursive alpha-beta search over one shared Board, each proved to compute
  the corresponding function of module Eval or AlphaBeta. Where the names
  differ, WeightAt computes Weight, TallyRow CountRow, TallyBoard Count,
  AdjacentPieces AdjacentCount, CaptureTotal CaptureSum, CountMovesNextTo
  MovesNextTo, FindMove RootSearch, FindMoveIn Search, SearchMoves and
  TryMove Loop, and Explore Child; AnyToEdge states its result directly.
 */
module TablutAI {
  import opened Geometry
  import opened Rules
  import opened Eval
  import opened AlphaBeta
  import opened TablutBoard

  class AI {
    /** The side this AI plays. */
    const myPiece: Piece
    /** The move found by the last search that saved one. */
    var lastFoundMove: Option<Move>

    constructor (piece: Piece)
      ensures myPiece == piece && lastFoundMove == None
    {
      myPiece := piece;
      lastFoundMove := None;
    }

    // ---------------------------------------------------------------- tallies

    /** `isSurrounded`: some neighbour of s holds the opponent of s's piece. */
    static method IsSurrounded(board: Board, s: Square) returns (r: bool)
      requires board.Valid()
      ensures r == Eval.IsSurrounded(GridOf(board.contents), s)
    {
      ghost var g := GridOf(board.contents);
      var dir := 0;
      while dir < 4
        invariant 0 <= dir <= 4
        invariant forall d :: 0 <= d < dir ==> !NeighbourHolds(g, s, d, Opponent(Get(g, s)))
      {
        var other := RookMove(s, dir, 1);
        if other.Some? {
          GetGridOf(board.contents, s);
          GetGridOf(board.contents, other.value);
          var me := board.contents[s.row, s.col];
          var oppo := board.contents[other.value.row, other.value.col];
          if oppo == Opponent(me) {
            assert NeighbourHolds(g, s, dir, Opponent(Get(g, s)));
            return true;
          }
        }
        dir := dir + 1;
      }
      return false;
    }

    /** What square s adds to tally t; k is the king's square. */
    static method WeightAt(board: Board, t: Tally, k: Option<Square>, s: Square) returns (w: nat)
      requires board.Valid()
      requires t.SurroundWeight? ==> k == Rules.KingPosition(GridOf(board.contents))
      ensures w == Weight(t, GridOf(board.contents), s)
    {
      GetGridOf(board.contents, s);
      var p := board.contents[s.row, s.col];
      match t
      case Blacks =>
        w := if p == Black then 1 else 0;
      case NonBlacks =>
        w := if p != Black then 1 else 0;
      case WhitesAndKing =>
        w := if p == White || p == King then 1 else 0;
      case MineOnEdge(me) =>
        w := if p == me && IsEdge(s) then 1 else 0;
      case MineSurrounded(me) =>
        w := 0;
        if p == me {
          var surrounded := IsSurrounded(board, s);
          if surrounded {
            w := 1;
          }
        }
      case SurroundWeight(me) =>
        w := 0;
        if p == me {
          var surrounded := IsSurrounded(board, s);
          if surrounded {
            w := if k == Some(s) then 10 else 1;
          }
        }
    }

    /** Tally t over row r of the board. */
    static method TallyRow(board: Board, t: Tally, k: Option<Square>, r: Coord) returns (n: nat)
      requires board.Valid()
      requires t.SurroundWeight? ==> k == Rules.KingPosition(GridOf(board.contents))
      ensures n == CountRow(t, GridOf(board.contents), Rows()[r])
    {
      ghost var g := GridOf(board.contents);
      ghost var row := Rows()[r];
      n := 0;
      var c := 0;
      while c < 9
        invariant 0 <= c <= 9
        invariant n == CountRow(t, g, row[..c])
      {
        var w := WeightAt(board, t, k, Sq(c, r));
        assert row[..c + 1][..c] == row[..c] && row[c] == Sq(c, r);
        n := n + w;
        c := c + 1;
      }
      assert row[..9] == row;
    }

    /** Tally t over the whole board, row by row. */
    static method TallyBoard(board: Board, t: Tally, k: Option<Square>) returns (n: nat)
      requires board.Valid()
      requires t.SurroundWeight? ==> k == Rules.KingPosition(GridOf(board.contents))
      ensures n == Count(t, GridOf(board.contents))
    {
      ghost var g := GridOf(board.contents);
      n := 0;
      var r := 0;
      while r < 9
        invariant 0 <= r <= 9
        invariant n == CountRows(t, g, Rows()[..r])
      {
        var m := TallyRow(board, t, k, r);
        assert Rows()[..r + 1][..r] == Rows()[..r];
        n := n + m;
        r := r + 1;
      }
      assert Rows()[..9] == Rows();
    }

    /** `maxDepth`: BLACK squares plus all other squares, which is every
        square, so the depth is 3. */
    static method MaxDepth(board: Board) returns (d: int)
      requires board.Valid()
      ensures d == Eval.MaxDepth(GridOf(board.contents))
      ensures d == 3
    {
      var b := TallyBoard(board, Blacks, None);
      var w := TallyBoard(board, NonBlacks, None);
      d := DepthFor(b + w);
      MaxDepthIsThree(GridOf(board.contents));
    }

    /** `thrones`: the BLACK pieces next to the throne. */
    static method Thrones(board: Board) returns (count: nat)
      requires board.Valid()
      ensures count == Eval.Thrones(GridOf(board.contents))
    {
      ghost var g := GridOf(board.contents);
      var arr := ThroneNeighbours();
      count := 0;
      var i := 0;
      while i < |arr|
        invariant 0 <= i <= |arr|
        invariant count == BlacksAmong(g, arr[..i])
      {
        var square := arr[i];
        GetGridOf(board.contents, square);
        assert arr[..i + 1][..i] == arr[..i];
        if board.contents[square.row, square.col] == Black {
          count := count + 1;
        }
        i := i + 1;
      }
      assert arr[..|arr|] == arr;
    }

    // ---------------------------------------------------------------- the king

    /** `kingOnEdge`. */
    static method KingOnEdge(board: Board) returns (r: bool)
      requires board.Valid()
      ensures r == Eval.KingOnEdge(GridOf(board.contents))
    {
      var k := board.KingPosition();
      r := k.Some? && IsEdge(k.value);
    }

    /** `kingCaptured`. */
    static method KingCaptured(board: Board) returns (r: bool)
      requires board.Valid()
      ensures r == Eval.KingCaptured(GridOf(board.contents))
    {
      var k := board.KingPosition();
      r := k.None?;
    }

    /** `kingWin`: one of the king's legal moves reaches the edge. */
    static method KingWin(board: Board) returns (r: bool)
      requires board.Valid()
      ensures r == Eval.KingWin(GridOf(board.contents), board.turn)
    {
      var king := board.KingPosition();
      if king.None? {
        return false;
      }
      var moves := board.MovesFromSquare(king.value);
      r := AnyToEdge(moves);
    }

    /** Some move of moves lands on the edge; the scan stops at the first. */
    static method AnyToEdge(moves: seq<Move>) returns (r: bool)
      ensures r <==> exists m :: m in moves && IsEdge(m.to)
    {
      var i := 0;
      while i < |moves|
        invariant 0 <= i <= |moves|
        invariant forall j :: 0 <= j < i ==> !IsEdge(moves[j].to)
      {
        if IsEdge(moves[i].to) {
          return true;
        }
        i := i + 1;
      }
      return false;
    }

    // ---------------------------------------------------------------- capture points

    /** The pieces of locs next to t, one at a time. */
    static method AdjacentPieces(t: Square, locs: set<Square>) returns (n: nat)
      ensures n == AdjacentCount(t, locs)
    {
      n := 0;
      var rest := locs;
      while rest != {}
        invariant n + AdjacentCount(t, rest) == AdjacentCount(t, locs)
        decreases rest
      {
        var sq :| sq in rest;
        AdjacentCountRemove(t, rest, sq);
        if Adjacent(t, sq) {
          n := n + 1;
        }
        rest := rest - {sq};
      }
    }

    /** `capturePoints`: over the legal moves of the piece on square, the
        opposing pieces next to each destination. */
    static method CapturePoints(board: Board, square: Square) returns (cap: nat)
      requires board.Valid()
      ensures cap == Eval.CapturePoints(GridOf(board.contents), board.turn, square)
    {
      GetGridOf(board.contents, square);
      var my := board.contents[square.row, square.col];
      var opponents := board.PieceLocations(Opponent(my));
      var moves := board.MovesFromSquare(square);
      cap := 0;
      var i := 0;
      while i < |moves|
        invariant 0 <= i <= |moves|
        invariant cap == MovePoints(moves[..i], opponents)
      {
        var n := AdjacentPieces(moves[i].to, opponents);
        assert moves[..i + 1][..i] == moves[..i];
        cap := cap + n;
        i := i + 1;
      }
      assert moves[..|moves|] == moves;
    }

    /** The capture points of myPieces, summed in whatever order the set
        hands them out. */
    static method CaptureTotal(board: Board, myPieces: set<Square>) returns (capture: int)
      requires board.Valid()
      ensures capture == CaptureSum(GridOf(board.contents), board.turn, myPieces)
    {
      ghost var g := GridOf(board.contents);
      capture := 0;
      var rest := myPieces;
      while rest != {}
        invariant capture + CaptureSum(g, board.turn, rest) == CaptureSum(g, board.turn, myPieces)
        decreases rest
      {
        var square :| square in rest;
        CaptureSumRemove(g, board.turn, rest, square);
        var points := CapturePoints(board, square);
        capture := capture + points;
        rest := rest - {square};
      }
    }

    // ---------------------------------------------------------------- surround and strategy

    /** `surround`. */
    method Surround(board: Board) returns (r: int)
      requires board.Valid()
      ensures r == Eval.Surround(myPiece, GridOf(board.contents))
    {
      var king := board.KingPosition();
      var surrounded: int := TallyBoard(board, SurroundWeight(myPiece), king);
      if myPiece == Black {
        surrounded := surrounded * 100 * 2;
      } else if myPiece == White {
        surrounded := surrounded * 100 * 2 * -1;
      }
      var throne: int := Thrones(board);
      r := throne * 100 * 2 * -1 + surrounded;
    }

    /** The moves whose destination is next to king. */
    static method CountMovesNextTo(moves: seq<Move>, king: Square) returns (score: nat)
      ensures score == MovesNextTo(moves, king)
    {
      score := 0;
      var i := 0;
      while i < |moves|
        invariant 0 <= i <= |moves|
        invariant score == MovesNextTo(moves[..i], king)
      {
        assert moves[..i + 1][..i] == moves[..i];
        if Adjacent(moves[i].to, king) {
          score := score + 1;
        }
        i := i + 1;
      }
      assert moves[..|moves|] == moves;
    }

    /** `myStrat`, for a board that has a king. */
    method MyStrat(board: Board) returns (r: int)
      requires board.Valid() && Rules.KingPosition(GridOf(board.contents)).Some?
      ensures r == Eval.MyStrat(myPiece, GridOf(board.contents), board.turn,
                                Rules.KingPosition(GridOf(board.contents)).value)
    {
      var king := board.KingPosition();
      if myPiece == Black {
        var moves := board.LegalMoves(Black);
        var score: int := CountMovesNextTo(moves, king.value);
        var surrounded: int := TallyBoard(board, MineSurrounded(myPiece), king);
        var edge: int := TallyBoard(board, MineOnEdge(myPiece), king);
        r := score * 1000 * 1000 + edge * 100 * 2 * -1 + surrounded * 100 * 2 * -1;
      } else {
        var moves := board.LegalMoves(White);
        var score: int := CountMovesNextTo(moves, king.value);
        r := score * 1000 * 10;
      }
    }

    // ---------------------------------------------------------------- static score

    /** The part of `staticScore` after the overrides. */
    method Heuristic(board: Board) returns (score: int)
      requires board.Valid() && Rules.KingPosition(GridOf(board.contents)).Some?
      ensures score == Eval.Heuristic(myPiece, GridOf(board.contents), board.turn)
    {
      var b := TallyBoard(board, Blacks, None);
      var w := TallyBoard(board, WhitesAndKing, None);
      b := b * 9;
      w := w * 16;
      var pieces := b + w;
      score := 0;
      var s := Surround(board);
      score := score + s;
      var strat := MyStrat(board);
      score := score + strat;
      var myPieces := board.PieceLocations(Side(myPiece));
      var capture := CaptureTotal(board, myPieces);
      capture := capture * 1000;
      score := score + capture + pieces;
    }

    /** `staticScore`. */
    method StaticScore(board: Board) returns (score: int)
      requires board.Valid() && (myPiece == White || myPiece == Black)
      ensures score == Eval.StaticScore(myPiece, GridOf(board.contents), board.turn)
    {
      if Side(myPiece) == White {
        var onEdge := KingOnEdge(board);
        if onEdge {
          return WINNING_VALUE;
        }
        var win := KingWin(board);
        if win {
          return WILL_WIN_VALUE;
        }
        var captured := KingCaptured(board);
        if captured {
          return -INFTY;
        }
      } else if Side(myPiece) == Black {
        var captured := KingCaptured(board);
        if captured {
          return -WINNING_VALUE;
        }
        var win := KingWin(board);
        if win {
          return WILL_WIN_VALUE;
        }
        var onEdge := KingOnEdge(board);
        if onEdge {
          return WINNING_VALUE;
        }
      }
      score := Heuristic(board);
    }

    // ---------------------------------------------------------------- search

    /** `findMove()`: search a copy of board to maxDepth with the full window
        and return the move found; ok is false when the search crashed on an
        undo. The caller's board is not changed. */
    method FindMove(board: Board) returns (move: Option<Move>, ok: bool)
      requires board.Valid() && (myPiece == White || myPiece == Black)
      modifies this
      ensures var o := RootSearch(myPiece, board.Model());
        && ok == o.Outcome?
        && (ok ==> move == o.bestMove && lastFoundMove == move)
    {
      var b := new Board.Copy(board);
      lastFoundMove := None;
      var s: int;
      if myPiece == Black {
        s := -1;
      } else {
        s := 1;
      }
      var depth := MaxDepth(b);
      var _, searched := FindMoveIn(b, depth, true, s, -INFTY, INFTY);
      ok := searched;
      move := lastFoundMove;
    }

    /** `findMove(board, depth, saveMove, sense, alpha, beta)`: the value of
        the position on board, found by searching depth levels through
        makeMove and undo on board itself; the chosen move is saved in
        lastFoundMove when saveMove is set and the position is not
        terminal. ok is false when an undo crashed. */
    method FindMoveIn(board: Board, depth: nat, saveMove: bool, sense: int, alpha: int, beta: int)
      returns (value: int, ok: bool)
      requires board.Valid() && (myPiece == White || myPiece == Black)
      modifies this, board, board.contents
      ensures board.Valid() && (board.contents == old(board.contents) || fresh(board.contents))
      ensures !saveMove ==> lastFoundMove == old(lastFoundMove)
      ensures var o := Search(myPiece, old(board.Model()), depth, sense, alpha, beta);
        && ok == o.Outcome?
        && (ok ==> value == o.value && board.Model() == o.pos)
        && (ok && saveMove ==>
              lastFoundMove == if depth == 0 || old(board.winner).Some? then old(lastFoundMove) else o.bestMove)
      decreases depth, 2
    {
      if depth == 0 || board.winner.Some? {
        SearchTerminal(myPiece, board.Model(), depth, sense, alpha, beta);
        value := StaticScore(board);
        return value, true;
      }
      ghost var p := board.Model();
      SearchNode(myPiece, p, depth, sense, alpha, beta);
      var bestMove;
      value, bestMove, ok := SearchMoves(board, depth, sense, alpha, beta);
      if ok && saveMove {
        lastFoundMove := bestMove;
      }
    }

    /** The loop of `findMove` over the legal moves of the side to play at
        a node that is not terminal: each move is explored in turn, the
        best response and its move are kept, the window is narrowed, and the
        loop stops at a cutoff; ok is false when an undo crashed. */
    method SearchMoves(board: Board, depth: nat, sense: int, alpha: int, beta: int)
      returns (best: int, bestMove: Option<Move>, ok: bool)
      requires board.Valid() && (myPiece == White || myPiece == Black) && depth >= 1
      modifies this, board, board.contents
      ensures board.Valid() && (board.contents == old(board.contents) || fresh(board.contents))
      ensures lastFoundMove == old(lastFoundMove)
      ensures var p := old(board.Model());
        var l := Loop(myPiece, Rules.LegalMoves(p.grid, p.turn, MoverOf(sense)), Start(sense, alpha, beta, p), depth, sense);
        && ok == l.Some?
        && (ok ==> best == l.value.best && bestMove == l.value.bestMove && board.Model() == l.value.pos)
      decreases depth, 1
    {
      ghost var p := board.Model();
      var moves := board.LegalMoves(MoverOf(sense));
      ghost var target := Loop(myPiece, moves, Start(sense, alpha, beta, p), depth, sense);
      best := if sense == 1 then -INFTY else INFTY;
      bestMove := None;
      var a, b := alpha, beta;
      var i := 0;
      var cutoff := false;
      ok := true;
      while i < |moves| && ok && !cutoff
        invariant 0 <= i <= |moves|
        invariant board.Valid() && (board.contents == old(board.contents) || fresh(board.contents))
        invariant lastFoundMove == old(lastFoundMove)
        invariant var f := Frame(best, bestMove, a, b, board.Model());
          if !ok then target.None?
          else if cutoff then target == Some(f)
          else Loop(myPiece, moves[i..], f, depth, sense) == target
        decreases |moves| - i
      {
        best, bestMove, a, b, ok, cutoff := TryMove(board, moves, i, depth, sense, best, bestMove, a, b);
        i := i + 1;
      }
    }

    /** One pass of the loop of `findMove`: make moves[i] on board, search
        the result one level less deep with the opposite sense, undo, and keep
        the move when its response is at least as good as best, narrowing the
        window; cutoff is set when the window has closed. ok is false when
        the child search or the undo crashed. */
    method TryMove(board: Board, moves: seq<Move>, i: int, depth: nat, sense: int,
                   best: int, bestMove: Option<Move>, alpha: int, beta: int)
      returns (best': int, bestMove': Option<Move>, alpha': int, beta': int, ok: bool, cutoff: bool)
      requires board.Valid() && (myPiece == White || myPiece == Black) && depth >= 1
      requires 0 <= i < |moves|
      modifies this, board, board.contents
      ensures board.Valid() && (board.contents == old(board.contents) || fresh(board.contents))
      ensures lastFoundMove == old(lastFoundMove)
      ensures var l := Loop(myPiece, moves[i..], Frame(best, bestMove, alpha, beta, old(board.Model())), depth, sense);
        var next := Frame(best', bestMove', alpha', beta', board.Model());
        && (!ok ==> l.None?)
        && (ok && cutoff ==> l == Some(next))
        && (ok && !cutoff ==> l == Loop(myPiece, moves[i + 1..], next, depth, sense))
      decreases depth, 0
    {
      ghost var f := Frame(best, bestMove, alpha, beta, board.Model());
      var m := moves[i];
      var response;
      response, ok := Explore(board, m, depth, sense, alpha, beta);
      best', bestMove', alpha', beta', cutoff := best, bestMove, alpha, beta, false;
      if ok {
        var kept := if sense == 1 then response >= best else response <= best;
        if kept {
          bestMove' := Some(m);
          best' := response;
          if sense == 1 {
            alpha' := Max(alpha, response);
          } else {
            beta' := Min(beta, response);
          }
        }
        cutoff := kept && beta' <= alpha';
      }
      LoopStep(myPiece, moves, i, f, depth, sense, ok, response, board.Model(),
               Frame(best', bestMove', alpha', beta', board.Model()));
    }

    /** One child of a node: make move m, search the result one level less
        deep with the opposite sense, and undo; ok is false when the child
        search or the undo crashed. */
    method Explore(board: Board, m: Move, depth: nat, sense: int, alpha: int, beta: int)
      returns (response: int, ok: bool)
      requires board.Valid() && (myPiece == White || myPiece == Black) && depth >= 1
      modifies this, board, board.contents
      ensures board.Valid() && (board.contents == old(board.contents) || fresh(board.contents))
      ensures lastFoundMove == old(lastFoundMove)
      ensures var o := Child(myPiece, old(board.Model()), m, depth, sense, alpha, beta);
        && ok == (o.Outcome? && Undo(o.pos).Some?)
        && (ok ==> response == o.value && board.Model() == Undo(o.pos).value)
      decreases depth, 0, 0
    {
      board.MakeMove(m.from, m.to);
      response, ok := FindMoveIn(board, depth - 1, false, ChildSense(sense), alpha, beta);
      if ok {
        ok := board.Undo();
      }
    }
  }
}
