/**
  The static evaluation of the Tablut AI, as functions of a grid and the
  side to move: the depth policy, the per-square tallies, the throne and
  king tests, the capture points and the score that combines them.

  Scores are unbounded integers; INFTY is the value of Java's
  Integer.MAX_VALUE.
 */
module Eval {
  import opened Geometry
  import opened Rules

  // ---------------------------------------------------------------- score constants

  const INFTY: int := 0x7fff_ffff
  /** A win on the board. */
  const WINNING_VALUE: int := INFTY - 20
  /** A win one move away, ranked below a win on the board. */
  const WILL_WIN_VALUE: int := INFTY - 40

  lemma ValueOrder()
    ensures 0 < WILL_WIN_VALUE < WINNING_VALUE < INFTY
  {
  }

  // ---------------------------------------------------------------- depth policy

  /** `maxDepth`'s step function of the number of counted squares. */
  function DepthFor(n: int): (d: int)
    ensures 3 <= d <= 9
    ensures n >= 16 + 9 <==> d == 3
    ensures n < 16 - 6 <==> d == 9
  {
    if n >= 16 + 9 then 3
    else if n >= 16 + 6 then 4
    else if n >= 16 + 3 then 5
    else if n >= 16 then 6
    else if n >= 16 - 3 then 7
    else if n >= 16 - 6 then 8
    else 9
  }

  /** More counted squares never give a deeper search. */
  lemma DepthForMonotone(m: int, n: int)
    requires m <= n
    ensures DepthFor(n) <= DepthFor(m)
  {
  }

  // ---------------------------------------------------------------- tallies

  /** isSurrounded: some neighbour of s holds the opponent of the piece on s. */
  predicate IsSurrounded(g: Grid, s: Square)
  {
    exists dir :: 0 <= dir < 4 && NeighbourHolds(g, s, dir, Opponent(Get(g, s)))
  }

  /** The neighbour of s in direction dir is on the board and holds p. */
  predicate NeighbourHolds(g: Grid, s: Square, dir: int, p: Piece)
    requires 0 <= dir < 4
  {
    match RookMove(s, dir, 1)
    case None => false
    case Some(o) => Get(g, o) == p
  }

  /** What a scan of the whole grid counts. */
  datatype Tally =
    | Blacks                      // squares holding BLACK
    | NonBlacks                   // squares not holding BLACK, empty ones included
    | WhitesAndKing               // squares holding WHITE or KING
    | MineSurrounded(me: Piece)   // squares holding me with an opposing neighbour
    | MineOnEdge(me: Piece)       // edge squares holding me
    | SurroundWeight(me: Piece)   // as MineSurrounded, but 10 on the king's square

  /** What square s adds to tally t. */
  ghost function Weight(t: Tally, g: Grid, s: Square): nat
  {
    match t
    case Blacks => if Get(g, s) == Black then 1 else 0
    case NonBlacks => if Get(g, s) != Black then 1 else 0
    case WhitesAndKing => if Get(g, s) == White || Get(g, s) == King then 1 else 0
    case MineSurrounded(me) => if Get(g, s) == me && IsSurrounded(g, s) then 1 else 0
    case MineOnEdge(me) => if Get(g, s) == me && IsEdge(s) then 1 else 0
    case SurroundWeight(me) =>
      if Get(g, s) == me && IsSurrounded(g, s) then
        (if KingPosition(g) == Some(s) then 10 else 1)
      else 0
  }

  /** Tally t over the squares of row, last square last. */
  ghost function CountRow(t: Tally, g: Grid, row: seq<Square>): nat
  {
    if row == [] then 0 else CountRow(t, g, row[..|row| - 1]) + Weight(t, g, row[|row| - 1])
  }

  /** Tally t over rows of squares, last row last. */
  ghost function CountRows(t: Tally, g: Grid, rows: seq<seq<Square>>): nat
  {
    if rows == [] then 0 else CountRows(t, g, rows[..|rows| - 1]) + CountRow(t, g, rows[|rows| - 1])
  }

  /** Tally t over the whole grid. */
  ghost function Count(t: Tally, g: Grid): nat
  {
    CountRows(t, g, Rows())
  }

  /** Every square of a row is BLACK or not. */
  lemma {:induction false} BlacksAndNonBlacksRow(g: Grid, row: seq<Square>)
    ensures CountRow(Blacks, g, row) + CountRow(NonBlacks, g, row) == |row|
  {
    if row != [] {
      BlacksAndNonBlacksRow(g, row[..|row| - 1]);
    }
  }

  lemma {:induction false} BlacksAndNonBlacksRows(g: Grid, rows: seq<seq<Square>>)
    requires forall i :: 0 <= i < |rows| ==> |rows[i]| == 9
    ensures CountRows(Blacks, g, rows) + CountRows(NonBlacks, g, rows) == 9 * |rows|
  {
    if rows != [] {
      BlacksAndNonBlacksRows(g, rows[..|rows| - 1]);
      BlacksAndNonBlacksRow(g, rows[|rows| - 1]);
    }
  }

  /** `maxDepth`: the depth for the number of BLACK squares plus the number
      of all other squares. */
  ghost function MaxDepth(g: Grid): int
  {
    DepthFor(Count(Blacks, g) + Count(NonBlacks, g))
  }

  /** As empty squares are counted with the white ones, every square is
      counted, and the search depth is always 3. */
  lemma MaxDepthIsThree(g: Grid)
    ensures Count(Blacks, g) + Count(NonBlacks, g) == 81
    ensures MaxDepth(g) == 3
  {
    BlacksAndNonBlacksRows(g, Rows());
  }

  /** No square holds KING for a side other than the king's, so the
      king's weight of 10 never applies to a side's own pieces. */
  lemma {:induction false} SurroundWeightRow(me: Piece, g: Grid, row: seq<Square>)
    requires me != King
    ensures CountRow(SurroundWeight(me), g, row) == CountRow(MineSurrounded(me), g, row)
  {
    if row != [] {
      SurroundWeightRow(me, g, row[..|row| - 1]);
    }
  }

  lemma {:induction false} SurroundWeightRows(me: Piece, g: Grid, rows: seq<seq<Square>>)
    requires me != King
    ensures CountRows(SurroundWeight(me), g, rows) == CountRows(MineSurrounded(me), g, rows)
  {
    if rows != [] {
      SurroundWeightRows(me, g, rows[..|rows| - 1]);
      SurroundWeightRow(me, g, rows[|rows| - 1]);
    }
  }

  // ---------------------------------------------------------------- thrones

  /** The four squares next to the throne, in the order `thrones` lists them. */
  function ThroneNeighbours(): (sqs: seq<Square>)
    ensures |sqs| == 4
    ensures forall s :: s in sqs <==> NearThrone(s) && s != THRONE
  {
    [NTHRONE, WTHRONE, ETHRONE, STHRONE]
  }

  /** The number of squares of sqs that hold BLACK. */
  function BlacksAmong(g: Grid, sqs: seq<Square>): (n: nat)
    ensures n <= |sqs|
  {
    if sqs == [] then 0
    else BlacksAmong(g, sqs[..|sqs| - 1]) + (if Get(g, sqs[|sqs| - 1]) == Black then 1 else 0)
  }

  lemma {:induction false} BlacksAmongSpec(g: Grid, sqs: seq<Square>)
    ensures BlacksAmong(g, sqs) == 0 <==> forall i :: 0 <= i < |sqs| ==> Get(g, sqs[i]) != Black
    ensures BlacksAmong(g, sqs) == |sqs| <==> forall i :: 0 <= i < |sqs| ==> Get(g, sqs[i]) == Black
  {
    if sqs != [] {
      var init := sqs[..|sqs| - 1];
      BlacksAmongSpec(g, init);
      assert forall i :: 0 <= i < |init| ==> init[i] == sqs[i];
    }
  }

  /** `thrones`: the BLACK pieces next to the throne. */
  function Thrones(g: Grid): nat
  {
    BlacksAmong(g, ThroneNeighbours())
  }

  /** Thrones is at most 4; it is 0 exactly when no throne neighbour holds
      BLACK and 4 exactly when all four do. */
  lemma ThronesSpec(g: Grid)
    ensures Thrones(g) <= 4
    ensures Thrones(g) == 0 <==> forall s :: NearThrone(s) && s != THRONE ==> Get(g, s) != Black
    ensures Thrones(g) == 4 <==> forall s :: NearThrone(s) && s != THRONE ==> Get(g, s) == Black
  {
    var sqs := ThroneNeighbours();
    BlacksAmongSpec(g, sqs);
    assert forall s :: NearThrone(s) && s != THRONE ==> s == sqs[0] || s == sqs[1] || s == sqs[2] || s == sqs[3];
  }

  // ---------------------------------------------------------------- the king

  /** `kingOnEdge`. */
  ghost predicate KingOnEdge(g: Grid)
  {
    KingPosition(g).Some? && IsEdge(KingPosition(g).value)
  }

  /** `kingCaptured`. */
  ghost predicate KingCaptured(g: Grid)
  {
    KingPosition(g).None?
  }

  lemma KingCapturedSpec(g: Grid)
    ensures KingCaptured(g) <==> forall s :: Get(g, s) != King
    ensures !KingCaptured(g) ==> Get(g, KingPosition(g).value) == King
  {
    KingPositionSpec(g, Sq(0, 0));
  }

  /** `kingWin`: one of the king's legal moves lands on the edge. */
  ghost predicate KingWin(g: Grid, turn: Piece)
  {
    match KingPosition(g)
    case None => false
    case Some(k) => exists m :: m in MovesFrom(g, turn, k, 0) && IsEdge(m.to)
  }

  /** kingWin holds iff there is a king with a legal move to an edge square;
      as legality asks for the side to move, never on BLACK's turn. */
  lemma KingWinSpec(g: Grid, turn: Piece)
    ensures KingWin(g, turn) <==>
              KingPosition(g).Some? && exists t :: IsEdge(t) && IsLegal(g, turn, KingPosition(g).value, t)
    ensures turn == Black ==> !KingWin(g, turn)
  {
    match KingPosition(g)
    case None =>
    case Some(k) =>
      forall m | true
        ensures m in MovesFrom(g, turn, k, 0) <==> m.from == k && IsLegal(g, turn, k, m.to)
      {
        MovesFromSpec(g, turn, k, 0, m);
      }
      if exists t :: IsEdge(t) && IsLegal(g, turn, k, t) {
        var t :| IsEdge(t) && IsLegal(g, turn, k, t);
        assert Move(k, t) in MovesFrom(g, turn, k, 0);
      }
  }

  // ---------------------------------------------------------------- capture points

  /** The pieces of locs next to t. */
  function AdjacentCount(t: Square, locs: set<Square>): nat
  {
    |set q | q in locs && Adjacent(t, q)|
  }

  /** Counting one piece of locs at a time. */
  lemma AdjacentCountRemove(t: Square, locs: set<Square>, q: Square)
    requires q in locs
    ensures AdjacentCount(t, locs) == AdjacentCount(t, locs - {q}) + (if Adjacent(t, q) then 1 else 0)
  {
    var rest := set x | x in locs - {q} && Adjacent(t, x);
    if Adjacent(t, q) {
      assert (set x | x in locs && Adjacent(t, x)) == rest + {q};
    } else {
      assert (set x | x in locs && Adjacent(t, x)) == rest;
    }
  }

  /** The sum of AdjacentCount over the destinations of moves. */
  function MovePoints(moves: seq<Move>, locs: set<Square>): nat
  {
    if moves == [] then 0
    else MovePoints(moves[..|moves| - 1], locs) + AdjacentCount(moves[|moves| - 1].to, locs)
  }

  /** `capturePoints`: for each legal move of the piece on s, the opposing
      pieces next to its destination. */
  ghost function CapturePoints(g: Grid, turn: Piece, s: Square): nat
  {
    MovePoints(MovesFrom(g, turn, s, 0), PieceLocations(g, Opponent(Get(g, s))))
  }

  /** A piece of the side not to move has no legal move, so it scores no
      capture points. */
  lemma CapturePointsOffTurn(g: Grid, turn: Piece, s: Square)
    requires Side(Get(g, s)) != turn
    ensures CapturePoints(g, turn, s) == 0
  {
    if MovesFrom(g, turn, s, 0) != [] {
      MovesFromSpec(g, turn, s, 0, MovesFrom(g, turn, s, 0)[0]);
    }
  }

  /** The capture points of the pieces in a set, summed in an arbitrary order. */
  ghost function CaptureSum(g: Grid, turn: Piece, pieces: set<Square>): int
    decreases pieces
  {
    if pieces == {} then 0
    else
      var s :| s in pieces;
      CapturePoints(g, turn, s) + CaptureSum(g, turn, pieces - {s})
  }

  /** The sum does not depend on the order the pieces are taken in. */
  lemma {:induction false} CaptureSumRemove(g: Grid, turn: Piece, pieces: set<Square>, s: Square)
    requires s in pieces
    ensures CaptureSum(g, turn, pieces) == CapturePoints(g, turn, s) + CaptureSum(g, turn, pieces - {s})
    decreases pieces
  {
    var y :| y in pieces && CaptureSum(g, turn, pieces) == CapturePoints(g, turn, y) + CaptureSum(g, turn, pieces - {y});
    if y != s {
      CaptureSumRemove(g, turn, pieces - {y}, s);
      assert pieces - {y} - {s} == pieces - {s} - {y};
      CaptureSumRemove(g, turn, pieces - {s}, y);
    }
  }

  // ---------------------------------------------------------------- surround and strategy

  /** `surround`: minus 200 per BLACK piece next to the throne, plus the
      weighted count of me's surrounded pieces, scaled by 200 for BLACK and
      by -200 for WHITE. */
  ghost function Surround(me: Piece, g: Grid): int
  {
    var surrounded := Count(SurroundWeight(me), g);
    var scaled := if me == Black then surrounded * 100 * 2
                  else if me == White then surrounded * 100 * 2 * -1
                  else surrounded;
    Thrones(g) * 100 * 2 * -1 + scaled
  }

  /** The moves whose destination is next to k. */
  function MovesNextTo(moves: seq<Move>, k: Square): nat
  {
    if moves == [] then 0
    else MovesNextTo(moves[..|moves| - 1], k) + (if Adjacent(moves[|moves| - 1].to, k) then 1 else 0)
  }

  /** `myStrat`, with k the king's square. */
  ghost function MyStrat(me: Piece, g: Grid, turn: Piece, k: Square): int
  {
    if me == Black then
      var score := MovesNextTo(LegalMoves(g, turn, Black), k);
      var surrounded := Count(MineSurrounded(me), g) * 100 * 2 * -1;
      var edge := Count(MineOnEdge(me), g) * 100 * 2 * -1;
      score * 1000 * 1000 + edge + surrounded
    else
      MovesNextTo(LegalMoves(g, turn, White), k) * 1000 * 10
  }

  /** Off its own turn a side has no legal move: BLACK's strategy term is
      then only its penalties, WHITE's is 0. */
  lemma MyStratOffTurn(me: Piece, g: Grid, turn: Piece, k: Square)
    requires Side(me) != turn
    ensures me == Black ==>
              MyStrat(me, g, turn, k) == -200 * (Count(MineSurrounded(me), g) + Count(MineOnEdge(me), g))
    ensures me == White ==> MyStrat(me, g, turn, k) == 0
  {
    LegalMovesSpec(g, turn, me, Move(k, k));
  }

  // ---------------------------------------------------------------- static score

  /** `staticScore` for the AI playing me. */
  ghost function StaticScore(me: Piece, g: Grid, turn: Piece): int
    requires me == White || me == Black
  {
    if Side(me) == White && KingOnEdge(g) then WINNING_VALUE
    else if Side(me) == White && KingWin(g, turn) then WILL_WIN_VALUE
    else if Side(me) == White && KingCaptured(g) then -INFTY
    else if Side(me) == Black && KingCaptured(g) then -WINNING_VALUE
    else if Side(me) == Black && KingWin(g, turn) then WILL_WIN_VALUE
    else if Side(me) == Black && KingOnEdge(g) then WINNING_VALUE
    else Heuristic(me, g, turn)
  }

  /** The score where no override applies: surround, strategy, capture
      points times 1000, and 9 per BLACK and 16 per WHITE or KING piece. */
  ghost function Heuristic(me: Piece, g: Grid, turn: Piece): int
    requires KingPosition(g).Some?
  {
    var pieces := Count(Blacks, g) * 9 + Count(WhitesAndKing, g) * 16;
    var capture := CaptureSum(g, turn, PieceLocations(g, Side(me))) * 1000;
    Surround(me, g) + MyStrat(me, g, turn, KingPosition(g).value) + capture + pieces
  }

  /** The terminal overrides: for WHITE a king on the edge, then a king
      escape, then a missing king; for BLACK a missing king, then a king
      escape, then a king on the edge. */
  lemma StaticScoreOverrides(me: Piece, g: Grid, turn: Piece)
    requires me == White || me == Black
    ensures me == White && KingOnEdge(g) ==> StaticScore(me, g, turn) == WINNING_VALUE
    ensures me == White && !KingOnEdge(g) && KingWin(g, turn) ==> StaticScore(me, g, turn) == WILL_WIN_VALUE
    ensures me == White && (forall s :: Get(g, s) != King) ==> StaticScore(me, g, turn) == -INFTY
    ensures me == Black && (forall s :: Get(g, s) != King) ==> StaticScore(me, g, turn) == -WINNING_VALUE
    ensures me == Black && !KingCaptured(g) && KingWin(g, turn) ==> StaticScore(me, g, turn) == WILL_WIN_VALUE
    ensures me == Black && turn == White && KingOnEdge(g) && !KingWin(g, turn) ==>
              StaticScore(me, g, turn) == WINNING_VALUE
  {
    KingCapturedSpec(g);
  }

  /** On BLACK's turn the king cannot move, so for BLACK a king on the edge
      scores WINNING_VALUE. */
  lemma StaticScoreBlackTurnKingOnEdge(g: Grid)
    requires KingOnEdge(g)
    ensures StaticScore(Black, g, Black) == WINNING_VALUE
  {
    KingWinSpec(g, Black);
  }
}
