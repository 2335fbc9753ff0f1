/**
  The alpha-beta search of the Tablut AI as functions of positions.

  The search shares one board between all its nodes: a child is explored by
  making its move, searching, and undoing the move, and the next sibling
  starts from whatever position that undo leaves. Undo does not restore
  every field (the move count, the winner, and after a repetition the
  grid), so the functions below carry the position from child to child.
  An undo that peeks an empty stack ends the whole search (Crashed).
 */
module AlphaBeta {
  import opened Geometry
  import opened Rules
  import opened Eval

  /** The result of a search: its value, the move it chose (if any) and the
      position the shared board is left in. */
  datatype Outcome = Outcome(value: int, bestMove: Option<Move>, pos: Position) | Crashed

  /** The variables of the loop over a node's moves. */
  datatype Frame = Frame(best: int, bestMove: Option<Move>, alpha: int, beta: int, pos: Position)

  /** Sense 1 maximises with WHITE's moves; any other sense minimises with
      BLACK's moves and hands sense 1 to its children. */
  function ChildSense(sense: int): int
  {
    if sense == 1 then -1 else 1
  }

  function MoverOf(sense: int): Piece
  {
    if sense == 1 then White else Black
  }

  /** The root's sense for the AI playing me. */
  function RootSense(me: Piece): int
  {
    if me == Black then -1 else 1
  }

  function Max(a: int, b: int): int
  {
    if a >= b then a else b
  }

  function Min(a: int, b: int): int
  {
    if a <= b then a else b
  }

  /** The response is kept: `>=` at a maximising node, `<=` at a minimising one. */
  predicate Improves(sense: int, response: int, best: int)
  {
    if sense == 1 then response >= best else response <= best
  }

  /** The loop variables after move m answered response and its undo left u. */
  function Record(sense: int, f: Frame, m: Move, response: int, u: Position): Frame
  {
    if !Improves(sense, response, f.best) then f.(pos := u)
    else if sense == 1 then Frame(response, Some(m), Max(f.alpha, response), f.beta, u)
    else Frame(response, Some(m), f.alpha, Min(f.beta, response), u)
  }

  /** `findMove(board, depth, saveMove, sense, alpha, beta)` started on p, for
      the AI playing me. */
  ghost function Search(me: Piece, p: Position, depth: nat, sense: int, alpha: int, beta: int): Outcome
    requires me == White || me == Black
    decreases depth, 1
  {
    if depth == 0 || p.winner.Some? then Outcome(StaticScore(me, p.grid, p.turn), None, p)
    // the three tests below can never succeed, as any winner was caught above
    else if p.winner == Some(me) && me == Black then Outcome(-WINNING_VALUE, None, p)
    else if p.winner == Some(me) && me == White then Outcome(WINNING_VALUE, None, p)
    else if p.winner == Some(Opponent(me)) then Outcome(-INFTY, None, p)
    else FromLoop(Loop(me, LegalMoves(p.grid, p.turn, MoverOf(sense)), Start(sense, alpha, beta, p), depth, sense))
  }

  /** The loop variables before the first move: best is -INFTY when
      maximising and INFTY when minimising, and no move is kept. */
  function Start(sense: int, alpha: int, beta: int, p: Position): Frame
  {
    Frame(if sense == 1 then -INFTY else INFTY, None, alpha, beta, p)
  }

  /** A node's outcome from the end of its loop. */
  function FromLoop(l: Option<Frame>): Outcome
  {
    match l
    case None => Crashed
    case Some(f) => Outcome(f.best, f.bestMove, f.pos)
  }

  /** The outcome of the child reached by making m on p: searched one level
      less deep, with the opposite sense and the window alpha, beta. */
  ghost function Child(me: Piece, p: Position, m: Move, depth: nat, sense: int, alpha: int, beta: int): Outcome
    requires me == White || me == Black
    requires depth >= 1
    decreases depth, 0, 0
  {
    Search(me, MakeMove(p, m.from, m.to), depth - 1, ChildSense(sense), alpha, beta)
  }

  /** The loop of a node at depth over its remaining moves, from loop
      variables f; None when an undo crashed. */
  ghost function Loop(me: Piece, moves: seq<Move>, f: Frame, depth: nat, sense: int): Option<Frame>
    requires me == White || me == Black
    requires depth >= 1
    decreases depth, 0, |moves|
  {
    if moves == [] then Some(f)
    else
      var m := moves[0];
      match Child(me, f.pos, m, depth, sense, f.alpha, f.beta)
      case Crashed => None
      case Outcome(response, _, q) =>
        match Undo(q)
        case None => None
        case Some(u) =>
          var next := Record(sense, f, m, response, u);
          if Improves(sense, response, f.best) && next.beta <= next.alpha then Some(next)
          else Loop(me, moves[1..], next, depth, sense)
  }

  /** The responses the loop computes, in order, up to a cutoff. */
  ghost function Responses(me: Piece, moves: seq<Move>, f: Frame, depth: nat, sense: int): seq<int>
    requires me == White || me == Black
    requires depth >= 1
    decreases |moves|
  {
    if moves == [] then []
    else
      var m := moves[0];
      match Child(me, f.pos, m, depth, sense, f.alpha, f.beta)
      case Crashed => []
      case Outcome(response, _, q) =>
        match Undo(q)
        case None => []
        case Some(u) =>
          var next := Record(sense, f, m, response, u);
          if Improves(sense, response, f.best) && next.beta <= next.alpha then [response]
          else [response] + Responses(me, moves[1..], next, depth, sense)
  }

  /** One move of the loop, with the child's value and the position its undo
      leaves given as response and u (ok says whether both exist). */
  lemma LoopStep(me: Piece, moves: seq<Move>, i: int, f: Frame, depth: nat, sense: int,
                 ok: bool, response: int, u: Position, next: Frame)
    requires me == White || me == Black
    requires 0 <= i < |moves| && depth >= 1
    requires var m := moves[i];
      var o := Child(me, f.pos, m, depth, sense, f.alpha, f.beta);
      && ok == (o.Outcome? && Undo(o.pos).Some?)
      && (ok ==> response == o.value && u == Undo(o.pos).value)
    requires ok ==> next == Record(sense, f, moves[i], response, u)
    ensures !ok ==> Loop(me, moves[i..], f, depth, sense).None?
    ensures ok && Improves(sense, response, f.best) && next.beta <= next.alpha ==>
              Loop(me, moves[i..], f, depth, sense) == Some(next)
    ensures ok && !(Improves(sense, response, f.best) && next.beta <= next.alpha) ==>
              Loop(me, moves[i..], f, depth, sense) == Loop(me, moves[i + 1..], next, depth, sense)
  {
    DropStep(moves, i);
  }

  // ---------------------------------------------------------------- lemmas

  /** At depth 0, or once the position has a winner, the search returns the
      static score without moving and without choosing a move. */
  lemma SearchTerminal(me: Piece, p: Position, depth: nat, sense: int, alpha: int, beta: int)
    requires me == White || me == Black
    requires depth == 0 || p.winner.Some?
    ensures Search(me, p, depth, sense, alpha, beta) == Outcome(StaticScore(me, p.grid, p.turn), None, p)
  {
  }

  /** A node that is not terminal runs the loop over the legal moves of the
      side its sense asks for. */
  lemma SearchNode(me: Piece, p: Position, depth: nat, sense: int, alpha: int, beta: int)
    requires me == White || me == Black
    requires depth > 0 && p.winner.None?
    ensures Search(me, p, depth, sense, alpha, beta) ==
            FromLoop(Loop(me, LegalMoves(p.grid, p.turn, MoverOf(sense)), Start(sense, alpha, beta, p), depth, sense))
  {
  }

  /** The loop never lowers best or alpha at a maximising node, never raises
      best or beta at a minimising one, and leaves the other bound alone; the
      move it keeps is the one it started with or one of its moves, and
      while it keeps no move its variables stay as they were. */
  lemma {:induction false} LoopMonotone(me: Piece, moves: seq<Move>, f: Frame, depth: nat, sense: int)
    requires me == White || me == Black
    requires depth >= 1
    requires Loop(me, moves, f, depth, sense).Some?
    ensures var r := Loop(me, moves, f, depth, sense).value;
      && (sense == 1 ==> r.best >= f.best && r.alpha >= f.alpha && r.beta == f.beta)
      && (sense != 1 ==> r.best <= f.best && r.beta <= f.beta && r.alpha == f.alpha)
      && (r.bestMove == f.bestMove || (r.bestMove.Some? && r.bestMove.value in moves))
      && (f.bestMove.None? && r.bestMove.None? ==> r.best == f.best)
    decreases |moves|
  {
    if moves != [] {
      var m := moves[0];
      var o := Child(me, f.pos, m, depth, sense, f.alpha, f.beta);
      var u := Undo(o.pos).value;
      var next := Record(sense, f, m, o.value, u);
      if !(Improves(sense, o.value, f.best) && next.beta <= next.alpha) {
        LoopMonotone(me, moves[1..], next, depth, sense);
      }
    }
  }

  /** At a maximising node best ends as the largest of the start value and
      the responses seen, at a minimising node as the smallest. */
  lemma {:induction false} LoopBest(me: Piece, moves: seq<Move>, f: Frame, depth: nat, sense: int)
    requires me == White || me == Black
    requires depth >= 1
    requires Loop(me, moves, f, depth, sense).Some?
    ensures var r := Loop(me, moves, f, depth, sense).value;
      var rs := Responses(me, moves, f, depth, sense);
      && (r.best == f.best || r.best in rs)
      && (sense == 1 ==> forall i :: 0 <= i < |rs| ==> rs[i] <= r.best)
      && (sense != 1 ==> forall i :: 0 <= i < |rs| ==> r.best <= rs[i])
    decreases |moves|
  {
    if moves != [] {
      var m := moves[0];
      var o := Child(me, f.pos, m, depth, sense, f.alpha, f.beta);
      var u := Undo(o.pos).value;
      var next := Record(sense, f, m, o.value, u);
      if !(Improves(sense, o.value, f.best) && next.beta <= next.alpha) {
        LoopBest(me, moves[1..], next, depth, sense);
        LoopMonotone(me, moves[1..], next, depth, sense);
        var rs := Responses(me, moves[1..], next, depth, sense);
        assert Responses(me, moves, f, depth, sense) == [o.value] + rs;
      }
    }
  }

  /** Once a kept response closes the window (beta <= alpha), the moves after
      it are not looked at. */
  lemma LoopCutoff(me: Piece, m: Move, rest1: seq<Move>, rest2: seq<Move>, f: Frame, depth: nat, sense: int,
                   response: int, q: Position, u: Position)
    requires me == White || me == Black
    requires depth >= 1
    requires Child(me, f.pos, m, depth, sense, f.alpha, f.beta).Outcome?
    requires Child(me, f.pos, m, depth, sense, f.alpha, f.beta).value == response
    requires Child(me, f.pos, m, depth, sense, f.alpha, f.beta).pos == q
    requires Undo(q) == Some(u)
    requires Improves(sense, response, f.best)
    requires Record(sense, f, m, response, u).beta <= Record(sense, f, m, response, u).alpha
    ensures Loop(me, [m] + rest1, f, depth, sense) == Loop(me, [m] + rest2, f, depth, sense)
    ensures Loop(me, [m] + rest1, f, depth, sense) == Some(Record(sense, f, m, response, u))
  {
    assert ([m] + rest1)[0] == m && ([m] + rest2)[0] == m;
  }

  /** A response equal to the best so far replaces the kept move. */
  lemma TieReplaces(sense: int, f: Frame, m: Move, u: Position)
    ensures Record(sense, f, m, f.best, u).bestMove == Some(m)
    ensures Record(sense, f, m, f.best, u).best == f.best
  {
  }

  /** A node without legal moves for the side its sense asks for returns
      -INFTY (maximising) or INFTY (minimising) with no move and leaves the
      position alone. */
  lemma SearchNoMoves(me: Piece, p: Position, depth: nat, sense: int, alpha: int, beta: int)
    requires me == White || me == Black
    requires depth > 0 && p.winner.None? && LegalMoves(p.grid, p.turn, MoverOf(sense)) == []
    ensures Search(me, p, depth, sense, alpha, beta) == Outcome(if sense == 1 then -INFTY else INFTY, None, p)
  {
    SearchNode(me, p, depth, sense, alpha, beta);
  }

  /** A node whose sense asks for the side not to move has no moves, so it
      returns -INFTY (maximising) or INFTY (minimising) with no move and
      leaves the position alone. */
  lemma SearchOffTurn(me: Piece, p: Position, depth: nat, sense: int, alpha: int, beta: int)
    requires me == White || me == Black
    requires depth > 0 && p.winner.None? && MoverOf(sense) != p.turn
    ensures Search(me, p, depth, sense, alpha, beta) == Outcome(if sense == 1 then -INFTY else INFTY, None, p)
  {
    LegalMovesSpec(p.grid, p.turn, MoverOf(sense), Move(Sq(0, 0), Sq(0, 0)));
    SearchNoMoves(me, p, depth, sense, alpha, beta);
  }

  /** The move a non-terminal search chooses is a legal move of the side its
      sense asks for; when it chooses none its value is -INFTY (maximising)
      or INFTY (minimising). */
  lemma SearchChoice(me: Piece, p: Position, depth: nat, sense: int, alpha: int, beta: int)
    requires me == White || me == Black
    requires depth > 0 && p.winner.None?
    requires Search(me, p, depth, sense, alpha, beta).Outcome?
    ensures var o := Search(me, p, depth, sense, alpha, beta);
      && (o.bestMove.Some? ==>
            Side(Get(p.grid, o.bestMove.value.from)) == MoverOf(sense) &&
            IsLegal(p.grid, p.turn, o.bestMove.value.from, o.bestMove.value.to))
      && (o.bestMove.None? ==> o.value == if sense == 1 then -INFTY else INFTY)
  {
    var moves := LegalMoves(p.grid, p.turn, MoverOf(sense));
    var start := Start(sense, alpha, beta, p);
    var l := Loop(me, moves, start, depth, sense);
    assert Search(me, p, depth, sense, alpha, beta) == FromLoop(l);
    LoopMonotone(me, moves, start, depth, sense);
    if l.value.bestMove.Some? {
      LegalMovesSpec(p.grid, p.turn, MoverOf(sense), l.value.bestMove.value);
    }
  }

  // ---------------------------------------------------------------- the root

  /** `findMove()`: the search of a fresh copy of p, to the depth maxDepth
      gives, with the full window. */
  ghost function RootSearch(me: Piece, p: Position): Outcome
    requires me == White || me == Black
  {
    var b := Copy(p);
    Search(me, b, MaxDepth(b.grid), RootSense(me), -INFTY, INFTY)
  }

  /** The move the root chooses is a legal move of one of me's pieces; off
      me's turn it chooses none. */
  lemma RootChoice(me: Piece, p: Position)
    requires me == White || me == Black
    requires RootSearch(me, p).Outcome?
    ensures var o := RootSearch(me, p);
      && (o.bestMove.Some? ==>
            Side(Get(p.grid, o.bestMove.value.from)) == me &&
            IsLegal(p.grid, p.turn, o.bestMove.value.from, o.bestMove.value.to))
      && (p.turn != me ==> o.bestMove.None?)
  {
    var b := Copy(p);
    MaxDepthIsThree(b.grid);
    SearchChoice(me, b, MaxDepth(b.grid), RootSense(me), -INFTY, INFTY);
    if p.turn != me {
      SearchOffTurn(me, b, MaxDepth(b.grid), RootSense(me), -INFTY, INFTY);
    }
  }
}
