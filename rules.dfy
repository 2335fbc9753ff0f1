/**
  The Tablut rule engine on position values: the initial layout, move
  legality, move application with captures, repetition detection, undo,
  and the board queries. The Board class in board.dfy performs the same
  operations in place and is proved against the functions here.
 */
module Rules {
  import opened Geometry

  /** The contents of the board: Get(g, s) is g[s.row][s.col]. */
  type Grid = g: seq<seq<Piece>> | |g| == 9 && forall r :: 0 <= r < |g| ==> |g[r]| == 9
    witness seq(9, _ => seq(9, _ => Empty))

  function Get(g: Grid, s: Square): Piece
  {
    g[s.row][s.col]
  }

  function Put(g: Grid, s: Square, p: Piece): (r: Grid)
    ensures Get(r, s) == p
    ensures forall t {:trigger Get(r, t)} :: t != s ==> Get(r, t) == Get(g, t)
  {
    g[s.row := g[s.row][s.col := p]]
  }

  /** Two grids that agree on every square are equal. */
  lemma GridExt(g1: Grid, g2: Grid)
    requires forall s :: Get(g1, s) == Get(g2, s)
    ensures g1 == g2
  {
    forall r | 0 <= r < 9
      ensures g1[r] == g2[r]
    {
      forall c | 0 <= c < 9
        ensures g1[r][c] == g2[r][c]
      {
        assert Get(g1, Sq(c, r)) == Get(g2, Sq(c, r));
      }
    }
  }

  /** One entry of the stack of board states: a grid and the side to move. */
  datatype Snapshot = Snapshot(grid: Grid, turn: Piece)

  /** Everything a board holds: its grid, the side to move, the winner if any,
      the number of moves made, the move limit (0 for none), whether the
      current position is a repetition, and the stack of earlier states
      (bottom first). */
  datatype Position = Position(
    grid: Grid,
    turn: Piece,
    winner: Option<Piece>,
    moveCount: nat,
    moveLimit: int,
    repeated: bool,
    history: seq<Snapshot>)

  // ---------------------------------------------------------------- init

  function InitialPiece(s: Square): Piece
  {
    if s == THRONE then King
    else if s in INITIAL_DEFENDERS then White
    else if s in INITIAL_ATTACKERS then Black
    else Empty
  }

  function InitialGrid(): Grid
  {
    seq(9, r requires 0 <= r < 9 => seq(9, c requires 0 <= c < 9 => InitialPiece(Sq(c, r))))
  }

  /** The position `init` sets up: Black to move, no move made, no winner,
      and the initial state as the only entry of the stack. */
  function InitialPosition(): Position
  {
    Position(InitialGrid(), Black, None, 0, 0, false, [Snapshot(InitialGrid(), Black)])
  }

  lemma InitialGridAt(s: Square)
    ensures Get(InitialGrid(), s) == InitialPiece(s)
  {
  }

  /** The initial layout: the king on the throne, the 8 defenders and the 16
      attackers on their distinct starting squares, and nothing elsewhere. */
  lemma InitialLayout()
    ensures forall s :: Get(InitialGrid(), s) == King <==> s == THRONE
    ensures forall s :: Get(InitialGrid(), s) == White <==> s in INITIAL_DEFENDERS
    ensures forall s :: Get(InitialGrid(), s) == Black <==> s in INITIAL_ATTACKERS
    ensures forall s :: Get(InitialGrid(), s) == Empty <==>
              s != THRONE && s !in INITIAL_DEFENDERS && s !in INITIAL_ATTACKERS
    ensures |INITIAL_ATTACKERS| == 16 && |INITIAL_DEFENDERS| == 8
    ensures forall i, j :: 0 <= i < j < 16 ==> INITIAL_ATTACKERS[i] != INITIAL_ATTACKERS[j]
    ensures forall i, j :: 0 <= i < j < 8 ==> INITIAL_DEFENDERS[i] != INITIAL_DEFENDERS[j]
  {
    forall s
      ensures Get(InitialGrid(), s) == InitialPiece(s)
    {
      InitialGridAt(s);
    }
    assert THRONE !in INITIAL_DEFENDERS && THRONE !in INITIAL_ATTACKERS;
    forall s | s in INITIAL_DEFENDERS
      ensures s !in INITIAL_ATTACKERS
    {
    }
  }

  // ---------------------------------------------------------------- legality

  /** `isLegal(from)`: the piece on from plays for the side to move. */
  predicate IsLegalFrom(g: Grid, turn: Piece, from: Square)
  {
    Side(Get(g, from)) == turn
  }

  /** The squares `isUnblockedMove` scans: those after from up to and
      including to, along from's row when to is on it, otherwise along
      from's column. */
  predicate OnPath(from: Square, to: Square, s: Square)
  {
    if from.row == to.row then
      s.row == from.row &&
      (if from.col < to.col then from.col < s.col <= to.col else to.col <= s.col < from.col)
    else
      s.col == from.col &&
      (if from.row < to.row then from.row < s.row <= to.row else to.row <= s.row < from.row)
  }

  ghost predicate IsUnblocked(g: Grid, from: Square, to: Square)
  {
    forall s {:trigger OnPath(from, to, s)} :: OnPath(from, to, s) ==> Get(g, s) == Empty
  }

  /** `isLegal(from, to)`. */
  ghost predicate IsLegal(g: Grid, turn: Piece, from: Square, to: Square)
  {
    if IsRookMove(from, to) then
      if to == THRONE && Get(g, from) != King then false
      else IsUnblocked(g, from, to) && IsLegalFrom(g, turn, from)
    else false
  }

  /** s lies strictly between from and to on their common row or column. */
  predicate StrictlyBetween(from: Square, to: Square, s: Square)
  {
    (s.row == from.row == to.row &&
     ((from.col < s.col < to.col) || (to.col < s.col < from.col))) ||
    (s.col == from.col == to.col &&
     ((from.row < s.row < to.row) || (to.row < s.row < from.row)))
  }

  /** A move is legal iff it is a rook move of a piece of the side to move,
      it lands on the throne only if that piece is the king, and the
      destination and every square strictly between are empty. */
  lemma {:induction false} LegalIff(g: Grid, turn: Piece, from: Square, to: Square)
    ensures IsLegal(g, turn, from, to) <==>
              && IsRookMove(from, to)
              && Side(Get(g, from)) == turn
              && (to == THRONE ==> Get(g, from) == King)
              && Get(g, to) == Empty
              && (forall s :: StrictlyBetween(from, to, s) ==> Get(g, s) == Empty)
  {
    if IsRookMove(from, to) {
      assert OnPath(from, to, to);
      forall s
        ensures OnPath(from, to, s) <==> s == to || StrictlyBetween(from, to, s)
      {
      }
    }
  }

  // ---------------------------------------------------------------- captures

  /** `canCapture`: some direction leads from sq0 to sq2 in two steps. */
  function CanCapture(sq0: Square, sq2: Square): (b: bool)
    ensures b <==> TwoApart(sq0, sq2)
  {
    RookMove(sq0, 0, 2) == Some(sq2) || RookMove(sq0, 1, 2) == Some(sq2) ||
    RookMove(sq0, 2, 2) == Some(sq2) || RookMove(sq0, 3, 2) == Some(sq2)
  }

  /** `anyThree`: compares the raw contents (a KING is not WHITE here). */
  function AnyThree(g: Grid, sq0: Square, sq1: Square, sq2: Square, sq3: Square): (b: bool)
    ensures b <==>
      (Get(g, sq0) == White && Get(g, sq1) == Black && Get(g, sq2) == Black && Get(g, sq3) == Black) ||
      (Get(g, sq1) == White && Get(g, sq0) == Black && Get(g, sq2) == Black && Get(g, sq3) == Black) ||
      (Get(g, sq2) == White && Get(g, sq0) == Black && Get(g, sq1) == Black && Get(g, sq3) == Black) ||
      (Get(g, sq3) == White && Get(g, sq0) == Black && Get(g, sq1) == Black && Get(g, sq2) == Black)
  {
    if Get(g, sq0) == White then
      Get(g, sq1) == Black && Get(g, sq2) == Black && Get(g, sq3) == Black
    else if Get(g, sq1) == White then
      Get(g, sq0) == Black && Get(g, sq2) == Black && Get(g, sq3) == Black
    else if Get(g, sq2) == White then
      Get(g, sq0) == Black && Get(g, sq1) == Black && Get(g, sq3) == Black
    else if Get(g, sq3) == White then
      Get(g, sq0) == Black && Get(g, sq2) == Black && Get(g, sq1) == Black
    else
      false
  }

  /** `hostility`: whether sq0 and sq2 are hostile to the piece on sq1. */
  function Hostility(g: Grid, sq0: Square, sq1: Square, sq2: Square): bool
  {
    var type0 := Side(Get(g, sq0));
    var type1 := Side(Get(g, sq1));
    var type2 := Side(Get(g, sq2));
    if sq0 == THRONE && type0 == Empty then type1 != type2
    else if sq2 == THRONE && type2 == Empty then type1 != type0
    else if sq2 == THRONE && type2 == White then
      if type1 == White then AnyThree(g, NTHRONE, ETHRONE, STHRONE, WTHRONE)
      else if type1 == Black then type0 == type2
      else true
    else
      type0 == type2 && type0 != Empty && type1 != type2
  }

  /** An empty throne at either end is hostile exactly to a middle piece of a
      different side than the other end. A throne at the far end holding a
      piece of WHITE's side is hostile to a WHITE middle piece only when one
      throne neighbour is WHITE and the other three BLACK, to a BLACK one
      exactly when the near end is of WHITE's side, and always to an empty
      middle. Everywhere else both ends must belong to one side and the
      middle to another. */
  lemma HostilityCases(g: Grid, sq0: Square, sq1: Square, sq2: Square)
    ensures sq0 == THRONE && Get(g, THRONE) == Empty ==>
              (Hostility(g, sq0, sq1, sq2) <==> Side(Get(g, sq1)) != Side(Get(g, sq2)))
    ensures sq2 == THRONE && Get(g, THRONE) == Empty ==>
              (Hostility(g, sq0, sq1, sq2) <==> Side(Get(g, sq1)) != Side(Get(g, sq0)))
    ensures sq2 == THRONE && Side(Get(g, THRONE)) == White ==>
              (Hostility(g, sq0, sq1, sq2) <==>
                 if Side(Get(g, sq1)) == White then AnyThree(g, NTHRONE, ETHRONE, STHRONE, WTHRONE)
                 else if Side(Get(g, sq1)) == Black then Side(Get(g, sq0)) == White
                 else true)
    ensures (sq0 != THRONE || Get(g, THRONE) != Empty) &&
            (sq2 != THRONE || Get(g, THRONE) == Black) ==>
              (Hostility(g, sq0, sq1, sq2) <==>
                 Side(Get(g, sq0)) == Side(Get(g, sq2)) != Empty &&
                 Side(Get(g, sq1)) != Side(Get(g, sq0)))
  {
  }

  /** Hostility does not depend on which end is which unless an end is the
      throne holding a piece of White's side (the king there). */
  lemma HostilitySymmetric(g: Grid, sq0: Square, sq1: Square, sq2: Square)
    requires !(sq0 == THRONE && Side(Get(g, THRONE)) == White)
    requires !(sq2 == THRONE && Side(Get(g, THRONE)) == White)
    ensures Hostility(g, sq0, sq1, sq2) == Hostility(g, sq2, sq1, sq0)
  {
  }

  /** The grid and winner that captures act on. */
  datatype Captured = Captured(grid: Grid, winner: Option<Piece>)

  /** `capture(sq0, sq2)`: remove the piece between sq0 and sq2 when they are
      hostile to it; a king on or next to the throne needs the two squares
      across it to be hostile too. Removing the king makes BLACK the winner. */
  function Capture(g: Grid, w: Option<Piece>, sq0: Square, sq2: Square): (r: Captured)
    ensures !TwoApart(sq0, sq2) ==> r == Captured(g, w)
    ensures TwoApart(sq0, sq2) ==>
              (forall s {:trigger Get(r.grid, s)} :: s != Between(sq0, sq2) ==> Get(r.grid, s) == Get(g, s)) &&
              (Get(r.grid, Between(sq0, sq2)) == Get(g, Between(sq0, sq2)) ||
               Get(r.grid, Between(sq0, sq2)) == Empty)
    ensures r.winner != w ==> r.winner == Some(Black)
    ensures (TwoApart(sq0, sq2) && Get(g, Between(sq0, sq2)) == King &&
             Get(r.grid, Between(sq0, sq2)) == Empty) ==> r.winner == Some(Black)
  {
    if !CanCapture(sq0, sq2) then Captured(g, w)
    else
      var sq1 := Between(sq0, sq2);
      var type1 := Get(g, sq1);
      if NearThrone(sq1) && type1 == King then
        var sq3 := Diag1(sq0, sq1);
        var sq4 := Diag2(sq0, sq1);
        if Hostility(g, sq0, sq1, sq2) && Hostility(g, sq3, sq1, sq4) then
          Captured(Put(g, sq1, Empty), Some(Black))
        else
          Captured(g, w)
      else if Hostility(g, sq0, sq1, sq2) then
        Captured(Put(g, sq1, Empty), if type1 == King then Some(Black) else w)
      else
        Captured(g, w)
  }

  /** A capture changes the winner only by removing the king between the
      two squares. */
  lemma CaptureWinner(g: Grid, w: Option<Piece>, sq0: Square, sq2: Square)
    ensures var r := Capture(g, w, sq0, sq2);
      r.winner != w ==>
        TwoApart(sq0, sq2) && Get(g, Between(sq0, sq2)) == King && Get(r.grid, Between(sq0, sq2)) == Empty
  {
  }

  /** The removal rule of `capture`: a piece between two squares two apart is
      removed exactly when the two ends are hostile to it, and, for a king on
      or next to the throne, the two squares across it are hostile too. */
  lemma CaptureIff(g: Grid, w: Option<Piece>, sq0: Square, sq2: Square)
    requires TwoApart(sq0, sq2) && Get(g, Between(sq0, sq2)) != Empty
    ensures var sq1 := Between(sq0, sq2);
      Get(Capture(g, w, sq0, sq2).grid, sq1) == Empty <==>
        && Hostility(g, sq0, sq1, sq2)
        && (NearThrone(sq1) && Get(g, sq1) == King ==>
              Hostility(g, Diag1(sq0, sq1), sq1, Diag2(sq0, sq1)))
  {
  }

  /** The ordinary sandwich: away from the throne, a piece between two pieces
      of the other side is removed, and removing the king makes BLACK the
      winner. */
  lemma CaptureSandwich(g: Grid, w: Option<Piece>, sq0: Square, sq2: Square)
    requires TwoApart(sq0, sq2) && sq0 != THRONE && sq2 != THRONE
    requires Side(Get(g, sq0)) == Side(Get(g, sq2)) != Empty
    requires Get(g, Between(sq0, sq2)) != Empty && Side(Get(g, Between(sq0, sq2))) != Side(Get(g, sq0))
    requires !NearThrone(Between(sq0, sq2)) || Get(g, Between(sq0, sq2)) != King
    ensures Capture(g, w, sq0, sq2).grid == Put(g, Between(sq0, sq2), Empty)
    ensures Get(g, Between(sq0, sq2)) == King ==> Capture(g, w, sq0, sq2).winner == Some(Black)
  {
    HostilityCases(g, sq0, Between(sq0, sq2), sq2);
  }

  /** A king on the throne is removed only when all four throne neighbours
      hold BLACK; three attackers are not enough. */
  lemma KingOnThroneCapture(g: Grid, w: Option<Piece>, sq0: Square, sq2: Square)
    requires Get(g, THRONE) == King && TwoApart(sq0, sq2) && Between(sq0, sq2) == THRONE
    ensures Get(Capture(g, w, sq0, sq2).grid, THRONE) == Empty <==>
              Get(g, NTHRONE) == Black && Get(g, ETHRONE) == Black &&
              Get(g, STHRONE) == Black && Get(g, WTHRONE) == Black
  {
    assert sq0 in {NTHRONE, ETHRONE, STHRONE, WTHRONE};
  }

  /** A king north of an empty throne is removed exactly when BLACK holds the
      squares west and east of it and the square north of it holds no piece
      of WHITE's side: the empty throne is hostile to the king, and so is an
      EMPTY square opposite it, so two attackers suffice when that square is
      empty. (The other three squares next to the throne are symmetric.) */
  lemma KingBesideThroneCapture(g: Grid, w: Option<Piece>, sq0: Square, sq2: Square)
    requires Get(g, NTHRONE) == King && Get(g, THRONE) == Empty
    requires TwoApart(sq0, sq2) && Between(sq0, sq2) == NTHRONE
    ensures Get(Capture(g, w, sq0, sq2).grid, NTHRONE) == Empty <==>
              Get(g, Sq(3, 5)) == Black && Get(g, Sq(5, 5)) == Black && Side(Get(g, Sq(4, 6))) != White
  {
    assert sq0 in {Sq(4, 6), THRONE, Sq(3, 5), Sq(5, 5)};
  }

  /** A WHITE piece north of a throne holding the king, with BLACK on the
      other three throne neighbours, is removed when WHITE itself moves to
      the square north of it, because `makeMove` always tries the capture
      against the throne. */
  lemma DefenderCapturedByOwnMove(g: Grid, w: Option<Piece>)
    requires Get(g, THRONE) == King && Get(g, NTHRONE) == White
    requires Get(g, ETHRONE) == Black && Get(g, STHRONE) == Black && Get(g, WTHRONE) == Black
    requires Get(g, Sq(4, 6)) == White
    ensures Capture(g, w, Sq(4, 6), THRONE) == Captured(Put(g, NTHRONE, Empty), w)
  {
  }

  /** The capture loop of `makeMove`: capture(to, s) for every s of loc,
      taking the squares in the given order. */
  function CaptureAll(c: Captured, to: Square, loc: set<Square>, order: seq<Square>): Captured
    // `to` leads the measure (it never changes), so that a call on a literal
    // order is unfolded only as far as a proof asks, not to the end
    decreases to, |order|
  {
    if order == [] then c
    else
      var s := order[0];
      CaptureAll(if s in loc then Capture(c.grid, c.winner, to, s) else c, to, loc, order[1..])
  }

  /** The capture loop over rows of squares, one row after another. */
  function CaptureRows(c: Captured, to: Square, loc: set<Square>, rows: seq<seq<Square>>): Captured
    decreases to, |rows|
  {
    if rows == [] then c
    else CaptureRows(CaptureAll(c, to, loc, rows[0]), to, loc, rows[1..])
  }

  /** One row of the capture loop over Rows(). */
  lemma CaptureRowsStep(c: Captured, to: Square, loc: set<Square>, r: Coord)
    ensures CaptureRows(c, to, loc, Rows()[r..]) ==
            CaptureRows(CaptureAll(c, to, loc, Rows()[r]), to, loc, Rows()[r + 1..])
  {
    DropStep(Rows(), r);
  }

  /** One square of the capture loop over Rows(). */
  lemma CaptureAllStep(c: Captured, to: Square, loc: set<Square>, s: Square)
    ensures CaptureAll(c, to, loc, Rows()[s.row][s.col..]) ==
            CaptureAll(if s in loc then Capture(c.grid, c.winner, to, s) else c, to, loc,
                       Rows()[s.row][s.col + 1..])
  {
    DropStep(Rows()[s.row], s.col);
  }

  /** What the captures from c to r may do after a move to `to`: empty
      squares next to `to` only, and change the winner only to BLACK and only
      by removing a king, which always makes BLACK the winner. */
  ghost predicate CaptureEffects(c: Captured, r: Captured, to: Square)
  {
    && (forall s {:trigger Get(r.grid, s)} :: !Adjacent(s, to) ==> Get(r.grid, s) == Get(c.grid, s))
    && (forall s {:trigger Get(r.grid, s)} :: Get(r.grid, s) == Get(c.grid, s) || Get(r.grid, s) == Empty)
    && (r.winner != c.winner ==> r.winner == Some(Black))
    && (r.winner != c.winner ==> exists s :: Get(c.grid, s) == King && Get(r.grid, s) == Empty)
    && ((exists s :: Get(c.grid, s) == King && Get(r.grid, s) == Empty) ==> r.winner == Some(Black))
  }

  lemma CaptureEffectsTrans(a: Captured, b: Captured, c: Captured, to: Square)
    requires CaptureEffects(a, b, to) && CaptureEffects(b, c, to)
    ensures CaptureEffects(a, c, to)
  {
    if exists s :: Get(a.grid, s) == King && Get(c.grid, s) == Empty {
      var s :| Get(a.grid, s) == King && Get(c.grid, s) == Empty;
      assert Get(b.grid, s) == King || Get(b.grid, s) == Empty;
    }
  }

  /** A single capture(to, s) has those effects. */
  lemma CaptureStepEffects(c: Captured, to: Square, s: Square)
    ensures CaptureEffects(c, Capture(c.grid, c.winner, to, s), to)
  {
    CaptureWinner(c.grid, c.winner, to, s);
  }

  lemma {:induction false} CaptureAllEffects(c: Captured, to: Square, loc: set<Square>, order: seq<Square>)
    ensures CaptureEffects(c, CaptureAll(c, to, loc, order), to)
    decreases |order|
  {
    if order != [] {
      var c1 := if order[0] in loc then Capture(c.grid, c.winner, to, order[0]) else c;
      CaptureStepEffects(c, to, order[0]);
      CaptureAllEffects(c1, to, loc, order[1..]);
      CaptureEffectsTrans(c, c1, CaptureAll(c1, to, loc, order[1..]), to);
    }
  }

  lemma {:induction false} CaptureRowsEffects(c: Captured, to: Square, loc: set<Square>,
                                              rows: seq<seq<Square>>)
    ensures CaptureEffects(c, CaptureRows(c, to, loc, rows), to)
    decreases |rows|
  {
    if rows != [] {
      var c1 := CaptureAll(c, to, loc, rows[0]);
      CaptureAllEffects(c, to, loc, rows[0]);
      CaptureRowsEffects(c1, to, loc, rows[1..]);
      CaptureEffectsTrans(c, c1, CaptureRows(c1, to, loc, rows[1..]), to);
    }
  }

  /** The square beyond m seen from `to`, when it is on the board: the far
      end of the one capture that can remove the piece on m after a move to
      `to`. */
  function Beyond(to: Square, m: Square): (r: Option<Square>)
    requires Adjacent(to, m)
    ensures r.Some? ==> TwoApart(to, r.value) && Between(to, r.value) == m
  {
    var col := 2 * m.col - to.col;
    var row := 2 * m.row - to.row;
    if 0 <= col < 9 && 0 <= row < 9 then Some(Sq(col, row)) else None
  }

  lemma BeyondBetween(to: Square, s: Square)
    requires TwoApart(to, s)
    ensures Beyond(to, Between(to, s)) == Some(s)
  {
  }

  /** The condition under which capture(to, s) removes the piece between. */
  predicate Removes(g: Grid, to: Square, s: Square)
    requires TwoApart(to, s)
  {
    var m := Between(to, s);
    && Hostility(g, to, m, s)
    && (NearThrone(m) && Get(g, m) == King ==> Hostility(g, Diag1(to, m), m, Diag2(to, m)))
  }

  /** Whether capture(to, s) removes its piece does not depend on the other
      squares next to `to`. It reads `to`, s, the piece between and the two
      squares across that piece, none of which is another neighbour of `to`;
      and it reads the throne's neighbours only when s is the throne, where
      the one of them next to `to` is the piece between, or when the king is
      the piece between, next to the throne, which makes `anyThree` false
      whatever the other three hold. */
  lemma RemovesStable(g: Grid, h: Grid, to: Square, s: Square)
    requires TwoApart(to, s)
    requires forall x {:trigger Get(h, x)} :: Get(h, x) == Get(g, x) || (Adjacent(to, x) && x != Between(to, s))
    ensures Removes(h, to, s) == Removes(g, to, s)
  {
    var m := Between(to, s);
    EndsStable(g, h, to, s);
    if NearThrone(m) && Get(g, m) == King {
      AcrossStable(g, h, to, m);
    }
  }

  lemma EndsStable(g: Grid, h: Grid, to: Square, s: Square)
    requires TwoApart(to, s)
    requires forall x {:trigger Get(h, x)} :: Get(h, x) == Get(g, x) || (Adjacent(to, x) && x != Between(to, s))
    ensures Hostility(h, to, Between(to, s), s) == Hostility(g, to, Between(to, s), s)
  {
    var m := Between(to, s);
    assert Get(h, to) == Get(g, to) && Get(h, m) == Get(g, m) && Get(h, s) == Get(g, s);
    if s == THRONE {
      assert Get(h, NTHRONE) == Get(g, NTHRONE) && Get(h, ETHRONE) == Get(g, ETHRONE);
      assert Get(h, STHRONE) == Get(g, STHRONE) && Get(h, WTHRONE) == Get(g, WTHRONE);
    }
  }

  /** Across a king next to the throne, with the throne at one end, the
      `anyThree` test sees the king itself and fails. */
  lemma AcrossStable(g: Grid, h: Grid, to: Square, m: Square)
    requires Adjacent(to, m) && NearThrone(m) && Get(g, m) == King
    requires forall x {:trigger Get(h, x)} :: Get(h, x) == Get(g, x) || (Adjacent(to, x) && x != m)
    ensures Hostility(h, Diag1(to, m), m, Diag2(to, m)) == Hostility(g, Diag1(to, m), m, Diag2(to, m))
  {
    var d1, d2 := Diag1(to, m), Diag2(to, m);
    assert Get(h, d1) == Get(g, d1) && Get(h, d2) == Get(g, d2) && Get(h, m) == King;
    if d2 == THRONE {
      assert m in {NTHRONE, ETHRONE, STHRONE, WTHRONE};
      assert !AnyThree(h, NTHRONE, ETHRONE, STHRONE, WTHRONE) && !AnyThree(g, NTHRONE, ETHRONE, STHRONE, WTHRONE);
    }
  }

  /** Capture(to, s) with s beyond m, for s in loc and in done. */
  ghost predicate Fires(g: Grid, to: Square, loc: set<Square>, done: set<Square>, m: Square)
    requires Adjacent(to, m)
  {
    var b := Beyond(to, m);
    b.Some? && b.value in loc && b.value in done && Removes(g, to, b.value)
  }

  /** After the captures of a move to `to` against the squares of done, from
      grid g: only squares next to `to` have been changed, each to EMPTY, and
      such a square is empty exactly when it was empty in g or the capture
      against the square beyond it was made and removes its piece in g. */
  ghost predicate CapturedSoFar(g: Grid, to: Square, loc: set<Square>, done: set<Square>, c: Captured)
  {
    forall x {:trigger Get(c.grid, x)} ::
      && (Get(c.grid, x) == Get(g, x) || (Adjacent(to, x) && Get(c.grid, x) == Empty))
      && (Adjacent(to, x) ==> (Get(c.grid, x) == Empty <==> Get(g, x) == Empty || Fires(g, to, loc, done, x)))
  }

  /** One more capture keeps that account: capture(to, s) decides on the
      piece between as it would have on g, since the earlier captures only
      emptied other squares next to `to`. */
  lemma CaptureKeeps(g: Grid, to: Square, loc: set<Square>, done: set<Square>, c: Captured, s: Square)
    requires CapturedSoFar(g, to, loc, done, c)
    ensures CapturedSoFar(g, to, loc, done + {s}, if s in loc then Capture(c.grid, c.winner, to, s) else c)
  {
    var r := if s in loc then Capture(c.grid, c.winner, to, s) else c;
    forall x
      ensures && (Get(r.grid, x) == Get(g, x) || (Adjacent(to, x) && Get(r.grid, x) == Empty))
              && (Adjacent(to, x) ==>
                    (Get(r.grid, x) == Empty <==> Get(g, x) == Empty || Fires(g, to, loc, done + {s}, x)))
    {
      assert Get(c.grid, x) == Get(g, x) || (Adjacent(to, x) && Get(c.grid, x) == Empty);
      if s in loc && TwoApart(to, s) && x == Between(to, s) {
        BeyondBetween(to, s);
        assert Fires(g, to, loc, done + {s}, x) == Removes(g, to, s);
        if Get(c.grid, x) != Empty {
          RemovesStable(g, c.grid, to, s);
          CaptureIff(c.grid, c.winner, to, s);
        }
      } else {
        assert Get(r.grid, x) == Get(c.grid, x);
        if Adjacent(to, x) {
          FiresOther(g, to, loc, done, s, x);
        }
      }
    }
  }

  lemma FiresOther(g: Grid, to: Square, loc: set<Square>, done: set<Square>, s: Square, m: Square)
    requires Adjacent(to, m)
    requires !(s in loc && TwoApart(to, s) && m == Between(to, s))
    ensures Fires(g, to, loc, done + {s}, m) == Fires(g, to, loc, done, m)
  {
  }

  lemma {:induction false} CaptureAllSoFar(g: Grid, to: Square, loc: set<Square>, done: set<Square>,
                                           c: Captured, order: seq<Square>)
    requires CapturedSoFar(g, to, loc, done, c)
    ensures CapturedSoFar(g, to, loc, done + (set x | x in order), CaptureAll(c, to, loc, order))
    decreases |order|
  {
    if order != [] {
      var c1 := if order[0] in loc then Capture(c.grid, c.winner, to, order[0]) else c;
      CaptureKeeps(g, to, loc, done, c, order[0]);
      CaptureAllSoFar(g, to, loc, done + {order[0]}, c1, order[1..]);
      assert done + {order[0]} + (set x | x in order[1..]) == done + (set x | x in order);
    }
  }

  /** The squares of a sequence of rows. */
  ghost function RowSquares(rows: seq<seq<Square>>): set<Square>
  {
    set i, x | 0 <= i < |rows| && x in rows[i] :: x
  }

  lemma {:induction false} CaptureRowsSoFar(g: Grid, to: Square, loc: set<Square>, done: set<Square>,
                                            c: Captured, rows: seq<seq<Square>>)
    requires CapturedSoFar(g, to, loc, done, c)
    ensures CapturedSoFar(g, to, loc, done + RowSquares(rows), CaptureRows(c, to, loc, rows))
    decreases |rows|
  {
    if rows != [] {
      var c1 := CaptureAll(c, to, loc, rows[0]);
      CaptureAllSoFar(g, to, loc, done, c, rows[0]);
      CaptureRowsSoFar(g, to, loc, done + (set x | x in rows[0]), c1, rows[1..]);
      assert RowSquares(rows) == (set x | x in rows[0]) + RowSquares(rows[1..]) by {
        forall x | x in RowSquares(rows)
          ensures x in rows[0] || x in RowSquares(rows[1..])
        {
          var i :| 0 <= i < |rows| && x in rows[i];
          if i > 0 {
            assert x in rows[1..][i - 1];
          }
        }
        forall x | x in RowSquares(rows[1..])
          ensures x in RowSquares(rows)
        {
          var i :| 0 <= i < |rows[1..]| && x in rows[1..][i];
          assert x in rows[i + 1];
        }
      }
    }
  }

  /** The squares the captures of a move to `to` empty: a square next to
      `to` is empty afterwards exactly when it was empty before or the square
      beyond it holds a piece of the mover's side or is the throne, and the
      capture against that square removes the piece in the grid before any
      capture was made. So the order in which the squares are tried does not
      matter. */
  lemma MoveCapturesIff(g: Grid, w: Option<Piece>, turn: Piece, to: Square, m: Square)
    requires Adjacent(to, m)
    ensures var r := MoveCaptures(g, w, turn, to);
      var b := Beyond(to, m);
      Get(r.grid, m) == Empty <==>
        Get(g, m) == Empty ||
        (b.Some? && b.value in PieceLocations(g, turn) + {THRONE} && Removes(g, to, b.value))
  {
    var loc := PieceLocations(g, turn) + {THRONE};
    CaptureRowsSoFar(g, to, loc, {}, Captured(g, w), Rows());
    var b := Beyond(to, m);
    if b.Some? {
      InRowSquares(b.value);
    }
  }

  lemma InRowSquares(s: Square)
    ensures s in RowSquares(Rows())
  {
    assert Rows()[s.row][s.col] == s;
    assert 0 <= s.row < |Rows()| && s in Rows()[s.row];
  }

  // ---------------------------------------------------------------- queries

  /** `pieceLocations(side)`: the squares holding a piece of side's side. */
  function PieceLocations(g: Grid, side: Piece): (r: set<Square>)
    ensures forall s {:trigger s in r} :: s in r <==> Side(Get(g, s)) == Side(side)
  {
    set s | s in AllSquares() && Side(Get(g, s)) == Side(side)
  }

  /** s comes before column c, row r when the table of squares is scanned
      column by column. */
  predicate ColumnMajorBefore(s: Square, c: int, r: int)
  {
    s.col < c || (s.col == c && s.row < r)
  }

  /** k holds the KING and no square before it in column-major order does. */
  ghost predicate IsFirstKing(g: Grid, k: Square)
  {
    Get(g, k) == King && forall s :: ColumnMajorBefore(s, k.col, k.row) ==> Get(g, s) != King
  }

  /** Scanning on from column c, row r finds the first king, if there is one. */
  lemma {:induction false} FirstKingFrom(g: Grid, c: Coord, r: Coord)
    requires forall s :: ColumnMajorBefore(s, c, r) ==> Get(g, s) != King
    ensures (exists s :: Get(g, s) == King) ==> exists k :: IsFirstKing(g, k)
    decreases 9 - c, 9 - r
  {
    if Get(g, Sq(c, r)) == King {
      assert IsFirstKing(g, Sq(c, r));
    } else if r < 8 {
      FirstKingFrom(g, c, r + 1);
    } else if c < 8 {
      FirstKingFrom(g, c + 1, 0);
    } else {
      assert forall s :: ColumnMajorBefore(s, c, r) || s == Sq(c, r);
    }
  }

  /** `kingPosition`: the square of the first king met scanning the board
      column by column, or None when there is no king. */
  ghost function KingPosition(g: Grid): (k: Option<Square>)
    ensures k.Some? ==> IsFirstKing(g, k.value)
  {
    if exists s :: Get(g, s) == King then
      FirstKingFrom(g, 0, 0);
      Some(var k :| IsFirstKing(g, k); k)
    else
      None
  }

  lemma FirstKingUnique(g: Grid, k1: Square, k2: Square)
    requires IsFirstKing(g, k1) && IsFirstKing(g, k2)
    ensures k1 == k2
  {
    assert k1 != k2 ==> ColumnMajorBefore(k1, k2.col, k2.row) || ColumnMajorBefore(k2, k1.col, k1.row);
  }

  /** kingPosition is the first king in column-major order whenever there is
      a king, and None exactly when there is none. */
  lemma KingPositionSpec(g: Grid, k: Square)
    ensures KingPosition(g) == Some(k) <==> IsFirstKing(g, k)
    ensures KingPosition(g).None? <==> forall s :: Get(g, s) != King
  {
    if IsFirstKing(g, k) {
      FirstKingUnique(g, k, KingPosition(g).value);
    }
  }

  /** `encodedBoard`: the side to move, then every square in index order. */
  function Encode(g: Grid, turn: Piece): string
  {
    [PieceChar(turn)] + seq(81, i requires 0 <= i < 81 => PieceChar(Get(g, SquareAt(i))))
  }

  /** The encoding determines the grid and the side to move. */
  lemma EncodeInjective(g1: Grid, t1: Piece, g2: Grid, t2: Piece)
    requires Encode(g1, t1) == Encode(g2, t2)
    ensures g1 == g2 && t1 == t2
  {
    assert Encode(g1, t1)[0] == Encode(g2, t2)[0];
    forall s
      ensures Get(g1, s) == Get(g2, s)
    {
      SquareAtIndex(s);
      assert Encode(g1, t1)[Index(s) + 1] == Encode(g2, t2)[Index(s) + 1];
    }
    GridExt(g1, g2);
  }

  // ---------------------------------------------------------------- moves

  /** True iff the grid and side to move equal an entry of the stack. */
  predicate Repeats(history: seq<Snapshot>, g: Grid, turn: Piece)
  {
    Snapshot(g, turn) in history
  }

  /** The grid after the piece on from is put on to and from is emptied. */
  function Moved(g: Grid, from: Square, to: Square): (r: Grid)
    ensures from != to ==> Get(r, to) == Get(g, from) && Get(r, from) == Empty
    ensures from == to ==> Get(r, to) == Empty
    ensures forall s {:trigger Get(r, s)} :: s != from && s != to ==> Get(r, s) == Get(g, s)
  {
    Put(Put(g, to, Get(g, from)), from, Empty)
  }

  /** The captures a move to `to` by the side `turn` attempts: against every
      square of that side and against the throne. */
  function MoveCaptures(g: Grid, w: Option<Piece>, turn: Piece, to: Square): Captured
  {
    CaptureRows(Captured(g, w), to, PieceLocations(g, turn) + {THRONE}, Rows())
  }

  /** The state after a move that is made: captures, turn change, repetition
      check, push of the new state, and the king-on-edge win. */
  ghost function Apply(p: Position, from: Square, to: Square): Position
  {
    var c := MoveCaptures(Moved(p.grid, from, to), p.winner, p.turn, to);
    var next := Opponent(p.turn);
    var rep := Repeats(p.history, c.grid, next);
    var w := if rep then Some(next) else c.winner;
    var king := KingPosition(c.grid);
    Position(
      c.grid, next,
      if king.Some? && IsEdge(king.value) then Some(White) else w,
      p.moveCount + 1, p.moveLimit, p.repeated || rep,
      p.history + [Snapshot(c.grid, next)])
  }

  /** The captures after a move only empty squares next to to, change the
      winner only by removing a king, and make BLACK the winner whenever they
      do. */
  lemma MoveCapturesEffects(g: Grid, w: Option<Piece>, turn: Piece, to: Square)
    ensures var r := MoveCaptures(g, w, turn, to);
      && (forall s {:trigger Get(r.grid, s)} :: !Adjacent(s, to) ==> Get(r.grid, s) == Get(g, s))
      && (forall s {:trigger Get(r.grid, s)} :: Get(r.grid, s) == Get(g, s) || Get(r.grid, s) == Empty)
      && (r.winner != w ==> r.winner == Some(Black))
      && (r.winner != w ==> exists s :: Get(g, s) == King && Get(r.grid, s) == Empty)
      && ((exists s :: Get(g, s) == King && Get(r.grid, s) == Empty) ==> r.winner == Some(Black))
  {
    CaptureRowsEffects(Captured(g, w), to, PieceLocations(g, turn) + {THRONE}, Rows());
  }

  /** `makeMove(from, to)`: refused unless the piece on from plays for the side
      to move; a forfeit once a non-zero move limit is reached. */
  ghost function MakeMove(p: Position, from: Square, to: Square): Position
  {
    if !IsLegalFrom(p.grid, p.turn, from) then p
    else if p.moveCount >= 2 * p.moveLimit && p.moveLimit != 0 then
      p.(winner := Some(Opponent(p.turn)))
    else
      Apply(p, from, to)
  }

  /** True iff makeMove moves a piece rather than refusing or forfeiting. */
  predicate Applies(p: Position, from: Square)
  {
    IsLegalFrom(p.grid, p.turn, from) && !(p.moveCount >= 2 * p.moveLimit && p.moveLimit != 0)
  }

  /** The bookkeeping of a move that is made. */
  lemma ApplyState(p: Position, from: Square, to: Square)
    ensures var r := Apply(p, from, to);
      && r.turn == Opponent(p.turn)
      && r.moveCount == p.moveCount + 1
      && r.moveLimit == p.moveLimit
      && r.history == p.history + [Snapshot(r.grid, r.turn)]
      && r.repeated == (p.repeated || Repeats(p.history, r.grid, r.turn))
      && r.winner == (if KingPosition(r.grid).Some? && IsEdge(KingPosition(r.grid).value) then Some(White)
                      else if Repeats(p.history, r.grid, r.turn) then Some(r.turn)
                      else MoveCaptures(Moved(p.grid, from, to), p.winner, p.turn, to).winner)
  {
  }

  /** The grid of a move that is made: the piece lands on to, from is
      emptied, and the captures only empty squares next to to. */
  lemma ApplyGrid(p: Position, from: Square, to: Square)
    ensures var r := Apply(p, from, to);
      && (from != to ==> Get(r.grid, to) == Get(p.grid, from) && Get(r.grid, from) == Empty)
      && (from == to ==> Get(r.grid, to) == Empty)
      && (forall s {:trigger Get(r.grid, s)} :: s != from && s != to && !Adjacent(s, to) ==> Get(r.grid, s) == Get(p.grid, s))
      && (forall s {:trigger Get(r.grid, s)} :: s != from && s != to ==> Get(r.grid, s) == Get(p.grid, s) || Get(r.grid, s) == Empty)
  {
    var moved := Moved(p.grid, from, to);
    var c := MoveCaptures(moved, p.winner, p.turn, to);
    MoveCapturesEffects(moved, p.winner, p.turn, to);
    assert Apply(p, from, to).grid == c.grid;
    assert !Adjacent(to, to);
  }

  /** A king removed by a move that does not land on it makes BLACK the
      winner, unless the move repeats a state. */
  lemma ApplyKingCaptured(p: Position, from: Square, to: Square)
    requires Get(p.grid, from) != King && Get(p.grid, to) != King && KingPosition(p.grid).Some?
    requires KingPosition(Apply(p, from, to).grid).None?
    requires !Repeats(p.history, Apply(p, from, to).grid, Opponent(p.turn))
    ensures Apply(p, from, to).winner == Some(Black)
  {
    var moved := Moved(p.grid, from, to);
    var c := MoveCaptures(moved, p.winner, p.turn, to);
    MoveCapturesEffects(moved, p.winner, p.turn, to);
    assert Apply(p, from, to).grid == c.grid;
    var k := KingPosition(p.grid).value;
    KingPositionSpec(c.grid, k);
    assert Get(moved, k) == King && Get(c.grid, k) == Empty;
  }

  /** What makeMove does: nothing for a piece of the wrong side; only a
      forfeit to the opponent once a non-zero limit is reached; otherwise the
      piece moves (a "move" onto its own square removes it), only squares next to its destination may be emptied, the
      move count grows by one, the turn passes and one state is pushed; a
      repetition gives the win to the new side to move, a king on the edge to
      WHITE, and a captured king (barring a repetition) to BLACK. */
  lemma MakeMoveEffects(p: Position, from: Square, to: Square)
    ensures !IsLegalFrom(p.grid, p.turn, from) ==> MakeMove(p, from, to) == p
    ensures IsLegalFrom(p.grid, p.turn, from) && !Applies(p, from) ==>
              MakeMove(p, from, to) == p.(winner := Some(Opponent(p.turn)))
    ensures Applies(p, from) ==>
      var r := MakeMove(p, from, to);
      && (from != to ==> Get(r.grid, to) == Get(p.grid, from) && Get(r.grid, from) == Empty)
      && (from == to ==> Get(r.grid, to) == Empty)
      && (forall s {:trigger Get(r.grid, s)} :: s != from && s != to && !Adjacent(s, to) ==> Get(r.grid, s) == Get(p.grid, s))
      && (forall s {:trigger Get(r.grid, s)} :: s != from && s != to ==> Get(r.grid, s) == Get(p.grid, s) || Get(r.grid, s) == Empty)
      && (forall m {:trigger Get(r.grid, m)} :: Adjacent(to, m) ==>
            var moved := Moved(p.grid, from, to);
            var b := Beyond(to, m);
            (Get(r.grid, m) == Empty <==>
               Get(moved, m) == Empty ||
               (b.Some? && b.value in PieceLocations(moved, p.turn) + {THRONE} && Removes(moved, to, b.value))))
      && r.turn == Opponent(p.turn)
      && r.moveCount == p.moveCount + 1
      && r.moveLimit == p.moveLimit
      && r.history == p.history + [Snapshot(r.grid, r.turn)]
      && r.repeated == (p.repeated || Repeats(p.history, r.grid, r.turn))
      && (KingPosition(r.grid).Some? && IsEdge(KingPosition(r.grid).value) ==> r.winner == Some(White))
      && ((!(KingPosition(r.grid).Some? && IsEdge(KingPosition(r.grid).value)) &&
           Repeats(p.history, r.grid, r.turn)) ==> r.winner == Some(r.turn))
      && ((!(KingPosition(r.grid).Some? && IsEdge(KingPosition(r.grid).value)) &&
           !Repeats(p.history, r.grid, r.turn) && r.winner != p.winner) ==>
            r.winner == Some(Black) &&
            exists s :: Get(Moved(p.grid, from, to), s) == King && Get(r.grid, s) == Empty)
      && ((Get(p.grid, from) != King && Get(p.grid, to) != King &&
           KingPosition(p.grid).Some? && KingPosition(r.grid).None? &&
           !Repeats(p.history, r.grid, r.turn)) ==> r.winner == Some(Black))
  {
    if Applies(p, from) {
      ApplyState(p, from, to);
      ApplyGrid(p, from, to);
      MoveCapturesEffects(Moved(p.grid, from, to), p.winner, p.turn, to);
      forall m | Adjacent(to, m) {
        MoveCapturesIff(Moved(p.grid, from, to), p.winner, p.turn, to, m);
      }
      var r := Apply(p, from, to);
      if Get(p.grid, from) != King && Get(p.grid, to) != King &&
         KingPosition(p.grid).Some? && KingPosition(r.grid).None? &&
         !Repeats(p.history, r.grid, r.turn) {
        ApplyKingCaptured(p, from, to);
      }
    }
  }

  /** The ordinary sandwich made by a move: after a move to `to`, a piece of
      the other side between `to` and a piece of the mover's side is removed,
      when neither end is the throne and the piece is not the king on or next
      to the throne. */
  lemma MoveSandwich(p: Position, from: Square, to: Square, s: Square)
    requires Applies(p, from) && from != to && to != THRONE
    requires TwoApart(to, s) && s != THRONE && s != from && Between(to, s) != from
    requires Get(p.grid, s) != Empty && Side(Get(p.grid, s)) == p.turn
    requires Get(p.grid, Between(to, s)) != Empty && Side(Get(p.grid, Between(to, s))) != p.turn
    requires !NearThrone(Between(to, s)) || Get(p.grid, Between(to, s)) != King
    ensures Get(MakeMove(p, from, to).grid, Between(to, s)) == Empty
  {
    var m := Between(to, s);
    var moved := Moved(p.grid, from, to);
    assert Get(moved, to) == Get(p.grid, from) && Get(moved, s) == Get(p.grid, s) && Get(moved, m) == Get(p.grid, m);
    HostilityCases(moved, to, m, s);
    BeyondBetween(to, s);
    MakeMoveEffects(p, from, to);
  }

  /** `undoPosition`: unless the position is a repetition, pop the stack and
      restore the grid of the new top; None where the source peeks an empty
      stack (EmptyStackException). */
  function UndoPosition(p: Position): Option<Position>
  {
    if p.repeated then Some(p.(repeated := false))
    else if |p.history| == 0 then Some(p)
    else if |p.history| == 1 then None
    else
      var h := p.history[..|p.history| - 1];
      Some(p.(grid := h[|h| - 1].grid, history := h))
  }

  /** `undo`. */
  function Undo(p: Position): (r: Option<Position>)
    ensures p.moveCount == 0 ==> r == Some(p)
    ensures r.None? <==> p.moveCount > 0 && !p.repeated && |p.history| == 1
    ensures r.Some? && p.moveCount > 0 ==>
              && r.value.turn == Opponent(p.turn)
              && !r.value.repeated
              && r.value.moveCount == p.moveCount
              && r.value.moveLimit == p.moveLimit
              && r.value.winner == p.winner
              && (p.repeated ==> r.value.grid == p.grid && r.value.history == p.history)
              && (!p.repeated && |p.history| >= 2 ==>
                    r.value.history == p.history[..|p.history| - 1] &&
                    r.value.grid == p.history[|p.history| - 2].grid)
  {
    if p.moveCount > 0 then
      match UndoPosition(p)
      case None => None
      case Some(q) => Some(q.(turn := Opponent(q.turn)))
    else
      Some(p)
  }

  /** Undo takes back any step that flipped the turn, counted one move and
      pushed its new state on a stack whose top was the old state. */
  lemma UndoAfterPush(p: Position, r: Position)
    requires p.turn == Black || p.turn == White
    requires |p.history| >= 1 && p.history[|p.history| - 1] == Snapshot(p.grid, p.turn)
    requires !p.repeated && !r.repeated
    requires r.turn == Opponent(p.turn) && r.moveCount == p.moveCount + 1 && r.moveLimit == p.moveLimit
    requires r.history == p.history + [Snapshot(r.grid, r.turn)]
    ensures Undo(r) == Some(p.(moveCount := p.moveCount + 1, winner := r.winner))
  {
    assert r.history[..|r.history| - 1] == p.history;
  }

  /** A move made on a position whose stack top is its own state, when it is
      not a repetition, is taken back exactly by undo: grid, side to move and
      stack are restored; the move count stays advanced and the winner
      stays as the move left it. */
  lemma MakeMoveThenUndo(p: Position, from: Square, to: Square)
    requires p.turn == Black || p.turn == White
    requires |p.history| >= 1 && p.history[|p.history| - 1] == Snapshot(p.grid, p.turn)
    requires !p.repeated && Applies(p, from)
    requires !Repeats(p.history, MakeMove(p, from, to).grid, Opponent(p.turn))
    ensures Undo(MakeMove(p, from, to)) ==
              Some(p.(moveCount := p.moveCount + 1, winner := MakeMove(p, from, to).winner))
  {
    var r := Apply(p, from, to);
    assert MakeMove(p, from, to) == r;
    ApplyState(p, from, to);
    UndoAfterPush(p, r);
  }

  /** When the move repeats an earlier state, undo flips the turn back but
      keeps the moved grid and the pushed state. */
  lemma RepetitionUndoKeepsGrid(p: Position, from: Square, to: Square)
    requires p.turn == Black || p.turn == White
    requires Applies(p, from)
    requires Repeats(p.history, MakeMove(p, from, to).grid, Opponent(p.turn))
    ensures var r := MakeMove(p, from, to);
      Undo(r) == Some(r.(repeated := false, turn := p.turn))
  {
    ApplyState(p, from, to);
  }

  /** `copy`: the grid, side to move and stack, with a fresh count, no
      winner, no repetition and no move limit. */
  function Copy(p: Position): Position
  {
    Position(p.grid, p.turn, None, 0, 0, false, p.history)
  }

  /** `clearUndo`: keep only the current state on the stack; count one move. */
  function ClearUndo(p: Position): Position
  {
    p.(history := [Snapshot(p.grid, p.turn)], moveCount := 1)
  }

  /** After clearUndo, undo peeks an empty stack unless the position is a
      repetition. */
  lemma ClearUndoThenUndo(p: Position)
    ensures Undo(ClearUndo(p)).None? <==> !p.repeated
  {
  }

  // ---------------------------------------------------------------- move lists

  /** The legal moves along the ray of `from` in direction dir, from
      distance dist outwards, up to the edge of the board. */
  ghost function Ray(g: Grid, turn: Piece, from: Square, dir: int, dist: int): seq<Move>
    requires 0 <= dir < 4 && 1 <= dist <= 9
    // g leads the measure for the same reason as in CaptureAll
    decreases g, 9 - dist
  {
    match RookMove(from, dir, dist)
    case None => []
    case Some(t) =>
      (if IsLegal(g, turn, from, t) then [Move(from, t)] else []) + Ray(g, turn, from, dir, dist + 1)
  }

  /** The legal moves from `from`, walking the rays of ROOK_MOVES in direction
      order from dir on, each by increasing distance. */
  ghost function MovesFrom(g: Grid, turn: Piece, from: Square, dir: int): seq<Move>
    requires 0 <= dir <= 4
    decreases g, 4 - dir
  {
    if dir == 4 then [] else Ray(g, turn, from, dir, 1) + MovesFrom(g, turn, from, dir + 1)
  }

  /** One step along a ray that reaches t. */
  lemma RayStep(g: Grid, turn: Piece, from: Square, dir: int, dist: int, t: Square,
                legal: bool, done: seq<Move>, next: seq<Move>, whole: seq<Move>)
    requires 0 <= dir < 4 && 1 <= dist <= 9 && RookMove(from, dir, dist) == Some(t)
    requires done + Ray(g, turn, from, dir, dist) == whole
    requires legal == IsLegal(g, turn, from, t)
    requires next == if legal then done + [Move(from, t)] else done
    ensures dist <= 8
    ensures next + Ray(g, turn, from, dir, dist + 1) == whole
  {
    var step := if IsLegal(g, turn, from, t) then [Move(from, t)] else [];
    var tail := Ray(g, turn, from, dir, dist + 1);
    assert Ray(g, turn, from, dir, dist) == step + tail;
    AppendAssoc(done, step, tail);
  }

  /** One direction of the walk from a square. */
  lemma MovesFromStep(g: Grid, turn: Piece, from: Square, dir: int, ray: seq<Move>,
                      done: seq<Move>, whole: seq<Move>)
    requires 0 <= dir < 4 && ray == Ray(g, turn, from, dir, 1)
    requires done + MovesFrom(g, turn, from, dir) == whole
    ensures (done + ray) + MovesFrom(g, turn, from, dir + 1) == whole
  {
    AppendAssoc(done, ray, MovesFrom(g, turn, from, dir + 1));
  }

  lemma AppendAssoc<T>(a: seq<T>, b: seq<T>, c: seq<T>)
    ensures a + (b + c) == (a + b) + c
  {
  }

  /** `legalMoves(side)` over the squares of order, taken in that order. */
  ghost function LegalMovesIn(g: Grid, turn: Piece, side: Piece, order: seq<Square>): seq<Move>
  {
    if order == [] then []
    else
      (if Side(Get(g, order[0])) == Side(side) then MovesFrom(g, turn, order[0], 0) else []) +
      LegalMovesIn(g, turn, side, order[1..])
  }

  /** `legalMoves(side)` over rows of squares, one row after another. */
  ghost function LegalMovesRows(g: Grid, turn: Piece, side: Piece, rows: seq<seq<Square>>): seq<Move>
  {
    if rows == [] then []
    else LegalMovesIn(g, turn, side, rows[0]) + LegalMovesRows(g, turn, side, rows[1..])
  }

  /** `legalMoves(side)`, with the squares of the side taken in index order. */
  ghost function LegalMoves(g: Grid, turn: Piece, side: Piece): seq<Move>
  {
    LegalMovesRows(g, turn, side, Rows())
  }

  /** One row of `legalMoves(side)` over Rows(). */
  lemma LegalMovesRowsStep(g: Grid, turn: Piece, side: Piece, r: Coord, done: seq<Move>,
                           ms: seq<Move>, whole: seq<Move>)
    requires done + LegalMovesRows(g, turn, side, Rows()[r..]) == whole
    requires ms == LegalMovesIn(g, turn, side, Rows()[r])
    ensures (done + ms) + LegalMovesRows(g, turn, side, Rows()[r + 1..]) == whole
  {
    DropStep(Rows(), r);
    AppendAssoc(done, ms, LegalMovesRows(g, turn, side, Rows()[r + 1..]));
  }


  /** One square of `legalMoves(side)` over Rows(). */
  lemma LegalMovesInStep(g: Grid, turn: Piece, side: Piece, s: Square, done: seq<Move>, whole: seq<Move>)
    requires done + LegalMovesIn(g, turn, side, Rows()[s.row][s.col..]) == whole
    ensures (if Side(Get(g, s)) == Side(side) then done + MovesFrom(g, turn, s, 0) else done) +
            LegalMovesIn(g, turn, side, Rows()[s.row][s.col + 1..]) == whole
  {
    DropStep(Rows()[s.row], s.col);
    var rest := LegalMovesIn(g, turn, side, Rows()[s.row][s.col + 1..]);
    if Side(Get(g, s)) == Side(side) {
      AppendAssoc(done, MovesFrom(g, turn, s, 0), rest);
    } else {
      assert [] + rest == rest;
    }
  }


  /** t is reached by a rook move from `from` in direction dir at distance
      dist or more. */
  predicate OnRay(from: Square, t: Square, dir: int, dist: int)
  {
    IsRookMove(from, t) && DirOf(from, t) == dir && DistOf(from, t) >= dist
  }

  /** Where a ray leaves the board, nothing further along it is on the board. */
  lemma OnRayOffBoard(from: Square, dir: int, dist: int, t: Square)
    requires 0 <= dir < 4 && dist >= 1 && RookMove(from, dir, dist).None?
    ensures !OnRay(from, t, dir, dist)
  {
    if OnRay(from, t, dir, dist) {
      RookMoveReaches(from, dir, DistOf(from, t), t);
      RookMoveOffStaysOff(from, dir, dist, DistOf(from, t));
    }
  }

  /** Where a ray reaches t0, the squares from there on are t0 and those
      one step further. */
  lemma OnRayOnBoard(from: Square, dir: int, dist: int, t0: Square, t: Square)
    requires 0 <= dir < 4 && dist >= 1 && RookMove(from, dir, dist) == Some(t0)
    ensures OnRay(from, t, dir, dist) <==> t == t0 || OnRay(from, t, dir, dist + 1)
  {
    RookMoveReaches(from, dir, dist, t0);
    if IsRookMove(from, t) && DirOf(from, t) == dir && DistOf(from, t) == dist {
      RookMoveReaches(from, dir, dist, t);
    }
  }

  /** A ray lists exactly the legal moves along it from dist on. */
  lemma {:induction false} RaySpec(g: Grid, turn: Piece, from: Square, dir: int, dist: int, m: Move)
    requires 0 <= dir < 4 && 1 <= dist <= 9
    ensures m in Ray(g, turn, from, dir, dist) <==>
              m.from == from && IsLegal(g, turn, from, m.to) && OnRay(from, m.to, dir, dist)
    decreases 9 - dist
  {
    match RookMove(from, dir, dist)
    case None =>
      OnRayOffBoard(from, dir, dist, m.to);
    case Some(t) =>
      RaySpec(g, turn, from, dir, dist + 1, m);
      OnRayOnBoard(from, dir, dist, t, m.to);
  }

  /** The walk from direction dir on lists exactly the legal moves from
      `from` whose direction is dir or later. */
  lemma {:induction false} MovesFromSpec(g: Grid, turn: Piece, from: Square, dir: int, m: Move)
    requires 0 <= dir <= 4
    ensures m in MovesFrom(g, turn, from, dir) <==>
              m.from == from && IsLegal(g, turn, from, m.to) && DirOf(from, m.to) >= dir
    decreases 4 - dir
  {
    if dir < 4 {
      RaySpec(g, turn, from, dir, 1, m);
      MovesFromSpec(g, turn, from, dir + 1, m);
    }
  }

  lemma {:induction false} LegalMovesInSpec(g: Grid, turn: Piece, side: Piece, order: seq<Square>, m: Move)
    ensures m in LegalMovesIn(g, turn, side, order) <==>
              m.from in order && Side(Get(g, m.from)) == Side(side) && IsLegal(g, turn, m.from, m.to)
    decreases |order|
  {
    if order != [] {
      var here := if Side(Get(g, order[0])) == Side(side) then MovesFrom(g, turn, order[0], 0) else [];
      LegalMovesInSpec(g, turn, side, order[1..], m);
      MovesFromSpec(g, turn, order[0], 0, m);
      assert m in here <==>
               m.from == order[0] && Side(Get(g, m.from)) == Side(side) && IsLegal(g, turn, m.from, m.to);
      assert m.from in order <==> m.from == order[0] || m.from in order[1..];
    }
  }

  lemma {:induction false} LegalMovesRowsSpec(g: Grid, turn: Piece, side: Piece,
                                              rows: seq<seq<Square>>, m: Move)
    ensures m in LegalMovesRows(g, turn, side, rows) <==>
              (exists i :: 0 <= i < |rows| && m.from in rows[i]) &&
              Side(Get(g, m.from)) == Side(side) && IsLegal(g, turn, m.from, m.to)
    decreases |rows|
  {
    if rows != [] {
      LegalMovesInSpec(g, turn, side, rows[0], m);
      LegalMovesRowsSpec(g, turn, side, rows[1..], m);
      if exists i :: 0 <= i < |rows| && m.from in rows[i] {
        var i :| 0 <= i < |rows| && m.from in rows[i];
        if i > 0 {
          assert rows[1..][i - 1] == rows[i];
        }
      }
      if exists i :: 0 <= i < |rows[1..]| && m.from in rows[1..][i] {
        var i :| 0 <= i < |rows[1..]| && m.from in rows[1..][i];
        assert rows[i + 1] == rows[1..][i];
      }
    }
  }

  /** legalMoves(side) lists exactly the legal moves of side's pieces; as
      legality asks for the side to move, it is empty for the other side. */
  lemma LegalMovesSpec(g: Grid, turn: Piece, side: Piece, m: Move)
    ensures m in LegalMoves(g, turn, side) <==>
              Side(Get(g, m.from)) == Side(side) && IsLegal(g, turn, m.from, m.to)
    ensures Side(side) != turn ==> LegalMoves(g, turn, side) == []
  {
    LegalMovesRowsSpec(g, turn, side, Rows(), m);
    assert Rows()[m.from.row][m.from.col] == m.from;
    if Side(side) != turn && LegalMoves(g, turn, side) != [] {
      var m0 := LegalMoves(g, turn, side)[0];
      LegalMovesRowsSpec(g, turn, side, Rows(), m0);
    }
  }

}
