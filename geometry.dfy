/**
  Squares, pieces and moves of the 9x9 Tablut board.

  A square is a (column, row) pair in 0..8; its index is row * 9 + col, the
  order in which the board is encoded. Directions number 0 = north (row + 1),
  1 = east (col + 1), 2 = south (row - 1) and 3 = west (col - 1).
 */
module Geometry {

  datatype Option<T> = None | Some(value: T)

  /** What a square holds. The king plays for White's side. */
  datatype Piece = Empty | Black | White | King

  /** The side a piece plays for: KING plays for WHITE, the others for themselves. */
  function Side(p: Piece): (s: Piece)
    ensures s != King
    ensures (s == Empty) == (p == Empty)
  {
    if p == King then White else p
  }

  /** The opposing side; the king's opponent is BLACK and EMPTY has none. */
  function Opponent(p: Piece): (q: Piece)
    ensures p == Black || p == White ==> (q == Black || q == White) && q != p
  {
    match p
    case Black => White
    case White => Black
    case King => Black
    case Empty => Empty
  }

  /** The one-character name a piece is encoded with. */
  function PieceChar(p: Piece): char
  {
    match p
    case Black => 'B'
    case White => 'W'
    case King => 'K'
    case Empty => '-'
  }

  type Coord = x: int | 0 <= x < 9

  datatype Square = Sq(col: Coord, row: Coord)

  /** Position of a square in the encoded board (row-major order). */
  function Index(s: Square): (i: nat)
    ensures i < 81
  {
    s.row * 9 + s.col
  }

  lemma SquareAtIndex(s: Square)
    ensures SquareAt(Index(s)) == s
  {
  }

  /** Distinct squares have distinct indices. */
  lemma IndexInjective(s: Square, t: Square)
    ensures Index(s) == Index(t) ==> s == t
  {
    SquareAtIndex(s);
    SquareAtIndex(t);
  }

  /** The square with index i. */
  function SquareAt(i: int): Square
    requires 0 <= i < 81
  {
    Sq(i % 9, i / 9)
  }

  lemma IndexOfSquareAt(i: int)
    requires 0 <= i < 81
    ensures Index(SquareAt(i)) == i
  {
  }

  /** Every square, row by row: Rows()[r][c] is column c of row r, so the
      rows taken in turn list the squares in index order. */
  function Rows(): (rows: seq<seq<Square>>)
    ensures |rows| == 9 && forall r :: 0 <= r < 9 ==> |rows[r]| == 9
  {
    seq(9, r requires 0 <= r < 9 => seq(9, c requires 0 <= c < 9 => Sq(c, r)))
  }

  /** The set of all 81 squares. */
  function AllSquares(): (all: set<Square>)
    ensures forall s :: s in all
  {
    var all := set r: Coord, c: Coord :: Sq(c, r);
    assert forall s :: s in all by {
      forall s
        ensures s in all
      {
        assert s == Sq(s.col, s.row);
      }
    }
    all
  }

  /** The elements of s from i on are s[i], then those after it. */
  lemma DropStep<T>(s: seq<T>, i: int)
    requires 0 <= i < |s|
    ensures s[i..][0] == s[i] && s[i..][1..] == s[i + 1..]
  {
  }

  predicate IsEdge(s: Square)
  {
    s.col == 0 || s.col == 8 || s.row == 0 || s.row == 8
  }

  /** The square steps squares away from s in direction dir, or None off the board. */
  function RookMove(s: Square, dir: int, steps: int): Option<Square>
    requires 0 <= dir < 4
  {
    var c := if dir == 1 then s.col + steps else if dir == 3 then s.col - steps else s.col;
    var r := if dir == 0 then s.row + steps else if dir == 2 then s.row - steps else s.row;
    if 0 <= c < 9 && 0 <= r < 9 then Some(Sq(c, r)) else None
  }

  /** True iff from and to are distinct squares on one row or one column. */
  predicate IsRookMove(from: Square, to: Square)
  {
    from != to && (from.row == to.row || from.col == to.col)
  }

  /** The direction of a rook move. */
  function DirOf(from: Square, to: Square): (d: int)
    requires IsRookMove(from, to)
    ensures 0 <= d < 4
  {
    if to.row > from.row then 0
    else if to.col > from.col then 1
    else if to.row < from.row then 2
    else 3
  }

  /** The length of a rook move. */
  function DistOf(from: Square, to: Square): (k: int)
    requires IsRookMove(from, to)
    ensures 1 <= k <= 8
  {
    if to.row > from.row then to.row - from.row
    else if to.col > from.col then to.col - from.col
    else if to.row < from.row then from.row - to.row
    else from.col - to.col
  }

  /** RookMove reaches exactly the rook moves of its direction and length. */
  lemma RookMoveReaches(from: Square, dir: int, steps: int, to: Square)
    requires 0 <= dir < 4 && steps >= 1
    ensures RookMove(from, dir, steps) == Some(to) <==>
              IsRookMove(from, to) && DirOf(from, to) == dir && DistOf(from, to) == steps
  {
  }

  /** Once a ray leaves the board it stays off it. */
  lemma RookMoveOffStaysOff(from: Square, dir: int, steps: int, further: int)
    requires 0 <= dir < 4 && 1 <= steps <= further
    requires RookMove(from, dir, steps).None?
    ensures RookMove(from, dir, further).None?
  {
  }

  /** True iff a and b share a side. */
  predicate Adjacent(a: Square, b: Square)
  {
    (a.row == b.row && (a.col - b.col == 1 || b.col - a.col == 1)) ||
    (a.col == b.col && (a.row - b.row == 1 || b.row - a.row == 1))
  }

  /** True iff a and b lie two squares apart on one row or column. */
  predicate TwoApart(a: Square, b: Square)
  {
    (a.row == b.row && (a.col - b.col == 2 || b.col - a.col == 2)) ||
    (a.col == b.col && (a.row - b.row == 2 || b.row - a.row == 2))
  }

  /** The square between two squares that are two apart. */
  function Between(a: Square, b: Square): (m: Square)
    requires TwoApart(a, b)
    ensures Adjacent(a, m) && Adjacent(m, b) && m != a && m != b
  {
    Sq((a.col + b.col) / 2, (a.row + b.row) / 2)
  }

  /** A square not on the edge. */
  predicate Interior(s: Square)
  {
    1 <= s.col <= 7 && 1 <= s.row <= 7
  }

  /** For a square sq1 next to sq0, the two neighbours of sq1 across the line
      sq0-sq1; each is diagonal to sq0. */
  function Diag1(sq0: Square, sq1: Square): (d: Square)
    requires Adjacent(sq0, sq1) && Interior(sq1)
    ensures Adjacent(d, sq1) && d != sq0
  {
    if sq0.row == sq1.row then Sq(sq1.col, sq1.row + 1) else Sq(sq1.col + 1, sq1.row)
  }

  function Diag2(sq0: Square, sq1: Square): (d: Square)
    requires Adjacent(sq0, sq1) && Interior(sq1)
    ensures Adjacent(d, sq1) && d != sq0 && d != Diag1(sq0, sq1)
    ensures TwoApart(Diag1(sq0, sq1), d) && Between(Diag1(sq0, sq1), d) == sq1
  {
    if sq0.row == sq1.row then Sq(sq1.col, sq1.row - 1) else Sq(sq1.col - 1, sq1.row)
  }

  datatype Move = Move(from: Square, to: Square)

  /** The throne and its four neighbours. */
  const THRONE: Square := Sq(4, 4)
  const NTHRONE: Square := Sq(4, 5)
  const STHRONE: Square := Sq(4, 3)
  const WTHRONE: Square := Sq(3, 4)
  const ETHRONE: Square := Sq(5, 4)

  predicate NearThrone(s: Square)
  {
    s == THRONE || s == NTHRONE || s == STHRONE || s == ETHRONE || s == WTHRONE
  }

  const INITIAL_ATTACKERS: seq<Square> := [
    Sq(0, 3), Sq(0, 4), Sq(0, 5), Sq(1, 4),
    Sq(8, 3), Sq(8, 4), Sq(8, 5), Sq(7, 4),
    Sq(3, 0), Sq(4, 0), Sq(5, 0), Sq(4, 1),
    Sq(3, 8), Sq(4, 8), Sq(5, 8), Sq(4, 7)
  ]

  const INITIAL_DEFENDERS: seq<Square> := [
    NTHRONE, ETHRONE, STHRONE, WTHRONE,
    Sq(4, 6), Sq(4, 2), Sq(2, 4), Sq(6, 4)
  ]
}
