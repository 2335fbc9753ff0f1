# Tablut rule engine and alpha-beta AI in Dafny

This project models the core of a Tablut program. Tablut is the 9x9 game in which
16 BLACK attackers try to capture a KING, and the king, with 8 WHITE defenders,
tries to reach the edge of the board. The model has two parts.

- **The board** (`Board.java`). It holds:
  - the grid of pieces;
  - the side to move;
  - the winner;
  - the move count and the move limit;
  - the repetition flag;
  - the stack of earlier states.

  It models the initial layout, move legality, making a move with captures and
  the move-limit forfeit, repetition detection, undo, and the queries (piece
  locations, king position, legal moves, encoded board).
- **The AI** (`AI.java`). It models the depth policy, the static evaluation and
  the recursive alpha-beta search. The search shares one board between all
  nodes through make-move and undo.

Modules:

| file | module | what it holds |
|---|---|---|
| `geometry.dfy` | `Geometry` | squares, pieces, moves, rook steps, the throne squares and the initial layouts |
| `rules.dfy` | `Rules` | the rule engine as functions of a `Position` value (grid, turn, winner, move count, move limit, repetition flag, stack of `(grid, turn)` snapshots) with the lemmas about it |
| `board.dfy` | `TablutBoard` | class `Board` over an `array2<Piece>`: every operation is a method proved to act on `Model()` as the corresponding function in `Rules` says (`IsUnblockedMove` as `IsUnblocked`, `CheckRepeated` as `Repeats`, `CaptureRow` as `CaptureAll`, `CaptureAround` as `CaptureRows`, `MovePiece` as `Moved`, `MoveAndCapture` as `MoveCaptures`, `FinishMove` as the bookkeeping part of `Apply`, `RayMoves` as `Ray`, `MovesFromSquare` as `MovesFrom`, `RowMoves` as `LegalMovesIn`, `EncodedBoard` as `Encode`, `SetMoveLimit` stating its update directly, the others under their own names) |
| `eval.dfy` | `Eval` | the static evaluation and the depth policy as functions of a grid |
| `search.dfy` | `AlphaBeta` | the search as functions (`Search`, `Loop`, `Child`) that carry the shared position from child to child, with lemmas on the alpha-beta loop |
| `ai.dfy` | `TablutAI` | class `AI`: the counting loops of the evaluation and the recursive search over one shared `Board`, proved to compute the functions of `Eval` and `AlphaBeta` (`WeightAt` as `Weight`, `TallyRow` as `CountRow`, `TallyBoard` as `Count`, `AdjacentPieces` as `AdjacentCount`, `CaptureTotal` as `CaptureSum`, `CountMovesNextTo` as `MovesNextTo`, `FindMove` as `RootSearch`, `FindMoveIn` as `Search`, `SearchMoves` and `TryMove` as `Loop`, `Explore` as `Child`, the others under their own names) |

The Java classes `Square`, `Piece`, `Move` and the `ROOK_MOVES` table are not
part of this model. `Geometry` defines minimal versions of them from their uses:
- squares are `(col, row)` in 0..8, indexed `row * 9 + col`;
- `side(KING)` is WHITE, `opponent(KING)` is BLACK and `opponent(EMPTY)` is EMPTY;
- directions are 0 = north (row + 1), 1 = east, 2 = south, 3 = west;
- `adjacent` means sharing a side;
- `diag1`/`diag2` are the two neighbours of the middle square across the capturing line;
- a piece is encoded by the characters `B`, `W`, `K` and `-`.

### Where the code, not the usual description of the game, is followed

- **Legal moves and the side to move.** `legalMoves(side)` filters with
  `isLegal`, and `isLegal` asks that the piece belong to the side to move. The
  list is therefore empty for the side not on move (`Rules.LegalMovesSpec`). The
  search always asks for WHITE's moves at a maximising node and for BLACK's at a
  minimising one, so a node on the other side's turn has no moves
  (`AlphaBeta.SearchOffTurn`).
- **Depth policy.** `maxDepth` counts the BLACK squares plus all other squares,
  empty ones included. The count is always 81, so the depth is always 3
  (`Eval.MaxDepthIsThree`). It is not a function of the pieces left.
- **Ties.** The search keeps a move whose value equals the best so far (`>=` and
  `<=`), so the LAST of equal moves wins, not the first (`AlphaBeta.TieReplaces`).
- **Winner at the root of a node.** A position with a winner returns the static
  score before any of the winner-specific returns. Those returns
  (`AI.java:109-115`) can never be reached.
- **Undo is not an exact inverse.** It never decrements the move count and never
  clears the winner. After a repeated position it flips the turn but keeps the
  grid and the stack. After `clearUndo`, unless the position is a repeat, it
  peeks an empty stack and throws; on a repeat it only flips the turn
  (`Rules.MakeMoveThenUndo`, `Rules.RepetitionUndoKeepsGrid`,
  `Rules.ClearUndoThenUndo`).
- **The king in `surround`.** `surround` compares the raw piece with the AI's
  own piece, which is never KING. The king's weight of 10 never applies
  (`Eval.SurroundWeightRows`).
- **A king beside an empty throne.** `hostility` treats an empty throne as
  hostile to any piece whose side differs from the other end's, and an EMPTY
  square has a side different from the king's. So a king next to the empty
  throne is removed by two attackers across it when the square opposite the
  throne is empty, not only when it holds a third attacker
  (`Rules.KingBesideThroneCapture`).
- **A defender removed by its own side's move.** `makeMove` always tries the
  capture against the throne. With the king on the throne, one defender next
  to it and attackers on the other three throne squares, `anyThree` makes the
  throne hostile to that defender. A WHITE piece moving to the square beyond
  it then removes its own defender (`Rules.DefenderCapturedByOwnMove`).
- **A king on the throne** is removed only when all four squares around it
  hold attackers (`Rules.KingOnThroneCapture`).
- **A move onto its own square.** `makeMove` puts the piece on `to` and then
  empties `from`. A "move" with `from == to` therefore removes the piece; the
  model keeps that.

## Model

| member | source | states |
|---|---|---|
| `TablutBoard.Board.constructor` | Board.java:122-155 | `init`: the new board holds the initial position, BLACK to move, no move made, no winner, no limit, and its own state as the only entry of the stack |
| `Rules.InitialLayout` | Board.java:38-52 | the initial grid has the KING exactly on the throne, WHITE exactly on the 8 distinct defender squares, BLACK exactly on the 16 distinct attacker squares, and EMPTY everywhere else |
| `TablutBoard.InitialContents` | Board.java:139-152 | the array `init` fills square by square holds exactly the initial layout |
| `TablutBoard.FillByColumns` | Board.java:140-151 | the column-by-column fill puts `layout(s)` on every square `s` |
| `Rules.Copy` | Board.java:93-117 | defines `copy` on positions: grid, turn and stack kept, count 0, no winner, no repetition, no limit |
| `TablutBoard.Board.Copy` | Board.java:93-117 | `copy`: same grid, side to move and stack as the model, with move count 0, no winner, no repetition and no move limit, in a fresh array |
| `TablutBoard.CopyContents` | Board.java:160-166 | `copyContents`: a fresh 9x9 array holding exactly the pieces of the grid |
| `TablutBoard.Board.SetMoveLimit` | Board.java:186-188 | only the move limit changes |
| `TablutBoard.Board.Put` | Board.java:275-285 | `put`: square s holds p and every other square is unchanged |
| `Rules.Put` | Board.java:275-277 | the grid after a put: s holds p, every other square keeps its piece |
| `Rules.IsLegalFrom` | Board.java:507-509 | defines `isLegal(from)`: the piece on `from` plays for the side to move |
| `Rules.IsLegal` | Board.java:514-522 | defines `isLegal(from, to)`; `Rules.LegalIff` states it as a condition on the grid |
| `Rules.LegalIff` | Board.java:514-571 | a move is legal iff it is a rook move of a piece of the side to move, it lands on the throne only if that piece is the king, and the destination and every square strictly between are empty (both directions) |
| `TablutBoard.Board.IsLegal` | Board.java:514-522 | `isLegal(from, to)` returns exactly the legality of `Rules.LegalIff` on the current grid and turn |
| `TablutBoard.Board.IsUnblockedMove` | Board.java:537-571 | true iff every square after `from` up to and including `to`, along the row (same row) or else the column, is empty |
| `Rules.CanCapture` | Board.java:365-377 | true iff the two squares lie two apart on one row or column |
| `Rules.AnyThree` | Board.java:416-440 | true iff one of the four squares holds WHITE and the other three hold BLACK (raw pieces, so a KING does not count as WHITE) |
| `Rules.HostilityCases` | Board.java:382-412 | an empty throne at either end is hostile exactly to a middle piece whose side differs from the other end's; a throne at the far end holding a piece of WHITE's side is hostile to a WHITE middle piece iff `anyThree` holds around the throne, to a BLACK one iff the near end is of WHITE's side, and always to an empty middle; in every other case both ends must be one non-empty side and the middle another |
| `Rules.HostilitySymmetric` | Board.java:387-411 | swapping the two ends does not change hostility unless an end is the throne holding a piece of WHITE's side (the king or a defender) |
| `Rules.Capture` | Board.java:337-359 | the limits of `capture(sq0, sq2)`: nothing changes unless sq2 is two squares from sq0; otherwise at most the middle square is emptied; the winner can only become BLACK, and does whenever the king is removed (when the piece is removed is `Rules.CaptureIff`) |
| `Rules.CaptureIff` | Board.java:337-359 | for squares two apart with a piece between, that piece is removed iff both ends are hostile to it and, for a king on or next to the throne, the two squares across it are hostile as well |
| `Rules.CaptureWinner` | Board.java:347-357 | a capture changes the winner only by removing the king between the two squares |
| `Rules.CaptureSandwich` | Board.java:353-358 | away from the throne, a piece between two pieces of the other side is removed, and a removed king makes BLACK the winner |
| `Rules.KingOnThroneCapture` | Board.java:343-352 | a king on the throne is removed iff all four throne neighbours hold BLACK |
| `Rules.KingBesideThroneCapture` | Board.java:343-352 | a king north of an empty throne is removed iff BLACK holds the squares west and east of it and the square north of it holds no piece of WHITE's side (so an empty square there counts as hostile) |
| `Rules.DefenderCapturedByOwnMove` | Board.java:391-399 | with the king on the throne, WHITE north of it and BLACK on the other three throne neighbours, a capture from the square north of that defender against the throne removes the defender and leaves the winner alone |
| `Rules.Hostility` | Board.java:382-412 | defines `hostility` branch by branch; `Rules.HostilityCases` states it in terms of sides |
| `TablutBoard.Board.Capture` | Board.java:337-359 | the method performs `Rules.Capture` in place on grid and winner, leaving the other fields alone |
| `Rules.CaptureAllEffects` | Board.java:312-314 | a run of captures after a move to `to` only empties squares next to `to`, changes the winner only to BLACK, and sets it whenever the king is removed |
| `Rules.CaptureRowsEffects` | Board.java:312-314 | the same for the capture loop taken row by row over the whole board |
| `Rules.MoveCapturesEffects` | Board.java:307-314 | the captures `makeMove` attempts (against every square of the mover's side and the throne) have those effects |
| `Rules.Beyond` | Board.java:365-377 | the square two steps from `to` past a neighbour m, when it is on the board, is two apart from `to` with m between them |
| `Rules.BeyondBetween` | Board.java:365-377 | for a square s two apart from `to`, s is the square beyond the square between them |
| `Rules.Removes` | Board.java:337-359 | defines the condition under which `capture(to, s)` removes the piece between, as `Rules.CaptureIff` states it |
| `Rules.RemovesStable` | Board.java:337-359 | whether `capture(to, s)` removes its piece does not depend on what the other squares next to `to` hold |
| `Rules.EndsStable` | Board.java:382-412 | `hostility(to, m, s)` does not read the squares next to `to` other than m |
| `Rules.AcrossStable` | Board.java:382-412 | the hostility across a king on or next to the throne does not read the squares next to `to` other than the king's |
| `Rules.CaptureKeeps` | Board.java:312-314 | one more capture of the loop removes its piece exactly when it would have on the grid before the loop |
| `Rules.CaptureAllSoFar` | Board.java:312-314 | after a run of captures, a square next to `to` is empty iff it was, or the capture against the square beyond it was in the run and removes the piece on the grid before the run |
| `Rules.CaptureRowsSoFar` | Board.java:312-314 | the same for the capture loop taken row by row |
| `Rules.MoveCapturesIff` | Board.java:307-359 | after the captures of a move to `to`, a square next to `to` is empty iff it was empty, or the square beyond it holds a piece of the mover's side or is the throne and `capture(to, s)` removes the piece on the grid before any capture; so the order the squares are tried in does not matter |
| `Rules.MoveSandwich` | Board.java:298-359 | a move to `to` removes a piece of the other side lying between `to` and a piece of the mover's side, when neither end is the throne and the piece is not a king on or next to the throne |
| `TablutBoard.Board.CaptureRow` | Board.java:312-314 | one row of the capture loop, in place, as `Rules.CaptureAll` on that row |
| `TablutBoard.Board.CaptureAround` | Board.java:312-314 | the whole capture loop, in place, as `Rules.CaptureRows`, other fields unchanged |
| `Rules.Moved` | Board.java:304-305 | the piece on `from` lands on `to` and `from` is emptied (so a move onto its own square removes the piece); no other square changes |
| `TablutBoard.Board.MovePiece` | Board.java:304-310 | the piece on `from` goes to `to`, `from` is emptied, and the returned set is the mover's squares plus the throne |
| `TablutBoard.Board.MoveAndCapture` | Board.java:304-314 | moving and capturing: the grid and winner of the captures after the move, the move count one higher, everything else unchanged |
| `TablutBoard.Board.CheckRepeated` | Board.java:216-226 | when the grid and side to move equal an entry of the stack, the repetition flag is set and the side to move becomes the winner; otherwise nothing changes |
| `TablutBoard.Board.FinishMove` | Board.java:315-321 | the turn passes, the repetition check runs, the new state is pushed, and a king on the edge makes WHITE the winner |
| `TablutBoard.Board.MakeMove` | Board.java:298-324 | the board ends in exactly the position `Rules.MakeMove` gives, in the same array |
| `Rules.MakeMove` | Board.java:298-324 | defines `makeMove`: refusal, forfeit, or `Rules.Apply`; `Rules.MakeMoveEffects` states what it does |
| `Rules.Apply` | Board.java:304-321 | defines a move that is made: move, captures, turn, repetition check, push, king-on-edge win |
| `Rules.MakeMoveEffects` | Board.java:298-324 | nothing changes for a piece of the wrong side; once a non-zero limit is reached only the winner changes, to the opponent; otherwise the piece moves, only squares next to `to` may be emptied, the count grows by one, the turn passes and one state is pushed; a king on the edge makes WHITE the winner, otherwise a repeat makes the new side to move the winner, otherwise the winner changes only when the captures removed a king, and then to BLACK; a captured king (barring a repeat) always gives BLACK the win; a square next to `to` is empty afterwards exactly as `Rules.MoveCapturesIff` says for the grid after the piece has moved |
| `Rules.ApplyState` | Board.java:311-321 | the bookkeeping of a move that is made: turn flipped, count one higher, limit kept, the new state pushed, the repetition flag set on a repeat, and the winner WHITE for a king on the edge, else the new side to move on a repeat, else the winner the captures left |
| `Rules.ApplyGrid` | Board.java:304-314 | the grid of a move that is made: piece on `to`, `from` empty, only squares next to `to` emptied by captures |
| `Rules.ApplyKingCaptured` | Board.java:353-357 | a move that removes the king (and does not repeat a state) makes BLACK the winner |
| `Rules.Undo` | Board.java:445-464 | `undo`: no change before the first move; it fails exactly when the stack would be peeked empty; otherwise the turn flips, the repetition flag clears, count, limit and winner stay, and the grid and stack are restored from the stack unless the position was a repeat |
| `Rules.UndoPosition` | Board.java:456-464 | defines `undoPosition`: on a repeat only the flag clears; otherwise the stack is popped and the grid of the new top restored, None where the stack would be peeked empty |
| `TablutBoard.Board.UndoPosition` | Board.java:456-464 | the method performs `Rules.UndoPosition`, reporting false where the source peeks an empty stack |
| `TablutBoard.Board.Undo` | Board.java:445-450 | the method performs `Rules.Undo`, reporting false exactly when it fails |
| `Rules.UndoAfterPush` | Board.java:456-460 | undo takes back any step that flipped the turn, counted a move and pushed its state on a stack whose top was the old state |
| `Rules.MakeMoveThenUndo` | Board.java:298-324 | a move that is made and does not repeat a state is taken back by undo: grid, turn and stack are restored, the count stays advanced and the winner stays |
| `Rules.RepetitionUndoKeepsGrid` | Board.java:456-463 | after a move that repeats a state, undo flips the turn back but keeps the moved grid and the pushed state |
| `Rules.ClearUndo` | Board.java:470-475 | defines `clearUndo`: the stack becomes the current state alone and the move count 1 |
| `TablutBoard.Board.ClearUndo` | Board.java:470-475 | only the stack (now just the current state) and the move count (now 1) change |
| `Rules.ClearUndoThenUndo` | Board.java:470-475 | after `clearUndo`, undo fails exactly when the position is not a repeat |
| `Rules.PieceLocations` | Board.java:577-589 | a square is in the result iff its piece plays for the given side |
| `TablutBoard.Board.PieceLocations` | Board.java:577-589 | the scan returns exactly that set |
| `Rules.KingPosition` | Board.java:239-248 | any square returned holds the king, and no king comes before it in column-major order |
| `Rules.KingPositionSpec` | Board.java:239-248 | the king position is the first king in column-major order, and None exactly when no square holds the king |
| `Rules.FirstKingFrom` | Board.java:240-247 | a scan from any point with no king behind it finds the first king when there is one |
| `TablutBoard.Board.KingPosition` | Board.java:239-248 | the column-by-column scan returns exactly that square, or None |
| `Rules.RaySpec` | Board.java:493-498 | the moves along one ray are exactly the legal moves from `from` in that direction at that distance or more |
| `Rules.MovesFromSpec` | Board.java:493-499 | the moves from a square are exactly its legal moves in the remaining directions |
| `Rules.LegalMovesInSpec` | Board.java:491-500 | the moves of a list of squares are exactly the legal moves from those squares that hold the side's pieces |
| `Rules.LegalMovesRowsSpec` | Board.java:491-500 | the same for a list of rows |
| `Rules.LegalMovesSpec` | Board.java:488-502 | a move is in `legalMoves(side)` iff its piece plays for `side` and the move is legal; the list is empty for the side not on move |
| `TablutBoard.Board.RayMoves` | Board.java:494-498 | the loop along one ray yields the ray's legal moves, nearest first |
| `TablutBoard.Board.MovesFromSquare` | Board.java:493-499 | the moves from a square, direction by direction |
| `TablutBoard.Board.RowMoves` | Board.java:491-500 | the moves of the side's pieces on one row |
| `TablutBoard.Board.LegalMoves` | Board.java:488-502 | `legalMoves(side)` returns exactly the list `Rules.LegalMovesSpec` characterises, squares in index order |
| `Rules.Encode` | Board.java:595-602 | defines `encodedBoard`: the side to move's character, then one character per square in index order |
| `Rules.EncodeInjective` | Board.java:595-602 | the encoded board determines the grid and the side to move |
| `TablutBoard.Board.EncodedBoard` | Board.java:595-602 | the side to move's character, then one character per square in index order |
| `Eval.ValueOrder` | AI.java:23-32 | `0 < WILL_WIN_VALUE < WINNING_VALUE < INFTY` |
| `Eval.DepthFor` | AI.java:173-189 | the step function lies in 3..9; it is 3 iff the count is at least 25 and 9 iff it is below 10 |
| `Eval.DepthForMonotone` | AI.java:173-189 | more counted squares never give a deeper search |
| `Eval.MaxDepthIsThree` | AI.java:162-171 | the BLACK and non-BLACK counts add up to 81, so `maxDepth` is always 3 |
| `Eval.MaxDepth` | AI.java:162-190 | defines `maxDepth` as `DepthFor` of the BLACK count plus the non-BLACK count; `Eval.MaxDepthIsThree` shows it is 3 |
| `TablutAI.AI.MaxDepth` | AI.java:162-190 | the counting loop returns `Eval.MaxDepth`, which is 3 |
| `TablutAI.AI.IsSurrounded` | AI.java:275-287 | true iff some on-board neighbour of the square holds the opponent of its piece |
| `TablutAI.AI.WeightAt` | AI.java:219-223 | what one square adds to a tally |
| `TablutAI.AI.TallyRow` | AI.java:217-225 | the tally over one row |
| `TablutAI.AI.TallyBoard` | AI.java:217-225 | the tally over the whole board, row by row |
| `Eval.SurroundWeightRows` | AI.java:251-258 | for a side other than KING, the king-weighted surround count equals the plain count (the weight 10 never applies) |
| `Eval.ThroneNeighbours` | AI.java:296-300 | four squares, exactly the neighbours of the throne |
| `Eval.BlacksAmongSpec` | AI.java:301-305 | the count is 0 iff none of the squares holds BLACK and is the full length iff all do |
| `Eval.ThronesSpec` | AI.java:294-307 | `thrones` is at most 4; it is 0 exactly when no throne neighbour holds BLACK, and 4 exactly when all four do |
| `Eval.Thrones` | AI.java:294-307 | defines `thrones`: the BLACK pieces among the throne's neighbours; `Eval.ThronesSpec` bounds it |
| `TablutAI.AI.Thrones` | AI.java:294-307 | the loop counts the BLACK pieces next to the throne |
| `Eval.KingCapturedSpec` | AI.java:401-403 | the king is captured iff no square holds it; otherwise the king position holds it |
| `TablutAI.AI.KingCaptured` | AI.java:401-403 | `kingCaptured` is `Eval.KingCaptured` |
| `TablutAI.AI.KingOnEdge` | AI.java:394-396 | `kingOnEdge` is true iff there is a king and it stands on an edge square |
| `Eval.KingWinSpec` | AI.java:376-389 | `kingWin` holds iff there is a king with a legal move to an edge square; it never holds on BLACK's turn |
| `Eval.KingWin` | AI.java:376-389 | defines `kingWin`: some legal king move reaches the edge; `Eval.KingWinSpec` states it |
| `TablutAI.AI.KingWin` | AI.java:376-389 | the method returns `Eval.KingWin` |
| `TablutAI.AI.AnyToEdge` | AI.java:381-387 | true iff some move of the list lands on an edge square |
| `Eval.AdjacentCountRemove` | AI.java:362-366 | counting the opposing pieces next to a square one piece at a time |
| `TablutAI.AI.AdjacentPieces` | AI.java:362-366 | the loop counts the pieces of the set next to the square |
| `Eval.CapturePointsOffTurn` | AI.java:355-371 | a piece of the side not to move has no legal move and scores no capture points |
| `Eval.CapturePoints` | AI.java:355-371 | defines `capturePoints`: over the piece's legal moves, the opposing pieces next to the destination; `Eval.CapturePointsOffTurn` shows it is 0 off turn |
| `TablutAI.AI.CapturePoints` | AI.java:355-371 | for each legal move of the piece, the opposing pieces next to its destination, summed |
| `Eval.CaptureSumRemove` | AI.java:233-237 | the sum of capture points over a set does not depend on the order the set is visited in |
| `TablutAI.AI.CaptureTotal` | AI.java:233-237 | the loop over the set returns that sum |
| `Eval.Surround` | AI.java:247-270 | defines `surround` with AI.java's weights and signs; `Eval.SurroundWeightRows` shows the king weight never applies |
| `TablutAI.AI.Surround` | AI.java:247-270 | -200 per BLACK throne neighbour plus the surround count of the AI's pieces, scaled by 200 for BLACK and -200 for WHITE |
| `TablutAI.AI.CountMovesNextTo` | AI.java:316-320 | the number of moves whose destination is next to the king |
| `Eval.MyStratOffTurn` | AI.java:313-350 | off its own turn a side has no moves: BLACK's strategy is only its penalties (-200 per surrounded or edge piece), WHITE's is 0 |
| `Eval.MyStrat` | AI.java:313-350 | defines `myStrat`: moves next to the king scaled by 10^6 (BLACK) or 10^4 (WHITE), with BLACK's penalties; `Eval.MyStratOffTurn` states it off turn |
| `TablutAI.AI.MyStrat` | AI.java:313-350 | the method returns `Eval.MyStrat` for the board's king |
| `Eval.Heuristic` | AI.java:217-240 | defines the score where no override applies: surround, strategy, capture points times 1000, and 9 per BLACK and 16 per WHITE or KING piece |
| `TablutAI.AI.Heuristic` | AI.java:217-240 | surround, strategy, capture points times 1000, and 9 per BLACK and 16 per WHITE or KING piece |
| `Eval.StaticScoreOverrides` | AI.java:198-214 | for WHITE: king on edge gives WINNING_VALUE, else a king escape WILL_WIN_VALUE, else no king -INFTY; for BLACK: no king gives -WINNING_VALUE, else a king escape WILL_WIN_VALUE, else (on WHITE's turn) king on edge WINNING_VALUE |
| `Eval.StaticScoreBlackTurnKingOnEdge` | AI.java:206-213 | on BLACK's turn the king cannot move, so for BLACK a king on the edge scores WINNING_VALUE |
| `Eval.StaticScore` | AI.java:195-241 | defines `staticScore`: the overrides in AI.java's order, else the heuristic; `Eval.StaticScoreOverrides` states them |
| `TablutAI.AI.StaticScore` | AI.java:195-241 | the method returns `Eval.StaticScore`: the overrides, else the heuristic |
| `AlphaBeta.Search` | AI.java:103-156 | defines `findMove(board, depth, …)` on positions: static score at depth 0 or with a winner, else the loop over the mover's legal moves |
| `AlphaBeta.Loop` | AI.java:117-151 | defines the loop: each move's child searched and undone, best, move and window updated, stop at a cutoff, `None` on a crash |
| `AlphaBeta.Child` | AI.java:120-123 | defines a child: the search one level less deep, opposite sense, after the move |
| `AlphaBeta.RootSearch` | AI.java:76-87 | defines `findMove()`: the search of a copy to `maxDepth` with the full window and the AI's sense |
| `AlphaBeta.SearchTerminal` | AI.java:107-108 | at depth 0 or once there is a winner, the search returns the static score, chooses no move and leaves the position alone |
| `AlphaBeta.SearchNode` | AI.java:117-151 | any other node runs the loop over the mover's legal moves, from best -INFTY (maximising) or INFTY (minimising) |
| `AlphaBeta.SearchNoMoves` | AI.java:152-155 | a node without legal moves returns -INFTY (maximising) or INFTY (minimising) with no move |
| `AlphaBeta.SearchOffTurn` | AI.java:119-137 | a node whose sense asks for the side not on move has no moves, so it returns -INFTY or INFTY with no move |
| `AlphaBeta.LoopStep` | AI.java:120-131 | one pass of the loop: a crashed child or undo ends the loop; a kept response that closes the window ends it with the new variables; otherwise it goes on with them |
| `AlphaBeta.LoopMonotone` | AI.java:124-150 | a maximising loop never lowers best or alpha and leaves beta alone, a minimising one mirrors this; the kept move is the starting one or one of the moves |
| `AlphaBeta.LoopBest` | AI.java:124-150 | best ends as the largest (maximising) or smallest (minimising) of the start value and all responses seen |
| `AlphaBeta.LoopCutoff` | AI.java:128-130 | once a kept response closes the window, the moves after it are not looked at |
| `AlphaBeta.TieReplaces` | AI.java:124-126 | a response equal to the best so far replaces the kept move |
| `AlphaBeta.SearchChoice` | AI.java:117-155 | a chosen move is a legal move of a piece of the mover's side; with no move chosen the value is -INFTY or INFTY |
| `AlphaBeta.RootChoice` | AI.java:76-87 | the root's move is a legal move of one of the AI's pieces, and there is none off the AI's turn |
| `TablutAI.AI.FindMove` | AI.java:76-87 | `findMove()`: searches a copy (the caller's board is not modified) and returns the root search's move, which is also left in `lastFoundMove` |
| `TablutAI.AI.FindMoveIn` | AI.java:103-156 | returns the search's value and leaves the board in the search's final position; `lastFoundMove` changes only when `saveMove` is set and the node is not terminal |
| `TablutAI.AI.SearchMoves` | AI.java:117-151 | the loop over the mover's legal moves ends with the best response, its move and the position the loop function gives, or reports the crash |
| `TablutAI.AI.TryMove` | AI.java:119-131 | one pass of that loop, as `AlphaBeta.LoopStep` describes it |
| `TablutAI.AI.Explore` | AI.java:120-123 | make the move, search one level less deep with the opposite sense, undo: the value and position are those of the child search followed by undo |

## Left out

- Player plumbing is left out: `myMove`, `create`, `isManual`, the controller and the text protocol (`AI.java:38-70`). `TablutAI.AI.constructor` only records the side played.
- Display and input parsing are left out: `toString`, and the `get`/`put` overloads taking characters.
- Accessors are left out; the model reads the fields directly. They are `getContents`, `getBoard`, `turn`, `winner`, `moveCount`, `repeatedPosition`, `hasMove` and `makeMove(Move)`.
- The `_board`, `_attackers` and `_defenders` tables are left out. They never change after `init`/`copy`: `_board` is the table of squares, and the other two are copies of the initial layouts.
- Exceptions are not modelled. An undo that peeks an empty stack throws `EmptyStackException` in Java. Here `Rules.Undo` returns None, `Board.Undo` returns false and the search ends as `Crashed` / `ok == false`. The state of the board after such a crash is left unspecified.
- `TablutAI.AI.FindMoveIn`: on a crash it promises only that the board stays valid, because Java leaves the board half-searched when the exception escapes.
- `TablutBoard.Board.LegalMoves`: moves are listed by `from` square in index order and, for each square, direction by direction and nearest first. Java visits the squares in `HashSet` order, which is unspecified. The search's choice among moves, and which of several tied moves is kept, therefore follow this fixed order.
- The capture loop of `makeMove` visits the mover's squares in `HashSet` order; `TablutBoard.Board.CaptureAround` visits them in index order. The outcome is the same in every order: `Rules.MoveCapturesIff` says which squares the captures empty in terms of the grid before any of them, and `Rules.MoveCapturesEffects` says the winner becomes BLACK when they remove a king and stays as it was otherwise.
- `Eval.CaptureSum`: it sums the capture points in an arbitrary order. `Eval.CaptureSumRemove` proves the order does not matter.
- Java's 32-bit `int` arithmetic is not modelled. Scores are unbounded integers. Products such as `score * 1000 * 1000` and `capture * 1000` would wrap in Java and do not wrap here. The constants keep their Java values (`INFTY` is `2^31 - 1`).
- The dead winner returns of `findMove` are left out of the method. `AlphaBeta.Search` keeps them, but `TablutAI.AI.FindMoveIn` does not re-test them (`AI.java:109-115`).
- The `model == this` early return of `copy` cannot arise: `Board.Copy` always builds a new board.
- The Java `assert side != EMPTY` in `pieceLocations` is not modelled. Java assertions are off by default, and the scan is defined for any side.
- The stack holds `(grid, turn)` snapshots rather than whole `Board` copies. The source reads only those two fields of a stacked board.
