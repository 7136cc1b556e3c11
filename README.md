# Tic-tac-toe engine: verified model

This project models the game engine of an Android tic-tac-toe app. A human
plays against a computer that searches the game tree with minimax. The model
has three parts.

- `Board` (board.dfy) holds the three-valued square: the source's `Boolean?`,
  where `true` is the player, `false` is the AI and `null` is empty. It also
  holds the `Win` verdict and `checkEndGame`. That function scans the eight
  winning patterns in a fixed order, returns the owner of the first complete
  one, and only then reports a draw on a full board.
- `Search` (search.dfy) holds `minimax` and `findBestMove`. Both are methods
  over one shared `array<Cell>`. Like the source, they mark a square, recurse,
  and clear the square again. Each method is proved equal to a pure function
  of the board it was given (`MinimaxScore`, `BestMove`), and each is proved
  to leave the board exactly as it found it. The lemmas state what those
  functions mean:
  - terminal scores;
  - max over the AI's moves and min over the player's, over exactly the
    empty squares;
  - score bounds;
  - the lowest-index tie-break;
  - taking an immediate win;
  - blocking a single threat.
- `Session` (session.dfy) holds the screen's turn state: `moves`,
  `playerTurn` and `win`. A class `Game` has the player's move, the AI's reply
  and restart. Its invariant says three things. The verdict always equals
  `checkEndGame` of the board. The marks alternate, with the player first.
  The two sides never both own a line.

## Model

| member | source | states |
|---|---|---|
| Board.ScanPatterns | app/src/main/java/com/example/lab6tictactoe/MainActivity.kt:138-147 | The pattern scan never yields a draw. It yields nothing exactly when no remaining pattern is complete. A `Player`/`Ai` result means that side owns a remaining pattern. |
| Board.CheckEndGame | app/src/main/java/com/example/lab6tictactoe/MainActivity.kt:137-151 | `DRAW` exactly when no line is complete and no square is empty, so a win beats a draw. `null` exactly when no line is complete and some square is empty. `PLAYER`/`AI` only when that side owns a line, and always when only that side does. When the two sides do not both own a line, `PLAYER` if and only if the player owns one, and `AI` if and only if the AI does. |
| Board.ScanPatternsFirstLine | app/src/main/java/com/example/lab6tictactoe/MainActivity.kt:144-147 | A scan from pattern k returns the owner of the first complete pattern at or after k, testing the player before the AI. |
| Board.CheckEndGameFirstLine | app/src/main/java/com/example/lab6tictactoe/MainActivity.kt:137-147 | On any board, including one where both sides own a line, the verdict is the owner of the first complete pattern in scan order. |
| Board.PlaceGivesNoLineToOther | app/src/main/java/com/example/lab6tictactoe/MainActivity.kt:83-86 | On a board with no complete line, marking an empty square never completes a line for the side that did not move. |
| Search.TerminalScore | app/src/main/java/com/example/lab6tictactoe/MainActivity.kt:175-179 | The score of a finished board: `-10 + depth` for `PLAYER`, `10 - depth` for `AI`, `0` for `DRAW` (no contract of its own; see `MinimaxTerminal`). |
| Search.MinimaxScore | app/src/main/java/com/example/lab6tictactoe/MainActivity.kt:172-205 | The value `minimax(board, depth, isMaximizing)` returns: the terminal score when `checkEndGame` gives a verdict, otherwise the result of the loop over all nine squares (no contract of its own; see `MinimaxChoosesExtremum`, `MinimaxBounds`). |
| Search.BestOver | app/src/main/java/com/example/lab6tictactoe/MainActivity.kt:183-203 | The running `bestScore` of `minimax`'s loop after squares 0..n-1: from `Int.MIN_VALUE` with `maxOf` for the maximizer, from `Int.MAX_VALUE` with `minOf` for the minimizer, over the empty squares only (no contract of its own; see `BestOverIsExtremum`). |
| Search.Child | app/src/main/java/com/example/lab6tictactoe/MainActivity.kt:186-188 | The score of one step of that loop: the side to move marks the empty square, and `minimax` recurses one level deeper with the other side to move (no contract of its own). |
| Search.RootScores | app/src/main/java/com/example/lab6tictactoe/MainActivity.kt:159-160 | The score `findBestMove` gives each square: `minimax(moves, 0, false)` with the AI's mark on that square (no contract of its own; see `RootScoresBounded`). |
| Search.ScanBest | app/src/main/java/com/example/lab6tictactoe/MainActivity.kt:154-167 | The pair `(bestScore, bestMove)` after `findBestMove`'s loop has seen squares 0..n-1, starting from `(Int.MIN_VALUE, -1)` and replaced only on a strictly greater score of an empty square (no contract of its own; see `ScanBestIsFirstMaximum`). |
| Search.BestMove | app/src/main/java/com/example/lab6tictactoe/MainActivity.kt:153-170 | The square `findBestMove` returns: `bestMove` after all nine squares (no contract of its own; see `BestMoveIsFirstMaximum`). |
| Search.MinimaxTerminal | app/src/main/java/com/example/lab6tictactoe/MainActivity.kt:173-179 | On a terminal board the score is `10 - depth` for an AI line, `-10 + depth` for a player line and `0` for a full board with no line, whoever is to move. |
| Search.MinimaxChoosesExtremum | app/src/main/java/com/example/lab6tictactoe/MainActivity.kt:182-204 | On a board that is not over, the maximizer's score is the largest child score and the minimizer's is the smallest. The children are exactly the empty squares: the AI's mark for the maximizer, the player's for the minimizer, one level deeper. The score is attained by some child. |
| Search.MinimaxBounds | app/src/main/java/com/example/lab6tictactoe/MainActivity.kt:172-204 | With depth at least 0 and depth plus empty squares at most 10, every score lies in [depth - 10, 10 - depth]. So no score is ever the `Int.MIN_VALUE`/`Int.MAX_VALUE` sentinel. |
| Search.BestOverIsExtremum | app/src/main/java/com/example/lab6tictactoe/MainActivity.kt:184-191 | After squares 0..n-1, the loop's running `maxOf`/`minOf` from the sentinel equals the extreme child score over exactly the empty squares among them. |
| Search.Minimax | app/src/main/java/com/example/lab6tictactoe/MainActivity.kt:172-205 | The in-place search returns `MinimaxScore` of the board it was given and restores every square. |
| Search.RootScoresBounded | app/src/main/java/com/example/lab6tictactoe/MainActivity.kt:158-161 | Every score `findBestMove` computes for an empty square lies in [-10, 10]. |
| Search.ScanBestIsFirstMaximum | app/src/main/java/com/example/lab6tictactoe/MainActivity.kt:154-167 | With every score above `Int.MIN_VALUE`, the loop holds either the lowest-indexed empty square of greatest score with that score, or `(Int.MIN_VALUE, -1)` when no square so far is empty. |
| Search.BestMoveIsFirstMaximum | app/src/main/java/com/example/lab6tictactoe/MainActivity.kt:153-170 | The result is -1 exactly when no square is empty. Otherwise it is an empty square in 0..8 of greatest score, and the lowest such index on a tie. |
| Search.RootScoreTenIffWin | app/src/main/java/com/example/lab6tictactoe/MainActivity.kt:159-160 | A square scores 10, the best score possible, if and only if the AI's mark there ends the game with the AI's win. |
| Search.TakesImmediateWin | app/src/main/java/com/example/lab6tictactoe/MainActivity.kt:153-170 | When some empty square wins at once for the AI, the chosen square wins at once, and no lower empty square does. |
| Search.BlocksSingleThreat | app/src/main/java/com/example/lab6tictactoe/MainActivity.kt:153-170 | Suppose the AI cannot win at once and exactly one empty square would complete a player line. Then that square is chosen. |
| Search.FindBestMove | app/src/main/java/com/example/lab6tictactoe/MainActivity.kt:153-170 | The in-place scan returns `BestMove` of the board it was given, restores every square, and returns -1 on a full board. On any other board it returns the lowest-indexed empty square of greatest score. |
| Session.Game.constructor | app/src/main/java/com/example/lab6tictactoe/MainActivity.kt:62-76 | The initial state: all nine squares empty, the player to move, no verdict. The invariant holds. |
| Session.Game.PlayerMove | app/src/main/java/com/example/lab6tictactoe/MainActivity.kt:79-87 | A move is accepted only on the player's turn, with no verdict, on an empty square. It marks that square only, passes the turn and keeps the verdict equal to `checkEndGame`. Any other move changes nothing. |
| Session.Game.AiMove | app/src/main/java/com/example/lab6tictactoe/MainActivity.kt:110-113 | On the AI's turn with no verdict, it marks the square `findBestMove` picks. That square is in range and empty. It changes nothing else and passes the turn back. The invariant is kept. |
| Session.Game.Restart | app/src/main/java/com/example/lab6tictactoe/MainActivity.kt:126-129 | Clears all nine squares, gives the turn to the player and clears the verdict. The invariant is kept. |
| Session.AllEmptyIsFresh | app/src/main/java/com/example/lab6tictactoe/MainActivity.kt:63-76 | An all-empty board has no verdict, no marks and no line. |

## Left out

- Rendering (`MainActivity.onCreate`, `Header`, `Board`, `GetComposableFromMove`, texts, buttons and images) is left out. It has no logic of its own.
- Mapping a tap to a square, `(it.x / 333).toInt()`, is left out because it works on floating-point pixel coordinates. `Game.PlayerMove` takes a square index and requires it to be in 0..8. The source computes the index as `y * 3 + x` and never checks `x`, so on a board wider than 999 pixels a tap past the third column marks a square of the next row (column 3 of row 0 marks square 3), and a tap whose index reaches 9 throws an index error.
- The `LaunchedEffect` coroutine and its one-second `delay` are left out. Only their sequential effect is kept, as `Game.AiMove`.
- Compose's observable state (`mutableStateListOf`, `mutableStateOf`) is left out. It is modelled as a plain array and plain fields.
- Kotlin's 32-bit `Int` is modelled as an unbounded integer. The ±2^31 sentinels are kept as constants. Scores stay within [-10, 10] and depth stays at most 9, so nothing wraps.
- Search.MinimaxBounds: stated only where depth plus empty squares is at most 10. Every call that `findBestMove` starts meets this: depth 0 with at most 8 empty squares, and each level is one deeper with one fewer empty square.
- Search.BlocksSingleThreat: proved only when the AI has no immediate win and the player's threat square is unique. With two threat squares every move scores -9, so the lowest empty index is chosen.
- The claim that the computer never loses is not modelled. Neither is the claim that an empty board yields square 0. Both need the whole game tree evaluated.
- On a full board, `findBestMove` returns -1, as the code does. A separate error outcome is not modelled, because the code has none. `findBestMove` does not require a board that is still in progress, because the code does not check for one.
- A board can hold a complete line for both sides. Its verdict then follows the scan order (`CheckEndGameFirstLine`). Play never reaches such a board, which the `Game` invariant keeps.
