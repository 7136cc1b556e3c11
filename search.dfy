/**
 * The search engine: `minimax`, an exhaustive adversarial search scored by
 * `checkEndGame` with depth-adjusted terminal scores, and `findBestMove`,
 * which scores every empty square for the AI and keeps the first strictly
 * best one. Both work in place on the shared board (mark a square, recurse,
 * clear it again); each method is proved equal to a pure specification
 * function of the board it was given, and to leave that board as it found it.
 */
module Search {
  import opened Board

  /** Kotlin's `Int.MIN_VALUE` and `Int.MAX_VALUE`, the initial best scores. */
  const IntMin: int := -2147483648
  const IntMax: int := 2147483647

  /** The score of a terminal board at the given depth (lines 175-179). */
  function TerminalScore(w: Win, depth: int): int
  {
    match w
    case Player => -10 + depth
    case Ai => 10 - depth
    case Draw => 0
  }

  /** The mark the side to move places: the maximizer is the AI. */
  function MarkFor(isMaximizing: bool): Cell
  {
    if isMaximizing then AiMark else PlayerMark
  }

  function Max(a: int, b: int): int { if a >= b then a else b }
  function Min(a: int, b: int): int { if a <= b then a else b }

  /** The value `minimax(board, depth, isMaximizing)` returns for board `b`. */
  function MinimaxScore(b: seq<Cell>, depth: int, isMaximizing: bool): int
    requires |b| == 9
    decreases Count(b, Empty), 1, 0
  {
    match CheckEndGame(b)
    case Some(w) => TerminalScore(w, depth)
    case None => BestOver(b, depth, isMaximizing, 9)
  }

  /** The best score of the loop over squares `0 .. n-1`: the running maximum
      (maximizer) or minimum (minimizer) of the children of the empty squares,
      starting from `Int.MIN_VALUE` or `Int.MAX_VALUE`. */
  function BestOver(b: seq<Cell>, depth: int, isMaximizing: bool, n: int): int
    requires |b| == 9 && 0 <= n <= 9
    decreases Count(b, Empty), 0, n
  {
    if n == 0 then (if isMaximizing then IntMin else IntMax)
    else
      var acc := BestOver(b, depth, isMaximizing, n - 1);
      if b[n - 1] == Empty then
        var s := Child(b, depth, isMaximizing, n - 1);
        if isMaximizing then Max(s, acc) else Min(s, acc)
      else acc
  }

  /** The score of the child reached by marking empty square `i` for the side
      to move and searching one level deeper with the other side to move. */
  function Child(b: seq<Cell>, depth: int, isMaximizing: bool, i: int): int
    requires |b| == 9 && 0 <= i < 9 && b[i] == Empty
    decreases Count(b, Empty), 0, 0
  {
    PlaceRemovesEmpty(b, i, MarkFor(isMaximizing));
    MinimaxScore(b[i := MarkFor(isMaximizing)], depth + 1, !isMaximizing)
  }

  /** Every score lies within `10 - depth` of zero when the depth plus the
      empty squares left does not exceed 10, as at every call `findBestMove`
      makes; so no score is ever the `Int.MIN_VALUE`/`Int.MAX_VALUE` sentinel. */
  lemma {:induction false} MinimaxBounds(b: seq<Cell>, depth: int, isMaximizing: bool)
    requires |b| == 9 && 0 <= depth && depth + Count(b, Empty) <= 10
    ensures depth - 10 <= MinimaxScore(b, depth, isMaximizing) <= 10 - depth
    decreases Count(b, Empty), 1, 0
  {
    if CheckEndGame(b) == None {
      BestOverBounds(b, depth, isMaximizing, 9);
    }
  }

  lemma {:induction false} BestOverBounds(b: seq<Cell>, depth: int, isMaximizing: bool, n: int)
    requires |b| == 9 && 0 <= n <= 9 && 0 <= depth && depth + Count(b, Empty) <= 10
    ensures var r := BestOver(b, depth, isMaximizing, n);
            if EmptyBelow(b, n)
            then depth + 1 - 10 <= r <= 10 - (depth + 1)
            else r == (if isMaximizing then IntMin else IntMax)
    decreases Count(b, Empty), 0, n
  {
    if n > 0 {
      BestOverBounds(b, depth, isMaximizing, n - 1);
      if b[n - 1] == Empty {
        var mark := MarkFor(isMaximizing);
        PlaceRemovesEmpty(b, n - 1, mark);
        MinimaxBounds(b[n - 1 := mark], depth + 1, !isMaximizing);
      } else {
        assert EmptyBelow(b, n) <==> EmptyBelow(b, n - 1);
      }
    }
  }

  /** `r` is the child score of some empty square among `0 .. n-1` and is the
      largest (maximizer) or smallest (minimizer) of them. */
  ghost predicate IsExtremum(b: seq<Cell>, depth: int, isMaximizing: bool, n: int, r: int)
    requires |b| == 9 && 0 <= n <= 9
  {
    && (exists i :: 0 <= i < n && b[i] == Empty && Child(b, depth, isMaximizing, i) == r)
    && (forall i :: 0 <= i < n && b[i] == Empty ==>
          if isMaximizing then Child(b, depth, isMaximizing, i) <= r
          else r <= Child(b, depth, isMaximizing, i))
  }

  /** The loop over squares `0 .. n-1` computes the maximum (maximizer) or the
      minimum (minimizer) of the children of exactly the empty squares among them. */
  lemma {:induction false} BestOverIsExtremum(b: seq<Cell>, depth: int, isMaximizing: bool, n: int)
    requires |b| == 9 && 0 <= n <= 9 && 0 <= depth && depth + Count(b, Empty) <= 10
    requires EmptyBelow(b, n)
    ensures IsExtremum(b, depth, isMaximizing, n, BestOver(b, depth, isMaximizing, n))
  {
    var r := BestOver(b, depth, isMaximizing, n);
    var acc := BestOver(b, depth, isMaximizing, n - 1);
    if b[n - 1] == Empty {
      var s := Child(b, depth, isMaximizing, n - 1);
      assert r == if isMaximizing then Max(s, acc) else Min(s, acc);
      PlaceRemovesEmpty(b, n - 1, MarkFor(isMaximizing));
      MinimaxBounds(b[n - 1 := MarkFor(isMaximizing)], depth + 1, !isMaximizing);
      if EmptyBelow(b, n - 1) {
        BestOverIsExtremum(b, depth, isMaximizing, n - 1);
        var k :| 0 <= k < n - 1 && b[k] == Empty && Child(b, depth, isMaximizing, k) == acc;
        var w := if r == s then n - 1 else k;
        assert 0 <= w < n && b[w] == Empty && Child(b, depth, isMaximizing, w) == r;
      } else {
        BestOverBounds(b, depth, isMaximizing, n - 1);
        assert r == s;
        assert 0 <= n - 1 < n && b[n - 1] == Empty && Child(b, depth, isMaximizing, n - 1) == r;
      }
    } else {
      var k :| 0 <= k < n && b[k] == Empty;
      assert k < n - 1;
      BestOverIsExtremum(b, depth, isMaximizing, n - 1);
    }
  }

  /** On a board that is not over, the maximizer's score is the largest and
      the minimizer's the smallest child score over exactly the empty
      squares, the maximizer marking for the AI and the minimizer for the player. */
  lemma MinimaxChoosesExtremum(b: seq<Cell>, depth: int, isMaximizing: bool)
    requires |b| == 9 && 0 <= depth && depth + Count(b, Empty) <= 10
    requires CheckEndGame(b) == None
    ensures IsExtremum(b, depth, isMaximizing, 9, MinimaxScore(b, depth, isMaximizing))
  {
    BestOverIsExtremum(b, depth, isMaximizing, 9);
  }

  /** Terminal boards: an AI line scores `10 - depth`, a player line
      `-10 + depth`, a full board without a line `0`, whoever is to move. */
  lemma MinimaxTerminal(b: seq<Cell>, depth: int, isMaximizing: bool)
    requires |b| == 9
    ensures HasLine(b, AiMark) && !HasLine(b, PlayerMark) ==> MinimaxScore(b, depth, isMaximizing) == 10 - depth
    ensures HasLine(b, PlayerMark) && !HasLine(b, AiMark) ==> MinimaxScore(b, depth, isMaximizing) == -10 + depth
    ensures NoCompleteLine(b) && !HasEmpty(b) ==> MinimaxScore(b, depth, isMaximizing) == 0
  {
  }

  /** `minimax`: marks each empty square for the side to move, recurses with
      the other side to move, clears the square, and keeps the running best. */
  method Minimax(board: array<Cell>, depth: int, isMaximizing: bool) returns (score: int)
    requires board.Length == 9
    modifies board
    ensures board[..] == old(board[..])
    ensures score == MinimaxScore(old(board[..]), depth, isMaximizing)
    decreases Count(board[..], Empty)
  {
    var result := CheckEndGame(board[..]);
    if result.Some? {
      return TerminalScore(result.value, depth);
    }
    ghost var b := board[..];
    if isMaximizing {
      var bestScore := IntMin;
      for i := 0 to 9
        invariant board[..] == b
        invariant bestScore == BestOver(b, depth, true, i)
      {
        if board[i] == Empty {
          board[i] := AiMark;
          PlaceRemovesEmpty(b, i, AiMark);
          var s := Minimax(board, depth + 1, false);
          board[i] := Empty;
          assert board[..] == b;
          bestScore := Max(s, bestScore);
        }
      }
      return bestScore;
    } else {
      var bestScore := IntMax;
      for i := 0 to 9
        invariant board[..] == b
        invariant bestScore == BestOver(b, depth, false, i)
      {
        if board[i] == Empty {
          board[i] := PlayerMark;
          PlaceRemovesEmpty(b, i, PlayerMark);
          var s := Minimax(board, depth + 1, true);
          board[i] := Empty;
          assert board[..] == b;
          bestScore := Min(s, bestScore);
        }
      }
      return bestScore;
    }
  }

  /** `findBestMove`'s score for each square `i`: `minimax(…, 0, false)` on
      the board with the AI's mark at `i`. */
  function RootScores(b: seq<Cell>): seq<int>
    requires |b| == 9
  {
    seq(9, i requires 0 <= i < 9 => MinimaxScore(b[i := AiMark], 0, false))
  }

  /** The score of every empty square `findBestMove` tries lies in [-10, 10]. */
  lemma RootScoresBounded(b: seq<Cell>)
    requires |b| == 9
    ensures forall i :: 0 <= i < 9 && b[i] == Empty ==> -10 <= RootScores(b)[i] <= 10
  {
    forall i | 0 <= i < 9 && b[i] == Empty
      ensures -10 <= RootScores(b)[i] <= 10
    {
      PlaceRemovesEmpty(b, i, AiMark);
      MinimaxBounds(b[i := AiMark], 0, false);
    }
  }

  /** `(bestScore, bestMove)` after the loop of `findBestMove` has looked at
      squares `0 .. n-1` with the given scores; an empty square replaces the
      best only on a strictly greater score. */
  function ScanBest(b: seq<Cell>, scores: seq<int>, n: int): (int, int)
    requires |b| == 9 && |scores| == 9 && 0 <= n <= 9
  {
    if n == 0 then (IntMin, -1)
    else
      var prev := ScanBest(b, scores, n - 1);
      if b[n - 1] == Empty && scores[n - 1] > prev.0 then (scores[n - 1], n - 1)
      else prev
  }

  /** The square `findBestMove` returns for board `b`. */
  function BestMove(b: seq<Cell>): int
    requires |b| == 9
  {
    ScanBest(b, RootScores(b), 9).1
  }

  /** `m` is the lowest-indexed empty square among `0 .. n-1` of greatest score. */
  ghost predicate IsFirstMaximum(b: seq<Cell>, scores: seq<int>, n: int, m: int)
    requires |b| == 9 && |scores| == 9 && 0 <= n <= 9
  {
    && 0 <= m < n && b[m] == Empty
    && (forall j :: 0 <= j < n && b[j] == Empty ==> scores[j] <= scores[m])
    && (forall j :: 0 <= j < m && b[j] == Empty ==> scores[j] < scores[m])
  }

  /** The scan over squares `0 .. n-1` holds the lowest-indexed empty square
      of greatest score and that score, or the initial `(Int.MIN_VALUE, -1)`
      when none of those squares is empty; this needs every score of an empty
      square to exceed `Int.MIN_VALUE`. */
  lemma {:induction false} ScanBestIsFirstMaximum(b: seq<Cell>, scores: seq<int>, n: int)
    requires |b| == 9 && |scores| == 9 && 0 <= n <= 9
    requires forall i :: 0 <= i < 9 && b[i] == Empty ==> scores[i] > IntMin
    ensures var best := ScanBest(b, scores, n);
            if EmptyBelow(b, n) then IsFirstMaximum(b, scores, n, best.1) && best.0 == scores[best.1]
            else best == (IntMin, -1)
  {
    if n > 0 {
      ScanBestIsFirstMaximum(b, scores, n - 1);
      if b[n - 1] != Empty {
        assert EmptyBelow(b, n) <==> EmptyBelow(b, n - 1);
      }
    }
  }

  /** `findBestMove` returns -1 exactly when no square is empty; otherwise an
      empty square whose score is the greatest, the lowest such index on a tie. */
  lemma BestMoveIsFirstMaximum(b: seq<Cell>)
    requires |b| == 9
    ensures HasEmpty(b) ==> IsFirstMaximum(b, RootScores(b), 9, BestMove(b))
    ensures !HasEmpty(b) ==> BestMove(b) == -1
  {
    RootScoresBounded(b);
    ScanBestIsFirstMaximum(b, RootScores(b), 9);
  }

  /** A square scores 10, the greatest score possible, exactly when marking
      it for the AI ends the game with the AI's win. */
  lemma RootScoreTenIffWin(b: seq<Cell>, i: int)
    requires |b| == 9 && 0 <= i < 9 && b[i] == Empty
    ensures RootScores(b)[i] == 10 <==> CheckEndGame(b[i := AiMark]) == Some(Ai)
  {
    var after := b[i := AiMark];
    PlaceRemovesEmpty(b, i, AiMark);
    if CheckEndGame(after) == None {
      BestOverBounds(after, 0, false, 9);
    }
  }

  /** When some square wins at once for the AI, `findBestMove` picks the
      lowest such square. */
  lemma TakesImmediateWin(b: seq<Cell>, w: int)
    requires |b| == 9 && 0 <= w < 9 && b[w] == Empty
    requires CheckEndGame(b[w := AiMark]) == Some(Ai)
    ensures var m := BestMove(b);
            && 0 <= m < 9 && b[m] == Empty && CheckEndGame(b[m := AiMark]) == Some(Ai)
            && forall j :: 0 <= j < m && b[j] == Empty ==> CheckEndGame(b[j := AiMark]) != Some(Ai)
  {
    assert HasEmpty(b);
    BestMoveIsFirstMaximum(b);
    RootScoresBounded(b);
    var m := BestMove(b);
    RootScoreTenIffWin(b, w);
    RootScoreTenIffWin(b, m);
    forall j | 0 <= j < m && b[j] == Empty
      ensures CheckEndGame(b[j := AiMark]) != Some(Ai)
    {
      RootScoreTenIffWin(b, j);
    }
  }

  /** Marking square `i` for the player completes one of the player's lines. */
  predicate PlayerWinsAt(b: seq<Cell>, i: int)
    requires |b| == 9 && 0 <= i < 9
  {
    HasLine(b[i := PlayerMark], PlayerMark)
  }

  /** A board on which the player owns no line scores at least
      `depth + 1 - 10`: the player cannot have won by then. */
  lemma NoPlayerLineScore(c: seq<Cell>, depth: int, isMaximizing: bool)
    requires |c| == 9 && 0 <= depth && depth + Count(c, Empty) <= 9
    requires !HasLine(c, PlayerMark)
    ensures MinimaxScore(c, depth, isMaximizing) >= depth + 1 - 10
  {
    if CheckEndGame(c) == None {
      BestOverBounds(c, depth, isMaximizing, 9);
    }
  }

  /** A player line on the board with the AI at `s` and the player at `k`
      is already a player line with the player at `k` alone. */
  lemma NoNewLineThroughOther(b: seq<Cell>, s: int, k: int)
    requires |b| == 9 && 0 <= s < 9 && 0 <= k < 9 && s != k
    requires HasLine(b[s := AiMark][k := PlayerMark], PlayerMark)
    ensures PlayerWinsAt(b, k)
  {
    var q :| 0 <= q < |WinPatterns| && LineAll(b[s := AiMark][k := PlayerMark], WinPatterns[q], PlayerMark);
    assert LineAll(b[k := PlayerMark], WinPatterns[q], PlayerMark);
  }

  /** After the AI blocks `s`, every reply of the player on another square
      scores at least -8. */
  lemma ReplyToBlockScore(b: seq<Cell>, s: int, k: int)
    requires |b| == 9 && 0 <= s < 9 && b[s] == Empty
    requires 0 <= k < 9 && b[k] == Empty && k != s && !PlayerWinsAt(b, k)
    ensures Child(b[s := AiMark], 0, false, k) >= -8
  {
    var after := b[s := AiMark];
    var next := after[k := PlayerMark];
    PlaceRemovesEmpty(b, s, AiMark);
    PlaceRemovesEmpty(after, k, PlayerMark);
    if HasLine(next, PlayerMark) {
      NoNewLineThroughOther(b, s, k);
    }
    NoPlayerLineScore(next, 1, true);
  }

  /** Blocking the player's only winning square scores at least -8: after
      the block the player cannot win on the next move. */
  lemma BlockScore(b: seq<Cell>, s: int)
    requires |b| == 9 && CheckEndGame(b) == None
    requires 0 <= s < 9 && b[s] == Empty
    requires CheckEndGame(b[s := AiMark]) != Some(Ai)
    requires forall j :: 0 <= j < 9 && b[j] == Empty && j != s ==> !PlayerWinsAt(b, j)
    ensures RootScores(b)[s] >= -8
  {
    var after := b[s := AiMark];
    PlaceRemovesEmpty(b, s, AiMark);
    PlaceGivesNoLineToOther(b, s, AiMark, PlayerMark);
    if CheckEndGame(after) == None {
      BestOverIsExtremum(after, 0, false, 9);
      var k :| 0 <= k < 9 && after[k] == Empty
               && Child(after, 0, false, k) == BestOver(after, 0, false, 9);
      ReplyToBlockScore(b, s, k);
    }
  }

  /** With the AI at `i` and the player's winning square `s` still open, the
      player's reply at `s` wins at depth 1 and scores -9. */
  lemma ReplyAtThreatScore(b: seq<Cell>, s: int, i: int)
    requires |b| == 9 && 0 <= s < 9 && b[s] == Empty && PlayerWinsAt(b, s)
    requires 0 <= i < 9 && b[i] == Empty && i != s
    requires NoCompleteLine(b[i := AiMark])
    ensures Child(b[i := AiMark], 0, false, s) == -9
  {
    var after := b[i := AiMark];
    var next := after[s := PlayerMark];
    var q :| 0 <= q < |WinPatterns| && LineAll(b[s := PlayerMark], WinPatterns[q], PlayerMark);
    assert LineAll(next, WinPatterns[q], PlayerMark);
    PlaceGivesNoLineToOther(after, s, PlayerMark, AiMark);
    MinimaxTerminal(next, 1, true);
  }

  /** Leaving the player's winning square open scores at most -9: the player
      wins on the next move. */
  lemma NonBlockScore(b: seq<Cell>, s: int, i: int)
    requires |b| == 9 && CheckEndGame(b) == None
    requires 0 <= s < 9 && b[s] == Empty && PlayerWinsAt(b, s)
    requires 0 <= i < 9 && b[i] == Empty && i != s
    requires CheckEndGame(b[i := AiMark]) != Some(Ai)
    ensures RootScores(b)[i] <= -9
  {
    var after := b[i := AiMark];
    PlaceRemovesEmpty(b, i, AiMark);
    PlaceGivesNoLineToOther(b, i, AiMark, PlayerMark);
    assert after[s] == Empty;
    assert CheckEndGame(after) == None;
    BestOverIsExtremum(after, 0, false, 9);
    ReplyAtThreatScore(b, s, i);
  }

  /** When the AI cannot win at once and the player threatens to win on
      exactly one square, `findBestMove` blocks that square. */
  lemma BlocksSingleThreat(b: seq<Cell>, s: int)
    requires |b| == 9 && CheckEndGame(b) == None
    requires forall i :: 0 <= i < 9 && b[i] == Empty ==> CheckEndGame(b[i := AiMark]) != Some(Ai)
    requires 0 <= s < 9 && b[s] == Empty && PlayerWinsAt(b, s)
    requires forall j :: 0 <= j < 9 && b[j] == Empty && j != s ==> !PlayerWinsAt(b, j)
    ensures BestMove(b) == s
  {
    assert HasEmpty(b);
    BestMoveIsFirstMaximum(b);
    var m := BestMove(b);
    BlockScore(b, s);
    if m != s {
      NonBlockScore(b, s, m);
    }
  }

  /** `findBestMove`: scores every empty square in ascending order and keeps
      the first strictly best; the board is left as it was found. */
  method FindBestMove(moves: array<Cell>) returns (bestMove: int)
    requires moves.Length == 9
    modifies moves
    ensures moves[..] == old(moves[..])
    ensures bestMove == BestMove(old(moves[..]))
    ensures HasEmpty(old(moves[..])) ==> IsFirstMaximum(old(moves[..]), RootScores(old(moves[..])), 9, bestMove)
    ensures !HasEmpty(old(moves[..])) ==> bestMove == -1
  {
    ghost var b := moves[..];
    var bestScore := IntMin;
    bestMove := -1;
    for i := 0 to 9
      invariant moves[..] == b
      invariant (bestScore, bestMove) == ScanBest(b, RootScores(b), i)
    {
      if moves[i] == Empty {
        moves[i] := AiMark;
        var score := Minimax(moves, 0, false);
        moves[i] := Empty;
        assert moves[..] == b;
        if score > bestScore {
          bestScore := score;
          bestMove := i;
        }
      }
    }
    BestMoveIsFirstMaximum(b);
  }
}
