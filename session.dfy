/**
 * The turn state of the game screen: the board `moves`, whose turn it is
 * (`playerTurn`) and the verdict `win`, with the three transitions the screen
 * performs on them: the player's move, the AI's reply and restart. The
 * player's move takes a square index; mapping a tap to a square is not modelled.
 */
module Session {
  import opened Board
  import opened Search

  class Game {
    var moves: array<Cell>
    var playerTurn: bool
    var win: Option<Win>

    /** The verdict is always that of the board, the players alternate with
        the player first, and never do both sides own a complete line. */
    ghost predicate Valid()
      reads this, moves
    {
      && moves.Length == 9
      && win == CheckEndGame(moves[..])
      && Count(moves[..], PlayerMark) == Count(moves[..], AiMark) + (if playerTurn then 0 else 1)
      && !BothWin(moves[..])
    }

    /** The screen's initial state: an empty board, the player to move, no verdict. */
    constructor ()
      ensures Valid() && fresh(moves)
      ensures forall i :: 0 <= i < 9 ==> moves[i] == Empty
      ensures playerTurn && win == None
    {
      moves := new Cell[9](_ => Empty);
      playerTurn := true;
      win := None;
      new;
      AllEmptyIsFresh(moves[..]);
    }

    /** The player's move on square `pos`: accepted only on the player's turn,
        before a verdict, on an empty square; it marks the square, hands the
        turn to the AI and recomputes the verdict. Anything else changes nothing. */
    method PlayerMove(pos: int)
      requires Valid() && 0 <= pos < 9
      modifies this, moves
      ensures Valid() && moves == old(moves)
      ensures if old(playerTurn) && old(win) == None && old(moves[pos]) == Empty
              then moves[..] == old(moves[..])[pos := PlayerMark] && !playerTurn
              else moves[..] == old(moves[..]) && playerTurn == old(playerTurn) && win == old(win)
    {
      if playerTurn && win == None {
        if moves[pos] == Empty {
          ghost var b := moves[..];
          moves[pos] := PlayerMark;
          playerTurn := false;
          win := CheckEndGame(moves[..]);
          Placed(b, pos, PlayerMark, AiMark);
        }
      }
    }

    /** The AI's reply, run while it is the AI's turn and there is no verdict:
        it marks the square `findBestMove` chooses, which is empty, hands the
        turn back and recomputes the verdict. */
    method AiMove()
      requires Valid() && !playerTurn && win == None
      modifies this, moves
      ensures Valid() && moves == old(moves) && playerTurn
      ensures var m := BestMove(old(moves[..]));
              0 <= m < 9 && old(moves[m]) == Empty && moves[..] == old(moves[..])[m := AiMark]
    {
      ghost var b := moves[..];
      var aiMove := FindBestMove(moves);
      moves[aiMove] := AiMark;
      playerTurn := true;
      win := CheckEndGame(moves[..]);
      Placed(b, aiMove, AiMark, PlayerMark);
    }

    /** Restart: the player to move, no verdict, every square cleared. */
    method Restart()
      requires Valid()
      modifies this, moves
      ensures Valid() && moves == old(moves)
      ensures forall i :: 0 <= i < 9 ==> moves[i] == Empty
      ensures playerTurn && win == None
    {
      playerTurn := true;
      win := None;
      for i := 0 to 9
        invariant moves == old(moves) && playerTurn && win == None
        invariant forall j :: 0 <= j < i ==> moves[j] == Empty
      {
        moves[i] := Empty;
      }
      AllEmptyIsFresh(moves[..]);
    }
  }

  /** An all-empty board: no verdict, no marks, no line. */
  lemma AllEmptyIsFresh(b: seq<Cell>)
    requires |b| == 9 && forall i :: 0 <= i < 9 ==> b[i] == Empty
    ensures CheckEndGame(b) == None
    ensures Count(b, PlayerMark) == 0 && Count(b, AiMark) == 0
    ensures !BothWin(b)
  {
    forall k | 0 <= k < |WinPatterns|
      ensures !Complete(b, k)
    {
      assert b[WinPatterns[k][0]] == Empty;
    }
    assert b[0] == Empty;
  }

  /** A move on an empty square of an undecided board adds one mark for the
      mover, none for the other side, and gives the other side no line. */
  lemma Placed(b: seq<Cell>, i: int, c: Cell, other: Cell)
    requires |b| == 9 && 0 <= i < 9 && b[i] == Empty && CheckEndGame(b) == None
    requires c != Empty && other != Empty && other != c
    ensures Count(b[i := c], c) == Count(b, c) + 1
    ensures Count(b[i := c], other) == Count(b, other)
    ensures !HasLine(b[i := c], other) && !BothWin(b[i := c])
  {
    CountUpdate(b, i, c, c);
    CountUpdate(b, i, c, other);
    PlaceGivesNoLineToOther(b, i, c, other);
  }
}
