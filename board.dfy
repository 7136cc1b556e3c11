/**
 * The board model of the tic-tac-toe screen: the three-valued cell, the
 * `Win` verdict and the terminal-state classifier `checkEndGame`, which scans
 * the eight winning patterns in a fixed order before looking for a draw.
 */
module Board {

  /** One square. The source stores `Boolean?`: `true` is the player's mark,
      `false` the AI's, `null` an empty square. */
  datatype Cell = Empty | PlayerMark | AiMark

  /** The source's `Win` enum. */
  datatype Win = Player | Ai | Draw

  /** `Win?` in the source: `None` is `null`, a game still in progress. */
  datatype Option<T> = None | Some(value: T)

  /** An index into the row-major 3x3 board. */
  type CellIndex = i: int | 0 <= i < 9

  /** A winning pattern: three cell indices. */
  type Pattern = p: seq<CellIndex> | |p| == 3 witness [0, 1, 2]

  /** The patterns in the order `checkEndGame` scans them: rows, columns, diagonals. */
  const WinPatterns: seq<Pattern> :=
    [[0, 1, 2], [3, 4, 5], [6, 7, 8],
     [0, 3, 6], [1, 4, 7], [2, 5, 8],
     [0, 4, 8], [2, 4, 6]]

  /** `pattern.all { m[it] == c }` */
  predicate LineAll(b: seq<Cell>, p: Pattern, c: Cell)
    requires |b| == 9
  {
    forall j :: 0 <= j < |p| ==> b[p[j]] == c
  }

  /** Pattern `k` is filled by one side. */
  predicate Complete(b: seq<Cell>, k: int)
    requires |b| == 9 && 0 <= k < |WinPatterns|
  {
    LineAll(b, WinPatterns[k], PlayerMark) || LineAll(b, WinPatterns[k], AiMark)
  }

  /** The owner of a complete pattern (the player is tested first, as in the source). */
  function LineOwner(b: seq<Cell>, k: int): Win
    requires |b| == 9 && 0 <= k < |WinPatterns|
  {
    if LineAll(b, WinPatterns[k], PlayerMark) then Player else Ai
  }

  predicate NoCompleteLine(b: seq<Cell>)
    requires |b| == 9
  {
    forall k :: 0 <= k < |WinPatterns| ==> !Complete(b, k)
  }

  /** Some pattern is filled entirely with `c`. */
  predicate HasLine(b: seq<Cell>, c: Cell)
    requires |b| == 9
  {
    exists k :: 0 <= k < |WinPatterns| && LineAll(b, WinPatterns[k], c)
  }

  /** Some square among `0 .. n-1` is empty. */
  predicate EmptyBelow(b: seq<Cell>, n: int)
    requires 0 <= n <= |b|
  {
    exists i :: 0 <= i < n && b[i] == Empty
  }

  /** Some square is empty: `m.none { it == null }` fails. */
  predicate HasEmpty(b: seq<Cell>)
  {
    EmptyBelow(b, |b|)
  }

  /** The `forEach` over the patterns, from pattern `k` on: a pattern all of
      the player's marks returns `Player`, then one all of the AI's returns
      `Ai`; `None` when no remaining pattern is complete. */
  function ScanPatterns(b: seq<Cell>, k: nat): (r: Option<Win>)
    requires |b| == 9 && k <= |WinPatterns|
    ensures r != Some(Draw)
    ensures r == None <==> forall j :: k <= j < |WinPatterns| ==> !Complete(b, j)
    ensures r == Some(Player) ==> exists j :: k <= j < |WinPatterns| && LineAll(b, WinPatterns[j], PlayerMark)
    ensures r == Some(Ai) ==> exists j :: k <= j < |WinPatterns| && LineAll(b, WinPatterns[j], AiMark)
    decreases |WinPatterns| - k
  {
    if k == |WinPatterns| then None
    else if LineAll(b, WinPatterns[k], PlayerMark) then assert Complete(b, k); Some(Player)
    else if LineAll(b, WinPatterns[k], AiMark) then assert Complete(b, k); Some(Ai)
    else ScanPatterns(b, k + 1)
  }

  /** `checkEndGame`: a complete pattern decides the game before the draw
      check, a full board without one is a draw, otherwise the game goes on. */
  function CheckEndGame(m: seq<Cell>): (r: Option<Win>)
    requires |m| == 9
    ensures r == Some(Draw) <==> NoCompleteLine(m) && !HasEmpty(m)
    ensures r == None <==> NoCompleteLine(m) && HasEmpty(m)
    ensures r == Some(Player) ==> HasLine(m, PlayerMark)
    ensures r == Some(Ai) ==> HasLine(m, AiMark)
    ensures HasLine(m, PlayerMark) && !HasLine(m, AiMark) ==> r == Some(Player)
    ensures HasLine(m, AiMark) && !HasLine(m, PlayerMark) ==> r == Some(Ai)
    ensures !BothWin(m) ==> (r == Some(Player) <==> HasLine(m, PlayerMark))
    ensures !BothWin(m) ==> (r == Some(Ai) <==> HasLine(m, AiMark))
  {
    var w := ScanPatterns(m, 0);
    if w.Some? then w
    else if forall i | 0 <= i < |m| :: m[i] != Empty then Some(Draw)
    else None
  }

  /** The scan from pattern `k` returns the owner of the first complete pattern. */
  lemma {:induction false} ScanPatternsFirstLine(b: seq<Cell>, k: nat, j: int)
    requires |b| == 9 && k <= j < |WinPatterns|
    requires Complete(b, j)
    requires forall i :: k <= i < j ==> !Complete(b, i)
    ensures ScanPatterns(b, k) == Some(LineOwner(b, j))
    decreases j - k
  {
    if k < j {
      assert !Complete(b, k);
      ScanPatternsFirstLine(b, k + 1, j);
    }
  }

  /** Whatever the rest of the board holds, the verdict is the owner of the
      first complete pattern in scan order. */
  lemma CheckEndGameFirstLine(b: seq<Cell>, j: int)
    requires |b| == 9 && 0 <= j < |WinPatterns|
    requires Complete(b, j)
    requires forall i :: 0 <= i < j ==> !Complete(b, i)
    ensures CheckEndGame(b) == Some(LineOwner(b, j))
  {
    ScanPatternsFirstLine(b, 0, j);
  }

  /** Both sides own a complete pattern: possible as a value, never in play. */
  predicate BothWin(b: seq<Cell>)
    requires |b| == 9
  {
    HasLine(b, PlayerMark) && HasLine(b, AiMark)
  }

  /** Number of cells holding `c`. */
  function Count(b: seq<Cell>, c: Cell): (n: nat)
    ensures n <= |b|
    ensures n == 0 <==> forall i :: 0 <= i < |b| ==> b[i] != c
  {
    if b == [] then 0
    else (if b[0] == c then 1 else 0) + Count(b[1..], c)
  }

  /** Writing one cell moves one unit of count from its old value to its new one. */
  lemma {:induction false} CountUpdate(b: seq<Cell>, i: int, c: Cell, x: Cell)
    requires 0 <= i < |b|
    ensures Count(b[i := c], x)
         == Count(b, x) - (if b[i] == x then 1 else 0) + (if c == x then 1 else 0)
  {
    if i > 0 {
      assert b[i := c][1..] == b[1..][i - 1 := c];
      CountUpdate(b[1..], i - 1, c, x);
    } else {
      assert b[i := c][1..] == b[1..];
    }
  }

  /** Marking an empty cell removes exactly one empty cell. */
  lemma PlaceRemovesEmpty(b: seq<Cell>, i: int, c: Cell)
    requires 0 <= i < |b| && b[i] == Empty && c != Empty
    ensures Count(b[i := c], Empty) == Count(b, Empty) - 1
  {
    CountUpdate(b, i, c, Empty);
  }

  /** Marking an empty cell of a board without a complete pattern can give a
      complete pattern to the side that moved only: the other side still has none. */
  lemma {:induction false} PlaceGivesNoLineToOther(b: seq<Cell>, i: int, c: Cell, other: Cell)
    requires |b| == 9 && 0 <= i < 9 && b[i] == Empty
    requires NoCompleteLine(b)
    requires c != Empty && other != Empty && other != c
    ensures !HasLine(b[i := c], other)
  {
    forall k | 0 <= k < |WinPatterns|
      ensures !LineAll(b[i := c], WinPatterns[k], other)
    {
      var p := WinPatterns[k];
      if LineAll(b[i := c], p, other) {
        assert forall j :: 0 <= j < 3 ==> p[j] != i && b[p[j]] == other;
        assert LineAll(b, p, other);
        assert Complete(b, k);
      }
    }
  }
}
