/** The tic-tac-toe board: nine cells in row-major order. An empty cell holds
    its own position as a number; an occupied cell holds a player's mark
    ("O" for the human, "X" for the computer). This module holds the pure
    queries over such a board: the winning lines, checkWin and emptySquares,
    and the single-cell write performed by a move. */
module Board {

  datatype Option<T> = None | Some(value: T)

  /** "O" is the human player, "X" the computer. */
  datatype Player = Human | Computer

  /** A cell holds either a number (an empty square) or a mark. */
  datatype Cell = Num(n: int) | Mark(player: Player)

  /** What checkWin reports: the position of the line in WinCombos and whose it is. */
  datatype Win = Win(index: nat, player: Player)

  const Size: nat := 9

  /** Rows, then columns and diagonals interleaved, in this fixed order. */
  const WinCombos: seq<seq<nat>> := [
    [0, 1, 2],
    [3, 4, 5],
    [6, 7, 8],
    [0, 3, 6],
    [0, 4, 8],
    [1, 4, 7],
    [2, 5, 8],
    [2, 4, 6]
  ]

  function Other(p: Player): (q: Player)
    ensures q != p
  {
    if p == Computer then Human else Computer
  }

  /** Every empty cell stores its own position. */
  ghost predicate IndexedEmpties(b: seq<Cell>)
  {
    forall i | 0 <= i < |b| :: b[i].Num? ==> b[i].n == i
  }

  /** The invariant of every board the game ever holds. */
  ghost predicate WellFormed(b: seq<Cell>)
  {
    |b| == Size && IndexedEmpties(b)
  }

  /** Line j of WinCombos is complete for p: each of its cells holds p's mark. */
  ghost predicate LineOf(b: seq<Cell>, p: Player, j: int)
    requires 0 <= j < |WinCombos|
  {
    forall e | e in WinCombos[j] :: e < |b| && b[e] == Mark(p)
  }

  ghost predicate HasLine(b: seq<Cell>, p: Player)
  {
    exists j | 0 <= j < |WinCombos| :: LineOf(b, p, j)
  }

  predicate Increasing(s: seq<int>)
  {
    forall i, j | 0 <= i < j < |s| :: s[i] < s[j]
  }

  /** The board at game start: each cell holds its own position. */
  function NewBoard(): (b: seq<Cell>)
    ensures WellFormed(b)
    ensures forall i | 0 <= i < |b| :: b[i].Num?
  {
    seq(Size, i => Num(i))
  }

  /** The positions holding p's mark, collected left to right as the
      reduce in checkWin does. */
  function Plays(b: seq<Cell>, p: Player): (r: seq<nat>)
  {
    if b == [] then []
    else
      var n := |b| - 1;
      Plays(b[..n], p) + (if b[n] == Mark(p) then [n] else [])
  }

  /** The plays are exactly the positions holding p's mark, in ascending order. */
  lemma {:induction false} PlaysAreMarks(b: seq<Cell>, p: Player)
    ensures forall i :: i in Plays(b, p) <==> 0 <= i < |b| && b[i] == Mark(p)
    ensures Increasing(Plays(b, p))
  {
    if b != [] {
      var n := |b| - 1;
      var prefix := Plays(b[..n], p);
      PlaysAreMarks(b[..n], p);
      assert forall k | 0 <= k < |prefix| :: prefix[k] in prefix;
    }
  }

  /** Every element of the combo occurs in the plays (the indexOf test). */
  predicate Covers(plays: seq<nat>, combo: seq<nat>)
  {
    forall e | e in combo :: e in plays
  }

  /** The search over WinCombos from entry k on, stopping at the first
      combo the plays cover. */
  function FirstCovered(plays: seq<nat>, p: Player, k: nat): (r: Option<Win>)
    decreases |WinCombos| - k
    ensures r.Some? ==> r.value.player == p && k <= r.value.index < |WinCombos|
    ensures r.Some? ==> Covers(plays, WinCombos[r.value.index])
    ensures r.Some? ==> forall j | k <= j < r.value.index :: !Covers(plays, WinCombos[j])
    ensures r.None? ==> forall j | k <= j < |WinCombos| :: !Covers(plays, WinCombos[j])
  {
    if k >= |WinCombos| then None
    else if Covers(plays, WinCombos[k]) then Some(Win(k, p))
    else FirstCovered(plays, p, k + 1)
  }

  /** The indexOf test over the plays agrees with reading the cells. */
  lemma CoversIffLine(b: seq<Cell>, p: Player)
    ensures forall j | 0 <= j < |WinCombos| :: Covers(Plays(b, p), WinCombos[j]) <==> LineOf(b, p, j)
  {
    PlaysAreMarks(b, p);
  }

  /** checkWin: the plays of p, then the first combo they cover. */
  function CheckWin(b: seq<Cell>, p: Player): (r: Option<Win>)
    ensures r.Some? ==> r.value.player == p && r.value.index < |WinCombos|
  {
    FirstCovered(Plays(b, p), p, 0)
  }

  /** checkWin reports the first line of WinCombos complete for p, and
      nothing exactly when p has no complete line. */
  lemma CheckWinReportsFirstLine(b: seq<Cell>, p: Player)
    ensures CheckWin(b, p).None? <==> !HasLine(b, p)
    ensures CheckWin(b, p).Some? ==>
      var w := CheckWin(b, p).value;
      w.player == p && w.index < |WinCombos| && LineOf(b, p, w.index) &&
      forall j | 0 <= j < w.index :: !LineOf(b, p, j)
  {
    CoversIffLine(b, p);
  }

  /** emptySquares: the numbers still on the board, in board order. */
  function EmptySquares(b: seq<Cell>): (r: seq<int>)
    ensures |r| <= |b|
  {
    if b == [] then []
    else
      var n := |b| - 1;
      EmptySquares(b[..n]) + (if b[n].Num? then [b[n].n] else [])
  }

  /** A full board is one with no empty squares. */
  predicate IsFull(b: seq<Cell>)
  {
    EmptySquares(b) == []
  }

  /** The board write of a move: cell i receives p's mark. */
  function Place(b: seq<Cell>, i: int, p: Player): (r: seq<Cell>)
    requires 0 <= i < |b|
    ensures |r| == |b| && r[i] == Mark(p)
    ensures forall j | 0 <= j < |b| && j != i :: r[j] == b[j]
    ensures IndexedEmpties(b) ==> IndexedEmpties(r)
    ensures b[i].Num? ==> |EmptySquares(r)| + 1 == |EmptySquares(b)|
  {
    PlaceShrinks(b, i, p);
    b[i := Mark(p)]
  }

  /** On a board whose empty cells hold their own positions, emptySquares
      lists exactly the empty positions, in ascending order. */
  lemma {:induction false} EmptySquaresArePositions(b: seq<Cell>)
    requires IndexedEmpties(b)
    ensures forall x :: x in EmptySquares(b) <==> 0 <= x < |b| && b[x].Num?
    ensures Increasing(EmptySquares(b))
    ensures forall k | 0 <= k < |EmptySquares(b)| :: 0 <= EmptySquares(b)[k] < |b|
  {
    if b != [] {
      var n := |b| - 1;
      var prefix := EmptySquares(b[..n]);
      assert IndexedEmpties(b[..n]);
      EmptySquaresArePositions(b[..n]);
      var last := if b[n].Num? then [n] else [];
      assert EmptySquares(b) == prefix + last;
      forall x
        ensures x in EmptySquares(b) <==> 0 <= x < |b| && b[x].Num?
      {
        assert x in EmptySquares(b) <==> x in prefix || x in last;
        if 0 <= x < n {
          assert b[..n][x] == b[x];
        }
      }
    }
  }

  /** The first empty cell is the first empty square. */
  lemma FirstEmptyFirst(b: seq<Cell>, c: int)
    requires IndexedEmpties(b)
    requires 0 <= c < |b| && b[c].Num? && forall j | 0 <= j < c :: !b[j].Num?
    ensures |EmptySquares(b)| > 0 && EmptySquares(b)[0] == c
  {
    EmptySquaresArePositions(b);
    var e := EmptySquares(b);
    assert c in e;
    assert e[0] in e;
  }

  /** Marking an empty cell removes exactly one empty square. */
  lemma {:induction false} PlaceShrinks(b: seq<Cell>, i: int, p: Player)
    requires 0 <= i < |b|
    ensures b[i].Num? ==> |EmptySquares(b[i := Mark(p)])| + 1 == |EmptySquares(b)|
    ensures !b[i].Num? ==> |EmptySquares(b[i := Mark(p)])| == |EmptySquares(b)|
  {
    var n := |b| - 1;
    var b' := b[i := Mark(p)];
    assert b'[..n] == if i == n then b[..n] else b[..n][i := Mark(p)];
    if i < n {
      PlaceShrinks(b[..n], i, p);
    }
  }

  /** A board without marks has no plays and no line for either player. */
  lemma {:induction false} UnmarkedBoard(b: seq<Cell>, p: Player)
    requires forall i | 0 <= i < |b| :: b[i].Num?
    ensures Plays(b, p) == [] && !HasLine(b, p)
  {
    if b != [] {
      var n := |b| - 1;
      UnmarkedBoard(b[..n], p);
    }
    forall j | 0 <= j < |WinCombos| ensures !LineOf(b, p, j) {
      assert WinCombos[j][0] in WinCombos[j];
    }
  }

  /** Marking an empty cell for p adds one play of p and leaves the other
      player's plays as they were. */
  lemma {:induction false} PlaceAddsPlay(b: seq<Cell>, i: int, p: Player, q: Player)
    requires 0 <= i < |b| && b[i].Num?
    ensures |Plays(b[i := Mark(p)], q)| == |Plays(b, q)| + (if q == p then 1 else 0)
  {
    var n := |b| - 1;
    var b' := b[i := Mark(p)];
    assert b'[..n] == if i == n then b[..n] else b[..n][i := Mark(p)];
    if i < n {
      PlaceAddsPlay(b[..n], i, p, q);
    }
  }

  /** Each cell is empty, the human's or the computer's: empty squares and
      both players' marks together account for every cell. */
  lemma {:induction false} CellsAccountedFor(b: seq<Cell>)
    ensures |EmptySquares(b)| + |Plays(b, Human)| + |Plays(b, Computer)| == |b|
  {
    if b != [] {
      var n := |b| - 1;
      CellsAccountedFor(b[..n]);
      match b[n]
      case Num(_) =>
      case Mark(Human) =>
      case Mark(Computer) =>
    }
  }

  /** Putting p's mark on a cell completes no line of the other player. */
  lemma PlaceKeepsOtherLines(b: seq<Cell>, i: int, p: Player)
    requires 0 <= i < |b|
    ensures HasLine(Place(b, i, p), Other(p)) ==> HasLine(b, Other(p))
  {
    var r := Place(b, i, p);
    if HasLine(r, Other(p)) {
      var j :| 0 <= j < |WinCombos| && LineOf(r, Other(p), j);
      assert LineOf(b, Other(p), j);
    }
  }
}
