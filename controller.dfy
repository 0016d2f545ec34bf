/** The game as the page runs it: the live board, the click handler for a
    cell, the single-cell write of a turn, the tie test and the computer's
    choice of cell. Whether the cells still listen for clicks is kept as the
    flag `over`: it is set where the page removes its click listeners (a win,
    a tie) and cleared where it adds them (a new game). */
module Controller {
  import opened Board
  import opened Search

  /** A board in the middle of a game that is still running: the human (who
      always moves first) and the computer have made the same number of
      moves, no line is complete and some cell is still empty. */
  ghost predicate Live(b: seq<Cell>)
  {
    WellFormed(b) &&
    |Plays(b, Human)| == |Plays(b, Computer)| &&
    !HasLine(b, Human) && !HasLine(b, Computer) && !IsFull(b)
  }

  /** A new game is running: every cell is empty, neither player has moved
      and nobody has a line. */
  lemma NewBoardIsLive()
    ensures Live(NewBoard())
  {
    var b := NewBoard();
    UnmarkedBoard(b, Human);
    UnmarkedBoard(b, Computer);
    EmptySquaresArePositions(b);
    assert 0 in EmptySquares(b);
  }

  /** One full round of a running game: the human marks an empty cell, the
      board is neither full nor won by the human, the computer marks an empty
      cell without completing a line. The game is then still running: the
      counts of marks are equal again, the human's line is still absent (the
      computer's mark cannot complete it) and, as an odd number of cells
      remains before the round and two are taken, a cell is still empty. */
  lemma RoundKeepsLive(b: seq<Cell>, id: int, s: int)
    requires Live(b) && 0 <= id < |b| && b[id].Num?
    requires !IsFull(Place(b, id, Human)) && !HasLine(Place(b, id, Human), Human)
    requires 0 <= s < |b| && Place(b, id, Human)[s].Num?
    requires !HasLine(Place(Place(b, id, Human), s, Computer), Computer)
    ensures Live(Place(Place(b, id, Human), s, Computer))
  {
    var h := Place(b, id, Human);
    var r := Place(h, s, Computer);
    PlaceAddsPlay(b, id, Human, Human);
    PlaceAddsPlay(b, id, Human, Computer);
    PlaceAddsPlay(h, s, Computer, Human);
    PlaceAddsPlay(h, s, Computer, Computer);
    CellsAccountedFor(b);
    CellsAccountedFor(h);
    CellsAccountedFor(r);
    PlaceKeepsOtherLines(h, s, Computer);
  }

  class Game {
    /** origBoard: cell i holds the number i while it is empty. */
    var board: array<Cell>
    /** The click listeners have been removed: the game is won or tied. */
    var over: bool

    ghost predicate Valid()
      reads this, board
    {
      WellFormed(board[..]) && (!over ==> Live(board[..]))
    }

    /** The page load, which starts the first game. */
    constructor ()
      ensures Valid() && fresh(board)
      ensures board[..] == NewBoard() && !over
    {
      board := new Cell[Size](i => Num(i));
      over := false;
      new;
      assert board[..] == NewBoard();
      NewBoardIsLive();
    }

    /** startGame: a fresh board of numbered cells, listeners in place. */
    method StartGame()
      modifies this
      ensures Valid() && fresh(board)
      ensures board[..] == NewBoard() && !over
    {
      board := new Cell[Size](i => Num(i));
      over := false;
      assert board[..] == NewBoard();
      NewBoardIsLive();
    }

    /** turn: write the player's mark into the cell, whatever it held, and
        end the game when that completes a line of the player. The result is
        what checkWin reported. */
    method Turn(squareId: int, player: Player) returns (won: Option<Win>)
      requires WellFormed(board[..]) && 0 <= squareId < board.Length
      modifies board, this`over
      ensures board[..] == Place(old(board[..]), squareId, player)
      ensures WellFormed(board[..])
      ensures won == CheckWin(board[..], player)
      ensures won.None? <==> !HasLine(board[..], player)
      ensures over == (old(over) || won.Some?)
    {
      ghost var start := board[..];
      board[squareId] := Mark(player);
      assert board[..] == Place(start, squareId, player);
      won := CheckWin(board[..], player);
      CheckWinReportsFirstLine(board[..], player);
      if won.Some? {
        over := true;
      }
    }

    /** checkTie: the board is a tie exactly when no square is empty, and a
        tie ends the game. */
    method CheckTie() returns (tie: bool)
      requires WellFormed(board[..])
      modifies this`over
      ensures tie <==> IsFull(board[..])
      ensures tie <==> !exists i | 0 <= i < board.Length :: board[i].Num?
      ensures over == (old(over) || tie)
    {
      EmptySquaresArePositions(board[..]);
      if |EmptySquares(board[..])| == 0 {
        over := true;
        return true;
      }
      assert EmptySquares(board[..])[0] in EmptySquares(board[..]);
      return false;
    }

    /** bestSpot: the cell minimax chooses for the computer on the live
        board, which the search leaves as it found it. There is a cell
        exactly when the board is not terminal, and it is an empty one. */
    method BestSpot() returns (spot: Option<int>)
      requires WellFormed(board[..])
      modifies board
      ensures board[..] == old(board[..])
      ensures spot == Value(board[..], Computer).index
      ensures spot.None? <==> Terminal(board[..])
      ensures spot.Some? ==> 0 <= spot.value < board.Length && board[spot.value].Num?
    {
      var m := Minimax(board, Computer);
      spot := m.index;
      ValueOfTerminal(board[..], Computer);
      ValueTakesEmptyCell(board[..], Computer);
    }

    /** turnClick on cell id: nothing happens once the game is over or when
        the cell holds a mark. Otherwise the human's mark is written; unless
        that fills the board, the computer then marks the cell bestSpot
        chooses. When the human's mark completes a line without filling the
        board, bestSpot has no cell to give: the page then writes the
        computer's mark outside the cells and raises an error, reported here
        as `threw`, with the cells as the human's move left them. */
    method TurnClick(id: int) returns (threw: bool)
      requires Valid() && 0 <= id < board.Length
      modifies board, this`over
      ensures Valid()
      ensures old(over) || !old(board[id]).Num? ==>
        board[..] == old(board[..]) && over == old(over) && !threw
      ensures !old(over) && old(board[id]).Num? ==>
        var h := Place(old(board[..]), id, Human);
        && (IsFull(h) ==> board[..] == h && over && !threw)
        && (!IsFull(h) && HasLine(h, Human) ==> board[..] == h && over && threw)
        && (!IsFull(h) && !HasLine(h, Human) ==>
              Value(h, Computer).index.Some? &&
              0 <= Value(h, Computer).index.value < |h| && h[Value(h, Computer).index.value].Num? &&
              board[..] == Place(h, Value(h, Computer).index.value, Computer) &&
              over == HasLine(board[..], Computer) && !threw)
    {
      threw := false;
      if over || !board[id].Num? {
        return;
      }
      ghost var b0 := board[..];
      var _ := Turn(id, Human);
      ghost var h := board[..];
      PlaceKeepsOtherLines(b0, id, Human);
      var tie := CheckTie();
      if !tie {
        var spot := BestSpot();
        match spot
        case None =>
          threw := true;
        case Some(s) =>
          var _ := Turn(s, Computer);
          if !over {
            RoundKeepsLive(b0, id, s);
          }
      }
    }
  }
}
