/** The computer's move selector: a full-depth minimax search with no pruning.
    Value and Candidates are the pure meaning of the search; Minimax is the
    search as the game runs it, marking and unmarking cells of the live board
    in place, and is proved to compute Value while leaving the board as it
    found it. */
module Search {
  import opened Board

  /** A search result: the cell tried (absent when the board was terminal)
      and the score the search gave it. */
  datatype Move = Move(index: Option<int>, score: int)

  /** The best score so far and where it was found, as the selection loops keep them. */
  datatype Best = Best(score: int, at: Option<nat>)

  const HumanWins: int := -10
  const ComputerWins: int := 10
  const Draw: int := 0

  predicate IsScore(s: int)
  {
    s == HumanWins || s == Draw || s == ComputerWins
  }

  /** The boards on which minimax stops without searching. */
  ghost predicate Terminal(b: seq<Cell>)
  {
    HasLine(b, Human) || HasLine(b, Computer) || IsFull(b)
  }

  /** The starting best score of the selection loop: below every score for
      the maximising computer, above every score for the minimising human. */
  function Sentinel(p: Player): (s: int)
  {
    if p == Computer then -10000 else 10000
  }

  /** Score s is strictly better than best for the mover p: greater for the
      computer, smaller for the human. */
  predicate Beats(p: Player, s: int, best: int)
  {
    if p == Computer then s > best else s < best
  }

  /** The selection over the recorded moves: scanning from the left, a move
      replaces the best so far only when its score beats it strictly, starting
      from the sentinel. The result is therefore the first best move: no move
      beats it, and it beats every move before it. */
  function Scan(moves: seq<Move>, p: Player): (r: Best)
    ensures r.at.None? <==> forall j | 0 <= j < |moves| :: !Beats(p, moves[j].score, Sentinel(p))
    ensures r.at.None? ==> r.score == Sentinel(p)
    ensures r.at.Some? ==> r.at.value < |moves| && r.score == moves[r.at.value].score
    ensures r.at.Some? ==> forall j | 0 <= j < |moves| :: !Beats(p, moves[j].score, r.score)
    ensures r.at.Some? ==> forall j | 0 <= j < r.at.value :: Beats(p, r.score, moves[j].score)
  {
    if moves == [] then Best(Sentinel(p), None)
    else
      var n := |moves| - 1;
      var prev := Scan(moves[..n], p);
      if Beats(p, moves[n].score, prev.score) then Best(moves[n].score, Some(n)) else prev
  }

  /** The score of a board for the player p to move, and the cell p should take.
      Terminal boards are tested first, in a fixed order: a human line, then a
      computer line, then a full board. Otherwise every empty cell is tried and
      the first best one is chosen. Scores are never adjusted for depth. */
  function Value(b: seq<Cell>, p: Player): (m: Move)
    requires WellFormed(b)
    decreases |EmptySquares(b)|, 1
    ensures IsScore(m.score)
  {
    if CheckWin(b, Human).Some? then Move(None, HumanWins)
    else if CheckWin(b, Computer).Some? then Move(None, ComputerWins)
    else if |EmptySquares(b)| == 0 then Move(None, Draw)
    else
      EmptySquaresArePositions(b);
      var spots := EmptySquares(b);
      var moves := Candidates(b, p, spots);
      CandidateAt(b, p, spots, 0);
      assert Beats(p, moves[0].score, Sentinel(p));
      var k := Scan(moves, p).at.value;
      CandidateAt(b, p, spots, k);
      moves[k]
  }

  /** Every spot is the position of an empty cell of b. */
  ghost predicate AllEmpty(b: seq<Cell>, spots: seq<int>)
  {
    forall k | 0 <= k < |spots| :: 0 <= spots[k] < |b| && b[spots[k]].Num?
  }

  /** The moves the search records for the given spots, in their order: each
      spot paired with the score of the other player's reply to p taking it. */
  function Candidates(b: seq<Cell>, p: Player, spots: seq<int>): (moves: seq<Move>)
    requires WellFormed(b) && AllEmpty(b, spots)
    decreases |EmptySquares(b)|, 0, |spots|, 0
    ensures |moves| == |spots|
  {
    if spots == [] then []
    else
      var n := |spots| - 1;
      Candidates(b, p, spots[..n]) + [Move(Some(spots[n]), Value(Place(b, spots[n], p), Other(p)).score)]
  }

  /** Candidate k is spot k, scored by the other player's reply to p taking it. */
  lemma {:induction false} CandidateAt(b: seq<Cell>, p: Player, spots: seq<int>, k: int)
    requires WellFormed(b) && AllEmpty(b, spots) && 0 <= k < |spots|
    decreases |EmptySquares(b)|, 0, |spots|, 1
    ensures Candidates(b, p, spots)[k] == Move(Some(spots[k]), Value(Place(b, spots[k], p), Other(p)).score)
  {
    var n := |spots| - 1;
    if k < n {
      CandidateAt(b, p, spots[..n], k);
    }
  }

  /** The terminal tests in their priority order: a complete human line scores
      -10, else a complete computer line +10, else a full board 0, and none of
      them names a cell; a board that passes all three gets a cell. */
  lemma ValueOfTerminal(b: seq<Cell>, p: Player)
    requires WellFormed(b)
    ensures HasLine(b, Human) ==> Value(b, p) == Move(None, HumanWins)
    ensures !HasLine(b, Human) && HasLine(b, Computer) ==> Value(b, p) == Move(None, ComputerWins)
    ensures !HasLine(b, Human) && !HasLine(b, Computer) && IsFull(b) ==> Value(b, p) == Move(None, Draw)
    ensures Value(b, p).index.None? <==> Terminal(b)
  {
    CheckWinReportsFirstLine(b, Human);
    CheckWinReportsFirstLine(b, Computer);
    if !Terminal(b) {
      EmptySquaresArePositions(b);
      var spots := EmptySquares(b);
      var moves := Candidates(b, p, spots);
      CandidateAt(b, p, spots, 0);
      assert Beats(p, moves[0].score, Sentinel(p));
      CandidateAt(b, p, spots, Scan(moves, p).at.value);
    }
  }

  /** The cell the search names is always an empty cell of the board. */
  lemma ValueTakesEmptyCell(b: seq<Cell>, p: Player)
    requires WellFormed(b)
    ensures Value(b, p).index.Some? ==>
      0 <= Value(b, p).index.value < |b| && b[Value(b, p).index.value].Num?
  {
    ValueOfTerminal(b, p);
    if !Terminal(b) {
      var k := ValueIsFirstBest(b, p);
      EmptySquaresArePositions(b);
      assert EmptySquares(b)[k] in EmptySquares(b);
    }
  }

  /** On a board that is not terminal, the chosen move is candidate k: the k-th
      empty cell with the score of the reply to it. No candidate is better for
      p (the computer gets the maximum score, the human the minimum) and every
      earlier candidate is strictly worse, so k is the first best one. */
  lemma ValueIsFirstBest(b: seq<Cell>, p: Player) returns (k: nat)
    requires WellFormed(b) && !Terminal(b)
    ensures k < |EmptySquares(b)| && AllEmpty(b, EmptySquares(b))
    ensures Value(b, p) == Candidates(b, p, EmptySquares(b))[k]
    ensures Value(b, p).index == Some(EmptySquares(b)[k])
    ensures forall j | 0 <= j < |EmptySquares(b)| ::
      !Beats(p, Candidates(b, p, EmptySquares(b))[j].score, Value(b, p).score)
    ensures forall j | 0 <= j < k ::
      Beats(p, Value(b, p).score, Candidates(b, p, EmptySquares(b))[j].score)
  {
    CheckWinReportsFirstLine(b, Human);
    CheckWinReportsFirstLine(b, Computer);
    EmptySquaresArePositions(b);
    var spots := EmptySquares(b);
    var moves := Candidates(b, p, spots);
    CandidateAt(b, p, spots, 0);
    assert Beats(p, moves[0].score, Sentinel(p));
    k := Scan(moves, p).at.value;
    CandidateAt(b, p, spots, k);
  }

  /** On a board that is not terminal, the result is some candidate k: the
      k-th empty square with that candidate's score. */
  lemma ValueIsCandidate(b: seq<Cell>, p: Player) returns (k: nat)
    requires WellFormed(b) && !Terminal(b)
    ensures k < |EmptySquares(b)| && AllEmpty(b, EmptySquares(b))
    ensures Value(b, p).index == Some(EmptySquares(b)[k])
    ensures Value(b, p).score == Candidates(b, p, EmptySquares(b))[k].score
  {
    k := ValueIsFirstBest(b, p);
  }

  /** When the computer's best score is -10, every candidate ties at -10
      and the strict scan keeps the first: the computer takes the first
      empty square. */
  lemma LosingChoiceIsFirst(b: seq<Cell>)
    requires WellFormed(b) && !Terminal(b) && Value(b, Computer).score == HumanWins
    ensures Value(b, Computer).index == Some(EmptySquares(b)[0])
  {
    var k := ValueIsFirstBest(b, Computer);
    if k != 0 {
      CandidateAt(b, Computer, EmptySquares(b), 0);
      assert false;
    }
  }

  /** The computer takes a winning cell. When no line is complete yet, cell c
      is empty, marking it completes a computer line, and no empty cell before
      c already scores 10 for the computer, the search picks c with score 10. */
  lemma ImmediateWin(b: seq<Cell>, c: int)
    requires WellFormed(b) && !HasLine(b, Human) && !HasLine(b, Computer)
    requires 0 <= c < |b| && b[c].Num?
    requires HasLine(Place(b, c, Computer), Computer)
    requires forall j | 0 <= j < c && b[j].Num? :: Value(Place(b, j, Computer), Human).score < ComputerWins
    ensures Value(b, Computer) == Move(Some(c), ComputerWins)
  {
    EmptySquaresArePositions(b);
    var spots := EmptySquares(b);
    assert c in spots;
    var kc :| 0 <= kc < |spots| && spots[kc] == c;
    var k := ValueIsFirstBest(b, Computer);
    var moves := Candidates(b, Computer, spots);
    // The reply to c finds a complete computer line and no human line.
    var after := Place(b, c, Computer);
    PlaceKeepsOtherLines(b, c, Computer);
    ValueOfTerminal(after, Human);
    CandidateAt(b, Computer, spots, kc);
    assert moves[kc].score == ComputerWins;
    // The chosen score is the maximum, so it is 10, and the first 10 is at c.
    assert Value(b, Computer).score == ComputerWins;
    CandidateAt(b, Computer, spots, k);
    assert k == kc;
  }

  /** X on cells 0 and 1, O on cells 3 and 4: no line is complete, and an X
      on cell 2 completes the top row. */
  lemma TopRowOpen(b: seq<Cell>)
    requires b == [Mark(Computer), Mark(Computer), Num(2), Mark(Human), Mark(Human),
                   Num(5), Num(6), Num(7), Num(8)]
    ensures WellFormed(b) && !HasLine(b, Human) && !HasLine(b, Computer)
    ensures HasLine(Place(b, 2, Computer), Computer)
  {
    forall j | 0 <= j < |WinCombos| ensures !LineOf(b, Human, j) && !LineOf(b, Computer, j) {
      assert WinCombos[j][0] in WinCombos[j] && WinCombos[j][2] in WinCombos[j];
    }
    assert LineOf(Place(b, 2, Computer), Computer, 0);
  }

  /** X on cells 0 and 1, O on cells 3 and 4, the computer to move: it
      completes the top row at cell 2. */
  lemma TakesTopRow()
    ensures Value([Mark(Computer), Mark(Computer), Num(2), Mark(Human), Mark(Human),
                   Num(5), Num(6), Num(7), Num(8)], Computer) == Move(Some(2), ComputerWins)
  {
    var b := [Mark(Computer), Mark(Computer), Num(2), Mark(Human), Mark(Human),
              Num(5), Num(6), Num(7), Num(8)];
    TopRowOpen(b);
    ImmediateWin(b, 2);
  }

  /** The human takes an immediate win: on a board with no complete line,
      when an empty cell c completes a human line, the human to move scores
      -10 (no candidate is below -10, and the one at c reaches it). */
  lemma HumanTakesWin(b: seq<Cell>, c: int)
    requires WellFormed(b) && !HasLine(b, Human) && !HasLine(b, Computer)
    requires 0 <= c < |b| && b[c].Num?
    requires HasLine(Place(b, c, Human), Human)
    ensures Value(b, Human).score == HumanWins
  {
    EmptySquaresArePositions(b);
    var spots := EmptySquares(b);
    assert c in spots;
    var kc :| 0 <= kc < |spots| && spots[kc] == c;
    var k := ValueIsFirstBest(b, Human);
    ValueOfTerminal(Place(b, c, Human), Computer);
    CandidateAt(b, Human, spots, kc);
  }

  /** A line complete for p after marking c stays complete when another
      empty cell s is marked first: s cannot lie on that line, since it
      still holds its number after c is marked. */
  lemma LineSurvives(b: seq<Cell>, c: int, s: int, p: Player, q: Player)
    requires 0 <= c < |b| && 0 <= s < |b| && s != c && b[s].Num?
    requires HasLine(Place(b, c, p), p)
    ensures HasLine(Place(Place(b, s, q), c, p), p)
  {
    var j :| 0 <= j < |WinCombos| && LineOf(Place(b, c, p), p, j);
    assert LineOf(Place(Place(b, s, q), c, p), p, j);
  }

  /** On the board of a forced block (no line yet, marking c completes a
      human line, no single computer mark completes a computer line), every
      empty cell s other than c loses for the computer: the human replies at
      c and scores -10. */
  lemma OtherCellLoses(b: seq<Cell>, c: int, s: int)
    requires WellFormed(b) && !HasLine(b, Human)
    requires 0 <= c < |b| && b[c].Num? && HasLine(Place(b, c, Human), Human)
    requires 0 <= s < |b| && s != c && b[s].Num? && !HasLine(Place(b, s, Computer), Computer)
    ensures Value(Place(b, s, Computer), Human).score == HumanWins
  {
    PlaceKeepsOtherLines(b, s, Computer);
    LineSurvives(b, c, s, Human, Computer);
    HumanTakesWin(Place(b, s, Computer), c);
  }

  /** Under the same conditions, every candidate of the computer at a cell
      other than c scores -10. */
  lemma NonBlockLoses(b: seq<Cell>, c: int, k: int)
    requires WellFormed(b) && !HasLine(b, Human) && AllEmpty(b, EmptySquares(b))
    requires 0 <= c < |b| && b[c].Num? && HasLine(Place(b, c, Human), Human)
    requires 0 <= k < |EmptySquares(b)| && EmptySquares(b)[k] != c
    requires !HasLine(Place(b, EmptySquares(b)[k], Computer), Computer)
    ensures Candidates(b, Computer, EmptySquares(b))[k].score == HumanWins
  {
    var spots := EmptySquares(b);
    OtherCellLoses(b, c, spots[k]);
    CandidateAt(b, Computer, spots, k);
  }

  /** The computer blocks unless every move loses. On a board with no
      complete line, let marking the empty cell c complete a human line, and
      let no single computer mark complete a computer line. Then the
      computer takes c, or else every move scores -10 and, as the scan keeps
      only strict improvements, it takes the first empty square. */
  lemma BlockOrLose(b: seq<Cell>, c: int)
    requires WellFormed(b) && !HasLine(b, Human) && !HasLine(b, Computer)
    requires 0 <= c < |b| && b[c].Num? && HasLine(Place(b, c, Human), Human)
    requires forall j | 0 <= j < |b| && b[j].Num? :: !HasLine(Place(b, j, Computer), Computer)
    ensures Value(b, Computer).index == Some(c) ||
      (Value(b, Computer).score == HumanWins && |EmptySquares(b)| > 0 &&
       Value(b, Computer).index == Some(EmptySquares(b)[0]))
  {
    EmptySquaresArePositions(b);
    assert c in EmptySquares(b);
    var k := ValueIsCandidate(b, Computer);
    if EmptySquares(b)[k] != c {
      NonBlockLoses(b, c, k);
      LosingChoiceIsFirst(b);
    }
  }

  /** A forced block: when the threatened cell c is also the first empty
      cell, the computer takes it. */
  lemma ForcedBlock(b: seq<Cell>, c: int)
    requires WellFormed(b) && !HasLine(b, Human) && !HasLine(b, Computer)
    requires 0 <= c < |b| && b[c].Num? && forall j | 0 <= j < c :: !b[j].Num?
    requires HasLine(Place(b, c, Human), Human)
    requires forall j | 0 <= j < |b| && b[j].Num? :: !HasLine(Place(b, j, Computer), Computer)
    ensures Value(b, Computer).index == Some(c)
  {
    FirstEmptyFirst(b, c);
    BlockOrLose(b, c);
  }

  /** O on cells 0 and 1, X on cell 3: no line is complete, an O on cell 2
      completes the top row, and no single X completes a computer line. */
  lemma TopRowThreat(b: seq<Cell>)
    requires b == [Mark(Human), Mark(Human), Num(2), Mark(Computer), Num(4),
                   Num(5), Num(6), Num(7), Num(8)]
    ensures WellFormed(b) && !HasLine(b, Human) && !HasLine(b, Computer)
    ensures HasLine(Place(b, 2, Human), Human)
    ensures forall j | 0 <= j < |b| && b[j].Num? :: !HasLine(Place(b, j, Computer), Computer)
  {
    forall l | 0 <= l < |WinCombos| ensures !LineOf(b, Human, l) && !LineOf(b, Computer, l) {
      assert WinCombos[l][0] in WinCombos[l] && WinCombos[l][2] in WinCombos[l];
    }
    assert LineOf(Place(b, 2, Human), Human, 0);
    forall j, l | 0 <= j < |b| && b[j].Num? && 0 <= l < |WinCombos|
      ensures !LineOf(Place(b, j, Computer), Computer, l)
    {
      assert WinCombos[l][0] in WinCombos[l] && WinCombos[l][1] in WinCombos[l] && WinCombos[l][2] in WinCombos[l];
    }
  }

  /** O on cells 0 and 1, X on cell 3, the computer to move: it blocks the
      top row at cell 2. */
  lemma TakesBlock()
    ensures Value([Mark(Human), Mark(Human), Num(2), Mark(Computer), Num(4),
                   Num(5), Num(6), Num(7), Num(8)], Computer).index == Some(2)
  {
    var b := [Mark(Human), Mark(Human), Num(2), Mark(Computer), Num(4),
              Num(5), Num(6), Num(7), Num(8)];
    TopRowThreat(b);
    ForcedBlock(b, 2);
  }

  /** The selection loops of minimax, with their sentinels: the computer keeps
      the first strictly greatest score, the human the first strictly least. */
  method SelectBest(moves: seq<Move>, player: Player) returns (bestMove: Option<nat>)
    ensures bestMove == Scan(moves, player).at
  {
    var bestScore: int;
    bestMove := None;
    if player == Computer {
      bestScore := -10000;
      for i := 0 to |moves|
        invariant Best(bestScore, bestMove) == Scan(moves[..i], player)
      {
        assert moves[..i + 1][..i] == moves[..i];
        if moves[i].score > bestScore {
          bestScore := moves[i].score;
          bestMove := Some(i);
        }
      }
    } else {
      bestScore := 10000;
      for i := 0 to |moves|
        invariant Best(bestScore, bestMove) == Scan(moves[..i], player)
      {
        assert moves[..i + 1][..i] == moves[..i];
        if moves[i].score < bestScore {
          bestScore := moves[i].score;
          bestMove := Some(i);
        }
      }
    }
    assert moves[..|moves|] == moves;
  }

  /** minimax: searches the board in place and returns Value of it, with the
      board left exactly as it was found. The empty squares are those of the
      board being searched. */
  method Minimax(board: array<Cell>, player: Player) returns (m: Move)
    requires WellFormed(board[..])
    modifies board
    decreases |EmptySquares(board[..])|, 3
    ensures board[..] == old(board[..])
    ensures m == Value(old(board[..]), player)
  {
    var availSpots := EmptySquares(board[..]);
    if CheckWin(board[..], Human).Some? {
      return Move(None, HumanWins);
    } else if CheckWin(board[..], Computer).Some? {
      return Move(None, ComputerWins);
    } else if |availSpots| == 0 {
      return Move(None, Draw);
    }
    m := BestOf(board, player, availSpots);
  }

  /** The searching half of minimax on a board that is not terminal: record a
      move per available spot, then select the first best one. */
  method BestOf(board: array<Cell>, player: Player, availSpots: seq<int>) returns (m: Move)
    requires WellFormed(board[..]) && availSpots == EmptySquares(board[..]) && availSpots != []
    requires CheckWin(board[..], Human).None? && CheckWin(board[..], Computer).None?
    modifies board
    decreases |EmptySquares(board[..])|, 2
    ensures board[..] == old(board[..])
    ensures m == Value(old(board[..]), player)
  {
    EmptySquaresArePositions(board[..]);
    var moves := RecordMoves(board, player, availSpots);
    CandidateAt(board[..], player, availSpots, 0);
    var bestMove := SelectBest(moves, player);
    assert Beats(player, moves[0].score, Sentinel(player));
    m := moves[bestMove.value];
  }

  /** The search loop of minimax: try each available spot in turn and record
      the move it yields, leaving the board unchanged. */
  method RecordMoves(board: array<Cell>, player: Player, availSpots: seq<int>) returns (moves: seq<Move>)
    requires WellFormed(board[..]) && AllEmpty(board[..], availSpots)
    modifies board
    decreases |EmptySquares(board[..])|, 1
    ensures board[..] == old(board[..])
    ensures moves == Candidates(old(board[..]), player, availSpots)
  {
    ghost var start := board[..];
    moves := [];
    for i := 0 to |availSpots|
      invariant board[..] == start
      invariant moves == Candidates(start, player, availSpots[..i])
    {
      var move := TryCell(board, player, availSpots[i]);
      assert availSpots[..i + 1][..i] == availSpots[..i];
      moves := moves + [move];
    }
    assert availSpots[..|availSpots|] == availSpots;
  }

  /** One pass of the search loop: mark the spot for the player, search the
      reply, and write the cell's previous content (its own number) back.
      The recorded index is that previous content. */
  method TryCell(board: array<Cell>, player: Player, spot: int) returns (move: Move)
    requires WellFormed(board[..])
    requires 0 <= spot < board.Length && board[spot].Num?
    modifies board
    decreases |EmptySquares(board[..])|, 0
    ensures board[..] == old(board[..])
    ensures move == Move(Some(spot), Value(Place(old(board[..]), spot, player), Other(player)).score)
  {
    ghost var start := board[..];
    var prior := board[spot];
    board[spot] := Mark(player);
    assert board[..] == Place(start, spot, player);
    var result;
    if player == Computer {
      result := Minimax(board, Human);
    } else {
      result := Minimax(board, Computer);
    }
    move := Move(Some(prior.n), result.score);
    board[spot] := prior;
    assert board[..] == start;
  }
}
