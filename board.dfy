/**
 * The board operations of the game, over the shared mutable 3x3 board.
 * Each operation is proved against the pure rules in module Rules, applied
 * to a snapshot of the board.
 */
module Board {
  import opened Rules

  predicate Is3x3(state: array2<int>) {
    state.Length0 == 3 && state.Length1 == 3
  }

  /** The current contents of the board as a pure value. */
  function Snapshot(state: array2<int>): (g: Grid)
    requires Is3x3(state)
    reads state
    ensures forall i, j :: 0 <= i < 3 && 0 <= j < 3 ==> g[i][j] == state[i, j]
  {
    [ [state[0, 0], state[0, 1], state[0, 2]],
      [state[1, 0], state[1, 1], state[1, 2]],
      [state[2, 0], state[2, 1], state[2, 2]] ]
  }

  /** gameOver: scans the eight lines, counting the cells of each that hold player. */
  method GameOver(state: array2<int>, player: int) returns (won: bool)
    requires Is3x3(state)
    ensures won == Wins(Snapshot(state), player)
  {
    var winState := WinState(Snapshot(state));
    WinStateIsEveryLine(Snapshot(state), player);
    for i := 0 to 8
      invariant forall k :: 0 <= k < i ==> !Uniform(winState[k], player)
    {
      var line := winState[i];
      var filled := 0;
      for j := 0 to 3
        invariant 0 <= filled <= j
        invariant filled == j <==> forall m :: 0 <= m < j ==> line[m] == player
      {
        if line[j] == player {
          filled := filled + 1;
        }
      }
      if filled == 3 {
        return true;
      }
    }
    return false;
  }

  /** gameOverAll: either player has a line. */
  method GameOverAll(state: array2<int>) returns (over: bool)
    requires Is3x3(state)
    ensures over == Terminal(Snapshot(state))
  {
    over := GameOver(state, HUMAN);
    if !over {
      over := GameOver(state, COMP);
    }
  }

  /** evalute: COMP's line is checked first, then HUMAN's. */
  method Evaluate(state: array2<int>) returns (score: int)
    requires Is3x3(state)
    ensures score == Score(Snapshot(state))
  {
    var comp := GameOver(state, COMP);
    if comp {
      score := 1;
    } else {
      var human := GameOver(state, HUMAN);
      if human {
        score := -1;
      } else {
        score := 0;
      }
    }
  }

  /** emptyCells: row by row, column by column, collects the cells holding 0. */
  method EmptyCells(state: array2<int>) returns (cells: seq<Cell>)
    requires Is3x3(state)
    ensures cells == FreeCells(Snapshot(state))
  {
    ghost var g := Snapshot(state);
    cells := [];
    for x := 0 to 3
      invariant cells == FreeAmong(g, 3 * x)
    {
      for y := 0 to 3
        invariant cells == FreeAmong(g, 3 * x + y)
      {
        FreePrefixStep(g, x, y);
        if state[x, y] == EMPTY {
          cells := cells + [Cell(x, y)];
        }
      }
    }
    FreeAmongAll(g);
  }

  /**
   * validMove: the coordinates name a cell of the board and that cell is empty.
   * An index outside the board is a failed lookup, which counts as invalid.
   */
  function ValidMove(x: int, y: int, state: array2<int>): (valid: bool)
    requires Is3x3(state)
    reads state
    ensures valid <==> Cell(x, y) in FreeCells(Snapshot(state))
  {
    0 <= x < 3 && 0 <= y < 3 && state[x, y] == EMPTY
  }

  /** setMove: writes player into a valid cell and reports whether it did. */
  method SetMove(x: int, y: int, player: int, state: array2<int>) returns (ok: bool)
    requires Is3x3(state)
    modifies state
    ensures ok == old(ValidMove(x, y, state))
    ensures ok ==> Snapshot(state) == Place(old(Snapshot(state)), Cell(x, y), player)
    ensures !ok ==> Snapshot(state) == old(Snapshot(state))
  {
    ghost var g := Snapshot(state);
    if ValidMove(x, y, state) {
      state[x, y] := player;
      SameCells(Snapshot(state), Place(g, Cell(x, y), player));
      ok := true;
    } else {
      ok := false;
    }
  }

  /** The clearing loop of the restart button: every cell becomes 0. */
  method Reset(state: array2<int>)
    requires Is3x3(state)
    modifies state
    ensures Snapshot(state) == EmptyBoard
  {
    for x := 0 to 3
      invariant forall i, j :: 0 <= i < x && 0 <= j < 3 ==> state[i, j] == EMPTY
    {
      for y := 0 to 3
        invariant forall i, j :: 0 <= i < x && 0 <= j < 3 ==> state[i, j] == EMPTY
        invariant forall j :: 0 <= j < y ==> state[x, j] == EMPTY
      {
        state[x, y] := EMPTY;
      }
    }
    SameCells(Snapshot(state), EmptyBoard);
  }
}
