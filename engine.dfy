/**
 * The computer player: the minimax search over the shared board, which marks
 * a cell, searches the reply and unmarks the cell again, and the move choice
 * of the computer's turn.
 */
module Engine {
  import opened Rules
  import opened Board
  import opened GameTree

  /**
   * minimax: the returned move is the pure Search of the board, and every mark
   * placed while searching has been removed again.
   */
  method Minimax(state: array2<int>, depth: nat, player: int) returns (best: Move)
    requires Is3x3(state)
    modifies state
    ensures Snapshot(state) == old(Snapshot(state))
    ensures best == Search(old(Snapshot(state)), depth, player)
    decreases depth, 1
  {
    ghost var g := Snapshot(state);
    if player == COMP {
      best := Move(-1, -1, -1000);
    } else {
      best := Move(-1, -1, 1000);
    }
    var over := GameOverAll(state);
    if depth == 0 || over {
      var score := Evaluate(state);
      return Move(-1, -1, score);
    }
    var cells := EmptyCells(state);
    for i := 0 to |cells|
      invariant Snapshot(state) == g
      invariant best == Scan(g, depth, player, i)
    {
      assert cells[i] in cells;
      best := TryCell(state, depth, player, cells[i], best);
    }
  }

  /**
   * The body of the scan over the empty cells: mark the cell, search the reply,
   * unmark the cell, and keep the child's score with this cell's coordinates
   * when it is strictly better than the best so far.
   */
  method TryCell(state: array2<int>, depth: nat, player: int, cell: Cell, best: Move) returns (next: Move)
    requires Is3x3(state) && 0 < depth
    requires InRange(cell) && At(Snapshot(state), cell) == EMPTY
    modifies state
    ensures Snapshot(state) == old(Snapshot(state))
    ensures var s := Search(Place(old(Snapshot(state)), cell, player), depth - 1, -player).score;
      next == if Better(player, s, best.score) then Move(cell.x, cell.y, s) else best
    decreases depth, 0
  {
    ghost var g := Snapshot(state);
    var x, y := cell.x, cell.y;
    state[x, y] := player;
    SameCells(Snapshot(state), Place(g, cell, player));
    var score := Minimax(state, depth - 1, -player);
    state[x, y] := EMPTY;
    SameCells(Snapshot(state), g);
    score := score.(x := x, y := y);
    next := best;
    if player == COMP {
      if score.score > best.score {
        next := score;
      }
    } else {
      if score.score < best.score {
        next := score;
      }
    }
  }

  /**
   * aiTurn: on a clear board the computer plays the given opening cell (drawn at
   * random by the game); otherwise it plays the move of a search as deep as the
   * number of empty cells. The move is placed exactly when the board still has
   * an empty cell and nobody has a line.
   */
  method AiTurn(state: array2<int>, openX: int, openY: int) returns (x: int, y: int, placed: bool)
    requires Is3x3(state)
    requires 0 <= openX < 3 && 0 <= openY < 3
    modifies state
    ensures var g := old(Snapshot(state));
      placed <==> |FreeCells(g)| > 0 && !Terminal(g)
    ensures var g := old(Snapshot(state));
      placed ==> InRange(Cell(x, y)) && At(g, Cell(x, y)) == EMPTY && Snapshot(state) == Place(g, Cell(x, y), COMP)
    ensures !placed ==> Snapshot(state) == old(Snapshot(state))
    ensures var g := old(Snapshot(state));
      |FreeCells(g)| == 9 ==> x == openX && y == openY
    ensures var g := old(Snapshot(state)); var m := Search(g, |FreeCells(g)|, COMP);
      |FreeCells(g)| < 9 ==> x == m.x && y == m.y
    ensures var g := old(Snapshot(state)); var free := FreeCells(g);
      0 < |free| < 9 && !Terminal(g) ==>
        exists k :: FirstOptimal(COMP, ChildValues(g, |free|, COMP, |free|), k) && free[k] == Cell(x, y)
  {
    var g := Snapshot(state);
    var cells := EmptyCells(state);
    FreeCountFull(g);
    if |cells| == 9 {
      EmptyBoardIsOpen();
      x, y := openX, openY;
    } else {
      var move := Minimax(state, |cells|, COMP);
      x, y := move.x, move.y;
      if |cells| > 0 && !Terminal(g) {
        SearchPlaysFirstOptimal(g, |cells|, COMP);
      }
    }
    placed := SetMove(x, y, COMP, state);
  }
}
