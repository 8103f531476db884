/**
 * The rules of 3x3 tic-tac-toe as pure functions over snapshots of the board.
 * A snapshot is a 3x3 sequence of rows; a cell holds EMPTY (0), HUMAN (-1)
 * or COMP (1), although nothing below relies on the marks being only those.
 */
module Rules {

  const HUMAN: int := -1
  const COMP: int := 1
  const EMPTY: int := 0

  /** A board snapshot: three rows of three cells, row index first. */
  type Grid = g: seq<seq<int>> | |g| == 3 && forall i :: 0 <= i < 3 ==> |g[i]| == 3
    witness [[0, 0, 0], [0, 0, 0], [0, 0, 0]]

  const EmptyBoard: Grid := [[0, 0, 0], [0, 0, 0], [0, 0, 0]]

  /** A coordinate pair (row x, column y). */
  datatype Cell = Cell(x: int, y: int)

  predicate InRange(c: Cell) {
    0 <= c.x < 3 && 0 <= c.y < 3
  }

  function At(g: Grid, c: Cell): int
    requires InRange(c)
  {
    g[c.x][c.y]
  }

  /** The snapshot with cell c set to v. */
  function Place(g: Grid, c: Cell, v: int): (h: Grid)
    requires InRange(c)
    ensures forall i, j :: 0 <= i < 3 && 0 <= j < 3 ==>
      h[i][j] == if i == c.x && j == c.y then v else g[i][j]
  {
    g[c.x := g[c.x][c.y := v]]
  }

  /** Two snapshots that agree on every cell are equal. */
  lemma SameCells(g: Grid, h: Grid)
    requires forall i, j :: 0 <= i < 3 && 0 <= j < 3 ==> g[i][j] == h[i][j]
    ensures g == h
  {
    assert g[0] == h[0] && g[1] == h[1] && g[2] == h[2];
  }

  // ---------------------------------------------------------------------
  // Winning lines

  predicate RowOf(g: Grid, p: int, r: int)
    requires 0 <= r < 3
  {
    g[r][0] == p && g[r][1] == p && g[r][2] == p
  }

  predicate ColumnOf(g: Grid, p: int, c: int)
    requires 0 <= c < 3
  {
    g[0][c] == p && g[1][c] == p && g[2][c] == p
  }

  predicate DiagonalOf(g: Grid, p: int) {
    g[0][0] == p && g[1][1] == p && g[2][2] == p
  }

  predicate AntiDiagonalOf(g: Grid, p: int) {
    g[2][0] == p && g[1][1] == p && g[0][2] == p
  }

  /** Player p owns a whole row, a whole column or a whole diagonal. */
  predicate Wins(g: Grid, p: int) {
    (exists r :: 0 <= r < 3 && RowOf(g, p, r)) ||
    (exists c :: 0 <= c < 3 && ColumnOf(g, p, c)) ||
    DiagonalOf(g, p) || AntiDiagonalOf(g, p)
  }

  /** Either player has a line (a full board without a line is not terminal). */
  predicate Terminal(g: Grid) {
    Wins(g, HUMAN) || Wins(g, COMP)
  }

  /** The eight lines as the lists of cell values the search scans. */
  function WinState(g: Grid): (lines: seq<seq<int>>)
    ensures |lines| == 8 && forall k :: 0 <= k < 8 ==> |lines[k]| == 3
  {
    [ [g[0][0], g[0][1], g[0][2]],
      [g[1][0], g[1][1], g[1][2]],
      [g[2][0], g[2][1], g[2][2]],
      [g[0][0], g[1][0], g[2][0]],
      [g[0][1], g[1][1], g[2][1]],
      [g[0][2], g[1][2], g[2][2]],
      [g[0][0], g[1][1], g[2][2]],
      [g[2][0], g[1][1], g[0][2]] ]
  }

  predicate Uniform(line: seq<int>, p: int) {
    forall m :: 0 <= m < |line| ==> line[m] == p
  }

  /** The eight listed lines are exactly the three rows, three columns and two diagonals. */
  lemma WinStateIsEveryLine(g: Grid, p: int)
    ensures Wins(g, p) <==> exists k :: 0 <= k < 8 && Uniform(WinState(g)[k], p)
  {
    var lines := WinState(g);
    if Wins(g, p) {
      if r :| 0 <= r < 3 && RowOf(g, p, r) {
        assert Uniform(lines[r], p);
      } else if c :| 0 <= c < 3 && ColumnOf(g, p, c) {
        assert Uniform(lines[3 + c], p);
      } else if DiagonalOf(g, p) {
        assert Uniform(lines[6], p);
      } else {
        assert Uniform(lines[7], p);
      }
    }
    if k :| 0 <= k < 8 && Uniform(lines[k], p) {
      assert lines[k][0] == p && lines[k][1] == p && lines[k][2] == p;
      if k < 3 {
        assert RowOf(g, p, k);
      } else if k < 6 {
        assert ColumnOf(g, p, k - 3);
      }
    }
  }

  /** The heuristic evaluation: +1 when COMP has a line, else -1 when HUMAN has one, else 0. */
  function Score(g: Grid): (r: int)
    ensures -1 <= r <= 1
    ensures r == 1 <==> Wins(g, COMP)
    ensures r == -1 <==> Wins(g, HUMAN) && !Wins(g, COMP)
    ensures r == 0 <==> !Terminal(g)
  {
    if Wins(g, COMP) then 1 else if Wins(g, HUMAN) then -1 else 0
  }

  // ---------------------------------------------------------------------
  // Empty cells

  /** Position of a cell in row-major order. */
  function Key(c: Cell): int {
    3 * c.x + c.y
  }

  /** Every cell of the board, in row-major order. */
  const AllCells: seq<Cell> :=
    [Cell(0, 0), Cell(0, 1), Cell(0, 2), Cell(1, 0), Cell(1, 1), Cell(1, 2), Cell(2, 0), Cell(2, 1), Cell(2, 2)]

  /** AllCells lists each in-range cell once, at its row-major position. */
  lemma AllCellsFacts()
    ensures |AllCells| == 9
    ensures forall c :: c in AllCells <==> InRange(c)
    ensures forall i :: 0 <= i < 9 ==> InRange(AllCells[i]) && Key(AllCells[i]) == i
  {
  }

  predicate AllInRange(cs: seq<Cell>) {
    forall i :: 0 <= i < |cs| ==> InRange(cs[i])
  }

  predicate Increasing(cs: seq<Cell>) {
    forall i, j :: 0 <= i < j < |cs| ==> Key(cs[i]) < Key(cs[j])
  }

  /** The empty cells of g among cs, in the order of cs. */
  function Free(g: Grid, cs: seq<Cell>): seq<Cell>
    requires AllInRange(cs)
  {
    if cs == [] then []
    else
      var c := cs[|cs| - 1];
      Free(g, cs[..|cs| - 1]) + if At(g, c) == EMPTY then [c] else []
  }

  /** A cell is kept exactly when it is one of cs and it is empty. */
  lemma {:induction false} FreeMembers(g: Grid, cs: seq<Cell>)
    requires AllInRange(cs)
    ensures forall c :: c in Free(g, cs) <==> c in cs && At(g, c) == EMPTY
  {
    if cs != [] {
      var init := cs[..|cs| - 1];
      FreeMembers(g, init);
      assert cs == init + [cs[|cs| - 1]];
    }
  }

  /** Filtering keeps the order of cs. */
  lemma {:induction false} FreeIncreasing(g: Grid, cs: seq<Cell>)
    requires AllInRange(cs) && Increasing(cs)
    ensures Increasing(Free(g, cs))
  {
    if cs != [] {
      var init := cs[..|cs| - 1];
      FreeIncreasing(g, init);
      FreeMembers(g, init);
      var prev, r := Free(g, init), Free(g, cs);
      assert forall i :: 0 <= i < |prev| ==> r[i] == prev[i];
      forall i | 0 <= i < |prev|
        ensures Key(prev[i]) < Key(cs[|cs| - 1])
      {
        assert prev[i] in init;
      }
    }
  }

  /** At most |cs| cells are kept, and all of them exactly when every one of cs is empty. */
  lemma {:induction false} FreeCount(g: Grid, cs: seq<Cell>)
    requires AllInRange(cs)
    ensures |Free(g, cs)| <= |cs|
    ensures |Free(g, cs)| == |cs| <==> forall i :: 0 <= i < |cs| ==> At(g, cs[i]) == EMPTY
  {
    if cs != [] {
      var init := cs[..|cs| - 1];
      FreeCount(g, init);
      assert forall i :: 0 <= i < |init| ==> init[i] == cs[i];
    }
  }

  /** Filling an empty cell shortens the filtered list by one exactly when the cell is scanned. */
  lemma {:induction false} FreeAfterPlace(g: Grid, c: Cell, v: int, cs: seq<Cell>)
    requires InRange(c) && At(g, c) == EMPTY && v != EMPTY
    requires AllInRange(cs) && Increasing(cs)
    ensures |Free(Place(g, c, v), cs)| == |Free(g, cs)| - (if c in cs then 1 else 0)
  {
    if cs != [] {
      var init := cs[..|cs| - 1];
      FreeAfterPlace(g, c, v, init);
      assert cs == init + [cs[|cs| - 1]];
      if c in init {
        var i :| 0 <= i < |init| && init[i] == c;
        assert Key(init[i]) < Key(cs[|cs| - 1]);
      }
    }
  }

  /** Filling an empty cell takes exactly that cell out of the filtered list. */
  lemma FreeMembersAfterPlace(g: Grid, c: Cell, v: int, cs: seq<Cell>)
    requires InRange(c) && At(g, c) == EMPTY && v != EMPTY
    requires AllInRange(cs)
    ensures forall d :: d in Free(Place(g, c, v), cs) <==> d in Free(g, cs) && d != c
  {
    FreeMembers(g, cs);
    FreeMembers(Place(g, c, v), cs);
  }

  /** Every empty cell of the board, each once, in row-major order. */
  function FreeCells(g: Grid): (r: seq<Cell>)
    ensures forall c :: c in r <==> InRange(c) && At(g, c) == EMPTY
    ensures Increasing(r)
    ensures forall i, j :: 0 <= i < j < |r| ==> r[i] != r[j]
  {
    AllCellsFacts();
    FreeMembers(g, AllCells);
    FreeIncreasing(g, AllCells);
    Free(g, AllCells)
  }

  /** The empty cells among the first n cells in row-major order. */
  function FreeAmong(g: Grid, n: int): seq<Cell>
    requires 0 <= n <= 9
  {
    AllCellsFacts();
    Free(g, AllCells[..n])
  }

  /** The contribution of cell (x, y) to the scan: the cell itself when it holds 0. */
  function FreeAt(g: Grid, x: int, y: int): seq<Cell>
    requires 0 <= x < 3 && 0 <= y < 3
  {
    if g[x][y] == EMPTY then [Cell(x, y)] else []
  }

  /** Scanning one more cell in row-major order appends it when it is empty. */
  lemma FreePrefixStep(g: Grid, x: int, y: int)
    requires 0 <= x < 3 && 0 <= y < 3
    ensures FreeAmong(g, 3 * x + y + 1) == FreeAmong(g, 3 * x + y) + FreeAt(g, x, y)
  {
    AllCellsFacts();
    var n := 3 * x + y;
    var cs := AllCells[..n + 1];
    assert cs[..n] == AllCells[..n];
    assert cs[n] == AllCells[n] == Cell(x, y);
    assert Free(g, cs) == Free(g, cs[..n]) + if At(g, cs[n]) == EMPTY then [cs[n]] else [];
  }

  /** Scanning all nine cells lists every empty cell. */
  lemma FreeAmongAll(g: Grid)
    ensures FreeAmong(g, 9) == FreeCells(g)
  {
    assert AllCells[..9] == AllCells;
  }

  /** Scanning one more row appends its empty cells from left to right. */
  lemma FreeRowStep(g: Grid, x: int)
    requires 0 <= x < 3
    ensures FreeAmong(g, 3 * x + 3) == FreeAmong(g, 3 * x) + (FreeAt(g, x, 0) + FreeAt(g, x, 1) + FreeAt(g, x, 2))
  {
    FreePrefixStep(g, x, 0);
    FreePrefixStep(g, x, 1);
    FreePrefixStep(g, x, 2);
  }

  /** The list of empty cells is the nine contributions, row by row and column by column. */
  lemma FreeCellsUnrolled(g: Grid)
    ensures FreeCells(g) ==
      (FreeAt(g, 0, 0) + FreeAt(g, 0, 1) + FreeAt(g, 0, 2)) +
      (FreeAt(g, 1, 0) + FreeAt(g, 1, 1) + FreeAt(g, 1, 2)) +
      (FreeAt(g, 2, 0) + FreeAt(g, 2, 1) + FreeAt(g, 2, 2))
  {
    var r0 := FreeAt(g, 0, 0) + FreeAt(g, 0, 1) + FreeAt(g, 0, 2);
    var r1 := FreeAt(g, 1, 0) + FreeAt(g, 1, 1) + FreeAt(g, 1, 2);
    var r2 := FreeAt(g, 2, 0) + FreeAt(g, 2, 1) + FreeAt(g, 2, 2);
    assert AllCells[..0] == [];
    assert FreeAmong(g, 0) == [];
    FreeRowStep(g, 0);
    assert FreeAmong(g, 3) == r0;
    FreeRowStep(g, 1);
    assert FreeAmong(g, 6) == r0 + r1;
    FreeRowStep(g, 2);
    assert FreeAmong(g, 9) == r0 + r1 + r2;
    FreeAmongAll(g);
  }

  /** Nine empty cells exactly when the board is clear. */
  lemma FreeCountFull(g: Grid)
    ensures |FreeCells(g)| <= 9
    ensures |FreeCells(g)| == 9 <==> g == EmptyBoard
  {
    AllCellsFacts();
    FreeCount(g, AllCells);
    if |FreeCells(g)| == 9 {
      forall i, j | 0 <= i < 3 && 0 <= j < 3
        ensures g[i][j] == EmptyBoard[i][j]
      {
        assert AllCells[3 * i + j] == Cell(i, j);
      }
      SameCells(g, EmptyBoard);
    }
  }

  /** A placement on an empty cell leaves one empty cell fewer. */
  lemma FreeCountAfterPlace(g: Grid, c: Cell, v: int)
    requires InRange(c) && At(g, c) == EMPTY && v != EMPTY
    ensures |FreeCells(Place(g, c, v))| == |FreeCells(g)| - 1
  {
    AllCellsFacts();
    FreeAfterPlace(g, c, v, AllCells);
  }

  /** A cleared board has nine empty cells and no winner. */
  lemma EmptyBoardIsOpen()
    ensures |FreeCells(EmptyBoard)| == 9
    ensures !Terminal(EmptyBoard)
  {
    FreeCountFull(EmptyBoard);
  }
}
