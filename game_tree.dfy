/**
 * The minimax search as pure functions over board snapshots.
 *
 * Search and Scan follow the search step by step: a leaf is scored by the
 * evaluation, an inner position scans the empty cells in row-major order and
 * keeps a running best move that starts at a sentinel of +-1000 and is replaced
 * only by a strictly better child. Value is an independent reference: the
 * textbook minimax value, the maximum (COMP to move) or minimum (otherwise)
 * of the children's values.
 */
module GameTree {
  import opened Rules

  /** A chosen cell and its score; (-1, -1) when no cell was chosen. */
  datatype Move = Move(x: int, y: int, score: int)

  /** The score the running best starts from: worse than any real score. */
  function Sentinel(player: int): (s: int)
    ensures forall v :: -1 <= v <= 1 ==> Better(player, v, s)
  {
    if player == COMP then -1000 else 1000
  }

  /** a is strictly better than b for the player to move: higher for COMP, lower otherwise. */
  predicate Better(player: int, a: int, b: int)
    ensures Better(player, a, b) ==> a != b
  {
    if player == COMP then a > b else a < b
  }

  /** The move the search returns: mirrors the control flow of the search step by step. */
  function Search(g: Grid, depth: nat, player: int): (m: Move)
    ensures -1000 <= m.score <= 1000
    decreases depth, 1
  {
    if depth == 0 || Terminal(g) then Move(-1, -1, Score(g))
    else Scan(g, depth, player, |FreeCells(g)|)
  }

  /** The running best after the first n empty cells have been tried. */
  function Scan(g: Grid, depth: nat, player: int, n: nat): (m: Move)
    requires 0 < depth && n <= |FreeCells(g)|
    ensures -1000 <= m.score <= 1000
    decreases depth, 0, n
  {
    if n == 0 then Move(-1, -1, Sentinel(player))
    else
      var best := Scan(g, depth, player, n - 1);
      var c := FreeCells(g)[n - 1];
      var score := Search(Place(g, c, player), depth - 1, -player).score;
      if Better(player, score, best.score) then Move(c.x, c.y, score) else best
  }

  // ---------------------------------------------------------------------
  // Reference minimax value

  function MaxOf(vs: seq<int>): (m: int)
    requires |vs| > 0
    ensures m in vs && forall i :: 0 <= i < |vs| ==> vs[i] <= m
  {
    if |vs| == 1 then vs[0]
    else
      var rest := MaxOf(vs[1..]);
      assert forall i :: 1 <= i < |vs| ==> vs[i] == vs[1..][i - 1];
      if vs[0] >= rest then vs[0] else rest
  }

  function MinOf(vs: seq<int>): (m: int)
    requires |vs| > 0
    ensures m in vs && forall i :: 0 <= i < |vs| ==> m <= vs[i]
  {
    if |vs| == 1 then vs[0]
    else
      var rest := MinOf(vs[1..]);
      assert forall i :: 1 <= i < |vs| ==> vs[i] == vs[1..][i - 1];
      if vs[0] <= rest then vs[0] else rest
  }

  /** The value the player to move can force from children worth vs; the sentinel when there are none. */
  function Optimum(player: int, vs: seq<int>): (v: int)
    ensures vs != [] ==> v in vs
    ensures forall i :: 0 <= i < |vs| ==> !Better(player, vs[i], v)
  {
    if vs == [] then Sentinel(player)
    else if player == COMP then MaxOf(vs)
    else MinOf(vs)
  }

  /** The minimax value of a position searched to the given depth. */
  function Value(g: Grid, depth: nat, player: int): (v: int)
    ensures -1000 <= v <= 1000
    decreases depth, 1
  {
    if depth == 0 || Terminal(g) then Score(g)
    else Optimum(player, ChildValues(g, depth, player, |FreeCells(g)|))
  }

  /** The values of the children for the first n empty cells in row-major order. */
  function ChildValues(g: Grid, depth: nat, player: int, n: nat): (vs: seq<int>)
    requires 0 < depth && n <= |FreeCells(g)|
    ensures |vs| == n
    ensures forall i :: 0 <= i < n ==> -1000 <= vs[i] <= 1000
    decreases depth, 0, n
  {
    if n == 0 then []
    else ChildValues(g, depth, player, n - 1) + [Value(Place(g, FreeCells(g)[n - 1], player), depth - 1, -player)]
  }

  /** Child i is worth the value of the board after the player marks the i-th empty cell. */
  lemma {:induction false} ChildValue(g: Grid, depth: nat, player: int, n: nat, i: nat)
    requires 0 < depth && i < n <= |FreeCells(g)|
    ensures ChildValues(g, depth, player, n)[i] == Value(Place(g, FreeCells(g)[i], player), depth - 1, -player)
    decreases n
  {
    if i < n - 1 {
      ChildValue(g, depth, player, n - 1, i);
    }
  }

  /** Extending the children by one value updates the optimum as a strict running best does. */
  lemma OptimumSnoc(player: int, vs: seq<int>, v: int)
    requires -1000 <= v <= 1000
    ensures Optimum(player, vs + [v]) ==
      if Better(player, v, Optimum(player, vs)) then v else Optimum(player, vs)
  {
    var ws := vs + [v];
    var o := Optimum(player, ws);
    assert ws[|vs|] == v;
    assert forall i :: 0 <= i < |vs| ==> ws[i] == vs[i];
    if vs != [] {
      var p := Optimum(player, vs);
      var k :| 0 <= k < |vs| && vs[k] == p;
      assert ws[k] == p;
    }
  }

  // ---------------------------------------------------------------------
  // The search computes the reference value

  /** The score the search returns is the minimax value. */
  lemma SearchScoreIsValue(g: Grid, depth: nat, player: int)
    ensures Search(g, depth, player).score == Value(g, depth, player)
    decreases depth, 1
  {
    if !(depth == 0 || Terminal(g)) {
      ScanIsOptimum(g, depth, player, |FreeCells(g)|);
    }
  }

  /** After n cells the running best holds the optimum of the first n children. */
  lemma ScanIsOptimum(g: Grid, depth: nat, player: int, n: nat)
    requires 0 < depth && n <= |FreeCells(g)|
    ensures Scan(g, depth, player, n).score == Optimum(player, ChildValues(g, depth, player, n))
    decreases depth, 0, n
  {
    if n > 0 {
      var c := FreeCells(g)[n - 1];
      var child := Place(g, c, player);
      ScanIsOptimum(g, depth, player, n - 1);
      SearchScoreIsValue(child, depth - 1, -player);
      var prev := ChildValues(g, depth, player, n - 1);
      var v := Value(child, depth - 1, -player);
      assert ChildValues(g, depth, player, n) == prev + [v];
      var best := Scan(g, depth, player, n - 1);
      var s := Search(child, depth - 1, -player).score;
      assert s == v;
      assert Scan(g, depth, player, n) == if Better(player, s, best.score) then Move(c.x, c.y, s) else best;
      OptimumSnoc(player, prev, v);
      assert best.score == Optimum(player, prev);
    } else {
      assert ChildValues(g, depth, player, 0) == [];
    }
  }

  /**
   * Index k of vs holds the optimum of vs, and it is the first such index:
   * every earlier child is strictly worse.
   */
  predicate FirstOptimal(player: int, vs: seq<int>, k: int) {
    0 <= k < |vs| &&
    (forall j :: 0 <= j < |vs| ==> !Better(player, vs[j], vs[k])) &&
    (forall j :: 0 <= j < k ==> Better(player, vs[k], vs[j]))
  }

  /** Appending a child keeps the first optimal index, unless the new child is strictly better. */
  lemma FirstOptimalSnoc(player: int, vs: seq<int>, v: int, k: int)
    requires FirstOptimal(player, vs, k)
    ensures Better(player, v, vs[k]) ==> FirstOptimal(player, vs + [v], |vs|)
    ensures !Better(player, v, vs[k]) ==> FirstOptimal(player, vs + [v], k)
  {
    var ws := vs + [v];
    assert forall j :: 0 <= j < |vs| ==> ws[j] == vs[j];
    assert ws[|vs|] == v;
  }

  /**
   * When every child beats the sentinel, the running best is the child at the
   * first index k in scan order with the optimal value.
   */
  lemma {:induction false} ScanPicksFirstOptimal(g: Grid, depth: nat, player: int, n: nat) returns (k: nat)
    requires 0 < depth && 0 < n <= |FreeCells(g)|
    requires forall i :: 0 <= i < n ==> Better(player, ChildValues(g, depth, player, n)[i], Sentinel(player))
    ensures FirstOptimal(player, ChildValues(g, depth, player, n), k)
    ensures FreeCells(g)[k] == Cell(Scan(g, depth, player, n).x, Scan(g, depth, player, n).y)
    ensures Scan(g, depth, player, n).score == ChildValues(g, depth, player, n)[k]
    decreases n
  {
    var free := FreeCells(g);
    var c := free[n - 1];
    var child := Place(g, c, player);
    var vs := ChildValues(g, depth, player, n);
    var prev := ChildValues(g, depth, player, n - 1);
    var v := Value(child, depth - 1, -player);
    assert vs == prev + [v];
    SearchScoreIsValue(child, depth - 1, -player);
    var m := Scan(g, depth, player, n);
    var best := Scan(g, depth, player, n - 1);
    assert m == if Better(player, v, best.score) then Move(c.x, c.y, v) else best;
    if n == 1 {
      assert best.score == Sentinel(player);
      assert vs[0] == v;
      k := 0;
    } else {
      assert forall i :: 0 <= i < n - 1 ==> prev[i] == vs[i];
      var j := ScanPicksFirstOptimal(g, depth, player, n - 1);
      FirstOptimalSnoc(player, prev, v, j);
      if Better(player, v, best.score) {
        k := n - 1;
      } else {
        k := j;
      }
    }
  }

  // ---------------------------------------------------------------------
  // Searching to the number of empty cells

  /** Searching no deeper than the number of empty cells gives values in [-1, 1]. */
  lemma {:induction false} ValueInUnitRange(g: Grid, depth: nat, player: int)
    requires player == COMP || player == HUMAN
    requires depth <= |FreeCells(g)|
    ensures -1 <= Value(g, depth, player) <= 1
    ensures 0 < depth && !Terminal(g) ==>
      var vs := ChildValues(g, depth, player, |FreeCells(g)|);
      forall i :: 0 <= i < |vs| ==> -1 <= vs[i] <= 1
    decreases depth
  {
    if 0 < depth && !Terminal(g) {
      var free := FreeCells(g);
      var vs := ChildValues(g, depth, player, |free|);
      forall i | 0 <= i < |free|
        ensures -1 <= vs[i] <= 1
      {
        ChildValue(g, depth, player, |free|, i);
        assert free[i] in free;
        FreeCountAfterPlace(g, free[i], player);
        ValueInUnitRange(Place(g, free[i], player), depth - 1, -player);
      }
    }
  }

  /**
   * With a depth between 1 and the number of empty cells on an open board, the
   * search returns an empty cell of the board, never the sentinel: the first
   * cell in row-major order whose child value is optimal for the player, with
   * that value, the minimax value of the board, as its score.
   */
  lemma SearchPlaysFirstOptimal(g: Grid, depth: nat, player: int)
    requires player == COMP || player == HUMAN
    requires 0 < depth <= |FreeCells(g)| && !Terminal(g)
    ensures var m := Search(g, depth, player);
      var vs := ChildValues(g, depth, player, |FreeCells(g)|);
      m.score == Value(g, depth, player) && -1 <= m.score <= 1 &&
      InRange(Cell(m.x, m.y)) && At(g, Cell(m.x, m.y)) == EMPTY &&
      exists k :: FirstOptimal(player, vs, k) && FreeCells(g)[k] == Cell(m.x, m.y) && m.score == vs[k]
  {
    var free := FreeCells(g);
    SearchScoreIsValue(g, depth, player);
    ValueInUnitRange(g, depth, player);
    var k := ScanPicksFirstOptimal(g, depth, player, |free|);
    assert free[k] in free;
  }

  /**
   * An open board with two empty cells, (1, 2) and (2, 2), and the boards after
   * COMP marks one of them (A or B) and HUMAN the other (AB or BA).
   */
  const TwoLeft: Grid := [[1, -1, 1], [1, -1, 0], [-1, 1, 0]]
  const TwoLeftA: Grid := [[1, -1, 1], [1, -1, 1], [-1, 1, 0]]
  const TwoLeftAB: Grid := [[1, -1, 1], [1, -1, 1], [-1, 1, -1]]
  const TwoLeftB: Grid := [[1, -1, 1], [1, -1, 0], [-1, 1, 1]]
  const TwoLeftBA: Grid := [[1, -1, 1], [1, -1, -1], [-1, 1, 1]]

  /**
   * The depth bound of ValueInUnitRange cannot be dropped: searching TwoLeft
   * three levels deep reaches a full board with depth left, whose sentinel
   * survives to the top, and no cell is chosen.
   */
  lemma DeeperSearchPlaysNoCell()
    ensures !Terminal(TwoLeft) && |FreeCells(TwoLeft)| == 2 && Search(TwoLeft, 3, COMP) == Move(-1, -1, -1000)
  {
    var g := TwoLeft;
    var a, b := Cell(1, 2), Cell(2, 2);
    NoLineOnTheseBoards();
    // COMP marks a, then HUMAN marks b
    ReplyKeepsSentinel(g, a, b, TwoLeftA, TwoLeftAB);
    // COMP marks b, then HUMAN marks a
    ReplyKeepsSentinel(g, b, a, TwoLeftB, TwoLeftBA);
    FreeCellsUnrolled(g);
    FirstReplyKeepsSentinel(g, a, b);
  }

  /** The boards of the two lines of play above: none holds a line. */
  lemma NoLineOnTheseBoards()
    ensures !Terminal(TwoLeft) && !Terminal(TwoLeftA) && !Terminal(TwoLeftAB)
    ensures !Terminal(TwoLeftB) && !Terminal(TwoLeftBA)
  { }

  /**
   * On an open board with empty cells a and b, where HUMAN's reply to either
   * keeps the sentinel, COMP finds no strictly better score and no cell.
   */
  lemma FirstReplyKeepsSentinel(g: Grid, a: Cell, b: Cell)
    requires InRange(a) && InRange(b) && FreeCells(g) == [a, b] && !Terminal(g)
    requires Search(Place(g, a, COMP), 2, HUMAN).score == -1000
    requires Search(Place(g, b, COMP), 2, HUMAN).score == -1000
    ensures Search(g, 3, COMP) == Move(-1, -1, -1000)
  {
    assert Scan(g, 3, COMP, 1) == Move(-1, -1, -1000);
  }

  /**
   * COMP marks c, giving h, and HUMAN fills the last empty cell d, giving the
   * full board, which has no line: COMP meets it with depth left, so the
   * sentinel is HUMAN's score.
   */
  lemma ReplyKeepsSentinel(g: Grid, c: Cell, d: Cell, h: Grid, full: Grid)
    requires InRange(c) && InRange(d)
    requires forall i, j :: 0 <= i < 3 && 0 <= j < 3 ==> h[i][j] == if i == c.x && j == c.y then COMP else g[i][j]
    requires forall i, j :: 0 <= i < 3 && 0 <= j < 3 ==> full[i][j] == if i == d.x && j == d.y then HUMAN else h[i][j]
    requires forall i, j :: 0 <= i < 3 && 0 <= j < 3 ==> full[i][j] != EMPTY
    requires At(h, d) == EMPTY && !Terminal(h) && !Terminal(full)
    ensures Search(Place(g, c, COMP), 2, HUMAN).score == -1000
  {
    SameCells(Place(g, c, COMP), h);
    SameCells(Place(h, d, HUMAN), full);
    FreeCellsUnrolled(full);
    assert FreeCells(full) == [];
    FreeCellsUnrolled(h);
    assert FreeCells(h) == [d];
    assert Search(full, 1, COMP) == Move(-1, -1, -1000);
    assert Scan(h, 2, HUMAN, 1).score == -1000;
  }
}
