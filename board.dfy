/** The Java Board: an n-by-n array of labels with the blank's position, the board
    it was reached from, the moves spent, the direction it was entered from and a
    cached text form. The pure definitions below specify what its methods compute. */
module Boards {
  import opened Grids
  import opened Render
  import opened Points
  import opened Wrappers

  const North: char := 'n'
  const East: char := 'e'
  const South: char := 's'
  const West: char := 'w'
  /** The value of an unset Java char field. */
  const NoDirection: char := 0 as char

  predicate IsDirection(d: char) {
    d == North || d == East || d == South || d == West
  }

  predicate InSquare(n: int, x: int, y: int) {
    0 <= x < n && 0 <= y < n
  }

  /** Row offset of a step toward d (x counts rows, growing southward). */
  function StepRow(d: char): int {
    if d == North then -1 else if d == South then 1 else 0
  }

  /** Column offset of a step toward d (y counts columns, growing eastward). */
  function StepCol(d: char): int {
    if d == East then 1 else if d == West then -1 else 0
  }

  /** The direction a child records as its origin after the blank stepped toward d. */
  function Opposite(d: char): (o: char)
    requires IsDirection(d)
    ensures IsDirection(o) && o != d
    ensures StepRow(o) == -StepRow(d) && StepCol(o) == -StepCol(d)
  {
    if d == North then South else if d == South then North else if d == East then West else East
  }

  /** [d] when neighbors() moves the blank at (x, y) toward d, else []: d is not the
      recorded origin and the step stays on the n-by-n board. */
  function Pick(n: int, x: int, y: int, from: char, d: char): (ds: seq<char>)
    ensures ds == [] || ds == [d]
  {
    if from != d && InSquare(n, x + StepRow(d), y + StepCol(d)) then [d] else []
  }

  /** The directions neighbors() moves the blank at (x, y) in, in its order north,
      east, south, west: every in-bounds step except toward the recorded origin. */
  function NeighborDirs(n: int, x: int, y: int, from: char): (ds: seq<char>)
    ensures |ds| <= 4
    ensures forall i, j :: 0 <= i < j < |ds| ==> ds[i] != ds[j]
    ensures forall d :: d in ds <==> IsDirection(d) && d != from && InSquare(n, x + StepRow(d), y + StepCol(d))
  {
    Pick(n, x, y, from, North) + Pick(n, x, y, from, East) + Pick(n, x, y, from, South) + Pick(n, x, y, from, West)
  }

  /** The grid after the blank at (x, y) steps toward d. */
  function StepGrid(g: Grid, x: int, y: int, d: char): (g': Grid)
    requires IsCell(g, x, y) && IsCell(g, x + StepRow(d), y + StepCol(d))
  {
    SwapCells(g, x, y, x + StepRow(d), y + StepCol(d))
  }

  /** A step keeps the labels on the board. */
  lemma StepKeepsTiles(g: Grid, x: int, y: int, d: char)
    requires IsCell(g, x, y) && IsCell(g, x + StepRow(d), y + StepCol(d))
    ensures Tiles(StepGrid(g, x, y, d)) == Tiles(g)
  {
    SwapKeepsTiles(g, x, y, x + StepRow(d), y + StepCol(d));
  }

  /** With a single blank, stepping it toward two different directions gives two
      different grids: the cell the first step empties still holds a tile after the
      second. */
  lemma StepGridsDiffer(g: Grid, n: nat, x: int, y: int, d: char, e: char)
    requires IsRect(g, n, n) && BlankOnlyAt(g, n, x, y)
    requires IsDirection(d) && IsDirection(e) && d != e
    requires InSquare(n, x + StepRow(d), y + StepCol(d)) && InSquare(n, x + StepRow(e), y + StepCol(e))
    ensures StepGrid(g, x, y, d) != StepGrid(g, x, y, e)
  {
    var xd, yd := x + StepRow(d), y + StepCol(d);
    assert StepGrid(g, x, y, d)[xd][yd] == 0;
    assert g[xd][yd] != 0;
    assert StepGrid(g, x, y, e)[xd][yd] == g[xd][yd];
  }

  /** The grid after one guarded step of Board.isSolvable's walk: the blank steps
      toward d when that stays on the n-by-n board, else nothing changes. */
  ghost function NudgeGrid(g: Grid, n: nat, x: int, y: int, d: char): (g': Grid)
    requires IsRect(g, n, n) && InSquare(n, x, y)
    ensures IsRect(g', n, n)
  {
    if InSquare(n, x + StepRow(d), y + StepCol(d)) then StepGrid(g, x, y, d) else g
  }

  /** The grid Board.isSolvable's walk leaves: east then south, each when possible,
      until the blank reaches the bottom-right corner. */
  ghost function CornerWalk(g: Grid, n: nat, x: int, y: int): (g': Grid)
    requires IsRect(g, n, n) && InSquare(n, x, y)
    ensures IsRect(g', n, n)
    decreases (n - 1 - x) + (n - 1 - y)
  {
    if x == n - 1 && y == n - 1 then g
    else
      var y' := if y < n - 1 then y + 1 else y;
      var x' := if x < n - 1 then x + 1 else x;
      CornerWalk(NudgeGrid(NudgeGrid(g, n, x, y, East), n, x, y', South), n, x', y')
  }

  /** On a board of side at least 2 the blank always has a move other than back toward
      where it came from, so neighbors() never returns an empty list. */
  lemma NeighborDirsNonEmpty(n: int, x: int, y: int, from: char)
    requires n >= 2 && InSquare(n, x, y)
    ensures |NeighborDirs(n, x, y, from)| >= 1
  {
    var ds := NeighborDirs(n, x, y, from);
    var vertical := if x > 0 then North else South;
    var horizontal := if y > 0 then West else East;
    if vertical != from {
      assert vertical in ds;
    } else {
      assert horizontal in ds;
    }
  }

  /** A one-cell board with a blank is the goal. */
  lemma SingleCellIsGoal(g: Grid, x: int, y: int)
    requires IsRect(g, 1, 1) && BlankOnlyAt(g, 1, x, y)
    ensures g == GoalGrid(1, 1)
  {
    RectEqual(g, GoalGrid(1, 1), 1, 1);
  }

  /** A child never undoes the move that made it: stepping back toward its recorded
      origin would restore the parent, and neighbors() skips exactly that direction;
      every step it does take leads to a grid other than the parent's. */
  lemma ChildNeverUndoes(g: Grid, n: nat, x: int, y: int, d: char, x': int, y': int)
    requires IsRect(g, n, n) && InSquare(n, x, y) && g[x][y] == 0
    requires forall r, c :: InSquare(n, r, c) && g[r][c] == 0 ==> r == x && c == y
    requires IsDirection(d) && x' == x + StepRow(d) && y' == y + StepCol(d) && InSquare(n, x', y')
    ensures StepGrid(StepGrid(g, x, y, d), x', y', Opposite(d)) == g
    ensures Opposite(d) !in NeighborDirs(n, x', y', Opposite(d))
    ensures forall e :: e in NeighborDirs(n, x', y', Opposite(d)) ==> StepGrid(StepGrid(g, x, y, d), x', y', e) != g
  {
    StepBackRestores(g, n, x, y, d, x', y');
    StepsAwayDiffer(g, n, x, y, d, x', y');
  }

  lemma StepBackRestores(g: Grid, n: nat, x: int, y: int, d: char, x': int, y': int)
    requires IsRect(g, n, n) && InSquare(n, x, y)
    requires IsDirection(d) && x' == x + StepRow(d) && y' == y + StepCol(d) && InSquare(n, x', y')
    ensures StepGrid(StepGrid(g, x, y, d), x', y', Opposite(d)) == g
  {
    SwapTwice(g, x, y, x', y');
  }

  lemma StepsAwayDiffer(g: Grid, n: nat, x: int, y: int, d: char, x': int, y': int)
    requires IsRect(g, n, n) && InSquare(n, x, y) && g[x][y] == 0
    requires forall r, c :: InSquare(n, r, c) && g[r][c] == 0 ==> r == x && c == y
    requires IsDirection(d) && x' == x + StepRow(d) && y' == y + StepCol(d) && InSquare(n, x', y')
    ensures forall e :: e in NeighborDirs(n, x', y', Opposite(d)) ==> StepGrid(StepGrid(g, x, y, d), x', y', e) != g
  {
    forall e | e in NeighborDirs(n, x', y', Opposite(d))
      ensures StepGrid(StepGrid(g, x, y, d), x', y', e) != g
    {
      OtherStepDiffers(g, n, x, y, d, e);
    }
  }

  /** From a child, a step other than back toward the parent's blank puts the blank
      on a cell where the parent holds a tile. */
  lemma OtherStepDiffers(g: Grid, n: nat, x: int, y: int, d: char, e: char)
    requires IsRect(g, n, n) && InSquare(n, x, y) && g[x][y] == 0
    requires forall r, c :: InSquare(n, r, c) && g[r][c] == 0 ==> r == x && c == y
    requires IsDirection(d) && InSquare(n, x + StepRow(d), y + StepCol(d))
    requires IsDirection(e) && e != Opposite(d)
    requires InSquare(n, x + StepRow(d) + StepRow(e), y + StepCol(d) + StepCol(e))
    ensures StepGrid(StepGrid(g, x, y, d), x + StepRow(d), y + StepCol(d), e) != g
  {
    var x', y' := x + StepRow(d), y + StepCol(d);
    var x2, y2 := x' + StepRow(e), y' + StepCol(e);
    var child := StepGrid(g, x, y, d);
    assert child[x'][y'] == g[x][y];
    assert !(x2 == x && y2 == y);
    assert StepGrid(child, x', y', e)[x2][y2] == child[x'][y'] == 0;
    assert g[x2][y2] != 0;
  }

  // ----- Hamming distance, as Board.hamming computes it -----

  /** 1 for a tile (not the blank) off its goal cell, else 0. */
  function HamCell(g: Grid, n: int, r: int, c: int): nat
    requires IsCell(g, r, c)
  {
    if g[r][c] != 0 && g[r][c] != GoalLabel(n, n, r, c) then 1 else 0
  }

  /** HamCell summed over the first k cells of row r. */
  function HamRow(g: Grid, n: int, r: int, k: int): nat
    requires 0 <= r < |g| && 0 <= k <= |g[r]|
  {
    if k == 0 then 0 else HamRow(g, n, r, k - 1) + HamCell(g, n, r, k - 1)
  }

  /** HamCell summed over the first k rows. */
  function HamRows(g: Grid, n: int, k: int): nat
    requires 0 <= k <= |g|
  {
    if k == 0 then 0 else HamRows(g, n, k - 1) + HamRow(g, n, k - 1, |g[k - 1]|)
  }

  /** The number of tiles off their goal cells. */
  function HammingOf(g: Grid, n: int): nat {
    HamRows(g, n, |g|)
  }

  // ----- Manhattan distance, as Board.manhattan computes it -----

  /** Where Board.manhattan's search finds label v on the goal board: the goal cell
      of v for labels 1 .. n*n-1, and (0, 0), its starting value, for any other label. */
  function ShouldPos(n: int, v: int): (int, int) {
    if 1 <= v < n * n then ((v - 1) / n, (v - 1) % n) else (0, 0)
  }

  /** The distance Board.manhattan adds for cell (r, c): none for the blank or a tile
      at its goal, else the taxicab distance to where the search found its label. */
  function ManCell(g: Grid, n: int, r: int, c: int): nat
    requires IsCell(g, r, c)
  {
    var v := g[r][c];
    if v != 0 && v != GoalLabel(n, n, r, c) then Dist(ShouldPos(n, v).0, ShouldPos(n, v).1, r, c) else 0
  }

  function ManRow(g: Grid, n: int, r: int, k: int): nat
    requires 0 <= r < |g| && 0 <= k <= |g[r]|
  {
    if k == 0 then 0 else ManRow(g, n, r, k - 1) + ManCell(g, n, r, k - 1)
  }

  function ManRows(g: Grid, n: int, k: int): nat
    requires 0 <= k <= |g|
  {
    if k == 0 then 0 else ManRows(g, n, k - 1) + ManRow(g, n, k - 1, |g[k - 1]|)
  }

  /** The summed distances of all tiles from their goal cells. */
  function ManhattanOf(g: Grid, n: int): nat {
    ManRows(g, n, |g|)
  }

  // ----- facts about the two heuristics -----

  /** The Hamming sum is zero exactly when every cell's term is. */
  lemma {:induction false} HamRowZero(g: Grid, n: int, r: int, k: int)
    requires 0 <= r < |g| && 0 <= k <= |g[r]|
    ensures HamRow(g, n, r, k) == 0 <==> forall c :: 0 <= c < k ==> HamCell(g, n, r, c) == 0
  {
    if k > 0 {
      HamRowZero(g, n, r, k - 1);
    }
  }

  lemma {:induction false} HamRowsZero(g: Grid, n: int, k: int)
    requires 0 <= k <= |g|
    ensures HamRows(g, n, k) == 0 <==> forall r, c :: 0 <= r < k && 0 <= c < |g[r]| ==> HamCell(g, n, r, c) == 0
  {
    if k > 0 {
      HamRowsZero(g, n, k - 1);
      HamRowZero(g, n, k - 1, |g[k - 1]|);
    }
  }

  lemma {:induction false} ManRowZero(g: Grid, n: int, r: int, k: int)
    requires 0 <= r < |g| && 0 <= k <= |g[r]|
    requires forall c :: 0 <= c < k ==> ManCell(g, n, r, c) == 0
    ensures ManRow(g, n, r, k) == 0
  {
    if k > 0 {
      ManRowZero(g, n, r, k - 1);
    }
  }

  lemma {:induction false} ManRowsZero(g: Grid, n: int, k: int)
    requires 0 <= k <= |g|
    requires forall r, c :: 0 <= r < k && 0 <= c < |g[r]| ==> ManCell(g, n, r, c) == 0
    ensures ManRows(g, n, k) == 0
  {
    if k > 0 {
      ManRowsZero(g, n, k - 1);
      ManRowZero(g, n, k - 1, |g[k - 1]|);
    }
  }

  /** Both heuristics are zero on the goal board. */
  lemma GoalHeuristicsZero(n: nat)
    ensures HammingOf(GoalGrid(n, n), n) == 0
    ensures ManhattanOf(GoalGrid(n, n), n) == 0
  {
    HamRowsZero(GoalGrid(n, n), n, n);
    ManRowsZero(GoalGrid(n, n), n, n);
  }

  /** A misplaced tile is at least one step from where the search finds it. */
  lemma HamCellAtMostManCell(g: Grid, n: nat, r: int, c: int)
    requires IsRect(g, n, n) && InSquare(n, r, c) && 0 <= g[r][c] < n * n
    ensures HamCell(g, n, r, c) <= ManCell(g, n, r, c)
  {
    var v := g[r][c];
    if v != 0 && v != GoalLabel(n, n, r, c) {
      var (j, i) := ShouldPos(n, v);
      RowMajorOf(n, v - 1);
      assert j < n by {
        if j >= n { MulMono(n, j, n); }
      }
      GoalMatch(n, n, v, j, i);
    }
  }

  lemma {:induction false} HamRowAtMostManRow(g: Grid, n: nat, r: int, k: int)
    requires IsRect(g, n, n) && 0 <= r < n && 0 <= k <= n
    requires forall c :: 0 <= c < n ==> 0 <= g[r][c] < n * n
    ensures HamRow(g, n, r, k) <= ManRow(g, n, r, k)
  {
    if k > 0 {
      HamRowAtMostManRow(g, n, r, k - 1);
      HamCellAtMostManCell(g, n, r, k - 1);
    }
  }

  lemma {:induction false} HamRowsAtMostManRows(g: Grid, n: nat, k: int)
    requires IsRect(g, n, n) && 0 <= k <= n
    requires forall r, c :: 0 <= r < n && 0 <= c < n ==> 0 <= g[r][c] < n * n
    ensures HamRows(g, n, k) <= ManRows(g, n, k)
  {
    if k > 0 {
      HamRowsAtMostManRows(g, n, k - 1);
      HamRowAtMostManRow(g, n, k - 1, n);
    }
  }

  /** With labels in 0 .. n*n-1, the Hamming distance never exceeds the Manhattan distance. */
  lemma HammingAtMostManhattan(g: Grid, n: nat)
    requires IsRect(g, n, n)
    requires forall r, c :: 0 <= r < n && 0 <= c < n ==> 0 <= g[r][c] < n * n
    ensures HammingOf(g, n) <= ManhattanOf(g, n)
  {
    HamRowsAtMostManRows(g, n, n);
  }

  lemma {:induction false} HamRowBound(g: Grid, n: int, r: int, k: int, x: int, y: int)
    requires 0 <= r < |g| && 0 <= k <= |g[r]| && IsCell(g, x, y) && g[x][y] == 0
    ensures HamRow(g, n, r, k) <= k - (if r == x && y < k then 1 else 0)
  {
    if k > 0 {
      HamRowBound(g, n, r, k - 1, x, y);
    }
  }

  lemma {:induction false} HamRowsBound(g: Grid, n: nat, k: int, x: int, y: int)
    requires IsRect(g, n, n) && 0 <= k <= n && InSquare(n, x, y) && g[x][y] == 0
    ensures HamRows(g, n, k) <= k * n - (if x < k then 1 else 0)
  {
    if k > 0 {
      HamRowsBound(g, n, k - 1, x, y);
      HamRowBound(g, n, k - 1, n, x, y);
      assert (k - 1) * n + n == k * n;
    }
  }

  /** With a blank on the board, at most n*n-1 tiles are misplaced. */
  lemma HammingBound(g: Grid, n: nat, x: int, y: int)
    requires IsRect(g, n, n) && InSquare(n, x, y) && g[x][y] == 0
    ensures HammingOf(g, n) <= n * n - 1
  {
    HamRowsBound(g, n, n, x, y);
  }

  /** For a board whose only blank is at (x, y), Hamming distance zero means the board
      is the goal, and the goal has Hamming distance zero. */
  lemma HammingZeroIffGoal(g: Grid, n: nat, x: int, y: int)
    requires IsRect(g, n, n) && BlankOnlyAt(g, n, x, y)
    ensures HammingOf(g, n) == 0 <==> g == GoalGrid(n, n)
  {
    GoalHeuristicsZero(n);
    if HammingOf(g, n) == 0 {
      HamRowsZero(g, n, n);
      var goal := GoalGrid(n, n);
      // Every tile is home, so the last cell cannot hold a tile: its goal label is 0.
      assert HamCell(g, n, n - 1, n - 1) == 0;
      assert g[n - 1][n - 1] == 0;
      forall r, c | 0 <= r < n && 0 <= c < n
        ensures g[r][c] == goal[r][c]
      {
        assert HamCell(g, n, r, c) == 0;
        if g[r][c] == 0 {
          assert r == n - 1 && c == n - 1;
        }
      }
      assert forall r :: 0 <= r < n ==> g[r] == goal[r];
    }
  }

  /** Exchanging the only blank with any cell leaves that cell the only blank. */
  lemma SwapMovesBlank(g: Grid, n: nat, x: int, y: int, a: int, b: int)
    requires IsRect(g, n, n) && BlankOnlyAt(g, n, x, y) && InSquare(n, a, b)
    ensures IsRect(SwapCells(g, x, y, a, b), n, n)
    ensures BlankOnlyAt(SwapCells(g, x, y, a, b), n, a, b)
  {
  }

  // ----- inversions, as Board.isSolvable counts them -----

  /** The number of positions i in k .. j-1 holding a tile (not the blank) below s[k]. */
  function Below(s: seq<int>, k: int, j: int): nat
    requires 0 <= k < |s| && k <= j <= |s|
    decreases j - k
  {
    if j == k then 0 else Below(s, k, j - 1) + (if s[j - 1] != 0 && s[j - 1] < s[k] then 1 else 0)
  }

  /** Below(s, k, |s|) summed over the first m positions k. */
  function InversionsUpTo(s: seq<int>, m: int): nat
    requires 0 <= m <= |s|
  {
    if m == 0 then 0 else InversionsUpTo(s, m - 1) + Below(s, m - 1, |s|)
  }

  /** The pairs of positions k < i where the later label is a tile smaller than the earlier one. */
  function Inversions(s: seq<int>): nat {
    InversionsUpTo(s, |s|)
  }

  // ----- the blank as the constructor's scan finds it -----

  ghost predicate HasBlank(g: Grid, n: nat)
    requires IsRect(g, n, n)
  {
    exists r, c :: InSquare(n, r, c) && g[r][c] == 0
  }

  /** (x, y) is where the constructor's scan leaves the blank: its inner loop stops at
      the first 0 of a row, the outer loop goes on, so the last row holding a 0 wins. */
  ghost predicate ScanFinds(g: Grid, n: nat, x: int, y: int)
    requires IsRect(g, n, n)
  {
    && InSquare(n, x, y) && g[x][y] == 0
    && (forall c :: 0 <= c < y ==> g[x][c] != 0)
    && (forall r, c :: x < r < n && 0 <= c < n ==> g[r][c] != 0)
  }

  /** (x, y) holds the only 0 of the grid. */
  ghost predicate BlankOnlyAt(g: Grid, n: nat, x: int, y: int)
    requires IsRect(g, n, n)
  {
    InSquare(n, x, y) && g[x][y] == 0 && forall r, c :: InSquare(n, r, c) && g[r][c] == 0 ==> r == x && c == y
  }

  /** The grid held in the first n rows and columns of a. */
  ghost function Snapshot(a: array2<int>, n: nat): (g: Grid)
    reads a
    requires n <= a.Length0 && n <= a.Length1
    ensures IsRect(g, n, n) && forall r, c :: 0 <= r < n && 0 <= c < n ==> g[r][c] == a[r, c]
  {
    seq(n, r requires 0 <= r < n reads a => seq(n, c requires 0 <= c < n reads a => a[r, c]))
  }

  /** The goal board Board.hamming and Board.manhattan build: 1, 2, ... row by row,
      with 0 once the running index reaches n*n. */
  method PerfectBoard(n: nat) returns (perfect: array2<int>)
    ensures fresh(perfect) && IsPerfect(perfect, n)
  {
    perfect := new int[n, n];
    var index := 1;
    for r := 0 to n
      invariant index == r * n + 1
      invariant forall i, j :: 0 <= i < r && 0 <= j < n ==> perfect[i, j] == GoalLabel(n, n, i, j)
    {
      for c := 0 to n
        invariant index == c + r * n + 1
        invariant forall i, j :: 0 <= i < r && 0 <= j < n ==> perfect[i, j] == GoalLabel(n, n, i, j)
        invariant forall j :: 0 <= j < c ==> perfect[r, j] == GoalLabel(n, n, r, j)
      {
        RowMajorBelow(n, n, r, c);
        if index < n * n {
          perfect[r, c] := index;
        } else {
          perfect[r, c] := 0;
        }
        index := index + 1;
      }
      assert (r + 1) * n == r * n + n;
    }
  }

  /** Board.manhattan's search of the goal board for label v: it keeps the last cell
      whose goal label is v, starting from (0, 0). */
  method FindGoalCell(perfect: array2<int>, n: nat, v: int) returns (rShould: int, cShould: int)
    requires perfect.Length0 == n && perfect.Length1 == n && v != 0
    requires forall r, c :: InSquare(n, r, c) ==> perfect[r, c] == GoalLabel(n, n, r, c)
    ensures (rShould, cShould) == ShouldPos(n, v)
  {
    ghost var (gr, gc) := ShouldPos(n, v);
    ghost var home := 1 <= v < n * n;
    rShould, cShould := 0, 0;
    for j := 0 to n
      invariant (rShould, cShould) == if home && gr < j then (gr, gc) else (0, 0)
    {
      for i := 0 to n
        invariant (rShould, cShould) == if home && (gr < j || (gr == j && gc < i)) then (gr, gc) else (0, 0)
      {
        GoalMatch(n, n, v, j, i);
        if perfect[j, i] == v {
          rShould, cShould := j, i;
        }
      }
    }
    if home {
      RowMajorOf(n, v - 1);
      assert gr < n by {
        if gr >= n { MulMono(n, gr, n); }
      }
    }
  }

  /** The copy loop of the Board constructor: a fresh n-by-n array holding the first
      n columns of the n rows of blocks. */
  method CopySquare(blocks: array2<int>) returns (b: array2<int>)
    requires blocks.Length1 >= blocks.Length0
    ensures fresh(b) && b.Length0 == b.Length1 == blocks.Length0
    ensures Snapshot(b, b.Length0) == Snapshot(blocks, b.Length0)
  {
    var n := blocks.Length0;
    b := new int[n, n];
    for r := 0 to n
      invariant forall i, j :: 0 <= i < r && 0 <= j < n ==> b[i, j] == blocks[i, j]
    {
      for c := 0 to n
        invariant forall i, j :: 0 <= i < r && 0 <= j < n ==> b[i, j] == blocks[i, j]
        invariant forall j :: 0 <= j < c ==> b[r, j] == blocks[r, j]
      {
        b[r, c] := blocks[r, c];
      }
    }
    RectEqual(Snapshot(b, n), Snapshot(blocks, n), n, n);
  }

  /** The scan loop of the Board constructor: null when b holds no 0, else a new point
      at the first 0 of the last row that holds one. */
  method ScanForBlank(b: array2<int>) returns (bl: Point?)
    requires b.Length0 == b.Length1
    ensures bl == null <==> !HasBlank(Snapshot(b, b.Length0), b.Length0)
    ensures bl != null ==> fresh(bl) && ScanFinds(Snapshot(b, b.Length0), b.Length0, bl.x, bl.y)
  {
    var n := b.Length0;
    ghost var g := Snapshot(b, n);
    bl := null;
    for r := 0 to n
      invariant bl == null <==> forall i, j :: 0 <= i < r && 0 <= j < n ==> g[i][j] != 0
      invariant bl != null ==> fresh(bl) && 0 <= bl.x < r && 0 <= bl.y < n && g[bl.x][bl.y] == 0
      invariant bl != null ==> forall j :: 0 <= j < bl.y ==> g[bl.x][j] != 0
      invariant bl != null ==> forall i, j :: bl.x < i < r && 0 <= j < n ==> g[i][j] != 0
    {
      ghost var before := bl;
      var c := 0;
      while c < n
        invariant 0 <= c <= n && bl == before
        invariant forall j :: 0 <= j < c ==> g[r][j] != 0
      {
        if b[r, c] == 0 {
          bl := new Point(r, c);
          break;
        }
        c := c + 1;
      }
    }
  }

  /** The outer loop of Board.toString: every row's text followed by a line break. */
  method RenderBoard(a: array2<int>, n: nat, ghost g: Grid) returns (text: string)
    requires a.Length0 == n && a.Length1 == n && IsRect(g, n, n)
    requires forall r, c :: 0 <= r < n && 0 <= c < n ==> a[r, c] == g[r][c]
    ensures text == RenderGrid(g)
  {
    text := "";
    PrefixEnds(text, g);
    for r := 0 to n
      invariant text == RenderGrid(g[..r])
    {
      text := AppendRow(text, a, n, r, g[r]);
      GridTextStep(g, r);
      text := text + "\n";
    }
  }

  /** The inner loop of Board.toString: appends every label of row r followed by a space. */
  method AppendRow(head: string, a: array2<int>, n: nat, r: nat, ghost row: seq<int>) returns (text: string)
    requires a.Length0 == n && a.Length1 == n && r < n && |row| == n
    requires forall c :: 0 <= c < n ==> a[r, c] == row[c]
    ensures text == head + RenderRow(row)
  {
    text := head;
    PrefixEnds(head, row);
    for c := 0 to n
      invariant text == head + RenderRow(row[..c])
    {
      RowTextStep(head, row, c);
      text := text + (IntToString(a[r, c]) + " ");
    }
  }

  /** a is n-by-n and holds the grid g. */
  ghost predicate Holds(a: array2<int>, g: Grid, n: nat)
    reads a
  {
    && a.Length0 == n && a.Length1 == n && IsRect(g, n, n)
    && forall r, c :: 0 <= r < n && 0 <= c < n ==> a[r, c] == g[r][c]
  }

  /** perfect is the goal board that PerfectBoard builds. */
  ghost predicate IsPerfect(perfect: array2<int>, n: nat)
    reads perfect
  {
    && perfect.Length0 == n && perfect.Length1 == n
    && forall r, c :: InSquare(n, r, c) ==> perfect[r, c] == GoalLabel(n, n, r, c)
  }

  /** The inner loop of Board.hamming: the tiles of row r that differ from the goal. */
  method MisplacedInRow(a: array2<int>, perfect: array2<int>, n: nat, r: nat, ghost g: Grid) returns (ham: nat)
    requires Holds(a, g, n) && IsPerfect(perfect, n) && r < n
    ensures ham == HamRow(g, n, r, n)
  {
    ham := 0;
    for c := 0 to n
      invariant ham == HamRow(g, n, r, c)
    {
      if a[r, c] != 0 && a[r, c] != perfect[r, c] {
        ham := ham + 1;
      }
    }
  }

  /** The inner loop of Board.manhattan: for each misplaced tile of row r, the distance
      to the cell where the search of the goal board finds its label. */
  method DistanceInRow(a: array2<int>, perfect: array2<int>, n: nat, r: nat, ghost g: Grid) returns (man: nat)
    requires Holds(a, g, n) && IsPerfect(perfect, n) && r < n
    ensures man == ManRow(g, n, r, n)
  {
    man := 0;
    for c := 0 to n
      invariant man == ManRow(g, n, r, c)
    {
      if a[r, c] != 0 && a[r, c] != perfect[r, c] {
        var rShould, cShould := FindGoalCell(perfect, n, a[r, c]);
        man := man + Abs(rShould - r) + Abs(cShould - c);
      }
    }
  }

  /** The inner loop that fills squ in Board.isSolvable: the labels of row r in order. */
  method AppendLabels(squ: seq<int>, a: array2<int>, n: nat, r: nat, ghost row: seq<int>) returns (squ': seq<int>)
    requires a.Length0 == n && a.Length1 == n && r < n && |row| == n
    requires forall c :: 0 <= c < n ==> a[r, c] == row[c]
    ensures squ' == squ + row
  {
    squ' := squ;
    for c := 0 to n
      invariant squ' == squ + row[..c]
    {
      assert row[..c + 1] == row[..c] + [row[c]];
      squ' := squ' + [a[r, c]];
    }
    assert row[..n] == row;
  }

  /** The outer loop that fills squ in Board.isSolvable: all labels of a, row by row. */
  method Labels(a: array2<int>, n: nat, ghost g: Grid) returns (squ: seq<int>)
    requires Holds(a, g, n)
    ensures squ == Flatten(g)
  {
    squ := [];
    for r := 0 to n
      invariant squ == FlattenRows(g, r)
    {
      squ := AppendLabels(squ, a, n, r, g[r]);
    }
  }

  /** The inner loop of Board.isSolvable's count: the tiles after position k that are
      below squ[k]. */
  method CountBelow(squ: seq<int>, totalNumbers: nat, k: nat) returns (numOfNumLess: nat)
    requires totalNumbers == |squ| && k < totalNumbers
    ensures numOfNumLess == Below(squ, k, totalNumbers)
  {
    numOfNumLess := 0;
    for i := k to totalNumbers
      invariant numOfNumLess == Below(squ, k, i)
    {
      if squ[i] != 0 && squ[i] < squ[k] {
        numOfNumLess := numOfNumLess + 1;
      }
    }
  }

  /** The outer loop of Board.isSolvable's count: the inversions of squ. */
  method CountInversions(squ: seq<int>, totalNumbers: nat) returns (inversions: nat)
    requires totalNumbers == |squ|
    ensures inversions == Inversions(squ)
  {
    inversions := 0;
    for whatNumberToStartOn := 0 to totalNumbers
      invariant inversions == InversionsUpTo(squ, whatNumberToStartOn)
    {
      var numOfNumLess := CountBelow(squ, totalNumbers, whatNumberToStartOn);
      inversions := inversions + numOfNumLess;
    }
  }

  /** The neighbouring point of p toward d, made by the Point method for d. */
  method Toward(p: Point, d: char) returns (t: Point)
    requires IsDirection(d)
    ensures fresh(t) && t.x == p.x + StepRow(d) && t.y == p.y + StepCol(d)
  {
    if d == North {
      t := p.GetNorth();
    } else if d == East {
      t := p.GetEast();
    } else if d == South {
      t := p.GetSouth();
    } else {
      t := p.GetWest();
    }
  }

  class Board {
    const board: array2<int>
    const size: nat
    const blank: Point?
    const previous: Board?
    /** The cached text form (Java's apple field): None stands for null. */
    var apple: Option<string>
    var moves: int
    var whereICameFrom: char
    /** The labels held by board, row by row. */
    ghost var Cells: Grid
    /** The number of previous links that lead from this board back to one without a predecessor. */
    ghost const depth: nat

    /** board is size-by-size and holds Cells, blank marks its only 0, and a cached
        text is the text of Cells. */
    ghost predicate Valid()
      reads this`Cells, this`apple, board, blank
    {
      && board.Length0 == size && board.Length1 == size
      && IsRect(Cells, size, size)
      && (forall r, c {:trigger board[r, c]} :: 0 <= r < size && 0 <= c < size ==> board[r, c] == Cells[r][c])
      && blank != null
      && BlankOnlyAt(Cells, size, blank.x, blank.y)
      && (apple.Some? ==> apple.value == RenderGrid(Cells))
    }

    /** Copies the first blocks.Length0 columns of every row of blocks, then scans for the blank. */
    constructor (blocks: array2<int>, p: Board?)
      requires blocks.Length1 >= blocks.Length0
      ensures size == blocks.Length0 && fresh(board) && board.Length0 == size && board.Length1 == size
      ensures Cells == Snapshot(blocks, size) == Snapshot(board, size)
      ensures HasBlank(Cells, size) <==> blank != null
      ensures blank != null ==> fresh(blank) && ScanFinds(Cells, size, blank.x, blank.y)
      ensures forall x, y :: BlankOnlyAt(Cells, size, x, y) ==> Valid() && blank.x == x && blank.y == y
      ensures previous == p && depth == (if p == null then 0 else p.depth + 1)
      ensures moves == 0 && apple == None && whereICameFrom == NoDirection
    {
      var n := blocks.Length0;
      var b := CopySquare(blocks);
      var bl := ScanForBlank(b);
      ghost var g := Snapshot(b, n);
      board := b;
      size := n;
      blank := bl;
      previous := p;
      depth := if p == null then 0 else p.depth + 1;
      apple := None;
      moves := 0;
      whereICameFrom := NoDirection;
      Cells := g;
    }

    /** The child relation neighbors() establishes: this board copies parent, points
        back at it, records the opposite of d as its origin, and holds parent's grid
        with the blank moved one step toward d. */
    ghost predicate ChildOf(parent: Board, d: char)
      reads this`Cells, this`whereICameFrom, blank, parent, parent.board, parent.blank
      requires parent.Valid() && IsDirection(d)
    {
      && blank != null && InSquare(parent.size, parent.blank.x + StepRow(d), parent.blank.y + StepCol(d))
      && previous == parent && depth == parent.depth + 1 && size == parent.size
      && whereICameFrom == Opposite(d)
      && blank.x == parent.blank.x + StepRow(d) && blank.y == parent.blank.y + StepCol(d)
      && Cells == StepGrid(parent.Cells, parent.blank.x, parent.blank.y, d)
    }

    function Dimension(): nat {
      size
    }

    function GetPrevious(): Board? {
      previous
    }

    function HasPrevious(): bool {
      previous != null
    }

    function GetBlank(): Point?
      reads this
    {
      blank
    }

    function Moves(): int
      reads this
    {
      moves
    }

    /** The label at p. */
    function GetNum(p: Point): (v: int)
      reads this, board, blank, p
      requires Valid() && InSquare(size, p.x, p.y)
      ensures v == Cells[p.x][p.y]
    {
      board[p.x, p.y]
    }

    /** Whether a lies on the board. */
    function CanSwap(a: Point): (ok: bool)
      reads a
      ensures ok <==> InSquare(size, a.x, a.y)
    {
      !((a.x > size - 1 || a.y > size - 1) || (a.x < 0 || a.y < 0))
    }

    method SetMoves(x: int)
      modifies this`moves
      ensures moves == x && (old(Valid()) ==> Valid())
      ensures Cells == old(Cells)
      ensures apple == old(apple) && whereICameFrom == old(whereICameFrom)
    {
      moves := x;
    }

    method SetDirection(x: char)
      modifies this
      ensures whereICameFrom == x && (old(Valid()) ==> Valid())
      ensures Cells == old(Cells)
      ensures apple == old(apple) && moves == old(moves)
    {
      whereICameFrom := x;
    }

    /** Board.toString: the cached text when there is one, else the text built row by row. */
    method ToString() returns (text: string)
      requires Valid()
      ensures text == RenderGrid(Cells)
    {
      if apple.Some? {
        return apple.value;
      }
      text := RenderBoard(board, size, Cells);
    }

    /** The first part of Board.swap: the blank's cell takes a's label, a's cell takes
        the blank, the blank moves to a, and the cached text is dropped. */
    method Exchange(a: Point)
      requires Valid() && InSquare(size, a.x, a.y)
      modifies this, board, blank
      ensures Valid() && apple == None
      ensures blank.x == old(a.x) && blank.y == old(a.y)
      ensures Cells == SwapCells(old(Cells), old(blank.x), old(blank.y), old(a.x), old(a.y))
      ensures Tiles(Cells) == old(Tiles(Cells))
      ensures moves == old(moves) && whereICameFrom == old(whereICameFrom)
    {
      SwapKeepsTiles(Cells, blank.x, blank.y, a.x, a.y);
      var currentlyBlank := GetNum(blank);
      var blankAfterSwap := GetNum(a);
      board[blank.x, blank.y] := blankAfterSwap;
      board[a.x, a.y] := currentlyBlank;
      SwapMovesBlank(Cells, size, blank.x, blank.y, a.x, a.y);
      Cells := SwapCells(Cells, blank.x, blank.y, a.x, a.y);
      blank.Equal(a);
      apple := None;
    }

    /** Board.swap: the exchange above, then the cached text is rebuilt from the new grid. */
    method Swap(a: Point)
      requires Valid() && InSquare(size, a.x, a.y)
      modifies this, board, blank
      ensures Valid()
      ensures blank.x == old(a.x) && blank.y == old(a.y)
      ensures Cells == SwapCells(old(Cells), old(blank.x), old(blank.y), old(a.x), old(a.y))
      ensures Tiles(Cells) == old(Tiles(Cells))
      ensures apple == Some(RenderGrid(Cells))
      ensures moves == old(moves) && whereICameFrom == old(whereICameFrom)
    {
      Exchange(a);
      var text := ToString();
      apple := Some(text);
    }

    /** new Board(this.board, this), as neighbors() and isSolvable() make it: a copy
        whose scan finds this board's only blank. */
    method Copy() returns (child: Board)
      requires Valid()
      ensures fresh(child) && fresh(child.board) && fresh(child.blank)
      ensures child.Valid() && child.Cells == Cells && child.size == size
      ensures child.blank.x == blank.x && child.blank.y == blank.y
      ensures child.previous == this && child.depth == depth + 1
      ensures child.moves == 0 && child.apple == None && child.whereICameFrom == NoDirection
    {
      child := new Board(board, this);
      RectEqual(child.Cells, Cells, size, size);
      assert BlankOnlyAt(child.Cells, size, blank.x, blank.y);
    }

    /** The part of one Board.neighbors branch that acts on the new copy: record the
        opposite of d as the origin, then swap the blank with its neighbour toward d. */
    method MoveToward(d: char)
      requires Valid() && IsDirection(d) && InSquare(size, blank.x + StepRow(d), blank.y + StepCol(d))
      modifies this, board, blank
      ensures Valid()
      ensures blank.x == old(blank.x) + StepRow(d) && blank.y == old(blank.y) + StepCol(d)
      ensures Cells == StepGrid(old(Cells), old(blank.x), old(blank.y), d)
      ensures whereICameFrom == Opposite(d) && moves == old(moves)
    {
      SetDirection(Opposite(d));
      var target := Toward(blank, d);
      Swap(target);
    }

    /** One branch of Board.neighbors: a copy of this board pointing back at it, with
        the opposite of d as its origin and its blank moved one step toward d. */
    method Step(d: char) returns (child: Board)
      requires Valid() && IsDirection(d) && InSquare(size, blank.x + StepRow(d), blank.y + StepCol(d))
      ensures fresh(child) && fresh(child.board) && fresh(child.blank)
      ensures IsChild(child, d) && child.moves == 0
    {
      child := Copy();
      child.MoveToward(d);
    }

    /** b is a valid child of this board stepped toward d. */
    ghost predicate IsChild(b: Board, d: char)
      reads this, board, blank, b`Cells, b`apple, b`whereICameFrom, b.board, b.blank
      requires Valid() && IsDirection(d)
    {
      b.Valid() && b.ChildOf(this, d)
    }

    /** Every ns[i] is a valid child of this board stepped toward ds[i], and no board
        appears twice. */
    ghost predicate Children(ns: seq<Board>, ds: seq<char>)
      reads this, board, blank, ns`Cells, ns`apple, ns`whereICameFrom
      reads set i | 0 <= i < |ns| :: ns[i].blank, set i | 0 <= i < |ns| :: ns[i].board
      requires Valid()
    {
      && |ns| == |ds|
      && (forall i :: 0 <= i < |ns| ==> IsDirection(ds[i]) && IsChild(ns[i], ds[i]))
      && (forall i, j :: 0 <= i < j < |ns| ==> ns[i] != ns[j])
    }

    /** Appending a further child, not yet listed, keeps the list well formed. */
    lemma ChildrenGrow(ns: seq<Board>, ds: seq<char>, child: Board, d: char)
      requires Valid() && IsDirection(d) && Children(ns, ds)
      requires IsChild(child, d) && child !in ns
      ensures Children(ns + [child], ds + [d])
    {
      var ns', ds' := ns + [child], ds + [d];
      forall i | 0 <= i < |ns'|
        ensures IsDirection(ds'[i]) && IsChild(ns'[i], ds'[i])
      {
        if i < |ns| {
          assert ns'[i] == ns[i] && ds'[i] == ds[i];
        }
      }
    }

    /** One guarded branch of Board.neighbors: when d is not the recorded origin and
        the blank's neighbour toward d is on the board, a child stepped toward d; else null. */
    method Branch(d: char) returns (child: Board?)
      requires Valid() && IsDirection(d)
      ensures child != null <==> Pick(size, blank.x, blank.y, whereICameFrom, d) == [d]
      ensures child != null ==> fresh(child) && fresh(child.board) && fresh(child.blank) && IsChild(child, d) && child.moves == 0
    {
      var p := GetBlank();
      var a := Toward(p, d);
      child := null;
      if whereICameFrom != d && CanSwap(a) {
        child := Step(d);
      }
    }

    /** The branch for d, with its child, when there is one, appended to ns. */
    method Offer(ns: seq<Board>, d: char, ghost ds: seq<char>) returns (ns': seq<Board>)
      requires Valid() && IsDirection(d) && Children(ns, ds)
      ensures Children(ns', ds + Pick(size, blank.x, blank.y, whereICameFrom, d))
      ensures |ns| <= |ns'| && ns'[..|ns|] == ns
      ensures forall b :: b in ns' ==> b in ns || (fresh(b) && fresh(b.board) && fresh(b.blank) && b.moves == 0)
    {
      var child := Branch(d);
      if child != null {
        ChildrenGrow(ns, ds, child, d);
        ns' := ns + [child];
      } else {
        ns' := ns;
        assert ds + [] == ds;
      }
    }

    /** Board.neighbors: one child per direction NeighborDirs yields, in its order. */
    method Neighbors() returns (ns: seq<Board>)
      requires Valid()
      ensures Children(ns, NeighborDirs(size, blank.x, blank.y, whereICameFrom))
      ensures forall b :: b in ns ==> fresh(b) && fresh(b.board) && fresh(b.blank) && b.moves == 0
    {
      ns := [];
      ns := Offer(ns, North, []);
      assert forall b :: b in ns ==> fresh(b) && fresh(b.board) && fresh(b.blank) && b.moves == 0;
      ns := Offer(ns, East, Pick(size, blank.x, blank.y, whereICameFrom, North));
      assert forall b :: b in ns ==> fresh(b) && fresh(b.board) && fresh(b.blank) && b.moves == 0;
      ns := Offer(ns, South, Pick(size, blank.x, blank.y, whereICameFrom, North) + Pick(size, blank.x, blank.y, whereICameFrom, East));
      assert forall b :: b in ns ==> fresh(b) && fresh(b.board) && fresh(b.blank) && b.moves == 0;
      ns := Offer(ns, West, Pick(size, blank.x, blank.y, whereICameFrom, North) + Pick(size, blank.x, blank.y, whereICameFrom, East) + Pick(size, blank.x, blank.y, whereICameFrom, South));
    }

    /** The boards neighbors() returns hold pairwise different grids. */
    lemma ChildGridsDiffer(ns: seq<Board>)
      requires Valid() && Children(ns, NeighborDirs(size, blank.x, blank.y, whereICameFrom))
      ensures forall i, j :: 0 <= i < j < |ns| ==> ns[i].Cells != ns[j].Cells
    {
      var ds := NeighborDirs(size, blank.x, blank.y, whereICameFrom);
      forall i, j | 0 <= i < j < |ns|
        ensures ns[i].Cells != ns[j].Cells
      {
        assert IsChild(ns[i], ds[i]) && IsChild(ns[j], ds[j]);
        StepGridsDiffer(Cells, size, blank.x, blank.y, ds[i], ds[j]);
      }
    }

    /** Board.hamming: the number of tiles off their goal cells. */
    method Hamming() returns (ham: nat)
      requires Valid()
      ensures ham == HammingOf(Cells, size)
      ensures ham <= size * size - 1
    {
      var perfectBoard := PerfectBoard(size);
      assert Holds(board, Cells, size);
      ham := 0;
      for r := 0 to size
        invariant ham == HamRows(Cells, size, r)
        invariant IsPerfect(perfectBoard, size)
      {
        var inRow := MisplacedInRow(board, perfectBoard, size, r, Cells);
        ham := ham + inRow;
      }
      HammingBound(Cells, size, blank.x, blank.y);
    }

    /** Board.manhattan: the summed distances of the misplaced tiles from the cells
        where their labels sit on the goal board. */
    method Manhattan() returns (man: nat)
      requires Valid()
      ensures man == ManhattanOf(Cells, size)
    {
      var perfectBoard := PerfectBoard(size);
      assert Holds(board, Cells, size);
      man := 0;
      for r := 0 to size
        invariant man == ManRows(Cells, size, r)
        invariant IsPerfect(perfectBoard, size)
      {
        var inRow := DistanceInRow(board, perfectBoard, size, r, Cells);
        man := man + inRow;
      }
    }

    /** Board.isGoal: no tile is misplaced, which on a board with one blank means the
        board is the goal. */
    method IsGoal() returns (goal: bool)
      requires Valid()
      ensures goal <==> HammingOf(Cells, size) == 0
      ensures goal <==> Cells == GoalGrid(size, size)
    {
      var ham := Hamming();
      HammingZeroIffGoal(Cells, size, blank.x, blank.y);
      goal := ham == 0;
    }

    /** The priority the search orders boards by: moves so far plus both heuristics. */
    ghost function Priority(): int
      reads this
    {
      moves + HammingOf(Cells, size) + ManhattanOf(Cells, size)
    }

    /** Board.getPriority. */
    method GetPriority() returns (priority: int)
      requires Valid()
      ensures priority == Priority()
      ensures priority >= moves
    {
      var ham := Hamming();
      var man := Manhattan();
      priority := moves + ham + man;
    }

    /** Board.compareTo: -1, 0 or 1 as this board's priority is below, equal to or
        above arg0's. */
    method CompareTo(arg0: Board) returns (order: int)
      requires Valid() && arg0.Valid()
      ensures -1 <= order <= 1
      ensures order < 0 <==> Priority() < arg0.Priority()
      ensures order == 0 <==> Priority() == arg0.Priority()
      ensures order > 0 <==> Priority() > arg0.Priority()
    {
      var theirs := arg0.GetPriority();
      var mine := GetPriority();
      if theirs > mine {
        order := -1;
      } else if theirs < mine {
        order := 1;
      } else {
        order := 0;
      }
    }

    /** Board.equals: the two texts agree, which happens exactly when the grids do. */
    method Equals(y: Board) returns (eq: bool)
      requires Valid() && y.Valid()
      ensures eq <==> Cells == y.Cells
    {
      var mine := ToString();
      var theirs := y.ToString();
      if mine == theirs {
        RenderGridInjective(Cells, y.Cells);
      }
      eq := mine == theirs;
    }

    /** Board.hashCode: the Java string hash of the text, so equal boards hash alike. */
    method HashCode() returns (h: int)
      requires Valid()
      ensures h == StringHash(RenderGrid(Cells))
      ensures -0x8000_0000 <= h < 0x8000_0000
    {
      var text := ToString();
      h := StringHash(text);
    }

    /** One guarded swap of the loop body in Board.isSolvable: temp's blank moves toward
        d when this board's bounds allow it. */
    method Nudge(temp: Board, d: char)
      requires temp.Valid() && temp.size == size && IsDirection(d)
      modifies temp, temp.board, temp.blank
      ensures temp.Valid() && Tiles(temp.Cells) == old(Tiles(temp.Cells))
      ensures temp.Cells == NudgeGrid(old(temp.Cells), size, old(temp.blank.x), old(temp.blank.y), d)
      ensures InSquare(size, old(temp.blank.x) + StepRow(d), old(temp.blank.y) + StepCol(d)) ==>
        temp.blank.x == old(temp.blank.x) + StepRow(d) && temp.blank.y == old(temp.blank.y) + StepCol(d)
      ensures !InSquare(size, old(temp.blank.x) + StepRow(d), old(temp.blank.y) + StepCol(d)) ==>
        temp.blank.x == old(temp.blank.x) && temp.blank.y == old(temp.blank.y)
    {
      var a := Toward(temp.blank, d);
      if CanSwap(a) {
        temp.Swap(a);
      }
    }

    /** The loop body of Board.isSolvable's walk: temp's blank moves east when this
        board's bounds allow it, then south when they allow it. */
    method WalkStep(temp: Board)
      requires temp.Valid() && temp.size == size
      modifies temp, temp.board, temp.blank
      ensures temp.Valid() && Tiles(temp.Cells) == old(Tiles(temp.Cells))
      ensures temp.blank.x == (if old(temp.blank.x) < size - 1 then old(temp.blank.x) + 1 else old(temp.blank.x))
      ensures temp.blank.y == (if old(temp.blank.y) < size - 1 then old(temp.blank.y) + 1 else old(temp.blank.y))
      ensures temp.Cells == NudgeGrid(NudgeGrid(old(temp.Cells), size, old(temp.blank.x), old(temp.blank.y), East),
        size, old(temp.blank.x), temp.blank.y, South)
    {
      Nudge(temp, East);
      Nudge(temp, South);
    }

    /** The loop of Board.isSolvable that walks temp's blank east and south, using this
        board's bounds, until p (the bottom-right corner) holds the blank. */
    method WalkToCorner(temp: Board, p: Point)
      requires temp.Valid() && temp.size == size
      requires p.x == size - 1 && p.y == size - 1 && p != temp.blank
      modifies temp, temp.board, temp.blank
      ensures temp.Valid() && temp.blank.x == size - 1 && temp.blank.y == size - 1
      ensures Tiles(temp.Cells) == old(Tiles(temp.Cells))
      ensures temp.Cells == CornerWalk(old(temp.Cells), size, old(temp.blank.x), old(temp.blank.y))
    {
      while temp.GetNum(p) != 0
        invariant temp.Valid() && Tiles(temp.Cells) == old(Tiles(temp.Cells))
        invariant CornerWalk(temp.Cells, size, temp.blank.x, temp.blank.y) == CornerWalk(old(temp.Cells), size, old(temp.blank.x), old(temp.blank.y))
        decreases (size - 1 - temp.blank.x) + (size - 1 - temp.blank.y)
      {
        WalkStep(temp);
      }
    }

    /** Board.isSolvable as written: temp's blank is walked to the corner, but the
        inversions are then counted on this board's own labels. */
    method IsSolvable() returns (solvable: bool)
      requires Valid()
      ensures solvable <==> Inversions(Flatten(Cells)) % 2 == 0
    {
      var temp := Copy();
      var p := new Point(size - 1, size - 1);
      WalkToCorner(temp, p);
      var squ := Labels(board, size, Cells);
      var totalNumbers := size * size;
      FlattenLength(Cells, size, size);
      var inversions := CountInversions(squ, totalNumbers);
      solvable := inversions % 2 == 0;
    }

    /** Board.isSolvable as evidently intended: the inversions are counted on temp, the
        copy whose blank the walk has moved to the bottom-right corner. */
    method IsSolvableFixed() returns (solvable: bool)
      requires Valid()
      ensures solvable <==> Inversions(Flatten(CornerWalk(Cells, size, blank.x, blank.y))) % 2 == 0
    {
      var temp := Copy();
      var p := new Point(size - 1, size - 1);
      WalkToCorner(temp, p);
      var squ := Labels(temp.board, size, temp.Cells);
      var totalNumbers := size * size;
      FlattenLength(temp.Cells, size, size);
      var inversions := CountInversions(squ, totalNumbers);
      solvable := inversions % 2 == 0;
    }
  }
}
