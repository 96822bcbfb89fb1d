/** Grids of tile labels, shared by the Java and the Python boards.
    A grid is a sequence of rows; label 0 is the blank. */
module Grids {

  type Grid = seq<seq<int>>

  /** g has h rows of w cells each. */
  ghost predicate IsRect(g: Grid, h: nat, w: nat) {
    |g| == h && forall r :: 0 <= r < h ==> |g[r]| == w
  }

  /** (r, c) names a cell of g. */
  predicate IsCell(g: Grid, r: int, c: int) {
    0 <= r < |g| && 0 <= c < |g[r]|
  }

  /** Two cells of g never hold the same label. */
  ghost predicate Distinct(g: Grid) {
    forall r1, c1, r2, c2 ::
      IsCell(g, r1, c1) && IsCell(g, r2, c2) && g[r1][c1] == g[r2][c2] ==> r1 == r2 && c1 == c2
  }

  function Abs(x: int): (a: nat)
    ensures a == x || a == -x
  {
    if x < 0 then -x else x
  }

  /** Taxicab distance between two cells. */
  function Dist(r1: int, c1: int, r2: int, c2: int): (d: nat)
    ensures d == 0 <==> r1 == r2 && c1 == c2
  {
    Abs(r1 - r2) + Abs(c1 - c2)
  }

  /** The grid with the labels at (r1, c1) and (r2, c2) exchanged:
      first (r1, c1) takes the label of (r2, c2), then (r2, c2) takes the old label of (r1, c1). */
  function SwapCells(g: Grid, r1: nat, c1: nat, r2: nat, c2: nat): (g': Grid)
    requires IsCell(g, r1, c1) && IsCell(g, r2, c2)
    ensures |g'| == |g| && forall r :: 0 <= r < |g| ==> |g'[r]| == |g[r]|
    ensures g'[r1][c1] == g[r2][c2] && g'[r2][c2] == g[r1][c1]
    ensures forall r, c :: IsCell(g, r, c) && !(r == r1 && c == c1) && !(r == r2 && c == c2) ==> g'[r][c] == g[r][c]
  {
    var a, b := g[r1][c1], g[r2][c2];
    var g1 := g[r1 := g[r1][c1 := b]];
    g1[r2 := g1[r2][c2 := a]]
  }

  /** Two grids of the same shape with the same label in every cell are equal. */
  lemma RectEqual(g1: Grid, g2: Grid, h: nat, w: nat)
    requires IsRect(g1, h, w) && IsRect(g2, h, w)
    requires forall r, c :: 0 <= r < h && 0 <= c < w ==> g1[r][c] == g2[r][c]
    ensures g1 == g2
  {
    forall r | 0 <= r < h ensures g1[r] == g2[r] {
      assert |g1[r]| == |g2[r]| == w;
    }
  }

  /** The labels of g in row-major order. */
  function Flatten(g: Grid): (s: seq<int>)
  {
    FlattenRows(g, |g|)
  }

  /** The labels of the first k rows of g, row after row. */
  function FlattenRows(g: Grid, k: nat): seq<int>
    requires k <= |g|
  {
    if k == 0 then [] else FlattenRows(g, k - 1) + g[k - 1]
  }

  /** The multiset of labels on g. */
  function Tiles(g: Grid): multiset<int> {
    multiset(Flatten(g))
  }

  lemma FlattenLength(g: Grid, h: nat, w: nat)
    requires IsRect(g, h, w)
    ensures |Flatten(g)| == h * w
  {
    FlattenRowsLength(g, h, w, h);
  }

  lemma {:induction false} FlattenRowsLength(g: Grid, h: nat, w: nat, k: nat)
    requires IsRect(g, h, w) && k <= h
    ensures |FlattenRows(g, k)| == k * w
  {
    if k > 0 {
      FlattenRowsLength(g, h, w, k - 1);
      assert (k - 1) * w + w == k * w;
    }
  }

  /** Replacing one row changes the tiles by exactly that row's labels. */
  lemma TilesUpdateRow(g: Grid, r: nat, row: seq<int>)
    requires r < |g|
    ensures Tiles(g[r := row]) == Tiles(g) - multiset(g[r]) + multiset(row)
  {
    RowsUpdate(g, r, row, |g|);
  }

  lemma {:induction false} RowsBefore(g: Grid, r: nat, row: seq<int>, k: nat)
    requires k <= r < |g|
    ensures FlattenRows(g[r := row], k) == FlattenRows(g, k)
  {
    if k > 0 {
      RowsBefore(g, r, row, k - 1);
    }
  }

  lemma {:induction false} RowsUpdate(g: Grid, r: nat, row: seq<int>, k: nat)
    requires r < k <= |g|
    ensures multiset(FlattenRows(g[r := row], k)) == multiset(FlattenRows(g, k)) - multiset(g[r]) + multiset(row)
  {
    var g' := g[r := row];
    var m, m' := multiset(FlattenRows(g, k - 1)), multiset(FlattenRows(g', k - 1));
    var a, b := multiset(g[r]), multiset(row);
    assert multiset(FlattenRows(g', k)) == m' + multiset(g'[k - 1]);
    assert multiset(FlattenRows(g, k)) == m + multiset(g[k - 1]);
    if r == k - 1 {
      RowsBefore(g, r, row, k - 1);
      AddThenSubtract(m, a, b);
    } else {
      RowsUpdate(g, r, row, k - 1);
      RowInRows(g, r, k - 1);
      SubtractLater(m, a, b, multiset(g[k - 1]));
    }
  }

  lemma SubtractLater(m: multiset<int>, a: multiset<int>, b: multiset<int>, c: multiset<int>)
    requires a <= m
    ensures m - a + b + c == m + c - a + b
  {
  }

  lemma AddThenSubtract(m: multiset<int>, a: multiset<int>, b: multiset<int>)
    ensures m + b == m + a - a + b
  {
  }

  /** Every row's labels are among the tiles. */
  lemma RowInTiles(g: Grid, r: nat)
    requires r < |g|
    ensures multiset(g[r]) <= Tiles(g)
  {
    RowInRows(g, r, |g|);
  }

  lemma {:induction false} RowInRows(g: Grid, r: nat, k: nat)
    requires r < k <= |g|
    ensures multiset(g[r]) <= multiset(FlattenRows(g, k))
  {
    if r < k - 1 {
      RowInRows(g, r, k - 1);
    }
  }

  /** Overwriting one cell trades its label for the new one. */
  lemma TilesUpdateCell(g: Grid, r: nat, c: nat, v: int)
    requires IsCell(g, r, c)
    ensures Tiles(g[r := g[r][c := v]]) == Tiles(g) - multiset{g[r][c]} + multiset{v}
    ensures g[r][c] in Tiles(g)
  {
    TilesUpdateRow(g, r, g[r][c := v]);
    RowInTiles(g, r);
    assert g[r][c] in multiset(g[r]);
    assert multiset(g[r][c := v]) == multiset(g[r]) - multiset{g[r][c]} + multiset{v};
  }

  /** Exchanging two cells keeps the multiset of labels. */
  lemma SwapKeepsTiles(g: Grid, r1: nat, c1: nat, r2: nat, c2: nat)
    requires IsCell(g, r1, c1) && IsCell(g, r2, c2)
    ensures Tiles(SwapCells(g, r1, c1, r2, c2)) == Tiles(g)
  {
    var a, b := g[r1][c1], g[r2][c2];
    var g1 := g[r1 := g[r1][c1 := b]];
    var g2 := g1[r2 := g1[r2][c2 := a]];
    TilesUpdateCell(g, r1, c1, b);
    assert g1[r2][c2] == b;
    TilesUpdateCell(g1, r2, c2, a);
    var m := Tiles(g);
    assert Tiles(g2) == m - multiset{a} + multiset{b} - multiset{b} + multiset{a};
    MultisetTrade(m, a, b);
  }

  lemma MultisetTrade(m: multiset<int>, a: int, b: int)
    requires a in m
    ensures m - multiset{a} + multiset{b} - multiset{b} + multiset{a} == m
  {
    var m' := m - multiset{a} + multiset{b} - multiset{b} + multiset{a};
    forall x ensures m'[x] == m[x] {
    }
  }

  /** Exchanging two cells keeps the labels pairwise distinct. */
  lemma SwapKeepsDistinct(g: Grid, r1: nat, c1: nat, r2: nat, c2: nat)
    requires IsCell(g, r1, c1) && IsCell(g, r2, c2)
    requires Distinct(g)
    ensures Distinct(SwapCells(g, r1, c1, r2, c2))
  {
    var g' := SwapCells(g, r1, c1, r2, c2);
    forall p1, q1, p2, q2 | IsCell(g', p1, q1) && IsCell(g', p2, q2) && g'[p1][q1] == g'[p2][q2]
      ensures p1 == p2 && q1 == q2
    {
      var (s1, t1) := Origin(r1, c1, r2, c2, p1, q1);
      var (s2, t2) := Origin(r1, c1, r2, c2, p2, q2);
      assert g'[p1][q1] == g[s1][t1] && g'[p2][q2] == g[s2][t2];
    }
  }

  /** The cell whose label SwapCells moves to (p, q). */
  function Origin(r1: int, c1: int, r2: int, c2: int, p: int, q: int): (int, int) {
    if p == r2 && q == c2 then (r1, c1)
    else if p == r1 && q == c1 then (r2, c2)
    else (p, q)
  }

  /** Exchanging the same two cells twice gives back the grid. */
  lemma SwapTwice(g: Grid, r1: nat, c1: nat, r2: nat, c2: nat)
    requires IsCell(g, r1, c1) && IsCell(g, r2, c2)
    ensures SwapCells(SwapCells(g, r1, c1, r2, c2), r2, c2, r1, c1) == g
  {
    var g2 := SwapCells(SwapCells(g, r1, c1, r2, c2), r2, c2, r1, c1);
    assert |g2| == |g|;
    forall r | 0 <= r < |g| ensures g2[r] == g[r] {
      assert |g2[r]| == |g[r]|;
    }
  }

  /** The goal label of cell (r, c) on an h-by-w board: 1, 2, ... in row-major
      order, with the blank in the bottom-right cell. */
  function GoalLabel(h: int, w: int, r: int, c: int): int {
    if r == h - 1 && c == w - 1 then 0 else c + r * w + 1
  }

  /** The goal grid of an h-by-w board. */
  function GoalGrid(h: nat, w: nat): (g: Grid)
    ensures IsRect(g, h, w)
    ensures forall r, c :: 0 <= r < h && 0 <= c < w ==> g[r][c] == GoalLabel(h, w, r, c)
  {
    seq(h, r => seq(w, c => GoalLabel(h, w, r, c)))
  }

  // ----- arithmetic on row-major positions -----

  lemma RowMajorUnique(w: int, r1: int, c1: int, r2: int, c2: int)
    requires 0 <= c1 < w && 0 <= c2 < w
    requires c1 + r1 * w == c2 + r2 * w
    ensures r1 == r2 && c1 == c2
  {
    if r1 < r2 {
      assert r2 * w - r1 * w == (r2 - r1) * w;
      MulAtLeast(r2 - r1, w);
    } else if r2 < r1 {
      assert r1 * w - r2 * w == (r1 - r2) * w;
      MulAtLeast(r1 - r2, w);
    }
  }

  lemma MulAtLeast(k: int, w: int)
    requires k >= 1 && w >= 0
    ensures k * w >= w
  {
    assert k * w == (k - 1) * w + w;
  }

  /** Row-major index c + r * w lies below h * w for a cell of an h-by-w grid. */
  lemma RowMajorBelow(h: int, w: int, r: int, c: int)
    requires 0 <= r < h && 0 <= c < w
    ensures 0 <= c + r * w <= h * w - 1
    ensures c + r * w == h * w - 1 <==> r == h - 1 && c == w - 1
  {
    assert r * w >= 0;
    assert r * w <= (h - 1) * w by { MulMono(r, h - 1, w); }
    assert (h - 1) * w + w == h * w;
    if c + r * w == h * w - 1 {
      RowMajorUnique(w, r, c, h - 1, w - 1);
    }
  }

  lemma MulMono(a: int, b: int, w: int)
    requires 0 <= a <= b && w >= 0
    ensures a * w <= b * w
  {
    assert b * w - a * w == (b - a) * w;
  }

  /** The cell at row-major index k of a grid w cells wide. */
  lemma RowMajorOf(w: int, k: int)
    requires w > 0 && k >= 0
    ensures 0 <= k % w < w && k / w >= 0
    ensures k % w + (k / w) * w == k
  {
  }

  /** Every goal label lies in 0 .. h*w-1. */
  lemma GoalInRange(h: nat, w: nat, r: int, c: int)
    requires 0 <= r < h && 0 <= c < w
    ensures 0 <= GoalGrid(h, w)[r][c] < h * w
  {
    RowMajorBelow(h, w, r, c);
  }

  /** No two cells of the goal grid share a label. */
  lemma GoalDistinct(h: nat, w: nat)
    ensures Distinct(GoalGrid(h, w))
  {
    var g := GoalGrid(h, w);
    forall r1, c1, r2, c2 | IsCell(g, r1, c1) && IsCell(g, r2, c2) && g[r1][c1] == g[r2][c2]
      ensures r1 == r2 && c1 == c2
    {
      GoalCellLabel(h, w, r1, c1);
      GoalCellLabel(h, w, r2, c2);
      if g[r1][c1] != 0 {
        RowMajorUnique(w, r1, c1, r2, c2);
      }
    }
  }

  /** Only the bottom-right goal cell holds the blank. */
  lemma GoalCellLabel(h: nat, w: nat, r: int, c: int)
    requires 0 <= r < h && 0 <= c < w
    ensures GoalGrid(h, w)[r][c] == 0 <==> r == h - 1 && c == w - 1
    ensures GoalGrid(h, w)[r][c] != 0 ==> GoalGrid(h, w)[r][c] == c + r * w + 1
  {
    assert r * w >= 0;
  }

  /** Every label of 0 .. h*w-1 occurs on the goal grid. */
  lemma GoalCovers(h: nat, w: nat, v: int)
    requires 0 <= v < h * w
    ensures exists r, c :: 0 <= r < h && 0 <= c < w && GoalGrid(h, w)[r][c] == v
  {
    var g := GoalGrid(h, w);
    assert h > 0 && w > 0 by {
      if h == 0 || w == 0 { assert false; }
    }
    if v == 0 {
      assert g[h - 1][w - 1] == 0;
    } else {
      var r, c := (v - 1) / w, (v - 1) % w;
      RowMajorOf(w, v - 1);
      assert r < h by {
        if r >= h { MulMono(h, r, w); }
      }
      RowMajorBelow(h, w, r, c);
      assert g[r][c] == v;
    }
  }

  /** The goal cell of a tile: a nonzero label v sits at goal cell (j, i)
      exactly when v is in 1 .. h*w-1 and (j, i) is v-1 split into row and column. */
  lemma GoalMatch(h: int, w: int, v: int, j: int, i: int)
    requires 0 <= j < h && 0 <= i < w && v != 0
    ensures GoalLabel(h, w, j, i) == v <==> 1 <= v < h * w && j == (v - 1) / w && i == (v - 1) % w
  {
    if GoalLabel(h, w, j, i) == v {
      GoalCellOf(h, w, v, j, i);
    } else if 1 <= v < h * w && j == (v - 1) / w && i == (v - 1) % w {
      CellGoalOf(h, w, v, j, i);
    }
  }

  lemma GoalCellOf(h: int, w: int, v: int, j: int, i: int)
    requires 0 <= j < h && 0 <= i < w && v != 0
    requires GoalLabel(h, w, j, i) == v
    ensures 1 <= v < h * w && j == (v - 1) / w && i == (v - 1) % w
  {
    assert !(j == h - 1 && i == w - 1) && v == i + j * w + 1;
    RowMajorBelow(h, w, j, i);
    DivModOfRowMajor(w, i, j);
  }

  /** Splitting the row-major index c + r * w gives back row r and column c. */
  lemma DivModOfRowMajor(w: int, c: int, r: int)
    requires 0 <= c < w && 0 <= r
    ensures (c + r * w) / w == r && (c + r * w) % w == c
  {
    var k := c + r * w;
    assert k >= 0 by { assert r * w >= 0; }
    RowMajorOf(w, k);
    RowMajorUnique(w, k / w, k % w, r, c);
  }

  lemma CellGoalOf(h: int, w: int, v: int, j: int, i: int)
    requires 0 <= j < h && 0 <= i < w
    requires 1 <= v < h * w && j == (v - 1) / w && i == (v - 1) % w
    ensures GoalLabel(h, w, j, i) == v
  {
    var k := v - 1;
    RowMajorOf(w, k);
    assert i + j * w == k;
    RowMajorBelow(h, w, j, i);
  }
}
