/** The Python board of slide.py: a numpy grid of labels (here integers, 0 the
    blank) with the list of moves that produced it, its children, the goal grid, the
    two-grid Manhattan distance, and the goal test of its Solver. */
module Slide {
  import opened Grids
  import Boards

  /** The directions children() tries, in its order. Each is a one-letter string in
      slide.py; here it is that letter. */
  const Directions: seq<char> := ['n', 'e', 's', 'w']

  /** direction.count(letter) for the one-letter direction strings slide.py uses. */
  function Count(direction: char, letter: char): (k: nat)
    ensures k <= 1
  {
    if direction == letter then 1 else 0
  }

  /** Board._adjust_index: one row up for 'n', down for 's', one column right for 'e'
      and left for 'w'. */
  function AdjustIndex(position: (int, int), direction: char): (p: (int, int))
    ensures p.0 == position.0 || p.1 == position.1
    ensures direction !in Directions ==> p == position
  {
    var r := position.0 - Count(direction, 'n') + Count(direction, 's');
    var c := position.1 + Count(direction, 'e') - Count(direction, 'w');
    (r, c)
  }

  /** Each of the four directions moves one cell, exactly as the Java board's step
      toward the same letter does. */
  lemma AdjustIndexSteps(position: (int, int), d: char)
    requires d in Directions
    ensures AdjustIndex(position, d) == (position.0 + Boards.StepRow(d), position.1 + Boards.StepCol(d))
    ensures Dist(position.0, position.1, AdjustIndex(position, d).0, AdjustIndex(position, d).1) == 1
  {
  }

  /** Applying a direction and then its opposite returns to the starting position. */
  lemma AdjustIndexRoundTrip(position: (int, int), d: char)
    requires d in Directions
    ensures Boards.IsDirection(d) && Boards.Opposite(d) in Directions
    ensures AdjustIndex(AdjustIndex(position, d), Boards.Opposite(d)) == position
  {
  }

  // ----- the array a board holds -----

  /** The labels of a, row by row. */
  function Contents(a: array2<int>): (g: Grid)
    reads a
    ensures IsRect(g, a.Length0, a.Length1)
    ensures forall r, c :: 0 <= r < a.Length0 && 0 <= c < a.Length1 ==> g[r][c] == a[r, c]
  {
    seq(a.Length0, r requires 0 <= r < a.Length0 reads a => seq(a.Length1, c requires 0 <= c < a.Length1 reads a => a[r, c]))
  }

  /** Two arrays of one shape have equal contents exactly when they agree cell by cell. */
  lemma SameContents(a: array2<int>, b: array2<int>)
    requires a.Length0 == b.Length0 && a.Length1 == b.Length1
    ensures Contents(a) == Contents(b) <==>
      forall r, c :: 0 <= r < a.Length0 && 0 <= c < a.Length1 ==> a[r, c] == b[r, c]
  {
    if forall r, c :: 0 <= r < a.Length0 && 0 <= c < a.Length1 ==> a[r, c] == b[r, c] {
      RectEqual(Contents(a), Contents(b), a.Length0, a.Length1);
    }
  }

  /** np.copy: a new array of a's shape holding a's labels. */
  method CopyArray(a: array2<int>) returns (copy: array2<int>)
    ensures fresh(copy) && copy.Length0 == a.Length0 && copy.Length1 == a.Length1
    ensures Contents(copy) == Contents(a)
  {
    copy := new int[a.Length0, a.Length1]((i, j) reads a =>
      if 0 <= i < a.Length0 && 0 <= j < a.Length1 then a[i, j] else 0);
    SameContents(copy, a);
  }

  /** The two assignments of a children() branch on the copy: the blank's cell takes
      the label at p, and p becomes the blank. With the blank's cell holding 0 this
      exchanges the two cells. */
  method MoveIntoBlank(copy: array2<int>, blank: (int, int), p: (int, int))
    requires OnGrid(copy.Length0, copy.Length1, blank) && OnGrid(copy.Length0, copy.Length1, p)
    requires copy[blank.0, blank.1] == 0
    modifies copy
    ensures Contents(copy) == SwapCells(old(Contents(copy)), blank.0, blank.1, p.0, p.1)
  {
    ghost var g := Contents(copy);
    ghost var g' := SwapCells(g, blank.0, blank.1, p.0, p.1);
    copy[blank.0, blank.1] := copy[p.0, p.1];
    copy[p.0, p.1] := 0;
    forall i, j | 0 <= i < copy.Length0 && 0 <= j < copy.Length1
      ensures copy[i, j] == g'[i][j]
    {
      if i == p.0 && j == p.1 {
        assert g'[i][j] == g[blank.0][blank.1];
      } else if i == blank.0 && j == blank.1 {
        assert g'[i][j] == g[p.0][p.1];
      } else {
        assert g'[i][j] == g[i][j];
      }
    }
    RectEqual(Contents(copy), g', copy.Length0, copy.Length1);
  }

  /** (r', c') comes at or after (r, c) in row-major order. */
  predicate AtOrAfter(r': int, c': int, r: int, c: int) {
    r' > r || (r' == r && c' >= c)
  }

  /** a holds v at (r, c) or at a later cell. */
  ghost predicate OccursFrom(a: array2<int>, v: int, r: int, c: int)
    reads a
  {
    exists r', c' :: 0 <= r' < a.Length0 && 0 <= c' < a.Length1 && AtOrAfter(r', c', r, c) && a[r', c'] == v
  }

  /** The first cell at or after (r, c) holding v, in row-major order: the entry
      np.where(board == v) lists first. */
  function FirstFrom(a: array2<int>, v: int, r: nat, c: nat): (p: (int, int))
    reads a
    requires r <= a.Length0 && c <= a.Length1 && OccursFrom(a, v, r, c)
    ensures 0 <= p.0 < a.Length0 && 0 <= p.1 < a.Length1 && a[p.0, p.1] == v && AtOrAfter(p.0, p.1, r, c)
    decreases a.Length0 - r, a.Length1 - c
  {
    if c == a.Length1 then
      FirstFrom(a, v, r + 1, 0)
    else if a[r, c] == v then
      (r, c)
    else
      FirstFrom(a, v, r, c + 1)
  }

  /** No cell from (r, c) up to the one FirstFrom returns holds v. */
  lemma {:induction false} FirstFromIsFirst(a: array2<int>, v: int, r: nat, c: nat)
    requires r <= a.Length0 && c <= a.Length1 && OccursFrom(a, v, r, c)
    ensures var p := FirstFrom(a, v, r, c);
      forall r', c' :: 0 <= r' < a.Length0 && 0 <= c' < a.Length1 && AtOrAfter(r', c', r, c) && !AtOrAfter(r', c', p.0, p.1) ==> a[r', c'] != v
    decreases a.Length0 - r, a.Length1 - c
  {
    if c == a.Length1 {
      FirstFromIsFirst(a, v, r + 1, 0);
    } else if a[r, c] != v {
      FirstFromIsFirst(a, v, r, c + 1);
    }
  }

  /** Where Board.children finds the blank. */
  function BlankIndex(a: array2<int>): (p: (int, int))
    reads a
    requires OccursFrom(a, 0, 0, 0)
    ensures 0 <= p.0 < a.Length0 && 0 <= p.1 < a.Length1 && a[p.0, p.1] == 0
  {
    FirstFrom(a, 0, 0, 0)
  }

  /** (r, c) lies on an h-by-w grid. */
  predicate OnGrid(h: int, w: int, p: (int, int)) {
    0 <= p.0 < h && 0 <= p.1 < w
  }

  /** The directions among the first k of Directions whose step from blank stays on
      the h-by-w grid, in order. */
  function Kept(h: int, w: int, blank: (int, int), k: nat): (ds: seq<char>)
    requires k <= 4
    ensures |ds| <= k
  {
    if k == 0 then []
    else
      var d := Directions[k - 1];
      Kept(h, w, blank, k - 1) + (if OnGrid(h, w, AdjustIndex(blank, d)) then [d] else [])
  }

  /** The directions children() takes from blank: the in-bounds ones, in the order
      n, e, s, w. */
  function ChildDirections(h: int, w: int, blank: (int, int)): (ds: seq<char>)
    ensures |ds| <= 4
  {
    Kept(h, w, blank, 4)
  }

  /** Kept lists exactly the in-bounds directions among the first k, each once. */
  lemma {:induction false} KeptMembers(h: int, w: int, blank: (int, int), k: nat)
    requires k <= 4
    ensures forall d :: d in Kept(h, w, blank, k) <==> d in Directions[..k] && OnGrid(h, w, AdjustIndex(blank, d))
    ensures forall i, j :: 0 <= i < j < |Kept(h, w, blank, k)| ==> Kept(h, w, blank, k)[i] != Kept(h, w, blank, k)[j]
  {
    if k > 0 {
      KeptMembers(h, w, blank, k - 1);
      assert Directions[..k] == Directions[..k - 1] + [Directions[k - 1]];
    }
  }

  /** children() takes every direction whose step stays on the grid and no other, and
      none twice. */
  lemma ChildDirectionsMembers(h: int, w: int, blank: (int, int))
    ensures forall d :: d in ChildDirections(h, w, blank) <==> d in Directions && OnGrid(h, w, AdjustIndex(blank, d))
    ensures forall i, j :: 0 <= i < j < |ChildDirections(h, w, blank)| ==> ChildDirections(h, w, blank)[i] != ChildDirections(h, w, blank)[j]
  {
    KeptMembers(h, w, blank, 4);
    assert Directions[..4] == Directions;
  }

  /** The grid of the child toward d: the blank's cell takes the label of its
      neighbour toward d, and that neighbour becomes the blank. */
  function ChildGrid(g: Grid, blank: (int, int), d: char): (g': Grid)
    requires IsCell(g, blank.0, blank.1) && IsCell(g, AdjustIndex(blank, d).0, AdjustIndex(blank, d).1)
    requires g[blank.0][blank.1] == 0
    ensures Tiles(g') == Tiles(g)
  {
    var p := AdjustIndex(blank, d);
    SwapKeepsTiles(g, blank.0, blank.1, p.0, p.1);
    SwapCells(g, blank.0, blank.1, p.0, p.1)
  }

  class Board {
    const board: array2<int>
    var path: seq<char>
    var heuristic: int

    /** Board(board): the grid, an empty path and the heuristic the comparison uses. */
    constructor (board: array2<int>, heuristic: int)
      ensures this.board == board && path == [] && this.heuristic == heuristic
    {
      this.board := board;
      path := [];
      this.heuristic := heuristic;
    }

    /** b is the child of this board toward d: a grid of the same shape with the blank
        stepped toward d, and this board's path extended by d. */
    ghost predicate IsChild(b: Board, d: char)
      reads this, board, b, b.board
      requires OccursFrom(board, 0, 0, 0)
    {
      var blank := BlankIndex(board);
      && b.board.Length0 == board.Length0 && b.board.Length1 == board.Length1
      && OnGrid(board.Length0, board.Length1, AdjustIndex(blank, d))
      && Contents(b.board) == ChildGrid(Contents(board), blank, d)
      && b.path == path + [d]
    }

    /** One branch of Board.children: copy the grid, move the blank's neighbour toward d
        into the blank's cell, put the blank there, and extend the path. */
    method Child(blank: (int, int), d: char) returns (child: Board)
      requires OccursFrom(board, 0, 0, 0) && blank == BlankIndex(board)
      requires OnGrid(board.Length0, board.Length1, AdjustIndex(blank, d))
      ensures fresh(child) && fresh(child.board) && IsChild(child, d)
    {
      var p := AdjustIndex(blank, d);
      var copy := CopyArray(board);
      MoveIntoBlank(copy, blank, p);
      child := new Board(copy, 0);
      child.path := child.path + (path + [d]);
    }

    /** Every moves[j] is the child of this board toward ds[j]. */
    ghost predicate AllChildren(moves: seq<Board>, ds: seq<char>)
      reads this, board, moves, set b | b in moves :: b.board
      requires OccursFrom(board, 0, 0, 0)
    {
      |moves| == |ds| && forall j :: 0 <= j < |moves| ==> IsChild(moves[j], ds[j])
    }

    /** Appending the child toward d extends the list of children by d. */
    lemma AllChildrenGrow(moves: seq<Board>, ds: seq<char>, child: Board, d: char)
      requires OccursFrom(board, 0, 0, 0) && AllChildren(moves, ds) && IsChild(child, d)
      ensures AllChildren(moves + [child], ds + [d])
    {
      var moves', ds' := moves + [child], ds + [d];
      forall j | 0 <= j < |moves'|
        ensures IsChild(moves'[j], ds'[j])
      {
        if j < |moves| {
          assert moves'[j] == moves[j] && ds'[j] == ds[j];
        }
      }
    }

    /** One pass of the loop of Board.children: the child toward the i-th direction
        joins moves when the blank's step toward it stays on the grid. */
    method Offer(moves: seq<Board>, blankIndex: (int, int), i: nat) returns (moves': seq<Board>)
      requires OccursFrom(board, 0, 0, 0) && blankIndex == BlankIndex(board) && i < 4
      requires AllChildren(moves, Kept(board.Length0, board.Length1, blankIndex, i))
      ensures AllChildren(moves', Kept(board.Length0, board.Length1, blankIndex, i + 1))
      ensures forall b :: b in moves' ==> b in moves || (fresh(b) && fresh(b.board))
    {
      var height, width := board.Length0, board.Length1;
      var direction := Directions[i];
      var rc := AdjustIndex(blankIndex, direction);
      if 0 <= rc.0 < height && 0 <= rc.1 < width {
        assert Kept(height, width, blankIndex, i + 1) == Kept(height, width, blankIndex, i) + [direction];
        var copyBoard := Child(blankIndex, direction);
        AllChildrenGrow(moves, Kept(height, width, blankIndex, i), copyBoard, direction);
        moves' := moves + [copyBoard];
      } else {
        assert Kept(height, width, blankIndex, i + 1) == Kept(height, width, blankIndex, i);
        moves' := moves;
      }
    }

    /** Board.children: one child per in-bounds direction, in the order n, e, s, w. */
    method Children() returns (moves: seq<Board>)
      requires OccursFrom(board, 0, 0, 0)
      ensures AllChildren(moves, ChildDirections(board.Length0, board.Length1, BlankIndex(board)))
      ensures forall b :: b in moves ==> fresh(b) && fresh(b.board)
    {
      var blankIndex := BlankIndex(board);
      moves := [];
      for i := 0 to 4
        invariant AllChildren(moves, Kept(board.Length0, board.Length1, blankIndex, i))
        invariant forall b :: b in moves ==> fresh(b) && fresh(b.board)
      {
        moves := Offer(moves, blankIndex, i);
      }
    }

    /** The distance Board.manhattan adds for cell (r, c): 0 when the two grids agree
        there, else the distance from (r, c) to the first cell of this grid holding
        template's label. */
    ghost function CellDistance(template: array2<int>, r: int, c: int): nat
      reads board, template
      requires Comparable(template) && 0 <= r < board.Length0 && 0 <= c < board.Length1
    {
      if board[r, c] != template[r, c] then
        var p := FirstFrom(board, template[r, c], 0, 0);
        Dist(r, c, p.0, p.1)
      else
        0
    }

    /** template has this grid's shape and each of its labels occurs in this grid. */
    ghost predicate Comparable(template: array2<int>)
      reads board, template
    {
      && template.Length0 == board.Length0 && template.Length1 == board.Length1
      && forall r, c :: 0 <= r < board.Length0 && 0 <= c < board.Length1 ==> OccursFrom(board, template[r, c], 0, 0)
    }

    /** The distances of the first k cells of row r. */
    ghost function RowDistance(template: array2<int>, r: int, k: int): nat
      reads board, template
      requires Comparable(template) && 0 <= r < board.Length0 && 0 <= k <= board.Length1
    {
      if k == 0 then 0 else RowDistance(template, r, k - 1) + CellDistance(template, r, k - 1)
    }

    /** The distances of the first k rows. */
    ghost function GridDistance(template: array2<int>, k: int): nat
      reads board, template
      requires Comparable(template) && 0 <= k <= board.Length0
    {
      if k == 0 then 0 else GridDistance(template, k - 1) + RowDistance(template, k - 1, board.Length1)
    }

    /** Board.manhattan(template): the distances of all cells. */
    method Manhattan(template: Board) returns (distance: nat)
      requires Comparable(template.board)
      ensures distance == GridDistance(template.board, board.Length0)
    {
      var height, width := board.Length0, board.Length1;
      distance := 0;
      for r := 0 to height
        invariant distance == GridDistance(template.board, r)
      {
        for c := 0 to width
          invariant distance == GridDistance(template.board, r) + RowDistance(template.board, r, c)
        {
          var missR, missC := r, c;
          if board[r, c] != template.board[r, c] {
            var misplacedIndex := FirstFrom(board, template.board[r, c], 0, 0);
            missR, missC := misplacedIndex.0, misplacedIndex.1;
          }
          distance := distance + Abs(r - missR) + Abs(c - missC);
        }
      }
    }

    /** A cell adds nothing exactly when the two grids agree there. */
    lemma CellDistanceZero(template: array2<int>, r: int, c: int)
      requires Comparable(template) && 0 <= r < board.Length0 && 0 <= c < board.Length1
      ensures CellDistance(template, r, c) == 0 <==> board[r, c] == template[r, c]
    {
    }

    lemma {:induction false} RowDistanceZero(template: array2<int>, r: int, k: int)
      requires Comparable(template) && 0 <= r < board.Length0 && 0 <= k <= board.Length1
      ensures RowDistance(template, r, k) == 0 <==> forall c :: 0 <= c < k ==> board[r, c] == template[r, c]
    {
      if k > 0 {
        RowDistanceZero(template, r, k - 1);
        CellDistanceZero(template, r, k - 1);
      }
    }

    lemma {:induction false} GridDistanceZero(template: array2<int>, k: int)
      requires Comparable(template) && 0 <= k <= board.Length0
      ensures GridDistance(template, k) == 0 <==>
        forall r, c :: 0 <= r < k && 0 <= c < board.Length1 ==> board[r, c] == template[r, c]
    {
      if k > 0 {
        GridDistanceZero(template, k - 1);
        RowDistanceZero(template, k - 1, board.Length1);
      }
    }

    /** manhattan(template) is 0 exactly when template holds this board's grid. */
    lemma ManhattanZeroIffSame(template: array2<int>)
      requires Comparable(template)
      ensures GridDistance(template, board.Length0) == 0 <==> Contents(board) == Contents(template)
    {
      GridDistanceZero(template, board.Length0);
      SameContents(board, template);
    }

    /** Any board can be compared with itself, at distance 0. */
    lemma ManhattanToSelf()
      ensures Comparable(board) && GridDistance(board, board.Length0) == 0
    {
      forall r, c | 0 <= r < board.Length0 && 0 <= c < board.Length1
        ensures OccursFrom(board, board[r, c], 0, 0)
      {
        assert AtOrAfter(r, c, 0, 0);
      }
      ManhattanZeroIffSame(board);
    }

    /** Board.__eq__: the same shape and the same labels, so equal boards hash alike. */
    function Equals(other: Board): (eq: bool)
      reads this, board, other, other.board
      ensures eq <==> (
        && board.Length0 == other.board.Length0 && board.Length1 == other.board.Length1
        && Contents(board) == Contents(other.board))
      ensures eq ==> Hash() == other.Hash()
    {
      ArrayEqual(board, other.board)
    }

    /** Board.__hash__: a hash of the grid's text, which depends only on the shape and
        the labels. */
    function Hash(): int
      reads this, board
    {
      GridHash(Contents(board), board.Length1)
    }

    /** Board.__lt__: the heuristic decides the order. */
    function Less(other: Board): bool
      reads this, other
    {
      heuristic < other.heuristic
    }
  }

  /** A fixed stand-in for hash(str(grid)): some integer computed from the shape and
      the labels alone. */
  function GridHash(g: Grid, width: int): int {
    if g == [] then width else 31 * GridHash(g[..|g| - 1], width) + |g[|g| - 1]| + Sum(g[|g| - 1])
  }

  function Sum(s: seq<int>): int {
    if s == [] then 0 else Sum(s[..|s| - 1]) + s[|s| - 1]
  }

  /** np.array_equal: the same shape and the same labels. */
  function ArrayEqual(a: array2<int>, b: array2<int>): (eq: bool)
    reads a, b
    ensures eq <==> a.Length0 == b.Length0 && a.Length1 == b.Length1 && Contents(a) == Contents(b)
  {
    if a.Length0 == b.Length0 && a.Length1 == b.Length1 then
      SameContents(a, b);
      forall r, c :: 0 <= r < a.Length0 && 0 <= c < a.Length1 ==> a[r, c] == b[r, c]
    else
      false
  }

  /** With a single blank, the children toward two different directions have
      different grids: the cell the first empties still holds a tile in the second. */
  lemma ChildGridsDiffer(g: Grid, h: nat, w: nat, blank: (int, int), d: char, e: char)
    requires IsRect(g, h, w) && OnGrid(h, w, blank) && g[blank.0][blank.1] == 0
    requires forall r, c :: 0 <= r < h && 0 <= c < w && g[r][c] == 0 ==> r == blank.0 && c == blank.1
    requires d in Directions && e in Directions && d != e
    requires OnGrid(h, w, AdjustIndex(blank, d)) && OnGrid(h, w, AdjustIndex(blank, e))
    ensures ChildGrid(g, blank, d) != ChildGrid(g, blank, e)
  {
    AdjustIndexSteps(blank, d);
    AdjustIndexSteps(blank, e);
    var p := AdjustIndex(blank, d);
    assert ChildGrid(g, blank, d)[p.0][p.1] == 0;
    assert ChildGrid(g, blank, e)[p.0][p.1] == g[p.0][p.1] != 0;
  }

  /** x's grid holds 0 only at the blank children() finds. */
  ghost predicate SingleBlank(x: Board)
    reads x.board
    requires OccursFrom(x.board, 0, 0, 0)
  {
    forall r, c :: 0 <= r < x.board.Length0 && 0 <= c < x.board.Length1 && x.board[r, c] == 0 ==> (r, c) == BlankIndex(x.board)
  }

  /** Over a single blank, children of x toward two different directions hold
      different grids. */
  lemma TwoChildrenDiffer(x: Board, a: Board, b: Board, d: char, e: char)
    requires OccursFrom(x.board, 0, 0, 0) && SingleBlank(x)
    requires d in Directions && e in Directions && d != e
    requires x.IsChild(a, d) && x.IsChild(b, e)
    ensures Contents(a.board) != Contents(b.board)
  {
    var g, blank := Contents(x.board), BlankIndex(x.board);
    assert g[blank.0][blank.1] == 0;
    forall r, c | 0 <= r < x.board.Length0 && 0 <= c < x.board.Length1 && g[r][c] == 0
      ensures r == blank.0 && c == blank.1
    {
      assert x.board[r, c] == 0;
    }
    ChildGridsDiffer(g, x.board.Length0, x.board.Length1, blank, d, e);
  }

  /** When x's grid has a single blank, the boards x.children() returns hold pairwise
      different grids. */
  lemma ChildrenDiffer(x: Board, moves: seq<Board>)
    requires OccursFrom(x.board, 0, 0, 0) && SingleBlank(x)
    requires x.AllChildren(moves, ChildDirections(x.board.Length0, x.board.Length1, BlankIndex(x.board)))
    ensures forall i, j :: 0 <= i < j < |moves| ==> Contents(moves[i].board) != Contents(moves[j].board)
  {
    var ds := ChildDirections(x.board.Length0, x.board.Length1, BlankIndex(x.board));
    ChildDirectionsMembers(x.board.Length0, x.board.Length1, BlankIndex(x.board));
    forall i, j | 0 <= i < j < |moves|
      ensures Contents(moves[i].board) != Contents(moves[j].board)
    {
      assert ds[i] in ds && ds[j] in ds;
      TwoChildrenDiffer(x, moves[i], moves[j], ds[i], ds[j]);
    }
  }

  /** Boards that __eq__ calls equal have equal __hash__. */
  lemma EqualBoardsHashEqual(x: Board, y: Board)
    requires x.Equals(y)
    ensures x.Hash() == y.Hash()
  {
  }

  /** __lt__ is a strict order: irreflexive, asymmetric and transitive. */
  lemma LessIsStrictOrder(x: Board, y: Board, z: Board)
    ensures !x.Less(x)
    ensures x.Less(y) ==> !y.Less(x)
    ensures x.Less(y) && y.Less(z) ==> x.Less(z)
  {
  }

  /** Board.goal_board((height, width)): every cell gets c + r*width + 1, row by row,
      then the bottom-right cell gets the blank. */
  method GoalBoard(height: nat, width: nat) returns (goal: array2<int>)
    requires height >= 1 && width >= 1
    ensures fresh(goal) && goal.Length0 == height && goal.Length1 == width
    ensures Contents(goal) == GoalGrid(height, width)
  {
    goal := new int[height, width]((_, _) => 0);
    for r := 0 to height
      invariant forall i, j :: 0 <= i < r && 0 <= j < width ==> goal[i, j] == j + i * width + 1
    {
      for c := 0 to width
        invariant forall i, j :: 0 <= i < r && 0 <= j < width ==> goal[i, j] == j + i * width + 1
        invariant forall j :: 0 <= j < c ==> goal[r, j] == j + r * width + 1
      {
        goal[r, c] := c + r * width + 1;
      }
    }
    goal[height - 1, width - 1] := 0;
    RectEqual(Contents(goal), GoalGrid(height, width), height, width);
  }

  /** The Solver of slide.py as far as its goal test goes: the start board and the goal
      grid of its shape. */
  class Solver {
    const start: Board
    const goal: array2<int>

    /** The goal array holds the goal grid of the start board's shape. */
    ghost predicate Valid()
      reads this, start, start.board, goal
    {
      && goal.Length0 == start.board.Length0 && goal.Length1 == start.board.Length1
      && Contents(goal) == GoalGrid(goal.Length0, goal.Length1)
    }

    /** Solver(start): the goal is goal_board of the start board's shape. */
    constructor (start: Board)
      requires start.board.Length0 >= 1 && start.board.Length1 >= 1
      ensures this.start == start && fresh(goal) && Valid()
    {
      this.start := start;
      var g := GoalBoard(start.board.Length0, start.board.Length1);
      goal := g;
    }

    /** Solver.is_goal: b has the goal's shape and its labels. */
    function IsGoal(b: Board): (g: bool)
      reads this, goal, b, b.board
      ensures g <==> (
        && b.board.Length0 == goal.Length0 && b.board.Length1 == goal.Length1
        && Contents(b.board) == Contents(goal))
    {
      ArrayEqual(b.board, goal)
    }

    /** is_goal(b) holds exactly when b has the start board's shape and holds the goal grid. */
    lemma IsGoalIffGoalGrid(b: Board)
      requires Valid()
      ensures IsGoal(b) <==> (
        && b.board.Length0 == start.board.Length0 && b.board.Length1 == start.board.Length1
        && Contents(b.board) == GoalGrid(start.board.Length0, start.board.Length1))
    {
    }
  }
}
