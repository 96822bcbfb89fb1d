/** The symmetry of Board.manhattan in slide.py: over two grids of the same shape
    that hold the same labels, each once, the distance from one to the other equals
    the distance back. Each distance is read as the total span of a list of links,
    one per cell, from the cell to the cell manhattan measures it against; the links
    one way are those the other way turned around. */
module Links {
  import opened Grids
  import opened Slide

  /** A cell of one grid paired with a cell of another. */
  type Link = ((int, int), (int, int))

  /** The taxicab length of a link. */
  function Span(l: Link): nat {
    Dist(l.0.0, l.0.1, l.1.0, l.1.1)
  }

  /** The spans of the links, summed. */
  function LinkLength(s: seq<Link>): nat {
    if s == [] then 0 else LinkLength(s[..|s| - 1]) + Span(s[|s| - 1])
  }

  /** No link is listed twice. */
  predicate NoDup(s: seq<Link>) {
    forall i, j :: 0 <= i < j < |s| ==> s[i] != s[j]
  }

  /** Every link turned around. */
  function Flip(s: seq<Link>): (f: seq<Link>)
    ensures |f| == |s| && forall i :: 0 <= i < |s| ==> f[i] == (s[i].1, s[i].0)
  {
    seq(|s|, i requires 0 <= i < |s| => (s[i].1, s[i].0))
  }

  /** The links of t but the one at i, in order. */
  function Without(t: seq<Link>, i: int): (t': seq<Link>)
    requires 0 <= i < |t|
    ensures |t'| == |t| - 1
    ensures forall k :: 0 <= k < |t'| ==> t'[k] == t[if k < i then k else k + 1]
  {
    t[..i] + t[i + 1..]
  }

  lemma {:induction false} LinkLengthAppend(s: seq<Link>, t: seq<Link>)
    ensures LinkLength(s + t) == LinkLength(s) + LinkLength(t)
    decreases |t|
  {
    if t != [] {
      var t' := t[..|t| - 1];
      assert (s + t)[..|s + t| - 1] == s + t';
      LinkLengthAppend(s, t');
    } else {
      assert s + t == s;
    }
  }

  /** Turning every link around keeps each span, hence the total. */
  lemma {:induction false} FlipLength(s: seq<Link>)
    ensures LinkLength(Flip(s)) == LinkLength(s)
    decreases |s|
  {
    if s != [] {
      assert Flip(s)[..|s| - 1] == Flip(s[..|s| - 1]);
      FlipLength(s[..|s| - 1]);
    }
  }

  /** Turning every link around keeps them distinct, and lists exactly the reversed links. */
  lemma FlipMembers(s: seq<Link>)
    requires NoDup(s)
    ensures NoDup(Flip(s))
    ensures forall l :: l in Flip(s) <==> (l.1, l.0) in s
  {
    forall l: Link | (l.1, l.0) in s
      ensures l in Flip(s)
    {
      var i :| 0 <= i < |s| && s[i] == (l.1, l.0);
      assert Flip(s)[i] == l;
    }
  }

  /** Taking out one link of a duplicate-free list leaves exactly the others, once each. */
  lemma WithoutMembers(t: seq<Link>, i: int)
    requires NoDup(t) && 0 <= i < |t|
    ensures NoDup(Without(t, i))
    ensures forall l :: l in Without(t, i) <==> l in t && l != t[i]
  {
    var t' := Without(t, i);
    forall a, b | 0 <= a < b < |t'|
      ensures t'[a] != t'[b]
    {
      assert t'[a] == t[if a < i then a else a + 1];
      assert t'[b] == t[if b < i then b else b + 1];
    }
    forall l: Link | l in t'
      ensures l in t && l != t[i]
    {
      var k :| 0 <= k < |t'| && t'[k] == l;
      assert t[if k < i then k else k + 1] == l;
    }
    forall l: Link | l in t && l != t[i]
      ensures l in t'
    {
      var k :| 0 <= k < |t| && t[k] == l;
      assert t'[if k < i then k else k - 1] == l;
    }
  }

  /** Taking out one link takes its span off the total. */
  lemma {:induction false} WithoutLength(t: seq<Link>, i: int)
    requires 0 <= i < |t|
    ensures LinkLength(t) == LinkLength(Without(t, i)) + Span(t[i])
    decreases |t|
  {
    var last := |t| - 1;
    if i == last {
      assert Without(t, i) == t[..last];
    } else {
      var t' := Without(t, i);
      assert t'[..|t'| - 1] == Without(t[..last], i);
      assert t'[|t'| - 1] == t[last];
      WithoutLength(t[..last], i);
    }
  }

  /** Two duplicate-free lists of the same links have the same total span, in
      whatever order they list them. */
  lemma {:induction false} SameLinks(s: seq<Link>, t: seq<Link>)
    requires NoDup(s) && NoDup(t) && |s| == |t|
    requires forall l :: l in s <==> l in t
    ensures LinkLength(s) == LinkLength(t)
    decreases |s|
  {
    if s != [] {
      var x := s[0];
      assert x in t;
      var i :| 0 <= i < |t| && t[i] == x;
      WithoutMembers(s, 0);
      WithoutMembers(t, i);
      WithoutLength(s, 0);
      WithoutLength(t, i);
      SameLinks(Without(s, 0), Without(t, i));
    }
  }

  /** In a grid whose labels are distinct, two cells with the same label are one cell. */
  lemma DistinctCells(a: array2<int>, r1: int, c1: int, r2: int, c2: int)
    requires Distinct(Contents(a)) && 0 <= r1 < a.Length0 && 0 <= c1 < a.Length1 && 0 <= r2 < a.Length0 && 0 <= c2 < a.Length1
    ensures a[r1, c1] == a[r2, c2] ==> r1 == r2 && c1 == c2
  {
    var g := Contents(a);
    assert IsCell(g, r1, c1) && IsCell(g, r2, c2) && g[r1][c1] == a[r1, c1] && g[r2][c2] == a[r2, c2];
  }

  /** In a grid whose labels are distinct, the first cell holding the label of (r, c)
      is (r, c) itself. */
  lemma FirstFromUnique(a: array2<int>, r: int, c: int)
    requires Distinct(Contents(a)) && 0 <= r < a.Length0 && 0 <= c < a.Length1
    ensures OccursFrom(a, a[r, c], 0, 0) && FirstFrom(a, a[r, c], 0, 0) == (r, c)
  {
    assert AtOrAfter(r, c, 0, 0);
    var p := FirstFrom(a, a[r, c], 0, 0);
    DistinctCells(a, p.0, p.1, r, c);
  }

  // ----- the links of Board.manhattan -----

  /** The cell x.manhattan(template) measures (r, c) against: (r, c) itself where the
      two grids agree, else the first cell of x's grid holding template's label. */
  ghost function Target(x: Board, template: array2<int>, r: int, c: int): (p: (int, int))
    reads x.board, template
    requires x.Comparable(template) && 0 <= r < x.board.Length0 && 0 <= c < x.board.Length1
    ensures x.CellDistance(template, r, c) == Dist(r, c, p.0, p.1)
  {
    if x.board[r, c] != template[r, c] then FirstFrom(x.board, template[r, c], 0, 0) else (r, c)
  }

  /** The links of the first k cells of row r. */
  ghost function RowLinks(x: Board, template: array2<int>, r: int, k: int): seq<Link>
    reads x.board, template
    requires x.Comparable(template) && 0 <= r < x.board.Length0 && 0 <= k <= x.board.Length1
  {
    if k == 0 then [] else RowLinks(x, template, r, k - 1) + [((r, k - 1), Target(x, template, r, k - 1))]
  }

  /** The links of the first k rows. */
  ghost function GridLinks(x: Board, template: array2<int>, k: int): seq<Link>
    reads x.board, template
    requires x.Comparable(template) && 0 <= k <= x.board.Length0
  {
    if k == 0 then [] else GridLinks(x, template, k - 1) + RowLinks(x, template, k - 1, x.board.Length1)
  }

  /** The links of a row prefix are those of its cells, once each. */
  lemma {:induction false} RowLinksMembers(x: Board, template: array2<int>, r: int, k: int)
    requires x.Comparable(template) && 0 <= r < x.board.Length0 && 0 <= k <= x.board.Length1
    ensures NoDup(RowLinks(x, template, r, k))
    ensures forall l :: l in RowLinks(x, template, r, k) <==>
      l.0.0 == r && 0 <= l.0.1 < k && l.1 == Target(x, template, l.0.0, l.0.1)
  {
    if k > 0 {
      RowLinksMembers(x, template, r, k - 1);
    }
  }

  /** The links of the first k rows are those of their cells, once each. */
  lemma {:induction false} GridLinksMembers(x: Board, template: array2<int>, k: int)
    requires x.Comparable(template) && 0 <= k <= x.board.Length0
    ensures NoDup(GridLinks(x, template, k))
    ensures forall l :: l in GridLinks(x, template, k) <==>
      0 <= l.0.0 < k && 0 <= l.0.1 < x.board.Length1 && l.1 == Target(x, template, l.0.0, l.0.1)
  {
    if k > 0 {
      GridLinksMembers(x, template, k - 1);
      RowLinksMembers(x, template, k - 1, x.board.Length1);
      var s, t := GridLinks(x, template, k - 1), RowLinks(x, template, k - 1, x.board.Length1);
      forall i, j | 0 <= i < j < |s + t|
        ensures (s + t)[i] != (s + t)[j]
      {
        if i < |s| && j >= |s| {
          assert (s + t)[i] in s && (s + t)[j] in t;
        }
      }
    }
  }

  /** The first k rows have one link per cell. */
  lemma {:induction false} GridLinksCount(x: Board, template: array2<int>, k: int)
    requires x.Comparable(template) && 0 <= k <= x.board.Length0
    ensures |GridLinks(x, template, k)| == k * x.board.Length1
  {
    if k > 0 {
      GridLinksCount(x, template, k - 1);
      RowLinksCount(x, template, k - 1, x.board.Length1);
      assert (k - 1) * x.board.Length1 + x.board.Length1 == k * x.board.Length1;
    }
  }

  lemma {:induction false} RowLinksCount(x: Board, template: array2<int>, r: int, k: int)
    requires x.Comparable(template) && 0 <= r < x.board.Length0 && 0 <= k <= x.board.Length1
    ensures |RowLinks(x, template, r, k)| == k
  {
    if k > 0 {
      RowLinksCount(x, template, r, k - 1);
    }
  }

  /** A row's distance is the total span of its links. */
  lemma {:induction false} RowLinksLength(x: Board, template: array2<int>, r: int, k: int)
    requires x.Comparable(template) && 0 <= r < x.board.Length0 && 0 <= k <= x.board.Length1
    ensures x.RowDistance(template, r, k) == LinkLength(RowLinks(x, template, r, k))
  {
    if k > 0 {
      RowLinksLength(x, template, r, k - 1);
      var s := RowLinks(x, template, r, k);
      assert s[..|s| - 1] == RowLinks(x, template, r, k - 1);
    }
  }

  /** The distance of the first k rows is the total span of their links. */
  lemma {:induction false} GridLinksLength(x: Board, template: array2<int>, k: int)
    requires x.Comparable(template) && 0 <= k <= x.board.Length0
    ensures x.GridDistance(template, k) == LinkLength(GridLinks(x, template, k))
  {
    if k > 0 {
      GridLinksLength(x, template, k - 1);
      RowLinksLength(x, template, k - 1, x.board.Length1);
      LinkLengthAppend(GridLinks(x, template, k - 1), RowLinks(x, template, k - 1, x.board.Length1));
    }
  }

  /** When y's grid holds each label once, each link x.manhattan(y) measures, turned
      around, is one y.manhattan(x) measures. */
  lemma LinksTurnAround(x: Board, y: Board)
    requires x.Comparable(y.board) && y.Comparable(x.board) && Distinct(Contents(y.board))
    ensures forall l :: l in GridLinks(x, y.board, x.board.Length0) ==> (l.1, l.0) in GridLinks(y, x.board, y.board.Length0)
  {
    var a, b := x.board, y.board;
    GridLinksMembers(x, b, a.Length0);
    GridLinksMembers(y, a, b.Length0);
    forall l | l in GridLinks(x, b, a.Length0)
      ensures (l.1, l.0) in GridLinks(y, a, b.Length0)
    {
      var u, v := l.0, l.1;
      assert 0 <= u.0 < a.Length0 && 0 <= u.1 < a.Length1 && v == Target(x, b, u.0, u.1);
      if a[u.0, u.1] != b[u.0, u.1] {
        assert a[v.0, v.1] == b[u.0, u.1];
        FirstFromUnique(b, u.0, u.1);
        DistinctCells(b, v.0, v.1, u.0, u.1);
        assert u == Target(y, a, v.0, v.1);
      }
    }
  }

  /** For two grids of the same shape holding the same labels, each once, manhattan
      measures the same in both directions. */
  lemma ManhattanSymmetric(x: Board, y: Board)
    requires x.Comparable(y.board) && y.Comparable(x.board)
    requires Distinct(Contents(x.board)) && Distinct(Contents(y.board))
    ensures x.GridDistance(y.board, x.board.Length0) == y.GridDistance(x.board, y.board.Length0)
  {
    var p, q := GridLinks(x, y.board, x.board.Length0), GridLinks(y, x.board, y.board.Length0);
    GridLinksLength(x, y.board, x.board.Length0);
    GridLinksLength(y, x.board, y.board.Length0);
    GridLinksMembers(x, y.board, x.board.Length0);
    GridLinksMembers(y, x.board, y.board.Length0);
    GridLinksCount(x, y.board, x.board.Length0);
    GridLinksCount(y, x.board, y.board.Length0);
    LinksTurnAround(x, y);
    LinksTurnAround(y, x);
    FlipLength(q);
    FlipMembers(q);
    forall l: Link
      ensures l in p <==> l in Flip(q)
    {
      if l in Flip(q) {
        assert (l.1, l.0) in q;
        assert ((l.1, l.0).1, (l.1, l.0).0) == l;
      }
    }
    SameLinks(p, Flip(q));
  }
}
