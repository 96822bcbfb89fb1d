/** Why Board.isSolvable must count inversions after walking the blank to the
    bottom-right corner. With the blank there, the parity of the tile inversions is
    the same for every board reachable from the goal. Counted on a board whose blank
    sits elsewhere, as src/Board.java does, it is not: on an even-sized board a
    vertical move changes it. */
module Parity {
  import opened Grids
  import opened Boards

  // ----- inversions counted pair by pair -----

  /** The tiles of t (labels other than the blank) below v. */
  function Smaller(v: int, t: seq<int>): nat {
    if t == [] then 0 else Smaller(v, t[..|t| - 1]) + (if t[|t| - 1] != 0 && t[|t| - 1] < v then 1 else 0)
  }

  /** The inversions of s, counted from the front: each label against the tiles after it. */
  function PairInv(s: seq<int>): nat {
    if s == [] then 0 else Smaller(s[0], s[1..]) + PairInv(s[1..])
  }

  lemma {:induction false} SmallerSplit(v: int, a: seq<int>, b: seq<int>)
    ensures Smaller(v, a + b) == Smaller(v, a) + Smaller(v, b)
  {
    if b == [] {
      assert a + b == a;
    } else {
      assert (a + b)[..|a + b| - 1] == a + b[..|b| - 1];
      SmallerSplit(v, a, b[..|b| - 1]);
    }
  }

  lemma SmallerOne(v: int, a: int)
    ensures Smaller(v, [a]) == if a != 0 && a < v then 1 else 0
  {
    assert [a][..0] == [];
  }

  lemma {:induction false} BelowIsSmaller(s: seq<int>, k: int, j: int)
    requires 0 <= k < |s| && k <= j <= |s|
    ensures Below(s, k, j) == Smaller(s[k], s[k..j])
    decreases j - k
  {
    if j == k {
      assert s[k..j] == [];
    } else {
      BelowIsSmaller(s, k, j - 1);
      assert s[k..j][..|s[k..j]| - 1] == s[k..j - 1];
    }
  }

  lemma {:induction false} UpToAndRest(s: seq<int>, m: int)
    requires 0 <= m <= |s|
    ensures InversionsUpTo(s, m) + PairInv(s[m..]) == PairInv(s)
  {
    if m == 0 {
      assert s[0..] == s;
    } else {
      UpToAndRest(s, m - 1);
      var v := s[m - 1];
      assert s[m - 1..][0] == v && s[m - 1..][1..] == s[m..];
      BelowIsSmaller(s, m - 1, |s|);
      assert s[m - 1..|s|] == [v] + s[m..];
      SmallerSplit(v, [v], s[m..]);
      SmallerOne(v, v);
    }
  }

  /** The count Board.isSolvable makes is the number of inverted pairs. */
  lemma {:induction false} InversionsArePairs(s: seq<int>)
    ensures Inversions(s) == PairInv(s)
  {
    UpToAndRest(s, |s|);
    assert s[|s|..] == [];
  }

  lemma {:induction false} SmallerOfPair(v: int, x: seq<int>, a: int, b: int, y: seq<int>)
    ensures Smaller(v, x + [a, b] + y) == Smaller(v, x + [b, a] + y)
  {
    SmallerSplit(v, x + [a, b], y);
    SmallerSplit(v, x, [a, b]);
    SmallerSplit(v, x + [b, a], y);
    SmallerSplit(v, x, [b, a]);
    assert [a, b] == [a] + [b] && [b, a] == [b] + [a];
    SmallerSplit(v, [a], [b]);
    SmallerSplit(v, [b], [a]);
  }

  /** Exchanging two neighbouring labels a, b changes the count by the pair (a, b) alone. */
  lemma {:induction false} AdjacentSwap(x: seq<int>, a: int, b: int, y: seq<int>)
    ensures PairInv(x + [a, b] + y) + Smaller(b, [a]) == PairInv(x + [b, a] + y) + Smaller(a, [b])
    decreases |x|
  {
    var s, s' := x + [a, b] + y, x + [b, a] + y;
    if x == [] {
      assert s[0] == a && s[1..] == [b] + y && s[1..][0] == b && s[1..][1..] == y;
      assert s'[0] == b && s'[1..] == [a] + y && s'[1..][0] == a && s'[1..][1..] == y;
      SmallerSplit(a, [b], y);
      SmallerSplit(b, [a], y);
    } else {
      var x' := x[1..];
      assert s[0] == x[0] && s[1..] == x' + [a, b] + y;
      assert s'[0] == x[0] && s'[1..] == x' + [b, a] + y;
      AdjacentSwap(x', a, b, y);
      SmallerOfPair(x[0], x', a, b, y);
    }
  }

  /** Moving e from in front of the block m to behind it. A blank passes tiles
      without changing the count; a tile passing |m| other tiles changes it by |m|
      modulo 2. */
  lemma {:induction false} MoveAcross(x: seq<int>, e: int, m: seq<int>, y: seq<int>)
    requires e >= 0 && forall i :: 0 <= i < |m| ==> m[i] > 0 && m[i] != e
    ensures e == 0 ==> PairInv(x + [e] + m + y) == PairInv(x + m + [e] + y)
    ensures e != 0 ==> (PairInv(x + [e] + m + y) + |m|) % 2 == PairInv(x + m + [e] + y) % 2
    decreases |m|
  {
    if m == [] {
      assert x + [e] + m + y == x + m + [e] + y;
    } else {
      var m0, m' := m[0], m[1..];
      assert x + [e] + m + y == x + [e, m0] + (m' + y);
      AdjacentSwap(x, e, m0, m' + y);
      SmallerOne(m0, e);
      SmallerOne(e, m0);
      assert x + [m0, e] + (m' + y) == (x + [m0]) + [e] + m' + y;
      MoveAcross(x + [m0], e, m', y);
      assert (x + [m0]) + m' + [e] + y == x + m + [e] + y;
    }
  }

  /** The blank and a tile t with the block m between them change places: the count
      changes by |m| modulo 2. */
  lemma {:induction false} BlankExchange(x: seq<int>, m: seq<int>, t: int, y: seq<int>)
    requires t > 0 && forall i :: 0 <= i < |m| ==> m[i] > 0 && m[i] != t
    ensures (PairInv(x + [0] + m + [t] + y) + |m|) % 2 == PairInv(x + [t] + m + [0] + y) % 2
  {
    var before, after := x + [0] + m + [t] + y, x + [t] + m + [0] + y;
    var mid := x + m + [t] + ([0] + y);
    assert before == x + [0] + m + ([t] + y);
    MoveAcross(x, 0, m, [t] + y);
    assert x + m + [0] + ([t] + y) == (x + m) + [0, t] + y;
    AdjacentSwap(x + m, 0, t, y);
    SmallerOne(t, 0);
    SmallerOne(0, t);
    assert (x + m) + [t, 0] + y == mid;
    assert PairInv(before) == PairInv(mid);
    MoveAcross(x, t, m, [0] + y);
    assert x + [t] + m + ([0] + y) == after;
    FlipParity(PairInv(before), PairInv(after), |m|);
  }

  lemma FlipParity(a: int, b: int, k: int)
    requires (b + k) % 2 == a % 2
    ensures (a + k) % 2 == b % 2
  {
  }

  // ----- from grids to their row-major labels -----

  /** Cell (r, c) of an h-by-w grid is entry c + r*w of its labels. */
  lemma {:induction false} FlattenIndex(g: Grid, h: nat, w: nat, r: int, c: int)
    requires IsRect(g, h, w) && 0 <= r < h && 0 <= c < w
    ensures c + Times(r, w) < |Flatten(g)| && Flatten(g)[c + Times(r, w)] == g[r][c]
  {
    RowsIndex(g, h, w, h, r, c);
  }

  /** Cell (r, c) is entry c + r*w of the labels of the first k rows, for r < k. */
  lemma {:induction false} RowsIndex(g: Grid, h: nat, w: nat, k: nat, r: int, c: int)
    requires IsRect(g, h, w) && 0 <= r < k <= h && 0 <= c < w
    ensures c + Times(r, w) < |FlattenRows(g, k)| && FlattenRows(g, k)[c + Times(r, w)] == g[r][c]
  {
    FlattenRowsLength(g, h, w, k - 1);
    TimesIsProduct(k - 1, w);
    assert FlattenRows(g, k) == FlattenRows(g, k - 1) + g[k - 1];
    if r < k - 1 {
      RowsIndex(g, h, w, k - 1, r, c);
    }
  }

  /** Entry k of the labels of an n-by-n grid is cell (r, c) with k == c + r*n. */
  lemma CellOfIndex(n: nat, k: int) returns (r: int, c: int)
    requires 0 <= k < n * n
    ensures 0 <= r < n && 0 <= c < n && k == c + Times(r, n)
  {
    assert n > 0 by {
      if n == 0 {
        assert false;
      }
    }
    RowMajorOf(n, k);
    r, c := k / n, k % n;
    if r >= n {
      MulMono(n, r, n);
    }
    TimesIsProduct(r, n);
  }

  /** Distinct cells are distinct entries. */
  lemma TimesUnique(w: int, r1: int, c1: int, r2: int, c2: int)
    requires r1 >= 0 && r2 >= 0 && 0 <= c1 < w && 0 <= c2 < w
    requires c1 + Times(r1, w) == c2 + Times(r2, w)
    ensures r1 == r2 && c1 == c2
  {
    TimesIsProduct(r1, w);
    TimesIsProduct(r2, w);
    RowMajorUnique(w, r1, c1, r2, c2);
  }

  /** k copies of w added up: k*w for k >= 0, as repeated addition, so that the entry
      where row k starts is linear to reason about. */
  function Times(k: int, w: int): (t: int)
    ensures k >= 0 && w >= 0 ==> t >= 0
    decreases k
  {
    if k <= 0 then 0 else Times(k - 1, w) + w
  }

  lemma {:induction false} TimesIsProduct(k: int, w: int)
    requires k >= 0
    ensures Times(k, w) == k * w
    decreases k
  {
    if k > 0 {
      TimesIsProduct(k - 1, w);
      MulStep(k - 1, w);
    }
  }

  /** Labels with the blank at entry p only and no label twice or negative. */
  ghost predicate ProperLabels(s: seq<int>, p: int) {
    && 0 <= p < |s| && s[p] == 0
    && (forall i :: 0 <= i < |s| && i != p ==> s[i] > 0)
    && forall i, j :: 0 <= i < j < |s| ==> s[i] != s[j]
  }

  /** Exchanging the blank at p with the tile at q keeps the labels proper, with the
      blank now at q. */
  lemma {:induction false} ExchangeKeepsProper(s: seq<int>, p: int, q: int)
    requires ProperLabels(s, p) && 0 <= q < |s| && p != q
    ensures ProperLabels(s[p := s[q]][q := 0], q)
  {
    var s' := s[p := s[q]][q := 0];
    forall i, j | 0 <= i < j < |s'|
      ensures s'[i] != s'[j]
    {
      if i != q && j != q && (i == p || j == p) {
        var k := if i == p then j else i;
        assert s'[k] == s[k] && s[k] != s[q];
      }
    }
  }

  /** One entry of the labels after exchanging cells (x, y) and (a, b). */
  lemma {:induction false} SwapEntry(g: Grid, n: nat, x: int, y: int, a: int, b: int, k: int)
    requires IsRect(g, n, n) && InSquare(n, x, y) && InSquare(n, a, b) && 0 <= k < |Flatten(g)|
    ensures var p, q := y + Times(x, n), b + Times(a, n);
      && 0 <= p < |Flatten(g)| && 0 <= q < |Flatten(g)| && k < |Flatten(SwapCells(g, x, y, a, b))|
      && Flatten(SwapCells(g, x, y, a, b))[k] ==
           if k == q then Flatten(g)[p] else if k == p then Flatten(g)[q] else Flatten(g)[k]
  {
    var p, q := y + Times(x, n), b + Times(a, n);
    var g' := SwapCells(g, x, y, a, b);
    assert IsRect(g', n, n);
    FlattenLength(g, n, n);
    FlattenIndex(g, n, n, x, y);
    FlattenIndex(g, n, n, a, b);
    var r, c := CellOfIndex(n, k);
    FlattenIndex(g, n, n, r, c);
    FlattenIndex(g', n, n, r, c);
    if k == q {
      TimesUnique(n, r, c, a, b);
    } else if k == p {
      TimesUnique(n, r, c, x, y);
    }
  }

  /** Entry k of s with entries p and q exchanged. */
  lemma ExchangedEntry(s: seq<int>, p: int, q: int, k: int)
    requires 0 <= p < |s| && 0 <= q < |s| && 0 <= k < |s|
    ensures s[p := s[q]][q := s[p]][k] == if k == q then s[p] else if k == p then s[q] else s[k]
  {
  }

  /** After exchanging cells (x, y) and (a, b) the labels are those before with entries
      p = y + x*n and q = b + a*n exchanged. */
  lemma {:induction false} FlattenAfterSwap(g: Grid, n: nat, x: int, y: int, a: int, b: int)
    requires IsRect(g, n, n) && InSquare(n, x, y) && InSquare(n, a, b)
    ensures var p, q := y + Times(x, n), b + Times(a, n);
      && 0 <= p < |Flatten(g)| && 0 <= q < |Flatten(g)|
      && Flatten(SwapCells(g, x, y, a, b)) == Flatten(g)[p := Flatten(g)[q]][q := Flatten(g)[p]]
  {
    var p, q := y + Times(x, n), b + Times(a, n);
    var s, s' := Flatten(g), Flatten(SwapCells(g, x, y, a, b));
    FlattenIndex(g, n, n, x, y);
    FlattenIndex(g, n, n, a, b);
    assert IsRect(SwapCells(g, x, y, a, b), n, n);
    FlattenLength(g, n, n);
    FlattenLength(SwapCells(g, x, y, a, b), n, n);
    var t := s[p := s[q]][q := s[p]];
    forall k | 0 <= k < |s|
      ensures s'[k] == t[k]
    {
      SwapEntry(g, n, x, y, a, b, k);
      ExchangedEntry(s, p, q, k);
    }
  }

  /** A sequence with entries i < j replaced by a and b, in five pieces. */
  lemma {:induction false} Around(s: seq<int>, i: int, j: int, a: int, b: int)
    requires 0 <= i < j < |s|
    ensures s[i := a][j := b] == s[..i] + [a] + s[i + 1..j] + [b] + s[j + 1..]
  {
    var u := s[..i] + [a] + s[i + 1..j] + [b] + s[j + 1..];
    assert |u| == |s|;
    forall k | 0 <= k < |s|
      ensures u[k] == s[i := a][j := b][k]
    {
      if k < i {
      } else if k == i {
      } else if k < j {
        assert u[k] == s[i + 1..j][k - i - 1];
      } else if k == j {
      } else {
        assert u[k] == s[j + 1..][k - j - 1];
      }
    }
  }

  /** The blank at p moves forward to the tile t at q past the tiles between them. */
  lemma {:induction false} ExchangeForward(s: seq<int>, p: int, q: int)
    requires 0 <= p < q < |s| && s[p] == 0 && s[q] > 0
    requires forall i :: p < i < q ==> s[i] > 0 && s[i] != s[q]
    ensures (PairInv(s) + (q - p - 1)) % 2 == PairInv(s[p := s[q]][q := 0]) % 2
  {
    var t, m := s[q], s[p + 1..q];
    var s' := s[p := t][q := 0];
    Around(s, p, q, 0, t);
    Around(s, p, q, t, 0);
    assert s[p := 0][q := t] == s;
    forall i | 0 <= i < |m|
      ensures m[i] > 0 && m[i] != t
    {
      assert m[i] == s[p + 1 + i];
    }
    var before, after := s[..p] + [0] + m + [t] + s[q + 1..], s[..p] + [t] + m + [0] + s[q + 1..];
    assert s == before && s' == after;
    BlankExchange(s[..p], m, t, s[q + 1..]);
    SameParity(PairInv(before), PairInv(after), |m|, q - p - 1);
  }

  /** The blank at p moves back to the tile t at q past the tiles between them. */
  lemma {:induction false} ExchangeBackward(s: seq<int>, p: int, q: int)
    requires 0 <= q < p < |s| && s[p] == 0 && s[q] > 0
    requires forall i :: q < i < p ==> s[i] > 0 && s[i] != s[q]
    ensures (PairInv(s) + (p - q - 1)) % 2 == PairInv(s[p := s[q]][q := 0]) % 2
  {
    var t, m := s[q], s[q + 1..p];
    var s' := s[p := t][q := 0];
    Around(s, q, p, t, 0);
    Around(s, q, p, 0, t);
    assert s[q := t][p := 0] == s;
    assert s' == s[q := 0][p := t];
    forall i | 0 <= i < |m|
      ensures m[i] > 0 && m[i] != t
    {
      assert m[i] == s[q + 1 + i];
    }
    var before, after := s[..q] + [0] + m + [t] + s[p + 1..], s[..q] + [t] + m + [0] + s[p + 1..];
    assert s' == before && s == after;
    BlankExchange(s[..q], m, t, s[p + 1..]);
    FlipParity(PairInv(before), PairInv(after), |m|);
  }

  /** Proper labels with the blank at p and a tile at q: exchanging the two changes the
      count by the number of entries between them, modulo 2. */
  lemma {:induction false} SeqExchange(s: seq<int>, p: int, q: int)
    requires ProperLabels(s, p) && 0 <= q < |s| && p != q
    ensures Mod2(PairInv(s) + (if p < q then q - p - 1 else p - q - 1)) == Mod2(PairInv(s[p := s[q]][q := 0]))
  {
    if p < q {
      assert forall i :: p < i < q ==> s[i] > 0 && s[i] != s[q];
      ExchangeForward(s, p, q);
    } else {
      assert forall i :: q < i < p ==> s[i] > 0 && s[i] != s[q];
      ExchangeBackward(s, p, q);
    }
    Mod2IsMod(PairInv(s) + (if p < q then q - p - 1 else p - q - 1));
    Mod2IsMod(PairInv(s[p := s[q]][q := 0]));
  }

  /** The entries of the blank before and after a move are distinct, and there are
      none between them for a horizontal move and n - 1 for a vertical one, by which
      the row term of the invariant moves too. */
  lemma ExchangeGap(n: nat, x: int, y: int, d: char)
    requires IsDirection(d) && InSquare(n, x, y) && InSquare(n, x + StepRow(d), y + StepCol(d))
    ensures var p, q := y + Times(x, n), (y + StepCol(d)) + Times(x + StepRow(d), n);
      p != q && (if p < q then q - p - 1 else p - q - 1) == if StepRow(d) == 0 then 0 else n - 1
    ensures var k, k' := Times(x, n - 1), Times(x + StepRow(d), n - 1);
      k' == k + (if StepRow(d) == 0 then 0 else n - 1) || k' == k - (if StepRow(d) == 0 then 0 else n - 1)
  {
  }

  /** Exchanging the blank at p with the tile at q keeps the labels proper and, when a
      second count k moves by the number of entries between them, the parity of the
      inversions plus k. */
  lemma {:induction false} SeqStep(s: seq<int>, s': seq<int>, p: int, q: int, gap: int, k: int, k': int)
    requires ProperLabels(s, p) && 0 <= q < |s| && p != q
    requires s' == s[p := s[q]][q := s[p]]
    requires gap == (if p < q then q - p - 1 else p - q - 1) && (k' == k + gap || k' == k - gap)
    ensures ProperLabels(s', q) && Mod2(Inversions(s') + k') == Mod2(Inversions(s) + k)
  {
    SeqExchange(s, p, q);
    ExchangeKeepsProper(s, p, q);
    InversionsArePairs(s);
    InversionsArePairs(s');
    ParityShift(Inversions(s), Inversions(s'), gap, gap, k, k');
  }

  lemma SameParity(a: int, b: int, gap: int, gap': int)
    requires (a + gap) % 2 == b % 2 && gap == gap'
    ensures (a + gap') % 2 == b % 2
  {
  }

  // ----- the invariant -----

  /** k modulo 2, by steps of two. */
  function Mod2(k: int): int
    decreases if k < 0 then 1 - k else k
  {
    if k < 0 then Mod2(k + 2) else if k < 2 then k else Mod2(k - 2)
  }

  lemma {:induction false} Mod2IsMod(k: int)
    ensures Mod2(k) == k % 2
    decreases if k < 0 then 1 - k else k
  {
    if k < 0 {
      Mod2IsMod(k + 2);
    } else if k >= 2 {
      Mod2IsMod(k - 2);
    }
  }

  /** The inversion count plus (n - 1) for every row the blank sits below the top,
      modulo 2. */
  ghost function Parity(g: Grid, n: nat, x: int): int {
    Mod2(Inversions(Flatten(g)) + Times(x, n - 1))
  }

  lemma MulStep(x: int, m: int)
    ensures (x + 1) * m == x * m + m && (x - 1) * m == x * m - m
  {
  }

  /** When a count changes by gap modulo 2 and a second moves by gap either way, their
      sum keeps its parity. */
  lemma ParityShift(a: int, a': int, gap: int, gap': int, k: int, k': int)
    requires Mod2(a + gap) == Mod2(a') && gap == gap' && (k' == k + gap' || k' == k - gap')
    ensures Mod2(a' + k') == Mod2(a + k)
  {
    Mod2IsMod(a + gap);
    Mod2IsMod(a');
    Mod2IsMod(a' + k');
    Mod2IsMod(a + k);
  }

  /** Exchanging the blank at (x, y) with the tile at (a, b) keeps the labels proper,
      with the blank at (a, b), and keeps the inversion count plus k modulo 2 when k
      moves by the number of entries between the two cells. */
  lemma {:induction false} SwapKeepsParity(g: Grid, n: nat, x: int, y: int, a: int, b: int, gap: int, k: int, k': int)
    requires IsRect(g, n, n) && InSquare(n, x, y) && InSquare(n, a, b)
    requires ProperLabels(Flatten(g), y + Times(x, n))
    requires var p, q := y + Times(x, n), b + Times(a, n);
      p != q && gap == (if p < q then q - p - 1 else p - q - 1) && (k' == k + gap || k' == k - gap)
    ensures ProperLabels(Flatten(SwapCells(g, x, y, a, b)), b + Times(a, n))
    ensures Mod2(Inversions(Flatten(SwapCells(g, x, y, a, b))) + k') == Mod2(Inversions(Flatten(g)) + k)
  {
    FlattenAfterSwap(g, n, x, y, a, b);
    SeqStep(Flatten(g), Flatten(SwapCells(g, x, y, a, b)), y + Times(x, n), b + Times(a, n), gap, k, k');
  }

  /** Every move keeps the labels proper, with the blank at its new cell, and keeps the
      invariant. */
  lemma {:induction false} StepKeepsParity(g: Grid, n: nat, x: int, y: int, d: char)
    requires IsRect(g, n, n) && ProperLabels(Flatten(g), y + Times(x, n))
    requires IsDirection(d) && InSquare(n, x, y) && InSquare(n, x + StepRow(d), y + StepCol(d))
    ensures ProperLabels(Flatten(StepGrid(g, x, y, d)), (y + StepCol(d)) + Times(x + StepRow(d), n))
    ensures Parity(StepGrid(g, x, y, d), n, x + StepRow(d)) == Parity(g, n, x)
  {
    ExchangeGap(n, x, y, d);
    SwapKeepsParity(g, n, x, y, x + StepRow(d), y + StepCol(d),
      if StepRow(d) == 0 then 0 else n - 1, Times(x, n - 1), Times(x + StepRow(d), n - 1));
  }

  /** One guarded swap of Board.isSolvable's walk: a move when it stays on the board,
      else nothing; either way the labels stay proper around the blank's cell and the
      invariant is kept. */
  lemma {:induction false} NudgeKeepsParity(g: Grid, n: nat, x: int, y: int, d: char, x': int, y': int)
    requires IsRect(g, n, n) && InSquare(n, x, y) && ProperLabels(Flatten(g), y + Times(x, n)) && IsDirection(d)
    requires (x', y') == if InSquare(n, x + StepRow(d), y + StepCol(d)) then (x + StepRow(d), y + StepCol(d)) else (x, y)
    ensures ProperLabels(Flatten(NudgeGrid(g, n, x, y, d)), y' + Times(x', n))
    ensures Parity(NudgeGrid(g, n, x, y, d), n, x') == Parity(g, n, x)
  {
    if InSquare(n, x + StepRow(d), y + StepCol(d)) {
      StepKeepsParity(g, n, x, y, d);
    }
  }

  /** The walk of Board.isSolvable is a series of moves, so it keeps the invariant too,
      ending with the blank in the bottom row. */
  lemma {:induction false} WalkKeepsParity(g: Grid, n: nat, x: int, y: int)
    requires IsRect(g, n, n) && InSquare(n, x, y) && ProperLabels(Flatten(g), y + Times(x, n))
    ensures Parity(CornerWalk(g, n, x, y), n, n - 1) == Parity(g, n, x)
    decreases (n - 1 - x) + (n - 1 - y)
  {
    if !(x == n - 1 && y == n - 1) {
      var y' := if y < n - 1 then y + 1 else y;
      var x' := if x < n - 1 then x + 1 else x;
      var g1 := NudgeGrid(g, n, x, y, East);
      NudgeKeepsParity(g, n, x, y, East, x, y');
      var g2 := NudgeGrid(g1, n, x, y', South);
      NudgeKeepsParity(g1, n, x, y', South, x', y');
      WalkKeepsParity(g2, n, x', y');
    }
  }

  // ----- the corrected test -----

  /** What Board.isSolvable decides once it counts on the walked copy (see
      Board.IsSolvableFixed). */
  ghost predicate FixedVerdict(g: Grid, n: nat, x: int, y: int)
    requires IsRect(g, n, n) && InSquare(n, x, y)
  {
    Mod2(Inversions(Flatten(CornerWalk(g, n, x, y)))) == 0
  }

  /** FixedVerdict is the test Board.IsSolvableFixed makes. */
  lemma {:induction false} FixedVerdictIsTheTest(g: Grid, n: nat, x: int, y: int)
    requires IsRect(g, n, n) && InSquare(n, x, y)
    ensures FixedVerdict(g, n, x, y) <==> Inversions(Flatten(CornerWalk(g, n, x, y))) % 2 == 0
  {
    Mod2IsMod(Inversions(Flatten(CornerWalk(g, n, x, y))));
  }

  lemma EvenIff(a: int, k: int, p: int)
    requires p == Mod2(a + k)
    ensures Mod2(a) == 0 <==> Mod2(p + k) == 0
  {
    Mod2IsMod(a);
    Mod2IsMod(a + k);
    Mod2IsMod(p + k);
  }

  /** The corrected test decides by the invariant. */
  lemma {:induction false} FixedVerdictByParity(g: Grid, n: nat, x: int, y: int)
    requires IsRect(g, n, n) && InSquare(n, x, y) && ProperLabels(Flatten(g), y + Times(x, n))
    ensures FixedVerdict(g, n, x, y) <==> Mod2(Parity(g, n, x) + Times(n - 1, n - 1)) == 0
  {
    WalkKeepsParity(g, n, x, y);
    EvenIff(Inversions(Flatten(CornerWalk(g, n, x, y))), Times(n - 1, n - 1), Parity(g, n, x));
  }

  /** Two boards with the same invariant get the same corrected verdict. */
  lemma {:induction false} VerdictFromParity(g: Grid, n: nat, x: int, y: int, g': Grid, x': int, y': int)
    requires IsRect(g, n, n) && InSquare(n, x, y) && ProperLabels(Flatten(g), y + Times(x, n))
    requires IsRect(g', n, n) && InSquare(n, x', y') && ProperLabels(Flatten(g'), y' + Times(x', n))
    requires Parity(g', n, x') == Parity(g, n, x)
    ensures FixedVerdict(g', n, x', y') <==> FixedVerdict(g, n, x, y)
  {
    FixedVerdictByParity(g, n, x, y);
    FixedVerdictByParity(g', n, x', y');
  }

  /** A move never changes the corrected verdict. */
  lemma {:induction false} FixedVerdictKeptByMoves(g: Grid, n: nat, x: int, y: int, d: char)
    requires IsRect(g, n, n) && InSquare(n, x, y) && ProperLabels(Flatten(g), y + Times(x, n))
    requires IsDirection(d) && InSquare(n, x + StepRow(d), y + StepCol(d))
    ensures FixedVerdict(StepGrid(g, x, y, d), n, x + StepRow(d), y + StepCol(d)) <==> FixedVerdict(g, n, x, y)
  {
    StepKeepsParity(g, n, x, y, d);
    VerdictFromParity(g, n, x, y, StepGrid(g, x, y, d), x + StepRow(d), y + StepCol(d));
  }

  /** No tile of s from k to j is below s[k]: nothing to count. */
  lemma {:induction false} BelowNone(s: seq<int>, k: int, j: int)
    requires 0 <= k < |s| && k <= j <= |s|
    requires forall i :: k <= i < j ==> s[i] == 0 || s[i] >= s[k]
    ensures Below(s, k, j) == 0
    decreases j - k
  {
    if j > k {
      BelowNone(s, k, j - 1);
    }
  }

  lemma {:induction false} UpToNone(s: seq<int>, m: int)
    requires 0 <= m <= |s|
    requires forall k :: 0 <= k < |s| ==> s[k] == 0 || s[k] == k + 1
    requires forall k :: 0 <= k < |s| && s[k] == 0 ==> k == |s| - 1
    ensures InversionsUpTo(s, m) == 0
  {
    if m > 0 {
      UpToNone(s, m - 1);
      BelowNone(s, m - 1, |s|);
    }
  }

  /** The goal's labels in row-major order: 1, 2, ..., n*n - 1, then the blank. */
  lemma {:induction false} GoalLabels(n: nat)
    requires n >= 1
    ensures |Flatten(GoalGrid(n, n))| == n * n
    ensures forall k :: 0 <= k < n * n ==> Flatten(GoalGrid(n, n))[k] == if k == n * n - 1 then 0 else k + 1
  {
    var g := GoalGrid(n, n);
    var s := Flatten(g);
    FlattenLength(g, n, n);
    forall k | 0 <= k < n * n
      ensures s[k] == if k == n * n - 1 then 0 else k + 1
    {
      var r, c := CellOfIndex(n, k);
      FlattenIndex(g, n, n, r, c);
      TimesIsProduct(r, n);
      GoalCellLabel(n, n, r, c);
      RowMajorBelow(n, n, r, c);
    }
  }

  /** The goal's labels are proper, with the blank last. */
  lemma {:induction false} GoalLabelsProper(n: nat)
    requires n >= 1
    ensures ProperLabels(Flatten(GoalGrid(n, n)), (n - 1) + Times(n - 1, n))
  {
    GoalLabels(n);
    TimesIsProduct(n - 1, n);
    MulStep(n, n);
  }

  /** The goal's labels have no inversion. */
  lemma {:induction false} GoalHasNoInversion(n: nat)
    requires n >= 1
    ensures Inversions(Flatten(GoalGrid(n, n))) == 0
  {
    GoalLabels(n);
    UpToNone(Flatten(GoalGrid(n, n)), n * n);
  }

  /** The corrected test accepts the goal. */
  lemma {:induction false} FixedVerdictOnGoal(n: nat)
    requires n >= 1
    ensures FixedVerdict(GoalGrid(n, n), n, n - 1, n - 1)
  {
    GoalHasNoInversion(n);
  }

  /** The grid and blank after trying direction d: unchanged when d is not a direction
      or would take the blank off the board. */
  ghost function PlayStep(g: Grid, n: nat, x: int, y: int, d: char): (r: (Grid, int, int))
    requires IsRect(g, n, n) && InSquare(n, x, y)
    ensures IsRect(r.0, n, n) && InSquare(n, r.1, r.2)
  {
    if IsDirection(d) && InSquare(n, x + StepRow(d), y + StepCol(d)) then
      (StepGrid(g, x, y, d), x + StepRow(d), y + StepCol(d))
    else
      (g, x, y)
  }

  /** The grid and blank after trying each direction of ds in turn. */
  ghost function Play(g: Grid, n: nat, x: int, y: int, ds: seq<char>): (r: (Grid, int, int))
    requires IsRect(g, n, n) && InSquare(n, x, y)
    ensures IsRect(r.0, n, n) && InSquare(n, r.1, r.2)
    decreases |ds|
  {
    if ds == [] then (g, x, y)
    else
      var s := PlayStep(g, n, x, y, ds[0]);
      Play(s.0, n, s.1, s.2, ds[1..])
  }

  /** One tried direction keeps the labels proper and keeps the invariant. */
  lemma {:induction false} PlayStepKeepsParity(g: Grid, n: nat, x: int, y: int, d: char)
    requires IsRect(g, n, n) && InSquare(n, x, y) && ProperLabels(Flatten(g), y + Times(x, n))
    ensures var r := PlayStep(g, n, x, y, d);
      ProperLabels(Flatten(r.0), r.2 + Times(r.1, n)) && Parity(r.0, n, r.1) == Parity(g, n, x)
  {
    if IsDirection(d) && InSquare(n, x + StepRow(d), y + StepCol(d)) {
      StepKeepsParity(g, n, x, y, d);
    }
  }

  /** Any sequence of moves keeps the labels proper and keeps the invariant. */
  lemma {:induction false} PlayKeepsParity(g: Grid, n: nat, x: int, y: int, ds: seq<char>)
    requires IsRect(g, n, n) && InSquare(n, x, y) && ProperLabels(Flatten(g), y + Times(x, n))
    ensures var r := Play(g, n, x, y, ds);
      ProperLabels(Flatten(r.0), r.2 + Times(r.1, n)) && Parity(r.0, n, r.1) == Parity(g, n, x)
    decreases |ds|
  {
    if ds != [] {
      var s := PlayStep(g, n, x, y, ds[0]);
      PlayStepKeepsParity(g, n, x, y, ds[0]);
      PlayKeepsParity(s.0, n, s.1, s.2, ds[1..]);
    }
  }

  /** Any sequence of moves keeps the corrected verdict. */
  lemma {:induction false} PlayKeepsVerdict(g: Grid, n: nat, x: int, y: int, ds: seq<char>)
    requires IsRect(g, n, n) && InSquare(n, x, y) && ProperLabels(Flatten(g), y + Times(x, n))
    ensures var r := Play(g, n, x, y, ds);
      ProperLabels(Flatten(r.0), r.2 + Times(r.1, n)) && (FixedVerdict(r.0, n, r.1, r.2) <==> FixedVerdict(g, n, x, y))
  {
    var r := Play(g, n, x, y, ds);
    PlayKeepsParity(g, n, x, y, ds);
    VerdictFromParity(g, n, x, y, r.0, r.1, r.2);
  }

  /** Every board reachable from the goal is accepted by the corrected test. */
  lemma {:induction false} ReachableBoardsAccepted(n: nat, ds: seq<char>)
    requires n >= 1
    ensures var r := Play(GoalGrid(n, n), n, n - 1, n - 1, ds); FixedVerdict(r.0, n, r.1, r.2)
  {
    GoalLabelsProper(n);
    FixedVerdictOnGoal(n);
    PlayKeepsVerdict(GoalGrid(n, n), n, n - 1, n - 1, ds);
  }

  // ----- the test as written -----

  /** A 2-by-2 board one move from the goal: the blank steps south to finish. */
  const OneMoveBoard: Grid := [[1, 0], [3, 2]]

  /** Board.isSolvable as written counts this board's own labels, finds one inversion
      and rejects it, though one move solves it and the goal itself is accepted; the
      corrected test accepts it. */
  lemma AsWrittenRejectsOneMoveBoard()
    ensures IsRect(OneMoveBoard, 2, 2) && BlankOnlyAt(OneMoveBoard, 2, 0, 1)
    ensures StepGrid(OneMoveBoard, 0, 1, South) == GoalGrid(2, 2)
    ensures Inversions(Flatten(OneMoveBoard)) % 2 == 1
    ensures Inversions(Flatten(GoalGrid(2, 2))) % 2 == 0
    ensures FixedVerdict(OneMoveBoard, 2, 0, 1)
  {
    var goal := GoalGrid(2, 2);
    assert goal == [[1, 2], [3, 0]] by {
      assert goal[0] == [1, 2] && goal[1] == [3, 0];
    }
    var s := [1, 0, 3, 2];
    assert Flatten(OneMoveBoard) == s;
    assert Below(s, 0, 4) == 0 && Below(s, 1, 4) == 0 && Below(s, 2, 4) == 1 && Below(s, 3, 4) == 0;
    assert InversionsUpTo(s, 4) == 1;
    GoalHasNoInversion(2);
    RectEqual(StepGrid(OneMoveBoard, 0, 1, South), goal, 2, 2);
    assert CornerWalk(OneMoveBoard, 2, 0, 1) == goal;
  }
}
