/** The text form of a Java board (Board.toString) and the Java string hash
    that Board.hashCode applies to it. Java's Board.equals compares these texts,
    so the central fact here is that the text determines the grid. */
module Render {
  import opened Grids

  function DigitChar(d: int): (ch: char)
    requires 0 <= d < 10
    ensures '0' <= ch <= '9' && (ch as int) - 48 == d
  {
    (48 + d) as char
  }

  /** Decimal digits of n, most significant first, as Integer.toString writes them. */
  function NatToString(n: nat): (s: string)
    ensures |s| >= 1 && ' ' !in s && '\n' !in s && s[0] != '-'
    ensures n >= 10 ==> |s| >= 2
  {
    if n < 10 then [DigitChar(n)] else NatToString(n / 10) + [DigitChar(n % 10)]
  }

  /** Integer.toString: a minus sign for negative values, then the digits. */
  function IntToString(i: int): (s: string)
    ensures ' ' !in s && '\n' !in s
    ensures |s| >= 1 && (s[0] == '-' <==> i < 0)
  {
    if i < 0 then "-" + NatToString(-i) else NatToString(i)
  }

  lemma {:induction false} NatToStringInjective(a: nat, b: nat)
    requires NatToString(a) == NatToString(b)
    ensures a == b
  {
    var s := NatToString(a);
    if a >= 10 && b >= 10 {
      assert s[|s| - 1] == DigitChar(a % 10) == DigitChar(b % 10);
      assert NatToString(a / 10) == s[..|s| - 1] == NatToString(b / 10);
      NatToStringInjective(a / 10, b / 10);
    }
  }

  /** Distinct integers are written as distinct texts. */
  lemma IntToStringInjective(a: int, b: int)
    requires IntToString(a) == IntToString(b)
    ensures a == b
  {
    var s := IntToString(a);
    if a < 0 && b < 0 {
      assert NatToString(-a) == s[1..] == NatToString(-b);
      NatToStringInjective(-a, -b);
    } else if a >= 0 && b >= 0 {
      NatToStringInjective(a, b);
    }
  }

  /** One row of Board.toString: every label followed by a space. */
  function RenderRow(row: seq<int>): (s: string)
    ensures '\n' !in s
    ensures s == [] <==> row == []
    ensures s == [] || s[|s| - 1] == ' '
  {
    if row == [] then "" else RenderRow(row[..|row| - 1]) + IntToString(row[|row| - 1]) + " "
  }

  /** Board.toString: every row followed by a line break. */
  function RenderGrid(g: Grid): (s: string)
    ensures s == [] <==> g == []
    ensures s == [] || s[|s| - 1] == '\n'
  {
    if g == [] then "" else RenderGrid(g[..|g| - 1]) + RenderRow(g[|g| - 1]) + "\n"
  }

  /** Text built row by row and cell by cell: appending the next label and a space
      after the text of a row prefix gives the text of the longer prefix. */
  lemma RowTextStep(head: string, row: seq<int>, c: int)
    requires 0 <= c < |row|
    ensures head + RenderRow(row[..c]) + (IntToString(row[c]) + " ") == head + RenderRow(row[..c + 1])
  {
    assert row[..c + 1][..c] == row[..c];
  }

  /** Appending a row's text and a line break after the text of the first r rows
      gives the text of the first r + 1 rows. */
  lemma GridTextStep(g: Grid, r: int)
    requires 0 <= r < |g|
    ensures RenderGrid(g[..r]) + RenderRow(g[r]) + "\n" == RenderGrid(g[..r + 1])
  {
    assert g[..r + 1][..r] == g[..r];
  }

  /** An empty prefix has empty text, a full prefix is the whole sequence. */
  lemma PrefixEnds<T>(head: string, s: seq<T>)
    ensures s[..0] == [] && s[..|s|] == s
    ensures head + RenderRow([]) == head && RenderGrid([]) == ""
  {
  }

  /** Two texts that each end in a separator (or are empty), followed by
      separator-free texts, can be told apart at their last separator. */
  lemma SplitAtLastSeparator(a: string, b: string, c: string, d: string, sep: char)
    requires a == [] || a[|a| - 1] == sep
    requires c == [] || c[|c| - 1] == sep
    requires sep !in b && sep !in d
    requires a + b == c + d
    ensures a == c && b == d
  {
    if |b| < |d| {
      SeparatorInLonger(a, b, c, d, sep);
    } else if |d| < |b| {
      SeparatorInLonger(c, d, a, b, sep);
    } else {
      assert a == (a + b)[..|a|] && c == (c + d)[..|c|];
      assert b == (a + b)[|a|..] && d == (c + d)[|c|..];
    }
  }

  /** When a + b == c + d with d the longer tail, the last character of a falls inside d. */
  lemma SeparatorInLonger(a: string, b: string, c: string, d: string, sep: char)
    requires a == [] || a[|a| - 1] == sep
    requires a + b == c + d && |b| < |d|
    ensures sep in d
  {
    var k := |a| - 1;
    assert d[k - |c|] == (c + d)[k] == (a + b)[k] == a[k];
  }

  /** Two texts built as "prefix + item + terminator", where each prefix is empty or
      ends in the separator and no item contains it, have equal prefixes and items. */
  lemma SplitTerminated(a: string, b: string, c: string, d: string, sep: char, term: char)
    requires a == [] || a[|a| - 1] == sep
    requires c == [] || c[|c| - 1] == sep
    requires sep !in b && sep !in d
    requires a + b + [term] == c + d + [term]
    ensures a == c && b == d
  {
    var p, q := a + b, c + d;
    assert p == (p + [term])[..|p|] && q == (q + [term])[..|q|];
    SplitAtLastSeparator(a, b, c, d, sep);
  }

  lemma SameInitAndLast<T>(x: seq<T>, y: seq<T>)
    requires x != [] && y != []
    requires x[..|x| - 1] == y[..|y| - 1] && x[|x| - 1] == y[|y| - 1]
    ensures x == y
  {
    assert x == x[..|x| - 1] + [x[|x| - 1]];
    assert y == y[..|y| - 1] + [y[|y| - 1]];
  }

  /** RenderRow(x) and RenderRow(y) agree only when x and y do. */
  lemma {:induction false} RenderRowInjective(x: seq<int>, y: seq<int>)
    requires RenderRow(x) == RenderRow(y)
    ensures x == y
  {
    if x != [] && y != [] {
      var x', y' := x[..|x| - 1], y[..|y| - 1];
      SplitTerminated(RenderRow(x'), IntToString(x[|x| - 1]), RenderRow(y'), IntToString(y[|y| - 1]), ' ', ' ');
      IntToStringInjective(x[|x| - 1], y[|y| - 1]);
      RenderRowInjective(x', y');
      SameInitAndLast(x, y);
    }
  }

  /** Board.toString determines the grid: equal texts come from equal grids. */
  lemma {:induction false} RenderGridInjective(g1: Grid, g2: Grid)
    requires RenderGrid(g1) == RenderGrid(g2)
    ensures g1 == g2
  {
    if g1 != [] && g2 != [] {
      var h1, h2 := g1[..|g1| - 1], g2[..|g2| - 1];
      SplitTerminated(RenderGrid(h1), RenderRow(g1[|g1| - 1]), RenderGrid(h2), RenderRow(g2[|g2| - 1]), '\n', '\n');
      RenderRowInjective(g1[|g1| - 1], g2[|g2| - 1]);
      RenderGridInjective(h1, h2);
      SameInitAndLast(g1, g2);
    }
  }

  /** A Java int: the value wrapped into -2^31 .. 2^31-1. */
  function WrapInt(x: int): (v: int)
    ensures -0x8000_0000 <= v < 0x8000_0000
    ensures (v - x) % 0x1_0000_0000 == 0
  {
    (x + 0x8000_0000) % 0x1_0000_0000 - 0x8000_0000
  }

  /** String.hashCode: h = 31 * h + ch over the characters, in 32-bit arithmetic. */
  function StringHash(s: string): (h: int)
    ensures -0x8000_0000 <= h < 0x8000_0000
  {
    if s == [] then 0 else WrapInt(31 * StringHash(s[..|s| - 1]) + s[|s| - 1] as int)
  }
}
