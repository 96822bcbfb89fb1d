/** A cell position on a Java board: x is the row, y the column. */
module Points {

  class Point {
    var x: int
    var y: int

    constructor (x: int, y: int)
      ensures this.x == x && this.y == y
    {
      this.x := x;
      this.y := y;
    }

    /** Point.equal: this point takes a's coordinates; a itself is not written. */
    method Equal(a: Point)
      modifies this
      ensures x == old(a.x) && y == old(a.y)
    {
      x := a.x;
      y := a.y;
    }

    function GetX(): int
      reads this
    {
      x
    }

    function GetY(): int
      reads this
    {
      y
    }

    /** A new point one row up. */
    method GetNorth() returns (p: Point)
      ensures fresh(p) && p.x == x - 1 && p.y == y
    {
      p := new Point(x - 1, y);
    }

    /** A new point one column right. */
    method GetEast() returns (p: Point)
      ensures fresh(p) && p.x == x && p.y == y + 1
    {
      p := new Point(x, y + 1);
    }

    /** A new point one row down. */
    method GetSouth() returns (p: Point)
      ensures fresh(p) && p.x == x + 1 && p.y == y
    {
      p := new Point(x + 1, y);
    }

    /** A new point one column left. */
    method GetWest() returns (p: Point)
      ensures fresh(p) && p.x == x && p.y == y - 1
    {
      p := new Point(x, y - 1);
    }
  }

  /** Opposite steps cancel: north then south, south then north, east then west
      and west then east each land on p's coordinates, in new points, with p untouched. */
  method OppositeStepsCancel(p: Point) returns (ns: Point, sn: Point, ew: Point, we: Point)
    ensures fresh(ns) && fresh(sn) && fresh(ew) && fresh(we)
    ensures ns.x == sn.x == ew.x == we.x == p.x
    ensures ns.y == sn.y == ew.y == we.y == p.y
  {
    var n := p.GetNorth();
    ns := n.GetSouth();
    var s := p.GetSouth();
    sn := s.GetNorth();
    var e := p.GetEast();
    ew := e.GetWest();
    var w := p.GetWest();
    we := w.GetEast();
  }
}
