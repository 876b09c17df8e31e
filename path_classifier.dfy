/** How the router picks the connector shape of a path cell (`CalcOptimalPathSegment`) and what
    a step between cells costs on top of the cell's own cost (`CalcAdditionalDirectionCost`). */
module PathClassifier {
  import opened Common
  import opened PathSegments

  /** `CalcAdditionalDirectionCost(from, to)`: 2 for a diagonal step, 1 for a straight one, and
      50000 for two cells that are not neighbours. */
  function DirectionCost(from: Coordinate, to: Coordinate): (c: int)
    ensures c == 2 <==> Abs(from.Y - to.Y) == 1 && Abs(from.X - to.X) == 1
    ensures c == 1 <==> (Abs(from.Y - to.Y) == 1) != (Abs(from.X - to.X) == 1)
    ensures c in {1, 2, 50000}
  {
    var distY := Abs(from.Y - to.Y);
    var distX := Abs(from.X - to.X);
    if distY == 1 && distX == 1 then 2
    else if distY == 1 || distX == 1 then 1
    else 50000
  }

  /** Between two of the eight neighbours a diagonal step costs 2 and a straight one 1; the
      cost depends only on the two cells, not on the direction of the step. */
  lemma DirectionCostOfNeighbours(a: Coordinate, b: Coordinate)
    requires a != b && Abs(a.Y - b.Y) <= 1 && Abs(a.X - b.X) <= 1
    ensures DirectionCost(a, b) == (if a.Y != b.Y && a.X != b.X then 2 else 1)
    ensures DirectionCost(a, b) == DirectionCost(b, a)
  {
  }

  /** The code a neighbour at offset d from the centre contributes: the nibbles of the sides
      the line has to leave through to reach it; nothing for a cell that is not a neighbour. */
  function Bucket(d: Coordinate): (b: bv16)
    ensures d == Coordinate(0, -1) ==> b == 0x2000
    ensures d == Coordinate(0, 1) ==> b == 0x0020
    ensures d == Coordinate(-1, 0) ==> b == 0x0200
    ensures d == Coordinate(1, 0) ==> b == 0x0002
  {
    if d == Coordinate(-1, -1) then 0x1100
    else if d == Coordinate(-1, 0) then 0x0200
    else if d == Coordinate(-1, 1) then 0x0310
    else if d == Coordinate(0, -1) then 0x2000
    else if d == Coordinate(0, 1) then 0x0020
    else if d == Coordinate(1, -1) then 0x3001
    else if d == Coordinate(1, 0) then 0x0002
    else if d == Coordinate(1, 1) then 0x0033
    else 0x0000
  }

  function Offset(from: Coordinate, to: Coordinate): Coordinate {
    Coordinate(to.Y - from.Y, to.X - from.X)
  }

  /** `CalcOptimalPathSegment`: the shape of a path cell at center, reached from prev, going on
      to next. With no next cell the shape is Empty; otherwise it is the XOR of the two
      neighbours' codes. */
  function CalcOptimalPathSegment(prev: Coordinate, center: Coordinate, next: Option<Coordinate>): PathSegment {
    if next.None? then Empty
    else Bucket(Offset(center, prev)) ^ Bucket(Offset(center, next.value))
  }

  /** The shape does not depend on the direction in which the route is walked. */
  lemma ClassifierSymmetric(a: Coordinate, center: Coordinate, b: Coordinate)
    ensures CalcOptimalPathSegment(a, center, Some(b)) == CalcOptimalPathSegment(b, center, Some(a))
  {
  }

  /** A route passing straight from left to right is Horizontal, from top to bottom Vertical,
      and a route that ends at the cell draws nothing. */
  lemma ClassifierStraight(center: Coordinate, prev: Coordinate)
    ensures CalcOptimalPathSegment(Coordinate(center.Y, center.X - 1), center, Some(Coordinate(center.Y, center.X + 1))) == Horizontal
    ensures CalcOptimalPathSegment(Coordinate(center.Y - 1, center.X), center, Some(Coordinate(center.Y + 1, center.X))) == Vertical
    ensures CalcOptimalPathSegment(prev, center, None) == Empty
  {
  }

  predicate IsUnit(d: Coordinate) {
    d != Coordinate(0, 0) && -1 <= d.Y <= 1 && -1 <= d.X <= 1
  }

  /** A route that passes through the cell between two opposite neighbours gets one of the
      named straight or diagonal shapes, the one whose sides point at both neighbours. */
  lemma ClassifierOpposite(center: Coordinate, d: Coordinate)
    requires IsUnit(d)
    ensures var s := CalcOptimalPathSegment(center.Plus(d), center, Some(center.Plus(Coordinate(-d.Y, -d.X))));
      IsNamed(s) && s == Bucket(d) | Bucket(Coordinate(-d.Y, -d.X)) &&
      (d.Y == 0 ==> s == Horizontal) && (d.X == 0 ==> s == Vertical) &&
      (d.Y == d.X ==> s == TopLeftToBottomRight) && (d.Y == -d.X ==> s == BottomLeftToTopRight)
  {
  }

  /** The successor equal to the predecessor (a route that turns back) cancels out. */
  lemma ClassifierTurnBack(prev: Coordinate, center: Coordinate)
    ensures CalcOptimalPathSegment(prev, center, Some(prev)) == Empty
  {
  }
}
