/** The 17 connector shapes, encoded 0xLTRB: one nibble per side (left, top, right, bottom).
    A left or right nibble says where the line meets that side (1 top, 2 centre, 3 bottom),
    a top or bottom nibble likewise (1 left, 2 centre, 3 right); 0 means the side is unused. */
module PathSegments {

  /** A segment code; any 16-bit value can be cast to the C# enumeration, named or not. */
  type PathSegment = bv16

  const Empty: PathSegment := 0x0000
  const Horizontal: PathSegment := 0x2020
  const Vertical: PathSegment := 0x0202
  const BottomLeftToTopRight: PathSegment := 0x3311
  const TopLeftToBottomRight: PathSegment := 0x1133
  const BottomLeftToRight: PathSegment := 0x3021
  const TopLeftToRight: PathSegment := 0x1120
  const LeftToTopRight: PathSegment := 0x2310
  const LeftToBottomRight: PathSegment := 0x2033
  const BottomLeftToTop: PathSegment := 0x3201
  const TopLeftToBottom: PathSegment := 0x1102
  const TopToBottomRight: PathSegment := 0x0233
  const BottomToTopRight: PathSegment := 0x0312
  const LeftToTop: PathSegment := 0x2200
  const LeftToBottom: PathSegment := 0x2002
  const TopToRight: PathSegment := 0x0220
  const BottomToRight: PathSegment := 0x0022

  /** The named codes in declaration order. */
  const Named: seq<PathSegment> := [
    Empty, Horizontal, Vertical, BottomLeftToTopRight, TopLeftToBottomRight,
    BottomLeftToRight, TopLeftToRight, LeftToTopRight, LeftToBottomRight,
    BottomLeftToTop, TopLeftToBottom, TopToBottomRight, BottomToTopRight,
    LeftToTop, LeftToBottom, TopToRight, BottomToRight]

  predicate IsNamed(s: PathSegment) {
    s in Named
  }

  /** The four sides of a code. */
  function Left(s: PathSegment): bv16 { (s >> 12) & 0xF }
  function Top(s: PathSegment): bv16 { (s >> 8) & 0xF }
  function Right(s: PathSegment): bv16 { (s >> 4) & 0xF }
  function Bottom(s: PathSegment): bv16 { s & 0xF }

  /** The code assembled from four side nibbles. */
  function Compose(l: bv16, t: bv16, r: bv16, b: bv16): (s: PathSegment)
    requires l <= 3 && t <= 3 && r <= 3 && b <= 3
    ensures Left(s) == l && Top(s) == t && Right(s) == r && Bottom(s) == b
  {
    (l << 12) | (t << 8) | (r << 4) | b
  }

  /** Every named code is made of four nibbles in 0..3, and reassembling them gives the code. */
  lemma NamedNibblesInRange(s: PathSegment)
    requires IsNamed(s)
    ensures Left(s) <= 3 && Top(s) <= 3 && Right(s) <= 3 && Bottom(s) <= 3
    ensures Compose(Left(s), Top(s), Right(s), Bottom(s)) == s
  {
  }

  /** The 17 named codes are pairwise distinct. */
  lemma NamedDistinct()
    ensures |Named| == 17
    ensures forall i, j :: 0 <= i < j < |Named| ==> Named[i] != Named[j]
  {
  }

  /** Empty uses no side; Horizontal joins the centres of the left and right sides; Vertical
      those of the top and bottom. */
  lemma StraightSegments()
    ensures Left(Empty) == 0 && Top(Empty) == 0 && Right(Empty) == 0 && Bottom(Empty) == 0
    ensures Horizontal == Compose(2, 0, 2, 0)
    ensures Vertical == Compose(0, 2, 0, 2)
  {
  }
}
