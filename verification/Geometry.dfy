/** Integer rectangles with the edge and emptiness rules of `BaseRect`. */
module Geometry {

  datatype IntSize = IntSize(width: int, height: int)

  datatype IntRect = IntRect(x: int, y: int, width: int, height: int) {

    predicate IsEmpty() {
      height <= 0 || width <= 0
    }

    /** The point lies inside: on the left or top edge counts, on the right or bottom does not. */
    predicate Has(px: int, py: int) {
      x <= px < x + width && y <= py < y + height
    }

    predicate IsWhole(size: IntSize) {
      x == 0 && y == 0 && width == size.width && height == size.height
    }

    function Intersect(other: IntRect): (r: IntRect)
      ensures forall px, py :: r.Has(px, py) <==> Has(px, py) && other.Has(px, py)
    {
      var rx, ry := Max(x, other.x), Max(y, other.y);
      var w := Min(x - rx + width, other.x - rx + other.width);
      var h := Min(y - ry + height, other.y - ry + other.height);
      if w < 0 || h < 0 then IntRect(rx, ry, 0, 0) else IntRect(rx, ry, w, h)
    }

    /** The smallest rectangle around both; empty operands are ignored. */
    function Union(other: IntRect): (r: IntRect)
      ensures forall px, py :: Has(px, py) || other.Has(px, py) ==> r.Has(px, py)
    {
      if IsEmpty() then other
      else if other.IsEmpty() then this
      else
        var ux, uy := Min(x, other.x), Min(y, other.y);
        IntRect(ux, uy, Max(x + width, other.x + other.width) - ux, Max(y + height, other.y + other.height) - uy)
    }
  }

  /** Every position of `a` is one of `b`. */
  ghost predicate Inside(a: IntRect, b: IntRect) {
    forall x, y :: a.Has(x, y) ==> b.Has(x, y)
  }

  /** No smaller rectangle covers both. */
  lemma {:induction false} UnionIsLeast(a: IntRect, b: IntRect, outer: IntRect)
    requires Inside(a, outer) && Inside(b, outer)
    ensures Inside(a.Union(b), outer)
  {
    if !a.IsEmpty() && !b.IsEmpty() {
      assert outer.Has(a.x, a.y) && outer.Has(a.x + a.width - 1, a.y + a.height - 1);
      assert outer.Has(b.x, b.y) && outer.Has(b.x + b.width - 1, b.y + b.height - 1);
    }
  }

  function Min(a: int, b: int): int {
    if a <= b then a else b
  }

  function Max(a: int, b: int): int {
    if a >= b then a else b
  }

  function WholeRect(size: IntSize): IntRect {
    IntRect(0, 0, size.width, size.height)
  }
}
