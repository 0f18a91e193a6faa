/** Axis-aligned boxes given by their top-left corner and their size
    (include/Box.h). The y axis points down, so the bottom is top + height. */
module Boxes {
  import opened Vectors

  datatype Box = Box(left: real, top: real, width: real, height: real) {

    function GetRight(): real {
      left + width
    }

    function GetBottom(): real {
      top + height
    }

    function GetTopLeft(): Vector2 {
      Vector2(left, top)
    }

    function GetBottomRight(): Vector2 {
      Vector2(left + width, top + height)
    }

    function GetCenter(): Vector2 {
      Vector2(left + width / 2.0, top + height / 2.0)
    }

    function GetSize(): Vector2 {
      Vector2(width, height)
    }

    function GetArea(): real {
      width * height
    }

    /** contains(point): the box is closed on its top and left edges and open
        on its right and bottom edges. */
    predicate ContainsPoint(p: Vector2) {
      left <= p.x && p.x < GetRight() && top <= p.y && p.y < GetBottom()
    }

    /** almostContains(point): the point lies in the closure of the box. */
    predicate AlmostContains(p: Vector2) {
      left <= p.x && p.x <= GetRight() && top <= p.y && p.y <= GetBottom()
    }

    /** contains(box): the other box lies inside this one. */
    predicate ContainsBox(b: Box) {
      left <= b.left && b.GetRight() <= GetRight() && top <= b.top && b.GetBottom() <= GetBottom()
    }

    /** intersects: the two boxes overlap with positive area; touching edges do not count. */
    predicate Intersects(b: Box) {
      !(left >= b.GetRight() || GetRight() <= b.left || top >= b.GetBottom() || GetBottom() <= b.top)
    }

    /** almostIntersects: the closures of the two boxes meet. */
    predicate AlmostIntersects(b: Box) {
      !(left > b.GetRight() || GetRight() < b.left || top > b.GetBottom() || GetBottom() < b.top)
    }
  }

  /** The constructor Box(position, size). */
  function FromPositionSize(position: Vector2, size: Vector2): (b: Box)
    ensures b.GetTopLeft() == position && b.GetSize() == size
  {
    Box(position.x, position.y, size.x, size.y)
  }

  lemma AccessorsAgree(b: Box)
    ensures b.GetRight() == b.left + b.width && b.GetBottom() == b.top + b.height
    ensures b.GetBottomRight() == Plus(b.GetTopLeft(), b.GetSize())
    ensures b.GetBottomRight() == Vector2(b.GetRight(), b.GetBottom())
    ensures b.width >= 0.0 && b.height >= 0.0 ==> b.AlmostContains(b.GetCenter())
    ensures b.GetArea() == b.GetSize().x * b.GetSize().y
    ensures b.width >= 0.0 && b.height >= 0.0 ==> b.GetArea() >= 0.0
  {
  }

  lemma IntersectsSymmetric(a: Box, b: Box)
    ensures a.Intersects(b) <==> b.Intersects(a)
    ensures a.AlmostIntersects(b) <==> b.AlmostIntersects(a)
  {
  }

  lemma IntersectsImpliesAlmost(a: Box, b: Box)
    ensures a.Intersects(b) ==> a.AlmostIntersects(b)
  {
  }

  /** Two boxes that share only a vertical edge, or only a horizontal edge,
      almost-intersect but do not intersect. */
  lemma SharedEdgeIsNotIntersection(a: Box, b: Box)
    requires a.width >= 0.0 && a.height >= 0.0 && b.width >= 0.0 && b.height >= 0.0
    requires (a.GetRight() == b.left && a.top <= b.GetBottom() && b.top <= a.GetBottom())
          || (a.GetBottom() == b.top && a.left <= b.GetRight() && b.left <= a.GetRight())
    ensures !a.Intersects(b) && !b.Intersects(a)
    ensures a.AlmostIntersects(b) && b.AlmostIntersects(a)
  {
  }

  lemma ContainsBoxReflexive(a: Box)
    ensures a.ContainsBox(a)
  {
  }

  lemma ContainsBoxTransitive(a: Box, b: Box, c: Box)
    requires a.ContainsBox(b) && b.ContainsBox(c)
    ensures a.ContainsBox(c)
  {
  }

  /** Pruning soundness: a box that contains a box meeting c also meets c
      (no sign condition on the sizes is needed). */
  lemma ContainsThenIntersects(a: Box, b: Box, c: Box)
    requires a.ContainsBox(b) && b.Intersects(c)
    ensures a.Intersects(c) && c.Intersects(a)
  {
  }

  /** Boxes inside two boxes that do not intersect do not intersect either. */
  lemma DisjointContainers(a: Box, b: Box, x: Box, y: Box)
    requires a.ContainsBox(x) && b.ContainsBox(y) && !a.Intersects(b)
    ensures !x.Intersects(y)
  {
  }

  lemma ContainsPointHalfOpen(b: Box, p: Vector2)
    ensures p.x == b.GetRight() || p.y == b.GetBottom() ==> !b.ContainsPoint(p)
    ensures b.ContainsPoint(p) ==> b.AlmostContains(p)
    ensures b.width >= 0.0 && b.height >= 0.0 ==> b.AlmostContains(b.GetTopLeft()) && b.AlmostContains(b.GetBottomRight())
    ensures b.width > 0.0 && b.height > 0.0 ==> b.ContainsPoint(b.GetTopLeft())
  {
  }
}
