/** Two-dimensional vectors with componentwise arithmetic (include/Vector2.h).
    Coordinates are exact reals, so no rounding is modelled. */
module Vectors {

  datatype Vector2 = Vector2(x: real, y: real) {

    /** operator== : both components are equal. */
    predicate Equals(other: Vector2) {
      x == other.x && y == other.y
    }

    /** operator!= : the negation of operator==. */
    predicate NotEquals(other: Vector2) {
      !Equals(other)
    }

    /** Unary operator-. */
    function Negated(): Vector2 {
      Vector2(-x, -y)
    }

    /** The vector rotated by a quarter turn. */
    function Orthogonal(): Vector2 {
      Vector2(-y, x)
    }

    function Dot(other: Vector2): real {
      x * other.x + y * other.y
    }

    function SquaredNorm(): real {
      Dot(this)
    }

    function SquaredDistance(other: Vector2): real {
      Minus(this, other).SquaredNorm()
    }

    /** The determinant of the 2x2 matrix whose columns are this and other. */
    function Det(other: Vector2): real {
      x * other.y - y * other.x
    }

    /** Componentwise std::min. */
    function Min(other: Vector2): (r: Vector2)
      ensures r.x <= x && r.x <= other.x && (r.x == x || r.x == other.x)
      ensures r.y <= y && r.y <= other.y && (r.y == y || r.y == other.y)
    {
      Vector2(if other.x < x then other.x else x, if other.y < y then other.y else y)
    }

    /** Componentwise std::max. */
    function Max(other: Vector2): (r: Vector2)
      ensures r.x >= x && r.x >= other.x && (r.x == x || r.x == other.x)
      ensures r.y >= y && r.y >= other.y && (r.y == y || r.y == other.y)
    {
      Vector2(if x < other.x then other.x else x, if y < other.y then other.y else y)
    }

    /** operator+= : the receiver is a value, so the updated value is returned;
        x is updated first, then y. */
    method PlusAssign(other: Vector2) returns (r: Vector2)
      ensures r == Plus(this, other)
    {
      r := this;
      r := r.(x := r.x + other.x);
      r := r.(y := r.y + other.y);
    }

    /** operator-= */
    method MinusAssign(other: Vector2) returns (r: Vector2)
      ensures r == Minus(this, other)
    {
      r := this;
      r := r.(x := r.x - other.x);
      r := r.(y := r.y - other.y);
    }

    /** operator*= */
    method TimesAssign(t: real) returns (r: Vector2)
      ensures r == Scale(t, this)
    {
      r := this;
      r := r.(x := r.x * t);
      r := r.(y := r.y * t);
    }

    /** operator/= */
    method DivideAssign(t: real) returns (r: Vector2)
      requires t != 0.0
      ensures r == Divide(this, t)
    {
      r := this;
      r := r.(x := r.x / t);
      r := r.(y := r.y / t);
    }
  }

  /** The free operator+ (a copy of lhs, then +=). */
  function Plus(a: Vector2, b: Vector2): Vector2 {
    Vector2(a.x + b.x, a.y + b.y)
  }

  /** The free operator- (a copy of lhs, then -=). */
  function Minus(a: Vector2, b: Vector2): Vector2 {
    Vector2(a.x - b.x, a.y - b.y)
  }

  /** The free operator*(t, vec) (a copy of vec, then *=). */
  function Scale(t: real, v: Vector2): Vector2 {
    Vector2(v.x * t, v.y * t)
  }

  /** The free operator*(vec, t), which the source defines as t * vec. */
  function ScaleRight(v: Vector2, t: real): Vector2 {
    Scale(t, v)
  }

  /** The free operator/ (a copy of vec, then /=). */
  function Divide(v: Vector2, t: real): Vector2
    requires t != 0.0
  {
    Vector2(v.x / t, v.y / t)
  }

  lemma EqualsIsIdentity(a: Vector2, b: Vector2)
    ensures a.Equals(b) <==> a == b
    ensures a.Equals(a)
    ensures a.NotEquals(b) <==> !a.Equals(b)
  {
  }

  lemma PlusMinusComponentwise(a: Vector2, b: Vector2)
    ensures Plus(a, b).x == a.x + b.x && Plus(a, b).y == a.y + b.y
    ensures Minus(a, b).x == a.x - b.x && Minus(a, b).y == a.y - b.y
    ensures Minus(Plus(a, b), b) == a
    ensures Plus(Minus(a, b), b) == a
    ensures Plus(a, b.Negated()) == Minus(a, b)
  {
  }

  lemma OrthogonalIsPerpendicular(v: Vector2)
    ensures v.Dot(v.Orthogonal()) == 0.0
  {
  }

  lemma DetAntisymmetric(a: Vector2, b: Vector2)
    ensures a.Det(b) == -b.Det(a)
    ensures a.Det(a) == 0.0
  {
  }

  lemma SquareNonNegative(r: real)
    ensures r * r >= 0.0
  {
    if r < 0.0 {
      assert r * r == (-r) * (-r);
    }
  }

  lemma SquaredDistanceIsDistanceLike(a: Vector2, b: Vector2)
    ensures a.SquaredDistance(b) == b.SquaredDistance(a)
    ensures a.SquaredDistance(b) >= 0.0
    ensures a.SquaredDistance(a) == 0.0
  {
    SquareNonNegative(a.x - b.x);
    SquareNonNegative(a.y - b.y);
    assert (a.x - b.x) * (a.x - b.x) == (b.x - a.x) * (b.x - a.x);
    assert (a.y - b.y) * (a.y - b.y) == (b.y - a.y) * (b.y - a.y);
  }

  /** Scaling is linear: it distributes over +, composes by multiplying the
      factors, and 1 is neutral; vec * t and t * vec agree. */
  lemma ScaleIsLinear(s: real, t: real, a: Vector2, b: Vector2)
    ensures ScaleRight(a, t) == Scale(t, a)
    ensures Scale(t, Plus(a, b)) == Plus(Scale(t, a), Scale(t, b))
    ensures Scale(s, Scale(t, a)) == Scale(s * t, a)
    ensures Scale(1.0, a) == a
    ensures Scale(t, a).Dot(b) == t * a.Dot(b)
  {
  }

  lemma DivideUndoesScale(t: real, v: Vector2)
    requires t != 0.0
    ensures Divide(Scale(t, v), t) == v
  {
  }
}
