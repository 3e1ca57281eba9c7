/**
  A model of fluent_python_code/vector.py: a two-dimensional `Vector` with
  addition, multiplication by a scalar on the right, its length `abs(v)` and
  its truth value `bool(v)`. Python floats are modelled as exact reals.
*/
module Vector2D {

  /** `Vector(x, y)`: both coordinates default to 0, so `Vector()` is the origin. */
  datatype Vector = Vector(x: real := 0.0, y: real := 0.0)

  /** `Vector()` is the origin, and a coordinate left out is 0. */
  lemma VectorDefaults()
    ensures Vector() == Vector(0.0, 0.0)
    ensures Vector(3.0) == Vector(3.0, 0.0) && Vector(y := 2.0) == Vector(0.0, 2.0)
  {
  }

  /** `a + b`: the coordinates are added pairwise. */
  function Add(a: Vector, b: Vector): Vector {
    Vector(a.x + b.x, a.y + b.y)
  }

  /** `v * scalar`: both coordinates are multiplied by the scalar, which stands on the right. */
  function Mul(v: Vector, scalar: real): Vector {
    Vector(v.x * scalar, v.y * scalar)
  }

  /**
    `abs(v) == m`: `hypot(x, y)` is the non-negative `m` with `m * m == x * x + y * y`.
    The length is characterised by this relation rather than computed; the
    equation is written as two inequalities, a form the verifier's nonlinear
    arithmetic handles more reliably.
  */
  predicate IsMagnitude(v: Vector, m: real) {
    m >= 0.0 && m * m <= v.x * v.x + v.y * v.y && m * m >= v.x * v.x + v.y * v.y
  }

  /** The absolute value of a scalar. */
  function Abs(k: real): (r: real)
    ensures r >= 0.0 && r * r == k * k
  {
    if k < 0.0 then -k else k
  }

  /**
    `bool(v)`, defined in the source as `bool(abs(v))`: a vector is true exactly
    when its length is positive, which is when a coordinate is not zero.
  */
  function Bool(v: Vector): (b: bool)
    ensures forall m :: IsMagnitude(v, m) ==> (b <==> m > 0.0)
  {
    MagnitudePositiveIff(v);
    v.x != 0.0 || v.y != 0.0
  }

  // ---------------------------------------------------------------------------
  // The length `abs(v)`
  // ---------------------------------------------------------------------------

  // Elementary facts about products of reals, each kept in a lemma of its own.

  lemma PositiveProduct(a: real, b: real)
    requires a > 0.0 && b > 0.0
    ensures a * b > 0.0
  {
  }

  lemma NonNegativeProduct(a: real, b: real)
    requires a >= 0.0 && b >= 0.0
    ensures a * b >= 0.0
  {
  }

  lemma SquareNonNegative(a: real)
    ensures a * a >= 0.0
  {
  }

  /** Two non-negative reals with the same square are equal. */
  lemma SquareRootUnique(m1: real, m2: real)
    requires m1 >= 0.0 && m2 >= 0.0 && m1 * m1 == m2 * m2
    ensures m1 == m2
  {
    assert (m1 - m2) * (m1 + m2) == m1 * m1 - m2 * m2;
    if m1 + m2 == 0.0 {
      assert m1 == 0.0 && m2 == 0.0;
    }
  }

  /** Of two non-negative reals, the one with the smaller square is smaller. */
  lemma SquareMonotone(m1: real, m2: real)
    requires m1 >= 0.0 && m2 >= 0.0 && m1 * m1 <= m2 * m2
    ensures m1 <= m2
  {
    if m1 > m2 {
      PositiveProduct(m1 - m2, m1 + m2);
    }
  }

  /** A vector has at most one length. */
  lemma MagnitudeUnique(v: Vector, m1: real, m2: real)
    requires IsMagnitude(v, m1) && IsMagnitude(v, m2)
    ensures m1 == m2
  {
    SquareRootUnique(m1, m2);
  }

  /** A non-negative real with a positive square is positive. */
  lemma RootPositive(m: real)
    requires m >= 0.0 && m * m > 0.0
    ensures m > 0.0
  {
  }

  /** Away from the origin the sum of the squared coordinates is positive. */
  lemma SquaredLengthPositive(v: Vector)
    requires v != Vector()
    ensures v.x * v.x + v.y * v.y > 0.0
  {
  }

  /** A length of a vector whose squared coordinates sum to a positive value has a positive square. */
  lemma MagnitudeSquarePositive(v: Vector, m: real)
    requires IsMagnitude(v, m) && v.x * v.x + v.y * v.y > 0.0
    ensures m * m > 0.0
  {
  }

  /** Away from the origin the length is positive. */
  lemma MagnitudePositive(v: Vector, m: real)
    requires IsMagnitude(v, m) && v != Vector()
    ensures m > 0.0
  {
    SquaredLengthPositive(v);
    MagnitudeSquarePositive(v, m);
    RootPositive(m);
  }

  /** The length is positive exactly away from the origin `Vector()`, and 0 at it. */
  lemma MagnitudePositiveIff(v: Vector)
    ensures forall m :: IsMagnitude(v, m) ==> (m > 0.0 <==> v != Vector())
  {
    forall m | IsMagnitude(v, m) ensures m > 0.0 <==> v != Vector() {
      if v == Vector() {
        SquareRootUnique(m, 0.0);
      } else {
        MagnitudePositive(v, m);
      }
    }
  }

  /** `abs(Vector(3, 4)) == 5`, and 5 is its only length. */
  lemma MagnitudeExample()
    ensures IsMagnitude(Vector(3.0, 4.0), 5.0)
    ensures forall m :: IsMagnitude(Vector(3.0, 4.0), m) ==> m == 5.0
  {
    forall m | IsMagnitude(Vector(3.0, 4.0), m) ensures m == 5.0 {
      MagnitudeUnique(Vector(3.0, 4.0), m, 5.0);
    }
  }

  /** `abs(v * k) == abs(k) * abs(v)`. */
  lemma MagnitudeScales(v: Vector, k: real, m: real)
    requires IsMagnitude(v, m)
    ensures IsMagnitude(Mul(v, k), Abs(k) * m)
  {
    var a := Abs(k);
    assert (a * m) * (a * m) == (a * a) * (m * m);
    assert (v.x * k) * (v.x * k) == (k * k) * (v.x * v.x);
    assert (v.y * k) * (v.y * k) == (k * k) * (v.y * v.y);
  }

  /** Cauchy-Schwarz in the plane: the dot product is bounded by the product of the lengths. */
  lemma DotBound(a: Vector, b: Vector, ma: real, mb: real)
    requires IsMagnitude(a, ma) && IsMagnitude(b, mb)
    ensures a.x * b.x + a.y * b.y <= ma * mb
  {
    var dot := a.x * b.x + a.y * b.y;
    var cross := a.x * b.y - a.y * b.x;
    assert (ma * mb) * (ma * mb) == (ma * ma) * (mb * mb);
    assert (a.x * a.x + a.y * a.y) * (b.x * b.x + b.y * b.y) == dot * dot + cross * cross;
    SquareNonNegative(cross);
    NonNegativeProduct(ma, mb);
    assert Abs(dot) * Abs(dot) <= (ma * mb) * (ma * mb);
    SquareMonotone(Abs(dot), ma * mb);
  }

  /** The triangle inequality: `abs(a + b) <= abs(a) + abs(b)`. */
  lemma TriangleInequality(a: Vector, b: Vector, ma: real, mb: real, m: real)
    requires IsMagnitude(a, ma) && IsMagnitude(b, mb) && IsMagnitude(Add(a, b), m)
    ensures m <= ma + mb
  {
    DotBound(a, b, ma, mb);
    var s := Add(a, b);
    assert s.x * s.x + s.y * s.y == (a.x * a.x + a.y * a.y) + (b.x * b.x + b.y * b.y) + 2.0 * (a.x * b.x + a.y * b.y);
    assert (ma + mb) * (ma + mb) == ma * ma + mb * mb + 2.0 * (ma * mb);
    SquareMonotone(m, ma + mb);
  }

  // ---------------------------------------------------------------------------
  // Addition and scaling
  // ---------------------------------------------------------------------------

  /** `Vector()` is neutral for `+` on either side. */
  lemma AddIdentity(v: Vector)
    ensures Add(v, Vector()) == v && Add(Vector(), v) == v
  {
  }

  lemma AddCommutes(a: Vector, b: Vector)
    ensures Add(a, b) == Add(b, a)
  {
  }

  lemma AddAssociates(a: Vector, b: Vector, c: Vector)
    ensures Add(Add(a, b), c) == Add(a, Add(b, c))
  {
  }

  /** `v * -1` undoes `v` under `+`. */
  lemma AddInverse(v: Vector)
    ensures Add(v, Mul(v, -1.0)) == Vector()
  {
  }

  /** `v * 1 == v` and `v * 0 == Vector()`. */
  lemma MulUnitZero(v: Vector)
    ensures Mul(v, 1.0) == v && Mul(v, 0.0) == Vector()
  {
  }

  /** `(v * a) * b == v * (a * b)`. */
  lemma MulCompose(v: Vector, a: real, b: real)
    ensures Mul(Mul(v, a), b) == Mul(v, a * b)
  {
    assert (v.x * a) * b == v.x * (a * b);
    assert (v.y * a) * b == v.y * (a * b);
  }

  /** Scaling distributes over vector addition and over scalar addition. */
  lemma MulDistributes(u: Vector, v: Vector, a: real, b: real)
    ensures Mul(Add(u, v), a) == Add(Mul(u, a), Mul(v, a))
    ensures Mul(u, a + b) == Add(Mul(u, a), Mul(u, b))
  {
  }

  /** A scaled vector is true exactly when the scalar and the vector are. */
  lemma BoolMul(v: Vector, k: real)
    ensures Bool(Mul(v, k)) <==> k != 0.0 && Bool(v)
  {
    if k != 0.0 {
      if v.x * k == 0.0 {
        assert v.x == (v.x * k) / k;
      }
      if v.y * k == 0.0 {
        assert v.y == (v.y * k) / k;
      }
    }
  }
}
