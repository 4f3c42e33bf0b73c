/** The short Weierstrass curve y^2 = x^3 + 7 over the integers modulo p, with the
    addition, doubling and double-and-add routines of crypto.go. */
module Curve {
  import opened NumberTheory
  import Monoid

  /** A Point with nil coordinates is the point at infinity. */
  datatype Point = Infinity | Affine(x: int, y: int)

  /** num / den mod p. A missing inverse is a nil big.Int, on which the following Mul
      panics; AddDefined says when that cannot happen. */
  function Slope(num: int, den: int, p: int): int
    requires p > 1
  {
    match ModInverse(den, p)
    case None => 0
    case Some(v) => num * v % p
  }

  /** The reflected third intersection of the line of slope s through (x1, y1) and abscissa x2. */
  function ThirdPoint(s: int, x1: int, y1: int, x2: int, p: int): Point
    requires p > 1
  {
    var x3 := (s * s - x1 - x2) % p;
    Affine(x3, (s * (x1 - x3) - y1) % p)
  }

  function PointDouble(a: Point, p: int): Point
    requires p > 1
  {
    match a
    case Infinity => a
    case Affine(x, y) => ThirdPoint(Slope(3 * (x * x % p), 2 * y, p), x, y, x, p)
  }

  function PointAdd(a: Point, b: Point, p: int): Point
    requires p > 1
  {
    if a.Infinity? then b
    else if b.Infinity? then a
    else if a.x == b.x then
      if a.y != b.y then Infinity else PointDouble(a, p)
    else
      ThirdPoint(Slope(b.y - a.y, b.x - a.x, p), a.x, a.y, b.x, p)
  }

  /** No nil inverse is used by PointAdd(a, b, p). */
  predicate AddDefined(a: Point, b: Point, p: int)
    requires p > 1
  {
    a.Affine? && b.Affine? ==>
      if a.x == b.x then a.y == b.y ==> ModInverse(2 * a.y, p).Some?
      else ModInverse(b.x - a.x, p).Some?
  }

  /** Infinity, or a point with reduced coordinates that satisfies the curve equation. */
  ghost predicate OnCurve(a: Point, p: int) {
    a.Affine? ==>
      && 0 <= a.x < p && 0 <= a.y < p
      && Cong(a.y * a.y, a.x * a.x * a.x + 7, p)
  }

  /** What the routines rely on: p is an odd prime and no curve point has y = 0. */
  ghost predicate GoodField(p: int) {
    && IsPrime(p) && p > 2
    && forall x :: 0 <= x < p ==> !OnCurve(Affine(x, 0), p)
  }

  // ----- Closure: sums of curve points are curve points -----

  /** The cubic minus the square of the line y = s*(t - x1) + y1. */
  function Gap(t: int, s: int, x1: int, y1: int): int {
    t * t * t + 7 - (s * (t - x1) + y1) * (s * (t - x1) + y1)
  }

  lemma GapAtBase(s: int, x1: int, y1: int)
    ensures Gap(x1, s, x1, y1) == x1 * x1 * x1 + 7 - y1 * y1
  {
    assert s * (x1 - x1) == 0;
  }

  lemma CubeOfSum(a: int, u: int)
    ensures (a + u) * (a + u) * (a + u) == a * a * a + u * (3 * a * a) + u * u * (3 * a + u)
  {
    var q := a * a + 2 * (a * u) + u * u;
    assert (a + u) * (a + u) == q;
    assert q * (a + u) == q * a + q * u;
    assert q * a == a * a * a + 2 * (a * a * u) + a * (u * u);
    assert q * u == a * a * u + 2 * (a * (u * u)) + u * u * u;
    assert u * (3 * a * a) == 3 * (a * a * u);
    assert u * u * (3 * a + u) == 3 * (a * (u * u)) + u * u * u;
  }

  lemma SquareOfLine(s: int, u: int, y: int)
    ensures (s * u + y) * (s * u + y) == y * y + u * (2 * s * y) + u * u * (s * s)
  {
    var w := s * u;
    assert (w + y) * (w + y) == y * y + 2 * (w * y) + w * w;
    assert w * w == u * u * (s * s);
    assert w * y == u * (s * y);
    assert u * (2 * s * y) == 2 * (u * (s * y));
  }

  /** Expansion of Gap around x1 by powers of u = t - x1. */
  lemma GapExpansion(u: int, s: int, x1: int, y1: int)
    ensures Gap(x1 + u, s, x1, y1)
         == Gap(x1, s, x1, y1) + u * (3 * x1 * x1 - 2 * s * y1) + u * u * (3 * x1 + u - s * s)
  {
    GapAtBase(s, x1, y1);
    CubeOfSum(x1, u);
    assert s * (x1 + u - x1) == s * u;
    SquareOfLine(s, u, y1);
    assert u * (3 * x1 * x1 - 2 * s * y1) == u * (3 * x1 * x1) - u * (2 * s * y1);
    assert u * u * (3 * x1 + u - s * s) == u * u * (3 * x1 + u) - u * u * (s * s);
  }

  /** A tangent meets the cubic again at abscissa s^2 - 2*x. */
  lemma TangentMeetsCubic(s: int, x: int, y: int, p: int)
    requires Cong(y * y, x * x * x + 7, p)
    requires Cong(s * (2 * y), 3 * x * x, p)
    ensures Divides(p, Gap(s * s - x - x, s, x, y))
  {
    var u := s * s - 3 * x;
    GapExpansion(u, s, x, y);
    assert x + u == s * s - x - x;
    GapAtBase(s, x, y);
    CongSym(y * y, x * x * x + 7, p);
    CongSym(s * (2 * y), 3 * x * x, p);
    assert 2 * s * y == s * (2 * y);
    var c := 3 * x * x - 2 * s * y;
    DividesProduct(p, c, u);
    DividesSum(p, Gap(x, s, x, y), c * u);
    assert 3 * x + u - s * s == 0;
  }

  /** A chord meets the cubic a third time at abscissa s^2 - x1 - x2. */
  lemma ChordMeetsCubic(s: int, x1: int, y1: int, x2: int, y2: int, p: int)
    requires IsPrime(p) && !Divides(p, x2 - x1)
    requires Cong(y1 * y1, x1 * x1 * x1 + 7, p) && Cong(y2 * y2, x2 * x2 * x2 + 7, p)
    requires Cong(s * (x2 - x1), y2 - y1, p)
    ensures Divides(p, Gap(s * s - x1 - x2, s, x1, y1))
  {
    var d, u := x2 - x1, s * s - 2 * x1 - x2;
    var c := 3 * x1 * x1 - 2 * s * y1;
    var f1, f2, f3 := Gap(x1, s, x1, y1), Gap(x2, s, x1, y1), Gap(s * s - x1 - x2, s, x1, y1);
    GapExpansion(d, s, x1, y1);
    GapExpansion(u, s, x1, y1);
    assert x1 + d == x2 && x1 + u == s * s - x1 - x2;
    assert 3 * x1 + d - s * s == -u && 3 * x1 + u - s * s == -d;
    ChordAlgebra(f1, f2, f3, c, d, u);

    assert Divides(p, f1) by {
      GapAtBase(s, x1, y1);
      CongSym(y1 * y1, x1 * x1 * x1 + 7, p);
    }
    assert Divides(p, f2) by {
      CongRefl(y1, p);
      CongSum(s * d, y2 - y1, y1, y1, p);
      CongMul(s * d + y1, y2 - y1 + y1, s * d + y1, y2 - y1 + y1, p);
      CongTrans((s * d + y1) * (s * d + y1), y2 * y2, x2 * x2 * x2 + 7, p);
      CongSym((s * d + y1) * (s * d + y1), x2 * x2 * x2 + 7, p);
    }
    DividesSum(p, f2, f1);
    PrimeCancel(d, c - d * u, p);
    DividesProduct(p, c - d * u, u);
    DividesSum(p, f1, (c - d * u) * u);
  }

  lemma ChordAlgebra(f1: int, f2: int, f3: int, c: int, d: int, u: int)
    requires f2 == f1 + d * c + d * d * -u
    requires f3 == f1 + u * c + u * u * -d
    ensures f2 - f1 == d * (c - d * u)
    ensures f3 == f1 + (c - d * u) * u
  {
    assert d * (c - d * u) == d * c - d * (d * u);
    assert d * d * -u == -(d * (d * u));
    assert (c - d * u) * u == c * u - d * u * u;
    assert u * u * -d == -(d * u * u);
  }

  /** The point that ThirdPoint builds lies on the curve once the line meets the cubic there. */
  lemma ThirdPointOnCurve(s: int, x1: int, y1: int, x2: int, p: int)
    requires p > 1 && Divides(p, Gap(s * s - x1 - x2, s, x1, y1))
    ensures OnCurve(ThirdPoint(s, x1, y1, x2, p), p)
  {
    var X := s * s - x1 - x2;
    var x3 := X % p;
    var Y := s * (x1 - x3) - y1;
    var y3 := Y % p;
    var L := s * (X - x1) + y1;
    ReduceCong(X, p);
    ReduceCong(Y, p);
    // y3 = -L, so y3^2 = L^2 = X^3 + 7 = x3^3 + 7
    assert Cong(y3, -L, p) by {
      CongRefl(x1, p);
      CongSum(x1, x1, x3, X, p);
      CongRefl(s, p);
      CongMul(s, s, x1 - x3, x1 - X, p);
      CongRefl(y1, p);
      CongSum(s * (x1 - x3), s * (x1 - X), y1, y1, p);
      assert s * (x1 - X) - y1 == -L by {
        assert s * (x1 - X) == -(s * (X - x1));
      }
      CongTrans(y3, Y, -L, p);
    }
    CongMul(y3, -L, y3, -L, p);
    assert -L * -L == L * L;
    CongSym(X * X * X + 7, L * L, p);
    CongTrans(y3 * y3, L * L, X * X * X + 7, p);
    CongSym(x3, X, p);
    CongMul(X, x3, X, x3, p);
    CongMul(X * X, x3 * x3, X, x3, p);
    CongRefl(7, p);
    CongSum(X * X * X, x3 * x3 * x3, 7, 7, p);
    CongTrans(y3 * y3, X * X * X + 7, x3 * x3 * x3 + 7, p);
  }

  lemma SlopeTimesDenominator(num: int, den: int, p: int)
    requires p > 1 && ModInverse(den, p).Some?
    ensures Cong(Slope(num, den, p) * den, num, p)
  {
    var v := ModInverse(den, p).value;
    ReduceCong(num * v, p);
    CongRefl(den, p);
    CongMul(num * v % p, num * v, den, den, p);
    CongRefl(num, p);
    CongMul(num, num, den * v, 1, p);
    assert num * v * den == num * (den * v);
    CongTrans(Slope(num, den, p) * den, num * (den * v), num, p);
  }

  /** On a good field PointAdd never meets a nil inverse. */
  lemma AddIsDefined(a: Point, b: Point, p: int)
    requires GoodField(p) && OnCurve(a, p) && OnCurve(b, p)
    ensures AddDefined(a, b, p)
  {
    if a.Affine? && b.Affine? {
      if a.x == b.x {
        NotMultipleOfTwoY(a, p);
        PrimeInverse(2 * a.y, p);
      } else {
        if Divides(p, b.x - a.x) {
          SmallMultiple(p, b.x - a.x);
        }
        PrimeInverse(b.x - a.x, p);
      }
    }
  }

  lemma NotMultipleOfTwoY(a: Point, p: int)
    requires GoodField(p) && OnCurve(a, p) && a.Affine?
    ensures !Divides(p, 2 * a.y)
  {
    if Divides(p, 2 * a.y) {
      if Divides(p, 2) {
        SmallMultiple(p, 2);
      }
      PrimeCancel(2, a.y, p);
      SmallMultiple(p, a.y);
    }
  }

  /** Every branch of PointAdd stays on the curve. */
  lemma AddOnCurve(a: Point, b: Point, p: int)
    requires GoodField(p) && OnCurve(a, p) && OnCurve(b, p)
    ensures OnCurve(PointAdd(a, b, p), p)
  {
    AddIsDefined(a, b, p);
    if a.Affine? && b.Affine? {
      if a.x != b.x {
        var s := Slope(b.y - a.y, b.x - a.x, p);
        SlopeTimesDenominator(b.y - a.y, b.x - a.x, p);
        if Divides(p, b.x - a.x) {
          SmallMultiple(p, b.x - a.x);
        }
        ChordMeetsCubic(s, a.x, a.y, b.x, b.y, p);
        ThirdPointOnCurve(s, a.x, a.y, b.x, p);
      } else if a.y == b.y {
        DoubleOnCurve(a, p);
      }
    }
  }

  lemma DoubleOnCurve(a: Point, p: int)
    requires p > 1 && OnCurve(a, p) && (a.Affine? ==> ModInverse(2 * a.y, p).Some?)
    ensures OnCurve(PointDouble(a, p), p)
  {
    if a.Affine? {
      var q := a.x * a.x % p;
      var s := Slope(3 * q, 2 * a.y, p);
      SlopeTimesDenominator(3 * q, 2 * a.y, p);
      ReduceCong(a.x * a.x, p);
      CongRefl(3, p);
      CongMul(3, 3, q, a.x * a.x, p);
      assert 3 * (a.x * a.x) == 3 * a.x * a.x;
      CongTrans(s * (2 * a.y), 3 * q, 3 * a.x * a.x, p);
      TangentMeetsCubic(s, a.x, a.y, p);
      ThirdPointOnCurve(s, a.x, a.y, a.x, p);
    }
  }

  // ----- The group law, as far as it is proved here -----

  /** Two solutions of s*den = num agree when den has an inverse. */
  lemma SlopeUnique(s: int, t: int, num: int, den: int, p: int)
    requires p > 1 && ModInverse(den, p).Some? && Cong(s * den, num, p) && Cong(t * den, num, p)
    ensures Cong(s, t, p)
  {
    CongSym(t * den, num, p);
    CongTrans(s * den, num, t * den, p);
    assert s * den - t * den == den * (s - t);
    UnitCancel(den, s - t, ModInverse(den, p).value, p);
  }

  lemma ThirdPointFor(s: int, t: int, x1: int, y1: int, x2: int, p: int)
    requires p > 1 && Cong(s, t, p)
    ensures ThirdPoint(s, x1, y1, x2, p) == ThirdPoint(t, x1, y1, x2, p)
  {
    CongMul(s, t, s, t, p);
    assert s * s - x1 - x2 - (t * t - x1 - x2) == s * s - t * t;
    CongIffSameResidue(s * s - x1 - x2, t * t - x1 - x2, p);
    var x3 := (s * s - x1 - x2) % p;
    CongRefl(x1 - x3, p);
    CongMul(s, t, x1 - x3, x1 - x3, p);
    assert s * (x1 - x3) - y1 - (t * (x1 - x3) - y1) == s * (x1 - x3) - t * (x1 - x3);
    CongIffSameResidue(s * (x1 - x3) - y1, t * (x1 - x3) - y1, p);
  }

  lemma ChordThird(a: Point, b: Point, s: int, p: int)
    requires GoodField(p) && OnCurve(a, p) && OnCurve(b, p) && a.Affine? && b.Affine? && a.x != b.x
    requires Cong(s * (b.x - a.x), b.y - a.y, p)
    ensures PointAdd(a, b, p) == ThirdPoint(s, a.x, a.y, b.x, p)
  {
    AddIsDefined(a, b, p);
    SlopeTimesDenominator(b.y - a.y, b.x - a.x, p);
    SlopeUnique(Slope(b.y - a.y, b.x - a.x, p), s, b.y - a.y, b.x - a.x, p);
    ThirdPointFor(Slope(b.y - a.y, b.x - a.x, p), s, a.x, a.y, b.x, p);
  }

  lemma TangentThird(a: Point, s: int, p: int)
    requires GoodField(p) && OnCurve(a, p) && a.Affine? && Cong(s * (2 * a.y), 3 * (a.x * a.x), p)
    ensures PointAdd(a, a, p) == ThirdPoint(s, a.x, a.y, a.x, p)
  {
    AddIsDefined(a, a, p);
    var num, den := 3 * (a.x * a.x % p), 2 * a.y;
    SlopeTimesDenominator(num, den, p);
    ReduceCong(a.x * a.x, p);
    CongRefl(3, p);
    CongMul(3, 3, a.x * a.x, a.x * a.x % p, p);
    CongTrans(s * den, 3 * (a.x * a.x), num, p);
    SlopeUnique(Slope(num, den, p), s, num, den, p);
    ThirdPointFor(Slope(num, den, p), s, a.x, a.y, a.x, p);
  }

  /** Section 2.2.1 of SEC 1, chord case: for whatever s solves s*(x2 - x1) = y2 - y1, the sum is
      the point with x3 = s^2 - x1 - x2 and y3 = s*(x1 - x3) - y1. */
  lemma ChordLaw(a: Point, b: Point, s: int, p: int)
    requires GoodField(p) && OnCurve(a, p) && OnCurve(b, p) && a.Affine? && b.Affine? && a.x != b.x
    requires Cong(s * (b.x - a.x), b.y - a.y, p)
    ensures var x3 := (s * s - a.x - b.x) % p;
            PointAdd(a, b, p) == Affine(x3, (s * (a.x - x3) - a.y) % p)
  {
    ChordThird(a, b, s, p);
  }

  /** Tangent case: for whatever s solves s*2y = 3x^2. */
  lemma TangentLaw(a: Point, s: int, p: int)
    requires GoodField(p) && OnCurve(a, p) && a.Affine? && Cong(s * (2 * a.y), 3 * (a.x * a.x), p)
    ensures var x3 := (s * s - a.x - a.x) % p;
            PointAdd(a, a, p) == Affine(x3, (s * (a.x - x3) - a.y) % p)
  {
    TangentThird(a, s, p);
  }

  /** The branch for equal X and different Y: such curve points are each other's opposites, so
      the sum is infinity exactly for a point and its opposite (or twice infinity). */
  lemma InfinityExactly(a: Point, b: Point, p: int)
    requires GoodField(p) && OnCurve(a, p) && OnCurve(b, p)
    ensures PointAdd(a, b, p) == Infinity <==>
            (a == Infinity && b == Infinity) || (a.Affine? && b == Affine(a.x, p - a.y))
  {
    if a.Affine? && b.Affine? && a.x == b.x {
      NotMultipleOfTwoY(a, p);
      if a.y != b.y {
        OppositeOrdinates(a, b, p);
      } else if b.y == p - a.y {
        DividesWitness(p, 1);
      }
    }
  }

  lemma OppositeOrdinates(a: Point, b: Point, p: int)
    requires IsPrime(p) && OnCurve(a, p) && OnCurve(b, p)
    requires a.Affine? && b.Affine? && a.x == b.x && a.y != b.y
    ensures a.y + b.y == p
  {
    CongSym(b.y * b.y, b.x * b.x * b.x + 7, p);
    CongTrans(a.y * a.y, a.x * a.x * a.x + 7, b.y * b.y, p);
    assert a.y * a.y - b.y * b.y == (a.y - b.y) * (a.y + b.y);
    if Divides(p, a.y - b.y) {
      SmallMultiple(p, a.y - b.y);
    }
    PrimeCancel(a.y - b.y, a.y + b.y, p);
    DividesWitness(p, 1);
    DividesSum(p, a.y + b.y, p);
    SmallMultiple(p, a.y + b.y - p);
  }

  /** PointAdd is commutative: both orders see the same slope and the same third point. */
  lemma AddCommutes(a: Point, b: Point, p: int)
    requires GoodField(p) && OnCurve(a, p) && OnCurve(b, p)
    ensures PointAdd(a, b, p) == PointAdd(b, a, p)
  {
    if a.Affine? && b.Affine? && a.x != b.x {
      AddIsDefined(a, b, p);
      AddIsDefined(b, a, p);
      var dx, dy := b.x - a.x, b.y - a.y;
      var s, t := Slope(dy, dx, p), Slope(a.y - b.y, a.x - b.x, p);
      SlopeTimesDenominator(dy, dx, p);
      SlopeTimesDenominator(a.y - b.y, a.x - b.x, p);
      SlopesAgree(s, t, dx, dy, p);
      SameThirdPoint(s, a, b, p);
    }
  }

  lemma SlopesAgree(s: int, t: int, dx: int, dy: int, p: int)
    requires p > 1 && ModInverse(dx, p).Some? && 0 <= s < p && 0 <= t < p
    requires Cong(s * dx, dy, p) && Cong(t * -dx, -dy, p)
    ensures s == t
  {
    CongSum(s * dx, dy, t * -dx, -dy, p);
    assert s * dx + t * -dx - (dy + -dy) == dx * (s - t) by {
      assert t * -dx == -(dx * t);
      assert dx * (s - t) == dx * s - dx * t;
    }
    UnitCancel(dx, s - t, ModInverse(dx, p).value, p);
    ResidueUnique(s, t, p);
  }

  lemma Distribute(s: int, x: int, y: int, z: int)
    ensures s * (x - z) - s * (y - z) == s * (x - y)
  {
  }

  lemma SameOrdinate(s: int, ax: int, ay: int, bx: int, by1: int, x3: int, p: int)
    requires p > 1 && Cong(s * (bx - ax), by1 - ay, p)
    ensures (s * (ax - x3) - ay) % p == (s * (bx - x3) - by1) % p
  {
    Distribute(s, bx, ax, x3);
    CongIffSameResidue(s * (bx - x3) - by1, s * (ax - x3) - ay, p);
  }

  lemma SameThirdPoint(s: int, a: Point, b: Point, p: int)
    requires p > 1 && a.Affine? && b.Affine? && Cong(s * (b.x - a.x), b.y - a.y, p)
    ensures ThirdPoint(s, a.x, a.y, b.x, p) == ThirdPoint(s, b.x, b.y, a.x, p)
  {
    assert s * s - a.x - b.x == s * s - b.x - a.x;
    SameOrdinate(s, a.x, a.y, b.x, b.y, (s * s - a.x - b.x) % p, p);
  }

  // ----- The sum, without the formulas that compute it -----

  function Opposite(a: Point, p: int): Point
    requires a.Affine?
  {
    Affine(a.x, p - a.y)
  }

  lemma Combined(m: int, d: int, c: int, e: int, f: int, total: int)
    requires Divides(m, d) && Divides(m, e) && total == d * c + e * f
    ensures Divides(m, total)
  {
    DividesProduct(m, d, c);
    DividesProduct(m, e, f);
    DividesSum(m, d * c, e * f);
  }

  /** c is the opposite of the third intersection of the cubic with the line of slope s through b and
      a, which is the tangent when c is the opposite of b: the three abscissas add up to s^2, and
      a and the opposite of c lie on the line. */
  ghost predicate OnLine(a: Point, b: Point, c: Point, s: int, p: int)
    requires a.Affine? && b.Affine? && c.Affine?
  {
    && Divides(p, c.x - s * s + a.x + b.x)
    && Divides(p, c.y + s * (c.x - b.x) + b.y)
    && Divides(p, a.y - b.y + s * (b.x - a.x))
    && (c.x == b.x ==> Divides(p, s * (2 * b.y) - 3 * b.x * b.x))
  }

  lemma ThirdPointFacts(s: int, x1: int, y1: int, x2: int, p: int)
    requires p > 1
    ensures var c := ThirdPoint(s, x1, y1, x2, p);
            && c.Affine? && 0 <= c.x < p && 0 <= c.y < p
            && Divides(p, c.x - s * s + x1 + x2)
            && Divides(p, c.y + s * (c.x - x1) + y1)
  {
    var X := s * s - x1 - x2;
    ReduceCong(X, p);
    var x3 := X % p;
    assert x3 - X == x3 - s * s + x1 + x2;
    var Y := s * (x1 - x3) - y1;
    ReduceCong(Y, p);
    assert s * (x1 - x3) == -(s * (x3 - x1));
    assert Y % p - Y == Y % p + s * (x3 - x1) + y1;
  }

  /** A chord that meets the cubic twice at b is the tangent there. */
  lemma ChordIsTangent(s: int, A: int, al: int, B: int, be: int, p: int)
    requires IsPrime(p) && !Divides(p, B - A)
    requires Divides(p, al * al - A * A * A - 7) && Divides(p, be * be - B * B * B - 7)
    requires Divides(p, al - be + s * (B - A)) && Divides(p, 2 * B + A - s * s)
    ensures Divides(p, s * (2 * be) - 3 * B * B)
  {
    var g, d1 := al - be + s * (B - A), 2 * B + A - s * s;
    var h := s * (be + al) - (B * B + A * B + A * A);
    var f := be * be - B * B * B - 7 - (al * al - A * A * A - 7);
    DividesSum(p, be * be - B * B * B - 7, al * al - A * A * A - 7);
    ChordFactor(s, A, al, B, be, g, h);
    ChordCancels(B - A, h, f, g, be + al, p);
    TangentFactor(s, A, al, B, be, g, d1, h);
    TangentSum(d1, B - A, g, s, h, s * (2 * be) - 3 * B * B, p);
  }

  lemma ChordCancels(D: int, h: int, f: int, g: int, S: int, p: int)
    requires IsPrime(p) && !Divides(p, D) && Divides(p, f) && Divides(p, g) && D * h == f * 1 + g * S
    ensures Divides(p, h)
  {
    Combined(p, f, 1, g, S, D * h);
    PrimeCancel(D, h, p);
  }

  lemma TangentSum(d1: int, D: int, g: int, s: int, h: int, t: int, p: int)
    requires Divides(p, d1) && Divides(p, g) && Divides(p, h) && t == h + (-d1 * D - s * g)
    ensures Divides(p, t)
  {
    assert d1 * -D == -d1 * D && g * -s == -(s * g);
    Combined(p, d1, -D, g, -s, -d1 * D - s * g);
    DividesSum(p, h, -d1 * D - s * g);
  }

  lemma ChordFactor(s: int, A: int, al: int, B: int, be: int, g: int, h: int)
    requires g == al - be + s * (B - A) && h == s * (be + al) - (B * B + A * B + A * A)
    ensures (B - A) * h == (be * be - B * B * B - 7 - (al * al - A * A * A - 7)) * 1 + g * (be + al)
  {
    var D, S, Q := B - A, be + al, B * B + A * B + A * A;
    CubeDifference(A, B);
    LineTimes(s, D, S, Q, g, be - al);
    SquareDifference(be, al);
  }

  lemma CubeDifference(A: int, B: int)
    ensures (B - A) * (B * B + A * B + A * A) == B * B * B - A * A * A
  {
    var Q := B * B + A * B + A * A;
    assert (B - A) * Q == B * Q - A * Q;
    assert B * Q == B * B * B + B * (A * B) + B * (A * A);
    assert A * Q == A * (B * B) + A * (A * B) + A * A * A;
    assert B * (A * B) == A * (B * B) && B * (A * A) == A * (A * B);
  }

  lemma LineTimes(s: int, D: int, S: int, Q: int, g: int, dy: int)
    requires g == s * D - dy
    ensures D * (s * S - Q) == dy * S + g * S - D * Q
  {
    assert D * (s * S - Q) == D * (s * S) - D * Q;
    assert D * (s * S) == s * D * S;
    assert (g + dy) * S == g * S + dy * S;
  }

  lemma SquareDifference(x: int, y: int)
    ensures (x - y) * (x + y) == x * x - y * y
  {
  }

  lemma TangentFactor(s: int, A: int, al: int, B: int, be: int, g: int, d1: int, h: int)
    requires g == al - be + s * (B - A) && h == s * (be + al) - (B * B + A * B + A * A) && d1 == 2 * B + A - s * s
    ensures s * (2 * be) - 3 * B * B == h + (-d1 * (B - A) - s * g)
  {
    var D := B - A;
    assert al == g + be - s * D;
    assert s * (be + al) == s * (2 * be) + s * g - s * s * D by {
      assert s * (2 * be + g - s * D) == s * (2 * be) + s * g - s * (s * D);
      assert s * (s * D) == s * s * D;
    }
    assert s * s == 2 * B + A - d1;
    assert (2 * B + A - d1) * D == (2 * B + A) * D - d1 * D;
    assert (2 * B + A) * D == 2 * B * B - A * B - A * A by {
      assert (2 * B + A) * (B - A) == 2 * B * B - 2 * B * A + A * B - A * A;
    }
  }

  /** For affine points that are not opposite, some slope has the sum on its line. */
  lemma SumOnLine(a: Point, b: Point, p: int) returns (s: int)
    requires GoodField(p) && OnCurve(a, p) && OnCurve(b, p) && a.Affine? && b.Affine?
    requires a.x != b.x || a == b
    ensures PointAdd(a, b, p).Affine? && OnLine(a, b, PointAdd(a, b, p), s, p)
    ensures a == b ==> Divides(p, s * (2 * a.y) - 3 * a.x * a.x)
  {
    AddIsDefined(a, b, p);
    if a.x != b.x {
      s := Slope(b.y - a.y, b.x - a.x, p);
      SlopeTimesDenominator(b.y - a.y, b.x - a.x, p);
      ThirdPointFacts(s, a.x, a.y, b.x, p);
      ChordOnLine(a, b, PointAdd(a, b, p), s, p);
    } else {
      var q := a.x * a.x % p;
      s := Slope(3 * q, 2 * a.y, p);
      SlopeTimesDenominator(3 * q, 2 * a.y, p);
      ReduceCong(a.x * a.x, p);
      CongRefl(3, p);
      CongMul(3, 3, q, a.x * a.x, p);
      assert 3 * (a.x * a.x) == 3 * a.x * a.x;
      CongTrans(s * (2 * a.y), 3 * q, 3 * a.x * a.x, p);
      ThirdPointFacts(s, a.x, a.y, a.x, p);
      DividesWitness(p, 0);
      assert a.y - b.y + s * (b.x - a.x) == p * 0;
    }
  }

  lemma ChordOnLine(a: Point, b: Point, c: Point, s: int, p: int)
    requires IsPrime(p) && OnCurve(a, p) && OnCurve(b, p) && a.Affine? && b.Affine? && c.Affine? && a.x != b.x
    requires Cong(s * (b.x - a.x), b.y - a.y, p)
    requires Divides(p, c.x - s * s + a.x + b.x) && Divides(p, c.y + s * (c.x - a.x) + a.y)
    ensures OnLine(a, b, c, s, p)
  {
    assert s * (b.x - a.x) - (b.y - a.y) == a.y - b.y + s * (b.x - a.x);
    DividesSum(p, c.y + s * (c.x - a.x) + a.y, a.y - b.y + s * (b.x - a.x));
    Distribute(s, c.x, c.x, a.x);
    assert s * (c.x - a.x) - s * (b.x - a.x) == s * (c.x - b.x);
    assert c.y + s * (c.x - a.x) + a.y - (a.y - b.y + s * (b.x - a.x)) == c.y + s * (c.x - b.x) + b.y;
    if c.x == b.x {
      if Divides(p, b.x - a.x) {
        SmallMultiple(p, b.x - a.x);
      }
      assert a.y * a.y - (a.x * a.x * a.x + 7) == a.y * a.y - a.x * a.x * a.x - 7;
      assert b.y * b.y - (b.x * b.x * b.x + 7) == b.y * b.y - b.x * b.x * b.x - 7;
      ChordIsTangent(s, a.x, a.y, b.x, b.y, p);
    }
  }

  /** The chord case of section 2.2.1 of SEC 1 without an inverse: the opposite of the sum lies on
      the line through the two points, and the three abscissas add up to the squared slope. */
  lemma SumOnChord(a: Point, b: Point, p: int)
    requires GoodField(p) && OnCurve(a, p) && OnCurve(b, p) && a.Affine? && b.Affine? && a.x != b.x
    ensures var c := PointAdd(a, b, p);
            && c.Affine?
            && Cong((-c.y - a.y) * (b.x - a.x), (b.y - a.y) * (c.x - a.x), p)
            && Cong((c.x + a.x + b.x) * (b.x - a.x) * (b.x - a.x), (b.y - a.y) * (b.y - a.y), p)
  {
    var s := SumOnLine(a, b, p);
    var c := PointAdd(a, b, p);
    var dx, dy, g := b.x - a.x, b.y - a.y, a.y - b.y + s * (b.x - a.x);
    var e := c.y + s * (c.x - b.x) + b.y;
    LineThrough(s, a.x, a.y, b.x, b.y, c.x, c.y, e, g);
    Combined(p, e, -dx, g, c.x - b.x, (-c.y - b.y) * dx - dy * (c.x - b.x));
    DividesWitness(p, 0);
    ShiftedLine(a.x, a.y, b.x, b.y, c.x, c.y);
    RootSum(s, c.x - s * s + a.x + b.x, g, dx, dy, c.x + a.x + b.x);
    Combined(p, c.x - s * s + a.x + b.x, dx * dx, g, s * dx + dy, (c.x + a.x + b.x) * dx * dx - dy * dy);
  }

  lemma LineThrough(s: int, A: int, al: int, B: int, be: int, X: int, Y: int, e: int, g: int)
    requires e == Y + s * (X - B) + be && g == al - be + s * (B - A)
    ensures (-Y - be) * (B - A) - (be - al) * (X - B) == e * -(B - A) + g * (X - B)
  {
    var D, E := B - A, X - B;
    assert -Y - be == s * E - e;
    assert (s * E - e) * D == s * D * E - e * D by {
      assert s * E * D == s * D * E;
    }
    assert s * D == g + be - al;
    assert (g + be - al) * E == g * E + (be - al) * E;
  }

  lemma ShiftedLine(A: int, al: int, B: int, be: int, X: int, Y: int)
    ensures (-Y - al) * (B - A) - (be - al) * (X - A) == (-Y - be) * (B - A) - (be - al) * (X - B)
  {
    assert (-Y - al) * (B - A) == (-Y - be) * (B - A) + (be - al) * (B - A);
    assert (be - al) * (X - A) == (be - al) * (X - B) + (be - al) * (B - A);
  }

  lemma RootSum(s: int, d: int, g: int, dx: int, dy: int, t: int)
    requires d == t - s * s && g == s * dx - dy
    ensures t * dx * dx - dy * dy == d * (dx * dx) + g * (s * dx + dy)
  {
    assert t == d + s * s;
    assert (d + s * s) * dx * dx == d * (dx * dx) + s * s * dx * dx by {
      assert (d + s * s) * (dx * dx) == d * (dx * dx) + s * s * (dx * dx);
      assert (d + s * s) * dx * dx == (d + s * s) * (dx * dx);
      assert s * s * dx * dx == s * s * (dx * dx);
    }
    assert s * s * dx * dx == s * dx * (s * dx);
    assert g * (s * dx + dy) == s * dx * (s * dx) - dy * dy by {
      var u := s * dx;
      assert (u - dy) * (u + dy) == u * u - dy * dy;
    }
  }

  /** The tangent case: the opposite of the double lies on the tangent, and twice the abscissa with
      that of the double is the squared slope. */
  lemma SumOnTangent(a: Point, p: int)
    requires GoodField(p) && OnCurve(a, p) && a.Affine?
    ensures var c := PointAdd(a, a, p);
            && c.Affine?
            && Cong((-c.y - a.y) * (2 * a.y), 3 * a.x * a.x * (c.x - a.x), p)
            && Cong((c.x + a.x + a.x) * (2 * a.y) * (2 * a.y), 3 * a.x * a.x * (3 * a.x * a.x), p)
  {
    var s := SumOnLine(a, a, p);
    var c := PointAdd(a, a, p);
    var den, num := 2 * a.y, 3 * a.x * a.x;
    var e, g := c.y + s * (c.x - a.x) + a.y, s * den - num;
    TangentThrough(s, den, num, c.x - a.x, -c.y - a.y, e, g);
    Combined(p, e, -den, g, c.x - a.x, (-c.y - a.y) * den - num * (c.x - a.x));
    RootSum(s, c.x - s * s + a.x + a.x, g, den, num, c.x + a.x + a.x);
    Combined(p, c.x - s * s + a.x + a.x, den * den, g, s * den + num, (c.x + a.x + a.x) * den * den - num * num);
  }

  lemma TangentThrough(s: int, den: int, num: int, E: int, Y: int, e: int, g: int)
    requires e == s * E - Y && g == s * den - num
    ensures Y * den - num * E == e * -den + g * E
  {
    assert (s * E - e) * den == s * den * E - e * den by {
      assert s * E * den == s * den * E;
    }
    assert (s * den - num) * E == s * den * E - num * E;
  }

  /** A point on the line takes it back to a: c + (-b) = a. */
  lemma BackAlongLine(a: Point, b: Point, c: Point, s: int, p: int)
    requires GoodField(p) && OnCurve(a, p) && OnCurve(b, p) && OnCurve(c, p)
    requires a.Affine? && b.Affine? && c.Affine? && OnLine(a, b, c, s, p)
    ensures OnCurve(Opposite(b, p), p) && PointAdd(c, Opposite(b, p), p) == a
  {
    OppositeOnCurve(b, p);
    var o := Opposite(b, p);
    if c.x != b.x {
      BackSlope(s, b.x, b.y, c.x, c.y, p);
      ChordThird(c, o, -s, p);
      BackOnChord(s, a.x, a.y, b.x, b.y, c.x, c.y, p);
      BackTo(-s, c.x, c.y, o.x, a, p);
    } else {
      TripleIsOpposite(s, b.x, b.y, c.y, p);
      NegatedTangent(s, b.x, b.y, p);
      TangentThird(o, -s, p);
      BackOnTangent(s, a.x, a.y, b.x, b.y, p);
      BackTo(-s, o.x, o.y, o.x, a, p);
    }
  }

  lemma BackSlope(s: int, B: int, be: int, X: int, Y: int, p: int)
    requires Divides(p, Y + s * (X - B) + be)
    ensures Cong(-s * (B - X), p - be - Y, p)
  {
    DividesWitness(p, 1);
    DividesSum(p, Y + s * (X - B) + be, p * 1);
    assert -s * (B - X) == s * (X - B);
  }

  lemma BackOnChord(s: int, A: int, al: int, B: int, be: int, X: int, Y: int, p: int)
    requires Divides(p, X - s * s + A + B)
    requires Divides(p, Y + s * (X - B) + be) && Divides(p, al - be + s * (B - A))
    ensures Divides(p, X + B + A - -s * -s)
    ensures Divides(p, Y - -s * (X - A) + al)
  {
    assert -s * -s == s * s;
    DividesSum(p, Y + s * (X - B) + be, al - be + s * (B - A));
    assert s * (X - B) + s * (B - A) == s * (X - A);
    assert -s * (X - A) == -(s * (X - A));
  }

  /** If the third intersection shares its abscissa with b, it is b. */
  lemma TripleIsOpposite(s: int, B: int, be: int, Y: int, p: int)
    requires p > 0 && Divides(p, Y + s * (B - B) + be) && 0 <= Y < p && 0 < be < p
    ensures Y == p - be
  {
    DividesWitness(p, 1);
    DividesSum(p, Y + s * (B - B) + be, p * 1);
    SmallMultiple(p, Y + be - p);
  }

  lemma BackOnTangent(s: int, A: int, al: int, B: int, be: int, p: int)
    requires Divides(p, B - s * s + A + B) && Divides(p, al - be + s * (B - A))
    ensures Divides(p, B + B + A - -s * -s)
    ensures Divides(p, p - be - -s * (B - A) + al)
  {
    assert -s * -s == s * s;
    DividesWitness(p, 1);
    DividesSum(p, al - be + s * (B - A), p * 1);
    assert -s * (B - A) == -(s * (B - A));
  }

  lemma OppositeOnCurve(b: Point, p: int)
    requires GoodField(p) && OnCurve(b, p) && b.Affine?
    ensures OnCurve(Opposite(b, p), p)
  {
    assert !OnCurve(Affine(b.x, 0), p);
    SquareOfOpposite(b.y, b.x * b.x * b.x + 7, p);
  }

  lemma SquareOfOpposite(y: int, t: int, p: int)
    requires Divides(p, y * y - t)
    ensures Divides(p, (p - y) * (p - y) - t)
  {
    DividesWitness(p, p - 2 * y);
    assert (p - y) * (p - y) == p * (p - 2 * y) + y * y;
    DividesSum(p, p * (p - 2 * y), y * y - t);
  }

  lemma NegatedTangent(s: int, x: int, y: int, p: int)
    requires Divides(p, s * (2 * y) - 3 * x * x)
    ensures Cong(-s * (2 * (p - y)), 3 * (x * x), p)
  {
    DividesWitness(p, 2 * s);
    assert -s * (2 * (p - y)) - 3 * (x * x) == s * (2 * y) - 3 * x * x - p * (2 * s) by {
      assert s * (2 * (p - y)) == p * (2 * s) - s * (2 * y);
      assert -s * (2 * (p - y)) == -(s * (2 * (p - y)));
      assert 3 * (x * x) == 3 * x * x;
    }
    DividesSum(p, s * (2 * y) - 3 * x * x, p * (2 * s));
  }

  lemma BackTo(t: int, x1: int, y1: int, x2: int, a: Point, p: int)
    requires p > 1 && a.Affine? && 0 <= a.x < p && 0 <= a.y < p
    requires Divides(p, x1 + x2 + a.x - t * t) && Divides(p, y1 - t * (x1 - a.x) + a.y)
    ensures ThirdPoint(t, x1, y1, x2, p) == a
  {
    var X := t * t - x1 - x2;
    assert a.x - X == x1 + x2 + a.x - t * t;
    CongIffSameResidue(a.x, X, p);
    var Y := t * (x1 - a.x) - y1;
    assert a.y - Y == y1 - t * (x1 - a.x) + a.y;
    CongIffSameResidue(a.y, Y, p);
    SmallResidues(a.x, a.y, p);
  }

  lemma SmallResidues(x: int, y: int, p: int)
    requires 0 <= x < p && 0 <= y < p
    ensures x % p == x && y % p == y
  {
  }

  /** Addition can be undone: (a + b) + (-b) = a for all curve points. */
  lemma AddThenSubtract(a: Point, b: Point, p: int)
    requires GoodField(p) && OnCurve(a, p) && OnCurve(b, p) && b.Affine?
    ensures PointAdd(PointAdd(a, b, p), Opposite(b, p), p) == a
  {
    OppositeOnCurve(b, p);
    InfinityExactly(a, b, p);
    InfinityExactly(b, Opposite(b, p), p);
    if a.Affine? && a != Opposite(b, p) {
      if a.x == b.x && a != b {
        OppositeOrdinates(a, b, p);
      }
      AddOnCurve(a, b, p);
      var s := SumOnLine(a, b, p);
      BackAlongLine(a, b, PointAdd(a, b, p), s, p);
    }
  }

  /** PointAdd as a function value. */
  function Law(p: int): (Point, Point) -> Point
    requires p > 1
  {
    (a, b) => PointAdd(a, b, p)
  }

  /** The one law taken as a hypothesis: PointAdd is associative on the curve. */
  ghost predicate Associative(p: int)
    requires p > 1
  {
    forall a, b, c {:trigger Monoid.Associates(Law(p), a, b, c)} ::
      OnCurve(a, p) && OnCurve(b, p) && OnCurve(c, p) ==> Monoid.Associates(Law(p), a, b, c)
  }

  ghost predicate CurveGroup(p: int) {
    GoodField(p) && Associative(p)
  }

  ghost function Carrier(p: int): Point -> bool {
    a => OnCurve(a, p)
  }

  lemma CurveIsMonoid(p: int)
    requires CurveGroup(p)
    ensures Monoid.IsMonoid(Law(p), Infinity, Carrier(p))
  {
    var op, carrier := Law(p), Carrier(p);
    forall a, b | carrier(a) && carrier(b)
      ensures carrier(op(a, b))
    {
      AddOnCurve(a, b, p);
    }
    forall a, b, c | carrier(a) && carrier(b) && carrier(c)
      ensures Monoid.Associates(op, a, b, c)
    {
    }
  }

  /** The k-fold sum a + ... + a. */
  ghost function Multiple(k: nat, a: Point, p: int): Point
    requires p > 1
  {
    Monoid.Sum(k, a, Law(p), Infinity)
  }

  // ----- Scalar multiplication -----

  /** k.Rsh(i). */
  function Shift(k: nat, i: nat): nat {
    if i == 0 then k else Shift(k, i - 1) / 2
  }

  function Bit(k: nat, i: nat): nat { Shift(k, i) % 2 }

  function BitLen(k: nat): nat {
    if k == 0 then 0 else 1 + BitLen(k / 2)
  }

  lemma {:induction false} ShiftHalf(k: nat, i: nat)
    ensures Shift(k, i + 1) == Shift(k / 2, i)
  {
    if i > 0 {
      ShiftHalf(k, i - 1);
    }
  }

  /** The loop of scalarMult runs exactly while unconsumed bits remain. */
  lemma {:induction false} BitLenIsLastShift(k: nat, i: nat)
    ensures i < BitLen(k) <==> Shift(k, i) > 0
    decreases i
  {
    if k > 0 && i > 0 {
      BitLenIsLastShift(k / 2, i - 1);
      ShiftHalf(k, i - 1);
    } else if k == 0 && i > 0 {
      BitLenIsLastShift(0, i - 1);
    }
  }

  /** Double-and-add over the remaining bits k, from the given accumulator and addend. */
  function DoubleAndAdd(k: nat, result: Point, addend: Point, p: int): Point
    requires p > 1
  {
    if k == 0 then result
    else DoubleAndAdd(k / 2, if k % 2 == 1 then PointAdd(result, addend, p) else result,
                      PointDouble(addend, p), p)
  }

  method ScalarMult(k: nat, a: Point, p: int) returns (result: Point)
    requires p > 1
    ensures result == DoubleAndAdd(k, Infinity, a, p)
  {
    result := Infinity;
    var addend := a;
    var i := 0;
    BitLenIsLastShift(k, 0);
    while i < BitLen(k)
      invariant 0 <= i
      invariant i < BitLen(k) <==> Shift(k, i) > 0
      invariant DoubleAndAdd(Shift(k, i), result, addend, p) == DoubleAndAdd(k, Infinity, a, p)
      decreases BitLen(k) - i
    {
      if Bit(k, i) == 1 {
        result := PointAdd(result, addend, p);
      }
      addend := PointDouble(addend, p);
      i := i + 1;
      BitLenIsLastShift(k, i);
    }
  }

  /** No iteration of the loop meets a nil inverse. */
  ghost predicate LoopDefined(k: nat, result: Point, addend: Point, p: int)
    requires p > 1
  {
    k == 0 ||
    (&& (k % 2 == 1 ==> AddDefined(result, addend, p))
     && AddDefined(addend, addend, p)
     && LoopDefined(k / 2, if k % 2 == 1 then PointAdd(result, addend, p) else result,
                    PointDouble(addend, p), p))
  }

  lemma DoubleIsSelfAdd(a: Point, p: int)
    requires p > 1
    ensures PointDouble(a, p) == PointAdd(a, a, p)
  {
  }

  /** Under the group hypotheses every intermediate point is on the curve, so every inverse exists. */
  lemma {:induction false} LoopIsDefined(k: nat, result: Point, addend: Point, p: int)
    requires GoodField(p) && OnCurve(result, p) && OnCurve(addend, p)
    ensures LoopDefined(k, result, addend, p)
  {
    if k > 0 {
      AddIsDefined(result, addend, p);
      AddIsDefined(addend, addend, p);
      AddOnCurve(result, addend, p);
      AddOnCurve(addend, addend, p);
      DoubleIsSelfAdd(addend, p);
      LoopIsDefined(k / 2, if k % 2 == 1 then PointAdd(result, addend, p) else result,
                    PointDouble(addend, p), p);
    }
  }

  /** The loop of scalarMult is double-and-add for the law of the curve. */
  lemma {:induction false} LoopIsDoubleAndAdd(k: nat, result: Point, addend: Point, p: int)
    requires p > 1
    ensures DoubleAndAdd(k, result, addend, p) == Monoid.DoubleAndAdd(k, result, addend, Law(p))
  {
    if k > 0 {
      DoubleIsSelfAdd(addend, p);
      LoopIsDoubleAndAdd(k / 2, if k % 2 == 1 then PointAdd(result, addend, p) else result,
                         PointDouble(addend, p), p);
    }
  }

  /** scalarMult(k, a) is the k-fold sum of a, lies on the curve and meets no nil inverse. */
  lemma ScalarMultIsMultiple(k: nat, a: Point, p: int)
    requires CurveGroup(p) && OnCurve(a, p)
    ensures DoubleAndAdd(k, Infinity, a, p) == Multiple(k, a, p)
    ensures OnCurve(Multiple(k, a, p), p) && LoopDefined(k, Infinity, a, p)
  {
    CurveIsMonoid(p);
    LoopIsDoubleAndAdd(k, Infinity, a, p);
    Monoid.DoubleAndAddCorrect(k, Infinity, a, Law(p), Infinity, Carrier(p));
    Monoid.SumInCarrier(k, a, Law(p), Infinity, Carrier(p));
    LoopIsDefined(k, Infinity, a, p);
  }

  /** u1*a + u2*(d*a), as scalarMult and pointAdd compute it, is ((u1 + e) mod n)*a for e = u2*d. */
  lemma CombineMultiples(u1: nat, u2: nat, d: nat, e: int, n: nat, a: Point, p: int)
    requires CurveGroup(p) && OnCurve(a, p) && n > 0 && Multiple(n, a, p) == Infinity && e == u2 * d
    ensures PointAdd(DoubleAndAdd(u1, Infinity, a, p),
                     DoubleAndAdd(u2, Infinity, DoubleAndAdd(d, Infinity, a, p), p), p)
         == Multiple((u1 + e) % n, a, p)
  {
    CurveIsMonoid(p);
    ScalarMultIsMultiple(u1, a, p);
    ScalarMultIsMultiple(d, a, p);
    ScalarMultIsMultiple(u2, Multiple(d, a, p), p);
    ProductNonNegative(u2, d);
    Monoid.CombineSums(u1, u2, d, e, n, a, Law(p), Infinity, Carrier(p));
    LawIsPointAdd(Multiple(u1, a, p), Multiple(u2, Multiple(d, a, p), p), p);
  }

  lemma ProductNonNegative(a: nat, b: nat)
    ensures a * b >= 0
  {
  }

  lemma LawIsPointAdd(a: Point, b: Point, p: int)
    requires p > 1
    ensures Law(p)(a, b) == PointAdd(a, b, p)
  {
  }

  /** With a prime order n, no multiple ka with 0 < k < n vanishes. */
  lemma MultipleBelowOrder(k: nat, n: nat, a: Point, p: int)
    requires CurveGroup(p) && OnCurve(a, p) && a.Affine?
    requires IsPrime(n) && Multiple(n, a, p) == Infinity && 0 < k < n
    ensures Multiple(k, a, p).Affine?
  {
    if Multiple(k, a, p).Infinity? {
      CurveIsMonoid(p);
      InverseCount(k, n);
      var v := ModInverse(k, n).value;
      Monoid.VanishingMultiple(k, v, n, a, Law(p), Infinity, Carrier(p));
    }
  }

  /** Multiples whose counts add up to the order, or to nothing, are opposite: both infinity, or two
      points with the same first coordinate. */
  lemma OppositeMultiples(j: nat, k: nat, n: nat, a: Point, p: int)
    requires CurveGroup(p) && OnCurve(a, p) && Multiple(n, a, p) == Infinity && (j + k == 0 || j + k == n)
    ensures var b, c := Multiple(j, a, p), Multiple(k, a, p);
            (b == Infinity && c == Infinity) || (b.Affine? && c == Affine(b.x, p - b.y))
  {
    CurveIsMonoid(p);
    Monoid.SumOfCounts(j, k, a, Law(p), Infinity, Carrier(p));
    Monoid.SumInCarrier(j, a, Law(p), Infinity, Carrier(p));
    Monoid.SumInCarrier(k, a, Law(p), Infinity, Carrier(p));
    LawIsPointAdd(Multiple(j, a, p), Multiple(k, a, p), p);
    InfinityExactly(Multiple(j, a, p), Multiple(k, a, p), p);
  }

  lemma InverseCount(k: nat, n: nat)
    requires IsPrime(n) && 0 < k < n
    ensures ModInverse(k, n).Some? && ModInverse(k, n).value * k % n == 1
  {
    if Divides(n, k) {
      SmallMultiple(n, k);
    }
    PrimeInverse(k, n);
    ResidueOne(k, ModInverse(k, n).value, n);
  }

  lemma ResidueOne(k: int, v: int, n: int)
    requires n > 1 && Cong(k * v, 1, n)
    ensures v * k % n == 1
  {
    assert v * k == k * v;
    ReduceCong(k * v, n);
    CongTrans(k * v % n, k * v, 1, n);
    ResidueUnique(k * v % n, 1, n);
  }
}
