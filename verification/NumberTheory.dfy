/** Residue arithmetic behind big.Int's Mod and ModInverse.

    `Cong(a, b, m)` says that m divides a - b. Divisibility is kept in witness form, so that
    the solver meets % only where a number is actually reduced. Dafny's % is Euclidean, which
    is what big.Int.Mod computes for a positive modulus. */
module NumberTheory {

  datatype Option<+T> = None | Some(value: T)

  function Times(m: int, k: int): int { m * k }

  ghost predicate Divides(m: int, a: int) {
    exists k :: Times(m, k) == a
  }

  ghost predicate Cong(a: int, b: int, m: int) {
    Divides(m, a - b)
  }

  // ----- Divisibility -----

  lemma DividesWitness(m: int, k: int)
    ensures Divides(m, m * k)
  {
    assert Times(m, k) == m * k;
  }

  lemma DividesSum(m: int, a: int, b: int)
    requires Divides(m, a) && Divides(m, b)
    ensures Divides(m, a + b) && Divides(m, a - b)
  {
    var j :| Times(m, j) == a;
    var k :| Times(m, k) == b;
    assert m * j + m * k == m * (j + k) && m * j - m * k == m * (j - k);
    DividesWitness(m, j + k);
    DividesWitness(m, j - k);
  }

  lemma DividesProduct(m: int, a: int, c: int)
    requires Divides(m, a)
    ensures Divides(m, a * c)
  {
    var k :| Times(m, k) == a;
    assert m * k * c == m * (k * c);
    DividesWitness(m, k * c);
  }

  lemma DividesTrans(d: int, m: int, a: int)
    requires Divides(d, m) && Divides(m, a)
    ensures Divides(d, a)
  {
    var k :| Times(m, k) == a;
    DividesProduct(d, m, k);
  }

  lemma ProductAtLeast(m: int, t: int)
    requires m > 0 && t >= 1
    ensures m * t >= m
  {
  }

  /** A multiple of m that is smaller than m in absolute value is zero. */
  lemma SmallMultiple(m: int, a: int)
    requires m > 0 && Divides(m, a) && -m < a < m
    ensures a == 0
  {
    var k :| Times(m, k) == a;
    if k >= 1 {
      ProductAtLeast(m, k);
    } else if k <= -1 {
      ProductAtLeast(m, -k);
    }
  }

  /** Divisors of a positive number do not exceed it. */
  lemma DivisorBound(d: int, a: int)
    requires d > 0 && a > 0 && Divides(d, a)
    ensures d <= a
  {
    if a < d {
      SmallMultiple(d, a);
    }
  }

  lemma DividesIffNoRemainder(m: int, a: int)
    requires m > 0
    ensures Divides(m, a) <==> a % m == 0
  {
    assert a == m * (a / m) + a % m;
    DividesWitness(m, a / m);
    if Divides(m, a) {
      DividesSum(m, a, m * (a / m));
      SmallMultiple(m, a % m);
    }
  }

  // ----- Congruence -----

  lemma CongRefl(a: int, m: int)
    ensures Cong(a, a, m)
  {
    DividesWitness(m, 0);
  }

  lemma CongSym(a: int, b: int, m: int)
    requires Cong(a, b, m)
    ensures Cong(b, a, m)
  {
    DividesWitness(m, 0);
    DividesSum(m, 0, a - b);
    assert 0 - (a - b) == b - a;
  }

  lemma CongTrans(a: int, b: int, c: int, m: int)
    requires Cong(a, b, m) && Cong(b, c, m)
    ensures Cong(a, c, m)
  {
    DividesSum(m, a - b, b - c);
    assert (a - b) + (b - c) == a - c;
  }

  lemma CongSum(a: int, b: int, c: int, d: int, m: int)
    requires Cong(a, b, m) && Cong(c, d, m)
    ensures Cong(a + c, b + d, m) && Cong(a - c, b - d, m)
  {
    DividesSum(m, a - b, c - d);
    assert (a - b) + (c - d) == (a + c) - (b + d);
    assert (a - b) - (c - d) == (a - c) - (b - d);
  }

  lemma CongMul(a: int, b: int, c: int, d: int, m: int)
    requires Cong(a, b, m) && Cong(c, d, m)
    ensures Cong(a * c, b * d, m)
  {
    DividesProduct(m, a - b, c);
    DividesProduct(m, c - d, b);
    DividesSum(m, (a - b) * c, (c - d) * b);
    assert (a - b) * c + (c - d) * b == a * c - b * d;
  }

  /** Reducing a number keeps its residue class. */
  lemma ReduceCong(a: int, m: int)
    requires m > 0
    ensures 0 <= a % m < m && Cong(a % m, a, m) && Cong(a, a % m, m)
  {
    assert a - a % m == m * (a / m);
    DividesWitness(m, a / m);
    CongSym(a, a % m, m);
  }

  /** Congruence is equality of residues. */
  lemma CongIffSameResidue(a: int, b: int, m: int)
    requires m > 0
    ensures Cong(a, b, m) <==> a % m == b % m
  {
    ReduceCong(a, m);
    ReduceCong(b, m);
    if a % m == b % m {
      CongTrans(a, a % m, b, m);
    }
    if Cong(a, b, m) {
      CongTrans(a % m, a, b, m);
      CongTrans(a % m, b, b % m, m);
      SmallMultiple(m, a % m - b % m);
    }
  }

  lemma ResidueUnique(a: int, b: int, m: int)
    requires m > 0 && Cong(a, b, m) && 0 <= a < m && 0 <= b < m
    ensures a == b
  {
    SmallMultiple(m, a - b);
  }

  // ----- Extended Euclid and modular inverses -----

  /** Greatest common divisor with its Bezout coefficients. */
  function ExtendedGcd(a: nat, b: nat): (r: (nat, int, int))
    requires a > 0 || b > 0
    ensures r.0 > 0 && a * r.1 + b * r.2 == r.0
    ensures Divides(r.0, a) && Divides(r.0, b)
    decreases b
  {
    if b == 0 then
      DividesWitness(a, 1);
      DividesWitness(a, 0);
      (a, 1, 0)
    else
      var (g, x, y) := ExtendedGcd(b, a % b);
      GcdStep(a, b, g, x, y);
      (g, y, x - a / b * y)
  }

  lemma GcdStep(a: nat, b: nat, g: int, x: int, y: int)
    requires b > 0 && b * x + a % b * y == g
    requires Divides(g, b) && Divides(g, a % b)
    ensures a * y + b * (x - a / b * y) == g && Divides(g, a)
  {
    var q, r := a / b, a % b;
    assert a == b * q + r;
    assert a * y == b * q * y + r * y;
    assert b * (x - q * y) == b * x - b * q * y;
    DividesProduct(g, b, q);
    DividesSum(g, b * q, r);
  }

  /** big.Int.ModInverse: the inverse in [1, m), or nil when a and m share a factor. */
  function ModInverse(a: int, m: int): (r: Option<int>)
    requires m > 1
    ensures r.Some? ==> 0 < r.value < m && Cong(a * r.value, 1, m)
  {
    var (g, x, y) := ExtendedGcd(a % m, m);
    if g != 1 then None
    else
      BezoutGivesInverse(a, m, x, y);
      Some(x % m)
  }

  lemma BezoutGivesInverse(a: int, m: int, x: int, y: int)
    requires m > 1 && a % m * x + m * y == 1
    ensures 0 < x % m < m && Cong(a * (x % m), 1, m)
  {
    ReduceCong(x, m);
    ReduceCong(a, m);
    CongMul(a, a % m, x % m, x, m);
    DividesWitness(m, -y);
    assert m * -y == a % m * x - 1;
    CongTrans(a * (x % m), a % m * x, 1, m);
    if x % m == 0 {
      NoInverseOfZero(a, m);
    }
  }

  lemma NoInverseOfZero(a: int, m: int)
    requires m > 1
    ensures !Cong(a * 0, 1, m)
  {
    if Cong(a * 0, 1, m) {
      SmallMultiple(m, a * 0 - 1);
    }
  }

  /** ModInverse misses no inverse: whenever a*v = 1 (mod m), it returns v reduced. */
  lemma ModInverseComplete(a: int, v: int, m: int)
    requires m > 1 && Cong(a * v, 1, m)
    ensures ModInverse(a, m) == Some(v % m)
  {
    var (g, x, y) := ExtendedGcd(a % m, m);
    GcdDividesOne(a, v, m, g);
    InverseResidue(a, v, ModInverse(a, m).value, m);
  }

  lemma InverseResidue(a: int, v: int, w: int, m: int)
    requires 0 <= w < m && Cong(a * v, 1, m) && Cong(a * w, 1, m)
    ensures w == v % m
  {
    InverseUnique(a, v, w, m);
    ReduceCong(v, m);
    CongTrans(w, v, v % m, m);
    ResidueUnique(w, v % m, m);
  }

  lemma GcdDividesOne(a: int, v: int, m: int, g: nat)
    requires m > 1 && g > 0 && Cong(a * v, 1, m) && Divides(g, a % m) && Divides(g, m)
    ensures g == 1
  {
    ReduceCong(a, m);
    DividesTrans(g, m, a - a % m);
    DividesSum(g, a - a % m, a % m);
    DividesProduct(g, a, v);
    DividesTrans(g, m, a * v - 1);
    DividesSum(g, a * v, a * v - 1);
    assert a * v - (a * v - 1) == 1;
    DivisorBound(g, 1);
  }

  lemma InverseUnique(a: int, v: int, w: int, m: int)
    requires Cong(a * v, 1, m) && Cong(a * w, 1, m)
    ensures Cong(w, v, m)
  {
    // w = w*(a*v) = (a*w)*v = v
    CongRefl(w, m);
    CongRefl(v, m);
    CongMul(w, w, a * v, 1, m);
    CongMul(a * w, 1, v, v, m);
    assert a * w * v == w * (a * v);
    CongSym(w * (a * v), w * 1, m);
    CongTrans(w, w * (a * v), v, m);
  }

  // ----- Primes -----

  ghost predicate IsPrime(p: int) {
    p > 1 && forall d :: 1 < d < p ==> !Divides(d, p)
  }

  /** Everything that is not a multiple of a prime has an inverse. */
  lemma PrimeInverse(a: int, p: int)
    requires IsPrime(p) && !Divides(p, a)
    ensures ModInverse(a, p).Some?
  {
    var (g, x, y) := ExtendedGcd(a % p, p);
    DivisorBound(g, p);
    if g == p {
      ReduceCong(a, p);
      DividesSum(p, a - a % p, a % p);
    }
  }

  /** Euclid's lemma, in the form used to cancel a factor of a congruence. */
  lemma PrimeCancel(a: int, b: int, p: int)
    requires IsPrime(p) && !Divides(p, a) && Divides(p, a * b)
    ensures Divides(p, b)
  {
    PrimeInverse(a, p);
    UnitCancel(a, b, ModInverse(a, p).value, p);
  }

  lemma UnitCancel(a: int, b: int, v: int, m: int)
    requires Cong(a * v, 1, m) && Divides(m, a * b)
    ensures Divides(m, b)
  {
    DividesProduct(m, a * b, v);
    DividesProduct(m, a * v - 1, b);
    DividesSum(m, a * b * v, (a * v - 1) * b);
    assert a * b * v == a * v * b;
    assert (a * v - 1) * b == a * v * b - b;
  }
}
