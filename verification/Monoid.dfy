/** Repeated addition in a monoid given as a function value, and the proof that
    double-and-add computes it. Keeping the operation abstract keeps the modular arithmetic
    of the curve out of the arguments that only need associativity. */
module Monoid {

  ghost predicate Associates<T>(op: (T, T) -> T, a: T, b: T, c: T) {
    op(op(a, b), c) == op(a, op(b, c))
  }

  /** op is closed and associative on the carrier and zero is neutral for it. */
  ghost predicate IsMonoid<T(!new)>(op: (T, T) -> T, zero: T, carrier: T -> bool) {
    && carrier(zero)
    && (forall a, b :: carrier(a) && carrier(b) ==> carrier(op(a, b)))
    && (forall a :: carrier(a) ==> op(zero, a) == a && op(a, zero) == a)
    && (forall a, b, c {:trigger Associates(op, a, b, c)} ::
          carrier(a) && carrier(b) && carrier(c) ==> Associates(op, a, b, c))
  }

  /** The k-fold sum a + ... + a. */
  ghost function Sum<T>(k: nat, a: T, op: (T, T) -> T, zero: T): T {
    if k == 0 then zero else op(Sum(k - 1, a, op, zero), a)
  }

  lemma {:induction false} SumInCarrier<T(!new)>(k: nat, a: T, op: (T, T) -> T, zero: T, carrier: T -> bool)
    requires IsMonoid(op, zero, carrier) && carrier(a)
    ensures carrier(Sum(k, a, op, zero))
  {
    if k > 0 {
      SumInCarrier(k - 1, a, op, zero, carrier);
    }
  }

  /** (j + k)a = ja + ka. */
  lemma {:induction false} SumOfCounts<T(!new)>(j: nat, k: nat, a: T, op: (T, T) -> T, zero: T, carrier: T -> bool)
    requires IsMonoid(op, zero, carrier) && carrier(a)
    ensures Sum(j + k, a, op, zero) == op(Sum(j, a, op, zero), Sum(k, a, op, zero))
    decreases k
  {
    SumInCarrier(j, a, op, zero, carrier);
    if k > 0 {
      SumOfCounts(j, k - 1, a, op, zero, carrier);
      SumInCarrier(k - 1, a, op, zero, carrier);
      assert Associates(op, Sum(j, a, op, zero), Sum(k - 1, a, op, zero), a);
    }
  }

  /** (jk)a = j(ka). */
  lemma {:induction false} SumOfSums<T(!new)>(j: nat, k: nat, a: T, op: (T, T) -> T, zero: T, carrier: T -> bool)
    requires IsMonoid(op, zero, carrier) && carrier(a)
    ensures Sum(j * k, a, op, zero) == Sum(j, Sum(k, a, op, zero), op, zero)
    decreases j
  {
    if j > 0 {
      SumOfSums(j - 1, k, a, op, zero, carrier);
      var jk := (j - 1) * k;
      assert j * k == jk + k && jk >= 0;
      SumOfCounts(jk, k, a, op, zero, carrier);
    }
  }

  lemma {:induction false} SumOfZero<T(!new)>(k: nat, op: (T, T) -> T, zero: T, carrier: T -> bool)
    requires IsMonoid(op, zero, carrier)
    ensures Sum(k, zero, op, zero) == zero
  {
    if k > 0 {
      SumOfZero(k - 1, op, zero, carrier);
    }
  }

  lemma SumOfTwice<T(!new)>(k: nat, a: T, op: (T, T) -> T, zero: T, carrier: T -> bool)
    requires IsMonoid(op, zero, carrier) && carrier(a)
    ensures Sum(k, op(a, a), op, zero) == Sum(2 * k, a, op, zero)
  {
    SumOfSums(k, 2, a, op, zero, carrier);
    assert Sum(2, a, op, zero) == op(Sum(1, a, op, zero), a);
    assert Sum(1, a, op, zero) == op(Sum(0, a, op, zero), a);
  }

  /** Double-and-add over the remaining bits k, from an accumulator and an addend. */
  ghost function DoubleAndAdd<T>(k: nat, result: T, addend: T, op: (T, T) -> T): T {
    if k == 0 then result
    else DoubleAndAdd(k / 2, if k % 2 == 1 then op(result, addend) else result, op(addend, addend), op)
  }

  /** accumulator + (remaining bits)*addend is what the loop computes. */
  lemma {:induction false} DoubleAndAddCorrect<T(!new)>(k: nat, result: T, addend: T, op: (T, T) -> T, zero: T,
                                                        carrier: T -> bool)
    requires IsMonoid(op, zero, carrier) && carrier(result) && carrier(addend)
    ensures DoubleAndAdd(k, result, addend, op) == op(result, Sum(k, addend, op, zero))
  {
    if k > 0 {
      var half := k / 2;
      SumOfTwice(half, addend, op, zero, carrier);
      if k % 2 == 1 {
        DoubleAndAddCorrect(half, op(result, addend), op(addend, addend), op, zero, carrier);
        SumOfCounts(1, 2 * half, addend, op, zero, carrier);
        assert Sum(1, addend, op, zero) == op(Sum(0, addend, op, zero), addend);
        SumInCarrier(2 * half, addend, op, zero, carrier);
        assert Associates(op, result, addend, Sum(2 * half, addend, op, zero));
        assert k == 1 + 2 * half;
      } else {
        DoubleAndAddCorrect(half, result, op(addend, addend), op, zero, carrier);
        assert k == 2 * half;
      }
    }
  }

  /** Where n copies of a cancel, only the count modulo n matters. */
  lemma SumModOrder<T(!new)>(k: nat, n: nat, a: T, op: (T, T) -> T, zero: T, carrier: T -> bool)
    requires IsMonoid(op, zero, carrier) && carrier(a)
    requires n > 0 && Sum(n, a, op, zero) == zero
    ensures Sum(k, a, op, zero) == Sum(k % n, a, op, zero)
  {
    var q, r := k / n, k % n;
    var e := q * n;
    assert k == e + r;
    SumOfCounts(e, r, a, op, zero, carrier);
    SumOfSums(q, n, a, op, zero, carrier);
    SumOfZero(q, op, zero, carrier);
    SumInCarrier(r, a, op, zero, carrier);
  }

  /** u1*a + u2*(d*a) = ((u1 + e) mod n)*a, where e = u2*d. */
  lemma CombineSums<T(!new)>(u1: nat, u2: nat, d: nat, e: nat, n: nat, a: T, op: (T, T) -> T, zero: T,
                             carrier: T -> bool)
    requires IsMonoid(op, zero, carrier) && carrier(a)
    requires n > 0 && Sum(n, a, op, zero) == zero && e == u2 * d
    ensures op(Sum(u1, a, op, zero), Sum(u2, Sum(d, a, op, zero), op, zero))
         == Sum((u1 + e) % n, a, op, zero)
  {
    SumOfSums(u2, d, a, op, zero, carrier);
    SumOfCounts(u1, e, a, op, zero, carrier);
    SumModOrder(u1 + e, n, a, op, zero, carrier);
  }

  /** If the counts j and k differ from an inverse pair only by multiples of n, a vanishes with ja. */
  lemma VanishingMultiple<T(!new)>(j: nat, v: nat, n: nat, a: T, op: (T, T) -> T, zero: T, carrier: T -> bool)
    requires IsMonoid(op, zero, carrier) && carrier(a)
    requires n > 1 && Sum(n, a, op, zero) == zero && v * j % n == 1
    requires Sum(j, a, op, zero) == zero
    ensures a == zero
  {
    var e := v * j;
    SumOfSums(v, j, a, op, zero, carrier);
    SumOfZero(v, op, zero, carrier);
    SumModOrder(e, n, a, op, zero, carrier);
    assert Sum(1, a, op, zero) == op(Sum(0, a, op, zero), a);
  }
}
