/** Signed and unsigned 64-bit results, as Go computes them: wrapped modulo 2^64. */
module Words {

  const TWO_63: int := 0x8000_0000_0000_0000
  const TWO_64: int := 0x1_0000_0000_0000_0000
  const MAX_INT64: int := TWO_63 - 1

  predicate IsInt64(x: int) { -TWO_63 <= x <= MAX_INT64 }

  /** Wrap-around of a signed 64-bit result. */
  function I64(x: int): (r: int)
    ensures IsInt64(r)
    decreases if x > MAX_INT64 then x else if x < -TWO_63 then -x else 0
  {
    if x > MAX_INT64 then I64(x - TWO_64) else if x < -TWO_63 then I64(x + TWO_64) else x
  }

  /** The conversion to uint64, and the wrap-around of an unsigned 64-bit result. */
  function U64(x: int): (r: nat)
    ensures r < TWO_64
    decreases if x >= TWO_64 then x else if x < 0 then TWO_64 - x else 0
  {
    if x >= TWO_64 then U64(x - TWO_64) else if x < 0 then U64(x + TWO_64) else x
  }

  /** Results that differ by a multiple of 2^64 are the same int64. */
  lemma {:induction false} I64Adds(x: int, y: int)
    ensures I64(I64(x) + y) == I64(x + y)
    decreases if x > MAX_INT64 then x else if x < -TWO_63 then -x else 0
  {
    if x > MAX_INT64 {
      I64Adds(x - TWO_64, y);
      OneTurn(x - TWO_64 + y);
    } else if x < -TWO_63 {
      I64Adds(x + TWO_64, y);
      OneTurn(x + y);
    }
  }

  lemma OneTurn(x: int)
    ensures I64(x + TWO_64) == I64(x)
  {
  }

  lemma WordSizes()
    ensures TWO_64 == 18_446_744_073_709_551_616 && TWO_63 == 9_223_372_036_854_775_808
    ensures MAX_INT64 == 9_223_372_036_854_775_807
  {
  }

  lemma {:induction false} I64IsModulo(x: int)
    ensures I64(x) == (x + TWO_63) % TWO_64 - TWO_63
    decreases if x > MAX_INT64 then x else if x < -TWO_63 then -x else 0
  {
    if x > MAX_INT64 {
      I64IsModulo(x - TWO_64);
    } else if x < -TWO_63 {
      I64IsModulo(x + TWO_64);
    }
  }

  lemma {:induction false} I64Subtracts(b: int, x: int)
    ensures I64(b - I64(x)) == I64(b - x)
    decreases if x > MAX_INT64 then x else if x < -TWO_63 then -x else 0
  {
    if x > MAX_INT64 {
      I64Subtracts(b, x - TWO_64);
      OneTurn(b - x);
    } else if x < -TWO_63 {
      I64Subtracts(b, x + TWO_64);
      OneTurn(b - x - TWO_64);
    }
  }

  lemma SameShift(x: int, y: int, z: int)
    requires I64(x) == I64(y)
    ensures I64(x + z) == I64(y + z)
  {
    I64Adds(x, z);
    I64Adds(y, z);
  }

  lemma Shifted(b: int, x: int, t: int, n: int)
    requires n == I64(b + x)
    ensures I64(t + n - b) == I64(t + x)
  {
    I64Adds(b + x, t - b);
  }

  lemma OneTurnUnsigned(x: int)
    ensures U64(x + TWO_64) == U64(x)
  {
  }

  lemma {:induction false} U64Adds(x: int, y: int)
    ensures U64(U64(x) + y) == U64(x + y)
    decreases if x >= TWO_64 then x else if x < 0 then TWO_64 - x else 0
  {
    if x >= TWO_64 {
      U64Adds(x - TWO_64, y);
      OneTurnUnsigned(x - TWO_64 + y);
    } else if x < 0 {
      U64Adds(x + TWO_64, y);
      OneTurnUnsigned(x + y);
    }
  }

  lemma {:induction false} U64IsModulo(x: int)
    ensures U64(x) == x % TWO_64
    decreases if x >= TWO_64 then x else if x < 0 then TWO_64 - x else 0
  {
    if x >= TWO_64 {
      U64IsModulo(x - TWO_64);
    } else if x < 0 {
      U64IsModulo(x + TWO_64);
    }
  }

  /** Wrapping never enlarges a non-negative number, and changes it exactly from 2^64 on. */
  lemma {:induction false} U64AtMost(x: nat)
    ensures U64(x) <= x && (U64(x) == x <==> x < TWO_64)
    decreases x
  {
    if x >= TWO_64 {
      U64AtMost(x - TWO_64);
    }
  }
}
