/** C `int` arithmetic: the 32-bit range and the truncating `/` and `%` of C99 section 6.5.5. */
module CArith {

  const IntMin: int := -0x8000_0000
  const IntMax: int := 0x7fff_ffff

  /** True iff `n` is representable as a 32-bit C `int`. */
  predicate InInt(n: int) {
    IntMin <= n <= IntMax
  }

  function Abs(n: int): nat {
    if n < 0 then -n else n
  }

  /**
   * C's `a / b`: the algebraic quotient with any fractional part discarded (rounded toward zero).
   * Its magnitude is the largest `q` with `q * |b| <= |a|`; a nonzero quotient is negative
   * exactly when the operands' signs differ.
   */
  function CDiv(a: int, b: int): (q: int)
    requires b != 0
    ensures Abs(q) * Abs(b) <= Abs(a) < (Abs(q) + 1) * Abs(b)
    ensures q != 0 ==> (q < 0 <==> (a < 0) != (b < 0))
  {
    QuotientBounds(Abs(a), Abs(b));
    var q := Abs(a) / Abs(b);
    if (a < 0) == (b < 0) then q else -q
  }

  /** C's `a % b`, defined so that `(a / b) * b + a % b == a`. Its sign follows the dividend. */
  function CMod(a: int, b: int): (r: int)
    requires b != 0
    ensures CDiv(a, b) * b + r == a
    ensures Abs(r) < Abs(b)
    ensures a >= 0 ==> r >= 0
    ensures a <= 0 ==> r <= 0
  {
    EuclidOnNat(Abs(a), Abs(b));
    a - CDiv(a, b) * b
  }

  /** The natural quotient is the largest multiple count of `b` that fits in `a`. */
  lemma QuotientBounds(a: nat, b: nat)
    requires b > 0
    ensures 0 <= a / b && (a / b) * b <= a < (a / b + 1) * b
  {
    EuclidOnNat(a, b);
    assert (a / b + 1) * b == (a / b) * b + b;
  }

  lemma EuclidOnNat(a: nat, b: nat)
    requires b > 0
    ensures (a / b) * b + a % b == a
    ensures 0 <= a % b < b
  {
  }

  /**
   * The quotient is truncated, not floored: for a positive divisor it is Dafny's (Euclidean)
   * quotient when the dividend is non-negative, and the negated quotient of the magnitude
   * when it is negative, so `-7 / 2 == -3` where floor division gives -4.
   */
  lemma CDivTruncates(a: int, b: int)
    requires b > 0
    ensures a >= 0 ==> CDiv(a, b) == a / b
    ensures a < 0 ==> CDiv(a, b) == -((-a) / b)
    ensures CDiv(-7, 2) == -3 && -7 / 2 == -4
  {
    assert Abs(2) == 2 && Abs(-7) == 7 && 7 / 2 == 3;
  }

  /**
   * The C99 rules pin down the pair (quotient, remainder) uniquely: any `q`, `r` with
   * `q * b + r == a`, `|r| < |b|` and `r` of the dividend's sign are `a / b` and `a % b`.
   */
  lemma {:induction false} CDivModUnique(a: int, b: int, q: int, r: int)
    requires b != 0
    requires q * b + r == a
    requires Abs(r) < Abs(b)
    requires a >= 0 ==> r >= 0
    requires a <= 0 ==> r <= 0
    ensures q == CDiv(a, b) && r == CMod(a, b)
  {
    var q', r' := CDiv(a, b), CMod(a, b);
    DistributesOverDifference(q, q', b);
    assert (q - q') * b == r' - r;
    if q != q' {
      AbsProductAtLeast(q - q', b);
      SameSignGap(a, r, r', b);
      assert false;
    }
  }

  lemma DistributesOverDifference(x: int, y: int, b: int)
    ensures (x - y) * b == x * b - y * b
  {
  }

  /** Two remainders of the dividend's sign, both smaller than `b`, differ by less than `b`. */
  lemma SameSignGap(a: int, r: int, r': int, b: int)
    requires Abs(r) < Abs(b) && Abs(r') < Abs(b)
    requires a >= 0 ==> r >= 0 && r' >= 0
    requires a <= 0 ==> r <= 0 && r' <= 0
    ensures Abs(r' - r) < Abs(b)
  {
  }

  lemma AbsProductAtLeast(x: int, b: int)
    requires x != 0 && b != 0
    ensures Abs(x * b) >= Abs(b)
  {
    if x > 0 {
      if b > 0 { assert x * b >= b; } else { assert x * b <= b; }
    } else {
      if b > 0 { assert x * b <= -b; } else { assert x * b >= -b; }
    }
  }
}
