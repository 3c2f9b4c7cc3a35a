// Checked 64-bit arithmetic of source/value.c.
module Arith {
  import opened Wrappers

  newtype int64 = x: int | -0x8000_0000_0000_0000 <= x < 0x8000_0000_0000_0000

  const INT64_MAX: int64 := 0x7FFF_FFFF_FFFF_FFFF
  const INT64_MIN: int64 := -0x8000_0000_0000_0000

  datatype Op = Add | Sub | Mul | Div

  datatype ArithError = Overflow | DivisionByZero

  // ----- division that truncates toward zero -----

  /** Integer division as section 6.5.5 of ISO/IEC 9899:2011 defines it: the algebraic quotient
      with any fractional part discarded. */
  function TruncDiv(a: int, b: int): int
    requires b != 0
  {
    var q := (if a < 0 then -a else a) / (if b < 0 then -b else b);
    if (a < 0) == (b < 0) then q else -q
  }

  /** The quotient leaves a remainder smaller than the divisor, with the sign of the dividend ... */
  lemma TruncDivRemainder(a: int, b: int)
    requires b != 0
    ensures var r := a - TruncDiv(a, b) * b;
      -Abs(b) < r < Abs(b) && (a >= 0 ==> r >= 0) && (a <= 0 ==> r <= 0)
  {
    var m, n := Abs(a), Abs(b);
    var q, rest := m / n, m % n;
    assert m == q * n + rest && 0 <= rest < n;
    var t := TruncDiv(a, b);
    if a >= 0 {
      assert t * b == q * n by { SignsCancel(q, n); }
    } else {
      assert t * b == -(q * n) by { SignsCancel(q, n); }
    }
  }

  lemma SignsCancel(q: int, n: int)
    ensures (-q) * (-n) == q * n && (-q) * n == -(q * n) && q * (-n) == -(q * n)
  {
  }

  /** ... and is the only one that does. */
  lemma TruncDivUnique(a: int, b: int, q: int)
    requires b != 0
    requires var r := a - q * b; -Abs(b) < r < Abs(b) && (a >= 0 ==> r >= 0) && (a <= 0 ==> r <= 0)
    ensures q == TruncDiv(a, b)
  {
    TruncDivRemainder(a, b);
    var t := TruncDiv(a, b);
    assert (q - t) * b == q * b - t * b;
    if q != t {
      MultipleTooBig(q - t, b);
    }
  }

  lemma MultipleTooBig(k: int, b: int)
    requires k != 0 && b != 0
    ensures Abs(k * b) >= Abs(b)
  {
    if k > 0 && b > 0 { assert (k - 1) * b >= 0; }
    if k > 0 && b < 0 { assert (k - 1) * (-b) >= 0; }
    if k < 0 && b > 0 { assert (-k - 1) * b >= 0; }
    if k < 0 && b < 0 { assert (-k - 1) * (-b) >= 0; }
  }

  function Abs(x: int): (r: int)
    ensures r >= 0
  {
    if x < 0 then -x else x
  }

  /** The C operator on int64. It has a result only if that fits, which its callers must show. */
  function Quotient(a: int64, b: int64): int64
    requires b != 0 && !(a == INT64_MIN && b == -1)
  {
    QuotientFits(a as int, b as int);
    TruncDiv(a as int, b as int) as int64
  }

  lemma QuotientFits(a: int, b: int)
    requires b != 0 && INT64_MIN as int <= a <= INT64_MAX as int && !(a == INT64_MIN as int && b == -1)
    ensures INT64_MIN as int <= TruncDiv(a, b) <= INT64_MAX as int
  {
    var m, n := Abs(a), Abs(b);
    assert m / n <= m by { QuotientSmaller(m, n); }
    if n > 1 && m > 0 { QuotientHalves(m, n); }
  }

  lemma QuotientSmaller(m: nat, n: nat)
    requires n > 0
    ensures 0 <= m / n <= m
  {
    assert m == (m / n) * n + m % n;
    MulMonotonic(m / n, 1, n);
  }

  lemma QuotientHalves(m: nat, n: nat)
    requires n > 1
    ensures m / n <= m / 2
  {
    var q := m / n;
    assert m == q * n + m % n;
    MulMonotonic(q, 2, n);
  }

  lemma MulMonotonic(q: nat, x: nat, y: nat)
    requires x <= y
    ensures q * x <= q * y
  {
  }

  // ----- the checked operations -----

  /** What the operation means on unbounded integers. */
  function Exact(op: Op, a: int, b: int): int
    requires op == Div ==> b != 0
  {
    match op
    case Add => a + b
    case Sub => a - b
    case Mul => a * b
    case Div => TruncDiv(a, b)
  }

  predicate Fits(x: int) {
    INT64_MIN as int <= x <= INT64_MAX as int
  }

  /** x n exceeds m exactly when x exceeds the quotient of m by n. */
  lemma ProductBound(x: nat, n: nat, m: nat)
    requires n > 0
    ensures x * n > m <==> x > m / n
  {
    var q := m / n;
    assert m == q * n + m % n && (q + 1) * n == q * n + n;
    if x > q {
      MulMonotonic(n, q + 1, x);
    } else {
      MulMonotonic(n, x, q);
    }
  }

  /** The overflow guard of multiplication. */
  predicate MulOverflows(a: int64, b: int64)
    requires a != 0 && b != 0
  {
    (a > 0 && b > 0 && a > Quotient(INT64_MAX, b))
    || (a > 0 && b < 0 && b < Quotient(INT64_MIN, a))
    || (a < 0 && b > 0 && a < Quotient(INT64_MIN, b))
    || (a < 0 && b < 0 && a < Quotient(INT64_MAX, b))
  }

  lemma MulGuardExact(a: int64, b: int64)
    requires a != 0 && b != 0
    ensures MulOverflows(a, b) <==> !Fits(a as int * b as int)
  {
    var m, n := Abs(a as int), Abs(b as int);
    ProductBound(m, n, INT64_MAX as int);
    ProductBound(n, m, -(INT64_MIN as int));
    ProductBound(m, n, -(INT64_MIN as int));
    if a > 0 && b < 0 { assert a as int * b as int == -(n * m); }
    if a < 0 && b > 0 { assert a as int * b as int == -(m * n); }
    if a < 0 && b < 0 { assert a as int * b as int == m * n; }
  }

  /** arith_int. Every subexpression, of the guards as well, is an int64 operation: that none of
      them overflows is part of what is checked here. The result is exact: there is one whenever
      the divisor is not zero and the true result fits, and it is the true result. */
  function ArithInt(op: Op, a: int64, b: int64): (r: Result<int64, ArithError>)
    ensures r == Err(DivisionByZero) <==> op == Div && b == 0
    ensures r.Ok? <==> (op == Div ==> b != 0) && Fits(Exact(op, a as int, b as int))
    ensures r.Ok? ==> r.value as int == Exact(op, a as int, b as int)
    ensures op == Add ==> (r.Ok? <==> Fits(a as int + b as int)) && (r.Ok? ==> r.value as int == a as int + b as int)
    ensures op == Sub ==> (r.Ok? <==> Fits(a as int - b as int)) && (r.Ok? ==> r.value as int + b as int == a as int)
    ensures op == Mul ==> (r.Ok? <==> Fits(a as int * b as int)) && (r.Ok? ==> r.value as int == a as int * b as int)
    ensures op == Div && b != 0 ==> (r.Ok? <==> !(a == INT64_MIN && b == -1))
    ensures op == Div && r.Ok? ==>
              var rest := a as int - r.value as int * b as int;
              -Abs(b as int) < rest < Abs(b as int) && (a >= 0 ==> rest >= 0) && (a <= 0 ==> rest <= 0)
  {
    match op
    case Add =>
      if (b > 0 && a > INT64_MAX - b) || (b < 0 && a < INT64_MIN - b) then Err(Overflow)
      else Ok(a + b)
    case Sub =>
      if (b > 0 && a < INT64_MIN + b) || (b < 0 && a > INT64_MAX + b) then Err(Overflow)
      else Ok(a - b)
    case Mul =>
      if a != 0 && b != 0 then
        MulGuardExact(a, b);
        if MulOverflows(a, b) then Err(Overflow) else Ok(a * b)
      else Ok(a * b)
    case Div =>
      if b == 0 then Err(DivisionByZero)
      else if a == INT64_MIN && b == -1 then Err(Overflow)
      else
        QuotientFits(a as int, b as int);
        TruncDivRemainder(a as int, b as int);
        Ok(Quotient(a, b))
  }
}
