// 32-bit two's complement arithmetic, and how the results of 64-bit arithmetic relate to it.
module Int32 {
  import opened Arith
  import opened Wrappers

  const TWO32: int := 0x1_0000_0000

  const INT32_MIN: int := -0x8000_0000

  /** The 32-bit two's complement number with the same low bits. */
  function Wrap(x: int): (w: int)
    ensures Fits32(w) && (Fits32(x) ==> w == x)
  {
    (x - INT32_MIN) % TWO32 + INT32_MIN
  }

  predicate Fits32(x: int) {
    INT32_MIN <= x < -INT32_MIN
  }

  /** The emitted instruction on i32 operands; None where its result is undefined. */
  function Machine(op: Op, a: int, b: int): Option<int> {
    match op
    case Add => Some(Wrap(a + b))
    case Sub => Some(Wrap(a - b))
    case Mul => Some(Wrap(a * b))
    case Div => if b == 0 || (a == INT32_MIN && b == -1) then None else Some(TruncDiv(a, b))
  }

  lemma WrapOffset(x: int) returns (k: int)
    ensures Wrap(x) == x + k * TWO32
  {
    k := -((x - INT32_MIN) / TWO32);
  }

  lemma WrapMultiple(x: int, k: int)
    ensures Wrap(x + k * TWO32) == Wrap(x)
  {
  }

  /** Cutting the operands to 32 bits first makes no difference to the cut result. */
  lemma WrapHomomorphic(op: Op, a: int, b: int)
    requires op != Div
    ensures Wrap(Exact(op, Wrap(a), Wrap(b))) == Wrap(Exact(op, a, b))
  {
    var k := WrapOffset(a);
    var m := WrapOffset(b);
    match op
    case Add =>
      WrapMultiple(a + b, k + m);
    case Sub =>
      WrapMultiple(a - b, k - m);
    case Mul =>
      var n := k * b + a * m + k * m * TWO32;
      assert Wrap(a) * Wrap(b) == a * b + n * TWO32 by { Expand(a, k, b, m); }
      WrapMultiple(a * b, n);
  }

  lemma Expand(a: int, k: int, b: int, m: int)
    ensures (a + k * TWO32) * (b + m * TWO32) == a * b + (k * b + a * m + k * m * TWO32) * TWO32
  {
  }

  // ----- division -----

  /** Whether dividing a by b and then cutting to 32 bits is the same as dividing on 32 bits. For
      a divisor that fits, what the dividend lost must be a multiple of the divisor, and the
      remainder must keep its sign; otherwise the true quotient and remainder, cut to 32 bits,
      must still be a quotient and a remainder. */
  predicate QuotientAgrees(a: int, b: int)
    requires b != 0
  {
    if Fits32(b) then
      var w := Wrap(a);
      var lost := (a - w) / TWO32;
      && !(w == INT32_MIN && b == -1)
      && lost % b == 0
      && (w % b == 0 || (a < 0) == (w < 0))
    else
      RemainderAgrees(a, b)
  }

  predicate RemainderAgrees(a: int, b: int)
    requires b != 0
  {
    var w, d, q := Wrap(a), Wrap(b), TruncDiv(a, b);
    var r := Wrap(a - q * b);
    && d != 0 && !(w == INT32_MIN && d == -1)
    && Abs(r) < Abs(d) && (w >= 0 ==> r >= 0) && (w <= 0 ==> r <= 0)
    && Fits32(Wrap(q) * d + r)
  }

  /** Exactly then, for every dividend and every divisor. */
  lemma DivisionAgreesIff(a: int, b: int)
    requires b != 0
    ensures Machine(Div, Wrap(a), Wrap(b)) == Some(Wrap(TruncDiv(a, b))) <==> QuotientAgrees(a, b)
  {
    if Fits32(b) {
      ShortDivisorIff(a, b);
    } else {
      RemainderIff(a, b);
    }
  }

  /** So in particular when the operands fit and the quotient does not overflow. */
  lemma OperandsFit(a: int, b: int)
    requires b != 0 && Fits32(a) && Fits32(b) && !(a == INT32_MIN && b == -1)
    ensures QuotientAgrees(a, b)
  {
    ZeroMultiple(b);
  }

  lemma ZeroMultiple(b: int)
    requires b != 0
    ensures 0 % b == 0
  {
  }

  // The general case: the remainder on 32 bits is the true remainder, cut to 32 bits.

  lemma RemainderIff(a: int, b: int)
    requires b != 0
    ensures Machine(Div, Wrap(a), Wrap(b)) == Some(Wrap(TruncDiv(a, b))) <==> RemainderAgrees(a, b)
  {
    var w, d, q := Wrap(a), Wrap(b), TruncDiv(a, b);
    var r := Wrap(a - q * b);
    Recombined(a, b, q);
    if d != 0 && !(w == INT32_MIN && d == -1) {
      if TruncDiv(w, d) == Wrap(q) {
        TruncDivRemainder(w, d);
        CutRemainder(a, b, q);
      }
      if RemainderAgrees(a, b) {
        TruncDivUnique(w, d, Wrap(q));
      }
    }
  }

  /** The parts, cut to 32 bits, make up the whole cut to 32 bits. */
  lemma Recombined(a: int, b: int, q: int)
    ensures Wrap(Wrap(q) * Wrap(b) + Wrap(a - q * b)) == Wrap(a)
  {
    var product, r := Wrap(q) * Wrap(b), a - q * b;
    WrapHomomorphic(Mul, q, b);
    WrapHomomorphic(Add, product, r);
    WrapHomomorphic(Add, q * b, r);
    WrapHomomorphic(Add, product, Wrap(r));
    assert Wrap(product) == Wrap(q * b) && q * b + r == a;
  }

  /** A remainder on 32 bits is the true one, cut to 32 bits. */
  lemma CutRemainder(a: int, b: int, q: int)
    requires Fits32(Wrap(a) - Wrap(q) * Wrap(b))
    ensures Wrap(a) - Wrap(q) * Wrap(b) == Wrap(a - q * b)
  {
    WrapHomomorphic(Mul, q, b);
    CutDifference(a, q * b, Wrap(q) * Wrap(b));
  }

  lemma CutDifference(a: int, x: int, p: int)
    requires Wrap(p) == Wrap(x)
    ensures Wrap(Wrap(a) - p) == Wrap(a - x)
  {
    WrapHomomorphic(Sub, a, x);
    WrapHomomorphic(Sub, Wrap(a), p);
    hide Wrap;
  }

  // A divisor that fits: both remainders are smaller than 2^31.

  lemma ShortDivisorIff(a: int, b: int)
    requires b != 0 && Fits32(b)
    ensures Machine(Div, Wrap(a), b) == Some(Wrap(TruncDiv(a, b))) <==> QuotientAgrees(a, b)
  {
    var w := Wrap(a);
    var k := WrapOffset(a);
    assert (a - w) / TWO32 == -k;
    if !(w == INT32_MIN && b == -1) {
      if TruncDiv(w, b) == Wrap(TruncDiv(a, b)) {
        AgreementDivides(a, b, k);
      }
      if QuotientAgrees(a, b) {
        DividesAgreement(a, b, -k);
      }
    }
  }

  /** When the quotients agree, the divisor divides what was lost, and the remainders are equal. */
  lemma AgreementDivides(a: int, b: int, k: int)
    requires b != 0 && Fits32(b) && Wrap(a) == a + k * TWO32 && TruncDiv(Wrap(a), b) == Wrap(TruncDiv(a, b))
    ensures (-k) % b == 0 && (Wrap(a) % b == 0 || (a < 0) == (Wrap(a) < 0))
  {
    hide Wrap, TruncDiv;
    var w, q := Wrap(a), TruncDiv(a, b);
    var t := WrapOffset(q);
    TruncDivRemainder(a, b);
    TruncDivRemainder(w, b);
    SameRemainder(a, w, b, q, k, t);
    if a - q * b == 0 {
      MultipleMod(w, b, q + t * TWO32);
    }
  }

  lemma SameRemainder(a: int, w: int, b: int, q: int, k: int, t: int)
    requires Fits32(b) && b != 0 && w == a + k * TWO32
    requires Abs(a - q * b) < Abs(b) && Abs(w - (q + t * TWO32) * b) < Abs(b)
    ensures (-k) % b == 0 && a - q * b == w - (q + t * TWO32) * b
  {
    Expanded(q, t, b);
    SmallMultiple(a - q * b, w - (q + t * TWO32) * b, b, k - t * b);
    assert -k == (-t) * b;
    MultipleMod(-k, b, -t);
  }

  /** Remainders by a divisor that fits do not differ by a multiple of 2^32. */
  lemma SmallMultiple(r: int, r': int, b: int, d: int)
    requires Fits32(b) && Abs(r) < Abs(b) && Abs(r') < Abs(b) && r' - r == d * TWO32
    ensures d == 0
  {
  }

  lemma Expanded(q: int, t: int, b: int)
    ensures (q + t * TWO32) * b == q * b + t * b * TWO32
  {
  }

  lemma MultipleMod(x: int, b: int, t: int)
    requires b != 0 && x == t * b
    ensures x % b == 0
  {
    var d := x / b - t;
    assert x == (x / b) * b + x % b;
    assert d * b == (x / b) * b - t * b;
    if d != 0 {
      MultipleTooBig(d, b);
    }
  }

  /** When the divisor divides what was lost, the quotient loses a multiple of 2^32. */
  lemma DividesAgreement(a: int, b: int, lost: int)
    requires b != 0 && a == Wrap(a) + lost * TWO32 && lost % b == 0
    requires Wrap(a) % b == 0 || (a < 0) == (Wrap(a) < 0)
    requires Fits32(b) && !(Wrap(a) == INT32_MIN && b == -1)
    ensures TruncDiv(Wrap(a), b) == Wrap(TruncDiv(a, b))
  {
    var w, t := Wrap(a), lost / b;
    var q := TruncDiv(w, b);
    assert lost == t * b;
    TruncDivRemainder(w, b);
    assert a - (q + t * TWO32) * b == w - q * b by { Expanded(q, t, b); }
    if w % b == 0 {
      ExactRemainder(w, b);
    }
    TruncDivUnique(a, b, q + t * TWO32);
    WrapMultiple(q, t);
    QuotientFits32(w, b);
  }

  lemma ExactRemainder(w: int, b: int)
    requires b != 0 && w % b == 0
    ensures w - TruncDiv(w, b) * b == 0
  {
    TruncDivRemainder(w, b);
    assert w == (w / b) * b;
    TruncDivUnique(w, b, w / b);
  }

  lemma QuotientFits32(a: int, b: int)
    requires b != 0 && Fits32(a) && Fits32(b) && !(a == INT32_MIN && b == -1)
    ensures Fits32(TruncDiv(a, b))
  {
    var m, n := Abs(a), Abs(b);
    QuotientSmaller(m, n);
    if n > 1 {
      QuotientHalves(m, n);
    }
  }
}
