/** Exact fractions in lowest terms, as Python's fractions.Fraction keeps them, and
    the integer division operators the recipe code uses. */
module Rational {
  import opened Division

  /** Python's `//` for a non-zero divisor: rounds towards minus infinity. */
  function FloorDiv(a: int, b: int): (q: int)
    requires b != 0
    ensures b > 0 ==> b * q <= a < b * q + b
    ensures b < 0 ==> b * q + b < a <= b * q
  {
    if b > 0 then a / b else (-a) / (-b)
  }

  /** Python's `%`: the remainder of FloorDiv, it has the sign of the divisor. */
  function FloorMod(a: int, b: int): (m: int)
    requires b != 0
    ensures b > 0 ==> 0 <= m < b
    ensures b < 0 ==> b < m <= 0
  {
    a - b * FloorDiv(a, b)
  }

  /** The recipe's ceiling division. */
  function CeilDiv(a: int, b: int): (q: int)
    requires b != 0
    ensures b > 0 ==> b * q - b < a <= b * q
    ensures b < 0 ==> b * q <= a < b * q - b
  {
    -FloorDiv(-a, b)
  }

  /** Division rounding towards zero, as C++ does it. */
  function TruncDiv(a: int, b: int): int
    requires b != 0
  {
    if (a >= 0) == (b > 0) then Abs(a) / Abs(b) else -(Abs(a) / Abs(b))
  }

  function Abs(a: int): (r: nat)
    ensures r == a || r == -a
  {
    if a < 0 then -a else a
  }

  function Gcd(a: nat, b: nat): (g: nat)
    ensures a > 0 || b > 0 ==> g > 0
    decreases b
  {
    if b == 0 then a else Gcd(b, a % b)
  }

  ghost predicate Divides(d: int, a: int) {
    exists k: int :: a == Mul(d, k)
  }

  function Mul(a: int, b: int): int { a * b }

  lemma {:induction false} DividesWitness(d: int, a: int, k: int)
    requires a == d * k
    ensures Divides(d, a)
  {
    assert a == Mul(d, k);
  }

  lemma {:induction false} GcdDivides(a: nat, b: nat)
    requires a > 0 || b > 0
    ensures Divides(Gcd(a, b), a) && Divides(Gcd(a, b), b)
    decreases b
  {
    var g := Gcd(a, b);
    if b == 0 {
      DividesWitness(g, a, 1);
      DividesWitness(g, b, 0);
    } else {
      GcdDivides(b, a % b);
      var k: int :| b == Mul(g, k);
      var m: int :| a % b == Mul(g, m);
      calc {
        a;
        b * (a / b) + a % b;
        (g * k) * (a / b) + g * m;
        g * (k * (a / b) + m);
      }
      DividesWitness(g, a, k * (a / b) + m);
    }
  }

  lemma {:induction false} GcdScale(k: nat, a: nat, b: nat)
    requires k > 0
    ensures k * a >= 0 && k * b >= 0
    ensures Gcd(k * a, k * b) == k * Gcd(a, b)
    decreases b
  {
    if b != 0 {
      ScaleRemainder(k, a, b);
      GcdScale(k, b, a % b);
    }
  }

  lemma {:induction false} ScaleRemainder(k: nat, a: nat, b: nat)
    requires k > 0 && b > 0
    ensures k * b > 0
    ensures (k * a) % (k * b) == k * (a % b)
  {
    var q, r := a / b, a % b;
    TimesSum(k, b * q, r);
    TimesTwice(k, b, q);
    TimesLess(k, r, b);
    DivModUnique(k * a, k * b, q, k * r);
  }

  lemma {:induction false} TimesSum(k: nat, x: nat, y: nat)
    ensures k * (x + y) == k * x + k * y
  {
  }

  lemma {:induction false} TimesTwice(k: nat, x: nat, y: nat)
    ensures k * (x * y) == (k * x) * y
  {
  }

  lemma {:induction false} TimesLess(k: nat, x: nat, y: nat)
    requires k > 0 && x < y
    ensures 0 <= k * x < k * y
  {
  }

  lemma {:induction false} DivideExact(d: int, a: int)
    requires d > 0 && Divides(d, a)
    ensures a == d * (a / d)
  {
    var k: int :| a == Mul(d, k);
    DivModUnique(a, d, k, 0);
  }

  lemma {:induction false} GcdQuotients(a: nat, b: nat)
    requires a > 0 || b > 0
    ensures a == Gcd(a, b) * (a / Gcd(a, b)) && b == Gcd(a, b) * (b / Gcd(a, b))
    ensures Gcd(a / Gcd(a, b), b / Gcd(a, b)) == 1
  {
    var g := Gcd(a, b);
    GcdDivides(a, b);
    DivideExact(g, a);
    DivideExact(g, b);
    GcdScale(g, a / g, b / g);
    CancelFactor(g, Gcd(a / g, b / g), 1);
  }

  lemma {:induction false} CancelFactor(g: int, a: int, b: int)
    requires g != 0 && g * a == g * b
    ensures a == b
  {
  }

  // ------------------------------------------------------------------ fractions

  datatype Rat = Rat(num: int, den: int)

  predicate Lowest(q: Rat) {
    q.den > 0 && Gcd(Abs(q.num), q.den) == 1
  }

  /** A fraction in lowest terms with a positive denominator. */
  type Fraction = q: Rat | Lowest(q) witness Rat(0, 1)

  /** n / d reduced to lowest terms. */
  function MakeFraction(n: int, d: int): (q: Fraction)
    requires d != 0
    ensures q.num * d == n * q.den
  {
    ReduceIsLowest(n, d);
    Reduce(n, d)
  }

  function Reduce(n: int, d: int): Rat
    requires d != 0
  {
    var g := Gcd(Abs(n), Abs(d));
    Rat(SignedQuotient(if d < 0 then -n else n, g), Abs(d) / g)
  }

  /** a / g for a divisor g of a. */
  function SignedQuotient(a: int, g: int): int
    requires g > 0
  {
    if a < 0 then -(Abs(a) / g) else Abs(a) / g
  }

  lemma {:induction false} ReduceIsLowest(n: int, d: int)
    requires d != 0
    ensures Lowest(Reduce(n, d)) && Reduce(n, d).num * d == n * Reduce(n, d).den
  {
    var g := Gcd(Abs(n), Abs(d));
    GcdQuotients(Abs(n), Abs(d));
    var x, y := Abs(n) / g, Abs(d) / g;
    CrossFactor(g, x, y);
    QuotientsPositive(g, x, y, Abs(d));
    SignsCross(x, Abs(d), Abs(n), y);
  }

  lemma {:induction false} QuotientsPositive(g: int, x: int, y: int, d: int)
    requires g > 0 && d > 0 && d == g * y
    ensures y > 0
  {
  }

  lemma {:induction false} SignsCross(a: int, b: int, c: int, d: int)
    requires a * b == c * d
    ensures (-a) * b == (-c) * d && a * (-b) == (-c) * d && (-a) * (-b) == c * d
  {
  }

  lemma {:induction false} CrossFactor(g: int, x: int, y: int)
    ensures x * (g * y) == (g * x) * y
  {
  }

  lemma {:induction false} NegateFactor(a: int, b: int, c: int, d: int)
    requires a * b == c * d
    ensures (-a) * b == (-c) * d
  {
  }

  function Whole(n: int): Fraction {
    assert Gcd(Abs(n), 1) == Gcd(1, Abs(n) % 1);
    Rat(n, 1)
  }

  function FracAdd(a: Fraction, b: Fraction): Fraction {
    MakeFraction(a.num * b.den + b.num * a.den, NonZero(a.den, b.den))
  }

  function FracSub(a: Fraction, b: Fraction): Fraction {
    MakeFraction(a.num * b.den - b.num * a.den, NonZero(a.den, b.den))
  }

  function FracMul(a: Fraction, b: Fraction): Fraction {
    MakeFraction(a.num * b.num, NonZero(a.den, b.den))
  }

  function FracDiv(a: Fraction, b: Fraction): Fraction
    requires b.num != 0
  {
    MakeFraction(a.num * b.den, NonZero(a.den, b.num))
  }

  function FracNeg(a: Fraction): Fraction {
    Rat(-a.num, a.den)
  }

  /** A product of non-zero numbers, which is non-zero. */
  function NonZero(a: int, b: int): (r: int)
    requires a != 0 && b != 0
    ensures r == a * b && r != 0
  {
    a * b
  }

  function ToReal(q: Rat): real
    requires q.den != 0
  {
    q.num as real / q.den as real
  }

  lemma {:induction false} ToRealCross(n: int, d: int, q: Rat)
    requires d != 0 && q.den != 0 && q.num * d == n * q.den
    ensures ToReal(q) == n as real / d as real
  {
    var rd, qd := d as real, q.den as real;
    var x := n as real / rd;
    assert q.num as real * rd == n as real * qd;
    assert (x * qd) * rd == (x * rd) * qd == q.num as real * rd;
    RealCancel(rd, x * qd, q.num as real);
    QuotientFrom(q.num as real, qd, x);
  }

  lemma {:induction false} RealCancel(g: real, a: real, b: real)
    requires g != 0.0 && a * g == b * g
    ensures a == b
  {
  }

  lemma {:induction false} CastMul(a: int, b: int)
    ensures (a * b) as real == (a as real) * (b as real)
  {
  }

  lemma {:induction false} AddIsSum(a: Fraction, b: Fraction)
    ensures ToReal(FracAdd(a, b)) == ToReal(a) + ToReal(b)
  {
    SumCross(a, b, FracAdd(a, b));
  }

  lemma {:induction false} SubIsDifference(a: Fraction, b: Fraction)
    ensures ToReal(FracSub(a, b)) == ToReal(a) - ToReal(b)
  {
    DifferenceCross(a, b, FracSub(a, b));
  }

  lemma {:induction false} MulIsProduct(a: Fraction, b: Fraction)
    ensures ToReal(FracMul(a, b)) == ToReal(a) * ToReal(b)
  {
    ProductCross(a, b, FracMul(a, b));
  }

  lemma {:induction false} DivIsQuotient(a: Fraction, b: Fraction)
    requires b.num != 0
    ensures ToReal(b) != 0.0
    ensures ToReal(FracDiv(a, b)) == ToReal(a) / ToReal(b)
  {
    QuotientCross(a, b, FracDiv(a, b));
  }

  lemma {:induction false} SumCross(a: Rat, b: Rat, q: Rat)
    requires a.den != 0 && b.den != 0 && q.den != 0
    requires q.num * (a.den * b.den) == (a.num * b.den + b.num * a.den) * q.den
    ensures ToReal(q) == ToReal(a) + ToReal(b)
  {
    var n, m, d := a.num * b.den, b.num * a.den, NonZero(a.den, b.den);
    ToRealCross(n + m, d, q);
    CastMul(a.num, b.den);
    CastMul(b.num, a.den);
    CastMul(a.den, b.den);
    RealSum(a.num as real, a.den as real, b.num as real, b.den as real);
  }

  lemma {:induction false} DifferenceCross(a: Rat, b: Rat, q: Rat)
    requires a.den != 0 && b.den != 0 && q.den != 0
    requires q.num * (a.den * b.den) == (a.num * b.den - b.num * a.den) * q.den
    ensures ToReal(q) == ToReal(a) - ToReal(b)
  {
    NegateFactor(b.num, a.den, b.num, a.den);
    SumCross(a, Rat(-b.num, b.den), q);
    RealNegate(b.num as real, b.den as real);
  }

  lemma {:induction false} ProductCross(a: Rat, b: Rat, q: Rat)
    requires a.den != 0 && b.den != 0 && q.den != 0
    requires q.num * (a.den * b.den) == (a.num * b.num) * q.den
    ensures ToReal(q) == ToReal(a) * ToReal(b)
  {
    ToRealCross(a.num * b.num, NonZero(a.den, b.den), q);
    CastMul(a.num, b.num);
    CastMul(a.den, b.den);
    RealProduct(a.num as real, a.den as real, b.num as real, b.den as real);
  }

  lemma {:induction false} QuotientCross(a: Rat, b: Rat, q: Rat)
    requires a.den != 0 && b.den != 0 && q.den != 0 && b.num != 0
    requires q.num * (a.den * b.num) == (a.num * b.den) * q.den
    ensures ToReal(b) != 0.0 && ToReal(q) == ToReal(a) / ToReal(b)
  {
    ToRealCross(a.num * b.den, NonZero(a.den, b.num), q);
    CastMul(a.num, b.den);
    CastMul(a.den, b.num);
    RealQuotient(a.num as real, a.den as real, b.num as real, b.den as real);
  }

  lemma {:induction false} RealSum(n: real, d: real, m: real, e: real)
    requires d != 0.0 && e != 0.0
    ensures d * e != 0.0
    ensures (n * e + m * d) / (d * e) == n / d + m / e
  {
    var x, y := n / d, m / e;
    assert (x + y) * (d * e) == (x * d) * e + (y * e) * d == n * e + m * d;
    QuotientFrom(n * e + m * d, d * e, x + y);
  }

  lemma {:induction false} RealNegate(m: real, e: real)
    requires e != 0.0
    ensures (-m) / e == -(m / e)
  {
    var y := m / e;
    assert (-y) * e == -m;
    QuotientFrom(-m, e, -y);
  }

  lemma {:induction false} RealProduct(n: real, d: real, m: real, e: real)
    requires d != 0.0 && e != 0.0
    ensures d * e != 0.0
    ensures (n * m) / (d * e) == (n / d) * (m / e)
  {
    var x, y := n / d, m / e;
    assert (x * y) * (d * e) == (x * d) * (y * e) == n * m;
    QuotientFrom(n * m, d * e, x * y);
  }

  lemma {:induction false} RealQuotient(n: real, d: real, m: real, e: real)
    requires d != 0.0 && e != 0.0 && m != 0.0
    ensures d * m != 0.0 && m / e != 0.0
    ensures (n * e) / (d * m) == (n / d) / (m / e)
  {
    var x, y := n / d, m / e;
    assert y * e == m;
    var z := x / y;
    assert z * (d * m) == (z * y) * (d * e) == (x * d) * e == n * e;
    QuotientFrom(n * e, d * m, z);
  }

  lemma {:induction false} QuotientFrom(n: real, d: real, x: real)
    requires d != 0.0 && x * d == n
    ensures n / d == x
  {
  }
}
