// The numeric kernels over exact reals: Newton's square root, complex arithmetic, integer powers by
// squaring, and the quadratic solver.
module NawMath {

  // ----- Newton's square root -----

  const STEPS := 12

  // The guess after n steps.
  function Newton(v: real, guess: real, n: nat): (g: real)
    requires v > 0.0 && guess > 0.0
    ensures g > 0.0
    decreases n
  {
    if n == 0 then guess else
      var g := Newton(v, guess, n - 1);
      0.5 * (g + v / g)
  }

  function FirstGuess(v: real): real { if v < 1.0 then 1.0 else v }

  function Root(v: real): (r: real)
    ensures r >= 0.0
  {
    if v <= 0.0 then 0.0 else Newton(v, FirstGuess(v), STEPS)
  }

  function Quarter(n: nat): (q: real)
    ensures q > 0.0
  {
    if n == 0 then 1.0 else Quarter(n - 1) / 4.0
  }

  // By how much the square of the root exceeds its argument.
  function Excess(v: real): real { Root(v) * Root(v) - v }

  lemma StepError(v: real, g: real)
    requires v > 0.0 && g > 0.0 && g * g >= v
    ensures
      var h := 0.5 * (g + v / g);
      0.0 <= h * h - v <= (g * g - v) / 4.0
  {
    var q := v / g;
    var h := 0.5 * (g + q);
    assert q * g == v;
    var d := 0.5 * (g - q);
    assert h * h - v == d * d by { Squares(g, q); }
    assert 0.0 <= q <= g by { Quotient(v, g, q); }
    HalfGap(g, q);
  }

  lemma Squares(g: real, q: real)
    ensures (0.5 * (g + q)) * (0.5 * (g + q)) - q * g == (0.5 * (g - q)) * (0.5 * (g - q))
  {
  }

  lemma Quotient(v: real, g: real, q: real)
    requires v > 0.0 && g > 0.0 && q * g == v && g * g >= v
    ensures 0.0 <= q <= g
  {
    assert q > g ==> q * g > g * g;
    assert q < 0.0 ==> q * g < 0.0;
  }

  lemma HalfGap(g: real, q: real)
    requires 0.0 <= q <= g
    ensures 0.0 <= (0.5 * (g - q)) * (0.5 * (g - q)) <= (g * g - q * g) / 4.0
  {
    assert (g - q) * (g - q) <= (g - q) * g;
  }

  lemma {:induction false} NewtonError(v: real, guess: real, n: nat)
    requires v > 0.0 && guess > 0.0 && guess * guess >= v
    ensures 0.0 <= Newton(v, guess, n) * Newton(v, guess, n) - v <= (guess * guess - v) * Quarter(n)
    decreases n
  {
    hide Newton, Quarter;
    NewtonIs(v, guess, n);
    QuarterIs(guess * guess - v, n);
    if n > 0 {
      NewtonError(v, guess, n - 1);
      StepError(v, Newton(v, guess, n - 1));
    }
  }

  lemma NewtonIs(v: real, guess: real, n: nat)
    requires v > 0.0 && guess > 0.0
    ensures n == 0 ==> Newton(v, guess, n) == guess
    ensures n > 0 ==>
      Newton(v, guess, n) == 0.5 * (Newton(v, guess, n - 1) + v / Newton(v, guess, n - 1))
  {
  }

  lemma QuarterIs(e: real, n: nat)
    ensures e * Quarter(n) == if n == 0 then e else e * Quarter(n - 1) / 4.0
  {
  }

  function Bound(v: real): real {
    (FirstGuess(v) * FirstGuess(v) - v) / 16777216.0
  }

  lemma TwelveQuarters()
    ensures Quarter(STEPS) == 1.0 / 16777216.0
  {
  }

  // The root is never too small, and its square too large by at most (max(v, 1)^2 - v) / 4^12.
  lemma RootError(v: real)
    requires v >= 0.0
    ensures 0.0 <= Excess(v) <= if v == 0.0 then 0.0 else Bound(v)
  {
    hide Newton;
    if v > 0.0 {
      var g := FirstGuess(v);
      assert g * g >= v by { if v >= 1.0 { assert v * v >= v; } }
      NewtonError(v, g, STEPS);
      TwelveQuarters();
    }
  }

  method Sqrt(value: real) returns (r: real)
    ensures r == Root(value)
  {
    if value <= 0.0 {
      return 0.0;
    }
    var guess := value;
    if guess < 1.0 {
      guess := 1.0;
    }
    var i := 0;
    while i < 12
      invariant 0 <= i <= 12 && guess > 0.0 && guess == Newton(value, FirstGuess(value), i)
    {
      guess := 0.5 * (guess + value / guess);
      i := i + 1;
    }
    r := guess;
  }

  // ----- complex numbers -----

  datatype Complex = Complex(re: real, im: real)

  const ZERO := Complex(0.0, 0.0)
  const ONE := Complex(1.0, 0.0)

  function Add(a: Complex, b: Complex): Complex { Complex(a.re + b.re, a.im + b.im) }

  function Sub(a: Complex, b: Complex): Complex { Complex(a.re - b.re, a.im - b.im) }

  function Mul(a: Complex, b: Complex): Complex {
    Complex(a.re * b.re - a.im * b.im, a.re * b.im + a.im * b.re)
  }

  function Times(x: real, y: real): real { x * y }

  function Norm(b: Complex): real { Times(b.re, b.re) + Times(b.im, b.im) }

  function Div(a: Complex, b: Complex): Complex {
    var denom := Norm(b);
    if denom == 0.0 then ZERO
    else Complex((a.re * b.re + a.im * b.im) / denom, (a.im * b.re - a.re * b.im) / denom)
  }

  function Neg(a: Complex): Complex { Complex(-a.re, -a.im) }

  function Scale(a: Complex, factor: real): Complex { Complex(a.re * factor, a.im * factor) }

  lemma TimesPositive(x: real, y: real)
    requires x > 0.0 && y > 0.0
    ensures Times(x, y) > 0.0
  {
  }

  lemma TimesNegated(x: real, y: real)
    ensures Times(-x, -y) == Times(x, y)
  {
  }

  lemma SquarePositive(x: real)
    ensures if x == 0.0 then Times(x, x) == 0.0 else Times(x, x) > 0.0
  {
    TimesNegated(x, x);
    SquareOfZero();
    hide Times;
    if x > 0.0 { TimesPositive(x, x); }
    if x < 0.0 { TimesPositive(-x, -x); }
  }

  lemma SquareOfZero()
    ensures Times(0.0, 0.0) == 0.0
  {
  }

  lemma NormZero(b: Complex)
    ensures if b == ZERO then Norm(b) == 0.0 else Norm(b) > 0.0
  {
    hide Times;
    SquarePositive(b.re);
    SquarePositive(b.im);
  }

  lemma MulCommutes(a: Complex, b: Complex)
    ensures Mul(a, b) == Mul(b, a)
  {
  }

  lemma MulAssociates(a: Complex, b: Complex, c: Complex)
    ensures Mul(Mul(a, b), c) == Mul(a, Mul(b, c))
  {
  }

  lemma MulDistributes(a: Complex, b: Complex, c: Complex)
    ensures Mul(a, Add(b, c)) == Add(Mul(a, b), Mul(a, c))
  {
  }

  // Division by a number other than zero is the inverse of multiplication.
  lemma DivideMultiply(a: Complex, b: Complex)
    requires b != ZERO
    ensures Mul(Div(a, b), b) == a
  {
    hide Norm, Mul, Div, Times;
    var n := Norm(b);
    var p, q := Times(a.re, b.re) + Times(a.im, b.im), Times(a.im, b.re) - Times(a.re, b.im);
    NormZero(b);
    DivIs(a, b);
    MulOfOver(p, q, n, b);
    NormOut(a, b);
    TimesOver(a.re, n);
    TimesOver(a.im, n);
  }

  lemma DivIs(a: Complex, b: Complex)
    requires Norm(b) != 0.0
    ensures Div(a, b) == Complex((Times(a.re, b.re) + Times(a.im, b.im)) / Norm(b),
      (Times(a.im, b.re) - Times(a.re, b.im)) / Norm(b))
  {
    hide Norm;
  }

  lemma MulOfOver(p: real, q: real, n: real, b: Complex)
    requires n > 0.0
    ensures Mul(Complex(p / n, q / n), b)
      == Complex((Times(p, b.re) - Times(q, b.im)) / n, (Times(p, b.im) + Times(q, b.re)) / n)
  {
    OverNorm(p, q, b.re, b.im, n);
  }

  lemma NormOut(a: Complex, b: Complex)
    ensures
      var p, q := Times(a.re, b.re) + Times(a.im, b.im), Times(a.im, b.re) - Times(a.re, b.im);
      && Times(p, b.re) - Times(q, b.im) == Times(a.re, Norm(b))
      && Times(p, b.im) + Times(q, b.re) == Times(a.im, Norm(b))
  {
    TimesNorm(a.re, a.im, b.re, b.im);
  }

  lemma TimesOver(x: real, n: real)
    requires n > 0.0
    ensures Times(x, n) / n == x
  {
  }

  lemma NormIs(b: Complex)
    ensures Norm(b) == b.re * b.re + b.im * b.im
  {
  }

  lemma TimesNorm(x: real, y: real, u: real, v: real)
    ensures (x * u + y * v) * u - (y * u - x * v) * v == x * (u * u + v * v)
    ensures (x * u + y * v) * v + (y * u - x * v) * u == y * (u * u + v * v)
  {
  }

  lemma OverNorm(p: real, q: real, u: real, v: real, n: real)
    requires n > 0.0
    ensures p / n * u - q / n * v == (p * u - q * v) / n
    ensures p / n * v + q / n * u == (p * v + q * u) / n
  {
    Divided(p, u, n);
    Divided(q, v, n);
    Divided(p, v, n);
    Divided(q, u, n);
  }

  lemma Divided(p: real, u: real, n: real)
    requires n > 0.0
    ensures p / n * u == p * u / n
  {
    assert p / n * n == p;
    assert p * u / n * n == p * u;
    assert (p / n * u) * n == p * u;
  }

  lemma QuotientIsUnique(x: Complex, a: Complex, b: Complex)
    requires b != ZERO && Mul(x, b) == a
    ensures x == Div(a, b)
  {
    NormZero(b);
    var n := Norm(b);
    assert a.re * b.re + a.im * b.im == x.re * n;
    assert a.im * b.re - a.re * b.im == x.im * n;
    assert x.re * n / n == x.re && x.im * n / n == x.im;
  }

  // ----- integer powers -----

  // z multiplied by itself n times.
  function Pow(z: Complex, n: nat): Complex {
    if n == 0 then ONE else Mul(z, Pow(z, n - 1))
  }

  lemma {:induction false} PowSquared(z: Complex, n: nat)
    ensures Pow(Mul(z, z), n) == Pow(z, 2 * n)
  {
    hide Mul;
    if n > 0 {
      PowSquared(z, n - 1);
      assert Pow(z, 2 * n) == Mul(z, Pow(z, 2 * n - 1));
      assert Pow(z, 2 * n - 1) == Mul(z, Pow(z, 2 * n - 2));
      MulAssociates(z, z, Pow(z, 2 * n - 2));
    }
  }

  // Raising to an integer power by squaring: the n-fold product, its inverse for a negative power.
  method PowInt(value: Complex, exponent: int) returns (r: Complex)
    ensures exponent >= 0 ==> r == Pow(value, exponent)
    ensures exponent < 0 && value == ZERO ==> r == ZERO
    ensures exponent < 0 && value != ZERO ==> Mul(r, Pow(value, -exponent)) == ONE
  {
    hide Mul, Div;
    var result := ONE;
    var power := exponent;
    if power < 0 {
      if value.re == 0.0 && value.im == 0.0 {
        return ZERO;
      }
      power := -power;
    }
    ghost var n := power;
    var base := value;
    OneTimes(Pow(base, power));
    while power > 0
      invariant 0 <= power && Mul(result, Pow(base, power)) == Pow(value, n)
    {
      SquaringStep(result, base, power);
      if power % 2 == 1 {
        result := Mul(result, base);
      }
      base := Mul(base, base);
      power := power / 2;
    }
    TimesOne(result);
    if exponent < 0 {
      PowNonzero(value, n);
      DivideMultiply(ONE, result);
      return Div(ONE, result);
    }
    r := result;
  }

  lemma OneTimes(z: Complex)
    ensures Mul(ONE, z) == z
  {
  }

  lemma TimesOne(z: Complex)
    ensures Mul(z, ONE) == z
  {
  }

  lemma SquaringStep(result: Complex, base: Complex, power: nat)
    requires power > 0
    ensures
      var r := if power % 2 == 1 then Mul(result, base) else result;
      Mul(r, Pow(Mul(base, base), power / 2)) == Mul(result, Pow(base, power))
  {
    hide Mul;
    PowSquared(base, power / 2);
    if power % 2 == 1 {
      assert power == 2 * (power / 2) + 1;
      MulAssociates(result, base, Pow(base, 2 * (power / 2)));
    } else {
      assert power == 2 * (power / 2);
    }
  }

  lemma {:induction false} PowNonzero(z: Complex, n: nat)
    requires z != ZERO
    ensures Pow(z, n) != ZERO
  {
    hide Mul;
    if n > 0 {
      PowNonzero(z, n - 1);
      ProductNonzero(z, Pow(z, n - 1));
    }
  }

  lemma NormOfProduct(a: Complex, b: Complex)
    ensures Norm(Mul(a, b)) == Norm(a) * Norm(b)
  {
  }

  lemma ProductNonzero(a: Complex, b: Complex)
    requires a != ZERO && b != ZERO
    ensures Mul(a, b) != ZERO
  {
    hide Norm, Mul;
    NormZero(a);
    NormZero(b);
    NormOfProduct(a, b);
    NormZero(Mul(a, b));
  }

  // ----- complex square root -----

  function Abs(z: Complex): real { Root(Norm(z)) }

  function Clamp(x: real): real { if x < 0.0 then 0.0 else x }

  function SqrtOf(z: Complex): Complex {
    if z == ZERO then ZERO
    else
      var re, im := Root(Clamp((Abs(z) + z.re) * 0.5)), Root(Clamp((Abs(z) - z.re) * 0.5));
      Complex(re, if z.im < 0.0 then -im else im)
  }

  // The computed modulus is never below either part's size, so neither half is ever cut.
  lemma AbsCovers(z: Complex)
    ensures -Abs(z) <= z.re <= Abs(z) && Abs(z) * Abs(z) == Norm(z) + Excess(Norm(z))
  {
    hide Root, Norm;
    NormZero(z);
    RootError(Norm(z));
    NormIs(z);
    SquarePositive(z.im);
    Covers(Abs(z), z.re);
  }

  lemma Covers(m: real, x: real)
    requires m >= 0.0 && m * m >= x * x
    ensures -m <= x <= m
  {
    if x > m {
      SquaresGrow(m, x);
      assert false;
    }
    if -x > m {
      SquaresGrow(m, -x);
      assert false;
    }
  }

  lemma SquaresGrow(m: real, x: real)
    requires 0.0 <= m < x
    ensures m * m < x * x
  {
    TimesPositive(x - m, x + m);
    assert Times(x - m, x + m) == x * x - m * m;
  }

  function SquareGap(x: real, y: real): real { x * x - y * y }

  // The errors e and f of two factors p and q, as they enter the square of twice the product.
  function CrossTerms(e: real, f: real, p: real, q: real): real {
    4.0 * (Times(e, q) + Times(f, p) + Times(e, f))
  }

  // How far the square of the computed root is from its argument: in the real part by the difference of two
  // root errors; in the square of the imaginary part by errors that vanish with them, and never below.
  lemma SqrtError(z: Complex)
    requires z != ZERO
    ensures
      var s, p, q := SqrtOf(z), (Abs(z) + z.re) * 0.5, (Abs(z) - z.re) * 0.5;
      var square := Mul(s, s);
      && s.re >= 0.0 && p >= 0.0 && q >= 0.0
      && square.re - z.re == Excess(p) - Excess(q)
      && SquareGap(square.im, z.im) == Excess(Norm(z)) + CrossTerms(Excess(p), Excess(q), p, q)
  {
    hide Root, Norm;
    AbsCovers(z);
    NormIs(z);
    var m := Abs(z);
    var p, q := (m + z.re) * 0.5, (m - z.re) * 0.5;
    var x, y := Root(p), Root(q);
    ProductOfHalves(m, z.re);
    SquareOfProduct(x, y, p, q, Excess(p), Excess(q));
  }

  lemma ProductOfHalves(m: real, re: real)
    ensures 4.0 * (((m + re) * 0.5) * ((m - re) * 0.5)) == m * m - re * re
  {
  }

  lemma SquareOfProduct(x: real, y: real, p: real, q: real, e: real, f: real)
    requires x * x == p + e && y * y == q + f
    ensures (2.0 * (x * y)) * (2.0 * (x * y)) == 4.0 * (p * q) + 4.0 * (e * q + f * p + e * f)
  {
    assert (x * y) * (x * y) == (x * x) * (y * y);
    assert (p + e) * (q + f) == p * q + (e * q + f * p + e * f);
  }

  // The computed root lies on the branch its argument asks for: its square has the argument's sign above or
  // below the real axis.
  lemma SqrtSign(z: Complex)
    ensures
      var square := Mul(SqrtOf(z), SqrtOf(z));
      && (z.im >= 0.0 ==> square.im >= 0.0) && (z.im < 0.0 ==> square.im <= 0.0)
  {
    hide Root, Norm;
    var s := SqrtOf(z);
    SignOfProduct(s.re, s.im);
  }

  lemma SignOfProduct(x: real, y: real)
    ensures x >= 0.0 && y >= 0.0 ==> x * y >= 0.0
    ensures x >= 0.0 && y <= 0.0 ==> x * y <= 0.0
  {
  }

  // The bound of a root's excess, for any argument that is not negative.
  function Slack(v: real): real { if v == 0.0 then 0.0 else Bound(v) }

  // How far, squared, the square of a computed complex root may be from its argument.
  function Residue(z: Complex): real {
    if z == ZERO then 0.0
    else
      var p, q := (Abs(z) + z.re) * 0.5, (Abs(z) - z.re) * 0.5;
      Times(Slack(p), Slack(p)) + Times(Slack(q), Slack(q))
      + Slack(Norm(z)) + CrossTerms(Slack(p), Slack(q), p, q)
  }

  lemma TimesGrows(a: real, b: real, x: real, y: real)
    requires 0.0 <= a <= x && 0.0 <= b <= y
    ensures 0.0 <= Times(a, b) <= Times(x, y)
  {
    assert a * b <= a * y <= x * y;
  }

  // The difference of two amounts, squared, is at most the sum of their squares.
  lemma GapSquared(e: real, f: real)
    requires e >= 0.0 && f >= 0.0
    ensures Times(e - f, e - f) <= Times(e, e) + Times(f, f)
  {
    assert e * f >= 0.0;
    assert (e - f) * (e - f) == e * e + f * f - 2.0 * (e * f);
  }

  // Of two numbers of one sign, the larger in size last.
  lemma GapOfSquares(x: real, y: real)
    requires (x >= 0.0 && y >= 0.0) || (x <= 0.0 && y <= 0.0)
    requires y * y >= x * x
    ensures Times(y - x, y - x) <= y * y - x * x
  {
    var u, v := if x >= 0.0 then x else -x, if y >= 0.0 then y else -y;
    assert u * u == x * x && v * v == y * y;
    Covers(v, u);
    SignOfProduct(v - u, u);
    assert (y - x) * (y - x) == (v - u) * (v - u);
    assert v * v - u * u - (v - u) * (v - u) == 2.0 * ((v - u) * u);
  }

  lemma SqrtBound(z: Complex)
    ensures
      var s := SqrtOf(z);
      Norm(Sub(Mul(s, s), z)) <= Residue(z)
  {
    hide Root, Norm, Mul, SqrtOf, Excess, Slack, Abs, CrossTerms, SquareGap, Sub;
    var p, q := (Abs(z) + z.re) * 0.5, (Abs(z) - z.re) * 0.5;
    if z == ZERO {
      ZeroRootExact();
    } else {
      SqrtError(z);
      SqrtSign(z);
      NormZero(z);
      ExcessWithinSlack(p);
      ExcessWithinSlack(q);
      ExcessWithinSlack(Norm(z));
      ErrorsAdd(z, Mul(SqrtOf(z), SqrtOf(z)), p, q, Excess(p), Excess(q), Excess(Norm(z)));
    }
  }

  lemma ZeroRootExact()
    ensures Norm(Sub(Mul(SqrtOf(ZERO), SqrtOf(ZERO)), ZERO)) == 0.0
  {
  }

  lemma ExcessWithinSlack(v: real)
    requires v >= 0.0
    ensures 0.0 <= Excess(v) <= Slack(v)
  {
    hide Excess, Bound;
    RootError(v);
  }

  lemma ErrorsAdd(z: Complex, square: Complex, p: real, q: real, e: real, f: real, g: real)
    requires p >= 0.0 && q >= 0.0 && 0.0 <= e <= Slack(p) && 0.0 <= f <= Slack(q) && 0.0 <= g <= Slack(Norm(z))
    requires square.re - z.re == e - f
    requires SquareGap(square.im, z.im) == g + CrossTerms(e, f, p, q)
    requires (z.im >= 0.0 ==> square.im >= 0.0) && (z.im < 0.0 ==> square.im <= 0.0)
    ensures Norm(Sub(square, z))
      <= Times(Slack(p), Slack(p)) + Times(Slack(q), Slack(q)) + Slack(Norm(z)) + CrossTerms(Slack(p), Slack(q), p, q)
  {
    hide Norm, Slack, Bound;
    TimesIs(e, q);
    TimesIs(f, p);
    TimesIs(e, f);
    TimesGrows(e, q, Slack(p), q);
    TimesGrows(f, p, Slack(q), p);
    TimesGrows(e, f, Slack(p), Slack(q));
    TimesGrows(e, e, Slack(p), Slack(p));
    TimesGrows(f, f, Slack(q), Slack(q));
    GapSquared(e, f);
    GapOfSquares(z.im, square.im);
    hide Times;
    SubNorm(square, z);
  }

  lemma TimesIs(x: real, y: real)
    ensures Times(x, y) == x * y
  {
  }

  lemma SubNorm(a: Complex, b: Complex)
    ensures Norm(Sub(a, b)) == Times(a.re - b.re, a.re - b.re) + Times(a.im - b.im, a.im - b.im)
  {
  }

  // ----- quadratic equations -----

  datatype Status = Ok | Linear | Infinite | NoRoot

  class QuadraticResult {
    var x1: Complex
    var x2: Complex
    var status: Status

    constructor ()
    {
      x1, x2, status := ZERO, ZERO, NoRoot;
    }
  }

  function Discriminant(a: Complex, b: Complex, c: Complex): Complex {
    Sub(Mul(b, b), Scale(Mul(a, c), 4.0))
  }

  datatype Solution = Solution(x1: Complex, x2: Complex, status: Status)

  function Solve(a: Complex, b: Complex, c: Complex): Solution {
    if a != ZERO then
      var s := SqrtOf(Discriminant(a, b, c));
      Solution(Div(Add(Neg(b), s), Scale(a, 2.0)), Div(Sub(Neg(b), s), Scale(a, 2.0)), Ok)
    else if b != ZERO then Solution(Div(Neg(c), b), Div(Neg(c), b), Linear)
    else Solution(ZERO, ZERO, if c == ZERO then Infinite else NoRoot)
  }

  function Value(a: Complex, b: Complex, c: Complex, x: Complex): Complex {
    Add(Add(Mul(a, Mul(x, x)), Mul(b, x)), c)
  }

  // Completing the square: four a times the value at x, in terms of y = 2 a x.
  lemma FourTimesValue(a: Complex, b: Complex, c: Complex, x: Complex)
    ensures
      var y := Mul(x, Scale(a, 2.0));
      Mul(Value(a, b, c, x), Scale(a, 4.0)) == Add(Add(Mul(y, y), Scale(Mul(b, y), 2.0)), Scale(Mul(a, c), 4.0))
  {
    var y := Mul(x, Scale(a, 2.0));
    SquareTerm(a, x);
    LinearTerm(a, b, x);
    ConstantTerm(a, c);
    MulOverSum(Mul(a, Mul(x, x)), Mul(b, x), c, Scale(a, 4.0));
  }

  lemma MulOverSum(p: Complex, q: Complex, r: Complex, z: Complex)
    ensures Mul(Add(Add(p, q), r), z) == Add(Add(Mul(p, z), Mul(q, z)), Mul(r, z))
  {
    hide Mul, Add;
    MulDistributes(z, Add(p, q), r);
    MulDistributes(z, p, q);
    MulCommutes(z, Add(Add(p, q), r));
    MulCommutes(z, Add(p, q));
    MulCommutes(z, p);
    MulCommutes(z, q);
    MulCommutes(z, r);
  }

  lemma ScaleOut(p: Complex, q: Complex, k: real)
    ensures Mul(p, Scale(q, k)) == Scale(Mul(p, q), k) == Mul(Scale(p, k), q)
  {
  }

  lemma ScaleTwice(p: Complex)
    ensures Scale(Scale(p, 2.0), 2.0) == Scale(p, 4.0)
  {
  }

  lemma SquareTerm(a: Complex, x: Complex)
    ensures
      var y := Mul(x, Scale(a, 2.0));
      Mul(Mul(a, Mul(x, x)), Scale(a, 4.0)) == Mul(y, y)
  {
    hide Mul, Scale;
    var z := Mul(x, a);
    ScaleOut(x, a, 2.0);
    ScaleOut(Scale(z, 2.0), z, 2.0);
    ScaleOut(z, z, 2.0);
    ScaleTwice(Mul(z, z));
    ScaleOut(Mul(a, Mul(x, x)), a, 4.0);
    MulAssociates(a, x, x);
    MulCommutes(a, x);
    MulAssociates(z, x, a);
  }

  lemma LinearTerm(a: Complex, b: Complex, x: Complex)
    ensures Mul(Mul(b, x), Scale(a, 4.0)) == Scale(Mul(b, Mul(x, Scale(a, 2.0))), 2.0)
  {
    hide Mul, Scale;
    var z := Mul(x, a);
    ScaleOut(x, a, 2.0);
    ScaleOut(b, z, 2.0);
    ScaleTwice(Mul(b, z));
    MulAssociates(b, x, a);
    ScaleOut(Mul(b, x), a, 4.0);
  }

  lemma ConstantTerm(a: Complex, c: Complex)
    ensures Mul(c, Scale(a, 4.0)) == Scale(Mul(a, c), 4.0)
  {
    hide Mul, Scale;
    ScaleOut(c, a, 4.0);
    MulCommutes(a, c);
  }

  // With y one of s - b and -s - b, the square completes to s^2 less the discriminant.
  lemma CompletedSquare(a: Complex, b: Complex, c: Complex, s: Complex, y: Complex)
    requires y == Add(Neg(b), s) || y == Sub(Neg(b), s)
    ensures Add(Add(Mul(y, y), Scale(Mul(b, y), 2.0)), Scale(Mul(a, c), 4.0)) == Sub(Mul(s, s), Discriminant(a, b, c))
  {
    SquareOfSum(y, b);
    SquareOfNeg(s);
    SumBack(b, s);
    hide Mul, Scale;
    var z := Add(y, b);
    assert z == s || z == Neg(s);
  }

  lemma SumBack(b: Complex, s: Complex)
    ensures Add(Add(Neg(b), s), b) == s && Add(Sub(Neg(b), s), b) == Neg(s)
  {
  }

  lemma SquareOfSum(y: Complex, b: Complex)
    ensures Mul(Add(y, b), Add(y, b)) == Add(Add(Mul(y, y), Scale(Mul(b, y), 2.0)), Mul(b, b))
  {
  }

  lemma SquareOfNeg(s: Complex)
    ensures Mul(Neg(s), Neg(s)) == Mul(s, s)
  {
  }

  lemma ScaleNonzero(a: Complex, k: real)
    requires a != ZERO && k != 0.0
    ensures Scale(a, k) != ZERO
  {
    assert a.re != 0.0 || a.im != 0.0;
    assert a.re != 0.0 ==> a.re * k != 0.0;
    assert a.im != 0.0 ==> a.im * k != 0.0;
  }

  lemma RootResidual(a: Complex, b: Complex, c: Complex, s: Complex, y: Complex)
    requires a != ZERO && (y == Add(Neg(b), s) || y == Sub(Neg(b), s))
    ensures Value(a, b, c, Div(y, Scale(a, 2.0))) == Div(Sub(Mul(s, s), Discriminant(a, b, c)), Scale(a, 4.0))
  {
    hide Mul, Scale, Div, Value, Discriminant, Add, Sub, Neg;
    var x := Div(y, Scale(a, 2.0));
    ScaleNonzero(a, 2.0);
    ScaleNonzero(a, 4.0);
    DivideMultiply(y, Scale(a, 2.0));
    FourTimesValue(a, b, c, x);
    CompletedSquare(a, b, c, s, y);
    QuotientIsUnique(Value(a, b, c, x), Sub(Mul(s, s), Discriminant(a, b, c)), Scale(a, 4.0));
  }

  lemma RootSum(a: Complex, b: Complex, s: Complex)
    requires a != ZERO
    ensures Add(Div(Add(Neg(b), s), Scale(a, 2.0)), Div(Sub(Neg(b), s), Scale(a, 2.0))) == Div(Neg(b), a)
  {
    hide Mul, Scale, Div, Add, Sub, Neg;
    var t, y, z := Scale(a, 2.0), Add(Neg(b), s), Sub(Neg(b), s);
    var x := Add(Div(y, t), Div(z, t));
    ScaleNonzero(a, 2.0);
    DivideMultiply(y, t);
    DivideMultiply(z, t);
    MulCommutes(x, t);
    MulDistributes(t, Div(y, t), Div(z, t));
    MulCommutes(t, Div(y, t));
    MulCommutes(t, Div(z, t));
    ScaleOut(x, a, 2.0);
    HalfOfSum(b, s, Mul(x, a));
    QuotientIsUnique(x, Neg(b), a);
  }

  lemma HalfOfSum(b: Complex, s: Complex, w: Complex)
    requires Scale(w, 2.0) == Add(Add(Neg(b), s), Sub(Neg(b), s))
    ensures w == Neg(b)
  {
    assert w == Complex(w.re, w.im);
  }

  // Both roots satisfy the equation up to the error of the computed root of the discriminant, and they add
  // up to -b/a exactly.
  lemma RootsSolve(a: Complex, b: Complex, c: Complex)
    requires a != ZERO
    ensures
      var s := SqrtOf(Discriminant(a, b, c));
      var r := Solve(a, b, c);
      && Value(a, b, c, r.x1) == Value(a, b, c, r.x2) == Div(Sub(Mul(s, s), Discriminant(a, b, c)), Scale(a, 4.0))
      && Add(r.x1, r.x2) == Div(Neg(b), a)
  {
    hide Mul, Scale, Div, Add, Sub, Neg, Value, Discriminant, SqrtOf;
    var s := SqrtOf(Discriminant(a, b, c));
    RootResidual(a, b, c, s, Add(Neg(b), s));
    RootResidual(a, b, c, s, Sub(Neg(b), s));
    RootSum(a, b, s);
  }

  // The value at either root is small: sixteen times its norm times that of a is at most the residue of the
  // discriminant's root.
  lemma RootsBound(a: Complex, b: Complex, c: Complex)
    requires a != ZERO
    ensures
      var r, d := Solve(a, b, c), Discriminant(a, b, c);
      && Norm(Value(a, b, c, r.x1)) * (16.0 * Norm(a)) <= Residue(d)
      && Norm(Value(a, b, c, r.x2)) * (16.0 * Norm(a)) <= Residue(d)
  {
    hide Mul, Scale, Div, Add, Sub, Neg, Value, Discriminant, SqrtOf, Norm, Residue;
    var d, v := Discriminant(a, b, c), Value(a, b, c, Solve(a, b, c).x1);
    var gap := Sub(Mul(SqrtOf(d), SqrtOf(d)), d);
    RootsSolve(a, b, c);
    ScaleNonzero(a, 4.0);
    DivideMultiply(gap, Scale(a, 4.0));
    NormOfProduct(v, Scale(a, 4.0));
    NormOfScale(a);
    SqrtBound(d);
  }

  lemma NormOfScale(a: Complex)
    ensures Norm(Scale(a, 4.0)) == 16.0 * Norm(a)
  {
  }

  // A linear equation is solved exactly, and by nothing else.
  lemma LinearSolved(b: Complex, c: Complex, x: Complex)
    requires b != ZERO
    ensures Solve(ZERO, b, c).x1 == Solve(ZERO, b, c).x2
    ensures Value(ZERO, b, c, x) == ZERO <==> x == Solve(ZERO, b, c).x1
  {
    hide Div, Mul;
    ZeroTimes(Mul(x, x));
    MulCommutes(b, x);
    DivideMultiply(Neg(c), b);
    if Value(ZERO, b, c, x) == ZERO {
      assert Mul(x, b) == Neg(c);
      QuotientIsUnique(x, Neg(c), b);
    }
  }

  lemma ZeroTimes(z: Complex)
    ensures Mul(ZERO, z) == ZERO
  {
  }

  // Without coefficients every number is a root, or none.
  lemma DegenerateSolved(c: Complex, x: Complex)
    ensures Value(ZERO, ZERO, c, x) == ZERO <==> Solve(ZERO, ZERO, c).status == Infinite
  {
    hide Mul;
    ZeroTimes(Mul(x, x));
    ZeroTimes(x);
  }

  // What a status says, of all coefficients: which equation it is, and what its roots are.
  lemma StatusMeans(a: Complex, b: Complex, c: Complex)
    ensures
      var r := Solve(a, b, c);
      && (r.status == Ok <==> a != ZERO)
      && (r.status == Linear <==> a == ZERO && b != ZERO)
      && (r.status == Linear ==> forall x :: Value(a, b, c, x) == ZERO <==> x == r.x1)
      && (r.status == Infinite <==> forall x :: Value(a, b, c, x) == ZERO)
      && (r.status == NoRoot ==> forall x :: Value(a, b, c, x) != ZERO)
  {
    hide Value, Div, SqrtOf;
    var r := Solve(a, b, c);
    if forall x :: Value(a, b, c, x) == ZERO {
      ThreeRoots(a, b, c);
    }
    if a == ZERO && b == ZERO {
      forall x ensures Value(a, b, c, x) == ZERO <==> r.status == Infinite { DegenerateSolved(c, x); }
      var _ := Value(a, b, c, ZERO);
    } else if a == ZERO {
      forall x ensures Value(a, b, c, x) == ZERO <==> x == r.x1 { LinearSolved(b, c, x); }
    }
  }

  // An equation that 0, 1 and -1 solve has no coefficients.
  lemma ThreeRoots(a: Complex, b: Complex, c: Complex)
    requires Value(a, b, c, ZERO) == ZERO && Value(a, b, c, ONE) == ZERO && Value(a, b, c, Neg(ONE)) == ZERO
    ensures a == ZERO && b == ZERO && c == ZERO
  {
  }

  // The roots of a quadratic equation are apart by the root of its discriminant over a, the first one ahead.
  lemma RootsApart(a: Complex, b: Complex, c: Complex)
    requires a != ZERO
    ensures
      var r := Solve(a, b, c);
      Sub(r.x1, r.x2) == Div(SqrtOf(Discriminant(a, b, c)), a)
  {
    hide Mul, Scale, Div, Add, Sub, Neg, SqrtOf, Discriminant;
    var s := SqrtOf(Discriminant(a, b, c));
    var t, y, z := Scale(a, 2.0), Add(Neg(b), s), Sub(Neg(b), s);
    var p, q := Div(y, t), Div(z, t);
    ScaleNonzero(a, 2.0);
    DivideMultiply(y, t);
    DivideMultiply(z, t);
    SubTimes(p, q, t);
    ScaleOut(Sub(p, q), a, 2.0);
    HalfOfGap(b, s, Mul(Sub(p, q), a));
    QuotientIsUnique(Sub(p, q), s, a);
  }

  lemma SubTimes(p: Complex, q: Complex, t: Complex)
    ensures Mul(Sub(p, q), t) == Sub(Mul(p, t), Mul(q, t))
  {
  }

  lemma HalfOfGap(b: Complex, s: Complex, w: Complex)
    requires Scale(w, 2.0) == Sub(Add(Neg(b), s), Sub(Neg(b), s))
    ensures w == s
  {
    assert w == Complex(w.re, w.im) && s == Complex(s.re, s.im);
  }

  // The imaginary unit squared is -1, and it turns real numbers into imaginary ones.
  lemma UnitSquared(y: real)
    ensures Mul(Complex(0.0, 1.0), Complex(0.0, 1.0)) == Complex(-1.0, 0.0)
    ensures Mul(Complex(y, 0.0), Complex(0.0, 1.0)) == Complex(0.0, y)
  {
    assert y * 0.0 == 0.0 && y * 1.0 == y;
  }

  // On real numbers the product is the real one.
  lemma RealProduct(x: real, y: real)
    ensures Mul(Complex(x, 0.0), Complex(y, 0.0)) == Complex(Times(x, y), 0.0)
  {
    assert x * 0.0 == 0.0 && 0.0 * y == 0.0;
  }

  // Dividing by zero gives zero.
  lemma DivideByZero(a: Complex)
    ensures Div(a, ZERO) == ZERO
  {
  }

  method ComplexSqrt(value: Complex) returns (r: Complex)
    ensures r == SqrtOf(value)
  {
    hide Root, Norm;
    if value.re == 0.0 && value.im == 0.0 {
      return ZERO;
    }
    NormIs(value);
    var magnitude := Sqrt(value.re * value.re + value.im * value.im);
    var realTerm := (magnitude + value.re) * 0.5;
    var imagTerm := (magnitude - value.re) * 0.5;
    if realTerm < 0.0 {
      realTerm := 0.0;
    }
    if imagTerm < 0.0 {
      imagTerm := 0.0;
    }
    var realPart := Sqrt(realTerm);
    var imagPart := Sqrt(imagTerm);
    if value.im < 0.0 {
      imagPart := -imagPart;
    }
    r := Complex(realPart, imagPart);
  }

  method SolveQuadratic(a: Complex, b: Complex, c: Complex, out: QuadraticResult?) returns (status: Status)
    modifies out
    ensures status == Solve(a, b, c).status
    ensures out != null ==> Solution(out.x1, out.x2, out.status) == Solve(a, b, c)
  {
    hide Mul, Scale, Div, Add, Sub, Neg, SqrtOf;
    if out != null {
      out.x1, out.x2, out.status := ZERO, ZERO, NoRoot;
    }
    if a.re == 0.0 && a.im == 0.0 {
      if b.re == 0.0 && b.im == 0.0 {
        status := if c.re == 0.0 && c.im == 0.0 then Infinite else NoRoot;
        if out != null {
          out.status := status;
        }
        return;
      }
      if out != null {
        out.x1 := Div(Neg(c), b);
        out.x2 := out.x1;
        out.status := Linear;
      }
      return Linear;
    }
    var twoA := Scale(a, 2.0);
    var discriminant := Sub(Mul(b, b), Scale(Mul(a, c), 4.0));
    var root := ComplexSqrt(discriminant);
    var negB := Neg(b);
    if out != null {
      out.x1 := Div(Add(negB, root), twoA);
      out.x2 := Div(Sub(negB, root), twoA);
      out.status := Ok;
    }
    status := Ok;
  }
}
