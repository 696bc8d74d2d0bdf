// What the machine's numbers do, said without its arithmetic: the laws of 32-bit addition, subtraction,
// multiplication, division and comparison, how numbers are shown, and how many texts each function takes.
module LelyaArith {
  import opened NawBase
  import opened LelyaSyntax
  import opened LelyaVm

  const TWO32 := 0x1_0000_0000

  predicate Is32(n: int) { -0x8000_0000 <= n < 0x8000_0000 }

  // The same number but for some turns of 2^32.
  ghost predicate Congruent(x: int, y: int) { exists turns: int :: x == y + turns * TWO32 }

  lemma WrapIs(v: int)
    ensures Is32(Wrap32(v)) && Congruent(Wrap32(v), v)
    ensures Is32(v) ==> Wrap32(v) == v
  {
    var turns := -((v + 0x8000_0000) / TWO32);
    assert Wrap32(v) == v + turns * TWO32;
  }

  // There is only one such number.
  lemma OneOfEach(x: int, y: int)
    requires Is32(x) && Is32(y) && Congruent(x, y)
    ensures x == y
  {
    var turns: int :| x == y + turns * TWO32;
    assert turns == 0;
  }

  lemma CongruentBack(x: int, y: int)
    requires Congruent(x, y)
    ensures Congruent(y, x)
  {
    var turns: int :| x == y + turns * TWO32;
    assert y == x + (-turns) * TWO32;
  }

  lemma CongruentOn(x: int, y: int, z: int)
    requires Congruent(x, y) && Congruent(y, z)
    ensures Congruent(x, z)
  {
    var m: int :| x == y + m * TWO32;
    var n: int :| y == z + n * TWO32;
    assert x == z + (m + n) * TWO32;
  }

  lemma CongruentSum(x: int, y: int, z: int)
    requires Congruent(x, y)
    ensures Congruent(x + z, y + z)
  {
    var turns: int :| x == y + turns * TWO32;
    assert x + z == y + z + turns * TWO32;
  }

  // ----- sums, differences and products -----

  // Each is the one 32-bit number congruent to the sum, the difference or the product.
  lemma ResultIs(op: BinOp, a: int, b: int)
    requires op.Add? || op.Sub? || op.Mul?
    ensures Arith(op, a, b).Some? && Is32(Arith(op, a, b).value)
    ensures Congruent(Arith(op, a, b).value, match op case Add => a + b case Sub => a - b case _ => a * b)
  {
    hide Wrap32, Congruent;
    WrapIs(match op case Add => a + b case Sub => a - b case _ => a * b);
  }

  // Subtraction undoes addition, and addition subtraction.
  lemma SumUndone(a: int, b: int)
    requires Is32(a)
    ensures Arith(Add, Arith(Sub, a, b).value, b) == Some(a)
    ensures Arith(Sub, Arith(Add, a, b).value, b) == Some(a)
  {
    hide Wrap32, Congruent;
    var d, s := Wrap32(a - b), Wrap32(a + b);
    WrapIs(a - b);
    WrapIs(a + b);
    WrapIs(d + b);
    WrapIs(s - b);
    CongruentSum(d, a - b, b);
    CongruentOn(Wrap32(d + b), d + b, a);
    OneOfEach(Wrap32(d + b), a);
    CongruentSum(s, a + b, -b);
    CongruentOn(Wrap32(s - b), s - b, a);
    OneOfEach(Wrap32(s - b), a);
  }

  // Sums begin at nothing and grow by one, till they turn over.
  lemma SumCounts(a: int)
    requires Is32(a)
    ensures Arith(Add, a, 0) == Some(a)
    ensures Arith(Add, a, 1) == Some(if a == 0x7FFF_FFFF then -0x8000_0000 else a + 1)
  {
  }

  // A product is a repeated sum.
  lemma ProductIsSums(a: int, b: int)
    requires Is32(a)
    ensures Arith(Mul, a, 0) == Some(0) && Arith(Mul, a, 1) == Some(a)
    ensures Arith(Mul, a, b + 1) == Arith(Add, Arith(Mul, a, b).value, a)
  {
    hide Congruent;
    WrapIs(0);
    WrapIs(a);
    assert a * 0 == 0 && a * 1 == a && a * (b + 1) == a * b + a;
    hide Wrap32;
    var p := Wrap32(a * b);
    WrapIs(a * b);
    WrapIs(a * b + a);
    WrapIs(p + a);
    CongruentSum(p, a * b, a);
    CongruentOn(Wrap32(p + a), p + a, a * b + a);
    CongruentBack(Wrap32(a * b + a), a * b + a);
    CongruentOn(Wrap32(p + a), a * b + a, Wrap32(a * b + a));
    OneOfEach(Wrap32(p + a), Wrap32(a * b + a));
  }

  // ----- quotients -----

  function Size(n: int): nat { if n < 0 then -n else n }

  // The quotient leaves a remainder smaller than the divisor, on the side of the dividend. Only the lowest number
  // divided by -1 has none that fits. Dividing by 0 is the one type mismatch there is.
  lemma QuotientIs(a: int, b: int)
    requires Is32(a) && Is32(b)
    ensures Arith(Div, a, b) == None <==> b == 0
    ensures b != 0 && !(a == -0x8000_0000 && b == -1) ==>
      var q := Arith(Div, a, b).value;
      var r := a - q * b;
      Is32(q) && Size(r) < Size(b) && (r == 0 || (r > 0 <==> a > 0))
  {
    if b != 0 {
      hide Wrap32;
      TruncatedIs(a, b, TruncDiv(a, b));
      WrapIs(TruncDiv(a, b));
      if !(a == -0x8000_0000 && b == -1) { QuotientFits(a, b, TruncDiv(a, b)); }
    }
  }

  lemma TruncatedIs(a: int, b: int, q: int)
    requires b != 0 && q == TruncDiv(a, b)
    ensures var r := a - q * b; Size(r) < Size(b) && (r == 0 || (r > 0 <==> a > 0))
  {
    if a >= 0 { Euclid(a, b, q); } else { Euclid(-a, b, -q); }
    assert (-q) * b == -(q * b);
  }

  lemma Euclid(n: nat, b: int, q: int)
    requires b != 0 && q == n / b
    ensures 0 <= n - q * b < Size(b) && (n == 0 ==> n - q * b == 0)
  {
    assert n - q * b == n % b;
  }

  lemma QuotientFits(a: int, b: int, q: int)
    requires Is32(a) && b != 0 && !(a == -0x8000_0000 && b == -1)
    requires var r := a - q * b; Size(r) < Size(b) && (r == 0 || (r > 0 <==> a > 0))
    ensures Is32(q)
  {
    SizeOfProduct(q, b);
    var p := q * b;
    if b == -1 {
      assert p == -q;
    } else if Size(p) > Size(a) {
      SmallProduct(Size(q), Size(b));
    } else if Size(b) >= 2 {
      if Size(q) >= 0x8000_0000 { HalfTooBig(Size(q), Size(b)); }
    } else {
      assert b == 1 && p == q;
    }
  }

  lemma SmallProduct(x: nat, y: nat)
    ensures x > 0 ==> x * y >= y
  {
  }

  lemma SizeOfProduct(x: int, y: int)
    ensures Size(x * y) == Size(x) * Size(y)
  {
    if x >= 0 && y < 0 {
      assert x * y == -(x * (-y));
    } else if x < 0 && y >= 0 {
      assert x * y == -((-x) * y);
    } else if x < 0 {
      assert x * y == (-x) * (-y);
    }
  }

  lemma HalfTooBig(x: nat, y: nat)
    requires x >= 0x8000_0000 && y >= 2
    ensures x * y > 0x8000_0000
  {
    assert x * y >= x * 2;
  }

  // ----- comparisons -----

  // Exactly one of less, equal and greater holds; less means that something positive is missing; and the other
  // three are their opposites.
  lemma ComparisonsAre(a: int, b: int)
    ensures forall op :: op in {Eq, Ne, Lt, Gt, Le, Ge} ==> Arith(op, a, b) in {Some(0), Some(1)}
    ensures Arith(Lt, a, b).value + Arith(Eq, a, b).value + Arith(Gt, a, b).value == 1
    ensures Arith(Lt, a, b) == Some(1) <==> exists more :: Missing(a, b, more)
    ensures Arith(Lt, a, b) == Arith(Gt, b, a) && Arith(Eq, a, b) == Arith(Eq, b, a)
    ensures Arith(Le, a, b).value == 1 - Arith(Gt, a, b).value
    ensures Arith(Ge, a, b).value == 1 - Arith(Lt, a, b).value
    ensures Arith(Ne, a, b).value == 1 - Arith(Eq, a, b).value
  {
    if a < b { assert Missing(a, b, b - a); }
  }

  // Something positive makes a up to b.
  predicate Missing(a: int, b: int, more: int) { more > 0 && a + more == b }

  // ----- numbers shown -----

  // A number is shown as the unsigned number of its 32 bits, so that no two numbers look the same.
  lemma NumberShown(n: int)
    requires Is32(n)
    ensures PrintEvent(IntV(n)) == OutInt(if n >= 0 then n else n + TWO32)
  {
  }

  lemma NumbersShownApart(m: int, n: int)
    requires Is32(m) && Is32(n) && PrintEvent(IntV(m)) == PrintEvent(IntV(n))
    ensures m == n
  {
    NumberShown(m);
    NumberShown(n);
  }

  // ----- the functions -----

  const OF_ONE_TEXT: seq<string> :=
    ["math_eval", "math_sqrt", "math_sin", "math_cos", "math_tan", "math_abs", "math_arg", "math_conj", "math_norm"]
  const OF_TWO_TEXTS: seq<string> := ["math_add", "math_sub", "math_mul", "math_div", "math_pow"]

  // The functions by name, and how many texts each takes.
  lemma AritiesByName()
    ensures forall x :: x in OF_ONE_TEXT ==> NativeArity(NativeId(x)) == 1
    ensures forall x :: x in OF_TWO_TEXTS ==> NativeArity(NativeId(x)) == 2
    ensures NativeArity(NativeId("math_quad")) == 3
  {
    forall k | 0 <= k < |OF_ONE_TEXT| ensures NativeArity(NativeId(OF_ONE_TEXT[k])) == 1 { OneText(k); }
    forall k | 0 <= k < |OF_TWO_TEXTS| ensures NativeArity(NativeId(OF_TWO_TEXTS[k])) == 2 { TwoTexts(k); }
    assert "math_quad"[5] == 'q';
  }

  lemma OneText(k: nat)
    requires k < |OF_ONE_TEXT|
    ensures NativeArity(NativeId(OF_ONE_TEXT[k])) == 1
  {
    var x := OF_ONE_TEXT[k];
    assert x[5] == x[5] && x[6] == x[6] && x[7] == x[7];
  }

  lemma TwoTexts(k: nat)
    requires k < |OF_TWO_TEXTS|
    ensures NativeArity(NativeId(OF_TWO_TEXTS[k])) == 2
  {
    var x := OF_TWO_TEXTS[k];
    assert x[5] == x[5] && x[6] == x[6] && x[7] == x[7];
  }

  // An id that is no function's has no arity.
  lemma NoSuchFunction(id: int)
    ensures NativeArity(id) == -1 <==> !(0 <= id < NATIVE_COUNT)
  {
  }
}
