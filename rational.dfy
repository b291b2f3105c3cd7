/**
 * The `Rational` helper class of the EXIF extractor and its byte-to-integer
 * converters.  C# `int` arithmetic is modelled exactly: `/` and `%` truncate
 * toward zero, and `int.MinValue / -1` and `int.MinValue % -1` throw
 * OverflowException.
 */
module ExifExtractor {
  import opened Bytes
  import opened Outcomes
  import opened ExifDates
  import Tiff

  const IntMin: int := -0x8000_0000
  const IntMax: int := 0x7FFF_FFFF

  function Abs(x: int): nat
  {
    if x < 0 then -x else x
  }

  // ---------------------------------------------------------------------------
  // C# integer division

  /** The quotient of `a / b` truncated toward zero, before the overflow check. */
  function Quot(a: int, b: int): int
    requires b != 0
  {
    if (a < 0) == (b < 0) then Abs(a) / Abs(b) else -(Abs(a) / Abs(b))
  }

  /** `a / b` on `int`. */
  function TDiv(a: i32, b: i32): (r: Result<i32>)
    requires b != 0
    ensures r.Err? <==> a == IntMin && b == -1
  {
    QuotIsTruncated(a, b);
    if a == IntMin && b == -1 then Err(Overflow) else Ok(Quot(a, b))
  }

  /** `a % b` on `int`. */
  function TRem(a: i32, b: i32): (r: Result<i32>)
    requires b != 0
    ensures r.Err? <==> a == IntMin && b == -1
    ensures r.Ok? ==> Abs(r.value) < Abs(b) && (a >= 0 ==> r.value >= 0) && (a <= 0 ==> r.value <= 0)
  {
    QuotIsTruncated(a, b);
    if a == IntMin && b == -1 then Err(Overflow) else Ok(a - b * Quot(a, b))
  }

  lemma NaturalDivision(x: int, y: int)
    requires x >= 0 && y > 0
    ensures x == y * (x / y) + x % y && 0 <= x % y < y && 0 <= x / y <= x
  {
    var q := x / y;
    MulNonNegative(y - 1, q);
    assert y * q == (y - 1) * q + q;
  }

  lemma MulSigns(y: int, q: int)
    ensures (-y) * (-q) == y * q && (-y) * q == -(y * q) && y * (-q) == -(y * q)
  {
  }

  /**
   * Truncated division: the remainder is smaller than the divisor and takes
   * the sign of the dividend, and the quotient is no larger than the dividend.
   */
  lemma QuotIsTruncated(a: int, b: int)
    requires b != 0
    ensures var m := a - b * Quot(a, b);
      Abs(m) < Abs(b) && (a >= 0 ==> m >= 0) && (a <= 0 ==> m <= 0)
    ensures Abs(Quot(a, b)) <= Abs(a)
  {
    var x: int, y: int := Abs(a), Abs(b);
    var q: int := x / y;
    NaturalDivision(x, y);
    MulSigns(y, q);
    if (a < 0) == (b < 0) {
      assert Quot(a, b) == q;
    } else {
      assert Quot(a, b) == -q;
    }
    if b > 0 {
      assert b == y;
    } else {
      assert b == -y;
    }
  }

  // ---------------------------------------------------------------------------
  // Divisibility

  /** `c` divides `x`; zero divides only zero. */
  predicate Divides(c: int, x: int)
  {
    if c == 0 then x == 0 else x % c == 0
  }

  lemma MulNonNegative(x: nat, y: nat)
    ensures x * y >= 0
  {
  }

  lemma AbsMul(b: int, k: int)
    ensures Abs(b * k) == Abs(b) * Abs(k)
  {
    if b < 0 && k < 0 {
      assert b * k == (-b) * (-k);
    } else if b < 0 {
      assert b * k == -((-b) * k);
      MulNonNegative(-b, k);
    } else if k < 0 {
      assert b * k == -(b * (-k));
      MulNonNegative(b, -k);
    }
  }

  lemma AbsMulAtLeast(b: int, k: int)
    requires k != 0
    ensures Abs(b * k) >= Abs(b)
  {
    AbsMul(b, k);
    var x, y := Abs(b), Abs(k);
    assert x * y == x * (y - 1) + x;
    MulNonNegative(x, y - 1);
  }

  lemma MultipleIsDivisible(c: int, k: int)
    ensures Divides(c, c * k)
  {
    if c != 0 {
      var m := c * k;
      var q := m / c;
      assert m == c * q + m % c;
      assert c * (k - q) == m % c;
      if k - q != 0 {
        AbsMulAtLeast(c, k - q);
      }
    }
  }

  lemma DivisibleIsMultiple(c: int, x: int)
    requires c != 0 && Divides(c, x)
    ensures x == c * (x / c)
  {
  }

  lemma DividesCombination(c: int, x: int, y: int, q: int)
    requires Divides(c, x) && Divides(c, y)
    ensures Divides(c, x + y * q)
  {
    if c != 0 {
      var kx, ky := x / c, y / c;
      DivisibleIsMultiple(c, x);
      DivisibleIsMultiple(c, y);
      assert x + y * q == c * (kx + ky * q);
      MultipleIsDivisible(c, kx + ky * q);
    }
  }

  lemma SmallMultipleIsZero(c: int, r: int)
    requires Divides(c, r) && Abs(r) < Abs(c)
    ensures r == 0
  {
    var k := r / c;
    DivisibleIsMultiple(c, r);
    if k != 0 {
      AbsMulAtLeast(c, k);
    }
  }

  /** A division by a divisor is exact. */
  lemma ExactQuot(a: int, g: int)
    requires g != 0 && Divides(g, a)
    ensures a == g * Quot(a, g)
  {
    var q := Quot(a, g);
    var m := a - g * q;
    assert Abs(m) < Abs(g) by {
      QuotIsTruncated(a, g);
    }
    assert Divides(g, m) by {
      MultipleIsDivisible(g, 1);
      DividesCombination(g, a, g, -q);
      MulSigns(g, q);
    }
    SmallMultipleIsZero(g, m);
  }

  // ---------------------------------------------------------------------------
  // euclid and simplify

  /** `euclid`: Euclid's algorithm on truncating remainders; the result may be negative. */
  function Euclid(a: i32, b: i32): Result<i32>
    decreases Abs(b)
  {
    if b == 0 then Ok(a)
    else
      var m :- TRem(a, b);
      Euclid(b, m)
  }

  /** `euclid` returns a common divisor of its arguments. */
  lemma {:induction false} EuclidIsCommonDivisor(a: i32, b: i32)
    requires Euclid(a, b).Ok?
    ensures Divides(Euclid(a, b).value, a) && Divides(Euclid(a, b).value, b)
    decreases Abs(b)
  {
    if b == 0 {
      MultipleIsDivisible(a, 1);
    } else {
      var m := TRem(a, b).value;
      EuclidIsCommonDivisor(b, m);
      var g := Euclid(b, m).value;
      assert a == m + b * Quot(a, b);
      DividesCombination(g, m, b, Quot(a, b));
    }
  }

  /** Every common divisor of the arguments divides the result: it is a greatest common divisor. */
  lemma {:induction false} EuclidIsGreatest(a: i32, b: i32, c: int)
    requires Euclid(a, b).Ok? && Divides(c, a) && Divides(c, b)
    ensures Divides(c, Euclid(a, b).value)
    decreases Abs(b)
  {
    if b != 0 {
      var m := TRem(a, b).value;
      assert m == a + b * -Quot(a, b);
      DividesCombination(c, a, b, -Quot(a, b));
      EuclidIsGreatest(b, m, c);
    }
  }

  /** Without `int.MinValue` among the arguments, no remainder overflows. */
  lemma {:induction false} EuclidWithoutMinValueSucceeds(a: i32, b: i32)
    requires a != IntMin && b != IntMin
    ensures Euclid(a, b).Ok?
    decreases Abs(b)
  {
    if b != 0 {
      EuclidWithoutMinValueSucceeds(b, TRem(a, b).value);
    }
  }

  /** `euclid` throws exactly on the pairs (MinValue, -1) and (-1, MinValue). */
  lemma EuclidFails(a: i32, b: i32)
    ensures Euclid(a, b).Err? <==> (a == IntMin && b == -1) || (a == -1 && b == IntMin)
  {
    if b == 0 || (a == IntMin && b == -1) {
    } else if b != IntMin {
      var m := TRem(a, b).value;
      assert Euclid(a, b) == Euclid(b, m);
      EuclidWithoutMinValueSucceeds(b, m);
    } else if a == IntMin {
      assert TRem(a, b) == Ok(0);
      assert Euclid(a, b) == Ok(b);
    } else {
      assert TRem(a, b) == Ok(a);
      assert Euclid(a, b) == Euclid(b, a);
      if a == -1 {
        assert Euclid(b, a).Err?;
      } else if a != 0 {
        var m := TRem(b, a).value;
        assert Euclid(b, a) == Euclid(a, m);
        EuclidWithoutMinValueSucceeds(a, m);
      }
    }
  }

  /** `simplify`: divide both by `euclid(a, b)`, unless one of them is zero. */
  function Simplify(a: i32, b: i32): Result<(i32, i32)>
  {
    if a == 0 || b == 0 then Ok((a, b))
    else
      var g :- Euclid(a, b);
      EuclidIsCommonDivisor(a, b);
      var a' :- TDiv(a, g);
      var b' :- TDiv(b, g);
      Ok((a', b'))
  }

  /** `simplify` divides both parts by the result of `euclid`, exactly. */
  lemma SimplifyFactors(a: i32, b: i32)
    requires a != 0 && b != 0 && Simplify(a, b).Ok?
    ensures var g := Euclid(a, b).value;
      g != 0 && a == g * Simplify(a, b).value.0 && b == g * Simplify(a, b).value.1
  {
    var g := Euclid(a, b).value;
    EuclidIsCommonDivisor(a, b);
    ExactQuot(a, g);
    ExactQuot(b, g);
  }

  /** `simplify` keeps the value of the fraction and never turns a non-zero part into zero. */
  lemma SimplifyKeepsValue(a: i32, b: i32)
    requires Simplify(a, b).Ok?
    ensures var (a', b') := Simplify(a, b).value;
      a' * b == a * b' && (a == 0 <==> a' == 0) && (b == 0 <==> b' == 0)
  {
    if a != 0 && b != 0 {
      var (a', b') := Simplify(a, b).value;
      SimplifyFactors(a, b);
      SameFraction(Euclid(a, b).value, a', b');
    }
  }

  lemma SameFraction(g: int, a': int, b': int)
    ensures a' * (g * b') == (g * a') * b'
  {
  }

  lemma Cancel(g: int, x: int, y: int)
    requires g != 0 && g * x == g * y
    ensures x == y
  {
    if x != y {
      assert g * (x - y) == 0;
      AbsMulAtLeast(g, x - y);
    }
  }

  /** After `simplify` of two non-zero parts, only 1 and -1 divide both. */
  lemma SimplifyGivesLowestTerms(a: i32, b: i32, c: int)
    requires a != 0 && b != 0 && Simplify(a, b).Ok?
    requires Divides(c, Simplify(a, b).value.0) && Divides(c, Simplify(a, b).value.1)
    ensures c == 1 || c == -1
  {
    SimplifyFactors(a, b);
    QuotientsAreCoprime(a, b, Euclid(a, b).value, Simplify(a, b).value.0, Simplify(a, b).value.1, c);
  }

  /** Dividing two numbers by their greatest common divisor leaves no common factor but 1 and -1. */
  lemma QuotientsAreCoprime(a: i32, b: i32, g: int, a': int, b': int, c: int)
    requires a != 0 && Euclid(a, b) == Ok(g) && g != 0 && a == g * a' && b == g * b'
    requires Divides(c, a') && Divides(c, b')
    ensures c == 1 || c == -1
  {
    assert c != 0;
    var ka, kb := a' / c, b' / c;
    assert a' == c * ka && b' == c * kb by {
      DivisibleIsMultiple(c, a');
      DivisibleIsMultiple(c, b');
    }
    var gc := g * c;
    assert a == gc * ka && b == gc * kb by {
      MulAssoc(g, c, ka);
      MulAssoc(g, c, kb);
    }
    assert gc != 0 by {
      AbsMulAtLeast(g, c);
    }
    assert Divides(gc, g) by {
      MultipleIsDivisible(gc, ka);
      MultipleIsDivisible(gc, kb);
      EuclidIsGreatest(a, b, gc);
    }
    var k := g / gc;
    assert g * 1 == g * (c * k) by {
      DivisibleIsMultiple(gc, g);
      MulAssoc(g, c, k);
    }
    Cancel(g, 1, c * k);
    UnitFactor(c, k);
  }

  lemma MulAssoc(x: int, y: int, z: int)
    ensures x * (y * z) == (x * y) * z
  {
  }

  lemma UnitFactor(c: int, k: int)
    requires c * k == 1
    ensures c == 1 || c == -1
  {
    if Abs(c) > 1 {
      AbsMulAtLeast(c, k);
    }
  }

  /** `simplify` throws only when a part is `int.MinValue`. */
  lemma SimplifyFailsOnlyOnMinValue(a: i32, b: i32)
    ensures Simplify(a, b).Err? ==> a == IntMin || b == IntMin
  {
    EuclidFails(a, b);
  }

  /**
   * `new Rational(int.MinValue, int.MaxValue)` throws: `euclid` returns -1
   * and `int.MinValue / -1` overflows.
   */
  lemma MinValueOverMaxValueOverflows()
    ensures Simplify(IntMin, IntMax) == Err(Overflow)
  {
    assert TRem(IntMin, IntMax) == Ok(-1);
    assert TRem(IntMax, -1) == Ok(0);
    assert Euclid(IntMin, IntMax) == Ok(-1);
  }

  /** The sign can move to the denominator: 2/-4 and -2/4 both become 1/-2. */
  lemma SignMayMoveToDenominator()
    ensures Simplify(-2, 4) == Ok((1, -2))
    ensures Simplify(2, -4) == Ok((1, -2))
  {
    assert Euclid(-2, 4) == Ok(-2) by {
      assert TRem(-2, 4) == Ok(-2);
      assert TRem(4, -2) == Ok(0);
      assert Euclid(-2, 4) == Euclid(4, -2) == Euclid(-2, 0);
    }
    assert TDiv(-2, -2) == Ok(1) && TDiv(4, -2) == Ok(-2);
    assert Euclid(2, -4) == Ok(2) by {
      assert TRem(2, -4) == Ok(2);
      assert TRem(-4, 2) == Ok(0);
      assert Euclid(2, -4) == Euclid(-4, 2) == Euclid(2, 0);
    }
    assert TDiv(2, 2) == Ok(1) && TDiv(-4, 2) == Ok(-2);
  }

  // ---------------------------------------------------------------------------
  // The Rational class

  /** A `Rational`: its two readonly fields, as left by the constructor. */
  datatype Rational = Rational(n: i32, d: i32)

  /** `new Rational(int n, int d)`. */
  function FromInts(n: i32, d: i32): (r: Result<Rational>)
    ensures r.Ok? ==> r.value.n * d == n * r.value.d
    ensures r.Ok? && n != 0 && d != 0 ==>
      forall c {:trigger Divides(c, r.value.n)} :: Divides(c, r.value.n) && Divides(c, r.value.d) ==> c == 1 || c == -1
    ensures r.Err? ==> n == IntMin || d == IntMin
  {
    SimplifyFailsOnlyOnMinValue(n, d);
    var p :- Simplify(n, d);
    SimplifyKeepsValue(n, d);
    LowestTerms(n, d);
    Ok(Rational(p.0, p.1))
  }

  lemma LowestTerms(n: i32, d: i32)
    requires Simplify(n, d).Ok?
    ensures n != 0 && d != 0 ==> forall c {:trigger Divides(c, Simplify(n, d).value.0)} ::
      Divides(c, Simplify(n, d).value.0) && Divides(c, Simplify(n, d).value.1) ==> c == 1 || c == -1
  {
    if n != 0 && d != 0 {
      forall c | Divides(c, Simplify(n, d).value.0) && Divides(c, Simplify(n, d).value.1)
        ensures c == 1 || c == -1
      {
        SimplifyGivesLowestTerms(n, d, c);
      }
    }
  }

  /** `new Rational(uint n, uint d)`: `Convert.ToInt32` throws above `int.MaxValue`. */
  function FromUnsigned(n: u32, d: u32): (r: Result<Rational>)
    ensures r.Err? <==> n > IntMax || d > IntMax
  {
    if n > IntMax || d > IntMax then Err(Overflow) else FromInts(n, d)
  }

  /** `new Rational()`. */
  const Default: Rational := Rational(0, 0)

  /** `ToString(sp)`: numerator, separator and denominator; a null separator is "/". */
  function ToString(q: Rational, sp: Option<string>): string
  {
    IntToString(q.n) + (if sp.None? then "/" else sp.value) + IntToString(q.d)
  }

  /** `ToDouble` before rounding: zero for a zero denominator, else the quotient. */
  function ToDouble(q: Rational): (r: real)
    ensures q.d == 0 ==> r == 0.0
    ensures q.d != 0 ==> r * (q.d as real) == q.n as real
  {
    if q.d == 0 then 0.0 else (q.n as real) / (q.d as real)
  }

  lemma SameQuotient(x: int, y: int, u: int, v: int)
    requires y != 0 && v != 0 && x * v == u * y
    ensures (x as real) / (y as real) == (u as real) / (v as real)
  {
    assert (x as real) * (v as real) == (u as real) * (y as real) by {
      assert (x * v) as real == (x as real) * (v as real);
      assert (u * y) as real == (u as real) * (y as real);
    }
  }

  /** A constructed rational has the value of the fraction it was given. */
  lemma FromIntsKeepsQuotient(n: i32, d: i32)
    requires d != 0 && FromInts(n, d).Ok?
    ensures ToDouble(FromInts(n, d).value) == (n as real) / (d as real)
  {
    var q := FromInts(n, d).value;
    assert q.n * d == n * q.d && q.d != 0 by {
      SimplifyKeepsValue(n, d);
    }
    SameQuotient(q.n, q.d, n, d);
  }

  /** A zero denominator reads as 0.0, whatever the numerator. */
  lemma ZeroDenominatorIsZero(n: i32)
    ensures FromInts(n, 0) == Ok(Rational(n, 0)) && ToDouble(FromInts(n, 0).value) == 0.0
    ensures ToDouble(Default) == 0.0
  {
  }

  // ---------------------------------------------------------------------------
  // int.ToString and its inverse

  function DigitChar(k: int): char
    requires 0 <= k < 10
  {
    (('0' as int) + k) as char
  }

  /** The shortest decimal digits of `x`. */
  function Decimal(x: nat): (r: string)
    ensures r != [] && AllDigits(r)
  {
    if x < 10 then [DigitChar(x)] else Decimal(x / 10) + [DigitChar(x % 10)]
  }

  /** `int.ToString()`, with "-" as the negative sign. */
  function IntToString(x: int): string
  {
    if x < 0 then "-" + Decimal(-x) else Decimal(x)
  }

  /** The number of leading digits of `s`. */
  function DigitRun(s: string): (k: nat)
    ensures k <= |s| && AllDigits(s[..k])
  {
    if s == [] || !IsDigit(s[0]) then 0
    else
      var k := 1 + DigitRun(s[1..]);
      assert s[..k] == [s[0]] + s[1..][..k - 1];
      k
  }

  /** A decimal number at the front of `s`, and what follows it. */
  function ReadNat(s: string): Option<(int, string)>
  {
    var k := DigitRun(s);
    if k == 0 then None else Some((Number(s[..k]), s[k..]))
  }

  /** An optionally signed decimal integer at the front of `s`, and what follows it. */
  function ReadInt(s: string): Option<(int, string)>
  {
    if s != [] && s[0] == '-' then
      match ReadNat(s[1..])
      case Some((v, rest)) => Some((-v, rest))
      case None => None
    else ReadNat(s)
  }

  /** Reads back the output of `ToString(sp)`: numerator, separator, denominator, nothing else. */
  function ParseFraction(s: string, sp: string): Option<(int, int)>
  {
    match ReadInt(s)
    case None => None
    case Some((n, rest)) =>
      if |rest| < |sp| || rest[..|sp|] != sp then None
      else
        match ReadInt(rest[|sp|..])
        case Some((d, tail)) => if tail == [] then Some((n, d)) else None
        case None => None
  }

  lemma {:induction false} DecimalValue(x: nat)
    ensures Number(Decimal(x)) == x
  {
    if x >= 10 {
      DecimalValue(x / 10);
      var r := Decimal(x);
      assert r[..|r| - 1] == Decimal(x / 10);
    }
  }

  lemma {:induction false} DigitRunStops(t: string, u: string)
    requires AllDigits(t)
    requires u == [] || !IsDigit(u[0])
    ensures DigitRun(t + u) == |t|
  {
    if t != [] {
      assert (t + u)[1..] == t[1..] + u;
      DigitRunStops(t[1..], u);
    }
  }

  lemma ReadNatRoundTrip(x: nat, tail: string)
    requires tail == [] || !IsDigit(tail[0])
    ensures ReadNat(Decimal(x) + tail) == Some((x, tail))
  {
    var digits := Decimal(x);
    DigitRunStops(digits, tail);
    assert (digits + tail)[..|digits|] == digits;
    assert (digits + tail)[|digits|..] == tail;
    DecimalValue(x);
  }

  /** Reading an integer back from its `ToString` stops where a non-digit follows. */
  lemma ReadIntRoundTrip(x: int, tail: string)
    requires tail == [] || !IsDigit(tail[0])
    ensures ReadInt(IntToString(x) + tail) == Some((x, tail))
  {
    var s := IntToString(x) + tail;
    ReadNatRoundTrip(Abs(x), tail);
    if x < 0 {
      assert s[0] == '-' && s[1..] == Decimal(-x) + tail;
    } else {
      assert IsDigit(Decimal(x)[0]);
    }
  }

  /** `ToString(sp)` is read back by the parser when the separator does not start with a digit. */
  lemma ToStringRoundTrip(q: Rational, sp: string)
    requires sp != [] && !IsDigit(sp[0])
    ensures ParseFraction(ToString(q, Some(sp)), sp) == Some((q.n, q.d))
  {
    var s := ToString(q, Some(sp));
    var rest := sp + IntToString(q.d);
    assert s == IntToString(q.n) + rest;
    ReadIntRoundTrip(q.n, rest);
    assert rest[..|sp|] == sp && rest[|sp|..] == IntToString(q.d) + [];
    ReadIntRoundTrip(q.d, []);
  }

  /** A null separator writes "/". */
  lemma DefaultSeparatorRoundTrip(q: Rational)
    ensures ToString(q, None) == ToString(q, Some("/"))
    ensures ParseFraction(ToString(q, None), "/") == Some((q.n, q.d))
  {
    ToStringRoundTrip(q, "/");
  }

  // ---------------------------------------------------------------------------
  // The byte converters

  /**
   * `convertToInt32`: four bytes, least significant first, as a 32-bit int;
   * 0 for any other length.  The shifted bytes occupy disjoint bits, so the
   * `|` adds them, and `arr[3] << 24` lands in the sign bit.
   */
  function ConvertToInt32(arr: seq<byte>): (r: i32)
    ensures |arr| != 4 ==> r == 0
  {
    if |arr| != 4 then 0
    else
      var bits := (arr[3] as int) * 0x100_0000 + (arr[2] as int) * 0x1_0000 + (arr[1] as int) * 0x100 + (arr[0] as int);
      if bits < 0x8000_0000 then bits else bits - 0x1_0000_0000
  }

  /** `convertToInt16`: two bytes, least significant first; the result is never negative. */
  function ConvertToInt16(arr: seq<byte>): (r: int)
    ensures 0 <= r < 0x1_0000
    ensures |arr| != 2 ==> r == 0
  {
    if |arr| != 2 then 0 else (arr[1] as int) * 0x100 + (arr[0] as int)
  }

  /** `convertToInt32U`: `Convert.ToUInt32` throws on the negative int the bytes make. */
  function ConvertToInt32U(arr: seq<byte>): (r: Result<u32>)
    ensures r.Err? <==> |arr| == 4 && arr[3] >= 0x80
    ensures |arr| != 4 ==> r == Ok(0)
  {
    if |arr| != 4 then Ok(0)
    else
      var v := ConvertToInt32(arr);
      if v < 0 then Err(Overflow) else Ok(v)
  }

  /** `convertToInt16U`: `Convert.ToUInt16` of a value below 0x10000 never throws. */
  function ConvertToInt16U(arr: seq<byte>): (r: u32)
    ensures r < 0x1_0000
    ensures |arr| != 2 ==> r == 0
    ensures |arr| == 2 ==> r == (arr[0] as int) + 0x100 * (arr[1] as int)
  {
    if |arr| != 2 then 0 else ConvertToInt16(arr)
  }

  lemma LittleEndianOfFour(arr: seq<byte>)
    requires |arr| == 4
    ensures LittleEndian(arr) == (arr[0] as int) + 0x100 * (arr[1] as int) + 0x1_0000 * (arr[2] as int) + 0x100_0000 * (arr[3] as int)
  {
    var s1, s2, s3 := arr[1..], arr[2..], arr[3..];
    assert s1[1..] == s2 && s2[1..] == s3 && s3[1..] == [];
    assert LittleEndian(s3) == arr[3];
    assert LittleEndian(s2) == (arr[2] as int) + 0x100 * (arr[3] as int);
    assert LittleEndian(s1) == arr[1] + 0x100 * LittleEndian(s2);
  }

  /** `convertToInt32` is the little-endian two's-complement reading, as `ToInt` under "II". */
  lemma ConvertToInt32IsSignedLittleEndian(arr: seq<byte>)
    requires |arr| == 4
    ensures ConvertToInt32(arr) == Signed(LittleEndian(arr), 4)
    ensures ConvertToInt32(arr) == Tiff.ToInt(arr, true)
  {
    LittleEndianOfFour(arr);
    assert Pow256(4) == 0x1_0000_0000;
  }

  /** `convertToInt32U` is the unsigned little-endian reading when it does not throw. */
  lemma ConvertToInt32UIsLittleEndian(arr: seq<byte>)
    requires |arr| == 4 && ConvertToInt32U(arr).Ok?
    ensures ConvertToInt32U(arr).value == LittleEndian(arr) == Tiff.ToUint(arr, true)
  {
    LittleEndianOfFour(arr);
  }

  /**
   * `convertToInt16` is the unsigned little-endian reading, as `ToUShort`
   * under "II", even for bytes whose 16-bit reading is negative.
   */
  lemma ConvertToInt16IsUnsigned(arr: seq<byte>)
    requires |arr| == 2
    ensures ConvertToInt16(arr) == LittleEndian(arr) == Tiff.ToUShort(arr, true) == ConvertToInt16U(arr)
    ensures arr[1] >= 0x80 ==> ConvertToInt16(arr) != Tiff.ToShort(arr, true)
  {
    assert arr[1..][1..] == [];
    assert LittleEndian(arr[1..]) == arr[1];
  }

  /** Every int survives its four little-endian bytes. */
  lemma ConvertToInt32RoundTrip(v: i32)
    ensures ConvertToInt32(EncodeLittle(if v < 0 then v + 0x1_0000_0000 else v, 4)) == v
  {
    var u := if v < 0 then v + 0x1_0000_0000 else v;
    assert Pow256(4) == 0x1_0000_0000;
    LittleRoundTrip(u, 4);
    ConvertToInt32IsSignedLittleEndian(EncodeLittle(u, 4));
  }

  /** Every ushort survives its two little-endian bytes. */
  lemma ConvertToInt16RoundTrip(v: u16)
    ensures ConvertToInt16(EncodeLittle(v, 2)) == v
  {
    assert Pow256(2) == 0x1_0000;
    LittleRoundTrip(v, 2);
    ConvertToInt16IsUnsigned(EncodeLittle(v, 2));
  }
}
