/**
 * Exact rational numbers over unbounded integers: `new` puts a fraction in
 * lowest terms with a positive denominator, `truncate`/`floor`/`ceil`
 * round, `cmp` compares by a Euclid-like recursion, and `+ - * /` return
 * the reduced exact result. The compound assignments update a mutable
 * rational in place.
 */
module Rationals {
  import opened Modulo

  /** Numerator over denominator. Every value the library hands out is
      `Normal`; the raw pair exists only inside `new`. */
  datatype Rational = Rational(numerator: int, denominator: int)

  datatype Ordering = Less | Equal | Greater

  function Reverse(o: Ordering): Ordering {
    match o
    case Less => Greater
    case Equal => Equal
    case Greater => Less
  }

  /** The total order of the integers. */
  function CmpInt(a: int, b: int): Ordering {
    if a < b then Less else if a == b then Equal else Greater
  }

  function Abs(x: int): nat {
    if x < 0 then -x else x
  }

  /** Denominator positive and no common factor left. */
  predicate Normal(r: Rational) {
    r.denominator > 0 && Gcd(Abs(r.numerator), Abs(r.denominator)) == 1
  }

  /** `r` stands for the fraction `n / d` (cross products agree). */
  predicate Represents(r: Rational, n: int, d: int) {
    r.numerator * d == n * r.denominator
  }

  /** The integers' `/`: the quotient is truncated toward zero. */
  function Quot(a: int, b: int): int
    requires b != 0
  {
    if (a < 0) == (b < 0) then Abs(a) / Abs(b) else -(Abs(a) / Abs(b))
  }

  /** Truncation leaves a remainder with the sign of the dividend that is
      smaller than the divisor in absolute value. */
  lemma QuotRemainder(a: int, b: int)
    requires b != 0
    ensures a >= 0 ==> 0 <= a - Quot(a, b) * b < Abs(b)
    ensures a < 0 ==> 0 <= Quot(a, b) * b - a < Abs(b)
  {
    var m, d := Abs(a), Abs(b);
    var k := m / d;
    DivisionParts(m, d);
    TruncationCases(a, b, m, d, k, m % d, Quot(a, b));
  }

  lemma DivisionParts(m: nat, d: nat)
    requires d > 0
    ensures m == (m / d) * d + m % d && 0 <= m % d < d
  {
  }

  lemma TruncationCases(a: int, b: int, m: int, d: int, k: int, r: int, q: int)
    requires m == (if a < 0 then -a else a) && d == (if b < 0 then -b else b)
    requires d > 0 && m == k * d + r && 0 <= r < d
    requires q == if (a < 0) == (b < 0) then k else -k
    ensures a >= 0 ==> 0 <= a - q * b < d
    ensures a < 0 ==> 0 <= q * b - a < d
  {
    NegateTimes(k, d);
  }

  lemma NegateTimes(k: int, d: int)
    ensures (-k) * d == -(k * d) && k * (-d) == -(k * d) && (-k) * (-d) == k * d
  {
  }

  /** An exact quotient is found by `Quot`. */
  lemma QuotExact(a: int, b: int, k: int)
    requires b != 0 && a == b * k
    ensures Quot(a, b) == k
  {
    var d := Abs(b);
    if b > 0 {
      ExactDiv(d, k);
    } else {
      NegateTimes(k, d);
      assert a == d * -k;
      ExactDiv(d, -k);
    }
  }

  lemma ExactDiv(d: int, k: int)
    requires d > 0
    ensures Abs(d * k) / d == Abs(k)
    ensures d * k < 0 <==> k < 0
  {
    if k >= 0 {
      MulMod(d, k);
      assert d * k >= 0 by { if k > 0 { MulAtLeast(k, d); } }
    } else {
      var m := -k;
      assert d * k == -(d * m) by { NegateTimes(k, d); }
      assert d * m >= d by { MulAtLeast(m, d); }
      MulMod(d, m);
    }
  }

  /** Dividing two integers, not both zero, by their gcd: both are exact
      multiples of it and the cofactors are coprime. */
  lemma CommonFactor(x: int, y: int, g: nat, x1: int, y1: int)
    requires x != 0 || y != 0
    requires g == Gcd(Abs(x), Abs(y)) && g > 0 && x1 == Quot(x, g) && y1 == Quot(y, g)
    ensures x == g * x1 && y == g * y1
    ensures Gcd(Abs(x1), Abs(y1)) == 1
    ensures Abs(y1) <= Abs(y)
  {
    GcdParts(Abs(x), Abs(y));
    var a, b := Abs(x) / g, Abs(y) / g;
    SignedCofactor(x, g, a);
    SignedCofactor(y, g, b);
    if b > 0 {
      MulAtLeast(g, b);
    }
  }

  lemma SignedCofactor(x: int, g: nat, a: nat)
    requires g > 0 && Abs(x) == g * a
    ensures x == g * Quot(x, g) && Abs(Quot(x, g)) == a
  {
    if x < 0 {
      var na := -(a as int);
      assert x == g * na;
      QuotExact(x, g, na);
    } else {
      QuotExact(x, g, a);
    }
  }

  /** `new(n, d)`: `reduce` panics on a zero denominator; otherwise a zero
      numerator gives `0/1`, equal parts give `1/1`, and any other pair is
      divided by its gcd and its signs moved to the numerator. */
  function New(n: int, d: int): (r: Rational)
    requires d != 0
    ensures Normal(r) && Represents(r, n, d)
    ensures r.denominator <= Abs(d)
    ensures n == 0 ==> r == Rational(0, 1)
  {
    if n == 0 then
      assert Gcd(0, 1) == 1;
      Rational(0, 1)
    else if n == d then
      assert Gcd(1, 1) == 1;
      Rational(1, 1)
    else
      var g := Gcd(Abs(n), Abs(d));
      var n1, d1 := Quot(n, g), Quot(d, g);
      CommonFactor(n, d, g, n1, d1);
      CrossCancel(n1, d1, g);
      if d1 < 0 then Rational(-n1, -d1) else Rational(n1, d1)
  }

  lemma CrossCancel(n1: int, d1: int, g: int)
    ensures n1 * (g * d1) == (g * n1) * d1
    ensures -n1 * (g * d1) == (g * n1) * -d1
  {
  }

  /** `from_integer(t)` is `t/1`. */
  function FromInteger(t: int): (r: Rational)
    ensures r == Rational(t, 1)
  {
    var r := New(t, 1);
    assert Gcd(Abs(t), 1) == 1;
    NormalUnique(r, Rational(t, 1));
    r
  }

  /** Two normal rationals with the same value are the same pair, so
      structural equality of reduced values is equality of numbers. */
  lemma {:induction false} NormalUnique(a: Rational, b: Rational)
    requires Normal(a) && Normal(b)
    requires a.numerator * b.denominator == b.numerator * a.denominator
    ensures a == b
  {
    var p, q := a.denominator, b.denominator;
    var x, y := Abs(a.numerator), Abs(b.numerator);
    assert x * q == y * p by {
      AbsScale(a.numerator, q);
      AbsScale(b.numerator, p);
    }
    SameDenominator(x, p, y, q);
    assert p * a.numerator == p * b.numerator;
    CancelLeft(p, a.numerator, b.numerator);
  }

  /** A fraction has one reduced form: two normal rationals standing for
      the same `n/d` are the same pair. */
  lemma Canonical(x: Rational, r: Rational, n: int, d: int)
    requires d != 0 && Normal(x) && Normal(r) && Represents(x, n, d) && Represents(r, n, d)
    ensures x == r
  {
    CrossTransfer(x.numerator, x.denominator, r.numerator, r.denominator, n, d);
    NormalUnique(x, r);
  }

  lemma CrossTransfer(xn: int, xd: int, rn: int, rd: int, n: int, d: int)
    requires d != 0 && xn * d == n * xd && rn * d == n * rd
    ensures xn * rd == rn * xd
  {
    assert d * (xn * rd) == d * (rn * xd) by {
      assert d * (xn * rd) == (xn * d) * rd;
      assert d * (rn * xd) == (rn * d) * xd;
    }
    if d > 0 {
      CancelLeft(d, xn * rd, rn * xd);
    } else {
      NegateTimes(d, xn * rd);
      NegateTimes(d, rn * xd);
      CancelLeft(-d, xn * rd, rn * xd);
    }
  }

  /** Cross-equal fractions in lowest terms share their denominator. */
  lemma SameDenominator(x: nat, p: nat, y: nat, q: nat)
    requires p > 0 && q > 0 && Gcd(x, p) == 1 && Gcd(y, q) == 1 && x * q == y * p
    ensures p == q
  {
    DividesOther(x, p, y, q);
    DividesOther(y, q, x, p);
    MutualDivisors(p, q);
  }

  lemma DividesOther(x: nat, p: nat, y: nat, q: nat)
    requires p > 0 && Gcd(x, p) == 1 && x * q == y * p
    ensures Divides(p, q)
  {
    DividesMultiple(p, y);
    assert x * q == p * y;
    Gauss(p, x, q);
  }

  lemma AbsScale(m: int, q: int)
    requires q > 0
    ensures Abs(m * q) == Abs(m) * q
  {
    NegateTimes(m, q);
    if m < 0 {
      MulAtLeast(-m, q);
    }
  }

  lemma MutualDivisors(p: nat, q: nat)
    requires p > 0 && q > 0 && Divides(p, q) && Divides(q, p)
    ensures p == q
  {
    var k := DivisorWitness(p, q);
    var j := DivisorWitness(q, p);
    MulAtLeast(k, p);
    MulAtLeast(j, q);
  }

  /** `truncate` rounds toward zero. */
  function Truncate(r: Rational): (t: Rational)
    requires r.denominator > 0
    ensures t.denominator == 1
    ensures r.numerator >= 0 ==> t.numerator * r.denominator <= r.numerator < (t.numerator + 1) * r.denominator
    ensures r.numerator < 0 ==> (t.numerator - 1) * r.denominator < r.numerator <= t.numerator * r.denominator
  {
    var q := Quot(r.numerator, r.denominator);
    QuotRemainder(r.numerator, r.denominator);
    Neighbours(q, r.denominator);
    FromInteger(q)
  }

  lemma Neighbours(q: int, d: int)
    ensures (q + 1) * d == q * d + d && (q - 1) * d == q * d - d
  {
  }

  /** `to_integer` is the numerator of `truncate`, so it is the integer
      next to the value on the side of zero. */
  function ToInteger(r: Rational): (i: int)
    requires r.denominator > 0
    ensures r.numerator >= 0 ==> i * r.denominator <= r.numerator < (i + 1) * r.denominator
    ensures r.numerator < 0 ==> (i - 1) * r.denominator < r.numerator <= i * r.denominator
    ensures Truncate(r) == FromInteger(i)
  {
    Truncate(r).numerator
  }

  /** `floor` rounds toward minus infinity: for a negative value it
      truncates `numerator - denominator + 1`. */
  function Floor(r: Rational): (f: Rational)
    requires r.denominator > 0
    ensures f.denominator == 1
    ensures f.numerator * r.denominator <= r.numerator < (f.numerator + 1) * r.denominator
  {
    if Cmp(r, FromInteger(0)) == Less then
      var q := Quot(r.numerator - r.denominator + 1, r.denominator);
      QuotRemainder(r.numerator - r.denominator + 1, r.denominator);
      Neighbours(q, r.denominator);
      FromInteger(q)
    else
      var q := Quot(r.numerator, r.denominator);
      QuotRemainder(r.numerator, r.denominator);
      Neighbours(q, r.denominator);
      FromInteger(q)
  }

  /** `ceil` rounds toward plus infinity: for a non-negative value it
      truncates `numerator + denominator - 1`. */
  function Ceil(r: Rational): (c: Rational)
    requires r.denominator > 0
    ensures c.denominator == 1
    ensures (c.numerator - 1) * r.denominator < r.numerator <= c.numerator * r.denominator
  {
    if Cmp(r, FromInteger(0)) == Less then
      var q := Quot(r.numerator, r.denominator);
      QuotRemainder(r.numerator, r.denominator);
      Neighbours(q, r.denominator);
      FromInteger(q)
    else
      var q := Quot(r.numerator + r.denominator - 1, r.denominator);
      QuotRemainder(r.numerator + r.denominator - 1, r.denominator);
      Neighbours(q, r.denominator);
      FromInteger(q)
  }

  /** `cmp`: equal denominators compare numerators, equal numerators
      compare denominators (reversed for a positive numerator), otherwise
      the floor quotients decide, and on a tie the remainders do, with the
      reciprocals of the fractional parts compared recursively. The result
      is the order of the cross products. */
  function Cmp(a: Rational, b: Rational): (o: Ordering)
    requires a.denominator > 0 && b.denominator > 0
    ensures o == CmpInt(a.numerator * b.denominator, b.numerator * a.denominator)
    decreases a.denominator + b.denominator
  {
    if a.denominator == b.denominator then
      ScaleOrder(a.numerator, b.numerator, a.denominator);
      if a.denominator > 0 then CmpInt(a.numerator, b.numerator)
      else Reverse(CmpInt(a.numerator, b.numerator))
    else if a.numerator == b.numerator then
      SameNumeratorOrder(a.numerator, a.denominator, b.denominator);
      match CmpInt(a.numerator, 0)
      case Equal => Equal
      case Greater => Reverse(CmpInt(a.denominator, b.denominator))
      case Less => CmpInt(a.denominator, b.denominator)
    else
      // div_floor and mod_floor; with a positive divisor these are the
      // Euclidean `/` and `%`
      var aInt, aRem := a.numerator / a.denominator, a.numerator % a.denominator;
      var bInt, bRem := b.numerator / b.denominator, b.numerator % b.denominator;
      QuotientOrder(a.numerator, a.denominator, b.numerator, b.denominator);
      match CmpInt(aInt, bInt)
      case Greater => Greater
      case Less => Less
      case Equal =>
        if aRem == 0 && bRem == 0 then Equal
        else if aRem == 0 then
          MulAtLeast(bRem, a.denominator);
          Less
        else if bRem == 0 then
          MulAtLeast(aRem, b.denominator);
          Greater
        else
          var aNew, bNew := New(a.denominator, aRem), New(b.denominator, bRem);
          var o := Cmp(aNew, bNew);
          CrossRatio(aNew.numerator, aNew.denominator, bNew.numerator, bNew.denominator,
                     a.denominator, aRem, b.denominator, bRem);
          Reverse(o)
  }

  lemma ScaleOrder(x: int, y: int, d: int)
    requires d > 0
    ensures CmpInt(x * d, y * d) == CmpInt(x, y)
  {
    if x < y {
      MulAtLeast(y - x, d);
      assert y * d - x * d == (y - x) * d;
    } else if x > y {
      MulAtLeast(x - y, d);
      assert x * d - y * d == (x - y) * d;
    }
  }

  lemma SameNumeratorOrder(n: int, p: int, q: int)
    requires p > 0 && q > 0
    ensures n == 0 ==> CmpInt(n * q, n * p) == Equal
    ensures n > 0 ==> CmpInt(n * q, n * p) == Reverse(CmpInt(p, q))
    ensures n < 0 ==> CmpInt(n * q, n * p) == CmpInt(p, q)
  {
    if n > 0 {
      ScaleOrder(q, p, n);
    } else if n < 0 {
      ScaleOrder(p, q, -n);
      assert n * q == -(q * -n) && n * p == -(p * -n);
    }
  }

  /** Comparing `an/ad` with `bn/bd` by floor quotients, then remainders. */
  lemma QuotientOrder(an: int, ad: int, bn: int, bd: int)
    requires ad > 0 && bd > 0
    ensures an / ad > bn / bd ==> an * bd > bn * ad
    ensures an / ad < bn / bd ==> an * bd < bn * ad
    ensures an / ad == bn / bd ==> CmpInt(an * bd, bn * ad) == CmpInt((an % ad) * bd, (bn % bd) * ad)
  {
    var qa, ra, qb, rb := an / ad, an % ad, bn / bd, bn % bd;
    var x := ad * bd;
    Expand(an, qa, ad, ra, bd);
    Expand(bn, qb, bd, rb, ad);
    assert bd * ad == x;
    RemainderBelow(ra, ad, bd);
    RemainderBelow(rb, bd, ad);
    if qa > qb {
      Dominate(qa, qb, x, ra * bd, rb * ad);
    } else if qa < qb {
      Dominate(qb, qa, x, rb * ad, ra * bd);
    }
  }

  lemma Expand(n: int, q: int, d: int, r: int, e: int)
    requires n == q * d + r
    ensures n * e == q * (d * e) + r * e
  {
  }

  lemma RemainderBelow(r: int, d: int, e: int)
    requires 0 <= r < d && e > 0
    ensures 0 <= r * e < d * e
  {
    MulAtLeast(d - r, e);
  }

  lemma Dominate(u: int, v: int, x: int, s: int, t: int)
    requires u > v && x > 0 && 0 <= s < x && 0 <= t < x
    ensures u * x + s > v * x + t
  {
    MulAtLeast(u - v, x);
    assert u * x - v * x == (u - v) * x;
  }

  /** The reciprocals of two fractional parts compare in reverse. */
  lemma CrossRatio(sn: int, sd: int, on: int, od: int, ad: int, ra: int, bd: int, rb: int)
    requires sd > 0 && od > 0 && ra > 0 && rb > 0
    requires sn * ra == ad * sd && on * rb == bd * od
    ensures Reverse(CmpInt(sn * od, on * sd)) == CmpInt(ra * bd, rb * ad)
  {
    MulAtLeast(ra, rb);
    MulAtLeast(sd, od);
    ScaleOrder(sn * od, on * sd, ra * rb);
    Rearrange(sn, od, ra, rb, ad, sd);
    Rearrange(on, sd, rb, ra, bd, od);
    ScaleOrder(ad * rb, bd * ra, sd * od);
  }

  lemma Rearrange(x: int, y: int, r: int, s: int, n: int, z: int)
    requires x * r == n * z
    ensures (x * y) * (r * s) == (n * s) * (z * y)
    ensures (x * y) * (s * r) == (n * s) * (y * z)
  {
    Assoc4(x, y, r, s);
    Assoc4(n, z, s, y);
  }

  lemma Assoc4(a: int, b: int, c: int, d: int)
    ensures (a * b) * (c * d) == (a * c) * (b * d)
    ensures (a * b) * (c * d) == (a * c) * (d * b)
  {
  }

  /** `a == b` holds when `cmp` says `Equal`. */
  function Eq(a: Rational, b: Rational): (e: bool)
    requires a.denominator > 0 && b.denominator > 0
    ensures e <==> a.numerator * b.denominator == b.numerator * a.denominator
  {
    Cmp(a, b) == Equal
  }

  /** Comparison with an integer goes through `from_integer`. */
  function EqInt(a: Rational, t: int): (e: bool)
    requires a.denominator > 0
    ensures e <==> a.numerator == t * a.denominator
  {
    Eq(a, FromInteger(t))
  }

  /** On reduced values, `==` is equality of the pairs, and of the numbers
      they stand for. */
  lemma EqIsEquality(a: Rational, b: Rational)
    requires Normal(a) && Normal(b)
    ensures Eq(a, b) <==> a == b
    ensures Eq(a, b) <==> Represents(a, b.numerator, b.denominator)
  {
    if Eq(a, b) {
      NormalUnique(a, b);
    }
  }

  lemma EqIntIsEquality(a: Rational, t: int)
    requires Normal(a)
    ensures EqInt(a, t) <==> a == Rational(t, 1)
  {
    assert Gcd(Abs(t), 1) == 1;
    EqIsEquality(a, Rational(t, 1));
  }

  /** `r` stands for `n/d`, hence also for `(n*g)/(d*g)`. */
  lemma RepresentsScaled(r: Rational, n: int, d: int, g: int, n': int, d': int)
    requires Represents(r, n, d) && n' == n * g && d' == d * g
    ensures Represents(r, n', d')
  {
    assert r.numerator * (d * g) == (r.numerator * d) * g;
    assert (n * g) * r.denominator == (n * r.denominator) * g;
  }

  /** `a + b`: both sides are brought to the lcm of the denominators. */
  function Add(a: Rational, b: Rational): (r: Rational)
    requires a.denominator > 0 && b.denominator > 0
    ensures Normal(r)
    ensures Represents(r, a.numerator * b.denominator + b.numerator * a.denominator,
                        a.denominator * b.denominator)
  {
    var g := Gcd(Abs(a.denominator), Abs(b.denominator));
    var lcm := Quot(a.denominator * b.denominator, g);
    var selfMul := Quot(b.denominator, g);
    var rhsMul := Quot(a.denominator, g);
    LcmParts(a.denominator, b.denominator, g, lcm, selfMul, rhsMul);
    var r := New(a.numerator * selfMul + b.numerator * rhsMul, lcm);
    SumScaled(a.numerator, b.numerator, selfMul, rhsMul, g, a.denominator, b.denominator, 1);
    RepresentsScaled(r, a.numerator * selfMul + b.numerator * rhsMul, lcm, g,
                     a.numerator * b.denominator + b.numerator * a.denominator,
                     a.denominator * b.denominator);
    r
  }

  /** `a - b`, as `a + b` with the second term subtracted. */
  function Sub(a: Rational, b: Rational): (r: Rational)
    requires a.denominator > 0 && b.denominator > 0
    ensures Normal(r)
    ensures Represents(r, a.numerator * b.denominator - b.numerator * a.denominator,
                        a.denominator * b.denominator)
  {
    var g := Gcd(Abs(a.denominator), Abs(b.denominator));
    var lcm := Quot(a.denominator * b.denominator, g);
    var selfMul := Quot(b.denominator, g);
    var rhsMul := Quot(a.denominator, g);
    LcmParts(a.denominator, b.denominator, g, lcm, selfMul, rhsMul);
    var r := New(a.numerator * selfMul - b.numerator * rhsMul, lcm);
    SumScaled(a.numerator, b.numerator, selfMul, rhsMul, g, a.denominator, b.denominator, -1);
    RepresentsScaled(r, a.numerator * selfMul - b.numerator * rhsMul, lcm, g,
                     a.numerator * b.denominator - b.numerator * a.denominator,
                     a.denominator * b.denominator);
    r
  }

  /** The lcm `p*q/g` and the two cofactors are exact and positive. */
  lemma LcmParts(p: int, q: int, g: nat, lcm: int, y: int, x: int)
    requires p > 0 && q > 0
    requires g == Gcd(Abs(p), Abs(q)) && lcm == Quot(p * q, g) && y == Quot(q, g) && x == Quot(p, g)
    ensures g > 0 && lcm > 0 && lcm * g == p * q && y * g == q && x * g == p
  {
    CommonFactor(p, q, g, x, y);
    PositiveCofactor(p, g, x);
    PositiveCofactor(q, g, y);
    ProductParts(g, x, y);
    QuotExact(p * q, g, g * x * y);
  }

  lemma ProductParts(g: int, x: int, y: int)
    requires g > 0 && x > 0 && y > 0
    ensures (g * x) * (g * y) == g * (g * x * y)
    ensures (g * x * y) * g == (g * x) * (g * y)
    ensures g * x * y > 0
    ensures x * g == g * x && y * g == g * y
  {
    MulAtLeast(x, g);
    MulAtLeast(y, g * x);
  }

  lemma PositiveCofactor(p: int, g: int, x: int)
    requires p > 0 && g > 0 && p == g * x
    ensures x > 0
  {
    if x <= 0 {
      NegateTimes(x, g);
      MulAtLeast(1 - x, g);
    }
  }

  lemma SumScaled(an: int, bn: int, y: int, x: int, g: int, p: int, q: int, s: int)
    requires y * g == q && x * g == p
    ensures (an * y + s * (bn * x)) * g == an * q + s * (bn * p)
  {
  }

  /** `a * b`: cross gcds are cancelled before multiplying. */
  function Mul(a: Rational, b: Rational): (r: Rational)
    requires a.denominator > 0 && b.denominator > 0
    ensures Normal(r)
    ensures Represents(r, a.numerator * b.numerator, a.denominator * b.denominator)
  {
    var gcd1 := Gcd(Abs(a.numerator), Abs(b.denominator));
    var gcd2 := Gcd(Abs(a.denominator), Abs(b.numerator));
    var num1 := Quot(a.numerator, gcd1);
    var den1 := Quot(a.denominator, gcd2);
    var num2 := Quot(b.numerator, gcd2);
    var den2 := Quot(b.denominator, gcd1);
    CrossFactors(a, b, gcd1, gcd2, num1, den1, num2, den2);
    var r := New(num1 * num2, den1 * den2);
    RepresentsScaled(r, num1 * num2, den1 * den2, gcd1 * gcd2,
                     a.numerator * b.numerator, a.denominator * b.denominator);
    r
  }

  lemma CrossFactors(a: Rational, b: Rational, gcd1: nat, gcd2: nat,
                     num1: int, den1: int, num2: int, den2: int)
    requires a.denominator > 0 && b.denominator > 0
    requires gcd1 == Gcd(Abs(a.numerator), Abs(b.denominator))
    requires gcd2 == Gcd(Abs(a.denominator), Abs(b.numerator))
    requires num1 == Quot(a.numerator, gcd1) && den2 == Quot(b.denominator, gcd1)
    requires den1 == Quot(a.denominator, gcd2) && num2 == Quot(b.numerator, gcd2)
    ensures den1 * den2 > 0
    ensures (num1 * num2) * (gcd1 * gcd2) == a.numerator * b.numerator
    ensures (den1 * den2) * (gcd1 * gcd2) == a.denominator * b.denominator
  {
    CommonFactor(a.numerator, b.denominator, gcd1, num1, den2);
    CommonFactor(a.denominator, b.numerator, gcd2, den1, num2);
    PositiveCofactor(a.denominator, gcd2, den1);
    PositiveCofactor(b.denominator, gcd1, den2);
    MulAtLeast(den1, den2);
    FourProducts(gcd1, num1, gcd2, num2, a.numerator, b.numerator);
    FourProducts(gcd2, den1, gcd1, den2, a.denominator, b.denominator);
  }

  lemma FourProducts(g: int, x: int, h: int, y: int, p: int, q: int)
    requires p == g * x && q == h * y
    ensures (x * y) * (g * h) == p * q && (x * y) * (h * g) == p * q
  {
    Assoc4(g, x, h, y);
  }

  /** `a / b` multiplies by `new(b.den, b.num)`, so a zero divisor trips
      the zero-denominator assertion. */
  function Div(a: Rational, b: Rational): (r: Rational)
    requires a.denominator > 0 && b.denominator > 0 && b.numerator != 0
    ensures Normal(r)
    ensures Represents(r, a.numerator * b.denominator, a.denominator * b.numerator)
  {
    var rhsInv := New(b.denominator, b.numerator);
    var r := Mul(a, rhsInv);
    DivAlgebra(r.numerator, r.denominator, a.numerator, a.denominator,
               rhsInv.numerator, rhsInv.denominator, b.numerator, b.denominator);
    r
  }

  lemma DivAlgebra(rn: int, rd: int, an: int, ad: int, iN: int, iD: int, bn: int, bd: int)
    requires iD > 0
    requires rn * (ad * iD) == (an * iN) * rd && iN * bn == bd * iD
    ensures rn * (ad * bn) == (an * bd) * rd
  {
    calc {
      iD * (rn * (ad * bn));
      (rn * (ad * iD)) * bn;
      ((an * iN) * rd) * bn;
      (an * rd) * (iN * bn);
      (an * rd) * (bd * iD);
      iD * ((an * bd) * rd);
    }
    CancelLeft(iD, rn * (ad * bn), (an * bd) * rd);
  }

  /** The operators with an integer on the right go through
      `from_integer`. */
  function AddInt(a: Rational, t: int): (r: Rational)
    requires a.denominator > 0
    ensures Normal(r) && Represents(r, a.numerator + t * a.denominator, a.denominator)
  {
    Add(a, FromInteger(t))
  }

  function SubInt(a: Rational, t: int): (r: Rational)
    requires a.denominator > 0
    ensures Normal(r) && Represents(r, a.numerator - t * a.denominator, a.denominator)
  {
    Sub(a, FromInteger(t))
  }

  function MulInt(a: Rational, t: int): (r: Rational)
    requires a.denominator > 0
    ensures Normal(r) && Represents(r, a.numerator * t, a.denominator)
  {
    Mul(a, FromInteger(t))
  }

  /** Dividing by the integer `t` multiplies by `new(1, t)`. */
  function DivInt(a: Rational, t: int): (r: Rational)
    requires a.denominator > 0 && t != 0
    ensures Normal(r) && Represents(r, a.numerator, a.denominator * t)
  {
    var rhsInv := New(1, t);
    var r := Mul(a, rhsInv);
    DivAlgebra(r.numerator, r.denominator, a.numerator, a.denominator,
               rhsInv.numerator, rhsInv.denominator, t, 1);
    r
  }

  /** A rational updated in place by `reduce` and the compound
      assignments. */
  class RationalVar {
    var numerator: int
    var denominator: int

    function Value(): Rational
      reads this
    {
      Rational(numerator, denominator)
    }

    /** `new`: store the pair, then `reduce` it. */
    constructor (numerator0: int, denominator0: int)
      requires denominator0 != 0
      ensures Value() == New(numerator0, denominator0)
    {
      numerator := numerator0;
      denominator := denominator0;
      new;
      Reduce();
    }

    /** `reduce`, step by step on the two fields. */
    method Reduce()
      requires denominator != 0
      modifies this
      ensures Value() == New(old(numerator), old(denominator))
    {
      if numerator == 0 {
        denominator := 1;
        return;
      }
      if numerator == denominator {
        numerator := 1;
        denominator := 1;
        return;
      }
      var g := Gcd(Abs(numerator), Abs(denominator));
      numerator := Quot(numerator, g);
      denominator := Quot(denominator, g);
      if denominator < 0 {
        numerator := 0 - numerator;
        denominator := 0 - denominator;
      }
    }

    method AddAssign(other: Rational)
      requires denominator > 0 && other.denominator > 0
      modifies this
      ensures Value() == Add(old(Value()), other)
    {
      var sum := Add(Value(), other);
      numerator := sum.numerator;
      denominator := sum.denominator;
    }

    method AddAssignInt(other: int)
      requires denominator > 0
      modifies this
      ensures Value() == AddInt(old(Value()), other)
    {
      var sum := AddInt(Value(), other);
      numerator := sum.numerator;
      denominator := sum.denominator;
    }

    method SubAssign(other: Rational)
      requires denominator > 0 && other.denominator > 0
      modifies this
      ensures Value() == Sub(old(Value()), other)
    {
      var diff := Sub(Value(), other);
      numerator := diff.numerator;
      denominator := diff.denominator;
    }

    method SubAssignInt(other: int)
      requires denominator > 0
      modifies this
      ensures Value() == SubInt(old(Value()), other)
    {
      var diff := SubInt(Value(), other);
      numerator := diff.numerator;
      denominator := diff.denominator;
    }

    method MulAssign(other: Rational)
      requires denominator > 0 && other.denominator > 0
      modifies this
      ensures Value() == Mul(old(Value()), other)
    {
      var product := Mul(Value(), other);
      numerator := product.numerator;
      denominator := product.denominator;
    }

    method MulAssignInt(other: int)
      requires denominator > 0
      modifies this
      ensures Value() == MulInt(old(Value()), other)
    {
      var product := MulInt(Value(), other);
      numerator := product.numerator;
      denominator := product.denominator;
    }

    method DivAssign(other: Rational)
      requires denominator > 0 && other.denominator > 0 && other.numerator != 0
      modifies this
      ensures Value() == Div(old(Value()), other)
    {
      var quotient := Div(Value(), other);
      numerator := quotient.numerator;
      denominator := quotient.denominator;
    }

    method DivAssignInt(other: int)
      requires denominator > 0 && other != 0
      modifies this
      ensures Value() == DivInt(old(Value()), other)
    {
      var quotient := DivInt(Value(), other);
      numerator := quotient.numerator;
      denominator := quotient.denominator;
    }
  }

  /** `new` yields exactly the lowest-terms fraction equal to `n / d`:
      any rational is its result if and only if it is normal and equal
      in value. */
  lemma NewIs(n: int, d: int, r: Rational)
    requires d != 0
    ensures New(n, d) == r <==> Normal(r) && Represents(r, n, d)
  {
    if Normal(r) && Represents(r, n, d) {
      Canonical(New(n, d), r, n, d);
    }
  }

  lemma PositiveProduct(x: int, y: int)
    requires x > 0 && y > 0
    ensures x * y > 0
  {
  }

  /** Each arithmetic operator yields exactly the lowest-terms form of
      the exact result. */
  lemma AddIs(a: Rational, b: Rational, r: Rational)
    requires a.denominator > 0 && b.denominator > 0
    ensures Add(a, b) == r <==>
      (Normal(r) && Represents(r, a.numerator * b.denominator + b.numerator * a.denominator, a.denominator * b.denominator))
  {
    if Normal(r) && Represents(r, a.numerator * b.denominator + b.numerator * a.denominator, a.denominator * b.denominator) {
      PositiveProduct(a.denominator, b.denominator);
      Canonical(Add(a, b), r, a.numerator * b.denominator + b.numerator * a.denominator, a.denominator * b.denominator);
    }
  }

  lemma SubIs(a: Rational, b: Rational, r: Rational)
    requires a.denominator > 0 && b.denominator > 0
    ensures Sub(a, b) == r <==>
      (Normal(r) && Represents(r, a.numerator * b.denominator - b.numerator * a.denominator, a.denominator * b.denominator))
  {
    if Normal(r) && Represents(r, a.numerator * b.denominator - b.numerator * a.denominator, a.denominator * b.denominator) {
      PositiveProduct(a.denominator, b.denominator);
      Canonical(Sub(a, b), r, a.numerator * b.denominator - b.numerator * a.denominator, a.denominator * b.denominator);
    }
  }

  lemma MulIs(a: Rational, b: Rational, r: Rational)
    requires a.denominator > 0 && b.denominator > 0
    ensures Mul(a, b) == r <==>
      (Normal(r) && Represents(r, a.numerator * b.numerator, a.denominator * b.denominator))
  {
    if Normal(r) && Represents(r, a.numerator * b.numerator, a.denominator * b.denominator) {
      PositiveProduct(a.denominator, b.denominator);
      Canonical(Mul(a, b), r, a.numerator * b.numerator, a.denominator * b.denominator);
    }
  }

  lemma DivIs(a: Rational, b: Rational, r: Rational)
    requires a.denominator > 0 && b.denominator > 0 && b.numerator != 0
    ensures Div(a, b) == r <==>
      (Normal(r) && Represents(r, a.numerator * b.denominator, a.denominator * b.numerator))
  {
    if Normal(r) && Represents(r, a.numerator * b.denominator, a.denominator * b.numerator) {
      NonZeroProduct(a.denominator, b.numerator);
      Canonical(Div(a, b), r, a.numerator * b.denominator, a.denominator * b.numerator);
    }
  }

  lemma NonZeroProduct(x: int, y: int)
    requires x != 0 && y != 0
    ensures x * y != 0
  {
  }

  lemma AddIntIs(a: Rational, t: int, r: Rational)
    requires a.denominator > 0
    ensures AddInt(a, t) == r <==> Normal(r) && Represents(r, a.numerator + t * a.denominator, a.denominator)
  {
    if Normal(r) && Represents(r, a.numerator + t * a.denominator, a.denominator) {
      Canonical(AddInt(a, t), r, a.numerator + t * a.denominator, a.denominator);
    }
  }

  lemma SubIntIs(a: Rational, t: int, r: Rational)
    requires a.denominator > 0
    ensures SubInt(a, t) == r <==> Normal(r) && Represents(r, a.numerator - t * a.denominator, a.denominator)
  {
    if Normal(r) && Represents(r, a.numerator - t * a.denominator, a.denominator) {
      Canonical(SubInt(a, t), r, a.numerator - t * a.denominator, a.denominator);
    }
  }

  lemma MulIntIs(a: Rational, t: int, r: Rational)
    requires a.denominator > 0
    ensures MulInt(a, t) == r <==> Normal(r) && Represents(r, a.numerator * t, a.denominator)
  {
    if Normal(r) && Represents(r, a.numerator * t, a.denominator) {
      Canonical(MulInt(a, t), r, a.numerator * t, a.denominator);
    }
  }

  lemma DivIntIs(a: Rational, t: int, r: Rational)
    requires a.denominator > 0 && t != 0
    ensures DivInt(a, t) == r <==> Normal(r) && Represents(r, a.numerator, a.denominator * t)
  {
    if Normal(r) && Represents(r, a.numerator, a.denominator * t) {
      NonZeroProduct(a.denominator, t);
      Canonical(DivInt(a, t), r, a.numerator, a.denominator * t);
    }
  }

  /** The library's `new` cases: equal fractions reduce to one pair, the
      signs move to the numerator, and zero is `0/1`. */
  lemma NewExamples()
    ensures New(2, 3) == New(4, 6) == New(-2, -3) == Rational(2, 3)
    ensures New(2, 4) == Rational(1, 2)
    ensures New(-2, 3) == New(2, -3) == New(-6, 9) == New(6, -9) == Rational(-2, 3)
    ensures New(0, 3) == New(0, 9) == New(0, 1000) == New(0, -5) == Rational(0, 1)
    ensures New(7, 1) == FromInteger(7) && New(-7, 1) == New(7, -1) == FromInteger(-7)
  {
    NewIs(2, 3, Rational(2, 3));
    NewIs(4, 6, Rational(2, 3));
    NewIs(-2, -3, Rational(2, 3));
    NewIs(2, 4, Rational(1, 2));
    NewIs(-2, 3, Rational(-2, 3));
    NewIs(2, -3, Rational(-2, 3));
    NewIs(-6, 9, Rational(-2, 3));
    NewIs(6, -9, Rational(-2, 3));
    NewIs(7, 1, Rational(7, 1));
    NewIs(-7, 1, Rational(-7, 1));
    NewIs(7, -1, Rational(-7, 1));
  }

  /** `to_integer` on the library's cases. */
  lemma ToIntegerExamples()
    ensures ToInteger(New(4, 3)) == 1 && ToInteger(New(5, 3)) == 1
    ensures ToInteger(New(3, 3)) == 1 && ToInteger(New(6, 3)) == 2
    ensures ToInteger(New(-4, 3)) == -1 && ToInteger(New(-3, 3)) == -1
    ensures ToInteger(New(-6, 3)) == -2 && ToInteger(New(0, 3)) == 0
    ensures ToInteger(New(1, 3)) == 0 && ToInteger(New(-1, 3)) == 0
  {
    NewIs(4, 3, Rational(4, 3));
    NewIs(5, 3, Rational(5, 3));
    NewIs(3, 3, Rational(1, 1));
    NewIs(6, 3, Rational(2, 1));
    NewIs(-4, 3, Rational(-4, 3));
    NewIs(-3, 3, Rational(-1, 1));
    NewIs(-6, 3, Rational(-2, 1));
    NewIs(1, 3, Rational(1, 3));
    NewIs(-1, 3, Rational(-1, 3));
  }

  /** `truncate` on the library's cases, which are those of `to_integer`. */
  lemma TruncateExamples()
    ensures Truncate(New(4, 3)) == FromInteger(1) && Truncate(New(5, 3)) == FromInteger(1)
    ensures Truncate(New(3, 3)) == FromInteger(1) && Truncate(New(6, 3)) == FromInteger(2)
    ensures Truncate(New(-4, 3)) == FromInteger(-1) && Truncate(New(-3, 3)) == FromInteger(-1)
    ensures Truncate(New(-6, 3)) == FromInteger(-2) && Truncate(New(0, 3)) == FromInteger(0)
    ensures Truncate(New(1, 3)) == FromInteger(0) && Truncate(New(-1, 3)) == FromInteger(0)
  {
    ToIntegerExamples();
  }

  /** `floor` on the library's cases. */
  lemma FloorExamples()
    ensures Floor(New(7, 4)) == FromInteger(1) && Floor(New(4, 4)) == FromInteger(1)
    ensures Floor(New(3, 4)) == FromInteger(0) && Floor(New(-3, 4)) == FromInteger(-1)
    ensures Floor(New(-15, 4)) == FromInteger(-4)
  {
    NewIs(7, 4, Rational(7, 4));
    NewIs(4, 4, Rational(1, 1));
    NewIs(3, 4, Rational(3, 4));
    NewIs(-3, 4, Rational(-3, 4));
    NewIs(-15, 4, Rational(-15, 4));
  }

  /** `ceil` on the library's cases. */
  lemma CeilExamples()
    ensures Ceil(New(3, 4)) == FromInteger(1) && Ceil(New(9, 4)) == FromInteger(3)
    ensures Ceil(New(4, 4)) == FromInteger(1) && Ceil(New(0, 4)) == FromInteger(0)
    ensures Ceil(New(-3, 4)) == FromInteger(0) && Ceil(New(-4, 4)) == FromInteger(-1)
    ensures Ceil(New(-5, 4)) == FromInteger(-1) && Ceil(New(-13, 4)) == FromInteger(-3)
  {
    NewIs(3, 4, Rational(3, 4));
    NewIs(9, 4, Rational(9, 4));
    NewIs(4, 4, Rational(1, 1));
    NewIs(-3, 4, Rational(-3, 4));
    NewIs(-4, 4, Rational(-1, 1));
    NewIs(-5, 4, Rational(-5, 4));
    NewIs(-13, 4, Rational(-13, 4));
  }

  /** `cmp` against rationals and against integers on the library's cases. */
  lemma CmpExamples()
    ensures Cmp(New(3, 2), New(5, 2)) == Less && Cmp(New(3, 2), New(8, 5)) == Less
    ensures Cmp(New(3, 2), New(1, 2)) == Greater && Cmp(New(3, 2), New(7, 5)) == Greater
    ensures Cmp(New(-3, 2), New(1, 2)) == Less && Cmp(New(-3, 2), New(0, 2)) == Less
    ensures Cmp(New(-3, 2), New(-7, 5)) == Less
    ensures Cmp(New(3, 2), FromInteger(2)) == Less && Cmp(FromInteger(1), New(3, 2)) == Less
    ensures Cmp(FromInteger(-1), New(0, 2)) == Less && Cmp(FromInteger(-1), New(-1, 2)) == Less
    ensures Cmp(New(-7, 2), FromInteger(-3)) == Less
  {
    NewIs(3, 2, Rational(3, 2));
    NewIs(5, 2, Rational(5, 2));
    NewIs(8, 5, Rational(8, 5));
    NewIs(1, 2, Rational(1, 2));
    NewIs(7, 5, Rational(7, 5));
    NewIs(-3, 2, Rational(-3, 2));
    NewIs(-7, 5, Rational(-7, 5));
    NewIs(-1, 2, Rational(-1, 2));
    NewIs(-7, 2, Rational(-7, 2));
  }

  /** The operators depend only on the values of their operands: if `a`
      stands for `n1/d1` and `b` for `n2/d2`, the result is the reduced
      fraction standing for the exact result computed from those. */
  lemma AddValue(a: Rational, b: Rational, n1: int, d1: int, n2: int, d2: int, r: Rational)
    requires Normal(a) && Normal(b) && Normal(r) && d1 != 0 && d2 != 0
    requires Represents(a, n1, d1) && Represents(b, n2, d2)
    requires Represents(r, n1 * d2 + n2 * d1, d1 * d2)
    ensures Add(a, b) == r
  {
    SumTransfer(Add(a, b), a.numerator, a.denominator, n1, d1,
                b.numerator, b.denominator, n2, d2);
    NonZeroProduct(d1, d2);
    Canonical(Add(a, b), r, n1 * d2 + n2 * d1, d1 * d2);
  }

  lemma SubValue(a: Rational, b: Rational, n1: int, d1: int, n2: int, d2: int, r: Rational)
    requires Normal(a) && Normal(b) && Normal(r) && d1 != 0 && d2 != 0
    requires Represents(a, n1, d1) && Represents(b, n2, d2)
    requires Represents(r, n1 * d2 - n2 * d1, d1 * d2)
    ensures Sub(a, b) == r
  {
    DifferenceTransfer(Sub(a, b), a.numerator, a.denominator, n1, d1,
                       b.numerator, b.denominator, n2, d2);
    NonZeroProduct(d1, d2);
    Canonical(Sub(a, b), r, n1 * d2 - n2 * d1, d1 * d2);
  }

  lemma MulValue(a: Rational, b: Rational, n1: int, d1: int, n2: int, d2: int, r: Rational)
    requires Normal(a) && Normal(b) && Normal(r) && d1 != 0 && d2 != 0
    requires Represents(a, n1, d1) && Represents(b, n2, d2)
    requires Represents(r, n1 * n2, d1 * d2)
    ensures Mul(a, b) == r
  {
    ProductTransfer(Mul(a, b), a.numerator, a.denominator, n1, d1,
                    b.numerator, b.denominator, n2, d2);
    NonZeroProduct(d1, d2);
    Canonical(Mul(a, b), r, n1 * n2, d1 * d2);
  }

  lemma DivValue(a: Rational, b: Rational, n1: int, d1: int, n2: int, d2: int, r: Rational)
    requires Normal(a) && Normal(b) && Normal(r) && d1 != 0 && d2 != 0 && n2 != 0
    requires Represents(a, n1, d1) && Represents(b, n2, d2)
    requires Represents(r, n1 * d2, d1 * n2)
    ensures b.numerator != 0 && Div(a, b) == r
  {
    NonZeroProduct(n2, b.denominator);
    QuotientTransfer(Div(a, b), a.numerator, a.denominator, n1, d1,
                     b.numerator, b.denominator, n2, d2);
    NonZeroProduct(d1, n2);
    Canonical(Div(a, b), r, n1 * d2, d1 * n2);
  }

  /** With an integer on the right the operators are the rational ones
      applied to `t/1`; dividing by `t` multiplies by `1/t`. */
  lemma AddIntValue(a: Rational, t: int, n1: int, d1: int, r: Rational)
    requires Normal(a) && Normal(r) && d1 != 0 && Represents(a, n1, d1)
    requires Represents(r, n1 + t * d1, d1)
    ensures AddInt(a, t) == r
  {
    AddValue(a, FromInteger(t), n1, d1, t, 1, r);
  }

  lemma SubIntValue(a: Rational, t: int, n1: int, d1: int, r: Rational)
    requires Normal(a) && Normal(r) && d1 != 0 && Represents(a, n1, d1)
    requires Represents(r, n1 - t * d1, d1)
    ensures SubInt(a, t) == r
  {
    SubValue(a, FromInteger(t), n1, d1, t, 1, r);
  }

  lemma MulIntValue(a: Rational, t: int, n1: int, d1: int, r: Rational)
    requires Normal(a) && Normal(r) && d1 != 0 && Represents(a, n1, d1)
    requires Represents(r, n1 * t, d1)
    ensures MulInt(a, t) == r
  {
    MulValue(a, FromInteger(t), n1, d1, t, 1, r);
  }

  lemma DivIntValue(a: Rational, t: int, n1: int, d1: int, r: Rational)
    requires Normal(a) && Normal(r) && d1 != 0 && t != 0 && Represents(a, n1, d1)
    requires Represents(r, n1, d1 * t)
    ensures DivInt(a, t) == r
  {
    MulValue(a, New(1, t), n1, d1, 1, t, r);
  }

  /** A fraction standing for `p/q` stands for every `n/d` cross-equal to it. */
  lemma RepresentsTransfer(r: Rational, p: int, q: int, n: int, d: int)
    requires q != 0 && Represents(r, p, q) && p * d == n * q
    ensures Represents(r, n, d)
  {
    CrossTransfer(r.numerator, r.denominator, n, d, p, q);
  }

  /** A fraction standing for the cross-multiplied sum, difference, product
      or quotient of two fractions stands for that of any cross-equal pair. */
  lemma SumTransfer(r: Rational, an: int, ad: int, n1: int, d1: int,
                    bn: int, bd: int, n2: int, d2: int)
    requires ad > 0 && bd > 0 && an * d1 == n1 * ad && bn * d2 == n2 * bd
    requires Represents(r, an * bd + bn * ad, ad * bd)
    ensures Represents(r, n1 * d2 + n2 * d1, d1 * d2)
  {
    SumCross(an, ad, n1, d1, bn, bd, n2, d2);
    PositiveProduct(ad, bd);
    RepresentsTransfer(r, an * bd + bn * ad, ad * bd, n1 * d2 + n2 * d1, d1 * d2);
  }

  lemma DifferenceTransfer(r: Rational, an: int, ad: int, n1: int, d1: int,
                           bn: int, bd: int, n2: int, d2: int)
    requires ad > 0 && bd > 0 && an * d1 == n1 * ad && bn * d2 == n2 * bd
    requires Represents(r, an * bd - bn * ad, ad * bd)
    ensures Represents(r, n1 * d2 - n2 * d1, d1 * d2)
  {
    SumCross(an, ad, n1, d1, bn, bd, n2, d2);
    PositiveProduct(ad, bd);
    RepresentsTransfer(r, an * bd - bn * ad, ad * bd, n1 * d2 - n2 * d1, d1 * d2);
  }

  lemma ProductTransfer(r: Rational, an: int, ad: int, n1: int, d1: int,
                        bn: int, bd: int, n2: int, d2: int)
    requires ad > 0 && bd > 0 && an * d1 == n1 * ad && bn * d2 == n2 * bd
    requires Represents(r, an * bn, ad * bd)
    ensures Represents(r, n1 * n2, d1 * d2)
  {
    ProductCross(an, ad, n1, d1, bn, bd, n2, d2);
    PositiveProduct(ad, bd);
    RepresentsTransfer(r, an * bn, ad * bd, n1 * n2, d1 * d2);
  }

  lemma QuotientTransfer(r: Rational, an: int, ad: int, n1: int, d1: int,
                         bn: int, bd: int, n2: int, d2: int)
    requires ad > 0 && bn != 0 && an * d1 == n1 * ad && bn * d2 == n2 * bd
    requires Represents(r, an * bd, ad * bn)
    ensures Represents(r, n1 * d2, d1 * n2)
  {
    ProductCross(an, ad, n1, d1, bn, bd, n2, d2);
    NonZeroProduct(ad, bn);
    RepresentsTransfer(r, an * bd, ad * bn, n1 * d2, d1 * n2);
  }

  /** Cross-equal operands give cross-equal sums and differences. */
  lemma SumCross(an: int, ad: int, n1: int, d1: int, bn: int, bd: int, n2: int, d2: int)
    requires an * d1 == n1 * ad && bn * d2 == n2 * bd
    ensures (an * bd + bn * ad) * (d1 * d2) == (n1 * d2 + n2 * d1) * (ad * bd)
    ensures (an * bd - bn * ad) * (d1 * d2) == (n1 * d2 - n2 * d1) * (ad * bd)
  {
    TermCross(an, bd, d1, d2, n1, ad);
    TermCross(bn, ad, d2, d1, n2, bd);
    Distribute(an * bd, bn * ad, d1 * d2);
    Distribute(n1 * d2, n2 * d1, ad * bd);
  }

  /** One term of a cross-multiplied sum: `x*y*u*v == p*v*q*y` when `x*u == p*q`. */
  lemma TermCross(x: int, y: int, u: int, v: int, p: int, q: int)
    requires x * u == p * q
    ensures (x * y) * (u * v) == (p * v) * (q * y)
    ensures (x * y) * (v * u) == (p * v) * (y * q)
  {
    Assoc4(x, y, u, v);
    Assoc4(p, q, y, v);
    Assoc4(p, v, q, y);
  }

  lemma Distribute(x: int, y: int, z: int)
    ensures (x + y) * z == x * z + y * z
    ensures (x - y) * z == x * z - y * z
  {
  }

  /** Cross-equal operands give cross-equal products and quotients. */
  lemma ProductCross(an: int, ad: int, n1: int, d1: int, bn: int, bd: int, n2: int, d2: int)
    requires an * d1 == n1 * ad && bn * d2 == n2 * bd
    ensures (an * bn) * (d1 * d2) == (n1 * n2) * (ad * bd)
    ensures (an * bd) * (d1 * n2) == (n1 * d2) * (ad * bn)
  {
    Assoc4(an, bn, d1, d2);
    Assoc4(n1, ad, n2, bd);
    Assoc4(an, bd, d1, n2);
    Assoc4(n1, ad, bn, d2);
  }

  /** `+` with a rational or an integer on the right. */
  lemma AddExamples()
    ensures Add(New(3, 4), New(1, 4)) == FromInteger(1)
    ensures Add(New(1, 2), New(1, 3)) == New(5, 6)
    ensures Add(New(-1, 2), New(1, 3)) == New(-1, 6)
    ensures AddInt(New(3, 4), 1) == New(7, 4)
  {
    AddValue(New(3, 4), New(1, 4), 3, 4, 1, 4, New(1, 1));
    AddValue(New(1, 2), New(1, 3), 1, 2, 1, 3, New(5, 6));
    AddValue(New(-1, 2), New(1, 3), -1, 2, 1, 3, New(-1, 6));
    AddIntValue(New(3, 4), 1, 3, 4, New(7, 4));
  }

  /** `-` with a rational or an integer on the right. */
  lemma SubExamples()
    ensures Sub(New(3, 4), New(1, 4)) == New(1, 2)
    ensures Sub(New(1, 2), New(1, 3)) == New(1, 6)
    ensures Sub(New(-1, 2), New(1, 3)) == New(-5, 6)
    ensures SubInt(New(3, 4), 1) == New(-1, 4)
  {
    SubValue(New(3, 4), New(1, 4), 3, 4, 1, 4, New(1, 2));
    SubValue(New(1, 2), New(1, 3), 1, 2, 1, 3, New(1, 6));
    SubValue(New(-1, 2), New(1, 3), -1, 2, 1, 3, New(-5, 6));
    SubIntValue(New(3, 4), 1, 3, 4, New(-1, 4));
  }

  /** `*` with a rational or an integer on the right. */
  lemma MulExamples()
    ensures Mul(New(1, 2), New(3, 4)) == New(3, 8)
    ensures Mul(New(3, 4), New(5, 6)) == New(5, 8)
    ensures Mul(New(0, 1), New(1234, 9999)) == FromInteger(0)
    ensures Mul(New(-1, 2), New(3, 4)) == New(-3, 8)
    ensures Mul(New(-3, 4), New(5, 6)) == New(-5, 8)
    ensures MulInt(New(3, 4), 3) == New(9, 4)
  {
    MulValue(New(1, 2), New(3, 4), 1, 2, 3, 4, New(3, 8));
    MulValue(New(3, 4), New(5, 6), 3, 4, 5, 6, New(5, 8));
    MulValue(New(0, 1), New(1234, 9999), 0, 1, 1234, 9999, New(0, 1));
    MulValue(New(-1, 2), New(3, 4), -1, 2, 3, 4, New(-3, 8));
    MulValue(New(-3, 4), New(5, 6), -3, 4, 5, 6, New(-5, 8));
    MulIntValue(New(3, 4), 3, 3, 4, New(9, 4));
  }

  /** `/` with a rational or an integer on the right. */
  lemma DivExamples()
    ensures Div(New(1, 2), New(3, 4)) == New(2, 3)
    ensures Div(New(3, 4), New(5, 6)) == New(9, 10)
    ensures Div(New(0, 1), New(1234, 9999)) == FromInteger(0)
    ensures Div(New(-1, 2), New(3, 4)) == New(-2, 3)
    ensures Div(New(-3, 4), New(5, 6)) == New(-9, 10)
    ensures DivInt(New(3, 4), 3) == New(1, 4)
  {
    DivValue(New(1, 2), New(3, 4), 1, 2, 3, 4, New(2, 3));
    DivValue(New(3, 4), New(5, 6), 3, 4, 5, 6, New(9, 10));
    DivValue(New(0, 1), New(1234, 9999), 0, 1, 1234, 9999, New(0, 1));
    DivValue(New(-1, 2), New(3, 4), -1, 2, 3, 4, New(-2, 3));
    DivValue(New(-3, 4), New(5, 6), -3, 4, 5, 6, New(-9, 10));
    DivIntValue(New(3, 4), 3, 3, 4, New(1, 4));
  }

  /** A fresh `RationalVar` holding `new(n, d)`, then `+= other`. */
  method AddAssigned(n: int, d: int, other: Rational) returns (v: Rational)
    requires d != 0 && other.denominator > 0
    ensures v == Add(New(n, d), other)
  {
    var r := new RationalVar(n, d);
    r.AddAssign(other);
    v := r.Value();
  }

  /** A fresh `RationalVar` holding `new(n, d)`, then `-= other`. */
  method SubAssigned(n: int, d: int, other: Rational) returns (v: Rational)
    requires d != 0 && other.denominator > 0
    ensures v == Sub(New(n, d), other)
  {
    var r := new RationalVar(n, d);
    r.SubAssign(other);
    v := r.Value();
  }

  /** A fresh `RationalVar` holding `new(n, d)`, then `*= other`. */
  method MulAssigned(n: int, d: int, other: Rational) returns (v: Rational)
    requires d != 0 && other.denominator > 0
    ensures v == Mul(New(n, d), other)
  {
    var r := new RationalVar(n, d);
    r.MulAssign(other);
    v := r.Value();
  }

  /** A fresh `RationalVar` holding `new(n, d)`, then `/= other`. */
  method DivAssigned(n: int, d: int, other: Rational) returns (v: Rational)
    requires d != 0 && other.denominator > 0 && other.numerator != 0
    ensures v == Div(New(n, d), other)
  {
    var r := new RationalVar(n, d);
    r.DivAssign(other);
    v := r.Value();
  }

  /** `+=` on the library's three cases. */
  method AddAssignScenario() returns (results: seq<Rational>)
    ensures results == [FromInteger(1), New(5, 6), New(-1, 6)]
  {
    AddExamples();
    var v0 := AddAssigned(3, 4, New(1, 4));
    var v1 := AddAssigned(1, 2, New(1, 3));
    var v2 := AddAssigned(-1, 2, New(1, 3));
    results := [v0, v1, v2];
  }

  /** `-=` on the library's three cases. */
  method SubAssignScenario() returns (results: seq<Rational>)
    ensures results == [New(1, 2), New(1, 6), New(-5, 6)]
  {
    SubExamples();
    var v0 := SubAssigned(3, 4, New(1, 4));
    var v1 := SubAssigned(1, 2, New(1, 3));
    var v2 := SubAssigned(-1, 2, New(1, 3));
    results := [v0, v1, v2];
  }

  /** `*=` on the library's five cases. */
  method MulAssignScenario() returns (results: seq<Rational>)
    ensures results == [New(3, 8), New(5, 8), FromInteger(0), New(-3, 8), New(-5, 8)]
  {
    MulExamples();
    var v0 := MulAssigned(1, 2, New(3, 4));
    var v1 := MulAssigned(3, 4, New(5, 6));
    var v2 := MulAssigned(0, 1, New(1234, 9999));
    var v3 := MulAssigned(-1, 2, New(3, 4));
    var v4 := MulAssigned(-3, 4, New(5, 6));
    results := [v0, v1, v2, v3, v4];
  }

  /** `/=` on the library's five cases. */
  method DivAssignScenario() returns (results: seq<Rational>)
    ensures results == [New(2, 3), New(9, 10), FromInteger(0), New(-2, 3), New(-9, 10)]
  {
    DivExamples();
    var v0 := DivAssigned(1, 2, New(3, 4));
    var v1 := DivAssigned(3, 4, New(5, 6));
    var v2 := DivAssigned(0, 1, New(1234, 9999));
    var v3 := DivAssigned(-1, 2, New(3, 4));
    var v4 := DivAssigned(-3, 4, New(5, 6));
    results := [v0, v1, v2, v3, v4];
  }
}
