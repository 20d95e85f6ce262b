/**
 * Euclid's `gcd`, `lcm` and square-and-multiply `mod_pow`, with the
 * divisibility facts the other modules rely on.
 */
module Modulo {

  /** `d` divides `n`; only 0 is a multiple of 0. */
  predicate Divides(d: nat, n: nat) {
    if d == 0 then n == 0 else n % d == 0
  }

  function Pow(x: int, n: nat): int
    decreases n
  {
    if n == 0 then 1 else x * Pow(x, n - 1)
  }

  /** `d` divides every multiple of itself. */
  lemma DividesMultiple(d: nat, k: int)
    requires d * k >= 0
    ensures Divides(d, d * k)
  {
    if d > 0 {
      MulMod(d, k);
    }
  }

  lemma MulMod(d: nat, k: int)
    requires d > 0
    ensures (d * k) % d == 0 && (d * k) / d == k
  {
    DivModUnique(d * k, d, k, 0);
  }

  /** Euclidean division has one quotient and one remainder. */
  lemma DivModUnique(a: int, d: int, q: int, r: int)
    requires d > 0 && a == q * d + r && 0 <= r < d
    ensures a / d == q && a % d == r
  {
    var q', r' := a / d, a % d;
    assert (q - q') * d == r' - r;
    if q > q' {
      MulAtLeast(q - q', d);
    } else if q < q' {
      MulAtLeast(q' - q, d);
    }
  }

  lemma MulAtLeast(k: int, d: int)
    requires k >= 1 && d > 0
    ensures k * d >= d
  {
    assert k * d == (k - 1) * d + d;
  }

  /** A non-zero divisor of `n` has a cofactor. */
  lemma DivisorWitness(d: nat, n: nat) returns (k: nat)
    requires d > 0 && Divides(d, n)
    ensures n == d * k
  {
    k := n / d;
  }

  /** Euclid's algorithm, as the recursion of `gcd`. */
  function Gcd(a: nat, b: nat): (g: nat)
    ensures g == 0 <==> a == 0 && b == 0
    ensures b == 0 ==> g == a
    decreases b
  {
    if b == 0 then a else Gcd(b, a % b)
  }

  /** A common divisor of `a` and `b` divides `a % b`. */
  lemma CommonDividesMod(d: nat, a: nat, b: nat)
    requires b > 0 && Divides(d, a) && Divides(d, b)
    ensures Divides(d, a % b)
  {
    if d > 0 {
      var i := DivisorWitness(d, a);
      var j := DivisorWitness(d, b);
      var q := a / b;
      assert a % b == a - q * b;
      assert q * (d * j) == d * (q * j);
      assert a % b == d * (i - q * j);
      DividesMultiple(d, i - q * j);
    }
  }

  /** If `d` divides `b` and `a % b`, it divides `a`. */
  lemma DividesFromMod(d: nat, a: nat, b: nat)
    requires b > 0 && Divides(d, b) && Divides(d, a % b)
    ensures Divides(d, a)
  {
    if d > 0 {
      var j := DivisorWitness(d, b);
      var r := DivisorWitness(d, a % b);
      var q := a / b;
      assert a == q * b + a % b;
      assert q * b == q * (d * j) == d * (q * j);
      assert a == d * (q * j + r);
      DividesMultiple(d, q * j + r);
    }
  }

  /** `Gcd(a, b)` divides both `a` and `b`. */
  lemma {:induction false} GcdDivides(a: nat, b: nat)
    ensures Divides(Gcd(a, b), a) && Divides(Gcd(a, b), b)
    decreases b
  {
    if b > 0 {
      GcdDivides(b, a % b);
      DividesFromMod(Gcd(a, b), a, b);
    }
  }

  /** Every common divisor of `a` and `b` divides `Gcd(a, b)`. */
  lemma {:induction false} GcdGreatest(a: nat, b: nat, d: nat)
    requires Divides(d, a) && Divides(d, b)
    ensures Divides(d, Gcd(a, b))
    decreases b
  {
    if b > 0 {
      CommonDividesMod(d, a, b);
      GcdGreatest(b, a % b, d);
    }
  }

  /** Bezout's identity: `Gcd(a, b)` is an integer combination of `a` and `b`. */
  lemma {:induction false} Bezout(a: nat, b: nat) returns (x: int, y: int)
    ensures a * x + b * y == Gcd(a, b)
    decreases b
  {
    if b == 0 {
      x, y := 1, 0;
    } else {
      var x', y' := Bezout(b, a % b);
      var q := a / b;
      assert a % b == a - q * b;
      x, y := y', x' - q * y';
      BezoutAlgebra(a, b, q, x', y');
    }
  }

  lemma BezoutAlgebra(a: int, b: int, q: int, x': int, y': int)
    ensures a * y' + b * (x' - q * y') == b * x' + (a - q * b) * y'
  {
  }

  /** Euclid's lemma, in the form Gauss gave it: when `d` is coprime to
      `a` and divides `a * b`, it divides `b`. */
  lemma Gauss(d: nat, a: nat, b: nat)
    requires Gcd(a, d) == 1 && Divides(d, a * b)
    ensures Divides(d, b)
  {
    var y, x := Bezout(a, d);
    if d > 0 {
      var k := DivisorWitness(d, a * b);
      GaussAlgebra(b, d, x, a, y, k);
      DividesMultiple(d, b * x + k * y);
    }
  }

  lemma GaussAlgebra(b: int, d: int, x: int, a: int, y: int, k: int)
    requires d * x + a * y == 1 && a * b == d * k
    ensures b == d * (b * x + k * y)
  {
    calc {
      b;
      b * (d * x + a * y);
      d * (b * x) + (a * b) * y;
      d * (b * x) + (d * k) * y;
      d * (b * x + k * y);
    }
  }

  /** `a / gcd(a, b) * b`; the division by zero of `gcd(0, 0)` is excluded. */
  function Lcm(a: nat, b: nat): (l: nat)
    requires a != 0 || b != 0
    ensures Divides(a, l) && Divides(b, l)
    ensures a != 0 && b != 0 ==> l > 0
  {
    LcmCommonMultiple(a, b);
    a / Gcd(a, b) * b
  }

  lemma LcmCommonMultiple(a: nat, b: nat)
    requires a != 0 || b != 0
    ensures Divides(a, a / Gcd(a, b) * b) && Divides(b, a / Gcd(a, b) * b)
    ensures a != 0 && b != 0 ==> a / Gcd(a, b) * b > 0
  {
    var g := Gcd(a, b);
    var x, y := a / g, b / g;
    assert a == g * x && b == g * y by {
      GcdParts(a, b);
    }
    LcmAlgebra(a, b, g, x, y);
  }

  lemma LcmAlgebra(a: nat, b: nat, g: nat, x: nat, y: nat)
    requires g > 0 && a == g * x && b == g * y
    ensures Divides(a, x * b) && Divides(b, x * b)
    ensures a != 0 && b != 0 ==> x * b > 0
  {
    Swap(x, g, y);
    DividesMultiple(a, y);
    DividesMultiple(b, x);
    assert b * x == x * b;
    if a != 0 && b != 0 {
      assert x != 0;
      MulAtLeast(x, b);
    }
  }

  lemma Swap(x: int, g: int, y: int)
    ensures x * (g * y) == (g * x) * y
  {
  }

  lemma GcdParts(a: nat, b: nat)
    requires a != 0 || b != 0
    ensures a == Gcd(a, b) * (a / Gcd(a, b)) && b == Gcd(a, b) * (b / Gcd(a, b))
    ensures Gcd(a / Gcd(a, b), b / Gcd(a, b)) == 1
  {
    var g := Gcd(a, b);
    GcdDivides(a, b);
    var a' := DivisorWitness(g, a);
    var b' := DivisorWitness(g, b);
    MulMod(g, a');
    MulMod(g, b');
    CofactorsCoprime(a, b, g, a', b');
  }

  lemma CofactorsCoprime(a: nat, b: nat, g: nat, a': nat, b': nat)
    requires g == Gcd(a, b) && g > 0 && a == g * a' && b == g * b'
    ensures Gcd(a', b') == 1
  {
    var c := Gcd(a', b');
    assert c > 0;
    GcdDivides(a', b');
    var s := DivisorWitness(c, a');
    var t := DivisorWitness(c, b');
    Assoc(g, c, s);
    Assoc(g, c, t);
    DividesMultiple(g * c, s);
    DividesMultiple(g * c, t);
    GcdGreatest(a, b, g * c);
    var k := DivisorWitness(g * c, g);
    Assoc(g, c, k);
    CancelLeft(g, 1, c * k);
    UnitFactor(c, k);
  }

  /** `Lcm(a, b)` divides every common multiple of `a` and `b`. */
  lemma LcmLeast(a: nat, b: nat, m: nat)
    requires a != 0 && b != 0 && Divides(a, m) && Divides(b, m)
    ensures Divides(Lcm(a, b), m)
  {
    var g := Gcd(a, b);
    GcdParts(a, b);
    var a', b' := a / g, b / g;
    var i := DivisorWitness(a, m);
    var j := DivisorWitness(b, m);
    // g * (a' * i) == m == g * (b' * j), so b' divides a' * i and hence i
    Assoc(g, a', i);
    Assoc(g, b', j);
    CancelLeft(g, a' * i, b' * j);
    DividesMultiple(b', j);
    Gauss(b', a', i);
    var t := DivisorWitness(b', i);
    Assoc(a, b', t);
    Swap(a', g, b');
    DividesMultiple(a' * b, t);
  }

  lemma CancelLeft(g: nat, x: int, y: int)
    requires g > 0 && g * x == g * y
    ensures x == y
  {
    MulMod(g, x);
    MulMod(g, y);
  }

  lemma UnitFactor(c: nat, k: nat)
    requires c * k == 1
    ensures c == 1
  {
    if c != 1 {
      assert k != 0;
      MulAtLeast(k, c);
    }
  }

  lemma Assoc(a: int, b: int, c: int)
    ensures (a * b) * c == a * (b * c)
  {
  }

  /** The examples: `gcd(3, 7) = 1`, `gcd(10, 5) = 5`, `lcm(4, 6) = 12`,
      `lcm(14, 21) = 42`. */
  lemma GcdLcmExamples()
    ensures Gcd(3, 7) == 1 && Gcd(10, 5) == 5
    ensures Lcm(4, 6) == 12 && Lcm(14, 21) == 42
  {
  }

  lemma PowAdd(x: int, a: nat, b: nat)
    ensures Pow(x, a + b) == Pow(x, a) * Pow(x, b)
    decreases a
  {
    if a > 0 {
      PowAdd(x, a - 1, b);
    }
  }

  lemma {:induction false} PowSquare(x: int, h: nat)
    ensures Pow(x, 2 * h) == Pow(x * x, h)
    decreases h
  {
    if h > 0 {
      PowSquare(x, h - 1);
      assert Pow(x, 2 * h) == x * (x * Pow(x, 2 * (h - 1)));
    }
  }

  /** Reducing the base first does not change a power's residue. */
  lemma PowMod(x: int, n: nat, m: nat)
    requires m > 0
    ensures Pow(x % m, n) % m == Pow(x, n) % m
    decreases n
  {
    if n > 0 {
      PowMod(x, n - 1, m);
      ModOfMod(x, m);
      MulModBoth(x % m, Pow(x % m, n - 1), x, Pow(x, n - 1), m);
    }
  }

  /** Products of congruent factors are congruent. */
  lemma MulModBoth(a: int, b: int, c: int, d: int, m: nat)
    requires m > 0 && a % m == c % m && b % m == d % m
    ensures (a * b) % m == (c * d) % m
  {
    MulModLeft(a, b, m);
    MulModLeft(c, d, m);
    assert (a % m) * b == b * (a % m);
    MulModLeft(b, a % m, m);
    MulModLeft(d, c % m, m);
    assert (b % m) * (a % m) == (d % m) * (c % m);
  }

  /** `(a * b) % m == ((a % m) * b) % m`. */
  lemma MulModLeft(a: int, b: int, m: nat)
    requires m > 0
    ensures (a * b) % m == ((a % m) * b) % m
  {
    var q := a / m;
    assert a == q * m + a % m;
    assert a * b == (a % m) * b + (q * b) * m;
    ModAddMultiple((a % m) * b, q * b, m);
  }

  lemma ModAddMultiple(x: int, k: int, m: nat)
    requires m > 0
    ensures (x + k * m) % m == x % m
  {
    var q := x / m;
    assert x == q * m + x % m;
    assert x + k * m == (q + k) * m + x % m;
    DivModUnique(x + k * m, m, q + k, x % m);
  }

  /** `mod_pow`: square and multiply. `n == 0` answers 1 without the final
      reduction, so `mod_pow(x, 0, 1)` is 1. */
  method ModPow(x: nat, n: nat, m: nat) returns (res: nat)
    requires m > 0
    ensures res == if n == 0 then 1 else Pow(x, n) % m
  {
    res := 1;
    var b: nat := x % m;
    var e: nat := n;
    PowMod(x, n, m);
    while e > 0
      invariant b < m
      invariant n == 0 ==> res == 1
      invariant n > 0 && e == 0 ==> res < m
      invariant (res * Pow(b, e)) % m == Pow(x, n) % m
      decreases e
    {
      ghost var b0, e0, r0 := b, e, res;
      if e % 2 == 1 {
        res := (res * b) % m;
      }
      b := (b * b) % m;
      e := e / 2;
      SquareStep(r0, b0, e0, m);
    }
    assert Pow(b, e) == 1;
    if n > 0 {
      DivModUnique(res, m, 0, res);
    }
  }

  /** One round of square and multiply keeps `res * b^e` modulo `m`. */
  lemma SquareStep(res: int, b: int, e: nat, m: nat)
    requires m > 0 && e > 0
    ensures var res' := if e % 2 == 1 then (res * b) % m else res;
      (res' * Pow((b * b) % m, e / 2)) % m == (res * Pow(b, e)) % m
  {
    var h := e / 2;
    var p, q := Pow((b * b) % m, h), Pow(b * b, h);
    PowSquare(b, h);
    PowMod(b * b, h, m);
    if e % 2 == 1 {
      assert e == 2 * h + 1;
      PowAdd(b, 2 * h, 1);
      assert Pow(b, 1) == b;
      ModOfMod(res * b, m);
      MulModBoth((res * b) % m, p, res * b, q, m);
      OddStep(res, b, q, Pow(b, e));
    } else {
      assert e == 2 * h;
      MulModBoth(res, p, res, q, m);
    }
  }

  lemma OddStep(res: int, b: int, q: int, pe: int)
    requires pe == q * b
    ensures (res * b) * q == res * pe
  {
  }

  /** `mod_pow(x, i, m)` equals the residue reached by multiplying by `x`
      `i` times and reducing each time, as the example checks for
      `x = 1234`, `m = 1_000_000_007`, `i < 1000`. */
  function IteratedProduct(x: nat, i: nat, m: nat): (t: nat)
    requires m > 0
    ensures i > 0 ==> t < m
    decreases i
  {
    if i == 0 then 1 else IteratedProduct(x, i - 1, m) * x % m
  }

  lemma {:induction false} IteratedProductIsPow(x: nat, i: nat, m: nat)
    requires m > 0
    ensures IteratedProduct(x, i, m) == if i == 0 then 1 else Pow(x, i) % m
    decreases i
  {
    if i > 1 {
      IteratedProductIsPow(x, i - 1, m);
      ModOfMod(Pow(x, i - 1), m);
      MulModBoth(Pow(x, i - 1) % m, x, Pow(x, i - 1), x, m);
      assert Pow(x, i) == Pow(x, i - 1) * x;
    } else if i == 1 {
      assert IteratedProduct(x, 1, m) == x % m;
    }
  }

  lemma ModOfMod(a: int, m: nat)
    requires m > 0
    ensures (a % m) % m == a % m
  {
    DivModUnique(a % m, m, 0, a % m);
  }

  /** The `mod_pow` example: each result matches the running product. */
  method ModPowMatchesProduct(i: nat) returns (r: nat)
    ensures r == IteratedProduct(1234, i, 1_000_000_007)
  {
    r := ModPow(1234, i, 1_000_000_007);
    IteratedProductIsPow(1234, i, 1_000_000_007);
  }
}
