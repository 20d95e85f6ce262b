/**
 * Binomial coefficients modulo `modulo` from precomputed tables:
 * factorials, modular inverses and inverse factorials, each filled in one
 * pass by the constructor, then `Calc(n, k) = n! * (k!)^-1 * ((n - k)!)^-1`.
 *
 * The inverse of `i` is computed from the inverse of `modulo % i`: writing
 * `modulo = (modulo / i) * i + modulo % i`, the inverse of `i` is
 * `-(modulo / i) * inverse(modulo % i)`. This needs every `i` in the
 * table to be invertible, i.e. `modulo` to have no divisor in
 * `[2, maxSize)`; a prime `modulo` above `maxSize` is the usual case.
 */
module Combination {
  import opened Modulo
  import opened Integer

  function Fact(n: nat): nat
    decreases n
  {
    if n == 0 then 1 else n * Fact(n - 1)
  }

  /** Binomial coefficients by Pascal's rule: the number of `k`-subsets of
      an `n`-set. */
  function Binomial(n: nat, k: nat): nat
    decreases n
  {
    if k == 0 then 1
    else if n == 0 then 0
    else Binomial(n - 1, k - 1) + Binomial(n - 1, k)
  }

  /** The factorial table: `fact[0] = fact[1] = 1`, then
      `fact[i] = fact[i - 1] * i % modulo`. */
  function FactTable(m: nat, i: nat): nat
    requires m >= 1
    decreases i
  {
    if i < 2 then 1 else FactTable(m, i - 1) * i % m
  }

  /** The inverse table: `inv[0] = 0`, `inv[1] = 1`, then
      `inv[i] = modulo - inv[modulo % i] * (modulo / i) % modulo`. */
  function InvTable(m: nat, i: nat): nat
    requires m >= 1
    decreases i
  {
    if i == 0 then 0
    else if i == 1 then 1
    else m - InvTable(m, m % i) * (m / i) % m
  }

  /** The inverse-factorial table: `fact_inv[0] = fact_inv[1] = 1`, then
      `fact_inv[i] = fact_inv[i - 1] * inv[i] % modulo`. */
  function FactInvTable(m: nat, i: nat): nat
    requires m >= 1
    decreases i
  {
    if i < 2 then 1 else FactInvTable(m, i - 1) * InvTable(m, i) % m
  }

  /** The factorial table holds the factorials modulo `m`. */
  lemma {:induction false} FactTableIsFactorial(m: nat, i: nat)
    requires m >= 1
    ensures FactTable(m, i) % m == Fact(i) % m
    ensures i >= 2 ==> FactTable(m, i) == Fact(i) % m
    decreases i
  {
    if i >= 2 {
      FactTableIsFactorial(m, i - 1);
      MulModBoth(FactTable(m, i - 1), i, Fact(i - 1), i, m);
      assert Fact(i) == Fact(i - 1) * i;
      ModOfMod(FactTable(m, i - 1) * i, m);
    }
  }

  /** The algebra of one inverse step: if `a * r == 1 (mod m)` where
      `m == q * i + r`, then `(m - a * q % m) * i == 1 (mod m)`. */
  lemma InverseStep(m: int, i: int, q: int, r: int, a: int)
    requires m >= 2 && m == q * i + r && (a * r) % m == 1
    ensures ((m - a * q % m) * i) % m == 1
  {
    var b := a * q % m;
    ExpandDifference(m, b, i);
    ModAddMultiple(b * (-i), i, m);
    MulModLeft(a * q, -i, m);
    NegateQuotient(m, i, q, r, a);
    ModAddMultiple(a * r, -a, m);
  }

  lemma QuotientRemainder(a: int, d: int)
    requires d > 0
    ensures a == (a / d) * d + a % d
  {
  }

  lemma ExpandDifference(m: int, b: int, i: int)
    ensures (m - b) * i == b * (-i) + i * m
  {
  }

  lemma NegateQuotient(m: int, i: int, q: int, r: int, a: int)
    requires m == q * i + r
    ensures (a * q) * (-i) == a * r + (-a) * m
  {
    assert (-a) * m == (-a) * (q * i) + (-a) * r;
  }

  /** Every entry `1 <= i` of the inverse table is the inverse of `i`
      modulo `m`, as long as no number in `[2, i]` divides `m`. */
  lemma {:induction false} InvTableIsInverse(m: nat, i: nat)
    requires m >= 2 && i >= 1 && Rough(m, i + 1)
    ensures (InvTable(m, i) * i) % m == 1
    decreases i
  {
    if i >= 2 {
      var r := m % i;
      assert r != 0;
      RoughWeaken(m, r + 1, i + 1);
      InvTableIsInverse(m, r);
      InvTableStep(m, i);
    }
  }

  lemma InvTableStep(m: nat, i: nat)
    requires m >= 2 && i >= 2 && (InvTable(m, m % i) * (m % i)) % m == 1
    ensures (InvTable(m, i) * i) % m == 1
  {
    var q, r := m / i, m % i;
    QuotientRemainder(m, i);
    InverseStep(m, i, q, r, InvTable(m, r));
  }

  /** Every entry of the inverse-factorial table is the inverse of the
      matching entry of the factorial table. */
  lemma {:induction false} FactInvTableIsInverse(m: nat, i: nat)
    requires m >= 2 && Rough(m, i + 1)
    ensures (FactInvTable(m, i) * FactTable(m, i)) % m == 1
    decreases i
  {
    if i >= 2 {
      RoughWeaken(m, i, i + 1);
      FactInvTableIsInverse(m, i - 1);
      InvTableIsInverse(m, i);
      var fi, f, v := FactInvTable(m, i - 1), FactTable(m, i - 1), InvTable(m, i);
      ModOfMod(fi * v, m);
      ModOfMod(f * i, m);
      MulModBoth(fi * v % m, f * i % m, fi * v, f * i, m);
      Regroup(fi, v, f, i);
      DivModUnique(1, m, 0, 1);
      MulModBoth(fi * f, v * i, 1, 1, m);
    }
  }

  lemma Regroup(a: int, b: int, c: int, d: int)
    ensures (a * b) * (c * d) == (a * c) * (b * d)
  {
  }

  /** Pascal's rule agrees with the factorial formula. */
  lemma {:induction false} BinomialFactorial(n: nat, k: nat)
    requires k <= n
    ensures Binomial(n, k) * Fact(k) * Fact(n - k) == Fact(n)
    decreases n
  {
    if k == 0 {
    } else if k == n {
      BinomialDiagonal(n);
    } else {
      BinomialFactorial(n - 1, k - 1);
      BinomialFactorial(n - 1, k);
      assert Fact(k) == k * Fact(k - 1);
      assert Fact(n - k) == (n - k) * Fact(n - 1 - k);
      PascalAlgebra(Binomial(n - 1, k - 1), Binomial(n - 1, k), k, n - k,
        Fact(k - 1), Fact(n - 1 - k), Fact(n - 1));
    }
  }

  /** Pascal's rule times `k! (n - k)!`, with `j = n - k`. */
  lemma PascalAlgebra(a: int, b: int, k: int, j: int, fk: int, fj: int, f: int)
    requires a * fk * (j * fj) == f && b * (k * fk) * fj == f
    ensures (a + b) * (k * fk) * (j * fj) == (k + j) * f
  {
    assert a * (k * fk) * (j * fj) == k * (a * fk * (j * fj));
    assert b * (k * fk) * (j * fj) == j * (b * (k * fk) * fj);
  }

  lemma {:induction false} BinomialDiagonal(n: nat)
    ensures Binomial(n, n) == 1
    decreases n
  {
    if n > 0 {
      BinomialDiagonal(n - 1);
      BinomialAbove(n - 1, n);
    }
  }

  /** Choosing more elements than there are gives no subset. */
  lemma {:induction false} BinomialAbove(n: nat, k: nat)
    requires n < k
    ensures Binomial(n, k) == 0
    decreases n
  {
    if n > 0 {
      BinomialAbove(n - 1, k - 1);
      BinomialAbove(n - 1, k);
    }
  }

  lemma FactPositive(n: nat)
    ensures Fact(n) >= 1
  {
  }

  /** A value checked against the factorial formula is the binomial
      coefficient. */
  lemma BinomialValue(n: nat, k: nat, v: nat)
    requires k <= n && v * Fact(k) * Fact(n - k) == Fact(n)
    ensures Binomial(n, k) == v
  {
    BinomialFactorial(n, k);
    FactPositive(k);
    FactPositive(n - k);
    var g := Fact(k) * Fact(n - k);
    MulAtLeast(Fact(k), Fact(n - k));
    Assoc(Binomial(n, k), Fact(k), Fact(n - k));
    Assoc(v, Fact(k), Fact(n - k));
    assert g * Binomial(n, k) == g * v;
    CancelLeft(g, Binomial(n, k), v);
  }

  /** A prime modulus above the table size makes every entry invertible. */
  lemma PrimeModulus(m: nat, size: nat)
    requires IsPrime(m) && size <= m
    ensures m >= 2 && Rough(m, size)
  {
    PrimeIsRough(m);
    RoughWeaken(m, size, m);
  }

  /** `k!` times its table inverse is 1 modulo `m`. */
  lemma FactInverse(m: nat, k: nat)
    requires m >= 2 && Rough(m, k + 1)
    ensures (FactInvTable(m, k) * Fact(k)) % m == 1
  {
    FactInvTableIsInverse(m, k);
    FactTableIsFactorial(m, k);
    MulModBoth(FactInvTable(m, k), FactTable(m, k), FactInvTable(m, k), Fact(k), m);
  }

  lemma Regroup3(c: int, a: int, b: int, x: int, y: int)
    ensures (c * a * b) * (x * y) == c * ((x * a) * (y * b))
  {
    assert (c * a * b) * (x * y) == c * ((a * b) * (x * y));
  }

  /** The table formula of `calc` gives `C(n, k)` modulo `m` when no number
      in `[2, size)` divides `m`. */
  lemma CalcIsBinomial(m: nat, size: nat, n: nat, k: nat)
    requires m >= 1 && k <= n < size
    ensures m >= 2 && Rough(m, size) ==>
      (FactTable(m, n) * (FactInvTable(m, k) * FactInvTable(m, n - k) % m)) % m
        == Binomial(n, k) % m
  {
    if m >= 2 && Rough(m, size) {
      RoughWeaken(m, k + 1, size);
      RoughWeaken(m, n - k + 1, size);
      var x, y := FactInvTable(m, k), FactInvTable(m, n - k);
      var c := Binomial(n, k);
      FactTableIsFactorial(m, n);
      ModOfMod(x * y, m);
      MulModBoth(FactTable(m, n), x * y % m, Fact(n), x * y, m);
      BinomialFactorial(n, k);
      Regroup3(c, Fact(k), Fact(n - k), x, y);
      FactInverse(m, k);
      FactInverse(m, n - k);
      DivModUnique(1, m, 0, 1);
      MulModBoth(x * Fact(k), y * Fact(n - k), 1, 1, m);
      MulModBoth(c, (x * Fact(k)) * (y * Fact(n - k)), c, 1, m);
    }
  }

  /** The precomputed tables of `Comb::new`; `calc` reads them. */
  class Comb {
    const maxSize: nat
    const modulo: nat
    const fact: array<nat>
    const factInv: array<nat>
    const inv: array<nat>

    /** Every table has `maxSize` entries and entry `i` is the `i`-th value
        of its recurrence. */
    ghost predicate Valid()
      reads this, fact, factInv, inv
    {
      10 <= maxSize && modulo >= 1
      && fact.Length == maxSize && factInv.Length == maxSize && inv.Length == maxSize
      && Filled(fact[..], factInv[..], inv[..], modulo, maxSize)
    }

    /** The tables for a size raised to at least 10; a size above ten
        million and a zero modulus are refused. */
    constructor(maxSize0: nat, modulo0: nat)
      requires maxSize0 <= 10_000_000 && modulo0 >= 1
      ensures maxSize == (if maxSize0 < 10 then 10 else maxSize0) && modulo == modulo0
      ensures Valid() && fresh(fact) && fresh(factInv) && fresh(inv)
    {
      var size: nat := if maxSize0 < 10 then 10 else maxSize0;
      maxSize, modulo := size, modulo0;
      var f, fi, iv := FillTables(size, modulo0);
      fact, factInv, inv := f, fi, iv;
    }

    /** What the tables mean: factorials modulo `modulo` and, when no
        number in `[2, maxSize)` divides `modulo` (a prime modulus above
        `maxSize`, say), the inverses of `i` and of `i!`. */
    lemma TablesMeaning()
      requires Valid()
      ensures forall i :: 2 <= i < maxSize ==> fact[i] == Fact(i) % modulo
      ensures modulo >= 2 && Rough(modulo, maxSize) ==>
        (forall i :: 1 <= i < maxSize ==> (inv[i] * i) % modulo == 1)
        && (forall i :: 0 <= i < maxSize ==> (factInv[i] * fact[i]) % modulo == 1)
    {
      forall i | 2 <= i < maxSize
        ensures fact[i] == Fact(i) % modulo
      {
        FilledAt(fact[..], factInv[..], inv[..], modulo, maxSize, i);
        FactTableIsFactorial(modulo, i);
      }
      if modulo >= 2 && Rough(modulo, maxSize) {
        forall i | 1 <= i < maxSize
          ensures (inv[i] * i) % modulo == 1
        {
          FilledAt(fact[..], factInv[..], inv[..], modulo, maxSize, i);
          RoughWeaken(modulo, i + 1, maxSize);
          InvTableIsInverse(modulo, i);
        }
        forall i | 0 <= i < maxSize
          ensures (factInv[i] * fact[i]) % modulo == 1
        {
          FilledAt(fact[..], factInv[..], inv[..], modulo, maxSize, i);
          RoughWeaken(modulo, i + 1, maxSize);
          FactInvTableIsInverse(modulo, i);
        }
      }
    }

    /** `C(n, k)` modulo `modulo`, and 0 when `n < k`. An `n` outside the
        tables is refused unless `n < k`. */
    function Calc(n: nat, k: nat): (r: nat)
      reads this, fact, factInv, inv
      requires Valid() && (k <= n ==> n < maxSize)
      ensures n < k ==> r == 0
      ensures modulo >= 2 && Rough(modulo, maxSize) ==> r == Binomial(n, k) % modulo
    {
      if n < k then
        BinomialAbove(n, k);
        0
      else
        FilledAt(fact[..], factInv[..], inv[..], modulo, maxSize, n);
        FilledAt(fact[..], factInv[..], inv[..], modulo, maxSize, k);
        FilledAt(fact[..], factInv[..], inv[..], modulo, maxSize, n - k);
        CalcIsBinomial(modulo, maxSize, n, k);
        fact[n] * (factInv[k] * factInv[n - k] % modulo) % modulo
    }
  }

  /** The first `n` entries of the three tables are right. */
  ghost predicate Filled(fs: seq<nat>, fis: seq<nat>, ivs: seq<nat>, m: nat, n: nat)
    requires m >= 1
  {
    n <= |fs| && n <= |fis| && n <= |ivs|
    && forall j {:trigger fs[j]} :: 0 <= j < n ==>
      fs[j] == FactTable(m, j) && fis[j] == FactInvTable(m, j) && ivs[j] == InvTable(m, j)
  }

  lemma FilledAt(fs: seq<nat>, fis: seq<nat>, ivs: seq<nat>, m: nat, n: nat, j: nat)
    requires m >= 1 && Filled(fs, fis, ivs, m, n) && j < n
    ensures fs[j] == FactTable(m, j) && fis[j] == FactInvTable(m, j) && ivs[j] == InvTable(m, j)
  {
  }

  /** Setting entry `n` of each table to its value extends `Filled`. */
  lemma FilledStep(fs: seq<nat>, fis: seq<nat>, ivs: seq<nat>, m: nat, n: nat,
                   x: nat, y: nat, z: nat)
    requires m >= 1 && Filled(fs, fis, ivs, m, n) && n < |fs| && n < |fis| && n < |ivs|
    requires x == FactTable(m, n) && y == FactInvTable(m, n) && z == InvTable(m, n)
    ensures Filled(fs[n := x], fis[n := y], ivs[n := z], m, n + 1)
  {
    var fs', fis', ivs' := fs[n := x], fis[n := y], ivs[n := z];
    forall j | 0 <= j < n + 1
      ensures fs'[j] == FactTable(m, j) && fis'[j] == FactInvTable(m, j) && ivs'[j] == InvTable(m, j)
    {
      if j < n {
        FilledAt(fs, fis, ivs, m, n, j);
      }
    }
  }

  /** The first two entries, set by hand. */
  lemma FilledStart(fs: seq<nat>, fis: seq<nat>, ivs: seq<nat>, m: nat)
    requires m >= 1 && |fs| >= 2 && |fis| >= 2 && |ivs| >= 2
    requires fs[0] == 1 && fs[1] == 1 && fis[0] == 1 && fis[1] == 1
    requires ivs[0] == 0 && ivs[1] == 1
    ensures Filled(fs, fis, ivs, m, 2)
  {
  }

  /** One step of each recurrence, from the earlier entries it reads. */
  lemma TablesStep(m: nat, i: nat, prevFact: nat, prevFactInv: nat, back: nat)
    requires m >= 1 && i >= 2 && prevFact == FactTable(m, i - 1)
    requires prevFactInv == FactInvTable(m, i - 1) && back == InvTable(m, m % i)
    ensures prevFact * i % m == FactTable(m, i)
    ensures m - back * (m / i) % m == InvTable(m, i)
    ensures prevFactInv * (m - back * (m / i) % m) % m == FactInvTable(m, i)
  {
  }

  /** The loop of `Comb::new`: entries 0 and 1 are set by hand, then each
      entry `i >= 2` of the three tables from earlier entries. */
  method FillTables(size: nat, m: nat) returns (f: array<nat>, fi: array<nat>, iv: array<nat>)
    requires size >= 2 && m >= 1
    ensures fresh(f) && fresh(fi) && fresh(iv)
    ensures f.Length == size && fi.Length == size && iv.Length == size
    ensures Filled(f[..], fi[..], iv[..], m, size)
  {
    f := new nat[size](_ => 0);
    fi := new nat[size](_ => 0);
    iv := new nat[size](_ => 0);
    f[0], f[1] := 1, 1;
    fi[0], fi[1] := 1, 1;
    iv[1] := 1;
    FilledStart(f[..], fi[..], iv[..], m);
    for i := 2 to size
      invariant Filled(f[..], fi[..], iv[..], m, i)
    {
      ghost var fs, fis, ivs := f[..], fi[..], iv[..];
      FilledAt(fs, fis, ivs, m, i, i - 1);
      FilledAt(fs, fis, ivs, m, i, m % i);
      TablesStep(m, i, f[i - 1], fi[i - 1], iv[m % i]);
      var x: nat := f[i - 1] * i % m;
      var z: nat := m - iv[m % i] * (m / i) % m;
      var y: nat := fi[i - 1] * z % m;
      f[i], iv[i], fi[i] := x, z, y;
      assert f[..] == fs[i := x];
      assert fi[..] == fis[i := y];
      assert iv[..] == ivs[i := z];
      FilledStep(fs, fis, ivs, m, i, x, y, z);
    }
  }

  lemma FactorialValues()
    ensures Fact(5) == 120 && Fact(10) == 3628800 && Fact(15) == 1307674368000
    ensures Fact(20) == 2432902008176640000
    ensures Fact(25) == 15511210043330985984000000
    ensures Fact(40) == 815915283247897734345611269596115894272000000000
    ensures Fact(50) == 30414093201713378043612608166064768844377641568960512000000000000
  {
    assert Fact(5) == 120;
    assert Fact(10) == 3628800;
    assert Fact(15) == 1307674368000;
    assert Fact(20) == 2432902008176640000;
    assert Fact(25) == 15511210043330985984000000;
    assert Fact(30) == 265252859812191058636308480000000;
    assert Fact(35) == 10333147966386144929666651337523200000000;
    assert Fact(40) == 815915283247897734345611269596115894272000000000;
    assert Fact(45) == 119622220865480194561963161495657715064383733760000000000;
  }

  /** No number in `[2, k)` divides `x`, checked one candidate at a time. */
  function NoFactorBelow(x: nat, k: nat): bool
    decreases k
  {
    k <= 2 || (x % (k - 1) != 0 && NoFactorBelow(x, k - 1))
  }

  lemma {:induction false} NoFactorBelowRough(x: nat, k: nat)
    requires NoFactorBelow(x, k)
    ensures Rough(x, k)
    decreases k
  {
    if k > 2 {
      NoFactorBelowRough(x, k - 1);
    }
  }

  lemma ModulusRough()
    ensures Rough(1_000_000_007, 51)
  {
    assert NoFactorBelow(1_000_000_007, 11);
    assert NoFactorBelow(1_000_000_007, 21);
    assert NoFactorBelow(1_000_000_007, 31);
    assert NoFactorBelow(1_000_000_007, 41);
    assert NoFactorBelow(1_000_000_007, 51);
    NoFactorBelowRough(1_000_000_007, 51);
  }

  /** `calc` on a coefficient `v` checked against the factorial formula
      returns the residue `r0` of `v`. */
  method CalcCase(comb: Comb, n: nat, k: nat, v: nat, q: nat, r0: nat) returns (r: nat)
    requires comb.Valid() && comb.modulo >= 2 && Rough(comb.modulo, comb.maxSize)
    requires k <= n < comb.maxSize && v == q * comb.modulo + r0 && r0 < comb.modulo
    requires v * Fact(k) * Fact(n - k) == Fact(n)
    ensures r == r0
  {
    r := comb.Calc(n, k);
    BinomialValue(n, k, v);
    DivModUnique(v, comb.modulo, q, r0);
  }

  /** The library's own cases, on tables of 51 entries modulo 10^9 + 7. */
  method CombScenario() returns (a: nat, b: nat, c: nat, d: nat, e: nat, f: nat)
    ensures a == 2 && b == 15504 && c == 15504 && d == 3268760
    ensures e == 272278100 && f == 0
  {
    var comb := new Comb(51, 1_000_000_007);
    ModulusRough();
    FactorialValues();
    a := CalcCase(comb, 2, 1, 2, 0, 2);
    b := CalcCase(comb, 20, 15, 15504, 0, 15504);
    c := CalcCase(comb, 20, 5, 15504, 0, 15504);
    d := CalcCase(comb, 25, 15, 3268760, 0, 3268760);
    e := CalcCase(comb, 50, 10, 10272278170, 10, 272278100);
    f := comb.Calc(10, 9999);
  }
}
