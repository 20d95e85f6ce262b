/**
 * Primes: `lower_primes`, the sieve that lists the primes up to `n`, and
 * `factorize`, trial division by those primes up to the square root.
 *
 * The sieve keeps a deque of candidates in ascending order. Each round
 * removes the multiples of the current prime `p`; the front of what is
 * left is the next prime. Once `p * p` exceeds `n` every candidate left is
 * prime. The floating-point test `p <= sqrt(n)` is modelled by the exact
 * `p * p <= n`, and `sqrt(n) as usize` by the integer square root.
 */
module Integer {
  import opened Modulo

  /** No `d` with `lo <= d < x` divides `x`; computable, so the verifier
      can evaluate it on literals. */
  function NoDivisorFrom(x: nat, lo: nat): bool
    decreases x - lo
  {
    lo >= x || (lo > 0 && x % lo != 0 && NoDivisorFrom(x, lo + 1))
  }

  predicate IsPrime(x: nat) {
    x >= 2 && NoDivisorFrom(x, 2)
  }

  /** `x` has no divisor in `[2, k)`. */
  ghost predicate Rough(x: nat, k: nat) {
    forall d :: 2 <= d < k ==> x % d != 0
  }

  lemma {:induction false} NoDivisorFromRough(x: nat, lo: nat)
    requires 2 <= lo
    ensures NoDivisorFrom(x, lo) <==> forall d :: lo <= d < x ==> x % d != 0
    decreases x - lo
  {
    if lo < x {
      NoDivisorFromRough(x, lo + 1);
    }
  }

  /** A prime is a number `>= 2` with no divisor strictly between 1 and itself. */
  lemma PrimeIsRough(x: nat)
    ensures IsPrime(x) <==> x >= 2 && Rough(x, x)
  {
    NoDivisorFromRough(x, 2);
  }

  /** The least divisor of `x` from `lo` on; `x` itself is one. */
  function LeastDivisor(x: nat, lo: nat): (r: nat)
    requires 2 <= lo <= x
    ensures lo <= r <= x && x % r == 0
    ensures forall d :: lo <= d < r ==> x % d != 0
    decreases x - lo
  {
    if x % lo == 0 then lo else LeastDivisor(x, lo + 1)
  }

  /** Divisibility is transitive. */
  lemma ModTransitive(r: nat, d: nat, x: nat)
    requires r > 0 && d > 0 && d % r == 0 && x % d == 0
    ensures x % r == 0
  {
    var j := DivisorWitness(r, d);
    var k := DivisorWitness(d, x);
    Assoc(r, j, k);
    DividesMultiple(r, j * k);
  }

  /** The least divisor of `x >= 2` is prime. */
  lemma LeastDivisorPrime(x: nat)
    requires x >= 2
    ensures IsPrime(LeastDivisor(x, 2))
  {
    var r := LeastDivisor(x, 2);
    forall d | 2 <= d < r
      ensures r % d != 0
    {
      if r % d == 0 {
        ModTransitive(d, r, x);
      }
    }
    PrimeIsRough(r);
  }

  /** A divisor `r` of `x` with cofactor at least `r` satisfies `r * r <= x`;
      so the least divisor of a number that is not prime is at most its
      square root. */
  lemma LeastDivisorSquare(x: nat)
    requires x >= 2
    ensures !IsPrime(x) ==> LeastDivisor(x, 2) * LeastDivisor(x, 2) <= x
  {
    if !IsPrime(x) {
      LeastDivisorSquareComposite(x);
    }
  }

  lemma LeastDivisorSquareComposite(x: nat)
    requires x >= 2 && !IsPrime(x)
    ensures LeastDivisor(x, 2) * LeastDivisor(x, 2) <= x
  {
    var r := LeastDivisor(x, 2);
    PrimeIsRough(x);
    var k := DivisorWitness(r, x);
    assert r < x;
    CofactorAtLeastTwo(r, k, x);
    DividesMultiple(k, r);
    assert x % k == 0;
    assert k >= r;
    MulMonotone(r, r, k);
  }

  /** A proper divisor's cofactor is at least 2. */
  lemma CofactorAtLeastTwo(r: nat, k: nat, x: nat)
    requires x == r * k && r < x
    ensures k >= 2
  {
    assert r * 0 == 0 && r * 1 == r;
  }

  lemma MulMonotone(r: nat, a: nat, b: nat)
    requires a <= b
    ensures r * a <= r * b
  {
  }

  /** The primes up to `n`, ascending: the reference the sieve is proved
      against. */
  function PrimesUpTo(n: nat): seq<nat>
    decreases n
  {
    if n < 2 then [] else PrimesUpTo(n - 1) + (if IsPrime(n) then [n] else [])
  }

  ghost predicate Ascending(s: seq<nat>) {
    forall i, j :: 0 <= i < j < |s| ==> s[i] < s[j]
  }

  /** `PrimesUpTo(n)` holds exactly the primes `<= n`, each once, ascending. */
  lemma {:induction false} PrimesUpToMembers(n: nat)
    ensures forall x: nat :: x in PrimesUpTo(n) <==> IsPrime(x) && x <= n
    ensures Ascending(PrimesUpTo(n))
    decreases n
  {
    if n >= 2 {
      PrimesUpToMembers(n - 1);
      if IsPrime(n) {
        AscendingSnoc(PrimesUpTo(n - 1), n);
      }
    }
  }

  lemma AscendingSnoc(t: seq<nat>, h: nat)
    requires Ascending(t) && forall x :: x in t ==> x < h
    ensures Ascending(t + [h])
  {
    forall i, j | 0 <= i < j < |t| + 1
      ensures (t + [h])[i] < (t + [h])[j]
    {
      assert t[i] in t;
    }
  }

  /** No prime in `(p, n]`: the list does not grow from `p` to `n`. */
  lemma {:induction false} PrimesUpToNoGap(p: nat, n: nat)
    requires p <= n && forall y: nat :: p < y <= n ==> !IsPrime(y)
    ensures PrimesUpTo(n) == PrimesUpTo(p)
    decreases n - p
  {
    if p < n {
      PrimesUpToNoGap(p, n - 1);
    }
  }

  /** `q` is the first prime after `p`. */
  lemma PrimesUpToNext(p: nat, q: nat)
    requires p < q && IsPrime(q) && forall y: nat :: p < y < q ==> !IsPrime(y)
    ensures PrimesUpTo(q) == PrimesUpTo(p) + [q]
  {
    PrimesUpToNoGap(p, q - 1);
  }

  /** The integers `lo, ..., hi - 1`. */
  function Range(lo: nat, hi: nat): (r: seq<nat>)
    requires lo <= hi
    ensures |r| == hi - lo && forall i :: 0 <= i < |r| ==> r[i] == lo + i
  {
    seq(hi - lo, i requires 0 <= i < hi - lo => lo + i)
  }

  /** `deque.iter().filter(|x| x % p != 0)`: the candidates that `p` does
      not divide, in their order. */
  function Sift(s: seq<nat>, p: nat): (r: seq<nat>)
    requires p > 0
    ensures forall x :: x in r <==> x in s && x % p != 0
    ensures Ascending(s) ==> Ascending(r)
    decreases |s|
  {
    if s == [] then []
    else
      var rest := Sift(s[1..], p);
      AscendingHead(s);
      if s[0] % p != 0 then
        assert Ascending(s) ==> Ascending([s[0]] + rest) by {
          if Ascending(s) {
            AscendingCons(s[0], rest);
          }
        }
        [s[0]] + rest
      else
        rest
  }

  lemma AscendingCons(h: nat, t: seq<nat>)
    requires Ascending(t) && forall x :: x in t ==> h < x
    ensures Ascending([h] + t)
  {
    forall i, j | 0 <= i < j < |t| + 1
      ensures ([h] + t)[i] < ([h] + t)[j]
    {
      assert t[j - 1] in t;
    }
  }

  /** The head of an ascending sequence is below everything after it. */
  lemma AscendingHead(s: seq<nat>)
    requires s != []
    ensures Ascending(s) ==> forall x :: x in s[1..] ==> s[0] < x
  {
    if Ascending(s) {
      forall x | x in s[1..]
        ensures s[0] < x
      {
        var i :| 0 <= i < |s[1..]| && s[1..][i] == x;
        assert s[i + 1] == x;
      }
    }
  }

  /** A number rough up to `k` is rough up to `q` when nothing in
      `[k, q)` is rough up to `k`: the least divisor of a divisor in that
      range would be one. */
  lemma RoughGap(k: nat, q: nat, x: nat)
    requires k <= q && Rough(x, k)
    requires forall y: nat :: k <= y < q ==> !Rough(y, k)
    ensures Rough(x, q)
  {
    forall d | 2 <= d < q
      ensures x % d != 0
    {
      if x % d == 0 && d >= k {
        var r := LeastDivisor(d, 2);
        LeastDivisorPrime(d);
        PrimeIsRough(r);
        ModTransitive(r, d, x);
        assert Rough(r, k);
      }
    }
  }

  /** Removing the multiples of `p` from the candidates rough up to `p`
      leaves those rough up to `p + 1`. */
  lemma SiftRound(p: nat, n: nat, d: seq<nat>)
    requires p >= 2 && Ascending(d)
    requires forall x: nat :: x in d <==> p < x <= n && Rough(x, p)
    ensures Ascending(Sift(d, p))
    ensures forall x: nat :: x in Sift(d, p) <==> p + 1 <= x <= n && Rough(x, p + 1)
  {
  }

  /** Rough up to `k'` implies rough up to any `k <= k'`. */
  lemma RoughWeaken(x: nat, k: nat, k': nat)
    requires k <= k' && Rough(x, k')
    ensures Rough(x, k)
  {
  }

  /** A prime is rough up to any bound not above it. */
  lemma PrimeRoughBelow(y: nat, k: nat)
    requires k <= y
    ensures IsPrime(y) ==> Rough(y, k)
  {
    PrimeIsRough(y);
  }

  /** Every member of an ascending sequence lies at or before `s[i - 1]`
      or at or after `s[i]`. */
  lemma AscendingSplit(s: seq<nat>, i: nat)
    requires Ascending(s) && i <= |s|
    ensures forall y :: y in s ==> (i > 0 && y <= s[i - 1]) || (i < |s| && s[i] <= y)
  {
    forall y | y in s
      ensures (i > 0 && y <= s[i - 1]) || (i < |s| && s[i] <= y)
    {
      var j :| 0 <= j < |s| && s[j] == y;
    }
  }

  /** Nothing below the front of an ascending deque is a member. */
  lemma BelowFront(k: nat, n: nat, d: seq<nat>)
    requires Ascending(d) && d != []
    requires forall x: nat :: x in d <==> k <= x <= n && Rough(x, k)
    ensures forall y: nat :: k <= y < d[0] ==> !Rough(y, k)
  {
    AscendingSplit(d, 0);
    assert d[0] in d;
  }

  /** One round of the sieve: after the multiples of `p` are removed, the
      front of the deque is the next prime after `p`, and the rest is what
      the next round expects. */
  lemma NextPrime(p: nat, n: nat, d: seq<nat>)
    requires p >= 2 && Ascending(d) && d != []
    requires forall x: nat :: x in d <==> p + 1 <= x <= n && Rough(x, p + 1)
    ensures IsPrime(d[0]) && p < d[0] <= n
    ensures PrimesUpTo(d[0]) == PrimesUpTo(p) + [d[0]]
    ensures forall x: nat :: x in d[1..] <==> d[0] < x <= n && Rough(x, d[0])
  {
    var q, k := d[0], p + 1;
    assert q in d;
    BelowFront(k, n, d);
    RoughGap(k, q, q);
    PrimeIsRough(q);
    forall y: nat | p < y < q
      ensures !IsPrime(y)
    {
      PrimeRoughBelow(y, k);
    }
    PrimesUpToNext(p, q);
    DequeTail(k, q, n, d);
  }

  /** The deque without its front holds the candidates above the front
      that are rough up to it. */
  lemma DequeTail(k: nat, q: nat, n: nat, d: seq<nat>)
    requires Ascending(d) && d != [] && q == d[0]
    requires forall x: nat :: x in d <==> k <= x <= n && Rough(x, k)
    requires forall y: nat :: k <= y < q ==> !Rough(y, k)
    ensures forall x: nat :: x in d[1..] <==> q < x <= n && Rough(x, q)
  {
    assert q in d;
    forall x: nat
      ensures x in d[1..] <==> q < x <= n && Rough(x, q)
    {
      if x in d[1..] {
        var j :| 0 <= j < |d[1..]| && d[1..][j] == x;
        assert d[j + 1] == x;
        RoughGap(k, q, x);
      }
      if q < x <= n && Rough(x, q) {
        RoughWeaken(x, k, q);
        assert x in d;
        var j :| 0 <= j < |d| && d[j] == x;
        assert d[1..][j - 1] == x;
      }
    }
  }

  /** When nothing survives the round for `p`, there is no prime in `(p, n]`. */
  lemma NoPrimeLeft(p: nat, n: nat, d: seq<nat>)
    requires p <= n && d == []
    requires forall x: nat :: x in d <==> p + 1 <= x <= n && Rough(x, p + 1)
    ensures PrimesUpTo(n) == PrimesUpTo(p)
  {
    forall y: nat | p < y <= n
      ensures !IsPrime(y)
    {
      PrimeRoughBelow(y, p + 1);
      assert y !in d;
    }
    PrimesUpToNoGap(p, n);
  }

  /** Once `p * p > n`, the survivors are exactly the primes in `(p, n]`:
      a number that is not prime has a divisor no greater than its square
      root, hence below `p`. */
  lemma SurvivorsArePrime(p: nat, n: nat, d: seq<nat>)
    requires 2 <= p && p * p > n
    requires forall x: nat :: x in d <==> p < x <= n && Rough(x, p)
    ensures forall x: nat :: x in d <==> p < x <= n && IsPrime(x)
  {
    forall x: nat
      ensures x in d <==> p < x <= n && IsPrime(x)
    {
      PrimeIsRough(x);
      if x in d && !IsPrime(x) {
        var r := LeastDivisor(x, 2);
        LeastDivisorSquare(x);
        if r >= p {
          MulMonotone(r, p, r);
          MulMonotone(p, p, r);
        }
      }
    }
  }

  /** Between two consecutive survivors (or before the first, after `lo`,
      or after the last, up to `n`) there is no prime. */
  lemma NoPrimeBetween(d: seq<nat>, lo: nat, n: nat, i: nat)
    requires Ascending(d) && i <= |d|
    requires forall x: nat :: x in d <==> lo < x <= n && IsPrime(x)
    ensures forall y: nat ::
      (if i == 0 then lo else d[i - 1]) < y < (if i < |d| then d[i] else n + 1) ==> !IsPrime(y)
  {
    AscendingSplit(d, i);
    if i > 0 {
      assert d[i - 1] in d;
    }
    if i < |d| {
      assert d[i] in d;
    }
  }

  /** The deque after the first pop: `3..=n`, all rough up to 2. */
  lemma InitialDeque(n: nat, d: seq<nat>)
    requires n >= 2 && d == Range(2, n + 1)[1..]
    ensures IsPrime(2) && PrimesUpTo(2) == [2]
    ensures Ascending(d)
    ensures forall x: nat :: x in d <==> 2 < x <= n && Rough(x, 2)
  {
    forall x: nat | 2 < x <= n
      ensures x in d
    {
      assert d[x - 3] == x;
    }
  }

  /** `lower_primes`: the primes up to `n`, ascending. */
  method LowerPrimes(n: nat) returns (v: seq<nat>)
    ensures v == PrimesUpTo(n)
    ensures forall x: nat :: x in v <==> IsPrime(x) && x <= n
    ensures Ascending(v)
  {
    PrimesUpToMembers(n);
    v := [];
    if n < 2 {
      return;
    }
    var deque := Range(2, n + 1);
    var p := deque[0];
    deque := deque[1..];
    v := v + [p];
    InitialDeque(n, deque);
    while p * p <= n
      invariant 2 <= p <= n && IsPrime(p)
      invariant v == PrimesUpTo(p)
      invariant Ascending(deque)
      invariant forall x: nat :: x in deque <==> p < x <= n && Rough(x, p)
      decreases n - p
    {
      SiftRound(p, n, deque);
      deque := Sift(deque, p);
      if |deque| == 0 {
        NoPrimeLeft(p, n, deque);
        return;
      }
      NextPrime(p, n, deque);
      p := deque[0];
      deque := deque[1..];
      v := v + [p];
    }
    SurvivorsArePrime(p, n, deque);
    v := PushAll(v, p, n, deque);
  }

  /** The closing `for n in deque { v.push(n) }` of `lower_primes`: once
      the survivors are the primes in `(p, n]`, appending them completes
      the list. */
  method PushAll(v: seq<nat>, p: nat, n: nat, deque: seq<nat>) returns (v': seq<nat>)
    requires v == PrimesUpTo(p) && p <= n && Ascending(deque)
    requires forall x: nat :: x in deque <==> p < x <= n && IsPrime(x)
    ensures v' == PrimesUpTo(n)
  {
    v' := v;
    for i := 0 to |deque|
      invariant v' == PrimesUpTo(if i == 0 then p else deque[i - 1])
    {
      NoPrimeBetween(deque, p, n, i);
      ghost var last := if i == 0 then p else deque[i - 1];
      assert deque[i] in deque;
      PrimesUpToNext(last, deque[i]);
      v' := v' + [deque[i]];
    }
    NoPrimeBetween(deque, p, n, |deque|);
    ghost var last := if |deque| == 0 then p else deque[|deque| - 1];
    if |deque| > 0 {
      assert last in deque;
    }
    PrimesUpToNoGap(last, n);
  }

  /** `lower_primes` on the inputs of its examples. */
  method LowerPrimesScenario() returns (upTo10: seq<nat>, upTo15: seq<nat>, upTo1: seq<nat>, upTo2: seq<nat>)
    ensures upTo10 == [2, 3, 5, 7]
    ensures upTo15 == [2, 3, 5, 7, 11, 13]
    ensures upTo1 == [] && upTo2 == [2]
  {
    upTo10 := LowerPrimes(10);
    upTo15 := LowerPrimes(15);
    upTo1 := LowerPrimes(1);
    upTo2 := LowerPrimes(2);
    PrimesUpTo10();
    PrimesUpTo15();
  }

  lemma PrimesUpTo10()
    ensures PrimesUpTo(10) == [2, 3, 5, 7]
    ensures PrimesUpTo(1) == [] && PrimesUpTo(2) == [2]
  {
    assert PrimesUpTo(5) == [2, 3, 5];
  }

  lemma PrimesUpTo15()
    ensures PrimesUpTo(15) == [2, 3, 5, 7, 11, 13]
  {
    PrimesUpTo10();
    assert IsPrime(11) && !IsPrime(12) && IsPrime(13) && !IsPrime(14) && !IsPrime(15);
    assert PrimesUpTo(11) == PrimesUpTo(10) + [11];
    assert PrimesUpTo(13) == PrimesUpTo(11) + [13];
  }

  /** The integer square root, `(n as f64).sqrt() as usize` without rounding. */
  function ISqrt(n: nat): (r: nat)
    ensures r * r <= n < (r + 1) * (r + 1)
    decreases n
  {
    if n == 0 then 0
    else
      var r := ISqrt(n - 1);
      SquareStep(r);
      if (r + 1) * (r + 1) <= n then r + 1 else r
  }

  lemma SquareStep(r: nat)
    ensures (r + 1) * (r + 1) == r * r + 2 * r + 1
    ensures (r + 2) * (r + 2) == (r + 1) * (r + 1) + 2 * r + 3
  {
  }

  /** Above the integer square root of `n`, squares exceed `n`. */
  lemma AboveSquareRoot(r: nat, n: nat)
    requires r > ISqrt(n)
    ensures r * r > n
  {
    var s := ISqrt(n);
    MulMonotone(r, s + 1, r);
    MulMonotone(s + 1, s + 1, r);
  }

  /** The product of a list of factors. */
  function Product(s: seq<nat>): nat
    decreases |s|
  {
    if s == [] then 1 else Product(s[..|s| - 1]) * s[|s| - 1]
  }

  /** The multiplicity of each factor, as the map `factorize` returns. */
  function Counts(s: seq<nat>): map<nat, nat> {
    map x | x in multiset(s) :: multiset(s)[x]
  }

  ghost predicate AllPrime(s: seq<nat>) {
    forall i :: 0 <= i < |s| ==> IsPrime(s[i])
  }

  ghost predicate NonDecreasing(s: seq<nat>) {
    forall i, j :: 0 <= i <= j < |s| ==> s[i] <= s[j]
  }

  /** Appending a factor multiplies the product and bumps one count, as
      `*ret.entry(p).or_insert(0) += 1` does. */
  lemma AppendFactor(s: seq<nat>, x: nat)
    ensures Product(s + [x]) == Product(s) * x
    ensures Counts(s + [x]) == Counts(s)[x := (if x in Counts(s) then Counts(s)[x] else 0) + 1]
  {
    assert (s + [x])[..|s|] == s;
    assert multiset(s + [x]) == multiset(s) + multiset{x};
  }

  /** Appending a prime no smaller than the last factor keeps the list
      prime and non-decreasing. */
  lemma FactorsSnoc(s: seq<nat>, x: nat)
    requires AllPrime(s) && NonDecreasing(s) && IsPrime(x)
    requires |s| > 0 ==> s[|s| - 1] <= x
    ensures AllPrime(s + [x]) && NonDecreasing(s + [x])
  {
    forall i, j | 0 <= i <= j < |s| + 1
      ensures (s + [x])[i] <= (s + [x])[j]
    {
      if j == |s| && i < |s| {
        assert s[i] <= s[|s| - 1];
      }
    }
  }

  /** Dividing out a factor keeps non-divisibility by another number. */
  lemma QuotientKeepsIndivisible(t: nat, p: nat, q: nat)
    requires p > 0 && q > 0 && t % p == 0
    ensures t % q != 0 ==> (t / p) % q != 0
  {
    var k := DivisorWitness(p, t);
    MulMod(p, k);
    if (t / p) % q == 0 {
      var j := DivisorWitness(q, k);
      Assoc(q, j, p);
      assert t == q * (j * p);
      DividesMultiple(q, j * p);
    }
  }

  /** The state of trial division: `tmp` times the product of the factors
      divided out so far is `n`; `ret` counts those factors, which are
      primes in non-decreasing order, none above `bound`; and no prime
      already tried divides `tmp`. */
  ghost predicate Trial(n: nat, tmp: nat, factors: seq<nat>, ret: map<nat, nat>, bound: nat, tried: seq<nat>) {
    && tmp >= 1 && Product(factors) * tmp == n
    && ret == Counts(factors)
    && AllPrime(factors) && NonDecreasing(factors)
    && (|factors| > 0 ==> factors[|factors| - 1] <= bound)
    && forall q: nat :: q in tried && q > 0 ==> tmp % q != 0
  }

  /** One division of the trial loop keeps the state, with `p` as the new
      bound, and makes `tmp` smaller. */
  lemma DivideOut(n: nat, tmp: nat, factors: seq<nat>, ret: map<nat, nat>, bound: nat, tried: seq<nat>, p: nat)
    requires Trial(n, tmp, factors, ret, bound, tried)
    requires IsPrime(p) && bound <= p && tmp % p == 0
    ensures Trial(n, tmp / p, factors + [p], ret[p := (if p in ret then ret[p] else 0) + 1], p, tried)
    ensures tmp / p < tmp
  {
    AppendFactor(factors, p);
    FactorsSnoc(factors, p);
    QuotientStep(Product(factors), p, tmp, n);
    forall q: nat | q in tried && q > 0
      ensures (tmp / p) % q != 0
    {
      QuotientKeepsIndivisible(tmp, p, q);
    }
  }

  /** Moving a factor `p` of `tmp` into the product keeps the product
      at `n` and makes what is left smaller. */
  lemma QuotientStep(pf: nat, p: nat, tmp: nat, n: nat)
    requires p >= 2 && tmp >= 1 && tmp % p == 0 && pf * tmp == n
    ensures 1 <= tmp / p < tmp && (pf * p) * (tmp / p) == n
  {
    var k := DivisorWitness(p, tmp);
    MulMod(p, k);
    Assoc(pf, p, k);
    QuotientSmaller(p, k);
  }

  lemma QuotientSmaller(p: nat, k: nat)
    requires p >= 2
    ensures k > 0 ==> k < p * k
  {
    if k > 0 {
      MulAtLeast(p - 1, k);
      assert p * k == (p - 1) * k + k;
    }
  }

  /** Once `p` no longer divides `tmp`, it joins the primes tried. */
  lemma DoneWith(n: nat, tmp: nat, factors: seq<nat>, ret: map<nat, nat>, tried: seq<nat>, p: nat)
    requires p > 0 && Trial(n, tmp, factors, ret, p, tried) && tmp % p != 0
    ensures Trial(n, tmp, factors, ret, p, tried + [p])
  {
  }

  /** A larger bound is still a bound. */
  lemma RaiseBound(n: nat, tmp: nat, factors: seq<nat>, ret: map<nat, nat>, bound: nat, tried: seq<nat>, bound': nat)
    requires Trial(n, tmp, factors, ret, bound, tried) && bound <= bound'
    ensures Trial(n, tmp, factors, ret, bound', tried)
  {
  }

  /** What trial division leaves behind, when it exceeds 1, is a prime
      above the square root: its least divisor is not in the list of
      primes up to the square root, so it is too large to be a proper
      divisor. */
  lemma LeftoverPrime(n: nat, tmp: nat, pf: nat, primes: seq<nat>)
    requires tmp >= 2 && pf >= 1 && pf * tmp == n
    requires forall x: nat :: x in primes <==> IsPrime(x) && x <= ISqrt(n)
    requires forall q: nat :: q in primes && q > 0 ==> tmp % q != 0
    ensures IsPrime(tmp) && tmp > ISqrt(n)
  {
    MulMonotone(tmp, 1, pf);
    var r := LeastDivisor(tmp, 2);
    LeastDivisorPrime(tmp);
    assert r !in primes;
    AboveSquareRoot(r, n);
    LeastDivisorSquare(tmp);
    assert tmp % tmp == 0;
    assert tmp !in primes;
  }

  /** With nothing left over, the factors divided out are the whole
      factorization. */
  lemma TrialComplete(n: nat, tmp: nat, factors: seq<nat>, ret: map<nat, nat>, bound: nat, tried: seq<nat>)
    requires Trial(n, tmp, factors, ret, bound, tried) && tmp <= 1
    ensures AllPrime(factors) && NonDecreasing(factors) && Product(factors) == n && ret == Counts(factors)
  {
  }

  /** Recording the leftover completes the factorization. */
  lemma RecordLeftover(n: nat, tmp: nat, factors: seq<nat>, ret: map<nat, nat>, primes: seq<nat>)
    requires primes != [] ==> primes[|primes| - 1] in primes
    requires Trial(n, tmp, factors, ret, if primes == [] then 0 else primes[|primes| - 1], primes)
    requires forall x: nat :: x in primes <==> IsPrime(x) && x <= ISqrt(n)
    requires tmp > 1
    ensures var f := factors + [tmp];
      && AllPrime(f) && NonDecreasing(f) && Product(f) == n
      && Counts(f) == ret[tmp := (if tmp in ret then ret[tmp] else 0) + 1]
  {
    ProductPositive(factors);
    LeftoverPrime(n, tmp, Product(factors), primes);
    AppendFactor(factors, tmp);
    FactorsSnoc(factors, tmp);
  }

  lemma {:induction false} ProductPositive(s: seq<nat>)
    requires AllPrime(s)
    ensures Product(s) >= 1
    decreases |s|
  {
    if s != [] {
      ProductPositive(s[..|s| - 1]);
      MulAtLeast(Product(s[..|s| - 1]), s[|s| - 1]);
    }
  }

  /** The inner loop of `factorize`: divides `tmp` by `prime` while it can,
      counting each division. */
  method DivideOutAll(prime: nat, tmp: nat, ret: map<nat, nat>, ghost n: nat, ghost factors: seq<nat>, ghost tried: seq<nat>)
    returns (tmp': nat, ret': map<nat, nat>, ghost factors': seq<nat>)
    requires IsPrime(prime) && Trial(n, tmp, factors, ret, prime, tried)
    ensures Trial(n, tmp', factors', ret', prime, tried + [prime])
    ensures 1 <= tmp' <= tmp && tmp' % prime != 0
    ensures forall q :: q != prime ==> (q in ret' <==> q in ret)
    ensures forall q :: q in ret && q != prime ==> ret'[q] == ret[q]
  {
    tmp', ret', factors' := tmp, ret, factors;
    while tmp' % prime == 0
      invariant Trial(n, tmp', factors', ret', prime, tried)
      invariant tmp' <= tmp
      invariant forall q :: q != prime ==> (q in ret' <==> q in ret)
      invariant forall q :: q in ret && q != prime ==> ret'[q] == ret[q]
      decreases tmp'
    {
      DivideOut(n, tmp', factors', ret', prime, tried, prime);
      tmp' := tmp' / prime;
      ret' := ret'[prime := (if prime in ret' then ret'[prime] else 0) + 1];
      factors' := factors' + [prime];
    }
    DoneWith(n, tmp', factors', ret', tried, prime);
  }

  /** The outer loop of `factorize`: divides `n` by each prime of
      `primes` in turn, as often as it can. */
  method DivideByAll(n: nat, primes: seq<nat>) returns (tmp: nat, ret: map<nat, nat>, ghost factors: seq<nat>)
    requires Ascending(primes) && forall x: nat :: x in primes <==> IsPrime(x) && x <= ISqrt(n)
    ensures n >= 1 ==> Trial(n, tmp, factors, ret, if primes == [] then 0 else primes[|primes| - 1], primes)
    ensures primes == [] ==> tmp == n && factors == [] && ret == map[]
    ensures n == 0 ==> primes == []
    ensures n >= 1 ==> 1 <= tmp <= n
    ensures n >= 1 ==> forall q :: q in primes ==> q >= 2 && tmp % q != 0
  {
    if primes != [] {
      assert primes[0] in primes;
    }
    ret := map[];
    factors := [];
    tmp := n;
    assert primes[..|primes|] == primes;
    for i := 0 to |primes|
      invariant n >= 1 ==> Trial(n, tmp, factors, ret, if i == 0 then 0 else primes[i - 1], primes[..i])
      invariant i == 0 ==> tmp == n && factors == [] && ret == map[]
      invariant tmp <= n
    {
      var prime := primes[i];
      assert prime in primes;
      if i > 0 {
        assert primes[i - 1] < prime;
      }
      RaiseBound(n, tmp, factors, ret, if i == 0 then 0 else primes[i - 1], primes[..i], prime);
      tmp, ret, factors := DivideOutAll(prime, tmp, ret, n, factors, primes[..i]);
      assert primes[..i + 1] == primes[..i] + [prime];
    }
  }

  /** `factorize`: trial division by the primes up to the square root of
      `n`, then whatever is left above 1 is a prime of its own. The ghost
      `factors` lists the primes divided out, in order; `ret` counts them. */
  method Factorize(n: nat) returns (ret: map<nat, nat>, ghost factors: seq<nat>)
    ensures AllPrime(factors) && NonDecreasing(factors)
    ensures n >= 1 ==> Product(factors) == n
    ensures ret == Counts(factors)
    ensures n <= 1 ==> ret == map[]
  {
    var primes := LowerPrimes(ISqrt(n));
    if n == 1 {
      assert primes == [];
    }
    var tmp;
    tmp, ret, factors := DivideByAll(n, primes);
    if tmp > 1 {
      if primes != [] {
        assert primes[|primes| - 1] in primes;
      }
      RecordLeftover(n, tmp, factors, ret, primes);
      ret := ret[tmp := (if tmp in ret then ret[tmp] else 0) + 1];
      factors := factors + [tmp];
    } else if n >= 1 {
      TrialComplete(n, tmp, factors, ret, if primes == [] then 0 else primes[|primes| - 1], primes);
    }
  }

  /** The only divisors of a prime are 1 and itself. */
  lemma DivisorOfPrime(p: nat, g: nat)
    requires IsPrime(p) && g > 0 && p % g == 0
    ensures g == 1 || g == p
  {
    PrimeIsRough(p);
    var k := DivisorWitness(g, p);
    MulAtLeast(k, g);
  }

  /** Two different primes are coprime. */
  lemma DistinctPrimesCoprime(x: nat, p: nat)
    requires IsPrime(x) && IsPrime(p) && x != p
    ensures Gcd(x, p) == 1
  {
    GcdDivides(x, p);
    DivisorOfPrime(x, Gcd(x, p));
    DivisorOfPrime(p, Gcd(x, p));
  }

  /** Euclid's lemma for a product of primes: a prime dividing it is one
      of them. */
  lemma {:induction false} PrimeDividesProduct(p: nat, s: seq<nat>)
    requires IsPrime(p) && AllPrime(s) && Product(s) % p == 0
    ensures p in s
    decreases |s|
  {
    if s != [] {
      var init, x := s[..|s| - 1], s[|s| - 1];
      assert s == init + [x];
      if x == p {
        assert s[|s| - 1] in s;
      } else {
        DistinctPrimesCoprime(x, p);
        assert x * Product(init) == Product(s);
        Gauss(p, x, Product(init));
        PrimeDividesProduct(p, init);
      }
    }
  }

  lemma ProductAtLeastTwo(s: seq<nat>)
    requires AllPrime(s) && s != []
    ensures Product(s) >= 2
  {
    ProductPositive(s[..|s| - 1]);
    MulAtLeast(Product(s[..|s| - 1]), s[|s| - 1]);
  }

  /** The fundamental theorem of arithmetic, uniqueness half: two
      non-decreasing lists of primes with the same product are equal. */
  lemma {:induction false} FactorizationUnique(s: seq<nat>, t: seq<nat>)
    requires AllPrime(s) && AllPrime(t) && NonDecreasing(s) && NonDecreasing(t)
    requires Product(s) == Product(t)
    ensures s == t
    decreases |s| + |t|
  {
    if s == [] || t == [] {
      if s != [] {
        ProductAtLeastTwo(s);
      }
      if t != [] {
        ProductAtLeastTwo(t);
      }
    } else {
      LastFactorsMatch(s, t);
      DropLastFactor(s);
      DropLastFactor(t);
      FactorizationUnique(s[..|s| - 1], t[..|t| - 1]);
    }
  }

  /** Dropping the last factor keeps a list prime and non-decreasing. */
  lemma DropLastFactor(s: seq<nat>)
    requires AllPrime(s) && NonDecreasing(s) && s != []
    ensures AllPrime(s[..|s| - 1]) && NonDecreasing(s[..|s| - 1])
    ensures s == s[..|s| - 1] + [s[|s| - 1]]
  {
  }

  /** Two non-decreasing prime lists with the same product end in the
      same prime, and what precedes it has the same product. */
  lemma LastFactorsMatch(s: seq<nat>, t: seq<nat>)
    requires AllPrime(s) && AllPrime(t) && NonDecreasing(s) && NonDecreasing(t)
    requires Product(s) == Product(t) && s != [] && t != []
    ensures s[|s| - 1] == t[|t| - 1] && Product(s[..|s| - 1]) == Product(t[..|t| - 1])
  {
    var a, b := s[|s| - 1], t[|t| - 1];
    LastDividesProduct(s);
    LastDividesProduct(t);
    PrimeDividesProduct(a, t);
    PrimeDividesProduct(b, s);
    MemberBelowLast(t, a);
    MemberBelowLast(s, b);
    CancelLeft(a, Product(s[..|s| - 1]), Product(t[..|t| - 1]));
  }

  /** The last factor of a non-empty prime list divides its product. */
  lemma LastDividesProduct(s: seq<nat>)
    requires AllPrime(s) && s != []
    ensures IsPrime(s[|s| - 1]) && Product(s) == s[|s| - 1] * Product(s[..|s| - 1])
    ensures Product(s) % s[|s| - 1] == 0
  {
    var x, p := s[|s| - 1], Product(s[..|s| - 1]);
    assert IsPrime(x);
    assert Product(s) == p * x;
    Commute(p, x);
    DividesMultiple(x, p);
  }

  lemma Commute(x: int, y: int)
    ensures x * y == y * x
  {
  }

  /** In a non-decreasing list, every member is at most the last. */
  lemma MemberBelowLast(s: seq<nat>, x: nat)
    requires NonDecreasing(s) && x in s
    ensures x <= s[|s| - 1]
  {
    var i :| 0 <= i < |s| && s[i] == x;
  }

  /** `[2, 5]` is a factorization of 10 with counts `{2: 1, 5: 1}`. */
  lemma Factors10()
    ensures AllPrime([2, 5]) && NonDecreasing([2, 5]) && Product([2, 5]) == 10
    ensures Counts([2, 5]) == map[2 := 1, 5 := 1]
  {
    assert IsPrime(2) && IsPrime(5);
    CountsTwo(2, 5);
  }

  /** `[2, 2, 3]` is a factorization of 12 with counts `{2: 2, 3: 1}`. */
  lemma Factors12()
    ensures AllPrime([2, 2, 3]) && NonDecreasing([2, 2, 3]) && Product([2, 2, 3]) == 12
    ensures Counts([2, 2, 3]) == map[2 := 2, 3 := 1]
  {
    assert IsPrime(2) && IsPrime(3);
    assert [2, 2, 3][..2] == [2, 2] && [2, 2][..1] == [2];
    CountsSquare(2, 3);
  }

  /** `[3, 11, 61]` is a factorization of 2013. */
  lemma Factors2013()
    ensures AllPrime([3, 11, 61]) && NonDecreasing([3, 11, 61]) && Product([3, 11, 61]) == 2013
    ensures Counts([3, 11, 61]) == map[3 := 1, 11 := 1, 61 := 1]
  {
    assert IsPrime(3) && IsPrime(11);
    Prime61();
    assert [3, 11, 61][..2] == [3, 11] && [3, 11][..1] == [3];
    CountsThree(3, 11, 61);
  }

  lemma CountsTwo(a: nat, b: nat)
    requires a != b
    ensures Counts([a, b]) == map[a := 1, b := 1]
  {
    var m := multiset([a, b]);
    assert m == multiset{a, b};
    assert Counts([a, b]).Keys == {a, b};
  }

  lemma CountsSquare(a: nat, b: nat)
    requires a != b
    ensures Counts([a, a, b]) == map[a := 2, b := 1]
  {
    var m := multiset([a, a, b]);
    assert m == multiset{a, a, b};
    assert m[a] == 2 && m[b] == 1;
    assert Counts([a, a, b]).Keys == {a, b};
  }

  lemma CountsThree(a: nat, b: nat, c: nat)
    requires a != b && b != c && a != c
    ensures Counts([a, b, c]) == map[a := 1, b := 1, c := 1]
  {
    var m := multiset([a, b, c]);
    assert m == multiset{a, b, c};
    assert m[a] == 1 && m[b] == 1 && m[c] == 1;
    assert Counts([a, b, c]).Keys == {a, b, c};
  }

  lemma Prime61()
    ensures IsPrime(61)
  {
    assert NoDivisorFrom(61, 55);
    assert NoDivisorFrom(61, 50);
    assert NoDivisorFrom(61, 45);
    assert NoDivisorFrom(61, 40);
    assert NoDivisorFrom(61, 35);
    assert NoDivisorFrom(61, 30);
    assert NoDivisorFrom(61, 25);
    assert NoDivisorFrom(61, 20);
    assert NoDivisorFrom(61, 15);
    assert NoDivisorFrom(61, 10);
    assert NoDivisorFrom(61, 5);
  }

  /** `factorize` on the inputs of its examples: 10, 12, 2013, 1 and 0. */
  method FactorizeScenario() returns (r10: map<nat, nat>, r12: map<nat, nat>, r2013: map<nat, nat>, r1: map<nat, nat>, r0: map<nat, nat>)
    ensures r10 == map[2 := 1, 5 := 1]
    ensures r12 == map[2 := 2, 3 := 1]
    ensures r2013 == map[3 := 1, 11 := 1, 61 := 1]
    ensures r1 == map[] && r0 == map[]
  {
    ghost var f;
    r10, f := Factorize(10);
    Factors10();
    FactorizationUnique(f, [2, 5]);
    r12, f := Factorize(12);
    Factors12();
    FactorizationUnique(f, [2, 2, 3]);
    r2013, f := Factorize(2013);
    Factors2013();
    FactorizationUnique(f, [3, 11, 61]);
    r1, f := Factorize(1);
    r0, f := Factorize(0);
  }

  /** `factorize` of a prime is that prime once, as for 99991: trial
      division finds nothing and the leftover is recorded. */
  method FactorizePrime(n: nat) returns (ret: map<nat, nat>)
    requires IsPrime(n)
    ensures ret == map[n := 1]
  {
    ghost var f;
    ret, f := Factorize(n);
    FactorizationUnique(f, [n]);
    assert multiset([n]) == multiset{n};
  }
}
