/**
 * Polynomial rolling hash of a character string under several
 * (base, modulus) pairs at once.
 *
 * For each pair a prefix table holds, at position `i`, the hash of the
 * first `i` characters and `base^i`, both reduced modulo the modulus; the
 * hash of any substring then follows from two prefix entries and one
 * power.
 */
module RollingHash {
  import opened Modulo

  /** The code of a character, as `c as u64` reads it. */
  function Code(c: char): nat {
    c as int
  }

  /** The unreduced polynomial hash: each character is added and the sum
      multiplied by `base`, so `s` hashes to
      `s[0]*base^|s| + s[1]*base^(|s|-1) + ... + s[|s|-1]*base`. */
  function Poly(s: seq<char>, base: nat): nat
    decreases |s|
  {
    if s == [] then 0 else (Poly(s[..|s| - 1], base) + Code(s[|s| - 1])) * base
  }

  /** One entry of a prefix table. */
  datatype Inner = Inner(hash: nat, power: nat)

  /** The prefix table for one pair: entry 0 is `(0, 1)` and each further
      entry folds in one more character. */
  function PrefixTable(target: seq<char>, base: nat, m: nat): (t: seq<Inner>)
    requires m >= 1
    ensures |t| == |target| + 1 && t[0] == Inner(0, 1)
    decreases |target|
  {
    if target == [] then [Inner(0, 1)]
    else
      var t := PrefixTable(target[..|target| - 1], base, m);
      var last := t[|t| - 1];
      t + [Inner((last.hash + Code(target[|target| - 1])) * base % m, last.power * base % m)]
  }

  /** The hash of `[left, right)` from one prefix table: the hash up to
      `right`, less the hash up to `left` shifted by `right - left` places. */
  function RangeHash(hp: seq<Inner>, m: nat, left: nat, right: nat): (v: nat)
    requires m >= 1 && left <= right < |hp|
    ensures v < m
  {
    (hp[right].hash + m - hp[left].hash * hp[right - left].power % m) % m
  }

  /** The hasher: one `(modulus, prefix table)` pair per (base, modulus). */
  datatype Hasher = Hasher(hashPowList: seq<(nat, seq<Inner>)>) {

    /** Every table reaches position `right` and has a non-zero modulus. */
    predicate Covers(right: nat) {
      forall j :: 0 <= j < |hashPowList| ==>
        hashPowList[j].0 >= 1 && right < |hashPowList[j].1|
    }

    /** The hash of positions `[left, right)`, one value per modulus. */
    function Get(left: nat, right: nat): (v: seq<nat>)
      requires left <= right && Covers(right)
      ensures |v| == |hashPowList|
      ensures forall j :: 0 <= j < |v| ==> v[j] < hashPowList[j].0
    {
      seq(|hashPowList|, j requires 0 <= j < |hashPowList| =>
        RangeHash(hashPowList[j].1, hashPowList[j].0, left, right))
    }

    /** Whether two ranges hash alike under every modulus; a range always
        compares equal to itself. */
    function Equal(left1: nat, right1: nat, left2: nat, right2: nat): (e: bool)
      requires left1 <= right1 && Covers(right1) && left2 <= right2 && Covers(right2)
      ensures e <==> forall j :: 0 <= j < |hashPowList| ==> Get(left1, right1)[j] == Get(left2, right2)[j]
      ensures left1 == left2 && right1 == right2 ==> e
    {
      Get(left1, right1) == Get(left2, right2)
    }
  }

  /** Every modulus of a list of (base, modulus) pairs is non-zero. */
  predicate Moduli(baseMod: seq<(nat, nat)>) {
    forall j :: 0 <= j < |baseMod| ==> baseMod[j].1 >= 1
  }

  /** `h` holds, for each pair of `baseMod` in order, its modulus and the
      prefix table of `target`. */
  ghost predicate Built(h: Hasher, target: seq<char>, baseMod: seq<(nat, nat)>)
    requires Moduli(baseMod)
  {
    |h.hashPowList| == |baseMod|
    && forall j :: 0 <= j < |baseMod| ==>
      h.hashPowList[j] == (baseMod[j].1, PrefixTable(target, baseMod[j].0, baseMod[j].1))
  }

  /** The table-building loop of `with_base_mod` for one pair. */
  method BuildTable(target: seq<char>, base: nat, modulo: nat) returns (hp: seq<Inner>)
    requires modulo >= 1
    ensures hp == PrefixTable(target, base, modulo)
  {
    hp := [Inner(0, 1)];
    for i := 0 to |target|
      invariant hp == PrefixTable(target[..i], base, modulo)
    {
      assert target[..i + 1][..i] == target[..i];
      var Inner(hash, power) := hp[i];
      var nextHash := (hash + Code(target[i])) * base % modulo;
      var nextPower := power * base % modulo;
      hp := hp + [Inner(nextHash, nextPower)];
    }
    assert target[..|target|] == target;
  }

  /** One prefix table per (base, modulus) pair, in the given order. */
  method WithBaseMod(target: seq<char>, baseMod: seq<(nat, nat)>) returns (h: Hasher)
    requires Moduli(baseMod)
    ensures Built(h, target, baseMod)
  {
    var list: seq<(nat, seq<Inner>)> := [];
    for j := 0 to |baseMod|
      invariant |list| == j
      invariant forall i :: 0 <= i < j ==>
        list[i] == (baseMod[i].1, PrefixTable(target, baseMod[i].0, baseMod[i].1))
    {
      var (base, modulo) := baseMod[j];
      var hp := BuildTable(target, base, modulo);
      list := list + [(modulo, hp)];
    }
    h := Hasher(list);
  }

  /** The three (base, modulus) pairs `RollingHash::new` uses. */
  const DefaultBaseMod: seq<(nat, nat)> :=
    [(2315961251, 4294966367), (1692999586, 4294959359), (1009, 1_000_000_007)]

  method New(target: seq<char>) returns (h: Hasher)
    ensures Built(h, target, DefaultBaseMod)
  {
    h := WithBaseMod(target, DefaultBaseMod);
  }

  /** Hashing a concatenation: the hash of `a` is shifted by `|b|` places. */
  lemma {:induction false} PolyConcat(a: seq<char>, b: seq<char>, base: nat)
    ensures Poly(a + b, base) == Poly(a, base) * Pow(base, |b|) + Poly(b, base)
    decreases |b|
  {
    if b == [] {
      assert a + b == a;
    } else {
      var b' := b[..|b| - 1];
      assert (a + b)[..|a + b| - 1] == a + b';
      PolyConcat(a, b', base);
      var x, p, y := Poly(a, base), Pow(base, |b'|), Poly(b', base);
      var c := Code(b[|b| - 1]);
      calc {
        Poly(a + b, base);
        (x * p + y + c) * base;
        { ShiftAlgebra(x, p, y, c, base); }
        x * (p * base) + (y + c) * base;
        { assert Pow(base, |b|) == base * p; }
        x * Pow(base, |b|) + Poly(b, base);
      }
    }
  }

  lemma ShiftAlgebra(x: int, p: int, y: int, c: int, base: int)
    ensures (x * p + y + c) * base == x * (p * base) + (y + c) * base
  {
  }

  /** A prefix table of `target` starts with the prefix table of each of
      its prefixes. */
  lemma {:induction false} PrefixTablePrefix(target: seq<char>, base: nat, m: nat, i: nat)
    requires m >= 1 && i <= |target|
    ensures PrefixTable(target, base, m)[i] == PrefixTable(target[..i], base, m)[i]
    decreases |target|
  {
    if i < |target| {
      var pre := target[..|target| - 1];
      PrefixTablePrefix(pre, base, m, i);
      assert pre[..i] == target[..i];
    } else {
      assert target[..i] == target;
    }
  }

  /** The last entry of a prefix table: the reduced hash of the whole
      string and the reduced power of the base. */
  lemma {:induction false} PrefixTableLast(target: seq<char>, base: nat, m: nat)
    requires m >= 1
    ensures PrefixTable(target, base, m)[|target|].hash == Poly(target, base) % m
    ensures |target| >= 1 ==> PrefixTable(target, base, m)[|target|].power == Pow(base, |target|) % m
    decreases |target|
  {
    if target != [] {
      var n := |target| - 1;
      var pre := target[..n];
      PrefixTableLast(pre, base, m);
      var last := PrefixTable(pre, base, m)[n];
      var c := Code(target[n]);
      ModOfMod(Poly(pre, base), m);
      ModAddBoth(last.hash, c, Poly(pre, base), c, m);
      MulModBoth(last.hash + c, base, Poly(pre, base) + c, base, m);
      if n > 0 {
        ModOfMod(Pow(base, n), m);
        MulModBoth(last.power, base, Pow(base, n), base, m);
        assert Pow(base, n + 1) == base * Pow(base, n);
      }
    }
  }

  /** Entry `i` of a prefix table is the hash of the first `i` characters
      and the `i`-th power of the base, both reduced modulo `m` (entry 0's
      power is the unreduced 1). */
  lemma PrefixTableMeaning(target: seq<char>, base: nat, m: nat, i: nat)
    requires m >= 1 && i <= |target|
    ensures PrefixTable(target, base, m)[i].hash == Poly(target[..i], base) % m
    ensures PrefixTable(target, base, m)[i].hash < m
    ensures i >= 1 ==> PrefixTable(target, base, m)[i].power == Pow(base, i) % m
    ensures i == 0 ==> PrefixTable(target, base, m)[i].power == 1
  {
    PrefixTablePrefix(target, base, m, i);
    PrefixTableLast(target[..i], base, m);
  }

  lemma ModAddBoth(a: int, b: int, c: int, d: int, m: nat)
    requires m > 0 && a % m == c % m && b % m == d % m
    ensures (a + b) % m == (c + d) % m
  {
    var k := (a / m - c / m) + (b / m - d / m);
    assert a + b == (c + d) + k * m;
    ModAddMultiple(c + d, k, m);
  }

  lemma ModSubBoth(a: int, b: int, c: int, d: int, m: nat)
    requires m > 0 && a % m == c % m && b % m == d % m
    ensures (a - b) % m == (c - d) % m
  {
    var k := (a / m - c / m) - (b / m - d / m);
    assert a - b == (c - d) + k * m;
    ModAddMultiple(c - d, k, m);
  }

  /** The hash a prefix table gives for `[l, r)` is the reduced hash of
      `target[l..r]`, whatever precedes it. */
  lemma SubstringHash(target: seq<char>, base: nat, m: nat, l: nat, r: nat)
    requires m >= 1 && l <= r <= |target|
    ensures RangeHash(PrefixTable(target, base, m), m, l, r) == Poly(target[l..r], base) % m
  {
    var t := PrefixTable(target, base, m);
    var a, b, p := Poly(target[..l], base), Poly(target[l..r], base), Pow(base, r - l);
    HashResidue(target, base, m, r);
    HashResidue(target, base, m, l);
    PowerResidue(target, base, m, r - l);
    assert target[..r] == target[..l] + target[l..r];
    PolyConcat(target[..l], target[l..r], base);
    RangeResidue(t, m, l, r, a, p, b);
  }

  lemma HashResidue(target: seq<char>, base: nat, m: nat, i: nat)
    requires m >= 1 && i <= |target|
    ensures PrefixTable(target, base, m)[i].hash % m == Poly(target[..i], base) % m
  {
    PrefixTableMeaning(target, base, m, i);
    ModOfMod(Poly(target[..i], base), m);
  }

  lemma PowerResidue(target: seq<char>, base: nat, m: nat, i: nat)
    requires m >= 1 && i <= |target|
    ensures PrefixTable(target, base, m)[i].power % m == Pow(base, i) % m
  {
    PrefixTableMeaning(target, base, m, i);
    ModOfMod(Pow(base, i), m);
  }

  /** The arithmetic of `get`: removing the shifted prefix hash from the
      longer prefix hash leaves the substring hash. */
  lemma RangeResidue(hp: seq<Inner>, m: nat, l: nat, r: nat, a: int, p: int, b: int)
    requires m >= 1 && l <= r < |hp|
    requires hp[r].hash % m == (a * p + b) % m && hp[l].hash % m == a % m
    requires hp[r - l].power % m == p % m
    ensures RangeHash(hp, m, l, r) == b % m
  {
    var hr, hl, pk := hp[r].hash, hp[l].hash, hp[r - l].power;
    MulModBoth(hl, pk, a, p, m);
    var x := hl * pk % m;
    ModOfMod(hl * pk, m);
    ModSubBoth(hr, x, a * p + b, a * p, m);
    ModAddMultiple(hr - x, 1, m);
    assert a * p + b - a * p == b;
  }

  /** `get` on a built hasher is, per modulus, the reduced hash of the
      substring. */
  lemma GetIsSubstringHash(h: Hasher, target: seq<char>, baseMod: seq<(nat, nat)>, l: nat, r: nat)
    requires Moduli(baseMod) && Built(h, target, baseMod) && l <= r <= |target|
    ensures h.Covers(r)
    ensures forall j :: 0 <= j < |baseMod| ==>
      h.Get(l, r)[j] == Poly(target[l..r], baseMod[j].0) % baseMod[j].1
  {
    forall j | 0 <= j < |baseMod|
      ensures h.Get(l, r)[j] == Poly(target[l..r], baseMod[j].0) % baseMod[j].1
    {
      SubstringHash(target, baseMod[j].0, baseMod[j].1, l, r);
    }
  }

  /** Equal substrings hash alike, so `equal` reports them equal. */
  lemma EqualSubstrings(h: Hasher, target: seq<char>, baseMod: seq<(nat, nat)>,
                        l1: nat, r1: nat, l2: nat, r2: nat)
    requires Moduli(baseMod) && Built(h, target, baseMod)
    requires l1 <= r1 <= |target| && l2 <= r2 <= |target|
    requires target[l1..r1] == target[l2..r2]
    ensures h.Covers(r1) && h.Covers(r2) && h.Equal(l1, r1, l2, r2)
  {
    GetIsSubstringHash(h, target, baseMod, l1, r1);
    GetIsSubstringHash(h, target, baseMod, l2, r2);
  }

  /** Substrings whose hashes differ under some modulus are reported
      different. */
  lemma DifferentSubstrings(h: Hasher, target: seq<char>, baseMod: seq<(nat, nat)>,
                            l1: nat, r1: nat, l2: nat, r2: nat, j: nat)
    requires Moduli(baseMod) && Built(h, target, baseMod)
    requires l1 <= r1 <= |target| && l2 <= r2 <= |target| && j < |baseMod|
    requires Poly(target[l1..r1], baseMod[j].0) % baseMod[j].1
      != Poly(target[l2..r2], baseMod[j].0) % baseMod[j].1
    ensures h.Covers(r1) && h.Covers(r2) && !h.Equal(l1, r1, l2, r2)
  {
    GetIsSubstringHash(h, target, baseMod, l1, r1);
    GetIsSubstringHash(h, target, baseMod, l2, r2);
    assert h.Get(l1, r1)[j] != h.Get(l2, r2)[j];
  }

  /** The base-1009 hashes the library's cases tell apart. */
  lemma PolyExamples()
    ensures Poly("abca", 1009) % 1_000_000_007 == 195557271
    ensures Poly("abcd", 1009) % 1_000_000_007 == 195560298
    ensures Poly("abc", 1009) % 1_000_000_007 == 742512849
    ensures Poly("bcd", 1009) % 1_000_000_007 == 770775661
  {
    assert "abca"[..3] == "abc" && "abcd"[..3] == "abc";
    assert "abc"[..2] == "ab" && "ab"[..1] == "a" && "a"[..0] == [];
    assert "bcd"[..2] == "bc" && "bc"[..1] == "b" && "b"[..0] == [];
    assert Poly("abc", 1009) == 99742513542;
    assert Poly("abca", 1009) == 100640196261751;
    assert Poly("abcd", 1009) == 100640196264778;
    assert Poly("bcd", 1009) == 100770776361;
  }

  lemma PolyTrange()
    ensures Poly("trange", 1009) % 1_000_000_007 == 951755659
  {
    assert "trange"[..5] == "trang" && "trang"[..4] == "tran" && "tran"[..3] == "tra";
    assert "tra"[..2] == "tr" && "tr"[..1] == "t" && "t"[..0] == [];
    assert Poly("trange", 1009) == 122525966564633515601;
  }

  lemma PolyStrange()
    ensures Poly("strange", 1009) % 1_000_000_007 == 622369430
  {
    assert "strange"[..6] == "strang" && "strang"[..5] == "stran" && "stran"[..4] == "stra";
    assert "stra"[..3] == "str" && "str"[..2] == "st" && "st"[..1] == "s" && "s"[..0] == [];
    assert Poly("strange", 1009) == 122566101742621328562036;
  }

  lemma PolyOrange()
    ensures Poly("orange", 1009) % 1_000_000_007 == 35666946
  {
    assert "orange"[..5] == "orang" && "orang"[..4] == "oran" && "oran"[..3] == "ora";
    assert "ora"[..2] == "or" && "or"[..1] == "o" && "o"[..0] == [];
    assert Poly("orange", 1009) == 117249818170784388396;
  }

  lemma PolyEorange()
    ensures Poly("eorange", 1009) % 1_000_000_007 == 372466871
  {
    assert "eorange"[..6] == "eorang" && "eorang"[..5] == "eoran" && "eoran"[..4] == "eora";
    assert "eora"[..3] == "eor" && "eor"[..2] == "eo" && "eo"[..1] == "e" && "e"[..0] == [];
    assert Poly("eorange", 1009) == 107654651151924925255265;
  }

  /** The library's cases on "abcabcddd": equal ranges compare equal and
      the two pairs of different ranges compare different. */
  method AbcScenario() returns (e1: bool, e2: bool, e3: bool, e4: bool, n1: bool, n2: bool)
    ensures e1 && e2 && e3 && e4 && !n1 && !n2
  {
    var target := "abcabcddd";
    var h := New(target);
    assert Moduli(DefaultBaseMod);
    assert target[0..3] == target[3..6] == "abc";
    assert target[1..3] == target[4..6] == "bc";
    assert target[6..7] == target[7..8] == target[8..9] == "d";
    assert target[0..4] == "abca" && target[3..7] == "abcd" && target[4..7] == "bcd";
    PolyExamples();
    EqualSubstrings(h, target, DefaultBaseMod, 0, 3, 3, 6);
    EqualSubstrings(h, target, DefaultBaseMod, 1, 3, 4, 6);
    EqualSubstrings(h, target, DefaultBaseMod, 6, 7, 7, 8);
    EqualSubstrings(h, target, DefaultBaseMod, 7, 8, 8, 9);
    DifferentSubstrings(h, target, DefaultBaseMod, 0, 4, 3, 7, 2);
    DifferentSubstrings(h, target, DefaultBaseMod, 0, 3, 4, 7, 2);
    e1 := h.Equal(0, 3, 3, 6);
    e2 := h.Equal(1, 3, 4, 6);
    e3 := h.Equal(6, 7, 7, 8);
    e4 := h.Equal(7, 8, 8, 9);
    n1 := h.Equal(0, 4, 3, 7);
    n2 := h.Equal(0, 3, 4, 7);
  }

  /** The library's cases on "strangeorange". */
  method OrangeScenario() returns (e: bool, n1: bool, n2: bool)
    ensures e && !n1 && !n2
  {
    var target := "strangeorange";
    var h := New(target);
    assert Moduli(DefaultBaseMod);
    assert target[2..7] == target[8..13] == "range";
    assert target[1..7] == "trange" && target[7..13] == "orange";
    assert target[0..7] == "strange" && target[6..13] == "eorange";
    PolyTrange();
    PolyStrange();
    PolyOrange();
    PolyEorange();
    EqualSubstrings(h, target, DefaultBaseMod, 2, 7, 8, 13);
    DifferentSubstrings(h, target, DefaultBaseMod, 1, 7, 7, 13, 2);
    DifferentSubstrings(h, target, DefaultBaseMod, 0, 7, 6, 13, 2);
    e := h.Equal(2, 7, 8, 13);
    n1 := h.Equal(1, 7, 7, 13);
    n2 := h.Equal(0, 7, 6, 13);
  }
}
