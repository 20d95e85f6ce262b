# libprocon core in Dafny

A model of the algorithmic core of `libprocon`, a Rust library of
competitive-programming snippets, with proofs of what each snippet
promises:

- **Segment tree** (`segment_tree.dfy`). A class over a flat array. The
  array holds an implicit complete binary tree, and leaves are combined
  by an associative function with an identity. `Update` writes a leaf and
  repairs its ancestors. `Query` folds a half-open range of leaves.
- **Disjoint sets** (`union_find.dfy`). A class with the `parent` and
  `rank` vectors. `Root` does path compression, `Unite` uses the rank
  heuristic, and `Same` tests membership. Ghost vectors (`rep`, `dist`)
  carry the forest invariant.
- **Binary searches** (`binary_search.dfy`). `lower_bound`,
  `upper_bound` and `lower_bound_by`: the two-cursor loop over a slice.
  `ext.rs` repeats the first two, and both copies are the same code.
- **Grid neighbours** (`grid.dfy`). `adj4` and `adj8` on a
  two-dimensional vector. `ext.rs` repeats them too.
- **Euclid and modular power** (`modulo.dfy`). `gcd`, `lcm` and
  square-and-multiply `mod_pow`. `integer.rs` repeats `gcd` and `lcm`.
- **Primes** (`integer.dfy`). The deque sieve `lower_primes` and the
  trial-division `factorize`.
- **Binomial coefficients** (`combination.dfy`). `Comb::new` fills the
  factorial, inverse and inverse-factorial tables. `calc` returns
  `nCk mod p`.
- **Rolling hash** (`rolling_hash.dfy`). Prefix tables of a polynomial
  hash, one per (base, modulus) pair. `get` hashes a substring and
  `equal` compares two substrings.
- **Rationals** (`rational.dfy`). Reduction to lowest terms, rounding,
  comparison and arithmetic. The compound assignments are methods of a
  mutable `RationalVar`.

Integers are unbounded (`int`/`nat`). Operations that panic in Rust
(index out of range, `assert!`, division by zero) carry a `requires`,
with one exception: `root` with an index equal to the length, which
is recorded under "## Findings" and which `Unite` and `Same` inherit.
Operations that return `Option` return the `Option` of the `Wrappers`
module.

## Model

| member | source | states |
|---|---|---|
| SegmentTree.FoldConcat | src/segment_tree.rs:55-64 | folding a concatenation is combining the folds of the two parts, for an associative function with identity; this is why splitting a range at the midpoint is sound |
| SegmentTree.LeafCount | src/segment_tree.rs:19-22 | the doubling loop stops at the least power of two that is at least `size` (a power of two, at least `size`, and its half below `size` unless it is 1) |
| SegmentTree.Tree.constructor | src/segment_tree.rs:18-29 | `2n - 1` slots all holding the initial value, with `n` as `LeafCount` gives; when the initial value is idempotent under `func`, every internal slot already combines its children |
| SegmentTree.WriteLeaf | src/segment_tree.rs:32-33 | writing a leaf breaks the heap property only at that leaf's ancestors |
| SegmentTree.RecomputeParent | src/segment_tree.rs:34-39 | recomputing the parent of the lowest broken node moves the break one level up |
| SegmentTree.RepairStep | src/segment_tree.rs:34-39 | one round of the repair loop keeps the loop invariant: leaves untouched, and consistency restored below the current node |
| SegmentTree.RepairEnd | src/segment_tree.rs:34-40 | when the loop reaches the root, the leaves are the old ones with one changed, and a tree that was consistent is consistent again |
| SegmentTree.Tree.Propagate | src/segment_tree.rs:34-40 | the `while node_number > 0` loop, run from a written leaf to the root, establishes the end state of the repair |
| SegmentTree.Tree.Update | src/segment_tree.rs:31-41 | the leaves become the old leaves with position `leaf` replaced; no slot outside the leaf and its ancestors changes; a consistent tree stays consistent |
| SegmentTree.Tree.SpansChildren | src/segment_tree.rs:59-63 | a node spanning more than one leaf is internal, and its two children span the two halves of its range |
| SegmentTree.Tree.SlotIsFold | src/segment_tree.rs:47-65 | in a consistent tree, every slot holds the fold of the leaves under it |
| SegmentTree.Tree.CoveredWhole | src/segment_tree.rs:43-45 | the leaves of `[begin, end)` that lie under the root are exactly `Leaves()[begin..end]`, and none when `end <= begin` |
| SegmentTree.Tree.CoveredSplit | src/segment_tree.rs:60-63 | the covered leaves of a range are those of its left half followed by those of its right half |
| SegmentTree.Tree.InternalQuery | src/segment_tree.rs:47-65 | for a consistent tree over a monoid, the result is the fold of the leaves of `[begin, end)` inside the node's span: identity when disjoint, the slot when contained, otherwise both halves combined |
| SegmentTree.Tree.Query | src/segment_tree.rs:43-45 | for a consistent tree over a monoid, the result is the fold of `Leaves()[begin..end]`, and the identity for an empty range |
| SegmentTree.MinMonoid | src/segment_tree.rs:74-75 | `min` with identity `1 << 60` is a monoid on the values used |
| SegmentTree.MaxMonoid | src/segment_tree.rs:85-86 | `max` with identity 0 is a monoid on naturals |
| SegmentTree.AddMonoid | src/segment_tree.rs:96-97 | `+` with identity 0 is a monoid |
| SegmentTree.Scenario | src/segment_tree.rs:75-79 | a tree of size 4 updated at leaves 0..3 is consistent and holds exactly those four leaves |
| SegmentTree.QueryOfFold | src/segment_tree.rs:43-45 | a query equals the fold of its leaf range, stated for a given expected value |
| SegmentTree.MinQuery | src/segment_tree.rs:73-81 | the min tree over `[2, 4, 3, 0]` answers 2 on `[0, 3)` |
| SegmentTree.MaxQuery | src/segment_tree.rs:84-92 | the max tree over `[2, 4, 3, 0]` answers 4 on `[0, 3)` |
| SegmentTree.SumQueries | src/segment_tree.rs:95-106 | the sum tree answers 9, 6, 7 and 7 on `[0,3)`, `[0,2)`, `[1,3)` and `[1,4)` |
| SegmentTree.MinScenario | src/segment_tree.rs:73-81 | the min test's calls, replayed through `Update` and `Query`, are proved to return 2 |
| SegmentTree.MaxScenario | src/segment_tree.rs:84-92 | the max test's calls, replayed through `Update` and `Query`, are proved to return 4 |
| SegmentTree.SumScenario | src/segment_tree.rs:95-106 | the sum test's calls, replayed through `Update` and `Query`, are proved to return 9, 6, 7, 7 |
| UnionFind.Compress | src/union_find.rs:21-24 | pointing a node straight at its root keeps the forest invariant, with the same roots |
| UnionFind.Link | src/union_find.rs:40-46 | hanging one root under another keeps the forest invariant, with the merged roots |
| UnionFind.MergedSame | src/union_find.rs:40-46 | after linking root `a` under root `b`, two elements share a root exactly when they did before, or one was in `a`'s tree and the other in `b`'s |
| UnionFind.DisjointSet.constructor | src/union_find.rs:8-13 | `parent[i] == i` and `rank[i] == 0` for `i < n`; every element is alone in its set |
| UnionFind.DisjointSet.Root | src/union_find.rs:15-26 | `None` for an out-of-range `x`; otherwise `Some` of the root of `x`'s tree, which is its own parent, and `parent[x]` now points straight at that root (path compression); the sets and ranks do not change, and each parent either stays or becomes its root |
| UnionFind.DisjointSet.Unite | src/union_find.rs:28-48 | with both arguments in range, afterwards two elements are in one set exactly when they were before or one was with `x` and the other with `y`; otherwise the sets do not change; the forest invariant is kept |
| UnionFind.DisjointSet.Same | src/union_find.rs:50-62 | true exactly when both arguments are in range and in one set; the sets do not change |
| UnionFind.UniteStep | src/union_find.rs:72-80 | a `Unite` in the test merges exactly the two classes named, starting from a known partition |
| UnionFind.SameStep | src/union_find.rs:73-86 | a `Same` in the test answers whether the two elements share a class, for in-range elements, and `false` otherwise |
| UnionFind.ScenarioClasses | src/union_find.rs:72-80 | the three partitions the test passes through are each the previous one with the two named classes merged |
| UnionFind.Scenario | src/union_find.rs:69-87 | the test's nine answers, including `false` for out-of-range `(11, 12)` |
| UnionFind.DisjointSet.RootAsWritten | src/union_find.rs:15-26 | `root` with its guard as written (`x > len`): `None` for `x > len`, and for `x < len` the same root and compression as `Root`; `x == len` must be excluded, because that guard passes it on to read `parent[len]` |
| UnionFind.WrittenGuardAdmitsLength | src/union_find.rs:16-18 | for any disjoint set, the length passes the written guard and is not an index of `parent` |
| BinarySearch.FirstTrue | src/binary_search_ext.rs:57-61 | the index of the first element satisfying the predicate is at most the length |
| BinarySearch.FirstTrueIsFirst | src/binary_search_ext.rs:57-61 | no element before `FirstTrue` satisfies the predicate, and the element at `FirstTrue` does when it exists |
| BinarySearch.BoundaryIsFirstTrue | src/binary_search_ext.rs:57-61 | for a monotone predicate, a boundary `r` (false before, true from it on) is the first true index |
| BinarySearch.CountFromBoundary | src/binary_search_ext.rs:92-95 | for a monotone predicate, the number of elements satisfying it is the length minus the boundary |
| BinarySearch.LowerBoundBy | src/binary_search_ext.rs:62-74 | on any slice the loop ends at a boundary of the predicate: `ok` moves down only to true positions and `ng` up only to false ones |
| BinarySearch.SortedMonotone | src/binary_search_ext.rs:19-20 | on an ascending slice, `x >= value` and `x > value` are monotone |
| BinarySearch.LowerBound | src/binary_search_ext.rs:21-36 | on an ascending slice, the result is the first index whose element is `>= value`: everything before is smaller, everything from it on is at least `value`, and the length minus it counts those elements |
| BinarySearch.UpperBound | src/binary_search_ext.rs:40-55 | on an ascending slice, the first index whose element is `> value`, with the same counting property |
| BinarySearch.LowerBoundScenario | src/binary_search_ext.rs:82-90 | `lower_bound` of 1, 2, 3, 5, 8, 9, 10 in `[2, 2, 5, 5, 9]` is 0, 0, 2, 2, 4, 4, 5 |
| BinarySearch.LowerBoundsSmall | src/binary_search_ext.rs:84-86 | `lower_bound` of 1, 2, 3 in that slice is 0, 0, 2 |
| BinarySearch.LowerBoundsLarge | src/binary_search_ext.rs:87-90 | `lower_bound` of 5, 8, 9, 10 in that slice is 2, 4, 4, 5 |
| BinarySearch.UpperBoundScenario | src/binary_search_ext.rs:99-107 | `upper_bound` of 1, 2, 3, 5, 8, 9, 10 is 0, 2, 2, 4, 4, 5, 5 |
| BinarySearch.UpperBoundsSmall | src/binary_search_ext.rs:101-103 | `upper_bound` of 1, 2, 3 is 0, 2, 2 |
| BinarySearch.UpperBoundsLarge | src/binary_search_ext.rs:104-107 | `upper_bound` of 5, 8, 9, 10 is 4, 4, 5, 5 |
| BinarySearch.CountScenario | src/binary_search_ext.rs:92-112 | the counts in the tests: 3 elements `>= 4`, 1 `>= 9`, 3 `> 4`, 1 `> 5` |
| BinarySearch.LengthScenario | src/binary_search_ext.rs:115-131 | `lower_bound_by` over string lengths 3, 3, 3, 19, 24 with thresholds 2, 3, 4, 19, 20, 24, 25 gives 0, 0, 3, 3, 4, 4, 5 |
| Grid.Neighbours | src/two_dimension_vector_ext.rs:16-26 | the filtered offsets are never more than the offsets tried |
| Grid.NeighboursMember | src/two_dimension_vector_ext.rs:18-25 | a cell is produced exactly when it lies in the grid and its offset from `(row, col)` is in the list |
| Grid.NeighboursConcat | src/two_dimension_vector_ext.rs:35-54 | filtering a concatenation of offset lists is the concatenation of the filtered lists, in order |
| Grid.NeighboursDistinct | src/two_dimension_vector_ext.rs:18-25 | distinct offsets give distinct cells |
| Grid.Offsets4Steps | src/two_dimension_vector_ext.rs:16 | the four offsets of `adj4` are exactly those at Manhattan distance 1 |
| Grid.Offsets8Steps | src/two_dimension_vector_ext.rs:35-44 | the eight offsets of `adj8` are exactly the non-zero offsets at Chebyshev distance 1 |
| Grid.OffsetsDistinct | src/two_dimension_vector_ext.rs:35-44 | neither offset list repeats an offset |
| Grid.Adj4 | src/two_dimension_vector_ext.rs:11-28 | on a non-empty grid, the cells produced are exactly the in-grid cells at Manhattan distance 1, each once, at most 4 |
| Grid.Adj8 | src/two_dimension_vector_ext.rs:30-56 | on a non-empty grid, the cells produced are exactly the in-grid cells at Chebyshev distance 1 other than `(row, col)`, each once, at most 8 |
| Grid.Adj4WithinAdj8 | src/ext.rs:55-100 | every cell `adj4` produces, `adj8` produces as well |
| Grid.Neighbours4On3x3 | src/two_dimension_vector_ext.rs:64-102 | the orthogonal neighbours on a 3x3 grid at the four tested positions, in generation order |
| Grid.Adj4Examples | src/ext.rs:142-180 | `adj4` on the 3x3 grid gives the tested cell lists (the tests sort both sides; the model states the exact order) |
| Grid.Neighbours8Split | src/two_dimension_vector_ext.rs:35-44 | `adj8`'s cells are `adj4`'s followed by the in-grid diagonals |
| Grid.Neighbours8At00 | src/two_dimension_vector_ext.rs:108-115 | the eight-neighbourhood of the corner `(0, 0)` on a 3x3 grid |
| Grid.Neighbours8At11 | src/two_dimension_vector_ext.rs:117-133 | the eight-neighbourhood of the centre `(1, 1)` |
| Grid.Neighbours8At01 | src/two_dimension_vector_ext.rs:135-142 | the eight-neighbourhood of the edge cell `(0, 1)` |
| Grid.Neighbours8At12 | src/two_dimension_vector_ext.rs:144-151 | the eight-neighbourhood of the edge cell `(1, 2)` |
| Grid.Adj8Examples | src/ext.rs:183-230 | `adj8` on the 3x3 grid gives the tested cell lists |
| Modulo.Gcd | src/modulo.rs:3-9 | Euclid's recursion: the result is 0 only for `gcd(0, 0)` and is `a` when `b == 0` |
| Modulo.GcdDivides | src/modulo.rs:3-9 | the gcd divides both arguments |
| Modulo.GcdGreatest | src/modulo.rs:3-9 | every common divisor divides the gcd |
| Modulo.Bezout | src/modulo.rs:3-9 | the gcd is an integer combination of the arguments |
| Modulo.Gauss | src/modulo.rs:3-9 | a divisor of `a * b` that is coprime to `a` divides `b` |
| Modulo.Lcm | src/modulo.rs:11-13 | `a / gcd(a, b) * b` is a common multiple, positive when both are |
| Modulo.LcmCommonMultiple | src/integer.rs:13-15 | the Rust expression `a / gcd(a, b) * b` is a common multiple of `a` and `b`, positive when both are |
| Modulo.LcmLeast | src/modulo.rs:11-13 | the lcm divides every common multiple of two non-zero numbers |
| Modulo.GcdParts | src/modulo.rs:11-13 | dividing both arguments by their gcd is exact and leaves coprime cofactors |
| Modulo.GcdLcmExamples | src/modulo.rs:30-40 | `gcd(3, 7) = 1`, `gcd(10, 5) = 5`, `lcm(4, 6) = 12`, `lcm(14, 21) = 42` |
| Modulo.PowMod | src/modulo.rs:18 | reducing the base modulo `m` first does not change `x^n mod m` |
| Modulo.SquareStep | src/modulo.rs:20-26 | one round of the loop (multiply on an odd exponent, square, halve) keeps `res * x^n mod m` |
| Modulo.ModPow | src/modulo.rs:16-28 | the result is `x^n mod m`, and 1 for `n == 0` even when `m == 1` |
| Modulo.IteratedProductIsPow | src/modulo.rs:42-51 | the test's running product `t = t * x % m` after `i` steps is `x^i mod m` (1 at step 0) |
| Modulo.ModPowMatchesProduct | src/modulo.rs:42-51 | `mod_pow(1234, i, 1_000_000_007)` equals the test's running product for every `i` |
| Integer.IsPrime | src/integer.rs:27-52 | a prime is at least 2 and has no divisor in `[2, x)` |
| Integer.NoDivisorFromRough | src/integer.rs:27-52 | the executable primality test agrees with the quantified definition |
| Integer.LeastDivisor | src/integer.rs:40-46 | the least divisor of `x` from `lo` on divides `x` and nothing in `[lo, r)` does |
| Integer.LeastDivisorPrime | src/integer.rs:40-46 | the least divisor above 1 is prime, which is why the front of the sieve deque is prime |
| Integer.LeastDivisorSquare | src/integer.rs:40 | a composite has a least divisor whose square is at most it; this is why the sieve can stop at `sqrt(n)` |
| Integer.PrimesUpToMembers | src/integer.rs:27-52 | `PrimesUpTo(n)` is ascending and holds exactly the primes up to `n` |
| Integer.PrimesUpToNext | src/integer.rs:44-46 | appending the next prime extends the list of primes |
| Integer.Sift | src/integer.rs:41 | the filter keeps exactly the elements not divisible by `p`, in their order |
| Integer.SiftRound | src/integer.rs:41 | sifting the candidates above `p` by `p` leaves exactly those free of factors up to `p` |
| Integer.NextPrime | src/integer.rs:42-46 | the front of the sifted deque is the next prime, and the rest are the candidates above it |
| Integer.SurvivorsArePrime | src/integer.rs:40-50 | once `p * p > n`, the candidates left are exactly the primes in `(p, n]` |
| Integer.NoPrimeLeft | src/integer.rs:42-45 | an empty deque means there is no prime in `(p, n]` |
| Integer.InitialDeque | src/integer.rs:33-39 | after popping 2 from `2..=n`, the deque holds, in order, every number in `(2, n]` |
| Integer.LowerPrimes | src/integer.rs:27-52 | the result is the ascending list of all primes up to `n`, empty below 2 |
| Integer.PushAll | src/integer.rs:48-50 | appending the surviving deque to the primes up to `p` gives the primes up to `n` |
| Integer.PrimesUpTo10 | src/integer.rs:91-96 | the primes up to 10, 1 and 2 are `[2, 3, 5, 7]`, `[]` and `[2]` |
| Integer.PrimesUpTo15 | src/integer.rs:93 | the primes up to 15 are `[2, 3, 5, 7, 11, 13]` |
| Integer.LowerPrimesScenario | src/integer.rs:91-96 | `lower_primes` on 10, 15, 1 and 2 returns the tested lists |
| Integer.ISqrt | src/integer.rs:57 | the integer square root `r` has `r * r <= n < (r + 1) * (r + 1)` |
| Integer.DivideOut | src/integer.rs:61-64 | one division of `tmp` by `p` keeps the trial-division invariant and records `p` once more in the map |
| Integer.DoneWith | src/integer.rs:61 | when `p` no longer divides `tmp`, `p` is finished with |
| Integer.LeftoverPrime | src/integer.rs:66-68 | a leftover `tmp > 1` after dividing by every prime up to `sqrt(n)` is a prime above `sqrt(n)` |
| Integer.TrialComplete | src/integer.rs:55-70 | when nothing is left over, the recorded factors are prime, non-decreasing, multiply to `n`, and the map counts them |
| Integer.RecordLeftover | src/integer.rs:66-68 | recording the leftover prime completes the factorisation and its count map |
| Integer.DivideOutAll | src/integer.rs:61-64 | the inner `while` loop keeps the trial-division invariant and ends with `tmp` no longer divisible by `prime`, no larger than before and at least 1; the counts of every other prime are unchanged |
| Integer.DivideByAll | src/integer.rs:60-65 | the outer `for` loop over the primes up to `sqrt(n)` leaves `1 <= tmp <= n` with no listed prime dividing it, and keeps the invariant; with no primes nothing changes |
| Integer.Factorize | src/integer.rs:55-70 | the map counts a non-decreasing list of primes whose product is `n` (for `n >= 1`); it is empty for 0 and 1 |
| Integer.PrimeDividesProduct | src/integer.rs:55-70 | a prime dividing a product of primes is one of them |
| Integer.FactorizationUnique | src/integer.rs:55-70 | two non-decreasing prime lists with the same product are equal, so the map `factorize` returns is the only possible one |
| Integer.LastFactorsMatch | src/integer.rs:55-70 | two such lists end in the same prime, and their prefixes have equal products |
| Integer.Factors10 | src/integer.rs:100-103 | `10 = 2 * 5`, counted as `{2: 1, 5: 1}` |
| Integer.Factors12 | src/integer.rs:105-108 | `12 = 2 * 2 * 3`, counted as `{2: 2, 3: 1}` |
| Integer.Factors2013 | src/integer.rs:120-124 | `2013 = 3 * 11 * 61`, counted as `{3: 1, 11: 1, 61: 1}` |
| Integer.FactorizeScenario | src/integer.rs:99-125 | `factorize` of 10, 12, 2013, 1 and 0 returns the tested maps |
| Integer.FactorizePrime | src/integer.rs:116-118 | `factorize` of any prime (such as 99991) is `{p: 1}` |
| Combination.FactTableIsFactorial | src/combination.rs:27-33 | the factorial table holds `i! mod m` |
| Combination.InvTableIsInverse | src/combination.rs:34 | when `m` has no divisor up to `i`, `inverse_table[i] * i == 1 (mod m)` |
| Combination.InvTableStep | src/combination.rs:34 | the recurrence `m - inv[m % i] * (m / i) % m` gives an inverse of `i` from one of `m % i` |
| Combination.FactInvTableIsInverse | src/combination.rs:35-36 | the inverse-factorial table is the inverse of the factorial table modulo `m` |
| Combination.BinomialFactorial | src/combination.rs:47-56 | `C(n, k) * k! * (n - k)! == n!` for `k <= n` |
| Combination.BinomialAbove | src/combination.rs:48-49 | `C(n, k) = 0` for `n < k` |
| Combination.CalcIsBinomial | src/combination.rs:50-55 | the table expression in `calc` equals `C(n, k) mod m` when `m` has no divisor below the table size |
| Combination.TablesStep | src/combination.rs:32-37 | one round of the table loop produces the next entry of each table |
| Combination.FillTables | src/combination.rs:24-37 | the three arrays, filled by the loop, hold the recurrences' values at every index |
| Combination.Comb.constructor | src/combination.rs:18-45 | the size is raised to at least 10, the size limit is a precondition, and the tables are filled |
| Combination.Comb.TablesMeaning | src/combination.rs:18-45 | the tables hold `i! mod m`, inverses of `i`, and inverses of `i!`, given a suitable modulus |
| Combination.Comb.Calc | src/combination.rs:47-56 | 0 for `n < k`; otherwise `C(n, k) mod m` when `m` has no divisor below the table size |
| Combination.PrimeModulus | src/combination.rs:65-66 | a prime modulus at least the table size has no divisor below it |
| Combination.ModulusRough | src/combination.rs:65 | `1_000_000_007` has no divisor up to 50 |
| Combination.FactorialValues | src/combination.rs:67-74 | the factorials that the tested coefficients are checked against |
| Combination.CalcCase | src/combination.rs:77-79 | `calc(n, k)` is the residue of any `v` with `v * k! * (n - k)! == n!` |
| Combination.CombScenario | src/combination.rs:64-79 | the tested values 2, 15504, 15504, 3268760, 272278100 and 0 |
| RollingHash.PrefixTable | src/rolling_hash.rs:55-63 | the table has one entry more than the string, and entry 0 is `(0, 1)` |
| RollingHash.RangeHash | src/rolling_hash.rs:79 | the substring value is reduced below the modulus |
| RollingHash.BuildTable | src/rolling_hash.rs:55-63 | the `for` loop builds exactly the prefix table |
| RollingHash.WithBaseMod | src/rolling_hash.rs:51-72 | one prefix table per (base, modulus) pair, in order |
| RollingHash.New | src/rolling_hash.rs:39-49 | the hasher built with the three fixed pairs |
| RollingHash.PolyConcat | src/rolling_hash.rs:58-63 | the polynomial hash of `a + b` is `hash(a) * base^|b| + hash(b)` |
| RollingHash.PrefixTableMeaning | src/rolling_hash.rs:55-63 | entry `i` holds the hash of the first `i` characters and `base^i`, both modulo `m` |
| RollingHash.SubstringHash | src/rolling_hash.rs:79 | the `get` formula gives the hash of `target[l..r]` modulo `m` |
| RollingHash.Hasher.Get | src/rolling_hash.rs:75-82 | one value per pair, each below its modulus |
| RollingHash.GetIsSubstringHash | src/rolling_hash.rs:75-82 | for every pair, `get(l, r)` is the polynomial hash of `target[l..r]` modulo that pair's modulus |
| RollingHash.Hasher.Equal | src/rolling_hash.rs:84-86 | `equal` holds exactly when the two ranges' hashes agree under every modulus, and always for a range against itself; EqualSubstrings and DifferentSubstrings give what that means for the substrings |
| RollingHash.EqualSubstrings | src/rolling_hash.rs:84-86 | equal substrings always compare equal |
| RollingHash.DifferentSubstrings | src/rolling_hash.rs:84-86 | substrings whose hashes differ under some pair compare unequal |
| RollingHash.PolyExamples | src/rolling_hash.rs:105-108 | hashes under `(1009, 1_000_000_007)` that tell the tested unequal substrings of `abcabcddd` apart |
| RollingHash.PolyTrange | src/rolling_hash.rs:114 | the hash of `trange` under `(1009, 1_000_000_007)` |
| RollingHash.PolyStrange | src/rolling_hash.rs:116 | the hash of `strange` under that pair |
| RollingHash.PolyOrange | src/rolling_hash.rs:114 | the hash of `orange` under that pair |
| RollingHash.PolyEorange | src/rolling_hash.rs:116 | the hash of `eorange` under that pair |
| RollingHash.AbcScenario | src/rolling_hash.rs:95-108 | the six `equal` answers on `abcabcddd` |
| RollingHash.OrangeScenario | src/rolling_hash.rs:110-117 | the three `equal` answers on `strangeorange` |
| Rationals.QuotRemainder | src/rational.rs:53 | integer `/` truncates toward zero: the remainder has the sign of the dividend and is smaller than the divisor |
| Rationals.New | src/rational.rs:34-41 | the result is in lowest terms with a positive denominator, has the value `n/d`, and is `0/1` for a zero numerator |
| Rationals.NormalUnique | src/rational.rs:74-97 | two reduced fractions with equal cross products are the same pair |
| Rationals.Canonical | src/rational.rs:74-97 | there is one reduced fraction per value, so every operation's result is determined by its value |
| Rationals.NewIs | src/rational.rs:34-41 | `new(n, d)` is `r` exactly when `r` is reduced and has the value `n/d` |
| Rationals.FromInteger | src/rational.rs:43-45 | `from_integer(t)` is `t/1` |
| Rationals.Truncate | src/rational.rs:51-54 | an integer, the neighbour of the value on the side of zero |
| Rationals.ToInteger | src/rational.rs:47-54 | the integer part toward zero, as an integer, and `truncate` is `from_integer` of it |
| Rationals.Floor | src/rational.rs:56-63 | the greatest integer not above the value |
| Rationals.Ceil | src/rational.rs:65-72 | the least integer not below the value |
| Rationals.Cmp | src/rational.rs:157-192 | the result orders the values: it is the comparison of the cross products |
| Rationals.Eq | src/rational.rs:122-124 | `==` between rationals holds exactly when the cross products agree, that is when the values are equal |
| Rationals.EqIsEquality | src/rational.rs:122-124 | for reduced values, `==` (comparison giving `Equal`) is equality of pairs and of values |
| Rationals.EqInt | src/rational.rs:133-136 | `r == t` holds exactly when `numerator == t * denominator`, that is when `r` has value `t` |
| Rationals.EqIntIsEquality | src/rational.rs:133-136 | a reduced value equals the integer `t` exactly when it is `t/1` |
| Rationals.Add | src/rational.rs:234-241 | reduced, with the value `a + b` |
| Rationals.AddIs | src/rational.rs:234-241 | `a + b` is `r` exactly when `r` is reduced and has that value |
| Rationals.AddValue | src/rational.rs:234-241 | `a + b` depends only on the values: operands standing for `n1/d1` and `n2/d2` give the reduced form of `(n1*d2 + n2*d1)/(d1*d2)` |
| Rationals.AddInt | src/rational.rs:250-253 | reduced, with the value `a + t` |
| Rationals.AddIntIs | src/rational.rs:250-253 | `a + t` is `r` exactly when `r` is reduced and has that value |
| Rationals.AddIntValue | src/rational.rs:250-253 | `a + t` for `a` standing for `n1/d1` is the reduced form of `(n1 + t*d1)/d1` |
| Rationals.Sub | src/rational.rs:284-291 | reduced, with the value `a - b` |
| Rationals.SubIs | src/rational.rs:284-291 | `a - b` is `r` exactly when `r` is reduced and has that value |
| Rationals.SubValue | src/rational.rs:284-291 | `a - b` depends only on the values: the reduced form of `(n1*d2 - n2*d1)/(d1*d2)` |
| Rationals.SubInt | src/rational.rs:300-303 | reduced, with the value `a - t` |
| Rationals.SubIntIs | src/rational.rs:300-303 | `a - t` is `r` exactly when `r` is reduced and has that value |
| Rationals.SubIntValue | src/rational.rs:300-303 | `a - t` for `a` standing for `n1/d1` is the reduced form of `(n1 - t*d1)/d1` |
| Rationals.Mul | src/rational.rs:334-342 | reduced, with the value `a * b`; cross-cancelling first does not change the result |
| Rationals.MulIs | src/rational.rs:334-342 | `a * b` is `r` exactly when `r` is reduced and has that value |
| Rationals.MulValue | src/rational.rs:334-342 | `a * b` depends only on the values: the reduced form of `(n1*n2)/(d1*d2)` |
| Rationals.MulInt | src/rational.rs:351-354 | reduced, with the value `a * t` |
| Rationals.MulIntIs | src/rational.rs:351-354 | `a * t` is `r` exactly when `r` is reduced and has that value |
| Rationals.MulIntValue | src/rational.rs:351-354 | `a * t` for `a` standing for `n1/d1` is the reduced form of `(n1*t)/d1` |
| Rationals.Div | src/rational.rs:385-388 | reduced, with the value `a / b`, for a non-zero `b` |
| Rationals.DivIs | src/rational.rs:385-388 | `a / b` is `r` exactly when `r` is reduced and has that value |
| Rationals.DivValue | src/rational.rs:385-388 | `a / b` depends only on the values: for `n2 != 0`, `b` is non-zero and the result is the reduced form of `(n1*d2)/(d1*n2)` |
| Rationals.DivInt | src/rational.rs:397-400 | reduced, with the value `a / t`, for a non-zero `t` |
| Rationals.DivIntIs | src/rational.rs:397-400 | `a / t` is `r` exactly when `r` is reduced and has that value |
| Rationals.DivIntValue | src/rational.rs:397-400 | `a / t` for `a` standing for `n1/d1` and `t != 0` is the reduced form of `n1/(d1*t)` |
| Rationals.RationalVar.constructor | src/rational.rs:34-41 | the new variable holds `new(n, d)` |
| Rationals.RationalVar.Reduce | src/rational.rs:74-97 | in place: the fields become `new` of their old values (zero numerator, equal parts, and the gcd case) |
| Rationals.RationalVar.AddAssign | src/rational.rs:260-264 | the value becomes `old + other` |
| Rationals.RationalVar.AddAssignInt | src/rational.rs:271-275 | the value becomes `old + t` |
| Rationals.RationalVar.SubAssign | src/rational.rs:310-314 | the value becomes `old - other` |
| Rationals.RationalVar.SubAssignInt | src/rational.rs:321-325 | the value becomes `old - t` |
| Rationals.RationalVar.MulAssign | src/rational.rs:361-365 | the value becomes `old * rhs` |
| Rationals.RationalVar.MulAssignInt | src/rational.rs:372-376 | the value becomes `old * t` |
| Rationals.RationalVar.DivAssign | src/rational.rs:407-411 | the value becomes `old / rhs` |
| Rationals.RationalVar.DivAssignInt | src/rational.rs:418-422 | the value becomes `old / t` |
| Rationals.NewExamples | src/rational.rs:461-513 | the tested `new` equalities and inequalities, including sign normalisation and zero |
| Rationals.ToIntegerExamples | src/rational.rs:515-527 | the ten tested `to_integer` values |
| Rationals.TruncateExamples | src/rational.rs:549-561 | the ten tested `truncate` values |
| Rationals.FloorExamples | src/rational.rs:563-570 | the five tested `floor` values |
| Rationals.CeilExamples | src/rational.rs:572-582 | the eight tested `ceil` values |
| Rationals.CmpExamples | src/rational.rs:529-547 | the tested comparisons with rationals and with integers |
| Rationals.AddExamples | src/rational.rs:584-603 | the tested sums, including with an integer on the right |
| Rationals.SubExamples | src/rational.rs:621-640 | the tested differences |
| Rationals.MulExamples | src/rational.rs:658-686 | the five tested products, including zero times `1234/9999` and both negative cases, and `3/4 * 3` |
| Rationals.DivExamples | src/rational.rs:723-752 | the five tested quotients, including both negative cases, and `3/4 / 3` |
| Rationals.AddAssignScenario | src/rational.rs:606-619 | the three tested `+=` cases on a `RationalVar` give `1`, `5/6` and `-1/6` |
| Rationals.SubAssignScenario | src/rational.rs:643-656 | the three tested `-=` cases give `1/2`, `1/6` and `-5/6` |
| Rationals.MulAssignScenario | src/rational.rs:701-722 | the five tested `*=` cases give `3/8`, `5/8`, `0`, `-3/8` and `-5/8` |
| Rationals.DivAssignScenario | src/rational.rs:754-775 | the five tested `/=` cases give `2/3`, `9/10`, `0`, `-2/3` and `-9/10` |

## Left out

- Fixed-width integers. Every `u64`, `usize`, `i64` and `i32` is an
  unbounded integer, so no overflow is modelled. This covers the
  segment tree's slot arithmetic, `mod_pow`'s `res * x`, the combination
  tables, the hash tables, and the rationals' cross products. The
  `mul_may_overflow` test (src/rational.rs:688-699) is about `i32`
  overflow and is not modelled.
- Rationals.New: the model uses the mathematical gcd of the absolute
  values. The `gcd` for signed `T` and the `Int` trait it comes from are
  not part of this model; the `integer.rs` `gcd` is for `u64` only.
- Rationals.Cmp: the body follows the source's recursion branch by
  branch; Dafny's Euclidean `/` and `%` stand for the `Int` trait's
  `div_floor` and `mod_floor`, which agree with them for the positive
  denominators that reach them. The trait itself is not part of this
  model. The contract gives the meaning: the order of the cross products.
- Integer-on-the-left operators and comparisons (`3 * r`, `1 < r`,
  `-2 + r`) come from macros over ten Rust types. Each is
  `from_integer(t)` followed by the operation, and only the
  rational-on-the-left forms are modelled.
- `Display` and `Debug` formatting, and `From` conversions (these are
  `new` and `from_integer` again).
- Integer.LowerPrimes: `p as f64 <= (n as f64).sqrt()` is modelled as
  `p * p <= n`. Factorize: `sqrt(n) as usize` is modelled as the integer
  square root. They agree wherever floating point is exact.
- Integer.Factorize: the `HashMap` is a `map<nat, nat>`. Its contents
  are modelled, not its iteration order. `99991` is covered by
  `FactorizePrime` for an arbitrary prime; the primality of 99991 itself
  is not proved.
- Combination.CombScenario: the `(666666, 333333)` case is left out.
  Its factorials are far too large to state. The table size of
  1,000,000 is reduced to 51 entries; `Calc` is proved for any size.
- RollingHash: the model proves that equal substrings compare equal and
  that unequal hashes compare unequal. Hash collisions are probabilistic
  and are not modelled. For the two fixed pairs with moduli near `2^32`,
  the tests' unequal answers are shown through the third pair only.
- BinarySearch: the slice elements of `lower_bound` and `upper_bound`
  are `int`, not any `Ord` type. `lower_bound_by` is generic. Its
  result is stated as a boundary for any predicate, and as the first
  true index for a monotone one.
- Grid: `adj4` and `adj8` return lazy iterators. The model returns the
  finite sequence the iterator would produce, in order.
- Union-find: `Unite` compares `rank[x]` and `rank[y]`, the ranks of the
  arguments rather than of their roots, as written. This affects only
  the shape of the forest, not the sets, and the model keeps it.
- UnionFind.DisjointSet.Unite: modelled over the corrected `Root`. The
  Rust `unite(x, y)` panics when `x` or `y` equals the length, because
  `root` reads `parent[len]`; the model instead leaves the sets
  unchanged there.
- UnionFind.DisjointSet.Same: modelled over the corrected `Root`. The
  Rust `same(x, y)` panics when `x` or `y` equals the length; the model
  returns `false` there.
- src/template.rs, src/lib.rs and tests/ are not part of this model.

## Findings

| source | as written | input that shows it | evidently intended | confidence | as-written member | corrected member |
|---|---|---|---|---|---|---|
| src/union_find.rs:16 | `root` answers `None` only when `x > parent.len()` | `x == parent.len()`, for example `DisjointSet::new(10).root(10)`: the guard lets it through, and `parent[10]` indexes one past the end (a panic) | `None` for every `x >= parent.len()` | not executed | UnionFind.DisjointSet.RootAsWritten, UnionFind.WrittenGuardAdmitsLength | UnionFind.DisjointSet.Root, UnionFind.DisjointSet.Unite, UnionFind.DisjointSet.Same |
