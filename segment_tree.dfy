/**
 * Associative range-query tree (segment tree) over a flat array.
 *
 * The array holds an implicit complete binary tree with `nLeaves` leaves,
 * `nLeaves` a power of two: slot 0 is the root, the children of slot `i`
 * are slots `2*i+1` and `2*i+2`, and logical position `k` lives in slot
 * `k + nLeaves - 1`.
 */
module SegmentTree {

  /** `f` is associative and `id` is a two-sided identity for it. */
  ghost predicate Monoid<T(!new)>(f: (T, T) -> T, id: T) {
    (forall x, y, z :: f(f(x, y), z) == f(x, f(y, z))) &&
    (forall x :: f(id, x) == x && f(x, id) == x)
  }

  /** The reference semantics of a query: the left-to-right fold of `f`
      over `s`, seeded with `id`. */
  function Fold<T>(f: (T, T) -> T, id: T, s: seq<T>): T
    decreases |s|
  {
    if s == [] then id else f(Fold(f, id, s[..|s| - 1]), s[|s| - 1])
  }

  /** Folding a concatenation combines the folds of the two parts. */
  lemma {:induction false} FoldConcat<T(!new)>(f: (T, T) -> T, id: T, a: seq<T>, b: seq<T>)
    requires Monoid(f, id)
    ensures Fold(f, id, a + b) == f(Fold(f, id, a), Fold(f, id, b))
    decreases |b|
  {
    if b == [] {
      assert a + b == a;
    } else {
      var b' := b[..|b| - 1];
      assert (a + b)[..|a + b| - 1] == a + b';
      assert (a + b)[|a + b| - 1] == b[|b| - 1];
      FoldConcat(f, id, a, b');
    }
  }

  ghost predicate IsPow2(n: nat) {
    if n <= 1 then n == 1 else n % 2 == 0 && IsPow2(n / 2)
  }

  /** The padding loop of the constructor: the smallest power of two that
      is at least `size`, and at least 1. */
  method LeafCount(size: nat) returns (n: nat)
    ensures IsPow2(n) && size <= n
    ensures n == 1 || n / 2 < size
  {
    n := 1;
    while n < size
      invariant IsPow2(n)
      invariant n == 1 || n / 2 < size
      decreases size - n
    {
      assert (n * 2) / 2 == n;
      n := n * 2;
    }
  }

  /** The proper ancestors of slot `k`, up to the root. */
  ghost function Ancestors(k: nat): set<nat>
    decreases k
  {
    if k == 0 then {} else {(k - 1) / 2} + Ancestors((k - 1) / 2)
  }

  /** Every proper ancestor of `k` has a child at or before `k`. */
  lemma {:induction false} AncestorsBelow(k: nat)
    ensures forall a :: a in Ancestors(k) ==> 2 * a + 1 <= k
    decreases k
  {
    if k > 0 {
      AncestorsBelow((k - 1) / 2);
    }
  }

  /** The index arithmetic of a slot of width `w` whose leftmost leaf is
      `left`: `(node + 1) * w == n + left`. */
  lemma SlotArithmetic(node: nat, w: nat, n: nat, left: nat)
    requires w >= 1 && left + w <= n && (node + 1) * w == n + left
    ensures node <= 2 * n - 2
    ensures w == 1 ==> node == left + n - 1
    ensures w >= 2 && w % 2 == 0 ==>
      node <= n - 2 &&
      (2 * node + 2) * (w / 2) == n + left &&
      (2 * node + 3) * (w / 2) == n + left + w / 2
  {
    assert node * w + w == n + left;
    MulAtLeast(node, w, 1);
    if w >= 2 {
      MulAtLeast(node, w, 2);
      if w % 2 == 0 {
        var h := w / 2;
        assert (2 * node + 2) * h == (node + 1) * (2 * h);
        assert (2 * node + 3) * h == (node + 1) * (2 * h) + h;
      }
    }
  }

  lemma MulAtLeast(a: nat, b: nat, c: nat)
    requires c <= b
    ensures a * c <= a * b
  {
  }

  /** In the flat layout `s` of a tree with `n` leaves, every internal
      slot outside `skip` holds `f` of its two children. */
  ghost predicate HeapConsistent<T>(f: (T, T) -> T, s: seq<T>, n: nat, skip: set<nat>)
    requires |s| == 2 * n - 1
  {
    forall i :: 0 <= i < n - 1 && i !in skip ==> Combines(f, s, i)
  }

  /** Internal slot `i` of `s` holds `f` of its two children. */
  ghost predicate Combines<T>(f: (T, T) -> T, s: seq<T>, i: nat)
    requires 2 * i + 2 < |s|
  {
    s[i] == f(s[2 * i + 1], s[2 * i + 2])
  }

  /** Overwriting a leaf breaks the invariant at most on its ancestors. */
  lemma WriteLeaf<T>(f: (T, T) -> T, s: seq<T>, n: nat, slot: nat, v: T)
    requires |s| == 2 * n - 1 && n - 1 <= slot < |s|
    requires HeapConsistent(f, s, n, {})
    ensures HeapConsistent(f, s[slot := v], n, Ancestors(slot))
  {
    forall i | 0 <= i < n - 1 && i !in Ancestors(slot)
      ensures Combines(f, s[slot := v], i)
    {
      assert Combines(f, s, i);
      assert (slot - 1) / 2 in Ancestors(slot);
    }
  }

  /** Recomputing the parent of `child` repairs the parent: afterwards the
      invariant can fail only on the parent's own ancestors. */
  lemma RecomputeParent<T>(f: (T, T) -> T, s: seq<T>, n: nat, child: nat)
    requires |s| == 2 * n - 1 && 0 < child < |s|
    requires HeapConsistent(f, s, n, Ancestors(child))
    ensures (child - 1) / 2 < n - 1
    ensures var p := (child - 1) / 2;
      HeapConsistent(f, s[p := f(s[2 * p + 1], s[2 * p + 2])], n, Ancestors(p))
  {
    var p := (child - 1) / 2;
    var s' := s[p := f(s[2 * p + 1], s[2 * p + 2])];
    assert Ancestors(child) == {p} + Ancestors(p);
    forall i | 0 <= i < n - 1 && i !in Ancestors(p)
      ensures Combines(f, s', i)
    {
      if i != p {
        assert Combines(f, s, i);
        assert p > 0 ==> (p - 1) / 2 in Ancestors(p);
      }
    }
  }

  /** The state of the bottom-up repair of leaf slot `slot` (new value
      `v`) when it has reached slot `node`: only `slot` and its ancestors
      differ from the original layout `s0`, and, if `s0` was consistent,
      the invariant can fail only strictly above `node`. */
  ghost predicate RepairState<T>(f: (T, T) -> T, s0: seq<T>, s: seq<T>, n: nat, slot: nat, v: T,
                                 node: nat, wasConsistent: bool)
  {
    |s0| == |s| == 2 * n - 1 && n - 1 <= slot < |s| &&
    node <= slot && Ancestors(node) <= Ancestors(slot) &&
    s[slot] == v &&
    (forall j :: 0 <= j < |s| && j != slot && j !in Ancestors(slot) ==> s[j] == s0[j]) &&
    (wasConsistent ==> HeapConsistent(f, s, n, Ancestors(node)))
  }

  lemma RepairStart<T>(f: (T, T) -> T, s0: seq<T>, n: nat, slot: nat, v: T)
    requires |s0| == 2 * n - 1 && n - 1 <= slot < |s0|
    ensures RepairState(f, s0, s0[slot := v], n, slot, v, slot, HeapConsistent(f, s0, n, {}))
  {
    if HeapConsistent(f, s0, n, {}) {
      WriteLeaf(f, s0, n, slot, v);
    }
  }

  lemma RepairStep<T>(f: (T, T) -> T, s0: seq<T>, s: seq<T>, n: nat, slot: nat, v: T,
                      node: nat, p: nat, wasConsistent: bool)
    requires RepairState(f, s0, s, n, slot, v, node, wasConsistent) && node > 0 && p == (node - 1) / 2
    ensures p < n - 1 && 2 * p + 2 < |s|
    ensures RepairState(f, s0, s[p := f(s[2 * p + 1], s[2 * p + 2])], n, slot, v, p, wasConsistent)
  {
    AncestorsBelow(slot);
    assert Ancestors(node) == {p} + Ancestors(p);
    if wasConsistent {
      RecomputeParent(f, s, n, node);
    }
  }

  lemma RepairEnd<T>(f: (T, T) -> T, s0: seq<T>, s: seq<T>, n: nat, slot: nat, v: T, wasConsistent: bool)
    requires |s0| == |s| == 2 * n - 1 && n - 1 <= slot < |s|
    requires RepairState(f, s0, s, n, slot, v, 0, wasConsistent)
    ensures s[n - 1..] == s0[n - 1..][slot - (n - 1) := v]
    ensures wasConsistent ==> HeapConsistent(f, s, n, {})
  {
    AncestorsBelow(slot);
    forall j | n - 1 <= j < |s| && j != slot
      ensures s[j] == s0[j]
    {
      assert j !in Ancestors(slot);
    }
  }

  class Tree<T(!new)> {
    const nLeaves: nat
    const identity: T
    const func: (T, T) -> T
    const values: array<T>

    /** Shape of the tree: a power-of-two number of leaves and
        `2*nLeaves-1` slots. */
    ghost predicate Valid() {
      IsPow2(nLeaves) && values.Length == 2 * nLeaves - 1
    }

    /** The representation invariant: every internal slot holds the
        combination of its two children. */
    ghost predicate Consistent()
      reads values
      requires Valid()
    {
      HeapConsistent(func, values[..], nLeaves, {})
    }

    /** The logical contents: the leaf slots, left to right. */
    ghost function Leaves(): seq<T>
      reads values
      requires Valid()
    {
      values[nLeaves - 1..]
    }

    /** Slot `node` aggregates exactly the leaves `[left, right)`. */
    ghost predicate Spans(node: nat, left: nat, right: nat) {
      left < right <= nLeaves && IsPow2(right - left) && (node + 1) * (right - left) == nLeaves + left
    }

    constructor (initValue: T, size: nat, func: (T, T) -> T)
      ensures Valid() && fresh(values)
      ensures size <= nLeaves && (nLeaves == 1 || nLeaves / 2 < size)
      ensures identity == initValue && this.func == func
      ensures forall i :: 0 <= i < values.Length ==> values[i] == initValue
      ensures func(initValue, initValue) == initValue ==> Consistent()
    {
      var n := LeafCount(size);
      nLeaves := n;
      values := new T[2 * n - 1](_ => initValue);
      identity := initValue;
      this.func := func;
    }

    /** Writes leaf `leaf` and recomputes its ancestors bottom-up. */
    method Update(leaf: nat, v: T)
      requires Valid() && leaf < nLeaves
      modifies values
      ensures Leaves() == old(Leaves())[leaf := v]
      ensures forall j :: 0 <= j < values.Length && j != leaf + nLeaves - 1 && j !in Ancestors(leaf + nLeaves - 1) ==>
        values[j] == old(values[j])
      ensures old(Consistent()) ==> Consistent()
    {
      ghost var slot := leaf + nLeaves - 1;
      ghost var s0 := values[..];
      ghost var wasConsistent := Consistent();
      var node := leaf + nLeaves - 1;
      values[node] := v;
      assert values[..] == s0[slot := v];
      RepairStart(func, s0, nLeaves, slot, v);
      Propagate(node, s0, v, wasConsistent);
      RepairEnd(func, s0, values[..], nLeaves, slot, v, wasConsistent);
    }

    /** The bottom-up walk of `update`: from the written leaf to the root,
        each parent is recomputed from its two children. */
    method Propagate(slot: nat, ghost s0: seq<T>, ghost v: T, ghost wasConsistent: bool)
      requires Valid() && |s0| == values.Length && nLeaves - 1 <= slot < values.Length
      requires RepairState(func, s0, values[..], nLeaves, slot, v, slot, wasConsistent)
      modifies values
      ensures RepairState(func, s0, values[..], nLeaves, slot, v, 0, wasConsistent)
    {
      var node: nat := slot;
      while node > 0
        invariant RepairState(func, s0, values[..], nLeaves, slot, v, node, wasConsistent)
      {
        ghost var s := values[..];
        var parent := (node - 1) / 2;
        RepairStep(func, s0, s, nLeaves, slot, v, node, parent, wasConsistent);
        values[parent] := func(values[2 * parent + 1], values[2 * parent + 2]);
        assert values[..] == s[parent := func(s[2 * parent + 1], s[2 * parent + 2])];
        node := parent;
      }
    }

    lemma SpansRoot()
      requires Valid()
      ensures Spans(0, 0, nLeaves)
    {
    }

    /** A span of width one is a leaf slot; a wider span is an internal
        slot whose children split it at the midpoint. */
    lemma SpansChildren(node: nat, left: nat, right: nat)
      requires Valid() && Spans(node, left, right)
      ensures node < values.Length
      ensures right - left == 1 ==> node == left + nLeaves - 1
      ensures right - left > 1 ==>
        node < nLeaves - 1 && (right - left) % 2 == 0 &&
        Spans(2 * node + 1, left, (left + right) / 2) &&
        Spans(2 * node + 2, (left + right) / 2, right)
    {
      var w := right - left;
      SlotArithmetic(node, w, nLeaves, left);
      if w > 1 {
        assert IsPow2(w / 2);
      }
    }

    /** The leaves of `[left, right)` that fall inside `[begin, end)`. */
    ghost function Covered(begin: nat, end: nat, left: nat, right: nat): seq<T>
      reads values
      requires Valid() && right <= nLeaves
    {
      var lo := if begin < left then left else begin;
      var hi := if end < right then end else right;
      if lo < hi then Leaves()[lo..hi] else []
    }

    /** Over the whole tree, the covered leaves are the queried slice. */
    lemma CoveredWhole(begin: nat, end: nat)
      requires Valid()
      ensures begin <= end <= nLeaves ==> Covered(begin, end, 0, nLeaves) == Leaves()[begin..end]
      ensures end <= begin ==> Covered(begin, end, 0, nLeaves) == []
    {
      if begin == end <= nLeaves {
        assert Leaves()[begin..end] == [];
      }
    }

    /** Splitting a span at `mid` splits the covered leaves at `mid`. */
    lemma CoveredSplit(begin: nat, end: nat, left: nat, mid: nat, right: nat)
      requires Valid() && left <= mid <= right <= nLeaves
      ensures Covered(begin, end, left, right) == Covered(begin, end, left, mid) + Covered(begin, end, mid, right)
    {
      var lo := if begin < left then left else begin;
      var hi := if end < right then end else right;
      if lo < hi && lo < mid < hi {
        assert Leaves()[lo..hi] == Leaves()[lo..mid] + Leaves()[mid..hi];
      }
    }

    /** Under the invariant, each slot holds the fold of the leaves it spans. */
    lemma {:induction false} SlotIsFold(node: nat, left: nat, right: nat)
      requires Valid() && Consistent() && Monoid(func, identity) && Spans(node, left, right)
      ensures node < values.Length && values[node] == Fold(func, identity, Leaves()[left..right])
      decreases right - left
    {
      SpansChildren(node, left, right);
      if right - left == 1 {
        assert Leaves()[left..right] == [values[node]];
        assert Fold(func, identity, Leaves()[left..right]) == func(identity, values[node]);
      } else {
        var mid := (left + right) / 2;
        assert Combines(func, values[..], node);
        SlotIsFold(2 * node + 1, left, mid);
        SlotIsFold(2 * node + 2, mid, right);
        assert Leaves()[left..right] == Leaves()[left..mid] + Leaves()[mid..right];
        FoldConcat(func, identity, Leaves()[left..mid], Leaves()[mid..right]);
      }
    }

    /** The recursive descent: identity for a disjoint span, the stored
        slot for a contained span, otherwise both halves combined. */
    function InternalQuery(begin: nat, end: nat, node: nat, left: nat, right: nat): (r: T)
      reads values
      requires Valid() && Spans(node, left, right)
      ensures Consistent() && Monoid(func, identity) ==> r == Fold(func, identity, Covered(begin, end, left, right))
      decreases right - left
    {
      SpansChildren(node, left, right);
      if right <= begin || end <= left then
        identity
      else if begin <= left && right <= end then
        assert Consistent() && Monoid(func, identity) ==>
          values[node] == Fold(func, identity, Covered(begin, end, left, right)) by {
          if Consistent() && Monoid(func, identity) {
            SlotIsFold(node, left, right);
          }
        }
        values[node]
      else
        var mid := (left + right) / 2;
        var c1 := InternalQuery(begin, end, 2 * node + 1, left, mid);
        var c2 := InternalQuery(begin, end, 2 * node + 2, mid, right);
        assert Consistent() && Monoid(func, identity) ==>
          func(c1, c2) == Fold(func, identity, Covered(begin, end, left, right)) by {
          if Consistent() && Monoid(func, identity) {
            CoveredSplit(begin, end, left, mid, right);
            FoldConcat(func, identity, Covered(begin, end, left, mid), Covered(begin, end, mid, right));
          }
        }
        func(c1, c2)
    }

    /** Folds `func` over the leaves `[begin, end)`. */
    function Query(begin: nat, end: nat): (r: T)
      reads values
      requires Valid()
      ensures Consistent() && Monoid(func, identity) ==> r == Fold(func, identity, Covered(begin, end, 0, nLeaves))
      ensures Consistent() && Monoid(func, identity) && begin <= end <= nLeaves ==>
        r == Fold(func, identity, Leaves()[begin..end])
      ensures Consistent() && Monoid(func, identity) && end <= begin ==> r == identity
    {
      SpansRoot();
      CoveredWhole(begin, end);
      InternalQuery(begin, end, 0, 0, nLeaves)
    }
  }

  /** A tree built for four positions has exactly four leaves. */
  lemma FourLeaves(n: nat)
    requires IsPow2(n) && 4 <= n && n / 2 < 4
    ensures n == 4
  {
    Pow2Halves(n);
    Pow2Halves(n / 2);
  }

  lemma Pow2Halves(n: nat)
    requires IsPow2(n) && n > 1
    ensures n % 2 == 0 && IsPow2(n / 2)
  {
  }

  /** Folding three values applies `f` three times from the left. */
  lemma FoldThree<T>(f: (T, T) -> T, id: T, a: T, b: T, c: T)
    ensures Fold(f, id, [a, b]) == f(f(id, a), b)
    ensures Fold(f, id, [a, b, c]) == f(f(f(id, a), b), c)
  {
    assert [a][..0] == [];
    assert Fold(f, id, [a]) == f(id, a);
    assert [a, b][..1] == [a];
    assert Fold(f, id, [a, b]) == f(Fold(f, id, [a]), b);
    assert [a, b, c][..2] == [a, b];
  }

  /** The largest value the minimum scenario stores: its identity, `1 << 60`. */
  const MinIdentity: Bounded := 0x1000_0000_0000_0000

  type Bounded = x: nat | x <= 0x1000_0000_0000_0000

  function Min(x: Bounded, y: Bounded): Bounded { if x < y then x else y }
  function Max(x: nat, y: nat): nat { if x < y then y else x }
  function Add(x: nat, y: nat): nat { x + y }

  lemma MinMonoid()
    ensures Monoid(Min, MinIdentity)
  {
  }

  lemma MaxMonoid()
    ensures Monoid(Max, 0)
  {
  }

  lemma AddMonoid()
    ensures Monoid(Add, 0)
  {
  }

  /** Builds the four-leaf tree of the scenarios and stores `2, 4, 3, 0`. */
  method Scenario<T(!new)>(id: T, f: (T, T) -> T, a: T, b: T, c: T, d: T) returns (st: Tree<T>)
    requires f(id, id) == id
    ensures fresh(st.values) && st.Valid() && st.Consistent()
    ensures st.func == f && st.identity == id && st.Leaves() == [a, b, c, d]
  {
    st := new Tree<T>(id, 4, f);
    FourLeaves(st.nLeaves);
    assert st.Leaves() == [id, id, id, id];
    st.Update(0, a);
    st.Update(1, b);
    st.Update(2, c);
    st.Update(3, d);
  }

  /** A query answers the fold it promises, in a form the scenarios use. */
  lemma QueryOfFold<T(!new)>(st: Tree<T>, begin: nat, end: nat, expected: T)
    requires st.Valid() && st.Consistent() && Monoid(st.func, st.identity) && begin <= end <= st.nLeaves
    requires Fold(st.func, st.identity, st.Leaves()[begin..end]) == expected
    ensures st.Query(begin, end) == expected
  {
  }

  lemma MinFold()
    ensures Fold(Min, MinIdentity, [2, 4, 3]) == 2
  {
    FoldThree(Min, MinIdentity, 2, 4, 3);
  }

  lemma MaxFold()
    ensures Fold(Max, 0, [2, 4, 3]) == 4
  {
    FoldThree(Max, 0, 2, 4, 3);
  }

  /** The queries of the three scenarios, on a consistent tree holding
      `2, 4, 3, 0`. */
  lemma MinQuery(st: Tree<Bounded>)
    requires st.Valid() && st.Consistent() && st.func == Min && st.identity == MinIdentity
    requires st.Leaves() == [2, 4, 3, 0]
    ensures st.Query(0, 3) == 2
  {
    assert st.Leaves()[0..3] == [2, 4, 3];
    MinFold();
    MinMonoid();
    QueryOfFold(st, 0, 3, 2);
  }

  lemma MaxQuery(st: Tree<nat>)
    requires st.Valid() && st.Consistent() && st.func == Max && st.identity == 0
    requires st.Leaves() == [2, 4, 3, 0]
    ensures st.Query(0, 3) == 4
  {
    assert st.Leaves()[0..3] == [2, 4, 3];
    MaxFold();
    MaxMonoid();
    QueryOfFold(st, 0, 3, 4);
  }

  lemma SumQueries(st: Tree<nat>)
    requires st.Valid() && st.Consistent() && st.func == Add && st.identity == 0
    requires st.Leaves() == [2, 4, 3, 0]
    ensures st.Query(0, 3) == 9 && st.Query(0, 2) == 6
    ensures st.Query(1, 3) == 7 && st.Query(1, 4) == 7
  {
    AddMonoid();
    assert st.Leaves()[0..3] == [2, 4, 3];
    assert st.Leaves()[0..2] == [2, 4];
    assert st.Leaves()[1..3] == [4, 3];
    assert st.Leaves()[1..4] == [4, 3, 0];
    FoldThree(Add, 0, 2, 4, 3);
    FoldThree(Add, 0, 4, 3, 0);
  }

  /** Minimum over four leaves `2, 4, 3, 0`; the first three give 2. */
  method MinScenario() returns (q: Bounded)
    ensures q == 2
  {
    var st := Scenario(MinIdentity, Min, 2, 4, 3, 0);
    MinQuery(st);
    q := st.Query(0, 3);
  }

  /** Maximum over four leaves `2, 4, 3, 0`; the first three give 4. */
  method MaxScenario() returns (q: nat)
    ensures q == 4
  {
    var st := Scenario(0, Max, 2, 4, 3, 0);
    MaxQuery(st);
    q := st.Query(0, 3);
  }

  /** Sums over four leaves `2, 4, 3, 0`. */
  method SumScenario() returns (q03: nat, q02: nat, q13: nat, q14: nat)
    ensures q03 == 9 && q02 == 6 && q13 == 7 && q14 == 7
  {
    var st := Scenario(0, Add, 2, 4, 3, 0);
    SumQueries(st);
    q03 := st.Query(0, 3);
    q02 := st.Query(0, 2);
    q13 := st.Query(1, 3);
    q14 := st.Query(1, 4);
  }
}
