/**
 * Disjoint-set forest with path compression and a rank heuristic.
 *
 * `parent` and `rank` are the two vectors of the Rust structure. Three
 * ghost vectors carry the proof: `rep[i]` is the root that following
 * `parent` from `i` reaches, and `dist` strictly decreases along every
 * parent link, which is why `Root` terminates.
 */
module UnionFind {
  import opened Wrappers

  /** Element `i` of the forest is well linked: its parent is in range,
      it shares its parent's root, and the ghost distance drops along
      the link. */
  ghost predicate Linked(parent: seq<nat>, rep: seq<nat>, dist: seq<nat>, i: nat)
    requires |parent| == |rep| == |dist| && i < |parent|
  {
    parent[i] < |parent| && rep[i] < |parent| &&
    (parent[i] == i ==> rep[i] == i) &&
    (parent[i] != i ==> rep[i] == rep[parent[i]] && dist[parent[i]] < dist[i]) &&
    parent[rep[i]] == rep[i] && dist[rep[i]] <= dist[i]
  }

  ghost predicate Forest(parent: seq<nat>, rep: seq<nat>, dist: seq<nat>)
  {
    |parent| == |rep| == |dist| &&
    forall i :: 0 <= i < |parent| ==> Linked(parent, rep, dist, i)
  }

  /** Pointing `x` straight at its root keeps the forest and its roots. */
  lemma Compress(parent: seq<nat>, rep: seq<nat>, dist: seq<nat>, x: nat)
    requires Forest(parent, rep, dist) && x < |parent|
    ensures Forest(parent[x := rep[x]], rep, dist)
  {
    var p' := parent[x := rep[x]];
    assert Linked(parent, rep, dist, x);
    assert Linked(parent, rep, dist, rep[x]);
    if parent[x] != x {
      assert Linked(parent, rep, dist, parent[x]);
    }
    forall i | 0 <= i < |parent|
      ensures Linked(p', rep, dist, i)
    {
      assert Linked(parent, rep, dist, i);
      assert Linked(parent, rep, dist, rep[i]);
    }
  }

  /** The roots after hanging root `a` under root `b`. */
  ghost function MergedRep(rep: seq<nat>, a: nat, b: nat): (r: seq<nat>)
    ensures |r| == |rep|
  {
    seq(|rep|, i requires 0 <= i < |rep| => if rep[i] == a then b else rep[i])
  }

  /** The distances after hanging root `a` under root `b`: the tree of `a`
      now sits below `b`. */
  ghost function MergedDist(rep: seq<nat>, dist: seq<nat>, a: nat, b: nat): (r: seq<nat>)
    requires |rep| == |dist| && b < |dist|
    ensures |r| == |dist|
  {
    seq(|dist|, i requires 0 <= i < |dist| => if rep[i] == a then dist[i] + dist[b] + 1 else dist[i])
  }

  /** Linking two distinct roots keeps a forest. */
  lemma Link(parent: seq<nat>, rep: seq<nat>, dist: seq<nat>, a: nat, b: nat)
    requires Forest(parent, rep, dist) && a < |parent| && b < |parent| && a != b
    requires parent[a] == a && parent[b] == b
    ensures Forest(parent[a := b], MergedRep(rep, a, b), MergedDist(rep, dist, a, b))
  {
    var p', r', d' := parent[a := b], MergedRep(rep, a, b), MergedDist(rep, dist, a, b);
    assert Linked(parent, rep, dist, a);
    assert Linked(parent, rep, dist, b);
    forall i | 0 <= i < |parent|
      ensures Linked(p', r', d', i)
    {
      assert Linked(parent, rep, dist, i);
      assert Linked(parent, rep, dist, parent[i]);
      assert Linked(parent, rep, dist, rep[i]);
    }
  }

  /** Two elements are in one set after the merge exactly when they were
      before, or one was with `a` and the other with `b`. */
  lemma MergedSame(parent: seq<nat>, rep: seq<nat>, dist: seq<nat>, a: nat, b: nat, i: nat, j: nat)
    requires Forest(parent, rep, dist) && a < |parent| && b < |parent| && a != b
    requires parent[a] == a && parent[b] == b && i < |rep| && j < |rep|
    ensures MergedRep(rep, a, b)[i] == MergedRep(rep, a, b)[j] <==>
      rep[i] == rep[j] || (rep[i] == a && rep[j] == b) || (rep[i] == b && rep[j] == a)
  {
    assert Linked(parent, rep, dist, a);
    assert Linked(parent, rep, dist, b);
    assert Linked(parent, rep, dist, i);
    assert Linked(parent, rep, dist, j);
  }

  class DisjointSet {
    var parent: seq<nat>
    var rank: seq<nat>
    ghost var rep: seq<nat>
    ghost var dist: seq<nat>

    ghost predicate Valid()
      reads this
    {
      |rank| == |parent| && Forest(parent, rep, dist)
    }

    /** `x` and `y` are elements of one set. */
    ghost predicate InSameSet(x: nat, y: nat)
      reads this
      requires Valid()
    {
      x < |parent| && y < |parent| && rep[x] == rep[y]
    }

    /** `n` singleton sets `{0}`, ..., `{n-1}`, all of rank 0. */
    constructor (n: nat)
      ensures Valid() && |parent| == n
      ensures forall i :: 0 <= i < n ==> parent[i] == i && rank[i] == 0
      ensures forall i, j :: 0 <= i < n && 0 <= j < n ==> (InSameSet(i, j) <==> i == j)
    {
      parent := seq(n, i => i);
      rank := seq(n, i => 0);
      rep := seq(n, i => i);
      dist := seq(n, i => 0);
      new;
      forall i | 0 <= i < n
        ensures Linked(parent, rep, dist, i)
      {
      }
    }

    /** The root of `x`'s tree, or `None` for an element out of range;
        every element on the way is re-pointed at the root. */
    method Root(x: nat) returns (r: Option<nat>)
      requires Valid()
      modifies this
      ensures Valid() && |parent| == old(|parent|)
      ensures rep == old(rep) && dist == old(dist) && rank == old(rank)
      ensures x >= |parent| ==> r == None && parent == old(parent)
      ensures x < |parent| ==> r == Some(rep[x])
      ensures r.Some? ==> r.value < |parent| && parent[r.value] == r.value
      ensures forall i :: 0 <= i < |parent| ==> parent[i] == old(parent)[i] || parent[i] == rep[i]
      ensures x < |parent| ==> parent[x] == rep[x]
      decreases if x < |dist| then dist[x] else 0
    {
      if x >= |parent| {
        r := None;
      } else if parent[x] == x {
        assert Linked(parent, rep, dist, x);
        r := Some(x);
      } else {
        assert Linked(parent, rep, dist, x);
        var px := parent[x];
        var pr := Root(px);
        var root := pr.value;
        Compress(parent, rep, dist, x);
        parent := parent[x := root];
        assert Linked(parent, rep, dist, x);
        r := Some(root);
      }
    }

    /** `root` with the guard as written, `x > len` instead of `x >= len`.
        For `x == len` that guard passes and the next step reads
        `parent[len]`, past the end, so that argument is excluded here;
        for every other `x` it behaves as `Root`. */
    method RootAsWritten(x: nat) returns (r: Option<nat>)
      requires Valid() && x != |parent|
      modifies this
      ensures Valid() && |parent| == old(|parent|)
      ensures rep == old(rep) && dist == old(dist) && rank == old(rank)
      ensures x > |parent| ==> r == None && parent == old(parent)
      ensures x < |parent| ==> r == Some(rep[x]) && parent[x] == rep[x]
      ensures forall i :: 0 <= i < |parent| ==> parent[i] == old(parent)[i] || parent[i] == rep[i]
    {
      if x > |parent| {
        r := None;
      } else if parent[x] == x {
        assert Linked(parent, rep, dist, x);
        r := Some(x);
      } else {
        r := Root(x);
      }
    }

    /** Merges the sets of `x` and `y`; nothing happens to the sets when
        either is out of range. The root whose argument has the smaller
        rank goes under the other. */
    method Unite(x: nat, y: nat)
      requires Valid()
      modifies this
      ensures Valid() && |parent| == old(|parent|)
      ensures !(x < |parent| && y < |parent|) ==> rep == old(rep)
      ensures x < |parent| && y < |parent| ==>
        forall i, j :: 0 <= i < |parent| && 0 <= j < |parent| ==>
          (InSameSet(i, j) <==>
            old(rep)[i] == old(rep)[j] ||
            (old(rep)[i] == old(rep)[x] && old(rep)[j] == old(rep)[y]) ||
            (old(rep)[i] == old(rep)[y] && old(rep)[j] == old(rep)[x]))
    {
      var xr := Root(x);
      if xr.None? {
        return;
      }
      var xRoot := xr.value;
      assert Linked(parent, rep, dist, xRoot);
      var yr := Root(y);
      if yr.None? {
        return;
      }
      var yRoot := yr.value;
      if xRoot == yRoot {
        return;
      }
      assert Linked(parent, rep, dist, xRoot);
      ghost var p0, r0, d0 := parent, rep, dist;
      if rank[x] < rank[y] {
        Link(parent, rep, dist, xRoot, yRoot);
        parent := parent[xRoot := yRoot];
        rep := MergedRep(r0, xRoot, yRoot);
        dist := MergedDist(r0, d0, xRoot, yRoot);
        forall i, j | 0 <= i < |parent| && 0 <= j < |parent|
          ensures rep[i] == rep[j] <==>
            r0[i] == r0[j] || (r0[i] == r0[x] && r0[j] == r0[y]) || (r0[i] == r0[y] && r0[j] == r0[x])
        {
          MergedSame(p0, r0, d0, xRoot, yRoot, i, j);
        }
      } else {
        Link(parent, rep, dist, yRoot, xRoot);
        parent := parent[yRoot := xRoot];
        if rank[xRoot] == rank[yRoot] {
          rank := rank[xRoot := rank[xRoot] + 1];
        }
        rep := MergedRep(r0, yRoot, xRoot);
        dist := MergedDist(r0, d0, yRoot, xRoot);
        forall i, j | 0 <= i < |parent| && 0 <= j < |parent|
          ensures rep[i] == rep[j] <==>
            r0[i] == r0[j] || (r0[i] == r0[x] && r0[j] == r0[y]) || (r0[i] == r0[y] && r0[j] == r0[x])
        {
          MergedSame(p0, r0, d0, yRoot, xRoot, i, j);
        }
      }
    }

    /** Whether `x` and `y` are in one set; `false` when either is out of
        range. */
    method Same(x: nat, y: nat) returns (b: bool)
      requires Valid()
      modifies this
      ensures Valid() && |parent| == old(|parent|) && rep == old(rep)
      ensures b == InSameSet(x, y)
    {
      var xr := Root(x);
      if xr.None? {
        return false;
      }
      var yr := Root(y);
      if yr.None? {
        return false;
      }
      b := xr.value == yr.value;
    }
  }

  /** The sets of the first ten elements are the classes of `cls`. */
  ghost predicate Partitioned(s: DisjointSet, cls: nat -> nat)
    reads s
  {
    s.Valid() && |s.parent| == 10 &&
    forall i, j :: 0 <= i < 10 && 0 <= j < 10 ==> (s.InSameSet(i, j) <==> cls(i) == cls(j))
  }

  function Singletons(i: nat): nat { i }
  function AfterFirst(i: nat): nat { if i <= 1 then 0 else i }
  function AfterSecond(i: nat): nat { if i <= 1 then 0 else if i <= 3 then 2 else i }
  function AfterThird(i: nat): nat { if i <= 3 then 0 else i }

  /** One `Unite(x, y)` of the scenario takes the classes of `before` to
      those of `after`. */
  method UniteStep(s: DisjointSet, x: nat, y: nat, before: nat -> nat, after: nat -> nat)
    requires Partitioned(s, before) && x < 10 && y < 10
    requires forall i, j :: 0 <= i < 10 && 0 <= j < 10 ==>
      (after(i) == after(j) <==>
        before(i) == before(j) || (before(i) == before(x) && before(j) == before(y)) ||
        (before(i) == before(y) && before(j) == before(x)))
    modifies s
    ensures Partitioned(s, after)
  {
    ghost var r0 := s.rep;
    assert forall i, j :: 0 <= i < 10 && 0 <= j < 10 ==> (r0[i] == r0[j] <==> before(i) == before(j)) by {
      forall i, j | 0 <= i < 10 && 0 <= j < 10
        ensures r0[i] == r0[j] <==> before(i) == before(j)
      {
        assert s.InSameSet(i, j) <==> before(i) == before(j);
      }
    }
    s.Unite(x, y);
    forall i, j | 0 <= i < 10 && 0 <= j < 10
      ensures s.InSameSet(i, j) <==> after(i) == after(j)
    {
      assert r0[i] == r0[x] <==> before(i) == before(x);
      assert r0[j] == r0[y] <==> before(j) == before(y);
      assert r0[i] == r0[y] <==> before(i) == before(y);
      assert r0[j] == r0[x] <==> before(j) == before(x);
    }
  }

  /** One `Same(x, y)` of the scenario answers from the classes. */
  method SameStep(s: DisjointSet, x: nat, y: nat, cls: nat -> nat) returns (b: bool)
    requires Partitioned(s, cls)
    modifies s
    ensures Partitioned(s, cls)
    ensures b == (x < 10 && y < 10 && cls(x) == cls(y))
  {
    b := s.Same(x, y);
    if x < 10 && y < 10 {
      assert s.InSameSet(x, y) <==> cls(x) == cls(y);
    }
  }

  /** How the three unions of the scenario change the classes. */
  lemma ScenarioClasses()
    ensures forall i, j :: 0 <= i < 10 && 0 <= j < 10 ==>
      (AfterFirst(i) == AfterFirst(j) <==>
        Singletons(i) == Singletons(j) || (Singletons(i) == Singletons(0) && Singletons(j) == Singletons(1)) ||
        (Singletons(i) == Singletons(1) && Singletons(j) == Singletons(0)))
    ensures forall i, j :: 0 <= i < 10 && 0 <= j < 10 ==>
      (AfterSecond(i) == AfterSecond(j) <==>
        AfterFirst(i) == AfterFirst(j) || (AfterFirst(i) == AfterFirst(2) && AfterFirst(j) == AfterFirst(3)) ||
        (AfterFirst(i) == AfterFirst(3) && AfterFirst(j) == AfterFirst(2)))
    ensures forall i, j :: 0 <= i < 10 && 0 <= j < 10 ==>
      (AfterThird(i) == AfterThird(j) <==>
        AfterSecond(i) == AfterSecond(j) || (AfterSecond(i) == AfterSecond(1) && AfterSecond(j) == AfterSecond(3)) ||
        (AfterSecond(i) == AfterSecond(3) && AfterSecond(j) == AfterSecond(1)))
  {
  }

  /** Ten singletons; unite 0 with 1, then 2 with 3, then 1 with 3, asking
      `Same` along the way, and finally about two elements out of range. */
  method Scenario() returns (answers: seq<bool>)
    ensures answers == [true, false, true, false, true, true, true, false, false]
  {
    var s := new DisjointSet(10);
    assert Partitioned(s, Singletons);
    ScenarioClasses();
    UniteStep(s, 0, 1, Singletons, AfterFirst);
    var a0 := SameStep(s, 0, 1, AfterFirst);
    var a1 := SameStep(s, 0, 2, AfterFirst);
    UniteStep(s, 2, 3, AfterFirst, AfterSecond);
    var a2 := SameStep(s, 2, 3, AfterSecond);
    var a3 := SameStep(s, 0, 2, AfterSecond);
    UniteStep(s, 1, 3, AfterSecond, AfterThird);
    var a4 := SameStep(s, 0, 2, AfterThird);
    var a5 := SameStep(s, 1, 2, AfterThird);
    var a6 := SameStep(s, 0, 3, AfterThird);
    var a7 := SameStep(s, 0, 4, AfterThird);
    var a8 := SameStep(s, 11, 12, AfterThird);
    answers := [a0, a1, a2, a3, a4, a5, a6, a7, a8];
  }

  /** The guard of the Rust `root` as written: it lets every `x` up to
      and including the length go on to read `parent[x]`, and the
      length itself is not an index of `parent`. */
  lemma WrittenGuardAdmitsLength(s: DisjointSet)
    ensures var x := |s.parent|; !(x > |s.parent|) && !(0 <= x < |s.parent|)
  {
  }
}
