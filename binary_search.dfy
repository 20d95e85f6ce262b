/**
 * Binary searches over a slice: `lower_bound`, `upper_bound` and
 * `lower_bound_by`.
 *
 * All three run the same loop on two cursors, `ok` (a position known to
 * satisfy the predicate, or the length) and `ng` (a position known not to,
 * or -1), halving the gap until the cursors are adjacent. `LowerBoundBy`
 * is that loop; the other two are it with the predicates `x >= value` and
 * `x > value`. The slice elements are modelled as `int` for the two
 * ordered searches.
 */
module BinarySearch {

  /** `p` holds on a suffix of `s`: once true, it stays true. */
  ghost predicate Monotone<T>(s: seq<T>, p: T -> bool) {
    forall i, j :: 0 <= i <= j < |s| && p(s[i]) ==> p(s[j])
  }

  ghost predicate Sorted(s: seq<int>) {
    forall i, j :: 0 <= i <= j < |s| ==> s[i] <= s[j]
  }

  /** `r` separates `s`: `p` fails just before it and holds at it (the
      ends of the slice count as failing and holding). */
  ghost predicate Boundary<T>(s: seq<T>, p: T -> bool, r: int) {
    0 <= r <= |s| && (r == |s| || p(s[r])) && (r == 0 || !p(s[r - 1]))
  }

  /** The reference definition: the first position where `p` holds, or the
      length when there is none. */
  function FirstTrue<T>(s: seq<T>, p: T -> bool): (r: nat)
    ensures r <= |s|
    decreases |s|
  {
    if s == [] then 0 else if p(s[0]) then 0 else 1 + FirstTrue(s[1..], p)
  }

  /** The number of elements on which `p` holds. */
  function CountWhere<T>(s: seq<T>, p: T -> bool): (c: nat)
    ensures c <= |s|
    decreases |s|
  {
    if s == [] then 0 else (if p(s[0]) then 1 else 0) + CountWhere(s[1..], p)
  }

  /** `FirstTrue` is the first position where `p` holds. */
  lemma {:induction false} FirstTrueIsFirst<T>(s: seq<T>, p: T -> bool)
    ensures forall i :: 0 <= i < FirstTrue(s, p) ==> !p(s[i])
    ensures FirstTrue(s, p) < |s| ==> p(s[FirstTrue(s, p)])
    decreases |s|
  {
    if s != [] && !p(s[0]) {
      FirstTrueIsFirst(s[1..], p);
      forall i | 0 <= i < FirstTrue(s, p)
        ensures !p(s[i])
      {
        if i > 0 {
          assert s[i] == s[1..][i - 1];
        }
      }
    }
  }

  /** On a monotone slice the boundary is unique: it is `FirstTrue`, and
      everything from it on satisfies `p`. */
  lemma {:induction false} BoundaryIsFirstTrue<T>(s: seq<T>, p: T -> bool, r: int)
    requires Monotone(s, p) && Boundary(s, p, r)
    ensures r == FirstTrue(s, p)
    ensures forall i :: 0 <= i < r ==> !p(s[i])
    ensures forall i :: r <= i < |s| ==> p(s[i])
  {
    FirstTrueIsFirst(s, p);
  }

  /** On a monotone slice the boundary counts the elements that satisfy
      `p`: there are `|s| - r` of them. */
  lemma {:induction false} CountFromBoundary<T>(s: seq<T>, p: T -> bool, r: int)
    requires Monotone(s, p) && Boundary(s, p, r)
    ensures CountWhere(s, p) == |s| - r
    decreases |s|
  {
    if s != [] {
      var t := s[1..];
      assert Monotone(t, p) by {
        forall i, j | 0 <= i <= j < |t| && p(t[i])
          ensures p(t[j])
        {
          assert t[i] == s[i + 1] && t[j] == s[j + 1];
        }
      }
      if r == 0 {
        BoundaryIsFirstTrue(s, p, r);
        assert p(s[0]);
        assert Boundary(t, p, 0) by {
          assert t == [] || p(t[0]) by {
            if t != [] {
              assert t[0] == s[1];
            }
          }
        }
        CountFromBoundary(t, p, 0);
      } else {
        assert !p(s[0]) by {
          BoundaryIsFirstTrue(s, p, r);
        }
        assert Boundary(t, p, r - 1) by {
          if r < |s| {
            assert t[r - 1] == s[r];
          }
          if r > 1 {
            assert t[r - 2] == s[r - 1];
          }
        }
        CountFromBoundary(t, p, r - 1);
      }
    }
  }

  /** The loop of `lower_bound_by`. Whatever `p`, the result is a
      boundary where `p` switches from false to true; when `p` holds on a
      suffix, `BoundaryIsFirstTrue` and `CountFromBoundary` make that the
      least position whose element satisfies `p`. */
  method LowerBoundBy<T>(s: seq<T>, p: T -> bool) returns (r: nat)
    ensures Boundary(s, p, r)
  {
    var ok: int := |s|;
    var ng: int := -1;
    while ok - ng > 1
      invariant -1 <= ng < ok <= |s|
      invariant ok == |s| || p(s[ok])
      invariant ng == -1 || !p(s[ng])
      decreases ok - ng
    {
      // ok + ng >= 0 here, so Rust's truncating division agrees with Dafny's
      var mid := (ok + ng) / 2;
      if p(s[mid]) {
        ok := mid;
      } else {
        ng := mid;
      }
    }
    r := ok;
  }

  /** Sortedness makes `x >= value` hold on a suffix. */
  lemma SortedMonotone(s: seq<int>, value: int, strict: bool)
    requires Sorted(s)
    ensures Monotone(s, x => if strict then x > value else x >= value)
  {
  }

  /** The least index whose element is at least `value`; `|s| - r` is the
      number of such elements. */
  method LowerBound(s: seq<int>, value: int) returns (r: nat)
    requires Sorted(s)
    ensures r <= |s|
    ensures forall i :: 0 <= i < r ==> s[i] < value
    ensures forall i :: r <= i < |s| ==> s[i] >= value
    ensures |s| - r == CountWhere(s, x => x >= value)
  {
    SortedMonotone(s, value, false);
    r := LowerBoundBy(s, x => x >= value);
    BoundaryIsFirstTrue(s, x => x >= value, r);
    CountFromBoundary(s, x => x >= value, r);
  }

  /** The least index whose element exceeds `value`; `|s| - r` is the
      number of such elements. */
  method UpperBound(s: seq<int>, value: int) returns (r: nat)
    requires Sorted(s)
    ensures r <= |s|
    ensures forall i :: 0 <= i < r ==> s[i] <= value
    ensures forall i :: r <= i < |s| ==> s[i] > value
    ensures |s| - r == CountWhere(s, x => x > value)
  {
    SortedMonotone(s, value, true);
    r := LowerBoundBy(s, x => x > value);
    BoundaryIsFirstTrue(s, x => x > value, r);
    CountFromBoundary(s, x => x > value, r);
  }

  lemma SampleSorted()
    ensures Sorted([2, 2, 5, 5, 9])
  {
  }

  /** `lower_bound` on `[2, 2, 5, 5, 9]` for 1, 2, 3, 5, 8, 9 and 10. */
  method LowerBoundScenario() returns (found: seq<nat>)
    ensures found == [0, 0, 2, 2, 4, 4, 5]
  {
    var below := LowerBoundsSmall();
    var above := LowerBoundsLarge();
    found := below + above;
  }

  method LowerBoundsSmall() returns (found: seq<nat>)
    ensures found == [0, 0, 2]
  {
    var v := [2, 2, 5, 5, 9];
    SampleSorted();
    var r1 := LowerBound(v, 1);
    var r2 := LowerBound(v, 2);
    var r3 := LowerBound(v, 3);
    assert v[1] == 2;
    found := [r1, r2, r3];
  }

  method LowerBoundsLarge() returns (found: seq<nat>)
    ensures found == [2, 4, 4, 5]
  {
    var v := [2, 2, 5, 5, 9];
    SampleSorted();
    var r5 := LowerBound(v, 5);
    var r8 := LowerBound(v, 8);
    assert v[1] == 2 && v[3] == 5;
    var r9 := LowerBound(v, 9);
    var r10 := LowerBound(v, 10);
    assert v[4] == 9;
    found := [r5, r8, r9, r10];
  }

  /** `upper_bound` on `[2, 2, 5, 5, 9]` for 1, 2, 3, 5, 8, 9 and 10. */
  method UpperBoundScenario() returns (found: seq<nat>)
    ensures found == [0, 2, 2, 4, 4, 5, 5]
  {
    var below := UpperBoundsSmall();
    var above := UpperBoundsLarge();
    found := below + above;
  }

  method UpperBoundsSmall() returns (found: seq<nat>)
    ensures found == [0, 2, 2]
  {
    var v := [2, 2, 5, 5, 9];
    SampleSorted();
    var r1 := UpperBound(v, 1);
    var r2 := UpperBound(v, 2);
    var r3 := UpperBound(v, 3);
    assert v[1] == 2;
    found := [r1, r2, r3];
  }

  method UpperBoundsLarge() returns (found: seq<nat>)
    ensures found == [4, 4, 5, 5]
  {
    var v := [2, 2, 5, 5, 9];
    SampleSorted();
    var r5 := UpperBound(v, 5);
    var r8 := UpperBound(v, 8);
    assert v[3] == 5;
    var r9 := UpperBound(v, 9);
    var r10 := UpperBound(v, 10);
    assert v[4] == 9;
    found := [r5, r8, r9, r10];
  }

  /** The count examples: three elements are at least 4, one is at least 9,
      three exceed 4 and one exceeds 5. */
  method CountScenario() returns (atLeast4: nat, atLeast9: nat, above4: nat, above5: nat)
    ensures atLeast4 == 3 && atLeast9 == 1 && above4 == 3 && above5 == 1
  {
    var v := [2, 2, 5, 5, 9];
    SampleSorted();
    var r := LowerBound(v, 4);
    atLeast4 := |v| - r;
    r := LowerBound(v, 9);
    atLeast9 := |v| - r;
    r := UpperBound(v, 4);
    above4 := |v| - r;
    r := UpperBound(v, 5);
    above5 := |v| - r;
  }

  /** The `lower_bound_by` examples: string lengths 3, 3, 3, 19, 24 and
      the predicates "length at least 2, 3, 4, 19, 20, 24, 25". */
  method LengthScenario() returns (found: seq<nat>)
    ensures found == [0, 0, 3, 3, 4, 4, 5]
  {
    var v := ["abc", "def", "ghi", "THIS_IS_LONG_STRING", "THIS_IS_ALSO_LONG_STRING"];
    assert |v[0]| == 3 && |v[1]| == 3 && |v[2]| == 3 && |v[3]| == 19 && |v[4]| == 24;
    var r2 := LowerBoundBy(v, (w: string) => |w| >= 2);
    assert r2 == 0;
    var r3 := LowerBoundBy(v, (w: string) => |w| >= 3);
    assert r3 == 0;
    var r4 := LowerBoundBy(v, (w: string) => |w| >= 4);
    assert r4 == 3;
    var r19 := LowerBoundBy(v, (w: string) => |w| >= 19);
    assert r19 == 3;
    var r20 := LowerBoundBy(v, (w: string) => |w| >= 20);
    assert r20 == 4;
    var r24 := LowerBoundBy(v, (w: string) => |w| >= 24);
    assert r24 == 4;
    var r25 := LowerBoundBy(v, (w: string) => |w| >= 25);
    assert r25 == 5;
    found := [r2, r3, r4, r19, r20, r24, r25];
  }
}
