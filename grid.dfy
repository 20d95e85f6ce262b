/**
 * Neighbouring cells in a two-dimensional grid (`adj4` and `adj8`).
 *
 * The grid is a sequence of rows; only its height and the length of its
 * first row matter. Each function walks a fixed list of offsets in order
 * and keeps the shifted positions that fall inside the grid.
 */
module Grid {

  type Cell = (nat, nat)

  /** Up, down, left, right: the order `adj4` tries them in. */
  const Offsets4: seq<(int, int)> := [(-1, 0), (1, 0), (0, -1), (0, 1)]

  const Diagonals: seq<(int, int)> := [(-1, -1), (-1, 1), (1, -1), (1, 1)]

  /** The four of `adj4`, then the four diagonals. */
  const Offsets8: seq<(int, int)> := Offsets4 + Diagonals

  function Abs(x: int): nat { if x < 0 then -x else x }

  /** The filter both functions share: each offset in turn, shifted from
      `(row, col)`, kept when it lands in `[0, height) x [0, width)`. */
  function Neighbours(height: nat, width: nat, row: nat, col: nat, offsets: seq<(int, int)>): (r: seq<Cell>)
    ensures |r| <= |offsets|
    decreases |offsets|
  {
    if offsets == [] then []
    else
      var ny, nx := row + offsets[0].0, col + offsets[0].1;
      (if 0 <= ny < height && 0 <= nx < width then [(ny as nat, nx as nat)] else [])
        + Neighbours(height, width, row, col, offsets[1..])
  }

  /** A cell is reported exactly when it is inside the grid and its
      displacement from `(row, col)` is one of the offsets. */
  lemma {:induction false} NeighboursMember(height: nat, width: nat, row: nat, col: nat, offsets: seq<(int, int)>, p: Cell)
    ensures p in Neighbours(height, width, row, col, offsets) <==>
      p.0 < height && p.1 < width && (p.0 - row, p.1 - col) in offsets
    decreases |offsets|
  {
    if offsets != [] {
      NeighboursMember(height, width, row, col, offsets[1..], p);
      assert offsets == [offsets[0]] + offsets[1..];
    }
  }

  /** Filtering a concatenation of offset lists concatenates the results. */
  lemma {:induction false} NeighboursConcat(height: nat, width: nat, row: nat, col: nat, a: seq<(int, int)>, b: seq<(int, int)>)
    ensures Neighbours(height, width, row, col, a + b) ==
      Neighbours(height, width, row, col, a) + Neighbours(height, width, row, col, b)
    decreases |a|
  {
    if a != [] {
      assert (a + b)[0] == a[0] && (a + b)[1..] == a[1..] + b;
      NeighboursConcat(height, width, row, col, a[1..], b);
      var ny, nx := row + a[0].0, col + a[0].1;
      var h: seq<Cell> := if 0 <= ny < height && 0 <= nx < width then [(ny as nat, nx as nat)] else [];
      assert Neighbours(height, width, row, col, a) == h + Neighbours(height, width, row, col, a[1..]);
      assert Neighbours(height, width, row, col, a + b) == h + Neighbours(height, width, row, col, a[1..] + b);
    } else {
      assert a + b == b;
    }
  }

  ghost predicate Distinct<T>(s: seq<T>) {
    forall i, j :: 0 <= i < j < |s| ==> s[i] != s[j]
  }

  /** Distinct offsets give distinct cells: no neighbour is reported twice. */
  lemma {:induction false} NeighboursDistinct(height: nat, width: nat, row: nat, col: nat, offsets: seq<(int, int)>)
    requires Distinct(offsets)
    ensures Distinct(Neighbours(height, width, row, col, offsets))
    decreases |offsets|
  {
    if offsets != [] {
      var rest := offsets[1..];
      assert Distinct(rest) by {
        forall i, j | 0 <= i < j < |rest|
          ensures rest[i] != rest[j]
        {
          assert rest[i] == offsets[i + 1] && rest[j] == offsets[j + 1];
        }
      }
      NeighboursDistinct(height, width, row, col, rest);
      var tail := Neighbours(height, width, row, col, rest);
      var ny, nx := row + offsets[0].0, col + offsets[0].1;
      if 0 <= ny < height && 0 <= nx < width {
        var c: Cell := (ny as nat, nx as nat);
        NeighboursMember(height, width, row, col, rest, c);
        assert offsets[0] !in rest by {
          forall k | 0 <= k < |rest|
            ensures rest[k] != offsets[0]
          {
            assert rest[k] == offsets[k + 1];
          }
        }
        assert c !in tail;
        var r := [c] + tail;
        forall i, j | 0 <= i < j < |r|
          ensures r[i] != r[j]
        {
          if i == 0 {
            assert r[j] == tail[j - 1];
          } else {
            assert r[i] == tail[i - 1] && r[j] == tail[j - 1];
          }
        }
      }
    }
  }

  /** The offsets of `adj4` are the unit steps in Manhattan distance. */
  lemma Offsets4Steps(d: (int, int))
    ensures d in Offsets4 <==> Abs(d.0) + Abs(d.1) == 1
  {
  }

  /** The offsets of `adj8` are the unit steps in Chebyshev distance. */
  lemma Offsets8Steps(d: (int, int))
    ensures d in Offsets8 <==> d != (0, 0) && Abs(d.0) <= 1 && Abs(d.1) <= 1
  {
    assert Offsets8 == [(-1, 0), (1, 0), (0, -1), (0, 1), (-1, -1), (-1, 1), (1, -1), (1, 1)];
  }

  lemma OffsetsDistinct()
    ensures Distinct(Offsets4) && Distinct(Offsets8)
  {
    assert Offsets8 == [(-1, 0), (1, 0), (0, -1), (0, 1), (-1, -1), (-1, 1), (1, -1), (1, 1)];
  }

  /** The four orthogonal neighbours of `(row, col)` that lie in the grid:
      exactly the cells at Manhattan distance one, each once. */
  function Adj4<T>(g: seq<seq<T>>, row: nat, col: nat): (r: seq<Cell>)
    requires |g| > 0 && |g[0]| > 0
    ensures |r| <= 4 && Distinct(r)
    ensures forall p: Cell :: p in r <==>
      p.0 < |g| && p.1 < |g[0]| && Abs(p.0 - row) + Abs(p.1 - col) == 1
  {
    var r := Neighbours(|g|, |g[0]|, row, col, Offsets4);
    assert forall p: Cell :: p in r <==> p.0 < |g| && p.1 < |g[0]| && Abs(p.0 - row) + Abs(p.1 - col) == 1 by {
      forall p: Cell
        ensures p in r <==> p.0 < |g| && p.1 < |g[0]| && Abs(p.0 - row) + Abs(p.1 - col) == 1
      {
        NeighboursMember(|g|, |g[0]|, row, col, Offsets4, p);
        Offsets4Steps((p.0 - row, p.1 - col));
      }
    }
    OffsetsDistinct();
    NeighboursDistinct(|g|, |g[0]|, row, col, Offsets4);
    r
  }

  /** The eight surrounding cells of `(row, col)` that lie in the grid:
      exactly the cells at Chebyshev distance one, each once. */
  function Adj8<T>(g: seq<seq<T>>, row: nat, col: nat): (r: seq<Cell>)
    requires |g| > 0 && |g[0]| > 0
    ensures |r| <= 8 && Distinct(r)
    ensures forall p: Cell :: p in r <==>
      p.0 < |g| && p.1 < |g[0]| && p != (row, col) && Abs(p.0 - row) <= 1 && Abs(p.1 - col) <= 1
  {
    var r := Neighbours(|g|, |g[0]|, row, col, Offsets8);
    assert forall p: Cell :: p in r <==>
        p.0 < |g| && p.1 < |g[0]| && p != (row, col) && Abs(p.0 - row) <= 1 && Abs(p.1 - col) <= 1 by {
      forall p: Cell
        ensures p in r <==> p.0 < |g| && p.1 < |g[0]| && p != (row, col) && Abs(p.0 - row) <= 1 && Abs(p.1 - col) <= 1
      {
        NeighboursMember(|g|, |g[0]|, row, col, Offsets8, p);
        Offsets8Steps((p.0 - row, p.1 - col));
      }
    }
    OffsetsDistinct();
    NeighboursDistinct(|g|, |g[0]|, row, col, Offsets8);
    r
  }

  /** The orthogonal neighbours are among the surrounding ones. */
  lemma Adj4WithinAdj8<T>(g: seq<seq<T>>, row: nat, col: nat)
    requires |g| > 0 && |g[0]| > 0
    ensures forall p :: p in Adj4(g, row, col) ==> p in Adj8(g, row, col)
  {
  }

  /** The examples on a 3 x 3 grid. The results come in the order of the
      offsets; as multisets they are the sorted vectors the examples
      expect. */
  lemma Neighbours4On3x3()
    ensures Neighbours(3, 3, 0, 0, Offsets4) == [(1, 0), (0, 1)]
    ensures Neighbours(3, 3, 1, 1, Offsets4) == [(0, 1), (2, 1), (1, 0), (1, 2)]
    ensures Neighbours(3, 3, 0, 1, Offsets4) == [(1, 1), (0, 0), (0, 2)]
    ensures Neighbours(3, 3, 1, 2, Offsets4) == [(0, 2), (2, 2), (1, 1)]
  {
  }

  lemma Adj4Examples()
    ensures var v := [[1, 2, 3], [4, 5, 6], [7, 8, 9]];
      Adj4(v, 0, 0) == [(1, 0), (0, 1)] &&
      Adj4(v, 1, 1) == [(0, 1), (2, 1), (1, 0), (1, 2)] &&
      Adj4(v, 0, 1) == [(1, 1), (0, 0), (0, 2)] &&
      Adj4(v, 1, 2) == [(0, 2), (2, 2), (1, 1)]
  {
    Neighbours4On3x3();
  }

  lemma Neighbours8At00()
    ensures Neighbours(3, 3, 0, 0, Offsets8) == [(1, 0), (0, 1), (1, 1)]
  {
    Neighbours8Split(3, 3, 0, 0);
  }

  lemma Neighbours8At11()
    ensures Neighbours(3, 3, 1, 1, Offsets8) == [(0, 1), (2, 1), (1, 0), (1, 2), (0, 0), (0, 2), (2, 0), (2, 2)]
  {
    Neighbours8Split(3, 3, 1, 1);
  }

  lemma Neighbours8At01()
    ensures Neighbours(3, 3, 0, 1, Offsets8) == [(1, 1), (0, 0), (0, 2), (1, 0), (1, 2)]
  {
    Neighbours8Split(3, 3, 0, 1);
  }

  lemma Neighbours8At12()
    ensures Neighbours(3, 3, 1, 2, Offsets8) == [(0, 2), (2, 2), (1, 1), (0, 1), (2, 1)]
  {
    Neighbours8Split(3, 3, 1, 2);
  }

  /** The eight neighbours are the four orthogonal ones, then the diagonal ones. */
  lemma Neighbours8Split(h: nat, w: nat, x: nat, y: nat)
    ensures Neighbours(h, w, x, y, Offsets8) == Neighbours(h, w, x, y, Offsets4) + Neighbours(h, w, x, y, Diagonals)
  {
    NeighboursConcat(h, w, x, y, Offsets4, Diagonals);
  }

  lemma Adj8Examples()
    ensures var v := [[1, 2, 3], [4, 5, 6], [7, 8, 9]];
      Adj8(v, 0, 0) == [(1, 0), (0, 1), (1, 1)] &&
      Adj8(v, 1, 1) == [(0, 1), (2, 1), (1, 0), (1, 2), (0, 0), (0, 2), (2, 0), (2, 2)] &&
      Adj8(v, 0, 1) == [(1, 1), (0, 0), (0, 2), (1, 0), (1, 2)] &&
      Adj8(v, 1, 2) == [(0, 2), (2, 2), (1, 1), (0, 1), (2, 1)]
  {
    Neighbours8At00();
    Neighbours8At11();
    Neighbours8At01();
    Neighbours8At12();
  }
}
