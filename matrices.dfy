/** Dense real matrices as values, and the relations between two values of one
    matrix that the repair loops of the tree builder maintain. */
module Matrices {

  /** A matrix value, row by row; `m[i][j]` is the entry from node i to node j. */
  type Matrix = seq<seq<real>>

  /** `m` is an n-by-n matrix. */
  ghost predicate IsSquare(m: Matrix, n: nat) {
    |m| == n && forall i :: 0 <= i < n ==> |m[i]| == n
  }

  /** The current value of a two-dimensional array. */
  function Snapshot(a: array2<real>): (m: Matrix)
    reads a
    ensures |m| == a.Length0
    ensures forall i :: 0 <= i < a.Length0 ==> |m[i]| == a.Length1
    ensures forall i, j :: 0 <= i < a.Length0 && 0 <= j < a.Length1 ==> m[i][j] == a[i, j]
  {
    seq(a.Length0, i requires 0 <= i < a.Length0 reads a =>
      seq(a.Length1, j requires 0 <= j < a.Length1 reads a => a[i, j]))
  }

  /** Two matrices of the same shape with the same entries are the same value. */
  lemma SameEntries(a: Matrix, b: Matrix)
    requires |a| == |b| && forall i :: 0 <= i < |a| ==> |a[i]| == |b[i]|
    requires forall i, j :: 0 <= i < |a| && 0 <= j < |a[i]| ==> a[i][j] == b[i][j]
    ensures a == b
  {
    forall i | 0 <= i < |a|
      ensures a[i] == b[i]
    {
      assert |a[i]| == |b[i]|;
    }
  }

  /** `y` is `x` moved toward zero: zero, or of the same sign and no larger in magnitude. */
  predicate MovedTowardZero(x: real, y: real) {
    y == 0.0 || 0.0 < y <= x || x <= y < 0.0
  }

  /** Every entry of `b` is the entry of `a` at the same place, moved toward zero. */
  ghost predicate TowardZero(a: Matrix, b: Matrix) {
    && |a| == |b|
    && (forall i :: 0 <= i < |a| ==> |a[i]| == |b[i]|)
    && forall i, j :: 0 <= i < |a| && 0 <= j < |a[i]| ==> MovedTowardZero(a[i][j], b[i][j])
  }

  lemma TowardZeroReflexive(a: Matrix)
    ensures TowardZero(a, a)
  {
  }

  lemma TowardZeroTransitive(a: Matrix, b: Matrix, c: Matrix)
    requires TowardZero(a, b) && TowardZero(b, c)
    ensures TowardZero(a, c)
  {
    forall i, j | 0 <= i < |a| && 0 <= j < |a[i]|
      ensures MovedTowardZero(a[i][j], c[i][j])
    {
      assert MovedTowardZero(a[i][j], b[i][j]) && MovedTowardZero(b[i][j], c[i][j]);
    }
  }

  /** The places of the nonzero entries: the edges a solver may still use. */
  ghost function Support(m: Matrix): set<(int, int)> {
    set i, j | 0 <= i < |m| && 0 <= j < |m[i]| && m[i][j] != 0.0 :: (i, j)
  }

  /** An array whose entries are those of `m` holds the value `m`. */
  lemma SnapshotIs(a: array2<real>, m: Matrix)
    requires |m| == a.Length0 && forall i :: 0 <= i < |m| ==> |m[i]| == a.Length1
    requires forall i, j :: 0 <= i < a.Length0 && 0 <= j < a.Length1 ==> a[i, j] == m[i][j]
    ensures Snapshot(a) == m
  {
    SameEntries(Snapshot(a), m);
  }

  /** `m` with the entry at (i, j) set to zero. */
  ghost function ZeroEntry(m: Matrix, i: int, j: int): (r: Matrix)
    requires 0 <= i < |m| && 0 <= j < |m[i]|
    ensures |r| == |m| && forall k :: 0 <= k < |m| ==> |r[k]| == |m[k]|
  {
    m[i := m[i][j := 0.0]]
  }

  /** Zeroing one entry moves the matrix toward zero, and removes an edge
      when the entry was nonzero. */
  lemma ZeroEntryShrinks(m: Matrix, i: int, j: int)
    requires 0 <= i < |m| && 0 <= j < |m[i]|
    ensures TowardZero(m, ZeroEntry(m, i, j))
    ensures m[i][j] != 0.0 ==> Support(ZeroEntry(m, i, j)) < Support(m)
  {
    assert TowardZero(m, ZeroEntry(m, i, j));
    SupportShrinks(m, ZeroEntry(m, i, j), i, j);
  }

  /** Moving entries toward zero never creates an edge, and zeroing a nonzero
      entry removes one: the termination measure of the repair loops. */
  lemma SupportShrinks(a: Matrix, b: Matrix, i: int, j: int)
    requires TowardZero(a, b)
    ensures Support(b) <= Support(a)
    ensures 0 <= i < |a| && 0 <= j < |a[i]| && a[i][j] != 0.0 && b[i][j] == 0.0 ==> Support(b) < Support(a)
  {
    forall e | e in Support(b)
      ensures e in Support(a)
    {
      var (r, c) := e;
      assert MovedTowardZero(a[r][c], b[r][c]);
    }
    if 0 <= i < |a| && 0 <= j < |a[i]| && a[i][j] != 0.0 && b[i][j] == 0.0 {
      assert (i, j) in Support(a) - Support(b);
    }
  }

  /** The places of an n-by-n matrix. */
  ghost function Grid(rows: nat, cols: nat): set<(int, int)> {
    set i, j | 0 <= i < rows && 0 <= j < cols :: (i, j)
  }

  ghost function GridRow(i: int, cols: nat): set<(int, int)> {
    set j | 0 <= j < cols :: (i, j)
  }

  lemma {:induction false} GridRowSize(i: int, cols: nat)
    ensures |GridRow(i, cols)| == cols
  {
    if cols > 0 {
      GridRowSize(i, cols - 1);
      assert GridRow(i, cols) == GridRow(i, cols - 1) + {(i, cols - 1)};
    } else {
      assert GridRow(i, cols) == {};
    }
  }

  lemma {:induction false} GridSize(rows: nat, cols: nat)
    ensures |Grid(rows, cols)| == rows * cols
  {
    if rows > 0 {
      var upper, last := Grid(rows - 1, cols), GridRow(rows - 1, cols);
      GridSize(rows - 1, cols);
      GridRowSize(rows - 1, cols);
      forall e | e in Grid(rows, cols)
        ensures e in upper + last
      {
        var (i, j) := e;
        if i < rows - 1 {
          assert (i, j) in upper;
        }
      }
      assert Grid(rows, cols) == upper + last;
      assert upper !! last;
      AddRow(rows - 1, cols);
    } else {
      assert Grid(rows, cols) == {};
    }
  }

  lemma AddRow(k: nat, cols: nat)
    ensures k * cols + cols == (k + 1) * cols
  {
  }

  lemma {:induction false} SubsetSize<T>(a: set<T>, b: set<T>)
    requires a <= b
    ensures |a| <= |b|
  {
    if a != {} {
      var x :| x in a;
      SubsetSize(a - {x}, b - {x});
    }
  }

  /** An n-by-n matrix has at most n * n edges: the number of times the
      repair loops can strictly shrink the support before it is empty. */
  lemma SupportBound(m: Matrix, n: nat)
    requires IsSquare(m, n)
    ensures |Support(m)| <= n * n
  {
    assert Support(m) <= Grid(n, n);
    SubsetSize(Support(m), Grid(n, n));
    GridSize(n, n);
  }

  /** Number of positive entries of a row; in a tree matrix, the number of
      children (slaves) of that node. */
  function CountPositive(s: seq<real>): (c: nat)
    ensures c <= |s|
  {
    if s == [] then 0
    else CountPositive(s[..|s| - 1]) + (if s[|s| - 1] > 0.0 then 1 else 0)
  }

  lemma {:induction false} CountPositiveNone(s: seq<real>)
    ensures CountPositive(s) == 0 <==> forall q :: 0 <= q < |s| ==> s[q] <= 0.0
  {
    if s != [] {
      CountPositiveNone(s[..|s| - 1]);
      assert forall q :: 0 <= q < |s| - 1 ==> s[..|s| - 1][q] == s[q];
    }
  }

  /** Extending a prefix by one element. */
  lemma CountPositiveStep(s: seq<real>, j: nat)
    requires j < |s|
    ensures CountPositive(s[..j + 1]) == CountPositive(s[..j]) + (if s[j] > 0.0 then 1 else 0)
  {
    assert s[..j + 1][..j] == s[..j];
  }
}
