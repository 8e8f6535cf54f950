/** The two graph routines the tree builder borrows from networkx, given only
    by the contracts the builder relies on: the maximum spanning arborescence
    solver (with the conversions between weight matrix and graph around it)
    and the longest path of a directed acyclic graph. A build receives both as
    function values, so every solve on the same matrix gives the same tree. */
module Arborescence {
  import opened Matrices

  /** A solve either yields the tree, as an n-by-n weight matrix whose nonzero
      entries are its edges, or fails because no spanning arborescence rooted
      at node 0 exists. */
  datatype Solution = Tree(weights: Matrix) | NoTreeFound

  /** The tree `t` was taken from the weight matrix `m`: same size, and every
      edge of the tree carries the weight the matrix gives it. Row i of `t`
      holds the edges from node i to its children. */
  ghost predicate CopiesEdges(t: Matrix, m: Matrix) {
    && IsSquare(m, |m|)
    && IsSquare(t, |m|)
    && forall i, j :: 0 <= i < |m| && 0 <= j < |m| && t[i][j] != 0.0 ==> t[i][j] == m[i][j]
  }

  /** What the builder assumes of the solver. */
  ghost predicate SolverContract(solve: Matrix -> Solution) {
    forall m :: IsSquare(m, |m|) && solve(m).Tree? ==> CopiesEdges(solve(m).weights, m)
  }

  /** `p` is a nonempty sequence of nodes of the tree `t`, each consecutive
      pair joined by an edge of `t`. */
  ghost predicate IsTreePath(p: seq<int>, t: Matrix) {
    && IsSquare(t, |t|)
    && 1 <= |p|
    && (forall k :: 0 <= k < |p| ==> 0 <= p[k] < |t|)
    && forall k :: 0 <= k < |p| - 1 ==> t[p[k]][p[k + 1]] != 0.0
  }

  /** What the builder assumes of the longest-path routine: on a graph with at
      least one node it returns a path of that graph. */
  ghost predicate PathContract(longestPath: Matrix -> seq<int>) {
    forall t :: 1 <= |t| && IsSquare(t, |t|) ==> IsTreePath(longestPath(t), t)
  }

  /** Every node of the tree `t` has at most `maxSlaves` children. */
  ghost predicate WithinFanOut(t: Matrix, maxSlaves: int) {
    forall i :: 0 <= i < |t| ==> CountPositive(t[i]) <= maxSlaves
  }
}
