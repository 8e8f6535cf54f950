/** `MultilevelHierarchy` of multilevel_hierarchy.py: an object that keeps
    the connection probability matrix it was given and the connection power
    matrix derived from it. */
module Hierarchy {
  import opened Matrices
  import opened StructureBuilder

  class MultilevelHierarchy {
    /** The probability matrix given to the constructor (shared, not copied). */
    var connprob: array2<real>
    /** The connection power matrix, a new array. */
    var connpwr: array2<real>

    /** The product of `connprob` with its transpose, entry by entry, after
        which row 0 is replaced by the squares of row 0 of `connprob`. The
        result is the same power matrix that the tree builder derives. */
    constructor(connprob: array2<real>)
      requires 1 <= connprob.Length0 == connprob.Length1
      ensures this.connprob == connprob
      ensures fresh(connpwr) && connpwr.Length0 == connpwr.Length1 == connprob.Length0
      ensures Snapshot(connpwr) == PowerOf(Snapshot(connprob))
    {
      var n := connprob.Length0;
      var product := new real[n, n]((i, j) requires 0 <= i < n && 0 <= j < n reads connprob =>
        Mul(connprob[i, j], connprob[j, i]));
      forall j | 0 <= j < n {
        product[0, j] := Mul(connprob[0, j], connprob[0, j]);
      }
      PowerSnapshot(product, connprob);
      this.connprob := connprob;
      this.connpwr := product;
    }
  }

  /** The hierarchy derives the same power matrix as the tree builder's
      connection_power does from the same probabilities. */
  method SamePowerAsBuilder(connprob: array2<real>) returns (h: MultilevelHierarchy, cpower: array2<real>)
    requires 1 <= connprob.Length0 == connprob.Length1
    ensures h.connprob == connprob
    ensures Snapshot(h.connpwr) == Snapshot(cpower)
  {
    h := new MultilevelHierarchy(connprob);
    cpower := ConnectionPower(connprob);
  }
}
