/** The steps of `StructureBuilder.build_tree` (core.py) that inspect a solved
    tree and edit the power matrix in place: the reweighting of multi-child
    nodes, one scan of the max_slaves repair, and one step of the max_depth
    repair. Each is specified by a function or predicate on matrix values. */
module RepairSteps {
  import opened Matrices
  import opened Arborescence
  import opened Utils

  /** 2 to the power k: the divisor of the k-th tree edge of a reweighted row. */
  function Pow2(k: nat): (r: real)
    ensures 1.0 <= r
  {
    if k == 0 then 1.0 else 2.0 * Pow2(k - 1)
  }

  /** The reweighting pass on the power matrix `m`, for the reference tree `t`:
      in every row with more than one tree edge, the k-th tree edge in
      ascending column order (k from 0) has its power divided by 2^k; every
      other entry keeps its value. */
  ghost function Reweighted(m: Matrix, t: Matrix): (r: Matrix)
    requires IsSquare(m, |m|) && IsSquare(t, |m|)
    ensures IsSquare(r, |m|)
  {
    seq(|m|, i requires 0 <= i < |m| =>
      seq(|m|, j requires 0 <= j < |m| =>
        if CountPositive(t[i]) > 1 && t[i][j] > 0.0 then m[i][j] / Pow2(CountPositive(t[i][..j]))
        else m[i][j]))
  }

  lemma DivideByAtLeastOne(x: real, p: real)
    requires 1.0 <= p
    ensures MovedTowardZero(x, x / p)
    ensures x != 0.0 ==> x / p != 0.0
  {
    assert x / p * p == x;
  }

  /** Reweighting only shrinks powers toward zero, and removes no edge: the
      solver keeps every edge it had, only less attractive. */
  lemma {:induction false} ReweightedTowardZero(m: Matrix, t: Matrix)
    requires IsSquare(m, |m|) && IsSquare(t, |m|)
    ensures TowardZero(m, Reweighted(m, t))
    ensures Support(Reweighted(m, t)) == Support(m)
  {
    var r := Reweighted(m, t);
    forall i, j | 0 <= i < |m| && 0 <= j < |m|
      ensures MovedTowardZero(m[i][j], r[i][j])
      ensures m[i][j] != 0.0 <==> r[i][j] != 0.0
    {
      if CountPositive(t[i]) > 1 && t[i][j] > 0.0 {
        DivideByAtLeastOne(m[i][j], Pow2(CountPositive(t[i][..j])));
      }
    }
  }

  /** The rows of the tree `t` that have more than one child, in ascending
      order (nodes_to_reweight). */
  method NodesToReweight(t: Matrix) returns (nodes: seq<int>)
    requires IsSquare(t, |t|)
    ensures forall k :: 0 <= k < |nodes| ==> 0 <= nodes[k] < |t|
    ensures forall k1, k2 :: 0 <= k1 < k2 < |nodes| ==> nodes[k1] < nodes[k2]
    ensures forall i :: 0 <= i < |t| ==> (i in nodes <==> CountPositive(t[i]) > 1)
  {
    var msize := |t|;
    nodes := [];
    for i := 0 to msize
      invariant forall k :: 0 <= k < |nodes| ==> 0 <= nodes[k] < i
      invariant forall k1, k2 :: 0 <= k1 < k2 < |nodes| ==> nodes[k1] < nodes[k2]
      invariant forall r :: 0 <= r < i ==> (r in nodes <==> CountPositive(t[r]) > 1)
    {
      var connectionCounter := 0;
      for j := 0 to msize
        invariant connectionCounter == CountPositive(t[i][..j])
      {
        CountPositiveStep(t[i], j);
        if t[i][j] > 0.0 {
          connectionCounter := connectionCounter + 1;
        }
      }
      assert t[i][..msize] == t[i];
      if connectionCounter > 1 {
        nodes := nodes + [i];
      }
    }
  }

  /** One row of the reweighting loop: divides the power of the tree edges
      of row `i` by 1, 2, 4, ... in ascending column order. */
  method ReweightRow(cpower: array2<real>, baseTree: Matrix, i: int)
    requires cpower.Length0 == cpower.Length1 && IsSquare(baseTree, cpower.Length0)
    requires 0 <= i < cpower.Length0
    modifies cpower
    ensures forall r, c :: 0 <= r < cpower.Length0 && r != i && 0 <= c < cpower.Length0 ==>
      cpower[r, c] == old(cpower[r, c])
    ensures forall c :: 0 <= c < cpower.Length0 ==>
      cpower[i, c] == if baseTree[i][c] > 0.0 then old(cpower[i, c]) / Pow2(CountPositive(baseTree[i][..c]))
                      else old(cpower[i, c])
  {
    var msize := cpower.Length0;
    ghost var target := seq(msize, c requires 0 <= c < msize reads cpower =>
      if baseTree[i][c] > 0.0 then cpower[i, c] / Pow2(CountPositive(baseTree[i][..c])) else cpower[i, c]);
    var div := 1.0;
    for j := 0 to msize
      invariant div == Pow2(CountPositive(baseTree[i][..j]))
      invariant forall r, c :: 0 <= r < msize && r != i && 0 <= c < msize ==> cpower[r, c] == old(cpower[r, c])
      invariant forall c :: 0 <= c < msize ==> cpower[i, c] == if c < j then target[c] else old(cpower[i, c])
    {
      CountPositiveStep(baseTree[i], j);
      if baseTree[i][j] > 0.0 {
        cpower[i, j] := cpower[i, j] / div;
        div := div * 2.0;
      }
      assert cpower[i, j] == target[j];
    }
  }

  /** The reweighting loop: divides, row by row for the listed nodes, the
      power of each tree edge by 1, 2, 4, ... in ascending column order. */
  method ReweightNodes(cpower: array2<real>, baseTree: Matrix, nodes: seq<int>)
    requires cpower.Length0 == cpower.Length1 && IsSquare(baseTree, cpower.Length0)
    requires forall k :: 0 <= k < |nodes| ==> 0 <= nodes[k] < cpower.Length0
    requires forall k1, k2 :: 0 <= k1 < k2 < |nodes| ==> nodes[k1] < nodes[k2]
    requires forall i :: 0 <= i < cpower.Length0 ==> (i in nodes <==> CountPositive(baseTree[i]) > 1)
    modifies cpower
    ensures Snapshot(cpower) == Reweighted(old(Snapshot(cpower)), baseTree)
  {
    var msize := cpower.Length0;
    ghost var before := Snapshot(cpower);
    ghost var after := Reweighted(before, baseTree);
    for k := 0 to |nodes|
      invariant forall r, c :: 0 <= r < msize && 0 <= c < msize ==>
        cpower[r, c] == if r in nodes[..k] then after[r][c] else before[r][c]
    {
      var i := nodes[k];
      assert i !in nodes[..k];
      ReweightRow(cpower, baseTree, i);
      assert nodes[..k + 1] == nodes[..k] + [i];
    }
    assert nodes[..|nodes|] == nodes;
    forall r, c | 0 <= r < msize && 0 <= c < msize
      ensures Snapshot(cpower)[r][c] == after[r][c]
    {
      if r !in nodes {
        assert after[r][c] == before[r][c];
      }
    }
    SameEntries(Snapshot(cpower), after);
  }

  /** Column `j` holds the weakest edge of the tree row `row`: a tree edge of
      minimum power, the first in column order among equals. */
  ghost predicate IsWeakestEdge(row: seq<real>, j: int) {
    && 0 <= j < |row|
    && row[j] > 0.0
    && (forall q :: 0 <= q < |row| && row[q] > 0.0 ==> row[j] <= row[q])
    && (forall q :: 0 <= q < j && row[q] > 0.0 ==> row[j] < row[q])
  }

  /** A row has at most one weakest edge. */
  lemma WeakestEdgeUnique(row: seq<real>, j1: int, j2: int)
    requires IsWeakestEdge(row, j1) && IsWeakestEdge(row, j2)
    ensures j1 == j2
  {
  }

  /** A row with at least one tree edge has a weakest edge. */
  function WeakestEdge(row: seq<real>): (j: int)
    requires CountPositive(row) > 0
    ensures IsWeakestEdge(row, j)
  {
    var last := |row| - 1;
    var prefix := row[..last];
    assert forall q :: 0 <= q < last ==> prefix[q] == row[q];
    if CountPositive(prefix) == 0 then
      CountPositiveNone(prefix);
      last
    else
      var j := WeakestEdge(prefix);
      if row[last] > 0.0 && row[last] < row[j] then last else j
  }

  /** The tree edges of row `i` of the tree `t`, in ascending column order,
      with their powers (current_connections_index and _power). */
  method TreeEdges(t: Matrix, i: int) returns (cols: seq<int>, powers: seq<real>)
    requires IsSquare(t, |t|) && 0 <= i < |t|
    ensures |cols| == |powers| == CountPositive(t[i])
    ensures forall k :: 0 <= k < |cols| ==> 0 <= cols[k] < |t| && t[i][cols[k]] > 0.0 && powers[k] == t[i][cols[k]]
    ensures forall k1, k2 :: 0 <= k1 < k2 < |cols| ==> cols[k1] < cols[k2]
    ensures forall j :: 0 <= j < |t| && t[i][j] > 0.0 ==> j in cols
  {
    var msize := |t|;
    cols, powers := [], [];
    for j := 0 to msize
      invariant |cols| == |powers| == CountPositive(t[i][..j])
      invariant forall k :: 0 <= k < |cols| ==> 0 <= cols[k] < j && t[i][cols[k]] > 0.0 && powers[k] == t[i][cols[k]]
      invariant forall k1, k2 :: 0 <= k1 < k2 < |cols| ==> cols[k1] < cols[k2]
      invariant forall q :: 0 <= q < j && t[i][q] > 0.0 ==> q in cols
    {
      CountPositiveStep(t[i], j);
      if t[i][j] > 0.0 {
        cols, powers := cols + [j], powers + [t[i][j]];
      }
    }
    assert t[i][..msize] == t[i];
  }

  /** The position of the first minimum of a nonempty list (`index(min(...))`). */
  method IndexOfMin(s: seq<real>) returns (k: nat)
    requires |s| > 0
    ensures k < |s|
    ensures forall q :: 0 <= q < |s| ==> s[k] <= s[q]
    ensures forall q :: 0 <= q < k ==> s[k] < s[q]
  {
    k := 0;
    for q := 1 to |s|
      invariant k < q
      invariant forall p :: 0 <= p < q ==> s[k] <= s[p]
      invariant forall p :: 0 <= p < k ==> s[k] < s[p]
    {
      if s[q] < s[k] {
        k := q;
      }
    }
  }

  /** The column chosen by the scan is the weakest edge of the row. */
  lemma ChosenIsWeakest(row: seq<real>, cols: seq<int>, powers: seq<real>, k: int)
    requires |cols| == |powers| && 0 <= k < |cols|
    requires forall p :: 0 <= p < |cols| ==> 0 <= cols[p] < |row| && row[cols[p]] > 0.0 && powers[p] == row[cols[p]]
    requires forall p1, p2 :: 0 <= p1 < p2 < |cols| ==> cols[p1] < cols[p2]
    requires forall q :: 0 <= q < |row| && row[q] > 0.0 ==> q in cols
    requires forall p :: 0 <= p < |powers| ==> powers[k] <= powers[p]
    requires forall p :: 0 <= p < k ==> powers[k] < powers[p]
    ensures IsWeakestEdge(row, cols[k])
  {
    forall q | 0 <= q < cols[k] && row[q] > 0.0
      ensures row[cols[k]] < row[q]
    {
      var p :| 0 <= p < |cols| && cols[p] == q;
      if k <= p {
        assert cols[k] <= cols[p];
      }
    }
  }

  /** The power matrix `m` after one scan of the max_slaves repair over the
      solved tree `t`: in every row with more than `maxSlaves` tree edges, the
      power of the weakest edge is zero; nothing else changes. */
  ghost function WithoutWeakestEdges(m: Matrix, t: Matrix, maxSlaves: int): (r: Matrix)
    requires IsSquare(m, |m|) && IsSquare(t, |m|)
    ensures IsSquare(r, |m|)
  {
    seq(|m|, i requires 0 <= i < |m| =>
      seq(|m|, j requires 0 <= j < |m| =>
        if CountPositive(t[i]) > maxSlaves && IsWeakestEdge(t[i], j) then 0.0 else m[i][j]))
  }

  /** When `t` is the tree solved from `m`, the scan only zeroes entries;
      when some row is over the limit it removes at least one edge, and
      otherwise it changes nothing. */
  lemma WithoutWeakestEdgesShrinks(m: Matrix, t: Matrix, maxSlaves: int)
    requires CopiesEdges(t, m) && 0 <= maxSlaves
    ensures TowardZero(m, WithoutWeakestEdges(m, t, maxSlaves))
    ensures !WithinFanOut(t, maxSlaves) ==> Support(WithoutWeakestEdges(m, t, maxSlaves)) < Support(m)
    ensures WithinFanOut(t, maxSlaves) ==> WithoutWeakestEdges(m, t, maxSlaves) == m
  {
    var r := WithoutWeakestEdges(m, t, maxSlaves);
    assert TowardZero(m, r);
    if !WithinFanOut(t, maxSlaves) {
      var i :| 0 <= i < |m| && CountPositive(t[i]) > maxSlaves;
      var j := WeakestEdge(t[i]);
      SupportShrinks(m, r, i, j);
    } else {
      SameEntries(r, m);
    }
  }

  /** One scan of the max_slaves repair over the solved tree `baseTree`. The
      result tells whether some row exceeded the limit. */
  method DropWeakestEdges(cpower: array2<real>, baseTree: Matrix, maxSlaves: int) returns (changed: bool)
    requires cpower.Length0 == cpower.Length1 && IsSquare(baseTree, cpower.Length0)
    requires 0 <= maxSlaves
    modifies cpower
    ensures changed <==> !WithinFanOut(baseTree, maxSlaves)
    ensures Snapshot(cpower) == WithoutWeakestEdges(old(Snapshot(cpower)), baseTree, maxSlaves)
  {
    var msize := cpower.Length0;
    ghost var before := Snapshot(cpower);
    ghost var after := WithoutWeakestEdges(before, baseTree, maxSlaves);
    changed := false;
    for i := 0 to msize
      invariant changed <==> exists r :: 0 <= r < i && CountPositive(baseTree[r]) > maxSlaves
      invariant forall r, c :: 0 <= r < msize && 0 <= c < msize ==>
        cpower[r, c] == if r < i then after[r][c] else before[r][c]
    {
      var currentConnectionsIndex, currentConnectionsPower := TreeEdges(baseTree, i);
      if |currentConnectionsPower| > maxSlaves {
        changed := true;
        var minListIndex := IndexOfMin(currentConnectionsPower);
        var minJ := currentConnectionsIndex[minListIndex];
        ChosenIsWeakest(baseTree[i], currentConnectionsIndex, currentConnectionsPower, minListIndex);
        forall c | 0 <= c < msize && IsWeakestEdge(baseTree[i], c)
          ensures c == minJ
        {
          WeakestEdgeUnique(baseTree[i], c, minJ);
        }
        cpower[i, minJ] := 0.0;
      }
    }
    SnapshotIs(cpower, after);
  }

  /** The last edge of a path: from its next-to-last node to its last node. */
  function LastEdge(path: seq<int>): (e: (int, int))
    requires 2 <= |path|
    ensures e.1 == path[|path| - 1]
  {
    (path[|path| - 2], path[|path| - 1])
  }

  /** The last edge of a longest path with at least one edge is an edge of
      the tree. */
  lemma LastEdgeInTree(longestPath: Matrix -> seq<int>, t: Matrix)
    requires PathContract(longestPath) && 1 <= |t| && IsSquare(t, |t|) && 2 <= |longestPath(t)|
    ensures 0 <= LastEdge(longestPath(t)).0 < |t| && 0 <= LastEdge(longestPath(t)).1 < |t|
    ensures t[LastEdge(longestPath(t)).0][LastEdge(longestPath(t)).1] != 0.0
  {
    var p := longestPath(t);
    assert IsTreePath(p, t);
    assert t[p[|p| - 2]][p[|p| - 2 + 1]] != 0.0;
  }

  /** One step of the max_depth repair over the solved tree `baseTree`: if its
      depth exceeds `maxDepth`, the power of the last edge of its longest
      path is set to zero; nothing else changes. */
  method DropLastPathEdge(cpower: array2<real>, baseTree: Matrix, maxDepth: int,
                          longestPath: Matrix -> seq<int>) returns (changed: bool)
    requires 1 <= cpower.Length0 == cpower.Length1 && IsSquare(baseTree, cpower.Length0)
    requires 0 <= maxDepth && PathContract(longestPath)
    modifies cpower
    ensures changed <==> TreeDepth(longestPath, baseTree) > maxDepth
    ensures !changed ==> Snapshot(cpower) == old(Snapshot(cpower))
    ensures changed ==> 2 <= |longestPath(baseTree)|
    ensures changed ==> 0 <= LastEdge(longestPath(baseTree)).0 < cpower.Length0
    ensures changed ==> 0 <= LastEdge(longestPath(baseTree)).1 < cpower.Length0
    ensures changed ==>
      Snapshot(cpower) == ZeroEntry(old(Snapshot(cpower)), LastEdge(longestPath(baseTree)).0, LastEdge(longestPath(baseTree)).1)
  {
    ghost var before := Snapshot(cpower);
    changed := false;
    if TreeDepth(longestPath, baseTree) > maxDepth {
      changed := true;
      LastEdgeInTree(longestPath, baseTree);
      var longest := longestPath(baseTree);
      var farI, farJ := longest[|longest| - 2], longest[|longest| - 1];
      cpower[farI, farJ] := 0.0;
      SnapshotIs(cpower, ZeroEntry(before, farI, farJ));
      assert (farI, farJ) == LastEdge(longest);
    }
  }
}
