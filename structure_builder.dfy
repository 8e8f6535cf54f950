/** `StructureBuilder` of core.py: from agent coordinates to the connection
    probability matrix, from that to the connection power matrix, and from
    either to a maximum spanning arborescence rooted at node 0 that the
    optional repair features (reweighting, max_slaves, max_depth) reshape by
    editing the power matrix and solving again. */
module StructureBuilder {
  import opened Matrices
  import opened Arborescence
  import opened Utils
  import opened RepairSteps

  /** connection_probability: entry (i, j) is the probability that agent i
      connects to agent j; nobody connects to the root (column 0) or to
      itself (the diagonal). */
  method ConnectionProbability(coords: seq<Point>, rolow: real, roupp: real,
                               hypot: (real, real) -> real, exp: real -> real)
    returns (cprob: array2<real>)
    ensures cprob.Length0 == |coords| && cprob.Length1 == |coords|
    ensures forall i, j :: 0 <= i < |coords| && 0 <= j < |coords| && (j == 0 || i == j) ==> cprob[i, j] == 0.0
    ensures forall i, j :: 0 <= i < |coords| && 0 < j < |coords| && i != j ==>
      cprob[i, j] == GetProb(exp, Dist2(hypot, coords[i], coords[j]), rolow, roupp)
    ensures ExpLaws(exp) ==> forall i, j :: 0 <= i < |coords| && 0 <= j < |coords| ==> 0.0 <= cprob[i, j] <= 1.0
  {
    var msize := |coords|;
    cprob := new real[msize, msize];
    for i := 0 to msize
      invariant forall r, c :: 0 <= r < i && 0 <= c < msize ==>
        cprob[r, c] == if c == 0 || r == c then 0.0 else GetProb(exp, Dist2(hypot, coords[r], coords[c]), rolow, roupp)
    {
      for j := 0 to msize
        invariant forall r, c :: 0 <= r < msize && 0 <= c < msize && (r < i || (r == i && c < j)) ==>
          cprob[r, c] == if c == 0 || r == c then 0.0 else GetProb(exp, Dist2(hypot, coords[r], coords[c]), rolow, roupp)
      {
        if j == 0 || i == j {
          cprob[i, j] := 0.0;
        } else {
          cprob[i, j] := GetProb(exp, Dist2(hypot, coords[i], coords[j]), rolow, roupp);
        }
      }
    }
    if ExpLaws(exp) {
      forall i, j | 0 <= i < msize && 0 < j < msize && i != j
        ensures 0.0 <= cprob[i, j] <= 1.0
      {
        GetProbRange(exp, Dist2(hypot, coords[i], coords[j]), rolow, roupp);
      }
    }
  }

  /** The product of two probabilities. Kept behind a function so that the
      solver's nonlinear arithmetic meets it only where it is unfolded. */
  function Mul(a: real, b: real): real {
    a * b
  }

  /** The connection power matrix of a probability matrix `p`: the product of
      the two directions of each pair, except the root's row, which is the
      square of the root's own probabilities. */
  ghost function PowerOf(p: Matrix): (c: Matrix)
    requires IsSquare(p, |p|)
    ensures IsSquare(c, |p|)
  {
    seq(|p|, i requires 0 <= i < |p| =>
      seq(|p|, j requires 0 <= j < |p| =>
        if i == 0 then Mul(p[0][j], p[0][j]) else Mul(p[i][j], p[j][i])))
  }

  /** An array whose entries follow the power formula over the entries of
      `cprob` holds the power matrix of `cprob`. */
  lemma PowerSnapshot(cpower: array2<real>, cprob: array2<real>)
    requires 1 <= cprob.Length0 == cprob.Length1 == cpower.Length0 == cpower.Length1
    requires forall r, q :: 0 <= r < cprob.Length0 && 0 <= q < cprob.Length0 ==>
      cpower[r, q] == if r == 0 then Mul(cprob[0, q], cprob[0, q]) else Mul(cprob[r, q], cprob[q, r])
    ensures Snapshot(cpower) == PowerOf(Snapshot(cprob))
  {
    var c, p := Snapshot(cpower), Snapshot(cprob);
    forall r, q | 0 <= r < |p| && 0 <= q < |p|
      ensures c[r][q] == PowerOf(p)[r][q]
    {
      assert c[r][q] == cpower[r, q];
    }
    SameEntries(c, PowerOf(p));
  }

  /** connection_power: the element-wise product of the probability matrix
      with its transpose, with row 0 then overwritten by squares. */
  method ConnectionPower(cprob: array2<real>) returns (cpower: array2<real>)
    requires 1 <= cprob.Length0 == cprob.Length1
    ensures fresh(cpower) && cpower.Length0 == cpower.Length1 == cprob.Length0
    ensures Snapshot(cpower) == PowerOf(Snapshot(cprob))
  {
    var msize := cprob.Length1;
    cpower := new real[msize, msize]((i, j) requires 0 <= i < msize && 0 <= j < msize reads cprob =>
      Mul(cprob[i, j], cprob[j, i]));
    for c := 0 to msize
      invariant forall r, q :: 0 <= r < msize && 0 <= q < msize ==>
        cpower[r, q] == if r == 0 && q < c then Mul(cprob[0, q], cprob[0, q]) else Mul(cprob[r, q], cprob[q, r])
    {
      cpower[0, c] := Mul(cprob[0, c], cprob[0, c]);
    }
    PowerSnapshot(cpower, cprob);
  }

  /** The element-wise product of `p` with its transpose, before row 0 is
      replaced. */
  ghost function ProductWithTranspose(p: Matrix): (c: Matrix)
    requires IsSquare(p, |p|)
    ensures IsSquare(c, |p|)
  {
    seq(|p|, i requires 0 <= i < |p| =>
      seq(|p|, j requires 0 <= j < |p| => Mul(p[i][j], p[j][i])))
  }

  /** Why row 0 is replaced: when nobody connects to the root, the plain
      product gives the root no power toward anyone. Every other row of the
      power matrix is the plain product. */
  lemma RootRowNeedsSquares(p: Matrix)
    requires IsSquare(p, |p|)
    requires forall i :: 0 <= i < |p| ==> p[i][0] == 0.0
    ensures forall j :: 0 <= j < |p| ==> ProductWithTranspose(p)[0][j] == 0.0
    ensures forall i, j :: 1 <= i < |p| && 0 <= j < |p| ==> PowerOf(p)[i][j] == ProductWithTranspose(p)[i][j]
  {
    forall j | 0 <= j < |p|
      ensures ProductWithTranspose(p)[0][j] == 0.0
    {
      assert p[j][0] == 0.0;
    }
  }

  /** Below the root's row the power matrix is symmetric, and a probability
      matrix without self-loops gives a power matrix without self-loops. */
  lemma PowerSymmetric(p: Matrix)
    requires IsSquare(p, |p|)
    ensures forall i, j :: 1 <= i < |p| && 1 <= j < |p| ==> PowerOf(p)[i][j] == PowerOf(p)[j][i]
    ensures (forall i :: 0 <= i < |p| ==> p[i][i] == 0.0) ==> forall i :: 0 <= i < |p| ==> PowerOf(p)[i][i] == 0.0
  {
  }

  lemma MulNonNegative(a: real, b: real)
    requires 0.0 <= a && 0.0 <= b
    ensures 0.0 <= a * b
  {
  }

  lemma ProductInUnitRange(a: real, b: real)
    requires 0.0 <= a <= 1.0 && 0.0 <= b <= 1.0
    ensures 0.0 <= a * b <= 1.0
  {
    MulNonNegative(a, b);
    MulNonNegative(a, 1.0 - b);
    assert a * (1.0 - b) == a - a * b;
  }

  /** Powers of probabilities are probabilities; and when nobody connects to
      the root, nobody gets power toward the root, while the root keeps the
      power of every edge it may take. */
  lemma PowerOfProbabilities(p: Matrix)
    requires IsSquare(p, |p|)
    requires forall i, j :: 0 <= i < |p| && 0 <= j < |p| ==> 0.0 <= p[i][j] <= 1.0
    requires forall i :: 0 <= i < |p| ==> p[i][0] == 0.0
    ensures forall i, j :: 0 <= i < |p| && 0 <= j < |p| ==> 0.0 <= PowerOf(p)[i][j] <= 1.0
    ensures forall i :: 0 <= i < |p| ==> PowerOf(p)[i][0] == 0.0
    ensures forall j :: 0 <= j < |p| ==> (PowerOf(p)[0][j] > 0.0 <==> p[0][j] > 0.0)
  {
    forall i, j | 0 <= i < |p| && 0 <= j < |p|
      ensures 0.0 <= PowerOf(p)[i][j] <= 1.0
    {
      if i == 0 {
        ProductInUnitRange(p[0][j], p[0][j]);
      } else {
        ProductInUnitRange(p[i][j], p[j][i]);
      }
    }
    forall j | 0 <= j < |p| && p[0][j] > 0.0
      ensures PowerOf(p)[0][j] > 0.0
    {
      RootPowerPositive(p, j);
    }
  }

  lemma MulOfPositives(a: real, b: real)
    requires 0.0 < a && 0.0 < b
    ensures 0.0 < Mul(a, b)
  {
  }

  lemma RootPowerPositive(p: Matrix, j: int)
    requires IsSquare(p, |p|) && 0 <= j < |p| && 0.0 < p[0][j]
    ensures 0.0 < PowerOf(p)[0][j]
  {
    MulOfPositives(p[0][j], p[0][j]);
  }

  /** How build_tree receives its matrix. */
  datatype Mode = ProbabilityInput | PowerInput

  /** The power matrix a build starts from: the caller's matrix itself in
      power mode, the power matrix derived from it in probability mode. */
  ghost function StartingPower(mode: Mode, input: Matrix): (m: Matrix)
    requires IsSquare(input, |input|)
    ensures IsSquare(m, |input|)
  {
    if mode == PowerInput then input else PowerOf(input)
  }

  /** Number of repair features switched on; each recursive build_tree call
      switches one of them off (`NestedBuildsSwitchOneOff`). */
  function ActiveFeatures(recalculateProbs: bool, maxSlaves: int, maxDepth: int): (n: nat)
    ensures n <= 3
    ensures n == 0 <==> !recalculateProbs && maxSlaves <= 0 && maxDepth <= 0
  {
    (if recalculateProbs then 1 else 0) + (if maxSlaves > 0 then 1 else 0) + (if maxDepth > 0 then 1 else 0)
  }

  /** The three nested builds switch off exactly their own feature and keep
      the others: `RecalculatePowers` passes `recalculateProbs = false`,
      `LimitSlaves` passes `maxSlaves = 0` and `LimitDepth` passes
      `maxDepth = 0`. Each therefore has one active feature fewer. */
  lemma NestedBuildsSwitchOneOff(recalculateProbs: bool, maxSlaves: int, maxDepth: int)
    ensures recalculateProbs ==>
      ActiveFeatures(false, maxSlaves, maxDepth) == ActiveFeatures(recalculateProbs, maxSlaves, maxDepth) - 1
    ensures maxSlaves > 0 ==>
      ActiveFeatures(recalculateProbs, 0, maxDepth) == ActiveFeatures(recalculateProbs, maxSlaves, maxDepth) - 1
    ensures maxDepth > 0 ==>
      ActiveFeatures(recalculateProbs, maxSlaves, 0) == ActiveFeatures(recalculateProbs, maxSlaves, maxDepth) - 1
  {
  }

  /** The end of a build: the solver's answer and the power matrix left. */
  datatype Outcome = Outcome(res: Solution, final: Matrix)

  /** build_tree on matrix values, starting from the power matrix `p`: the
      optional reweighting, then the optional max_slaves loop, then the
      optional max_depth loop, then the final solve. A failed phase ends the
      build with its own outcome. */
  ghost function Built(mode: Mode, p: Matrix, recalculateProbs: bool, maxSlaves: int, maxDepth: int,
                       solve: Matrix -> Solution, longestPath: Matrix -> seq<int>): (o: Outcome)
    requires 1 <= |p| && IsSquare(p, |p|)
    requires SolverContract(solve) && PathContract(longestPath)
    decreases ActiveFeatures(recalculateProbs, maxSlaves, maxDepth), 4
    ensures IsSquare(o.final, |p|) && TowardZero(p, o.final)
    ensures o.res.Tree? ==> o.res == solve(o.final)
    ensures o.res.NoTreeFound? && (mode == PowerInput || !recalculateProbs) ==> solve(o.final) == NoTreeFound
    ensures o.res.Tree? && maxSlaves > 0 ==> WithinFanOut(o.res.weights, maxSlaves)
    ensures o.res.Tree? && maxDepth > 0 ==> TreeDepth(longestPath, o.res.weights) <= maxDepth
  {
    if recalculateProbs then
      var r := Reweighting(mode, p, maxSlaves, maxDepth, solve, longestPath);
      if r.res.NoTreeFound? then r
      else
        var o := AfterReweighting(r.final, recalculateProbs, maxSlaves, maxDepth, solve, longestPath);
        TowardZeroTransitive(p, r.final, o.final);
        o
    else
      AfterReweighting(p, recalculateProbs, maxSlaves, maxDepth, solve, longestPath)
  }

  /** The recalculate_probs block on values: the base build without the
      feature (on the caller's matrix in power mode, on a copy of it in
      probability mode), then the reweighting by the base tree. The result
      carries the base tree, or the failure. */
  ghost function Reweighting(mode: Mode, p: Matrix, maxSlaves: int, maxDepth: int,
                             solve: Matrix -> Solution, longestPath: Matrix -> seq<int>): (o: Outcome)
    requires 1 <= |p| && IsSquare(p, |p|)
    requires SolverContract(solve) && PathContract(longestPath)
    decreases ActiveFeatures(true, maxSlaves, maxDepth), 3
    ensures IsSquare(o.final, |p|) && TowardZero(p, o.final)
    ensures o.res.NoTreeFound? && mode == PowerInput ==> solve(o.final) == NoTreeFound
  {
    var base := Built(mode, p, false, maxSlaves, maxDepth, solve, longestPath);
    var rebuilt := if mode == PowerInput then base.final else p;
    TowardZeroReflexive(p);
    if base.res.NoTreeFound? then Outcome(NoTreeFound, rebuilt)
    else
      ReweightedTowardZero(rebuilt, base.res.weights);
      TowardZeroTransitive(p, rebuilt, Reweighted(rebuilt, base.res.weights));
      Outcome(base.res, Reweighted(rebuilt, base.res.weights))
  }

  /** The rest of a build once the reweighting (if any) has succeeded. */
  ghost function AfterReweighting(m: Matrix, recalculateProbs: bool, maxSlaves: int, maxDepth: int,
                                  solve: Matrix -> Solution, longestPath: Matrix -> seq<int>): (o: Outcome)
    requires 1 <= |m| && IsSquare(m, |m|)
    requires SolverContract(solve) && PathContract(longestPath)
    decreases ActiveFeatures(recalculateProbs, maxSlaves, maxDepth), 3
    ensures IsSquare(o.final, |m|) && TowardZero(m, o.final)
    ensures o.res.Tree? ==> o.res == solve(o.final)
    ensures o.res.NoTreeFound? ==> solve(o.final) == NoTreeFound
    ensures o.res.Tree? && maxSlaves > 0 ==> WithinFanOut(o.res.weights, maxSlaves)
    ensures o.res.Tree? && maxDepth > 0 ==> TreeDepth(longestPath, o.res.weights) <= maxDepth
  {
    if maxSlaves > 0 then
      var l := SlavesLoop(m, recalculateProbs, maxSlaves, maxDepth, solve, longestPath);
      if l.res.NoTreeFound? then l
      else
        var o := AfterSlaves(l.final, recalculateProbs, maxSlaves, maxDepth, solve, longestPath);
        TowardZeroTransitive(m, l.final, o.final);
        o
    else
      AfterSlaves(m, recalculateProbs, maxSlaves, maxDepth, solve, longestPath)
  }

  /** The rest of a build once the max_slaves loop (if any) has succeeded:
      the max_depth loop, then the final solve. */
  ghost function AfterSlaves(m: Matrix, recalculateProbs: bool, maxSlaves: int, maxDepth: int,
                             solve: Matrix -> Solution, longestPath: Matrix -> seq<int>): (o: Outcome)
    requires 1 <= |m| && IsSquare(m, |m|)
    requires SolverContract(solve) && PathContract(longestPath)
    requires maxSlaves > 0 ==> solve(m).Tree? && WithinFanOut(solve(m).weights, maxSlaves)
    decreases ActiveFeatures(recalculateProbs, maxSlaves, maxDepth), 2
    ensures IsSquare(o.final, |m|) && TowardZero(m, o.final)
    ensures o.res.Tree? ==> o.res == solve(o.final)
    ensures o.res.NoTreeFound? ==> solve(o.final) == NoTreeFound
    ensures o.res.Tree? && maxSlaves > 0 ==> WithinFanOut(o.res.weights, maxSlaves)
    ensures o.res.Tree? && maxDepth > 0 ==> TreeDepth(longestPath, o.res.weights) <= maxDepth
  {
    if maxDepth > 0 then
      var l := DepthLoop(m, recalculateProbs, maxSlaves, maxDepth, solve, longestPath);
      if l.res.NoTreeFound? then l else Outcome(solve(l.final), l.final)
    else
      TowardZeroReflexive(m);
      Outcome(solve(m), m)
  }

  /** The max_slaves loop on values: build without the feature; stop on a
      failure or a tree within the fan-out bound; otherwise zero the weakest
      edge of every over-full node and go round again. Each round removes an
      edge, which is why the loop ends. */
  ghost function SlavesLoop(m: Matrix, recalculateProbs: bool, maxSlaves: int, maxDepth: int,
                            solve: Matrix -> Solution, longestPath: Matrix -> seq<int>): (o: Outcome)
    requires 1 <= |m| && IsSquare(m, |m|) && 0 < maxSlaves
    requires SolverContract(solve) && PathContract(longestPath)
    decreases ActiveFeatures(recalculateProbs, maxSlaves, maxDepth), 1, Support(m)
    ensures IsSquare(o.final, |m|) && TowardZero(m, o.final)
    ensures o.res.Tree? ==> o.res == solve(o.final) && WithinFanOut(o.res.weights, maxSlaves)
    ensures o.res.NoTreeFound? ==> solve(o.final) == NoTreeFound
    ensures o.res.Tree? && maxDepth > 0 ==> TreeDepth(longestPath, o.res.weights) <= maxDepth
  {
    var b := Built(PowerInput, m, recalculateProbs, 0, maxDepth, solve, longestPath);
    if b.res.NoTreeFound? || WithinFanOut(b.res.weights, maxSlaves) then b
    else
      var next := WithoutWeakestEdges(b.final, b.res.weights, maxSlaves);
      WithoutWeakestEdgesShrinks(b.final, b.res.weights, maxSlaves);
      SupportShrinks(m, b.final, 0, 0);
      TowardZeroTransitive(m, b.final, next);
      var l := SlavesLoop(next, recalculateProbs, maxSlaves, maxDepth, solve, longestPath);
      TowardZeroTransitive(m, next, l.final);
      l
  }

  /** The max_depth loop on values: build without the feature; stop on a
      failure or a tree within the depth bound; otherwise zero the last edge
      of the longest path and go round again. */
  ghost function DepthLoop(m: Matrix, recalculateProbs: bool, maxSlaves: int, maxDepth: int,
                           solve: Matrix -> Solution, longestPath: Matrix -> seq<int>): (o: Outcome)
    requires 1 <= |m| && IsSquare(m, |m|) && 0 < maxDepth
    requires SolverContract(solve) && PathContract(longestPath)
    decreases ActiveFeatures(recalculateProbs, maxSlaves, maxDepth), 1, Support(m)
    ensures IsSquare(o.final, |m|) && TowardZero(m, o.final)
    ensures o.res.Tree? ==> o.res == solve(o.final) && TreeDepth(longestPath, o.res.weights) <= maxDepth
    ensures o.res.NoTreeFound? ==> solve(o.final) == NoTreeFound
    ensures o.res.Tree? && maxSlaves > 0 ==> WithinFanOut(o.res.weights, maxSlaves)
  {
    var b := Built(PowerInput, m, recalculateProbs, maxSlaves, 0, solve, longestPath);
    if b.res.NoTreeFound? || TreeDepth(longestPath, b.res.weights) <= maxDepth then b
    else
      LastEdgeInTree(longestPath, b.res.weights);
      var e := LastEdge(longestPath(b.res.weights));
      var next := ZeroEntry(b.final, e.0, e.1);
      ZeroEntryShrinks(b.final, e.0, e.1);
      SupportShrinks(m, b.final, 0, 0);
      TowardZeroTransitive(m, b.final, next);
      var l := DepthLoop(next, recalculateProbs, maxSlaves, maxDepth, solve, longestPath);
      TowardZeroTransitive(m, next, l.final);
      l
  }

  /** build_tree. In power mode the power matrix is the caller's array,
      edited in place (and so are the arrays of the callers up the recursion);
      in probability mode it is a fresh array derived from `cprob`. A solver
      failure anywhere in the recursion ends the whole build with
      `NoTreeFound`. `finalPower` is the power matrix when the build ends. */
  method BuildTree(cprob: array2<real>, mode: Mode, recalculateProbs: bool, maxSlaves: int, maxDepth: int,
                   solve: Matrix -> Solution, longestPath: Matrix -> seq<int>)
    returns (res: Solution, ghost finalPower: Matrix, ghost failedOn: Matrix)
    requires 1 <= cprob.Length0 == cprob.Length1
    requires SolverContract(solve) && PathContract(longestPath)
    modifies if mode == PowerInput then {cprob} else {}
    decreases ActiveFeatures(recalculateProbs, maxSlaves, maxDepth), 3
    ensures IsSquare(finalPower, cprob.Length0)
    ensures mode == PowerInput ==> finalPower == Snapshot(cprob)
    ensures TowardZero(StartingPower(mode, old(Snapshot(cprob))), finalPower)
    ensures res.Tree? ==> res == solve(finalPower)
    ensures res.Tree? && maxSlaves > 0 ==> WithinFanOut(res.weights, maxSlaves)
    ensures res.Tree? && maxDepth > 0 ==> TreeDepth(longestPath, res.weights) <= maxDepth
    ensures res.NoTreeFound? ==> solve(failedOn) == NoTreeFound
    ensures res.NoTreeFound? ==> TowardZero(StartingPower(mode, old(Snapshot(cprob))), failedOn)
    ensures res.NoTreeFound? && (mode == PowerInput || !recalculateProbs) ==> failedOn == finalPower
    ensures ActiveFeatures(recalculateProbs, maxSlaves, maxDepth) == 0 ==>
      finalPower == StartingPower(mode, old(Snapshot(cprob))) && res == solve(finalPower)
    ensures Outcome(res, finalPower) ==
      Built(mode, StartingPower(mode, old(Snapshot(cprob))), recalculateProbs, maxSlaves, maxDepth, solve, longestPath)
  {
    ghost var input := Snapshot(cprob);
    var cpower: array2<real>;
    if mode == ProbabilityInput {
      cpower := ConnectionPower(cprob);
    } else {
      cpower := cprob;
    }
    ghost var start := Snapshot(cpower);
    assert start == StartingPower(mode, input);

    // `found` turns false when the nested build of the reweighting finds no
    // tree; the rest of the build is then skipped, as the solver's exception
    // would skip it. `failedOn` is the matrix of the solve that failed.
    var found := true;
    failedOn := start;
    if recalculateProbs {
      ghost var rebuilt, baseTree;
      found, rebuilt, failedOn, baseTree := RecalculatePowers(cprob, mode, cpower, maxSlaves, maxDepth, solve, longestPath);
    }
    if found {
      res := RepairAndSolve(cpower, recalculateProbs, maxSlaves, maxDepth, solve, longestPath);
      failedOn := Snapshot(cpower);
    } else {
      res := NoTreeFound;
    }
    finalPower := Snapshot(cpower);
    if mode == ProbabilityInput {
      assert Snapshot(cprob) == input;
    }
    ghost var built := Built(mode, start, recalculateProbs, maxSlaves, maxDepth, solve, longestPath);
    assert Outcome(res, finalPower) == built;
    assert TowardZero(start, built.final);
  }

  /** The part of build_tree after the reweighting: the max_slaves loop when
      that feature is on, then the max_depth loop when that one is on, then
      the final solve. A failed loop ends the build with `NoTreeFound`. */
  method RepairAndSolve(cpower: array2<real>, recalculateProbs: bool, maxSlaves: int, maxDepth: int,
                        solve: Matrix -> Solution, longestPath: Matrix -> seq<int>)
    returns (res: Solution)
    requires 1 <= cpower.Length0 == cpower.Length1
    requires SolverContract(solve) && PathContract(longestPath)
    modifies cpower
    decreases ActiveFeatures(recalculateProbs, maxSlaves, maxDepth), 2
    ensures Outcome(res, Snapshot(cpower)) ==
      AfterReweighting(old(Snapshot(cpower)), recalculateProbs, maxSlaves, maxDepth, solve, longestPath)
  {
    ghost var start := Snapshot(cpower);
    var found := true;
    if maxSlaves > 0 {
      var limited := LimitSlaves(cpower, recalculateProbs, maxSlaves, maxDepth, solve, longestPath);
      found := limited.Tree?;
    }
    ghost var slavesLimited := Snapshot(cpower);
    if found {
      assert AfterReweighting(start, recalculateProbs, maxSlaves, maxDepth, solve, longestPath) ==
        AfterSlaves(slavesLimited, recalculateProbs, maxSlaves, maxDepth, solve, longestPath);
    }
    if found && maxDepth > 0 {
      var limited := LimitDepth(cpower, recalculateProbs, maxSlaves, maxDepth, solve, longestPath);
      found := limited.Tree?;
    }
    if found {
      res := solve(Snapshot(cpower));
    } else {
      res := NoTreeFound;
    }
  }

  /** The recalculate_probs feature: build the tree without it, then divide
      the power of the k-th edge (k = 0, 1, ...) of every node with more than
      one child by 2^k. Returns false when that base build finds no tree. */
  method RecalculatePowers(cprob: array2<real>, mode: Mode, cpower: array2<real>, maxSlaves: int, maxDepth: int,
                           solve: Matrix -> Solution, longestPath: Matrix -> seq<int>)
    returns (found: bool, ghost rebuilt: Matrix, ghost solvedFrom: Matrix, ghost baseTree: Matrix)
    requires 1 <= cprob.Length0 == cprob.Length1 == cpower.Length0 == cpower.Length1
    requires mode == PowerInput ==> cpower == cprob
    requires Snapshot(cpower) == StartingPower(mode, Snapshot(cprob))
    requires SolverContract(solve) && PathContract(longestPath)
    modifies cpower
    decreases ActiveFeatures(true, maxSlaves, maxDepth), 1
    ensures TowardZero(old(Snapshot(cpower)), rebuilt)
    ensures mode == ProbabilityInput ==> rebuilt == old(Snapshot(cpower))
    ensures mode == PowerInput ==> solvedFrom == rebuilt
    ensures mode == ProbabilityInput ==> TowardZero(PowerOf(old(Snapshot(cprob))), solvedFrom)
    ensures found ==> solve(solvedFrom) == Tree(baseTree)
    ensures !found ==> solve(solvedFrom) == NoTreeFound
    ensures found ==> Snapshot(cpower) == Reweighted(rebuilt, baseTree)
    ensures !found ==> Snapshot(cpower) == rebuilt
    ensures TowardZero(old(Snapshot(cpower)), Snapshot(cpower))
    ensures Outcome(if found then Tree(baseTree) else NoTreeFound, Snapshot(cpower)) ==
      Reweighting(mode, old(Snapshot(cpower)), maxSlaves, maxDepth, solve, longestPath)
  {
    var baseRes, basePower, baseFailedOn := BuildTree(cprob, mode, false, maxSlaves, maxDepth, solve, longestPath);
    rebuilt := Snapshot(cpower);
    solvedFrom := if baseRes.NoTreeFound? then baseFailedOn else basePower;
    baseTree := [];
    assert TowardZero(old(Snapshot(cpower)), rebuilt) by {
      if mode == ProbabilityInput {
        TowardZeroReflexive(rebuilt);
      }
    }
    if baseRes.NoTreeFound? {
      return false, rebuilt, solvedFrom, baseTree;
    }
    var solvedTree := baseRes.weights;
    baseTree := solvedTree;
    assert CopiesEdges(solvedTree, basePower);
    var nodesToReweight := NodesToReweight(solvedTree);
    ReweightNodes(cpower, solvedTree, nodesToReweight);
    ReweightedTowardZero(rebuilt, baseTree);
    TowardZeroTransitive(old(Snapshot(cpower)), rebuilt, Snapshot(cpower));
    found := true;
  }

  /** The max_slaves feature: build the tree without it, and while some node
      of that tree has more than `maxSlaves` children, zero the power of the
      weakest edge of each such node and build again. The result is the tree
      of the final power matrix, within the fan-out bound. */
  method LimitSlaves(cpower: array2<real>, recalculateProbs: bool, maxSlaves: int, maxDepth: int,
                     solve: Matrix -> Solution, longestPath: Matrix -> seq<int>)
    returns (res: Solution)
    requires 1 <= cpower.Length0 == cpower.Length1 && 0 < maxSlaves
    requires SolverContract(solve) && PathContract(longestPath)
    modifies cpower
    decreases ActiveFeatures(recalculateProbs, maxSlaves, maxDepth), 1
    ensures TowardZero(old(Snapshot(cpower)), Snapshot(cpower))
    ensures res.Tree? ==> res == solve(Snapshot(cpower)) && WithinFanOut(res.weights, maxSlaves)
    ensures res.NoTreeFound? ==> solve(Snapshot(cpower)) == NoTreeFound
    ensures Outcome(res, Snapshot(cpower)) ==
      SlavesLoop(old(Snapshot(cpower)), recalculateProbs, maxSlaves, maxDepth, solve, longestPath)
  {
    ghost var start := Snapshot(cpower);
    TowardZeroReflexive(start);
    res := NoTreeFound;
    var cpowerChanged := true;
    while cpowerChanged
      invariant TowardZero(start, Snapshot(cpower))
      invariant SlavesLoop(start, recalculateProbs, maxSlaves, maxDepth, solve, longestPath) ==
        if cpowerChanged then SlavesLoop(Snapshot(cpower), recalculateProbs, maxSlaves, maxDepth, solve, longestPath)
        else Outcome(res, Snapshot(cpower))
      decreases Support(Snapshot(cpower)), cpowerChanged
    {
      ghost var before := Snapshot(cpower);
      res, cpowerChanged := SlavesRound(cpower, recalculateProbs, maxSlaves, maxDepth, solve, longestPath);
      TowardZeroTransitive(start, before, Snapshot(cpower));
    }
  }

  /** One round of the max_slaves loop: build without the feature, then scan
      the tree and zero the weakest edge of every over-full node. `changed`
      says whether the loop goes round again; otherwise `r` is the loop's
      result (a failure, or a tree within the fan-out bound). */
  method SlavesRound(cpower: array2<real>, recalculateProbs: bool, maxSlaves: int, maxDepth: int,
                     solve: Matrix -> Solution, longestPath: Matrix -> seq<int>)
    returns (r: Solution, changed: bool)
    requires 1 <= cpower.Length0 == cpower.Length1 && 0 < maxSlaves
    requires SolverContract(solve) && PathContract(longestPath)
    modifies cpower
    decreases ActiveFeatures(recalculateProbs, maxSlaves, maxDepth), 0
    ensures TowardZero(old(Snapshot(cpower)), Snapshot(cpower))
    ensures changed ==> Support(Snapshot(cpower)) < Support(old(Snapshot(cpower)))
    ensures SlavesLoop(old(Snapshot(cpower)), recalculateProbs, maxSlaves, maxDepth, solve, longestPath) ==
      if changed then SlavesLoop(Snapshot(cpower), recalculateProbs, maxSlaves, maxDepth, solve, longestPath)
      else Outcome(r, Snapshot(cpower))
  {
    ghost var before := Snapshot(cpower);
    ghost var solved, failedOn;
    r, solved, failedOn := BuildTree(cpower, PowerInput, recalculateProbs, 0, maxDepth, solve, longestPath);
    assert Outcome(r, solved) == Built(PowerInput, before, recalculateProbs, 0, maxDepth, solve, longestPath);
    if r.NoTreeFound? {
      return r, false;
    }
    var baseTree := r.weights;
    assert CopiesEdges(baseTree, solved);
    changed := DropWeakestEdges(cpower, baseTree, maxSlaves);
    WithoutWeakestEdgesShrinks(solved, baseTree, maxSlaves);
    SupportShrinks(before, solved, 0, 0);
    TowardZeroTransitive(before, solved, Snapshot(cpower));
  }

  /** The max_depth feature: build the tree without it, and while that tree is
      deeper than `maxDepth`, zero the power of the last edge of its longest
      path and build again. The result is the tree of the final power matrix,
      within the depth bound and, when max_slaves is on, the fan-out bound. */
  method LimitDepth(cpower: array2<real>, recalculateProbs: bool, maxSlaves: int, maxDepth: int,
                    solve: Matrix -> Solution, longestPath: Matrix -> seq<int>)
    returns (res: Solution)
    requires 1 <= cpower.Length0 == cpower.Length1 && 0 < maxDepth
    requires SolverContract(solve) && PathContract(longestPath)
    modifies cpower
    decreases ActiveFeatures(recalculateProbs, maxSlaves, maxDepth), 1
    ensures TowardZero(old(Snapshot(cpower)), Snapshot(cpower))
    ensures res.Tree? ==> res == solve(Snapshot(cpower)) && TreeDepth(longestPath, res.weights) <= maxDepth
    ensures res.Tree? && maxSlaves > 0 ==> WithinFanOut(res.weights, maxSlaves)
    ensures res.NoTreeFound? ==> solve(Snapshot(cpower)) == NoTreeFound
    ensures Outcome(res, Snapshot(cpower)) ==
      DepthLoop(old(Snapshot(cpower)), recalculateProbs, maxSlaves, maxDepth, solve, longestPath)
  {
    ghost var start := Snapshot(cpower);
    TowardZeroReflexive(start);
    res := NoTreeFound;
    var cpowerChanged := true;
    while cpowerChanged
      invariant TowardZero(start, Snapshot(cpower))
      invariant DepthLoop(start, recalculateProbs, maxSlaves, maxDepth, solve, longestPath) ==
        if cpowerChanged then DepthLoop(Snapshot(cpower), recalculateProbs, maxSlaves, maxDepth, solve, longestPath)
        else Outcome(res, Snapshot(cpower))
      decreases Support(Snapshot(cpower)), cpowerChanged
    {
      ghost var before := Snapshot(cpower);
      res, cpowerChanged := DepthRound(cpower, recalculateProbs, maxSlaves, maxDepth, solve, longestPath);
      TowardZeroTransitive(start, before, Snapshot(cpower));
    }
  }

  /** One round of the max_depth loop: build without the feature, then, if
      the tree is too deep, zero the last edge of its longest path. `changed`
      says whether the loop goes round again; otherwise `r` is the loop's
      result (a failure, or a tree within the depth bound). */
  method DepthRound(cpower: array2<real>, recalculateProbs: bool, maxSlaves: int, maxDepth: int,
                    solve: Matrix -> Solution, longestPath: Matrix -> seq<int>)
    returns (r: Solution, changed: bool)
    requires 1 <= cpower.Length0 == cpower.Length1 && 0 < maxDepth
    requires SolverContract(solve) && PathContract(longestPath)
    modifies cpower
    decreases ActiveFeatures(recalculateProbs, maxSlaves, maxDepth), 0
    ensures TowardZero(old(Snapshot(cpower)), Snapshot(cpower))
    ensures changed ==> Support(Snapshot(cpower)) < Support(old(Snapshot(cpower)))
    ensures DepthLoop(old(Snapshot(cpower)), recalculateProbs, maxSlaves, maxDepth, solve, longestPath) ==
      if changed then DepthLoop(Snapshot(cpower), recalculateProbs, maxSlaves, maxDepth, solve, longestPath)
      else Outcome(r, Snapshot(cpower))
  {
    ghost var before := Snapshot(cpower);
    ghost var solved, failedOn;
    r, solved, failedOn := BuildTree(cpower, PowerInput, recalculateProbs, maxSlaves, 0, solve, longestPath);
    assert Outcome(r, solved) == Built(PowerInput, before, recalculateProbs, maxSlaves, 0, solve, longestPath);
    if r.NoTreeFound? {
      return r, false;
    }
    var baseTree := r.weights;
    assert CopiesEdges(baseTree, solved);
    changed := DropLastPathEdge(cpower, baseTree, maxDepth, longestPath);
    if changed {
      LastEdgeInTree(longestPath, baseTree);
      var farEdge := LastEdge(longestPath(baseTree));
      ZeroEntryShrinks(solved, farEdge.0, farEdge.1);
      SupportShrinks(before, solved, 0, 0);
      TowardZeroTransitive(before, solved, Snapshot(cpower));
    } else {
      TowardZeroTransitive(before, solved, Snapshot(cpower));
    }
  }
}
