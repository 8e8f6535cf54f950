# Multilevel hierarchy: the structure builder

A model of the part of the Multilevel_Hierarchy project that turns the
positions of a group of agents into a master/slave hierarchy. Agent 0 is the
root.

1. `connection_probability` turns the distance between every two agents into a
   connection probability. Nobody connects to the root or to itself.
2. `connection_power` turns that matrix into a connection power matrix. Each
   entry is the product of the two directions of a pair. The root's row is the
   square of its own probabilities instead.
3. `build_tree` asks a maximum spanning arborescence solver for the tree of
   the power matrix. Three optional features then reshape the tree by editing
   the power matrix in place and solving again:
   - `recalculate_probs` divides the powers of the edges of multi-child nodes
     by 1, 2, 4, …
   - `max_slaves` zeroes the weakest edge of every node with too many
     children.
   - `max_depth` zeroes the last edge of the longest path while the tree is
     too deep.

   Each feature is carried out by a recursive `build_tree` call with that
   feature switched off. In "connection power" mode every recursive call
   edits the caller's own array.

`MultilevelHierarchy`'s constructor derives the same power matrix into a
field of its own.

Files:

- `matrices.dfy` holds matrix values and the relations the repair loops keep:
  - `Snapshot` is the value of an `array2` at a given moment.
  - `TowardZero` says each entry is zeroed or shrunk without changing sign.
  - `Support` is the set of edges still present.
- `arborescence.dfy` gives the two networkx routines as oracles. The only
  properties assumed of them are the ones below.
- `utils.dfy` covers the distance-to-probability function and the tree depth.
- `repair_steps.dfy` holds the loops of `build_tree` that inspect one solved
  tree and edit the power matrix. Each is proved against a function on matrix
  values.
- `structure_builder.dfy` holds `connection_probability`, `connection_power`
  and the recursive `build_tree`.
- `hierarchy.dfy` holds the `MultilevelHierarchy` class.

`build_tree` is modelled twice, and the two are proved to agree:

- On values, as ghost functions. `Built` runs the phases in the source's
  order: `Reweighting` (the recalculate_probs block), then
  `AfterReweighting` (the max_slaves loop, `SlavesLoop`), then `AfterSlaves`
  (the max_depth loop, `DepthLoop`, and the final solve). A failed phase ends
  the build with its own outcome, the result and the power matrix left.
- On arrays, as methods. `BuildTree` selects the mode and calls
  `RecalculatePowers`, then `RepairAndSolve`. `RepairAndSolve` runs
  `LimitSlaves` and `LimitDepth` and does the final solve. Each repair loop
  runs one round per iteration (`SlavesRound`, `DepthRound`).
- Every method ensures that its result and the final contents of its array
  are exactly the outcome of the matching function on the array's starting
  contents.
- The methods and the functions are mutually recursive. The number of
  features still switched on is the termination measure. The callee's phase
  is the tie-breaker.
- Each repair loop terminates because every iteration that repeats strictly
  shrinks the set of edges of the power matrix. That set has at most n² elements.

What is assumed of the solver (`Arborescence.SolverContract`): on a square
matrix it either fails or returns a square matrix of the same size. Every
nonzero entry of that matrix equals the power matrix's entry at the same
place. Nothing more about its shape is assumed: not that it is acyclic, not
that a node has at most one parent, not that no edge enters node 0. What is
assumed of the longest-path routine (`Arborescence.PathContract`): on every
square matrix with at least one row, it returns a nonempty sequence of
nodes in which each consecutive pair is a nonzero entry of the matrix. That
includes cyclic matrices, on which `dag_longest_path` would raise instead.

Under these assumptions, a tree that `BuildTree` returns has the following
properties:

- It is the solver's tree for the final power matrix.
- With every feature off, the power matrix is left as it started and the
  result is the solver's answer for it.
- A build that fails has met a solve that failed, on a matrix moved toward
  zero from the starting power matrix. In power mode, or without
  `recalculate_probs`, that matrix is the final power matrix.
- No node has more than `max_slaves` children when that feature is on.
- It is no deeper than `max_depth` when that feature is on.
- The final power matrix only has entries moved toward zero from the power
  matrix the build started with.

## Model

| member | source | states |
|---|---|---|
| Utils.Dist2 | core.py:218-222 | under the hypot laws, the distance is non-negative and the same from either agent |
| Utils.BaseFunc | core.py:203-204 | for an exponential function, base_func is positive |
| Utils.SmoothingPoint | core.py:201 | get_prob evaluates base_func at the midpoint of the distance and the upper threshold, strictly between them below that threshold |
| Utils.GetProb | core.py:190-201 | the probability is 1 at or below the lower threshold (checked first) and 0 at or above the upper one |
| Utils.GetProbRange | core.py:190-204 | for an exponential function the result is a probability, strictly between 0 and 1 between the thresholds |
| Utils.GetProbMonotone | core.py:190-204 | the probability never increases with distance and strictly decreases between the thresholds |
| Utils.SmoothingMeetsLowerThreshold | core.py:196-204 | evaluated at the lower threshold, the smoothing branch gives exactly 1, so the probability is continuous there |
| Utils.BaseFuncIsExp | core.py:203-204 | between the thresholds base_func is the exponential of the sum of its two exponents |
| Utils.ExponentDecreasing | core.py:203-204 | from the midpoint of the thresholds on, base_func's exponent strictly decreases |
| Utils.TreeDepth | core.py:225-229 | the depth is the number of edges of the longest path, between 0 and the path's node count minus 1 |
| StructureBuilder.ConnectionProbability | core.py:44-64 | an n-by-n matrix, zero on column 0 and on the diagonal, get_prob of the distance elsewhere, every entry in [0, 1] |
| StructureBuilder.ConnectionPower | core.py:66-77 | a new array holding the power matrix of the input: row 0 the squares of row 0, each other entry (i, j) the product of (i, j) and (j, i) |
| StructureBuilder.RootRowNeedsSquares | core.py:70-76 | when column 0 is zero, the plain product zeroes the root's row; every other row of the power matrix is the plain product |
| StructureBuilder.PowerOfProbabilities | core.py:71-76 | powers of probabilities are in [0, 1], column 0 stays zero, and the root has power toward exactly the nodes it may connect to |
| StructureBuilder.PowerSymmetric | multilevel_hierarchy.py:9-12 | below row 0 the power matrix is symmetric, and a zero diagonal gives a zero diagonal |
| StructureBuilder.ActiveFeatures | core.py:104-164 | counts the features switched on; zero exactly when none is |
| StructureBuilder.NestedBuildsSwitchOneOff | core.py:104-164 | each nested build (core.py:104, 136, 164) switches off its own feature and keeps the others, so it has one active feature fewer |
| StructureBuilder.Built | core.py:79-186 | build_tree on values ends with the solver's tree of the final power matrix, within max_slaves and max_depth when those are on, or with a failure; the final matrix only moved toward zero from the starting one; a failure in power mode or without recalculation is the failed solve of the final matrix |
| StructureBuilder.Reweighting | core.py:102-120 | the reweighting block ends with entries only moved toward zero; in power mode a failure is the failed solve of the matrix the base build left |
| StructureBuilder.AfterReweighting | core.py:132-186 | the rest of the build ends with the tree of the final matrix within the enabled bounds, or with the failed solve of the final matrix; entries only move toward zero |
| StructureBuilder.AfterSlaves | core.py:160-186 | from a matrix whose tree is within max_slaves (when on), the depth loop and the final solve end with the tree of the final matrix within both enabled bounds, or with the failed solve of the final matrix |
| StructureBuilder.SlavesLoop | core.py:132-157 | the max_slaves loop on values ends with the tree of its final matrix, every node within max_slaves children (and within max_depth when on), or with that matrix's failed solve; entries only move toward zero |
| StructureBuilder.DepthLoop | core.py:160-176 | the max_depth loop on values ends with the tree of its final matrix, no deeper than max_depth (and within max_slaves when on), or with that matrix's failed solve; entries only move toward zero |
| StructureBuilder.BuildTree | core.py:79-186 | the result and the final power matrix are exactly `Built` of the starting power matrix; a returned tree is the solver's tree of the final power matrix, within max_slaves and max_depth when those are on; a failure is a failed solve on a matrix moved toward zero from the start (the final one in power mode or without recalculation); with no feature on, the matrix is untouched and the result is the solve of the starting power matrix; the final matrix is the caller's array itself in power mode |
| StructureBuilder.RepairAndSolve | core.py:132-186 | the result and the final contents of the array are exactly `AfterReweighting` of the array's starting contents |
| StructureBuilder.RecalculatePowers | core.py:102-120 | the outcome (base tree or failure) and the final array are exactly `Reweighting` of the starting power matrix; `found` holds exactly when the base build's solve (on the caller's own matrix in power mode, on a fresh power matrix in probability mode) gives a tree; the caller's power matrix then becomes the rebuilt matrix reweighted by that tree, and otherwise stays as the base build left it; entries only move toward zero |
| StructureBuilder.LimitSlaves | core.py:132-157 | the result and the final array are exactly `SlavesLoop` of the starting contents: the tree of the current power matrix, every node within max_slaves children, or a failure when the solve of the current power matrix fails; entries only move toward zero |
| StructureBuilder.SlavesRound | core.py:133-157 | one round either ends the loop with the outcome `SlavesLoop` gives, or removes an edge of the power matrix and leaves a matrix with the same `SlavesLoop` outcome |
| StructureBuilder.LimitDepth | core.py:160-176 | the result and the final array are exactly `DepthLoop` of the starting contents: the tree of the current power matrix, no deeper than max_depth and within max_slaves when that is on, or a failure when the solve of the current power matrix fails |
| StructureBuilder.DepthRound | core.py:161-176 | one round either ends the loop with the outcome `DepthLoop` gives, or removes an edge of the power matrix and leaves a matrix with the same `DepthLoop` outcome |
| RepairSteps.NodesToReweight | core.py:106-113 | exactly the nodes with more than one tree edge, in ascending order |
| RepairSteps.ReweightRow | core.py:116-120 | the tree edges of the row are divided by 2^k, k counting the tree edges before them; every other entry and every other row is unchanged |
| RepairSteps.ReweightNodes | core.py:115-120 | the power matrix becomes Reweighted: in each listed row the k-th tree edge divided by 2^k, all else unchanged |
| RepairSteps.ReweightedTowardZero | core.py:115-120 | reweighting moves powers toward zero and removes no edge |
| RepairSteps.TreeEdges | core.py:140-146 | the tree edges of the row, in ascending column order, with their powers |
| RepairSteps.IndexOfMin | core.py:153 | the position of the first minimum of the list |
| RepairSteps.WeakestEdge | core.py:149-157 | a row with a tree edge has a weakest edge: minimum power, first in column order among equals |
| RepairSteps.ChosenIsWeakest | core.py:149-155 | the edge the scan picks is the row's weakest edge |
| RepairSteps.DropWeakestEdges | core.py:138-157 | the weakest edge of every over-full row is zeroed, nothing else changes; the flag is set exactly when some row is over-full |
| RepairSteps.WithoutWeakestEdgesShrinks | core.py:138-157 | a scan that finds an over-full row removes an edge of the power matrix, and one that finds none changes nothing |
| RepairSteps.DropLastPathEdge | core.py:165-176 | when the depth exceeds max_depth the entry of the last edge of the longest path is zeroed, otherwise nothing changes; the flag says which |
| RepairSteps.LastEdgeInTree | core.py:171-176 | the edge that is zeroed is an edge of the tree, so the step removes an edge |
| Matrices.SupportShrinks | core.py:157-176 | moving entries toward zero never adds an edge; zeroing a nonzero entry removes one |
| Matrices.SupportBound | core.py:132-176 | an n-by-n power matrix has at most n² edges, which bounds the number of repair iterations |
| Hierarchy.MultilevelHierarchy.constructor | multilevel_hierarchy.py:6-13 | keeps the given matrix and stores in a new array its power matrix: row 0 squared, other rows the product with the transpose |
| Hierarchy.SamePowerAsBuilder | multilevel_hierarchy.py:12-13 | the constructor's power matrix equals what connection_power derives from the same matrix |

## Left out

- The networkx calls are oracles passed to `BuildTree`, and only the
  properties stated above are assumed of them. These calls are
  `maximum_spanning_arborescence`, `from_numpy_array`, `to_numpy_array` and
  `dag_longest_path`.
- StructureBuilder.BuildTree: does not state that the tree is a maximum
  spanning arborescence. Optimality belongs to the solver, which is an oracle
  here.
- Utils.TreeDepth: is the edge count of whatever path the longest-path
  routine returns. `dag_longest_path` weighs paths by the edges' `weight`
  attribute, and that weighting is not modelled, so the depth it yields may
  not be the longest path by edge count.
- `math.exp` and `math.hypot` are uninterpreted function parameters:
  - `Utils.Dist2`'s contract assumes only that hypot is non-negative and
    unchanged when both legs are negated (`Utils.HypotLaws`).
  - `Utils.GetProbRange`, `Utils.GetProbMonotone` and
    `StructureBuilder.ConnectionProbability`'s bound assume only positivity,
    strict monotonicity and exp(a)·exp(b) = exp(a+b) (`Utils.ExpLaws`).
  - Floating-point rounding is not modelled. Reals are exact.
- The solver's `NetworkXException` is a `NoTreeFound` result. A nested build
  that fails ends every enclosing build with `NoTreeFound`, as the re-raised
  exception would.
- The tree shape of the solver's answer (acyclic, one parent per node, no
  edge into node 0) is not assumed, and neither is `dag_longest_path`'s
  `NetworkXUnfeasible` on a cyclic graph. The proofs only use the copied
  edges and a path through nonzero entries.
- `as_matrix` only chooses between a graph object and its adjacency matrix.
  The model always works on the matrix.
- StructureBuilder.BuildTree: does not model a `mode` string other than the
  two named ones. The source then leaves `cpower` unbound.
- StructureBuilder.ConnectionPower: like `BuildTree` and the hierarchy
  constructor, requires a square matrix with at least one row. The
  source reads `cprob[0]` for the size and fails on an empty matrix.
- RepairSteps.TreeEdges: returns the columns of the `(i, j)` pairs that the
  source stores. The row is always `i`.
- The default thresholds `rmin = 7`, `rmax = 50` are not modelled.
  `GetProb` always receives both thresholds.
- StructureBuilder.LimitSlaves: like `LimitDepth`, states its bound on the number of repair
  iterations only through `Support`, which shrinks at every repeated
  iteration and has at most n² elements. It gives no iteration counter.
- `MultiagentEnvironment` is left out: a floating-point position update with
  no discrete logic.
- `Utils.prob_func_dots` is left out: a plotting helper.
- The `__main__` demo, the module-level demo and `debug_print` are left out:
  console output.
- ArborescenceWorker.py, interface.py and mplwidget.py are not part of this
  model. They are an external Wolfram kernel client and the user interface.

Where the comments and the code disagree, the model follows the code:

- core.py:137 speaks of the "first meeting" of an over-full node. The scan
  has no `break`, so one scan zeroes an edge in every over-full row.
- The constructor's docstring (multilevel_hierarchy.py:9) says the power
  matrix has zeros on row 0. That holds only for the plain product before
  line 13 (`StructureBuilder.RootRowNeedsSquares`). Afterwards row 0 holds
  squares.
