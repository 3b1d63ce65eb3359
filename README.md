# ReactPhysics3D: dense matrices and world bookkeeping, in Dafny

This project models two parts of the ReactPhysics3D physics engine.

**The dense matrix utility** (`Matrix.cpp`). A `Matrix` is a row-major
two-dimensional array of `nbRow × nbColumn` entries. Both dimensions are
positive and fixed at construction. Its operations are:

- construction (zero-filled) and copy;
- cofactor extraction: the minor without row `i` and column `j`;
- transpose;
- determinant, by cofactor expansion along the first row;
- inverse, as the adjugate divided by the determinant;
- trace;
- identity;
- sum, difference, and the scalar and matrix products;
- assignment and equality.

Every size violation raises `std::invalid_argument` or `MatrixException`. Here
each operation returns a `Result`: `Ok(value)` or `Err(error)`.

The model is in two modules:

- `MatrixMath` (`matrix_math.dfy`) gives every operation as a pure function
  on `seq<seq<real>>`, with lemmas on what it means: transposing twice is the
  identity, subtraction undoes addition, the identity is neutral for the
  product, the determinant of the identity is 1, and so on.
- `DenseMatrix` (`dense_matrix.dfy`) is the class `Matrix`, over a
  `const data: array2<real>`. Its methods fill result arrays with the
  source's nested loops, including the `u`/`v` counters of `getCofactor`.
  Each method is proved against the `MatrixMath` function. The shape fields
  are `const`, so no operation can change a matrix's shape.

**The world registry** (`DynamicsWorld.h`). Module `Dynamics`
(`dynamics_world.dfy`) models the world's bookkeeping:

- the ordered constraint registry, a `seq`, and the set of rigid bodies;
- the gravity vector and its on/off flag;
- the two solver settings the world forwards;
- the cache of overlapping pairs, keyed by body-index pairs.

The registry operations are specified by pure sequence functions
(`FirstIndex`, `RemoveFirst`), and lemmas relate those functions to each
other. A ghost set `deleted` records the constraints whose memory
`removeConstraint` freed. The predicate `NoDangling` says that no registered
constraint has been freed.

## Model

| member | source | states |
|---|---|---|
| MatrixMath.Zero | sources/reactphysics3d/mathematics/Matrix.cpp:24-45 | the constructed matrix has the requested shape and every entry is 0 |
| MatrixMath.AddZero | sources/reactphysics3d/mathematics/Matrix.cpp:24-45 | the zero-filled matrix is neutral for the entry-wise sum |
| DenseMatrix.Matrix.Create | sources/reactphysics3d/mathematics/Matrix.cpp:24-45 | construction succeeds exactly when both dimensions are positive, else invalid_argument; on success the shape is as requested and every entry is 0 |
| DenseMatrix.Matrix.Zeros | sources/reactphysics3d/mathematics/Matrix.cpp:24-45 | with positive dimensions: a fresh array of that shape, all zeros |
| DenseMatrix.Matrix.ZeroContents | sources/reactphysics3d/mathematics/Matrix.cpp:36-40 | the array the constructor fills with zeros holds the zero matrix of its shape, so AddZero applies to a constructed matrix |
| DenseMatrix.Matrix.Copy | sources/reactphysics3d/mathematics/Matrix.cpp:49-64 | the copy has the same shape and entries, in an array of its own |
| MatrixMath.MinorEntry | sources/reactphysics3d/mathematics/Matrix.cpp:77-108 | entry (u, v) of the minor is the original entry (u<i?u:u+1, v<j?v:v+1) |
| MatrixMath.MinorTranspose | sources/reactphysics3d/mathematics/Matrix.cpp:77-125 | deleting row i and column j commutes with transposition, with i and j swapped |
| DenseMatrix.MinorFromEntries | sources/reactphysics3d/mathematics/Matrix.cpp:77-108 | a matrix one row and one column smaller, whose entries skip row i and column j, is the minor |
| DenseMatrix.Matrix.GetCofactor | sources/reactphysics3d/mathematics/Matrix.cpp:77-108 | succeeds exactly when 0<=i<nbRow, 0<=j<nbColumn and both dimensions exceed 1, else invalid_argument (the 0-size constructor's refusal included); on success the filled array is the minor |
| MatrixMath.TransposeInvolutive | sources/reactphysics3d/mathematics/Matrix.cpp:112-125 | transposing twice gives back the original matrix |
| MatrixMath.TransposeIdentity | sources/reactphysics3d/mathematics/Matrix.cpp:112-125 | the identity is its own transpose |
| DenseMatrix.Matrix.GetTranspose | sources/reactphysics3d/mathematics/Matrix.cpp:112-125 | the result has the dimensions swapped and T[j][i] = A[i][j] |
| MatrixMath.SignParity | sources/reactphysics3d/mathematics/Matrix.cpp:145-152 | the toggled sign is +1 at even positions and -1 at odd ones, the (i + j) % 2 test |
| MatrixMath.DetTwoByTwoIsExpansion | sources/reactphysics3d/mathematics/Matrix.cpp:177-200 | the closed 2x2 formula agrees with the expansion along the first row |
| MatrixMath.DetIdentity | sources/reactphysics3d/mathematics/Matrix.cpp:174-207 | the determinant of every n x n identity matrix is 1 |
| DenseMatrix.Matrix.GetDeterminant | sources/reactphysics3d/mathematics/Matrix.cpp:174-207 | MatrixException exactly when the matrix is not square; otherwise the entry (1x1), a00*a11 - a10*a01 (2x2), or the alternating expansion along row 0 |
| DenseMatrix.Matrix.ExpandAlongFirstRow | sources/reactphysics3d/mathematics/Matrix.cpp:185-200 | the loop with the toggled sign computes the full first-row cofactor expansion |
| DenseMatrix.Matrix.ColumnTerm | sources/reactphysics3d/mathematics/Matrix.cpp:188-189 | one loop step adds sign(j) times a0j times the determinant of the minor without row 0 and column j |
| MatrixMath.Inverse | sources/reactphysics3d/mathematics/Matrix.cpp:129-171 | the inverse as written: MatrixException when non-square or singular; invalid_argument for 1x1; otherwise the transposed signed-cofactor matrix scaled by 1/det |
| DenseMatrix.Matrix.GetInverse | sources/reactphysics3d/mathematics/Matrix.cpp:129-171 | fails exactly when, and with the error with which, the as-written inverse fails; otherwise its entries are that inverse |
| DenseMatrix.Matrix.SignedCofactorMatrix | sources/reactphysics3d/mathematics/Matrix.cpp:138-154 | the loops fill entry (i, j) with the signed determinant of minor (i, j); a 1x1 matrix makes getCofactor throw invalid_argument |
| DenseMatrix.Matrix.SignedCofactor | sources/reactphysics3d/mathematics/Matrix.cpp:145-152 | one step: invalid_argument for a 1x1 matrix, else the minor's determinant negated when i + j is odd |
| MatrixMath.OneByOneInverseThrows | sources/reactphysics3d/mathematics/Matrix.cpp:129-171 | a non-singular 1x1 matrix gets invalid_argument from the as-written inverse |
| MatrixMath.CorrectedInverse | sources/reactphysics3d/mathematics/Matrix.cpp:129-171 | fails, with MatrixException, exactly on a non-square or singular matrix; agrees with the as-written inverse above 1x1 |
| MatrixMath.CorrectedInverseIsInverse | sources/reactphysics3d/mathematics/Matrix.cpp:129-171 | for 1x1 and 2x2 matrices the corrected inverse is a two-sided inverse for the product |
| MatrixMath.SignedCofactorsTwoByTwo | sources/reactphysics3d/mathematics/Matrix.cpp:143-154 | the signed cofactors of [[a, b], [c, d]] are [[d, -c], [-b, a]] |
| MatrixMath.TraceCountsOffDiagonal | sources/reactphysics3d/mathematics/Matrix.cpp:209-223 | the as-written trace of [[0, 1], [0, 0]] is 1 although its diagonal sums to 0 |
| DenseMatrix.Matrix.GetTrace | sources/reactphysics3d/mathematics/Matrix.cpp:209-223 | the loops sum every entry, in row-major order |
| MatrixMath.DiagonalTrace | sources/reactphysics3d/mathematics/Matrix.cpp:209-223 | the intended trace, the sum of the diagonal entries; on a matrix with nothing off the diagonal it equals the as-written sum of all entries |
| MatrixMath.DiagonalTraceDiagonalOnly | sources/reactphysics3d/mathematics/Matrix.cpp:209-223 | the intended trace depends on the diagonal entries alone |
| MatrixMath.DiagonalTraceIdentity | sources/reactphysics3d/mathematics/Matrix.cpp:209-223 | the intended trace of the n x n identity is n |
| MatrixMath.DiagonalTraceTranspose | sources/reactphysics3d/mathematics/Matrix.cpp:209-223 | the intended trace is invariant under transposition |
| DenseMatrix.Matrix.IdentityMatrix | sources/reactphysics3d/mathematics/Matrix.cpp:226-251 | invalid_argument exactly when dimension <= 0; otherwise n x n with 1 on the diagonal and 0 elsewhere |
| DenseMatrix.Matrix.Plus | sources/reactphysics3d/mathematics/Matrix.cpp:255-274 | MatrixException exactly when the shapes differ; otherwise the entry-wise sum |
| DenseMatrix.Matrix.Minus | sources/reactphysics3d/mathematics/Matrix.cpp:277-296 | MatrixException exactly when the shapes differ; otherwise the entry-wise difference |
| MatrixMath.SubUndoesAdd | sources/reactphysics3d/mathematics/Matrix.cpp:255-296 | subtracting what was added gives back the original |
| MatrixMath.AddCommutes | sources/reactphysics3d/mathematics/Matrix.cpp:255-274 | the sum does not depend on operand order |
| DenseMatrix.Matrix.Times | sources/reactphysics3d/mathematics/Matrix.cpp:299-312 | every entry multiplied by the scalar, same shape |
| MatrixMath.ScaleUndo | sources/reactphysics3d/mathematics/Matrix.cpp:299-312 | scaling by x != 0 is undone by scaling with 1/x |
| DenseMatrix.Matrix.Multiply | sources/reactphysics3d/mathematics/Matrix.cpp:315-339 | MatrixException exactly when nbColumn != matrix2.nbRow; otherwise nbRow x matrix2.nbColumn with r[i][j] the sum over k of a[i][k]*b[k][j] |
| DenseMatrix.Matrix.RowTimesColumn | sources/reactphysics3d/mathematics/Matrix.cpp:324-328 | the inner loop sums row i times column j, left to right |
| MatrixMath.IdentityNeutral | sources/reactphysics3d/mathematics/Matrix.cpp:315-339 | the identity is neutral on both sides of the product |
| DenseMatrix.Matrix.Assign | sources/reactphysics3d/mathematics/Matrix.cpp:342-361 | MatrixException exactly when the shapes differ, leaving this unchanged; otherwise this holds the source's entries and is returned; self-assignment changes nothing; the source is never changed |
| DenseMatrix.Matrix.Equals | sources/reactphysics3d/mathematics/Matrix.cpp:364-382 | MatrixException exactly when the shapes differ (not false); otherwise true exactly when every entry is equal |
| Dynamics.FirstIndex | src/engine/DynamicsWorld.h:153-161 | the position std::find stops at holds the constraint, and no earlier position does |
| Dynamics.RemoveFirst | src/engine/DynamicsWorld.h:153-161 | erasing the first occurrence shortens the registry by one and removes exactly one copy of the constraint from its contents |
| Dynamics.RemoveFirstReinsert | src/engine/DynamicsWorld.h:153-161 | putting the constraint back where it was found restores the registry: the others keep their order |
| Dynamics.AddThenRemove | src/engine/DynamicsWorld.h:147-161 | adding an unregistered constraint and removing it gives back the registry |
| Dynamics.RemoveBeforeAppended | src/engine/DynamicsWorld.h:147-161 | removing a registered constraint after appending another equals removing it first and then appending |
| Dynamics.StillRegistered | src/engine/DynamicsWorld.h:153-161 | a constraint is still registered after its removal exactly when it was registered more than once |
| Dynamics.DynamicsWorld.constructor | src/engine/DynamicsWorld.h:47-56 | an empty registry, set and pair cache, with the given gravity settings and deactivation flag, and a solver of its own, freshly allocated with the given settings |
| Dynamics.DynamicsWorld.SetNbLCPIterations | src/engine/DynamicsWorld.h:112-114 | the solver's iteration count becomes the argument; its error-correction flag is unchanged |
| Dynamics.DynamicsWorld.SetIsErrorCorrectionActive | src/engine/DynamicsWorld.h:117-119 | the solver's error-correction flag becomes the argument; its iteration count is unchanged |
| Dynamics.DynamicsWorld.ResetBodiesMovementVariable | src/engine/DynamicsWorld.h:122-130 | afterwards no registered body has moved; only the bodies are written and the set itself is unchanged |
| Dynamics.DynamicsWorld.UpdateOverlappingPair | src/engine/DynamicsWorld.h:133-143 | the key must be in the cache; the pair stored under it is updated once and no other object is written |
| Dynamics.DynamicsWorld.AddConstraint | src/engine/DynamicsWorld.h:147-150 | the constraint is appended; earlier entries, their order and every other field are unchanged; a constraint not yet freed keeps the registry free of freed constraints |
| Dynamics.DynamicsWorld.RemoveConstraint | src/engine/DynamicsWorld.h:153-161 | the constraint must be registered and not yet freed (a second delete is undefined behaviour); its first occurrence is erased and it is freed; other fields unchanged; the registry stays free of freed constraints exactly when it was registered once |
| Dynamics.DynamicsWorld.FindConstraint | src/engine/DynamicsWorld.h:157-158 | the search returns the position of the first occurrence |
| Dynamics.DynamicsWorld.GetGravity | src/engine/DynamicsWorld.h:164-166 | returns the stored gravity vector |
| Dynamics.DynamicsWorld.GetIsGravityOn | src/engine/DynamicsWorld.h:169-171 | returns the stored flag, so after SetIsGravityOn(b) it returns b |
| Dynamics.DynamicsWorld.SetIsGravityOn | src/engine/DynamicsWorld.h:174-176 | the flag becomes the argument and no other field changes |
| Dynamics.DynamicsWorld.GetConstraints | src/engine/DynamicsWorld.h:189-196 | the iterator range is exactly the registry, in order |
| Dynamics.DynamicsWorld.GetRigidBodies | src/engine/DynamicsWorld.h:179-186 | the iterator range is exactly the set of bodies, each once |

## Left out

- Floating point: entries are `real`. There are no claims about rounding, overflow, NaN or infinities. The only numeric test kept is the exact comparison of the determinant with 0.
- Equals: when an entry is NaN, the C++ `!=` makes the matrices unequal even to themselves; `real` equality does not.
- CorrectedInverseIsInverse: proved for 1x1 and 2x2 matrices only. That the adjugate over the determinant inverts a general n x n matrix is not proved.
- GetInverse: the C++ declares `throw(MatrixException)`, so the `invalid_argument` escaping it for a 1x1 matrix would end the program. Here it is returned as `Err(InvalidArgument)`.
- Memory: raw `new`/`delete` of the row arrays, the destructor and the lifetimes of allocations are not modelled. Storage is a Dafny `array2`, and a freed constraint is only recorded in the ghost set `deleted`.
- `Matrix::display` and the console output of `DynamicsWorld::stop`: console I/O.
- The `Timer` and `start`/`stop`: wall-clock time.
- `getValue`/`setValue` and the other inline members of `Matrix.h`: Matrix.h is not part of this model. Array indexing stands in for them, and indices are always in range.
- Some methods are split into helper methods not in the source, each covering one loop step or one product: ExpandAlongFirstRow, ColumnTerm, SignedCofactorMatrix, SignedCofactor, RowTimesColumn, FindConstraint. This keeps each proof small; the computation is the source's.
- The world's constructor: its body is not part of this model. The initial gravity, the flags and the solver's two settings are parameters.
- Members whose bodies are not part of this model are left out or reduced to what the world touches:
  - `update`, `createRigidBody`, `destroyRigidBody`;
  - the gravity and motion integration;
  - the `notify*` callbacks, `removeAllContactConstraints` and `removeAllConstraints`;
  - `ConstraintSolver`, reduced to its two settings;
  - `OverlappingPair::update`, modelled as a count of update calls;
  - `BroadPhasePair`, reduced to its body-index pair.
- Vector3 arithmetic: gravity is only stored and returned.
- ResetBodiesMovementVariable: visits the bodies in an unspecified order, not in the address order of `std::set`. The result does not depend on the order.
- The null asserts of addConstraint and removeConstraint: Dafny references of type `Constraint` are never null.

## Findings

| source | as written | input that shows it | evidently intended | confidence | as-written member | corrected member |
|---|---|---|---|---|---|---|
| sources/reactphysics3d/mathematics/Matrix.cpp:129-171 | getInverse computes getCofactor(i, j) for every entry, and for a 1x1 matrix that asks the constructor for a 0x0 matrix, which throws invalid_argument | the 1x1 matrix [[2]] (determinant 2) | the inverse [[1/a]] of a non-singular 1x1 matrix [[a]] | not executed; follows from the constructor's positive-dimension check | MatrixMath.OneByOneInverseThrows | MatrixMath.CorrectedInverse |
| sources/reactphysics3d/mathematics/Matrix.cpp:209-223 | getTrace sums every entry of the matrix (a TODO in the code says it still has to be checked) | [[0, 1], [0, 0]]: the result is 1, the trace is 0 | the sum of the diagonal entries | not executed | MatrixMath.TraceCountsOffDiagonal | MatrixMath.DiagonalTrace |
