# FluidEngine core, modelled in Dafny

This project models the core of FluidEngine, a C++ fluid-simulation engine. It covers:

- the parallel hash-grid neighbour searcher;
- the compressed-sparse-row matrix;
- the dense 3-D array and its nearest, linear and cubic samplers;
- the blocked boundary-condition pass;
- the grid fluid solver's time step;
- the physics animation's frame and sub-step driver;
- the render-parameter block;
- the rigid-body collider;
- the constant scalar field.

Each source file is one Dafny module in one file:

| file | module | models |
|---|---|---|
| `hash_grid.dfy` | `HashGrid` | `PointParallelHashGridSearcher3.cpp` |
| `matrix_csr.dfy` | `Csr` | `MatrixCsr.h` |
| `array3.dfy` | `Array3D` | `Array3.h` |
| `array_samplers.dfy` | `ArraySamplers` | `ArraySamplers3.h` |
| `blocked_boundary.dfy` | `BlockedBoundary` | `GridBlockedBoundaryConditionSolver2.cpp` |
| `grid_fluid_solver.dfy` | `GridFluid` | `GridFluidSolver3.cpp` |
| `physics_animation.dfy` | `Animation` | `PhysicsAnimation.cpp` |
| `render_parameters.dfy` | `RenderParams` | `RenderParameters.cpp`, `RenderParameters.h` |
| `rigid_body_collider.dfy` | `RigidBodyCollider` | `RigidBodyCollider3.cpp` |
| `constant_scalar_field.dfy` | `ConstantScalarField` | `ConstantScalarField2.cpp` |
| `vector_math.dfy` | `VectorMath` | 2-D and 3-D vectors, shared by the modules |
| `wrappers.dfy` | `Wrappers` | an `Option` type, shared by the modules |

Objects whose methods update their fields in place are Dafny classes. Each has a `Valid()` invariant that every method keeps:

- the searcher, with its stored points, keys, permutation and start/end tables as `seq` fields;
- the CSR matrix, with its size, values, columns and row pointers;
- `Array3`, with its size and flat data;
- the blocked solver, with its marker grid;
- the grid fluid solver;
- the physics animation;
- the render-parameter block.

Loops in the source are `while` loops here, proved against specification functions:

- the searcher's build, sort, fill and query loops;
- the matrix's compress, addRow, addElement, binaryOp, reduction and scalar loops;
- the array's resize and set loops;
- the blocked cell loop;
- the solver's CFL and face loops;
- the animation's sub-step loops.

Value types are datatypes with functions: the samplers, the collider and its builder, and the constant field and its builder.

Some collaborators are not modelled: solvers (advection, diffusion, pressure, boundary), colliders, emitters, the surface of the rigid body and the callbacks. They are function-typed parameters or fields. Their calls are recorded in an event log, so the model states which calls happen, in which order and with which arguments.

Arithmetic is exact:

- Doubles are `real`, with no rounding, NaN or infinity.
- `size_t` and `ssize_t` are integers.
- The C++ truncating `%` and the `ssize_t` cast are written out (`HashGrid.TruncRem`, `HashGrid.ToSSize`).
- `kMaxSize` is the sentinel 2^64 - 1.
- `kEpsilonD` is 2^-52, the machine epsilon of `double`. `Constants.h` is not part of this model, and this value is taken as given.

## Model

| member | source | states |
|---|---|---|
| ConstantScalarField.ConstantScalarField2.Sample | FluidEngine/Engine/Math/ConstantScalarField2.cpp:7 | Every point samples the stored value. |
| ConstantScalarField.ConstantScalarField2.Sampler | FluidEngine/Engine/Math/ConstantScalarField2.cpp:9-15 | The sampler function agrees with `sample` at every point. |
| ConstantScalarField.Builder.WithValue | FluidEngine/Engine/Math/ConstantScalarField2.cpp:20-25 | The builder afterwards holds exactly the given value. |
| ConstantScalarField.Builder.Build | FluidEngine/Engine/Math/ConstantScalarField2.cpp:27-30 | The built field holds the builder's value. |
| ConstantScalarField.Builder.MakeShared | FluidEngine/Engine/Math/ConstantScalarField2.cpp:32-39 | The shared field is the built field. |
| ConstantScalarField.NewBuilder | FluidEngine/Engine/Math/ConstantScalarField2.cpp:17 | A fresh builder holds value 0. |
| ConstantScalarField.SampleIsConstant | FluidEngine/Engine/Math/ConstantScalarField2.cpp:5-7 | Any two points sample to the same value. |
| ConstantScalarField.BuiltFieldSamplesValue | FluidEngine/Engine/Math/ConstantScalarField2.cpp:20-39 | A field built with `withValue(v)` samples `v` everywhere. |
| RigidBodyCollider.FromSurface | FluidEngine/Engine/Simulation/RigidBodyCollider3.cpp:5 | The surface-only constructor keeps the surface and sets both velocities to zero. |
| RigidBodyCollider.VelocityAt | FluidEngine/Engine/Simulation/RigidBodyCollider3.cpp:11-15 | The velocity of a rigid motion about the surface's translation: with zero angular velocity every point moves at the linear velocity, and at the translation itself only the linear velocity remains. |
| RigidBodyCollider.RotationalPartOrthogonalToSpin | FluidEngine/Engine/Simulation/RigidBodyCollider3.cpp:14 | The rotational part `w x r` is orthogonal to the angular velocity. |
| RigidBodyCollider.Builder.WithSurface | FluidEngine/Engine/Simulation/RigidBodyCollider3.cpp:19-23 | Replaces the surface and keeps both velocities. |
| RigidBodyCollider.Builder.WithLinearVelocity | FluidEngine/Engine/Simulation/RigidBodyCollider3.cpp:25-29 | Replaces the linear velocity and keeps the rest. |
| RigidBodyCollider.Builder.WithAngularVelocity | FluidEngine/Engine/Simulation/RigidBodyCollider3.cpp:31-35 | Replaces the angular velocity and keeps the rest. |
| RigidBodyCollider.Builder.Build | FluidEngine/Engine/Simulation/RigidBodyCollider3.cpp:37-40 | The collider takes the builder's surface and both velocities. |
| RigidBodyCollider.Builder.MakeShared | FluidEngine/Engine/Simulation/RigidBodyCollider3.cpp:42-48 | The shared collider is the built collider. |
| RigidBodyCollider.NewBuilder | FluidEngine/Engine/Simulation/RigidBodyCollider3.cpp:17 | A fresh builder has no surface and zero velocities. |
| RigidBodyCollider.BuiltColliderVelocity | FluidEngine/Engine/Simulation/RigidBodyCollider3.cpp:37-40 | A built collider's point velocity is `lin + ang x (p - translation)`. |
| RenderParams.SizeWithPadding | FluidEngine/Engine/Visualizer/RenderParameters.cpp:7-13 | The result is a multiple of 16, covers the size and is less than 16 above it. |
| RenderParams.SizeWithPaddingIsLeast | FluidEngine/Engine/Visualizer/RenderParameters.cpp:7-13 | No smaller multiple of 16 covers the size. |
| RenderParams.SizeWithPaddingMonotonic | FluidEngine/Engine/Visualizer/RenderParameters.cpp:7-13 | Padding never shrinks as the used area grows. |
| RenderParams.NumberOfElements | FluidEngine/Engine/Visualizer/RenderParameters.cpp:15-34 | With `UInt` counted as one word: each type takes 1 to 16 words. Exactly `Int`, `UInt` and `Float` take one word, and only `Matrix` takes 16. |
| RenderParams.NumberOfElementsAsWritten | FluidEngine/Engine/Visualizer/RenderParameters.cpp:15-34 | The switch as written counts `UInt` as 0 words and agrees with NumberOfElements on every other type. |
| RenderParams.TypeSizeInBytes | FluidEngine/Engine/Visualizer/RenderParameters.cpp:142-145 | The byte size is four bytes per word. |
| RenderParams.SlotsBeforeGrow | FluidEngine/Engine/Visualizer/RenderParameters.cpp:147-163 | A later parameter starts at or after the end of an earlier one. |
| RenderParams.SlotsBeforeAppend | FluidEngine/Engine/Visualizer/RenderParameters.cpp:152-162 | Appending a parameter leaves the earlier offsets unchanged. |
| RenderParams.PaddedBytes | FluidEngine/Engine/Visualizer/RenderParameters.cpp:128-131 | A padded word count (a multiple of 16) is a multiple of 64 bytes. |
| RenderParams.AppendKeepsLayout | FluidEngine/Engine/Visualizer/RenderParameters.cpp:147-163 | Appending a new name at the end of the used area keeps the layout invariant. |
| RenderParams.WriteWords | FluidEngine/Engine/Visualizer/RenderParameters.cpp:159-160 | Exactly the words at `offset ..` are replaced, in order; the others are unchanged. |
| RenderParams.AppendWords | FluidEngine/Engine/Visualizer/RenderParameters.cpp:158-160 | The buffer grows zero-filled to the padded size, holds the new words at the old end and keeps all earlier words. |
| RenderParams.RenderParameters.constructor | FluidEngine/Engine/Visualizer/RenderParameters.h:103-106 | An empty block: no names, no metadata, no buffer, zero used words. |
| RenderParams.RenderParameters.Has | FluidEngine/Engine/Visualizer/RenderParameters.cpp:106-110 | `has(name)` holds exactly when the name is in the metadata. |
| RenderParams.RenderParameters.Names | FluidEngine/Engine/Visualizer/RenderParameters.cpp:112-115 | The names are exactly the added ones, each listed once. |
| RenderParams.RenderParameters.BufferOf | FluidEngine/Engine/Visualizer/RenderParameters.cpp:119-126 | For a known name, the offset stored in its metadata, with the parameter's words inside the buffer. For an unknown name, the null pointer (`None`). |
| RenderParams.RenderParameters.MetadataOf | FluidEngine/Engine/Visualizer/RenderParameters.cpp:133-140 | Gives the stored entry for a known name, and a value-initialised one otherwise. |
| RenderParams.RenderParameters.BufferSizeInBytes | FluidEngine/Engine/Visualizer/RenderParameters.cpp:128-131 | Four bytes per buffer word; padded, so a multiple of 64. |
| RenderParams.RenderParameters.ParametersDoNotOverlap | FluidEngine/Engine/Visualizer/RenderParameters.cpp:147-163 | Two distinct parameters never share a word. |
| RenderParams.RenderParameters.Add | FluidEngine/Engine/Visualizer/RenderParameters.cpp:147-163 | The new name is appended. Its offset is the old used size. The used size grows by its word count. The buffer is re-padded with the new words written in. Earlier parameters and words are unchanged. |
| RenderParams.RenderParameters.Set | FluidEngine/Engine/Visualizer/RenderParameters.cpp:165-175 | Exactly the named parameter's words take the new value. The buffer size and every other word are unchanged, and only the buffer is modified. |
| RenderParams.UIntParameterAliasesNextAsWritten | FluidEngine/Engine/Visualizer/RenderParameters.cpp:15-34 | Under the switch as written, a `UInt` followed by another parameter shares its offset with that parameter. |
| RenderParams.UIntParameterHasOwnSlot | FluidEngine/Engine/Visualizer/RenderParameters.cpp:15-34 | With `UInt` counted as one word, the next parameter starts after it. |
| Array3D.LinearIndexInRange | FluidEngine/Engine/Math/Array3.h:493-504 | Every in-bounds (i, j, k) maps inside the data vector. |
| Array3D.LinearIndexOrdered | FluidEngine/Engine/Math/Array3.h:459-462 | Flat positions follow the lexicographic order of (k, j, i). |
| Array3D.LinearIndexInjective | FluidEngine/Engine/Math/Array3.h:493-504 | Distinct in-bounds elements never share a position. |
| Array3D.Array3.At | FluidEngine/Engine/Math/Array3.h:580-591 | The element is read at `i + w * (j + h * k)`, for in-bounds indices only. |
| Array3D.Array3.Empty | FluidEngine/Engine/Math/Array3.h:384 | Size (0, 0, 0) and no data. |
| Array3D.Array3.constructor | FluidEngine/Engine/Math/Array3.h:387-390 | The given size, with every element `initVal`. |
| Array3D.Array3.FromList | FluidEngine/Engine/Math/Array3.h:393 | The list's extents and elements, as `set(list)` gives them. |
| Array3D.Array3.Copy | FluidEngine/Engine/Math/Array3.h:396 | From a valid array: the copy is valid, with the other array's size and data. |
| Array3D.Array3.SetValue | FluidEngine/Engine/Math/Array3.h:402-406 | Every element becomes the value; the size is unchanged. |
| Array3D.Array3.SetFrom | FluidEngine/Engine/Math/Array3.h:409-414 | Takes the other array's size and data. |
| Array3D.Array3.Clear | FluidEngine/Engine/Math/Array3.h:445-449 | Size (0, 0, 0) and empty data. |
| Array3D.Array3.Swap | FluidEngine/Engine/Math/Array3.h:543 | The two arrays exchange size and data. |
| Array3D.Array3.MoveFrom | FluidEngine/Engine/Math/Array3.h:614-620 | Takes the other's size and data; the other is left 0x0x0 and empty. |
| Array3D.Array3.SetFromList | FluidEngine/Engine/Math/Array3.h:417-442 | For a rectangular list: size (w, h, d) from the list, and element (i, j, k) is `list[k][j][i]`. An empty list gives 0x0x0. |
| Array3D.Array3.Resize | FluidEngine/Engine/Math/Array3.h:452-464 | The new size. Elements inside both the old and the new extents keep their values; the others are `initVal`. |
| Array3D.CopyPage | FluidEngine/Engine/Math/Array3.h:459-462 | One page of the resize copy: the overlapping cells are copied and no other cell changes. |
| Array3D.CopyRow | FluidEngine/Engine/Math/Array3.h:461-462 | One row of the resize copy: the overlapping cells are copied and no other cell changes. |
| Array3D.FillRow | FluidEngine/Engine/Math/Array3.h:433-437 | Cell (a, j, k) takes `row[a]`; no other cell changes. |
| Array3D.FillPage | FluidEngine/Engine/Math/Array3.h:429-439 | Cell (a, b, k) takes `page[b][a]`; no other cell changes. |
| Array3D.ListShape | FluidEngine/Engine/Math/Array3.h:419-423 | The extents are the depth, the first page's height and the first row's width; 0 where a level is empty. |
| Array3D.ListShapeAsWritten | FluidEngine/Engine/Math/Array3.h:419-423 | As written: undefined (`None`) on the empty list, where the code reads the first page of an empty list. |
| Array3D.ListShapeAgreesAsWritten | FluidEngine/Engine/Math/Array3.h:420-422 | The two readings agree on every non-empty list and differ on the empty one. |
| ArraySamplers.Trunc | FluidEngine/Engine/Math/ArraySamplers3.h:201-203 | Truncation toward zero: `n <= x < n + 1` for `x >= 0`, and `n - 1 < x <= n` for `x < 0`. |
| ArraySamplers.NormalizeByInverseAgrees | FluidEngine/Engine/Math/ArraySamplers3.h:293-295 | Multiplying by the cached inverse spacing equals dividing by the spacing. |
| ArraySamplers.NearestAxis | FluidEngine/Engine/Math/ArraySamplers3.h:201-203 | The nearest index is in `[0, size - 1]`. It is `i` or `i + 1`, and it is `i + 1` exactly when `f >= 0.5` and `i + 1` is in bounds. |
| ArraySamplers.NearestCoordinate | FluidEngine/Engine/Math/ArraySamplers3.h:209-230 | `getCoordinate` always gives an in-bounds index. |
| ArraySamplers.NearestSample | FluidEngine/Engine/Math/ArraySamplers3.h:183-206 | The nearest sampler returns the stored element at the nearest in-bounds index. |
| ArraySamplers.Corners | FluidEngine/Engine/Math/ArraySamplers3.h:309-316 | Corner `c` of the eight takes the upper neighbour exactly on the axes of the bits of `c`. |
| ArraySamplers.TrilinearWeightIsFactorProduct | FluidEngine/Engine/Math/ArraySamplers3.h:318-325 | Weight `c` is the product of the per-axis factors chosen by the bits of `c`. |
| ArraySamplers.TrilinearWeightsPartitionUnity | FluidEngine/Engine/Math/ArraySamplers3.h:318-325 | For fractions in [0, 1], each weight is in [0, 1] and the eight weights sum to 1. |
| ArraySamplers.GradientWeightIsDerivative | FluidEngine/Engine/Math/ArraySamplers3.h:360-391 | Gradient weight `c` is the derivative of trilinear weight `c` over the spacing. |
| ArraySamplers.GradientWeightsSumToZero | FluidEngine/Engine/Math/ArraySamplers3.h:360-391 | Each component of the eight gradient weights sums to zero. |
| ArraySamplers.NewLinearSampler | FluidEngine/Engine/Math/ArraySamplers3.h:240-247 | The sampler caches `1 / gridSpacing` per axis. |
| ArraySamplers.CellCorners | FluidEngine/Engine/Math/ArraySamplers3.h:305-307 | The lower corner is the barycentric index on each axis; the upper one is the next index, or the same one at the last index. Both lie in the array. |
| ArraySamplers.CoordinatesAndWeights | FluidEngine/Engine/Math/ArraySamplers3.h:287-326 | Corner `c` is the corner of the position's cell that the bits of `c` select (bit 0 x, bit 1 y, bit 2 z, upper index clamped). The weights are the trilinear weights of the cell's fractions. All corners are in bounds, and the weights lie in [0, 1] and sum to 1. |
| ArraySamplers.CellStencilIsCorners | FluidEngine/Engine/Math/ArraySamplers3.h:309-316 | Entry `c` of the corner table is the in-bounds cell corner that the bits of `c` select. |
| ArraySamplers.GradientWeightsAreDerivatives | FluidEngine/Engine/Math/ArraySamplers3.h:360-391 | Each of the eight gradient weights is the derivative of its corner's trilinear weight. |
| ArraySamplers.CoordinatesAndGradientWeights | FluidEngine/Engine/Math/ArraySamplers3.h:329-392 | Corner `c` is the cell corner its bits select, and its weight is the derivative of trilinear weight `c` (the spacing-normalised slope on each axis). All corners are in bounds, and each gradient component sums to 0. |
| ArraySamplers.GradientStencilMatchesWeights | FluidEngine/Engine/Math/ArraySamplers3.h:351-358 | Both queries select the same eight corners for the same position. |
| ArraySamplers.CubicAxis | FluidEngine/Engine/Math/ArraySamplers3.h:436-453 | Index `t` of the four is `i - 1 + t` clamped to `[0, size - 1]`. So the second is `i`, all are in bounds, and they step by 0 or 1. |
| ArraySamplers.CubicStencil | FluidEngine/Engine/Math/ArraySamplers3.h:419-453 | The three index lists are the cubic stencils of the barycentric index on each axis, and every index they combine into lies inside the array. |
| BlockedBoundary.UOwner | FluidEngine/Engine/Simulation/GridBlockedBoundaryConditionSolver2.cpp:32-43 | The collider cell beside an interface u face is a collider cell next to that face. |
| BlockedBoundary.VOwner | FluidEngine/Engine/Simulation/GridBlockedBoundaryConditionSolver2.cpp:44-53 | The collider cell beside an interface v face is a collider cell next to that face. |
| BlockedBoundary.BlockedU | FluidEngine/Engine/Simulation/GridBlockedBoundaryConditionSolver2.cpp:32-43 | The u faces after the pass: a face between a collider cell and a fluid cell holds the collider velocity there, and every other face keeps its value. |
| BlockedBoundary.BlockedV | FluidEngine/Engine/Simulation/GridBlockedBoundaryConditionSolver2.cpp:44-53 | The v faces after the pass, by the same rule. |
| BlockedBoundary.BlockedFaceRules | FluidEngine/Engine/Simulation/GridBlockedBoundaryConditionSolver2.cpp:30-55 | The cell-loop rules hold. A collider cell beside a fluid cell writes the collider velocity on their shared face. A face between two cells of the same kind keeps its value. |
| BlockedBoundary.NoColliderKeepsFaces | FluidEngine/Engine/Simulation/GridBlockedBoundaryConditionSolver2.cpp:30-55 | With no collider cell, the pass changes no face. |
| BlockedBoundary.BlockedIdempotent | FluidEngine/Engine/Simulation/GridBlockedBoundaryConditionSolver2.cpp:30-55 | Running the pass twice gives the same faces as running it once. |
| BlockedBoundary.BlockedSolver.constructor | FluidEngine/Engine/Simulation/GridBlockedBoundaryConditionSolver2.cpp:15 | A solver with an empty marker grid. |
| BlockedBoundary.BlockedSolver.OnColliderUpdated | FluidEngine/Engine/Simulation/GridBlockedBoundaryConditionSolver2.cpp:60-77 | The marker grid takes the grid's size; each cell is a collider cell exactly when its SDF value is inside. |
| BlockedBoundary.BlockedSolver.VisitCellU | FluidEngine/Engine/Simulation/GridBlockedBoundaryConditionSolver2.cpp:32-43 | Cell (i, j) writes the collider velocity on exactly the interface u faces it owns; every other u face is unchanged. |
| BlockedBoundary.BlockedSolver.VisitCellV | FluidEngine/Engine/Simulation/GridBlockedBoundaryConditionSolver2.cpp:44-53 | Cell (i, j) writes the collider velocity on exactly the interface v faces it owns; every other v face is unchanged. |
| BlockedBoundary.BlockedSolver.ConstrainVelocity | FluidEngine/Engine/Simulation/GridBlockedBoundaryConditionSolver2.cpp:17-56 | After the loop, the face arrays hold exactly BlockedU and BlockedV of the incoming faces. |
| HashGrid.ToSSize | FluidEngine/Engine/Simulation/PointParallelHashGridSearcher3.cpp:17-19 | The signed cast: values below 2^63 are kept, larger ones become negative, and the result is congruent to `n` modulo 2^64. |
| HashGrid.ClampAxis | FluidEngine/Engine/Simulation/PointParallelHashGridSearcher3.cpp:17-19 | Each resolution axis is at least 1, and the cast value when that is at least 1. |
| HashGrid.TruncRem | FluidEngine/Engine/Simulation/PointParallelHashGridSearcher3.cpp:204-206 | C++ `%` for a positive divisor: `|r| < n`; `r` has the sign of `a`, and equals the Euclidean remainder for `a >= 0`. |
| HashGrid.WrapAxis | FluidEngine/Engine/Simulation/PointParallelHashGridSearcher3.cpp:204-212 | A wrapped coordinate lies in `[0, n)` and is the Euclidean remainder of `a` by `n`. |
| HashGrid.WrapAxisIsModulus | FluidEngine/Engine/Simulation/PointParallelHashGridSearcher3.cpp:204-212 | The remainder plus its negative-case fix is the Euclidean modulus. |
| HashGrid.WrapAxisPeriodic | FluidEngine/Engine/Simulation/PointParallelHashGridSearcher3.cpp:204-212 | Shifting a coordinate by the resolution wraps to the same value. |
| HashGrid.HashKey | FluidEngine/Engine/Simulation/PointParallelHashGridSearcher3.cpp:201-214 | Every key lies in `[0, rx * ry * rz)`. |
| HashGrid.HashKeyIsLinearIndex | FluidEngine/Engine/Simulation/PointParallelHashGridSearcher3.cpp:213 | The key is the linear index of the wrapped coordinates. |
| HashGrid.HashKeyEqualIff | FluidEngine/Engine/Simulation/PointParallelHashGridSearcher3.cpp:201-214 | Two bucket indices share a key if and only if they agree modulo the resolution on every axis. |
| HashGrid.HashKeyPeriodic | FluidEngine/Engine/Simulation/PointParallelHashGridSearcher3.cpp:201-214 | Shifting a bucket index by the resolution along any axis gives the same key. |
| HashGrid.BucketIndex | FluidEngine/Engine/Simulation/PointParallelHashGridSearcher3.cpp:186-193 | For positive spacing, each coordinate lies in the half-open cell `[b * s, (b + 1) * s)`. |
| HashGrid.KeyOfPosition | FluidEngine/Engine/Simulation/PointParallelHashGridSearcher3.cpp:195-199 | The key of a position is in range and is the key of its bucket index. |
| HashGrid.NearbyBuckets | FluidEngine/Engine/Simulation/PointParallelHashGridSearcher3.cpp:218-266 | Candidate `c` differs from the origin's bucket by at most one cell per axis, moved toward the half the point lies in, on the axes the bits of `c` select. |
| HashGrid.NearbyBucketsOf | FluidEngine/Engine/Simulation/PointParallelHashGridSearcher3.cpp:218-266 | The eight candidate buckets of a point, the first being its own bucket; each axis moves toward the half of that bucket which holds the point. |
| HashGrid.NearbyKeys | FluidEngine/Engine/Simulation/PointParallelHashGridSearcher3.cpp:216-270 | Eight keys, all in the table's range. Key `c` is the key of candidate bucket `c`, and the first is the key of the point's own bucket. |
| HashGrid.AxisNeighbour | FluidEngine/Engine/Simulation/PointParallelHashGridSearcher3.cpp:218-262 | Along one axis, a value at most half a spacing from `v` lies in `v`'s bucket or in the neighbour on the side of the half that holds `v`. |
| HashGrid.AxisCandidate | FluidEngine/Engine/Simulation/PointParallelHashGridSearcher3.cpp:186-193 | The same fact for the floor buckets `getBucketIndex` computes. |
| HashGrid.CandidateIndex | FluidEngine/Engine/Simulation/PointParallelHashGridSearcher3.cpp:218-266 | A bucket within one step of the origin on the chosen side of every axis is one of the eight candidates. |
| HashGrid.WithinAlongAxes | FluidEngine/Engine/Simulation/PointParallelHashGridSearcher3.cpp:139-141 | A point that passes the radius test is within the radius along each axis. |
| HashGrid.BucketIsCandidate | FluidEngine/Engine/Simulation/PointParallelHashGridSearcher3.cpp:186-266 | A point at most half a spacing from the origin along each axis lies in one of its eight candidate buckets. |
| HashGrid.NearbyKeysCover | FluidEngine/Engine/Simulation/PointParallelHashGridSearcher3.cpp:216-270 | Every point within a radius of at most half the spacing hashes to one of the eight nearby keys. |
| HashGrid.RepeatedKeyAtResolutionOne | FluidEngine/Engine/Simulation/PointParallelHashGridSearcher3.cpp:201-214 | With a resolution of 1 along x, candidates 0 and 4 share a key, so that bucket is scanned twice. |
| HashGrid.LargeRadiusMissesPoint | FluidEngine/Engine/Simulation/PointParallelHashGridSearcher3.cpp:216-270 | With spacing 1 and radius 2, a point within the radius has a key outside the eight candidates. |
| HashGrid.ComputeKeys | FluidEngine/Engine/Simulation/PointParallelHashGridSearcher3.cpp:53-57 | The key of every point, and the identity permutation. |
| HashGrid.SortByKey | FluidEngine/Engine/Simulation/PointParallelHashGridSearcher3.cpp:60-62 | The result is a permutation of the indices, sorted by key. |
| HashGrid.Reorder | FluidEngine/Engine/Simulation/PointParallelHashGridSearcher3.cpp:65-68 | Stored point `i` is `points[perm[i]]` and stored key `i` is `keys[perm[i]]`. |
| HashGrid.FillTables | FluidEngine/Engine/Simulation/PointParallelHashGridSearcher3.cpp:82-90 | Tables of the table size in which each sorted key lies in `[start[b], end[b])` exactly when it is `b`. |
| HashGrid.BoundariesIndex | FluidEngine/Engine/Simulation/PointParallelHashGridSearcher3.cpp:82-90 | A stored key lies in `[start[b], end[b])` if and only if it is `b`. |
| HashGrid.BucketSizeIsCount | FluidEngine/Engine/Simulation/PointParallelHashGridSearcher3.cpp:73-80 | `end[b] - start[b]` is the number of points with key `b`. |
| HashGrid.BuildIndex | FluidEngine/Engine/Simulation/PointParallelHashGridSearcher3.cpp:53-90 | Points reordered by a key-sorted permutation, their keys, and tables that index every bucket exactly. |
| HashGrid.EmptyIndexValid | FluidEngine/Engine/Simulation/PointParallelHashGridSearcher3.cpp:40-50 | An empty searcher with every bucket marked `kMaxSize` satisfies the invariant. |
| HashGrid.PointParallelHashGridSearcher3.constructor | FluidEngine/Engine/Simulation/PointParallelHashGridSearcher3.cpp:14-23 | Clamped resolution, the spacing, nothing stored and all buckets `kMaxSize`. |
| HashGrid.PointParallelHashGridSearcher3.Build | FluidEngine/Engine/Simulation/PointParallelHashGridSearcher3.cpp:28-90 | Stores a key-sorted permutation of the input with its keys, each the hash of its point, and start/end tables indexing every bucket. An empty input empties the searcher. |
| HashGrid.PointParallelHashGridSearcher3.Set | FluidEngine/Engine/Simulation/PointParallelHashGridSearcher3.cpp:287-296 | Every field is copied from the other searcher. |
| HashGrid.PointParallelHashGridSearcher3.ForEachNearbyPoint | FluidEngine/Engine/Simulation/PointParallelHashGridSearcher3.cpp:112-148 | The callbacks fired are exactly NearbyMatches: the scan of the eight candidate buckets, in order. |
| HashGrid.PointParallelHashGridSearcher3.ScanRange | FluidEngine/Engine/Simulation/PointParallelHashGridSearcher3.cpp:132-146 | The inner loop fires exactly the range's stored points that pass the radius test, in order. |
| HashGrid.PointParallelHashGridSearcher3.AnyInRange | FluidEngine/Engine/Simulation/PointParallelHashGridSearcher3.cpp:167-173 | True if and only if some stored point in the range passes the radius test. |
| HashGrid.PointParallelHashGridSearcher3.HasNearbyPoint | FluidEngine/Engine/Simulation/PointParallelHashGridSearcher3.cpp:150-176 | True if and only if `forEachNearbyPoint` would fire at least once. |
| HashGrid.PointParallelHashGridSearcher3.RangeMatchesExactly | FluidEngine/Engine/Simulation/PointParallelHashGridSearcher3.cpp:132-146 | A range scan fires for a point if and only if it is stored in the range and within the radius. |
| HashGrid.PointParallelHashGridSearcher3.BucketMatchesExactly | FluidEngine/Engine/Simulation/PointParallelHashGridSearcher3.cpp:124-146 | A bucket fires for a point if and only if it is stored with that key and within the radius. |
| HashGrid.PointParallelHashGridSearcher3.MatchesInBucketsSound | FluidEngine/Engine/Simulation/PointParallelHashGridSearcher3.cpp:122-147 | Every callback from the first `c` candidate buckets is a stored point within the radius whose key is one of their keys. |
| HashGrid.PointParallelHashGridSearcher3.MatchesInBucketsComplete | FluidEngine/Engine/Simulation/PointParallelHashGridSearcher3.cpp:122-147 | Every stored point within the radius whose key is one of the first `c` candidate keys is called back. |
| HashGrid.PointParallelHashGridSearcher3.MatchesInBucketsExactly | FluidEngine/Engine/Simulation/PointParallelHashGridSearcher3.cpp:122-147 | The first `c` candidate buckets fire exactly for stored points within the radius whose key is one of their keys. |
| HashGrid.PointParallelHashGridSearcher3.NearbyMatchesExactly | FluidEngine/Engine/Simulation/PointParallelHashGridSearcher3.cpp:112-148 | A query fires for a stored point if and only if its key is one of the eight nearby keys and it is within the radius. |
| HashGrid.PointParallelHashGridSearcher3.NearbyMatchesWithinRadius | FluidEngine/Engine/Simulation/PointParallelHashGridSearcher3.cpp:112-148 | After `build`, with positive spacing and a radius of at most half of it, a query fires for exactly the stored points within the radius, each with its original index. |
| Csr.MatrixCsr.constructor | FluidEngine/Engine/Math/MatrixCsr.h:561 | An empty 0 x 0 matrix with row pointers `[0]`. |
| Csr.MatrixCsr.Clear | FluidEngine/Engine/Math/MatrixCsr.h:579-586 | 0 x 0, no values, no columns, row pointers `[0]`. |
| Csr.MatrixCsr.SetFrom | FluidEngine/Engine/Math/MatrixCsr.h:592-598 | Every field is copied from the other matrix. |
| Csr.MatrixCsr.Compress | FluidEngine/Engine/Math/MatrixCsr.h:610-636 | A valid matrix with the list's size. Row `i` stores exactly the entries with magnitude above `eps`, in column order. Every element reads back the list value, or 0 if it was small. |
| Csr.CompressArrays | FluidEngine/Engine/Math/MatrixCsr.h:610-636 | The flat arrays of the kept entries, row by row, satisfy the CSR invariant. |
| Csr.FillRows | FluidEngine/Engine/Math/MatrixCsr.h:617-634 | After the row loop, the arrays hold the kept entries of every row, with each row's start. |
| Csr.AppendKept | FluidEngine/Engine/Math/MatrixCsr.h:624-633 | Appends exactly the kept entries of one dense row. |
| Csr.Kept | FluidEngine/Engine/Math/MatrixCsr.h:624-633 | Kept columns are strictly increasing and below the row length. |
| Csr.KeptExactly | FluidEngine/Engine/Math/MatrixCsr.h:624-633 | An entry is kept if and only if it is a value of the row with magnitude above `eps`. |
| Csr.LookupKept | FluidEngine/Engine/Math/MatrixCsr.h:624-633 | The kept entries read back the dense row, with small values as 0. |
| Csr.CompressedIsValid | FluidEngine/Engine/Math/MatrixCsr.h:610-636 | The compressed arrays satisfy the CSR invariant. |
| Csr.MatrixCsr.KeptRowReads | FluidEngine/Engine/Math/MatrixCsr.h:610-636 | A row of kept entries reads back the dense row. |
| Csr.MatrixCsr.AddRow | FluidEngine/Engine/Math/MatrixCsr.h:693-715 | One more row holds the given entries sorted by column. Columns widen to the largest index + 1. Earlier rows are unchanged. |
| Csr.AppendRow | FluidEngine/Engine/Math/MatrixCsr.h:693-715 | On flat arrays: the sorted entries are appended and the invariant is kept. |
| Csr.SortEntries | FluidEngine/Engine/Math/MatrixCsr.h:705-708 | The entries come back sorted by column, as a permutation of the input. |
| Csr.AppendRowValid | FluidEngine/Engine/Math/MatrixCsr.h:693-715 | Appending a sorted row keeps the CSR invariant. |
| Csr.AppendRowRows | FluidEngine/Engine/Math/MatrixCsr.h:693-715 | After appending, the earlier rows read as before and the new row is the appended one. |
| Csr.WidthAfter | FluidEngine/Engine/Math/MatrixCsr.h:702-703 | The column count is at least the old one and above every new column. |
| Csr.MatrixCsr.PadRows | FluidEngine/Engine/Math/MatrixCsr.h:671-674 | Empty rows are added until there are `n`; the existing rows are kept. |
| Csr.MatrixCsr.AddElement | FluidEngine/Engine/Math/MatrixCsr.h:669-690 | Rows are padded up to `i`, and the columns widen to `j + 1`. (i, j, v) is inserted at the lower bound of `j` in row `i`, and the other rows are unchanged. |
| Csr.InsertEntry | FluidEngine/Engine/Math/MatrixCsr.h:678-689 | On flat arrays: insert at the lower bound, bump the later row pointers, keep the invariant. |
| Csr.LowerBound | FluidEngine/Engine/Math/MatrixCsr.h:680-683 | The first position in the row whose column is not below `j`. |
| Csr.BumpAfter | FluidEngine/Engine/Math/MatrixCsr.h:688-689 | Every row pointer after row `i` is one higher; the others are unchanged. |
| Csr.InsertValid | FluidEngine/Engine/Math/MatrixCsr.h:669-690 | Inserting at the lower-bound position keeps the CSR invariant. |
| Csr.InsertKeepsOtherRows | FluidEngine/Engine/Math/MatrixCsr.h:669-690 | The other rows read as before the insertion. |
| Csr.InsertFillsRow | FluidEngine/Engine/Math/MatrixCsr.h:685-686 | Row `i` holds the new entry at the insertion position, with its other entries around it. |
| Csr.PadThenInsert | FluidEngine/Engine/Math/MatrixCsr.h:669-690 | Padding, widening and then inserting is exactly the addElement effect. |
| Csr.LookupInserted | FluidEngine/Engine/Math/MatrixCsr.h:669-690 | After the insertion, column `j` of row `i` reads the new value. |
| Csr.MatrixCsr.SetElement | FluidEngine/Engine/Math/MatrixCsr.h:722-729 | (i, j) reads `v` afterwards. A stored (i, j) is overwritten in place with the structure unchanged; otherwise the effect is addElement's. |
| Csr.MatrixCsr.HasElement | FluidEngine/Engine/Math/MatrixCsr.h:1137-1149 | The first flat position in row `i` storing column `j`. It is `kMaxSize` if and only if `i` is out of range or the row does not store `j`. |
| Csr.FindColumn | FluidEngine/Engine/Math/MatrixCsr.h:1143-1144 | The first position in the range whose column is `j`, or the range's end. |
| Csr.FindColumnIsLookup | FluidEngine/Engine/Math/MatrixCsr.h:1137-1149 | Reading through FindColumn is the row lookup. |
| Csr.MatrixCsr.Get | FluidEngine/Engine/Math/MatrixCsr.h:1108-1115 | The value at the first stored (i, j); 0 when (i, j) is out of range, and non-zero only if stored. |
| Csr.MatrixCsr.GetIsLookup | FluidEngine/Engine/Math/MatrixCsr.h:1137-1149 | Within the rows, `operator()(i, j)` is the lookup of column `j` in row `i`. |
| Csr.MatrixCsr.ReadsAsRows | FluidEngine/Engine/Math/MatrixCsr.h:1108-1115 | Every element reads as the row lookup; rows past the end read 0. |
| Csr.MatrixCsr.IsEqual | FluidEngine/Engine/Math/MatrixCsr.h:732-749 | True if and only if the size, values, columns and row pointers are all equal. |
| Csr.MatrixCsr.MakeIdentity | FluidEngine/Engine/Math/MatrixCsr.h:1124-1134 | An m x m matrix with one stored 1 per row on the diagonal; (i, j) reads 1 if i = j, else 0. |
| Csr.IdentityRowDot | FluidEngine/Engine/Math/MatrixCsr.h:1124-1134 | Row `i` of the identity times `v` is `v[i]`. |
| Csr.MatrixCsr.RowTimesVector | FluidEngine/Engine/Math/MatrixCsr.h:505-519 | Element `i` of the product is the dense product over the columns of row `i`: the total stored at each column times `v[column]`, so a column stored twice counts twice. With each column stored once, it is `sum_j Lookup(Row(i), j) * v[j]`, i.e. `sum_j (i, j) * v[j]` by GetIsLookup. |
| Csr.TotalsDotSnoc | FluidEngine/Engine/Math/MatrixCsr.h:512-516 | One more stored entry adds its value times its vector entry to the dense product. |
| Csr.TotalsDotEmpty | FluidEngine/Engine/Math/MatrixCsr.h:510-518 | A row with no stored entries gives 0. |
| Csr.RowDotIsTotals | FluidEngine/Engine/Math/MatrixCsr.h:510-518 | The in-order sum over a row's stored entries equals the dense product with the column totals. |
| Csr.TotalAbsent | FluidEngine/Engine/Math/MatrixCsr.h:510-518 | A column with no stored entry has total 0. |
| Csr.LookupSnocOther | FluidEngine/Engine/Math/MatrixCsr.h:1107-1115 | Appending an entry of another column leaves the value read at `j` unchanged. |
| Csr.TotalIsLookup | FluidEngine/Engine/Math/MatrixCsr.h:510-518 | When each column is stored at most once, a column's total is the value the row reads there. |
| Csr.LookupDotIsTotals | FluidEngine/Engine/Math/MatrixCsr.h:510-518 | When each column is stored at most once, the product over column totals is the product over the read values. |
| Csr.DotsAgree | FluidEngine/Engine/Math/MatrixCsr.h:510-518 | Two dense products agree when their terms agree column by column. |
| Csr.RepeatedColumnCountsTwice | FluidEngine/Engine/Math/MatrixCsr.h:510-518 | A column stored twice (values 1 and 2) contributes 3 to the product but reads as 1. |
| Csr.MatrixCsr.ApplyInPlace | FluidEngine/Engine/Math/MatrixCsr.h:938-973 | Every stored value becomes `op(value, s)`; the structure is unchanged. |
| Csr.MatrixCsr.Scalar | FluidEngine/Engine/Math/MatrixCsr.h:854-935 | A fresh matrix of the same structure with every stored value `op(value, s)`; the operand is unchanged. |
| Csr.ScalarRoundTrips | FluidEngine/Engine/Math/MatrixCsr.h:854-935 | Add-then-sub and mul-then-div by the same scalar give back the value. |
| Csr.ScalarKeepsUnstoredZero | FluidEngine/Engine/Math/MatrixCsr.h:854-860 | An unstored element still reads 0 after a scalar operation. |
| Csr.MatrixCsr.MaxFrom | FluidEngine/Engine/Math/MatrixCsr.h:1003-1013 | The loop returns the running maximum of the stored values from the seed. |
| Csr.MatrixCsr.MaxStoredAsWritten | FluidEngine/Engine/Math/MatrixCsr.h:1003-1013 | `max()` as written: the running maximum from the smallest positive double. |
| Csr.MaxSeedAsWritten | FluidEngine/Engine/Math/MatrixCsr.h:1007 | With every stored value at or below 0, `max()` as written returns `2^-1022`, which is not a stored value. |
| Csr.MaxFromLowest | FluidEngine/Engine/Math/MatrixCsr.h:1003-1013 | Started from the lowest double, the result is the largest stored value. |
| Csr.MatrixCsr.MaxStored | FluidEngine/Engine/Math/MatrixCsr.h:1003-1013 | For stored values of at least the lowest double: at least every stored value, and a stored value when there is one (the lowest double otherwise). |
| Csr.MatrixCsr.MinStored | FluidEngine/Engine/Math/MatrixCsr.h:990-1000 | The running minimum from the largest double: at most every stored value, and either a stored value or that seed. |
| Csr.MaxFoldIsMax | FluidEngine/Engine/Math/MatrixCsr.h:1003-1013 | The running maximum is the largest of the seed and the values, and is one of them. |
| Csr.MinFoldIsMin | FluidEngine/Engine/Math/MatrixCsr.h:990-1000 | The running minimum is the smallest of the seed and the values, and is one of them. |
| Csr.Merge | FluidEngine/Engine/Math/MatrixCsr.h:1166-1191 | The merged row has at most `|a| + |b|` entries. |
| Csr.MergeStep | FluidEngine/Engine/Math/MatrixCsr.h:1168-1190 | The corrected step takes A's entry only when A's row has entries left. |
| Csr.MergeStepAsWritten | FluidEngine/Engine/Math/MatrixCsr.h:1168-1190 | As written, the step takes A whenever B's row is done or A's current column is smaller, without checking that A's row has entries left. It takes B only while B's row has entries, and takes both only on equal columns. |
| Csr.MergeStepReadsPastRow | FluidEngine/Engine/Math/MatrixCsr.h:1168-1169 | On an exhausted row 0 of A whose next column is 0, against B's column 1, the step as written takes A's entry; the corrected step takes B's. |
| Csr.MergeStepAgreesInsideRow | FluidEngine/Engine/Math/MatrixCsr.h:1168 | While A's row is not exhausted, the two steps agree. |
| Csr.MergeColumns | FluidEngine/Engine/Math/MatrixCsr.h:1153-1197 | The merged row stores exactly the union of both rows' columns. |
| Csr.MergeBelow | FluidEngine/Engine/Math/MatrixCsr.h:1153-1197 | Every merged column is below any bound both rows keep. |
| Csr.MergeSorted | FluidEngine/Engine/Math/MatrixCsr.h:1153-1197 | Merging sorted rows gives a sorted row; strictly sorted rows give a strictly sorted one. |
| Csr.MergeLookup | FluidEngine/Engine/Math/MatrixCsr.h:1153-1197 | For column-sorted rows, every column of the merge reads `op` of the two rows' values there (0 where a row stores nothing). |
| Csr.NextMerged | FluidEngine/Engine/Math/MatrixCsr.h:1168-1190 | One loop step: the emitted entry is the head of the remaining merge. |
| Csr.MergeRow | FluidEngine/Engine/Math/MatrixCsr.h:1157-1192 | The inner loop appends exactly Merge of the two rows. |
| Csr.AppendMergedRow | FluidEngine/Engine/Math/MatrixCsr.h:1157-1193 | One row pass appends the merged row and keeps the earlier rows. The width stays the same or becomes one of the new row's columns + 1. |
| Csr.NewWidthIsStored | FluidEngine/Engine/Math/MatrixCsr.h:700-704 | After `addRow` appends a row, the column count is the old one or one of that row's columns + 1. |
| Csr.MergeArrays | FluidEngine/Engine/Math/MatrixCsr.h:1153-1197 | The row loop: every result row is Merge of the operands' rows, and the arrays satisfy the CSR invariant. The width is the largest stored column + 1, and 0 when nothing is stored. |
| Csr.MatrixCsr.BinaryOp | FluidEngine/Engine/Math/MatrixCsr.h:1153-1197 | The corrected result: same size as the operands, each row the merge of the operands' rows. |
| Csr.MatrixCsr.BinaryOpAsWritten | FluidEngine/Engine/Math/MatrixCsr.h:1153-1197 | Rows built by the corrected merge step (MergeStep), not by the step that reads past an exhausted row of A (MergeStepAsWritten). `cols` is exactly the largest stored column + 1, because some stored column attains it and all are below it. With nothing stored, `cols` is 0. |
| Csr.MatrixCsr.Add | FluidEngine/Engine/Math/MatrixCsr.h:863-864 | Every element of the sum reads the sum of the operands' elements. |
| Csr.MatrixCsr.Sub | FluidEngine/Engine/Math/MatrixCsr.h:876-877 | Every element of the difference reads the difference of the operands' elements. |
| Csr.MergedReads | FluidEngine/Engine/Math/MatrixCsr.h:1153-1197 | Every element of a merged matrix reads `op` of the two operands' elements. |
| Csr.CompressExpressionAsWritten | FluidEngine/Engine/Math/MatrixCsr.h:640-660 | As written, the old row pointers (`[0]` after `clear()`, or any earlier content) stay in front of the new ones. With any old pointer the result is invalid. From the empty pointers of a newly constructed object, as in the expression constructor, it is valid. |
| Animation.PhysicsAnimation.constructor | FluidEngine/Engine/Simulation/PhysicsAnimation.cpp:11 | Frame index -1 with the given frame interval, current time 0, not initialized, nothing called, the given stepping mode. |
| Animation.PhysicsAnimation.SubStepCount | FluidEngine/Engine/Simulation/PhysicsAnimation.cpp:38-42 | By default the count is the fixed count, whatever the interval. |
| Animation.PhysicsAnimation.Initialize | FluidEngine/Engine/Simulation/PhysicsAnimation.cpp:109-116 | `onInitialize` is called on the first call only, and the animation is initialized afterwards. |
| Animation.InitializedAtMostOnce | FluidEngine/Engine/Simulation/PhysicsAnimation.cpp:109-116 | In any animation satisfying `Valid`, `onInitialize` appears at most once in the log. The constructor establishes `Valid` and every method preserves it, so this holds after any sequence of calls. |
| Animation.PhysicsAnimation.AdvanceTimeStep | FluidEngine/Engine/Simulation/PhysicsAnimation.cpp:55-107 | `onAdvanceTimeStep` is called once per sub-step of the mode, in order. The time is the frame's time plus the sub-steps' sum. |
| Animation.PhysicsAnimation.AdvanceFixed | FluidEngine/Engine/Simulation/PhysicsAnimation.cpp:59-80 | `n` calls with `dt / n` each; time advances by their sum. |
| Animation.FixedSteps | FluidEngine/Engine/Simulation/PhysicsAnimation.cpp:64-67 | `n` sub-steps, each `dt / n`. |
| Animation.FixedStepsSum | FluidEngine/Engine/Simulation/PhysicsAnimation.cpp:59-80 | The fixed sub-steps add up to `dt`. |
| Animation.PortionBounds | FluidEngine/Engine/Simulation/PhysicsAnimation.cpp:64-65 | A part of a non-negative time is at most the whole, and positive when the whole is. |
| Animation.PhysicsAnimation.AdvanceAdaptive | FluidEngine/Engine/Simulation/PhysicsAnimation.cpp:84-106 | The calls are the adaptive sub-steps, in order; time advances by their sum. |
| Animation.PhysicsAnimation.AdaptiveSubStep | FluidEngine/Engine/Simulation/PhysicsAnimation.cpp:89-104 | One call with the remaining time over the solver's count for it. |
| Animation.AdaptiveStepsSum | FluidEngine/Engine/Simulation/PhysicsAnimation.cpp:84-106 | The adaptive sub-steps sum to the interval minus the time left, and the time left is in `[0, dt]`. |
| Animation.AdaptiveStepsPositive | FluidEngine/Engine/Simulation/PhysicsAnimation.cpp:84-106 | Every adaptive sub-step is positive. |
| Animation.AdaptiveStepsSettle | FluidEngine/Engine/Simulation/PhysicsAnimation.cpp:87 | Unless the fuel runs out, at most `kEpsilonD` is left. |
| Animation.SingleAdaptiveStep | FluidEngine/Engine/Simulation/PhysicsAnimation.cpp:86-105 | A count of 1 takes the whole interval in one sub-step. |
| Animation.PhysicsAnimation.AdvanceFrames | FluidEngine/Engine/Simulation/PhysicsAnimation.cpp:48-50 | `n` repetitions of one frame's sub-steps. |
| Animation.PhysicsAnimation.OnUpdate | FluidEngine/Engine/Simulation/PhysicsAnimation.cpp:44-53 | A frame at or before the current one changes nothing. A later frame initializes if needed, advances once per frame in between and becomes the current frame. |
| Animation.PhysicsAnimation.AdvanceSingleFrame | FluidEngine/Engine/Simulation/PhysicsAnimation.cpp:26-30 | The update to the next frame: the index grows by one, and the animation is initialised (onInitialize logged if it was not before). One frame's sub-steps are logged, and the time is the old frame's time plus their sum. |
| Animation.AdvancesNeverInitialize | FluidEngine/Engine/Simulation/PhysicsAnimation.cpp:55-107 | Advancing time never calls `onInitialize`. |
| GridFluid.GridFluidSolver.constructor | FluidEngine/Engine/Simulation/GridFluidSolver3.cpp:20-32 | The given grid, solvers and parameters, with an empty log. The boundary solver is the pressure solver's suggested one, with the closed-domain flag, which is stored. There is no collider or emitter, the compressed linear system is off, the time is 0, and the only layer is the face-centred velocity at index 0. |
| GridFluid.GridFluidSolver.SetViscosityCoefficient | FluidEngine/Engine/Simulation/GridFluidSolver3.cpp:42 | The coefficient becomes `max(v, 0)`. |
| GridFluid.GridFluidSolver.SetMaxCfl | FluidEngine/Engine/Simulation/GridFluidSolver3.cpp:64 | The limit becomes `max(c, kEpsilonD)`. |
| GridFluid.GridFluidSolver.SetPressureSolver | FluidEngine/Engine/Simulation/GridFluidSolver3.cpp:80-90 | A new solver brings its suggested boundary solver, which takes the closed-domain flag; no solver keeps the old boundary solver. |
| GridFluid.GridFluidSolver.SetClosedDomainBoundaryFlag | FluidEngine/Engine/Simulation/GridFluidSolver3.cpp:94-98 | The flag is stored and passed on to the boundary solver. |
| GridFluid.GridFluidSolver.Cfl | FluidEngine/Engine/Simulation/GridFluidSolver3.cpp:44-60 | The cell loop computes the CFL number: `maxVel * dt / min(spacing)`. |
| GridFluid.MaxVelocityIsMax | FluidEngine/Engine/Simulation/GridFluidSolver3.cpp:46-54 | `maxVel` is at least 0 and every pushed component, and is 0 or one of them. |
| GridFluid.MaxVelocityNonPositive | FluidEngine/Engine/Simulation/GridFluidSolver3.cpp:51-53 | Components at or below zero never raise `maxVel` above 0. |
| GridFluid.CflNonNegative | FluidEngine/Engine/Simulation/GridFluidSolver3.cpp:44-60 | The CFL number is non-negative for `dt >= 0` and positive spacing. |
| GridFluid.GridFluidSolver.NumberOfSubTimeSteps | FluidEngine/Engine/Simulation/GridFluidSolver3.cpp:169-173 | `max(ceil(cfl / maxCfl), 1)`, at least one. |
| GridFluid.SubTimeStepsBound | FluidEngine/Engine/Simulation/GridFluidSolver3.cpp:169-173 | At least one sub-step. Each sub-step's share of the CFL number is at most `maxCfl`, and one fewer sub-step would not be enough. |
| GridFluid.SubStepCountPositive | FluidEngine/Engine/Simulation/GridFluidSolver3.cpp:169-173 | The solver's count is positive for every interval, as the adaptive stepper needs. |
| GridFluid.GridFluidSolver.OnInitialize | FluidEngine/Engine/Simulation/GridFluidSolver3.cpp:126-137 | The collider and the emitter are updated with a zero interval. |
| GridFluid.GridFluidSolver.UpdateCollider | FluidEngine/Engine/Simulation/GridFluidSolver3.cpp:425-429 | The collider is updated only when there is one. |
| GridFluid.GridFluidSolver.UpdateEmitter | FluidEngine/Engine/Simulation/GridFluidSolver3.cpp:431-435 | The emitter is updated only when there is one. |
| GridFluid.GridFluidSolver.ApplyBoundaryCondition | FluidEngine/Engine/Simulation/GridFluidSolver3.cpp:304-312 | The velocity is constrained to depth `ceil(maxCfl)` when there is a boundary solver; otherwise nothing changes. |
| GridFluid.Depth | FluidEngine/Engine/Simulation/GridFluidSolver3.cpp:309 | The depth is at least 1 and at least `maxCfl`. |
| GridFluid.GridFluidSolver.BeginAdvanceTimeStep | FluidEngine/Engine/Simulation/GridFluidSolver3.cpp:393-417 | Updates the collider, emitter and boundary-solver collider, then applies the boundary and calls the callback. |
| GridFluid.BeginInStageOrder | FluidEngine/Engine/Simulation/GridFluidSolver3.cpp:393-417 | These calls come in stage order. |
| GridFluid.GridFluidSolver.AddToFaces | FluidEngine/Engine/Simulation/GridFluidSolver3.cpp:278-281 | Every face of one axis is moved by `c`; the other axes are unchanged. |
| GridFluid.GridFluidSolver.AddGravityToFaces | FluidEngine/Engine/Simulation/GridFluidSolver3.cpp:276-298 | Each axis with a gravity component above `kEpsilonD` gets `dt * g_axis` on every face. |
| GridFluid.GridFluidSolver.ComputeGravity | FluidEngine/Engine/Simulation/GridFluidSolver3.cpp:267-302 | The gravity faces when `|g|^2 > kEpsilonD`, then the boundary; otherwise nothing. |
| GridFluid.GravityFaceValues | FluidEngine/Engine/Simulation/GridFluidSolver3.cpp:267-302 | Face values after gravity: `+ dt * g_axis` exactly on the acting axes; every other axis is unchanged. |
| GridFluid.GridFluidSolver.ComputeViscosity | FluidEngine/Engine/Simulation/GridFluidSolver3.cpp:184-195 | Diffuses from a copy and then applies the boundary, only with a solver and a coefficient above `kEpsilonD`. |
| GridFluid.ViscositySkip | FluidEngine/Engine/Simulation/GridFluidSolver3.cpp:186 | Viscosity changes nothing unless it runs, and it runs if and only if it calls the diffusion solver. |
| GridFluid.GridFluidSolver.ComputePressure | FluidEngine/Engine/Simulation/GridFluidSolver3.cpp:197-208 | Projects from a copy and then applies the boundary, only with a pressure solver. |
| GridFluid.PressureSkip | FluidEngine/Engine/Simulation/GridFluidSolver3.cpp:199 | The pressure stage runs if and only if there is a pressure solver. |
| GridFluid.GridFluidSolver.AdvectScalarLayers | FluidEngine/Engine/Simulation/GridFluidSolver3.cpp:216-223 | Each scalar layer in turn is advected and extrapolated. |
| GridFluid.GridFluidSolver.AdvectVectorLayers | FluidEngine/Engine/Simulation/GridFluidSolver3.cpp:226-256 | Each vector layer, except the velocity layer and layers of neither grid type, is advected and extrapolated. |
| GridFluid.GridFluidSolver.ComputeAdvection | FluidEngine/Engine/Simulation/GridFluidSolver3.cpp:210-263 | The layers, then the velocity advected by a copy of itself, then the boundary. |
| GridFluid.AdvectionSkip | FluidEngine/Engine/Simulation/GridFluidSolver3.cpp:210-263 | Advection runs if and only if there is an advection solver, and the velocity is advected last, before the boundary. |
| GridFluid.ScalarAdvectedIff | FluidEngine/Engine/Simulation/GridFluidSolver3.cpp:216-223 | Scalar layer `i` is advected and extrapolated if and only if `i < n`. |
| GridFluid.VectorAdvectedIff | FluidEngine/Engine/Simulation/GridFluidSolver3.cpp:226-256 | Vector layer `i` is advected if and only if it exists, is not the velocity layer and is collocated or face-centred. |
| GridFluid.VelocityLayerSkipped | FluidEngine/Engine/Simulation/GridFluidSolver3.cpp:231-232 | The velocity layer is never advected as an ordinary vector layer. |
| GridFluid.GridFluidSolver.OnAdvanceTimeStep | FluidEngine/Engine/Simulation/GridFluidSolver3.cpp:139-167 | Nothing happens on an empty grid. Otherwise: begin, gravity, viscosity, pressure, advection, end, with the velocity StepVelocity. |
| GridFluid.EmptyGridSkipsStep | FluidEngine/Engine/Simulation/GridFluidSolver3.cpp:142-146 | A step on a grid with a zero axis changes nothing. |
| GridFluid.StepInStageOrder | FluidEngine/Engine/Simulation/GridFluidSolver3.cpp:148-166 | On a non-empty grid, the calls come in stage order. |
| GridFluid.MinSpacing | FluidEngine/Engine/Simulation/GridFluidSolver3.cpp:57 | `min3` is at most every spacing component and equals one of them. |
| GridFluid.Ceil | FluidEngine/Engine/Simulation/GridFluidSolver3.cpp:172 | The least integer not below `x`. |
| GridFluid.Shifted | FluidEngine/Engine/Simulation/GridFluidSolver3.cpp:280 | Every face value is moved by `c`, and the length is kept. |

## Left out

- Parallelism: `parallelFor`, `parallelSort` and `parallelReduce` are sequential loops here, with the same results.
- The hash grid's Builder (`withResolution`, `withGridSpacing`, `build`, `makeShared`, `buildPointNeighborSearcher`) is not modelled. It only forwards its fields to the constructor.
- The hash grid's `clone` and `operator=` are not modelled separately; they are `Set`. The copy constructor, the `Size3` constructor overload and the getters are left out.
- The bucket statistics printed to `std::cout` in `build` (lines 92-109) are output only, and are left out.
- HashGrid.PointParallelHashGridSearcher3.Build: requires a non-zero grid spacing (the source divides by it), and fewer than `kMaxSize` points, so that the sentinel cannot be a real position.
- HashGrid.PointParallelHashGridSearcher3.NearbyMatchesWithinRadius: the query reports exactly the stored points within the radius only when the radius is at most half the grid spacing. The source does not check this. With a larger radius it can miss points two buckets away, as LargeRadiusMissesPoint shows. With a resolution of 1 on an axis, two candidate buckets can share a key, so a point is reported twice (RepeatedKeyAtResolutionOne). Membership is exact in every case (NearbyMatchesExactly), but the model does not state that each point is reported once.
- The parallel sort's order among equal keys is unspecified. The model's insertion sort is one such order, and the searcher's contracts only use "sorted by key and a permutation".
- MatrixCsr: `set(s)` filling with a value (589), `reserve`, `isSimilar`, `isSquare`, the accessors and the iterators are left out.
- MatrixCsr: `sum`, `avg`, `absmin`, `absmax`, `trace` and `castTo` are left out. `avg` divides by the number of stored values, which is zero for an empty matrix; that case would need floating-point NaN, which reals do not model.
- MatrixCsr: `MatrixCsrMatrixMul`, `imul(expression)` and the move constructor/assignment are left out, as are the `Element` struct, the `radd`/`rmul` aliases and the free operators.
- Csr.MatrixCsr.HasElement: `binaryFind` is not part of this model, so `hasElement` is the first stored match in the row. After `addElement`, a column can be stored twice, and the source's binary search may then return either one.
- Csr.SortEntries: `std::sort` is not stable. The model is a stable insertion sort, one of the orders the source may produce; rows with repeated columns may come out in another order in the source.
- Array3: the accessors, `forEach` and `parallelForEachIndex` are left out. The copy and move constructors are modelled as `Copy` and `MoveFrom`.
- ArraySamplers: the `trilerp` and `monotonicCatmullRom` interpolation of the sampled values is left out, and so are the `functor()` wrappers and the copy constructors. The model covers the indices and weights they are applied to. `getBarycentric` is not part of this model: it is a parameter that returns an index in range and a fraction in [0, 1].
- BlockedBoundary: the parent class's fractional pass (line 21) is not part of this model; ConstrainVelocity models the blocked pass that follows it. `isInsideSdf` is the parameter `inside`.
- GridFluid: `setGravity`, `setUseCompressedLinearSystem`, `setAdvectionSolver`, `setDiffusionSolver`, `setCollider`, `setEmitter` and the getters are not modelled. They are plain field assignments and reads.
- GridFluid: `resizeGrid`, the Builder and `fluidSdf` are left out. The grid's resolution, spacing and cell-centre sampling are constructor parameters.
- GridFluid: `extrapolateIntoCollider`, the advection, diffusion and pressure solvers, `colliderSdf` and `colliderVelocityField` are not modelled. Their calls are events, and their results are function parameters.
- GridFluid: the `Timer` and the `std::cout` reports are output only and are left out. The header's default values are constructor parameters.
- GridFluid.GridFluidSolver.NumberOfSubTimeSteps: the cast of the count to `unsigned int` is not modelled; the count is an unbounded `nat`.
- GridFluid: the velocity grid is three sequences of face values. Face positions enter only through the cell-centre sampling parameter.
- Animation.PhysicsAnimation.OnUpdate: the frame count `frame.index - currentFrame.index` is an `int32` in the source; its overflow is not modelled.
- GridFluid.SubStepCount and Animation.PhysicsAnimation.SubStepCount: the fluid solver and the animation are separate here. In the source, `GridFluidSolver3::numberOfSubTimeSteps` (GridFluidSolver3.cpp:169-173) is called on each pass of the adaptive loop (PhysicsAnimation.cpp:89). It reads the CFL number of the velocity that the previous `onAdvanceTimeStep` has just changed. The model gives the adaptive loop one fixed `real -> nat` count for the whole `advanceTimeStep`, and GridFluid.SubStepCount is that count for a fixed cell velocity. GridFluid keeps its own `currentTime`. The constructor's `setIsUsingFixedSubTimeSteps(false)` (GridFluidSolver3.cpp:31) is not modelled. The adaptive lemmas (AdaptiveStepsSum, AdaptiveStepsPositive) hold for every count function whose values are at least 1, and a run only ever reads the count at a strictly decreasing sequence of remaining times. So a count that changes between passes is still covered, but the model does not link it to the velocity.
- Animation.PhysicsAnimation.AdvanceAdaptive: the adaptive loop runs at most `adaptiveFuel` sub-steps. The source's loop has no bound, so the fuel bound is an assumption about its termination.
- Animation.PhysicsAnimation.AdvanceTimeStep: in adaptive mode it requires the solver's count to be positive. A zero count divides by zero in the source.
- Animation.PhysicsAnimation.AdvanceFrames: requires `n > 0`, as in its only caller.
- Animation: the setters and getters are left out, and `Frame::timeInSeconds` is the parameter `timeOf`. The fixed mode with 0 sub-steps makes no calls, which matches the source's loop.
- RenderParameters: the typed `add` and `set` overloads (lines 36-104) only reinterpret their values as 32-bit words, so they are left out; the model takes the words. The `buffer()` getter (117) is left out.
- Doubles are exact reals: rounding, NaN and infinity are not modelled.

## Findings

| source | as written | input that shows it | evidently intended | confidence | as-written member | corrected member |
|---|---|---|---|---|---|---|
| FluidEngine/Engine/Math/MatrixCsr.h:1168-1169 | The merge in `binaryOp` tests `colIterB == colEndB \|\| *colIterA < *colIterB`. It dereferences A's column iterator even when A's row is exhausted, so it reads the first column of A's next row. | A = [[0, 0], [5, 0]], B = [[0, 7], [0, 0]]. In row 0, A's iterator already points at row 1's column 0, and 0 < 1, so A's next-row entry is taken. | Take A's entry only while A's row has entries left. | not executed | Csr.MergeStepAsWritten, Csr.MergeStepReadsPastRow | Csr.MergeStep, Csr.MergeRow |
| FluidEngine/Engine/Math/MatrixCsr.h:1153-1197 | `binaryOp` builds its result by `addRow` from a cleared matrix, so `cols` ends up as the largest stored column + 1. | Two 2 x 2 matrices with no stored entries: their sum has size 2 x 0. | The result has the operands' size. | not executed | Csr.MatrixCsr.BinaryOpAsWritten | Csr.MatrixCsr.BinaryOp |
| FluidEngine/Engine/Math/MatrixCsr.h:645-650 | `compress(expression, eps)` clears the values and columns but not the row pointers, then pushes new pointers after the old ones. | A default matrix (row pointers [0]) compressed from the 1 x 1 expression [[1]] gives row pointers [0, 0, 1]. | Row pointers [0, 1], as `compress(list, eps)` gives. | not executed | Csr.CompressExpressionAsWritten | Csr.CompressArrays, Csr.MatrixCsr.Compress |
| FluidEngine/Engine/Math/MatrixCsr.h:1007 | `max()` starts its reduction from `numeric_limits<double>::min()`, the smallest positive double. | A 1 x 1 matrix storing -1: `max()` returns 2^-1022. | Start from `numeric_limits<double>::lowest()`, so the result is the largest stored value. | not executed | Csr.MaxSeedAsWritten, Csr.MatrixCsr.MaxStoredAsWritten | Csr.MaxFromLowest, Csr.MatrixCsr.MaxStored |
| FluidEngine/Engine/Visualizer/RenderParameters.cpp:15-34 | `getNumberOfElements` has no `UInt` case, so a `UInt` parameter counts 0 words (release build). | `add("a", UInt)` then `add("b", Int)`: both get offset 0, and writing `b` overwrites `a`. | `UInt` counts one 32-bit word, like `Int`. | not executed | RenderParams.NumberOfElementsAsWritten, RenderParams.UIntParameterAliasesNextAsWritten | RenderParams.NumberOfElements, RenderParams.UIntParameterHasOwnSlot |
| FluidEngine/Engine/Math/Array3.h:420-422 | `set(list)` reads the first page of the list before checking that one exists. | `set({})`, an empty initializer list: the first page of an empty list is dereferenced. | An empty list gives a 0 x 0 x 0 array. | not executed | Array3D.ListShapeAsWritten, Array3D.ListShapeAgreesAsWritten | Array3D.ListShape, Array3D.Array3.SetFromList |
