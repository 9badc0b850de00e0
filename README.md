# Finite-element types and multilevel mesh bookkeeping

This project models the reference finite-element layer of a multigrid finite-element
library, together with the level bookkeeping of its multilevel mesh.

- **Element setup** (`ElemConfig`). An element type is chosen by a geometry name
  (`line`, `quad`, `tri`, `hex`, `wedge`, `tet`) and an order name (`linear`,
  `quadratic`, `biquadratic`, `constant`, `disc_linear`). Invalid names end the
  program with `exit(0)` in 1D and 3D and with `abort()` in 2D.
- **Basis and quadrature data** (`RefBasis`). The reference basis and the Gauss rule
  are external objects. They are modelled as data: evaluators that are function-typed
  fields, plus the flat weight/coordinate table of the Gauss rule.
- **Coarse-to-fine interpolation table** (`Prolongation`). Each element type owns a
  table in compressed-row storage: row pointers, a column buffer and a value buffer.
  Entry (i, j) is the coarse basis function j evaluated at fine node i, or the
  piecewise-linear derivative entry for `disc_linear` elements. An entry is kept only
  when `|value| >= 1e-14`.
- **Transfer operators** (`Transfer`). These are the multigrid operators built from
  that table:
  - the sparsity-count passes, which write the `NNZ_d`/`NNZ_o` vectors;
  - the prolongation and restriction-transpose rows, which are inserted into a sparse
    matrix;
  - the printing prolongation.
  Vectors are modelled as the sequence of `set` calls. Matrices are modelled as the
  sequence of `insert_row` calls. Dof numbering and process ownership are parameters.
- **Jacobian algebra** (`Jacobian`). These are the closed-form 2x2 and 3x3 inverses and
  the chain rule, which turn reference derivatives into physical gradients and Hessians.
- **The element class** (`ElemTypes.ElemType`). It holds the arrays the constructors
  fill in place: the interpolation buffers, the shape tables at the Gauss points and
  the renumbered export tables. Its methods are the Jacobians, the accessors and the
  transfer-operator builders.
- **The multilevel mesh** (`MultiLevel`). It holds the 6 x 5 table of element types
  (one row per geometry, one column per order) and the per-geometry flags. It also
  holds the list of all levels (`_level0`) and the active view (`_level`), and the
  operations that build, refine, extend and trim them.

The loops of the source are kept as loops: `while`/`for` methods with invariants, each
proved against a specification function. The arrays it fills in place are arrays, and
the objects it mutates are classes. Reals stand for the source's doubles.

## Model

| member | source | states |
|---|---|---|
| ElemConfig.ParseOrder | src/fe/ElemType.cpp:471-480 | The order name is recognised exactly when it is one of the five names, and its solution type is its position: linear 0, quadratic 1, biquadratic 2, constant 3, disc_linear 4. |
| ElemConfig.ParseOrderRoundTrip | src/fe/ElemType.cpp:471-480 | Every order name is accepted and maps back to its own solution type. |
| ElemConfig.Setup1D | src/fe/ElemType.cpp:471-498 | Setup succeeds iff the order is valid and the geometry is `line`. An invalid order is reported first, then an invalid geometry. Both failures end in `exit(0)`. |
| ElemConfig.Setup2D | src/fe/ElemType.cpp:714-754 | Setup succeeds iff the order is valid and the geometry is `quad` or `tri`. Both failures end in `abort()`. |
| ElemConfig.Setup3D | src/fe/ElemType.cpp:1025-1078 | Setup succeeds iff the order is valid and the geometry is `hex`, `wedge` or `tet`. Both failures end in `exit(0)`. |
| ElemConfig.SetupMeaning | src/fe/ElemType.cpp:725-754 | For every dimension, setup succeeds iff the order is valid and the geometry belongs to that dimension. The result then carries the dimension, the solution type of the order, that geometry, its linear companion basis and the family chosen by the solution type. |
| ElemConfig.LineQuadraticIsBiquadratic | src/fe/ElemType.cpp:482-487 | On the line, `quadratic` and `biquadratic` select the same biquadratic basis. |
| ElemConfig.FamilyDeterminesSolType | src/fe/ElemType.cpp:1035-1072 | In 2D and 3D, two orders that give the same basis are the same order. |
| ElemConfig.GeometryAt | src/mesh/MultiLevelMesh.cpp:67-109 | Row i of the element table (hex, tet, wedge, quad, tri, line) is the geometry whose table index is i. |
| RefBasis.GaussTableLayout | src/fe/ElemType.cpp:632-641 | The n weights fill the first n slots of the Gauss table. Coordinate c of point ig sits at slot `(c + 1) * n + ig`, after the weights and inside the table. Distinct (axis, point) pairs use distinct slots, so weights and coordinates never overlap. |
| Prolongation.RowLength | src/fe/ElemType.cpp:598-611 | The column and value entries of a row are stored together, at most one per coarse dof. |
| Prolongation.RowShape | src/fe/ElemType.cpp:598-611 | The columns of a row are strictly increasing coarse dofs below n. Each stored value is the coefficient of its column and passes the `>= 1e-14` test. Column j is stored iff its coefficient passes that test. |
| Prolongation.RowApplication | src/fe/ElemType.cpp:598-611 | Applying a stored row to a coarse vector gives the interpolation sum with the sub-threshold coefficients dropped. |
| Prolongation.DerivativeRowOmitsColumnZero | src/fe/ElemType.cpp:578-605 | In a `disc_linear` derivative row the value of column 0 comes from `jac[0]`, which is never written, so column 0 is never stored. |
| Prolongation.TableLength | src/fe/ElemType.cpp:536-572 | The counting pass's total is the sum of the row sizes, and the column and value buffers have equal length. |
| Prolongation.TablePrefix | src/fe/ElemType.cpp:574-617 | Row pointers never decrease, and the buffers after m rows are a prefix of the buffers after any later row. |
| Prolongation.TableGrows | src/fe/ElemType.cpp:574-617 | The column buffer never shrinks as rows are added, so every row fits in the buffer allocated for the whole table. |
| Prolongation.TableRow | src/fe/ElemType.cpp:574-617 | Row i of the finished buffers lies between pointers i and i+1 and is exactly that row's columns and values. |
| Transfer.FirstAbove | src/fe/ElemType.cpp:173-175 | The owning process is the first one whose end offset exceeds the row. Every earlier process ends at or before the row. |
| Transfer.OwningProcess | src/fe/ElemType.cpp:173-175 | The `iproc++` search loop stops at that first process. |
| Transfer.OwnerRange | src/fe/ElemType.cpp:173-184 | The owner's local column range is computed from the offset table, or from the dof offsets of the owner found by bisection. |
| Transfer.CountsSplit | src/fe/ElemType.cpp:177-188 | For every row, `NNZ_d` (`ncols - counter_o`) plus `NNZ_o` (`counter_o`) equals `ncols`. A row with no outside column has `NNZ_o` 0, and one with only outside columns has `NNZ_d` 0. |
| Transfer.CountOutside | src/fe/ElemType.cpp:178-185 | The `counter_o` loop counts exactly the mapped columns outside the owner's range. |
| Transfer.MapRow | src/fe/ElemType.cpp:226-230 | The column-mapping loop produces `cols[k] = dof(row[k])` for every k. |
| Transfer.SplitExactlyOne | src/fe/ElemType.cpp:199-206 | On an unrefined element each `set(irow, 1)` goes to exactly one of `NNZ_o` and `NNZ_d`. Their union, as a multiset, is the full list of calls. |
| Transfer.SplitCount | src/fe/ElemType.cpp:191-207 | The two vectors together receive one call per coarse dof. |
| Transfer.CoarseSplitStep | src/fe/ElemType.cpp:195-206 | One more coarse dof appends its `set(irow, 1)` to exactly the vector its column selects: `NNZ_o` when the column lies outside the owner's range, `NNZ_d` otherwise. |
| Transfer.IdentityRowsCopy | src/fe/ElemType.cpp:235-244 | An unrefined element inserts, for each coarse dof i, the row of fine dof i with the single column of coarse dof i and value 1. Applied to a coarse vector, that row gives exactly the coarse value. |
| Transfer.RestrictionVsProlongation | src/fe/ElemType.cpp:280-303 | Restriction row i and prolongation row i have the same fine row and the same length. An entry whose coarse mark agrees with the fine node's solid flag has the prolongation's column and value. Any other entry moves to the paired solution's dof. It keeps the prolongation's value, except that it becomes 0 when the pair is the solution itself. |
| Transfer.UnmarkedRestriction | src/fe/ElemType.cpp:255-303 | With no solid marks, the fine mark is not solid, every column keeps the primary dof and every value is kept. |
| Transfer.UnmarkedFineMark | src/fe/ElemType.cpp:255-271 | With no coarse solid marks, the projected fine mark is 0. |
| Transfer.PrintRowShape | src/fe/ElemType.cpp:418-425 | A printing row stores at most n entries, columns and values pair up, and every stored value passes the strict `> 1e-14` test. |
| Transfer.StoredCountExact | src/fe/ElemType.cpp:449 | `floor(NNZ_d + NNZ_o + 0.5)` reads whole counts back exactly. |
| Transfer.PrintAllInserted | src/fe/ElemType.cpp:449-452 | When the NNZ vectors hold each row's own counts, every printing row passes the stored-count test and is inserted with its columns and values. |
| Transfer.RefinedSets | src/fe/ElemType.cpp:167-189 | A refined element makes one `NNZ_d` and one `NNZ_o` call per fine node. |
| Transfer.ProlRows | src/fe/ElemType.cpp:215-233 | A refined element inserts one prolongation row per fine node. |
| Transfer.ProlRowsMeaning | src/fe/ElemType.cpp:215-233 | Row i is inserted at the fine node's global row. Its columns are the coarse dofs of the stored table columns, and its values are the coefficients passing the threshold. Column j is present iff its coefficient passes. Applied to a coarse vector, the row gives the truncated interpolation sum. |
| Transfer.SparsityMatchesProlongation | src/fe/ElemType.cpp:167-233 | The counts set for each fine row are at that row. They add up to the number of columns the prolongation inserts there. `NNZ_o` is the number of those columns outside the owner's range. |
| Transfer.CoarseSparsityMatchesIdentity | src/fe/ElemType.cpp:191-244 | On an unrefined element the count calls split into the two vectors as a multiset. Each call is at the row the identity prolongation inserts, with that row's column count, 1. |
| Transfer.RestrictionRows | src/fe/ElemType.cpp:280-307 | A refined element inserts one restriction row per fine node. |
| Transfer.UnmarkedRestrictionIsProlongation | src/fe/ElemType.cpp:248-307 | For a solution whose type is not 2 (no solid marking), the restriction transpose inserts exactly the prolongation's rows. |
| Transfer.PrintSets | src/fe/ElemType.cpp:410-428 | The printing count pass makes one `NNZ_d` and one `NNZ_o` call per Lagrange node of the type. |
| Transfer.PrintPipeline | src/fe/ElemType.cpp:410-454 | When the NNZ vectors hold the values the printing count pass set, the printing prolongation inserts every one of the rows, each with its own columns. |
| Transfer.ProjectMark | src/fe/ElemType.cpp:264-271 | The mark-projection loop computes the table row applied to the 0/1 coarse marks. |
| Transfer.RouteRow | src/fe/ElemType.cpp:290-304 | The restriction's inner loop produces the routed columns and values. |
| Transfer.PrintPrefixStep | src/fe/ElemType.cpp:440-447 | Scanning one more candidate appends its column and value exactly when the value passes the strict test. |
| Transfer.PrintRowLoop | src/fe/ElemType.cpp:435-448 | The printing loop collects, in order, the candidates passing the strict test: a single weight-1 entry for an identity map, otherwise the coarse basis at the Lagrange node. |
| Transfer.PrintCountLoop | src/fe/ElemType.cpp:412-427 | The printing count loop's `counter` is the printing row's length and its `counter_o` is the number of that row's columns outside the owner's range. |
| Transfer.PrintPattern | src/fe/ElemType.cpp:410-428 | The printing count loop makes, node by node, exactly the `NNZ_d` and `NNZ_o` calls of the printing specification. |
| Transfer.PrintPatternRow | src/fe/ElemType.cpp:412-427 | For one Lagrange node, `NNZ_d` receives the in-range column count and `NNZ_o` the out-of-range count of its printing row, at the node's row. |
| Transfer.PrintInsertion | src/fe/ElemType.cpp:431-454 | The printing builder inserts, in order, exactly the rows whose length matches the count read back from the NNZ vectors. |
| ElemTypes.HexRenumberingInverse | src/fe/ElemType.cpp:95-98 | The two HEX27 renumbering tables are permutations of 0..26 and undo each other. |
| ElemTypes.ExportIndex | src/fe/ElemType.cpp:100-140 | Export slot k of a HEX27 element reads the dof that the inverse table sends to k. Every other element reads dof k itself. |
| ElemTypes.FlatSplit | src/fe/ElemType.cpp:113 | The flat slot `idof + idim * nc` decodes back to the axis (`/ nc`) and the dof (`% nc`). |
| ElemTypes.FlatInjective | src/fe/ElemType.cpp:113 | Distinct (dof, axis) pairs occupy distinct flat slots. |
| ElemTypes.FlatOnto | src/fe/ElemType.cpp:113 | Every slot below `nc * dim` is the flat slot of some (dof, axis) pair. |
| ElemTypes.Unflat | src/fe/ElemType.hpp:114-117 | Slot `dof` below `nc * dim` splits into export slot `dof % nc` and axis `dof / nc`, and that pair's flat slot is `dof` again. |
| ElemTypes.DerivativeVector | src/fe/ElemType.cpp:578-594 | `jac` is the Jacobian of the piecewise-linear map on derivative rows of `disc_linear` elements, and zero otherwise. |
| ElemTypes.AddVertex | src/fe/ElemType.cpp:1145-1160 | One coarse vertex adds its term to every coordinate entry `jac[c+1]`, extending each partial sum by one vertex, and `jac[0]` stays 0. |
| ElemTypes.EntryValue | src/fe/ElemType.cpp:598-605 | The candidate value is the basis value at the fine node, replaced by `jac[j]` on a derivative row. |
| ElemTypes.CountTableEntries | src/fe/ElemType.cpp:536-572 | The counting pass returns the number of entries of the finished table. |
| ElemTypes.NewTable | src/fe/ElemType.cpp:536-617 | The two passes yield fresh row-pointer, column and value buffers that hold exactly the interpolation table. |
| ElemTypes.FillTable | src/fe/ElemType.cpp:574-617 | The filling pass writes the column and value buffers of the table, and every row pointer is the length of the rows before it. |
| ElemTypes.FillTableRow | src/fe/ElemType.cpp:596-611 | One row of the filling pass records the row's start, appends exactly that row's columns and values, and leaves every other row pointer unchanged. |
| ElemTypes.FillRow | src/fe/ElemType.cpp:597-611 | One row's scan appends exactly that row's columns and values after the pointer. |
| ElemTypes.StoreEntry | src/fe/ElemType.cpp:606-609 | A value is appended with its column exactly when it passes the threshold. |
| ElemTypes.RowStep | src/fe/ElemType.cpp:598-611 | Scanning one more coarse dof extends the row by that dof exactly when its coefficient passes the threshold. |
| ElemTypes.FillShapeTables | src/fe/ElemType.cpp:619-648 | Every shape table holds the basis value, first and second reference derivatives at every Gauss point. |
| ElemTypes.NewShapeTables | src/fe/ElemType.cpp:619-648 | The shape tables are allocated fresh and hold the basis values and derivatives at every Gauss point. |
| ElemTypes.FillShapeRow | src/fe/ElemType.cpp:634-647 | Gauss row i of every shape table is tabulated at Gauss point i, and every other row is unchanged. |
| ElemTypes.TabulateCell | src/fe/ElemType.cpp:1296-1310 | One cell of every per-axis table is written and every other entry is unchanged. |
| ElemTypes.PhysicalDerivatives1 | src/fe/ElemType.cpp:1448-1457 | With the 1D node loop's outputs, the Jacobian times the gradient gives the reference derivative back, and `J * hessian * J` gives the second reference derivative back. |
| ElemTypes.PhysicalDerivatives2 | src/fe/ElemType.cpp:1549-1567 | With the 2D node loop's outputs, J times the physical gradient is the reference gradient and `J * H * J^T` is the reference Hessian. |
| ElemTypes.PhysicalDerivatives3 | src/fe/ElemType.cpp:1664-1711 | With the 3D node loop's outputs, J times the physical gradient is the reference gradient and `J * H * J^T` is the reference Hessian. |
| ElemTypes.ReferenceJacobian1 | src/fe/ElemType.cpp:1440-1444 | The accumulation loop computes the sum over nodes of `dxi * x`. |
| ElemTypes.ReferenceJacobian2 | src/fe/ElemType.cpp:1526-1531 | The accumulation loop computes the 2x2 reference Jacobian. |
| ElemTypes.ReferenceJacobian3 | src/fe/ElemType.cpp:1638-1648 | The accumulation loop computes the 3x3 reference Jacobian. |
| ElemTypes.AddNode3 | src/fe/ElemType.cpp:1638-1648 | One node adds its derivative times its coordinates to a row of the 3D Jacobian, extending that row's node sums by one node. |
| ElemTypes.ReadRow | src/fe/ElemType.cpp:177-182 | Reading row i between its pointers gives that row's columns and values. |
| ElemTypes.RefinedPattern | src/fe/ElemType.cpp:167-189 | The refined count loop makes exactly the `NNZ_d` and `NNZ_o` calls of the specification. |
| ElemTypes.RowPattern | src/fe/ElemType.cpp:168-188 | The two count calls for one fine row. |
| ElemTypes.CoarsePattern | src/fe/ElemType.cpp:191-207 | The unrefined count loop makes the calls of the split specification. |
| ElemTypes.RefinedProlongation | src/fe/ElemType.cpp:215-233 | The refined prolongation loop inserts the specified rows. |
| ElemTypes.IdentityInsertion | src/fe/ElemType.cpp:235-244 | The unrefined loop inserts the identity rows. |
| ElemTypes.FineSolidMarks | src/fe/ElemType.cpp:255-272 | Each fine mark is the table row applied to the coarse marks, which are read only for a solution of type 2 and are 0 otherwise. |
| ElemTypes.RefinedRestriction | src/fe/ElemType.cpp:280-307 | The refined restriction loop inserts the specified restriction rows. |
| ElemTypes.RestrictionRowAt | src/fe/ElemType.cpp:280-306 | One restriction row: the fine node's row, with `isolidmark` taken from the projected mark, and the routed columns and values. |
| ElemTypes.ElemType.constructor | src/fe/ElemType.cpp:461-699 | The caller gives a dimension, geometry and order that the dispatch accepts, and a basis that fits the chosen variant. The solution type is then the order's index. Construction builds the interpolation table and the Gauss tables and allocates the export tables. The HEX27 renumbering is chosen exactly for a 3D biquadratic hex. |
| ElemTypes.ChosenBasisFits | src/fe/ElemType.cpp:473-500 | The order fixes the solution type. A basis that fits the variant chosen for the order and geometry gives a well-formed interpolation table. The triquadratic hex variant has 27 dofs. |
| ElemTypes.ElemType.EvaluateShapeAtQP | src/fe/ElemType.cpp:74-155 | Allocates the export tables and fills them, renumbered exactly for a 3D biquadratic hex. |
| ElemTypes.ElemType.PhiMap | src/fe/ElemType.cpp:100-140 | The export value table holds, at slot k, the value of dof `ExportIndex(k)` at each Gauss point. |
| ElemTypes.ElemType.CopyPhiRow | src/fe/ElemType.cpp:103-108 | One Gauss row of the value table is written and the others are unchanged. |
| ElemTypes.CopyExportRow | src/fe/ElemType.cpp:103-108 | Export slot k of one Gauss row takes the value of dof `ExportIndex(k)`, and every other Gauss row is unchanged. |
| ElemTypes.ElemType.DerivativeMap | src/fe/ElemType.cpp:100-140 | The export derivative table holds, at slot `k + a * nc`, derivative a of dof `ExportIndex(k)`. |
| ElemTypes.ElemType.CopyDerivativeRow | src/fe/ElemType.cpp:103-116 | One Gauss row of the derivative table is written and the others are unchanged. |
| ElemTypes.ElemType.CopyDerivatives | src/fe/ElemType.cpp:110-114 | Every axis slot of one dof is written, and every other entry is unchanged. |
| ElemTypes.ElemType.TablesAtPoint | src/fe/ElemType.cpp:632-648 | Row ig of the shape tables holds the basis data at Gauss point ig. |
| ElemTypes.ElemType.Jacobian1D | src/fe/ElemType.cpp:1431-1460 | The weight is the Jacobian times the Gauss weight. The shape values are copied. The physical gradient and Hessian transform back to the reference ones. |
| ElemTypes.ElemType.Jacobian2D | src/fe/ElemType.cpp:1514-1567 | The weight is the determinant times the Gauss weight, and the physical gradient and Hessian transform back to the reference ones. |
| ElemTypes.ElemType.Jacobian3D | src/fe/ElemType.cpp:1623-1711 | The weight is the determinant times the Gauss weight, and the physical gradient and Hessian transform back to the reference ones. |
| ElemTypes.ElemType.GetPhi | src/fe/ElemType.hpp:109-112 | The export shape value of dof slot `dof` at Gauss point `qp`. |
| ElemTypes.ElemType.GetDPhiDxez | src/fe/ElemType.hpp:114-117 | The export derivative along axis `dof / nc` of export slot `dof % nc`. |
| ElemTypes.ElemType.GetDPhiDXi | src/fe/ElemType.hpp:233-234 | The xi derivatives of every dof at Gauss point ig. |
| ElemTypes.ElemType.GetDPhiDEta | src/fe/ElemType.hpp:86-90 | The eta derivatives in 2D and 3D. It aborts exactly in 1D. |
| ElemTypes.ElemType.GetDPhiDZeta | src/fe/ElemType.hpp:92-96 | The zeta derivatives in 3D. It aborts exactly in 1D and 2D. |
| ElemTypes.ElemType.JacobianSur | src/fe/ElemType.hpp:375-385 | The surface Jacobian aborts exactly for 3D elements. |
| ElemTypes.ElemType.GetNDofs | src/fe/ElemType.hpp:134-137 | The number of coarse dofs of the basis, which is positive. |
| ElemTypes.ElemType.GetDim | src/fe/ElemType.hpp:139-141 | The dimension of the element, between 1 and 3. |
| ElemTypes.ElemType.GetSparsityPatternSize | src/fe/ElemType.cpp:164-209 | A refined element makes the per-fine-row count calls. An unrefined element makes one call per coarse dof, split by ownership. |
| ElemTypes.ElemType.BuildProlongation | src/fe/ElemType.cpp:212-245 | A refined element inserts the table's rows, mapped to the global numbering. An unrefined element inserts the identity rows. |
| ElemTypes.ElemType.BuildRestrictionTranspose | src/fe/ElemType.cpp:248-319 | A refined element inserts the routed rows, with marks only for a solution of type 2. An unrefined element inserts the identity rows. |
| ElemTypes.ElemType.GetPrintSparsityPatternSize | src/fe/ElemType.cpp:410-429 | The printing count pass makes the specified calls for each Lagrange node. |
| ElemTypes.ElemType.BuildPrintProlongation | src/fe/ElemType.cpp:431-454 | The printing prolongation inserts exactly the rows whose stored count matches. |
| Jacobian.RoundTrip1 | src/fe/ElemType.cpp:1446-1457 | With `JacI = 1 / Jac`, the Jacobian maps the 1D gradient and Hessian back to the reference derivatives. |
| Jacobian.Inverse2IsInverse | src/fe/ElemType.cpp:1533-1538 | The closed-form 2x2 inverse is a two-sided inverse whenever the determinant is non-zero. |
| Jacobian.ChainRule2 | src/fe/ElemType.cpp:1549-1556 | J applied to the physical gradient gives the reference gradient. |
| Jacobian.HessianRoundTrip2 | src/fe/ElemType.cpp:1556-1567 | `J * (JacI * H * JacI^T) * J^T == H`. |
| Jacobian.Congruence2Symmetric | src/fe/ElemType.cpp:1556-1567 | The physical Hessian is symmetric, so three stored entries describe it. |
| Jacobian.SourceGradient2 | src/fe/ElemType.cpp:1549-1556 | The written gradient entries are `JacI` times the reference gradient. |
| Jacobian.SourceHessian2 | src/fe/ElemType.cpp:1556-1567 | The written Hessian entries are those of `JacI * H * JacI^T`. |
| Jacobian.AdjugateRight3 | src/fe/ElemType.cpp:1650-1662 | J times the written adjugate is det(J) times the identity. |
| Jacobian.AdjugateLeft3 | src/fe/ElemType.cpp:1650-1662 | The written adjugate times J is det(J) times the identity. |
| Jacobian.Inverse3IsInverse | src/fe/ElemType.cpp:1650-1662 | The adjugate divided by the determinant is a two-sided inverse whenever the determinant is non-zero. |
| Jacobian.ChainRule3 | src/fe/ElemType.cpp:1664-1711 | J applied to the physical gradient gives the reference gradient. |
| Jacobian.HessianRoundTrip3 | src/fe/ElemType.cpp:1664-1711 | `J * (JacI * H * JacI^T) * J^T == H`. |
| Jacobian.Congruence3Symmetric | src/fe/ElemType.cpp:1664-1711 | The physical Hessian is symmetric, so six stored entries describe it. |
| Jacobian.SourceGradient3 | src/fe/ElemType.cpp:1664-1711 | The written gradient entries are `JacI` times the reference gradient. |
| Jacobian.SourceHessianEntry3Matches | src/fe/ElemType.cpp:1664-1711 | Each written Hessian entry is the matching entry of `JacI * H * JacI^T`. |
| Jacobian.SourceHessian3 | src/fe/ElemType.cpp:1664-1711 | The written Hessian is `JacI * H * JacI^T`. |
| MultiLevel.Resize | src/mesh/MultiLevelMesh.cpp:181 | Resizing a vector keeps the first n entries and pads the rest with the fill value. |
| MultiLevel.TableEntry | src/mesh/MultiLevelMesh.cpp:67-109 | Slot (g, j) holds the element type of row g's geometry, with the dimension of that geometry, solution type j and the given Gauss order. |
| MultiLevel.Globals.constructor | src/fe/ElemType.cpp:35 | At start no user refinement function is registered, and the element refinement index is 1. |
| MultiLevel.MultiLevelMesh.constructor | src/mesh/MultiLevelMesh.cpp:54-65 | A default mesh has no level, six lowered flags and an empty element table. |
| MultiLevel.MultiLevelMesh.FillGeometryRow | src/mesh/MultiLevelMesh.cpp:67-75 | The five element types of one geometry row are built, and the other rows are unchanged. |
| MultiLevel.StoreGeometryRow | src/mesh/MultiLevelMesh.cpp:69-75 | The five slots of row g hold the element types of row g's geometry in order-column order, and the other rows are unchanged. |
| MultiLevel.MultiLevelMesh.BuildElemType | src/mesh/MultiLevelMesh.cpp:66-111 | Raises the line flag and builds every flagged row, leaving the rest of the table unchanged. The coarse mesh receives the table. |
| MultiLevel.MultiLevelMesh.ReadCoarseMesh | src/mesh/MultiLevelMesh.cpp:176-220 | Leaves one coarse level, active and total. The flags raised are the line, earlier flags and the geometries found in the mesh, and exactly the flagged rows are built. |
| MultiLevel.MultiLevelMesh.Create | src/mesh/MultiLevelMesh.cpp:115-174 | Builds igridn levels: igridr-1 totally refined, the rest partially refined. Exits iff partial levels are asked for without a refinement function. |
| MultiLevel.MultiLevelMesh.RefineMesh | src/mesh/MultiLevelMesh.cpp:223-276 | Builds levels 1..igridn-1 on the coarse mesh and publishes its refinement index. The active view is all the levels. It exits with 1 iff partial refinement lacks a function. |
| MultiLevel.RefinedLevels | src/mesh/MultiLevelMesh.cpp:232-265 | The refinement loops create fresh, distinct levels numbered 1..igridn-1 with the right refinement kind, or stop with `exit(1)`. |
| MultiLevel.CopyLevels | src/mesh/MultiLevelMesh.cpp:271-274 | The active view is a copy of the level list. |
| MultiLevel.MultiLevelMesh.AddAMRMeshLevel | src/mesh/MultiLevelMesh.cpp:278-296 | Appends one fresh, partially refined level to both lists and increments both counts. |
| MultiLevel.MultiLevelMesh.EraseCoarseLevels | src/mesh/MultiLevelMesh.cpp:301-307 | Shifts the active view down by k, renumbers the kept levels 0..gridn-1 and leaves the level list untouched. |
| MultiLevel.MultiLevelMesh.DeletedByDestructor | src/mesh/MultiLevelMesh.cpp:38-51 | The destructor frees every level and exactly the slots of flagged rows, which include every element type built. |
| MultiLevel.AsWrittenFlagsTooShort | src/mesh/MultiLevelMesh.cpp:181 | With `resize(5, false)` the line flag (index 5) lies outside the vector, and a six-flag vector loses its last flag. |
| MultiLevel.CorrectedFlagsFit | src/mesh/MultiLevelMesh.cpp:57 | With `resize(6, false)` every geometry has a flag and the existing flags are kept. |

## Left out

- Floating point: values are reals. Rounding, `inf` and `NaN` are not modelled.
- `ElemTypes.ElemType.Jacobian1D`, `Jacobian2D`, `Jacobian3D`: they require a non-zero determinant. The source divides without checking, which yields `inf`/`NaN` on a degenerate element.
- The automatic-differentiation (`adept::adouble`) instantiations are the same templates as the double ones and are not modelled separately.
- `ElemTypes.ElemType.JacobianSur`: only the 3D abort is modelled. The 1D and 2D surface Jacobians need square roots and normals, which the model does not have.
- The face tables (`_phiFace`, `_gradPhiFace`, `_hessianPhiFace`) and the fine-node coordinates `_X` computed from the linear element are not modelled. The fine-node coordinates are inputs of the basis data.
- The basis classes, the Gauss rule, `Mesh`, `MeshRefinement`, `LinearEquation::GetSystemDof`, `Mesh::GetSolutionDof`, `IsdomBisectionSearch` and solid marks are not part of this model. They are parameters: numbering functions, ownership data and basis evaluators.
- PETSc vectors and matrices are modelled as the ordered list of `set` and `insert_row` calls they receive.
- `Transfer.OwningProcess`: requires that some process ends after the row. The source loop runs off the offset table otherwise.
- `MultiLevel.MultiLevelMesh.Create`, `RefineMesh`: the refinement function pointer is modelled only by whether it is given. The state left behind after `exit(1)` is not described.
- `MultiLevel.MultiLevelMesh.constructor`: `_gridn` is not initialised by the default constructor and is taken as 0. The table left uninitialised by the reading constructor is taken as empty.
- `MultiLevel.MultiLevelMesh.ReadCoarseMesh`: the mesh reader and the box generator are external. They are modelled as the set of geometry rows whose flags they raise, and earlier raised flags are kept.
- `PrintInfo`, `GetDimension`, `SetDomain` and `GetDomain` are I/O or plain accessors, and are not modelled.

## Findings

| source | as written | input that shows it | evidently intended | confidence | as-written member | corrected member |
|---|---|---|---|---|---|---|
| src/mesh/MultiLevelMesh.cpp:124 | `_finiteElementGeometryFlag.resize(5, false)`, also at lines 181 and 206, while `BuildElemType` writes flag 5 (line 104) and the destructor reads flags 0..5 (line 45) | Reading a mesh into a default-constructed object: the six-flag vector is cut to five, and the write to flag 5 is out of range | `resize(6, false)`, one flag per geometry row | not executed | MultiLevel.AsWrittenFlagsTooShort | MultiLevel.CorrectedFlagsFit |
