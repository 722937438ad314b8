# minimath lazy expressions, modelled in Dafny

This project models the core of minimath, a small header-only C++ linear
algebra library built on expression templates:

- non-owning strided vector views (`VectorView`): `range`, `slice`, element
  access, broadcast assignment, assignment from an expression, and the
  rebinding copy assignment that C++ selects between views of one type;
- the owning `Vector`: allocation, copy and move construction and assignment,
  construction from an expression;
- lazy vector expressions (`SumVecExpr`, `ScaleVecExpr`), `dot`, and the
  stream operator;
- strided matrix views (`MatrixView`), with the bounds check the library
  performs;
- the owning `Matrix`: allocation, copy and move, checked `operator()`;
- lazy matrix expressions: sum, difference, scaling, transpose, product, and
  the stream operator.

All memory is one buffer, `seq<int>`. A pointer is a position in it. A view is
a record of offset, size and distance. Allocation appends fresh slots to the
buffer; their contents are a `garbage` value chosen by the caller, standing
for uninitialised memory. Expressions are trees. Reading element i (or cell
(i, j)) is a pure function of the tree and the buffer. Assignments are
functions from the buffer before to the buffer after. They evaluate each
element against the buffer as the earlier iterations left it, so aliasing
between a target and its source behaves as in the loop of the library. A
thrown `std::out_of_range` or `MatrixException` is an `OutOfRange(message)`
value. A failed `assert` is a precondition.

Modules and files:

| file | module | models |
|---|---|---|
| memory.dfy | `Memory` | pointers, allocation, the checked result type |
| text.dfy | `Text` | decimal rendering of an element, character counting |
| arith.dfy | `Arith` | index arithmetic shared by the views |
| vector_view.dfy | `VectorViews` | `VectorView` |
| vec_expr.dfy | `VecExprs` | src/vecexpr.hpp |
| vector.dfy | `Vectors` | expression assignment, view rebinding and `Vector` |
| demo_vector.dfy | `VectorDemo` | the scenarios of demos/demo_vector.cpp, and assignments between views |
| matrix_view.dfy | `MatrixViews` | `MatrixView` |
| matrix.dfy | `Matrices` | `Matrix` |
| matrix_expr.dfy | `MatExprs` | src/MatrixExpr.hpp |

## Model

| member | source | states |
|---|---|---|
| `Memory.Alloc` | src/vector.hpp:77-78 | `new T[n]` returns the first of n fresh slots past the existing buffer, which is left unchanged |
| `VectorViews.Get` | src/vector.hpp:53-54 | `view(i)` reads slot `offset + dist*i`, unchecked (no contract; its partner is `VectorViews.Set`, which reads back what it wrote) |
| `VectorViews.Set` | src/vector.hpp:53 | writing `view(i)` changes exactly the slot `offset + dist*i`; reading it back gives the written value |
| `VectorViews.SlotsDistinct` | src/vector.hpp:53-54 | with a positive distance, distinct indices of a view address distinct slots, in increasing order |
| `VectorViews.Range` | src/vector.hpp:56-59 | `range(first, next)` has `next-first` elements and the parent's distance; its element k aliases parent element `first+k`; a view inside the buffer yields one inside it |
| `VectorViews.SliceSlot` | src/vector.hpp:62 | a view starting at parent element `first` with distance `dist*step` has its element k on the slot of parent element `first + k*step` |
| `VectorViews.SliceAsWritten` | src/vector.hpp:61-63 | as written: `size/step` elements at distance `dist*step`, element k aliasing parent element `first + k*step` |
| `VectorViews.SliceAsWrittenOverruns` | src/vector.hpp:61-63 | a 10-element view sliced at 5 with step 2 gets 5 elements; element 3 aliases parent index 11, so the slice leaves the buffer |
| `VectorViews.Slice` | src/vector.hpp:61-63 | corrected slice: element k exists exactly when `first + k*step` is a parent index (both directions); it aliases that element; a view inside the buffer yields one inside it |
| `VectorViews.SliceCount` | src/vector.hpp:62 | the corrected count `ceil((size-first)/step)` admits k exactly when `first + k*step < size` |
| `VectorViews.FillFrom` | src/vector.hpp:44-45 | the loop from index i on stores the scalar into every later element's slot and leaves every other slot untouched |
| `VectorViews.Fill` | src/vector.hpp:42-47 | `view = scal`: every element reads `scal` afterwards; every slot outside the view is unchanged |
| `VectorViews.FillContiguous` | src/vector.hpp:42-47 | on a unit-distance view (a `range` of a vector), `view = scal` sets exactly the slots from the view's start to its end and keeps every other slot |
| `VecExprs.Size` | src/vecexpr.hpp:28-49 | `size()`: a sum has its left operand's size, a scaling its operand's (no contract; its partners are `VecExprs.Plus` and `VecExprs.Times`) |
| `VecExprs.Read` | src/vecexpr.hpp:27-48 | `operator()(i)`: a leaf reads its slot, a sum adds, a scaling multiplies, each against the current buffer (no contract; its partners are `VecExprs.ReadFrame`, `VecExprs.Plus`, `VecExprs.Times`) |
| `VecExprs.FootprintWithin` | src/vecexpr.hpp:20-50 | every slot that reading an element consults lies inside the buffer |
| `VecExprs.WellFormedGrow` | src/vecexpr.hpp:20-50 | an expression valid over a buffer stays valid when the buffer grows |
| `VecExprs.ReadFrame` | src/vecexpr.hpp:27 | reading an element depends only on the slots in its footprint: buffers agreeing there give the same element |
| `VecExprs.Plus` | src/vecexpr.hpp:20-36 | `a + b` (operands of equal size) has a's size, and element i is `a(i) + b(i)` |
| `VecExprs.Times` | src/vecexpr.hpp:41-56 | `scal * v` has v's size, and element i is `scal * v(i)` |
| `VecExprs.PlusTimesReads` | src/vecexpr.hpp:26-56 | the nested expression `x + s*y` reads `x(i) + s*y(i)` |
| `VecExprs.Dot` | src/vecexpr.hpp:60-73 | the loop returns the sum of `a(k)*b(k)` over all k, accumulated from zero in index order; an empty dot product is 0 |
| `VecExprs.DotSymmetric` | src/vecexpr.hpp:69-72 | `dot(a, b) == dot(b, a)` |
| `VecExprs.DotSelfNonNegative` | src/vecexpr.hpp:69-72 | `dot(x, x) >= 0` |
| `VecExprs.DotScaleLeft` | src/vecexpr.hpp:69-72 | `dot(s*a, b) == s * dot(a, b)` |
| `VecExprs.DotPlusLeft` | src/vecexpr.hpp:69-72 | `dot(a + b, c) == dot(a, c) + dot(b, c)` |
| `VecExprs.JoinCommas` | src/vecexpr.hpp:80-83 | joining n comma-free parts with ", " gives exactly n-1 commas |
| `VecExprs.RenderPrefixIsJoin` | src/vecexpr.hpp:80-83 | the first n elements as the loop writes them equal the reference: their texts joined by ", " |
| `VecExprs.Render` | src/vecexpr.hpp:77-85 | `ost << v` writes the element texts in index order separated by ", ", and nothing for an empty vector |
| `VecExprs.RenderSeparators` | src/vecexpr.hpp:79-83 | a one-element vector is written as that element alone; n >= 1 elements are written with exactly n-1 commas |
| `Text.ElementHasNoSeparator` | src/vecexpr.hpp:81-83 | a written element contains no comma and no line break, so separators are countable |
| `Vectors.AssignFrom` | src/vector.hpp:37-38 | the in-place loop from index i on: element k is evaluated against the buffer as the earlier iterations left it and stored in its slot; the buffer keeps its length (its frame and result are stated by `Vectors.AssignFromFrame` and `Vectors.AssignFromComputes`) |
| `Vectors.AssignFromFrame` | src/vector.hpp:37-38 | the assignment loop from index i on changes only the slots of elements i and later |
| `Vectors.WriteKeepsLater` | src/vector.hpp:38 | storing element i does not change a later element when its slot is outside that element's footprint |
| `Vectors.AssignFromComputes` | src/vector.hpp:37-38 | without forward aliasing, each element's slot ends up holding the expression's value of that element in the original buffer |
| `Vectors.Assign` | src/vector.hpp:33-40 | `view = expr` (equal sizes) through the template `operator=`, which C++ selects for every right side except a view of the target's own type or, for a unit-distance target, an owning `Vector` (both bind to the view's implicit copy assignment instead): slots outside the view are kept; for a view with distinct slots and no forward aliasing, element k afterwards reads `expr(k)` |
| `Vectors.AsView` | src/vector.hpp:70-78 | a vector is the unit-distance view of its own storage, inside the buffer when the vector is valid |
| `Vectors.Elem` | src/vector.hpp:53-78 | `x(i)` of a valid vector (a unit-distance view of its own storage) reads slot `data + i` of non-null storage |
| `Vectors.New` | src/vector.hpp:77-78 | `Vector(n)` has size n and n fresh slots past the old buffer, which is left unchanged |
| `Vectors.FreshAssign` | src/vector.hpp:93-98 | fresh storage is disjoint from everything an expression over the old buffer reads, so no aliasing arises |
| `Vectors.FromExpr` | src/vector.hpp:93-98 | `Vector(expr)` has expr's size, fresh storage, and element i equal to `expr(i)`; the old buffer is unchanged |
| `Vectors.CopyAssign` | src/vector.hpp:103-109 | `x = y` (equal sizes) keeps every slot outside x; when the storages are the same or disjoint, x then holds y's elements |
| `Vectors.CopyConstruct` | src/vector.hpp:80-84 | `Vector(const Vector&)` gives fresh storage holding every element of the source |
| `Vectors.MoveConstruct` | src/vector.hpp:86-91 | `Vector(Vector&&)` takes over size and storage, reading the same elements; the source becomes (0, null) |
| `Vectors.MoveAssign` | src/vector.hpp:111-116 | move assignment exchanges size and storage of the two vectors |
| `Vectors.MoveAssignTwice` | src/vector.hpp:111-116 | move-assigning twice restores both vectors |
| `Vectors.ViewRebind` | src/vector.hpp:15-21 | `a = b` between two views of one type takes the implicit copy assignment: a afterwards has b's size and reads b's elements, and no slot of the buffer changes |
| `Vectors.VectorRebind` | src/vector.hpp:100-102 | `x = v` for a `Vector` and a unit-distance view takes the view's copy assignment made visible by `using BASE::operator=`: x afterwards has v's size, points into the buffer and reads v's elements, and no slot changes |
| `Vectors.ViewAssignCopies` | src/vector.hpp:33-40 | the evidently intended `a = b` between views, an element copy: when a's slots are distinct and apart from b's, a afterwards reads b's elements |
| `VectorDemo.DemoSums` | demos/demo_vector.cpp:11-27 | for x = 0..9 and y = ten 10s: `x+y` reads 10..19, `x+3*y` reads 30..39, and `Vector z = x+y` holds 10..19 |
| `VectorDemo.DemoRangeStep` | demos/demo_vector.cpp:33 | `x.range(2,9) = 3` overwrites indices 2 to 8 only |
| `VectorDemo.DemoSliceStep` | demos/demo_vector.cpp:34 | `x.slice(1,5) = 10` overwrites indices 1 and 6 only |
| `VectorDemo.DemoSliceView` | demos/demo_vector.cpp:34 | `x.slice(1,5)` on ten elements, as written and corrected alike, is the 2-element view at parent indices 1 and 6 |
| `VectorDemo.DemoRangeSlice` | demos/demo_vector.cpp:33-36 | after both statements, with the slice as the library builds it, x is 0, 10, 3, 3, 3, 3, 10, 3, 3, 9; the as-written slice equals the corrected one here |
| `VectorDemo.RangeAssignVectorRebinds` | src/vector.hpp:21-40 | for owning vectors x and y on separate storage, `x.range(0, n) = y` with n = y.size leaves the buffer unchanged, where the element copy gives x(i) the value y(i) for every i < n |
| `VectorDemo.RangeAssignRebinds` | src/vector.hpp:15-40 | for two separate contiguous ten-element vectors, `x.range(2,5) = y.range(0,3)` leaves x(2) as it was, where the element copy gives it y(0) |
| `VectorDemo.VectorAssignRangeShares` | src/vector.hpp:100-109 | for two owning vectors on separate storage, `x = y.range(0, n)` makes x point at y's storage instead of its own and changes no slot, where the element copy leaves x on its own storage reading y's elements |
| `VectorDemo.DemoRangeAssign` | src/vector.hpp:15-40 | with x = 0..9 and y = ten 10s, `x.range(2,5) = y.range(0,3)` leaves x(2) at 2, where the element copy makes it 10 |
| `MatrixViews.LinearInExtent` | src/matrix.hpp:32-44 | with lines at least a line apart, every in-range cell's offset lies below the view's extent |
| `MatrixViews.LinearInjective` | src/matrix.hpp:32-44 | with lines at least a line apart, distinct in-range cells have distinct offsets |
| `MatrixViews.Index` | src/matrix.hpp:32-44 | corrected `operator()`: an accepted offset is the cell's own offset and lies inside the view; a view with no rows or columns rejects every index; every in-range cell of a regular view is accepted |
| `MatrixViews.Get` | src/matrix.hpp:46-58 | corrected read: out of range exactly when the index check fails, otherwise the cell's slot |
| `MatrixViews.Cell` | src/matrix.hpp:46-58 | an in-range cell of a view inside the buffer is read without error |
| `MatrixViews.RawIndex` | src/matrix.hpp:34-38 | the offset `operator()` computes before the 64-bit wrap uses the row count as stride; it is the cell's true offset when the distance equals the row count |
| `MatrixViews.NothingWraps` | src/matrix.hpp:36-41 | when no intermediate exceeds 2^64-1, the 64-bit index and bound equal the exact ones |
| `MatrixViews.IndexAsWritten` | src/matrix.hpp:32-44 | as written: index `i*rows + j` (or `j*rows + i`) checked against `dist*(rows-1) + cols`, modulo 2^64; without wrap-around it rejects exactly the offsets at or past that bound |
| `MatrixViews.AsWrittenAgreesOnSquare` | src/matrix.hpp:32-44 | on a square view whose distance is its row count, the check as written agrees with the corrected one |
| `MatrixViews.RowStrideUsesRowCount` | src/matrix.hpp:36-38 | a 2x3 row-major view of distance 3 maps cells (1,0) and (0,2) to the same offset 2 |
| `MatrixViews.ZeroRowsPassCheck` | src/matrix.hpp:40-41 | a view with no rows accepts offset 5, because `rows-1` wraps to 2^64-1 |
| `MatrixViews.ColMajorExtentTooShort` | src/matrix.hpp:38-41 | a 2x3 column-major view of distance 2 rejects its in-range cell (1,2) at offset 5 |
| `MatrixViews.RowIndexWraps` | src/matrix.hpp:36 | row index 2^63 of a 2x2 view wraps to offset 0 and is accepted |
| `Matrices.AddrBelow` | src/matrix.hpp:145-150 | with the default distance, every in-range cell lies inside the rows*cols allocation |
| `Matrices.AddrInjective` | src/matrix.hpp:145-150 | with the default distance, distinct in-range cells have distinct offsets |
| `Matrices.AddrOnto` | src/matrix.hpp:145-150 | with the default distance, every slot of the allocation is the offset of some in-range cell |
| `Matrices.AddrBijective` | src/matrix.hpp:145-150 | with the default distance, cells and allocation slots correspond one to one |
| `Matrices.New` | src/matrix.hpp:75-81 | `Matrix(rows, cols)` has the given shape, distance `cols` (row-major) or `rows` (column-major), and rows*cols fresh slots |
| `Matrices.Get` | src/matrix.hpp:153-163 | `A(i, j)` fails with "Matrix index out of range" exactly when i >= rows or j >= cols; otherwise it reads the cell's slot inside the allocation |
| `Matrices.Set` | src/matrix.hpp:141-151 | `A(i, j) = x` fails exactly when out of range; otherwise (i, j) reads x, every other cell and every slot outside the allocation is unchanged |
| `Matrices.Copy` | src/matrix.hpp:83-91 | `Matrix(const Matrix&)` has the same shape and distance, fresh storage, and every cell (and every error) equal to the source's; a moved-from source with no cells and a null pointer is accepted, and its copy rejects every index |
| `Matrices.MoveConstruct` | src/matrix.hpp:93-101 | `Matrix(Matrix&&)` takes over shape, distance, order and storage, reading the same cells; the source keeps its shape, distance and order and gets a null pointer |
| `Matrices.MoveAssign` | src/matrix.hpp:125-131 | move assignment exchanges all four fields |
| `Matrices.MoveAssignTwice` | src/matrix.hpp:125-131 | move-assigning twice restores both matrices |
| `Matrices.AsView` | src/matrix.hpp:70-81 | a valid matrix is a regular view lying inside the buffer |
| `MatExprs.Rows` | src/MatrixExpr.hpp:20-70 | `rows()`: sums, differences and scalings have their left operand's rows, a transpose its operand's columns, a product its left factor's rows, a leaf its `m_rows_` (no contract; its partners are the shape ensures of `MatExprs.Plus` to `MatExprs.Product`) |
| `MatExprs.Cols` | src/MatrixExpr.hpp:21-70 | `cols()`, symmetrically; a product has its right factor's columns (no contract; same partners) |
| `MatExprs.Read` | src/MatrixExpr.hpp:20-89 | `operator()(i, j)` of every node, with a product summing `a(i,k)*b(k,j)` over k in order; a `Matrix` leaf reads through the corrected view indexing `MatrixViews.Cell`, not the as-written `MatrixView::operator()` (see Left out and Findings) (no contract; its partners are the element ensures of `MatExprs.Plus` to `MatExprs.Product` and the algebraic lemmas below) |
| `MatExprs.Plus` | src/MatrixExpr.hpp:14-29 | `a + b` (equal shapes) has a's shape, and cell (i,j) is `a(i,j) + b(i,j)` |
| `MatExprs.Minus` | src/MatrixExpr.hpp:31-46 | `a - b` (equal shapes) has a's shape, and cell (i,j) is `a(i,j) - b(i,j)` |
| `MatExprs.Times` | src/MatrixExpr.hpp:48-62 | `s * A` has A's shape, and cell (i,j) is `s * A(i,j)` |
| `MatExprs.Transpose` | src/MatrixExpr.hpp:64-77 | `transpose(A)` has shape (A.cols, A.rows), and cell (i,j) is `A(j,i)` |
| `MatExprs.Product` | src/MatrixExpr.hpp:79-90 | the product has shape (a.rows, b.cols), and cell (i,j) is the sum of `a(i,k)*b(k,j)` over k < a.cols |
| `MatExprs.TransposeInvolutive` | src/MatrixExpr.hpp:64-77 | transposing twice restores the shape and every cell |
| `MatExprs.MinusCancels` | src/MatrixExpr.hpp:31-46 | with a difference read as a difference (the evidently intended base; as written see `MatExprs.MinusThenPlusAsWritten`), `A - A` reads zero everywhere and `(a - b) + b` reads as a |
| `MatExprs.TimesDistributes` | src/MatrixExpr.hpp:48-62 | `s * (a + b)` reads as `s*a + s*b` at every cell |
| `MatExprs.TimesTwice` | src/MatrixExpr.hpp:48-62 | `s * (t * A)` reads as `(s*t) * A` at every cell |
| `MatExprs.ProductSumTransposed` | src/MatrixExpr.hpp:84-89 | the partial product sums of `a*b` at (j,i) and of `transpose(b)*transpose(a)` at (i,j) agree |
| `MatExprs.TransposeOfProduct` | src/MatrixExpr.hpp:64-90 | `transpose(a*b)` and `transpose(b)*transpose(a)` have equal shapes and read equal cells |
| `MatExprs.ProductSumOverSum` | src/MatrixExpr.hpp:84-89 | the partial product sums distribute over a sum in the right factor |
| `MatExprs.ProductDistributes` | src/MatrixExpr.hpp:79-90 | `a*(b + c)` reads as `a*b + a*c` |
| `MatExprs.MatrixLeafReads` | src/matrix.hpp:141-163 | a matrix used as an operand (through the corrected view indexing) reads exactly its checked cells |
| `MatExprs.RowTextIsConcat` | src/MatrixExpr.hpp:98-100 | the inner loop writes the first n cells of a row in column order with no separator |
| `MatExprs.RowsTextIsConcat` | src/MatrixExpr.hpp:97-102 | the outer loop's output for n rows is the first n reference lines concatenated |
| `MatExprs.LinesNewlines` | src/MatrixExpr.hpp:97-102 | the reference lines hold exactly one line break per row |
| `MatExprs.Render` | src/MatrixExpr.hpp:92-104 | `os << A` writes one line per row, each holding that row's cells in column order with no separator and ending in a line break |
| `MatExprs.RenderNewlines` | src/MatrixExpr.hpp:97-102 | the output holds exactly `rows` line breaks |
| `MatExprs.RenderAsWritten` | src/MatrixExpr.hpp:92-104 | `os << A` evaluated through the wrong base of a difference: still exactly `rows` line breaks |
| `MatExprs.RenderSingleCell` | src/MatrixExpr.hpp:92-104 | a 1x1 expression prints as its single cell and a line break |
| `MatExprs.SeenThroughBase` | src/MatrixExpr.hpp:31-32 | as written, a difference reached through its `MatExpr` base is evaluated as a sum of the same operands; shape and validity are kept |
| `MatExprs.DifferenceReadsAsSum` | src/MatrixExpr.hpp:31-39 | through its base, cell (i,j) of `a - b` reads `a(i,j) + b(i,j)` |
| `MatExprs.SelfDifferencePrintsDouble` | src/MatrixExpr.hpp:31-46 | for a 1x1 operand, `A - A` should print 0 but as written prints twice the cell (given the repaired `rows()`/`cols()`) |
| `MatExprs.SelfDifferencePrintsZero` | src/MatrixExpr.hpp:31-46 | with differences read as differences, a 1x1 `A - A` prints "0" and a line break |
| `MatExprs.SelfDifferencePrintsSum` | src/MatrixExpr.hpp:31-46 | as written, a 1x1 `A - A` prints twice its cell and a line break |
| `MatExprs.DifferencePrintsAsSum` | src/MatrixExpr.hpp:31-46 | with `rows()`/`cols()` of a leaf repaired (see Left out), printing `A - A` for the 1x1 matrix [1] gives "2" and a line break instead of "0" and a line break |
| `MatExprs.DifferenceOperandDoubles` | src/MatrixExpr.hpp:14-45 | a difference `a - a` used as the left operand of `+` is read through its base as `a + a`, so `(a - a) + b` reads `2*a(i,j) + b(i,j)` |
| `MatExprs.DifferenceOperandCancels` | src/MatrixExpr.hpp:14-45 | read as a difference, `(a - a) + b` reads `b(i,j)` at every cell |
| `MatExprs.MinusThenPlusAsWritten` | src/MatrixExpr.hpp:14-45 | as written, `(a - b) + b` is read through the difference's base as `(a + b) + b`, so it reads `a(i,j) + 2*b(i,j)` instead of `a(i,j)` |
| `MatExprs.DifferenceOperandReadsThree` | src/MatrixExpr.hpp:22-39 | for the 1x1 matrix [1], `((A - A) + A)(0, 0)` reads 3 as written and 1 as intended |

## Left out

- Element type: elements are mathematical integers and are written in
  decimal. The library is generic in `T` and is used with `double`. Floating
  point rounding, `double` formatting and overflow of `T` are not modelled.
  The vector scalar of `operator*` is a `double` in the library and an `int`
  here.
- Heap management: destructors (`delete[]`), leaks and double frees are not
  modelled. The buffer only grows.
- `MatrixView::print` writes the same cells as the stream operator with a
  trailing space after each; it is not modelled separately.
- `Matrix::operator=(const Matrix&)` is not modelled. It names members that
  do not exist (`rows_`, `cols_`, `data_`), so it cannot be instantiated.
- `Matrix::operator*(const Vector&)` is not modelled. It returns no value and
  compares against `vec.size` without calling it.
- `Matrix(void)` is declared but never defined. `getRows`/`getCols` only
  return fields.
- The converting `VectorView` constructor is not modelled. It calls
  `v2.Size()`, which no view declares.
- src/vecexpr.hpp declares its templates in namespace `ASC_bla`, while
  src/vector.hpp and the demo use them from `minimath`. The model treats them
  as one namespace.
- A view's `rows()`/`cols()` through the `MatExpr` base: `MatrixView`
  declares only `getRows`/`getCols`, so `MatExpr::rows()` would call itself
  without end. `MatExprs.Rows` and `MatExprs.Cols` read a leaf's fields, as
  evidently intended.
- `MatMulExpr` has no constructor, no `rows()`/`cols()` and no operator that
  builds it. `MatExprs.Product` gives it shape (a.rows, b.cols) and requires
  `a.cols == b.rows`.
- `MatExprs.Read`: a `Matrix` leaf reads through the corrected view indexing
  (`MatrixViews.Cell`). As written, a `Matrix` inside an expression reads
  through `MatrixView::operator()`, whose errors are listed under Findings.
  `MatExprs.WellFormed` also requires each leaf to be regular (its distance
  at least its line length), which the view constructor (src/matrix.hpp:23-26)
  does not check and leaves to whoever constructs the view.
- src/bind_bla.cpp (Python bindings), the Python demos and setup.py are not
  part of this model.
- `slice` with step 0 divides by zero in the library. `VectorViews.Slice` and
  `VectorViews.SliceAsWritten` require a positive step.
- `Vectors.Assign`: the value of each element afterwards is stated only when
  the view's slots are distinct and no element's evaluation reads a slot
  written before it. Under other aliasing the result is the sequential loop
  (`Vectors.AssignFrom`), but it is not characterised further.
- `Vectors.Assign`: it models the element-copying template `operator=` only.
  When the right side is a view of exactly the target's type, or an owning
  `Vector` while the target is a unit-distance view (a `Vector` binds to its
  direct base `VectorView<T>` more closely than to `VecExpr`), C++ selects the
  view's implicit copy assignment instead, which rebinds the view and writes
  nothing (`Vectors.ViewRebind`, `Vectors.VectorRebind`,
  `VectorDemo.RangeAssignVectorRebinds`; see Findings). A slice target has a
  different type, so a `Vector` right side still selects the template. The model has one view type, so which of the two a statement
  selects is stated per member, not derived from the static distance type.
- `Vectors.CopyAssign`: element equality is stated only when the two storages
  are identical or disjoint. The library's constructors never produce
  partially overlapping vectors, but the rebinding `x = y.range(1, n)`
  (`Vectors.VectorRebind`) does, and for those the result is not stated.
- `MatrixViews.IndexAsWritten`: the contract characterises the result only when
  no 64-bit wrap-around occurs. The wrapping cases are shown by
  `MatrixViews.ZeroRowsPassCheck` and `MatrixViews.RowIndexWraps`.
- `VecExprs.Dot`: the sum is exact. The library's accumulator type follows
  the element type and rounds.
- `Matrices.New`: the allocation size `rows * cols` (and the copy's in
  `Matrices.Copy`) is exact. The library computes it in 64-bit `size_t`
  (src/matrix.hpp:80, :88), so a shape whose product reaches 2^64 allocates a
  wrapped, too small buffer. The vector offsets `m_dist*i` and
  `first*m_dist` (src/vector.hpp:38, 45, 53, 58, 62) are likewise unbounded
  here; only `MatrixViews.IndexAsWritten` models 64-bit wrap-around.
- `Matrices.Get`: it requires a non-null matrix. In range on a moved-from
  matrix, the library dereferences a null pointer.

## Findings

| source | as written | input that shows it | evidently intended | confidence | as-written member | corrected member |
|---|---|---|---|---|---|---|
| src/vector.hpp:62 | `slice(first, step)` has `m_size/step` elements; `first` is ignored | a 10-element view, `slice(5, 2)`: 5 elements, element 3 at parent index 11 | `ceil((size-first)/step)` elements, all inside the parent | high; not executed | `VectorViews.SliceAsWrittenOverruns` | `VectorViews.Slice` |
| src/matrix.hpp:36-38 | the index uses `m_rows_` as the stride | a 2x3 row-major view of distance 3: cells (1,0) and (0,2) both map to offset 2 | stride `m_dist_`: `i*dist + j` (row-major), `j*dist + i` (column-major) | high; not executed | `MatrixViews.RowStrideUsesRowCount` | `MatrixViews.Index` |
| src/matrix.hpp:40 | the bound `m_dist_*(m_rows_-1) + m_cols_` wraps when `m_rows_ == 0` | a view with no rows, cell (0,5): accepted at offset 5 | a view with no rows or columns has no valid cell | high; not executed | `MatrixViews.ZeroRowsPassCheck` | `MatrixViews.Index` |
| src/matrix.hpp:40 | column-major views use the row-major extent `dist*(rows-1) + cols` | a 2x3 column-major view of distance 2, cell (1,2): rejected although its offset 5 is inside | `dist*(cols-1) + rows` for column-major | high; not executed | `MatrixViews.ColMajorExtentTooShort` | `MatrixViews.Index` |
| src/matrix.hpp:36 | `i*m_rows_ + j` is computed in 64 bits and can wrap below the bound | a 2x2 view of distance 2, cell (2^63, 0): accepted at offset 0 | the exact offset (2^64 here) is compared with the extent and rejected | medium; not executed | `MatrixViews.RowIndexWraps` | `MatrixViews.Index` |
| src/MatrixExpr.hpp:32 | `SubMatExpr<A,B>` derives from `MatExpr<SumMatExpr<A,B>>`, so a difference passed as an operand is downcast to a sum and read as one | built with NDEBUG (the shape asserts are the only calls to `rows()`), `((A - A) + A)(0, 0)` for the 1x1 matrix [1] reads 3 instead of 1 | derive from `MatExpr<SubMatExpr<A,B>>`; `(a - a) + b` reads as `b` | medium (the downcast is undefined behaviour; read as a sum because both classes hold `a_`, `b_` in the same layout); not executed | `MatExprs.DifferenceOperandReadsThree` | `MatExprs.DifferenceOperandCancels` |
| src/vector.hpp:21 | the view's implicit copy assignment is an exact match for a view of the same type and wins over the template `operator=` (lines 33-34), so `a = b` between two `range`s rebinds the temporary and copies nothing | x = 0..9, y = ten 10s, `x.range(2, 5) = y.range(0, 3)`: x(2) stays 2; likewise `x.range(0, 10) = y` with owning vectors, since a `Vector` binds to its direct base `VectorView<T>` more closely than to `VecExpr`: x stays 0..9 | copy the elements, as for any other expression: x(2) becomes 10 | high; not executed | `VectorDemo.RangeAssignRebinds`, `VectorDemo.RangeAssignVectorRebinds` | `Vectors.ViewAssignCopies` |
| src/vector.hpp:102 | `using BASE::operator=` makes the view's implicit copy assignment an exact match for `x = y.range(0, n)`, so the owning `Vector` x is rebound onto y's storage; its own buffer leaks and both destructors (line 100) free y's | two owning vectors of ten elements, `x = y.range(0, 10)`: x points at y's storage | copy the elements into x's own storage | high; not executed | `VectorDemo.VectorAssignRangeShares` | `Vectors.ViewAssignCopies` |
