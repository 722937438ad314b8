/**
 * The owning `Matrix` (src/matrix.hpp): rows*cols contiguous slots, the
 * default leading distance, and an `operator()` that rejects any row or
 * column index out of range before touching storage.
 */
module Matrices {
  import opened Memory
  import opened Arith
  import opened MatrixViews

  /** The four fields of `MatrixView` plus the ordering template argument. */
  datatype Matrix = Matrix(rows: nat, cols: nat, dist: nat, data: Ptr, order: Ordering)

  const MATRIX_OUT_OF_RANGE: string := "Matrix index out of range"

  /** The leading distance `Matrix(rows, cols)` chooses: a row's length or a column's. */
  function DefaultDist(rows: nat, cols: nat, order: Ordering): nat
  {
    if order == RowMajor then cols else rows
  }

  /** The container invariant: default distance, and storage (when present) inside the buffer. */
  predicate Valid(m: Matrix, len: nat)
  {
    && m.dist == DefaultDist(m.rows, m.cols, m.order)
    && (m.data.At? ==> m.data.addr + m.rows * m.cols <= len)
  }

  /** Offset of cell (i, j) from the start of the storage. */
  function Addr(m: Matrix, i: nat, j: nat): nat
  {
    Linear(m.order, m.dist, i, j)
  }

  /** The storage seen as a view at offset 0: shape, distance and order of the matrix. */
  function Shape(m: Matrix): MatrixView
  {
    MatrixView(m.rows, m.cols, m.dist, 0, m.order)
  }

  lemma AddrBelow(m: Matrix, i: nat, j: nat)
    requires m.dist == DefaultDist(m.rows, m.cols, m.order) && i < m.rows && j < m.cols
    ensures Addr(m, i, j) < m.rows * m.cols
  {
    MajorMinorBelow(MajorIndex(Shape(m), i, j), MinorIndex(Shape(m), i, j), Major(Shape(m)), m.dist);
    assert Major(Shape(m)) * m.dist == m.rows * m.cols;
  }

  lemma AddrInjective(m: Matrix, i: nat, j: nat, i2: nat, j2: nat)
    requires m.dist == DefaultDist(m.rows, m.cols, m.order)
    requires i < m.rows && j < m.cols && i2 < m.rows && j2 < m.cols
    ensures Addr(m, i, j) == Addr(m, i2, j2) ==> i == i2 && j == j2
  {
    MajorMinorInjective(MajorIndex(Shape(m), i, j), MinorIndex(Shape(m), i, j), MajorIndex(Shape(m), i2, j2), MinorIndex(Shape(m), i2, j2), m.dist);
  }

  /** The inverse of addressing: the cell stored at offset k. */
  function CellOf(m: Matrix, k: nat): (nat, nat)
  {
    if m.dist == 0 then (0, 0)
    else if m.order == RowMajor then (k / m.dist, k % m.dist)
    else (k % m.dist, k / m.dist)
  }

  lemma AddrOnto(m: Matrix, k: nat)
    requires m.dist == DefaultDist(m.rows, m.cols, m.order) && k < m.rows * m.cols
    ensures CellOf(m, k).0 < m.rows && CellOf(m, k).1 < m.cols
    ensures Addr(m, CellOf(m, k).0, CellOf(m, k).1) == k
  {
    assert Major(Shape(m)) * m.dist == m.rows * m.cols;
    MajorMinorSplit(k, Major(Shape(m)), m.dist);
  }

  /**
   * With the default distance, addressing is a bijection from
   * [0,rows) x [0,cols) onto [0, rows*cols), and `CellOf` is its inverse.
   */
  lemma AddrBijective(m: Matrix)
    requires m.dist == DefaultDist(m.rows, m.cols, m.order)
    ensures forall i: nat, j: nat :: i < m.rows && j < m.cols ==> Addr(m, i, j) < m.rows * m.cols
    ensures forall i: nat, j: nat :: i < m.rows && j < m.cols ==> CellOf(m, Addr(m, i, j)) == (i, j)
    ensures forall k: nat :: k < m.rows * m.cols ==>
      CellOf(m, k).0 < m.rows && CellOf(m, k).1 < m.cols && Addr(m, CellOf(m, k).0, CellOf(m, k).1) == k
  {
    forall i: nat, j: nat | i < m.rows && j < m.cols
      ensures Addr(m, i, j) < m.rows * m.cols
      ensures CellOf(m, Addr(m, i, j)) == (i, j)
    {
      AddrBelow(m, i, j);
      AddrOnto(m, Addr(m, i, j));
      var c := CellOf(m, Addr(m, i, j));
      AddrInjective(m, i, j, c.0, c.1);
    }
    forall k: nat | k < m.rows * m.cols
      ensures CellOf(m, k).0 < m.rows && CellOf(m, k).1 < m.cols && Addr(m, CellOf(m, k).0, CellOf(m, k).1) == k
    {
      AddrOnto(m, k);
    }
  }

  /** `Matrix(rows, cols)`: rows*cols fresh slots and the default distance. */
  function New(heap: seq<int>, rows: nat, cols: nat, order: Ordering, garbage: int): (r: (seq<int>, Matrix))
    ensures r.1.rows == rows && r.1.cols == cols && r.1.order == order
    ensures r.1.dist == (if order == RowMajor then cols else rows)
    ensures r.1.data == At(|heap|) && |r.0| == |heap| + rows * cols && r.0[..|heap|] == heap
    ensures Valid(r.1, |r.0|)
  {
    var (h, addr) := Alloc(heap, rows * cols, garbage);
    (h, Matrix(rows, cols, DefaultDist(rows, cols, order), At(addr), order))
  }

  /** Offset of an in-range cell, known to lie inside the rows*cols allocation. */
  function CellSlot(m: Matrix, i: nat, j: nat): (k: nat)
    requires m.dist == DefaultDist(m.rows, m.cols, m.order) && i < m.rows && j < m.cols
    ensures k == Addr(m, i, j) && k < m.rows * m.cols
  {
    AddrBelow(m, i, j);
    Addr(m, i, j)
  }

  /** `A(i, j)`: out-of-range exactly when i >= rows or j >= cols; otherwise the cell's slot. */
  function Get(m: Matrix, heap: seq<int>, i: nat, j: nat): (r: Checked<int>)
    requires Valid(m, |heap|) && m.data.At?
    ensures r.OutOfRange? <==> i >= m.rows || j >= m.cols
    ensures r.OutOfRange? ==> r.message == MATRIX_OUT_OF_RANGE
    ensures r.Ok? ==> r.value == heap[m.data.addr + CellSlot(m, i, j)]
  {
    if i >= m.rows || j >= m.cols then OutOfRange(MATRIX_OUT_OF_RANGE)
    else Ok(heap[m.data.addr + CellSlot(m, i, j)])
  }

  /**
   * `A(i, j) = x`: out-of-range exactly when i >= rows or j >= cols;
   * otherwise reading (i, j) back gives x and every other cell, and every
   * slot outside the matrix's storage, is unchanged.
   */
  function Set(m: Matrix, heap: seq<int>, i: nat, j: nat, x: int): (r: Checked<seq<int>>)
    requires Valid(m, |heap|) && m.data.At?
    ensures r.OutOfRange? <==> i >= m.rows || j >= m.cols
    ensures r.OutOfRange? ==> r.message == MATRIX_OUT_OF_RANGE
    ensures r.Ok? ==> |r.value| == |heap| && Get(m, r.value, i, j) == Ok(x)
    ensures r.Ok? ==> forall i2: nat, j2: nat :: (i2 != i || j2 != j) ==> Get(m, r.value, i2, j2) == Get(m, heap, i2, j2)
    ensures r.Ok? ==> forall p :: 0 <= p < |heap| && !(m.data.addr <= p < m.data.addr + m.rows * m.cols) ==>
      r.value[p] == heap[p]
  {
    if i >= m.rows || j >= m.cols then OutOfRange(MATRIX_OUT_OF_RANGE)
    else
      AddrBelow(m, i, j);
      var h := heap[m.data.addr + Addr(m, i, j) := x];
      assert forall i2: nat, j2: nat :: (i2 != i || j2 != j) ==> Get(m, h, i2, j2) == Get(m, heap, i2, j2) by {
        forall i2: nat, j2: nat | i2 != i || j2 != j
          ensures Get(m, h, i2, j2) == Get(m, heap, i2, j2)
        {
          if i2 < m.rows && j2 < m.cols {
            AddrBelow(m, i2, j2);
            AddrInjective(m, i, j, i2, j2);
          }
        }
      }
      Ok(h)
  }

  /**
   * `Matrix(const Matrix&)`: same shape and distance, fresh storage, every
   * cell copied. A moved-from source is copyable only when it has no cells
   * (`new T[0]` and an empty `std::copy`); its copy then rejects every index.
   */
  function Copy(heap: seq<int>, m: Matrix): (r: (seq<int>, Matrix))
    requires Valid(m, |heap|) && (m.data.At? || m.rows * m.cols == 0)
    ensures r.1.rows == m.rows && r.1.cols == m.cols && r.1.dist == m.dist && r.1.order == m.order
    ensures r.1.data == At(|heap|) && |r.0| == |heap| + m.rows * m.cols && r.0[..|heap|] == heap
    ensures Valid(r.1, |r.0|)
    ensures m.data.At? ==> forall i: nat, j: nat :: Get(r.1, r.0, i, j) == Get(m, heap, i, j)
    ensures m.data.Null? ==> forall i: nat, j: nat :: Get(r.1, r.0, i, j).OutOfRange?
  {
    var addr := if m.data.At? then m.data.addr else 0;
    var h := heap + heap[addr..addr + m.rows * m.cols];
    var c := Matrix(m.rows, m.cols, m.dist, At(|heap|), m.order);
    assert m.data.At? ==> forall i: nat, j: nat :: Get(c, h, i, j) == Get(m, heap, i, j) by {
      if m.data.At? {
        forall i: nat, j: nat
          ensures Get(c, h, i, j) == Get(m, heap, i, j)
        {
          if i < m.rows && j < m.cols {
            AddrBelow(m, i, j);
          }
        }
      }
    }
    assert m.data.Null? ==> forall i: nat, j: nat :: Get(c, h, i, j).OutOfRange? by {
      if m.data.Null? {
        ZeroProduct(m.rows, m.cols);
      }
    }
    (h, c)
  }

  /**
   * `Matrix(Matrix&&)`: the new matrix takes over shape and storage (so reads
   * the same cells); the source keeps its shape but its data becomes null.
   */
  function MoveConstruct(m: Matrix): (r: (Matrix, Matrix))
    ensures r.0.rows == m.rows && r.0.cols == m.cols && r.0.dist == m.dist && r.0.data == m.data
    ensures r.0.order == m.order
    ensures r.1.rows == m.rows && r.1.cols == m.cols && r.1.dist == m.dist && r.1.order == m.order
    ensures r.1.data == Null
    ensures forall heap: seq<int>, i: nat, j: nat :: Valid(m, |heap|) && m.data.At? ==>
      Valid(r.0, |heap|) && Get(r.0, heap, i, j) == Get(m, heap, i, j)
  {
    (m, m.(data := Null))
  }

  /** `A = std::move(B)`: the two matrices exchange all four fields. */
  function MoveAssign(a: Matrix, b: Matrix): (r: (Matrix, Matrix))
    requires a.order == b.order
    ensures r.0.rows == b.rows && r.0.cols == b.cols && r.0.dist == b.dist && r.0.data == b.data
    ensures r.1.rows == a.rows && r.1.cols == a.cols && r.1.dist == a.dist && r.1.data == a.data
  {
    (Matrix(b.rows, b.cols, b.dist, b.data, a.order), Matrix(a.rows, a.cols, a.dist, a.data, b.order))
  }

  /** Move-assigning twice restores both matrices. */
  lemma MoveAssignTwice(a: Matrix, b: Matrix)
    requires a.order == b.order
    ensures var (a1, b1) := MoveAssign(a, b); MoveAssign(a1, b1) == (a, b)
  {
  }

  /** The matrix as the `MatrixView` it derives from. */
  function AsView(m: Matrix): (v: MatrixView)
    requires m.data.At?
    ensures v.rows == m.rows && v.cols == m.cols && v.order == m.order && v.offset == m.data.addr
    ensures forall len: nat :: Valid(m, len) ==> Regular(v) && Fits(v, len)
  {
    var v := MatrixView(m.rows, m.cols, m.dist, m.data.addr, m.order);
    assert m.dist == DefaultDist(m.rows, m.cols, m.order) ==> Extent(v) <= m.rows * m.cols by {
      if m.rows > 0 && m.cols > 0 && m.dist == DefaultDist(m.rows, m.cols, m.order) {
        assert Major(v) * m.dist == m.rows * m.cols;
        assert m.dist * (Major(v) - 1) + Minor(v) == Major(v) * m.dist;
      }
    }
    v
  }
}
