/**
 * `MatrixView` (src/matrix.hpp): a non-owning rows x cols window in row- or
 * column-major order, with a leading distance between consecutive rows
 * (row-major) or columns (column-major). Its `operator()` bound-checks the
 * linear offset against the window's extent.
 */
module MatrixViews {
  import opened Memory
  import opened Arith

  /** `size_t` arithmetic is modulo 2^64. */
  const WORD: nat := 0x1_0000_0000_0000_0000

  function Wrap(x: int): nat
  {
    x % WORD
  }

  /** `ORDERING`. */
  datatype Ordering = RowMajor | ColMajor

  datatype MatrixView = MatrixView(rows: nat, cols: nat, dist: nat, offset: nat, order: Ordering)

  const VIEW_OUT_OF_BOUNDS: string := "MatrixView: access out of bounds"

  /** Offset of cell (i, j) from the view's start, given the leading distance. */
  function Linear(order: Ordering, dist: nat, i: nat, j: nat): nat
  {
    match order
    case RowMajor => i * dist + j
    case ColMajor => j * dist + i
  }

  /** Number of rows (row-major) or columns (column-major): the lines `dist` apart. */
  function Major(m: MatrixView): nat
  {
    if m.order == RowMajor then m.rows else m.cols
  }

  /** Length of one line. */
  function Minor(m: MatrixView): nat
  {
    if m.order == RowMajor then m.cols else m.rows
  }

  /** Slots from the view's start up to one past its last cell. */
  function Extent(m: MatrixView): nat
  {
    if m.rows == 0 || m.cols == 0 then 0 else m.dist * (Major(m) - 1) + Minor(m)
  }

  /** Lines do not overlap: the leading distance covers a whole line. */
  predicate Regular(m: MatrixView)
  {
    m.dist >= Minor(m)
  }

  /** The window lies inside a buffer of length `len` (the caller's duty). */
  predicate Fits(m: MatrixView, len: nat)
  {
    m.offset + Extent(m) <= len
  }

  /** Line index and position within the line of cell (i, j). */
  function MajorIndex(m: MatrixView, i: nat, j: nat): nat
  {
    if m.order == RowMajor then i else j
  }

  function MinorIndex(m: MatrixView, i: nat, j: nat): nat
  {
    if m.order == RowMajor then j else i
  }

  lemma LinearInExtent(m: MatrixView, i: nat, j: nat)
    requires Regular(m) && i < m.rows && j < m.cols
    ensures Linear(m.order, m.dist, i, j) < Extent(m)
  {
    var a, b := MajorIndex(m, i, j), MinorIndex(m, i, j);
    assert Linear(m.order, m.dist, i, j) == a * m.dist + b;
    MulLeRight(a, Major(m) - 1, m.dist);
  }

  /** On a regular view, distinct in-range cells have distinct offsets. */
  lemma LinearInjective(m: MatrixView, i: nat, j: nat, i2: nat, j2: nat)
    requires Regular(m) && i < m.rows && j < m.cols && i2 < m.rows && j2 < m.cols
    requires Linear(m.order, m.dist, i, j) == Linear(m.order, m.dist, i2, j2)
    ensures i == i2 && j == j2
  {
    MajorMinorInjective(MajorIndex(m, i, j), MinorIndex(m, i, j), MajorIndex(m, i2, j2), MinorIndex(m, i2, j2), m.dist);
  }

  /**
   * The bound check with the evidently intended arithmetic: the leading
   * distance as stride, the extent of the view's own ordering, exact
   * (non-wrapping) integers, and an empty view rejecting every access.
   */
  function Index(m: MatrixView, i: nat, j: nat): (r: Checked<nat>)
    ensures r.Ok? ==> r.value == Linear(m.order, m.dist, i, j) && r.value < Extent(m)
    ensures m.rows == 0 || m.cols == 0 ==> r.OutOfRange?
    ensures Regular(m) && i < m.rows && j < m.cols ==> r.Ok?
  {
    var k := Linear(m.order, m.dist, i, j);
    assert Regular(m) && i < m.rows && j < m.cols ==> k < Extent(m) by {
      if Regular(m) && i < m.rows && j < m.cols {
        LinearInExtent(m, i, j);
      }
    }
    if k >= Extent(m) then OutOfRange(VIEW_OUT_OF_BOUNDS) else Ok(k)
  }

  /** `view(i, j)`, checked: never touches a slot outside the window. */
  function Get(m: MatrixView, heap: seq<int>, i: nat, j: nat): (r: Checked<int>)
    requires Fits(m, |heap|)
    ensures r.OutOfRange? <==> Linear(m.order, m.dist, i, j) >= Extent(m)
    ensures r.Ok? ==> r.value == heap[m.offset + Linear(m.order, m.dist, i, j)]
    ensures Regular(m) && i < m.rows && j < m.cols ==> r.Ok?
  {
    match Index(m, i, j)
    case Ok(k) => Ok(heap[m.offset + k])
    case OutOfRange(msg) => OutOfRange(msg)
  }

  /** An in-range cell of a regular view, read without the error path. */
  function Cell(m: MatrixView, heap: seq<int>, i: nat, j: nat): (x: int)
    requires Fits(m, |heap|) && Regular(m) && i < m.rows && j < m.cols
    ensures Get(m, heap, i, j) == Ok(x)
  {
    LinearInExtent(m, i, j);
    heap[m.offset + Linear(m.order, m.dist, i, j)]
  }

  /**
   * The offset `operator()` computes as written, before the 64-bit wrap: the
   * row count as stride. It is the cell's true offset when the distance
   * happens to equal the row count.
   */
  function RawIndex(m: MatrixView, i: nat, j: nat): (k: nat)
    ensures m.dist == m.rows ==> k == Linear(m.order, m.dist, i, j)
  {
    if m.order == RowMajor then i * m.rows + j else j * m.rows + i
  }

  predicate WordSized(m: MatrixView, i: nat, j: nat)
  {
    m.rows < WORD && m.cols < WORD && m.dist < WORD && i < WORD && j < WORD
  }

  /**
   * `operator()(i, j)` exactly as written: index `i*rows + j` (row-major) or
   * `j*rows + i` (column-major), rejected when `index >= dist*(rows-1) + cols`,
   * all modulo 2^64. When nothing wraps, it rejects exactly the offsets at or
   * past that extent and so touches no slot there.
   */
  function IndexAsWritten(m: MatrixView, i: nat, j: nat): (r: Checked<nat>)
    requires WordSized(m, i, j)
    ensures r.Ok? ==> r.value < WORD
    ensures 1 <= m.rows && m.dist * (m.rows - 1) + m.cols < WORD && RawIndex(m, i, j) < WORD ==>
      (r.OutOfRange? <==> RawIndex(m, i, j) >= m.dist * (m.rows - 1) + m.cols) &&
      (r.Ok? ==> r.value == RawIndex(m, i, j))
  {
    var k := Wrap(RawIndex(m, i, j));
    var bound := Wrap(m.dist * Wrap(m.rows - 1) + m.cols);
    NothingWraps(m, i, j);
    if k >= bound then OutOfRange(VIEW_OUT_OF_BOUNDS) else Ok(k)
  }

  /** Without overflow the 64-bit index and bound are the plain ones. */
  lemma NothingWraps(m: MatrixView, i: nat, j: nat)
    requires WordSized(m, i, j)
    ensures 1 <= m.rows && m.dist * (m.rows - 1) + m.cols < WORD && RawIndex(m, i, j) < WORD ==>
      Wrap(RawIndex(m, i, j)) == RawIndex(m, i, j) &&
      Wrap(m.dist * Wrap(m.rows - 1) + m.cols) == m.dist * (m.rows - 1) + m.cols
  {
    if 1 <= m.rows && m.dist * (m.rows - 1) + m.cols < WORD && RawIndex(m, i, j) < WORD {
      WrapSmall(RawIndex(m, i, j));
      BoundNoWrap(m.dist, m.rows - 1, m.cols);
    }
  }

  lemma BoundNoWrap(d: nat, r: nat, c: nat)
    requires r < WORD && d * r + c < WORD
    ensures Wrap(d * Wrap(r) + c) == d * r + c
  {
    WrapSmall(r);
    WrapSmall(d * r + c);
  }

  lemma WrapSmall(x: int)
    requires 0 <= x < WORD
    ensures Wrap(x) == x
  {
  }

  /**
   * On a square view whose distance is its row count (every square `Matrix`),
   * and while nothing wraps, the check as written agrees with the intended one.
   */
  lemma AsWrittenAgreesOnSquare(m: MatrixView, i: nat, j: nat)
    requires WordSized(m, i, j)
    requires 1 <= m.rows && m.rows == m.cols && m.dist == m.rows && m.rows * m.rows < WORD
    requires RawIndex(m, i, j) < WORD
    ensures IndexAsWritten(m, i, j) == Index(m, i, j)
  {
    assert m.dist * (m.rows - 1) + m.cols == m.rows * m.rows;
    assert Extent(m) == m.dist * (m.rows - 1) + m.cols;
    assert RawIndex(m, i, j) == Linear(m.order, m.dist, i, j);
  }

  /** Row-major 2x3 view, distance 3: cells (1,0) and (0,2) both land on offset 2. */
  lemma RowStrideUsesRowCount()
    ensures IndexAsWritten(MatrixView(2, 3, 3, 0, RowMajor), 1, 0) == Ok(2)
    ensures IndexAsWritten(MatrixView(2, 3, 3, 0, RowMajor), 0, 2) == Ok(2)
    ensures Index(MatrixView(2, 3, 3, 0, RowMajor), 1, 0) == Ok(3)
  {
  }

  /** A view with no rows: `rows - 1` wraps to 2^64-1, so offset 5 passes the check. */
  lemma ZeroRowsPassCheck()
    ensures IndexAsWritten(MatrixView(0, 0, 1, 0, RowMajor), 0, 5) == Ok(5)
    ensures Index(MatrixView(0, 0, 1, 0, RowMajor), 0, 5).OutOfRange?
  {
    assert Wrap(0 - 1) == WORD - 1;
    assert Wrap(1 * (WORD - 1) + 0) == WORD - 1;
  }

  /** Column-major 2x3 view, distance 2: the in-range cell (1,2) at offset 5 is rejected. */
  lemma ColMajorExtentTooShort()
    ensures IndexAsWritten(MatrixView(2, 3, 2, 0, ColMajor), 1, 2).OutOfRange?
    ensures Index(MatrixView(2, 3, 2, 0, ColMajor), 1, 2) == Ok(5)
  {
  }

  /** Row-major 2x2 view: row 2^63 wraps to offset 0 and reads cell (0,0). */
  lemma RowIndexWraps()
    ensures IndexAsWritten(MatrixView(2, 2, 2, 0, RowMajor), WORD / 2, 0) == Ok(0)
    ensures Index(MatrixView(2, 2, 2, 0, RowMajor), WORD / 2, 0).OutOfRange?
  {
  }
}
