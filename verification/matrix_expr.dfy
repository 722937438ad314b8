/**
 * The lazy matrix expressions of src/MatrixExpr.hpp: sums, differences,
 * scalings, transposes and products of matrix views, read cell by cell.
 */
module MatExprs {
  import opened MatrixViews
  import opened Matrices
  import opened Text
  import Arith

  /** View leaves and the `SumMatExpr`, `SubMatExpr`, `ScaleMatExpr`, `TransposeMatExpr`, `MatMulExpr` nodes. */
  datatype MatExpr =
    | Leaf(view: MatrixView)
    | SumExpr(a: MatExpr, b: MatExpr)
    | SubExpr(a: MatExpr, b: MatExpr)
    | ScaleExpr(scal: int, a: MatExpr)
    | TransposeExpr(a: MatExpr)
    | MatMulExpr(a: MatExpr, b: MatExpr)

  /** `rows()`: a product has its left factor's rows; a transpose swaps rows and columns. */
  function Rows(e: MatExpr): nat
  {
    match e
    case Leaf(m) => m.rows
    case SumExpr(a, _) => Rows(a)
    case SubExpr(a, _) => Rows(a)
    case ScaleExpr(_, a) => Rows(a)
    case TransposeExpr(a) => Cols(a)
    case MatMulExpr(a, _) => Rows(a)
  }

  /** `cols()`: a product has its right factor's columns. */
  function Cols(e: MatExpr): nat
  {
    match e
    case Leaf(m) => m.cols
    case SumExpr(a, _) => Cols(a)
    case SubExpr(a, _) => Cols(a)
    case ScaleExpr(_, a) => Cols(a)
    case TransposeExpr(a) => Rows(a)
    case MatMulExpr(_, b) => Cols(b)
  }

  /**
   * Leaves are regular views inside a buffer of length `len`; sum and
   * difference operands agree in shape; a product's inner dimensions agree.
   */
  predicate WellFormed(e: MatExpr, len: nat)
  {
    match e
    case Leaf(m) => Fits(m, len) && Regular(m)
    case SumExpr(a, b) => WellFormed(a, len) && WellFormed(b, len) && Rows(a) == Rows(b) && Cols(a) == Cols(b)
    case SubExpr(a, b) => WellFormed(a, len) && WellFormed(b, len) && Rows(a) == Rows(b) && Cols(a) == Cols(b)
    case ScaleExpr(_, a) => WellFormed(a, len)
    case TransposeExpr(a) => WellFormed(a, len)
    case MatMulExpr(a, b) => WellFormed(a, len) && WellFormed(b, len) && Cols(a) == Rows(b)
  }

  /** `operator()(i, j)` of each node. */
  function Read(e: MatExpr, heap: seq<int>, i: nat, j: nat): int
    requires WellFormed(e, |heap|) && i < Rows(e) && j < Cols(e)
    decreases e, 1, 0
  {
    match e
    case Leaf(m) => Cell(m, heap, i, j)
    case SumExpr(a, b) => Read(a, heap, i, j) + Read(b, heap, i, j)
    case SubExpr(a, b) => Read(a, heap, i, j) - Read(b, heap, i, j)
    case ScaleExpr(s, a) => s * Read(a, heap, i, j)
    case TransposeExpr(a) => Read(a, heap, j, i)
    case MatMulExpr(a, b) => ProductSum(a, b, heap, i, j, Cols(a))
  }

  /** Sum of `a(i,k) * b(k,j)` over k < n, accumulated from zero in order of k. */
  function ProductSum(a: MatExpr, b: MatExpr, heap: seq<int>, i: nat, j: nat, n: nat): int
    requires WellFormed(a, |heap|) && WellFormed(b, |heap|) && Cols(a) == Rows(b)
    requires i < Rows(a) && j < Cols(b) && n <= Cols(a)
    decreases MatMulExpr(a, b), 0, n
  {
    if n == 0 then 0 else ProductSum(a, b, heap, i, j, n - 1) + Read(a, heap, i, n - 1) * Read(b, heap, n - 1, j)
  }

  /** `a + b`: requires equal shapes; cell (i,j) is `a(i,j) + b(i,j)`. */
  function Plus(a: MatExpr, b: MatExpr): (r: MatExpr)
    requires Rows(a) == Rows(b) && Cols(a) == Cols(b)
    ensures Rows(r) == Rows(a) && Cols(r) == Cols(a)
    ensures forall len: nat :: WellFormed(a, len) && WellFormed(b, len) ==> WellFormed(r, len)
    ensures forall heap: seq<int>, i: nat, j: nat ::
      WellFormed(a, |heap|) && WellFormed(b, |heap|) && i < Rows(a) && j < Cols(a) ==>
        Read(r, heap, i, j) == Read(a, heap, i, j) + Read(b, heap, i, j)
  {
    SumExpr(a, b)
  }

  /** `a - b`: requires equal shapes; cell (i,j) is `a(i,j) - b(i,j)`. */
  function Minus(a: MatExpr, b: MatExpr): (r: MatExpr)
    requires Rows(a) == Rows(b) && Cols(a) == Cols(b)
    ensures Rows(r) == Rows(a) && Cols(r) == Cols(a)
    ensures forall len: nat :: WellFormed(a, len) && WellFormed(b, len) ==> WellFormed(r, len)
    ensures forall heap: seq<int>, i: nat, j: nat ::
      WellFormed(a, |heap|) && WellFormed(b, |heap|) && i < Rows(a) && j < Cols(a) ==>
        Read(r, heap, i, j) == Read(a, heap, i, j) - Read(b, heap, i, j)
  {
    SubExpr(a, b)
  }

  /** `s * A`: same shape; cell (i,j) is `s * A(i,j)`. */
  function Times(s: int, a: MatExpr): (r: MatExpr)
    ensures Rows(r) == Rows(a) && Cols(r) == Cols(a)
    ensures forall len: nat :: WellFormed(a, len) ==> WellFormed(r, len)
    ensures forall heap: seq<int>, i: nat, j: nat ::
      WellFormed(a, |heap|) && i < Rows(a) && j < Cols(a) ==> Read(r, heap, i, j) == s * Read(a, heap, i, j)
  {
    ScaleExpr(s, a)
  }

  /** `transpose(A)`: shape (A.cols, A.rows); cell (i,j) is `A(j,i)`. */
  function Transpose(a: MatExpr): (r: MatExpr)
    ensures Rows(r) == Cols(a) && Cols(r) == Rows(a)
    ensures forall len: nat :: WellFormed(a, len) ==> WellFormed(r, len)
    ensures forall heap: seq<int>, i: nat, j: nat ::
      WellFormed(a, |heap|) && i < Cols(a) && j < Rows(a) ==> Read(r, heap, i, j) == Read(a, heap, j, i)
  {
    TransposeExpr(a)
  }

  /** `MatMulExpr(a, b)`: shape (a.rows, b.cols); cell (i,j) sums `a(i,k)*b(k,j)` over k < a.cols. */
  function Product(a: MatExpr, b: MatExpr): (r: MatExpr)
    requires Cols(a) == Rows(b)
    ensures Rows(r) == Rows(a) && Cols(r) == Cols(b)
    ensures forall len: nat :: WellFormed(a, len) && WellFormed(b, len) ==> WellFormed(r, len)
    ensures forall heap: seq<int>, i: nat, j: nat ::
      WellFormed(a, |heap|) && WellFormed(b, |heap|) && i < Rows(a) && j < Cols(b) ==>
        Read(r, heap, i, j) == ProductSum(a, b, heap, i, j, Cols(a))
  {
    MatMulExpr(a, b)
  }

  /** Transposing twice restores the shape and every cell. */
  lemma TransposeInvolutive(a: MatExpr, heap: seq<int>, i: nat, j: nat)
    requires WellFormed(a, |heap|) && i < Rows(a) && j < Cols(a)
    ensures Rows(Transpose(Transpose(a))) == Rows(a) && Cols(Transpose(Transpose(a))) == Cols(a)
    ensures WellFormed(Transpose(Transpose(a)), |heap|)
    ensures Read(Transpose(Transpose(a)), heap, i, j) == Read(a, heap, i, j)
  {
  }

  /** A difference with itself reads zero everywhere; adding back what was subtracted restores `a`. */
  lemma MinusCancels(a: MatExpr, b: MatExpr, heap: seq<int>, i: nat, j: nat)
    requires WellFormed(a, |heap|) && WellFormed(b, |heap|) && Rows(a) == Rows(b) && Cols(a) == Cols(b)
    requires i < Rows(a) && j < Cols(a)
    ensures Read(Minus(a, a), heap, i, j) == 0
    ensures Read(Plus(Minus(a, b), b), heap, i, j) == Read(a, heap, i, j)
  {
  }

  /** Scaling distributes over a sum. */
  lemma TimesDistributes(s: int, a: MatExpr, b: MatExpr, heap: seq<int>, i: nat, j: nat)
    requires WellFormed(a, |heap|) && WellFormed(b, |heap|) && Rows(a) == Rows(b) && Cols(a) == Cols(b)
    requires i < Rows(a) && j < Cols(a)
    ensures WellFormed(Times(s, Plus(a, b)), |heap|)
    ensures Read(Times(s, Plus(a, b)), heap, i, j) == Read(Plus(Times(s, a), Times(s, b)), heap, i, j)
  {
    var x, y := Read(a, heap, i, j), Read(b, heap, i, j);
    assert Read(Plus(a, b), heap, i, j) == x + y;
    assert Read(Times(s, Plus(a, b)), heap, i, j) == s * (x + y);
    assert Read(Plus(Times(s, a), Times(s, b)), heap, i, j) == s * x + s * y;
    Arith.MulDistributes(s, x, y);
  }

  /** Scaling twice scales by the product of the scalars. */
  lemma TimesTwice(s: int, t: int, a: MatExpr, heap: seq<int>, i: nat, j: nat)
    requires WellFormed(a, |heap|) && i < Rows(a) && j < Cols(a)
    ensures WellFormed(Times(s, Times(t, a)), |heap|)
    ensures Read(Times(s, Times(t, a)), heap, i, j) == Read(Times(s * t, a), heap, i, j)
  {
    var x := Read(a, heap, i, j);
    assert s * (t * x) == (s * t) * x;
  }

  lemma {:induction false} ProductSumTransposed(a: MatExpr, b: MatExpr, heap: seq<int>, i: nat, j: nat, n: nat)
    requires WellFormed(a, |heap|) && WellFormed(b, |heap|) && Cols(a) == Rows(b)
    requires i < Cols(b) && j < Rows(a) && n <= Cols(a)
    ensures ProductSum(a, b, heap, j, i, n) == ProductSum(Transpose(b), Transpose(a), heap, i, j, n)
  {
    if n > 0 {
      ProductSumTransposed(a, b, heap, i, j, n - 1);
      var x, y := Read(a, heap, j, n - 1), Read(b, heap, n - 1, i);
      assert Read(Transpose(b), heap, i, n - 1) == y;
      assert Read(Transpose(a), heap, n - 1, j) == x;
      assert x * y == y * x;
    }
  }

  /** The transpose of a product is the product of the transposes in reverse order. */
  lemma TransposeOfProduct(a: MatExpr, b: MatExpr, heap: seq<int>, i: nat, j: nat)
    requires WellFormed(a, |heap|) && WellFormed(b, |heap|) && Cols(a) == Rows(b)
    requires i < Cols(b) && j < Rows(a)
    ensures Rows(Transpose(Product(a, b))) == Rows(Product(Transpose(b), Transpose(a)))
    ensures Cols(Transpose(Product(a, b))) == Cols(Product(Transpose(b), Transpose(a)))
    ensures Read(Transpose(Product(a, b)), heap, i, j) == Read(Product(Transpose(b), Transpose(a)), heap, i, j)
  {
    ProductSumTransposed(a, b, heap, i, j, Cols(a));
  }

  lemma {:induction false} ProductSumOverSum(a: MatExpr, b: MatExpr, c: MatExpr, heap: seq<int>, i: nat, j: nat, n: nat)
    requires WellFormed(a, |heap|) && WellFormed(SumExpr(b, c), |heap|) && Cols(a) == Rows(b)
    requires i < Rows(a) && j < Cols(b) && n <= Cols(a)
    ensures ProductSum(a, SumExpr(b, c), heap, i, j, n) == ProductSum(a, b, heap, i, j, n) + ProductSum(a, c, heap, i, j, n)
    decreases n
  {
    if n > 0 {
      ProductSumOverSum(a, b, c, heap, i, j, n - 1);
      Arith.MulDistributes(Read(a, heap, i, n - 1), Read(b, heap, n - 1, j), Read(c, heap, n - 1, j));
    }
  }

  /** The product distributes over a sum in its right factor. */
  lemma ProductDistributes(a: MatExpr, b: MatExpr, c: MatExpr, heap: seq<int>, i: nat, j: nat)
    requires WellFormed(a, |heap|) && WellFormed(b, |heap|) && WellFormed(c, |heap|)
    requires Cols(a) == Rows(b) && Rows(b) == Rows(c) && Cols(b) == Cols(c)
    requires i < Rows(a) && j < Cols(b)
    ensures WellFormed(SumExpr(b, c), |heap|) && Cols(SumExpr(b, c)) == Cols(b)
    ensures WellFormed(MatMulExpr(a, SumExpr(b, c)), |heap|) && Cols(MatMulExpr(a, SumExpr(b, c))) == Cols(b)
    ensures Cols(MatMulExpr(a, b)) == Cols(b) && Cols(MatMulExpr(a, c)) == Cols(b)
    ensures WellFormed(SumExpr(MatMulExpr(a, b), MatMulExpr(a, c)), |heap|)
    ensures Read(MatMulExpr(a, SumExpr(b, c)), heap, i, j)
      == Read(SumExpr(MatMulExpr(a, b), MatMulExpr(a, c)), heap, i, j)
  {
    ProductSumOverSum(a, b, c, heap, i, j, Cols(a));
  }

  /** An owning matrix used as an operand reads exactly its checked cells. */
  lemma MatrixLeafReads(m: Matrix, heap: seq<int>, i: nat, j: nat)
    requires Matrices.Valid(m, |heap|) && m.data.At? && i < m.rows && j < m.cols
    ensures WellFormed(Leaf(AsView(m)), |heap|)
    ensures Matrices.Get(m, heap, i, j).Ok? && Read(Leaf(AsView(m)), heap, i, j) == Matrices.Get(m, heap, i, j).value
  {
  }

  /** Reference rendering: the concatenation of the parts. */
  function Concat(parts: seq<string>): string
  {
    if |parts| == 0 then "" else Concat(parts[..|parts| - 1]) + parts[|parts| - 1]
  }

  lemma ConcatPrefixStep(parts: seq<string>, n: nat)
    requires 0 < n <= |parts|
    ensures Concat(parts[..n]) == Concat(parts[..n - 1]) + parts[n - 1]
  {
    assert parts[..n][..n - 1] == parts[..n - 1];
  }

  lemma {:induction false} ConcatCount(parts: seq<string>, c: char, each: nat)
    requires forall k :: 0 <= k < |parts| ==> Occurrences(parts[k], c) == each
    ensures Occurrences(Concat(parts), c) == |parts| * each
    decreases |parts|
  {
    if |parts| > 0 {
      var init := parts[..|parts| - 1];
      ConcatCount(init, c, each);
      OccurrencesAppend(Concat(init), parts[|parts| - 1], c);
      Arith.MulSucc(|init|, each);
    }
  }

  /** Row i rendered: its cells in column order with no separator. */
  function RowCells(e: MatExpr, heap: seq<int>, i: nat): (r: seq<string>)
    requires WellFormed(e, |heap|) && i < Rows(e)
    ensures |r| == Cols(e)
    ensures forall j :: 0 <= j < |r| ==> r[j] == IntToString(Read(e, heap, i, j))
  {
    seq(Cols(e), j requires 0 <= j < Cols(e) => IntToString(Read(e, heap, i, j)))
  }

  /** One line per row, each ending in a line break. */
  function OutputLines(e: MatExpr, heap: seq<int>): (r: seq<string>)
    requires WellFormed(e, |heap|)
    ensures |r| == Rows(e)
  {
    seq(Rows(e), i requires 0 <= i < Rows(e) => Concat(RowCells(e, heap, i)) + "\n")
  }

  /** Line i is row i's cells in column order, then a line break. */
  lemma LineAt(e: MatExpr, heap: seq<int>, i: nat)
    requires WellFormed(e, |heap|) && i < Rows(e)
    ensures OutputLines(e, heap)[i] == Concat(RowCells(e, heap, i)) + "\n"
  {
  }

  /** The inner loop: the first n cells of row i. */
  function RowText(e: MatExpr, heap: seq<int>, i: nat, n: nat): string
    requires WellFormed(e, |heap|) && i < Rows(e) && n <= Cols(e)
  {
    if n == 0 then "" else RowText(e, heap, i, n - 1) + IntToString(Read(e, heap, i, n - 1))
  }

  /** One pass of the outer loop: row i, then "\n". */
  function LineText(e: MatExpr, heap: seq<int>, i: nat): string
    requires WellFormed(e, |heap|) && i < Rows(e)
  {
    RowText(e, heap, i, Cols(e)) + "\n"
  }

  /** The outer loop: the first n rows, each followed by "\n". */
  function RowsText(e: MatExpr, heap: seq<int>, n: nat): string
    requires WellFormed(e, |heap|) && n <= Rows(e)
  {
    if n == 0 then "" else RowsText(e, heap, n - 1) + LineText(e, heap, n - 1)
  }

  lemma {:induction false} RowTextIsConcat(e: MatExpr, heap: seq<int>, i: nat, n: nat)
    requires WellFormed(e, |heap|) && i < Rows(e) && n <= Cols(e)
    ensures RowText(e, heap, i, n) == Concat(RowCells(e, heap, i)[..n])
    decreases n
  {
    if n > 0 {
      RowTextIsConcat(e, heap, i, n - 1);
      ConcatPrefixStep(RowCells(e, heap, i), n);
    }
  }

  lemma LineIsRowText(e: MatExpr, heap: seq<int>, i: nat)
    requires WellFormed(e, |heap|) && i < Rows(e)
    ensures OutputLines(e, heap)[i] == LineText(e, heap, i)
  {
    var cells := RowCells(e, heap, i);
    LineAt(e, heap, i);
    RowTextIsConcat(e, heap, i, Cols(e));
    assert cells[..Cols(e)] == cells;
  }

  lemma {:induction false} RowsTextIsConcat(e: MatExpr, heap: seq<int>, n: nat)
    requires WellFormed(e, |heap|) && n <= Rows(e)
    ensures RowsText(e, heap, n) == Concat(OutputLines(e, heap)[..n])
    decreases n
  {
    if n > 0 {
      var lines := OutputLines(e, heap);
      RowsTextIsConcat(e, heap, n - 1);
      LineIsRowText(e, heap, n - 1);
      ConcatPrefixStep(lines, n);
      assert Concat(lines[..n]) == Concat(lines[..n - 1]) + LineText(e, heap, n - 1);
    }
  }

  lemma LinesNewlines(e: MatExpr, heap: seq<int>)
    requires WellFormed(e, |heap|)
    ensures Occurrences(Concat(OutputLines(e, heap)), '\n') == Rows(e)
  {
    var lines := OutputLines(e, heap);
    forall i | 0 <= i < |lines|
      ensures Occurrences(lines[i], '\n') == 1
    {
      LineAt(e, heap, i);
      var cells := RowCells(e, heap, i);
      forall j | 0 <= j < |cells|
        ensures Occurrences(cells[j], '\n') == 0
      {
        ElementHasNoSeparator(Read(e, heap, i, j));
      }
      ConcatCount(cells, '\n', 0);
      OccurrencesAppend(Concat(cells), "\n", '\n');
    }
    ConcatCount(lines, '\n', 1);
  }

  /**
   * `os << A`: one line per row, each holding that row's cells in column
   * order with no separator and ending in "\n".
   */
  function Render(e: MatExpr, heap: seq<int>): (r: string)
    requires WellFormed(e, |heap|)
    ensures r == Concat(OutputLines(e, heap))
  {
    RowsTextIsConcat(e, heap, Rows(e));
    assert OutputLines(e, heap)[..Rows(e)] == OutputLines(e, heap);
    RowsText(e, heap, Rows(e))
  }

  /** The output holds exactly `rows` line breaks. */
  lemma RenderNewlines(e: MatExpr, heap: seq<int>)
    requires WellFormed(e, |heap|)
    ensures Occurrences(Render(e, heap), '\n') == Rows(e)
  {
    LinesNewlines(e, heap);
  }

  /**
   * What the library actually evaluates: `SubMatExpr<A,B>` derives from
   * `MatExpr<SumMatExpr<A,B>>`, so wherever a difference is reached through
   * its `MatExpr` base (as an operand of another operator, or by `<<`) it is
   * reinterpreted as the sum of the same operands.
   */
  function SeenThroughBase(e: MatExpr): (r: MatExpr)
    ensures Rows(r) == Rows(e) && Cols(r) == Cols(e)
    ensures forall len: nat :: WellFormed(e, len) ==> WellFormed(r, len)
  {
    match e
    case Leaf(m) => e
    case SumExpr(a, b) => SumExpr(SeenThroughBase(a), SeenThroughBase(b))
    case SubExpr(a, b) => SumExpr(SeenThroughBase(a), SeenThroughBase(b))
    case ScaleExpr(s, a) => ScaleExpr(s, SeenThroughBase(a))
    case TransposeExpr(a) => TransposeExpr(SeenThroughBase(a))
    case MatMulExpr(a, b) => MatMulExpr(SeenThroughBase(a), SeenThroughBase(b))
  }

  /** `os << A` as the library evaluates it: still one line per row. */
  function RenderAsWritten(e: MatExpr, heap: seq<int>): (r: string)
    requires WellFormed(e, |heap|)
    ensures Occurrences(r, '\n') == Rows(e)
  {
    RenderNewlines(SeenThroughBase(e), heap);
    Render(SeenThroughBase(e), heap)
  }

  /** A 1x1 expression prints as its single cell and a line break. */
  lemma RenderSingleCell(e: MatExpr, heap: seq<int>)
    requires WellFormed(e, |heap|) && Rows(e) == 1 && Cols(e) == 1
    ensures Render(e, heap) == IntToString(Read(e, heap, 0, 0)) + "\n"
  {
    var x := IntToString(Read(e, heap, 0, 0));
    assert RowCells(e, heap, 0) == [x];
    assert Concat([x]) == x;
    assert OutputLines(e, heap) == [x + "\n"];
    assert Concat([x + "\n"]) == x + "\n";
  }

  /** Through its base a difference reads as the sum of its operands. */
  lemma DifferenceReadsAsSum(a: MatExpr, b: MatExpr, heap: seq<int>, i: nat, j: nat)
    requires WellFormed(a, |heap|) && WellFormed(b, |heap|) && Rows(a) == Rows(b) && Cols(a) == Cols(b)
    requires i < Rows(a) && j < Cols(a)
    ensures Read(SeenThroughBase(Minus(a, b)), heap, i, j)
      == Read(SeenThroughBase(a), heap, i, j) + Read(SeenThroughBase(b), heap, i, j)
  {
  }

  /**
   * `(a - a) + b` read at a cell. The difference reaches `operator+` through
   * its `MatExpr` base, so the library adds `a` twice where it should cancel.
   * The element read itself calls neither `rows()` nor `cols()`; only the
   * operators' shape asserts do, and those vanish under NDEBUG.
   */
  lemma DifferenceOperandDoubles(a: MatExpr, b: MatExpr, heap: seq<int>, i: nat, j: nat)
    requires WellFormed(a, |heap|) && WellFormed(b, |heap|) && Rows(a) == Rows(b) && Cols(a) == Cols(b)
    requires i < Rows(a) && j < Cols(a)
    ensures WellFormed(SeenThroughBase(SumExpr(SubExpr(a, a), b)), |heap|)
    ensures Read(SeenThroughBase(SumExpr(SubExpr(a, a), b)), heap, i, j)
      == 2 * Read(SeenThroughBase(a), heap, i, j) + Read(SeenThroughBase(b), heap, i, j)
  {
    assert Rows(SubExpr(a, a)) == Rows(a) && Cols(SubExpr(a, a)) == Cols(a);
    assert WellFormed(SumExpr(SubExpr(a, a), b), |heap|);
  }

  /** With the difference read as a difference, `(a - a) + b` reads as `b`. */
  lemma DifferenceOperandCancels(a: MatExpr, b: MatExpr, heap: seq<int>, i: nat, j: nat)
    requires WellFormed(a, |heap|) && WellFormed(b, |heap|) && Rows(a) == Rows(b) && Cols(a) == Cols(b)
    requires i < Rows(a) && j < Cols(a)
    ensures WellFormed(Plus(Minus(a, a), b), |heap|)
    ensures Read(Plus(Minus(a, a), b), heap, i, j) == Read(b, heap, i, j)
  {
  }

  /**
   * `(a - b) + b` as the library evaluates it: the difference is read as
   * `a + b`, so `b` is counted twice instead of cancelling (compare
   * `MinusCancels`, which reads the difference as intended).
   */
  lemma MinusThenPlusAsWritten(a: MatExpr, b: MatExpr, heap: seq<int>, i: nat, j: nat)
    requires WellFormed(a, |heap|) && WellFormed(b, |heap|) && Rows(a) == Rows(b) && Cols(a) == Cols(b)
    requires i < Rows(a) && j < Cols(a)
    ensures WellFormed(SeenThroughBase(SumExpr(SubExpr(a, b), b)), |heap|)
    ensures Read(SeenThroughBase(SumExpr(SubExpr(a, b), b)), heap, i, j)
      == Read(SeenThroughBase(a), heap, i, j) + 2 * Read(SeenThroughBase(b), heap, i, j)
  {
    assert Rows(SubExpr(a, b)) == Rows(a) && Cols(SubExpr(a, b)) == Cols(a);
    assert WellFormed(SumExpr(SubExpr(a, b), b), |heap|);
  }

  /** The 1x1 view of the buffer [1]. */
  lemma UnitLeaf(a: MatExpr, heap: seq<int>)
    requires a == Leaf(MatrixView(1, 1, 1, 0, RowMajor)) && heap == [1]
    ensures WellFormed(a, |heap|) && Rows(a) == 1 && Cols(a) == 1
    ensures SeenThroughBase(a) == a
    ensures Read(a, heap, 0, 0) == 1
  {
    assert Cell(a.view, heap, 0, 0) == 1;
  }

  /** `A - A` for a 1x1 leaf prints zero, but the library prints twice the cell. */
  lemma SelfDifferencePrintsDouble(a: MatExpr, heap: seq<int>)
    requires WellFormed(a, |heap|) && Rows(a) == 1 && Cols(a) == 1 && SeenThroughBase(a) == a
    ensures WellFormed(Minus(a, a), |heap|)
    ensures Render(Minus(a, a), heap) == "0\n"
    ensures RenderAsWritten(Minus(a, a), heap) == IntToString(2 * Read(a, heap, 0, 0)) + "\n"
  {
    SelfDifferencePrintsZero(a, heap);
    SelfDifferencePrintsSum(a, heap);
  }

  /** The intended half: a 1x1 `A - A` prints 0. */
  lemma SelfDifferencePrintsZero(a: MatExpr, heap: seq<int>)
    requires WellFormed(a, |heap|) && Rows(a) == 1 && Cols(a) == 1
    ensures WellFormed(Minus(a, a), |heap|)
    ensures Render(Minus(a, a), heap) == "0\n"
  {
    var d := SubExpr(a, a);
    assert Minus(a, a) == d;
    assert Read(d, heap, 0, 0) == 0;
    RenderSingleCell(d, heap);
    DigitsPrint();
  }

  /** The as-written half: through its base, a 1x1 `A - A` prints `A + A`. */
  lemma SelfDifferencePrintsSum(a: MatExpr, heap: seq<int>)
    requires WellFormed(a, |heap|) && Rows(a) == 1 && Cols(a) == 1 && SeenThroughBase(a) == a
    ensures WellFormed(Minus(a, a), |heap|)
    ensures RenderAsWritten(Minus(a, a), heap) == IntToString(2 * Read(a, heap, 0, 0)) + "\n"
  {
    var d, w := SubExpr(a, a), SumExpr(a, a);
    assert Minus(a, a) == d && SeenThroughBase(d) == w;
    assert Read(w, heap, 0, 0) == 2 * Read(a, heap, 0, 0);
    RenderSingleCell(w, heap);
    assert RenderAsWritten(d, heap) == Render(w, heap);
  }

  lemma DigitsPrint()
    ensures IntToString(0) == "0" && IntToString(2) == "2"
  {
  }

  /**
   * `((A - A) + A)(0, 0)` for the 1x1 matrix [1] (whose as-written index
   * agrees with the corrected one) reads 3 instead of 1.
   */
  lemma DifferenceOperandReadsThree(a: MatExpr, heap: seq<int>)
    requires a == Leaf(MatrixView(1, 1, 1, 0, RowMajor)) && heap == [1]
    ensures WellFormed(SumExpr(SubExpr(a, a), a), |heap|)
    ensures Read(SeenThroughBase(SumExpr(SubExpr(a, a), a)), heap, 0, 0) == 3
    ensures Read(SumExpr(SubExpr(a, a), a), heap, 0, 0) == 1
  {
    UnitLeaf(a, heap);
    DifferenceOperandDoubles(a, a, heap, 0, 0);
  }

  /** Printing `A - A` for the 1x1 matrix [1] gives "2\n" instead of "0\n". */
  lemma DifferencePrintsAsSum(a: MatExpr, heap: seq<int>)
    requires a == Leaf(MatrixView(1, 1, 1, 0, RowMajor)) && heap == [1]
    ensures WellFormed(Minus(a, a), |heap|)
    ensures RenderAsWritten(Minus(a, a), heap) == "2\n"
    ensures Render(Minus(a, a), heap) == "0\n"
  {
    UnitLeaf(a, heap);
    SelfDifferencePrintsDouble(a, heap);
    DigitsPrint();
  }
}
