/**
 * The lazy vector expressions of src/vecexpr.hpp: a tree whose leaves are
 * views and whose inner nodes compute each element on demand from their
 * operands' elements. Nothing is stored; reading an element walks the tree.
 */
module VecExprs {
  import opened VectorViews
  import opened Text

  /** `VectorView` leaves, `SumVecExpr` and `ScaleVecExpr` nodes. */
  datatype VecExpr =
    | View(view: VectorView)
    | SumExpr(a: VecExpr, b: VecExpr)
    | ScaleExpr(scal: int, vec: VecExpr)

  /** `size()`: a sum reports its left operand's size, a scaling its operand's. */
  function Size(e: VecExpr): nat
  {
    match e
    case View(v) => v.size
    case SumExpr(a, _) => Size(a)
    case ScaleExpr(_, x) => Size(x)
  }

  /**
   * Every leaf fits a buffer of length `len`, and the operands of every sum
   * have equal sizes (what `operator+` asserts when the node is built).
   */
  predicate WellFormed(e: VecExpr, len: nat)
  {
    match e
    case View(v) => Fits(v, len)
    case SumExpr(a, b) => WellFormed(a, len) && WellFormed(b, len) && Size(a) == Size(b)
    case ScaleExpr(_, x) => WellFormed(x, len)
  }

  /** `operator()(i)` of each node, evaluated against the current buffer. */
  function Read(e: VecExpr, heap: seq<int>, i: nat): int
    requires WellFormed(e, |heap|) && i < Size(e)
  {
    match e
    case View(v) => Get(v, heap, i)
    case SumExpr(a, b) => Read(a, heap, i) + Read(b, heap, i)
    case ScaleExpr(s, x) => s * Read(x, heap, i)
  }

  /** The buffer slots that reading element i consults. */
  function Footprint(e: VecExpr, i: nat): set<nat>
  {
    match e
    case View(v) => {Slot(v, i)}
    case SumExpr(a, b) => Footprint(a, i) + Footprint(b, i)
    case ScaleExpr(_, x) => Footprint(x, i)
  }

  lemma {:induction false} FootprintWithin(e: VecExpr, len: nat, i: nat)
    requires WellFormed(e, len) && i < Size(e)
    ensures forall p :: p in Footprint(e, i) ==> p < len
  {
    match e
    case View(v) =>
    case SumExpr(a, b) =>
      FootprintWithin(a, len, i);
      FootprintWithin(b, len, i);
    case ScaleExpr(_, x) =>
      FootprintWithin(x, len, i);
  }

  lemma {:induction false} WellFormedGrow(e: VecExpr, len: nat, len2: nat)
    requires WellFormed(e, len) && len <= len2
    ensures WellFormed(e, len2)
  {
    match e
    case View(v) =>
    case SumExpr(a, b) =>
      WellFormedGrow(a, len, len2);
      WellFormedGrow(b, len, len2);
    case ScaleExpr(_, x) =>
      WellFormedGrow(x, len, len2);
  }

  /**
   * Reading is a pure function of the footprint: two buffers that agree on the
   * slots element i consults give the same element.
   */
  lemma {:induction false} ReadFrame(e: VecExpr, h1: seq<int>, h2: seq<int>, i: nat)
    requires WellFormed(e, |h1|) && WellFormed(e, |h2|) && i < Size(e)
    requires forall p :: p in Footprint(e, i) ==> p < |h1| && p < |h2| && h1[p] == h2[p]
    ensures Read(e, h1, i) == Read(e, h2, i)
  {
    match e
    case View(v) =>
      assert Slot(v, i) in Footprint(e, i);
    case SumExpr(a, b) =>
      assert Footprint(e, i) == Footprint(a, i) + Footprint(b, i);
      ReadFrame(a, h1, h2, i);
      ReadFrame(b, h1, h2, i);
    case ScaleExpr(_, x) =>
      assert Footprint(e, i) == Footprint(x, i);
      ReadFrame(x, h1, h2, i);
  }

  /** `a + b`: requires equal sizes; element i is `a(i) + b(i)`. */
  function Plus(a: VecExpr, b: VecExpr): (r: VecExpr)
    requires Size(a) == Size(b)
    ensures Size(r) == Size(a)
    ensures forall len: nat :: WellFormed(a, len) && WellFormed(b, len) ==> WellFormed(r, len)
    ensures forall heap: seq<int>, i: nat ::
      WellFormed(a, |heap|) && WellFormed(b, |heap|) && i < Size(a) ==>
        Read(r, heap, i) == Read(a, heap, i) + Read(b, heap, i)
  {
    SumExpr(a, b)
  }

  /** `scal * v`: same size; element i is `scal * v(i)`. */
  function Times(scal: int, v: VecExpr): (r: VecExpr)
    ensures Size(r) == Size(v)
    ensures forall len: nat :: WellFormed(v, len) ==> WellFormed(r, len)
    ensures forall heap: seq<int>, i: nat ::
      WellFormed(v, |heap|) && i < Size(v) ==> Read(r, heap, i) == scal * Read(v, heap, i)
  {
    ScaleExpr(scal, v)
  }

  /** Nested expressions such as `x + 3*y` read element-wise through every level. */
  lemma PlusTimesReads(x: VecExpr, s: int, y: VecExpr, heap: seq<int>, i: nat)
    requires Size(x) == Size(y) && WellFormed(x, |heap|) && WellFormed(y, |heap|) && i < Size(x)
    ensures WellFormed(Plus(x, Times(s, y)), |heap|)
    ensures Read(Plus(x, Times(s, y)), heap, i) == Read(x, heap, i) + s * Read(y, heap, i)
  {
  }

  /** Sum of `a(k)*b(k)` over k < n, accumulated from 0 in index order. */
  function DotSum(a: VecExpr, b: VecExpr, heap: seq<int>, n: nat): int
    requires WellFormed(a, |heap|) && WellFormed(b, |heap|) && n <= Size(a) && n <= Size(b)
  {
    if n == 0 then 0 else DotSum(a, b, heap, n - 1) + Read(a, heap, n - 1) * Read(b, heap, n - 1)
  }

  /** `dot(a, b)`: requires equal sizes; the loop adds `a(i)*b(i)` to a zero accumulator. */
  method Dot(a: VecExpr, b: VecExpr, heap: seq<int>) returns (sum: int)
    requires WellFormed(a, |heap|) && WellFormed(b, |heap|) && Size(a) == Size(b)
    ensures sum == DotSum(a, b, heap, Size(a))
    ensures Size(a) == 0 ==> sum == 0
  {
    sum := 0;
    for i := 0 to Size(a)
      invariant sum == DotSum(a, b, heap, i)
    {
      sum := sum + Read(a, heap, i) * Read(b, heap, i);
    }
  }

  lemma {:induction false} DotSymmetric(a: VecExpr, b: VecExpr, heap: seq<int>, n: nat)
    requires WellFormed(a, |heap|) && WellFormed(b, |heap|) && n <= Size(a) && n <= Size(b)
    ensures DotSum(a, b, heap, n) == DotSum(b, a, heap, n)
  {
    if n > 0 {
      DotSymmetric(a, b, heap, n - 1);
    }
  }

  /** Over exact elements, `dot(x, x)` is a sum of squares. */
  lemma {:induction false} DotSelfNonNegative(x: VecExpr, heap: seq<int>, n: nat)
    requires WellFormed(x, |heap|) && n <= Size(x)
    ensures DotSum(x, x, heap, n) >= 0
  {
    if n > 0 {
      DotSelfNonNegative(x, heap, n - 1);
    }
  }

  lemma {:induction false} DotScaleLeft(s: int, a: VecExpr, b: VecExpr, heap: seq<int>, n: nat)
    requires WellFormed(a, |heap|) && WellFormed(b, |heap|) && n <= Size(a) && n <= Size(b)
    ensures DotSum(ScaleExpr(s, a), b, heap, n) == s * DotSum(a, b, heap, n)
  {
    if n > 0 {
      DotScaleLeft(s, a, b, heap, n - 1);
      var x, y, d := Read(a, heap, n - 1), Read(b, heap, n - 1), DotSum(a, b, heap, n - 1);
      assert Read(ScaleExpr(s, a), heap, n - 1) == s * x;
      ScaleOverProductSum(s, d, x, y);
    }
  }

  lemma ScaleOverProductSum(s: int, d: int, x: int, y: int)
    ensures s * d + (s * x) * y == s * (d + x * y)
  {
    assert (s * x) * y == s * (x * y);
  }

  lemma {:induction false} DotPlusLeft(a: VecExpr, b: VecExpr, c: VecExpr, heap: seq<int>, n: nat)
    requires WellFormed(a, |heap|) && WellFormed(b, |heap|) && WellFormed(c, |heap|)
    requires Size(a) == Size(b) && n <= Size(a) && n <= Size(c)
    ensures DotSum(Plus(a, b), c, heap, n) == DotSum(a, c, heap, n) + DotSum(b, c, heap, n)
  {
    if n > 0 {
      DotPlusLeft(a, b, c, heap, n - 1);
      assert (Read(a, heap, n - 1) + Read(b, heap, n - 1)) * Read(c, heap, n - 1)
          == Read(a, heap, n - 1) * Read(c, heap, n - 1) + Read(b, heap, n - 1) * Read(c, heap, n - 1);
    }
  }

  /** Reference rendering: the parts with `sep` between consecutive ones. */
  function Join(parts: seq<string>, sep: string): string
  {
    if |parts| == 0 then ""
    else if |parts| == 1 then parts[0]
    else parts[0] + sep + Join(parts[1..], sep)
  }

  lemma {:induction false} JoinSnoc(parts: seq<string>, x: string, sep: string)
    requires |parts| >= 1
    ensures Join(parts + [x], sep) == Join(parts, sep) + sep + x
  {
    if |parts| > 1 {
      assert (parts + [x])[1..] == parts[1..] + [x];
      JoinSnoc(parts[1..], x, sep);
    }
  }

  lemma {:induction false} JoinCommas(parts: seq<string>)
    requires |parts| >= 1
    requires forall k :: 0 <= k < |parts| ==> Occurrences(parts[k], ',') == 0
    ensures Occurrences(Join(parts, ", "), ',') == |parts| - 1
  {
    if |parts| > 1 {
      JoinCommas(parts[1..]);
      OccurrencesAppend(parts[0], ", ", ',');
      OccurrencesAppend(parts[0] + ", ", Join(parts[1..], ", "), ',');
    }
  }

  /** The rendered elements, in index order. */
  function Texts(e: VecExpr, heap: seq<int>): (r: seq<string>)
    requires WellFormed(e, |heap|)
    ensures |r| == Size(e)
    ensures forall k :: 0 <= k < |r| ==> r[k] == IntToString(Read(e, heap, k))
  {
    seq(Size(e), k requires 0 <= k < Size(e) => IntToString(Read(e, heap, k)))
  }

  /** The stream operator's output for the first n elements: `e0` then `, ek` for each later k. */
  function RenderPrefix(e: VecExpr, heap: seq<int>, n: nat): string
    requires WellFormed(e, |heap|) && n <= Size(e)
  {
    if n == 0 then ""
    else if n == 1 then IntToString(Read(e, heap, 0))
    else RenderPrefix(e, heap, n - 1) + ", " + IntToString(Read(e, heap, n - 1))
  }

  lemma JoinPrefixStep(parts: seq<string>, n: nat, sep: string)
    requires 1 < n <= |parts|
    ensures Join(parts[..n], sep) == Join(parts[..n - 1], sep) + sep + parts[n - 1]
  {
    assert parts[..n] == parts[..n - 1] + [parts[n - 1]];
    JoinSnoc(parts[..n - 1], parts[n - 1], sep);
  }

  lemma {:induction false} RenderPrefixIsJoin(e: VecExpr, heap: seq<int>, n: nat)
    requires WellFormed(e, |heap|) && n <= Size(e)
    ensures RenderPrefix(e, heap, n) == Join(Texts(e, heap)[..n], ", ")
    decreases n
  {
    var t := Texts(e, heap);
    if n == 1 {
      assert t[..n] == [t[0]];
    } else if n > 1 {
      RenderPrefixIsJoin(e, heap, n - 1);
      JoinPrefixStep(t, n, ", ");
    }
  }

  lemma RenderPrefixFacts(e: VecExpr, heap: seq<int>)
    requires WellFormed(e, |heap|)
    ensures RenderPrefix(e, heap, Size(e)) == Join(Texts(e, heap), ", ")
    ensures Size(e) >= 1 ==> Occurrences(RenderPrefix(e, heap, Size(e)), ',') == Size(e) - 1
  {
    var t := Texts(e, heap);
    RenderPrefixIsJoin(e, heap, Size(e));
    assert t[..Size(e)] == t;
    if Size(e) >= 1 {
      forall k | 0 <= k < |t|
        ensures Occurrences(t[k], ',') == 0
      {
        ElementHasNoSeparator(Read(e, heap, k));
      }
      JoinCommas(t);
    }
  }

  /**
   * `ost << v`: nothing for an empty vector, `e0` for one element, otherwise
   * the elements in index order separated by ", " (exactly n-1 commas).
   */
  function Render(e: VecExpr, heap: seq<int>): (r: string)
    requires WellFormed(e, |heap|)
    ensures r == Join(Texts(e, heap), ", ")
    ensures Size(e) == 0 ==> r == ""
  {
    RenderPrefixFacts(e, heap);
    RenderPrefix(e, heap, Size(e))
  }

  /** A single element is written alone; n >= 1 elements are written with n-1 commas. */
  lemma RenderSeparators(e: VecExpr, heap: seq<int>)
    requires WellFormed(e, |heap|)
    ensures Size(e) == 1 ==> Render(e, heap) == IntToString(Read(e, heap, 0))
    ensures Size(e) >= 1 ==> Occurrences(Render(e, heap), ',') == Size(e) - 1
  {
    RenderPrefixFacts(e, heap);
  }
}
