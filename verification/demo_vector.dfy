/**
 * The two scenarios of demos/demo_vector.cpp on concrete buffers, and two
 * assignments between views on the same buffers.
 */
module VectorDemo {
  import opened Memory
  import opened VectorViews
  import opened VecExprs
  import opened Vectors

  /** x = 0..9 followed by y = ten 10s, both contiguous in one buffer. */
  function DemoHeap(): seq<int>
  {
    seq(20, k => if k < 10 then k else 10)
  }

  /** `x + y` is 10..19 and `x + 3*y` is 30..39; `Vector z = x + y` materialises the first. */
  lemma DemoSums()
    ensures var x, y := View(VectorView(0, 10, 1)), View(VectorView(10, 10, 1));
      && WellFormed(Plus(x, y), |DemoHeap()|)
      && WellFormed(Plus(x, Times(3, y)), |DemoHeap()|)
      && (forall i :: 0 <= i < 10 ==> Read(Plus(x, y), DemoHeap(), i) == 10 + i)
      && (forall i :: 0 <= i < 10 ==> Read(Plus(x, Times(3, y)), DemoHeap(), i) == 30 + i)
      && var (h, z) := FromExpr(DemoHeap(), Plus(x, y), 0);
         z.size == 10 && forall i :: 0 <= i < 10 ==> Elem(z, h, i) == 10 + i
  {
    var x, y := View(VectorView(0, 10, 1)), View(VectorView(10, 10, 1));
    assert Fits(VectorView(10, 10, 1), 20);
    forall i | 0 <= i < 10
      ensures Read(Plus(x, y), DemoHeap(), i) == 10 + i
      ensures Read(Plus(x, Times(3, y)), DemoHeap(), i) == 30 + i
    {
      assert DemoHeap()[i] == i && DemoHeap()[10 + i] == 10;
    }
  }

  /** `x.range(2,9) = 3` on x = 0..9 overwrites indices 2..8 only. */
  lemma DemoRangeStep(r: VectorView, h0: seq<int>)
    requires r == VectorView(2, 7, 1) && h0 == seq(10, k => k)
    ensures Fill(r, h0, 3) == [0, 1, 3, 3, 3, 3, 3, 3, 3, 9]
  {
    FillContiguous(r, h0, 3);
  }

  /** `x.slice(1,5) = 10` then overwrites indices 1 and 6 only. */
  lemma DemoSliceStep()
    ensures Fill(VectorView(1, 2, 5), [0, 1, 3, 3, 3, 3, 3, 3, 3, 9], 10) == [0, 10, 3, 3, 3, 3, 10, 3, 3, 9]
  {
    var s := VectorView(1, 2, 5);
    var h1: seq<int> := [0, 1, 3, 3, 3, 3, 3, 3, 3, 9];
    var h2 := Fill(s, h1, 10);
    var want: seq<int> := [0, 10, 3, 3, 3, 3, 10, 3, 3, 9];
    forall p | 0 <= p < 10
      ensures h2[p] == want[p]
    {
      if p == 1 {
        assert Get(s, h2, 0) == 10;
      } else if p == 6 {
        assert Get(s, h2, 1) == 10;
      } else {
        assert p !in Slots(s, 0, 2);
      }
    }
  }

  /** `x.slice(1,5)` on ten elements: two elements, at parent indices 1 and 6. */
  lemma DemoSliceView(x: VectorView)
    requires x == VectorView(0, 10, 1)
    ensures SliceAsWritten(x, 1, 5) == VectorView(1, 2, 5) == Slice(x, 1, 5)
  {
  }

  /**
   * After `x.range(2,9) = 3; x.slice(1,5) = 10;` on x = 0..9, with the slice
   * as the library builds it; on this input it coincides with the corrected one.
   */
  lemma DemoRangeSlice(x: VectorView, h0: seq<int>)
    requires x == VectorView(0, 10, 1) && h0 == seq(10, k => k)
    ensures SliceAsWritten(x, 1, 5) == Slice(x, 1, 5)
    ensures Fill(SliceAsWritten(x, 1, 5), Fill(Range(x, 2, 9), h0, 3), 10) == [0, 10, 3, 3, 3, 3, 10, 3, 3, 9]
  {
    assert Range(x, 2, 9) == VectorView(2, 7, 1);
    DemoSliceView(x);
    DemoRangeStep(Range(x, 2, 9), h0);
    DemoSliceStep();
  }

  /**
   * `x.range(2, 5) = y.range(0, 3)` for two contiguous ten-element vectors x
   * and y that do not overlap: both sides are views of one type, so only the
   * temporary view is rebound and x(2) keeps its value; the element copy
   * would give it y(0).
   */
  lemma RangeAssignRebinds(x: VectorView, y: VectorView, heap: seq<int>)
    requires x.dist == 1 && y.dist == 1 && x.size == 10 == y.size
    requires x.offset + 10 <= y.offset && y.offset + 10 <= |heap|
    ensures Fits(x, |heap|) && Fits(y, |heap|)
    ensures Get(x, ViewRebind(Range(x, 2, 5), Range(y, 0, 3), heap).1, 2) == Get(x, heap, 2)
    ensures Get(x, Assign(Range(x, 2, 5), View(Range(y, 0, 3)), heap), 2) == Get(y, heap, 0)
  {
    var a, b := Range(x, 2, 5), Range(y, 0, 3);
    ViewAssignCopies(a, b, heap);
    var r := Assign(a, View(b), heap);
    assert Get(a, r, 0) == Get(b, heap, 0) == Get(y, heap, 0);
    assert Get(x, r, 2) == Get(a, r, 0);
  }

  /**
   * `x = y.range(0, n)` for two owning vectors of n > 0 elements on separate
   * storage: x is rebound onto y's storage (so both destructors free it) and
   * no slot changes; the element copy would leave x on its own storage,
   * reading y's elements.
   */
  lemma VectorAssignRangeShares(x: Vector, y: Vector, heap: seq<int>)
    requires Valid(x, |heap|) && Valid(y, |heap|) && Disjoint(x, y) && x.size == y.size > 0
    ensures VectorRebind(x, Range(AsView(y), 0, y.size), heap).0.data == y.data != x.data
    ensures VectorRebind(x, Range(AsView(y), 0, y.size), heap).1 == heap
    ensures forall i :: 0 <= i < x.size ==>
      Elem(x, Assign(AsView(x), View(Range(AsView(y), 0, y.size)), heap), i) == Elem(y, heap, i)
  {
    var a, b := AsView(x), Range(AsView(y), 0, y.size);
    assert b == AsView(y);
    ViewAssignCopies(a, b, heap);
  }

  /**
   * On `DemoHeap()` (x = 0..9, y = ten 10s), `x.range(2, 5) = y.range(0, 3)`
   * leaves x(2) at 2 where the element copy makes it 10.
   */
  lemma DemoRangeAssign(x: VectorView, y: VectorView, heap: seq<int>)
    requires x == VectorView(0, 10, 1) && y == VectorView(10, 10, 1) && heap == DemoHeap()
    ensures Fits(x, |heap|) && Fits(y, |heap|)
    ensures Get(x, ViewRebind(Range(x, 2, 5), Range(y, 0, 3), heap).1, 2) == 2
    ensures Get(x, Assign(Range(x, 2, 5), View(Range(y, 0, 3)), heap), 2) == 10
  {
    RangeAssignRebinds(x, y, heap);
  }

  /**
   * `x.range(0, n) = y` for owning vectors x and y on separate storage, with
   * n = y.size: binding y to the view's own copy assignment (its direct base)
   * ranks above binding it to the template's `VecExpr` parameter, so only the
   * temporary view is rebound and every element of x keeps its value; the
   * element copy would give x's first n elements y's values.
   */
  lemma RangeAssignVectorRebinds(x: Vector, y: Vector, heap: seq<int>)
    requires Valid(x, |heap|) && Valid(y, |heap|) && Disjoint(x, y) && 0 < y.size <= x.size
    ensures ViewRebind(Range(AsView(x), 0, y.size), AsView(y), heap).1 == heap
    ensures forall i :: 0 <= i < y.size ==>
      Elem(x, Assign(Range(AsView(x), 0, y.size), View(AsView(y)), heap), i) == Elem(y, heap, i)
  {
    var a, b := Range(AsView(x), 0, y.size), AsView(y);
    ViewAssignCopies(a, b, heap);
    var r := Assign(a, View(b), heap);
    forall i | 0 <= i < y.size
      ensures Elem(x, r, i) == Elem(y, heap, i)
    {
      assert Get(a, r, i) == Get(b, heap, i);
    }
  }
}
