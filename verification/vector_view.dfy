/**
 * `VectorView` (src/vector.hpp): a non-owning window of `size` elements over the
 * shared buffer, element i living `dist*i` slots after the window's start.
 */
module VectorViews {
  import opened Arith

  /** `VectorView(size, dist, data)` with the data pointer written as a buffer offset. */
  datatype VectorView = VectorView(offset: nat, size: nat, dist: nat)

  /** The slot `m_data[m_dist*i]` that element i reads and writes. */
  function Slot(v: VectorView, i: nat): nat
  {
    v.offset + v.dist * i
  }

  /**
   * Every element lies inside a buffer of length `len`. The view never checks
   * this: it is the caller's duty, so operations take it as a precondition.
   */
  predicate Fits(v: VectorView, len: nat)
  {
    forall i :: 0 <= i < v.size ==> Slot(v, i) < len
  }

  /** Distinct elements occupy distinct slots. */
  predicate Injective(v: VectorView)
  {
    v.dist > 0 || v.size <= 1
  }

  /** Slots of the elements with index in [lo, hi). */
  function Slots(v: VectorView, lo: nat, hi: nat): set<nat>
  {
    set k: nat | lo <= k < hi :: Slot(v, k)
  }

  lemma SlotsDistinct(v: VectorView, i: nat, k: nat)
    requires Injective(v) && i < k < v.size
    ensures Slot(v, i) < Slot(v, k)
  {
    MulLtCancel(k, i, v.dist);
  }

  /** `view(i)` as an rvalue (no bounds check in the library). */
  function Get(v: VectorView, heap: seq<int>, i: nat): int
    requires Fits(v, |heap|) && i < v.size
  {
    heap[Slot(v, i)]
  }

  /** `view(i) = x`: only the element's own slot changes. */
  function Set(v: VectorView, heap: seq<int>, i: nat, x: int): (r: seq<int>)
    requires Fits(v, |heap|) && i < v.size
    ensures |r| == |heap|
    ensures Get(v, r, i) == x
    ensures forall p :: 0 <= p < |heap| && p != Slot(v, i) ==> r[p] == heap[p]
  {
    heap[Slot(v, i) := x]
  }

  /** `range(first, next)`: the elements [first, next) of `v`, as an alias. */
  function Range(v: VectorView, first: nat, next: nat): (r: VectorView)
    requires first <= next <= v.size
    ensures r.size == next - first && r.dist == v.dist
    ensures forall k :: 0 <= k < r.size ==> Slot(r, k) == Slot(v, first + k)
    ensures forall len: nat :: Fits(v, len) ==> Fits(r, len)
  {
    var r := VectorView(v.offset + first * v.dist, next - first, v.dist);
    assert forall k :: 0 <= k < r.size ==> Slot(r, k) == Slot(v, first + k) by {
      forall k | 0 <= k < r.size
        ensures Slot(r, k) == Slot(v, first + k)
      {
        assert v.dist * (first + k) == first * v.dist + v.dist * k;
      }
    }
    r
  }

  /** Index into the parent of element k of a slice that starts at `first` with step `step`. */
  function Pick(first: nat, step: nat, k: nat): nat
  {
    first + k * step
  }

  /**
   * A view starting at parent element `first` with distance `dist*step` puts
   * its element k on the slot of parent element `first + k*step`.
   */
  lemma SliceSlot(v: VectorView, first: nat, step: nat, k: nat)
    ensures (v.offset + first * v.dist) + (v.dist * step) * k == Slot(v, Pick(first, step, k))
  {
    assert v.dist * (first + k * step) == first * v.dist + v.dist * step * k;
  }

  /**
   * `slice(first, step)` exactly as the library writes it: the element count
   * is `size/step`, with `first` not subtracted.
   */
  function SliceAsWritten(v: VectorView, first: nat, step: nat): (r: VectorView)
    requires step > 0
    ensures r.size == v.size / step && r.dist == v.dist * step
    ensures forall k :: 0 <= k < r.size ==> Slot(r, k) == Slot(v, Pick(first, step, k))
  {
    var r := VectorView(v.offset + first * v.dist, v.size / step, v.dist * step);
    assert forall k :: 0 <= k < r.size ==> Slot(r, k) == Slot(v, Pick(first, step, k)) by {
      forall k | 0 <= k < r.size {
        SliceSlot(v, first, step, k);
      }
    }
    r
  }

  /**
   * The as-written slice of a 10-element view starting at 5 with step 2 has 5
   * elements; its element 3 aliases parent index 11, past the parent's end.
   */
  lemma SliceAsWrittenOverruns()
    ensures Fits(VectorView(0, 10, 1), 10)
    ensures SliceAsWritten(VectorView(0, 10, 1), 5, 2).size == 5
    ensures Pick(5, 2, 3) == 11 && !Fits(SliceAsWritten(VectorView(0, 10, 1), 5, 2), 10)
  {
    var s := SliceAsWritten(VectorView(0, 10, 1), 5, 2);
    assert Slot(s, 3) == 11;
  }

  /**
   * `slice(first, step)` with the count it evidently means: every in-bounds
   * position first, first+step, first+2*step, ... and nothing else.
   */
  function Slice(v: VectorView, first: nat, step: nat): (r: VectorView)
    requires step > 0
    ensures r.dist == v.dist * step
    ensures forall k :: 0 <= k < r.size ==> Slot(r, k) == Slot(v, Pick(first, step, k))
    ensures forall k: nat :: k < r.size <==> Pick(first, step, k) < v.size
    ensures forall len: nat :: Fits(v, len) ==> Fits(r, len)
  {
    var count := if first >= v.size then 0 else (v.size - first + step - 1) / step;
    var r := VectorView(v.offset + first * v.dist, count, v.dist * step);
    assert forall k :: 0 <= k < r.size ==> Slot(r, k) == Slot(v, Pick(first, step, k)) by {
      forall k | 0 <= k < r.size {
        SliceSlot(v, first, step, k);
      }
    }
    SliceCount(v.size, first, step);
    r
  }

  /** The corrected slice count selects exactly the in-bounds positions. */
  lemma SliceCount(size: nat, first: nat, step: nat)
    requires step > 0
    ensures forall k: nat ::
      k < (if first >= size then 0 else (size - first + step - 1) / step) <==> Pick(first, step, k) < size
  {
    forall k: nat
      ensures k < (if first >= size then 0 else (size - first + step - 1) / step) <==> Pick(first, step, k) < size
    {
      if first < size {
        BelowCeilDiv(k, size - first, step);
      }
    }
  }

  /** Broadcast assignment of `s` to the elements [i, size), in index order. */
  function FillFrom(v: VectorView, heap: seq<int>, s: int, i: nat): (r: seq<int>)
    requires Fits(v, |heap|) && i <= v.size
    ensures |r| == |heap|
    ensures forall k :: i <= k < v.size ==> r[Slot(v, k)] == s
    ensures forall p :: 0 <= p < |heap| && p !in Slots(v, i, v.size) ==> r[p] == heap[p]
    decreases v.size - i
  {
    if i == v.size then heap
    else
      var r := FillFrom(v, Set(v, heap, i, s), s, i + 1);
      assert forall p :: p in Slots(v, i + 1, v.size) ==> p in Slots(v, i, v.size);
      r
  }

  /** `view = scal`: exactly the view's slots become `scal`; every other slot is kept. */
  function Fill(v: VectorView, heap: seq<int>, scal: int): (r: seq<int>)
    requires Fits(v, |heap|)
    ensures |r| == |heap|
    ensures forall k :: 0 <= k < v.size ==> Get(v, r, k) == scal
    ensures forall p :: 0 <= p < |heap| && p !in Slots(v, 0, v.size) ==> r[p] == heap[p]
  {
    FillFrom(v, heap, scal, 0)
  }

  /** On a unit-distance view, `view = scal` sets exactly the slots [offset, offset + size). */
  lemma FillContiguous(v: VectorView, heap: seq<int>, scal: int)
    requires v.dist == 1 && Fits(v, |heap|)
    ensures forall p :: 0 <= p < |heap| ==>
      Fill(v, heap, scal)[p] == if v.offset <= p < v.offset + v.size then scal else heap[p]
  {
    var r := Fill(v, heap, scal);
    forall p | 0 <= p < |heap|
      ensures r[p] == if v.offset <= p < v.offset + v.size then scal else heap[p]
    {
      if v.offset <= p < v.offset + v.size {
        assert Slot(v, p - v.offset) == p;
      } else {
        assert p !in Slots(v, 0, v.size);
      }
    }
  }
}
