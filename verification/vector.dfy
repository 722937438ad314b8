/**
 * Assignment through views and the owning `Vector` container (src/vector.hpp).
 * Assignments are functions from the buffer before to the buffer after.
 */
module Vectors {
  import opened Memory
  import opened VectorViews
  import opened VecExprs

  /**
   * No element written before element b is consulted when element b is
   * evaluated: for a < b, slot a of the view is outside b's footprint.
   */
  predicate NoForwardAlias(v: VectorView, e: VecExpr, from: nat)
  {
    forall a: nat, b: nat :: from <= a < b < v.size ==> Slot(v, a) !in Footprint(e, b)
  }

  /**
   * The loop of `view = expr` from index i on: element k is evaluated against
   * the buffer as the earlier iterations left it, then stored in slot k.
   */
  function AssignFrom(v: VectorView, e: VecExpr, heap: seq<int>, i: nat): (r: seq<int>)
    requires Fits(v, |heap|) && WellFormed(e, |heap|) && Size(e) == v.size && i <= v.size
    ensures |r| == |heap|
    decreases v.size - i
  {
    if i == v.size then heap else AssignFrom(v, e, Set(v, heap, i, Read(e, heap, i)), i + 1)
  }

  /** The loop from index i on writes only the slots of elements i and later. */
  lemma {:induction false} AssignFromFrame(v: VectorView, e: VecExpr, heap: seq<int>, i: nat, p: nat)
    requires Fits(v, |heap|) && WellFormed(e, |heap|) && Size(e) == v.size && i <= v.size
    requires p < |heap| && p !in Slots(v, i, v.size)
    ensures AssignFrom(v, e, heap, i)[p] == heap[p]
    decreases v.size - i
  {
    if i < v.size {
      assert p != Slot(v, i);
      assert p !in Slots(v, i + 1, v.size);
      AssignFromFrame(v, e, Set(v, heap, i, Read(e, heap, i)), i + 1, p);
    }
  }

  /** Writing element i does not disturb the value of a later element k. */
  lemma WriteKeepsLater(v: VectorView, e: VecExpr, heap: seq<int>, i: nat, k: nat)
    requires Fits(v, |heap|) && WellFormed(e, |heap|) && Size(e) == v.size && i < k < v.size
    requires Slot(v, i) !in Footprint(e, k)
    ensures Read(e, Set(v, heap, i, Read(e, heap, i)), k) == Read(e, heap, k)
  {
    var h := Set(v, heap, i, Read(e, heap, i));
    FootprintWithin(e, |heap|, k);
    ReadFrame(e, h, heap, k);
  }

  lemma NoForwardAliasLater(v: VectorView, e: VecExpr, i: nat)
    requires NoForwardAlias(v, e, i)
    ensures NoForwardAlias(v, e, i + 1)
  {
    forall a: nat, b: nat | i + 1 <= a < b < v.size
      ensures Slot(v, a) !in Footprint(e, b)
    {
    }
  }

  lemma SlotNotLater(v: VectorView, i: nat)
    requires Injective(v) && i < v.size
    ensures Slot(v, i) !in Slots(v, i + 1, v.size)
  {
    forall k: nat | i + 1 <= k < v.size
      ensures Slot(v, k) != Slot(v, i)
    {
      SlotsDistinct(v, i, k);
    }
  }

  /** The first element the loop writes is not overwritten by the later iterations. */
  lemma AssignFromFirst(v: VectorView, e: VecExpr, heap: seq<int>, i: nat)
    requires Fits(v, |heap|) && WellFormed(e, |heap|) && Size(e) == v.size && i < v.size
    requires Injective(v)
    ensures AssignFrom(v, e, heap, i)[Slot(v, i)] == Read(e, heap, i)
  {
    var h := Set(v, heap, i, Read(e, heap, i));
    SlotNotLater(v, i);
    AssignFromFrame(v, e, h, i + 1, Slot(v, i));
  }

  /** Writing element i leaves the values of all later elements as they were. */
  lemma WriteKeepsAllLater(v: VectorView, e: VecExpr, heap: seq<int>, i: nat)
    requires Fits(v, |heap|) && WellFormed(e, |heap|) && Size(e) == v.size && i < v.size
    requires NoForwardAlias(v, e, i)
    ensures forall k :: i < k < v.size ==> Read(e, Set(v, heap, i, Read(e, heap, i)), k) == Read(e, heap, k)
  {
    forall k | i < k < v.size
      ensures Read(e, Set(v, heap, i, Read(e, heap, i)), k) == Read(e, heap, k)
    {
      WriteKeepsLater(v, e, heap, i, k);
    }
  }

  lemma {:induction false} AssignFromComputes(v: VectorView, e: VecExpr, heap: seq<int>, i: nat)
    requires Fits(v, |heap|) && WellFormed(e, |heap|) && Size(e) == v.size && i <= v.size
    requires Injective(v) && NoForwardAlias(v, e, i)
    ensures forall k :: i <= k < v.size ==> AssignFrom(v, e, heap, i)[Slot(v, k)] == Read(e, heap, k)
    decreases v.size - i
  {
    if i < v.size {
      var h := Set(v, heap, i, Read(e, heap, i));
      NoForwardAliasLater(v, e, i);
      AssignFromComputes(v, e, h, i + 1);
      AssignFromFirst(v, e, heap, i);
      WriteKeepsAllLater(v, e, heap, i);
    }
  }

  lemma AssignFrame(v: VectorView, e: VecExpr, heap: seq<int>)
    requires Fits(v, |heap|) && WellFormed(e, |heap|) && Size(e) == v.size
    ensures forall p :: 0 <= p < |heap| && p !in Slots(v, 0, v.size) ==> AssignFrom(v, e, heap, 0)[p] == heap[p]
  {
    forall p | 0 <= p < |heap| && p !in Slots(v, 0, v.size)
      ensures AssignFrom(v, e, heap, 0)[p] == heap[p]
    {
      AssignFromFrame(v, e, heap, 0, p);
    }
  }

  /**
   * `view = expr` (requires equal sizes): slots outside the view are kept;
   * when no element's evaluation consults a slot written before it (in
   * particular when the expression reads other storage, or each element
   * reads only its own slot), element k of the view ends up holding `expr(k)`.
   */
  function Assign(v: VectorView, e: VecExpr, heap: seq<int>): (r: seq<int>)
    requires Fits(v, |heap|) && WellFormed(e, |heap|) && Size(e) == v.size
    ensures |r| == |heap|
    ensures forall p :: 0 <= p < |heap| && p !in Slots(v, 0, v.size) ==> r[p] == heap[p]
    ensures Injective(v) && NoForwardAlias(v, e, 0) ==>
      forall k :: 0 <= k < v.size ==> Get(v, r, k) == Read(e, heap, k)
  {
    AssignFrame(v, e, heap);
    if Injective(v) && NoForwardAlias(v, e, 0) then
      AssignFromComputes(v, e, heap, 0);
      AssignFrom(v, e, heap, 0)
    else
      AssignFrom(v, e, heap, 0)
  }

  /** An owning vector: `size` contiguous elements at `data`; a moved-from vector is (0, null). */
  datatype Vector = Vector(size: nat, data: Ptr)

  predicate Valid(x: Vector, len: nat)
  {
    match x.data
    case Null => x.size == 0
    case At(addr) => addr + x.size <= len
  }

  /** The vector seen as the unit-stride `VectorView` it derives from. */
  function AsView(x: Vector): (v: VectorView)
    ensures v.size == x.size && v.dist == 1
    ensures forall len: nat :: Valid(x, len) ==> Fits(v, len)
  {
    VectorView(if x.data.At? then x.data.addr else 0, x.size, 1)
  }

  /** `x(i)` (no bounds check in the library). */
  function Elem(x: Vector, heap: seq<int>, i: nat): (r: int)
    requires Valid(x, |heap|) && i < x.size
    ensures x.data.At? && r == heap[x.data.addr + i]
  {
    Get(AsView(x), heap, i)
  }

  /** `Vector(n)`: n fresh, uninitialised slots. */
  function New(heap: seq<int>, n: nat, garbage: int): (r: (seq<int>, Vector))
    ensures r.1.size == n && r.1.data == At(|heap|)
    ensures |r.0| == |heap| + n && r.0[..|heap|] == heap
    ensures Valid(r.1, |r.0|)
  {
    var (h, addr) := Alloc(heap, n, garbage);
    (h, Vector(n, At(addr)))
  }

  /**
   * `Vector(expr)`: a fresh vector of `expr.size()` elements with element i
   * equal to `expr(i)`; the existing buffer is untouched.
   */
  function FromExpr(heap: seq<int>, e: VecExpr, garbage: int): (r: (seq<int>, Vector))
    requires WellFormed(e, |heap|)
    ensures r.1.size == Size(e) && r.1.data == At(|heap|)
    ensures Valid(r.1, |r.0|) && |r.0| == |heap| + Size(e) && r.0[..|heap|] == heap
    ensures forall i :: 0 <= i < Size(e) ==> Elem(r.1, r.0, i) == Read(e, heap, i)
  {
    var (h, x) := New(heap, Size(e), garbage);
    FreshAssign(heap, h, x, e);
    (Assign(AsView(x), e, h), x)
  }

  /** Assigning an expression over the old buffer into freshly allocated storage. */
  lemma FreshAssign(heap: seq<int>, h: seq<int>, x: Vector, e: VecExpr)
    requires WellFormed(e, |heap|) && |h| >= |heap| && h[..|heap|] == heap
    requires x.data == At(|heap|) && Valid(x, |h|) && x.size == Size(e)
    ensures WellFormed(e, |h|)
    ensures Injective(AsView(x)) && NoForwardAlias(AsView(x), e, 0)
    ensures forall i :: 0 <= i < Size(e) ==> Read(e, h, i) == Read(e, heap, i)
    ensures forall p :: 0 <= p < |heap| ==> p !in Slots(AsView(x), 0, x.size)
  {
    WellFormedGrow(e, |heap|, |h|);
    forall i | 0 <= i < Size(e)
      ensures Read(e, h, i) == Read(e, heap, i)
      ensures forall p :: p in Footprint(e, i) ==> p < |heap|
    {
      FootprintWithin(e, |heap|, i);
      ReadFrame(e, h, heap, i);
    }
  }

  /**
   * `x = y` between vectors (requires equal sizes): copies `y(i)` into
   * `x`'s slot i; slots outside `x` are kept. When the two storages are the
   * same or disjoint, x then holds y's elements.
   */
  function CopyAssign(heap: seq<int>, x: Vector, y: Vector): (r: seq<int>)
    requires Valid(x, |heap|) && Valid(y, |heap|) && x.size == y.size
    ensures |r| == |heap|
    ensures forall p :: 0 <= p < |heap| && p !in Slots(AsView(x), 0, x.size) ==> r[p] == heap[p]
    ensures Disjoint(x, y) || x.data == y.data ==>
      forall i :: 0 <= i < x.size ==> Elem(x, r, i) == Elem(y, heap, i)
  {
    var src := View(AsView(y));
    assert Disjoint(x, y) || x.data == y.data ==> NoForwardAlias(AsView(x), src, 0);
    Assign(AsView(x), src, heap)
  }

  predicate Disjoint(x: Vector, y: Vector)
  {
    x.data.At? && y.data.At? && (x.data.addr + x.size <= y.data.addr || y.data.addr + y.size <= x.data.addr)
  }

  /**
   * `a = b` where `b` is a view of exactly `a`'s type (two `range`s, or two
   * `slice`s): the view's defaulted copy assignment is an exact match and
   * wins over the element-copying template, so `a` becomes a second handle
   * on `b`'s elements and no slot is written.
   */
  function ViewRebind(a: VectorView, b: VectorView, heap: seq<int>): (r: (VectorView, seq<int>))
    ensures r.1 == heap && r.0.size == b.size
    ensures Fits(b, |heap|) ==>
      Fits(r.0, |r.1|) && forall k :: 0 <= k < b.size ==> Get(r.0, r.1, k) == Get(b, heap, k)
  {
    (b, heap)
  }

  /**
   * `x = v` for a `Vector x` and a view `v` of unit distance (such as
   * `y.range(first, next)`): `using BASE::operator=` makes the view's
   * defaulted copy assignment visible, and it is an exact match, so x takes
   * over v's size and start and no element is written. x's own buffer is
   * dropped without `delete[]`, and v's storage gains an owner whose
   * destructor frees it. (A view of non-unit distance would need a
   * conversion, so there the element-copying `Assign` is chosen.)
   */
  function VectorRebind(x: Vector, v: VectorView, heap: seq<int>): (r: (Vector, seq<int>))
    requires v.dist == 1
    ensures r.1 == heap && r.0.size == v.size && r.0.data.At?
    ensures Fits(v, |heap|) && v.size > 0 ==>
      Valid(r.0, |r.1|) && forall i :: 0 <= i < v.size ==> Elem(r.0, r.1, i) == Get(v, heap, i)
  {
    assert Fits(v, |heap|) && v.size > 0 ==> Slot(v, v.size - 1) < |heap|;
    (Vector(v.size, At(v.offset)), heap)
  }

  /**
   * The evident intent of `a = b` between views: element-wise copy. When a's
   * slots are distinct and apart from b's, a afterwards reads b's elements.
   */
  lemma ViewAssignCopies(a: VectorView, b: VectorView, heap: seq<int>)
    requires Fits(a, |heap|) && Fits(b, |heap|) && a.size == b.size && Injective(a)
    requires forall i, k :: 0 <= i < a.size && 0 <= k < b.size ==> Slot(a, i) != Slot(b, k)
    ensures WellFormed(View(b), |heap|)
    ensures forall k :: 0 <= k < a.size ==> Get(a, Assign(a, View(b), heap), k) == Get(b, heap, k)
  {
    assert NoForwardAlias(a, View(b), 0);
  }

  /** `Vector(const Vector&)`: fresh storage holding a copy of every element. */
  function CopyConstruct(heap: seq<int>, y: Vector, garbage: int): (r: (seq<int>, Vector))
    requires Valid(y, |heap|)
    ensures r.1.size == y.size && r.1.data == At(|heap|)
    ensures Valid(r.1, |r.0|) && r.0[..|heap|] == heap
    ensures forall i :: 0 <= i < y.size ==> Elem(r.1, r.0, i) == Elem(y, heap, i)
  {
    var (h, x) := New(heap, y.size, garbage);
    assert Disjoint(x, y) || y.size == 0;
    var r := CopyAssign(h, x, y);
    assert forall p :: 0 <= p < |heap| ==> p !in Slots(AsView(x), 0, x.size);
    assert forall i :: 0 <= i < y.size ==> Elem(y, h, i) == Elem(y, heap, i);
    (r, x)
  }

  /**
   * `Vector(Vector&&)`: the new vector takes over the source's size and
   * storage (so reads the same elements); the source is left (0, null).
   */
  function MoveConstruct(y: Vector): (r: (Vector, Vector))
    ensures r.0.size == y.size && r.0.data == y.data
    ensures r.1.size == 0 && r.1.data == Null
    ensures forall heap: seq<int>, i: nat :: Valid(y, |heap|) && i < y.size ==>
      Valid(r.0, |heap|) && Elem(r.0, heap, i) == Elem(y, heap, i)
  {
    (Vector(y.size, y.data), Vector(0, Null))
  }

  /** `x = std::move(y)`: the two vectors exchange size and storage. */
  function MoveAssign(x: Vector, y: Vector): (r: (Vector, Vector))
    ensures r.0 == y && r.1 == x
  {
    (Vector(y.size, y.data), Vector(x.size, x.data))
  }

  lemma MoveAssignTwice(x: Vector, y: Vector)
    ensures var (x1, y1) := MoveAssign(x, y); MoveAssign(x1, y1) == (x, y)
  {
  }
}
