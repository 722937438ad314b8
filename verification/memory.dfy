/**
 * The storage every container and view of the library works on. The model
 * keeps one flat buffer of elements (`heap`); owning containers hold the index
 * of their first slot, views hold an offset and a stride into the same buffer.
 */
module Memory {

  /** A container's data pointer: null once its storage has been moved away. */
  datatype Ptr = Null | At(addr: nat)

  /** Outcome of a bounds-checked access: the value, or the out-of-range error and its message. */
  datatype Checked<T> = Ok(value: T) | OutOfRange(message: string)

  /**
   * `new T[n]`: n slots appended after every existing slot, so they alias
   * nothing. Their contents are unspecified in the library; the model fills
   * them with a caller-chosen `garbage` value.
   */
  function Alloc(heap: seq<int>, n: nat, garbage: int): (r: (seq<int>, nat))
    ensures r.1 == |heap|
    ensures |r.0| == |heap| + n
    ensures r.0[..|heap|] == heap
  {
    (heap + seq(n, _ => garbage), |heap|)
  }
}
