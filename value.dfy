/** A raw off-heap region and the typed view over it: a `Bytes` descriptor
    (start address, length and capacity in bytes) and the rule by which
    `Slice[T]` turns it into a slice of `T` elements. */
module Value {
  import opened GoTypes

  /** The descriptor of a region: its start address and its length and
      capacity in bytes. It is passed by value, so a callee that adjusts its
      copy leaves the caller's descriptor as it was. */
  datatype Bytes = Bytes(ptr: int, len: int, cap: int)

  /** The element types a region may be viewed as. */
  datatype Kind = Byte | Int8 | Int16 | Int32 | Int64

  /** unsafe.Sizeof of one element. */
  function SizeOf(k: Kind): (n: nat)
    ensures n in {1, 2, 4, 8}
  {
    match k
    case Byte => 1
    case Int8 => 1
    case Int16 => 2
    case Int32 => 4
    case Int64 => 8
  }

  /** A slice header: where the elements start, and how many there are and
      may be, counted in elements. */
  datatype SliceHeader = SliceHeader(data: int, len: int, cap: int)

  /** Slice[T]: panics unless both the length and the capacity hold at least
      one element; otherwise a view that starts at the region's own address
      (it copies nothing) with as many whole elements as fit. */
  function Slice(k: Kind, b: Bytes): (r: Result<SliceHeader>)
    ensures r.Panic? <==> b.len < SizeOf(k) || b.cap < SizeOf(k)
    ensures r.Ok? ==> r.value.data == b.ptr
    ensures r.Ok? ==> 1 <= r.value.len && r.value.len * SizeOf(k) <= b.len < (r.value.len + 1) * SizeOf(k)
    ensures r.Ok? ==> 1 <= r.value.cap && r.value.cap * SizeOf(k) <= b.cap < (r.value.cap + 1) * SizeOf(k)
  {
    var size := SizeOf(k);
    if b.len < size || b.cap < size then Panic
    else Ok(SliceHeader(b.ptr, b.len / size, b.cap / size))
  }

  /** A byte view has exactly as many elements as the region has bytes. */
  lemma SliceBytes(b: Bytes)
    requires b.len >= 1 && b.cap >= 1
    ensures Slice(Byte, b) == Ok(SliceHeader(b.ptr, b.len, b.cap))
  {
  }

  /** An int64 view of a region of 8 to 15 bytes has a single element. */
  lemma SliceOneInt64(b: Bytes)
    requires 8 <= b.len < 16 && b.cap >= 8
    ensures Slice(Int64, b).Ok? && Slice(Int64, b).value.len == 1
  {
  }
}
