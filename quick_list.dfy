/** The quick list: a chain of ziplist nodes. Each ziplist packs at most
    ListMaxZiplistSize elements into one byte buffer at a fixed per-element
    stride; an element is stored as a frame (the varint of its length, then
    its bytes) at the start of its stride-sized slot. */
module QuickList {
  import opened GoTypes
  import Varint

  const ListMaxZiplistSize: nat := 5

  /** The frame of an element: varint length prefix, then the payload. */
  function Frame(v: seq<byte>): seq<byte>
  {
    Varint.PutUvarint(|v|) + v
  }

  /** The offset of slot `i` at stride `len`: `i * len`, spelled out by
      recursion so that the proofs about slots stay linear. */
  function SlotStart(i: nat, len: nat): (off: nat)
    decreases i
  {
    if i == 0 then 0 else SlotStart(i - 1, len) + len
  }

  /** Slot `i` of a buffer with stride `len` begins with the frame of `v`,
      and the frame fits in the slot. */
  ghost predicate SlotHolds(buf: seq<byte>, len: nat, i: nat, v: seq<byte>)
  {
    && |Frame(v)| <= len
    && SlotStart(i, len) + len <= |buf|
    && buf[SlotStart(i, len) .. SlotStart(i, len) + |Frame(v)|] == Frame(v)
  }

  /** The elements of consecutive nodes, in order. */
  function Flatten(chunks: seq<seq<seq<byte>>>): seq<seq<byte>>
  {
    if chunks == [] then [] else Flatten(chunks[..|chunks| - 1]) + chunks[|chunks| - 1]
  }

  /** Go's `v := make([]byte, size); copy(v, src)`. */
  function CopyFrom(src: seq<byte>, size: nat): (v: seq<byte>)
    ensures |v| == size
    ensures size <= |src| ==> v == src[..size]
  {
    if size <= |src| then src[..size] else src + Zeros(size - |src|)
  }

  /** The slot offset is the product the Go code computes. */
  lemma {:induction false} SlotStartProduct(i: nat, len: nat)
    ensures SlotStart(i, len) == i * len
    decreases i
  {
    if i > 0 {
      SlotStartProduct(i - 1, len);
      assert i * len == (i - 1) * len + len;
    }
  }

  /** Slot j lies wholly before slot i when j < i. */
  lemma {:induction false} SlotBefore(j: nat, i: nat, len: nat)
    requires j < i
    ensures SlotStart(j, len) + len <= SlotStart(i, len)
    decreases i
  {
    if j < i - 1 {
      SlotBefore(j, i - 1, len);
    }
  }

  /** A slot survives writes that leave the buffer below `lo` alone. */
  lemma SlotKeep(a: seq<byte>, b: seq<byte>, len: nat, i: nat, v: seq<byte>, lo: nat)
    requires SlotHolds(a, len, i, v)
    requires |b| == |a| && SlotStart(i, len) + len <= lo <= |a| && b[..lo] == a[..lo]
    ensures SlotHolds(b, len, i, v)
  {
    var s := SlotStart(i, len);
    assert forall k :: s <= k < s + |Frame(v)| ==> b[k] == b[..lo][k] == a[..lo][k] == a[k];
    assert b[s .. s + |Frame(v)|] == a[s .. s + |Frame(v)|];
  }

  /** Reading the slot back the way GetAll, popTail and the re-pack do:
      binary.Uvarint gives the length and the frame's header size, and the
      payload follows the header. */
  lemma SlotDecode(buf: seq<byte>, len: nat, i: nat, v: seq<byte>)
    requires SlotHolds(buf, len, i, v) && |v| < Two63
    ensures SlotStart(i, len) + len <= |buf|
    ensures var s := SlotStart(i, len);
            var (size, n) := Varint.Uvarint(buf[s .. s + len]);
            && size == |v| && n == |Varint.PutUvarint(|v|)| && 0 < n && n + size <= len
            && buf[s + n .. s + len][..size] == v
  {
    FrameAt(buf, SlotStart(i, len), len, v);
  }

  /** The same, for a slot at any offset `s`. */
  lemma FrameAt(buf: seq<byte>, s: nat, len: nat, v: seq<byte>)
    requires s + len <= |buf| && |Frame(v)| <= len && |v| < Two63
    requires buf[s .. s + |Frame(v)|] == Frame(v)
    ensures var (size, n) := Varint.Uvarint(buf[s .. s + len]);
            && size == |v| && n == |Varint.PutUvarint(|v|)| && 0 < n && n + size <= len
            && buf[s + n .. s + len][..size] == v
  {
    var slot := buf[s .. s + len];
    var n := |Varint.PutUvarint(|v|)|;
    assert slot[..|Frame(v)|] == Frame(v);
    FrameDecode(slot, v);
    assert buf[s + n .. s + len] == slot[n..];
  }

  /** binary.Uvarint on bytes that begin with the frame of `v`. */
  lemma FrameDecode(slot: seq<byte>, v: seq<byte>)
    requires |Frame(v)| <= |slot| && slot[..|Frame(v)|] == Frame(v) && |v| < Two63
    ensures Varint.Uvarint(slot) == (|v|, |Varint.PutUvarint(|v|)|)
    ensures 0 < |Varint.PutUvarint(|v|)|
    ensures slot[|Varint.PutUvarint(|v|)| .. |Varint.PutUvarint(|v|)| + |v|] == v
  {
    var hdr := Varint.PutUvarint(|v|);
    assert slot == hdr + slot[|hdr|..];
    Varint.UvarintPutUvarint(|v|, slot[|hdr|..]);
    assert slot[|hdr| .. |hdr| + |v|] == Frame(v)[|hdr|..];
  }

  /** binary.PutUvarint(buf[off:], x): the varint of `x` overwrites the
      bytes at `off`; the rest of the buffer is kept. */
  function PutUvarintInto(buf: seq<byte>, off: nat, x: nat): (r: seq<byte>)
    requires off + |Varint.PutUvarint(x)| <= |buf|
    ensures |r| == |buf| && r[..off] == buf[..off]
    ensures r[off .. off + |Varint.PutUvarint(x)|] == Varint.PutUvarint(x)
  {
    var enc := Varint.PutUvarint(x);
    assert (buf[..off] + enc + buf[off + |enc|..])[off .. off + |enc|] == enc;
    buf[..off] + enc + buf[off + |enc|..]
  }

  /** Go's copy(buf[off:], src): as many bytes of `src` as fit overwrite the
      bytes at `off`. */
  function CopyInto(buf: seq<byte>, off: nat, src: seq<byte>): (r: seq<byte>)
    requires off <= |buf|
    ensures |r| == |buf| && r[..off] == buf[..off]
    ensures off + |src| <= |buf| ==> r[off .. off + |src|] == src
  {
    var k := Min(|src|, |buf| - off);
    assert off + |src| <= |buf| ==> (buf[..off] + src[..k] + buf[off + k..])[off .. off + |src|] == src[..k];
    buf[..off] + src[..k] + buf[off + k..]
  }

  /** The two writes of one frame: binary.PutUvarint of `size` at `off`,
      then a copy of `src` right after the varint. They leave the frame of
      the first `size` bytes of `src` at `off` and the buffer below `off` as
      it was. */
  method PutFrame(buf: seq<byte>, off: nat, size: nat, src: seq<byte>) returns (r: seq<byte>)
    requires size <= |src| && off + |Varint.PutUvarint(size)| + |src| <= |buf|
    ensures |r| == |buf| && r[..off] == buf[..off]
    ensures r[off .. off + |Frame(src[..size])|] == Frame(src[..size])
  {
    var n := |Varint.PutUvarint(size)|;
    var r1 := PutUvarintInto(buf, off, size);
    r := CopyInto(r1, off + n, src);
    assert r[..off] == r[..off + n][..off] == r1[..off + n][..off];
    assert r[off .. off + n] == r[..off + n][off..] == r1[..off + n][off..] == r1[off .. off + n];
    assert r[off + n .. off + n + size] == r[off + n .. off + n + |src|][..size];
    assert r[off .. off + n + size] == r[off .. off + n] + r[off + n .. off + n + size];
  }

  /** The frames of `elems` fill slots 0, 1, ... of the buffer, in order,
      and every element's length is a Go int. */
  ghost predicate SlotsHold(buf: seq<byte>, len: nat, elems: seq<seq<byte>>)
    decreases |elems|
  {
    elems == [] ||
    (&& SlotsHold(buf, len, elems[..|elems| - 1])
     && |elems[|elems| - 1]| < Two63
     && SlotHolds(buf, len, |elems| - 1, elems[|elems| - 1]))
  }

  lemma {:induction false} SlotsHoldAt(buf: seq<byte>, len: nat, elems: seq<seq<byte>>, i: nat)
    requires SlotsHold(buf, len, elems) && i < |elems|
    ensures |elems[i]| < Two63 && SlotHolds(buf, len, i, elems[i])
    decreases |elems|
  {
    if i < |elems| - 1 {
      SlotsHoldAt(buf, len, elems[..|elems| - 1], i);
    }
  }

  lemma SlotsHoldPrefix(buf: seq<byte>, len: nat, elems: seq<seq<byte>>, k: nat)
    requires SlotsHold(buf, len, elems) && k <= |elems|
    ensures SlotsHold(buf, len, elems[..k])
    decreases |elems| - k
  {
    if k < |elems| {
      SlotsHoldPrefix(buf, len, elems, k + 1);
      assert elems[..k + 1][..k] == elems[..k];
    } else {
      assert elems[..k] == elems;
    }
  }

  /** Adding the frame of one more element in the next slot. */
  lemma SlotsHoldSnoc(buf: seq<byte>, len: nat, elems: seq<seq<byte>>, v: seq<byte>)
    requires SlotsHold(buf, len, elems) && |v| < Two63 && SlotHolds(buf, len, |elems|, v)
    ensures SlotsHold(buf, len, elems + [v])
  {
    assert (elems + [v])[..|elems|] == elems;
  }

  /** The slots of `elems` survive writes that leave the buffer below `lo`
      alone. */
  lemma {:induction false} SlotsKeep(a: seq<byte>, b: seq<byte>, len: nat, elems: seq<seq<byte>>, lo: nat)
    requires SlotStart(|elems|, len) <= lo <= |a| == |b| && b[..lo] == a[..lo]
    requires SlotsHold(a, len, elems)
    ensures SlotsHold(b, len, elems)
    decreases |elems|
  {
    if elems != [] {
      var last := |elems| - 1;
      SlotsKeep(a, b, len, elems[..last], lo);
      SlotKeep(a, b, len, last, elems[last], lo);
    }
  }

  /** The read of one slot, as GetAll and popTail write it: binary.Uvarint
      gives the payload size and the header length, then
      `make([]byte, size)` and a copy of the rest of the slot. */
  method ReadSlot(buf: seq<byte>, len: nat, i: nat, ghost v: seq<byte>) returns (value: seq<byte>)
    requires SlotHolds(buf, len, i, v) && |v| < Two63
    ensures value == v
  {
    var offset := i * len;
    SlotStartProduct(i, len);
    SlotDecode(buf, len, i, v);
    var (size, n) := Varint.Uvarint(buf[offset .. offset + len]);
    value := CopyFrom(buf[offset + n .. offset + len], size);
  }

  /** The decoding half of a re-pack step: binary.Uvarint on slot `i` gives
      the payload size and the header length, and the payload together with
      the rest of the slot follows the header. */
  method SlotPayload(buf: seq<byte>, len: nat, i: nat, ghost v: seq<byte>) returns (size: nat, src: seq<byte>)
    requires SlotHolds(buf, len, i, v) && |v| < Two63
    ensures size == |v| <= |src| && src[..size] == v
    ensures |Varint.PutUvarint(size)| + |src| == len
  {
    var offset := i * len;
    SlotStartProduct(i, len);
    SlotDecode(buf, len, i, v);
    var (sz, n1) := Varint.Uvarint(buf[offset .. offset + len]);
    size := sz;
    src := buf[offset + n1 .. offset + len];
  }

  /** Writing the frame of elems[i] into slot `i`, without touching the
      slots before it, extends the slots that hold elems[..i]. */
  lemma SlotsHoldExtend(a: seq<byte>, b: seq<byte>, len: nat, elems: seq<seq<byte>>, i: nat)
    requires i < |elems| && SlotsHold(a, len, elems[..i])
    requires |b| == |a| && SlotStart(i, len) <= |a| && b[..SlotStart(i, len)] == a[..SlotStart(i, len)]
    requires |elems[i]| < Two63 && SlotHolds(b, len, i, elems[i])
    ensures SlotsHold(b, len, elems[..i + 1])
  {
    SlotsKeep(a, b, len, elems[..i], SlotStart(i, len));
    SlotsHoldSnoc(b, len, elems[..i], elems[i]);
    assert elems[..i] + [elems[i]] == elems[..i + 1];
  }

  /** One step of the re-pack loop: the frame in slot `i` of the old
      buffer (stride `len`) is decoded and written again, varint and the
      rest of the old slot, at the start of slot `i` of the new buffer
      (stride `newLen`), after the `i` frames already moved there. */
  method RepackSlot(buf: seq<byte>, len: nat, ghost elems: seq<seq<byte>>, i: nat,
                    dst: seq<byte>, newLen: nat) returns (r: seq<byte>)
    requires SlotsHold(buf, len, elems) && i < |elems| <= ListMaxZiplistSize && len < newLen
    requires |dst| == SlotStart(ListMaxZiplistSize, newLen) && SlotsHold(dst, newLen, elems[..i])
    ensures |r| == |dst| && SlotsHold(r, newLen, elems[..i + 1])
  {
    SlotsHoldAt(buf, len, elems, i);
    var size, src := SlotPayload(buf, len, i, elems[i]);
    var p := i * newLen;
    SlotStartProduct(i, newLen);
    SlotBefore(i, ListMaxZiplistSize, newLen);
    r := PutFrame(dst, p, size, src);
    SlotsHoldExtend(dst, r, newLen, elems, i);
  }

  /** The append step of pushTail: the frame of `value` written at the
      start of slot `count`, after the `count` frames already there. */
  method WriteSlot(buf: seq<byte>, len: nat, count: nat, ghost elems: seq<seq<byte>>, value: seq<byte>) returns (r: seq<byte>)
    requires count == |elems| < ListMaxZiplistSize && |value| < Two63 && |Frame(value)| <= len
    requires |buf| == SlotStart(ListMaxZiplistSize, len) && SlotsHold(buf, len, elems)
    ensures |r| == |buf| && SlotsHold(r, len, elems + [value])
  {
    var offset := count * len;
    SlotStartProduct(count, len);
    SlotBefore(count, ListMaxZiplistSize, len);
    r := PutFrame(buf, offset, |value|, value);
    assert value[..|value|] == value;
    SlotsKeep(buf, r, len, elems, offset);
    SlotsHoldSnoc(r, len, elems, value);
  }

  /** A ziplist: `count` frames in `buf`, one per slot of `len` bytes. The
      Go node is a pointer that only its own list node holds, so the model
      keeps it as a value that the list replaces after each update. */
  datatype ZiplistNode = ZiplistNode(buf: seq<byte>, len: nat, count: nat)

  /** new(ZiplistNode): no buffer, stride 0, no elements. */
  const EmptyZiplist: ZiplistNode := ZiplistNode([], 0, 0)

  /** `zl` holds the elements `elems`, in order: one frame per slot of a
      buffer of ListMaxZiplistSize slots. */
  ghost predicate Holds(zl: ZiplistNode, elems: seq<seq<byte>>)
  {
    && zl.count == |elems| <= ListMaxZiplistSize
    && |zl.buf| == SlotStart(ListMaxZiplistSize, zl.len)
    && SlotsHold(zl.buf, zl.len, elems)
  }

  /** A new ziplist holds nothing. */
  lemma EmptyZiplistHolds()
    ensures Holds(EmptyZiplist, [])
  {
    SlotStartProduct(ListMaxZiplistSize, 0);
  }

  /** The re-pack loop of pushTail: a zeroed buffer of ListMaxZiplistSize
      slots of `newLen` bytes, into which every frame of the old buffer is
      decoded and written again at the start of its slot. */
  method Repack(zl: ZiplistNode, ghost elems: seq<seq<byte>>, newLen: nat) returns (newBuf: seq<byte>)
    requires Holds(zl, elems) && newLen > zl.len
    ensures Holds(ZiplistNode(newBuf, newLen, zl.count), elems)
  {
    newBuf := Zeros(newLen * ListMaxZiplistSize);
    SlotStartProduct(ListMaxZiplistSize, newLen);
    var i := 0;
    while i < zl.count
      invariant 0 <= i <= zl.count
      invariant |newBuf| == SlotStart(ListMaxZiplistSize, newLen)
      invariant SlotsHold(newBuf, newLen, elems[..i])
    {
      newBuf := RepackSlot(zl.buf, zl.len, elems, i, newBuf, newLen);
      i := i + 1;
    }
    assert elems[..i] == elems;
  }

  /** pushTail: appends `value` as a new frame. When the frame does not fit
      the stride, the buffer is replaced by one with the frame's length as
      stride and every existing frame is re-packed into it. A full node
      panics ("ziplist overflow"). */
  method PushTail(zl: ZiplistNode, ghost elems: seq<seq<byte>>, value: seq<byte>) returns (r: Result<ZiplistNode>)
    requires Holds(zl, elems) && |value| < Two63
    ensures zl.count >= ListMaxZiplistSize <==> r == Panic
    ensures r.Ok? ==> Holds(r.value, elems + [value])
    ensures r.Ok? ==> r.value.len == if |Frame(value)| > zl.len then |Frame(value)| else zl.len
  {
    if zl.count >= ListMaxZiplistSize {
      return Panic;
    }
    Varint.UvarintPutUvarint(|value|, []);
    var n := |Varint.PutUvarint(|value|)|;
    var newLen := n + |value|;
    assert newLen == |Frame(value)|;
    var buf, len := zl.buf, zl.len;
    if newLen > len {
      buf := Repack(zl, elems, newLen);
      len := newLen;
    }
    buf := WriteSlot(buf, len, zl.count, elems, value);
    r := Ok(ZiplistNode(buf, len, zl.count + 1));
  }

  /** popTail: decodes and returns the last frame and drops it from the
      count; the buffer itself is left as it is. An empty node panics
      ("pop from empty ziplist"). */
  method PopTail(zl: ZiplistNode, ghost elems: seq<seq<byte>>) returns (r: Result<(ZiplistNode, seq<byte>)>)
    requires Holds(zl, elems)
    ensures elems == [] <==> r == Panic
    ensures r.Ok? ==> && Holds(r.value.0, elems[..|elems| - 1])
                      && r.value.1 == elems[|elems| - 1]
                      && r.value.0.buf == zl.buf && r.value.0.len == zl.len
  {
    if zl.count == 0 {
      return Panic;
    }
    SlotsHoldAt(zl.buf, zl.len, elems, zl.count - 1);
    var value := ReadSlot(zl.buf, zl.len, zl.count - 1, elems[zl.count - 1]);
    SlotsHoldPrefix(zl.buf, zl.len, elems, zl.count - 1);
    r := Ok((ZiplistNode(zl.buf, zl.len, zl.count - 1), value));
  }

  /** The inner loop of GetAll: decodes the frames of one node in slot
      order. */
  method Values(zl: ZiplistNode, ghost elems: seq<seq<byte>>) returns (values: seq<seq<byte>>)
    requires Holds(zl, elems)
    ensures values == elems
  {
    values := [];
    var i := 0;
    while i < zl.count
      invariant 0 <= i <= zl.count
      invariant values == elems[..i]
    {
      SlotsHoldAt(zl.buf, zl.len, elems, i);
      var value := ReadSlot(zl.buf, zl.len, i, elems[i]);
      values := values + [value];
      assert elems[..i + 1] == elems[..i] + [elems[i]];
      i := i + 1;
    }
    assert elems[..i] == elems;
  }

  /** Node by node, each ziplist holds its chunk of elements, and no chunk
      is empty. */
  ghost predicate NodesHold(nodes: seq<ZiplistNode>, chunks: seq<seq<seq<byte>>>)
    decreases |nodes|
  {
    && |nodes| == |chunks|
    && (nodes == [] ||
        (&& NodesHold(nodes[..|nodes| - 1], chunks[..|chunks| - 1])
         && chunks[|chunks| - 1] != []
         && Holds(nodes[|nodes| - 1], chunks[|chunks| - 1])))
  }

  lemma {:induction false} NodesHoldAt(nodes: seq<ZiplistNode>, chunks: seq<seq<seq<byte>>>, i: nat)
    requires NodesHold(nodes, chunks) && i < |nodes|
    ensures chunks[i] != [] && Holds(nodes[i], chunks[i])
    decreases |nodes|
  {
    if i < |nodes| - 1 {
      NodesHoldAt(nodes[..|nodes| - 1], chunks[..|chunks| - 1], i);
    }
  }

  lemma NodesHoldSnoc(nodes: seq<ZiplistNode>, chunks: seq<seq<seq<byte>>>, zl: ZiplistNode, chunk: seq<seq<byte>>)
    requires NodesHold(nodes, chunks) && chunk != [] && Holds(zl, chunk)
    ensures NodesHold(nodes + [zl], chunks + [chunk])
  {
    assert (nodes + [zl])[..|nodes|] == nodes;
    assert (chunks + [chunk])[..|chunks|] == chunks;
  }

  lemma NodesHoldUpdateLast(nodes: seq<ZiplistNode>, chunks: seq<seq<seq<byte>>>, zl: ZiplistNode, chunk: seq<seq<byte>>)
    requires NodesHold(nodes, chunks) && nodes != [] && chunk != [] && Holds(zl, chunk)
    ensures NodesHold(nodes[|nodes| - 1 := zl], chunks[|chunks| - 1 := chunk])
  {
    var last := |nodes| - 1;
    assert nodes[last := zl][..last] == nodes[..last];
    assert chunks[last := chunk][..last] == chunks[..last];
  }

  /** The node-chain step of Push: `value` goes to the tail ziplist while
      it has room, otherwise into a new tail node; `added` tells which. */
  method PushNodes(nodes: seq<ZiplistNode>, ghost chunks: seq<seq<seq<byte>>>, value: seq<byte>)
    returns (r: seq<ZiplistNode>, ghost rc: seq<seq<seq<byte>>>, added: bool)
    requires NodesHold(nodes, chunks) && |value| < Two63
    ensures NodesHold(r, rc) && Flatten(rc) == Flatten(chunks) + [value]
    ensures added <==> nodes == [] || |chunks[|chunks| - 1]| == ListMaxZiplistSize
    ensures |r| == |nodes| + if added then 1 else 0
  {
    if nodes != [] {
      NodesHoldAt(nodes, chunks, |nodes| - 1);
    }
    if nodes != [] && nodes[|nodes| - 1].count < ListMaxZiplistSize {
      var last := |nodes| - 1;
      var zl := PushTail(nodes[last], chunks[last], value);
      NodesHoldUpdateLast(nodes, chunks, zl.value, chunks[last] + [value]);
      FlattenAppendLast(chunks, value);
      r, rc, added := nodes[last := zl.value], chunks[last := chunks[last] + [value]], false;
    } else {
      EmptyZiplistHolds();
      var zl := PushTail(EmptyZiplist, [], value);
      assert [] + [value] == [value];
      NodesHoldSnoc(nodes, chunks, zl.value, [value]);
      FlattenSnoc(chunks, [value]);
      r, rc, added := nodes + [zl.value], chunks + [[value]], true;
    }
  }

  /** The node-chain step of Pop: the last element is taken from the tail
      ziplist, and a tail node left empty is dropped; `removed` tells
      which. */
  method PopNodes(nodes: seq<ZiplistNode>, ghost chunks: seq<seq<seq<byte>>>)
    returns (r: seq<ZiplistNode>, ghost rc: seq<seq<seq<byte>>>, value: seq<byte>, removed: bool)
    requires NodesHold(nodes, chunks) && nodes != []
    ensures NodesHold(r, rc)
    ensures var f := Flatten(chunks); f != [] && value == f[|f| - 1] && Flatten(rc) == f[..|f| - 1]
    ensures removed <==> |chunks[|chunks| - 1]| == 1
    ensures |r| == |nodes| - if removed then 1 else 0
  {
    var last := |nodes| - 1;
    NodesHoldAt(nodes, chunks, last);
    FlattenRemoveLast(chunks);
    ghost var lastChunk := chunks[last];
    var res := PopTail(nodes[last], lastChunk);
    var (zl, v) := res.value;
    value := v;
    if zl.count == 0 {
      r, rc, removed := nodes[..last], chunks[..last], true;
    } else {
      NodesHoldUpdateLast(nodes, chunks, zl, lastChunk[..|lastChunk| - 1]);
      r, rc, removed := nodes[last := zl], chunks[last := lastChunk[..|lastChunk| - 1]], false;
    }
  }

  /** The quick list. The chain of QuickListNode values from head to tail
      is held as the sequence `nodes` of their ziplists, in order: the head
      is nodes[0] and the tail is nodes[|nodes| - 1]. */
  class QuickList {
    var nodes: seq<ZiplistNode>
    var count: int   // count of elements
    var len: int     // count of nodes
    ghost var chunks: seq<seq<seq<byte>>>   // the elements of each node
    ghost var Contents: seq<seq<byte>>

    ghost predicate Valid()
      reads this
    {
      && |nodes| == len
      && count == |Contents|
      && Contents == Flatten(chunks)
      && NodesHold(nodes, chunks)
    }

    /** new(QuickList): no nodes, no elements. */
    constructor ()
      ensures Valid() && Contents == [] && len == 0
    {
      nodes := [];
      count := 0;
      len := 0;
      chunks := [];
      Contents := [];
    }

    /** Size: the running element count. */
    method Size() returns (n: int)
      requires Valid()
      ensures n == |Contents|
    {
      n := count;
    }

    /** Push: appends to the tail node while it has room, otherwise adds a
        new tail node holding just `value`. */
    method Push(value: seq<byte>)
      requires Valid() && |value| < Two63
      modifies this
      ensures Valid() && Contents == old(Contents) + [value]
      ensures len == old(len) + if old(len) == 0 || |old(chunks)[old(len) - 1]| == ListMaxZiplistSize then 1 else 0
    {
      var r, rc, added := PushNodes(nodes, chunks, value);
      nodes, chunks, count, Contents := r, rc, count + 1, Contents + [value];
      if added {
        len := len + 1;
      }
    }

    /** Pop: removes and returns the last element; a tail node left empty is
        dropped from the chain. On an empty list it returns nil and changes
        nothing. */
    method Pop() returns (value: Option<seq<byte>>)
      requires Valid()
      modifies this
      ensures Valid()
      ensures old(Contents) == [] ==> value == None && unchanged(this)
      ensures old(Contents) != [] ==> value == Some(old(Contents)[|old(Contents)| - 1])
      ensures old(Contents) != [] ==> Contents == old(Contents)[..|old(Contents)| - 1]
      ensures len == old(len) - if old(len) > 0 && |old(chunks)[old(len) - 1]| == 1 then 1 else 0
    {
      if nodes == [] {
        return None;
      }
      var r, rc, v, removed := PopNodes(nodes, chunks);
      nodes, chunks, count, Contents := r, rc, count - 1, Contents[..|Contents| - 1];
      if removed {
        len := len - 1;
      }
      value := Some(v);
    }

    /** GetAll: walks the nodes from head to tail and decodes every frame of
        every node, in order. */
    method GetAll() returns (values: seq<seq<byte>>)
      requires Valid()
      ensures values == Contents
    {
      values := [];
      var k := 0;
      while k < |nodes|
        invariant 0 <= k <= |nodes|
        invariant values == Flatten(chunks[..k])
      {
        NodesHoldAt(nodes, chunks, k);
        var vs := Values(nodes[k], chunks[k]);
        values := values + vs;
        FlattenSnoc(chunks[..k], chunks[k]);
        assert chunks[..k + 1] == chunks[..k] + [chunks[k]];
        k := k + 1;
      }
      assert chunks[..k] == chunks;
    }
  }

  /** The quick list's own test: the six items pushed one by one (more than
      one ziplist's worth) come back from GetAll in order. */
  method PushSixGetAll() returns (values: seq<seq<byte>>, size: int)
    ensures values == [[0x31], [0x32, 0x32], [0x33], [0x34], [0x35], [0x36]]
    ensures size == 6
  {
    var items: seq<seq<byte>> := [[0x31], [0x32, 0x32], [0x33], [0x34], [0x35], [0x36]];
    var list := new QuickList();
    var i := 0;
    while i < |items|
      invariant 0 <= i <= |items|
      invariant list.Valid() && list.Contents == items[..i]
    {
      list.Push(items[i]);
      assert items[..i + 1] == items[..i] + [items[i]];
      i := i + 1;
    }
    assert items[..i] == items;
    values := list.GetAll();
    size := list.Size();
  }

  /** Appending to the last node appends to the list's elements. */
  lemma FlattenAppendLast(c: seq<seq<seq<byte>>>, v: seq<byte>)
    requires c != []
    ensures Flatten(c[|c| - 1 := c[|c| - 1] + [v]]) == Flatten(c) + [v]
  {
    var last := |c| - 1;
    var d := c[last := c[last] + [v]];
    assert d[..last] == c[..last];
  }

  /** The list's last element is the last element of its last node, and
      dropping it from that node drops it from the list; when it was the
      node's only element, dropping the node does the same. */
  lemma FlattenRemoveLast(c: seq<seq<seq<byte>>>)
    requires c != [] && c[|c| - 1] != []
    ensures var f, l := Flatten(c), c[|c| - 1];
            && f != [] && f[|f| - 1] == l[|l| - 1]
            && Flatten(c[|c| - 1 := l[..|l| - 1]]) == f[..|f| - 1]
            && (|l| == 1 ==> Flatten(c[..|c| - 1]) == f[..|f| - 1])
  {
    var last := |c| - 1;
    var l := c[last];
    var d := c[last := l[..|l| - 1]];
    assert d[..last] == c[..last];
    assert Flatten(c) == Flatten(c[..last]) + l;
    assert l == l[..|l| - 1] + [l[|l| - 1]];
  }

  lemma FlattenSnoc(c: seq<seq<seq<byte>>>, x: seq<seq<byte>>)
    ensures Flatten(c + [x]) == Flatten(c) + x
  {
    assert (c + [x])[..|c|] == c;
  }


}
