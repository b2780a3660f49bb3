/** The unsigned base-128 varint of Go's `encoding/binary` (the Protocol
    Buffers varint): seven payload bits per byte, least significant group
    first, the high bit set on every byte but the last. The quick list frames
    every element with it. */
module Varint {
  import opened GoTypes

  /** binary.MaxVarintLen64: no uint64 needs more bytes than this. */
  const MaxVarintLen64: nat := 10

  /** The bytes binary.PutUvarint writes for `x`. */
  function PutUvarint(x: nat): (r: seq<byte>)
    decreases x
  {
    if x < 0x80 then [x] else [x % 0x80 + 0x80] + PutUvarint(x / 0x80)
  }

  /** binary.Uvarint on the bytes of `buf`, when `i` bytes were consumed
      before them: the value of the groups read from here on and the total
      count of bytes read;
      count 0 means `buf` ended too early, a negative count -(k+1) means the
      value overflows 64 bits at byte k (and the value is then 0). */
  function UvarintFrom(buf: seq<byte>, i: nat): (r: (nat, int))
    requires i <= MaxVarintLen64
    decreases |buf|
  {
    if |buf| == 0 then (0, 0)
    else if i == MaxVarintLen64 then (0, -(i + 1))
    else if buf[0] < 0x80 then
      if i == MaxVarintLen64 - 1 && buf[0] > 1 then (0, -(i + 1))
      else (buf[0], i + 1)
    else
      var (x, n) := UvarintFrom(buf[1..], i + 1);
      if n <= 0 then (0, n) else (buf[0] - 0x80 + 0x80 * x, n)
  }

  /** binary.Uvarint(buf). */
  function Uvarint(buf: seq<byte>): (nat, int)
  {
    UvarintFrom(buf, 0)
  }

  /** The largest value whose varint still fits when `i` bytes have already
      been consumed, plus one: 2 * 128^(9-i). */
  function Room(i: nat): (b: nat)
    requires i < MaxVarintLen64
    decreases MaxVarintLen64 - i
  {
    if i == MaxVarintLen64 - 1 then 2 else 0x80 * Room(i + 1)
  }

  lemma RoomAtStart()
    ensures Room(0) == Two64
  {
    assert Room(9) == 2;
    assert Room(8) == 0x100;
    assert Room(7) == 0x8000;
    assert Room(6) == 0x40_0000;
    assert Room(5) == 0x2000_0000;
    assert Room(4) == 0x10_0000_0000;
    assert Room(3) == 0x800_0000_0000;
    assert Room(2) == 0x4_0000_0000_0000;
    assert Room(1) == 0x200_0000_0000_0000;
  }

  /** A varint is one to ten bytes long. */
  lemma {:induction false} PutUvarintLength(x: nat, i: nat)
    requires i < MaxVarintLen64 && x < Room(i)
    ensures 1 <= |PutUvarint(x)| <= MaxVarintLen64 - i
    decreases x
  {
    if x >= 0x80 {
      assert i < MaxVarintLen64 - 1;
      PutUvarintLength(x / 0x80, i + 1);
    }
  }

  /** Decoding a varint written at byte `i` of a longer buffer gives back
      the value and the count of bytes it took. */
  lemma {:induction false} UvarintFromPut(x: nat, rest: seq<byte>, i: nat)
    requires i < MaxVarintLen64 && x < Room(i)
    ensures UvarintFrom(PutUvarint(x) + rest, i) == (x, i + |PutUvarint(x)|)
    decreases x
  {
    var buf := PutUvarint(x) + rest;
    if x < 0x80 {
      assert buf[0] == x;
      if i == MaxVarintLen64 - 1 {
        assert x < 2;
      }
    } else {
      assert i < MaxVarintLen64 - 1;
      var q := x / 0x80;
      assert q < Room(i + 1);
      assert buf[0] == x % 0x80 + 0x80;
      assert buf[1..] == PutUvarint(q) + rest;
      UvarintFromPut(q, rest, i + 1);
    }
  }

  /** Round trip: binary.Uvarint reads back what binary.PutUvarint wrote, for
      every uint64, whatever follows the varint in the buffer. */
  lemma UvarintPutUvarint(x: uint64, rest: seq<byte>)
    ensures 1 <= |PutUvarint(x)| <= MaxVarintLen64
    ensures Uvarint(PutUvarint(x) + rest) == (x, |PutUvarint(x)|)
  {
    RoomAtStart();
    PutUvarintLength(x, 0);
    UvarintFromPut(x, rest, 0);
  }
}
