/** The 64-bit FNV-1a hash of Fowler, Noll and Vo: starting from the
    offset basis, each key byte is xored into the hash, which is then
    multiplied by the FNV prime modulo 2^64. */
module Fnv {
  import opened GoTypes

  const Offset64: uint64 := 14695981039346656037
  const Prime64: uint64 := 1099511628211

  /** Bitwise exclusive or of two bytes. */
  function XorByte(x: byte, y: byte): (r: byte)
  {
    ((x as bv8) ^ (y as bv8)) as byte
  }

  /** `h ^ uint64(b)`: a byte xored into a uint64 changes only its low byte. */
  function Xor(h: uint64, b: byte): (r: uint64)
    ensures r / 0x100 == h / 0x100
    ensures r % 0x100 == XorByte(h % 0x100, b)
  {
    h / 0x100 * 0x100 + XorByte(h % 0x100, b)
  }

  /** The hash with one more byte folded in. */
  function Step(h: uint64, b: byte): (r: uint64)
  {
    Xor(h, b) * Prime64 % Two64
  }

  /** The steps folded over `key` from hash `h`, first byte first. */
  function FoldFrom(h: uint64, key: seq<byte>): uint64
    decreases |key|
  {
    if key == [] then h else FoldFrom(Step(h, key[0]), key[1..])
  }

  /** FNV-1a 64 of `key`. */
  function Hash(key: seq<byte>): uint64
  {
    FoldFrom(Offset64, key)
  }

  /** Folding over two pieces one after the other is folding over the whole. */
  lemma {:induction false} FoldFromConcat(h: uint64, a: seq<byte>, b: seq<byte>)
    ensures FoldFrom(h, a + b) == FoldFrom(FoldFrom(h, a), b)
    decreases |a|
  {
    if a == [] {
      assert a + b == b;
    } else {
      var h1 := Step(h, a[0]);
      assert (a + b)[0] == a[0] && (a + b)[1..] == a[1..] + b;
      assert FoldFrom(h, a + b) == FoldFrom(h1, a[1..] + b);
      assert FoldFrom(h, a) == FoldFrom(h1, a[1..]);
      FoldFromConcat(h1, a[1..], b);
    }
  }

  /** Sum64(a + b) continues from Sum64(a) over the bytes of b. */
  lemma HashConcat(a: seq<byte>, b: seq<byte>)
    ensures Hash(a + b) == FoldFrom(Hash(a), b)
  {
    FoldFromConcat(Offset64, a, b);
  }

  /** Sum64 of one more byte is one more step. */
  lemma HashSnoc(a: seq<byte>, x: byte)
    ensures Hash(a + [x]) == Step(Hash(a), x)
  {
    HashConcat(a, [x]);
    assert FoldFrom(Step(Hash(a), x), []) == Step(Hash(a), x);
    assert [x][1..] == [];
  }

  /** The empty key hashes to the offset basis. */
  lemma HashEmpty()
    ensures Hash([]) == 14695981039346656037
  {
  }

  /** The published FNV-1a 64 value for the one-byte key "a". */
  lemma HashOfA()
    ensures Hash([0x61]) == 0xaf63dc4c8601ec8c
  {
    assert Offset64 % 0x100 == 0x25 && Offset64 / 0x100 == 0xcbf29ce4842223;
    assert XorByte(0x25, 0x61) == 0x44;
    assert Xor(Offset64, 0x61) == 0xcbf29ce484222344;
    assert 0xcbf29ce484222344 * Prime64 == 0xcbf2_9ce5_deaf_63dc_4c86_01ec_8c;
    assert Step(Offset64, 0x61) == 0xaf63dc4c8601ec8c;
    assert [0x61][1..] == [];
  }

  /** Sum64: the loop over the key's bytes. */
  method Sum64(key: seq<byte>) returns (hash: uint64)
    ensures hash == Hash(key)
  {
    hash := Offset64;
    var i := 0;
    while i < |key|
      invariant 0 <= i <= |key|
      invariant hash == Hash(key[..i])
    {
      HashSnoc(key[..i], key[i]);
      assert key[..i] + [key[i]] == key[..i + 1];
      hash := Step(hash, key[i]);
      i := i + 1;
    }
    assert key[..i] == key;
  }
}
