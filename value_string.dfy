/** A string value stored in a raw region: byte 0 is the encoding tag (raw,
    string or integer) and the payload starts at byte 1, either bytes or one
    8-byte int64. Memory is an array of bytes that a `Bytes` descriptor
    indexes by address; the readers are functions of the memory's contents. */
module ValueString {
  import opened GoTypes
  import opened Value

  const StringEncodingRaw: byte := 0
  const StringEncodingString: byte := 1
  const StringEncodingInteger: byte := 2

  /** The descriptor's bytes lie inside memory. */
  predicate Backed(m: seq<byte>, b: Bytes)
  {
    0 <= b.ptr && b.ptr + b.len <= |m|
  }

  /** The payload's descriptor: one byte further on, one byte shorter (the
      adjustment each operation makes to its own copy). */
  function Payload(b: Bytes): Bytes
  {
    Bytes(b.ptr + 1, b.len - 1, b.cap - 1)
  }

  /** The payload of a region that holds its tag is the rest of that
      region: it lies in memory, starts right after the tag and ends where
      the region ends, and its bytes are the region's bytes after the tag. */
  lemma PayloadAfterTag(m: seq<byte>, b: Bytes)
    requires Backed(m, b) && b.len >= 1
    ensures Backed(m, Payload(b))
    ensures Payload(b).ptr == b.ptr + 1 && Payload(b).ptr + Payload(b).len == b.ptr + b.len
    ensures m[Payload(b).ptr..Payload(b).ptr + Payload(b).len] == m[b.ptr..b.ptr + b.len][1..]
  {
  }

  /** Memory with `src` written over it from address `off`. */
  function Write(m: seq<byte>, off: nat, src: seq<byte>): (r: seq<byte>)
    requires off + |src| <= |m|
    ensures |r| == |m| && r[off..off + |src|] == src
    ensures forall j :: 0 <= j < |m| && !(off <= j < off + |src|) ==> r[j] == m[j]
  {
    m[..off] + src + m[off + |src|..]
  }

  /** The `n` little-endian base-256 digits of `u` (modulo 256^n). */
  function LittleEndian(u: nat, n: nat): (s: seq<byte>)
    ensures |s| == n
  {
    if n == 0 then [] else [u % 0x100] + LittleEndian(u / 0x100, n - 1)
  }

  /** The number whose little-endian base-256 digits are `s`. */
  function LittleEndianValue(s: seq<byte>): nat
  {
    if s == [] then 0 else s[0] + 0x100 * LittleEndianValue(s[1..])
  }

  function Pow256(n: nat): (p: nat)
    ensures p >= 1
  {
    if n == 0 then 1 else 0x100 * Pow256(n - 1)
  }

  /** The 8 bytes an int64 occupies in memory: its two's complement,
      least significant byte first. */
  function EncodeInt64(x: int64): (s: seq<byte>)
    ensures |s| == 8
  {
    LittleEndian(x % Two64, 8)
  }

  /** The int64 that 8 bytes of memory hold. */
  function DecodeInt64(s: seq<byte>): int64
    requires |s| == 8
  {
    Wrap64(LittleEndianValue(s))
  }

  lemma {:induction false} LittleEndianRoundTrip(u: nat, n: nat)
    ensures LittleEndianValue(LittleEndian(u, n)) == u % Pow256(n)
    decreases n
  {
    if n > 0 {
      var s := LittleEndian(u, n);
      assert s[1..] == LittleEndian(u / 0x100, n - 1);
      LittleEndianRoundTrip(u / 0x100, n - 1);
      DivMod256(u, Pow256(n - 1));
    }
  }

  /** u mod 256·p, split into its lowest digit and the rest. */
  lemma DivMod256(u: nat, p: nat)
    requires p >= 1
    ensures u % (0x100 * p) == u % 0x100 + 0x100 * ((u / 0x100) % p)
  {
    var q := u / 0x100;
    var e := q % p;
    var rem := u % 0x100 + 0x100 * e;
    assert q == p * (q / p) + e;
    assert u == (0x100 * p) * (q / p) + rem;
    ModUnique(u, 0x100 * p, q / p, rem);
  }

  /** The remainder is the only one in range. */
  lemma ModUnique(u: nat, n: nat, k: int, rem: int)
    requires n > 0 && u == n * k + rem && 0 <= rem < n
    ensures u % n == rem
  {
    var q := u / n;
    assert n * (q - k) == rem - u % n;
    if q > k {
      MulAtLeast(n, q - k);
    } else if q < k {
      MulAtLeast(n, k - q);
    }
  }

  lemma MulAtLeast(n: nat, d: int)
    requires d >= 1
    ensures n * d >= n
  {
  }

  lemma Pow256Eight()
    ensures Pow256(8) == Two64
  {
  }

  /** Round trip: the int64 stored is the int64 read back, so the encoding
      is injective. */
  lemma DecodeEncodeInt64(x: int64)
    ensures DecodeInt64(EncodeInt64(x)) == x
  {
    EncodeInt64Value(x);
    WrapTwosComplement(x);
  }

  lemma EncodeInt64Value(x: int64)
    ensures LittleEndianValue(EncodeInt64(x)) == x % Two64
  {
    var u := x % Two64;
    LittleEndianRoundTrip(u, 8);
    Pow256Eight();
    assert u % Two64 == u;
  }

  /** Reading a two's complement back as an int64 gives the int64. */
  lemma WrapTwosComplement(x: int64)
    ensures Wrap64(x % Two64) == x
  {
    var u := x % Two64;
    assert u % Two64 == u;
    if x < 0 {
      assert u == x + Two64;
    } else {
      assert u == x;
    }
  }

  /** StringEncoding: byte 0 of the region, through a byte view that panics
      on an empty region. */
  function StringEncoding(m: seq<byte>, b: Bytes): (r: Result<byte>)
    requires Backed(m, b)
    ensures r.Panic? <==> b.len < 1 || b.cap < 1
    ensures r.Ok? ==> r.value == m[b.ptr]
  {
    match Slice(Byte, b)
    case Panic => Panic
    case Ok(view) => Ok(m[view.data])
  }

  /** StringGetBytes: the region after the tag, every byte of it. */
  function StringGetBytes(m: seq<byte>, b: Bytes): (r: Result<seq<byte>>)
    requires Backed(m, b)
    ensures r.Panic? <==> b.len < 2 || b.cap < 2
    ensures r.Ok? ==> |r.value| == b.len - 1
    ensures r.Ok? ==> r.value == m[b.ptr + 1..b.ptr + b.len]
  {
    match Slice(Byte, Payload(b))
    case Panic => Panic
    case Ok(view) => Ok(m[view.data..view.data + view.len])
  }

  /** StringGetInt: the int64 stored just after the tag; the tag itself is
      not looked at. */
  function StringGetInt(m: seq<byte>, b: Bytes): (r: Result<int64>)
    requires Backed(m, b)
    ensures r.Panic? <==> b.len < 9 || b.cap < 9
  {
    match Slice(Int64, Payload(b))
    case Panic => Panic
    case Ok(view) => Ok(DecodeInt64(m[view.data..view.data + 8]))
  }

  /** How much of `value` StringSetString copies: Go's `copy` stops at the
      shorter of the value and the payload. */
  function CopyCount(b: Bytes, value: seq<byte>): (k: nat)
    requires b.len >= 2
    ensures k <= |value| && k <= b.len - 1
    ensures k == |value| || k == b.len - 1
  {
    Min(|value|, b.len - 1)
  }

  /** Memory after a StringSetString that does not panic: the string tag,
      then as much of the value as fits. */
  function SetStringImage(m: seq<byte>, b: Bytes, value: seq<byte>): (r: seq<byte>)
    requires Backed(m, b) && b.len >= 2
    ensures |r| == |m|
  {
    Write(Write(m, b.ptr, [StringEncodingString]), b.ptr + 1, value[..CopyCount(b, value)])
  }

  /** Memory after a StringSetInt that does not panic. */
  function SetIntImage(m: seq<byte>, b: Bytes, x: int64): (r: seq<byte>)
    requires Backed(m, b) && b.len >= 9
    ensures |r| == |m|
  {
    Write(Write(m, b.ptr, [StringEncodingInteger]), b.ptr + 1, EncodeInt64(x))
  }

  /** Copies `src` into memory from address `off`. */
  method WriteBytes(mem: array<byte>, off: nat, src: seq<byte>)
    requires off + |src| <= mem.Length
    modifies mem
    ensures mem[..] == Write(old(mem[..]), off, src)
  {
    ghost var m := mem[..];
    var i := 0;
    while i < |src|
      invariant 0 <= i <= |src|
      invariant mem[..] == Write(m, off, src[..i])
    {
      WriteStep(mem[..], m, off, src, i);
      mem[off + i] := src[i];
      i := i + 1;
    }
    assert src[..i] == src;
  }

  lemma WriteStep(cur: seq<byte>, m: seq<byte>, off: nat, src: seq<byte>, i: nat)
    requires off + |src| <= |m| && i < |src| && cur == Write(m, off, src[..i])
    ensures cur[off + i := src[i]] == Write(m, off, src[..i + 1])
  {
    var a := cur[off + i := src[i]];
    var c := Write(m, off, src[..i + 1]);
    forall j | 0 <= j < |m|
      ensures a[j] == c[j]
    {
      if off <= j < off + i + 1 {
        assert c[off..off + i + 1][j - off] == src[..i + 1][j - off];
        if j < off + i {
          assert cur[off..off + i][j - off] == src[..i][j - off];
        }
      }
    }
  }

  /** StringSetString: writes the string tag at byte 0, then copies the value
      after it; an empty region panics before writing, a one-byte region
      panics after the tag. */
  method StringSetString(mem: array<byte>, b: Bytes, value: seq<byte>) returns (panicked: bool)
    requires Backed(mem[..], b)
    modifies mem
    ensures panicked <==> b.len < 2 || b.cap < 2
    ensures (b.len < 1 || b.cap < 1) ==> mem[..] == old(mem[..])
    ensures panicked && b.len >= 1 && b.cap >= 1 ==>
      mem[..] == Write(old(mem[..]), b.ptr, [StringEncodingString])
    ensures !panicked ==> mem[..] == SetStringImage(old(mem[..]), b, value)
  {
    if Slice(Byte, b).Panic? {
      return true;
    }
    mem[b.ptr] := StringEncodingString;
    assert mem[..] == Write(old(mem[..]), b.ptr, [StringEncodingString]);
    var payload := Payload(b);
    var view := Slice(Byte, payload);
    if view.Panic? {
      return true;
    }
    WriteBytes(mem, payload.ptr, value[..Min(|value|, view.value.len)]);
    panicked := false;
  }

  /** StringSetInt: writes the integer tag at byte 0, then the int64 after
      it; a region of fewer than 9 bytes panics, after the tag if it has any
      byte at all. */
  method StringSetInt(mem: array<byte>, b: Bytes, x: int64) returns (panicked: bool)
    requires Backed(mem[..], b)
    modifies mem
    ensures panicked <==> b.len < 9 || b.cap < 9
    ensures (b.len < 1 || b.cap < 1) ==> mem[..] == old(mem[..])
    ensures panicked && b.len >= 1 && b.cap >= 1 ==>
      mem[..] == Write(old(mem[..]), b.ptr, [StringEncodingInteger])
    ensures !panicked ==> mem[..] == SetIntImage(old(mem[..]), b, x)
  {
    if Slice(Byte, b).Panic? {
      return true;
    }
    mem[b.ptr] := StringEncodingInteger;
    assert mem[..] == Write(old(mem[..]), b.ptr, [StringEncodingInteger]);
    var payload := Payload(b);
    if Slice(Int64, payload).Panic? {
      return true;
    }
    WriteBytes(mem, payload.ptr, EncodeInt64(x));
    panicked := false;
  }

  /** StringIncr: adds `delta` to the stored int64 with two's-complement
      wrap-around, stores the sum and returns it; the tag is neither checked
      nor written. */
  method StringIncr(mem: array<byte>, b: Bytes, delta: int64) returns (r: Result<int64>)
    requires Backed(mem[..], b)
    modifies mem
    ensures r.Panic? <==> b.len < 9 || b.cap < 9
    ensures r.Panic? ==> mem[..] == old(mem[..])
    ensures r.Ok? ==> StringGetInt(old(mem[..]), b).Ok?
    ensures r.Ok? ==> r.value == Wrap64(StringGetInt(old(mem[..]), b).value + delta)
    ensures r.Ok? ==> mem[..] == Write(old(mem[..]), b.ptr + 1, EncodeInt64(r.value))
  {
    var payload := Payload(b);
    var view := Slice(Int64, payload);
    if view.Panic? {
      return Panic;
    }
    var old64 := DecodeInt64(mem[payload.ptr..payload.ptr + 8]);
    var sum := Wrap64(old64 + delta);
    WriteBytes(mem, payload.ptr, EncodeInt64(sum));
    r := Ok(sum);
  }

  /** After StringSetString the encoding is "string", and the payload is as
      long as the region less its tag and begins with the value (all of it
      when it fits, else as much as fits). */
  lemma GetBytesAfterSetString(m: seq<byte>, b: Bytes, value: seq<byte>)
    requires Backed(m, b) && b.len >= 2 && b.cap >= 2
    ensures StringEncoding(SetStringImage(m, b, value), b) == Ok(StringEncodingString)
    ensures StringGetBytes(SetStringImage(m, b, value), b).Ok?
    ensures |StringGetBytes(SetStringImage(m, b, value), b).value| == b.len - 1
    ensures |value| <= b.len - 1 ==> StringGetBytes(SetStringImage(m, b, value), b).value[..|value|] == value
    ensures |value| > b.len - 1 ==> StringGetBytes(SetStringImage(m, b, value), b).value == value[..b.len - 1]
  {
    var k := CopyCount(b, value);
    var m1 := Write(m, b.ptr, [StringEncodingString]);
    var r := SetStringImage(m, b, value);
    assert r[b.ptr] == m1[b.ptr] == StringEncodingString;
    var got := r[b.ptr + 1..b.ptr + b.len];
    assert got[..k] == r[b.ptr + 1..b.ptr + 1 + k];
  }

  /** After StringSetInt the encoding is "integer" and StringGetInt returns
      the value stored. */
  lemma GetIntAfterSetInt(m: seq<byte>, b: Bytes, x: int64)
    requires Backed(m, b) && b.len >= 9 && b.cap >= 9
    ensures StringEncoding(SetIntImage(m, b, x), b) == Ok(StringEncodingInteger)
    ensures StringGetInt(SetIntImage(m, b, x), b) == Ok(x)
  {
    var m1 := Write(m, b.ptr, [StringEncodingInteger]);
    var r := SetIntImage(m, b, x);
    assert r[b.ptr] == m1[b.ptr] == StringEncodingInteger;
    assert r[b.ptr + 1..b.ptr + 9] == EncodeInt64(x);
    DecodeEncodeInt64(x);
  }

  /** After StringIncr, StringGetInt returns the wrapped sum it returned,
      and the tag byte is as it was. */
  lemma GetIntAfterIncr(m: seq<byte>, b: Bytes, sum: int64)
    requires Backed(m, b) && b.len >= 9 && b.cap >= 9
    ensures StringGetInt(Write(m, b.ptr + 1, EncodeInt64(sum)), b) == Ok(sum)
    ensures StringEncoding(Write(m, b.ptr + 1, EncodeInt64(sum)), b) == StringEncoding(m, b)
  {
    var r := Write(m, b.ptr + 1, EncodeInt64(sum));
    assert r[b.ptr + 1..b.ptr + 9] == EncodeInt64(sum);
    DecodeEncodeInt64(sum);
  }
}
