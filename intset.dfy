/** The integer set: an unsorted, duplicate-free slice of integers stored as
    []int16, []int32 or []int64. A set widens (migrating every element) when
    a value does not fit its element type, and never narrows again. */
module Intset {
  import opened GoTypes

  /** The three element types of a set. */
  datatype Width = W16 | W32 | W64

  /** IntsetEncodingInt16/32/64 = 1<<1, 1<<2, 1<<3: the element size in bytes. */
  function Code(w: Width): int
  {
    match w
    case W16 => 2
    case W32 => 4
    case W64 => 8
  }

  /** Half the value range of the element type: 2^15, 2^31, 2^63. */
  function Half(w: Width): int
  {
    match w
    case W16 => 0x8000
    case W32 => 0x8000_0000
    case W64 => Two63
  }

  /** `v` is representable in the element type. */
  predicate Fits(w: Width, v: int)
  {
    -Half(w) <= v < Half(w)
  }

  /** A wider element type holds every value a narrower one does. */
  lemma FitsWider(w: Width, u: Width, v: int)
    requires Fits(w, v) && Code(w) <= Code(u)
    ensures Fits(u, v)
  {
  }

  /** intsetValueEncoding: the narrowest element type that holds `v`. */
  function IntsetValueEncoding(v: int64): (w: Width)
    ensures Fits(w, v)
    ensures forall u :: Fits(u, v) ==> Code(w) <= Code(u)
  {
    if v < -0x8000_0000 || v > 0x7FFF_FFFF then W64
    else if v < -0x8000 || v > 0x7FFF then W32
    else W16
  }

  /** Go's conversion T(value) of an int64 to the element type: keep the low
      bits and read them back as two's complement. */
  function Truncate(w: Width, v: int64): (t: int64)
    ensures Fits(w, t)
    ensures (t - v) % (2 * Half(w)) == 0
    ensures Fits(w, v) ==> t == v
  {
    match w
    case W16 => Int16(v)
    case W32 => Int32(v)
    case W64 => v
  }

  /** int16(v). */
  function Int16(v: int64): (t: int64)
    ensures -0x8000 <= t < 0x8000
    ensures (t - v) % 0x1_0000 == 0
    ensures -0x8000 <= v < 0x8000 ==> t == v
  {
    var m := v % 0x1_0000;
    if m < 0x8000 then m else m - 0x1_0000
  }

  /** int32(v). */
  function Int32(v: int64): (t: int64)
    ensures -0x8000_0000 <= t < 0x8000_0000
    ensures (t - v) % 0x1_0000_0000 == 0
    ensures -0x8000_0000 <= v < 0x8000_0000 ==> t == v
  {
    var m := v % 0x1_0000_0000;
    if m < 0x8000_0000 then m else m - 0x1_0000_0000
  }

  /** A set: its element type and its elements in slice order. */
  datatype Set = Set(enc: Width, elems: seq<int64>)

  /** Every element is a value of the set's element type (Go's typing). */
  predicate Valid(s: Set)
  {
    forall i :: 0 <= i < |s.elems| ==> Fits(s.enc, s.elems[i])
  }

  predicate NoDuplicates(s: Set)
  {
    forall i, j :: 0 <= i < j < |s.elems| ==> s.elems[i] != s.elems[j]
  }

  /** The mathematical set the slice stands for. */
  function Members(s: Set): set<int64>
  {
    set x | x in s.elems
  }

  lemma {:induction false} DistinctCardinality(s: Set)
    requires NoDuplicates(s)
    ensures |Members(s)| == |s.elems|
    decreases |s.elems|
  {
    if s.elems != [] {
      var b := Set(s.enc, s.elems[..|s.elems| - 1]);
      var last := s.elems[|s.elems| - 1];
      DistinctCardinality(b);
      assert s.elems == b.elems + [last];
      assert Members(s) == Members(b) + {last};
      assert last !in Members(b);
    }
  }

  /** createIntset: a one-element set at the value's narrowest width. */
  function CreateIntset(v: int64): (s: Set)
    ensures Valid(s) && NoDuplicates(s)
    ensures Members(s) == {v} && s.elems == [v]
    ensures s.enc == IntsetValueEncoding(v)
  {
    Set(IntsetValueEncoding(v), [v])
  }

  /** sizeOfIntset: for a duplicate-free set, its cardinality. */
  function SizeOfIntset(s: Set): (n: nat)
    ensures NoDuplicates(s) ==> n == |Members(s)|
  {
    if NoDuplicates(s) then DistinctCardinality(s); |s.elems| else |s.elems|
  }

  /** encodingOfIntset: the element size in bytes, enough for every element. */
  function EncodingOfIntset(s: Set): (e: int)
    ensures e == 2 || e == 4 || e == 8
    ensures Valid(s) ==> forall x :: x in s.elems ==> Code(IntsetValueEncoding(x)) <= e
  {
    Code(s.enc)
  }

  /** intsetHasValue: a value too wide for the set is absent; otherwise the
      slice is searched for T(value). On a valid set this is exactly membership. */
  function IntsetHasValue(s: Set, v: int64): (r: bool)
    ensures Valid(s) ==> (r <==> v in s.elems)
  {
    if Code(IntsetValueEncoding(v)) > Code(s.enc) then
      false
    else
      FitsWider(IntsetValueEncoding(v), s.enc, v);
      Truncate(s.enc, v) in s.elems
  }

  /** intsetAdd: widen and append a value that does not fit, skip a value
      already present, append any other value. */
  function IntsetAdd(s: Set, v: int64): (r: Set)
    requires Valid(s)
    ensures Valid(r)
    ensures NoDuplicates(s) ==> NoDuplicates(r)
    ensures Members(r) == Members(s) + {v}
    ensures Code(r.enc) == if Code(IntsetValueEncoding(v)) > Code(s.enc) then Code(IntsetValueEncoding(v)) else Code(s.enc)
    ensures v in s.elems ==> r == s
    ensures v !in s.elems ==> r.elems == s.elems + [v]
  {
    var newEnc := IntsetValueEncoding(v);
    if Code(newEnc) > Code(s.enc) then
      // migrateIntset copies every element unchanged into the wider slice
      assert forall i :: 0 <= i < |s.elems| ==> Fits(newEnc, s.elems[i]);
      assert !Fits(s.enc, v);
      Set(newEnc, s.elems + [v])
    else if IntsetHasValue(s, v) then
      s
    else
      FitsWider(newEnc, s.enc, v);
      Set(s.enc, s.elems + [Truncate(s.enc, v)])
  }

  /** The index intsetRemove's scan stops at: the first element equal to
      `t`, or the length when there is none. */
  function IndexOf(a: seq<int64>, t: int64): (idx: nat)
    ensures idx <= |a|
    ensures idx < |a| <==> t in a
    ensures idx < |a| ==> a[idx] == t
    ensures forall j :: 0 <= j < idx ==> a[j] != t
  {
    if a == [] then 0
    else if a[0] == t then 0
    else 1 + IndexOf(a[1..], t)
  }

  /** The slice after the element at `idx` is overwritten with the last one
      and the slice is cut by one. */
  function SwapRemove(a: seq<int64>, idx: nat): seq<int64>
    requires idx < |a|
  {
    a[idx := a[|a| - 1]][..|a| - 1]
  }

  lemma SwapRemoveMultiset(a: seq<int64>, idx: nat)
    requires idx < |a|
    ensures multiset(SwapRemove(a, idx)) == multiset(a) - multiset{a[idx]}
  {
    var last := |a| - 1;
    var b := a[idx := a[last]];
    assert b == a[..idx] + [a[last]] + a[idx + 1..];
    if idx == last {
      assert a == a[..last] + [a[last]];
      assert SwapRemove(a, idx) == a[..last];
    } else {
      assert a == a[..idx] + [a[idx]] + a[idx + 1..last] + [a[last]];
      assert SwapRemove(a, idx) == a[..idx] + [a[last]] + a[idx + 1..last];
    }
  }

  /** intsetDel / intsetRemove: the first element equal to T(value) is
      replaced by the last element and the slice shrinks by one; the element
      type never changes. T(value) must be present: otherwise the scan runs
      past the end and `is[idx]` panics. */
  function IntsetDel(s: Set, v: int64): (r: Set)
    requires Truncate(s.enc, v) in s.elems
    ensures r.enc == s.enc
    ensures |r.elems| == |s.elems| - 1
    ensures multiset(r.elems) == multiset(s.elems) - multiset{Truncate(s.enc, v)}
    ensures forall i :: 0 <= i < |r.elems| && r.elems[i] != s.elems[i] ==> r.elems[i] == s.elems[|s.elems| - 1]
    ensures Valid(s) ==> Valid(r)
  {
    var idx := IndexOf(s.elems, Truncate(s.enc, v));
    SwapRemoveMultiset(s.elems, idx);
    Set(s.enc, SwapRemove(s.elems, idx))
  }

  /** The deletion is the swap-remove at the first index of T(value). */
  lemma IntsetDelSwap(s: Set, v: int64)
    requires Truncate(s.enc, v) in s.elems
    ensures IntsetDel(s, v) == Set(s.enc, SwapRemove(s.elems, IndexOf(s.elems, Truncate(s.enc, v))))
  {
  }

  /** On a duplicate-free set, the deletion sdel performs (whenever T(value)
      is present, whether or not the value itself fits) removes exactly the
      member T(value) and keeps the set duplicate-free. */
  lemma IntsetDelTruncated(s: Set, v: int64)
    requires NoDuplicates(s) && Truncate(s.enc, v) in s.elems
    ensures NoDuplicates(IntsetDel(s, v))
    ensures Members(IntsetDel(s, v)) == Members(s) - {Truncate(s.enc, v)}
  {
    var r := IntsetDel(s, v);
    DistinctOnes(s.elems);
    RemoveOne(s.elems, r.elems, Truncate(s.enc, v));
    MultisetOnesDistinct(r.elems);
  }

  /** On a valid duplicate-free set, deleting a present value removes
      exactly that member and keeps the set duplicate-free. */
  lemma IntsetDelMembers(s: Set, v: int64)
    requires Valid(s) && NoDuplicates(s) && v in s.elems
    ensures Truncate(s.enc, v) == v
    ensures NoDuplicates(IntsetDel(s, v))
    ensures Members(IntsetDel(s, v)) == Members(s) - {v}
  {
    var i :| 0 <= i < |s.elems| && s.elems[i] == v;
    assert Fits(s.enc, v);
    IntsetDelTruncated(s, v);
  }

  lemma DistinctOnes(a: seq<int64>)
    requires forall i, j :: 0 <= i < j < |a| ==> a[i] != a[j]
    ensures forall x :: x in a ==> multiset(a)[x] == 1
  {
    forall x | x in a
      ensures multiset(a)[x] == 1
    {
      DistinctCount(a, x);
    }
  }

  /** Taking one occurrence of `v` out of a sequence whose elements occur
      once each leaves exactly the other elements, each once. */
  lemma RemoveOne(a: seq<int64>, b: seq<int64>, v: int64)
    requires forall x :: x in a ==> multiset(a)[x] == 1
    requires multiset(b) == multiset(a) - multiset{v}
    ensures forall x :: x in b ==> multiset(b)[x] == 1
    ensures forall x :: x in b <==> x in a && x != v
  {
    forall x
      ensures x in b <==> x in a && x != v
    {
      assert x in b <==> x in multiset(b);
      assert x in a <==> x in multiset(a);
    }
  }

  lemma {:induction false} DistinctCount(a: seq<int64>, x: int64)
    requires forall i, j :: 0 <= i < j < |a| ==> a[i] != a[j]
    requires x in a
    ensures multiset(a)[x] == 1
  {
    var last := |a| - 1;
    assert a == a[..last] + [a[last]];
    if a[last] == x {
      assert x !in a[..last];
    } else {
      DistinctCount(a[..last], x);
    }
  }

  lemma {:induction false} MultisetOnesDistinct(a: seq<int64>)
    requires forall x :: x in a ==> multiset(a)[x] == 1
    ensures forall i, j :: 0 <= i < j < |a| ==> a[i] != a[j]
  {
    forall i, j | 0 <= i < j < |a|
      ensures a[i] != a[j]
    {
      assert a == a[..j] + [a[j]] + a[j + 1..];
      assert multiset(a) == multiset(a[..j]) + multiset{a[j]} + multiset(a[j + 1..]);
      assert a[j] in a;
      assert multiset(a[..j])[a[j]] == 0;
      assert a[i] in a[..j];
    }
  }

  /** intsetRemove's missing width check: at width 16, T(65537) == 1, so
      deleting 65537 from {1} removes 1 although 65537 is not a member. */
  lemma IntsetDelWideValue()
    ensures !IntsetHasValue(Set(W16, [1]), 65537)
    ensures Truncate(W16, 65537) == 1
    ensures IntsetDel(Set(W16, [1]), 65537) == Set(W16, [])
  {
    assert Truncate(W16, 65537) == 1;
  }

  /** The first half of the package test: add 1, 2, 3 to an empty []int16
      (size 3), then add 2 again (size still 3). */
  lemma IntsetTestAdd()
    ensures IntsetAdd(IntsetAdd(IntsetAdd(Set(W16, []), 1), 2), 3) == Set(W16, [1, 2, 3])
    ensures SizeOfIntset(Set(W16, [1, 2, 3])) == 3
    ensures IntsetAdd(Set(W16, [1, 2, 3]), 2) == Set(W16, [1, 2, 3])
  {
    AddToEmpty();
    AddSecond();
    AddThird();
    AddAgain();
  }

  lemma AddToEmpty()
    ensures IntsetAdd(Set(W16, []), 1) == Set(W16, [1])
  {
    assert [] + [1 as int64] == [1];
  }

  lemma AddSecond()
    ensures IntsetAdd(Set(W16, [1]), 2) == Set(W16, [1, 2])
  {
    assert [1 as int64] + [2] == [1, 2];
  }

  lemma AddThird()
    ensures IntsetAdd(Set(W16, [1, 2]), 3) == Set(W16, [1, 2, 3])
  {
    assert [1 as int64, 2] + [3] == [1, 2, 3];
  }

  lemma AddAgain()
    ensures IntsetAdd(Set(W16, [1, 2, 3]), 2) == Set(W16, [1, 2, 3])
  {
    assert (2 as int64) in [1 as int64, 2, 3];
  }

  /** The second half: delete 2 (size 2, still []int16), then add
      65537 = 1<<16 + 1 (size 3, now []int32). */
  lemma IntsetTestDelWiden()
    ensures IntsetDel(Set(W16, [1, 2, 3]), 2) == Set(W16, [1, 3])
    ensures IntsetAdd(Set(W16, [1, 3]), 65537) == Set(W32, [1, 3, 65537])
    ensures SizeOfIntset(Set(W32, [1, 3, 65537])) == 3
  {
    assert IndexOf([1, 2, 3], 2) == 1;
    assert [1, 3] + [65537] == [1, 3, 65537];
  }

  /** migrateIntset: copy every element of the narrower slice into the
      wider one, position by position, unchanged in value. */
  method MigrateIntset(is1: array<int64>, is2: array<int64>)
    requires is1.Length <= is2.Length && is1 != is2
    modifies is2
    ensures is2[..is1.Length] == is1[..]
    ensures is2[is1.Length..] == old(is2[is1.Length..])
  {
    var i := 0;
    while i < is1.Length
      invariant 0 <= i <= is1.Length
      invariant is2[..i] == is1[..i]
      invariant is2[is1.Length..] == old(is2[is1.Length..])
    {
      is2[i] := is1[i];
      i := i + 1;
    }
  }

  /** intsetContains: a linear search for T(value). */
  method IntsetContains(elems: seq<int64>, w: Width, value: int64) returns (found: bool)
    ensures found <==> Truncate(w, value) in elems
  {
    var t := Truncate(w, value);
    var i := 0;
    while i < |elems|
      invariant 0 <= i <= |elems|
      invariant t !in elems[..i]
    {
      if elems[i] == t {
        return true;
      }
      i := i + 1;
    }
    assert elems[..i] == elems;
    return false;
  }

  /** intsetRemove on the first `n` cells of the backing array: scan for
      T(value), move the last element into its cell, and report the new
      length; a scan that finds nothing indexes past the end and panics. */
  method IntsetRemove(elems: array<int64>, n: nat, w: Width, value: int64) returns (r: Result<nat>)
    requires n <= elems.Length
    modifies elems
    ensures r.Ok? <==> Truncate(w, value) in old(elems[..n])
    ensures r.Ok? ==> r.value == n - 1 && Set(w, elems[..r.value]) == IntsetDel(Set(w, old(elems[..n])), value)
    ensures r.Ok? ==> elems[..] == old(elems[..])[IndexOf(old(elems[..n]), Truncate(w, value)) := old(elems[n - 1])]
    ensures r.Panic? ==> elems[..] == old(elems[..])
  {
    var t := Truncate(w, value);
    ghost var before := elems[..n];
    var idx := FindIndex(elems, n, t);
    if idx == n {
      return Panic;
    }
    elems[idx] := elems[n - 1];
    assert elems[..n - 1] == SwapRemove(before, idx);
    IntsetDelSwap(Set(w, before), value);
    r := Ok(n - 1);
  }

  /** intsetRemove's scan: the first index holding `t`, or `n` when none of
      the first `n` elements does. */
  method FindIndex(elems: array<int64>, n: nat, t: int64) returns (idx: nat)
    requires n <= elems.Length
    ensures idx == IndexOf(elems[..n], t)
  {
    idx := 0;
    while idx < n
      invariant 0 <= idx <= n
      invariant forall j :: 0 <= j < idx ==> elems[j] != t
    {
      if elems[idx] == t {
        break;
      }
      idx := idx + 1;
    }
    ghost var k := IndexOf(elems[..n], t);
    assert idx < n ==> elems[..n][idx] == t;
  }
}
