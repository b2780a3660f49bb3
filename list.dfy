/** The plain doubly linked list of byte strings: elements are pushed at the
    tail and popped from the tail, following the `prev` links. */
module List {
  import opened GoTypes

  /** One element, with its links to its neighbours (null at either end). */
  class LinkedListElem {
    var value: seq<byte>
    var prev: LinkedListElem?
    var next: LinkedListElem?

    constructor (value: seq<byte>, prev: LinkedListElem?)
      ensures this.value == value && this.prev == prev && this.next == null
    {
      this.value := value;
      this.prev := prev;
      this.next := null;
    }
  }

  class LinkedList {
    var head: LinkedListElem?
    var tail: LinkedListElem?
    var length: int

    /** The elements from head to tail, and the values they hold. */
    ghost var elems: seq<LinkedListElem>
    ghost var Contents: seq<seq<byte>>

    /** The chain from `head` to `tail`: each element's `next` is its
        successor and its `prev` its predecessor, no element appears twice,
        and `length` counts them. */
    ghost predicate Valid()
      reads this, elems
    {
      && |elems| == length == |Contents|
      && (length == 0 <==> head == null)
      && (length == 0 <==> tail == null)
      && (length > 0 ==> head == elems[0] && tail == elems[length - 1])
      && (length > 0 ==> elems[0].prev == null && elems[length - 1].next == null)
      && (forall i :: 0 < i < |elems| ==> elems[i].prev == elems[i - 1])
      && (forall i :: 0 <= i < |elems| - 1 ==> elems[i].next == elems[i + 1])
      && (forall i :: 0 <= i < |elems| ==> elems[i].value == Contents[i])
      && (forall i, j :: 0 <= i < j < |elems| ==> elems[i] != elems[j])
    }

    /** Go's zero value `new(LinkedList)`. */
    constructor ()
      ensures Valid() && Contents == []
    {
      head, tail, length := null, null, 0;
      elems, Contents := [], [];
    }

    /** Push: links a new element after the tail and returns the new length. */
    method Push(value: seq<byte>) returns (n: int)
      requires Valid()
      modifies this, elems
      ensures Valid()
      ensures Contents == old(Contents) + [value]
      ensures n == length == old(length) + 1
      ensures elems == old(elems) + [tail] && fresh(tail)
    {
      var elem := new LinkedListElem(value, tail);
      if head == null {
        head := elem;
        tail := elem;
      } else {
        tail.next := elem;
        tail := elem;
      }
      length := length + 1;
      elems := elems + [elem];
      Contents := Contents + [value];
      n := length;
    }

    /** Pop: on an empty list nil and -1 with nothing changed; otherwise the
        tail's value and the new length, the predecessor becoming the tail. */
    method Pop() returns (value: Option<seq<byte>>, n: int)
      requires Valid()
      modifies this, elems
      ensures Valid()
      ensures old(length) == 0 ==> value == None && n == -1 && unchanged(this) && unchanged(old(elems))
      ensures old(length) > 0 ==>
        && value == Some(old(Contents)[old(length) - 1])
        && Contents == old(Contents)[..old(length) - 1]
        && n == length == old(length) - 1
      ensures elems <= old(elems)
    {
      if length == 0 {
        return None, -1;
      }
      length := length - 1;
      if head == tail {
        value := Some(tail.value);
        head := null;
        tail := null;
      } else {
        value := Some(tail.value);
        assert elems[|elems| - 1].prev == elems[|elems| - 2];
        tail := tail.prev;
        tail.next := null;
      }
      elems := elems[..length];
      Contents := Contents[..length];
      n := length;
    }
  }

  /** A push followed by a pop, on a list built from any values: the pop
      returns the pushed value and the length goes back to what it was. */
  method PushThenPop(xs: seq<seq<byte>>, v: seq<byte>) returns (popped: Option<seq<byte>>, n: int, ghost contents: seq<seq<byte>>)
    ensures popped == Some(v) && n == |xs| && contents == xs
  {
    var list := new LinkedList();
    var i := 0;
    while i < |xs|
      invariant 0 <= i <= |xs|
      invariant list.Valid() && list.Contents == xs[..i]
      invariant fresh(list) && fresh(list.elems)
    {
      var _ := list.Push(xs[i]);
      i := i + 1;
    }
    var pushed := list.Push(v);
    popped, n := list.Pop();
    contents := list.Contents;
  }

  /** Popping from a new list reports nil and -1. */
  method PopEmpty() returns (popped: Option<seq<byte>>, n: int)
    ensures popped == None && n == -1
  {
    var list := new LinkedList();
    popped, n := list.Pop();
  }
}
