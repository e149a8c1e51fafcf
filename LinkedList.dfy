/**
 * The doubly linked list: a chain of nodes from `head` to `tail`, each node
 * linked forward by `next` and backward by `prev`.
 *
 * The ghost field `nodes` lists the chain's nodes in order, `Contents` their
 * values (the abstract value of the list) and `Repr` every object the list
 * owns; `Valid()` ties them to the real fields.
 */
module LinkedLists {
  import opened Outcomes
  import opened Sequences
  import Sorting

  /** A node of the chain: a value and links to its neighbours. */
  class Node<E> {
    var value: E
    var next: Node?<E>
    var prev: Node?<E>

    constructor (initialValue: E)
      ensures value == initialValue && next == null && prev == null
    {
      value := initialValue;
      next := null;
      prev := null;
    }
  }

  /** Splicing `x` into a chain `ns` before position `k`, where every link
      of `ns` but the two at the splice is intact and `x` is linked both ways
      to its new neighbours, gives a chain `ms`. */
  lemma SplicedLinks<E>(ns: seq<Node<E>>, k: nat, x: Node<E>, ms: seq<Node<E>>)
    requires 0 < k < |ns| && ms == InsertAt(ns, k, x)
    requires forall i :: 0 <= i < |ns| - 1 && i != k - 1 ==> ns[i].next == ns[i + 1]
    requires forall i :: 0 < i < |ns| && i != k ==> ns[i].prev == ns[i - 1]
    requires ns[k - 1].next == x && x.next == ns[k]
    requires ns[k].prev == x && x.prev == ns[k - 1]
    ensures forall i :: 0 <= i < |ms| - 1 ==> ms[i].next == ms[i + 1]
    ensures forall i :: 0 < i < |ms| ==> ms[i].prev == ms[i - 1]
  {
    forall i | 0 <= i < |ms| - 1
      ensures ms[i].next == ms[i + 1]
    {
      if k < i {
        assert ms[i] == ns[i - 1] && ms[i + 1] == ns[i];
      }
    }
  }

  /** Taking the node at interior position `k` out of a chain `ns`, where
      its two neighbours are linked to each other and every other link is
      intact, gives a chain `ms`. */
  lemma UnlinkedLinks<E>(ns: seq<Node<E>>, k: nat, ms: seq<Node<E>>)
    requires 0 < k < |ns| - 1 && ms == DeleteAt(ns, k)
    requires forall i :: 0 <= i < |ns| - 1 && i != k - 1 ==> ns[i].next == ns[i + 1]
    requires forall i :: 0 < i < |ns| && i != k + 1 ==> ns[i].prev == ns[i - 1]
    requires ns[k - 1].next == ns[k + 1] && ns[k + 1].prev == ns[k - 1]
    ensures forall i :: 0 <= i < |ms| - 1 ==> ms[i].next == ms[i + 1]
    ensures forall i :: 0 < i < |ms| ==> ms[i].prev == ms[i - 1]
    ensures (forall i, j :: 0 <= i < j < |ns| ==> ns[i] != ns[j]) ==>
              forall i, j :: 0 <= i < j < |ms| ==> ms[i] != ms[j]
  {
  }

  class LinkedList<E(0,==)> {
    var head: Node?<E>
    var tail: Node?<E>
    var size: nat

    ghost var nodes: seq<Node<E>>
    ghost var Contents: seq<E>
    ghost var Repr: set<object>

    /** The class invariant: `head` and `tail` are null exactly when the list
        is empty; following `next` from `head` visits the `size` distinct
        nodes of `nodes` and ends at `tail`; `prev` mirrors `next`;
        `head.prev` and `tail.next` are null. */
    ghost predicate Valid()
      reads this, Repr
    {
      && this in Repr
      && (forall i :: 0 <= i < |nodes| ==> nodes[i] in Repr)
      && size == |nodes| == |Contents|
      && (forall i :: 0 <= i < |nodes| ==> nodes[i].value == Contents[i])
      && (forall i, j :: 0 <= i < j < |nodes| ==> nodes[i] != nodes[j])
      && (forall i :: 0 <= i < |nodes| - 1 ==> nodes[i].next == nodes[i + 1])
      && (forall i :: 0 < i < |nodes| ==> nodes[i].prev == nodes[i - 1])
      && (if nodes == [] then head == null && tail == null
          else head == nodes[0] && tail == nodes[|nodes| - 1]
               && head.prev == null && tail.next == null)
    }

    /** `new LinkedList()`: the empty list. */
    constructor ()
      ensures Valid() && fresh(Repr)
      ensures Contents == [] && head == null && tail == null
    {
      head, tail := null, null;
      size := 0;
      nodes, Contents, Repr := [], [], {this};
    }

    /** The number of elements. */
    method Size() returns (n: nat)
      requires Valid()
      ensures n == |Contents|
    {
      n := size;
    }

    /** Empties the list: `head` and `tail` become null. */
    method Clear()
      requires Valid()
      modifies this
      ensures Valid() && fresh(Repr - old(Repr))
      ensures Contents == [] && head == null && tail == null
    {
      head, tail := null, null;
      size := 0;
      nodes, Contents, Repr := [], [], {this};
    }

    /** Whether the list has no elements. */
    method IsEmpty() returns (b: bool)
      requires Valid()
      ensures b <==> Contents == []
    {
      b := size == 0;
    }

    /** Throws unless `0 <= index < size` (the guard of get, set and remove(int)). */
    method CheckIndex(index: int) returns (r: Outcome)
      requires Valid()
      ensures r.Pass? <==> 0 <= index < |Contents|
      ensures r.Fail? ==> r.error == IndexOutOfBounds
    {
      if index < 0 || index >= size {
        return Fail(IndexOutOfBounds);
      }
      return Pass;
    }

    /** The node at position `index`, reached by following `next` from `head`. */
    method NodeAt(index: nat) returns (node: Node<E>)
      requires Valid() && index < |Contents|
      ensures node == nodes[index] && node.value == Contents[index]
    {
      var current := head;
      var i := 0;
      while i < index
        invariant 0 <= i <= index
        invariant current == nodes[i]
      {
        current := current.next;
        i := i + 1;
      }
      node := current;
    }

    /** `addFirst(value)`: a new node holding `value` becomes the head; returns true. */
    method AddFirst(value: E) returns (r: bool)
      requires Valid()
      modifies Repr
      ensures Valid() && fresh(Repr - old(Repr))
      ensures r && Contents == [value] + old(Contents)
      ensures old(Contents) == [] ==> head == tail && fresh(head)
    {
      var newNode := new Node(value);
      if head == null {
        head, tail := newNode, newNode;
      } else {
        newNode.next := head;
        head.prev := newNode;
        head := newNode;
      }
      size := size + 1;
      nodes := [newNode] + nodes;
      Contents := [value] + Contents;
      Repr := Repr + {newNode};
      return true;
    }

    /** `addLast(item)`: a new node holding `item` becomes the tail; returns true. */
    method AddLast(item: E) returns (r: bool)
      requires Valid()
      modifies Repr
      ensures Valid() && fresh(Repr - old(Repr))
      ensures r && Contents == old(Contents) + [item]
      ensures old(Contents) == [] ==> head == tail && fresh(head)
    {
      var newNode := new Node(item);
      if head == null {
        head, tail := newNode, newNode;
      } else {
        tail.next := newNode;
        newNode.prev := tail;
        tail := newNode;
      }
      size := size + 1;
      nodes := nodes + [newNode];
      Contents := Contents + [item];
      Repr := Repr + {newNode};
      return true;
    }

    /** `add(item)`: appends `item`; returns true. */
    method Add(item: E) returns (r: bool)
      requires Valid()
      modifies Repr
      ensures Valid() && fresh(Repr - old(Repr))
      ensures r && Contents == old(Contents) + [item]
    {
      r := AddLast(item);
    }

    /** `add(index, item)`: inserts `item` so that it ends up at position
        `index`, splicing a new node in before the node now there. An index
        outside `[0, size]` throws with nothing changed. */
    method AddAt(index: int, item: E) returns (r: Outcome)
      requires Valid()
      modifies Repr
      ensures Valid() && fresh(Repr - old(Repr))
      ensures 0 <= index <= |old(Contents)| ==>
                r == Pass && Contents == InsertAt(old(Contents), index, item)
      ensures !(0 <= index <= |old(Contents)|) ==>
                r == Fail(ArrayIndexOutOfBounds) && Contents == old(Contents) && nodes == old(nodes)
    {
      if index < 0 || index > size {
        return Fail(ArrayIndexOutOfBounds);
      }
      if index == 0 {
        var _ := AddFirst(item);
      } else if index == size {
        var _ := AddLast(item);
      } else {
        var current := NodeAt(index);
        SpliceBefore(current, index, item);
      }
      return Pass;
    }

    /** Splices a new node holding `item` in before the node at interior
        position `k`, relinking its predecessor's `next` and its own `prev`. */
    method SpliceBefore(current: Node<E>, ghost k: nat, item: E)
      requires Valid() && 0 < k < |nodes| && nodes[k] == current
      modifies Repr
      ensures Valid() && fresh(Repr - old(Repr))
      ensures Contents == InsertAt(old(Contents), k, item)
    {
      var before := current.prev;
      assert before == nodes[k - 1];
      var newNode := new Node(item);
      newNode.prev := before;
      newNode.next := current;
      before.next := newNode;
      current.prev := newNode;
      size := size + 1;
      forall i | 0 <= i < |nodes| - 1 && i != k - 1
        ensures nodes[i].next == nodes[i + 1]
      {
        assert nodes[i] != before;
      }
      forall i | 0 < i < |nodes| && i != k
        ensures nodes[i].prev == nodes[i - 1]
      {
        assert nodes[i] != current;
      }
      AdoptSplice(k, newNode);
    }

    /** The ghost bookkeeping of `SpliceBefore`: once `x` is linked in before
        position `k` and the other links are intact, the chain with `x` at
        position `k` is valid. */
    ghost method AdoptSplice(k: nat, x: Node<E>)
      requires this in Repr && x !in Repr && x !in nodes
      requires 0 < k < |nodes| && size == |nodes| + 1 && |Contents| == |nodes|
      requires forall i :: 0 <= i < |nodes| ==> nodes[i] in Repr && nodes[i].value == Contents[i]
      requires forall i, j :: 0 <= i < j < |nodes| ==> nodes[i] != nodes[j]
      requires forall i :: 0 <= i < |nodes| - 1 && i != k - 1 ==> nodes[i].next == nodes[i + 1]
      requires forall i :: 0 < i < |nodes| && i != k ==> nodes[i].prev == nodes[i - 1]
      requires nodes[k - 1].next == x && x.next == nodes[k]
      requires nodes[k].prev == x && x.prev == nodes[k - 1]
      requires head == nodes[0] && tail == nodes[|nodes| - 1]
      requires head.prev == null && tail.next == null
      modifies this
      ensures Valid() && Repr == old(Repr) + {x}
      ensures Contents == InsertAt(old(Contents), k, x.value)
    {
      ghost var ns := InsertAt(nodes, k, x);
      SplicedLinks(nodes, k, x, ns);
      InsertDistinct(nodes, k, x);
      nodes, Contents, Repr := ns, InsertAt(Contents, k, x.value), Repr + {x};
    }

    /** `getFirst()`: the first element; throws on an empty list. */
    method GetFirst() returns (r: Result<E>)
      requires Valid()
      ensures Contents == [] ==> r == Err(NoSuchElement)
      ensures Contents != [] ==> r == Ok(Contents[0])
    {
      if head == null {
        return Err(NoSuchElement);
      }
      return Ok(head.value);
    }

    /** `getLast()`: the last element; throws on an empty list. */
    method GetLast() returns (r: Result<E>)
      requires Valid()
      ensures Contents == [] ==> r == Err(NoSuchElement)
      ensures Contents != [] ==> r == Ok(Contents[|Contents| - 1])
    {
      if head == null {
        return Err(NoSuchElement);
      }
      return Ok(tail.value);
    }

    /** `removeFirst()`: unlinks the head and returns its value; throws on an
        empty list with nothing changed. */
    method RemoveFirst() returns (r: Result<E>)
      requires Valid()
      modifies Repr
      ensures Valid() && fresh(Repr - old(Repr))
      ensures old(Contents) == [] ==> r == Err(NoSuchElement) && Contents == old(Contents)
      ensures old(Contents) != [] ==> r == Ok(old(Contents)[0]) && Contents == old(Contents)[1..]
    {
      if head == null {
        return Err(NoSuchElement);
      }
      var value := head.value;
      assert |nodes| > 1 ==> head.next == nodes[1];
      head := head.next;
      if head == null {
        tail := null;
      } else {
        head.prev := null;
      }
      size := size - 1;
      nodes := nodes[1..];
      Contents := Contents[1..];
      return Ok(value);
    }

    /** `removeLast()`: unlinks the tail and returns its value; throws on an
        empty list with nothing changed. */
    method RemoveLast() returns (r: Result<E>)
      requires Valid()
      modifies Repr
      ensures Valid() && fresh(Repr - old(Repr))
      ensures old(Contents) == [] ==> r == Err(NoSuchElement) && Contents == old(Contents)
      ensures old(Contents) != [] ==>
                r == Ok(old(Contents)[|old(Contents)| - 1]) && Contents == old(Contents)[..|old(Contents)| - 1]
    {
      if tail == null {
        return Err(NoSuchElement);
      }
      var value := tail.value;
      assert |nodes| > 1 ==> tail.prev == nodes[|nodes| - 2];
      tail := tail.prev;
      if tail == null {
        head := null;
      } else {
        tail.next := null;
      }
      size := size - 1;
      nodes := nodes[..|nodes| - 1];
      Contents := Contents[..|Contents| - 1];
      return Ok(value);
    }

    /** Unlinks the node at interior position `k` by joining its neighbours. */
    method UnlinkInterior(current: Node<E>, ghost k: nat)
      requires Valid() && 0 < k < |nodes| - 1 && nodes[k] == current
      modifies Repr
      ensures Valid() && Repr == old(Repr)
      ensures Contents == DeleteAt(old(Contents), k)
    {
      var before, after := current.prev, current.next;
      assert before == nodes[k - 1] && after == nodes[k + 1];
      before.next := after;
      after.prev := before;
      size := size - 1;
      forall i | 0 <= i < |nodes| - 1 && i != k - 1
        ensures nodes[i].next == nodes[i + 1]
      {
        assert nodes[i] != before;
      }
      forall i | 0 < i < |nodes| && i != k + 1
        ensures nodes[i].prev == nodes[i - 1]
      {
        assert nodes[i] != after;
      }
      AdoptUnlink(k);
    }

    /** The ghost bookkeeping of `UnlinkInterior`: once the neighbours of the
        node at interior position `k` are linked to each other and the other
        links are intact, the chain without that node is valid. */
    ghost method AdoptUnlink(k: nat)
      requires this in Repr
      requires 0 < k < |nodes| - 1 && size == |nodes| - 1 && |Contents| == |nodes|
      requires forall i :: 0 <= i < |nodes| ==> nodes[i] in Repr && nodes[i].value == Contents[i]
      requires forall i, j :: 0 <= i < j < |nodes| ==> nodes[i] != nodes[j]
      requires forall i :: 0 <= i < |nodes| - 1 && i != k - 1 ==> nodes[i].next == nodes[i + 1]
      requires forall i :: 0 < i < |nodes| && i != k + 1 ==> nodes[i].prev == nodes[i - 1]
      requires nodes[k - 1].next == nodes[k + 1] && nodes[k + 1].prev == nodes[k - 1]
      requires head == nodes[0] && tail == nodes[|nodes| - 1]
      requires head.prev == null && tail.next == null
      modifies this
      ensures Valid() && Repr == old(Repr)
      ensures Contents == DeleteAt(old(Contents), k)
    {
      ghost var ns := DeleteAt(nodes, k);
      UnlinkedLinks(nodes, k, ns);
      nodes, Contents := ns, DeleteAt(Contents, k);
    }

    /** `remove(o)`: unlinks the first node whose value equals `o` and returns
        true, or returns false with nothing changed when no value equals `o`. */
    method Remove(o: E) returns (r: bool)
      requires Valid()
      modifies Repr
      ensures Valid() && fresh(Repr - old(Repr))
      ensures r <==> o in old(Contents)
      ensures Contents == WithoutFirst(old(Contents), o)
    {
      var current := head;
      ghost var i := 0;
      while current != null
        invariant 0 <= i <= |nodes|
        invariant current == if i < |nodes| then nodes[i] else null
        invariant forall j :: 0 <= j < i ==> Contents[j] != o
        decreases |nodes| - i
      {
        if current.value == o {
          assert o !in Contents[..i];
          WithoutFirstAt(Contents, o, i);
          if current == head {
            var _ := RemoveFirst();
          } else if current == tail {
            var _ := RemoveLast();
          } else {
            UnlinkInterior(current, i);
          }
          return true;
        }
        current := current.next;
        i := i + 1;
      }
      assert o !in Contents;
      WithoutFirstDeletes(Contents, o);
      return false;
    }

    /** `contains(o)`: whether some element equals `o`. */
    method Contains(o: E) returns (b: bool)
      requires Valid()
      ensures b <==> o in Contents
    {
      var current := head;
      ghost var i := 0;
      while current != null
        invariant 0 <= i <= |nodes|
        invariant current == if i < |nodes| then nodes[i] else null
        invariant o !in Contents[..i]
        decreases |nodes| - i
      {
        if current.value == o {
          return true;
        }
        current := current.next;
        i := i + 1;
      }
      assert Contents[..i] == Contents;
      return false;
    }

    /** `get(index)`: the element at `index`, or a throw when the index is out of range. */
    method Get(index: int) returns (r: Result<E>)
      requires Valid()
      ensures 0 <= index < |Contents| ==> r == Ok(Contents[index])
      ensures !(0 <= index < |Contents|) ==> r == Err(IndexOutOfBounds)
    {
      var c := CheckIndex(index);
      if c.Fail? {
        return Err(c.error);
      }
      var current := NodeAt(index);
      return Ok(current.value);
    }

    /** `set(index, newVal)`: replaces the value of the node at `index` and
        returns the value it replaced; no link changes. Out of range: throws,
        nothing changes. */
    method Set(index: int, newVal: E) returns (r: Result<E>)
      requires Valid()
      modifies Repr
      ensures Valid() && Repr == old(Repr) && nodes == old(nodes)
      ensures 0 <= index < |old(Contents)| ==>
                r == Ok(old(Contents)[index]) && Contents == old(Contents)[index := newVal]
      ensures !(0 <= index < |old(Contents)|) ==>
                r == Err(IndexOutOfBounds) && Contents == old(Contents)
    {
      var c := CheckIndex(index);
      if c.Fail? {
        return Err(c.error);
      }
      var current := NodeAt(index);
      var oldVal := current.value;
      current.value := newVal;
      Contents := Contents[index := newVal];
      return Ok(oldVal);
    }

    /** `indexOf(o)`: the first index holding `o`, found walking forward from `head`, or -1. */
    method IndexOf(o: E) returns (r: int)
      requires Valid()
      ensures r == FirstIndex(Contents, o)
    {
      var current := head;
      var i := 0;
      while i < size
        invariant 0 <= i <= size
        invariant i < size ==> current == nodes[i]
        invariant o !in Contents[..i]
      {
        if current.value == o {
          FirstIndexAt(Contents, o, i);
          return i;
        }
        current := current.next;
        i := i + 1;
      }
      assert Contents[..i] == Contents;
      return -1;
    }

    /** `lastIndexOf(o)`: the last index holding `o`, found walking backward from `tail`, or -1. */
    method LastIndexOf(o: E) returns (r: int)
      requires Valid()
      ensures r == LastIndex(Contents, o)
    {
      var current := tail;
      var i := size - 1;
      while i >= 0
        invariant -1 <= i < size
        invariant 0 <= i ==> current == nodes[i]
        invariant forall j :: i < j < size ==> Contents[j] != o
      {
        if current.value == o {
          assert o !in Contents[i + 1..];
          LastIndexAt(Contents, o, i);
          return i;
        }
        current := current.prev;
        i := i - 1;
      }
      return -1;
    }

    /** `remove(index)`: unlinks the node at `index` and returns its value.
        Out of range: throws, nothing changes. */
    method RemoveAt(index: int) returns (r: Result<E>)
      requires Valid()
      modifies Repr
      ensures Valid() && fresh(Repr - old(Repr))
      ensures 0 <= index < |old(Contents)| ==>
                r == Ok(old(Contents)[index]) && Contents == DeleteAt(old(Contents), index)
      ensures !(0 <= index < |old(Contents)|) ==>
                r == Err(IndexOutOfBounds) && Contents == old(Contents)
    {
      var c := CheckIndex(index);
      if c.Fail? {
        return Err(c.error);
      }
      if index == 0 {
        r := RemoveFirst();
        return;
      }
      if index == size - 1 {
        r := RemoveLast();
        return;
      }
      var current := NodeAt(index);
      var value := current.value;
      UnlinkInterior(current, index);
      return Ok(value);
    }

    /** `toArray()`: a new array holding the values, in forward order. */
    method ToArray() returns (a: array<E>)
      requires Valid()
      ensures fresh(a) && a[..] == Contents
    {
      a := new E[size];
      var index := 0;
      var current := head;
      while current != null
        invariant 0 <= index <= size == a.Length
        invariant current == if index < size then nodes[index] else null
        invariant a[..index] == Contents[..index]
        decreases size - index
      {
        a[index] := current.value;
        index := index + 1;
        current := current.next;
      }
    }

    /** `addAll(c)`: appends the values `c` yields with `addLast`; returns
        whether anything was appended. */
    method AddAll(c: seq<E>) returns (modified: bool)
      requires Valid()
      modifies Repr
      ensures Valid() && fresh(Repr - old(Repr))
      ensures Contents == old(Contents) + c
      ensures modified <==> c != []
    {
      modified := false;
      var i := 0;
      while i < |c|
        invariant 0 <= i <= |c|
        invariant Valid() && fresh(Repr - old(Repr))
        invariant Contents == old(Contents) + c[..i]
        invariant modified <==> 0 < i
      {
        var added := AddLast(c[i]);
        if added {
          modified := true;
        }
        assert c[..i + 1] == c[..i] + [c[i]];
        i := i + 1;
      }
      assert c[..i] == c;
    }

    /** `sort(c)`: copies the values out, sorts the copy, and writes it back
        into the existing nodes in order. The chain itself does not change;
        the values end up a permutation of the old ones in non-decreasing
        order under `cmp`. A list of at most one element is left alone. */
    method Sort(cmp: (E, E) -> int)
      requires Valid()
      requires IsComparatorOn(cmp, multiset(Contents))
      modifies Repr
      ensures Valid() && Repr == old(Repr)
      ensures nodes == old(nodes) && head == old(head) && tail == old(tail)
      ensures SortedBy(Contents, cmp)
      ensures multiset(Contents) == multiset(old(Contents))
      ensures |old(Contents)| <= 1 ==> Contents == old(Contents)
    {
      if size <= 1 {
        return;
      }
      var values := SortedValues(cmp);
      WriteBack(values);
    }

    /** The first two steps of `sort(c)`: the values copied out with
        `toArray`, then sorted by the library sort `Arrays.sort(array, c)`,
        for which the selection sort stands here. */
    method SortedValues(cmp: (E, E) -> int) returns (values: array<E>)
      requires Valid()
      requires IsComparatorOn(cmp, multiset(Contents))
      ensures fresh(values) && values.Length == |Contents|
      ensures SortedBy(values[..], cmp)
      ensures multiset(values[..]) == multiset(Contents)
    {
      values := ToArray();
      assert values[..values.Length] == values[..];
      Sorting.SelectionSort(values, values.Length, cmp);
      assert values[..values.Length] == values[..];
    }

    /** Writes `values` into the nodes' values, walking forward from `head`;
        no link changes. */
    method WriteBack(values: array<E>)
      requires Valid() && values.Length == |nodes|
      modifies Repr
      ensures Valid() && Repr == old(Repr)
      ensures nodes == old(nodes) && head == old(head) && tail == old(tail)
      ensures Contents == values[..]
    {
      ghost var chain := set k | 0 <= k < |nodes| :: nodes[k];
      var current := head;
      var i := 0;
      while i < size
        modifies chain`value
        invariant 0 <= i <= size
        invariant i < size ==> current == nodes[i]
        invariant forall k :: 0 <= k < i ==> nodes[k].value == values[k]
        invariant forall k :: i <= k < size ==> nodes[k].value == Contents[k]
      {
        current.value := values[i];
        current := current.next;
        i := i + 1;
      }
      Contents := values[..];
    }
  }
}
