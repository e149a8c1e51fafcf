/**
 * The growable array list: a buffer `elements` whose first `size` slots
 * hold the list, in order. Slots from `size` on hold nothing the list
 * ever reads.
 */
module ArrayLists {
  import opened Outcomes
  import opened Sequences
  import Sorting

  /** The buffer length of `new ArrayList()`. */
  const DefaultCapacity: nat := 10

  /** The buffer length `ensureCapacity` allocates when a buffer of length
      `length` is full: `(int)(length * 1.5)`, the product rounded toward
      zero. For lengths up to 1431655765 that is exactly `3 * length / 2`;
      above, the Java cast saturates at Integer.MAX_VALUE, which is part of
      the `int` arithmetic this model leaves out. */
  function GrownCapacity(length: nat): (r: nat)
    ensures 2 * r <= 3 * length < 2 * r + 2
  {
    length * 3 / 2
  }

  /** The buffer length after `ensureCapacity` on `size` elements held in a
      buffer of length `length`: it grows only when the buffer is full. */
  function CapacityAfterEnsure(size: nat, length: nat): (r: nat)
    ensures size < length ==> r == length
    ensures length <= size ==> 2 * r <= 3 * length < 2 * r + 2
  {
    if size >= length then GrownCapacity(length) else length
  }

  /** Growing never shrinks the buffer, and it makes room for one more
      element exactly when the buffer had a free slot or at least two slots.
      A full buffer of length 0 or 1 stays full. */
  lemma RoomAfterEnsure(size: nat, length: nat)
    requires size <= length
    ensures length <= CapacityAfterEnsure(size, length)
    ensures size < CapacityAfterEnsure(size, length) <==> size < length || 2 <= length
  {
    if size == length && 2 <= length {
      assert length * 3 / 2 >= length + length / 2;
    }
  }

  /** The buffer length the growth policy was evidently meant to reach:
      half as much again, and never less than one more slot. */
  function IntendedGrownCapacity(length: nat): (r: nat)
    ensures length < r
    ensures 2 <= length ==> r == GrownCapacity(length)
  {
    if GrownCapacity(length) > length then GrownCapacity(length) else length + 1
  }

  /** The written growth policy fails to grow exactly the buffers of length 0 and 1. */
  lemma GrowthStallsOnTinyBuffers(length: nat)
    ensures GrownCapacity(length) <= length <==> length < 2
  {
    RoomAfterEnsure(length, length);
  }

  class ArrayList<E(0,==)> {
    var elements: array<E>
    var size: nat

    /** The class invariant: the list fits in the buffer. */
    ghost predicate Valid()
      reads this
    {
      size <= elements.Length
    }

    /** The abstract value of the list. */
    ghost function Contents(): seq<E>
      reads this, elements
      requires Valid()
    {
      elements[..size]
    }

    /** `new ArrayList()`: an empty list with a buffer of the default length. */
    constructor ()
      ensures Valid() && fresh(elements)
      ensures elements.Length == DefaultCapacity && Contents() == []
    {
      elements := new E[DefaultCapacity];
      size := 0;
    }

    /** `new ArrayList(capacity)`: an empty list with a buffer of length `capacity`. */
    constructor WithCapacity(capacity: nat)
      ensures Valid() && fresh(elements)
      ensures elements.Length == capacity && Contents() == []
    {
      elements := new E[capacity];
      size := 0;
    }

    /** The number of elements. */
    method Size() returns (n: nat)
      requires Valid()
      ensures n == |Contents()|
    {
      n := size;
    }

    /** Empties the list; the buffer is kept. */
    method Clear()
      requires Valid()
      modifies this
      ensures Valid() && elements == old(elements)
      ensures Contents() == []
    {
      size := 0;
    }

    /** Whether the list has no elements. */
    method IsEmpty() returns (b: bool)
      requires Valid()
      ensures b <==> Contents() == []
    {
      b := size == 0;
    }

    /** Throws unless `0 <= index < size` (the guard of get, set and remove). */
    method CheckIndex(index: int) returns (r: Outcome)
      requires Valid()
      ensures r.Pass? <==> 0 <= index < |Contents()|
      ensures r.Fail? ==> r.error == ArrayIndexOutOfBounds
    {
      if index < 0 || index >= size {
        return Fail(ArrayIndexOutOfBounds);
      }
      return Pass;
    }

    /** Makes room for one more element when the buffer is full, by moving
        the list into a buffer of length `GrownCapacity(elements.Length)`. */
    method EnsureCapacity()
      requires Valid()
      modifies this
      ensures Valid() && size == old(size)
      ensures elements.Length == CapacityAfterEnsure(old(size), old(elements.Length))
      ensures elements == old(elements) || fresh(elements)
      ensures Contents() == old(Contents())
    {
      if size >= elements.Length {
        RoomAfterEnsure(size, elements.Length);
        var newCap := elements.Length * 3 / 2;
        var newElements := new E[newCap];
        var i := 0;
        while i < size
          invariant 0 <= i <= size <= elements.Length <= newElements.Length
          invariant size == old(size) && elements == old(elements)
          invariant newElements[..i] == elements[..i]
        {
          newElements[i] := elements[i];
          i := i + 1;
        }
        elements := newElements;
      }
    }

    /** Shrinks the buffer to exactly the list's length. */
    method TrimToSize()
      requires Valid()
      modifies this
      ensures Valid() && size == old(size)
      ensures elements.Length == size
      ensures elements == old(elements) || fresh(elements)
      ensures Contents() == old(Contents())
    {
      if size != elements.Length {
        var newElements := new E[size];
        var i := 0;
        while i < size
          invariant 0 <= i <= size <= elements.Length
          invariant size == old(size) == newElements.Length && elements == old(elements)
          invariant newElements[..i] == elements[..i]
        {
          newElements[i] := elements[i];
          i := i + 1;
        }
        elements := newElements;
      }
    }

    /** `add(index, item)`: inserts `item` at position `index`, moving the
        tail of the list one slot to the right. An index outside
        `[0, size]` throws with nothing changed. A full buffer of length
        0 or 1 does not grow, and the store past its end throws. */
    method AddAt(index: int, item: E) returns (r: Outcome)
      requires Valid()
      modifies this, elements
      ensures Valid()
      ensures elements == old(elements) || fresh(elements)
      ensures !(0 <= index <= old(size)) ==>
                r == Fail(ArrayIndexOutOfBounds) && elements == old(elements) && size == old(size)
                && elements[..] == old(elements[..])
      ensures 0 <= index <= old(size) ==>
                elements.Length == CapacityAfterEnsure(old(size), old(elements.Length))
      ensures 0 <= index <= old(size) && old(size) < CapacityAfterEnsure(old(size), old(elements.Length)) ==>
                r == Pass && Contents() == InsertAt(old(Contents()), index, item)
      ensures 0 <= index <= old(size) && CapacityAfterEnsure(old(size), old(elements.Length)) <= old(size) ==>
                r == Fail(ArrayIndexOutOfBounds) && Contents() == old(Contents())
    {
      if index > size || index < 0 {
        return Fail(ArrayIndexOutOfBounds);
      }
      EnsureCapacity();
      if size >= elements.Length {
        // the buffer did not grow: the first store past its end throws
        return Fail(ArrayIndexOutOfBounds);
      }
      ghost var s := Contents();
      ghost var buffer := elements;
      var i := size - 1;
      while i >= index
        invariant index - 1 <= i <= size - 1
        invariant elements == buffer && (buffer == old(elements) || fresh(buffer))
        invariant buffer.Length == CapacityAfterEnsure(old(size), old(elements.Length))
        invariant size == |s| < elements.Length
        invariant forall k :: 0 <= k <= i ==> elements[k] == s[k]
        invariant forall k :: i + 1 < k <= size ==> elements[k] == s[k - 1]
      {
        elements[i + 1] := elements[i];
        i := i - 1;
      }
      elements[index] := item;
      size := size + 1;
      assert forall k :: 0 <= k < size ==> elements[k] == InsertAt(s, index, item)[k];
      return Pass;
    }

    /** `add(item)`: appends `item` and returns true, or throws as `add(size, item)` does. */
    method Add(item: E) returns (r: Result<bool>)
      requires Valid()
      modifies this, elements
      ensures Valid()
      ensures elements == old(elements) || fresh(elements)
      ensures elements.Length == CapacityAfterEnsure(old(size), old(elements.Length))
      ensures old(size) < CapacityAfterEnsure(old(size), old(elements.Length)) ==>
                r == Ok(true) && Contents() == old(Contents()) + [item]
      ensures CapacityAfterEnsure(old(size), old(elements.Length)) <= old(size) ==>
                r == Err(ArrayIndexOutOfBounds) && Contents() == old(Contents())
    {
      var o := AddAt(size, item);
      if o.Fail? {
        return Err(o.error);
      }
      assert InsertAt(old(Contents()), old(size), item) == old(Contents()) + [item];
      return Ok(true);
    }

    /** `get(index)`: the element at `index`, or a throw when the index is out of range. */
    method Get(index: int) returns (r: Result<E>)
      requires Valid()
      ensures 0 <= index < |Contents()| ==> r == Ok(Contents()[index])
      ensures !(0 <= index < |Contents()|) ==> r == Err(ArrayIndexOutOfBounds)
    {
      var c := CheckIndex(index);
      if c.Fail? {
        return Err(c.error);
      }
      return Ok(elements[index]);
    }

    /** `set(index, newValue)`: replaces the element at `index` and returns the
        one it replaced; only that slot changes. Out of range: throws, nothing changes. */
    method Set(index: int, newValue: E) returns (r: Result<E>)
      requires Valid()
      modifies elements
      ensures Valid()
      ensures 0 <= index < |old(Contents())| ==>
                r == Ok(old(Contents())[index]) && Contents() == old(Contents())[index := newValue]
      ensures !(0 <= index < |old(Contents())|) ==>
                r == Err(ArrayIndexOutOfBounds) && Contents() == old(Contents())
    {
      var c := CheckIndex(index);
      if c.Fail? {
        return Err(c.error);
      }
      var oldValue := elements[index];
      elements[index] := newValue;
      assert Contents() == old(Contents())[index := newValue];
      return Ok(oldValue);
    }

    /** `remove(index)`: removes and returns the element at `index`, moving the
        tail of the list one slot to the left. Out of range: throws, nothing changes. */
    method RemoveAt(index: int) returns (r: Result<E>)
      requires Valid()
      modifies this, elements
      ensures Valid() && elements == old(elements)
      ensures 0 <= index < |old(Contents())| ==>
                r == Ok(old(Contents())[index]) && Contents() == DeleteAt(old(Contents()), index)
      ensures !(0 <= index < |old(Contents())|) ==>
                r == Err(ArrayIndexOutOfBounds) && Contents() == old(Contents())
    {
      var c := CheckIndex(index);
      if c.Fail? {
        return Err(c.error);
      }
      ghost var s := Contents();
      var val := elements[index];
      var i := index;
      while i < size - 1
        invariant index <= i <= size - 1
        invariant elements == old(elements) && size == |s| <= elements.Length
        invariant forall k :: 0 <= k < index ==> elements[k] == s[k]
        invariant forall k :: index <= k < i ==> elements[k] == s[k + 1]
        invariant forall k :: i <= k < size ==> elements[k] == s[k]
      {
        elements[i] := elements[i + 1];
        i := i + 1;
      }
      size := size - 1;
      assert forall k :: 0 <= k < size ==> elements[k] == DeleteAt(s, index)[k];
      return Ok(val);
    }

    /** `remove(o)`: removes the first element equal to `o` and returns true,
        or returns false with nothing changed when no element equals `o`. */
    method Remove(o: E) returns (r: bool)
      requires Valid()
      modifies this, elements
      ensures Valid() && elements == old(elements)
      ensures r <==> o in old(Contents())
      ensures Contents() == WithoutFirst(old(Contents()), o)
    {
      var i := 0;
      while i < size
        invariant 0 <= i <= size
        invariant o !in elements[..i]
      {
        if elements[i] == o {
          assert elements[..i] == Contents()[..i];
          WithoutFirstAt(Contents(), o, i);
          var _ := RemoveAt(i);
          return true;
        }
        i := i + 1;
      }
      assert elements[..i] == Contents();
      WithoutFirstDeletes(Contents(), o);
      return false;
    }

    /** `contains(o)`: whether some element equals `o`. */
    method Contains(o: E) returns (b: bool)
      requires Valid()
      ensures b <==> o in Contents()
    {
      var current := 0;
      while current < size
        invariant 0 <= current <= size
        invariant o !in elements[..current]
      {
        if elements[current] == o {
          assert elements[current] == Contents()[current];
          return true;
        }
        current := current + 1;
      }
      assert elements[..current] == Contents();
      return false;
    }

    /** `indexOf(o)`: the first index holding `o`, or -1. */
    method IndexOf(o: E) returns (r: int)
      requires Valid()
      ensures r == FirstIndex(Contents(), o)
    {
      var i := 0;
      while i < size
        invariant 0 <= i <= size
        invariant o !in elements[..i]
      {
        if elements[i] == o {
          assert elements[..i] == Contents()[..i];
          FirstIndexAt(Contents(), o, i);
          return i;
        }
        i := i + 1;
      }
      assert elements[..i] == Contents();
      return -1;
    }

    /** `lastIndexOf(o)`: the last index holding `o`, or -1. */
    method LastIndexOf(o: E) returns (r: int)
      requires Valid()
      ensures r == LastIndex(Contents(), o)
    {
      var i := size - 1;
      while i >= 0
        invariant -1 <= i < size
        invariant o !in elements[i + 1..size]
      {
        if elements[i] == o {
          assert elements[i + 1..size] == Contents()[i + 1..];
          LastIndexAt(Contents(), o, i);
          return i;
        }
        i := i - 1;
      }
      assert elements[0..size] == Contents();
      return -1;
    }

    /** `toArray()`: a new array holding the list, in order. */
    method ToArray() returns (a: array<E>)
      requires Valid()
      ensures fresh(a) && a[..] == Contents()
    {
      var values := elements[..size];
      a := new E[size](i requires 0 <= i < |values| => values[i]);
    }

    /** `addAll(c)`: appends, one `add` at a time, the values `c` yields and
        returns true. An `add` that throws ends the call with the values
        before it already appended. */
    method AddAll(c: seq<E>) returns (r: Result<bool>)
      requires Valid()
      modifies this, elements
      ensures Valid()
      ensures r.Ok? ==> r.value && Contents() == old(Contents()) + c
      ensures r.Err? <==> old(elements.Length) < 2 && old(elements.Length) - old(size) < |c|
      ensures r.Err? ==> r.error == ArrayIndexOutOfBounds
                         && Contents() == old(Contents()) + c[..old(elements.Length) - old(size)]
    {
      var i := 0;
      while i < |c|
        invariant 0 <= i <= |c|
        invariant Valid()
        invariant elements == old(elements) || fresh(elements)
        invariant Contents() == old(Contents()) + c[..i]
        invariant 2 <= old(elements.Length) ==> 2 <= elements.Length
        invariant old(elements.Length) < 2 ==>
                    elements.Length == old(elements.Length) && old(size) + i <= old(elements.Length)
      {
        RoomAfterEnsure(size, elements.Length);
        var added := Add(c[i]);
        if added.Err? {
          return Err(added.error);
        }
        assert c[..i + 1] == c[..i] + [c[i]];
        i := i + 1;
      }
      assert c[..i] == c;
      return Ok(true);
    }

    /** `sort(c)`: selection sort of the list in place; afterwards the list
        holds the same values in non-decreasing order under `cmp`. */
    method Sort(cmp: (E, E) -> int)
      requires Valid()
      requires IsComparatorOn(cmp, multiset(Contents()))
      modifies elements
      ensures Valid()
      ensures SortedBy(Contents(), cmp)
      ensures multiset(Contents()) == multiset(old(Contents()))
    {
      Sorting.SelectionSort(elements, size, cmp);
    }
  }
}
