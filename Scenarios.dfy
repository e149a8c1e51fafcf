/**
 * Client code that uses only the contracts of the two lists: the documented
 * example runs, the cross-implementation equality, and the add that throws
 * once a one-slot buffer is full.
 */
module Scenarios {
  import opened Outcomes
  import opened Sequences
  import opened ArrayLists
  import opened LinkedLists
  import opened Lists

  method ArrayListRun()
  {
    var list := new ArrayList<int>();
    var r := list.Add(57);
    assert list.Contents() == [57] && list.elements.Length == 10;
    r := list.Add(25);
    assert list.Contents() == [57, 25] && list.elements.Length == 10;
    r := list.Add(27);
    assert list.Contents() == [57, 25, 27] && list.elements.Length == 10;
    ArrayListInserts(list);
  }

  method ArrayListInserts(list: ArrayList<int>)
    requires list.Valid() && list.Contents() == [57, 25, 27] && list.elements.Length == 10
    modifies list, list.elements
  {
    var o := list.AddAt(0, 6);
    assert InsertAt([57, 25, 27], 0, 6) == [6, 57, 25, 27];
    assert list.Contents() == [6, 57, 25, 27] && list.elements.Length == 10;
    var r := list.Add(39);
    assert list.Contents() == [6, 57, 25, 27, 39] && list.elements.Length == 10;
    o := list.AddAt(3, 11);
    assert InsertAt([6, 57, 25, 27, 39], 3, 11) == [6, 57, 25, 11, 27, 39];
    ArrayListSearch(list);
  }

  method ArrayListSearch(list: ArrayList<int>)
    requires list.Valid() && list.Contents() == [6, 57, 25, 11, 27, 39]
    modifies list, list.elements
  {
    var first := list.IndexOf(57);
    FirstIndexAt(list.Contents(), 57, 1);
    var last := list.LastIndexOf(57);
    LastIndexAt(list.Contents(), 57, 1);
    assert first == 1 && last == 1;
    var o := list.AddAt(7, 0);
    assert o == Fail(ArrayIndexOutOfBounds);
  }

  method LinkedListRun()
  {
    var list := new LinkedList<int>();
    var b := list.AddLast(200);
    b := list.AddFirst(157);
    b := list.AddLast(182);
    assert list.Contents == [157, 200, 182];
    var o := list.AddAt(0, 194);
    assert list.Contents == [194, 157, 200, 182];
    var r := list.RemoveFirst();
    assert r == Ok(194) && list.Contents == [157, 200, 182];
    list.Clear();
    r := list.RemoveLast();
    assert r == Err(NoSuchElement);
  }

  method SameValuesAreEqual()
  {
    var a := new ArrayList<int>();
    var r := a.Add(1);
    r := a.Add(2);
    var l := new LinkedList<int>();
    var b := l.Add(1);
    b := l.Add(2);
    var ab, la := EqualsAcrossImplementations(a, l);
    assert ab && la;
  }

  /** `new ArrayList(1)`: the first add fits, the second cannot grow the buffer and throws. */
  method OneSlotBufferRun()
  {
    var list := new ArrayList<int>.WithCapacity(1);
    var r := list.Add(5);
    assert r == Ok(true);
    r := list.Add(6);
    assert r == Err(ArrayIndexOutOfBounds) && list.Contents() == [5];
  }
}
