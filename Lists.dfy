/**
 * The List abstraction the two containers share. Without dynamic dispatch
 * on interfaces, an argument declared as `Object` or `List` is a tagged
 * variant over the two implementations; `equals`, written once per
 * implementation against that abstraction, reads the other list only
 * through its size and `get`.
 */
module Lists {
  import opened Outcomes
  import opened ArrayLists
  import opened LinkedLists

  /** An object handed to `equals`: one of the two lists, or an object
      that is not a List. */
  datatype ListObject<E(0,==)> =
    | ArrayObj(arrayList: ArrayList<E>)
    | LinkedObj(linkedList: LinkedList<E>)
    | NotAList

  /** The objects the list inside `o` is made of: the array list and its
      buffer, or the linked list and its nodes. */
  ghost function Footprint<E(0)>(o: ListObject<E>): set<object>
    reads if o.ArrayObj? then {o.arrayList} else if o.LinkedObj? then {o.linkedList} else {}
  {
    match o
    case ArrayObj(a) => {a, a.elements}
    case LinkedObj(l) => {l} + l.Repr
    case NotAList => {}
  }

  /** The list inside `o`, if any, satisfies its class invariant. */
  ghost predicate ValidObject<E(0)>(o: ListObject<E>)
    reads Footprint(o)
  {
    match o
    case ArrayObj(a) => a.Valid()
    case LinkedObj(l) => l.Valid()
    case NotAList => true
  }

  /** The abstract value of the list inside `o`. */
  ghost function ContentsOf<E(0)>(o: ListObject<E>): seq<E>
    reads Footprint(o)
    requires ValidObject(o) && !o.NotAList?
  {
    match o
    case ArrayObj(a) => a.Contents()
    case LinkedObj(l) => l.Contents
  }

  /** `list.size()`, dispatched to the list's own implementation. */
  method SizeOf<E(0,==)>(o: ListObject<E>) returns (n: nat)
    requires ValidObject(o) && !o.NotAList?
    ensures n == |ContentsOf(o)|
  {
    match o
    case ArrayObj(a) => n := a.Size();
    case LinkedObj(l) => n := l.Size();
  }

  /** `list.get(index)`, dispatched to the list's own implementation. */
  method GetOf<E(0,==)>(o: ListObject<E>, index: int) returns (r: Result<E>)
    requires ValidObject(o) && !o.NotAList?
    ensures 0 <= index < |ContentsOf(o)| ==> r == Ok(ContentsOf(o)[index])
    ensures !(0 <= index < |ContentsOf(o)|) ==>
              r == Err(if o.ArrayObj? then ArrayIndexOutOfBounds else IndexOutOfBounds)
  {
    match o
    case ArrayObj(a) => r := a.Get(index);
    case LinkedObj(l) => r := l.Get(index);
  }

  /** ArrayList's `equals(o)`: true exactly when `o` is a List holding the
      same values in the same order (in particular when `o` is this list). */
  method ArrayListEquals<E(0,==)>(self: ArrayList<E>, o: ListObject<E>) returns (r: bool)
    requires self.Valid() && ValidObject(o)
    ensures r <==> !o.NotAList? && ContentsOf(o) == self.Contents()
  {
    if o.ArrayObj? && o.arrayList == self {
      return true;
    }
    if o.NotAList? {
      return false;
    }
    var n := SizeOf(o);
    if n != self.size {
      return false;
    }
    var i := 0;
    while i < self.size
      invariant 0 <= i <= self.size
      invariant self.elements[..i] == ContentsOf(o)[..i]
    {
      var other := GetOf(o, i);
      if self.elements[i] != other.value {
        assert self.Contents()[i] != ContentsOf(o)[i];
        return false;
      }
      assert self.elements[..i + 1] == self.elements[..i] + [self.elements[i]];
      assert ContentsOf(o)[..i + 1] == ContentsOf(o)[..i] + [ContentsOf(o)[i]];
      i := i + 1;
    }
    assert ContentsOf(o)[..i] == ContentsOf(o);
    return true;
  }

  /** LinkedList's `equals(o)`: true exactly when `o` is a List holding the
      same values in the same order (in particular when `o` is this list);
      this list is walked forward from `head`. */
  method LinkedListEquals<E(0,==)>(self: LinkedList<E>, o: ListObject<E>) returns (r: bool)
    requires self.Valid() && ValidObject(o)
    ensures r <==> !o.NotAList? && ContentsOf(o) == self.Contents
  {
    if o.LinkedObj? && o.linkedList == self {
      return true;
    }
    if o.NotAList? {
      return false;
    }
    var n := SizeOf(o);
    if n != self.size {
      return false;
    }
    var current := self.head;
    var i := 0;
    while i < self.size
      invariant 0 <= i <= self.size
      invariant i < self.size ==> current == self.nodes[i]
      invariant self.Contents[..i] == ContentsOf(o)[..i]
    {
      var other := GetOf(o, i);
      if current.value != other.value {
        assert self.Contents[i] != ContentsOf(o)[i];
        return false;
      }
      assert self.Contents[..i + 1] == self.Contents[..i] + [self.Contents[i]];
      assert ContentsOf(o)[..i + 1] == ContentsOf(o)[..i] + [ContentsOf(o)[i]];
      current := current.next;
      i := i + 1;
    }
    assert ContentsOf(o)[..i] == ContentsOf(o);
    assert self.Contents[..i] == self.Contents;
    return true;
  }

  /** Equality does not depend on which implementation asks: an array list
      and a linked list are equal to each other, in both directions, exactly
      when they hold the same values in the same order. */
  method EqualsAcrossImplementations<E(0,==)>(a: ArrayList<E>, l: LinkedList<E>)
    returns (arrayAsks: bool, linkedAsks: bool)
    requires a.Valid() && l.Valid()
    ensures arrayAsks == linkedAsks
    ensures arrayAsks <==> a.Contents() == l.Contents
  {
    arrayAsks := ArrayListEquals(a, LinkedObj(l));
    linkedAsks := LinkedListEquals(l, ArrayObj(a));
  }
}
