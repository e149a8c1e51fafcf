# Array list and linked list, verified

A model of a small generic collection library with two interchangeable
sequence containers behind one `List` abstraction:

- `ArrayList<E>` keeps its values in the first `size` slots of a buffer
  `elements`. Inserting or removing shifts the tail of the buffer by one
  slot. A full buffer is replaced by one of length `(int)(length * 1.5)`.
  `trimToSize` shrinks the buffer to exactly `size`. `sort` is an in-place
  selection sort.
- `LinkedList<E>` is a doubly linked chain of `Node { value, next, prev }`
  between `head` and `tail`, with a `size` field. It works in O(1) at both
  ends. Indexed operations walk forward from `head`, and `lastIndexOf`
  walks backward from `tail`. `sort` copies the values out, sorts the copy
  and writes it back into the same nodes.

Both containers mean the same thing: a finite sequence of values. Each
class has a ghost abstract value, `ArrayList.Contents()` and
`LinkedList.Contents`. Every operation is specified as a change to that
sequence, or as a query of it, using the shared definitions in
`Sequences.dfy`. Exceptions are results: `Outcomes.Error` names the three
exception classes the code throws.

Files:

- `Outcomes.dfy`: errors and results.
- `Sequences.dfy`: the abstract sequence operations and their lemmas. These
  are insert, delete, first and last index, removing the first occurrence,
  comparators and sortedness.
- `Sorting.dfy`: the selection sort of `ArrayList.sort`.
- `ArrayList.dfy`: the `ArrayList` class over an `array<E>` and `size`, with
  its growth policy.
- `LinkedList.dfy`: the `Node` and `LinkedList` classes. The class invariant
  `Valid()` ties `head`, `tail`, `size` and the `next`/`prev` links to a ghost
  sequence `nodes` and a footprint `Repr`.
- `Lists.dfy`: the shared `List` abstraction and the cross-implementation
  `equals`.
- `Scenarios.dfy`: client code that uses only the contracts. It covers the
  documented example runs, equality of an array list and a linked list, and
  the add that throws on a one-slot buffer.

The `List` interface is a tagged variant here (`Lists.ListObject`: an array
list, a linked list, or an object that is not a List). The two `equals`
methods read the other list only through its size and `get`, dispatched on
that variant.

Where the interface documentation and the code disagree, the model follows
the code. There is one such place:

- `ArrayList.addAll` returns true even when nothing was added.
  `Collection.java:55-61` says it returns whether the list changed.

The exception classes are modelled as the code names them.
`LinkedList.add(index, item)` and `ArrayList.checkIndex` throw
`ArrayIndexOutOfBoundsException`, a subclass of the
`IndexOutOfBoundsException` that `List.java:17` and `List.java:26` document,
so they keep that documentation. `LinkedList.checkIndex` throws
`IndexOutOfBoundsException` itself.

## Model

| member | source | states |
|---|---|---|
| `Sequences.FirstIndex` | ArrayList.java:301-307 | the result is -1 exactly when the value is absent; otherwise the value is at that index and at no earlier index |
| `Sequences.LastIndex` | ArrayList.java:315-321 | the result is -1 exactly when the value is absent; otherwise the value is at that index and at no later index |
| `Sequences.InsertAt` | ArrayList.java:85-89 | the new value is at the insertion index, earlier elements keep their places, and later ones move one place right |
| `Sequences.DeleteAt` | ArrayList.java:161-165 | elements before the index keep their places, later ones move one place left, and the length drops by one |
| `Sequences.DeleteInsert` | List.java:12-19 | removing at an index what was just inserted there gives back the original list |
| `Sequences.InsertDelete` | List.java:46-53 | re-inserting a removed element where it was gives back the original list |
| `Sequences.InsertDeleteCounts` | List.java:12-53 | an insertion adds exactly one copy of the new value; a deletion removes exactly one copy of the deleted value |
| `Sequences.WithoutFirst` | ArrayList.java:142-150 | removing the first occurrence of a value shortens the list by one exactly when the value is present, and otherwise keeps its length |
| `Sequences.WithoutFirstDeletes` | ArrayList.java:142-150 | removing by value changes nothing when the value is absent; otherwise it deletes exactly the element at its first occurrence |
| `Sequences.WithoutFirstCount` | Collection.java:27-33 | removing by value takes away exactly one copy of the value if present, and the length drops by one exactly then |
| `Sorting.SwapMinExtendsPrefix` | ArrayList.java:338-347 | swapping a least remaining value into slot `i` extends the sorted, no-greater-than-the-rest prefix by one slot and keeps the multiset of values |
| `Sorting.MinStep` | ArrayList.java:340-343 | one comparison of the inner loop keeps the candidate a least value of the part scanned so far, and strictly less than every value before it there, whether or not the candidate changes |
| `Sorting.MinIndex` | ArrayList.java:339-343 | returns an index in `[i, n)` whose value is no greater under the comparator than any other there, and strictly less than every value in `[i, m)` |
| `Sorting.SelectionSort` | ArrayList.java:337-348 | the first `n` slots end non-decreasing under the comparator and a permutation of their old values; later slots are untouched |
| `ArrayLists.GrownCapacity` | ArrayList.java:188 | the written growth length is `length * 1.5` rounded toward zero: twice it is at most three times `length`, and less than that plus two |
| `ArrayLists.CapacityAfterEnsure` | ArrayList.java:186-189 | the buffer keeps its length when it has a free slot; a full buffer is given the written growth length |
| `ArrayLists.RoomAfterEnsure` | ArrayList.java:186-195 | growth never shrinks the buffer, and it leaves room for one more element exactly when the buffer had a free slot or at least two slots |
| `ArrayLists.GrowthStallsOnTinyBuffers` | ArrayList.java:188 | the written growth `(int)(length*1.5)` fails to enlarge exactly the buffers of length 0 and 1 |
| `ArrayLists.IntendedGrownCapacity` | ArrayList.java:182-188 | the corrected growth always enlarges the buffer, and equals the written 1.5x growth for lengths of 2 or more |
| `ArrayLists.ArrayList.constructor` | ArrayList.java:21-24 | a new list is empty, with a fresh buffer of the default length 10 |
| `ArrayLists.ArrayList.WithCapacity` | ArrayList.java:31-34 | a new list is empty, with a fresh buffer of the requested length |
| `ArrayLists.ArrayList.Size` | ArrayList.java:41-43 | returns the number of elements |
| `ArrayLists.ArrayList.Clear` | ArrayList.java:49-51 | the list becomes empty and keeps its buffer |
| `ArrayLists.ArrayList.IsEmpty` | ArrayList.java:58-60 | true exactly when the list has no elements |
| `ArrayLists.ArrayList.CheckIndex` | ArrayList.java:203-207 | passes exactly when `0 <= index < size`, and otherwise reports ArrayIndexOutOfBoundsException |
| `ArrayLists.ArrayList.EnsureCapacity` | ArrayList.java:186-195 | the buffer length becomes the growth-policy length (larger only when the buffer was full); the contents are unchanged |
| `ArrayLists.ArrayList.TrimToSize` | ArrayList.java:173-180 | the buffer length becomes exactly `size`; the contents are unchanged |
| `ArrayLists.ArrayList.AddAt` | ArrayList.java:81-90 | for `0 <= index <= size` with room after growth, the contents become the old contents with the item inserted at `index`. An index out of range throws with nothing changed. A full buffer that cannot grow throws with the contents unchanged |
| `ArrayLists.ArrayList.Add` | ArrayList.java:68-71 | returns true with the item appended, or throws with the contents unchanged exactly when a full buffer cannot grow |
| `ArrayLists.ArrayList.Get` | ArrayList.java:116-119 | returns the element at the index, or ArrayIndexOutOfBoundsException when the index is outside `[0, size)` |
| `ArrayLists.ArrayList.Set` | ArrayList.java:129-134 | returns the old element at the index and changes only that position; out of range it throws with nothing changed |
| `ArrayLists.ArrayList.RemoveAt` | ArrayList.java:159-167 | returns the old element at the index and deletes that position, shifting the rest left; out of range it throws with nothing changed |
| `ArrayLists.ArrayList.Remove` | ArrayList.java:142-150 | returns true exactly when the value was present, and removes only its first occurrence |
| `ArrayLists.ArrayList.Contains` | ArrayList.java:98-107 | true exactly when some element equals the value |
| `ArrayLists.ArrayList.IndexOf` | ArrayList.java:301-307 | returns the first index holding the value, or -1 |
| `ArrayLists.ArrayList.LastIndexOf` | ArrayList.java:315-321 | returns the last index holding the value, or -1 |
| `ArrayLists.ArrayList.ToArray` | ArrayList.java:328-330 | returns a fresh array equal to the contents, of length `size` |
| `ArrayLists.ArrayList.AddAll` | ArrayList.java:266-272 | returns true with every given value appended in order, or throws ArrayIndexOutOfBoundsException exactly when the buffer has length 0 or 1 and fewer free slots than values, after appending as many values as there were free slots |
| `ArrayLists.ArrayList.Sort` | ArrayList.java:337-348 | the contents become non-decreasing under the comparator and a permutation of the old contents |
| `LinkedLists.Node.constructor` | LinkedList.java:26-30 | a new node holds the value, with no neighbours |
| `LinkedLists.LinkedList.constructor` | LinkedList.java:38-41 | a new list is empty, with null `head` and `tail` |
| `LinkedLists.LinkedList.Size` | LinkedList.java:49-51 | returns the number of elements |
| `LinkedLists.LinkedList.Clear` | LinkedList.java:57-60 | the list becomes empty, with null `head` and `tail` |
| `LinkedLists.LinkedList.IsEmpty` | LinkedList.java:68-70 | true exactly when the list has no elements |
| `LinkedLists.LinkedList.CheckIndex` | LinkedList.java:491-494 | passes exactly when `0 <= index < size`, and otherwise reports IndexOutOfBoundsException |
| `LinkedLists.LinkedList.NodeAt` | LinkedList.java:380-383 | walking `index` steps along `next` from `head` reaches the node at that position, which holds the element there |
| `LinkedLists.LinkedList.AddFirst` | LinkedList.java:109-120 | returns true with the value prepended, keeping the chain invariant; on an empty list the new node is both `head` and `tail` |
| `LinkedLists.LinkedList.AddLast` | LinkedList.java:129-140 | returns true with the value appended, keeping the chain invariant; on an empty list the new node is both `head` and `tail` |
| `LinkedLists.LinkedList.Add` | LinkedList.java:80-82 | returns true with the value appended |
| `LinkedLists.LinkedList.AddAt` | LinkedList.java:151-171 | for `0 <= index <= size` the item ends up at position `index`; otherwise it throws ArrayIndexOutOfBoundsException with nothing changed |
| `LinkedLists.LinkedList.SpliceBefore` | LinkedList.java:160-169 | splicing a new node in before the node at an interior position inserts the item there and keeps `next`/`prev` mirrored |
| `LinkedLists.LinkedList.GetFirst` | LinkedList.java:180-184 | returns the first element, or NoSuchElementException on an empty list |
| `LinkedLists.LinkedList.GetLast` | LinkedList.java:193-197 | returns the last element, or NoSuchElementException on an empty list |
| `LinkedLists.LinkedList.RemoveFirst` | LinkedList.java:206-217 | returns the first element and leaves the rest; on an empty list it throws NoSuchElementException with nothing changed |
| `LinkedLists.LinkedList.RemoveLast` | LinkedList.java:226-237 | returns the last element and leaves the rest; on an empty list it throws NoSuchElementException with nothing changed |
| `LinkedLists.LinkedList.UnlinkInterior` | LinkedList.java:255-257 | joining the neighbours of an interior node deletes exactly that position and keeps the chain invariant |
| `LinkedLists.LinkedList.Remove` | LinkedList.java:246-264 | returns true exactly when the value was present, and unlinks only its first occurrence |
| `LinkedLists.LinkedList.Contains` | LinkedList.java:91-100 | true exactly when some element equals the value |
| `LinkedLists.LinkedList.Get` | LinkedList.java:378-385 | returns the element at the index, or IndexOutOfBoundsException outside `[0, size)` |
| `LinkedLists.LinkedList.Set` | LinkedList.java:396-405 | returns the old value at the index and changes only that value, with the node chain unchanged; out of range it throws with nothing changed |
| `LinkedLists.LinkedList.IndexOf` | LinkedList.java:414-422 | returns the first index holding the value, or -1 |
| `LinkedLists.LinkedList.LastIndexOf` | LinkedList.java:431-439 | walking backward along `prev` from `tail` finds the last index holding the value, or -1 |
| `LinkedLists.LinkedList.RemoveAt` | LinkedList.java:449-464 | returns the old element at the index and deletes that position; out of range it throws with nothing changed |
| `LinkedLists.LinkedList.ToArray` | LinkedList.java:503-512 | returns a fresh array of length `size` holding the values in forward order |
| `LinkedLists.LinkedList.AddAll` | LinkedList.java:335-344 | appends every given value in order, and returns true exactly when there was at least one |
| `LinkedLists.LinkedList.Sort` | LinkedList.java:472-482 | the node chain, `head`, `tail` and size are unchanged; the values become non-decreasing under the comparator and a permutation of the old ones; a list of at most one element is unchanged |
| `LinkedLists.LinkedList.SortedValues` | LinkedList.java:475-476 | returns a fresh array holding a permutation of the list's values, in non-decreasing order under the comparator |
| `LinkedLists.LinkedList.WriteBack` | LinkedList.java:477-481 | writing values back along the chain makes the contents exactly those values, with no link changed |
| `Lists.SizeOf` | ArrayList.java:285-286 | the other list's `size()` is the length of its contents, whichever implementation it is |
| `Lists.GetOf` | ArrayList.java:288-289 | the other list's `get(i)` is its element at `i`, or that implementation's index exception |
| `Lists.ArrayListEquals` | ArrayList.java:280-293 | true exactly when the argument is a List with the same values in the same order, including the argument being this list |
| `Lists.LinkedListEquals` | LinkedList.java:353-368 | true exactly when the argument is a List with the same values in the same order, including the argument being this list |
| `Lists.EqualsAcrossImplementations` | Collection.java:47-53 | an array list and a linked list are equal to each other in both directions exactly when they hold the same values in the same order |

## Left out

- The iterators (`ArrayIterator`, `LinkedListIterator`, `iterator()`) are not modelled. They alias the list's live state and have no check for concurrent modification. `contains` and `addAll` are loops over the values.
- `ArrayLists.ArrayList.AddAll` and `LinkedLists.LinkedList.AddAll` take the values the argument's iterator yields as a sequence. `addAll(this)` does not terminate in the source and is not modelled: the sequence is a snapshot.
- Both `toString` methods are not modelled: their text depends on each element's `toString`. `LinkedList.toString` also dereferences a null `head` on an empty list.
- `Test.java` is a console driver and is not part of this model.
- The `Comparator` is a function `(E, E) -> int`. `sort` requires it to behave as a comparator on the list's values: sign-antisymmetric, with transitive `<= 0`.
- `Arrays.sort` (in `LinkedList.sort`) is a library call. It is replaced by the same selection sort, and only its postcondition is used. The library's check for inconsistent comparators is not modelled.
- `Arrays.copyOf` (in `ArrayList.toArray`) is a library call and is modelled by its postcondition, a copy of the first `size` slots.
- `Object.equals` is Dafny equality on an equality-supporting element type. Null elements, and the NullPointerException they would raise, are not modelled.
- `equals` accepts only the two list classes, or an object that is not a List. Other implementations of `List` do not exist in the source.
- Java `int` arithmetic is not modelled: sizes and capacities are unbounded naturals, so overflow cannot occur. A negative constructor capacity (`NegativeArraySizeException`) cannot be expressed.
- The floating-point multiply at ArrayList.java:188 is written as `length * 3 / 2`. That is exact for lengths up to 1431655765. Above that the Java cast saturates at Integer.MAX_VALUE, which falls under the `int` arithmetic left out above.
- The unchecked generic-array casts are Java artifacts with no counterpart.
- Unused buffer slots hold arbitrary values rather than stale references or null. Nothing reads them.
- Unlinked nodes keep their stale `next`/`prev` links, as in the source. Contracts only state that they leave the list.

## Findings

| source | as written | input that shows it | evidently intended | confidence | as-written member | corrected member |
|---|---|---|---|---|---|---|
| ArrayList.java:188 | a full buffer is replaced by one of length `(int)(length * 1.5)`, which is `length` itself for lengths 0 and 1 | `new ArrayList(1)`, then `add(5)`, `add(6)`: the buffer stays at length 1, and the store at ArrayList.java:88 throws ArrayIndexOutOfBoundsException (likewise `new ArrayList(0)` and `add(x)`, or `trimToSize` on a list of at most one element followed by enough adds) | a full buffer always grows by at least one slot | not executed | `ArrayLists.GrowthStallsOnTinyBuffers` | `ArrayLists.IntendedGrownCapacity` |

The `ArrayList` class keeps the written growth policy so that the failure
stays visible in its contracts. `AddAt` and `Add` return the
ArrayIndexOutOfBoundsException with the contents unchanged when a full
buffer cannot grow, and `Scenarios.OneSlotBufferRun` shows this for
`new ArrayList(1)`. `IntendedGrownCapacity` is the corrected policy. It is
proved always to make room, and to agree with the written policy for
lengths of 2 or more.
