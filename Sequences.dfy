/**
 * The abstract meaning shared by both containers: a finite sequence of
 * values. Every list operation is specified as a change to, or a query of,
 * such a sequence; the definitions here are used by both implementations.
 */
module Sequences {

  /** The index of the first occurrence of `x` in `s`, or -1 (List.indexOf). */
  function FirstIndex<E(==)>(s: seq<E>, x: E): (r: int)
    ensures -1 <= r < |s|
    ensures r == -1 <==> x !in s
    ensures 0 <= r ==> s[r] == x && x !in s[..r]
  {
    if s == [] then -1
    else if s[0] == x then 0
    else
      var k := FirstIndex(s[1..], x);
      if k == -1 then -1
      else
        assert s[..k + 1] == [s[0]] + s[1..][..k];
        k + 1
  }

  /** The index of the last occurrence of `x` in `s`, or -1 (List.lastIndexOf). */
  function LastIndex<E(==)>(s: seq<E>, x: E): (r: int)
    ensures -1 <= r < |s|
    ensures r == -1 <==> x !in s
    ensures 0 <= r ==> s[r] == x && x !in s[r + 1..]
  {
    if s == [] then -1
    else if s[|s| - 1] == x then |s| - 1
    else
      var k := LastIndex(s[..|s| - 1], x);
      assert s == s[..|s| - 1] + [s[|s| - 1]];
      assert 0 <= k ==> s[k + 1..] == s[..|s| - 1][k + 1..] + [s[|s| - 1]];
      k
  }

  /** A scan that stops at position `i` finds the first occurrence there. */
  lemma FirstIndexAt<E>(s: seq<E>, x: E, i: nat)
    requires i < |s| && s[i] == x && x !in s[..i]
    ensures FirstIndex(s, x) == i
  {
  }

  /** A backward scan that stops at position `i` finds the last occurrence there. */
  lemma LastIndexAt<E>(s: seq<E>, x: E, i: nat)
    requires i < |s| && s[i] == x && x !in s[i + 1..]
    ensures LastIndex(s, x) == i
  {
  }

  /** `s` with `x` inserted so that it ends up at position `i`: the elements
      before `i` stay, the others move one place to the right. */
  function InsertAt<E>(s: seq<E>, i: nat, x: E): (r: seq<E>)
    requires i <= |s|
    ensures |r| == |s| + 1 && r[i] == x
    ensures forall k :: 0 <= k < i ==> r[k] == s[k]
    ensures forall k :: i < k < |r| ==> r[k] == s[k - 1]
  {
    s[..i] + [x] + s[i..]
  }

  /** `s` without its element at position `i`: the elements before `i` stay,
      the ones after it move one place to the left. */
  function DeleteAt<E>(s: seq<E>, i: nat): (r: seq<E>)
    requires i < |s|
    ensures |r| == |s| - 1
    ensures forall k :: 0 <= k < i ==> r[k] == s[k]
    ensures forall k :: i <= k < |r| ==> r[k] == s[k + 1]
  {
    s[..i] + s[i + 1..]
  }

  /** Removing what was just inserted gives back the original sequence. */
  lemma DeleteInsert<E>(s: seq<E>, i: nat, x: E)
    requires i <= |s|
    ensures DeleteAt(InsertAt(s, i, x), i) == s
  {
    var r := DeleteAt(InsertAt(s, i, x), i);
    assert forall k :: 0 <= k < |s| ==> r[k] == s[k];
  }

  /** Putting a removed element back where it was gives back the original sequence. */
  lemma InsertDelete<E>(s: seq<E>, i: nat)
    requires i < |s|
    ensures InsertAt(DeleteAt(s, i), i, s[i]) == s
  {
    var r := InsertAt(DeleteAt(s, i), i, s[i]);
    assert forall k :: 0 <= k < |s| ==> r[k] == s[k];
  }

  /** Insertion adds exactly one copy of the new value; deletion removes exactly one copy of the value deleted. */
  lemma InsertDeleteCounts<E>(s: seq<E>, i: nat, x: E)
    requires i <= |s|
    ensures multiset(InsertAt(s, i, x)) == multiset(s) + multiset{x}
    ensures i < |s| ==> multiset(DeleteAt(s, i)) == multiset(s) - multiset{s[i]}
  {
    assert s == s[..i] + s[i..];
    if i < |s| {
      assert s[i..] == [s[i]] + s[i + 1..];
    }
  }

  /** Inserting a value that is not in a sequence of distinct values keeps them distinct. */
  lemma InsertDistinct<E>(s: seq<E>, i: nat, x: E)
    requires i <= |s| && x !in s
    requires forall p, q :: 0 <= p < q < |s| ==> s[p] != s[q]
    ensures forall p, q :: 0 <= p < q < |s| + 1 ==> InsertAt(s, i, x)[p] != InsertAt(s, i, x)[q]
  {
  }

  /** `s` without the first element equal to `x` (Collection.remove(Object)):
      the reference definition, by recursion over `s`. */
  function WithoutFirst<E(==)>(s: seq<E>, x: E): (r: seq<E>)
    ensures |r| == if x in s then |s| - 1 else |s|
  {
    if s == [] then []
    else if s[0] == x then s[1..]
    else [s[0]] + WithoutFirst(s[1..], x)
  }

  /** When `x` is absent nothing is removed; otherwise exactly the element at
      the first occurrence of `x` is removed. */
  lemma {:induction false} WithoutFirstDeletes<E>(s: seq<E>, x: E)
    ensures x !in s ==> WithoutFirst(s, x) == s
    ensures x in s ==> WithoutFirst(s, x) == DeleteAt(s, FirstIndex(s, x))
  {
    if s != [] && s[0] != x {
      var t := s[1..];
      assert s == [s[0]] + t;
      assert x in s <==> x in t;
      WithoutFirstDeletes(t, x);
      if x in s {
        var k := FirstIndex(t, x);
        assert FirstIndex(s, x) == k + 1;
        assert t[..k] == s[1..k + 1] && t[k + 1..] == s[k + 2..];
        assert [s[0]] + s[1..k + 1] == s[..k + 1];
      }
    }
  }

  /** Removing the first occurrence takes away exactly one copy of `x`, if there is one. */
  lemma {:induction false} WithoutFirstCount<E>(s: seq<E>, x: E)
    ensures multiset(WithoutFirst(s, x)) == multiset(s) - multiset{x}
    ensures |WithoutFirst(s, x)| == if x in s then |s| - 1 else |s|
  {
    WithoutFirstDeletes(s, x);
    if x in s {
      InsertDeleteCounts(s, FirstIndex(s, x), x);
    }
  }

  /** A scan that stops at position `i`, the first occurrence of `x`, removes
      what `WithoutFirst` removes. */
  lemma WithoutFirstAt<E>(s: seq<E>, x: E, i: nat)
    requires i < |s| && s[i] == x && x !in s[..i]
    ensures WithoutFirst(s, x) == DeleteAt(s, i)
  {
    FirstIndexAt(s, x, i);
    WithoutFirstDeletes(s, x);
  }

  /** `cmp` behaves as a Java Comparator on the values of `m`: it is
      sign-antisymmetric (so compare(x, x) == 0) and `<= 0` is transitive. */
  ghost predicate IsComparatorOn<E>(cmp: (E, E) -> int, m: multiset<E>)
  {
    && (forall x, y | x in m && y in m :: cmp(x, y) < 0 <==> cmp(y, x) > 0)
    && (forall x, y, z {:trigger cmp(x, y), cmp(y, z)} | x in m && y in m && z in m :: cmp(x, y) <= 0 && cmp(y, z) <= 0 ==> cmp(x, z) <= 0)
  }

  /** `s` is in non-decreasing order under `cmp`. */
  ghost predicate SortedBy<E>(s: seq<E>, cmp: (E, E) -> int)
  {
    forall i, j :: 0 <= i < j < |s| ==> cmp(s[i], s[j]) <= 0
  }
}
