/**
 * In-place selection sort of the first `n` slots of a buffer under a
 * comparator: the algorithm of ArrayList.sort, also used here for the
 * library sort that LinkedList.sort calls on its temporary array.
 */
module Sorting {
  import opened Sequences

  /** The outer-loop invariant of selection sort: each of the first `i`
      slots holds a value no greater than any value after it in `s[..n]`
      (so `s[..i]` is sorted and no later value belongs before it). */
  ghost predicate SortedPrefix<E>(s: seq<E>, i: nat, n: nat, cmp: (E, E) -> int)
    requires n <= |s|
  {
    forall p, q :: 0 <= p < i && p < q < n ==> cmp(s[p], s[q]) <= 0
  }

  /** One pass of selection sort: swapping a least value of `s[i..n]` into
      slot `i` extends the sorted prefix by one slot, keeps the values of
      `s[..n]` and leaves `s[n..]` alone. */
  lemma SwapMinExtendsPrefix<E>(s: seq<E>, i: nat, m: nat, n: nat, cmp: (E, E) -> int)
    requires i <= m < n <= |s|
    requires SortedPrefix(s, i, n, cmp)
    requires forall k :: i <= k < n ==> cmp(s[m], s[k]) <= 0
    ensures SortedPrefix(s[i := s[m]][m := s[i]], i + 1, n, cmp)
    ensures multiset(s[i := s[m]][m := s[i]][..n]) == multiset(s[..n])
    ensures s[i := s[m]][m := s[i]][n..] == s[n..]
  {
    var t := s[i := s[m]][m := s[i]];
    assert t[..n] == s[..n][i := s[m]][m := s[i]];
    assert t[n..] == s[n..];
    forall p, q | 0 <= p < i + 1 && p < q < n
      ensures cmp(t[p], t[q]) <= 0
    {
      if p < i {
        if q == i {
          assert t[q] == s[m];
        } else if q == m {
          assert t[q] == s[i];
        }
      }
    }
  }

  /** One step of the inner loop: comparing `s[j]` with the least value so
      far, `s[m]`, and keeping the strictly smaller one keeps `m` a first
      least position of `s[from..j + 1]`. */
  lemma MinStep<E>(s: seq<E>, from: nat, m: nat, j: nat, cmp: (E, E) -> int)
    requires from <= m < j < |s|
    requires IsComparatorOn(cmp, multiset(s))
    requires forall k :: from <= k < j ==> cmp(s[m], s[k]) <= 0
    requires forall k :: from <= k < m ==> cmp(s[m], s[k]) < 0
    ensures cmp(s[j], s[m]) < 0 ==>
              (forall k :: from <= k <= j ==> cmp(s[j], s[k]) <= 0) &&
              (forall k :: from <= k < j ==> cmp(s[j], s[k]) < 0)
    ensures !(cmp(s[j], s[m]) < 0) ==> forall k :: from <= k <= j ==> cmp(s[m], s[k]) <= 0
  {
    assert s[j] in multiset(s) && s[m] in multiset(s);
    if cmp(s[j], s[m]) < 0 {
      forall k | from <= k < j
        ensures cmp(s[j], s[k]) < 0
      {
        assert s[k] in multiset(s);
      }
    }
  }

  /** The position of a least element of `a[from..n]` under `cmp`, the
      first one when several are least (the inner loop of the sort). */
  method MinIndex<E>(a: array<E>, from: nat, n: nat, cmp: (E, E) -> int) returns (m: nat)
    requires from < n <= a.Length
    requires IsComparatorOn(cmp, multiset(a[..n]))
    ensures from <= m < n
    ensures forall k :: from <= k < n ==> cmp(a[m], a[k]) <= 0
    ensures forall k :: from <= k < m ==> cmp(a[m], a[k]) < 0
  {
    ghost var s := a[..n];
    m := from;
    var j := from + 1;
    while j < n
      invariant from <= m < j <= n
      invariant forall k :: from <= k < j ==> cmp(s[m], s[k]) <= 0
      invariant forall k :: from <= k < m ==> cmp(s[m], s[k]) < 0
    {
      MinStep(s, from, m, j, cmp);
      if cmp(a[j], a[m]) < 0 {
        m := j;
      }
      j := j + 1;
    }
    forall k | from <= k < n
      ensures cmp(a[m], a[k]) <= 0 && (k < m ==> cmp(a[m], a[k]) < 0)
    {
      assert s[k] == a[k] && s[m] == a[m];
    }
  }

  /** Sorts `a[..n]` in place into non-decreasing order under `cmp`, leaving
      a permutation of the old values there and `a[n..]` untouched. */
  method SelectionSort<E>(a: array<E>, n: nat, cmp: (E, E) -> int)
    requires n <= a.Length
    requires IsComparatorOn(cmp, multiset(a[..n]))
    modifies a
    ensures SortedBy(a[..n], cmp)
    ensures multiset(a[..n]) == multiset(old(a[..n]))
    ensures a[n..] == old(a[n..])
  {
    var i := 0;
    while i < n - 1
      invariant 0 <= i <= if n == 0 then 0 else n - 1
      invariant multiset(a[..n]) == multiset(old(a[..n]))
      invariant a[n..] == old(a[n..])
      invariant SortedPrefix(a[..], i, n, cmp)
    {
      var m := MinIndex(a, i, n, cmp);
      SwapMinExtendsPrefix(a[..], i, m, n, cmp);
      a[i], a[m] := a[m], a[i];
      i := i + 1;
    }
    assert forall p :: 0 <= p < n ==> a[..n][p] == a[..][p];
  }
}
