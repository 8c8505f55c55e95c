/** The in-place sorts of the library. std::sort is modelled by an insertion
    sort over a range of the array; callers rely only on its contract. */
module Sorting {
  import opened Tasks
  import opened Orders

  /** r with positions i and j exchanged. */
  function Swapped(r: seq<Task>, i: int, j: int): seq<Task>
    requires 0 <= i < |r| && 0 <= j < |r|
  {
    r[i := r[j]][j := r[i]]
  }

  lemma SwappedMultiset(r: seq<Task>, i: int, j: int)
    requires 0 <= i < |r| && 0 <= j < |r|
    ensures |Swapped(r, i, j)| == |r| && multiset(Swapped(r, i, j)) == multiset(r)
  {
  }

  /** Exchanges two positions of the array in place. */
  method Swap(a: array<Task>, i: int, j: int)
    requires 0 <= i < a.Length && 0 <= j < a.Length
    modifies a
    ensures a[..] == Swapped(old(a[..]), i, j)
    ensures multiset(a[..]) == old(multiset(a[..]))
  {
    a[i], a[j] := a[j], a[i];
  }

  /** Sorts a[lo..hi) in place: the range ends up a permutation of what it
      held with no inverted neighbours, and nothing outside it moves. */
  method InsertionSort(a: array<Task>, lo: int, hi: int, o: Order)
    requires 0 <= lo <= hi <= a.Length
    modifies a
    ensures a[..lo] == old(a[..lo]) && a[hi..] == old(a[hi..])
    ensures multiset(a[..]) == old(multiset(a[..]))
    ensures multiset(a[lo..hi]) == old(multiset(a[lo..hi]))
    ensures AdjacentSorted(a[lo..hi], o)
  {
    var i := lo;
    while i < hi
      invariant lo <= i <= hi
      invariant a[..lo] == old(a[..lo]) && a[hi..] == old(a[hi..])
      invariant multiset(a[..]) == old(multiset(a[..]))
      invariant forall k :: lo < k < i ==> !Less(o, a[k], a[k - 1])
    {
      var j := i;
      while j > lo && Less(o, a[j], a[j - 1])
        invariant lo <= j <= i
        invariant a[..lo] == old(a[..lo]) && a[hi..] == old(a[hi..])
        invariant multiset(a[..]) == old(multiset(a[..]))
        invariant forall k :: lo < k <= i && k != j && k != j + 1 ==> !Less(o, a[k], a[k - 1])
        invariant lo < j < i ==> !Less(o, a[j + 1], a[j - 1])
        invariant j < i ==> !Less(o, a[j + 1], a[j])
      {
        LessAsymmetric(o, a[j], a[j - 1]);
        Swap(a, j - 1, j);
        j := j - 1;
      }
      i := i + 1;
    }
    MiddleMultiset(a[..], old(a[..]), lo, hi);
  }

  /** Two sequences with the same multiset and the same outside parts have
      the same multiset in between. */
  lemma MiddleMultiset(s: seq<Task>, t: seq<Task>, lo: int, hi: int)
    requires 0 <= lo <= hi <= |s| == |t|
    requires s[..lo] == t[..lo] && s[hi..] == t[hi..]
    requires multiset(s) == multiset(t)
    ensures multiset(s[lo..hi]) == multiset(t[lo..hi])
  {
    assert s == s[..lo] + s[lo..hi] + s[hi..];
    assert t == t[..lo] + t[lo..hi] + t[hi..];
    assert multiset(s[lo..hi]) == multiset(s) - multiset(s[..lo]) - multiset(s[hi..]);
    assert multiset(t[lo..hi]) == multiset(t) - multiset(t[..lo]) - multiset(t[hi..]);
  }

  /** The whole array sorted by a key comparator. */
  method SortBy(a: array<Task>, o: Order)
    requires IsKeyOrder(o)
    modifies a
    ensures multiset(a[..]) == old(multiset(a[..]))
    ensures Sorted(a[..], o)
  {
    InsertionSort(a, 0, a.Length, o);
    assert a[0..a.Length] == a[..];
    AdjacentSortedIsSorted(a[..], o);
  }

  /** sortByRj: release times ascending or descending, as the flag says. */
  method SortByRj(a: array<Task>, ascending: bool)
    modifies a
    ensures multiset(a[..]) == old(multiset(a[..]))
    ensures forall i, j :: 0 <= i < j < a.Length ==>
              if ascending then a[i].rj <= a[j].rj else a[i].rj >= a[j].rj
  {
    SortBy(a, ByRj(ascending));
    assert forall i, j :: 0 <= i < j < a.Length ==> !Less(ByRj(ascending), a[..][j], a[..][i]);
  }

  /** sortByQj: delivery tails ascending or descending, as the flag says. */
  method SortByQj(a: array<Task>, ascending: bool)
    modifies a
    ensures multiset(a[..]) == old(multiset(a[..]))
    ensures forall i, j :: 0 <= i < j < a.Length ==>
              if ascending then a[i].qj <= a[j].qj else a[i].qj >= a[j].qj
  {
    SortBy(a, ByQj(ascending));
    assert forall i, j :: 0 <= i < j < a.Length ==> !Less(ByQj(ascending), a[..][j], a[..][i]);
  }

  /** ownAlgorithm: ascending by rj + qj, ties broken by pj ascending. The
      source sorts a copy and assigns it back, which leaves the same contents. */
  method OwnAlgorithm(a: array<Task>)
    modifies a
    ensures multiset(a[..]) == old(multiset(a[..]))
    ensures forall i, j :: 0 <= i < j < a.Length ==>
              a[i].rj + a[i].qj < a[j].rj + a[j].qj ||
              (a[i].rj + a[i].qj == a[j].rj + a[j].qj && a[i].pj <= a[j].pj)
  {
    SortBy(a, BySumThenPj);
    assert forall i, j :: 0 <= i < j < a.Length ==> !Less(BySumThenPj, a[..][j], a[..][i]);
  }
}
