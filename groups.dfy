/** The tie-run local optimiser: reorders each maximal run of equal release
    times (or equal delivery tails) by the pairwise-Cmax comparator. */
module Groups {
  import opened Tasks
  import opened Orders
  import opened Sorting

  /** The value the runs are formed on: rj when the flag is set, else qj. */
  function Key(t: Task, byRj: bool): int
  {
    if byRj then t.rj else t.qj
  }

  /** [i, j) is a maximal run of equal keys in s. */
  ghost predicate IsRun(s: seq<Task>, i: int, j: int, byRj: bool)
  {
    && 0 <= i < j <= |s|
    && (forall k :: i <= k < j ==> Key(s[k], byRj) == Key(s[i], byRj))
    && (i == 0 || Key(s[i - 1], byRj) != Key(s[i], byRj))
    && (j == |s| || Key(s[j], byRj) != Key(s[i], byRj))
  }

  /** i is where a run begins (or the end of s). */
  ghost predicate IsBoundary(s: seq<Task>, i: int, byRj: bool)
  {
    0 <= i <= |s| && (i == 0 || i == |s| || Key(s[i - 1], byRj) != Key(s[i], byRj))
  }

  /** A run never straddles a boundary, and the run starting at a boundary is
      determined by where its keys stop being equal. */
  lemma RunPlacement(s: seq<Task>, i: int, j: int, p: int, q: int, byRj: bool)
    requires IsBoundary(s, i, byRj) && i < j <= |s|
    requires forall k :: i <= k < j ==> Key(s[k], byRj) == Key(s[i], byRj)
    requires j == |s| || Key(s[j], byRj) != Key(s[i], byRj)
    requires IsRun(s, p, q, byRj)
    ensures q <= i || j <= p || (p == i && q == j)
  {
  }

  /** Each task of a multiset-equal copy of a range comes from that range. */
  lemma FromRange(r: seq<Task>, s: seq<Task>, k: int)
    requires multiset(r) == multiset(s) && 0 <= k < |r|
    ensures exists m :: 0 <= m < |s| && s[m] == r[k]
  {
    assert r[k] in multiset(s);
  }

  /** In t, every maximal run of s that ends by i holds what it held in s. */
  ghost predicate RunsPermuted(s: seq<Task>, t: seq<Task>, i: int, byRj: bool)
    requires |s| == |t| && 0 <= i <= |s|
  {
    forall p, q :: IsRun(s, p, q, byRj) && q <= i ==> multiset(t[p..q]) == multiset(s[p..q])
  }

  /** In t, the positions before i carry the keys they carry in s. */
  ghost predicate KeysKept(s: seq<Task>, t: seq<Task>, i: int, byRj: bool)
    requires |s| == |t| && 0 <= i <= |s|
  {
    forall k :: 0 <= k < i ==> Key(t[k], byRj) == Key(s[k], byRj)
  }

  /** In t, the singleton runs of s before i are untouched. */
  ghost predicate SinglesKept(s: seq<Task>, t: seq<Task>, i: int, byRj: bool)
    requires |s| == |t| && 0 <= i <= |s|
  {
    forall p :: IsRun(s, p, p + 1, byRj) && p + 1 <= i ==> t[p] == s[p]
  }

  /** In t, the runs of two of s before i are in the order with the smaller
      isolated Cmax. */
  ghost predicate PairsOrdered(s: seq<Task>, t: seq<Task>, i: int, byRj: bool)
    requires |s| == |t| && 0 <= i <= |s|
  {
    forall p :: IsRun(s, p, p + 2, byRj) && p + 2 <= i ==>
      Cmax([t[p], t[p + 1]]) <= Cmax([t[p + 1], t[p]])
  }

  /** The facts shared by the four steps below: [i, j) is the run the loop
      found, and only it changed between `before` and `after`. */
  ghost predicate RunStep(s: seq<Task>, before: seq<Task>, after: seq<Task>, i: int, j: int, byRj: bool)
  {
    && |s| == |before| == |after|
    && IsBoundary(s, i, byRj) && IsRun(s, i, j, byRj)
    && (forall k :: i <= k < |s| ==> before[k] == s[k])
    && (forall k :: 0 <= k < |s| && (k < i || j <= k) ==> after[k] == before[k])
    && multiset(after[i..j]) == multiset(s[i..j])
  }

  lemma RunsPermutedStep(s: seq<Task>, before: seq<Task>, after: seq<Task>, i: int, j: int, byRj: bool)
    requires RunStep(s, before, after, i, j, byRj)
    requires RunsPermuted(s, before, i, byRj)
    ensures RunsPermuted(s, after, j, byRj)
  {
    forall p, q | IsRun(s, p, q, byRj) && q <= j
      ensures multiset(after[p..q]) == multiset(s[p..q])
    {
      RunPlacement(s, i, j, p, q, byRj);
      if q <= i {
        assert after[p..q] == before[p..q];
      }
    }
  }

  lemma KeysKeptStep(s: seq<Task>, before: seq<Task>, after: seq<Task>, i: int, j: int, byRj: bool)
    requires RunStep(s, before, after, i, j, byRj)
    requires KeysKept(s, before, i, byRj)
    ensures KeysKept(s, after, j, byRj)
  {
    forall k | i <= k < j
      ensures Key(after[k], byRj) == Key(s[k], byRj)
    {
      FromRange(after[i..j], s[i..j], k - i);
    }
  }

  lemma SinglesKeptStep(s: seq<Task>, before: seq<Task>, after: seq<Task>, i: int, j: int, byRj: bool)
    requires RunStep(s, before, after, i, j, byRj)
    requires SinglesKept(s, before, i, byRj)
    requires j == i + 1 ==> after[i] == before[i]
    ensures SinglesKept(s, after, j, byRj)
  {
    forall p | IsRun(s, p, p + 1, byRj) && p + 1 <= j
      ensures after[p] == s[p]
    {
      RunPlacement(s, i, j, p, p + 1, byRj);
    }
  }

  lemma PairsOrderedStep(s: seq<Task>, before: seq<Task>, after: seq<Task>, i: int, j: int, byRj: bool)
    requires RunStep(s, before, after, i, j, byRj)
    requires PairsOrdered(s, before, i, byRj)
    requires j == i + 2 ==> !Less(ByPairCmax, after[i + 1], after[i])
    ensures PairsOrdered(s, after, j, byRj)
  {
    forall p | IsRun(s, p, p + 2, byRj) && p + 2 <= j
      ensures Cmax([after[p], after[p + 1]]) <= Cmax([after[p + 1], after[p]])
    {
      RunPlacement(s, i, j, p, p + 2, byRj);
    }
  }

  /** The part t[..i] already processed, for input s. */
  ghost predicate Processed(s: seq<Task>, t: seq<Task>, i: int, byRj: bool)
    requires |s| == |t| && 0 <= i <= |s|
  {
    RunsPermuted(s, t, i, byRj) && KeysKept(s, t, i, byRj) &&
    SinglesKept(s, t, i, byRj) && PairsOrdered(s, t, i, byRj)
  }

  lemma ProcessedStep(s: seq<Task>, before: seq<Task>, after: seq<Task>, i: int, j: int, byRj: bool)
    requires RunStep(s, before, after, i, j, byRj)
    requires Processed(s, before, i, byRj)
    requires j == i + 1 ==> after[i] == before[i]
    requires j == i + 2 ==> !Less(ByPairCmax, after[i + 1], after[i])
    ensures Processed(s, after, j, byRj)
  {
    RunsPermutedStep(s, before, after, i, j, byRj);
    KeysKeptStep(s, before, after, i, j, byRj);
    SinglesKeptStep(s, before, after, i, j, byRj);
    PairsOrderedStep(s, before, after, i, j, byRj);
  }

  /** One pass of the scan in terms of sequences: before holds s from the
      boundary i on, [i, j) is where its keys stay equal, and after differs
      from before only by a permutation of [i, j). */
  lemma GroupStep(s: seq<Task>, before: seq<Task>, after: seq<Task>, i: int, j: int, byRj: bool)
    requires |s| == |before| == |after| && IsBoundary(s, i, byRj) && i < j <= |s|
    requires forall k :: i <= k < |s| ==> before[k] == s[k]
    requires forall k :: i <= k < j ==> Key(before[k], byRj) == Key(before[i], byRj)
    requires j == |s| || Key(before[j], byRj) != Key(before[i], byRj)
    requires forall k :: 0 <= k < |s| && (k < i || j <= k) ==> after[k] == before[k]
    requires multiset(after[i..j]) == multiset(before[i..j])
    requires Processed(s, before, i, byRj)
    requires j == i + 1 ==> after[i] == before[i]
    requires j == i + 2 ==> !Less(ByPairCmax, after[i + 1], after[i])
    ensures IsBoundary(s, j, byRj)
    ensures Processed(s, after, j, byRj)
    ensures after[..i] == before[..i]
  {
    assert before[i..j] == s[i..j];
    assert RunStep(s, before, after, i, j, byRj);
    ProcessedStep(s, before, after, i, j, byRj);
  }

  /** Replacing the middle of a sequence by a permutation of it permutes the whole. */
  lemma WholeFromMiddle(s: seq<Task>, t: seq<Task>, lo: int, hi: int)
    requires 0 <= lo <= hi <= |s| == |t|
    requires s[..lo] == t[..lo] && s[hi..] == t[hi..]
    requires multiset(s[lo..hi]) == multiset(t[lo..hi])
    ensures multiset(s) == multiset(t)
  {
    assert s == s[..lo] + s[lo..hi] + s[hi..];
    assert t == t[..lo] + t[lo..hi] + t[hi..];
  }

  /** The block run on a group of two or more: copy the run into a buffer,
      sort the buffer with the pairwise-Cmax comparator, copy it back. */
  method SortGroup(a: array<Task>, i: int, j: int)
    requires 0 <= i < j <= a.Length
    modifies a
    ensures forall k :: 0 <= k < a.Length && (k < i || j <= k) ==> a[k] == old(a[k])
    ensures multiset(a[..]) == old(multiset(a[..]))
    ensures multiset(a[i..j]) == old(multiset(a[i..j]))
    ensures j == i + 2 ==> !Less(ByPairCmax, a[i + 1], a[i])
  {
    var group := new Task[j - i](k requires 0 <= k < j - i reads a => a[i + k]);
    ghost var run := a[i..j];
    assert group[..] == run;
    InsertionSort(group, 0, group.Length, ByPairCmax);
    assert group[0..group.Length] == group[..];
    ghost var sorted := group[..];
    assert multiset(sorted) == multiset(run);
    forall k | i <= k < j {
      a[k] := group[k - i];
    }
    assert a[i..j] == sorted;
    WholeFromMiddle(a[..], old(a[..]), i, j);
  }

  /** The scan for the end of the run starting at i: j is the first position
      after i whose key differs from a[i]'s, or the end of the array. */
  method RunEnd(a: array<Task>, i: int, byRj: bool) returns (j: int)
    requires 0 <= i < a.Length
    ensures i < j <= a.Length
    ensures forall k :: i <= k < j ==> Key(a[k], byRj) == Key(a[i], byRj)
    ensures j == a.Length || Key(a[j], byRj) != Key(a[i], byRj)
  {
    j := i + 1;
    while j < a.Length &&
          ((byRj && a[j].rj == a[i].rj) || (!byRj && a[j].qj == a[i].qj))
      invariant i < j <= a.Length
      invariant forall k :: i <= k < j ==> Key(a[k], byRj) == Key(a[i], byRj)
    {
      j := j + 1;
    }
  }

  /** One pass of the scan: find the run starting at the boundary i and
      reorder it if it has two or more tasks; returns where the next run starts. */
  method ProcessGroup(a: array<Task>, byRj: bool, i: int, ghost s: seq<Task>) returns (j: int)
    requires |s| == a.Length && 0 <= i < a.Length && IsBoundary(s, i, byRj)
    requires forall k :: i <= k < a.Length ==> a[k] == s[k]
    requires Processed(s, a[..], i, byRj)
    modifies a
    ensures i < j <= a.Length && IsBoundary(s, j, byRj)
    ensures a[..i] == old(a[..i])
    ensures forall k :: j <= k < a.Length ==> a[k] == s[k]
    ensures multiset(a[..]) == old(multiset(a[..]))
    ensures Processed(s, a[..], j, byRj)
  {
    j := RunEnd(a, i, byRj);
    ghost var before := a[..];
    if j > i + 1 {
      SortGroup(a, i, j);
    }
    GroupStep(s, before, a[..], i, j, byRj);
  }

  /** optimizeGroupsByCmax: every maximal run of the input is permuted within
      itself, so each position keeps its key; singleton runs stay put; and a
      run of two ends up in the order whose isolated Cmax is not larger. */
  method OptimizeGroupsByCmax(a: array<Task>, byRj: bool)
    modifies a
    ensures multiset(a[..]) == old(multiset(a[..]))
    ensures forall i, j :: IsRun(old(a[..]), i, j, byRj) ==>
              multiset(a[i..j]) == multiset(old(a[..])[i..j])
    ensures forall k :: 0 <= k < a.Length ==> Key(a[k], byRj) == Key(old(a[k]), byRj)
    ensures forall i :: IsRun(old(a[..]), i, i + 1, byRj) ==> a[i] == old(a[i])
    ensures forall i :: IsRun(old(a[..]), i, i + 2, byRj) ==>
              Cmax([a[i], a[i + 1]]) <= Cmax([a[i + 1], a[i]])
  {
    ghost var s := a[..];
    var i := 0;
    while i < a.Length
      invariant IsBoundary(s, i, byRj)
      invariant forall k :: i <= k < a.Length ==> a[k] == s[k]
      invariant multiset(a[..]) == multiset(s)
      invariant Processed(s, a[..], i, byRj)
    {
      i := ProcessGroup(a, byRj, i, s);
    }
  }
}
