/** findOptimalTaskOrderWithThreads: every arrangement is first recorded in
    a list, in the order next_permutation produces them; the list is then
    cut into one contiguous range per thread, and each range is scanned
    for a strictly better Cmax. The threads' updates of the shared best are
    serialised by a mutex; the model performs the ranges one after the
    other, which is one of the interleavings the mutex allows. */
module ChunkedSearch {
  import opened Tasks
  import opened Orders
  import opened Sorting
  import opened Permutations
  import opened Search

  /** The recorded arrangements come in strictly increasing lexicographic
      order, and while the walk goes on the last one recorded comes before
      the current one. */
  ghost predicate InLexOrder(chunks: seq<seq<Task>>, cur: seq<Task>, more: bool)
  {
    && (forall i :: 0 <= i < |chunks| - 1 ==> LexLess(chunks[i], chunks[i + 1]))
    && (more && chunks != [] ==> LexLess(chunks[|chunks| - 1], cur))
  }

  /** Recording cur and stepping to a larger arrangement keeps the order. */
  lemma OrderStep(chunks: seq<seq<Task>>, cur: seq<Task>, next: seq<Task>, more: bool)
    requires InLexOrder(chunks, cur, true)
    requires more ==> LexLess(cur, next)
    ensures InLexOrder(chunks + [cur], next, more)
  {
    var c := chunks + [cur];
    forall i | 0 <= i < |c| - 1
      ensures LexLess(c[i], c[i + 1])
    {
      if i < |chunks| - 1 {
        assert c[i] == chunks[i] && c[i + 1] == chunks[i + 1];
      } else {
        assert c[i] == chunks[|chunks| - 1] && c[i + 1] == cur;
      }
    }
  }

  /** Recording cur and stepping to what next_permutation makes of it keeps
      the order. */
  lemma OrderKeeps(chunks: seq<seq<Task>>, cur: seq<Task>, next: seq<Task>, more: bool)
    requires InLexOrder(chunks, cur, true) && Numbered(cur)
    requires more ==> Pivot(cur) >= 0 && next == Next(cur)
    ensures InLexOrder(chunks + [cur], next, more)
  {
    assert more ==> LexLess(cur, next) by {
      if more {
        NextIsLarger(cur);
      }
    }
    OrderStep(chunks, cur, next, more);
  }

  /** One pass of the listing loop: taskChunks.push_back(tasks), then
      next_permutation. The ghost cur and next follow the vector. */
  method Record(a: array<Task>, ghost s: seq<Task>, chunks: seq<seq<Task>>, ghost cur: seq<Task>)
    returns (more: bool, chunks': seq<seq<Task>>, ghost next: seq<Task>)
    requires cur == a[..] && Walk(s, chunks, cur, true) && InLexOrder(chunks, cur, true)
    modifies a
    ensures chunks' == chunks + [cur]
    ensures more <==> Pivot(cur) >= 0
    ensures more ==> next == Next(cur)
    ensures !more ==> next == Reverse(cur)
    ensures next == a[..] && Walk(s, chunks', next, more) && InLexOrder(chunks', next, more)
    ensures more ==> LexLess(cur, next)
  {
    chunks' := chunks + [a[..]];
    more := NextPermutation(a);
    next := a[..];
    WalkStep(s, chunks, cur, next, more, |cur|);
    OrderKeeps(chunks, cur, next, more);
  }

  /** The first loop of findOptimalTaskOrderWithThreads: sort by identifier
      and record every arrangement. The list holds every arrangement of the
      jobs and nothing else, each once, in lexicographic order. */
  method ListArrangements(a: array<Task>) returns (chunks: seq<seq<Task>>)
    requires Numbered(a[..])
    modifies a
    ensures multiset(a[..]) == old(multiset(a[..]))
    ensures chunks != []
    ensures forall v :: v in chunks ==> multiset(v) == old(multiset(a[..]))
    ensures forall p :: multiset(p) == old(multiset(a[..])) ==> p in chunks
    ensures forall i :: 0 <= i < |chunks| - 1 ==> LexLess(chunks[i], chunks[i + 1])
  {
    ghost var s0 := a[..];
    SortBy(a, ByIndex);
    ghost var s := a[..];
    NumberedPerm(s, s0);
    SortedIsFirst(s);
    chunks := [];
    var more := true;
    ghost var cur := s;
    ghost var n := |s|;
    while more
      invariant cur == a[..] && |cur| == n
      invariant Walk(s, chunks, cur, more) && InLexOrder(chunks, cur, more)
      decreases more, Pow(n + 1, n) - Code(cur, n + 1)
    {
      Bounded(cur, n);
      ghost var prev := cur;
      more, chunks, cur := Record(a, s, chunks, cur);
      if more {
        CodeGrows(prev, cur, n);
      }
    }
  }

  /** In a list in strictly increasing lexicographic order, every earlier
      entry comes before every later one. */
  lemma {:induction false} IncreasingChain(chunks: seq<seq<Task>>, i: int, j: int)
    requires forall k :: 0 <= k < |chunks| - 1 ==> LexLess(chunks[k], chunks[k + 1])
    requires 0 <= i < j < |chunks|
    ensures LexLess(chunks[i], chunks[j])
    decreases j - i
  {
    if i + 1 < j {
      IncreasingChain(chunks, i, j - 1);
      LexTrans(chunks[i], chunks[j - 1], chunks[j]);
    }
  }

  /** Where the range of thread t starts, for t < numThreads, and where the
      last range ends, for t == numThreads: each thread but the last takes
      chunkSize arrangements, the last one takes the rest. Below the last
      thread, the boundary is t * chunkSize. */
  function Boundary(t: int, numThreads: int, chunkSize: nat, total: nat): (r: nat)
    requires 0 <= t <= numThreads
    ensures t < numThreads ==> r == t * chunkSize
    decreases t
  {
    if t == 0 then 0
    else if t == numThreads then total
    else
      assert t * chunkSize == (t - 1) * chunkSize + chunkSize;
      Boundary(t - 1, numThreads, chunkSize, total) + chunkSize
  }

  /** chunkSize = total / numThreads: the boundaries run from 0 to total
      without going down. */
  lemma BoundaryOrdered(t: int, numThreads: int, total: nat)
    requires 0 <= t < numThreads
    ensures Boundary(t, numThreads, total / numThreads, total) <= Boundary(t + 1, numThreads, total / numThreads, total) <= total
  {
    var size := total / numThreads;
    MulMono(t + 1, numThreads, size);
    assert (t + 1) * size == t * size + size;
  }

  /** startIdx and endIdx of thread t: startIdx = t * chunkSize, and endIdx
      is total for the last thread and startIdx + chunkSize for the others.
      They are the thread's two boundaries. */
  method ThreadRange(t: int, numThreads: int, chunkSize: nat, total: nat) returns (startIdx: nat, endIdx: nat)
    requires 0 <= t < numThreads && chunkSize == total / numThreads
    ensures startIdx == Boundary(t, numThreads, chunkSize, total)
    ensures endIdx == Boundary(t + 1, numThreads, chunkSize, total)
    ensures startIdx <= endIdx <= total
  {
    BoundaryOrdered(t, numThreads, total);
    MulMono(0, t, chunkSize);
    startIdx := t * chunkSize;
    endIdx := if t == numThreads - 1 then total else startIdx + chunkSize;
  }

  /** A best found so far that is present and no larger than c. */
  predicate AtMost(best: Option<int>, c: int)
  {
    best.Some? && best.value <= c
  }

  /** The state of the scan after chunks[0 .. n): best is no larger than
      the Cmax of any of them and, when present, it is the Cmax of the first
      of them that attains it. */
  ghost predicate Scanned(chunks: seq<seq<Task>>, n: int, best: Option<int>, bestOrder: seq<Task>)
    requires 0 <= n <= |chunks|
  {
    && (forall k :: 0 <= k < n ==> AtMost(best, Cmax(chunks[k])))
    && (best.Some? ==> exists m :: 0 <= m < n && chunks[m] == bestOrder && best.value == Cmax(bestOrder) &&
                                   forall k :: 0 <= k < m ==> best.value < Cmax(chunks[k]))
  }

  /** processChunk: scan chunks[lo .. hi) and take every strictly better
      Cmax. The best afterwards is no worse than any arrangement of the
      range nor than the best before, and it is either the best before or
      an arrangement of the range with that Cmax. Scanning a range right
      after the ones before it keeps the first arrangement that attains the
      best. */
  method ProcessChunk(chunks: seq<seq<Task>>, lo: nat, hi: nat, best: Option<int>, bestOrder: seq<Task>)
    returns (best': Option<int>, bestOrder': seq<Task>)
    requires lo <= hi <= |chunks|
    ensures forall i :: lo <= i < hi ==> AtMost(best', Cmax(chunks[i]))
    ensures best.Some? ==> best'.Some? && best'.value <= best.value
    ensures (best' == best && bestOrder' == bestOrder) ||
            (best'.Some? && bestOrder' in chunks[lo..hi] && best'.value == Cmax(bestOrder'))
    ensures Scanned(chunks, lo, best, bestOrder) ==> Scanned(chunks, hi, best', bestOrder')
  {
    best', bestOrder' := best, bestOrder;
    ghost var before := Scanned(chunks, lo, best, bestOrder);
    for i := lo to hi
      invariant forall k :: lo <= k < i ==> AtMost(best', Cmax(chunks[k]))
      invariant best.Some? ==> best'.Some? && best'.value <= best.value
      invariant (best' == best && bestOrder' == bestOrder) ||
                (best'.Some? && bestOrder' in chunks[lo..hi] && best'.value == Cmax(bestOrder'))
      invariant before ==> Scanned(chunks, i, best', bestOrder')
    {
      var c := CalculateCmax(chunks[i]);
      if best'.None? || c < best'.value {
        assert chunks[lo..hi][i - lo] == chunks[i];
        FirstBestStep(chunks, i, best', bestOrder', before);
        best', bestOrder' := Some(c), chunks[i];
      }
    }
  }

  /** A strictly better chunks[i] becomes the first arrangement that
      attains the best of chunks[0 .. i + 1). */
  lemma FirstBestStep(chunks: seq<seq<Task>>, i: int, best: Option<int>, bestOrder: seq<Task>, before: bool)
    requires 0 <= i < |chunks| && (before ==> Scanned(chunks, i, best, bestOrder))
    requires best.None? || Cmax(chunks[i]) < best.value
    ensures before ==> Scanned(chunks, i + 1, Some(Cmax(chunks[i])), chunks[i])
  {
    if before {
      forall k | 0 <= k < i
        ensures Cmax(chunks[i]) < Cmax(chunks[k])
      {
        assert AtMost(best, Cmax(chunks[k]));
      }
    }
  }

  /** The threads' scans of their ranges, one after the other: the best
      found is no worse than any recorded arrangement and is the first
      recorded arrangement that attains it. */
  method ScanAll(chunks: seq<seq<Task>>, numThreads: int) returns (best: Option<int>, bestOrder: seq<Task>)
    requires numThreads >= 1 && chunks != []
    ensures best.Some? && bestOrder in chunks && best.value == Cmax(bestOrder)
    ensures forall i :: 0 <= i < |chunks| ==> best.value <= Cmax(chunks[i])
    ensures exists m :: 0 <= m < |chunks| && chunks[m] == bestOrder &&
                        forall k :: 0 <= k < m ==> best.value < Cmax(chunks[k])
  {
    var chunkSize := |chunks| / numThreads;
    best, bestOrder := None, [];
    for t := 0 to numThreads
      invariant Boundary(t, numThreads, chunkSize, |chunks|) <= |chunks|
      invariant forall i :: 0 <= i < Boundary(t, numThreads, chunkSize, |chunks|) ==> AtMost(best, Cmax(chunks[i]))
      invariant best.Some? ==> bestOrder in chunks && best.value == Cmax(bestOrder)
      invariant Scanned(chunks, Boundary(t, numThreads, chunkSize, |chunks|), best, bestOrder)
    {
      var startIdx, endIdx := ThreadRange(t, numThreads, chunkSize, |chunks|);
      best, bestOrder := ProcessChunk(chunks, startIdx, endIdx, best, bestOrder);
    }
    assert AtMost(best, Cmax(chunks[0]));
  }

  /** findOptimalTaskOrderWithThreads: the result is an arrangement of the
      jobs whose Cmax is the smallest of all arrangements. With one thread
      it is the first such arrangement in lexicographic order, as with the
      sequential search. With more threads, which of several arrangements
      with that Cmax is kept depends on the order in which the threads take
      the mutex, so no more is promised. */
  method FindOptimalTaskOrderWithThreads(a: array<Task>, numThreads: int)
    requires numThreads >= 1 && Numbered(a[..])
    modifies a
    ensures multiset(a[..]) == old(multiset(a[..]))
    ensures forall p :: multiset(p) == multiset(a[..]) ==> Cmax(a[..]) <= Cmax(p)
    ensures numThreads == 1 ==>
              forall p :: multiset(p) == multiset(a[..]) && LexLess(p, a[..]) ==> Cmax(a[..]) < Cmax(p)
  {
    ghost var jobs := multiset(a[..]);
    var chunks := ListArrangements(a);
    var best, bestOrder := ScanAll(chunks, numThreads);
    assert |bestOrder| == |multiset(bestOrder)| == |multiset(a[..])| == a.Length;
    CopyBack(a, bestOrder);
    forall p | multiset(p) == multiset(a[..])
      ensures Cmax(a[..]) <= Cmax(p)
    {
      assert p in chunks;
      var i :| 0 <= i < |chunks| && chunks[i] == p;
    }
    FirstOptimum(chunks, best.value, bestOrder);
    forall p | multiset(p) == multiset(a[..]) && LexLess(p, a[..])
      ensures Cmax(a[..]) < Cmax(p)
    {
      assert p in chunks;
      var i :| 0 <= i < |chunks| && chunks[i] == p;
    }
  }

  /** When the kept arrangement is the first in the list that attains the
      best, every arrangement lexicographically before it is strictly worse:
      the list is in increasing order, so such an arrangement was scanned
      earlier. */
  lemma FirstOptimum(chunks: seq<seq<Task>>, best: int, bestOrder: seq<Task>)
    requires forall k :: 0 <= k < |chunks| - 1 ==> LexLess(chunks[k], chunks[k + 1])
    requires exists m :: 0 <= m < |chunks| && chunks[m] == bestOrder &&
                         forall k :: 0 <= k < m ==> best < Cmax(chunks[k])
    ensures forall i :: 0 <= i < |chunks| && LexLess(chunks[i], bestOrder) ==> best < Cmax(chunks[i])
  {
    var m :| 0 <= m < |chunks| && chunks[m] == bestOrder &&
             forall k :: 0 <= k < m ==> best < Cmax(chunks[k]);
    forall i | 0 <= i < |chunks| && LexLess(chunks[i], bestOrder)
      ensures i < m
    {
      if m < i {
        IncreasingChain(chunks, m, i);
      }
      LexAsymmetric(chunks[i], bestOrder);
    }
  }
}
