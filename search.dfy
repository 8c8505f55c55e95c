/** The exhaustive search: every arrangement of the jobs, visited in
    lexicographic order of identifiers by next_permutation, keeping the first
    one with the smallest Cmax. */
module Search {
  import opened Tasks
  import opened Orders
  import opened Sorting
  import opened Permutations

  /** A best value that may be absent: bestCmax starts at INT_MAX, which
      any arrangement beats. */
  datatype Option<T> = None | Some(value: T)

  /** Identifiers as loadTasksFromFile assigns them: distinct, 1 to n. */
  predicate Numbered(s: seq<Task>)
  {
    Distinct(s) && forall k :: 0 <= k < |s| ==> 1 <= s[k].index <= |s|
  }

  /** Rearranging keeps identifiers numbered 1 to n. */
  lemma NumberedPerm(p: seq<Task>, s: seq<Task>)
    requires Numbered(s) && multiset(p) == multiset(s)
    ensures Numbered(p)
  {
    PermDistinct(p, s);
    assert |p| == |multiset(p)| == |s|;
    forall k | 0 <= k < |p|
      ensures 1 <= p[k].index <= |p|
    {
      var m := PositionOf(p, s, k);
    }
  }

  /** Sorting by identifier gives the ascending arrangement, the first one
      in lexicographic order. */
  lemma SortedIsFirst(s: seq<Task>)
    requires Sorted(s, ByIndex) && Distinct(s)
    ensures StrictlyAscending(s)
    ensures forall p :: multiset(p) == multiset(s) ==> !LexLess(p, s)
  {
    forall p | multiset(p) == multiset(s)
      ensures !LexLess(p, s)
    {
      AscendingIsLexMin(s, p);
    }
  }

  /** What the do-while loop has visited: only arrangements of s; while it
      goes on, every arrangement before the current one; once it stops,
      every arrangement. */
  ghost predicate Enumerated(s: seq<Task>, visited: seq<seq<Task>>, cur: seq<Task>, more: bool)
  {
    && (forall v :: v in visited ==> multiset(v) == multiset(s))
    && (more ==> forall p :: multiset(p) == multiset(s) && LexLess(p, cur) ==> p in visited)
    && (!more ==> forall p :: multiset(p) == multiset(s) ==> p in visited)
  }

  /** An arrangement before Next(cur) is cur or comes before cur. */
  lemma BeforeNext(s: seq<Task>, cur: seq<Task>, p: seq<Task>)
    requires Distinct(s) && multiset(cur) == multiset(s) && multiset(p) == multiset(s)
    requires Pivot(cur) >= 0 && LexLess(p, Next(cur))
    ensures p == cur || LexLess(p, cur)
  {
    PermDistinct(cur, s);
    PermDistinct(p, s);
    if LexLess(cur, p) {
      NextIsImmediate(cur, p);
    }
    if p != cur {
      LexTotal(p, cur);
    }
  }

  /** When cur has no ascent, every arrangement is cur or comes before it. */
  lemma BeforeLast(s: seq<Task>, cur: seq<Task>, p: seq<Task>)
    requires Distinct(s) && multiset(cur) == multiset(s) && multiset(p) == multiset(s)
    requires Pivot(cur) < 0
    ensures p == cur || LexLess(p, cur)
  {
    PermDistinct(cur, s);
    PermDistinct(p, s);
    NoPivotIsDescending(cur);
    DescendingIsLexMax(cur, p);
    if p != cur {
      LexTotal(p, cur);
    }
  }

  /** Visiting cur and stepping with next_permutation: either to Next(cur),
      with nothing skipped in between, or, after the last arrangement, to
      the end of the walk with everything visited. */
  lemma EnumStep(s: seq<Task>, visited: seq<seq<Task>>, cur: seq<Task>)
    requires Distinct(s) && multiset(cur) == multiset(s) && Enumerated(s, visited, cur, true)
    ensures Pivot(cur) >= 0 ==> Enumerated(s, visited + [cur], Next(cur), true)
    ensures Pivot(cur) < 0 ==> Enumerated(s, visited + [cur], cur, false)
  {
    if Pivot(cur) >= 0 {
      forall p | multiset(p) == multiset(s) && LexLess(p, Next(cur))
        ensures p in visited + [cur]
      {
        BeforeNext(s, cur, p);
      }
    } else {
      forall p | multiset(p) == multiset(s)
        ensures p in visited + [cur]
      {
        BeforeLast(s, cur, p);
      }
    }
  }

  /** Numbered identifiers are digits in base n + 1. */
  lemma Bounded(cur: seq<Task>, n: nat)
    requires Numbered(cur) && |cur| == n
    ensures 0 <= Code(cur, n + 1) < Pow(n + 1, n)
  {
    CodeBound(cur, n + 1);
  }

  /** next_permutation's successor is a numbered arrangement of the same
      length that comes after cur. */
  lemma Progress(cur: seq<Task>)
    requires Numbered(cur) && Pivot(cur) >= 0
    ensures |Next(cur)| == |cur| && Numbered(Next(cur)) && LexLess(cur, Next(cur))
  {
    NextShape(cur);
    NextIsLarger(cur);
    NumberedPerm(Next(cur), cur);
  }

  /** Between two numbered arrangements, the one earlier in lexicographic
      order has the smaller code. */
  lemma CodeGrows(p: seq<Task>, q: seq<Task>, n: nat)
    requires Numbered(p) && Numbered(q) && |p| == |q| == n && LexLess(p, q)
    ensures Code(p, n + 1) < Code(q, n + 1)
  {
    NumberedDigits(p, n);
    NumberedDigits(q, n);
    LexLessCode(p, q, n + 1);
  }

  /** Numbered identifiers are digits in base n + 1. */
  lemma NumberedDigits(s: seq<Task>, n: nat)
    requires Numbered(s) && |s| == n
    ensures Digits(s, n + 1)
  {
  }

  /** The single-threaded search's best so far: bestOrder is a visited
      arrangement with Cmax best, no visited arrangement beats it, and every
      arrangement before it in lexicographic order is strictly worse. */
  ghost predicate Best(s: seq<Task>, visited: seq<seq<Task>>, best: Option<int>, bestOrder: seq<Task>)
  {
    && (forall v :: v in visited ==> best.Some? && best.value <= Cmax(v))
    && (best.Some? ==> && bestOrder in visited && best.value == Cmax(bestOrder)
                       && forall p :: multiset(p) == multiset(s) && LexLess(p, bestOrder) ==> best.value < Cmax(p))
  }

  /** The body of the do-while loop keeps Best: a strictly better cur
      replaces the best, which by Enumerated beats everything before cur. */
  lemma VisitKeeps(s: seq<Task>, visited: seq<seq<Task>>, cur: seq<Task>, best: Option<int>, bestOrder: seq<Task>,
                   best': Option<int>, bestOrder': seq<Task>)
    requires Enumerated(s, visited, cur, true) && Best(s, visited, best, bestOrder)
    requires (best.None? || Cmax(cur) < best.value) ==> best' == Some(Cmax(cur)) && bestOrder' == cur
    requires !(best.None? || Cmax(cur) < best.value) ==> best' == best && bestOrder' == bestOrder
    ensures Best(s, visited + [cur], best', bestOrder')
  {
  }

  /** What next_permutation's step from cur to next keeps: the jobs, their
      numbering and the enumeration. */
  lemma StepKeeps(s: seq<Task>, visited: seq<seq<Task>>, cur: seq<Task>, next: seq<Task>, more: bool)
    requires Distinct(s) && multiset(cur) == multiset(s) && Numbered(cur)
    requires Enumerated(s, visited, cur, true)
    requires more <==> Pivot(cur) >= 0
    requires more ==> next == Next(cur)
    requires !more ==> next == Reverse(cur)
    ensures multiset(next) == multiset(s) && Numbered(next)
    ensures Enumerated(s, visited + [cur], next, more)
  {
    EnumStep(s, visited, cur);
    if more {
      NextShape(cur);
    } else {
      ReverseMultiset(cur);
    }
    NumberedPerm(next, cur);
  }

  /** The measure of the walk grows with every step that goes on. */
  lemma StepGrows(cur: seq<Task>, next: seq<Task>, n: nat)
    requires Numbered(cur) && |cur| == n && Pivot(cur) >= 0 && next == Next(cur)
    ensures Code(cur, n + 1) < Code(next, n + 1)
  {
    assert |next| == |cur| && Numbered(next) && LexLess(cur, next) by {
      Progress(cur);
    }
    CodeGrows(cur, next, n);
  }

  /** The state of a walk with next_permutation: the vector cur holds an
      arrangement of s numbered 1 to n, everything before it has been
      visited, and once the walk stops something has been visited. */
  ghost predicate Walk(s: seq<Task>, visited: seq<seq<Task>>, cur: seq<Task>, more: bool)
  {
    && Distinct(s) && multiset(cur) == multiset(s) && Numbered(cur)
    && Enumerated(s, visited, cur, more)
    && (!more ==> visited != [])
  }

  /** The state of findOptimalTaskOrder's loop: the walk, and best is the
      best of what has been visited. */
  ghost predicate SearchInv(s: seq<Task>, visited: seq<seq<Task>>, cur: seq<Task>, more: bool,
                            best: Option<int>, bestOrder: seq<Task>)
  {
    Walk(s, visited, cur, more) && Best(s, visited, best, bestOrder)
  }

  /** One step of the walk keeps Walk and, when the walk goes on,
      increases the code of the arrangement. */
  lemma WalkStep(s: seq<Task>, visited: seq<seq<Task>>, cur: seq<Task>, next: seq<Task>, more: bool, n: nat)
    requires Walk(s, visited, cur, true) && |cur| == n
    requires more <==> Pivot(cur) >= 0
    requires more ==> next == Next(cur)
    requires !more ==> next == Reverse(cur)
    ensures Walk(s, visited + [cur], next, more)
    ensures more ==> Code(cur, n + 1) < Code(next, n + 1)
  {
    StepKeeps(s, visited, cur, next, more);
    if more {
      StepGrows(cur, next, n);
    }
  }

  /** One pass of findOptimalTaskOrder's do-while loop: the Cmax of the
      current arrangement, a strictly better one taken as the new best, and
      the step to the next arrangement. */
  method Visit(a: array<Task>, ghost s: seq<Task>, ghost visited: seq<seq<Task>>, best: Option<int>, bestOrder: seq<Task>)
    returns (more: bool, best': Option<int>, bestOrder': seq<Task>, ghost visited': seq<seq<Task>>)
    requires SearchInv(s, visited, a[..], true, best, bestOrder)
    modifies a
    ensures SearchInv(s, visited', a[..], more, best', bestOrder')
    ensures more ==> Code(old(a[..]), a.Length + 1) < Code(a[..], a.Length + 1)
  {
    ghost var cur := a[..];
    var c := CalculateCmax(a[..]);
    best', bestOrder' := best, bestOrder;
    if best.None? || c < best.value {
      best', bestOrder' := Some(c), a[..];
    }
    visited' := visited + [cur];
    more := NextPermutation(a);
    assert Best(s, visited', best', bestOrder') by {
      VisitKeeps(s, visited, cur, best, bestOrder, best', bestOrder');
    }
    WalkStep(s, visited, cur, a[..], more, a.Length);
  }

  /** findOptimalTaskOrder: sort by identifier, visit every arrangement
      with next_permutation, keep the first strictly better Cmax, and leave
      the best arrangement in the vector. The result is an arrangement of
      the jobs whose Cmax is the smallest of all arrangements, and it is the
      first such arrangement in lexicographic order. */
  method FindOptimalTaskOrder(a: array<Task>)
    requires Numbered(a[..])
    modifies a
    ensures multiset(a[..]) == old(multiset(a[..]))
    ensures forall p :: multiset(p) == multiset(a[..]) ==> Cmax(a[..]) <= Cmax(p)
    ensures forall p :: multiset(p) == multiset(a[..]) && LexLess(p, a[..]) ==> Cmax(a[..]) < Cmax(p)
  {
    ghost var s0 := a[..];
    SortBy(a, ByIndex);
    ghost var s := a[..];
    NumberedPerm(s, s0);
    SortedIsFirst(s);
    ghost var visited: seq<seq<Task>> := [];
    var best: Option<int> := None;
    var bestOrder: seq<Task> := [];
    var more := true;
    while more
      invariant SearchInv(s, visited, a[..], more, best, bestOrder)
      decreases more, Pow(a.Length + 1, a.Length) - Code(a[..], a.Length + 1)
    {
      Bounded(a[..], a.Length);
      more, best, bestOrder, visited := Visit(a, s, visited, best, bestOrder);
    }
    WriteBest(a, s, visited, best, bestOrder);
  }

  /** tasks = bestOrder: with every arrangement visited, the best one found
      is written back. */
  method WriteBest(a: array<Task>, ghost s: seq<Task>, ghost visited: seq<seq<Task>>, best: Option<int>, bestOrder: seq<Task>)
    requires multiset(a[..]) == multiset(s) && visited != []
    requires Enumerated(s, visited, a[..], false) && Best(s, visited, best, bestOrder)
    modifies a
    ensures a[..] == bestOrder && multiset(a[..]) == multiset(s)
    ensures forall p :: multiset(p) == multiset(a[..]) ==> Cmax(a[..]) <= Cmax(p)
    ensures forall p :: multiset(p) == multiset(a[..]) && LexLess(p, a[..]) ==> Cmax(a[..]) < Cmax(p)
  {
    assert best.Some? by {
      assert visited[0] in visited;
    }
    assert multiset(bestOrder) == multiset(s);
    assert |bestOrder| == |multiset(bestOrder)| == |multiset(a[..])| == a.Length;
    CopyBack(a, bestOrder);
  }

  /** tasks = bestOrder, element by element. */
  method CopyBack(a: array<Task>, b: seq<Task>)
    requires |b| == a.Length
    modifies a
    ensures a[..] == b
  {
    forall k | 0 <= k < a.Length {
      a[k] := b[k];
    }
  }
}
