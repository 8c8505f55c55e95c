/** Schrage's rule, list version: a pending list N ordered by release time,
    a ready list G, a clock that jumps forward when nothing is ready, and
    dispatch of the ready job with the largest delivery tail. */
module Schrage {
  import opened Tasks
  import opened Orders
  import opened Sorting

  /** N's order: release times non-decreasing. */
  ghost predicate SortedByRj(s: seq<Task>)
  {
    forall p, q :: 0 <= p < q < |s| ==> s[p].rj <= s[q].rj
  }

  /** SortedByRj is what sortByRj's ascending comparator calls sorted. */
  lemma SortedByRjIsSorted(s: seq<Task>)
    ensures SortedByRj(s) <==> Sorted(s, ByRj(true))
  {
  }

  /** Schrage's choice rule seen on the finished order: no job dispatched later
      was already released when an earlier one started and has a larger qj. */
  ghost predicate GreedyOrder(order: seq<Task>)
  {
    forall k, m :: 0 <= k < m < |order| && order[m].rj <= Start(order, k) ==>
      order[m].qj <= order[k].qj
  }

  /** The machine never idles while a job is released: every job starts no
      later than the moment the machine is free and any job dispatched at or
      after it is released. */
  ghost predicate NonIdling(order: seq<Task>)
  {
    forall k, m :: 0 <= k <= m < |order| ==>
      Start(order, k) <= Max(Finish(order[..k]), order[m].rj)
  }

  /** GreedyOrder of the order dispatched so far, extended to the jobs still
      pending. */
  ghost predicate GreedyWith(order: seq<Task>, pending: multiset<Task>)
  {
    GreedyOrder(order) &&
    forall k, x :: 0 <= k < |order| && x in pending && x.rj <= Start(order, k) ==>
      x.qj <= order[k].qj
  }

  /** NonIdling of the order dispatched so far, extended to the jobs still
      pending. */
  ghost predicate NonIdlingWith(order: seq<Task>, pending: multiset<Task>)
  {
    NonIdling(order) &&
    forall k, x :: 0 <= k < |order| && x in pending ==>
      Start(order, k) <= Max(Finish(order[..k]), x.rj)
  }

  /** Dispatching t at clock T, where T is the machine's free time or t is
      released exactly at T: t starts at T, and nothing earlier moves. */
  lemma DispatchAt(order: seq<Task>, t: Task, T: int)
    requires t.rj <= T && Finish(order) <= T
    requires T == Finish(order) || T <= t.rj
    ensures Start(order + [t], |order|) == T
    ensures Finish(order + [t]) == T + t.pj
    ensures Cmax(order + [t]) == Max(Cmax(order), T + t.pj + t.qj)
    ensures (order + [t])[..|order|] == order
    ensures forall k :: 0 <= k < |order| ==>
              Start(order + [t], k) == Start(order, k) && (order + [t])[..k] == order[..k]
  {
    AppendOne(order, t);
    forall k | 0 <= k < |order|
      ensures Start(order + [t], k) == Start(order, k) && (order + [t])[..k] == order[..k]
    {
      StartOfPrefix(order, t, k);
    }
  }

  /** Dispatching a pending job t at T whose qj is the largest among the
      pending jobs released by T keeps the greedy rule. */
  lemma GreedyStep(order: seq<Task>, pending: multiset<Task>, t: Task, T: int)
    requires t in pending && GreedyWith(order, pending)
    requires forall x :: x in pending && x.rj <= T ==> x.qj <= t.qj
    requires Start(order + [t], |order|) == T
    requires forall k :: 0 <= k < |order| ==> Start(order + [t], k) == Start(order, k)
    ensures GreedyWith(order + [t], pending - multiset{t})
  {
    var s := order + [t];
    forall k, m | 0 <= k < m < |s| && s[m].rj <= Start(s, k)
      ensures s[m].qj <= s[k].qj
    {
      if m == |order| {
        assert s[m] == t && s[k] == order[k];
      } else {
        assert s[m] == order[m] && s[k] == order[k];
      }
    }
    forall k, x | 0 <= k < |s| && x in pending - multiset{t} && x.rj <= Start(s, k)
      ensures x.qj <= s[k].qj
    {
      if k < |order| {
        assert s[k] == order[k];
      }
    }
  }

  /** Dispatching a pending job t at T, where T is the machine's free time or
      no pending job is released before T, keeps the machine from idling. */
  lemma NonIdlingStep(order: seq<Task>, pending: multiset<Task>, t: Task, T: int)
    requires t in pending && NonIdlingWith(order, pending)
    requires T == Finish(order) || forall x :: x in pending ==> T <= x.rj
    requires Start(order + [t], |order|) == T && (order + [t])[..|order|] == order
    requires forall k :: 0 <= k < |order| ==>
               Start(order + [t], k) == Start(order, k) && (order + [t])[..k] == order[..k]
    ensures NonIdlingWith(order + [t], pending - multiset{t})
  {
    var s := order + [t];
    forall k, m | 0 <= k <= m < |s|
      ensures Start(s, k) <= Max(Finish(s[..k]), s[m].rj)
    {
      if k < |order| {
        assert Start(s, k) == Start(order, k) && s[..k] == order[..k];
        if m == |order| {
          assert s[m] == t;
          assert Start(order, k) <= Max(Finish(order[..k]), t.rj);
        } else {
          assert s[m] == order[m];
          assert Start(order, k) <= Max(Finish(order[..k]), order[m].rj);
        }
      }
    }
    forall k, x | 0 <= k < |s| && x in pending - multiset{t}
      ensures Start(s, k) <= Max(Finish(s[..k]), x.rj)
    {
      assert x in pending;
      if k < |order| {
        assert Start(s, k) == Start(order, k) && s[..k] == order[..k];
        assert Start(order, k) <= Max(Finish(order[..k]), x.rj);
      } else {
        assert s[..k] == order && Start(s, k) == T;
      }
    }
  }

  /** std::max_element with the comparator a.qj < b.qj: the position of the
      first job whose qj is the largest. */
  method FirstMaxQj(G: seq<Task>) returns (i: int)
    requires G != []
    ensures 0 <= i < |G|
    ensures forall k :: 0 <= k < |G| ==> G[k].qj <= G[i].qj
    ensures forall k :: 0 <= k < i ==> G[k].qj < G[i].qj
  {
    i := 0;
    for k := 1 to |G|
      invariant 0 <= i < k
      invariant forall m :: 0 <= m < k ==> G[m].qj <= G[i].qj
      invariant forall m :: 0 <= m < i ==> G[m].qj < G[i].qj
    {
      if G[i].qj < G[k].qj {
        i := k;
      }
    }
  }

  /** The inner loop: move the front of N to the back of G while it is
      released by T. Since N is ordered by release time, what is moved is a
      prefix of N, and what stays is released strictly after T. */
  method Release(G0: seq<Task>, N0: seq<Task>, T: int) returns (G: seq<Task>, N: seq<Task>)
    requires SortedByRj(N0)
    ensures |G0| <= |G| <= |G0| + |N0|
    ensures G == G0 + N0[..|G| - |G0|] && N == N0[|G| - |G0|..]
    ensures forall k :: |G0| <= k < |G| ==> G[k].rj <= T
    ensures N == [] || T < N[0].rj
  {
    G, N := G0, N0;
    while N != [] && N[0].rj <= T
      invariant |G0| <= |G| <= |G0| + |N0|
      invariant G == G0 + N0[..|G| - |G0|] && N == N0[|G| - |G0|..]
      invariant forall k :: |G0| <= k < |G| ==> G[k].rj <= T
      decreases |N|
    {
      assert N0[..|G| + 1 - |G0|] == N0[..|G| - |G0|] + [N[0]];
      G := G + [N[0]];
      N := N[1..];
    }
  }

  /** The part of schrage's loop invariant about the two lists, the clock
      and the running cost. */
  ghost predicate ListsInv(tasks: seq<Task>, order: seq<Task>, G: seq<Task>, N: seq<Task>, T: int, cmax: int)
  {
    && SortedByRj(N)
    && multiset(order) + multiset(G) + multiset(N) == multiset(tasks)
    && (forall x :: x in G ==> x.rj <= T)
    && (forall x :: x in multiset(G) + multiset(N) ==> 0 <= x.pj)
    && Finish(order) <= T
    && (T != Finish(order) ==> forall x :: x in multiset(G) + multiset(N) ==> T <= x.rj)
    && cmax == Cmax(order)
  }

  /** The part of schrage's loop invariant about the order dispatched so far
      and the jobs still pending. */
  ghost predicate RulesInv(order: seq<Task>, pending: multiset<Task>)
  {
    GreedyWith(order, pending) && NonIdlingWith(order, pending)
  }

  /** The loop invariant of schrage, over the dispatched order, the ready
      list G, the pending list N, the clock T and the running cost. */
  ghost predicate Invariant(tasks: seq<Task>, order: seq<Task>, G: seq<Task>, N: seq<Task>, T: int, cmax: int)
  {
    ListsInv(tasks, order, G, N, T, cmax) && RulesInv(order, multiset(G) + multiset(N))
  }

  /** What moving a prefix of the sorted list N0 to the back of G0 leaves:
      the same jobs, N still sorted, G released by T when G0 was and the
      moved jobs are, and N released after T when its front is. */
  lemma MovedPrefix(G0: seq<Task>, N0: seq<Task>, G: seq<Task>, N: seq<Task>, T: int)
    requires SortedByRj(N0) && |G0| <= |G| <= |G0| + |N0|
    requires G == G0 + N0[..|G| - |G0|] && N == N0[|G| - |G0|..]
    requires forall k :: |G0| <= k < |G| ==> G[k].rj <= T
    requires N == [] || T < N[0].rj
    ensures multiset(G) + multiset(N) == multiset(G0) + multiset(N0)
    ensures SortedByRj(N)
    ensures (forall x :: x in G0 ==> x.rj <= T) ==> forall x :: x in G ==> x.rj <= T
    ensures forall x :: x in N ==> T < x.rj
  {
    var d := |G| - |G0|;
    assert N0 == N0[..d] + N0[d..];
    if forall x :: x in G0 ==> x.rj <= T {
      forall x | x in G
        ensures x.rj <= T
      {
        var k :| 0 <= k < |G| && G[k] == x;
        if k < |G0| {
          assert G[k] == G0[k];
        }
      }
    }
    forall x | x in N
      ensures T < x.rj
    {
      var k :| 0 <= k < |N| && N[k] == x;
      assert N[0] == N0[d] && N[k] == N0[d + k];
    }
  }

  /** Release keeps the invariant, leaves in N only jobs released after T,
      and moves nothing when it leaves G empty. */
  lemma ReleaseKeeps(tasks: seq<Task>, order: seq<Task>, G0: seq<Task>, N0: seq<Task>,
                     G: seq<Task>, N: seq<Task>, T: int, cmax: int)
    requires Invariant(tasks, order, G0, N0, T, cmax)
    requires |G0| <= |G| <= |G0| + |N0|
    requires G == G0 + N0[..|G| - |G0|] && N == N0[|G| - |G0|..]
    requires forall k :: |G0| <= k < |G| ==> G[k].rj <= T
    requires N == [] || T < N[0].rj
    ensures Invariant(tasks, order, G, N, T, cmax)
    ensures forall x :: x in N ==> T < x.rj
    ensures G == [] ==> G0 == [] && N == N0
  {
    MovedPrefix(G0, N0, G, N, T);
    assert multiset(order) + multiset(G) + multiset(N) == multiset(order) + (multiset(G) + multiset(N));
    assert multiset(order) + multiset(G0) + multiset(N0) == multiset(order) + (multiset(G0) + multiset(N0));
    if G == [] {
      assert N0[0..] == N0;
    }
  }

  /** The clock jump: with nothing ready, the clock moves to the release
      time of the front of N, which is strictly later. */
  lemma JumpKeeps(tasks: seq<Task>, order: seq<Task>, N: seq<Task>, T: int, cmax: int)
    requires Invariant(tasks, order, [], N, T, cmax)
    requires N != [] && T < N[0].rj
    ensures Invariant(tasks, order, [], N, N[0].rj, cmax)
  {
  }

  /** Dispatching t at T keeps both rules when t is pending, T is the
      machine's free time or no pending job is released before T, and t has
      the largest qj among the pending jobs released by T. */
  lemma RulesStep(order: seq<Task>, pending: multiset<Task>, t: Task, T: int)
    requires RulesInv(order, pending)
    requires t in pending && t.rj <= T && Finish(order) <= T
    requires T == Finish(order) || forall x :: x in pending ==> T <= x.rj
    requires forall x :: x in pending && x.rj <= T ==> x.qj <= t.qj
    ensures RulesInv(order + [t], pending - multiset{t})
  {
    DispatchAt(order, t, T);
    GreedyStep(order, pending, t, T);
    NonIdlingStep(order, pending, t, T);
  }

  /** Dispatching the job at position i of G keeps the list part of the
      invariant when every job of N is released after T. */
  lemma ListsStep(tasks: seq<Task>, order: seq<Task>, G: seq<Task>, N: seq<Task>, T: int, cmax: int, i: int, t: Task)
    requires ListsInv(tasks, order, G, N, T, cmax) && 0 <= i < |G| && t == G[i]
    requires forall x :: x in N ==> T < x.rj
    ensures ListsInv(tasks, order + [t], G[..i] + G[i + 1..], N, T + t.pj, Max(cmax, T + t.pj + t.qj))
  {
    EraseAt(G, i);
    assert t in multiset(G) + multiset(N);
    DispatchAt(order, t, T);
  }

  /** Dispatching the job at position i of G, whose qj is the largest in G,
      when every job of N is released after T. */
  lemma DispatchKeeps(tasks: seq<Task>, order: seq<Task>, G: seq<Task>, N: seq<Task>, T: int, cmax: int, i: int, t: Task)
    requires Invariant(tasks, order, G, N, T, cmax)
    requires 0 <= i < |G| && t == G[i] && forall k :: 0 <= k < |G| ==> G[k].qj <= t.qj
    requires forall x :: x in N ==> T < x.rj
    ensures Invariant(tasks, order + [t], G[..i] + G[i + 1..], N, T + t.pj, Max(cmax, T + t.pj + t.qj))
  {
    var pending := multiset(G) + multiset(N);
    EraseAt(G, i);
    assert multiset(G[..i] + G[i + 1..]) + multiset(N) == pending - multiset{t};
    ListsStep(tasks, order, G, N, T, cmax, i, t);
    RulesStep(order, pending, t, T);
  }

  /** Erasing position i of G: the multiset loses that one job, and every
      job left was in G. */
  lemma EraseAt(G: seq<Task>, i: int)
    requires 0 <= i < |G|
    ensures multiset(G[..i] + G[i + 1..]) == multiset(G) - multiset{G[i]}
    ensures forall x :: x in G[..i] + G[i + 1..] ==> x in G
  {
    assert G == G[..i] + [G[i]] + G[i + 1..];
  }

  /** The state before the first pass: nothing dispatched or ready, the
      clock and the cost at 0. */
  lemma InitKeeps(tasks: seq<Task>, N: seq<Task>)
    requires multiset(N) == multiset(tasks) && SortedByRj(N)
    requires forall k :: 0 <= k < |tasks| ==> 0 <= tasks[k].pj
    ensures Invariant(tasks, [], [], N, 0, 0)
  {
    var none: seq<Task> := [];
    assert multiset(none) + multiset(none) + multiset(N) == multiset(tasks);
  }

  /** With both lists empty the invariant is the contract of schrage. */
  lemma FinalKeeps(tasks: seq<Task>, order: seq<Task>, T: int, cmax: int)
    requires Invariant(tasks, order, [], [], T, cmax)
    ensures multiset(order) == multiset(tasks)
    ensures cmax == Cmax(order)
    ensures GreedyOrder(order) && NonIdling(order)
  {
    var none: seq<Task> := [];
    assert multiset(order) + multiset(none) + multiset(none) == multiset(order);
  }

  /** The copy N of the jobs, sorted by sortByRj in ascending order. */
  method SortedByRelease(tasks: seq<Task>) returns (N: seq<Task>)
    ensures multiset(N) == multiset(tasks) && SortedByRj(N)
  {
    var buffer := new Task[|tasks|](k requires 0 <= k < |tasks| => tasks[k]);
    assert buffer[..] == tasks;
    SortByRj(buffer, true);
    N := buffer[..];
  }

  /** 1 while the clock still has to jump to the next release, else 0. */
  function Idle(G: seq<Task>, N: seq<Task>, T: int): int
  {
    if G == [] && N != [] && T < N[0].rj then 1 else 0
  }

  /** One pass of schrage's outer loop: release what is due, then either
      jump the clock to the next release or dispatch the first ready job
      with the largest qj. Each pass dispatches a job or makes the next one
      due. */
  method Step(ghost tasks: seq<Task>, order: seq<Task>, G: seq<Task>, N: seq<Task>, T: int, cmax: int)
    returns (order': seq<Task>, G': seq<Task>, N': seq<Task>, T': int, cmax': int)
    requires Invariant(tasks, order, G, N, T, cmax) && (G != [] || N != [])
    ensures Invariant(tasks, order', G', N', T', cmax')
    ensures |G'| + |N'| < |G| + |N| || (|G'| + |N'| == |G| + |N| && Idle(G', N', T') < Idle(G, N, T))
  {
    G', N' := Release(G, N, T);
    ReleaseKeeps(tasks, order, G, N, G', N', T, cmax);
    if G' == [] {
      JumpKeeps(tasks, order, N', T, cmax);
      order', T', cmax' := order, N'[0].rj, cmax;
    } else {
      order', G', T', cmax' := Dispatch(tasks, order, G', N', T, cmax);
    }
  }

  /** The dispatch branch of a pass: erase from G the first ready job with
      the largest qj, as max_element finds it, run it from T and update the
      cost. */
  method Dispatch(ghost tasks: seq<Task>, order: seq<Task>, G: seq<Task>, N: seq<Task>, T: int, cmax: int)
    returns (order': seq<Task>, G': seq<Task>, T': int, cmax': int)
    requires Invariant(tasks, order, G, N, T, cmax) && G != []
    requires forall x :: x in N ==> T < x.rj
    ensures Invariant(tasks, order', G', N, T', cmax') && |G'| == |G| - 1
    ensures exists i :: && 0 <= i < |G| && (forall k :: 0 <= k < |G| ==> G[k].qj <= G[i].qj)
                        && (forall k :: 0 <= k < i ==> G[k].qj < G[i].qj) && G' == G[..i] + G[i + 1..]
                        && order' == order + [G[i]] && T' == T + G[i].pj && cmax' == Max(cmax, T' + G[i].qj)
  {
    var i := FirstMaxQj(G);
    var t := G[i];
    G' := G[..i] + G[i + 1..];
    order' := order + [t];
    T' := T + t.pj;
    cmax' := Max(cmax, T' + t.qj);
    DispatchKeeps(tasks, order, G, N, T, cmax, i, t);
  }

  /** schrage: the cost it reports is the Cmax of the order in which it
      dispatches, every job is dispatched exactly once, the order follows the
      greedy rule and never idles while a job is released. */
  method Schrage(tasks: seq<Task>) returns (cmax: int, order: seq<Task>)
    requires forall k :: 0 <= k < |tasks| ==> 0 <= tasks[k].pj
    ensures multiset(order) == multiset(tasks)
    ensures cmax == Cmax(order)
    ensures GreedyOrder(order) && NonIdling(order)
  {
    var N := SortedByRelease(tasks);
    var G: seq<Task> := [];
    var currentTime := 0;
    cmax := 0;
    order := [];
    InitKeeps(tasks, N);
    while G != [] || N != []
      invariant Invariant(tasks, order, G, N, currentTime, cmax)
      decreases |G| + |N|, Idle(G, N, currentTime)
    {
      order, G, N, currentTime, cmax := Step(tasks, order, G, N, currentTime, cmax);
    }
    FinalKeeps(tasks, order, currentTime, cmax);
  }
}
