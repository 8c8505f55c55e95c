/** Schrage's rule, heap version: the ready jobs G and the pending jobs N
    are both kept as max-heaps on qj. Because N is heap-ordered by qj and not
    by release time, the front of N is a job with the largest qj, and a job
    is moved to G only once it is released and at the front of N. */
module SchrageHeap {
  import opened Tasks
  import opened Heap
  import Schrage

  /** After a clock jump, before the next dispatch: the job at the front of
      N, or at the front of G once it has been moved, is released exactly at
      T, and every job still in N has a qj no larger than the front of G. */
  ghost predicate Waiting(G: seq<Task>, N: seq<Task>, T: int)
  {
    && (G == [] ==> N != [] && N[0].rj == T)
    && (G != [] ==> G[0].rj == T && forall x :: x in N ==> x.qj <= G[0].qj)
  }

  /** The loop invariant of schrageWithHeap. */
  ghost predicate HeapInv(tasks: seq<Task>, order: seq<Task>, G: seq<Task>, N: seq<Task>, T: int, cmax: int)
  {
    && IsHeap(G) && IsHeap(N)
    && multiset(order) + multiset(G) + multiset(N) == multiset(tasks)
    && (forall x :: x in G ==> x.rj <= T)
    && (forall x :: x in multiset(G) + multiset(N) ==> 0 <= x.pj)
    && Finish(order) <= T
    && (T != Finish(order) ==> Waiting(G, N, T))
    && cmax == Cmax(order)
  }

  /** The inner loop: while the front of N is released by T, push it onto G
      and rebuild N as a heap of what is left. */
  method ReleaseHeap(G0: seq<Task>, N0: seq<Task>, T: int) returns (G: seq<Task>, N: seq<Task>)
    requires IsHeap(G0) && IsHeap(N0)
    ensures IsHeap(G) && IsHeap(N)
    ensures multiset(G) + multiset(N) == multiset(G0) + multiset(N0)
    ensures |G0| <= |G| && |G| + |N| == |G0| + |N0|
    ensures G == [] ==> N == N0
    ensures N == [] || T < N[0].rj
    ensures (forall x :: x in G0 ==> x.rj <= T) ==> forall x :: x in G ==> x.rj <= T
    ensures Waiting(G0, N0, T) ==> Waiting(G, N, T)
  {
    G, N := G0, N0;
    ghost var ready := forall x :: x in G0 ==> x.rj <= T;
    ghost var waiting := Waiting(G0, N0, T);
    while N != [] && N[0].rj <= T
      invariant IsHeap(G) && IsHeap(N)
      invariant multiset(G) + multiset(N) == multiset(G0) + multiset(N0)
      invariant |G0| <= |G| && |G| + |N| == |G0| + |N0|
      invariant G == [] ==> N == N0
      invariant ready ==> forall x :: x in G ==> x.rj <= T
      invariant waiting ==> Waiting(G, N, T)
      decreases |N|
    {
      var front, rest := N[0], N[1..];
      var G' := PushHeap(G, front);
      var N' := MakeHeap(rest);
      MoveFront(G, N, G', N', T, ready, waiting);
      G, N := G', N';
    }
  }

  /** One pass of the inner loop keeps what ReleaseHeap promises: the
      front of N, released by T, is pushed onto G, and the rest of N is
      rebuilt as a heap. */
  lemma MoveFront(G: seq<Task>, N: seq<Task>, G': seq<Task>, N': seq<Task>, T: int, ready: bool, waiting: bool)
    requires IsHeap(N) && N != [] && N[0].rj <= T
    requires multiset(G') == multiset(G) + multiset{N[0]} && multiset(N') == multiset(N[1..])
    requires G == [] ==> G' == [N[0]]
    requires G != [] && N[0].qj <= G[0].qj ==> G' != [] && G'[0] == G[0]
    requires ready ==> forall x :: x in G ==> x.rj <= T
    requires waiting ==> Waiting(G, N, T)
    ensures multiset(G') + multiset(N') == multiset(G) + multiset(N)
    ensures ready ==> forall x :: x in G' ==> x.rj <= T
    ensures waiting ==> Waiting(G', N', T)
  {
    RootIsMax(N);
    assert N == [N[0]] + N[1..];
    forall x | x in N'
      ensures x in N
    {
      assert x in multiset(N');
    }
    forall x | x in G'
      ensures x in G || x == N[0]
    {
      assert x in multiset(G');
    }
  }

  /** ReleaseHeap keeps the invariant and moves nothing when it leaves G
      empty. */
  lemma ReleaseKeeps(tasks: seq<Task>, order: seq<Task>, G0: seq<Task>, N0: seq<Task>,
                     G: seq<Task>, N: seq<Task>, T: int, cmax: int)
    requires HeapInv(tasks, order, G0, N0, T, cmax)
    requires IsHeap(G) && IsHeap(N)
    requires multiset(G) + multiset(N) == multiset(G0) + multiset(N0)
    requires (forall x :: x in G0 ==> x.rj <= T) ==> forall x :: x in G ==> x.rj <= T
    requires Waiting(G0, N0, T) ==> Waiting(G, N, T)
    ensures HeapInv(tasks, order, G, N, T, cmax)
  {
    assert multiset(order) + multiset(G) + multiset(N) == multiset(order) + (multiset(G) + multiset(N));
    assert multiset(order) + multiset(G0) + multiset(N0) == multiset(order) + (multiset(G0) + multiset(N0));
  }

  /** The clock jump: with nothing ready, the clock moves to the release
      time of the front of N, which is strictly later. */
  lemma JumpKeeps(tasks: seq<Task>, order: seq<Task>, N: seq<Task>, T: int, cmax: int)
    requires HeapInv(tasks, order, [], N, T, cmax)
    requires N != [] && T < N[0].rj
    ensures HeapInv(tasks, order, [], N, N[0].rj, cmax)
  {
  }

  /** Dispatching the front t of G, popped into G'. It starts at T: either
      T is the machine's free time, or T follows a jump and t is the job
      released at T that was moved to G first. */
  lemma DispatchKeeps(tasks: seq<Task>, order: seq<Task>, G: seq<Task>, N: seq<Task>, T: int, cmax: int,
                      t: Task, G': seq<Task>)
    requires HeapInv(tasks, order, G, N, T, cmax)
    requires G != [] && t == G[0] && IsHeap(G') && multiset(G') + multiset{t} == multiset(G)
    ensures HeapInv(tasks, order + [t], G', N, T + t.pj, Max(cmax, T + t.pj + t.qj))
  {
    assert t in multiset(G) + multiset(N);
    Schrage.DispatchAt(order, t, T);
    assert forall x :: x in G' ==> x in multiset(G);
  }

  /** One pass of schrageWithHeap's outer loop. */
  method Step(ghost tasks: seq<Task>, order: seq<Task>, G: seq<Task>, N: seq<Task>, T: int, cmax: int)
    returns (order': seq<Task>, G': seq<Task>, N': seq<Task>, T': int, cmax': int)
    requires HeapInv(tasks, order, G, N, T, cmax) && (G != [] || N != [])
    ensures HeapInv(tasks, order', G', N', T', cmax')
    ensures |G'| + |N'| < |G| + |N| ||
            (|G'| + |N'| == |G| + |N| && Schrage.Idle(G', N', T') < Schrage.Idle(G, N, T))
  {
    G', N' := ReleaseHeap(G, N, T);
    ReleaseKeeps(tasks, order, G, N, G', N', T, cmax);
    if G' == [] {
      JumpKeeps(tasks, order, N', T, cmax);
      order', T', cmax' := order, N'[0].rj, cmax;
    } else {
      var t, rest := PopHeap(G');
      DispatchKeeps(tasks, order, G', N', T, cmax, t, rest);
      G' := rest;
      order' := order + [t];
      T' := T + t.pj;
      cmax' := Max(cmax, T' + t.qj);
    }
  }

  /** The state before the first pass. */
  lemma InitKeeps(tasks: seq<Task>, N: seq<Task>)
    requires multiset(N) == multiset(tasks) && IsHeap(N)
    requires forall k :: 0 <= k < |tasks| ==> 0 <= tasks[k].pj
    ensures HeapInv(tasks, [], [], N, 0, 0)
  {
    var none: seq<Task> := [];
    assert multiset(none) + multiset(none) + multiset(N) == multiset(tasks);
  }

  /** schrageWithHeap: the cost it reports is the Cmax of the order in which
      it dispatches, and every job is dispatched exactly once. */
  method SchrageWithHeap(tasks: seq<Task>) returns (cmax: int, order: seq<Task>)
    requires forall k :: 0 <= k < |tasks| ==> 0 <= tasks[k].pj
    ensures multiset(order) == multiset(tasks)
    ensures cmax == Cmax(order)
  {
    var N := Schrage.SortedByRelease(tasks);
    N := MakeHeap(N);
    var G: seq<Task> := [];
    var currentTime := 0;
    cmax := 0;
    order := [];
    InitKeeps(tasks, N);
    while G != [] || N != []
      invariant HeapInv(tasks, order, G, N, currentTime, cmax)
      decreases |G| + |N|, Schrage.Idle(G, N, currentTime)
    {
      order, G, N, currentTime, cmax := Step(tasks, order, G, N, currentTime, cmax);
    }
    var none: seq<Task> := [];
    assert multiset(order) + multiset(none) + multiset(none) == multiset(order);
  }
}
