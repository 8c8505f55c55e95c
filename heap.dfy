/** The binary max-heap on delivery tails that the heap version of Schrage's
    rule keeps its ready and pending jobs in: a vector whose element k is
    never above its parent (k - 1) / 2, compared by qj. */
module Heap {
  import opened Tasks
  import opened Sorting

  /** c is one of the two children of p. */
  predicate ChildOf(c: int, p: int)
  {
    c == 2 * p + 1 || c == 2 * p + 2
  }

  /** The max-heap property on qj: no child compares above its parent. */
  ghost predicate IsHeap(h: seq<Task>)
  {
    forall p, c :: 0 <= p < c < |h| && (c == 2 * p + 1 || c == 2 * p + 2) ==> h[c].qj <= h[p].qj
  }

  /** Every position but the front has its parent at (k - 1) / 2. */
  lemma ParentOf(k: int)
    requires k > 0
    ensures 0 <= (k - 1) / 2 < k && ChildOf(k, (k - 1) / 2)
  {
  }

  /** Walking up through the parents: no element is above the root. */
  lemma {:induction false} BelowRoot(h: seq<Task>, k: int)
    requires IsHeap(h) && 0 <= k < |h|
    ensures h[k].qj <= h[0].qj
    decreases k
  {
    if k > 0 {
      ParentOf(k);
      BelowRoot(h, (k - 1) / 2);
    }
  }

  /** The front of a heap has the largest qj of all its elements. */
  lemma RootIsMax(h: seq<Task>)
    requires IsHeap(h) && h != []
    ensures forall x :: x in h ==> x.qj <= h[0].qj
  {
    forall x | x in h
      ensures x.qj <= h[0].qj
    {
      var k :| 0 <= k < |h| && h[k] == x;
      BelowRoot(h, k);
    }
  }

  /** The heap property everywhere except between position k and its parent:
      the state of a sift-up with the moving element at k. */
  ghost predicate HeapBut(r: seq<Task>, k: int)
  {
    forall p, c :: 0 <= p < c < |r| && (c == 2 * p + 1 || c == 2 * p + 2) && c != k ==> r[c].qj <= r[p].qj
  }

  /** The heap property everywhere except between position k and its
      children: the state of a sift-down with the moving element at k. */
  ghost predicate HeapBelow(r: seq<Task>, k: int)
  {
    forall p, c :: 0 <= p < c < |r| && (c == 2 * p + 1 || c == 2 * p + 2) && p != k ==> r[c].qj <= r[p].qj
  }

  /** The children of k are not above k's parent, so the hole at k can be
      closed from either side. */
  ghost predicate Bridged(r: seq<Task>, k: int)
    requires 0 <= k < |r|
  {
    k > 0 ==> forall c :: 0 < c < |r| && (c == 2 * k + 1 || c == 2 * k + 2) ==> r[c].qj <= r[(k - 1) / 2].qj
  }

  /** A sift-up may stop where the moving element is not above its parent. */
  lemma SiftUpDone(r: seq<Task>, k: int)
    requires 0 <= k < |r| && HeapBut(r, k)
    requires k == 0 || r[k].qj <= r[(k - 1) / 2].qj
    ensures IsHeap(r)
  {
    forall p, c | 0 <= p < c < |r| && (c == 2 * p + 1 || c == 2 * p + 2)
      ensures r[c].qj <= r[p].qj
    {
      if c == k {
        assert p == (k - 1) / 2;
      }
    }
  }

  /** A sift-down may stop where no child is above the moving element. */
  lemma SiftDownDone(r: seq<Task>, k: int)
    requires 0 <= k < |r| && HeapBelow(r, k)
    requires 2 * k + 1 < |r| ==> r[2 * k + 1].qj <= r[k].qj
    requires 2 * k + 2 < |r| ==> r[2 * k + 2].qj <= r[k].qj
    ensures IsHeap(r)
  {
  }

  /** One step of a sift-up: exchanging k with a parent that is strictly
      below it moves the defect up to the parent. */
  lemma SiftUpStep(r: seq<Task>, k: int)
    requires 0 < k < |r| && HeapBut(r, k) && Bridged(r, k)
    requires r[(k - 1) / 2].qj < r[k].qj
    ensures HeapBut(Swapped(r, (k - 1) / 2, k), (k - 1) / 2)
    ensures Bridged(Swapped(r, (k - 1) / 2, k), (k - 1) / 2)
  {
    ParentOf(k);
    var p := (k - 1) / 2;
    var t := Swapped(r, p, k);
    forall q, c | 0 <= q < c < |t| && (c == 2 * q + 1 || c == 2 * q + 2) && c != p
      ensures t[c].qj <= t[q].qj
    {
      if q == k {
        assert r[c].qj <= r[p].qj;
      } else if q == p {
        assert c == k || r[c].qj <= r[p].qj;
      }
    }
    if p > 0 {
      ParentOf(p);
      forall c | 0 < c < |t| && (c == 2 * p + 1 || c == 2 * p + 2)
        ensures t[c].qj <= t[(p - 1) / 2].qj
      {
        assert r[p].qj <= r[(p - 1) / 2].qj;
        assert c == k || r[c].qj <= r[p].qj;
      }
    }
  }

  /** One step of a sift-down: exchanging k with its larger child c when that
      child is strictly above it moves the defect down to c. */
  lemma SiftDownStep(r: seq<Task>, k: int, c: int)
    requires 0 <= k < c < |r| && ChildOf(c, k) && HeapBelow(r, k) && Bridged(r, k)
    requires r[2 * k + 1].qj <= r[c].qj
    requires 2 * k + 2 < |r| ==> r[2 * k + 2].qj <= r[c].qj
    requires r[k].qj < r[c].qj
    ensures HeapBelow(Swapped(r, k, c), c)
    ensures Bridged(Swapped(r, k, c), c)
  {
    var t := Swapped(r, k, c);
    forall q, d | 0 <= q < d < |t| && (d == 2 * q + 1 || d == 2 * q + 2) && q != c
      ensures t[d].qj <= t[q].qj
    {
      if d == k {
        assert r[k].qj <= r[q].qj;
        assert r[c].qj <= r[q].qj;
      } else if q == k {
        assert r[d].qj <= r[c].qj;
      }
    }
    forall d | 0 < d < |t| && (d == 2 * c + 1 || d == 2 * c + 2)
      ensures t[d].qj <= t[(c - 1) / 2].qj
    {
      assert (c - 1) / 2 == k;
      assert r[d].qj <= r[c].qj;
    }
  }

  /** Moving the last element of a heap to the front, in place of the old
      front, leaves a heap except below the front. */
  lemma LastToFront(h: seq<Task>)
    requires IsHeap(h) && |h| > 1
    ensures HeapBelow([h[|h| - 1]] + h[1..|h| - 1], 0)
  {
    var n := |h| - 1;
    var r := [h[n]] + h[1..n];
    forall p, c | 0 <= p < c < |r| && (c == 2 * p + 1 || c == 2 * p + 2) && p != 0
      ensures r[c].qj <= r[p].qj
    {
      assert r[c] == h[c] && r[p] == h[p];
    }
  }

  /** The child of k that a sift-down moves to: the right child when it
      exists and compares strictly above the left one, else the left one. */
  function LargerChild(r: seq<Task>, k: int): (c: int)
    requires 0 <= k && 2 * k + 1 < |r|
    ensures ChildOf(c, k) && k < c < |r|
    ensures r[2 * k + 1].qj <= r[c].qj
    ensures 2 * k + 2 < |r| ==> r[2 * k + 2].qj <= r[c].qj
  {
    if 2 * k + 2 < |r| && r[2 * k + 1].qj < r[2 * k + 2].qj then 2 * k + 2 else 2 * k + 1
  }

  /** std::push_heap: append x and sift it up while its parent compares
      strictly below it. A new element whose qj does not exceed the front's
      never reaches the front, so the front is kept. */
  method PushHeap(h: seq<Task>, x: Task) returns (r: seq<Task>)
    requires IsHeap(h)
    ensures |r| == |h| + 1 && multiset(r) == multiset(h) + multiset{x}
    ensures IsHeap(r)
    ensures h == [] ==> r == [x]
    ensures h != [] && x.qj <= h[0].qj ==> r[0] == h[0]
  {
    r := h + [x];
    var k := |h|;
    while k > 0 && r[(k - 1) / 2].qj < r[k].qj
      invariant 0 <= k < |r| == |h| + 1
      invariant multiset(r) == multiset(h) + multiset{x}
      invariant r[k] == x
      invariant HeapBut(r, k) && Bridged(r, k)
      invariant h == [] ==> r == [x]
      invariant h != [] && x.qj <= h[0].qj ==> r[0] == h[0]
    {
      SiftUpStep(r, k);
      ParentOf(k);
      var p := (k - 1) / 2;
      SwappedMultiset(r, p, k);
      r := Swapped(r, p, k);
      k := p;
    }
    SiftUpDone(r, k);
  }

  /** std::pop_heap followed by pop_back: the front is removed and returned,
      the last element takes its place and is sifted down towards the larger
      child while that child compares strictly above it. */
  method PopHeap(h: seq<Task>) returns (top: Task, r: seq<Task>)
    requires IsHeap(h) && h != []
    ensures top == h[0]
    ensures forall x :: x in h ==> x.qj <= top.qj
    ensures |r| == |h| - 1 && multiset(r) + multiset{top} == multiset(h)
    ensures IsHeap(r)
  {
    RootIsMax(h);
    top := h[0];
    var n := |h| - 1;
    if n == 0 {
      r := [];
      return;
    }
    LastToFront(h);
    r := [h[n]] + h[1..n];
    assert h == [h[0]] + h[1..n] + [h[n]];
    var k := 0;
    while 2 * k + 1 < n
      invariant 0 <= k < n == |r|
      invariant multiset(r) + multiset{top} == multiset(h)
      invariant HeapBelow(r, k) && Bridged(r, k)
      decreases n - k
    {
      var c := LargerChild(r, k);
      if r[c].qj <= r[k].qj {
        SiftDownDone(r, k);
        return;
      }
      SiftDownStep(r, k, c);
      SwappedMultiset(r, k, c);
      r := Swapped(r, k, c);
      k := c;
    }
    SiftDownDone(r, k);
  }

  /** std::make_heap: a heap holding exactly the given elements, built here
      by pushing them one at a time. */
  method MakeHeap(s: seq<Task>) returns (h: seq<Task>)
    ensures |h| == |s| && multiset(h) == multiset(s)
    ensures IsHeap(h)
  {
    h := [];
    for i := 0 to |s|
      invariant |h| == i && multiset(h) == multiset(s[..i])
      invariant IsHeap(h)
    {
      assert s[..i + 1] == s[..i] + [s[i]];
      h := PushHeap(h, s[i]);
    }
    assert s[..|s|] == s;
  }
}
