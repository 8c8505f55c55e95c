/** Jobs of the single-machine problem with release times and delivery tails
    (1|rj,qj|Cmax) and the objective every solver is judged by. */
module Tasks {

  /** A job: its load-order identifier, release time rj, processing time pj
      and delivery tail qj. */
  datatype Task = Task(index: int, rj: int, pj: int, qj: int)

  function Max(a: int, b: int): int
  {
    if a < b then b else a
  }

  /** Time at which the machine becomes free after dispatching the jobs of
      `s` in order, starting from an idle machine at time 0. */
  function Finish(s: seq<Task>): int
  {
    if s == [] then 0
    else Max(Finish(s[..|s| - 1]), s[|s| - 1].rj) + s[|s| - 1].pj
  }

  /** Start time of the k-th job: it waits for the machine and for its release. */
  function Start(s: seq<Task>, k: nat): int
    requires k < |s|
  {
    Max(Finish(s[..k]), s[k].rj)
  }

  /** Completion time of the k-th job. */
  function Completion(s: seq<Task>, k: nat): int
    requires k < |s|
  {
    Start(s, k) + s[k].pj
  }

  /** The objective: the largest completion time plus delivery tail, or 0
      for an empty sequence, accumulated in dispatch order. */
  function Cmax(s: seq<Task>): (r: int)
    ensures r >= 0
  {
    if s == [] then 0
    else Max(Cmax(s[..|s| - 1]), Finish(s) + s[|s| - 1].qj)
  }

  /** Dispatching one more job: how the machine clock and the objective move. */
  lemma AppendOne(s: seq<Task>, t: Task)
    ensures Finish(s + [t]) == Max(Finish(s), t.rj) + t.pj
    ensures Cmax(s + [t]) == Max(Cmax(s), Finish(s + [t]) + t.qj)
    ensures Start(s + [t], |s|) == Max(Finish(s), t.rj)
  {
    var u := s + [t];
    assert u != [] && u[|u| - 1] == t && u[..|u| - 1] == s;
    assert Finish(u) == Max(Finish(s), t.rj) + t.pj;
    assert Cmax(u) == Max(Cmax(s), Finish(u) + t.qj);
    assert u[..|s|] == s;
  }

  /** Appending a job does not change when the earlier jobs start. */
  lemma StartOfPrefix(s: seq<Task>, t: Task, k: nat)
    requires k < |s|
    ensures (s + [t])[..k] == s[..k]
    ensures Start(s + [t], k) == Start(s, k)
  {
    assert (s + [t])[..k] == s[..k];
  }

  /** The completion time of the k-th job is the machine's finish time after
      the prefix ending with it. */
  lemma CompletionIsFinish(s: seq<Task>, k: nat)
    requires k < |s|
    ensures Completion(s, k) == Finish(s[..k + 1])
  {
    assert s[..k + 1][..k] == s[..k];
  }

  /** Cmax is the maximum of 0 and every job's completion time plus tail:
      it bounds each of them and is attained by one of them unless it is 0. */
  lemma {:induction false} CmaxIsLargestTail(s: seq<Task>)
    ensures s == [] ==> Cmax(s) == 0
    ensures Cmax(s) >= 0
    ensures forall k :: 0 <= k < |s| ==> Completion(s, k) + s[k].qj <= Cmax(s)
    ensures Cmax(s) == 0 || exists k :: 0 <= k < |s| && Cmax(s) == Completion(s, k) + s[k].qj
  {
    if s != [] {
      var n := |s| - 1;
      var init := s[..n];
      CmaxIsLargestTail(init);
      CompletionIsFinish(s, n);
      assert s[..n + 1] == s;
      forall k | 0 <= k < n
        ensures Completion(s, k) == Completion(init, k) && s[k] == init[k]
      {
        assert s[..k] == init[..k];
      }
      if Cmax(init) != 0 && Cmax(s) == Cmax(init) {
        var k :| 0 <= k < |init| && Cmax(init) == Completion(init, k) + init[k].qj;
        assert Cmax(s) == Completion(s, k) + s[k].qj;
      }
    }
  }

  /** A lone job with non-negative times is done after rj + pj + qj. */
  lemma SingleJob(t: Task)
    requires t.rj >= 0 && t.pj >= 0 && t.qj >= 0
    ensures Cmax([t]) == t.rj + t.pj + t.qj
  {
    assert [t][..0] == [];
    assert Finish([t]) == t.rj + t.pj;
  }

  /** The evaluator: a dispatch simulation over the job order. */
  method CalculateCmax(tasks: seq<Task>) returns (cmax: int)
    ensures cmax == Cmax(tasks)
  {
    var currentTime := 0;
    cmax := 0;
    for i := 0 to |tasks|
      invariant currentTime == Finish(tasks[..i])
      invariant cmax == Cmax(tasks[..i])
    {
      AppendOne(tasks[..i], tasks[i]);
      assert tasks[..i + 1] == tasks[..i] + [tasks[i]];
      currentTime := Max(currentTime, tasks[i].rj) + tasks[i].pj;
      cmax := Max(cmax, currentTime + tasks[i].qj);
    }
    assert tasks[..|tasks|] == tasks;
  }
}
