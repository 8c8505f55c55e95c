/** The comparators the library hands to its sorts, and what "sorted" means
    for each of them. */
module Orders {
  import opened Tasks

  /** One constructor per kind of comparison the library's sorts use. The
      max_element comparator of the list version of Schrage's rule is
      modelled by Schrage.FirstMaxQj, and the heap comparator by the Heap
      module. */
  datatype Order =
    | ByIndex                 // identifier ascending, the exhaustive search's order
    | ByRj(ascending: bool)   // release time, either direction
    | ByQj(ascending: bool)   // delivery tail, either direction
    | BySumThenPj             // rj + qj ascending, ties by pj ascending
    | ByPairCmax              // a before b when the pair [a, b] has the smaller Cmax

  /** The strict "a goes before b" test of each comparator. */
  predicate Less(o: Order, a: Task, b: Task): (r: bool)
    ensures r ==> a != b
  {
    match o
    case ByIndex => a.index < b.index
    case ByRj(ascending) => if ascending then a.rj < b.rj else a.rj > b.rj
    case ByQj(ascending) => if ascending then a.qj < b.qj else a.qj > b.qj
    case BySumThenPj =>
      if a.rj + a.qj == b.rj + b.qj then a.pj < b.pj else a.rj + a.qj < b.rj + b.qj
    case ByPairCmax => Cmax([a, b]) < Cmax([b, a])
  }

  /** The comparators that compare a key of each task; the pairwise-Cmax
      comparator is the one that does not. */
  predicate IsKeyOrder(o: Order)
  {
    !o.ByPairCmax?
  }

  /** No neighbouring pair is out of order. */
  ghost predicate AdjacentSorted(s: seq<Task>, o: Order)
  {
    forall k :: 0 < k < |s| ==> !Less(o, s[k], s[k - 1])
  }

  /** No later task goes strictly before an earlier one (the outcome of a sort). */
  ghost predicate Sorted(s: seq<Task>, o: Order)
  {
    forall i, j :: 0 <= i < j < |s| ==> !Less(o, s[j], s[i])
  }

  /** Every comparator is asymmetric: a and b are never both before each other. */
  lemma LessAsymmetric(o: Order, a: Task, b: Task)
    requires Less(o, a, b)
    ensures !Less(o, b, a)
  {
  }

  /** For a key comparator, "not before" is transitive, so a sequence with no
      inverted neighbours is sorted throughout. */
  lemma {:induction false} AdjacentSortedIsSorted(s: seq<Task>, o: Order)
    requires IsKeyOrder(o) && AdjacentSorted(s, o)
    ensures Sorted(s, o)
  {
    if |s| > 1 {
      var n := |s| - 1;
      AdjacentSortedIsSorted(s[..n], o);
      forall i, j | 0 <= i < j < |s|
        ensures !Less(o, s[j], s[i])
      {
        if j < n {
          assert s[i] == s[..n][i] && s[j] == s[..n][j];
        } else if i < n - 1 {
          assert s[i] == s[..n][i] && s[n - 1] == s[..n][n - 1];
          assert !Less(o, s[n - 1], s[i]);
          assert !Less(o, s[n], s[n - 1]);
        }
      }
    }
  }
}
