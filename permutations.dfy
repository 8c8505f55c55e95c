/** std::next_permutation over jobs compared by identifier, and the
    lexicographic order it walks: from any arrangement it steps to the next
    larger one, and after the largest (descending) arrangement it reports
    false and restores the smallest (ascending) one. */
module Permutations {
  import opened Tasks
  import opened Sorting

  /** Positions hold distinct identifiers. */
  predicate Distinct(s: seq<Task>)
  {
    forall i, j :: 0 <= i < j < |s| ==> s[i].index != s[j].index
  }

  predicate StrictlyAscending(s: seq<Task>)
  {
    forall i, j :: 0 <= i < j < |s| ==> s[i].index < s[j].index
  }

  predicate StrictlyDescending(s: seq<Task>)
  {
    forall i, j :: 0 <= i < j < |s| ==> s[i].index > s[j].index
  }

  /** p comes strictly before q in the lexicographic order of identifiers. */
  ghost predicate LexLess(p: seq<Task>, q: seq<Task>)
  {
    exists k {:trigger p[..k]} :: 0 <= k < |p| && k < |q| && p[..k] == q[..k] && p[k].index < q[k].index
  }

  /** No arrangement comes before another and after it too. */
  lemma LexAsymmetric(p: seq<Task>, q: seq<Task>)
    requires LexLess(p, q)
    ensures !LexLess(q, p)
  {
    var k1 :| 0 <= k1 < |p| && k1 < |q| && p[..k1] == q[..k1] && p[k1].index < q[k1].index;
    forall k2 | 0 <= k2 < |q| && k2 < |p| && q[..k2] == p[..k2]
      ensures q[k2].index >= p[k2].index
    {
      if k2 < k1 {
        assert p[..k1][k2] == q[..k1][k2];
      }
    }
  }

  /** Lexicographic order is transitive: the first difference of p and r
      is at the earlier of the two first differences. */
  lemma LexTrans(p: seq<Task>, q: seq<Task>, r: seq<Task>)
    requires LexLess(p, q) && LexLess(q, r)
    ensures LexLess(p, r)
  {
    var k1 :| 0 <= k1 < |p| && k1 < |q| && p[..k1] == q[..k1] && p[k1].index < q[k1].index;
    var k2 :| 0 <= k2 < |q| && k2 < |r| && q[..k2] == r[..k2] && q[k2].index < r[k2].index;
    var k := if k1 < k2 then k1 else k2;
    assert p[..k] == q[..k] by {
      assert p[..k] == p[..k1][..k] && q[..k] == q[..k1][..k];
    }
    assert q[..k] == r[..k] by {
      assert q[..k] == q[..k2][..k] && r[..k] == r[..k2][..k];
    }
    if k1 < k2 {
      assert q[..k2][k1] == r[..k2][k1];
    } else if k2 < k1 {
      assert p[..k1][k2] == q[..k1][k2];
    }
    assert p[..k] == r[..k] && p[k].index < r[k].index;
  }

  /** Every job of a multiset-equal sequence sits somewhere in the other. */
  lemma PositionOf(p: seq<Task>, s: seq<Task>, k: int) returns (m: int)
    requires multiset(p) == multiset(s) && 0 <= k < |p|
    ensures 0 <= m < |s| && s[m] == p[k]
  {
    assert p[k] in multiset(s);
    m :| 0 <= m < |s| && s[m] == p[k];
  }

  /** In a sequence with distinct identifiers every job occurs once. */
  lemma {:induction false} DistinctOnce(s: seq<Task>, x: Task)
    requires Distinct(s)
    ensures multiset(s)[x] <= 1
  {
    if s != [] {
      var n := |s| - 1;
      assert s == s[..n] + [s[n]];
      DistinctOnce(s[..n], x);
      if x == s[n] {
        assert x !in s[..n];
      }
    }
  }

  /** Rearranging a sequence with distinct identifiers keeps them distinct. */
  lemma PermDistinct(p: seq<Task>, s: seq<Task>)
    requires multiset(p) == multiset(s) && Distinct(s)
    ensures Distinct(p)
  {
    forall i, j | 0 <= i < j < |p|
      ensures p[i].index != p[j].index
    {
      if p[i] == p[j] {
        assert p == p[..j] + [p[j]] + p[j + 1..];
        assert p[i] in p[..j];
        DistinctOnce(s, p[i]);
      } else {
        var a := PositionOf(p, s, i);
        var b := PositionOf(p, s, j);
      }
    }
  }

  /** Two different arrangements of the same jobs with distinct identifiers
      are ordered one way or the other. */
  lemma LexTotal(p: seq<Task>, q: seq<Task>)
    requires multiset(p) == multiset(q) && Distinct(p) && Distinct(q) && p != q
    ensures LexLess(p, q) || LexLess(q, p)
  {
    assert |p| == |multiset(p)| == |q|;
    var k := 0;
    while p[k] == q[k]
      invariant 0 <= k < |p|
      invariant forall m :: 0 <= m < k ==> p[m] == q[m]
      decreases |p| - k
    {
      k := k + 1;
    }
    assert p[..k] == q[..k];
    var m := PositionOf(p, q, k);
  }

  /** The ascending arrangement comes first: nothing precedes it. */
  lemma AscendingIsLexMin(a: seq<Task>, p: seq<Task>)
    requires StrictlyAscending(a) && multiset(p) == multiset(a)
    ensures !LexLess(p, a)
  {
    PermDistinct(p, a);
    forall k | 0 <= k < |p| && k < |a| && p[..k] == a[..k]
      ensures p[k].index >= a[k].index
    {
      var m := PositionOf(p, a, k);
    }
  }

  /** The descending arrangement comes last: nothing follows it. */
  lemma DescendingIsLexMax(d: seq<Task>, p: seq<Task>)
    requires StrictlyDescending(d) && multiset(p) == multiset(d)
    ensures !LexLess(d, p)
  {
    PermDistinct(p, d);
    forall k | 0 <= k < |d| && k < |p| && d[..k] == p[..k]
      ensures d[k].index >= p[k].index
    {
      var m := PositionOf(p, d, k);
    }
  }

  /** b to the power e. */
  function Pow(b: nat, e: nat): (r: nat)
    ensures b >= 1 ==> r >= 1
  {
    if e == 0 then 1 else b * Pow(b, e - 1)
  }

  /** Every identifier in s is a digit in base b. */
  predicate Digits(s: seq<Task>, b: nat)
  {
    forall k :: 0 <= k < |s| ==> 0 <= s[k].index < b
  }

  /** The identifiers of s read as a number in base b, the first position
      the most significant digit. */
  function Code(s: seq<Task>, b: nat): int
  {
    if s == [] then 0 else s[0].index * Pow(b, |s| - 1) + Code(s[1..], b)
  }

  lemma MulMono(x: int, y: int, z: int)
    requires x <= y && 0 <= z
    ensures x * z <= y * z
  {
    assert (y - x) * z >= 0;
  }

  /** A number of |s| digits in base b is below b to the power |s|. */
  lemma {:induction false} CodeBound(s: seq<Task>, b: nat)
    requires b >= 1 && Digits(s, b)
    ensures 0 <= Code(s, b) < Pow(b, |s|)
  {
    if s != [] {
      CodeBound(s[1..], b);
      MulMono(0, s[0].index, Pow(b, |s| - 1));
      MulMono(s[0].index + 1, b, Pow(b, |s| - 1));
    }
  }

  /** A smaller leading digit decides, whatever follows. */
  lemma LeadingDigit(dp: int, dq: int, cp: int, cq: int, w: int)
    requires 0 <= dp < dq && 0 <= cp < w && 0 <= cq
    ensures dp * w + cp < dq * w + cq
  {
    MulMono(dp + 1, dq, w);
  }

  /** The lexicographic order of identifiers is the numeric order of the
      codes. */
  lemma {:induction false} LexLessCode(p: seq<Task>, q: seq<Task>, b: nat)
    requires |p| == |q| && b >= 1 && Digits(p, b) && Digits(q, b) && LexLess(p, q)
    ensures Code(p, b) < Code(q, b)
  {
    var k :| 0 <= k < |p| && k < |q| && p[..k] == q[..k] && p[k].index < q[k].index;
    var w := Pow(b, |p| - 1);
    assert Code(p, b) == p[0].index * w + Code(p[1..], b);
    assert Code(q, b) == q[0].index * w + Code(q[1..], b);
    if k == 0 {
      CodeBound(p[1..], b);
      CodeBound(q[1..], b);
      LeadingDigit(p[0].index, q[0].index, Code(p[1..], b), Code(q[1..], b), w);
    } else {
      assert p[0] == p[..k][0] == q[..k][0] == q[0];
      assert p[1..][..k - 1] == p[1..k] == q[1..k] == q[1..][..k - 1];
      assert LexLess(p[1..], q[1..]) by {
        assert p[1..][k - 1] == p[k] && q[1..][k - 1] == q[k];
      }
      LexLessCode(p[1..], q[1..], b);
    }
  }

  /** std::reverse as a value: position k receives the element from the
      mirrored position. */
  function Reverse(t: seq<Task>): (r: seq<Task>)
    ensures |r| == |t| && forall k :: 0 <= k < |t| ==> r[k] == t[|t| - 1 - k]
  {
    if t == [] then [] else Reverse(t[1..]) + [t[0]]
  }

  lemma {:induction false} ReverseMultiset(t: seq<Task>)
    ensures multiset(Reverse(t)) == multiset(t)
  {
    if t != [] {
      ReverseMultiset(t[1..]);
      assert t == [t[0]] + t[1..];
    }
  }

  /** Reversing a strictly descending sequence gives a strictly ascending
      one. */
  lemma ReverseDescending(t: seq<Task>)
    requires StrictlyDescending(t)
    ensures StrictlyAscending(Reverse(t))
  {
  }

  /** Searching down from i for the last ascent: the largest m <= i with
      s[m] < s[m + 1] by identifier, or -1 when there is none. */
  function PivotFrom(s: seq<Task>, i: int): (r: int)
    requires -1 <= i < |s| - 1
    ensures -1 <= r <= i
    ensures r >= 0 ==> s[r].index < s[r + 1].index
    ensures forall m :: r < m <= i ==> s[m].index >= s[m + 1].index
    decreases i + 1
  {
    if i < 0 then -1
    else if s[i].index < s[i + 1].index then i
    else PivotFrom(s, i - 1)
  }

  /** The position of the last ascent of s, or -1 when s never ascends. */
  function Pivot(s: seq<Task>): (r: int)
    ensures -1 <= r && (r >= 0 ==> r < |s| - 1 && s[r].index < s[r + 1].index)
    ensures forall m :: r < m < |s| - 1 ==> s[m].index >= s[m + 1].index
  {
    if |s| < 2 then -1 else PivotFrom(s, |s| - 2)
  }

  /** Searching down from j for the last element above s[i]; s[i + 1] is
      above it, so the search ends after i. */
  function SwapTarget(s: seq<Task>, i: int, j: int): (r: int)
    requires 0 <= i < j < |s| && s[i].index < s[i + 1].index
    ensures i < r <= j && s[i].index < s[r].index
    ensures forall m :: r < m <= j ==> s[m].index <= s[i].index
    decreases j
  {
    if s[i].index < s[j].index then j else SwapTarget(s, i, j - 1)
  }

  /** The arrangement std::next_permutation steps to: exchange the pivot
      with the last element above it, then reverse everything after the
      pivot. */
  function Next(s: seq<Task>): (r: seq<Task>)
    requires Pivot(s) >= 0
    ensures |r| == |s| && r[Pivot(s)] == s[SwapTarget(s, Pivot(s), |s| - 1)]
  {
    var i := Pivot(s);
    var j := SwapTarget(s, i, |s| - 1);
    var t := Swapped(s, i, j);
    t[..i + 1] + Reverse(t[i + 1..])
  }

  /** After the last arrangement std::next_permutation reverses it, which
      gives the ascending arrangement, the first one. */
  lemma WrapsToFirst(s: seq<Task>)
    requires Distinct(s) && Pivot(s) < 0
    ensures StrictlyAscending(Reverse(s))
  {
    NoPivotIsDescending(s);
    ReverseDescending(s);
  }

  /** A run of non-increasing neighbours is non-increasing throughout. */
  lemma {:induction false} Chain(s: seq<Task>, lo: int, hi: int)
    requires 0 <= lo <= hi < |s|
    requires forall m :: lo <= m < hi ==> s[m].index >= s[m + 1].index
    ensures forall a, b :: lo <= a <= b <= hi ==> s[a].index >= s[b].index
    decreases hi - lo
  {
    if lo < hi {
      Chain(s, lo + 1, hi);
      forall a, b | lo <= a <= b <= hi
        ensures s[a].index >= s[b].index
      {
        if a == lo && lo < b {
          assert s[lo + 1].index >= s[b].index;
        }
      }
    }
  }

  /** Without an ascent, distinct identifiers are strictly descending, and
      the other way round. */
  lemma NoPivotIsDescending(s: seq<Task>)
    requires Distinct(s)
    ensures Pivot(s) < 0 <==> StrictlyDescending(s)
  {
    if Pivot(s) < 0 && |s| > 0 {
      Chain(s, 0, |s| - 1);
    }
  }

  /** After exchanging the pivot i with SwapTarget's j, the part after the
      pivot is still non-increasing: s[i] fits between the neighbours of j. */
  lemma SwapKeepsOrder(s: seq<Task>, i: int, j: int, u: seq<Task>)
    requires 0 <= i < |s| - 1 && s[i].index < s[i + 1].index
    requires forall m :: i < m < |s| - 1 ==> s[m].index >= s[m + 1].index
    requires j == SwapTarget(s, i, |s| - 1)
    requires u == Swapped(s, i, j)[i + 1..]
    ensures forall a, b :: 0 <= a < b < |u| ==> u[a].index >= u[b].index
  {
    Chain(s, i + 1, |s| - 1);
    forall a, b | 0 <= a < b < |u|
      ensures u[a].index >= u[b].index
    {
      assert u[a] == (if i + 1 + a == j then s[i] else s[i + 1 + a]);
      assert u[b] == (if i + 1 + b == j then s[i] else s[i + 1 + b]);
    }
  }

  /** Reversing a non-increasing sequence gives a non-decreasing one. */
  lemma ReverseOrder(u: seq<Task>)
    requires forall a, b :: 0 <= a < b < |u| ==> u[a].index >= u[b].index
    ensures forall a, b :: 0 <= a < b < |u| ==> Reverse(u)[a].index <= Reverse(u)[b].index
  {
  }

  /** Exchanging i and j and reversing what follows i keeps the jobs and
      the prefix before i. */
  lemma Assemble(s: seq<Task>, i: int, j: int, t: seq<Task>, r: seq<Task>)
    requires 0 <= i < j < |s| && t == Swapped(s, i, j)
    requires r == t[..i + 1] + Reverse(t[i + 1..])
    ensures |r| == |s| && multiset(r) == multiset(s)
    ensures r[..i] == s[..i] && r[i] == s[j] && r[i + 1..] == Reverse(t[i + 1..])
  {
    ReverseMultiset(t[i + 1..]);
    SwappedMultiset(s, i, j);
    assert t == t[..i + 1] + t[i + 1..];
  }

  lemma SuffixDistinct(r: seq<Task>, k: int)
    requires Distinct(r) && 0 <= k <= |r|
    ensures Distinct(r[k..])
  {
    forall a, b | 0 <= a < b < |r| - k
      ensures r[k..][a].index != r[k..][b].index
    {
      assert r[k..][a] == r[k + a] && r[k..][b] == r[k + b];
    }
  }

  /** Non-decreasing with distinct identifiers is strictly ascending. */
  lemma Strictly(v: seq<Task>)
    requires Distinct(v)
    requires forall a, b :: 0 <= a < b < |v| ==> v[a].index <= v[b].index
    ensures StrictlyAscending(v)
  {
  }

  /** Exchanging the pivot i with the element j picked by SwapTarget and
      reversing what follows i. */
  lemma ShapeAt(s: seq<Task>, i: int, j: int, r: seq<Task>)
    requires Distinct(s) && 0 <= i < |s| - 1 && s[i].index < s[i + 1].index
    requires forall m :: i < m < |s| - 1 ==> s[m].index >= s[m + 1].index
    requires j == SwapTarget(s, i, |s| - 1)
    requires r == Swapped(s, i, j)[..i + 1] + Reverse(Swapped(s, i, j)[i + 1..])
    ensures |r| == |s| && multiset(r) == multiset(s)
    ensures r[..i] == s[..i] && r[i] == s[j]
    ensures StrictlyAscending(r[i + 1..])
  {
    var t := Swapped(s, i, j);
    Assemble(s, i, j, t, r);
    PermDistinct(r, s);
    SuffixDistinct(r, i + 1);
    var u := t[i + 1..];
    SwapKeepsOrder(s, i, j, u);
    ReverseOrder(u);
    Strictly(r[i + 1..]);
  }

  /** What Next keeps and changes: the prefix before the pivot i stays,
      position i receives the element s[j] chosen by SwapTarget, the jobs
      are the same, and everything after i is strictly ascending. */
  lemma NextShape(s: seq<Task>)
    requires Distinct(s) && Pivot(s) >= 0
    ensures |Next(s)| == |s| && multiset(Next(s)) == multiset(s)
    ensures Next(s)[..Pivot(s)] == s[..Pivot(s)]
    ensures Next(s)[Pivot(s)] == s[SwapTarget(s, Pivot(s), |s| - 1)]
    ensures StrictlyAscending(Next(s)[Pivot(s) + 1..])
  {
    var i := Pivot(s);
    var j := SwapTarget(s, i, |s| - 1);
    var r := Next(s);
    assert |r| == |s| && r[..i] == s[..i] && r[i] == s[j] && StrictlyAscending(r[i + 1..]) && multiset(r) == multiset(s) by {
      ShapeAt(s, i, j, r);
    }
  }

  /** The arrangement before the pivot is strictly followed by Next. */
  lemma NextIsLarger(s: seq<Task>)
    requires Distinct(s) && Pivot(s) >= 0
    ensures LexLess(s, Next(s))
  {
    NextShape(s);
    var i := Pivot(s);
    assert s[..i] == Next(s)[..i];
  }

  /** Equal prefixes of equal multisets leave equal multisets behind. */
  lemma SuffixPerm(p: seq<Task>, q: seq<Task>, k: int)
    requires multiset(p) == multiset(q) && 0 <= k <= |p| && k <= |q| && p[..k] == q[..k]
    ensures multiset(p[k..]) == multiset(q[k..])
  {
    assert p == p[..k] + p[k..];
    assert q == q[..k] + q[k..];
    assert multiset(p[k..]) == multiset(p) - multiset(p[..k]);
    assert multiset(q[k..]) == multiset(q) - multiset(q[..k]);
  }

  /** Below a shared prefix, the order is decided by what follows it. */
  lemma LexSuffix(p: seq<Task>, q: seq<Task>, k0: int)
    requires 0 <= k0 <= |p| && k0 <= |q| && p[..k0] == q[..k0] && LexLess(p, q)
    ensures LexLess(p[k0..], q[k0..])
  {
    var k :| 0 <= k < |p| && k < |q| && p[..k] == q[..k] && p[k].index < q[k].index;
    assert p[k0..][..k - k0] == p[k0..k] == q[k0..k] == q[k0..][..k - k0];
    assert p[k0..][k - k0] == p[k] && q[k0..][k - k0] == q[k];
  }

  /** Everything after the pivot is strictly descending. */
  lemma AfterPivot(s: seq<Task>)
    requires Distinct(s) && Pivot(s) >= 0
    ensures StrictlyDescending(s[Pivot(s) + 1..])
  {
    var i := Pivot(s);
    Chain(s, i + 1, |s| - 1);
    var v := s[i + 1..];
    forall a, b | 0 <= a < b < |v|
      ensures v[a].index > v[b].index
    {
      assert v[a] == s[i + 1 + a] && v[b] == s[i + 1 + b];
    }
  }

  /** Nothing after the pivot lies strictly between s[i] and the element
      s[j] that SwapTarget picks. */
  lemma NoneBetween(s: seq<Task>)
    requires Pivot(s) >= 0
    ensures forall m :: Pivot(s) < m < |s| ==>
      s[m].index <= s[Pivot(s)].index || s[SwapTarget(s, Pivot(s), |s| - 1)].index <= s[m].index
  {
    Chain(s, Pivot(s) + 1, |s| - 1);
  }

  /** With the prefix up to k fixed, a strictly descending remainder is the
      last arrangement. */
  lemma LastWithPrefix(s: seq<Task>, p: seq<Task>, k: int)
    requires 0 <= k <= |s| && StrictlyDescending(s[k..])
    requires multiset(p) == multiset(s) && k <= |p| && s[..k] == p[..k]
    ensures !LexLess(s, p)
  {
    SuffixPerm(s, p, k);
    DescendingIsLexMax(s[k..], p[k..]);
    if LexLess(s, p) {
      LexSuffix(s, p, k);
      assert false;
    }
  }

  /** With the prefix up to k fixed, a strictly ascending remainder is the
      first arrangement. */
  lemma FirstWithPrefix(r: seq<Task>, p: seq<Task>, k: int)
    requires 0 <= k <= |r| && StrictlyAscending(r[k..])
    requires multiset(p) == multiset(r) && k <= |p| && r[..k] == p[..k]
    ensures !LexLess(p, r)
  {
    SuffixPerm(p, r, k);
    AscendingIsLexMin(r[k..], p[k..]);
    if LexLess(p, r) {
      LexSuffix(p, r, k);
      assert false;
    }
  }

  /** A shared prefix is shared by every shorter prefix and position. */
  lemma ShorterPrefix(a: seq<Task>, b: seq<Task>, k: int, m: int)
    requires 0 <= m <= k <= |a| && k <= |b| && a[..k] == b[..k]
    ensures a[..m] == b[..m] && forall x :: 0 <= x < k ==> a[x] == b[x]
  {
    assert a[..m] == a[..k][..m];
    assert b[..m] == b[..k][..m];
    forall x | 0 <= x < k
      ensures a[x] == b[x]
    {
      assert a[x] == a[..k][x];
      assert b[x] == b[..k][x];
    }
  }

  /** The shape of next_permutation's result r, with pivot i and swap target
      j: s descends after i and s[j] is the next job above s[i] among those
      after i; r agrees with s before i, has s[j] at i and ascends after i. */
  ghost predicate Successor(s: seq<Task>, r: seq<Task>, i: int, j: int)
  {
    && Distinct(s) && 0 <= i < j < |s|
    && StrictlyDescending(s[i + 1..]) && s[i].index < s[j].index
    && (forall m :: i < m < |s| ==> s[m].index <= s[i].index || s[j].index <= s[m].index)
    && |r| == |s| && multiset(r) == multiset(s) && r[..i] == s[..i] && r[i] == s[j]
    && StrictlyAscending(r[i + 1..])
  }

  /** Next(s) has the shape of a successor. */
  lemma NextSuccessor(s: seq<Task>)
    requires Distinct(s) && Pivot(s) >= 0
    ensures Successor(s, Next(s), Pivot(s), SwapTarget(s, Pivot(s), |s| - 1))
  {
    NextShape(s);
    AfterPivot(s);
    NoneBetween(s);
  }

  /** The immediate-successor argument on the shape of r alone: r agrees
      with s before i, puts at i the element s[j] that comes next above s[i]
      among the elements after i, and is ascending after i, while s is
      descending after i. */
  lemma Between(s: seq<Task>, p: seq<Task>, r: seq<Task>, i: int, j: int)
    requires Successor(s, r, i, j)
    requires multiset(p) == multiset(s) && LexLess(s, p)
    ensures !LexLess(p, r)
  {
    var k1 :| 0 <= k1 < |s| && k1 < |p| && s[..k1] == p[..k1] && s[k1].index < p[k1].index;
    if k1 < i {
      BeforePivot(s, p, r, i, k1);
    } else if k1 > i {
      ShorterPrefix(s, p, k1, i + 1);
      LastWithPrefix(s, p, i + 1);
      assert false;
    } else {
      AtPivot(s, p, r, i, j);
    }
  }

  /** A rearrangement that leaves s before the pivot comes after r, which
      agrees with s up to the pivot. */
  lemma BeforePivot(s: seq<Task>, p: seq<Task>, r: seq<Task>, i: int, k1: int)
    requires 0 <= k1 < i <= |s| == |r| && k1 < |p|
    requires r[..i] == s[..i] && s[..k1] == p[..k1] && s[k1].index < p[k1].index
    ensures !LexLess(p, r)
  {
    ShorterPrefix(r, s, i, k1);
    assert LexLess(r, p);
    LexAsymmetric(r, p);
  }

  /** A rearrangement that leaves s at the pivot i, with a larger job there,
      does not come before r: r puts at i the smallest job larger than s[i]
      and after it the rest in ascending order. */
  lemma AtPivot(s: seq<Task>, p: seq<Task>, r: seq<Task>, i: int, j: int)
    requires Distinct(s) && 0 <= i < j < |s|
    requires forall m :: i < m < |s| ==> s[m].index <= s[i].index || s[j].index <= s[m].index
    requires |r| == |s| && multiset(r) == multiset(s) && r[..i] == s[..i] && r[i] == s[j]
    requires StrictlyAscending(r[i + 1..])
    requires multiset(p) == multiset(s) && i < |p| && s[..i] == p[..i] && s[i].index < p[i].index
    ensures !LexLess(p, r)
  {
    if LexLess(p, r) {
      var k2 :| 0 <= k2 < |p| && k2 < |r| && p[..k2] == r[..k2] && p[k2].index < r[k2].index;
      if k2 == i {
        PermDistinct(p, s);
        var m := PositionOf(p, s, i);
        ShorterPrefix(s, p, i, i);
        assert false;
      } else if k2 > i {
        ShorterPrefix(p, r, k2, i + 1);
        FirstWithPrefix(r, p, i + 1);
        assert false;
      } else {
        ShorterPrefix(s, p, i, i);
        ShorterPrefix(r, s, i, i);
        assert false;
      }
    }
  }

  /** Next(s) follows s immediately: no rearrangement of the same jobs lies
      strictly between them. */
  lemma NextIsImmediate(s: seq<Task>, p: seq<Task>)
    requires Distinct(s) && Pivot(s) >= 0
    requires multiset(p) == multiset(s) && LexLess(s, p)
    ensures !LexLess(p, Next(s))
  {
    NextSuccessor(s);
    Between(s, p, Next(s), Pivot(s), SwapTarget(s, Pivot(s), |s| - 1));
  }

  /** The state of std::reverse on [lo, hi) with the two ends at l and h:
      mirrored outside [l, h] and untouched elsewhere. */
  ghost predicate Reversing(s: seq<Task>, b: seq<Task>, lo: int, hi: int, l: int, h: int)
  {
    && |b| == |s|
    && (forall k :: 0 <= k < |b| && lo <= k < hi && !(l <= k <= h) ==> 0 <= lo + hi - 1 - k < |s| && b[k] == s[lo + hi - 1 - k])
    && (forall k :: 0 <= k < |b| && !(lo <= k < hi) ==> b[k] == s[k])
    && (forall k :: l <= k <= h && 0 <= k < |b| ==> b[k] == s[k])
  }

  /** Once the two ends have met, the range is reversed. */
  lemma ReversingDone(s: seq<Task>, b: seq<Task>, lo: int, hi: int, l: int, h: int)
    requires 0 <= lo <= hi <= |s| && lo <= l && h < hi && h <= l <= h + 1 && l + h == lo + hi - 1
    requires Reversing(s, b, lo, hi, l, h)
    ensures b == s[..lo] + Reverse(s[lo..hi]) + s[hi..]
  {
    forall k | lo <= k < hi
      ensures b[k] == s[lo + hi - 1 - k]
    {
      if l <= k <= h {
        assert k == lo + hi - 1 - k;
      }
    }
    Mirrored(s, b, lo, hi);
  }

  /** Exchanging the two ends moves them one step towards the middle. */
  lemma ReversingStep(s: seq<Task>, b: seq<Task>, lo: int, hi: int, l: int, h: int)
    requires 0 <= lo <= l < h < hi <= |s| && l + h == lo + hi - 1
    requires Reversing(s, b, lo, hi, l, h)
    ensures Reversing(s, b[l := b[h]][h := b[l]], lo, hi, l + 1, h - 1)
  {
  }

  /** A sequence that mirrors s on [lo, hi) and agrees with it elsewhere is
      s with that range reversed. */
  lemma Mirrored(s: seq<Task>, b: seq<Task>, lo: int, hi: int)
    requires 0 <= lo <= hi <= |s| == |b|
    requires forall k :: lo <= k < hi ==> b[k] == s[lo + hi - 1 - k]
    requires forall k :: 0 <= k < |s| && !(lo <= k < hi) ==> b[k] == s[k]
    ensures b == s[..lo] + Reverse(s[lo..hi]) + s[hi..]
  {
    var w := s[lo..hi];
    assert b[lo..hi] == Reverse(w) by {
      forall k | 0 <= k < hi - lo
        ensures b[lo..hi][k] == Reverse(w)[k]
      {
        assert b[lo + k] == s[hi - 1 - k];
      }
    }
    assert b[..lo] == s[..lo] by {
      forall k | 0 <= k < lo
        ensures b[..lo][k] == s[..lo][k]
      {
        assert b[k] == s[k];
      }
    }
    assert b[hi..] == s[hi..] by {
      forall k | 0 <= k < |s| - hi
        ensures b[hi..][k] == s[hi..][k]
      {
        assert b[hi + k] == s[hi + k];
      }
    }
    assert b == b[..lo] + b[lo..hi] + b[hi..];
  }

  /** Reversing up to the end leaves nothing after the reversed part. */
  lemma ReverseTail(t: seq<Task>, k: int)
    requires 0 <= k <= |t|
    ensures t[..k] + Reverse(t[k..|t|]) + t[|t|..] == t[..k] + Reverse(t[k..])
  {
    assert t[k..|t|] == t[k..] && t[|t|..] == [];
  }

  /** std::reverse on a[lo..hi): exchange from both ends towards the
      middle. */
  method ReverseRange(a: array<Task>, lo: int, hi: int)
    requires 0 <= lo <= hi <= a.Length
    modifies a
    ensures a[..] == old(a[..lo]) + Reverse(old(a[lo..hi])) + old(a[hi..])
  {
    ghost var s := a[..];
    var l, h := lo, hi - 1;
    while l < h
      invariant lo <= l <= h + 1 && h < hi && l + h == lo + hi - 1
      invariant Reversing(s, a[..], lo, hi, l, h)
      decreases h - l
    {
      ghost var b := a[..];
      ReversingStep(s, b, lo, hi, l, h);
      a[l], a[h] := a[h], a[l];
      assert a[..] == b[l := b[h]][h := b[l]];
      l, h := l + 1, h - 1;
    }
    ReversingDone(s, a[..], lo, hi, l, h);
  }

  /** The scan from the back for the last ascent. */
  method FindPivot(a: array<Task>) returns (i: int)
    requires a.Length >= 2
    ensures i == Pivot(a[..])
  {
    i := a.Length - 2;
    while 0 <= i && !(a[i].index < a[i + 1].index)
      invariant -1 <= i <= a.Length - 2
      invariant PivotFrom(a[..], i) == Pivot(a[..])
      decreases i + 1
    {
      i := i - 1;
    }
  }

  /** The scan from the back for the last element above the pivot. */
  method FindSwapTarget(a: array<Task>, i: int) returns (j: int)
    requires 0 <= i < a.Length - 1 && a[i].index < a[i + 1].index
    ensures j == SwapTarget(a[..], i, a.Length - 1)
  {
    j := a.Length - 1;
    while !(a[i].index < a[j].index)
      invariant i < j <= a.Length - 1
      invariant SwapTarget(a[..], i, j) == SwapTarget(a[..], i, a.Length - 1)
      decreases j
    {
      j := j - 1;
    }
  }

  /** std::next_permutation by identifier: find the last ascent i; if there
      is none, reverse everything and report false; otherwise exchange a[i]
      with the last element above it, reverse the part after i and report
      true. */
  method NextPermutation(a: array<Task>) returns (more: bool)
    modifies a
    ensures more <==> Pivot(old(a[..])) >= 0
    ensures more ==> a[..] == Next(old(a[..]))
    ensures !more ==> a[..] == Reverse(old(a[..]))
  {
    ghost var s := a[..];
    if a.Length < 2 {
      assert Reverse(s) == s;
      return false;
    }
    var i := FindPivot(a);
    if i < 0 {
      ReverseRange(a, 0, a.Length);
      ReverseTail(s, 0);
      assert s[..0] == [] && s[0..] == s;
      return false;
    }
    var j := FindSwapTarget(a, i);
    Swap(a, i, j);
    ghost var t := a[..];
    assert t == Swapped(s, i, j);
    ReverseRange(a, i + 1, a.Length);
    ReverseTail(t, i + 1);
    return true;
  }
}
