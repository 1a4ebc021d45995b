/** Which hypotheses survive the pruning of a stack (moses/src/HypothesisStackNormal.cpp and
    moses/src/HypothesisStackCubePruning.cpp, PruneToSize). */
module HypothesisPruning {
  /** A hypothesis: its recombination class, its coverage, its total score, and the hypotheses that lost
      against it. */
  class Hypothesis {
    const key: int
    const coverage: int
    const total: real
    var arcList: seq<Hypothesis>

    constructor (key: int, coverage: int, total: real)
      ensures this.key == key && this.coverage == coverage && this.total == total && arcList == []
    {
      this.key, this.coverage, this.total, arcList := key, coverage, total, [];
    }

    /** AddArc: the loser's arcs change hands, and the loser becomes an arc itself. */
    method AddArc(loserHypo: Hypothesis)
      requires loserHypo != this
      modifies this`arcList, loserHypo`arcList
      ensures arcList == old(arcList) + old(loserHypo.arcList) + [loserHypo] && loserHypo.arcList == []
    {
      if arcList == [] {
        if loserHypo.arcList != [] {
          arcList := loserHypo.arcList;
          loserHypo.arcList := [];
        }
      } else if loserHypo.arcList != [] {
        arcList := arcList + loserHypo.arcList;
        loserHypo.arcList := [];
      }
      arcList := arcList + [loserHypo];
    }
  }

  // ---------------------------------------------------------------- sorted lists

  ghost predicate Sorted(l: seq<Hypothesis>) {
    forall i, j :: 0 <= i < j < |l| ==> l[j].total <= l[i].total
  }

  ghost predicate StrictlySorted(l: seq<Hypothesis>) {
    forall i, j :: 0 <= i < j < |l| ==> l[j].total < l[i].total
  }

  // ---------------------------------------------------------------- the sort-based choice

  /** Hypotheses with coverage c among the first n. */
  function Count(l: seq<Hypothesis>, n: nat, c: int): nat
    requires n <= |l|
  {
    if n == 0 then 0 else Count(l, n - 1, c) + if l[n - 1].coverage == c then 1 else 0
  }

  /** The i-th hypothesis is among the best div of its coverage. */
  predicate Diverse(l: seq<Hypothesis>, i: nat, div: nat)
    requires i < |l|
  {
    Count(l, i, l[i].coverage) < div
  }

  function NumDiverse(l: seq<Hypothesis>, n: nat, div: nat): (d: nat)
    requires n <= |l|
    ensures d <= n
  {
    if n == 0 then 0 else NumDiverse(l, n - 1, div) + if Diverse(l, n - 1, div) then 1 else 0
  }

  /** The specification of sort-based pruning: the best div of every coverage stay, and the best others within
      the beam as long as there is room. */
  ghost predicate Kept(l: seq<Hypothesis>, i: nat, div: nat, newSize: nat, cut: real)
    requires i < |l|
  {
    Diverse(l, i, div) || (cut < l[i].total && NumDiverse(l, |l|, div) + (i - NumDiverse(l, i, div)) < newSize)
  }

  /** The worst scores by coverage after the first n: that of the div-th best, once there is one. */
  function WorstScores(l: seq<Hypothesis>, n: nat, div: nat, worst: map<int, real>): map<int, real>
    requires n <= |l| && div > 0
  {
    if n == 0 then worst
    else if Count(l, n - 1, l[n - 1].coverage) == div - 1 then
      WorstScores(l, n - 1, div, worst)[l[n - 1].coverage := l[n - 1].total]
    else WorstScores(l, n - 1, div, worst)
  }

  lemma {:induction false} WorstIsDivth(l: seq<Hypothesis>, n: nat, div: nat, worst: map<int, real>, i: nat)
    requires i < n <= |l| && div > 0 && Count(l, i, l[i].coverage) == div - 1
    ensures var w := WorstScores(l, n, div, worst); l[i].coverage in w && w[l[i].coverage] == l[i].total
    ensures Count(l, n, l[i].coverage) >= div
  {
    if i < n - 1 { WorstIsDivth(l, n - 1, div, worst, i); }
  }

  /** What the diversity counts are after n hypotheses. */
  ghost predicate Counted(count: map<int, nat>, l: seq<Hypothesis>, n: nat, div: nat)
    requires n <= |l|
  {
    forall c :: (if c in count then count[c] else 0) == if Count(l, n, c) < div then Count(l, n, c) else div
  }

  /** The first loop: the best div of every coverage, and their worst scores. */
  method ChooseDiverse(l: seq<Hypothesis>, div: nat, worst: map<int, real>)
    returns (included: seq<bool>, size: nat, worst': map<int, real>)
    requires div > 0
    ensures |included| == |l| && size == NumDiverse(l, |l|, div)
    ensures forall i :: 0 <= i < |l| ==> (included[i] <==> Diverse(l, i, div))
    ensures worst' == WorstScores(l, |l|, div, worst)
  {
    included, size, worst' := [], 0, worst;
    var diversityCount: map<int, nat> := map[];
    for i := 0 to |l|
      invariant |included| == i && size == NumDiverse(l, i, div) && worst' == WorstScores(l, i, div, worst)
      invariant forall k :: 0 <= k < i ==> (included[k] <==> Diverse(l, k, div))
      invariant Counted(diversityCount, l, i, div)
    {
      var coverage := l[i].coverage;
      if coverage !in diversityCount { diversityCount := diversityCount[coverage := 0]; }
      assert diversityCount[coverage] == if Count(l, i, coverage) < div then Count(l, i, coverage) else div;
      var isDiverse := diversityCount[coverage] < div;
      if isDiverse {
        size := size + 1;
        diversityCount := diversityCount[coverage := diversityCount[coverage] + 1];
        if diversityCount[coverage] == div {
          worst' := worst'[coverage := l[i].total];
        }
      }
      included := included + [isDiverse];
    }
  }

  /** The i-th hypothesis took the last free place. */
  ghost predicate FillsLast(l: seq<Hypothesis>, i: nat, div: nat, newSize: nat, cut: real, last: real)
    requires i < |l|
  {
    && l[i].total == last && cut < last && !Diverse(l, i, div)
    && NumDiverse(l, |l|, div) + (i - NumDiverse(l, i, div)) == newSize - 1
  }

  /** The second loop: the best others, until the stack is full or the beam is left.  full tells whether the
      last place was filled, and by which score. */
  method ChooseOthers(l: seq<Hypothesis>, div: nat, newSize: nat, cut: real, diverse: seq<bool>)
    returns (included: seq<bool>, full: bool, last: real)
    requires Sorted(l) && |diverse| == |l| && forall i :: 0 <= i < |l| ==> (diverse[i] <==> Diverse(l, i, div))
    requires NumDiverse(l, |l|, div) < newSize
    ensures |included| == |l| && forall i :: 0 <= i < |l| ==> (included[i] <==> Kept(l, i, div, newSize, cut))
    ensures if full then exists i :: 0 <= i < |l| && FillsLast(l, i, div, newSize, cut, last)
            else forall i, x :: 0 <= i < |l| ==> !FillsLast(l, i, div, newSize, cut, x)
  {
    included, full, last := diverse, false, 0.0;
    var size := NumDiverse(l, |l|, div);
    var i := 0;
    while i < |l| && size < newSize && l[i].total > cut
      invariant i <= |l| == |included| && size == NumDiverse(l, |l|, div) + (i - NumDiverse(l, i, div)) <= newSize
      invariant forall k :: 0 <= k < i ==> included[k] && Kept(l, k, div, newSize, cut)
      invariant forall k :: i <= k < |l| ==> included[k] == diverse[k]
      invariant full ==> exists k :: 0 <= k < i && FillsLast(l, k, div, newSize, cut, last)
      invariant full <==> size == newSize
      invariant !full ==> forall k, x :: 0 <= k < i ==> !FillsLast(l, k, div, newSize, cut, x)
    {
      if !included[i] {
        included := included[i := true];
        size := size + 1;
        if size == newSize {
          full, last := true, l[i].total;
          assert FillsLast(l, i, div, newSize, cut, last);
        }
      }
      i := i + 1;
    }
    forall k | i <= k < |l| ensures included[k] <==> Kept(l, k, div, newSize, cut) {
      NonDiverseGrows(l, i, k, div);
      assert l[k].total <= l[i].total;
    }
  }

  lemma {:induction false} NonDiverseGrows(l: seq<Hypothesis>, i: nat, k: nat, div: nat)
    requires i <= k <= |l|
    ensures i - NumDiverse(l, i, div) <= k - NumDiverse(l, k, div)
    decreases k
  {
    if i < k { NonDiverseGrows(l, i, k - 1, div); }
  }

  // ---------------------------------------------------------------- the threshold-based choice

  /** How many of the first n score above the cut. */
  function Above(l: seq<Hypothesis>, n: nat, cut: real): (a: nat)
    requires n <= |l|
    ensures a <= n
  {
    if n == 0 then 0 else Above(l, n - 1, cut) + if cut < l[n - 1].total then 1 else 0
  }

  /** In a sorted list those above the cut come first. */
  lemma {:induction false} AboveComeFirst(l: seq<Hypothesis>, n: nat, cut: real)
    requires Sorted(l) && n <= |l|
    ensures forall i :: 0 <= i < n ==> (cut < l[i].total <==> i < Above(l, n, cut))
  {
    if n > 0 {
      AboveComeFirst(l, n - 1, cut);
      assert n > 1 ==> l[n - 1].total <= l[n - 2].total;
      assert Above(l, n - 1, cut) < n - 1 ==> l[n - 1].total <= l[Above(l, n - 1, cut)].total;
    }
  }

  ghost predicate Descending(s: seq<real>) {
    forall i, j :: 0 <= i < j < |s| ==> s[j] <= s[i]
  }

  /** A descending sequence is determined by its elements. */
  lemma {:induction false} DescendingUnique(a: seq<real>, b: seq<real>)
    requires Descending(a) && Descending(b) && multiset(a) == multiset(b)
    ensures a == b
  {
    assert |a| == |multiset(a)| == |multiset(b)| == |b|;
    if a != [] {
      FirstIsGreatest(a, b);
      FirstIsGreatest(b, a);
      FirstRemoved(a);
      FirstRemoved(b);
      DescendingUnique(a[1..], b[1..]);
      assert a == [a[0]] + a[1..] && b == [b[0]] + b[1..];
    }
  }

  lemma FirstIsGreatest(a: seq<real>, b: seq<real>)
    requires Descending(a) && a != [] && b != [] && multiset(a) == multiset(b)
    ensures b[0] <= a[0]
  {
    assert b[0] in multiset(b);
    var i :| 0 <= i < |a| && a[i] == b[0];
  }

  lemma FirstRemoved(a: seq<real>)
    requires a != []
    ensures multiset(a[1..]) == multiset(a) - multiset{a[0]}
  {
    assert a == [a[0]] + a[1..];
  }

  /** push on the heap of scores, kept in descending order. */
  method Push(heap: seq<real>, score: real) returns (heap': seq<real>)
    requires Descending(heap)
    ensures Descending(heap') && multiset(heap') == multiset(heap) + multiset{score}
  {
    var i := 0;
    while i < |heap| && heap[i] >= score
      invariant i <= |heap| && forall k :: 0 <= k < i ==> heap[k] >= score
    {
      i := i + 1;
    }
    heap' := heap[..i] + [score] + heap[i..];
    OneInserted(heap, i, score);
  }

  lemma OneInserted(a: seq<real>, i: nat, x: real)
    requires i <= |a|
    ensures multiset(a[..i] + [x] + a[i..]) == multiset(a) + multiset{x}
  {
    assert a == a[..i] + a[i..];
  }

  /** The scores of the first n that lie above the cut. */
  ghost function ScoresAbove(l: seq<Hypothesis>, n: nat, cut: real): multiset<real>
    requires n <= |l|
  {
    if n == 0 then multiset{}
    else ScoresAbove(l, n - 1, cut) + if cut < l[n - 1].total then multiset{l[n - 1].total} else multiset{}
  }

  lemma EmptyDescends()
    ensures Descending([])
  {
  }

  /** All scores above the cut go to a heap. */
  method ScoreHeap(l: seq<Hypothesis>, cut: real) returns (heap: seq<real>)
    ensures Descending(heap) && multiset(heap) == ScoresAbove(l, |l|, cut)
  {
    heap := [];
    EmptyDescends();
    hide Descending;
    for i := 0 to |l|
      invariant Descending(heap) && multiset(heap) == ScoresAbove(l, i, cut)
    {
      if l[i].total > cut { heap := Push(heap, l[i].total); }
    }
  }

  /** The threshold: all but the last of the best newSize scores are popped. */
  method Threshold(heap: seq<real>, newSize: nat) returns (scoreThreshold: real)
    requires heap != []
    ensures var m := if newSize > |heap| then |heap| else newSize; scoreThreshold == heap[if m == 0 then 0 else m - 1]
  {
    var minNewSizeHeapSize := if newSize > |heap| then |heap| else newSize;
    var rest := heap;
    var i := 1;
    while i < minNewSizeHeapSize
      invariant 1 <= i <= (if minNewSizeHeapSize == 0 then 1 else minNewSizeHeapSize)
      invariant i <= |heap| && rest == heap[i - 1..]
    {
      rest := rest[1..];
      i := i + 1;
    }
    scoreThreshold := rest[0];
  }

  /** The totals of the first n. */
  ghost function Totals(l: seq<Hypothesis>, n: nat): seq<real>
    requires n <= |l|
  {
    seq(n, i requires 0 <= i < n => l[i].total)
  }

  lemma {:induction false} AboveAreFirstTotals(l: seq<Hypothesis>, n: nat, cut: real)
    requires Sorted(l) && n <= |l|
    ensures multiset(Totals(l, Above(l, n, cut))) == ScoresAbove(l, n, cut)
  {
    if n > 0 {
      AboveAreFirstTotals(l, n - 1, cut);
      if cut < l[n - 1].total {
        AboveComeFirst(l, n, cut);
        assert Above(l, n, cut) == n && Above(l, n - 1, cut) == n - 1;
        hide Above, Sorted;
        assert Totals(l, n) == Totals(l, n - 1) + [l[n - 1].total];
      }
    }
  }

  /** The threshold in terms of the sorted list. */
  lemma ThresholdRank(l: seq<Hypothesis>, newSize: nat, cut: real, heap: seq<real>)
    requires Sorted(l) && Descending(heap) && multiset(heap) == ScoresAbove(l, |l|, cut)
    ensures |heap| == Above(l, |l|, cut) && forall i :: 0 <= i < |heap| ==> heap[i] == l[i].total
  {
    AboveAreFirstTotals(l, |l|, cut);
    DescendingUnique(heap, Totals(l, Above(l, |l|, cut)));
  }

  lemma NothingDiverse(l: seq<Hypothesis>, n: nat)
    requires n <= |l|
    ensures NumDiverse(l, n, 0) == 0
  {
    if n > 0 { NothingDiverse(l, n - 1); }
  }

  lemma FirstIsKept(l: seq<Hypothesis>, div: nat, newSize: nat, cut: real)
    requires l != [] && newSize > 0 && cut < l[0].total
    ensures Kept(l, 0, div, newSize, cut)
  {
    NothingDiverse(l, |l|);
    assert Count(l, 0, l[0].coverage) == 0 && NumDiverse(l, 0, div) == 0;
  }

  /** With distinct scores and no diversity both prunings keep the same hypotheses. */
  lemma SortAndThresholdAgree(l: seq<Hypothesis>, newSize: nat, cut: real, heap: seq<real>, i: nat)
    requires StrictlySorted(l) && newSize > 0 && i < |l| && heap != []
    requires Descending(heap) && multiset(heap) == ScoresAbove(l, |l|, cut)
    ensures var m := if newSize > |heap| then |heap| else newSize;
            Kept(l, i, 0, newSize, cut) <==> heap[m - 1] <= l[i].total
  {
    ThresholdRank(l, newSize, cut, heap);
    AboveComeFirst(l, |l|, cut);
    NothingDiverse(l, |l|);
    NothingDiverse(l, i);
  }

  /** With equal scores the threshold keeps more than newSize: all that tie with the last place. */
  lemma ThresholdKeepsTies(l: seq<Hypothesis>, newSize: nat, cut: real, heap: seq<real>, i: nat)
    requires Sorted(l) && i < |l| && heap != [] && Descending(heap) && multiset(heap) == ScoresAbove(l, |l|, cut)
    ensures var m := if newSize > |heap| then |heap| else newSize;
            var t := heap[if m == 0 then 0 else m - 1];
            t <= l[i].total <==> i < m || (i < |heap| && l[i].total == t)
  {
    ThresholdRank(l, newSize, cut, heap);
    AboveComeFirst(l, |l|, cut);
  }
}
