/** A stack of hypotheses with recombination and pruning (moses/src/HypothesisStackNormal.cpp,
    moses/src/HypothesisStackCubePruning.cpp; moses/src/Hypothesis.cpp, AddArc). */
module HypothesisStack {
  import opened HypothesisPruning

  /** A score, or minus infinity. */
  datatype Bound = MinusInfinity | At(score: real)

  /** The two stacks differ in how they prune and in keeping hypotheses of every coverage. */
  datatype Kind = Normal(minHypoStackDiversity: nat, maxDistortion: nat) | CubePruning

  function Pow2(n: nat): nat {
    if n == 0 then 1 else 2 * Pow2(n - 1)
  }

  /** Every word of the distortion limit doubles the room for diversity. */
  lemma RoomDoubles(n: nat)
    ensures Pow2(0) == 1 && Pow2(n + 1) == 2 * Pow2(n)
  {}

  ghost predicate NoneTwice<T>(s: seq<T>) {
    forall i, j :: 0 <= i < j < |s| ==> s[i] != s[j]
  }

  /** The arcs of a hypothesis belong to its class, lost against it, and have no arcs themselves. */
  ghost predicate Winner(h: Hypothesis)
    reads h`arcList, h.arcList`arcList
  {
    && NoneTwice(h.arcList) && h !in h.arcList
    && forall a :: a in h.arcList ==> a.key == h.key && a.total <= h.total && a.arcList == []
  }

  /** A hypothesis with its arcs. */
  ghost function Group(h: Hypothesis): set<Hypothesis>
    reads h`arcList
  {
    {h} + set a | a in h.arcList
  }

  class HypothesisStack {
    const maxHypoStackSize: nat
    const beamWidth: real
    const nBestIsEnabled: bool
    const kind: Kind
    var hypos: map<int, Hypothesis>
    var bestScore: Bound
    var worstScore: Bound
    var diversityWorstScore: map<int, real>
    /** All hypotheses that were offered, and those that have been freed. */
    ghost var offered: set<Hypothesis>
    ghost var freed: set<Hypothesis>
    /** Whether the stack has ever been cut down. */
    ghost var pruned: bool

    /** x is in the stack or an arc of one in the stack. */
    ghost predicate Owned(x: Hypothesis)
      reads this`hypos, this`offered, offered`arcList
    {
      x.key in hypos && hypos[x.key] in offered && x in Group(hypos[x.key])
    }

    /** The member for class k. */
    ghost predicate MemberOk(k: int)
      requires k in hypos
      reads this`hypos, this`offered, offered`arcList
    {
      hypos[k] in offered && hypos[k].key == k && (forall a :: a in hypos[k].arcList ==> a in offered) && Winner(hypos[k])
    }

    /** No two members are of one class, and every offered hypothesis is in the stack, in the arc list of one
        winner of its class, or freed. */
    ghost predicate Partition()
      reads this`hypos, this`offered, this`freed, offered`arcList
    {
      && (forall k :: k in hypos ==> MemberOk(k))
      && freed <= offered && forall x :: x in offered ==> (x in freed <==> !Owned(x))
    }

    /** Nothing that was offered is better than the best score. */
    ghost predicate Bounded()
      reads this`bestScore, this`offered
    {
      forall x :: x in offered ==> bestScore.At? && x.total <= bestScore.score
    }

    ghost predicate HoldsBest()
      reads this`bestScore, this`hypos
    {
      bestScore.At? ==> exists k :: k in hypos && hypos[k].total == bestScore.score
    }

    ghost predicate WorstBelowBest()
      reads this`bestScore, this`worstScore
    {
      worstScore.At? ==> bestScore.At? && worstScore.score <= bestScore.score
    }

    /** As long as nothing has been pruned, the worst score is where the beam of the best one ends. */
    ghost predicate BeamIsWorst()
      reads this`bestScore, this`worstScore, this`pruned
    {
      !pruned ==> worstScore == if bestScore.At? then At(bestScore.score + beamWidth) else MinusInfinity
    }

    /** No member is better than the worst score of its coverage, which is that of some hypothesis. */
    static ghost predicate WorstByCoverage(members: map<int, Hypothesis>, all: set<Hypothesis>, worst: map<int, real>) {
      && (forall k :: k in members ==> members[k].coverage in worst && members[k].total <= worst[members[k].coverage])
      && (forall c :: c in worst ==> exists x :: x in all && x.coverage == c && x.total == worst[c])
    }

    /** As long as nothing has been pruned, coverages have worst scores only if one hypothesis of each is guaranteed a
        place. */
    ghost predicate CoverageWorst(members: map<int, Hypothesis>, all: set<Hypothesis>)
      reads this`diversityWorstScore, this`pruned
    {
      !pruned ==>
        if kind.Normal? && kind.minHypoStackDiversity == 1 then WorstByCoverage(members, all, diversityWorstScore)
        else diversityWorstScore == map[]
    }

    ghost predicate Valid()
      reads this, offered`arcList
    {
      && maxHypoStackSize > 0 && beamWidth < 0.0 && (kind.Normal? ==> 2 * maxHypoStackSize >= 1)
      && Partition() && Bounded() && HoldsBest() && WorstBelowBest() && BeamIsWorst() && CoverageWorst(hypos, offered)
    }

    constructor (maxSize: nat, beamWidth: real, nBest: bool, kind: Kind)
      requires maxSize > 0 && beamWidth < 0.0
      ensures Valid() && offered == {} && freed == {} && hypos == map[] && !pruned
      ensures this.maxHypoStackSize == maxSize && this.beamWidth == beamWidth && nBestIsEnabled == nBest && this.kind == kind
    {
      maxHypoStackSize, this.beamWidth, nBestIsEnabled, this.kind := maxSize, beamWidth, nBest, kind;
      hypos, bestScore, worstScore, diversityWorstScore := map[], MinusInfinity, MinusInfinity, map[];
      offered, freed, pruned := {}, {}, false;
    }

    // -------------------------------------------------------------- pruning

    /** The members in the order of their scores. */
    ghost predicate ListsMembers(l: seq<Hypothesis>, members: map<int, Hypothesis>) {
      && Sorted(l) && (forall x :: x in l ==> x.key in members && members[x.key] == x)
      && (forall k :: k in members ==> members[k] in l)
      && NoneTwice(l)
    }

    static method InsertSorted(l: seq<Hypothesis>, h: Hypothesis) returns (l': seq<Hypothesis>)
      requires Sorted(l)
      ensures Sorted(l') && exists i :: 0 <= i <= |l| && l' == l[..i] + [h] + l[i..]
    {
      var i := 0;
      while i < |l| && l[i].total >= h.total
        invariant i <= |l| && forall k :: 0 <= k < i ==> l[k].total >= h.total
      {
        i := i + 1;
      }
      l' := l[..i] + [h] + l[i..];
    }

    /** GetSortedList */
    method GetSortedList() returns (l: seq<Hypothesis>)
      requires forall k :: k in hypos ==> hypos[k].key == k
      ensures ListsMembers(l, hypos)
    {
      l := [];
      var todo := hypos.Keys;
      while todo != {}
        invariant todo <= hypos.Keys
        invariant Sorted(l)
        invariant forall x :: x in l ==> x.key in hypos && x.key !in todo && hypos[x.key] == x
        invariant forall k :: k in hypos && k !in todo ==> hypos[k] in l
        invariant NoneTwice(l)
      {
        HasElement(todo);
        var k :| k in todo;
        var l' := InsertSorted(l, hypos[k]);
        Inserted(l, hypos[k], l');
        l, todo := l', todo - {k};
      }
    }

    static lemma HasElement(s: set<int>)
      requires s != {}
      ensures exists k :: k in s
    {
      assert (forall k :: k !in s) ==> s == {};
    }

    static lemma Inserted(l: seq<Hypothesis>, h: Hypothesis, l': seq<Hypothesis>)
      requires exists i :: 0 <= i <= |l| && l' == l[..i] + [h] + l[i..]
      requires h !in l && NoneTwice(l)
      ensures |l'| == |l| + 1 && (forall x :: x in l' <==> x in l || x == h)
      ensures NoneTwice(l')
    {
      var p :| 0 <= p <= |l| && l' == l[..p] + [h] + l[p..];
      InsertedAt(l, h, l', p);
      forall x | x in l ensures x in l' {
        var i :| 0 <= i < |l| && l[i] == x;
        assert l'[if i < p then i else i + 1] == x;
      }
    }

    static lemma InsertedAt(l: seq<Hypothesis>, h: Hypothesis, l': seq<Hypothesis>, p: nat)
      requires p <= |l| && l' == l[..p] + [h] + l[p..]
      ensures |l'| == |l| + 1 && forall i :: 0 <= i < |l'| ==> l'[i] == if i < p then l[i] else if i == p then h else l[i - 1]
    {
    }

    /** FREEHYPO of a hypothesis that is not included: it goes with its arcs. */
    ghost predicate Dropped(x: Hypothesis, l: seq<Hypothesis>, included: seq<bool>, n: nat)
      requires n <= |l| == |included|
      reads l`arcList
    {
      exists j :: 0 <= j < n && !included[j] && x in Group(l[j])
    }

    /** The included hypotheses go back into the stack. */
    method Reinsert(l: seq<Hypothesis>, included: seq<bool>)
      requires |included| == |l| && ListsMembers(l, hypos)
      modifies this`hypos
      ensures forall k :: k in hypos ==> k in old(hypos) && hypos[k] == old(hypos)[k]
      ensures forall i :: 0 <= i < |l| ==> (l[i].key in hypos <==> included[i])
    {
      ghost var before := hypos;
      DistinctKeys(l, before);
      hypos := map[];
      for i := 0 to |l|
        invariant forall k :: k in hypos ==> k in before && hypos[k] == before[k]
        invariant forall j :: 0 <= j < |l| ==> (l[j].key in hypos <==> j < i && included[j])
      {
        if included[i] {
          assert l[i] in l;
          hypos := hypos[l[i].key := l[i]];
        }
      }
    }

    lemma DistinctKeys(l: seq<Hypothesis>, members: map<int, Hypothesis>)
      requires ListsMembers(l, members)
      ensures forall i, j :: 0 <= i < |l| && 0 <= j < |l| && l[i].key == l[j].key ==> i == j
    {
      forall i, j | 0 <= i < |l| && 0 <= j < |l| && l[i].key == l[j].key ensures i == j {
        assert l[i] in l && l[j] in l;
      }
    }

    /** The others are freed. */
    method FreeOthers(l: seq<Hypothesis>, included: seq<bool>)
      requires |included| == |l|
      modifies this`freed
      ensures forall x :: x in freed <==> x in old(freed) || Dropped(x, l, included, |l|)
    {
      for i := 0 to |l|
        invariant forall x :: x in freed <==> x in old(freed) || Dropped(x, l, included, i)
      {
        ghost var before := freed;
        if !included[i] { freed := freed + Group(l[i]); }
        forall x ensures x in freed <==> x in old(freed) || Dropped(x, l, included, i + 1) {
          if x in before && x !in old(freed) {
            var j :| 0 <= j < i && !included[j] && x in Group(l[j]);
          }
          if x in freed && x !in before { assert x in Group(l[i]); }
        }
      }
    }

    /** The hypotheses of l that are not included leave the stack and are freed with their arcs. */
    method Keep(l: seq<Hypothesis>, included: seq<bool>)
      requires |included| == |l| && ListsMembers(l, hypos) && Partition()
      modifies this`hypos, this`freed
      ensures Partition() && old(freed) <= freed
      ensures forall k :: k in hypos ==> k in old(hypos) && hypos[k] == old(hypos)[k]
      ensures forall i :: 0 <= i < |l| ==> (l[i].key in hypos <==> included[i])
    {
      ghost var before := hypos;
      DistinctKeys(l, before);
      Reinsert(l, included);
      FreeOthers(l, included);
      forall k | k in hypos ensures MemberOk(k) { assert old(MemberOk(k)); }
      forall k | k in before ensures Group(before[k]) <= offered && Winner(before[k]) && before[k].key == k { assert old(MemberOk(k)); }
      hide MemberOk, ListsMembers, Dropped, Winner, Group;
      forall x | x in offered ensures x in freed <==> !Owned(x) {
        KeptOrDropped(l, included, before, x);
        assert old(x in freed <==> !Owned(x));
      }
      forall x | x in freed ensures x in offered {
        if Dropped(x, l, included, |l|) { DroppedWasOffered(l, included, before, x); }
      }
    }

    lemma DroppedWasOffered(l: seq<Hypothesis>, included: seq<bool>, before: map<int, Hypothesis>, x: Hypothesis)
      requires |included| == |l| && ListsMembers(l, before) && Dropped(x, l, included, |l|)
      requires forall k :: k in before ==> Group(before[k]) <= offered
      ensures x in offered
    {
      var j :| 0 <= j < |l| && !included[j] && x in Group(l[j]);
      assert l[j] in l;
    }

    /** A hypothesis of the stack stays exactly if the member of its class is included. */
    lemma KeptOrDropped(l: seq<Hypothesis>, included: seq<bool>, before: map<int, Hypothesis>, x: Hypothesis)
      requires |included| == |l| && ListsMembers(l, before) && x in offered
      requires forall k :: k in before ==> before[k] in offered && Winner(before[k]) && before[k].key == k
      requires forall k :: k in hypos ==> k in before && hypos[k] == before[k]
      requires forall i :: 0 <= i < |l| ==> (l[i].key in hypos <==> included[i])
      ensures Dropped(x, l, included, |l|) <==> x.key in before && x in Group(before[x.key]) && x.key !in hypos
      ensures Owned(x) <==> x.key in before && x in Group(before[x.key]) && x.key in hypos
    {
      if x.key in before && x in Group(before[x.key]) {
        var i :| 0 <= i < |l| && l[i] == before[x.key];
        assert !included[i] ==> Dropped(x, l, included, |l|);
      }
      if Dropped(x, l, included, |l|) {
        var j :| 0 <= j < |l| && !included[j] && x in Group(l[j]);
        assert l[j] in l && before[l[j].key] == l[j] && x.key == l[j].key;
      }
    }

    /** What pruning keeps. */
    ghost predicate Survives(l: seq<Hypothesis>, i: nat, newSize: nat, heap: seq<real>)
      requires i < |l|
      reads this`bestScore
    {
      if kind.Normal? then bestScore.At? && Kept(l, i, kind.minHypoStackDiversity, newSize, bestScore.score + beamWidth)
      else heap != [] && heap[if newSize == 0 then 0 else (if newSize > |heap| then |heap| else newSize) - 1] <= l[i].total
    }

    /** The worst score is that of the hypothesis that took the last place, or what it was if none did. */
    ghost predicate WorstIsLast(l: seq<Hypothesis>, newSize: nat, before: Bound)
      requires kind.Normal? && bestScore.At?
      reads this`bestScore, this`worstScore
    {
      var div, cut := kind.minHypoStackDiversity, bestScore.score + beamWidth;
      || (worstScore.At? && exists i :: 0 <= i < |l| && FillsLast(l, i, div, newSize, cut, worstScore.score))
      || (worstScore == before && forall i, x :: 0 <= i < |l| ==> !FillsLast(l, i, div, newSize, cut, x))
    }

    /** The worst scores of the coverages: those of the last guaranteed places. */
    ghost function NewWorstScores(l: seq<Hypothesis>, before: map<int, real>): map<int, real> {
      if kind.Normal? && kind.minHypoStackDiversity > 0 then WorstScores(l, |l|, kind.minHypoStackDiversity, before) else before
    }

    /** PruneToSize of the normal stack: which of the sorted members are included. */
    method ChooseNormal(l: seq<Hypothesis>, newSize: nat)
      returns (included: seq<bool>)
      requires kind.Normal? && bestScore.At? && Sorted(l)
      modifies this`worstScore, this`diversityWorstScore
      ensures |included| == |l| && forall i :: 0 <= i < |l| ==> (included[i] <==> Survives(l, i, newSize, []))
      ensures worstScore == old(worstScore) || (worstScore.At? && exists i :: 0 <= i < |l| && worstScore.score == l[i].total)
      ensures WorstIsLast(l, newSize, old(worstScore))
      ensures diversityWorstScore == NewWorstScores(l, old(diversityWorstScore))
    {
      var div, cut := kind.minHypoStackDiversity, bestScore.score + beamWidth;
      var size := 0;
      if div > 0 {
        included, size, diversityWorstScore := ChooseDiverse(l, div, diversityWorstScore);
      } else {
        included := seq(|l|, _ => false);
        NothingDiverse(l, |l|);
      }
      if size < newSize {
        var full, last;
        included, full, last := ChooseOthers(l, div, newSize, cut, included);
        if full { worstScore := At(last); }
      }
      assert size >= newSize ==> forall i, x :: 0 <= i < |l| ==> !FillsLast(l, i, div, newSize, cut, x) by {
        forall i, x | 0 <= i < |l| ensures NumDiverse(l, |l|, div) >= newSize ==> !FillsLast(l, i, div, newSize, cut, x) {}
      }
    }

    /** The worst score is that of the last of the best newSize inside the beam, of which there are n. */
    ghost predicate WorstIsThreshold(l: seq<Hypothesis>, newSize: nat, n: nat)
      reads this`worstScore
    {
      && 0 < n <= |l| && worstScore == At(l[if newSize == 0 then 0 else (if newSize > n then n else newSize) - 1].total)
    }

    /** PruneToSize of the cube pruning stack. */
    method ChooseByThreshold(l: seq<Hypothesis>, newSize: nat) returns (included: seq<bool>, heap: seq<real>)
      requires kind.CubePruning? && bestScore.At? && Sorted(l) && l != [] && l[0].total == bestScore.score && beamWidth < 0.0
      modifies this`worstScore
      ensures Descending(heap) && multiset(heap) == ScoresAbove(l, |l|, bestScore.score + beamWidth) && heap != []
      ensures |included| == |l| && forall i :: 0 <= i < |l| ==> (included[i] <==> Survives(l, i, newSize, heap))
      ensures worstScore.At? && exists i :: 0 <= i < |l| && worstScore.score == l[i].total
      ensures WorstIsThreshold(l, newSize, |heap|)
    {
      hide Sorted, Descending, ScoresAbove, Above, Kept;
      var cut := bestScore.score + beamWidth;
      heap := ScoreHeap(l, cut);
      ThresholdRank(l, newSize, cut, heap);
      AboveComeFirst(l, |l|, cut);
      var scoreThreshold := Threshold(heap, newSize);
      included := [];
      for i := 0 to |l|
        invariant |included| == i && forall k :: 0 <= k < i ==> (included[k] <==> scoreThreshold <= l[k].total)
      {
        included := included + [!(l[i].total < scoreThreshold)];
      }
      worstScore := At(scoreThreshold);
    }

    /** The first of the sorted members has the best score, and survives. */
    lemma BestSurvives(l: seq<Hypothesis>, newSize: nat, heap: seq<real>)
      requires Valid() && (exists k :: k in hypos) && ListsMembers(l, hypos) && newSize > 0 && bestScore.At?
      requires kind.CubePruning? ==> heap != [] && Descending(heap) && multiset(heap) == ScoresAbove(l, |l|, bestScore.score + beamWidth)
      ensures l != [] && bestScore.At? && l[0].total == bestScore.score
      ensures Survives(l, 0, newSize, heap)
    {
      hide *;
      Parts();
      SortedBest(l);
      ListIsSorted(l);
      FirstSurvives(l, newSize, heap);
    }

    lemma FirstSurvives(l: seq<Hypothesis>, newSize: nat, heap: seq<real>)
      requires l != [] && Sorted(l) && newSize > 0 && bestScore.At? && l[0].total == bestScore.score && beamWidth < 0.0
      requires kind.CubePruning? ==> heap != [] && Descending(heap) && multiset(heap) == ScoresAbove(l, |l|, bestScore.score + beamWidth)
      ensures Survives(l, 0, newSize, heap)
    {
      hide Kept, Sorted, Descending, ScoresAbove;
      if kind.Normal? {
        FirstIsKept(l, kind.minHypoStackDiversity, newSize, bestScore.score + beamWidth);
      } else {
        ThresholdKeepsTies(l, newSize, bestScore.score + beamWidth, heap, 0);
      }
    }

    lemma SortedBest(l: seq<Hypothesis>)
      requires Valid() && (exists k :: k in hypos) && ListsMembers(l, hypos)
      ensures l != [] && bestScore.At? && l[0].total == bestScore.score
    {
      var k :| k in hypos;
      assert hypos[k] in l && MemberOk(k);
      var b :| b in hypos && hypos[b].total == bestScore.score;
      assert hypos[b] in l && l[0] in l && MemberOk(l[0].key);
      var i :| 0 <= i < |l| && l[i] == hypos[b];
      assert i > 0 ==> l[i].total <= l[0].total;
    }

    /** Who was in the list and survives is in the stack, and nobody else. */
    ghost predicate PrunedTo(l: seq<Hypothesis>, before: map<int, Hypothesis>, newSize: nat, heap: seq<real>)
      reads this`hypos, this`bestScore
    {
      && ListsMembers(l, before) && (forall k :: k in hypos ==> k in before && hypos[k] == before[k])
      && (forall i :: 0 <= i < |l| ==> (l[i].key in hypos <==> Survives(l, i, newSize, heap)))
    }

    ghost predicate WorstPruned(l: seq<Hypothesis>, newSize: nat, heap: seq<real>, before: Bound)
      requires bestScore.At?
      reads this`bestScore, this`worstScore
    {
      if kind.Normal? then WorstIsLast(l, newSize, before) else WorstIsThreshold(l, newSize, |heap|)
    }

    lemma WorstOf(l: seq<Hypothesis>, newSize: nat, heap: seq<real>, before: Bound, worst: map<int, real>)
      requires bestScore.At? && if kind.Normal? then WorstIsLast(l, newSize, before) else WorstIsThreshold(l, newSize, |heap|)
      ensures WorstPruned(l, newSize, heap, before)
      ensures kind.CubePruning? ==> NewWorstScores(l, worst) == worst
    {
    }

    /** Which of the sorted members stay, by either way of pruning; the best always does. */
    method Choose(list: seq<Hypothesis>, newSize: nat) returns (included: seq<bool>, heap: seq<real>)
      requires Valid() && (exists k :: k in hypos) && ListsMembers(list, hypos) && newSize > 0
      requires pruned
      modifies this`worstScore, this`diversityWorstScore
      ensures Valid() && list != [] && bestScore.At? && list[0].total == bestScore.score && Survives(list, 0, newSize, heap)
      ensures WorstPruned(list, newSize, heap, old(worstScore)) && diversityWorstScore == NewWorstScores(list, old(diversityWorstScore))
      ensures |included| == |list| && forall i :: 0 <= i < |list| ==> (included[i] <==> Survives(list, i, newSize, heap))
    {
      hide *;
      heap := [];
      Parts();
      SortedBest(list);
      ListIsSorted(list);
      if kind.Normal? {
        included := ChooseNormal(list, newSize);
      } else {
        included, heap := ChooseByThreshold(list, newSize);
      }
      WorstIsMember(list);
      BestSurvives(list, newSize, heap);
      WorstOf(list, newSize, heap, old(worstScore), old(diversityWorstScore));
    }

    /** PruneToSize */
    method PruneToSize(newSize: nat) returns (ghost l: seq<Hypothesis>, ghost heap: seq<real>)
      requires Valid() && newSize > 0
      modifies this`hypos, this`freed, this`worstScore, this`diversityWorstScore, this`pruned
      ensures Valid() && old(freed) <= freed
      ensures if |old(hypos).Keys| <= newSize then
                hypos == old(hypos) && freed == old(freed) && worstScore == old(worstScore)
                && diversityWorstScore == old(diversityWorstScore) && pruned == old(pruned)
              else
                PrunedTo(l, old(hypos), newSize, heap) && bestScore.At? && WorstPruned(l, newSize, heap, old(worstScore))
                && diversityWorstScore == NewWorstScores(l, old(diversityWorstScore)) && pruned
    {
      hide *;
      l, heap := [], [];
      if |hypos.Keys| <= newSize { return; }
      Parts();
      HasElement(hypos.Keys);
      var list := GetSortedList();
      pruned := true;
      StillValid(old(pruned));
      var included, scores := Choose(list, newSize);
      l, heap := list, scores;
      Parts();
      Keep(list, included);
      IsPruned(list, old(hypos), newSize, scores, included);
    }

    /** Pruning asks less of the worst scores. */
    lemma StillValid(before: bool)
      requires pruned && maxHypoStackSize > 0 && beamWidth < 0.0
      requires Partition() && Bounded() && HoldsBest() && WorstBelowBest()
      ensures Valid()
    {
    }

    lemma Parts()
      requires Valid()
      ensures maxHypoStackSize > 0 && beamWidth < 0.0 && Partition() && Bounded() && HoldsBest() && WorstBelowBest()
      ensures BeamIsWorst() && CoverageWorst(hypos, offered)
      ensures forall k :: k in hypos ==> hypos[k].key == k
    {
      forall k | k in hypos ensures hypos[k].key == k { assert MemberOk(k); }
    }

    lemma ListIsSorted(l: seq<Hypothesis>)
      requires ListsMembers(l, hypos)
      ensures Sorted(l)
    {
    }

    /** A worst score that is a member's keeps the invariant. */
    lemma WorstIsMember(l: seq<Hypothesis>)
      requires Partition() && Bounded() && HoldsBest() && maxHypoStackSize > 0 && beamWidth < 0.0 && ListsMembers(l, hypos)
      requires WorstBelowBest() || (worstScore.At? && exists i :: 0 <= i < |l| && worstScore.score == l[i].total)
      requires pruned
      ensures Valid()
    {
      forall i | 0 <= i < |l| ensures bestScore.At? && l[i].total <= bestScore.score {
        assert l[i] in l && MemberOk(l[i].key);
      }
    }

    lemma IsPruned(l: seq<Hypothesis>, before: map<int, Hypothesis>, newSize: nat, heap: seq<real>, included: seq<bool>)
      requires ListsMembers(l, before) && (forall k :: k in hypos ==> k in before && hypos[k] == before[k])
      requires |included| == |l| && forall i :: 0 <= i < |l| ==> (l[i].key in hypos <==> included[i])
      requires forall i :: 0 <= i < |l| ==> (included[i] <==> Survives(l, i, newSize, heap))
      requires Partition() && Bounded() && WorstBelowBest() && maxHypoStackSize > 0 && beamWidth < 0.0 && pruned
      requires l != [] && bestScore.At? && l[0].total == bestScore.score && Survives(l, 0, newSize, heap)
      ensures PrunedTo(l, before, newSize, heap) && Valid()
    {
      assert l[0].key in hypos && l[0] in l;
      assert hypos[l[0].key] == l[0];
    }

    /** The best and worst scores after a hypothesis has been inserted. */
    method UpdateScores(hypo: Hypothesis)
      modifies this`bestScore, this`worstScore, this`diversityWorstScore
      ensures bestScore == if old(bestScore).At? && hypo.total <= old(bestScore).score then old(bestScore) else At(hypo.total)
      ensures old(WorstBelowBest()) && beamWidth < 0.0 ==> WorstBelowBest()
      ensures worstScore == if bestScore == old(bestScore) then old(worstScore)
                            else if old(worstScore).At? && hypo.total + beamWidth <= old(worstScore).score then old(worstScore)
                            else At(hypo.total + beamWidth)
      ensures diversityWorstScore ==
                if kind.Normal? && kind.minHypoStackDiversity == 1
                   && !(hypo.coverage in old(diversityWorstScore) && hypo.total <= old(diversityWorstScore)[hypo.coverage])
                then old(diversityWorstScore)[hypo.coverage := hypo.total] else old(diversityWorstScore)
    {
      if bestScore.MinusInfinity? || hypo.total > bestScore.score {
        bestScore := At(hypo.total);
        if worstScore.MinusInfinity? || bestScore.score + beamWidth > worstScore.score {
          worstScore := At(bestScore.score + beamWidth);
        }
      }
      if kind.Normal? && kind.minHypoStackDiversity == 1
         && (hypo.coverage !in diversityWorstScore || hypo.total > diversityWorstScore[hypo.coverage])
      {
        diversityWorstScore := diversityWorstScore[hypo.coverage := hypo.total];
      }
    }

    /** How many hypotheses the stack may hold before it is pruned. */
    function ToleratedSize(): nat
      requires maxHypoStackSize > 0
    {
      2 * maxHypoStackSize - 1
      + if kind.Normal? && kind.minHypoStackDiversity > 0 then kind.minHypoStackDiversity * Pow2(kind.maxDistortion) else 0
    }

    // -------------------------------------------------------------- adding

    /** A hypothesis that may enter: nothing of its group has been offered, and a better best score is its own. */
    ghost predicate MayEnter(hypo: Hypothesis)
      reads this, offered`arcList, hypo`arcList, hypo.arcList`arcList
    {
      && maxHypoStackSize > 0 && beamWidth < 0.0 && Partition() && Bounded() && WorstBelowBest() && BeamIsWorst()
      && CoverageWorst(hypos, offered + Group(hypo))
      && (HoldsBest() || (bestScore.At? && hypo.total > bestScore.score))
      && Winner(hypo) && Group(hypo) !! offered && hypo.key !in hypos
    }

    /** m_hypos.insert */
    method Insert(hypo: Hypothesis)
      requires Partition() && Winner(hypo) && Group(hypo) !! offered && hypo.key !in hypos
      modifies this`hypos, this`offered
      ensures Partition() && hypos == old(hypos)[hypo.key := hypo] && offered == old(offered) + Group(hypo)
    {
      hypos := hypos[hypo.key := hypo];
      offered := offered + Group(hypo);
      forall k | k in hypos ensures MemberOk(k) {
        assert k != hypo.key ==> old(MemberOk(k));
      }
      forall x | x in offered ensures x in freed <==> !Owned(x) {
        if x in old(offered) {
          assert old(x in freed <==> !Owned(x));
          assert x.key in old(hypos) ==> old(MemberOk(x.key));
        } else {
          assert x.key == hypo.key;
        }
      }
    }

    /** A hypothesis enters, and the scores are updated. */
    method Enter(hypo: Hypothesis)
      requires MayEnter(hypo)
      modifies this`hypos, this`offered, this`bestScore, this`worstScore, this`diversityWorstScore
      ensures Valid() && offered == old(offered) + Group(hypo) && hypos == old(hypos)[hypo.key := hypo]
    {
      hide Partition, Winner, WorstByCoverage, CoverageWorst, BeamIsWorst;
      WorstMeans(hypos, offered + Group(hypo));
      Insert(hypo);
      UpdateScores(hypo);
      ScoresFollow(hypo, old(hypos), old(offered), old(bestScore));
      hide HoldsBest, Bounded, WorstBelowBest;
      BeamFollows(hypo, old(bestScore), old(worstScore));
      CoverageFollows(hypo, old(hypos), old(diversityWorstScore));
    }

    /** Add on a class that is not in the stack yet. */
    method AddNew(hypo: Hypothesis)
      requires MayEnter(hypo)
      modifies this
      ensures Valid() && offered == old(offered) + Group(hypo) && old(freed) <= freed
      ensures forall k :: k in hypos ==> k in old(hypos)[hypo.key := hypo] && hypos[k] == old(hypos)[hypo.key := hypo][k]
      ensures |old(hypos)[hypo.key := hypo].Keys| <= ToleratedSize() ==> hypos == old(hypos)[hypo.key := hypo] && freed == old(freed)
      ensures pruned <==> old(pruned) || |old(hypos)[hypo.key := hypo].Keys| > ToleratedSize()
    {
      hide *;
      Enter(hypo);
      Sizes();
      if |hypos.Keys| > ToleratedSize() {
        ghost var l, heap := PruneToSize(maxHypoStackSize);
        OnlyFewer(l, old(hypos)[hypo.key := hypo], maxHypoStackSize, heap);
      }
    }

    lemma Sizes()
      requires Valid()
      ensures maxHypoStackSize > 0 && ToleratedSize() >= maxHypoStackSize
    {
    }

    lemma OnlyFewer(l: seq<Hypothesis>, before: map<int, Hypothesis>, newSize: nat, heap: seq<real>)
      requires PrunedTo(l, before, newSize, heap)
      ensures forall k :: k in hypos ==> k in before && hypos[k] == before[k]
    {
    }

    lemma ScoresFollow(hypo: Hypothesis, hypos': map<int, Hypothesis>, offered': set<Hypothesis>, bestScore': Bound)
      requires hypos == hypos'[hypo.key := hypo] && hypo.key !in hypos' && offered == offered' + Group(hypo)
      requires bestScore == if bestScore'.At? && hypo.total <= bestScore'.score then bestScore' else At(hypo.total)
      requires forall x :: x in offered' ==> bestScore'.At? && x.total <= bestScore'.score
      requires (bestScore'.At? ==> exists k :: k in hypos' && hypos'[k].total == bestScore'.score)
               || (bestScore'.At? && hypo.total > bestScore'.score)
      requires Winner(hypo)
      ensures Bounded() && HoldsBest()
    {
      assert hypos[hypo.key] == hypo;
      if bestScore == bestScore' && bestScore'.At? && hypo.total <= bestScore'.score {
        var k :| k in hypos' && hypos'[k].total == bestScore'.score;
        assert k in hypos && hypos[k].total == bestScore.score;
      }
    }

    lemma WorstMeans(members: map<int, Hypothesis>, all: set<Hypothesis>)
      requires BeamIsWorst() && CoverageWorst(members, all)
      ensures !pruned ==> worstScore == if bestScore.At? then At(bestScore.score + beamWidth) else MinusInfinity
      ensures !pruned ==>
                if kind.Normal? && kind.minHypoStackDiversity == 1 then WorstByCoverage(members, all, diversityWorstScore)
                else diversityWorstScore == map[]
    {
    }

    lemma BeamFollows(hypo: Hypothesis, bestScore': Bound, worstScore': Bound)
      requires !pruned ==> worstScore' == if bestScore'.At? then At(bestScore'.score + beamWidth) else MinusInfinity
      requires bestScore == if bestScore'.At? && hypo.total <= bestScore'.score then bestScore' else At(hypo.total)
      requires worstScore == if bestScore == bestScore' then worstScore'
                             else if worstScore'.At? && hypo.total + beamWidth <= worstScore'.score then worstScore'
                             else At(hypo.total + beamWidth)
      ensures BeamIsWorst()
    {
    }

    lemma CoverageFollows(hypo: Hypothesis, hypos': map<int, Hypothesis>, worst: map<int, real>)
      requires hypos == hypos'[hypo.key := hypo] && hypo in offered
      requires !pruned ==>
                 if kind.Normal? && kind.minHypoStackDiversity == 1 then WorstByCoverage(hypos', offered, worst) else worst == map[]
      requires diversityWorstScore ==
                 if kind.Normal? && kind.minHypoStackDiversity == 1
                    && !(hypo.coverage in worst && hypo.total <= worst[hypo.coverage])
                 then worst[hypo.coverage := hypo.total] else worst
      ensures CoverageWorst(hypos, offered)
    {
    }

    /** Remove: a member is erased and freed with its arcs. */
    method Remove(k: int)
      requires Partition() && k in hypos
      modifies this`hypos, this`freed
      ensures Partition() && hypos == old(hypos) - {k} && freed == old(freed) + Group(old(hypos)[k])
    {
      assert MemberOk(k);
      freed := freed + Group(hypos[k]);
      hypos := hypos - {k};
      forall j: int | j in hypos ensures MemberOk(j) { assert old(MemberOk(j)); }
      forall x | x in offered ensures x in freed <==> !Owned(x) {
        assert old(x in freed <==> !Owned(x));
        assert x.key in old(hypos) ==> old(MemberOk(x.key));
      }
    }

    /** AddArc to the better hypothesis and Detach of the worse one: its group changes hands. */
    method DetachTo(hypo: Hypothesis, existing: Hypothesis)
      requires Partition() && hypo.key in hypos && hypos[hypo.key] == existing && hypo !in offered && hypo.arcList == []
      requires existing.total < hypo.total
      modifies this`hypos, this`offered, hypo`arcList, existing`arcList
      ensures Partition() && hypos == old(hypos) - {hypo.key} && offered == old(offered) - old(Group(existing))
      ensures Winner(hypo) && Group(hypo) == {hypo} + old(Group(existing)) && Group(hypo) !! offered
      ensures hypo.arcList == old(existing.arcList) + [existing]
    {
      var k := hypo.key;
      assert MemberOk(k);
      ghost var group := Group(existing);
      hypo.AddArc(existing);
      hypos := hypos - {k};
      offered := offered - group;
      forall j: int | j in hypos ensures MemberOk(j) {
        assert old(MemberOk(j));
        forall a | a in hypos[j].arcList ensures a in offered { assert a.key == j; }
      }
      forall x | x in offered ensures x in freed <==> !Owned(x) {
        assert old(x in freed <==> !Owned(x));
        assert x.key in old(hypos) ==> old(MemberOk(x.key));
      }
      forall x | x in freed ensures x in offered { assert old(x in freed <==> !Owned(x)); }
      assert Winner(hypo) && Group(hypo) == {hypo} + group;
    }

    /** FREEHYPO of the hypothesis that is being offered. */
    method Discard(hypo: Hypothesis)
      requires Valid() && hypo !in offered && bestScore.At? && hypo.total <= bestScore.score
      modifies this`offered, this`freed
      ensures Valid() && offered == old(offered) + {hypo} && freed == old(freed) + {hypo}
    {
      offered, freed := offered + {hypo}, freed + {hypo};
      forall k: int | k in hypos ensures MemberOk(k) { assert old(MemberOk(k)); }
      forall x | x in offered ensures x in freed <==> !Owned(x) {
        if x in old(offered) { assert old(x in freed <==> !Owned(x)); }
        assert x.key in hypos ==> old(MemberOk(x.key));
      }
    }

    /** AddArc of the hypothesis that is being offered to the better one of its class. */
    method AddLoser(hypo: Hypothesis, existing: Hypothesis)
      requires Valid() && hypo !in offered && hypo.arcList == []
      requires hypo.key in hypos && hypos[hypo.key] == existing && hypo.total <= existing.total
      modifies this`offered, existing`arcList, hypo`arcList
      ensures Valid() && offered == old(offered) + {hypo}
      ensures existing.arcList == old(existing.arcList) + [hypo]
    {
      assert MemberOk(hypo.key);
      existing.AddArc(hypo);
      offered := offered + {hypo};
      forall k: int | k in hypos ensures MemberOk(k) { assert old(MemberOk(k)); }
      forall x | x in offered ensures x in freed <==> !Owned(x) {
        if x in old(offered) { assert old(x in freed <==> !Owned(x)); }
        assert x.key in hypos ==> old(MemberOk(x.key));
      }
    }

    /** A better hypothesis takes the place of the one of its class. */
    method Replace(hypo: Hypothesis, existing: Hypothesis)
      requires Valid() && hypo !in offered && hypo.arcList == []
      requires hypo.key in hypos && hypos[hypo.key] == existing && hypo.total > existing.total
      modifies this, hypo`arcList, existing`arcList
      ensures Valid() && offered == old(offered) + {hypo} && old(freed) <= freed
      ensures forall k :: k in hypos ==> k in old(hypos) && hypos[k] == old(hypos)[hypo.key := hypo][k]
      ensures nBestIsEnabled ==> hypo.arcList == old(existing.arcList) + [existing]
      ensures !nBestIsEnabled ==> hypo.arcList == [] && old(Group(existing)) <= freed
      ensures |old(hypos).Keys| <= ToleratedSize() ==> hypos == old(hypos)[hypo.key := hypo]
      ensures pruned <==> old(pruned) || |old(hypos).Keys| > ToleratedSize()
    {
      hide *;
      Parts();
      AllBounded();
      BestAfter(hypo, existing);
      GroupOffered(hypo.key);
      if nBestIsEnabled {
        DetachTo(hypo, existing);
      } else {
        Alone(hypo);
        Remove(hypo.key);
      }
      MayEnterAgain(hypo, old(hypos), old(offered));
      AddNew(hypo);
      SameKeys(old(hypos), hypo);
    }

    lemma AllBounded()
      requires Valid()
      ensures forall x :: x in offered ==> bestScore.At? && x.total <= bestScore.score
    {
    }

    lemma Alone(hypo: Hypothesis)
      requires hypo.arcList == []
      ensures Winner(hypo) && Group(hypo) == {hypo}
    {
    }

    lemma SameKeys(before: map<int, Hypothesis>, hypo: Hypothesis)
      requires hypo.key in before
      ensures (before - {hypo.key})[hypo.key := hypo] == before[hypo.key := hypo]
      ensures before[hypo.key := hypo].Keys == before.Keys
    {
    }

    lemma GroupOffered(k: int)
      requires Valid() && k in hypos
      ensures Group(hypos[k]) <= offered
    {
      assert MemberOk(k);
    }

    /** Without the worse one the best score is still held, unless the better one beats it. */
    lemma BestAfter(hypo: Hypothesis, existing: Hypothesis)
      requires Valid() && hypo.key in hypos && hypos[hypo.key] == existing && hypo.total > existing.total
      ensures bestScore.At? && ((exists k :: k in hypos && k != hypo.key && hypos[k].total == bestScore.score) || hypo.total > bestScore.score)
    {
      assert MemberOk(hypo.key);
    }

    lemma MayEnterAgain(hypo: Hypothesis, before: map<int, Hypothesis>, all: set<Hypothesis>)
      requires maxHypoStackSize > 0 && beamWidth < 0.0 && Partition() && WorstBelowBest() && hypo !in all && offered <= all
      requires BeamIsWorst() && CoverageWorst(before, all) && all <= offered + Group(hypo)
      requires bestScore.At? && forall x :: x in all ==> x.total <= bestScore.score
      requires (exists k :: k in before && k != hypo.key && before[k].total == bestScore.score) || hypo.total > bestScore.score
      requires hypos == before - {hypo.key}
      requires Winner(hypo) && Group(hypo) !! offered
      ensures MayEnter(hypo)
    {
      if hypo.total <= bestScore.score {
        var k :| k in before && k != hypo.key && before[k].total == bestScore.score;
        assert k in hypos;
      }
    }

    /** Too bad for the stack, and for its coverage. */
    predicate TooBad(hypo: Hypothesis)
      reads this`worstScore, this`diversityWorstScore
    {
      && worstScore.At? && hypo.total < worstScore.score
      && !(kind.Normal? && kind.minHypoStackDiversity > 0
           && (hypo.coverage !in diversityWorstScore || hypo.total >= diversityWorstScore[hypo.coverage]))
    }

    /** Whether the coverage guarantees a place: none of its hypotheses is noted as the worst, or a worse one is. */
    ghost predicate Guaranteed(hypo: Hypothesis)
      reads this`diversityWorstScore
    {
      && kind.Normal? && kind.minHypoStackDiversity > 0
      && (hypo.coverage !in diversityWorstScore || diversityWorstScore[hypo.coverage] <= hypo.total)
    }

    /** Inside the beam of the best score. */
    ghost predicate InBeam(hypo: Hypothesis)
      reads this`bestScore
    {
      bestScore.At? ==> bestScore.score + beamWidth <= hypo.total
    }

    /** The number of hypotheses at which the stack is cut down: twice its size less one, and more by the diversity times
        two to the power of the distortion limit. */
    ghost predicate Overfull(members: map<int, Hypothesis>) {
      |members.Keys| > 2 * maxHypoStackSize - 1
        + if kind.Normal? && kind.minHypoStackDiversity > 0 then kind.minHypoStackDiversity * Pow2(kind.maxDistortion) else 0
    }

    /** AddPrune: true exactly for a hypothesis of a new class that is not too bad.  As long as nothing has been
        pruned, the good ones are those inside the beam, and those that their coverage guarantees a place; they are in the
        stack afterwards, alone for their class or in the place of a worse one, unless the stack has become overfull. */
    method AddPrune(hypo: Hypothesis) returns (added: bool)
      requires Valid() && hypo !in offered && hypo.arcList == []
      modifies this, hypo`arcList, offered`arcList
      ensures Valid() && offered == old(offered) + {hypo} && old(freed) <= freed
      ensures added <==> !old(TooBad(hypo)) && hypo.key !in old(hypos)
      ensures !old(pruned) ==> (old(TooBad(hypo)) <==> !old(InBeam(hypo)) && !old(Guaranteed(hypo)))
      ensures old(TooBad(hypo)) ==> hypos == old(hypos) && freed == old(freed) + {hypo} && pruned == old(pruned)
      ensures forall k :: k in hypos ==> k in old(hypos)[hypo.key := hypo] && (hypos[k] == hypo || (k in old(hypos) && hypos[k] == old(hypos)[k]))
      ensures !old(TooBad(hypo)) && (hypo.key in old(hypos) ==> hypo.total > old(hypos)[hypo.key].total) ==>
                (pruned <==> old(pruned) || Overfull(old(hypos)[hypo.key := hypo]))
                && (!Overfull(old(hypos)[hypo.key := hypo]) ==> hypos == old(hypos)[hypo.key := hypo])
      ensures !old(TooBad(hypo)) && hypo.key in old(hypos) && hypo.total > old(hypos)[hypo.key].total ==>
                if nBestIsEnabled then hypo.arcList == old(hypos[hypo.key].arcList) + [old(hypos)[hypo.key]]
                else hypo.arcList == [] && old(Group(hypos[hypo.key])) <= freed
      ensures !old(TooBad(hypo)) && hypo.key in old(hypos) && hypo.total <= old(hypos)[hypo.key].total ==>
                hypos == old(hypos) && pruned == old(pruned)
                && if nBestIsEnabled then freed == old(freed) && hypos[hypo.key].arcList == old(hypos[hypo.key].arcList) + [hypo]
                   else freed == old(freed) + {hypo} && hypos[hypo.key].arcList == old(hypos[hypo.key].arcList)
    {
      hide Valid, Partition, Bounded, HoldsBest, WorstBelowBest, BeamIsWorst, CoverageWorst, WorstByCoverage, Winner, Group;
      WorstOfOpen();
      if TooBad(hypo) {
        Discard(hypo);
        return false;
      }
      if hypo.key !in hypos {
        AloneIn(hypo);
        AddNew(hypo);
        return true;
      }
      var existing := hypos[hypo.key];
      GroupOffered(hypo.key);
      MemberOffered(hypo.key);
      SameKeys(hypos, hypo);
      if hypo.total > existing.total {
        Replace(hypo, existing);
      } else if nBestIsEnabled {
        AddLoser(hypo, existing);
      } else {
        Discard(hypo);
      }
      added := false;
    }

    lemma WorstOfOpen()
      requires Valid()
      ensures !pruned ==> worstScore == if bestScore.At? then At(bestScore.score + beamWidth) else MinusInfinity
      ensures maxHypoStackSize > 0 && (worstScore.At? ==> bestScore.At? && worstScore.score <= bestScore.score)
      ensures forall x :: x in offered ==> bestScore.At? && x.total <= bestScore.score
    {
    }

    lemma MemberOffered(k: int)
      requires Valid() && k in hypos
      ensures hypos[k] in offered
    {
      assert MemberOk(k);
    }

    lemma AloneIn(hypo: Hypothesis)
      requires Valid() && hypo !in offered && hypo.arcList == [] && hypo.key !in hypos
      ensures MayEnter(hypo) && Group(hypo) == {hypo}
    {
    }

    /** Whatever was offered and in which order: nothing beats the best member, classes are never doubled, and
        every hypothesis is in one place. */
    lemma NeverLoses(x: Hypothesis)
      requires Valid() && x in offered
      ensures exists k :: k in hypos && hypos[k].key == k && x.total <= hypos[k].total
      ensures x in freed <==> !(x.key in hypos && (x == hypos[x.key] || x in hypos[x.key].arcList))
      ensures x !in freed ==> forall k :: k in hypos && k != x.key ==> x != hypos[k] && x !in hypos[k].arcList
      ensures x !in freed ==> x.total <= hypos[x.key].total
    {
      var b :| b in hypos && hypos[b].total == bestScore.score;
      assert MemberOk(b) && (x.key in hypos ==> MemberOk(x.key));
      assert x in freed <==> !Owned(x);
      forall k | k in hypos && k != x.key ensures x != hypos[k] && x !in hypos[k].arcList { assert MemberOk(k); }
    }
  }
}
