/** Exact line search over all sentences (mert/Optimizer.cpp, AddThreshold and LineOptimize). */
module LineSearch {
  import opened Envelope
  import Scorer

  type Diff = Scorer.Diff

  /** One element of the threshold map: where something changes, and what. */
  datatype Entry = Entry(x: real, diffs: seq<Diff>)

  // ---------------------------------------------------------------- the map as a function of the envelopes

  /** The change of sentence s at x among its first n changes, if any. */
  function DiffOf(s: nat, changes: seq<Change>, n: nat, x: real): seq<Diff>
    requires n <= |changes|
  {
    if n == 0 then []
    else if changes[n - 1].x == x then [(s, changes[n - 1].best)]
    else DiffOf(s, changes, n - 1, x)
  }

  /** The changes of the first n sentences at x, in sentence order. */
  function DiffsAt(per: seq<seq<Change>>, n: nat, x: real): seq<Diff>
    requires n <= |per|
  {
    if n == 0 then [] else DiffsAt(per, n - 1, x) + DiffOf(n - 1, per[n - 1], |per[n - 1]|, x)
  }

  ghost predicate HasKey(thr: seq<Entry>, x: real) {
    exists k :: 0 <= k < |thr| && thr[k].x == x
  }

  /** Named so that the order of two keys is only looked up where it is asked for. */
  ghost predicate Ordered(thr: seq<Entry>, i: nat, j: nat)
    requires i < |thr| && j < |thr|
  {
    thr[i].x < thr[j].x
  }

  ghost predicate Sorted(thr: seq<Entry>) {
    forall i: nat, j: nat :: i < j < |thr| ==> Ordered(thr, i, j)
  }

  lemma KeyOrder(thr: seq<Entry>, i: nat, j: nat)
    requires Sorted(thr) && i < |thr| && j < |thr|
    ensures thr[i].x < thr[j].x <==> i < j
  {
    if i < j { assert Ordered(thr, i, j); }
    if j < i { assert Ordered(thr, j, i); }
  }

  /** Every entry of the map carries exactly the diffs of its threshold. */
  ghost predicate EntriesOf(thr: seq<Entry>, per: seq<seq<Change>>) {
    forall k :: 0 <= k < |thr| ==> thr[k].diffs == DiffsAt(per, |per|, thr[k].x)
  }

  /** Only the first entry may be empty. */
  ghost predicate Filled(thr: seq<Entry>) {
    forall k :: 0 < k < |thr| ==> thr[k].diffs != []
  }

  /** The threshold map holds exactly the changes of the sentences seen so far. */
  ghost predicate MapOf(thr: seq<Entry>, per: seq<seq<Change>>) {
    && thr != [] && thr[0] == Entry(MIN_FLOAT, []) && Sorted(thr)
    && EntriesOf(thr, per) && Filled(thr)
    && (forall s :: 0 <= s < |per| ==> KeysOf(thr, per[s]))
  }

  /** Every change is a key of the map. */
  ghost predicate KeysOf(thr: seq<Entry>, changes: seq<Change>) {
    forall t :: 0 <= t < |changes| ==> HasKey(thr, changes[t].x)
  }

  lemma {:induction false} DiffOfAbsent(s: nat, changes: seq<Change>, n: nat, x: real)
    requires n <= |changes| && forall t :: 0 <= t < n ==> changes[t].x != x
    ensures DiffOf(s, changes, n, x) == []
  {
    if n > 0 { DiffOfAbsent(s, changes, n - 1, x); }
  }

  lemma {:induction false} DiffOfPrefix(s: nat, changes: seq<Change>, last: Change, n: nat, x: real)
    requires n <= |changes|
    ensures DiffOf(s, changes + [last], n, x) == DiffOf(s, changes, n, x)
  {
    if n > 0 { DiffOfPrefix(s, changes, last, n - 1, x); }
  }

  lemma {:induction false} DiffsAtPrefix(per: seq<seq<Change>>, own: seq<Change>, n: nat, x: real)
    requires n <= |per|
    ensures DiffsAt(per + [own], n, x) == DiffsAt(per, n, x)
    ensures forall j :: 0 <= j < |DiffsAt(per, n, x)| ==> DiffsAt(per, n, x)[j].0 < n
  {
    if n > 0 {
      DiffsAtPrefix(per, own, n - 1, x);
      DiffOfSentence(n - 1, per[n - 1], |per[n - 1]|, x);
    }
  }

  lemma {:induction false} DiffOfSentence(s: nat, changes: seq<Change>, n: nat, x: real)
    requires n <= |changes|
    ensures |DiffOf(s, changes, n, x)| <= 1
    ensures forall j :: 0 <= j < |DiffOf(s, changes, n, x)| ==> DiffOf(s, changes, n, x)[j].0 == s
  {
    if n > 0 { DiffOfSentence(s, changes, n - 1, x); }
  }

  /** Appending a change to the last sentence appends one diff at its own threshold and nothing else. */
  lemma DiffsAtAppend(per: seq<seq<Change>>, own: seq<Change>, last: Change, x: real)
    requires forall t :: 0 <= t < |own| ==> own[t].x < last.x
    ensures DiffsAt(per + [own + [last]], |per| + 1, x)
         == DiffsAt(per + [own], |per| + 1, x) + if x == last.x then [(|per|, last.best)] else []
  {
    var more := own + [last];
    DiffsAtPrefix(per, own, |per|, x);
    DiffsAtPrefix(per, more, |per|, x);
    DiffOfPrefix(|per|, own, last, |own|, x);
    assert DiffOf(|per|, more, |more|, x) == if last.x == x then [(|per|, last.best)] else DiffOf(|per|, more, |own|, x);
    if x == last.x { DiffOfAbsent(|per|, own, |own|, x); }
  }

  /** Starting a new sentence changes nothing. */
  lemma MapOfNewSentence(thr: seq<Entry>, per: seq<seq<Change>>)
    requires MapOf(thr, per)
    ensures MapOf(thr, per + [[]])
  {
    forall k | 0 <= k < |thr| ensures thr[k].diffs == DiffsAt(per + [[]], |per| + 1, thr[k].x) {
      DiffsAtPrefix(per, [], |per|, thr[k].x);
    }
  }

  /** std::map::lower_bound on the keys. */
  method LowerBound(thr: seq<Entry>, x: real) returns (p: nat)
    requires Sorted(thr)
    ensures p <= |thr| && (forall k :: 0 <= k < p ==> thr[k].x < x) && (forall k :: p <= k < |thr| ==> x <= thr[k].x)
  {
    p := 0;
    while p < |thr| && thr[p].x < x
      invariant p <= |thr| && forall k :: 0 <= k < p ==> thr[k].x < x
    {
      p := p + 1;
    }
    forall k | p <= k < |thr| ensures x <= thr[k].x {
      KeyOrder(thr, k, p);
    }
  }

  /** A diff joins the diffs of its threshold; one of the same sentence at the end is overwritten. */
  function Join(diffs: seq<Diff>, d: Diff): seq<Diff> {
    if diffs != [] && diffs[|diffs| - 1].0 == d.0 then diffs[|diffs| - 1 := d] else diffs + [d]
  }

  /** What AddThreshold does to the map: one diff is joined at newt. */
  ghost predicate Added(thr: seq<Entry>, thr': seq<Entry>, newt: real, newdiff: Diff)
    requires thr != []
  {
    && thr' != [] && thr'[0] == thr[0] && Sorted(thr')
    && (forall k :: 0 <= k < |thr'| && thr'[k].x != newt ==> thr'[k] in thr)
    && (forall k :: 0 <= k < |thr'| && thr'[k].x == newt ==>
          (exists j :: 0 <= j < |thr| && thr[j].x == newt && thr'[k].diffs == Join(thr[j].diffs, newdiff))
          || (!HasKey(thr, newt) && thr'[k].diffs == [newdiff]))
    && HasKey(thr', newt) && (forall k :: 0 <= k < |thr| ==> HasKey(thr', thr[k].x))
  }

  /** AddThreshold; only the entry for minus infinity may have no diffs. */
  method AddThreshold(thr: seq<Entry>, newt: real, newdiff: Diff) returns (thr': seq<Entry>)
    requires thr != [] && Sorted(thr) && thr[0].x < newt
    requires forall k :: 0 < k < |thr| ==> thr[k].diffs != []
    ensures Added(thr, thr', newt, newdiff)
  {
    var p := LowerBound(thr, newt);
    if p < |thr| && thr[p].x == newt {
      var diffs := thr[p].diffs;
      if diffs[|diffs| - 1].0 == newdiff.0 {
        diffs := diffs[|diffs| - 1 := newdiff];
      } else {
        diffs := diffs + [newdiff];
      }
      thr' := thr[p := Entry(newt, diffs)];
      ReplacedIsAdded(thr, thr', p, newt, newdiff);
    } else {
      thr' := thr[..p] + [Entry(newt, [newdiff])] + thr[p..];
      forall k | p <= k < |thr| ensures newt < thr[k].x { KeyOrder(thr, p, k); }
      InsertedIsAdded(thr, thr', p, newt, newdiff);
    }
  }

  lemma ReplacedIsAdded(thr: seq<Entry>, thr': seq<Entry>, p: nat, newt: real, newdiff: Diff)
    requires Sorted(thr) && 0 < p < |thr| && thr[p].x == newt
    requires thr' == thr[p := Entry(newt, Join(thr[p].diffs, newdiff))]
    ensures Added(thr, thr', newt, newdiff)
  {
    assert thr'[p].x == newt;
    forall i: nat, j: nat | i < j < |thr'| ensures Ordered(thr', i, j) { assert Ordered(thr, i, j); }
    forall k | 0 <= k < |thr'| && thr'[k].x == newt ensures k == p { KeyOrder(thr, k, p); KeyOrder(thr, p, k); }
    forall k | 0 <= k < |thr| ensures HasKey(thr', thr[k].x) { assert thr'[k].x == thr[k].x; }
    forall k | 0 <= k < |thr'| && thr'[k].x != newt ensures thr'[k] in thr { assert thr'[k] == thr[k]; }
  }

  lemma SortedAfterInsert(thr: seq<Entry>, p: nat, e: Entry)
    requires Sorted(thr) && p <= |thr|
    requires (forall k :: 0 <= k < p ==> thr[k].x < e.x) && forall k :: p <= k < |thr| ==> e.x < thr[k].x
    ensures Sorted(thr[..p] + [e] + thr[p..])
  {
    var more := thr[..p] + [e] + thr[p..];
    forall i: nat, j: nat | i < j < |more| ensures Ordered(more, i, j) {
      if i != p && j != p { KeyOrder(thr, if i < p then i else i - 1, if j < p then j else j - 1); }
    }
  }

  lemma InsertedIsAdded(thr: seq<Entry>, thr': seq<Entry>, p: nat, newt: real, newdiff: Diff)
    requires Sorted(thr) && 0 < p <= |thr|
    requires (forall k :: 0 <= k < p ==> thr[k].x < newt) && forall k :: p <= k < |thr| ==> newt < thr[k].x
    requires thr' == thr[..p] + [Entry(newt, [newdiff])] + thr[p..]
    ensures Added(thr, thr', newt, newdiff)
  {
    SortedAfterInsert(thr, p, Entry(newt, [newdiff]));
    assert thr'[p].x == newt;
    forall k | 0 <= k < |thr| ensures HasKey(thr', thr[k].x) {
      assert thr'[if k < p then k else k + 1] == thr[k];
    }
    forall k | 0 <= k < |thr'| && k != p ensures thr'[k] in thr && thr'[k].x != newt {
      assert thr'[k] == thr[if k < p then k else k - 1];
    }
  }

  /** Adding the next change of the last sentence keeps the map in step with the envelopes. */
  lemma MapOfAppend(thr: seq<Entry>, thr': seq<Entry>, per: seq<seq<Change>>, own: seq<Change>, last: Change)
    requires MapOf(thr, per + [own]) && MIN_FLOAT < last.x
    requires forall t :: 0 <= t < |own| ==> own[t].x < last.x
    requires Added(thr, thr', last.x, (|per|, last.best))
    ensures MapOf(thr', per + [own + [last]])
  {
    if !HasKey(thr, last.x) { NoKeyNoDiffs(thr, per + [own], |per| + 1, last.x); }
    forall k | 0 <= k < |thr'| ensures thr'[k].diffs == DiffsAt(per + [own + [last]], |per| + 1, thr'[k].x) {
      EntryOfAppend(thr, thr', per, own, last, k);
    }
    forall k | 0 < k < |thr'| ensures thr'[k].diffs != [] {
      FilledAfterAdd(thr, thr', last.x, (|per|, last.best), k);
    }
    KeysOfAppend(thr, thr', per, own, last);
  }

  /** Right of all changes of its last sentence, a threshold has only diffs of earlier sentences. */
  lemma DiffsAtOlder(per: seq<seq<Change>>, own: seq<Change>, x: real)
    requires forall t :: 0 <= t < |own| ==> own[t].x != x
    ensures Scorer.Within(DiffsAt(per + [own], |per| + 1, x), |per|)
  {
    DiffsAtPrefix(per, own, |per|, x);
    DiffOfAbsent(|per|, own, |own|, x);
    assert DiffsAt(per + [own], |per| + 1, x) == DiffsAt(per, |per|, x) + [];
  }

  /** An entry at another threshold is an old one, and the new change does not concern it. */
  lemma OtherEntry(thr: seq<Entry>, per: seq<seq<Change>>, own: seq<Change>, last: Change, e: Entry)
    requires e in thr && EntriesOf(thr, per + [own]) && e.x != last.x
    requires forall t :: 0 <= t < |own| ==> own[t].x < last.x
    ensures e.diffs == DiffsAt(per + [own + [last]], |per| + 1, e.x)
  {
    DiffsAtAppend(per, own, last, e.x);
  }

  /** The entry at the new threshold gains the new diff. */
  lemma JoinedEntry(thr: seq<Entry>, per: seq<seq<Change>>, own: seq<Change>, last: Change, e: Entry)
    requires e in thr && EntriesOf(thr, per + [own]) && e.x == last.x
    requires forall t :: 0 <= t < |own| ==> own[t].x < last.x
    ensures Join(e.diffs, (|per|, last.best)) == DiffsAt(per + [own + [last]], |per| + 1, last.x)
  {
    DiffsAtAppend(per, own, last, last.x);
    DiffsAtOlder(per, own, last.x);
  }

  lemma EntryOfAppend(thr: seq<Entry>, thr': seq<Entry>, per: seq<seq<Change>>, own: seq<Change>, last: Change, k: nat)
    requires thr != [] && EntriesOf(thr, per + [own])
    requires !HasKey(thr, last.x) ==> DiffsAt(per + [own], |per| + 1, last.x) == []
    requires forall t :: 0 <= t < |own| ==> own[t].x < last.x
    requires Added(thr, thr', last.x, (|per|, last.best)) && k < |thr'|
    ensures thr'[k].diffs == DiffsAt(per + [own + [last]], |per| + 1, thr'[k].x)
  {
    if thr'[k].x != last.x {
      OtherEntry(thr, per, own, last, thr'[k]);
    } else if HasKey(thr, last.x) {
      var j :| 0 <= j < |thr| && thr[j].x == last.x && thr'[k].diffs == Join(thr[j].diffs, (|per|, last.best));
      JoinedEntry(thr, per, own, last, thr[j]);
    } else {
      DiffsAtAppend(per, own, last, last.x);
    }
  }

  lemma FilledAfterAdd(thr: seq<Entry>, thr': seq<Entry>, newt: real, newdiff: Diff, k: nat)
    requires thr != [] && Filled(thr) && Added(thr, thr', newt, newdiff) && 0 < k < |thr'|
    ensures thr'[k].diffs != []
  {
    KeyOrder(thr', 0, k);
  }

  lemma KeysOfAppend(thr: seq<Entry>, thr': seq<Entry>, per: seq<seq<Change>>, own: seq<Change>, last: Change)
    requires forall s :: 0 <= s < |per + [own]| ==> KeysOf(thr, (per + [own])[s])
    requires HasKey(thr', last.x) && forall k :: 0 <= k < |thr| ==> HasKey(thr', thr[k].x)
    ensures forall s :: 0 <= s < |per| + 1 ==> KeysOf(thr', (per + [own + [last]])[s])
  {
    var before, after := per + [own], per + [own + [last]];
    forall s | 0 <= s < |after| ensures KeysOf(thr', after[s]) {
      assert KeysOf(thr, before[s]);
      forall t | 0 <= t < |after[s]| ensures HasKey(thr', after[s][t].x) {
        if s < |per| || t < |own| {
          assert HasKey(thr, before[s][t].x);
        }
      }
    }
  }

  lemma {:induction false} NoKeyNoDiffs(thr: seq<Entry>, per: seq<seq<Change>>, n: nat, x: real)
    requires n <= |per| && !HasKey(thr, x)
    requires forall s :: 0 <= s < |per| ==> KeysOf(thr, per[s])
    ensures DiffsAt(per, n, x) == []
  {
    if n > 0 {
      NoKeyNoDiffs(thr, per, n - 1, x);
      var changes := per[n - 1];
      assert KeysOf(thr, changes);
      forall t | 0 <= t < |changes| ensures changes[t].x != x {
        assert HasKey(thr, changes[t].x);
      }
      DiffOfAbsent(n - 1, changes, |changes|, x);
    }
  }

  // ---------------------------------------------------------------- one sentence

  /** At x the candidate takes over from a flatter one. */
  ghost predicate TakesOver(n: nat, above: Above, cand: nat, x: real) {
    exists i: nat :: i < n && Crosses(above, i, cand, x)
  }

  /** The candidate is best from x to y, which are closer than MIN_INT, and nowhere else. */
  ghost predicate BriefBest(n: nat, above: Above, cand: nat, x: real, y: real) {
    && x < y < x + MIN_INT && BestAt(n, above, cand, x) && BestAt(n, above, cand, y)
    && forall z: real :: BestAt(n, above, cand, z) ==> x <= z <= y
  }

  /** Some candidate is best on an interval shorter than MIN_INT only. */
  ghost predicate HasBriefBest(n: nat, above: Above) {
    exists cand: nat, x: real, y: real :: BriefBest(n, above, cand, x, y)
  }

  /** Two changes closer than MIN_INT enclose such an interval. */
  lemma CloseChanges(lines: seq<Line>, above: Above, order: seq<nat>, g: nat, first: nat, own: seq<Change>, next: nat, x: real)
    requires Preorder(|lines|, above) && Steepness(lines, above) && Walk(lines, above, order, g, first, own)
    requires own != [] && NextFacts(lines, above, order[g], next, x) && x - own[|own| - 1].x < MIN_INT
    ensures HasBriefBest(|lines|, above)
  {
    var cur, last := order[g], own[|own| - 1].x;
    WalkStep(lines, above, first, own, cur, next, x);
    var i: nat :| i < |lines| && Crosses(above, i, cur, last);
    assert BestAt(|lines|, above, cur, last) && BestAt(|lines|, above, cur, x);
    forall z: real | BestAt(|lines|, above, cur, z) ensures last <= z <= x {
      assert above(cur, i, z) && above(cur, next, z);
    }
    assert BriefBest(|lines|, above, cur, last, x);
  }

  /** At every change the next candidate, which is steeper, crosses the one before. */
  ghost predicate Bends(above: Above, first: nat, own: seq<Change>) {
    forall t :: 0 <= t < |own| ==> Crosses(above, BestIn(first, own, t), own[t].best, own[t].x)
  }

  /** No two changes are closer than MIN_INT. */
  ghost predicate Spread(own: seq<Change>) {
    forall t :: 0 < t < |own| ==> own[t].x - own[t - 1].x >= MIN_INT
  }

  /** Two lines that meet twice are one. */
  lemma SameLine(lines: seq<Line>, above: Above, i: nat, j: nat, u: real, v: real)
    requires Exact(lines, above) && i < |lines| && j < |lines| && u < v
    requires above(i, j, u) && above(j, i, u) && above(i, j, v) && above(j, i, v)
    ensures forall z: real :: above(i, j, z) && above(j, i, z)
  {
    assert Value(lines, i, u) == Value(lines, j, u) && Value(lines, i, v) == Value(lines, j, v);
    MeetTwice(lines[i], lines[j], u, v);
    forall z: real ensures above(i, j, z) && above(j, i, z) {
      assert Value(lines, i, z) == Value(lines, j, z);
    }
  }

  lemma MeetTwice(p: Line, q: Line, u: real, v: real)
    requires u < v && p.b + u * p.m == q.b + u * q.m && p.b + v * p.m == q.b + v * q.m
    ensures p == q
  {
    assert (v - u) * (p.m - q.m) == 0.0;
    if p.m < q.m { SignOfProduct(v - u, q.m - p.m); }
    if q.m < p.m { SignOfProduct(v - u, p.m - q.m); }
  }

  lemma {:induction false} IntervalRightOf(changes: seq<Change>, n: nat, x: real) returns (t: nat)
    requires Increasing(changes) && n <= |changes| && (n < |changes| ==> x < changes[n].x)
    ensures RightOf(changes, t, x)
  {
    t := n;
    if n > 0 && x < changes[n - 1].x { t := IntervalRightOf(changes, n - 1, x); }
  }

  /** What is best at both ends of an interval is best inside. */
  lemma BestInside(lines: seq<Line>, above: Above, cand: nat, x: real, v: real, y: real)
    requires Steepness(lines, above) && x <= v <= y && BestAt(|lines|, above, cand, x) && BestAt(|lines|, above, cand, y)
    ensures BestAt(|lines|, above, cand, v)
  {
    forall j: nat | j < |lines| ensures above(cand, j, v) {
      assert above(cand, j, x) && above(cand, j, y);
    }
  }

  /** Two candidates that are best at the same two places are best at the same places. */
  lemma BestTogether(lines: seq<Line>, above: Above, i: nat, j: nat, u: real, v: real, z: real)
    requires Exact(lines, above) && u < v && BestAt(|lines|, above, j, z)
    requires BestAt(|lines|, above, i, u) && BestAt(|lines|, above, j, u) && BestAt(|lines|, above, i, v) && BestAt(|lines|, above, j, v)
    ensures BestAt(|lines|, above, i, z)
  {
    ExactIsPreorder(lines, above);
    SameLine(lines, above, i, j, u, v);
    forall k: nat | k < |lines| ensures above(i, k, z) {
      assert above(i, j, z) && above(j, k, z);
    }
  }

  /** cand is best at the ends of the interval, and nowhere outside it. */
  ghost predicate BestOn(n: nat, above: Above, cand: nat, x: real, y: real) {
    BestAt(n, above, cand, x) && BestAt(n, above, cand, y) && forall z: real :: BestAt(n, above, cand, z) ==> x <= z <= y
  }

  /** The candidate of the walk that is best to the right of x shares the interval. */
  lemma WalkSharesInterval(lines: seq<Line>, above: Above, first: nat, own: seq<Change>, cand: nat, x: real, y: real, t: nat)
    requires Exact(lines, above) && IsEnvelope(|lines|, above, first, own) && x < y && BestOn(|lines|, above, cand, x, y)
    requires RightOf(own, t, x)
    ensures BestOn(|lines|, above, BestIn(first, own, t), x, y)
  {
    ExactIsSteep(lines, above);
    var r := BestIn(first, own, t);
    var v := if t < |own| && own[t].x < y then own[t].x else y;
    assert Settled(|lines|, above, first, own, t);
    assert InInterval(own, t, x) && InInterval(own, t, v);
    BestInside(lines, above, cand, x, v, y);
    hide Exact, Steepness, IsEnvelope, Settled, BestAt;
    BestTogether(lines, above, r, cand, x, v, y);
    forall z: real | BestAt(|lines|, above, r, z) ensures x <= z <= y { BestTogether(lines, above, cand, r, x, v, z); }
  }

  /** A candidate that is best on a finite interval only is best between two successive changes. */
  lemma BestBetweenChanges(lines: seq<Line>, above: Above, first: nat, own: seq<Change>, cand: nat, x: real, y: real) returns (t: nat)
    requires Exact(lines, above) && IsEnvelope(|lines|, above, first, own) && Bends(above, first, own)
    requires x < y && BestOn(|lines|, above, cand, x, y)
    ensures 0 < t < |own| && own[t - 1].x == x && own[t].x == y
  {
    t := IntervalRightOf(own, |own|, x);
    WalkSharesInterval(lines, above, first, own, cand, x, y, t);
    EndsOfInterval(lines, above, first, own, x, y, t);
  }

  lemma EndsOfInterval(lines: seq<Line>, above: Above, first: nat, own: seq<Change>, x: real, y: real, t: nat)
    requires IsEnvelope(|lines|, above, first, own) && Bends(above, first, own)
    requires x < y && RightOf(own, t, x) && BestOn(|lines|, above, BestIn(first, own, t), x, y)
    ensures 0 < t < |own| && own[t - 1].x == x && own[t].x == y
  {
    var r := BestIn(first, own, t);
    assert Settled(|lines|, above, first, own, t);
    hide IsEnvelope;
    var lo := if t > 0 then own[t - 1].x else x - 1.0;
    var hi := if t < |own| then own[t].x else y + 1.0;
    assert InInterval(own, t, lo) && InInterval(own, t, hi);
    assert BestAt(|lines|, above, r, lo) && BestAt(|lines|, above, r, hi);
    hide Settled;
    assert x <= lo && hi <= y;
    assert own[t].best < |lines| by { NextIsCandidate(lines, above, first, own, t); }
    assert above(r, own[t].best, y);
  }

  lemma NextIsCandidate(lines: seq<Line>, above: Above, first: nat, own: seq<Change>, t: nat)
    requires IsEnvelope(|lines|, above, first, own) && t < |own|
    ensures own[t].best < |lines|
  {
    assert Settled(|lines|, above, first, own, t + 1);
    assert t + 1 < |own| ==> own[t].x < own[t + 1].x;
    assert InInterval(own, t + 1, own[t].x);
  }

  /** With all changes apart no candidate is best on too short an interval. */
  lemma NoBriefBest(lines: seq<Line>, above: Above, first: nat, own: seq<Change>)
    requires Exact(lines, above) && IsEnvelope(|lines|, above, first, own) && Apart(above, first, own)
    ensures !HasBriefBest(|lines|, above)
  {
    hide Exact, IsEnvelope, Bends;
    forall cand: nat, x: real, y: real ensures !BriefBest(|lines|, above, cand, x, y) {
      if BriefBest(|lines|, above, cand, x, y) {
        assert BestOn(|lines|, above, cand, x, y);
        var t := BestBetweenChanges(lines, above, first, own, cand, x, y);
      }
    }
  }

  ghost predicate Apart(above: Above, first: nat, own: seq<Change>) {
    Bends(above, first, own) && Spread(own)
  }

  lemma ApartMore(above: Above, first: nat, own: seq<Change>, last: Change)
    requires Apart(above, first, own) && Crosses(above, BestIn(first, own, |own|), last.best, last.x)
    requires own != [] ==> last.x - own[|own| - 1].x >= MIN_INT
    ensures Apart(above, first, own + [last])
  {
    hide Crosses;
    var more := own + [last];
    assert Spread(more);
    forall t | 0 <= t < |more| ensures Crosses(above, BestIn(first, more, t), more[t].best, more[t].x) {
      BendsMore(above, first, own, last, t);
    }
  }

  lemma BendsMore(above: Above, first: nat, own: seq<Change>, last: Change, t: nat)
    requires Bends(above, first, own) && Crosses(above, BestIn(first, own, |own|), last.best, last.x) && t <= |own|
    ensures var more := own + [last]; Crosses(above, BestIn(first, more, t), more[t].best, more[t].x)
  {
    hide Crosses;
    if t < |own| { assert Crosses(above, BestIn(first, own, t), own[t].best, own[t].x); }
  }

  lemma ApartAtFirst(above: Above, first: nat)
    ensures Apart(above, first, [])
  {}

  /** Everything the walk knows when it stands at position g. */
  ghost predicate Walk(lines: seq<Line>, above: Above, order: seq<nat>, g: nat, first: nat, own: seq<Change>) {
    && Gradient(lines, order) && g < |order| && first < |lines|
    && order[g] == BestIn(first, own, |own|)
    && Increasing(own) && Current(lines, above, own, order[g])
    && (own != [] ==> TakesOver(|lines|, above, order[g], own[|own| - 1].x))
    && (forall t :: 0 <= t < |own| ==> Settled(|lines|, above, first, own, t))
  }

  lemma WalkAdvance(lines: seq<Line>, above: Above, order: seq<nat>, g: nat, first: nat, own: seq<Change>, leftmost: nat, x: real)
    requires Preorder(|lines|, above) && Steepness(lines, above) && Walk(lines, above, order, g, first, own)
    requires g < leftmost < |order| && MIN_FLOAT < x < MAX_FLOAT && NextFacts(lines, above, order[g], order[leftmost], x)
    ensures Walk(lines, above, order, leftmost, first, own + [Change(x, order[leftmost])])
    ensures forall t :: 0 <= t < |own| ==> own[t].x < x
  {
    var last := Change(x, order[leftmost]);
    WalkStep(lines, above, first, own, order[g], order[leftmost], x);
    assert TakesOver(|lines|, above, order[leftmost], x);
    SettledStays(|lines|, above, first, own, last);
    forall t | 0 <= t < |own| ensures own[t].x < x {
      assert t < |own| - 1 ==> own[t].x < own[|own| - 1].x;
    }
  }

  /** The walk along the envelope of one sentence, entering its changes into the threshold map.
      `merged` reports that two changes fell closer together than MIN_INT, which is so if and only if some
      candidate is best on that short an interval only; the source then merges them and the walk is given up here. */
  method SentenceThresholds(lines: seq<Line>, thr: seq<Entry>, ghost per: seq<seq<Change>>, sentence: nat, ghost above: Above)
    returns (merged: bool, first: nat, thr': seq<Entry>, ghost own: seq<Change>)
    requires lines != [] && sentence == |per| && MapOf(thr, per)
    requires Exact(lines, above) && InRange(lines, above)
    ensures !merged ==> IsEnvelope(|lines|, above, first, own) && MapOf(thr', per + [own])
    ensures merged <==> HasBriefBest(|lines|, above)
  {
    ExactIsPreorder(lines, above);
    ExactIsSteep(lines, above);
    var order := BuildGradient(lines);
    var g := LeftmostBest(lines, order);
    merged, first, thr', own := false, order[g], thr, [];
    var prev := MIN_FLOAT;
    MapOfNewSentence(thr, per);
    FirstIsCurrent(lines, above, order, g);
    ApartAtFirst(above, first);
    hide Apart, Walk, Exact, Preorder, Steepness, InRange, NextFacts, IsEnvelope, HasBriefBest, MapOf;
    while true
      invariant g < |order| && Walk(lines, above, order, g, first, own)
      invariant prev == if own == [] then MIN_FLOAT else own[|own| - 1].x
      invariant MapOf(thr', per + [own]) && Apart(above, first, own)
      decreases |order| - g
    {
      var leftmost, x := NextChange(lines, order, g, above);
      if leftmost == g {
        WalkEnds(lines, order, g, above, first, own);
        NoBriefBest(lines, above, first, own);
        return;
      }
      NextChangeFacts(lines, order, g, leftmost, x, above);
      if x - prev < MIN_INT {
        CloseChanges(lines, above, order, g, first, own, order[leftmost], x);
        merged := true;
        return;
      }
      WalkIsAt(lines, above, order, g, first, own);
      ApartMore(above, first, own, Change(x, order[leftmost]));
      thr' := Record(lines, order, g, leftmost, thr', x, sentence, per, above, first, own);
      own := own + [Change(x, order[leftmost])];
      g, prev := leftmost, x;
    }
  }

  lemma WalkIsAt(lines: seq<Line>, above: Above, order: seq<nat>, g: nat, first: nat, own: seq<Change>)
    requires g < |order| && Walk(lines, above, order, g, first, own)
    ensures order[g] == BestIn(first, own, |own|)
  {}

  lemma WalkEnds(lines: seq<Line>, order: seq<nat>, g: nat, above: Above, first: nat, own: seq<Change>)
    requires Walk(lines, above, order, g, first, own)
    requires forall p :: g < p < |order| ==> order[p] < |lines| && order[g] < |lines| && lines[order[p]].m == lines[order[g]].m
    ensures IsEnvelope(|lines|, above, first, own)
  {
    hide Settled, Current;
    LastIsSettled(lines, order, g, above, first, own);
  }

  /** Entering the change to the line at position leftmost into the map. */
  method Record(lines: seq<Line>, order: seq<nat>, ghost g: nat, leftmost: nat, thr: seq<Entry>, x: real, sentence: nat,
                ghost per: seq<seq<Change>>, ghost above: Above, ghost first: nat, ghost own: seq<Change>)
    returns (thr': seq<Entry>)
    requires sentence == |per| && MapOf(thr, per + [own]) && MIN_FLOAT < x < MAX_FLOAT
    requires Preorder(|lines|, above) && Steepness(lines, above) && Walk(lines, above, order, g, first, own)
    requires g < leftmost < |order| && NextFacts(lines, above, order[g], order[leftmost], x)
    ensures Walk(lines, above, order, leftmost, first, own + [Change(x, order[leftmost])])
    ensures MapOf(thr', per + [own + [Change(x, order[leftmost])]])
  {
    WalkAdvance(lines, above, order, g, first, own, leftmost, x);
    thr' := AddThreshold(thr, x, (sentence, order[leftmost]));
    MapOfAppend(thr, thr', per, own, Change(x, order[leftmost]));
  }

  lemma FirstIsCurrent(lines: seq<Line>, above: Above, order: seq<nat>, g: nat)
    requires Gradient(lines, order) && g < |order| && Steepness(lines, above)
    requires forall j :: 0 <= j < |lines| ==>
               lines[order[g]].m < lines[j].m || (lines[order[g]].m == lines[j].m && lines[j].b <= lines[order[g]].b)
    ensures Walk(lines, above, order, g, order[g], [])
  {
  }

  lemma LastIsSettled(lines: seq<Line>, order: seq<nat>, g: nat, above: Above, first: nat, own: seq<Change>)
    requires Gradient(lines, order) && g < |order| && Current(lines, above, own, order[g])
    requires order[g] == BestIn(first, own, |own|)
    requires forall p :: g < p < |order| ==> lines[order[p]].m == lines[order[g]].m
    ensures Settled(|lines|, above, first, own, |own|)
  {
    forall j | 0 <= j < |lines| ensures lines[j].m <= lines[order[g]].m {
      assert j in order;
      var p :| 0 <= p < |order| && order[p] == j;
      SteeperIsLater(lines, order, g, p);
    }
  }

  // ---------------------------------------------------------------- all sentences

  ghost predicate Envelopes(nbest: seq<seq<Line>>, aboves: seq<Above>, first: seq<nat>, per: seq<seq<Change>>) {
    && |first| == |per| <= |nbest| == |aboves|
    && forall s :: 0 <= s < |per| ==> IsEnvelope(|nbest[s]|, aboves[s], first[s], per[s])
  }

  ghost predicate Inputs(nbest: seq<seq<Line>>, aboves: seq<Above>) {
    && |nbest| == |aboves|
    && forall s :: 0 <= s < |nbest| ==> nbest[s] != [] && Exact(nbest[s], aboves[s]) && InRange(nbest[s], aboves[s])
  }

  ghost predicate SomeBriefBest(nbest: seq<seq<Line>>, aboves: seq<Above>) {
    exists s :: 0 <= s < |nbest| && s < |aboves| && HasBriefBest(|nbest[s]|, aboves[s])
  }

  /** The loop over the sentences. */
  method AllThresholds(nbest: seq<seq<Line>>, ghost aboves: seq<Above>)
    returns (merged: bool, first: seq<nat>, thr: seq<Entry>, ghost per: seq<seq<Change>>)
    requires Inputs(nbest, aboves)
    ensures !merged ==> |per| == |nbest| && Envelopes(nbest, aboves, first, per) && MapOf(thr, per)
    ensures merged <==> SomeBriefBest(nbest, aboves)
  {
    merged, first, thr, per := false, [], [Entry(MIN_FLOAT, [])], [];
    for s := 0 to |nbest|
      invariant !merged && |per| == s && Envelopes(nbest, aboves, first, per) && MapOf(thr, per)
      invariant forall i :: 0 <= i < s ==> !HasBriefBest(|nbest[i]|, aboves[i])
    {
      ghost var own;
      var best;
      merged, best, thr, own := SentenceThresholds(nbest[s], thr, per, s, aboves[s]);
      if merged { return; }
      first, per := first + [best], per + [own];
    }
  }

  /** The diffs handed to the scorer: all entries but the one for minus infinity. */
  function DiffLists(thr: seq<Entry>): seq<seq<Diff>>
    requires thr != []
  {
    seq(|thr| - 1, k requires 0 <= k < |thr| - 1 => thr[k + 1].diffs)
  }

  lemma {:induction false} DiffsInRange(per: seq<seq<Change>>, n: nat, x: real)
    requires n <= |per|
    ensures forall j :: 0 <= j < |DiffsAt(per, n, x)| ==> DiffsAt(per, n, x)[j].0 < n
  {
    if n > 0 {
      DiffsInRange(per, n - 1, x);
      DiffOfSentence(n - 1, per[n - 1], |per[n - 1]|, x);
    }
  }

  lemma {:induction false} ApplyConcat(sel: seq<nat>, a: seq<Diff>, b: seq<Diff>, n: nat)
    requires Scorer.Within(a + b, |sel|) && Scorer.Within(a, |sel|) && n <= |a|
    ensures Scorer.Apply(sel, a + b, n) == Scorer.Apply(sel, a, n)
  {
    if n > 0 { ApplyConcat(sel, a, b, n - 1); }
  }

  lemma ApplyMore(sel: seq<nat>, a: seq<Diff>, b: seq<Diff>)
    requires Scorer.Within(a + b, |sel|) && Scorer.Within(a, |sel|) && |b| <= 1 && (b != [] ==> b[0].0 < |sel|)
    ensures Scorer.Apply(sel, a + b, |a + b|) ==
            if b == [] then Scorer.Apply(sel, a, |a|) else Scorer.Apply(sel, a, |a|)[b[0].0 := b[0].1]
  {
    hide Scorer.Within;
    if b == [] {
      assert a + b == a;
    } else {
      ApplyConcat(sel, a, b, |a|);
      assert |a + b| == |a| + 1 && (a + b)[|a|] == b[0];
      ApplyStep(sel, a + b, |a|);
    }
  }

  lemma ApplyStep(sel: seq<nat>, ds: seq<Diff>, n: nat)
    requires n < |ds| && Scorer.Within(ds, |sel|)
    ensures Scorer.Apply(sel, ds, n + 1) == Scorer.Apply(sel, ds, n)[ds[n].0 := ds[n].1]
  {
  }

  lemma DiffsWithin(per: seq<seq<Change>>, n: nat, x: real, m: nat)
    requires n <= |per| && n <= m
    ensures Scorer.Within(DiffsAt(per, n, x), m)
  {
    hide DiffsAt;
    DiffsInRange(per, n, x);
  }

  lemma ApplyNothing(sel: seq<nat>)
    ensures Scorer.Within([], |sel|) && Scorer.Apply(sel, [], 0) == sel
  {}

  /** Applying all diffs of one threshold gives sentence s its own change there, if it has one. */
  lemma {:induction false} ApplyDiffsAt(sel: seq<nat>, per: seq<seq<Change>>, n: nat, x: real, s: nat)
    requires n <= |per| == |sel| && s < |sel|
    ensures Scorer.Within(DiffsAt(per, n, x), |sel|)
    ensures var own := DiffOf(s, per[s], |per[s]|, x);
            Scorer.Apply(sel, DiffsAt(per, n, x), |DiffsAt(per, n, x)|)[s] == if s < n && own != [] then own[0].1 else sel[s]
  {
    hide DiffOf, Scorer.Apply, Scorer.Within;
    DiffsWithin(per, n, x, |sel|);
    if n == 0 {
      ApplyNothing(sel);
    } else {
      DiffsWithin(per, n - 1, x, |sel|);
      ApplyDiffsAt(sel, per, n - 1, x, s);
      DiffOfSentence(n - 1, per[n - 1], |per[n - 1]|, x);
      ApplyMore(sel, DiffsAt(per, n - 1, x), DiffOf(n - 1, per[n - 1], |per[n - 1]|, x));
    }
  }

  /** Interval t of a sentence's own changes that holds just right of x. */
  ghost predicate RightOf(changes: seq<Change>, t: nat, x: real) {
    t <= |changes| && (t > 0 ==> changes[t - 1].x <= x) && (t < |changes| ==> x < changes[t].x)
  }

  lemma {:induction false} DiffOfPresent(s: nat, changes: seq<Change>, n: nat, t: nat)
    requires t < n <= |changes| && Increasing(changes)
    ensures DiffOf(s, changes, n, changes[t].x) == [(s, changes[t].best)]
  {
    if t < n - 1 {
      assert changes[t].x < changes[n - 1].x;
      DiffOfPresent(s, changes, n - 1, t);
    }
  }

  lemma DiffListsWithin(thr: seq<Entry>, per: seq<seq<Change>>)
    requires MapOf(thr, per)
    ensures forall i :: 0 <= i < |thr| - 1 ==> Scorer.Within(DiffLists(thr)[i], |per|)
  {
    forall i | 0 <= i < |thr| - 1 ensures Scorer.Within(DiffLists(thr)[i], |per|) {
      DiffsInRange(per, |per|, thr[i + 1].x);
    }
  }

  /** lists holds the diffs of all thresholds but the first. */
  ghost predicate ListsOf(thr: seq<Entry>, per: seq<seq<Change>>, lists: seq<seq<Diff>>) {
    |lists| + 1 == |thr| && forall k :: 0 <= k < |lists| ==> lists[k] == DiffsAt(per, |per|, thr[k + 1].x)
  }

  /** A sentence's candidate after passing a threshold at which it has the diffs own. */
  function Follow(candidate: nat, own: seq<Diff>): nat {
    if own != [] then own[0].1 else candidate
  }

  /** The candidate of sentence s after the first k thresholds. */
  lemma SelectionStep(thr: seq<Entry>, per: seq<seq<Change>>, lists: seq<seq<Diff>>, first: seq<nat>, k: nat, s: nat)
    requires |first| == |per| && 0 < k < |thr| && s < |per| && ListsOf(thr, per, lists)
    requires forall i :: 0 <= i < |lists| ==> Scorer.Within(lists[i], |first|)
    ensures Scorer.Selected(first, lists, k)[s]
         == Follow(Scorer.Selected(first, lists, k - 1)[s], DiffOf(s, per[s], |per[s]|, thr[k].x))
  {
    assert lists[k - 1] == DiffsAt(per, |per|, thr[k].x);
    hide DiffOf, Scorer.Apply;
    ApplyDiffsAt(Scorer.Selected(first, lists, k - 1), per, |per|, thr[k].x, s);
  }

  /** The candidate of one sentence after k thresholds, following only its own changes. */
  ghost function CandidateAt(thr: seq<Entry>, changes: seq<Change>, first: nat, s: nat, k: nat): nat
    requires k < |thr|
  {
    if k == 0 then first
    else Follow(CandidateAt(thr, changes, first, s, k - 1), DiffOf(s, changes, |changes|, thr[k].x))
  }

  lemma {:induction false} SelectionFollows(thr: seq<Entry>, per: seq<seq<Change>>, lists: seq<seq<Diff>>, first: seq<nat>, k: nat, s: nat)
    requires |first| == |per| && k < |thr| && s < |per| && ListsOf(thr, per, lists)
    requires forall i :: 0 <= i < |lists| ==> Scorer.Within(lists[i], |first|)
    ensures Scorer.Selected(first, lists, k)[s] == CandidateAt(thr, per[s], first[s], s, k)
  {
    hide DiffOf, Follow, ListsOf, Scorer.Within;
    if k > 0 {
      SelectionFollows(thr, per, lists, first, k - 1, s);
      SelectionStep(thr, per, lists, first, k, s);
    }
  }

  /** After k thresholds a sentence has the candidate of its own interval right of the k-th. */
  lemma {:induction false} CandidateIsCurrent(thr: seq<Entry>, per: seq<seq<Change>>, first: nat, k: nat, s: nat) returns (t: nat)
    requires MapOf(thr, per) && k < |thr| && s < |per| && Increasing(per[s])
    ensures RightOf(per[s], t, thr[k].x)
    ensures CandidateAt(thr, per[s], first, s, k) == BestIn(first, per[s], t)
  {
    hide MapOf, RightOf, BestIn, DiffOf, Follow, Increasing;
    if k == 0 {
      t := 0;
      FirstCell(thr, per, first, s);
    } else {
      t := CandidateIsCurrent(thr, per, first, k - 1, s);
      t := StepRight(thr, per, k, s, t, first);
    }
  }

  lemma FirstCell(thr: seq<Entry>, per: seq<seq<Change>>, first: nat, s: nat)
    requires MapOf(thr, per) && s < |per| && Increasing(per[s])
    ensures RightOf(per[s], 0, thr[0].x) && BestIn(first, per[s], 0) == first
  {}

  /** Moving over one threshold moves over at most one change of a sentence. */
  lemma StepRight(thr: seq<Entry>, per: seq<seq<Change>>, k: nat, s: nat, t: nat, first: nat) returns (t': nat)
    requires MapOf(thr, per) && 0 < k < |thr| && s < |per| && Increasing(per[s]) && RightOf(per[s], t, thr[k - 1].x)
    ensures RightOf(per[s], t', thr[k].x)
    ensures BestIn(first, per[s], t') == Follow(BestIn(first, per[s], t), DiffOf(s, per[s], |per[s]|, thr[k].x))
  {
    var changes := per[s];
    KeyOrder(thr, k - 1, k);
    if t < |changes| && changes[t].x <= thr[k].x {
      NextKey(thr, per, s, t, k - 1);
      DiffOfPresent(s, changes, |changes|, t);
      t' := t + 1;
      assert t' < |changes| ==> changes[t].x < changes[t'].x;
    } else {
      t' := t;
      forall u | 0 <= u < |changes| ensures changes[u].x != thr[k].x {
        assert u < t - 1 ==> changes[u].x < changes[t - 1].x;
        assert t < u ==> changes[t].x < changes[u].x;
      }
      DiffOfAbsent(s, changes, |changes|, thr[k].x);
    }
  }

  /** A change beyond the k-th threshold is at the next one or later. */
  lemma NextKey(thr: seq<Entry>, per: seq<seq<Change>>, s: nat, t: nat, k: nat)
    requires MapOf(thr, per) && s < |per| && t < |per[s]| && k < |thr| && thr[k].x < per[s][t].x
    ensures k + 1 < |thr| && thr[k + 1].x <= per[s][t].x
  {
    assert KeysOf(thr, per[s]);
    assert HasKey(thr, per[s][t].x);
    var i :| 0 <= i < |thr| && thr[i].x == per[s][t].x;
    KeyOrder(thr, k, i);
    KeyOrder(thr, i, k + 1);
  }

  /** y lies in the closed cell k of the merged thresholds. */
  ghost predicate InCell(thr: seq<Entry>, k: nat, y: real) {
    k < |thr| && (k > 0 ==> thr[k].x <= y) && (k + 1 < |thr| ==> y <= thr[k + 1].x)
  }

  /** sel picks a best candidate for every sentence at y. */
  ghost predicate AllBest(nbest: seq<seq<Line>>, aboves: seq<Above>, sel: seq<nat>, y: real) {
    |sel| == |nbest| == |aboves| && forall s :: 0 <= s < |nbest| ==> BestAt(|nbest[s]|, aboves[s], sel[s], y)
  }

  /** On every cell the recorded selection is best for every sentence at once. */
  lemma CellIsBest(nbest: seq<seq<Line>>, aboves: seq<Above>, first: seq<nat>, thr: seq<Entry>, per: seq<seq<Change>>,
                   lists: seq<seq<Diff>>, k: nat, y: real)
    requires |per| == |nbest| && Envelopes(nbest, aboves, first, per) && MapOf(thr, per) && InCell(thr, k, y)
    requires ListsOf(thr, per, lists) && forall i :: 0 <= i < |lists| ==> Scorer.Within(lists[i], |first|)
    ensures AllBest(nbest, aboves, Scorer.Selected(first, lists, k), y)
  {
    var sel := Scorer.Selected(first, lists, k);
    forall s | 0 <= s < |nbest| ensures BestAt(|nbest[s]|, aboves[s], sel[s], y) {
      assert IsEnvelope(|nbest[s]|, aboves[s], first[s], per[s]);
      SelectionFollows(thr, per, lists, first, k, s);
      var t := CandidateIsCurrent(thr, per, first[s], k, s);
      if t < |per[s]| { NextKey(thr, per, s, t, k); }
      assert InInterval(per[s], t, y);
      assert Settled(|nbest[s]|, aboves[s], first[s], per[s], t);
    }
  }

  // ---------------------------------------------------------------- choosing the best cell

  lemma {:induction false} DiffsAtWitness(per: seq<seq<Change>>, n: nat, x: real) returns (s: nat, t: nat)
    requires n <= |per| && DiffsAt(per, n, x) != []
    ensures s < |per| && t < |per[s]| && per[s][t].x == x
  {
    if DiffOf(n - 1, per[n - 1], |per[n - 1]|, x) != [] {
      s := n - 1;
      t := DiffOfWitness(s, per[s], |per[s]|, x);
    } else {
      s, t := DiffsAtWitness(per, n - 1, x);
    }
  }

  lemma {:induction false} DiffOfWitness(s: nat, changes: seq<Change>, n: nat, x: real) returns (t: nat)
    requires n <= |changes| && DiffOf(s, changes, n, x) != []
    ensures t < n && changes[t].x == x && DiffOf(s, changes, n, x) == [(s, changes[t].best)]
  {
    if changes[n - 1].x == x { t := n - 1; } else { t := DiffOfWitness(s, changes, n - 1, x); }
  }

  ghost predicate KeysBelowMax(thr: seq<Entry>) {
    forall k :: 0 <= k < |thr| ==> MIN_FLOAT <= thr[k].x < MAX_FLOAT && (k > 0 ==> MIN_FLOAT < thr[k].x)
  }

  lemma MapKeysBelowMax(thr: seq<Entry>, per: seq<seq<Change>>)
    requires MapOf(thr, per) && forall s :: 0 <= s < |per| ==> Increasing(per[s])
    ensures KeysBelowMax(thr)
  {
    forall k | 0 < k < |thr| ensures MIN_FLOAT < thr[k].x < MAX_FLOAT {
      var s, t := DiffsAtWitness(per, |per|, thr[k].x);
    }
  }

  /** y lies strictly inside cell k. */
  ghost predicate InsideCell(thr: seq<Entry>, k: nat, y: real) {
    k < |thr| && (k > 0 ==> thr[k].x < y) && (k + 1 < |thr| ==> y < thr[k + 1].x)
  }

  /** The point that is chosen in a cell: half way between two thresholds, 1000 left of the first one, 0.1 right of the
      last one. */
  ghost predicate IsChosen(thr: seq<Entry>, k: nat, x: real)
    requires k < |thr|
  {
    if k == 0 then x == (if |thr| > 1 then thr[1].x else MAX_FLOAT) - 1000.0
    else if k == |thr| - 1 then x == thr[k].x + 0.1
    else thr[k + 1].x - x == x - thr[k].x
  }

  /** The first cell with the greatest score, and the point strictly inside it that is chosen. */
  method ChooseBest(thr: seq<Entry>, scores: seq<real>) returns (best: nat, bestscore: real, bestx: real)
    requires Sorted(thr) && KeysBelowMax(thr) && |scores| == |thr| > 0 && thr[0].x == MIN_FLOAT
    requires forall k :: 0 <= k < |scores| ==> MIN_FLOAT < scores[k]
    ensures best < |scores| && scores[best] == bestscore
    ensures forall k :: 0 <= k < |scores| ==> scores[k] <= bestscore && (k < best ==> scores[k] < bestscore)
    ensures InsideCell(thr, best, bestx) && IsChosen(thr, best, bestx)
  {
    best, bestscore, bestx := 0, MIN_FLOAT, MIN_FLOAT;
    for sc := 0 to |scores|
      invariant sc == 0 ==> bestscore == MIN_FLOAT
      invariant sc > 0 ==> best < sc && scores[best] == bestscore && InsideCell(thr, best, bestx) && IsChosen(thr, best, bestx)
      invariant forall k :: 0 <= k < sc ==> scores[k] <= bestscore && (k < best ==> scores[k] < bestscore)
    {
      if scores[sc] > bestscore {
        if sc + 1 < |thr| { KeyOrder(thr, sc, sc + 1); }
        best, bestscore := sc, scores[sc];
        var leftx := thr[sc].x;
        var rightx := if sc + 1 < |thr| then thr[sc + 1].x else MAX_FLOAT;
        if leftx == MIN_FLOAT {
          bestx := rightx - 1000.0;
        } else if rightx == MAX_FLOAT {
          bestx := leftx + 0.1;
        } else {
          bestx := 0.5 * (rightx + leftx);
        }
      }
    }
  }

  // ---------------------------------------------------------------- LineOptimize

  /** Statistics exist for every candidate, all with the same number of fields. */
  ghost predicate Fits(data: Scorer.ScoreData, nbest: seq<seq<Line>>, fields: nat) {
    && |data| == |nbest| > 0
    && (forall s :: 0 <= s < |nbest| ==> |data[s]| == |nbest[s]|)
    && (forall s, c :: 0 <= s < |data| && 0 <= c < |data[s]| ==> |data[s][c]| == fields)
  }

  lemma ChangesAreCandidates(n: nat, above: Above, first: nat, changes: seq<Change>, t: nat)
    requires IsEnvelope(n, above, first, changes) && t < |changes|
    ensures changes[t].best < n
  {
    assert Settled(n, above, first, changes, t + 1);
    assert t + 1 < |changes| ==> changes[t].x < changes[t + 1].x;
    assert InInterval(changes, t + 1, changes[t].x);
  }

  lemma {:induction false} DiffsAreCandidates(nbest: seq<seq<Line>>, aboves: seq<Above>, first: seq<nat>, per: seq<seq<Change>>, n: nat, x: real)
    requires Envelopes(nbest, aboves, first, per) && n <= |per|
    ensures forall j :: 0 <= j < |DiffsAt(per, n, x)| ==>
              DiffsAt(per, n, x)[j].0 < n && DiffsAt(per, n, x)[j].1 < |nbest[DiffsAt(per, n, x)[j].0]|
  {
    if n > 0 {
      DiffsAreCandidates(nbest, aboves, first, per, n - 1, x);
      if DiffOf(n - 1, per[n - 1], |per[n - 1]|, x) != [] {
        var t := DiffOfWitness(n - 1, per[n - 1], |per[n - 1]|, x);
        ChangesAreCandidates(|nbest[n - 1]|, aboves[n - 1], first[n - 1], per[n - 1], t);
      }
    }
  }

  lemma ScorerAccepts(data: Scorer.ScoreData, nbest: seq<seq<Line>>, fields: nat, aboves: seq<Above>, first: seq<nat>,
                      thr: seq<Entry>, per: seq<seq<Change>>)
    requires Fits(data, nbest, fields) && |per| == |nbest| && Envelopes(nbest, aboves, first, per) && MapOf(thr, per)
    ensures Scorer.Selection(data, first) && Scorer.Uniform(data, first, fields)
    ensures Scorer.AllApplicable(data, |first|, fields, DiffLists(thr))
  {
    forall s | 0 <= s < |first| ensures first[s] < |data[s]| {
      assert IsEnvelope(|nbest[s]|, aboves[s], first[s], per[s]);
    }
    DiffListsWithin(thr, per);
    forall k | 0 <= k < |thr| - 1 ensures Scorer.ListApplicable(data, |first|, fields, DiffLists(thr)[k]) {
      DiffsAreCandidates(nbest, aboves, first, per, |per|, thr[k + 1].x);
    }
  }

  /** On every cell the recorded selection is best for all sentences. */
  ghost predicate CellsBest(nbest: seq<seq<Line>>, aboves: seq<Above>, first: seq<nat>, thr: seq<Entry>)
    requires thr != []
  {
    && |first| == |nbest| && (forall i :: 0 <= i < |thr| - 1 ==> Scorer.Within(DiffLists(thr)[i], |first|))
    && (forall k, y :: InCell(thr, k, y) ==> AllBest(nbest, aboves, Scorer.Selected(first, DiffLists(thr), k), y))
  }

  lemma CellsAreBest(nbest: seq<seq<Line>>, aboves: seq<Above>, first: seq<nat>, thr: seq<Entry>, per: seq<seq<Change>>)
    requires |per| == |nbest| && Envelopes(nbest, aboves, first, per) && MapOf(thr, per)
    ensures CellsBest(nbest, aboves, first, thr)
  {
    DiffListsWithin(thr, per);
    forall k, y | InCell(thr, k, y) ensures AllBest(nbest, aboves, Scorer.Selected(first, DiffLists(thr), k), y) {
      CellIsBest(nbest, aboves, first, thr, per, DiffLists(thr), k, y);
    }
  }

  /** scores[k] is the score, computed from scratch, of the selection recorded for cell k. */
  ghost predicate CellScores(data: Scorer.ScoreData, calculateScore: seq<int> -> real, fields: nat, first: seq<nat>,
                             thr: seq<Entry>, scores: seq<real>)
    requires thr != []
  {
    && (forall i :: 0 <= i < |thr| - 1 ==> Scorer.Within(DiffLists(thr)[i], |first|))
    && Scorer.ScoresOf(data, calculateScore, first, DiffLists(thr), fields, scores)
  }

  /** GetIncStatScore on the thresholds: raw are the scores from scratch, scores the smoothed ones. */
  method ScoreCells(data: Scorer.ScoreData, calculateScore: seq<int> -> real, reg: Scorer.Regularisation, ghost fields: nat,
                    first: seq<nat>, thr: seq<Entry>)
    returns (scores: seq<real>, ghost raw: seq<real>)
    requires thr != [] && first != [] && Scorer.Selection(data, first) && Scorer.Uniform(data, first, fields)
    requires Scorer.AllApplicable(data, |first|, fields, DiffLists(thr))
    requires forall totals: seq<int> :: MIN_FLOAT < calculateScore(totals) <= MAX_FLOAT
    ensures CellScores(data, calculateScore, fields, first, thr, raw) && Scorer.Regularised(raw, reg, scores)
    ensures |scores| == |thr| && forall k :: 0 <= k < |scores| ==> MIN_FLOAT < scores[k]
  {
    hide Scorer.Smoothed;
    assert |data[0][first[0]]| == fields;
    var r;
    r, raw := Scorer.Score(data, calculateScore, first, DiffLists(thr), reg);
    scores := r.value;
    forall k | 0 <= k < |raw| ensures MIN_FLOAT < raw[k] {
      assert Scorer.IsScore(data, calculateScore, first, DiffLists(thr), fields, k, raw[k]);
    }
    forall k | 0 <= k < |scores| ensures MIN_FLOAT < scores[k] {
      Scorer.SmoothedInRange(raw, reg, k, scores[k], MIN_FLOAT);
    }
  }

  /** best is the first cell with the greatest score, and x lies strictly inside it. */
  ghost predicate Winner(thr: seq<Entry>, scores: seq<real>, best: nat, bestscore: real, x: real) {
    && best < |scores| && scores[best] == bestscore && InsideCell(thr, best, x) && best < |thr| && IsChosen(thr, best, x)
    && (forall k :: 0 <= k < |scores| ==> scores[k] <= bestscore && (k < best ==> scores[k] < bestscore))
  }

  /** LineOptimize.  On every cell between thresholds the recorded selection is best for all sentences, raw[k]
      is the score of that of cell k, scores are these after regularisation, bestscore is the greatest of them
      and bestx a point of the first cell that has it; x is bestx, put to 0 when it is close to it. */
  method LineOptimize(nbest: seq<seq<Line>>, data: Scorer.ScoreData, calculateScore: seq<int> -> real,
                      reg: Scorer.Regularisation, ghost fields: nat, ghost aboves: seq<Above>)
    returns (merged: bool, bestscore: real, x: real, ghost first: seq<nat>, ghost thr: seq<Entry>,
             ghost raw: seq<real>, ghost scores: seq<real>, ghost best: nat, ghost bestx: real)
    requires Inputs(nbest, aboves) && Fits(data, nbest, fields)
    requires forall totals: seq<int> :: MIN_FLOAT < calculateScore(totals) <= MAX_FLOAT
    ensures !merged ==> thr != [] && Sorted(thr) && CellsBest(nbest, aboves, first, thr)
    ensures !merged ==> CellScores(data, calculateScore, fields, first, thr, raw) && Scorer.Regularised(raw, reg, scores)
    ensures !merged ==> Winner(thr, scores, best, bestscore, bestx)
    ensures !merged ==> x == if -0.00015 < bestx < 0.00015 then 0.0 else bestx
    ensures merged <==> SomeBriefBest(nbest, aboves)
  {
    bestscore, x, best, bestx, raw, scores := MIN_FLOAT, MIN_FLOAT, 0, MIN_FLOAT, [], [];
    var first1best, thresholds;
    ghost var per;
    merged, first1best, thresholds, per := AllThresholds(nbest, aboves);
    first, thr := first1best, thresholds;
    if merged { return; }
    CellsAreBest(nbest, aboves, first, thr, per);
    ScorerAccepts(data, nbest, fields, aboves, first, thr, per);
    MapKeysBelowMax(thr, per);
    var cellScores;
    cellScores, raw := ScoreCells(data, calculateScore, reg, fields, first1best, thresholds);
    var cell;
    cell, bestscore, x := ChooseBest(thresholds, cellScores);
    scores, best, bestx := cellScores, cell, x;
    if -0.00015 < x < 0.00015 {
      x := 0.0;
    }
  }
}
