/** Points of the weight space (mert/Point.cpp, OptimizeAll) and what a line search means for them
    (mert/Optimizer.cpp, LineOptimize and Get1bests). */
module Point {
  import opened Envelope
  import LineSearch
  import Scorer

  type Vec = seq<real>

  /** Weighted sum of the first n features. */
  ghost function Dot(p: Vec, f: Vec, n: nat): real
    requires n <= |p| && n <= |f|
  {
    if n == 0 then 0.0 else Dot(p, f, n - 1) + p[n - 1] * f[n - 1]
  }

  /** Point::operator*(FeatureStats): the score of one candidate. */
  method Times(p: Vec, f: Vec) returns (prod: real)
    requires |p| <= |f|
    ensures prod == Dot(p, f, |p|)
  {
    prod := 0.0;
    for i := 0 to |p|
      invariant prod == Dot(p, f, i)
    {
      prod := prod + p[i] * f[i];
    }
  }

  /** The point direction * x + origin. */
  ghost function At(origin: Vec, direction: Vec, x: real): Vec
    requires |origin| == |direction|
  {
    seq(|origin|, i requires 0 <= i < |origin| => direction[i] * x + origin[i])
  }

  /** Point::operator*(float) followed by Point::operator+. */
  method Move(origin: Vec, direction: Vec, x: real) returns (p: Vec)
    requires |origin| == |direction|
    ensures p == At(origin, direction, x)
  {
    var scaled := direction;
    for i := 0 to |scaled|
      invariant |scaled| == |direction|
      invariant forall k :: 0 <= k < i ==> scaled[k] == direction[k] * x
      invariant forall k :: i <= k < |direction| ==> scaled[k] == direction[k]
    {
      scaled := scaled[i := scaled[i] * x];
    }
    p := scaled;
    for i := 0 to |p|
      invariant |p| == |direction|
      invariant forall k :: 0 <= k < i ==> p[k] == scaled[k] + origin[k]
      invariant forall k :: i <= k < |direction| ==> p[k] == scaled[k]
    {
      p := p[i := p[i] + origin[i]];
    }
    forall k | 0 <= k < |p| ensures p[k] == At(origin, direction, x)[k] {
      assert scaled[k] == direction[k] * x && p[k] == scaled[k] + origin[k];
    }
    assert p == At(origin, direction, x);
  }

  /** Scores are linear along the line: this is what turns candidates into lines. */
  lemma {:induction false} DotOnLine(origin: Vec, direction: Vec, x: real, f: Vec, n: nat)
    requires |origin| == |direction| && n <= |origin| <= |f|
    ensures Dot(At(origin, direction, x), f, n) == Dot(origin, f, n) + x * Dot(direction, f, n)
  {
    if n > 0 {
      DotOnLine(origin, direction, x, f, n - 1);
      Expand(origin[n - 1], direction[n - 1], x, f[n - 1], Dot(origin, f, n - 1), Dot(direction, f, n - 1));
    }
  }

  lemma Expand(o: real, d: real, x: real, f: real, p: real, q: real)
    ensures p + x * q + (d * x + o) * f == p + o * f + x * (q + d * f)
  {
  }

  ghost predicate Features(dim: nat, feats: seq<Vec>) {
    feats != [] && forall j :: 0 <= j < |feats| ==> dim <= |feats[j]|
  }

  /** The lines of one sentence's candidates. */
  ghost predicate LinesOf(origin: Vec, direction: Vec, feats: seq<Vec>, lines: seq<Line>)
    requires |origin| == |direction| && Features(|origin|, feats)
  {
    && |lines| == |feats|
    && forall j :: 0 <= j < |feats| ==>
         lines[j] == Line(Dot(direction, feats[j], |origin|), Dot(origin, feats[j], |origin|))
  }

  method BuildLines(origin: Vec, direction: Vec, feats: seq<Vec>) returns (lines: seq<Line>)
    requires |origin| == |direction| && Features(|origin|, feats)
    ensures LinesOf(origin, direction, feats, lines)
  {
    lines := [];
    for j := 0 to |feats|
      invariant |lines| == j
      invariant forall k :: 0 <= k < j ==>
                  lines[k] == Line(Dot(direction, feats[k], |origin|), Dot(origin, feats[k], |origin|))
    {
      var gradient := Times(direction, feats[j]);
      var f0 := Times(origin, feats[j]);
      lines := lines + [Line(gradient, f0)];
    }
  }

  /** The actual comparison of candidate scores. */
  ghost function TrueAbove(lines: seq<Line>): Above {
    (i: nat, j: nat, x: real) => i < |lines| && j < |lines| && Value(lines, i, x) >= Value(lines, j, x)
  }

  lemma TrueAboveIsExact(lines: seq<Line>)
    ensures Exact(lines, TrueAbove(lines))
  {
  }

  /** c scores at least as much as every candidate at point p. */
  ghost predicate BestAtPoint(p: Vec, feats: seq<Vec>, c: nat)
    requires Features(|p|, feats)
  {
    c < |feats| && forall j :: 0 <= j < |feats| ==> Dot(p, feats[j], |p|) <= Dot(p, feats[c], |p|)
  }

  lemma BestOnLineIsBestAtPoint(origin: Vec, direction: Vec, feats: seq<Vec>, lines: seq<Line>, c: nat, x: real)
    requires |origin| == |direction| && Features(|origin|, feats) && LinesOf(origin, direction, feats, lines)
    requires BestAt(|lines|, TrueAbove(lines), c, x)
    ensures BestAtPoint(At(origin, direction, x), feats, c)
  {
    forall j: nat | j < |feats|
      ensures Dot(At(origin, direction, x), feats[j], |origin|) <= Dot(At(origin, direction, x), feats[c], |origin|)
    {
      DotOnLine(origin, direction, x, feats[j], |origin|);
      DotOnLine(origin, direction, x, feats[c], |origin|);
      assert TrueAbove(lines)(c, j, x);
      assert Value(lines, c, x) == lines[c].b + x * lines[c].m && Value(lines, j, x) == lines[j].b + x * lines[j].m;
    }
  }

  /** One best candidate for every sentence at point p. */
  ghost predicate BestSelection(p: Vec, features: seq<seq<Vec>>, sel: seq<nat>)
    requires forall s :: 0 <= s < |features| ==> Features(|p|, features[s])
  {
    |sel| == |features| && forall s :: 0 <= s < |features| ==> BestAtPoint(p, features[s], sel[s])
  }

  // ---------------------------------------------------------------- Get1bests

  /** Get1bests for one sentence: the first candidate of greatest score. */
  method Get1best(p: Vec, feats: seq<Vec>) returns (idx: nat)
    requires Features(|p|, feats)
    requires forall j :: 0 <= j < |feats| ==> MIN_FLOAT < Dot(p, feats[j], |p|)
    ensures BestAtPoint(p, feats, idx)
    ensures forall j :: 0 <= j < idx ==> Dot(p, feats[j], |p|) < Dot(p, feats[idx], |p|)
  {
    var bestfs := MIN_FLOAT;
    idx := 0;
    for j := 0 to |feats|
      invariant j == 0 ==> bestfs == MIN_FLOAT && idx == 0
      invariant j > 0 ==> idx < j && bestfs == Dot(p, feats[idx], |p|)
      invariant forall k :: 0 <= k < j ==> Dot(p, feats[k], |p|) <= bestfs
      invariant forall k :: 0 <= k < idx ==> Dot(p, feats[k], |p|) < bestfs
    {
      var curfs := Times(p, feats[j]);
      if curfs > bestfs {
        bestfs, idx := curfs, j;
      }
    }
  }

  /** Where no two candidates of a sentence tie for the best score, the best selection is unique, so
      scoring the point afresh uses the very selection the line search recorded. */
  lemma UniqueSelection(p: Vec, features: seq<seq<Vec>>, sel: seq<nat>, sel': seq<nat>)
    requires forall s :: 0 <= s < |features| ==> Features(|p|, features[s])
    requires BestSelection(p, features, sel) && BestSelection(p, features, sel')
    requires forall s, i, j :: 0 <= s < |features| ==>
               BestAtPoint(p, features[s], i) && BestAtPoint(p, features[s], j) ==> i == j
    ensures sel == sel'
  {
    forall s | 0 <= s < |features| ensures sel[s] == sel'[s] {
      assert BestAtPoint(p, features[s], sel[s]) && BestAtPoint(p, features[s], sel'[s]);
    }
  }

  // ---------------------------------------------------------------- the line search, for points

  method AllLines(origin: Vec, direction: Vec, features: seq<seq<Vec>>) returns (nbest: seq<seq<Line>>)
    requires |origin| == |direction| && forall s :: 0 <= s < |features| ==> Features(|origin|, features[s])
    ensures |nbest| == |features|
    ensures forall s :: 0 <= s < |features| ==> LinesOf(origin, direction, features[s], nbest[s])
  {
    nbest := [];
    for s := 0 to |features|
      invariant |nbest| == s
      invariant forall k :: 0 <= k < s ==> LinesOf(origin, direction, features[k], nbest[k])
    {
      var lines := BuildLines(origin, direction, features[s]);
      nbest := nbest + [lines];
    }
  }

  /** The comparisons of all sentences. */
  ghost function TrueAboves(nbest: seq<seq<Line>>): seq<Above> {
    seq(|nbest|, s requires 0 <= s < |nbest| => TrueAbove(nbest[s]))
  }

  lemma SelectionAtPoint(origin: Vec, direction: Vec, features: seq<seq<Vec>>, nbest: seq<seq<Line>>, sel: seq<nat>, x: real)
    requires |origin| == |direction| && forall s :: 0 <= s < |features| ==> Features(|origin|, features[s])
    requires |nbest| == |features| && forall s :: 0 <= s < |features| ==> LinesOf(origin, direction, features[s], nbest[s])
    requires LineSearch.AllBest(nbest, TrueAboves(nbest), sel, x)
    ensures BestSelection(At(origin, direction, x), features, sel)
  {
    forall s | 0 <= s < |features| ensures BestAtPoint(At(origin, direction, x), features[s], sel[s]) {
      assert BestAt(|nbest[s]|, TrueAboves(nbest)[s], sel[s], x);
      BestOnLineIsBestAtPoint(origin, direction, features[s], nbest[s], sel[s], x);
    }
  }

  lemma CellOf(thr: seq<LineSearch.Entry>, x: real) returns (k: nat)
    requires thr != [] && LineSearch.Sorted(thr)
    ensures LineSearch.InCell(thr, k, x)
  {
    k := |thr| - 1;
    while k > 0 && x < thr[k].x
      invariant k < |thr| && (k + 1 < |thr| ==> x <= thr[k + 1].x)
    {
      k := k - 1;
    }
  }

  /** sel is a selection with the given corpus score. */
  ghost predicate Realises(data: Scorer.ScoreData, calculateScore: seq<int> -> real, fields: nat, sel: seq<nat>, score: real) {
    Scorer.Selection(data, sel) && Scorer.Uniform(data, sel, fields)
    && score == calculateScore(Scorer.Totals(data, sel, fields))
  }

  /** Some selection that is best for all sentences at position x of the line has this score. */
  ghost predicate ScoreAt(origin: Vec, direction: Vec, features: seq<seq<Vec>>, data: Scorer.ScoreData,
                          calculateScore: seq<int> -> real, fields: nat, x: real, score: real)
    requires |origin| == |direction| && forall s :: 0 <= s < |features| ==> Features(|origin|, features[s])
  {
    exists sel :: BestSelection(At(origin, direction, x), features, sel)
               && Realises(data, calculateScore, fields, sel, score)
  }

  /** Some selection that is best at position x scores at most `most`. */
  ghost predicate AtMost(origin: Vec, direction: Vec, features: seq<seq<Vec>>, data: Scorer.ScoreData,
                         calculateScore: seq<int> -> real, fields: nat, x: real, most: real)
    requires |origin| == |direction| && forall s :: 0 <= s < |features| ==> Features(|origin|, features[s])
  {
    exists score :: score <= most && ScoreAt(origin, direction, features, data, calculateScore, fields, x, score)
  }

  /** Position x is optimal on the line: some best selection has the score there, and everywhere some best selection
      scores at most that. */
  ghost predicate Optimal(origin: Vec, direction: Vec, features: seq<seq<Vec>>, data: Scorer.ScoreData,
                          calculateScore: seq<int> -> real, fields: nat, x: real, score: real)
    requires |origin| == |direction| && forall s :: 0 <= s < |features| ==> Features(|origin|, features[s])
  {
    && ScoreAt(origin, direction, features, data, calculateScore, fields, x, score)
    && forall y: real :: AtMost(origin, direction, features, data, calculateScore, fields, y, score)
  }

  ghost predicate Setting(origin: Vec, direction: Vec, features: seq<seq<Vec>>, data: Scorer.ScoreData, fields: nat) {
    && |origin| == |direction| && |features| == |data| > 0
    && (forall s :: 0 <= s < |features| ==> Features(|origin|, features[s]) && |features[s]| == |data[s]|)
    && (forall s, c :: 0 <= s < |data| && 0 <= c < |data[s]| ==> |data[s][c]| == fields)
  }

  /** All intersections of candidate lines are inside the float range. */
  ghost predicate LinesInRange(origin: Vec, direction: Vec, features: seq<seq<Vec>>)
    requires |origin| == |direction| && forall s :: 0 <= s < |features| ==> Features(|origin|, features[s])
  {
    forall s, lines :: 0 <= s < |features| && LinesOf(origin, direction, features[s], lines) ==>
      InRange(lines, TrueAbove(lines))
  }

  /** The cell of x holds a best selection whose score is one of the cell scores. */
  lemma CellScoreAt(origin: Vec, direction: Vec, features: seq<seq<Vec>>, nbest: seq<seq<Line>>, data: Scorer.ScoreData,
                    calculateScore: seq<int> -> real, fields: nat, first: seq<nat>, thr: seq<LineSearch.Entry>,
                    scores: seq<real>, k: nat, x: real)
    requires Setting(origin, direction, features, data, fields)
    requires |nbest| == |features| && forall s :: 0 <= s < |features| ==> LinesOf(origin, direction, features[s], nbest[s])
    requires thr != [] && LineSearch.CellsBest(nbest, TrueAboves(nbest), first, thr)
    requires LineSearch.CellScores(data, calculateScore, fields, first, thr, scores)
    requires LineSearch.InCell(thr, k, x)
    ensures k < |scores| && ScoreAt(origin, direction, features, data, calculateScore, fields, x, scores[k])
  {
    var sel := Scorer.Selected(first, LineSearch.DiffLists(thr), k);
    SelectionAtPoint(origin, direction, features, nbest, sel, x);
    assert Scorer.IsScore(data, calculateScore, first, LineSearch.DiffLists(thr), fields, k, scores[k]);
    assert Realises(data, calculateScore, fields, sel, scores[k]);
  }

  /** Some candidate of the sentence is best on an interval of the line shorter than MIN_INT only. */
  ghost predicate BrieflyBest(origin: Vec, direction: Vec, feats: seq<Vec>)
    requires |origin| == |direction| && Features(|origin|, feats)
  {
    exists lines :: LinesOf(origin, direction, feats, lines) && LineSearch.HasBriefBest(|lines|, TrueAbove(lines))
  }

  /** LineOptimize on points.  Unless some candidate of a sentence is best on too short an interval only, so that two
      thresholds are merged: at every position of the line some best selection scores at most bestscore, and at the
      chosen position, before snapping it to the origin, some best selection scores exactly bestscore. */
  method OptimizeLine(origin: Vec, direction: Vec, features: seq<seq<Vec>>, data: Scorer.ScoreData,
                      calculateScore: seq<int> -> real, ghost fields: nat)
    returns (merged: bool, bestscore: real, bestpoint: Vec, snapped: bool, ghost bestx: real)
    requires Setting(origin, direction, features, data, fields) && LinesInRange(origin, direction, features)
    requires forall totals: seq<int> :: MIN_FLOAT < calculateScore(totals) <= MAX_FLOAT
    ensures !merged ==> Optimal(origin, direction, features, data, calculateScore, fields, bestx, bestscore)
    ensures !merged ==> (snapped <==> -0.00015 < bestx < 0.00015)
    ensures !merged ==> bestpoint == At(origin, direction, if snapped then 0.0 else bestx)
    ensures merged <==> exists s :: 0 <= s < |features| && BrieflyBest(origin, direction, features[s])
  {
    var nbest := AllLines(origin, direction, features);
    ghost var aboves := TrueAboves(nbest);
    forall s | 0 <= s < |nbest| ensures Exact(nbest[s], aboves[s]) && InRange(nbest[s], aboves[s]) {
      TrueAboveIsExact(nbest[s]);
      assert LinesOf(origin, direction, features[s], nbest[s]);
    }
    var x;
    ghost var first, thr, raw, scores, best;
    merged, bestscore, x, first, thr, raw, scores, best, bestx :=
      LineSearch.LineOptimize(nbest, data, calculateScore, Scorer.NoReg, fields, aboves);
    snapped := -0.00015 < x < 0.00015;
    bestpoint := Move(origin, direction, x);
    if merged {
      ghost var s :| 0 <= s < |nbest| && s < |aboves| && LineSearch.HasBriefBest(|nbest[s]|, aboves[s]);
      assert aboves[s] == TrueAbove(nbest[s]);
      assert BrieflyBest(origin, direction, features[s]);
    } else {
      assert raw == scores;
      forall s | 0 <= s < |features| ensures !BrieflyBest(origin, direction, features[s]) {
        assert forall lines :: LinesOf(origin, direction, features[s], lines) ==> lines == nbest[s];
        assert aboves[s] == TrueAbove(nbest[s]) && !LineSearch.HasBriefBest(|nbest[s]|, aboves[s]);
      }
      CellScoreAt(origin, direction, features, nbest, data, calculateScore, fields, first, thr, scores, best, bestx);
      forall y: real
        ensures AtMost(origin, direction, features, data, calculateScore, fields, y, bestscore)
      {
        var k := CellOf(thr, y);
        CellScoreAt(origin, direction, features, nbest, data, calculateScore, fields, first, thr, scores, k, y);
      }
    }
  }
}
