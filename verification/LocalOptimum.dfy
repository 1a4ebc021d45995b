/** The tuner's search with the line search on points (mert/Optimizer.cpp, SimpleOptimizer::TrueRun, LineOptimize and
    Get1bests). */
module LocalOptimum {
  import opened Point
  import opened Powell
  import Scorer

  // ---------------------------------------------------------------- the score of a point

  /** What Get1best returns: the first candidate of greatest score. */
  ghost predicate IsFirstBest(p: Vec, feats: seq<Vec>, c: nat)
    requires Features(|p|, feats)
  {
    BestAtPoint(p, feats, c) && forall j :: 0 <= j < c ==> Dot(p, feats[j], |p|) < Dot(p, feats[c], |p|)
  }

  lemma {:induction false} FirstBestSoFar(p: Vec, feats: seq<Vec>, n: nat) returns (c: nat)
    requires Features(|p|, feats) && 0 < n <= |feats|
    ensures c < n && forall j :: 0 <= j < n ==>
              Dot(p, feats[j], |p|) <= Dot(p, feats[c], |p|) && (j < c ==> Dot(p, feats[j], |p|) < Dot(p, feats[c], |p|))
  {
    c := 0;
    if n > 1 {
      c := FirstBestSoFar(p, feats, n - 1);
      if Dot(p, feats[c], |p|) < Dot(p, feats[n - 1], |p|) { c := n - 1; }
    }
  }

  ghost function FirstCandidate(p: Vec, feats: seq<Vec>): (c: nat)
    requires Features(|p|, feats)
    ensures IsFirstBest(p, feats, c)
  {
    FirstBestExists(p, feats);
    var c :| IsFirstBest(p, feats, c);
    c
  }

  lemma FirstBestExists(p: Vec, feats: seq<Vec>)
    requires Features(|p|, feats)
    ensures exists c :: IsFirstBest(p, feats, c)
  {
    var c := FirstBestSoFar(p, feats, |feats|);
    assert IsFirstBest(p, feats, c);
  }

  /** Get1bests. */
  ghost function FirstBests(p: Vec, features: seq<seq<Vec>>): (sel: seq<nat>)
    requires forall s :: 0 <= s < |features| ==> Features(|p|, features[s])
    ensures BestSelection(p, features, sel)
  {
    seq(|features|, s requires 0 <= s < |features| => FirstCandidate(p, features[s]))
  }

  /** The data that a tuner works on. */
  datatype Task = Task(dim: nat, features: seq<seq<Vec>>, data: Scorer.ScoreData, calculateScore: seq<int> -> real, fields: nat)

  ghost predicate Proper(t: Task) {
    && |t.features| == |t.data| > 0
    && (forall s :: 0 <= s < |t.features| ==> Features(t.dim, t.features[s]) && |t.features[s]| == |t.data[s]|)
    && (forall s, c :: 0 <= s < |t.data| && 0 <= c < |t.data[s]| ==> |t.data[s][c]| == t.fields)
  }

  lemma BestsAreScored(t: Task, p: Vec, sel: seq<nat>)
    requires Proper(t) && |p| == t.dim && BestSelection(p, t.features, sel)
    ensures Scorer.Selection(t.data, sel) && Scorer.Uniform(t.data, sel, t.fields)
  {
    forall s | 0 <= s < |sel| ensures sel[s] < |t.data[s]| {
      assert BestAtPoint(p, t.features[s], sel[s]);
    }
  }

  /** GetStatScore: the corpus score of the first best candidates. */
  ghost function ScoreOf(t: Task, p: Vec): real
    requires Proper(t)
  {
    if |p| != t.dim then 0.0
    else
      BestsAreScored(t, p, FirstBests(p, t.features));
      t.calculateScore(Scorer.Totals(t.data, FirstBests(p, t.features), t.fields))
  }

  /** No two candidates of a sentence tie for the best score at p. */
  ghost predicate Untied(t: Task, p: Vec)
    requires Proper(t)
  {
    |p| == t.dim && forall s, i, j :: 0 <= s < |t.features| ==>
      BestAtPoint(p, t.features[s], i) && BestAtPoint(p, t.features[s], j) ==> i == j
  }

  // ---------------------------------------------------------------- the line searches

  /** The direction of axis d. */
  function Axis(dim: nat, d: nat): (v: Vec)
    ensures |v| == dim
  {
    seq(dim, i => if i == d then 1.0 else 0.0)
  }

  ghost function OnAxis(p: Vec, d: nat, x: real): Vec {
    At(p, Axis(|p|, d), x)
  }

  /** Along axis d only coordinate d moves. */
  lemma OnAxisIs(p: Vec, d: nat, x: real, i: nat)
    requires i < |p|
    ensures |OnAxis(p, d, x)| == |p| && OnAxis(p, d, x)[i] == p[i] + if i == d then x else 0.0
  {}

  /** Score and point are what OptimizeLine returns from p along axis d, found at position x, which has not been
      snapped to the start, and where the best candidates do not tie. */
  ghost predicate FoundAt(t: Task, p: Vec, d: nat, score: real, point: Vec, x: real)
    requires Proper(t)
  {
    && |p| == t.dim && Optimal(p, Axis(|p|, d), t.features, t.data, t.calculateScore, t.fields, x, score)
    && point == OnAxis(p, d, x) && Untied(t, point)
  }

  ghost predicate Found(t: Task, p: Vec, d: nat, score: real, point: Vec)
    requires Proper(t)
  {
    exists x :: FoundAt(t, p, d, score, point, x)
  }

  /** One line search of the tuner finds such a point, unless thresholds are merged, the point is snapped to the
      start or its best candidates tie. */
  method SearchAxis(t: Task, p: Vec, d: nat) returns (merged: bool, score: real, point: Vec, snapped: bool)
    requires Proper(t) && |p| == t.dim && LinesInRange(p, Axis(|p|, d), t.features)
    requires forall totals: seq<int> :: -Scorer.MAX_FLOAT < t.calculateScore(totals) <= Scorer.MAX_FLOAT
    ensures merged <==> exists s :: 0 <= s < |t.features| && BrieflyBest(p, Axis(|p|, d), t.features[s])
    ensures !merged && !snapped && Untied(t, point) ==> Found(t, p, d, score, point)
  {
    ghost var x;
    merged, score, point, snapped, x := OptimizeLine(p, Axis(|p|, d), t.features, t.data, t.calculateScore, t.fields);
    assert !merged && !snapped && Untied(t, point) ==> FoundAt(t, p, d, score, point, x);
  }

  /** All line searches of a run find such points. */
  ghost predicate AllFound(t: Task, line: Search<Vec>, start: Vec, bests: seq<Best<Vec>>)
    requires Proper(t)
  {
    forall k, d: nat :: 0 <= k < |bests| - 1 && d < t.dim ==>
      Found(t, From(start, bests, k), d, line(From(start, bests, k), d).0, line(From(start, bests, k), d).1)
  }

  /** Where the best candidates do not tie, the score of a best selection is the score of the point. */
  lemma UntiedScore(t: Task, p: Vec, d: nat, x: real, score: real)
    requires Proper(t) && |p| == t.dim && Untied(t, OnAxis(p, d, x))
    requires ScoreAt(p, Axis(|p|, d), t.features, t.data, t.calculateScore, t.fields, x, score)
    ensures score == ScoreOf(t, OnAxis(p, d, x))
  {
    var q := OnAxis(p, d, x);
    var sel :| BestSelection(q, t.features, sel) && Realises(t.data, t.calculateScore, t.fields, sel, score);
    UniqueSelection(q, t.features, sel, FirstBests(q, t.features));
  }

  /** r is on axis d through p, and its best candidates do not tie. */
  ghost predicate OnLine(t: Task, p: Vec, d: nat, r: Vec)
    requires Proper(t)
  {
    exists x :: r == OnAxis(p, d, x) && Untied(t, r)
  }

  lemma FoundIsExact(t: Task, p: Vec, d: nat, score: real, point: Vec, r: Vec)
    requires Proper(t) && Found(t, p, d, score, point)
    ensures ScoreOf(t, point) == score && (OnLine(t, p, d, r) ==> ScoreOf(t, r) <= score)
  {
    var x :| FoundAt(t, p, d, score, point, x);
    UntiedScore(t, p, d, x, score);
    if OnLine(t, p, d, r) {
      var y :| r == OnAxis(p, d, y) && Untied(t, r);
      assert AtMost(p, Axis(|p|, d), t.features, t.data, t.calculateScore, t.fields, y, score);
      var other :| other <= score && ScoreAt(p, Axis(|p|, d), t.features, t.data, t.calculateScore, t.fields, y, other);
      UntiedScore(t, p, d, y, other);
    }
  }

  /** With the line search on points in its place: the search returns a point with its score, which is at least that
      of the start and at most EPS above that of the point q before the last round. On every axis through q, some
      best selection scores at most that everywhere, and so does the point itself where its best candidates do not
      tie. */
  lemma EndsAtOptimumOfAxes(t: Task, line: Search<Vec>, start: Vec, bests: seq<Best<Vec>>, b: Best<Vec>)
    requires Proper(t) && |start| == t.dim && Run(line, start, Best(ScoreOf(t, start), start), t.dim, bests, b)
    requires AllFound(t, line, start, bests)
    ensures ScoreOf(t, b.point) == b.score >= ScoreOf(t, start)
    ensures var q := From(start, bests, |bests| - 2);
            && |q| == t.dim && b.score - EPS <= ScoreOf(t, q) <= b.score
            && (forall x: real, d: nat :: d < t.dim && Untied(t, OnAxis(q, d, x)) ==> ScoreOf(t, OnAxis(q, d, x)) <= b.score)
            && forall x: real, d: nat :: d < t.dim ==>
                 AtMost(q, Axis(|q|, d), t.features, t.data, t.calculateScore, t.fields, x, b.score)
  {
    var value := (p: Vec) => ScoreOf(t, p);
    var on := (p: Vec, d: nat, r: Vec) => OnLine(t, p, d, r);
    PointsOfTask(t, line, start, bests, |bests| - 2);
    forall k | 0 <= k < |bests| - 1 ensures ExactSearch(line, From(start, bests, k), t.dim, value, on) {
      var p := From(start, bests, k);
      forall d: nat | d < t.dim ensures value(line(p, d).1) == line(p, d).0 && forall r :: on(p, d, r) ==> value(r) <= line(p, d).0 {
        assert Found(t, p, d, line(p, d).0, line(p, d).1);
        forall r: Vec ensures value(line(p, d).1) == line(p, d).0 && (on(p, d, r) ==> value(r) <= line(p, d).0) {
          FoundIsExact(t, p, d, line(p, d).0, line(p, d).1, r);
        }
      }
    }
    EndsAtLocalOptimum(line, start, t.dim, bests, b, value, on);
    var q := From(start, bests, |bests| - 2);
    forall x: real, d: nat | d < t.dim
      ensures AtMost(q, Axis(|q|, d), t.features, t.data, t.calculateScore, t.fields, x, b.score)
      ensures Untied(t, OnAxis(q, d, x)) ==> ScoreOf(t, OnAxis(q, d, x)) <= b.score
    {
      LastRoundBounds(t, line, start, bests, b, d, x);
      if Untied(t, OnAxis(q, d, x)) { assert on(q, d, OnAxis(q, d, x)); }
    }
  }

  lemma {:induction false} PointsOfTask(t: Task, line: Search<Vec>, start: Vec, bests: seq<Best<Vec>>, k: nat)
    requires Proper(t) && |start| == t.dim && k < |bests| && bests[0].point == start
    requires Rounds(line, start, t.dim, bests) && AllFound(t, line, start, bests)
    ensures |bests[k].point| == t.dim && |From(start, bests, k)| == t.dim
  {
    if k > 0 {
      PointsOfTask(t, line, start, bests, k - 1);
      var p := From(start, bests, k - 1);
      assert Round(line, p, t.dim, bests[k - 1], bests[k]);
      if bests[k] != bests[k - 1] {
        var d: nat :| FirstBest(line, p, t.dim, bests[k], d);
        assert Found(t, p, d, line(p, d).0, line(p, d).1);
      }
    }
  }

  lemma LastRoundBounds(t: Task, line: Search<Vec>, start: Vec, bests: seq<Best<Vec>>, b: Best<Vec>, d: nat, x: real)
    requires Proper(t) && d < t.dim && Run(line, start, Best(ScoreOf(t, start), start), t.dim, bests, b)
    requires AllFound(t, line, start, bests)
    ensures var q := From(start, bests, |bests| - 2);
            |q| == t.dim && AtMost(q, Axis(|q|, d), t.features, t.data, t.calculateScore, t.fields, x, b.score)
  {
    var q := From(start, bests, |bests| - 2);
    assert Found(t, q, d, line(q, d).0, line(q, d).1);
    var y :| FoundAt(t, q, d, line(q, d).0, line(q, d).1, y);
    assert Round(line, q, t.dim, bests[|bests| - 2], bests[|bests| - 1]);
    assert AtMost(q, Axis(|q|, d), t.features, t.data, t.calculateScore, t.fields, x, line(q, d).0);
  }
}
