/** Incremental scoring of a line of candidate selections (mert/Scorer.cpp). */
module Scorer {

  /** stats[s][c] are the sufficient statistics of candidate c of sentence s. */
  type ScoreData = seq<seq<seq<int>>>

  /** Sentence and its new candidate. */
  type Diff = (nat, nat)

  datatype Error = DataEmpty | NoCandidates | WrongNumberOfFields(sentence: nat)
  datatype Result<T> = Ok(value: T) | Err(error: Error)

  datatype Regularisation = NoReg | Average(window: nat) | Minimum(window: nat)

  const MAX_FLOAT: real := 340282346638528859811704183484516925440.0

  ghost predicate Selection(data: ScoreData, sel: seq<nat>) {
    |sel| <= |data| && forall s :: 0 <= s < |sel| ==> sel[s] < |data[s]|
  }

  /** A diff that the source may apply: sentence selected, candidate and fields present. */
  ghost predicate Applicable(data: ScoreData, sentences: nat, fields: nat, d: Diff) {
    d.0 < sentences && d.0 < |data| && d.1 < |data[d.0]| && |data[d.0][d.1]| == fields
  }

  ghost predicate Uniform(data: ScoreData, sel: seq<nat>, fields: nat)
    requires Selection(data, sel)
  {
    forall s :: 0 <= s < |sel| ==> |data[s][sel[s]]| == fields
  }

  // ---------------------------------------------------------------- scoring from scratch

  /** Sum of field k over the first n selected candidates. */
  ghost function Field(data: ScoreData, sel: seq<nat>, k: nat, n: nat): int
    requires Selection(data, sel) && n <= |sel|
    requires forall s :: 0 <= s < n ==> k < |data[s][sel[s]]|
  {
    if n == 0 then 0 else Field(data, sel, k, n - 1) + data[n - 1][sel[n - 1]][k]
  }

  /** Statistics of a whole selection. */
  ghost function Totals(data: ScoreData, sel: seq<nat>, fields: nat): seq<int>
    requires Selection(data, sel) && Uniform(data, sel, fields)
  {
    seq(fields, k requires 0 <= k < fields => Field(data, sel, k, |sel|))
  }

  /** The selection after a list of diffs; later diffs of one sentence win. */
  ghost function Apply(sel: seq<nat>, ds: seq<Diff>, n: nat): seq<nat>
    requires n <= |ds| && Within(ds, |sel|)
    ensures |Apply(sel, ds, n)| == |sel|
  {
    if n == 0 then sel else Apply(sel, ds, n - 1)[ds[n - 1].0 := ds[n - 1].1]
  }

  ghost predicate ListApplicable(data: ScoreData, sentences: nat, fields: nat, ds: seq<Diff>) {
    forall j :: 0 <= j < |ds| ==> Applicable(data, sentences, fields, ds[j]) && ds[j].0 < sentences
  }

  ghost predicate AllApplicable(data: ScoreData, sentences: nat, fields: nat, diffs: seq<seq<Diff>>) {
    forall i :: 0 <= i < |diffs| ==> ListApplicable(data, sentences, fields, diffs[i]) && Within(diffs[i], sentences)
  }

  /** Every diff names one of the first n sentences. */
  ghost predicate Within(ds: seq<Diff>, n: nat) {
    forall j :: 0 <= j < |ds| ==> ds[j].0 < n
  }

  /** The selection after the first n lists of diffs. */
  ghost function Selected(sel: seq<nat>, diffs: seq<seq<Diff>>, n: nat): seq<nat>
    requires n <= |diffs| && forall i :: 0 <= i < n ==> Within(diffs[i], |sel|)
    ensures |Selected(sel, diffs, n)| == |sel|
  {
    if n == 0 then sel
    else Apply(Selected(sel, diffs, n - 1), diffs[n - 1], |diffs[n - 1]|)
  }

  /** Replacing one candidate changes every field by the difference of the two candidates. */
  lemma {:induction false} FieldUpdate(data: ScoreData, sel: seq<nat>, fields: nat, d: Diff, k: nat, n: nat)
    requires Selection(data, sel) && Uniform(data, sel, fields) && k < fields && n <= |sel|
    requires Applicable(data, |sel|, fields, d)
    ensures Field(data, sel[d.0 := d.1], k, n) ==
            Field(data, sel, k, n) + if d.0 < n then data[d.0][d.1][k] - data[d.0][sel[d.0]][k] else 0
  {
    if n > 0 { FieldUpdate(data, sel, fields, d, k, n - 1); }
  }

  // ---------------------------------------------------------------- StatisticsBasedScorer::score

  /** One diff, field by field. */
  method ApplyDiff(data: ScoreData, totals: seq<int>, sel: seq<nat>, d: Diff) returns (totals': seq<int>, sel': seq<nat>)
    requires Selection(data, sel) && Uniform(data, sel, |totals|) && totals == Totals(data, sel, |totals|)
    requires Applicable(data, |sel|, |totals|, d)
    ensures sel' == sel[d.0 := d.1] && |totals'| == |totals|
    ensures Selection(data, sel') && Uniform(data, sel', |totals|) && totals' == Totals(data, sel', |totals|)
  {
    var (sid, nid) := d;
    var last := sel[sid];
    totals' := totals;
    for k := 0 to |totals|
      invariant |totals'| == |totals|
      invariant forall m :: 0 <= m < k ==> totals'[m] == totals[m] + data[sid][nid][m] - data[sid][last][m]
      invariant forall m :: k <= m < |totals| ==> totals'[m] == totals[m]
    {
      var diff := data[sid][nid][k] - data[sid][last][k];
      totals' := totals'[k := totals'[k] + diff];
    }
    sel' := sel[sid := nid];
    forall m | 0 <= m < |totals| ensures totals'[m] == Field(data, sel', m, |sel'|) {
      FieldUpdate(data, sel, |totals|, d, m, |sel|);
    }
  }

  /** The middle loop: one list of diffs, in order. */
  method ApplyDiffs(data: ScoreData, totals: seq<int>, sel: seq<nat>, ds: seq<Diff>) returns (totals': seq<int>, sel': seq<nat>)
    requires Selection(data, sel) && Uniform(data, sel, |totals|) && totals == Totals(data, sel, |totals|)
    requires ListApplicable(data, |sel|, |totals|, ds)
    ensures sel' == Apply(sel, ds, |ds|) && |totals'| == |totals|
    ensures Selection(data, sel') && Uniform(data, sel', |totals|) && totals' == Totals(data, sel', |totals|)
  {
    totals', sel' := totals, sel;
    for j := 0 to |ds|
      invariant sel' == Apply(sel, ds, j) && |totals'| == |totals|
      invariant Selection(data, sel') && Uniform(data, sel', |totals|) && totals' == Totals(data, sel', |totals|)
    {
      totals', sel' := ApplyDiff(data, totals', sel', ds[j]);
    }
  }

  /** The first loop: totals of the initial selection, or the first sentence with a wrong field count. */
  method InitialTotals(data: ScoreData, candidates: seq<nat>) returns (r: Result<seq<int>>)
    requires Selection(data, candidates) && candidates != []
    ensures r.Ok? <==> Uniform(data, candidates, |data[0][candidates[0]]|)
    ensures r.Ok? ==> r.value == Totals(data, candidates, |data[0][candidates[0]]|)
    ensures r.Err? ==> (
      && r.error.WrongNumberOfFields? && r.error.sentence < |candidates|
      && |data[r.error.sentence][candidates[r.error.sentence]]| != |data[0][candidates[0]]|)
  {
    var fields := |data[0][candidates[0]]|;
    var totals := seq(fields, _ => 0);
    for i := 0 to |candidates|
      invariant |totals| == fields
      invariant forall s :: 0 <= s < i ==> |data[s][candidates[s]]| == fields
      invariant forall m :: 0 <= m < fields ==> totals[m] == Field(data, candidates, m, i)
    {
      var stats := data[i][candidates[i]];
      if |stats| != fields {
        return Err(WrongNumberOfFields(i));
      }
      ghost var before := totals;
      for k := 0 to fields
        invariant |totals| == fields
        invariant forall m :: 0 <= m < k ==> totals[m] == before[m] + stats[m]
        invariant forall m :: k <= m < fields ==> totals[m] == before[m]
      {
        totals := totals[k := totals[k] + stats[k]];
      }
    }
    return Ok(totals);
  }

  /** Main result: the k-th score is the score of the k-th selection computed from scratch, however
      often a sentence is changed on the way. */
  method RawScores(data: ScoreData, calculateScore: seq<int> -> real, candidates: seq<nat>, diffs: seq<seq<Diff>>)
    returns (r: Result<seq<real>>)
    requires Selection(data, candidates)
    requires candidates != [] ==> AllApplicable(data, |candidates|, |data[0][candidates[0]]|, diffs)
    ensures data == [] ==> r == Err(DataEmpty)
    ensures data != [] && candidates == [] ==> r == Err(NoCandidates)
    ensures candidates != [] ==> (r.Ok? <==> Uniform(data, candidates, |data[0][candidates[0]]|))
    ensures r.Ok? ==> ScoresOf(data, calculateScore, candidates, diffs, |data[0][candidates[0]]|, r.value)
  {
    if |data| == 0 { return Err(DataEmpty); }
    if |candidates| == 0 { return Err(NoCandidates); }
    var initial := InitialTotals(data, candidates);
    if initial.Err? { return Err(initial.error); }
    var totals, last := initial.value, candidates;
    ghost var fields := |data[0][candidates[0]]|;
    var scores := [calculateScore(totals)];
    for i := 0 to |diffs|
      invariant |scores| == i + 1 && last == Selected(candidates, diffs, i)
      invariant Selection(data, last) && Uniform(data, last, fields) && |totals| == fields
      invariant totals == Totals(data, last, fields)
      invariant forall k :: 0 <= k <= i ==> IsScore(data, calculateScore, candidates, diffs, fields, k, scores[k])
    {
      totals, last := ApplyDiffs(data, totals, last, diffs[i]);
      scores := scores + [calculateScore(totals)];
    }
    return Ok(scores);
  }

  ghost predicate IsScore(data: ScoreData, calculateScore: seq<int> -> real, candidates: seq<nat>,
                          diffs: seq<seq<Diff>>, fields: nat, k: nat, score: real)
    requires k <= |diffs| && forall i :: 0 <= i < |diffs| ==> Within(diffs[i], |candidates|)
  {
    var sel := Selected(candidates, diffs, k);
    Selection(data, sel) && Uniform(data, sel, fields) && score == calculateScore(Totals(data, sel, fields))
  }

  ghost predicate ScoresOf(data: ScoreData, calculateScore: seq<int> -> real, candidates: seq<nat>,
                           diffs: seq<seq<Diff>>, fields: nat, scores: seq<real>)
    requires forall i :: 0 <= i < |diffs| ==> Within(diffs[i], |candidates|)
  {
    && |scores| == |diffs| + 1
    && forall k :: 0 <= k < |scores| ==> IsScore(data, calculateScore, candidates, diffs, fields, k, scores[k])
  }

  // ---------------------------------------------------------------- regularisation over a window

  /** score_min over [start, end): the least score of the window. */
  method ScoreMin(scores: seq<real>, start: nat, end: nat) returns (m: real)
    requires start < end <= |scores| && forall i :: start <= i < end ==> scores[i] <= MAX_FLOAT
    ensures exists i :: start <= i < end && m == scores[i]
    ensures forall i :: start <= i < end ==> m <= scores[i]
  {
    m := MAX_FLOAT;
    for i := start to end
      invariant i == start ==> m == MAX_FLOAT
      invariant i > start ==> exists k :: start <= k < i && m == scores[k]
      invariant forall k :: start <= k < i ==> m <= scores[k]
    {
      if scores[i] < m { m := scores[i]; }
    }
  }

  ghost function SumOf(scores: seq<real>, start: nat, end: nat): real
    requires start <= end <= |scores|
  {
    if start == end then 0.0 else SumOf(scores, start, end - 1) + scores[end - 1]
  }

  /** score_average over [start, end); the source guards the empty window. */
  method ScoreAverage(scores: seq<real>, start: nat, end: nat) returns (a: real)
    requires start <= end <= |scores|
    ensures a == if start == end then 0.0 else SumOf(scores, start, end) / (end - start) as real
  {
    if end - start < 1 { return 0.0; }
    var total := 0.0;
    for j := start to end
      invariant total == SumOf(scores, start, j)
    {
      total := total + scores[j];
    }
    a := total / (end - start) as real;
  }

  /** The window around position i, clipped to the scores that exist. */
  function Window(n: nat, i: nat, w: nat): (bounds: (nat, nat))
    requires i < n
    ensures bounds.0 <= i < bounds.1 <= n
    ensures i - w <= bounds.0 && bounds.1 <= i + w + 1
    ensures (bounds.0 > 0 ==> bounds.0 == i - w) && (bounds.1 < n ==> bounds.1 == i + w + 1)
  {
    (if i >= w then i - w else 0, if n <= i + w + 1 then n else i + w + 1)
  }

  ghost predicate Smoothed(raw: seq<real>, reg: Regularisation, i: nat, s: real)
    requires i < |raw|
  {
    match reg
    case NoReg => s == raw[i]
    case Average(w) =>
      if w == 0 then s == raw[i]
      else var b := Window(|raw|, i, w); s == SumOf(raw, b.0, b.1) / (b.1 - b.0) as real
    case Minimum(w) =>
      if w == 0 then s == raw[i]
      else
        var b := Window(|raw|, i, w);
        (exists k :: b.0 <= k < b.1 && s == raw[k]) && forall k :: b.0 <= k < b.1 ==> s <= raw[k]
  }

  ghost predicate Regularised(raw: seq<real>, reg: Regularisation, scores: seq<real>) {
    |scores| == |raw| && forall i :: 0 <= i < |raw| ==> Smoothed(raw, reg, i, scores[i])
  }

  /** The last part of score: every value is taken from the scores before smoothing. */
  method Regularise(raw: seq<real>, reg: Regularisation) returns (scores: seq<real>)
    requires forall i :: 0 <= i < |raw| ==> raw[i] <= MAX_FLOAT
    ensures Regularised(raw, reg, scores)
  {
    scores := raw;
    if reg.NoReg? || reg.window <= 0 { return; }
    for i := 0 to |raw|
      invariant |scores| == |raw|
      invariant forall k :: 0 <= k < i ==> Smoothed(raw, reg, k, scores[k])
    {
      var (start, end) := Window(|raw|, i, reg.window);
      var s;
      if reg.Average? {
        s := ScoreAverage(raw, start, end);
      } else {
        s := ScoreMin(raw, start, end);
      }
      scores := scores[i := s];
    }
  }

  /** StatisticsBasedScorer::score: the scores from scratch of all selections, then smoothed over their window. */
  method Score(data: ScoreData, calculateScore: seq<int> -> real, candidates: seq<nat>, diffs: seq<seq<Diff>>, reg: Regularisation)
    returns (r: Result<seq<real>>, ghost raw: seq<real>)
    requires Selection(data, candidates) && forall totals: seq<int> :: calculateScore(totals) <= MAX_FLOAT
    requires candidates != [] ==> AllApplicable(data, |candidates|, |data[0][candidates[0]]|, diffs)
    ensures data == [] ==> r == Err(DataEmpty)
    ensures data != [] && candidates == [] ==> r == Err(NoCandidates)
    ensures candidates != [] ==> (r.Ok? <==> Uniform(data, candidates, |data[0][candidates[0]]|))
    ensures r.Ok? ==> ScoresOf(data, calculateScore, candidates, diffs, |data[0][candidates[0]]|, raw)
    ensures r.Ok? ==> Regularised(raw, reg, r.value)
  {
    hide Smoothed, Uniform;
    r, raw := Err(DataEmpty), [];
    var rawScores := RawScores(data, calculateScore, candidates, diffs);
    if rawScores.Err? { return rawScores, []; }
    raw := rawScores.value;
    ScoresAreFinite(data, calculateScore, candidates, diffs, |data[0][candidates[0]]|, raw);
    var scores := Regularise(rawScores.value, reg);
    r := Ok(scores);
  }

  lemma ScoresAreFinite(data: ScoreData, calculateScore: seq<int> -> real, candidates: seq<nat>, diffs: seq<seq<Diff>>,
                        fields: nat, raw: seq<real>)
    requires (forall i :: 0 <= i < |diffs| ==> Within(diffs[i], |candidates|)) && ScoresOf(data, calculateScore, candidates, diffs, fields, raw)
    requires forall totals: seq<int> :: calculateScore(totals) <= MAX_FLOAT
    ensures forall k :: 0 <= k < |raw| ==> raw[k] <= MAX_FLOAT
  {
    forall k | 0 <= k < |raw| ensures raw[k] <= MAX_FLOAT {
      assert IsScore(data, calculateScore, candidates, diffs, fields, k, raw[k]);
    }
  }

  /** Smoothing does not leave the range of the scores. */
  lemma SmoothedInRange(raw: seq<real>, reg: Regularisation, i: nat, s: real, lo: real)
    requires i < |raw| && Smoothed(raw, reg, i, s) && forall k :: 0 <= k < |raw| ==> lo < raw[k]
    ensures lo < s
  {
    if reg.Average? && reg.window > 0 {
      var b := Window(|raw|, i, reg.window);
      SumInRange(raw, b.0, b.1, lo);
      MeanInRange(SumOf(raw, b.0, b.1), (b.1 - b.0) as real, lo);
    }
  }

  lemma {:induction false} SumInRange(raw: seq<real>, start: nat, end: nat, lo: real)
    requires start < end <= |raw| && forall k :: 0 <= k < |raw| ==> lo < raw[k]
    ensures lo * (end - start) as real < SumOf(raw, start, end)
    decreases end
  {
    if start < end - 1 {
      SumInRange(raw, start, end - 1, lo);
      assert lo * (end - start) as real == lo * (end - 1 - start) as real + lo;
    }
  }

  lemma MeanInRange(sum: real, n: real, lo: real)
    requires n > 0.0 && lo * n < sum
    ensures lo < sum / n
  {
    var mean := sum / n;
    assert mean * n == sum && (mean - lo) * n == mean * n - lo * n;
    PositiveFactor(mean - lo, n);
  }

  lemma PositiveFactor(x: real, n: real)
    requires n > 0.0 && x * n > 0.0
    ensures x > 0.0
  {
  }
}
