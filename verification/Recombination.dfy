/** Recombination: when two hypotheses may be merged (moses/src/Hypothesis.cpp, RecombineCompare and CalcScore;
    moses/src/DummyScoreProducers.cpp; moses/src/InputType.cpp). */
module Recombination {
  import opened LanguageModel
  import BackOff

  /** A translation option: source range, target phrase, and the score that it brings along. */
  datatype TransOpt = TransOpt(start: nat, end: nat, phrase: seq<Word>, score: real)

  /** A hypothesis over a source of the given length. */
  datatype Hyp = Initial(size: nat) | Next(prev: Hyp, opt: TransOpt)

  datatype Weights = Weights(lm: real, distortion: real, wordPenalty: real)

  /** The models: n-gram table, its order and sentence symbols, and the weights. */
  datatype Models = Models(table: BackOff.Table, order: nat, start: Word, end: Word, weights: Weights) {
    function NGrams(): Lm<seq<Word>> {
      Lm(order, start, end, w => BackOff.Value(table, w), w => BackOff.Longest(table, w))
    }
  }

  // ---------------------------------------------------------------- coverage

  function Size(h: Hyp): nat {
    if h.Initial? then h.size else Size(h.prev)
  }

  function Marked(c: seq<bool>, start: nat, end: nat): (r: seq<bool>)
    ensures |r| == |c|
  {
    seq(|c|, i requires 0 <= i < |c| => c[i] || start <= i <= end)
  }

  /** m_sourceCompleted */
  function Coverage(h: Hyp): (c: seq<bool>)
    ensures |c| == Size(h)
  {
    if h.Initial? then seq(h.size, _ => false) else Marked(Coverage(h.prev), h.opt.start, h.opt.end)
  }

  predicate Complete(c: seq<bool>) {
    forall i :: 0 <= i < |c| ==> c[i]
  }

  /** The option covers words of the source that are still open, and has target words. */
  predicate Applicable(h: Hyp, o: TransOpt) {
    o.start <= o.end < Size(h) && o.phrase != [] && forall i :: o.start <= i <= o.end ==> !Coverage(h)[i]
  }

  predicate Legal(h: Hyp) {
    h.Next? ==> Legal(h.prev) && Applicable(h.prev, h.opt)
  }

  /** How many of the phrases translate word i. */
  function TimesTranslated(h: Hyp, i: nat): nat {
    if h.Initial? then 0 else TimesTranslated(h.prev, i) + if h.opt.start <= i <= h.opt.end then 1 else 0
  }

  /** The phrases of a hypothesis translate no word twice, and its coverage says which are translated. */
  lemma {:induction false} CoverageMeans(h: Hyp, i: nat)
    requires Legal(h)
    ensures TimesTranslated(h, i) <= 1
    ensures TimesTranslated(h, i) == 1 <==> i < Size(h) && Coverage(h)[i]
  {
    if h.Next? {
      CoverageMeans(h.prev, i);
      assert Applicable(h.prev, h.opt) && Size(h) == Size(h.prev);
      assert h.opt.start <= i <= h.opt.end ==> !Coverage(h.prev)[i];
    }
  }

  predicate Untranslated(h: Hyp, i: nat) {
    TimesTranslated(h, i) == 0
  }

  predicate TranslatedOnce(h: Hyp, i: nat) {
    TimesTranslated(h, i) == 1
  }

  /** Every option with target words may follow whose words lie in the source and have not been translated. */
  lemma ApplicableMeans(h: Hyp, o: TransOpt)
    requires Legal(h)
    ensures Applicable(h, o) <==>
              |o.phrase| > 0 && o.start <= o.end < Size(h) && forall i: nat :: o.start <= i <= o.end ==> Untranslated(h, i)
  {
    if Applicable(h, o) {
      forall i: nat | o.start <= i <= o.end ensures Untranslated(h, i) {
        CoverageMeans(h, i);
        assert !Coverage(h)[i];
      }
    }
    if o.start <= o.end < Size(h) && forall i: nat :: o.start <= i <= o.end ==> Untranslated(h, i) {
      forall i: nat | o.start <= i <= o.end ensures !Coverage(h)[i] {
        CoverageMeans(h, i);
        assert Untranslated(h, i);
      }
    }
  }

  /** A complete hypothesis translates every word once. */
  lemma CompleteMeans(h: Hyp)
    requires Legal(h)
    ensures Complete(Coverage(h)) <==> forall i :: 0 <= i < Size(h) ==> TranslatedOnce(h, i)
  {
    if Complete(Coverage(h)) {
      forall i | 0 <= i < Size(h) ensures TranslatedOnce(h, i) {
        CoverageMeans(h, i);
        assert Coverage(h)[i];
      }
    }
    if forall i :: 0 <= i < Size(h) ==> TranslatedOnce(h, i) {
      forall i | 0 <= i < Size(h) ensures Coverage(h)[i] {
        CoverageMeans(h, i);
        assert TranslatedOnce(h, i);
      }
    }
  }

  // ---------------------------------------------------------------- feature functions

  /** The hypothesis as the language model sees it. */
  function LmHypo(h: Hyp): Hypo {
    if h.Initial? then Empty else Extended(LmHypo(h.prev), h.opt.phrase, Complete(Coverage(h)))
  }

  /** ComputeDistortionDistance from the range of the last phrase, none at the start. */
  function DistortionDistance(h: Hyp, o: TransOpt): int {
    var dist := if h.Initial? then o.start else h.opt.end - o.start + 1;
    if dist < 0 then -dist else dist
  }

  /** The distance is the number of words that are jumped over: from behind the last phrase on to the start of the
      next one, or back to it; none exactly for the phrase right behind the last one. At the start, the words in front
      of the first one. */
  lemma DistanceMeans(h: Hyp, o: TransOpt)
    ensures h.Initial? ==> DistortionDistance(h, o) == o.start
    ensures h.Next? ==> (DistortionDistance(h, o) == 0 <==> o.start == h.opt.end + 1)
    ensures h.Next? && h.opt.end < o.start ==> (h.opt.end + 1) + DistortionDistance(h, o) == o.start
    ensures h.Next? && o.start <= h.opt.end ==> o.start + DistortionDistance(h, o) == h.opt.end + 1
  {}

  /** The weighted scores of one step. */
  ghost function Weighted(w: Weights, lm: real, distortion: int, words: nat): real {
    w.lm * lm - w.distortion * distortion as real - w.wordPenalty * words as real
  }

  /** A longer jump costs, and so does every word. */
  lemma JumpsAndWordsCost(w: Weights, lm: real, distortion: int, words: nat, more: nat)
    requires more > 0
    ensures w.distortion > 0.0 ==> Weighted(w, lm, distortion + more, words) < Weighted(w, lm, distortion, words)
    ensures w.wordPenalty > 0.0 ==> Weighted(w, lm, distortion, words + more) < Weighted(w, lm, distortion, words)
    ensures Weighted(w, lm, 0, 0) == w.lm * lm
  {
    Distributes(w.distortion, distortion as real, more as real);
    Distributes(w.wordPenalty, words as real, more as real);
  }

  lemma Distributes(w: real, x: real, more: real)
    requires more > 0.0
    ensures w * (x + more) == w * x + w * more && (w > 0.0 ==> w * more > 0.0)
  {}

  ghost function Increment(m: Models, h: Hyp, o: TransOpt): real
    requires o.phrase != [] && m.order >= 1
  {
    o.score + Weighted(m.weights, BoundaryScore(m.NGrams(), LmHypo(Next(h, o))), DistortionDistance(h, o), |o.phrase|)
  }

  ghost function Score(m: Models, h: Hyp): real
    requires Legal(h) && m.order >= 1
  {
    if h.Initial? then 0.0 else Score(m, h.prev) + Increment(m, h.prev, h.opt)
  }

  /** What the phrases bring along, their boundary scores, jumped words and target words, summed up. */
  ghost function OptionScores(h: Hyp): real {
    if h.Initial? then 0.0 else OptionScores(h.prev) + h.opt.score
  }

  ghost function BoundaryScores(m: Models, h: Hyp): real
    requires Legal(h) && m.order >= 1
  {
    if h.Initial? then 0.0 else BoundaryScores(m, h.prev) + BoundaryScore(m.NGrams(), LmHypo(h))
  }

  ghost function JumpedWords(h: Hyp): int {
    if h.Initial? then 0 else JumpedWords(h.prev) + DistortionDistance(h.prev, h.opt)
  }

  ghost function TargetWords(h: Hyp): nat {
    if h.Initial? then 0 else TargetWords(h.prev) + |h.opt.phrase|
  }

  /** The score is what the phrases bring along, plus the weighted boundary scores, less the weighted numbers of words
      that were jumped over and of target words. */
  lemma {:induction false} ScoreMeans(m: Models, h: Hyp)
    requires Legal(h) && m.order >= 1
    ensures Score(m, h) == OptionScores(h) + Weighted(m.weights, BoundaryScores(m, h), JumpedWords(h), TargetWords(h))
  {
    hide Weighted, BoundaryScore, Coverage, DistortionDistance;
    if h.Next? {
      ScoreMeans(m, h.prev);
      assert Next(h.prev, h.opt) == h;
      WeightedAdds(m.weights, BoundaryScores(m, h.prev), JumpedWords(h.prev), TargetWords(h.prev),
                   BoundaryScore(m.NGrams(), LmHypo(h)), DistortionDistance(h.prev, h.opt), |h.opt.phrase|);
    } else {
      NothingWeighted(m.weights);
    }
  }

  lemma WeightedAdds(w: Weights, a: real, d: int, n: nat, a': real, d': int, n': nat)
    ensures Weighted(w, a + a', d + d', n + n') == Weighted(w, a, d, n) + Weighted(w, a', d', n')
  {
    Product(w.lm, a, a');
    Product(w.distortion, d as real, d' as real);
    Product(w.wordPenalty, n as real, n' as real);
  }

  lemma NothingWeighted(w: Weights)
    ensures Weighted(w, 0.0, 0, 0) == 0.0
  {}

  lemma Product(w: real, x: real, y: real)
    ensures w * (x + y) == w * x + w * y
  {}

  /** The language model state: the longest known context. */
  ghost function LmState(m: Models, h: Hyp): seq<Word>
    requires h.Next? && h.opt.phrase != [] && m.order >= 1
  {
    BackOff.Longest(m.table, StateWindow(m.NGrams(), LmHypo(h)))
  }

  /** What RecombineCompare looks at. */
  ghost predicate Equivalent(m: Models, a: Hyp, b: Hyp)
    requires m.order >= 1
  {
    && a.Next? && b.Next? && Legal(a) && Legal(b)
    && Coverage(a) == Coverage(b) && a.opt.end == b.opt.end && LmState(m, a) == LmState(m, b)
  }

  // ---------------------------------------------------------------- the bisimulation

  /** Window p of the phrase behind text. */
  ghost function Inner(m: Models, text: seq<Word>, phrase: seq<Word>, p: nat): seq<Word>
    requires p < |phrase|
  {
    Window(m.NGrams(), text + phrase, |text| + p)
  }

  ghost predicate SameContext(m: Models, v: seq<Word>, w: seq<Word>) {
    |v| == |w| && BackOff.Longest(m.table, v) == BackOff.Longest(m.table, w)
  }

  /** Behind texts with the same state every window of the phrase scores the same and leaves the same state. */
  lemma {:induction false} SameWindows(m: Models, a: seq<Word>, b: seq<Word>, phrase: seq<Word>, p: nat)
    requires m.order >= 1 && BackOff.Closed(m.table) && a != [] && b != [] && p < |phrase|
    requires SameContext(m, Window(m.NGrams(), a, |a| - 1), Window(m.NGrams(), b, |b| - 1))
    ensures BackOff.Value(m.table, Inner(m, a, phrase, p)) == BackOff.Value(m.table, Inner(m, b, phrase, p))
    ensures SameContext(m, Inner(m, a, phrase, p), Inner(m, b, phrase, p))
  {
    hide BackOff.Closed, BackOff.Longest, BackOff.Value, Window;
    var lm := m.NGrams();
    WindowShift(lm, a + phrase, |a| + p - 1);
    WindowShift(lm, b + phrase, |b| + p - 1);
    var v, w := Window(lm, a + phrase, |a| + p - 1), Window(lm, b + phrase, |b| + p - 1);
    if p == 0 {
      WindowPrefix(lm, a, phrase, |a| - 1);
      WindowPrefix(lm, b, phrase, |b| - 1);
    } else {
      SameWindows(m, a, b, phrase, p - 1);
    }
    BackOff.SameStateStep(m.table, v, w, phrase[p]);
  }

  /** The end window is one step further. */
  lemma EndIsShift(lm: Lm, text: seq<Word>)
    requires lm.order >= 1 && text != []
    ensures EndWindow(lm, text) == Window(lm, text, |text| - 1)[1..] + [lm.end]
  {
    var a, b := EndWindow(lm, text), Window(lm, text, |text| - 1)[1..] + [lm.end];
    forall k | 0 <= k < lm.order ensures a[k] == b[k] {
      EndWindowItem(lm, text, k);
      if k < lm.order - 1 { WindowItem(lm, text, |text| - 1, k + 1); }
    }
    assert a == b;
  }

  lemma {:induction false} SameSums(m: Models, a: seq<Word>, b: seq<Word>, phrase: seq<Word>, lo: nat, hi: nat)
    requires m.order >= 1 && BackOff.Closed(m.table) && a != [] && b != [] && lo <= hi <= |phrase|
    requires SameContext(m, Window(m.NGrams(), a, |a| - 1), Window(m.NGrams(), b, |b| - 1))
    ensures Windows(m.NGrams(), a + phrase, |a| + lo, |a| + hi) == Windows(m.NGrams(), b + phrase, |b| + lo, |b| + hi)
    decreases hi
  {
    hide BackOff.Closed, BackOff.Longest, BackOff.Value, Window, SameContext;
    if lo < hi {
      SameSums(m, a, b, phrase, lo, hi - 1);
      SameWindows(m, a, b, phrase, hi - 1);
    }
  }

  /** The state of a hypothesis that does not cover the whole source is that of its last window. */
  lemma OpenState(m: Models, h: Hyp, o: TransOpt)
    requires m.order >= 1 && h.Next? && h.opt.phrase != [] && Applicable(h, o)
    ensures LmState(m, h) == BackOff.Longest(m.table, Window(m.NGrams(), Text(LmHypo(h)), |Text(LmHypo(h))| - 1))
    ensures Text(LmHypo(h)) != []
  {
    assert !Coverage(h)[o.start];
  }

  /** What equivalent hypotheses share before they are extended. */
  lemma SharedContext(m: Models, a: Hyp, b: Hyp, o: TransOpt)
    requires m.order >= 1 && Equivalent(m, a, b) && Applicable(a, o) && Applicable(b, o)
    ensures var v, w := Text(LmHypo(a)), Text(LmHypo(b));
            && v != [] && w != [] && o.phrase != []
            && SameContext(m, Window(m.NGrams(), v, |v| - 1), Window(m.NGrams(), w, |w| - 1))
    ensures Complete(Coverage(Next(a, o))) == Complete(Coverage(Next(b, o)))
  {
    hide Coverage, Applicable, Window;
    PhraseNonEmpty(a.prev, a.opt);
    PhraseNonEmpty(b.prev, b.opt);
    PhraseNonEmpty(a, o);
    OpenState(m, a, o);
    OpenState(m, b, o);
    SameCoverage(a, b, o);
  }

  /** The last windows after the same phrase, and after the end symbol. */
  lemma SameLastWindows(m: Models, a: seq<Word>, b: seq<Word>, phrase: seq<Word>)
    requires m.order >= 1 && BackOff.Closed(m.table) && a != [] && b != [] && phrase != []
    requires SameContext(m, Window(m.NGrams(), a, |a| - 1), Window(m.NGrams(), b, |b| - 1))
    ensures var lm, v, w := m.NGrams(), a + phrase, b + phrase;
            && SameContext(m, Window(lm, v, |v| - 1), Window(lm, w, |w| - 1))
            && SameContext(m, EndWindow(lm, v), EndWindow(lm, w))
            && BackOff.Value(m.table, EndWindow(lm, v)) == BackOff.Value(m.table, EndWindow(lm, w))
  {
    hide BackOff.Closed, BackOff.Longest, BackOff.Value, Window, EndWindow;
    var lm, v, w := m.NGrams(), a + phrase, b + phrase;
    SameWindows(m, a, b, phrase, |phrase| - 1);
    EndIsShift(lm, v);
    EndIsShift(lm, w);
    BackOff.SameStateStep(m.table, Window(lm, v, |v| - 1), Window(lm, w, |w| - 1), lm.end);
  }

  /** Extending equivalent hypotheses by one option costs the same language model score. */
  lemma SameBoundary(m: Models, a: Hyp, b: Hyp, o: TransOpt)
    requires m.order >= 1 && BackOff.Closed(m.table) && Equivalent(m, a, b) && Applicable(a, o) && Applicable(b, o)
    ensures BoundaryScore(m.NGrams(), LmHypo(Next(a, o))) == BoundaryScore(m.NGrams(), LmHypo(Next(b, o)))
  {
    hide BackOff.Closed, BackOff.Longest, BackOff.Value, Window, EndWindow, Windows, BoundaryScore, Coverage, Equivalent, SameContext;
    var lm, x, y := m.NGrams(), LmHypo(Next(a, o)), LmHypo(Next(b, o));
    SharedContext(m, a, b, o);
    SameSums(m, Text(LmHypo(a)), Text(LmHypo(b)), o.phrase, 0, LastScored(lm, x) + 1 - StartPos(x));
    SameLastWindows(m, Text(LmHypo(a)), Text(LmHypo(b)), o.phrase);
    BoundaryWindows(lm, x);
    BoundaryWindows(lm, y);
  }

  /** And it leaves the same language model state. */
  lemma SameNextState(m: Models, a: Hyp, b: Hyp, o: TransOpt)
    requires m.order >= 1 && BackOff.Closed(m.table) && Equivalent(m, a, b) && Applicable(a, o) && Applicable(b, o)
    ensures LmState(m, Next(a, o)) == LmState(m, Next(b, o))
  {
    hide BackOff.Closed, BackOff.Longest, BackOff.Value, Window, EndWindow, Coverage, Equivalent;
    SharedContext(m, a, b, o);
    SameLastWindows(m, Text(LmHypo(a)), Text(LmHypo(b)), o.phrase);
  }

  lemma PhraseNonEmpty(h: Hyp, o: TransOpt)
    requires Applicable(h, o)
    ensures o.phrase != []
  {
  }

  lemma SameCoverage(a: Hyp, b: Hyp, o: TransOpt)
    requires Coverage(a) == Coverage(b)
    ensures Coverage(Next(a, o)) == Coverage(Next(b, o)) && Size(a) == Size(b)
    ensures Applicable(a, o) <==> Applicable(b, o)
  {
    assert |Coverage(a)| == |Coverage(b)|;
  }

  /** Recombination is sound: what can extend one of two equivalent hypotheses can extend the other, it adds
      the same score, and it leaves equivalent hypotheses. */
  lemma EquivalentStep(m: Models, a: Hyp, b: Hyp, o: TransOpt)
    requires m.order >= 1 && BackOff.Closed(m.table) && Equivalent(m, a, b)
    ensures Applicable(a, o) <==> Applicable(b, o)
    ensures Applicable(a, o) ==> Increment(m, a, o) == Increment(m, b, o) && Equivalent(m, Next(a, o), Next(b, o))
  {
    hide Weighted, BoundaryScore, LmState, Coverage, Applicable;
    SameCoverage(a, b, o);
    if Applicable(a, o) {
      PhraseNonEmpty(a, o);
      SameBoundary(m, a, b, o);
      SameNextState(m, a, b, o);
      assert DistortionDistance(a, o) == DistortionDistance(b, o);
    }
  }

  // ---------------------------------------------------------------- whole runs

  function Extend(h: Hyp, os: seq<TransOpt>): Hyp
    decreases |os|
  {
    if os == [] then h else Next(Extend(h, os[..|os| - 1]), os[|os| - 1])
  }

  ghost predicate Extendable(h: Hyp, os: seq<TransOpt>)
    decreases |os|
  {
    os == [] || (Extendable(h, os[..|os| - 1]) && Applicable(Extend(h, os[..|os| - 1]), os[|os| - 1]))
  }

  lemma {:induction false} ExtendLegal(h: Hyp, os: seq<TransOpt>)
    requires Legal(h) && Extendable(h, os)
    ensures Legal(Extend(h, os))
    decreases |os|
  {
    if os != [] { ExtendLegal(h, os[..|os| - 1]); }
  }

  /** Equivalent hypotheses have the same extensions, gain the same by each, and stay equivalent. */
  lemma {:induction false} Bisimulation(m: Models, a: Hyp, b: Hyp, os: seq<TransOpt>)
    requires m.order >= 1 && BackOff.Closed(m.table) && Equivalent(m, a, b)
    ensures Extendable(a, os) <==> Extendable(b, os)
    ensures Extendable(a, os) ==>
              && Legal(Extend(a, os)) && Legal(Extend(b, os)) && Equivalent(m, Extend(a, os), Extend(b, os))
              && Score(m, Extend(a, os)) - Score(m, a) == Score(m, Extend(b, os)) - Score(m, b)
    decreases |os|
  {
    hide Equivalent, Applicable, Increment;
    EquivalentIsLegal(m, a, b);
    if os != [] {
      var fewer, o := os[..|os| - 1], os[|os| - 1];
      Bisimulation(m, a, b, fewer);
      if Extendable(a, fewer) {
        EquivalentStep(m, Extend(a, fewer), Extend(b, fewer), o);
        if Applicable(Extend(a, fewer), o) {
          ExtendLegal(a, os);
          ExtendLegal(b, os);
        }
      }
    }
  }

  lemma EquivalentIsLegal(m: Models, a: Hyp, b: Hyp)
    requires m.order >= 1 && Equivalent(m, a, b)
    ensures Legal(a) && Legal(b)
  {
  }

  /** Keeping the better of two equivalent hypotheses never loses the best completion. */
  lemma NothingLost(m: Models, kept: Hyp, dropped: Hyp, os: seq<TransOpt>)
    requires m.order >= 1 && BackOff.Closed(m.table) && Equivalent(m, kept, dropped)
    requires Score(m, dropped) <= Score(m, kept) && Extendable(dropped, os)
    ensures Extendable(kept, os) && Legal(Extend(kept, os)) && Legal(Extend(dropped, os))
    ensures Score(m, Extend(dropped, os)) <= Score(m, Extend(kept, os))
    ensures Coverage(Extend(dropped, os)) == Coverage(Extend(kept, os))
  {
    Bisimulation(m, kept, dropped, os);
  }

  // ---------------------------------------------------------------- RecombineCompare

  /** WordsBitmap::Compare: by size, then by the first difference. */
  method CompareBitmaps(a: seq<bool>, b: seq<bool>) returns (comp: int)
    ensures comp == 0 <==> a == b
    ensures comp == BitmapOrder(a, b)
  {
    if |a| != |b| { return if |a| < |b| then -1 else 1; }
    for i := 0 to |a|
      invariant a[..i] == b[..i] && BitmapOrder(a, b) == FirstDifference(a, b, i)
    {
      if a[i] != b[i] { return if b[i] then -1 else 1; }
    }
    comp := 0;
  }

  function FirstDifference(a: seq<bool>, b: seq<bool>, i: nat): int
    requires i <= |a| == |b|
    decreases |a| - i
  {
    if i == |a| then 0 else if a[i] != b[i] then (if b[i] then -1 else 1) else FirstDifference(a, b, i + 1)
  }

  function BitmapOrder(a: seq<bool>, b: seq<bool>): int {
    if |a| != |b| then (if |a| < |b| then -1 else 1) else FirstDifference(a, b, 0)
  }

  /** What a hypothesis is compared by: its coverage, the end of its last phrase, and the place of its state. */
  datatype Rank = Rank(coverage: seq<bool>, end: nat, place: nat)

  /** The coverages decide; then the hypothesis whose last phrase ends first is less, and then the one whose state lies
      behind. */
  function Order(a: Rank, b: Rank): int {
    var comp := BitmapOrder(a.coverage, b.coverage);
    if comp != 0 then comp
    else if a.end != b.end then (if a.end < b.end then -1 else 1)
    else if a.place != b.place then (if a.place > b.place then -1 else 1)
    else 0
  }

  lemma {:induction false} DifferenceReverses(a: seq<bool>, b: seq<bool>, i: nat)
    requires i <= |a| == |b|
    ensures FirstDifference(a, b, i) == -FirstDifference(b, a, i)
    ensures FirstDifference(a, b, i) == 0 <==> a[i..] == b[i..]
    decreases |a| - i
  {
    if i < |a| {
      DifferenceReverses(a, b, i + 1);
      assert a[i..] == [a[i]] + a[i + 1..] && b[i..] == [b[i]] + b[i + 1..];
    }
  }

  lemma {:induction false} DifferenceTransitive(a: seq<bool>, b: seq<bool>, c: seq<bool>, i: nat)
    requires i <= |a| == |b| == |c| && FirstDifference(a, b, i) <= 0 && FirstDifference(b, c, i) <= 0
    ensures FirstDifference(a, c, i) <= 0
    ensures FirstDifference(a, b, i) < 0 || FirstDifference(b, c, i) < 0 ==> FirstDifference(a, c, i) < 0
    decreases |a| - i
  {
    if i < |a| && a[i] == b[i] == c[i] { DifferenceTransitive(a, b, c, i + 1); }
  }

  /** The comparison orders hypotheses as a sorted set needs it: it is reversed by exchanging them, it is transitive,
      and it is 0 for equal ranks only. */
  lemma OrderIsTotal(a: Rank, b: Rank, c: Rank)
    ensures Order(a, b) == -Order(b, a) && (Order(a, b) == 0 <==> a == b)
    ensures Order(a, b) < 0 && Order(b, c) < 0 ==> Order(a, c) < 0
  {
    BitmapsOrdered(a.coverage, b.coverage, c.coverage);
    BitmapsOrdered(b.coverage, a.coverage, c.coverage);
    BitmapsOrdered(b.coverage, c.coverage, a.coverage);
    hide BitmapOrder;
  }

  lemma BitmapsOrdered(a: seq<bool>, b: seq<bool>, c: seq<bool>)
    ensures BitmapOrder(a, b) == -BitmapOrder(b, a) && (BitmapOrder(a, b) == 0 <==> a == b)
    ensures BitmapOrder(a, b) < 0 && BitmapOrder(b, c) < 0 ==> BitmapOrder(a, c) < 0
  {
    if |a| == |b| {
      DifferenceReverses(a, b, 0);
      assert a[0..] == a && b[0..] == b;
      if |b| == |c| && FirstDifference(a, b, 0) <= 0 && FirstDifference(b, c, 0) <= 0 { DifferenceTransitive(a, b, c, 0); }
    }
  }

  /** RecombineCompare with the states of distortion and language model; address gives the place of a language
      model state in memory. */
  method RecombineCompare(m: Models, a: Hyp, b: Hyp, aState: seq<Word>, bState: seq<Word>, address: seq<Word> -> nat)
    returns (comp: int)
    requires m.order >= 1 && a.Next? && b.Next? && Legal(a) && Legal(b)
    requires aState == LmState(m, a) && bState == LmState(m, b) && forall s, t :: address(s) == address(t) ==> s == t
    ensures comp == 0 <==> Equivalent(m, a, b)
    ensures comp == Order(Rank(Coverage(a), a.opt.end, address(aState)), Rank(Coverage(b), b.opt.end, address(bState)))
  {
    comp := CompareBitmaps(Coverage(a), Coverage(b));
    if comp != 0 { return; }
    if a.opt.end < b.opt.end { return -1; }
    if a.opt.end > b.opt.end { return 1; }
    if address(bState) > address(aState) { return 1; }
    if address(bState) < address(aState) { return -1; }
    comp := 0;
  }
}
