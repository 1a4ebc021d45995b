/** Scoring with an n-gram language model (moses/src/LanguageModel.cpp, CalcScore and Evaluate;
    moses/src/LMList.cpp; moses/src/Hypothesis.h, GetWord). */
module LanguageModel {
  type Word = string

  /** GetValue of an n-gram implementation as a function of the context: its score and its final state. */
  datatype Lm<S> = Lm(order: nat, start: Word, end: Word, value: seq<Word> -> real, state: seq<Word> -> S)

  /** A hypothesis: the phrase that extends its predecessor, and whether the source is then covered. */
  datatype Hypo = Empty | Extended(prev: Hypo, phrase: seq<Word>, completed: bool)

  // ---------------------------------------------------------------- words and windows

  /** The words of the hypothesis from the start of the sentence. */
  function Text(h: Hypo): seq<Word> {
    if h.Empty? then [] else Text(h.prev) + h.phrase
  }

  /** The first word of the target range of the last phrase. */
  function StartPos(h: Hypo): nat {
    if h.Empty? then 0 else |Text(h.prev)|
  }

  /** The word at position i, or the start symbol before the sentence. */
  function WordAt(lm: Lm, text: seq<Word>, i: int): Word
    requires i < |text|
  {
    if i < 0 then lm.start else text[i]
  }

  /** The window of order words that ends at p. */
  function Window(lm: Lm, text: seq<Word>, p: int): (w: seq<Word>)
    requires p < |text|
    ensures |w| == lm.order
  {
    seq(lm.order, k requires 0 <= k < lm.order => WordAt(lm, text, p - lm.order + 1 + k))
  }

  /** The window of the end symbol. */
  function EndWindow(lm: Lm, text: seq<Word>): (w: seq<Word>)
    requires lm.order >= 1
    ensures |w| == lm.order
  {
    seq(lm.order, k requires 0 <= k < lm.order =>
          if k == lm.order - 1 then lm.end else WordAt(lm, text, |text| - lm.order + 1 + k))
  }

  /** A window near the start of the sentence is filled up with start symbols; the others are part of the text. */
  lemma WindowIs(lm: Lm, text: seq<Word>, p: nat)
    requires p < |text| && lm.order >= 1
    ensures Window(lm, text, p) ==
              if p + 1 >= lm.order then text[p + 1 - lm.order..p + 1] else seq(lm.order - 1 - p, _ => lm.start) + text[..p + 1]
  {
    var w := Window(lm, text, p);
    assert forall k :: 0 <= k < lm.order ==> w[k] == WordAt(lm, text, p - lm.order + 1 + k);
  }

  /** The end window is the last window of the text with the end symbol behind it. */
  lemma EndWindowIs(lm: Lm, text: seq<Word>)
    requires lm.order >= 1
    ensures EndWindow(lm, text) == Window(lm, text + [lm.end], |text|)
  {
    forall k | 0 <= k < lm.order ensures EndWindow(lm, text)[k] == Window(lm, text + [lm.end], |text|)[k] {
      EndWindowAt(lm, text, k);
    }
  }

  lemma EndWindowAt(lm: Lm, text: seq<Word>, k: nat)
    requires k < lm.order
    ensures EndWindow(lm, text)[k] == Window(lm, text + [lm.end], |text|)[k]
  {
    var i := |text| - lm.order + 1 + k;
    var more := text + [lm.end];
    assert Window(lm, more, |text|)[k] == WordAt(lm, more, i);
    if k == lm.order - 1 {
      assert EndWindow(lm, text)[k] == lm.end == more[|text|];
    } else {
      assert EndWindow(lm, text)[k] == WordAt(lm, text, i);
      assert i >= 0 ==> more[i] == text[i];
    }
  }

  /** The scores of the windows that end at the positions from lo to hi - 1. */
  ghost function Windows(lm: Lm, text: seq<Word>, lo: nat, hi: nat): real
    requires lo <= hi <= |text|
    decreases hi
  {
    if lo == hi then 0.0 else Windows(lm, text, lo, hi - 1) + lm.value(Window(lm, text, hi - 1))
  }

  /** A window that begins inside the phrase does not see what is before it. */
  lemma WindowInside(lm: Lm, before: seq<Word>, phrase: seq<Word>, p: nat)
    requires lm.order >= 1 && lm.order - 1 <= p < |phrase|
    ensures Window(lm, before + phrase, |before| + p) == Window(lm, phrase, p) == phrase[p - lm.order + 1..p + 1]
  {
    var inner := phrase[p - lm.order + 1..p + 1];
    var a, b := Window(lm, before + phrase, |before| + p), Window(lm, phrase, p);
    forall k | 0 <= k < lm.order ensures a[k] == b[k] == inner[k] {
      assert a[k] == WordAt(lm, before + phrase, |before| + p - lm.order + 1 + k);
      assert b[k] == WordAt(lm, phrase, p - lm.order + 1 + k);
    }
    assert a == inner && b == inner;
  }

  lemma WindowPrefix(lm: Lm, text: seq<Word>, more: seq<Word>, p: nat)
    requires p < |text|
    ensures Window(lm, text + more, p) == Window(lm, text, p)
  {
    var a, b := Window(lm, text + more, p), Window(lm, text, p);
    forall k | 0 <= k < lm.order ensures a[k] == b[k] {
      assert a[k] == WordAt(lm, text + more, p - lm.order + 1 + k) && b[k] == WordAt(lm, text, p - lm.order + 1 + k);
    }
    assert a == b;
  }

  lemma {:induction false} WindowsPrefix(lm: Lm, text: seq<Word>, more: seq<Word>, lo: nat, hi: nat)
    requires lo <= hi <= |text|
    ensures Windows(lm, text + more, lo, hi) == Windows(lm, text, lo, hi)
    decreases hi
  {
    if lo < hi {
      WindowsPrefix(lm, text, more, lo, hi - 1);
      WindowPrefix(lm, text, more, hi - 1);
    }
  }

  lemma {:induction false} WindowsSplit(lm: Lm, text: seq<Word>, lo: nat, mid: nat, hi: nat)
    requires lo <= mid <= hi <= |text|
    ensures Windows(lm, text, lo, hi) == Windows(lm, text, lo, mid) + Windows(lm, text, mid, hi)
    decreases hi
  {
    if mid < hi { WindowsSplit(lm, text, lo, mid, hi - 1); }
  }

  lemma {:induction false} WindowsInside(lm: Lm, before: seq<Word>, phrase: seq<Word>, hi: nat)
    requires 1 <= lm.order && lm.order - 1 <= hi <= |phrase|
    ensures Windows(lm, before + phrase, |before| + lm.order - 1, |before| + hi) == Windows(lm, phrase, lm.order - 1, hi)
    decreases hi
  {
    if lm.order - 1 < hi {
      WindowsInside(lm, before, phrase, hi - 1);
      WindowInside(lm, before, phrase, hi - 1);
    }
  }

  // ---------------------------------------------------------------- what a hypothesis is charged

  /** The n-gram score of a phrase: the windows that lie inside it. */
  ghost function NGramScore(lm: Lm, phrase: seq<Word>): real {
    if |phrase| < lm.order || lm.order == 0 then 0.0 else Windows(lm, phrase, lm.order - 1, |phrase|)
  }

  /** The shorter contexts at the start of a phrase. */
  ghost function PrefixScore(lm: Lm, phrase: seq<Word>, n: nat): real
    requires n <= |phrase|
  {
    if n == 0 then 0.0 else PrefixScore(lm, phrase, n - 1) + lm.value(phrase[..n])
  }

  /** The last boundary position: endPos of Evaluate, with the wrap-around of size_t for unigrams. */
  function BoundaryEnd(order: nat, start: nat, currEnd: nat): nat
    requires order >= 1
  {
    if order == 1 && start == 0 then currEnd
    else if start + order - 2 < currEnd then start + order - 2 else currEnd
  }

  /** The score of the end window, charged at completion only. */
  ghost function EndScore(lm: Lm, h: Hypo): real
    requires h.Extended? && lm.order >= 1
  {
    if h.completed then lm.value(EndWindow(lm, Text(h))) else 0.0
  }

  /** The windows that Evaluate scores. */
  ghost function BoundaryScore(lm: Lm, h: Hypo): real
    requires h.Extended? && h.phrase != [] && lm.order >= 1
  {
    var text := Text(h);
    var last := BoundaryEnd(lm.order, StartPos(h), |text| - 1);
    lm.value(Window(lm, text, StartPos(h)))
    + (if last > StartPos(h) then Windows(lm, text, StartPos(h) + 1, last + 1) else 0.0)
    + EndScore(lm, h)
  }

  /** The language model score along a chain: the phrases' own scores and the boundary scores. */
  ghost function ChainScore(lm: Lm, h: Hypo): real
    requires lm.order >= 1 && Chain(h)
  {
    if h.Empty? then 0.0 else ChainScore(lm, h.prev) + NGramScore(lm, h.phrase) + BoundaryScore(lm, h)
  }

  /** Phrases are non-empty and only the last hypothesis may cover the whole source. */
  predicate Chain(h: Hypo) {
    h.Extended? ==> h.phrase != [] && Chain(h.prev) && (h.prev.Extended? ==> !h.prev.completed)
  }

  /** The last position that Evaluate scores: at least the first word's. */
  function LastScored(lm: Lm, h: Hypo): nat
    requires h.Extended? && h.phrase != [] && lm.order >= 1
  {
    var last := BoundaryEnd(lm.order, StartPos(h), |Text(h)| - 1);
    if last > StartPos(h) then last else StartPos(h)
  }

  /** The boundary score without the end window covers the positions up to the last scored one. */
  lemma BoundaryWindows(lm: Lm, h: Hypo)
    requires lm.order >= 1 && h.Extended? && h.phrase != []
    ensures BoundaryScore(lm, h) == Windows(lm, Text(h), StartPos(h), LastScored(lm, h) + 1) + EndScore(lm, h)
  {
    hide Window, EndWindow;
    WindowsSplit(lm, Text(h), StartPos(h), StartPos(h) + 1, LastScored(lm, h) + 1);
  }

  /** One step charges exactly the windows of its own words. */
  lemma StepScore(lm: Lm, h: Hypo)
    requires lm.order >= 2 && h.Extended? && h.phrase != []
    ensures NGramScore(lm, h.phrase) + BoundaryScore(lm, h)
         == Windows(lm, Text(h), StartPos(h), |Text(h)|) + EndScore(lm, h)
  {
    hide Windows, BoundaryScore, Window, EndWindow;
    BoundaryWindows(lm, h);
    if |h.phrase| >= lm.order {
      var last := StartPos(h) + lm.order - 2;
      WindowsSplit(lm, Text(h), StartPos(h), last + 1, |Text(h)|);
      WindowsInside(lm, Text(h.prev), h.phrase, |h.phrase|);
    }
  }

  /** Segmentation independence: from bigrams on, a chain is charged every window of its text once, and the
      end window at completion, whatever the phrases are. */
  lemma {:induction false} SegmentationIndependence(lm: Lm, h: Hypo)
    requires lm.order >= 2 && Chain(h)
    ensures ChainScore(lm, h) == Windows(lm, Text(h), 0, |Text(h)|) + if h.Extended? then EndScore(lm, h) else 0.0
  {
    if h.Extended? {
      SegmentationIndependence(lm, h.prev);
      StepScore(lm, h);
      WindowsPrefix(lm, Text(h.prev), h.phrase, 0, |Text(h.prev)|);
      WindowsSplit(lm, Text(h), 0, |Text(h.prev)|, |Text(h)|);
    }
  }

  /** So the score depends on the words only. */
  lemma SameTextSameScore(lm: Lm, h: Hypo, g: Hypo)
    requires lm.order >= 2 && Chain(h) && Chain(g) && h.Extended? && g.Extended?
    requires Text(h) == Text(g) && h.completed == g.completed
    ensures ChainScore(lm, h) == ChainScore(lm, g)
  {
    SegmentationIndependence(lm, h);
    SegmentationIndependence(lm, g);
  }

  /** For unigrams the words of every phrase are charged inside the phrase already, so that the boundary
      score is charged on top: all words of the first phrase and the first word of every later one. */
  lemma UnigramStep(lm: Lm, h: Hypo)
    requires lm.order == 1 && h.Extended? && h.phrase != []
    ensures NGramScore(lm, h.phrase) == Windows(lm, Text(h), StartPos(h), |Text(h)|)
    ensures BoundaryScore(lm, h) == EndScore(lm, h)
         + Windows(lm, Text(h), StartPos(h), if StartPos(h) == 0 then |Text(h)| else StartPos(h) + 1)
  {
    WindowsInside(lm, Text(h.prev), h.phrase, |h.phrase|);
    BoundaryWindows(lm, h);
  }

  lemma UnigramWindow(lm: Lm, text: seq<Word>, p: nat)
    requires lm.order == 1 && p < |text|
    ensures Window(lm, text, p) == [text[p]]
  {
    assert Window(lm, text, p)[0] == WordAt(lm, text, p);
  }

  /** The same three words in one phrase or in two: the unigram scores differ by the last word's. */
  lemma UnigramsDependOnSegmentation(lm: Lm, a: Word, b: Word, c: Word)
    requires lm.order == 1
    ensures var one, two := Extended(Empty, [a, b, c], false), Extended(Extended(Empty, [a], false), [b, c], false);
            Text(one) == Text(two) && Chain(one) && Chain(two)
            && ChainScore(lm, one) - ChainScore(lm, two) == lm.value([c])
  {
    var text := [a, b, c];
    var first := Extended(Empty, [a], false);
    var one, two := Extended(Empty, text, false), Extended(first, [b, c], false);
    assert Text(one) == text && Text(first) == [a] && Text(two) == text;
    UnigramStep(lm, one);
    UnigramStep(lm, first);
    UnigramStep(lm, two);
    UnigramWindow(lm, text, 2);
    assert Windows(lm, text, 2, 3) == lm.value([c]);
    assert ChainScore(lm, first) == NGramScore(lm, [a]) + BoundaryScore(lm, first);
    assert ChainScore(lm, two) == ChainScore(lm, first) + NGramScore(lm, [b, c]) + BoundaryScore(lm, two);
    assert ChainScore(lm, one) == NGramScore(lm, text) + BoundaryScore(lm, one);
    assert StartPos(one) == 0 && StartPos(first) == 0 && StartPos(two) == 1;
    WindowsSplit(lm, text, 0, 1, 3);
    WindowsSplit(lm, text, 1, 2, 3);
    WindowsPrefix(lm, [a], [b, c], 0, 1);
    assert [a] + [b, c] == text;
  }

  /** With unigrams of no value a chain is charged for its end only. */
  lemma {:induction false} NothingCharged(lm: Lm, h: Hypo)
    requires lm.order == 1 && Chain(h) && forall c :: lm.value([c]) == 0.0
    ensures ChainScore(lm, h) == if h.Extended? then EndScore(lm, h) else 0.0
  {
    if h.Extended? {
      NothingCharged(lm, h.prev);
      UnigramStep(lm, h);
      WindowsOfNoValue(lm, Text(h), StartPos(h), |Text(h)|);
      WindowsOfNoValue(lm, Text(h), StartPos(h), if StartPos(h) == 0 then |Text(h)| else StartPos(h) + 1);
    }
  }

  lemma {:induction false} WindowsOfNoValue(lm: Lm, text: seq<Word>, lo: nat, hi: nat)
    requires lm.order == 1 && lo <= hi <= |text| && forall c :: lm.value([c]) == 0.0
    ensures Windows(lm, text, lo, hi) == 0.0
    decreases hi
  {
    if lo < hi {
      WindowsOfNoValue(lm, text, lo, hi - 1);
      UnigramWindow(lm, text, hi - 1);
    }
  }

  /** Chains of the same words in other phrases. */
  ghost predicate Alike(h: Hypo, g: Hypo) {
    Chain(h) && Chain(g) && h.Extended? && g.Extended? && Text(h) == Text(g) && h.completed == g.completed
  }

  /** The score depends on the words only, if and only if the model is no unigram model or its unigrams are worth
      nothing. */
  lemma SegmentationMatters(lm: Lm)
    requires lm.order >= 1
    ensures (forall h, g :: Alike(h, g) ==> ChainScore(lm, h) == ChainScore(lm, g))
       <==> lm.order >= 2 || forall c :: lm.value([c]) == 0.0
  {
    hide ChainScore, Chain, Text;
    if lm.order >= 2 || forall c :: lm.value([c]) == 0.0 {
      forall h, g | Alike(h, g) ensures ChainScore(lm, h) == ChainScore(lm, g) {
        if lm.order >= 2 { SameTextSameScore(lm, h, g); } else {
          NothingCharged(lm, h);
          NothingCharged(lm, g);
        }
      }
    } else {
      var c :| lm.value([c]) != 0.0;
      UnigramsDependOnSegmentation(lm, c, c, c);
      assert Alike(Extended(Empty, [c, c, c], false), Extended(Extended(Empty, [c], false), [c, c], false));
    }
  }

  // ---------------------------------------------------------------- CalcScore

  /** All places move down by one and the new word takes the last. */
  method Shift(context: seq<Word>, order: nat, last: Word) returns (shifted: seq<Word>)
    requires |context| == order >= 1
    ensures shifted == context[1..] + [last]
  {
    shifted := context;
    for i := 0 to order - 1
      invariant |shifted| == order
      invariant forall k :: 0 <= k < i ==> shifted[k] == context[k + 1]
      invariant forall k :: i <= k < order ==> shifted[k] == context[k]
    {
      shifted := shifted[i := shifted[i + 1]];
    }
    shifted := shifted[order - 1 := last];
  }

  lemma InnerWindow(lm: Lm, phrase: seq<Word>, p: nat)
    requires 1 <= lm.order && lm.order - 1 <= p < |phrase|
    ensures Window(lm, phrase, p) == phrase[p - lm.order + 1..p + 1]
  {
    WindowInside(lm, [], phrase, p);
    assert [] + phrase == phrase;
  }

  /** The windows inside the phrase after the first. */
  method InnerScore(lm: Lm, phrase: seq<Word>) returns (score: real)
    requires 1 <= lm.order <= |phrase|
    ensures score == Windows(lm, phrase, lm.order - 1, |phrase|)
  {
    var contextFactor := phrase[..lm.order];
    InnerWindow(lm, phrase, lm.order - 1);
    score := lm.value(contextFactor);
    for currPos := lm.order to |phrase|
      invariant contextFactor == phrase[currPos - lm.order..currPos] && score == Windows(lm, phrase, lm.order - 1, currPos)
    {
      contextFactor := Shift(contextFactor, lm.order, phrase[currPos]);
      InnerWindow(lm, phrase, currPos);
      assert contextFactor == phrase[currPos + 1 - lm.order..currPos + 1];
      score := score + lm.value(contextFactor);
    }
  }

  /** CalcScore: the shorter contexts at the start count only for the full score. */
  method CalcScore(lm: Lm, phrase: seq<Word>) returns (fullScore: real, ngramScore: real)
    requires lm.order >= 1
    ensures ngramScore == NGramScore(lm, phrase)
    ensures fullScore == ngramScore + PrefixScore(lm, phrase, if |phrase| < lm.order - 1 then |phrase| else lm.order - 1)
  {
    fullScore, ngramScore := 0.0, 0.0;
    var contextFactor: seq<Word> := [];
    var currPos := 0;
    while currPos < lm.order - 1 && currPos < |phrase|
      invariant currPos <= lm.order - 1 && currPos <= |phrase|
      invariant contextFactor == phrase[..currPos] && fullScore == PrefixScore(lm, phrase, currPos)
    {
      contextFactor := contextFactor + [phrase[currPos]];
      fullScore := fullScore + lm.value(contextFactor);
      currPos := currPos + 1;
    }
    if |phrase| >= lm.order {
      ngramScore := InnerScore(lm, phrase);
    }
    fullScore := fullScore + ngramScore;
  }

  // ---------------------------------------------------------------- Evaluate

  /** GetWord walks back to the hypothesis whose phrase covers the position. */
  method GetWord(h: Hypo, pos: nat) returns (w: Word)
    requires pos < |Text(h)|
    ensures w == Text(h)[pos]
  {
    var hypo := h;
    while pos < StartPos(hypo)
      invariant pos < |Text(hypo)| && Text(hypo)[pos] == Text(h)[pos]
      decreases hypo
    {
      hypo := hypo.prev;
    }
    w := hypo.phrase[pos - StartPos(hypo)];
  }

  lemma WindowItem(lm: Lm, text: seq<Word>, p: nat, k: nat)
    requires p < |text| && k < lm.order
    ensures Window(lm, text, p)[k] == WordAt(lm, text, p - lm.order + 1 + k)
    ensures Window(lm, text, p)[..k] + [Window(lm, text, p)[k]] == Window(lm, text, p)[..k + 1]
  {
  }

  lemma EndWindowItem(lm: Lm, text: seq<Word>, k: nat)
    requires k < lm.order
    ensures EndWindow(lm, text)[k] == if k == lm.order - 1 then lm.end else WordAt(lm, text, |text| - lm.order + 1 + k)
    ensures EndWindow(lm, text)[..k] + [EndWindow(lm, text)[k]] == EndWindow(lm, text)[..k + 1]
  {
  }

  /** The first window: the words before the phrase and its first one. */
  method FirstWindow(lm: Lm, h: Hypo) returns (contextFactor: seq<Word>)
    requires lm.order >= 1 && h.Extended? && h.phrase != []
    ensures contextFactor == Window(lm, Text(h), StartPos(h))
  {
    contextFactor := [];
    for currPos := StartPos(h) - lm.order + 1 to StartPos(h) + 1
      invariant contextFactor == Window(lm, Text(h), StartPos(h))[..currPos - (StartPos(h) - lm.order + 1)]
    {
      WindowItem(lm, Text(h), StartPos(h), currPos - (StartPos(h) - lm.order + 1));
      if currPos >= 0 {
        var w := GetWord(h, currPos);
        contextFactor := contextFactor + [w];
      } else {
        contextFactor := contextFactor + [lm.start];
      }
    }
  }

  lemma WindowShift(lm: Lm, text: seq<Word>, p: nat)
    requires 1 <= lm.order && p + 1 < |text|
    ensures Window(lm, text, p)[1..] + [text[p + 1]] == Window(lm, text, p + 1)
  {
    var a, b := Window(lm, text, p)[1..] + [text[p + 1]], Window(lm, text, p + 1);
    forall k | 0 <= k < lm.order ensures a[k] == b[k] {
      assert b[k] == WordAt(lm, text, p + 1 - lm.order + 1 + k);
      assert k < lm.order - 1 ==> a[k] == Window(lm, text, p)[k + 1] == WordAt(lm, text, p - lm.order + 1 + (k + 1));
    }
    assert a == b;
  }

  /** The window of the end symbol. */
  method LastWindow(lm: Lm, h: Hypo) returns (contextFactor: seq<Word>)
    requires lm.order >= 1 && h.Extended? && h.phrase != []
    ensures contextFactor == EndWindow(lm, Text(h))
  {
    contextFactor := [];
    for i := 0 to lm.order - 1
      invariant contextFactor == EndWindow(lm, Text(h))[..i]
    {
      var currPos := |Text(h)| - lm.order + i + 1;
      EndWindowItem(lm, Text(h), i);
      if currPos < 0 {
        contextFactor := contextFactor + [lm.start];
      } else {
        var w := GetWord(h, currPos);
        contextFactor := contextFactor + [w];
      }
    }
    EndWindowItem(lm, Text(h), lm.order - 1);
    contextFactor := contextFactor + [lm.end];
  }

  /** The window on which the state of a hypothesis depends. */
  ghost function StateWindow(lm: Lm, h: Hypo): seq<Word>
    requires lm.order >= 1 && h.Extended? && h.phrase != []
  {
    if h.completed then EndWindow(lm, Text(h)) else Window(lm, Text(h), |Text(h)| - 1)
  }

  /** The windows after the first, up to a position. */
  method AdvanceTo<S>(lm: Lm<S>, h: Hypo, context: seq<Word>, from: nat, to: nat)
    returns (contextFactor: seq<Word>, score: real)
    requires lm.order >= 1 && h.Extended? && h.phrase != [] && from <= to < |Text(h)|
    requires context == Window(lm, Text(h), from)
    ensures contextFactor == Window(lm, Text(h), to) && score == Windows(lm, Text(h), from + 1, to + 1)
  {
    contextFactor, score := context, 0.0;
    for currPos := from + 1 to to + 1
      invariant contextFactor == Window(lm, Text(h), currPos - 1) && score == Windows(lm, Text(h), from + 1, currPos)
    {
      var w := GetWord(h, currPos);
      contextFactor := Shift(contextFactor, lm.order, w);
      WindowShift(lm, Text(h), currPos - 1);
      score := score + lm.value(contextFactor);
    }
  }

  /** Evaluate on a hypothesis with a non-empty phrase. */
  method Evaluate<S>(lm: Lm<S>, h: Hypo) returns (lmScore: real, lmstate: S)
    requires lm.order >= 1 && h.Extended? && h.phrase != []
    ensures lmScore == BoundaryScore(lm, h) && lmstate == lm.state(StateWindow(lm, h))
  {
    var startPos, currEndPos := StartPos(h), |Text(h)| - 1;
    var contextFactor := FirstWindow(lm, h);
    lmScore := lm.value(contextFactor);
    var endPos := BoundaryEnd(lm.order, startPos, currEndPos);
    var at := startPos;
    if endPos > startPos {
      var more;
      contextFactor, more := AdvanceTo(lm, h, contextFactor, startPos, endPos);
      lmScore, at := lmScore + more, endPos;
    }
    if h.completed {
      contextFactor := LastWindow(lm, h);
      lmScore := lmScore + lm.value(contextFactor);
    } else {
      // the remaining words only move the window
      var unused;
      contextFactor, unused := AdvanceTo(lm, h, contextFactor, at, currEndPos);
    }
    lmstate := lm.state(contextFactor);
  }
}
