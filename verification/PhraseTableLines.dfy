/** What a phrase table says, in terms of the lines it is made from (moses/src/PhraseDictionaryTree.cpp, Create and
    GetTargetCandidates). */
module PhraseTableLines {
  import opened PhraseTable
  import opened PhraseTableCreate
  import opened PhraseTableRead

  /** No line that begins with another word stands between line i and a later line that begins with word w. */
  ghost predicate Stays(lines: seq<Line>, n: nat, i: nat, w: string)
    requires n <= |lines|
  {
    forall m, j :: i < m < j < n && lines[m].source != [] && lines[j].source != [] && lines[j].source[0] == w ==>
      lines[m].source[0] == w
  }

  /** r is s up to its first NUL. */
  ghost predicate CutAtNul(s: string, r: string) {
    r <= s && '\0' !in r && (|r| < |s| ==> s[|r|] == '\0')
  }

  ghost predicate AlignmentOf(given: seq<string>, align: bool, r: seq<string>) {
    if align then |r| == |given| && forall k :: 0 <= k < |r| ==> CutAtNul(given[k], r[k]) else r == []
  }

  /** The candidate has the target words of the line, its scores with 1e-38 in the place of those that are not
      positive, and its alignments. */
  ghost predicate IsCandidate(l: Line, align: bool, c: StringCand) {
    && c.words == l.target && |c.sc| == |l.scores|
    && (forall k :: 0 <= k < |c.sc| ==>
          c.sc[k] == if l.scores[k] > 0.0 then l.scores[k] else 1.0 / 100000000000000000000000000000000000000.0)
    && AlignmentOf(l.sourceAlignment, align, c.sourceAlignment) && AlignmentOf(l.targetAlignment, align, c.targetAlignment)
  }

  ghost predicate Rising(numbers: seq<nat>) {
    forall a, b :: 0 <= a < b < |numbers| ==> numbers[a] < numbers[b]
  }

  /** The candidates are those of the lines in numbers: all lines of the phrase that stay, in order. */
  ghost predicate CandidatesOfLines(lines: seq<Line>, align: bool, src: seq<string>, numbers: seq<nat>, rv: seq<StringCand>)
    requires src != []
  {
    && |numbers| == |rv| && (forall k :: 0 <= k < |numbers| ==> numbers[k] < |lines|)
    && Rising(numbers)
    && (forall i: nat :: i in numbers <==> i < |lines| && lines[i].source == src && Stays(lines, |lines|, i, src[0]))
    && forall k :: 0 <= k < |numbers| ==> IsCandidate(lines[numbers[k]], align, rv[k])
  }

  // ---------------------------------------------------------------- the lines behind an answer

  /** The lines whose candidates are the answer after n lines. */
  ghost function Behind(lines: seq<Line>, n: nat, src: seq<string>): (numbers: seq<nat>)
    requires n <= |lines| && src != []
    ensures forall k :: 0 <= k < |numbers| ==> numbers[k] < n && lines[numbers[k]].source == src
  {
    if n == 0 then []
    else if lines[n - 1].source == [] || lines[n - 1].source[0] != src[0] then Behind(lines, n - 1, src)
    else (if InBlock(lines, n - 1, src[0]) then Behind(lines, n - 1, src) else [])
         + if lines[n - 1].source == src then [n - 1] else []
  }

  /** The last of the first n lines that has a source phrase begins with w. */
  ghost predicate InBlock(lines: seq<Line>, n: nat, w: string)
    requires n <= |lines|
  {
    n > 0 && if lines[n - 1].source == [] then InBlock(lines, n - 1, w) else lines[n - 1].source[0] == w
  }

  lemma {:induction false} InBlockOfRows(lines: seq<Line>, n: nat, w: string)
    requires n <= |lines|
    ensures var ws := WordRows(lines, n); InBlock(lines, n, w) <==> ws != [] && ws[|ws| - 1].f[0] == w
  {
    if n > 0 { InBlockOfRows(lines, n - 1, w); }
  }

  /** In a block: the last line with a source phrase, and nothing behind it. */
  lemma {:induction false} LastOfBlock(lines: seq<Line>, n: nat, w: string) returns (p: nat)
    requires n <= |lines| && InBlock(lines, n, w)
    ensures p < n && lines[p].source != [] && lines[p].source[0] == w && forall m :: p < m < n ==> lines[m].source == []
  {
    p := n - 1;
    if lines[n - 1].source == [] { p := LastOfBlock(lines, n - 1, w); }
  }

  /** Not in a block: there is none, or the last line with a source phrase begins otherwise. */
  lemma {:induction false} LastOfOther(lines: seq<Line>, n: nat, w: string) returns (some: bool, p: nat)
    requires n <= |lines| && !InBlock(lines, n, w)
    ensures some ==> p < n && lines[p].source != [] && lines[p].source[0] != w
    ensures forall m :: 0 <= m < n && (some ==> p < m) ==> lines[m].source == []
  {
    some, p := n > 0, if n > 0 then n - 1 else 0;
    if n > 0 && lines[n - 1].source == [] { some, p := LastOfOther(lines, n - 1, w); }
  }

  /** One more line with the first word: earlier lines stay exactly inside its block. */
  lemma StaysStep(lines: seq<Line>, n: nat, i: nat, w: string)
    requires i < n < |lines| && lines[i].source != [] && lines[i].source[0] == w
    ensures lines[n].source == [] || lines[n].source[0] != w ==> (Stays(lines, n + 1, i, w) <==> Stays(lines, n, i, w))
    ensures lines[n].source != [] && lines[n].source[0] == w ==>
              (Stays(lines, n + 1, i, w) <==> InBlock(lines, n, w) && Stays(lines, n, i, w))
  {
    if lines[n].source != [] && lines[n].source[0] == w {
      if InBlock(lines, n, w) {
        var p := LastOfBlock(lines, n, w);
        assert Stays(lines, n, i, w) ==> forall m :: i < m < p && lines[m].source != [] ==> lines[m].source[0] == w;
      } else {
        var some, p := LastOfOther(lines, n, w);
        assert some && p > i;
      }
    }
  }

  lemma NewestStays(lines: seq<Line>, n: nat, i: nat, w: string)
    requires i + 1 == n <= |lines|
    ensures Stays(lines, n, i, w)
  {}

  ghost predicate AllLess(numbers: seq<nat>, n: int) {
    forall k :: 0 <= k < |numbers| ==> numbers[k] < n
  }

  lemma BehindStep(lines: seq<Line>, n: nat, src: seq<string>)
    requires 0 < n <= |lines| && src != []
    ensures AllLess(Behind(lines, n - 1, src), n - 1)
    ensures Behind(lines, n, src) ==
              if lines[n - 1].source == [] || lines[n - 1].source[0] != src[0] then Behind(lines, n - 1, src)
              else (if InBlock(lines, n - 1, src[0]) then Behind(lines, n - 1, src) else [])
                   + (if lines[n - 1].source == src then [n - 1] else [])
  {}

  lemma NoneBehind(lines: seq<Line>, src: seq<string>)
    requires src != []
    ensures Behind(lines, 0, src) == []
  {}

  lemma {:induction false} BehindStays(lines: seq<Line>, n: nat, src: seq<string>, i: nat)
    requires n <= |lines| && src != []
    ensures i in Behind(lines, n, src) <==> i < n && lines[i].source == src && Stays(lines, n, i, src[0])
  {
    hide Stays, InBlock, Behind;
    NoneBehind(lines, src);
    if n > 0 {
      BehindStays(lines, n - 1, src, i);
      BehindStep(lines, n, src);
      if i < n - 1 && lines[i].source == src { StaysStep(lines, n - 1, i, src[0]); }
      if i == n - 1 { NewestStays(lines, n, i, src[0]); }
    }
  }

  lemma {:induction false} BehindRises(lines: seq<Line>, n: nat, src: seq<string>)
    requires n <= |lines| && src != []
    ensures Rising(Behind(lines, n, src))
  {
    hide InBlock, Behind;
    NoneBehind(lines, src);
    if n > 0 {
      BehindRises(lines, n - 1, src);
      BehindStep(lines, n, src);
    }
  }

  lemma {:induction false} AnswerOfLines(lines: seq<Line>, n: nat, src: seq<string>)
    requires n <= |lines| && src != []
    ensures var ws := WordRows(lines, n); Answer(ws, |ws|, src) == RowCands(lines, Behind(lines, n, src))
  {
    hide *;
    NoCands(lines, src);
    NoneBehind(lines, src);
    if n > 0 {
      AnswerOfLines(lines, n - 1, src);
      AnswerStep(lines, n, src);
      BehindStep(lines, n, src);
      if lines[n - 1].source != [] {
        CandsOfStep(lines, Behind(lines, n - 1, src), n - 1, InBlock(lines, n - 1, src[0]), lines[n - 1].source == src);
      }
    }
  }

  lemma AnswerStep(lines: seq<Line>, n: nat, src: seq<string>)
    requires 0 < n <= |lines| && src != []
    ensures var ws, more, l := WordRows(lines, n - 1), WordRows(lines, n), lines[n - 1];
            Answer(more, |more|, src) ==
              if l.source == [] || l.source[0] != src[0] then Answer(ws, |ws|, src)
              else (if InBlock(lines, n - 1, src[0]) then Answer(ws, |ws|, src) else [])
                   + (if l.source == src then [RowOfLine(l).cand] else [])
  {
    hide RowOfLine, InBlock, Answer, WordRows;
    var ws, l := WordRows(lines, n - 1), lines[n - 1];
    InBlockOfRows(lines, n - 1, src[0]);
    RowsStep(lines, n);
    if l.source == [] {
      assert ws + [] == ws;
    } else {
      RowIs(l);
      AnswerAppend(ws, RowOfLine(l), src);
    }
  }

  lemma RowsStep(lines: seq<Line>, n: nat)
    requires 0 < n <= |lines|
    ensures WordRows(lines, n) == WordRows(lines, n - 1) + if lines[n - 1].source == [] then [] else [RowOfLine(lines[n - 1])]
  {}

  ghost function RowCands(lines: seq<Line>, numbers: seq<nat>): (r: seq<StringCand>)
    requires forall k :: 0 <= k < |numbers| ==> numbers[k] < |lines|
    ensures |r| == |numbers|
  {
    seq(|numbers|, k requires 0 <= k < |numbers| => RowOfLine(lines[numbers[k]]).cand)
  }

  lemma NoCands(lines: seq<Line>, src: seq<string>)
    requires src != []
    ensures RowCands(lines, []) == [] && WordRows(lines, 0) == [] && Answer(WordRows(lines, 0), 0, src) == []
  {}

  lemma CandsOfStep(lines: seq<Line>, numbers: seq<nat>, i: nat, keep: bool, own: bool)
    requires i < |lines| && forall k :: 0 <= k < |numbers| ==> numbers[k] < |lines|
    ensures RowCands(lines, (if keep then numbers else []) + (if own then [i] else []))
         == (if keep then RowCands(lines, numbers) else []) + (if own then [RowOfLine(lines[i]).cand] else [])
  {}

  lemma RowIs(l: Line)
    ensures RowOfLine(l).f == l.source
  {}

  lemma CandidateOfRow(l: Line, align: bool)
    ensures IsCandidate(l, align, RereadWords(RowOfLine(l).cand, align))
  {}

  /** The answer of a table holds the candidates of all lines of the phrase that stay, in input order, with their
      words, scores and alignments. */
  lemma AnswerIsLines(lines: seq<Line>, align: bool, src: seq<string>) returns (numbers: seq<nat>)
    requires src != []
    ensures var ws := WordRows(lines, |lines|);
            CandidatesOfLines(lines, align, src, numbers, RereadAllWords(Answer(ws, |ws|, src), align))
  {
    hide WordRows, Behind, Stays, IsCandidate, RereadWords, RowOfLine, Answer;
    numbers := Behind(lines, |lines|, src);
    AnswerOfLines(lines, |lines|, src);
    BehindRises(lines, |lines|, src);
    forall i: nat ensures i in numbers <==> i < |lines| && lines[i].source == src && Stays(lines, |lines|, i, src[0]) {
      BehindStays(lines, |lines|, src, i);
    }
    forall k | 0 <= k < |numbers| ensures IsCandidate(lines[numbers[k]], align, RereadWords(RowOfLine(lines[numbers[k]]).cand, align)) {
      CandidateOfRow(lines[numbers[k]], align);
    }
  }

  /** Line p is the last before line n that has a source phrase, another one that begins with the same word. */
  ghost predicate GoesOn(lines: seq<Line>, n: nat, p: nat)
    requires n < |lines| && lines[n].source != []
  {
    && p < n && lines[p].source != [] && lines[p].source != lines[n].source && lines[p].source[0] == lines[n].source[0]
    && forall m :: p < m < n ==> lines[m].source == []
  }

  /** There is one last line before line n that has a source phrase. */
  lemma SameLast(lines: seq<Line>, n: nat, p: nat, q: nat)
    requires p < n <= |lines| && lines[p].source != [] && forall m :: p < m < n ==> lines[m].source == []
    requires q < n && lines[q].source != [] && forall m :: q < m < n ==> lines[m].source == []
    ensures p == q
  {}

  lemma GoesOnInBlock(lines: seq<Line>, n: nat)
    requires n < |lines| && lines[n].source != []
    ensures var ws := WordRows(lines, n);
            (exists p :: GoesOn(lines, n, p)) <==>
              ws != [] && ws[|ws| - 1].f != lines[n].source && ws[|ws| - 1].f[0] == lines[n].source[0]
  {
    var w := lines[n].source[0];
    InBlockOfRows(lines, n, w);
    hide WordRows, InBlock;
    if InBlock(lines, n, w) {
      var p := LastOfBlock(lines, n, w);
      LastPhrase(lines, n, p);
      assert lines[p].source != lines[n].source ==> GoesOn(lines, n, p);
      forall q | GoesOn(lines, n, q) ensures q == p { SameLast(lines, n, p, q); }
    } else {
      var some, p := LastOfOther(lines, n, w);
      if q: nat :| GoesOn(lines, n, q) {
        if some { SameLast(lines, n, p, q); }
      }
    }
  }

  /** A line repeats a source phrase exactly if the line before it, of those with a source phrase, begins with the same
      word but has another phrase, and an earlier line of the same block has its phrase. */
  lemma RepeatsMeans(lines: seq<Line>, n: nat)
    requires n < |lines| && lines[n].source != []
    ensures Repeats(WordRows(lines, n + 1), |WordRows(lines, n)|) <==>
              && (exists p :: GoesOn(lines, n, p))
              && exists i: nat :: i < n && lines[i].source == lines[n].source && Stays(lines, n, i, lines[n].source[0])
  {
    var ws, src := WordRows(lines, n), lines[n].source;
    hide RowOfLine, InBlock, Answer, Behind, WordRows, Stays, RowCands;
    RowsStep(lines, n + 1);
    RowIs(lines[n]);
    AnswerOfLines(lines, n, src);
    AnswerPrefix(ws, RowOfLine(lines[n]), |ws|, src);
    GoesOnInBlock(lines, n);
    hide GoesOn;
    assert Answer(ws, |ws|, src) != [] <==> Behind(lines, n, src) != [];
    SomeBehind(lines, n, src);
  }

  lemma SomeBehind(lines: seq<Line>, n: nat, src: seq<string>)
    requires n <= |lines| && src != []
    ensures Behind(lines, n, src) != [] <==> exists i: nat :: i < n && lines[i].source == src && Stays(lines, n, i, src[0])
  {
    hide Stays, Behind;
    if Behind(lines, n, src) != [] { BehindStays(lines, n, src, Behind(lines, n, src)[0]); }
    forall i: nat | i < n && lines[i].source == src && Stays(lines, n, i, src[0]) ensures Behind(lines, n, src) != [] {
      BehindStays(lines, n, src, i);
    }
  }

  lemma {:induction false} LastPhrase(lines: seq<Line>, n: nat, p: nat)
    requires p < n <= |lines| && lines[p].source != [] && forall m :: p < m < n ==> lines[m].source == []
    ensures var ws := WordRows(lines, n); ws != [] && ws[|ws| - 1].f == lines[p].source
  {
    if p < n - 1 { LastPhrase(lines, n - 1, p); }
  }

  /** Line n raises the error, in terms of the lines alone. */
  ghost predicate LineFails(lines: seq<Line>, n: nat, align: bool, e: Error)
    requires n < |lines|
  {
    match e
    case SyntaxError => (lines[0].fields != 3 && lines[0].fields != 5) || lines[n].fields != lines[0].fields
    case NoAlignment => lines[0].fields == lines[n].fields == 3 && align
    case Repeated =>
      && lines[0].fields == lines[n].fields && (lines[0].fields == 5 || (lines[0].fields == 3 && !align))
      && lines[n].source != [] && (exists p :: GoesOn(lines, n, p))
      && exists i: nat :: i < n && lines[i].source == lines[n].source && Stays(lines, n, i, lines[n].source[0])
    case NoPhrases => false
  }

  lemma FailsMeans(lines: seq<Line>, n: nat, align: bool, e: Error)
    requires n < |lines|
    ensures Fails(lines, n, align, e) <==> LineFails(lines, n, align, e)
  {
    if lines[n].source != [] { RepeatsMeans(lines, n); }
  }

  lemma {:induction false} SomeRows(lines: seq<Line>, n: nat)
    requires n <= |lines|
    ensures WordRows(lines, n) != [] <==> exists i :: 0 <= i < n && lines[i].source != []
  {
    if n > 0 { SomeRows(lines, n - 1); }
  }
}
