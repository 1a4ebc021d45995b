/** Writing a binary phrase table (moses/src/PhraseDictionaryTree.cpp, Create). */
module PhraseTableCreate {
  import opened Files
  import opened Tries
  import opened TrieFile
  import opened PrefixTree
  import PrefixTreeFile
  import opened TargetData
  import opened LVoc
  import opened PhraseTable

  /** A line of the text table after tokenisation; fields is the number of parts between "|||". */
  datatype Line = Line(fields: nat, source: seq<string>, target: seq<string>,
                       sourceAlignment: seq<string>, targetAlignment: seq<string>, scores: seq<real>)

  /** A candidate in words. */
  datatype StringCand = StringCand(words: seq<string>, sc: seq<real>, sourceAlignment: seq<string>, targetAlignment: seq<string>)

  type StringRow = Entry<string, StringCand>

  datatype Error = SyntaxError | NoAlignment | Repeated | NoPhrases

  datatype Result = Ok(vo: seq<int>) | Err(error: Error)

  const FLOOR: real := 1.0 / 100000000000000000000000000000000000000.0

  /** Zero probabilities are replaced by a tiny one. */
  function Floored(scores: seq<real>): seq<real> {
    seq(|scores|, i requires 0 <= i < |scores| => if scores[i] > 0.0 then scores[i] else FLOOR)
  }

  function RowOfLine(l: Line): StringRow {
    Entry(l.source, StringCand(l.target, Floored(l.scores), l.sourceAlignment, l.targetAlignment))
  }

  /** The entries of the first n lines; lines with an empty source phrase are skipped. */
  function WordRows(lines: seq<Line>, n: nat): (rows: seq<StringRow>)
    requires n <= |lines|
    ensures forall i :: 0 <= i < |rows| ==> rows[i].f != []
  {
    if n == 0 then []
    else if lines[n - 1].source == [] then WordRows(lines, n - 1)
    else WordRows(lines, n - 1) + [RowOfLine(lines[n - 1])]
  }

  /** The error that line n raises, if the lines before it raise none. */
  ghost predicate Fails(lines: seq<Line>, n: nat, align: bool, e: Error)
    requires n < |lines|
  {
    if lines[0].fields !in {3, 5} || lines[n].fields != lines[0].fields then e == SyntaxError
    else if align && lines[0].fields == 3 then e == NoAlignment
    else lines[n].source != [] && Repeats(WordRows(lines, n + 1), |WordRows(lines, n)|) && e == Repeated
  }

  ghost predicate Passes(lines: seq<Line>, n: nat, align: bool)
    requires n <= |lines|
  {
    forall m, e :: 0 <= m < n ==> !Fails(lines, m, align, e)
  }

  /** A table that is accepted and loses a candidate: its first and last line have the same source phrase, and the
      line between them begins with another word. */
  lemma {:induction false} SplitBlockLoses(lines: seq<Line>, a: string, b: string)
    requires |lines| == 3 && a != b && lines[0].source == lines[2].source == [a] && lines[1].source == [b]
    requires forall i :: 0 <= i < 3 ==> lines[i].fields == 3
    ensures Passes(lines, 3, false)
    ensures var ws := WordRows(lines, 3);
            |ws| == 3 && CandidatesOf(ws, 3, [a]) == [ws[0].cand, ws[2].cand] && Answer(ws, 3, [a]) == [ws[2].cand]
  {
    var ws := [RowOfLine(lines[0]), RowOfLine(lines[1]), RowOfLine(lines[2])];
    ThreeRows(lines, ws);
    SplitBlock(ws, a, b);
    forall m, e | 0 <= m < 3 ensures !Fails(lines, m, false, e) {
      hide Answer, WordRows;
    }
  }

  lemma {:induction false} ThreeRows(lines: seq<Line>, ws: seq<StringRow>)
    requires |lines| == |ws| == 3 && forall i :: 0 <= i < 3 ==> lines[i].source != [] && ws[i] == RowOfLine(lines[i])
    ensures WordRows(lines, 0) == [] && WordRows(lines, 1) == ws[..1] && WordRows(lines, 2) == ws[..2] && WordRows(lines, 3) == ws
  {
    assert WordRows(lines, 1) == ws[..1];
    assert WordRows(lines, 2) == ws[..2];
  }

  // ---------------------------------------------------------------- words and labels

  ghost predicate Labels(v: Voc, words: seq<string>, ids: seq<nat>) {
    |ids| == |words| && forall i :: 0 <= i < |words| ==> words[i] in v.m && v.m[words[i]] == ids[i]
  }

  ghost predicate RowLabels(sv: Voc, tv: Voc, w: StringRow, r: Row) {
    && Labels(sv, w.f, r.f) && Labels(tv, w.cand.words, r.cand.e) && r.cand.sc == w.cand.sc
    && r.cand.sourceAlignment == w.cand.sourceAlignment && r.cand.targetAlignment == w.cand.targetAlignment
  }

  ghost predicate RowsLabels(sv: Voc, tv: Voc, ws: seq<StringRow>, rows: seq<Row>) {
    |ws| == |rows| && forall i :: 0 <= i < |rows| ==> RowLabels(sv, tv, ws[i], rows[i])
  }

  ghost predicate Extends(v: Voc, w: Voc) {
    forall k :: k in v.m ==> k in w.m && w.m[k] == v.m[k]
  }

  lemma RowsKept(sv: Voc, tv: Voc, sv': Voc, tv': Voc, ws: seq<StringRow>, rows: seq<Row>)
    requires RowsLabels(sv, tv, ws, rows) && Extends(sv, sv') && Extends(tv, tv')
    ensures RowsLabels(sv', tv', ws, rows)
  {
    forall i | 0 <= i < |rows| ensures RowLabels(sv', tv', ws[i], rows[i]) {
      assert RowLabels(sv, tv, ws[i], rows[i]);
    }
  }

  /** Different phrases have different labels. */
  lemma LabelsInjective(v: Voc, a: seq<string>, b: seq<string>, x: seq<nat>, y: seq<nat>)
    requires v.Valid() && Labels(v, a, x) && Labels(v, b, y)
    ensures a == b <==> x == y
    ensures a != [] && b != [] ==> (a[0] == b[0] <==> x[0] == y[0])
  {
    assert forall i :: 0 <= i < |a| ==> v.data[x[i]] == a[i];
    assert forall i :: 0 <= i < |b| ==> v.data[y[i]] == b[i];
    if x == y {
      assert forall i :: 0 <= i < |a| ==> a[i] == b[i];
    }
  }

  /** A candidate in words for one in labels. */
  function Spelled(tv: Voc, t: TgtCand): StringCand {
    StringCand(seq(|t.e|, i requires 0 <= i < |t.e| => if t.e[i] < |tv.data| then tv.data[t.e[i]] else ""),
               t.sc, t.sourceAlignment, t.targetAlignment)
  }

  lemma SpelledBack(sv: Voc, tv: Voc, w: StringRow, r: Row)
    requires tv.Valid() && RowLabels(sv, tv, w, r)
    ensures Spelled(tv, r.cand) == w.cand
  {
    assert Spelled(tv, r.cand).words == w.cand.words;
  }

  /** The answers in words are those in labels, spelled out. */
  lemma AnswersAgree(sv: Voc, tv: Voc, ws: seq<StringRow>, rows: seq<Row>, n: nat, q: seq<string>, f: seq<nat>)
    requires sv.Valid() && tv.Valid() && RowsLabels(sv, tv, ws, rows) && Labels(sv, q, f) && q != [] && n <= |rows|
    requires forall i :: 0 <= i < |ws| ==> ws[i].f != []
    ensures NonEmpty(rows)
    ensures var a := Answer(rows, n, f);
            Answer(ws, n, q) == seq(|a|, i requires 0 <= i < |a| => Spelled(tv, a[i]))
  {
    forall i | 0 <= i < |rows|
      ensures rows[i].f != [] && ws[i].cand == Spelled(tv, rows[i].cand)
      ensures (rows[i].f == f <==> ws[i].f == q) && (rows[i].f[0] == f[0] <==> ws[i].f[0] == q[0])
    {
      assert RowLabels(sv, tv, ws[i], rows[i]);
      SpelledBack(sv, tv, ws[i], rows[i]);
      LabelsInjective(sv, ws[i].f, q, rows[i].f, f);
    }
    AnswerRenamed(rows, ws, n, f, q, t => Spelled(tv, t));
  }

  lemma RepeatsAgree(sv: Voc, tv: Voc, ws: seq<StringRow>, rows: seq<Row>, n: nat)
    requires sv.Valid() && tv.Valid() && RowsLabels(sv, tv, ws, rows) && n < |rows|
    requires forall i :: 0 <= i < |ws| ==> ws[i].f != []
    ensures NonEmpty(rows) && (Repeats(rows, n) <==> Repeats(ws, n))
  {
    assert RowLabels(sv, tv, ws[n], rows[n]);
    AnswersAgree(sv, tv, ws, rows, n, ws[n].f, rows[n].f);
    if n > 0 {
      assert RowLabels(sv, tv, ws[n - 1], rows[n - 1]);
      LabelsInjective(sv, ws[n - 1].f, ws[n].f, rows[n - 1].f, rows[n].f);
    }
  }

  /** Number of source words of the first n lines. */
  function SourceWords(lines: seq<Line>, n: nat): nat
    requires n <= |lines|
  {
    if n == 0 then 0 else SourceWords(lines, n - 1) + |lines[n - 1].source|
  }

  /** w is new in none of the vocabularies but by these words. */
  ghost predicate Grown(v: Voc, w: Voc, words: seq<string>) {
    (forall k :: k in w.m ==> k in v.m || k in words) && |w.data| <= |v.data| + |words|
  }

  /** The vocabularies hold words of the first n lines only. */
  ghost predicate FromLines(lines: seq<Line>, n: nat, sv: Voc, tv: Voc)
    requires n <= |lines|
  {
    && (forall k :: k in sv.m ==> exists i :: 0 <= i < n && k in lines[i].source)
    && (forall k :: k in tv.m ==> exists i :: 0 <= i < n && k in lines[i].target)
    && |sv.data| <= SourceWords(lines, n)
  }

  lemma FromMoreLines(lines: seq<Line>, n: nat, sv: Voc, tv: Voc, sv': Voc, tv': Voc)
    requires n < |lines| && FromLines(lines, n, sv, tv)
    requires Grown(sv, sv', lines[n].source) && Grown(tv, tv', lines[n].target)
    ensures FromLines(lines, n + 1, sv', tv')
  {}

  // ---------------------------------------------------------------- the steps of Create

  lemma NoWords(v: Voc, words: seq<string>)
    ensures Extends(v, v) && Labels(v, words[..0], []) && Grown(v, v, words[..0])
  {}

  lemma OneMoreWord(start: Voc, v: Voc, w: Voc, words: seq<string>, i: nat, ids: seq<nat>)
    requires v.Valid() && i < |words| && w == v.Add(words[i])
    requires Extends(start, v) && Labels(v, words[..i], ids) && Grown(start, v, words[..i])
    ensures w.Valid() && Extends(start, w) && Labels(w, words[..i + 1], ids + [w.m[words[i]]]) && Grown(start, w, words[..i + 1])
  {}

  /** Numbering the words of a phrase. */
  method AddWords(voc: LVoc, words: seq<string>) returns (ids: seq<nat>)
    requires voc.Value().Valid()
    modifies voc
    ensures voc.Value().Valid() && Extends(old(voc.Value()), voc.Value()) && Labels(voc.Value(), words, ids)
    ensures Grown(old(voc.Value()), voc.Value(), words)
  {
    hide Extends, Labels, Grown, Voc.Add;
    ids := [];
    NoWords(voc.Value(), words);
    for i := 0 to |words|
      invariant voc.Value().Valid() && Extends(old(voc.Value()), voc.Value()) && Labels(voc.Value(), words[..i], ids)
      invariant Grown(old(voc.Value()), voc.Value(), words[..i])
    {
      ghost var v := voc.Value();
      var id := voc.Add(words[i]);
      OneMoreWord(old(voc.Value()), v, voc.Value(), words, i, ids);
      ids := ids + [id];
    }
    assert words[..|words|] == words;
  }

  function ResizeOffsets(vo: seq<int>, n: nat): seq<int> {
    if n <= |vo| then vo else vo + seq(n - |vo|, _ => NO_OFFSET)
  }

  lemma TreeKept(os: seq<int>, os': seq<int>, vo: seq<int>, vo': seq<int>, w: nat, t: Trie)
    requires TreeAt(os, vo, w, t) && os <= os' && w < |vo'| && vo'[w] == vo[w]
    ensures TreeAt(os', vo', w, t)
  {
    var lo, hi := vo[w], vo[w] + Size(t);
    assert os'[lo..hi] == os'[..|os|][lo..hi] == os[lo..hi];
    StoredFrame(os, os', vo[w], t);
  }

  lemma NewTreeAt(os: seq<int>, vo: seq<int>, w: nat, t: Trie)
    requires t.Node? && Wf(t) && HasKey(t.keys, w, LowerBound(t.keys, w, 0)) && w < |vo| && vo[w] == |os|
    ensures TreeAt(Write(os, t), vo, w, t) && os <= Write(os, t)
  {
    WriteStores(os, t);
  }

  /** Writing a block's tree at the end of the tree file keeps all trees on disk. */
  lemma OthersOnDisk(os: seq<int>, os': seq<int>, vo: seq<int>, vo': seq<int>, trees: map<nat, Trie>, w: nat, t: Trie)
    requires OnDisk(os, vo, trees) && os <= os' && TreeAt(os', vo', w, t) && |vo| <= |vo'|
    requires forall k :: 0 <= k < |vo'| && k != w ==> vo'[k] == if k < |vo| then vo[k] else NO_OFFSET
    ensures OnDisk(os', vo', trees[w := t])
  {
    forall k | k in trees && k != w ensures TreeAt(os', vo', k, trees[k]) {
      assert TreeAt(os, vo, k, trees[k]);
      TreeKept(os, os', vo, vo', k, trees[k]);
    }
  }

  /** The tree of the block with first word w goes to disk. */
  method Flush(psa: PrefixTreeSA, w: nat, vo: seq<int>, os: File<int>, ghost trees: map<nat, Trie>)
    returns (vo': seq<int>)
    requires psa.Valid() && os.pos == |os.cells| && OnDisk(os.cells, vo, trees)
    requires HasKey(psa.tree.keys, w, LowerBound(psa.tree.keys, w, 0))
    modifies os
    ensures os.pos == |os.cells| && OnDisk(os.cells, vo', trees[w := psa.tree])
    ensures |vo'| == if w < |vo| then |vo| else w + 1
  {
    vo' := vo;
    if w >= |vo'| { vo' := ResizeOffsets(vo', w + 1); }
    vo' := vo'[w := os.pos];
    PrefixTreeFile.Create(psa, os);
    NewTreeAt(old(os.cells), vo', w, psa.tree);
    OthersOnDisk(old(os.cells), os.cells, vo, vo', trees, w, psa.tree);
  }

  /** Inserting a phrase; it must not have an offset yet. */
  method InsertPhrase(psa: PrefixTreeSA, f: seq<nat>, ot: File<Cell>) returns (isNew: bool)
    requires psa.Valid() && f != []
    modifies psa.Repr
    ensures psa.Valid() && fresh(psa.Repr - old(psa.Repr)) && psa.tree == Inserted(old(psa.tree), f, ot.pos)
    ensures isNew <==> Find(old(psa.tree), f, NO_OFFSET) == NO_OFFSET
  {
    var o := ot.Tell();
    var was := psa.Insert(f, NO_OFFSET, d => if d == NO_OFFSET then o else d);
    isNew := was == NO_OFFSET;
  }

  /** Where Create stands after the given lines. */
  ghost predicate Ready(psa: PrefixTreeSA, p: Progress, os: File<int>, ot: File<Cell>, align: bool,
                        trees: map<nat, Trie>, rows: seq<Row>)
    reads psa, psa.Repr, os, ot
  {
    && psa.Valid() && os.pos == |os.cells| && ot.pos == |ot.cells| && OnDisk(os.cells, p.vo, trees)
    && if rows == [] then p == Progress([], [], []) && trees == map[] && psa.tree == EMPTY
       else Building(p, psa.tree, trees, ot.cells, align, rows)
  }

  /** A line with a new source phrase of the same block. */
  method NewPhrase(psa: PrefixTreeSA, p: Progress, r: Row, os: File<int>, ot: File<Cell>, align: bool,
                   ghost trees: map<nat, Trie>, ghost rows: seq<Row>)
    returns (ok: bool, p': Progress)
    requires Ready(psa, p, os, ot, align, trees, rows) && rows != [] && r.f != []
    requires r.f != p.currF && r.f[0] == p.currF[0]
    modifies psa.Repr, ot
    ensures fresh(psa.Repr - old(psa.Repr)) && (ok <==> !Repeats(rows + [r], |rows|))
    ensures ok ==> Ready(psa, p', os, ot, align, trees, rows + [r])
  {
    NextPhrase(p, psa.tree, trees, ot.cells, align, rows, r);
    p' := p.(currF := r.f, tgtCands := [r.cand]);
    WriteCands(ot, p.tgtCands, align);
    ok := InsertPhrase(psa, r.f, ot);
  }

  /** The end of a block: the candidates of its last phrase and its tree are written. */
  method CloseBlock(psa: PrefixTreeSA, p: Progress, os: File<int>, ot: File<Cell>, align: bool, ghost trees: map<nat, Trie>)
    returns (vo: seq<int>)
    requires psa.Valid() && os.pos == |os.cells| && ot.pos == |ot.cells| && OnDisk(os.cells, p.vo, trees)
    requires p.currF != [] && HasKey(psa.tree.keys, p.currF[0], LowerBound(psa.tree.keys, p.currF[0], 0))
    modifies os, ot
    ensures ot.cells == old(ot.cells) + Encode(p.tgtCands, align) && ot.pos == |ot.cells|
    ensures os.pos == |os.cells| && OnDisk(os.cells, vo, trees[p.currF[0] := psa.tree])
  {
    WriteCands(ot, p.tgtCands, align);
    vo := Flush(psa, p.currF[0], p.vo, os, trees);
  }

  lemma ReadyBlock(psa: PrefixTreeSA, p: Progress, os: File<int>, ot: File<Cell>, align: bool, trees: map<nat, Trie>, rows: seq<Row>)
    requires Ready(psa, p, os, ot, align, trees, rows) && rows != []
    ensures psa.Valid() && os.pos == |os.cells| && ot.pos == |ot.cells| && OnDisk(os.cells, p.vo, trees)
    ensures Building(p, psa.tree, trees, ot.cells, align, rows)
    ensures p.currF != [] && HasKey(psa.tree.keys, p.currF[0], LowerBound(psa.tree.keys, p.currF[0], 0))
  {}

  /** A new tree for the first phrase of a block. */
  method FirstPhrase(f: seq<nat>, ot: File<Cell>) returns (isNew: bool, psa: PrefixTreeSA)
    requires f != []
    ensures fresh(psa.Repr) && psa.Valid() && psa.tree == Inserted(EMPTY, f, ot.pos) && isNew
  {
    psa := new PrefixTreeSA();
    FindEmpty(f);
    isNew := InsertPhrase(psa, f, ot);
  }

  /** A line that starts a new block. */
  method NewBlock(psa: PrefixTreeSA, p: Progress, r: Row, os: File<int>, ot: File<Cell>, align: bool,
                  ghost trees: map<nat, Trie>, ghost rows: seq<Row>)
    returns (ok: bool, psa': PrefixTreeSA, p': Progress, ghost trees': map<nat, Trie>)
    requires Ready(psa, p, os, ot, align, trees, rows) && rows != [] && r.f != [] && r.f[0] != p.currF[0]
    modifies os, ot
    ensures fresh(psa'.Repr) && ok && !Repeats(rows + [r], |rows|)
    ensures Ready(psa', p', os, ot, align, trees', rows + [r])
  {
    hide *;
    ReadyBlock(psa, p, os, ot, align, trees, rows);
    trees' := trees[p.currF[0] := psa.tree];
    var vo := CloseBlock(psa, p, os, ot, align, trees);
    NextBlock(p, psa.tree, trees, old(ot.cells), align, rows, r, vo);
    p' := Progress(r.f, [r.cand], vo);
    ok, psa' := FirstPhrase(r.f, ot);
    IsReady(psa', p', os, ot, align, trees', rows + [r]);
  }

  lemma IsReady(psa: PrefixTreeSA, p: Progress, os: File<int>, ot: File<Cell>, align: bool, trees: map<nat, Trie>, rows: seq<Row>)
    requires psa.Valid() && os.pos == |os.cells| && ot.pos == |ot.cells| && OnDisk(os.cells, p.vo, trees)
    requires rows != [] && Building(p, psa.tree, trees, ot.cells, align, rows)
    ensures Ready(psa, p, os, ot, align, trees, rows)
  {}

  /** One entry, whatever it starts. */
  method AddRow(psa: PrefixTreeSA, p: Progress, r: Row, os: File<int>, ot: File<Cell>, align: bool,
                ghost trees: map<nat, Trie>, ghost rows: seq<Row>)
    returns (ok: bool, psa': PrefixTreeSA, p': Progress, ghost trees': map<nat, Trie>)
    requires Ready(psa, p, os, ot, align, trees, rows) && r.f != [] && NonEmpty(rows)
    modifies psa.Repr, os, ot
    ensures fresh(psa'.Repr - old(psa.Repr)) && (ok <==> !Repeats(rows + [r], |rows|))
    ensures ok ==> Ready(psa', p', os, ot, align, trees', rows + [r])
  {
    psa', trees' := psa, trees;
    if p.currF == [] {
      FirstLine(r, [], ot.cells, align);
      assert [] + [r] == [r];
      p' := p.(currF := r.f, tgtCands := [r.cand]);
      ok := InsertPhrase(psa, r.f, ot);
    } else if p.currF == r.f {
      SameRun(p, psa.tree, trees, ot.cells, align, rows, r);
      ok, p' := true, p.(tgtCands := p.tgtCands + [r.cand]);
    } else if r.f[0] == p.currF[0] {
      ok, p' := NewPhrase(psa, p, r, os, ot, align, trees, rows);
    } else {
      ok, psa', p', trees' := NewBlock(psa, p, r, os, ot, align, trees, rows);
    }
  }

  method Begin(os: File<int>, ot: File<Cell>, align: bool) returns (psa: PrefixTreeSA, p: Progress)
    requires os.cells == [] && os.pos == 0 && ot.pos == |ot.cells|
    ensures fresh(psa.Repr) && Ready(psa, p, os, ot, align, map[], [])
  {
    psa := new PrefixTreeSA();
    p := Progress([], [], []);
  }

  /** After the last line the last block goes to disk; without any line there is nothing to finish. */
  method Finish(psa: PrefixTreeSA, p: Progress, os: File<int>, ot: File<Cell>, align: bool,
                ghost trees: map<nat, Trie>, ghost rows: seq<Row>)
    returns (r: Result, ghost trees': map<nat, Trie>)
    requires Ready(psa, p, os, ot, align, trees, rows) && NonEmpty(rows)
    modifies os, ot
    ensures if rows == [] then r == Err(NoPhrases)
            else r.Ok? && WellFormed(trees') && OnDisk(os.cells, r.vo, trees') && Holds(trees', ot.cells, align, rows)
  {
    trees' := trees;
    if p.currF == [] { return Err(NoPhrases), trees; }
    BlockWritten(p, psa.tree, trees, ot.cells, align, rows);
    var vo := CloseBlock(psa, p, os, ot, align, trees);
    r, trees' := Ok(vo), trees[p.currF[0] := psa.tree];
  }

  // ---------------------------------------------------------------- Create

  method ReadScores(scoreVector: seq<real>) returns (sc: seq<real>)
    ensures sc == Floored(scoreVector)
  {
    sc := [];
    for i := 0 to |scoreVector|
      invariant sc == Floored(scoreVector)[..i]
    {
      var tmp := scoreVector[i];
      sc := sc + [if tmp > 0.0 then tmp else FLOOR];
    }
  }

  /** The words of a line get their labels. */
  method LabelLine(l: Line, sv: LVoc, tv: LVoc, ghost ws: seq<StringRow>, ghost rows: seq<Row>)
    returns (f: seq<nat>, cand: TgtCand)
    requires sv != tv && sv.Value().Valid() && tv.Value().Valid() && RowsLabels(sv.Value(), tv.Value(), ws, rows)
    modifies sv, tv
    ensures sv.Value().Valid() && tv.Value().Valid() && RowsLabels(sv.Value(), tv.Value(), ws, rows)
    ensures RowsLabels(sv.Value(), tv.Value(), ws + [RowOfLine(l)], rows + [Entry(f, cand)]) && |f| == |l.source|
    ensures Grown(old(sv.Value()), sv.Value(), l.source) && Grown(old(tv.Value()), tv.Value(), l.target)
  {
    hide Grown;
    f := AddWords(sv, l.source);
    var e := AddWords(tv, l.target);
    var sc := ReadScores(l.scores);
    cand := TgtCand(e, sc, l.sourceAlignment, l.targetAlignment);
    RowsKept(old(sv.Value()), old(tv.Value()), sv.Value(), tv.Value(), ws, rows);
    assert RowLabels(sv.Value(), tv.Value(), RowOfLine(l), Entry(f, cand));
  }

  lemma LinePasses(lines: seq<Line>, n: nat, align: bool, sv: Voc, tv: Voc, rows: seq<Row>, r: Row)
    requires n < |lines| && lines[n].source != [] && Passes(lines, n, align)
    requires lines[0].fields in {3, 5} && lines[n].fields == lines[0].fields && !(align && lines[0].fields == 3)
    requires sv.Valid() && tv.Valid() && NonEmpty(rows) && r.f != []
    requires RowsLabels(sv, tv, WordRows(lines, n) + [RowOfLine(lines[n])], rows + [r])
    ensures if Repeats(rows + [r], |rows|) then Fails(lines, n, align, Repeated) else Passes(lines, n + 1, align)
  {
    RepeatsAgree(sv, tv, WordRows(lines, n + 1), rows + [r], |rows|);
  }

  /** The labels that hold after n lines. */
  ghost predicate Named(lines: seq<Line>, n: nat, sv: LVoc, tv: LVoc, rows: seq<Row>)
    requires n <= |lines|
    reads sv, tv
  {
    && sv.Value().Valid() && tv.Value().Valid() && NonEmpty(rows) && RowsLabels(sv.Value(), tv.Value(), WordRows(lines, n), rows)
    && FromLines(lines, n, sv.Value(), tv.Value())
  }

  /** A line that is well-formed: its labels, and the entry if it has a source phrase. */
  method AddEntry(lines: seq<Line>, n: nat, align: bool, psa: PrefixTreeSA, p: Progress, r: Row, os: File<int>, ot: File<Cell>,
                  ghost sv: Voc, ghost tv: Voc, ghost trees: map<nat, Trie>, ghost rows: seq<Row>)
    returns (ok: bool, psa': PrefixTreeSA, p': Progress, ghost trees': map<nat, Trie>)
    requires n < |lines| && lines[n].source != [] && Passes(lines, n, align)
    requires lines[0].fields in {3, 5} && lines[n].fields == lines[0].fields && !(align && lines[0].fields == 3)
    requires sv.Valid() && tv.Valid() && NonEmpty(rows) && r.f != []
    requires RowsLabels(sv, tv, WordRows(lines, n) + [RowOfLine(lines[n])], rows + [r])
    requires Ready(psa, p, os, ot, align, trees, rows)
    modifies psa.Repr, os, ot
    ensures fresh(psa'.Repr - old(psa.Repr))
    ensures if ok then Passes(lines, n + 1, align) && Ready(psa', p', os, ot, align, trees', rows + [r])
            else Fails(lines, n, align, Repeated)
  {
    LinePasses(lines, n, align, sv, tv, rows, r);
    ok, psa', p', trees' := AddRow(psa, p, r, os, ot, align, trees, rows);
  }

  lemma SkippedPasses(lines: seq<Line>, n: nat, align: bool)
    requires n < |lines| && lines[n].source == [] && Passes(lines, n, align)
    requires lines[0].fields in {3, 5} && lines[n].fields == lines[0].fields && !(align && lines[0].fields == 3)
    ensures Passes(lines, n + 1, align)
  {
  }

  /** One line of the loop. */
  method AddLine(lines: seq<Line>, n: nat, align: bool, psa: PrefixTreeSA, p: Progress, os: File<int>, ot: File<Cell>,
                 sv: LVoc, tv: LVoc, ghost trees: map<nat, Trie>, ghost rows: seq<Row>)
    returns (error: seq<Error>, psa': PrefixTreeSA, p': Progress, ghost trees': map<nat, Trie>, ghost rows': seq<Row>)
    requires n < |lines| && sv != tv && Passes(lines, n, align)
    requires Ready(psa, p, os, ot, align, trees, rows) && Named(lines, n, sv, tv, rows)
    modifies psa.Repr, os, ot, sv, tv
    ensures fresh(psa'.Repr - old(psa.Repr))
    ensures error != [] ==> Fails(lines, n, align, error[0])
    ensures error == [] ==> Passes(lines, n + 1, align) && Ready(psa', p', os, ot, align, trees', rows') && Named(lines, n + 1, sv, tv, rows')
  {
    hide Ready, Repeats, Answer, Labels, RowLabels, Grown, FromLines;
    error, psa', p', trees', rows' := [], psa, p, trees, rows;
    if (lines[0].fields != 3 && lines[0].fields != 5) || lines[n].fields != lines[0].fields {
      error := [SyntaxError];
      return;
    }
    var f, cand := LabelLine(lines[n], sv, tv, WordRows(lines, n), rows);
    FromMoreLines(lines, n, old(sv.Value()), old(tv.Value()), sv.Value(), tv.Value());
    if align && lines[0].fields == 3 {
      error := [NoAlignment];
      return;
    }
    if f == [] {
      SkippedPasses(lines, n, align);
      return;
    }
    var ok;
    rows' := rows + [Entry(f, cand)];
    ok, psa', p', trees' := AddEntry(lines, n, align, psa, p, Entry(f, cand), os, ot, sv.Value(), tv.Value(), trees, rows);
    if !ok { error := [Repeated]; }
  }

  lemma NothingFails(lines: seq<Line>, align: bool)
    ensures Passes(lines, 0, align)
  {
  }

  /** The loop over the lines, up to the first that fails. */
  method AddLines(lines: seq<Line>, align: bool, psa: PrefixTreeSA, p: Progress, os: File<int>, ot: File<Cell>, sv: LVoc, tv: LVoc)
    returns (error: seq<Error>, at: nat, psa': PrefixTreeSA, p': Progress, ghost trees: map<nat, Trie>, ghost rows: seq<Row>)
    requires sv != tv && Ready(psa, p, os, ot, align, map[], []) && Named(lines, 0, sv, tv, [])
    modifies psa.Repr, os, ot, sv, tv
    ensures fresh(psa'.Repr - old(psa.Repr)) && at <= |lines| && Passes(lines, at, align)
    ensures error != [] ==> at < |lines| && Fails(lines, at, align, error[0])
    ensures error == [] ==> at == |lines| && Ready(psa', p', os, ot, align, trees, rows) && Named(lines, |lines|, sv, tv, rows)
  {
    hide *;
    NothingFails(lines, align);
    error, at, psa', p', trees, rows := [], 0, psa, p, map[], [];
    while at < |lines|
      invariant error == [] && fresh(psa'.Repr - old(psa.Repr)) && at <= |lines| && Passes(lines, at, align)
      invariant Ready(psa', p', os, ot, align, trees, rows) && Named(lines, at, sv, tv, rows)
    {
      error, psa', p', trees, rows := AddLine(lines, at, align, psa', p', os, ot, sv, tv, trees, rows);
      if error != [] { return; }
      at := at + 1;
    }
  }

  /** Create.  It fails at the first line that is malformed, lacks a demanded alignment or repeats a source
      phrase inside a block, and when there is no entry at all; otherwise the files hold the table. */
  method Create(lines: seq<Line>, align: bool, os: File<int>, ot: File<Cell>, sv: LVoc, tv: LVoc)
    returns (r: Result, ghost at: nat, ghost trees: map<nat, Trie>, ghost rows: seq<Row>)
    requires os.cells == [] && os.pos == 0 && ot.cells == [] && ot.pos == 0 && sv != tv
    requires sv.Value() == tv.Value() == Voc(map[], [])
    modifies os, ot, sv, tv
    ensures at <= |lines| && Passes(lines, at, align)
    ensures r.Ok? || r.error == NoPhrases ==> at == |lines| && (r.Ok? <==> WordRows(lines, |lines|) != [])
    ensures r.Err? && r.error != NoPhrases ==> at < |lines| && Fails(lines, at, align, r.error)
    ensures r.Ok? ==> Named(lines, |lines|, sv, tv, rows) && WellFormed(trees)
    ensures r.Ok? ==> OnDisk(os.cells, r.vo, trees) && Holds(trees, ot.cells, align, rows)
  {
    var psa, p := Begin(os, ot, align);
    var error, last;
    error, last, psa, p, trees, rows := AddLines(lines, align, psa, p, os, ot, sv, tv);
    at := last;
    if error != [] {
      r := Err(error[0]);
    } else {
      r, trees := Finish(psa, p, os, ot, align, trees, rows);
    }
  }
}
