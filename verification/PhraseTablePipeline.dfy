/** A binary phrase table from its text to its answers (moses/src/PhraseDictionaryTree.cpp, Create, Read and
    GetTargetCandidates). */
module PhraseTablePipeline {
  import opened Files
  import opened Tries
  import opened TargetData
  import opened LVoc
  import opened PhraseTable
  import opened PhraseTableCreate
  import opened PhraseTableRead
  import opened PhraseTableLines

  ghost predicate Tokens(v: Voc) {
    forall k :: k in v.data ==> Token(k)
  }

  /** The end of Create writes the index and the vocabularies; a reader that opens the files answers a phrase with
      its candidates in the text, in their order, and goes on doing so after its memory has been freed. */
  method StoreAndLookUp(lines: seq<Line>, align: bool, vo: seq<int>, os: File<int>, ot: File<Cell>, sv: LVoc, tv: LVoc,
                        src: seq<string>, ghost trees: map<nat, Trie>, ghost rows: seq<Row>)
    returns (rv: seq<StringCand>, again: seq<StringCand>)
    requires Named(lines, |lines|, sv, tv, rows) && WellFormed(trees)
    requires OnDisk(os.cells, vo, trees) && Holds(trees, ot.cells, align, rows)
    requires Tokens(sv.Value()) && Tokens(tv.Value()) && |sv.data| <= INVALID_LABEL
    modifies os`pos, ot`pos
    ensures var ws := WordRows(lines, |lines|);
            rv == if src == [] then [] else RereadAllWords(Answer(ws, |ws|, src), align)
    ensures again == rv
  {
    hide *;
    var table := StoreAndOpen(lines, align, vo, os, ot, sv, tv, trees, rows);
    rv := LookUp(table, lines, align, src);
    table.FreeMemory();
    again := LookUp(table, lines, align, src);
  }

  /** The words of the lines are tokens, and there are fewer source words than labels. */
  ghost predicate Tokenised(lines: seq<Line>) {
    && (forall i, w :: 0 <= i < |lines| && (w in lines[i].source || w in lines[i].target) ==> Token(w))
    && SourceWords(lines, |lines|) <= INVALID_LABEL
  }

  lemma WordsAreTokens(lines: seq<Line>, sv: Voc, tv: Voc)
    requires Tokenised(lines) && FromLines(lines, |lines|, sv, tv) && sv.Valid() && tv.Valid()
    ensures Tokens(sv) && Tokens(tv) && |sv.data| <= INVALID_LABEL
  {
    forall k | k in sv.data ensures Token(k) {
      assert k in sv.m;
    }
    forall k | k in tv.data ensures Token(k) {
      assert k in tv.m;
    }
  }

  lemma NamedParts(lines: seq<Line>, sv: LVoc, tv: LVoc, rows: seq<Row>)
    requires Named(lines, |lines|, sv, tv, rows)
    ensures sv.Value().Valid() && tv.Value().Valid() && FromLines(lines, |lines|, sv.Value(), tv.Value())
    ensures sv.Value().data == sv.data
  {}

  /** What creation says about the lines: the error of the first that fails, that there are none, or nothing. */
  ghost predicate Outcome(lines: seq<Line>, align: bool, error: seq<Error>) {
    if error == [] then NoneFails(lines, |lines|, align) && exists i :: 0 <= i < |lines| && lines[i].source != []
    else if error[0] == NoPhrases then NoneFails(lines, |lines|, align) && forall i :: 0 <= i < |lines| ==> lines[i].source == []
    else exists at :: 0 <= at < |lines| && NoneFails(lines, at, align) && LineFails(lines, at, align, error[0])
  }

  ghost predicate NoneFails(lines: seq<Line>, n: nat, align: bool)
    requires n <= |lines|
  {
    forall m, e :: 0 <= m < n ==> !LineFails(lines, m, align, e)
  }

  lemma PassesMeans(lines: seq<Line>, n: nat, align: bool)
    requires n <= |lines|
    ensures Passes(lines, n, align) <==> NoneFails(lines, n, align)
  {
    hide LineFails, Fails;
    forall m, e | 0 <= m < n ensures Fails(lines, m, align, e) <==> LineFails(lines, m, align, e) { FailsMeans(lines, m, align, e); }
  }

  /** From the lines of a table to the candidates of a phrase: creation fails exactly where it must; otherwise the
      files that it writes are opened and answer with the candidates in the text, in their order, before and after
      the memory is freed. */
  method CreateAndLookUp(lines: seq<Line>, align: bool, src: seq<string>)
    returns (error: seq<Error>, rv: seq<StringCand>, again: seq<StringCand>)
    requires Tokenised(lines)
    ensures Outcome(lines, align, error)
    ensures error == [] ==>
              again == rv && if src == [] then rv == [] else exists numbers :: CandidatesOfLines(lines, align, src, numbers, rv)
  {
    hide *;
    error, rv, again := [], [], [];
    var os := new File<int>();
    var ot := new File<Cell>();
    var sv := new LVoc();
    var tv := new LVoc();
    var r;
    ghost var at, trees, rows;
    r, at, trees, rows := Create(lines, align, os, ot, sv, tv);
    OutcomeOf(lines, align, r, at);
    if r.Err? {
      error := [r.error];
      return;
    }
    NamedParts(lines, sv, tv, rows);
    WordsAreTokens(lines, sv.Value(), tv.Value());
    rv, again := StoreAndLookUp(lines, align, r.vo, os, ot, sv, tv, src, trees, rows);
    if src != [] {
      ghost var numbers := AnswerIsLines(lines, align, src);
    }
  }

  lemma OutcomeOf(lines: seq<Line>, align: bool, r: Result, at: nat)
    requires at <= |lines| && Passes(lines, at, align)
    requires r.Ok? || r.error == NoPhrases ==> at == |lines| && (r.Ok? <==> WordRows(lines, |lines|) != [])
    requires r.Err? && r.error != NoPhrases ==> at < |lines| && Fails(lines, at, align, r.error)
    ensures Outcome(lines, align, if r.Ok? then [] else [r.error])
  {
    hide Passes, NoneFails, Fails, LineFails, WordRows;
    SomeRows(lines, |lines|);
    PassesMeans(lines, at, align);
    if at < |lines| && r.Err? { FailsMeans(lines, at, align, r.error); }
  }

  method LookUp(table: PDTimp, lines: seq<Line>, align: bool, src: seq<string>) returns (rv: seq<StringCand>)
    requires table.Valid() && table.ws == WordRows(lines, |lines|) && table.usewordalign == align
    requires forall w :: w in table.sv.m ==> table.sv.m[w] < INVALID_LABEL
    modifies table`data, table`all, table.all`ptr, table.os`pos, table.ot`pos
    ensures table.Valid() && old(table.all) <= table.all && fresh(table.all - old(table.all))
    ensures var ws := WordRows(lines, |lines|);
            rv == if src == [] then [] else RereadAllWords(Answer(ws, |ws|, src), align)
  {
    hide PDTimp.Valid, PDTimp.Holding, Answer, RereadAllWords, WordRows;
    rv := table.GetTargetCandidates(src);
    table.ValidHolds();
  }

  /** The index and the vocabularies are written, and all files are opened for reading. */
  method StoreAndOpen(lines: seq<Line>, align: bool, vo: seq<int>, os: File<int>, ot: File<Cell>, sv: LVoc, tv: LVoc,
                      ghost trees: map<nat, Trie>, ghost rows: seq<Row>)
    returns (table: PDTimp)
    requires Named(lines, |lines|, sv, tv, rows) && WellFormed(trees)
    requires OnDisk(os.cells, vo, trees) && Holds(trees, ot.cells, align, rows)
    requires Tokens(sv.Value()) && Tokens(tv.Value()) && |sv.data| <= INVALID_LABEL
    ensures fresh(table) && table.Valid() && table.ws == WordRows(lines, |lines|) && table.usewordalign == align
    ensures table.all == {} && table.os == os && table.ot == ot
    ensures forall w :: w in table.sv.m ==> table.sv.m[w] < INVALID_LABEL
  {
    hide OnDisk, Holds, WellFormed, RowsLabels, PDTimp.Valid, ReadLines, WrittenLines;
    var idx := new File<int>();
    idx.Write(|vo|);
    idx.WriteAll(vo);
    idx.Seek(0);
    var svLines := sv.Write();
    var tvLines := tv.Write();
    RoundTrip(sv.Value());
    RoundTrip(tv.Value());
    table := new PDTimp(idx, os, ot, svLines, tvLines, align, vo, trees, rows, WordRows(lines, |lines|));
    LabelsAreSmall(table.sv);
  }

  lemma LabelsAreSmall(v: Voc)
    requires v.Valid() && |v.data| <= INVALID_LABEL
    ensures forall w :: w in v.m ==> v.m[w] < INVALID_LABEL
  {}

  ghost predicate NoNul(v: seq<string>) {
    forall i :: 0 <= i < |v| ==> '\0' !in v[i]
  }

  lemma StringsUnchanged(v: seq<string>)
    ensures CStrings(v) == v <==> NoNul(v)
  {
    if CStrings(v) == v {
      forall i | 0 <= i < |v| ensures '\0' !in v[i] { assert CString(v[i]) == CStrings(v)[i] == v[i]; }
    }
    if NoNul(v) {
      assert forall i :: 0 <= i < |v| ==> CString(v[i]) == v[i];
    }
  }

  /** Alignments that are stored hold no NUL, and where none are stored there are none. */
  ghost predicate Kept(s: StringCand, align: bool) {
    if align then NoNul(s.sourceAlignment) && NoNul(s.targetAlignment) else s.sourceAlignment == s.targetAlignment == []
  }

  /** Exactly such candidates come back as they were. */
  lemma NothingChanged(ss: seq<StringCand>, align: bool)
    ensures RereadAllWords(ss, align) == ss <==> forall i :: 0 <= i < |ss| ==> Kept(ss[i], align)
  {
    forall i | 0 <= i < |ss| ensures RereadWords(ss[i], align) == ss[i] <==> Kept(ss[i], align) {
      StringsUnchanged(ss[i].sourceAlignment);
      StringsUnchanged(ss[i].targetAlignment);
    }
    if forall i :: 0 <= i < |ss| ==> Kept(ss[i], align) { assert RereadAllWords(ss, align) == ss; }
    if RereadAllWords(ss, align) == ss {
      forall i | 0 <= i < |ss| ensures Kept(ss[i], align) { assert RereadAllWords(ss, align)[i] == ss[i]; }
    }
  }
}
