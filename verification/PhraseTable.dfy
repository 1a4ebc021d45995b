/** What a binary phrase table holds and answers (moses/src/PhraseDictionaryTree.cpp). */
module PhraseTable {
  import opened Tries
  import opened TrieFile
  import opened TargetData

  /** A line of the table: a source phrase and one candidate for it. */
  datatype Entry<K(==), C> = Entry(f: seq<K>, cand: C)

  // ---------------------------------------------------------------- the answer

  /** The candidates of q among the first n lines, in input order.  Only the last block of lines with q's
      first word counts: when the block ends its tree is written out, and a later block replaces it. */
  function Answer<K(==), C>(rows: seq<Entry<K, C>>, n: nat, q: seq<K>): seq<C>
    requires n <= |rows| && q != [] && forall i :: 0 <= i < |rows| ==> rows[i].f != []
  {
    if n == 0 then []
    else
      var r := rows[n - 1];
      if r.f[0] != q[0] then Answer(rows, n - 1, q)
      else
        (if n > 1 && rows[n - 2].f[0] == q[0] then Answer(rows, n - 1, q) else [])
        + if r.f == q then [r.cand] else []
  }

  /** All candidates of q. */
  function CandidatesOf<K(==), C>(rows: seq<Entry<K, C>>, n: nat, q: seq<K>): seq<C>
    requires n <= |rows|
  {
    if n == 0 then [] else CandidatesOf(rows, n - 1, q) + if rows[n - 1].f == q then [rows[n - 1].cand] else []
  }

  /** A candidate of q stands before a later start of a block with q's first word. */
  ghost predicate Lost<K, C>(rows: seq<Entry<K, C>>, n: nat, q: seq<K>)
    requires n <= |rows| && q != [] && forall i :: 0 <= i < |rows| ==> rows[i].f != []
  {
    exists i, j :: 0 <= i < j < n && rows[i].f == q && StartsBlock(rows, j, q[0])
  }

  ghost predicate StartsBlock<K, C>(rows: seq<Entry<K, C>>, j: nat, k: K)
    requires j < |rows| && forall i :: 0 <= i < |rows| ==> rows[i].f != []
  {
    rows[j].f[0] == k && (j > 0 ==> rows[j - 1].f[0] != k)
  }

  lemma {:induction false} NoCandidates<K, C>(rows: seq<Entry<K, C>>, n: nat, q: seq<K>)
    requires n <= |rows|
    ensures CandidatesOf(rows, n, q) == [] <==> forall i :: 0 <= i < n ==> rows[i].f != q
  {
    if n > 0 { NoCandidates(rows, n - 1, q); }
  }

  /** The answer is all candidates of the phrase exactly when none of them is lost to a later block; input
      grouped by first word loses none. */
  lemma {:induction false} AnswerIsComplete<K, C>(rows: seq<Entry<K, C>>, n: nat, q: seq<K>)
    requires n <= |rows| && q != [] && forall i :: 0 <= i < |rows| ==> rows[i].f != []
    ensures Answer(rows, n, q) == CandidatesOf(rows, n, q) <==> !Lost(rows, n, q)
  {
    if n > 0 {
      AnswerIsComplete(rows, n - 1, q);
      LostByStart(rows, n, q);
      if StartsBlock(rows, n - 1, q[0]) {
        hide Lost;
        NoCandidates(rows, n - 1, q);
        assert Answer(rows, n, q) == if rows[n - 1].f == q then [rows[n - 1].cand] else [];
      } else {
        hide Lost;
        SameEnd(Answer(rows, n - 1, q), CandidatesOf(rows, n - 1, q), if rows[n - 1].f == q then [rows[n - 1].cand] else []);
      }
    }
  }

  /** The start of a block loses all candidates before it, and nothing else loses any. */
  lemma LostByStart<K, C>(rows: seq<Entry<K, C>>, n: nat, q: seq<K>)
    requires 0 < n <= |rows| && q != [] && forall i :: 0 <= i < |rows| ==> rows[i].f != []
    ensures if StartsBlock(rows, n - 1, q[0]) then Lost(rows, n, q) <==> exists i :: 0 <= i < n - 1 && rows[i].f == q
            else Lost(rows, n, q) <==> Lost(rows, n - 1, q)
  {
    hide StartsBlock;
  }

  lemma SameEnd<C>(a: seq<C>, b: seq<C>, x: seq<C>)
    ensures a + x == b + x <==> a == b
  {
    if a + x == b + x {
      assert a == (a + x)[..|a|] && b == (b + x)[..|b|];
    }
  }

  /** Line n starts the source phrase anew inside the block that already has it: Create aborts there. */
  ghost predicate Repeats<K, C>(rows: seq<Entry<K, C>>, n: nat)
    requires n < |rows| && forall i :: 0 <= i < |rows| ==> rows[i].f != []
  {
    && n > 0 && rows[n - 1].f != rows[n].f && rows[n - 1].f[0] == rows[n].f[0]
    && Answer(rows, n, rows[n].f) != []
  }

  lemma {:induction false} AnswerPrefix<K, C>(rows: seq<Entry<K, C>>, last: Entry<K, C>, n: nat, q: seq<K>)
    requires n <= |rows| && q != [] && last.f != [] && forall i :: 0 <= i < |rows| ==> rows[i].f != []
    ensures Answer(rows + [last], n, q) == Answer(rows, n, q)
  {
    if n > 0 { AnswerPrefix(rows, last, n - 1, q); }
  }

  /** Of three lines whose middle one begins with another word, the first is lost. */
  lemma {:induction false} SplitBlock<K, C>(rows: seq<Entry<K, C>>, a: K, b: K)
    requires |rows| == 3 && a != b && rows[0].f == rows[2].f == [a] && rows[1].f == [b]
    ensures CandidatesOf(rows, 3, [a]) == [rows[0].cand, rows[2].cand] && Answer(rows, 3, [a]) == [rows[2].cand]
  {
    assert CandidatesOf(rows, 1, [a]) == [rows[0].cand];
    assert CandidatesOf(rows, 2, [a]) == [rows[0].cand];
  }

  /** What one more line does to the answers. */
  lemma AnswerAppend<K, C>(rows: seq<Entry<K, C>>, last: Entry<K, C>, q: seq<K>)
    requires q != [] && last.f != [] && forall i :: 0 <= i < |rows| ==> rows[i].f != []
    ensures Answer(rows + [last], |rows| + 1, q)
         == if last.f[0] != q[0] then Answer(rows, |rows|, q)
            else (if rows != [] && rows[|rows| - 1].f[0] == q[0] then Answer(rows, |rows|, q) else [])
                 + if last.f == q then [last.cand] else []
  {
    AnswerPrefix(rows, last, |rows|, q);
  }

  /** Renaming keys and candidates renames the answers, if no two keys are renamed alike. */
  lemma {:induction false} AnswerRenamed<K, C, L, D>(rows: seq<Entry<K, C>>, named: seq<Entry<L, D>>, n: nat,
                                                            q: seq<K>, r: seq<L>, conv: C -> D)
    requires n <= |rows| == |named| && q != [] && r != []
    requires forall i :: 0 <= i < |rows| ==> rows[i].f != [] && named[i].f != [] && named[i].cand == conv(rows[i].cand)
    requires forall i :: 0 <= i < |rows| ==> (rows[i].f == q <==> named[i].f == r) && (rows[i].f[0] == q[0] <==> named[i].f[0] == r[0])
    ensures Answer(named, n, r) == seq(|Answer(rows, n, q)|, i requires 0 <= i < |Answer(rows, n, q)| => conv(Answer(rows, n, q)[i]))
  {
    if n > 0 { AnswerRenamed(rows, named, n - 1, q, r, conv); }
  }

  // ---------------------------------------------------------------- how it is stored

  const NO_OFFSET: int := -1

  type Row = Entry<nat, TgtCand>

  /** The tree sends q to the list of its candidates, or nowhere if it has none. */
  ghost predicate Serves(t: Trie, c: seq<Cell>, align: bool, q: seq<nat>, cands: seq<TgtCand>)
    requires q != [] && Wf(t)
  {
    var o := Find(t, q, NO_OFFSET);
    if cands == [] then o == NO_OFFSET else 0 <= o && At(c, o, Encode(cands, align))
  }

  lemma AtGrows(c: seq<Cell>, d: seq<Cell>, pos: nat, e: seq<Cell>)
    requires At(c, pos, e) && c <= d
    ensures At(d, pos, e)
  {
  }

  lemma ServesGrows(t: Trie, c: seq<Cell>, d: seq<Cell>, align: bool, q: seq<nat>, cands: seq<TgtCand>)
    requires q != [] && Wf(t) && Serves(t, c, align, q, cands) && c <= d
    ensures Serves(t, d, align, q, cands)
  {
    if cands != [] { AtGrows(c, d, Find(t, q, NO_OFFSET), Encode(cands, align)); }
  }

  /** The trees of all finished blocks, by first word. */
  ghost predicate OnDisk(os: seq<int>, vo: seq<int>, trees: map<nat, Trie>) {
    && (forall w :: w in trees ==> TreeAt(os, vo, w, trees[w]))
    && (forall w :: 0 <= w < |vo| && w !in trees ==> vo[w] == NO_OFFSET)
  }

  ghost predicate TreeAt(os: seq<int>, vo: seq<int>, w: nat, t: Trie) {
    && w < |vo| && 0 <= vo[w] && t.Node? && Wf(t) && Stored(os, vo[w], t)
    && HasKey(t.keys, w, LowerBound(t.keys, w, 0))
  }

  ghost function TreeOf(trees: map<nat, Trie>, w: nat): Trie {
    if w in trees then trees[w] else Nil
  }

  ghost predicate NonEmpty(rows: seq<Row>) {
    forall i :: 0 <= i < |rows| ==> rows[i].f != []
  }

  ghost predicate WellFormed(trees: map<nat, Trie>) {
    forall w :: w in trees ==> Wf(trees[w])
  }

  /** The answer for q can be found by way of tree t. */
  ghost predicate Served(t: Trie, c: seq<Cell>, align: bool, rows: seq<Row>, q: seq<nat>)
    requires q != [] && Wf(t) && NonEmpty(rows)
  {
    Serves(t, c, align, q, Answer(rows, |rows|, q))
  }

  /** The finished trees answer every phrase. */
  ghost predicate Holds(trees: map<nat, Trie>, c: seq<Cell>, align: bool, rows: seq<Row>)
    requires WellFormed(trees) && NonEmpty(rows)
  {
    forall q :: q != [] ==> Served(TreeOf(trees, q[0]), c, align, rows, q)
  }

  // ---------------------------------------------------------------- while the table is built

  /** The variables of Create's loop that are plain values. */
  datatype Progress = Progress(currF: seq<nat>, tgtCands: seq<TgtCand>, vo: seq<int>)

  /** Every phrase with another first word than w is served by a tree on disk. */
  ghost predicate DiskServes(trees: map<nat, Trie>, c: seq<Cell>, align: bool, rows: seq<Row>, w: nat)
    requires WellFormed(trees) && NonEmpty(rows)
  {
    forall q :: q != [] && q[0] != w ==> Served(TreeOf(trees, q[0]), c, align, rows, q)
  }

  /** Every phrase with the first word of f, except f, is served by the tree in memory. */
  ghost predicate MemoryServes(t: Trie, c: seq<Cell>, align: bool, rows: seq<Row>, f: seq<nat>)
    requires Wf(t) && NonEmpty(rows) && f != []
  {
    forall q :: q != [] && q[0] == f[0] && q != f ==> Served(t, c, align, rows, q)
  }

  /** The candidates of the current phrase are still to be written at the end of the file. */
  ghost predicate Pending(p: Progress, t: Trie, c: seq<Cell>, rows: seq<Row>)
    requires t.Node? && Wf(t) && NonEmpty(rows)
  {
    && rows != [] && p.currF == rows[|rows| - 1].f
    && HasKey(t.keys, p.currF[0], LowerBound(t.keys, p.currF[0], 0))
    && Find(t, p.currF, NO_OFFSET) == |c| && Answer(rows, |rows|, p.currF) == p.tgtCands != []
  }

  ghost predicate Building(p: Progress, t: Trie, trees: map<nat, Trie>, c: seq<Cell>, align: bool, rows: seq<Row>) {
    && WellFormed(trees) && NonEmpty(rows) && t.Node? && Wf(t) && Pending(p, t, c, rows)
    && DiskServes(trees, c, align, rows, p.currF[0]) && MemoryServes(t, c, align, rows, p.currF)
  }

  /** The insertion of phrase f, whose candidates will start at offset o. */
  function Inserted(t: Trie, f: seq<nat>, o: nat): Trie
    requires f != [] && Wf(t)
  {
    Insert(t, f, NO_OFFSET, d => if d == NO_OFFSET then o else d)
  }

  lemma FindInserted(t: Trie, f: seq<nat>, o: nat, q: seq<nat>)
    requires f != [] && q != [] && Wf(t)
    ensures Find(Inserted(t, f, o), q, NO_OFFSET)
         == if q == f && Find(t, f, NO_OFFSET) == NO_OFFSET then o else Find(t, q, NO_OFFSET)
  {
    FindAfterInsert(t, f, NO_OFFSET, d => if d == NO_OFFSET then o else d, q);
  }

  lemma InsertedHasKey(t: Trie, f: seq<nat>, o: nat)
    requires f != [] && Wf(t)
    ensures var r := Inserted(t, f, o); r.Node? && HasKey(r.keys, f[0], LowerBound(r.keys, f[0], 0))
  {
  }

  /** A line changes no answer but that of its own phrase, unless it starts a block. */
  lemma AnswerElsewhere(rows: seq<Row>, r: Row, q: seq<nat>)
    requires NonEmpty(rows) && r.f != [] && q != [] && q != r.f
    requires q[0] != r.f[0] || (rows != [] && rows[|rows| - 1].f[0] == r.f[0])
    ensures Answer(rows + [r], |rows| + 1, q) == Answer(rows, |rows|, q)
  {
    AnswerAppend(rows, r, q);
  }

  /** What is served by the disk stays served when the file grows and lines with another first word come. */
  lemma DiskStays(trees: map<nat, Trie>, c: seq<Cell>, d: seq<Cell>, align: bool, rows: seq<Row>, r: Row)
    requires WellFormed(trees) && NonEmpty(rows) && r.f != [] && c <= d && DiskServes(trees, c, align, rows, r.f[0])
    ensures DiskServes(trees, d, align, rows + [r], r.f[0])
  {
    forall q: seq<nat> | q != [] && q[0] != r.f[0] ensures Served(TreeOf(trees, q[0]), d, align, rows + [r], q) {
      assert Served(TreeOf(trees, q[0]), c, align, rows, q);
      AnswerElsewhere(rows, r, q);
      ServesGrows(TreeOf(trees, q[0]), c, d, align, q, Answer(rows, |rows|, q));
    }
  }

  /** At the start of a block its first word has no other answers. */
  lemma FirstAnswer(rows: seq<Row>, r: Row, q: seq<nat>)
    requires NonEmpty(rows) && r.f != [] && (rows != [] ==> rows[|rows| - 1].f[0] != r.f[0]) && q != [] && q[0] == r.f[0]
    ensures Answer(rows + [r], |rows| + 1, q) == if q == r.f then [r.cand] else []
  {
    AnswerAppend(rows, r, q);
  }

  lemma FindEmpty(q: seq<nat>)
    requires q != []
    ensures Find(EMPTY, q, NO_OFFSET) == NO_OFFSET
  {
  }

  lemma FindFresh(f: seq<nat>, o: nat, q: seq<nat>)
    requires f != [] && q != []
    ensures Find(Inserted(EMPTY, f, o), q, NO_OFFSET) == if q == f then o else NO_OFFSET
  {
    FindInserted(EMPTY, f, o, q);
  }

  /** A tree that holds only the phrase of the line that starts a block. */
  lemma FreshTree(c: seq<Cell>, align: bool, rows: seq<Row>, r: Row, vo: seq<int>)
    requires NonEmpty(rows) && r.f != [] && (rows != [] ==> rows[|rows| - 1].f[0] != r.f[0])
    ensures var t := Inserted(EMPTY, r.f, |c|);
            t.Node? && Pending(Progress(r.f, [r.cand], vo), t, c, rows + [r]) && MemoryServes(t, c, align, rows + [r], r.f)
  {
    InsertedHasKey(EMPTY, r.f, |c|);
    FindFresh(r.f, |c|, r.f);
    FirstAnswer(rows, r, r.f);
    forall q: seq<nat> | q != [] && q[0] == r.f[0] && q != r.f
      ensures Served(Inserted(EMPTY, r.f, |c|), c, align, rows + [r], q)
    {
      FindFresh(r.f, |c|, q);
      FirstAnswer(rows, r, q);
    }
  }

  /** The first line. */
  lemma FirstLine(r: Row, vo: seq<int>, c: seq<Cell>, align: bool)
    requires r.f != []
    ensures Building(Progress(r.f, [r.cand], vo), Inserted(EMPTY, r.f, |c|), map[], c, align, [r])
  {
    FreshTree(c, align, [], r, vo);
    DiskStays(map[], c, c, align, [], r);
    assert [] + [r] == [r];
  }

  /** One more candidate of the current phrase. */
  lemma SameRun(p: Progress, t: Trie, trees: map<nat, Trie>, c: seq<Cell>, align: bool, rows: seq<Row>, r: Row)
    requires Building(p, t, trees, c, align, rows) && r.f == p.currF
    ensures Building(p.(tgtCands := p.tgtCands + [r.cand]), t, trees, c, align, rows + [r])
  {
    AnswerAppend(rows, r, r.f);
    DiskStays(trees, c, c, align, rows, r);
    forall q: seq<nat> | q != [] && q[0] == r.f[0] && q != r.f ensures Served(t, c, align, rows + [r], q) {
      assert Served(t, c, align, rows, q);
      AnswerElsewhere(rows, r, q);
    }
  }

  /** Once the candidates of the current phrase are written, the tree in memory serves its whole block. */
  lemma PendingWritten(p: Progress, t: Trie, trees: map<nat, Trie>, c: seq<Cell>, align: bool, rows: seq<Row>, q: seq<nat>)
    requires Building(p, t, trees, c, align, rows) && q != [] && q[0] == p.currF[0]
    ensures Served(t, c + Encode(p.tgtCands, align), align, rows, q)
  {
    if q == p.currF {
      assert At(c + Encode(p.tgtCands, align), |c|, Encode(p.tgtCands, align));
    } else {
      assert Served(t, c, align, rows, q);
      ServesGrows(t, c, c + Encode(p.tgtCands, align), align, q, Answer(rows, |rows|, q));
    }
  }

  /** The block ends: its tree goes to disk. */
  lemma BlockWritten(p: Progress, t: Trie, trees: map<nat, Trie>, c: seq<Cell>, align: bool, rows: seq<Row>)
    requires Building(p, t, trees, c, align, rows)
    ensures WellFormed(trees[p.currF[0] := t])
    ensures Holds(trees[p.currF[0] := t], c + Encode(p.tgtCands, align), align, rows)
  {
    var d, more := c + Encode(p.tgtCands, align), trees[p.currF[0] := t];
    forall q: seq<nat> | q != [] ensures Served(TreeOf(more, q[0]), d, align, rows, q) {
      if q[0] == p.currF[0] {
        PendingWritten(p, t, trees, c, align, rows, q);
      } else {
        assert Served(TreeOf(trees, q[0]), c, align, rows, q);
        ServesGrows(TreeOf(trees, q[0]), c, d, align, q, Answer(rows, |rows|, q));
      }
    }
  }

  /** A new phrase of the same block: it is inserted, and is new exactly if the line does not repeat it. */
  lemma NextPhrase(p: Progress, t: Trie, trees: map<nat, Trie>, c: seq<Cell>, align: bool, rows: seq<Row>, r: Row)
    requires Building(p, t, trees, c, align, rows) && r.f != [] && r.f != p.currF && r.f[0] == p.currF[0]
    ensures var d := c + Encode(p.tgtCands, align);
            if Find(t, r.f, NO_OFFSET) == NO_OFFSET then
              !Repeats(rows + [r], |rows|) &&
              Building(Progress(r.f, [r.cand], p.vo), Inserted(t, r.f, |d|), trees, d, align, rows + [r])
            else Repeats(rows + [r], |rows|)
  {
    var d := c + Encode(p.tgtCands, align);
    AnswerPrefix(rows, r, |rows|, r.f);
    assert Served(t, c, align, rows, r.f);
    if Find(t, r.f, NO_OFFSET) == NO_OFFSET {
      var u := Inserted(t, r.f, |d|);
      InsertedHasKey(t, r.f, |d|);
      FindInserted(t, r.f, |d|, r.f);
      AnswerAppend(rows, r, r.f);
      DiskStays(trees, c, d, align, rows, r);
      forall q: seq<nat> | q != [] && q[0] == r.f[0] && q != r.f ensures Served(u, d, align, rows + [r], q) {
        PendingWritten(p, t, trees, c, align, rows, q);
        FindInserted(t, r.f, |d|, q);
        AnswerElsewhere(rows, r, q);
      }
    }
  }

  /** A new block: the old tree is on disk, and a new one holds the new phrase alone. */
  lemma NextBlock(p: Progress, t: Trie, trees: map<nat, Trie>, c: seq<Cell>, align: bool, rows: seq<Row>, r: Row, vo: seq<int>)
    requires Building(p, t, trees, c, align, rows) && r.f != [] && r.f[0] != p.currF[0]
    ensures var d := c + Encode(p.tgtCands, align);
            !Repeats(rows + [r], |rows|) &&
            Building(Progress(r.f, [r.cand], vo), Inserted(EMPTY, r.f, |d|), trees[p.currF[0] := t], d, align, rows + [r])
  {
    var d, more := c + Encode(p.tgtCands, align), trees[p.currF[0] := t];
    BlockWritten(p, t, trees, c, align, rows);
    assert DiskServes(more, d, align, rows, r.f[0]);
    DiskStays(more, d, d, align, rows, r);
    FreshTree(d, align, rows, r, vo);
  }
}
