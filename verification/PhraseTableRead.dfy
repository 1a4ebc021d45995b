/** Looking phrases up in a binary phrase table (moses/src/PhraseDictionaryTree.cpp, PDTimp). */
module PhraseTableRead {
  import opened Files
  import opened Tries
  import opened TrieFile
  import opened PrefixTreeReader
  import opened TargetData
  import opened LVoc
  import opened PhraseTable
  import opened PhraseTableCreate

  const EPSILON := "*EPS*"

  /** A position in the table: nowhere, before the first word, or at an item of a node. */
  datatype PPtr = NoPtr | Root | Position(node: PrefixTreeF, idx: nat)

  /** operator bool */
  predicate IsValid(p: PPtr)
    reads if p.Position? then {p.node} else {}
  {
    p.Root? || (p.Position? && p.idx < |p.node.keys|)
  }

  /** What a candidate in words becomes by being written and read. */
  function RereadWords(s: StringCand, align: bool): StringCand {
    s.(sourceAlignment := if align then CStrings(s.sourceAlignment) else [],
       targetAlignment := if align then CStrings(s.targetAlignment) else [])
  }

  function RereadAllWords(ss: seq<StringCand>, align: bool): seq<StringCand> {
    seq(|ss|, i requires 0 <= i < |ss| => RereadWords(ss[i], align))
  }

  /** The files of one table and what they hold. */
  ghost predicate Table(os: seq<int>, ot: seq<Cell>, vo: seq<int>, sv: Voc, tv: Voc,
                        trees: map<nat, Trie>, rows: seq<Row>, ws: seq<StringRow>, align: bool) {
    && WellFormed(trees) && NonEmpty(rows) && OnDisk(os, vo, trees) && Holds(trees, ot, align, rows)
    && sv.Valid() && tv.Valid() && RowsLabels(sv, tv, ws, rows) && (forall i :: 0 <= i < |ws| ==> ws[i].f != [])
  }

  /** A phrase with a word that no entry has has no candidates. */
  lemma {:induction false} NoneWith(ws: seq<StringRow>, n: nat, src: seq<string>, w: string)
    requires n <= |ws| && w in src && forall i :: 0 <= i < |ws| ==> ws[i].f != [] && w !in ws[i].f
    ensures Answer(ws, n, src) == []
  {
    if n > 0 { NoneWith(ws, n - 1, src, w); }
  }

  /** The child at the item of s is where s leads. */
  lemma KidOfItem(t: Trie, s: seq<nat>, idx: nat, wi: nat)
    requires Wf(t) && s != [] && var u := SubTrie(t, s[..|s| - 1]); u.Node? && idx == Tries.FindKey(u, s[|s| - 1]) < |u.keys|
    ensures SubTrie(t, s) == SubTrie(t, s[..|s| - 1]).kids[idx]
    ensures SubTrie(t, s).Nil? ==> FindPtr(t, s + [wi]) == None
  {
    SubTrieStep(t, s[..|s| - 1], s[|s| - 1]);
    FindBySubTrie(t, s, wi);
    assert s == s[..|s| - 1] + [s[|s| - 1]];
  }

  class PDTimp {
    var data: seq<FilePtr>
    const srcOffsets: seq<int>
    const os: File<int>
    const ot: File<Cell>
    const sv: Voc
    const tv: Voc
    const usewordalign: bool
    /** All nodes that have been loaded. */
    ghost var all: set<PrefixTreeF>
    /** What the files hold. */
    ghost const trees: map<nat, Trie>
    ghost const rows: seq<Row>
    ghost const ws: seq<StringRow>

    ghost predicate Holding()
      reads os`cells, ot`cells
    {
      Table(os.cells, ot.cells, srcOffsets, sv, tv, trees, rows, ws, usewordalign)
    }

    /** The pointer to the tree of first word w. */
    ghost predicate RootLink(w: nat)
      requires w < |data| == |srcOffsets|
      reads this`data, this`all, all`tree, all`f, all`startPos
    {
      && data[w].f == os && data[w].pos == srcOffsets[w]
      && (data[w].t != null ==> w in trees && data[w].t in all && data[w].t.tree == trees[w])
    }

    ghost predicate Valid()
      reads this, all, os`cells, ot`cells
    {
      && Holding() && Sound(all) && Backed(all, os) && |data| == |srcOffsets|
      && forall w :: 0 <= w < |data| ==> RootLink(w)
    }

    /** Read */
    constructor (idx: File<int>, os: File<int>, ot: File<Cell>, svLines: seq<string>, tvLines: seq<string>, align: bool,
                 ghost vo: seq<int>, ghost trees: map<nat, Trie>, ghost rows: seq<Row>, ghost ws: seq<StringRow>)
      requires idx.pos == 0 && idx.cells == [|vo|] + vo
      requires Table(os.cells, ot.cells, vo, ReadLines(Voc(map[], []), svLines), ReadLines(Voc(map[], []), tvLines),
                     trees, rows, ws, align)
      modifies idx`pos
      ensures Valid() && this.rows == rows && this.ws == ws && usewordalign == align && all == {}
      ensures this.os == os && this.ot == ot && this.trees == trees
      ensures this.sv == ReadLines(Voc(map[], []), svLines) && this.tv == ReadLines(Voc(map[], []), tvLines)
    {
      hide *;
      var links, offsets := ReadIndex(idx, os, vo);
      data, srcOffsets := links, offsets;
      this.os, this.ot, this.usewordalign := os, ot, align;
      this.sv, this.tv := ReadLines(Voc(map[], []), svLines), ReadLines(Voc(map[], []), tvLines);
      this.trees, this.rows, this.ws, this.all := trees, rows, ws, {};
      new;
      Opened();
    }

    lemma Opened()
      requires Table(os.cells, ot.cells, srcOffsets, sv, tv, trees, rows, ws, usewordalign)
      requires all == {} && |data| == |srcOffsets| && forall i :: 0 <= i < |data| ==> data[i] == FilePtr(os, srcOffsets[i], null)
      ensures Valid()
    {
      hide Table;
    }

    /** The index: the place of every tree, and a pointer to it. */
    static method ReadIndex(idx: File<int>, os: File<int>, ghost vo: seq<int>) returns (data: seq<FilePtr>, srcOffsets: seq<int>)
      requires idx.pos == 0 && idx.cells == [|vo|] + vo
      modifies idx`pos
      ensures srcOffsets == vo && |data| == |vo| && forall i :: 0 <= i < |data| ==> data[i] == FilePtr(os, vo[i], null)
    {
      var n := idx.Read();
      srcOffsets := idx.ReadAll(n);
      data := [];
      for i := 0 to |srcOffsets|
        invariant |data| == i && forall j :: 0 <= j < i ==> data[j] == FilePtr(os, srcOffsets[j], null)
      {
        data := data + [FilePtr(os, srcOffsets[i], null)];
      }
    }

    lemma RootOf(w: nat)
      requires Valid() && w < |data|
      ensures RootLink(w) && WellFormed(trees) && (data[w].Set() <==> w in trees)
      ensures w in trees ==> w < |srcOffsets| && srcOffsets[w] >= 0 && trees[w].Node? && Wf(trees[w])
      ensures w in trees ==> Stored(os.cells, srcOffsets[w], trees[w]) && srcOffsets[w] <= |os.cells|
      ensures w in trees ==> HasKey(trees[w].keys, w, LowerBound(trees[w].keys, w, 0))
    {
    }

    /** FilePtr::load on the pointer to the tree of first word w. */
    method LoadRoot(w: nat) returns (t: PrefixTreeF)
      requires Valid() && w < |data| && w in trees
      modifies this`data, this`all, os`pos
      ensures Valid() && t in all && t.tree == trees[w] && old(all) <= all && fresh(all - old(all)) && |data| == old(|data|)
    {
      hide Table, Stored, Backed, TreeAt;
      RootOf(w);
      if data[w].t == null {
        os.Seek(data[w].pos);
        t := new PrefixTreeF(os, trees[w], null, 0);
        AddNode(w, t);
      }
      t := data[w].t;
    }

    method AddNode(w: nat, t: PrefixTreeF)
      requires Valid() && w < |data| && w in trees && data[w].f == os && data[w].pos == srcOffsets[w]
      requires t.Local({}) && t.tree == trees[w] && t.f == os && t.startPos == data[w].pos && t !in all
      requires t.tree.Node? && Stored(os.cells, t.startPos, t.tree)
      modifies this`data, this`all
      ensures Valid() && all == old(all) + {t} && data == old(data)[w := old(data[w]).(t := t)]
    {
      hide Table, Stored, TreeAt;
      RootOf(w);
      forall n | n in all ensures n.Local(all + {t}) {
        forall i | 0 <= i < |n.ptr| ensures n.LinkOf(i, all + {t}) { assert n.LinkOf(i, all); }
      }
      forall i | 0 <= i < |t.ptr| ensures t.LinkOf(i, all + {t}) { assert t.LinkOf(i, {}); }
      data := data[w := data[w].(t := t)];
      all := all + {t};
      forall i | 0 <= i < |data| ensures RootLink(i) {
        assert old(RootLink(i));
      }
    }

    /** RootLink with respect to the nodes of an earlier time. */
    ghost predicate LinksTo(before: set<PrefixTreeF>)
      reads this`data, before`tree, before`f, before`startPos
    {
      && |data| == |srcOffsets|
      && forall w :: 0 <= w < |data| ==>
           data[w].f == os && data[w].pos == srcOffsets[w]
           && (data[w].t != null ==> w in trees && data[w].t in before && data[w].t.tree == trees[w])
    }

    /** After nodes have been loaded the table is as it was. */
    lemma StillLinked(before: set<PrefixTreeF>)
      requires Holding() && Sound(all) && Backed(all, os) && LinksTo(before) && before <= all
      ensures Valid()
    {
    }

    lemma NodesStored()
      requires Valid()
      ensures Holding() && LinksTo(all) && Sound(all) && Backed(all, os)
      ensures forall n :: n in all ==> n.f == os && n.tree.Node? && Wf(n.tree) && Stored(os.cells, n.startPos, n.tree)
    {
      hide Holding;
      forall w | 0 <= w < |data|
        ensures data[w].f == os && data[w].pos == srcOffsets[w]
        ensures data[w].t != null ==> w in trees && data[w].t in all && data[w].t.tree == trees[w]
      {
        assert RootLink(w);
      }
      forall n | n in all ensures Wf(n.tree) { assert n.Local(all); }
    }

    /** find in the tree below root. */
    method FindIn(root: PrefixTreeF, f: seq<nat>) returns (o: int)
      requires Valid() && root in all && f != []
      modifies this`all, all`ptr, os`pos
      ensures Valid() && o == Find(root.tree, f, NO_OFFSET) && old(all) <= all && fresh(all - old(all))
    {
      hide Holding, Stored, Backed, Sound;
      NodesStored();
      ghost var more;
      o, more := root.Find(f, NO_OFFSET, all);
      all := more;
      StillLinked(old(all));
    }

    lemma AnswerAt(f: seq<nat>)
      requires Valid() && f != []
      ensures NonEmpty(rows) && WellFormed(trees)
      ensures var o, a := Find(TreeOf(trees, f[0]), f, NO_OFFSET), Answer(rows, |rows|, f);
              if o == NO_OFFSET then a == [] else 0 <= o && At(ot.cells, o, Encode(a, usewordalign))
      ensures f[0] !in trees ==> Answer(rows, |rows|, f) == []
    {
      assert Served(TreeOf(trees, f[0]), ot.cells, usewordalign, rows, f);
    }

    lemma CellsFit(o: nat, e: seq<Cell>)
      requires At(ot.cells, o, e) && e != []
      ensures o <= |ot.cells|
    {
    }

    /** The offset that the trees give for f; first words beyond the index or without a tree give none. */
    method OffsetOf(f: seq<nat>) returns (o: int)
      requires Valid() && f != []
      modifies this`data, this`all, all`ptr, os`pos
      ensures Valid() && old(all) <= all && fresh(all - old(all))
      ensures WellFormed(trees) && o == Find(TreeOf(trees, f[0]), f, NO_OFFSET)
    {
      hide Holding, Sound, Backed, Stored, Find, FindPtr;
      AnswerAt(f);
      NoTree(f);
      o := NO_OFFSET;
      if f[0] >= |data| { IndexCovers(f[0]); return; }
      RootOf(f[0]);
      if !data[f[0]].Set() { return; }
      var root := LoadRoot(f[0]);
      o := FindIn(root, f);
    }

    lemma NoTree(f: seq<nat>)
      requires f != []
      ensures Find(Nil, f, NO_OFFSET) == NO_OFFSET
    {
    }

    lemma IndexCovers(w: nat)
      requires Valid() && w >= |data|
      ensures w !in trees
    {
      assert w in trees ==> TreeAt(os.cells, srcOffsets, w, trees[w]);
    }

    /** GetTargetCandidates of a phrase in labels: the answer of the rows, or nothing. */
    method ByLabels(f: seq<nat>) returns (tgtCands: seq<TgtCand>)
      requires Valid()
      modifies this`data, this`all, all`ptr, os`pos, ot`pos
      ensures Valid() && old(all) <= all && fresh(all - old(all)) && NonEmpty(rows)
      ensures tgtCands == if f == [] then [] else RereadAll(Answer(rows, |rows|, f), usewordalign)
    {
      hide *;
      HoldsRows();
      tgtCands := [];
      if f == [] { return; }
      AnswerAt(f);
      var o := OffsetOf(f);
      if o == NO_OFFSET { RereadNone(); return; }
      CellsFit(o, Encode(Answer(rows, |rows|, f), usewordalign));
      ot.Seek(o);
      tgtCands := ReadCands(ot, usewordalign, Answer(rows, |rows|, f));
    }

    lemma HoldsRows()
      requires Valid()
      ensures NonEmpty(rows)
    {
    }

    lemma RereadNone()
      ensures RereadAll([], usewordalign) == []
    {
    }

    // -------------------------------------------------------------- phrases in words

    /** What the table answers for a phrase in words. */
    ghost function Answers(src: seq<string>): seq<StringCand>
      requires Holding()
      reads os`cells, ot`cells
    {
      if src == [] then [] else RereadAllWords(Answer(ws, |ws|, src), usewordalign)
    }

    /** All words of the candidate are in the target vocabulary. */
    ghost predicate InVoc(t: TgtCand) {
      forall j :: 0 <= j < |t.e| ==> t.e[j] < |tv.data|
    }

    /** ConvertTgtCand */
    method ConvertTgtCand(tcands: seq<TgtCand>) returns (rv: seq<StringCand>)
      requires forall i :: 0 <= i < |tcands| ==> InVoc(tcands[i])
      ensures |rv| == |tcands| && forall i :: 0 <= i < |rv| ==> rv[i] == Spelled(tv, tcands[i])
    {
      rv := [];
      for i := 0 to |tcands|
        invariant |rv| == i && forall k :: 0 <= k < i ==> rv[k] == Spelled(tv, tcands[k])
      {
        var vs: seq<string> := [];
        for j := 0 to |tcands[i].e|
          invariant vs == Spelled(tv, tcands[i]).words[..j]
        {
          vs := vs + [tv.data[tcands[i].e[j]]];
        }
        assert vs == Spelled(tv, tcands[i]).words;
        rv := rv + [StringCand(vs, tcands[i].sc, tcands[i].sourceAlignment, tcands[i].targetAlignment)];
      }
    }

    /** The labels of a phrase; unknown if a word has none. */
    method LabelsOf(src: seq<string>) returns (known: bool, f: seq<nat>)
      ensures known ==> Labels(sv, src, f)
      ensures !known ==> exists w :: w in src && w !in sv.m
      requires forall w :: w in sv.m ==> sv.m[w] < INVALID_LABEL
    {
      f := [];
      for i := 0 to |src|
        invariant |f| == i && forall j :: 0 <= j < i ==> src[j] in sv.m && sv.m[src[j]] == f[j]
      {
        var id := sv.Index(src[i]);
        if id == INVALID_LABEL { return false, []; }
        f := f + [id];
      }
      known := true;
    }

    lemma SourceKnown(i: nat)
      requires Holding() && i < |ws|
      ensures forall w :: w in ws[i].f ==> w in sv.m
    {
      assert RowLabels(sv, tv, ws[i], rows[i]);
    }

    lemma RowInVoc(i: nat)
      requires Holding() && i < |rows|
      ensures InVoc(rows[i].cand)
    {
      assert RowLabels(sv, tv, ws[i], rows[i]);
      forall j | 0 <= j < |rows[i].cand.e| ensures rows[i].cand.e[j] < |tv.data| {
        assert ws[i].cand.words[j] in tv.m;
      }
    }

    lemma {:induction false} AnswerInVoc(f: seq<nat>, n: nat)
      requires NonEmpty(rows) && f != [] && n <= |rows| && forall i :: 0 <= i < |rows| ==> InVoc(rows[i].cand)
      ensures forall i :: 0 <= i < |Answer(rows, n, f)| ==> InVoc(Answer(rows, n, f)[i])
    {
      hide InVoc;
      if n > 0 { AnswerInVoc(f, n - 1); }
    }

    /** The converted candidates are the answer in words. */
    lemma ConvertedAnswer(src: seq<string>, f: seq<nat>, rv: seq<StringCand>)
      requires Holding() && src != [] && Labels(sv, src, f)
      requires var a := RereadAll(Answer(rows, |rows|, f), usewordalign);
               |rv| == |a| && forall i :: 0 <= i < |rv| ==> rv[i] == Spelled(tv, a[i])
      ensures rv == Answers(src)
    {
      AnswersAgree(sv, tv, ws, rows, |rows|, src, f);
      var a, b := Answer(rows, |rows|, f), Answer(ws, |ws|, src);
      forall i | 0 <= i < |rv| ensures rv[i] == RereadWords(b[i], usewordalign) {
        assert Spelled(tv, Reread(a[i], usewordalign)) == RereadWords(Spelled(tv, a[i]), usewordalign);
      }
    }

    /** GetTargetCandidates: exactly the candidates that the table holds for the phrase, in order. */
    method GetTargetCandidates(src: seq<string>) returns (rv: seq<StringCand>)
      requires Valid() && forall w :: w in sv.m ==> sv.m[w] < INVALID_LABEL
      modifies this`data, this`all, all`ptr, os`pos, ot`pos
      ensures Valid() && old(all) <= all && fresh(all - old(all)) && rv == Answers(src)
    {
      hide *;
      var known, f := LabelsOf(src);
      ValidHolds();
      if !known {
        ghost var w :| w in src && w !in sv.m;
        UnknownIsEmpty(src, w);
        return [];
      }
      var cands := ByLabels(f);
      SpellsKnown(src, f, cands);
      rv := ConvertTgtCand(cands);
      ConvertedIsAnswer(src, f, cands, rv);
    }

    lemma ValidHolds()
      requires Valid()
      ensures Holding()
    {
    }

    lemma UnknownIsEmpty(src: seq<string>, w: string)
      requires Holding() && w in src && w !in sv.m
      ensures Answers(src) == []
    {
      forall i | 0 <= i < |ws| ensures w !in ws[i].f { SourceKnown(i); }
      NoneWith(ws, |ws|, src, w);
    }

    lemma SpellsKnown(src: seq<string>, f: seq<nat>, cands: seq<TgtCand>)
      requires Holding() && Labels(sv, src, f) && NonEmpty(rows)
      requires cands == if f == [] then [] else RereadAll(Answer(rows, |rows|, f), usewordalign)
      ensures forall i :: 0 <= i < |cands| ==> InVoc(cands[i])
    {
      forall i | 0 <= i < |rows| ensures InVoc(rows[i].cand) { RowInVoc(i); }
      if f != [] { AnswerInVoc(f, |rows|); }
    }

    lemma ConvertedIsAnswer(src: seq<string>, f: seq<nat>, cands: seq<TgtCand>, rv: seq<StringCand>)
      requires Holding() && Labels(sv, src, f) && NonEmpty(rows)
      requires cands == if f == [] then [] else RereadAll(Answer(rows, |rows|, f), usewordalign)
      requires |rv| == |cands| && forall i :: 0 <= i < |rv| ==> rv[i] == Spelled(tv, cands[i])
      ensures rv == Answers(src)
    {
      if f != [] { ConvertedAnswer(src, f, rv); }
    }

    /** FreeMemory: all loaded trees are forgotten, the answers stay. */
    method FreeMemory()
      requires Valid()
      modifies this`data, this`all
      ensures Valid() && all == {}
    {
      var freed: seq<FilePtr> := [];
      for i := 0 to |data|
        invariant |freed| == i && forall j :: 0 <= j < i ==> freed[j] == data[j].(t := null)
      {
        freed := freed + [data[i].(t := null)];
      }
      data, all := freed, {};
      forall w | 0 <= w < |data| ensures RootLink(w) { assert old(RootLink(w)); }
    }

    // -------------------------------------------------------------- walking word by word

    /** Pointer p is where the labels s lead. */
    ghost predicate StandsFor(p: PPtr, s: seq<nat>)
      requires WellFormed(trees)
      reads this`all, all`tree
    {
      match p
      case NoPtr => false
      case Root => s == []
      case Position(node, idx) =>
        && s != [] && s[0] in trees && node in all && node.tree == SubTrie(trees[s[0]], s[..|s| - 1])
        && node.tree.Node? && Wf(node.tree) && idx == Tries.FindKey(node.tree, s[|s| - 1])
    }

    /** The pointer is valid exactly when its labels have an entry. */
    lemma ValidByEntry(p: PPtr, s: seq<nat>)
      requires Valid() && WellFormed(trees) && StandsFor(p, s) && s != []
      ensures p.Position? && (IsValid(p) <==> FindPtr(TreeOf(trees, s[0]), s).Some?)
      ensures IsValid(p) ==> FindPtr(TreeOf(trees, s[0]), s) == Some(p.node.data[p.idx])
    {
      hide Holding, Stored, Backed;
      assert p.node.Local(all);
      assert s == s[..|s| - 1] + [s[|s| - 1]];
      FindBySubTrie(trees[s[0]], s[..|s| - 1], s[|s| - 1]);
    }

    /** GetTargetCandidates at a pointer: the same as for the whole phrase. */
    method ByPtr(p: PPtr, ghost s: seq<nat>) returns (tgtCands: seq<TgtCand>)
      requires Valid() && WellFormed(trees) && StandsFor(p, s) && IsValid(p)
      modifies ot`pos
      ensures Valid() && NonEmpty(rows)
      ensures tgtCands == if s == [] then [] else RereadAll(Answer(rows, |rows|, s), usewordalign)
    {
      hide *;
      HoldsRows();
      match p {
        case Root =>
          RootIsEmpty(p, s);
          tgtCands := [];
        case Position(node, idx) =>
          ItemOffset(p, s);
          var o := node.data[idx];
          if o == NO_OFFSET { RereadNone(); return []; }
          CellsFit(o, Encode(Answer(rows, |rows|, s), usewordalign));
          ot.Seek(o);
          tgtCands := ReadCands(ot, usewordalign, Answer(rows, |rows|, s));
        case NoPtr =>
          NoPtrStandsForNothing(s);
      }
    }

    lemma RootIsEmpty(p: PPtr, s: seq<nat>)
      requires WellFormed(trees) && StandsFor(p, s) && p.Root?
      ensures s == []
    {
    }

    lemma NoPtrStandsForNothing(s: seq<nat>)
      requires WellFormed(trees)
      ensures !StandsFor(NoPtr, s)
    {
    }

    lemma ItemOffset(p: PPtr, s: seq<nat>)
      requires Valid() && WellFormed(trees) && StandsFor(p, s) && IsValid(p) && p.Position?
      ensures s != [] && NonEmpty(rows) && p.idx < |p.node.data|
      ensures var o, a := p.node.data[p.idx], Answer(rows, |rows|, s);
              if o == NO_OFFSET then a == [] else 0 <= o && TargetData.At(ot.cells, o, Encode(a, usewordalign))
    {
      assert p.node.Local(all);
      ValidByEntry(p, s);
      AnswerAt(s);
    }

    /** The step from the root. */
    method ExtendRoot(wi: nat) returns (r: PPtr)
      requires Valid() && WellFormed(trees)
      modifies this`data, this`all, os`pos
      ensures Valid() && old(all) <= all && fresh(all - old(all))
      ensures if wi in trees then StandsFor(r, [wi]) && IsValid(r) else r == NoPtr
    {
      hide Holding, Stored, Backed;
      if wi >= |data| { IndexCovers(wi); return NoPtr; }
      RootOf(wi);
      if !data[wi].Set() { return NoPtr; }
      var root := LoadRoot(wi);
      assert root.Local(all);
      var idx := root.FindKey(wi);
      r := Position(root, idx);
    }

    /** The step from an item to one of the next node. */
    method ExtendItem(node: PrefixTreeF, idx: nat, wi: nat, ghost s: seq<nat>) returns (r: PPtr)
      requires Valid() && WellFormed(trees) && StandsFor(Position(node, idx), s) && IsValid(Position(node, idx))
      modifies this`all, all`ptr, os`pos
      ensures Valid() && old(all) <= all && fresh(all - old(all))
      ensures r == NoPtr || StandsFor(r, s + [wi])
      ensures r == NoPtr ==> FindPtr(TreeOf(trees, s[0]), s + [wi]) == None
    {
      hide *;
      NodesStored();
      Below(node, idx, s, wi);
      ghost var more;
      var t;
      t, more := node.Load(idx, all);
      all := more;
      StillLinked(old(all));
      if t == null { return NoPtr; }
      KeysAre(t);
      var next := t.FindKey(wi);
      r := Position(t, next);
      StandsBelow(t, next, s, wi);
    }

    /** The child at a valid position is where the next word is looked up. */
    lemma Below(node: PrefixTreeF, idx: nat, s: seq<nat>, wi: nat)
      requires Valid() && WellFormed(trees) && StandsFor(Position(node, idx), s) && IsValid(Position(node, idx))
      ensures node in all && node.f == os && Stored(node.f.cells, node.startPos, node.tree) && idx < |node.ptr| == |node.tree.kids|
      ensures s != [] && SubTrie(TreeOf(trees, s[0]), s) == node.tree.kids[idx]
      ensures s[0] in trees && (node.tree.kids[idx].Nil? ==> FindPtr(TreeOf(trees, s[0]), s + [wi]) == None)
    {
      hide Holding, Stored, Sound, Backed, SubTrie, FindPtr, Wf, PDTimp.Valid, LinksTo;
      NodesStored();
      KeysAre(node);
      KidOfItem(trees[s[0]], s, idx, wi);
    }

    lemma StandsBelow(t: PrefixTreeF, next: nat, s: seq<nat>, wi: nat)
      requires WellFormed(trees) && s != [] && s[0] in trees && t in all && t.tree.Node? && Wf(t.tree)
      requires t.tree == SubTrie(TreeOf(trees, s[0]), s) && next == Tries.FindKey(t.tree, wi)
      ensures StandsFor(Position(t, next), s + [wi])
    {
      assert (s + [wi])[..|s|] == s;
    }

    lemma KeysAre(n: PrefixTreeF)
      requires Sound(all) && n in all
      ensures n.tree.Node? && Wf(n.tree) && n.keys == n.tree.keys && |n.ptr| == |n.tree.kids| == |n.keys|
    {
      assert n.Local(all);
    }

    /** Extend: an empty word or the empty symbol stays; an unknown word or a missing child leads nowhere;
        otherwise the pointer leads where the labels with the new one lead. */
    method Extend(p: PPtr, w: string, ghost s: seq<nat>) returns (r: PPtr)
      requires Valid() && WellFormed(trees) && StandsFor(p, s) && IsValid(p)
      requires forall k :: k in sv.m ==> sv.m[k] < INVALID_LABEL
      modifies this`data, this`all, all`ptr, os`pos
      ensures Valid() && old(all) <= all && fresh(all - old(all))
      ensures if w == "" || w == EPSILON then r == p
              else if w !in sv.m then r == NoPtr
              else r == NoPtr || StandsFor(r, s + [sv.m[w]])
      ensures w != "" && w != EPSILON && w in sv.m ==>
                (IsValid(r) <==> FindPtr(TreeOf(trees, (s + [sv.m[w]])[0]), s + [sv.m[w]]).Some?)
    {
      if w == "" || w == EPSILON { return p; }
      r := ExtendWord(p, w, s);
    }

    method ExtendWord(p: PPtr, w: string, ghost s: seq<nat>) returns (r: PPtr)
      requires Valid() && WellFormed(trees) && StandsFor(p, s) && IsValid(p)
      requires forall k :: k in sv.m ==> sv.m[k] < INVALID_LABEL
      modifies this`data, this`all, all`ptr, os`pos
      ensures Valid() && old(all) <= all && fresh(all - old(all))
      ensures if w !in sv.m then r == NoPtr else r == NoPtr || StandsFor(r, s + [sv.m[w]])
      ensures w in sv.m ==> (IsValid(r) <==> FindPtr(TreeOf(trees, (s + [sv.m[w]])[0]), s + [sv.m[w]]).Some?)
    {
      hide *;
      var wi := sv.Index(w);
      IndexOf(w);
      if wi == INVALID_LABEL { return NoPtr; }
      match p {
        case Root =>
          RootIsEmpty(p, s);
          r := ExtendRoot(wi);
          RootEntry(r, wi);
          assert s + [wi] == [wi];
        case Position(node, idx) =>
          ItemIsBelow(node, idx, s);
          r := ExtendItem(node, idx, wi, s);
          StepEntry(node, idx, s, r, wi);
        case NoPtr =>
          NoPtrStandsForNothing(s);
      }
    }

    lemma IndexOf(w: string)
      requires forall k :: k in sv.m ==> sv.m[k] < INVALID_LABEL
      ensures sv.Index(w) == INVALID_LABEL <==> w !in sv.m
      ensures w in sv.m ==> sv.Index(w) == sv.m[w]
    {
    }

    lemma RootEntry(r: PPtr, wi: nat)
      requires Valid() && WellFormed(trees) && (if wi in trees then StandsFor(r, [wi]) && IsValid(r) else r == NoPtr)
      ensures IsValid(r) <==> FindPtr(TreeOf(trees, wi), [wi]).Some?
    {
      if wi in trees { ValidByEntry(r, [wi]); }
    }

    lemma ItemIsBelow(node: PrefixTreeF, idx: nat, s: seq<nat>)
      requires WellFormed(trees) && StandsFor(Position(node, idx), s)
      ensures s != []
    {}

    lemma StepEntry(node: PrefixTreeF, idx: nat, s: seq<nat>, r: PPtr, wi: nat)
      requires Valid() && WellFormed(trees) && s != []
      requires r == NoPtr || StandsFor(r, s + [wi])
      requires r == NoPtr ==> FindPtr(TreeOf(trees, s[0]), s + [wi]) == None
      ensures IsValid(r) <==> FindPtr(TreeOf(trees, (s + [wi])[0]), s + [wi]).Some?
    {
      hide FindPtr;
      if r != NoPtr { ValidByEntry(r, s + [wi]); }
    }

    /** Extending word by word and then asking for candidates is the lookup of the whole phrase. */
    method Walk(src: seq<string>) returns (rv: seq<StringCand>)
      requires Valid() && "" !in src && EPSILON !in src && forall k :: k in sv.m ==> sv.m[k] < INVALID_LABEL
      modifies this`data, this`all, all`ptr, os`pos, ot`pos
      ensures Valid() && old(all) <= all && fresh(all - old(all)) && rv == Answers(src)
    {
      hide *;
      Start();
      var p := Root;
      ghost var s: seq<nat> := [];
      for i := 0 to |src|
        invariant Valid() && WellFormed(trees) && old(all) <= all && fresh(all - old(all))
        invariant StandsFor(p, s) && IsValid(p) && Labels(sv, src[..i], s)
      {
        p := Extend(p, src[i], s);
        if !IsValid(p) {
          LostWay(src, i, s);
          return [];
        }
        LabelsStep(src, i, s, p);
        s := s + [sv.m[src[i]]];
      }
      assert src[..|src|] == src;
      ValidHolds();
      var cands := ByPtr(p, s);
      SpellsKnown(src, s, cands);
      rv := ConvertTgtCand(cands);
      ConvertedIsAnswer(src, s, cands, rv);
    }

    lemma Start()
      requires Valid()
      ensures WellFormed(trees) && StandsFor(Root, []) && IsValid(Root) && Labels(sv, [], [])
    {
    }

    lemma LabelsStep(src: seq<string>, i: nat, s: seq<nat>, p: PPtr)
      requires i < |src| && Labels(sv, src[..i], s) && IsValid(p)
      requires if src[i] !in sv.m then p == NoPtr else true
      ensures p != NoPtr && src[i] in sv.m && Labels(sv, src[..i + 1], s + [sv.m[src[i]]])
    {
    }

    /** Once the pointer is invalid the phrase has no answer. */
    lemma LostWay(src: seq<string>, i: nat, s: seq<nat>)
      requires Valid() && WellFormed(trees) && i < |src| && Labels(sv, src[..i], s)
      requires src[i] in sv.m ==> FindPtr(TreeOf(trees, (s + [sv.m[src[i]]])[0]), s + [sv.m[src[i]]]) == None
      ensures Holding() && Answers(src) == []
    {
      if w :| w in src && w !in sv.m {
        UnknownIsEmpty(src, w);
      } else {
        var f := seq(|src|, j requires 0 <= j < |src| => if src[j] in sv.m then sv.m[src[j]] else 0);
        assert Labels(sv, src, f);
        var reached := s + [sv.m[src[i]]];
        assert f == reached + f[i + 1..] by {
          assert forall j :: 0 <= j < i ==> s[j] == f[j];
        }
        MissingStays(TreeOf(trees, f[0]), reached, f[i + 1..]);
        AnswerAt(f);
        ConvertedIsAnswer(src, f, [], []);
      }
    }
  }
}
