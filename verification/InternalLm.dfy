/** The built-in trigram language model (moses/src/LanguageModelInternal.cpp, moses/src/NGramCollection.cpp). */
module InternalLm {
  import opened BackOff

  /** A line of the model file: the n-gram, its score, and its back-off weight if it has one. */
  datatype Line = Line(words: seq<Word>, score: real, backOff: Option)

  class NGramNode {
    var score: real
    var logBackOff: real
    var map_: map<Word, NGramNode>
    var root: NGramNode?
    /** The n-gram that the node stands for. */
    ghost const gram: seq<Word>

    constructor (ghost g: seq<Word>)
      ensures map_ == map[] && root == null && gram == g
    {
      score, logBackOff, map_, root, gram := 0.0, 0.0, map[], null, g;
    }
  }

  /** The nodes of the tree by their n-grams.  The tree is reversed: the child of g by w is that of [w] + g. */
  type Nodes = map<seq<Word>, NGramNode>

  ghost predicate ChildrenOf(children: map<Word, NGramNode>, nodes: Nodes, g: seq<Word>) {
    && (forall w :: w in children ==> [w] + g in nodes && nodes[[w] + g] == children[w])
    && (forall w :: [w] + g in nodes ==> w in children)
  }

  ghost predicate HasRest(nodes: Nodes, g: seq<Word>)
    requires |g| > 1
  {
    g[1..] in nodes
  }

  /** A new node changes the children of its parent only. */
  lemma ChildrenGrow(children: map<Word, NGramNode>, nodes: Nodes, g: seq<Word>, h: seq<Word>, w: Word, n: NGramNode)
    requires ChildrenOf(children, nodes, g) && [w] + h !in nodes
    ensures ChildrenOf(if g == h then children[w := n] else children, nodes[[w] + h := n], g)
  {
    forall x | [x] + g == [w] + h ensures x == w && g == h {
      assert ([x] + g)[0] == x && ([w] + h)[0] == w && ([x] + g)[1..] == g && ([w] + h)[1..] == h;
    }
  }

  /** g is an entry or a suffix of one. */
  ghost predicate TailOf(t: Table, g: seq<Word>) {
    exists k :: k in t && |g| <= |k| && k[|k| - |g|..] == g
  }

  /** All nodes are those of entries and of their suffixes. */
  ghost predicate Covers(nodes: Nodes, t: Table) {
    forall g :: g in nodes ==> TailOf(t, g)
  }

  function WithLine(t: Table, line: Line): Table {
    t[line.words := Entry(line.score, if line.backOff.Some? then line.backOff.value else 0.0)]
  }

  lemma WithLineIs(t: Table, line: Line)
    ensures var t' := WithLine(t, line);
            && line.words in t' && t'[line.words].score == line.score
            && t'[line.words].backOff == (if line.backOff.Some? then line.backOff.value else 0.0)
            && (forall g :: g in t' <==> g in t || g == line.words)
            && (forall g :: g in t && g != line.words ==> t'[g] == t[g])
  {
  }

  /** The entries of the first n lines; a repeated n-gram has the entry of its last line. */
  function TableOf(lines: seq<Line>, n: nat): Table
    requires n <= |lines|
  {
    if n == 0 then map[] else WithLine(TableOf(lines, n - 1), lines[n - 1])
  }

  /** Every n-gram comes after, or is, the unigram of its first word. */
  ghost predicate UnigramsFirst(lines: seq<Line>) {
    forall i :: 0 <= i < |lines| ==> lines[i].words != [] && [lines[i].words[0]] in TableOf(lines, i + 1)
  }

  lemma UnigramKnown(lines: seq<Line>, i: nat)
    requires UnigramsFirst(lines) && i < |lines|
    ensures lines[i].words != [] && TableOf(lines, i + 1) == WithLine(TableOf(lines, i), lines[i])
    ensures [lines[i].words[0]] in TableOf(lines, i) || lines[i].words == [lines[i].words[0]]
  {
    WithLineIs(TableOf(lines, i), lines[i]);
  }

  lemma TailStays(t: Table, line: Line, g: seq<Word>)
    requires TailOf(t, g) || (|g| <= |line.words| && line.words[|line.words| - |g|..] == g)
    ensures TailOf(WithLine(t, line), g)
  {
    WithLineIs(t, line);
    hide WithLine;
    if TailOf(t, g) {
      var k :| k in t && |g| <= |k| && k[|k| - |g|..] == g;
      assert k in WithLine(t, line);
    } else {
      assert line.words in WithLine(t, line);
    }
  }

  lemma {:induction false} SuffixIsEntry(t: Table, k: seq<Word>, n: nat)
    requires Closed(t) && k in t && n < |k|
    ensures k[n..] in t
  {
    if n == 0 {
      assert k[0..] == k;
    } else {
      SuffixIsEntry(t, k, n - 1);
      assert SuffixIn(t, k[n - 1..]);
      assert k[n - 1..][1..] == k[n..];
    }
  }

  /** A suffix is determined by its length. */
  lemma SuffixesOf(words: seq<Word>, i: nat)
    requires i < |words|
    ensures |words[i..]| == |words| - i && words[|words| - |words[i..]|..] == words[i..]
  {
  }

  /** The new nodes are those of the suffixes from word i on, or later. */
  ghost predicate OnlySuffixes(before: Nodes, now: Nodes, words: seq<Word>, i: nat)
    requires i <= |words|
  {
    && (forall g :: g in before ==> g in now && now[g] == before[g])
    && (forall g :: g in now ==> g in before || (|g| <= |words| - i && words[|words| - |g|..] == g))
  }

  lemma NoSuffixes(nodes: Nodes, words: seq<Word>)
    ensures OnlySuffixes(nodes, nodes, words, |words|)
  {}

  lemma OneMoreSuffix(before: Nodes, now: Nodes, next: Nodes, words: seq<Word>, i: nat)
    requires i < |words| && OnlySuffixes(before, now, words, i + 1)
    requires words[i..] in next && next == now[words[i..] := next[words[i..]]] && (words[i..] in now ==> next == now)
    ensures OnlySuffixes(before, next, words, i)
  {
    SuffixesOf(words, i);
  }

  lemma SuffixesAre(before: Nodes, now: Nodes, words: seq<Word>)
    requires OnlySuffixes(before, now, words, 0)
    ensures forall g :: g in before ==> g in now && now[g] == before[g]
    ensures forall g :: g in now ==> g in before || (|g| <= |words| && words[|words| - |g|..] == g)
  {}

  class LanguageModelInternal {
    var map_: map<Word, NGramNode>
    var lmIdLookup: map<Word, NGramNode?>
    ghost var nodes: Nodes
    ghost var all: set<NGramNode>

    ghost predicate Valid()
      reads this`map_, this`nodes, this`all, all`map_
    {
      && [] !in nodes && ChildrenOf(map_, nodes, [])
      && (forall g :: g in nodes ==> nodes[g] in all && nodes[g].gram == g && ChildrenOf(nodes[g].map_, nodes, g))
      && (forall n :: n in all ==> n.gram in nodes && nodes[n.gram] == n)
      && (forall g {:trigger HasRest(nodes, g)} :: g in nodes && |g| > 1 ==> HasRest(nodes, g))
    }

    constructor ()
      ensures Valid() && nodes == map[] && map_ == map[] && lmIdLookup == map[]
    {
      map_, lmIdLookup, nodes, all := map[], map[], map[], {};
    }

    /** A new node has no children: there is none for a longer n-gram that ends in its own. */
    lemma NoChildren(key: seq<Word>, n: NGramNode)
      requires Valid() && key != [] && key !in nodes
      ensures ChildrenOf(map[], nodes[key := n], key)
    {
      forall x ensures [x] + key !in nodes[key := n] {
        assert ([x] + key)[1..] == key && |[x] + key| == |key| + 1;
        assert [x] + key in nodes ==> HasRest(nodes, [x] + key);
      }
    }

    lemma RestsGrow(g: seq<Word>, w: Word, n: NGramNode)
      requires Valid() && (g == [] || g in nodes)
      ensures forall h {:trigger HasRest(nodes[[w] + g := n], h)} :: h in nodes[[w] + g := n] && |h| > 1 ==> HasRest(nodes[[w] + g := n], h)
    {
      forall h | h in nodes[[w] + g := n] && |h| > 1 ensures HasRest(nodes[[w] + g := n], h) {
        assert h in nodes ==> HasRest(nodes, h);
        assert ([w] + g)[1..] == g;
      }
    }

    /** A new node at the top; g is the empty n-gram. */
    method AddTop(ghost g: seq<Word>, w: Word) returns (n: NGramNode)
      requires Valid() && g == [] && [w] + g !in nodes
      modifies this`map_, this`nodes, this`all
      ensures Valid() && fresh(n) && all == old(all) + {n} && nodes == old(nodes)[[w] + g := n]
    {
      hide ChildrenOf, HasRest;
      ghost var key := [w] + g;
      n := new NGramNode(key);
      NoChildren(key, n);
      forall h | h in nodes ensures ChildrenOf(nodes[h].map_, nodes[key := n], h) {
        ChildrenGrow(nodes[h].map_, nodes, h, g, w, n);
      }
      ChildrenGrow(map_, nodes, g, g, w, n);
      RestsGrow(g, w, n);
      map_ := map_[w := n];
      nodes, all := nodes[key := n], all + {n};
    }

    /** A new node below that of g. */
    method AddBelow(ghost g: seq<Word>, at: NGramNode, w: Word) returns (n: NGramNode)
      requires Valid() && [w] + g !in nodes && g in nodes && nodes[g] == at
      modifies this`nodes, this`all, at`map_
      ensures Valid() && fresh(n) && all == old(all) + {n} && nodes == old(nodes)[[w] + g := n]
    {
      hide ChildrenOf, HasRest;
      ghost var key := [w] + g;
      n := new NGramNode(key);
      NoChildren(key, n);
      forall h | h in nodes ensures ChildrenOf(if h == g then nodes[h].map_[w := n] else nodes[h].map_, nodes[key := n], h) {
        ChildrenGrow(nodes[h].map_, nodes, h, g, w, n);
      }
      ChildrenGrow(map_, nodes, [], g, w, n);
      RestsGrow(g, w, n);
      at.map_ := at.map_[w := n];
      ghost var before := nodes;
      nodes, all := nodes[key := n], all + {n};
      forall h | h in nodes ensures ChildrenOf(nodes[h].map_, nodes, h) {
        assert h in before ==> (before[h] == at <==> h == g);
      }
    }

    lemma ChildOf(g: seq<Word>, at: NGramNode?, w: Word)
      requires Valid() && if g == [] then at == null else at != null && g in nodes && nodes[g] == at
      ensures var children := if at == null then map_ else at.map_;
              (w in children <==> [w] + g in nodes) && (w in children ==> children[w] == nodes[[w] + g])
      ensures [w] + g in nodes ==> nodes[[w] + g := nodes[[w] + g]] == nodes && nodes[[w] + g] in all
      ensures at != null ==> at in all
    {
    }

    /** NGramCollection::GetOrCreateNGram below the node of g, or at the top for the empty n-gram. */
    method GetOrCreate(ghost g: seq<Word>, at: NGramNode?, w: Word) returns (n: NGramNode)
      requires Valid() && if g == [] then at == null else at != null && g in nodes && nodes[g] == at
      modifies this`map_, this`nodes, this`all, all`map_
      ensures Valid() && [w] + g in nodes && nodes[[w] + g] == n && n in all && old(all) <= all && fresh(all - old(all))
      ensures nodes == old(nodes)[[w] + g := n] && ([w] + g in old(nodes) ==> nodes == old(nodes))
    {
      hide *;
      ChildOf(g, at, w);
      if at == null {
        if w in map_ { return map_[w]; }
        n := AddTop(g, w);
      } else {
        if w in at.map_ { return at.map_[w]; }
        n := AddBelow(g, at, w);
      }
    }

    /** The path of an n-gram, from its last word to its first. */
    method AddPath(words: seq<Word>) returns (n: NGramNode)
      requires Valid() && words != []
      modifies this`map_, this`nodes, this`all, all`map_
      ensures Valid() && words in nodes && nodes[words] == n && n in all && old(all) <= all && fresh(all - old(all))
      ensures forall g :: g in old(nodes) ==> g in nodes && nodes[g] == old(nodes)[g]
      ensures forall g :: g in nodes ==> g in old(nodes) || (|g| <= |words| && words[|words| - |g|..] == g)
    {
      hide Valid, OnlySuffixes;
      var at: NGramNode? := null;
      var i := |words|;
      NoSuffixes(nodes, words);
      while i > 0
        invariant 0 <= i <= |words| && Valid() && old(all) <= all && fresh(all - old(all))
        invariant if i == |words| then at == null else words[i..] in nodes && nodes[words[i..]] == at && at in all
        invariant OnlySuffixes(old(nodes), nodes, words, i)
      {
        assert words[i - 1..] == [words[i - 1]] + words[i..];
        ghost var before := nodes;
        at := GetOrCreate(words[i..], at, words[i - 1]);
        OneMoreSuffix(old(nodes), before, nodes, words, i - 1);
        i := i - 1;
      }
      assert words[0..] == words;
      SuffixesAre(old(nodes), nodes, words);
      n := at;
    }

    /** The nodes carry the entries of t. */
    ghost predicate Carries(t: Table)
      reads this`nodes, this`all, all`score, all`logBackOff, all`root
    {
      forall g :: g in t ==> NodeCarries(t, g)
    }

    /** Exactly the words with a unigram can be looked up. */
    ghost predicate LooksUp(t: Table)
      reads this`lmIdLookup, this`nodes
    {
      && (forall w :: w in lmIdLookup ==> [w] in t && [w] in nodes && lmIdLookup[w] == nodes[[w]])
      && (forall w :: [w] in t ==> w in lmIdLookup)
    }

    ghost predicate NodeCarries(t: Table, g: seq<Word>)
      requires g in t
      reads this`nodes, this`all, all`score, all`logBackOff, all`root
    {
      && g != [] && g in nodes && nodes[g] in all && nodes[g].score == t[g].score && nodes[g].logBackOff == t[g].backOff
      && [g[0]] in nodes && nodes[g].root == nodes[[g[0]]]
    }

    lemma Grams()
      requires Valid()
      ensures forall g :: g in nodes ==> nodes[g].gram == g
    {
    }

    /** The fields of the node that a line sets. */
    method SetNode(nGram: NGramNode, line: Line, rootNGram: NGramNode, ghost t: Table)
      requires Valid() && Carries(t) && line.words != [] && line.words in nodes && nodes[line.words] == nGram && nGram in all
      requires [line.words[0]] in nodes && rootNGram == nodes[[line.words[0]]]
      modifies nGram`root, nGram`score, nGram`logBackOff
      ensures Carries(WithLine(t, line))
    {
      hide Valid, WithLine;
      Grams();
      WithLineIs(t, line);
      nGram.root := rootNGram;
      nGram.score := line.score;
      nGram.logBackOff := if line.backOff.Some? then line.backOff.value else 0.0;
      forall g | g in t && g != line.words ensures NodeCarries(WithLine(t, line), g) {
        assert old(NodeCarries(t, g));
      }
    }

    method SetLookup(line: Line, rootNGram: NGramNode, ghost t: Table)
      requires LooksUp(t) && line.words != [] && [line.words[0]] in nodes && rootNGram == nodes[[line.words[0]]]
      requires [line.words[0]] in t || line.words == [line.words[0]]
      modifies this`lmIdLookup
      ensures LooksUp(WithLine(t, line))
    {
      lmIdLookup := lmIdLookup[line.words[0] := rootNGram];
      forall w | [w] in WithLine(t, line) ensures w in lmIdLookup {
        assert [w] == line.words ==> w == line.words[0];
      }
    }

    /** The path of a line, which does not disturb the entries. */
    method AddEntry(line: Line, ghost t: Table) returns (nGram: NGramNode)
      requires Valid() && Carries(t) && LooksUp(t) && Covers(nodes, t) && line.words != []
      requires [line.words[0]] in t || line.words == [line.words[0]]
      modifies this`map_, this`nodes, this`all, all`map_
      ensures Valid() && Carries(t) && LooksUp(t) && Covers(nodes, WithLine(t, line))
      ensures line.words in nodes && nodes[line.words] == nGram && nGram in all && [line.words[0]] in nodes
      ensures old(all) <= all && fresh(all - old(all))
    {
      hide Valid, Covers, TailOf, WithLine;
      assert [line.words[0]] in t ==> NodeCarries(t, [line.words[0]]);
      nGram := AddPath(line.words);
      CoversMore(old(nodes), t, line);
      forall g | g in t ensures NodeCarries(t, g) { assert old(NodeCarries(t, g)); }
    }

    /** One line of the file; the unigram of its first word is there, at the latest by the line itself. */
    method LoadLine(line: Line, ghost t: Table)
      requires Valid() && Carries(t) && LooksUp(t) && Covers(nodes, t) && line.words != []
      requires [line.words[0]] in t || line.words == [line.words[0]]
      modifies this, all
      ensures Valid() && old(all) <= all && fresh(all - old(all))
      ensures var t' := WithLine(t, line); Carries(t') && LooksUp(t') && Covers(nodes, t')
    {
      hide Valid, Covers, TailOf, WithLine, Carries, LooksUp;
      var nGram := AddEntry(line, t);
      ChildOf([], null, line.words[0]);
      assert [line.words[0]] + [] == [line.words[0]];
      SetNode(nGram, line, map_[line.words[0]], t);
      SetLookup(line, map_[line.words[0]], t);
    }

    lemma CoversMore(before: Nodes, t: Table, line: Line)
      requires Covers(before, t)
      requires forall g :: g in nodes ==> g in before || (|g| <= |line.words| && line.words[|line.words| - |g|..] == g)
      ensures Covers(nodes, WithLine(t, line))
    {
      hide TailOf, WithLine;
      forall g | g in nodes ensures TailOf(WithLine(t, line), g) {
        TailStays(t, line, g);
      }
    }

    /** The model holds t: all entries, nothing else, and the unigrams for lookup. */
    ghost predicate Holds(t: Table)
      reads this, all
    {
      Valid() && Carries(t) && LooksUp(t) && Covers(nodes, t)
    }

    /** Load, for a file in which the unigrams come first. */
    method Load(lines: seq<Line>)
      requires Valid() && nodes == map[] && lmIdLookup == map[] && UnigramsFirst(lines)
      modifies this, all
      ensures Holds(TableOf(lines, |lines|)) && old(all) <= all && fresh(all - old(all))
    {
      hide *;
      NothingHeld(lines);
      for i := 0 to |lines|
        invariant Holds(TableOf(lines, i)) && old(all) <= all && fresh(all - old(all))
      {
        UnigramKnown(lines, i);
        HoldsParts(TableOf(lines, i));
        LoadLine(lines[i], TableOf(lines, i));
        HoldsAll(TableOf(lines, i + 1));
      }
    }

    lemma NothingHeld(lines: seq<Line>)
      requires Valid() && nodes == map[] && lmIdLookup == map[]
      ensures Holds(TableOf(lines, 0))
    {
    }

    lemma HoldsParts(t: Table)
      requires Holds(t)
      ensures Valid() && Carries(t) && LooksUp(t) && Covers(nodes, t)
    {
    }

    lemma HoldsAll(t: Table)
      requires Valid() && Carries(t) && LooksUp(t) && Covers(nodes, t)
      ensures Holds(t)
    {
    }

    // -------------------------------------------------------------- GetValue

    /** Everything a lookup needs to know of one node. */
    ghost predicate NodeOf(t: Table, n: NGramNode)
      reads this`all, all`map_, all`root, n
    {
      && n in all && n.gram in t && n.score == t[n.gram].score && n.logBackOff == t[n.gram].backOff
      && (forall w {:trigger w in n.map_} :: w in n.map_ <==> [w] + n.gram in t)
      && (forall w :: w in n.map_ ==> n.map_[w] in all && n.map_[w].gram == [w] + n.gram)
      && (|n.gram| > 1 ==> n.root in all && n.root.gram == [n.gram[0]])
    }

    /** Everything a lookup needs to know of the model. */
    ghost predicate Serves(t: Table)
      reads this`all, this`lmIdLookup, all
    {
      && (forall n :: n in all ==> NodeOf(t, n))
      && (forall w {:trigger w in lmIdLookup} :: w in lmIdLookup <==> [w] in t)
      && (forall w :: w in lmIdLookup ==> lmIdLookup[w] in all && lmIdLookup[w].gram == [w])
    }

    /** In a model that is closed under suffixes the nodes are exactly the n-grams. */
    lemma NodesAreEntries(t: Table, g: seq<Word>)
      requires Covers(nodes, t) && Closed(t) && g in nodes && g != []
      ensures g in t
    {
      var k :| k in t && |g| <= |k| && k[|k| - |g|..] == g;
      SuffixIsEntry(t, k, |k| - |g|);
    }

    lemma NodeServes(t: Table, n: NGramNode)
      requires Holds(t) && Closed(t) && n in all
      ensures NodeOf(t, n)
    {
      hide Holds, Closed;
      NodeIsEntry(t, n);
      forall w ensures (w in n.map_ <==> [w] + n.gram in t)
                    && (w in n.map_ ==> n.map_[w] in all && n.map_[w].gram == [w] + n.gram) {
        KidIsEntry(t, n, w);
      }
    }

    lemma NodeIsEntry(t: Table, n: NGramNode)
      requires Holds(t) && Closed(t) && n in all
      ensures n.gram in t && n.score == t[n.gram].score && n.logBackOff == t[n.gram].backOff
      ensures |n.gram| > 1 ==> n.root in all && n.root.gram == [n.gram[0]]
    {
      hide Covers, TailOf, ChildrenOf, HasRest;
      NodesAreEntries(t, n.gram);
      hide Closed;
      assert NodeCarries(t, n.gram);
    }

    lemma KidIsEntry(t: Table, n: NGramNode, w: Word)
      requires Holds(t) && Closed(t) && n in all
      ensures (w in n.map_ <==> [w] + n.gram in t) && (w in n.map_ ==> n.map_[w] in all && n.map_[w].gram == [w] + n.gram)
    {
      hide *;
      NodeInTable(t, n);
      HoldsParts(t);
      ChildOf(n.gram, n, w);
      if [w] + n.gram in nodes { NodesAreEntries(t, [w] + n.gram); }
      if [w] + n.gram in t { NodeKnown(t, [w] + n.gram); }
    }

    lemma NodeInTable(t: Table, n: NGramNode)
      requires Holds(t) && n in all
      ensures n.gram in nodes && nodes[n.gram] == n && n.gram != []
    {}

    lemma NodeKnown(t: Table, g: seq<Word>)
      requires Holds(t) && (g in t || g in nodes)
      ensures g in nodes && nodes[g].gram == g
    {
      if g in t { assert NodeCarries(t, g); }
    }

    /** What Load leaves serves every lookup. */
    lemma HoldsServes(t: Table)
      requires Holds(t) && Closed(t)
      ensures Serves(t)
    {
      hide NodeOf, Carries, Covers;
      forall n | n in all ensures NodeOf(t, n) { NodeServes(t, n); }
    }

    /** A state stands for a context: null for the empty one. */
    ghost predicate StateIs(state: NGramNode?, context: seq<Word>)
      reads this`all
    {
      if context == [] then state == null else state in all && state.gram == context
    }

    /** GetLmID */
    method GetLmID(w: Word, ghost t: Table) returns (n: NGramNode?)
      requires Serves(t)
      ensures if [w] in t then n in all && n.gram == [w] && NodeOf(t, n) else n == null
    {
      n := if w in lmIdLookup then lmIdLookup[w] else null;
    }

    /** GetNGram */
    method GetNGram(n: NGramNode, w: Word, ghost t: Table) returns (c: NGramNode?)
      requires Serves(t) && n in all
      ensures if [w] + n.gram in t then c in all && c.gram == [w] + n.gram && NodeOf(t, c) else c == null
    {
      assert NodeOf(t, n);
      c := if w in n.map_ then n.map_[w] else null;
    }

    lemma ScoreIs(t: Table, n: NGramNode)
      requires NodeOf(t, n)
      ensures n.gram in t && n.score == t[n.gram].score && n.logBackOff == t[n.gram].backOff
      ensures |n.gram| > 1 ==> n.root in all && n.root.gram == [n.gram[0]]
    {
    }

    method GetValue1(factor0: Word, ghost t: Table) returns (score: real, finalState: NGramNode?)
      requires Serves(t)
      ensures score == Value(t, [factor0]) && StateIs(finalState, Longest(t, [factor0]))
    {
      hide Serves, NodeOf;
      Unigram(t, factor0);
      finalState := GetLmID(factor0, t);
      if finalState != null { ScoreIs(t, finalState); }
      score := Floor(if finalState == null then None else Some(finalState.score));
    }

    method GetValue2(factor0: Word, factor1: Word, ghost t: Table) returns (score: real, finalState: NGramNode?)
      requires Serves(t) && Closed(t)
      ensures score == Value(t, [factor0] + [factor1]) && StateIs(finalState, Longest(t, [factor0] + [factor1]))
    {
      hide Serves, NodeOf, Closed, Prob, Longest;
      Bigram(t, factor0, factor1);
      var nGram1 := GetLmID(factor1, t);
      if nGram1 == null { return Floor(None), null; }
      ScoreIs(t, nGram1);
      var nGram0 := GetNGram(nGram1, factor0, t);
      if nGram0 != null {
        ScoreIs(t, nGram0);
        return Floor(Some(nGram0.score)), nGram0;
      }
      finalState := nGram1;
      nGram0 := GetLmID(factor0, t);
      if nGram0 != null { ScoreIs(t, nGram0); }
      score := Floor(Some(if nGram0 == null then nGram1.score else nGram1.score + nGram0.logBackOff));
    }

    /** Back-off to the unigram of the last word. */
    method UnigramBackOff(factor0: Word, factor1: Word, score2: real, ghost t: Table) returns (score: real)
      requires Serves(t) && Closed(t)
      ensures score == score2 + Weight(t, [factor1]) + Weight(t, [factor0] + [factor1])
    {
      SuffixKnown(t, factor0, [factor1]);
      hide Serves, NodeOf, Closed;
      var nGram1 := GetLmID(factor1, t);
      if nGram1 == null { return score2; }
      ScoreIs(t, nGram1);
      var nGram0 := GetNGram(nGram1, factor0, t);
      if nGram0 == null { return score2 + nGram1.logBackOff; }
      ScoreIs(t, nGram0);
      score := score2 + nGram1.logBackOff + nGram0.logBackOff;
    }

    /** A bigram with the back-off weight of its context, which is reached by way of the root pointer. */
    method BigramBackOff(factor0: Word, factor1: Word, nGram1: NGramNode, ghost t: Table) returns (score: real)
      requires Serves(t) && nGram1 in all && NodeOf(t, nGram1) && |nGram1.gram| > 1 && nGram1.gram[0] == factor1
      ensures score == nGram1.score + Weight(t, [factor0] + [factor1])
    {
      hide Serves, NodeOf;
      ScoreIs(t, nGram1);
      var nGram0 := GetNGram(nGram1.root, factor0, t);
      if nGram0 == null { return nGram1.score; }
      ScoreIs(t, nGram0);
      score := nGram1.score + nGram0.logBackOff;
    }

    method GetValue3(factor0: Word, factor1: Word, factor2: Word, ghost t: Table) returns (score: real, finalState: NGramNode?)
      requires Serves(t) && Closed(t)
      ensures var w := [factor0] + ([factor1] + [factor2]); score == Value(t, w) && StateIs(finalState, Longest(t, w))
    {
      hide Serves, NodeOf, Closed, Prob, Longest, Weight;
      Trigram(t, factor0, factor1, factor2);
      var nGram2 := GetLmID(factor2, t);
      if nGram2 == null { return Floor(None), null; }
      ScoreIs(t, nGram2);
      var nGram1 := GetNGram(nGram2, factor1, t);
      if nGram1 == null {
        var raw := UnigramBackOff(factor0, factor1, nGram2.score, t);
        return Floor(Some(raw)), nGram2;
      }
      ScoreIs(t, nGram1);
      var nGram0 := GetNGram(nGram1, factor0, t);
      if nGram0 != null {
        ScoreIs(t, nGram0);
        return Floor(Some(nGram0.score)), nGram0;
      }
      var raw := BigramBackOff(factor0, factor1, nGram1, t);
      return Floor(Some(raw)), nGram1;
    }

    /** GetValue by the length of the context: the back-off probability and the longest known context. */
    method GetValue(contextFactor: seq<Word>, ghost t: Table) returns (score: real, finalState: NGramNode?)
      requires Holds(t) && Closed(t) && 1 <= |contextFactor| <= 3
      ensures score == Value(t, contextFactor) && StateIs(finalState, Longest(t, contextFactor))
      ensures IsValue(t, contextFactor, score)
    {
      hide *;
      ValueByEntries(t, contextFactor);
      HoldsServes(t);
      if |contextFactor| == 1 {
        assert contextFactor == [contextFactor[0]];
        score, finalState := GetValue1(contextFactor[0], t);
      } else if |contextFactor| == 2 {
        assert contextFactor == [contextFactor[0]] + [contextFactor[1]];
        score, finalState := GetValue2(contextFactor[0], contextFactor[1], t);
      } else {
        assert contextFactor == [contextFactor[0]] + ([contextFactor[1]] + [contextFactor[2]]);
        score, finalState := GetValue3(contextFactor[0], contextFactor[1], contextFactor[2], t);
      }
    }

    /** States are equal exactly when the contexts are. */
    lemma StatesTellContexts(s: NGramNode?, u: NGramNode?, v: seq<Word>, w: seq<Word>)
      requires Valid() && StateIs(s, v) && StateIs(u, w)
      ensures s == u <==> v == w
    {
    }
  }

  // ---------------------------------------------------------------- the reference for up to three words

  /** One step of the reference, from the right. */
  lemma ReferenceStep(t: Table, a: Word, rest: seq<Word>, context: seq<Word>)
    requires rest != [] && context + [rest[|rest| - 1]] == [a] + rest
    ensures Prob(t, [a] + rest) == if [a] + rest in t then Some(t[[a] + rest].score)
                                   else if Prob(t, rest).None? then None
                                   else Some(Prob(t, rest).value + Weight(t, context))
    ensures Longest(t, [a] + rest) == if [a] + rest in t then [a] + rest else Longest(t, rest)
  {
    assert ([a] + rest)[1..] == rest;
    assert ([a] + rest)[..|[a] + rest| - 1] == context;
  }

  lemma Unigram(t: Table, a: Word)
    ensures Prob(t, [a]) == if [a] in t then Some(t[[a]].score) else None
    ensures Longest(t, [a]) == if [a] in t then [a] else []
  {
    assert [a][1..] == [];
  }

  lemma SuffixKnown(t: Table, a: Word, rest: seq<Word>)
    requires Closed(t) && rest != []
    ensures [a] + rest in t ==> rest in t
  {
    assert ([a] + rest)[1..] == rest;
    assert [a] + rest in t ==> SuffixIn(t, [a] + rest);
  }

  lemma Bigram(t: Table, a: Word, b: Word)
    requires Closed(t)
    ensures var w := [a] + [b];
            && Prob(t, w) == (if [b] !in t then None
                              else if w in t then Some(t[w].score) else Some(t[[b]].score + Weight(t, [a])))
            && Longest(t, w) == (if [b] !in t then [] else if w in t then w else [b])
  {
    SuffixKnown(t, a, [b]);
    hide *;
    Unigram(t, b);
    ReferenceStep(t, a, [b], [a]);
  }

  lemma Trigram(t: Table, a: Word, b: Word, c: Word)
    requires Closed(t)
    ensures var v, w := [b] + [c], [a] + ([b] + [c]);
            && Prob(t, w) == (if [c] !in t then None
                              else if v !in t then Some(t[[c]].score + Weight(t, [b]) + Weight(t, [a] + [b]))
                              else if w in t then Some(t[w].score)
                              else Some(t[v].score + Weight(t, [a] + [b])))
            && Longest(t, w) == (if [c] !in t then [] else if v !in t then [c] else if w in t then w else v)
  {
    SuffixKnown(t, a, [b] + [c]);
    SuffixKnown(t, b, [c]);
    hide *;
    Bigram(t, b, c);
    assert ([a] + [b]) + [c] == [a] + ([b] + [c]);
    ReferenceStep(t, a, [b] + [c], [a] + [b]);
  }
}
