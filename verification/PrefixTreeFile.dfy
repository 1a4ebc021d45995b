/** Writing a prefix tree to a file and reading it back on demand (moses/src/PrefixTree.h, PrefixTreeF;
    moses/src/FilePtr.h). */
module PrefixTreeFile {
  import opened Files
  import opened Tries
  import opened TrieFile
  import opened PrefixTree

  // ---------------------------------------------------------------- create

  /** Node p of the tree in memory stands for t. */
  ghost predicate Mirror(p: PrefixTreeSA, t: Trie, within: set<PrefixTreeSA>)
    reads within
  {
    p in within && p.Repr <= within && p.Valid() && p.tree == t
  }

  /** The worklist and its value. */
  ghost predicate Mirrors(queue: seq<(PrefixTreeSA, nat)>, stack: seq<Todo>, within: set<PrefixTreeSA>)
    reads within
  {
    && |queue| == |stack|
    && forall i :: 0 <= i < |queue| ==> Mirror(queue[i].0, stack[i].0, within) && queue[i].1 == stack[i].1
  }

  /** The offsets of p: placeholders in the file, children on the stack. */
  method PushChildren(p: PrefixTreeSA, f: File<int>, queue: seq<(PrefixTreeSA, nat)>,
                      ghost stack: seq<Todo>, ghost within: set<PrefixTreeSA>)
    returns (queue': seq<(PrefixTreeSA, nat)>)
    requires Mirror(p, p.tree, within) && Mirrors(queue, stack, within)
    requires f.pos == |f.cells| && |f.cells| >= 2 + |p.keys| + |p.data|
    modifies f
    ensures f.cells == old(f.cells) + Zeros(|p.tree.kids|) && f.pos == |f.cells|
    ensures Mirrors(queue', stack + Pushed(p.tree, |old(f.cells)| - 2 - |p.keys| - |p.data|, |p.tree.kids|), within)
  {
    ghost var pos := |f.cells| - 2 - |p.keys| - |p.data|;
    queue' := queue;
    assert stack + Pushed(p.tree, pos, 0) == stack;
    for i := 0 to |p.ptr|
      invariant f.cells == old(f.cells) + Zeros(i) && f.pos == |f.cells|
      invariant Mirror(p, p.tree, within) && Mirrors(queue', stack + Pushed(p.tree, pos, i), within)
    {
      PushedStep(stack, p.tree, pos, i);
      assert PrefixTreeSA.Children(p.ptr, p.tree.kids, p.Repr - {p});
      assert PrefixTreeSA.ChildOf(p.ptr[i], p.tree.kids[i], p.Repr - {p});
      if p.ptr[i] != null {
        queue' := queue' + [(p.ptr[i], f.pos)];
      }
      f.Write(0);
      assert Zeros(i + 1) == Zeros(i) + [0];
    }
  }

  /** One turn of create: the record of p goes to the end of the file, its children onto the stack. */
  method CreateNode(p: PrefixTreeSA, f: File<int>, queue: seq<(PrefixTreeSA, nat)>,
                    ghost stack: seq<Todo>, ghost within: set<PrefixTreeSA>)
    returns (queue': seq<(PrefixTreeSA, nat)>)
    requires Mirror(p, p.tree, within) && Mirrors(queue, stack, within) && f.pos == |f.cells|
    modifies f
    ensures f.cells == old(f.cells) + Record(p.tree) && f.pos == |f.cells|
    ensures Mirrors(queue', stack + Pushed(p.tree, |old(f.cells)|, |p.tree.kids|), within)
  {
    f.Write(|p.keys|);
    f.WriteAll(p.keys);
    f.Write(|p.data|);
    f.WriteAll(p.data);
    queue' := PushChildren(p, f, queue, stack, within);
  }

  /** One turn of the loop: the offset of top is patched and its node written. */
  method CreateNext(p: PrefixTreeSA, pos: nat, f: File<int>, queue: seq<(PrefixTreeSA, nat)>,
                    ghost rest: seq<Todo>, ghost within: set<PrefixTreeSA>)
    returns (queue': seq<(PrefixTreeSA, nat)>, ghost stack: seq<Todo>)
    requires Mirror(p, p.tree, within) && Mirrors(queue, rest, within)
    requires f.pos == |f.cells| && StackFits(f.cells, rest) && pos < |f.cells|
    modifies f
    ensures f.pos == |f.cells| && Mirrors(queue', stack, within) && StackFits(f.cells, stack)
    ensures Complete(f.cells, stack) == Complete(old(f.cells), rest + [(p.tree, pos)])
    ensures Weight(stack) < Weight(rest + [(p.tree, pos)])
  {
    hide Mirrors, Weight, Complete;
    ghost var top := (p.tree, pos);
    CompleteStep(f.cells, rest, top);
    WeightPushed(rest, top);
    WeightOfKids(rest, p.tree, |f.cells|, |p.tree.kids|);
    stack := rest + Pushed(p.tree, |f.cells|, |p.tree.kids|);
    var curr := f.Tell();
    f.Seek(pos);
    f.Write(curr);
    f.Seek(curr);
    queue' := CreateNode(p, f, queue, rest, within);
  }

  /** The first turn: no offset points to the root. */
  method CreateFirst(psa: PrefixTreeSA, f: File<int>) returns (queue: seq<(PrefixTreeSA, nat)>, ghost stack: seq<Todo>)
    requires psa.Valid() && f.pos == |f.cells|
    modifies f
    ensures Mirrors(queue, stack, psa.Repr) && StackFits(f.cells, stack) && f.pos == |f.cells|
    ensures Complete(f.cells, stack) == Write(old(f.cells), psa.tree)
  {
    stack := [];
    CompleteKids(f.cells + Record(psa.tree), stack, psa.tree, |f.cells|, |psa.tree.kids|);
    queue := CreateNode(psa, f, [], stack, psa.Repr);
    stack := stack + Pushed(psa.tree, |old(f.cells)|, |psa.tree.kids|);
  }

  /** The node and offset cell on top of the worklist. */
  lemma TopMirrors(queue: seq<(PrefixTreeSA, nat)>, stack: seq<Todo>, within: set<PrefixTreeSA>)
    requires Mirrors(queue, stack, within) && queue != []
    ensures var n := |queue| - 1;
            Mirror(queue[n].0, queue[n].0.tree, within) && Mirrors(queue[..n], stack[..n], within)
            && stack == stack[..n] + [(queue[n].0.tree, queue[n].1)]
  {
  }

  /** create: the worklist writes what the recursive definition says. */
  method Create(psa: PrefixTreeSA, f: File<int>)
    requires psa.Valid() && f.pos == |f.cells|
    modifies f
    ensures f.cells == Write(old(f.cells), psa.tree) && f.pos == |f.cells|
  {
    var queue; ghost var stack;
    queue, stack := CreateFirst(psa, f);
    while queue != []
      invariant Mirrors(queue, stack, psa.Repr) && StackFits(f.cells, stack) && f.pos == |f.cells|
      invariant Complete(f.cells, stack) == Write(old(f.cells), psa.tree)
      decreases Weight(stack)
    {
      TopMirrors(queue, stack, psa.Repr);
      var last := |queue| - 1;
      queue, stack := CreateNext(queue[last].0, queue[last].1, f, queue[..last], stack[..last], psa.Repr);
    }
  }
}
