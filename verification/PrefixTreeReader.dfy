/** Reading a stored prefix tree on demand (moses/src/PrefixTree.h, PrefixTreeF; moses/src/FilePtr.h). */
module PrefixTreeReader {
  import opened Files
  import opened Tries
  import opened TrieFile

  const INVALID: int := -1

  /** A place in a file, and the node read from there once it has been loaded. */
  datatype FilePtr = FilePtr(f: File?<int>, pos: int, t: PrefixTreeF?) {
    /** operator bool */
    predicate Set() {
      f != null && pos != INVALID
    }
  }

  /** The four fields of a record as they come from the file. */
  lemma RecordReads(c: seq<int>, pos: nat, t: Trie, i: nat)
    requires t.Node? && Stored(c, pos, t) && i < |t.kids|
    ensures c[OffsetCell(t, pos, i)] == if t.kids[i].Nil? then 0 else KidAt(t, pos, i)
    ensures pos < KidAt(t, pos, i) <= |c| && (t.kids[i].Node? ==> Stored(c, KidAt(t, pos, i), t.kids[i]))
  {
    assert KidStored(c, pos, t, i);
    KidInside(t, pos, i);
  }

  /** The offsets as they come from the file, from behind the data. */
  lemma OffsetsRead(c: seq<int>, pos: nat, t: Trie)
    requires t.Node? && Wf(t) && Stored(c, pos, t)
    ensures |t.keys| == |t.data| == |t.kids| && pos + Len(t) <= |c|
    ensures forall i :: 0 <= i < |t.kids| ==> KidAt(t, pos, i) > 0
    ensures var rawOffs := c[OffsetCell(t, pos, 0)..OffsetCell(t, pos, 0) + |t.kids|];
            forall i :: 0 <= i < |t.kids| ==> rawOffs[i] == if t.kids[i].Nil? then 0 else KidAt(t, pos, i)
  {
    forall i | 0 <= i < |t.kids|
      ensures KidAt(t, pos, i) > 0
      ensures c[OffsetCell(t, pos, 0)..OffsetCell(t, pos, 0) + |t.kids|][i] == if t.kids[i].Nil? then 0 else KidAt(t, pos, i)
    {
      hide Stored, Wf, KidAt;
      RecordReads(c, pos, t, i);
      assert OffsetCell(t, pos, i) == OffsetCell(t, pos, 0) + i;
    }
  }

  /** Every node that has been loaded is in order. */
  ghost predicate Sound(all: set<PrefixTreeF>)
    reads all
  {
    forall n :: n in all ==> n.Local(all)
  }

  /** Every node that has been loaded stands for a tree that is stored in file f. */
  ghost predicate Backed(all: set<PrefixTreeF>, f: File<int>)
    reads all`f, all`tree, all`startPos, f`cells
  {
    forall n :: n in all ==> n.f == f && n.tree.Node? && Stored(f.cells, n.startPos, n.tree)
  }

  class PrefixTreeF {
    var keys: seq<int>
    var data: seq<int>
    var ptr: seq<FilePtr>
    var startPos: nat
    var f: File<int>
    /** What the node stands for, and the pointer that leads to it. */
    ghost var tree: Trie
    ghost var parent: PrefixTreeF?
    ghost var index: nat

    /** Pointer i leads to kid i, loaded or not. */
    ghost predicate LinkOf(i: nat, all: set<PrefixTreeF>)
      requires tree.Node? && i < |ptr| == |tree.kids|
      reads this, all`tree, all`f, all`startPos, all`parent, all`index
    {
      var q := ptr[i];
      if tree.kids[i].Nil? then q.f == null && q.t == null
      else
        && q.f == f && q.pos == KidAt(tree, startPos, i)
        && (q.t != null ==>
              && q.t in all && q.t.tree == tree.kids[i] && q.t.f == f && q.t.startPos == q.pos
              && q.t.parent == this && q.t.index == i)
    }

    ghost predicate Local(all: set<PrefixTreeF>)
      reads this, all`tree, all`f, all`startPos, all`parent, all`index
    {
      && tree.Node? && Wf(tree) && keys == tree.keys && data == tree.data && |ptr| == |tree.kids|
      && forall i :: 0 <= i < |ptr| ==> LinkOf(i, all)
    }

    /** The constructor reads the record of t from the place where the file stands. */
    constructor (file: File<int>, ghost t: Trie, ghost above: PrefixTreeF?, ghost i: nat)
      requires t.Node? && Wf(t) && Stored(file.cells, file.pos, t)
      modifies file`pos
      ensures Local({}) && tree == t && f == file && startPos == old(file.pos) && parent == above && index == i
    {
      f := file;
      keys, data, ptr, startPos := [], [], [], 0;
      tree, parent, index := t, above, i;
      new;
      Read();
    }

    /** The three vectors of a record. */
    static method ReadRecord(f: File<int>, ghost t: Trie) returns (keys: seq<int>, data: seq<int>, rawOffs: seq<int>)
      requires t.Node? && HeaderAt(f.cells, f.pos, t) && |t.keys| == |t.kids|
      modifies f`pos
      ensures keys == t.keys && data == t.data
      ensures var o := OffsetCell(t, old(f.pos), 0); rawOffs == f.cells[o..o + |t.kids|]
    {
      var n := f.Read();
      keys := f.ReadAll(n);
      n := f.Read();
      data := f.ReadAll(n);
      rawOffs := f.ReadAll(|keys|);
    }

    /** The loop of read that turns offsets into pointers; 0 stands for no child. */
    static method MakeLinks(f: File<int>, rawOffs: seq<int>, ghost t: Trie, ghost pos: nat) returns (ptr: seq<FilePtr>)
      requires t.Node? && |rawOffs| == |t.kids|
      requires forall i :: 0 <= i < |t.kids| ==> rawOffs[i] == if t.kids[i].Nil? then 0 else KidAt(t, pos, i)
      requires forall i :: 0 <= i < |t.kids| ==> KidAt(t, pos, i) > 0
      ensures |ptr| == |t.kids| && forall i :: 0 <= i < |ptr| ==>
                ptr[i] == if t.kids[i].Nil? then FilePtr(null, 0, null) else FilePtr(f, KidAt(t, pos, i), null)
    {
      ptr := [];
      for i := 0 to |rawOffs|
        invariant |ptr| == i && forall j :: 0 <= j < i ==>
                    ptr[j] == if t.kids[j].Nil? then FilePtr(null, 0, null) else FilePtr(f, KidAt(t, pos, j), null)
      {
        ptr := ptr + [if rawOffs[i] != 0 then FilePtr(f, rawOffs[i], null) else FilePtr(null, 0, null)];
      }
    }

    /** read */
    method Read()
      requires tree.Node? && Wf(tree) && Stored(f.cells, f.pos, tree)
      modifies this`keys, this`data, this`ptr, this`startPos, f`pos
      ensures Local({}) && startPos == old(f.pos)
    {
      OffsetsRead(f.cells, f.pos, tree);
      startPos := f.Tell();
      var rawOffs;
      keys, data, rawOffs := ReadRecord(f, tree);
      ptr := MakeLinks(f, rawOffs, tree, startPos);
    }

    /** FilePtr::load on the i-th pointer. */
    method Load(i: nat, ghost all: set<PrefixTreeF>) returns (t: PrefixTreeF?, ghost all': set<PrefixTreeF>)
      requires Sound(all) && this in all && i < |ptr| && Stored(f.cells, startPos, tree)
      modifies this`ptr, f`pos
      ensures Sound(all') && all <= all' && fresh(all' - all) && (Backed(all, f) ==> Backed(all', f))
      ensures |ptr| == |tree.kids| == old(|ptr|) && t == ptr[i].t && (t == null <==> tree.kids[i].Nil?)
      ensures t != null ==> t in all' && t.tree == tree.kids[i] && t.f == f && t.parent == this && startPos < t.startPos
      ensures t != null ==> t.tree.Node? && Stored(f.cells, t.startPos, t.tree) && t.startPos == KidAt(tree, startPos, i)
    {
      all' := all;
      assert LinkOf(i, all);
      RecordReads(f.cells, startPos, tree, i);
      if ptr[i].t == null && ptr[i].Set() {
        f.Seek(ptr[i].pos);
        var node := new PrefixTreeF(f, tree.kids[i], this, i);
        ptr := ptr[i := ptr[i].(t := node)];
        all' := all + {node};
        forall n | n in all ensures n.Local(all') {
          assert old(n.Local(all));
          forall j | 0 <= j < |n.ptr| ensures n.LinkOf(j, all') {
            assert old(n.LinkOf(j, all));
          }
        }
        forall j | 0 <= j < |node.ptr| ensures node.LinkOf(j, all') {
          assert node.LinkOf(j, {});
        }
      }
      t := ptr[i].t;
    }

    /** findKey */
    method FindKey(k: int) returns (p: nat)
      requires tree.Node? && Wf(tree) && keys == tree.keys
      ensures p == Tries.FindKey(tree, k)
    {
      p := LowerBound(keys, k, 0);
      if !HasKey(keys, k, p) { p := |keys|; }
    }

    /** findPtr: the answer of the tree in memory, whatever has been loaded so far. */
    method FindPtr(s: seq<int>, ghost all: set<PrefixTreeF>) returns (r: Option, ghost all': set<PrefixTreeF>)
      requires s != [] && Sound(all) && this in all && Stored(f.cells, startPos, tree)
      modifies all`ptr, f`pos
      ensures Sound(all') && all <= all' && fresh(all' - all) && (Backed(all, f) ==> Backed(all', f))
      ensures r == Tries.FindPtr(tree, s)
      decreases |s|
    {
      hide Stored, Backed;
      all' := all;
      var p := LowerBound(keys, s[0], 0);
      if !HasKey(keys, s[0], p) { return None, all; }
      if |s| == 1 { return Some(data[p]), all; }
      var t;
      t, all' := Load(p, all);
      if t == null { return None, all'; }
      r, all' := t.FindPtr(s[1..], all');
    }

    /** find */
    method Find(s: seq<int>, def: int, ghost all: set<PrefixTreeF>) returns (d: int, ghost all': set<PrefixTreeF>)
      requires s != [] && Sound(all) && this in all && Stored(f.cells, startPos, tree)
      modifies all`ptr, f`pos
      ensures Sound(all') && all <= all' && fresh(all' - all) && (Backed(all, f) ==> Backed(all', f))
      ensures d == Tries.Find(tree, s, def)
    {
      var r;
      r, all' := FindPtr(s, all);
      d := if r.Some? then r.value else def;
    }

    /** free: every loaded child is forgotten; the node still stands for the same tree. */
    method Free(ghost all: set<PrefixTreeF>)
      requires Sound(all) && this in all
      modifies this`ptr
      ensures Sound(all) && forall i :: 0 <= i < |ptr| ==> ptr[i].t == null
    {
      var freed: seq<FilePtr> := [];
      for i := 0 to |ptr|
        invariant |freed| == i && forall j :: 0 <= j < i ==> freed[j] == ptr[j].(t := null)
      {
        freed := freed + [ptr[i].(t := null)];
      }
      ptr := freed;
      forall j | 0 <= j < |ptr| ensures LinkOf(j, all) { assert old(LinkOf(j, all)); }
    }

    /** The place of n is outside the cells of this tree. */
    ghost predicate Beyond(n: PrefixTreeF)
      reads this, n
    {
      n.startPos < startPos || startPos + Size(tree) <= n.startPos
    }

    /** changeData: the value is changed in memory and in its cell of the file, if the entry exists. */
    method ChangeData(s: seq<int>, d: int, ghost all: set<PrefixTreeF>) returns (ghost all': set<PrefixTreeF>)
      requires s != [] && Sound(all) && this in all && Stored(f.cells, startPos, tree)
      modifies all`ptr, all`data, all`tree, f
      ensures all <= all' && fresh(all' - all) && forall n :: n in all' && n != parent ==> n.Local(all')
      ensures forall n :: n in all && old(Beyond(n)) ==> unchanged(n)
      ensures tree == Updated(old(tree), s, d) && Stored(f.cells, startPos, tree)
      ensures Outside(old(f.cells), f.cells, startPos, startPos + Size(old(tree)))
      decreases |s|, 0
    {
      hide Stored, Backed;
      all' := all;
      var pos := LowerBound(keys, s[0], 0);
      if !HasKey(keys, s[0], pos) { return; }
      if |s| == 1 {
        ChangeHere(pos, d, all);
        return;
      }
      var t;
      t, all' := Load(pos, all);
      UpdatedBelow(tree, s, d, pos);
      if t == null { return; }
      all' := ChangeBelow(pos, t, s[1..], d, all');
    }

    method ChangeBelow(p: nat, t: PrefixTreeF, s: seq<int>, d: int, ghost all: set<PrefixTreeF>)
      returns (ghost all': set<PrefixTreeF>)
      requires s != [] && Sound(all) && this in all && Stored(f.cells, startPos, tree)
      requires p < |tree.kids| == |ptr| && ptr[p].t == t && t in all && tree.kids[p].Node?
      requires t.f == f && t.startPos == KidAt(tree, startPos, p) && t.parent == this && t.tree == tree.kids[p]
      requires Stored(f.cells, t.startPos, t.tree)
      modifies all`ptr, all`data, all`tree, f
      ensures all <= all' && fresh(all' - all) && forall n :: n in all' && n != parent ==> n.Local(all')
      ensures forall n :: n in all && old(Beyond(n)) ==> unchanged(n)
      ensures tree == old(tree).(kids := old(tree).kids[p := Updated(old(tree).kids[p], s, d)])
      ensures Stored(f.cells, startPos, tree)
      ensures Outside(old(f.cells), f.cells, startPos, startPos + Size(old(tree)))
      decreases |s|, 2
    {
      SizeUpdated(t.tree, s, d);
      KidInside(tree, startPos, p);
      OthersBeyond(p, t, all);
      all' := ChangeChild(p, t, s, d, all);
      KidChanged(old(f.cells), f.cells, startPos, tree, p, t.tree);
      Adopt(p, all');
    }

    /** The call on the child leaves everything beyond its cells alone. */
    method ChangeChild(p: nat, t: PrefixTreeF, s: seq<int>, d: int, ghost all: set<PrefixTreeF>)
      returns (ghost all': set<PrefixTreeF>)
      requires s != [] && Sound(all) && this in all && p < |tree.kids| == |ptr| && ptr[p].t == t && t in all
      requires tree.kids[p].Node? && t.f == f && t.parent == this && t.tree == tree.kids[p] && t.Beyond(this)
      requires forall i :: 0 <= i < |ptr| && i != p && ptr[i].t != null ==> LinkOf(i, all) && t.Beyond(ptr[i].t)
      requires Stored(f.cells, t.startPos, t.tree)
      modifies all`ptr, all`data, all`tree, f
      ensures all <= all' && fresh(all' - all) && forall n :: n in all' && n != this ==> n.Local(all')
      ensures unchanged(this) && forall n :: n in all && old(t.Beyond(n)) ==> unchanged(n)
      ensures forall i :: 0 <= i < |ptr| && i != p ==> LinkOf(i, all')
      ensures t.tree == Updated(old(t.tree), s, d) && Stored(f.cells, t.startPos, t.tree)
      ensures Outside(old(f.cells), f.cells, t.startPos, t.startPos + Size(old(t.tree)))
      decreases |s|, 1
    {
      assert Local(all);
      all' := t.ChangeData(s, d, all);
      forall i | 0 <= i < |ptr| && i != p ensures LinkOf(i, all') {
        assert old(LinkOf(i, all));
      }
    }

    /** This node and the other children lie outside the cells of child p. */
    lemma OthersBeyond(p: nat, t: PrefixTreeF, all: set<PrefixTreeF>)
      requires Local(all) && p < |ptr| && ptr[p].t == t && tree.kids[p].Node?
      ensures LinkOf(p, all) && t.Beyond(this) && t.index == p
      ensures forall i :: 0 <= i < |ptr| && i != p && ptr[i].t != null ==> LinkOf(i, all) && t.Beyond(ptr[i].t)
    {
      assert LinkOf(p, all);
      KidInside(tree, startPos, p);
      forall i | 0 <= i < |ptr| && i != p && ptr[i].t != null ensures LinkOf(i, all) && t.Beyond(ptr[i].t) {
        assert LinkOf(i, all);
        SiblingBeyond(tree, startPos, p, i);
      }
    }

    /** After child p has changed, this node follows; then only its own parent still has to. */
    ghost method Adopt(p: nat, all: set<PrefixTreeF>)
      requires this in all && forall n :: n in all && n != this ==> n.Local(all)
      requires tree.Node? && Wf(tree) && keys == tree.keys && data == tree.data && p < |ptr| == |tree.kids|
      requires forall i :: 0 <= i < |ptr| && i != p ==> LinkOf(i, all)
      requires ptr[p].f == f && ptr[p].pos == KidAt(tree, startPos, p) && ptr[p].t in all && ptr[p].t.Local(all)
      requires ptr[p].t.f == f && ptr[p].t.startPos == ptr[p].pos && ptr[p].t.parent == this && ptr[p].t.index == p
      requires Size(ptr[p].t.tree) == Size(tree.kids[p]) && startPos < ptr[p].t.startPos
      modifies this`tree
      ensures tree == old(tree).(kids := old(tree).kids[p := old(ptr[p].t.tree)])
      ensures forall n :: n in all && n != parent ==> n.Local(all)
    {
      tree := tree.(kids := tree.kids[p := ptr[p].t.tree]);
      forall n | n in all && n != parent ensures n.Local(all) {
        assert n != this ==> old(n.Local(all));
        forall j | 0 <= j < |n.ptr| ensures n.LinkOf(j, all) {
          assert n != this || j != p ==> old(n.LinkOf(j, all));
          if n == this { KidsSizeChange(old(tree), p, ptr[p].t.tree, j + 1); }
        }
      }
    }

    method ChangeHere(pos: nat, d: int, ghost all: set<PrefixTreeF>)
      requires Sound(all) && this in all && pos < |tree.data| == |data| && Stored(f.cells, startPos, tree)
      modifies this`data, this`tree, f
      ensures forall n :: n in all && n != parent ==> n.Local(all)
      ensures tree == old(tree).(data := old(tree).data[pos := d]) && Stored(f.cells, startPos, tree)
      ensures Outside(old(f.cells), f.cells, startPos, startPos + Size(old(tree)))
    {
      var p := startPos + |keys| + 2 + pos;
      DataChanged(f.cells, startPos, tree, pos, d);
      KidsSizeSame(tree, tree.(data := tree.data[pos := d]), 0);
      assert p == DataCell(tree, startPos, pos);
      if data[pos] != d {
        Reassign(pos, d, all);
        f.Seek(p);
        f.Write(d);
      } else {
        assert tree.data[pos := d] == tree.data;
      }
    }

    /** A data item changes; only the parent still has to follow. */
    method Reassign(pos: nat, d: int, ghost all: set<PrefixTreeF>)
      requires Sound(all) && this in all && pos < |data|
      modifies this`data, this`tree
      ensures tree == old(tree).(data := old(tree).data[pos := d])
      ensures forall n :: n in all && n != parent ==> n.Local(all)
    {
      data := data[pos := d];
      tree := tree.(data := data);
      forall n | n in all && n != parent ensures n.Local(all) {
        assert old(n.Local(all));
        forall j | 0 <= j < |n.ptr| ensures n.LinkOf(j, all) {
          assert old(n.LinkOf(j, all));
          if n == this { KidsSizeSame(old(tree), tree, j + 1); }
        }
      }
    }
  }
}
