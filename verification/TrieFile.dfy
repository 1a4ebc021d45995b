/** The file format of a prefix tree: one record per node, children behind their parent, child offsets
    back-patched (moses/src/PrefixTree.h, PrefixTreeF::create and read). */
module TrieFile {
  import opened Tries

  // ---------------------------------------------------------------- layout

  /** Cells of the record of one node: two counts, keys, data, child offsets. */
  function Len(t: Trie): nat
    requires t.Node?
  {
    2 + |t.keys| + |t.data| + |t.kids|
  }

  /** Cells of a whole tree. */
  function Size(t: Trie): nat
    decreases t, 0
  {
    if t.Nil? then 0 else Len(t) + KidsSize(t, 0)
  }

  /** Cells of the children from the i-th on. */
  function KidsSize(t: Trie, i: nat): nat
    requires t.Node? && i <= |t.kids|
    decreases t, 0, |t.kids| - i
  {
    if i == |t.kids| then 0 else KidsSize(t, i + 1) + Size(t.kids[i])
  }

  /** Children are written from the last to the first. */
  function KidAt(t: Trie, pos: nat, i: nat): nat
    requires t.Node? && i < |t.kids|
  {
    pos + Len(t) + KidsSize(t, i + 1)
  }

  function OffsetCell(t: Trie, pos: nat, i: nat): nat
    requires t.Node?
  {
    pos + 2 + |t.keys| + |t.data| + i
  }

  function DataCell(t: Trie, pos: nat, p: nat): nat
    requires t.Node?
  {
    pos + 2 + |t.keys| + p
  }

  ghost predicate HeaderAt(c: seq<int>, pos: nat, t: Trie)
    requires t.Node?
  {
    && pos + Len(t) <= |c| && c[pos] == |t.keys| && c[pos + 1 + |t.keys|] == |t.data|
    && (forall k :: 0 <= k < |t.keys| ==> c[pos + 1 + k] == t.keys[k])
    && (forall k :: 0 <= k < |t.data| ==> c[DataCell(t, pos, k)] == t.data[k])
  }

  /** The offset of child i is 0 if there is none, and otherwise the place of its record. */
  ghost predicate KidStored(c: seq<int>, pos: nat, t: Trie, i: nat)
    requires t.Node? && i < |t.kids| && pos + Len(t) <= |c|
    decreases t, 0
  {
    if t.kids[i].Nil? then c[OffsetCell(t, pos, i)] == 0
    else c[OffsetCell(t, pos, i)] == KidAt(t, pos, i) && Stored(c, KidAt(t, pos, i), t.kids[i])
  }

  /** The tree t is stored at pos, in Size(t) cells. */
  ghost predicate Stored(c: seq<int>, pos: nat, t: Trie)
    requires t.Node?
    decreases t, 1
  {
    pos + Size(t) <= |c| && HeaderAt(c, pos, t) && forall i :: 0 <= i < |t.kids| ==> KidStored(c, pos, t, i)
  }

  lemma {:induction false} KidsShrink(t: Trie, i: nat, j: nat)
    requires t.Node? && i <= j <= |t.kids|
    ensures KidsSize(t, j) <= KidsSize(t, i)
    decreases j - i
  {
    if i < j { KidsShrink(t, i + 1, j); }
  }

  /** A child lies strictly behind its parent's record and inside the tree; so 0 can mark a missing child
      and following offsets ends. */
  lemma KidInside(t: Trie, pos: nat, i: nat)
    requires t.Node? && i < |t.kids|
    ensures 0 < pos + Len(t) <= KidAt(t, pos, i) && KidAt(t, pos, i) + Size(t.kids[i]) <= pos + Size(t)
  {
    KidsShrink(t, 0, i);
  }

  /** Stored depends on the tree's own cells only. */
  lemma {:induction false} StoredFrame(c: seq<int>, d: seq<int>, pos: nat, t: Trie)
    requires t.Node? && Stored(c, pos, t) && pos + Size(t) <= |d| && c[pos..pos + Size(t)] == d[pos..pos + Size(t)]
    ensures Stored(d, pos, t)
    decreases t
  {
    forall k | pos <= k < pos + Size(t) ensures c[k] == d[k] {
      assert c[k] == c[pos..pos + Size(t)][k - pos];
    }
    forall i | 0 <= i < |t.kids| ensures KidStored(d, pos, t, i) {
      assert KidStored(c, pos, t, i);
      KidInside(t, pos, i);
      if t.kids[i].Node? {
        StoredFrame(c, d, KidAt(t, pos, i), t.kids[i]);
      }
    }
  }

  // ---------------------------------------------------------------- writing, recursively

  function Zeros(n: nat): seq<int> {
    seq(n, _ => 0)
  }

  /** The record of a node as it is first written: no child known yet. */
  function Record(t: Trie): (r: seq<int>)
    requires t.Node?
    ensures |r| == Len(t)
  {
    [|t.keys|] + t.keys + [|t.data|] + t.data + Zeros(|t.kids|)
  }

  /** The file after t has been written at its end. */
  function Write(c: seq<int>, t: Trie): (r: seq<int>)
    requires t.Node?
    ensures |r| >= |c|
    decreases t, 1
  {
    WriteKids(c + Record(t), t, |c|, |t.kids|)
  }

  /** The file after the first n children of t, whose record is at pos, have been written, last one first. */
  function WriteKids(c: seq<int>, t: Trie, pos: nat, n: nat): (r: seq<int>)
    requires t.Node? && n <= |t.kids| && pos + Len(t) <= |c|
    ensures |r| >= |c|
    decreases t, 0, n
  {
    if n == 0 then c
    else if t.kids[n - 1].Nil? then WriteKids(c, t, pos, n - 1)
    else WriteKids(Write(c[OffsetCell(t, pos, n - 1) := |c|], t.kids[n - 1]), t, pos, n - 1)
  }

  /** The record is in place and the children from n on are stored. */
  ghost predicate PartlyStored(c: seq<int>, pos: nat, t: Trie, n: nat)
    requires t.Node? && n <= |t.kids|
  {
    && |c| == pos + Len(t) + KidsSize(t, n) && HeaderAt(c, pos, t)
    && (forall i :: 0 <= i < n ==> c[OffsetCell(t, pos, i)] == 0)
    && (forall i :: n <= i < |t.kids| ==> KidStored(c, pos, t, i))
  }

  lemma RecordIsPartlyStored(c: seq<int>, t: Trie)
    requires t.Node?
    ensures PartlyStored(c + Record(t), |c|, t, |t.kids|)
  {
  }

  /** Writing a tree appends its Size cells and stores it there. */
  lemma {:induction false} WriteStores(c: seq<int>, t: Trie)
    requires t.Node?
    ensures var r := Write(c, t); |r| == |c| + Size(t) && r[..|c|] == c && Stored(r, |c|, t)
    decreases t, 1
  {
    RecordIsPartlyStored(c, t);
    KidsAreStored(c + Record(t), t, |c|, |t.kids|);
  }

  lemma {:induction false} KidsAreStored(c: seq<int>, t: Trie, pos: nat, n: nat)
    requires t.Node? && n <= |t.kids| && PartlyStored(c, pos, t, n)
    ensures var r := WriteKids(c, t, pos, n); |r| == pos + Size(t) && r[..pos] == c[..pos] && Stored(r, pos, t)
    decreases t, 0, n
  {
    if n > 0 {
      if t.kids[n - 1].Nil? {
        KidsAreStored(c, t, pos, n - 1);
      } else {
        var d := Write(c[OffsetCell(t, pos, n - 1) := |c|], t.kids[n - 1]);
        WriteStores(c[OffsetCell(t, pos, n - 1) := |c|], t.kids[n - 1]);
        KidWritten(c, d, t, pos, n - 1);
        KidsAreStored(d, t, pos, n - 1);
      }
    }
  }

  /** One child more is stored, and nothing that was stored is lost. */
  lemma KidWritten(c: seq<int>, d: seq<int>, t: Trie, pos: nat, n: nat)
    requires t.Node? && n < |t.kids| && t.kids[n].Node? && PartlyStored(c, pos, t, n + 1)
    requires |d| == |c| + Size(t.kids[n]) && d[..|c|] == c[OffsetCell(t, pos, n) := |c|] && Stored(d, |c|, t.kids[n])
    ensures PartlyStored(d, pos, t, n) && d[..pos] == c[..pos]
  {
    var p := OffsetCell(t, pos, n);
    forall k | 0 <= k < |c| ensures d[k] == if k == p then |c| else c[k] {
      assert d[k] == d[..|c|][k];
    }
    forall i | n < i < |t.kids| ensures KidStored(d, pos, t, i) {
      assert KidStored(c, pos, t, i);
      KidInside(t, pos, i);
      KidsShrink(t, n + 1, i);
      if t.kids[i].Node? { StoredFrame(c, d, KidAt(t, pos, i), t.kids[i]); }
    }
    assert KidStored(d, pos, t, n);
  }

  // ---------------------------------------------------------------- writing with a worklist

  /** A tree still to be written, and the offset cell that is to point to it. */
  type Todo = (Trie, nat)

  /** What a node leaves on the stack for its first n children. */
  function Pushed(t: Trie, pos: nat, n: nat): (r: seq<Todo>)
    requires t.Node? && n <= |t.kids|
    ensures forall i :: 0 <= i < |r| ==> r[i].0.Node? && r[i].1 < pos + Len(t)
  {
    if n == 0 then []
    else Pushed(t, pos, n - 1) + if t.kids[n - 1].Nil? then [] else [(t.kids[n - 1], OffsetCell(t, pos, n - 1))]
  }

  ghost predicate StackFits(c: seq<int>, stack: seq<Todo>) {
    forall i :: 0 <= i < |stack| ==> stack[i].0.Node? && stack[i].1 < |c|
  }

  /** The file after everything on the stack has been written, last entry first. */
  ghost function Complete(c: seq<int>, stack: seq<Todo>): seq<int>
    requires StackFits(c, stack)
    decreases |stack|
  {
    if stack == [] then c
    else
      var top := stack[|stack| - 1];
      Complete(Write(c[top.1 := |c|], top.0), stack[..|stack| - 1])
  }

  lemma CompletePushed(c: seq<int>, rest: seq<Todo>, top: Todo)
    requires StackFits(c, rest) && top.0.Node? && top.1 < |c|
    ensures Complete(c, rest + [top]) == Complete(Write(c[top.1 := |c|], top.0), rest)
  {
    assert (rest + [top])[..|rest|] == rest;
  }

  lemma PushedStep(rest: seq<Todo>, t: Trie, pos: nat, n: nat)
    requires t.Node? && n < |t.kids|
    ensures rest + Pushed(t, pos, 0) == rest
    ensures rest + Pushed(t, pos, n + 1)
         == (rest + Pushed(t, pos, n)) + if t.kids[n].Nil? then [] else [(t.kids[n], OffsetCell(t, pos, n))]
  {
  }

  lemma {:induction false} CompleteKids(c: seq<int>, rest: seq<Todo>, t: Trie, pos: nat, n: nat)
    requires t.Node? && n <= |t.kids| && pos + Len(t) <= |c| && StackFits(c, rest)
    ensures Complete(c, rest + Pushed(t, pos, n)) == Complete(WriteKids(c, t, pos, n), rest)
    decreases n
  {
    if n == 0 {
      assert rest + Pushed(t, pos, n) == rest;
    } else {
      var before := rest + Pushed(t, pos, n - 1);
      PushedStep(rest, t, pos, n - 1);
      if t.kids[n - 1].Nil? {
        assert before + [] == before;
        CompleteKids(c, rest, t, pos, n - 1);
      } else {
        CompleteKid(c, before, t, pos, n - 1);
        CompleteKids(Write(c[OffsetCell(t, pos, n - 1) := |c|], t.kids[n - 1]), rest, t, pos, n - 1);
      }
    }
  }

  lemma CompleteKid(c: seq<int>, before: seq<Todo>, t: Trie, pos: nat, n: nat)
    requires t.Node? && n < |t.kids| && t.kids[n].Node? && pos + Len(t) <= |c| && StackFits(c, before)
    ensures Complete(c, before + [(t.kids[n], OffsetCell(t, pos, n))])
         == Complete(Write(c[OffsetCell(t, pos, n) := |c|], t.kids[n]), before)
  {
    CompletePushed(c, before, (t.kids[n], OffsetCell(t, pos, n)));
  }

  /** One turn of the worklist: patch the offset, append the record, push the children. */
  lemma CompleteStep(c: seq<int>, rest: seq<Todo>, top: Todo)
    requires StackFits(c, rest) && top.0.Node? && top.1 < |c|
    ensures Complete(c, rest + [top])
         == Complete(c[top.1 := |c|] + Record(top.0), rest + Pushed(top.0, |c|, |top.0.kids|))
  {
    CompletePushed(c, rest, top);
    CompleteKids(c[top.1 := |c|] + Record(top.0), rest, top.0, |c|, |top.0.kids|);
  }

  /** Cells still to be written. */
  ghost function Weight(stack: seq<Todo>): nat {
    if stack == [] then 0 else Weight(stack[..|stack| - 1]) + Size(stack[|stack| - 1].0)
  }

  lemma WeightPushed(rest: seq<Todo>, top: Todo)
    ensures Weight(rest + [top]) == Weight(rest) + Size(top.0)
  {
    assert (rest + [top])[..|rest|] == rest;
  }

  lemma {:induction false} WeightOfKids(rest: seq<Todo>, t: Trie, pos: nat, n: nat)
    requires t.Node? && n <= |t.kids|
    ensures Weight(rest + Pushed(t, pos, n)) + KidsSize(t, n) == Weight(rest) + KidsSize(t, 0)
  {
    if n == 0 {
      assert rest + Pushed(t, pos, n) == rest;
    } else {
      hide Weight, Pushed;
      WeightOfKids(rest, t, pos, n - 1);
      PushedStep(rest, t, pos, n - 1);
      var before := rest + Pushed(t, pos, n - 1);
      if t.kids[n - 1].Nil? {
        assert before + [] == before;
      } else {
        WeightPushed(before, (t.kids[n - 1], OffsetCell(t, pos, n - 1)));
      }
    }
  }

  // ---------------------------------------------------------------- changing one value in place

  lemma {:induction false} KidsSizeChange(t: Trie, p: nat, kid: Trie, i: nat)
    requires t.Node? && p < |t.kids| && Size(kid) == Size(t.kids[p]) && i <= |t.kids|
    ensures KidsSize(t.(kids := t.kids[p := kid]), i) == KidsSize(t, i)
    decreases |t.kids| - i
  {
    if i < |t.kids| { KidsSizeChange(t, p, kid, i + 1); }
  }

  lemma {:induction false} KidsSizeSame(t: Trie, u: Trie, i: nat)
    requires t.Node? && u.Node? && t.kids == u.kids && i <= |t.kids|
    ensures KidsSize(t, i) == KidsSize(u, i)
    decreases |t.kids| - i
  {
    if i < |t.kids| { KidsSizeSame(t, u, i + 1); }
  }

  /** A change of data never moves anything. */
  lemma {:induction false} SizeUpdated(t: Trie, s: seq<int>, d: int)
    requires t.Node? && Wf(t) && s != []
    ensures Size(Updated(t, s, d)) == Size(t)
    decreases |s|
  {
    var p := LowerBound(t.keys, s[0], 0);
    if HasKey(t.keys, s[0], p) {
      if |s| == 1 {
        KidsSizeSame(t, Updated(t, s, d), 0);
      } else if t.kids[p].Node? {
        SizeUpdated(t.kids[p], s[1..], d);
        KidsSizeChange(t, p, Updated(t.kids[p], s[1..], d), 0);
      }
    }
  }

  lemma DataChanged(c: seq<int>, pos: nat, t: Trie, p: nat, d: int)
    requires t.Node? && Stored(c, pos, t) && p < |t.data|
    ensures DataCell(t, pos, p) < |c| && Stored(c[DataCell(t, pos, p) := d], pos, t.(data := t.data[p := d]))
  {
    var e, u := c[DataCell(t, pos, p) := d], t.(data := t.data[p := d]);
    KidsSizeSame(t, u, 0);
    HeaderDataChanged(c, pos, t, p, d);
    forall i | 0 <= i < |u.kids| ensures KidStored(e, pos, u, i) {
      assert KidStored(c, pos, t, i);
      KidDataChanged(c, pos, t, p, d, i);
    }
    assert Stored(e, pos, u);
  }

  lemma HeaderDataChanged(c: seq<int>, pos: nat, t: Trie, p: nat, d: int)
    requires t.Node? && HeaderAt(c, pos, t) && p < |t.data|
    ensures HeaderAt(c[DataCell(t, pos, p) := d], pos, t.(data := t.data[p := d]))
  {
  }

  lemma KidDataChanged(c: seq<int>, pos: nat, t: Trie, p: nat, d: int, i: nat)
    requires t.Node? && p < |t.data| && i < |t.kids| && pos + Size(t) <= |c| && KidStored(c, pos, t, i)
    ensures KidStored(c[DataCell(t, pos, p) := d], pos, t.(data := t.data[p := d]), i)
  {
    KidInside(t, pos, i);
    KidsSizeSame(t, t.(data := t.data[p := d]), i + 1);
    if t.kids[i].Node? { StoredFrame(c, c[DataCell(t, pos, p) := d], KidAt(t, pos, i), t.kids[i]); }
  }

  /** The two files differ inside [lo, hi) only. */
  ghost predicate Outside(c: seq<int>, d: seq<int>, lo: nat, hi: nat) {
    |c| == |d| && forall k :: 0 <= k < |c| && !(lo <= k < hi) ==> c[k] == d[k]
  }

  lemma KidChanged(c: seq<int>, d: seq<int>, pos: nat, t: Trie, p: nat, kid: Trie)
    requires t.Node? && Stored(c, pos, t) && p < |t.kids| && t.kids[p].Node? && kid.Node?
    requires Size(kid) == Size(t.kids[p]) && Stored(d, KidAt(t, pos, p), kid)
    requires Outside(c, d, KidAt(t, pos, p), KidAt(t, pos, p) + Size(kid))
    ensures Stored(d, pos, t.(kids := t.kids[p := kid]))
    ensures Outside(c, d, pos, pos + Size(t))
  {
    var u := t.(kids := t.kids[p := kid]);
    KidsSizeChange(t, p, kid, 0);
    KidInside(t, pos, p);
    HeaderKept(c, d, pos, t, p, kid);
    forall i | 0 <= i < |u.kids| ensures KidStored(d, pos, u, i) {
      KidsSizeChange(t, p, kid, i + 1);
      assert KidStored(c, pos, t, i) && KidStored(c, pos, t, p);
      if i != p && t.kids[i].Node? { OtherKid(c, d, pos, t, p, i); }
    }
    assert Stored(d, pos, u);
  }

  lemma HeaderKept(c: seq<int>, d: seq<int>, pos: nat, t: Trie, p: nat, kid: Trie)
    requires t.Node? && HeaderAt(c, pos, t) && p < |t.kids| && |c| == |d|
    requires forall k :: pos <= k < pos + Len(t) ==> c[k] == d[k]
    ensures HeaderAt(d, pos, t.(kids := t.kids[p := kid]))
  {
  }

  /** Two children never overlap. */
  lemma SiblingBeyond(t: Trie, pos: nat, p: nat, i: nat)
    requires t.Node? && p < |t.kids| && i < |t.kids| && i != p
    ensures KidAt(t, pos, i) + Size(t.kids[i]) <= KidAt(t, pos, p) || KidAt(t, pos, p) + Size(t.kids[p]) <= KidAt(t, pos, i)
  {
    if i < p { KidsShrink(t, i + 1, p); } else { KidsShrink(t, p + 1, i); }
  }

  lemma OtherKid(c: seq<int>, d: seq<int>, pos: nat, t: Trie, p: nat, i: nat)
    requires t.Node? && Stored(c, pos, t) && p < |t.kids| && i < |t.kids| && i != p && t.kids[i].Node?
    requires Outside(c, d, KidAt(t, pos, p), KidAt(t, pos, p) + Size(t.kids[p]))
    ensures Stored(d, KidAt(t, pos, i), t.kids[i])
  {
    assert KidStored(c, pos, t, i);
    KidInside(t, pos, i);
    SiblingBeyond(t, pos, p, i);
    StoredFrame(c, d, KidAt(t, pos, i), t.kids[i]);
  }
}
