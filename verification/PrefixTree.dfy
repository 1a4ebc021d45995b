/** The in-memory prefix tree (moses/src/PrefixTree.h, PrefixTreeSA). */
module PrefixTree {
  import opened Tries

  class PrefixTreeSA {
    var keys: seq<int>
    var ptr: seq<PrefixTreeSA?>
    var data: seq<int>
    ghost var Repr: set<PrefixTreeSA>
    ghost var tree: Trie

    /** This node alone: its fields are those of the tree's root. */
    ghost predicate NodeOf()
      reads this
    {
      && tree.Node? && tree.keys == keys && tree.data == data
      && |keys| == |ptr| == |data| == |tree.kids| && Ascending(keys)
    }

    /** Pointer c represents kid t, in a part of the heap of its own. */
    static ghost predicate ChildOf(c: PrefixTreeSA?, t: Trie, within: set<PrefixTreeSA>)
      reads within
      decreases within, 2
    {
      if c == null then t == Nil
      else c in within && c.Repr <= within && c.Valid() && c.tree == t
    }

    static ghost predicate Apart(c: PrefixTreeSA?, d: PrefixTreeSA?, within: set<PrefixTreeSA>)
      reads within
    {
      c in within && d in within ==> c.Repr !! d.Repr
    }

    static ghost predicate Children(ptr: seq<PrefixTreeSA?>, kids: seq<Trie>, within: set<PrefixTreeSA>)
      reads within
      decreases within, 3
    {
      && |ptr| == |kids|
      && (forall i :: 0 <= i < |ptr| ==> ChildOf(ptr[i], kids[i], within))
      && (forall i: nat, j: nat {:trigger Apart(ptr[i], ptr[j], within)} :: i < j < |ptr| ==> Apart(ptr[i], ptr[j], within))
    }

    static lemma RoomForChild(ptr: seq<PrefixTreeSA?>, kids: seq<Trie>, within: set<PrefixTreeSA>, p: nat)
      requires Children(ptr, kids, within) && p <= |ptr|
      ensures Children(ptr[..p] + [null] + ptr[p..], kids[..p] + [Nil] + kids[p..], within)
    {
      var more := ptr[..p] + [null] + ptr[p..];
      forall i: nat, j: nat | i < j < |more| ensures Apart(more[i], more[j], within) {
        if i != p && j != p {
          assert Apart(ptr[if i < p then i else i - 1], ptr[if j < p then j else j - 1], within);
        }
      }
    }

    static lemma ChildAdded(ptr: seq<PrefixTreeSA?>, kids: seq<Trie>, within: set<PrefixTreeSA>, p: nat, c: PrefixTreeSA)
      requires Children(ptr, kids, within) && p < |ptr|
      requires c.Valid() && c.Repr !! within
      ensures Children(ptr[p := c], kids[p := c.tree], within + c.Repr)
    {
      var cs, ks, w := ptr[p := c], kids[p := c.tree], within + c.Repr;
      forall i | 0 <= i < |cs| ensures ChildOf(cs[i], ks[i], w) {
        assert ChildOf(ptr[i], kids[i], within);
      }
      forall i: nat, j: nat | i < j < |cs| ensures Apart(cs[i], cs[j], w) {
        assert Apart(ptr[i], ptr[j], within) && ChildOf(ptr[i], kids[i], within) && ChildOf(ptr[j], kids[j], within);
      }
    }

    /** The children except the p-th, in a part of the heap that the p-th does not touch. */
    static ghost predicate Others(ptr: seq<PrefixTreeSA?>, kids: seq<Trie>, rest: set<PrefixTreeSA>, p: nat)
      reads rest
    {
      && |ptr| == |kids|
      && (forall i :: 0 <= i < |ptr| && i != p ==> ChildOf(ptr[i], kids[i], rest))
      && (forall i: nat, j: nat {:trigger Apart(ptr[i], ptr[j], rest)} ::
            i < j < |ptr| && i != p && j != p ==> Apart(ptr[i], ptr[j], rest))
    }

    static lemma SetApart(ptr: seq<PrefixTreeSA?>, kids: seq<Trie>, within: set<PrefixTreeSA>, p: nat)
      requires Children(ptr, kids, within) && p < |ptr| && ptr[p] != null
      ensures ptr[p] in within && ptr[p].Repr <= within && ptr[p].Valid() && ptr[p].tree == kids[p]
      ensures Others(ptr, kids, within - ptr[p].Repr, p)
    {
      assert ChildOf(ptr[p], kids[p], within);
      var rest := within - ptr[p].Repr;
      forall i | 0 <= i < |ptr| && i != p ensures ChildOf(ptr[i], kids[i], rest) {
        assert ChildOf(ptr[i], kids[i], within) && Apart(ptr[if i < p then i else p], ptr[if i < p then p else i], within);
      }
      forall i: nat, j: nat | i < j < |ptr| && i != p && j != p ensures Apart(ptr[i], ptr[j], rest) {
        assert Apart(ptr[i], ptr[j], within);
      }
    }

    static lemma JoinAgain(ptr: seq<PrefixTreeSA?>, kids: seq<Trie>, rest: set<PrefixTreeSA>, p: nat)
      requires Others(ptr, kids, rest, p) && p < |ptr| && ptr[p] != null && ptr[p].Valid() && ptr[p].Repr !! rest
      ensures Children(ptr, kids[p := ptr[p].tree], rest + ptr[p].Repr)
    {
      var w, ks := rest + ptr[p].Repr, kids[p := ptr[p].tree];
      forall i | 0 <= i < |ptr| ensures ChildOf(ptr[i], ks[i], w) {
        if i != p { assert ChildOf(ptr[i], kids[i], rest); }
      }
      forall i: nat, j: nat | i < j < |ptr| ensures Apart(ptr[i], ptr[j], w) {
        if i != p { assert ChildOf(ptr[i], kids[i], rest); }
        if j != p { assert ChildOf(ptr[j], kids[j], rest); }
        assert i != p && j != p ==> Apart(ptr[i], ptr[j], rest);
      }
    }

    ghost predicate Valid()
      reads this, Repr
      ensures Valid() ==> this in Repr && Wf(tree) && tree.Node?
      decreases Repr, 1
    {
      this in Repr && NodeOf() && Children(ptr, tree.kids, Repr - {this}) && Wf(tree)
    }

    constructor ()
      ensures Valid() && fresh(Repr) && tree == EMPTY
    {
      keys, ptr, data := [], [], [];
      Repr, tree := {this}, EMPTY;
    }

    /** findPtr */
    method FindPtr(s: seq<int>) returns (r: Option)
      requires s != [] && Valid()
      ensures r == Tries.FindPtr(tree, s)
      decreases |s|
    {
      var p := LowerBound(keys, s[0], 0);
      if !HasKey(keys, s[0], p) { return None; }
      if |s| == 1 { return Some(data[p]); }
      assert ChildOf(ptr[p], tree.kids[p], Repr - {this});
      if ptr[p] == null { return None; }
      r := ptr[p].FindPtr(s[1..]);
    }

    /** find */
    method Find(s: seq<int>, def: int) returns (d: int)
      requires s != [] && Valid()
      ensures d == Tries.Find(tree, s, def)
    {
      var r := FindPtr(s);
      d := if r.Some? then r.value else def;
    }

    /** The first step of insert: room for the key. */
    method Open(k: int, def: int) returns (p: nat)
      requires Valid()
      modifies this
      ensures Valid() && tree == WithKey(old(tree), k, def) && Repr == old(Repr)
      ensures p == LowerBound(keys, k, 0) && HasKey(keys, k, p)
    {
      p := LowerBound(keys, k, 0);
      WithKeyHasKey(tree, k, def);
      if !HasKey(keys, k, p) {
        KeyIsAt(keys[..p] + [k] + keys[p..], k, p);
        RoomForChild(ptr, tree.kids, Repr - {this}, p);
        tree := WithKey(tree, k, def);
        keys := keys[..p] + [k] + keys[p..];
        data := data[..p] + [def] + data[p..];
        ptr := ptr[..p] + [null] + ptr[p..];
      }
    }

    /** The recursive half of insert: the other keys go into the child at p. */
    method InsertBelow(p: nat, s: seq<int>, def: int, f: int -> int) returns (was: int)
      requires s != [] && Valid() && p < |ptr| && ptr[p] != null
      modifies Repr
      ensures Valid() && fresh(Repr - old(Repr))
      ensures tree == old(tree).(kids := old(tree).kids[p := Tries.Insert(old(tree).kids[p], s, def, f)])
      ensures was == Tries.Find(old(tree).kids[p], s, def)
      decreases |s|, 2
    {
      ghost var rest := Repr - {this} - ptr[p].Repr;
      SetApart(ptr, tree.kids, Repr - {this}, p);
      was := ptr[p].Insert(s, def, f);
      JoinAgain(ptr, tree.kids, rest, p);
      tree := tree.(kids := tree.kids[p := ptr[p].tree]);
      Repr := {this} + rest + ptr[p].Repr;
      assert Repr - {this} == rest + ptr[p].Repr;
    }

    /** Gives the child at p a node if it has none. */
    method Grow(p: nat)
      requires Valid() && p < |ptr|
      modifies this
      ensures Valid() && fresh(Repr - old(Repr)) && |ptr| == old(|ptr|) && ptr[p] != null
      ensures tree == Grown(old(tree), p)
    {
      assert ChildOf(ptr[p], tree.kids[p], Repr - {this});
      if ptr[p] == null {
        var child := new PrefixTreeSA();
        ChildAdded(ptr, tree.kids, Repr - {this}, p, child);
        ptr := ptr[p := child];
        tree := tree.(kids := tree.kids[p := EMPTY]);
        Repr := Repr + child.Repr;
        assert Repr - {this} == old(Repr) - {this} + child.Repr;
      }
    }

    /** insert, with the caller's update of the returned reference. */
    method Insert(s: seq<int>, def: int, f: int -> int) returns (was: int)
      requires s != [] && Valid()
      modifies Repr
      ensures Valid() && fresh(Repr - old(Repr))
      ensures tree == Tries.Insert(old(tree), s, def, f)
      ensures was == Tries.Find(old(tree), s, def)
      decreases |s|, 1
    {
      var p := Open(s[0], def);
      if |s| == 1 {
        InsertLastStep(old(tree), s, def, f, p);
        was := data[p];
        data := data[p := f(was)];
        tree := tree.(data := data);
      } else {
        InsertDeepStep(old(tree), s, def, f, p);
        Grow(p);
        was := InsertBelow(p, s[1..], def, f);
      }
    }
  }
}
