/** Prefix trees as values: lookup and insertion (moses/src/PrefixTree.h). */
module Tries {
  /** The value of a tree.  A null child pointer is Nil. */
  datatype Trie = Nil | Node(keys: seq<int>, data: seq<int>, kids: seq<Trie>)

  datatype Option = None | Some(value: int)

  const EMPTY: Trie := Node([], [], [])

  /** Named so that two keys are only compared where that is asked for. */
  ghost predicate Less(keys: seq<int>, i: nat, j: nat)
    requires i < |keys| && j < |keys|
  {
    keys[i] < keys[j]
  }

  ghost predicate Ascending(keys: seq<int>) {
    forall i: nat, j: nat :: i < j < |keys| ==> Less(keys, i, j)
  }

  ghost predicate Wf(t: Trie) {
    t.Node? ==>
      (|t.keys| == |t.data| == |t.kids| && Ascending(t.keys) && forall i :: 0 <= i < |t.kids| ==> Wf(t.kids[i]))
  }

  /** std::lower_bound. */
  function LowerBound(keys: seq<int>, k: int, from: nat): (p: nat)
    requires from <= |keys|
    ensures from <= p <= |keys| && (p < |keys| ==> k <= keys[p])
    ensures forall i :: from <= i < p ==> keys[i] < k
    decreases |keys| - from
  {
    if from < |keys| && keys[from] < k then LowerBound(keys, k, from + 1) else from
  }

  predicate HasKey(keys: seq<int>, k: int, p: nat) {
    p < |keys| && keys[p] == k
  }

  // ---------------------------------------------------------------- lookup and insertion as functions

  /** findPtr on a non-empty key sequence. */
  function FindPtr(t: Trie, s: seq<int>): Option
    requires s != []
    requires Wf(t)
  {
    if t.Nil? then None
    else
      var p := LowerBound(t.keys, s[0], 0);
      if !HasKey(t.keys, s[0], p) then None
      else if |s| == 1 then Some(t.data[p])
      else FindPtr(t.kids[p], s[1..])
  }

  /** find: a missing entry reads as the default. */
  function Find(t: Trie, s: seq<int>, def: int): int
    requires s != [] && Wf(t)
  {
    if FindPtr(t, s).Some? then FindPtr(t, s).value else def
  }

  /** A key is inserted with the default value and no child, unless it is there already. */
  function WithKey(t: Trie, k: int, def: int): (r: Trie)
    requires t.Node? && Wf(t)
    ensures r.Node? && Wf(r)
  {
    var p := LowerBound(t.keys, k, 0);
    if HasKey(t.keys, k, p) then t
    else
      var r := Node(t.keys[..p] + [k] + t.keys[p..], t.data[..p] + [def] + t.data[p..], t.kids[..p] + [Nil] + t.kids[p..]);
      AscendingWithKey(t.keys, k);
      assert forall i :: 0 <= i < |r.kids| ==> r.kids[i] == if i < p then t.kids[i] else if i == p then Nil else t.kids[i - 1];
      r
  }

  /** The node in which insert places the first key. */
  function Opened(t: Trie, k: int, def: int): (u: Trie)
    requires Wf(t)
    ensures u.Node? && Wf(u) && HasKey(u.keys, k, LowerBound(u.keys, k, 0))
  {
    WithKeyHasKey(if t.Nil? then EMPTY else t, k, def);
    WithKey(if t.Nil? then EMPTY else t, k, def)
  }

  /** insert, followed by the caller's update f of the data item that insert returns a reference to. */
  function Insert(t: Trie, s: seq<int>, def: int, f: int -> int): (r: Trie)
    requires s != [] && Wf(t)
    ensures r.Node? && Wf(r)
    decreases |s|
  {
    var u := Opened(t, s[0], def);
    var p := LowerBound(u.keys, s[0], 0);
    if |s| == 1 then u.(data := u.data[p := f(u.data[p])])
    else u.(kids := u.kids[p := Insert(u.kids[p], s[1..], def, f)])
  }

  lemma KeyIsAt(keys: seq<int>, k: int, p: nat)
    requires Ascending(keys) && HasKey(keys, k, p)
    ensures LowerBound(keys, k, 0) == p
  {
    var q := LowerBound(keys, k, 0);
    assert q < p ==> Less(keys, q, p);
  }

  lemma AscendingWithKey(keys: seq<int>, k: int)
    requires Ascending(keys) && !HasKey(keys, k, LowerBound(keys, k, 0))
    ensures var p := LowerBound(keys, k, 0); Ascending(keys[..p] + [k] + keys[p..])
  {
    var p := LowerBound(keys, k, 0);
    var more := keys[..p] + [k] + keys[p..];
    forall i: nat, j: nat | i < j < |more| ensures Less(more, i, j) {
      if i != p && j != p { assert Less(keys, if i < p then i else i - 1, if j < p then j else j - 1); }
      if i == p && j > p + 1 { assert Less(keys, p, j - 1); }
    }
  }

  lemma WithKeyHasKey(t: Trie, k: int, def: int)
    requires t.Node? && Wf(t)
    ensures var u := WithKey(t, k, def); HasKey(u.keys, k, LowerBound(u.keys, k, 0))
  {
    var p := LowerBound(t.keys, k, 0);
    if !HasKey(t.keys, k, p) {
      AscendingWithKey(t.keys, k);
      KeyIsAt(t.keys[..p] + [k] + t.keys[p..], k, p);
    }
  }

  /** Inserting a key makes it readable with the default value and changes nothing else. */
  lemma FindWithKey(t: Trie, k: int, def: int, q: seq<int>)
    requires t.Node? && Wf(t) && q != []
    ensures FindPtr(WithKey(t, k, def), q)
         == if q == [k] && FindPtr(t, q).None? then Some(def) else FindPtr(t, q)
  {
    var p, u := LowerBound(t.keys, k, 0), WithKey(t, k, def);
    if !HasKey(t.keys, k, p) {
      KeyIsAt(u.keys, k, p);
      var j := LowerBound(t.keys, q[0], 0);
      if HasKey(t.keys, q[0], j) {
        KeyIsAt(u.keys, q[0], if j < p then j else j + 1);
      } else if q[0] != k {
        AbsentStays(t.keys, k, p, q[0]);
      }
    }
  }

  lemma AbsentStays(keys: seq<int>, k: int, p: nat, other: int)
    requires Ascending(keys) && p <= |keys| && Ascending(keys[..p] + [k] + keys[p..])
    requires other != k && !HasKey(keys, other, LowerBound(keys, other, 0))
    ensures var more := keys[..p] + [k] + keys[p..]; !HasKey(more, other, LowerBound(more, other, 0))
  {
    var more := keys[..p] + [k] + keys[p..];
    var i := LowerBound(more, other, 0);
    if HasKey(more, other, i) {
      KeyIsAt(keys, other, if i < p then i else i - 1);
    }
  }

  lemma FindOpened(t: Trie, k: int, def: int, q: seq<int>)
    requires Wf(t) && q != []
    ensures FindPtr(Opened(t, k, def), q) == if q == [k] && FindPtr(t, q).None? then Some(def) else FindPtr(t, q)
  {
    FindWithKey(if t.Nil? then EMPTY else t, k, def, q);
  }

  lemma InsertElsewhere(t: Trie, s: seq<int>, def: int, f: int -> int, q: seq<int>)
    requires s != [] && q != [] && Wf(t) && q[0] != s[0]
    ensures FindPtr(Insert(t, s, def, f), q) == FindPtr(t, q)
  {
    FindOpened(t, s[0], def, q);
  }

  lemma InsertOneKey(t: Trie, s: seq<int>, def: int, f: int -> int, q: seq<int>)
    requires s != [] && q != [] && Wf(t) && q[0] == s[0] && (|s| == 1 || |q| == 1)
    ensures FindPtr(Insert(t, s, def, f), q)
         == if |s| == |q| then Some(f(Find(t, s, def))) else FindPtr(Opened(t, s[0], def), q)
  {
    var u := Opened(t, s[0], def);
    var p, r := LowerBound(u.keys, s[0], 0), Insert(t, s, def, f);
    FindHead(u, q, p);
    FindHead(r, q, p);
    if |s| == |q| {
      FindHead(u, s, p);
      FindOpened(t, s[0], def, s);
    }
  }

  lemma FindHead(t: Trie, q: seq<int>, p: nat)
    requires t.Node? && Wf(t) && q != [] && HasKey(t.keys, q[0], p)
    ensures FindPtr(t, q) == if |q| == 1 then Some(t.data[p]) else FindPtr(t.kids[p], q[1..])
  {
    KeyIsAt(t.keys, q[0], p);
  }

  lemma InsertBelow(t: Trie, s: seq<int>, def: int, f: int -> int, q: seq<int>) returns (kid: Trie)
    requires Wf(t) && |q| > 1 && |s| > 1 && q[0] == s[0]
    ensures Wf(kid) && FindPtr(Insert(t, s, def, f), q) == FindPtr(Insert(kid, s[1..], def, f), q[1..])
    ensures FindPtr(t, s) == FindPtr(kid, s[1..]) && FindPtr(t, q) == FindPtr(kid, q[1..])
  {
    var u := Opened(t, s[0], def);
    kid := u.kids[LowerBound(u.keys, s[0], 0)];
    FindOpened(t, s[0], def, q);
    FindOpened(t, s[0], def, s);
  }

  lemma OneKeyOrder(q: seq<int>, s: seq<int>)
    requires q != [] && s != [] && q[0] == s[0] && (|s| == 1 || |q| == 1)
    ensures (q == s <==> |q| == |s|) && (q < s <==> |q| < |s|) && (q == [s[0]] <==> |q| == 1)
  {
  }

  lemma SameHeadOrder(q: seq<int>, s: seq<int>)
    requires q != [] && s != [] && q[0] == s[0]
    ensures (q == s <==> q[1..] == s[1..]) && (q < s <==> q[1..] < s[1..])
  {
    assert q == [q[0]] + q[1..] && s == [s[0]] + s[1..];
  }

  /** After insert the sequence has its updated value, its proper prefixes are readable (with the default
      value if they were not there), and every other sequence reads as before. */
  lemma {:induction false} FindAfterInsert(t: Trie, s: seq<int>, def: int, f: int -> int, q: seq<int>)
    requires s != [] && q != [] && Wf(t)
    ensures FindPtr(Insert(t, s, def, f), q)
         == if q == s then Some(f(Find(t, s, def)))
            else if q < s && FindPtr(t, q).None? then Some(def)
            else FindPtr(t, q)
    decreases |s|
  {
    if q[0] != s[0] {
      InsertElsewhere(t, s, def, f, q);
    } else if |s| == 1 || |q| == 1 {
      InsertOneKey(t, s, def, f, q);
      FindOpened(t, s[0], def, q);
      OneKeyOrder(q, s);
    } else {
      var kid := InsertBelow(t, s, def, f, q);
      FindAfterInsert(kid, s[1..], def, f, q[1..]);
      SameHeadOrder(q, s);
    }
  }

  /** A missing child is replaced by an empty node. */
  function Grown(t: Trie, p: nat): (r: Trie)
    requires t.Node? && Wf(t) && p < |t.kids|
    ensures r.Node? && Wf(r) && |r.kids| == |t.kids|
  {
    if t.kids[p].Nil? then t.(kids := t.kids[p := EMPTY]) else t
  }

  /** Insertion of one key, in the steps the code takes. */
  lemma InsertLastStep(t: Trie, s: seq<int>, def: int, f: int -> int, p: nat)
    requires t.Node? && Wf(t) && |s| == 1 && p == LowerBound(WithKey(t, s[0], def).keys, s[0], 0)
    ensures var u := WithKey(t, s[0], def);
            p < |u.keys| && Insert(t, s, def, f) == u.(data := u.data[p := f(u.data[p])]) && Find(t, s, def) == u.data[p]
  {
    var u := WithKey(t, s[0], def);
    WithKeyHasKey(t, s[0], def);
    FindWithKey(t, s[0], def, s);
    FindHead(u, s, p);
    assert s == [s[0]];
  }

  /** Insertion of several keys: make room for the first one, then insert the others into the child. */
  lemma InsertDeepStep(t: Trie, s: seq<int>, def: int, f: int -> int, p: nat)
    requires t.Node? && Wf(t) && |s| > 1 && p == LowerBound(WithKey(t, s[0], def).keys, s[0], 0)
    ensures p < |WithKey(t, s[0], def).keys|
    ensures var g := Grown(WithKey(t, s[0], def), p);
            Insert(t, s, def, f) == g.(kids := g.kids[p := Insert(g.kids[p], s[1..], def, f)])
            && Find(t, s, def) == Find(g.kids[p], s[1..], def)
  {
    var u := WithKey(t, s[0], def);
    WithKeyHasKey(t, s[0], def);
    assert Opened(t, s[0], def) == u;
    FindBelow(t, s, def, p);
    InsertIntoKid(u, p, s[1..], def, f);
  }

  lemma FindBelow(t: Trie, s: seq<int>, def: int, p: nat)
    requires t.Node? && Wf(t) && |s| > 1 && HasKey(WithKey(t, s[0], def).keys, s[0], p)
    ensures FindPtr(t, s) == FindPtr(WithKey(t, s[0], def).kids[p], s[1..])
  {
    FindWithKey(t, s[0], def, s);
    FindHead(WithKey(t, s[0], def), s, p);
  }

  lemma InsertIntoKid(u: Trie, p: nat, s: seq<int>, def: int, f: int -> int)
    requires u.Node? && Wf(u) && p < |u.kids| && s != []
    ensures var g := Grown(u, p);
            u.(kids := u.kids[p := Insert(u.kids[p], s, def, f)]) == g.(kids := g.kids[p := Insert(g.kids[p], s, def, f)])
            && FindPtr(u.kids[p], s) == FindPtr(g.kids[p], s)
  {
    if u.kids[p].Nil? {
      var x := Insert(EMPTY, s, def, f);
      assert Insert(Nil, s, def, f) == x;
      assert u.kids[p := EMPTY][p := x] == u.kids[p := x];
    }
  }

  // ---------------------------------------------------------------- changing one value

  /** changeData: an existing entry gets a new value; nothing happens to a missing one. */
  function Updated(t: Trie, s: seq<int>, d: int): (r: Trie)
    requires t.Node? && Wf(t) && s != []
    ensures r.Node? && Wf(r)
    decreases |s|
  {
    var p := LowerBound(t.keys, s[0], 0);
    if !HasKey(t.keys, s[0], p) then t
    else if |s| == 1 then t.(data := t.data[p := d])
    else if t.kids[p].Nil? then t
    else t.(kids := t.kids[p := Updated(t.kids[p], s[1..], d)])
  }

  lemma UpdatedBelow(t: Trie, s: seq<int>, d: int, p: nat)
    requires t.Node? && Wf(t) && |s| > 1 && HasKey(t.keys, s[0], p)
    ensures p == LowerBound(t.keys, s[0], 0) && FindPtr(t, s) == FindPtr(t.kids[p], s[1..])
    ensures Updated(t, s, d)
         == if t.kids[p].Nil? then t else t.(kids := t.kids[p := Updated(t.kids[p], s[1..], d)])
  {
    KeyIsAt(t.keys, s[0], p);
  }

  lemma {:induction false} FindAfterUpdate(t: Trie, s: seq<int>, d: int, q: seq<int>)
    requires t.Node? && Wf(t) && s != [] && q != []
    ensures FindPtr(Updated(t, s, d), q) == if q == s && FindPtr(t, s).Some? then Some(d) else FindPtr(t, q)
    decreases |s|
  {
    var p := LowerBound(t.keys, s[0], 0);
    if HasKey(t.keys, s[0], p) && q[0] == s[0] {
      if |s| == 1 || |q| == 1 {
        OneKeyOrder(q, s);
      } else {
        SameHeadOrder(q, s);
        if t.kids[p].Node? { FindAfterUpdate(t.kids[p], s[1..], d, q[1..]); }
      }
    }
  }

  // ---------------------------------------------------------------- walking key by key

  /** findKey: the number of keys stands for "not there". */
  function FindKey(t: Trie, k: int): nat
    requires t.Node? && Wf(t)
  {
    var p := LowerBound(t.keys, k, 0);
    if HasKey(t.keys, k, p) then p else |t.keys|
  }

  /** The node reached along a. */
  function SubTrie(t: Trie, a: seq<int>): (r: Trie)
    requires Wf(t)
    ensures Wf(r)
  {
    if a == [] || t.Nil? then t
    else
      var p := FindKey(t, a[0]);
      if p == |t.keys| then Nil else SubTrie(t.kids[p], a[1..])
  }

  /** One key more leads one node down. */
  lemma {:induction false} SubTrieStep(t: Trie, a: seq<int>, k: int)
    requires Wf(t)
    ensures var u := SubTrie(t, a);
            SubTrie(t, a + [k]) == if u.Nil? || FindKey(u, k) == |u.keys| then Nil else u.kids[FindKey(u, k)]
    decreases |a|
  {
    if a == [] {
      assert a + [k] == [k] && [k][1..] == [];
    } else {
      assert (a + [k])[1..] == a[1..] + [k] && (a + [k])[0] == a[0];
      if t.Node? && FindKey(t, a[0]) < |t.keys| {
        SubTrieStep(t.kids[FindKey(t, a[0])], a[1..], k);
      }
    }
  }

  /** The entry of a + [k] is the one at k in the node reached along a. */
  lemma {:induction false} FindBySubTrie(t: Trie, a: seq<int>, k: int)
    requires Wf(t)
    ensures var u := SubTrie(t, a);
            FindPtr(t, a + [k]) == if u.Nil? || FindKey(u, k) == |u.keys| then None else Some(u.data[FindKey(u, k)])
    decreases |a|
  {
    if a == [] {
      assert a + [k] == [k];
    } else {
      assert (a + [k])[1..] == a[1..] + [k] && (a + [k])[0] == a[0];
      if t.Node? && FindKey(t, a[0]) < |t.keys| {
        FindBySubTrie(t.kids[FindKey(t, a[0])], a[1..], k);
      }
    }
  }

  /** Below a missing entry everything is missing. */
  lemma {:induction false} MissingStays(t: Trie, s: seq<int>, r: seq<int>)
    requires Wf(t) && s != [] && FindPtr(t, s) == None
    ensures FindPtr(t, s + r) == None
    decreases |s|
  {
    assert (s + r)[0] == s[0];
    if t.Node? && FindKey(t, s[0]) < |t.keys| {
      assert (s + r)[1..] == s[1..] + r;
      MissingStays(t.kids[FindKey(t, s[0])], s[1..], r);
    }
  }
}
