/** The search graph behind the final stack, and the best way to finish each of its hypotheses
    (moses/src/Manager.cpp, GetConnectedGraph and GetSearchGraph). */
module SearchGraph {
  type Id = nat

  /** A hypothesis: the one it extends, the hypotheses that lost against it, its score so far and the number of
      source words it covers. */
  datatype Hypo = Hypo(prev: Id, arcs: seq<Id>, score: real, covered: nat)

  /** All hypotheses by id, number 0 being the empty one, and the stacks by number of words covered. */
  datatype Search = Search(hypos: seq<Hypo>, stacks: seq<seq<Id>>)

  ghost predicate InStack(s: Search, h: Id) {
    h < |s.hypos| && s.hypos[h].covered < |s.stacks| && h in s.stacks[s.hypos[h].covered]
  }

  ghost predicate Distinct(l: seq<Id>) {
    forall i, j :: 0 <= i < j < |l| ==> l[i] != l[j]
  }

  /** What the search leaves behind: a stack hypothesis was extended by hypotheses with more coverage; arcs hang
      on stack hypotheses of the same coverage and are in no stack. */
  ghost predicate WellFormed(s: Search) {
    && |s.stacks| >= 2 && |s.hypos| > 0 && s.hypos[0].covered == 0
    && (forall k, i :: 0 <= k < |s.stacks| && 0 <= i < |s.stacks[k]| ==>
          s.stacks[k][i] < |s.hypos| && s.hypos[s.stacks[k][i]].covered == k)
    && (forall k :: 0 <= k < |s.stacks| ==> Distinct(s.stacks[k]))
    && (forall h :: 0 <= h < |s.hypos| ==> HypoOk(s, h))
  }

  ghost predicate HypoOk(s: Search, h: Id)
    requires h < |s.hypos|
  {
    var hypo := s.hypos[h];
    && hypo.covered < |s.stacks|
    && (h > 0 ==> InStack(s, hypo.prev) && s.hypos[hypo.prev].covered < hypo.covered)
    && (hypo.arcs != [] ==> h > 0 && InStack(s, h))
    && forall i :: 0 <= i < |hypo.arcs| ==>
         0 < hypo.arcs[i] < |s.hypos| && s.hypos[hypo.arcs[i]].covered == hypo.covered && !InStack(s, hypo.arcs[i])
  }

  function Final(s: Search): seq<Id>
    requires |s.stacks| > 0
  {
    s.stacks[|s.stacks| - 1]
  }

  // ---------------------------------------------------------------- connected hypotheses

  ghost predicate StepsBack(s: Search, h: Id, g: Id) {
    h < |s.hypos| && ((g == s.hypos[h].prev && g > 0) || g in s.hypos[h].arcs)
  }

  /** From a final hypothesis backwards, over back pointers and arcs, never to the empty hypothesis. */
  ghost predicate Chain(s: Search, c: seq<Id>)
    requires WellFormed(s)
  {
    && c != [] && c[0] in Final(s)
    && forall i :: 0 < i < |c| ==> StepsBack(s, c[i - 1], c[i])
  }

  ghost predicate Connected(s: Search, h: Id)
    requires WellFormed(s)
  {
    exists c :: Chain(s, c) && c[|c| - 1] == h
  }

  lemma ConnectedStep(s: Search, h: Id, g: Id)
    requires WellFormed(s) && h < |s.hypos| && g < |s.hypos| && Connected(s, h) && StepsBack(s, h, g)
    ensures Connected(s, g)
  {
    var c :| Chain(s, c) && c[|c| - 1] == h;
    var d := c + [g];
    assert Chain(s, d) && d[|d| - 1] == g;
  }

  lemma FinalIsConnected(s: Search, h: Id)
    requires WellFormed(s) && h in Final(s)
    ensures 0 < h < |s.hypos| && Connected(s, h)
  {
    var k := |s.stacks| - 1;
    var i :| 0 <= i < |s.stacks[k]| && s.stacks[k][i] == h;
    assert Chain(s, [h]) && [h][0] == h;
  }

  /** No member of the list before the i-th steps back to a hypothesis outside it. */
  ghost predicate ClosedUpTo(s: Search, l: seq<Id>, i: nat)
    requires i <= |l|
  {
    forall k, g :: 0 <= k < i && StepsBack(s, l[k], g) ==> g in l
  }

  lemma {:induction false} ClosedHoldsChain(s: Search, l: seq<Id>, c: seq<Id>, k: nat)
    requires WellFormed(s) && ClosedUpTo(s, l, |l|)
    requires (forall h :: h in Final(s) ==> h in l) && Chain(s, c) && k < |c|
    ensures c[k] in l
  {
    if k > 0 {
      ClosedHoldsChain(s, l, c, k - 1);
      assert StepsBack(s, c[k - 1], c[k]);
    }
  }

  /** The ids on the list are those marked connected, once each, all reached backwards from the final stack. */
  ghost predicate Collected(s: Search, connected: set<Id>, l: seq<Id>)
    requires WellFormed(s)
  {
    && Distinct(l)
    && (forall h :: h in l <==> h in connected)
    && (forall k :: 0 <= k < |l| ==> 0 < l[k] < |s.hypos| && Connected(s, l[k]))
  }

  method AddOnce(s: Search, connected: set<Id>, l: seq<Id>, h: Id) returns (connected': set<Id>, l': seq<Id>)
    requires WellFormed(s) && Collected(s, connected, l) && 0 < h < |s.hypos| && Connected(s, h)
    ensures Collected(s, connected', l') && l <= l' && h in l'
    ensures connected' == connected + {h}
  {
    connected', l' := connected, l;
    if h !in connected {
      connected' := connected + {h};
      l' := l + [h];
    }
  }

  method AddNeighbours(s: Search, connected: set<Id>, l: seq<Id>, h: Id) returns (connected': set<Id>, l': seq<Id>)
    requires WellFormed(s) && Collected(s, connected, l) && h in l
    ensures Collected(s, connected', l') && l <= l'
    ensures forall g :: StepsBack(s, h, g) ==> g in l'
  {
    hide InStack, Connected, Distinct;
    connected', l' := connected, l;
    assert 0 < h < |s.hypos| && Connected(s, h);
    assert HypoOk(s, h);
    var hypo := s.hypos[h];
    if hypo.prev > 0 {
      PrevIsHypo(s, h);
      ConnectedStep(s, h, hypo.prev);
      connected', l' := AddOnce(s, connected', l', hypo.prev);
    }
    var j := 0;
    while j < |hypo.arcs|
      invariant 0 <= j <= |hypo.arcs| && Collected(s, connected', l') && l <= l'
      invariant hypo.prev > 0 ==> hypo.prev in l'
      invariant forall k :: 0 <= k < j ==> hypo.arcs[k] in l'
    {
      ConnectedStep(s, h, hypo.arcs[j]);
      connected', l' := AddOnce(s, connected', l', hypo.arcs[j]);
      j := j + 1;
    }
  }

  lemma PrevIsHypo(s: Search, h: Id)
    requires WellFormed(s) && 0 < h < |s.hypos|
    ensures s.hypos[h].prev < |s.hypos| && InStack(s, s.hypos[h].prev)
    ensures s.hypos[s.hypos[h].prev].covered < s.hypos[h].covered
  {
    assert HypoOk(s, h);
  }

  /** Lists exactly the connected hypotheses, each once. */
  method GetConnectedGraph(s: Search) returns (connected: set<Id>, connectedList: seq<Id>)
    requires WellFormed(s)
    ensures Distinct(connectedList)
    ensures forall h :: h in connectedList <==> h in connected
    ensures forall h :: h in connected <==> Connected(s, h)
    ensures 0 !in connected
  {
    connected, connectedList := {}, [];
    var final := Final(s);
    var f := 0;
    while f < |final|
      invariant 0 <= f <= |final| && connectedList == final[..f] && Collected(s, connected, connectedList)
    {
      FinalIsConnected(s, final[f]);
      connected := connected + {final[f]};
      connectedList := connectedList + [final[f]];
      f := f + 1;
    }
    var i := 0;
    while i < |connectedList|
      invariant i <= |connectedList| && Collected(s, connected, connectedList)
      invariant forall h :: h in final ==> h in connectedList
      invariant ClosedUpTo(s, connectedList, i)
      decreases |s.hypos| - i
    {
      AtMost(connectedList, |s.hypos|);
      ghost var was := connectedList;
      connected, connectedList := AddNeighbours(s, connected, connectedList, connectedList[i]);
      ClosedStep(s, was, connectedList, i);
      i := i + 1;
    }
    ClosedListIsAll(s, connectedList);
  }

  lemma ClosedStep(s: Search, was: seq<Id>, l: seq<Id>, i: nat)
    requires was <= l && i < |was|
    requires ClosedUpTo(s, was, i) && forall g :: StepsBack(s, was[i], g) ==> g in l
    ensures ClosedUpTo(s, l, i + 1)
  {
    forall k, g | 0 <= k < i + 1 && StepsBack(s, l[k], g) ensures g in l {
      assert l[k] == was[k];
      if k < i { assert g in was; }
    }
  }

  lemma ClosedListIsAll(s: Search, l: seq<Id>)
    requires WellFormed(s) && ClosedUpTo(s, l, |l|)
    requires forall h :: h in Final(s) ==> h in l
    ensures forall h :: Connected(s, h) ==> h in l
  {
    forall h | Connected(s, h) ensures h in l {
      var c :| Chain(s, c) && c[|c| - 1] == h;
      ClosedHoldsChain(s, l, c, |c| - 1);
    }
  }

  /** A list without repetitions of ids below n has at most n members. */
  lemma {:induction false} AtMost(l: seq<Id>, n: nat)
    requires Distinct(l) && forall i :: 0 <= i < |l| ==> l[i] < n
    ensures |l| <= n
  {
    if l != [] {
      assert l[0] < n;
      if i :| 0 <= i < |l| && l[i] == n - 1 {
        AtMost(l[..i] + l[i + 1..], n - 1);
      } else {
        AtMost(l, n - 1);
      }
    }
  }

  // ---------------------------------------------------------------- completions

  /** The hypothesis alt, which is head or has lost against it, extends its previous hypothesis. */
  datatype Edge = Edge(alt: Id, head: Id)

  ghost predicate IsEdge(s: Search, e: Edge) {
    InStack(s, e.head) && e.head > 0 && (e.alt == e.head || e.alt in s.hypos[e.head].arcs)
  }

  function Tail(s: Search, e: Edge): Id
    requires e.alt < |s.hypos|
  {
    s.hypos[e.alt].prev
  }

  /** What the edge adds to the score. */
  function Gain(s: Search, e: Edge): real
    requires WellFormed(s) && IsEdge(s, e)
  {
    EdgeOk(s, e);
    s.hypos[e.alt].score - s.hypos[Tail(s, e)].score
  }

  lemma EdgeOk(s: Search, e: Edge)
    requires WellFormed(s) && IsEdge(s, e)
    ensures 0 < e.alt < |s.hypos| && e.head < |s.hypos| && Tail(s, e) < |s.hypos| && InStack(s, Tail(s, e))
    ensures s.hypos[e.alt].covered == s.hypos[e.head].covered
    ensures s.hypos[Tail(s, e)].covered < s.hypos[e.head].covered
  {
    assert HypoOk(s, e.head);
    PrevIsHypo(s, e.alt);
  }

  /** Edges that lead from h to a final hypothesis. */
  ghost predicate Completion(s: Search, h: Id, path: seq<Edge>)
    requires WellFormed(s)
    decreases |path|
  {
    if path == [] then h in Final(s)
    else
      && IsEdge(s, path[0]) && path[0].alt < |s.hypos| && Tail(s, path[0]) == h
      && Completion(s, path[0].head, path[1..])
  }

  ghost function Value(s: Search, h: Id, path: seq<Edge>): real
    requires WellFormed(s) && Completion(s, h, path)
    decreases |path|
  {
    if path == [] then 0.0 else Gain(s, path[0]) + Value(s, path[0].head, path[1..])
  }

  /** Where a path ends. */
  function EndOf(h: Id, path: seq<Edge>): Id {
    if path == [] then h else path[|path| - 1].head
  }

  /** By how much the losers on a path are worse than the hypotheses that they lost against. */
  ghost function LostOn(s: Search, path: seq<Edge>): real
    requires forall i :: 0 <= i < |path| ==> path[i].head < |s.hypos| && path[i].alt < |s.hypos|
  {
    if path == [] then 0.0
    else s.hypos[path[0].head].score - s.hypos[path[0].alt].score + LostOn(s, path[1..])
  }

  /** A completion is worth the score of the final hypothesis, less the score of where it begins, less what is lost
      on arcs: without arcs the scores in between cancel out, and an arc is charged its own score. */
  lemma {:induction false} ValueTelescopes(s: Search, h: Id, path: seq<Edge>)
    requires WellFormed(s) && Completion(s, h, path) && h < |s.hypos|
    ensures forall i :: 0 <= i < |path| ==> path[i].head < |s.hypos| && path[i].alt < |s.hypos|
    ensures EndOf(h, path) < |s.hypos|
    ensures Value(s, h, path) == s.hypos[EndOf(h, path)].score - s.hypos[h].score - LostOn(s, path)
    decreases |path|
  {
    hide WellFormed, IsEdge, Final;
    if path != [] {
      var e := path[0];
      EdgeOk(s, e);
      ValueTelescopes(s, e.head, path[1..]);
      assert forall i :: 0 <= i < |path| ==> path[i] == if i == 0 then e else path[1..][i - 1];
    }
  }

  ghost predicate CanComplete(s: Search, h: Id)
    requires WellFormed(s)
  {
    exists path :: Completion(s, h, path)
  }

  /** Whatever completes is connected, unless it is the empty hypothesis. */
  lemma {:induction false} CompletionIsConnected(s: Search, h: Id, path: seq<Edge>)
    requires WellFormed(s) && Completion(s, h, path) && h > 0
    ensures h < |s.hypos| && Connected(s, h)
    decreases |path|
  {
    hide Connected;
    if path == [] {
      FinalIsConnected(s, h);
    } else {
      var e := path[0];
      CompletionIsConnected(s, e.head, path[1..]);
      EdgeOk(s, e);
      if e.alt != e.head { ConnectedStep(s, e.head, e.alt); }
      ConnectedStep(s, e.alt, h);
    }
  }

  /** Every connected hypothesis is in a stack, or an arc of one that is; and that one completes. */
  ghost predicate Led(s: Search, h: Id)
    requires WellFormed(s)
  {
    exists g :: Leads(s, g, h)
  }

  ghost predicate Leads(s: Search, g: Id, h: Id)
    requires WellFormed(s)
  {
    InStack(s, g) && g > 0 && CanComplete(s, g) && (g == h || h in s.hypos[g].arcs)
  }

  lemma LedStep(s: Search, h: Id, g: Id)
    requires WellFormed(s) && 0 < h < |s.hypos| && Led(s, h) && StepsBack(s, h, g)
    ensures 0 < g < |s.hypos| && Led(s, g)
  {
    assert HypoOk(s, h);
    var w :| Leads(s, w, h);
    if g in s.hypos[h].arcs {
      assert HypoOk(s, w);
      assert w == h;
      assert Leads(s, h, g);
    } else {
      var e := Edge(h, w);
      EdgeOk(s, e);
      var path :| Completion(s, w, path);
      assert Completion(s, g, [e] + path) by { assert ([e] + path)[1..] == path; }
      assert CanComplete(s, g) && Leads(s, g, g);
    }
  }

  lemma {:induction false} ChainIsLed(s: Search, c: seq<Id>, k: nat)
    requires WellFormed(s) && Chain(s, c) && k < |c|
    ensures 0 < c[k] < |s.hypos| && Led(s, c[k])
  {
    if k == 0 {
      FinalIsConnected(s, c[0]);
      assert Completion(s, c[0], []);
      assert HypoOk(s, c[0]);
      FinalInStack(s, c[0]);
      assert CanComplete(s, c[0]) && Leads(s, c[0], c[0]);
    } else {
      ChainIsLed(s, c, k - 1);
      LedStep(s, c[k - 1], c[k]);
    }
  }

  lemma FinalInStack(s: Search, h: Id)
    requires WellFormed(s) && h in Final(s)
    ensures InStack(s, h) && s.hypos[h].covered == |s.stacks| - 1
  {
    var k := |s.stacks| - 1;
    var i :| 0 <= i < |s.stacks[k]| && s.stacks[k][i] == h;
  }

  /** A stack hypothesis is connected exactly when it can be completed. */
  lemma ConnectedMeansCompletes(s: Search, h: Id)
    requires WellFormed(s) && InStack(s, h) && h > 0
    ensures Connected(s, h) <==> CanComplete(s, h)
  {
    if CanComplete(s, h) {
      var path :| Completion(s, h, path);
      CompletionIsConnected(s, h, path);
    }
    if Connected(s, h) {
      var c :| Chain(s, c) && c[|c| - 1] == h;
      ChainIsLed(s, c, |c| - 1);
      var g :| Leads(s, g, h);
      assert HypoOk(s, g);
    }
  }
}
