/** The best score with which each hypothesis of the search graph can still be finished, by one sweep over the
    stacks (moses/src/Manager.cpp, GetSearchGraph). */
module ForwardScores {
  import opened SearchGraph

  type Scores = map<Id, real>

  ghost predicate Realised(s: Search, h: Id, v: real)
    requires WellFormed(s)
  {
    exists path :: Completion(s, h, path) && Value(s, h, path) == v
  }

  ghost predicate NoneBetter(s: Search, h: Id, v: real)
    requires WellFormed(s)
  {
    forall path :: Completion(s, h, path) ==> Value(s, h, path) <= v
  }

  ghost predicate Sound(s: Search, fs: Scores)
    requires WellFormed(s)
  {
    forall h :: h in fs ==> InStack(s, h) && Realised(s, h, fs[h])
  }

  /** The completion begins with an edge that has made its play, or has none. */
  ghost predicate Counted(s: Search, h: Id, path: seq<Edge>, done: set<Edge>)
    requires WellFormed(s)
  {
    Completion(s, h, path) && (path == [] || path[0] in done)
  }

  ghost predicate Bounded(s: Search, fs: Scores, done: set<Edge>)
    requires WellFormed(s)
  {
    forall h, path :: Counted(s, h, path, done) ==> h in fs && Value(s, h, path) <= fs[h]
  }

  /** The next hypothesis to take from h: none for a final one, otherwise one that leads to the score of h. */
  ghost predicate PointsForward(s: Search, fs: Scores, h: Id, next: int, k: nat)
    requires WellFormed(s) && h in fs
  {
    if next == -1 then h in Final(s) && fs[h] == 0.0
    else next > 0 && exists head :: BestEdge(s, fs, h, Edge(next, head), k)
  }

  ghost predicate BestEdge(s: Search, fs: Scores, h: Id, e: Edge, k: nat)
    requires WellFormed(s) && h in fs
  {
    && IsEdge(s, e) && e.alt < |s.hypos| && Tail(s, e) == h && e.head in fs && s.hypos[e.head].covered >= k
    && fs[h] == fs[e.head] + Gain(s, e)
  }

  ghost predicate Forward(s: Search, fs: Scores, forward: map<Id, int>, k: nat)
    requires WellFormed(s)
  {
    forward.Keys == fs.Keys && forall h :: h in forward ==> PointsForward(s, fs, h, forward[h], k)
  }

  // ---------------------------------------------------------------- one play

  function Played(s: Search, fs: Scores, e: Edge): Scores
    requires WellFormed(s) && IsEdge(s, e) && e.head in fs
  {
    EdgeOk(s, e);
    var v := fs[e.head] + Gain(s, e);
    if Tail(s, e) !in fs || fs[Tail(s, e)] < v then fs[Tail(s, e) := v] else fs
  }

  lemma PlayIsSound(s: Search, fs: Scores, e: Edge)
    requires WellFormed(s) && IsEdge(s, e) && e.head in fs && Sound(s, fs)
    ensures Sound(s, Played(s, fs, e))
  {
    EdgeOk(s, e);
    var t := Tail(s, e);
    assert Realised(s, e.head, fs[e.head]);
    var path :| Completion(s, e.head, path) && Value(s, e.head, path) == fs[e.head];
    assert ([e] + path)[1..] == path;
    assert Completion(s, t, [e] + path) && Value(s, t, [e] + path) == Gain(s, e) + fs[e.head];
    assert Realised(s, t, fs[e.head] + Gain(s, e));
  }

  lemma PlayIsBounded(s: Search, fs: Scores, e: Edge, done: set<Edge>)
    requires WellFormed(s) && IsEdge(s, e) && e.head in fs && Bounded(s, fs, done) && NoneBetter(s, e.head, fs[e.head])
    ensures Bounded(s, Played(s, fs, e), done + {e})
  {
    var fs' := Played(s, fs, e);
    forall h, path | Counted(s, h, path, done + {e}) ensures h in fs' && Value(s, h, path) <= fs'[h] {
      if path != [] && path[0] == e {
        assert Value(s, e.head, path[1..]) <= fs[e.head];
        EdgeOk(s, e);
      } else {
        assert Counted(s, h, path, done);
      }
    }
  }

  /** A play changes no score that another hypothesis relies on. */
  lemma PlayPointsForward(s: Search, fs: Scores, forward: map<Id, int>, e: Edge, v: real, h: Id)
    requires WellFormed(s) && IsEdge(s, e) && e.head in fs && e.alt < |s.hypos| && e.alt > 0
    requires Forward(s, fs, forward, s.hypos[e.head].covered) && v == fs[e.head] + Gain(s, e)
    requires h in fs || h == Tail(s, e)
    ensures PointsForward(s, fs[Tail(s, e) := v], h, forward[Tail(s, e) := e.alt][h], s.hypos[e.head].covered)
  {
    hide WellFormed, Gain;
    var t, k := Tail(s, e), s.hypos[e.head].covered;
    EdgeOk(s, e);
    if h == t {
      assert BestEdge(s, fs[t := v], h, e, k);
      assert Edge(e.alt, e.head) == e;
    } else {
      assert PointsForward(s, fs, h, forward[h], k);
      if forward[h] != -1 {
        var head :| BestEdge(s, fs, h, Edge(forward[h], head), k);
        assert BestEdge(s, fs[t := v], h, Edge(forward[h], head), k);
      }
    }
  }

  /** Makes a play for the previous hypothesis. */
  method Play(s: Search, e: Edge, forwardScore: Scores, forward: map<Id, int>)
    returns (forwardScore': Scores, forward': map<Id, int>)
    requires WellFormed(s) && IsEdge(s, e) && e.head in forwardScore
    requires Forward(s, forwardScore, forward, s.hypos[e.head].covered)
    ensures forwardScore' == Played(s, forwardScore, e)
    ensures if forwardScore' == forwardScore then forward' == forward
            else e.alt < |s.hypos| && forward' == forward[s.hypos[e.alt].prev := e.alt]
    ensures Forward(s, forwardScore', forward', s.hypos[e.head].covered)
  {
    hide WellFormed, InStack, IsEdge, PointsForward;
    EdgeOk(s, e);
    forwardScore', forward' := forwardScore, forward;
    var prevHypo := s.hypos[e.alt].prev;
    var fscore := forwardScore[e.head] + s.hypos[e.alt].score - s.hypos[prevHypo].score;
    if prevHypo !in forwardScore || forwardScore[prevHypo] < fscore {
      forwardScore' := forwardScore[prevHypo := fscore];
      forward' := forward[prevHypo := e.alt];
      forall h | h in forward' ensures PointsForward(s, forwardScore', h, forward'[h], s.hypos[e.head].covered) {
        PlayPointsForward(s, forwardScore, forward, e, fscore, h);
      }
    }
  }

  // ---------------------------------------------------------------- the sweep

  ghost predicate Swept(s: Search, fs: Scores, forward: map<Id, int>, done: set<Edge>, k: nat)
    requires WellFormed(s)
  {
    Sound(s, fs) && Bounded(s, fs, done) && Forward(s, fs, forward, k)
  }

  lemma PlayKeeps(s: Search, fs: Scores, e: Edge, done: set<Edge>)
    requires WellFormed(s) && IsEdge(s, e) && e.head in fs && Sound(s, fs) && Bounded(s, fs, done)
    requires NoneBetter(s, e.head, fs[e.head])
    ensures Sound(s, Played(s, fs, e)) && Bounded(s, Played(s, fs, e), done + {e})
    ensures e.head in Played(s, fs, e) && Played(s, fs, e)[e.head] == fs[e.head]
  {
    hide Sound, Bounded, NoneBetter, WellFormed, IsEdge, Gain, InStack;
    PlayIsSound(s, fs, e);
    PlayIsBounded(s, fs, e, done);
    EdgeOk(s, e);
  }

  /** A stack hypothesis and its arcs make their plays. */
  method PlayAll(s: Search, h: Id, forwardScore: Scores, forward: map<Id, int>, ghost done: set<Edge>)
    returns (forwardScore': Scores, forward': map<Id, int>, ghost done': set<Edge>)
    requires WellFormed(s) && InStack(s, h) && 0 < h < |s.hypos|
    requires Swept(s, forwardScore, forward, done, s.hypos[h].covered)
    requires h in forwardScore && NoneBetter(s, h, forwardScore[h])
    ensures Swept(s, forwardScore', forward', done', s.hypos[h].covered)
    ensures done <= done' && forall a: Id {:trigger Edge(a, h)} :: IsEdge(s, Edge(a, h)) ==> Edge(a, h) in done'
  {
    hide WellFormed, InStack, Sound, Bounded, Forward, NoneBetter, Played;
    var hypo := s.hypos[h];
    PlayKeeps(s, forwardScore, Edge(h, h), done);
    forwardScore', forward' := Play(s, Edge(h, h), forwardScore, forward);
    done' := done + {Edge(h, h)};
    var j := 0;
    while j < |hypo.arcs|
      invariant 0 <= j <= |hypo.arcs| && Swept(s, forwardScore', forward', done', hypo.covered)
      invariant h in forwardScore' && NoneBetter(s, h, forwardScore'[h])
      invariant done <= done' && Edge(h, h) in done' && forall i :: 0 <= i < j ==> Edge(hypo.arcs[i], h) in done'
    {
      var e := Edge(hypo.arcs[j], h);
      PlayKeeps(s, forwardScore', e, done');
      forwardScore', forward' := Play(s, e, forwardScore', forward');
      done' := done' + {e};
      j := j + 1;
    }
  }

  /** The edges to the connected hypotheses of the stacks above the k-th and of the first i of the k-th have made
      their plays. */
  ghost predicate AllPlayed(s: Search, connected: set<Id>, done: set<Edge>, k: nat, i: nat)
    requires WellFormed(s) && k < |s.stacks| && i <= |s.stacks[k]|
  {
    forall e: Edge :: IsEdge(s, e) && e.head in connected && e.head < |s.hypos| && (s.hypos[e.head].covered > k || e.head in s.stacks[k][..i]) ==> e in done
  }

  /** When its stack's turn comes, the score of a connected hypothesis is the best there is. */
  lemma ScoreIsFinal(s: Search, connected: set<Id>, fs: Scores, done: set<Edge>, k: nat, i: nat, h: Id)
    requires WellFormed(s) && (forall g :: g in connected <==> Connected(s, g))
    requires k < |s.stacks| && i <= |s.stacks[k]| && AllPlayed(s, connected, done, k, i) && Bounded(s, fs, done)
    requires InStack(s, h) && s.hypos[h].covered == k && CanComplete(s, h)
    ensures h in fs && NoneBetter(s, h, fs[h])
  {
    hide Connected;
    var some :| Completion(s, h, some);
    forall path: seq<Edge> | Completion(s, h, path) ensures Counted(s, h, path, done) {
      if path != [] {
        EdgeOk(s, path[0]);
        CompletionIsConnected(s, path[0].head, path[1..]);
      }
    }
    assert Counted(s, h, some, done);
    forall path: seq<Edge> | Completion(s, h, path) ensures Value(s, h, path) <= fs[h] {
      assert Counted(s, h, path, done);
    }
  }

  lemma NextHead(s: Search, connected: set<Id>, done: set<Edge>, done': set<Edge>, k: nat, i: nat)
    requires WellFormed(s) && k < |s.stacks| && i < |s.stacks[k]| && AllPlayed(s, connected, done, k, i) && done <= done'
    requires var h := s.stacks[k][i];
             h in connected ==> forall a: Id {:trigger Edge(a, h)} :: IsEdge(s, Edge(a, h)) ==> Edge(a, h) in done'
    ensures AllPlayed(s, connected, done', k, i + 1)
  {
    var h := s.stacks[k][i];
    forall e: Edge | IsEdge(s, e) && e.head in connected && e.head < |s.hypos| && (s.hypos[e.head].covered > k || e.head in s.stacks[k][..i + 1])
      ensures e in done' {
      assert e == Edge(e.alt, e.head);
      assert s.stacks[k][..i + 1] == s.stacks[k][..i] + [h];
    }
  }

  lemma NextStack(s: Search, connected: set<Id>, done: set<Edge>, k: nat)
    requires WellFormed(s) && 0 < k < |s.stacks| && AllPlayed(s, connected, done, k, |s.stacks[k]|)
    ensures AllPlayed(s, connected, done, k - 1, 0)
  {
    assert s.stacks[k][..|s.stacks[k]|] == s.stacks[k];
  }

  lemma ForwardWeaker(s: Search, fs: Scores, forward: map<Id, int>, k: nat)
    requires WellFormed(s) && Forward(s, fs, forward, k + 1)
    ensures Forward(s, fs, forward, k)
  {
    forall h | h in forward ensures PointsForward(s, fs, h, forward[h], k) {
      assert PointsForward(s, fs, h, forward[h], k + 1);
      if forward[h] != -1 {
        var head :| BestEdge(s, fs, h, Edge(forward[h], head), k + 1);
        assert BestEdge(s, fs, h, Edge(forward[h], head), k);
      }
    }
  }

  lemma ScoresAreBest(s: Search, connected: set<Id>, fs: Scores, done: set<Edge>)
    requires WellFormed(s) && (forall g :: g in connected <==> Connected(s, g))
    requires Sound(s, fs) && Bounded(s, fs, done) && AllPlayed(s, connected, done, 0, 0)
    ensures forall h :: h in fs <==> InStack(s, h) && CanComplete(s, h)
    ensures forall h :: h in fs ==> Realised(s, h, fs[h]) && NoneBetter(s, h, fs[h])
  {
    hide Connected, WellFormed, Bounded, Completion;
    forall h: Id | InStack(s, h) && CanComplete(s, h) ensures h in fs && NoneBetter(s, h, fs[h]) {
      AllStacksPlayed(s, connected, done, s.hypos[h].covered);
      ScoreIsFinal(s, connected, fs, done, s.hypos[h].covered, 0, h);
    }
  }

  lemma AllStacksPlayed(s: Search, connected: set<Id>, done: set<Edge>, k: nat)
    requires WellFormed(s) && AllPlayed(s, connected, done, 0, 0) && k < |s.stacks|
    ensures AllPlayed(s, connected, done, k, 0)
  {}

  method FinalScores(s: Search) returns (forwardScore: Scores, forward: map<Id, int>)
    requires WellFormed(s)
    ensures Swept(s, forwardScore, forward, {}, |s.stacks|)
  {
    forwardScore, forward := map[], map[];
    var final, i := Final(s), 0;
    while i < |final|
      invariant 0 <= i <= |final| && forward.Keys == forwardScore.Keys
      invariant forall h :: h in forward ==> forward[h] == -1 && h in final && forwardScore[h] == 0.0
      invariant forall j :: 0 <= j < i ==> final[j] in forwardScore
    {
      forwardScore := forwardScore[final[i] := 0.0];
      forward := forward[final[i] := -1];
      i := i + 1;
    }
    forall h | h in forwardScore ensures InStack(s, h) && Realised(s, h, 0.0) {
      FinalInStack(s, h);
      assert Completion(s, h, []) && Value(s, h, []) == 0.0;
    }
  }

  method PlayStack(s: Search, connected: set<Id>, k: nat, forwardScore: Scores, forward: map<Id, int>, ghost done: set<Edge>)
    returns (forwardScore': Scores, forward': map<Id, int>, ghost done': set<Edge>)
    requires WellFormed(s) && 0 < k < |s.stacks| && (forall h :: h in connected <==> Connected(s, h))
    requires Swept(s, forwardScore, forward, done, k + 1) && AllPlayed(s, connected, done, k, 0)
    ensures Swept(s, forwardScore', forward', done', k) && AllPlayed(s, connected, done', k, |s.stacks[k]|)
  {
    hide WellFormed, Connected, Sound, Bounded, Forward, NoneBetter, CanComplete, AllPlayed;
    ForwardWeaker(s, forwardScore, forward, k);
    forwardScore', forward', done' := forwardScore, forward, done;
    var stack, i := s.stacks[k], 0;
    while i < |stack|
      invariant 0 <= i <= |stack| && Swept(s, forwardScore', forward', done', k)
      invariant AllPlayed(s, connected, done', k, i)
    {
      var h := stack[i];
      StackHypo(s, k, i);
      ghost var was := done';
      if h in connected {
        ConnectedMeansCompletes(s, h);
        ScoreIsFinal(s, connected, forwardScore', done', k, i, h);
        forwardScore', forward', done' := PlayAll(s, h, forwardScore', forward', done');
      }
      NextHead(s, connected, was, done', k, i);
      i := i + 1;
    }
  }

  lemma StackHypo(s: Search, k: nat, i: nat)
    requires WellFormed(s) && k < |s.stacks| && i < |s.stacks[k]|
    ensures var h := s.stacks[k][i];
            h < |s.hypos| && InStack(s, h) && s.hypos[h].covered == k && (k > 0 ==> h > 0)
  {}

  /** The scores and the next hypotheses of all stack hypotheses that can be completed. */
  method GetForwardScores(s: Search)
    returns (connected: set<Id>, forwardScore: Scores, forward: map<Id, int>)
    requires WellFormed(s)
    ensures forall h :: h in connected <==> Connected(s, h)
    ensures forall h :: h in forwardScore <==> InStack(s, h) && CanComplete(s, h)
    ensures forall h :: h in forwardScore ==> Realised(s, h, forwardScore[h]) && NoneBetter(s, h, forwardScore[h])
    ensures Forward(s, forwardScore, forward, 1)
  {
    hide Connected, Sound, Bounded, Forward, NoneBetter, CanComplete, Realised;
    var connectedList;
    connected, connectedList := GetConnectedGraph(s);
    ghost var done: set<Edge> := {};
    forwardScore, forward := FinalScores(s);
    assert AllPlayed(s, connected, done, |s.stacks| - 1, 0);
    var k := |s.stacks| - 1;
    while k > 0
      invariant 0 <= k < |s.stacks| && Swept(s, forwardScore, forward, done, k + 1)
      invariant AllPlayed(s, connected, done, k, 0)
    {
      forwardScore, forward, done := PlayStack(s, connected, k, forwardScore, forward, done);
      NextStack(s, connected, done, k);
      k := k - 1;
    }
    ScoresAreBest(s, connected, forwardScore, done);
  }
}
