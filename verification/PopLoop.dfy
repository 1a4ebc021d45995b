/** The pop loop of cube pruning over all coverage bitmaps of a stack (moses/src/SearchCubePruning.cpp,
    ProcessSentence). */
module PopLoop {
  import opened CubeGrid

  type Containers = seq<BitmapContainer>

  ghost function EdgesOf(bcs: Containers): set<BackwardsEdge> {
    set i, e | 0 <= i < |bcs| && e in bcs[i].edges :: e
  }

  /** Different containers with different edges. */
  ghost predicate Separate(bcs: Containers) {
    forall i, j :: 0 <= i < j < |bcs| ==> bcs[i] != bcs[j] && bcs[i].edges !! bcs[j].edges
  }

  /** All containers are in order. */
  ghost predicate AllGood(bcs: Containers)
    reads bcs, EdgesOf(bcs)
  {
    forall i :: 0 <= i < |bcs| ==> bcs[i].Valid() && bcs[i].Started()
  }

  ghost predicate AllOrdered(bcs: Containers) {
    forall i :: 0 <= i < |bcs| ==> bcs[i].Ordered()
  }

  /** The pops are those of the containers. */
  ghost predicate Merged(bcs: Containers, pops: seq<Item>)
    reads bcs
  {
    && NoneTwice(pops)
    && (forall i, it :: 0 <= i < |bcs| && it in bcs[i].popped ==> it in pops)
    && (forall it :: it in pops ==> exists i :: 0 <= i < |bcs| && it in bcs[i].popped)
  }

  /** No position of any container outside done scores more than bound. */
  ghost predicate AllBelow(bcs: Containers, done: seq<Item>, bound: real) {
    forall i :: 0 <= i < |bcs| ==> bcs[i].RestBelow(done, bound)
  }

  /** The pops come in non-increasing order, and they are the best of all positions of all containers. */
  ghost predicate AllBestFirst(bcs: Containers, pops: seq<Item>) {
    && (forall a, b :: 0 <= a < b < |pops| ==> Total(pops[b]) <= Total(pops[a]))
    && (forall a :: 0 <= a < |pops| ==> AllBelow(bcs, pops, Total(pops[a])))
  }

  /** Containers wait at most once each, among them all that have hypotheses. */
  ghost predicate Waits(bcs: Containers, waiting: seq<nat>)
    reads bcs
  {
    && NoneTwice(waiting) && (forall j :: 0 <= j < |waiting| ==> waiting[j] < |bcs|)
    && forall i :: 0 <= i < |bcs| && bcs[i].queue != [] ==> i in waiting
  }

  /** No hypothesis of the container scores more than any best one of the other. */
  ghost predicate NotAbove(queue: seq<Item>, best: seq<Item>) {
    forall it, o :: it in queue && o in best && IsBest(best, o) ==> Total(it) <= Total(o)
  }

  /** BitmapContainerOrderer: empty containers come last, the others by their top hypotheses. */
  method Less(a: BitmapContainer, b: BitmapContainer) returns (less: bool)
    ensures if less then b.queue != [] && NotAbove(a.queue, b.queue)
            else NotAbove(b.queue, a.queue) && (b.queue != [] ==> a.queue != [])
  {
    if b.queue == [] { return false; }
    if a.queue == [] { return true; }
    var scoreA := Best(a.queue);
    var scoreB := Best(b.queue);
    less := Total(a.queue[scoreA]) < Total(b.queue[scoreB]);
  }

  lemma NotAboveTransitive(a: seq<Item>, b: seq<Item>, c: seq<Item>)
    requires NotAbove(a, b) && NotAbove(b, c) && (b == [] ==> a == [])
    ensures NotAbove(a, c)
  {
    if b != [] {
      var o := BestOf(b);
    }
  }

  lemma BestOf(queue: seq<Item>) returns (o: Item)
    requires queue != []
    ensures IsBest(queue, o)
  {
    o := queue[0];
    var i := 1;
    while i < |queue|
      invariant 1 <= i <= |queue| && IsBest(queue[..i], o)
    {
      if Total(o) < Total(queue[i]) { o := queue[i]; }
      i := i + 1;
    }
    assert queue[..i] == queue;
  }

  /** The place of a waiting container that the ordering puts on top. */
  method BestContainer(bcs: Containers, waiting: seq<nat>) returns (k: nat)
    requires waiting != [] && Waits(bcs, waiting)
    ensures k < |waiting|
    ensures forall i :: 0 <= i < |bcs| ==>
              NotAbove(bcs[i].queue, bcs[waiting[k]].queue) && (bcs[i].queue != [] ==> bcs[waiting[k]].queue != [])
  {
    hide NotAbove, IsBest;
    k := 0;
    SameNotAbove(bcs[waiting[0]].queue);
    var j := 1;
    while j < |waiting|
      invariant 1 <= j <= |waiting| && k < j
      invariant forall m :: 0 <= m < j ==>
                  NotAbove(bcs[waiting[m]].queue, bcs[waiting[k]].queue) && (bcs[waiting[m]].queue != [] ==> bcs[waiting[k]].queue != [])
    {
      var less := Less(bcs[waiting[k]], bcs[waiting[j]]);
      if less {
        forall m | 0 <= m < j ensures NotAbove(bcs[waiting[m]].queue, bcs[waiting[j]].queue) {
          NotAboveTransitive(bcs[waiting[m]].queue, bcs[waiting[k]].queue, bcs[waiting[j]].queue);
        }
        SameNotAbove(bcs[waiting[j]].queue);
        k := j;
      }
      j := j + 1;
    }
    forall i | 0 <= i < |bcs|
      ensures NotAbove(bcs[i].queue, bcs[waiting[k]].queue) && (bcs[i].queue != [] ==> bcs[waiting[k]].queue != [])
    {
      if bcs[i].queue == [] { NothingAbove(bcs[waiting[k]].queue); } else { assert i in waiting; }
    }
  }

  lemma SameNotAbove(queue: seq<Item>)
    ensures NotAbove(queue, queue)
  {}

  lemma NothingAbove(queue: seq<Item>)
    ensures NotAbove([], queue)
  {}

  /** With the best of all waiting hypotheses next, nothing that is left scores more. */
  lemma BoundOfAll(bcs: Containers, score: real)
    requires AllGood(bcs) && AllOrdered(bcs) && forall i, it :: 0 <= i < |bcs| && it in bcs[i].queue ==> Total(it) <= score
    ensures forall i :: 0 <= i < |bcs| ==> bcs[i].RestBelow(bcs[i].popped, score)
  {
    forall i | 0 <= i < |bcs| ensures bcs[i].RestBelow(bcs[i].popped, score) {
      bcs[i].WaitingBound(score);
    }
  }

  /** A waiting hypothesis has not been popped from any container. */
  lemma WaitingIsNowhere(bcs: Containers, pops: seq<Item>, b: nat, it: Item)
    requires Separate(bcs) && AllGood(bcs) && Merged(bcs, pops) && b < |bcs| && it in bcs[b].queue
    ensures it !in pops && it.edge in bcs[b].edges && InGrid(it.pos, it.edge.width, it.edge.height)
  {
    bcs[b].WaitingIsNew(it);
    forall i | 0 <= i < |bcs| ensures it !in bcs[i].popped {
      OwnEdges(bcs[i]);
    }
  }

  lemma OwnEdges(bc: BitmapContainer)
    requires bc.Valid()
    ensures forall it :: it in bc.popped ==> it.edge in bc.edges
  {
    assert forall it :: it in bc.popped ==> it in bc.queue + bc.popped;
  }

  /** One more pop keeps the order of all. */
  lemma StillAllBest(bcs: Containers, pops: seq<Item>, b: nat, it: Item)
    requires Separate(bcs) && AllGood(bcs) && AllOrdered(bcs) && Merged(bcs, pops) && AllBestFirst(bcs, pops)
    requires b < |bcs| && it in bcs[b].queue && forall i, o :: 0 <= i < |bcs| && o in bcs[i].queue ==> Total(o) <= Total(it)
    ensures AllBestFirst(bcs, pops + [it])
  {
    BoundOfAll(bcs, Total(it));
    WaitingIsNowhere(bcs, pops, b, it);
    var more := pops + [it];
    forall a | 0 <= a < |more| ensures AllBelow(bcs, more, Total(more[a])) {
      if a < |pops| { assert AllBelow(bcs, pops, Total(pops[a])); }
      forall i | 0 <= i < |bcs| ensures bcs[i].RestBelow(more, Total(more[a])) {
        if a < |pops| { assert bcs[i].RestBelow(pops, Total(pops[a])); }
      }
    }
    forall a | 0 <= a < |pops| ensures Total(it) <= Total(pops[a]) {
      assert AllBelow(bcs, pops, Total(pops[a])) && bcs[b].RestBelow(pops, Total(pops[a]));
      assert Item(it.edge, (it.pos.0, it.pos.1)) == it;
    }
  }

  /** What has been popped from each container. */
  ghost function Popped(bcs: Containers): (p: seq<seq<Item>>)
    reads bcs
    ensures |p| == |bcs| && forall i :: 0 <= i < |bcs| ==> p[i] == bcs[i].popped
  {
    seq(|bcs|, i requires 0 <= i < |bcs| reads bcs => bcs[i].popped)
  }

  lemma MergedMore(bcs: Containers, before: seq<seq<Item>>, pops: seq<Item>, b: nat, popped: seq<Item>)
    requires |before| == |bcs| && b < |bcs| && Popped(bcs) == before[b := before[b] + popped]
    requires NoneTwice(pops) && |popped| <= 1 && (popped != [] ==> popped[0] !in pops)
    requires forall i, o :: 0 <= i < |bcs| && o in before[i] ==> o in pops
    requires forall o :: o in pops ==> exists i :: 0 <= i < |bcs| && o in before[i]
    ensures Merged(bcs, pops + popped)
  {
    forall i, o | 0 <= i < |bcs| && o in bcs[i].popped ensures o in pops + popped {
      assert o in Popped(bcs)[i];
      if i == b { assert o in before[b] + popped; }
    }
    forall o | o in pops + popped ensures exists i :: 0 <= i < |bcs| && o in bcs[i].popped {
      if o in popped {
        assert o in Popped(bcs)[b];
        assert o in bcs[b].popped;
      } else {
        var i :| 0 <= i < |bcs| && o in before[i];
        assert o in Popped(bcs)[i];
      }
    }
  }

  ghost function Queues(bcs: Containers): (q: seq<seq<Item>>)
    reads bcs
    ensures |q| == |bcs| && forall i :: 0 <= i < |bcs| ==> q[i] == bcs[i].queue
  {
    seq(|bcs|, i requires 0 <= i < |bcs| reads bcs => bcs[i].queue)
  }

  /** ProcessBestHypothesis on one container leaves the others alone; on an empty one it does nothing. */
  method ProcessOne(bcs: Containers, b: nat, newstackentry: bool) returns (ghost popped: seq<Item>)
    requires Separate(bcs) && AllGood(bcs) && b < |bcs|
    modifies bcs, EdgesOf(bcs)
    ensures AllGood(bcs) && if old(bcs[b].queue) == [] then popped == [] else |popped| == 1 && IsBest(old(bcs[b].queue), popped[0])
    ensures Popped(bcs) == old(Popped(bcs))[b := old(Popped(bcs))[b] + popped]
    ensures Queues(bcs) == old(Queues(bcs))[b := bcs[b].queue] && (popped == [] ==> bcs[b].queue == [])
  {
    hide BitmapContainer.Valid, BitmapContainer.Started, IsBest;
    ghost var was := bcs[b].popped;
    bcs[b].ProcessBestHypothesis(newstackentry);
    popped := bcs[b].popped[|was|..];
    assert bcs[b].popped == was + popped;
  }

  /** One turn: a best waiting hypothesis of all is popped, if there is one, and its container waits on if it has
      more. */
  method PopOne(bcs: Containers, waiting: seq<nat>, newstackentry: bool, ghost pops: seq<Item>)
    returns (waiting': seq<nat>, ghost popped: seq<Item>)
    requires Separate(bcs) && AllGood(bcs) && Merged(bcs, pops) && waiting != [] && Waits(bcs, waiting)
    modifies bcs, EdgesOf(bcs)
    ensures AllGood(bcs) && Merged(bcs, pops + popped) && Waits(bcs, waiting') && |popped| <= 1
    ensures popped == [] ==> forall i :: 0 <= i < |bcs| ==> bcs[i].queue == []
    ensures old(forall i :: 0 <= i < |bcs| ==> bcs[i].queue == []) ==> popped == []
    ensures AllOrdered(bcs) && AllBestFirst(bcs, pops) ==> AllBestFirst(bcs, pops + popped)
  {
    hide AllGood, AllOrdered, AllBestFirst, Separate, Merged, Waits, NoneTwice, Popped, Queues, NotAbove;
    ghost var before, queues := Popped(bcs), Queues(bcs);
    MergedParts(bcs, pops);
    WaitsParts(bcs, waiting);
    ghost var good := AllOrdered(bcs) && AllBestFirst(bcs, pops);
    var k := ChooseContainer(bcs, waiting, pops, good);
    var b := waiting[k];
    ghost var queue := bcs[b].queue;
    assert forall o :: o in queue && IsBest(queue, o) ==> o !in pops && (good ==> AllBestFirst(bcs, pops + [o]));
    popped := ProcessOne(bcs, b, newstackentry);
    waiting' := waiting[..k] + waiting[k + 1..];
    if bcs[b].queue != [] {
      waiting' := waiting' + [b];
    }
    WaitsOn(bcs, waiting, waiting', k, queues);
    AfterPop(bcs, before, queues, pops, b, popped, good);
  }

  /** The container on top of the queue; any best hypothesis of it may be popped. */
  method ChooseContainer(bcs: Containers, waiting: seq<nat>, ghost pops: seq<Item>, ghost good: bool) returns (k: nat)
    requires Separate(bcs) && AllGood(bcs) && Merged(bcs, pops) && waiting != [] && Waits(bcs, waiting)
    requires good ==> AllOrdered(bcs) && AllBestFirst(bcs, pops)
    ensures k < |waiting| && waiting[k] < |bcs|
    ensures Queues(bcs)[waiting[k]] == [] ==> forall i :: 0 <= i < |bcs| ==> Queues(bcs)[i] == []
    ensures forall o :: IsBest(bcs[waiting[k]].queue, o) ==> o !in pops && (good ==> AllBestFirst(bcs, pops + [o]))
  {
    hide AllOrdered, AllBestFirst, Separate, Merged, IsBest, NotAbove;
    k := BestContainer(bcs, waiting);
    AnyBestWillDo(bcs, pops, waiting[k]);
  }

  lemma AfterPop(bcs: Containers, before: seq<seq<Item>>, queues: seq<seq<Item>>, pops: seq<Item>, b: nat, popped: seq<Item>, good: bool)
    requires |before| == |queues| == |bcs| && b < |bcs| && NoneTwice(pops)
    requires forall i, o :: 0 <= i < |bcs| && o in before[i] ==> o in pops
    requires forall o :: o in pops ==> exists i :: 0 <= i < |bcs| && o in before[i]
    requires Popped(bcs) == before[b := before[b] + popped] && Queues(bcs) == queues[b := bcs[b].queue]
    requires if queues[b] == [] then popped == [] && bcs[b].queue == [] else |popped| == 1 && popped[0] !in pops
    requires queues[b] == [] ==> forall i :: 0 <= i < |bcs| ==> queues[i] == []
    requires good ==> AllBestFirst(bcs, pops) && (popped != [] ==> AllBestFirst(bcs, pops + [popped[0]]))
    ensures Merged(bcs, pops + popped)
    ensures popped == [] ==> forall i :: 0 <= i < |bcs| ==> bcs[i].queue == []
    ensures good ==> AllBestFirst(bcs, pops + popped)
  {
    hide Merged, AllBestFirst;
    MergedMore(bcs, before, pops, b, popped);
    assert popped == [] ==> pops + popped == pops;
    assert popped != [] ==> popped == [popped[0]];
    forall i | 0 <= i < |bcs| && popped == [] ensures bcs[i].queue == [] {
      assert Queues(bcs)[i] == bcs[i].queue;
    }
  }

  lemma WaitsParts(bcs: Containers, waiting: seq<nat>)
    requires Waits(bcs, waiting)
    ensures NoneTwice(waiting) && (forall j :: 0 <= j < |waiting| ==> waiting[j] < |bcs|)
    ensures forall i :: 0 <= i < |bcs| ==> Queues(bcs)[i] == bcs[i].queue && (Queues(bcs)[i] != [] ==> i in waiting)
  {}

  lemma MergedParts(bcs: Containers, pops: seq<Item>)
    requires Merged(bcs, pops)
    ensures NoneTwice(pops) && (forall i, o :: 0 <= i < |bcs| && o in Popped(bcs)[i] ==> o in pops)
    ensures forall o :: o in pops ==> exists i :: 0 <= i < |bcs| && o in Popped(bcs)[i]
  {
    forall o | o in pops ensures exists i :: 0 <= i < |bcs| && o in Popped(bcs)[i] {
      var i :| 0 <= i < |bcs| && o in bcs[i].popped;
      assert o in Popped(bcs)[i];
    }
  }

  lemma AnyBestWillDo(bcs: Containers, pops: seq<Item>, b: nat)
    requires Separate(bcs) && AllGood(bcs) && Merged(bcs, pops) && b < |bcs|
    requires forall i :: 0 <= i < |bcs| ==> NotAbove(bcs[i].queue, bcs[b].queue)
    ensures forall o :: IsBest(bcs[b].queue, o) ==>
              o !in pops && (AllOrdered(bcs) && AllBestFirst(bcs, pops) ==> AllBestFirst(bcs, pops + [o]))
  {
    hide AllGood, AllOrdered, AllBestFirst, Separate, Merged;
    forall o | IsBest(bcs[b].queue, o) ensures o !in pops
      ensures AllOrdered(bcs) && AllBestFirst(bcs, pops) ==> AllBestFirst(bcs, pops + [o])
    {
      WaitingIsNowhere(bcs, pops, b, o);
      if AllOrdered(bcs) && AllBestFirst(bcs, pops) { StillAllBest(bcs, pops, b, o); }
    }
  }

  lemma WaitsOn(bcs: Containers, waiting: seq<nat>, waiting': seq<nat>, k: nat, queues: seq<seq<Item>>)
    requires k < |waiting| && NoneTwice(waiting) && (forall j :: 0 <= j < |waiting| ==> waiting[j] < |bcs|) && |queues| == |bcs|
    requires forall i :: 0 <= i < |bcs| && queues[i] != [] ==> i in waiting
    requires Queues(bcs) == queues[waiting[k] := bcs[waiting[k]].queue]
    requires waiting' == (waiting[..k] + waiting[k + 1..]) + if bcs[waiting[k]].queue != [] then [waiting[k]] else []
    ensures Waits(bcs, waiting')
  {
    var rest := waiting[..k] + waiting[k + 1..];
    forall i | 0 <= i < |bcs| && bcs[i].queue != [] && i != waiting[k] ensures i in rest {
      assert Queues(bcs)[i] == queues[i];
      var j :| 0 <= j < |waiting| && waiting[j] == i;
      assert rest[if j < k then j else j - 1] == i;
    }
  }

  /** At first all containers wait. */
  method InitialQueue(bcs: Containers) returns (waiting: seq<nat>)
    ensures Waits(bcs, waiting)
  {
    waiting := [];
    while |waiting| < |bcs|
      invariant |waiting| <= |bcs| && forall j :: 0 <= j < |waiting| ==> waiting[j] == j
    {
      waiting := waiting + [|waiting|];
    }
    forall i | 0 <= i < |bcs| ensures i in waiting {
      assert waiting[i] == i;
    }
  }

  lemma NothingPopped(bcs: Containers)
    requires forall i :: 0 <= i < |bcs| ==> bcs[i].popped == []
    ensures Merged(bcs, [])
    ensures AllBestFirst(bcs, [])
  {}

  /** The pop loop over all containers of a stack, whose edges have been initialised: numpops runs up to the limit
      while containers wait; accepted gives the answers of AddPrune. */
  method PopHypotheses(bcs: Containers, popLimit: nat, accepted: nat -> bool) returns (ghost pops: seq<Item>)
    requires Separate(bcs) && AllGood(bcs) && forall i :: 0 <= i < |bcs| ==> bcs[i].popped == []
    modifies bcs, EdgesOf(bcs)
    ensures AllGood(bcs) && Merged(bcs, pops) && |pops| <= popLimit
    ensures |pops| < popLimit ==> forall i :: 0 <= i < |bcs| ==> bcs[i].queue == []
    ensures AllOrdered(bcs) ==> AllBestFirst(bcs, pops)
  {
    hide AllOrdered, AllBestFirst, AllGood, Separate, Merged, Waits;
    var waiting := InitialQueue(bcs);
    var numpops := 1;
    pops := [];
    NothingPopped(bcs);
    while numpops <= popLimit && waiting != []
      invariant AllGood(bcs) && Merged(bcs, pops) && Waits(bcs, waiting)
      invariant |pops| <= numpops - 1 <= popLimit
      invariant |pops| < numpops - 1 ==> forall i :: 0 <= i < |bcs| ==> bcs[i].queue == []
      invariant AllOrdered(bcs) ==> AllBestFirst(bcs, pops)
    {
      ghost var popped;
      waiting, popped := PopOne(bcs, waiting, accepted(numpops), pops);
      pops := pops + popped;
      numpops := numpops + 1;
    }
    WaitsParts(bcs, waiting);
  }
}
